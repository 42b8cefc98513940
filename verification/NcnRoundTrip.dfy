/**
  The two commands for a new management node fit together: what ncn-data reads back is what
  allocate-ips chose, and writing it again leaves SLS as it was.
 */
module NcnRoundTrip {
  import opened Outcomes
  import opened Ipam
  import opened NcnIps
  import opened NcnEffects
  import opened Sequences
  import IpamRuns
  import Text

  predicate IsDigit(c: char) {
    '0' <= c <= '9'
  }

  /** ^(ncn-[mws][0-9][0-9][0-9]|fmn[0-9][0-9][0-9])$ */
  predicate ValidAlias(a: string) {
    || (|a| == 8 && a[..4] == "ncn-" && a[4] in "mws" && IsDigit(a[5]) && IsDigit(a[6]) && IsDigit(a[7]))
    || (|a| == 6 && a[..3] == "fmn" && IsDigit(a[3]) && IsDigit(a[4]) && IsDigit(a[5]))
  }

  /** Which aliases these are: ncn-m, ncn-w, ncn-s or fmn with three digits behind. */
  lemma ValidAliasIff(a: string)
    ensures ValidAlias(a) <==>
              && |a| >= 3 && '0' <= a[|a| - 3] <= '9' && '0' <= a[|a| - 2] <= '9' && '0' <= a[|a| - 1] <= '9'
              && var kind := a[..|a| - 3]; kind == "ncn-m" || kind == "ncn-w" || kind == "ncn-s" || kind == "fmn"
  {
    if |a| == 8 {
      assert a[..5] == a[..4] + [a[4]];
      assert "ncn-m" == "ncn-" + ['m'] && "ncn-w" == "ncn-" + ['w'] && "ncn-s" == "ncn-" + ['s'];
    }
  }

  /** The entries without the virtual IPs. */
  function Plain(entries: seq<Entry>): seq<Entry> {
    if entries == [] then []
    else if entries[0].vip then Plain(entries[1..])
    else [entries[0]] + Plain(entries[1..])
  }

  /** Reading an address for a network puts it in the place of one that was read before, or behind the others. */
  lemma {:induction false} SetEntryIs(entries: seq<Entry>, net: string, ip: nat)
    requires DistinctNets(entries)
    ensures var after := SetEntry(entries, net, ip);
            && |after| == |entries| + (if exists e :: e in entries && e.net == net then 0 else 1)
            && (forall i :: 0 <= i < |entries| ==>
                  after[i] == if entries[i].net == net then Entry(net, false, ip) else entries[i])
            && ((forall e :: e in entries ==> e.net != net) ==> after[|entries|] == Entry(net, false, ip))
  {
    if entries != [] {
      assert entries == [entries[0]] + entries[1..];
      if entries[0].net != net {
        SetEntryIs(entries[1..], net, ip);
      } else {
        OthersDiffer(entries, 0);
      }
    }
  }

  lemma {:induction false} PlainAre(entries: seq<Entry>)
    ensures forall e :: e in Plain(entries) <==> e in entries && !e.vip
    ensures IpamRuns.VipsLast(entries) ==> DistinctNets(Plain(entries))
  {
    if entries != [] {
      var rest := entries[1..];
      assert entries == [entries[0]] + rest;
      PlainAre(rest);
      if IpamRuns.VipsLast(entries) && !entries[0].vip {
        FirstIsPlain(entries);
        forall j | 0 <= j < |Plain(rest)|
          ensures Plain(rest)[j].net != entries[0].net
        {
          assert Plain(rest)[j] in Plain(rest);
        }
      }
    }
  }

  // ---------------------------------------------------------------------------------------------
  // Reading the host records
  // ---------------------------------------------------------------------------------------------

  lemma AliasFacts(node: Node)
    requires ValidAlias(node.ncnAlias)
    ensures '.' !in node.ncnAlias
    ensures !(node.ncnAlias <= FMN_VIP) && forall rest :: !(node.ncnAlias <= "fmn-vip." + rest)
  {
    forall rest
      ensures !(node.ncnAlias <= "fmn-vip." + rest)
    {
      assert ("fmn-vip." + rest)[0] == 'f' && ("fmn-vip." + rest)[3] == '-';
    }
    assert node.ncnAlias[0] in node.ncnAlias[..3] + node.ncnAlias[..4];
    forall i | 0 <= i < |node.ncnAlias|
      ensures node.ncnAlias[i] != '.'
    {
      assert i < 3 ==> node.ncnAlias[i] == node.ncnAlias[..3][i];
      assert i < 4 ==> node.ncnAlias[i] == node.ncnAlias[..4][i];
    }
  }

  lemma {:induction false} ScanForeign(found: Found, node: Node, names: seq<string>, ip: nat)
    requires forall a :: a in names ==> !(node.ncnAlias <= a)
    ensures ScanAliases(found, node, names, ip) == Success(found)
    decreases |names|
  {
    if names != [] {
      assert names[0] in names;
      assert node.ncnAlias <= node.BmcAlias();
      assert forall a :: a in names[1..] ==> a in names;
      ScanForeign(found, node, names[1..], ip);
    }
  }

  lemma {:induction false} ScanOldRecords(found: Found, node: Node, records: seq<HostRecord>, more: seq<HostRecord>)
    requires IpamRuns.NotInHostRecords(records, node.ncnAlias)
    ensures ScanRecords(found, node, records + more) == ScanRecords(found, node, more)
    decreases |records|
  {
    if records == [] {
      assert records + more == more;
    } else {
      assert records[0] in records;
      ScanForeign(found, node, records[0].aliases, records[0].ip);
      assert (records + more)[0] == records[0] && (records + more)[1..] == records[1..] + more;
      ScanOldRecords(found, node, records[1..], more);
    }
  }

  lemma {:induction false} SetNewEntry(entries: seq<Entry>, net: string, ip: nat)
    requires !HasNet(entries, net)
    ensures SetEntry(entries, net, ip) == entries + [Entry(net, false, ip)]
  {
    if entries != [] {
      assert entries[0] in entries;
      assert forall e :: e in entries[1..] ==> e in entries;
      SetNewEntry(entries[1..], net, ip);
    }
  }

  /** The record that allocate-ips wrote for an entry gives that entry back; a virtual IP's gives nothing. */
  lemma ScanEntryRecord(found: Found, node: Node, e: Entry)
    requires ValidAlias(node.ncnAlias) && Text.IsUpperName(e.net) && (!e.vip ==> !HasNet(found.entries, e.net))
    ensures var r := EntryRecord(node, e);
            ScanAliases(found, node, r.aliases, r.ip)
            == Success(if e.vip then found else found.(entries := found.entries + [e]))
  {
    var r := EntryRecord(node, e);
    var net := Text.Lower(e.net);
    AliasFacts(node);
    Text.UpperOfLower(e.net);
    if e.vip {
      ScanForeign(found, node, r.aliases, r.ip);
    } else {
      var name := node.ncnAlias + "." + net;
      assert r.aliases[0] == name;
      assert name[|node.ncnAlias|] == '.' && node.BmcAlias()[|node.ncnAlias|] == '-';
      assert node.ncnAlias <= name;
      Text.SplitInTwo(node.ncnAlias, '.', net);
      SetNewEntry(found.entries, e.net, e.ip);
      var found' := found.(entries := found.entries + [e]);
      assert ScanAlias(found, node, name, e.ip) == Success(found');
      assert ScanAliases(found', node, [], e.ip) == Success(found');
      if e.net == "NMN" {
        assert r.aliases[1..] == [node.ncnAlias];
        assert node.ncnAlias != node.BmcAlias();
        assert r.aliases[1..][1..] == [];
        assert ScanAliases(found', node, r.aliases[1..], e.ip) == Success(found');
      } else {
        assert r.aliases[1..] == [];
      }
    }
  }

  lemma ScanBmcRecord(found: Found, node: Node, bmcIp: nat)
    ensures ScanRecords(found, node, [HostRecord([node.BmcAlias()], bmcIp)]) == Success(found.(bmcIp := Some(bmcIp)))
  {
    var records := [HostRecord([node.BmcAlias()], bmcIp)];
    var found' := found.(bmcIp := Some(bmcIp));
    assert ScanAlias(found, node, node.BmcAlias(), bmcIp) == Success(found');
    assert records[0].aliases[1..] == [] && records[1..] == [];
    assert ScanAliases(found, node, records[0].aliases, bmcIp) == Success(found');
  }

  lemma ScanFirst(found: Found, found': Found, node: Node, records: seq<HostRecord>)
    requires records != [] && ScanAliases(found, node, records[0].aliases, records[0].ip) == Success(found')
    ensures ScanRecords(found, node, records) == ScanRecords(found', node, records[1..])
  {
  }

  /** What the record of an entry adds to what has been found: a virtual IP adds nothing. */
  function WithPlain(found: Found, e: Entry): Found {
    if e.vip then found else found.(entries := found.entries + [e])
  }

  lemma PlainFirst(found: Found, entries: seq<Entry>)
    requires entries != []
    ensures WithPlain(found, entries[0]).entries + Plain(entries[1..]) == found.entries + Plain(entries)
  {
    Associative(found.entries, [entries[0]], Plain(entries[1..]));
  }

  lemma {:induction false} ScanNewRecords(found: Found, node: Node, entries: seq<Entry>, bmcIp: nat)
    requires ValidAlias(node.ncnAlias) && IpamRuns.VipsLast(entries)
    requires forall e :: e in entries ==> Text.IsUpperName(e.net) && (!e.vip ==> !HasNet(found.entries, e.net))
    ensures ScanRecords(found, node, NewRecords(node, entries, bmcIp))
         == Success(Found(Some(bmcIp), found.entries + Plain(entries)))
    decreases |entries|
  {
    var records := NewRecords(node, entries, bmcIp);
    if entries == [] {
      assert records == [HostRecord([node.BmcAlias()], bmcIp)];
      ScanBmcRecord(found, node, bmcIp);
      assert found.entries + Plain(entries) == found.entries;
    } else {
      var found' := WithPlain(found, entries[0]);
      ScanFirstNewRecord(found, node, entries, bmcIp);
      StillNew(found, found', entries);
      ScanNewRecords(found', node, entries[1..], bmcIp);
      PlainFirst(found, entries);
    }
  }

  lemma ScanFirstNewRecord(found: Found, node: Node, entries: seq<Entry>, bmcIp: nat)
    requires ValidAlias(node.ncnAlias) && entries != []
    requires Text.IsUpperName(entries[0].net) && (!entries[0].vip ==> !HasNet(found.entries, entries[0].net))
    ensures ScanRecords(found, node, NewRecords(node, entries, bmcIp))
         == ScanRecords(WithPlain(found, entries[0]), node, NewRecords(node, entries[1..], bmcIp))
  {
    var records := NewRecords(node, entries, bmcIp);
    assert records[0] == EntryRecord(node, entries[0]) && records[1..] == NewRecords(node, entries[1..], bmcIp);
    ScanEntryRecord(found, node, entries[0]);
    ScanFirst(found, WithPlain(found, entries[0]), node, records);
  }

  lemma StillNew(found: Found, found': Found, entries: seq<Entry>)
    requires entries != [] && IpamRuns.VipsLast(entries)
    requires forall e :: e in entries ==> !e.vip ==> !HasNet(found.entries, e.net)
    requires found'.entries == found.entries || found'.entries == found.entries + [entries[0]]
    ensures forall f :: f in entries[1..] ==> f in entries && (!f.vip ==> !HasNet(found'.entries, f.net))
  {
    FirstIsPlain(entries);
    forall f | f in entries[1..]
      ensures f in entries && (!f.vip ==> !HasNet(found'.entries, f.net))
    {
      assert f in entries;
    }
  }

  lemma NetworksAreUpper()
    ensures forall name :: name in NETWORKS ==> Text.IsUpperName(name)
  {
    forall name | name in NETWORKS
      ensures Text.IsUpperName(name)
    {
      assert name == "NMN" || name == "CAN" || name == "CMN" || name == "MTL" || name == "HMN" || name == "CHN";
    }
  }

  // ---------------------------------------------------------------------------------------------
  // Taking the reservations out of SLS
  // ---------------------------------------------------------------------------------------------

  lemma DropIpIsWithout(reservations: map<string, Reservation>, name: string)
    requires DistinctIps(reservations) && name in reservations
    ensures DropIp(reservations, reservations[name].ip) == reservations - {name}
  {
  }

  /** The network of an entry holds the node's reservation with the entry's address. */
  ghost predicate HoldsEntry(networks: Networks, node: Node, e: Entry) {
    && e.net in networks
    && networks[e.net].bootstrap.Some?
    && var reservations := networks[e.net].bootstrap.value.reservations;
       DistinctIps(reservations) && node.ncnAlias in reservations
           && reservations[node.ncnAlias] == EntryReservation(node, e)
  }

  function WithoutName(n: Network, name: string): Network {
    if n.bootstrap.Some? then n.(bootstrap := Some(Without(n.bootstrap.value, name))) else n
  }

  function WithoutEntries(networks: Networks, node: Node, entries: seq<Entry>): Networks {
    map n | n in networks :: if HasNet(entries, n) then WithoutName(networks[n], node.ncnAlias) else networks[n]
  }

  lemma {:induction false} DropEntriesIs(networks: Networks, node: Node, entries: seq<Entry>)
    requires DistinctNets(entries) && forall e :: e in entries ==> !e.vip && HoldsEntry(networks, node, e)
    ensures DropEntries(networks, entries) == Success(WithoutEntries(networks, node, entries))
    decreases |entries|
  {
    if entries == [] {
      assert WithoutEntries(networks, node, entries) == networks;
    } else {
      var e, rest := entries[0], entries[1..];
      assert entries == [e] + rest;
      assert e in entries;
      var s := networks[e.net].bootstrap.value;
      DropIpIsWithout(s.reservations, node.ncnAlias);
      assert s.reservations[node.ncnAlias].ip in Ips(s.reservations);
      var networks' := PutBootstrap(networks, e.net, Without(s, node.ncnAlias));
      assert DropEntry(networks, e.net, e.ip) == Success(networks');
      assert !HasNet(rest, e.net);
      forall f | f in rest
        ensures HoldsEntry(networks', node, f) && !f.vip
      {
        assert f in entries;
        assert HoldsEntry(networks, node, f);
        assert f.net != e.net;
      }
      DropEntriesIs(networks', node, rest);
      assert WithoutEntries(networks', node, rest) == WithoutEntries(networks, node, entries);
    }
  }

  // ---------------------------------------------------------------------------------------------
  // The round trip
  // ---------------------------------------------------------------------------------------------

  /** SLS holds what allocate-ips wrote for the entries and the BMC. */
  ghost predicate Written(networks: Networks, node: Node, entries: seq<Entry>, bmcIp: nat) {
    && (forall e :: e in entries ==>
          && e.net in networks && networks[e.net].bootstrap.Some?
          && EntryName(node, e) in networks[e.net].bootstrap.value.reservations
          && networks[e.net].bootstrap.value.reservations[EntryName(node, e)] == EntryReservation(node, e))
    && HasEntry(entries, "HMN", false)
    && "HMN" in networks && networks["HMN"].bootstrap.Some?
    && node.bmcXname in networks["HMN"].bootstrap.value.reservations
    && networks["HMN"].bootstrap.value.reservations[node.bmcXname] == BmcReservation(node, bmcIp)
  }

  lemma PutEntriesWrites(local: Networks, server: Networks, node: Node, entries: seq<Entry>, bmcIp: nat)
    requires AllBootstrapped(local, entries) && local.Keys == server.Keys
    requires GoodNames(node) && IpamRuns.VipsLast(entries) && HasEntry(entries, "HMN", false)
    ensures Written(PutEntries(local, server, entries, node, bmcIp, |entries|), node, entries, bmcIp)
  {
    var after := PutEntries(local, server, entries, node, bmcIp, |entries|);
    forall e | e in entries
      ensures e.net in after && after[e.net].bootstrap.Some?
      ensures EntryName(node, e) in after[e.net].bootstrap.value.reservations
      ensures after[e.net].bootstrap.value.reservations[EntryName(node, e)] == EntryReservation(node, e)
    {
      PutEntriesAddsAll(local, server, node, entries, bmcIp, e.net);
      AdditionsAre(node, entries, bmcIp, e.net);
      assert HasNet(entries, e.net);
    }
    var hmn :| hmn in entries && hmn.net == "HMN" && hmn.vip == false;
    PutEntriesAddsAll(local, server, node, entries, bmcIp, "HMN");
    AdditionsAre(node, entries, bmcIp, "HMN");
    assert HasNet(entries, "HMN");
  }

  /** SLS without the node: the reservations under its alias in the networks of the entries, and its
      BMC on the HMN, are gone; everything else, the virtual IPs included, is there. */
  function WithoutNode(networks: Networks, node: Node, entries: seq<Entry>): Networks {
    map n | n in networks ::
      var kept := if HasNet(entries, n) then WithoutName(networks[n], node.ncnAlias) else networks[n];
      if n == "HMN" then WithoutName(kept, node.bmcXname) else kept
  }

  lemma WrittenIsHeld(networks: Networks, node: Node, entries: seq<Entry>, bmcIp: nat, e: Entry)
    requires AllDistinct(networks) && Written(networks, node, entries, bmcIp) && e in entries && !e.vip
    ensures HoldsEntry(networks, node, e)
  {
  }

  lemma ScanFindsChoice(records: seq<HostRecord>, node: Node, entries: seq<Entry>, bmcIp: nat)
    requires ValidAlias(node.ncnAlias) && IpamRuns.NotInHostRecords(records, node.ncnAlias)
    requires IpamRuns.VipsLast(entries) && forall e :: e in entries ==> e.net in NETWORKS
    ensures ScanRecords(Found(None, []), node, records + NewRecords(node, entries, bmcIp))
         == Success(Found(Some(bmcIp), Plain(entries)))
  {
    NetworksAreUpper();
    ScanOldRecords(Found(None, []), node, records, NewRecords(node, entries, bmcIp));
    ScanNewRecords(Found(None, []), node, entries, bmcIp);
    assert [] + Plain(entries) == Plain(entries);
  }

  /** Reading back finds the addresses that were chosen, and takes exactly their reservations out. */
  lemma RetrieveFindsChoice(networks: Networks, records: seq<HostRecord>, node: Node, entries: seq<Entry>, bmcIp: nat)
    requires ValidAlias(node.ncnAlias) && GoodNames(node) && IpamRuns.NotInHostRecords(records, node.ncnAlias)
    requires IpamRuns.VipsLast(entries) && forall e :: e in entries ==> e.net in NETWORKS
    requires AllDistinct(networks) && Written(networks, node, entries, bmcIp)
    ensures Retrieve(networks, records + NewRecords(node, entries, bmcIp), node)
         == Success(Choice(bmcIp, Plain(entries), WithoutNode(networks, node, Plain(entries))))
  {
    ScanFindsChoice(records, node, entries, bmcIp);
    PlainAre(entries);
    forall e | e in Plain(entries)
      ensures !e.vip && HoldsEntry(networks, node, e)
    {
      WrittenIsHeld(networks, node, entries, bmcIp, e);
    }
    DropEntriesIs(networks, node, Plain(entries));
    DropBmc(networks, node, entries, bmcIp);
  }

  lemma DropBmc(networks: Networks, node: Node, entries: seq<Entry>, bmcIp: nat)
    requires GoodNames(node) && IpamRuns.VipsLast(entries) && AllDistinct(networks)
                && Written(networks, node, entries, bmcIp)
    ensures DropEntry(WithoutEntries(networks, node, Plain(entries)), "HMN", bmcIp)
         == Success(WithoutNode(networks, node, Plain(entries)))
  {
    var dropped := WithoutEntries(networks, node, Plain(entries));
    var s := dropped["HMN"].bootstrap.value;
    assert s.reservations[node.bmcXname].ip == bmcIp;
    assert DistinctIps(s.reservations);
    DropIpIsWithout(s.reservations, node.bmcXname);
    assert PutBootstrap(dropped, "HMN", Without(s, node.bmcXname)) == WithoutNode(networks, node, Plain(entries));
  }

  /** Adding the entry to the local copy gives the network as it is in SLS. */
  ghost predicate Restores(local: Networks, networks: Networks, node: Node, e: Entry, bmcIp: nat) {
    && e.net in local && local[e.net].bootstrap.Some? && e.net in networks
    && PutBootstrap(local, e.net, WithEntry(local[e.net].bootstrap.value, node, e, bmcIp))[e.net] == networks[e.net]
  }

  /** However many of the PUT requests succeed, SLS stays as it is. */
  lemma {:induction false} PutRestores(local: Networks, networks: Networks, node: Node, entries: seq<Entry>,
                                       bmcIp: nat, puts: nat)
    requires DistinctNets(entries) && forall e :: e in entries ==> Restores(local, networks, node, e, bmcIp)
    ensures PutEntries(local, networks, entries, node, bmcIp, puts) == networks
    decreases |entries|
  {
    if entries != [] && puts != 0 {
      var e, rest := entries[0], entries[1..];
      assert entries == [e] + rest;
      assert Restores(local, networks, node, e, bmcIp);
      var local' := PutBootstrap(local, e.net, WithEntry(local[e.net].bootstrap.value, node, e, bmcIp));
      assert networks[e.net := local'[e.net]] == networks;
      forall f | f in rest
        ensures Restores(local', networks, node, f, bmcIp)
      {
        assert Restores(local, networks, node, f, bmcIp);
        assert f.net != e.net;
      }
      PutRestores(local', networks, node, rest, bmcIp, puts - 1);
    }
  }

  /** Adding the entry, and on the HMN the BMC, to what is left without them. */
  lemma EntryRestores(s: Subnet, node: Node, e: Entry, bmcIp: nat)
    requires GoodNames(node) && !e.vip
    requires node.ncnAlias in s.reservations && s.reservations[node.ncnAlias] == EntryReservation(node, e)
    requires e.net == "HMN" ==>
               node.bmcXname in s.reservations && s.reservations[node.bmcXname] == BmcReservation(node, bmcIp)
    ensures var t := Without(s, node.ncnAlias);
            WithEntry(if e.net == "HMN" then Without(t, node.bmcXname) else t, node, e, bmcIp) == s
  {
    var t := Without(s, node.ncnAlias);
    var left := if e.net == "HMN" then Without(t, node.bmcXname) else t;
    assert WithEntry(left, node, e, bmcIp).reservations == s.reservations;
  }

  lemma SameBootstrap(n: Network, s: Subnet)
    requires n.bootstrap == Some(s)
    ensures n.(bootstrap := Some(s)) == n
  {
  }

  lemma WithoutNodeRestores(networks: Networks, node: Node, entries: seq<Entry>, bmcIp: nat, e: Entry)
    requires GoodNames(node) && IpamRuns.VipsLast(entries) && Written(networks, node, entries, bmcIp)
    requires e in Plain(entries)
    ensures Restores(WithoutNode(networks, node, Plain(entries)), networks, node, e, bmcIp)
  {
    PlainAre(entries);
    assert HasNet(Plain(entries), e.net);
    EntryRestores(networks[e.net].bootstrap.value, node, e, bmcIp);
    SameBootstrap(networks[e.net], networks[e.net].bootstrap.value);
  }

  lemma {:induction false} EnoughPuts(local: Networks, server: Networks, entries: seq<Entry>, node: Node, bmcIp: nat,
                                      puts: nat)
    requires |entries| <= puts
    ensures PutEntries(local, server, entries, node, bmcIp, puts)
         == PutEntries(local, server, entries, node, bmcIp, |entries|)
    decreases |entries|
  {
    if entries != [] && entries[0].net in local && local[entries[0].net].bootstrap.Some? {
      var e := entries[0];
      var local' := PutBootstrap(local, e.net, WithEntry(local[e.net].bootstrap.value, node, e, bmcIp));
      EnoughPuts(local', server[e.net := local'[e.net]], entries[1..], node, bmcIp, puts - 1);
    }
  }

  lemma ChoiceFacts(networks: Networks, node: Node, isFmn: bool, allowed: set<string>, check: Checks)
    requires AllocateNcn(networks, node, isFmn, allowed, check).Success?
    ensures var c := AllocateNcn(networks, node, isFmn, allowed, check).value;
            && IpamRuns.VipsLast(c.entries)
            && (forall e :: e in c.entries ==> e.net in NETWORKS)
            && HasEntry(c.entries, "HMN", false)
            && AllBootstrapped(c.local, c.entries) && c.local.Keys == networks.Keys
  {
    var bmcIp := AllocateIn(networks, "HMN", {}, false).value;
    var chosen := ChooseFor(WithBmc(networks, node, bmcIp), NETWORKS, isFmn, allowed, false).value;
    ChosenAreBootstrapped(networks, node, isFmn, allowed, bmcIp, chosen);
  }

  /** The two-command round trip. Once allocate-ips has gone through, ncn-data finds exactly the
      addresses it chose, takes exactly their reservations out of its copy, and whatever happens
      to its PUT requests SLS and the host records are as they were. */
  lemma TwoCommandRoundTrip(sys: IpamRuns.System, node: Node, isFmn: bool, allowed: set<string>, check: Checks,
                            puts: nat, inDhcp: set<string>)
    requires SafeNetworks(sys.networks, inDhcp) && allowed <= inDhcp
    requires ValidAlias(node.ncnAlias) && GoodNames(node) && !IpamRuns.KeepsIps(node.ncnAlias)
    requires IpamRuns.Choose(sys, node, isFmn, allowed, check).Success?
    requires |IpamRuns.Choose(sys, node, isFmn, allowed, check).value.entries| < puts
    ensures var c := IpamRuns.Choose(sys, node, isFmn, allowed, check).value;
            var after := IpamRuns.Step(sys, IpamRuns.AllocateIps(node, isFmn, allowed, check, true, puts));
            && Retrieve(after.networks, after.records, node)
               == Success(Choice(c.bmcIp, Plain(c.entries), WithoutNode(after.networks, node, Plain(c.entries))))
            && forall agrees, puts' :: IpamRuns.Step(after, IpamRuns.NcnData(node, agrees, puts')) == after
  {
    var c := IpamRuns.Choose(sys, node, isFmn, allowed, check).value;
    var after := IpamRuns.Step(sys, IpamRuns.AllocateIps(node, isFmn, allowed, check, true, puts));
    ChoiceFacts(sys.networks, node, isFmn, allowed, check);
    EnoughPuts(c.local, sys.networks, c.entries, node, c.bmcIp, puts);
    PutEntriesWrites(c.local, sys.networks, node, c.entries, c.bmcIp);
    IpamRuns.StepIsSafe(sys, IpamRuns.AllocateIps(node, isFmn, allowed, check, true, puts), inDhcp);
    ReadAndWriteBack(after, sys.records, node, c.entries, c.bmcIp);
  }

  lemma ReadAndWriteBack(after: IpamRuns.System, records: seq<HostRecord>, node: Node, entries: seq<Entry>, bmcIp: nat)
    requires after.records == records + NewRecords(node, entries, bmcIp)
    requires ValidAlias(node.ncnAlias) && GoodNames(node) && IpamRuns.NotInHostRecords(records, node.ncnAlias)
    requires IpamRuns.VipsLast(entries) && forall e :: e in entries ==> e.net in NETWORKS
    requires AllDistinct(after.networks) && Written(after.networks, node, entries, bmcIp)
    ensures Retrieve(after.networks, after.records, node)
         == Success(Choice(bmcIp, Plain(entries), WithoutNode(after.networks, node, Plain(entries))))
    ensures forall agrees, puts :: IpamRuns.Step(after, IpamRuns.NcnData(node, agrees, puts)) == after
  {
    RetrieveFindsChoice(after.networks, records, node, entries, bmcIp);
    PlainAre(entries);
    forall e | e in Plain(entries)
      ensures Restores(WithoutNode(after.networks, node, Plain(entries)), after.networks, node, e, bmcIp)
    {
      WithoutNodeRestores(after.networks, node, entries, bmcIp, e);
    }
    forall agrees, puts
      ensures IpamRuns.Step(after, IpamRuns.NcnData(node, agrees, puts)) == after
    {
      PutRestores(WithoutNode(after.networks, node, Plain(entries)), after.networks, node, Plain(entries), bmcIp, puts);
    }
  }
}
