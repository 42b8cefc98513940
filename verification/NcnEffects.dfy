/** What one run of allocate-ips does to SLS, network by network. */
module NcnEffects {
  import opened Outcomes
  import opened Ipam
  import opened NcnIps
  import opened Sequences
  import IpamRuns

  // ---------------------------------------------------------------------------------------------
  // The PUT requests together
  // ---------------------------------------------------------------------------------------------

  /** The reservations that the entries add to network `name`. */
  function Additions(node: Node, entries: seq<Entry>, bmcIp: nat, name: string): map<string, Reservation> {
    if entries == [] then map[]
    else
      var e := entries[0];
      (if e.net != name then map[]
       else if name == "HMN" then
         map[EntryName(node, e) := EntryReservation(node, e)] + map[node.bmcXname := BmcReservation(node, bmcIp)]
       else
         map[EntryName(node, e) := EntryReservation(node, e)])
      + Additions(node, entries[1..], bmcIp, name)
  }

  function Plus(s: Subnet, more: map<string, Reservation>): Subnet {
    s.(reservations := s.reservations + more)
  }

  /** The network with the additions, taken from the local copy if anything is added. */
  function Added(local: Networks, server: Networks, node: Node, entries: seq<Entry>, bmcIp: nat, name: string): Network
    requires name in local && local[name].bootstrap.Some? && name in server
  {
    if HasNet(entries, name) then
      local[name].(bootstrap := Some(Plus(local[name].bootstrap.value, Additions(node, entries, bmcIp, name))))
    else
      server[name]
  }

  predicate HasNet(entries: seq<Entry>, name: string) {
    exists e :: e in entries && e.net == name
  }

  ghost predicate AllBootstrapped(networks: Networks, entries: seq<Entry>) {
    forall e :: e in entries ==> e.net in networks && networks[e.net].bootstrap.Some?
  }

  /** When every PUT succeeds, SLS has each named network of the local copy with its additions. */
  lemma {:induction false} PutEntriesAddsAll(local: Networks, server: Networks, node: Node, entries: seq<Entry>,
                                             bmcIp: nat, name: string)
    requires AllBootstrapped(local, entries) && name in local && local[name].bootstrap.Some? && name in server
    ensures var after := PutEntries(local, server, entries, node, bmcIp, |entries|);
            && name in after
            && after[name] == Added(local, server, node, entries, bmcIp, name)
    decreases |entries|
  {
    if entries != [] {
      var e := entries[0];
      assert e in entries;
      var local' := PutBootstrap(local, e.net, WithEntry(local[e.net].bootstrap.value, node, e, bmcIp));
      var server' := server[e.net := local'[e.net]];
      assert forall f :: f in entries[1..] ==> f in entries;
      PutEntriesAddsAll(local', server', node, entries[1..], bmcIp, name);
      AddedStep(local, server, node, entries, bmcIp, name);
    }
  }

  lemma {:induction false} PutEntriesKeepsKeys(local: Networks, server: Networks, node: Node, entries: seq<Entry>,
                                               bmcIp: nat)
    requires AllBootstrapped(local, entries) && local.Keys == server.Keys
    ensures PutEntries(local, server, entries, node, bmcIp, |entries|).Keys == server.Keys
    decreases |entries|
  {
    if entries != [] {
      var e := entries[0];
      assert e in entries;
      var local' := PutBootstrap(local, e.net, WithEntry(local[e.net].bootstrap.value, node, e, bmcIp));
      assert forall f :: f in entries[1..] ==> f in entries;
      PutEntriesKeepsKeys(local', server[e.net := local'[e.net]], node, entries[1..], bmcIp);
    }
  }

  lemma {:induction false} PutEntriesKeepsOther(local: Networks, server: Networks, node: Node, entries: seq<Entry>,
                                                bmcIp: nat, name: string)
    requires AllBootstrapped(local, entries) && name in server && !HasNet(entries, name)
    ensures var after := PutEntries(local, server, entries, node, bmcIp, |entries|);
            name in after && after[name] == server[name]
    decreases |entries|
  {
    if entries != [] {
      var e := entries[0];
      assert e in entries;
      var local' := PutBootstrap(local, e.net, WithEntry(local[e.net].bootstrap.value, node, e, bmcIp));
      assert forall f :: f in entries[1..] ==> f in entries;
      PutEntriesKeepsOther(local', server[e.net := local'[e.net]], node, entries[1..], bmcIp, name);
    }
  }

  /** Networks that no entry names stay as they are. */
  lemma PutEntriesKeepsOthers(local: Networks, server: Networks, node: Node, entries: seq<Entry>, bmcIp: nat)
    requires AllBootstrapped(local, entries) && local.Keys == server.Keys
    ensures var after := PutEntries(local, server, entries, node, bmcIp, |entries|);
            && after.Keys == server.Keys
            && forall name :: name in server && !HasNet(entries, name) ==> after[name] == server[name]
  {
    PutEntriesKeepsKeys(local, server, node, entries, bmcIp);
    forall name | name in server && !HasNet(entries, name)
      ensures PutEntries(local, server, entries, node, bmcIp, |entries|)[name] == server[name]
    {
      PutEntriesKeepsOther(local, server, node, entries, bmcIp, name);
    }
  }

  lemma AddedStep(local: Networks, server: Networks, node: Node, entries: seq<Entry>, bmcIp: nat, name: string)
    requires entries != [] && entries[0].net in local && local[entries[0].net].bootstrap.Some?
    requires name in local && local[name].bootstrap.Some? && name in server
    ensures var e := entries[0];
            var local' := PutBootstrap(local, e.net, WithEntry(local[e.net].bootstrap.value, node, e, bmcIp));
            Added(local', server[e.net := local'[e.net]], node, entries[1..], bmcIp, name)
            == Added(local, server, node, entries, bmcIp, name)
  {
    var e, rest := entries[0], entries[1..];
    assert entries == [e] + rest;
    if e.net == name {
      PlusWithEntry(local[name].bootstrap.value, node, entries, bmcIp);
      var s' := WithEntry(local[name].bootstrap.value, node, e, bmcIp);
      if !HasNet(rest, name) {
        NoAdditions(node, rest, bmcIp, name);
        assert s'.reservations + map[] == s'.reservations;
        assert Plus(s', map[]) == s';
      }
    } else {
      assert HasNet(entries, name) <==> HasNet(rest, name);
      assert map[] + Additions(node, rest, bmcIp, name) == Additions(node, rest, bmcIp, name);
    }
  }

  lemma AddThenMore(m: map<string, Reservation>, key: string, r: Reservation, more: map<string, Reservation>)
    ensures m[key := r] + more == m + (map[key := r] + more)
  {
  }

  lemma AddTwoThenMore(m: map<string, Reservation>, a: string, r: Reservation, b: string, q: Reservation,
                       more: map<string, Reservation>)
    ensures m[a := r][b := q] + more == m + (map[a := r] + map[b := q] + more)
  {
  }

  lemma PlusWithEntry(s: Subnet, node: Node, entries: seq<Entry>, bmcIp: nat)
    requires entries != []
    ensures Plus(WithEntry(s, node, entries[0], bmcIp), Additions(node, entries[1..], bmcIp, entries[0].net))
         == Plus(s, Additions(node, entries, bmcIp, entries[0].net))
  {
    var e := entries[0];
    var more := Additions(node, entries[1..], bmcIp, e.net);
    if e.net == "HMN" {
      AddTwoThenMore(s.reservations, EntryName(node, e), EntryReservation(node, e), node.bmcXname,
                     BmcReservation(node, bmcIp), more);
    } else {
      AddThenMore(s.reservations, EntryName(node, e), EntryReservation(node, e), more);
    }
  }

  lemma {:induction false} NoAdditions(node: Node, entries: seq<Entry>, bmcIp: nat, name: string)
    requires !HasNet(entries, name)
    ensures Additions(node, entries, bmcIp, name) == map[]
  {
    if entries != [] {
      assert entries[0] in entries;
      assert forall e :: e in entries[1..] ==> e in entries;
      NoAdditions(node, entries[1..], bmcIp, name);
    }
  }

  /** The three names a node uses are different. */
  predicate GoodNames(node: Node) {
    node.ncnAlias != node.bmcXname && node.ncnAlias != FMN_VIP && node.bmcXname != FMN_VIP
  }

  ghost predicate IsAddition(node: Node, entries: seq<Entry>, bmcIp: nat, name: string, key: string, r: Reservation) {
    || (name == "HMN" && key == node.bmcXname && r == BmcReservation(node, bmcIp))
    || exists e :: e in entries && e.net == name && key == EntryName(node, e) && r == EntryReservation(node, e)
  }

  lemma {:induction false} AdditionIs(node: Node, entries: seq<Entry>, bmcIp: nat, name: string, key: string)
    requires key in Additions(node, entries, bmcIp, name)
    ensures IsAddition(node, entries, bmcIp, name, key, Additions(node, entries, bmcIp, name)[key])
  {
    var rest := entries[1..];
    assert entries == [entries[0]] + rest;
    var later := Additions(node, rest, bmcIp, name);
    if key in later {
      AdditionIs(node, rest, bmcIp, name, key);
      assert Additions(node, entries, bmcIp, name)[key] == later[key];
    } else {
      assert entries[0] in entries && entries[0].net == name;
    }
  }

  lemma LaterStays(node: Node, entries: seq<Entry>, bmcIp: nat, name: string, key: string)
    requires entries != [] && key in Additions(node, entries[1..], bmcIp, name)
    ensures key in Additions(node, entries, bmcIp, name)
    ensures Additions(node, entries, bmcIp, name)[key] == Additions(node, entries[1..], bmcIp, name)[key]
  {
  }

  lemma {:induction false} EntryIsAddition(node: Node, entries: seq<Entry>, bmcIp: nat, e: Entry)
    requires GoodNames(node) && IpamRuns.VipsLast(entries) && e in entries
    ensures EntryName(node, e) in Additions(node, entries, bmcIp, e.net)
    ensures Additions(node, entries, bmcIp, e.net)[EntryName(node, e)] == EntryReservation(node, e)
  {
    var rest, key := entries[1..], EntryName(node, e);
    assert entries == [entries[0]] + rest;
    if e in rest {
      EntryIsAddition(node, rest, bmcIp, e);
      LaterStays(node, entries, bmcIp, e.net, key);
    } else {
      var later := Additions(node, rest, bmcIp, e.net);
      if key in later {
        AdditionIs(node, rest, bmcIp, e.net, key);
        FirstIsPlain(entries);
        assert false;
      }
    }
  }

  lemma {:induction false} BmcIsAddition(node: Node, entries: seq<Entry>, bmcIp: nat)
    requires GoodNames(node) && HasNet(entries, "HMN")
    ensures node.bmcXname in Additions(node, entries, bmcIp, "HMN")
    ensures Additions(node, entries, bmcIp, "HMN")[node.bmcXname] == BmcReservation(node, bmcIp)
  {
    var rest := entries[1..];
    assert entries == [entries[0]] + rest;
    if HasNet(rest, "HMN") {
      BmcIsAddition(node, rest, bmcIp);
      LaterStays(node, entries, bmcIp, "HMN", node.bmcXname);
    } else {
      NoAdditions(node, rest, bmcIp, "HMN");
    }
  }

  /** The additions are the reservations of the entries and, on the HMN, of the BMC. */
  lemma AdditionsAre(node: Node, entries: seq<Entry>, bmcIp: nat, name: string)
    requires GoodNames(node) && IpamRuns.VipsLast(entries)
    ensures var more := Additions(node, entries, bmcIp, name);
            && (forall e :: e in entries && e.net == name ==>
                  EntryName(node, e) in more && more[EntryName(node, e)] == EntryReservation(node, e))
            && (name == "HMN" && HasNet(entries, name) ==>
                  node.bmcXname in more && more[node.bmcXname] == BmcReservation(node, bmcIp))
            && (forall key :: key in more ==> IsAddition(node, entries, bmcIp, name, key, more[key]))
  {
    forall e | e in entries && e.net == name
      ensures EntryName(node, e) in Additions(node, entries, bmcIp, name)
      ensures Additions(node, entries, bmcIp, name)[EntryName(node, e)] == EntryReservation(node, e)
    {
      EntryIsAddition(node, entries, bmcIp, e);
    }
    forall key | key in Additions(node, entries, bmcIp, name)
      ensures IsAddition(node, entries, bmcIp, name, key, Additions(node, entries, bmcIp, name)[key])
    {
      AdditionIs(node, entries, bmcIp, name, key);
    }
    if name == "HMN" && HasNet(entries, name) {
      BmcIsAddition(node, entries, bmcIp);
    }
  }

  lemma FirstIsPlain(entries: seq<Entry>)
    requires entries != [] && IpamRuns.VipsLast(entries)
    ensures forall f :: f in entries[1..] && f.net == entries[0].net ==> !entries[0].vip && f.vip
  {
    forall f | f in entries[1..] && f.net == entries[0].net
      ensures !entries[0].vip && f.vip
    {
      var j :| 0 <= j < |entries[1..]| && entries[1..][j] == f;
      assert entries[j + 1] == f;
    }
  }

  // ---------------------------------------------------------------------------------------------
  // Which addresses are chosen
  // ---------------------------------------------------------------------------------------------

  /** A fabric manager run gives `name` a virtual IP. The flag fmn_vip_exists stays set once a network
      has one, so an HMN without its own goes without when the NMN has one. */
  predicate GetsVip(networks: Networks, name: string, isFmn: bool) {
    isFmn && name in networks && TakesVip(name) && !HasVip(networks, name)
        && !(name == "HMN" && HasVip(networks, "NMN"))
  }

  ghost predicate Granting(networks: Networks, allowed: set<string>, name: string, vip: bool) {
    AllocateIn(networks, name, allowed, vip).Success?
  }

  /** The same as GetsVip, read off the loop: which of `names` get one when the flag starts as `seen`. */
  ghost predicate VipInLoop(networks: Networks, names: seq<string>, isFmn: bool, seen: bool, name: string) {
    if names == [] then false
    else
      var seen' := seen || (isFmn && TakesVip(names[0]) && HasVip(networks, names[0]));
      if names[0] == name then isFmn && TakesVip(name) && name in networks && !seen'
      else VipInLoop(networks, names[1..], isFmn, seen', name)
  }

  lemma VipInLoopIs(networks: Networks, isFmn: bool, name: string)
    ensures VipInLoop(networks, NETWORKS, isFmn, false, name) <==> GetsVip(networks, name, isFmn)
  {
    if VipInLoop(networks, NETWORKS, isFmn, false, name) {
      OnlyTakersGetVip(networks, NETWORKS, isFmn, false, name);
    }
    if name == "HMN" {
      var n1, n2, n3, n4 := NETWORKS[1..], NETWORKS[2..], NETWORKS[3..], NETWORKS[4..];
      assert n1[1..] == n2 && n2[1..] == n3 && n3[1..] == n4;
      var seen := isFmn && HasVip(networks, "NMN");
      assert VipInLoop(networks, n4, isFmn, seen, name) <==>
          isFmn && name in networks && !seen && !HasVip(networks, "HMN");
      assert VipInLoop(networks, n3, isFmn, seen, name) <==> VipInLoop(networks, n4, isFmn, seen, name);
      assert VipInLoop(networks, n2, isFmn, seen, name) <==> VipInLoop(networks, n3, isFmn, seen, name);
      assert VipInLoop(networks, n1, isFmn, seen, name) <==> VipInLoop(networks, n2, isFmn, seen, name);
    }
  }

  lemma {:induction false} OnlyTakersGetVip(networks: Networks, names: seq<string>, isFmn: bool, seen: bool,
                                            name: string)
    requires VipInLoop(networks, names, isFmn, seen, name)
    ensures isFmn && TakesVip(name) && name in networks && name in names && !HasVip(networks, name)
  {
    var seen' := seen || (isFmn && TakesVip(names[0]) && HasVip(networks, names[0]));
    if names[0] != name {
      OnlyTakersGetVip(networks, names[1..], isFmn, seen', name);
    }
  }

  ghost predicate AllGranted(networks: Networks, names: seq<string>, isFmn: bool, allowed: set<string>, seen: bool) {
    forall name :: name in names && name in networks ==>
      && Granting(networks, allowed, name, false)
      && (VipInLoop(networks, names, isFmn, seen, name) ==> Granting(networks, allowed, name, true))
  }

  /** The loop succeeds exactly when every address it asks for is granted. */
  lemma {:induction false} ChooseForSucceedsIff(networks: Networks, names: seq<string>, isFmn: bool,
                                                allowed: set<string>, seen: bool)
    requires NoRepeats(names)
    ensures ChooseFor(networks, names, isFmn, allowed, seen).Success? <==>
                AllGranted(networks, names, isFmn, allowed, seen)
    decreases |names|
  {
    if names != [] {
      var rest := names[1..];
      var seen' := seen || (isFmn && TakesVip(names[0]) && HasVip(networks, names[0]));
      ChooseForSucceedsIff(networks, rest, isFmn, allowed, seen');
      FirstGranted(networks, names, isFmn, allowed, seen);
    }
  }

  lemma FirstGranted(networks: Networks, names: seq<string>, isFmn: bool, allowed: set<string>, seen: bool)
    requires NoRepeats(names) && names != []
    ensures var seen' := seen || (isFmn && TakesVip(names[0]) && HasVip(networks, names[0]));
            AllGranted(networks, names, isFmn, allowed, seen) <==>
              && AllGranted(networks, names[1..], isFmn, allowed, seen')
              && (names[0] in networks ==>
                    && Granting(networks, allowed, names[0], false)
                    && (isFmn && TakesVip(names[0]) && !seen' ==> Granting(networks, allowed, names[0], true)))
  {
    var rest := names[1..];
    assert names == [names[0]] + rest;
    assert names[0] !in rest;
  }

  /** It asks for one address of each network and for the virtual IPs. */
  lemma {:induction false} ChooseForAsks(networks: Networks, names: seq<string>, isFmn: bool, allowed: set<string>,
                                         seen: bool)
    requires NoRepeats(names) && ChooseFor(networks, names, isFmn, allowed, seen).Success?
    ensures var c := ChooseFor(networks, names, isFmn, allowed, seen).value;
            && (forall name :: HasEntry(c.entries, name, false) <==> name in names && name in networks)
            && (forall name :: HasEntry(c.entries, name, true) <==> VipInLoop(networks, names, isFmn, seen, name))
    decreases |names|
  {
    if names != [] {
      var rest := names[1..];
      assert names == [names[0]] + rest;
      var c := ChooseFor(networks, names, isFmn, allowed, seen).value;
      if names[0] !in networks {
        ChooseForAsks(networks, rest, isFmn, allowed, seen);
        assert VipInLoop(networks, names, isFmn, seen, names[0]) == false;
        forall name
          ensures VipInLoop(networks, names, isFmn, seen, name) <==> VipInLoop(networks, rest, isFmn, seen, name)
        {
          if name == names[0] && VipInLoop(networks, rest, isFmn, seen, name) {
            OnlyTakersGetVip(networks, rest, isFmn, seen, name);
          }
        }
      } else {
        var seen' := seen || (isFmn && TakesVip(names[0]) && HasVip(networks, names[0]));
        ChooseForAsks(networks, rest, isFmn, allowed, seen');
        var later := ChooseFor(networks, rest, isFmn, allowed, seen').value.entries;
        forall name, vip
          ensures HasEntry(c.entries, name, vip) <==>
                    HasEntry(later, name, vip) || (name == names[0] && (vip ==> isFmn && TakesVip(name) && !seen'))
        {
          EntriesInFront(c.entries, later);
        }
        forall name | VipInLoop(networks, rest, isFmn, seen', name)
          ensures name != names[0]
        {
          OnlyTakersGetVip(networks, rest, isFmn, seen', name);
        }
      }
    }
  }

  lemma EntriesInFront(entries: seq<Entry>, rest: seq<Entry>)
    requires |rest| <= |entries| && entries[|entries| - |rest|..] == rest
    ensures forall e :: e in entries <==> e in entries[..|entries| - |rest|] || e in rest
  {
    assert entries == entries[..|entries| - |rest|] + rest;
  }

  /** A fabric manager run that ends with the flag unset has given every network its virtual IP. */
  lemma {:induction false} FlagUnset(networks: Networks, names: seq<string>, allowed: set<string>, seen: bool,
                                     name: string)
    requires ChooseFor(networks, names, true, allowed, seen).Success?
    requires !ChooseFor(networks, names, true, allowed, seen).value.vipSeen
    requires name in names && name in networks && TakesVip(name)
    ensures VipInLoop(networks, names, true, seen, name)
    decreases |names|
  {
    var seen' := seen || (TakesVip(names[0]) && HasVip(networks, names[0]));
    var rest := if names[0] in networks then seen' else seen;
    FlagStays(networks, names[1..], true, allowed, rest);
    if names[0] != name {
      FlagUnset(networks, names[1..], allowed, rest, name);
    }
  }

  lemma {:induction false} FlagStays(networks: Networks, names: seq<string>, isFmn: bool, allowed: set<string>,
                                     seen: bool)
    requires ChooseFor(networks, names, isFmn, allowed, seen).Success?
    ensures seen ==> ChooseFor(networks, names, isFmn, allowed, seen).value.vipSeen
    decreases |names|
  {
    if names != [] {
      var seen' := seen || (isFmn && TakesVip(names[0]) && HasVip(networks, names[0]));
      FlagStays(networks, names[1..], isFmn, allowed, if names[0] in networks then seen' else seen);
    }
  }

  /** The entries are for networks that have a bootstrap_dhcp subnet, the HMN among them. */
  lemma ChosenAreBootstrapped(networks: Networks, node: Node, isFmn: bool, allowed: set<string>, bmcIp: nat,
                              chosen: Chosen)
    requires AllocateIn(networks, "HMN", {}, false) == Success(bmcIp)
    requires ChooseFor(WithBmc(networks, node, bmcIp), NETWORKS, isFmn, allowed, false) == Success(chosen)
    ensures IpamRuns.VipsLast(chosen.entries) && HasEntry(chosen.entries, "HMN", false)
    ensures AllBootstrapped(WithoutBmc(networks, node), chosen.entries)
    ensures forall e :: e in chosen.entries ==>
              e.net in NETWORKS && IpamRuns.GrantsEntry(WithBmc(networks, node, bmcIp), allowed, e)
  {
    var withBmc := WithBmc(networks, node, bmcIp);
    ChooseForAsks(withBmc, NETWORKS, isFmn, allowed, false);
    IpamRuns.ChosenAreGranted(withBmc, NETWORKS, isFmn, allowed, false);
    assert NETWORKS[4] == "HMN";
    forall e | e in chosen.entries
      ensures e.net in networks && networks[e.net].bootstrap.Some?
    {
      assert IpamRuns.GrantsEntry(withBmc, allowed, e);
    }
  }
}
