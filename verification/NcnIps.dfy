/**
  The part of add_management_ncn.py that chooses the addresses of a new management node, writes
  them to SLS and to the host records of BSS, and reads them back in a later command.
 */
module NcnIps {
  import opened Outcomes
  import opened Ipam
  import Text

  /** The node to add. Its BMC is known in the host records as the alias with "-mgmt" added. */
  datatype Node = Node(xname: string, ncnAlias: string, bmcXname: string, storage: bool) {
    function BmcAlias(): string {
      ncnAlias + "-mgmt"
    }
  }

  const NETWORKS: seq<string> := ["NMN", "CAN", "CMN", "MTL", "HMN", "CHN"]

  /** One item of the dictionary `ncn_ips`; the key "NMN-fmn-vip" is Entry("NMN", true, _). */
  datatype Entry = Entry(net: string, vip: bool, ip: nat)

  datatype HostRecord = HostRecord(aliases: seq<string>, ip: nat)

  /** How the check after the allocation looks at the virtual IPs: as the code is written, or only
      for fabric manager nodes, as its comment says. */
  datatype VipCheck = AsWritten | FmnOnly

  /** How the checks after the allocation come out where the code does not do what it means to do. */
  datatype Checks = Checks(vips: VipCheck, addresses: Equality)

  datatype NcnError =
    | Allocation(error: AllocationError)
    | VipEntryMissing
    | AlreadyInUse
    | MalformedAlias
    | BmcRecordMissing
    | NetworkMissing
    | ReservationMissing

  // ---------------------------------------------------------------------------------------------
  // Choosing the addresses
  // ---------------------------------------------------------------------------------------------

  predicate TakesVip(name: string) {
    name == "NMN" || name == "HMN"
  }

  predicate HasVip(networks: Networks, name: string) {
    && name in networks
    && networks[name].bootstrap.Some?
    && FMN_VIP in networks[name].bootstrap.value.reservations
  }

  function BmcReservation(node: Node, bmcIp: nat): Reservation {
    Reservation(node.bmcXname, bmcIp, node.bmcXname, [node.BmcAlias()])
  }

  function PutBootstrap(networks: Networks, name: string, s: Subnet): Networks
    requires name in networks
  {
    networks[name := networks[name].(bootstrap := Some(s))]
  }

  datatype Chosen = Chosen(vipSeen: bool, entries: seq<Entry>)

  /** The entries for `names`, in order; `vipSeen` is the flag fmn_vip_exists, which stays set. */
  ghost function ChooseFor(networks: Networks, names: seq<string>, isFmn: bool, allowedInDhcp: set<string>,
                           vipSeen: bool)
    : Result<Chosen, NcnError>
  {
    if names == [] then Success(Chosen(vipSeen, []))
    else if names[0] !in networks then ChooseFor(networks, names[1..], isFmn, allowedInDhcp, vipSeen)
    else
      match AllocateIn(networks, names[0], allowedInDhcp, false)
      case Failure(e) => Failure(Allocation(e))
      case Success(ip) =>
        var seen := vipSeen || (isFmn && TakesVip(names[0]) && HasVip(networks, names[0]));
        if isFmn && TakesVip(names[0]) && !seen then
          match AllocateIn(networks, names[0], allowedInDhcp, true)
          case Failure(e) => Failure(Allocation(e))
          case Success(vip) =>
            var rest :- ChooseFor(networks, names[1..], isFmn, allowedInDhcp, seen);
            Success(rest.(entries := [Entry(names[0], false, ip), Entry(names[0], true, vip)] + rest.entries))
        else
          var rest :- ChooseFor(networks, names[1..], isFmn, allowedInDhcp, seen);
          Success(rest.(entries := [Entry(names[0], false, ip)] + rest.entries))
  }

  /** Every reservation in any subnet of the network. */
  function AllReservations(n: Network): set<Reservation> {
    n.others + if n.bootstrap.Some? then n.bootstrap.value.reservations.Values else {}
  }

  predicate HasEntry(entries: seq<Entry>, net: string, vip: bool) {
    exists e :: e in entries && e.net == net && e.vip == vip
  }

  predicate HoldsEntryIp(entries: seq<Entry>, net: string, vip: bool, ip: nat) {
    exists e :: e in entries && e.net == net && e.vip == vip && e.ip == ip
  }

  /** Does the check look for the virtual IP of `name`? */
  predicate ChecksVip(name: string, isFmn: bool, vipSeen: bool, check: Checks) {
    TakesVip(name) && !vipSeen && (check.vips.AsWritten? || isFmn)
  }

  /** The check of one reservation against what has been chosen. */
  predicate Clashes(node: Node, name: string, r: Reservation, chosen: Chosen, bmcIp: nat, isFmn: bool,
                    check: Checks) {
    || r.name == node.ncnAlias
    || r.name == node.bmcXname
    || HoldsEntryIp(chosen.entries, name, false, r.ip)
    || (HasEntry(chosen.entries, name, false) && ChecksVip(name, isFmn, chosen.vipSeen, check)
        && HoldsEntryIp(chosen.entries, name, true, r.ip))
    || (name == "HMN" && SameAddress(check.addresses, r.ip, bmcIp))
  }

  /** The check asks for a virtual IP that was never chosen: a KeyError. */
  predicate LacksVip(name: string, chosen: Chosen, isFmn: bool, check: Checks) {
    && HasEntry(chosen.entries, name, false)
    && ChecksVip(name, isFmn, chosen.vipSeen, check)
    && !HasEntry(chosen.entries, name, true)
  }

  ghost predicate VipKeyError(networks: Networks, chosen: Chosen, isFmn: bool, check: Checks) {
    exists name :: name in networks && AllReservations(networks[name]) != {} && LacksVip(name, chosen, isFmn, check)
  }

  ghost predicate AnyClash(networks: Networks, node: Node, chosen: Chosen, bmcIp: nat, isFmn: bool, check: Checks) {
    exists name, r :: name in networks && r in AllReservations(networks[name])
                      && Clashes(node, name, r, chosen, bmcIp, isFmn, check)
  }

  /** What a successful allocation leaves in the State object: its `sls_networks` copy is what was
      read, without any reservation under the BMC's xname. */
  datatype Choice = Choice(bmcIp: nat, entries: seq<Entry>, local: Networks)

  ghost function WithBmc(networks: Networks, node: Node, bmcIp: nat): Networks
    requires "HMN" in networks && networks["HMN"].bootstrap.Some?
  {
    PutBootstrap(networks, "HMN", WithReservation(networks["HMN"].bootstrap.value, BmcReservation(node, bmcIp)))
  }

  ghost function WithoutBmc(networks: Networks, node: Node): Networks
    requires "HMN" in networks && networks["HMN"].bootstrap.Some?
  {
    PutBootstrap(networks, "HMN", Without(networks["HMN"].bootstrap.value, node.bmcXname))
  }

  ghost function AllocateNcn(networks: Networks, node: Node, isFmn: bool, allowedInDhcp: set<string>, check: Checks)
    : Result<Choice, NcnError>
  {
    match AllocateIn(networks, "HMN", {}, false)
    case Failure(e) => Failure(Allocation(e))
    case Success(bmcIp) =>
      var chosen :- ChooseFor(WithBmc(networks, node, bmcIp), NETWORKS, isFmn, allowedInDhcp, false);
      var local := WithoutBmc(networks, node);
      if VipKeyError(local, chosen, isFmn, check) then Failure(VipEntryMissing)
      else if AnyClash(local, node, chosen, bmcIp, isFmn, check) then Failure(AlreadyInUse)
      else Success(Choice(bmcIp, chosen.entries, local))
  }

  // ---------------------------------------------------------------------------------------------
  // Writing them to SLS and BSS
  // ---------------------------------------------------------------------------------------------

  function EntryAliases(node: Node, e: Entry): seq<string> {
    if e.vip then ["fmn-vip.local"]
    else
      var net := Text.Lower(e.net);
      [node.ncnAlias + "-" + net, "time-" + net, "time-" + net + ".local"]
      + (if e.net == "HMN" && node.storage then ["rgw-vip.hmn"] else [])
      + (if e.net == "NMN" then [node.xname, node.ncnAlias + ".local"] else [])
  }

  function EntryName(node: Node, e: Entry): string {
    if e.vip then FMN_VIP else node.ncnAlias
  }

  function EntryReservation(node: Node, e: Entry): Reservation {
    Reservation(EntryName(node, e), e.ip, if e.vip then "fmn-virtual-ip" else node.xname, EntryAliases(node, e))
  }

  /** The subnet with the entry's reservation; on the HMN the BMC's reservation comes along. */
  function WithEntry(s: Subnet, node: Node, e: Entry, bmcIp: nat): Subnet {
    var s' := WithReservation(s, EntryReservation(node, e));
    if e.net == "HMN" then WithReservation(s', BmcReservation(node, bmcIp)) else s'
  }

  /** SLS after the networks of the entries have been PUT one after the other. `puts` of the PUTs
      succeed; the next one fails and ends the run, as does an entry for an unknown network. */
  ghost function PutEntries(local: Networks, server: Networks, entries: seq<Entry>, node: Node, bmcIp: nat,
                            puts: nat): Networks
    decreases |entries|
  {
    if entries == [] || puts == 0 then server
    else
      var e := entries[0];
      if e.net !in local || local[e.net].bootstrap.None? then server
      else
        var local' := PutBootstrap(local, e.net, WithEntry(local[e.net].bootstrap.value, node, e, bmcIp));
        PutEntries(local', server[e.net := local'[e.net]], entries[1..], node, bmcIp, puts - 1)
  }

  function EntryRecord(node: Node, e: Entry): HostRecord {
    var net := Text.Lower(e.net);
    if e.vip then
      HostRecord(["fmn-vip." + net] + (if e.net == "NMN" then [FMN_VIP] else []), e.ip)
    else
      HostRecord([node.ncnAlias + "." + net] + (if e.net == "NMN" then [node.ncnAlias] else []), e.ip)
  }

  function EntryRecords(node: Node, entries: seq<Entry>): seq<HostRecord> {
    seq(|entries|, i requires 0 <= i < |entries| => EntryRecord(node, entries[i]))
  }

  function NewRecords(node: Node, entries: seq<Entry>, bmcIp: nat): seq<HostRecord> {
    EntryRecords(node, entries) + [HostRecord([node.BmcAlias()], bmcIp)]
  }

  // ---------------------------------------------------------------------------------------------
  // Reading them back
  // ---------------------------------------------------------------------------------------------

  datatype Found = Found(bmcIp: Option<nat>, entries: seq<Entry>)

  /** ncn_ips[net] = ip: a new value for the key, in the place the key already has. */
  function SetEntry(entries: seq<Entry>, net: string, ip: nat): seq<Entry> {
    if entries == [] then [Entry(net, false, ip)]
    else if entries[0].net == net then [Entry(net, false, ip)] + entries[1..]
    else [entries[0]] + SetEntry(entries[1..], net, ip)
  }

  function ScanAlias(found: Found, node: Node, name: string, ip: nat): Result<Found, NcnError> {
    if name == node.BmcAlias() then Success(found.(bmcIp := Some(ip)))
    else if name == node.ncnAlias then Success(found)
    else if node.ncnAlias <= name then
      var tokens := Text.Split(name, '.');
      if |tokens| < 2 then Failure(MalformedAlias)
      else Success(found.(entries := SetEntry(found.entries, Text.Upper(tokens[1]), ip)))
    else Success(found)
  }

  function ScanAliases(found: Found, node: Node, names: seq<string>, ip: nat): Result<Found, NcnError>
    decreases |names|
  {
    if names == [] then Success(found)
    else
      var found' :- ScanAlias(found, node, names[0], ip);
      ScanAliases(found', node, names[1..], ip)
  }

  function ScanRecords(found: Found, node: Node, records: seq<HostRecord>): Result<Found, NcnError>
    decreases |records|
  {
    if records == [] then Success(found)
    else
      var found' :- ScanAliases(found, node, records[0].aliases, records[0].ip);
      ScanRecords(found', node, records[1..])
  }

  /** The reservations without the one that holds `ip`. */
  function DropIp(reservations: map<string, Reservation>, ip: nat): map<string, Reservation> {
    map name | name in reservations && reservations[name].ip != ip :: reservations[name]
  }

  /** Takes the entry's reservation out of SLS; a network without bootstrap_dhcp is passed over. */
  ghost function DropEntry(networks: Networks, net: string, ip: nat): Result<Networks, NcnError> {
    if net !in networks then Failure(NetworkMissing)
    else if networks[net].bootstrap.None? then Success(networks)
    else
      var s := networks[net].bootstrap.value;
      if ip !in Ips(s.reservations) then Failure(ReservationMissing)
      else Success(PutBootstrap(networks, net, s.(reservations := DropIp(s.reservations, ip))))
  }

  ghost function DropEntries(networks: Networks, entries: seq<Entry>): Result<Networks, NcnError> {
    if entries == [] then Success(networks)
    else
      var networks' :- DropEntry(networks, entries[0].net, entries[0].ip);
      DropEntries(networks', entries[1..])
  }

  /** Some reservation with the address is taken out; which one, the order of the dictionary decides. */
  ghost predicate DropsOne(before: Networks, net: string, ip: nat, after: Networks) {
    && net in before
    && if before[net].bootstrap.None? then after == before
       else exists name ::
              && name in before[net].bootstrap.value.reservations
              && before[net].bootstrap.value.reservations[name].ip == ip
              && after == PutBootstrap(before, net, Without(before[net].bootstrap.value, name))
  }

  ghost predicate DropsAll(before: Networks, entries: seq<Entry>, after: Networks)
    decreases |entries|
  {
    if entries == [] then after == before
    else exists next :: DropsOne(before, entries[0].net, entries[0].ip, next) && DropsAll(next, entries[1..], after)
  }

  /** The entry's reservation can be taken out, or its network has no bootstrap_dhcp. */
  predicate Droppable(networks: Networks, e: Entry) {
    && e.net in networks
    && (networks[e.net].bootstrap.Some? ==> e.ip in Ips(networks[e.net].bootstrap.value.reservations))
  }

  predicate AllDroppable(networks: Networks, entries: seq<Entry>) {
    forall e :: e in entries ==> Droppable(networks, e)
  }

  predicate HeldTwice(reservations: map<string, Reservation>, ip: nat) {
    exists a, b :: a in reservations && b in reservations && a != b && reservations[a].ip == reservations[b].ip == ip
  }

  /** The BMC's address is still reserved once the entries' reservations are gone. */
  predicate BmcStays(networks: Networks, entries: seq<Entry>, bmcIp: nat) {
    && "HMN" in networks && networks["HMN"].bootstrap.Some?
    && var reservations := networks["HMN"].bootstrap.value.reservations;
       if Entry("HMN", false, bmcIp) in entries then HeldTwice(reservations, bmcIp) else bmcIp in Ips(reservations)
  }

  predicate Retrievable(networks: Networks, entries: seq<Entry>, bmcIp: nat) {
    AllDroppable(networks, entries) && BmcStays(networks, entries, bmcIp)
  }

  ghost function Retrieve(networks: Networks, records: seq<HostRecord>, node: Node): Result<Choice, NcnError> {
    var found :- ScanRecords(Found(None, []), node, records);
    if found.bmcIp.None? then Failure(BmcRecordMissing)
    else
      var dropped :- DropEntries(networks, found.entries);
      if "HMN" !in dropped || dropped["HMN"].bootstrap.None? then Failure(NetworkMissing)
      else
        var local :- DropEntry(dropped, "HMN", found.bmcIp.value);
        Success(Choice(found.bmcIp.value, found.entries, local))
  }

  // ---------------------------------------------------------------------------------------------
  // The State object
  // ---------------------------------------------------------------------------------------------

  /** The networks that the SLS service holds. */
  class Sls {
    var networks: Networks

    constructor (networks: Networks)
      ensures this.networks == networks
    {
      this.networks := networks;
    }

    method Put(name: string, n: Network)
      modifies this
      ensures networks == old(networks)[name := n]
    {
      networks := networks[name := n];
    }
  }

  ghost predicate AllDistinct(networks: Networks) {
    forall n :: n in networks && networks[n].bootstrap.Some? ==> DistinctIps(networks[n].bootstrap.value.reservations)
  }

  class State {
    const node: Node
    const isFmn: bool
    const allowedInDhcp: set<string>
    var ncnIps: seq<Entry>
    var bmcIp: nat
    var slsNetworks: Networks
    var hostRecords: seq<HostRecord>

    constructor (node: Node, isFmn: bool, allowedInDhcp: set<string>, slsNetworks: Networks,
                 hostRecords: seq<HostRecord>)
      ensures this.node == node && this.isFmn == isFmn && this.allowedInDhcp == allowedInDhcp
      ensures this.slsNetworks == slsNetworks && this.hostRecords == hostRecords && ncnIps == [] && bmcIp == 0
    {
      this.node := node;
      this.isFmn := isFmn;
      this.allowedInDhcp := allowedInDhcp;
      this.ncnIps := [];
      this.bmcIp := 0;
      this.slsNetworks := slsNetworks;
      this.hostRecords := hostRecords;
    }

    /** The loop over NETWORKS. */
    method ChooseNcnIps() returns (r: Result<Chosen, NcnError>)
      ensures r == ChooseFor(slsNetworks, NETWORKS, isFmn, allowedInDhcp, false)
    {
      var vipSeen := false;
      var entries: seq<Entry> := [];
      ghost var whole := ChooseFor(slsNetworks, NETWORKS, isFmn, allowedInDhcp, false);
      AfterNothing(whole);
      assert NETWORKS[0..] == NETWORKS;
      for i := 0 to |NETWORKS|
        invariant whole == After(entries, ChooseFor(slsNetworks, NETWORKS[i..], isFmn, allowedInDhcp, vipSeen))
      {
        var name := NETWORKS[i];
        assert NETWORKS[i..][0] == name && NETWORKS[i..][1..] == NETWORKS[i + 1..];
        if name in slsNetworks {
          ChooseFirst(slsNetworks, NETWORKS[i..], isFmn, allowedInDhcp, vipSeen);
          ghost var before := entries;
          var ip := AllocateIpAddressInSubnet(slsNetworks, name, allowedInDhcp, false);
          if ip.Failure? {
            return Failure(Allocation(ip.error));
          }
          entries := entries + [Entry(name, false, ip.value)];
          ghost var more := [Entry(name, false, ip.value)];
          if isFmn && TakesVip(name) {
            if HasVip(slsNetworks, name) {
              vipSeen := true;
            }
            if !vipSeen {
              var vip := AllocateIpAddressInSubnet(slsNetworks, name, allowedInDhcp, true);
              if vip.Failure? {
                return Failure(Allocation(vip.error));
              }
              entries := entries + [Entry(name, true, vip.value)];
              more := [Entry(name, false, ip.value), Entry(name, true, vip.value)];
            }
          }
          assert entries == before + more;
          AfterMore(before, more, ChooseFor(slsNetworks, NETWORKS[i + 1..], isFmn, allowedInDhcp, vipSeen));
        }
      }
      assert NETWORKS[|NETWORKS|..] == [];
      assert entries + [] == entries;
      return Success(Chosen(vipSeen, entries));
    }

    /** Looks through every reservation of every subnet in SLS. */
    method CheckNotInUse(chosen: Chosen, bmcIp: nat, check: Checks) returns (r: Option<NcnError>)
      ensures r == if VipKeyError(slsNetworks, chosen, isFmn, check) then Some(VipEntryMissing)
                   else if AnyClash(slsNetworks, node, chosen, bmcIp, isFmn, check) then Some(AlreadyInUse)
                   else None
    {
      var failed := false;
      var names := slsNetworks.Keys;
      while names != {}
        invariant names <= slsNetworks.Keys
        invariant forall name :: name in slsNetworks.Keys - names && AllReservations(slsNetworks[name]) != {} ==>
                    !LacksVip(name, chosen, isFmn, check)
        invariant failed <==>
            exists name, x :: name in slsNetworks.Keys - names && x in AllReservations(slsNetworks[name])
                                                && Clashes(node, name, x, chosen, bmcIp, isFmn, check)
      {
        var name :| name in names;
        var all := AllReservations(slsNetworks[name]);
        var left := all;
        ghost var before := failed;
        while left != {}
          invariant left <= all
          invariant left < all ==> !LacksVip(name, chosen, isFmn, check)
          invariant failed <==>
              before || exists x :: x in all - left && Clashes(node, name, x, chosen, bmcIp, isFmn, check)
        {
          var x :| x in left;
          if LacksVip(name, chosen, isFmn, check) {
            return Some(VipEntryMissing);
          }
          if Clashes(node, name, x, chosen, bmcIp, isFmn, check) {
            failed := true;
          }
          left := left - {x};
        }
        names := names - {name};
      }
      r := if failed then Some(AlreadyInUse) else None;
    }

    method AllocateNcnIps(check: Checks) returns (r: Option<NcnError>)
      modifies this
      ensures hostRecords == old(hostRecords)
      ensures match AllocateNcn(old(slsNetworks), node, isFmn, allowedInDhcp, check)
              case Failure(e) => r == Some(e)
              case Success(c) => r == None && ncnIps == c.entries && bmcIp == c.bmcIp && slsNetworks == c.local
    {
      var bmc := AllocateIpAddressInSubnet(slsNetworks, "HMN", {}, false);
      if bmc.Failure? {
        return Some(Allocation(bmc.error));
      }
      ghost var read := slsNetworks;
      // A temporary reservation keeps the NCN from being given the address of its BMC.
      slsNetworks := PutBootstrap(slsNetworks, "HMN",
                                  WithReservation(slsNetworks["HMN"].bootstrap.value, BmcReservation(node, bmc.value)));
      var chosen := ChooseNcnIps();
      if chosen.Failure? {
        return Some(chosen.error);
      }
      slsNetworks := PutBootstrap(slsNetworks, "HMN", Without(slsNetworks["HMN"].bootstrap.value, node.bmcXname));
      assert slsNetworks == WithoutBmc(read, node) by {
        var s := read["HMN"].bootstrap.value;
        assert s.reservations[node.bmcXname := BmcReservation(node, bmc.value)] - {node.bmcXname}
            == s.reservations - {node.bmcXname};
      }
      ncnIps := chosen.value.entries;
      bmcIp := bmc.value;
      r := CheckNotInUse(chosen.value, bmc.value, check);
    }

    /** `puts` of the PUT requests succeed. */
    method UpdateSlsNetworking(sls: Sls, puts: nat)
      modifies this, sls
      ensures sls.networks == PutEntries(old(slsNetworks), old(sls.networks), ncnIps, node, bmcIp, puts)
      ensures ncnIps == old(ncnIps) && bmcIp == old(bmcIp) && hostRecords == old(hostRecords)
    {
      for i := 0 to |ncnIps|
        invariant ncnIps == old(ncnIps) && bmcIp == old(bmcIp) && hostRecords == old(hostRecords)
        invariant i <= puts
        invariant PutEntries(old(slsNetworks), old(sls.networks), ncnIps, node, bmcIp, puts)
               == PutEntries(slsNetworks, sls.networks, ncnIps[i..], node, bmcIp, puts - i)
      {
        var e := ncnIps[i];
        if e.net !in slsNetworks || slsNetworks[e.net].bootstrap.None? {
          return;
        }
        slsNetworks := PutBootstrap(slsNetworks, e.net, WithEntry(slsNetworks[e.net].bootstrap.value, node, e, bmcIp));
        if i == puts {
          return;
        }
        sls.Put(e.net, slsNetworks[e.net]);
      }
    }

    method UpdateGlobalBssHostRecords()
      modifies this
      ensures hostRecords == old(hostRecords) + NewRecords(node, ncnIps, bmcIp)
      ensures ncnIps == old(ncnIps) && bmcIp == old(bmcIp) && slsNetworks == old(slsNetworks)
    {
      for i := 0 to |ncnIps|
        invariant ncnIps == old(ncnIps) && bmcIp == old(bmcIp) && slsNetworks == old(slsNetworks)
        invariant hostRecords == old(hostRecords) + EntryRecords(node, ncnIps[..i])
      {
        hostRecords := hostRecords + [EntryRecord(node, ncnIps[i])];
      }
      hostRecords := hostRecords + [HostRecord([node.BmcAlias()], bmcIp)];
    }

    /** Deletes the first reservation with this address, in whatever order the dictionary has. */
    method DropReservation(net: string, ip: nat) returns (found: bool)
      requires net in slsNetworks && slsNetworks[net].bootstrap.Some?
      modifies this`slsNetworks
      ensures found == (ip in Ips(old(slsNetworks)[net].bootstrap.value.reservations))
      ensures !found ==> slsNetworks == old(slsNetworks)
      ensures AllDistinct(old(slsNetworks)) ==> AllDistinct(slsNetworks)
      ensures found ==> DropsOne(old(slsNetworks), net, ip, slsNetworks)
      ensures found && AllDistinct(old(slsNetworks)) ==> DropEntry(old(slsNetworks), net, ip) == Success(slsNetworks)
    {
      var s := slsNetworks[net].bootstrap.value;
      var left := s.reservations.Keys;
      while left != {}
        invariant left <= s.reservations.Keys
        invariant forall name :: name in s.reservations.Keys - left ==> s.reservations[name].ip != ip
        invariant slsNetworks == old(slsNetworks)
      {
        var name :| name in left;
        if s.reservations[name].ip == ip {
          slsNetworks := PutBootstrap(slsNetworks, net, Without(s, name));
          if AllDistinct(old(slsNetworks)) {
            assert (s.reservations - {name}) == DropIp(s.reservations, ip);
          }
          return true;
        }
        left := left - {name};
      }
      return false;
    }

    /** The loop over the host records. */
    method ScanHostRecords() returns (r: Result<Found, NcnError>)
      ensures r == ScanRecords(Found(None, []), node, hostRecords)
    {
      var found := Found(None, []);
      for i := 0 to |hostRecords|
        invariant ScanRecords(Found(None, []), node, hostRecords) == ScanRecords(found, node, hostRecords[i..])
      {
        var record := hostRecords[i];
        for j := 0 to |record.aliases|
          invariant ScanRecords(Found(None, []), node, hostRecords)
                 == match ScanAliases(found, node, record.aliases[j..], record.ip)
                    case Failure(e) => Failure(e)
                    case Success(f) => ScanRecords(f, node, hostRecords[i + 1..])
        {
          var scanned := ScanAlias(found, node, record.aliases[j], record.ip);
          if scanned.Failure? {
            return Failure(scanned.error);
          }
          found := scanned.value;
        }
      }
      return Success(found);
    }

    /** The loop over the addresses found. */
    method DropReservations(entries: seq<Entry>) returns (r: Result<bool, NcnError>)
      requires DistinctNets(entries)
      modifies this`slsNetworks
      ensures r == Success(true) <==> AllDroppable(old(slsNetworks), entries)
      ensures r == Success(true) ==> DropsAll(old(slsNetworks), entries, slsNetworks)
    {
      ghost var read := slsNetworks;
      var missing := false;
      for i := 0 to |entries|
        invariant slsNetworks.Keys == read.Keys
        invariant forall e :: e in entries[i..] && e.net in read ==> slsNetworks[e.net] == read[e.net]
        invariant missing == !AllDroppable(read, entries[..i])
        invariant !missing ==>
                    forall after :: DropsAll(slsNetworks, entries[i..], after) ==> DropsAll(read, entries, after)
      {
        var e := entries[i];
        assert entries[i..][0] == e && entries[i..][1..] == entries[i + 1..];
        OneMoreDroppable(read, entries, i);
        OthersDiffer(entries, i);
        if e.net !in slsNetworks {
          assert !Droppable(read, e) && e in entries;
          return Failure(NetworkMissing);
        }
        ghost var before := slsNetworks;
        assert before[e.net] == read[e.net];
        if slsNetworks[e.net].bootstrap.Some? {
          var dropped := DropReservation(e.net, e.ip);
          assert dropped <==> Droppable(read, e);
          if !dropped {
            missing := true;
          }
        }
        assert !missing ==> DropsOne(before, e.net, e.ip, slsNetworks);
      }
      assert entries[..|entries|] == entries;
      assert DropsAll(slsNetworks, entries[|entries|..], slsNetworks);
      return Success(!missing);
    }

    method RetrieveExistingNcnIps() returns (r: Option<NcnError>)
      modifies this
      ensures hostRecords == old(hostRecords)
      ensures match ScanRecords(Found(None, []), node, hostRecords)
              case Failure(_) => r.Some?
              case Success(found) =>
                r == None <==>
                  found.bmcIp.Some? && Retrievable(old(slsNetworks), found.entries, found.bmcIp.value)
      ensures r == None ==>
                && ScanRecords(Found(None, []), node, hostRecords) == Success(Found(Some(bmcIp), ncnIps))
                && exists dropped ::
                    DropsAll(old(slsNetworks), ncnIps, dropped) && DropsOne(dropped, "HMN", bmcIp, slsNetworks)
      ensures AllDistinct(old(slsNetworks)) ==>
                match Retrieve(old(slsNetworks), hostRecords, node)
                case Failure(_) => r.Some?
                case Success(c) => r == None && ncnIps == c.entries && bmcIp == c.bmcIp && slsNetworks == c.local
    {
      var scanned := ScanHostRecords();
      if scanned.Failure? {
        return Some(scanned.error);
      }
      var found := scanned.value;
      if found.bmcIp.None? {
        return Some(BmcRecordMissing);
      }
      ScanRecordsKeepsDistinct(Found(None, []), node, hostRecords);
      ScanRecordsIsPlain(Found(None, []), node, hostRecords);
      ghost var read := slsNetworks;
      var complete := DropReservations(found.entries);
      if complete.Failure? {
        DropEntriesIff(read, found.entries);
        return Some(complete.error);
      }
      DropEntriesIff(read, found.entries);
      if complete.value {
        BmcStaysIff(read, found.entries, slsNetworks, found.bmcIp.value);
        DropsAllDistinct(read, found.entries, slsNetworks);
      }
      if "HMN" !in slsNetworks || slsNetworks["HMN"].bootstrap.None? {
        return Some(NetworkMissing);
      }
      var dropped := DropReservation("HMN", found.bmcIp.value);
      if !dropped || !complete.value {
        return Some(ReservationMissing);
      }
      ncnIps := found.entries;
      bmcIp := found.bmcIp.value;
      return None;
    }
  }

  ghost predicate DistinctNets(entries: seq<Entry>) {
    forall i, j :: 0 <= i < j < |entries| ==> entries[i].net != entries[j].net
  }

  lemma {:induction false} SetEntryKeepsDistinct(entries: seq<Entry>, net: string, ip: nat)
    requires DistinctNets(entries)
    ensures DistinctNets(SetEntry(entries, net, ip))
    ensures forall e :: e in SetEntry(entries, net, ip) ==> e.net == net || e in entries
  {
    if entries != [] && entries[0].net != net {
      SetEntryKeepsDistinct(entries[1..], net, ip);
    }
  }

  lemma {:induction false} ScanAliasesKeepsDistinct(found: Found, node: Node, names: seq<string>, ip: nat)
    requires DistinctNets(found.entries) && ScanAliases(found, node, names, ip).Success?
    ensures DistinctNets(ScanAliases(found, node, names, ip).value.entries)
    decreases |names|
  {
    if names != [] {
      var tokens := Text.Split(names[0], '.');
      if |tokens| >= 2 {
        SetEntryKeepsDistinct(found.entries, Text.Upper(tokens[1]), ip);
      }
      ScanAliasesKeepsDistinct(ScanAlias(found, node, names[0], ip).value, node, names[1..], ip);
    }
  }

  lemma {:induction false} ScanRecordsKeepsDistinct(found: Found, node: Node, records: seq<HostRecord>)
    requires DistinctNets(found.entries) && ScanRecords(found, node, records).Success?
    ensures DistinctNets(ScanRecords(found, node, records).value.entries)
    decreases |records|
  {
    if records != [] {
      ScanAliasesKeepsDistinct(found, node, records[0].aliases, records[0].ip);
      ScanRecordsKeepsDistinct(ScanAliases(found, node, records[0].aliases, records[0].ip).value, node, records[1..]);
    }
  }

  lemma {:induction false} SetEntryIsPlain(entries: seq<Entry>, net: string, ip: nat)
    requires forall e :: e in entries ==> !e.vip
    ensures forall e :: e in SetEntry(entries, net, ip) ==> !e.vip
  {
    if entries != [] && entries[0].net != net {
      SetEntryIsPlain(entries[1..], net, ip);
    }
  }

  lemma {:induction false} ScanAliasesIsPlain(found: Found, node: Node, names: seq<string>, ip: nat)
    requires forall e :: e in found.entries ==> !e.vip
    ensures var r := ScanAliases(found, node, names, ip);
            r.Success? ==> forall e :: e in r.value.entries ==> !e.vip
    decreases |names|
  {
    if names != [] && ScanAlias(found, node, names[0], ip).Success? {
      var tokens := Text.Split(names[0], '.');
      if |tokens| >= 2 {
        SetEntryIsPlain(found.entries, Text.Upper(tokens[1]), ip);
      }
      ScanAliasesIsPlain(ScanAlias(found, node, names[0], ip).value, node, names[1..], ip);
    }
  }

  lemma {:induction false} ScanRecordsIsPlain(found: Found, node: Node, records: seq<HostRecord>)
    requires forall e :: e in found.entries ==> !e.vip
    ensures var r := ScanRecords(found, node, records);
            r.Success? ==> forall e :: e in r.value.entries ==> !e.vip
    decreases |records|
  {
    if records != [] {
      ScanAliasesIsPlain(found, node, records[0].aliases, records[0].ip);
      var r := ScanAliases(found, node, records[0].aliases, records[0].ip);
      if r.Success? {
        ScanRecordsIsPlain(r.value, node, records[1..]);
      }
    }
  }

  lemma OthersDiffer(entries: seq<Entry>, i: nat)
    requires DistinctNets(entries) && i < |entries|
    ensures forall e :: e in entries[i + 1..] ==> e.net != entries[i].net && e in entries[i..]
  {
    forall e | e in entries[i + 1..]
      ensures e.net != entries[i].net && e in entries[i..]
    {
      var j :| 0 <= j < |entries[i + 1..]| && entries[i + 1..][j] == e;
      assert entries[i + 1 + j] == e && entries[i..][1 + j] == e;
    }
  }

  /** With different addresses there is one way to take them out. */
  lemma {:induction false} DropsAllDistinct(before: Networks, entries: seq<Entry>, after: Networks)
    requires DropsAll(before, entries, after)
    ensures AllDistinct(before) ==> AllDistinct(after) && DropEntries(before, entries) == Success(after)
    decreases |entries|
  {
    if entries != [] && AllDistinct(before) {
      var e := entries[0];
      var next :| DropsOne(before, e.net, e.ip, next) && DropsAll(next, entries[1..], after);
      if before[e.net].bootstrap.Some? {
        var s := before[e.net].bootstrap.value;
        var name :| name in s.reservations && s.reservations[name].ip == e.ip
                    && next == PutBootstrap(before, e.net, Without(s, name));
        assert s.reservations - {name} == DropIp(s.reservations, e.ip);
      }
      DropsAllDistinct(next, entries[1..], after);
    }
  }

  lemma OneMoreDroppable(networks: Networks, entries: seq<Entry>, i: nat)
    requires i < |entries|
    ensures AllDroppable(networks, entries[..i + 1]) <==>
              AllDroppable(networks, entries[..i]) && Droppable(networks, entries[i])
  {
    assert forall e :: e in entries[..i + 1] <==> e in entries[..i] || e == entries[i] by {
      assert entries[..i + 1] == entries[..i] + [entries[i]];
    }
  }

  lemma DropEntryIff(networks: Networks, e: Entry)
    ensures DropEntry(networks, e.net, e.ip).Success? <==> Droppable(networks, e)
  {
  }

  lemma OtherStaysDroppable(networks: Networks, e: Entry, f: Entry)
    requires DropEntry(networks, e.net, e.ip).Success? && f.net != e.net
    ensures Droppable(DropEntry(networks, e.net, e.ip).value, f) <==> Droppable(networks, f)
  {
  }

  lemma {:induction false} DropEntriesIff(networks: Networks, entries: seq<Entry>)
    requires DistinctNets(entries)
    ensures DropEntries(networks, entries).Success? <==> AllDroppable(networks, entries)
    decreases |entries|
  {
    if entries != [] {
      var e0, rest := entries[0], entries[1..];
      assert forall e :: e in entries <==> e == e0 || e in rest by {
        assert entries == [e0] + rest;
      }
      DropEntryIff(networks, e0);
      if DropEntry(networks, e0.net, e0.ip).Success? {
        DropEntriesIff(DropEntry(networks, e0.net, e0.ip).value, rest);
        OthersDiffer(entries, 0);
        forall e | e in rest
          ensures Droppable(DropEntry(networks, e0.net, e0.ip).value, e) <==> Droppable(networks, e)
        {
          OtherStaysDroppable(networks, e0, e);
        }
      }
    }
  }

  lemma DropsOneAt(before: Networks, e: Entry, next: Networks, net: string)
    requires DropsOne(before, e.net, e.ip, next) && net in before
    ensures net in next
    ensures e.net != net || before[net].bootstrap.None? ==> next[net] == before[net]
    ensures e.net == net && before[net].bootstrap.Some? ==> exists name :: TakenOut(before[net], name, e.ip, next[net])
  {
    if e.net == net && before[net].bootstrap.Some? {
      var s := before[net].bootstrap.value;
      var name :| name in s.reservations && s.reservations[name].ip == e.ip
                  && next == PutBootstrap(before, net, Without(s, name));
      assert TakenOut(before[net], name, e.ip, next[net]);
    }
  }

  /** What taking out the entries' reservations does to one network. */
  lemma {:induction false} DropsAllAt(before: Networks, entries: seq<Entry>, after: Networks, net: string)
    requires DistinctNets(entries) && DropsAll(before, entries, after) && net in before
    ensures net in after
    ensures (forall e :: e in entries ==> e.net != net) || before[net].bootstrap.None? ==> after[net] == before[net]
    ensures forall e :: e in entries && e.net == net && before[net].bootstrap.Some? ==>
              exists name :: TakenOut(before[net], name, e.ip, after[net])
    decreases |entries|
  {
    if entries != [] {
      var e0, rest := entries[0], entries[1..];
      var next :| DropsOne(before, e0.net, e0.ip, next) && DropsAll(next, rest, after);
      assert entries == [e0] + rest;
      OthersDiffer(entries, 0);
      DropsOneAt(before, e0, next, net);
      DropsAllAt(next, rest, after, net);
    }
  }

  ghost predicate TakenOut(before: Network, name: string, ip: nat, after: Network)
    requires before.bootstrap.Some?
  {
    && name in before.bootstrap.value.reservations
    && before.bootstrap.value.reservations[name].ip == ip
    && after == before.(bootstrap := Some(Without(before.bootstrap.value, name)))
  }

  lemma OneLess(reservations: map<string, Reservation>, name: string, ip: nat)
    requires name in reservations
    ensures ip in Ips(reservations - {name}) <==>
              if reservations[name].ip == ip then HeldTwice(reservations, ip) else ip in Ips(reservations)
  {
    var rest := reservations - {name};
    if reservations[name].ip == ip {
      if ip in Ips(rest) {
        var other :| other in rest && rest[other].ip == ip;
        assert other in reservations && other != name;
      }
      if a, b :| a in reservations && b in reservations && a != b && reservations[a].ip == reservations[b].ip == ip {
        var other := if a == name then b else a;
        assert other in rest && rest[other].ip == ip;
      }
    } else if ip in Ips(reservations) {
      var other :| other in reservations && reservations[other].ip == ip;
      assert other in rest && rest[other].ip == ip;
    }
  }

  /** Whichever reservations are taken out, the BMC's address is left or not. */
  lemma BmcStaysIff(before: Networks, entries: seq<Entry>, after: Networks, bmcIp: nat)
    requires DistinctNets(entries) && DropsAll(before, entries, after) && forall e :: e in entries ==> !e.vip
    ensures BmcStays(before, entries, bmcIp) <==>
              && "HMN" in after && after["HMN"].bootstrap.Some?
              && bmcIp in Ips(after["HMN"].bootstrap.value.reservations)
  {
    DropsAllKeys(before, entries, after);
    if "HMN" in before {
      DropsAllAt(before, entries, after, "HMN");
      if e :| e in entries && e.net == "HMN" {
        SameNetSameEntry(entries, e, bmcIp);
        if before["HMN"].bootstrap.Some? {
          var name :| TakenOut(before["HMN"], name, e.ip, after["HMN"]);
          OneLess(before["HMN"].bootstrap.value.reservations, name, bmcIp);
        }
      }
    }
  }

  lemma SameNetSameEntry(entries: seq<Entry>, e: Entry, bmcIp: nat)
    requires DistinctNets(entries) && e in entries && e.net == "HMN" && !e.vip
    ensures Entry("HMN", false, bmcIp) in entries <==> e.ip == bmcIp
  {
    var i :| 0 <= i < |entries| && entries[i] == e;
    if Entry("HMN", false, bmcIp) in entries {
      var j :| 0 <= j < |entries| && entries[j] == Entry("HMN", false, bmcIp);
      assert i == j;
    }
  }

  lemma {:induction false} DropsAllKeys(before: Networks, entries: seq<Entry>, after: Networks)
    requires DropsAll(before, entries, after)
    ensures after.Keys == before.Keys
    decreases |entries|
  {
    if entries != [] {
      var next :| DropsOne(before, entries[0].net, entries[0].ip, next) && DropsAll(next, entries[1..], after);
      DropsAllKeys(next, entries[1..], after);
    }
  }

  /** What has already been chosen, put in front of the rest. */
  ghost function After(entries: seq<Entry>, rest: Result<Chosen, NcnError>): Result<Chosen, NcnError> {
    match rest
    case Failure(_) => rest
    case Success(c) => Success(c.(entries := entries + c.entries))
  }

  lemma ChooseFirst(networks: Networks, names: seq<string>, isFmn: bool, allowedInDhcp: set<string>, vipSeen: bool)
    requires names != [] && names[0] in networks
    ensures var ip := AllocateIn(networks, names[0], allowedInDhcp, false);
            var vip := AllocateIn(networks, names[0], allowedInDhcp, true);
            var seen := vipSeen || (isFmn && TakesVip(names[0]) && HasVip(networks, names[0]));
            var rest := ChooseFor(networks, names[1..], isFmn, allowedInDhcp, seen);
            ChooseFor(networks, names, isFmn, allowedInDhcp, vipSeen)
            == if ip.Failure? then Failure(Allocation(ip.error))
               else if !isFmn || !TakesVip(names[0]) || seen then After([Entry(names[0], false, ip.value)], rest)
               else if vip.Failure? then Failure(Allocation(vip.error))
               else After([Entry(names[0], false, ip.value), Entry(names[0], true, vip.value)], rest)
  {
  }

  lemma AfterNothing(rest: Result<Chosen, NcnError>)
    ensures After([], rest) == rest
  {
    if rest.Success? {
      assert [] + rest.value.entries == rest.value.entries;
    }
  }

  lemma AfterMore(a: seq<Entry>, b: seq<Entry>, rest: Result<Chosen, NcnError>)
    ensures After(a, After(b, rest)) == After(a + b, rest)
  {
    if rest.Success? {
      assert a + (b + rest.value.entries) == a + b + rest.value.entries;
    }
  }
}
