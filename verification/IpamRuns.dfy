/**
  All the commands that change static addresses, as transitions of one system, and the promise that
  no run of them breaks: reservations stay apart from each other and from the gateway, inside the
  subnet, and below the DHCP pool.
 */
module IpamRuns {
  import opened Outcomes
  import opened Ipam
  import opened NcnIps
  import opened NcnPreReq
  import opened UanIps
  import opened Sequences

  /** SLS, and the host records in the global boot parameters of BSS. */
  datatype System = System(networks: Networks, records: seq<HostRecord>)

  /** A command with everything that decides how far it gets. The scripts work the blocks of supernet hacked subnets
      out anew in every command: WorkOutBlocks can come before each of the others, with any blocks. */
  datatype Command =
    | MakeRoom(count: nat, addingFmns: bool, accepted: set<string>)
    | AllocateIps(node: Node, isFmn: bool, allowed: set<string>, check: Checks, agrees: bool, puts: nat)
    | NcnData(node: Node, agrees: bool, puts: nat)
    | AddUan(uanAlias: string, xname: string, allowed: set<string>, equality: Equality, agrees: bool, puts: nat)
    | RemoveUan(uanAlias: string, xname: string, puts: nat)
    | WorkOutBlocks(blocks: map<string, Option<Block>>)

  /** The first three nodes of each kind keep the addresses they had: ncn-[mws]00[1-3]. */
  predicate KeepsIps(ncnAlias: string) {
    |ncnAlias| == 8 && ncnAlias[..4] == "ncn-" && ncnAlias[4] in "mws" && ncnAlias[5..7] == "00" && ncnAlias[7] in "123"
  }

  /** Which these are. */
  lemma KeepsIpsIff(ncnAlias: string)
    ensures KeepsIps(ncnAlias) <==>
              || ncnAlias == "ncn-m001" || ncnAlias == "ncn-m002" || ncnAlias == "ncn-m003"
              || ncnAlias == "ncn-w001" || ncnAlias == "ncn-w002" || ncnAlias == "ncn-w003"
              || ncnAlias == "ncn-s001" || ncnAlias == "ncn-s002" || ncnAlias == "ncn-s003"
  {
    if KeepsIps(ncnAlias) {
      assert ncnAlias == ncnAlias[..4] + [ncnAlias[4]] + ncnAlias[5..7] + [ncnAlias[7]];
    }
  }

  /** No host record has an alias that starts with the node's. The comparisons of addresses in the
      same check compare a string with an object, so they never find anything. */
  predicate NotInHostRecords(records: seq<HostRecord>, ncnAlias: string) {
    forall r, a :: r in records && a in r.aliases ==> !(ncnAlias <= a)
  }

  ghost function Choose(sys: System, node: Node, isFmn: bool, allowed: set<string>,
                        check: Checks): Result<Choice, NcnError> {
    if KeepsIps(node.ncnAlias) then Retrieve(sys.networks, sys.records, node)
    else
      var choice :- AllocateNcn(sys.networks, node, isFmn, allowed, check);
      if NotInHostRecords(sys.records, node.ncnAlias) then Success(choice) else Failure(AlreadyInUse)
  }

  ghost function Put(sys: System, node: Node, choice: Choice, puts: nat): System {
    sys.(networks := PutEntries(choice.local, sys.networks, choice.entries, node, choice.bmcIp, puts))
  }

  /** `agrees` stands for the checks against HSM, BSS and Kea. The host records come last. */
  ghost function Step(sys: System, c: Command): System {
    match c
    case MakeRoom(count, addingFmns, accepted) =>
      sys.(networks := PreReq(sys.networks, count, addingFmns, accepted))
    case AllocateIps(node, isFmn, allowed, check, agrees, puts) =>
      var choice := Choose(sys, node, isFmn, allowed, check);
      if choice.Failure? || !agrees then sys
      else
        var sys' := Put(sys, node, choice.value, puts);
        if KeepsIps(node.ncnAlias) || puts <= |choice.value.entries| then sys'
        else sys'.(records := sys.records + NewRecords(node, choice.value.entries, choice.value.bmcIp))
    case NcnData(node, agrees, puts) =>
      var choice := Retrieve(sys.networks, sys.records, node);
      if choice.Failure? || !agrees then sys else Put(sys, node, choice.value, puts)
    case AddUan(uanAlias, xname, allowed, equality, agrees, puts) =>
      sys.(networks := AllocateUan(sys.networks, uanAlias, xname, allowed, equality, agrees, puts))
    case RemoveUan(uanAlias, xname, puts) =>
      sys.(networks := DeallocateUan(sys.networks, uanAlias, xname, puts))
    case WorkOutBlocks(blocks) =>
      sys.(networks := WithBlocks(sys.networks, blocks))
  }

  /** A command whose checks against other services fail changes nothing. */
  lemma DisagreementChangesNothing(sys: System, c: Command)
    requires match c
             case AllocateIps(_, _, _, _, agrees, _) => !agrees
             case NcnData(_, agrees, _) => !agrees
             case AddUan(_, _, _, _, agrees, _) => !agrees
             case _ => false
    ensures Step(sys, c) == sys
  {
  }

  /** Only allocate-ips writes host records, only for a node that does not keep its addresses, and only when every PUT
      request to SLS has gone through and no alias of a record starts with the node's. It adds to those that are
      there. */
  lemma RecordsOnlyGrow(sys: System, c: Command)
    ensures var after := Step(sys, c).records;
            after == sys.records
            || (c.AllocateIps? && !KeepsIps(c.node.ncnAlias) && c.agrees
                && (forall r, a :: r in sys.records && a in r.aliases ==> !(c.node.ncnAlias <= a))
                && var choice := AllocateNcn(sys.networks, c.node, c.isFmn, c.allowed, c.check);
                   && choice.Success? && |choice.value.entries| < c.puts
                   && after == sys.records + NewRecords(c.node, choice.value.entries, choice.value.bmcIp))
  {
  }

  predicate InsideCidr(s: Subnet, block: Option<Block>) {
    block.Some? ==> s.cidr.base <= block.value.base
                    && block.value.base + block.value.size <= s.cidr.base + s.cidr.size
  }

  /** The network with another block for the search, if that is a part of the subnet. */
  function WithBlock(n: Network, block: Option<Block>): Network {
    if n.bootstrap.Some? && InsideCidr(n.bootstrap.value, block) then
      n.(bootstrap := Some(n.bootstrap.value.(unhacked := block)))
    else n
  }

  function WithBlocks(networks: Networks, blocks: map<string, Option<Block>>): Networks {
    map n | n in networks :: if n in blocks then WithBlock(networks[n], blocks[n]) else networks[n]
  }

  /** Any block inside the subnet is taken over, and nothing else changes. */
  lemma BlockIsTaken(networks: Networks, blocks: map<string, Option<Block>>, n: string)
    requires n in networks && n in blocks && networks[n].bootstrap.Some?
    requires blocks[n].Some? ==>
               var b, c := blocks[n].value, networks[n].bootstrap.value.cidr;
               c.base <= b.base && b.base + b.size <= c.base + c.size
    ensures n in WithBlocks(networks, blocks)
    ensures WithBlocks(networks, blocks)[n]
         == Network(Some(networks[n].bootstrap.value.(unhacked := blocks[n])), networks[n].others)
  {
  }

  ghost function Run(sys: System, commands: seq<Command>): System
    decreases |commands|
  {
    if commands == [] then sys else Run(Step(sys, commands[0]), commands[1..])
  }

  /** The command lets no network but those in `inDhcp` use DHCP addresses. */
  predicate Keeps(c: Command, inDhcp: set<string>) {
    match c
    case AllocateIps(_, _, allowed, _, _, _) => allowed <= inDhcp
    case AddUan(_, _, allowed, _, _, _) => allowed <= inDhcp
    case _ => true
  }

  /** Safety over all runs. */
  lemma {:induction false} RunIsSafe(sys: System, commands: seq<Command>, inDhcp: set<string>)
    requires SafeNetworks(sys.networks, inDhcp)
    requires forall c :: c in commands ==> Keeps(c, inDhcp)
    ensures SafeNetworks(Run(sys, commands).networks, inDhcp)
    decreases |commands|
  {
    if commands != [] {
      StepIsSafe(sys, commands[0], inDhcp);
      RunIsSafe(Step(sys, commands[0]), commands[1..], inDhcp);
    }
  }

  /** The same for one reservation of a reachable state, by arithmetic. */
  lemma ReservationsOfRuns(sys: System, commands: seq<Command>, inDhcp: set<string>, n: string, key: string)
    requires SafeNetworks(sys.networks, inDhcp)
    requires forall c :: c in commands ==>
               (c.AllocateIps? ==> c.allowed <= inDhcp) && (c.AddUan? ==> c.allowed <= inDhcp)
    requires var after := Run(sys, commands).networks;
             n in after && after[n].bootstrap.Some? && key in after[n].bootstrap.value.reservations
    ensures var s := Run(sys, commands).networks[n].bootstrap.value;
            var ip := s.reservations[key].ip;
            && s.cidr.base <= ip < s.cidr.base + s.cidr.size - 1 && ip != s.gateway
            && (s.dhcpStart.Some? && n !in inDhcp ==> ip < s.dhcpStart.value)
            && forall other :: other in s.reservations && other != key ==> s.reservations[other].ip != ip
  {
    RunIsSafe(sys, commands, inDhcp);
    SafeNetworksIff(Run(sys, commands).networks, inDhcp);
  }

  lemma StepIsSafe(sys: System, c: Command, inDhcp: set<string>)
    requires SafeNetworks(sys.networks, inDhcp) && Keeps(c, inDhcp)
    ensures SafeNetworks(Step(sys, c).networks, inDhcp)
  {
    match c
    case MakeRoom(count, addingFmns, accepted) =>
      PreReqIsSafe(sys.networks, count, addingFmns, accepted, inDhcp);
    case AllocateIps(node, isFmn, allowed, check, _, puts) =>
      if Choose(sys, node, isFmn, allowed, check).Success? {
        var choice := Choose(sys, node, isFmn, allowed, check).value;
        if KeepsIps(node.ncnAlias) {
          RetrievedIsReady(sys.networks, sys.records, node, inDhcp);
        } else {
          AllocatedIsReady(sys.networks, node, isFmn, allowed, check, inDhcp);
        }
        PutEntriesIsSafe(choice.local, sys.networks, choice.entries, node, choice.bmcIp, puts, inDhcp);
      }
    case NcnData(node, _, puts) =>
      var choice := Retrieve(sys.networks, sys.records, node);
      if choice.Success? {
        RetrievedIsReady(sys.networks, sys.records, node, inDhcp);
        PutEntriesIsSafe(choice.value.local, sys.networks, choice.value.entries, node, choice.value.bmcIp, puts,
                         inDhcp);
      }
    case AddUan(uanAlias, xname, allowed, equality, _, puts) =>
      PutGrantsIsSafe(sys.networks, sys.networks, UAN_NETWORKS, uanAlias, xname, allowed, equality, puts, inDhcp);
    case RemoveUan(uanAlias, xname, puts) =>
      PutRemovalsIsSafe(sys.networks, UAN_NETWORKS, uanAlias, xname, puts, inDhcp);
    case WorkOutBlocks(blocks) =>
      WithBlocksIsSafe(sys.networks, blocks, inDhcp);
  }

  /** Another block for the search changes nothing that the promise speaks of. */
  lemma WithBlocksIsSafe(networks: Networks, blocks: map<string, Option<Block>>, inDhcp: set<string>)
    requires SafeNetworks(networks, inDhcp)
    ensures SafeNetworks(WithBlocks(networks, blocks), inDhcp)
  {
    forall n | n in networks && networks[n].bootstrap.Some?
      ensures SafeSubnet(WithBlocks(networks, blocks)[n].bootstrap.value, n in inDhcp)
    {
      assert SafeSubnet(networks[n].bootstrap.value, n in inDhcp);
    }
  }

  // ---------------------------------------------------------------------------------------------
  // Moving the pool
  // ---------------------------------------------------------------------------------------------

  lemma PlanOnlyMovesUp(name: string, s: Subnet, count: nat, addingFmns: bool)
    requires PlanFor(name, s, count, addingFmns).Success?
    ensures s.dhcpStart.Some? && s.dhcpStart.value <= PlanFor(name, s, count, addingFmns).value.dhcpStart
  {
  }

  lemma MovedUpIsSafe(s: Subnet, start: nat, inDhcp: bool)
    requires SafeSubnet(s, inDhcp) && s.dhcpStart.Some? && s.dhcpStart.value <= start
    ensures SafeSubnet(s.(dhcpStart := Some(start)), inDhcp)
  {
  }

  lemma PreReqIsSafe(networks: Networks, count: nat, addingFmns: bool, accepted: set<string>, inDhcp: set<string>)
    requires SafeNetworks(networks, inDhcp)
    ensures SafeNetworks(PreReq(networks, count, addingFmns, accepted), inDhcp)
  {
    var plan := PlanAll(networks, count, addingFmns);
    if plan.Some? {
      forall n | n in networks && networks[n].bootstrap.Some? && n in plan.value
        ensures SafeSubnet(WithStart(networks[n], plan.value[n].dhcpStart).bootstrap.value, n in inDhcp)
      {
        assert PlanIn(networks, n, count, addingFmns) == Success(plan.value[n]);
        PlanOnlyMovesUp(n, networks[n].bootstrap.value, count, addingFmns);
        MovedUpIsSafe(networks[n].bootstrap.value, plan.value[n].dhcpStart, n in inDhcp);
      }
    }
  }

  // ---------------------------------------------------------------------------------------------
  // Writing entries to SLS
  // ---------------------------------------------------------------------------------------------

  /** The entry, and on the HMN the BMC, can be added to what the local copy holds. */
  ghost predicate EntryFits(s: Subnet, node: Node, e: Entry, bmcIp: nat, inDhcp: bool) {
    && Placed(s, inDhcp, e.ip)
    && FreeFor(s, EntryName(node, e), e.ip)
    && (e.net == "HMN" ==> Placed(s, inDhcp, bmcIp) && FreeFor(s, node.bmcXname, bmcIp) && e.ip != bmcIp)
  }

  ghost predicate Ready(local: Networks, entries: seq<Entry>, node: Node, bmcIp: nat, inDhcp: set<string>) {
    && (forall e :: e in entries && e.net in local && local[e.net].bootstrap.Some? ==>
          EntryFits(local[e.net].bootstrap.value, node, e, bmcIp, e.net in inDhcp))
    && (forall i, j :: 0 <= i < j < |entries| && entries[i].net == entries[j].net ==> entries[i].ip != entries[j].ip)
  }

  /** Adding the first entry leaves room for the others. */
  lemma StillReady(local: Networks, entries: seq<Entry>, node: Node, bmcIp: nat, inDhcp: set<string>)
    requires entries != [] && entries[0].net in local && local[entries[0].net].bootstrap.Some?
    requires Ready(local, entries, node, bmcIp, inDhcp)
    ensures Ready(PutBootstrap(local, entries[0].net,
                               WithEntry(local[entries[0].net].bootstrap.value, node, entries[0], bmcIp)),
                  entries[1..], node, bmcIp, inDhcp)
  {
    var e := entries[0];
    var local' := PutBootstrap(local, e.net, WithEntry(local[e.net].bootstrap.value, node, e, bmcIp));
    forall f | f in entries[1..] && f.net in local' && local'[f.net].bootstrap.Some?
      ensures EntryFits(local'[f.net].bootstrap.value, node, f, bmcIp, f.net in inDhcp)
    {
      var j :| 0 <= j < |entries[1..]| && entries[1..][j] == f;
      assert entries[j + 1] == f;
      assert f in entries;
      assert EntryFits(local[f.net].bootstrap.value, node, f, bmcIp, f.net in inDhcp);
    }
  }

  lemma {:induction false} PutEntriesIsSafe(local: Networks, server: Networks, entries: seq<Entry>, node: Node,
                                            bmcIp: nat, puts: nat, inDhcp: set<string>)
    requires SafeNetworks(local, inDhcp) && SafeNetworks(server, inDhcp)
    requires Ready(local, entries, node, bmcIp, inDhcp)
    ensures SafeNetworks(PutEntries(local, server, entries, node, bmcIp, puts), inDhcp)
    decreases |entries|
  {
    if entries != [] && puts != 0 && entries[0].net in local && local[entries[0].net].bootstrap.Some? {
      var e := entries[0];
      var s := local[e.net].bootstrap.value;
      var s' := WithEntry(s, node, e, bmcIp);
      WithEntryIsSafe(s, node, e, bmcIp, e.net in inDhcp);
      var local' := PutBootstrap(local, e.net, s');
      StillReady(local, entries, node, bmcIp, inDhcp);
      PutEntriesIsSafe(local', server[e.net := local'[e.net]], entries[1..], node, bmcIp, puts - 1, inDhcp);
    }
  }

  lemma WithEntryIsSafe(s: Subnet, node: Node, e: Entry, bmcIp: nat, inDhcp: bool)
    requires SafeSubnet(s, inDhcp) && EntryFits(s, node, e, bmcIp, inDhcp)
    ensures SafeSubnet(WithEntry(s, node, e, bmcIp), inDhcp)
  {
    var s' := WithReservation(s, EntryReservation(node, e));
    WithReservationSafe(s, inDhcp, EntryReservation(node, e));
    if e.net == "HMN" {
      WithReservationSafe(s', inDhcp, BmcReservation(node, bmcIp));
    }
  }

  // ---------------------------------------------------------------------------------------------
  // New addresses
  // ---------------------------------------------------------------------------------------------

  /** `networks` grants the address of the entry. */
  ghost predicate GrantsEntry(networks: Networks, allowed: set<string>, e: Entry) {
    AllocateIn(networks, e.net, allowed, e.vip) == Success(e.ip)
  }

  /** In `entries`, the virtual IP of a network comes after its ordinary address; no key repeats. */
  ghost predicate VipsLast(entries: seq<Entry>) {
    forall i, j :: 0 <= i < j < |entries| && entries[i].net == entries[j].net ==> !entries[i].vip && entries[j].vip
  }

  lemma {:induction false} ChosenAreGranted(networks: Networks, names: seq<string>, isFmn: bool,
                                            allowed: set<string>, vipSeen: bool)
    requires NoRepeats(names) && ChooseFor(networks, names, isFmn, allowed, vipSeen).Success?
    ensures var entries := ChooseFor(networks, names, isFmn, allowed, vipSeen).value.entries;
            && VipsLast(entries)
            && forall e :: e in entries ==> e.net in names && e.net in networks && GrantsEntry(networks, allowed, e)
    decreases |names|
  {
    if names != [] {
      if names[0] !in networks {
        ChosenAreGranted(networks, names[1..], isFmn, allowed, vipSeen);
      } else {
        var seen := vipSeen || (isFmn && TakesVip(names[0]) && HasVip(networks, names[0]));
        ChosenAreGranted(networks, names[1..], isFmn, allowed, seen);
      }
    }
  }

  /** The copy with the temporary reservation of the BMC is safe, and has the BMC's address in use. */
  lemma WithBmcIsSafe(networks: Networks, node: Node, inDhcp: set<string>)
    requires SafeNetworks(networks, inDhcp) && AllocateIn(networks, "HMN", {}, false).Success?
    ensures var bmcIp := AllocateIn(networks, "HMN", {}, false).value;
            var hmn := networks["HMN"].bootstrap.value;
            var withBmc := WithBmc(networks, node, bmcIp);
            && SafeNetworks(withBmc, inDhcp)
            && Placed(hmn, "HMN" in inDhcp, bmcIp) && bmcIp !in Existing(hmn)
            && bmcIp in Existing(withBmc["HMN"].bootstrap.value)
  {
    var bmcIp := AllocateIn(networks, "HMN", {}, false).value;
    var hmn := networks["HMN"].bootstrap.value;
    GrantedIsPlaced(networks, "HMN", {}, inDhcp, false);
    forall other | other in hmn.reservations
      ensures hmn.reservations[other].ip != bmcIp
    {
      assert hmn.reservations[other].ip in Existing(hmn);
    }
    WithReservationSafe(hmn, "HMN" in inDhcp, BmcReservation(node, bmcIp));
    assert WithReservation(hmn, BmcReservation(node, bmcIp)).reservations[node.bmcXname].ip == bmcIp;
  }

  lemma GrantedFits(networks: Networks, node: Node, allowed: set<string>, inDhcp: set<string>, e: Entry)
    requires SafeNetworks(networks, inDhcp) && allowed <= inDhcp
    requires AllocateIn(networks, "HMN", {}, false).Success?
    requires var bmcIp := AllocateIn(networks, "HMN", {}, false).value;
             GrantsEntry(WithBmc(networks, node, bmcIp), allowed, e)
    ensures var bmcIp := AllocateIn(networks, "HMN", {}, false).value;
            EntryFits(WithoutBmc(networks, node)[e.net].bootstrap.value, node, e, bmcIp, e.net in inDhcp)
  {
    var bmcIp := AllocateIn(networks, "HMN", {}, false).value;
    WithBmcIsSafe(networks, node, inDhcp);
    var t := WithBmc(networks, node, bmcIp)[e.net].bootstrap.value;
    GrantedIsPlaced(WithBmc(networks, node, bmcIp), e.net, allowed, inDhcp, e.vip);
    var s := WithoutBmc(networks, node)[e.net].bootstrap.value;
    forall name | name in s.reservations
      ensures s.reservations[name].ip != e.ip
      ensures e.net == "HMN" ==> s.reservations[name].ip != bmcIp
    {
      assert t.reservations[name] == s.reservations[name];
      assert s.reservations[name].ip in Existing(t);
      assert s.reservations[name].ip in Existing(networks[e.net].bootstrap.value);
    }
  }

  lemma AllocatedIsReady(networks: Networks, node: Node, isFmn: bool, allowed: set<string>, check: Checks,
                         inDhcp: set<string>)
    requires SafeNetworks(networks, inDhcp) && allowed <= inDhcp
    requires AllocateNcn(networks, node, isFmn, allowed, check).Success?
    ensures var c := AllocateNcn(networks, node, isFmn, allowed, check).value;
            SafeNetworks(c.local, inDhcp) && Ready(c.local, c.entries, node, c.bmcIp, inDhcp)
  {
    WithoutBmcIsSafe(networks, node, inDhcp);
    ChosenIsReady(networks, node, isFmn, allowed, inDhcp);
  }

  lemma WithoutBmcIsSafe(networks: Networks, node: Node, inDhcp: set<string>)
    requires SafeNetworks(networks, inDhcp) && AllocateIn(networks, "HMN", {}, false).Success?
    ensures SafeNetworks(WithoutBmc(networks, node), inDhcp)
  {
    assert SafeSubnet(networks["HMN"].bootstrap.value, "HMN" in inDhcp);
    assert SafeSubnet(Without(networks["HMN"].bootstrap.value, node.bmcXname), "HMN" in inDhcp);
  }

  lemma ChosenIsReady(networks: Networks, node: Node, isFmn: bool, allowed: set<string>, inDhcp: set<string>)
    requires SafeNetworks(networks, inDhcp) && allowed <= inDhcp
    requires AllocateIn(networks, "HMN", {}, false).Success?
    requires var bmcIp := AllocateIn(networks, "HMN", {}, false).value;
             ChooseFor(WithBmc(networks, node, bmcIp), NETWORKS, isFmn, allowed, false).Success?
    ensures var bmcIp := AllocateIn(networks, "HMN", {}, false).value;
            var chosen := ChooseFor(WithBmc(networks, node, bmcIp), NETWORKS, isFmn, allowed, false).value;
            Ready(WithoutBmc(networks, node), chosen.entries, node, bmcIp, inDhcp)
  {
    var bmcIp := AllocateIn(networks, "HMN", {}, false).value;
    var withBmc := WithBmc(networks, node, bmcIp);
    ChosenAreGranted(withBmc, NETWORKS, isFmn, allowed, false);
    var entries := ChooseFor(withBmc, NETWORKS, isFmn, allowed, false).value.entries;
    forall e | e in entries
      ensures EntryFits(WithoutBmc(networks, node)[e.net].bootstrap.value, node, e, bmcIp, e.net in inDhcp)
    {
      GrantedFits(networks, node, allowed, inDhcp, e);
    }
    forall i, j | 0 <= i < j < |entries| && entries[i].net == entries[j].net
      ensures entries[i].ip != entries[j].ip
    {
      GrantsApart(withBmc, allowed, entries[i], entries[j]);
    }
  }

  lemma GrantsApart(networks: Networks, allowed: set<string>, e: Entry, f: Entry)
    requires GrantsEntry(networks, allowed, e) && GrantsEntry(networks, allowed, f)
    requires e.net == f.net && !e.vip && f.vip
    ensures f.ip == e.ip + 1
  {
  }

  // ---------------------------------------------------------------------------------------------
  // Addresses read back
  // ---------------------------------------------------------------------------------------------

  /** `after` is `before` with fewer reservations. */
  ghost predicate Thinned(before: Networks, after: Networks) {
    && before.Keys == after.Keys
    && forall n :: n in before ==>
         && before[n].bootstrap.Some? == after[n].bootstrap.Some?
         && (before[n].bootstrap.Some? ==> SubnetThinned(before[n].bootstrap.value, after[n].bootstrap.value))
  }

  ghost predicate SubnetThinned(s: Subnet, t: Subnet) {
    && t == s.(reservations := t.reservations)
    && forall name :: name in t.reservations ==> name in s.reservations && t.reservations[name] == s.reservations[name]
  }

  lemma DropEntryThins(networks: Networks, net: string, ip: nat)
    requires DropEntry(networks, net, ip).Success?
    ensures var after := DropEntry(networks, net, ip).value;
            && Thinned(networks, after)
            && (networks[net].bootstrap.Some? ==>
                  ip in Ips(networks[net].bootstrap.value.reservations)
                      && ip !in Ips(after[net].bootstrap.value.reservations))
  {
  }

  lemma ThinnedIsSafe(before: Networks, after: Networks, inDhcp: set<string>)
    requires SafeNetworks(before, inDhcp) && Thinned(before, after)
    ensures SafeNetworks(after, inDhcp)
  {
    forall n | n in after && after[n].bootstrap.Some?
      ensures SafeSubnet(after[n].bootstrap.value, n in inDhcp)
    {
      assert SubnetThinned(before[n].bootstrap.value, after[n].bootstrap.value);
    }
  }

  /** Every dropped address was there before and is gone afterwards. */
  lemma {:induction false} DropEntriesThins(networks: Networks, entries: seq<Entry>)
    requires DropEntries(networks, entries).Success?
    ensures var after := DropEntries(networks, entries).value;
            && Thinned(networks, after)
            && forall e :: e in entries && e.net in networks && networks[e.net].bootstrap.Some? ==>
                 e.ip in Ips(networks[e.net].bootstrap.value.reservations)
                     && e.ip !in Ips(after[e.net].bootstrap.value.reservations)
    decreases |entries|
  {
    if entries != [] {
      DropEntryThins(networks, entries[0].net, entries[0].ip);
      var networks' := DropEntry(networks, entries[0].net, entries[0].ip).value;
      DropEntriesThins(networks', entries[1..]);
      forall e | e in entries && e.net in networks && networks[e.net].bootstrap.Some?
        ensures e.ip in Ips(networks[e.net].bootstrap.value.reservations)
        ensures e.ip !in Ips(DropEntries(networks', entries[1..]).value[e.net].bootstrap.value.reservations)
      {
        assert SubnetThinned(networks[e.net].bootstrap.value, networks'[e.net].bootstrap.value);
        if e != entries[0] {
          assert e in entries[1..];
        }
      }
    }
  }

  lemma RetrievedIsReady(networks: Networks, records: seq<HostRecord>, node: Node, inDhcp: set<string>)
    requires SafeNetworks(networks, inDhcp) && Retrieve(networks, records, node).Success?
    ensures var c := Retrieve(networks, records, node).value;
            SafeNetworks(c.local, inDhcp) && Ready(c.local, c.entries, node, c.bmcIp, inDhcp)
  {
    var c := Retrieve(networks, records, node).value;
    ScanRecordsKeepsDistinct(Found(None, []), node, records);
    DropEntriesThins(networks, c.entries);
    var dropped := DropEntries(networks, c.entries).value;
    DropEntryThins(dropped, "HMN", c.bmcIp);
    ThinnedIsSafe(networks, dropped, inDhcp);
    ThinnedIsSafe(dropped, c.local, inDhcp);
    forall e | e in c.entries && e.net in c.local && c.local[e.net].bootstrap.Some?
      ensures EntryFits(c.local[e.net].bootstrap.value, node, e, c.bmcIp, e.net in inDhcp)
    {
      assert SubnetThinned(networks[e.net].bootstrap.value, dropped[e.net].bootstrap.value);
      assert SubnetThinned(dropped[e.net].bootstrap.value, c.local[e.net].bootstrap.value);
      assert SafeSubnet(networks[e.net].bootstrap.value, e.net in inDhcp);
    }
  }

  // ---------------------------------------------------------------------------------------------
  // User access nodes
  // ---------------------------------------------------------------------------------------------

  /** A grant is the network as it was read, with the pool moved by at most one, and fits in it. */
  lemma GrantIsSafe(networks: Networks, name: string, uanAlias: string, xname: string, allowed: set<string>,
                    equality: Equality, inDhcp: set<string>)
    requires SafeNetworks(networks, inDhcp) && allowed <= inDhcp
    requires Grants(networks, name, uanAlias, xname, allowed, equality)
    ensures var g := GrantIn(networks, name, uanAlias, xname, allowed, equality);
            && g.network.bootstrap.Some?
            && SafeSubnet(WithUan(g.network, uanAlias, xname, g.ip).bootstrap.value, name in inDhcp)
  {
    var g := GrantIn(networks, name, uanAlias, xname, allowed, equality);
    var s := networks[name].bootstrap.value;
    var networks' := if AllocateIn(networks, name, allowed, false).Success? then networks
        else PutBootstrap(networks, name, Bumped(s));
    assert SafeNetworks(networks', inDhcp);
    GrantedIsPlaced(networks', name, allowed, inDhcp, false);
    var t := g.network.bootstrap.value;
    forall other | other in t.reservations
      ensures t.reservations[other].ip != g.ip
    {
      assert t.reservations[other].ip in Existing(t);
    }
    WithReservationSafe(t, name in inDhcp, UanReservation(uanAlias, xname, g.ip));
  }

  lemma {:induction false} PutGrantsIsSafe(read: Networks, server: Networks, names: seq<string>, uanAlias: string,
                                           xname: string, allowed: set<string>, equality: Equality, puts: nat,
                                           inDhcp: set<string>)
    requires SafeNetworks(read, inDhcp) && SafeNetworks(server, inDhcp) && allowed <= inDhcp
    ensures SafeNetworks(PutGrants(read, server, names, uanAlias, xname, allowed, equality, puts), inDhcp)
    decreases |names|
  {
    if names != [] && puts != 0 {
      if Grants(read, names[0], uanAlias, xname, allowed, equality) {
        GrantIsSafe(read, names[0], uanAlias, xname, allowed, equality, inDhcp);
        var g := GrantIn(read, names[0], uanAlias, xname, allowed, equality);
        PutGrantsIsSafe(read, server[names[0] := WithUan(g.network, uanAlias, xname, g.ip)], names[1..],
                        uanAlias, xname, allowed, equality, puts - 1, inDhcp);
      } else {
        PutGrantsIsSafe(read, server, names[1..], uanAlias, xname, allowed, equality, puts, inDhcp);
      }
    }
  }

  lemma {:induction false} PutRemovalsIsSafe(server: Networks, names: seq<string>, uanAlias: string, xname: string,
                                             puts: nat, inDhcp: set<string>)
    requires SafeNetworks(server, inDhcp)
    ensures SafeNetworks(PutRemovals(server, names, uanAlias, xname, puts), inDhcp)
    decreases |names|
  {
    if names != [] && puts != 0 {
      if Holds(server, names[0], uanAlias, xname) {
        PutRemovalsIsSafe(server[names[0] := WithoutUan(server[names[0]], uanAlias)], names[1..], uanAlias, xname,
                          puts - 1, inDhcp);
      } else {
        PutRemovalsIsSafe(server, names[1..], uanAlias, xname, puts, inDhcp);
      }
    }
  }
}
