# Verified model of the CSM operations scripts

This project models the parts of the CSM operations scripts that hand out identifiers and rewrite shared state, and
proves what keeps that state sound: over every input, every run, and every point at which a run can be aborted.
The services behind the scripts (SLS, HSM, BSS, CFS, Vault) are maps and classes; a failed request is a parameter that
says how far a run gets. Verify it with `dafny verify dfyconfig.toml`.

| files | scripts | what is proved |
|---|---|---|
| `Ipam`, `Supernets`, `NcnIps`, `NcnPreReq`, `UanIps` | add_management_ncn.py, ncn_add_pre-req.py, allocate_uan_ip.py, sls_utils/ipam.py | the scripts, step by step, against specification functions |
| `NcnInUse`, `NcnVipCheck`, `NcnBmcName`, `OtherSubnets` | add_management_ncn.py, allocate_uan_ip.py | exactly what their checks stop and what they miss |
| `IpamRuns` | all of them together | safety of every run of the commands |
| `NcnEffects`, `NcnWritten`, `NcnRuns`, `NcnSufficiency`, `NcnExamples` | pre-req, then allocate-ips | exactly when the room that one script makes is enough for the other |
| `NcnRoundTrip`, `NcnKeptRoundTrip`, `NcnRecords` | allocate-ips, then ncn-data | what is written is read back and put back |
| `UanRuns`, `CduSwitch`, `CduGiven` | allocate_uan_ip.py, add_cdu_switch.py | exactness of the searches, allocation and its inverse, which addresses are ever given |
| `CabinetSubnets`, `Cabinets`, `CabinetScript`, `CabinetFiles` | add_liquid_cooled_cabinet.py | aligned blocks, node IDs, every written state file |
| `SlotFilter`, `Defragment` | defragment_nids.py | exactly when order matters, the plan as a bijection, unique IDs |
| `CfsData`, `CfsImport`, `CfsRuns`, `CfsEnd` | import_cfs_data.py | no overwriting, repeatability after an abort, restore |
| `VaultSecrets`, `NidRanges`, `KernelParams`, `BssArtifacts` | vault.py, csm_root_secret.py, inspect_sls_cabinets.py, ncn_status.py, bss.py | update algebra, shortest printing, parameter round trips |
| `Text`, `Sequences`, `Outcomes` | | Python's split, join and split on white space; facts about sequences; Option and Result |

The rules of the scripts are stated a second time without the functions of the model: in arithmetic, in literal names
and by reading back what is written (`AllocatedIs`, `SucceedsIff`, `SlsAfterIs`, `CreatedLayerIs`, `NodeReads` and the
like), so that a mistake in one definition does not pass unseen through the theorems that use it.

Addresses are natural numbers and a block is a half-open range. Python's dictionaries are maps; where the order of a
dictionary decides, an arbitrary element is taken, so the results hold for every order.

## What the code does where its documentation says otherwise

Each point names the theorem that says exactly when the code meets the expectation, and lemmas with concrete inputs
where it does not.

- The check for virtual IPs in add_management_ncn.py:857-862 is meant for fabric managers and has no such guard. It
  looks up an entry that other nodes do not have. `VipCheck` has both readings (`AsWritten`, `FmnOnly`);
  `NcnVipCheck.AsWrittenStopsOrdinaryNodesIff` says exactly when they differ (`AsWrittenExample`), and the safety, series
  and round-trip results hold for both.
- The temporary BMC reservation (785-827) overwrites a reservation of the same name in the HMN and is then deleted, so
  the check for the BMC's name never sees it: `NcnBmcName.NameCheckFiresIff`, `NcnInUse.SucceedsIff` and `ReservedBmcPasses`;
  `OldBmcAddressIsGone` says what becomes of the old address.
- The checks for an address in another subnet of the network (add_management_ncn.py:865, allocate_uan_ip.py:193) compare
  an address of the ipaddress library with one of netaddr. Neither class takes the other for equal, so they never find
  one. `Equality` has both readings (`NeverEqual`, `ByValue`); `OtherSubnets.BmcAddressIsMissedIff` and
  `UanAddressIsMissedIff` say exactly when they differ (`SharedBmcExample`, `SharedUanExample`), and the other results
  hold for both.
- allocate-ips compares the addresses in host records, which are strings, with objects (934, 939); the comparison never
  holds. `NcnRecords.NcnDataPassesIff` says when the check of the later command passes nevertheless, and
  `OlderRecordExample` has a record that only the later command finds.
- Making room with ncn_add_pre-req.py is not always enough: `NcnSufficiency.RunsSucceedIff` is the exact condition. The
  script leaves the gateway out when it looks for the last address, the allocation counts it (`GatewayAboveBreaksRuns`,
  `GatewayAboveExample`); it takes an alias fmn-vip for a virtual IP, the allocation looks at the name only
  (`AliasBreaksRuns`, `AliasExample`); and it does not look at the status of its PUT requests (`LostPutBreaksRuns`,
  `LostPutExample`).
- `fmn_vip_exists` stays set from the NMN to the HMN (`CountsAreExactIff`, `CountsExample`).
- clear_cfs in import_cfs_data.py:448-450 returns when there are sources, so sources are never cleared
  (`CfsImport.SourcesStay`). What follows for an import is `CfsRuns.SourcesImportedIff`, with `KeptSourceExample`.
- add_cdu_switch.py keeps free only the gateway of its own subnet (`CduGiven.GivenIff`, `NoGatewayIsGivenIff`,
  `CduSwitch.OtherGatewayCanBeGiven`).
- An empty model name can make the slot filter depend on the order of the inventory (`OrderDoesNotMatterIff`,
  `EmptyModelsDependOnOrder`).
- The image of a fabric manager goes into the kernel parameters unchecked (`IfnamesRoundTripIff`,
  `HiddenInterfaceExample`), and so does the root file system in bss.py (`OnlyMetalReplacedIff`,
  `RerunWritesTheSameIff`, `AbortedThenRepeatedIff`, `TwoWordsExample`).
- A list of xnames with a repeated name fails the count in get_bootparameters_map although BSS knows every host
  (`GetBootparametersMap`, `RepeatedXnameExample`).

## Model

| member | source | states |
|---|---|---|
| Ipam.SearchEndsIffNotStuck | scripts/operations/node_management/Add_Remove_Replace_NCNs/add_management_ncn.py:515-532 | the loop whose `continue` leaves the candidate alone ends if and only if no usable candidate lies below the starting address; when it ends, its first trip already decides: max + 1 (max + 2 for a virtual IP), or exhaustion exactly when that address is outside the block or its broadcast address |
| Ipam.ScanFrom | scripts/operations/node_management/Add_Remove_Replace_NCNs/add_management_ncn.py:523-532 | the loop returns the first usable address from its start on that is not taken, and raises only when every one of them is taken |
| Ipam.FindNextAvailableIp | scripts/operations/node_management/Add_Remove_Replace_NCNs/add_management_ncn.py:486-532 | for every state in which the search is not stuck, the result is the address after the highest one in use (gateway included), or exhaustion |
| Ipam.AllocateIpAddressInSubnet | scripts/operations/node_management/Add_Remove_Replace_NCNs/add_management_ncn.py:534-590 | no caller can get the search stuck, because the starting address is always one of the reservations; the static range check comes last and spares the networks allowed in the pool |
| Ipam.AllocatedIs | scripts/operations/node_management/Add_Remove_Replace_NCNs/add_management_ncn.py:486-590 | by arithmetic: the address after the highest one in use, or the one after that for a virtual IP, if it lies in the block before its last address and before the pool (unless the network may use it); otherwise which error |
| Ipam.SafeNetworksIff | scripts/operations/node_management/Add_Remove_Replace_NCNs/add_management_ncn.py:534-590 | the invariant written out: each reservation at an address from the first to the last but one, not the gateway's or another's, below the pool |
| Ipam.GrantedIsPlaced | scripts/operations/node_management/Add_Remove_Replace_NCNs/add_management_ncn.py:534-590 | a granted address is inside the block, not its broadcast address, above everything in use and below the pool (unless the network may use the pool) |
| NcnIps.State.ChooseNcnIps | scripts/operations/node_management/Add_Remove_Replace_NCNs/add_management_ncn.py:800-824 | the loop over the networks gives every present network its next address and fabric managers their virtual IPs, with the flag that a network has one never going back |
| NcnIps.State.CheckNotInUse | scripts/operations/node_management/Add_Remove_Replace_NCNs/add_management_ncn.py:834-871 | fails exactly when some reservation of some subnet has the node's name, its BMC's name, one of the chosen addresses or (if addresses of the two libraries could be equal) the BMC's, or when the entry of a virtual IP is looked up that does not exist |
| NcnIps.State.AllocateNcnIps | scripts/operations/node_management/Add_Remove_Replace_NCNs/add_management_ncn.py:771-871 | the temporary BMC reservation leaves no trace of its own, and the object ends with the chosen addresses; a BMC reservation that was there before is gone from the local copy |
| NcnIps.State.UpdateSlsNetworking | scripts/operations/node_management/Add_Remove_Replace_NCNs/add_management_ncn.py:1015-1133 | SLS is exactly the state after the PUT requests that succeeded, whichever request fails; each PUT carries the local copy of its network |
| NcnIps.State.UpdateGlobalBssHostRecords | scripts/operations/node_management/Add_Remove_Replace_NCNs/add_management_ncn.py:1135-1183 | appends one record for every chosen address, the NMN and virtual IP forms included, and the BMC's at the end; nothing else changes |
| NcnWritten.ReservationsAre | scripts/operations/node_management/Add_Remove_Replace_NCNs/add_management_ncn.py:1056-1122 | name, address, comment and every alias of the reservation of a node, a virtual IP and a BMC, for each of the six networks |
| NcnWritten.RecordsAre | scripts/operations/node_management/Add_Remove_Replace_NCNs/add_management_ncn.py:1141-1169 | the aliases and the address of the host record of a node and a virtual IP, for each of the six networks |
| NcnWritten.NewRecordsAre | scripts/operations/node_management/Add_Remove_Replace_NCNs/add_management_ncn.py:1141-1183 | the records in the order of the entries, the BMC's behind them |
| NcnWritten.CompleteRunWrites | scripts/operations/node_management/Add_Remove_Replace_NCNs/add_management_ncn.py:1015-1133 | after a complete run every network with an entry has the reservation of the entry under its key, and the HMN that of the BMC |
| NcnWritten.NothingElseIsWritten | scripts/operations/node_management/Add_Remove_Replace_NCNs/add_management_ncn.py:1015-1133 | every other reservation that a network has after a complete run is one that it had before |
| NcnWritten.OtherNetworksStay | scripts/operations/node_management/Add_Remove_Replace_NCNs/add_management_ncn.py:1238-1323 | over any series of runs networks other than the six stay as they are |
| NcnWritten.EntriesAre | scripts/operations/node_management/Add_Remove_Replace_NCNs/add_management_ncn.py:800-824 | which networks get an ordinary address and which a virtual IP |
| NcnWritten.RecordPassesIff | scripts/operations/node_management/Add_Remove_Replace_NCNs/add_management_ncn.py:949-1002 | what ncn-data asks of one host record, in terms of addresses and literal aliases |
| NcnWritten.RetrieveSucceedsIff | scripts/operations/node_management/Add_Remove_Replace_NCNs/add_management_ncn.py:693-769 | reading back succeeds if and only if the records name the BMC, every address they name is reserved in its network, and the BMC's in the HMN for itself |
| NcnWritten.RetrievableIff | scripts/operations/node_management/Add_Remove_Replace_NCNs/add_management_ncn.py:725-769 | the condition of reading back, reservation by reservation, also where several have one address |
| NcnIps.State.DropReservation | scripts/operations/node_management/Add_Remove_Replace_NCNs/add_management_ncn.py:734-742 | says whether a reservation has the address and takes one such out, the one with the address where there is only one |
| NcnIps.State.RetrieveExistingNcnIps | scripts/operations/node_management/Add_Remove_Replace_NCNs/add_management_ncn.py:693-769 | succeeds if and only if the host records name the BMC and every address they name is reserved in its network, the BMC's still when the others have been taken out; then it has removed a reservation with each of them, whatever the order of the dictionary, and without repeated addresses leaves exactly what the specification of reading back leaves |
| NcnBmcName.NameCheckFiresIff | scripts/operations/node_management/Add_Remove_Replace_NCNs/add_management_ncn.py:846-849 | the check for the BMC's name finds something if and only if the name is reserved in some network or subnet, other than under its own key in the HMN's bootstrap_dhcp |
| NcnBmcName.OldBmcAddressIsGone | scripts/operations/node_management/Add_Remove_Replace_NCNs/add_management_ncn.py:785-827 | a complete run moves a reservation that the BMC had under its name to the new address, and nothing in the subnet holds the old one any more |
| NcnBmcName.ReservedBmcPasses | scripts/operations/node_management/Add_Remove_Replace_NCNs/add_management_ncn.py:846-849 | a concrete HMN in which the BMC has a reservation and the run succeeds all the same |
| NcnInUse.AnyClashIff | scripts/operations/node_management/Add_Remove_Replace_NCNs/add_management_ncn.py:834-867 | for any addresses: what the check finds is a reservation under the node's or the BMC's name, at an entry's address in its network, or (if addresses could be equal) at the BMC's in the HMN; which virtual IPs it looks at |
| NcnInUse.VipKeyErrorIff | scripts/operations/node_management/Add_Remove_Replace_NCNs/add_management_ncn.py:857-862 | for any addresses: exactly when the lookup of a virtual IP fails |
| NcnInUse.FlagIff | scripts/operations/node_management/Add_Remove_Replace_NCNs/add_management_ncn.py:809-821 | fmn_vip_exists ends up set if and only if a fabric manager is added and the NMN or the HMN reserves a virtual IP |
| NcnInUse.SucceedsIff | scripts/operations/node_management/Add_Remove_Replace_NCNs/add_management_ncn.py:834-871 | a run whose addresses have been chosen succeeds if and only if no reservation but the BMC's own in the HMN has a name or an address of the node, and no ordinary node is asked for its virtual IP |
| NcnInUse.ChosenIsUnused | scripts/operations/node_management/Add_Remove_Replace_NCNs/add_management_ncn.py:834-871 | after a run that succeeds nothing in the local copy has a name of the node or one of its addresses, virtual IPs aside where one was there before |
| NcnInUse.RepeatedRunExample | scripts/operations/node_management/Add_Remove_Replace_NCNs/add_management_ncn.py:842-855 | a concrete HMN that an aborted run has added the node to: it is not given addresses a second time |
| OtherSubnets.BmcAddressIsMissedIff | scripts/operations/node_management/Add_Remove_Replace_NCNs/add_management_ncn.py:865-867 | an allocation that goes through would have been refused, were the BMC's address compared by value, if and only if another subnet of the HMN reserves it |
| OtherSubnets.BmcSharesItsAddress | scripts/operations/node_management/Add_Remove_Replace_NCNs/add_management_ncn.py:865-867 | after a complete run that address is then reserved twice in the HMN |
| OtherSubnets.SharedBmcExample | scripts/operations/node_management/Add_Remove_Replace_NCNs/add_management_ncn.py:865-867 | a concrete HMN in which a fabric manager's BMC gets the address of a switch |
| OtherSubnets.UanAddressIsMissedIff | scripts/operations/node_management/allocate_uan_ip.py:193-195 | the same exact condition for the address granted to a user access node |
| OtherSubnets.SharedUanExample | scripts/operations/node_management/allocate_uan_ip.py:193-195 | a concrete CHN in which it gets an address that another subnet reserves |
| Supernets.IsSupernetHacked | scripts/operations/node_management/Add_Remove_Replace_NCNs/sls_utils/ipam.py:210-306 | the smallest aligned part of the network, of a prefix up to 24, that holds every reservation and both ends of the pool, if the subnet has the prefix of its network and there is such a part; otherwise nothing |
| Supernets.UnhackedIs | scripts/operations/node_management/Add_Remove_Replace_NCNs/sls_utils/ipam.py:210-306 | the block by arithmetic, and that no smaller aligned part of a prefix up to 24 has every address in use |
| Supernets.UnhackedIsUnique | scripts/operations/node_management/Add_Remove_Replace_NCNs/sls_utils/ipam.py:286-306 | there is only one such block |
| Supernets.SameEndsSameBlock | scripts/operations/node_management/Add_Remove_Replace_NCNs/sls_utils/ipam.py:260-306 | it depends on the lowest and the highest address in use only |
| Supernets.BlockIsInside | scripts/operations/node_management/Add_Remove_Replace_NCNs/sls_utils/ipam.py:210-306 | the block lies inside the subnet, which is what the safety of the runs asks of it |
| Supernets.RunsKeepUpToDate | scripts/operations/node_management/Add_Remove_Replace_NCNs/sls_utils/ipam.py:210-306 | a whole series of allocate-ips runs, each of which works the block out anew, finds the same block every time: the addresses that the search gives out lie in it |
| Supernets.MovedPoolKeepsUpToDate | scripts/operations/node_management/Add_Remove_Replace_NCNs/sls_utils/ipam.py:260-306 | moving the start of a pool up to its end, above some reservation, does not change the block |
| IpamRuns.RunIsSafe | scripts/operations/node_management/Add_Remove_Replace_NCNs/add_management_ncn.py:1238-1345 | for every sequence of pre-req, allocate-ips, ncn-data, allocate-uan and deallocate-uan commands, each aborted after any of its requests and each with any unhacked blocks, the reservations of every bootstrap subnet stay apart from each other and from the gateway, inside the subnet, off the broadcast address and below the pool |
| IpamRuns.StepIsSafe | scripts/operations/node_management/Add_Remove_Replace_NCNs/add_management_ncn.py:1238-1345 | one command, complete or aborted, keeps that invariant |
| IpamRuns.ReservationsOfRuns | scripts/operations/node_management/Add_Remove_Replace_NCNs/add_management_ncn.py:1238-1345 | the same for every reservation of every reachable subnet, written out in arithmetic |
| IpamRuns.KeepsIpsIff | scripts/operations/node_management/Add_Remove_Replace_NCNs/add_management_ncn.py:1241-1245 | exactly the first three masters, workers and storage nodes keep their addresses |
| IpamRuns.DisagreementChangesNothing | scripts/operations/node_management/Add_Remove_Replace_NCNs/add_management_ncn.py:1238-1345 | a command whose checks against other services fail changes nothing |
| IpamRuns.RecordsOnlyGrow | scripts/operations/node_management/Add_Remove_Replace_NCNs/add_management_ncn.py:1135-1183 | only a complete allocate-ips for a node that does not keep its addresses changes the host records, and it appends its own |
| IpamRuns.BlockIsTaken | scripts/operations/node_management/Add_Remove_Replace_NCNs/sls_utils/ipam.py:210-306 | every block inside the subnet is one that a command may see |
| IpamRuns.PreReqIsSafe | scripts/operations/node_management/Add_Remove_Replace_NCNs/ncn_add_pre-req.py:398-528 | moving the pools keeps it, whichever of the PUT requests get lost |
| IpamRuns.PutEntriesIsSafe | scripts/operations/node_management/Add_Remove_Replace_NCNs/add_management_ncn.py:1015-1133 | writing entries that fit keeps it after every prefix of the PUT requests |
| IpamRuns.AllocatedIsReady | scripts/operations/node_management/Add_Remove_Replace_NCNs/add_management_ncn.py:771-832 | what allocation chooses fits: the BMC's address, the node's and the virtual IPs are apart and free |
| IpamRuns.RetrievedIsReady | scripts/operations/node_management/Add_Remove_Replace_NCNs/add_management_ncn.py:693-769 | what is read back from the host records can be written again without a clash |
| IpamRuns.GrantIsSafe | scripts/operations/node_management/allocate_uan_ip.py:127-169 | an address granted to a user access node, with the pool moved by one if need be, keeps the invariant |
| IpamRuns.PutGrantsIsSafe | scripts/operations/node_management/allocate_uan_ip.py:239-263 | so does every prefix of the PUT requests of an allocation |
| IpamRuns.PutRemovalsIsSafe | scripts/operations/node_management/allocate_uan_ip.py:318-350 | and every prefix of those of a deallocation |
| NcnPreReq.PlanNetwork | scripts/operations/node_management/Add_Remove_Replace_NCNs/ncn_add_pre-req.py:432-501 | the new start of the pool leaves exactly the needed number of addresses after the last reserved one when it moves, the evicted addresses are the needed ones after it, and every failure of the script is a failure here |
| NcnPreReq.PlanIs | scripts/operations/node_management/Add_Remove_Replace_NCNs/ncn_add_pre-req.py:376-501 | by arithmetic: how many addresses are counted, which start is planned, which addresses are evicted, and every failure |
| NcnPreReq.PlanNetworks | scripts/operations/node_management/Add_Remove_Replace_NCNs/ncn_add_pre-req.py:432-510 | one network without a plan means no plan at all |
| NcnPreReq.AddNcnNetworkUpdate | scripts/operations/node_management/Add_Remove_Replace_NCNs/ncn_add_pre-req.py:398-528 | SLS changes only in the DHCP starts of the planned networks, and only after every network has a plan; the status of a PUT is not looked at, so any subset of them may take effect |
| NcnPreReq.PreReqIs | scripts/operations/node_management/Add_Remove_Replace_NCNs/ncn_add_pre-req.py:398-528 | all networks or none: only the starts of pools change, and just those whose request arrives |
| NcnEffects.PutEntriesAddsAll | scripts/operations/node_management/Add_Remove_Replace_NCNs/add_management_ncn.py:1015-1133 | when every PUT succeeds, a network that got an entry is its local copy with exactly the additions |
| NcnEffects.PutEntriesKeepsOthers | scripts/operations/node_management/Add_Remove_Replace_NCNs/add_management_ncn.py:1015-1133 | every other network is untouched |
| NcnEffects.AdditionsAre | scripts/operations/node_management/Add_Remove_Replace_NCNs/add_management_ncn.py:1100-1122 | the additions are the reservations of the entries under their own names, and on the HMN that of the BMC; no key is overwritten by another |
| NcnEffects.ChooseForSucceedsIff | scripts/operations/node_management/Add_Remove_Replace_NCNs/add_management_ncn.py:800-824 | the loop succeeds if and only if every single address it asks for is granted |
| NcnEffects.ChooseForAsks | scripts/operations/node_management/Add_Remove_Replace_NCNs/add_management_ncn.py:800-824 | it asks for one address of every network that exists, and for a virtual IP exactly where the flag allows it |
| NcnEffects.VipInLoopIs | scripts/operations/node_management/Add_Remove_Replace_NCNs/add_management_ncn.py:809-821 | read off without the loop: a fabric manager run gives the NMN or the HMN a virtual IP unless the network has one, and the HMN none when the NMN has one |
| NcnRuns.AddNodeSucceedsIff | scripts/operations/node_management/Add_Remove_Replace_NCNs/add_management_ncn.py:771-871 | one run succeeds if and only if the check for virtual IPs lets it (for an ordinary node only when read as its comment has it) and every network has room for the addresses that the run takes there, below the pool unless the network may use the pool (the BMC's address on the HMN always) |
| NcnRuns.EntryIps | scripts/operations/node_management/Add_Remove_Replace_NCNs/add_management_ncn.py:771-832 | every chosen address is the one right after those in use, in the order BMC, node, virtual IP |
| NcnRuns.AdditionIps | scripts/operations/node_management/Add_Remove_Replace_NCNs/add_management_ncn.py:1015-1133 | the addresses a run adds to a network are the next ones without gaps, under the node's own names |
| NcnRuns.AddNodesSucceedIff | scripts/operations/node_management/Add_Remove_Replace_NCNs/add_management_ncn.py:1238-1323 | a series of runs for any number of nodes succeeds if and only if that check lets it and every network has room for all of them, whichever networks may use the pool, and then reserves exactly the next addresses |
| NcnSufficiency.RunsSucceedIff | scripts/operations/node_management/Add_Remove_Replace_NCNs/ncn_add_pre-req.py:376-528 | after a pre-req run for n nodes, whichever of its PUT requests reached SLS, n runs of allocate-ips all succeed if and only if the check for virtual IPs lets them and in every network the highest address in use plus the addresses they take stays below the start of the pool as it then is; and they reserve exactly the next addresses |
| NcnSufficiency.RoomSuffices | scripts/operations/node_management/Add_Remove_Replace_NCNs/ncn_add_pre-req.py:376-528 | in particular they do when every PUT succeeded, no gateway is above the reservations of its network and a virtual IP is planned for wherever one is given out: making room is enough, with fabric managers and without |
| NcnSufficiency.MovedPoolIsReachedIff | scripts/operations/node_management/Add_Remove_Replace_NCNs/ncn_add_pre-req.py:439-501 | a pool that moved is reached if and only if the last reservation plus what was counted is below the highest address, gateway included, plus what is taken |
| NcnSufficiency.GatewayAboveBreaksRuns | scripts/operations/node_management/Add_Remove_Replace_NCNs/ncn_add_pre-req.py:439-444 | with a gateway further above the reservations than was counted too much, the runs that follow cannot all succeed |
| NcnSufficiency.AliasBreaksRuns | scripts/operations/node_management/Add_Remove_Replace_NCNs/ncn_add_pre-req.py:425-431 | where a pool moved and fmn-vip is only the alias of another reservation, a virtual IP is given out that was not counted, and the runs always fail |
| NcnSufficiency.LostPutBreaksRuns | scripts/operations/node_management/Add_Remove_Replace_NCNs/ncn_add_pre-req.py:514-526 | where a pool should have moved and its PUT got lost, they fail unless more was counted than they take |
| NcnExamples.GatewayAboveExample | scripts/operations/node_management/Add_Remove_Replace_NCNs/ncn_add_pre-req.py:439-444 | a concrete HMN whose gateway breaks the run for a fabric manager, however the checks come out |
| NcnExamples.AliasExample | scripts/operations/node_management/Add_Remove_Replace_NCNs/ncn_add_pre-req.py:425-431 | a concrete HMN whose alias breaks it |
| NcnExamples.LostPutExample | scripts/operations/node_management/Add_Remove_Replace_NCNs/ncn_add_pre-req.py:514-526 | the same for a lost PUT |
| NcnExamples.EnoughExample | scripts/operations/node_management/Add_Remove_Replace_NCNs/ncn_add_pre-req.py:376-528 | and a concrete HMN in which making room is enough for that fabric manager, however the checks come out |
| NcnExamples.CountsExample | scripts/operations/node_management/Add_Remove_Replace_NCNs/ncn_add_pre-req.py:376-396 | an NMN with a virtual IP and an HMN without: three addresses are counted for the HMN, two are taken |
| NcnExamples.AsWrittenExample | scripts/operations/node_management/Add_Remove_Replace_NCNs/add_management_ncn.py:857-862 | the same concrete run for an ordinary node fails with the check as written and succeeds with the check as its comment has it |
| NcnSufficiency.PlanMakesRoom | scripts/operations/node_management/Add_Remove_Replace_NCNs/ncn_add_pre-req.py:443-501 | moved or not, the pool leaves room for what the script counted, the broadcast address not among it |
| NcnSufficiency.MovedPoolIsEnoughIff | scripts/operations/node_management/Add_Remove_Replace_NCNs/ncn_add_pre-req.py:439-444 | where the pool moved, the room is enough for what was counted if and only if the gateway is not above all reservations, which this script does not look at |
| NcnSufficiency.CountsAreExactIff | scripts/operations/node_management/Add_Remove_Replace_NCNs/ncn_add_pre-req.py:376-431 | the runs use exactly the counted addresses in every network if and only if they are not for fabric managers, or the script finds an fmn-vip on the NMN just where there is one, and on the HMN just where there is one or the NMN has one |
| NcnSufficiency.EvictedAreHandedOutIff | scripts/operations/node_management/Add_Remove_Replace_NCNs/ncn_add_pre-req.py:487-489 | where the pool moved, the evicted addresses are exactly those that the runs reserve afterwards, if and only if the gateway is not above all reservations and as many addresses were counted as are taken |
| NcnVipCheck.AsWrittenStopsOrdinaryNodesIff | scripts/operations/node_management/Add_Remove_Replace_NCNs/add_management_ncn.py:857-862 | for a run that is not for a fabric manager the check as written ends in a missing entry if and only if the addresses were found and the NMN or the HMN reserves anything; otherwise it does what its comment says |
| NcnRoundTrip.TwoCommandRoundTrip | scripts/operations/node_management/Add_Remove_Replace_NCNs/add_management_ncn.py:693-769 | from every safe state in which allocate-ips completes, ncn-data reads back exactly the addresses of the node and its BMC, removes exactly their reservations, and after any number of its PUT requests SLS and the host records are as before, virtual IP included |
| NcnRoundTrip.RetrieveFindsChoice | scripts/operations/node_management/Add_Remove_Replace_NCNs/add_management_ncn.py:704-723 | parsing the host records gives back the chosen addresses in order and nothing of the older records |
| NcnRoundTrip.PutRestores | scripts/operations/node_management/Add_Remove_Replace_NCNs/add_management_ncn.py:1015-1133 | putting back what was taken out leaves SLS as it was after every prefix of the requests |
| NcnRoundTrip.AliasFacts | scripts/operations/node_management/Add_Remove_Replace_NCNs/add_management_ncn.py:711-718 | no alias of a virtual IP record is taken for the node's |
| NcnRoundTrip.ValidAliasIff | scripts/operations/node_management/Add_Remove_Replace_NCNs/add_management_ncn.py:2060-2066 | which aliases the command line takes: ncn-m, ncn-w, ncn-s or fmn and three digits |
| NcnRoundTrip.SetEntryIs | scripts/operations/node_management/Add_Remove_Replace_NCNs/add_management_ncn.py:704-723 | an address read for a network replaces the one read before, in its place, or comes behind the others |
| NcnKeptRoundTrip.KeptRoundTrip | scripts/operations/node_management/Add_Remove_Replace_NCNs/add_management_ncn.py:1280-1288 | for the nodes that keep their addresses: after a complete allocate-ips the host records are as before, ncn-data reads back the same addresses, and neither it nor allocate-ips again changes SLS, however many of their PUT requests succeed |
| NcnRecords.ValidateHostRecords | scripts/operations/node_management/Add_Remove_Replace_NCNs/add_management_ncn.py:949-1002 | the loop over records and networks finds every record with one of the addresses and a wrong alias list, or with one of the aliases and a wrong address |
| NcnRecords.NcnDataPassesIff | scripts/operations/node_management/Add_Remove_Replace_NCNs/add_management_ncn.py:949-1002 | after allocate-ips the check of ncn-data passes if and only if no older record has a chosen address (the installation host's on the NMN aside) and no address was chosen in two networks |
| NcnRecords.OlderRecordExample | scripts/operations/node_management/Add_Remove_Replace_NCNs/add_management_ncn.py:934-1002 | a concrete older record that allocate-ips passes over and ncn-data refuses |
| UanIps.GrantFor | scripts/operations/node_management/allocate_uan_ip.py:116-199 | found already, granted (possibly with the pool moved), or refused, for every state of the network and for both readings of the comparison of addresses |
| UanIps.AllocateUanIp | scripts/operations/node_management/allocate_uan_ip.py:109-263 | nothing is written unless both networks allow it; then SLS is the state after the PUT requests that succeeded |
| UanIps.DeallocateUanIp | scripts/operations/node_management/allocate_uan_ip.py:309-350 | nothing is removed when the alias and the xname match only by half; otherwise the matching reservations go, and nothing else |
| UanRuns.GrantedExactly | scripts/operations/node_management/allocate_uan_ip.py:127-169 | exactly when a new node gets an address, and which: moving the pool once is enough while everything in use is below it and the new start is at a position of 2 to size - 3, and never helps otherwise |
| UanRuns.GrantsIff | scripts/operations/node_management/allocate_uan_ip.py:116-199 | by arithmetic and for every network and permission: an address is granted if and only if no reservation has the alias or the xname and the next address is usable and before the pool, in it with permission, or its first one with room to move it |
| UanRuns.AllocatedUanIs | scripts/operations/node_management/allocate_uan_ip.py:109-263 | both networks or none: the reservation that each network has afterwards |
| UanRuns.GrantKeepsBelowPool | scripts/operations/node_management/allocate_uan_ip.py:146-169 | after a grant everything in use is below the pool again |
| UanRuns.AllocatingAgainChangesNothing | scripts/operations/node_management/allocate_uan_ip.py:124-132 | repeating an allocation changes nothing |
| UanRuns.DeallocateUndoesAllocate | scripts/operations/node_management/allocate_uan_ip.py:309-350 | deallocating restores every reservation map; only the start of a pool may stay moved |
| UanRuns.DeallocatedIs | scripts/operations/node_management/allocate_uan_ip.py:309-350 | what a network has after a deallocation: nothing changes if either lacks its subnet or has half a match; otherwise a full match is taken out |
| CduSwitch.FindNextAvailableIp | scripts/operations/system_layout_service/add_cdu_switch.py:43-86 | the index arithmetic and the two loops give the first free address of the rotating order |
| CduSwitch.SearchIsRotating | scripts/operations/system_layout_service/add_cdu_switch.py:62-86 | with the lowest reservation at position p the search goes through p + 1 to size - 3 and then 1 to p - 1, returns the first free address, and nothing exactly when all of them are taken |
| CduSwitch.GetReservedIps | scripts/operations/system_layout_service/add_cdu_switch.py:88-105 | the list holds exactly the addresses of the pool, both ends included, and of the reservations |
| CduSwitch.Network.AddCduIpReservation | scripts/operations/system_layout_service/add_cdu_switch.py:107-134 | one reservation is appended to the network_hardware subnet, or nothing changes; no address is given only when none is free, whatever the sizes of the other subnets |
| CduSwitch.SelectedIsFree | scripts/operations/system_layout_service/add_cdu_switch.py:107-121 | the address is in no reservation and no pool of any subnet of the network, is not the subnet's gateway and not one of the first or last two addresses |
| CduSwitch.SwitchesKeepApart | scripts/operations/system_layout_service/add_cdu_switch.py:107-134 | however many switches are added, the reservations of the network stay apart |
| CduSwitch.OtherGatewayCanBeGiven | scripts/operations/system_layout_service/add_cdu_switch.py:56-60 | only the subnet's own gateway is kept free: a concrete network in which the gateway of another subnet is given to a switch |
| CduGiven.GivenIff | scripts/operations/system_layout_service/add_cdu_switch.py:43-134 | exactly which addresses are ever given out, over any number of additions: the host addresses from position 1 to size - 3 that no subnet reserves or has in its pool, the subnet's own gateway aside; position 1 only when the lowest reservation is inside the subnet, or gets there because another address is given first |
| CduGiven.GivenByAddressIff | scripts/operations/system_layout_service/add_cdu_switch.py:43-134 | by arithmetic, with the lowest reservation inside the subnet: exactly the host addresses but the last that no reservation, no pool and not the own gateway holds are given out some time |
| CduGiven.NoGatewayIsGivenIff | scripts/operations/system_layout_service/add_cdu_switch.py:56-60 | with the lowest reservation inside the subnet, no gateway of any subnet is ever given to a switch if and only if every gateway at those positions is reserved, in a pool, or the subnet's own |
| CabinetSubnets.NestedOrDisjoint | scripts/operations/system_layout_service/add_liquid_cooled_cabinet.py:41-42 | two aligned blocks are nested or disjoint (section 3.1 of RFC 4632) |
| CabinetSubnets.FindNextAvailableSubnet | scripts/operations/system_layout_service/add_liquid_cooled_cabinet.py:30-46 | the first /22 of the network that the existing subnets do not cover together, and nothing only when all are covered |
| CabinetSubnets.OverlapsIffSmallerInside | scripts/operations/system_layout_service/add_liquid_cooled_cabinet.py:41-44 | an uncovered block overlaps an existing subnet if and only if a smaller one lies inside it |
| CabinetSubnets.GrowingKeepsDisjoint | scripts/operations/system_layout_service/add_liquid_cooled_cabinet.py:64-81 | if every existing subnet is a /22 or larger, the subnets stay pairwise disjoint through any number of cabinets |
| CabinetSubnets.NextAfterFirst | scripts/operations/system_layout_service/add_liquid_cooled_cabinet.py:41-44 | in a network filled from the front the next block is the next in order, if there is one |
| CabinetSubnets.ExactlyAllBlocksFit | scripts/operations/system_layout_service/add_liquid_cooled_cabinet.py:30-46 | from an empty network of prefix p <= 22 exactly 2^(22 - p) cabinets can be added |
| CabinetSubnets.CabinetsFitIff | scripts/operations/system_layout_service/add_liquid_cooled_cabinet.py:30-46 | by addresses: as many cabinets fit into an empty network as it has stretches of 1024 addresses |
| Cabinets.GenerateNodes | scripts/operations/system_layout_service/add_liquid_cooled_cabinet.py:207-227 | the three nested loops produce the 32 nodes of a chassis in order, each with the xname of its place |
| Cabinets.GenerateHardware | scripts/operations/system_layout_service/add_liquid_cooled_cabinet.py:158-227 | the cabinet, then per chassis its BMC, itself and its nodes; the next free ID is 32 per chassis further |
| Cabinets.NodeIds | scripts/operations/system_layout_service/add_liquid_cooled_cabinet.py:181-227 | every node has the ID start + 32 * chassis + 4 * slot + 2 * bmc + node and stands at a known place |
| Cabinets.NodeReads | scripts/operations/system_layout_service/add_liquid_cooled_cabinet.py:181-227 | reading a node's name back gives slot, BMC and node in their ranges, and its ID is the one for what was read |
| Cabinets.ItemsAre | scripts/operations/system_layout_service/add_liquid_cooled_cabinet.py:129-206 | the cabinet first, and for each chassis its BMC and itself in front of its nodes |
| Cabinets.ChassisNumbers | scripts/operations/system_layout_service/add_liquid_cooled_cabinet.py:83-121 | which chassis a cabinet of each type has, by number, and which counts an EX2500 may have |
| Cabinets.NamesDiffer | scripts/operations/system_layout_service/add_liquid_cooled_cabinet.py:158-227 | no xname comes twice in the hardware of a cabinet, whatever its type |
| Cabinets.NidsFillTheRange | scripts/operations/system_layout_service/add_liquid_cooled_cabinet.py:181-227 | the IDs fill [start, next) without gaps and without repeats |
| CabinetScript.AddHardware | scripts/operations/system_layout_service/add_liquid_cooled_cabinet.py:229-235 | adding stops at the first xname that is there already |
| CabinetScript.CheckNids | scripts/operations/system_layout_service/add_liquid_cooled_cabinet.py:237-259 | passes if and only if no two compute nodes share an ID |
| CabinetScript.NidCheckPassesIff | scripts/operations/system_layout_service/add_liquid_cooled_cabinet.py:229-259 | after adding a cabinet that check passes if and only if the IDs were unique before and none lies in the range of the cabinet |
| CabinetScript.AddCabinetSubnet | scripts/operations/system_layout_service/add_liquid_cooled_cabinet.py:64-81 | the subnet is appended with the next uncovered block; without one the script stops |
| CabinetScript.CheckVlans | scripts/operations/system_layout_service/add_liquid_cooled_cabinet.py:304-316 | passes if and only if the VLANs of both networks together do not repeat |
| CabinetScript.StateFile.AddCabinet | scripts/operations/system_layout_service/add_liquid_cooled_cabinet.py:158-323 | the file written is one that passes every check, and the script leaves the file alone only when there is no such file |
| CabinetScript.EveryFileIsSound | scripts/operations/system_layout_service/add_liquid_cooled_cabinet.py:158-323 | after any series of runs, some of them stopped early, compute IDs are unique in every written file and the cabinet subnets are disjoint |
| CabinetFiles.WrittenHardware | scripts/operations/system_layout_service/add_liquid_cooled_cabinet.py:229-259 | a written file has the old hardware as it was and the new items under new xnames, and compute nodes with different IDs |
| CabinetFiles.NidsUniqueIff | scripts/operations/system_layout_service/add_liquid_cooled_cabinet.py:237-259 | what the check for duplicate IDs looks at: the nodes of the role Compute |
| CabinetFiles.WrittenNetworks | scripts/operations/system_layout_service/add_liquid_cooled_cabinet.py:262-323 | the two cabinet networks, new or old, have one /22 more with its name, VLAN, gateway and pool; other networks stay, and no VLAN is used twice |
| CabinetFiles.NothingIsLost | scripts/operations/system_layout_service/add_liquid_cooled_cabinet.py:158-323 | over any series of runs hardware, other networks and subnets stay |
| CabinetFiles.SubnetsStayApart | scripts/operations/system_layout_service/add_liquid_cooled_cabinet.py:30-81 | over any series of runs no two subnets of a cabinet network share an address, written out in arithmetic |
| CabinetFiles.GoodNetworksIff | scripts/operations/system_layout_service/add_liquid_cooled_cabinet.py:30-81 | what that asks of the file at the start, written out |
| SlotFilter.FilterSlot | scripts/operations/node_management/defragment_nids.py:465-496 | the two lists are exactly the allowed nodes that fit what the first loop found and those that do not, in the order of the inventory, repeats included |
| SlotFilter.KeptOrMismatched | scripts/operations/node_management/defragment_nids.py:484-496 | every allowed entry of the slot is in exactly one of the two lists, as often as it is listed |
| SlotFilter.ScanMismatch | scripts/operations/node_management/defragment_nids.py:472-483 | for every list the first loop reports no mismatch if and only if every model after the first non-empty one repeats it |
| SlotFilter.ScanFinds | scripts/operations/node_management/defragment_nids.py:472-483 | the loop finds the deciding model: that of b0n0, else that of b1n0 |
| SlotFilter.FitsIsKeeps | scripts/operations/node_management/defragment_nids.py:484-496 | with non-empty models a node is kept if and only if all models agree or its model is the deciding one |
| SlotFilter.OrderDoesNotMatterIff | scripts/operations/node_management/defragment_nids.py:472-496 | the kept set is the same for every order of the inventory if and only if no model is empty, or all are, or there are two different non-empty ones and it is not the case that b0n0 has an empty model and b1n0 another |
| SlotFilter.OrderDoesNotMatter | scripts/operations/node_management/defragment_nids.py:472-496 | the sufficient half for any two lists with the same nodes, repeats included |
| SlotFilter.KeptShareAModel | scripts/operations/node_management/defragment_nids.py:472-496 | all kept nodes share one model, the deciding one when models differ |
| SlotFilter.EmptyModelsDependOnOrder | scripts/operations/node_management/defragment_nids.py:479-482 | two orders of the same concrete slot with an empty model keep different nodes |
| Defragment.SortedIsIncreasing | scripts/operations/node_management/defragment_nids.py:580 | the xnames come in strictly increasing order, none lost |
| Defragment.MakePlan | scripts/operations/node_management/defragment_nids.py:580-617 | looking the class up only when the chassis changes gives every node the class of its own chassis |
| Defragment.PlanIsBijection | scripts/operations/node_management/defragment_nids.py:580-617 | the plan is a bijection from the working nodes to [start, start + n), strictly increasing with the xname |
| Defragment.Services.Defragment | scripts/operations/node_management/defragment_nids.py:523-717 | SLS and HSM after every way the run can end: range taken, class missing, dry run, failed deletes, failed PUT, failed patch, failed post, success |
| Defragment.DefragmentedIs | scripts/operations/node_management/defragment_nids.py:650-713 | after a successful run the i-th working node has ID start + i and no other node that is left has changed |
| Defragment.HsmAfterIs | scripts/operations/node_management/defragment_nids.py:650-713 | HSM after a run that goes all the way, node by node: which are gone, the ID and the class of each working node, the others unchanged |
| Defragment.NothingChanges | scripts/operations/node_management/defragment_nids.py:523-632 | what stops a run before anything changes in HSM or SLS: a node in the range that is not allowed, a chassis without class, a dry run |
| Defragment.SlsAfterIs | scripts/operations/node_management/defragment_nids.py:554-648 | SLS after any number of PUT requests: the i-th working node with its ID and class, conflicting entries gone unless allowed or stuck, the others unchanged |
| Defragment.SlsStaysUniqueIff | scripts/operations/node_management/defragment_nids.py:554-648 | unique IDs in SLS stay unique, after any number of PUT requests, if and only if no entry that may not or could not be deleted has one of the IDs written |
| Defragment.NidsStayUniqueIff | scripts/operations/node_management/defragment_nids.py:523-551 | if the IDs in HSM were unique, they are unique afterwards if and only if no dead node whose delete failed holds an ID of the range; nodes outside the allowed set never change |
| Defragment.EveryEndIsUniqueIff | scripts/operations/node_management/defragment_nids.py:523-717 | over every way a run can end, unique IDs in HSM stay unique if and only if the run did not get as far as patching them, or no dead node whose delete failed holds an ID of the range |
| CfsData.FillKeepsScrubbed | scripts/operations/configuration/import_cfs_data.py:339-348 | what CFS fills in for a scrubbed configuration is again removed by scrubbing: nothing else is lost |
| CfsData.ScrubbedLayerIs | scripts/operations/configuration/import_cfs_data.py:339-348 | a layer that is sent has no branch with a commit, and lacks nothing but the commit of a layer with a branch |
| CfsData.CreatedLayerIs | scripts/operations/configuration/import_cfs_data.py:339-369 | a layer without branch comes back identical; one with a branch has the branch's head for its commit and every other field |
| CfsData.ChunkList | scripts/operations/configuration/import_cfs_data.py:386-394 | pieces of 1 to 500 that give back the list when put together |
| CfsImport.GetCompsToUpdate | scripts/operations/configuration/import_cfs_data.py:245-301 | exactly the components that exist, want a configuration that exists or will, and have none, each once |
| CfsImport.GetOptionsToChange | scripts/operations/configuration/import_cfs_data.py:303-324 | exactly the options whose value differs; an option that CFS does not have ends the run |
| CfsImport.GroupByDesired | scripts/operations/configuration/import_cfs_data.py:405-411 | every component in the group of the configuration it wants and in no other |
| CfsImport.Service.UpdateComponents | scripts/operations/configuration/import_cfs_data.py:396-417 | bulk updates of at most 500 components that want the same configuration, every component in exactly one of them; a run makes them up to the request that fails |
| CfsImport.Service.CreateConfigs | scripts/operations/configuration/import_cfs_data.py:350-369 | one request per configuration, with the scrubbed layers, up to the one that fails |
| CfsImport.Service.RestoreSources | scripts/operations/configuration/import_cfs_data.py:371-384 | one request per source, up to the one that fails |
| CfsImport.Service.ClearCfs | scripts/operations/configuration/import_cfs_data.py:429-463 | every component with an id and every configuration is cleared once, and then the sources are looked at: the script returns when there are any, and otherwise asks for the version and deletes those that there are |
| CfsImport.Examine | scripts/operations/configuration/import_cfs_data.py:512-538 | what is to be done, or the error that ends the run, for every answer about running sessions |
| CfsImport.Service.Import | scripts/operations/configuration/import_cfs_data.py:512-555 | without --clear-cfs the requests made are exactly the planned ones in the order options, sources, configurations, components, up to the one that fails; a run that ends in another error has made none |
| CfsImport.Service.ClearAndImport | scripts/operations/configuration/import_cfs_data.py:504-555 | with --clear-cfs the same after clearing, whichever request of either part fails; running sessions stop it before anything is cleared |
| CfsImport.ClearReaches | scripts/operations/configuration/import_cfs_data.py:429-463 | the clearing requests lead to a CFS without configurations in which only components without id keep anything, and all the sources are as they were |
| CfsEnd.ClearedEnd | scripts/operations/configuration/import_cfs_data.py:429-446 | what clearing leaves: every component with an id reset, no configuration, options and sources as they were |
| CfsEnd.ClearingRequests | scripts/operations/configuration/import_cfs_data.py:429-446 | the requests of clearing: resets of at most 500 components with ids, deletions of configurations, nothing else |
| CfsImport.SourcesStay | scripts/operations/configuration/import_cfs_data.py:448-463 | no run of the clearing makes a request to delete a source, and it leaves no source if and only if there was none |
| CfsRuns.SourcesImportedIff | scripts/operations/configuration/import_cfs_data.py:448-463 | after a run with --clear-cfs every imported source has its imported definition if and only if each one that was in CFS had it already and the others can be restored |
| CfsRuns.KeptSourceExample | scripts/operations/configuration/import_cfs_data.py:448-450 | a concrete CFS whose source keeps its other definition |
| CfsRuns.ClearedAbortedThenRepeated | scripts/operations/configuration/import_cfs_data.py:504-555 | a run with --clear-cfs that is aborted after any request, clearing or importing, and then repeated ends where one whole run would have |
| CfsRuns.CompletedIsImported | scripts/operations/configuration/import_cfs_data.py:552-555 | whatever the order of the dictionaries, a completed import leads to one and the same state |
| CfsEnd.ImportedIs | scripts/operations/configuration/import_cfs_data.py:504-555 | the end state read off the data: which components change and to what, options taken over but none added, sources added but none overwritten |
| CfsEnd.ImportedConfigIs | scripts/operations/configuration/import_cfs_data.py:339-369 | every configuration of the end state, layer by layer |
| CfsEnd.UpdatesAre | scripts/operations/configuration/import_cfs_data.py:386-417 | each component that is behind is named in one update of at most 500 that want the same configuration, and no other is |
| CfsEnd.OutcomeIs | scripts/operations/configuration/import_cfs_data.py:245-324 | exactly when an import stops before it changes anything, and with which error |
| CfsRuns.ConfigExistsBeforeUpdate | scripts/operations/configuration/import_cfs_data.py:552-555 | when a component is updated, its configuration exists on the server |
| CfsRuns.EveryPrefixIsTowards | scripts/operations/configuration/import_cfs_data.py:552-555 | after every prefix of the requests nothing that was there has been overwritten or lost, everything new comes from the import data, and every changed component had no configuration and now has one that exists |
| CfsEnd.PrefixIs | scripts/operations/configuration/import_cfs_data.py:552-555 | after every prefix of the requests, read off the data: components and options have their old value or their new one, and a new configuration exists by then |
| CfsEnd.PrefixAddsOnly | scripts/operations/configuration/import_cfs_data.py:552-555 | sources and configurations that were there are untouched; what is new is what a whole import makes of it |
| CfsRuns.AbortedThenRepeated | scripts/operations/configuration/import_cfs_data.py:512-555 | an import aborted after any request and then repeated ends where one whole import would have |
| CfsRuns.SecondRunIsIdle | scripts/operations/configuration/import_cfs_data.py:512-544 | after an import the same import finds nothing to do |
| CfsRuns.RestoreRoundTrip | scripts/operations/configuration/import_cfs_data.py:429-446 | exporting and importing with clear on the same system restores every configuration layer by layer, a layer without branch identical and one with a branch but for its commit, which is the branch's head, and every desired configuration that was exported, and leaves the others empty; options and sources are as before |
| CfsRuns.RestoredExactlyOnce | scripts/operations/configuration/import_cfs_data.py:396-417 | exactly the components whose configuration was exported are updated, once each, in a batch of at most 500 that want the same |
| VaultSecrets.CompareSecrets | scripts/operations/configuration/python_lib/vault.py:303-346 | passes if and only if what was read equals what was written |
| VaultSecrets.Vault.DeleteSecret | scripts/operations/configuration/python_lib/vault.py:221-246 | whatever the service made of the request, verification fails if and only if it still has the secret |
| VaultSecrets.Vault.WriteSecret | scripts/operations/configuration/python_lib/vault.py:275-300 | whatever the service made of the request, verification passes if and only if it holds exactly what was sent; sending nothing is deleting |
| VaultSecrets.HoldsIff | scripts/operations/configuration/python_lib/vault.py:303-346 | what it means that Vault holds a secret, field by field; the empty one is none |
| VaultSecrets.Vault.Update | scripts/operations/configuration/python_lib/csm_root_secret.py:109-150 | a request is sent if and only if the overlay with deletion changes the secret, an absent one read as empty; a verified update that succeeds leaves the service with exactly that overlay, whatever the service does; and a service that stores what it is sent makes it succeed |
| VaultSecrets.UpdateTwice | scripts/operations/configuration/python_lib/csm_root_secret.py:109-150 | two updates are one update with the merged fields, even when the first deletes the secret |
| VaultSecrets.RepeatIsQuiet | scripts/operations/configuration/python_lib/csm_root_secret.py:147-149 | repeating an update changes nothing, so it sends nothing |
| VaultSecrets.RunIsMerged | scripts/operations/configuration/python_lib/csm_root_secret.py:109-150 | after any run of updates to any secrets each one is its first value with its merged update laid over it, and exists exactly when that is not empty |
| VaultSecrets.LastRequestDecides | scripts/operations/configuration/python_lib/csm_root_secret.py:109-150 | over any run of updates the last request that names a field decides what becomes of it |
| VaultSecrets.UntouchedField | scripts/operations/configuration/python_lib/csm_root_secret.py:109-150 | a field that no request names stays as it was |
| NidRanges.GetNidRanges | scripts/operations/system_layout_service/inspect_sls_cabinets.py:49-63 | grouping by the difference between element and index prints one text for every run of consecutive IDs |
| NidRanges.ExpandRanges | scripts/operations/system_layout_service/inspect_sls_cabinets.py:49-63 | expanding the ranges gives back the list in order |
| NidRanges.NeighboursDoNotMerge | scripts/operations/system_layout_service/inspect_sls_cabinets.py:55-61 | no two neighbouring ranges can be merged |
| NidRanges.FewestRanges | scripts/operations/system_layout_service/inspect_sls_cabinets.py:55-61 | no list of ranges for the same IDs is shorter |
| NidRanges.PrintedIsTheList | scripts/operations/system_layout_service/inspect_sls_cabinets.py:58-61 | for natural IDs the printed texts read back to the ranges and expand to the list |
| NidRanges.ShowIs | scripts/operations/system_layout_service/inspect_sls_cabinets.py:57-61 | one ID is printed as it is, several with a dash between the first and the last |
| KernelParams.BuildParams | scripts/operations/node_management/Add_Remove_Replace_NCNs/add_management_ncn.py:1664-1698 | the joined parameters: the new interfaces first, then what becomes of each parameter of the donor |
| KernelParams.AdaptedAre | scripts/operations/node_management/Add_Remove_Replace_NCNs/add_management_ncn.py:1671-1684 | every parameter of the donor that is not about its interfaces is taken over in its place; only the host name, the wipe protection and a fabric manager's root file system change |
| KernelParams.InterfaceParamIs | scripts/operations/node_management/Add_Remove_Replace_NCNs/add_management_ncn.py:1666-1669 | an interface is written as ifname=name:mac and read back as name:mac |
| KernelParams.BssParamsToIfnames | scripts/operations/node_management/Add_Remove_Replace_NCNs/ncn_status.py:578-585 | the values between the first two '=' of the arguments that start with ifname=, in order |
| KernelParams.CollectJoined | scripts/operations/node_management/Add_Remove_Replace_NCNs/ncn_status.py:578-585 | reading the joined parameters reads each of them, blanks inside a parameter included |
| KernelParams.IfnamesRoundTripIff | scripts/operations/node_management/Add_Remove_Replace_NCNs/add_management_ncn.py:1664-1698 | reading the new parameters gives exactly the interface:mac list in order, whatever the donor had, if and only if no image of a fabric manager goes on with an ifname after a blank |
| KernelParams.HiddenInterfaceExample | scripts/operations/node_management/Add_Remove_Replace_NCNs/add_management_ncn.py:1682-1684 | a concrete image for a fabric manager with two interfaces that adds a third nobody asked for |
| BssArtifacts.GetBootparametersMap | scripts/operations/configuration/python_lib/bss.py:114-134 | succeeds if and only if BSS has every host and no host is given twice, and then finds every record; which of the two errors it is otherwise |
| BssArtifacts.RepeatedXnameExample | scripts/operations/configuration/python_lib/bss.py:129-132 | a concrete list with a repeated name that is refused although BSS knows every host |
| BssArtifacts.UpdateParams | scripts/operations/configuration/python_lib/bss.py:162-175 | new parameters if and only if there is a metal.server token |
| BssArtifacts.Bss.UpdateArtifacts | scripts/operations/configuration/python_lib/bss.py:136-186 | nothing is patched exactly when some host is missing, repeated, without parameters or without a metal.server token; otherwise the first hosts have their new records, up to the PATCH request that failed, and no other host has changed |
| BssArtifacts.AllUpdatableIff | scripts/operations/configuration/python_lib/bss.py:136-175 | when nothing is refused: no host twice, each known and updatable |
| BssArtifacts.UpdatableIff | scripts/operations/configuration/python_lib/bss.py:162-175 | a host can be updated if and only if it has parameters with a metal.server token |
| BssArtifacts.PatchedHostIs | scripts/operations/configuration/python_lib/bss.py:162-186 | what a host has afterwards, token by token; other hosts keep what they had |
| BssArtifacts.OnlyMetalReplacedIff | scripts/operations/configuration/python_lib/bss.py:162-175 | the new string splits to the old tokens with only the metal.server ones replaced, if and only if the replacement is one word |
| BssArtifacts.RerunWritesTheSameIff | scripts/operations/configuration/python_lib/bss.py:162-175 | a rerun writes the same string if and only if splitting the replacement gives one word; otherwise every rerun makes it longer |
| BssArtifacts.AbortedThenRepeatedIff | scripts/operations/configuration/python_lib/bss.py:162-186 | an update that ended after some PATCH requests and is repeated leads where one whole update would have, if and only if splitting the replacement gives one word |
| BssArtifacts.TwoWordsExample | scripts/operations/configuration/python_lib/bss.py:162-175 | concrete parameters and a replacement of two words that fail both |

## Left out

- HTTP, Kea, Kubernetes, S3, SSH and podman: a request succeeds or ends the run, and a check against another service is a yes or no.
- IPv6 fields, /etc/hosts, MAC address checks, the cloud-init content of boot parameters, report printing and argument parsing.
- Addresses beyond the end of the address space: the search ends in exhaustion there.
- The branch of find_next_available_ip for a subnet without any address: the gateway is always one, so it is dead code.
- The rest of sls_utils: how it reads and writes SLS data.
- Ipam.ScanFrom: a call that would loop for ever, with a usable first candidate below the starting address, is excluded; SearchEndsIffNotStuck says exactly when that is, and AllocateIpAddressInSubnet that no caller makes one.
- CduSwitch.FindNextAvailableIp: not for a hardware subnet of one or two addresses (/32, /31), where netaddr's slices do something of their own; netaddr is not part of this model.
- CduSwitch.Network.AddCduIpReservation: likewise not for a network_hardware subnet of one or two addresses.
- Deriving xnames of BMCs, chassis and cabinets from a node's xname; the NID of a management node; a user access node without alias.
- Defragment.Services.Defragment: the batching of BMC queries, the component endpoints and inventory records of dead nodes, and what HSM answers to an empty filter.
- How CFS merges the tags that clearing sends is CFS's own business, and so are the snapshots that the script asks for. Concurrent changes by others are not modelled.
- NidRanges.PrintedIsTheList: negative IDs, whose printed ranges are ambiguous; find_cabinet_nids, a filter and a sort.
- The SLS text fields of cabinets (aliases, parents, type strings) and the cabinet's copy of its subnets.
- import_bos_data.py, the HSM verification and refresh scripts, the Ceph tools and sls_updater_csm_1.2.py.
