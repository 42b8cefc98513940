/** allocate_uan_ip.py: addresses of user access nodes on the CAN and the CHN. */
module UanIps {
  import opened Outcomes
  import opened Ipam
  import opened NcnIps

  const UAN_NETWORKS: seq<string> := ["CAN", "CHN"]

  /** What one trip round the loop over the networks decides. */
  datatype Grant = AlreadyThere | Granted(ip: nat, network: Network) | Refused

  /** subnet[2:-2] */
  predicate MayStartPool(cidr: Block, ip: nat) {
    cidr.base + 2 <= ip < cidr.base + cidr.size - 2
  }

  function UanReservation(uanAlias: string, xname: string, ip: nat): Reservation {
    Reservation(uanAlias, ip, xname, [])
  }

  predicate UanClashes(r: Reservation, uanAlias: string, xname: string, ip: nat, equality: Equality) {
    r.name == uanAlias || r.comment == xname || SameAddress(equality, r.ip, ip)
  }

  /** The allocated address, unless a subnet of the network already knows the node or the address. */
  function Checked(n: Network, uanAlias: string, xname: string, ip: nat, equality: Equality): Grant {
    if exists r :: r in AllReservations(n) && UanClashes(r, uanAlias, xname, ip, equality) then Refused
    else Granted(ip, n)
  }

  function Bumped(s: Subnet): Subnet
    requires s.dhcpStart.Some?
  {
    s.(dhcpStart := Some(s.dhcpStart.value + 1))
  }

  ghost function GrantIn(networks: Networks, name: string, uanAlias: string, xname: string,
                         allowedInDhcp: set<string>, equality: Equality): Grant
    requires name in networks
  {
    if networks[name].bootstrap.None? then Refused
    else
      var s := networks[name].bootstrap.value;
      if uanAlias in s.reservations && s.reservations[uanAlias].comment == xname then AlreadyThere
      else
        match AllocateIn(networks, name, allowedInDhcp, false)
        case Success(ip) => Checked(networks[name], uanAlias, xname, ip, equality)
        case Failure(OutsideStaticRange) =>
          var bumped := Bumped(s);
          if !MayStartPool(s.cidr, bumped.dhcpStart.value) then Refused
          else
            var networks' := PutBootstrap(networks, name, bumped);
            (match AllocateIn(networks', name, allowedInDhcp, false)
             case Success(ip) => Checked(networks'[name], uanAlias, xname, ip, equality)
             case Failure(_) => Refused)
        case Failure(_) => Refused
  }

  /** The network with the granted address in it. */
  function WithUan(n: Network, uanAlias: string, xname: string, ip: nat): Network
    requires n.bootstrap.Some?
  {
    n.(bootstrap := Some(WithReservation(n.bootstrap.value, UanReservation(uanAlias, xname, ip))))
  }

  ghost predicate Refuses(networks: Networks, name: string, uanAlias: string, xname: string,
                          allowedInDhcp: set<string>, equality: Equality) {
    name in networks && GrantIn(networks, name, uanAlias, xname, allowedInDhcp, equality) == Refused
  }

  ghost predicate Grants(networks: Networks, name: string, uanAlias: string, xname: string,
                         allowedInDhcp: set<string>, equality: Equality) {
    name in networks && GrantIn(networks, name, uanAlias, xname, allowedInDhcp, equality).Granted?
  }

  /** SLS afterwards: a refusal for any network changes nothing. `hsmAgrees` is the outcome of the
      checks against HSM, and `puts` of the PUT requests succeed. */
  ghost function AllocateUan(networks: Networks, uanAlias: string, xname: string, allowedInDhcp: set<string>,
                             equality: Equality, hsmAgrees: bool, puts: nat)
    : Networks
  {
    if (exists name :: name in UAN_NETWORKS && Refuses(networks, name, uanAlias, xname, allowedInDhcp, equality))
        || !hsmAgrees then
      networks
    else
      PutGrants(networks, networks, UAN_NETWORKS, uanAlias, xname, allowedInDhcp, equality, puts)
  }

  ghost function PutGrants(read: Networks, server: Networks, names: seq<string>, uanAlias: string, xname: string,
                           allowedInDhcp: set<string>, equality: Equality, puts: nat): Networks
    decreases |names|
  {
    if names == [] || puts == 0 then server
    else if Grants(read, names[0], uanAlias, xname, allowedInDhcp, equality) then
      var grant := GrantIn(read, names[0], uanAlias, xname, allowedInDhcp, equality);
      PutGrants(read, server[names[0] := WithUan(grant.network, uanAlias, xname, grant.ip)], names[1..],
                uanAlias, xname, allowedInDhcp, equality, puts - 1)
    else
      PutGrants(read, server, names[1..], uanAlias, xname, allowedInDhcp, equality, puts)
  }

  method GrantFor(networks: Networks, name: string, uanAlias: string, xname: string, allowedInDhcp: set<string>,
                  equality: Equality)
    returns (grant: Grant)
    requires name in networks
    ensures grant == GrantIn(networks, name, uanAlias, xname, allowedInDhcp, equality)
  {
    if networks[name].bootstrap.None? {
      return Refused;
    }
    var s := networks[name].bootstrap.value;
    if uanAlias in s.reservations && s.reservations[uanAlias].comment == xname {
      return AlreadyThere;
    }
    var local := networks;
    var got := AllocateIpAddressInSubnet(local, name, allowedInDhcp, false);
    if got.Failure? {
      if !got.error.OutsideStaticRange? {
        return Refused;
      }
      // Grow the static range by one address and try again.
      local := PutBootstrap(local, name, Bumped(s));
      if !MayStartPool(s.cidr, s.dhcpStart.value + 1) {
        return Refused;
      }
      got := AllocateIpAddressInSubnet(local, name, allowedInDhcp, false);
      if got.Failure? {
        return Refused;
      }
    }
    var failed := false;
    var all := AllReservations(local[name]);
    var left := all;
    while left != {}
      invariant left <= all
      invariant failed <==> exists r :: r in all - left && UanClashes(r, uanAlias, xname, got.value, equality)
    {
      var r :| r in left;
      if UanClashes(r, uanAlias, xname, got.value, equality) {
        failed := true;
      }
      left := left - {r};
    }
    return if failed then Refused else Granted(got.value, local[name]);
  }

  method AllocateUanIp(sls: Sls, uanAlias: string, xname: string, allowedInDhcp: set<string>, equality: Equality,
                       hsmAgrees: bool, puts: nat)
    modifies sls
    ensures sls.networks == AllocateUan(old(sls.networks), uanAlias, xname, allowedInDhcp, equality, hsmAgrees, puts)
  {
    var networks := sls.networks;
    var granted: map<string, Grant> := map[];
    for i := 0 to |UAN_NETWORKS|
      invariant sls.networks == networks
      invariant forall name :: name in UAN_NETWORKS[..i] ==>
          !Refuses(networks, name, uanAlias, xname, allowedInDhcp, equality)
      invariant forall name :: name in granted <==>
                  name in UAN_NETWORKS[..i] && Grants(networks, name, uanAlias, xname, allowedInDhcp, equality)
      invariant forall name :: name in granted ==>
                  granted[name] == GrantIn(networks, name, uanAlias, xname, allowedInDhcp, equality)
    {
      var name := UAN_NETWORKS[i];
      assert UAN_NETWORKS[..i + 1] == UAN_NETWORKS[..i] + [name];
      if name in networks {
        var grant := GrantFor(networks, name, uanAlias, xname, allowedInDhcp, equality);
        if grant.Refused? {
          assert Refuses(networks, name, uanAlias, xname, allowedInDhcp, equality);
          return;
        }
        if grant.Granted? {
          granted := granted[name := grant];
        }
      }
    }
    assert UAN_NETWORKS[..|UAN_NETWORKS|] == UAN_NETWORKS;
    if !hsmAgrees {
      return;
    }
    PutGranted(sls, networks, granted, uanAlias, xname, allowedInDhcp, equality, puts);
  }

  /** The loop that sends the networks with the granted addresses. */
  method PutGranted(sls: Sls, networks: Networks, granted: map<string, Grant>, uanAlias: string, xname: string,
                    allowedInDhcp: set<string>, equality: Equality, puts: nat)
    requires sls.networks == networks
    requires forall name :: name in granted <==>
               name in UAN_NETWORKS && Grants(networks, name, uanAlias, xname, allowedInDhcp, equality)
    requires forall name :: name in granted ==>
               name in networks && granted[name] == GrantIn(networks, name, uanAlias, xname, allowedInDhcp, equality)
    modifies sls
    ensures sls.networks == PutGrants(networks, networks, UAN_NETWORKS, uanAlias, xname, allowedInDhcp, equality, puts)
  {
    var done := 0;
    for i := 0 to |UAN_NETWORKS|
      invariant done <= puts
      invariant PutGrants(networks, networks, UAN_NETWORKS, uanAlias, xname, allowedInDhcp, equality, puts)
             == PutGrants(networks, sls.networks, UAN_NETWORKS[i..], uanAlias, xname, allowedInDhcp, equality,
                          puts - done)
    {
      var name := UAN_NETWORKS[i];
      assert UAN_NETWORKS[i..][0] == name && UAN_NETWORKS[i..][1..] == UAN_NETWORKS[i + 1..];
      if name in granted {
        if done == puts {
          return;
        }
        sls.Put(name, WithUan(granted[name].network, uanAlias, xname, granted[name].ip));
        done := done + 1;
      }
    }
  }

  // ---------------------------------------------------------------------------------------------
  // Giving the addresses back
  // ---------------------------------------------------------------------------------------------

  /** One of the alias and the xname matches, but not both. */
  predicate HalfMatches(r: Reservation, uanAlias: string, xname: string) {
    (r.name == uanAlias) != (r.comment == xname)
  }

  predicate Stops(networks: Networks, name: string, uanAlias: string, xname: string) {
    && name in networks
    && (networks[name].bootstrap.None?
        || exists key :: key in networks[name].bootstrap.value.reservations
                         && HalfMatches(networks[name].bootstrap.value.reservations[key], uanAlias, xname))
  }

  predicate Holds(networks: Networks, name: string, uanAlias: string, xname: string) {
    && name in networks
    && networks[name].bootstrap.Some?
    && exists key :: key in networks[name].bootstrap.value.reservations
                     && networks[name].bootstrap.value.reservations[key].name == uanAlias
                     && networks[name].bootstrap.value.reservations[key].comment == xname
  }

  function WithoutUan(n: Network, uanAlias: string): Network
    requires n.bootstrap.Some?
  {
    n.(bootstrap := Some(Without(n.bootstrap.value, uanAlias)))
  }

  ghost function DeallocateUan(networks: Networks, uanAlias: string, xname: string, puts: nat): Networks {
    if exists name :: name in UAN_NETWORKS && Stops(networks, name, uanAlias, xname) then networks
    else PutRemovals(networks, UAN_NETWORKS, uanAlias, xname, puts)
  }

  function PutRemovals(server: Networks, names: seq<string>, uanAlias: string, xname: string, puts: nat): Networks
    decreases |names|
  {
    if names == [] || puts == 0 then server
    else if Holds(server, names[0], uanAlias, xname) then
      PutRemovals(server[names[0] := WithoutUan(server[names[0]], uanAlias)], names[1..], uanAlias, xname, puts - 1)
    else
      PutRemovals(server, names[1..], uanAlias, xname, puts)
  }

  /** The loop over the reservations of one network. */
  method FindMatches(reservations: map<string, Reservation>, uanAlias: string, xname: string)
    returns (found: bool, failed: bool)
    ensures found <==> exists key :: key in reservations
                                     && reservations[key].name == uanAlias && reservations[key].comment == xname
    ensures failed <==> exists key :: key in reservations && HalfMatches(reservations[key], uanAlias, xname)
  {
    found, failed := false, false;
    var left := reservations.Keys;
    while left != {}
      invariant left <= reservations.Keys
      invariant found <==> exists key :: key in reservations.Keys - left
                                         && reservations[key].name == uanAlias && reservations[key].comment == xname
      invariant failed <==>
          exists key :: key in reservations.Keys - left && HalfMatches(reservations[key], uanAlias, xname)
    {
      var key :| key in left;
      if reservations[key].name == uanAlias && reservations[key].comment == xname {
        found := true;
      } else if reservations[key].name == uanAlias || reservations[key].comment == xname {
        failed := true;
      }
      left := left - {key};
    }
    assert reservations.Keys - left == reservations.Keys;
  }

  method DeallocateUanIp(sls: Sls, uanAlias: string, xname: string, puts: nat)
    modifies sls
    ensures sls.networks == DeallocateUan(old(sls.networks), uanAlias, xname, puts)
  {
    var networks := sls.networks;
    var modified: set<string> := {};
    for i := 0 to |UAN_NETWORKS|
      invariant sls.networks == networks
      invariant forall name :: name in UAN_NETWORKS[..i] ==> !Stops(networks, name, uanAlias, xname)
      invariant modified == set name | name in UAN_NETWORKS[..i] && Holds(networks, name, uanAlias, xname)
    {
      var name := UAN_NETWORKS[i];
      assert UAN_NETWORKS[..i + 1] == UAN_NETWORKS[..i] + [name];
      if name in networks {
        if networks[name].bootstrap.None? {
          assert Stops(networks, name, uanAlias, xname);
          return;
        }
        var found, failed := FindMatches(networks[name].bootstrap.value.reservations, uanAlias, xname);
        if failed {
          assert Stops(networks, name, uanAlias, xname);
          return;
        }
        if found {
          modified := modified + {name};
        }
      }
    }
    assert UAN_NETWORKS[..|UAN_NETWORKS|] == UAN_NETWORKS;
    PutModified(sls, networks, modified, uanAlias, xname, puts);
  }

  /** The loop that sends the changed networks. */
  method PutModified(sls: Sls, networks: Networks, modified: set<string>, uanAlias: string, xname: string, puts: nat)
    requires sls.networks == networks
    requires forall name :: name in UAN_NETWORKS ==> (name in modified <==> Holds(networks, name, uanAlias, xname))
    modifies sls
    ensures sls.networks == PutRemovals(networks, UAN_NETWORKS, uanAlias, xname, puts)
  {
    var done := 0;
    for i := 0 to |UAN_NETWORKS|
      invariant done <= puts
      invariant forall name :: name in UAN_NETWORKS[i..] && name in networks ==>
          name in sls.networks && sls.networks[name] == networks[name]
      invariant forall name :: name in UAN_NETWORKS[i..] && name !in networks ==> name !in sls.networks
      invariant PutRemovals(networks, UAN_NETWORKS, uanAlias, xname, puts)
             == PutRemovals(sls.networks, UAN_NETWORKS[i..], uanAlias, xname, puts - done)
    {
      var name := UAN_NETWORKS[i];
      assert UAN_NETWORKS[i..][0] == name && UAN_NETWORKS[i..][1..] == UAN_NETWORKS[i + 1..];
      assert name !in UAN_NETWORKS[i + 1..];
      if name in modified {
        if done == puts {
          return;
        }
        sls.Put(name, WithoutUan(networks[name], uanAlias));
        done := done + 1;
      }
    }
  }
}
