/** The VPN routing policy: included targets minus exclusions and the tunnel's own peer. */
module RoutePolicy {
  import opened Wrappers
  import opened Bytes
  import opened Numbers
  import opened Routes

  datatype Error = InvalidConfig

  /** What reading a CIDR string yields: nothing usable, or an address and an 8-bit prefix. */
  datatype CidrText = Malformed | Cidr(address: Address, prefix: Byte)

  predicate Readable(c: CidrText) {
    c.Cidr? && c.prefix <= Width(c.address.family)
  }

  function ParseAllowDefault(c: CidrText): (r: Result<Route, Error>)
    ensures r.Ok? <==> Readable(c)
    ensures Readable(c) <==> c.Cidr? && c.prefix <= if c.address.family.V4? then 32 else 128
    ensures r.Ok? ==> Canonical(r.value) && r.value.prefix == c.prefix && r.value.network.family == c.address.family
  {
    if !Readable(c) then Err(InvalidConfig) else
      MaskedIsCanonical(c.address, c.prefix);
      Ok(Route(NetworkAddress(c.address, c.prefix), c.prefix))
  }

  lemma MaskedIsCanonical(a: Address, prefix: nat)
    requires prefix <= Width(a.family)
    ensures Canonical(Route(NetworkAddress(a, prefix), prefix))
  {
    FloorIsFixed(a.bits, Pow2(Width(a.family) - prefix));
  }

  function HostRoute(a: Address): (r: Route)
    ensures Canonical(r)
  {
    MaskedIsCanonical(a, Width(a.family));
    Route(a, Width(a.family))
  }

  // ----- what the policy means, by leading bits

  /** `a` agrees with the CIDR's address in its first `prefix` bits. */
  predicate Matches(c: CidrText, a: Address) {
    && Readable(c)
    && c.address.family == a.family
    && c.address.bits / Pow2(Width(a.family) - c.prefix) == a.bits / Pow2(Width(a.family) - c.prefix)
  }

  ghost predicate AnyMatches(cidrs: seq<CidrText>, a: Address) {
    exists c <- cidrs :: Matches(c, a)
  }

  ghost predicate Lists(addresses: seq<Option<Address>>, a: Address) {
    Some(a) in addresses
  }

  ghost predicate AnyResolves(domains: seq<Option<seq<Address>>>, a: Address) {
    exists d <- domains :: d.Some? && a in d.value
  }

  ghost predicate Included(cidrs: seq<CidrText>, addresses: seq<Option<Address>>, domains: seq<Option<seq<Address>>>,
                           fullIpv4: bool, a: Address)
  {
    (fullIpv4 && a.family.V4?) || AnyMatches(cidrs, a) || Lists(addresses, a) || AnyResolves(domains, a)
  }

  lemma MatchesIsWithin(c: CidrText, a: Address)
    requires Readable(c)
    ensures Matches(c, a) <==> Within(ParseAllowDefault(c).value, a)
  {
    var r := ParseAllowDefault(c).value;
    if c.address.family == a.family {
      ContainsIsWithin(r, a);
      SameQuotient(c.address.bits, a.bits, Pow2(r.HostBits()));
    }
  }

  lemma SameQuotient(x: nat, y: nat, size: nat)
    requires size > 0
    ensures x / size == y / size <==> Floor(x, size) == Floor(y, size)
  {
    FloorIsMask(x, size);
    FloorIsMask(y, size);
    if x / size < y / size {
      Multiples(x / size, y / size, size);
    } else if y / size < x / size {
      Multiples(y / size, x / size, size);
    }
  }

  lemma {:induction false} Multiples(a: nat, b: nat, size: nat)
    requires size > 0 && a < b
    ensures a * size < b * size
  {
    if a + 1 < b {
      Multiples(a, b - 1, size);
    }
    assert b * size == (b - 1) * size + size;
  }

  lemma HostRouteHoldsOne(a: Address, b: Address)
    ensures Within(HostRoute(a), b) <==> a == b
  {
  }

  // ----- the fold over exclusions

  function SubtractFrom(routes: seq<Route>, exclusion: Route): (r: seq<Route>)
    requires Canonical(exclusion) && forall x <- routes :: Canonical(x)
    ensures forall x <- r :: Canonical(x)
  {
    if routes == [] then [] else
      SubtractFrom(routes[..|routes| - 1], exclusion) + Subtract(routes[|routes| - 1], exclusion)
  }

  lemma {:induction false} SubtractFromIsDifference(routes: seq<Route>, exclusion: Route, a: Address)
    requires Canonical(exclusion) && forall x <- routes :: Canonical(x)
    ensures Covered(SubtractFrom(routes, exclusion), a) <==> Covered(routes, a) && !Within(exclusion, a)
  {
    if routes != [] {
      var front, last := routes[..|routes| - 1], routes[|routes| - 1];
      SubtractFromIsDifference(front, exclusion, a);
      SubtractIsDifference(last, exclusion, a);
      CoveredConcat(SubtractFrom(front, exclusion), Subtract(last, exclusion), a);
      assert routes == front + [last];
      CoveredConcat(front, [last], a);
      assert last in [last];
    }
  }

  function SubtractEach(routes: seq<Route>, exclusions: seq<Route>): (r: seq<Route>)
    requires forall x <- exclusions :: Canonical(x)
    requires forall x <- routes :: Canonical(x)
    ensures forall x <- r :: Canonical(x)
  {
    if exclusions == [] then routes else
      SubtractFrom(SubtractEach(routes, exclusions[..|exclusions| - 1]), exclusions[|exclusions| - 1])
  }

  lemma {:induction false} SubtractEachIsDifference(routes: seq<Route>, exclusions: seq<Route>, a: Address)
    requires forall x <- exclusions :: Canonical(x)
    requires forall x <- routes :: Canonical(x)
    ensures Covered(SubtractEach(routes, exclusions), a) <==> Covered(routes, a) && !Covered(exclusions, a)
  {
    if exclusions != [] {
      var front, last := exclusions[..|exclusions| - 1], exclusions[|exclusions| - 1];
      SubtractEachIsDifference(routes, front, a);
      SubtractFromIsDifference(SubtractEach(routes, front), last, a);
      assert exclusions == front + [last];
      CoveredConcat(front, [last], a);
      assert last in [last];
    }
  }

  // ----- default routes

  ghost predicate HasDefault(routes: seq<Route>, family: Family) {
    exists r <- routes :: r.prefix == 0 && r.network.family == family
  }

  /** Some CIDR input is a default route of the family. */
  ghost predicate AsksDefault(cidrs: seq<CidrText>, family: Family) {
    exists c <- cidrs :: Readable(c) && c.prefix == 0 && c.address.family == family
  }

  ghost predicate Mentions(cidrs: seq<CidrText>, family: Family) {
    exists c <- cidrs :: Readable(c) && c.address.family == family
  }

  ghost predicate Touches(routes: seq<Route>, family: Family) {
    exists r <- routes :: r.network.family == family
  }

  lemma DefaultConcat(left: seq<Route>, right: seq<Route>, family: Family)
    ensures HasDefault(left + right, family) <==> HasDefault(left, family) || HasDefault(right, family)
    ensures Touches(left + right, family) <==> Touches(left, family) || Touches(right, family)
  {
    assert forall r :: r in left + right <==> r in left || r in right;
  }

  /** A piece is the whole route or longer than it, and a default route meets every exclusion of its family. */
  lemma {:induction false} DefaultAfterSubtract(route: Route, exclusion: Route, family: Family)
    requires Canonical(route) && Canonical(exclusion)
    ensures HasDefault(Subtract(route, exclusion), family) <==>
            route.prefix == 0 && route.network.family == family && exclusion.network.family != family
  {
    if route.network.family == exclusion.network.family {
      NestedOrDisjoint(route, exclusion);
      NestedOrDisjoint(exclusion, route);
      if ContainsRoute(route, exclusion) && !ContainsRoute(exclusion, route) {
        DescentCanSplit(route, exclusion);
        SubtractShape(route, exclusion);
      } else if route.prefix == 0 {
        DefaultContains(route, exclusion.network);
      }
    }
  }

  lemma DefaultContains(route: Route, a: Address)
    requires Canonical(route) && route.prefix == 0 && route.network.family == a.family
    ensures Within(route, a) && Contains(route, a)
  {
    FitsWidth(route);
    SizeIsPow2(route.network.family);
    ContainsIsWithin(route, a);
  }

  lemma {:induction false} DefaultAfterSubtractFrom(routes: seq<Route>, exclusion: Route, family: Family)
    requires Canonical(exclusion) && forall x <- routes :: Canonical(x)
    ensures HasDefault(SubtractFrom(routes, exclusion), family) <==>
            HasDefault(routes, family) && exclusion.network.family != family
  {
    if routes != [] {
      var front, last := routes[..|routes| - 1], routes[|routes| - 1];
      DefaultAfterSubtractFrom(front, exclusion, family);
      DefaultAfterSubtract(last, exclusion, family);
      DefaultConcat(SubtractFrom(front, exclusion), Subtract(last, exclusion), family);
      assert routes == front + [last];
      DefaultConcat(front, [last], family);
      assert last in [last];
    }
  }

  /** A default route comes out exactly when one went in and nothing of its family, nor the peer, was excluded. */
  lemma {:induction false} DefaultSurvives(routes: seq<Route>, exclusions: seq<Route>, family: Family)
    requires forall x <- exclusions :: Canonical(x)
    requires forall x <- routes :: Canonical(x)
    ensures HasDefault(SubtractEach(routes, exclusions), family) <==>
            HasDefault(routes, family) && !Touches(exclusions, family)
  {
    if exclusions != [] {
      var front, last := exclusions[..|exclusions| - 1], exclusions[|exclusions| - 1];
      DefaultSurvives(routes, front, family);
      DefaultAfterSubtractFrom(SubtractEach(routes, front), last, family);
      assert exclusions == front + [last];
      DefaultConcat(front, [last], family);
      assert last in [last];
    }
  }

  /** A default route of a family other than the peer's does come out, although installing it is refused later. */
  lemma OtherFamilyDefaultEscapes()
    ensures var everything := Route(Address(V6, 0), 0);
            Canonical(everything) && HasDefault(SubtractEach([everything], [HostRoute(Address(V4, 1))]), V6)
  {
    var everything := Route(Address(V6, 0), 0);
    assert everything in [everything];
    DefaultSurvives([everything], [HostRoute(Address(V4, 1))], V6);
  }

  // ----- the resolver

  ghost predicate AllReadable(cidrs: seq<CidrText>) {
    forall c <- cidrs :: Readable(c)
  }

  ghost predicate AllResolved(domains: seq<Option<seq<Address>>>) {
    forall d <- domains :: d.Some? && d.value != []
  }

  /** Every input can be read and every domain resolves to something. */
  ghost predicate WellFormed(cidrs: seq<CidrText>, addresses: seq<Option<Address>>, domains: seq<Option<seq<Address>>>,
                             exclusions: seq<CidrText>)
  {
    AllReadable(cidrs) && None !in addresses && AllResolved(domains) && AllReadable(exclusions)
  }

  /** A pushed route adds its addresses, whether or not the list already had it. */
  lemma CoveredByPush(routes: seq<Route>, route: Route, a: Address)
    ensures Covered(Push(routes, route), a) <==> Covered(routes, a) || Within(route, a)
  {
    CoveredConcat(routes, [route], a);
    assert route in [route];
  }

  function Push(routes: seq<Route>, route: Route): seq<Route> {
    if route in routes then routes else routes + [route]
  }

  method CollectCidrs(start: seq<Route>, cidrs: seq<CidrText>) returns (r: Result<seq<Route>, Error>)
    requires forall x <- start :: Canonical(x)
    ensures r.Ok? <==> AllReadable(cidrs)
    ensures r.Ok? ==> forall x <- r.value :: Canonical(x)
    ensures r.Ok? ==> forall a: Address :: Covered(r.value, a) <==> Covered(start, a) || AnyMatches(cidrs, a)
    ensures r.Ok? ==> forall f :: HasDefault(r.value, f) <==> HasDefault(start, f) || AsksDefault(cidrs, f)
  {
    var routes := start;
    for i := 0 to |cidrs|
      invariant AllReadable(cidrs[..i])
      invariant forall x <- routes :: Canonical(x)
      invariant forall a: Address :: Covered(routes, a) <==> Covered(start, a) || AnyMatches(cidrs[..i], a)
      invariant forall f :: HasDefault(routes, f) <==> HasDefault(start, f) || AsksDefault(cidrs[..i], f)
    {
      assert cidrs[..i + 1] == cidrs[..i] + [cidrs[i]];
      if !Readable(cidrs[i]) {
        return Err(InvalidConfig);
      }
      var route := ParseAllowDefault(cidrs[i]).value;
      forall a: Address
        ensures Covered(Push(routes, route), a) <==> Covered(start, a) || AnyMatches(cidrs[..i + 1], a)
      {
        CoveredByPush(routes, route, a);
        MatchesIsWithin(cidrs[i], a);
        AnyMatchesPush(cidrs[..i], cidrs[i], a);
      }
      forall f ensures HasDefault(Push(routes, route), f) <==> HasDefault(start, f) || AsksDefault(cidrs[..i + 1], f) {
        DefaultByPush(routes, route, f);
        AsksDefaultPush(cidrs[..i], cidrs[i], f);
      }
      routes := Push(routes, route);
    }
    assert cidrs[..|cidrs|] == cidrs;
    return Ok(routes);
  }

  lemma DefaultByPush(routes: seq<Route>, route: Route, family: Family)
    ensures HasDefault(Push(routes, route), family) <==>
            HasDefault(routes, family) || (route.prefix == 0 && route.network.family == family)
  {
    DefaultConcat(routes, [route], family);
    assert route in [route];
  }

  lemma AsksDefaultPush(cidrs: seq<CidrText>, c: CidrText, family: Family)
    ensures AsksDefault(cidrs + [c], family) <==>
            AsksDefault(cidrs, family) || (Readable(c) && c.prefix == 0 && c.address.family == family)
  {
    assert forall x :: x in cidrs + [c] <==> x in cidrs || x == c;
  }

  lemma ListsPush(addresses: seq<Option<Address>>, address: Option<Address>, a: Address)
    ensures Lists(addresses + [address], a) <==> Lists(addresses, a) || address == Some(a)
  {
  }

  lemma AnyMatchesPush(cidrs: seq<CidrText>, c: CidrText, a: Address)
    ensures AnyMatches(cidrs + [c], a) <==> AnyMatches(cidrs, a) || Matches(c, a)
  {
    assert forall x :: x in cidrs + [c] <==> x in cidrs || x == c;
  }

  method CollectAddresses(start: seq<Route>, addresses: seq<Option<Address>>) returns (r: Result<seq<Route>, Error>)
    requires forall x <- start :: Canonical(x)
    ensures r.Ok? <==> None !in addresses
    ensures r.Ok? ==> forall x <- r.value :: Canonical(x)
    ensures r.Ok? ==> forall a: Address :: Covered(r.value, a) <==> Covered(start, a) || Lists(addresses, a)
    ensures r.Ok? ==> forall f :: HasDefault(r.value, f) <==> HasDefault(start, f)
  {
    var routes := start;
    for i := 0 to |addresses|
      invariant None !in addresses[..i]
      invariant forall x <- routes :: Canonical(x)
      invariant forall a: Address :: Covered(routes, a) <==> Covered(start, a) || Lists(addresses[..i], a)
      invariant forall f :: HasDefault(routes, f) <==> HasDefault(start, f)
    {
      assert addresses[..i + 1] == addresses[..i] + [addresses[i]];
      if addresses[i].None? {
        return Err(InvalidConfig);
      }
      var route := HostRoute(addresses[i].value);
      forall a: Address
        ensures Covered(Push(routes, route), a) <==> Covered(start, a) || Lists(addresses[..i + 1], a)
      {
        CoveredByPush(routes, route, a);
        HostRouteHoldsOne(addresses[i].value, a);
        ListsPush(addresses[..i], addresses[i], a);
      }
      forall f ensures HasDefault(Push(routes, route), f) <==> HasDefault(start, f) {
        DefaultByPush(routes, route, f);
      }
      routes := Push(routes, route);
    }
    assert addresses[..|addresses|] == addresses;
    return Ok(routes);
  }

  method CollectDomains(start: seq<Route>, domains: seq<Option<seq<Address>>>) returns (r: Result<seq<Route>, Error>)
    requires forall x <- start :: Canonical(x)
    ensures r.Ok? <==> AllResolved(domains)
    ensures r.Ok? ==> forall x <- r.value :: Canonical(x)
    ensures r.Ok? ==> forall a: Address :: Covered(r.value, a) <==> Covered(start, a) || AnyResolves(domains, a)
    ensures r.Ok? ==> forall f :: HasDefault(r.value, f) <==> HasDefault(start, f)
  {
    var routes := start;
    for i := 0 to |domains|
      invariant AllResolved(domains[..i])
      invariant forall x <- routes :: Canonical(x)
      invariant forall a: Address :: Covered(routes, a) <==> Covered(start, a) || AnyResolves(domains[..i], a)
      invariant forall f :: HasDefault(routes, f) <==> HasDefault(start, f)
    {
      assert domains[..i + 1] == domains[..i] + [domains[i]];
      if domains[i].None? || domains[i].value == [] {
        return Err(InvalidConfig);
      }
      var found := Found(domains[i].value);
      var next := CollectAddresses(routes, found);
      forall a: Address
        ensures Covered(next.value, a) <==> Covered(start, a) || AnyResolves(domains[..i + 1], a)
      {
        FoundIffIn(domains[i].value, a);
        AnyResolvesPush(domains[..i], domains[i], a);
      }
      routes := next.value;
    }
    assert domains[..|domains|] == domains;
    return Ok(routes);
  }

  function Found(addresses: seq<Address>): (r: seq<Option<Address>>)
    ensures None !in r
  {
    seq(|addresses|, i requires 0 <= i < |addresses| => Some(addresses[i]))
  }

  lemma FoundIffIn(addresses: seq<Address>, a: Address)
    ensures Lists(Found(addresses), a) <==> a in addresses
  {
    if a in addresses {
      var i :| 0 <= i < |addresses| && addresses[i] == a;
      assert Found(addresses)[i] == Some(a);
    }
  }

  lemma AnyResolvesPush(domains: seq<Option<seq<Address>>>, d: Option<seq<Address>>, a: Address)
    ensures AnyResolves(domains + [d], a) <==> AnyResolves(domains, a) || (d.Some? && a in d.value)
  {
    assert forall x :: x in domains + [d] <==> x in domains || x == d;
  }

  method ParseExclusions(cidrs: seq<CidrText>, peer: Address) returns (r: Result<seq<Route>, Error>)
    ensures r.Ok? <==> AllReadable(cidrs)
    ensures r.Ok? ==> forall x <- r.value :: Canonical(x)
    ensures r.Ok? ==> forall a: Address :: Covered(r.value, a) <==> AnyMatches(cidrs, a) || a == peer
    ensures r.Ok? ==> forall f :: Touches(r.value, f) <==> Mentions(cidrs, f) || f == peer.family
  {
    var routes := [];
    for i := 0 to |cidrs|
      invariant |routes| == i
      invariant forall j | 0 <= j < i :: Readable(cidrs[j]) && routes[j] == ParseAllowDefault(cidrs[j]).value
    {
      if !Readable(cidrs[i]) {
        return Err(InvalidConfig);
      }
      routes := routes + [ParseAllowDefault(cidrs[i]).value];
    }
    var all := routes + [HostRoute(peer)];
    forall a: Address ensures Covered(all, a) <==> AnyMatches(cidrs, a) || a == peer {
      ParsedCover(cidrs, routes, a);
      CoveredWithHost(routes, peer, a);
    }
    forall f ensures Touches(all, f) <==> Mentions(cidrs, f) || f == peer.family {
      ParsedFamilies(cidrs, routes, f);
      TouchesWithHost(routes, peer, f);
    }
    return Ok(all);
  }

  lemma CoveredWithHost(routes: seq<Route>, peer: Address, a: Address)
    ensures Covered(routes + [HostRoute(peer)], a) <==> Covered(routes, a) || a == peer
  {
    CoveredConcat(routes, [HostRoute(peer)], a);
    assert HostRoute(peer) in [HostRoute(peer)];
    HostRouteHoldsOne(peer, a);
  }

  lemma TouchesWithHost(routes: seq<Route>, peer: Address, family: Family)
    ensures Touches(routes + [HostRoute(peer)], family) <==> Touches(routes, family) || family == peer.family
  {
    DefaultConcat(routes, [HostRoute(peer)], family);
    assert HostRoute(peer) in [HostRoute(peer)];
  }

  lemma ParsedCover(cidrs: seq<CidrText>, routes: seq<Route>, a: Address)
    requires |routes| == |cidrs|
    requires forall j | 0 <= j < |cidrs| :: Readable(cidrs[j]) && routes[j] == ParseAllowDefault(cidrs[j]).value
    ensures Covered(routes, a) <==> AnyMatches(cidrs, a)
  {
    forall j | 0 <= j < |cidrs| ensures Matches(cidrs[j], a) <==> Within(routes[j], a) {
      MatchesIsWithin(cidrs[j], a);
    }
    if AnyMatches(cidrs, a) {
      var j :| 0 <= j < |cidrs| && Matches(cidrs[j], a);
      assert routes[j] in routes;
    }
  }

  lemma ParsedFamilies(cidrs: seq<CidrText>, routes: seq<Route>, family: Family)
    requires |routes| == |cidrs|
    requires forall j | 0 <= j < |cidrs| :: Readable(cidrs[j]) && routes[j] == ParseAllowDefault(cidrs[j]).value
    ensures Touches(routes, family) <==> Mentions(cidrs, family)
  {
    if Mentions(cidrs, family) {
      var j :| 0 <= j < |cidrs| && cidrs[j].address.family == family;
      assert routes[j] in routes;
    }
  }

  /** Cut every exclusion out of every route, one exclusion after the other. */
  method CutOut(targets: seq<Route>, exclusions: seq<Route>) returns (routes: seq<Route>)
    requires forall x <- targets :: Canonical(x)
    requires forall x <- exclusions :: Canonical(x)
    ensures routes == SubtractEach(targets, exclusions)
  {
    routes := targets;
    for i := 0 to |exclusions|
      invariant routes == SubtractEach(targets, exclusions[..i])
    {
      var pieces := [];
      for j := 0 to |routes|
        invariant pieces == SubtractFrom(routes[..j], exclusions[i])
      {
        assert routes[..j + 1][..j] == routes[..j];
        pieces := pieces + Subtract(routes[j], exclusions[i]);
      }
      assert routes[..|routes|] == routes;
      assert exclusions[..i + 1][..i] == exclusions[..i];
      routes := pieces;
    }
    assert exclusions[..|exclusions|] == exclusions;
  }

  method Unique(routes: seq<Route>) returns (unique: seq<Route>)
    ensures forall r :: r in unique <==> r in routes
    ensures forall i, j | 0 <= i < j < |unique| :: unique[i] != unique[j]
  {
    unique := [];
    for i := 0 to |routes|
      invariant forall r :: r in unique <==> r in routes[..i]
      invariant forall i, j | 0 <= i < j < |unique| :: unique[i] != unique[j]
    {
      assert routes[..i + 1] == routes[..i] + [routes[i]];
      unique := Push(unique, routes[i]);
    }
    assert routes[..|routes|] == routes;
  }

  /** 0.0.0.0/1 and 128.0.0.0/1, which stand for the IPv4 default route. */
  function Ipv4Halves(): (r: seq<Route>)
    ensures forall x <- r :: Canonical(x) && x.prefix == 1
  {
    SizeIsPow2(V4);
    [Route(Address(V4, 0), 1), Route(Address(V4, 0x8000_0000), 1)]
  }

  lemma HalvesMakeIpv4(a: Address)
    ensures Covered(Ipv4Halves(), a) <==> a.family.V4?
  {
    var everything, halves := Route(Address(V4, 0), 0), Ipv4Halves();
    SizeIsPow2(V4);
    ChildrenHalve(everything, halves[0], halves[1]);
    if a.family.V4? {
      DefaultContains(everything, a);
    }
    assert forall x :: x in halves <==> x == halves[0] || x == halves[1];
  }

  method CollectTargets(cidrs: seq<CidrText>, addresses: seq<Option<Address>>, domains: seq<Option<seq<Address>>>,
                        fullIpv4: bool)
    returns (r: Result<seq<Route>, Error>)
    ensures r.Ok? <==> AllReadable(cidrs) && None !in addresses && AllResolved(domains)
    ensures r.Ok? ==> forall x <- r.value :: Canonical(x)
    ensures r.Ok? ==> forall a: Address :: Covered(r.value, a) <==> Included(cidrs, addresses, domains, fullIpv4, a)
    ensures r.Ok? ==> forall f :: HasDefault(r.value, f) <==> AsksDefault(cidrs, f)
  {
    var start := if fullIpv4 then Ipv4Halves() else [];
    forall a: Address ensures Covered(start, a) <==> fullIpv4 && a.family.V4? {
      HalvesMakeIpv4(a);
    }
    r := CollectCidrs(start, cidrs);
    if r.Err? { return; }
    r := CollectAddresses(r.value, addresses);
    if r.Err? { return; }
    r := CollectDomains(r.value, domains);
  }

  /**
    * Resolve the policy. It fails exactly when an input is unreadable. Otherwise the routes, all
    * different and canonical, carry exactly the included addresses that are not excluded and are not the
    * peer; and one of them is a default route only if one was asked for in a family that neither an
    * exclusion nor the peer belongs to.
    */
  method ResolveRoutePolicy(cidrs: seq<CidrText>, addresses: seq<Option<Address>>, domains: seq<Option<seq<Address>>>,
                            exclusions: seq<CidrText>, peer: Address, fullIpv4: bool)
    returns (r: Result<seq<Route>, Error>)
    ensures r.Ok? <==> WellFormed(cidrs, addresses, domains, exclusions)
    ensures r.Ok? ==> forall x <- r.value :: Canonical(x) && !Contains(x, peer)
    ensures r.Ok? ==> forall i, j | 0 <= i < j < |r.value| :: r.value[i] != r.value[j]
    ensures r.Ok? ==> forall a: Address :: Covered(r.value, a) <==>
              Included(cidrs, addresses, domains, fullIpv4, a) && !AnyMatches(exclusions, a) && a != peer
    ensures r.Ok? ==> forall f :: HasDefault(r.value, f) <==>
              AsksDefault(cidrs, f) && !Mentions(exclusions, f) && f != peer.family
  {
    var targets := CollectTargets(cidrs, addresses, domains, fullIpv4);
    if targets.Err? { return targets; }
    var excluded := ParseExclusions(exclusions, peer);
    if excluded.Err? { return excluded; }
    var routes := CutOut(targets.value, excluded.value);
    var unique := Unique(routes);
    forall a: Address ensures Covered(unique, a) <==> Covered(targets.value, a) && !Covered(excluded.value, a) {
      SubtractEachIsDifference(targets.value, excluded.value, a);
    }
    forall f ensures HasDefault(unique, f) <==> HasDefault(targets.value, f) && !Touches(excluded.value, f) {
      DefaultSurvives(targets.value, excluded.value, f);
    }
    forall x | x in unique ensures Canonical(x) && !Contains(x, peer) {
      ContainsIsWithin(x, peer);
      assert !Covered(unique, peer);
    }
    return Ok(unique);
  }
}
