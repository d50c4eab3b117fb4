/**
  * CIDR routes and their difference.
  *
  * An address is a number below 2^32 or 2^128. Masking an address to `prefix` bits clears its low
  * `width - prefix` bits, and setting a clear bit adds its weight.
  */
module Routes {
  import opened Wrappers
  import opened Numbers

  datatype Family = V4 | V6

  function Width(family: Family): nat {
    if family.V4? then 32 else 128
  }

  /** The number of addresses of a family, 2^32 or 2^128. */
  function Size(family: Family): nat {
    if family.V4? then 0x1_0000_0000 else 0x1_0000_0000_0000_0000_0000_0000_0000_0000
  }

  datatype RawAddress = Address(family: Family, bits: nat)

  type Address = a: RawAddress | a.bits < Size(a.family) witness Address(V4, 0)

  datatype Route = Route(network: Address, prefix: nat)
  {
    /** The number of bits below the prefix. */
    function HostBits(): nat
      requires prefix <= Width(network.family)
    {
      Width(network.family) - prefix
    }

    /** The number after the last address. */
    function End(): nat
      requires prefix <= Width(network.family)
    {
      network.bits + Pow2(HostBits())
    }
  }

  /** The largest multiple of `size` up to `x`; for a power of two, `x` with the bits below it cleared. */
  function Floor(x: nat, size: nat): (r: nat)
    requires size > 0
    ensures r <= x < r + size
  {
    if x < size then 0 else size + Floor(x - size, size)
  }

  function NetworkAddress(a: Address, prefix: nat): Address
    requires prefix <= Width(a.family)
  {
    Address(a.family, Floor(a.bits, Pow2(Width(a.family) - prefix)))
  }

  /** A route whose network has no bit set below the prefix; all routes of the program are such. */
  predicate Canonical(r: Route) {
    r.prefix <= Width(r.network.family) && NetworkAddress(r.network, r.prefix) == r.network
  }

  predicate Contains(r: Route, a: Address)
    requires r.prefix <= Width(r.network.family)
  {
    r.network.family == a.family && NetworkAddress(a, r.prefix) == r.network
  }

  predicate ContainsRoute(r: Route, s: Route)
    requires r.prefix <= Width(r.network.family)
  {
    r.network.family == s.network.family && r.prefix <= s.prefix && Contains(r, s.network)
  }

  function Split(r: Route): (children: Option<(Route, Route)>)
    requires Canonical(r)
    ensures children.None? <==> r.prefix == Width(r.network.family)
  {
    if r.prefix == Width(r.network.family) then None else
      var bit := Pow2(r.HostBits() - 1);
      RightChildFits(r);
      Some((Route(r.network, r.prefix + 1),
            Route(Address(r.network.family, r.network.bits + bit), r.prefix + 1)))
  }

  /** The pieces of `route` outside `exclusion`. */
  function Subtract(route: Route, exclusion: Route): (pieces: seq<Route>)
    requires Canonical(route) && Canonical(exclusion)
    ensures forall p <- pieces :: Canonical(p)
    decreases Width(route.network.family) - route.prefix
  {
    if route.network.family != exclusion.network.family then [route]
    else if ContainsRoute(exclusion, route) then []
    else if !ContainsRoute(route, exclusion) then [route]
    else
      match Split(route)
      case None => []
      case Some((left, right)) =>
        ChildrenHalve(route, left, right);
        Subtract(left, exclusion) + Subtract(right, exclusion)
  }

  // ----- canonical routes are aligned intervals

  lemma {:induction false} Pow2Adds(m: nat, n: nat)
    ensures Pow2(m + n) == Pow2(m) * Pow2(n)
  {
    if n > 0 {
      Pow2Adds(m, n - 1);
      DoubledProduct(Pow2(m), Pow2(n - 1));
    }
  }

  lemma DoubledProduct(a: nat, b: nat)
    ensures a * (2 * b) == 2 * (a * b)
  {
  }

  lemma Pow2Of32()
    ensures Pow2(32) == 0x1_0000_0000
  {
    assert Pow2(4) == 0x10;
    Pow2Adds(4, 4);
    Pow2Adds(8, 8);
    Pow2Adds(16, 16);
  }

  lemma Pow2Of64()
    ensures Pow2(64) == 0x1_0000_0000_0000_0000
  {
    Pow2Of32();
    Pow2Adds(32, 32);
  }

  lemma SizeIsPow2(family: Family)
    ensures Pow2(Width(family)) == Size(family)
  {
    if family.V4? {
      Pow2Of32();
    } else {
      Pow2Of64();
      Pow2Adds(64, 64);
    }
  }

  lemma {:induction false} FloorOfSum(x: nat, q: nat, rest: nat, size: nat)
    requires rest < size && x == q * size + rest
    ensures Floor(x, size) == q * size
  {
    if q > 0 {
      assert q * size == (q - 1) * size + size;
      FloorOfSum(x - size, q - 1, rest, size);
    }
  }

  lemma Division(x: nat, size: nat)
    requires size > 0
    ensures x == (x / size) * size + x % size
  {
  }

  /** Clearing low bits is what the mask does. */
  lemma FloorIsMask(x: nat, size: nat)
    requires size > 0
    ensures Floor(x, size) == (x / size) * size
  {
    Division(x, size);
    FloorOfSum(x, x / size, x % size, size);
  }

  lemma {:induction false} FloorIs(x: nat, n: nat, size: nat)
    requires size > 0 && Floor(n, size) == n
    ensures Floor(x, size) == n <==> n <= x < n + size
  {
    if n <= x < n + size && n >= size {
      FloorIs(x - size, n - size, size);
    }
  }

  lemma {:induction false} FloorIsFixed(x: nat, size: nat)
    requires size > 0
    ensures Floor(Floor(x, size), size) == Floor(x, size)
  {
    if x >= size {
      FloorIsFixed(x - size, size);
    }
  }

  /** Aligned numbers that differ are at least a size apart. */
  lemma {:induction false} AlignedGap(x: nat, y: nat, size: nat)
    requires size > 0 && Floor(x, size) == x && Floor(y, size) == y && x < y
    ensures x + size <= y
  {
    if x >= size {
      AlignedGap(x - size, y - size, size);
    }
  }

  lemma {:induction false} AlignedToHalf(n: nat, half: nat)
    requires half > 0 && Floor(n, 2 * half) == n
    ensures Floor(n, half) == n && Floor(n + half, half) == n + half && Floor(n + 2 * half, half) == n + 2 * half
  {
    if n >= 2 * half {
      AlignedToHalf(n - 2 * half, half);
    }
  }

  /** The start and the end of a block aligned to 2^n are aligned to every smaller power of two. */
  lemma {:induction false} AlignedToSmaller(x: nat, m: nat, n: nat)
    requires m <= n && Floor(x, Pow2(n)) == x
    ensures Floor(x, Pow2(m)) == x && Floor(x + Pow2(n), Pow2(m)) == x + Pow2(n)
    decreases n
  {
    if m < n {
      AlignedToHalf(x, Pow2(n - 1));
      AlignedToSmaller(x, m, n - 1);
      AlignedToSmaller(x + Pow2(n - 1), m, n - 1);
    }
  }

  predicate Within(r: Route, a: Address) {
    && r.prefix <= Width(r.network.family)
    && r.network.family == a.family
    && r.network.bits <= a.bits < r.End()
  }

  /** A canonical route contains exactly the addresses of the interval it starts. */
  lemma ContainsIsWithin(r: Route, a: Address)
    requires Canonical(r)
    ensures Contains(r, a) <==> Within(r, a)
  {
    if r.network.family == a.family {
      FloorIs(a.bits, r.network.bits, Pow2(r.HostBits()));
    }
  }

  lemma FitsWidth(r: Route)
    requires Canonical(r)
    ensures r.End() <= Size(r.network.family)
  {
    SizeIsPow2(r.network.family);
    AlignedToSmaller(0, r.HostBits(), Width(r.network.family));
    AlignedGap(r.network.bits, Size(r.network.family), Pow2(r.HostBits()));
  }

  lemma RightChildFits(r: Route)
    requires Canonical(r) && r.prefix < Width(r.network.family)
    ensures r.network.bits + Pow2(r.HostBits() - 1) < Size(r.network.family)
  {
    FitsWidth(r);
  }

  lemma ChildrenCanonical(r: Route, left: Route, right: Route)
    requires Canonical(r) && Split(r) == Some((left, right))
    ensures Canonical(left) && Canonical(right)
  {
    AlignedToHalf(r.network.bits, Pow2(left.HostBits()));
  }

  lemma ChildrenHalve(r: Route, left: Route, right: Route)
    requires Canonical(r) && Split(r) == Some((left, right))
    ensures Canonical(left) && Canonical(right)
    ensures forall a: Address :: Within(r, a) <==> Within(left, a) || Within(right, a)
    ensures forall a: Address :: !(Within(left, a) && Within(right, a))
  {
    ChildrenCanonical(r, left, right);
    ChildrenMeet(r, left, right);
  }

  /** The left child starts where the parent does, the right one where the left ends, and both end together. */
  lemma ChildrenMeet(r: Route, left: Route, right: Route)
    requires Canonical(r) && Split(r) == Some((left, right))
    ensures left.prefix == right.prefix == r.prefix + 1 <= Width(r.network.family)
    ensures left.network == r.network && right.network.family == r.network.family
    ensures r.network.bits < left.End() == right.network.bits < right.End() == r.End()
  {
    assert left.HostBits() == right.HostBits() == r.HostBits() - 1;
  }

  // ----- nested or disjoint

  ghost predicate Disjoint(r: Route, s: Route) {
    forall a: Address :: !(Within(r, a) && Within(s, a))
  }

  /** The start and the end of a route are aligned to the size of any longer prefix. */
  lemma AlignedToLonger(r: Route, s: Route)
    requires Canonical(r) && r.network.family == s.network.family && r.prefix <= s.prefix <= Width(s.network.family)
    ensures Floor(r.network.bits, Pow2(s.HostBits())) == r.network.bits
    ensures Floor(r.End(), Pow2(s.HostBits())) == r.End()
  {
    AlignedToSmaller(r.network.bits, s.HostBits(), r.HostBits());
  }

  lemma InsideWhenShorter(r: Route, s: Route)
    requires Canonical(r) && Canonical(s) && r.network.family == s.network.family && r.prefix <= s.prefix
    requires Within(r, s.network)
    ensures s.End() <= r.End()
  {
    AlignedToLonger(r, s);
    AlignedGap(s.network.bits, r.End(), Pow2(s.HostBits()));
  }

  /** Of two canonical routes, one contains the other or they share no address (section 3.1 of RFC 4632). */
  lemma NestedOrDisjoint(r: Route, s: Route)
    requires Canonical(r) && Canonical(s)
    ensures ContainsRoute(r, s) ==> forall a: Address :: Within(s, a) ==> Within(r, a)
    ensures ContainsRoute(r, s) || ContainsRoute(s, r) || Disjoint(r, s)
    ensures ContainsRoute(r, s) && ContainsRoute(s, r) ==> r == s
  {
    ContainsIsWithin(r, s.network);
    ContainsIsWithin(s, r.network);
    if ContainsRoute(r, s) {
      InsideWhenShorter(r, s);
    }
    if r.network.family == s.network.family && !Disjoint(r, s) {
      var a: Address :| Within(r, a) && Within(s, a);
      if r.prefix <= s.prefix {
        SharedAddressNests(r, s, a);
      } else {
        SharedAddressNests(s, r, a);
      }
    }
  }

  lemma SharedAddressNests(r: Route, s: Route, a: Address)
    requires Canonical(r) && Canonical(s) && r.network.family == s.network.family && r.prefix <= s.prefix
    requires Within(r, a) && Within(s, a)
    ensures ContainsRoute(r, s)
  {
    // The start of `r` is aligned to the size of `s`, so it cannot lie strictly inside `s`.
    ContainsIsWithin(r, s.network);
    AlignedToLonger(r, s);
    if s.network.bits < r.network.bits {
      AlignedGap(s.network.bits, r.network.bits, Pow2(s.HostBits()));
    }
  }

  // ----- difference

  ghost predicate Covered(routes: seq<Route>, a: Address) {
    exists r <- routes :: Within(r, a)
  }

  lemma CoveredConcat(left: seq<Route>, right: seq<Route>, a: Address)
    ensures Covered(left + right, a) <==> Covered(left, a) || Covered(right, a)
  {
    assert forall r :: r in left + right <==> r in left || r in right;
  }

  /** The pieces cover exactly the addresses of the route outside the exclusion. */
  lemma {:induction false} SubtractIsDifference(route: Route, exclusion: Route, a: Address)
    requires Canonical(route) && Canonical(exclusion)
    ensures Covered(Subtract(route, exclusion), a) <==> Within(route, a) && !Within(exclusion, a)
    decreases Width(route.network.family) - route.prefix
  {
    NestedOrDisjoint(route, exclusion);
    NestedOrDisjoint(exclusion, route);
    if route.network.family != exclusion.network.family || !ContainsRoute(route, exclusion)
        || ContainsRoute(exclusion, route) {
      assert forall r :: r in [route] <==> r == route;
    } else {
      var (left, right) := Split(route).value;
      ChildrenHalve(route, left, right);
      SubtractIsDifference(left, exclusion, a);
      SubtractIsDifference(right, exclusion, a);
      CoveredConcat(Subtract(left, exclusion), Subtract(right, exclusion), a);
    }
  }

  /** The exclusion lies in one half of a route that strictly contains it; the other half is untouched. */
  lemma HalfWithExclusion(route: Route, exclusion: Route) returns (inner: Route, outer: Route, innerFirst: bool)
    requires Canonical(route) && Canonical(exclusion)
    requires ContainsRoute(route, exclusion) && route.prefix < exclusion.prefix
    ensures Canonical(inner) && Canonical(outer)
    ensures ContainsRoute(inner, exclusion) && Disjoint(outer, exclusion) && Disjoint(inner, outer)
    ensures Subtract(outer, exclusion) == [outer]
    ensures inner.network.family == outer.network.family == route.network.family
    ensures inner.prefix == outer.prefix == route.prefix + 1
    ensures forall a: Address :: Within(route, a) <==> Within(inner, a) || Within(outer, a)
    ensures Subtract(route, exclusion) ==
            if innerFirst then Subtract(inner, exclusion) + [outer] else [outer] + Subtract(inner, exclusion)
  {
    var (left, right) := Split(route).value;
    ChildrenHalve(route, left, right);
    ContainsIsWithin(route, exclusion.network);
    assert Pow2(exclusion.HostBits()) > 0;
    assert Within(exclusion, exclusion.network);
    innerFirst := Within(left, exclusion.network);
    inner, outer := if innerFirst then left else right, if innerFirst then right else left;
    SharedAddressNests(inner, exclusion, exclusion.network);
    NestedOrDisjoint(inner, exclusion);
    NestedOrDisjoint(outer, exclusion);
  }

  /** Where the recursion descends, the route has two halves: the childless case is never reached. */
  lemma DescentCanSplit(route: Route, exclusion: Route)
    requires Canonical(route) && Canonical(exclusion)
    requires ContainsRoute(route, exclusion) && !ContainsRoute(exclusion, route)
    ensures route.prefix < exclusion.prefix && Split(route).Some?
  {
  }

  ghost predicate HasLength(pieces: seq<Route>, length: nat) {
    exists p <- pieces :: p.prefix == length
  }

  ghost predicate Distinct(pieces: seq<Route>) {
    forall i, j | 0 <= i < j < |pieces| :: pieces[i].prefix != pieces[j].prefix && Disjoint(pieces[i], pieces[j])
  }

  /**
    * Cutting an exclusion out of a route that strictly contains it leaves one piece of each prefix
    * length in between, pairwise disjoint.
    */
  lemma {:induction false} SubtractShape(route: Route, exclusion: Route)
    requires Canonical(route) && Canonical(exclusion)
    requires ContainsRoute(route, exclusion) && route.prefix < exclusion.prefix
    ensures |Subtract(route, exclusion)| == exclusion.prefix - route.prefix
    ensures forall length | route.prefix < length <= exclusion.prefix :: HasLength(Subtract(route, exclusion), length)
    ensures forall p <- Subtract(route, exclusion) :: route.prefix < p.prefix <= exclusion.prefix
    ensures Distinct(Subtract(route, exclusion))
    decreases Width(route.network.family) - route.prefix
  {
    var inner, outer, innerFirst := HalfWithExclusion(route, exclusion);
    var rest := Subtract(inner, exclusion);
    var pieces := Subtract(route, exclusion);
    assert pieces == rest + [outer] || pieces == [outer] + rest;
    if inner.prefix < exclusion.prefix {
      SubtractShape(inner, exclusion);
    } else {
      NestedOrDisjoint(inner, exclusion);
      SameLengthNests(inner, exclusion);
    }
    forall p | p in rest ensures Disjoint(p, outer) {
      PieceStaysInside(inner, exclusion, outer, p);
    }
    OneMoreLength(rest, outer, pieces, inner.prefix, exclusion.prefix);
  }

  lemma OneMoreLength(rest: seq<Route>, outer: Route, pieces: seq<Route>, low: nat, high: nat)
    requires pieces == rest + [outer] || pieces == [outer] + rest
    requires outer.prefix == low <= high && Distinct(rest)
    requires forall length | low < length <= high :: HasLength(rest, length)
    requires forall p <- rest :: low < p.prefix <= high && Disjoint(p, outer)
    ensures Distinct(pieces) && forall p <- pieces :: low <= p.prefix <= high
    ensures forall length | low <= length <= high :: HasLength(pieces, length)
  {
    assert outer in pieces && forall p <- rest :: p in pieces;
    forall length | low <= length <= high ensures HasLength(pieces, length) {
      assert length > low ==> HasLength(rest, length);
    }
  }

  lemma SameLengthNests(inner: Route, exclusion: Route)
    requires Canonical(inner) && Canonical(exclusion)
    requires ContainsRoute(inner, exclusion) && inner.prefix == exclusion.prefix
    ensures Subtract(inner, exclusion) == []
  {
    assert inner == exclusion;
  }

  lemma PieceStaysInside(inner: Route, exclusion: Route, outer: Route, p: Route)
    requires Canonical(inner) && Canonical(exclusion) && Disjoint(inner, outer)
    requires p in Subtract(inner, exclusion)
    ensures Disjoint(p, outer)
  {
    forall a: Address ensures !(Within(p, a) && Within(outer, a)) {
      SubtractIsDifference(inner, exclusion, a);
    }
  }

  /** No cover of the difference by canonical routes outside the exclusion is shorter than the one computed. */
  lemma {:induction false} FewestPieces(route: Route, exclusion: Route, cover: seq<Route>)
    requires Canonical(route) && Canonical(exclusion)
    requires ContainsRoute(route, exclusion) && route.prefix <= exclusion.prefix
    requires forall t <- cover :: Canonical(t) && Disjoint(t, exclusion)
    requires forall a: Address :: Within(route, a) && !Within(exclusion, a) ==> Covered(cover, a)
    ensures |cover| >= exclusion.prefix - route.prefix
    decreases exclusion.prefix - route.prefix
  {
    if route.prefix < exclusion.prefix {
      var inner, outer, _ := HalfWithExclusion(route, exclusion);
      var start := outer.network;
      assert Within(outer, start) && !Within(exclusion, start);
      assert Covered(cover, start);
      var t :| t in cover && Within(t, start);
      CoverOfOuter(route, exclusion, inner, outer, t);
      var i :| 0 <= i < |cover| && cover[i] == t;
      var rest := cover[..i] + cover[i + 1..];
      assert forall s <- rest :: s in cover;
      forall a: Address | Within(inner, a) && !Within(exclusion, a) ensures Covered(rest, a) {
        assert Within(route, a) && Covered(cover, a) && !Within(t, a);
        CoveredByOthers(cover, i, a);
      }
      FewestPieces(inner, exclusion, rest);
    }
  }

  lemma CoveredByOthers(cover: seq<Route>, i: nat, a: Address)
    requires i < |cover| && Covered(cover, a) && !Within(cover[i], a)
    ensures Covered(cover[..i] + cover[i + 1..], a)
  {
    var j :| 0 <= j < |cover| && Within(cover[j], a);
    var rest := cover[..i] + cover[i + 1..];
    assert cover[j] == rest[if j < i then j else j - 1];
  }

  /** A route that reaches into the untouched half without meeting the exclusion stays in that half. */
  lemma CoverOfOuter(route: Route, exclusion: Route, inner: Route, outer: Route, t: Route)
    requires Canonical(route) && Canonical(exclusion) && Canonical(inner) && Canonical(outer) && Canonical(t)
    requires ContainsRoute(route, exclusion)
    requires inner.prefix == outer.prefix == route.prefix + 1
             && inner.network.family == outer.network.family == route.network.family
    requires forall a: Address :: Within(route, a) <==> Within(inner, a) || Within(outer, a)
    requires Disjoint(inner, outer) && Disjoint(t, exclusion) && Within(t, outer.network)
    ensures Disjoint(t, inner)
  {
    assert Within(outer, outer.network);
    if t.prefix <= route.prefix {
      assert Within(route, outer.network);
      SharedAddressNests(t, route, outer.network);
      NestedOrDisjoint(t, route);
      NestedOrDisjoint(route, exclusion);
      assert Within(exclusion, exclusion.network);
      assert false;
    }
    SharedAddressNests(outer, t, outer.network);
    NestedOrDisjoint(outer, t);
  }
}
