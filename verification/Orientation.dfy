/**
 * The orientation of closed ways: is_closed_poly() in src/smcoast.c,
 * poly_area(), reverse_way() and set_way_direction() in src/smfunc.c.
 */
module Orientation {
  import opened Common

  type Place = (real, real)

  /** Nodes in the plane: longitude times the cosine of the latitude, and latitude. */
  type Plane = map<int, Place>

  datatype Dir = Cw | Ccw

  /** is_closed_poly(). */
  predicate IsClosedPoly(ref: seq<int>) {
    |ref| >= 4 && ref[0] == ref[|ref| - 1]
  }

  ghost predicate AllExist(ref: seq<int>, p: Plane) {
    forall i :: 0 <= i < |ref| ==> ref[i] in p
  }

  // ----- the shoelace formula -----

  function Cross(a: Place, b: Place): real {
    a.0 * b.1 - b.0 * a.1
  }

  function CrossLon(a: Place, b: Place): real {
    (a.0 + b.0) * Cross(a, b)
  }

  function CrossLat(a: Place, b: Place): real {
    (a.1 + b.1) * Cross(a, b)
  }

  /** The sum over the edges of a way. */
  ghost function EdgeSum(ref: seq<int>, p: Plane, f: (Place, Place) -> real): real
    requires AllExist(ref, p)
  {
    if |ref| < 2 then 0.0 else f(p[ref[0]], p[ref[1]]) + EdgeSum(ref[1..], p, f)
  }

  /** Twice the area in the plane, positive if the way runs counterclockwise. */
  ghost function Shoelace(ref: seq<int>, p: Plane): real
    requires AllExist(ref, p)
  {
    EdgeSum(ref, p, Cross)
  }

  lemma {:induction false} EdgeSumAppend(ref: seq<int>, n: int, p: Plane, f: (Place, Place) -> real)
    requires AllExist(ref, p) && n in p
    ensures AllExist(ref + [n], p)
    ensures EdgeSum(ref + [n], p, f) == EdgeSum(ref, p, f) + if ref == [] then 0.0 else f(p[ref[|ref| - 1]], p[n])
  {
    if |ref| >= 2 {
      EdgeSumAppend(ref[1..], n, p, f);
      assert (ref + [n])[1..] == ref[1..] + [n];
    } else if |ref| == 1 {
      assert (ref + [n])[1..] == [n];
    }
  }

  lemma {:induction false} ReversedEdgeSum(ref: seq<int>, p: Plane, f: (Place, Place) -> real)
    requires AllExist(ref, p) && forall a, b :: f(b, a) == -f(a, b)
    ensures AllExist(Reversed(ref), p) && EdgeSum(Reversed(ref), p, f) == -EdgeSum(ref, p, f)
  {
    if ref != [] {
      ReversedEdgeSum(ref[1..], p, f);
      assert Reversed(ref) == Reversed(ref[1..]) + [ref[0]];
      EdgeSumAppend(Reversed(ref[1..]), ref[0], p, f);
    }
  }

  /** Reversing a way changes the sign of the sum, wherever its nodes are. */
  lemma ReversedShoelace(ref: seq<int>, p: Plane)
    requires AllExist(ref, p)
    ensures AllExist(Reversed(ref), p) && Shoelace(Reversed(ref), p) == -Shoelace(ref, p)
  {
    hide Reversed, EdgeSum;
    forall a, b ensures Cross(b, a) == -Cross(a, b) {
      CrossNegated(a, b);
    }
    ReversedEdgeSum(ref, p, Cross);
  }

  /** For a triangle the sum is twice its area, positive if its corners are given counterclockwise. */
  lemma TriangleSum(a: int, b: int, c: int, p: Plane)
    requires a in p && b in p && c in p
    ensures AllExist([a, b, c, a], p)
    ensures Shoelace([a, b, c, a], p) ==
      (p[b].0 - p[a].0) * (p[c].1 - p[a].1) - (p[c].0 - p[a].0) * (p[b].1 - p[a].1)
  {
    FourNodes(a, b, c, p, Cross);
  }

  lemma FourNodes(a: int, b: int, c: int, p: Plane, f: (Place, Place) -> real)
    requires a in p && b in p && c in p
    ensures AllExist([a, b, c, a], p)
    ensures EdgeSum([a, b, c, a], p, f) == f(p[a], p[b]) + f(p[b], p[c]) + f(p[c], p[a])
  {
    assert [a, b, c, a][1..] == [b, c, a] && [b, c, a][1..] == [c, a] && [c, a][1..] == [a];
    assert EdgeSum([c, a], p, f) == f(p[c], p[a]) + EdgeSum([a], p, f);
    assert EdgeSum([b, c, a], p, f) == f(p[b], p[c]) + EdgeSum([c, a], p, f);
  }

  /** The centre of gravity: none if the area is 0, where the source divides by 0. */
  ghost function Centroid(ref: seq<int>, p: Plane): Option<Place>
    requires AllExist(ref, p)
  {
    var a := Shoelace(ref, p);
    if a == 0.0 then None else Some(Scaled(EdgeSum(ref, p, CrossLon), EdgeSum(ref, p, CrossLat), a))
  }

  function Scaled(x: real, y: real, a: real): Place
    requires a != 0.0
  {
    (x / (3.0 * a), y / (3.0 * a))
  }

  lemma CrossNegated(a: Place, b: Place)
    ensures Cross(b, a) == -Cross(a, b)
  {
  }

  lemma CrossSwapped(a: Place, b: Place)
    ensures CrossLon(b, a) == -CrossLon(a, b) && CrossLat(b, a) == -CrossLat(a, b)
  {
    hide Cross;
    CrossNegated(a, b);
  }

  /** For a triangle at the origin the centre is at a third of its sides. */
  lemma TriangleCentre(a: int, b: int, c: int, p: Plane, x: real, y: real)
    requires a in p && b in p && c in p && p[a] == (0.0, 0.0) && p[b] == (x, 0.0) && p[c] == (0.0, y)
    requires x != 0.0 && y != 0.0
    ensures AllExist([a, b, c, a], p) && Centroid([a, b, c, a], p) == Some((x / 3.0, y / 3.0))
  {
    hide EdgeSum, Scaled;
    FourNodes(a, b, c, p, Cross);
    FourNodes(a, b, c, p, CrossLon);
    FourNodes(a, b, c, p, CrossLat);
    NotZero(x, y);
    assert Shoelace([a, b, c, a], p) == x * y;
    assert EdgeSum([a, b, c, a], p, CrossLon) == x * (x * y) && EdgeSum([a, b, c, a], p, CrossLat) == y * (x * y);
    CentroidIs([a, b, c, a], p);
    ScaledThirds(x, y, x * y, EdgeSum([a, b, c, a], p, CrossLon), EdgeSum([a, b, c, a], p, CrossLat));
  }

  lemma CentroidIs(ref: seq<int>, p: Plane)
    requires AllExist(ref, p) && Shoelace(ref, p) != 0.0
    ensures Centroid(ref, p) == Some(Scaled(EdgeSum(ref, p, CrossLon), EdgeSum(ref, p, CrossLat), Shoelace(ref, p)))
  {
  }

  lemma ScaledThirds(x: real, y: real, a: real, lon: real, lat: real)
    requires a != 0.0 && lon == x * a && lat == y * a
    ensures Scaled(lon, lat, a) == (x / 3.0, y / 3.0)
  {
    Third(x, a);
    Third(y, a);
  }

  lemma Third(x: real, a: real)
    requires a != 0.0
    ensures x * a / (3.0 * a) == x / 3.0
  {
    QuotientIs(x * a, 3.0 * a, x / 3.0);
  }

  lemma NotZero(x: real, y: real)
    requires x != 0.0 && y != 0.0
    ensures x * y != 0.0
  {
  }

  lemma QuotientIs(n: real, d: real, q: real)
    requires d != 0.0 && n == q * d
    ensures n / d == q
  {
  }

  /** Both directions of a way have the same centre. */
  lemma ReversedCentroid(ref: seq<int>, p: Plane)
    requires AllExist(ref, p)
    ensures AllExist(Reversed(ref), p) && Centroid(Reversed(ref), p) == Centroid(ref, p)
  {
    hide Reversed, EdgeSum, Shoelace, CrossLon, CrossLat, Scaled;
    forall a, b ensures CrossLon(b, a) == -CrossLon(a, b) && CrossLat(b, a) == -CrossLat(a, b) {
      CrossSwapped(a, b);
    }
    ReversedShoelace(ref, p);
    ReversedEdgeSum(ref, p, CrossLon);
    ReversedEdgeSum(ref, p, CrossLat);
    if Shoelace(ref, p) != 0.0 {
      ScaledNegated(EdgeSum(ref, p, CrossLon), EdgeSum(ref, p, CrossLat), Shoelace(ref, p));
    }
  }

  lemma ScaledNegated(x: real, y: real, a: real)
    requires a != 0.0
    ensures Scaled(-x, -y, -a) == Scaled(x, y, a)
  {
    assert 3.0 * -a == -(3.0 * a);
    DivNegated(x, 3.0 * a);
    DivNegated(y, 3.0 * a);
  }

  lemma DivNegated(x: real, d: real)
    requires d != 0.0
    ensures -x / -d == x / d
  {
    var q := x / d;
    assert q * d == x;
    assert q * -d == -x;
  }

  /**
   * poly_area(): None if the way is not closed or a node does not exist; the area is in square
   * nautical miles, and the centre in the plane: the source divides it by the cosine of its latitude.
   */
  method PolyArea(ref: seq<int>, p: Plane) returns (r: Option<(real, Option<Place>)>)
    ensures r.None? <==> |ref| < 4 || ref[0] != ref[|ref| - 1] || !AllExist(ref, p)
    ensures r.Some? ==> r.value.0 == Shoelace(ref, p) * 1800.0 && r.value.1 == Centroid(ref, p)
  {
    hide Cross, Scaled;
    if !IsClosedPoly(ref) {
      return None;
    }
    if ref[0] !in p {
      return None;
    }
    var n1 := p[ref[0]];
    var ar, lon, lat := 0.0, 0.0, 0.0;
    assert ref[..1] == [ref[0]];
    for i := 0 to |ref| - 1
      invariant AllExist(ref[..i + 1], p) && n1 == p[ref[i]]
      invariant ar == Shoelace(ref[..i + 1], p)
      invariant lon == EdgeSum(ref[..i + 1], p, CrossLon) && lat == EdgeSum(ref[..i + 1], p, CrossLat)
    {
      var n0 := n1;
      if ref[i + 1] !in p {
        return None;
      }
      n1 := p[ref[i + 1]];
      EdgeSumAppend(ref[..i + 1], ref[i + 1], p, Cross);
      EdgeSumAppend(ref[..i + 1], ref[i + 1], p, CrossLon);
      EdgeSumAppend(ref[..i + 1], ref[i + 1], p, CrossLat);
      assert ref[..i + 2] == ref[..i + 1] + [ref[i + 1]];
      var f := Cross(n0, n1);
      lon := lon + (n0.0 + n1.0) * f;
      lat := lat + (n0.1 + n1.1) * f;
      ar := ar + f;
    }
    assert ref[..|ref|] == ref;
    return Some((ar * 1800.0, if ar == 0.0 then None else Some(Scaled(lon, lat, ar))));
  }

  // ----- reversing -----

  /** What reverse_way() makes of a way: the first and the last node keep their places. */
  function InnerReversed(s: seq<int>): (r: seq<int>)
    ensures |r| == |s|
  {
    if |s| < 2 then s else [s[0]] + Reversed(s[1..|s| - 1]) + [s[|s| - 1]]
  }

  lemma InnerAt(s: seq<int>, k: nat)
    requires k < |s|
    ensures InnerReversed(s)[k] == if 0 < k < |s| - 1 then s[|s| - 1 - k] else s[k]
  {
    hide Reversed;
    if |s| >= 2 {
      var inner := Reversed(s[1..|s| - 1]);
      var r := [s[0]] + inner + [s[|s| - 1]];
      assert InnerReversed(s) == r;
      assert 0 < k < |s| - 1 ==> r[k] == inner[k - 1];
    }
  }

  /** On a closed way this is the whole reversal; otherwise it is not. */
  lemma ReversedIffClosed(s: seq<int>)
    ensures InnerReversed(s) == Reversed(s) <==> |s| < 2 || s[0] == s[|s| - 1]
  {
    hide Reversed, InnerReversed;
    forall k | 0 <= k < |s| ensures InnerReversed(s)[k] == if 0 < k < |s| - 1 then s[|s| - 1 - k] else s[k] {
      InnerAt(s, k);
    }
    if |s| >= 2 {
      assert Reversed(s)[0] == s[|s| - 1] && InnerReversed(s)[0] == s[0];
    }
  }

  /** reverse_way(). */
  method ReverseWay(ref: array<int>)
    modifies ref
    ensures ref[..] == InnerReversed(old(ref[..]))
  {
    hide Reversed, InnerReversed;
    ghost var was := ref[..];
    var n := ref.Length;
    var i := 1;
    while i <= n / 2 - 1
      invariant 1 <= i <= n / 2 || i == 1
      invariant forall k :: 1 <= k < i && k < n ==> ref[k] == was[n - 1 - k]
      invariant forall k :: 0 <= n - i <= k < n - 1 ==> ref[k] == was[n - 1 - k]
      invariant forall k :: i <= k < n - i ==> ref[k] == was[k]
      invariant n > 0 ==> ref[0] == was[0] && ref[n - 1] == was[n - 1]
    {
      var r := ref[i];
      ref[i] := ref[n - i - 1];
      ref[n - i - 1] := r;
      i := i + 1;
    }
    forall k | 0 <= k < n ensures ref[k] == InnerReversed(was)[k] {
      InnerAt(was, k);
      assert i <= k < n - i && 0 < k < n - 1 ==> k == n - 1 - k;
    }
  }

  // ----- the direction of a way -----

  /** The way runs in direction dir, or its area is 0. */
  ghost predicate Runs(ref: seq<int>, p: Plane, dir: Dir)
    requires AllExist(ref, p)
  {
    if dir == Ccw then Shoelace(ref, p) >= 0.0 else Shoelace(ref, p) <= 0.0
  }

  /** A triangle with its corners in the order east, north of the first one runs counterclockwise only. */
  lemma TriangleRuns(a: int, b: int, c: int, p: Plane)
    requires a in p && b in p && c in p
    requires p[b].0 > p[a].0 && p[b].1 == p[a].1 && p[c].0 == p[a].0 && p[c].1 > p[a].1
    ensures AllExist([a, b, c, a], p) && Runs([a, b, c, a], p, Ccw) && !Runs([a, b, c, a], p, Cw)
  {
    hide Shoelace;
    TriangleSum(a, b, c, p);
    assert (p[b].0 - p[a].0) * (p[c].1 - p[a].1) > 0.0;
  }

  /** A way in the given direction: it is reversed if it has an area and runs the other way round. */
  ghost function Directed(ref: seq<int>, p: Plane, dir: Dir): seq<int> {
    if !IsClosedPoly(ref) || !AllExist(ref, p) || Runs(ref, p, dir) then ref else Reversed(ref)
  }

  /** A closed way runs in the direction that is asked for, and setting it again changes nothing. */
  lemma DirectedRuns(ref: seq<int>, p: Plane, dir: Dir)
    ensures var r := Directed(ref, p, dir);
      && Directed(r, p, dir) == r && multiset(r) == multiset(ref)
      && (IsClosedPoly(ref) && AllExist(ref, p) ==>
        IsClosedPoly(r) && AllExist(r, p) && Runs(r, p, dir) && Centroid(r, p) == Centroid(ref, p))
  {
    hide Shoelace, Reversed, Centroid;
    ReversedMultiset(ref);
    if IsClosedPoly(ref) && AllExist(ref, p) {
      ReversedShoelace(ref, p);
      ReversedCentroid(ref, p);
    }
  }

  lemma {:induction false} ReversedMultiset(s: seq<int>)
    ensures multiset(Reversed(s)) == multiset(s)
  {
    if s != [] {
      ReversedMultiset(s[1..]);
      assert Reversed(s) == Reversed(s[1..]) + [s[0]] && s == [s[0]] + s[1..];
    }
  }

  /** set_way_direction(): 0, or -1 if a node does not exist. Ways that are not closed are left alone. */
  method SetWayDirection(ref: array<int>, p: Plane, dir: Dir) returns (r: int)
    modifies ref
    ensures r == if IsClosedPoly(old(ref[..])) && !AllExist(old(ref[..]), p) then -1 else 0
    ensures ref[..] == Directed(old(ref[..]), p, dir)
  {
    hide Shoelace, Reversed, InnerReversed, Centroid;
    if !IsClosedPoly(ref[..]) {
      return 0;
    }
    var area := PolyArea(ref[..], p);
    if area == None {
      return -1;
    }
    var ar := area.value.0;
    if (ar < 0.0 && dir == Ccw) || (ar > 0.0 && dir == Cw) {
      ReversedIffClosed(ref[..]);
      ReverseWay(ref);
    }
    return 0;
  }
}
