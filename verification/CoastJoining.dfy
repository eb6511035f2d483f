/**
 * What the joining of ways as a whole achieves: the first half of
 * cat_poly_fini() in src/smcoast.c.
 */
module CoastJoining {
  import opened Common
  import Sorting
  import opened CoastLink
  import opened CoastChains

  // ----- in clean data every way belongs to a new way -----

  lemma ExactIsOk(ws: seq<Poly>)
    requires Ways(ws) && LinksExact(ws)
    ensures LinkOk(ws)
  {
    forall i | 0 <= i < |ws| && ws[i].next != NULL ensures ws[ws[i].next].prev != NULL {
      assert Last(ws[i]) == First(ws[ws[i].next]);
    }
  }

  /** With exact links prev undoes next, so that no walk is broken off. */
  lemma ExactInverse(ws: seq<Poly>, a: nat, b: nat)
    requires Ways(ws) && LinksExact(ws) && a < |ws| && b < |ws|
    ensures ws[b].next == a <==> ws[a].prev == b
  {
  }

  /** A walk that ends without successor is what Follow() finds from any of its beginnings. */
  lemma {:induction false} WalkIsFollowed(ws: seq<Poly>, p: seq<nat>, k: nat)
    requires LinkOk(ws) && IsWalk(ws, p) && Distinct(p) && ws[p[|p| - 1]].next == NULL
    requires 1 <= k <= |p|
    ensures IsWalk(ws, p[..k]) && Distinct(p[..k]) && Follow(ws, p[..k]) == Open(p)
    decreases |p| - k
  {
    WalkPrefix(ws, p, k);
    if k == |p| {
      assert p[..k] == p;
    } else {
      WalkIsFollowed(ws, p, k + 1);
      assert Step(ws, p[k - 1], p[k]);
      var q' := Extend(ws, p[..k], p[k]);
      assert q' == p[..k + 1];
    }
  }

  lemma WalkPrefix(ws: seq<Poly>, p: seq<nat>, k: nat)
    requires IsWalk(ws, p) && Distinct(p) && 1 <= k <= |p|
    ensures IsWalk(ws, p[..k]) && Distinct(p[..k])
  {
    var q := p[..k];
    forall m | 0 < m < |q| ensures Step(ws, q[m - 1], q[m]) && q[m] != q[0] {
      assert Step(ws, p[m - 1], p[m]);
    }
  }

  /** Going back along prev pointers from an open walk leads to the beginning of a new way. */
  lemma {:induction false} BackToLead(ws: seq<Poly>, p: seq<nat>, j: nat) returns (i: nat)
    requires Ways(ws) && LinksExact(ws) && LinkOk(ws)
    requires IsWalk(ws, p) && Distinct(p) && ws[p[|p| - 1]].next == NULL && j in p
    ensures Joins(ws, i, j) && From(ws, i).Open?
    decreases |ws| - |p|
  {
    var b := ws[p[0]].prev;
    Pigeonhole(p, |ws|);
    if b == NULL {
      WalkIsFollowed(ws, p, 1);
      assert p[..1] == [p[0]];
      return p[0];
    }
    ExactInverse(ws, p[0], b);
    var q: seq<nat> := [b] + p;
    forall k: nat | k < |p| ensures p[k] != b {
      if k + 1 < |p| {
        assert Step(ws, p[k], p[k + 1]);
      }
    }
    forall k | 0 < k < |q| ensures Step(ws, q[k - 1], q[k]) && q[k] != q[0] {
      if k > 1 {
        assert Step(ws, p[k - 2], p[k - 1]);
      }
    }
    Pigeonhole(q, |ws|);
    assert q[|q| - 1] == p[|p| - 1];
    i := BackToLead(ws, q, j);
  }

  lemma {:induction false} ExactNeverBroken(ws: seq<Poly>, p: seq<nat>)
    requires Ways(ws) && LinksExact(ws) && LinkOk(ws) && IsWalk(ws, p) && Distinct(p)
    ensures Accepted(Follow(ws, p))
    decreases |ws| - |p|
  {
    var next := ws[p[|p| - 1]].next;
    if next != NULL && next != p[0] {
      ExactInverse(ws, next, p[|p| - 1]);
      var q := Extend(ws, p, next);
      ExactNeverBroken(ws, q);
    }
  }

  lemma EveryWayJoined(ws: seq<Poly>, j: nat) returns (i: nat)
    requires Ways(ws) && LinksExact(ws) && LinkOk(ws) && j < |ws|
    ensures Joins(ws, i, j)
  {
    ExactNeverBroken(ws, [j]);
    if From(ws, j).Loop? {
      i := LoopHasLead(ws, j);
    } else {
      i := BackToLead(ws, From(ws, j).path, j);
    }
  }

  // ----- the new ways have exactly the edges of the old ones -----

  /** The edges of the ways at the given positions. */
  ghost function EdgesOf(ws: seq<Poly>, p: seq<nat>): multiset<(int, int)>
    requires forall k :: 0 <= k < |p| ==> p[k] < |ws|
  {
    if p == [] then multiset{} else EdgesOf(ws, p[..|p| - 1]) + Edges(ws[p[|p| - 1]].w)
  }

  /** The ways of a path meet. */
  ghost predicate Meets(ws: seq<Poly>, p: seq<nat>)
    requires Ways(ws) && forall k :: 0 <= k < |p| ==> p[k] < |ws|
  {
    forall k :: 0 < k < |p| ==> Last(ws[p[k - 1]]) == First(ws[p[k]])
  }

  /** Where ways meet, overwriting the last node of one with the first of the next loses nothing. */
  lemma {:induction false} JoinedEdges(ws: seq<Poly>, p: seq<nat>)
    requires Ways(ws) && p != [] && (forall k :: 0 <= k < |p| ==> p[k] < |ws|) && Meets(ws, p)
    ensures var r := Joined(ws, p);
      && Edges(r) == EdgesOf(ws, p)
      && |r| >= 2 && r[0] == First(ws[p[0]]) && r[|r| - 1] == Last(ws[p[|p| - 1]])
  {
    hide Edges, EdgesOf, Joined;
    var n := |p| - 1;
    var w := ws[p[n]].w;
    EdgesOfLast(ws, p);
    if n == 0 {
      JoinedOne(ws, p);
    } else {
      var q := p[..n];
      JoinedEdges(ws, q);
      var r := Joined(ws, q);
      assert Last(ws[p[n - 1]]) == First(ws[p[n]]);
      JoinedMore(ws, p);
      JoinMeeting(r, w);
      EdgesConcat(r, w);
    }
  }

  lemma EdgesOfLast(ws: seq<Poly>, p: seq<nat>)
    requires p != [] && forall k :: 0 <= k < |p| ==> p[k] < |ws|
    ensures EdgesOf(ws, p) == EdgesOf(ws, p[..|p| - 1]) + Edges(ws[p[|p| - 1]].w)
    ensures |p| == 1 ==> EdgesOf(ws, p) == Edges(ws[p[0]].w)
  {
    assert |p| == 1 ==> p[..0] == [] && EdgesOf(ws, []) == multiset{};
  }

  lemma JoinedOne(ws: seq<Poly>, p: seq<nat>)
    requires Ways(ws) && |p| == 1 && p[0] < |ws|
    ensures Joined(ws, p) == ws[p[0]].w
  {
    assert p[..0] == [];
  }

  lemma JoinedMore(ws: seq<Poly>, p: seq<nat>)
    requires Ways(ws) && |p| > 1 && (forall k :: 0 <= k < |p| ==> p[k] < |ws|)
    ensures var r := Joined(ws, p[..|p| - 1]);
      |r| > 0 && Joined(ws, p) == r[..|r| - 1] + ws[p[|p| - 1]].w
  {
    var q := p[..|p| - 1];
    forall k | 0 <= k < |q| ensures q[k] < |ws| && (k < |q| - 1 ==> q[..|q| - 1][k] < |ws|) {
      assert q[k] == p[k] && (k < |q| - 1 ==> q[..|q| - 1][k] == p[k]);
    }
    var u := ws[q[|q| - 1]].w;
    assert Joined(ws, q) == Body(ws, q[..|q| - 1]) + u;
    assert Body(ws, q) == Body(ws, q[..|q| - 1]) + u[..|u| - 1];
  }

  lemma JoinMeeting(r: seq<int>, w: seq<int>)
    requires r != [] && w != [] && r[|r| - 1] == w[0]
    ensures r[..|r| - 1] + w == r + w[1..]
  {
  }

  lemma {:induction false} EdgesOfConcat(ws: seq<Poly>, p: seq<nat>, q: seq<nat>)
    requires forall k :: 0 <= k < |p| ==> p[k] < |ws|
    requires forall k :: 0 <= k < |q| ==> q[k] < |ws|
    ensures forall k :: 0 <= k < |p + q| ==> (p + q)[k] < |ws|
    ensures EdgesOf(ws, p + q) == EdgesOf(ws, p) + EdgesOf(ws, q)
  {
    hide Edges;
    forall k | 0 <= k < |p + q| ensures (p + q)[k] < |ws| {
      assert (p + q)[k] == if k < |p| then p[k] else q[k - |p|];
    }
    if q == [] {
      assert p + q == p;
    } else {
      EdgesOfConcat(ws, p, q[..|q| - 1]);
      assert (p + q)[..|p + q| - 1] == p + q[..|q| - 1];
    }
  }

  /** Only which ways count, not their order. */
  lemma {:induction false} EdgesOfPermuted(ws: seq<Poly>, p: seq<nat>, q: seq<nat>)
    requires forall k :: 0 <= k < |p| ==> p[k] < |ws|
    requires forall k :: 0 <= k < |q| ==> q[k] < |ws|
    requires multiset(p) == multiset(q)
    ensures EdgesOf(ws, p) == EdgesOf(ws, q)
    decreases |p|
  {
    PermSize(p, q);
    if p != [] {
      var k := PermRemove(p, q);
      EdgesOfPermuted(ws, p[..|p| - 1], q[..k] + q[k + 1..]);
      EdgesOfRemove(ws, q, k);
    }
  }

  lemma EdgesOfRemove(ws: seq<Poly>, q: seq<nat>, k: nat)
    requires (forall k :: 0 <= k < |q| ==> q[k] < |ws|) && k < |q|
    ensures EdgesOf(ws, q) == EdgesOf(ws, q[..k] + q[k + 1..]) + Edges(ws[q[k]].w)
  {
    hide Edges, EdgesOf;
    EdgesOfConcat(ws, q[..k], q[k + 1..]);
    EdgesOfConcat(ws, q[..k + 1], q[k + 1..]);
    EdgesOfLast(ws, q[..k + 1]);
    assert q[..k + 1] + q[k + 1..] == q && q[..k + 1][..k] == q[..k];
    SwapLast(EdgesOf(ws, q[..k]), Edges(ws[q[k]].w), EdgesOf(ws, q[k + 1..]));
  }

  lemma SwapLast<T>(a: multiset<T>, b: multiset<T>, c: multiset<T>)
    ensures a + b + c == a + c + b
  {
  }

  /** The ways that are joined into the new ways starting before position k, new way by new way. */
  ghost function JoinedWays(ws: seq<Poly>, k: nat): (r: seq<nat>)
    requires InRange(ws) && k <= |ws|
    ensures forall m :: 0 <= m < |r| ==> r[m] < |ws|
  {
    if k == 0 then []
    else JoinedWays(ws, k - 1) + OwnWays(ws, k - 1)
  }

  lemma JoinedBeforeStep(ws: seq<Poly>, k: nat, j: nat)
    requires InRange(ws) && k < |ws|
    ensures JoinedBefore(ws, k + 1, j) <==> JoinedBefore(ws, k, j) || Joins(ws, k, j)
  {
    if JoinedBefore(ws, k, j) {
      var i :| 0 <= i < k && Joins(ws, i, j);
      assert i < k + 1;
    }
  }

  lemma {:induction false} JoinedWaysMembers(ws: seq<Poly>, k: nat)
    requires LinkOk(ws) && k <= |ws|
    ensures Distinct(JoinedWays(ws, k))
    ensures forall j: nat :: j in JoinedWays(ws, k) <==> JoinedBefore(ws, k, j)
  {
    hide Leads, From, Follow, Joins, IsWalk, IsChain;
    if k > 0 {
      JoinedWaysMembers(ws, k - 1);
      var r, q := JoinedWays(ws, k - 1), OwnWays(ws, k - 1);
      forall j: nat ensures j in r + q <==> JoinedBefore(ws, k, j) {
        JoinedBeforeStep(ws, k - 1, j);
      }
      forall j: nat | j in r ensures j !in q {
        NotJoinedAgain(ws, k - 1, j);
      }
      DistinctConcat(r, q);
    }
  }

  /** The ways of the new way that starts at way k, if one does. */
  ghost function OwnWays(ws: seq<Poly>, k: nat): (q: seq<nat>)
    requires InRange(ws) && k < |ws|
    ensures Distinct(q) && forall j: nat :: j in q <==> Joins(ws, k, j)
    ensures forall m :: 0 <= m < |q| ==> q[m] < |ws|
  {
    if Leads(ws, k) then Path(ws, k) else []
  }

  lemma NotJoinedAgain(ws: seq<Poly>, k: nat, j: nat)
    requires LinkOk(ws) && k < |ws| && JoinedBefore(ws, k, j)
    ensures !Joins(ws, k, j)
  {
    var i :| 0 <= i < k && Joins(ws, i, j);
    if Joins(ws, k, j) {
      JoinedOnce(ws, i, k, j);
    }
  }

  lemma AllJoined(ws: seq<Poly>, j: nat)
    requires Ways(ws) && LinksExact(ws) && LinkOk(ws) && j < |ws|
    ensures JoinedBefore(ws, |ws|, j)
  {
    var i := EveryWayJoined(ws, j);
  }

  /** In clean data the ways of the new ways are all ways, each once. */
  lemma JoinedWaysComplete(ws: seq<Poly>)
    requires Ways(ws) && LinksExact(ws) && LinkOk(ws)
    ensures multiset(JoinedWays(ws, |ws|)) == multiset(Iota(|ws|))
  {
    var r := JoinedWays(ws, |ws|);
    JoinedWaysMembers(ws, |ws|);
    forall j: nat | j < |ws| ensures j in r {
      AllJoined(ws, j);
    }
    forall j ensures j in r <==> j in Iota(|ws|) {
      assert 0 <= j < |ws| ==> Iota(|ws|)[j] == j;
    }
    DistinctSameElements(r, Iota(|ws|));
  }

  /** The edges of the first k ways as they were collected. */
  ghost function OldEdges(ws: seq<Poly>, k: nat): multiset<(int, int)>
    requires k <= |ws|
  {
    if k == 0 then multiset{} else OldEdges(ws, k - 1) + Edges(ws[k - 1].w)
  }

  /** The edges of the new ways that belong to the first k entries of the list. */
  ghost function NewEdges(ws: seq<Poly>, k: nat): multiset<(int, int)>
    requires k <= |ws|
  {
    if k == 0 then multiset{}
    else NewEdges(ws, k - 1) + match ws[k - 1].nw case None => multiset{} case Some(w) => Edges(w)
  }

  lemma {:induction false} OldEdgesOf(ws: seq<Poly>, k: nat)
    requires k <= |ws|
    ensures forall i :: 0 <= i < k ==> Iota(k)[i] < |ws|
    ensures OldEdges(ws, k) == EdgesOf(ws, Iota(k))
  {
    if k > 0 {
      OldEdgesOf(ws, k - 1);
      assert Iota(k)[..k - 1] == Iota(k - 1);
    }
  }

  /** The ways of a new way meet when the links are exact. */
  lemma PathMeets(ws: seq<Poly>, i: nat)
    requires Ways(ws) && LinksExact(ws) && LinkOk(ws) && i < |ws| && Leads(ws, i)
    ensures Meets(ws, Path(ws, i))
  {
    var p := Path(ws, i);
    forall k | 0 < k < |p| ensures Last(ws[p[k - 1]]) == First(ws[p[k]]) {
      assert Step(ws, p[k - 1], p[k]);
    }
  }

  lemma {:induction false} NewEdgesOf(ws: seq<Poly>, rs: seq<Poly>, k: nat)
    requires Ways(ws) && LinksExact(ws) && LinkOk(ws) && Detected(ws, rs, |ws|) && k <= |ws|
    ensures NewEdges(rs, k) == EdgesOf(ws, JoinedWays(ws, k))
  {
    hide Edges, EdgesOf, OwnWays, LinksExact, DetectedWay;
    if k == 0 {
      NoEdges(ws);
    } else {
      NewEdgesOf(ws, rs, k - 1);
      EdgesOfConcat(ws, JoinedWays(ws, k - 1), OwnWays(ws, k - 1));
      OneNewWay(ws, rs, k - 1);
    }
  }

  lemma NoEdges(ws: seq<Poly>)
    ensures EdgesOf(ws, []) == multiset{}
  {
  }

  /** The edges of the new way that starts at way k, if one does, are those of the ways it is joined from. */
  lemma OneNewWay(ws: seq<Poly>, rs: seq<Poly>, k: nat)
    requires Ways(ws) && LinksExact(ws) && LinkOk(ws) && Detected(ws, rs, |ws|) && k < |ws|
    ensures EdgesOf(ws, OwnWays(ws, k)) == match rs[k].nw case None => multiset{} case Some(w) => Edges(w)
  {
    hide Edges, EdgesOf, LinksExact, InRange, Joined, From, Path, Leads, JoinedBefore, Meets;
    assert rs[k] == DetectedWay(ws, |ws|, k);
    if Leads(ws, k) {
      PathMeets(ws, k);
      JoinedEdges(ws, Path(ws, k));
    } else {
      NoEdges(ws);
    }
  }

  lemma {:induction false} SameOldEdges(ws: seq<Poly>, rs: seq<Poly>, k: nat)
    requires SameWays(ws, rs) && k <= |ws|
    ensures OldEdges(ws, k) == OldEdges(rs, k)
  {
    if k > 0 {
      SameOldEdges(ws, rs, k - 1);
    }
  }

  /** Joining clean data conserves every directed edge, with its multiplicity. */
  lemma EdgesConserved(ws: seq<Poly>, rs: seq<Poly>)
    requires Ways(ws) && LinksExact(ws) && Detected(ws, rs, |ws|)
    ensures NewEdges(rs, |rs|) == OldEdges(rs, |rs|)
  {
    ExactIsOk(ws);
    NewEdgesOf(ws, rs, |ws|);
    JoinedWaysComplete(ws);
    EdgesOfPermuted(ws, JoinedWays(ws, |ws|), Iota(|ws|));
    OldEdgesOf(ws, |ws|);
    assert SameWays(ws, rs);
    SameOldEdges(ws, rs, |ws|);
  }

  /** A new way is marked open iff it is not closed, and an open one cannot be extended at either end. */
  ghost predicate OpenWaysMaximal(rs: seq<Poly>)
    requires Ways(rs)
  {
    forall i :: 0 <= i < |rs| && rs[i].nw.Some? ==> MaximalWay(rs, rs[i].nw.value, rs[i].open)
  }

  ghost predicate MaximalWay(rs: seq<Poly>, w: seq<int>, open: bool)
    requires Ways(rs)
  {
    && |w| >= 2
    && (open <==> w[0] != w[|w| - 1])
    && (open ==> forall j :: 0 <= j < |rs| ==> Last(rs[j]) != w[0] && First(rs[j]) != w[|w| - 1])
  }

  lemma NewWayEnds(ws: seq<Poly>, i: nat)
    requires Ways(ws) && LinksExact(ws) && LinkOk(ws) && i < |ws| && Leads(ws, i)
    ensures MaximalWay(ws, Joined(ws, Path(ws, i)), From(ws, i).Open?)
  {
    hide Edges, EdgesOf, Joined;
    var p := Path(ws, i);
    PathMeets(ws, i);
    JoinedEdges(ws, p);
    var last := p[|p| - 1];
    forall j | 0 <= j < |ws| && From(ws, i).Open?
      ensures Last(ws[j]) != First(ws[i]) && First(ws[j]) != Last(ws[last]) {
      ExactInverse(ws, i, j);
      ExactInverse(ws, j, last);
    }
  }

  lemma OpenMaximal(ws: seq<Poly>, rs: seq<Poly>)
    requires Ways(ws) && LinksExact(ws) && LinkOk(ws) && Detected(ws, rs, |ws|)
    ensures Ways(rs) && OpenWaysMaximal(rs)
  {
    assert Ways(rs) by {
      assert SameWays(ws, rs);
    }
    forall i | 0 <= i < |rs| && rs[i].nw.Some? ensures MaximalWay(rs, rs[i].nw.value, rs[i].open) {
      OneMaximal(ws, rs, i);
    }
  }

  lemma OneMaximal(ws: seq<Poly>, rs: seq<Poly>, i: nat)
    requires Ways(ws) && Ways(rs) && LinksExact(ws) && LinkOk(ws) && Detected(ws, rs, |ws|) && i < |ws| &&
      rs[i].nw.Some?
    ensures MaximalWay(rs, rs[i].nw.value, rs[i].open)
  {
    hide LinksExact, InRange, From, Joined, Path, Leads, JoinedBefore;
    assert rs[i] == DetectedWay(ws, |ws|, i);
    NewWayEnds(ws, i);
    forall j | 0 <= j < |rs| ensures Last(rs[j]) == Last(ws[j]) && First(rs[j]) == First(ws[j]) {
      assert rs[j].w == ws[j].w;
    }
  }

  /** Every way of the list has become part of exactly one new way. */
  ghost predicate Partitioned(ws: seq<Poly>)
    requires InRange(ws)
  {
    forall j: nat :: j < |ws| ==> JoinedExactlyOnce(ws, j)
  }

  ghost predicate JoinedExactlyOnce(ws: seq<Poly>, j: nat)
    requires InRange(ws)
  {
    exists i: nat :: Joins(ws, i, j) && forall i': nat :: Joins(ws, i', j) ==> i' == i
  }

  lemma CleanPartition(ws: seq<Poly>)
    requires Ways(ws) && LinksExact(ws) && LinkOk(ws)
    ensures Partitioned(ws)
  {
    forall j: nat | j < |ws| ensures JoinedExactlyOnce(ws, j) {
      var i := EveryWayJoined(ws, j);
      forall i': nat | Joins(ws, i', j) ensures i' == i {
        JoinedOnce(ws, i, i', j);
      }
    }
  }

  // ----- everything together -----

  /**
   * Joins the collected ways.  The ghost result is the list after linking, before the new
   * ways are created; Joins() tells which ways each new way consists of.
   */
  method JoinWays(wl: array<Poly>) returns (ocnt: nat, ghost ws: seq<Poly>)
    requires Gathered(wl[..])
    modifies wl
    ensures SameWays(old(wl[..]), wl[..]) && SameWays(ws, wl[..]) && Ways(wl[..])
    ensures LinkOk(ws) && Detected(ws, wl[..], |ws|) && ocnt == OpenCount(ws, |ws|)
    ensures forall i, i', j :: Joins(ws, i, j) && Joins(ws, i', j) ==> i == i'
    ensures Clean(old(wl[..])) ==> Partitioned(ws)
    ensures Clean(old(wl[..])) ==> NewEdges(wl[..], wl.Length) == OldEdges(wl[..], wl.Length)
    ensures Clean(old(wl[..])) ==> OpenWaysMaximal(wl[..])
  {
    hide *;
    ghost var gathered := wl[..];
    Prepare(gathered);
    var pd := PolyGetNodeIds(wl);
    ghost var raw := pd[..];
    Sorting.QSort(pd, 0, pd.Length, NidLe);
    ghost var sorted := pd[..];
    assert sorted == pd[0..pd.Length] && raw == raw[0..|raw|] && wl[..] == gathered;
    SortedFacts(gathered, raw, sorted);
    var n := PolyFindAdj2(wl, pd);
    ws := wl[..];
    LinkedFacts(gathered, sorted, ws);
    ocnt := LoopDetect(wl);
    JoinedFacts(gathered, ws, wl[..]);
  }

  lemma Prepare(ws: seq<Poly>)
    requires Gathered(ws)
    ensures Ways(ws) && Sorting.TotalPreorder(NidLe)
  {
  }

  lemma SortedFacts(ws: seq<Poly>, raw: seq<Pdef>, pd: seq<Pdef>)
    requires Ways(ws) && IsEndpoints(ws, raw)
    requires Sorting.SortedBy(NidLe, pd) && multiset(pd) == multiset(raw)
    ensures SortedEndpoints(ws, pd) && |pd| == 2 * |ws|
    ensures forall i :: 0 <= i < |pd| ==> pd[i].wi < |ws|
  {
    SortedEndpointFacts(ws, pd);
  }

  lemma LinkedFacts(gathered: seq<Poly>, pd: seq<Pdef>, ws: seq<Poly>)
    requires Gathered(gathered) && Ways(gathered) && SortedEndpoints(gathered, pd)
    requires forall i :: 0 <= i < |pd| ==> pd[i].wi < |gathered|
    requires ws == Linked(gathered, pd, LastPair(pd))
    ensures SameWays(gathered, ws) && Ways(ws) && LinkOk(ws)
    ensures forall i :: 0 <= i < |ws| ==> !ws[i].del && !ws[i].open && ws[i].nw == None
    ensures Clean(gathered) ==> LinksExact(ws)
  {
    LinkedIsOk(gathered, pd, LastPair(pd));
    if Clean(gathered) {
      CleanLinked(gathered, pd);
    }
  }

  lemma WaysAfterAll(gathered: seq<Poly>, ws: seq<Poly>, rs: seq<Poly>)
    requires Ways(gathered) && SameWays(gathered, ws) && Ways(ws) && InRange(ws) && Detected(ws, rs, |ws|)
    ensures SameWays(gathered, rs) && SameWays(ws, rs) && Ways(rs)
  {
  }

  lemma JoinedFacts(gathered: seq<Poly>, ws: seq<Poly>, rs: seq<Poly>)
    requires Ways(gathered) && SameWays(gathered, ws) && Ways(ws) && LinkOk(ws) && InRange(ws) && Detected(ws, rs, |ws|)
    requires Clean(gathered) ==> LinksExact(ws)
    ensures SameWays(gathered, rs) && SameWays(ws, rs) && Ways(rs)
    ensures forall i, i', j :: Joins(ws, i, j) && Joins(ws, i', j) ==> i == i'
    ensures Clean(gathered) ==> Partitioned(ws)
    ensures Clean(gathered) ==> NewEdges(rs, |rs|) == OldEdges(rs, |rs|)
    ensures Clean(gathered) ==> OpenWaysMaximal(rs)
  {
    hide *;
    WaysAfterAll(gathered, ws, rs);
    forall i, i', j | Joins(ws, i, j) && Joins(ws, i', j) ensures i == i' {
      JoinedOnce(ws, i, i', j);
    }
    if Clean(gathered) {
      CleanPartition(ws);
      EdgesConserved(ws, rs);
      OpenMaximal(ws, rs);
    }
  }
}
