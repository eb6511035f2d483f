/**
 * Following the links from way to way: count_poly_refs(), join_open_poly() and
 * loop_detect() in src/smcoast.c.
 */
module CoastChains {
  import opened Common
  import opened CoastLink

  // ----- chains of linked ways -----

  /**
   * A walk along next pointers that count_poly_refs() accepts so far: each
   * step is confirmed by the prev pointer of the way it leads to (an absent
   * prev pointer is not checked), and no step leads back to the beginning.
   */
  ghost predicate IsWalk(ws: seq<Poly>, p: seq<nat>) {
    && p != []
    && (forall k :: 0 <= k < |p| ==> p[k] < |ws|)
    && forall k :: 0 < k < |p| ==> Step(ws, p[k - 1], p[k]) && p[k] != p[0]
  }

  ghost predicate Step(ws: seq<Poly>, a: nat, b: nat) {
    a < |ws| && b < |ws| && ws[a].next == b && (ws[b].prev == NULL || ws[b].prev == a)
  }

  /** How a walk along the links ends. */
  datatype Walk =
    | Open(path: seq<nat>)   // at a way without successor
    | Loop(path: seq<nat>)   // back at the first way
    | Broken                 // at a way whose prev pointer tells of another predecessor
    | Endless                // never: it runs into a way inside the walk

  ghost function Follow(ws: seq<Poly>, p: seq<nat>): (r: Walk)
    requires InRange(ws) && IsWalk(ws, p) && Distinct(p)
    ensures r.Open? || r.Loop? ==> IsWalk(ws, r.path) && Distinct(r.path) && p <= r.path
    ensures r.Open? ==> ws[r.path[|r.path| - 1]].next == NULL
    ensures r.Loop? ==> ws[r.path[|r.path| - 1]].next == r.path[0]
    decreases |ws| - |p|
  {
    Pigeonhole(p, |ws|);
    var last := p[|p| - 1];
    var next := ws[last].next;
    if next == NULL then Open(p)
    else if next == p[0] then Loop(p)
    else if ws[next].prev != NULL && ws[next].prev != last then Broken
    else if next in p then Endless
    else
      var q := p + [next];
      Pigeonhole(q, |ws|);
      assert forall k :: 0 < k < |q| ==> Step(ws, q[k - 1], q[k]) && q[k] != q[0];
      Follow(ws, q)
  }

  ghost function From(ws: seq<Poly>, i: nat): Walk
    requires InRange(ws) && i < |ws|
  {
    Follow(ws, [i])
  }

  /** On links that poly_find_adj2() can produce, the prev check alone keeps a walk from turning in circles. */
  lemma {:induction false} WalksAreDistinct(ws: seq<Poly>, p: seq<nat>)
    requires LinkOk(ws) && IsWalk(ws, p)
    ensures Distinct(p)
  {
    forall i: nat, j: nat | i < j < |p| ensures p[i] != p[j] {
      WalkRepeatsNothing(ws, p, i, j);
    }
  }

  lemma {:induction false} WalkRepeatsNothing(ws: seq<Poly>, p: seq<nat>, i: nat, j: nat)
    requires LinkOk(ws) && IsWalk(ws, p) && i < j < |p|
    ensures p[i] != p[j]
    decreases i
  {
    assert Step(ws, p[j - 1], p[j]);
    if i > 0 {
      assert Step(ws, p[i - 1], p[i]);
      WalkRepeatsNothing(ws, p, i - 1, j - 1);
    }
  }

  /** One step of the walk: the successor is new, and the longer walk ends in the same way. */
  lemma Extend(ws: seq<Poly>, p: seq<nat>, next: nat) returns (q: seq<nat>)
    requires LinkOk(ws) && IsWalk(ws, p) && Distinct(p)
    requires Step(ws, p[|p| - 1], next) && next != p[0]
    ensures q == p + [next] && |p| < |ws|
    ensures IsWalk(ws, q) && Distinct(q) && q[0] == p[0] && q[..|p|] == p
    ensures Follow(ws, p) == Follow(ws, q)
  {
    q := p + [next];
    forall k | 0 < k < |q| ensures Step(ws, q[k - 1], q[k]) && q[k] != q[0] {
      assert k < |p| ==> Step(ws, p[k - 1], p[k]);
    }
    WalksAreDistinct(ws, q);
    Pigeonhole(q, |ws|);
    assert forall k :: 0 <= k < |p| ==> q[k] == p[k] && q[k] != q[|p|];
  }

  /** count_poly_refs() terminates on all links that poly_find_adj2() can produce. */
  lemma {:induction false} NeverEndless(ws: seq<Poly>, p: seq<nat>)
    requires LinkOk(ws) && IsWalk(ws, p) && Distinct(p)
    ensures !Follow(ws, p).Endless?
    decreases |ws| - |p|
  {
    var last := p[|p| - 1];
    var next := ws[last].next;
    if next != NULL && next != p[0] && (ws[next].prev == NULL || ws[next].prev == last) {
      var q := Extend(ws, p, next);
      NeverEndless(ws, q);
    }
  }

  /** The total number of nodes along a path, shared nodes counted once. */
  function NodeCount(ws: seq<Poly>, p: seq<nat>): int
    requires forall k :: 0 <= k < |p| ==> p[k] < |ws|
  {
    if p == [] then 1 else NodeCount(ws, p[..|p| - 1]) + |ws[p[|p| - 1]].w| - 1
  }

  /** The return value of count_poly_refs() for a chain. */
  ghost function Code(f: Walk): int {
    match f
    case Open(_) => 0
    case Loop(_) => 1
    case _ => -1
  }

  ghost predicate Accepted(f: Walk) {
    f.Open? || f.Loop?
  }

  /** Tells open, circular and broken chains apart; for the first two cnt is the number of nodes. */
  method CountPolyRefs(wl: array<Poly>, pl: nat, ghost ws: seq<Poly>) returns (r: int, cnt: int)
    requires ws == wl[..] && LinkOk(ws) && pl < |ws|
    ensures !From(ws, pl).Endless? && r == Code(From(ws, pl))
    ensures r != -1 ==> IsWalk(ws, From(ws, pl).path) && cnt == NodeCount(ws, From(ws, pl).path)
  {
    var list: int := pl;
    cnt := 0;
    ghost var p: seq<nat> := [pl];
    NeverEndless(ws, p);
    while list != NULL
      invariant IsWalk(ws, p) && Distinct(p) && p[0] == pl
      invariant From(ws, pl) == Follow(ws, p)
      invariant list != NULL ==> p[|p| - 1] == list && cnt + 1 == NodeCount(ws, p[..|p| - 1])
      invariant list == NULL ==> ws[p[|p| - 1]].next == NULL && cnt + 1 == NodeCount(ws, p)
      decreases if list == NULL then 0 else |ws| - |p| + 1
    {
      Pigeonhole(p, |ws|);
      cnt := cnt + |wl[list].w| - 1;
      var next := wl[list].next;
      if next == pl {
        break;
      }
      if next != NULL && wl[next].prev != NULL && list != wl[next].prev {
        return -1, cnt;
      }
      if next != NULL {
        p := Extend(ws, p, next);
      }
      list := next;
    }
    cnt := cnt + 1;
    r := if list != NULL then 1 else 0;
  }

  // ----- joining the ways of a chain -----

  /** The nodes of all ways along a path, each without its last node. */
  function Body(ws: seq<Poly>, p: seq<nat>): (r: seq<int>)
    requires Ways(ws) && forall k :: 0 <= k < |p| ==> p[k] < |ws|
    ensures |r| + 1 == NodeCount(ws, p)
  {
    if p == [] then []
    else
      var w := ws[p[|p| - 1]].w;
      Body(ws, p[..|p| - 1]) + w[..|w| - 1]
  }

  /** The new way: at each joint the last node of one way gives place to the first node of the next. */
  function Joined(ws: seq<Poly>, p: seq<nat>): (r: seq<int>)
    requires Ways(ws) && p != [] && forall k :: 0 <= k < |p| ==> p[k] < |ws|
    ensures |r| == NodeCount(ws, p)
  {
    Body(ws, p[..|p| - 1]) + ws[p[|p| - 1]].w
  }

  lemma {:induction false} NodeCountGrows(ws: seq<Poly>, p: seq<nat>, k: nat)
    requires Ways(ws) && k <= |p| && forall i :: 0 <= i < |p| ==> p[i] < |ws|
    ensures NodeCount(ws, p[..k]) <= NodeCount(ws, p)
    decreases |p|
  {
    if k < |p| {
      NodeCountGrows(ws, p[..|p| - 1], k);
      assert p[..|p| - 1][..k] == p[..k];
    } else {
      assert p[..k] == p;
    }
  }

  /** The ways rs are the ways ws, except that those on the path are marked as deleted. */
  ghost predicate Marked(ws: seq<Poly>, rs: seq<Poly>, p: seq<nat>) {
    |rs| == |ws| && forall i :: 0 <= i < |ws| ==> rs[i] == ws[i].(del := ws[i].del || i in p)
  }

  /** After k ways were joined: where the next one starts, and what the buffer holds. */
  ghost predicate Joining(ws: seq<Poly>, p: seq<nat>, k: nat, pos: nat, w: seq<int>)
    requires Ways(ws) && p != [] && forall i :: 0 <= i < |p| ==> p[i] < |ws|
  {
    && k <= |p| && |w| == NodeCount(ws, p)
    && (k < |p| ==> pos + |ws[p[k]].w| <= |w| && w[..pos] == Body(ws, p[..k]))
    && (k == |p| ==> w == Joined(ws, p))
  }

  lemma JoinStep(ws: seq<Poly>, p: seq<nat>, k: nat, pos: nat, w: seq<int>)
    requires Ways(ws) && p != [] && forall i :: 0 <= i < |p| ==> p[i] < |ws|
    requires Joining(ws, p, k, pos, w) && k < |p|
    ensures var src := ws[p[k]].w;
      Joining(ws, p, k + 1, pos + |src| - 1, w[..pos] + src + w[pos + |src|..])
  {
    PathStep(ws, p, k);
    var src := ws[p[k]].w;
    var w' := w[..pos] + src + w[pos + |src|..];
    assert w'[..pos + |src| - 1] == w[..pos] + src[..|src| - 1];
    if k + 1 < |p| {
      PathStep(ws, p, k + 1);
    } else {
      assert p[..k + 1] == p;
    }
  }

  /** A path from way i on that ends without a successor or back at way i. */
  ghost predicate IsChain(ws: seq<Poly>, i: nat, p: seq<nat>) {
    IsWalk(ws, p) && p[0] == i && (ws[p[|p| - 1]].next == NULL || ws[p[|p| - 1]].next == i)
  }

  /** Where the link of way number k of a chain leads. */
  lemma ChainNext(ws: seq<Poly>, i: nat, p: seq<nat>, k: nat)
    requires IsChain(ws, i, p) && k < |p|
    ensures p[k] < |ws|
    ensures k + 1 < |p| ==> ws[p[k]].next == p[k + 1] && p[k + 1] != i
    ensures k + 1 == |p| ==> ws[p[k]].next == NULL || ws[p[k]].next == i
  {
    assert k + 1 < |p| ==> Step(ws, p[k], p[k + 1]);
  }

  /** Fills w, which has room for exactly the counted nodes, and marks the joined ways. */
  method JoinOpenPoly(wl: array<Poly>, pl: nat, w: array<int>, ghost p: seq<nat>) returns (wcnt: nat)
    requires Ways(wl[..]) && IsChain(wl[..], pl, p) && w.Length == NodeCount(wl[..], p)
    modifies wl, w
    ensures w[..] == Joined(old(wl[..]), p) && wcnt == |p| && Marked(old(wl[..]), wl[..], p)
  {
    hide NodeCount, Joined, Body, Joining;
    ghost var ws := wl[..];
    var list: int, pos: nat := pl, 0;
    wcnt := 0;
    JoinBegins(ws, p, w[..]);
    while list != NULL
      invariant wcnt <= |p| && list == if wcnt < |p| then p[wcnt] else NULL
      invariant Joining(ws, p, wcnt, pos, w[..]) && Marked(ws, wl[..], p[..wcnt])
      decreases |p| - wcnt
    {
      JoinAndMark(ws, wl[..], pl, p, wcnt, pos, w[..]);
      var cur := wl[list];
      wl[list] := cur.(del := true);
      Copy(w, pos, cur.w);
      pos := pos + |cur.w| - 1;
      wcnt := wcnt + 1;
      if cur.next == pl {
        break;
      }
      list := cur.next;
    }
    assert p[..|p|] == p;
    JoinEnds(ws, p, pos, w[..]);
  }

  lemma JoinBegins(ws: seq<Poly>, p: seq<nat>, w: seq<int>)
    requires Ways(ws) && p != [] && forall i :: 0 <= i < |p| ==> p[i] < |ws|
    requires |w| == NodeCount(ws, p)
    ensures Joining(ws, p, 0, 0, w)
  {
    PathStep(ws, p, 0);
  }

  lemma JoinEnds(ws: seq<Poly>, p: seq<nat>, pos: nat, w: seq<int>)
    requires Ways(ws) && p != [] && forall i :: 0 <= i < |p| ==> p[i] < |ws|
    requires Joining(ws, p, |p|, pos, w)
    ensures w == Joined(ws, p)
  {
  }

  /** One round of the loop of JoinOpenPoly. */
  lemma JoinAndMark(ws: seq<Poly>, rs: seq<Poly>, i: nat, p: seq<nat>, k: nat, pos: nat, w: seq<int>)
    requires Ways(ws) && IsChain(ws, i, p) && k < |p|
    requires Joining(ws, p, k, pos, w) && Marked(ws, rs, p[..k])
    ensures rs[p[k]].w == ws[p[k]].w && rs[p[k]].next == ws[p[k]].next
    ensures k + 1 < |p| ==> ws[p[k]].next == p[k + 1] && p[k + 1] != i
    ensures k + 1 == |p| ==> ws[p[k]].next == NULL || ws[p[k]].next == i
    ensures Marked(ws, rs[p[k] := rs[p[k]].(del := true)], p[..k + 1])
    ensures var src := ws[p[k]].w;
      pos + |src| <= |w| && Joining(ws, p, k + 1, pos + |src| - 1, w[..pos] + src + w[pos + |src|..])
  {
    ChainNext(ws, i, p, k);
    JoinStep(ws, p, k, pos, w);
    MarkOne(ws, rs, p, k);
  }

  lemma MarkOne(ws: seq<Poly>, rs: seq<Poly>, p: seq<nat>, k: nat)
    requires k < |p| && p[k] < |ws| && Marked(ws, rs, p[..k])
    ensures Marked(ws, rs[p[k] := rs[p[k]].(del := true)], p[..k + 1])
  {
    assert p[..k + 1] == p[..k] + [p[k]];
  }

  /** What joining way number k of a path does to the counts and the copied nodes. */
  lemma PathStep(ws: seq<Poly>, p: seq<nat>, k: nat)
    requires Ways(ws) && k < |p| && forall i :: 0 <= i < |p| ==> p[i] < |ws|
    ensures NodeCount(ws, p[..k]) - 1 + |ws[p[k]].w| == NodeCount(ws, p[..k + 1]) <= NodeCount(ws, p)
    ensures Body(ws, p[..k + 1]) == Body(ws, p[..k]) + ws[p[k]].w[..|ws[p[k]].w| - 1]
    ensures k + 1 == |p| ==> Joined(ws, p) == Body(ws, p[..k]) + ws[p[k]].w
  {
    assert p[..k + 1][..k] == p[..k];
    NodeCountGrows(ws, p, k + 1);
  }

  // ----- which ways start a new way -----

  /**
   * Way i is where a new way starts: an open chain starts at the way without
   * predecessor, a loop at its first way in list order from which the walk
   * around the loop is accepted.
   */
  ghost predicate Leads(ws: seq<Poly>, i: nat)
    requires InRange(ws) && i < |ws|
  {
    match From(ws, i)
    case Open(_) => ws[i].prev == NULL
    case Loop(p) => forall j :: j in p && From(ws, j).Loop? ==> i <= j
    case _ => false
  }

  ghost function Path(ws: seq<Poly>, i: nat): (p: seq<nat>)
    requires InRange(ws) && i < |ws| && Leads(ws, i)
    ensures IsChain(ws, i, p) && Distinct(p)
  {
    From(ws, i).path
  }

  ghost predicate Joins(ws: seq<Poly>, i: nat, j: nat)
    requires InRange(ws)
  {
    i < |ws| && Leads(ws, i) && j in Path(ws, i)
  }

  /** The ways of a loop, followed from anywhere in it, never leave it. */
  lemma LoopClosed(ws: seq<Poly>, i: nat, u: nat)
    requires InRange(ws) && i < |ws| && From(ws, i).Loop? && u in From(ws, i).path
    ensures u < |ws| && ws[u].next in From(ws, i).path && ws[u].next != NULL
  {
    var p := From(ws, i).path;
    var k :| 0 <= k < |p| && p[k] == u;
    ChainNext(ws, i, p, k);
  }

  /** A chain that shares a way with a loop stays in the loop from there on. */
  lemma {:induction false} ChainStaysInLoop(ws: seq<Poly>, i: nat, j: nat, q: seq<nat>, a: nat, b: nat)
    requires InRange(ws) && i < |ws| && From(ws, i).Loop?
    requires IsChain(ws, j, q) && a <= b < |q| && q[a] in From(ws, i).path
    ensures q[b] in From(ws, i).path
    decreases b
  {
    if a < b {
      ChainStaysInLoop(ws, i, j, q, a, b - 1);
      LoopClosed(ws, i, q[b - 1]);
      ChainNext(ws, j, q, b - 1);
    }
  }

  /** A chain that shares a way with a loop is itself a loop, of the same ways. */
  lemma MeetsLoop(ws: seq<Poly>, i: nat, j: nat, a: nat)
    requires InRange(ws) && i < |ws| && From(ws, i).Loop?
    requires j < |ws| && Accepted(From(ws, j)) && a < |From(ws, j).path|
    requires From(ws, j).path[a] in From(ws, i).path
    ensures From(ws, j).Loop?
    ensures forall u :: u in From(ws, j).path ==> u in From(ws, i).path
  {
    var q := From(ws, j).path;
    ChainStaysInLoop(ws, i, j, q, a, |q| - 1);
    LoopClosed(ws, i, q[|q| - 1]);
    forall u | u in q ensures u in From(ws, i).path {
      var b :| 0 <= b < |q| && q[b] == u;
      ChainStaysInLoop(ws, i, j, q, 0, b);
    }
  }

  /** Two open chains that share a way have the same beginning. */
  lemma {:induction false} OpenChainsMeet(ws: seq<Poly>, i: nat, j: nat, p: seq<nat>, q: seq<nat>, a: nat, b: nat)
    requires LinkOk(ws) && IsChain(ws, i, p) && IsChain(ws, j, q)
    requires ws[i].prev == NULL && ws[j].prev == NULL
    requires a < |p| && b < |q| && p[a] == q[b]
    ensures i == j
    decreases a
  {
    if a > 0 {
      assert Step(ws, p[a - 1], p[a]);
    }
    if b > 0 {
      assert Step(ws, q[b - 1], q[b]);
    }
    if a > 0 {
      OpenChainsMeet(ws, i, j, p, q, a - 1, b - 1);
    }
  }

  /** Whatever the data, no way is joined into two new ways. */
  lemma JoinedOnce(ws: seq<Poly>, i: nat, j: nat, u: nat)
    requires LinkOk(ws) && Joins(ws, i, u) && Joins(ws, j, u)
    ensures i == j
  {
    var p, q := Path(ws, i), Path(ws, j);
    var a :| 0 <= a < |p| && p[a] == u;
    var b :| 0 <= b < |q| && q[b] == u;
    if From(ws, i).Loop? {
      MeetsLoop(ws, i, j, b);
      MeetsLoop(ws, j, i, a);
      assert q[0] == j && p[0] == i;
    } else if From(ws, j).Loop? {
      MeetsLoop(ws, j, i, a);
    } else {
      OpenChainsMeet(ws, i, j, p, q, a, b);
    }
  }

  /** An accepted loop belongs to the new way of its first acceptable member. */
  lemma LoopHasLead(ws: seq<Poly>, i: nat) returns (m: nat)
    requires LinkOk(ws) && i < |ws| && From(ws, i).Loop?
    ensures m <= i && Joins(ws, m, i) && From(ws, m).Loop?
  {
    m := LeastLoop(ws, From(ws, i).path, i);
    var p := From(ws, i).path;
    var a :| 0 <= a < |p| && p[a] == m;
    MeetsLoop(ws, i, m, 0);
    ChainStaysAround(ws, i, m, a);
  }

  lemma {:induction false} LeastLoop(ws: seq<Poly>, p: seq<nat>, i: nat) returns (m: nat)
    requires InRange(ws) && (forall k :: 0 <= k < |p| ==> p[k] < |ws|)
    requires i in p && From(ws, i).Loop?
    ensures m in p && m <= i && From(ws, m).Loop?
    ensures forall j :: j in p && From(ws, j).Loop? ==> m <= j
    decreases i
  {
    m := i;
    if j :| j in p && From(ws, j).Loop? && j < i {
      m := LeastLoop(ws, p, j);
    }
  }

  /** A loop followed from another of its ways comes by the first one. */
  lemma {:induction false} ChainStaysAround(ws: seq<Poly>, i: nat, m: nat, a: nat)
    requires InRange(ws) && i < |ws| && From(ws, i).Loop? && m < |ws| && From(ws, m).Loop?
    requires a < |From(ws, i).path| && From(ws, i).path[a] in From(ws, m).path
    ensures i in From(ws, m).path
    decreases |From(ws, i).path| - a
  {
    var p := From(ws, i).path;
    LoopClosed(ws, m, p[a]);
    ChainNext(ws, i, p, a);
    if a + 1 < |p| {
      ChainStaysAround(ws, i, m, a + 1);
    }
  }

  // ----- creating the new ways -----

  /** Way j has been joined into a new way that starts before position k of the list. */
  ghost predicate JoinedBefore(ws: seq<Poly>, k: nat, j: nat)
    requires InRange(ws)
  {
    exists i :: 0 <= i < k && Joins(ws, i, j)
  }

  /** The list ws after its first k ways have been looked at. */
  ghost predicate Detected(ws: seq<Poly>, rs: seq<Poly>, k: nat)
    requires Ways(ws) && InRange(ws)
  {
    |rs| == |ws| && forall i :: 0 <= i < |ws| ==> rs[i] == DetectedWay(ws, k, i)
  }

  ghost function DetectedWay(ws: seq<Poly>, k: nat, i: nat): Poly
    requires Ways(ws) && InRange(ws) && i < |ws|
  {
    var new' := i < k && Leads(ws, i);
    ws[i].(
      del := JoinedBefore(ws, k, i),
      open := new' && From(ws, i).Open?,
      nw := if new' then Some(Joined(ws, Path(ws, i))) else None)
  }

  ghost function OpenCount(ws: seq<Poly>, k: nat): nat
    requires InRange(ws) && k <= |ws|
  {
    if k == 0 then 0
    else OpenCount(ws, k - 1) + if Leads(ws, k - 1) && Code(From(ws, k - 1)) == 0 then 1 else 0
  }

  /** The test that loop_detect() makes at way k tells whether a new way starts there. */
  lemma LeadTest(ws: seq<Poly>, k: nat)
    requires LinkOk(ws) && k < |ws|
    ensures Leads(ws, k) <==>
      && !JoinedBefore(ws, k, k)
      && Accepted(From(ws, k))
      && (From(ws, k).Open? ==> ws[k].prev == NULL)
  {
    if Leads(ws, k) {
      assert Path(ws, k)[0] == k;
      assert Joins(ws, k, k);
      forall i: nat | i < k && Joins(ws, i, k) ensures false {
        JoinedOnce(ws, i, k, k);
      }
    } else if From(ws, k).Loop? {
      var m := LoopHasLead(ws, k);
      assert m != k;
    }
  }

  lemma DetectNothing(ws: seq<Poly>, rs: seq<Poly>, k: nat)
    requires Ways(ws) && InRange(ws) && k < |ws| && !Leads(ws, k) && Detected(ws, rs, k)
    ensures Detected(ws, rs, k + 1)
  {
    forall j | JoinedBefore(ws, k, j) ensures JoinedBefore(ws, k + 1, j) {
      var i :| 0 <= i < k && Joins(ws, i, j);
      assert i < k + 1;
    }
  }

  lemma DetectNew(ws: seq<Poly>, rs: seq<Poly>, k: nat, rs': seq<Poly>, new': Poly)
    requires Ways(ws) && InRange(ws) && k < |ws| && Leads(ws, k) && Detected(ws, rs, k)
    requires Marked(rs, rs', Path(ws, k))
    requires new' == rs'[k].(open := Code(From(ws, k)) == 0, nw := Some(Joined(ws, Path(ws, k))))
    ensures Detected(ws, rs'[k := new'], k + 1)
  {
    forall j: nat | j < |ws| ensures JoinedBefore(ws, k + 1, j) <==> JoinedBefore(ws, k, j) || j in Path(ws, k) {
      if j in Path(ws, k) {
        assert Joins(ws, k, j);
      }
      if JoinedBefore(ws, k, j) {
        var i :| 0 <= i < k && Joins(ws, i, j);
        assert i < k + 1;
      }
    }
    var rs'' := rs'[k := new'];
    forall i | 0 <= i < |ws| ensures rs''[i] == DetectedWay(ws, k + 1, i) {
      assert rs[i] == DetectedWay(ws, k, i);
    }
  }

  /** Links and nodes decide how a walk goes; the flags do not matter. */
  ghost predicate SameLinks(a: seq<Poly>, b: seq<Poly>) {
    |a| == |b| && forall i :: 0 <= i < |a| ==> a[i].next == b[i].next && a[i].prev == b[i].prev && a[i].w == b[i].w
  }

  lemma {:induction false} SameFollow(a: seq<Poly>, b: seq<Poly>, p: seq<nat>)
    requires SameLinks(a, b) && InRange(a) && IsWalk(a, p) && Distinct(p)
    ensures InRange(b) && IsWalk(b, p) && Follow(a, p) == Follow(b, p)
    decreases |a| - |p|
  {
    Pigeonhole(p, |a|);
    forall k | 0 < k < |p| ensures Step(b, p[k - 1], p[k]) && p[k] != p[0] {
      assert Step(a, p[k - 1], p[k]);
    }
    var last := p[|p| - 1];
    var next := a[last].next;
    if next != NULL && next != p[0] && (a[next].prev == NULL || a[next].prev == last) && next !in p {
      var q: seq<nat> := p + [next];
      Pigeonhole(q, |a|);
      assert forall k :: 0 < k < |q| ==> Step(a, q[k - 1], q[k]) && q[k] != q[0];
      assert forall k :: 0 < k < |q| ==> Step(b, q[k - 1], q[k]) && q[k] != q[0];
      SameFollow(a, b, q);
    }
  }

  lemma {:induction false} SameJoined(a: seq<Poly>, b: seq<Poly>, p: seq<nat>)
    requires SameLinks(a, b) && Ways(a) && (forall k :: 0 <= k < |p| ==> p[k] < |a|)
    ensures Ways(b) && Body(a, p) == Body(b, p)
    ensures p != [] ==> Joined(a, p) == Joined(b, p)
  {
    if p != [] {
      SameJoined(a, b, p[..|p| - 1]);
    }
  }

  lemma DetectedLinks(ws: seq<Poly>, rs: seq<Poly>, k: nat, i: nat)
    requires Ways(ws) && LinkOk(ws) && Detected(ws, rs, k) && i < |ws|
    ensures Ways(rs) && LinkOk(rs) && From(ws, i) == From(rs, i)
    ensures rs[i].prev == ws[i].prev && (rs[i].del <==> JoinedBefore(ws, k, i))
  {
    assert SameLinks(ws, rs);
    SameFollow(ws, rs, [i]);
  }

  /** What the loop of LoopDetect() needs to know when it looks at way i. */
  lemma DetectStep(ws: seq<Poly>, rs: seq<Poly>, i: nat)
    requires Ways(ws) && LinkOk(ws) && Detected(ws, rs, i) && i < |ws|
    ensures Ways(rs) && LinkOk(rs) && From(ws, i) == From(rs, i)
    ensures Leads(ws, i) <==>
      var code := Code(From(rs, i));
      !rs[i].del && code != -1 && (code == 0 ==> rs[i].prev == NULL)
    ensures !Leads(ws, i) ==> Detected(ws, rs, i + 1)
  {
    DetectedLinks(ws, rs, i, i);
    LeadTest(ws, i);
    if !Leads(ws, i) {
      DetectNothing(ws, rs, i);
    }
  }

  /** What LoopDetect() needs to know when a new way starts at way i. */
  lemma DetectLead(ws: seq<Poly>, rs: seq<Poly>, i: nat)
    requires Ways(ws) && LinkOk(ws) && Detected(ws, rs, i) && i < |ws| && Leads(ws, i)
    ensures Ways(rs) && LinkOk(rs) && From(ws, i) == From(rs, i) && Accepted(From(rs, i))
    ensures IsChain(rs, i, Path(ws, i)) && Joined(rs, Path(ws, i)) == Joined(ws, Path(ws, i))
    ensures Path(ws, i) == From(rs, i).path
  {
    DetectedLinks(ws, rs, i, i);
    assert SameLinks(ws, rs);
    SameJoined(ws, rs, Path(ws, i));
  }

  /** Creates the new ways.  Returns how many of them are still open. */
  method LoopDetect(wl: array<Poly>) returns (ocnt: nat)
    requires Ways(wl[..]) && LinkOk(wl[..])
    requires forall i :: 0 <= i < wl.Length ==> !wl[i].del && !wl[i].open && wl[i].nw == None
    modifies wl
    ensures Detected(old(wl[..]), wl[..], wl.Length)
    ensures ocnt == OpenCount(old(wl[..]), wl.Length)
  {
    hide *;
    ghost var ws := wl[..];
    DetectStart(ws);
    ocnt := 0;
    for i := 0 to wl.Length
      invariant Ways(ws) && InRange(ws) && LinkOk(ws) && Detected(ws, wl[..], i)
      invariant ocnt == OpenCount(ws, i)
    {
      ghost var rs := wl[..];
      var list := wl[i];
      assert list == rs[i];
      DetectStep(ws, rs, i);
      OpenCountStep(ws, i);
      if list.del {
        continue;
      }
      var ret, cnt := CountPolyRefs(wl, i, rs);
      assert wl[..] == rs;
      if ret == -1 {
        continue;
      }
      if ret == 0 && list.prev != NULL {
        continue;
      }
      DetectLead(ws, rs, i);
      ghost var p := Path(ws, i);
      var w := new int[cnt];
      assert wl[..] == rs;
      var wcnt := JoinOpenPoly(wl, i, w, p);
      ghost var rs' := wl[..];
      wl[i] := wl[i].(nw := Some(w[..]), open := ret == 0);
      DetectNew(ws, rs, i, rs', wl[i]);
      assert wl[..] == rs'[i := wl[i]];
      if ret == 0 {
        ocnt := ocnt + 1;
      }
    }
  }

  lemma DetectStart(ws: seq<Poly>)
    requires Ways(ws) && LinkOk(ws)
    requires forall i :: 0 <= i < |ws| ==> !ws[i].del && !ws[i].open && ws[i].nw == None
    ensures InRange(ws) && Detected(ws, ws, 0) && OpenCount(ws, 0) == 0
  {
  }

  lemma OpenCountStep(ws: seq<Poly>, k: nat)
    requires InRange(ws) && k < |ws|
    ensures OpenCount(ws, k + 1) == OpenCount(ws, k) + if Leads(ws, k) && Code(From(ws, k)) == 0 then 1 else 0
  {
  }
}
