/**
 * Closing the open ways around the border of the page: poly_get_brg() and
 * connect_open() in src/smcoast.c.
 *
 * Each open way has an entry for its start and one for its end in a list that
 * is sorted by bearing. A pass over this list looks for the end that comes next
 * after a start, adds the page corners between the two, and either closes the
 * way or puts the other way in front of it. A pass stops after two ways have
 * become one, because then the list has to be sorted again.
 *
 * Bearings enter only through their order. The bearing of a node is a
 * function of its id.
 */
module CoastConnect {
  import opened Common
  import opened CoastLink

  const NUM_CO: nat := 8

  /**
   * An end point of an open way: index of the way, position within the new way, bearing from the
   * centre of the page.
   */
  datatype EndPoint = EndPoint(wi: nat, pn: nat, brg: real)

  /** A corner point of the page: its bearing and its node. */
  datatype Corner = Corner(brg: real, id: int)

  /** Whether corners are inserted, and which. */
  datatype Page = Page(noCorner: bool, co: seq<Corner>) {
    ghost predicate Valid() {
      |co| == NUM_CO
    }
  }

  function Nw(p: Poly): seq<int> {
    match p.nw
    case None => []
    case Some(w) => w
  }

  // ----- one pass over the sorted end points, as a function -----

  /** The ways and their end points. */
  datatype State = State(ws: seq<Poly>, pd: seq<EndPoint>)

  ghost predicate InList(st: State) {
    forall k :: 0 <= k < |st.pd| ==> st.pd[k].wi < |st.ws|
  }

  predicate OpenStart(st: State, i: nat)
    requires InList(st) && i < |st.pd|
  {
    st.pd[i].pn == 0 && st.ws[st.pd[i].wi].open
  }

  predicate OpenEnd(st: State, j: nat)
    requires InList(st) && j < |st.pd|
  {
    st.pd[j].pn != 0 && st.ws[st.pd[j].wi].open
  }

  /**
   * The first open end at or after position j on the round trip that began at i; i plus the length
   * if there is none.
   */
  function FirstEnd(st: State, i: nat, j: nat): (r: nat)
    requires InList(st) && i < |st.pd| && i < j <= i + |st.pd|
    ensures j <= r <= i + |st.pd|
    ensures r < i + |st.pd| ==> OpenEnd(st, r % |st.pd|)
    ensures forall m :: j <= m < r ==> !OpenEnd(st, m % |st.pd|)
    decreases i + |st.pd| - j
  {
    if j == i + |st.pd| || OpenEnd(st, j % |st.pd|) then j else FirstEnd(st, i, j + 1)
  }

  /** Index of the first corner behind a bearing; NUM_CO if there is none. */
  function NextCorner(co: seq<Corner>, b: real, k: nat): (r: nat)
    requires k <= |co|
    ensures k <= r <= |co|
    ensures forall m :: k <= m < r ==> !(b < co[m].brg)
    ensures r < |co| ==> b < co[r].brg
    decreases |co| - k
  {
    if k == |co| || b < co[k].brg then k else NextCorner(co, b, k + 1)
  }

  /** The corners k .. l-1, counted around the page, the last one first. */
  function CornerRun(co: seq<Corner>, k: nat, l: nat): (r: seq<int>)
    requires |co| == NUM_CO
    ensures |r| == if k < l then l - k else 0
    ensures forall m :: 0 <= m < |r| ==> exists c :: 0 <= c < NUM_CO && r[m] == co[c].id
    decreases l - k
  {
    if k >= l then [] else CornerRun(co, k + 1, l) + [co[k % NUM_CO].id]
  }

  /**
   * The corners between end point i and end point j, j counted beyond the end of the list if the
   * search wrapped around.
   */
  function Bridge(pg: Page, pd: seq<EndPoint>, i: nat, j: nat): seq<int>
    requires pg.Valid() && i < |pd|
  {
    if pg.noCorner then []
    else
      var k := NextCorner(pg.co, pd[i].brg, 0);
      var l := NextCorner(pg.co, pd[j % |pd|].brg, 0);
      CornerRun(pg.co, k, if l < k || j >= |pd| then l + NUM_CO else l)
  }

  /** Position of the first entry of way w that is an end point (or a start point); the length if there is none. */
  function FindEntry(pd: seq<EndPoint>, w: nat, end: bool, k: nat): (r: nat)
    requires k <= |pd|
    ensures k <= r <= |pd|
    ensures r < |pd| ==> pd[r].wi == w && (pd[r].pn != 0) == end
    ensures forall m :: k <= m < r ==> !(pd[m].wi == w && (pd[m].pn != 0) == end)
    decreases |pd| - k
  {
    if k == |pd| || (pd[k].wi == w && (pd[k].pn != 0) == end) then k else FindEntry(pd, w, end, k + 1)
  }

  /** Way a with the bridge in front, closed by repeating its first node. */
  function Closed(st: State, a: nat, bridge: seq<int>): State
    requires a < |st.ws|
  {
    var r := bridge + Nw(st.ws[a]);
    st.(ws := st.ws[a := st.ws[a].(nw := Some(r + (if r == [] then [] else [r[0]])), open := false)])
  }

  /** Way b, the bridge and way a, in this order, become the new way a; way b is done with. */
  function MergedWays(ws: seq<Poly>, a: nat, b: nat, bridge: seq<int>): seq<Poly>
    requires a < |ws| && b < |ws| && a != b
  {
    ws[a := ws[a].(nw := Some(Nw(ws[b]) + (bridge + Nw(ws[a]))))][b := ws[b].(open := false)]
  }

  /**
   * The end point of way a moves to the new last position; its start point i takes the bearing of
   * way b's start point.
   */
  function MergedEnds(pd: seq<EndPoint>, i: nat, b: nat, cnt: nat): seq<EndPoint>
    requires i < |pd| && cnt >= 1
  {
    var e := FindEntry(pd, pd[i].wi, true, 0);
    var pd1 := if e < |pd| then pd[e := pd[e].(pn := cnt - 1)] else pd;
    var s := FindEntry(pd1, b, false, 0);
    if s < |pd| then pd1[i := pd1[i].(brg := pd1[s].brg)] else pd1
  }

  function Merged(st: State, i: nat, b: nat, bridge: seq<int>): State
    requires InList(st) && i < |st.pd| && b < |st.ws| && b != st.pd[i].wi
    requires Nw(st.ws[b]) != []
  {
    var ws := MergedWays(st.ws, st.pd[i].wi, b, bridge);
    State(ws, MergedEnds(st.pd, i, b, |Nw(ws[st.pd[i].wi])|))
  }

  /** Open ways have nodes. */
  ghost predicate HasNodes(ws: seq<Poly>) {
    forall m :: 0 <= m < |ws| && ws[m].open ==> Nw(ws[m]) != []
  }

  /** One pass of connect_open() from position i on: the new state and the number of connections made. */
  function Pass(pg: Page, st: State, i: nat): (r: (State, nat))
    requires pg.Valid() && InList(st) && HasNodes(st.ws) && i <= |st.pd|
    decreases |st.pd| - i
  {
    if i == |st.pd| then (st, 0)
    else if !OpenStart(st, i) then Pass(pg, st, i + 1)
    else
      var j := FirstEnd(st, i, i + 1);
      if j == i + |st.pd| then Pass(pg, st, i + 1)
      else
        var a, b := st.pd[i].wi, st.pd[j % |st.pd|].wi;
        var bridge := Bridge(pg, st.pd, i, j);
        if a == b then
          var r := Pass(pg, Closed(st, a, bridge), i + 1);
          (r.0, r.1 + 1)
        else
          (Merged(st, i, b, bridge), 1)
  }

  // ----- the same pass in place -----

  method FirstCorner(pg: Page, b: real) returns (k: nat)
    requires pg.Valid()
    ensures k == NextCorner(pg.co, b, 0)
  {
    k := 0;
    while k < NUM_CO
      invariant k <= NUM_CO && NextCorner(pg.co, b, 0) == NextCorner(pg.co, b, k)
    {
      if b < pg.co[k].brg {
        break;
      }
      k := k + 1;
    }
  }

  /** Puts the corners from .. to-1 in front of way a, one after the other. */
  method AddCorners(wl: array<Poly>, pg: Page, a: nat, from: nat, to: nat)
    requires pg.Valid() && a < wl.Length && wl[a].nw.Some? && from <= to
    modifies wl
    ensures wl[..] == old(wl[..])[a := old(wl[a]).(nw := Some(CornerRun(pg.co, from, to) + Nw(old(wl[a]))))]
  {
    hide CornerRun, Nw;
    var k := from;
    ghost var ws := wl[..];
    ghost var ref := Nw(ws[a]);
    NoCorners(pg.co, from);
    assert [] + ref == ref;
    NwIs(ws[a], ref);
    while k < to
      invariant from <= k <= to
      invariant ref == CornerRun(pg.co, from, k) + Nw(ws[a])
      invariant wl[..] == ws[a := ws[a].(nw := Some(ref))]
    {
      CornerRunFront(pg.co, from, k);
      NwIs(wl[a], ref);
      ghost var run := CornerRun(pg.co, from, k);
      var id := pg.co[k % NUM_CO].id;
      assert [id] + (run + Nw(ws[a])) == [id] + run + Nw(ws[a]);
      ref := [id] + ref;
      wl[a] := wl[a].(nw := Some([id] + Nw(wl[a])));
      k := k + 1;
    }
  }

  lemma NoCorners(co: seq<Corner>, k: nat)
    requires |co| == NUM_CO
    ensures CornerRun(co, k, k) == []
  {
  }

  lemma NwIs(p: Poly, ref: seq<int>)
    ensures p.nw == Some(ref) <==> p.nw.Some? && Nw(p) == ref
  {
  }

  lemma {:induction false} CornerRunFront(co: seq<Corner>, k: nat, l: nat)
    requires |co| == NUM_CO && k <= l
    ensures CornerRun(co, k, l + 1) == [co[l % NUM_CO].id] + CornerRun(co, k, l)
    decreases l - k
  {
    if k < l {
      CornerRunFront(co, k + 1, l);
    }
  }

  // ----- the corners of a bridge -----

  /** How far the first corners up to corner k reach around the page. */
  function Reach(co: seq<Corner>, k: nat): real
    requires k < |co|
  {
    if k > 0 && Reach(co, k - 1) > co[k].brg then Reach(co, k - 1) else co[k].brg
  }

  /** The corners with their reach for their bearing: the search for a corner cannot tell the difference. */
  function Reaching(co: seq<Corner>): (r: seq<Corner>)
    ensures |r| == |co| && forall k :: 0 <= k < |co| ==> r[k] == Corner(Reach(co, k), co[k].id)
  {
    seq(|co|, k requires 0 <= k < |co| => Corner(Reach(co, k), co[k].id))
  }

  function Ids(co: seq<Corner>): (r: seq<int>)
    ensures |r| == |co| && forall k :: 0 <= k < |co| ==> r[k] == co[k].id
  {
    seq(|co|, k requires 0 <= k < |co| => co[k].id)
  }

  /** The corners whose bearing is as asked for, in their order. */
  function Picked(co: seq<Corner>, f: real -> bool): seq<int> {
    if co == [] then [] else (if f(co[0].brg) then [co[0].id] else []) + Picked(co[1..], f)
  }

  lemma {:induction false} PickAll(co: seq<Corner>, f: real -> bool)
    requires forall k :: 0 <= k < |co| ==> f(co[k].brg)
    ensures Picked(co, f) == Ids(co)
  {
    if co != [] {
      PickAll(co[1..], f);
      assert Ids(co) == [co[0].id] + Ids(co[1..]);
    }
  }

  lemma {:induction false} PickNone(co: seq<Corner>, f: real -> bool)
    requires forall k :: 0 <= k < |co| ==> !f(co[k].brg)
    ensures Picked(co, f) == []
  {
    if co != [] {
      PickNone(co[1..], f);
    }
  }

  lemma PickFirst(co: seq<Corner>, f: real -> bool)
    requires co != []
    ensures Picked(co, f) == (if f(co[0].brg) then [co[0].id] else []) + Picked(co[1..], f)
  {
  }

  lemma {:induction false} PickParts(a: seq<Corner>, b: seq<Corner>, f: real -> bool)
    ensures Picked(a + b, f) == Picked(a, f) + Picked(b, f)
  {
    hide Picked;
    if a == [] {
      PickNone(a, f);
      assert a + b == b;
    } else {
      PickParts(a[1..], b, f);
      assert (a + b)[1..] == a[1..] + b;
      PickFirst(a, f);
      PickFirst(a + b, f);
    }
  }

  lemma PickMiddle(a: seq<Corner>, b: seq<Corner>, c: seq<Corner>, f: real -> bool)
    requires (forall m :: 0 <= m < |a| ==> !f(a[m].brg)) && forall m :: 0 <= m < |c| ==> !f(c[m].brg)
    requires forall m :: 0 <= m < |b| ==> f(b[m].brg)
    ensures Picked(a + b + c, f) == Ids(b)
  {
    hide *;
    PickNone(a, f);
    PickAll(b, f);
    PickNone(c, f);
    PickParts(a, b, f);
    PickParts(a + b, c, f);
  }

  /** Picking a stretch of the corners. */
  lemma PickStretch(co: seq<Corner>, f: real -> bool, k: nat, l: nat)
    requires k <= l <= |co| && forall m :: 0 <= m < |co| ==> (f(co[m].brg) <==> k <= m < l)
    ensures Picked(co, f) == Ids(co[k..l])
  {
    hide *;
    PickMiddle(co[..k], co[k..l], co[l..], f);
    ThreeParts(co, k, l);
  }

  lemma ThreeParts<T>(s: seq<T>, k: nat, l: nat)
    requires k <= l <= |s|
    ensures s[..k] + s[k..l] + s[l..] == s
  {
  }

  lemma {:induction false} ReachGrows(co: seq<Corner>, k: nat, l: nat)
    requires k <= l < |co|
    ensures Reach(co, k) <= Reach(co, l)
  {
    if k < l {
      ReachGrows(co, k, l - 1);
    }
  }

  lemma {:induction false} ReachIs(co: seq<Corner>, k: nat) returns (m: nat)
    requires k < |co|
    ensures m <= k && Reach(co, k) == co[m].brg
  {
    if k > 0 && Reach(co, k - 1) > co[k].brg {
      m := ReachIs(co, k - 1);
    } else {
      m := k;
    }
  }

  /** The corners in front of the one that is found reach up to b, and all others beyond it. */
  lemma NextCornerSplits(co: seq<Corner>, b: real, m: nat)
    requires m < |co|
    ensures Reach(co, m) <= b <==> m < NextCorner(co, b, 0)
  {
    var r := NextCorner(co, b, 0);
    if m < r {
      var x := ReachIs(co, m);
    } else {
      ReachGrows(co, r, m);
    }
  }

  lemma NextCornerMono(co: seq<Corner>, b: real, e: real)
    requires b <= e
    ensures NextCorner(co, b, 0) <= NextCorner(co, e, 0)
  {
  }

  lemma {:induction false} RunParts(co: seq<Corner>, k: nat, m: nat, l: nat)
    requires |co| == NUM_CO && k <= m <= l
    ensures CornerRun(co, k, l) == CornerRun(co, m, l) + CornerRun(co, k, m)
    decreases m - k
  {
    if k < m {
      RunParts(co, k + 1, m, l);
    }
  }

  lemma {:induction false} RunAround(co: seq<Corner>, k: nat, l: nat)
    requires |co| == NUM_CO && k <= l
    ensures CornerRun(co, k + NUM_CO, l + NUM_CO) == CornerRun(co, k, l)
    decreases l - k
  {
    hide CornerRun;
    if k < l {
      RunAround(co, k + 1, l);
      RunStep(co, k, l);
      RunStep(co, k + NUM_CO, l + NUM_CO);
    } else {
      NoCorners(co, k);
      NoCorners(co, k + NUM_CO);
    }
  }

  lemma RunStep(co: seq<Corner>, k: nat, l: nat)
    requires |co| == NUM_CO && k < l
    ensures CornerRun(co, k, l) == CornerRun(co, k + 1, l) + [co[k % NUM_CO].id]
  {
  }

  lemma {:induction false} RunIsStretch(co: seq<Corner>, k: nat, l: nat)
    requires |co| == NUM_CO && k <= l <= NUM_CO
    ensures CornerRun(co, k, l) == Reversed(Ids(co[k..l]))
    decreases l - k
  {
    hide CornerRun, Ids, Reversed;
    if k < l {
      RunIsStretch(co, k + 1, l);
      RunStep(co, k, l);
      assert k % NUM_CO == k;
      FirstId(co, k, l);
      ReversedFirst(co[k].id, Ids(co[k + 1..l]));
    } else {
      NoCorners(co, k);
      NoIds(co, k);
    }
  }

  lemma FirstId(co: seq<Corner>, k: nat, l: nat)
    requires k < l <= |co|
    ensures Ids(co[k..l]) == [co[k].id] + Ids(co[k + 1..l])
  {
  }

  lemma NoIds(co: seq<Corner>, k: nat)
    requires k <= |co|
    ensures Reversed(Ids(co[k..k])) == []
  {
  }

  lemma ReversedFirst<T>(x: T, s: seq<T>)
    ensures Reversed([x] + s) == Reversed(s) + [x]
  {
  }

  /** The corners behind bearing b and not behind bearing e, clockwise, with north in between or not. */
  function Clockwise(co: seq<Corner>, b: real, e: real, north: bool): seq<int> {
    if north then Picked(co, x => b < x) + Picked(co, x => x <= e) else Picked(co, x => b < x <= e)
  }

  /**
   * Between the start at entry i and the end at entry j of the sorted list the bridge has exactly
   * the corners behind the start and not behind the end, clockwise, the last one first. If the
   * search for the end has wrapped around, these are the corners behind the start and those that
   * are not behind the end.
   */
  lemma BridgeIsBetween(pg: Page, pd: seq<EndPoint>, i: nat, j: nat)
    requires pg.Valid() && !pg.noCorner && i < |pd| && i < j < i + |pd|
    requires forall x, y :: 0 <= x < y < |pd| ==> pd[x].brg <= pd[y].brg
    ensures var co, b, e := Reaching(pg.co), pd[i].brg, pd[j % |pd|].brg;
      Bridge(pg, pd, i, j) == Reversed(Clockwise(co, b, e, j >= |pd|))
  {
    hide Reach, NextCorner, Picked, CornerRun, Reversed, Ids, Reaching;
    var co, r, b, e := pg.co, Reaching(pg.co), pd[i].brg, pd[j % |pd|].brg;
    var k, l := NextCorner(co, b, 0), NextCorner(co, e, 0);
    forall m: nat | m < |co|
      ensures r[m].brg <= b <==> m < k
      ensures r[m].brg <= e <==> m < l
    {
      NextCornerSplits(co, b, m);
      NextCornerSplits(co, e, m);
    }
    if j < |pd| {
      NextCornerMono(co, b, e);
      PickStretch(r, x => b < x <= e, k, l);
      RunIsStretch(co, k, l);
      SameIds(co, k, l);
    } else {
      PickStretch(r, x => b < x, k, NUM_CO);
      PickStretch(r, x => x <= e, 0, l);
      WrappedRun(co, k, l);
      SameIds(co, k, NUM_CO);
      SameIds(co, 0, l);
    }
  }

  lemma SameIds(co: seq<Corner>, k: nat, l: nat)
    requires k <= l <= |co|
    ensures Ids(Reaching(co)[k..l]) == Ids(co[k..l])
  {
  }

  lemma WrappedRun(co: seq<Corner>, k: nat, l: nat)
    requires |co| == NUM_CO && k <= NUM_CO && l <= NUM_CO
    ensures CornerRun(co, k, l + NUM_CO) == Reversed(Ids(co[k..NUM_CO]) + Ids(co[0..l]))
  {
    hide *;
    RunParts(co, k, NUM_CO, l + NUM_CO);
    RunAround(co, 0, l);
    RunIsStretch(co, k, NUM_CO);
    RunIsStretch(co, 0, l);
    ReversedParts(Ids(co[k..NUM_CO]), Ids(co[0..l]));
  }

  lemma ReversedParts<T>(a: seq<T>, b: seq<T>)
    ensures Reversed(a + b) == Reversed(b) + Reversed(a)
  {
  }

  /** Corners in clockwise order from the north on reach as far as their own bearings. */
  lemma {:induction false} SortedReach(co: seq<Corner>, k: nat)
    requires k < |co| && forall x, y :: 0 <= x < y <= k ==> co[x].brg <= co[y].brg
    ensures Reach(co, k) == co[k].brg
  {
    if k > 0 {
      SortedReach(co, k - 1);
    }
  }

  /**
   * The last corner is due north, so that its bearing is 0 and not 360: it is inserted exactly
   * together with the one before it, wherever the end points are.
   */
  lemma NorthGoesWithLast(co: seq<Corner>)
    requires |co| == NUM_CO && forall x, y :: 0 <= x < y < NUM_CO - 1 ==> 0.0 < co[x].brg <= co[y].brg
    requires co[NUM_CO - 1].brg == 0.0
    ensures Reaching(co) == co[NUM_CO - 1 := Corner(co[NUM_CO - 2].brg, co[NUM_CO - 1].id)]
  {
    hide Reach;
    forall k | 0 <= k < NUM_CO - 1 ensures Reach(co, k) == co[k].brg {
      SortedReach(co, k);
    }
    LastReach(co, NUM_CO - 1);
    assert 0.0 < co[0].brg <= co[NUM_CO - 2].brg;
  }

  lemma LastReach(co: seq<Corner>, k: nat)
    requires 0 < k < |co|
    ensures Reach(co, k) == if Reach(co, k - 1) > co[k].brg then Reach(co, k - 1) else co[k].brg
  {
  }

  method FindPdef(pd: array<EndPoint>, w: nat, end: bool) returns (k: nat)
    ensures k == FindEntry(pd[..], w, end, 0)
  {
    k := 0;
    while k < pd.Length
      invariant k <= pd.Length && FindEntry(pd[..], w, end, 0) == FindEntry(pd[..], w, end, k)
    {
      if pd[k].wi == w && (pd[k].pn != 0) == end {
        break;
      }
      k := k + 1;
    }
  }

  ghost predicate Holds(wl: array<Poly>, pd: array<EndPoint>, st: State)
    reads wl, pd
  {
    wl[..] == st.ws && pd[..] == st.pd && InList(st) && HasNodes(st.ws)
  }

  /** Searches the matching end point, round the list. */
  method FindEnd(pd: array<EndPoint>, wl: array<Poly>, i: nat, ghost st: State) returns (j: nat)
    requires Holds(wl, pd, st) && i < pd.Length
    ensures j == FirstEnd(st, i, i + 1)
  {
    var ocnt := pd.Length;
    j := i + 1;
    while j < i + ocnt
      invariant i < j <= i + ocnt && FirstEnd(st, i, j) == FirstEnd(st, i, i + 1)
    {
      var e := pd[j % ocnt];
      assert e == st.pd[j % ocnt];
      if e.pn != 0 && wl[e.wi].open {
        break;
      }
      j := j + 1;
    }
  }

  /** Way a of the list with the bridge in front. */
  function Bridged(ws: seq<Poly>, a: nat, bridge: seq<int>): seq<Poly>
    requires a < |ws|
  {
    ws[a := ws[a].(nw := Some(bridge + Nw(ws[a])))]
  }

  method InsertCorners(pd: array<EndPoint>, wl: array<Poly>, pg: Page, i: nat, j: nat, ghost st: State)
    requires pg.Valid() && Holds(wl, pd, st) && i < pd.Length && OpenStart(st, i)
    modifies wl
    ensures wl[..] == Bridged(st.ws, st.pd[i].wi, Bridge(pg, st.pd, i, j))
  {
    var a := pd[i].wi;
    assert a == st.pd[i].wi && wl[a] == st.ws[a] && wl[a].nw.Some?;
    if pg.noCorner {
      assert [] + Nw(wl[a]) == Nw(wl[a]);
      return;
    }
    var k := FirstCorner(pg, pd[i].brg);
    var l := FirstCorner(pg, pd[j % pd.Length].brg);
    if l < k || j >= pd.Length {
      l := l + NUM_CO;
    }
    AddCorners(wl, pg, a, k, l);
  }

  method UpdateEnds(pd: array<EndPoint>, i: nat, b: nat, cnt: nat)
    requires i < pd.Length && cnt >= 1
    modifies pd
    ensures pd[..] == MergedEnds(old(pd[..]), i, b, cnt)
  {
    var e := FindPdef(pd, pd[i].wi, true);
    if e < pd.Length {
      pd[e] := pd[e].(pn := cnt - 1);
    }
    var s := FindPdef(pd, b, false);
    if s < pd.Length {
      pd[i] := pd[i].(brg := pd[s].brg);
    }
  }

  method CloseWay(wl: array<Poly>, a: nat, ghost ws: seq<Poly>, ghost bridge: seq<int>)
    requires a < wl.Length && |ws| == wl.Length && Nw(ws[a]) != []
    requires wl[..] == Bridged(ws, a, bridge)
    modifies wl
    ensures wl[..] == Closed(State(ws, []), a, bridge).ws
  {
    var ref := Nw(wl[a]);
    wl[a] := wl[a].(nw := Some(ref + [ref[0]]), open := false);
  }

  method PrependWay(wl: array<Poly>, a: nat, b: nat, ghost ws: seq<Poly>, ghost bridge: seq<int>) returns (cnt: nat)
    requires a < wl.Length && b < wl.Length && a != b && |ws| == wl.Length && Nw(ws[b]) != []
    requires wl[..] == Bridged(ws, a, bridge)
    modifies wl
    ensures wl[..] == MergedWays(ws, a, b, bridge) && cnt == |Nw(wl[a])| && cnt >= 1
  {
    var ref := Nw(wl[b]) + Nw(wl[a]);
    wl[a] := wl[a].(nw := Some(ref));
    wl[b] := wl[b].(open := false);
    cnt := |ref|;
  }

  /** What the body of the loop does at position i. */
  lemma PassStep(pg: Page, st: State, i: nat)
    requires pg.Valid() && InList(st) && HasNodes(st.ws) && i < |st.pd|
    ensures !OpenStart(st, i) || FirstEnd(st, i, i + 1) == i + |st.pd| ==> Pass(pg, st, i) == Pass(pg, st, i + 1)
    ensures var j := FirstEnd(st, i, i + 1);
      OpenStart(st, i) && j != i + |st.pd| ==>
        var a, b := st.pd[i].wi, st.pd[j % |st.pd|].wi;
        var bridge := Bridge(pg, st.pd, i, j);
        && a < |st.ws| && b < |st.ws| && Nw(st.ws[a]) != [] && Nw(st.ws[b]) != []
        && (a == b ==>
              var st' := Closed(st, a, bridge);
              var r := Pass(pg, st', i + 1);
              InList(st') && HasNodes(st'.ws) && Pass(pg, st, i) == (r.0, r.1 + 1))
        && (a != b ==> Pass(pg, st, i) == (Merged(st, i, b, bridge), 1))
  {
  }

  /** One pass over the sorted end points.  Returns the number of ways that were connected. */
  method ConnectOpen(pd: array<EndPoint>, wl: array<Poly>, pg: Page) returns (cnt: nat)
    requires pg.Valid() && InList(State(wl[..], pd[..])) && HasNodes(wl[..])
    modifies pd, wl
    ensures (State(wl[..], pd[..]), cnt) == Pass(pg, old(State(wl[..], pd[..])), 0)
  {
    hide *;
    var ocnt := pd.Length;
    ghost var st := State(wl[..], pd[..]);
    ghost var result := Pass(pg, st, 0);
    ghost var p := result;
    cnt := 0;
    for i := 0 to ocnt
      invariant pg.Valid() && wl[..] == st.ws && pd[..] == st.pd && InList(st) && HasNodes(st.ws)
      invariant p == Pass(pg, st, i) && result == (p.0, p.1 + cnt)
    {
      PassStep(pg, st, i);
      HoldsNow(wl, pd, st);
      OpenStartNow(wl, pd, st, i);
      if pd[i].pn != 0 || !wl[pd[i].wi].open {
        continue;
      }
      var j := FindEnd(pd, wl, i, st);
      if j == i + ocnt {
        continue;
      }
      var a, b := pd[i].wi, pd[j % ocnt].wi;
      ghost var bridge := Bridge(pg, st.pd, i, j);
      InsertCorners(pd, wl, pg, i, j, st);
      cnt := cnt + 1;
      if a == b {
        CloseWay(wl, a, st.ws, bridge);
        st := ClosedState(st, a, bridge);
        p := Pass(pg, st, i + 1);
      } else {
        var n := PrependWay(wl, a, b, st.ws, bridge);
        UpdateEnds(pd, i, b, n);
        MergedState(st, i, b, bridge, wl[..], pd[..]);
        return;
      }
    }
    PassDone(pg, st);
  }

  lemma HoldsNow(wl: array<Poly>, pd: array<EndPoint>, st: State)
    requires wl[..] == st.ws && pd[..] == st.pd && InList(st) && HasNodes(st.ws)
    ensures Holds(wl, pd, st)
  {
  }

  lemma OpenStartNow(wl: array<Poly>, pd: array<EndPoint>, st: State, i: nat)
    requires Holds(wl, pd, st) && InList(st) && i < pd.Length && |st.pd| == pd.Length
    ensures forall k :: 0 <= k < pd.Length ==> pd[k].wi < wl.Length
    ensures OpenStart(st, i) <==> pd[i].pn == 0 && wl[pd[i].wi].open
  {
  }

  lemma ClosedState(st: State, a: nat, bridge: seq<int>) returns (st': State)
    requires InList(st) && HasNodes(st.ws) && a < |st.ws|
    ensures st' == Closed(st, a, bridge) && st'.ws == Closed(State(st.ws, []), a, bridge).ws && st'.pd == st.pd
    ensures InList(st') && HasNodes(st'.ws)
  {
    st' := Closed(st, a, bridge);
  }

  lemma MergedState(st: State, i: nat, b: nat, bridge: seq<int>, ws: seq<Poly>, pd: seq<EndPoint>)
    requires InList(st) && i < |st.pd| && b < |st.ws| && b != st.pd[i].wi && st.pd[i].wi < |st.ws| && Nw(st.ws[b]) != []
    requires ws == MergedWays(st.ws, st.pd[i].wi, b, bridge) && Nw(ws[st.pd[i].wi]) != []
    requires pd == MergedEnds(st.pd, i, b, |Nw(ws[st.pd[i].wi])|)
    ensures State(ws, pd) == Merged(st, i, b, bridge)
  {
  }

  lemma PassDone(pg: Page, st: State)
    requires pg.Valid() && InList(st) && HasNodes(st.ws)
    ensures Pass(pg, st, |st.pd|) == (st, 0)
  {
  }
}
