/**
 * What connecting the open ways achieves: the second half of cat_poly_fini()
 * in src/smcoast.c.
 */
module CoastClosing {
  import opened Common
  import opened CoastLink
  import opened CoastConnect
  import Sorting

  ghost function OpenSet(ws: seq<Poly>): set<nat> {
    set m | m in Iota(|ws|) && ws[m].open
  }

  lemma OpenSetMember(ws: seq<Poly>, m: nat)
    ensures m in OpenSet(ws) <==> m < |ws| && ws[m].open
  {
    assert m < |ws| ==> Iota(|ws|)[m] == m;
  }

  // ----- the list of end points mirrors the open ways -----

  ghost predicate IsEntry(pd: seq<EndPoint>, k: int, m: nat, end: bool) {
    0 <= k < |pd| && pd[k].wi == m && (pd[k].pn != 0) == end
  }

  ghost predicate ExactlyOne(pd: seq<EndPoint>, m: nat, end: bool) {
    exists k :: IsEntry(pd, k, m, end) && forall l :: IsEntry(pd, l, m, end) ==> l == k
  }

  /** An entry tells the position and the bearing of the end of its way. */
  ghost predicate Accurate(w: seq<int>, e: EndPoint, brg: int -> real) {
    && |w| >= 2
    && (e.pn == 0 ==> e.brg == brg(w[0]))
    && (e.pn != 0 ==> e.pn == |w| - 1 && e.brg == brg(w[|w| - 1]))
  }

  /** The listed open ways have exactly one start and one end entry, both accurate; other ways have no entry. */
  ghost predicate Mirror(st: State, listed: set<nat>, brg: int -> real) {
    && InList(st)
    && (forall m :: 0 <= m < |st.ws| && st.ws[m].open ==> |Nw(st.ws[m])| >= 2)
    && (forall k :: 0 <= k < |st.pd| ==> st.pd[k].wi in listed)
    && (forall k :: 0 <= k < |st.pd| && st.ws[st.pd[k].wi].open ==> Accurate(Nw(st.ws[st.pd[k].wi]), st.pd[k], brg))
    && forall m :: 0 <= m < |st.ws| && st.ws[m].open && m in listed ==> Both(st.pd, m)
  }

  ghost predicate Both(pd: seq<EndPoint>, m: nat) {
    ExactlyOne(pd, m, false) && ExactlyOne(pd, m, true)
  }

  /** Closing way a. */
  lemma ClosedMirror(st: State, listed: set<nat>, brg: int -> real, a: nat, bridge: seq<int>)
    requires Mirror(st, listed, brg) && a < |st.ws| && st.ws[a].open
    ensures Mirror(Closed(st, a, bridge), listed, brg)
    ensures OpenSet(Closed(st, a, bridge).ws) == OpenSet(st.ws) - {a}
  {
    var st' := Closed(st, a, bridge);
    forall m ensures m in OpenSet(st'.ws) <==> m in OpenSet(st.ws) - {a} {
      if m >= 0 {
        OpenSetMember(st.ws, m);
        OpenSetMember(st'.ws, m);
      }
    }
  }

  /** Two lists whose entries agree in way and kind. */
  ghost predicate SameKinds(p: seq<EndPoint>, q: seq<EndPoint>) {
    |p| == |q| && forall k :: 0 <= k < |p| ==> p[k].wi == q[k].wi && (p[k].pn != 0) == (q[k].pn != 0)
  }

  lemma SameKindsBoth(p: seq<EndPoint>, q: seq<EndPoint>, m: nat)
    requires SameKinds(p, q) && Both(p, m)
    ensures Both(q, m)
  {
    var k :| IsEntry(p, k, m, false) && forall l :: IsEntry(p, l, m, false) ==> l == k;
    assert IsEntry(q, k, m, false);
    forall l | IsEntry(q, l, m, false) ensures l == k {
      assert IsEntry(p, l, m, false);
    }
    var e :| IsEntry(p, e, m, true) && forall l :: IsEntry(p, l, m, true) ==> l == e;
    assert IsEntry(q, e, m, true);
    forall l | IsEntry(q, l, m, true) ensures l == e {
      assert IsEntry(p, l, m, true);
    }
  }

  /** With one start and one end entry per way the searches of connect_open() find them. */
  lemma EntryFound(pd: seq<EndPoint>, m: nat, end: bool)
    requires Both(pd, m)
    ensures FindEntry(pd, m, end, 0) < |pd|
    ensures forall k :: IsEntry(pd, k, m, end) ==> k == FindEntry(pd, m, end, 0)
  {
    assert ExactlyOne(pd, m, end);
    var k :| IsEntry(pd, k, m, end) && forall l :: IsEntry(pd, l, m, end) ==> l == k;
    var f := FindEntry(pd, m, end, 0);
    assert f < |pd| ==> IsEntry(pd, f, m, end);
  }

  lemma MergedEndsFacts(pd: seq<EndPoint>, i: nat, b: nat, cnt: nat)
    requires i < |pd| && pd[i].pn == 0 && pd[i].wi != b && cnt >= 2
    requires Both(pd, pd[i].wi) && Both(pd, b)
    ensures var q := MergedEnds(pd, i, b, cnt);
      var e := FindEntry(pd, pd[i].wi, true, 0);
      var s := FindEntry(pd, b, false, 0);
      && SameKinds(pd, q) && e < |pd| && s < |pd| && e != i
      && q == pd[e := pd[e].(pn := cnt - 1)][i := pd[i].(brg := pd[s].brg)]
  {
    var a := pd[i].wi;
    EntryFound(pd, a, true);
    EntryFound(pd, b, false);
    var e := FindEntry(pd, a, true, 0);
    var pd1 := pd[e := pd[e].(pn := cnt - 1)];
    assert SameKinds(pd, pd1);
    SameKindsBoth(pd, pd1, b);
    EntryFound(pd1, b, false);
    assert IsEntry(pd1, FindEntry(pd, b, false, 0), b, false);
  }

  lemma MergedOpen(ws: seq<Poly>, a: nat, b: nat, bridge: seq<int>)
    requires a < |ws| && b < |ws| && a != b
    ensures OpenSet(MergedWays(ws, a, b, bridge)) == OpenSet(ws) - {b}
  {
    var ws' := MergedWays(ws, a, b, bridge);
    forall m: nat ensures m in OpenSet(ws') <==> m in OpenSet(ws) - {b} {
      OpenSetMember(ws, m);
      OpenSetMember(ws', m);
    }
  }

  lemma AccurateStart(wa: seq<int>, wb: seq<int>, bridge: seq<int>, a: nat, e: EndPoint, brg: int -> real)
    requires |wa| >= 2 && Accurate(wb, e, brg) && e.pn == 0
    ensures Accurate(wb + (bridge + wa), EndPoint(a, 0, e.brg), brg)
  {
  }

  lemma AccurateEnd(wa: seq<int>, wb: seq<int>, bridge: seq<int>, e: EndPoint, brg: int -> real)
    requires Accurate(wa, e, brg) && e.pn != 0
    ensures var w := wb + (bridge + wa); Accurate(w, e.(pn := |w| - 1), brg)
  {
    var w := wb + (bridge + wa);
    assert w[|w| - 1] == wa[|wa| - 1];
  }

  /** What becomes of entry k when way b is merged in front of the way of entry i. */
  lemma MergedEntry(pd: seq<EndPoint>, i: nat, b: nat, cnt: nat, k: nat)
    requires i < |pd| && pd[i].pn == 0 && pd[i].wi != b && cnt >= 2
    requires Both(pd, pd[i].wi) && Both(pd, b) && k < |pd|
    ensures var q := MergedEnds(pd, i, b, cnt);
      && SameKinds(pd, q)
      && (pd[k].wi != pd[i].wi ==> q[k] == pd[k])
      && (pd[k].wi == pd[i].wi && pd[k].pn != 0 ==> q[k] == pd[k].(pn := cnt - 1))
      && (pd[k].wi == pd[i].wi && pd[k].pn == 0 ==>
            k == i && var s := FindEntry(pd, b, false, 0); s < |pd| && q[k] == EndPoint(pd[i].wi, 0, pd[s].brg))
  {
    MergedEndsFacts(pd, i, b, cnt);
    EntryFound(pd, pd[i].wi, true);
    EntryFound(pd, pd[i].wi, false);
    assert IsEntry(pd, i, pd[i].wi, false);
    assert IsEntry(pd, k, pd[k].wi, pd[k].pn != 0);
  }

  /** The entries of a way other than the merged one are as accurate as before. */
  lemma MergedAccurate(st: State, listed: set<nat>, brg: int -> real, i: nat, b: nat, bridge: seq<int>, k: nat)
    requires Mirror(st, listed, brg) && i < |st.pd| && OpenStart(st, i)
    requires b < |st.ws| && st.ws[b].open && b in listed && b != st.pd[i].wi
    requires k < |st.pd| && st.pd[k].wi != b && st.ws[st.pd[k].wi].open
    ensures var st' := Merged(st, i, b, bridge);
      && SameKinds(st.pd, st'.pd)
      && Accurate(Nw(st'.ws[st.pd[k].wi]), st'.pd[k], brg)
  {
    var a := st.pd[i].wi;
    var wa, wb := Nw(st.ws[a]), Nw(st.ws[b]);
    var w := wb + (bridge + wa);
    var st' := Merged(st, i, b, bridge);
    assert Nw(st'.ws[a]) == w && st'.pd == MergedEnds(st.pd, i, b, |w|);
    assert Both(st.pd, a) && Both(st.pd, b);
    MergedEntry(st.pd, i, b, |w|, k);
    assert Accurate(Nw(st.ws[st.pd[k].wi]), st.pd[k], brg);
    if st.pd[k].wi == a {
      if st.pd[k].pn != 0 {
        AccurateEnd(wa, wb, bridge, st.pd[k], brg);
      } else {
        var s := FindEntry(st.pd, b, false, 0);
        assert Accurate(wb, st.pd[s], brg);
        AccurateStart(wa, wb, bridge, a, st.pd[s], brg);
      }
    }
  }

  /** Merging way b in front of way a. */
  lemma MergedMirror(st: State, listed: set<nat>, brg: int -> real, i: nat, b: nat, bridge: seq<int>)
    requires Mirror(st, listed, brg) && i < |st.pd| && OpenStart(st, i)
    requires b < |st.ws| && st.ws[b].open && b in listed && b != st.pd[i].wi
    ensures Mirror(Merged(st, i, b, bridge), listed, brg)
    ensures OpenSet(Merged(st, i, b, bridge).ws) == OpenSet(st.ws) - {b}
  {
    hide Accurate, Both, MergedEnds, OpenSet;
    var a := st.pd[i].wi;
    var st' := Merged(st, i, b, bridge);
    MergedOpen(st.ws, a, b, bridge);
    MergedAccurate(st, listed, brg, i, b, bridge, i);
    forall m | 0 <= m < |st'.ws| && st'.ws[m].open && m in listed ensures Both(st'.pd, m) {
      SameKindsBoth(st.pd, st'.pd, m);
    }
    forall k | 0 <= k < |st'.pd| && st'.ws[st'.pd[k].wi].open
      ensures Accurate(Nw(st'.ws[st'.pd[k].wi]), st'.pd[k], brg)
    {
      MergedAccurate(st, listed, brg, i, b, bridge, k);
    }
  }

  // ----- a pass keeps the mirror, removes open ways and makes progress -----

  /** A pass keeps the list accurate; each connection it counts takes one way off the open ones. */
  lemma {:induction false} PassKeepsMirror(pg: Page, st: State, i: nat, listed: set<nat>, brg: int -> real)
    requires pg.Valid() && Mirror(st, listed, brg) && HasNodes(st.ws) && i <= |st.pd|
    ensures var (st', cnt) := Pass(pg, st, i);
      && Mirror(st', listed, brg)
      && |st'.ws| == |st.ws| && |st'.pd| == |st.pd|
      && OpenSet(st'.ws) <= OpenSet(st.ws) && OpenSet(st'.ws) - listed == OpenSet(st.ws) - listed
      && |OpenSet(st'.ws)| + cnt == |OpenSet(st.ws)|
      && (cnt == 0 ==> st' == st)
    decreases |st.pd| - i
  {
    hide Accurate, Both, Mirror, OpenSet, Closed, Merged, Bridge, FirstEnd;
    MirrorFacts(st, listed, brg);
    if i < |st.pd| {
      PassStep(pg, st, i);
      if OpenStart(st, i) && FirstEnd(st, i, i + 1) != i + |st.pd| {
        var j := FirstEnd(st, i, i + 1);
        var a, b := st.pd[i].wi, st.pd[j % |st.pd|].wi;
        var bridge := Bridge(pg, st.pd, i, j);
        FoundEnd(st, i, j);
        OpenSetMember(st.ws, a);
        OpenSetMember(st.ws, b);
        if a == b {
          var st' := Closed(st, a, bridge);
          ClosedMirror(st, listed, brg, a, bridge);
          ClosedShape(st, a, bridge);
          PassKeepsMirror(pg, st', i + 1, listed, brg);
        } else {
          MergedMirror(st, listed, brg, i, b, bridge);
          MergedShape(st, i, b, bridge);
        }
      } else {
        PassKeepsMirror(pg, st, i + 1, listed, brg);
      }
    }
  }

  lemma MirrorFacts(st: State, listed: set<nat>, brg: int -> real)
    requires Mirror(st, listed, brg)
    ensures InList(st) && HasNodes(st.ws)
    ensures forall k :: 0 <= k < |st.pd| ==> st.pd[k].wi in listed
  {
  }

  lemma FoundEnd(st: State, i: nat, j: nat)
    requires InList(st) && i < |st.pd| && j == FirstEnd(st, i, i + 1) && j != i + |st.pd|
    ensures OpenEnd(st, j % |st.pd|)
  {
  }

  lemma ClosedShape(st: State, a: nat, bridge: seq<int>)
    requires a < |st.ws|
    ensures Closed(st, a, bridge).pd == st.pd && |Closed(st, a, bridge).ws| == |st.ws|
  {
  }

  lemma MergedShape(st: State, i: nat, b: nat, bridge: seq<int>)
    requires InList(st) && i < |st.pd| && b < |st.ws| && b != st.pd[i].wi && Nw(st.ws[b]) != []
    ensures |Merged(st, i, b, bridge).pd| == |st.pd| && |Merged(st, i, b, bridge).ws| == |st.ws|
  {
  }

  /** A pass that comes to an open start point connects at least one way. */
  lemma {:induction false} PassConnects(pg: Page, st: State, i: nat, k: nat, e: nat)
    requires pg.Valid() && InList(st) && HasNodes(st.ws) && i <= k < |st.pd| && e < |st.pd|
    requires OpenStart(st, k) && OpenEnd(st, e)
    ensures Pass(pg, st, i).1 > 0
    decreases k - i
  {
    hide Pass, InList, Merged, FirstEnd;
    var n := |st.pd|;
    PassStep(pg, st, i);
    if i == k {
      var m := if e > k then e else e + n;
      assert m % n == e by {
        ModOnce(e, n);
      }
      assert k < m < k + n;
    } else if !OpenStart(st, i) || FirstEnd(st, i, i + 1) == i + n {
      PassConnects(pg, st, i + 1, k, e);
    }
  }

  lemma ModOnce(e: nat, n: nat)
    requires e < n
    ensures e % n == e && (e + n) % n == e
  {
  }

  /** A listed open way lets a pass connect something. */
  lemma ListedConnects(pg: Page, st: State, listed: set<nat>, brg: int -> real, m: nat)
    requires pg.Valid() && Mirror(st, listed, brg) && HasNodes(st.ws)
    requires m < |st.ws| && st.ws[m].open && m in listed
    ensures Pass(pg, st, 0).1 > 0
  {
    hide Pass, HasNodes;
    assert Both(st.pd, m);
    var k :| IsEntry(st.pd, k, m, false) && forall l :: IsEntry(st.pd, l, m, false) ==> l == k;
    var e :| IsEntry(st.pd, e, m, true) && forall l :: IsEntry(st.pd, l, m, true) ==> l == e;
    PassConnects(pg, st, 0, k, e);
  }

  /** A pass connects nothing iff no listed way is open. */
  lemma PassProgress(pg: Page, st: State, listed: set<nat>, brg: int -> real)
    requires pg.Valid() && Mirror(st, listed, brg) && InList(st) && HasNodes(st.ws)
    ensures Pass(pg, st, 0).1 == 0 <==> OpenSet(st.ws) * listed == {}
  {
    hide *;
    PassKeepsMirror(pg, st, 0, listed, brg);
    if OpenSet(st.ws) * listed != {} {
      var m :| m in OpenSet(st.ws) * listed;
      OpenSetMember(st.ws, m);
      ListedConnects(pg, st, listed, brg, m);
    } else {
      var o, o' := OpenSet(st.ws), OpenSet(Pass(pg, st, 0).0.ws);
      forall x | x in o ensures x !in listed {
        assert x !in o * listed;
      }
      assert o == o - listed;
      forall x | x in o ensures x in o' {
        assert x in o' - listed;
      }
      assert o == o';
    }
  }

  // ----- the number of corners per connection -----

  predicate BrgLe(a: EndPoint, b: EndPoint) {
    a.brg <= b.brg
  }

  /** On a list sorted by bearing a connection inserts at most one round of corners. */
  lemma BridgeBound(pg: Page, pd: seq<EndPoint>, i: nat, j: nat)
    requires pg.Valid() && Sorting.SortedBy(BrgLe, pd) && i < |pd| && i < j < i + |pd|
    ensures |Bridge(pg, pd, i, j)| <= NUM_CO
    ensures forall m :: 0 <= m < |Bridge(pg, pd, i, j)| ==>
      exists c :: 0 <= c < NUM_CO && Bridge(pg, pd, i, j)[m] == pg.co[c].id
    ensures pg.noCorner ==> Bridge(pg, pd, i, j) == []
  {
    if j < |pd| {
      ModOnce(j, |pd|);
      assert BrgLe(pd[i], pd[j]);
      NextCornerMono(pg.co, pd[i].brg, pd[j].brg);
    } else {
      ModOnce(j - |pd|, |pd|);
      assert BrgLe(pd[j - |pd|], pd[i]);
      NextCornerMono(pg.co, pd[j - |pd|].brg, pd[i].brg);
    }
  }

  // ----- where the original open ways end up -----

  /** One of the trimmed open ways, and the corners that have been put in front of it. */
  datatype Leg = Leg(bridge: seq<int>, way: nat)

  /** The page, the ways as they are before any of them are connected, and the bearings of their nodes. */
  datatype Shore = Shore(pg: Page, rs: seq<Poly>, brg: int -> real) {
    function Nodes(l: Leg): seq<int> {
      if l.way < |rs| then Nw(rs[l.way]) else []
    }

    ghost predicate IsLeg(l: Leg) {
      l.way < |rs| && rs[l.way].open && |Nodes(l)| >= 2
    }
  }

  function Flat(s: Shore, ls: seq<Leg>): seq<int> {
    if ls == [] then [] else ls[0].bridge + s.Nodes(ls[0]) + Flat(s, ls[1..])
  }

  lemma {:induction false} FlatConcat(s: Shore, p: seq<Leg>, q: seq<Leg>)
    ensures Flat(s, p + q) == Flat(s, p) + Flat(s, q)
  {
    hide Shore.Nodes;
    if p == [] {
      assert p + q == q;
    } else {
      FlatConcat(s, p[1..], q);
      assert (p + q)[1..] == p[1..] + q;
      SeqAssoc(p[0].bridge + s.Nodes(p[0]), Flat(s, p[1..]), Flat(s, q));
    }
  }

  /** The way of each leg is a contiguous stretch of the whole. */
  lemma {:induction false} LegIsSlice(s: Shore, ls: seq<Leg>, k: nat) returns (at: nat)
    requires k < |ls|
    ensures var w := s.Nodes(ls[k]); at + |w| <= |Flat(s, ls)| && Flat(s, ls)[at..at + |w|] == w
  {
    hide Shore.Nodes;
    var w := s.Nodes(ls[k]);
    if k == 0 {
      at := |ls[0].bridge|;
      SeqAssoc(ls[0].bridge, w, Flat(s, ls[1..]));
      Middle(Flat(s, ls), ls[0].bridge, w, Flat(s, ls[1..]));
    } else {
      var c := ls[0].bridge + s.Nodes(ls[0]);
      at := LegIsSlice(s, ls[1..], k - 1);
      SliceBehind(c, Flat(s, ls[1..]), at, |w|);
      at := |c| + at;
    }
  }

  lemma SliceBehind<T>(a: seq<T>, b: seq<T>, at: nat, n: nat)
    requires at + n <= |b|
    ensures (a + b)[|a| + at..|a| + at + n] == b[at..at + n]
  {
  }

  /** With corners in front of the first leg. */
  lemma FlatFront(s: Shore, ls: seq<Leg>, ids: seq<int>)
    requires ls != [] && ls[0].bridge == []
    ensures Flat(s, ls[0 := Leg(ids, ls[0].way)]) == ids + Flat(s, ls)
  {
    assert [] + s.Nodes(ls[0]) == s.Nodes(ls[0]);
    SeqAssoc(ids, s.Nodes(ls[0]), Flat(s, ls[1..]));
  }

  lemma {:induction false} FlatLast(s: Shore, ls: seq<Leg>)
    requires ls != [] && |s.Nodes(ls[|ls| - 1])| >= 2
    ensures Flat(s, ls) != [] && Flat(s, ls)[|Flat(s, ls)| - 1] == LastOf(s, ls[|ls| - 1])
  {
    hide Shore.Nodes;
    if |ls| > 1 {
      FlatLast(s, ls[1..]);
    }
  }

  function LastOf(s: Shore, l: Leg): int {
    if |s.Nodes(l)| == 0 then NULL else s.Nodes(l)[|s.Nodes(l)| - 1]
  }

  function FirstOf(s: Shore, l: Leg): int {
    if |s.Nodes(l)| == 0 then NULL else s.Nodes(l)[0]
  }

  /**
   * On the way clockwise around the page from bearing b to bearing e these are the corners, the last
   * one first. If both are the same it is no way at all or once around.
   */
  ghost predicate Bordered(pg: Page, b: real, e: real, ids: seq<int>) {
    var co := Reaching(pg.co);
    if pg.noCorner then ids == []
    else
      || (b <= e && ids == Reversed(Clockwise(co, b, e, false)))
      || (e <= b && ids == Reversed(Clockwise(co, b, e, true)))
  }

  /** On a sorted list a connection inserts the corners on the way from the start to the end. */
  lemma BridgeBorders(pg: Page, pd: seq<EndPoint>, i: nat, j: nat)
    requires pg.Valid() && Sorting.SortedBy(BrgLe, pd) && i < |pd| && i < j < i + |pd|
    ensures Bordered(pg, pd[i].brg, pd[j % |pd|].brg, Bridge(pg, pd, i, j))
  {
    hide Clockwise, Reaching;
    forall x, y | 0 <= x < y < |pd| ensures pd[x].brg <= pd[y].brg {
      assert BrgLe(pd[x], pd[y]);
    }
    ModOnce(if j < |pd| then j else j - |pd|, |pd|);
    if !pg.noCorner {
      BridgeIsBetween(pg, pd, i, j);
    }
  }

  /** Leg q comes after leg p: in front of it are the corners from its start on to the end of p. */
  ghost predicate Joint(s: Shore, p: Leg, q: Leg) {
    Bordered(s.pg, s.brg(FirstOf(s, q)), s.brg(LastOf(s, p)), q.bridge)
  }

  ghost predicate Course(s: Shore, ls: seq<Leg>) {
    (forall k :: 0 <= k < |ls| ==> s.IsLeg(ls[k])) && forall k :: 0 < k < |ls| ==> Joint(s, ls[k - 1], ls[k])
  }

  /** The course with other corners in front. */
  lemma CourseFront(s: Shore, ls: seq<Leg>, ids: seq<int>)
    requires ls != [] && Course(s, ls)
    ensures var r := ls[0 := Leg(ids, ls[0].way)];
      && Course(s, r) && WaysOf(r) == WaysOf(ls)
      && FirstOf(s, r[0]) == FirstOf(s, ls[0]) && LastOf(s, r[|r| - 1]) == LastOf(s, ls[|ls| - 1])
  {
    hide Bordered;
    hide Joint, WaysOf, Shore.IsLeg;
    var r := ls[0 := Leg(ids, ls[0].way)];
    WaysFront(ls, ids);
    forall k | 0 <= k < |r| ensures s.IsLeg(r[k]) {
      SameLeg(s, ls[k], r[k]);
      assert s.IsLeg(ls[k]);
    }
    forall k | 0 < k < |r| ensures Joint(s, r[k - 1], r[k]) {
      SameJoint(s, ls[k - 1], r[k - 1], ls[k]);
      assert Joint(s, ls[k - 1], ls[k]);
    }
  }

  lemma WaysFront(ls: seq<Leg>, ids: seq<int>)
    requires ls != []
    ensures WaysOf(ls[0 := Leg(ids, ls[0].way)]) == WaysOf(ls)
  {
    assert ls[0 := Leg(ids, ls[0].way)][1..] == ls[1..];
  }

  lemma SameLeg(s: Shore, p: Leg, q: Leg)
    requires p.way == q.way
    ensures s.IsLeg(p) <==> s.IsLeg(q)
    ensures FirstOf(s, p) == FirstOf(s, q) && LastOf(s, p) == LastOf(s, q)
  {
  }

  lemma SameJoint(s: Shore, p: Leg, p': Leg, q: Leg)
    requires p.way == p'.way
    ensures Joint(s, p, q) <==> Joint(s, p', q)
  {
  }

  lemma CourseConcat(s: Shore, p: seq<Leg>, q: seq<Leg>)
    requires p != [] && q != [] && Course(s, p) && Course(s, q) && Joint(s, p[|p| - 1], q[0])
    ensures Course(s, p + q)
  {
    hide Joint, Shore.IsLeg;
    var r := p + q;
    forall k | 0 < k < |r| ensures Joint(s, r[k - 1], r[k]) {
      assert k > |p| ==> r[k - 1] == q[k - |p| - 1] && r[k] == q[k - |p|];
      assert k > |p| ==> Joint(s, q[k - |p| - 1], q[k - |p|]);
    }
  }

  function WaysOf(ls: seq<Leg>): multiset<nat> {
    if ls == [] then multiset{} else multiset{ls[0].way} + WaysOf(ls[1..])
  }

  lemma {:induction false} WaysConcat(p: seq<Leg>, q: seq<Leg>)
    ensures WaysOf(p + q) == WaysOf(p) + WaysOf(q)
  {
    hide WaysOf;
    if p == [] {
      assert p + q == q;
      NoWays();
    } else {
      WaysConcat(p[1..], q);
      assert (p + q)[1..] == p[1..] + q;
      FirstWay(p);
      FirstWay(p + q);
      MsAssoc(multiset{p[0].way}, WaysOf(p[1..]), WaysOf(q));
    }
  }

  lemma FirstWay(ls: seq<Leg>)
    requires ls != []
    ensures WaysOf(ls) == multiset{ls[0].way} + WaysOf(ls[1..])
  {
  }

  /** The ways in the legs of the first k ways together. */
  function AllWays(legs: seq<seq<Leg>>, k: nat): multiset<nat>
    requires k <= |legs|
  {
    if k == 0 then multiset{} else AllWays(legs, k - 1) + WaysOf(legs[k - 1])
  }

  lemma {:induction false} AllWaysUpdate(legs: seq<seq<Leg>>, m: nat, ls: seq<Leg>, k: nat)
    requires m < |legs| && k <= |legs|
    ensures if m < k then AllWays(legs[m := ls], k) + WaysOf(legs[m]) == AllWays(legs, k) + WaysOf(ls)
            else AllWays(legs[m := ls], k) == AllWays(legs, k)
  {
    hide WaysOf;
    if k > 0 {
      AllWaysUpdate(legs, m, ls, k - 1);
      var a, b := AllWays(legs[m := ls], k - 1), AllWays(legs, k - 1);
      if m < k - 1 {
        MsSwapLast(a, WaysOf(legs[m]), b, WaysOf(ls), WaysOf(legs[k - 1]));
      }
    }
  }

  lemma {:induction false} WaysInAll(legs: seq<seq<Leg>>, m: nat, k: nat)
    requires m < k <= |legs|
    ensures WaysOf(legs[m]) <= AllWays(legs, k)
  {
    hide WaysOf;
    if m < k - 1 {
      WaysInAll(legs, m, k - 1);
    }
  }

  /**
   * Way p, which was r in the beginning, is made of the legs ls. Without legs it has either not been
   * open from the beginning, or has become part of another way and keeps the nodes it had by then.
   */
  ghost predicate WovenWay(s: Shore, r: Poly, p: Poly, ls: seq<Leg>) {
    && p == r.(nw := p.nw, open := p.open)
    && if p.open then OpenCourse(s, p, ls)
       else if ls != [] then Ring(s, p, ls)
       else if r.open then exists qs :: OpenCourse(s, p, qs)
       else p == r
  }

  /** Still open: no corners in front of the first leg. */
  ghost predicate OpenCourse(s: Shore, p: Poly, ls: seq<Leg>) {
    Course(s, ls) && ls != [] && ls[0].bridge == [] && p.nw == Some(Flat(s, ls))
  }

  /** Closed to a ring: the last leg is followed by the first one, and the first node is repeated at the end. */
  ghost predicate Ring(s: Shore, p: Poly, ls: seq<Leg>) {
    && Course(s, ls) && ls != [] && Joint(s, ls[|ls| - 1], ls[0])
    && Flat(s, ls) != [] && p.nw == Some(Flat(s, ls) + [Flat(s, ls)[0]])
  }

  /** Every way is woven from its legs, and in the legs of all ways each trimmed open way is found once. */
  ghost predicate Woven(s: Shore, ws: seq<Poly>, legs: seq<seq<Leg>>) {
    && |legs| == |ws| == |s.rs|
    && (forall m :: 0 <= m < |ws| ==> WovenWay(s, s.rs[m], ws[m], legs[m]) && (ws[m].open ==> s.rs[m].open))
    && AllWays(legs, |legs|) == multiset(OpenList(s.rs, |s.rs|))
  }

  /** The first and the last node of a way that is still open. */
  lemma OpenEnds(s: Shore, p: Poly, ls: seq<Leg>)
    requires OpenCourse(s, p, ls)
    ensures var w := Nw(p); w != [] && w[0] == FirstOf(s, ls[0]) && w[|w| - 1] == LastOf(s, ls[|ls| - 1])
  {
    assert s.IsLeg(ls[0]) && s.IsLeg(ls[|ls| - 1]);
    FlatLast(s, ls);
  }

  lemma ClosedIsRing(s: Shore, p: Poly, ids: seq<int>, ls: seq<Leg>)
    requires OpenCourse(s, p, ls) && Nw(p) != []
    requires Bordered(s.pg, s.brg(Nw(p)[0]), s.brg(Nw(p)[|Nw(p)| - 1]), ids)
    ensures var r := ids + Nw(p);
      Ring(s, p.(nw := Some(r + [r[0]]), open := false), ls[0 := Leg(ids, ls[0].way)])
  {
    hide Course, Flat, Bordered, FirstOf, LastOf, WaysOf;
    OpenEnds(s, p, ls);
    CourseFront(s, ls, ids);
    FlatFront(s, ls, ids);
  }

  lemma WovenClosed(s: Shore, st: State, a: nat, ids: seq<int>, legs: seq<seq<Leg>>)
    returns (legs': seq<seq<Leg>>)
    requires Woven(s, st.ws, legs) && a < |st.ws| && st.ws[a].open && Nw(st.ws[a]) != []
    requires var w := Nw(st.ws[a]); Bordered(s.pg, s.brg(w[0]), s.brg(w[|w| - 1]), ids)
    ensures Woven(s, Closed(st, a, ids).ws, legs')
  {
    hide Bordered, OpenCourse, Ring, WaysOf, OpenList;
    assert WovenWay(s, s.rs[a], st.ws[a], legs[a]);
    HasLegs(s, st.ws[a], legs[a]);
    var ls := legs[a][0 := Leg(ids, legs[a][0].way)];
    legs' := legs[a := ls];
    AllWaysUpdate(legs, a, ls, |legs|);
    ClosedIsRing(s, st.ws[a], ids, legs[a]);
    CourseFront(s, legs[a], ids);
    MsCancel(AllWays(legs', |legs|), WaysOf(ls), AllWays(legs, |legs|));
    var ws' := Closed(st, a, ids).ws;
    forall m | 0 <= m < |ws'| ensures WovenWay(s, s.rs[m], ws'[m], legs'[m]) {
      assert WovenWay(s, s.rs[m], st.ws[m], legs[m]);
    }
  }

  lemma HasLegs(s: Shore, p: Poly, ls: seq<Leg>)
    requires OpenCourse(s, p, ls)
    ensures ls != [] && Course(s, ls)
  {
  }

  lemma AbsorbedIsWoven(s: Shore, r: Poly, q: Poly, qs: seq<Leg>)
    requires WovenWay(s, r, q, qs) && q.open && r.open
    ensures WovenWay(s, r, q.(open := false), [])
  {
    hide Course, Flat;
    assert OpenCourse(s, q.(open := false), qs);
  }

  lemma MergedIsWoven(s: Shore, p: Poly, q: Poly, ids: seq<int>, ls: seq<Leg>, qs: seq<Leg>)
    requires OpenCourse(s, p, ls) && OpenCourse(s, q, qs) && Nw(p) != [] && Nw(q) != []
    requires Bordered(s.pg, s.brg(Nw(p)[0]), s.brg(Nw(q)[|Nw(q)| - 1]), ids)
    ensures ls != [] && qs != []
    ensures var r := qs + ls[0 := Leg(ids, ls[0].way)];
      OpenCourse(s, p.(nw := Some(Nw(q) + (ids + Nw(p)))), r) && WaysOf(r) == WaysOf(qs) + WaysOf(ls)
  {
    hide Course, Flat, Bordered, FirstOf, LastOf, WaysOf;
    OpenEnds(s, p, ls);
    OpenEnds(s, q, qs);
    CourseFront(s, ls, ids);
    FlatFront(s, ls, ids);
    var b := ls[0 := Leg(ids, ls[0].way)];
    CourseConcat(s, qs, b);
    FlatConcat(s, qs, b);
    WaysConcat(qs, b);
  }

  /** The legs of way b move to way a; the ways in all legs together stay the same. */
  lemma MergedLegs(legs: seq<seq<Leg>>, a: nat, b: nat, r: seq<Leg>)
    requires a < |legs| && b < |legs| && a != b && WaysOf(r) == WaysOf(legs[b]) + WaysOf(legs[a])
    ensures AllWays(legs[a := r][b := []], |legs|) == AllWays(legs, |legs|)
  {
    hide *;
    var n := |legs|;
    var legs1 := legs[a := r];
    var legs2 := legs1[b := []];
    AllWaysUpdate(legs, a, r, n);
    AllWaysUpdate(legs1, b, [], n);
    var all, x, y := AllWays(legs, n), WaysOf(legs[a]), WaysOf(legs[b]);
    NoWays();
    MsAssoc(all, y, x);
    MsCancel(AllWays(legs1, n), x, all + y);
    assert AllWays(legs2, n) + y == all + y + multiset{};
    MsCancel(AllWays(legs2, n), y, all);
  }

  lemma NoWays()
    ensures WaysOf([]) == multiset{}
  {
  }

  lemma WovenMerged(s: Shore, ws: seq<Poly>, a: nat, b: nat, ids: seq<int>, legs: seq<seq<Leg>>)
    returns (legs': seq<seq<Leg>>)
    requires Woven(s, ws, legs) && a < |ws| && ws[a].open && b < |ws| && ws[b].open && a != b
    requires Nw(ws[a]) != [] && Nw(ws[b]) != []
    requires Bordered(s.pg, s.brg(Nw(ws[a])[0]), s.brg(Nw(ws[b])[|Nw(ws[b])| - 1]), ids)
    ensures Woven(s, MergedWays(ws, a, b, ids), legs')
  {
    hide Bordered, OpenCourse, Ring, WaysOf, OpenList, AllWays;
    assert WovenWay(s, s.rs[a], ws[a], legs[a]) && WovenWay(s, s.rs[b], ws[b], legs[b]);
    MergedIsWoven(s, ws[a], ws[b], ids, legs[a], legs[b]);
    var r := legs[b] + legs[a][0 := Leg(ids, legs[a][0].way)];
    legs' := legs[a := r][b := []];
    MergedLegs(legs, a, b, r);
    AbsorbedIsWoven(s, s.rs[b], ws[b], legs[b]);
    var ws' := MergedWays(ws, a, b, ids);
    forall m | 0 <= m < |ws'| ensures WovenWay(s, s.rs[m], ws'[m], legs'[m]) {
      assert WovenWay(s, s.rs[m], ws[m], legs[m]);
    }
  }

  /** A pass keeps every open way or ring woven from the original ways. */
  lemma {:induction false} PassKeepsWoven(s: Shore, st: State, i: nat, listed: set<nat>, legs: seq<seq<Leg>>)
    returns (legs': seq<seq<Leg>>)
    requires s.pg.Valid() && Mirror(st, listed, s.brg) && InList(st) && HasNodes(st.ws) && i <= |st.pd|
    requires Sorting.SortedBy(BrgLe, st.pd) && Woven(s, st.ws, legs)
    ensures Woven(s, Pass(s.pg, st, i).0.ws, legs')
    decreases |st.pd| - i
  {
    hide *;
    legs' := legs;
    if i == |st.pd| {
      PassDone(s.pg, st);
    } else {
      PassStep(s.pg, st, i);
      MirrorFacts(st, listed, s.brg);
      if OpenStart(st, i) && FirstEnd(st, i, i + 1) != i + |st.pd| {
        var j := FirstEnd(st, i, i + 1);
        var a, b := st.pd[i].wi, st.pd[j % |st.pd|].wi;
        var ids := Bridge(s.pg, st.pd, i, j);
        FoundPair(st, listed, s.brg, i, j);
        BridgeBorders(s.pg, st.pd, i, j);
        if a == b {
          var st' := Closed(st, a, ids);
          ClosedMirror(st, listed, s.brg, a, ids);
          ClosedShape(st, a, ids);
          legs' := WovenClosed(s, st, a, ids, legs);
          legs' := PassKeepsWoven(s, st', i + 1, listed, legs');
        } else {
          legs' := WovenMerged(s, st.ws, a, b, ids, legs);
          MergedIsMerge(st, i, b, ids);
        }
      } else {
        legs' := PassKeepsWoven(s, st, i + 1, listed, legs);
      }
    }
  }

  /** The ways of a start and an end that are connected, and the bearings of their ends. */
  lemma FoundPair(st: State, listed: set<nat>, brg: int -> real, i: nat, j: nat)
    requires Mirror(st, listed, brg) && InList(st) && i < |st.pd| && OpenStart(st, i)
    requires j == FirstEnd(st, i, i + 1) && j != i + |st.pd|
    ensures i < j < i + |st.pd|
    ensures var p, q := st.pd[i], st.pd[j % |st.pd|];
      && p.wi < |st.ws| && q.wi < |st.ws| && st.ws[p.wi].open && st.ws[q.wi].open
      && var w, v := Nw(st.ws[p.wi]), Nw(st.ws[q.wi]);
        |w| >= 2 && |v| >= 2 && p.brg == brg(w[0]) && q.brg == brg(v[|v| - 1])
  {
    hide FirstEnd, Both;
    FoundEnd(st, i, j);
    assert Accurate(Nw(st.ws[st.pd[i].wi]), st.pd[i], brg);
    var e := j % |st.pd|;
    assert Accurate(Nw(st.ws[st.pd[e].wi]), st.pd[e], brg);
  }

  lemma MergedIsMerge(st: State, i: nat, b: nat, ids: seq<int>)
    requires InList(st) && i < |st.pd| && b < |st.ws| && b != st.pd[i].wi && Nw(st.ws[b]) != []
    ensures st.pd[i].wi < |st.ws| && Merged(st, i, b, ids).ws == MergedWays(st.ws, st.pd[i].wi, b, ids)
  {
  }

  // ----- collecting the end points of the open ways -----

  /** The open ways among the first k, in list order. */
  ghost function OpenList(ws: seq<Poly>, k: nat): (r: seq<nat>)
    requires k <= |ws|
    ensures Distinct(r) && forall x :: 0 <= x < |r| ==> r[x] < k && ws[r[x]].open
    ensures forall m: nat :: m < k && ws[m].open ==> m in r
  {
    if k == 0 then [] else OpenList(ws, k - 1) + if ws[k - 1].open then [k - 1] else []
  }

  lemma OpenListSet(ws: seq<Poly>)
    ensures Elements(OpenList(ws, |ws|)) == OpenSet(ws)
    ensures |OpenList(ws, |ws|)| == |OpenSet(ws)|
  {
    var l := OpenList(ws, |ws|);
    forall m: nat ensures m in l <==> m in OpenSet(ws) {
      OpenSetMember(ws, m);
    }
    assert Elements(l) == OpenSet(ws);
    DistinctSize(l);
  }

  function StartPoint(ws: seq<Poly>, m: nat, brg: int -> real): EndPoint
    requires m < |ws| && |Nw(ws[m])| >= 2
  {
    EndPoint(m, 0, brg(Nw(ws[m])[0]))
  }

  function LastPoint(ws: seq<Poly>, m: nat, brg: int -> real): EndPoint
    requires m < |ws| && |Nw(ws[m])| >= 2
  {
    EndPoint(m, |Nw(ws[m])| - 1, brg(Nw(ws[m])[|Nw(ws[m])| - 1]))
  }

  ghost predicate OpenLong(ws: seq<Poly>) {
    forall m :: 0 <= m < |ws| && ws[m].open ==> |Nw(ws[m])| >= 2
  }

  /** The first j ways of l are entered, starts in the first half of the list and ends in the second. */
  ghost predicate Entered(ws: seq<Poly>, l: seq<nat>, pd: seq<EndPoint>, ocnt: nat, j: nat, brg: int -> real)
    requires OpenLong(ws) && forall x :: 0 <= x < |l| ==> l[x] < |ws| && ws[l[x]].open
  {
    j <= |l| && j <= ocnt && |pd| == 2 * ocnt &&
    forall x :: 0 <= x < j ==> pd[x] == StartPoint(ws, l[x], brg) && pd[x + ocnt] == LastPoint(ws, l[x], brg)
  }

  method PolyGetBrg(pd: array<EndPoint>, wl: array<Poly>, ocnt: nat, brg: int -> real) returns (j: nat)
    requires OpenLong(wl[..]) && pd.Length == 2 * ocnt && ocnt <= |OpenList(wl[..], wl.Length)|
    modifies pd
    ensures j == ocnt && Entered(wl[..], OpenList(wl[..], wl.Length), pd[..], ocnt, ocnt, brg)
  {
    hide *;
    ghost var ws := wl[..];
    var i := 0;
    j := 0;
    EnterStart(ws, pd[..], ocnt, brg);
    while i < wl.Length && j < ocnt
      invariant i <= wl.Length && wl[..] == ws && OpenLong(ws)
      invariant j == |OpenList(ws, i)| && Entered(ws, OpenList(ws, i), pd[..], ocnt, j, brg)
    {
      EnterNext(ws, i, pd[..], ocnt, j, brg);
      if wl[i].open {
        var w := Nw(wl[i]);
        pd[j] := EndPoint(i, 0, brg(w[0]));
        pd[j + ocnt] := EndPoint(i, |w| - 1, brg(w[|w| - 1]));
        j := j + 1;
        assert wl[..] == ws;
      }
      i := i + 1;
    }
    OpenListPrefix(ws, i);
    EnteredPrefix(ws, OpenList(ws, i), OpenList(ws, |ws|), pd[..], ocnt, j, brg);
  }

  lemma EnterStart(ws: seq<Poly>, pd: seq<EndPoint>, ocnt: nat, brg: int -> real)
    requires OpenLong(ws) && |pd| == 2 * ocnt
    ensures |OpenList(ws, 0)| == 0 && Entered(ws, OpenList(ws, 0), pd, ocnt, 0, brg)
  {
  }

  lemma EnterNext(ws: seq<Poly>, i: nat, pd: seq<EndPoint>, ocnt: nat, j: nat, brg: int -> real)
    requires OpenLong(ws) && i < |ws| && j == |OpenList(ws, i)| < ocnt
    requires Entered(ws, OpenList(ws, i), pd, ocnt, j, brg)
    ensures |pd| == 2 * ocnt
    ensures !ws[i].open ==> OpenList(ws, i + 1) == OpenList(ws, i)
    ensures ws[i].open ==>
      var w := Nw(ws[i]);
      && |w| >= 2 && |OpenList(ws, i + 1)| == j + 1
      && Entered(ws, OpenList(ws, i + 1),
           pd[j := EndPoint(i, 0, brg(w[0]))][j + ocnt := EndPoint(i, |w| - 1, brg(w[|w| - 1]))], ocnt, j + 1, brg)
  {
    if ws[i].open {
      EnterOne(ws, i, pd, pd[j := StartPoint(ws, i, brg)][j + ocnt := LastPoint(ws, i, brg)], ocnt, j, brg);
    }
  }

  lemma EnterOne(ws: seq<Poly>, i: nat, pd: seq<EndPoint>, pd': seq<EndPoint>, ocnt: nat, j: nat, brg: int -> real)
    requires OpenLong(ws) && i < |ws| && ws[i].open && j == |OpenList(ws, i)| < ocnt
    requires Entered(ws, OpenList(ws, i), pd, ocnt, j, brg)
    requires pd' == pd[j := StartPoint(ws, i, brg)][j + ocnt := LastPoint(ws, i, brg)]
    ensures Entered(ws, OpenList(ws, i + 1), pd', ocnt, j + 1, brg)
  {
    var l, l' := OpenList(ws, i), OpenList(ws, i + 1);
    assert l' == l + [i];
    forall x | 0 <= x < j + 1 ensures pd'[x] == StartPoint(ws, l'[x], brg) &&
      pd'[x + ocnt] == LastPoint(ws, l'[x], brg) {
      assert x < j ==> l'[x] == l[x];
    }
  }

  lemma {:induction false} OpenListPrefix(ws: seq<Poly>, i: nat)
    requires i <= |ws|
    ensures OpenList(ws, i) <= OpenList(ws, |ws|)
    decreases |ws| - i
  {
    if i < |ws| {
      OpenListPrefix(ws, i + 1);
    }
  }

  lemma EnteredPrefix(ws: seq<Poly>, l: seq<nat>, l': seq<nat>, pd: seq<EndPoint>, ocnt: nat, j: nat, brg: int -> real)
    requires OpenLong(ws) && l <= l'
    requires forall x :: 0 <= x < |l| ==> l[x] < |ws| && ws[l[x]].open
    requires forall x :: 0 <= x < |l'| ==> l'[x] < |ws| && ws[l'[x]].open
    requires Entered(ws, l, pd, ocnt, j, brg)
    ensures Entered(ws, l', pd, ocnt, j, brg)
  {
    assert forall x :: 0 <= x < |l| ==> l'[x] == l[x];
  }

  /** The list that poly_get_brg() fills mirrors the open ways it has room for. */
  lemma EnteredMirror(ws: seq<Poly>, pd: seq<EndPoint>, ocnt: nat, brg: int -> real)
    requires OpenLong(ws) && ocnt <= |OpenList(ws, |ws|)|
    requires Entered(ws, OpenList(ws, |ws|), pd, ocnt, ocnt, brg)
    ensures Mirror(State(ws, pd), Elements(OpenList(ws, |ws|)[..ocnt]), brg)
  {
    var l := OpenList(ws, |ws|)[..ocnt];
    assert Entered(ws, l, pd, ocnt, ocnt, brg);
    MirrorOf(ws, l, pd, ocnt, brg);
  }

  lemma MirrorOf(ws: seq<Poly>, l: seq<nat>, pd: seq<EndPoint>, ocnt: nat, brg: int -> real)
    requires OpenLong(ws) && Distinct(l) && forall x :: 0 <= x < |l| ==> l[x] < |ws| && ws[l[x]].open
    requires |l| == ocnt && Entered(ws, l, pd, ocnt, ocnt, brg)
    ensures Mirror(State(ws, pd), Elements(l), brg)
  {
    hide Accurate, Both, Entered, Distinct;
    forall k: nat | k < |pd| ensures pd[k].wi in Elements(l) && pd[k].wi < |ws| &&
      Accurate(Nw(ws[pd[k].wi]), pd[k], brg) {
      EntryAccurate(ws, l, pd, ocnt, brg, k);
    }
    forall m: nat | m < |ws| && m in Elements(l) ensures Both(pd, m) {
      var x :| 0 <= x < |l| && l[x] == m;
      OneEntryEach(ws, l, pd, ocnt, brg, x);
    }
  }

  lemma EntryAccurate(ws: seq<Poly>, l: seq<nat>, pd: seq<EndPoint>, ocnt: nat, brg: int -> real, k: nat)
    requires OpenLong(ws) && forall x :: 0 <= x < |l| ==> l[x] < |ws| && ws[l[x]].open
    requires |l| == ocnt && Entered(ws, l, pd, ocnt, ocnt, brg) && k < |pd|
    ensures pd[k].wi in Elements(l) && pd[k].wi < |ws| && Accurate(Nw(ws[pd[k].wi]), pd[k], brg)
  {
    var x := if k < ocnt then k else k - ocnt;
    assert l[x] in l;
    assert pd[x] == StartPoint(ws, l[x], brg) && pd[x + ocnt] == LastPoint(ws, l[x], brg);
  }

  lemma OneEntryEach(ws: seq<Poly>, l: seq<nat>, pd: seq<EndPoint>, ocnt: nat, brg: int -> real, x: nat)
    requires OpenLong(ws) && Distinct(l) && forall x :: 0 <= x < |l| ==> l[x] < |ws| && ws[l[x]].open
    requires |l| == ocnt && Entered(ws, l, pd, ocnt, ocnt, brg) && x < ocnt
    ensures Both(pd, l[x])
  {
    assert pd[x] == StartPoint(ws, l[x], brg) && pd[x + ocnt] == LastPoint(ws, l[x], brg);
    assert IsEntry(pd, x, l[x], false) && IsEntry(pd, x + ocnt, l[x], true);
    forall k | IsEntry(pd, k, l[x], false) ensures k == x {
      var y := if k < ocnt then k else k - ocnt;
      assert pd[y] == StartPoint(ws, l[y], brg) && pd[y + ocnt] == LastPoint(ws, l[y], brg);
    }
    forall k | IsEntry(pd, k, l[x], true) ensures k == x + ocnt {
      var y := if k < ocnt then k else k - ocnt;
      assert pd[y] == StartPoint(ws, l[y], brg) && pd[y + ocnt] == LastPoint(ws, l[y], brg);
    }
  }

  // ----- sorting keeps the mirror -----

  lemma PermutedOne(p: seq<EndPoint>, q: seq<EndPoint>, m: nat, end: bool)
    requires multiset(p) == multiset(q) && ExactlyOne(p, m, end)
    ensures ExactlyOne(q, m, end)
  {
    var k :| IsEntry(p, k, m, end) && forall l :: IsEntry(p, l, m, end) ==> l == k;
    PermMember(p, q, p[k]);
    var k' :| 0 <= k' < |q| && q[k'] == p[k];
    assert IsEntry(q, k', m, end);
    forall l | IsEntry(q, l, m, end) ensures l == k' {
      PermMember(p, q, q[l]);
      var j :| 0 <= j < |p| && p[j] == q[l];
      assert IsEntry(p, j, m, end);
      if l != k' {
        TwiceInMultiset(q, if l < k' then l else k', if l < k' then k' else l);
        forall y | 0 <= y < |p| && p[y] == p[k] ensures y == k {
          assert IsEntry(p, y, m, end);
        }
        OnceInMultiset(p, k);
      }
    }
  }

  lemma OnceInMultiset<T>(s: seq<T>, k: nat)
    requires k < |s| && forall l :: 0 <= l < |s| && s[l] == s[k] ==> l == k
    ensures multiset(s)[s[k]] == 1
  {
    assert s == s[..k] + [s[k]] + s[k + 1..];
    assert s[k] !in s[..k] && s[k] !in s[k + 1..];
  }

  lemma PermutedMirror(ws: seq<Poly>, p: seq<EndPoint>, q: seq<EndPoint>, listed: set<nat>, brg: int -> real)
    requires Mirror(State(ws, p), listed, brg) && multiset(p) == multiset(q)
    ensures Mirror(State(ws, q), listed, brg) && |q| == |p|
  {
    hide Accurate;
    PermSize(p, q);
    forall k | 0 <= k < |q|
      ensures q[k].wi < |ws| && q[k].wi in listed && (ws[q[k].wi].open ==> Accurate(Nw(ws[q[k].wi]), q[k], brg))
    {
      PermMember(p, q, q[k]);
      var j :| 0 <= j < |p| && p[j] == q[k];
    }
    forall m | 0 <= m < |ws| && ws[m].open && m in listed ensures Both(q, m) {
      assert Both(p, m);
      PermutedOne(p, q, m, false);
      PermutedOne(p, q, m, true);
    }
  }
}
