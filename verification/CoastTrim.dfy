/**
 * Trimming the open ways to the page and closing them: trim_way(),
 * trim_ways() and the second half of cat_poly_fini() in src/smcoast.c.
 */
module CoastTrim {
  import opened Common
  import opened CoastLink
  import opened CoastConnect
  import opened CoastClosing
  import Sorting

  /** Where a node is: on the page, off the page, or not in the object tree at all. */
  datatype Place = Inside | Outside | Missing

  /** The place of each node, and the point on the border between a node on the page and its neighbour off the page. */
  datatype Chart = Chart(place: int -> Place, edge: (int, int) -> int)

  /** True index of a reference, counted from the front or from the back. */
  function WIndex(w: seq<int>, i: nat, rev: bool): (r: nat)
    requires i < |w|
    ensures r < |w|
  {
    if rev then |w| - i - 1 else i
  }

  /** Position of the first node that is not off the page; the length if all are. */
  function FirstOn(c: Chart, w: seq<int>, rev: bool, k: nat): (r: nat)
    requires k <= |w|
    ensures k <= r <= |w|
    ensures forall m :: k <= m < r ==> c.place(w[WIndex(w, m, rev)]).Outside?
    ensures r < |w| ==> !c.place(w[WIndex(w, r, rev)]).Outside?
    decreases |w| - k
  {
    if k == |w| || !c.place(w[WIndex(w, k, rev)]).Outside? then k else FirstOn(c, w, rev, k + 1)
  }

  /** A way cut off at its first node on the page, seen from the front or from the back; None if there is none. */
  function Trimmed(c: Chart, w: seq<int>, rev: bool): Option<seq<int>> {
    var i := FirstOn(c, w, rev, 0);
    if i == |w| || c.place(w[WIndex(w, i, rev)]).Missing? then None
    else if i == 0 then Some(w)
    else
      var e := c.edge(w[WIndex(w, i, rev)], w[WIndex(w, i - 1, rev)]);
      Some(if rev then w[..|w| - i] + [e] else [e] + w[i..])
  }

  /** Returns -1 and leaves the way alone if no node is on the page, or a missing node comes first. */
  method TrimWay(wl: array<Poly>, n: nat, rev: bool, c: Chart) returns (r: int)
    requires n < wl.Length && wl[n].nw.Some?
    modifies wl
    ensures var t := Trimmed(c, old(Nw(wl[n])), rev);
      && (r == -1 <==> t == None)
      && wl[..] == match t case None => old(wl[..]) case Some(w) => old(wl[..])[n := old(wl[n]).(nw := Some(w))]
  {
    var w := Nw(wl[n]);
    var i := 0;
    while i < |w|
      invariant i <= |w| && FirstOn(c, w, rev, 0) == FirstOn(c, w, rev, i)
    {
      var p := c.place(w[WIndex(w, i, rev)]);
      if p == Missing {
        return -1;
      }
      if p == Inside {
        break;
      }
      i := i + 1;
    }
    if i >= |w| {
      return -1;
    }
    if i > 0 {
      var e := c.edge(w[WIndex(w, i, rev)], w[WIndex(w, i - 1, rev)]);
      if !rev {
        wl[n] := wl[n].(nw := Some([e] + w[i..]));
      } else {
        wl[n] := wl[n].(nw := Some(w[..WIndex(w, i - 1, rev)] + [e]));
      }
    }
    return i;
  }

  // ----- what trimming does to one way -----

  lemma {:induction false} FirstOnReversed(c: Chart, w: seq<int>, k: nat)
    requires k <= |w|
    ensures FirstOn(c, w, true, k) == FirstOn(c, Reversed(w), false, k)
    decreases |w| - k
  {
    if k < |w| {
      FirstOnReversed(c, w, k + 1);
    }
  }

  /** Trimming from the back is the mirror image of trimming from the front. */
  lemma TrimSymmetric(c: Chart, w: seq<int>)
    ensures Trimmed(c, w, true) ==
      match Trimmed(c, Reversed(w), false) case None => None case Some(r) => Some(Reversed(r))
  {
    hide FirstOn;
    FirstOnReversed(c, w, 0);
    var r := Reversed(w);
    var i := FirstOn(c, w, true, 0);
    if i < |w| {
      assert w[WIndex(w, i, true)] == r[WIndex(r, i, false)];
      if i == 0 {
        assert Reversed(r) == w;
      } else {
        assert w[WIndex(w, i - 1, true)] == r[WIndex(r, i - 1, false)];
        ReversedTail(w, i, c.edge(r[i], r[i - 1]));
      }
    }
  }

  lemma ReversedTail(w: seq<int>, i: nat, e: int)
    requires i <= |w|
    ensures Reversed([e] + Reversed(w)[i..]) == w[..|w| - i] + [e]
  {
  }

  /** Seen from the front, a node on the page comes before any missing node. */
  predicate EntersPage(c: Chart, w: seq<int>, rev: bool) {
    var i := FirstOn(c, w, rev, 0);
    i < |w| && c.place(w[WIndex(w, i, rev)]).Inside?
  }

  /** On the page as seen from the front, but with a missing node before the page as seen from the back. */
  predicate Ragged(c: Chart, w: seq<int>) {
    EntersPage(c, w, false) && !EntersPage(c, w, true)
  }

  /** Trimming the front does not change what is seen from the back. */
  lemma FrontKeepsBack(c: Chart, w: seq<int>)
    requires EntersPage(c, w, false)
    ensures var i := FirstOn(c, w, false, 0);
      var w' := Trimmed(c, w, false).value;
      var j := FirstOn(c, w, true, 0);
      && |w'| == (if i == 0 then |w| else |w| - i + 1)
      && FirstOn(c, w', true, 0) == j && j < |w| - i && j < |w'|
      && w'[|w'| - 1 - j] == w[|w| - 1 - j]
      && (j > 0 ==> w'[|w'| - j] == w[|w| - j])
  {
    var i, j := FirstOn(c, w, false, 0), FirstOn(c, w, true, 0);
    var w' := Trimmed(c, w, false).value;
    assert |w'| == |w| - if i == 0 then 0 else i - 1;
    forall m | 0 <= m < |w| - i ensures w'[WIndex(w', m, true)] == w[WIndex(w, m, true)] {
      assert w'[|w'| - 1 - m] == w[|w| - 1 - m];
    }
    assert w[WIndex(w, |w| - 1 - i, true)] == w[i];
    assert j <= |w| - 1 - i;
    FirstOnIs(c, w', true, j, 0);
  }

  lemma {:induction false} FirstOnIs(c: Chart, w: seq<int>, rev: bool, r: nat, k: nat)
    requires k <= r < |w| && !c.place(w[WIndex(w, r, rev)]).Outside?
    requires forall m :: k <= m < r ==> c.place(w[WIndex(w, m, rev)]).Outside?
    ensures FirstOn(c, w, rev, k) == r
    decreases r - k
  {
    if k < r {
      FirstOnIs(c, w, rev, r, k + 1);
    }
  }

  /** The second trimming fails exactly on ragged ways. */
  lemma SecondTrim(c: Chart, w: seq<int>)
    requires EntersPage(c, w, false)
    ensures Trimmed(c, Trimmed(c, w, false).value, true) == None <==> Ragged(c, w)
  {
    hide FirstOn;
    FrontKeepsBack(c, w);
  }

  function Before(c: Chart, w: seq<int>, a: nat): seq<int>
    requires a < |w|
  {
    if a > 0 then [c.edge(w[a], w[a - 1])] else []
  }

  function After(c: Chart, w: seq<int>, z: nat): seq<int>
    requires z < |w|
  {
    if z < |w| - 1 then [c.edge(w[z], w[z + 1])] else []
  }

  /**
   * Trimmed at both ends, a way is the stretch from its first to its last node on the
   * page, with a border point at each end where something was cut off.
   */
  lemma TrimmedStretch(c: Chart, w: seq<int>)
    requires EntersPage(c, w, false) && EntersPage(c, w, true)
    ensures var a, z := FirstOn(c, w, false, 0), |w| - 1 - FirstOn(c, w, true, 0);
      && a <= z < |w|
      && c.place(w[a]).Inside? && c.place(w[z]).Inside?
      && Trimmed(c, Trimmed(c, w, false).value, true) == Some(Before(c, w, a) + w[a..z + 1] + After(c, w, z))
  {
    hide *;
    FrontKeepsBack(c, w);
    EnterFacts(c, w);
    var i, j := FirstOn(c, w, false, 0), FirstOn(c, w, true, 0);
    var w' := Trimmed(c, w, false).value;
    TrimmedBack(c, w');
    CutTail(w, i, j, Before(c, w, i));
    var z := |w| - 1 - j;
    var head := Before(c, w, i) + w[i..z + 1];
    JoinTail(c, w, w', j, head);
    assert Trimmed(c, w', true) == Some(head + After(c, w, z));
  }

  /** The way without its last j nodes, which gave place to a border point. */
  function BackCut(c: Chart, w: seq<int>, j: nat): seq<int>
    requires j < |w|
  {
    if j == 0 then w else w[..|w| - j] + [c.edge(w[|w| - 1 - j], w[|w| - j])]
  }

  lemma JoinTail(c: Chart, w: seq<int>, w': seq<int>, j: nat, head: seq<int>)
    requires j < |w'| && j < |w| && head == w'[..|w'| - j]
    requires w'[|w'| - 1 - j] == w[|w| - 1 - j] && (j > 0 ==> w'[|w'| - j] == w[|w| - j])
    ensures BackCut(c, w', j) == head + After(c, w, |w| - 1 - j)
  {
  }

  lemma EnterFacts(c: Chart, w: seq<int>)
    requires EntersPage(c, w, false) && EntersPage(c, w, true)
    ensures var i, j := FirstOn(c, w, false, 0), FirstOn(c, w, true, 0);
      && i < |w| && j < |w| && c.place(w[i]).Inside? && c.place(w[|w| - 1 - j]).Inside?
      && Trimmed(c, w, false) == Some(Before(c, w, i) + w[i..])
  {
    hide FirstOn;
    NothingBefore(w);
  }

  lemma NothingBefore(w: seq<int>)
    ensures [] + w[0..] == w
  {
  }

  lemma TrimmedBack(c: Chart, w: seq<int>)
    requires var j := FirstOn(c, w, true, 0); j < |w| && !c.place(w[|w| - 1 - j]).Missing?
    ensures var j := FirstOn(c, w, true, 0);
      Trimmed(c, w, true) == Some(BackCut(c, w, j))
  {
    hide FirstOn;
  }

  lemma CutTail(w: seq<int>, i: nat, j: nat, pre: seq<int>)
    requires i <= |w| - 1 - j
    ensures var w' := pre + w[i..]; w'[..|w'| - j] == pre + w[i..|w| - 1 - j + 1]
  {
  }

  // ----- trimming all open ways -----

  /** A way off the page counts as closed; a ragged way stays open, cut off at the front only. */
  function TrimmedPoly(c: Chart, p: Poly): Poly {
    if !p.open then p
    else
      match Trimmed(c, Nw(p), false)
      case None => p.(open := false)
      case Some(w) =>
        match Trimmed(c, w, true)
        case None => p.(nw := Some(w))
        case Some(w') => p.(nw := Some(w'))
  }

  /** Whether trim_ways() counts the way as open. */
  predicate Counted(c: Chart, p: Poly) {
    p.open && Trimmed(c, Nw(p), false).Some? && Trimmed(c, Trimmed(c, Nw(p), false).value, true).Some?
  }

  function CountedWays(c: Chart, ws: seq<Poly>, k: nat): nat
    requires k <= |ws|
  {
    if k == 0 then 0 else CountedWays(c, ws, k - 1) + if Counted(c, ws[k - 1]) then 1 else 0
  }

  ghost predicate TrimmedTo(c: Chart, ws: seq<Poly>, rs: seq<Poly>, k: nat) {
    && |rs| == |ws|
    && forall i :: 0 <= i < |ws| ==> rs[i] == if i < k then TrimmedPoly(c, ws[i]) else ws[i]
  }

  /** Node a is the first one of the way that is on the page, and no missing node comes before it. */
  ghost predicate Enters(c: Chart, w: seq<int>, a: nat) {
    a < |w| && c.place(w[a]).Inside? && forall m :: 0 <= m < a ==> c.place(w[m]).Outside?
  }

  /** Node z is the last one that is on the page, and no missing node comes after it. */
  ghost predicate Leaves(c: Chart, w: seq<int>, z: nat) {
    z < |w| && c.place(w[z]).Inside? && forall m :: z < m < |w| ==> c.place(w[m]).Outside?
  }

  /**
   * What trimming makes of a way: the stretch from its first to its last node on the page, with a
   * border point at each end where something was cut off. If a missing node comes first at its end
   * it is cut at the front only, and if it does at the front, or no node is on the page, the way
   * counts as closed and is left as it is.
   */
  ghost predicate TrimmedWay(c: Chart, p: Poly, q: Poly) {
    var w := Nw(p);
    if !p.open then q == p
    else
      && (forall a: nat, z: nat :: Enters(c, w, a) && Leaves(c, w, z) ==>
            a <= z && q == p.(nw := Some(Before(c, w, a) + w[a..z + 1] + After(c, w, z))))
      && (forall a: nat :: Enters(c, w, a) && (forall z: nat :: !Leaves(c, w, z)) ==>
            q == p.(nw := Some(Before(c, w, a) + w[a..])))
      && ((forall a: nat :: !Enters(c, w, a)) ==> q == p.(open := false))
  }

  ghost predicate TrimmedWell(c: Chart, ws: seq<Poly>, rs: seq<Poly>) {
    |rs| == |ws| && forall i :: 0 <= i < |ws| ==> TrimmedWay(c, ws[i], rs[i])
  }

  /** There is one node at most where a way enters the page, and it is where trimming looks. */
  lemma EntersAt(c: Chart, w: seq<int>, a: nat)
    ensures Enters(c, w, a) <==> EntersPage(c, w, false) && a == FirstOn(c, w, false, 0)
  {
    hide FirstOn;
    var i := FirstOn(c, w, false, 0);
    assert i < |w| ==> w[WIndex(w, i, false)] == w[i];
    assert a < i ==> c.place(w[WIndex(w, a, false)]).Outside?;
    forall m | 0 <= m < i ensures c.place(w[m]).Outside? {
      assert c.place(w[WIndex(w, m, false)]).Outside?;
    }
  }

  lemma LeavesAt(c: Chart, w: seq<int>, z: nat)
    ensures Leaves(c, w, z) <==> EntersPage(c, w, true) && z == |w| - 1 - FirstOn(c, w, true, 0)
  {
    hide FirstOn;
    var j := FirstOn(c, w, true, 0);
    assert j < |w| ==> w[WIndex(w, j, true)] == w[|w| - 1 - j];
    forall m | |w| - j <= m < |w| ensures c.place(w[m]).Outside? {
      assert c.place(w[WIndex(w, |w| - 1 - m, true)]).Outside?;
    }
    assert z < |w| && |w| - 1 - z < j ==> c.place(w[z]).Outside?;
  }

  lemma TrimmedPolyIs(c: Chart, p: Poly)
    requires p.open ==> p.nw.Some?
    ensures TrimmedWay(c, p, TrimmedPoly(c, p))
  {
    hide FirstOn, Trimmed, Enters, Leaves, Before, After;
    var w := Nw(p);
    if p.open {
      forall a: nat ensures Enters(c, w, a) <==> EntersPage(c, w, false) && a == FirstOn(c, w, false, 0) {
        EntersAt(c, w, a);
      }
      forall z: nat ensures Leaves(c, w, z) <==> EntersPage(c, w, true) && z == |w| - 1 - FirstOn(c, w, true, 0) {
        LeavesAt(c, w, z);
      }
      EntersIff(c, w);
      if EntersPage(c, w, false) {
        SecondTrim(c, w);
        if EntersPage(c, w, true) {
          TrimmedStretch(c, w);
          assert Leaves(c, w, |w| - 1 - FirstOn(c, w, true, 0));
        }
        assert Enters(c, w, FirstOn(c, w, false, 0));
      }
    }
  }

  lemma EntersIff(c: Chart, w: seq<int>)
    ensures Trimmed(c, w, false) ==
      if EntersPage(c, w, false) then Some(Before(c, w, FirstOn(c, w, false, 0)) + w[FirstOn(c, w, false, 0)..])
        else None
  {
    hide FirstOn;
    NothingBefore(w);
  }

  lemma TrimmedWellIs(c: Chart, ws: seq<Poly>, rs: seq<Poly>)
    requires OpenLong(ws) && TrimmedTo(c, ws, rs, |ws|)
    ensures TrimmedWell(c, ws, rs)
  {
    hide TrimmedPoly, TrimmedWay;
    forall i | 0 <= i < |ws| ensures TrimmedWay(c, ws[i], rs[i]) {
      TrimmedPolyIs(c, ws[i]);
    }
  }

  method TrimWays(wl: array<Poly>, c: Chart) returns (j: nat)
    requires OpenLong(wl[..])
    modifies wl
    ensures TrimmedTo(c, old(wl[..]), wl[..], wl.Length) && TrimmedWell(c, old(wl[..]), wl[..])
    ensures j == CountedWays(c, old(wl[..]), wl.Length)
  {
    hide Trimmed, OpenLong, TrimmedWell;
    ghost var ws := wl[..];
    j := 0;
    for i := 0 to wl.Length
      invariant OpenLong(ws) && TrimmedTo(c, ws, wl[..], i) && j == CountedWays(c, ws, i)
    {
      assert wl[i] == ws[i];
      if !wl[i].open {
        continue;
      }
      LongHasWay(ws, i);
      var e := TrimWay(wl, i, false, c);
      if e == -1 {
        wl[i] := wl[i].(open := false);
        continue;
      }
      e := TrimWay(wl, i, true, c);
      if e == -1 {
        continue;
      }
      j := j + 1;
    }
    TrimmedWellIs(c, ws, wl[..]);
  }

  lemma LongHasWay(ws: seq<Poly>, i: nat)
    requires OpenLong(ws) && i < |ws| && ws[i].open
    ensures ws[i].nw.Some?
  {
  }

  lemma TrimmedLength(c: Chart, w: seq<int>, rev: bool)
    requires |w| >= 2 && Trimmed(c, w, rev).Some?
    ensures |Trimmed(c, w, rev).value| >= 2
  {
  }

  lemma TrimmedLong(c: Chart, ws: seq<Poly>, rs: seq<Poly>)
    requires OpenLong(ws) && TrimmedTo(c, ws, rs, |ws|)
    ensures OpenLong(rs)
  {
    hide Trimmed;
    forall i | 0 <= i < |rs| && rs[i].open ensures |Nw(rs[i])| >= 2 {
      TrimmedLength(c, Nw(ws[i]), false);
      var w := Trimmed(c, Nw(ws[i]), false).value;
      if Trimmed(c, w, true).Some? {
        TrimmedLength(c, w, true);
      }
    }
  }

  /** The ragged ways among the first k. */
  function RaggedWays(c: Chart, ws: seq<Poly>, k: nat): nat
    requires k <= |ws|
  {
    if k == 0 then 0 else RaggedWays(c, ws, k - 1) + if ws[k - 1].open && Ragged(c, Nw(ws[k - 1])) then 1 else 0
  }

  /** An open way is either off the page, counted, or ragged. */
  lemma OpenCases(c: Chart, p: Poly)
    ensures TrimmedPoly(c, p).open <==> p.open && (Counted(c, p) || Ragged(c, Nw(p)))
    ensures !(Counted(c, p) && Ragged(c, Nw(p)))
    ensures Counted(c, p) ==> p.open
  {
    hide FirstOn;
    var w := Nw(p);
    if EntersPage(c, w, false) {
      SecondTrim(c, w);
    }
  }

  /** Open after trimming are the counted ways and the ragged ways. */
  lemma {:induction false} OpenAfterTrim(c: Chart, ws: seq<Poly>, rs: seq<Poly>, k: nat)
    requires TrimmedTo(c, ws, rs, |ws|) && k <= |ws|
    ensures |OpenList(rs, k)| == CountedWays(c, ws, k) + RaggedWays(c, ws, k)
  {
    hide Trimmed, TrimmedPoly, Counted, Ragged;
    if k > 0 {
      OpenAfterTrim(c, ws, rs, k - 1);
      OpenCases(c, ws[k - 1]);
    }
  }

  lemma {:induction false} RaggedWaysZero(c: Chart, ws: seq<Poly>, k: nat)
    requires k <= |ws|
    ensures RaggedWays(c, ws, k) == 0 <==> forall i :: 0 <= i < k && ws[i].open ==> !Ragged(c, Nw(ws[i]))
  {
    if k > 0 {
      RaggedWaysZero(c, ws, k - 1);
    }
  }

  ghost function RaggedSet(c: Chart, ws: seq<Poly>): set<nat> {
    set m | m in Iota(|ws|) && ws[m].open && Ragged(c, Nw(ws[m]))
  }

  lemma RaggedSetMember(c: Chart, ws: seq<Poly>, m: nat)
    ensures m in RaggedSet(c, ws) <==> m < |ws| && ws[m].open && Ragged(c, Nw(ws[m]))
  {
    assert m < |ws| ==> Iota(|ws|)[m] == m;
  }

  /** No way that counts as open comes behind a ragged one. */
  ghost predicate RaggedLast(c: Chart, ws: seq<Poly>, k: nat)
    requires k <= |ws|
  {
    forall i, j :: 0 <= i < j < k && ws[i].open && Ragged(c, Nw(ws[i])) ==> !Counted(c, ws[j])
  }

  ghost predicate Increasing(l: seq<nat>) {
    forall i, j :: 0 <= i < j < |l| ==> l[i] < l[j]
  }

  lemma {:induction false} OpenListIncreasing(ws: seq<Poly>, k: nat)
    requires k <= |ws|
    ensures Increasing(OpenList(ws, k))
  {
    hide Increasing;
    if k > 0 {
      OpenListIncreasing(ws, k - 1);
      OneMoreIncreasing(OpenList(ws, k - 1), k - 1);
    } else {
      NoneIncreasing();
    }
  }

  lemma OneMoreIncreasing(l: seq<nat>, m: nat)
    requires Increasing(l) && forall i :: 0 <= i < |l| ==> l[i] < m
    ensures Increasing(l + []) && Increasing(l + [m])
  {
    assert l + [] == l;
  }

  lemma NoneIncreasing()
    ensures Increasing([])
  {
  }

  /** Then the counted ways are the first ones of the list of open ways. */
  lemma {:induction false} CountedFirst(c: Chart, ws: seq<Poly>, rs: seq<Poly>, k: nat)
    requires TrimmedTo(c, ws, rs, |ws|) && k <= |ws| && RaggedLast(c, ws, k)
    ensures var l := OpenList(rs, k); forall x :: 0 <= x < |l| ==> (x < CountedWays(c, ws, k) <==> Counted(c, ws[l[x]]))
  {
    hide Trimmed, TrimmedPoly, Counted, Ragged;
    if k > 0 {
      CountedFirst(c, ws, rs, k - 1);
      OpenAfterTrim(c, ws, rs, k - 1);
      OpenCases(c, ws[k - 1]);
      RaggedWaysZero(c, ws, k - 1);
    }
  }

  /** Way m is one of the open ways from the n-th one on. */
  lemma InLast(rs: seq<Poly>, n: nat, m: nat, x: nat)
    requires n <= |OpenList(rs, |rs|)| && x < |OpenList(rs, |rs|)| && OpenList(rs, |rs|)[x] == m
    ensures m in Elements(OpenList(rs, |rs|)[n..]) <==> x >= n
  {
    hide OpenList;
    var l := OpenList(rs, |rs|);
    if x >= n {
      assert l[n..][x - n] == m;
    }
    assert forall y :: 0 <= y < |l[n..]| ==> l[n..][y] == l[n + y];
  }

  lemma RaggedAreLast(c: Chart, ws: seq<Poly>, rs: seq<Poly>)
    requires TrimmedTo(c, ws, rs, |ws|) && CountedWays(c, ws, |ws|) <= |OpenList(rs, |rs|)| && RaggedLast(c, ws, |ws|)
    ensures Elements(OpenList(rs, |rs|)[CountedWays(c, ws, |ws|)..]) == RaggedSet(c, ws)
  {
    hide Trimmed, TrimmedPoly, Counted, Ragged, OpenList, CountedWays, RaggedSet, RaggedLast;
    var l, n := OpenList(rs, |rs|), CountedWays(c, ws, |ws|);
    CountedFirst(c, ws, rs, |ws|);
    assert forall m :: m in l[n..] ==> m in l by {
      assert l == l[..n] + l[n..];
    }
    forall m: nat ensures m in Elements(l[n..]) <==> m in RaggedSet(c, ws) {
      RaggedSetMember(c, ws, m);
      if m < |ws| {
        assert rs[m] == TrimmedPoly(c, ws[m]);
        OpenCases(c, ws[m]);
      }
      if m in l {
        var x :| 0 <= x < |l| && l[x] == m;
        InLast(rs, n, m, x);
      }
    }
  }

  lemma LastIfRagged(c: Chart, ws: seq<Poly>, rs: seq<Poly>)
    requires TrimmedTo(c, ws, rs, |ws|) && CountedWays(c, ws, |ws|) <= |OpenList(rs, |rs|)|
    requires Elements(OpenList(rs, |rs|)[CountedWays(c, ws, |ws|)..]) == RaggedSet(c, ws)
    ensures RaggedLast(c, ws, |ws|)
  {
    hide Trimmed, TrimmedPoly, Counted, Ragged, OpenList, CountedWays, RaggedSet;
    var l, n := OpenList(rs, |rs|), CountedWays(c, ws, |ws|);
    OpenListIncreasing(rs, |rs|);
    forall i, j | 0 <= i < j < |ws| && ws[i].open && Ragged(c, Nw(ws[i])) ensures !Counted(c, ws[j]) {
      OpenCases(c, ws[i]);
      OpenCases(c, ws[j]);
      RaggedSetMember(c, ws, i);
      RaggedSetMember(c, ws, j);
      assert rs[i] == TrimmedPoly(c, ws[i]) && rs[j] == TrimmedPoly(c, ws[j]);
      var x :| 0 <= x < |l| && l[x] == i;
      InLast(rs, n, i, x);
      if rs[j].open {
        var y :| 0 <= y < |l| && l[y] == j;
        InLast(rs, n, j, y);
      }
    }
  }

  /** The ways behind the first n open ones are exactly the ragged ones if and only if these are the last ones. */
  lemma LastAreRaggedIff(c: Chart, ws: seq<Poly>, rs: seq<Poly>)
    requires TrimmedTo(c, ws, rs, |ws|) && CountedWays(c, ws, |ws|) <= |OpenList(rs, |rs|)|
    ensures Elements(OpenList(rs, |rs|)[CountedWays(c, ws, |ws|)..]) == RaggedSet(c, ws) <==> RaggedLast(c, ws, |ws|)
  {
    hide *;
    if RaggedLast(c, ws, |ws|) {
      RaggedAreLast(c, ws, rs);
    }
    if Elements(OpenList(rs, |rs|)[CountedWays(c, ws, |ws|)..]) == RaggedSet(c, ws) {
      LastIfRagged(c, ws, rs);
    }
  }

  // ----- closing -----

  /** In the beginning every open way consists of itself. */
  function OwnLegs(ws: seq<Poly>): (r: seq<seq<Leg>>)
    ensures |r| == |ws| && forall m :: 0 <= m < |ws| ==> r[m] == if ws[m].open then [Leg([], m)] else []
  {
    seq(|ws|, m requires 0 <= m < |ws| => if ws[m].open then [Leg([], m)] else [])
  }

  lemma NoOpenList(ws: seq<Poly>)
    ensures OpenList(ws, 0) == []
  {
  }

  lemma OpenListStep(ws: seq<Poly>, k: nat)
    requires k < |ws|
    ensures multiset(OpenList(ws, k + 1)) == multiset(OpenList(ws, k)) + if ws[k].open then multiset{k} else multiset{}
  {
  }

  lemma AllWaysStep(legs: seq<seq<Leg>>, k: nat)
    requires k <= |legs|
    ensures AllWays(legs, k) == if k == 0 then multiset{} else AllWays(legs, k - 1) + WaysOf(legs[k - 1])
  {
  }

  lemma WayOfOne(m: nat)
    ensures WaysOf([Leg([], m)]) == multiset{m} && WaysOf([]) == multiset{}
  {
    assert [Leg([], m)][1..] == [];
  }

  lemma {:induction false} OwnWaysOnce(ws: seq<Poly>, k: nat)
    requires k <= |ws|
    ensures AllWays(OwnLegs(ws), k) == multiset(OpenList(ws, k))
  {
    hide WaysOf, OwnLegs, OpenList, AllWays;
    NoOpenList(ws);
    AllWaysStep(OwnLegs(ws), k);
    if k > 0 {
      OwnWaysOnce(ws, k - 1);
      WayOfOne(k - 1);
      OpenListStep(ws, k - 1);
      assert OwnLegs(ws)[k - 1] == if ws[k - 1].open then [Leg([], k - 1)] else [];
    }
  }

  lemma WovenAtFirst(s: Shore)
    requires OpenLong(s.rs)
    ensures Woven(s, s.rs, OwnLegs(s.rs))
  {
    hide WovenWay, OpenList, AllWays;
    OwnWaysOnce(s.rs, |s.rs|);
    forall m | 0 <= m < |s.rs| ensures WovenWay(s, s.rs[m], s.rs[m], OwnLegs(s.rs)[m]) {
      WovenOfItself(s, m);
    }
  }

  lemma WovenOfItself(s: Shore, m: nat)
    requires OpenLong(s.rs) && m < |s.rs|
    ensures WovenWay(s, s.rs[m], s.rs[m], if s.rs[m].open then [Leg([], m)] else [])
  {
    if s.rs[m].open {
      var l := Leg([], m);
      assert [l][1..] == [];
      assert Flat(s, [l]) == s.Nodes(l);
    }
  }

  /**
   * What holds between two passes: nothing but listed ways has been closed, and every way is woven
   * from the trimmed ones.
   */
  ghost predicate Between(s: Shore, st: State, listed: set<nat>, legs: seq<seq<Leg>>) {
    && s.pg.Valid() && Mirror(st, listed, s.brg) && InList(st) && HasNodes(st.ws)
    && |st.ws| == |s.rs| && OpenSet(st.ws) <= OpenSet(s.rs) && OpenSet(st.ws) - listed == OpenSet(s.rs) - listed
    && Woven(s, st.ws, legs)
  }

  lemma SortRound(s: Shore, st: State, pd: seq<EndPoint>, listed: set<nat>, legs: seq<seq<Leg>>)
    requires Between(s, st, listed, legs) && multiset(pd) == multiset(st.pd)
    ensures Between(s, State(st.ws, pd), listed, legs) && |pd| == |st.pd|
  {
    hide Mirror, Woven, OpenSet;
    PermutedMirror(st.ws, st.pd, pd, listed, s.brg);
    MirrorFacts(State(st.ws, pd), listed, s.brg);
  }

  lemma PassRound(s: Shore, st: State, listed: set<nat>, legs: seq<seq<Leg>>)
    returns (legs': seq<seq<Leg>>)
    requires Between(s, st, listed, legs) && Sorting.SortedBy(BrgLe, st.pd)
    requires s.pg.Valid() && InList(st) && HasNodes(st.ws)
    ensures var (st', cnt) := Pass(s.pg, st, 0);
      && Between(s, st', listed, legs') && |st'.pd| == |st.pd|
      && |OpenSet(st'.ws)| + cnt == |OpenSet(st.ws)|
      && (cnt == 0 ==> OpenSet(st'.ws) == OpenSet(s.rs) - listed)
  {
    hide Mirror, Woven, OpenSet, Pass, Sorting.SortedBy;
    PassKeepsMirror(s.pg, st, 0, listed, s.brg);
    PassProgress(s.pg, st, listed, s.brg);
    legs' := PassKeepsWoven(s, st, 0, listed, legs);
    MirrorFacts(Pass(s.pg, st, 0).0, listed, s.brg);
    if Pass(s.pg, st, 0).1 == 0 {
      DisjointMinus(OpenSet(st.ws), listed);
    }
  }

  lemma DisjointMinus<T>(a: set<T>, b: set<T>)
    requires a * b == {}
    ensures a == a - b
  {
    forall x | x in a ensures x !in b {
      assert x !in a * b;
    }
  }

  lemma BetweenFacts(s: Shore, st: State, listed: set<nat>, legs: seq<seq<Leg>>)
    requires Between(s, st, listed, legs)
    ensures s.pg.Valid() && InList(st) && HasNodes(st.ws) && |st.ws| == |s.rs| && Woven(s, st.ws, legs)
    ensures Sorting.TotalPreorder(BrgLe)
  {
  }

  lemma StartRounds(s: Shore, pd: seq<EndPoint>, ocnt: nat)
    requires s.pg.Valid() && OpenLong(s.rs) && ocnt <= |OpenList(s.rs, |s.rs|)|
    requires Entered(s.rs, OpenList(s.rs, |s.rs|), pd, ocnt, ocnt, s.brg)
    ensures Between(s, State(s.rs, pd), Elements(OpenList(s.rs, |s.rs|)[..ocnt]), OwnLegs(s.rs))
  {
    EnteredMirror(s.rs, pd, ocnt, s.brg);
    WovenAtFirst(s);
  }

  /**
   * Connects the open ways until a pass connects nothing.  Only the first ocnt open ways are
   * looked at; all of them end up closed.  The ghost result tells of which legs each way is made.
   */
  method ConnectAll(wl: array<Poly>, pg: Page, ocnt: nat, brg: int -> real) returns (ghost legs: seq<seq<Leg>>)
    requires pg.Valid() && OpenLong(wl[..]) && ocnt <= |OpenList(wl[..], wl.Length)|
    modifies wl
    ensures OpenSet(wl[..]) == old(OpenSet(wl[..])) - old(Elements(OpenList(wl[..], wl.Length)[..ocnt]))
    ensures Woven(Shore(pg, old(wl[..]), brg), wl[..], legs)
  {
    hide *;
    ghost var rs := wl[..];
    ghost var listed := Elements(OpenList(rs, |rs|)[..ocnt]);
    ghost var s := Shore(pg, rs, brg);
    var pd := new EndPoint[2 * ocnt](_ => EndPoint(0, 0, 0.0));
    assert wl[..] == rs;
    var j := PolyGetBrg(pd, wl, ocnt, brg);
    assert wl[..] == rs;
    StartRounds(s, pd[..], ocnt);
    legs := OwnLegs(rs);
    ghost var st := State(rs, pd[..]);
    while true
      invariant wl[..] == st.ws && pd[..] == st.pd && Between(s, st, listed, legs)
      decreases |OpenSet(st.ws)|
    {
      BetweenFacts(s, st, listed, legs);
      Sorting.QSort(pd, 0, pd.Length, BrgLe);
      assert pd[0..pd.Length] == pd[..] && wl[..] == st.ws && st.pd[0..|st.pd|] == st.pd;
      SortRound(s, st, pd[..], listed, legs);
      st := State(st.ws, pd[..]);
      BetweenFacts(s, st, listed, legs);
      legs := PassRound(s, st, listed, legs);
      var cnt := ConnectOpen(pd, wl, pg);
      st := Pass(pg, st, 0).0;
      if cnt == 0 {
        break;
      }
    }
    BetweenFacts(s, st, listed, legs);
  }

  /**
   * Trims the open ways and connects them around the page. As many ways stay open as are ragged;
   * these are the last ones in the list of open ways, whether they are ragged or not.
   */
  method CloseOpenWays(wl: array<Poly>, pg: Page, c: Chart, brg: int -> real)
    returns (ghost rs: seq<Poly>, ghost legs: seq<seq<Leg>>)
    requires pg.Valid() && OpenLong(wl[..])
    modifies wl
    ensures TrimmedTo(c, old(wl[..]), rs, wl.Length) && TrimmedWell(c, old(wl[..]), rs)
    ensures Woven(Shore(pg, rs, brg), wl[..], legs)
    ensures |OpenSet(wl[..])| == RaggedWays(c, old(wl[..]), wl.Length)
    ensures LeftOpen(c, old(wl[..]), rs, OpenSet(wl[..]))
    ensures OpenSet(wl[..]) == RaggedSet(c, old(wl[..])) <==> RaggedLast(c, old(wl[..]), wl.Length)
    ensures OpenSet(wl[..]) == {} <==> forall i :: 0 <= i < wl.Length && old(wl[i]).open ==> !Ragged(c, Nw(old(wl[i])))
  {
    hide *;
    ghost var ws := wl[..];
    var ocnt := TrimWays(wl, c);
    rs := wl[..];
    TrimFacts(c, ws, rs);
    legs := ConnectAll(wl, pg, ocnt, brg);
    StillOpen(rs, ocnt, OpenSet(wl[..]));
    IsLeftOpen(c, ws, rs, OpenSet(wl[..]));
    LastAreRaggedIff(c, ws, rs);
    RaggedWaysZero(c, ws, |ws|);
  }

  /** The ways that are left open: the last ones of the trimmed open ways, behind as many as have been counted. */
  ghost predicate LeftOpen(c: Chart, ws: seq<Poly>, rs: seq<Poly>, open: set<nat>) {
    var n := CountedWays(c, ws, |ws|);
    n <= |OpenList(rs, |rs|)| && open == Elements(OpenList(rs, |rs|)[n..])
  }

  lemma IsLeftOpen(c: Chart, ws: seq<Poly>, rs: seq<Poly>, open: set<nat>)
    requires CountedWays(c, ws, |ws|) <= |OpenList(rs, |rs|)|
    ensures LeftOpen(c, ws, rs, open) <==> open == Elements(OpenList(rs, |rs|)[CountedWays(c, ws, |ws|)..])
  {
  }

  lemma TrimFacts(c: Chart, ws: seq<Poly>, rs: seq<Poly>)
    requires OpenLong(ws) && TrimmedTo(c, ws, rs, |ws|)
    ensures |rs| == |ws| && OpenLong(rs)
    ensures |OpenList(rs, |rs|)| == CountedWays(c, ws, |ws|) + RaggedWays(c, ws, |ws|)
  {
    TrimmedLong(c, ws, rs);
    OpenAfterTrim(c, ws, rs, |ws|);
  }

  lemma StillOpen(rs: seq<Poly>, ocnt: nat, open: set<nat>)
    requires ocnt <= |OpenList(rs, |rs|)|
    requires open == OpenSet(rs) - Elements(OpenList(rs, |rs|)[..ocnt])
    ensures |open| == |OpenList(rs, |rs|)| - ocnt && open == Elements(OpenList(rs, |rs|)[ocnt..])
  {
    hide OpenList, OpenSet;
    var l := OpenList(rs, |rs|);
    OpenListSet(rs);
    assert l == l[..ocnt] + l[ocnt..];
    forall m ensures m in open <==> m in Elements(l[ocnt..]) {
      DistinctSplit(l, ocnt, m);
    }
    assert open == Elements(l[ocnt..]);
    DistinctSize(l[ocnt..]);
  }

  lemma DistinctSplit<T>(l: seq<T>, n: nat, x: T)
    requires Distinct(l) && n <= |l|
    ensures x in l <==> x in l[..n] || x in l[n..]
    ensures !(x in l[..n] && x in l[n..])
  {
    assert l == l[..n] + l[n..];
    if x in l[..n] {
      var i :| 0 <= i < n && l[i] == x;
      assert forall j :: n <= j < |l| ==> l[j] != l[i];
    }
  }

  /**
   * Ragged ways exist: from a node on the page to a node that is not in the tree.  Such a way
   * is not counted, but is still open when the open ways are entered for being connected.
   */
  lemma RaggedWay(c: Chart)
    requires c.place(1) == Inside && c.place(2) == Missing
    ensures Ragged(c, [1, 2]) && !Counted(c, Poly(NULL, NULL, [1, 2], true, true, Some([1, 2])))
    ensures TrimmedPoly(c, Poly(NULL, NULL, [1, 2], true, true, Some([1, 2]))).open
  {
    SecondTrim(c, [1, 2]);
  }

  /** If a ragged way comes first it is closed, and a way that is all on the page is left open in its place. */
  lemma GoodWayLeftOpen(c: Chart, rs: seq<Poly>, open: set<nat>)
    requires c.place(1) == Inside && c.place(2) == Missing && c.place(3) == Inside && c.place(4) == Inside
    requires var ws := [Poly(NULL, NULL, [1, 2], true, true, Some([1, 2])),
                        Poly(NULL, NULL, [3, 4], true, true, Some([3, 4]))];
      TrimmedTo(c, ws, rs, 2) && LeftOpen(c, ws, rs, open)
    ensures open == {1} && Ragged(c, [1, 2]) && !Ragged(c, [3, 4])
  {
    var p, q := Poly(NULL, NULL, [1, 2], true, true, Some([1, 2])), Poly(NULL, NULL, [3, 4], true, true, Some([3, 4]));
    hide Trimmed, TrimmedPoly, Counted, Ragged, OpenList, CountedWays;
    RaggedWay(c);
    GoodWay(c);
    OpenCases(c, p);
    OpenCases(c, q);
    CountedSecond(c, p, q);
    BothOpen(rs);
    assert [0, 1][1..] == [1];
  }

  lemma GoodWay(c: Chart)
    requires c.place(3) == Inside && c.place(4) == Inside
    ensures Counted(c, Poly(NULL, NULL, [3, 4], true, true, Some([3, 4])))
  {
    assert FirstOn(c, [3, 4], false, 0) == 0 && FirstOn(c, [3, 4], true, 0) == 0;
  }

  lemma CountedSecond(c: Chart, p: Poly, q: Poly)
    requires !Counted(c, p) && Counted(c, q)
    ensures CountedWays(c, [p, q], 2) == 1
  {
    hide Counted;
    assert CountedWays(c, [p, q], 1) == 0;
  }

  lemma BothOpen(rs: seq<Poly>)
    requires |rs| == 2 && rs[0].open && rs[1].open
    ensures OpenList(rs, 2) == [0, 1]
  {
    assert OpenList(rs, 0) == [];
    assert OpenList(rs, 1) == [0];
  }

  // ----- where a trimmed way is found in the end -----

  ghost predicate HasWay(ls: seq<Leg>, w: nat) {
    exists k :: 0 <= k < |ls| && ls[k].way == w
  }

  lemma {:induction false} WaysMember(ls: seq<Leg>, w: nat)
    ensures WaysOf(ls)[w] > 0 <==> HasWay(ls, w)
  {
    if ls != [] {
      WaysMember(ls[1..], w);
      assert forall k :: 0 < k < |ls| ==> ls[k] == ls[1..][k - 1];
      if HasWay(ls[1..], w) {
        var k :| 0 <= k < |ls[1..]| && ls[1..][k].way == w;
        assert ls[k + 1].way == w;
      }
    }
  }

  lemma {:induction false} WaysTwice(ls: seq<Leg>, w: nat, k: nat, l: nat)
    requires k < l < |ls| && ls[k].way == ls[l].way == w
    ensures WaysOf(ls)[w] >= 2
  {
    if k == 0 {
      assert ls[1..][l - 1].way == w;
      WaysMember(ls[1..], w);
    } else {
      WaysTwice(ls[1..], w, k - 1, l - 1);
    }
  }

  lemma {:induction false} AllWaysMember(legs: seq<seq<Leg>>, k: nat, w: nat)
    requires k <= |legs|
    ensures AllWays(legs, k)[w] > 0 <==> exists m :: 0 <= m < k && HasWay(legs[m], w)
  {
    hide WaysOf, HasWay;
    if k > 0 {
      AllWaysMember(legs, k - 1, w);
      WaysMember(legs[k - 1], w);
    }
  }

  lemma {:induction false} AllWaysTwice(legs: seq<seq<Leg>>, k: nat, w: nat, m: nat, n: nat)
    requires m < n < k <= |legs| && HasWay(legs[m], w) && HasWay(legs[n], w)
    ensures AllWays(legs, k)[w] >= 2
  {
    hide WaysOf, HasWay;
    if n == k - 1 {
      AllWaysMember(legs, n, w);
      WaysMember(legs[n], w);
    } else {
      AllWaysTwice(legs, k - 1, w, m, n);
    }
  }

  ghost predicate IsPart(legs: seq<seq<Leg>>, m: int, k: int, w: nat) {
    0 <= m < |legs| && 0 <= k < |legs[m]| && legs[m][k].way == w
  }

  lemma PartPlaceUnique(legs: seq<seq<Leg>>, w: nat, m: nat, k: nat, m': nat, k': nat)
    requires AllWays(legs, |legs|)[w] <= 1 && IsPart(legs, m, k, w) && IsPart(legs, m', k', w)
    ensures m == m' && k == k'
  {
    if m != m' {
      AllWaysTwice(legs, |legs|, w, if m < m' then m else m', if m < m' then m' else m);
    } else if k != k' {
      WaysTwice(legs[m], w, if k < k' then k else k', if k < k' then k' else k);
      WaysInAll(legs, m, |legs|);
    }
  }

  /**
   * When nothing is open any more, each trimmed open way is a contiguous stretch of exactly one ring,
   * which otherwise consists of such ways and of the corners between them.
   */
  lemma OneRingEach(s: Shore, ws: seq<Poly>, legs: seq<seq<Leg>>, w: nat)
    returns (m: nat, k: nat, at: nat)
    requires Woven(s, ws, legs) && OpenSet(ws) == {} && w in OpenSet(s.rs)
    ensures IsPart(legs, m, k, w) && forall m', k' :: IsPart(legs, m', k', w) ==> m' == m && k' == k
    ensures m < |ws| && w < |s.rs| && Ring(s, ws[m], legs[m])
    ensures var ring, part := Nw(ws[m]), Nw(s.rs[w]);
      && |ring| >= 2 && ring[0] == ring[|ring| - 1]
      && at + |part| <= |ring| && ring[at..at + |part|] == part
  {
    hide *;
    var all := OpenList(s.rs, |s.rs|);
    OpenListSet(s.rs);
    assert w in Elements(all);
    m, k := PartPlace(s, ws, legs, w);
    forall m', k' | IsPart(legs, m', k', w) ensures m' == m && k' == k {
      PlaceUnique(legs, all, w, m, k, m', k');
    }
    OpenSetMember(ws, m);
    OpenSetMember(s.rs, w);
    RingOf(s, s.rs[m], ws[m], legs[m], k);
    at := LegIsSlice(s, legs[m], k);
    PartContent(s, legs[m][k]);
    RingSlice(s, legs[m], ws[m], at, Nw(s.rs[w]));
  }

  lemma PartPlace(s: Shore, ws: seq<Poly>, legs: seq<seq<Leg>>, w: nat)
    returns (m: nat, k: nat)
    requires Woven(s, ws, legs) && w in Elements(OpenList(s.rs, |s.rs|))
    ensures IsPart(legs, m, k, w) && m < |ws| && m < |legs| && m < |s.rs| && k < |legs[m]| && legs[m][k].way == w
    ensures Distinct(OpenList(s.rs, |s.rs|)) && AllWays(legs, |legs|) == multiset(OpenList(s.rs, |s.rs|))
    ensures WovenWay(s, s.rs[m], ws[m], legs[m])
  {
    hide WovenWay, OpenList, AllWays;
    var all := OpenList(s.rs, |s.rs|);
    assert w in all && w in multiset(all);
    AllWaysMember(legs, |legs|, w);
    m :| 0 <= m < |legs| && HasWay(legs[m], w);
    k :| 0 <= k < |legs[m]| && legs[m][k].way == w;
  }

  lemma PlaceUnique(legs: seq<seq<Leg>>, all: seq<nat>, w: nat, m: nat, k: nat, m': int, k': int)
    requires Distinct(all) && AllWays(legs, |legs|) == multiset(all)
    requires IsPart(legs, m, k, w) && IsPart(legs, m', k', w)
    ensures m == m' && k == k'
  {
    DistinctMultiset(all, w);
    PartPlaceUnique(legs, w, m, k, m', k');
  }

  lemma RingOf(s: Shore, r: Poly, p: Poly, ls: seq<Leg>, k: nat)
    requires WovenWay(s, r, p, ls) && !p.open && k < |ls|
    ensures Ring(s, p, ls)
  {
    hide Ring;
  }

  lemma PartContent(s: Shore, l: Leg)
    requires l.way < |s.rs|
    ensures s.Nodes(l) == Nw(s.rs[l.way])
  {
  }

  lemma RingSlice(s: Shore, ls: seq<Leg>, p: Poly, at: nat, c: seq<int>)
    requires Ring(s, p, ls) && at + |c| <= |Flat(s, ls)| && Flat(s, ls)[at..at + |c|] == c
    ensures var w := Nw(p); |w| >= 2 && w[0] == w[|w| - 1] && at + |c| <= |w| && w[at..at + |c|] == c
  {
    hide Course, Joint;
    var w := Nw(p);
    assert w[..|w| - 1] == Flat(s, ls);
    assert w[at..at + |c|] == w[..|w| - 1][at..at + |c|];
  }
}
