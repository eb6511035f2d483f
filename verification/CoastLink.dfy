/**
 * Finding adjacent ways: poly_get_node_ids(), the sort by node id, and poly_find_adj2() in
 * src/smcoast.c.
 *
 * The list of ways is an array of Poly records that is updated in place.  A
 * pointer into that array is the index it points at, NULL being -1.
 */
module CoastLink {
  import opened Common
  import Sorting

  const NULL: int := -1

  datatype Poly = Poly(next: int, prev: int, w: seq<int>, del: bool, open: bool, nw: Option<seq<int>>)

  /** One end point of a way: the way's index, the position within the way, and the node there. */
  datatype Pdef = Pdef(wi: nat, pn: nat, nid: int)

  // ----- the list of ways -----

  /** cat_poly() only collects ways of at least two nodes. */
  ghost predicate Ways(ws: seq<Poly>) {
    forall i :: 0 <= i < |ws| ==> |ws[i].w| >= 2
  }

  /** The state in which gather_poly0() leaves the list. */
  ghost predicate Gathered(ws: seq<Poly>) {
    && Ways(ws)
    && forall i :: 0 <= i < |ws| ==>
         ws[i].next == NULL && ws[i].prev == NULL && !ws[i].del && !ws[i].open && ws[i].nw == None
  }

  function First(p: Poly): int
    requires |p.w| >= 1
  {
    p.w[0]
  }

  function Last(p: Poly): int
    requires |p.w| >= 1
  {
    p.w[|p.w| - 1]
  }

  /** No node is the first node of two ways or the last node of two ways. */
  ghost predicate Clean(ws: seq<Poly>)
    requires Ways(ws)
  {
    && (forall a, b :: 0 <= a < |ws| && 0 <= b < |ws| && First(ws[a]) == First(ws[b]) ==> a == b)
    && (forall a, b :: 0 <= a < |ws| && 0 <= b < |ws| && Last(ws[a]) == Last(ws[b]) ==> a == b)
  }

  /** Both lists hold the same ways in the same order; links and flags may differ. */
  ghost predicate SameWays(a: seq<Poly>, b: seq<Poly>) {
    |a| == |b| && forall i :: 0 <= i < |a| ==> a[i].w == b[i].w
  }

  // ----- collecting and sorting the end points -----

  function Start(ws: seq<Poly>, i: nat): Pdef
    requires i < |ws| && |ws[i].w| >= 1
  {
    Pdef(i, 0, First(ws[i]))
  }

  function End(ws: seq<Poly>, i: nat): Pdef
    requires i < |ws| && |ws[i].w| >= 1
  {
    Pdef(i, |ws[i].w| - 1, Last(ws[i]))
  }

  ghost predicate IsEndpoints(ws: seq<Poly>, pd: seq<Pdef>)
    requires Ways(ws)
  {
    && |pd| == 2 * |ws|
    && forall i :: 0 <= i < |ws| ==> pd[i] == Start(ws, i) && pd[i + |ws|] == End(ws, i)
  }

  method PolyGetNodeIds(wl: array<Poly>) returns (pd: array<Pdef>)
    requires Ways(wl[..])
    ensures fresh(pd) && IsEndpoints(wl[..], pd[..])
  {
    var n := wl.Length;
    pd := new Pdef[n * 2](_ => Pdef(0, 0, 0));
    for i := 0 to n
      invariant forall k :: 0 <= k < i ==> pd[k] == Start(wl[..], k) && pd[k + n] == End(wl[..], k)
    {
      var w := wl[i].w;
      pd[i] := Pdef(i, 0, w[0]);
      pd[i + n] := Pdef(i, |w| - 1, w[|w| - 1]);
    }
  }

  predicate NidLe(a: Pdef, b: Pdef) {
    a.nid < b.nid || (a.nid == b.nid && a.pn <= b.pn)
  }

  /** What is known of the end points once they are sorted by node id and position. */
  ghost predicate SortedEndpoints(ws: seq<Poly>, pd: seq<Pdef>)
    requires Ways(ws)
  {
    && Sorting.SortedBy(NidLe, pd)
    && exists raw :: IsEndpoints(ws, raw) && multiset(pd) == multiset(raw)
  }

  lemma EndpointsDistinct(ws: seq<Poly>, pd: seq<Pdef>)
    requires Ways(ws) && IsEndpoints(ws, pd)
    ensures Distinct(pd)
  {
    forall i, j | 0 <= i < j < |pd| ensures pd[i] != pd[j] {
      assert i < |ws| || pd[i] == End(ws, i - |ws|);
      assert j < |ws| || pd[j] == End(ws, j - |ws|);
    }
  }

  /** Sorting loses no end point and repeats none. */
  lemma SortedEndpointFacts(ws: seq<Poly>, pd: seq<Pdef>)
    requires Ways(ws) && SortedEndpoints(ws, pd)
    ensures |pd| == 2 * |ws| && Distinct(pd)
    ensures forall k :: 0 <= k < |pd| ==>
      pd[k].wi < |ws| && (pd[k] == Start(ws, pd[k].wi) || pd[k] == End(ws, pd[k].wi))
    ensures forall i :: 0 <= i < |ws| ==> Start(ws, i) in pd && End(ws, i) in pd
  {
    var raw :| IsEndpoints(ws, raw) && multiset(pd) == multiset(raw);
    EndpointsDistinct(ws, raw);
    DistinctPerm(pd, raw);
    PermSize(pd, raw);
    forall k | 0 <= k < |pd|
      ensures pd[k].wi < |ws| && (pd[k] == Start(ws, pd[k].wi) || pd[k] == End(ws, pd[k].wi))
    {
      PermMember(pd, raw, pd[k]);
      var m :| 0 <= m < |raw| && raw[m] == pd[k];
      assert m < |ws| || raw[m] == End(ws, m - |ws|);
    }
    forall i | 0 <= i < |ws| ensures Start(ws, i) in pd && End(ws, i) in pd {
      assert raw[i] == Start(ws, i) && raw[i + |ws|] == End(ws, i);
      PermMember(pd, raw, Start(ws, i));
      PermMember(pd, raw, End(ws, i));
    }
  }

  // ----- linking adjacent ways -----

  function SetLink(ws: seq<Poly>, b: nat, a: nat): seq<Poly>
    requires a < |ws| && b < |ws|
  {
    var s := ws[b := ws[b].(next := a)];
    s[a := s[a].(prev := b)]
  }

  /** The list after the first k neighbouring pairs of end points were compared. */
  function Linked(ws: seq<Poly>, pd: seq<Pdef>, k: nat): (r: seq<Poly>)
    requires k == 0 || k < |pd|
    requires forall i :: 0 <= i < |pd| ==> pd[i].wi < |ws|
    ensures SameWays(ws, r)
  {
    if k == 0 then ws
    else
      var s := Linked(ws, pd, k - 1);
      if pd[k - 1].nid == pd[k].nid then SetLink(s, pd[k].wi, pd[k - 1].wi) else s
  }

  /** The positions up to k at which two neighbouring end points are the same node. */
  ghost function Meetings(pd: seq<Pdef>, k: nat): set<nat> {
    set m: nat | m <= k && MeetsPrevious(pd, m)
  }

  predicate MeetsPrevious(pd: seq<Pdef>, m: nat) {
    0 < m < |pd| && pd[m - 1].nid == pd[m].nid
  }

  function LastPair(pd: seq<Pdef>): nat {
    if |pd| == 0 then 0 else |pd| - 1
  }

  method PolyFindAdj2(wl: array<Poly>, pd: array<Pdef>) returns (n: nat)
    requires pd.Length == 2 * wl.Length
    requires forall i :: 0 <= i < pd.Length ==> pd[i].wi < wl.Length
    modifies wl
    ensures wl[..] == Linked(old(wl[..]), pd[..], LastPair(pd[..]))
    ensures n == |Meetings(pd[..], pd.Length)|
  {
    n := 0;
    assert Meetings(pd[..], 0) == {};
    var i := 0;
    ghost var ws := wl[..];
    while i < wl.Length * 2 - 1
      invariant 0 <= i && i <= LastPair(pd[..])
      invariant wl[..] == Linked(ws, pd[..], i)
      invariant n == |Meetings(pd[..], i)|
    {
      OneMoreMeeting(pd[..], i);
      if pd[i].nid == pd[i + 1].nid {
        var a, b := pd[i].wi, pd[i + 1].wi;
        wl[b] := wl[b].(next := a);
        wl[a] := wl[a].(prev := b);
        assert wl[..] == SetLink(Linked(ws, pd[..], i), b, a);
        n := n + 1;
      }
      i := i + 1;
    }
    assert Meetings(pd[..], pd.Length) == Meetings(pd[..], i);
  }

  lemma OneMoreMeeting(pd: seq<Pdef>, k: nat)
    requires k + 1 < |pd|
    ensures |Meetings(pd, k + 1)| == |Meetings(pd, k)| + if pd[k].nid == pd[k + 1].nid then 1 else 0
  {
    assert Meetings(pd, k + 1) == Meetings(pd, k) + if pd[k].nid == pd[k + 1].nid then {k + 1} else {};
  }

  /**
   * The links that PolyFindAdj2 can produce, whatever the data: every link
   * stays inside the list, and a way that is somebody's successor has a predecessor.
   */
  ghost predicate LinkOk(ws: seq<Poly>) {
    && InRange(ws)
    && forall i {:trigger ws[i].next} :: 0 <= i < |ws| && ws[i].next != NULL ==> ws[ws[i].next].prev != NULL
  }

  ghost predicate InRange(ws: seq<Poly>) {
    && (forall i {:trigger ws[i].next} :: 0 <= i < |ws| ==> ws[i].next == NULL || 0 <= ws[i].next < |ws|)
    && (forall i {:trigger ws[i].prev} :: 0 <= i < |ws| ==> ws[i].prev == NULL || 0 <= ws[i].prev < |ws|)
  }

  lemma {:induction false} LinkedIsOk(ws: seq<Poly>, pd: seq<Pdef>, k: nat)
    requires Gathered(ws)
    requires k == 0 || k < |pd|
    requires forall i :: 0 <= i < |pd| ==> pd[i].wi < |ws|
    ensures LinkOk(Linked(ws, pd, k))
    ensures forall i :: 0 <= i < |ws| ==>
      var p := Linked(ws, pd, k)[i]; p == ws[i].(next := p.next, prev := p.prev)
  {
    hide LinkOk, SetLink;
    if k > 0 {
      LinkedIsOk(ws, pd, k - 1);
      if pd[k - 1].nid == pd[k].nid {
        SetLinkIsOk(Linked(ws, pd, k - 1), pd[k].wi, pd[k - 1].wi);
      }
    } else {
      GatheredIsOk(ws);
    }
  }

  lemma GatheredIsOk(ws: seq<Poly>)
    requires Gathered(ws)
    ensures LinkOk(ws)
  {
  }

  lemma SetLinkIsOk(ws: seq<Poly>, b: nat, a: nat)
    requires LinkOk(ws) && a < |ws| && b < |ws|
    ensures LinkOk(SetLink(ws, b, a))
    ensures forall i :: 0 <= i < |ws| ==>
      var p := SetLink(ws, b, a)[i]; p == ws[i].(next := p.next, prev := p.prev)
  {
    var r := SetLink(ws, b, a);
    assert forall i {:trigger r[i].next} :: 0 <= i < |r| ==> r[i].next == if i == b then a else ws[i].next;
    assert forall i {:trigger r[i].prev} :: 0 <= i < |r| ==> r[i].prev == if i == a then b else ws[i].prev;
  }

  /** Links are exact: b is followed by a iff b ends where a starts, and prev is the inverse of next. */
  ghost predicate LinksExact(ws: seq<Poly>)
    requires Ways(ws)
  {
    && InRange(ws)
    && (forall a, b :: 0 <= a < |ws| && 0 <= b < |ws| ==> (ws[b].next == a <==> Last(ws[b]) == First(ws[a])))
    && (forall a, b :: 0 <= a < |ws| && 0 <= b < |ws| ==> (ws[a].prev == b <==> Last(ws[b]) == First(ws[a])))
  }

  /** In clean data two neighbours with the same node are the start of one way and the end of one way. */
  lemma CleanNeighbours(ws: seq<Poly>, pd: seq<Pdef>, k: int)
    requires Ways(ws) && Clean(ws) && SortedEndpoints(ws, pd)
    requires 1 <= k < |pd| && pd[k - 1].nid == pd[k].nid
    ensures pd[k - 1].wi < |ws| && pd[k].wi < |ws|
    ensures pd[k - 1] == Start(ws, pd[k - 1].wi) && pd[k] == End(ws, pd[k].wi)
  {
    SortedEndpointFacts(ws, pd);
    assert pd[k - 1] != pd[k] && NidLe(pd[k - 1], pd[k]);
  }

  /** In clean data an end and a start at the same node are neighbours. */
  lemma CleanMeet(ws: seq<Poly>, pd: seq<Pdef>, a: nat, b: nat) returns (k: nat)
    requires Ways(ws) && Clean(ws) && SortedEndpoints(ws, pd)
    requires a < |ws| && b < |ws| && Last(ws[b]) == First(ws[a])
    ensures 1 <= k < |pd| && pd[k - 1] == Start(ws, a) && pd[k] == End(ws, b)
  {
    var i, j := FindEnds(ws, pd, a, b);
    var lo, hi := if i < j then i else j, if i < j then j else i;
    assert NidLe(pd[lo], pd[hi]);
    assert i < j;
    if i + 1 < j {
      assert NidLe(pd[i], pd[i + 1]) && NidLe(pd[i + 1], pd[j]);
      CleanNeighbours(ws, pd, i + 1);
      assert pd[i + 1] == pd[j];
      SortedEndpointFacts(ws, pd);
      assert false;
    }
    k := j;
  }

  lemma FindEnds(ws: seq<Poly>, pd: seq<Pdef>, a: nat, b: nat) returns (i: nat, j: nat)
    requires Ways(ws) && SortedEndpoints(ws, pd)
    requires a < |ws| && b < |ws|
    ensures i < |pd| && j < |pd| && pd[i] == Start(ws, a) && pd[j] == End(ws, b)
  {
    SortedEndpointFacts(ws, pd);
    i :| 0 <= i < |pd| && pd[i] == Start(ws, a);
    j :| 0 <= j < |pd| && pd[j] == End(ws, b);
  }

  /** Pair m of neighbouring end points joins way b to way a. */
  ghost predicate PairAt(pd: seq<Pdef>, m: int, a: int, b: int) {
    1 <= m < |pd| && pd[m - 1].nid == pd[m].nid && pd[m - 1].wi == a && pd[m].wi == b
  }

  ghost predicate PairWithin(pd: seq<Pdef>, k: nat, a: int, b: int) {
    exists m :: m <= k && PairAt(pd, m, a, b)
  }

  /** In clean data no way is the left, and no way is the right, of two different pairs. */
  lemma PairsUnique(ws: seq<Poly>, pd: seq<Pdef>, m: int, a: int, b: int, m': int, a': int, b': int)
    requires Ways(ws) && Clean(ws) && SortedEndpoints(ws, pd)
    requires PairAt(pd, m, a, b) && PairAt(pd, m', a', b') && (a == a' || b == b')
    ensures m == m' && a == a' && b == b'
  {
    CleanNeighbours(ws, pd, m);
    CleanNeighbours(ws, pd, m');
    SortedEndpointFacts(ws, pd);
  }

  /** Every link comes from one of the first k pairs. */
  ghost predicate LinksSound(r: seq<Poly>, pd: seq<Pdef>, k: nat) {
    && (forall i :: 0 <= i < |r| && r[i].next != NULL ==> PairWithin(pd, k, r[i].next, i))
    && (forall i :: 0 <= i < |r| && r[i].prev != NULL ==> PairWithin(pd, k, i, r[i].prev))
  }

  /** Each of the first k pairs is linked. */
  ghost predicate LinksComplete(r: seq<Poly>, pd: seq<Pdef>, k: nat) {
    forall m, a, b :: m <= k && PairAt(pd, m, a, b) ==>
      0 <= a < |r| && 0 <= b < |r| && r[b].next == a && r[a].prev == b
  }

  lemma SoundStep(s: seq<Poly>, pd: seq<Pdef>, k: nat, a: nat, b: nat)
    requires 1 <= k && LinksSound(s, pd, k - 1) && a < |s| && b < |s| && PairAt(pd, k, a, b)
    ensures LinksSound(SetLink(s, b, a), pd, k)
  {
    forall x, y | PairWithin(pd, k - 1, x, y) ensures PairWithin(pd, k, x, y) {
      var m :| m <= k - 1 && PairAt(pd, m, x, y);
      assert m <= k;
    }
    assert PairWithin(pd, k, a, b);
    var r := SetLink(s, b, a);
    assert forall i :: 0 <= i < |r| ==> r[i].next == if i == b then a else s[i].next;
    assert forall i :: 0 <= i < |r| ==> r[i].prev == if i == a then b else s[i].prev;
  }

  lemma SoundWeaken(s: seq<Poly>, pd: seq<Pdef>, k: nat)
    requires LinksSound(s, pd, k)
    ensures LinksSound(s, pd, k + 1)
  {
    forall x, y | PairWithin(pd, k, x, y) ensures PairWithin(pd, k + 1, x, y) {
      var m :| m <= k && PairAt(pd, m, x, y);
      assert m <= k + 1;
    }
  }

  lemma CompleteStep(ws: seq<Poly>, s: seq<Poly>, pd: seq<Pdef>, k: nat, a: nat, b: nat)
    requires Ways(ws) && Clean(ws) && SortedEndpoints(ws, pd) && |s| == |ws|
    requires 1 <= k && LinksComplete(s, pd, k - 1) && a < |s| && b < |s| && PairAt(pd, k, a, b)
    ensures LinksComplete(SetLink(s, b, a), pd, k)
  {
    var r := SetLink(s, b, a);
    forall m, x, y | m <= k && PairAt(pd, m, x, y)
      ensures 0 <= x < |r| && 0 <= y < |r| && r[y].next == x && r[x].prev == y
    {
      if x == a || y == b {
        PairsUnique(ws, pd, m, x, y, k, a, b);
      } else {
        assert m < k;
      }
    }
  }

  lemma CompleteWeaken(s: seq<Poly>, pd: seq<Pdef>, k: nat)
    requires LinksComplete(s, pd, k) && k + 1 < |pd| && pd[k].nid != pd[k + 1].nid
    ensures LinksComplete(s, pd, k + 1)
  {
  }

  lemma NoneLinked(ws: seq<Poly>, pd: seq<Pdef>)
    requires Gathered(ws)
    ensures LinksSound(ws, pd, 0) && LinksComplete(ws, pd, 0)
  {
  }

  lemma {:induction false} CleanLinkedStep(ws: seq<Poly>, pd: seq<Pdef>, k: nat)
    requires Gathered(ws) && Clean(ws) && SortedEndpoints(ws, pd)
    requires k == 0 || k < |pd|
    requires forall i :: 0 <= i < |pd| ==> pd[i].wi < |ws|
    ensures LinksSound(Linked(ws, pd, k), pd, k) && LinksComplete(Linked(ws, pd, k), pd, k)
  {
    hide LinksSound, LinksComplete, Clean, SortedEndpoints, PairWithin;
    if k == 0 {
      NoneLinked(ws, pd);
    } else {
      CleanLinkedStep(ws, pd, k - 1);
      var s := Linked(ws, pd, k - 1);
      if pd[k - 1].nid == pd[k].nid {
        SoundStep(s, pd, k, pd[k - 1].wi, pd[k].wi);
        CompleteStep(ws, s, pd, k, pd[k - 1].wi, pd[k].wi);
      } else {
        SoundWeaken(s, pd, k - 1);
        CompleteWeaken(s, pd, k - 1);
      }
    }
  }

  /** Linked ways meet. */
  ghost predicate LinksMeet(r: seq<Poly>)
    requires Ways(r)
  {
    && InRange(r)
    && (forall a, b :: 0 <= a < |r| && 0 <= b < |r| && (r[b].next == a || r[a].prev == b) ==> Last(r[b]) == First(r[a]))
  }

  lemma SoundMeets(ws: seq<Poly>, r: seq<Poly>, pd: seq<Pdef>, k: nat)
    requires Ways(ws) && Clean(ws) && SortedEndpoints(ws, pd) && SameWays(ws, r)
    requires LinksSound(r, pd, k)
    ensures LinksMeet(r)
  {
    hide Clean, SortedEndpoints, LinksSound;
    forall i | 0 <= i < |r| ensures WayMeets(ws, r, i) {
      WaySoundMeets(ws, r, pd, k, i);
    }
    forall a, b | 0 <= a < |r| && 0 <= b < |r| && (r[b].next == a || r[a].prev == b) ensures Last(r[b]) == First(r[a]) {
      assert WayMeets(ws, r, a) && WayMeets(ws, r, b);
      assert ws[a].w == r[a].w && ws[b].w == r[b].w;
    }
    forall i | 0 <= i < |r|
      ensures (r[i].next == NULL || 0 <= r[i].next < |r|) && (r[i].prev == NULL || 0 <= r[i].prev < |r|)
    {
      assert WayMeets(ws, r, i);
    }
  }

  ghost predicate WayMeets(ws: seq<Poly>, r: seq<Poly>, i: int)
    requires Ways(ws) && |r| == |ws| && 0 <= i < |r|
  {
    && (r[i].next != NULL ==> 0 <= r[i].next < |r| && Last(ws[i]) == First(ws[r[i].next]))
    && (r[i].prev != NULL ==> 0 <= r[i].prev < |r| && Last(ws[r[i].prev]) == First(ws[i]))
  }

  lemma WaySoundMeets(ws: seq<Poly>, r: seq<Poly>, pd: seq<Pdef>, k: nat, i: nat)
    requires Ways(ws) && Clean(ws) && SortedEndpoints(ws, pd) && |ws| == |r| && i < |r|
    requires LinksSound(r, pd, k)
    ensures WayMeets(ws, r, i)
  {
    hide Clean, SortedEndpoints, PairWithin;
    if r[i].next != NULL {
      PairJoins(ws, pd, k, r[i].next, i);
    }
    if r[i].prev != NULL {
      PairJoins(ws, pd, k, i, r[i].prev);
    }
  }

  /** Sorting and linking clean data yields exact links. */
  lemma CleanLinked(ws: seq<Poly>, pd: seq<Pdef>)
    requires Gathered(ws) && Clean(ws) && SortedEndpoints(ws, pd)
    requires forall i :: 0 <= i < |pd| ==> pd[i].wi < |ws|
    ensures LinksExact(Linked(ws, pd, LastPair(pd)))
  {
    var k := LastPair(pd);
    var r := Linked(ws, pd, k);
    CleanLinkedStep(ws, pd, k);
    SoundMeets(ws, r, pd, k);
    forall a: nat, b: nat | a < |r| && b < |r| && Last(r[b]) == First(r[a])
      ensures r[b].next == a && r[a].prev == b
    {
      MeetLinked(ws, r, pd, a, b);
    }
  }

  lemma MeetLinked(ws: seq<Poly>, r: seq<Poly>, pd: seq<Pdef>, a: nat, b: nat)
    requires Ways(ws) && Clean(ws) && SortedEndpoints(ws, pd) && SameWays(ws, r)
    requires LinksComplete(r, pd, LastPair(pd))
    requires a < |ws| && b < |ws| && Last(ws[b]) == First(ws[a])
    ensures r[b].next == a && r[a].prev == b
  {
    var m := CleanMeet(ws, pd, a, b);
    assert PairAt(pd, m, a, b);
  }

  lemma PairJoins(ws: seq<Poly>, pd: seq<Pdef>, k: nat, a: int, b: int)
    requires Ways(ws) && Clean(ws) && SortedEndpoints(ws, pd) && PairWithin(pd, k, a, b)
    ensures 0 <= a < |ws| && 0 <= b < |ws| && Last(ws[b]) == First(ws[a])
  {
    var m :| m <= k && PairAt(pd, m, a, b);
    CleanNeighbours(ws, pd, m);
  }
}
