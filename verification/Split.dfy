/**
 * Splitting ways at a node: has_id(), update_rev_ptr() and act_split_main()
 * in src/smfunc.c, without the parameter "remsegment".
 */
module Split {
  import opened Common
  import opened OsmIndex

  // ----- update_rev_ptr() as a function -----

  /**
   * What happens to the list of one node of the new way: the new way takes the place of the
   * original one if the node is no longer part of that, otherwise it is appended.  None if a
   * search runs past the end of the list.
   */
  function UpdateList(l: seq<Ptr>, inOrg: bool, org: Obj, new': Obj): Option<seq<Ptr>> {
    match Scan(l, if inOrg then Null else To(org), 0)
    case None => None
    case Some(n) => Some(if inOrg then l[..n] + [To(new'), Null] else l[n := To(new')])
  }

  /** A node without a list gets one that holds nothing but the NULL pointer. */
  function ListAt(lists: Lists, o: Obj): seq<Ptr> {
    if o in lists then lists[o] else [Null]
  }

  /** The index after the first k references of the new way were handled. */
  function Update(lists: Lists, org: Obj, orgRef: seq<int>, new': Obj, newRef: seq<int>, k: nat): Option<Lists>
    requires k <= |newRef|
  {
    if k == 0 then Some(lists)
    else
      match Update(lists, org, orgRef, new', newRef, k - 1)
      case None => None
      case Some(m) =>
        var o := Obj(Node, newRef[k - 1]);
        match UpdateList(ListAt(m, o), o.id in orgRef, org, new')
        case None => None
        case Some(l) => Some(m[o := l])
  }

  // ----- update_rev_ptr() in place -----

  /** Index of an id in a list of references, or -1. */
  method HasId(w: seq<int>, id: int) returns (i: int)
    ensures i == -1 <==> id !in w
    ensures i != -1 ==> 0 <= i < |w| && w[i] == id && id !in w[..i]
  {
    i := 0;
    while i < |w|
      invariant 0 <= i <= |w| && id !in w[..i]
    {
      if w[i] == id {
        return;
      }
      i := i + 1;
    }
    i := -1;
  }

  /** Returns how many lists were reallocated. */
  method UpdateRevPtr(idx: Index, org: Obj, orgRef: seq<int>, new': Obj, newRef: seq<int>) returns (ret: nat)
    requires Update(idx.lists, org, orgRef, new', newRef, |newRef|).Some?
    modifies idx
    ensures Update(old(idx.lists), org, orgRef, new', newRef, |newRef|) == Some(idx.lists)
    ensures ret == 0 <==> forall i :: 0 <= i < |newRef| ==>
      newRef[i] !in orgRef && Obj(Node, newRef[i]) in old(idx.lists)
  {
    hide Update, UpdateList;
    ret := 0;
    ghost var lists := idx.lists;
    UpdateNothing(lists, org, orgRef, new', newRef);
    for i := 0 to |newRef|
      invariant Update(lists, org, orgRef, new', newRef, i) == Some(idx.lists)
      invariant ret == 0 <==> forall k :: 0 <= k < i ==> newRef[k] !in orgRef && Obj(Node, newRef[k]) in lists
      invariant lists.Keys <= idx.lists.Keys && (ret == 0 ==> idx.lists.Keys == lists.Keys)
    {
      UpdateNext(lists, org, orgRef, new', newRef, i);
      var o := Obj(Node, newRef[i]);
      ghost var before := idx.lists;
      if o !in idx.lists {
        idx.lists := idx.lists[o := [Null]];
        ret := ret + 1;
      }
      var l := idx.lists[o];
      var h := HasId(orgRef, newRef[i]);
      if h == -1 {
        var n := GetRevIndex(Some(l), To(org));
        l := l[n := To(new')];
      } else {
        var n := GetRevIndex(Some(l), Null);
        l := l[..n] + [To(new'), Null];
        ret := ret + 1;
      }
      idx.lists := idx.lists[o := l];
      assert idx.lists == before[o := l];
    }
  }

  lemma UpdateNothing(lists: Lists, org: Obj, orgRef: seq<int>, new': Obj, newRef: seq<int>)
    ensures Update(lists, org, orgRef, new', newRef, 0) == Some(lists)
  {
  }

  lemma UpdateNext(lists: Lists, org: Obj, orgRef: seq<int>, new': Obj, newRef: seq<int>, i: nat)
    requires Update(lists, org, orgRef, new', newRef, |newRef|).Some? && i < |newRef|
    ensures Update(lists, org, orgRef, new', newRef, i).Some?
    ensures var m := Update(lists, org, orgRef, new', newRef, i).value;
      var o := Obj(Node, newRef[i]);
      var inOrg := newRef[i] in orgRef;
      var n := Scan(ListAt(m, o), if inOrg then Null else To(org), 0);
      && n.Some?
      && Update(lists, org, orgRef, new', newRef, i + 1) ==
           Some(m[o := if inOrg then ListAt(m, o)[..n.value] + [To(new'), Null] else ListAt(m, o)[n.value := To(new')]])
  {
    UpdatePrefix(lists, org, orgRef, new', newRef, i + 1);
  }

  lemma {:induction false} UpdatePrefix(lists: Lists, org: Obj, orgRef: seq<int>, new': Obj, newRef: seq<int>, k: nat)
    requires Update(lists, org, orgRef, new', newRef, |newRef|).Some? && k <= |newRef|
    ensures Update(lists, org, orgRef, new', newRef, k).Some?
    decreases |newRef| - k
  {
    if k < |newRef| {
      UpdatePrefix(lists, org, orgRef, new', newRef, k + 1);
    }
  }

  // ----- the list of one node, followed through the update -----

  /** The list after n updates. */
  function Times(l: seq<Ptr>, inOrg: bool, org: Obj, new': Obj, n: nat): Option<seq<Ptr>> {
    if n == 0 then Some(l)
    else
      match Times(l, inOrg, org, new', n - 1)
      case None => None
      case Some(m) => UpdateList(m, inOrg, org, new')
  }

  function Count(w: seq<int>, x: int, k: nat): nat
    requires k <= |w|
  {
    if k == 0 then 0 else Count(w, x, k - 1) + if w[k - 1] == x then 1 else 0
  }

  lemma {:induction false} CountZero(w: seq<int>, x: int, k: nat)
    requires k <= |w|
    ensures Count(w, x, k) == 0 <==> x !in w[..k]
  {
    if k > 0 {
      CountZero(w, x, k - 1);
      assert w[..k] == w[..k - 1] + [w[k - 1]];
    }
  }

  lemma {:induction false} CountTwo(w: seq<int>, i: nat, j: nat, k: nat)
    requires i < j < k <= |w| && w[i] == w[j]
    ensures Count(w, w[i], k) >= 2
  {
    if j < k - 1 {
      CountTwo(w, i, j, k - 1);
    } else {
      CountZero(w, w[i], k - 1);
      assert w[..k - 1][i] == w[i];
    }
  }

  lemma {:induction false} CountDistinct(w: seq<int>, x: int, k: nat)
    requires Distinct(w) && k <= |w|
    ensures Count(w, x, k) == if x in w[..k] then 1 else 0
  {
    if k > 0 {
      CountDistinct(w, x, k - 1);
      assert w[..k] == w[..k - 1] + [w[k - 1]];
    }
  }

  /** Each list changes as often as its node occurs in the new way. */
  lemma {:induction false} UpdateListwise(lists: Lists, org: Obj, orgRef: seq<int>, new': Obj, newRef: seq<int>,
      k: nat, o: Obj)
    requires k <= |newRef| && Update(lists, org, orgRef, new', newRef, k).Some?
    ensures var m := Update(lists, org, orgRef, new', newRef, k).value;
      var c := if o.kind == Node then Count(newRef, o.id, k) else 0;
      && (o in m <==> o in lists || c > 0)
      && Times(ListAt(lists, o), o.id in orgRef, org, new', c) == Some(ListAt(m, o))
  {
    hide UpdateList;
    if k > 0 {
      UpdateListwise(lists, org, orgRef, new', newRef, k - 1, o);
    }
  }

  /** The update is defined if it is for each node. */
  lemma {:induction false} UpdateDefined(lists: Lists, org: Obj, orgRef: seq<int>, new': Obj, newRef: seq<int>, k: nat)
    requires k <= |newRef|
    requires forall x, c: nat :: x in newRef && c <= Count(newRef, x, |newRef|) ==>
               Times(ListAt(lists, Obj(Node, x)), x in orgRef, org, new', c).Some?
    ensures Update(lists, org, orgRef, new', newRef, k).Some?
  {
    hide UpdateList;
    if k > 0 {
      UpdateDefined(lists, org, orgRef, new', newRef, k - 1);
      var x := newRef[k - 1];
      UpdateListwise(lists, org, orgRef, new', newRef, k - 1, Obj(Node, x));
      CountGrows(newRef, x, k);
      assert Times(ListAt(lists, Obj(Node, x)), x in orgRef, org, new', Count(newRef, x, k)).Some?;
    }
  }

  lemma {:induction false} CountGrows(w: seq<int>, x: int, k: nat)
    requires k <= |w|
    ensures Count(w, x, k) <= Count(w, x, |w|)
    decreases |w| - k
  {
    if k < |w| {
      CountGrows(w, x, k + 1);
    }
  }

  // ----- when the index stays exact -----

  /** Way w is cut in two at reference c; the second part becomes the new way w2. */
  ghost predicate Cut(d: Data, w: int, w2: int, c: nat, d': Data) {
    && w in d.ways && 0 < c < |d.ways[w]| && w2 !in d.ways
    && d' == d.(ways := d.ways[w := d.ways[w][..c + 1]][w2 := d.ways[w][c..]])
  }

  /** No relation has a member with the id of this way, which may not exist. */
  ghost predicate Unnamed(d: Data, w: int) {
    forall r :: r in d.rels ==> Obj(Way, w) !in d.rels[r]
  }

  /** Who refers to an object after the cut. */
  lemma CutLinks(d: Data, w: int, w2: int, c: nat, d': Data, o: Obj, p: Obj)
    requires Cut(d, w, w2, c, d') && (o.kind == Node || Unnamed(d, w2))
    ensures RefersTo(d', p, o) <==>
      if p == Obj(Way, w) then o.kind == Node && o.id in d.nodes && o.id in d.ways[w][..c + 1]
      else if p == Obj(Way, w2) then o.kind == Node && o.id in d.nodes && o.id in d.ways[w][c..]
      else RefersTo(d, p, o)
    ensures !RefersTo(d, Obj(Way, w2), o)
    ensures RefersTo(d, Obj(Way, w), o) <==>
      o.kind == Node && o.id in d.nodes && (o.id in d.ways[w][..c + 1] || o.id in d.ways[w][c..])
  {
    var ref := d.ways[w];
    assert ref == ref[..c + 1] + ref[c + 1..];
    assert ref[c..] == [ref[c]] + ref[c + 1..] && ref[..c + 1] == ref[..c] + [ref[c]];
  }

  lemma AppendOnce(l: seq<Ptr>, org: Obj, new': Obj)
    requires IsList(l)
    ensures Times(l, true, org, new', 1) == Some(Appended(l, new'))
  {
    assert Times(l, true, org, new', 0) == Some(l);
    assert Scan(l, Null, 0) == Some(|l| - 1);
  }

  lemma ReplaceOnce(l: seq<Ptr>, org: Obj, new': Obj) returns (n: nat)
    requires IsList(l) && org in Content(l)
    ensures n < |l| - 1 && l[n] == To(org)
    ensures Times(l, false, org, new', 1) == Some(l[n := To(new')])
    ensures IsList(l[n := To(new')]) && Content(l[n := To(new')]) == Content(l)[n := new']
  {
    assert Times(l, false, org, new', 0) == Some(l);
    var i :| 0 <= i < |Content(l)| && Content(l)[i] == org;
    assert l[i] == To(org);
    n := Scan(l, To(org), 0).value;
    assert n <= i;
  }

  /** The list of a node of the new way, handled once, is as it should be. */
  lemma NodeStaysExact(d: Data, w: int, w2: int, c: nat, d': Data, lists: Lists, x: int)
    requires Cut(d, w, w2, c, d') && Represents(lists, AllLinks(d))
    requires x in d.ways[w][c..] && x in d.nodes
    ensures var o := Obj(Node, x);
      var t := Times(ListAt(lists, o), x in d.ways[w][..c + 1], Obj(Way, w), Obj(Way, w2), 1);
      t.Some? && forall m: Lists :: o in m && m[o] == t.value ==> ListOk(m, AllLinks(d'), o)
  {
    var o, org, new' := Obj(Node, x), Obj(Way, w), Obj(Way, w2);
    RepresentsListwise(lists, AllLinks(d));
    assert ListOk(lists, AllLinks(d), o);
    AllLinksAre(d, o, org);
    AllLinksAre(d, o, new');
    CutLinks(d, w, w2, c, d', o, org);
    CutLinks(d, w, w2, c, d', o, new');
    var l := lists[o];
    var s := Content(l);
    forall p ensures (o, p) in AllLinks(d') <==>
        if p == org then x in d.ways[w][..c + 1] else p == new' || (o, p) in AllLinks(d)
    {
      CutLinks(d, w, w2, c, d', o, p);
      AllLinksAre(d, o, p);
      AllLinksAre(d', o, p);
    }
    if x in d.ways[w][..c + 1] {
      AppendOnce(l, org, new');
      DistinctConcat(s, [new']);
    } else {
      var n := ReplaceOnce(l, org, new');
      ReplacedContent(s, n, new');
    }
  }

  lemma ReplacedContent<T>(s: seq<T>, n: nat, y: T)
    requires n < |s| && Distinct(s) && y !in s
    ensures Distinct(s[n := y])
    ensures forall x :: x in s[n := y] <==> x == y || (x in s && x != s[n])
  {
    var t := s[n := y];
    forall x ensures x in t <==> x == y || (x in s && x != s[n]) {
      if x in s && x != s[n] {
        var i :| 0 <= i < |s| && s[i] == x;
        assert t[i] == x;
      }
      if x in t && x != y {
        var i :| 0 <= i < |t| && t[i] == x;
        assert s[i] == x;
      }
      assert t[n] == y;
    }
  }

  /** The list of an object that is not in the new way needs no change. */
  lemma OthersStayExact(d: Data, w: int, w2: int, c: nat, d': Data, lists: Lists, o: Obj)
    requires Cut(d, w, w2, c, d') && Represents(lists, AllLinks(d))
    requires !(o.kind == Node && o.id in d.ways[w][c..]) && (o.kind == Node || Unnamed(d, w2))
    ensures ListOk(lists, AllLinks(d'), o)
  {
    RepresentsListwise(lists, AllLinks(d));
    assert ListOk(lists, AllLinks(d), o);
    forall p ensures (o, p) in AllLinks(d') <==> (o, p) in AllLinks(d) {
      CutLinks(d, w, w2, c, d', o, p);
      CutLinks(d, w, w2, c, d', o, Obj(Way, w));
      AllLinksAre(d, o, p);
      AllLinksAre(d', o, p);
    }
  }

  ghost predicate Updated(lists: Lists, d: Data, w: int, w2: int, c: nat, u: Option<Lists>)
    requires w in d.ways && c < |d.ways[w]|
  {
    u == Update(lists, Obj(Way, w), d.ways[w][..c + 1], Obj(Way, w2), d.ways[w][c..], |d.ways[w][c..]|)
  }

  /** What a cut needs for the index to stay exact: the nodes of the new way exist and differ from each other. */
  ghost predicate Splittable(d: Data, w: int, c: nat)
    requires w in d.ways && c < |d.ways[w]|
  {
    Distinct(d.ways[w][c..]) && forall x :: x in d.ways[w][c..] ==> x in d.nodes
  }

  /** The update is defined and the index stays exact: complete, terminated and without repetition. */
  lemma CutKeepsExact(d: Data, w: int, w2: int, c: nat, d': Data, lists: Lists, u: Option<Lists>)
    requires Cut(d, w, w2, c, d') && Unnamed(d, w2) && Represents(lists, AllLinks(d))
    requires Splittable(d, w, c) && Updated(lists, d, w, w2, c, u)
    ensures u.Some? && Represents(u.value, AllLinks(d'))
  {
    var org, new', orgRef, newRef := Obj(Way, w), Obj(Way, w2), d.ways[w][..c + 1], d.ways[w][c..];
    forall x, k: nat | x in newRef && k <= Count(newRef, x, |newRef|)
      ensures Times(ListAt(lists, Obj(Node, x)), x in orgRef, org, new', k).Some?
    {
      CountDistinct(newRef, x, |newRef|);
      NodeStaysExact(d, w, w2, c, d', lists, x);
    }
    UpdateDefined(lists, org, orgRef, new', newRef, |newRef|);
    forall o ensures ListOk(u.value, AllLinks(d'), o) {
      UpdateListwise(lists, org, orgRef, new', newRef, |newRef|, o);
      if o.kind == Node && o.id in newRef {
        assert newRef[..|newRef|] == newRef;
        CountDistinct(newRef, o.id, |newRef|);
        NodeStaysExact(d, w, w2, c, d', lists, o.id);
      } else {
        if o.kind == Node {
          assert newRef[..|newRef|] == newRef;
          CountZero(newRef, o.id, |newRef|);
        }
        OthersStayExact(d, w, w2, c, d', lists, o);
      }
    }
    RepresentsListwise(u.value, AllLinks(d'));
  }

  /** Once a list has no NULL pointer left it gets none from further replacements. */
  lemma {:induction false} NeverTerminatedAgain(l: seq<Ptr>, org: Obj, new': Obj, n: nat, m: nat)
    requires n <= m && Times(l, false, org, new', m).Some?
    requires Times(l, false, org, new', n).Some? && Null !in Times(l, false, org, new', n).value
    ensures Null !in Times(l, false, org, new', m).value
    decreases m - n
  {
    if n < m {
      var t := Times(l, false, org, new', n).value;
      TimesPrefix(l, false, org, new', n + 1, m);
      var k := Scan(t, To(org), 0).value;
      assert Times(l, false, org, new', n + 1) == Some(t[k := To(new')]);
      NeverTerminatedAgain(l, org, new', n + 1, m);
    }
  }

  lemma {:induction false} TimesPrefix(l: seq<Ptr>, inOrg: bool, org: Obj, new': Obj, n: nat, m: nat)
    requires n <= m && Times(l, inOrg, org, new', m).Some?
    ensures Times(l, inOrg, org, new', n).Some?
    decreases m - n
  {
    if n < m {
      TimesPrefix(l, inOrg, org, new', n, m - 1);
    }
  }

  /** A node that occurs twice in the new way and no more in the original one loses its terminator. */
  lemma SecondReplaceUnterminated(l: seq<Ptr>, org: Obj, new': Obj)
    requires IsList(l) && Distinct(Content(l)) && org in Content(l) && org != new'
    ensures Times(l, false, org, new', 2).Some? && Null !in Times(l, false, org, new', 2).value
  {
    var n := ReplaceOnce(l, org, new');
    var t := l[n := To(new')];
    var s := Content(l);
    assert s[n] == org;
    forall i | 0 <= i < |t| ensures t[i] != To(org) {
      if i < |t| - 1 && i != n {
        assert t[i] == To(s[i]);
      }
    }
    assert Scan(t, To(org), 0) == Some(|t| - 1);
    assert Times(l, false, org, new', 2) == Some(t[|t| - 1 := To(new')]);
  }

  /** A node that occurs twice in the new way and also in the original one is listed twice. */
  lemma {:induction false} AppendedTwice(l: seq<Ptr>, org: Obj, new': Obj, m: nat) returns (i: nat, j: nat)
    requires IsList(l) && m >= 2
    ensures Times(l, true, org, new', m).Some?
    ensures var t := Times(l, true, org, new', m).value;
      IsList(t) && i < j < |Content(t)| && Content(t)[i] == Content(t)[j] == new'
  {
    if m == 2 {
      AppendOnce(l, org, new');
      var t := Appended(l, new');
      assert Scan(t, Null, 0) == Some(|t| - 1);
      assert Times(l, true, org, new', 2) == Some(Appended(t, new'));
      i, j := |l| - 1, |l|;
    } else {
      i, j := AppendedTwice(l, org, new', m - 1);
      var t := Times(l, true, org, new', m - 1).value;
      assert Scan(t, Null, 0) == Some(|t| - 1);
      assert Times(l, true, org, new', m) == Some(Appended(t, new'));
    }
  }

  lemma RepeatedNodeSpoilsList(d: Data, w: int, w2: int, c: nat, d': Data, lists: Lists, x: int, m: nat)
    requires Cut(d, w, w2, c, d') && Represents(lists, AllLinks(d))
    requires x in d.ways[w][c..] && x in d.nodes && m >= 2
    ensures var o := Obj(Node, x);
      var t := Times(ListAt(lists, o), x in d.ways[w][..c + 1], Obj(Way, w), Obj(Way, w2), m);
      t.Some? ==> forall u: Lists :: o in u && u[o] == t.value ==> !ListOk(u, AllLinks(d'), o)
  {
    var o, org, new' := Obj(Node, x), Obj(Way, w), Obj(Way, w2);
    RepresentsListwise(lists, AllLinks(d));
    assert ListOk(lists, AllLinks(d), o);
    AllLinksAre(d, o, org);
    CutLinks(d, w, w2, c, d', o, org);
    var inOrg := x in d.ways[w][..c + 1];
    var l := lists[o];
    if inOrg {
      var i, j := AppendedTwice(l, org, new', m);
    } else if Times(l, false, org, new', m).Some? {
      SecondReplaceUnterminated(l, org, new');
      NeverTerminatedAgain(l, org, new', 2, m);
    }
  }

  /** A relation that names the new way refers to it from now on, but the way gets no list. */
  lemma NamedWayUnlinked(d: Data, w: int, w2: int, c: nat, d': Data, lists: Lists, u: Lists)
    requires Cut(d, w, w2, c, d') && Represents(lists, AllLinks(d)) && Updated(lists, d, w, w2, c, Some(u))
    requires !Unnamed(d, w2)
    ensures !ListOk(u, AllLinks(d'), Obj(Way, w2))
  {
    var o := Obj(Way, w2);
    var r :| r in d.rels && o in d.rels[r];
    UpdateListwise(lists, Obj(Way, w), d.ways[w][..c + 1], o, d.ways[w][c..], |d.ways[w][c..]|, o);
    RepresentsListwise(lists, AllLinks(d));
    assert ListOk(lists, AllLinks(d), o);
    NobodyLinks(d, lists, o);
    AllLinksAre(d', o, Obj(Rel, r));
  }

  /** An object that does not exist has no list. */
  lemma NobodyLinks(d: Data, lists: Lists, o: Obj)
    requires ListOk(lists, AllLinks(d), o) && !d.Has(o)
    ensures o !in lists
  {
    if o in lists {
      AllLinksAre(d, o, Content(lists[o])[0]);
    }
  }

  /**
   * Exactly when: a cut leaves the index exact if and only if the nodes of the new way exist
   * and are all different, and no relation names the new way.  Otherwise a search runs past the
   * end of a list, some list is unterminated, repeats an entry or should not exist, or one is missing.
   */
  lemma CutExactIff(d: Data, w: int, w2: int, c: nat, d': Data, lists: Lists, u: Option<Lists>)
    requires Cut(d, w, w2, c, d') && Represents(lists, AllLinks(d)) && Updated(lists, d, w, w2, c, u)
    ensures (u.Some? && Represents(u.value, AllLinks(d'))) <==> Splittable(d, w, c) && Unnamed(d, w2)
  {
    var org, new', orgRef, newRef := Obj(Way, w), Obj(Way, w2), d.ways[w][..c + 1], d.ways[w][c..];
    if Splittable(d, w, c) && Unnamed(d, w2) {
      CutKeepsExact(d, w, w2, c, d', lists, u);
    } else if u.Some? && !Unnamed(d, w2) {
      RepresentsListwise(u.value, AllLinks(d'));
      NamedWayUnlinked(d, w, w2, c, d', lists, u.value);
    } else if u.Some? {
      assert newRef[..|newRef|] == newRef;
      RepresentsListwise(u.value, AllLinks(d'));
      if x :| x in newRef && x !in d.nodes {
        CountZero(newRef, x, |newRef|);
        UpdateListwise(lists, org, orgRef, new', newRef, |newRef|, Obj(Node, x));
        MissingNodeUnlinked(d', u.value, x);
      } else {
        var i, j :| 0 <= i < j < |newRef| && newRef[i] == newRef[j];
        var x := newRef[i];
        CountTwo(newRef, i, j, |newRef|);
        UpdateListwise(lists, org, orgRef, new', newRef, |newRef|, Obj(Node, x));
        RepeatedNodeSpoilsList(d, w, w2, c, d', lists, x, Count(newRef, x, |newRef|));
        assert !ListOk(u.value, AllLinks(d'), Obj(Node, x));
      }
    }
  }

  /** In an exact index a node that does not exist has no list. */
  lemma MissingNodeUnlinked(d: Data, lists: Lists, x: int)
    requires x !in d.nodes && Obj(Node, x) in lists
    ensures !ListOk(lists, AllLinks(d), Obj(Node, x))
  {
    var o := Obj(Node, x);
    if IsList(lists[o]) && |lists[o]| > 1 {
      var p := Content(lists[o])[0];
      AllLinksAre(d, o, p);
    }
  }

  // ----- act_split_main() -----

  /** The nodes of a way are all different, except that the last one may be the first one again. */
  ghost predicate DistinctButClosing(ref: seq<int>) {
    forall i, j :: 0 <= i < j < |ref| && ref[i] == ref[j] ==> i == 0 && j == |ref| - 1
  }

  /** The first reference to n is neither the first nor the last one of the way: there the way is cut. */
  predicate Interior(ref: seq<int>, n: int) {
    0 < FirstIndex(ref, n) < |ref| - 1
  }

  /** All ways that are cut at n can be cut without harm to the index. */
  ghost predicate CutsClean(d: Data, n: int) {
    forall w :: w in d.ways && Interior(d.ways[w], n) ==> Splittable(d, w, FirstIndex(d.ways[w], n))
  }

  /** All nodes of all ways exist and are different. */
  ghost predicate Sound(d: Data) {
    && (forall w :: w in d.ways ==> DistinctButClosing(d.ways[w]))
    && forall w, x :: w in d.ways && x in d.ways[w] ==> x in d.nodes
  }

  /** The next way id and those after it, downwards, have not been given to any way. */
  ghost predicate FreshIds(d: Data, uwid: int) {
    forall w :: w in d.ways ==> w > uwid
  }

  /** No relation names one of the next k ways. */
  ghost predicate NextUnnamed(d: Data, uwid: int, k: nat) {
    forall w :: uwid - k < w <= uwid ==> Unnamed(d, w)
  }

  lemma NotBefore(ref: seq<int>, n: int, i: nat)
    requires i <= |ref| && n !in ref[..i]
    ensures forall k :: 0 <= k < i ==> ref[k] != n
  {
    forall k | 0 <= k < i ensures ref[k] != n {
      assert ref[..i][k] in ref[..i];
    }
  }

  /** In a way of different nodes it does not matter that only the first reference counts. */
  lemma InteriorIsInside(ref: seq<int>, n: int)
    requires DistinctButClosing(ref)
    ensures Interior(ref, n) <==> exists i :: 0 < i < |ref| - 1 && ref[i] == n
  {
    var k := FirstIndex(ref, n);
    NotBefore(ref, n, k);
    if i :| 0 < i < |ref| - 1 && ref[i] == n {
      assert k <= i;
    }
  }

  /** A tree of sound ways can be split at any node. */
  lemma SoundCutsClean(d: Data, n: int)
    requires Sound(d)
    ensures CutsClean(d, n)
  {
    forall w | w in d.ways && Interior(d.ways[w], n) ensures Splittable(d, w, FirstIndex(d.ways[w], n)) {
      var ref, c := d.ways[w], FirstIndex(d.ways[w], n);
      assert forall k :: 0 <= k < |ref[c..]| ==> ref[c..][k] == ref[c + k];
    }
  }

  /** Neither part of a way has n inside. */
  lemma PartsDone(ref: seq<int>, n: int, i: nat)
    requires i < |ref| && ref[i] == n && n !in ref[..i]
    ensures FirstIndex(ref, n) == i && !Interior(ref[..i + 1], n) && !Interior(ref[i..], n)
  {
    FirstIndexIs(ref, n, i);
    assert ref[..i + 1][..i] == ref[..i];
    FirstIndexIs(ref[..i + 1], n, i);
    FirstIndexIs(ref[i..], n, 0);
  }

  lemma HeadAndTailDone(ref: seq<int>, n: int)
    requires Interior(ref, n)
    ensures !Interior(Head(ref, n), n) && !Interior(Tail(ref, n), n)
  {
    PartsDone(ref, n, FirstIndex(ref, n));
  }

  lemma CutEdges(ref: seq<int>, i: nat)
    requires i < |ref|
    ensures Edges(ref) == Edges(ref[..i + 1]) + Edges(ref[i..])
  {
    hide Edges;
    assert ref == ref[..i + 1] + ref[i..][1..];
    EdgesConcat(ref[..i + 1], ref[i..]);
  }

  /** The way and position that a cut came from, for each new way. */
  type Origins = map<int, int>

  ghost predicate WasCut(from: Origins, w: int) {
    exists v :: v in from && from[v] == w
  }

  /**
   * What splitting has done so far: every way that is still there is as it was or cut off at
   * the first occurrence of n, and every new way is the rest of exactly one such way.
   */
  ghost predicate SplitSoFar(d0: Data, d: Data, n: int, from: Origins) {
    && d.nodes == d0.nodes && d.rels == d0.rels
    && d.ways.Keys == d0.ways.Keys + from.Keys && d0.ways.Keys !! from.Keys
    && (forall w :: w in from ==> from[w] in d0.ways && Interior(d0.ways[from[w]], n))
    && (forall v, w :: v in from && w in from && from[v] == from[w] ==> v == w)
    && (forall w :: w in d0.ways ==> d.ways[w] == if WasCut(from, w) then Head(d0.ways[w], n) else d0.ways[w])
    && (forall w :: w in from ==> d.ways[w] == Tail(d0.ways[from[w]], n))
  }

  /** The part of a way up to and including n, and the part from n on. */
  function Head(ref: seq<int>, n: int): seq<int> {
    if FirstIndex(ref, n) < |ref| then ref[..FirstIndex(ref, n) + 1] else ref
  }

  function Tail(ref: seq<int>, n: int): seq<int> {
    ref[FirstIndex(ref, n)..]
  }

  /** The ways in which n is still inside. */
  ghost function StillInside(d: Data, n: int): set<int> {
    set w | w in d.ways && Interior(d.ways[w], n)
  }

  /** A pointer that does not lead to a way with n inside. */
  ghost predicate DonePtr(d: Data, p: Ptr, n: int) {
    p != Null && p.obj.kind == Way && p.obj.id in d.ways ==> !Interior(d.ways[p.obj.id], n)
  }

  /** No pointer of the list before position k leads to a way with n inside. */
  ghost predicate DoneBefore(d: Data, l: seq<Ptr>, n: int, k: nat) {
    forall j :: 0 <= j < k && j < |l| ==> DonePtr(d, l[j], n)
  }

  ghost predicate Exact(d: Data, lists: Lists, uwid: int) {
    Represents(lists, AllLinks(d)) && FreshIds(d, uwid)
  }

  /** Way w of the tree is cut at its first reference i to n, which is inside; w2 is the next free id. */
  ghost predicate CutAt(d: Data, w: int, w2: int, n: int, i: nat, d': Data) {
    && w in d.ways && 0 < i < |d.ways[w]| - 1 && d.ways[w][i] == n && n !in d.ways[w][..i]
    && d' == d.(ways := d.ways[w := d.ways[w][..i + 1]][w2 := d.ways[w][i..]])
  }

  lemma CutAtIsCut(d: Data, lists: Lists, w: int, w2: int, n: int, i: nat, d': Data)
    requires Exact(d, lists, w2) && CutsClean(d, n) && CutAt(d, w, w2, n, i, d')
    ensures Cut(d, w, w2, i, d') && Splittable(d, w, i)
  {
    FirstIndexIs(d.ways[w], n, i);
  }

  /** The update is defined, and afterwards the index is exact again. */
  lemma CutUpdates(d: Data, lists: Lists, w: int, w2: int, n: int, i: nat, d': Data)
    requires Exact(d, lists, w2) && CutsClean(d, n) && Unnamed(d, w2) && CutAt(d, w, w2, n, i, d')
    ensures var u := Update(lists, Obj(Way, w), d.ways[w][..i + 1], Obj(Way, w2), d.ways[w][i..], |d.ways[w][i..]|);
      u.Some? && Exact(d', u.value, w2 - 1)
  {
    CutAtIsCut(d, lists, w, w2, n, i, d');
    var u := Update(lists, Obj(Way, w), d.ways[w][..i + 1], Obj(Way, w2), d.ways[w][i..], |d.ways[w][i..]|);
    CutKeepsExact(d, w, w2, i, d', lists, u);
  }

  /** The list of the node itself grows at its end. */
  lemma CutExtends(d: Data, lists: Lists, w: int, w2: int, n: int, i: nat, d': Data)
    requires Exact(d, lists, w2) && CutsClean(d, n) && CutAt(d, w, w2, n, i, d') && Obj(Node, n) in lists
    requires Update(lists, Obj(Way, w), d.ways[w][..i + 1], Obj(Way, w2), d.ways[w][i..], |d.ways[w][i..]|).Some?
    ensures var ref := d.ways[w];
      var u := Update(lists, Obj(Way, w), ref[..i + 1], Obj(Way, w2), ref[i..], |ref[i..]|).value;
      && Obj(Node, n) in u
      && u[Obj(Node, n)] == Appended(lists[Obj(Node, n)], Obj(Way, w2))
  {
    var orgRef, newRef := d.ways[w][..i + 1], d.ways[w][i..];
    UpdateListwise(lists, Obj(Way, w), orgRef, Obj(Way, w2), newRef, |newRef|, Obj(Node, n));
    CutAtIsCut(d, lists, w, w2, n, i, d');
    CountDistinct(newRef, n, |newRef|);
    assert newRef[..|newRef|][0] == n;
    assert orgRef[i] == n;
    AppendOnce(lists[Obj(Node, n)], Obj(Way, w), Obj(Way, w2));
  }

  /** One way less has n inside, and no finished way has it again. */
  lemma CutProgress(d: Data, w: int, w2: int, n: int, i: nat, d': Data)
    requires CutsClean(d, n) && w2 !in d.ways && CutAt(d, w, w2, n, i, d')
    ensures CutsClean(d', n)
    ensures w in StillInside(d, n) && StillInside(d', n) == StillInside(d, n) - {w}
    ensures forall p :: DonePtr(d, p, n) || p == To(Obj(Way, w)) ==> p != To(Obj(Way, w2)) ==> DonePtr(d', p, n)
  {
    PartsDone(d.ways[w], n, i);
    InteriorAt(d.ways[w], n, i);
    forall v | v in d'.ways && Interior(d'.ways[v], n) ensures Splittable(d', v, FirstIndex(d'.ways[v], n)) {
      assert v != w && v != w2 && d'.ways[v] == d.ways[v] && Splittable(d, v, FirstIndex(d.ways[v], n));
    }
  }

  lemma InteriorAt(ref: seq<int>, n: int, i: nat)
    requires i < |ref| && ref[i] == n && n !in ref[..i]
    ensures Interior(ref, n) <==> 0 < i < |ref| - 1
  {
    FirstIndexIs(ref, n, i);
  }

  lemma CutOrigins(d0: Data, d: Data, w: int, w2: int, n: int, i: nat, d': Data, from: Origins)
    requires w2 !in d.ways && CutAt(d, w, w2, n, i, d') && SplitSoFar(d0, d, n, from)
    ensures SplitSoFar(d0, d', n, from[w2 := w])
    ensures w2 !in from
  {
    FirstIndexIs(d.ways[w], n, i);
    NotCutBefore(d0, d, n, from, w);
    OneMoreOrigin(d0, d, w, w2, n, i, d', from);
  }

  lemma NotCutBefore(d0: Data, d: Data, n: int, from: Origins, w: int)
    requires SplitSoFar(d0, d, n, from) && w in d.ways && Interior(d.ways[w], n)
    ensures w !in from && !WasCut(from, w) && w in d0.ways && d.ways[w] == d0.ways[w]
  {
    if w in from || WasCut(from, w) {
      OriginOf(d0, d, n, from, w);
    }
  }

  lemma WasCutMore(from: Origins, w2: int, w: int, v: int)
    requires w2 !in from
    ensures WasCut(from[w2 := w], v) <==> v == w || WasCut(from, v)
  {
    var from' := from[w2 := w];
    assert from'[w2] == w;
    if WasCut(from, v) {
      var x :| x in from && from[x] == v;
      assert from'[x] == v;
    }
  }

  lemma OneMoreOrigin(d0: Data, d: Data, w: int, w2: int, n: int, i: nat, d': Data, from: Origins)
    requires SplitSoFar(d0, d, n, from) && w2 !in d.ways && CutAt(d, w, w2, n, i, d')
    requires w in d0.ways && w !in from && !WasCut(from, w) && Interior(d0.ways[w], n) && FirstIndex(d0.ways[w], n) == i
    requires d.ways[w] == d0.ways[w]
    ensures SplitSoFar(d0, d', n, from[w2 := w])
  {
    hide Interior;
    var from' := from[w2 := w];
    assert d'.ways.Keys == d0.ways.Keys + from'.Keys && d0.ways.Keys !! from'.Keys;
    forall v, x | v in from' && x in from' && from'[v] == from'[x] ensures v == x {
      assert v != w2 ==> from[v] != w;
      assert x != w2 ==> from[x] != w;
    }
    forall v | v in d0.ways ensures d'.ways[v] == if WasCut(from', v) then Head(d0.ways[v], n) else d0.ways[v] {
      WasCutMore(from, w2, w, v);
    }
    forall v | v in from' ensures d'.ways[v] == Tail(d0.ways[from'[v]], n) {
    }
  }

  /** Neither a new way nor the rest of a cut way has n inside. */
  lemma OriginOf(d0: Data, d: Data, n: int, from: Origins, w: int)
    requires SplitSoFar(d0, d, n, from) && (w in from || WasCut(from, w)) && w in d.ways
    ensures !Interior(d.ways[w], n)
  {
    hide Interior, Head, Tail;
    if w in from {
      HeadAndTailDone(d0.ways[from[w]], n);
    } else {
      var x :| x in from && from[x] == w;
      HeadAndTailDone(d0.ways[w], n);
    }
  }

  /** At the end of the list no way at all has n inside. */
  lemma ListDone(d: Data, lists: Lists, uwid: int, n: int, k: nat)
    requires Exact(d, lists, uwid) && CutsClean(d, n) && Obj(Node, n) in lists && k < |lists[Obj(Node, n)]|
    requires lists[Obj(Node, n)][k] == Null && DoneBefore(d, lists[Obj(Node, n)], n, k)
    ensures StillInside(d, n) == {}
  {
    var o := Obj(Node, n);
    var l := lists[o];
    forall w | w in d.ways ensures !Interior(d.ways[w], n) {
      AllLinksAre(d, o, Obj(Way, w));
      InteriorExists(d, w, n);
      if Obj(Way, w) in Content(l) {
        var j :| 0 <= j < |Content(l)| && Content(l)[j] == Obj(Way, w);
        assert DonePtr(d, l[j], n);
      }
    }
  }

  /** A node at which a way is to be cut exists. */
  lemma InteriorExists(d: Data, w: int, n: int)
    requires CutsClean(d, n) && w in d.ways
    ensures Interior(d.ways[w], n) ==> n in d.ways[w] && n in d.nodes
  {
    if Interior(d.ways[w], n) {
      assert d.ways[w][FirstIndex(d.ways[w], n)..][0] == n;
    }
  }

  lemma NoList(d: Data, lists: Lists, uwid: int, n: int)
    requires Exact(d, lists, uwid) && CutsClean(d, n) && Obj(Node, n) !in lists
    ensures StillInside(d, n) == {}
  {
    forall w | w in d.ways ensures !Interior(d.ways[w], n) {
      AllLinksAre(d, Obj(Node, n), Obj(Way, w));
      InteriorExists(d, w, n);
    }
  }

  /** The parts of a sound way are sound. */
  lemma SplitKeepsSound(d0: Data, d: Data, n: int, from: Origins)
    requires SplitSoFar(d0, d, n, from)
    ensures Sound(d0) ==> Sound(d)
  {
    if Sound(d0) {
      forall w | w in d.ways ensures DistinctButClosing(d.ways[w]) && forall x :: x in d.ways[w] ==> x in d.nodes {
        if w in from {
          PartsSound(d0, from[w], FirstIndex(d0.ways[from[w]], n));
        } else if WasCut(from, w) {
          PartsSound(d0, w, FirstIndex(d0.ways[w], n));
        }
      }
    }
  }

  lemma PartsSound(d: Data, w: int, i: nat)
    requires Sound(d) && w in d.ways && 0 < i < |d.ways[w]| - 1
    ensures DistinctButClosing(d.ways[w][..i + 1]) && forall x :: x in d.ways[w][..i + 1] ==> x in d.nodes
    ensures DistinctButClosing(d.ways[w][i..]) && forall x :: x in d.ways[w][i..] ==> x in d.nodes
  {
    var ref := d.ways[w];
    assert forall k :: 0 <= k < |ref[i..]| ==> ref[i..][k] == ref[i + k];
  }

  lemma NothingSplit(d: Data, n: int)
    ensures SplitSoFar(d, d, n, map[])
  {
  }

  /** The tree, its index and the counter for way ids. */
  class Osm {
    var d: Data
    const idx: Index
    var uwid: int

    constructor (d: Data, idx: Index, uwid: int)
      ensures this.d == d && this.idx == idx && this.uwid == uwid
    {
      this.d, this.idx, this.uwid := d, idx, uwid;
    }

    ghost predicate Valid()
      reads this, idx
    {
      Exact(d, idx.lists, uwid)
    }

    /**
     * Splits every way that has node n inside.  The ghost result tells for each new way which
     * way it was cut from.
     */
    method SplitAt(n: int) returns (ghost from: Origins)
      requires Valid() && CutsClean(d, n) && NextUnnamed(d, uwid, |StillInside(d, n)|)
      modifies this, idx
      ensures Valid() && uwid == old(uwid) - |from|
      ensures SplitSoFar(old(d), d, n, from)
      ensures StillInside(d, n) == {}
      ensures old(Sound(d)) ==> Sound(d)
      ensures AllEdges(d.ways) == old(AllEdges(d.ways))
    {
      hide *;
      var o := Obj(Node, n);
      from := map[];
      ghost var d0 := d;
      NothingSplit(d, n);
      ValidIs();
      if o !in idx.lists {
        NoList(d, idx.lists, uwid, n);
        SplitConservesEdges(d0, d, n, from);
        SplitKeepsSound(d0, d, n, from);
        return;
      }
      var k := 0;
      NothingDone(d, idx.lists, uwid, o, n);
      while idx.lists[o][k] != Null
        invariant Exact(d, idx.lists, uwid) && CutsClean(d, n) && SplitSoFar(d0, d, n, from)
        invariant NextUnnamed(d, uwid, |StillInside(d, n)|) && uwid == old(uwid) - |from|
        invariant o in idx.lists && k < |idx.lists[o]| && DoneBefore(d, idx.lists[o], n, k)
        decreases |StillInside(d, n)|, |idx.lists[o]| - k
      {
        var l := idx.lists[o];
        PointerKnown(d, idx.lists, uwid, o, n, k);
        var p := l[k].obj;
        if p.kind != Way {
          k := k + 1;
          continue;
        }
        var ref := d.ways[p.id];
        var i := 0;
        while i < |ref| && ref[i] != n
          invariant i <= |ref| && n !in ref[..i]
        {
          assert ref[..i + 1] == ref[..i] + [ref[i]];
          i := i + 1;
        }
        assert i < |ref| by {
          assert ref[..|ref|] == ref;
        }
        PointerDone(d, l, n, k, p.id, i);
        if i == 0 || i == |ref| - 1 {
          k := k + 1;
          continue;
        }
        var ret;
        ret, from := SplitWay(p.id, n, i, k, d0, from);
        if ret > 0 {
          // the list was reallocated: the pointer is reloaded, and then advanced like in every round
          k := 0;
        }
        k := k + 1;
      }
      ListDone(d, idx.lists, uwid, n, k);
      SplitConservesEdges(d0, d, n, from);
      SplitKeepsSound(d0, d, n, from);
      ValidAgain();
    }

    /** Way w is cut at its reference i to n; position k of the list of n led to it. */
    method SplitWay(w: int, n: int, i: nat, ghost k: nat, ghost d0: Data, ghost from: Origins)
      returns (ret: nat, ghost from': Origins)
      requires Exact(d, idx.lists, uwid) && CutsClean(d, n) && SplitSoFar(d0, d, n, from)
      requires NextUnnamed(d, uwid, |StillInside(d, n)|)
      requires w in d.ways && i < |d.ways[w]| && d.ways[w][i] == n && n !in d.ways[w][..i]
      requires i != 0 && i != |d.ways[w]| - 1
      requires Obj(Node, n) in idx.lists
      requires var l := idx.lists[Obj(Node, n)]; k < |l| && l[k] == To(Obj(Way, w)) && DoneBefore(d, l, n, k)
      modifies this, idx
      ensures Exact(d, idx.lists, uwid) && CutsClean(d, n) && SplitSoFar(d0, d, n, from')
      ensures NextUnnamed(d, uwid, |StillInside(d, n)|) && |StillInside(d, n)| < old(|StillInside(d, n)|)
      ensures ret > 0 && uwid == old(uwid) - 1 && |from'| == |from| + 1
      ensures Obj(Node, n) in idx.lists
      ensures var l := idx.lists[Obj(Node, n)]; 1 < |l| && DoneBefore(d, l, n, 1)
    {
      hide *;
      var ref, w2 := d.ways[w], uwid;
      ghost var d1 := d;
      uwid := uwid - 1;
      d := d.(ways := d.ways[w2 := ref[i..]]);
      d := d.(ways := d.ways[w := ref[..i + 1]]);
      CutFacts(d0, d1, idx.lists, idx.lists[Obj(Node, n)], w, w2, n, i, d, from, k);
      ret := UpdateRevPtr(idx, Obj(Way, w), ref[..i + 1], Obj(Way, w2), ref[i..]);
      from' := from[w2 := w];
    }

    lemma ValidIs()
      requires Valid()
      ensures Exact(d, idx.lists, uwid)
    {
    }

    lemma ValidAgain()
      requires Exact(d, idx.lists, uwid)
      ensures Valid()
    {
    }
  }

  lemma NothingDone(d: Data, lists: Lists, uwid: int, o: Obj, n: int)
    requires Exact(d, lists, uwid) && o in lists
    ensures |lists[o]| > 0 && DoneBefore(d, lists[o], n, 0)
  {
  }

  /** A pointer of the list leads to an existing object that refers to the node; and there is a further entry. */
  lemma PointerKnown(d: Data, lists: Lists, uwid: int, o: Obj, n: int, k: nat)
    requires Exact(d, lists, uwid) && o == Obj(Node, n) && o in lists && k < |lists[o]| && lists[o][k] != Null
    requires DoneBefore(d, lists[o], n, k)
    ensures k + 1 < |lists[o]|
    ensures var p := lists[o][k].obj;
      && (p.kind == Way ==> p.id in d.ways && n in d.ways[p.id])
      && (p.kind != Way ==> DoneBefore(d, lists[o], n, k + 1))
  {
    var l := lists[o];
    var p := l[k].obj;
    assert Content(l)[k] == p;
    AllLinksAre(d, o, p);
  }

  /** A way whose first reference to n is its first or last one needs no cut. */
  lemma PointerDone(d: Data, l: seq<Ptr>, n: int, k: nat, w: int, i: nat)
    requires w in d.ways && k < |l| && l[k] == To(Obj(Way, w))
    requires DoneBefore(d, l, n, k) && i < |d.ways[w]| && d.ways[w][i] == n && n !in d.ways[w][..i]
    ensures i == 0 || i == |d.ways[w]| - 1 ==> DoneBefore(d, l, n, k + 1)
  {
    InteriorAt(d.ways[w], n, i);
  }

  /** What SplitAt() needs to know about a cut. */
  lemma CutFacts(d0: Data, d: Data, lists: Lists, l: seq<Ptr>, w: int, w2: int, n: int, i: nat, d': Data,
      from: Origins, k: nat)
    requires Exact(d, lists, w2) && CutsClean(d, n) && SplitSoFar(d0, d, n, from)
    requires NextUnnamed(d, w2, |StillInside(d, n)|)
    requires w in d.ways && i < |d.ways[w]| && d.ways[w][i] == n && n !in d.ways[w][..i] && i != 0 &&
      i != |d.ways[w]| - 1
    requires d' == d.(ways := d.ways[w2 := d.ways[w][i..]][w := d.ways[w][..i + 1]])
    requires Obj(Node, n) in lists && l == lists[Obj(Node, n)] && k < |l| && l[k] == To(Obj(Way, w)) &&
      DoneBefore(d, l, n, k)
    ensures SplitSoFar(d0, d', n, from[w2 := w]) && CutsClean(d', n)
    ensures |StillInside(d', n)| < |StillInside(d, n)| && NextUnnamed(d', w2 - 1, |StillInside(d', n)|)
    ensures w2 !in from
    ensures exists j :: 0 <= j < |d.ways[w][i..]| && d.ways[w][i..][j] in d.ways[w][..i + 1]
    ensures var u := Update(lists, Obj(Way, w), d.ways[w][..i + 1], Obj(Way, w2), d.ways[w][i..], |d.ways[w][i..]|);
      && u.Some? && Exact(d', u.value, w2 - 1)
      && Obj(Node, n) in u.value && 1 < |u.value[Obj(Node, n)]| && DoneBefore(d', u.value[Obj(Node, n)], n, 1)
  {
    hide Interior, StillInside, CutsClean, NextUnnamed, Unnamed, SplitSoFar, Update, Exact;
    NewWay(d, lists, w, w2, n, i, d');
    CutProgress(d, w, w2, n, i, d');
    CutIds(d, w2, StillInside(d, n), w, d');
    CutUpdates(d, lists, w, w2, n, i, d');
    CutExtends(d, lists, w, w2, n, i, d');
    CutOrigins(d0, d, w, w2, n, i, d', from);
    assert d.ways[w][i..][0] == n && d.ways[w][..i + 1][i] == n;
    NotListedYet(d, lists, n, w2);
    assert Appended(l, Obj(Way, w2))[0] == l[0];
  }

  lemma NewWay(d: Data, lists: Lists, w: int, w2: int, n: int, i: nat, d': Data)
    requires Exact(d, lists, w2) && w in d.ways && i < |d.ways[w]| && d.ways[w][i] == n && n !in d.ways[w][..i]
    requires i != 0 && i != |d.ways[w]| - 1
    requires d' == d.(ways := d.ways[w2 := d.ways[w][i..]][w := d.ways[w][..i + 1]])
    ensures w2 !in d.ways && CutAt(d, w, w2, n, i, d')
  {
    assert d.ways[w2 := d.ways[w][i..]][w := d.ways[w][..i + 1]] ==
      d.ways[w := d.ways[w][..i + 1]][w2 := d.ways[w][i..]];
  }

  lemma CutIds(d: Data, w2: int, inside: set<int>, w: int, d': Data)
    requires NextUnnamed(d, w2, |inside|) && w in inside && d'.rels == d.rels
    ensures Unnamed(d, w2) && |inside - {w}| < |inside| && NextUnnamed(d', w2 - 1, |inside - {w}|)
  {
    forall v | w2 - 1 - |inside - {w}| < v <= w2 - 1 ensures Unnamed(d', v) {
      assert Unnamed(d, v);
    }
  }

  lemma NotListedYet(d: Data, lists: Lists, n: int, w2: int)
    requires Exact(d, lists, w2) && Obj(Node, n) in lists && w2 !in d.ways
    ensures var l := lists[Obj(Node, n)]; IsList(l) && |l| > 1 && l[0] != To(Obj(Way, w2))
  {
    var l := lists[Obj(Node, n)];
    AllLinksAre(d, Obj(Node, n), Obj(Way, w2));
    assert l[0] == To(Content(l)[0]) && Content(l)[0] in Content(l);
  }

  // ----- splitting conserves the edges -----

  /** The directed edges of all ways. */
  ghost function AllEdges(ways: map<int, seq<int>>): multiset<(int, int)>
    decreases |ways|
  {
    if ways == map[] then multiset{}
    else
      var w := AnyKey(ways);
      Edges(ways[w]) + AllEdges(ways - {w})
  }

  /** It does not matter with which way the sum begins. */
  lemma {:induction false} AllEdgesAnyFirst(ways: map<int, seq<int>>, w: int)
    requires w in ways
    ensures AllEdges(ways) == Edges(ways[w]) + AllEdges(ways - {w})
    decreases |ways|
  {
    var v := AnyKey(ways);
    if v != w {
      AllEdgesAnyFirst(ways - {v}, w);
      AllEdgesAnyFirst(ways - {w}, v);
      assert ways - {v} - {w} == ways - {w} - {v};
      MsExchange(Edges(ways[v]), Edges(ways[w]), AllEdges(ways - {v} - {w}));
    }
  }

  lemma MsExchange<T>(a: multiset<T>, b: multiset<T>, c: multiset<T>)
    ensures a + (b + c) == b + (a + c)
  {
  }

  lemma AllEdgesAdd(ways: map<int, seq<int>>, w: int, ref: seq<int>)
    requires w !in ways
    ensures AllEdges(ways[w := ref]) == Edges(ref) + AllEdges(ways)
  {
    AllEdgesAnyFirst(ways[w := ref], w);
    assert ways[w := ref] - {w} == ways;
  }

  /** Undoing the splits one after the other: no edge is lost, added or changed in direction. */
  lemma {:induction false} SplitConservesEdges(d0: Data, d: Data, n: int, from: Origins)
    requires SplitSoFar(d0, d, n, from)
    ensures AllEdges(d.ways) == AllEdges(d0.ways)
    decreases |from|
  {
    hide AllEdges, Edges, SplitSoFar, Head, Tail;
    if from == map[] {
      NoCutYet(d0, d, n, from);
    } else {
      var w2 := AnyKey(from);
      var w := from[w2];
      UndoSplit(d0, d, n, from, w2);
      var ref := d0.ways[w];
      SplitConservesEdges(d0, d.(ways := d.ways[w := ref] - {w2}), n, from - {w2});
      HeadAndTail(ref, n);
      TwoForOne(d.ways, w, w2, ref);
    }
  }

  /** Two ways that together have the edges of a third one can replace it. */
  lemma TwoForOne(ways: map<int, seq<int>>, w: int, w2: int, ref: seq<int>)
    requires w in ways && w2 in ways && w != w2 && Edges(ref) == Edges(ways[w]) + Edges(ways[w2])
    ensures AllEdges(ways) == AllEdges(ways[w := ref] - {w2})
  {
    hide Edges, AllEdges;
    var rest := ways - {w2} - {w};
    AllEdgesAdd(rest, w, ref);
    AllEdgesAdd(rest, w, ways[w]);
    AllEdgesAdd(rest[w := ways[w]], w2, ways[w2]);
    assert ways[w := ref] - {w2} == rest[w := ref];
    assert ways == rest[w := ways[w]][w2 := ways[w2]];
    MsExchange(Edges(ways[w2]), Edges(ways[w]), AllEdges(rest));
    MsAssoc(Edges(ways[w]), Edges(ways[w2]), AllEdges(rest));
  }

  lemma HeadAndTail(ref: seq<int>, n: int)
    requires Interior(ref, n)
    ensures Edges(ref) == Edges(Head(ref, n)) + Edges(Tail(ref, n))
  {
    CutEdges(ref, FirstIndex(ref, n));
  }

  lemma NoCutYet(d0: Data, d: Data, n: int, from: Origins)
    requires SplitSoFar(d0, d, n, from) && from == map[]
    ensures d.ways == d0.ways
  {
    assert d.ways.Keys == d0.ways.Keys;
    forall w | w in d0.ways ensures d.ways[w] == d0.ways[w] {
      assert !WasCut(from, w);
    }
  }

  lemma UndoSplit(d0: Data, d: Data, n: int, from: Origins, w2: int)
    requires SplitSoFar(d0, d, n, from) && w2 in from
    ensures from[w2] in d.ways && from[w2] != w2 && w2 in d.ways && from[w2] in d0.ways
    ensures Interior(d0.ways[from[w2]], n)
    ensures d.ways[from[w2]] == Head(d0.ways[from[w2]], n) && d.ways[w2] == Tail(d0.ways[from[w2]], n)
    ensures SplitSoFar(d0, d.(ways := d.ways[from[w2] := d0.ways[from[w2]]] - {w2}), n, from - {w2})
  {
    hide Head, Tail, Interior, WasCut;
    var w := from[w2];
    var from' := from - {w2};
    var d1 := d.(ways := d.ways[w := d0.ways[w]] - {w2});
    WasCutWithout(from, w2, w);
    assert from'.Keys == from.Keys - {w2};
    assert d1.ways.Keys == d0.ways.Keys + from'.Keys;
    forall v ensures WasCut(from', v) <==> WasCut(from, v) && v != w {
      WasCutWithout(from, w2, v);
    }
  }

  lemma WasCutWithout(from: Origins, w2: int, v: int)
    requires w2 in from && forall x, y :: x in from && y in from && from[x] == from[y] ==> x == y
    ensures WasCut(from - {w2}, v) <==> WasCut(from, v) && v != from[w2]
    ensures WasCut(from, from[w2])
  {
    var from' := from - {w2};
    if WasCut(from, v) {
      var x :| x in from && from[x] == v;
      assert v != from[w2] ==> x in from' && from'[x] == v;
    }
    if WasCut(from', v) {
      var x :| x in from' && from'[x] == v;
      assert x in from && from[x] == v;
    }
  }
}
