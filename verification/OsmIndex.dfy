/**
 * The OSM objects in memory and the reverse pointer index: get_rev_index(),
 * add_rev_ptr(), rev_index_way_nodes(), rev_index_rel_nodes() and
 * insert_refs() in src/smcore.c.
 *
 * A pointer to an object is the object's type and id.
 */
module OsmIndex {
  import opened Common

  datatype Kind = Node | Way | Rel

  datatype Obj = Obj(kind: Kind, id: int)

  /** The object tree: nodes with their positions, ways with their node references, relations with their members. */
  datatype Data = Data(nodes: map<int, (real, real)>, ways: map<int, seq<int>>, rels: map<int, seq<Obj>>) {
    predicate Has(o: Obj) {
      match o.kind
      case Node => o.id in nodes
      case Way => o.id in ways
      case Rel => o.id in rels
    }
  }

  /** Object p refers to the object o, which exists. */
  predicate RefersTo(d: Data, p: Obj, o: Obj) {
    && d.Has(o)
    && match p.kind
       case Node => false
       case Way => o.kind == Node && p.id in d.ways && o.id in d.ways[p.id]
       case Rel => p.id in d.rels && o in d.rels[p.id]
  }

  // ----- lists of pointers -----

  datatype Ptr = Null | To(obj: Obj)

  /** A list that ends with its only NULL pointer. */
  predicate IsList(l: seq<Ptr>) {
    l != [] && l[|l| - 1] == Null && forall i :: 0 <= i < |l| - 1 ==> l[i] != Null
  }

  function Content(l: seq<Ptr>): (r: seq<Obj>)
    requires IsList(l)
    ensures |r| == |l| - 1 && forall i :: 0 <= i < |r| ==> l[i] == To(r[i])
  {
    seq(|l| - 1, i requires 0 <= i < |l| - 1 => l[i].obj)
  }

  /**
   * Position of a pointer in a list, or of the first NULL pointer; None if the search runs past the
   * end of the list.
   */
  function Scan(l: seq<Ptr>, p: Ptr, k: nat): (r: Option<nat>)
    requires k <= |l|
    ensures r.Some? ==> k <= r.value < |l| && (l[r.value] == p || l[r.value] == Null)
    ensures r.Some? ==> forall i :: k <= i < r.value ==> l[i] != p && l[i] != Null
    ensures r.None? ==> forall i :: k <= i < |l| ==> l[i] != p && l[i] != Null
    decreases |l| - k
  {
    if k == |l| then None
    else if l[k] == Null || l[k] == p then Some(k)
    else Scan(l, p, k + 1)
  }

  /** get_rev_index(): -1 if there is no list at all. */
  method GetRevIndex(optr: Option<seq<Ptr>>, p: Ptr) returns (i: int)
    requires optr.Some? ==> Scan(optr.value, p, 0).Some?
    ensures if optr.None? then i == -1 else Scan(optr.value, p, 0).value == i
  {
    if optr == None {
      return -1;
    }
    var l := optr.value;
    i := 0;
    while l[i] != Null
      invariant 0 <= i < |l| && Scan(l, p, 0) == Scan(l, p, i)
      decreases |l| - i
    {
      if l[i] == p {
        break;
      }
      i := i + 1;
    }
  }

  // ----- the index -----

  type Lists = map<Obj, seq<Ptr>>

  /** A pair (o, p) says that p refers to o. */
  type Links = set<(Obj, Obj)>

  /** The lists hold exactly the given links: terminated, without repetition, and none of them empty. */
  ghost predicate Represents(lists: Lists, links: Links) {
    && (forall o :: o in lists ==> IsList(lists[o]) && |lists[o]| > 1 && Distinct(Content(lists[o])))
    && (forall o, p :: o in lists && p in Content(lists[o]) ==> (o, p) in links)
    && (forall o, p :: (o, p) in links ==> o in lists && p in Content(lists[o]))
  }

  /** The list of one object, checked against the links of that object. */
  ghost predicate ListOk(lists: Lists, links: Links, o: Obj) {
    if o in lists then
      && IsList(lists[o]) && |lists[o]| > 1 && Distinct(Content(lists[o]))
      && forall p :: p in Content(lists[o]) <==> (o, p) in links
    else
      forall p :: (o, p) !in links
  }

  lemma RepresentsListwise(lists: Lists, links: Links)
    ensures Represents(lists, links) <==> forall o :: ListOk(lists, links, o)
  {
    if Represents(lists, links) {
      forall o ensures ListOk(lists, links, o) {
        if o in lists {
          forall p ensures p in Content(lists[o]) <==> (o, p) in links {
          }
        }
      }
    }
    if forall o :: ListOk(lists, links, o) {
      forall o | o in lists ensures IsList(lists[o]) && |lists[o]| > 1 && Distinct(Content(lists[o])) {
        assert ListOk(lists, links, o);
      }
      forall o, p | o in lists && p in Content(lists[o]) ensures (o, p) in links {
        assert ListOk(lists, links, o);
      }
      forall o, p | (o, p) in links ensures o in lists && p in Content(lists[o]) {
        assert ListOk(lists, links, o);
      }
    }
  }

  /** Appending a pointer to a list. */
  function Appended(l: seq<Ptr>, p: Obj): (r: seq<Ptr>)
    requires IsList(l)
    ensures IsList(r) && Content(r) == Content(l) + [p]
  {
    var r := l[..|l| - 1] + [To(p), Null];
    assert forall i :: 0 <= i < |r| - 1 ==> r[i] != Null;
    assert Content(r) == Content(l) + [p];
    r
  }

  // ----- the links of the objects in the tree -----

  ghost function WayLinks(d: Data, w: int): Links
    requires w in d.ways
  {
    set i | 0 <= i < |d.ways[w]| && d.ways[w][i] in d.nodes :: (Obj(Node, d.ways[w][i]), Obj(Way, w))
  }

  ghost function RelLinks(d: Data, r: int): Links
    requires r in d.rels
  {
    set i | 0 <= i < |d.rels[r]| && d.Has(d.rels[r][i]) :: (d.rels[r][i], Obj(Rel, r))
  }

  /** Which of the first k members do not exist. */
  ghost function Absent(d: Data, mem: seq<Obj>, k: nat): set<nat> {
    set i: nat | i < k && i < |mem| && !d.Has(mem[i])
  }

  lemma NoneAbsent(d: Data, mem: seq<Obj>)
    ensures |Absent(d, mem, 0)| == 0
  {
    assert Absent(d, mem, 0) == {};
  }

  lemma OneMoreAbsent(d: Data, mem: seq<Obj>, k: nat)
    requires k < |mem|
    ensures |Absent(d, mem, k + 1)| == |Absent(d, mem, k)| + if d.Has(mem[k]) then 0 else 1
  {
    assert Absent(d, mem, k + 1) == Absent(d, mem, k) + if d.Has(mem[k]) then {} else {k};
  }

  /** All references between existing objects. */
  ghost function AllLinks(d: Data): Links {
    (set w, x | w in d.ways && x in WayLinks(d, w) :: x) + (set r, x | r in d.rels && x in RelLinks(d, r) :: x)
  }

  lemma AllLinksAre(d: Data, o: Obj, p: Obj)
    ensures (o, p) in AllLinks(d) <==> RefersTo(d, p, o)
  {
    if RefersTo(d, p, o) {
      if p.kind == Way {
        var i :| 0 <= i < |d.ways[p.id]| && d.ways[p.id][i] == o.id;
        assert (Obj(Node, d.ways[p.id][i]), Obj(Way, p.id)) in WayLinks(d, p.id);
      } else {
        var i :| 0 <= i < |d.rels[p.id]| && d.rels[p.id][i] == o;
        assert (d.rels[p.id][i], Obj(Rel, p.id)) in RelLinks(d, p.id);
      }
    }
  }

  class Index {
    var lists: Lists

    constructor ()
      ensures Represents(lists, {})
    {
      lists := map[];
    }

    /** Makes p known as an object that refers to o.  Returns 1 if it is known already. */
    method AddRevPtr(o: Obj, p: Obj, ghost links: Links) returns (r: int)
      requires Represents(lists, links)
      modifies this
      ensures Represents(lists, links + {(o, p)})
      ensures r == if (o, p) in links then 1 else 0
    {
      ghost var before := lists;
      RepresentsListwise(lists, links);
      assert ListOk(lists, links, o);
      var l;
      if o !in lists {
        l := [To(p), Null];
        assert Content(l) == [p];
      } else {
        l := lists[o];
        var n := GetRevIndex(Some(l), To(p));
        if l[n] != Null {
          assert Content(l)[n] == p;
          assert links + {(o, p)} == links;
          return 1;
        }
        assert p !in Content(l);
        // the list is reallocated with one more element
        l := l[..n] + [To(p), Null];
        assert l == Appended(lists[o], p);
      }
      lists := lists[o := l];
      forall x ensures ListOk(lists, links + {(o, p)}, x) {
        assert ListOk(before, links, x);
      }
      RepresentsListwise(lists, links + {(o, p)});
      r := 0;
    }
  
    /** Nodes that do not exist are skipped. */
    method RevIndexWayNodes(d: Data, w: int, ghost links: Links)
      requires w in d.ways && Represents(lists, links)
      modifies this
      ensures Represents(lists, links + WayLinks(d, w))
    {
      ghost var done: Links := {};
      assert links + done == links;
      for i := 0 to |d.ways[w]|
        invariant done == set k | 0 <= k < i && d.ways[w][k] in d.nodes :: (Obj(Node, d.ways[w][k]), Obj(Way, w))
        invariant Represents(lists, links + done)
      {
        if d.ways[w][i] !in d.nodes {
          continue;
        }
        var r := AddRevPtr(Obj(Node, d.ways[w][i]), Obj(Way, w), links + done);
        done := done + {(Obj(Node, d.ways[w][i]), Obj(Way, w))};
        assert links + done == links + (done - {(Obj(Node, d.ways[w][i]), Obj(Way, w))}) +
          {(Obj(Node, d.ways[w][i]), Obj(Way, w))};
        assert Represents(lists, links + done);
      }
      assert done == WayLinks(d, w);
    }

    /** Members that do not exist are skipped. The result is how many there are, which the source logs. */
    method RevIndexRelNodes(d: Data, r: int, ghost links: Links) returns (incomplete: nat)
      requires r in d.rels && Represents(lists, links)
      modifies this
      ensures Represents(lists, links + RelLinks(d, r))
      ensures incomplete == |Absent(d, d.rels[r], |d.rels[r]|)|
    {
      hide Represents, Absent;
      incomplete := 0;
      NoneAbsent(d, d.rels[r]);
      ghost var done: Links := {};
      assert links + done == links;
      for i := 0 to |d.rels[r]|
        invariant done == set k | 0 <= k < i && d.Has(d.rels[r][k]) :: (d.rels[r][k], Obj(Rel, r))
        invariant Represents(lists, links + done) && incomplete == |Absent(d, d.rels[r], i)|
      {
        OneMoreAbsent(d, d.rels[r], i);
        if !d.Has(d.rels[r][i]) {
          incomplete := incomplete + 1;
          continue;
        }
        ghost var e := (d.rels[r][i], Obj(Rel, r));
        var n := AddRevPtr(d.rels[r][i], Obj(Rel, r), links + done);
        assert links + done + {e} == links + (done + {e});
        done := done + {e};
      }
      assert done == RelLinks(d, r);
    }

    /** The ways are visited in the order ws and the relations in the order rs. */
    method Build(d: Data, ws: seq<int>, rs: seq<int>)
      requires Elements(ws) == d.ways.Keys && Elements(rs) == d.rels.Keys
      requires Represents(lists, {})
      modifies this
      ensures Represents(lists, AllLinks(d))
    {
      ghost var links: Links := {};
      for i := 0 to |ws|
        invariant forall e :: e in links <==> exists k :: 0 <= k < i && ws[k] in d.ways && e in WayLinks(d, ws[k])
        invariant Represents(lists, links)
      {
        assert ws[i] in Elements(ws);
        RevIndexWayNodes(d, ws[i], links);
        links := links + WayLinks(d, ws[i]);
      }
      ghost var wayLinks := links;
      for i := 0 to |rs|
        invariant forall e :: e in links <==>
          e in wayLinks || exists k :: 0 <= k < i && rs[k] in d.rels && e in RelLinks(d, rs[k])
        invariant Represents(lists, links)
      {
        assert rs[i] in Elements(rs);
        var incomplete := RevIndexRelNodes(d, rs[i], links);
        links := links + RelLinks(d, rs[i]);
      }
      assert links == AllLinks(d) by {
        forall e ensures e in links <==> e in AllLinks(d) {
          BuiltLinks(d, ws, rs, wayLinks, links, e);
        }
      }
    }
  }

  /** The tree with the nodes ns inserted into a way. */
  function Inserted(d: Data, w: int, ns: seq<int>, pos: nat): Data
    requires w in d.ways && pos <= |d.ways[w]|
  {
    d.(ways := d.ways[w := d.ways[w][..pos] + ns + d.ways[w][pos..]])
  }

  /** insert_refs(): the references are inserted into the way, and the index is told of each of them. */
  method InsertRefs(idx: Index, d: Data, w: int, ns: seq<int>, pos: nat) returns (d': Data)
    requires w in d.ways && pos <= |d.ways[w]| && (forall n :: n in ns ==> n in d.nodes)
    requires Represents(idx.lists, AllLinks(d))
    modifies idx
    ensures d' == Inserted(d, w, ns, pos) && Represents(idx.lists, AllLinks(d'))
  {
    hide Represents, AllLinks, Inserted;
    var ref := d.ways[w];
    var new' := ref[..pos];
    ghost var links := AllLinks(d);
    for i := 0 to |ns|
      invariant new' == ref[..pos] + ns[..i]
      invariant links == AllLinks(d) + LinksOf(ns[..i], w) && Represents(idx.lists, links)
    {
      assert ns[..i + 1] == ns[..i] + [ns[i]];
      var r := idx.AddRevPtr(Obj(Node, ns[i]), Obj(Way, w), links);
      MoreLinks(AllLinks(d), ns[..i], ns[i], w);
      new' := new' + [ns[i]];
      links := links + {(Obj(Node, ns[i]), Obj(Way, w))};
    }
    assert ns[..|ns|] == ns;
    d' := d.(ways := d.ways[w := new' + ref[pos..]]);
    InsertedLinks(d, w, ns, pos);
  }

  ghost function LinksOf(ns: seq<int>, w: int): Links {
    set n | n in ns :: (Obj(Node, n), Obj(Way, w))
  }

  lemma MoreLinks(links: Links, ns: seq<int>, n: int, w: int)
    ensures links + LinksOf(ns, w) + {(Obj(Node, n), Obj(Way, w))} == links + LinksOf(ns + [n], w)
  {
  }

  lemma InsertedLinks(d: Data, w: int, ns: seq<int>, pos: nat)
    requires w in d.ways && pos <= |d.ways[w]| && (forall n :: n in ns ==> n in d.nodes)
    ensures Inserted(d, w, ns, pos) == d.(ways := d.ways[w := d.ways[w][..pos] + ns + d.ways[w][pos..]])
    ensures AllLinks(Inserted(d, w, ns, pos)) == AllLinks(d) + LinksOf(ns, w)
  {
    var d' := Inserted(d, w, ns, pos);
    var ref := d.ways[w];
    assert ref == ref[..pos] + ref[pos..];
    forall e ensures e in AllLinks(d') <==> e in AllLinks(d) + LinksOf(ns, w) {
      AllLinksAre(d, e.0, e.1);
      AllLinksAre(d', e.0, e.1);
    }
  }

  lemma BuiltLinks(d: Data, ws: seq<int>, rs: seq<int>, wayLinks: Links, links: Links, e: (Obj, Obj))
    requires Elements(ws) == d.ways.Keys && Elements(rs) == d.rels.Keys
    requires forall e :: e in wayLinks <==> exists k :: 0 <= k < |ws| && ws[k] in d.ways && e in WayLinks(d, ws[k])
    requires forall e :: e in links <==>
      e in wayLinks || exists k :: 0 <= k < |rs| && rs[k] in d.rels && e in RelLinks(d, rs[k])
    ensures e in links <==> e in AllLinks(d)
  {
    if e in AllLinks(d) {
      if w :| w in d.ways && e in WayLinks(d, w) {
        assert w in Elements(ws);
        var k :| 0 <= k < |ws| && ws[k] == w;
        assert e in wayLinks;
      } else {
        var r :| r in d.rels && e in RelLinks(d, r);
        assert r in Elements(rs);
        var k :| 0 <= k < |rs| && rs[k] == r;
        assert e in links;
      }
    }
  }
}
