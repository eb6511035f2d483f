/**
 * The bounding box query of smrenderd/smdb.c, which follows the reverse
 * pointer index, and what it finds in terms of the forward references of the
 * objects alone.
 */
module BoundingBox {
  import opened Common
  import opened OsmIndex

  /** The lower left and the upper right corner as latitude and longitude. */
  datatype BBox = BBox(ll: (real, real), ru: (real, real))

  predicate IsInBb(n: (real, real), bb: BBox) {
    n.0 >= bb.ll.0 && n.0 < bb.ru.0 && n.1 >= bb.ll.1 && n.1 < bb.ru.1
  }

  /** The node exists, between the southern and the northern, and the western and the eastern side of the box. */
  ghost predicate Inside(d: Data, bb: BBox, n: int) {
    exists lat, lon :: n in d.nodes && d.nodes[n] == (lat, lon) && bb.ll.0 <= lat < bb.ru.0 && bb.ll.1 <= lon < bb.ru.1
  }

  lemma InBoxIsInside(d: Data, bb: BBox)
    ensures forall n :: NodeInBox(d, bb, n) <==> Inside(d, bb, n)
  {
    forall n ensures NodeInBox(d, bb, n) <==> Inside(d, bb, n) {
      assert n in d.nodes ==> d.nodes[n] == (d.nodes[n].0, d.nodes[n].1);
    }
  }

  // ----- what the query is to find -----

  predicate NodeInBox(d: Data, bb: BBox, n: int) {
    n in d.nodes && IsInBb(d.nodes[n], bb)
  }

  /** A way with a node in the box. */
  ghost predicate Touched(d: Data, bb: BBox, w: int) {
    w in d.ways && exists n :: n in d.ways[w] && NodeInBox(d, bb, n)
  }

  /** A node in the box, or any existing node of a way that touches the box. */
  ghost predicate NodeFound(d: Data, bb: BBox, n: int) {
    NodeInBox(d, bb, n) || (n in d.nodes && exists w :: Touched(d, bb, w) && n in d.ways[w])
  }

  /** A relation with a node in the box. */
  ghost predicate RelTouched(d: Data, bb: BBox, r: int) {
    r in d.rels && exists n :: Obj(Node, n) in d.rels[r] && NodeInBox(d, bb, n)
  }

  /** A relation with a node or way that is found, or with a relation that has a node in the box. */
  ghost predicate RelFound(d: Data, bb: BBox, r: int) {
    && r in d.rels
    && (|| (exists n :: Obj(Node, n) in d.rels[r] && NodeFound(d, bb, n))
        || (exists w :: Obj(Way, w) in d.rels[r] && Touched(d, bb, w))
        || (exists q :: Obj(Rel, q) in d.rels[r] && RelTouched(d, bb, q)))
  }

  ghost predicate Found(d: Data, bb: BBox, o: Obj) {
    match o.kind
    case Node => NodeFound(d, bb, o.id)
    case Way => Touched(d, bb, o.id)
    case Rel => RelFound(d, bb, o.id)
  }

  // ----- what the query visits -----

  /** A relation that refers to o. */
  predicate RelOf(d: Data, o: Obj, x: Obj) {
    x.kind == Rel && RefersTo(d, x, o)
  }

  /** What is added for an object p that refers to a node in the box. */
  ghost predicate AddedFor(d: Data, p: Obj, x: Obj) {
    || x == p || RelOf(d, p, x)
    || (p.kind == Way && p.id in d.ways && exists i :: 0 <= i < |d.ways[p.id]| && AddedForNode(d, d.ways[p.id][i], x))
  }

  /** What is added for a node of a way. */
  predicate AddedForNode(d: Data, n: int, x: Obj) {
    n in d.nodes && (x == Obj(Node, n) || RelOf(d, Obj(Node, n), x))
  }

  /** What is added for a node that has been found in the box. */
  ghost predicate AddedByNode(d: Data, n: int, x: Obj) {
    x == Obj(Node, n) || exists p :: RefersTo(d, p, Obj(Node, n)) && AddedFor(d, p, x)
  }

  /** Visiting the nodes in the box reaches exactly the objects that are to be found. */
  lemma ReachedIsFound(d: Data, bb: BBox, x: Obj)
    ensures Found(d, bb, x) <==> exists n :: NodeInBox(d, bb, n) && AddedByNode(d, n, x)
  {
    if n :| NodeInBox(d, bb, n) && AddedByNode(d, n, x) {
      ReachedFound(d, bb, n, x);
    }
    if Found(d, bb, x) {
      FoundReached(d, bb, x);
    }
  }

  lemma ReachedFound(d: Data, bb: BBox, n: int, x: Obj)
    requires NodeInBox(d, bb, n) && AddedByNode(d, n, x)
    ensures Found(d, bb, x)
  {
    if x != Obj(Node, n) {
      var p :| RefersTo(d, p, Obj(Node, n)) && AddedFor(d, p, x);
      if p.kind == Way {
        assert Touched(d, bb, p.id);
        if x != p && !RelOf(d, p, x) {
          var i :| 0 <= i < |d.ways[p.id]| && AddedForNode(d, d.ways[p.id][i], x);
          assert NodeFound(d, bb, d.ways[p.id][i]);
        }
      } else {
        assert RelTouched(d, bb, p.id);
        if x == p {
          assert NodeFound(d, bb, n);
        }
      }
    }
  }

  lemma FoundReached(d: Data, bb: BBox, x: Obj)
    requires Found(d, bb, x)
    ensures exists n :: NodeInBox(d, bb, n) && AddedByNode(d, n, x)
  {
    match x.kind
    case Node => NodeReached(d, bb, x.id, x);
    case Way =>
      var n :| n in d.ways[x.id] && NodeInBox(d, bb, n);
      ByParent(d, bb, n, x, x);
    case Rel =>
      if m :| Obj(Node, m) in d.rels[x.id] && NodeFound(d, bb, m) {
        NodeReached(d, bb, m, x);
      } else if w :| Obj(Way, w) in d.rels[x.id] && Touched(d, bb, w) {
        var n :| n in d.ways[w] && NodeInBox(d, bb, n);
        ByParent(d, bb, n, Obj(Way, w), x);
      } else {
        var q :| Obj(Rel, q) in d.rels[x.id] && RelTouched(d, bb, q);
        var n :| Obj(Node, n) in d.rels[q] && NodeInBox(d, bb, n);
        ByParent(d, bb, n, Obj(Rel, q), x);
      }
  }

  /** A found node, and its relations, are reached. */
  lemma NodeReached(d: Data, bb: BBox, m: int, x: Obj)
    requires NodeFound(d, bb, m) && AddedForNode(d, m, x)
    ensures exists n :: NodeInBox(d, bb, n) && AddedByNode(d, n, x)
  {
    if NodeInBox(d, bb, m) {
      if x != Obj(Node, m) {
        ByParent(d, bb, m, x, x);
      } else {
        assert AddedByNode(d, m, x);
      }
    } else {
      var w :| Touched(d, bb, w) && m in d.ways[w];
      var n :| n in d.ways[w] && NodeInBox(d, bb, n);
      var i :| 0 <= i < |d.ways[w]| && d.ways[w][i] == m;
      assert AddedForNode(d, d.ways[w][i], x);
      ByParent(d, bb, n, Obj(Way, w), x);
    }
  }

  lemma ByParent(d: Data, bb: BBox, n: int, p: Obj, x: Obj)
    requires NodeInBox(d, bb, n) && RefersTo(d, p, Obj(Node, n)) && AddedFor(d, p, x)
    ensures exists n :: NodeInBox(d, bb, n) && AddedByNode(d, n, x)
  {
    assert AddedByNode(d, n, x);
  }

  // ----- the query -----

  /** The list that the index has for an object names exactly the objects that refer to it. */
  lemma Parents(d: Data, lists: Lists, o: Obj)
    requires Represents(lists, AllLinks(d))
    ensures o in lists ==> IsList(lists[o]) && forall p :: p in Content(lists[o]) <==> RefersTo(d, p, o)
    ensures o !in lists ==> forall p :: !RefersTo(d, p, o)
  {
    RepresentsListwise(lists, AllLinks(d));
    assert ListOk(lists, AllLinks(d), o);
    forall p ensures (o, p) in AllLinks(d) <==> RefersTo(d, p, o) {
      AllLinksAre(d, o, p);
    }
  }

  /** struct query: the tree of the objects that have been found. */
  class Query {
    var root: set<Obj>

    constructor ()
      ensures root == {}
    {
      root := {};
    }

    /** put_obj_rels(). */
    method PutObjRels(d: Data, lists: Lists, o: Obj)
      requires Represents(lists, AllLinks(d))
      modifies this
      ensures forall x :: x in root <==> x in old(root) || RelOf(d, o, x)
    {
      Parents(d, lists, o);
      if o in lists {
        var l := lists[o];
        var i := 0;
        while l[i] != Null
          invariant i < |l|
          invariant forall x :: x in root <==> x in old(root) || (x.kind == Rel && x in Content(l)[..i])
          decreases |l| - i
        {
          if l[i].obj.kind == Rel {
            root := root + {l[i].obj};
          }
          assert Content(l)[..i + 1] == Content(l)[..i] + [l[i].obj];
          i := i + 1;
        }
        assert Content(l)[..i] == Content(l);
      }
    }

    /** What get_node_bb() does for one object that refers to a node in the box. */
    method PutParent(d: Data, lists: Lists, p: Obj)
      requires Represents(lists, AllLinks(d)) && p.kind != Node && (p.kind == Way ==> p.id in d.ways)
      modifies this
      ensures forall x :: x in root <==> x in old(root) || AddedFor(d, p, x)
    {
      root := root + {p};
      PutObjRels(d, lists, p);
      if p.kind == Way {
        ghost var was := root;
        var ref := d.ways[p.id];
        for i := 0 to |ref|
          invariant forall x :: x in root <==> x in was || exists j :: 0 <= j < i && AddedForNode(d, ref[j], x)
        {
          if ref[i] in d.nodes {
            root := root + {Obj(Node, ref[i])};
            PutObjRels(d, lists, Obj(Node, ref[i]));
          }
        }
      }
    }

    /** get_node_bb(). */
    method GetNodeBb(d: Data, lists: Lists, bb: BBox, n: int)
      requires Represents(lists, AllLinks(d)) && n in d.nodes
      modifies this
      ensures forall x :: x in root <==> x in old(root) || (NodeInBox(d, bb, n) && AddedByNode(d, n, x))
    {
      if IsInBb(d.nodes[n], bb) {
        var o := Obj(Node, n);
        root := root + {o};
        Parents(d, lists, o);
        if o in lists {
          var l := lists[o];
          var i := 0;
          while l[i] != Null
            invariant i < |l|
            invariant forall x :: x in root <==>
              x in old(root) || x == o || exists j :: 0 <= j < i && AddedFor(d, Content(l)[j], x)
            decreases |l| - i
          {
            assert Content(l)[i] in Content(l);
            PutParent(d, lists, l[i].obj);
            i := i + 1;
          }
          assert forall p :: RefersTo(d, p, o) <==> exists j :: 0 <= j < i && Content(l)[j] == p;
        }
      }
    }
  }

  /** The relations that are to be found, in terms of what else is found. */
  lemma FoundRels(d: Data, bb: BBox)
    ensures forall r :: Found(d, bb, Obj(Rel, r)) <==> (
      && r in d.rels
      && (|| (exists o :: o in d.rels[r] && o.kind != Rel && Found(d, bb, o))
          || (exists s, n :: Obj(Rel, s) in d.rels[r] && s in d.rels && Obj(Node, n) in d.rels[s] && Inside(d, bb, n))))
  {
    hide NodeFound, NodeInBox, Inside, Touched;
    InBoxIsInside(d, bb);
    forall r | r in d.rels
      ensures (exists o :: o in d.rels[r] && o.kind != Rel && Found(d, bb, o)) <==>
        || (exists n :: Obj(Node, n) in d.rels[r] && NodeFound(d, bb, n))
        || (exists w :: Obj(Way, w) in d.rels[r] && Touched(d, bb, w))
    {
      FoundMembers(d, bb, r);
    }
  }

  lemma FoundMembers(d: Data, bb: BBox, r: int)
    requires r in d.rels
    ensures (exists o :: o in d.rels[r] && o.kind != Rel && Found(d, bb, o)) <==>
      || (exists n :: Obj(Node, n) in d.rels[r] && NodeFound(d, bb, n))
      || (exists w :: Obj(Way, w) in d.rels[r] && Touched(d, bb, w))
  {
    hide NodeFound, Touched;
    forall n | Obj(Node, n) in d.rels[r] && NodeFound(d, bb, n)
      ensures exists o :: o in d.rels[r] && o.kind != Rel && Found(d, bb, o) {
      assert Found(d, bb, Obj(Node, n));
    }
    forall w | Obj(Way, w) in d.rels[r] && Touched(d, bb, w)
      ensures exists o :: o in d.rels[r] && o.kind != Rel && Found(d, bb, o) {
      assert Found(d, bb, Obj(Way, w));
    }
    forall o | o in d.rels[r] && o.kind != Rel && Found(d, bb, o)
      ensures (exists n :: Obj(Node, n) in d.rels[r] && NodeFound(d, bb, n)) ||
        exists w :: Obj(Way, w) in d.rels[r] && Touched(d, bb, w) {
      assert o == Obj(o.kind, o.id);
    }
  }

  /** get_obj_bb(): the nodes of the tree are visited in the order ns. */
  method GetObjBb(d: Data, lists: Lists, bb: BBox, ns: seq<int>) returns (q: Query)
    requires Represents(lists, AllLinks(d)) && Elements(ns) == d.nodes.Keys
    ensures forall x :: x in q.root <==> Found(d, bb, x)
    ensures forall w :: Obj(Way, w) in q.root <==> w in d.ways && exists n :: n in d.ways[w] && Inside(d, bb, n)
    ensures forall n :: Obj(Node, n) in q.root <==>
      n in d.nodes && (Inside(d, bb, n) || exists w :: Obj(Way, w) in q.root && n in d.ways[w])
    ensures forall r :: Obj(Rel, r) in q.root <==> (
      && r in d.rels
      && (|| (exists o :: o in d.rels[r] && o.kind != Rel && o in q.root)
          || (exists s, n :: Obj(Rel, s) in d.rels[r] && s in d.rels && Obj(Node, n) in d.rels[s] && Inside(d, bb, n))))
  {
    InBoxIsInside(d, bb);
    FoundRels(d, bb);
    q := new Query();
    for i := 0 to |ns|
      invariant fresh(q)
      invariant forall x :: x in q.root <==>
        exists j :: 0 <= j < i && NodeInBox(d, bb, ns[j]) && AddedByNode(d, ns[j], x)
    {
      assert ns[i] in Elements(ns);
      q.GetNodeBb(d, lists, bb, ns[i]);
    }
    forall x ensures x in q.root <==> Found(d, bb, x) {
      ReachedIsFound(d, bb, x);
      forall n | NodeInBox(d, bb, n) ensures exists j :: 0 <= j < |ns| && ns[j] == n {
        assert n in Elements(ns);
      }
    }
  }
}
