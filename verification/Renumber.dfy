/**
 * Renumbering of all objects of a tree: renumber() and renumber_obj() in
 * src/smfunc.c. The ids of the objects are changed in place, while the tree
 * goes on using the old ids as its keys.
 */
module Renumber {
  import opened Common
  import opened OsmIndex

  /** The name of a referenced object after renumbering: objects that do not exist keep their id. */
  function Renamed(id: map<Obj, int>, o: Obj): Obj {
    if o in id then Obj(o.kind, id[o]) else o
  }

  /** The keys of one kind in the order in which the tree is traversed. */
  ghost predicate Order(keys: set<Obj>, kind: Kind, s: seq<int>) {
    Distinct(s) && forall k :: k in s <==> Obj(kind, k) in keys
  }

  /** The objects of one kind are numbered from 1 in the order of the traversal. */
  ghost predicate Numbered(id: map<Obj, int>, kind: Kind, s: seq<int>, n: nat) {
    n <= |s| && forall i :: 0 <= i < n ==> Obj(kind, s[i]) in id && id[Obj(kind, s[i])] == i + 1
  }

  /** References and members after renumbering. */
  function RefsAfter(id: map<Obj, int>, ref: seq<int>): (r: seq<int>)
    ensures |r| == |ref|
    ensures forall i :: 0 <= i < |ref| ==> r[i] == if Obj(Node, ref[i]) in id then id[Obj(Node, ref[i])] else ref[i]
  {
    seq(|ref|, i requires 0 <= i < |ref| => Renamed(id, Obj(Node, ref[i])).id)
  }

  function MembersAfter(id: map<Obj, int>, mem: seq<Obj>): (r: seq<Obj>)
    ensures |r| == |mem|
    ensures forall i :: 0 <= i < |mem| ==>
      r[i].kind == mem[i].kind && r[i].id == if mem[i] in id then id[mem[i]] else mem[i].id
  {
    seq(|mem|, i requires 0 <= i < |mem| => Renamed(id, mem[i]))
  }

  /** The ids of the nodes are the same. */
  ghost predicate SameNodes(id: map<Obj, int>, id': map<Obj, int>) {
    forall k :: (Obj(Node, k) in id <==> Obj(Node, k) in id') &&
      (Obj(Node, k) in id ==> id[Obj(Node, k)] == id'[Obj(Node, k)])
  }

  lemma SameRefs(id: map<Obj, int>, id': map<Obj, int>, ref: seq<int>)
    requires SameNodes(id, id')
    ensures RefsAfter(id, ref) == RefsAfter(id', ref)
  {
  }

  lemma NothingNumbered(id: map<Obj, int>, kind: Kind, s: seq<int>)
    ensures Numbered(id, kind, s, 0)
  {
  }

  lemma OneMoreNumber(id: map<Obj, int>, kind: Kind, s: seq<int>, i: nat)
    requires Numbered(id, kind, s, i) && i < |s| && Distinct(s)
    ensures Numbered(id[Obj(kind, s[i]) := i + 1], kind, s, i + 1)
  {
  }

  // ----- references denote the same objects -----

  /** The reference o leads to the object with key x. */
  predicate Denotes(id: map<Obj, int>, o: Obj, x: Obj) {
    x in id && x.kind == o.kind && id[x] == o.id
  }

  /** After renumbering, a reference leads to the object that it led to before, and to no other one. */
  ghost predicate Faithful(id: map<Obj, int>, o: Obj) {
    forall x :: Denotes(id, Renamed(id, o), x) <==> x == o && o in id
  }

  ghost predicate AllNumbered(id: map<Obj, int>, kind: Kind, s: seq<int>) {
    Order(id.Keys, kind, s) && Numbered(id, kind, s, |s|)
  }

  lemma NumberOf(id: map<Obj, int>, s: seq<int>, x: Obj) returns (i: nat)
    requires AllNumbered(id, x.kind, s) && x in id
    ensures i < |s| && s[i] == x.id && id[x] == i + 1
  {
    assert x.id in s;
    i :| 0 <= i < |s| && s[i] == x.id;
    assert x == Obj(x.kind, s[i]);
  }

  /**
   * A reference to an existing object is always faithful. One to an object that does not exist
   * keeps its id, and is faithful if and only if no new id is equal to it.
   */
  lemma FaithfulIff(id: map<Obj, int>, s: seq<int>, o: Obj)
    requires AllNumbered(id, o.kind, s)
    ensures Faithful(id, o) <==> o in id || !(1 <= o.id <= |s|)
  {
    if o in id {
      var i := NumberOf(id, s, o);
      forall x | Denotes(id, Renamed(id, o), x) ensures x == o {
        var j := NumberOf(id, s, x);
      }
    } else if 1 <= o.id <= |s| {
      var x := Obj(o.kind, s[o.id - 1]);
      assert s[o.id - 1] in s;
      assert Denotes(id, Renamed(id, o), x);
    } else {
      forall x ensures !Denotes(id, Renamed(id, o), x) {
        if Denotes(id, Renamed(id, o), x) {
          var j := NumberOf(id, s, x);
          assert false;
        }
      }
    }
  }

  /** The reference o has become o': to the object that it led to before, or it is as it was if there is none. */
  ghost predicate Follows(id: map<Obj, int>, o: Obj, o': Obj) {
    o'.kind == o.kind && if o in id then forall x :: Denotes(id, o', x) <==> x == o else o' == o
  }

  ghost predicate AllFollow(id: map<Obj, int>, os: seq<Obj>, os': seq<Obj>) {
    |os'| == |os| && forall i :: 0 <= i < |os| ==> Follows(id, os[i], os'[i])
  }

  /** The references of a way as objects. */
  function Nodes(ref: seq<int>): (r: seq<Obj>)
    ensures |r| == |ref| && forall i :: 0 <= i < |ref| ==> r[i] == Obj(Node, ref[i])
  {
    seq(|ref|, i requires 0 <= i < |ref| => Obj(Node, ref[i]))
  }

  lemma RefsFollow(id: map<Obj, int>, ns: seq<int>, ref: seq<int>)
    requires AllNumbered(id, Node, ns)
    ensures AllFollow(id, Nodes(ref), Nodes(RefsAfter(id, ref)))
  {
    hide AllNumbered, RefsAfter, Nodes;
    forall i | 0 <= i < |ref| ensures Follows(id, Nodes(ref)[i], Nodes(RefsAfter(id, ref))[i]) {
      FaithfulIff(id, ns, Obj(Node, ref[i]));
      assert Nodes(RefsAfter(id, ref))[i] == Renamed(id, Obj(Node, ref[i]));
    }
  }

  lemma MembersFollow(id: map<Obj, int>, ns: seq<int>, ws: seq<int>, rs: seq<int>, mem: seq<Obj>)
    requires AllNumbered(id, Node, ns) && AllNumbered(id, Way, ws) && AllNumbered(id, Rel, rs)
    ensures AllFollow(id, mem, MembersAfter(id, mem))
  {
    hide AllNumbered, MembersAfter;
    forall i | 0 <= i < |mem| ensures Follows(id, mem[i], MembersAfter(id, mem)[i]) {
      var o := mem[i];
      FaithfulIff(id, match o.kind case Node => ns case Way => ws case Rel => rs, o);
      assert MembersAfter(id, mem)[i] == Renamed(id, o);
    }
  }

  class Tree {
    /** The current id of the object with a key. */
    var id: map<Obj, int>
    /** The references of the ways and the members of the relations, by key. */
    var ref: map<int, seq<int>>
    var mem: map<int, seq<Obj>>

    ghost predicate Valid()
      reads this
    {
      ValidKeys(id.Keys, ref.Keys, mem.Keys)
    }

    /** renumber_obj() for a way. */
    method RenumberWay(k: int)
      requires k in ref
      modifies this`ref
      ensures ref == old(ref)[k := RefsAfter(id, old(ref)[k])]
    {
      ghost var was := ref[k];
      for i := 0 to |ref[k]|
        invariant k in ref && |ref[k]| == |was| && ref == old(ref)[k := ref[k]]
        invariant forall j :: 0 <= j < |was| ==>
          ref[k][j] == if j < i then Renamed(id, Obj(Node, was[j])).id else was[j]
      {
        var o := Obj(Node, ref[k][i]);
        if o in id {
          ref := ref[k := ref[k][i := id[o]]];
        }
      }
      assert ref[k] == RefsAfter(id, was);
    }

    /** renumber_obj() for the members of a relation. */
    method RenumberRel(k: int)
      requires k in mem
      modifies this`mem
      ensures mem == old(mem)[k := MembersAfter(id, old(mem)[k])]
    {
      ghost var was := mem[k];
      for i := 0 to |mem[k]|
        invariant k in mem && |mem[k]| == |was| && mem == old(mem)[k := mem[k]]
        invariant forall j :: 0 <= j < |was| ==> mem[k][j] == if j < i then Renamed(id, was[j]) else was[j]
      {
        var o := mem[k][i];
        if o in id {
          mem := mem[k := mem[k][i := o.(id := id[o])]];
        }
      }
      assert mem[k] == MembersAfter(id, was);
    }

    /** renumber_obj() for the object with key o; n is the next id. */
    method RenumberObj(o: Obj, pass: nat, n: nat) returns (n': nat)
      requires Valid() && o in id
      modifies this
      ensures Valid() && n' == if pass == 0 then n + 1 else n
      ensures id == if pass == 0 then old(id)[o := n] else old(id)
      ensures o.kind == Way ==> o.id in old(ref) && ref == old(ref)[o.id := RefsAfter(id, old(ref)[o.id])]
      ensures o.kind != Way ==> ref == old(ref)
      ensures o.kind == Rel && pass > 0 ==>
        o.id in old(mem) && mem == old(mem)[o.id := MembersAfter(id, old(mem)[o.id])]
      ensures o.kind != Rel || pass == 0 ==> mem == old(mem)
    {
      n' := n;
      KeyIs(o, n);
      if pass == 0 {
        id := id[o := n'];
        n' := n' + 1;
      }
      if o.kind == Node {
        return;
      }
      if o.kind == Way {
        RenumberWay(o.id);
        return;
      }
      if pass == 0 {
        return;
      }
      RenumberRel(o.id);
    }

    lemma KeyIs(o: Obj, n: nat)
      requires Valid() && o in id
      ensures o.kind == Way ==> o.id in ref
      ensures o.kind == Rel ==> o.id in mem
      ensures id.Keys == id[o := n].Keys
    {
    }

    /** The traversal of the nodes. */
    method RenumberNodes(ns: seq<int>)
      requires Valid() && Order(id.Keys, Node, ns)
      modifies this
      ensures Valid() && id.Keys == old(id).Keys && ref == old(ref) && mem == old(mem) && Numbered(id, Node, ns, |ns|)
    {
      var n := 1;
      for i := 0 to |ns|
        invariant Valid() && id.Keys == old(id).Keys && ref == old(ref) && mem == old(mem)
        invariant n == i + 1 && Numbered(id, Node, ns, i)
      {
        assert ns[i] in ns;
        OneMoreNumber(id, Node, ns, i);
        n := RenumberObj(Obj(Node, ns[i]), 0, n);
      }
    }

    /** The traversal of the ways: their references become the ids that the nodes have got. */
    method RenumberWays(ws: seq<int>)
      requires Valid() && Order(id.Keys, Way, ws)
      modifies this
      ensures Valid() && id.Keys == old(id).Keys && mem == old(mem) && Numbered(id, Way, ws, |ws|)
      ensures forall o :: o in id && o.kind != Way ==> id[o] == old(id)[o]
      ensures ref.Keys == old(ref).Keys && forall k :: k in ref ==> ref[k] == RefsAfter(old(id), old(ref)[k])
    {
      hide Numbered, RefsAfter, MembersAfter;
      var n := 1;
      NothingNumbered(id, Way, ws);
      for i := 0 to |ws|
        invariant Valid() && id.Keys == old(id).Keys && mem == old(mem) && n == i + 1 && Numbered(id, Way, ws, i)
        invariant forall o :: o in id && o.kind != Way ==> id[o] == old(id)[o]
        invariant ref.Keys == old(ref).Keys
        invariant forall k :: k in ref ==>
          ref[k] == if k in ws[..i] then RefsAfter(old(id), old(ref)[k]) else old(ref)[k]
      {
        assert ws[i] in ws && ws[i] !in ws[..i] && ws[..i + 1] == ws[..i] + [ws[i]];
        OneMoreNumber(id, Way, ws, i);
        n := RenumberObj(Obj(Way, ws[i]), 0, n);
        SameRefs(id, old(id), old(ref)[ws[i]]);
      }
      forall k | k in ref ensures k in ws[..|ws|] {
        assert Obj(Way, k) in id.Keys && ws[..|ws|] == ws;
      }
    }

    /** The first traversal of the relations: they get their ids. */
    method RenumberRels(rs: seq<int>)
      requires Valid() && Order(id.Keys, Rel, rs)
      modifies this
      ensures Valid() && id.Keys == old(id).Keys && ref == old(ref) && mem == old(mem) && Numbered(id, Rel, rs, |rs|)
      ensures forall o :: o in id && o.kind != Rel ==> id[o] == old(id)[o]
    {
      hide Numbered, RefsAfter, MembersAfter;
      var n := 1;
      NothingNumbered(id, Rel, rs);
      for i := 0 to |rs|
        invariant Valid() && id.Keys == old(id).Keys && ref == old(ref) && mem == old(mem) && n == i + 1 &&
          Numbered(id, Rel, rs, i)
        invariant forall o :: o in id && o.kind != Rel ==> id[o] == old(id)[o]
      {
        assert rs[i] in rs;
        OneMoreNumber(id, Rel, rs, i);
        n := RenumberObj(Obj(Rel, rs[i]), 0, n);
      }
    }

    /** The second traversal: the members are changed when all relations have their new id. */
    method RenumberMembers(rs: seq<int>)
      requires Valid() && Order(id.Keys, Rel, rs)
      modifies this
      ensures Valid() && id == old(id) && ref == old(ref)
      ensures mem.Keys == old(mem).Keys && forall k :: k in mem ==> mem[k] == MembersAfter(id, old(mem)[k])
    {
      hide RefsAfter, MembersAfter;
      var n := 1;
      for i := 0 to |rs|
        invariant Valid() && id == old(id) && ref == old(ref) && n == 1
        invariant mem.Keys == old(mem).Keys
        invariant forall k :: k in mem ==> mem[k] == if k in rs[..i] then MembersAfter(id, old(mem)[k]) else old(mem)[k]
      {
        assert rs[i] in rs && rs[i] !in rs[..i] && rs[..i + 1] == rs[..i] + [rs[i]];
        n := RenumberObj(Obj(Rel, rs[i]), 1, n);
      }
      forall k | k in mem ensures k in rs[..|rs|] {
        assert Obj(Rel, k) in id.Keys && rs[..|rs|] == rs;
      }
    }

    /** renumber(): ns, ws and rs are the keys in the order of the traversals. */
    method RenumberAll(ns: seq<int>, ws: seq<int>, rs: seq<int>)
      requires Valid() && Order(id.Keys, Node, ns) && Order(id.Keys, Way, ws) && Order(id.Keys, Rel, rs)
      modifies this
      ensures Valid() && id.Keys == old(id).Keys
      ensures Numbered(id, Node, ns, |ns|) && Numbered(id, Way, ws, |ws|) && Numbered(id, Rel, rs, |rs|)
      ensures ref.Keys == old(ref).Keys && forall k :: k in ref ==> ref[k] == RefsAfter(id, old(ref)[k])
      ensures mem.Keys == old(mem).Keys && forall k :: k in mem ==> mem[k] == MembersAfter(id, old(mem)[k])
      ensures forall k :: k in ref ==> AllFollow(id, Nodes(old(ref)[k]), Nodes(ref[k]))
      ensures forall k :: k in mem ==> AllFollow(id, old(mem)[k], mem[k])
    {
      hide RefsAfter, MembersAfter, Nodes, AllFollow;
      RenumberNodes(ns);
      ghost var id1 := id;
      RenumberWays(ws);
      RenumberRels(rs);
      RenumberMembers(rs);
      forall k | k in ref
        ensures ref[k] == RefsAfter(id, old(ref)[k]) && AllFollow(id, Nodes(old(ref)[k]), Nodes(ref[k]))
      {
        SameRefs(id, id1, old(ref)[k]);
        RefsFollow(id, ns, old(ref)[k]);
      }
      forall k | k in mem ensures AllFollow(id, old(mem)[k], mem[k]) {
        MembersFollow(id, ns, ws, rs, old(mem)[k]);
      }
    }
  }

  ghost predicate ValidKeys(keys: set<Obj>, ways: set<int>, rels: set<int>) {
    && (forall k :: k in ways <==> Obj(Way, k) in keys)
    && (forall k :: k in rels <==> Obj(Rel, k) in keys)
  }
}
