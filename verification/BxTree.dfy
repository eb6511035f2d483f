/**
 * The object store: the radix tree of libsmrender/bxtree.c, the operations on
 * it in libsmrender/smutil.c, and traverse() in src/smcore.c.
 *
 * Ids are 64 bit integers and BX_RES is 4 (configure.ac): a path
 * from the root to a leaf has 16 steps, and every node has 16 pointers. In an
 * inner node they are child nodes, in a leaf they are objects, one for each
 * type of object.
 */
module BxTree {
  import opened Common

  // ----- the digits of an id -----

  /** x >> 4 * k. */
  function Shift(x: nat, k: nat): nat {
    if k == 0 then x else Shift(x, k - 1) / 16
  }

  /** The two's complement of a 64 bit id, as an unsigned number. */
  function Unsigned(h: int): (u: nat)
    ensures u < 0x1_0000_0000_0000_0000
  {
    h % 0x1_0000_0000_0000_0000
  }

  /** BT_MASK(): the step at level d of the path to h. */
  function Digit(h: int, d: nat): (r: nat)
    requires d < 16
    ensures r < 16
  {
    Shift(Unsigned(h), 15 - d) % 16
  }

  /** The first d steps of the path to h, as a number. */
  function Prefix(h: int, d: nat): nat
    requires d <= 16
  {
    Shift(Unsigned(h), 16 - d)
  }

  lemma PrefixStep(h: int, d: nat)
    requires d < 16
    ensures Prefix(h, d + 1) == 16 * Prefix(h, d) + Digit(h, d)
  {
  }

  lemma ShiftTwice(x: nat, k: nat, b: nat)
    requires Shift(x, k) < 256 * b
    ensures Shift(x, k + 2) < b
  {
    assert Shift(x, k + 1) < 16 * b;
  }

  lemma PrefixEnds(h: int)
    ensures Prefix(h, 0) == 0 && Prefix(h, 16) == Unsigned(h)
  {
    var u := Unsigned(h);
    assert Shift(u, 0) == u;
    ShiftTwice(u, 0, 0x100_0000_0000_0000);
    ShiftTwice(u, 2, 0x1_0000_0000_0000);
    ShiftTwice(u, 4, 0x100_0000_0000);
    ShiftTwice(u, 6, 0x1_0000_0000);
    ShiftTwice(u, 8, 0x100_0000);
    ShiftTwice(u, 10, 0x1_0000);
    ShiftTwice(u, 12, 0x100);
    ShiftTwice(u, 14, 1);
  }

  predicate Int64(h: int) {
    -0x8000_0000_0000_0000 <= h < 0x8000_0000_0000_0000
  }

  lemma UnsignedIs(h: int)
    requires Int64(h)
    ensures Unsigned(h) == if h >= 0 then h else h + 0x1_0000_0000_0000_0000
  {
  }

  lemma UnsignedIsInjective(g: int, h: int)
    requires Int64(g) && Int64(h)
    ensures Unsigned(g) == Unsigned(h) <==> g == h
  {
  }

  /**
   * Ids from 0 on come first, increasing, then the negative ones, increasing, and the slots of an
   * id in their order.
   */
  predicate Sooner(h: int, i: nat, g: int, j: nat) {
    (h >= 0 && g < 0) || ((h >= 0 <==> g >= 0) && (h < g || (h == g && i < j)))
  }

  /** This is the order of the keys. */
  lemma SoonerIff(h: int, i: nat, g: int, j: nat)
    requires Int64(h) && Int64(g) && i < 16 && j < 16
    ensures 16 * Unsigned(h) + i < 16 * Unsigned(g) + j <==> Sooner(h, i, g, j)
  {
    UnsignedIs(h);
    UnsignedIs(g);
  }

  /** Where slot i of h and slot j of g are visited, this one is visited first which comes sooner. */
  ghost predicate InOrder(vs: seq<nat>, h: int, i: nat, g: int, j: nat) {
    forall x, y :: 0 <= x < |vs| && 0 <= y < |vs| && vs[x] == 16 * Unsigned(h) + i && vs[y] == 16 * Unsigned(g) + j ==>
      (x < y <==> Sooner(h, i, g, j))
  }

  lemma IncreasingInOrder(vs: seq<nat>, h: int, i: nat, g: int, j: nat)
    requires (forall x, y :: 0 <= x < y < |vs| ==> vs[x] < vs[y]) && Int64(h) && Int64(g) && i < 16 && j < 16
    ensures InOrder(vs, h, i, g, j)
  {
    hide Unsigned, Sooner;
    SoonerIff(h, i, g, j);
  }

  // ----- nodes -----

  /** A pointer to an object, which may be NULL. */
  type Ptr = Option<int>

  class BxNode {
    var next: seq<BxNode?>
    var slot: seq<Ptr>

    /** bx_malloc(): all pointers are NULL. */
    constructor ()
      ensures next == seq(16, i => null) && slot == seq(16, i => None)
    {
      next := seq(16, i => null);
      slot := seq(16, i => None);
    }
  }

  /** The place of a node: its level, and the path to it as a number. */
  type Place = (nat, nat)

  function ChildOf(k: Place, i: nat): Place {
    (k.0 + 1, 16 * k.1 + i)
  }

  function ParentOf(k: Place): Place
    requires k.0 > 0
  {
    (k.0 - 1, k.1 / 16)
  }

  /** A place has only one parent. */
  lemma Parent(k: Place, i: nat)
    requires i < 16
    ensures ChildOf(k, i).0 > 0 && ParentOf(ChildOf(k, i)) == k && ChildOf(k, i) != (0, 0)
    ensures forall j :: 0 <= j < 16 && ChildOf(k, j) == ChildOf(k, i) ==> j == i
  {
  }

  class BxTree {
    var root: BxNode?
    ghost var dir: map<Place, BxNode>

    ghost predicate Valid()
      reads this, dir.Values
    {
      && root == NodeAt((0, 0))
      && (forall k :: k in dir ==> k.0 <= 16 && |dir[k].next| == 16 && |dir[k].slot| == 16)
      && (forall k :: k in dir && k.0 == 0 ==> k.1 == 0)
      && (forall k {:trigger ParentOf(k)} :: k in dir && k.0 > 0 ==> ParentOf(k) in dir)
      && (forall k :: k in dir && k.0 < 16 ==> Linked(k))
      && (forall k, l :: k in dir && l in dir && dir[k] == dir[l] ==> k == l)
    }

    /** The pointers of an inner node lead to the places below it. */
    ghost predicate Linked(k: Place)
      requires k in dir && |dir[k].next| == 16
      reads this, dir[k]
    {
      forall i :: 0 <= i < 16 ==> dir[k].next[i] == NodeAt(ChildOf(k, i))
    }

    ghost function NodeAt(k: Place): BxNode?
      reads this
    {
      if k in dir then dir[k] else null
    }

    /** What the tree stores for an id and a slot. */
    ghost function Lookup(h: int, idx: nat): Ptr
      requires Valid() && idx < 16
      reads this, dir.Values
    {
      if (16, Unsigned(h)) in dir then dir[(16, Unsigned(h))].slot[idx] else None
    }

    constructor ()
      ensures Valid() && forall h, i :: 0 <= i < 16 ==> Lookup(h, i) == None
    {
      root := null;
      dir := map[];
    }

    /** There is nothing below a missing node. */
    lemma {:induction false} NoPath(u: nat, k: nat)
      requires Valid() && k <= 16 && (16 - k, Shift(u, k)) !in dir
      ensures (16, u) !in dir
    {
      if k > 0 {
        assert ParentOf((17 - k, Shift(u, k - 1))) == (16 - k, Shift(u, k));
        NoPath(u, k - 1);
      }
    }

    /** The step from one node on the path to h to the next one. */
    lemma OnPath(h: int, d: nat)
      requires Valid() && d < 16
      ensures (d + 1, Prefix(h, d + 1)) in dir ==> (d, Prefix(h, d)) in dir
      ensures (d, Prefix(h, d)) in dir ==> var n := dir[(d, Prefix(h, d))];
        |n.next| == 16 && n.next[Digit(h, d)] == NodeAt((d + 1, Prefix(h, d + 1)))
    {
      hide Shift, Prefix, Digit, Unsigned;
      PrefixStep(h, d);
      assert (d, Prefix(h, d)) in dir ==> Linked((d, Prefix(h, d)));
      assert ChildOf((d, Prefix(h, d)), Digit(h, d)) == (d + 1, Prefix(h, d + 1));
      assert ParentOf((d + 1, Prefix(h, d + 1))) == (d, Prefix(h, d));
    }

    lemma NoPathTo(h: int, d: nat)
      requires Valid() && d <= 16 && (d, Prefix(h, d)) !in dir
      ensures (16, Unsigned(h)) !in dir
    {
      NoPath(Unsigned(h), 16 - d);
    }

    /** bx_get_node1(). */
    function GetNode(node: BxNode?, h: int, d: nat): (r: BxNode?)
      requires Valid() && d <= 16 && node == NodeAt((d, Prefix(h, d)))
      reads this, dir.Values
      ensures r == NodeAt((16, Unsigned(h)))
      decreases 16 - d
    {
      hide Shift, Prefix, Digit, Unsigned, Valid;
      PrefixEnds(h);
      if d >= 16 then node
      else
        OnPath(h, d);
        if node != null then GetNode(node.next[Digit(h, d)], h, d + 1)
        else
          NoPathTo(h, d);
          null
    }

    method Attach(at: BxNode?, i: nat) returns (node: BxNode)
      requires at != null ==> i < |at.next|
      modifies this`root, at
      ensures fresh(node) && node.next == seq(16, i => null) && node.slot == seq(16, i => None)
      ensures root == if at == null then node else old(root)
      ensures at != null ==> at.next == old(at.next)[i := node] && at.slot == old(at.slot)
    {
      node := new BxNode();
      if at == null {
        root := node;
      } else {
        at.next := at.next[i := node];
      }
    }

    /** A new node where there was a NULL pointer: the root pointer, or pointer i of node at. */
    method Link(at: BxNode?, i: nat, ghost k: Place) returns (node: BxNode)
      requires Valid() && k.0 <= 16 && k !in dir
      requires
        if k == (0, 0) then at == null
        else i < 16 && k.0 > 0 && ParentOf(k) in dir && at == dir[ParentOf(k)] && k == ChildOf(ParentOf(k), i)
      modifies this, at
      ensures Valid() && dir == old(dir)[k := node] && fresh(node) && node.slot == seq(16, i => None)
      ensures at != null ==> at.slot == old(at.slot)
    {
      hide ChildOf, ParentOf;
      NothingBelow(k);
      node := Attach(at, i);
      dir := dir[k := node];
      forall l | l in dir && l.0 < 16 ensures Linked(l) {
        if l != k {
          assert old(Linked(l));
          OneMore(old(dir), l, old(dir[l].next), k, i, node);
        }
      }
    }

    lemma NothingBelow(k: Place)
      requires Valid() && k !in dir
      ensures forall j :: 0 <= j < 16 ==> ChildOf(k, j) !in dir && ChildOf(k, j) != k
    {
      forall j | 0 <= j < 16 ensures ChildOf(k, j) !in dir && ChildOf(k, j) != k {
        Parent(k, j);
        assert ParentOf(ChildOf(k, j)) == k;
      }
    }

    /** What there is at a place. */
    static ghost function At(dir: map<Place, BxNode>, k: Place): BxNode? {
      if k in dir then dir[k] else null
    }

    /** A new node changes the pointers of its parent only. */
    static lemma OneMore(dir: map<Place, BxNode>, l: Place, next: seq<BxNode?>, k: Place, i: nat, node: BxNode)
      requires |next| == 16 && forall j :: 0 <= j < 16 ==> next[j] == At(dir, ChildOf(l, j))
      requires k.0 > 0 ==> i < 16 && k == ChildOf(ParentOf(k), i)
      requires k.0 == 0 ==> k == (0, 0)
      ensures var next' := if k.0 > 0 && l == ParentOf(k) then next[i := node] else next;
        forall j :: 0 <= j < 16 ==> next'[j] == At(dir[k := node], ChildOf(l, j))
    {
      hide ChildOf, ParentOf;
      forall j | 0 <= j < 16
        ensures (ChildOf(l, j) == k <==> k.0 > 0 && l == ParentOf(k) && j == i)
      {
        Parent(l, j);
      }
    }

    /** bx_add_node1(): the pointer to the node is the root pointer, or pointer i of node at. */
    method AddNode(at: BxNode?, i: nat, h: int, d: nat) returns (r: BxNode)
      requires Valid() && d <= 16
      requires
        if d == 0 then at == null
        else i == Digit(h, d - 1) && at != null && at == NodeAt((d - 1, Prefix(h, d - 1)))
      modifies this, dir.Values
      ensures Valid() && r == NodeAt((16, Unsigned(h)))
      ensures forall k :: k in old(dir) ==> k in dir && dir[k] == old(dir[k]) && dir[k].slot == old(dir[k].slot)
      ensures forall k :: k in dir && k !in old(dir) ==> fresh(dir[k]) && dir[k].slot == seq(16, i => None)
      ensures fresh(dir.Values - old(dir.Values))
      decreases 16 - d
    {
      hide Shift, Prefix, Digit, Unsigned, Valid, ChildOf, ParentOf;
      ghost var k := (d, Prefix(h, d));
      AddHere(at, i, h, d);
      var node := if at == null then root else at.next[i];
      if node == null {
        node := Link(at, i, k);
      }
      assert node == NodeAt(k);
      PrefixEnds(h);
      if d >= 16 {
        return node;
      }
      r := AddNode(node, Digit(h, d), h, d + 1);
    }

    /** The pointer that bx_add_node1() looks at is the one to the place it is about to fill. */
    lemma AddHere(at: BxNode?, i: nat, h: int, d: nat)
      requires Valid() && d <= 16
      requires
        if d == 0 then at == null
        else i == Digit(h, d - 1) && at != null && at == NodeAt((d - 1, Prefix(h, d - 1)))
      ensures var k := (d, Prefix(h, d));
        if d == 0 then k == (0, 0) && root == NodeAt(k)
        else
          && |at.next| == 16 && i < 16 && at.next[i] == NodeAt(k)
          && ParentOf(k) in dir && at == dir[ParentOf(k)] && k == ChildOf(ParentOf(k), i)
    {
      hide Shift, Prefix, Digit, Unsigned;
      PrefixEnds(h);
      if d > 0 {
        PrefixStep(h, d - 1);
        OnPath(h, d - 1);
        assert ParentOf((d, Prefix(h, d))) == (d - 1, Prefix(h, d - 1));
      }
    }

    // ----- objects -----

    /** get_object0(). */
    function GetObject0(h: int, idx: int): (p: Ptr)
      requires Valid()
      reads this, dir.Values
      ensures p == if 0 <= idx < 16 then Lookup(h, idx) else None
    {
      hide Shift, Prefix, Unsigned;
      PrefixEnds(h);
      if idx < 0 || idx >= 16 then None
      else
        var bn := GetNode(root, h, 0);
        if bn == null then None else bn.slot[idx]
    }

    /**
     * put_object0_ctrl(): isObjTree says that this is the tree of the static object pointer, and
     * ctrl is the pointer variable that controls overwriting, if there is one.
     */
    method PutObject0Ctrl(h: int, p: Ptr, idx: int, isObjTree: bool, ctrl: Option<Ptr>)
      returns (r: int, ctrl': Option<Ptr>)
      requires Valid()
      modifies this, dir.Values
      ensures Valid() && fresh(dir.Values - old(dir.Values))
      ensures r == -1 || r == 0
      ensures r == -1 <==>
        !(0 <= idx < 16) || (isObjTree && p.Some? && ctrl.Some? && ctrl.value.Some? && old(Lookup(h, idx)).Some?)
      ensures forall g, i :: 0 <= i < 16 ==>
        Lookup(g, i) == if r == 0 && Unsigned(g) == Unsigned(h) && i == idx then p else old(Lookup(g, i))
      ensures ctrl' == if ctrl.None? || !(0 <= idx < 16) then ctrl else Some(old(Lookup(h, idx)))
    {
      hide Shift, Prefix, Digit, Unsigned;
      ctrl' := ctrl;
      if idx < 0 || idx >= 16 {
        return -1, ctrl';
      }
      PrefixEnds(h);
      var bn := AddNode(null, 0, h, 0);
      assert forall g, i :: 0 <= i < 16 ==> Lookup(g, i) == old(Lookup(g, i));
      if bn.slot[idx] != None && p != None && isObjTree {
        if ctrl != None && ctrl.value != None {
          return -1, Some(bn.slot[idx]);
        }
      }
      if ctrl != None {
        ctrl' := Some(bn.slot[idx]);
      }
      bn.slot := bn.slot[idx := p];
      return 0, ctrl';
    }

    /** get_object(): the types of objects begin with 1. */
    function GetObject(kind: int, h: int): (p: Ptr)
      requires Valid()
      reads this, dir.Values
      ensures p == if 1 <= kind <= 16 then Lookup(h, kind - 1) else None
    {
      GetObject0(h, kind - 1)
    }

    lemma GetObjectIs(kind: int, h: int)
      requires Valid()
      ensures GetObject(kind, h) == if 1 <= kind <= 16 then Lookup(h, kind - 1) else None
      ensures forall g, i :: Unsigned(g) == Unsigned(h) && 0 <= i < 16 ==> Lookup(g, i) == Lookup(h, i)
    {
    }

    /** rem_object(): only the entry of this object is removed. */
    method RemObject(kind: int, h: int) returns (o: Ptr)
      requires Valid()
      modifies this, dir.Values
      ensures Valid() && fresh(dir.Values - old(dir.Values)) && o == old(GetObject(kind, h))
      ensures forall g, i :: 0 <= i < 16 ==>
        Lookup(g, i) == if Unsigned(g) == Unsigned(h) && i == kind - 1 then None else old(Lookup(g, i))
    {
      hide *;
      GetObjectIs(kind, h);
      o := GetObject(kind, h);
      if o == None {
        return None;
      }
      var r, ctrl := PutObject0Ctrl(h, None, kind - 1, true, None);
    }

    /** Removing a new object takes the tree back to what it was. */
    method PutAndRemove(kind: int, h: int, p: int) returns (o: Ptr)
      requires Valid() && 1 <= kind <= 16 && GetObject(kind, h) == None
      modifies this, dir.Values
      ensures Valid() && fresh(dir.Values - old(dir.Values)) && o == Some(p)
      ensures forall g, i :: 0 <= i < 16 ==> Lookup(g, i) == old(Lookup(g, i))
    {
      hide *;
      GetObjectIs(kind, h);
      var r, ctrl := PutObject0Ctrl(h, Some(p), kind - 1, true, Some(Some(p)));
      GetObjectIs(kind, h);
      o := RemObject(kind, h);
    }

    // ----- traversal -----

    /** Keys of the entries of the tree: 16 for each id. */
    ghost function Keys(): set<nat>
      requires Valid()
      reads this, dir.Values
    {
      set k, i | k in dir && k.0 == 16 && 0 <= i < 16 && dir[k].slot[i].Some? :: 16 * k.1 + i
    }

    /** The entries of the tree: the objects, by id and slot. */
    ghost function Entries(): (t: map<nat, int>)
      requires Valid()
      reads this, dir.Values
      ensures forall v :: v in t <==> (16, v / 16) in dir && dir[(16, v / 16)].slot[v % 16].Some?
      ensures forall v :: v in t ==> t[v] == dir[(16, v / 16)].slot[v % 16].value
    {
      map v | v in Keys() :: dir[(16, v / 16)].slot[v % 16].value
    }

    /** The entries are what Lookup() finds. */
    lemma EntriesAreLookups(h: int, idx: nat)
      requires Valid() && idx < 16
      ensures Lookup(h, idx) ==
        if 16 * Unsigned(h) + idx in Entries() then Some(Entries()[16 * Unsigned(h) + idx]) else None
    {
      var v := 16 * Unsigned(h) + idx;
      assert v / 16 == Unsigned(h) && v % 16 == idx;
    }

    lemma Here(nt: BxNode?, d: nat, n: nat)
      requires Valid() && nt == NodeAt((d, n))
      ensures nt != null <==> (d, n) in dir
      ensures nt != null ==> dir[(d, n)] == nt
    {
    }

    lemma LeafSlot(n: nat, i: nat)
      requires Valid() && (16, n) in dir && i < 16
      ensures |dir[(16, n)].slot| == 16
      ensures dir[(16, n)].slot[i] == if 16 * n + i in Entries() then Some(Entries()[16 * n + i]) else None
    {
      assert (16 * n + i) / 16 == n && (16 * n + i) % 16 == i;
    }

    lemma Child(d: nat, n: nat, i: nat)
      requires Valid() && (d, n) in dir && d < 16 && i < 16
      ensures |dir[(d, n)].next| == 16 && dir[(d, n)].next[i] == NodeAt((d + 1, 16 * n + i))
      ensures dir[(d, n)].next[i] == null <==> (d + 1, 16 * n + i) !in dir
    {
      assert Linked((d, n));
      assert ChildOf((d, n), i) == (d + 1, 16 * n + i);
    }

    /** There are no entries where there is no node. */
    lemma EmptyBranch(d: nat, n: nat, v: nat)
      requires Valid() && d <= 16 && (d, n) !in dir && v in Entries()
      ensures Shift(v / 16, 16 - d) != n
    {
      if Shift(v / 16, 16 - d) == n {
        NoPath(v / 16, 16 - d);
        assert false;
      }
    }

    /**
     * traverse(): the handler gets the objects that it has been called with so far, and the new
     * one as the last of them. A signal that interrupts the traversal is not part of this model.
     */
    method Traverse(nt: BxNode?, d: nat, idx: int, handler: seq<int> -> int, calls: seq<int>, ghost n: nat)
      returns (e: int, calls': seq<int>, ghost vs: seq<nat>)
      requires Valid() && d <= 16 && nt == NodeAt((d, n))
      ensures nt == null || !(-1 <= idx < 16) ==> e == -1 && vs == [] && calls' == calls
      ensures nt != null && -1 <= idx < 16 ==>
        && Visits(vs, Entries(), idx, 16 - d, n, n + 1, e == 0)
        && (forall v :: v in vs ==> v in Entries())
        && calls' == calls + Objects(vs, Entries())
        && Stops(handler, calls, calls', e)
      decreases 16 - d
    {
      hide *;
      ghost var t := Entries();
      calls', vs, e := calls, [], 0;
      NoCalls(handler, calls, t);
      Here(nt, d, n);
      if nt == null {
        return -1, calls, [];
      }
      if idx < -1 || idx >= 16 {
        return -1, calls, [];
      }
      if d == 16 {
        var sidx, eidx := 0, 16;
        if idx != -1 {
          sidx, eidx := idx, idx + 1;
        }
        NoSlots(t, idx, n, sidx);
        for i := sidx to eidx
          invariant Slots(vs, t, idx, n, i)
          invariant forall v :: v in vs ==> v in t
          invariant e == 0 && calls' == calls + Objects(vs, t) && Stops(handler, calls, calls', e)
        {
          LeafSlot(n, i);
          SlotStep(vs, t, idx, n, i);
          if nt.slot[i] != None {
            OneCall(handler, calls, calls', vs, t, 16 * n + i);
            calls' := calls' + [nt.slot[i].value];
            vs := vs + [16 * n + i];
            e := handler(calls');
            if e != 0 {
              return;
            }
          }
        }
        AllSlots(vs, t, idx, n, eidx);
        return;
      }
      NoBranches(t, idx, 15 - d, n);
      for i := 0 to 16
        invariant Visits(vs, t, idx, 15 - d, 16 * n, 16 * n + i, true)
        invariant forall v :: v in vs ==> v in t
        invariant e == 0 && calls' == calls + Objects(vs, t) && Stops(handler, calls, calls', e)
      {
        Child(d, n, i);
        if nt.next[i] != null {
          ghost var ws, was := vs, calls';
          e, calls', ws := Traverse(nt.next[i], d + 1, idx, handler, calls', 16 * n + i);
          MoreCalls(handler, calls, was, calls', vs, ws, t, e);
          MoreBranches(vs, ws, t, idx, 15 - d, 16 * n, 16 * n + i, 16 * n + i + 1, e == 0);
          vs := vs + ws;
          if e != 0 {
            BranchDone(vs, t, idx, 15 - d, n, i + 1, false);
            return;
          }
        } else {
          forall v | v in t ensures Shift(v / 16, 15 - d) != 16 * n + i {
            EmptyBranch(d + 1, 16 * n + i, v);
          }
          NoMoreBranches(vs, t, idx, 15 - d, 16 * n, 16 * n + i);
        }
      }
      BranchDone(vs, t, idx, 15 - d, n, 16, true);
    }

    /** Place k lies at or below place p. */
    ghost predicate Below(k: Place, p: Place) {
      k.0 >= p.0 && Shift(k.1, k.0 - p.0) == p.1
    }

    /** bx_free_tree0(): the places of the nodes in the order in which they are freed. */
    method FreeTree(node: BxNode?, d: nat, ghost n: nat) returns (ghost freed: seq<Place>)
      requires Valid() && d <= 16 && node == NodeAt((d, n))
      ensures Distinct(freed) && forall k :: k in freed <==> k in dir && Below(k, (d, n))
      decreases 16 - d
    {
      hide *;
      freed := [];
      Here(node, d, n);
      NothingThere(d, n);
      if node == null {
        return;
      }
      NoneFreed(d, n);
      if d < 16 {
        for i := 0 to 16
          invariant Freed(freed, d, n, i)
        {
          Child(d, n, i);
          ghost var more := FreeTree(node.next[i], d + 1, 16 * n + i);
          FreedMore(freed, more, d, n, i);
          freed := freed + more;
        }
      }
      FreedAll(freed, d, n);
      freed := freed + [(d, n)];
    }

    /** The first i branches of a node have been freed. */
    ghost predicate Freed(freed: seq<Place>, d: nat, n: nat, i: nat)
      reads this
    {
      Distinct(freed) && forall k :: k in freed <==> k in dir && InBranches(k, d, n, i)
    }

    ghost predicate InBranches(k: Place, d: nat, n: nat, i: nat) {
      k.0 > d && 16 * n <= Shift(k.1, k.0 - d - 1) < 16 * n + i
    }

    lemma NothingThere(d: nat, n: nat)
      requires Valid() && d <= 16
      ensures Distinct<Place>([]) && ((d, n) !in dir ==> forall k :: !(k in dir && Below(k, (d, n))))
    {
      forall k | k in dir && Below(k, (d, n)) ensures (d, n) in dir {
        Ancestor(k, k.0 - d);
      }
    }

    lemma {:induction false} Ancestor(k: Place, j: nat)
      requires Valid() && k in dir && j <= k.0
      ensures (k.0 - j, Shift(k.1, j)) in dir
    {
      if j > 0 {
        Ancestor(k, j - 1);
        assert ParentOf((k.0 - j + 1, Shift(k.1, j - 1))) == (k.0 - j, Shift(k.1, j));
      }
    }

    lemma NoneFreed(d: nat, n: nat)
      requires Valid()
      ensures Freed([], d, n, 0)
    {
    }

    lemma FreedMore(a: seq<Place>, b: seq<Place>, d: nat, n: nat, i: nat)
      requires Freed(a, d, n, i) && Distinct(b) && forall k :: k in b <==> k in dir && Below(k, (d + 1, 16 * n + i))
      ensures Freed(a + b, d, n, i + 1)
    {
      forall x, y | 0 <= x < |a| && 0 <= y < |b| ensures a[x] != b[y] {
        assert a[x] in a && b[y] in b;
      }
    }

    /** With all branches, everything below the node but the node itself has been freed. */
    lemma FreedAll(freed: seq<Place>, d: nat, n: nat)
      requires Valid() && d <= 16 && (d, n) in dir && Freed(freed, d, n, if d < 16 then 16 else 0)
      ensures Distinct(freed + [(d, n)]) && forall k :: k in freed + [(d, n)] <==> k in dir && Below(k, (d, n))
    {
      forall k | k in dir ensures Below(k, (d, n)) <==> k == (d, n) || InBranches(k, d, n, 16) {
        if k.0 > d {
          assert Shift(k.1, k.0 - d) == Shift(k.1, k.0 - d - 1) / 16;
        }
      }
      forall x | 0 <= x < |freed| ensures freed[x] != (d, n) {
        assert freed[x] in freed;
      }
    }

    /**
     * From the root, a traversal that is not stopped meets every wanted entry of the tree: these are
     * exactly the objects that can be looked up. Non-negative ids come first, and negative ones last.
     */
    lemma RootReachesAll(vs: seq<nat>, idx: int)
      requires Valid() && Visits(vs, Entries(), idx, 16, 0, 1, true)
      ensures forall v :: v in vs <==> v in Entries() && Wanted(v, idx)
      ensures forall i, j :: 0 <= i < j < |vs| ==> vs[i] < vs[j]
      ensures forall h, i: nat :: i < 16 ==> VisitedIffFound(vs, idx, h, i)
      ensures forall h, i: nat, g, j: nat :: Int64(h) && Int64(g) && i < 16 && j < 16 ==> InOrder(vs, h, i, g, j)
    {
      hide *;
      RootVisits(vs, idx);
      forall h, i: nat, g, j: nat | Int64(h) && Int64(g) && i < 16 && j < 16 ensures InOrder(vs, h, i, g, j) {
        IncreasingInOrder(vs, h, i, g, j);
      }
      forall h, i: nat | i < 16 ensures VisitedIffFound(vs, idx, h, i) {
        VisitedAreFound(vs, idx, h, i);
      }
    }

    /** The traversal has visited slot i of h iff it has to and the slot is taken; and its object is the one found. */
    ghost predicate VisitedIffFound(vs: seq<nat>, idx: int, h: int, i: nat)
      requires Valid() && i < 16
      reads this, dir.Values
    {
      var v := 16 * Unsigned(h) + i;
      && (v in vs <==> Lookup(h, i).Some? && (idx == -1 || i == idx))
      && (v in vs ==> v in Entries() && Lookup(h, i) == Some(Entries()[v]))
    }

    lemma VisitedAreFound(vs: seq<nat>, idx: int, h: int, i: nat)
      requires Valid() && i < 16 && forall v :: v in vs <==> v in Entries() && Wanted(v, idx)
      ensures VisitedIffFound(vs, idx, h, i)
    {
      hide Valid, Lookup, Entries, Unsigned;
      EntriesAreLookups(h, i);
      SlotOf(Unsigned(h), i);
    }

    lemma RootVisits(vs: seq<nat>, idx: int)
      requires Valid() && Visits(vs, Entries(), idx, 16, 0, 1, true)
      ensures forall v :: v in vs <==> v in Entries() && Wanted(v, idx)
      ensures forall i, j :: 0 <= i < j < |vs| ==> vs[i] < vs[j]
    {
      forall v | v in Entries() ensures Shift(v / 16, 16) == 0 {
        if (0, Shift(v / 16, 16)) !in dir {
          EmptyBranch(0, Shift(v / 16, 16), v);
        }
      }
    }
  }

  type Handler = seq<int> -> int

  /** The objects that belong to entries. */
  ghost function Objects(vs: seq<nat>, t: map<nat, int>): (r: seq<int>)
    requires forall v :: v in vs ==> v in t
    ensures |r| == |vs|
  {
    seq(|vs|, i requires 0 <= i < |vs| => t[vs[i]])
  }

  /** The handler returned 0 for all calls but the last one, and e for the last one. */
  ghost predicate Stops(handler: Handler, calls: seq<int>, calls': seq<int>, e: int) {
    && calls <= calls'
    && (forall j :: |calls| < j < |calls'| ==> handler(calls'[..j]) == 0)
    && e == if |calls| == |calls'| then 0 else handler(calls')
  }

  lemma NoCalls(handler: Handler, calls: seq<int>, t: map<nat, int>)
    ensures Stops(handler, calls, calls, 0) && calls == calls + Objects([], t)
  {
  }

  lemma OneCall(handler: Handler, calls: seq<int>, calls': seq<int>, vs: seq<nat>, t: map<nat, int>, v: nat)
    requires v in t && (forall v :: v in vs ==> v in t) && calls' == calls + Objects(vs, t) &&
      Stops(handler, calls, calls', 0)
    ensures forall w :: w in vs + [v] ==> w in t
    ensures calls' + [t[v]] == calls + Objects(vs + [v], t)
    ensures Stops(handler, calls, calls' + [t[v]], handler(calls' + [t[v]]))
  {
    var c := calls' + [t[v]];
    assert Objects(vs + [v], t) == Objects(vs, t) + [t[v]];
    assert calls'[..|calls'|] == calls';
    forall j | |calls| < j < |c| ensures handler(c[..j]) == 0 {
      assert c[..j] == calls'[..j];
    }
  }

  lemma MoreCalls(handler: Handler, calls: seq<int>, calls1: seq<int>, calls2: seq<int>, vs: seq<nat>, ws: seq<nat>,
      t: map<nat, int>, e: int)
    requires (forall v :: v in vs ==> v in t) && calls1 == calls + Objects(vs, t) && Stops(handler, calls, calls1, 0)
    requires (forall v :: v in ws ==> v in t) && calls2 == calls1 + Objects(ws, t) && Stops(handler, calls1, calls2, e)
    ensures (forall v :: v in vs + ws ==> v in t) && calls2 == calls + Objects(vs + ws, t) &&
      Stops(handler, calls, calls2, e)
  {
    assert Objects(vs + ws, t) == Objects(vs, t) + Objects(ws, t);
    assert ws == [] ==> calls2 == calls1;
    forall j | |calls| < j < |calls2| ensures handler(calls2[..j]) == 0 {
      if j <= |calls1| {
        assert calls2[..j] == calls1[..j];
        assert calls1[..|calls1|] == calls1;
      }
    }
  }

  predicate Wanted(v: nat, idx: int) {
    idx == -1 || idx == v % 16
  }

  lemma SlotOf(u: nat, i: nat)
    requires i < 16
    ensures (16 * u + i) % 16 == i
  {
  }

  ghost predicate Increasing(vs: seq<nat>) {
    forall i, j :: 0 <= i < j < |vs| ==> vs[i] < vs[j]
  }

  lemma IncreasingConcat(a: seq<nat>, b: seq<nat>)
    requires Increasing(a) && Increasing(b) && forall v, w :: v in a && w in b ==> v < w
    ensures Increasing(a + b)
  {
    forall i, j | 0 <= i < j < |a + b| ensures (a + b)[i] < (a + b)[j] {
      if i < |a| <= j {
        assert a[i] in a && b[j - |a|] in b;
      }
    }
  }

  /**
   * vs are the wanted entries in the branches lo <= .. < hi at 16 - k steps from the root, in
   * increasing order: all of them, or all of them up to the last one in vs.
   */
  ghost predicate Visits(vs: seq<nat>, t: map<nat, int>, idx: int, k: nat, lo: nat, hi: nat, all: bool) {
    && Increasing(vs)
    && (forall v :: v in vs ==> v in t && Wanted(v, idx) && lo <= Shift(v / 16, k) < hi)
    && (!all ==> vs != [])
    && (forall v :: v in t && Wanted(v, idx) && lo <= Shift(v / 16, k) < hi && (all || v <= vs[|vs| - 1]) ==> v in vs)
  }

  /** The same for the slots below i of one leaf. */
  ghost predicate Slots(vs: seq<nat>, t: map<nat, int>, idx: int, n: nat, i: nat) {
    && Increasing(vs)
    && (forall v :: v in vs ==> v in t && Wanted(v, idx) && v / 16 == n && v % 16 < i)
    && (forall v :: v in t && Wanted(v, idx) && v / 16 == n && v % 16 < i ==> v in vs)
  }

  lemma NoSlots(t: map<nat, int>, idx: int, n: nat, i: nat)
    requires -1 <= idx < 16 && i == if idx == -1 then 0 else idx
    ensures Slots([], t, idx, n, i)
  {
  }

  lemma SlotStep(vs: seq<nat>, t: map<nat, int>, idx: int, n: nat, i: nat)
    requires Slots(vs, t, idx, n, i) && i < 16 && (idx == -1 || idx == i)
    ensures forall v :: v in vs ==> v in t
    ensures var v := 16 * n + i; if v in t then Slots(vs + [v], t, idx, n, i + 1) &&
      Visits(vs + [v], t, idx, 0, n, n + 1, false)
      else Slots(vs, t, idx, n, i + 1)
  {
    var v := 16 * n + i;
    InLeaf(n, i);
    if v in t {
      SlotTaken(vs, t, idx, n, i);
      UpToSlot(vs, t, idx, n, i);
    }
  }

  /** The entry of a slot, and the entries of the leaf in front of it. */
  lemma InLeaf(n: nat, i: nat)
    requires i < 16
    ensures var v := 16 * n + i; v / 16 == n && v % 16 == i
    ensures var v := 16 * n + i; forall w: nat :: w / 16 == n ==> (w % 16 < i <==> w < v) && (w % 16 == i <==> w == v)
  {
  }

  lemma SlotTaken(vs: seq<nat>, t: map<nat, int>, idx: int, n: nat, i: nat)
    requires Slots(vs, t, idx, n, i) && i < 16 && (idx == -1 || idx == i) && 16 * n + i in t
    ensures Slots(vs + [16 * n + i], t, idx, n, i + 1)
  {
    hide Increasing;
    var v := 16 * n + i;
    InLeaf(n, i);
    OneIncreasing(v);
    IncreasingConcat(vs, [v]);
  }

  lemma OneIncreasing(v: nat)
    ensures Increasing([v])
  {
  }

  lemma UpToSlot(vs: seq<nat>, t: map<nat, int>, idx: int, n: nat, i: nat)
    requires i < 16 && Slots(vs + [16 * n + i], t, idx, n, i + 1)
    ensures Visits(vs + [16 * n + i], t, idx, 0, n, n + 1, false)
  {
    hide Increasing;
    var v := 16 * n + i;
    InLeaf(n, i);
    assert (vs + [v])[|vs|] == v;
    forall w | w in t && Wanted(w, idx) && n <= Shift(w / 16, 0) < n + 1 && w <= v ensures w in vs + [v] {
      assert w / 16 == n && w % 16 < i + 1;
    }
  }

  lemma AllSlots(vs: seq<nat>, t: map<nat, int>, idx: int, n: nat, i: nat)
    requires Slots(vs, t, idx, n, i) && -1 <= idx < 16 && i == if idx == -1 then 16 else idx + 1
    ensures Visits(vs, t, idx, 0, n, n + 1, true)
  {
  }

  /** Entries in a later branch come later. */
  lemma {:induction false} Later(u: nat, v: nat, k: nat)
    ensures u <= v ==> Shift(u, k) <= Shift(v, k)
  {
    if k > 0 {
      Later(u, v, k - 1);
    }
  }

  lemma NoBranches(t: map<nat, int>, idx: int, k: nat, n: nat)
    ensures Visits([], t, idx, k, 16 * n, 16 * n, true)
  {
  }

  lemma NoMoreBranches(vs: seq<nat>, t: map<nat, int>, idx: int, k: nat, lo: nat, hi: nat)
    requires Visits(vs, t, idx, k, lo, hi, true) && forall v :: v in t ==> Shift(v / 16, k) != hi
    ensures Visits(vs, t, idx, k, lo, hi + 1, true) && forall v :: v in vs ==> v in t
  {
  }

  lemma MoreBranches(vs: seq<nat>, ws: seq<nat>, t: map<nat, int>, idx: int, k: nat, lo: nat, mid: nat, hi: nat,
      all: bool)
    requires Visits(vs, t, idx, k, lo, mid, true) && Visits(ws, t, idx, k, mid, hi, all) && lo <= mid <= hi
    ensures Visits(vs + ws, t, idx, k, lo, hi, all)
  {
    hide Shift;
    forall v, w | v in vs && w in ws ensures v < w {
      Later(w / 16, v / 16, k);
    }
    IncreasingConcat(vs, ws);
    forall v | v in t && Wanted(v, idx) && lo <= Shift(v / 16, k) < hi && (all || v <= (vs + ws)[|vs + ws| - 1])
      ensures v in vs + ws {
      if Shift(v / 16, k) >= mid {
        assert v in ws;
      }
    }
  }

  lemma BranchDone(vs: seq<nat>, t: map<nat, int>, idx: int, k: nat, n: nat, i: nat, all: bool)
    requires Visits(vs, t, idx, k, 16 * n, 16 * n + i, all) && 0 < i <= 16 && (all ==> i == 16)
    ensures Visits(vs, t, idx, k + 1, n, n + 1, all)
  {
    forall v: nat ensures Shift(v / 16, k + 1) == n <==> 16 * n <= Shift(v / 16, k) < 16 * n + 16 {
    }
    if !all {
      var last := vs[|vs| - 1];
      assert last in vs;
      forall v | v in t && v <= last ensures Shift(v / 16, k) <= Shift(last / 16, k) {
        Later(v / 16, last / 16, k);
      }
    }
  }
}
