/**
 * The cache of query results in smrenderd/smcache.c.
 *
 * A slot keeps the tree that was the result of a query for a box, the time of
 * its last use, which is 0 if the slot is free, and the number of users. Trees
 * of slots that are not in use are freed when a new result needs a slot.
 *
 * Every operation is done under one lock, so an interleaving of threads is a
 * sequence of calls of the methods of the cache in any order. What holds after
 * every call therefore holds in every interleaving; which handles are out, and
 * which trees have been freed, is known to the model only.
 */
module Cache {
  import opened Common

  /** A bounding box in thousandths of a degree. */
  type Box = (int, int, int, int)

  /** The identity of a tree; 0 is the NULL pointer. */
  type Tree = nat

  datatype Slot = Slot(bb: Box, tree: Tree, age: nat, ctr: int)

  /**
   * The counters are the numbers of outstanding handles; the kept trees are live, belong to the
   * box of their slot, and are in no other slot. The tree of a slot that is free again was freed.
   */
  ghost predicate Ok(qc: seq<Slot>, handles: multiset<nat>, freed: multiset<Tree>, result: map<Tree, Box>) {
    && (forall h :: h in handles ==> h < |qc|)
    && (forall i :: 0 <= i < |qc| ==> SlotOk(qc[i], handles[i], freed, result))
    && (forall i, j :: 0 <= i < |qc| && 0 <= j < |qc| && i != j && qc[j].age > 0 ==> qc[i].tree != qc[j].tree)
  }

  ghost predicate SlotOk(s: Slot, n: nat, freed: multiset<Tree>, result: map<Tree, Box>) {
    && s.ctr == n && (s.ctr > 0 ==> s.age > 0)
    && (s.tree != 0 ==> s.tree in result)
    && (s.age > 0 ==> s.tree != 0 && s.tree !in freed && result[s.tree] == s.bb)
    && (s.age == 0 && s.tree != 0 ==> s.tree in freed)
  }

  lemma OkHandle(qc: seq<Slot>, handles: multiset<nat>, handles': multiset<nat>, freed: multiset<Tree>,
      result: map<Tree, Box>, i: nat, s: Slot)
    requires Ok(qc, handles, freed, result) && i < |qc|
    requires s.age > 0 && qc[i].age > 0 && s.tree == qc[i].tree && s.bb == qc[i].bb && s.ctr == handles'[i]
    requires forall h :: h != i ==> handles'[h] == handles[h]
    ensures Ok(qc[i := s], handles', freed, result)
  {
  }

  lemma OkEvicted(qc: seq<Slot>, handles: multiset<nat>, freed: multiset<Tree>, result: map<Tree, Box>, i: nat)
    requires Ok(qc, handles, freed, result) && i < |qc| && qc[i].ctr == 0
    ensures Ok(qc[i := qc[i].(age := 0)], handles, freed + multiset{qc[i].tree}, result)
  {
  }

  lemma OkPut(qc: seq<Slot>, handles: multiset<nat>, freed: multiset<Tree>, result: map<Tree, Box>, i: nat, bb: Box,
      tree: Tree, now: nat)
    requires Ok(qc, handles, freed, result) && i < |qc| && qc[i].age == 0
    requires now > 0 && tree != 0 && tree !in freed && tree !in result
    ensures Ok(qc[i := Slot(bb, tree, now, 1)], handles + multiset{i}, freed, result[tree := bb])
  {
    assert SlotOk(qc[i], handles[i], freed, result);
    forall j | 0 <= j < |qc| && j != i
      ensures SlotOk(qc[j], (handles + multiset{i})[j], freed, result[tree := bb]) && qc[j].tree != tree
    {
      assert SlotOk(qc[j], handles[j], freed, result);
    }
  }

  lemma OkSlot(qc: seq<Slot>, handles: multiset<nat>, freed: multiset<Tree>, result: map<Tree, Box>, i: nat)
    requires Ok(qc, handles, freed, result) && i < |qc|
    ensures SlotOk(qc[i], handles[i], freed, result)
  {
  }

  class QCache {
    const qc: array<Slot>
    /** The handles that have been given out and not been released, by slot. */
    ghost var handles: multiset<nat>
    /** The trees that have been freed, as often as they have been. */
    ghost var freed: multiset<Tree>
    /** The box that each tree was the result for. */
    ghost var result: map<Tree, Box>

    ghost predicate Valid()
      reads this, qc
    {
      Ok(qc[..], handles, freed, result)
    }

    /** The cache does not keep anything in this slot. */
    predicate Free(i: nat)
      requires i < qc.Length
      reads qc
    {
      qc[i].age == 0
    }

    /** Someone holds a handle of this slot. */
    ghost predicate Pinned(i: nat)
      reads this
    {
      i in handles
    }

    constructor (size: nat)
      ensures Valid() && fresh(qc) && qc.Length == size && handles == multiset{} && freed == multiset{} &&
        result == map[]
      ensures forall i :: 0 <= i < size ==> Free(i) && qc[i].tree == 0
    {
      qc := new Slot[size](_ => Slot((0, 0, 0, 0), 0, 0, 0));
      handles, freed, result := multiset{}, multiset{}, map[];
    }

    lemma HandleIs(h: nat)
      requires Valid() && h in handles
      ensures h < qc.Length && qc[h].ctr == handles[h] > 0 && qc[h].age > 0
    {
    }

    /** The counter of a slot is the number of handles. */
    lemma CounterIs(i: nat)
      requires Valid() && i < qc.Length
      ensures qc[i].ctr == handles[i] && (qc[i].ctr == 0 <==> !Pinned(i)) && (Pinned(i) ==> !Free(i))
    {
      OkSlot(qc[..], handles, freed, result, i);
    }

    /** qc_lookup(). */
    method Lookup(bb: Box, now: nat) returns (h: Option<nat>)
      requires Valid() && now > 0
      modifies qc, this`handles
      ensures Valid()
      ensures h.None? ==>
        && (forall i :: 0 <= i < qc.Length && !old(Free(i)) ==> qc[i].bb != bb)
        && qc[..] == old(qc[..]) && handles == old(handles)
      ensures h.Some? ==>
        && h.value < qc.Length && !old(Free(h.value))
        && qc[h.value].tree in result && result[qc[h.value].tree] == bb
      ensures h.Some? ==> handles == old(handles) + multiset{h.value}
      ensures h.Some? ==>
        qc[..] == old(qc[..])[h.value := old(qc[h.value]).(age := now, ctr := old(qc[h.value].ctr) + 1)]
    {
      hide Ok, SlotOk;
      h := None;
      for i := 0 to qc.Length
        invariant h.None? && qc[..] == old(qc[..])
        invariant forall j :: 0 <= j < i && !Free(j) ==> qc[j].bb != bb
      {
        if qc[i].age != 0 && qc[i].bb == bb {
          OkSlot(qc[..], handles, freed, result, i);
          OkHandle(qc[..], handles, handles + multiset{i}, freed, result, i, qc[i].(age := now, ctr := qc[i].ctr + 1));
          qc[i] := qc[i].(age := now, ctr := qc[i].ctr + 1);
          handles := handles + multiset{i};
          h := Some(i);
          return;
        }
      }
    }

    /** qc_release(): of a handle that one of the other operations has returned. */
    method Release(h: nat, now: nat) returns (signal: bool)
      requires Valid() && now > 0 && h in handles
      modifies qc, this`handles
      ensures Valid() && handles == old(handles) - multiset{h} && signal == !Pinned(h)
      ensures qc[..] == old(qc[..])[h := old(qc[h]).(age := now, ctr := old(qc[h].ctr) - 1)]
    {
      hide Ok, SlotOk;
      HandleIs(h);
      OkHandle(qc[..], handles, handles - multiset{h}, freed, result, h, qc[h].(age := now, ctr := qc[h].ctr - 1));
      qc[h] := qc[h].(age := now);
      qc[h] := qc[h].(ctr := qc[h].ctr - 1);
      handles := handles - multiset{h};
      assert qc[..] == old(qc[..])[h := old(qc[h]).(age := now, ctr := old(qc[h].ctr) - 1)];
      signal := qc[h].ctr == 0;
    }

    /** qc_oldest(): the slot that has not been used for the longest time, of those without a handle. */
    method Oldest(now: nat) returns (n: int)
      requires Valid()
      ensures n == -1 ==> forall i :: 0 <= i < qc.Length ==> Pinned(i) || qc[i].age >= now
      ensures n != -1 ==> 0 <= n < qc.Length && !Pinned(n) && qc[n].age < now
      ensures n != -1 ==> forall i :: 0 <= i < qc.Length && !Pinned(i) ==>
        qc[i].age > qc[n].age || (qc[i].age == qc[n].age && n <= i)
    {
      hide Ok, SlotOk;
      n := -1;
      var t := now;
      for i := 0 to qc.Length
        invariant n == -1 ==> t == now
        invariant n != -1 ==> 0 <= n < i && !Pinned(n) && qc[n].age == t < now
        invariant forall j :: 0 <= j < i && !Pinned(j) ==> qc[j].age > t || (qc[j].age == t && (n == -1 || n <= j))
      {
        CounterIs(i);
        if qc[i].ctr == 0 && qc[i].age < t {
          t := qc[i].age;
          n := i;
        }
      }
    }

    /**
     * One round of the loop in qc_cleanup(): it is to be tried again if done is false. The slot
     * whose tree is freed has no handle.
     */
    method Cleanup(now: nat) returns (done: bool, n: int)
      requires Valid()
      modifies qc, this`freed
      ensures Valid()
      ensures done <==> exists i :: 0 <= i < qc.Length && !Pinned(i) && old(qc[i].age) < now
      ensures !done ==> qc[..] == old(qc[..]) && freed == old(freed) && forall i :: 0 <= i < qc.Length ==>
        Pinned(i) || qc[i].age >= now
      ensures done ==> 0 <= n < qc.Length && !Pinned(n)
      ensures done ==> qc[..] == old(qc[..])[n := old(qc[n]).(age := 0)] && freed == old(freed) + multiset{qc[n].tree}
      ensures done ==> (old(Free(n)) <==> exists i :: 0 <= i < qc.Length && old(Free(i)))
      ensures done && qc[n].tree != 0 ==>
        (qc[n].tree in old(freed) <==> exists i :: 0 <= i < qc.Length && old(Free(i)))
      ensures done ==> forall i :: 0 <= i < n ==> !old(Free(i))
    {
      hide Ok, SlotOk;
      n := Oldest(now);
      if n == -1 {
        return false, n;
      }
      var tree := qc[n].tree;
      forall i | 0 <= i < qc.Length ensures (qc[i].ctr == 0 <==> !Pinned(i)) && (Free(i) ==> !Pinned(i)) {
        CounterIs(i);
      }
      OkSlot(qc[..], handles, freed, result, n);
      OkEvicted(qc[..], handles, freed, result, n);
      qc[n] := qc[n].(age := 0);
      freed := freed + multiset{tree};
      return true, n;
    }

    /** qc_put(): the tree is the new result of a query. */
    method Put(bb: Box, tree: Tree, now: nat) returns (h: Option<nat>)
      requires Valid() && now > 0
      requires tree != 0 && tree !in freed && tree !in result
      modifies qc, this`handles, this`result
      ensures Valid()
      ensures h.None? <==> forall i :: 0 <= i < qc.Length ==> !old(Free(i))
      ensures h.None? ==> qc[..] == old(qc[..]) && handles == old(handles) && result == old(result)
      ensures h.Some? ==> h.value < qc.Length && old(Free(h.value)) && !old(Pinned(h.value))
      ensures h.Some? ==> qc[..] == old(qc[..])[h.value := Slot(bb, tree, now, 1)]
      ensures h.Some? ==> handles == old(handles) + multiset{h.value} && result == old(result)[tree := bb]
    {
      hide Ok, SlotOk;
      h := None;
      for i := 0 to qc.Length
        invariant h.None? && qc[..] == old(qc[..])
        invariant forall j :: 0 <= j < i ==> !Free(j)
      {
        if qc[i].age == 0 {
          CounterIs(i);
          assert qc[i] == old(qc[..])[i] && old(Free(i));
          OkPut(qc[..], handles, freed, result, i, bb, tree, now);
          qc[i] := Slot(bb, tree, now, 1);
          handles := handles + multiset{i};
          result := result[tree := bb];
          h := Some(i);
          return;
        }
      }
    }
  }

  /**
   * qc_cleanup() is called when qc_put() has found no free slot, but not under the same lock. If a
   * second thread cleans up in between, the slot that has become free is the oldest one: its tree,
   * which is not kept any more, is freed again.
   */
  method CleanupTwice(c: QCache, now: nat) returns (n: int)
    requires c.Valid() && forall i :: 0 <= i < c.qc.Length ==> !c.Free(i)
    requires exists i :: 0 <= i < c.qc.Length && !c.Pinned(i) && c.qc[i].age < now
    modifies c.qc, c`freed
    ensures c.Valid() && 0 <= n < c.qc.Length
    ensures c.freed == old(c.freed) + multiset{old(c.qc[n].tree), old(c.qc[n].tree)}
  {
    hide *;
    ghost var was := c.qc[..];
    SomeKept(c);
    var done, m := c.Cleanup(now);
    assert c.qc[..] == was[m := was[m].(age := 0)];
    OnlyFree(c, was, m);
    done, n := c.Cleanup(now);
    assert n == m;
    assert c.qc[n] == c.qc[..][n];
    assert was[n].tree == c.qc[n].tree;
    assert c.freed == old(c.freed) + multiset{was[n].tree} + multiset{was[n].tree};
  }

  /**
   * A thread waits in qc_cleanup() until the last handle of some slot is released. The release
   * wakes it up, but it goes on only if its clock already shows a later time than the release did:
   * within the same second it waits again, although a slot without a handle is there.
   */
  method ReleaseAndWake(c: QCache, h: nat, t: nat, now: nat) returns (signal: bool, done: bool, n: int)
    requires c.Valid() && h in c.handles && t > 0 && forall i :: 0 <= i < c.qc.Length && i != h ==> c.Pinned(i)
    modifies c.qc, c`handles, c`freed
    ensures c.Valid() && signal == !c.Pinned(h)
    ensures done <==> signal && t < now
    ensures done ==> n == h && c.freed == old(c.freed) + multiset{old(c.qc[h].tree)}
    ensures !done ==> c.freed == old(c.freed)
  {
    hide Ok, SlotOk, QCache.Valid, QCache.Free;
    c.HandleIs(h);
    ghost var was := c.qc[..];
    forall i | 0 <= i < c.qc.Length && i != h ensures i in c.handles {
      assert c.Pinned(i);
    }
    signal := c.Release(h, t);
    assert c.qc[h] == c.qc[..][h];
    done, n := c.Cleanup(now);
    assert done ==> c.qc[n] == c.qc[..][n];
  }

  lemma SomeKept(c: QCache)
    requires forall i :: 0 <= i < c.qc.Length ==> !c.Free(i)
    ensures forall i :: 0 <= i < c.qc.Length ==> c.qc[i].age > 0
  {
    forall i | 0 <= i < c.qc.Length ensures c.qc[i].age > 0 {
      assert !c.Free(i);
    }
  }

  lemma OnlyFree(c: QCache, was: seq<Slot>, m: nat)
    requires c.Valid() && m < |was| && c.qc[..] == was[m := was[m].(age := 0)] && forall i :: 0 <= i < |was| ==>
      was[i].age > 0
    ensures forall i :: 0 <= i < c.qc.Length && i != m ==> !c.Free(i)
    ensures c.Free(m)
    ensures !c.Pinned(m) && c.qc[m].age == 0 && c.qc[m].tree == was[m].tree
  {
    assert c.qc[..][m] == was[m].(age := 0) && c.qc[m] == c.qc[..][m];
    forall i | 0 <= i < c.qc.Length && i != m ensures !c.Free(i) {
      assert c.qc[..][i] == was[i];
    }
    c.CounterIs(m);
  }
}
