/** check_way() in src/smcoast.c, which every way passes before it is collected for joining. */
module CheckWay {
  import opened Common

  /** The edges of a way between different nodes. */
  function Moves(ref: seq<int>): seq<(int, int)> {
    if |ref| < 2 then []
    else (if ref[0] == ref[1] then [] else [(ref[0], ref[1])]) + Moves(ref[1..])
  }

  lemma {:induction false} MovesOfSame(ref: seq<int>, i: nat)
    requires 0 < i < |ref| && forall k :: 0 <= k < i ==> ref[k] == ref[0]
    ensures Moves([ref[0]] + ref[i..]) == Moves(ref)
    decreases i
  {
    if i == 1 {
      assert [ref[0]] + ref[1..] == ref;
    } else {
      MovesOfSame(ref[1..], i - 1);
      assert ref[1..][i - 1..] == ref[i..];
    }
  }

  lemma {:induction false} MovesOfPrefix(ref: seq<int>, n: nat)
    requires 0 < n <= |ref| && forall k :: n <= k < |ref| ==> ref[k] == ref[n - 1]
    ensures Moves(ref[..n]) == Moves(ref)
    decreases n
  {
    if n == 1 {
      AllSame(ref);
      assert ref[..1] == [ref[0]];
    } else {
      MovesOfPrefix(ref[1..], n - 1);
      assert ref[..n][1..] == ref[1..][..n - 1];
    }
  }

  lemma {:induction false} AllSame(ref: seq<int>)
    requires forall k :: 0 <= k < |ref| ==> ref[k] == ref[0]
    ensures Moves(ref) == []
  {
    if |ref| >= 2 {
      assert forall k :: 0 <= k < |ref[1..]| ==> ref[1..][k] == ref[k + 1];
      AllSame(ref[1..]);
    }
  }

  /** All nodes from position i to position j are the same. */
  ghost predicate AllEqual(ref: seq<int>, i: int, j: int) {
    0 <= i <= j < |ref| && forall k :: i <= k <= j ==> ref[k] == ref[i]
  }

  /** The way from the last node of the run it begins with to the first one of the run it ends with. */
  ghost predicate Stretch(ref: seq<int>, a: int, z: int, ref': seq<int>) {
    a < z && AllEqual(ref, 0, a) && AllEqual(ref, z, |ref| - 1) && ref' == ref[a..z + 1]
  }

  lemma IsStretch(ref: seq<int>, i: nat, ref1: seq<int>, j: nat)
    requires 0 < i < |ref| && (forall k :: 0 <= k < i ==> ref[k] == ref[0]) && ref1 == ref[i - 1..]
    requires j + 1 < |ref1| && forall k :: j < k < |ref1| ==> ref1[k] == ref1[|ref1| - 1]
    ensures Stretch(ref, i - 1, i + j, ref1[..j + 2])
  {
    forall k | i + j <= k < |ref| ensures ref[k] == ref[i + j] {
      assert ref[k] == ref1[k - i + 1] && ref[i + j] == ref1[j + 1];
    }
    assert ref1[..j + 2] == ref[i - 1..i + j + 1];
  }

  /**
   * 1 if the way does not leave its first node, and then it is left alone. Otherwise it begins and
   * ends with a move to another node, and no move is lost, added or exchanged.
   */
  method Check(ref: seq<int>) returns (r: int, ref': seq<int>)
    ensures r == 1 || r == 0
    ensures r == 1 <==> Moves(ref) == []
    ensures r == 1 ==> ref' == ref
    ensures Moves(ref') == Moves(ref)
    ensures r == 0 ==> exists a, z :: Stretch(ref, a, z, ref')
    ensures r == 0 ==>
      |ref'| >= 2 && ref'[0] == ref[0] != ref'[1] && ref'[|ref'| - 1] == ref[|ref| - 1] != ref'[|ref'| - 2]
  {
    hide Stretch, AllEqual;
    ref' := ref;
    var i := 1;
    while i < |ref| && ref[i] == ref[0]
      invariant 1 <= i && forall k :: 0 <= k < i && k < |ref| ==> ref[k] == ref[0]
    {
      i := i + 1;
    }
    if i >= |ref| {
      AllSame(ref);
      return 1, ref;
    }
    MovesOfSame(ref, i);
    if i > 1 {
      ref' := [ref[0]] + ref[i..];
    }
    assert ref' == ref[i - 1..];
    ghost var ref1 := ref';
    assert ref'[0] == ref[0] && ref'[1] == ref[i];
    var n := |ref'|;
    var j := n - 2;
    while j >= 0 && ref'[j] == ref'[n - 1]
      invariant -1 <= j < n - 1 && forall k :: j < k < n ==> ref'[k] == ref'[n - 1]
    {
      j := j - 1;
    }
    if j <= -1 {
      return 1, ref';
    }
    if j < n - 2 {
      MovesOfPrefix(ref', j + 2);
      ref' := ref'[..j + 2];
    }
    assert ref' == ref1[..j + 2];
    IsStretch(ref, i, ref1, j);
    r := 0;
  }
}
