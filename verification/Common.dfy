/** Small facts about sequences that several modules share. */
module Common {

  datatype Option<+T> = None | Some(value: T)

  type Byte = b: int | 0 <= b < 256

  function Pow2(n: nat): (r: nat)
    ensures r > 0
  {
    if n == 0 then 1 else 2 * Pow2(n - 1)
  }

  ghost predicate Distinct<T>(s: seq<T>) {
    forall i, j :: 0 <= i < j < |s| ==> s[i] != s[j]
  }

  ghost function Elements<T>(s: seq<T>): set<T> {
    set x | x in s
  }

  /** The numbers 0 .. n-1 in order. */
  function Iota(n: nat): (s: seq<nat>)
    ensures |s| == n && forall i :: 0 <= i < n ==> s[i] == i
  {
    seq(n, i => i)
  }

  lemma SubsetSize<T>(a: set<T>, b: set<T>)
    requires a <= b
    ensures |a| <= |b|
  {
    assert b == a + (b - a);
  }

  lemma {:induction false} DistinctSize<T>(s: seq<T>)
    requires Distinct(s)
    ensures |Elements(s)| == |s|
  {
    if s == [] {
      assert Elements(s) == {};
    } else {
      DistinctSize(s[1..]);
      assert Elements(s) == {s[0]} + Elements(s[1..]);
    }
  }

  /** Pigeonhole: distinct indices below n are at most n many. */
  lemma Pigeonhole(s: seq<nat>, n: nat)
    requires Distinct(s) && forall i :: 0 <= i < |s| ==> s[i] < n
    ensures |s| <= n
  {
    DistinctSize(s);
    DistinctSize(Iota(n));
    forall x | x in s ensures x in Iota(n) {
      assert Iota(n)[x] == x;
    }
    SubsetSize(Elements(s), Elements(Iota(n)));
  }

  lemma {:induction false} DistinctMultiset<T>(s: seq<T>, x: T)
    requires Distinct(s)
    ensures multiset(s)[x] == if x in s then 1 else 0
  {
    if s != [] {
      assert s == [s[0]] + s[1..];
      DistinctMultiset(s[1..], x);
    }
  }

  lemma TwiceInMultiset<T>(s: seq<T>, i: int, j: int)
    requires 0 <= i < j < |s| && s[i] == s[j]
    ensures multiset(s)[s[i]] >= 2
  {
    assert s == s[..i] + [s[i]] + s[i + 1..j] + [s[j]] + s[j + 1..];
  }

  /** A rearrangement of a sequence without repetitions has none either. */
  lemma DistinctPerm<T>(s: seq<T>, t: seq<T>)
    requires Distinct(t) && multiset(s) == multiset(t)
    ensures Distinct(s)
  {
    forall i, j | 0 <= i < j < |s| ensures s[i] != s[j] {
      if s[i] == s[j] {
        TwiceInMultiset(s, i, j);
        DistinctMultiset(t, s[i]);
      }
    }
  }

  lemma PermMember<T>(s: seq<T>, t: seq<T>, x: T)
    requires multiset(s) == multiset(t)
    ensures x in s <==> x in t
  {
    assert x in s <==> x in multiset(s);
    assert x in t <==> x in multiset(t);
  }

  lemma PermSize<T>(s: seq<T>, t: seq<T>)
    requires multiset(s) == multiset(t)
    ensures |s| == |t|
  {
    assert |s| == |multiset(s)| && |t| == |multiset(t)|;
  }

  /** Two sequences without repetitions and with the same elements are rearrangements of each other. */
  lemma DistinctSameElements<T>(s: seq<T>, t: seq<T>)
    requires Distinct(s) && Distinct(t)
    requires forall x :: x in s <==> x in t
    ensures multiset(s) == multiset(t)
  {
    forall x ensures multiset(s)[x] == multiset(t)[x] {
      DistinctMultiset(s, x);
      DistinctMultiset(t, x);
    }
  }

  /** Taking one element out of two rearrangements of each other. */
  lemma PermRemove<T>(s: seq<T>, t: seq<T>) returns (k: nat)
    requires s != [] && multiset(s) == multiset(t)
    ensures k < |t| && t[k] == s[|s| - 1]
    ensures multiset(s[..|s| - 1]) == multiset(t[..k] + t[k + 1..])
  {
    var x := s[|s| - 1];
    PermMember(s, t, x);
    k :| 0 <= k < |t| && t[k] == x;
    var a, b := multiset(s[..|s| - 1]), multiset(t[..k] + t[k + 1..]);
    assert multiset(s) == a + multiset{x} by {
      assert s == s[..|s| - 1] + [x];
    }
    assert multiset(t) == b + multiset{x} by {
      assert t == t[..k] + [x] + t[k + 1..];
    }
    MsCancel(a, multiset{x}, b);
  }

  lemma DistinctConcat<T>(s: seq<T>, t: seq<T>)
    requires Distinct(s) && Distinct(t) && forall x :: x in s ==> x !in t
    ensures Distinct(s + t)
  {
    var r := s + t;
    forall i, j | 0 <= i < j < |r| ensures r[i] != r[j] {
      if i < |s| <= j {
        assert r[i] == s[i] && r[i] in s && r[j] == t[j - |s|] && r[j] in t;
      } else if j < |s| {
        assert r[i] == s[i] && r[j] == s[j];
      } else {
        assert r[i] == t[i - |s|] && r[j] == t[j - |s|];
      }
    }
  }

  lemma SeqAssoc<T>(a: seq<T>, b: seq<T>, c: seq<T>)
    ensures a + (b + c) == a + b + c
  {
  }

  /** The middle one of three parts. */
  lemma Middle<T>(s: seq<T>, a: seq<T>, b: seq<T>, c: seq<T>)
    requires s == a + (b + c)
    ensures s[|a|..|a| + |b|] == b
  {
  }

  lemma MsAssoc<T>(a: multiset<T>, b: multiset<T>, c: multiset<T>)
    ensures a + (b + c) == (a + b) + c
  {
  }

  lemma MsCancel<T>(a: multiset<T>, x: multiset<T>, b: multiset<T>)
    requires a + x == b + x
    ensures a == b
  {
    forall y ensures a[y] == b[y] {
      assert (a + x)[y] == (b + x)[y];
    }
  }

  lemma MsSwapLast<T>(a: multiset<T>, x: multiset<T>, b: multiset<T>, y: multiset<T>, z: multiset<T>)
    requires a + x == b + y
    ensures (a + z) + x == (b + z) + y
  {
    assert (a + z) + x == (a + x) + z;
    assert (b + z) + y == (b + y) + z;
  }

  function Reversed<T>(s: seq<T>): (r: seq<T>)
    ensures |r| == |s| && forall i :: 0 <= i < |s| ==> r[i] == s[|s| - 1 - i]
  {
    seq(|s|, i requires 0 <= i < |s| => s[|s| - 1 - i])
  }

  /** The first place of x in s, or the length of s if it does not contain x. */
  function FirstIndex<T(==)>(s: seq<T>, x: T): (i: nat)
    ensures i <= |s| && x !in s[..i] && (i < |s| ==> s[i] == x)
  {
    if s == [] || s[0] == x then 0
    else
      var i := 1 + FirstIndex(s[1..], x);
      assert s[..i] == [s[0]] + s[1..][..i - 1];
      i
  }

  lemma {:induction false} FirstIndexIs<T>(s: seq<T>, x: T, i: nat)
    requires i <= |s| && x !in s[..i] && (i < |s| ==> s[i] == x)
    ensures FirstIndex(s, x) == i
  {
    if i > 0 {
      assert s[0] == s[..i][0] && s[..i] == [s[0]] + s[1..][..i - 1];
      FirstIndexIs(s[1..], x, i - 1);
    }
  }

  lemma {:induction false} NotFoundBefore<T>(s: seq<T>, x: T, i: nat)
    requires i <= |s| && x !in s[..i]
    ensures FirstIndex(s, x) >= i
  {
    if i > 0 {
      assert s[0] == s[..i][0] && s[..i] == [s[0]] + s[1..][..i - 1];
      NotFoundBefore(s[1..], x, i - 1);
    }
  }

  function Min(a: int, b: int): int {
    if a < b then a else b
  }

  function Max(a: int, b: int): int {
    if a > b then a else b
  }

  /** memcpy() of a whole sequence to position at. */
  method Copy<T>(dst: array<T>, at: nat, src: seq<T>)
    requires at + |src| <= dst.Length
    modifies dst
    ensures dst[..] == old(dst[..at]) + src + old(dst[at + |src|..])
  {
    forall k | 0 <= k < |src| {
      dst[at + k] := src[k];
    }
  }

  /** The directed edges of a list of nodes, with multiplicity. */
  function Edges(w: seq<int>): (m: multiset<(int, int)>) {
    if |w| < 2 then multiset{} else multiset{(w[0], w[1])} + Edges(w[1..])
  }

  lemma NoEdges(w: seq<int>)
    requires |w| == 1
    ensures Edges(w) == multiset{}
  {
  }

  lemma FirstEdge(w: seq<int>)
    requires |w| >= 2
    ensures Edges(w) == multiset{(w[0], w[1])} + Edges(w[1..])
  {
  }

  lemma {:induction false} EdgesConcat(a: seq<int>, b: seq<int>)
    requires a != [] && b != [] && a[|a| - 1] == b[0]
    ensures Edges(a + b[1..]) == Edges(a) + Edges(b)
  {
    hide Edges;
    var r := a + b[1..];
    if |a| == 1 {
      NoEdges(a);
      assert r == b;
    } else {
      EdgesConcat(a[1..], b);
      assert r[1..] == a[1..] + b[1..];
      FirstEdge(a);
      FirstEdge(r);
      MsAssoc(multiset{(a[0], a[1])}, Edges(a[1..]), Edges(b));
    }
  }

  lemma MulMono(m: nat, a: nat, b: nat)
    requires a <= b
    ensures m * a <= m * b
  {
  }

  /** Some key of a map that has one. */
  ghost function AnyKey<K, V>(m: map<K, V>): (k: K)
    requires m != map[]
    ensures k in m
  {
    var k :| k in m;
    k
  }
}
