/**
 * The median cut of src/median_cut.c: an array of pixels is cut into blocks of
 * similar colours.
 *
 * A block is a stretch of the array, and the smallest box in the space of
 * colours that its pixels are in. The list of blocks is kept in the order of
 * the longest sides of their boxes. As long as more blocks are desired, the
 * pixels of the first block are sorted along its longest side, and their upper
 * half becomes a block of its own.
 *
 * The average colour of a block is not part of this model.
 */
module MedianCut {
  import opened Common
  import opened Sorting

  datatype Point = Point(x0: int, x1: int, x2: int) {
    function X(i: nat): int
      requires i < 3
    {
      if i == 0 then x0 else if i == 1 then x1 else x2
    }

    function With(i: nat, v: int): (p: Point)
      requires i < 3
      ensures forall j :: 0 <= j < 3 ==> p.X(j) == if j == i then v else X(j)
    {
      if i == 0 then Point(v, x1, x2) else if i == 1 then Point(x0, v, x2) else Point(x0, x1, v)
    }
  }

  /** The pixels lo .. lo+len-1 of the image, and the corners of the box that they are in. */
  datatype Block = Block(lo: nat, len: nat, minCorner: Point, maxCorner: Point) {
    function Diff(i: nat): int
      requires i < 3
    {
      maxCorner.X(i) - minCorner.X(i)
    }

    predicate Has(k: int) {
      lo <= k < lo + len
    }
  }

  // ----- extents -----

  /** The first one of the longest sides. */
  ghost predicate IsLongest(b: Block, d: nat)
    requires d < 3
  {
    (forall e :: 0 <= e < 3 ==> b.Diff(e) <= b.Diff(d)) && forall e :: 0 <= e < d ==> b.Diff(e) < b.Diff(d)
  }

  /**
   * The loop of mc_longest_side_index() from dimension i on: m is the largest difference so far,
   * that of dimension ix.
   */
  function LongestFrom(b: Block, i: nat, m: int, ix: nat): (r: nat)
    requires i <= 3 && ix < 3 && m >= 0 && (m == b.Diff(ix) || (m == 0 && ix == 0))
    requires (forall j :: 0 <= j < i ==> b.Diff(j) <= m) && forall j :: 0 <= j < ix ==> b.Diff(j) < m
    ensures r < 3
    ensures (forall j :: 0 <= j < 3 ==> b.Diff(j) >= 0) ==> IsLongest(b, r)
    decreases 3 - i
  {
    if i == 3 then ix
    else if b.Diff(i) > m then LongestFrom(b, i + 1, b.Diff(i), i)
    else LongestFrom(b, i + 1, m, ix)
  }

  /** mc_longest_side_index(). */
  function LongestSideIndex(b: Block): (r: nat)
    ensures r < 3
    ensures (forall j :: 0 <= j < 3 ==> b.Diff(j) >= 0) ==> IsLongest(b, r)
  {
    LongestFrom(b, 0, 0, 0)
  }

  /** mc_longest_side_length(). */
  function LongestSideLength(b: Block): int {
    b.Diff(LongestSideIndex(b))
  }

  /** mc_block_compare(): larger blocks come first. */
  predicate BlockLe(a: Block, b: Block) {
    LongestSideLength(a) >= LongestSideLength(b)
  }

  lemma BlockLeIsOrder()
    ensures TotalPreorder(BlockLe)
  {
  }

  /** mc_point_compare() in one dimension. */
  function PointLe(ix: nat): (Point, Point) -> bool
    requires ix < 3
  {
    (a: Point, b: Point) => a.X(ix) <= b.X(ix)
  }

  lemma PointLeIsOrder(ix: nat)
    requires ix < 3
    ensures TotalPreorder(PointLe(ix))
  {
  }

  // ----- what holds of the blocks -----

  /** The corners are those of the smallest box around the pixels s. */
  ghost predicate Tight(s: seq<Point>, min: Point, max: Point) {
    TightIn(s, min.x0, max.x0, 0) && TightIn(s, min.x1, max.x1, 1) && TightIn(s, min.x2, max.x2, 2)
  }

  ghost predicate TightIn(s: seq<Point>, min: int, max: int, i: nat)
    requires i < 3
  {
    && (forall p :: p in s ==> min <= p.X(i) <= max)
    && (exists p :: p in s && p.X(i) == min)
    && (exists p :: p in s && p.X(i) == max)
  }

  ghost predicate BlockOk(img: seq<Point>, b: Block) {
    b.len > 0 && b.lo + b.len <= |img| && Tight(img[b.lo..b.lo + b.len], b.minCorner, b.maxCorner)
  }

  predicate Apart(a: Block, b: Block) {
    a.lo + a.len <= b.lo || b.lo + b.len <= a.lo
  }

  /** The blocks are not empty, do not overlap, and together they are the whole image. */
  ghost predicate Partition(bs: seq<Block>, n: nat) {
    && (forall b :: b in bs ==> b.len > 0 && b.lo + b.len <= n)
    && (forall i, j :: 0 <= i < j < |bs| ==> Apart(bs[i], bs[j]))
    && (forall k :: 0 <= k < n ==> Covered(bs, k))
  }

  ghost predicate Covered(bs: seq<Block>, k: nat) {
    exists b :: b in bs && b.Has(k)
  }

  /** The blocks are a partition of the image with tight corners, and none is larger than the first one. */
  ghost predicate Cut(img: seq<Point>, bs: seq<Block>) {
    && Partition(bs, |img|)
    && (forall b :: b in bs ==> BlockOk(img, b))
    && SortedBy(BlockLe, bs)
  }

  /** No side of b is longer than all sides of a. */
  ghost predicate NotLarger(b: Block, a: Block) {
    forall d :: 0 <= d < 3 ==> exists e :: 0 <= e < 3 && b.Diff(d) <= a.Diff(e)
  }

  ghost predicate LargestFirst(bs: seq<Block>) {
    forall i :: 0 <= i < |bs| ==> NotLarger(bs[i], bs[0])
  }

  lemma LessIsNotLarger(b: Block, a: Block)
    requires BlockLe(a, b) && forall d :: 0 <= d < 3 ==> b.Diff(d) >= 0
    ensures NotLarger(b, a)
  {
    hide LongestSideIndex;
    forall d | 0 <= d < 3 ensures exists e :: 0 <= e < 3 && b.Diff(d) <= a.Diff(e) {
      assert b.Diff(d) <= b.Diff(LongestSideIndex(b)) <= a.Diff(LongestSideIndex(a));
    }
  }

  lemma TightDiff(img: seq<Point>, b: Block)
    requires BlockOk(img, b)
    ensures forall d :: 0 <= d < 3 ==> b.Diff(d) >= 0
  {
    var s := img[b.lo..b.lo + b.len];
    assert s[0] in s;
    assert s[0].X(0) == s[0].x0 && s[0].X(1) == s[0].x1 && s[0].X(2) == s[0].x2;
    assert b.Diff(0) == b.maxCorner.x0 - b.minCorner.x0 >= 0;
    assert b.Diff(1) == b.maxCorner.x1 - b.minCorner.x1 >= 0;
    assert b.Diff(2) == b.maxCorner.x2 - b.minCorner.x2 >= 0;
  }

  lemma CutHasLargestFirst(img: seq<Point>, bs: seq<Block>)
    requires Cut(img, bs)
    ensures LargestFirst(bs)
  {
    hide Tight, LongestSideIndex, Partition, NotLarger;
    forall i | 0 <= i < |bs| ensures NotLarger(bs[i], bs[0]) {
      assert bs[i] in bs;
      TightDiff(img, bs[i]);
      assert i > 0 ==> BlockLe(bs[0], bs[i]);
      LessIsNotLarger(bs[i], bs[0]);
    }
  }

  /** All pixels of the block have the same colour. */
  ghost predicate SingleColour(img: seq<Point>, b: Block)
    requires b.len > 0 && b.lo + b.len <= |img|
  {
    forall k :: b.lo <= k < b.lo + b.len ==> img[k] == img[b.lo]
  }

  lemma ApartBlocksAreDistinct(bs: seq<Block>, n: nat)
    requires Partition(bs, n)
    ensures Distinct(bs)
  {
  }

  /** Sorting the list of blocks does not change the partition. */
  lemma SortedPartition(bs: seq<Block>, bs': seq<Block>, n: nat)
    requires Partition(bs, n) && multiset(bs) == multiset(bs')
    ensures Partition(bs', n) && forall b :: b in bs' <==> b in bs
  {
    ApartBlocksAreDistinct(bs, n);
    DistinctPerm(bs', bs);
    forall b ensures b in bs' <==> b in bs {
      assert b in bs <==> b in multiset(bs);
      assert b in bs' <==> b in multiset(bs');
    }
    forall k | 0 <= k < n ensures Covered(bs', k) {
      assert Covered(bs, k);
    }
    forall i, j | 0 <= i < j < |bs'| ensures Apart(bs'[i], bs'[j]) {
      assert bs'[i] in bs' && bs'[j] in bs';
      var k :| 0 <= k < |bs| && bs[k] == bs'[i];
      var l :| 0 <= l < |bs| && bs[l] == bs'[j];
      assert k != l;
      assert if k < l then Apart(bs[k], bs[l]) else Apart(bs[l], bs[k]);
    }
  }

  // ----- the steps of the algorithm -----

  /** The inner loop of mc_shrink(): the corners are moved apart to have the pixel p between them. */
  method Widen(blk: array<Block>, k: nat, p: Point)
    requires k < blk.Length
    modifies blk
    ensures blk[k].lo == old(blk[k].lo) && blk[k].len == old(blk[k].len) && blk[..] == old(blk[..])[k := blk[k]]
    ensures forall d :: 0 <= d < 3 ==> blk[k].minCorner.X(d) == Min(old(blk[k]).minCorner.X(d), p.X(d))
    ensures forall d :: 0 <= d < 3 ==> blk[k].maxCorner.X(d) == Max(old(blk[k]).maxCorner.X(d), p.X(d))
  {
    ghost var was := blk[k];
    for j := 0 to 3
      invariant blk[k].lo == was.lo && blk[k].len == was.len && blk[..] == old(blk[..])[k := blk[k]]
      invariant forall d :: 0 <= d < 3 ==>
        blk[k].minCorner.X(d) == if d < j then Min(was.minCorner.X(d), p.X(d)) else was.minCorner.X(d)
      invariant forall d :: 0 <= d < 3 ==>
        blk[k].maxCorner.X(d) == if d < j then Max(was.maxCorner.X(d), p.X(d)) else was.maxCorner.X(d)
    {
      blk[k] := blk[k].(minCorner := blk[k].minCorner.With(j, Min(blk[k].minCorner.X(j), p.X(j))));
      blk[k] := blk[k].(maxCorner := blk[k].maxCorner.With(j, Max(blk[k].maxCorner.X(j), p.X(j))));
    }
  }

  /** mc_shrink(): the corners are those of the pixels, whatever they were before. */
  method Shrink(image: array<Point>, blk: array<Block>, k: nat)
    requires k < blk.Length && blk[k].len > 0 && blk[k].lo + blk[k].len <= image.Length
    modifies blk
    ensures blk[k].lo == old(blk[k].lo) && blk[k].len == old(blk[k].len) && BlockOk(image[..], blk[k])
    ensures blk[..] == old(blk[..])[k := blk[k]]
  {
    hide Tight, Min, Max, Point.X;
    var b := blk[k];
    blk[k] := blk[k].(minCorner := image[b.lo], maxCorner := image[b.lo]);
    OnePixel(image[b.lo]);
    assert image[b.lo..b.lo + 1] == [image[b.lo]];
    for i := 1 to b.len
      invariant blk[k].lo == b.lo && blk[k].len == b.len && blk[..] == old(blk[..])[k := blk[k]]
      invariant Tight(image[b.lo..b.lo + i], blk[k].minCorner, blk[k].maxCorner)
    {
      var p := image[b.lo + i];
      ghost var was := blk[k];
      Widen(blk, k, p);
      OneMorePixel(image[b.lo..b.lo + i], p, was.minCorner, was.maxCorner, blk[k].minCorner, blk[k].maxCorner);
      assert image[b.lo..b.lo + i] + [p] == image[b.lo..b.lo + i + 1];
    }
    assert image[..][b.lo..b.lo + b.len] == image[b.lo..b.lo + b.len];
  }

  lemma OnePixel(p: Point)
    ensures Tight([p], p, p)
  {
    assert p in [p];
  }

  lemma OneMoreIn(s: seq<Point>, p: Point, min: int, max: int, i: nat)
    requires i < 3 && TightIn(s, min, max, i)
    ensures TightIn(s + [p], Min(min, p.X(i)), Max(max, p.X(i)), i)
  {
    var a :| a in s && a.X(i) == min;
    var b :| b in s && b.X(i) == max;
    assert a in s + [p] && b in s + [p] && p in s + [p];
  }

  lemma OneMorePixel(s: seq<Point>, p: Point, min: Point, max: Point, min': Point, max': Point)
    requires Tight(s, min, max)
    requires forall d :: 0 <= d < 3 ==> min'.X(d) == Min(min.X(d), p.X(d)) && max'.X(d) == Max(max.X(d), p.X(d))
    ensures Tight(s + [p], min', max')
  {
    OneMoreIn(s, p, min.X(0), max.X(0), 0);
    OneMoreIn(s, p, min.X(1), max.X(1), 1);
    OneMoreIn(s, p, min.X(2), max.X(2), 2);
    assert min'.X(0) == min'.x0 && min'.X(1) == min'.x1 && min'.X(2) == min'.x2;
    assert max'.X(0) == max'.x0 && max'.X(1) == max'.x1 && max'.X(2) == max'.x2;
  }

  /** The two parts of the first block take its place in the partition. */
  lemma SplitPartition(bs: seq<Block>, n: nat, b0: Block, b1: Block)
    requires Partition(bs, n) && bs != []
    requires b0.lo == bs[0].lo && b0.len > 0 && b1.lo == b0.lo + b0.len && b1.len > 0 && b0.len + b1.len == bs[0].len
    ensures Partition(bs[0 := b0] + [b1], n)
  {
    var bs' := bs[0 := b0] + [b1];
    forall k | 0 <= k < n ensures Covered(bs', k) {
      assert Covered(bs, k);
      var b :| b in bs && b.Has(k);
      var i :| 0 <= i < |bs| && bs[i] == b;
      if i > 0 {
        assert bs'[i] == b;
      } else if k < b1.lo {
        assert bs'[0] == b0 && b0.Has(k);
      } else {
        assert bs'[|bs|] == b1 && b1.Has(k);
      }
    }
    forall i, j | 0 <= i < j < |bs'| ensures Apart(bs'[i], bs'[j]) {
      if i > 0 && j < |bs| {
        assert Apart(bs[i], bs[j]);
      } else if i > 0 {
        assert Apart(bs[0], bs[i]);
      } else if j < |bs| {
        assert Apart(bs[0], bs[j]);
      }
    }
  }

  /** Sorting the pixels of the first block does not touch the other blocks. */
  lemma OthersKept(img: seq<Point>, img': seq<Point>, bs: seq<Block>, i: nat)
    requires Partition(bs, |img|) && 0 < i < |bs| && BlockOk(img, bs[i])
    requires bs[0].lo + bs[0].len <= |img| == |img'|
    requires img'[..bs[0].lo] == img[..bs[0].lo] && img'[bs[0].lo + bs[0].len..] == img[bs[0].lo + bs[0].len..]
    ensures BlockOk(img', bs[i])
  {
    var b := bs[i];
    assert Apart(bs[0], b);
    assert b in bs;
    var hi := bs[0].lo + bs[0].len;
    forall k | b.lo <= k < b.lo + b.len ensures img'[k] == img[k] {
      assert if k < bs[0].lo then img'[..bs[0].lo][k] == img[..bs[0].lo][k]
        else img'[hi..][k - hi] == img[hi..][k - hi];
    }
    assert img'[b.lo..b.lo + b.len] == img[b.lo..b.lo + b.len];
  }

  lemma SliceRearranged(img: seq<Point>, img': seq<Point>, lo: nat, hi: nat)
    requires lo <= hi <= |img| == |img'| && img'[..lo] == img[..lo] && img'[hi..] == img[hi..]
    requires multiset(img'[lo..hi]) == multiset(img[lo..hi])
    ensures multiset(img') == multiset(img)
  {
    assert img == img[..lo] + img[lo..hi] + img[hi..];
    assert img' == img'[..lo] + img'[lo..hi] + img'[hi..];
  }

  /** A block whose longest side has length 0 has a single colour. */
  lemma ZeroExtent(img: seq<Point>, b: Block)
    requires BlockOk(img, b) && LongestSideLength(b) <= 0
    ensures SingleColour(img, b)
  {
    var s := img[b.lo..b.lo + b.len];
    assert s[0] in s;
    forall k | b.lo <= k < b.lo + b.len ensures img[k] == img[b.lo] {
      assert s[k - b.lo] in s;
    }
  }

  lemma OnePixelExtent(img: seq<Point>, b: Block)
    requires BlockOk(img, b) && b.len == 1
    ensures LongestSideLength(b) == 0
  {
    var s := img[b.lo..b.lo + 1];
    assert s == [img[b.lo]];
  }

  /** If the first block cannot be cut any more, no block can be improved. */
  lemma NothingToCut(img: seq<Point>, bs: seq<Block>)
    requires Cut(img, bs) && bs != [] && bs[0].len <= 1
    ensures forall b :: b in bs ==> b.len > 0 && b.lo + b.len <= |img| && SingleColour(img, b)
  {
    assert bs[0] in bs;
    OnePixelExtent(img, bs[0]);
    forall b | b in bs ensures b.len > 0 && b.lo + b.len <= |img| && SingleColour(img, b) {
      var i :| 0 <= i < |bs| && bs[i] == b;
      assert i > 0 ==> BlockLe(bs[0], bs[i]);
      ZeroExtent(img, b);
    }
  }

  lemma WholeImage(img: seq<Point>, b: Block)
    requires BlockOk(img, b) && b.lo == 0 && b.len == |img|
    ensures Cut(img, [b])
  {
    forall k | 0 <= k < |img| ensures Covered([b], k) {
      assert b in [b] && b.Has(k);
    }
  }

  /** The blocks after a cut, before and after they are sorted. */
  lemma CutAgain(img: seq<Point>, img': seq<Point>, bs: seq<Block>, b0: Block, b1: Block, bs': seq<Block>)
    requires Cut(img, bs) && bs != [] && |img'| == |img|
    requires img'[..bs[0].lo] == img[..bs[0].lo] && bs[0].lo + bs[0].len <= |img|
    requires img'[bs[0].lo + bs[0].len..] == img[bs[0].lo + bs[0].len..]
    requires b0.lo == bs[0].lo && b1.lo == b0.lo + b0.len && b0.len + b1.len == bs[0].len && BlockOk(img', b0) &&
      BlockOk(img', b1)
    requires multiset(bs[0 := b0] + [b1]) == multiset(bs') && SortedBy(BlockLe, bs')
    ensures Cut(img', bs')
  {
    hide Tight, BlockLe, Covered, Apart;
    var cut := bs[0 := b0] + [b1];
    SplitPartition(bs, |img|, b0, b1);
    SortedPartition(cut, bs', |img|);
    forall b | b in cut ensures BlockOk(img', b) {
      var i :| 0 <= i < |cut| && cut[i] == b;
      if 0 < i < |bs| {
        assert bs[i] in bs;
        OthersKept(img, img', bs, i);
      }
    }
  }

  lemma FirstBlock(img: seq<Point>, bs: seq<Block>)
    requires Cut(img, bs) && bs != []
    ensures bs[0].lo + bs[0].len <= |img| && bs[0].len > 0
  {
    assert bs[0] in bs;
  }

  /** b0 and b1 are the halves of b; no pixel of b0 is above a pixel of b1 in the direction of the longest side of b. */
  ghost predicate Halves(img: seq<Point>, b: Block, b0: Block, b1: Block) {
    && b0.lo == b.lo && b0.len == (b.len + 1) / 2 && b1.lo == b0.lo + b0.len && b0.len + b1.len == b.len
    && b.lo + b.len <= |img|
    && forall i, j :: b0.lo <= i < b1.lo <= j < b1.lo + b1.len ==> PointLe(LongestSideIndex(b))(img[i], img[j])
  }

  lemma HalvesSorted(img: seq<Point>, b: Block, b0: Block, b1: Block)
    requires b.lo + b.len <= |img| && SortedBy(PointLe(LongestSideIndex(b)), img[b.lo..b.lo + b.len])
    requires b0.lo == b.lo && b0.len == (b.len + 1) / 2 && b1.lo == b0.lo + b0.len && b0.len + b1.len == b.len
    ensures Halves(img, b, b0, b1)
  {
    hide LongestSideIndex;
    var s := img[b.lo..b.lo + b.len];
    forall i, j | b0.lo <= i < b1.lo <= j < b1.lo + b1.len ensures PointLe(LongestSideIndex(b))(img[i], img[j]) {
      assert PointLe(LongestSideIndex(b))(s[i - b.lo], s[j - b.lo]);
    }
  }

  /**
   * The pixels of the first block are sorted along its longest side, and the upper half of them
   * becomes a block of its own.
   */
  method Halve(image: array<Point>, blk: array<Block>, size: nat) returns (ghost b0: Block, ghost b1: Block)
    requires 0 < size < blk.Length && blk[0].len > 1 && blk[0].lo + blk[0].len <= image.Length
    modifies image, blk
    ensures blk[..size + 1] == old(blk[..size])[0 := b0] + [b1]
    ensures BlockOk(image[..], b0) && BlockOk(image[..], b1) && Halves(image[..], old(blk[0]), b0, b1)
    ensures image[..old(blk[0].lo)] == old(image[..blk[0].lo])
    ensures image[old(blk[0].lo + blk[0].len)..] == old(image[blk[0].lo + blk[0].len..])
    ensures multiset(image[..]) == multiset(old(image[..]))
  {
    hide *;
    var b := blk[0];
    var ix := LongestSideIndex(b);
    PointLeIsOrder(ix);
    QSort(image, b.lo, b.lo + b.len, PointLe(ix));
    SliceRearranged(old(image[..]), image[..], b.lo, b.lo + b.len);
    var len := (b.len + 1) / 2;
    blk[size] := Block(b.lo + len, b.len - len, Point(0, 0, 0), Point(255, 255, 255));
    blk[0] := blk[0].(len := len);
    Shrink(image, blk, 0);
    Shrink(image, blk, size);
    b0, b1 := blk[0], blk[size];
    assert image[..][b.lo..b.lo + b.len] == image[b.lo..b.lo + b.len];
    HalvesSorted(image[..], b, b0, b1);
  }

  lemma HalvesAre(img: seq<Point>, b: Block, b0: Block, b1: Block)
    requires Halves(img, b, b0, b1)
    ensures b0.lo == b.lo && b1.lo == b0.lo + b0.len && b0.len + b1.len == b.len
  {
  }

  /** The largest block is cut at the median of its longest side, and the list is sorted again. */
  method CutFirst(image: array<Point>, blk: array<Block>, size: nat) returns (ghost b0: Block, ghost b1: Block)
    requires 0 < size < blk.Length && Cut(image[..], blk[..size]) && blk[0].len > 1
    modifies image, blk
    ensures multiset(image[..]) == multiset(old(image[..]))
    ensures Cut(image[..], blk[..size + 1])
    ensures multiset(blk[..size + 1]) == multiset(old(blk[..size])[0 := b0] + [b1])
    ensures Halves(image[..], old(blk[0]), b0, b1) && AtMedian(image[..], old(blk[0]), b0, b1)
    ensures LargestFirst(old(blk[..size])) && LargestFirst(blk[..size + 1])
  {
    hide *;
    ghost var bs, img := blk[..size], image[..];
    FirstBlock(img, bs);
    CutHasLargestFirst(img, bs);
    FirstDiff(img, bs);
    b0, b1 := Halve(image, blk, size);
    ghost var img' := image[..];
    HalvesAre(img', bs[0], b0, b1);
    BlockLeIsOrder();
    QSort(blk, 0, size + 1, BlockLe);
    assert blk[0..size + 1] == blk[..size + 1];
    CutAgain(img, img', bs, b0, b1, blk[..size + 1]);
    CutHasLargestFirst(img', blk[..size + 1]);
    HalvesAtMedian(img', bs[0], b0, b1);
  }

  lemma FirstDiff(img: seq<Point>, bs: seq<Block>)
    requires Cut(img, bs) && bs != []
    ensures forall d :: 0 <= d < 3 ==> bs[0].Diff(d) >= 0
  {
    assert bs[0] in bs;
    TightDiff(img, bs[0]);
  }

  /** In the direction of the first longest side of b no pixel of the first half is above one of the second half. */
  ghost predicate AtMedian(img: seq<Point>, b: Block, b0: Block, b1: Block) {
    && b0.lo + b0.len <= b1.lo && b1.lo + b1.len <= |img|
    && exists d :: 0 <= d < 3 && IsLongest(b, d) && Below(img, b0, b1, d)
  }


  ghost predicate Below(img: seq<Point>, b0: Block, b1: Block, d: nat)
    requires b0.lo + b0.len <= b1.lo && b1.lo + b1.len <= |img| && d < 3
  {
    forall i, j :: b0.lo <= i < b0.lo + b0.len && b1.lo <= j < b1.lo + b1.len ==> img[i].X(d) <= img[j].X(d)
  }

  lemma HalvesAtMedian(img: seq<Point>, b: Block, b0: Block, b1: Block)
    requires Halves(img, b, b0, b1) && forall d :: 0 <= d < 3 ==> b.Diff(d) >= 0
    ensures AtMedian(img, b, b0, b1)
  {
    hide LongestSideIndex;
    var d := LongestSideIndex(b);
    forall i, j | b0.lo <= i < b0.lo + b0.len && b1.lo <= j < b1.lo + b1.len ensures img[i].X(d) <= img[j].X(d) {
      assert PointLe(d)(img[i], img[j]);
    }
    assert IsLongest(b, d) && Below(img, b0, b1, d);
  }

  /** mc_median_cut(): the number of blocks that are in use in the end. */
  method Cutting(image: array<Point>, desired: nat, blk: array<Block>) returns (size: nat)
    requires 0 < image.Length && 0 < blk.Length && desired <= blk.Length
    modifies image, blk
    ensures 1 <= size <= blk.Length && (size <= desired || size == 1)
    ensures multiset(image[..]) == multiset(old(image[..]))
    ensures Cut(image[..], blk[..size]) && LargestFirst(blk[..size])
    ensures size < desired ==> forall b :: b in blk[..size] ==>
      b.len > 0 && b.lo + b.len <= image.Length && SingleColour(image[..], b)
  {
    hide *;
    blk[0] := Block(0, image.Length, Point(0, 0, 0), Point(255, 255, 255));
    Shrink(image, blk, 0);
    size := 1;
    assert blk[..1] == [blk[0]];
    WholeImage(image[..], blk[0]);
    while size < desired && blk[0].len > 1
      invariant 1 <= size <= blk.Length && (size <= desired || size == 1)
      invariant multiset(image[..]) == multiset(old(image[..]))
      invariant Cut(image[..], blk[..size])
    {
      ghost var b0, b1 := CutFirst(image, blk, size);
      size := size + 1;
    }
    CutHasLargestFirst(image[..], blk[..size]);
    if size < desired {
      NothingToCut(image[..], blk[..size]);
    }
  }
}
