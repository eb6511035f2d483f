/**
 * The run length compression of rows of pixels for BSB/KAP charts:
 * bsb_compress_nb(), bsb_compress_row() and get_depth() in src/smkap.c, with
 * the decoder of the format, which smrender itself does not have.
 */
module Kap {
  import opened Common

  // ----- numbers -----

  /** A divisor of 128: the first byte of a number has a continuation bit, the pixel, and m values for the number. */
  predicate Unit(m: nat) {
    m == 1 || m == 2 || m == 4 || m == 8 || m == 16 || m == 32 || m == 64 || m == 128
  }

  /** A first byte with pixel q, the value nb, and the continuation bit. */
  function Lead(q: nat, m: nat, nb: nat, more: bool): (b: Byte)
    requires Fits(q, m) && nb < m
    ensures b % 128 == q * m + nb && (b >= 128 <==> more)
  {
    FitsBelow(q, m, nb);
    q * m + nb + if more then 128 else 0
  }

  predicate Fits(q: nat, m: nat) {
    Unit(m) && q * m < 128
  }

  lemma FitsBelow(q: nat, m: nat, nb: nat)
    requires Fits(q, m) && nb < m
    ensures q * m + nb < 128
  {
    if m == 1 {
    } else if m == 2 {
    } else if m == 4 {
    } else if m == 8 {
    } else if m == 16 {
    } else if m == 32 {
    } else if m == 64 {
    } else {
    }
  }

  lemma Parts(q: nat, m: nat, nb: nat)
    requires Unit(m) && nb < m
    ensures (q * m + nb) / m == q && (q * m + nb) % m == nb
  {
    if m == 1 {
    } else if m == 2 {
    } else if m == 4 {
    } else if m == 8 {
    } else if m == 16 {
    } else if m == 32 {
    } else if m == 64 {
    } else {
    }
  }

  /** What becomes of a pixel that is shifted to its place in a byte. */
  function Shifted(p: Byte, m: nat): Byte {
    p * m % 256
  }

  function PixelOf(b: Byte, m: nat): nat
    requires m > 0
  {
    b % 128 / m
  }

  /** Bits that are shifted out of the lower seven are lost, except for one. */
  lemma ShiftOut(p: nat, m: nat, n: nat)
    requires m * n == 128
    ensures p % n * m < 128 && p * m == 128 * (p / n) + p % n * m
    ensures p < n ==> p % n == p
  {
    ShiftedSum(p / n, p % n, m, n);
    MulMono(m, p % n, n - 1);
  }

  lemma ShiftedSum(q: nat, r: nat, m: nat, n: nat)
    ensures (n * q + r) * m == m * n * q + r * m
  {
  }

  lemma ShiftedLow(p: Byte, m: nat, n: nat)
    requires m * n == 128
    ensures Shifted(p, m) % 128 == p % n * m
    ensures p * m < 128 ==> p % n == p && Shifted(p, m) < 128
  {
    ShiftOut(p, m, n);
    LowBits(p * m, p / n, p % n * m);
    if n <= p {
      MulMono(m, n, p);
    }
  }

  lemma LowBits(x: nat, q: nat, low: nat)
    requires x == 128 * q + low && low < 128
    ensures x % 256 % 128 == low && (x < 128 ==> x % 256 == x)
  {
    var b := 128 * (q % 2) + low;
    assert x == 256 * (q / 2) + b && b < 256;
    assert x % 256 == b;
  }

  lemma ShiftedIs(p: Byte, m: nat)
    requires Unit(m)
    ensures Fits(PixelOf(Shifted(p, m), m), m)
    ensures Shifted(p, m) == Lead(PixelOf(Shifted(p, m), m), m, 0, Shifted(p, m) >= 128)
    ensures Fits(p, m) ==> PixelOf(Shifted(p, m), m) == p && Shifted(p, m) < 128
  {
    hide Shifted;
    var n := 128 / m;
    assert m * n == 128;
    ShiftedLow(p, m, n);
    Parts(p % n, m, 0);
  }

  /**
   * The bytes of a number: 7 bits in each byte, the most significant ones first, but only the
   * values below m in the first byte, together with the pixel q.
   */
  function NbCode(nb: nat, q: nat, m: nat, more: bool): (s: seq<Byte>)
    requires Fits(q, m)
    ensures s != []
  {
    if nb >= m then NbCode(nb / 128, q, m, true) + [nb % 128 + if more then 128 else 0]
    else if Lead(q, m, nb, more) == 0 then [128, 0]
    else [Lead(q, m, nb, more)]
  }

  /** bsb_compress_nb(): pixel is q in its place, possibly with the continuation bit, and max is m - 1. */
  method CompressNb(p: array<Byte>, at: nat, nb: nat, pixel: Byte, max: nat, ghost q: nat, ghost more: bool)
    returns (count: nat)
    requires Fits(q, max + 1) && pixel == Lead(q, max + 1, 0, more)
    requires at + |NbCode(nb, q, max + 1, more)| <= p.Length
    modifies p
    ensures count == |NbCode(nb, q, max + 1, more)|
    ensures p[..at + count] == old(p[..at]) + NbCode(nb, q, max + 1, more)
  {
    count := 0;
    if nb > max {
      count := CompressNb(p, at, nb / 128, if pixel < 128 then pixel + 128 else pixel, max, q, true);
      p[at + count] := nb % 128 + if pixel >= 128 then 128 else 0;
      count := count + 1;
      return;
    }
    FitsBelow(q, max + 1, nb);
    var b: Byte := pixel + nb;
    if b == 0 {
      p[at + count] := 128;
      count := count + 1;
    }
    p[at + count] := b;
    count := count + 1;
  }

  // ----- decoding numbers -----

  /** The rest of a number of which v is known already. */
  function ReadMore(s: seq<Byte>, v: nat): (r: Option<(nat, seq<Byte>)>)
    ensures r.Some? ==> |r.value.1| < |s|
  {
    if s == [] then None
    else if s[0] >= 128 then ReadMore(s[1..], 128 * v + s[0] % 128)
    else Some((128 * v + s[0], s[1..]))
  }

  /** A number whose first byte also holds a pixel. */
  function ReadNb(s: seq<Byte>, m: nat): (r: Option<(nat, seq<Byte>)>)
    requires m > 0
    ensures r.Some? ==> |r.value.1| < |s|
  {
    if s == [] then None
    else if s[0] >= 128 then ReadMore(s[1..], s[0] % 128 % m)
    else Some((s[0] % 128 % m, s[1..]))
  }

  /** The first byte shows the pixel; it is never 0. */
  lemma {:induction false} FirstByte(nb: nat, q: nat, m: nat, more: bool)
    requires Fits(q, m)
    ensures NbCode(nb, q, m, more)[0] != 0 && PixelOf(NbCode(nb, q, m, more)[0], m) == q
    ensures more ==> NbCode(nb, q, m, more)[0] >= 128
  {
    if nb >= m {
      FirstByte(nb / 128, q, m, true);
    } else {
      Parts(q, m, nb);
      Parts(q, m, 0);
    }
  }

  /** An encoded number can be read again; with the continuation bit everywhere, reading goes on behind it. */
  lemma {:induction false} ReadCode(nb: nat, q: nat, m: nat, more: bool, tail: seq<Byte>)
    requires Fits(q, m)
    ensures ReadNb(NbCode(nb, q, m, more) + tail, m) == if more then ReadMore(tail, nb) else Some((nb, tail))
  {
    hide Lead, ReadNb, ReadMore;
    var s := NbCode(nb, q, m, more) + tail;
    if nb >= m {
      var last: Byte := nb % 128 + if more then 128 else 0;
      ReadCode(nb / 128, q, m, true, [last] + tail);
      assert s == NbCode(nb / 128, q, m, true) + ([last] + tail);
      ReadLast(last, nb / 128, tail);
    } else {
      ReadShort(nb, q, m, more, tail);
    }
  }

  lemma ReadLast(last: Byte, v: nat, tail: seq<Byte>)
    ensures ReadMore([last] + tail, v) ==
      if last >= 128 then ReadMore(tail, 128 * v + last % 128) else Some((128 * v + last, tail))
  {
    assert ([last] + tail)[1..] == tail;
  }

  lemma ReadShort(nb: nat, q: nat, m: nat, more: bool, tail: seq<Byte>)
    requires Fits(q, m) && nb < m
    ensures ReadNb(NbCode(nb, q, m, more) + tail, m) == if more then ReadMore(tail, nb) else Some((nb, tail))
  {
    hide Unit;
    Parts(q, m, nb);
    var b := Lead(q, m, nb, more);
    if b == 0 {
      assert ([128, 0] + tail)[1..] == [0] + tail;
      ReadLast(0, 0, tail);
    } else {
      assert ([b] + tail)[1..] == tail;
    }
  }

  /**
   * A number takes at most as many bytes as a run of that many pixels more than one, or three if it
   * has 16 bits and no pixel.
   */
  lemma {:induction false} CodeLength(nb: nat, q: nat, m: nat, more: bool)
    requires Fits(q, m)
    ensures (q != 0 || more) && nb < 0x1_0000 ==> |NbCode(nb, q, m, more)| <= nb + 1
    ensures m == 128 && nb < 0x1_0000 ==> |NbCode(nb, q, m, more)| <= 3
  {
    if nb >= m {
      CodeLength(nb / 128, q, m, true);
    }
  }

  // ----- rows -----

  /** Length of the run of equal pixels at the beginning of a row. */
  function RunLen(row: seq<Byte>): (n: nat)
    ensures n <= |row| && (row != [] ==> n > 0)
  {
    if row == [] then 0 else if |row| > 1 && row[1] == row[0] then 1 + RunLen(row[1..]) else 1
  }

  lemma {:induction false} RunLenIs(row: seq<Byte>, n: nat)
    requires 0 < n <= |row| && (forall k :: 0 <= k < n ==> row[k] == row[0]) && (n < |row| ==> row[n] != row[0])
    ensures RunLen(row) == n
  {
    if n > 1 {
      RunLenIs(row[1..], n - 1);
    }
  }

  lemma {:induction false} RunIsEqual(row: seq<Byte>)
    requires row != []
    ensures row[..RunLen(row)] == Repeat(row[0], RunLen(row))
  {
    if |row| > 1 && row[1] == row[0] {
      RunIsEqual(row[1..]);
      forall k | 0 < k < RunLen(row) ensures row[k] == row[0] {
        assert row[1..][..RunLen(row) - 1][k - 1] == row[k];
      }
    }
  }

  /** A run of n pixels. */
  function RunCode(n: nat, p: Byte, m: nat): seq<Byte>
    requires Unit(m) && n > 0
  {
    ShiftedIs(p, m);
    NbCode(n - 1, PixelOf(Shifted(p, m), m), m, Shifted(p, m) >= 128)
  }

  function RunsCode(row: seq<Byte>, m: nat): seq<Byte>
    requires Unit(m)
  {
    if row == [] then []
    else RunCode(RunLen(row), row[0], m) + RunsCode(row[RunLen(row)..], m)
  }

  /** The line number, the runs, and a terminating 0. */
  function RowCode(line: nat, row: seq<Byte>, m: nat): seq<Byte>
    requires Unit(m)
  {
    NbCode(line, 0, 128, false) + RunsCode(row, m) + [0]
  }

  /** Pixels are counted from 1, and there may be as many as fit into the free bits and one more. */
  predicate Pixels(row: seq<Byte>, m: nat)
    requires Unit(m)
  {
    forall p :: p in row ==> 1 <= p && p * m <= 128
  }

  lemma RunLength(n: nat, p: Byte, m: nat)
    requires Unit(m) && 1 <= p && p * m <= 128 && 0 < n <= 0x1_0000
    ensures |RunCode(n, p, m)| <= n
  {
    ShiftedIs(p, m);
    CodeLength(n - 1, PixelOf(Shifted(p, m), m), m, Shifted(p, m) >= 128);
    assert p * m >= 1 * m;
  }

  /** A row never takes more bytes than it has pixels, and four. */
  lemma {:induction false} RunsLength(row: seq<Byte>, m: nat)
    requires Unit(m) && Pixels(row, m) && |row| < 0x1_0000
    ensures |RunsCode(row, m)| <= |row|
  {
    if row != [] {
      var n := RunLen(row);
      assert row[0] in row;
      RunLength(n, row[0], m);
      forall p | p in row[n..] ensures p in row {
      }
      RunsLength(row[n..], m);
    }
  }

  lemma RowLength(line: nat, row: seq<Byte>, m: nat)
    requires Unit(m) && Pixels(row, m) && |row| < 0x1_0000 && line < 0x1_0000
    ensures |NbCode(line, 0, 128, false)| <= 3 && |RowCode(line, row, m)| <= |row| + 4
  {
    CodeLength(line, 0, 128, false);
    RunsLength(row, m);
  }

  /** A 16 bit number. */
  function U16(x: int): (r: nat)
    ensures 0 <= x ==> r <= x
  {
    x % 0x1_0000
  }

  lemma U16Is(x: nat, n: nat)
    ensures U16(U16(x) + n) == U16(x + n) && (x < 0x1_0000 ==> U16(x) == x)
  {
  }

  /** Position in the output of the end of a run that ends at i in the input, with 32 and 16 bit arithmetic. */
  function XOut(i: nat, widthIn: nat, widthOut: nat): nat
    requires widthIn > 0
  {
    Scaled((2 * i + 1) * widthOut, 2 * widthIn)
  }

  function Scaled(x: int, m: nat): nat
    requires m > 0
  {
    U16(x % 0x1_0000_0000 / m)
  }

  lemma DivLess(y: nat, m: nat, i: nat)
    requires m > 0 && y < m * (i + 1)
    ensures y / m <= i
  {
    var q := y / m;
    assert m * q <= y;
    if i + 1 <= q {
      MulMono(m, i + 1, q);
    }
  }

  lemma Stretch(i: nat, w: nat)
    requires w > 0
    ensures 0 <= (2 * i + 1) * w < 2 * w * (i + 1)
  {
    assert (2 * i + 1) * w == 2 * w * i + w && 2 * w * (i + 1) == 2 * w * i + 2 * w;
  }

  lemma ScaledLess(x: nat, m: nat, i: nat)
    requires m > 0 && x < m * (i + 1)
    ensures Scaled(x, m) <= i
  {
    hide U16;
    ModLess(x, 0x1_0000_0000);
    DivLess(x % 0x1_0000_0000, m, i);
  }

  lemma ModLess(x: nat, m: nat)
    requires m > 0
    ensures x % m <= x
  {
  }

  /** The product may overflow, but a row is never stretched if its width does not change. */
  lemma NoStretch(i: nat, w: nat)
    requires w > 0
    ensures XOut(i, w, w) <= i
  {
    hide Scaled;
    Stretch(i, w);
    ScaledLess((2 * i + 1) * w, 2 * w, i);
  }

  /** The number of run lengths in the first byte for pixels of so many bits. */
  function UnitOf(bits: nat): (m: nat)
    requires 1 <= bits <= 7
    ensures Unit(m) && m > 0 && m * Pow2(bits) == 128
  {
    assert Pow2(5) == 32 && Pow2(3) == 8;
    Pow2(7 - bits)
  }

  /** The code of a run, and what bsb_compress_nb() is to be called with to get it. */
  lemma NextRun(row: seq<Byte>, bits: nat, start: nat, end: nat)
    requires 1 <= bits <= 7 && Pixels(row, UnitOf(bits)) && start < end <= |row| < 0x1_0000
    requires (forall k :: start <= k < end ==> row[k] == row[start]) && (end < |row| ==> row[end] != row[start])
    ensures var m := UnitOf(bits); var p := row[start]; var b := Shifted(p, m);
      && RunsCode(row[start..], m) == RunCode(end - start, p, m) + RunsCode(row[end..], m)
      && b == p * Pow2(7 - bits) % 256 && m == Pow2(7 - bits) && m > 0
      && Fits(PixelOf(b, m), m) && b == Lead(PixelOf(b, m), m, 0, b >= 128)
      && RunCode(end - start, p, m) == NbCode(end - start - 1, PixelOf(b, m), m, b >= 128)
      && |RunCode(end - start, p, m)| <= end - start
  {
    hide RunLen, NbCode;
    var m := UnitOf(bits);
    RunLenIs(row[start..], end - start);
    assert row[start..][end - start..] == row[end..];
    ShiftedIs(row[start], m);
    assert row[start] in row;
    RunLength(end - start, row[start], m);
  }

  lemma LineLead(line: nat)
    requires line < 0x1_0000
    ensures Fits(0, 128) && Lead(0, 128, 0, false) == 0 && |NbCode(line, 0, 128, false)| <= 3
  {
    CodeLength(line, 0, 128, false);
  }

  lemma RowCodeIs(line: nat, row: seq<Byte>, m: nat, done: seq<Byte>)
    requires Unit(m) && NbCode(line, 0, 128, false) + RunsCode(row, m) == done + RunsCode([], m)
    ensures RowCode(line, row, m) == done + [0]
  {
  }

  /** The inner loop of bsb_compress_row(): how many pixels from i on are the same. */
  method CountRun(row: seq<Byte>, i: nat, lastPix: Byte) returns (run: nat)
    requires i <= |row|
    ensures i + run <= |row| && (forall k :: i <= k < i + run ==> row[k] == lastPix)
    ensures i + run < |row| ==> row[i + run] != lastPix
  {
    run := 0;
    while i + run < |row| && row[i + run] == lastPix
      invariant i + run <= |row| && forall k :: i <= k < i + run ==> row[k] == lastPix
    {
      run := run + 1;
    }
  }

  /** What is written for one run: ibuf counts the bytes written so far, modulo 2^16. */
  method WriteRun(row: seq<Byte>, bufOut: array<Byte>, bitsOut: nat, start: nat, end: nat, ibuf: nat, run: nat,
                  ghost done: seq<Byte>)
    returns (ibuf': nat)
    requires 1 <= bitsOut <= 7 && Pixels(row, UnitOf(bitsOut)) && bufOut.Length >= |row| + 4
    requires start < end <= |row| < 0x1_0000 && run == end - start - 1
    requires (forall k :: start <= k < end ==> row[k] == row[start]) && (end < |row| ==> row[end] != row[start])
    requires ibuf == U16(|done|) && |done| <= start + 3 && (|done| < 0x1_0000 ==> bufOut[..ibuf] == done)
    modifies bufOut
    ensures var m := UnitOf(bitsOut); var code := RunCode(end - start, row[start], m);
      && RunsCode(row[start..], m) == code + RunsCode(row[end..], m) && |done + code| <= end + 3
      && ibuf' == U16(|done + code|) && (|done + code| < 0x1_0000 ==> bufOut[..ibuf'] == done + code)
  {
    hide *;
    ghost var m := UnitOf(bitsOut);
    NextRun(row, bitsOut, start, end);
    ghost var b := Shifted(row[start], m);
    ghost var code := RunCode(end - start, row[start], m);
    var dec := 7 - bitsOut;
    var n := CompressNb(bufOut, ibuf, run, row[start] * Pow2(dec) % 256, Pow2(dec) - 1, PixelOf(b, m), b >= 128);
    U16Is(|done|, n);
    U16Is(|done + code|, 0);
    ibuf' := U16(ibuf + n);
  }

  /** bsb_compress_row() for a row that keeps its width, as save_kap() calls it. */
  method CompressRow(row: seq<Byte>, bufOut: array<Byte>, bitsOut: nat, line: nat) returns (r: nat)
    requires 1 <= bitsOut <= 7 && Pixels(row, UnitOf(bitsOut))
    requires |row| < 0x1_0000 && line < 0x1_0000 && bufOut.Length >= |row| + 4
    modifies bufOut
    ensures var code := RowCode(line, row, UnitOf(bitsOut));
      |code| <= |row| + 4 && r == U16(|code|) && (|code| < 0x1_0000 ==> bufOut[..r] == code)
  {
    hide *;
    var w := |row|;
    ghost var m := UnitOf(bitsOut);
    LineLead(line);
    var ibuf := CompressNb(bufOut, 0, line, 0, 127, 0, false);
    ghost var done := NbCode(line, 0, 128, false);
    U16Is(|done|, 0);
    var ipixelin, ipixelout := 0, 0;
    assert row[0..] == row;
    while ipixelin < w
      invariant 0 <= ipixelin == ipixelout <= w && ibuf == U16(|done|) && |done| <= ipixelin + 3
      invariant NbCode(line, 0, 128, false) + RunsCode(row, m) == done + RunsCode(row[ipixelin..], m)
      invariant |done| < 0x1_0000 ==> bufOut[..ibuf] == done
    {
      var start := ipixelin;
      var lastPix := row[ipixelin];
      ipixelin, ipixelout := ipixelin + 1, ipixelout + 1;
      var run := CountRun(row, ipixelin, lastPix);
      ipixelin, ipixelout := ipixelin + run, ipixelout + run;
      NoStretch(ipixelin, w);
      var xout := XOut(ipixelin, w, w);
      if xout > ipixelout {
        run := run + xout - ipixelout;
        ipixelout := xout;
      }
      ibuf := WriteRun(row, bufOut, bitsOut, start, ipixelin, ibuf, run, done);
      ghost var code := RunCode(run + 1, lastPix, m);
      assert done + (code + RunsCode(row[ipixelin..], m)) == done + code + RunsCode(row[ipixelin..], m);
      done := done + code;
    }
    assert row[w..] == [];
    RowCodeIs(line, row, m, done);
    bufOut[ibuf] := 0;
    r := U16(ibuf + 1);
    U16Is(|done|, 1);
    U16Is(|done + [0]|, 0);
  }

  // ----- decoding rows -----

  /** The runs up to the terminating 0, and what follows it. */
  function ReadRuns(s: seq<Byte>, m: nat): Option<(seq<Byte>, seq<Byte>)>
    requires Unit(m)
    decreases |s|
  {
    if s == [] then None
    else if s[0] == 0 then Some(([], s[1..]))
    else
      match ReadNb(s, m)
      case None => None
      case Some(n) =>
        match ReadRuns(n.1, m)
        case None => None
        case Some(r) => Some((seq(n.0 + 1, i => PixelOf(s[0], m)) + r.0, r.1))
  }

  /** Line number and pixels of a row. */
  function ReadRow(s: seq<Byte>, m: nat): Option<(nat, seq<Byte>, seq<Byte>)>
    requires Unit(m)
  {
    match ReadNb(s, 128)
    case None => None
    case Some(line) =>
      match ReadRuns(line.1, m)
      case None => None
      case Some(r) => Some((line.0, r.0, r.1))
  }

  /** All pixels fit into their bits, and none of them is 0. */
  ghost predicate RowFits(row: seq<Byte>, m: nat) {
    Unit(m) && forall p :: p in row ==> 1 <= p && Fits(p, m)
  }

  lemma ReadRun(n: nat, p: Byte, m: nat, rest: seq<Byte>)
    requires Fits(p, m) && n > 0
    ensures var s := RunCode(n, p, m) + rest; s[0] != 0 && PixelOf(s[0], m) == p && ReadNb(s, m) == Some((n - 1, rest))
  {
    hide NbCode, Shifted, ReadNb, Lead, PixelOf;
    ShiftedIs(p, m);
    FirstByte(n - 1, p, m, false);
    ReadCode(n - 1, p, m, false, rest);
  }

  lemma {:induction false} ReadRunsCode(row: seq<Byte>, m: nat, tail: seq<Byte>)
    requires RowFits(row, m)
    ensures ReadRuns(RunsCode(row, m) + [0] + tail, m) == Some((row, tail))
  {
    hide RunCode, PixelOf, ReadNb, RunLen, ReadRuns;
    if row == [] {
      assert RunsCode(row, m) + [0] + tail == [0] + tail;
      ReadNoRuns(tail, m);
    } else {
      var n := RunLen(row);
      var p := row[0];
      assert p in row;
      var code := RunCode(n, p, m);
      var rest := RunsCode(row[n..], m) + [0] + tail;
      var s := RunsCode(row, m) + [0] + tail;
      assert s == code + rest;
      ReadRun(n, p, m, rest);
      forall q | q in row[n..] ensures q in row {
      }
      ReadRunsCode(row[n..], m, tail);
      RunIsEqual(row);
      ReadOneRun(s, m, n, p, rest, row[n..], tail);
      assert Repeat(p, n) + row[n..] == row;
    }
  }

  function Repeat(p: Byte, n: nat): (r: seq<Byte>)
    ensures |r| == n && forall i :: 0 <= i < n ==> r[i] == p
  {
    seq(n, i => p)
  }

  lemma ReadNoRuns(tail: seq<Byte>, m: nat)
    requires Unit(m)
    ensures ReadRuns([0] + tail, m) == Some(([], tail))
  {
    assert ([0] + tail)[1..] == tail;
  }

  lemma ReadOneRun(s: seq<Byte>, m: nat, n: nat, p: Byte, rest: seq<Byte>, row: seq<Byte>, tail: seq<Byte>)
    requires Unit(m) && s != [] && s[0] != 0 && PixelOf(s[0], m) == p && n > 0
    requires ReadNb(s, m) == Some((n - 1, rest)) && ReadRuns(rest, m) == Some((row, tail))
    ensures ReadRuns(s, m) == Some((Repeat(p, n) + row, tail))
  {
    hide PixelOf, ReadNb;
    assert seq(n - 1 + 1, i => PixelOf(s[0], m)) == Repeat(p, n);
  }

  /** Decoding an encoded row gives back the line number and every pixel. */
  lemma ReadRowCode(line: nat, row: seq<Byte>, m: nat, tail: seq<Byte>)
    requires RowFits(row, m)
    ensures ReadRow(RowCode(line, row, m) + tail, m) == Some((line, row, tail))
  {
    hide NbCode, ReadNb, RunsCode, ReadRuns;
    var rest := RunsCode(row, m) + [0] + tail;
    assert RowCode(line, row, m) + tail == NbCode(line, 0, 128, false) + rest;
    assert Fits(0, 128);
    ReadCode(line, 0, 128, false, rest);
    ReadRunsCode(row, m, tail);
  }

  // ----- the number of bits -----

  /** get_depth(). */
  method GetDepth(hcnt: nat) returns (d: nat)
    ensures 1 <= d && hcnt <= Pow2(d) && (d > 1 ==> Pow2(d - 1) < hcnt)
  {
    d := 1;
    var m := 2;
    assert Pow2(1) == 2;
    while m < hcnt
      invariant 1 <= d && m == Pow2(d) && (d > 1 ==> Pow2(d - 1) < hcnt)
      decreases hcnt - m
    {
      m := m * 2;
      d := d + 1;
    }
  }

  /** The depth that get_depth() finds. */
  ghost predicate IsDepth(hcnt: nat, d: nat) {
    1 <= d <= 7 && hcnt <= Pow2(d) && (d > 1 ==> Pow2(d - 1) < hcnt)
  }

  ghost predicate PowerOfTwo(hcnt: nat) {
    exists k :: k >= 1 && hcnt == Pow2(k)
  }

  lemma {:induction false} Pow2Grows(a: nat, b: nat)
    requires a < b
    ensures Pow2(a) < Pow2(b)
  {
    if a + 1 < b {
      Pow2Grows(a, b - 1);
    }
  }

  lemma DepthIsExact(hcnt: nat, d: nat)
    requires IsDepth(hcnt, d) && 1 <= hcnt
    ensures hcnt == Pow2(d) <==> PowerOfTwo(hcnt)
  {
    if k: nat :| k >= 1 && hcnt == Pow2(k) {
      if k < d {
        Pow2Grows(0, d - 1);
        if k < d - 1 {
          Pow2Grows(k, d - 1);
        }
      } else if d < k {
        Pow2Grows(d, k);
      }
    }
  }

  /** Row of colours out of a palette of hcnt colours, numbered from 1. */
  ghost predicate Colours(row: seq<Byte>, hcnt: nat) {
    forall p :: p in row ==> 1 <= p <= hcnt
  }

  lemma FitsDepth(p: nat, d: nat)
    requires 1 <= d <= 7
    ensures Fits(p, UnitOf(d)) <==> p < Pow2(d)
    ensures p <= Pow2(d) ==> p * UnitOf(d) <= 128
  {
    hide Pow2, UnitOf;
    var m := UnitOf(d);
    if p < Pow2(d) {
      MulMono(m, p + 1, Pow2(d));
    } else {
      MulMono(m, Pow2(d), p);
    }
  }

  lemma LastColourCode(p: Byte, m: nat)
    requires Unit(m) && p * m == 128
    ensures RowCode(0, [p], m) == [128, 0, 128, 0]
  {
    hide Pow2;
    ShiftedIs(p, m);
    assert Shifted(p, m) == 128 && PixelOf(128, m) == 0;
    assert NbCode(0, 0, 128, false) == [128, 0];
    assert RunCode(1, p, m) == NbCode(0, 0, m, true) == [128];
    assert RunsCode([p], m) == [128] + RunsCode([p][1..], m);
  }

  lemma LastColourUnreadable(s: seq<Byte>, m: nat)
    requires Unit(m) && s == [128, 0, 128, 0]
    ensures ReadRow(s, m) == None
  {
    assert s[1..][0] == 0 && s[1..][1..] == s[2..];
    assert ReadNb(s, 128) == Some((0, s[2..]));
    assert s[2..][0] == 128 && s[2..][1..] == [0] && [0 as Byte][1..] == [];
    assert ReadNb(s[2..], m) == ReadMore([0], 0) == Some((0, []));
    assert ReadRuns([], m) == None;
  }

  /** The last colour of a palette whose size is a power of two is shifted into the continuation bit. */
  lemma LastColourLost(d: nat)
    requires 1 <= d <= 7
    ensures Pow2(d) < 256 && ReadRow(RowCode(0, [Pow2(d)], UnitOf(d)), UnitOf(d)) != Some((0, [Pow2(d)], []))
  {
    hide *;
    var m := UnitOf(d);
    assert Pow2(d) <= 128 by {
      MulMono(Pow2(d), 1, m);
    }
    LastColourCode(Pow2(d), m);
    LastColourUnreadable(RowCode(0, [Pow2(d)], m), m);
  }

  /**
   * With the depth that save_kap() chooses, every row of palette colours is decoded correctly if
   * and only if the number of colours is not a power of two (except for 1).
   */
  lemma EveryRowDecodes(hcnt: nat, d: nat)
    requires 1 <= hcnt <= 127 && IsDepth(hcnt, d)
    ensures !PowerOfTwo(hcnt) <==>
      forall line, row :: Colours(row, hcnt) ==> Decodes(line, row, UnitOf(d))
  {
    DepthIsExact(hcnt, d);
    if hcnt < Pow2(d) {
      forall line: nat, row | Colours(row, hcnt) ensures Decodes(line, row, UnitOf(d)) {
        forall p | p in row ensures Fits(p, UnitOf(d)) {
          FitsDepth(p, d);
        }
        ReadRowCode(line, row, UnitOf(d), []);
        assert RowCode(line, row, UnitOf(d)) + [] == RowCode(line, row, UnitOf(d));
      }
    } else {
      LastColourLost(d);
      assert Colours([hcnt], hcnt) && !Decodes(0, [hcnt], UnitOf(d));
    }
  }

  ghost predicate Decodes(line: nat, row: seq<Byte>, m: nat)
    requires Unit(m)
  {
    ReadRow(RowCode(line, row, m), m) == Some((line, row, []))
  }
}
