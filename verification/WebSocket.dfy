/**
 * The WebSocket framing of smrenderd/websocket.c, following RFC 6455,
 * sections 5.2 to 5.4: masking, the header of a frame, writing a message in
 * fragments and reading it again from a connection that delivers its bytes
 * in pieces of any size.
 */
module WebSocket {
  import opened Common

  const HDR_MINLEN: nat := 2
  const LEN16: Byte := 126
  const LEN64: Byte := 127

  // ----- numbers in network byte order -----

  function Pow256(n: nat): nat {
    if n == 0 then 1 else 256 * Pow256(n - 1)
  }

  /** The n low bytes of x, the most significant one first. */
  function BigEndian(x: nat, n: nat): (s: seq<Byte>)
    ensures |s| == n
  {
    if n == 0 then [] else BigEndian(x / 256, n - 1) + [x % 256]
  }

  function Value(s: seq<Byte>): nat {
    if s == [] then 0 else Value(s[..|s| - 1]) * 256 + s[|s| - 1]
  }

  lemma {:induction false} ValueBigEndian(x: nat, n: nat)
    requires x < Pow256(n)
    ensures Value(BigEndian(x, n)) == x
  {
    if n > 0 {
      ValueBigEndian(x / 256, n - 1);
      var s := BigEndian(x, n);
      assert s[..|s| - 1] == BigEndian(x / 256, n - 1);
    }
  }

  lemma {:induction false} ValueBound(s: seq<Byte>)
    ensures Value(s) < Pow256(|s|)
  {
    if s != [] {
      ValueBound(s[..|s| - 1]);
    }
  }

  // ----- masking, section 5.3 -----

  function XorBits(a: nat, b: nat, n: nat): nat {
    if n == 0 then 0 else (if a % 2 == b % 2 then 0 else 1) + 2 * XorBits(a / 2, b / 2, n - 1)
  }

  lemma {:induction false} XorBound(a: nat, b: nat, n: nat)
    ensures XorBits(a, b, n) < Pow2(n)
  {
    if n > 0 {
      XorBound(a / 2, b / 2, n - 1);
    }
  }

  lemma {:induction false} XorTwice(a: nat, b: nat, n: nat)
    requires a < Pow2(n)
    ensures XorBits(XorBits(a, b, n), b, n) == a
  {
    if n > 0 {
      XorTwice(a / 2, b / 2, n - 1);
      var x := XorBits(a, b, n);
      assert x / 2 == XorBits(a / 2, b / 2, n - 1);
    }
  }

  lemma {:induction false} XorZero(a: nat, n: nat)
    requires a < Pow2(n)
    ensures XorBits(a, 0, n) == a
  {
    if n > 0 {
      XorZero(a / 2, n - 1);
    }
  }

  lemma EightBits()
    ensures Pow2(8) == 256
  {
    assert Pow2(4) == 16;
  }

  function Xor(a: Byte, b: Byte): Byte {
    EightBits();
    XorBound(a, b, 8);
    XorBits(a, b, 8)
  }

  /** Each byte is combined with byte i % 4 of the key in network order. */
  function Masked(s: seq<Byte>, key: nat): (r: seq<Byte>)
    ensures |r| == |s|
  {
    seq(|s|, i requires 0 <= i < |s| => Xor(s[i], BigEndian(key, 4)[i % 4]))
  }

  /** Masking is its own inverse. */
  lemma MaskTwice(s: seq<Byte>, key: nat)
    ensures Masked(Masked(s, key), key) == s
  {
    forall i | 0 <= i < |s| ensures Masked(Masked(s, key), key)[i] == s[i] {
      EightBits();
      XorTwice(s[i], BigEndian(key, 4)[i % 4], 8);
    }
  }

  lemma MaskZero(s: seq<Byte>)
    ensures Masked(s, 0) == s
  {
    assert BigEndian(0, 4) == [0, 0, 0, 0] by {
      assert BigEndian(0, 2) == [0, 0];
    }
    forall i | 0 <= i < |s| ensures Masked(s, 0)[i] == s[i] {
      EightBits();
      XorZero(s[i], 8);
    }
  }

  /** Bit k of a number, the lowest one being bit 0. */
  predicate Bit(x: nat, k: nat) {
    if k == 0 then x % 2 == 1 else Bit(x / 2, k - 1)
  }

  /** Byte k of a number, the lowest one being byte 0. */
  function ByteOf(x: nat, k: nat): Byte {
    if k == 0 then x % 256 else ByteOf(x / 256, k - 1)
  }

  lemma {:induction false} XorBit(a: nat, b: nat, n: nat, k: nat)
    requires k < n
    ensures Bit(XorBits(a, b, n), k) <==> Bit(a, k) != Bit(b, k)
  {
    var x := XorBits(a, b, n);
    assert x / 2 == XorBits(a / 2, b / 2, n - 1) && x % 2 == if a % 2 == b % 2 then 0 else 1;
    if k > 0 {
      XorBit(a / 2, b / 2, n - 1, k - 1);
    }
  }

  /** In network order the first byte is the highest one. */
  lemma {:induction false} NetworkOrder(x: nat, n: nat, i: nat)
    requires i < n
    ensures BigEndian(x, n)[i] == ByteOf(x, n - 1 - i)
  {
    if i < n - 1 {
      NetworkOrder(x / 256, n - 1, i);
    }
  }

  /** A masked byte has the bits in which the byte and its byte of the key, in network order, differ. */
  lemma MaskedBit(s: seq<Byte>, key: nat, i: nat, k: nat)
    requires i < |s| && k < 8
    ensures Bit(Masked(s, key)[i], k) <==> Bit(s[i], k) != Bit(ByteOf(key, 3 - i % 4), k)
  {
    hide Bit, XorBits, BigEndian;
    NetworkOrder(key, 4, i % 4);
    XorBit(s[i], BigEndian(key, 4)[i % 4], 8, k);
  }

  /** The bits of a stretch are combined with those of the key. */
  ghost predicate BitsMasked(was: seq<Byte>, now: seq<Byte>, key: nat) {
    && |now| == |was|
    && forall i, k: nat :: 0 <= i < |was| && k < 8 ==>
      (Bit(now[i], k) <==> Bit(was[i], k) != Bit(ByteOf(key, 3 - i % 4), k))
  }

  lemma MaskedBits(was: seq<Byte>, at: nat, size: nat, key: nat, now: seq<Byte>)
    requires at + size <= |was| && now == MaskedTo(was, at, size, key)
    ensures BitsMasked(was[at..at + size], now[at..at + size], key)
  {
    hide Bit, ByteOf, Masked;
    var s := was[at..at + size];
    Middle(now, was[..at], Masked(s, key), was[at + size..]);
    PayloadBits(s, key);
  }

  /** ws_mask(). */
  method Mask(buf: array<Byte>, at: nat, size: nat, mask: nat)
    requires at + size <= buf.Length
    modifies buf
    ensures buf[..] == old(buf[..at]) + Masked(old(buf[at..at + size]), mask) + old(buf[at + size..])
    ensures BitsMasked(old(buf[at..at + size]), buf[at..at + size], mask)
  {
    hide *;
    ghost var was := buf[..];
    MaskBegin(was, at, size, mask);
    MaskedBits(was, at, size, mask, MaskedTo(was, at, size, mask));
    assert was[at..at + size] == buf[at..at + size];
    if mask == 0 {
      return;
    }
    var key := BigEndian(mask, 4);
    for i := 0 to size
      invariant buf[..] == MaskedTo(was, at, i, mask)
    {
      MaskNext(was, at, i, mask);
      assert buf[at + i] == buf[..][at + i];
      buf[at + i] := Xor(buf[at + i], key[i % 4]);
    }
    assert buf[..][at..at + size] == buf[at..at + size];
  }

  /** The first i bytes from at on are masked. */
  function MaskedTo(was: seq<Byte>, at: nat, i: nat, mask: nat): (r: seq<Byte>)
    requires at + i <= |was|
    ensures |r| == |was|
  {
    was[..at] + Masked(was[at..at + i], mask) + was[at + i..]
  }

  lemma MaskBegin(was: seq<Byte>, at: nat, size: nat, mask: nat)
    requires at + size <= |was|
    ensures MaskedTo(was, at, 0, mask) == was
    ensures MaskedTo(was, at, size, mask) == was[..at] + Masked(was[at..at + size], mask) + was[at + size..]
    ensures mask == 0 ==> MaskedTo(was, at, size, mask) == was
  {
    MaskZero(was[at..at + size]);
    assert was[at..at + 0] == [];
    assert was[..at] + was[at..at + size] + was[at + size..] == was;
  }

  lemma MaskNext(was: seq<Byte>, at: nat, i: nat, mask: nat)
    requires at + i < |was|
    ensures var m := MaskedTo(was, at, i, mask);
      MaskedTo(was, at, i + 1, mask) == m[at + i := Xor(m[at + i], BigEndian(mask, 4)[i % 4])]
  {
    hide Masked, Xor, BigEndian;
    MaskStep(was[at..at + i], was[at + i], mask);
    assert was[at..at + i] + [was[at + i]] == was[at..at + i + 1];
  }

  lemma MaskStep(s: seq<Byte>, b: Byte, key: nat)
    ensures Masked(s + [b], key) == Masked(s, key) + [Xor(b, BigEndian(key, 4)[|s| % 4])]
  {
  }

  // ----- frames, section 5.2 -----

  /** A frame: its first byte is FIN and op, which are the reserved bits and the opcode. */
  datatype Frame = Frame(fin: bool, op: nat, masked: bool, key: nat, payload: seq<Byte>) {
    ghost predicate Valid() {
      op < 128 && |payload| < Pow256(7) && key < Pow256(4) && (!masked ==> key == 0)
    }
  }

  /** Number of additional bytes that hold the payload length n. */
  function LenBytes(n: nat): nat {
    if n <= 125 then 0 else if n <= 0xffff then 2 else 8
  }

  function LenCode(n: nat): Byte {
    if n <= 125 then n else if n <= 0xffff then LEN16 else LEN64
  }

  function HeaderLen(n: nat, masked: bool): nat {
    HDR_MINLEN + LenBytes(n) + if masked then 4 else 0
  }

  function Header(f: Frame): (s: seq<Byte>)
    requires f.op < 128
    ensures |s| == HeaderLen(|f.payload|, f.masked)
  {
    var n := |f.payload|;
    [f.op + if f.fin then 128 else 0, LenCode(n) + if f.masked then 128 else 0]
    + BigEndian(n, LenBytes(n)) + if f.masked then BigEndian(f.key, 4) else []
  }

  function Encode(f: Frame): (s: seq<Byte>)
    requires f.op < 128
    ensures |s| == HeaderLen(|f.payload|, f.masked) + |f.payload|
  {
    Header(f) + Masked(f.payload, if f.masked then f.key else 0)
  }

  datatype Head = Head(hlen: nat, plen: nat)

  /** Number of length bytes that the second byte of a frame announces. */
  function Extra(b: Byte): nat {
    if b % 128 == LEN16 then 2 else if b % 128 == LEN64 then 8 else 0
  }

  /** Length of header and payload of the frame at the beginning of s, if enough of it is there. */
  function HeadOf(s: seq<Byte>): Option<Head> {
    if |s| < HDR_MINLEN || |s| < HDR_MINLEN + Extra(s[1]) then None
    else
      var e := Extra(s[1]);
      Some(Head(HDR_MINLEN + e + (if s[1] >= 128 then 4 else 0), if e == 0 then s[1] % 128 else Value(s[2..2 + e])))
  }

  /** s begins with a complete frame of at most size bytes. */
  predicate HasFrame(s: seq<Byte>, size: nat) {
    && HeadOf(s).Some?
    && HeadOf(s).value.hlen + HeadOf(s).value.plen <= |s|
    && HeadOf(s).value.hlen + HeadOf(s).value.plen <= size
  }

  function FrameLen(s: seq<Byte>): nat
    requires HeadOf(s).Some?
  {
    HeadOf(s).value.hlen + HeadOf(s).value.plen
  }

  function KeyOf(s: seq<Byte>): nat
    requires HasFrame(s, |s|)
  {
    var h := HeadOf(s).value;
    if s[1] >= 128 then Value(s[h.hlen - 4..h.hlen]) else 0
  }

  function FrameOf(s: seq<Byte>): Frame
    requires HasFrame(s, |s|)
  {
    var h := HeadOf(s).value;
    Frame(s[0] >= 128, s[0] % 128, s[1] >= 128, KeyOf(s), Masked(s[h.hlen..h.hlen + h.plen], KeyOf(s)))
  }

  lemma PowValues()
    ensures Pow256(2) == 0x1_0000 && Pow256(4) == 0x1_0000_0000 && Pow256(7) < Pow256(8)
  {
    assert Pow256(3) == 0x100_0000;
  }

  /** The header of an encoded frame tells its lengths. */
  lemma HeadOfEncoded(f: Frame, rest: seq<Byte>)
    requires f.Valid()
    ensures HeadOf(Encode(f) + rest) == Some(Head(HeaderLen(|f.payload|, f.masked), |f.payload|))
  {
    PowValues();
    var n := |f.payload|;
    var e := LenBytes(n);
    var s := Encode(f) + rest;
    assert Extra(s[1]) == e;
    if e != 0 {
      assert s[2..2 + e] == BigEndian(n, e);
      ValueBigEndian(n, e);
    }
  }

  /** Decoding an encoded frame gives the frame back, whatever follows it. */
  lemma DecodeEncode(f: Frame, rest: seq<Byte>)
    requires f.Valid()
    ensures HasFrame(Encode(f) + rest, |Encode(f)|) && HasFrame(Encode(f) + rest, |Encode(f) + rest|)
    ensures FrameLen(Encode(f) + rest) == |Encode(f)| && FrameOf(Encode(f) + rest) == f
  {
    HeadOfEncoded(f, rest);
    PowValues();
    var s := Encode(f) + rest;
    var h := HeaderLen(|f.payload|, f.masked);
    var key := if f.masked then f.key else 0;
    PayloadAt(f, rest);
    if f.masked {
      KeyAt(f, rest);
      ValueBigEndian(f.key, 4);
    }
    MaskTwice(f.payload, key);
  }

  lemma PayloadAt(f: Frame, rest: seq<Byte>)
    requires f.Valid()
    ensures var h := HeaderLen(|f.payload|, f.masked);
      (Encode(f) + rest)[h..h + |f.payload|] == Masked(f.payload, if f.masked then f.key else 0)
  {
    hide Header, Masked, BigEndian;
    var body := Masked(f.payload, if f.masked then f.key else 0);
    SeqAssoc(Header(f), body, rest);
    Middle(Encode(f) + rest, Header(f), body, rest);
  }

  /** The key is at the end of the header. */
  lemma KeyAt(f: Frame, rest: seq<Byte>)
    requires f.Valid() && f.masked
    ensures var h := HeaderLen(|f.payload|, true);
      4 <= h && (Encode(f) + rest)[h - 4..h] == BigEndian(f.key, 4)
  {
    hide Masked, BigEndian;
    var n := |f.payload|;
    var first := [f.op + if f.fin then 128 else 0, LenCode(n) + 128] + BigEndian(n, LenBytes(n));
    var key, body := BigEndian(f.key, 4), Masked(f.payload, f.key);
    SeqAssoc(first, key, body);
    SeqAssoc(first, key + body, rest);
    SeqAssoc(key, body, rest);
    Middle(Encode(f) + rest, first, key, body + rest);
  }

  lemma HighBit(b: Byte)
    ensures Bit(b, 7) <==> b >= 128
  {
    assert Bit(b / 2 / 2 / 2 / 2 / 2 / 2 / 2, 0) == Bit(b / 2 / 2 / 2 / 2 / 2 / 2, 1) == Bit(b / 2 / 2 / 2 / 2 / 2, 2);
    assert Bit(b / 2 / 2 / 2 / 2 / 2, 2) == Bit(b / 2 / 2 / 2 / 2, 3) == Bit(b / 2 / 2 / 2, 4) == Bit(b / 2 / 2, 5);
  }

  /** The bytes are those of x, the highest one first. */
  ghost predicate HighestFirst(s: seq<Byte>, x: nat) {
    forall i :: 0 <= i < |s| ==> s[i] == ByteOf(x, |s| - 1 - i)
  }

  lemma BigEndianIs(x: nat, n: nat)
    ensures HighestFirst(BigEndian(x, n), x)
  {
    hide BigEndian, ByteOf;
    forall i | 0 <= i < n ensures BigEndian(x, n)[i] == ByteOf(x, n - 1 - i) {
      NetworkOrder(x, n, i);
    }
  }

  lemma EncodedParts(f: Frame)
    requires f.Valid()
    ensures var s, e := Encode(f), 2 + LenBytes(|f.payload|);
      var h := e + if f.masked then 4 else 0;
      && h <= |s| && s[0] == f.op + (if f.fin then 128 else 0)
      && s[1] == LenCode(|f.payload|) + (if f.masked then 128 else 0)
      && s[2..e] == BigEndian(|f.payload|, e - 2)
      && (f.masked ==> s[e..e + 4] == BigEndian(f.key, 4))
      && s[h..] == Masked(f.payload, f.key)
  {
    hide BigEndian, Masked;
  }

  /**
   * A frame byte by byte, as section 5.2 has it: FIN and the opcode, the mask bit and the payload
   * length or 126 or 127 for a length of 2 or 8 bytes that follows, highest byte first, then the
   * key, and the payload, in which the bits of the key change those of the message.
   */
  lemma OnTheWire(f: Frame)
    requires f.Valid()
    ensures var s, n := Encode(f), |f.payload|;
      var at := if n <= 125 then 2 else if n <= 65535 then 4 else 10;
      var body := at + if f.masked then 4 else 0;
      && |s| == body + n
      && (Bit(s[0], 7) <==> f.fin) && s[0] % 128 == f.op
      && (Bit(s[1], 7) <==> f.masked) && s[1] % 128 == (if n <= 125 then n else if n <= 65535 then 126 else 127)
      && HighestFirst(s[2..at], n)
      && (f.masked ==> HighestFirst(s[at..at + 4], f.key))
      && BitsMasked(f.payload, s[body..], f.key)
  {
    hide Bit, BigEndian, Masked, Encode, BitsMasked, HighestFirst;
    var s, n := Encode(f), |f.payload|;
    EncodedParts(f);
    HighBit(s[0]);
    HighBit(s[1]);
    BigEndianIs(n, LenBytes(n));
    BigEndianIs(f.key, 4);
    PayloadBits(f.payload, f.key);
  }

  lemma PayloadBits(s: seq<Byte>, key: nat)
    ensures BitsMasked(s, Masked(s, key), key)
  {
    hide Bit, ByteOf, Masked;
    forall i, k: nat | 0 <= i < |s| && k < 8
      ensures Bit(Masked(s, key)[i], k) <==> Bit(s[i], k) != Bit(ByteOf(key, 3 - i % 4), k)
    {
      MaskedBit(s, key, i, k);
    }
  }

  /** The header is the shortest one that announces the same payload length (section 5.2). */
  lemma ShortestHeader(f: Frame, s: seq<Byte>)
    requires f.Valid() && HeadOf(s).Some? && HeadOf(s).value.plen == |f.payload| && (s[1] >= 128) == f.masked
    ensures |Header(f)| <= HeadOf(s).value.hlen
  {
    PowValues();
    var e := Extra(s[1]);
    if e != 0 {
      ValueBound(s[2..2 + e]);
    }
  }

  // ----- the connection -----

  /** The bytes under way from one end of a connection to the other. */
  class Stream {
    var data: seq<Byte>

    constructor ()
      ensures data == []
    {
      data := [];
    }

    /** write() of the first n bytes of buf. */
    method Send(buf: array<Byte>, n: nat)
      requires n <= buf.Length
      modifies this
      ensures data == old(data) + buf[..n]
    {
      data := data + buf[..n];
    }

    /** read() of up to need bytes: at least one, but as few as the connection likes; 0 at the end of the stream. */
    method Recv(buf: array<Byte>, at: nat, need: nat) returns (n: nat)
      requires 0 < need && at + need <= buf.Length
      modifies this, buf
      ensures n <= need && n <= |old(data)| && (n == 0 <==> old(data) == [])
      ensures data == old(data)[n..]
      ensures buf[..at + n] == old(buf[..at]) + old(data)[..n]
    {
      if data == [] {
        return 0;
      }
      n :| 1 <= n <= need && n <= |data|;
      Copy(buf, at, data[..n]);
      data := data[n..];
    }
  }

  /** ws_frame_t: a frame buffer and the properties of the frame in it. */
  class WsFrame {
    const buf: array<Byte>
    var len: nat
    var hlen: nat
    var plen: nat
    var op: int
    var mask: nat

    constructor (size: nat)
      ensures fresh(buf) && buf.Length == size
    {
      buf := new Byte[size];
      len, hlen, plen, op, mask := 0, 0, 0, 0, 0;
    }
  }

  /** The length bytes are written from the last one to the first one. */
  method WriteLength(buf: array<Byte>, plen: nat)
    requires 10 <= buf.Length
    modifies buf
    ensures buf[..] == old(buf[..2]) + BigEndian(plen, 8) + old(buf[10..])
  {
    hide BigEndian;
    ghost var was := buf[..];
    ghost var tail: seq<Byte> := [];
    var n := plen;
    var i := 9;
    while i >= 2
      invariant 1 <= i <= 9 && |tail| == 9 - i && buf[..] == was[..i + 1] + tail + was[10..]
      invariant BigEndian(plen, 8) == BigEndian(n, i - 1) + tail
    {
      BigEndianStep(n, i - 1);
      buf[i] := n % 256;
      tail := [n % 256] + tail;
      n := n / 256;
      i := i - 1;
    }
    BigEndianEnd(n);
  }

  method WriteMask(buf: array<Byte>, hlen: nat, key: nat)
    requires 4 <= hlen <= buf.Length
    modifies buf
    ensures buf[..] == old(buf[..hlen - 4]) + BigEndian(key, 4) + old(buf[hlen..])
  {
    hide BigEndian;
    ghost var was := buf[..];
    ghost var tail: seq<Byte> := [];
    var mask := key;
    for i := 0 to 4
      invariant |tail| == i && buf[..] == was[..hlen - i] + tail + was[hlen..]
      invariant BigEndian(key, 4) == BigEndian(mask, 4 - i) + tail
    {
      BigEndianStep(mask, 4 - i);
      buf[hlen - i - 1] := mask % 256;
      tail := [mask % 256] + tail;
      mask := mask / 256;
    }
    BigEndianEnd(mask);
  }

  lemma BigEndianStep(x: nat, n: nat)
    requires n > 0
    ensures BigEndian(x, n) == BigEndian(x / 256, n - 1) + [x % 256]
  {
  }

  lemma BigEndianEnd(x: nat)
    ensures BigEndian(x, 0) == []
  {
  }

  /** The second byte of the header without the mask bit, and the length bytes after it. */
  function WithLen(s: seq<Byte>, plen: nat): (r: seq<Byte>)
    requires HDR_MINLEN + LenBytes(plen) <= |s|
    ensures |r| == |s|
  {
    s[..1] + [LenCode(plen)] + BigEndian(plen, LenBytes(plen)) + s[2 + LenBytes(plen)..]
  }

  method EncodeLen(buf: array<Byte>, plen: nat)
    requires HDR_MINLEN + LenBytes(plen) <= buf.Length
    modifies buf
    ensures buf[..] == WithLen(old(buf[..]), plen)
  {
    if plen <= 125 {
      buf[1] := plen;
    } else if plen < 0x1_0000 {
      buf[1] := LEN16;
      buf[2] := plen / 256 % 256;
      buf[3] := plen % 256;
      assert BigEndian(plen, 2) == BigEndian(plen / 256, 1) + [plen % 256];
      assert BigEndian(plen / 256, 1) == [plen / 256 % 256];
    } else {
      buf[1] := LEN64;
      WriteLength(buf, plen);
    }
  }

  /** The byte with its highest bit set. */
  function SetBit(b: Byte): Byte {
    if b < 128 then b + 128 else b
  }

  /** The mask bit and the masking key, which ends the header. */
  function WithMask(s: seq<Byte>, hlen: nat, key: nat): seq<Byte>
    requires 6 <= hlen <= |s|
  {
    [s[0], SetBit(s[1])] + s[2..hlen - 4] + BigEndian(key, 4) + s[hlen..]
  }

  method AddMask(buf: array<Byte>, hlen: nat, key: nat)
    requires 6 <= hlen <= buf.Length
    modifies buf
    ensures buf[..] == WithMask(old(buf[..]), hlen, key)
  {
    buf[1] := SetBit(buf[1]);
    WriteMask(buf, hlen, key);
  }

  /** The header of f comes before the payload, which is in its place already. */
  method WriteHeader(wf: WsFrame, ghost f: Frame) returns (ok: bool)
    requires f.Valid() && wf.plen == |f.payload| && wf.mask == f.key && f.masked == (f.key != 0)
    requires wf.hlen == HeaderLen(wf.plen, f.masked) <= wf.buf.Length
    requires wf.op == f.op + if f.fin then 128 else 0
    modifies wf.buf
    ensures ok && wf.buf[..] == Header(f) + old(wf.buf[wf.hlen..])
  {
    hide *;
    var buf := wf.buf;
    ghost var was := buf[..];
    HeaderFits(f);
    HeaderIs(f, was);
    EncodeLen(buf, wf.plen);
    buf[0] := wf.op;
    if wf.mask != 0 {
      if wf.hlen < 4 {
        return false;
      }
      AddMask(buf, wf.hlen, wf.mask);
    }
    return true;
  }

  lemma HeaderFits(f: Frame)
    requires f.Valid()
    ensures var n := |f.payload|;
      2 + LenBytes(n) <= HeaderLen(n, f.masked) && (f.masked ==> 6 + LenBytes(n) == HeaderLen(n, true))
    ensures HDR_MINLEN == 2 && f.op < 128
  {
  }

  /** The bytes written to the buffer are the header of the frame. */
  lemma HeaderIs(f: Frame, was: seq<Byte>)
    requires f.Valid() && HeaderLen(|f.payload|, f.masked) <= |was|
    ensures var h := HeaderLen(|f.payload|, f.masked);
      var s := WithLen(was, |f.payload|)[0 := f.op + if f.fin then 128 else 0];
      (if f.masked then WithMask(s, h, f.key) else s) == Header(f) + was[h..]
  {
    hide BigEndian;
    var e := LenBytes(|f.payload|);
    if f.masked {
      MaskedHeaderIs(f, was, e);
    } else {
      LenIsPlaced(f, was, e);
    }
  }

  lemma LenIsPlaced(f: Frame, was: seq<Byte>, e: nat)
    requires f.Valid() && e == LenBytes(|f.payload|) && 2 + e <= |was|
    ensures WithLen(was, |f.payload|)[0 := f.op + if f.fin then 128 else 0] ==
      [f.op + if f.fin then 128 else 0, LenCode(|f.payload|)] + BigEndian(|f.payload|, e) + was[2 + e..]
  {
    hide BigEndian, LenCode;
    First(was[..1], [LenCode(|f.payload|)], BigEndian(|f.payload|, e), was[2 + e..], f.op + if f.fin then 128 else 0);
  }

  lemma First<T>(a: seq<T>, b: seq<T>, c: seq<T>, d: seq<T>, x: T)
    requires |a| == 1
    ensures (a + b + c + d)[0 := x] == [x] + b + c + d
  {
  }

  lemma MaskedHeaderIs(f: Frame, was: seq<Byte>, e: nat)
    requires f.Valid() && f.masked && e == LenBytes(|f.payload|) && 6 + e <= |was|
    ensures WithMask(WithLen(was, |f.payload|)[0 := f.op + if f.fin then 128 else 0], 6 + e, f.key) ==
      Header(f) + was[6 + e..]
  {
    hide BigEndian;
    var n, op := |f.payload|, f.op + if f.fin then 128 else 0;
    LenIsPlaced(f, was, e);
    var s := [op, LenCode(n)] + BigEndian(n, e) + was[2 + e..];
    SeqAssoc([op, LenCode(n)], BigEndian(n, e), was[2 + e..]);
    Middle(s, [op, LenCode(n)], BigEndian(n, e), was[2 + e..]);
    Behind(s, [op, LenCode(n)] + BigEndian(n, e), was[2 + e..], 4);
  }

  lemma Behind<T>(s: seq<T>, a: seq<T>, b: seq<T>, k: nat)
    requires s == a + b && k <= |b|
    ensures s[|a| + k..] == b[k..]
  {
  }

  /** The frame f, whose properties are in wf and whose masked payload is in the buffer. */
  method WriteFrame(st: Stream, wf: WsFrame, ghost f: Frame) returns (r: int)
    requires f.Valid() && wf.plen == |f.payload| && wf.mask == f.key && f.masked == (f.key != 0)
    requires wf.hlen == HeaderLen(wf.plen, f.masked) && wf.hlen + wf.plen <= wf.buf.Length
    requires wf.op == f.op + if f.fin then 128 else 0
    requires wf.buf[wf.hlen..wf.hlen + wf.plen] == Masked(f.payload, f.key)
    modifies st, wf.buf
    ensures st.data == old(st.data) + Encode(f)
    ensures r == |Encode(f)|
  {
    ghost var body := wf.buf[wf.hlen..];
    var ok := WriteHeader(wf, f);
    if !ok {
      return -1;
    }
    assert wf.buf[..wf.hlen + wf.plen] == Encode(f);
    st.Send(wf.buf, wf.hlen + wf.plen);
    return wf.hlen + wf.plen;
  }

  // ----- reading a frame -----

  /** ws_pld_len(). */
  method PldLen(buf: array<Byte>, n: nat) returns (plen: nat)
    requires HDR_MINLEN + n <= buf.Length
    ensures plen == Value(buf[2..2 + n])
  {
    plen := 0;
    for i := 0 to n
      invariant plen == Value(buf[2..2 + i])
    {
      plen := plen * 256 + buf[2 + i];
      assert buf[2..2 + i + 1][..i] == buf[2..2 + i];
    }
  }

  /** What is missing in s until the lengths of the frame are known: n bytes. */
  predicate Missing(s: seq<Byte>, n: nat) {
    && n > 0 && HeadOf(s).None?
    && |s| + n == if |s| < HDR_MINLEN then HDR_MINLEN else HDR_MINLEN + Extra(s[1])
  }

  /** ws_decode_len(): header and payload length, or the negative number of bytes that are missing. */
  method DecodeLen(buf: array<Byte>, len: nat) returns (r: int, hlen: nat)
    requires len <= buf.Length
    ensures r >= 0 ==> HeadOf(buf[..len]) == Some(Head(hlen, r)) && hlen >= 2
    ensures r < 0 ==> Missing(buf[..len], -r) && hlen == 0
  {
    if len < HDR_MINLEN {
      return len - HDR_MINLEN, 0;
    }
    var h := HDR_MINLEN;
    var masked := if buf[1] >= 128 then 4 else 0;
    if buf[1] % 128 == LEN16 {
      h := h + 2;
    } else if buf[1] % 128 == LEN64 {
      h := h + 8;
    } else {
      return buf[1] % 128, h + masked;
    }
    if len < h {
      return len - h, 0;
    }
    r := PldLen(buf, h - HDR_MINLEN);
    hlen := h + masked;
    assert buf[..len][2..h] == buf[2..h];
  }

  /**
   * The first len bytes of s have been read; need more bytes are wanted, for the lengths while
   * hlen is 0, and for the rest of the frame then.
   */
  predicate Reading(s: seq<Byte>, len: nat, hlen: nat, plen: nat, need: nat) {
    && len <= |s|
    && if hlen == 0 then Missing(s[..len], need) else HeadOf(s) == Some(Head(hlen, plen)) && len + need == hlen + plen
  }

  /** More bytes do not change a header that is complete. */
  lemma HeadOfPrefix(s: seq<Byte>, n: nat)
    requires n <= |s| && HeadOf(s[..n]).Some?
    ensures HeadOf(s) == HeadOf(s[..n])
  {
    var e := Extra(s[1]);
    assert s[..n][2..2 + e] == s[2..2 + e];
  }

  lemma NothingRead(s: seq<Byte>)
    ensures Reading(s, 0, 0, 0, 2)
  {
  }

  lemma SomeRead(s: seq<Byte>, len: nat, hlen: nat, plen: nat, need: nat, n: nat)
    requires Reading(s, len, hlen, plen, need) && 0 < n <= need && len + n <= |s|
    ensures hlen != 0 ==> Reading(s, len + n, hlen, plen, need - n)
    ensures hlen == 0 ==> forall h: Head | HeadOf(s[..len + n]) == Some(h) :: len + n <= h.hlen + h.plen
  {
    if len >= 2 {
      assert s[..len][1] == s[..len + n][1];
    }
  }

  lemma HeadRead(s: seq<Byte>, len: nat, h: Head)
    requires len <= |s| && HeadOf(s[..len]) == Some(h) && len <= h.hlen + h.plen
    ensures Reading(s, len, h.hlen, h.plen, h.hlen + h.plen - len)
  {
    HeadOfPrefix(s, len);
  }

  lemma HeadMissing(s: seq<Byte>, len: nat, plen: nat, need: nat)
    requires len <= |s| && Missing(s[..len], need)
    ensures Reading(s, len, 0, plen, need)
  {
  }

  lemma NotEnough(s: seq<Byte>, len: nat, hlen: nat, plen: nat, need: nat, size: nat)
    requires Reading(s, len, hlen, plen, need) && need > 0 && len <= size
    ensures len == |s| ==> !HasFrame(s, size)
    ensures len == |s| && need <= size - len ==> !(HeadOf(s).Some? && FrameLen(s) > size)
    ensures size - len < need ==> !HasFrame(s, size) && !(HeadOf(s).Some? && FrameLen(s) <= size)
  {
    if HeadOf(s).Some? && hlen == 0 && len >= 2 {
      assert s[..len][1] == s[1];
    }
  }

  lemma AllRead(s: seq<Byte>, len: nat, hlen: nat, plen: nat, size: nat)
    requires Reading(s, len, hlen, plen, 0) && len <= size
    ensures HasFrame(s, size) && len == hlen + plen == FrameLen(s) > 1 && HeadOf(s) == Some(Head(hlen, plen))
    ensures KeyOf(s) == if s[..len][1] >= 128 then (assert 4 <= hlen <= len; Value(s[..len][hlen - 4..hlen])) else 0
    ensures s[..len][1] >= 128 ==> 4 <= hlen
  {
    if s[1] >= 128 {
      assert s[..len][hlen - 4..hlen] == s[hlen - 4..hlen];
    }
  }

  /** The masking key of the frame that is in the first len bytes of the buffer; 0 if it has none. */
  method MaskOf(buf: array<Byte>, hlen: nat, len: nat) returns (mask: nat)
    requires 1 < len <= buf.Length && hlen <= len && (buf[..len][1] >= 128 ==> 4 <= hlen)
    ensures mask == if buf[..len][1] >= 128 then Value(buf[..len][hlen - 4..hlen]) else 0
  {
    if buf[1] >= 128 {
      var frame := buf[..len];
      return Value(frame[hlen - 4..hlen]);
    }
    return 0;
  }

  /**
   * ws_read_frame(): takes exactly one frame from the stream if there is a complete one that
   * fits, however its bytes are delivered, and fails otherwise.
   */
  method ReadFrame(st: Stream, wf: WsFrame, size: nat) returns (r: int)
    requires size <= wf.buf.Length
    modifies st, wf, wf.buf
    ensures r > 0 <==> HasFrame(old(st.data), size)
    ensures r > 0 ==> r == FrameLen(old(st.data)) && st.data == old(st.data)[r..]
    ensures r > 0 ==> wf.buf[..r] == old(st.data)[..r] && Some(Head(wf.hlen, wf.plen)) == HeadOf(old(st.data))
    ensures r > 0 ==> wf.op == old(st.data)[0] && wf.mask == KeyOf(old(st.data))
    ensures r == -1 ==> !(HeadOf(old(st.data)).Some? && FrameLen(old(st.data)) <= size)
    ensures r == 0 ==> st.data == [] && !(HeadOf(old(st.data)).Some? && FrameLen(old(st.data)) > size)
    ensures -1 <= r && |st.data| <= |old(st.data)|
  {
    hide *;
    ghost var s := st.data;
    wf.len, wf.hlen, wf.plen := 0, 0, 0;
    var need: int := 2;
    NothingRead(s);
    while need > 0
      invariant need >= 0 && wf.len <= size && wf.len <= |s| && wf.buf[..wf.len] == s[..wf.len] &&
        st.data == s[wf.len..]
      invariant Reading(s, wf.len, wf.hlen, wf.plen, need)
      decreases size - wf.len
    {
      NotEnough(s, wf.len, wf.hlen, wf.plen, need, size);
      if size - wf.len < need {
        return -1;
      }
      var n := st.Recv(wf.buf, wf.len, need);
      if n == 0 {
        return 0;
      }
      SomeRead(s, wf.len, wf.hlen, wf.plen, need, n);
      assert s[..wf.len] + s[wf.len..][..n] == s[..wf.len + n];
      wf.len := wf.len + n;
      need := need - n;
      assert wf.buf[..wf.len] == s[..wf.len];
      if wf.hlen == 0 {
        var p, h := DecodeLen(wf.buf, wf.len);
        wf.hlen := h;
        need := p;
        if need < 0 {
          need := -need;
          HeadMissing(s, wf.len, wf.plen, need);
          continue;
        }
        wf.plen := need;
        HeadRead(s, wf.len, Head(h, p));
      }
      need := wf.hlen + wf.plen - wf.len;
    }
    AllRead(s, wf.len, wf.hlen, wf.plen, size);
    wf.mask := MaskOf(wf.buf, wf.hlen, wf.len);
    wf.op := wf.buf[0];
    return wf.hlen + wf.plen;
  }

  // ----- messages, section 5.4 -----

  /** websocket_t: maximum frame size, whether frames are masked, and the opcode of messages. */
  datatype Websocket = Websocket(size: nat, mask: bool, op: int)

  function Payloads(fs: seq<Frame>): seq<Byte> {
    if fs == [] then [] else fs[0].payload + Payloads(fs[1..])
  }

  ghost predicate AllValid(fs: seq<Frame>) {
    forall i :: 0 <= i < |fs| ==> fs[i].Valid()
  }

  ghost function EncodeAll(fs: seq<Frame>): seq<Byte>
    requires AllValid(fs)
  {
    if fs == [] then [] else Encode(fs[0]) + EncodeAll(fs[1..])
  }

  /** The frames of one message: FIN is set in the last one and in no other one. */
  ghost predicate Fragments(fs: seq<Frame>, size: nat) {
    && fs != []
    && AllValid(fs) && (forall i :: 0 <= i < |fs| ==> |Encode(fs[i])| <= size)
    && (forall i :: 0 <= i < |fs| ==> fs[i].fin == (i == |fs| - 1))
  }

  /**
   * What ws_read() makes of the stream s with a user buffer of room bytes and a frame buffer of
   * size bytes: the payloads of the frames up to the first one with FIN, and the rest of the
   * stream. It fails at a frame that is incomplete or too large for one of the buffers.
   */
  function Received(s: seq<Byte>, room: nat, size: nat): (r: Option<(seq<Byte>, seq<Byte>)>)
    decreases |s|
  {
    if !HasFrame(s, size) || room < HeadOf(s).value.plen then None
    else
      var f := FrameOf(s);
      var rest := s[FrameLen(s)..];
      if f.fin then Some((f.payload, rest))
      else
        match Received(rest, room - HeadOf(s).value.plen, size)
        case None => None
        case Some(m) => Some((f.payload + m.0, m.1))
  }

  /** Receiving the encoded fragments of a message gives its payloads and takes no byte more. */
  lemma {:induction false} ReceiveFragments(fs: seq<Frame>, rest: seq<Byte>, room: nat, size: nat)
    requires Fragments(fs, size) && |Payloads(fs)| <= room
    ensures Received(EncodeAll(fs) + rest, room, size) == Some((Payloads(fs), rest))
  {
    hide Encode, FrameOf, HeadOf;
    var f := fs[0];
    var tail := EncodeAll(fs[1..]) + rest;
    assert EncodeAll(fs) + rest == Encode(f) + tail;
    DecodeEncode(f, tail);
    HeadOfEncoded(f, tail);
    assert (Encode(f) + tail)[|Encode(f)|..] == tail;
    if |fs| == 1 {
      assert tail == rest && Payloads(fs) == f.payload;
    } else {
      ReceiveFragments(fs[1..], rest, room - |f.payload|, size);
    }
  }

  /** A message that begins with what has been received already. */
  ghost function Before(got: seq<Byte>, m: Option<(seq<Byte>, seq<Byte>)>): Option<(seq<Byte>, seq<Byte>)> {
    match m
    case None => None
    case Some(p) => Some((got + p.0, p.1))
  }

  lemma BeforeNone(got: seq<Byte>)
    ensures Before(got, None).None?
  {
  }

  lemma NothingBefore(m: Option<(seq<Byte>, seq<Byte>)>)
    ensures Before([], m) == m
  {
    if m.Some? {
      assert [] + m.value.0 == m.value.0;
    }
  }

  lemma FrameFits(t: seq<Byte>, room: nat, size: nat)
    ensures !HasFrame(t, size) ==> Received(t, room, size).None?
    ensures HasFrame(t, size) && HeadOf(t).value.plen > room ==> Received(t, room, size).None?
    ensures HasFrame(t, size) ==> FrameLen(t) == HeadOf(t).value.hlen + HeadOf(t).value.plen <= |t|
    ensures HasFrame(t, size) ==> FrameLen(t) <= size && HeadOf(t).value.hlen >= 2
  {
  }

  /** The payload of a frame that has been read into a buffer. */
  lemma FrameBody(t: seq<Byte>, size: nat, body: seq<Byte>, hlen: nat, plen: nat)
    requires HasFrame(t, size) && HeadOf(t) == Some(Head(hlen, plen))
    requires body == t[..FrameLen(t)][hlen..hlen + plen]
    ensures FrameOf(t).payload == Masked(body, KeyOf(t)) && (KeyOf(t) == 0 ==> FrameOf(t).payload == body)
  {
    assert body == t[hlen..hlen + plen];
    MaskZero(body);
  }

  lemma ReceiveStep(t: seq<Byte>, room: nat, size: nat, got: seq<Byte>, data: seq<Byte>)
    requires HasFrame(t, size) && data == FrameOf(t).payload && |data| <= room
    ensures if t[0] >= 128 then
              Before(got, Received(t, room, size)) == Some((got + data, t[FrameLen(t)..]))
            else
              Before(got, Received(t, room, size)) ==
                Before(got + data, Received(t[FrameLen(t)..], room - |data|, size))
  {
    var m := Received(t[FrameLen(t)..], room - |data|, size);
    if m.Some? {
      assert got + (data + m.value.0) == got + data + m.value.0;
    }
  }

  /** ws_read(). */
  method Read(ws: Websocket, st: Stream, buf: array<Byte>, room: nat) returns (rlen: int)
    requires room <= buf.Length
    modifies st, buf
    ensures -1 <= rlen <= room
    ensures var m := Received(old(st.data), room, ws.size);
      if m.Some? then rlen == |m.value.0| && buf[..rlen] == m.value.0 && st.data == m.value.1 else rlen <= 0
  {
    hide *;
    var wf := new WsFrame(ws.size);
    rlen := 0;
    wf.op := 0;
    ghost var s := st.data;
    ghost var got: seq<Byte> := [];
    NothingBefore(Received(s, room, ws.size));
    while wf.op < 128
      invariant fresh(wf) && fresh(wf.buf) && wf.buf.Length == ws.size
      invariant 0 <= rlen <= room && buf[..rlen] == got
      invariant wf.op < 128 ==> Received(s, room, ws.size) == Before(got, Received(st.data, room - rlen, ws.size))
      invariant wf.op >= 128 ==> Received(s, room, ws.size) == Some((got, st.data))
      decreases |st.data|
    {
      ghost var t := st.data;
      var len := ReadFrame(st, wf, ws.size);
      FrameFits(t, room - rlen, ws.size);
      BeforeNone(got);
      if len == -1 {
        return -1;
      }
      if len == 0 {
        return 0;
      }
      if room - rlen < wf.plen {
        wf.plen := room - rlen;
      }
      if wf.hlen + wf.plen != len {
        return -1;
      }
      FrameBody(t, ws.size, wf.buf[..len][wf.hlen..], wf.hlen, wf.plen);
      if wf.mask != 0 {
        Mask(wf.buf, wf.hlen, wf.plen, wf.mask);
      }
      var data := wf.buf[wf.hlen..wf.hlen + wf.plen];
      ReceiveStep(t, room - rlen, ws.size, got, data);
      Copy(buf, rlen, data);
      rlen := rlen + wf.plen;
      got := got + data;
    }
  }

  // ----- writing a message -----

  /** ws_random_mask(): never 0. */
  method RandomMask() returns (rnd: nat)
    ensures 0 < rnd < Pow256(4)
  {
    PowValues();
    rnd :| 0 < rnd < 0x1_0000_0000;
  }

  /**
   * Frame i of a message: the opcode is in the first frame only, FIN in the last frame only, and
   * no frame is empty or longer than the maximum frame size.
   */
  ghost predicate FrameOk(fs: seq<Frame>, i: nat, ws: Websocket, complete: bool)
    requires i < |fs|
  {
    var f := fs[i];
    && f.Valid() && |Encode(f)| <= ws.size && f.payload != []
    && f.op == (if i == 0 then ws.op % 16 else 0)
    && f.fin == (complete && i == |fs| - 1)
    && f.masked == ws.mask == (f.key != 0)
  }

  /** The frames that ws_write() makes of a message. */
  ghost predicate Message(fs: seq<Frame>, ws: Websocket, complete: bool) {
    forall i :: 0 <= i < |fs| ==> FrameOk(fs, i, ws, complete)
  }

  /**
   * Each frame but the last one takes as much of the remaining n bytes as there is room for behind
   * the header that would announce all of them.
   */
  ghost predicate Full(fs: seq<Frame>, ws: Websocket, n: nat)
    decreases |fs|
  {
    fs == [] || (
      && |fs[0].payload| <= n
      && (fs[0].fin || HeaderLen(n, ws.mask) + |fs[0].payload| == ws.size)
      && Full(fs[1..], ws, n - |fs[0].payload|))
  }

  lemma {:induction false} FullAppend(fs: seq<Frame>, f: Frame, ws: Websocket, n: nat)
    requires Full(fs, ws, n) && |Payloads(fs)| + |f.payload| <= n
    requires f.fin || HeaderLen(n - |Payloads(fs)|, ws.mask) + |f.payload| == ws.size
    ensures Full(fs + [f], ws, n)
    decreases |fs|
  {
    hide HeaderLen;
    if fs == [] {
      assert (fs + [f])[1..] == [];
    } else {
      FullAppend(fs[1..], f, ws, n - |fs[0].payload|);
      assert (fs + [f])[1..] == fs[1..] + [f];
    }
  }

  lemma MessageIs(fs: seq<Frame>, ws: Websocket, complete: bool)
    requires Message(fs, ws, complete)
    ensures AllValid(fs) && (fs != [] && complete ==> Fragments(fs, ws.size))
  {
    forall i | 0 <= i < |fs| ensures fs[i].Valid() {
      assert FrameOk(fs, i, ws, complete);
    }
    if complete {
      forall i | 0 <= i < |fs| ensures |Encode(fs[i])| <= ws.size && fs[i].fin == (i == |fs| - 1) {
        assert FrameOk(fs, i, ws, complete);
      }
    }
  }

  lemma OneMoreFrame(fs: seq<Frame>, f: Frame, ws: Websocket)
    requires Message(fs, ws, false)
    requires f.Valid() && |Encode(f)| <= ws.size && f.payload != []
    requires f.op == (if fs == [] then ws.op % 16 else 0) && f.masked == ws.mask == (f.key != 0)
    ensures Message(fs + [f], ws, f.fin)
  {
    forall i | 0 <= i < |fs + [f]| ensures FrameOk(fs + [f], i, ws, f.fin) {
      assert i < |fs| ==> FrameOk(fs, i, ws, false);
    }
  }

  lemma {:induction false} EncodeAllAppend(fs: seq<Frame>, f: Frame)
    requires AllValid(fs) && f.Valid()
    ensures AllValid(fs + [f]) && EncodeAll(fs + [f]) == EncodeAll(fs) + Encode(f)
    ensures Payloads(fs + [f]) == Payloads(fs) + f.payload
  {
    hide Encode, EncodeAll, Payloads;
    assert AllValid(fs + [f]);
    FirstFrame(fs + [f]);
    if fs != [] {
      EncodeAllAppend(fs[1..], f);
      assert (fs + [f])[1..] == fs[1..] + [f];
      FirstFrame(fs);
      SeqAssoc(Encode(fs[0]), EncodeAll(fs[1..]), Encode(f));
      SeqAssoc(fs[0].payload, Payloads(fs[1..]), f.payload);
    } else {
      assert (fs + [f])[1..] == [];
      NoFrameEncoded();
    }
  }

  lemma FirstFrame(fs: seq<Frame>)
    requires AllValid(fs) && fs != []
    ensures AllValid(fs[1..]) && EncodeAll(fs) == Encode(fs[0]) + EncodeAll(fs[1..])
    ensures Payloads(fs) == fs[0].payload + Payloads(fs[1..])
  {
    hide Encode;
  }

  lemma NoFrameEncoded()
    ensures AllValid([]) && EncodeAll([]) == [] && Payloads([]) == []
  {
  }

  /**
   * What ws_write() puts on the stream is received as the same message by a reader whose frame
   * buffer is not smaller, and nothing of what follows is touched.
   */
  lemma RoundTrip(fs: seq<Frame>, ws: Websocket, size: nat, room: nat, rest: seq<Byte>)
    requires fs != [] && Message(fs, ws, true) && ws.size <= size && |Payloads(fs)| <= room
    ensures AllValid(fs) && Received(EncodeAll(fs) + rest, room, size) == Some((Payloads(fs), rest))
  {
    hide Encode, EncodeAll, Received, FrameOk;
    MessageIs(fs, ws, true);
    ReceiveFragments(fs, rest, room, size);
  }

  /** A message fits into one frame, or there is room for some of it in a frame. */
  predicate RoomFor(ws: Websocket, n: nat) {
    n > 0 ==> HeaderLen(n, ws.mask) < ws.size
  }

  /** How much of the remaining n bytes the next frame takes. */
  function ChunkLen(ws: Websocket, n: nat): int {
    var room := ws.size - HeaderLen(n, ws.mask);
    if n > room then room else n
  }

  /** A round gets on with the message exactly if there is room for it; then there is in all rounds to come. */
  lemma Progress(ws: Websocket, n: nat)
    requires n > 0
    ensures ChunkLen(ws, n) > 0 <==> RoomFor(ws, n)
    ensures ChunkLen(ws, n) == 0 <==> HeaderLen(n, ws.mask) == ws.size
    ensures ChunkLen(ws, n) <= n
    ensures ChunkLen(ws, n) >= 0 ==> HeaderLen(ChunkLen(ws, n), ws.mask) + ChunkLen(ws, n) <= ws.size
    ensures ChunkLen(ws, n) > 0 ==> RoomFor(ws, n - ChunkLen(ws, n))
  {
  }

  lemma HeaderLenIs(ws: Websocket, n: nat)
    ensures HeaderLen(n, ws.mask) == (if ws.mask then 4 else 0) + 2 + LenBytes(n)
    ensures RoomFor(ws, n) && n > 0 ==> HeaderLen(n, ws.mask) < ws.size
    ensures var room := ws.size - HeaderLen(n, ws.mask); ChunkLen(ws, n) == if n > room then room else n
  {
  }

  lemma FrameIs(ws: Websocket, fin: bool, op: nat, key: nat, chunk: seq<Byte>)
    requires op < 16 && |chunk| < 0x8000_0000 && key < Pow256(4) && ws.mask == (key != 0)
    ensures var f := Frame(fin, op, ws.mask, key, chunk);
      f.Valid() && |Encode(f)| == HeaderLen(|chunk|, ws.mask) + |chunk| > 0
  {
    assert Pow256(4) == 0x1_0000_0000 && Pow256(7) > 0x8000_0000 by {
      PowValues();
      assert Pow256(6) >= 0x1_0000_0000;
    }
  }

  lemma Pow4()
    ensures 0 < Pow256(4)
  {
  }

  lemma NoFrames(ws: Websocket, done: bool)
    ensures Message([], ws, done) && AllValid([]) && Payloads([]) == [] && EncodeAll([]) == []
    ensures forall n :: Full([], ws, n)
  {
  }

  /** The payload of the frame is copied behind the place of its header, and masked if necessary. */
  method PutPayload(ws: Websocket, wf: WsFrame, chunk: seq<Byte>)
    requires wf.hlen + |chunk| <= wf.buf.Length && wf.plen == |chunk|
    modifies wf`mask, wf.buf
    ensures wf.mask < Pow256(4) && ws.mask == (wf.mask != 0)
    ensures wf.buf[wf.hlen..wf.hlen + wf.plen] == Masked(chunk, wf.mask)
  {
    hide *;
    MaskZero(chunk);
    Pow4();
    Copy(wf.buf, wf.hlen, chunk);
    assert wf.buf[wf.hlen..wf.hlen + wf.plen] == chunk;
    if ws.mask {
      wf.mask := RandomMask();
      Mask(wf.buf, wf.hlen, wf.plen, wf.mask);
    } else {
      wf.mask := 0;
    }
  }

  /**
   * One round of the loop of ws_write(): the next frame, for the size bytes from wlen on, is
   * written; -1 does not happen. The frame is empty if the buffer has room for its header only.
   */
  method WriteNext(ws: Websocket, st: Stream, wf: WsFrame, buf: seq<Byte>, wlen: nat) returns (r: int, ghost f: Frame)
    requires wf.buf.Length == ws.size && wlen < |buf| < 0x8000_0000 && HeaderLen(|buf| - wlen, ws.mask) <= ws.size
    modifies st, wf, wf.buf
    ensures r > 0 && wlen + wf.plen <= |buf| && wf.plen == ChunkLen(ws, |buf| - wlen)
    ensures f.Valid() && f.payload == buf[wlen..wlen + wf.plen] && st.data == old(st.data) + Encode(f)
    ensures |Encode(f)| <= ws.size && f.op == (if wlen == 0 then ws.op % 16 else 0)
    ensures f.masked == ws.mask == (f.key != 0) && f.fin == (wlen + wf.plen == |buf|)
    ensures f.fin || HeaderLen(|buf| - wlen, ws.mask) + |f.payload| == ws.size
  {
    hide *;
    f := Frame(false, 0, false, 0, []);
    var size := |buf| - wlen;
    ghost var op := if wlen != 0 then 0 else ws.op % 16;
    wf.op := if wlen != 0 then 0 else ws.op % 16;
    HeaderLenIs(ws, size);
    var len := size;
    wf.hlen := (if ws.mask then 4 else 0) + 2;
    var hlen := LenBytes(size);
    if len > ws.size - wf.hlen - hlen {
      len := ws.size - wf.hlen - hlen;
    } else {
      wf.op := wf.op + 128;
    }
    Progress(ws, size);
    HeaderLenIs(ws, len);
    wf.plen := len;
    wf.hlen := wf.hlen + LenBytes(wf.plen);
    var chunk := buf[wlen..wlen + wf.plen];
    if wf.hlen + wf.plen > ws.size {
      return -1, f;
    }
    PutPayload(ws, wf, chunk);
    FrameIs(ws, len == size, op, wf.mask, chunk);
    f := Frame(len == size, op, ws.mask, wf.mask, chunk);
    r := WriteFrame(st, wf, f);
  }

  /** ws_write(). */
  method Write(ws: Websocket, st: Stream, buf: seq<Byte>) returns (wlen: int, ghost fs: seq<Frame>)
    requires RoomFor(ws, |buf|) && |buf| < 0x8000_0000
    modifies st
    ensures wlen == |buf| && Payloads(fs) == buf && (fs == [] <==> buf == [])
    ensures Message(fs, ws, true) && AllValid(fs) && Full(fs, ws, |buf|)
    ensures st.data == old(st.data) + EncodeAll(fs)
  {
    hide *;
    var wf := new WsFrame(ws.size);
    var size := |buf|;
    wlen, fs := 0, [];
    NoFrames(ws, size == 0);
    while size > 0
      invariant fresh(wf) && fresh(wf.buf) && wf.buf.Length == ws.size
      invariant 0 <= wlen && 0 <= size && wlen + size == |buf| && RoomFor(ws, size)
      invariant Message(fs, ws, size == 0) && AllValid(fs) && Payloads(fs) == buf[..wlen] && (fs == [] <==> wlen == 0)
      invariant st.data == old(st.data) + EncodeAll(fs) && Full(fs, ws, |buf|)
    {
      var n;
      ghost var f;
      HeaderLenIs(ws, size);
      Progress(ws, size);
      n, f := WriteNext(ws, st, wf, buf, wlen);
      if n == -1 {
        return -1, fs;
      }
      OneMoreFrame(fs, f, ws);
      EncodeAllAppend(fs, f);
      FullAppend(fs, f, ws, |buf|);
      fs := fs + [f];
      size := size - wf.plen;
      assert buf[..wlen] + buf[wlen..wlen + wf.plen] == buf[..wlen + wf.plen];
      wlen := wlen + wf.plen;
    }
  }

  /**
   * Where the buffer has room for the header only, ws_write() does not come to an end: however
   * many rounds it has gone through, it has written as many empty frames and nothing of the message.
   */
  method WriteEmptyFrames(ws: Websocket, st: Stream, buf: seq<Byte>, rounds: nat)
    returns (size: int, ghost fs: seq<Frame>)
    requires 0 < |buf| < 0x8000_0000 && HeaderLen(|buf|, ws.mask) == ws.size
    modifies st
    ensures size == |buf| && |fs| == rounds && AllValid(fs) && st.data == old(st.data) + EncodeAll(fs)
    ensures forall i :: 0 <= i < |fs| ==> fs[i].payload == [] && !fs[i].fin
  {
    hide *;
    var wf := new WsFrame(ws.size);
    size, fs := |buf|, [];
    NoFrames(ws, false);
    Progress(ws, |buf|);
    for k := 0 to rounds
      invariant fresh(wf) && fresh(wf.buf) && wf.buf.Length == ws.size && size == |buf| && |fs| == k
      invariant AllValid(fs) && st.data == old(st.data) + EncodeAll(fs)
      invariant forall i :: 0 <= i < |fs| ==> fs[i].payload == [] && !fs[i].fin
    {
      var n;
      ghost var f;
      n, f := WriteNext(ws, st, wf, buf, |buf| - size);
      EncodeAllAppend(fs, f);
      fs := fs + [f];
      size := size - wf.plen;
    }
  }

  /** A non-empty message that one end writes is what the other end reads, however the stream is cut. */
  method Transfer(from: Websocket, to: Websocket, st: Stream, msg: seq<Byte>, buf: array<Byte>, room: nat)
    returns (rlen: int)
    requires 0 < |msg| < 0x8000_0000 && RoomFor(from, |msg|) && from.size <= to.size
    requires |msg| <= room <= buf.Length && st.data == []
    modifies st, buf
    ensures rlen == |msg| && buf[..rlen] == msg && st.data == []
  {
    hide *;
    var wlen, fs := Write(from, st, msg);
    RoundTrip(fs, from, to.size, room, []);
    assert st.data == EncodeAll(fs) + [];
    rlen := Read(to, st, buf, room);
  }
}
