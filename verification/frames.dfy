/**
 WebSocket frame bytes (RFC 6455 section 5.2).

 Two functions model the server's own code: `Unmask`, the decoder the server
 applies to every received buffer, and `SendBytes`, the bytes `Websocket::send`
 writes. Next to them stands an independent reading of RFC 6455 frames:
 `Serialize` builds a frame with the standard 7-, 16- or 64-bit length and an
 optional masking key, and `Parse` reads one back. The lemmas relate the
 server's functions to that reading.

 Octets are integers in [0, 256); the bit operations the wire format needs
 are written as arithmetic: bit 7 is `b >= 128`, the low seven bits are
 `b % 128`, the low four bits are `b % 16`, and exclusive or is `Xor`.
 */
module Frames {
  import opened Php

  /** One octet. */
  newtype Byte = x: int | 0 <= x < 256

  type Bytes = seq<Byte>

  /** 2^64: payload lengths must stay below it to fit the 64-bit extended length. */
  const MaxPayload: nat := 0x1_0000_0000_0000_0000

  /** Byte 0 of every frame the server sends (0x81): FIN set, opcode 0x1 (text). */
  const FinText: Byte := 129

  // ---------------------------------------------------------------------------
  // Exclusive or

  function Pow2(bits: nat): (p: nat)
    ensures 1 <= p
  {
    if bits == 0 then 1 else 2 * Pow2(bits - 1)
  }

  /** Bitwise exclusive or of the low `bits` bits of `a` and `b`, least significant bit first. */
  function XorBits(a: nat, b: nat, bits: nat): (r: nat)
    requires a < Pow2(bits) && b < Pow2(bits)
    ensures r < Pow2(bits)
  {
    if bits == 0 then 0
    else 2 * XorBits(a / 2, b / 2, bits - 1) + (a % 2 + b % 2) % 2
  }

  lemma HalveBit(q: nat, c: nat)
    requires c < 2
    ensures (2 * q + c) / 2 == q && (2 * q + c) % 2 == c
  {
  }

  /** One bit of exclusive or, applied twice with the same operand bit. */
  lemma BitTwice(x: nat, y: nat)
    requires x < 2 && y < 2
    ensures ((x + y) % 2 + y) % 2 == x
  {
  }

  /** One unfolding of `XorBits` for operands built from their halves. */
  lemma XorBitsHalves(q: nat, c: nat, p: nat, d: nat, bits: nat)
    requires 0 < bits && c < 2 && d < 2
    requires 2 * q + c < Pow2(bits) && 2 * p + d < Pow2(bits)
    ensures q < Pow2(bits - 1) && p < Pow2(bits - 1)
    ensures XorBits(2 * q + c, 2 * p + d, bits) == 2 * XorBits(q, p, bits - 1) + (c + d) % 2
  {
    HalveBit(q, c);
    HalveBit(p, d);
  }

  /** Splitting off the low bit of a value below 2^bits. */
  lemma HalveBound(a: nat, bits: nat)
    requires 0 < bits && a < Pow2(bits)
    ensures a % 2 < 2 && a == 2 * (a / 2) + a % 2
  {
  }

  /** Exclusive or with the same operand undoes itself, bit by bit. */
  lemma {:induction false} XorBitsTwice(a: nat, b: nat, bits: nat)
    requires a < Pow2(bits) && b < Pow2(bits)
    ensures XorBits(XorBits(a, b, bits), b, bits) == a
  {
    if bits > 0 {
      HalveBound(a, bits);
      HalveBound(b, bits);
      var q, c, p, d := a / 2, a % 2, b / 2, b % 2;
      XorBitsHalves(q, c, p, d, bits);
      var r, e := XorBits(q, p, bits - 1), (c + d) % 2;
      XorBitsHalves(r, e, p, d, bits);
      XorBitsTwice(q, p, bits - 1);
      BitTwice(c, d);
    }
  }

  /** The `^` of two octets. */
  function Xor(a: Byte, b: Byte): Byte
  {
    assert Pow2(8) == 256;
    XorBits(a as nat, b as nat, 8) as Byte
  }

  lemma XorTwice(a: Byte, k: Byte)
    ensures Xor(Xor(a, k), k) == a
  {
    assert Pow2(8) == 256;
    XorBitsTwice(a as nat, k as nat, 8);
  }

  // ---------------------------------------------------------------------------
  // Masking (RFC 6455 section 5.3)

  /** XORs byte i of `data` with byte i mod 4 of the masking key. */
  function Mask(data: Bytes, key: Bytes): (r: Bytes)
    requires |key| == 4
    ensures |r| == |data|
    ensures forall i :: 0 <= i < |r| ==> r[i] == Xor(data[i], key[i % 4])
  {
    seq(|data|, i requires 0 <= i < |data| => Xor(data[i], key[i % 4]))
  }

  /** Masking is its own inverse. */
  lemma MaskTwice(data: Bytes, key: Bytes)
    requires |key| == 4
    ensures Mask(Mask(data, key), key) == data
  {
    var r := Mask(Mask(data, key), key);
    forall i | 0 <= i < |data|
      ensures r[i] == data[i]
    {
      XorTwice(data[i], key[i % 4]);
    }
  }

  // ---------------------------------------------------------------------------
  // Big-endian integers, as the extended payload length is written

  function Pow256(width: nat): (p: nat)
    ensures 1 <= p
  {
    if width == 0 then 1 else 256 * Pow256(width - 1)
  }

  /** The low `width` bytes of `n`, most significant first. */
  function BigEndian(n: nat, width: nat): (r: Bytes)
    ensures |r| == width
  {
    if width == 0 then [] else BigEndian(n / 256, width - 1) + [(n % 256) as Byte]
  }

  function FromBigEndian(b: Bytes): nat
  {
    if |b| == 0 then 0 else FromBigEndian(b[..|b| - 1]) * 256 + b[|b| - 1] as nat
  }

  /** Writing a number that fits in `width` bytes and reading it back gives the number. */
  lemma {:induction false} BigEndianRoundTrip(n: nat, width: nat)
    requires n < Pow256(width)
    ensures FromBigEndian(BigEndian(n, width)) == n
  {
    if width > 0 {
      var b := BigEndian(n, width);
      var q, d := n / 256, n % 256;
      assert n == q * 256 + d;
      assert q < Pow256(width - 1);
      assert b[..|b| - 1] == BigEndian(q, width - 1);
      BigEndianRoundTrip(q, width - 1);
    }
  }

  // ---------------------------------------------------------------------------
  // The standard frame layout

  /** A frame as RFC 6455 section 5.2 describes it; `key` is present iff the MASK bit is set. */
  datatype Frame = Frame(fin: bool, opcode: Byte, key: Option<Bytes>, payload: Bytes)

  /** Bytes of extended payload length that follow the 7-bit length `marker`. */
  function ExtendedLengthSize(marker: Byte): nat
  {
    if marker == 126 then 2 else if marker == 127 then 8 else 0
  }

  /** Byte 1 and the extended length for a payload of `n` bytes, using the shortest form. */
  function LengthHeader(n: nat, masked: bool): (r: Bytes)
    requires n < MaxPayload
    ensures 1 <= |r| && |r| == 1 + ExtendedLengthSize(r[0] % 128)
    ensures (r[0] >= 128) == masked
  {
    var maskBit: Byte := if masked then 128 else 0;
    if n < 126 then
      [n as Byte + maskBit]
    else if n < 0x1_0000 then
      [126 + maskBit] + BigEndian(n, 2)
    else
      [127 + maskBit] + BigEndian(n, 8)
  }

  /** The wire bytes of a single frame with first byte `b0`; masked iff `key` is present. */
  function Serialize(b0: Byte, key: Option<Bytes>, payload: Bytes): (r: Bytes)
    requires |payload| < MaxPayload
    requires key.Some? ==> |key.value| == 4
  {
    [b0] + LengthHeader(|payload|, key.Some?)
    + (match key
       case None => payload
       case Some(k) => k + Mask(payload, k))
  }

  /**
   Reads exactly one frame occupying all of `b`: `None` when the bytes are too
   short for the header or the declared payload length does not match the
   bytes present.
   */
  function Parse(b: Bytes): (r: Option<Frame>)
    ensures r.Some? ==> 2 <= |b|
    ensures r.Some? ==> r.value.fin == (b[0] >= 128) && r.value.opcode == b[0] % 16
    ensures r.Some? ==> (r.value.key.Some? <==> b[1] >= 128)
  {
    if |b| < 2 then None
    else
      var marker := b[1] % 128;
      var masked := b[1] >= 128;
      var ext := ExtendedLengthSize(marker);
      if |b| < 2 + ext then None
      else
        var declared := if ext == 0 then marker as nat else FromBigEndian(b[2 .. 2 + ext]);
        var dataStart := 2 + ext + (if masked then 4 else 0);
        if |b| != dataStart + declared then None
        else if masked then
          var k := b[2 + ext .. dataStart];
          Some(Frame(b[0] >= 128, b[0] % 16, Some(k), Mask(b[dataStart..], k)))
        else
          Some(Frame(b[0] >= 128, b[0] % 16, None, b[dataStart..]))
  }

  lemma LengthHeaderParts(n: nat, masked: bool)
    requires n < MaxPayload
    ensures var h := LengthHeader(n, masked);
            var ext := ExtendedLengthSize(h[0] % 128);
            (ext == 0 ==> (h[0] % 128) as nat == n)
            && (ext != 0 ==> FromBigEndian(h[1..]) == n)
  {
    var h := LengthHeader(n, masked);
    if n < 126 {
    } else if n < 0x1_0000 {
      assert h[1..] == BigEndian(n, 2);
      BigEndianRoundTrip(n, 2);
    } else {
      assert h[1..] == BigEndian(n, 8);
      assert Pow256(8) == MaxPayload;
      BigEndianRoundTrip(n, 8);
    }
  }

  /** The header `Serialize` writes announces the payload's length and the key's presence. */
  lemma SerializeHeader(b0: Byte, key: Option<Bytes>, payload: Bytes)
    requires |payload| < MaxPayload
    requires key.Some? ==> |key.value| == 4
    ensures var b := Serialize(b0, key, payload);
            var ext := ExtendedLengthSize(b[1] % 128);
            && 2 + ext <= |b|
            && b[0] == b0
            && (b[1] >= 128) == key.Some?
            && (if ext == 0 then (b[1] % 128) as nat else FromBigEndian(b[2 .. 2 + ext])) == |payload|
            && b[2 + ext ..] == (match key case None => payload case Some(k) => k + Mask(payload, k))
  {
    var b := Serialize(b0, key, payload);
    var h := LengthHeader(|payload|, key.Some?);
    LengthHeaderParts(|payload|, key.Some?);
    var ext := ExtendedLengthSize(h[0] % 128);
    assert b[1] == h[0];
    assert b[2 .. 2 + ext] == h[1..];
  }

  /** Every frame `Serialize` builds reads back as the same frame. */
  lemma ParseSerialize(b0: Byte, key: Option<Bytes>, payload: Bytes)
    requires |payload| < MaxPayload
    requires key.Some? ==> |key.value| == 4
    ensures Parse(Serialize(b0, key, payload)) == Some(Frame(b0 >= 128, b0 % 16, key, payload))
  {
    var b := Serialize(b0, key, payload);
    SerializeHeader(b0, key, payload);
    var ext := ExtendedLengthSize(b[1] % 128);
    var body := b[2 + ext ..];
    match key {
      case None =>
        assert b[2 + ext ..] == payload;
      case Some(k) =>
        var masked := Mask(payload, k);
        assert body == k + masked;
        assert body[..4] == k && body[4..] == masked;
        assert b[2 + ext .. 2 + ext + 4] == body[..4];
        assert b[2 + ext + 4 ..] == body[4..];
        MaskTwice(payload, k);
    }
  }

  // ---------------------------------------------------------------------------
  // The server's decoder, WebsocketServer::unmask

  /** `ord($payload[1]) & 127`; a missing byte 1 reads as "" and `ord("")` is 0. */
  function LengthMarker(p: Bytes): (m: Byte)
    ensures m < 128
    ensures |p| >= 2 ==> m == p[1] % 128
  {
    if |p| >= 2 then p[1] % 128 else 0
  }

  /**
   The decoder applied to every received buffer. It picks the masking key's
   offset from the 7-bit length marker alone and XORs everything after the
   key with it; nothing else of the header is looked at.
   */
  function Unmask(p: Bytes): (text: Bytes)
    ensures var keyAt := 2 + ExtendedLengthSize(LengthMarker(p));
            && |text| == (if |p| > keyAt + 4 then |p| - (keyAt + 4) else 0)
            && forall i :: 0 <= i < |text| ==> text[i] == Xor(p[keyAt + 4 + i], p[keyAt + i % 4])
  {
    var keyAt := KeyOffset(LengthMarker(p));
    var masks := Substr(p, keyAt, 4);
    var data := SubstrFrom(p, keyAt + 4);
    if |data| == 0 then [] else Mask(data, masks)
  }

  /**
   Where the decoder looks for the masking key: bytes 4-7 after marker 126,
   10-13 after marker 127, 2-5 otherwise; the data follows the key.
   */
  function KeyOffset(marker: Byte): (k: nat)
    ensures k == 2 + ExtendedLengthSize(marker)
  {
    if marker == 126 then 4 else if marker == 127 then 10 else 2
  }

  /** On a well-formed masked frame the server's decoder returns exactly the payload. */
  lemma UnmaskMaskedFrame(b: Bytes)
    requires Parse(b).Some? && Parse(b).value.key.Some?
    ensures Unmask(b) == Parse(b).value.payload
  {
    var f := Parse(b).value;
    var ext := ExtendedLengthSize(b[1] % 128);
    var k := b[2 + ext .. 2 + ext + 4];
    assert f.payload == Mask(b[2 + ext + 4 ..], k);
  }

  /** Round trip: a client frame masking payload P with key M decodes to P. */
  lemma UnmaskRoundTrip(b0: Byte, key: Bytes, payload: Bytes)
    requires |key| == 4 && |payload| < MaxPayload
    ensures Unmask(Serialize(b0, Some(key), payload)) == payload
  {
    ParseSerialize(b0, Some(key), payload);
    UnmaskMaskedFrame(Serialize(b0, Some(key), payload));
  }

  /**
   No validation: two buffers with the same 7-bit length marker and the same
   bytes from the masking key on decode identically, whatever byte 0 (FIN and
   opcode), the MASK bit and the extended length field hold, and whether or not
   the declared length matches the data.
   */
  lemma {:induction false} UnmaskIgnoresHeader(a: Bytes, b: Bytes)
    requires LengthMarker(a) == LengthMarker(b)
    requires var keyAt := 2 + ExtendedLengthSize(LengthMarker(a));
             SubstrFrom(a, keyAt) == SubstrFrom(b, keyAt)
    ensures Unmask(a) == Unmask(b)
  {
    var keyAt := KeyOffset(LengthMarker(a));
    SuffixParts(a, keyAt);
    SuffixParts(b, keyAt);
  }

  /** The key and the data the decoder takes from `p` depend only on `p` from `keyAt` on. */
  lemma SuffixParts(p: Bytes, keyAt: nat)
    ensures Substr(p, keyAt, 4) == Substr(SubstrFrom(p, keyAt), 0, 4)
    ensures SubstrFrom(p, keyAt + 4) == SubstrFrom(SubstrFrom(p, keyAt), 4)
  {
    var rest := SubstrFrom(p, keyAt);
    assert |Substr(p, keyAt, 4)| == |Substr(rest, 0, 4)|;
    assert |SubstrFrom(p, keyAt + 4)| == |SubstrFrom(rest, 4)|;
  }

  // ---------------------------------------------------------------------------
  // The server's encoder, Websocket::send

  /**
   The bytes `send($out)` writes: `chr(129) . chr(strlen($out)) . $out`. PHP's
   `chr` keeps the low 8 bits, so the length byte is the length mod 256.
   */
  function SendBytes(out: Bytes): (r: Bytes)
    ensures |r| == |out| + 2
    ensures r[0] == FinText && r[1] as nat == |out| % 256
    ensures r[2..] == out
  {
    [FinText, (|out| % 256) as Byte] + out
  }

  /** A short payload goes out as a valid unmasked FIN+text frame in the 7-bit layout. */
  lemma SendShortIsFrame(out: Bytes)
    requires |out| <= 125
    ensures SendBytes(out) == Serialize(FinText, None, out)
    ensures Parse(SendBytes(out)) == Some(Frame(true, 1, None, out))
    ensures LengthMarker(SendBytes(out)) as nat == |out| && ExtendedLengthSize(LengthMarker(SendBytes(out))) == 0
  {
    ParseSerialize(FinText, None, out);
  }

  /** A payload of 126 bytes or more never reads back as itself from what `send` writes. */
  lemma SendLongIsMisframed(out: Bytes)
    requires 126 <= |out|
    ensures Parse(SendBytes(out)) != Some(Frame(true, 1, None, out))
  {
  }

  /** Counterexample: sending 200 bytes announces a masked 72-byte payload. */
  lemma SendTwoHundredBytes()
    ensures var b := SendBytes(seq(200, _ => 0 as Byte));
            b[1] >= 128 && b[1] % 128 == 72 && Parse(b) == None
  {
    var b := SendBytes(seq(200, _ => 0 as Byte));
    assert b[1] == 200;
  }

  /**
   What `send` evidently means to write: one unmasked FIN+text frame whose
   length uses the 16- or 64-bit extended form once it exceeds 125.
   */
  function EncodeFrame(out: Bytes): (r: Bytes)
    requires |out| < MaxPayload
    ensures Parse(r) == Some(Frame(true, 1, None, out))
    ensures |out| <= 125 ==> r == SendBytes(out)
  {
    ParseSerialize(FinText, None, out);
    if |out| <= 125 then
      SendShortIsFrame(out);
      Serialize(FinText, None, out)
    else
      Serialize(FinText, None, out)
  }
}
