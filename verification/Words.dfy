/** Fixed-width integers, byte order and the big-endian word codec of the Modbus wire format
    (MODBUS Application Protocol Specification V1.1b3, section 4.2). The host is little-endian. */
module Words {

  type uint8 = x: int | 0 <= x < 0x100
  type uint16 = x: int | 0 <= x < 0x1_0000
  type int16 = x: int | -0x8000 <= x < 0x8000

  const INT16_MAX: int16 := 0x7fff
  const INT16_MIN: int16 := -0x8000

  /** Powers of two, for bit positions. */
  function Pow2(k: nat): (p: nat)
    ensures p >= 1
  {
    if k == 0 then 1 else 2 * Pow2(k - 1)
  }

  /** Bitwise or of two `width`-bit numbers, one bit at a time from the bottom. */
  function BitOr(width: nat, a: nat, b: nat): (r: nat)
    requires a < Pow2(width) && b < Pow2(width)
    ensures r < Pow2(width)
  {
    if width == 0 then 0
    else 2 * BitOr(width - 1, a / 2, b / 2) + (if a % 2 == 1 || b % 2 == 1 then 1 else 0)
  }

  lemma {:induction false} BitOrZero(width: nat, a: nat)
    requires a < Pow2(width)
    ensures BitOr(width, a, 0) == a
  {
    if width == 0 {
    } else {
      BitOrZero(width - 1, a / 2);
    }
  }

  /** Or-ing numbers that share no bit position adds them. */
  lemma {:induction false} BitOrDisjoint(width: nat, k: nat, h: nat, l: nat)
    requires k <= width && l < Pow2(k) && h * Pow2(k) < Pow2(width)
    ensures Pow2(k) <= Pow2(width) && BitOr(width, h * Pow2(k), l) == h * Pow2(k) + l
  {
    Pow2Monotone(k, width);
    if k == 0 {
      BitOrZero(width, h);
    } else {
      assert h * Pow2(k) == 2 * (h * Pow2(k - 1));
      BitOrDisjoint(width - 1, k - 1, h, l / 2);
    }
  }

  lemma {:induction false} Pow2Monotone(k: nat, width: nat)
    requires k <= width
    ensures Pow2(k) <= Pow2(width)
  {
    if k < width {
      Pow2Monotone(k, width - 1);
    }
  }

  lemma Pow2Sixteen()
    ensures Pow2(8) == 0x100 && Pow2(16) == 0x1_0000
  {
    assert Pow2(4) == 16;
    assert Pow2(8) == 0x100;
    assert Pow2(12) == 0x1000;
  }

  /** `a | b` on `uint16_t`. */
  function Or16(a: uint16, b: uint16): uint16 {
    Pow2Sixteen();
    BitOr(16, a, b)
  }

  /** Byte swap: both `htobe16` and `be16toh` on a little-endian host. */
  function Swap16(w: uint16): uint16 {
    w % 0x100 * 0x100 + w / 0x100
  }

  /** The first and second byte sent for a register, as the callbacks compute them. */
  function FirstByte(w: uint16): uint8 {
    Swap16(w) % 0x100
  }

  function SecondByte(w: uint16): uint8 {
    Swap16(w) / 0x100
  }

  /** The word assembled from two received bytes: store the first, then or in the second. */
  function AssembleWord(first: uint8, second: uint8): uint16 {
    Or16(Swap16(first), Swap16(second * 0x100))
  }

  /** The value of two bytes on the wire, the most significant one first. */
  function WireValue(first: uint8, second: uint8): uint16 {
    first * 0x100 + second
  }

  /** Section 4.2: the most significant byte travels first, in both directions. */
  lemma BigEndian(w: uint16)
    ensures FirstByte(w) == w / 0x100 && SecondByte(w) == w % 0x100
  {
    var h, l := w / 0x100, w % 0x100;
    assert Swap16(w) == l * 0x100 + h;
  }

  lemma SwapByte(b: uint8)
    ensures Swap16(b) == b * 0x100 && Swap16(b * 0x100) == b
  {
  }

  lemma AssembleBigEndian(first: uint8, second: uint8)
    ensures AssembleWord(first, second) == WireValue(first, second)
  {
    Pow2Sixteen();
    SwapByte(first);
    SwapByte(second);
    BitOrDisjoint(16, 8, first, second);
  }

  /** Reinterpretation of a 16-bit pattern as signed, and back. */
  function AsUint16(x: int16): uint16 {
    if x < 0 then x + 0x1_0000 else x
  }

  function AsInt16(w: uint16): int16 {
    if w < 0x8000 then w else w - 0x1_0000
  }

  lemma SignedViewInverse(x: int16, w: uint16)
    ensures AsInt16(AsUint16(x)) == x && AsUint16(AsInt16(w)) == w
  {
  }

  /** The bytes sent for a run of registers. */
  function EncodeWords(ws: seq<uint16>): (bytes: seq<uint8>)
    ensures |bytes| == 2 * |ws|
  {
    if ws == [] then [] else [FirstByte(ws[0]), SecondByte(ws[0])] + EncodeWords(ws[1..])
  }

  lemma {:induction false} EncodeConcat(a: seq<uint16>, b: seq<uint16>)
    ensures EncodeWords(a + b) == EncodeWords(a) + EncodeWords(b)
  {
    if a == [] {
      assert a + b == b;
    } else {
      assert (a + b)[1..] == a[1..] + b;
      EncodeConcat(a[1..], b);
    }
  }

  lemma {:induction false} EncodePair(ws: seq<uint16>, k: nat)
    requires k < |ws|
    ensures EncodeWords(ws)[2 * k] == FirstByte(ws[k])
    ensures EncodeWords(ws)[2 * k + 1] == SecondByte(ws[k])
  {
    if k > 0 {
      EncodePair(ws[1..], k - 1);
    }
  }

  /** Register `k` of a run occupies bytes `2k` and `2k + 1`, most significant byte first. */
  lemma EncodeAt(ws: seq<uint16>, k: nat)
    requires k < |ws|
    ensures WireValue(EncodeWords(ws)[2 * k], EncodeWords(ws)[2 * k + 1]) == ws[k]
  {
    EncodePair(ws, k);
    BigEndian(ws[k]);
  }

  /** The words a receiver assembles from big-endian bytes. */
  function DecodeWords(bytes: seq<uint8>): (ws: seq<uint16>)
    requires |bytes| % 2 == 0
    ensures |ws| == |bytes| / 2
  {
    if bytes == [] then [] else [AssembleWord(bytes[0], bytes[1])] + DecodeWords(bytes[2..])
  }

  lemma AssembledWord(w: uint16)
    ensures AssembleWord(FirstByte(w), SecondByte(w)) == w
  {
    BigEndian(w);
    AssembleBigEndian(FirstByte(w), SecondByte(w));
  }

  /** The codec is a bijection between registers and even-length byte strings. */
  lemma {:induction false} DecodeEncode(ws: seq<uint16>)
    ensures DecodeWords(EncodeWords(ws)) == ws
  {
    if ws != [] {
      var bytes := EncodeWords(ws);
      assert bytes[2..] == EncodeWords(ws[1..]);
      DecodeEncode(ws[1..]);
      AssembledWord(ws[0]);
    }
  }

  lemma AssembledBytes(first: uint8, second: uint8)
    ensures FirstByte(AssembleWord(first, second)) == first
    ensures SecondByte(AssembleWord(first, second)) == second
  {
    BigEndian(AssembleWord(first, second));
    AssembleBigEndian(first, second);
  }

  lemma {:induction false} EncodeDecode(bytes: seq<uint8>)
    requires |bytes| % 2 == 0
    ensures EncodeWords(DecodeWords(bytes)) == bytes
  {
    if bytes != [] {
      var ws := DecodeWords(bytes);
      assert ws[1..] == DecodeWords(bytes[2..]);
      AssembledBytes(bytes[0], bytes[1]);
      EncodeDecode(bytes[2..]);
    }
  }

  lemma {:induction false} DecodeAt(bytes: seq<uint8>, k: nat)
    requires |bytes| % 2 == 0 && k < |bytes| / 2
    ensures DecodeWords(bytes)[k] == WireValue(bytes[2 * k], bytes[2 * k + 1])
  {
    if k == 0 {
      AssembleBigEndian(bytes[0], bytes[1]);
    } else {
      DecodeAt(bytes[2..], k - 1);
      assert bytes[2..][2 * (k - 1)] == bytes[2 * k];
      assert bytes[2..][2 * (k - 1) + 1] == bytes[2 * k + 1];
    }
  }
}
