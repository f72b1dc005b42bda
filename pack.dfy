/** The colour packing of cpypck (sled/out_udp.c:218-228): every 3-byte
    RGB pixel becomes one big-endian 16-bit word holding the top five bits
    of each channel in the layout 0rrrrrgggggbbbbb. */
module Pack {
  import opened Protocol

  datatype RGB = RGB(red: byte, green: byte, blue: byte)

  /** Bitwise OR of two naturals, bit by bit from the least significant. */
  function Or(a: nat, b: nat): nat
    decreases a + b
  {
    if a == 0 && b == 0 then 0
    else 2 * Or(a / 2, b / 2) + (if a % 2 == 1 || b % 2 == 1 then 1 else 0)
  }

  function Pow2(k: nat): (p: nat)
    ensures p >= 1
  {
    if k == 0 then 1 else 2 * Pow2(k - 1)
  }

  /** The value h of cpypck: `((s[0] >> 3) << 10) | ((s[1] >> 3) << 5) |
      (s[2] >> 3)`, evaluated on C ints (a right shift of a non-negative
      value is division by a power of two, a left shift multiplication)
      and stored into a uint16_t. */
  function Word(r: byte, g: byte, b: byte): nat
  {
    Or(Or((r as nat / 8) * 1024, (g as nat / 8) * 32), b as nat / 8) % 0x10000
  }

  /** t[0] = h >> 8, stored into a uint8_t. */
  function HighByte(h: nat): byte
  {
    (h / 256 % 256) as byte
  }

  /** t[1] = h & 0xff: the low eight bits. */
  function LowByte(h: nat): byte
  {
    (h % 256) as byte
  }

  /** The 5-5-5 value of a pixel: the top five bits of red, green and
      blue, as digits of base 32. */
  function Layout(r: byte, g: byte, b: byte): (v: nat)
    ensures v < 0x8000
  {
    (r as nat / 8) * 1024 + (g as nat / 8) * 32 + b as nat / 8
  }

  /** The two bytes stored for one pixel: its 5-5-5 value, big-endian. */
  function PackPixel(r: byte, g: byte, b: byte): (byte, byte)
  {
    (HighByte(Layout(r, g, b)), LowByte(Layout(r, g, b)))
  }

  /** Byte i of a packed run: the high byte of pixel i/2's word when i
      is even, its low byte when i is odd. */
  function PackedByte(s: seq<byte>, i: nat): byte
    requires i < 2 * (|s| / 3)
  {
    var p := i / 2;
    assert 3 * p + 3 <= |s|;
    var word := PackPixel(s[3 * p], s[3 * p + 1], s[3 * p + 2]);
    if i % 2 == 0 then word.0 else word.1
  }

  /** The packed image of a run of source bytes: one word per complete
      pixel, in order; a trailing partial pixel is not encoded. */
  function Packed(s: seq<byte>): (t: seq<byte>)
    ensures |t| == 2 * (|s| / 3)
  {
    seq(2 * (|s| / 3), i requires 0 <= i < 2 * (|s| / 3) => PackedByte(s, i))
  }

  /** A channel with its low three bits cleared: what survives the
      packing. */
  function Coarse(v: byte): byte
  {
    v - v % 8
  }

  /** The reference inverse of PackPixel: reads a packed word back as a
      colour whose channels keep their top five bits. It states the
      round trip of a pixel; no decoder of this kind is part of the model. */
  function Unpack(hi: byte, lo: byte): RGB
  {
    var w := hi as nat * 256 + lo as nat;
    RGB(((w / 1024) % 32 * 8) as byte, ((w / 32) % 32 * 8) as byte, (w % 32 * 8) as byte)
  }

  /** OR-ing a value shifted left by k with one below 2^k is adding
      them: the fields of h occupy disjoint bits. */
  lemma {:induction false} OrDisjoint(a: nat, b: nat, k: nat)
    requires b < Pow2(k)
    ensures Or(a * Pow2(k), b) == a * Pow2(k) + b
    decreases k
  {
    if k == 0 {
      OrZero(a);
    } else {
      var x := a * Pow2(k - 1);
      assert a * Pow2(k) == 2 * x;
      OrDisjoint(a, b / 2, k - 1);
      OrStep(x, b);
    }
  }

  lemma {:induction false} OrZero(a: nat)
    ensures Or(a, 0) == a
    decreases a
  {
    if a > 0 {
      OrZero(a / 2);
    }
  }

  lemma OrStep(x: nat, b: nat)
    ensures Or(2 * x, b) == 2 * Or(x, b / 2) + b % 2
  {
  }

  /** cpypck's shifts and ors compute the 5-5-5 layout. */
  lemma WordIsLayout(r: byte, g: byte, b: byte)
    ensures Word(r, g, b) == Layout(r, g, b)
  {
    FieldsOr(r as nat / 8, g as nat / 8, b as nat / 8);
  }

  /** Three 5-bit fields shifted to bits 10, 5 and 0 do not overlap, so
      OR-ing them adds them. */
  lemma FieldsOr(x: nat, y: nat, z: nat)
    requires x < 32 && y < 32 && z < 32
    ensures Or(Or(x * 1024, y * 32), z) == x * 1024 + y * 32 + z
  {
    Powers();
    OrShifted(x, y * 32, 1024, 10);
    OrShifted(x * 32 + y, z, 32, 5);
    assert (x * 32 + y) * 32 == x * 1024 + y * 32;
  }

  lemma Powers()
    ensures Pow2(5) == 32 && Pow2(10) == 1024
  {
  }

  /** OrDisjoint with the power of two given as a number. */
  lemma OrShifted(a: nat, b: nat, p: nat, k: nat)
    requires p == Pow2(k) && b < p
    ensures Or(a * p, b) == a * p + b
  {
    OrDisjoint(a, b, k);
  }

  /** The bytes cpypck stores for a pixel are PackPixel's, and the high
      byte stays below 0x80 (bit 15 of h is never set). */
  lemma WordBytes(r: byte, g: byte, b: byte)
    ensures (HighByte(Word(r, g, b)), LowByte(Word(r, g, b))) == PackPixel(r, g, b)
    ensures HighByte(Word(r, g, b)) < 0x80
    ensures HighByte(Word(r, g, b)) as int * 256 + LowByte(Word(r, g, b)) as int == Word(r, g, b)
  {
    WordIsLayout(r, g, b);
    ByteSplit(Layout(r, g, b));
  }

  /** A 15-bit value is its high byte times 256 plus its low byte. */
  lemma ByteSplit(v: nat)
    requires v < 0x8000
    ensures HighByte(v) < 0x80
    ensures HighByte(v) as int * 256 + LowByte(v) as int == v
  {
    assert v / 256 < 0x80;
  }

  /** Unpacking a packed pixel gives the source colour with the low three
      bits of every channel cleared. */
  lemma UnpackPackPixel(r: byte, g: byte, b: byte)
    ensures Unpack(PackPixel(r, g, b).0, PackPixel(r, g, b).1) == RGB(Coarse(r), Coarse(g), Coarse(b))
  {
    var t := PackPixel(r, g, b);
    ByteSplit(Layout(r, g, b));
    assert t.0 as nat * 256 + t.1 as nat == Layout(r, g, b);
    Digits(r as nat / 8, g as nat / 8, b as nat / 8);
  }

  /** A value written with three base-32 digits reads them back. */
  lemma Digits(x: nat, y: nat, z: nat)
    requires x < 32 && y < 32 && z < 32
    ensures (x * 1024 + y * 32 + z) / 1024 % 32 == x
    ensures (x * 1024 + y * 32 + z) / 32 % 32 == y
    ensures (x * 1024 + y * 32 + z) % 32 == z
  {
    var w := x * 1024 + y * 32 + z;
    assert w == x * 1024 + (y * 32 + z) && y * 32 + z < 1024;
    assert w == (x * 32 + y) * 32 + z;
  }

  /** Packing pixels a..b of a run on their own gives bytes 2a..2b of
      the packed run: fragments can be packed independently. */
  lemma PackedSlice(s: seq<byte>, a: nat, b: nat)
    requires a <= b <= |s| / 3
    ensures Packed(s[3 * a .. 3 * b]) == Packed(s)[2 * a .. 2 * b]
  {
    var part := s[3 * a .. 3 * b];
    assert |part| / 3 == b - a;
    forall i | 0 <= i < 2 * (b - a)
      ensures Packed(part)[i] == Packed(s)[2 * a + i]
    {
      var p := i / 2;
      assert (2 * a + i) / 2 == a + p && (2 * a + i) % 2 == i % 2;
      assert part[3 * p] == s[3 * (a + p)];
      assert part[3 * p + 1] == s[3 * (a + p) + 1];
      assert part[3 * p + 2] == s[3 * (a + p) + 2];
    }
  }

  /** Pixel k of a packed run is the word of source pixel k, at bytes 2k
      and 2k+1. */
  lemma PackedAt(s: seq<byte>, k: nat)
    requires k < |s| / 3
    ensures Packed(s)[2 * k] == PackPixel(s[3 * k], s[3 * k + 1], s[3 * k + 2]).0
    ensures Packed(s)[2 * k + 1] == PackPixel(s[3 * k], s[3 * k + 1], s[3 * k + 2]).1
  {
    assert (2 * k) / 2 == k && (2 * k + 1) / 2 == k;
  }

  /** For every pixel k the packed bytes read back as cpypck's word h,
      big-endian, and the high byte is below 0x80. */
  lemma PackedWord(s: seq<byte>, k: nat)
    requires k < |s| / 3
    ensures Packed(s)[2 * k] as int * 256 + Packed(s)[2 * k + 1] as int == Word(s[3 * k], s[3 * k + 1], s[3 * k + 2])
    ensures Packed(s)[2 * k] < 0x80
  {
    PackedAt(s, k);
    WordBytes(s[3 * k], s[3 * k + 1], s[3 * k + 2]);
  }
}
