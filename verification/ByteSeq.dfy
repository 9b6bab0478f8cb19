/** Bytes, fixed-width integers and the two byte orders the wire formats use.
    Go's `uint32(x)` and `uint64(x)` conversions keep the low bits, which is
    what the modulus in LittleEndian and BigEndian does. */
module ByteSeq {
  type Byte = n: int | 0 <= n < 256
  type Bytes = seq<Byte>
  type Uint32 = n: int | 0 <= n < TWO_32
  type Uint64 = n: int | 0 <= n < TWO_64
  type Int32 = n: int | -0x8000_0000 <= n < 0x8000_0000

  const TWO_31 := 0x8000_0000
  const TWO_32 := 0x1_0000_0000
  const TWO_61 := 0x2000_0000_0000_0000
  const TWO_63 := 0x8000_0000_0000_0000
  const TWO_64 := 0x1_0000_0000_0000_0000

  /** Go's conversion of an unsigned value to int32: the low 32 bits, signed. */
  function ToInt32(v: nat): Int32 {
    var low := v % TWO_32;
    if low < TWO_31 then low else low - TWO_32
  }

  /** Of any unsigned value the int32 congruent to it, and so of the 64 bits a
      negative int32 is sent as, that int32. */
  lemma Int32OfVarint(v: nat, x: Int32)
    ensures (v - ToInt32(v)) % 0x1_0000_0000 == 0
    ensures ToInt32(x % 0x1_0000_0000_0000_0000) == x && ToInt32(x % 0x1_0000_0000) == x
  {
    assert x < 0 ==> x % TWO_64 == x + TWO_64;
  }

  function Pow256(n: nat): (p: nat)
    ensures p > 0
  {
    if n == 0 then 1 else 256 * Pow256(n - 1)
  }

  /** The low n bytes of v, least significant first. */
  function LittleEndian(v: nat, n: nat): (b: Bytes)
    ensures |b| == n
  {
    if n == 0 then [] else [v % 256] + LittleEndian(v / 256, n - 1)
  }

  function FromLittleEndian(b: Bytes): (v: nat)
    ensures v < Pow256(|b|)
  {
    if b == [] then 0 else b[0] + 256 * FromLittleEndian(b[1..])
  }

  /** The low n bytes of v, most significant first. */
  function BigEndian(v: nat, n: nat): (b: Bytes)
    ensures |b| == n
  {
    if n == 0 then [] else BigEndian(v / 256, n - 1) + [v % 256]
  }

  function FromBigEndian(b: Bytes): (v: nat)
    ensures v < Pow256(|b|)
  {
    if b == [] then 0 else 256 * FromBigEndian(b[..|b| - 1]) + b[|b| - 1]
  }

  lemma {:induction false} LittleEndianInverse(v: nat, n: nat)
    requires v < Pow256(n)
    ensures FromLittleEndian(LittleEndian(v, n)) == v
  {
    if n > 0 {
      LittleEndianInverse(v / 256, n - 1);
      assert LittleEndian(v, n)[1..] == LittleEndian(v / 256, n - 1);
    }
  }

  lemma SplitByte(d: Byte, q: nat)
    ensures (d + 256 * q) / 256 == q && (d + 256 * q) % 256 == d
  {
  }

  lemma {:induction false} LittleEndianOnto(b: Bytes)
    ensures LittleEndian(FromLittleEndian(b), |b|) == b
  {
    if b != [] {
      LittleEndianOnto(b[1..]);
      SplitByte(b[0], FromLittleEndian(b[1..]));
      assert b == [b[0]] + b[1..];
    }
  }

  lemma {:induction false} BigEndianInverse(v: nat, n: nat)
    requires v < Pow256(n)
    ensures FromBigEndian(BigEndian(v, n)) == v
  {
    if n > 0 {
      BigEndianInverse(v / 256, n - 1);
      assert BigEndian(v, n)[..n - 1] == BigEndian(v / 256, n - 1);
    }
  }

  /** The i-th base-256 digit of v, the least significant one first. */
  function ByteAt(v: nat, i: nat): Byte {
    if i == 0 then v % 256 else ByteAt(v / 256, i - 1)
  }

  lemma {:induction false} ByteOrder(v: nat, n: nat, i: nat)
    requires i < n
    ensures LittleEndian(v, n)[i] == ByteAt(v, i) && BigEndian(v, n)[n - 1 - i] == ByteAt(v, i)
  {
    var low, high := LittleEndian(v / 256, n - 1), BigEndian(v / 256, n - 1);
    assert LittleEndian(v, n) == [v % 256] + low && BigEndian(v, n) == high + [v % 256];
    if i > 0 { ByteOrder(v / 256, n - 1, i - 1); }
  }

  lemma PowersOf256()
    ensures Pow256(2) == 0x1_0000 && Pow256(4) == TWO_32 && Pow256(8) == TWO_64
  {
    assert Pow256(4) == 256 * 256 * Pow256(2);
    assert Pow256(6) == 256 * 256 * Pow256(4);
    assert Pow256(8) == 256 * 256 * Pow256(6);
  }

  // ---- exclusive or ----

  function Pow2(n: nat): (p: nat)
    ensures p > 0
  {
    if n == 0 then 1 else 2 * Pow2(n - 1)
  }

  /** Bitwise exclusive or of the low n bits. */
  function XorBits(a: nat, b: nat, n: nat): (r: nat)
    ensures r < Pow2(n)
  {
    if n == 0 then 0 else 2 * XorBits(a / 2, b / 2, n - 1) + (a + b) % 2
  }

  function Bit(v: nat, i: nat): nat {
    if i == 0 then v % 2 else Bit(v / 2, i - 1)
  }

  /** A bit of the result is set if exactly one of the two bits is. */
  lemma {:induction false} XorBit(a: nat, b: nat, n: nat, i: nat)
    requires i < n
    ensures Bit(XorBits(a, b, n), i) == (Bit(a, i) + Bit(b, i)) % 2
  {
    LastBit(XorBits(a / 2, b / 2, n - 1), (a + b) % 2, 0);
    if i > 0 { XorBit(a / 2, b / 2, n - 1, i - 1); }
  }

  lemma LastBit(q: nat, bit: nat, b: nat)
    requires bit < 2
    ensures (2 * q + bit) / 2 == q && (2 * q + bit + b) % 2 == (bit + b) % 2
  {
  }

  lemma AddTwice(a: nat, b: nat)
    ensures ((a + b) % 2 + b) % 2 == a % 2
  {
  }

  lemma {:induction false} XorBitsInvolution(a: nat, b: nat, n: nat)
    requires a < Pow2(n)
    ensures XorBits(XorBits(a, b, n), b, n) == a
  {
    if n > 0 {
      var rest, bit := XorBits(a / 2, b / 2, n - 1), (a + b) % 2;
      var r := 2 * rest + bit;
      assert r == XorBits(a, b, n);
      XorBitsInvolution(a / 2, b / 2, n - 1);
      LastBit(rest, bit, b);
      AddTwice(a, b);
      assert XorBits(r, b, n) == 2 * XorBits(rest, b / 2, n - 1) + a % 2;
    }
  }

  function Xor(a: Byte, b: Byte): (r: Byte)
    ensures XorBits(r, b, 8) == a
  {
    assert Pow2(8) == 256;
    XorBitsInvolution(a, b, 8);
    XorBits(a, b, 8)
  }

  lemma XorInvolution(a: Byte, b: Byte)
    ensures Xor(Xor(a, b), b) == a
  {
  }

  function XorSeq(a: Bytes, b: Bytes): (r: Bytes)
    requires |a| == |b|
    ensures |r| == |a|
  {
    seq(|a|, i requires 0 <= i < |a| => Xor(a[i], b[i]))
  }

  lemma XorSeqInvolution(a: Bytes, b: Bytes)
    requires |a| == |b|
    ensures XorSeq(XorSeq(a, b), b) == a
  {
    forall i | 0 <= i < |a| ensures XorSeq(XorSeq(a, b), b)[i] == a[i] {
      XorInvolution(a[i], b[i]);
    }
  }
}
