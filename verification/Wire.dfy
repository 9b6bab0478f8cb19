/** internal/steam/pb/wire.go: base-128 varints and protobuf field lists.

    `x | y` on operands whose set bits do not overlap is written `x + y`, and
    `c << s` on uint64 is Shl below. A slice expression whose bounds are out of
    range is a run-time panic in the source; it is the outcome Fault here. */
module Wire {
  import opened ByteSeq

  const VARINT := 0
  const FIXED64 := 1
  const BYTES := 2
  const FIXED32 := 5

  /** The two varint readers of the repository. Strict also refuses a tenth byte
      that would carry bits beyond the 64th (internal/steam/protocol/protobuf.go). */
  datatype Reader = Lax | Strict

  // ---------------------------------------------------------------- varints

  function Pow128(n: nat): (p: nat)
    ensures p > 0
  {
    if n == 0 then 1 else 128 * Pow128(n - 1)
  }

  /** `c & 0x7f` */
  function Digit(c: Byte): (d: Byte)
    ensures d < 128
  {
    if c < 128 then c else c - 128
  }

  /** The number whose base-128 digits are the low seven bits of b, least first. */
  function Base128(b: Bytes): nat {
    if b == [] then 0 else Digit(b[0]) + 128 * Base128(b[1..])
  }

  /** How many bytes there are up to and including the first one below 0x80. */
  function VarintEnd(b: Bytes): (n: nat)
    ensures n <= |b|
    ensures n > 0 ==> b[n - 1] < 128
    ensures forall i :: 0 <= i < (if n > 0 then n - 1 else |b|) ==> b[i] >= 128
  {
    if b == [] then 0
    else if b[0] < 128 then 1
    else var n := VarintEnd(b[1..]); if n == 0 then 0 else n + 1
  }

  /** What a reader makes of the front of b: value and size, or (0, 0). */
  function ReadVarint(b: Bytes, r: Reader): (res: (Uint64, nat))
    ensures res.1 <= |b| && res.1 <= 10
  {
    var n := VarintEnd(b);
    if n == 0 || n > 10 || (r.Strict? && n == 10 && b[9] > 1) then (0, 0)
    else (Base128(b[..n]) % TWO_64, n)
  }

  /** The encoding of v that AppendVarint produces. */
  function VarintBytes(v: nat): (b: Bytes)
    ensures |b| > 0
    decreases v
  {
    if v >= 128 then [v % 128 + 128] + VarintBytes(v / 128) else [v]
  }

  lemma PowersOf128()
    ensures Pow128(9) == TWO_63
  {
    assert Pow128(3) == 0x20_0000;
    assert Pow128(6) == 128 * 128 * 128 * Pow128(3);
    assert Pow128(9) == 128 * 128 * 128 * Pow128(6);
  }

  lemma {:induction false} Pow128Monotone(m: nat, n: nat)
    requires m <= n
    ensures Pow128(m) <= Pow128(n)
    decreases n
  {
    if m < n { Pow128Monotone(m, n - 1); }
  }

  lemma Regroup(p: nat, d: nat)
    ensures 128 * (p * d) == (128 * p) * d
  {
  }

  lemma {:induction false} Base128Append(b: Bytes, c: Byte)
    ensures Base128(b + [c]) == Base128(b) + Pow128(|b|) * Digit(c)
  {
    if b != [] {
      assert (b + [c])[1..] == b[1..] + [c];
      Base128Append(b[1..], c);
      Regroup(Pow128(|b| - 1), Digit(c));
    } else {
      assert [c][1..] == [];
    }
  }

  lemma {:induction false} Base128Bound(b: Bytes)
    ensures Base128(b) < Pow128(|b|)
  {
    if b != [] { Base128Bound(b[1..]); }
  }

  lemma {:induction false} VarintBytesShape(v: nat)
    ensures var b := VarintBytes(v);
            && Base128(b) == v
            && VarintEnd(b) == |b|
            && v < Pow128(|b|)
            && (|b| > 1 ==> Pow128(|b| - 1) <= v && b[|b| - 1] > 0)
  {
    var b := VarintBytes(v);
    if v >= 128 {
      VarintBytesShape(v / 128);
      assert b[1..] == VarintBytes(v / 128);
    } else {
      assert b == [v] && b[1..] == [];
    }
  }

  /** Length k exactly when 128^(k-1) <= v < 128^k (k = 1 also holds zero). */
  lemma VarintLength(v: nat, k: nat)
    requires k > 0
    ensures |VarintBytes(v)| == k <==> (k == 1 || Pow128(k - 1) <= v) && v < Pow128(k)
  {
    VarintBytesShape(v);
    var n := |VarintBytes(v)|;
    if n < k { Pow128Monotone(n, k - 1); }
    if k < n { Pow128Monotone(k, n - 1); }
  }

  lemma {:induction false} VarintEndAppend(a: Bytes, b: Bytes)
    requires VarintEnd(a) > 0
    ensures VarintEnd(a + b) == VarintEnd(a)
  {
    if a[0] >= 128 {
      assert (a + b)[1..] == a[1..] + b;
      VarintEndAppend(a[1..], b);
    }
  }

  /** Bytes after a readable varint do not matter. */
  lemma ReadVarintAppend(a: Bytes, b: Bytes, r: Reader)
    requires VarintEnd(a) > 0
    ensures ReadVarint(a + b, r) == ReadVarint(a, r)
  {
    VarintEndAppend(a, b);
    var n := VarintEnd(a);
    assert (a + b)[..n] == a[..n];
  }

  lemma VarintAtMostTen(v: Uint64)
    ensures var b := VarintBytes(v); |b| <= 10 && (|b| == 10 ==> b[9] <= 1)
  {
    var b := VarintBytes(v);
    VarintBytesShape(v);
    PowersOf128();
    if |b| > 10 {
      Pow128Monotone(10, |b| - 1);
    } else if |b| == 10 {
      assert b == b[..9] + [b[9]];
      Base128Append(b[..9], b[9]);
      assert TWO_63 * Digit(b[9]) <= v;
    }
  }

  /** Both readers recover every 64-bit value from its encoding, whatever follows. */
  lemma VarintRoundTrip(v: Uint64, tail: Bytes, r: Reader)
    ensures ReadVarint(VarintBytes(v) + tail, r) == (v, |VarintBytes(v)|)
  {
    hide Base128, VarintBytes, VarintEnd, Pow128;
    var b := VarintBytes(v);
    VarintBytesShape(v);
    VarintAtMostTen(v);
    ReadVarintAppend(b, tail, r);
    assert b[..|b|] == b;
  }

  /** VarintBytes is the shortest string a reader maps to v, and the only one
      that does not end in a zero digit. */
  lemma VarintShortest(b: Bytes, r: Reader)
    requires ReadVarint(b, r).1 > 0
    ensures var (v, n) := ReadVarint(b, r);
            && |VarintBytes(v)| <= n
            && (r.Strict? && (n == 1 || b[n - 1] > 0) ==> VarintBytes(v) == b[..n])
  {
    hide VarintBytes, Base128, VarintEnd, Pow128;
    var (v, n) := ReadVarint(b, r);
    Base128Bound(b[..n]);
    AtMost(v, n);
    if r.Strict? && (n == 1 || b[n - 1] > 0) {
      StrictIsExact(b);
      VarintEndPrefix(b);
      CanonicalVarint(b[..n]);
    }
  }

  lemma AtMost(v: nat, n: nat)
    requires n > 0 && v < Pow128(n)
    ensures |VarintBytes(v)| <= n
  {
    hide Pow128;
    VarintBytesShape(v);
    var k := |VarintBytes(v)|;
    if n < k { Pow128Monotone(n, k - 1); }
  }

  lemma {:induction false} VarintEndPrefix(b: Bytes)
    requires VarintEnd(b) > 0
    ensures VarintEnd(b[..VarintEnd(b)]) == VarintEnd(b)
  {
    var n := VarintEnd(b);
    if n > 1 {
      VarintEndPrefix(b[1..]);
      assert b[..n][1..] == b[1..][..n - 1];
    }
  }

  /** The strict reader never drops bits: its value is the whole base-128 number. */
  lemma StrictIsExact(b: Bytes)
    ensures var (v, n) := ReadVarint(b, Strict); v == Base128(b[..n])
  {
    var (v, n) := ReadVarint(b, Strict);
    if n > 0 {
      Base128Bound(b[..n]);
      PowersOf128();
      if n < 10 {
        Pow128Monotone(n, 9);
      } else {
        assert b[..10] == b[..9] + [b[9]];
        Base128Append(b[..9], b[9]);
        Base128Bound(b[..9]);
      }
    } else {
      assert b[..0] == [];
    }
  }

  lemma DigitSplit(d: nat, q: nat)
    requires d < 128
    ensures (d + 128 * q) / 128 == q && (d + 128 * q) % 128 == d
  {
  }

  lemma VarintBytesCons(d: nat, q: nat)
    requires d < 128 && q > 0
    ensures VarintBytes(d + 128 * q) == [d + 128] + VarintBytes(q)
  {
    DigitSplit(d, q);
  }

  lemma {:induction false} CanonicalVarint(b: Bytes)
    requires VarintEnd(b) == |b| > 0
    requires |b| == 1 || b[|b| - 1] > 0
    ensures VarintBytes(Base128(b)) == b
  {
    if |b| == 1 {
      assert b == [b[0]] && b[1..] == [];
    } else {
      var t := b[1..];
      assert VarintEnd(t) == |t| && b[0] >= 128;
      assert Base128(b) == b[0] - 128 + 128 * Base128(t);
      hide Base128, VarintEnd, VarintBytes;
      CanonicalVarint(t);
      PositiveDigits(t);
      VarintBytesCons(b[0] - 128, Base128(t));
      assert b == [b[0]] + t;
    }
  }

  lemma {:induction false} PositiveDigits(b: Bytes)
    requires |b| > 0 && 0 < b[|b| - 1] < 128
    ensures Base128(b) > 0
  {
    if |b| > 1 { PositiveDigits(b[1..]); }
  }

  /** The readers disagree on exactly one shape: ten bytes, the last in 2..127. */
  lemma ReadersDiffer(b: Bytes)
    ensures ReadVarint(b, Strict) != ReadVarint(b, Lax)
            <==> VarintEnd(b) == 10 && 2 <= b[9] <= 127
    ensures ReadVarint(b, Strict) != ReadVarint(b, Lax) ==> ReadVarint(b, Strict) == (0, 0)
  {
  }

  /** `uint64(c) << s` in Go: bits shifted past the 64th are lost. */
  function Shl(c: nat, s: nat): Uint64 {
    c * Pow2(s) % TWO_64
  }

  lemma {:induction false} ShiftIsPower(i: nat)
    ensures Pow2(7 * i) == Pow128(i)
  {
    if i > 0 {
      ShiftIsPower(i - 1);
      var k := 7 * (i - 1);
      assert Pow2(k + 2) == 4 * Pow2(k) && Pow2(k + 4) == 4 * Pow2(k + 2);
      assert Pow2(k + 6) == 4 * Pow2(k + 4) && Pow2(k + 7) == 2 * Pow2(k + 6);
    }
  }

  lemma TopShift(low: nat, c: Byte)
    requires low < TWO_63
    ensures (low + TWO_63 * c) % TWO_64 == low + TWO_63 * (c % 2)
  {
    assert low + TWO_63 * c == low + TWO_63 * (c % 2) + TWO_64 * (c / 2);
  }

  /** One more digit: how `x | uint64(c)<<s` extends the value read so far. */
  lemma NextDigit(b: Bytes, i: nat, c: Byte)
    requires i < 10 && i < |b| && c == Digit(b[i])
    ensures Base128(b[..i]) < TWO_63
    ensures Base128(b[..i]) + Shl(c, 7 * i) == Base128(b[..i + 1]) % TWO_64
    ensures i < 9 ==> Base128(b[..i + 1]) < TWO_63
  {
    hide Base128, Pow128, Pow2, Shl;
    assert b[..i + 1] == b[..i] + [b[i]];
    Base128Append(b[..i], b[i]);
    Base128Bound(b[..i]);
    Base128Bound(b[..i + 1]);
    PowersOf128();
    Pow128Monotone(i, 9);
    ShiftIsPower(i);
    if i < 9 {
      Pow128Monotone(i + 1, 9);
      SmallShift(Base128(b[..i]), c, 7 * i);
    } else {
      LastShift(Base128(b[..i]), c);
    }
  }

  lemma SmallShift(low: nat, c: nat, s: nat)
    requires low + Pow2(s) * c < TWO_63
    ensures low + Shl(c, s) == (low + Pow2(s) * c) % TWO_64
  {
    hide Pow2;
    assert c * Pow2(s) == Pow2(s) * c;
  }

  lemma LastShift(low: nat, c: Byte)
    requires low < TWO_63 && Pow2(63) == TWO_63
    ensures low + Shl(c, 63) == (low + Pow2(63) * c) % TWO_64
  {
    hide Pow2;
    TopShift(0, c);
    TopShift(low, c);
  }

  method ConsumeVarint(b: Bytes) returns (v: Uint64, n: nat)
    ensures (v, n) == ReadVarint(b, Lax)
  {
    var x: Uint64 := 0;
    var s: nat := 0;
    var i := 0;
    assert b[..0] == [] && Base128([]) == 0;
    hide Base128, ReadVarint, Shl;
    while i < |b| && i < 10
      invariant 0 <= i <= |b| && i <= 10 && s == 7 * i
      invariant i < 10 ==> x == Base128(b[..i])
      invariant forall j :: 0 <= j < i ==> b[j] >= 128
    {
      var c := b[i];
      NextDigit(b, i, Digit(c));
      if c < 0x80 {
        EndsAt(b, i, Lax);
        return x + Shl(c, s), i + 1;
      }
      x := x + Shl(Digit(c), s);
      s := s + 7;
      i := i + 1;
    }
    NotWithin(b, i, Lax);
    return 0, 0;
  }

  lemma EndsAt(b: Bytes, i: nat, r: Reader)
    requires i < |b| && i < 10 && b[i] < 128 && forall j :: 0 <= j < i ==> b[j] >= 128
    ensures ReadVarint(b, r) == if r.Strict? && i == 9 && b[9] > 1 then (0, 0) else (Base128(b[..i + 1]) % TWO_64, i + 1)
  {
    hide Base128;
    assert VarintEnd(b) == i + 1;
  }

  lemma NotWithin(b: Bytes, i: nat, r: Reader)
    requires i <= |b| && (i == |b| || i == 10) && forall j :: 0 <= j < i ==> b[j] >= 128
    ensures ReadVarint(b, r) == (0, 0)
  {
    assert VarintEnd(b) == 0 || VarintEnd(b) > 10;
  }

  method AppendVarint(b: Bytes, v: Uint64) returns (r: Bytes)
    ensures r == b + VarintBytes(v)
  {
    r := b;
    var w := v;
    while w >= 0x80
      invariant r + VarintBytes(w) == b + VarintBytes(v)
    {
      r := r + [w % 128 + 128];
      w := w / 128;
    }
    r := r + [w];
  }

  // ------------------------------------------------------------ field lists

  /** One decoded field. The source keeps one record with a member per wire type
      and leaves the unused ones zero; the functions below read that record. */
  datatype Field =
    | MkVarint(number: nat, v: Uint64)
    | MkFixed64(number: nat, w: Uint64)
    | MkFixed32(number: nat, d: Uint32)
    | MkBytes(number: nat, s: Bytes)
  {
    function Wire(): nat {
      if MkVarint? then VARINT else if MkFixed64? then FIXED64 else if MkFixed32? then FIXED32 else BYTES
    }
    function Varint(): Uint64 { if MkVarint? then v else 0 }
    function Fixed64(): Uint64 { if MkFixed64? then w else 0 }
    function Fixed32(): Uint32 { if MkFixed32? then d else 0 }
    function Content(): Bytes { if MkBytes? then s else [] }
  }

  function MkBool(number: nat, v: bool): Field { MkVarint(number, if v then 1 else 0) }

  /** `uint64(field<<3 | wire)`: the shift drops the bits of number past the 61st. */
  function Key(number: nat, wire: nat): (k: Uint64)
    requires wire < 8
  {
    (number % TWO_61) * 8 + wire
  }

  function FieldBytes(f: Field): (b: Bytes)
    ensures |b| > 0
  {
    VarintBytes(Key(f.number, f.Wire())) + ValueBytes(f)
  }

  function ValueBytes(f: Field): Bytes {
    match f
    case MkVarint(_, v) => VarintBytes(v)
    case MkFixed64(_, w) => LittleEndian(w, 8)
    case MkFixed32(_, d) => LittleEndian(d, 4)
    case MkBytes(_, s) => VarintBytes(|s|) + s
  }

  /** Field numbers up to 15 and the wire type share the first byte. */
  lemma KeyByte(f: Field)
    requires f.number < 16
    ensures FieldBytes(f)[0]
            == 8 * f.number + (if f.MkVarint? then 0 else if f.MkFixed64? then 1 else if f.MkBytes? then 2 else 5)
  {
    hide ValueBytes;
  }

  function FieldsBytes(fs: seq<Field>): Bytes {
    if fs == [] then [] else FieldBytes(fs[0]) + FieldsBytes(fs[1..])
  }

  datatype Status = Done | Malformed | Fault
  datatype FieldRead = Got(field: Field, size: nat) | Stop(status: Status)
  datatype Decoded = Decoded(fields: seq<Field>, status: Status)

  /** Reading a value of the given wire type at offset `at` of the buffer. The
      length test `i+n+int(l) > len(data)` is on wrapping int64 values: once the
      true sum passes 2^63 it succeeds and the slice that follows is out of
      bounds. */
  function ReadValue(number: nat, wire: nat, value: Bytes, at: nat, r: Reader): (res: FieldRead)
    ensures res.Got? ==> res.size <= |value| && res.field.number == number
    ensures res.Stop? ==> !res.status.Done?
  {
    if wire == VARINT then
      var (v, n) := ReadVarint(value, r);
      if n == 0 then Stop(Malformed) else Got(MkVarint(number, v), n)
    else if wire == FIXED64 then
      if |value| < 8 then Stop(Malformed) else Got(MkFixed64(number, Word64(value[..8])), 8)
    else if wire == BYTES then
      var (l, n) := ReadVarint(value, r);
      if n == 0 then Stop(Malformed)
      else if at + n + l >= TWO_63 then Stop(Fault)
      else if n + l > |value| then Stop(Malformed)
      else Got(MkBytes(number, value[n..n + l]), n + l)
    else if wire == FIXED32 then
      if |value| < 4 then Stop(Malformed) else Got(MkFixed32(number, Word32(value[..4])), 4)
    else Stop(Malformed)
  }

  /** One turn of the decoding loop: rest is data[at..]. */
  function ReadField(rest: Bytes, at: nat, r: Reader): (res: FieldRead)
    ensures res.Got? ==> 0 < res.size <= |rest| && res.field.number < TWO_61
    ensures res.Stop? ==> !res.status.Done?
  {
    var (key, k) := ReadVarint(rest, r);
    if k == 0 then Stop(Malformed) else
    match ReadValue(key / 8, key % 8, rest[k..], at + k, r)
    case Stop(s) => Stop(s)
    case Got(f, n) => Got(f, k + n)
  }

  lemma ReadFieldIs(rest: Bytes, at: nat, key: Uint64, k: nat, r: Reader)
    requires (key, k) == ReadVarint(rest, r) && k > 0
    ensures ReadField(rest, at, r)
            == match ReadValue(key / 8, key % 8, rest[k..], at + k, r)
               case Stop(s) => Stop(s)
               case Got(f, n) => Got(f, k + n)
  {
    hide ReadVarint, ReadValue;
  }

  lemma VarintValue(number: nat, value: Bytes, at: nat, v: Uint64, m: nat, r: Reader)
    requires (v, m) == ReadVarint(value, r)
    ensures ReadValue(number, VARINT, value, at, r) == if m == 0 then Stop(Malformed) else Got(MkVarint(number, v), m)
  {
    hide ReadVarint;
  }

  lemma BytesValue(number: nat, value: Bytes, at: nat, l: Uint64, m: nat, r: Reader)
    requires (l, m) == ReadVarint(value, r)
    ensures ReadValue(number, BYTES, value, at, r)
            == if m == 0 then Stop(Malformed) else if at + m + l >= TWO_63 then Stop(Fault)
               else if m + l > |value| then Stop(Malformed) else Got(MkBytes(number, value[m..m + l]), m + l)
  {
    hide ReadVarint;
  }

  lemma FixedValue(number: nat, value: Bytes, at: nat, r: Reader)
    ensures ReadValue(number, FIXED64, value, at, r)
            == if |value| < 8 then Stop(Malformed) else Got(MkFixed64(number, Word64(value[..8])), 8)
    ensures ReadValue(number, FIXED32, value, at, r)
            == if |value| < 4 then Stop(Malformed) else Got(MkFixed32(number, Word32(value[..4])), 4)
    ensures forall wire: nat :: wire !in {VARINT, FIXED64, BYTES, FIXED32} ==>
              ReadValue(number, wire, value, at, r) == Stop(Malformed)
  {
    hide ReadVarint, FromLittleEndian;
  }

  function Word32(b: Bytes): Uint32
    requires |b| == 4
  {
    PowersOf256();
    FromLittleEndian(b)
  }

  function Word64(b: Bytes): Uint64
    requires |b| == 8
  {
    PowersOf256();
    FromLittleEndian(b)
  }

  /** The fields of rest, which starts at offset `at` of the buffer, up to the
      end or to the first one that cannot be read. */
  function ReadFields(rest: Bytes, at: nat, r: Reader): (d: Decoded)
    decreases |rest|
  {
    if rest == [] then Decoded([], Done) else
    match ReadField(rest, at, r)
    case Stop(s) => Decoded([], s)
    case Got(f, n) => Prepend([f], ReadFields(rest[n..], at + n, r))
  }

  function Prepend(fs: seq<Field>, d: Decoded): Decoded {
    Decoded(fs + d.fields, d.status)
  }

  lemma PrependAssociates(f: Field, fs: seq<Field>, d: Decoded)
    ensures Prepend([f], Prepend(fs, d)) == Prepend([f] + fs, d)
    ensures Prepend(fs, Prepend([f], d)) == Prepend(fs + [f], d)
    ensures Prepend([], d) == d && Prepend(fs, d).status == d.status
  {
    assert [] + d.fields == d.fields;
    assert [f] + (fs + d.fields) == ([f] + fs) + d.fields;
    assert fs + ([f] + d.fields) == (fs + [f]) + d.fields;
  }

  lemma ValueRoundTrip(f: Field, number: nat, tail: Bytes, at: nat, r: Reader)
    requires at + |ValueBytes(f)| < TWO_63
    ensures ReadValue(number, f.Wire(), ValueBytes(f) + tail, at, r)
            == Got(f.(number := number), |ValueBytes(f)|)
  {
    hide VarintBytes, ReadVarint, LittleEndian, FromLittleEndian;
    var vb := ValueBytes(f);
    PowersOf256();
    if f.MkVarint? {
      VarintRoundTrip(f.v, tail, r);
    } else if f.MkFixed64? {
      LittleEndianInverse(f.w, 8);
      assert (vb + tail)[..8] == vb;
    } else if f.MkFixed32? {
      LittleEndianInverse(f.d, 4);
      assert (vb + tail)[..4] == vb;
    } else {
      var l, lb := |f.s|, VarintBytes(|f.s|);
      assert vb + tail == lb + (f.s + tail);
      VarintRoundTrip(l, f.s + tail, r);
      assert (vb + tail)[|lb|..|lb| + l] == f.s;
    }
  }

  /** Reading back one encoded field; the number survives below 2^61 only. */
  lemma FieldRoundTrip(f: Field, tail: Bytes, at: nat, r: Reader)
    requires at + |FieldBytes(f)| < TWO_63
    ensures ReadField(FieldBytes(f) + tail, at, r) == Got(f.(number := f.number % TWO_61), |FieldBytes(f)|)
    ensures ReadField(FieldBytes(f) + tail, at, r) == Got(f, |FieldBytes(f)|) <==> f.number < TWO_61
  {
    hide VarintBytes, ReadVarint, ReadValue, ValueBytes;
    var key := Key(f.number, f.Wire());
    var kb, vb := VarintBytes(key), ValueBytes(f);
    var all := FieldBytes(f) + tail;
    assert all == kb + (vb + tail);
    VarintRoundTrip(key, vb + tail, r);
    assert key / 8 == f.number % TWO_61 && key % 8 == f.Wire();
    assert all[|kb|..] == vb + tail;
    ValueRoundTrip(f, key / 8, tail, at + |kb|, r);
  }

  /** Field number 2^61 comes back as 0. */
  lemma NumberLost(v: Uint64, tail: Bytes, r: Reader)
    ensures var b := FieldBytes(MkVarint(TWO_61, v)); ReadField(b + tail, 0, r) == Got(MkVarint(0, v), |b|)
  {
    hide VarintBytes, ReadField;
    var f := MkVarint(TWO_61, v);
    VarintAtMostTen(Key(TWO_61, VARINT));
    VarintAtMostTen(v);
    FieldRoundTrip(f, tail, 0, r);
  }

  lemma ReadValueAppend(number: nat, wire: nat, a: Bytes, b: Bytes, at: nat, r: Reader)
    requires ReadValue(number, wire, a, at, r).Got?
    ensures ReadValue(number, wire, a + b, at, r) == ReadValue(number, wire, a, at, r)
  {
    hide VarintEnd, Base128, FromLittleEndian;
    if wire == VARINT || wire == BYTES {
      var (l, n) := ReadVarint(a, r);
      ReadVarintAppend(a, b, r);
      if wire == BYTES { assert (a + b)[n..n + l] == a[n..n + l]; }
    } else if wire == FIXED64 {
      assert (a + b)[..8] == a[..8];
    } else {
      assert (a + b)[..4] == a[..4];
    }
  }

  /** A field that is there in full reads the same whatever comes after it. */
  lemma ReadFieldAppend(a: Bytes, b: Bytes, at: nat, r: Reader)
    requires ReadField(a, at, r).Got?
    ensures ReadField(a + b, at, r) == ReadField(a, at, r)
  {
    hide VarintEnd, Base128, ReadValue;
    var (key, k) := ReadVarint(a, r);
    ReadVarintAppend(a, b, r);
    assert (a + b)[k..] == a[k..] + b;
    ReadValueAppend(key / 8, key % 8, a[k..], b, at + k, r);
  }

  /** Decode(a ++ b) is Decode(a) ++ Decode(b) whenever a decodes. */
  lemma {:induction false} DecodeAppend(a: Bytes, b: Bytes, at: nat, r: Reader)
    requires ReadFields(a, at, r).status.Done?
    ensures ReadFields(a + b, at, r) == Prepend(ReadFields(a, at, r).fields, ReadFields(b, at + |a|, r))
    decreases |a|
  {
    hide ReadField;
    if a == [] {
      assert a + b == b;
    } else {
      ReadFieldAppend(a, b, at, r);
      var n := ReadField(a, at, r).size;
      assert (a + b)[n..] == a[n..] + b;
      DecodeAppend(a[n..], b, at + n, r);
      PrependAssociates(ReadField(a, at, r).field, ReadFields(a[n..], at + n, r).fields, ReadFields(b, at + |a|, r));
    }
  }

  lemma ReadFieldAnywhere(b: Bytes, at: nat, at': nat, r: Reader)
    requires at + |b| < TWO_63 && at' + |b| < TWO_63
    ensures ReadField(b, at, r) == ReadField(b, at', r)
            || (ReadField(b, at, r).Stop? && ReadField(b, at', r).Stop?)
  {
    hide VarintEnd, Base128, FromLittleEndian;
    var (key, k) := ReadVarint(b, r);
    if k > 0 {
      var value := b[k..];
      var (l, n) := ReadVarint(value, r);
      if key % 8 == BYTES && n > 0 {
        assert |value| == |b| - k;
      }
    }
  }

  /** Where in a buffer the fields sit only matters for which way reading fails. */
  lemma {:induction false} DecodeAnywhere(b: Bytes, at: nat, at': nat, r: Reader)
    requires at + |b| < TWO_63 && at' + |b| < TWO_63
    ensures ReadFields(b, at, r).fields == ReadFields(b, at', r).fields
    ensures ReadFields(b, at, r).status.Done? <==> ReadFields(b, at', r).status.Done?
    decreases |b|
  {
    hide ReadField;
    if b != [] {
      ReadFieldAnywhere(b, at, at', r);
      var f := ReadField(b, at, r);
      if f.Got? { DecodeAnywhere(b[f.size..], at + f.size, at' + f.size, r); }
    }
  }

  predicate NumbersFit(fs: seq<Field>) {
    forall i :: 0 <= i < |fs| ==> fs[i].number < TWO_61
  }

  lemma ReadFieldsCons(s: Bytes, at: nat, f: Field, n: nat, r: Reader)
    requires s != [] && ReadField(s, at, r) == Got(f, n)
    ensures ReadFields(s, at, r) == Prepend([f], ReadFields(s[n..], at + n, r))
  {
    hide ReadField;
  }

  /** The field-list inverse: both readers return exactly what was encoded. */
  lemma {:induction false} FieldsRoundTrip(fs: seq<Field>, tail: Bytes, at: nat, r: Reader)
    requires NumbersFit(fs)
    requires at + |FieldsBytes(fs)| < TWO_63
    ensures ReadFields(FieldsBytes(fs) + tail, at, r)
            == Prepend(fs, ReadFields(tail, at + |FieldsBytes(fs)|, r))
  {
    hide ReadField, ReadFields, FieldBytes, Prepend;
    if fs == [] {
      assert FieldsBytes(fs) + tail == tail;
      PrependAssociates(MkVarint(0, 0), [], ReadFields(tail, at, r));
    } else {
      var f, rest := FieldBytes(fs[0]), FieldsBytes(fs[1..]);
      assert FieldsBytes(fs) + tail == f + (rest + tail);
      FieldRoundTrip(fs[0], rest + tail, at, r);
      assert (f + (rest + tail))[|f|..] == rest + tail;
      ReadFieldsCons(f + (rest + tail), at, fs[0], |f|, r);
      FieldsRoundTrip(fs[1..], tail, at + |f|, r);
      PrependAssociates(fs[0], fs[1..], ReadFields(tail, at + |FieldsBytes(fs)|, r));
      assert fs == [fs[0]] + fs[1..];
    }
  }

  /** Decode is the inverse of any sequence of encoder calls. */
  lemma DecodeOfEncode(fs: seq<Field>, r: Reader)
    requires NumbersFit(fs) && |FieldsBytes(fs)| < TWO_63
    ensures ReadFields(FieldsBytes(fs), 0, r) == Decoded(fs, Done)
  {
    FieldsRoundTrip(fs, [], 0, r);
    assert FieldsBytes(fs) + [] == FieldsBytes(fs);
  }

  lemma {:induction false} FieldsBytesAppend(a: seq<Field>, b: seq<Field>)
    ensures FieldsBytes(a + b) == FieldsBytes(a) + FieldsBytes(b)
  {
    if a == [] {
      assert a + b == b;
    } else {
      assert (a + b)[1..] == a[1..] + b;
      FieldsBytesAppend(a[1..], b);
    }
  }

  lemma StrictFieldRefinesLax(b: Bytes, at: nat)
    ensures ReadField(b, at, Strict) == ReadField(b, at, Lax) || ReadField(b, at, Strict) == Stop(Malformed)
  {
    hide VarintEnd, Base128, FromLittleEndian;
    var (key, k) := ReadVarint(b, Strict);
    if k > 0 { assert ReadVarint(b[k..], Strict) == ReadVarint(b[k..], Lax) || ReadVarint(b[k..], Strict) == (0, 0); }
  }

  /** Whatever the strict reader accepts in full, the lax one accepts with the
      same fields; when it refuses, it had read a prefix of the same fields. */
  lemma {:induction false} StrictRefinesLax(b: Bytes, at: nat)
    ensures ReadFields(b, at, Strict).fields <= ReadFields(b, at, Lax).fields
    ensures ReadFields(b, at, Strict) == ReadFields(b, at, Lax) || ReadFields(b, at, Strict).status.Malformed?
    decreases |b|
  {
    hide ReadField;
    if b != [] {
      StrictFieldRefinesLax(b, at);
      var f := ReadField(b, at, Strict);
      if f.Got? { StrictRefinesLax(b[f.size..], at + f.size); }
    }
  }

  /** The encoder: a buffer that each call grows. */
  class Encoder {
    var b: Bytes
    ghost var calls: seq<Field>

    ghost predicate Valid()
      reads this
    {
      b == FieldsBytes(calls)
    }

    constructor ()
      ensures Valid() && calls == []
    {
      b := [];
      calls := [];
    }

    ghost method Record(f: Field)
      requires b == FieldsBytes(calls) + FieldBytes(f)
      modifies this`calls
      ensures Valid() && calls == old(calls) + [f]
    {
      FieldsBytesAppend(calls, [f]);
      assert FieldsBytes([f]) == FieldBytes(f) + FieldsBytes([]);
      calls := calls + [f];
    }

    method VarintField(field: nat, v: Uint64)
      requires Valid()
      modifies this
      ensures Valid() && calls == old(calls) + [MkVarint(field, v)]
    {
      hide VarintBytes, FieldsBytes;
      b := AppendVarint(b, Key(field, VARINT));
      b := AppendVarint(b, v);
      Record(MkVarint(field, v));
    }

    method BoolField(field: nat, v: bool)
      requires Valid()
      modifies this
      ensures Valid() && calls == old(calls) + [MkVarint(field, if v then 1 else 0)]
    {
      if v { VarintField(field, 1); } else { VarintField(field, 0); }
    }

    method Fixed64Field(field: nat, v: Uint64)
      requires Valid()
      modifies this
      ensures Valid() && calls == old(calls) + [MkFixed64(field, v)]
    {
      hide VarintBytes, LittleEndian, FieldsBytes;
      b := AppendVarint(b, Key(field, FIXED64));
      b := b + LittleEndian(v, 8);
      Record(MkFixed64(field, v));
    }

    method Fixed32Field(field: nat, v: Uint32)
      requires Valid()
      modifies this
      ensures Valid() && calls == old(calls) + [MkFixed32(field, v)]
    {
      hide VarintBytes, LittleEndian, FieldsBytes;
      b := AppendVarint(b, Key(field, FIXED32));
      b := b + LittleEndian(v, 4);
      Record(MkFixed32(field, v));
    }

    method BytesField(field: nat, v: Bytes)
      requires Valid() && |v| < TWO_63
      modifies this
      ensures Valid() && calls == old(calls) + [MkBytes(field, v)]
    {
      hide VarintBytes, FieldsBytes;
      b := AppendVarint(b, Key(field, BYTES));
      b := AppendVarint(b, |v|);
      b := b + v;
      Record(MkBytes(field, v));
    }
  }

  lemma DecodeStep(data: Bytes, out: seq<Field>, i: nat, f: Field, n: nat, r: Reader)
    requires i < |data|
    requires ReadFields(data, 0, r) == Prepend(out, ReadFields(data[i..], i, r))
    requires ReadField(data[i..], i, r) == Got(f, n)
    ensures i + n <= |data|
    ensures ReadFields(data, 0, r) == Prepend(out + [f], ReadFields(data[i + n..], i + n, r))
  {
    hide ReadField, Prepend;
    assert data[i..][n..] == data[i + n..];
    PrependAssociates(f, out, ReadFields(data[i + n..], i + n, r));
  }

  method DecodeValue(data: Bytes, i: nat, num: nat, wt: nat) returns (res: FieldRead)
    requires i <= |data|
    ensures res == ReadValue(num, wt, data[i..], i, Lax)
  {
    hide ReadVarint, FromLittleEndian;
    ghost var value := data[i..];
    if wt == VARINT {
      var v, m := ConsumeVarint(data[i..]);
      if m == 0 { return Stop(Malformed); }
      return Got(MkVarint(num, v), m);
    } else if wt == FIXED64 {
      if i + 8 > |data| { return Stop(Malformed); }
      assert data[i..i + 8] == value[..8];
      return Got(MkFixed64(num, Word64(data[i..i + 8])), 8);
    } else if wt == BYTES {
      var l, m := ConsumeVarint(data[i..]);
      if m == 0 { return Stop(Malformed); }
      if i + m + l >= TWO_63 { return Stop(Fault); }
      if i + m + l > |data| { return Stop(Malformed); }
      assert data[i + m..i + m + l] == value[m..m + l];
      return Got(MkBytes(num, data[i + m..i + m + l]), m + l);
    } else if wt == FIXED32 {
      if i + 4 > |data| { return Stop(Malformed); }
      assert data[i..i + 4] == value[..4];
      return Got(MkFixed32(num, Word32(data[i..i + 4])), 4);
    } else {
      return Stop(Malformed);
    }
  }

  /** Decode walks all fields. On Fault the source panics and returns nothing. */
  method Decode(data: Bytes) returns (out: seq<Field>, status: Status)
    ensures Decoded(out, status) == ReadFields(data, 0, Lax)
  {
    hide ReadVarint, ReadValue;
    out := [];
    var i := 0;
    assert data[0..] == data;
    while i < |data|
      invariant 0 <= i <= |data|
      invariant ReadFields(data, 0, Lax) == Prepend(out, ReadFields(data[i..], i, Lax))
    {
      var key, n := ConsumeVarint(data[i..]);
      if n == 0 { return out, Malformed; }
      assert data[i..][n..] == data[i + n..];
      var f := DecodeValue(data, i + n, key / 8, key % 8);
      if f.Stop? { return out, f.status; }
      DecodeStep(data, out, i, f.field, n + f.size, Lax);
      out := out + [f.field];
      i := i + n + f.size;
    }
    status := Done;
  }
}
