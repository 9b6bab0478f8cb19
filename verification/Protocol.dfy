/** internal/steam/protocol: message headers and their protobuf encoding. */
module Protocol {
  import opened ByteSeq
  import opened Results
  import opened Wire

  const JOB_ID_NONE: Uint64 := TWO_64 - 1

  datatype Header = Header(
    steamId: Uint64,
    sessionId: Int32,
    jobSource: Uint64,
    jobTarget: Uint64,
    jobName: Bytes,
    eresult: Int32,
    errorMessage: Bytes)

  // ------------------------------------------------------------ serialising

  predicate RealJob(id: Uint64) {
    id != 0 && id != JOB_ID_NONE
  }

  datatype Candidate = Candidate(present: bool, field: Field)

  /** The fields a header can have, in wire order, and when each is written. */
  function Candidates(h: Header): seq<Candidate> {
    [ Candidate(h.steamId != 0, MkFixed64(1, h.steamId)),
      Candidate(h.sessionId != 0, MkVarint(2, h.sessionId % TWO_32)),
      Candidate(RealJob(h.jobSource), MkFixed64(10, h.jobSource)),
      Candidate(RealJob(h.jobTarget), MkFixed64(11, h.jobTarget)),
      Candidate(h.jobName != [], MkBytes(12, h.jobName)),
      Candidate(h.eresult != 0, MkVarint(13, h.eresult % TWO_32)),
      Candidate(h.errorMessage != [], MkBytes(14, h.errorMessage)) ]
  }

  function Present(cs: seq<Candidate>): seq<Field> {
    if cs == [] then []
    else Present(cs[..|cs| - 1]) + (if cs[|cs| - 1].present then [cs[|cs| - 1].field] else [])
  }

  function HeaderFields(h: Header): seq<Field> {
    Present(Candidates(h))
  }

  method AppendVarintField(b: Bytes, field: nat, v: Uint64) returns (r: Bytes)
    ensures r == b + FieldBytes(MkVarint(field, v))
  {
    r := AppendVarint(b, Key(field, VARINT));
    r := AppendVarint(r, v);
  }

  method AppendFixed64Field(b: Bytes, field: nat, v: Uint64) returns (r: Bytes)
    ensures r == b + FieldBytes(MkFixed64(field, v))
  {
    hide LittleEndian, VarintBytes;
    r := AppendVarint(b, Key(field, FIXED64));
    r := r + LittleEndian(v, 8);
  }

  method AppendBytesField(b: Bytes, field: nat, v: Bytes) returns (r: Bytes)
    requires |v| < TWO_63
    ensures r == b + FieldBytes(MkBytes(field, v))
  {
    hide VarintBytes;
    r := AppendVarint(b, Key(field, BYTES));
    r := AppendVarint(r, |v|);
    r := r + v;
  }

  /** What the first k candidates encode to. */
  function Prefix(h: Header, k: nat): Bytes
    requires k <= 7
  {
    FieldsBytes(Present(Candidates(h)[..k]))
  }

  lemma PrefixStep(h: Header, k: nat, present: bool, f: Field)
    requires k < 7 && Candidates(h)[k] == Candidate(present, f)
    ensures Prefix(h, k + 1) == if present then Prefix(h, k) + FieldBytes(f) else Prefix(h, k)
  {
    hide FieldBytes;
    var cs := Candidates(h);
    assert cs[..k + 1][..k] == cs[..k];
    assert Present(cs[..k + 1]) == Present(cs[..k]) + (if present then [f] else []);
    FieldsBytesAppend(Present(cs[..k]), [f]);
    assert FieldsBytes([f]) == FieldBytes(f) + FieldsBytes([]);
    if !present { assert Present(cs[..k]) + [] == Present(cs[..k]); }
  }

  function Step(h: Header, k: nat, present: bool, f: Field): Bytes
    requires k < 7
  {
    if present then Prefix(h, k) + FieldBytes(f) else Prefix(h, k)
  }

  lemma PrefixSteps(h: Header)
    ensures Prefix(h, 0) == [] && Prefix(h, 7) == FieldsBytes(HeaderFields(h))
    ensures Prefix(h, 1) == Step(h, 0, h.steamId != 0, MkFixed64(1, h.steamId))
    ensures Prefix(h, 2) == Step(h, 1, h.sessionId != 0, MkVarint(2, h.sessionId % TWO_32))
    ensures Prefix(h, 3) == Step(h, 2, RealJob(h.jobSource), MkFixed64(10, h.jobSource))
    ensures Prefix(h, 4) == Step(h, 3, RealJob(h.jobTarget), MkFixed64(11, h.jobTarget))
    ensures Prefix(h, 5) == Step(h, 4, h.jobName != [], MkBytes(12, h.jobName))
    ensures Prefix(h, 6) == Step(h, 5, h.eresult != 0, MkVarint(13, h.eresult % TWO_32))
    ensures Prefix(h, 7) == Step(h, 6, h.errorMessage != [], MkBytes(14, h.errorMessage))
  {
    PrefixEnds(h);
    hide FieldBytes, Prefix;
    PrefixStep(h, 0, h.steamId != 0, MkFixed64(1, h.steamId));
    PrefixStep(h, 1, h.sessionId != 0, MkVarint(2, h.sessionId % TWO_32));
    PrefixStep(h, 2, RealJob(h.jobSource), MkFixed64(10, h.jobSource));
    PrefixStep(h, 3, RealJob(h.jobTarget), MkFixed64(11, h.jobTarget));
    PrefixStep(h, 4, h.jobName != [], MkBytes(12, h.jobName));
    PrefixStep(h, 5, h.eresult != 0, MkVarint(13, h.eresult % TWO_32));
    PrefixStep(h, 6, h.errorMessage != [], MkBytes(14, h.errorMessage));
  }

  lemma PrefixEnds(h: Header)
    ensures Prefix(h, 0) == [] && Prefix(h, 7) == FieldsBytes(HeaderFields(h))
  {
    assert Candidates(h)[..7] == Candidates(h);
  }

  method SerializeHeader(h: Header) returns (b: Bytes)
    requires |h.jobName| < TWO_63 && |h.errorMessage| < TWO_63
    ensures b == FieldsBytes(HeaderFields(h))
  {
    hide FieldBytes, Prefix, Candidates, HeaderFields, FieldsBytes;
    PrefixSteps(h);
    b := [];
    if h.steamId != 0 { b := AppendFixed64Field(b, 1, h.steamId); }
    if h.sessionId != 0 { b := AppendVarintField(b, 2, h.sessionId % TWO_32); }
    if h.jobSource != 0 && h.jobSource != JOB_ID_NONE { b := AppendFixed64Field(b, 10, h.jobSource); }
    if h.jobTarget != 0 && h.jobTarget != JOB_ID_NONE { b := AppendFixed64Field(b, 11, h.jobTarget); }
    assert b == Prefix(h, 4);
    if h.jobName != [] { b := AppendBytesField(b, 12, h.jobName); }
    if h.eresult != 0 { b := AppendVarintField(b, 13, h.eresult % TWO_32); }
    if h.errorMessage != [] { b := AppendBytesField(b, 14, h.errorMessage); }
  }

  // ---------------------------------------------------------------- parsing

  predicate Matches(f: Field, number: nat, wire: nat) {
    f.number == number && f.Wire() == wire
  }

  /** The last field with this number and wire type, or the zero field. */
  function Last(fs: seq<Field>, number: nat, wire: nat): Field {
    if fs == [] then MkVarint(number, 0)
    else if Matches(fs[|fs| - 1], number, wire) then fs[|fs| - 1]
    else Last(fs[..|fs| - 1], number, wire)
  }

  /** A header is read field by field, each from the last field of the list that
      has its number and its wire type ("Last One Wins"). */
  function HeaderOf(fs: seq<Field>): Header {
    Header(
      Last(fs, 1, FIXED64).Fixed64(),
      ToInt32(Last(fs, 2, VARINT).Varint()),
      Last(fs, 10, FIXED64).Fixed64(),
      Last(fs, 11, FIXED64).Fixed64(),
      Last(fs, 12, BYTES).Content(),
      ToInt32(Last(fs, 13, VARINT).Varint()),
      Last(fs, 14, BYTES).Content())
  }

  /** How one more field changes the header read so far. */
  lemma HeaderOfSnoc(fs: seq<Field>, f: Field)
    ensures var h, h' := HeaderOf(fs), HeaderOf(fs + [f]);
            match f
            case MkVarint(n, v) =>
              h' == if n == 2 then h.(sessionId := ToInt32(v)) else if n == 13 then h.(eresult := ToInt32(v)) else h
            case MkFixed64(n, w) =>
              h' == if n == 1 then h.(steamId := w) else if n == 10 then h.(jobSource := w)
                    else if n == 11 then h.(jobTarget := w) else h
            case MkFixed32(_, _) => h' == h
            case MkBytes(n, s) =>
              h' == if n == 12 then h.(jobName := s) else if n == 14 then h.(errorMessage := s) else h
  {
    assert (fs + [f])[..|fs|] == fs;
  }

  method ConsumeVarint(b: Bytes) returns (v: Uint64, n: nat)
    ensures (v, n) == ReadVarint(b, Strict)
  {
    var x: Uint64 := 0;
    var s: nat := 0;
    var i := 0;
    assert b[..0] == [] && Base128([]) == 0;
    hide Base128, ReadVarint, Shl;
    while i < |b| && i < 10
      invariant 0 <= i <= |b| && i <= 10 && s == 7 * i
      invariant i < 10 ==> x == Base128(b[..i])
      invariant forall j :: 0 <= j < i ==> b[j] >= 128
    {
      var c := b[i];
      NextDigit(b, i, Digit(c));
      if c < 0x80 {
        EndsAt(b, i, Strict);
        if i == 9 && c > 1 { return 0, 0; }
        return x + Shl(c, s), i + 1;
      }
      x := x + Shl(Digit(c), s);
      s := s + 7;
      i := i + 1;
    }
    NotWithin(b, i, Strict);
    return 0, 0;
  }

  /** The fused parser: no field list is built. It refines the generic decoder:
      for every input its header and its outcome are those of reading the whole
      field list (with the strict varint reader) and taking the last of each. */
  method ParseProtoBufHeader(data: Bytes) returns (h: Header, status: Status)
    ensures h == HeaderOf(ReadFields(data, 0, Strict).fields)
    ensures status == ReadFields(data, 0, Strict).status
  {
    hide ReadVarint, ReadFields, FromLittleEndian;
    ghost var fs: seq<Field> := [];
    h := Header(0, 0, 0, 0, [], 0, []);
    assert h == HeaderOf(fs);
    hide HeaderOf, ToInt32, Prepend;
    var i := 0;
    assert data[0..] == data;
    PrependAssociates(MkVarint(0, 0), [], ReadFields(data, 0, Strict));
    while i < |data|
      invariant 0 <= i <= |data|
      invariant h == HeaderOf(fs)
      invariant ReadFields(data, 0, Strict) == Prepend(fs, ReadFields(data[i..], i, Strict))
    {
      var key, n := ConsumeVarint(data[i..]);
      if n == 0 { StopsHere(data, fs, i); return h, Malformed; }
      var j := i + n;
      ghost var value := data[i..][n..];
      assert data[j..] == value;
      var field, wt := key / 8, key % 8;
      ReadFieldIs(data[i..], i, key, n, Strict);
      hide ReadField, ReadValue;
      ghost var f;
      if wt == VARINT {
        var v, m := ConsumeVarint(data[j..]);
        VarintValue(field, value, j, v, m, Strict);
        if m == 0 { StopsHere(data, fs, i); return h, Malformed; }
        j := j + m;
        f := MkVarint(field, v);
        if field == 2 { h := h.(sessionId := ToInt32(v)); }
        else if field == 13 { h := h.(eresult := ToInt32(v)); }
      } else if wt == BYTES {
        var l, m := ConsumeVarint(data[j..]);
        BytesValue(field, value, j, l, m, Strict);
        if m == 0 { StopsHere(data, fs, i); return h, Malformed; }
        if j + m + l >= TWO_63 { StopsHere(data, fs, i); return h, Fault; }
        if j + m + l > |data| { StopsHere(data, fs, i); return h, Malformed; }
        j := j + m;
        var val := data[j..j + l];
        assert val == value[m..m + l];
        j := j + l;
        f := MkBytes(field, val);
        if field == 12 { h := h.(jobName := val); }
        else if field == 14 { h := h.(errorMessage := val); }
      } else if wt == FIXED32 {
        FixedValue(field, value, j, Strict);
        if j + 4 > |data| { StopsHere(data, fs, i); return h, Malformed; }
        f := MkFixed32(field, Word32(value[..4]));
        j := j + 4;
      } else if wt == FIXED64 {
        FixedValue(field, value, j, Strict);
        if j + 8 > |data| { StopsHere(data, fs, i); return h, Malformed; }
        var v := Word64(data[j..j + 8]);
        assert data[j..j + 8] == value[..8];
        j := j + 8;
        f := MkFixed64(field, v);
        if field == 1 { h := h.(steamId := v); }
        else if field == 10 { h := h.(jobSource := v); }
        else if field == 11 { h := h.(jobTarget := v); }
      } else {
        FixedValue(field, value, j, Strict);
        StopsHere(data, fs, i);
        return h, Malformed;
      }
      assert ReadField(data[i..], i, Strict) == Got(f, j - i);
      DecodeStep(data, fs, i, f, j - i, Strict);
      HeaderOfSnoc(fs, f);
      fs := fs + [f];
      i := j;
    }
    EndsHere(data, fs);
    status := Done;
  }

  lemma StopsHere(data: Bytes, fs: seq<Field>, i: nat)
    requires i < |data| && ReadField(data[i..], i, Strict).Stop?
    requires ReadFields(data, 0, Strict) == Prepend(fs, ReadFields(data[i..], i, Strict))
    ensures ReadFields(data, 0, Strict) == Decoded(fs, ReadField(data[i..], i, Strict).status)
  {
    hide ReadField;
    assert fs + [] == fs;
  }

  lemma EndsHere(data: Bytes, fs: seq<Field>)
    requires ReadFields(data, 0, Strict) == Prepend(fs, ReadFields(data[|data|..], |data|, Strict))
    ensures ReadFields(data, 0, Strict) == Decoded(fs, Done)
  {
    assert fs + [] == fs;
  }

  // ------------------------------------------------------------ round trips

  /** What survives serialising: a job id of "none" comes back as 0. */
  function Normal(h: Header): Header {
    h.(jobSource := if RealJob(h.jobSource) then h.jobSource else 0,
       jobTarget := if RealJob(h.jobTarget) then h.jobTarget else 0)
  }

  lemma {:induction false} LastPresent(cs: seq<Candidate>, number: nat, wire: nat)
    ensures Last(Present(cs), number, wire)
            == if cs == [] then MkVarint(number, 0)
               else if cs[|cs| - 1].present && Matches(cs[|cs| - 1].field, number, wire) then cs[|cs| - 1].field
               else Last(Present(cs[..|cs| - 1]), number, wire)
  {
    if cs != [] {
      var p, c := Present(cs[..|cs| - 1]), cs[|cs| - 1];
      if c.present { assert (p + [c.field])[..|p|] == p; } else { assert p + [] == p; }
    }
  }

  /** With distinct field numbers, the last field of a number is its candidate. */
  lemma {:induction false} LastOf(cs: seq<Candidate>, k: nat)
    requires k < |cs|
    requires forall i, j :: 0 <= i < j < |cs| ==> cs[i].field.number != cs[j].field.number
    ensures var f := cs[k].field;
            Last(Present(cs), f.number, f.Wire()) == if cs[k].present then f else MkVarint(f.number, 0)
  {
    var f := cs[k].field;
    LastPresent(cs, f.number, f.Wire());
    if k < |cs| - 1 {
      LastOf(cs[..|cs| - 1], k);
    } else {
      LastAbsent(cs[..k], f.number, f.Wire());
    }
  }

  lemma {:induction false} LastAbsent(cs: seq<Candidate>, number: nat, wire: nat)
    requires forall i :: 0 <= i < |cs| ==> cs[i].field.number != number
    ensures Last(Present(cs), number, wire) == MkVarint(number, 0)
  {
    LastPresent(cs, number, wire);
    if cs != [] { LastAbsent(cs[..|cs| - 1], number, wire); }
  }

  lemma Int32RoundTrip(x: Int32)
    ensures ToInt32(x % TWO_32) == x
  {
  }

  lemma HeaderOfFields(h: Header)
    ensures HeaderOf(HeaderFields(h)) == Normal(h)
  {
    hide Present, Last;
    var cs := Candidates(h);
    LastOf(cs, 0); LastOf(cs, 1); LastOf(cs, 2); LastOf(cs, 3);
    LastOf(cs, 4); LastOf(cs, 5); LastOf(cs, 6);
    Int32RoundTrip(h.sessionId);
    Int32RoundTrip(h.eresult);
  }

  lemma {:induction false} PresentFits(cs: seq<Candidate>)
    requires forall i :: 0 <= i < |cs| ==> cs[i].field.number < TWO_61
    ensures NumbersFit(Present(cs))
  {
    if cs != [] { PresentFits(cs[..|cs| - 1]); }
  }

  /** Every header round-trips, up to "none" job ids becoming 0; the parse is
      exact if and only if neither job id is the "none" value. */
  lemma HeaderRoundTrip(h: Header)
    requires |FieldsBytes(HeaderFields(h))| < TWO_63
    ensures var d := ReadFields(FieldsBytes(HeaderFields(h)), 0, Strict);
            && d.status == Done && HeaderOf(d.fields) == Normal(h)
            && (HeaderOf(d.fields) == h <==> h.jobSource != JOB_ID_NONE && h.jobTarget != JOB_ID_NONE)
  {
    PresentFits(Candidates(h));
    DecodeOfEncode(HeaderFields(h), Strict);
    HeaderOfFields(h);
  }

  predicate Known(f: Field) {
    (f.number in {1, 10, 11} && f.MkFixed64?) || (f.number in {2, 13} && f.MkVarint?) || (f.number in {12, 14} && f.MkBytes?)
  }

  lemma {:induction false} LastSkips(a: seq<Field>, f: Field, b: seq<Field>, number: nat, wire: nat)
    requires !Matches(f, number, wire)
    ensures Last(a + [f] + b, number, wire) == Last(a + b, number, wire)
  {
    if b == [] {
      assert a + [f] + b == a + [f] && a + b == a;
      assert (a + [f])[..|a|] == a;
    } else {
      var b', g := b[..|b| - 1], b[|b| - 1];
      assert (a + [f] + b)[..|a + [f] + b| - 1] == a + [f] + b' && (a + b)[..|a + b| - 1] == a + b';
      LastSkips(a, f, b', number, wire);
    }
  }

  /** Fields the header does not know, wherever they stand, never matter. */
  lemma UnknownFieldsIgnored(a: seq<Field>, f: Field, b: seq<Field>)
    requires !Known(f)
    ensures HeaderOf(a + [f] + b) == HeaderOf(a + b)
  {
    hide Last;
    LastIgnores(a, f, b, 1, FIXED64); LastIgnores(a, f, b, 10, FIXED64); LastIgnores(a, f, b, 11, FIXED64);
    LastIgnores(a, f, b, 2, VARINT); LastIgnores(a, f, b, 13, VARINT);
    LastIgnores(a, f, b, 12, BYTES); LastIgnores(a, f, b, 14, BYTES);
  }

  lemma LastIgnores(a: seq<Field>, f: Field, b: seq<Field>, number: nat, wire: nat)
    ensures !Matches(f, number, wire) ==> Last(a + [f] + b, number, wire) == Last(a + b, number, wire)
  {
    if !Matches(f, number, wire) { LastSkips(a, f, b, number, wire); }
  }

  /** The header of a message read with the generic decoder instead: whenever
      the fused parser succeeds, so does Decode, on the same fields. */
  lemma FusedParserRefinesDecode(data: Bytes)
    requires ReadFields(data, 0, Strict).status == Done
    ensures ReadFields(data, 0, Lax) == ReadFields(data, 0, Strict)
  {
    StrictRefinesLax(data, 0);
  }

  // --------------------------------------------------------------- messages

  const PROTO_BIT := TWO_31

  predicate IsProto(raw: Uint32) {
    raw >= PROTO_BIT
  }

  function ClearProtoBit(raw: Uint32): (msg: Uint32) {
    raw % PROTO_BIT
  }

  function SetProtoBit(msg: Uint32): (raw: Uint32)
    ensures IsProto(raw) && ClearProtoBit(raw) == msg % PROTO_BIT
  {
    if msg >= PROTO_BIT then msg else msg + PROTO_BIT
  }

  datatype MsgProto = MsgProto(msg: Uint32, header: Header, body: Bytes)

  /** Layout: the message id with its high bit set, the header length, the
      header, the body. */
  function MsgProtoBytes(m: MsgProto): Bytes {
    var hdr := FieldsBytes(HeaderFields(m.header));
    LittleEndian(SetProtoBit(m.msg), 4) + LittleEndian(|hdr|, 4) + hdr + m.body
  }

  method SerializeMsgProto(m: MsgProto) returns (out: Bytes)
    requires |m.header.jobName| < TWO_63 && |m.header.errorMessage| < TWO_63
    ensures out == MsgProtoBytes(m)
  {
    hide LittleEndian, FieldsBytes;
    var hdr := SerializeHeader(m.header);
    out := LittleEndian(SetProtoBit(m.msg), 4) + LittleEndian(|hdr|, 4) + hdr + m.body;
  }

  function ParsedMsgProto(data: Bytes): Outcome<MsgProto> {
    if |data| < 8 then Fail else
    var raw, hlen := Word32(data[0..4]), Word32(data[4..8]);
    if !IsProto(raw) then Fail
    else if 8 + hlen > |data| then Fail
    else
      var d := ReadFields(data[8..8 + hlen], 0, Strict);
      match d.status
      case Malformed => Fail
      case Fault => Crash
      case Done => Ok(MsgProto(ClearProtoBit(raw), HeaderOf(d.fields), data[8 + hlen..]))
  }

  method ParseMsgProto(data: Bytes) returns (res: Outcome<MsgProto>)
    ensures res == ParsedMsgProto(data)
  {
    hide ReadFields, HeaderOf, FromLittleEndian;
    if |data| < 8 { return Fail; }
    var raw := Word32(data[0..4]);
    if !IsProto(raw) { return Fail; }
    var msg := ClearProtoBit(raw);
    var hlen := Word32(data[4..8]);
    if 8 + hlen > |data| { return Fail; }
    var hdr, status := ParseProtoBufHeader(data[8..8 + hlen]);
    match status {
      case Malformed => return Fail;
      case Fault => return Crash;
      case Done => return Ok(MsgProto(msg, hdr, data[8 + hlen..]));
    }
  }

  /** Sizes Go can hold: a header length is written as a uint32. */
  predicate Sized(m: MsgProto) {
    |FieldsBytes(HeaderFields(m.header))| < TWO_32
  }

  function NormalMsg(m: MsgProto): MsgProto {
    m.(msg := m.msg % PROTO_BIT, header := Normal(m.header))
  }

  lemma FourParts(a: Bytes, b: Bytes, c: Bytes, d: Bytes)
    requires |a| == 4 && |b| == 4
    ensures var s := a + b + c + d;
            s[0..4] == a && s[4..8] == b && s[8..8 + |c|] == c && s[8 + |c|..] == d
  {
  }

  lemma MsgProtoRoundTrip(m: MsgProto)
    requires Sized(m)
    ensures ParsedMsgProto(MsgProtoBytes(m)) == Ok(NormalMsg(m))
  {
    var hdr := FieldsBytes(HeaderFields(m.header));
    var data := MsgProtoBytes(m);
    HeaderRoundTrip(m.header);
    PowersOf256();
    LittleEndianInverse(SetProtoBit(m.msg), 4);
    LittleEndianInverse(|hdr|, 4);
    hide LittleEndian, FromLittleEndian, FieldsBytes, ReadFields, HeaderOf, HeaderFields;
    FourParts(LittleEndian(SetProtoBit(m.msg), 4), LittleEndian(|hdr|, 4), hdr, m.body);
  }

  /** Struct-headed messages (`<Iqq`), used during channel encryption. */
  datatype Msg = Msg(msg: Uint32, targetJob: Uint64, sourceJob: Uint64, body: Bytes)

  function ParsedMsg(data: Bytes): Outcome<Msg> {
    if |data| < 20 then Fail
    else Ok(Msg(Word32(data[0..4]), Word64(data[4..12]), Word64(data[12..20]), data[20..]))
  }

  function MsgBytes(m: Msg): Bytes {
    LittleEndian(m.msg, 4) + LittleEndian(m.targetJob, 8) + LittleEndian(m.sourceJob, 8) + m.body
  }

  lemma MsgRoundTrip(m: Msg)
    ensures ParsedMsg(MsgBytes(m)) == Ok(m)
  {
    PowersOf256();
    LittleEndianInverse(m.msg, 4);
    LittleEndianInverse(m.targetJob, 8);
    LittleEndianInverse(m.sourceJob, 8);
    hide LittleEndian, FromLittleEndian;
    ThreeParts(LittleEndian(m.msg, 4), LittleEndian(m.targetJob, 8), LittleEndian(m.sourceJob, 8), m.body);
  }

  lemma MsgOnto(data: Bytes)
    requires |data| >= 20
    ensures MsgBytes(ParsedMsg(data).value) == data
  {
    LittleEndianOnto(data[0..4]);
    LittleEndianOnto(data[4..12]);
    LittleEndianOnto(data[12..20]);
    hide LittleEndian, FromLittleEndian;
    assert data == data[0..4] + data[4..12] + data[12..20] + data[20..];
  }

  /** A struct-headed message is parsed exactly from its own encoding. */
  lemma MsgExact(data: Bytes, m: Msg)
    ensures ParsedMsg(data) == Ok(m) <==> data == MsgBytes(m)
  {
    hide FromLittleEndian, MsgBytes;
    MsgRoundTrip(m);
    if |data| >= 20 { MsgOnto(data); }
  }

  lemma ThreeParts(a: Bytes, b: Bytes, c: Bytes, d: Bytes)
    requires |a| == 4 && |b| == 8 && |c| == 8
    ensures var s := a + b + c + d; s[0..4] == a && s[4..12] == b && s[12..20] == c && s[20..] == d
  {
  }
}
