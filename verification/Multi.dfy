/** internal/steam/cm/client.go, dispatch and handleMulti: what a received
    message delivers. `gunzip` is the decompressor; None stands for its error.

    The source recurses from dispatch to handleMulti and back with no bound of
    its own. `fuel` is the nesting that the stack still has room for; running out
    of it is the outcome Exhausted. */
module Multi {
  import opened ByteSeq
  import opened Results
  import opened Wire
  import opened Protocol

  const EMSG_MULTI := 1

  datatype Packet = ProtoPacket(mp: MsgProto) | StructPacket(m: Msg)
  {
    function EMsg(): Uint32 { if ProtoPacket? then mp.msg else m.msg }
    predicate IsMulti() { ProtoPacket? && mp.msg == EMSG_MULTI }
  }

  datatype Ending = Finished | Crashed | Exhausted
  datatype Delivery = Delivery(packets: seq<Packet>, ending: Ending)
  {
    /** Deliver this, then that: nothing comes after a crash. */
    function Then(that: Delivery): Delivery {
      if ending.Finished? then Delivery(packets + that.packets, that.ending) else this
    }
  }

  const NOTHING := Delivery([], Finished)

  function ParsedPacket(msg: Bytes): Outcome<Packet> {
    if |msg| < 4 then Fail
    else if IsProto(Word32(msg[0..4])) then
      match ParsedMsgProto(msg)
      case Ok(mp) => Ok(ProtoPacket(mp))
      case Fail => Fail
      case Crash => Crash
    else
      match ParsedMsg(msg)
      case Ok(m) => Ok(StructPacket(m))
      case Fail => Fail
      case Crash => Crash
  }

  // ------------------------------------------------------ the Multi envelope

  /** A fixed-width field whose value runs past the end of the message. */
  predicate CutFixed(rest: Bytes) {
    var (key, k) := ReadVarint(rest, Lax);
    k > 0 && ((key % 8 == FIXED32 && k + 4 > |rest|) || (key % 8 == FIXED64 && k + 8 > |rest|))
  }

  /** The fields handleMulti sees: those of Decode, except that a cut fixed-width
      field at the end is stepped over instead of refused. */
  function MultiFields(rest: Bytes, at: nat): Decoded
    decreases |rest|
  {
    if rest == [] || CutFixed(rest) then Decoded([], Done) else
    match ReadField(rest, at, Lax)
    case Stop(s) => Decoded([], s)
    case Got(f, n) => Prepend([f], MultiFields(rest[n..], at + n))
  }

  predicate Zipped(size: Uint64, payload: Bytes) {
    size > 0 || (|payload| >= 2 && payload[0] == 0x1f && payload[1] == 0x8b)
  }

  predicate LooksZipped(fs: seq<Field>) {
    Zipped(Last(fs, 1, VARINT).Varint(), Last(fs, 2, BYTES).Content())
  }

  /** The inner payload of a Multi body: the last bytes field 2, decompressed if
      the last varint field 1 is positive or it starts with the gzip magic. */
  function MultiPayload(gunzip: Bytes -> Option<Bytes>, body: Bytes): Outcome<Bytes> {
    var d := MultiFields(body, 0);
    match d.status
    case Malformed => Fail
    case Fault => Crash
    case Done =>
      var payload := Last(d.fields, 2, BYTES).Content();
      if LooksZipped(d.fields) then
        match gunzip(payload)
        case None => Fail
        case Some(plain) => Ok(plain)
      else Ok(payload)
  }

  /** The inner messages, each behind its length; the first that is cut short
      ends the list. */
  function Inner(payload: Bytes): (msgs: seq<Bytes>)
    decreases |payload|
  {
    if |payload| < 4 then [] else
    var n, rest := Word32(payload[..4]), payload[4..];
    if n > |rest| then [] else [rest[..n]] + Inner(rest[n..])
  }

  // ---------------------------------------------------------------- delivery

  function Dispatched(gunzip: Bytes -> Option<Bytes>, msg: Bytes, fuel: nat): Delivery
    decreases fuel, 0, 0
  {
    match ParsedPacket(msg)
    case Fail => NOTHING
    case Crash => Delivery([], Crashed)
    case Ok(p) =>
      if !p.IsMulti() then Delivery([p], Finished)
      else if fuel == 0 then Delivery([], Exhausted)
      else MultiDelivered(gunzip, p.mp.body, fuel - 1)
  }

  function MultiDelivered(gunzip: Bytes -> Option<Bytes>, body: Bytes, fuel: nat): Delivery
    decreases fuel, 2, 0
  {
    match MultiPayload(gunzip, body)
    case Fail => NOTHING
    case Crash => Delivery([], Crashed)
    case Ok(payload) => AllDispatched(gunzip, Inner(payload), fuel)
  }

  function AllDispatched(gunzip: Bytes -> Option<Bytes>, msgs: seq<Bytes>, fuel: nat): Delivery
    decreases fuel, 1, |msgs|
  {
    if msgs == [] then NOTHING
    else Dispatched(gunzip, msgs[0], fuel).Then(AllDispatched(gunzip, msgs[1..], fuel))
  }

  // ------------------------------------------------------------- termination

  predicate ContentsWithin(fs: seq<Field>, n: nat) {
    forall i :: 0 <= i < |fs| ==> |fs[i].Content()| <= n
  }

  lemma ReadFieldWithin(rest: Bytes, at: nat)
    requires ReadField(rest, at, Lax).Got?
    ensures |ReadField(rest, at, Lax).field.Content()| <= |rest|
  {
    hide ReadVarint, FromLittleEndian;
  }

  lemma {:induction false} MultiFieldsWithin(rest: Bytes, at: nat, bound: nat)
    requires |rest| <= bound
    ensures ContentsWithin(MultiFields(rest, at).fields, bound)
    decreases |rest|
  {
    hide ReadField, CutFixed;
    if rest != [] && !CutFixed(rest) && ReadField(rest, at, Lax).Got? {
      ReadFieldWithin(rest, at);
      var n := ReadField(rest, at, Lax).size;
      MultiFieldsWithin(rest[n..], at + n, bound);
    }
  }

  lemma {:induction false} LastWithin(fs: seq<Field>, number: nat, wire: nat, n: nat)
    requires ContentsWithin(fs, n)
    ensures |Last(fs, number, wire).Content()| <= n
  {
    if fs != [] { LastWithin(fs[..|fs| - 1], number, wire, n); }
  }

  predicate AllShorter(msgs: seq<Bytes>, n: nat) {
    forall i :: 0 <= i < |msgs| ==> |msgs[i]| < n
  }

  lemma {:induction false} InnerShorter(payload: Bytes)
    ensures AllShorter(Inner(payload), |payload|)
    decreases |payload|
  {
    if |payload| >= 4 && Word32(payload[..4]) <= |payload| - 4 {
      hide FromLittleEndian;
      InnerShorter(payload[4..][Word32(payload[..4])..]);
    }
  }

  /** A payload that is not decompressed is no longer than the body it was in. */
  lemma PayloadWithin(gunzip: Bytes -> Option<Bytes>, body: Bytes)
    requires MultiPayload(gunzip, body).Ok? && !LooksZipped(MultiFields(body, 0).fields)
    ensures |MultiPayload(gunzip, body).value| <= |body|
  {
    hide MultiFields, Last;
    MultiFieldsWithin(body, 0, |body|);
    LastWithin(MultiFields(body, 0).fields, 2, BYTES, |body|);
  }

  lemma BodyShorter(msg: Bytes)
    requires ParsedPacket(msg).Ok? && ParsedPacket(msg).value.ProtoPacket?
    ensures |ParsedPacket(msg).value.mp.body| < |msg|
  {
    hide ReadFields, FromLittleEndian, HeaderOf;
  }

  /** Nothing that is decompressed while this message is unpacked becomes longer
      than the body it was in. */
  predicate Contracting(gunzip: Bytes -> Option<Bytes>, msg: Bytes)
    decreases |msg|, 0, 0
  {
    var r := ParsedPacket(msg);
    if !r.Ok? || !r.value.IsMulti() then true
    else BodyShorter(msg); BodyContracting(gunzip, r.value.mp.body)
  }

  predicate BodyContracting(gunzip: Bytes -> Option<Bytes>, body: Bytes)
    decreases |body|, 2, 0
  {
    var r := MultiPayload(gunzip, body);
    if !r.Ok? then true
    else if LooksZipped(MultiFields(body, 0).fields) && |r.value| > |body| then false
    else NoLonger(gunzip, body); AllContracting(gunzip, Inner(r.value), |r.value|)
  }

  lemma NoLonger(gunzip: Bytes -> Option<Bytes>, body: Bytes)
    requires MultiPayload(gunzip, body).Ok?
    requires LooksZipped(MultiFields(body, 0).fields) ==> |MultiPayload(gunzip, body).value| <= |body|
    ensures |MultiPayload(gunzip, body).value| <= |body|
    ensures AllShorter(Inner(MultiPayload(gunzip, body).value), |MultiPayload(gunzip, body).value|)
  {
    if !LooksZipped(MultiFields(body, 0).fields) { PayloadWithin(gunzip, body); }
    InnerShorter(MultiPayload(gunzip, body).value);
  }

  predicate AllContracting(gunzip: Bytes -> Option<Bytes>, msgs: seq<Bytes>, bound: nat)
    requires AllShorter(msgs, bound)
    decreases bound, 1, |msgs|
  {
    msgs == [] || (Contracting(gunzip, msgs[0]) && AllContracting(gunzip, msgs[1..], bound))
  }

  /** Each inner message is strictly shorter than its container, so unpacking a
      message ends within |msg| levels unless something met on the way grows when
      it is decompressed. Of the decompressor nothing is required. */
  lemma {:induction false} DispatchTerminates(gunzip: Bytes -> Option<Bytes>, msg: Bytes, fuel: nat)
    requires Contracting(gunzip, msg) && fuel >= |msg|
    ensures !Dispatched(gunzip, msg, fuel).ending.Exhausted?
    decreases fuel, 0, 0
  {
    hide ParsedPacket, MultiPayload, Inner, LooksZipped, MultiFields, AllContracting;
    var r := ParsedPacket(msg);
    if r.Ok? && r.value.IsMulti() {
      BodyShorter(msg);
      var body := r.value.mp.body;
      var pl := MultiPayload(gunzip, body);
      if pl.Ok? {
        NoLonger(gunzip, body);
        AllTerminate(gunzip, Inner(pl.value), |pl.value|, fuel - 1);
      }
    }
  }

  lemma {:induction false} AllTerminate(gunzip: Bytes -> Option<Bytes>, msgs: seq<Bytes>, bound: nat, fuel: nat)
    requires AllShorter(msgs, bound) && AllContracting(gunzip, msgs, bound) && fuel + 1 >= bound
    ensures !AllDispatched(gunzip, msgs, fuel).ending.Exhausted?
    decreases fuel, 1, |msgs|
  {
    hide Contracting;
    if msgs != [] {
      DispatchTerminates(gunzip, msgs[0], fuel);
      AllTerminate(gunzip, msgs[1..], bound, fuel);
    }
  }

  /** More stack than was needed changes nothing. */
  lemma {:induction false} FuelIrrelevant(gunzip: Bytes -> Option<Bytes>, msg: Bytes, fuel: nat, more: nat)
    requires !Dispatched(gunzip, msg, fuel).ending.Exhausted? && fuel <= more
    ensures Dispatched(gunzip, msg, more) == Dispatched(gunzip, msg, fuel)
    decreases fuel, 0
  {
    hide ParsedPacket, MultiPayload, Inner;
    var r := ParsedPacket(msg);
    if r.Ok? && r.value.IsMulti() {
      var pl := MultiPayload(gunzip, r.value.mp.body);
      if pl.Ok? { AllFuelIrrelevant(gunzip, Inner(pl.value), fuel - 1, more - 1); }
    }
  }

  lemma {:induction false} AllFuelIrrelevant(gunzip: Bytes -> Option<Bytes>, msgs: seq<Bytes>, fuel: nat, more: nat)
    requires !AllDispatched(gunzip, msgs, fuel).ending.Exhausted? && fuel <= more
    ensures AllDispatched(gunzip, msgs, more) == AllDispatched(gunzip, msgs, fuel)
    decreases fuel, 1, |msgs|
  {
    if msgs != [] {
      FuelIrrelevant(gunzip, msgs[0], fuel, more);
      if Dispatched(gunzip, msgs[0], fuel).ending.Finished? {
        AllFuelIrrelevant(gunzip, msgs[1..], fuel, more);
      }
    }
  }

  // -------------------------------------------------------------- flattening

  /** Messages nested in Multi messages, plain or compressed. size is what a
      compressed one announces; only that it is not zero matters. */
  datatype Tree =
    | Leaf(raw: Bytes)
    | Node(header: Header, children: seq<Tree>)
    | Packed(header: Header, size: Uint64, children: seq<Tree>)

  function TreeBytes(zip: Bytes -> Bytes, t: Tree): Bytes
    decreases t, 1
  {
    match t
    case Leaf(raw) => raw
    case Node(header, children) =>
      MsgProtoBytes(MsgProto(EMSG_MULTI, header, MultiBody(InnerBytes(zip, children))))
    case Packed(header, size, children) =>
      MsgProtoBytes(MsgProto(EMSG_MULTI, header, PackedBody(size, zip(InnerBytes(zip, children)))))
  }

  function MultiBody(payload: Bytes): Bytes {
    FieldsBytes([MkBytes(2, payload)])
  }

  function PackedBody(size: Uint64, z: Bytes): Bytes {
    FieldsBytes([MkVarint(1, size), MkBytes(2, z)])
  }

  function InnerBytes(zip: Bytes -> Bytes, ts: seq<Tree>): Bytes
    decreases ts, 0
  {
    if ts == [] then []
    else LittleEndian(|TreeBytes(zip, ts[0])|, 4) + TreeBytes(zip, ts[0]) + InnerBytes(zip, ts[1..])
  }

  /** A leaf parses and is not a Multi itself; sizes fit their fields; a plain
      payload does not start with the gzip magic; a compressed one is announced or
      starts with it, and decompresses to what it was. */
  predicate GoodTree(zip: Bytes -> Bytes, gunzip: Bytes -> Option<Bytes>, t: Tree)
    decreases t, 1
  {
    match t
    case Leaf(raw) => ParsedPacket(raw).Ok? && !ParsedPacket(raw).value.IsMulti()
    case Node(header, children) =>
      && GoodTrees(zip, gunzip, children)
      && Sized(MsgProto(EMSG_MULTI, header, []))
      && !Zipped(0, InnerBytes(zip, children))
      && |MultiBody(InnerBytes(zip, children))| < TWO_63
    case Packed(header, size, children) =>
      var inner := InnerBytes(zip, children);
      && GoodTrees(zip, gunzip, children)
      && Sized(MsgProto(EMSG_MULTI, header, []))
      && Zipped(size, zip(inner)) && gunzip(zip(inner)) == Some(inner)
      && |PackedBody(size, zip(inner))| < TWO_63
  }

  predicate GoodTrees(zip: Bytes -> Bytes, gunzip: Bytes -> Option<Bytes>, ts: seq<Tree>)
    decreases ts, 0
  {
    ts == []
    || (GoodTree(zip, gunzip, ts[0]) && |TreeBytes(zip, ts[0])| < TWO_32 && GoodTrees(zip, gunzip, ts[1..]))
  }

  predicate LeavesParse(t: Tree)
    decreases t, 1
  {
    match t
    case Leaf(raw) => ParsedPacket(raw).Ok?
    case Node(_, children) => AllLeavesParse(children)
    case Packed(_, _, children) => AllLeavesParse(children)
  }

  predicate AllLeavesParse(ts: seq<Tree>)
    decreases ts, 0
  {
    ts == [] || (LeavesParse(ts[0]) && AllLeavesParse(ts[1..]))
  }

  /** The leaves, left to right. */
  function Leaves(t: Tree): seq<Packet>
    requires LeavesParse(t)
    decreases t, 1
  {
    match t
    case Leaf(raw) => [ParsedPacket(raw).value]
    case Node(_, children) => AllLeaves(children)
    case Packed(_, _, children) => AllLeaves(children)
  }

  function AllLeaves(ts: seq<Tree>): seq<Packet>
    requires AllLeavesParse(ts)
    decreases ts, 0
  {
    if ts == [] then [] else Leaves(ts[0]) + AllLeaves(ts[1..])
  }

  function Depth(t: Tree): nat
    decreases t, 1
  {
    match t
    case Leaf(_) => 0
    case Node(_, children) => 1 + MaxDepth(children)
    case Packed(_, _, children) => 1 + MaxDepth(children)
  }

  function MaxDepth(ts: seq<Tree>): nat
    decreases ts, 0
  {
    if ts == [] then 0
    else if Depth(ts[0]) > MaxDepth(ts[1..]) then Depth(ts[0]) else MaxDepth(ts[1..])
  }

  lemma NotCut(f: Field, rest: Bytes)
    requires f.MkVarint? || f.MkBytes?
    ensures !CutFixed(FieldBytes(f) + rest)
  {
    hide VarintBytes, ReadVarint, ValueBytes;
    var key := Key(f.number, f.Wire());
    assert FieldBytes(f) + rest == VarintBytes(key) + (ValueBytes(f) + rest);
    VarintRoundTrip(key, ValueBytes(f) + rest, Lax);
  }

  lemma MultiFieldsCons(s: Bytes, at: nat, f: Field, n: nat)
    requires s != [] && !CutFixed(s) && ReadField(s, at, Lax) == Got(f, n)
    ensures MultiFields(s, at) == Prepend([f], MultiFields(s[n..], at + n))
  {
    hide ReadField, CutFixed;
  }

  lemma {:induction false} MultiFieldsOf(fs: seq<Field>, at: nat)
    requires NumbersFit(fs) && at + |FieldsBytes(fs)| < TWO_63
    requires forall i :: 0 <= i < |fs| ==> fs[i].MkVarint? || fs[i].MkBytes?
    ensures MultiFields(FieldsBytes(fs), at) == Decoded(fs, Done)
  {
    hide ReadField, CutFixed, FieldBytes, MultiFields;
    if fs == [] {
      NoMultiFields(at);
    } else {
      var f, rest := fs[0], FieldsBytes(fs[1..]);
      var b := FieldBytes(f);
      FieldRoundTrip(f, rest, at, Lax);
      NotCut(f, rest);
      MultiFieldsCons(b + rest, at, f, |b|);
      MultiFieldsOf(fs[1..], at + |b|);
      assert (b + rest)[|b|..] == rest && [f] + fs[1..] == fs;
    }
  }

  lemma NoMultiFields(at: nat)
    ensures MultiFields([], at) == Decoded([], Done)
  {
  }

  lemma LastOfTwo(f: Field, g: Field, number: nat, wire: nat)
    ensures Last([g], number, wire) == if Matches(g, number, wire) then g else MkVarint(number, 0)
    ensures Last([f, g], number, wire)
            == if Matches(g, number, wire) then g else if Matches(f, number, wire) then f else MkVarint(number, 0)
  {
    assert [f, g][..1] == [f] && [f][..0] == [] && [g][..0] == [];
  }

  /** A Multi that announces a size is decompressed whatever it starts with; one
      that does not is if it starts with the gzip magic. What cannot be
      decompressed delivers nothing. */
  lemma AnnouncedIsDecompressed(gunzip: Bytes -> Option<Bytes>, size: Uint64, z: Bytes, fuel: nat)
    requires |PackedBody(size, z)| < TWO_63
    ensures var plain := if size > 0 || [0x1f, 0x8b] <= z then gunzip(z) else Some(z);
            MultiDelivered(gunzip, PackedBody(size, z), fuel)
            == if plain.None? then Delivery([], Finished) else AllDispatched(gunzip, Inner(plain.value), fuel)
  {
    hide MultiFields, Last, Inner, AllDispatched, PackedBody, Zipped;
    AnnouncedFields(size, z);
    ZippedMeans(size, z);
  }

  lemma AnnouncedFields(size: Uint64, z: Bytes)
    requires |PackedBody(size, z)| < TWO_63
    ensures var d := MultiFields(PackedBody(size, z), 0);
            && d.status.Done? && Last(d.fields, 2, BYTES).Content() == z && LooksZipped(d.fields) == Zipped(size, z)
  {
    var fs := [MkVarint(1, size), MkBytes(2, z)];
    MultiFieldsOf(fs, 0);
    LastOfTwo(fs[0], fs[1], 1, VARINT);
    LastOfTwo(fs[0], fs[1], 2, BYTES);
    hide MultiFields, Last, Zipped;
  }

  lemma ZippedMeans(size: Uint64, z: Bytes)
    ensures Zipped(size, z) <==> size > 0 || [0x1f, 0x8b] <= z
  {
    if |z| >= 2 { assert z[..2] == [z[0], z[1]]; }
  }

  /** The first bytes of a fixed-width field. */
  predicate CutField(f: Field, cut: Bytes) {
    && (f.MkFixed32? || f.MkFixed64?)
    && |VarintBytes(Key(f.number, f.Wire()))| <= |cut| < |FieldBytes(f)| && cut <= FieldBytes(f)
  }

  /** A fixed-width field whose value is cut off at the end of the body does not
      matter: the fields before it are those that count. */
  lemma {:induction false} CutFieldIgnored(fs: seq<Field>, f: Field, cut: Bytes, at: nat)
    requires NumbersFit(fs) && at + |FieldsBytes(fs)| + |cut| < TWO_63
    requires forall i :: 0 <= i < |fs| ==> fs[i].MkVarint? || fs[i].MkBytes?
    requires CutField(f, cut)
    ensures MultiFields(FieldsBytes(fs) + cut, at) == Decoded(fs, Done)
    decreases |fs|
  {
    hide ReadField, CutFixed, FieldBytes, CutField, MultiFields;
    if fs == [] {
      assert FieldsBytes(fs) + cut == cut;
      CutIsCut(f, cut);
      CutEnds(cut, at);
    } else {
      var g, rest := fs[0], FieldsBytes(fs[1..]) + cut;
      var b := FieldBytes(g);
      assert FieldsBytes(fs) + cut == b + rest;
      FieldRoundTrip(g, rest, at, Lax);
      NotCut(g, rest);
      MultiFieldsCons(b + rest, at, g, |b|);
      CutFieldIgnored(fs[1..], f, cut, at + |b|);
      assert (b + rest)[|b|..] == rest && [g] + fs[1..] == fs;
    }
  }

  lemma CutEnds(cut: Bytes, at: nat)
    requires CutFixed(cut)
    ensures MultiFields(cut, at) == Decoded([], Done)
  {
  }

  lemma CutIsCut(f: Field, cut: Bytes)
    requires CutField(f, cut)
    ensures CutFixed(cut)
  {
    hide VarintBytes, ReadVarint, LittleEndian;
    var key := Key(f.number, f.Wire());
    var head := VarintBytes(key);
    assert cut == head + cut[|head|..] by { assert FieldBytes(f)[..|cut|] == cut; }
    VarintRoundTrip(key, cut[|head|..], Lax);
  }

  lemma MultiPayloadOf(gunzip: Bytes -> Option<Bytes>, payload: Bytes)
    requires |MultiBody(payload)| < TWO_63
    ensures MultiPayload(gunzip, MultiBody(payload))
            == if !Zipped(0, payload) then Ok(payload) else if gunzip(payload).Some? then Ok(gunzip(payload).value) else Fail
  {
    var f := MkBytes(2, payload);
    MultiFieldsOf([f], 0);
    LastOfTwo(f, f, 1, VARINT);
    LastOfTwo(f, f, 2, BYTES);
    hide MultiFields, Last;
  }

  lemma PackedPayloadOf(gunzip: Bytes -> Option<Bytes>, size: Uint64, z: Bytes)
    requires |PackedBody(size, z)| < TWO_63 && Zipped(size, z)
    ensures MultiPayload(gunzip, PackedBody(size, z)) == if gunzip(z).Some? then Ok(gunzip(z).value) else Fail
  {
    var f, g := MkVarint(1, size), MkBytes(2, z);
    MultiFieldsOf([f, g], 0);
    LastOfTwo(f, g, 1, VARINT);
    LastOfTwo(f, g, 2, BYTES);
    hide MultiFields, Last;
  }

  /** An uncompressed payload is recovered if and only if it does not start with
      the gzip magic (or decompression happens to leave it as it is). */
  lemma MultiPayloadRead(gunzip: Bytes -> Option<Bytes>, payload: Bytes)
    requires |MultiBody(payload)| < TWO_63
    ensures MultiPayload(gunzip, MultiBody(payload)) == Ok(payload)
            <==> !Zipped(0, payload) || gunzip(payload) == Some(payload)
  {
    MultiPayloadOf(gunzip, payload);
    hide MultiPayload;
  }

  lemma FirstTwo(n: nat)
    ensures LittleEndian(n, 4)[0] == n % 256 && LittleEndian(n, 4)[1] == n / 256 % 256
  {
    var l := LittleEndian(n, 4);
    assert l[1..] == LittleEndian(n / 256, 3);
  }

  lemma LowTwo(n: nat)
    ensures n % 0x1_0000 == 0x8b1f <==> n % 256 == 0x1f && n / 256 % 256 == 0x8b
  {
    var q := n / 256;
    assert n == 256 * q + n % 256 && q == 256 * (q / 256) + q % 256;
    LowBits(q / 256, 256 * (q % 256) + n % 256);
  }

  lemma LowBits(high: nat, low: nat)
    requires low < 0x1_0000
    ensures (0x1_0000 * high + low) % 0x1_0000 == low
  {
  }

  /** The sniffing mistakes an uncompressed payload for a gzip stream exactly
      when the low 16 bits of its first message length are 0x8b1f. */
  lemma SniffedByLength(zip: Bytes -> Bytes, ts: seq<Tree>)
    requires ts != []
    ensures Zipped(0, InnerBytes(zip, ts)) <==> |TreeBytes(zip, ts[0])| % 0x1_0000 == 0x8b1f
  {
    hide LittleEndian, TreeBytes;
    var n := |TreeBytes(zip, ts[0])|;
    FirstTwo(n);
    LowTwo(n);
    assert InnerBytes(zip, ts) == LittleEndian(n, 4) + (TreeBytes(zip, ts[0]) + InnerBytes(zip, ts[1..]));
    hide InnerBytes;
  }

  lemma InnerCons(msg: Bytes, rest: Bytes)
    requires |msg| < TWO_32
    ensures Inner(LittleEndian(|msg|, 4) + msg + rest) == [msg] + Inner(rest)
  {
    PowersOf256();
    LittleEndianInverse(|msg|, 4);
    hide LittleEndian, FromLittleEndian;
    InnerParts(LittleEndian(|msg|, 4), msg, rest);
  }

  lemma InnerParts(l: Bytes, msg: Bytes, rest: Bytes)
    requires |l| == 4
    ensures var s := l + msg + rest;
            s[..4] == l && s[4..] == msg + rest && s[4..][..|msg|] == msg && s[4..][|msg|..] == rest
  {
  }

  /** Multi flattening: dispatching the encoding of a tree of nested Multi
      messages, plain and compressed, delivers exactly its leaves, left to right. */
  lemma {:induction false} Flattening(zip: Bytes -> Bytes, gunzip: Bytes -> Option<Bytes>, t: Tree, fuel: nat)
    requires GoodTree(zip, gunzip, t) && fuel >= Depth(t)
    ensures LeavesParse(t) && Dispatched(gunzip, TreeBytes(zip, t), fuel) == Delivery(Leaves(t), Finished)
    decreases t, 1
  {
    hide ParsedPacket, MultiPayload, Inner, MultiBody, PackedBody, MsgProtoBytes, FieldsBytes, HeaderFields, Normal, InnerBytes;
    match t
    case Leaf(_) =>
    case Node(header, children) =>
      var payload := InnerBytes(zip, children);
      MultiPacket(MsgProto(EMSG_MULTI, header, MultiBody(payload)));
      MultiPayloadRead(gunzip, payload);
      FlatteningAll(zip, gunzip, children, fuel - 1);
    case Packed(header, size, children) =>
      var payload := InnerBytes(zip, children);
      MultiPacket(MsgProto(EMSG_MULTI, header, PackedBody(size, zip(payload))));
      PackedPayloadOf(gunzip, size, zip(payload));
      FlatteningAll(zip, gunzip, children, fuel - 1);
  }

  lemma MultiPacket(m: MsgProto)
    requires Sized(m)
    ensures ParsedPacket(MsgProtoBytes(m)) == Ok(ProtoPacket(NormalMsg(m)))
  {
    MsgProtoRoundTrip(m);
  }

  lemma {:induction false} FlatteningAll(zip: Bytes -> Bytes, gunzip: Bytes -> Option<Bytes>, ts: seq<Tree>, fuel: nat)
    requires GoodTrees(zip, gunzip, ts) && fuel >= MaxDepth(ts)
    ensures AllLeavesParse(ts)
    ensures AllDispatched(gunzip, Inner(InnerBytes(zip, ts)), fuel) == Delivery(AllLeaves(ts), Finished)
    decreases ts, 0
  {
    hide GoodTree, Leaves, LeavesParse, Dispatched, TreeBytes;
    if ts != [] {
      Flattening(zip, gunzip, ts[0], fuel);
      FlatteningAll(zip, gunzip, ts[1..], fuel);
      InnerCons(TreeBytes(zip, ts[0]), InnerBytes(zip, ts[1..]));
    }
  }

  // -------------------------------------------------------------- truncation

  /** A payload cut anywhere holds a prefix of the messages of the whole. */
  lemma {:induction false} CutInner(payload: Bytes, k: nat)
    requires k <= |payload|
    ensures Inner(payload[..k]) <= Inner(payload)
    decreases |payload|
  {
    if k >= 4 {
      assert payload[..k][..4] == payload[..4] && payload[..k][4..] == payload[4..][..k - 4];
      hide FromLittleEndian;
      var n, rest := Word32(payload[..4]), payload[4..];
      if n <= k - 4 {
        assert rest[..k - 4][..n] == rest[..n] && rest[..k - 4][n..] == rest[n..][..k - 4 - n];
        CutInner(rest[n..], k - 4 - n);
      }
    }
  }

  lemma {:induction false} DeliveredPrefix(gunzip: Bytes -> Option<Bytes>, a: seq<Bytes>, b: seq<Bytes>, fuel: nat)
    requires a <= b
    ensures AllDispatched(gunzip, a, fuel).packets <= AllDispatched(gunzip, b, fuel).packets
    decreases |a|
  {
    if a != [] {
      DeliveredPrefix(gunzip, a[1..], b[1..], fuel);
      hide Dispatched;
    }
  }

  /** Cutting the inner payload anywhere delivers a prefix of its messages. */
  lemma CutDeliversPrefix(gunzip: Bytes -> Option<Bytes>, payload: Bytes, k: nat, fuel: nat)
    requires k <= |payload|
    ensures AllDispatched(gunzip, Inner(payload[..k]), fuel).packets
            <= AllDispatched(gunzip, Inner(payload), fuel).packets
  {
    CutInner(payload, k);
    DeliveredPrefix(gunzip, Inner(payload[..k]), Inner(payload), fuel);
  }

  /** A message that cannot be parsed is dropped, and the others are delivered as
      if it were not there. */
  lemma {:induction false} BadInnerDropped(gunzip: Bytes -> Option<Bytes>, a: seq<Bytes>, bad: Bytes, b: seq<Bytes>, fuel: nat)
    requires ParsedPacket(bad).Fail?
    ensures AllDispatched(gunzip, a + [bad] + b, fuel) == AllDispatched(gunzip, a + b, fuel)
    decreases |a|
  {
    hide ParsedPacket;
    if a == [] {
      assert a + [bad] + b == [bad] + b && a + b == b && ([bad] + b)[1..] == b;
      assert Dispatched(gunzip, bad, fuel) == NOTHING;
      hide Dispatched;
    } else {
      assert (a + [bad] + b)[1..] == a[1..] + [bad] + b && (a + b)[1..] == a[1..] + b;
      BadInnerDropped(gunzip, a[1..], bad, b, fuel);
      hide Dispatched;
    }
  }

  /** What cannot be parsed: fewer than four bytes; a struct-headed message of
      fewer than twenty; a protobuf one of fewer than eight, or whose header length
      runs past its end. */
  lemma BadMessages(raw: Bytes)
    requires |raw| < 4
             || (raw[3] < 128 && |raw| < 20)
             || (raw[3] >= 128 && (|raw| < 8 || 8 + Word32(raw[4..8]) > |raw|))
    ensures ParsedPacket(raw) == Fail
  {
    if |raw| >= 4 { HighBit(raw[0..4]); }
    hide FromLittleEndian, ReadFields, HeaderOf;
  }

  lemma HighBit(b: Bytes)
    requires |b| == 4
    ensures IsProto(Word32(b)) <==> b[3] >= 128
  {
    var c, d, e := b[1..], b[2..], b[3..];
    assert b[1..] == c && c[1..] == d && d[1..] == e && e == [b[3]] && e[1..] == [];
    var top: nat := FromLittleEndian(e);
    assert top == b[3] && FromLittleEndian(d) == b[2] + 256 * top && FromLittleEndian(c) == b[1] + 256 * FromLittleEndian(d);
  }

  /** A protobuf message with id 1 is unpacked, any other is delivered. */
  lemma OnlyMultiUnpacked(gunzip: Bytes -> Option<Bytes>, raw: Bytes, mp: MsgProto, fuel: nat)
    requires ParsedPacket(raw) == Ok(ProtoPacket(mp))
    ensures Dispatched(gunzip, raw, fuel)
            == if mp.msg != 1 then Delivery([ProtoPacket(mp)], Finished)
               else if fuel == 0 then Delivery([], Exhausted) else MultiDelivered(gunzip, mp.body, fuel - 1)
  {
    hide ParsedPacket;
  }

  /** A struct-headed message is delivered, also one with the id of a Multi. */
  lemma StructIsNoMulti(gunzip: Bytes -> Option<Bytes>, m: Msg, fuel: nat)
    requires m.msg < TWO_31
    ensures Dispatched(gunzip, MsgBytes(m), fuel) == Delivery([StructPacket(m)], Finished)
  {
    hide ParsedPacket;
    StructArrives(m);
  }

  // ------------------------------------------------------------- a bad input

  const NO_HEADER := Header(0, 0, 0, 0, [], 0, [])

  lemma EmptyHeader()
    ensures HeaderFields(NO_HEADER) == []
  {
    NonePresent(Candidates(NO_HEADER));
  }

  lemma {:induction false} NonePresent(cs: seq<Candidate>)
    requires forall i :: 0 <= i < |cs| ==> !cs[i].present
    ensures Present(cs) == []
  {
    if cs != [] { NonePresent(cs[..|cs| - 1]); }
  }

  function Zeros(n: nat): (b: Bytes)
    ensures |b| == n
  {
    seq(n, _ => 0)
  }

  lemma SizeOfMulti(payload: Bytes)
    requires |payload| < TWO_32
    ensures |MultiBody(payload)| <= |payload| + 20
  {
    var f := MkBytes(2, payload);
    assert FieldsBytes([f]) == FieldBytes(f) + FieldsBytes([]);
    hide VarintBytes;
    VarintAtMostTen(Key(2, BYTES));
    VarintAtMostTen(|payload|);
  }

  lemma OneLeaf(zip: Bytes -> Bytes, raw: Bytes)
    ensures InnerBytes(zip, [Leaf(raw)]) == LittleEndian(|raw|, 4) + raw
  {
    var ts := [Leaf(raw)];
    assert InnerBytes(zip, ts[1..]) == [];
    hide LittleEndian;
    assert InnerBytes(zip, ts) == LittleEndian(|raw|, 4) + raw + [];
  }

  /** A Multi of one such leaf, sent uncompressed, that the decompressor refuses. */
  lemma SniffedIsLost(zip: Bytes -> Bytes, gunzip: Bytes -> Option<Bytes>, raw: Bytes, fuel: nat)
    requires |raw| == 0x8b1f && gunzip(InnerBytes(zip, [Leaf(raw)])) == None
    ensures Dispatched(gunzip, TreeBytes(zip, Node(NO_HEADER, [Leaf(raw)])), fuel + 1) == NOTHING
  {
    hide MultiPayload, ParsedPacket, MsgProtoBytes, MultiBody, InnerBytes, LittleEndian;
    var ts := [Leaf(raw)];
    var payload := InnerBytes(zip, ts);
    SniffedByLength(zip, ts);
    OneLeaf(zip, raw);
    SizeOfMulti(payload);
    MultiPayloadOf(gunzip, payload);
    MultiArrives(MultiBody(payload));
  }

  lemma MultiArrives(body: Bytes)
    ensures var m := MsgProto(EMSG_MULTI, NO_HEADER, body); ParsedPacket(MsgProtoBytes(m)) == Ok(ProtoPacket(m))
  {
    EmptyHeader();
    hide ParsedPacket, MsgProtoBytes, HeaderFields;
    MultiPacket(MsgProto(EMSG_MULTI, NO_HEADER, body));
  }

  /** A struct-headed message of 35615 bytes, 0x8b1f, is delivered when it comes
      alone and lost when it comes in an uncompressed Multi. */
  lemma SniffedMultiLost(zip: Bytes -> Bytes)
    ensures var m, gunzip := Msg(5, 0, 0, Zeros(35595)), (_: Bytes) => None;
            && Dispatched(gunzip, MsgBytes(m), 0) == Delivery([StructPacket(m)], Finished)
            && Dispatched(gunzip, TreeBytes(zip, Node(NO_HEADER, [Leaf(MsgBytes(m))])), 1) == NOTHING
  {
    hide ParsedPacket, TreeBytes, LittleEndian, Zeros;
    var m := Msg(5, 0, 0, Zeros(35595));
    StructArrives(m);
    SniffedIsLost(zip, (_: Bytes) => None, MsgBytes(m), 0);
  }

  lemma StructArrives(m: Msg)
    requires m.msg < TWO_31
    ensures ParsedPacket(MsgBytes(m)) == Ok(StructPacket(m))
  {
    MsgRoundTrip(m);
    PowersOf256();
    LittleEndianInverse(m.msg, 4);
    hide LittleEndian, FromLittleEndian;
    assert MsgBytes(m)[0..4] == LittleEndian(m.msg, 4);
  }
}
