/** internal/steam/cm/client.go, dispatch and handleMulti: when the unpacking of a
    message ends. The source keeps no count of levels and, once something is
    decompressed, no size shrinks; but inner messages carry a 32-bit length, so
    there are only so many of them. */
module Unpacking {
  import opened ByteSeq
  import opened Results
  import opened Wire
  import opened Protocol
  import opened Multi
  import opened Lru
  import opened Graph

  /** The messages inside a Multi; none for any other message. */
  function Held(gunzip: Bytes -> Option<Bytes>, msg: Bytes): seq<Bytes> {
    var r := ParsedPacket(msg);
    if !r.Ok? || !r.value.IsMulti() then []
    else
      var payload := MultiPayload(gunzip, r.value.mp.body);
      if payload.Ok? then Inner(payload.value) else []
  }

  predicate FinishesIn(gunzip: Bytes -> Option<Bytes>, msg: Bytes, fuel: nat) {
    Dispatched(gunzip, msg, fuel).ending.Finished?
  }

  ghost predicate Finishes(gunzip: Bytes -> Option<Bytes>, msg: Bytes) {
    exists n: nat :: FinishesIn(gunzip, msg, n)
  }

  predicate EndsIn(gunzip: Bytes -> Option<Bytes>, msg: Bytes, fuel: nat) {
    !Dispatched(gunzip, msg, fuel).ending.Exhausted?
  }

  /** c comes up while m is unpacked: it is inside m, and those before it finish. */
  ghost predicate Meets(gunzip: Bytes -> Option<Bytes>, m: Bytes, c: Bytes) {
    exists i :: 0 <= i < |Held(gunzip, m)| && Held(gunzip, m)[i] == c && AllFinish(gunzip, Held(gunzip, m)[..i])
  }

  ghost predicate AllFinish(gunzip: Bytes -> Option<Bytes>, msgs: seq<Bytes>) {
    forall j :: 0 <= j < |msgs| ==> Finishes(gunzip, msgs[j])
  }

  ghost function Meeting(gunzip: Bytes -> Option<Bytes>): (Bytes, Bytes) -> bool {
    (m: Bytes, c: Bytes) => Meets(gunzip, m, c)
  }

  lemma OneLevel(gunzip: Bytes -> Option<Bytes>, msg: Bytes, fuel: nat)
    ensures Held(gunzip, msg) != [] ==>
              Dispatched(gunzip, msg, fuel)
              == if fuel == 0 then Delivery([], Exhausted) else AllDispatched(gunzip, Held(gunzip, msg), fuel - 1)
    ensures Held(gunzip, msg) == [] && fuel > 0 ==> EndsIn(gunzip, msg, fuel)
  {
    hide ParsedPacket, MultiPayload, Inner;
    var r := ParsedPacket(msg);
    if Held(gunzip, msg) == [] && fuel > 0 && r.Ok? && r.value.IsMulti() {
      var payload := MultiPayload(gunzip, r.value.mp.body);
      assert Dispatched(gunzip, msg, fuel) == MultiDelivered(gunzip, r.value.mp.body, fuel - 1);
      if payload.Ok? { assert AllDispatched(gunzip, Inner(payload.value), fuel - 1) == NOTHING; }
    }
  }

  // ----------------------------------------------------- endless means looping

  /** If unpacking a list runs out of stack, it does at one of its messages, and
      the ones before it finished. */
  lemma {:induction false} FirstExhausted(gunzip: Bytes -> Option<Bytes>, msgs: seq<Bytes>, fuel: nat) returns (i: nat)
    requires !AllEndIn(gunzip, msgs, fuel)
    ensures i < |msgs| && !EndsIn(gunzip, msgs[i], fuel) && AllFinish(gunzip, msgs[..i])
  {
    hide Dispatched;
    if Dispatched(gunzip, msgs[0], fuel).ending.Exhausted? {
      i := 0;
    } else {
      var k := FirstExhausted(gunzip, msgs[1..], fuel);
      i := k + 1;
      assert FinishesIn(gunzip, msgs[0], fuel);
      forall j | 0 <= j < i ensures Finishes(gunzip, msgs[..i][j]) {
        if j > 0 { assert msgs[..i][j] == msgs[1..][..k][j - 1]; }
      }
    }
  }

  predicate AllEndIn(gunzip: Bytes -> Option<Bytes>, msgs: seq<Bytes>, fuel: nat) {
    !AllDispatched(gunzip, msgs, fuel).ending.Exhausted?
  }

  /** Running out of a stack of n takes a path of n + 1 messages, all but the
      first below 4 GiB. */
  lemma {:induction false} LongPath(gunzip: Bytes -> Option<Bytes>, msg: Bytes, n: nat) returns (p: seq<Bytes>)
    requires !EndsIn(gunzip, msg, n)
    ensures |p| == n + 1 && p[0] == msg && Path(Meeting(gunzip), p) && AllShorter(p[1..], TWO_32)
    decreases n
  {
    hide Dispatched, AllDispatched, Held, Path, AllFinish;
    if n == 0 {
      p := [msg];
      SinglePath(gunzip, msg);
    } else {
      OneLevel(gunzip, msg, n);
      var msgs := Held(gunzip, msg);
      var i := FirstExhausted(gunzip, msgs, n - 1);
      assert Meets(gunzip, msg, msgs[i]);
      HeldSmall(gunzip, msg);
      var q := LongPath(gunzip, msgs[i], n - 1);
      p := [msg] + q;
      PathCons(gunzip, msg, q);
      assert p[1..] == q && q == [msgs[i]] + q[1..];
    }
  }

  lemma SinglePath(gunzip: Bytes -> Option<Bytes>, msg: Bytes)
    ensures Path(Meeting(gunzip), [msg])
  {
  }

  lemma PathCons(gunzip: Bytes -> Option<Bytes>, msg: Bytes, q: seq<Bytes>)
    requires q != [] && Meets(gunzip, msg, q[0]) && Path(Meeting(gunzip), q)
    ensures Path(Meeting(gunzip), [msg] + q)
  {
    hide Meets;
    var p := [msg] + q;
    forall i | 0 <= i < |p| - 1 ensures Meeting(gunzip)(p[i], p[i + 1]) {
      if i > 0 { assert Meeting(gunzip)(q[i - 1], q[i]); }
    }
  }

  lemma {:induction false} InnerSmall(payload: Bytes)
    ensures AllShorter(Inner(payload), TWO_32)
    decreases |payload|
  {
    hide FromLittleEndian;
    if |payload| >= 4 && Word32(payload[..4]) <= |payload| - 4 {
      InnerSmall(payload[4..][Word32(payload[..4])..]);
    }
  }

  lemma HeldSmall(gunzip: Bytes -> Option<Bytes>, msg: Bytes)
    ensures AllShorter(Held(gunzip, msg), TWO_32)
  {
    hide ParsedPacket, MultiPayload, Inner;
    var r := ParsedPacket(msg);
    if r.Ok? && r.value.IsMulti() && MultiPayload(gunzip, r.value.mp.body).Ok? {
      InnerSmall(MultiPayload(gunzip, r.value.mp.body).value);
    }
  }

  // -------------------------------------------------------- counting messages

  /** A number for every byte string. */
  function Code(b: Bytes): nat {
    Pow256(|b|) + FromLittleEndian(b)
  }

  lemma {:induction false} Pow256Grows(m: nat, n: nat)
    requires m < n
    ensures 2 * Pow256(m) <= Pow256(n)
    decreases n
  {
    if m < n - 1 { Pow256Grows(m, n - 1); }
  }

  lemma CodeInjective(a: Bytes, b: Bytes)
    requires Code(a) == Code(b)
    ensures a == b
  {
    hide Pow256, FromLittleEndian;
    if |a| < |b| { Pow256Grows(|a|, |b|); }
    if |b| < |a| { Pow256Grows(|b|, |a|); }
    LittleEndianOnto(a);
    LittleEndianOnto(b);
  }

  lemma CodeBelow(b: Bytes, limit: nat)
    requires |b| < limit
    ensures Code(b) < Pow256(limit)
  {
    hide Pow256, FromLittleEndian;
    Pow256Grows(|b|, limit);
  }

  /** A path long enough meets a message twice. */
  lemma LongPathLoops(gunzip: Bytes -> Option<Bytes>, p: seq<Bytes>, limit: nat)
    requires Path(Meeting(gunzip), p) && |p| > Pow256(limit) + 1 && AllShorter(p[1..], limit)
    ensures Looping(Meeting(gunzip), p[0])
  {
    hide Pow256, FromLittleEndian, Path, Looping, Code;
    var q := p[1..];
    forall x | x in q ensures Code(x) < Pow256(limit) { CodeBelow(x, limit); }
    forall x, y | x in q && y in q && Code(x) == Code(y) ensures x == y { CodeInjective(x, y); }
    var i, j := Repeats(q, Code, Pow256(limit));
    PathLoops(Meeting(gunzip), p, i + 1, j + 1);
  }

  lemma EndlessLoops(gunzip: Bytes -> Option<Bytes>, msg: Bytes, limit: nat)
    requires limit == TWO_32 && forall n: nat :: !EndsIn(gunzip, msg, n)
    ensures Looping(Meeting(gunzip), msg)
  {
    hide Pow256, Path, Looping, EndsIn;
    var p := LongPath(gunzip, msg, Pow256(limit) + 1);
    LongPathLoops(gunzip, p, limit);
  }

  // ----------------------------------------------------- looping means endless

  /** A message that finishes at some depth finishes at any, or runs out. */
  lemma FinishesOrNot(gunzip: Bytes -> Option<Bytes>, msg: Bytes, fuel: nat)
    requires Finishes(gunzip, msg)
    ensures FinishesIn(gunzip, msg, fuel) || !EndsIn(gunzip, msg, fuel)
  {
    var n: nat :| FinishesIn(gunzip, msg, n);
    hide Dispatched;
    if EndsIn(gunzip, msg, fuel) {
      if n <= fuel { FuelIrrelevant(gunzip, msg, n, fuel); } else { FuelIrrelevant(gunzip, msg, fuel, n); }
    }
  }

  lemma {:induction false} ExhaustedBehind(gunzip: Bytes -> Option<Bytes>, msgs: seq<Bytes>, i: nat, fuel: nat)
    requires i < |msgs| && !EndsIn(gunzip, msgs[i], fuel) && AllFinish(gunzip, msgs[..i])
    ensures !AllEndIn(gunzip, msgs, fuel)
    decreases i
  {
    hide Dispatched, Finishes;
    if i > 0 {
      assert msgs[..i][0] == msgs[0];
      FinishesOrNot(gunzip, msgs[0], fuel);
      var rest := msgs[1..][..i - 1];
      forall j | 0 <= j < |rest| ensures Finishes(gunzip, rest[j]) { assert rest[j] == msgs[..i][j + 1]; }
      ExhaustedBehind(gunzip, msgs[1..], i - 1, fuel);
    }
  }

  lemma {:induction false} LoopExhausts(gunzip: Bytes -> Option<Bytes>, msg: Bytes, fuel: nat)
    requires Looping(Meeting(gunzip), msg)
    ensures !EndsIn(gunzip, msg, fuel)
    decreases fuel
  {
    hide Dispatched, AllDispatched, Held, Looping, AllFinish;
    var c := LoopGoesOn(Meeting(gunzip), msg);
    assert Meets(gunzip, msg, c);
    var msgs := Held(gunzip, msg);
    var i :| 0 <= i < |msgs| && msgs[i] == c && AllFinish(gunzip, msgs[..i]);
    OneLevel(gunzip, msg, fuel);
    if fuel > 0 {
      LoopExhausts(gunzip, c, fuel - 1);
      ExhaustedBehind(gunzip, msgs, i, fuel - 1);
    }
  }

  /** The exact condition, for every decompressor and every message: unpacking it
      ends, at some depth of the stack, if and only if no message met on the way
      holds itself, directly or indirectly. */
  lemma UnpackingEndsIffNotLooping(gunzip: Bytes -> Option<Bytes>, msg: Bytes)
    ensures (exists n: nat :: EndsIn(gunzip, msg, n)) <==> !Looping(Meeting(gunzip), msg)
  {
    hide EndsIn, Looping;
    if forall n: nat :: !EndsIn(gunzip, msg, n) {
      EndlessLoops(gunzip, msg, TWO_32);
    } else {
      var n: nat :| EndsIn(gunzip, msg, n);
      if Looping(Meeting(gunzip), msg) { LoopExhausts(gunzip, msg, n); }
    }
  }

  // ------------------------------------------------------------- a bad input

  /** The Multi whose payload is g. */
  function Carrying(g: Bytes): Bytes {
    MsgProtoBytes(MsgProto(EMSG_MULTI, NO_HEADER, MultiBody(g)))
  }

  /** A gzip stream that decompresses to the Multi which carries that stream. */
  predicate Quine(gunzip: Bytes -> Option<Bytes>, g: Bytes) {
    var msg := Carrying(g);
    Zipped(0, g) && |g| < TWO_31 && gunzip(g) == Some(LittleEndian(|msg|, 4) + msg)
  }

  /** The Multi that carries it is unpacked for ever. */
  lemma QuineNeverEnds(gunzip: Bytes -> Option<Bytes>, g: Bytes, fuel: nat)
    requires Quine(gunzip, g)
    ensures !EndsIn(gunzip, Carrying(g), fuel)
  {
    var msg := Carrying(g);
    HoldsItself(gunzip, g);
    hide Held, EndsIn, Looping, Carrying, Quine;
    assert Held(gunzip, msg)[..0] == [];
    assert Meets(gunzip, msg, msg);
    PathCons(gunzip, msg, [msg]);
    assert [msg] + [msg] == [msg, msg];
    PathLoops(Meeting(gunzip), [msg, msg], 0, 1);
    LoopExhausts(gunzip, msg, fuel);
  }

  lemma HoldsItself(gunzip: Bytes -> Option<Bytes>, g: Bytes)
    requires Quine(gunzip, g)
    ensures var msg := Carrying(g); Held(gunzip, msg) == [msg]
  {
    var msg := Carrying(g);
    SizeOfMulti(g);
    QuineSize(MultiBody(g));
    MultiArrives(MultiBody(g));
    MultiPayloadOf(gunzip, g);
    InnerCons(msg, []);
    NoInner();
    hide MsgProtoBytes, MultiBody, ParsedPacket, MultiPayload, Inner, LittleEndian;
    assert LittleEndian(|msg|, 4) + msg + [] == LittleEndian(|msg|, 4) + msg;
  }

  lemma QuineSize(body: Bytes)
    ensures |MsgProtoBytes(MsgProto(EMSG_MULTI, NO_HEADER, body))| == 8 + |body|
  {
    EmptyHeader();
  }

  lemma NoInner()
    ensures Inner([]) == []
  {
  }

  /** A decompressor that knows one stream. */
  function Knowing(g: Bytes): Bytes -> Option<Bytes> {
    b => if b == g then Some(LittleEndian(|Carrying(g)|, 4) + Carrying(g)) else None
  }

  /** An input: any bytes with the gzip magic, for the decompressor that takes them
      for such a stream and refuses all others. */
  lemma QuineInput(g: Bytes, fuel: nat)
    requires Zipped(0, g) && |g| < TWO_31
    ensures !EndsIn(Knowing(g), Carrying(g), fuel)
  {
    hide Carrying, EndsIn, LittleEndian;
    QuineNeverEnds(Knowing(g), g, fuel);
  }
}
