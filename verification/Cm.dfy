/** internal/steam/cm/client.go: the encrypted channel of a CM session.

    The stream, the random bytes and the decompressor are parameters; the method
    results carry the run-time panic and the exhausted stack of the source. */
module Cm {
  import opened ByteSeq
  import opened Results
  import opened Wire
  import opened Protocol
  import opened Crypto
  import opened Frame
  import opened Multi
  import WebSocket

  // ----------------------------------------------------------------- routing

  /** Registered waiters: channels of capacity one, by message id and by job. */
  datatype Inbox = Inbox(waiters: map<Uint32, Option<Packet>>, jobWaiters: map<Uint64, Option<Packet>>)

  /** A non-blocking send on a channel of capacity one. */
  function Offer(slot: Option<Packet>, p: Packet): Option<Packet> {
    if slot.None? then Some(p) else slot
  }

  predicate IsReply(p: Packet) {
    p.ProtoPacket? && RealJob(p.mp.header.jobTarget)
  }

  /** Where dispatch hands over a packet: a waiting job first, else its id. */
  function Route(inbox: Inbox, p: Packet): Inbox {
    if IsReply(p) && p.mp.header.jobTarget in inbox.jobWaiters then
      var job := p.mp.header.jobTarget;
      inbox.(jobWaiters := inbox.jobWaiters[job := Offer(inbox.jobWaiters[job], p)])
    else if p.EMsg() in inbox.waiters then
      inbox.(waiters := inbox.waiters[p.EMsg() := Offer(inbox.waiters[p.EMsg()], p)])
    else inbox
  }

  function RouteAll(inbox: Inbox, ps: seq<Packet>): Inbox
    decreases |ps|
  {
    if ps == [] then inbox else RouteAll(Route(inbox, ps[0]), ps[1..])
  }

  lemma {:induction false} RouteAllAppend(inbox: Inbox, a: seq<Packet>, b: seq<Packet>)
    ensures RouteAll(inbox, a + b) == RouteAll(RouteAll(inbox, a), b)
    decreases |a|
  {
    if a == [] {
      assert a + b == b;
    } else {
      assert (a + b)[1..] == a[1..] + b;
      RouteAllAppend(Route(inbox, a[0]), a[1..], b);
    }
  }

  /** A protobuf packet whose header names the job as its target. */
  predicate ForJob(p: Packet, job: Uint64) {
    p.ProtoPacket? && p.mp.header.jobTarget == job
  }

  /** No job: the header holds no target, or the "none" value. */
  predicate NoJob(job: Uint64) {
    job == 0 || job == 0xFFFF_FFFF_FFFF_FFFF
  }

  /** A packet of the id that is for no job that is waited for. */
  predicate ForWaiter(p: Packet, inbox: Inbox, emsg: Uint32) {
    match p
    case StructPacket(m) => m.msg == emsg
    case ProtoPacket(mp) => mp.msg == emsg && (NoJob(mp.header.jobTarget) || mp.header.jobTarget !in inbox.jobWaiters)
  }

  function FirstForJob(ps: seq<Packet>, job: Uint64): Option<Packet> {
    if ps == [] then None else if ForJob(ps[0], job) then Some(ps[0]) else FirstForJob(ps[1..], job)
  }

  function FirstForWaiter(ps: seq<Packet>, inbox: Inbox, emsg: Uint32): Option<Packet> {
    if ps == [] then None
    else if ForWaiter(ps[0], inbox, emsg) then Some(ps[0]) else FirstForWaiter(ps[1..], inbox, emsg)
  }

  function OrElse(a: Option<Packet>, b: Option<Packet>): Option<Packet> {
    if a.None? then b else a
  }

  /** Over a whole run: a waiter that was empty ends up with the first packet
      meant for it, whatever else arrives; a full one keeps what it holds. A job
      waiter gets the first protobuf packet that has the job as its target, a
      message waiter the first packet of its id that no job waiter claimed. */
  lemma {:induction false} WaitersGetFirst(inbox: Inbox, ps: seq<Packet>)
    ensures var done := RouteAll(inbox, ps);
            && done.jobWaiters.Keys == inbox.jobWaiters.Keys && done.waiters.Keys == inbox.waiters.Keys
            && (forall job :: job in inbox.jobWaiters ==>
                  done.jobWaiters[job]
                  == OrElse(inbox.jobWaiters[job], if NoJob(job) then None else FirstForJob(ps, job)))
            && (forall e :: e in inbox.waiters ==>
                  done.waiters[e] == OrElse(inbox.waiters[e], FirstForWaiter(ps, inbox, e)))
    decreases |ps|
  {
    if ps != [] {
      var next := Route(inbox, ps[0]);
      WaitersGetFirst(next, ps[1..]);
      forall e { SameClaims(inbox, next, ps[1..], e); }
    }
  }

  lemma {:induction false} SameClaims(a: Inbox, b: Inbox, ps: seq<Packet>, emsg: Uint32)
    requires a.jobWaiters.Keys == b.jobWaiters.Keys
    ensures FirstForWaiter(ps, a, emsg) == FirstForWaiter(ps, b, emsg)
  {
    if ps != [] { SameClaims(a, b, ps[1..], emsg); }
  }

  // ------------------------------------------------------------- the channel

  /** The state of the channel: no key before the handshake is over, a key and
      possibly a MAC secret afterwards. */
  datatype Channel = Plain | Keyed(key: Bytes) | Authenticated(key: Bytes, secret: Bytes)

  function Sealed(p: Primitives, ch: Channel, payload: Bytes, iv: Block, prefix: Nonce): Outcome<Bytes> {
    match ch
    case Plain => Ok(payload)
    case Keyed(key) => SymmetricEncryptWithIV(p, payload, key, iv)
    case Authenticated(key, secret) => SymmetricEncryptHMAC(p, payload, key, secret, prefix)
  }

  function Opened(p: Primitives, ch: Channel, raw: Bytes): Outcome<Bytes> {
    match ch
    case Plain => Ok(raw)
    case Keyed(key) => SymmetricDecrypt(p, raw, key)
    case Authenticated(key, secret) => SymmetricDecryptHMAC(p, raw, key, secret)
  }

  predicate GoodChannel(ch: Channel) {
    ch.Plain? || GoodKey(ch.key)
  }

  lemma OpenSealed(p: Primitives, ch: Channel, payload: Bytes, iv: Block, prefix: Nonce)
    requires p.Lawful() && GoodChannel(ch)
    ensures var c := Sealed(p, ch, payload, iv, prefix);
            && c.Ok? && Opened(p, ch, c.value) == Ok(payload)
            && match ch
               case Plain => c.value == payload
               case Keyed(key) => SymmetricDecrypt(p, c.value, key) == Ok(payload)
               case Authenticated(key, secret) => SymmetricDecryptHMAC(p, c.value, key, secret) == Ok(payload)
  {
    hide SymmetricDecryptHMAC, SymmetricEncryptHMAC, SymmetricDecrypt, SymmetricDecryptIV;
    match ch
    case Plain =>
    case Keyed(key) => EnvelopeExact(p, SymmetricEncryptWithIV(p, payload, key, iv).value, key, payload, iv);
    case Authenticated(key, secret) => HMACRoundTrip(p, payload, key, secret, prefix);
  }

  /** And the read loop accepts nothing else: what it opens with result m is m
      sealed, with some random bytes. */
  lemma OpenedExact(p: Primitives, ch: Channel, raw: Bytes, m: Bytes)
    requires p.Lawful() && GoodChannel(ch)
    ensures Opened(p, ch, raw) == Ok(m) <==> exists iv: Block, prefix: Nonce :: Sealed(p, ch, m, iv, prefix) == Ok(raw)
  {
    hide SymmetricDecryptWithIV, SymmetricEncryptWithIV;
    if iv: Block, prefix: Nonce :| Sealed(p, ch, m, iv, prefix) == Ok(raw) {
      OpenSealed(p, ch, m, iv, prefix);
    }
    if Opened(p, ch, raw) == Ok(m) {
      var iv0: Block, none: Nonce := PadBytes(16), [0, 0, 0];
      match ch
      case Plain => assert Sealed(p, ch, m, iv0, none) == Ok(raw);
      case Keyed(key) =>
        var iv := SymmetricDecryptIV(p, raw, key).value;
        EnvelopeExact(p, raw, key, m, iv);
        assert Sealed(p, ch, m, iv, none) == Ok(raw);
      case Authenticated(key, secret) =>
        var prefix: Nonce := SymmetricDecryptIV(p, raw, key).value[13..];
        AuthenticatedEnvelopeExact(p, raw, key, secret, m, prefix);
        assert Sealed(p, ch, m, iv0, prefix) == Ok(raw);
    }
  }

  // -------------------------------------------------------------- transports

  /** msgConn: VT01 packets over TCP, or the binary frames of a WebSocket. */
  datatype Transport = Tcp | Wss

  /** What ReadMsg returns, and the stream it leaves. */
  function NextIncoming(t: Transport, s: Bytes): (r: WebSocket.MsgRead)
    ensures r.result.Message? ==> |r.rest| < |s|
  {
    match t
    case Tcp => var (packet, rest) := PacketOf(s); WebSocket.MsgRead(packet, rest, [])
    case Wss => WebSocket.NextMsg(s)
  }

  datatype MsgConn = TcpConn(br: Stream, rw: Sink) | WssConn(ws: WebSocket.Conn)
  {
    function Kind(): Transport { if TcpConn? then Tcp else Wss }
    function Source(): Stream { if TcpConn? then br else ws.br }
    function Target(): Sink { if TcpConn? then rw else ws.rw }
    ghost function Objects(): set<object> { if TcpConn? then {br, rw} else {ws, ws.br, ws.rw} }

    /** The WebSocket frames written so far, each with a mask of its own. */
    function Written(): nat
      reads Objects()
    {
      if TcpConn? then 0 else ws.written
    }

    /** One message on the wire, as a packet or as the k-th frame. */
    function Wrapped(data: Bytes, k: nat): Bytes {
      if TcpConn? then PacketBytes(data) else WebSocket.ClientFrame(WebSocket.BINARY, data, ws.masks(k))
    }

    /** The answers to pings, as the frames from the k-th on. */
    function Replies(pings: seq<Bytes>, k: nat): Bytes {
      if TcpConn? then [] else WebSocket.Pongs(pings, ws.masks, k)
    }

    /** What Close writes: a WebSocket says goodbye. */
    function Goodbye(k: nat): Bytes {
      if TcpConn? then [] else WebSocket.ClientFrame(WebSocket.CLOSE, [], ws.masks(k))
    }
  }

  /** What WriteMsg puts on the wire is read back: over TCP by ReadPacket, over a
      WebSocket by the decoder of RFC 6455 section 5.2, as one binary frame with
      FIN and its own mask. */
  lemma WrappedRead(c: MsgConn, data: Bytes, k: nat, tail: Bytes)
    ensures c.TcpConn? && |data| <= 0x100_0000 ==> PacketOf(c.Wrapped(data, k) + tail) == (Message(data), tail)
    ensures c.WssConn? && |data| < TWO_63 ==>
              WebSocket.RfcDecode(c.Wrapped(data, k) + tail)
              == Some((WebSocket.RfcFrame(true, 0x2, Some(c.ws.masks(k)), data), |c.Wrapped(data, k)|))
  {
    hide PacketOf, PacketBytes, WebSocket.RfcDecode, WebSocket.ClientFrame;
    if c.TcpConn? { PacketRoundTrip(data, tail); } else if |data| < TWO_63 {
      WebSocket.WriteFrameConforms(WebSocket.BINARY, data, c.ws.masks(k), tail);
    }
  }

  /** And what Close puts there: nothing, or an empty close frame. */
  lemma GoodbyeRead(c: MsgConn, k: nat, tail: Bytes)
    ensures c.TcpConn? ==> c.Goodbye(k) == []
    ensures c.WssConn? ==>
              WebSocket.RfcDecode(c.Goodbye(k) + tail)
              == Some((WebSocket.RfcFrame(true, 0x8, Some(c.ws.masks(k)), []), |c.Goodbye(k)|))
  {
    hide WebSocket.RfcDecode, WebSocket.ClientFrame;
    if c.WssConn? { WebSocket.WriteFrameConforms(WebSocket.CLOSE, [], c.ws.masks(k), tail); }
  }

  method ReadMsg(conn: MsgConn) returns (res: Incoming)
    modifies conn.Objects()
    ensures var r := NextIncoming(conn.Kind(), old(conn.Source().rest));
            && res == r.result && conn.Source().rest == r.rest
            && conn.Target().out == old(conn.Target().out) + conn.Replies(r.pings, old(conn.Written()))
            && conn.Written() == old(conn.Written()) + |r.pings|
  {
    hide PacketOf, WebSocket.NextMsg, WebSocket.Pongs;
    match conn {
      case TcpConn(br, _) => res := ReadPacket(br);
      case WssConn(ws) => res := ws.ReadMsg();
    }
  }

  method WriteMsg(conn: MsgConn, data: Bytes)
    modifies conn.Objects()
    ensures conn.Target().out == old(conn.Target().out) + conn.Wrapped(data, old(conn.Written()))
    ensures conn.Source().rest == old(conn.Source().rest)
  {
    match conn {
      case TcpConn(_, rw) => WritePacket(rw, data);
      case WssConn(ws) => ws.WriteMsg(data);
    }
  }

  /** Close: writeFrame(0x8, nil) first, if it is a WebSocket. */
  method Close(conn: MsgConn)
    modifies conn.Objects()
    ensures conn.Target().out == old(conn.Target().out) + conn.Goodbye(old(conn.Written()))
    ensures conn.Source().rest == old(conn.Source().rest)
  {
    if conn.WssConn? { conn.ws.Close(); }
  }

  /** One turn of the read loop: what it delivers, the pings answered on the way,
      the stream it leaves, and whether it was the last. */
  datatype Turn = Turn(delivery: Delivery, pings: seq<Bytes>, rest: Bytes, over: bool)

  function TurnOf(p: Primitives, gunzip: Bytes -> Option<Bytes>, t: Transport, ch: Channel, stream: Bytes, fuel: nat): (turn: Turn)
    ensures !turn.over ==> |turn.rest| < |stream| && turn.delivery.ending.Finished?
  {
    var MsgRead(raw, rest, pings) := NextIncoming(t, stream);
    match raw
    case Message(c) =>
      (match Opened(p, ch, c)
       case Ok(msg) => var d := Dispatched(gunzip, msg, fuel); Turn(d, pings, rest, !d.ending.Finished?)
       case _ => Turn(NOTHING, pings, rest, true))
    case Panic => Turn(Delivery([], Crashed), pings, rest, true)
    case _ => Turn(NOTHING, pings, rest, true)
  }

  /** Everything the read loop delivers from a stream: it stops at the first
      message that cannot be read or decrypted. */
  function Received(p: Primitives, gunzip: Bytes -> Option<Bytes>, t: Transport, ch: Channel, stream: Bytes, fuel: nat): Delivery
    decreases |stream|
  {
    var turn := TurnOf(p, gunzip, t, ch, stream, fuel);
    if turn.over then turn.delivery else turn.delivery.Then(Received(p, gunzip, t, ch, turn.rest, fuel))
  }

  /** All pings the read loop answers. */
  function Pinged(p: Primitives, gunzip: Bytes -> Option<Bytes>, t: Transport, ch: Channel, stream: Bytes, fuel: nat): seq<Bytes>
    decreases |stream|
  {
    var turn := TurnOf(p, gunzip, t, ch, stream, fuel);
    if turn.over then turn.pings else turn.pings + Pinged(p, gunzip, t, ch, turn.rest, fuel)
  }

  /** What the session fills in before a message goes out. */
  function Stamp(m: MsgProto, steamId: Uint64, sessionId: Int32): MsgProto {
    var h := m.header;
    var h := if steamId != 0 && h.steamId == 0 then h.(steamId := steamId) else h;
    var h := if sessionId != 0 && h.sessionId == 0 then h.(sessionId := sessionId) else h;
    m.(header := h)
  }

  /** Ids the message has stay, missing ones become the session's, and nothing
      else changes. */
  lemma StampFills(m: MsgProto, steamId: Uint64, sessionId: Int32)
    ensures var s, h := Stamp(m, steamId, sessionId), m.header;
            && s.msg == m.msg && s.body == m.body
            && s.header == Header(if h.steamId != 0 then h.steamId else steamId,
                                  if h.sessionId != 0 then h.sessionId else sessionId,
                                  h.jobSource, h.jobTarget, h.jobName, h.eresult, h.errorMessage)
  {
  }

  /** One send: the bytes written before and after it. A failure writes nothing. */
  predicate Appended(c: MsgConn, before: Bytes, after: Bytes, sealed: Outcome<Bytes>, k: nat) {
    after == before + if sealed.Ok? then c.Wrapped(sealed.value, k) else []
  }

  const NO_WAITERS := Inbox(map[], map[])

  class Client {
    const primitives: Primitives
    const gunzip: Bytes -> Option<Bytes>
    var conn: Option<MsgConn>
    var channel: Channel
    var steamId: Uint64
    var sessionId: Int32
    var inbox: Inbox
    var closed: seq<Inbox> // the waiters Disconnect closed, each with what it held
    ghost var delivered: seq<Packet>

    constructor (primitives: Primitives, gunzip: Bytes -> Option<Bytes>)
      ensures conn == None && channel == Plain && steamId == 0 && sessionId == 0
      ensures inbox == NO_WAITERS && closed == [] && delivered == []
      ensures this.primitives == primitives && this.gunzip == gunzip
    {
      this.primitives := primitives;
      this.gunzip := gunzip;
      conn, channel := None, Plain;
      steamId, sessionId := 0, 0;
      inbox, closed := NO_WAITERS, [];
      delivered := [];
    }

    function Stamped(m: MsgProto): MsgProto
      reads this
    {
      Stamp(m, steamId, sessionId)
    }

    ghost function Linked(): set<object>
      reads this
    {
      if conn.Some? then conn.value.Objects() else {}
    }

    method SendMsgProto(m: MsgProto, iv: Block, prefix: Nonce) returns (ok: bool)
      requires |m.header.jobName| < TWO_63 && |m.header.errorMessage| < TWO_63
      modifies Linked()
      ensures var sealed := Sealed(primitives, channel, MsgProtoBytes(Stamped(m)), iv, prefix);
              (ok <==> conn.Some? && sealed.Ok?) && (conn.Some? ==> Wrote(conn.value, sealed))
    {
      hide Sealed, MsgProtoBytes, PacketBytes, WebSocket.ClientFrame;
      var m' := m;
      if steamId != 0 && m'.header.steamId == 0 { m' := m'.(header := m'.header.(steamId := steamId)); }
      if sessionId != 0 && m'.header.sessionId == 0 { m' := m'.(header := m'.header.(sessionId := sessionId)); }
      assert m' == Stamped(m);
      var payload := SerializeMsgProto(m');
      ok := SendRaw(payload, true, iv, prefix);
    }

    /** A sealed message went out in one packet or frame; a failure wrote nothing. */
    twostate predicate Wrote(c: MsgConn, sealed: Outcome<Bytes>)
      reads c.Objects()
    {
      Appended(c, old(c.Target().out), c.Target().out, sealed, old(c.Written()))
    }

    /** sendRaw: without encryptOK, as in the handshake, nothing is encrypted. */
    method SendRaw(payload: Bytes, encryptOK: bool, iv: Block, prefix: Nonce) returns (ok: bool)
      modifies Linked()
      ensures var sealed := Sealed(primitives, if encryptOK then channel else Plain, payload, iv, prefix);
              (ok <==> conn.Some? && sealed.Ok?) && (conn.Some? ==> Wrote(conn.value, sealed))
    {
      hide SymmetricEncryptWithIV, SymmetricEncryptHMAC, PacketBytes, WebSocket.ClientFrame;
      if conn.None? { return false; }
      var data := Ok(payload);
      if encryptOK {
        match channel {
          case Plain =>
          case Keyed(key) => data := SymmetricEncryptWithIV(primitives, payload, key, iv);
          case Authenticated(key, secret) => data := SymmetricEncryptHMAC(primitives, payload, key, secret, prefix);
        }
      }
      if !data.Ok? { return false; }
      WriteMsg(conn.value, data.value);
      return true;
    }

    method Disconnect()
      modifies this, Linked()
      ensures conn == None && channel == Plain && inbox == NO_WAITERS && closed == old(closed) + [old(inbox)]
      ensures steamId == old(steamId) && sessionId == old(sessionId) && delivered == old(delivered)
      ensures old(conn).Some? ==>
                var c := old(conn).value;
                c.Target().out == old(c.Target().out) + c.Goodbye(old(c.Written()))
    {
      var c := conn;
      conn, channel := None, Plain;
      closed := closed + [inbox];
      inbox := NO_WAITERS;
      if c.Some? { Close(c.value); }
    }

    /** The packets of a delivery went to the log and to the waiters. */
    twostate predicate Took(d: Delivery)
      reads this
    {
      && delivered == old(delivered) + d.packets
      && inbox == RouteAll(old(inbox), d.packets)
      && conn == old(conn) && channel == old(channel)
      && steamId == old(steamId) && sessionId == old(sessionId) && closed == old(closed)
    }

    /** The same, and then Disconnect closed every waiter. */
    twostate predicate TookAndLeft(d: Delivery)
      reads this
    {
      && delivered == old(delivered) + d.packets
      && closed == old(closed) + [RouteAll(old(inbox), d.packets)]
      && inbox == NO_WAITERS && conn == None && channel == Plain
      && steamId == old(steamId) && sessionId == old(sessionId)
    }

    method Dispatch(msg: Bytes, fuel: nat) returns (ending: Ending)
      modifies this
      ensures Took(Dispatched(gunzip, msg, fuel)) && ending == Dispatched(gunzip, msg, fuel).ending
      decreases fuel, 0, 0
    {
      hide ParsedMsgProto, MultiDelivered, Route, FromLittleEndian;
      assert delivered + [] == delivered;
      if |msg| < 4 { return Finished; }
      var rawEMsg := Word32(msg[0..4]);
      var pkt;
      if IsProto(rawEMsg) {
        var mp := ParseMsgProto(msg);
        if mp.Fail? { return Finished; }
        if mp.Crash? { return Crashed; }
        pkt := ProtoPacket(mp.value);
      } else {
        var m := ParsedMsg(msg);
        if !m.Ok? { return Finished; }
        pkt := StructPacket(m.value);
      }
      if pkt.EMsg() == EMSG_MULTI && pkt.ProtoPacket? {
        if fuel == 0 { return Exhausted; }
        ending := HandleMulti(pkt.mp.body, fuel - 1);
        return;
      }
      delivered := delivered + [pkt];
      Deliver(pkt);
      assert RouteAll(old(inbox), [pkt]) == Route(old(inbox), pkt);
      return Finished;
    }

    method Deliver(pkt: Packet)
      modifies this`inbox
      ensures inbox == Route(old(inbox), pkt)
    {
      if pkt.ProtoPacket? && pkt.mp.header.jobTarget != 0 && pkt.mp.header.jobTarget != JOB_ID_NONE {
        var job := pkt.mp.header.jobTarget;
        if job in inbox.jobWaiters {
          inbox := inbox.(jobWaiters := inbox.jobWaiters[job := Offer(inbox.jobWaiters[job], pkt)]);
          return;
        }
      }
      if pkt.EMsg() in inbox.waiters {
        inbox := inbox.(waiters := inbox.waiters[pkt.EMsg() := Offer(inbox.waiters[pkt.EMsg()], pkt)]);
      }
    }

    /** The envelope loop of handleMulti: the last payload and the last size. */
    static method MultiEnvelope(body: Bytes) returns (size: Uint64, payload: Bytes, status: Status)
      ensures status == MultiFields(body, 0).status
      ensures status.Done? ==>
                && payload == Last(MultiFields(body, 0).fields, 2, BYTES).Content()
                && size == Last(MultiFields(body, 0).fields, 1, VARINT).Varint()
    {
      hide ReadVarint, FromLittleEndian, MultiFields;
      payload, size := [], 0;
      ghost var fs: seq<Field> := [];
      var i := 0;
      assert body[0..] == body;
      while i < |body|
        invariant 0 <= i <= |body|
        invariant payload == Last(fs, 2, BYTES).Content() && size == Last(fs, 1, VARINT).Varint()
        invariant MultiFields(body, 0) == Prepend(fs, MultiFields(body[i..], i))
      {
        var key, n := Wire.ConsumeVarint(body[i..]);
        if n == 0 { MultiStops(body, fs, i); return 0, [], Malformed; }
        var j := i + n;
        ghost var value := body[i..][n..];
        assert body[j..] == value;
        var field, wt := key / 8, key % 8;
        ReadFieldIs(body[i..], i, key, n, Lax);
        CutFixedIs(body[i..], key, n);
        hide ReadField, ReadValue, CutFixed;
        ghost var f;
        if wt == VARINT {
          var v, m := Wire.ConsumeVarint(body[j..]);
          VarintValue(field, value, j, v, m, Lax);
          if m == 0 { MultiStops(body, fs, i); return 0, [], Malformed; }
          j := j + m;
          f := MkVarint(field, v);
          assert ReadField(body[i..], i, Lax) == Got(f, j - i);
          if field == 1 { size := v; }
        } else if wt == BYTES {
          var l, m := Wire.ConsumeVarint(body[j..]);
          BytesValue(field, value, j, l, m, Lax);
          if m == 0 { MultiStops(body, fs, i); return 0, [], Malformed; }
          if j + m + l >= TWO_63 { MultiStops(body, fs, i); return 0, [], Fault; }
          if j + m + l > |body| { MultiStops(body, fs, i); return 0, [], Malformed; }
          j := j + m;
          var val := body[j..j + l];
          assert val == value[m..m + l];
          j := j + l;
          f := MkBytes(field, val);
          assert ReadField(body[i..], i, Lax) == Got(f, j - i);
          if field == 2 { payload := val; }
        } else if wt == FIXED32 {
          FixedValue(field, value, j, Lax);
          j := j + 4;
          if j > |body| { MultiCut(body, fs, i); break; }
          f := MkFixed32(field, Word32(value[..4]));
          assert ReadField(body[i..], i, Lax) == Got(f, j - i);
        } else if wt == FIXED64 {
          FixedValue(field, value, j, Lax);
          j := j + 8;
          if j > |body| { MultiCut(body, fs, i); break; }
          f := MkFixed64(field, Word64(value[..8]));
          assert ReadField(body[i..], i, Lax) == Got(f, j - i);
        } else {
          FixedValue(field, value, j, Lax);
          MultiStops(body, fs, i);
          return 0, [], Malformed;
        }
        MultiStep(body, fs, i, f, j - i);
        EnvelopeSnoc(fs, f);
        fs := fs + [f];
        i := j;
      }
      if i == |body| { MultiEnds(body, fs); }
      status := Done;
    }

    static lemma CutFixedIs(rest: Bytes, key: Uint64, k: nat)
      requires (key, k) == ReadVarint(rest, Lax) && k > 0
      ensures CutFixed(rest) <==> (key % 8 == FIXED32 && k + 4 > |rest|) || (key % 8 == FIXED64 && k + 8 > |rest|)
    {
      hide ReadVarint;
    }

    /** What one more field changes: the last payload and the last size count. */
    static lemma EnvelopeSnoc(fs: seq<Field>, f: Field)
      ensures Last(fs + [f], 2, BYTES).Content() == if f.MkBytes? && f.number == 2 then f.s else Last(fs, 2, BYTES).Content()
      ensures Last(fs + [f], 1, VARINT).Varint() == if f.MkVarint? && f.number == 1 then f.v else Last(fs, 1, VARINT).Varint()
    {
      assert (fs + [f])[..|fs|] == fs;
    }

    static lemma MultiStep(body: Bytes, fs: seq<Field>, i: nat, f: Field, n: nat)
      requires i < |body| && !CutFixed(body[i..]) && ReadField(body[i..], i, Lax) == Got(f, n)
      requires MultiFields(body, 0) == Prepend(fs, MultiFields(body[i..], i))
      ensures i + n <= |body|
      ensures MultiFields(body, 0) == Prepend(fs + [f], MultiFields(body[i + n..], i + n))
    {
      hide ReadField, CutFixed, Prepend;
      assert body[i..][n..] == body[i + n..];
      PrependAssociates(f, fs, MultiFields(body[i + n..], i + n));
    }

    static lemma MultiStops(body: Bytes, fs: seq<Field>, i: nat)
      requires i < |body| && !CutFixed(body[i..]) && ReadField(body[i..], i, Lax).Stop?
      requires MultiFields(body, 0) == Prepend(fs, MultiFields(body[i..], i))
      ensures MultiFields(body, 0).status == ReadField(body[i..], i, Lax).status
    {
      hide ReadField, CutFixed;
    }

    static lemma MultiCut(body: Bytes, fs: seq<Field>, i: nat)
      requires i < |body| && CutFixed(body[i..])
      requires MultiFields(body, 0) == Prepend(fs, MultiFields(body[i..], i))
      ensures MultiFields(body, 0) == Decoded(fs, Done)
    {
      hide ReadField, CutFixed;
      assert fs + [] == fs;
    }

    static lemma MultiEnds(body: Bytes, fs: seq<Field>)
      requires MultiFields(body, 0) == Prepend(fs, MultiFields(body[|body|..], |body|))
      ensures MultiFields(body, 0) == Decoded(fs, Done)
    {
      hide ReadField, CutFixed;
      assert fs + [] == fs;
    }

    method HandleMulti(body: Bytes, fuel: nat) returns (ending: Ending)
      modifies this
      ensures Took(MultiDelivered(gunzip, body, fuel)) && ending == MultiDelivered(gunzip, body, fuel).ending
      decreases fuel, 1, 0
    {
      hide MultiFields, Last, Route, Dispatched, FromLittleEndian;
      assert delivered + [] == delivered;
      var size, payload, status := MultiEnvelope(body);
      if status.Malformed? { return Finished; }
      if status.Fault? { return Crashed; }
      if size > 0 || (|payload| >= 2 && payload[0] == 0x1f && payload[1] == 0x8b) {
        var plain := gunzip(payload);
        if plain.None? { return Finished; }
        payload := plain.value;
      }
      ending := DispatchInner(payload, fuel);
    }

    /** The unpacking loop of handleMulti. */
    method DispatchInner(data: Bytes, fuel: nat) returns (ending: Ending)
      modifies this
      ensures Took(AllDispatched(gunzip, Inner(data), fuel)) && ending == AllDispatched(gunzip, Inner(data), fuel).ending
      decreases fuel, 0, 1
    {
      var payload := data;
      ghost var done := NOTHING;
      assert delivered + [] == delivered && RouteAll(inbox, []) == inbox;
      NothingMore(AllDispatched(gunzip, Inner(data), fuel));
      hide Dispatched, FromLittleEndian, RouteAll;
      while |payload| >= 4
        invariant done.ending.Finished? && Took(done)
        invariant AllDispatched(gunzip, Inner(data), fuel) == done.Then(AllDispatched(gunzip, Inner(payload), fuel))
        decreases |payload|
      {
        ghost var was := payload;
        var n := Word32(payload[..4]);
        payload := payload[4..];
        if n > |payload| {
          assert Inner(was) == [];
          NothingMore(done);
          return Finished;
        }
        ending := Dispatch(payload[..n], fuel);
        ghost var d := Dispatched(gunzip, payload[..n], fuel);
        payload := payload[n..];
        assert Inner(was) == [was[4..][..n]] + Inner(payload);
        InnerStep(done, was[4..][..n], Inner(payload), fuel);
        TakenTogether(old(inbox), old(delivered), done, d);
        done := done.Then(d);
        if !ending.Finished? { return; }
      }
      assert Inner(payload) == [];
      NothingMore(done);
      return Finished;
    }

    lemma InnerStep(done: Delivery, msg: Bytes, msgs: seq<Bytes>, fuel: nat)
      requires done.ending.Finished?
      ensures var d := Dispatched(gunzip, msg, fuel);
              done.Then(AllDispatched(gunzip, [msg] + msgs, fuel))
              == if d.ending.Finished? then done.Then(d).Then(AllDispatched(gunzip, msgs, fuel)) else done.Then(d)
    {
      hide Dispatched;
      var d := Dispatched(gunzip, msg, fuel);
      assert ([msg] + msgs)[1..] == msgs;
      var r := AllDispatched(gunzip, msgs, fuel);
      assert done.packets + (d.packets + r.packets) == done.packets + d.packets + r.packets;
    }

    /** What the read loop put on the wire of its connection: the answers to the
        pings, and the goodbye if Disconnect ended it. */
    twostate predicate Answered(c: MsgConn, pings: seq<Bytes>, left: bool)
      reads c.Objects()
    {
      var k := old(c.Written());
      c.Target().out == old(c.Target().out) + c.Replies(pings, k) + if left then c.Goodbye(k + |pings|) else []
    }

    /** One turn of the loop of readLoop. */
    method HearOne(c: MsgConn, fuel: nat) returns (over: bool, ending: Ending)
      requires conn == Some(c)
      modifies this, c.Objects()
      ensures var turn := TurnOf(primitives, gunzip, c.Kind(), old(channel), old(c.Source().rest), fuel);
              && over == turn.over && ending == turn.delivery.ending && Took(turn.delivery)
              && c.Source().rest == turn.rest
              && Answered(c, turn.pings, false) && c.Written() == old(c.Written()) + |turn.pings|
    {
      hide Dispatched, PacketOf, NextIncoming, SymmetricDecrypt, SymmetricDecryptHMAC, WebSocket.Pongs, WebSocket.ClientFrame;
      assert delivered + [] == delivered && RouteAll(inbox, []) == inbox;
      var raw := ReadMsg(c);
      if raw.Panic? { return true, Crashed; }
      if !raw.Message? { return true, Finished; }
      var msg := Ok(raw.payload);
      match channel {
        case Plain =>
        case Keyed(key) => msg := SymmetricDecrypt(primitives, raw.payload, key);
        case Authenticated(key, secret) => msg := SymmetricDecryptHMAC(primitives, raw.payload, key, secret);
      }
      if !msg.Ok? { return true, Finished; }
      ending := Dispatch(msg.value, fuel);
      over := !ending.Finished?;
    }

    /** readLoop: from a stream to the waiters, which are closed when it ends. */
    method ReadLoop(fuel: nat) returns (ending: Ending)
      modifies this, Linked()
      ensures old(conn).None? ==> ending.Finished? && Took(NOTHING)
      ensures old(conn).Some? ==>
                var c := old(conn).value;
                var d := Received(primitives, gunzip, c.Kind(), old(channel), old(c.Source().rest), fuel);
                var pings := Pinged(primitives, gunzip, c.Kind(), old(channel), old(c.Source().rest), fuel);
                && ending == d.ending
                && (if ending.Finished? then TookAndLeft(d) else Took(d))
                && Answered(c, pings, ending.Finished?)
    {
      hide TurnOf, RouteAll, WebSocket.Pongs, WebSocket.ClientFrame;
      ghost var done := NOTHING;
      NoRoute(inbox, delivered);
      if conn.None? { return Finished; }
      var c := conn.value;
      ghost var pings: seq<Bytes> := [];
      NothingMore(Received(primitives, gunzip, c.Kind(), channel, c.Source().rest, fuel));
      NoReplies(c, c.Written(), c.Target().out);
      while true
        invariant done.ending.Finished? && Took(done) && Answered(c, pings, false)
        invariant c.Written() == old(c.Written()) + |pings|
        invariant Received(primitives, gunzip, c.Kind(), channel, old(c.Source().rest), fuel)
                  == done.Then(Received(primitives, gunzip, c.Kind(), channel, c.Source().rest, fuel))
        invariant Pinged(primitives, gunzip, c.Kind(), channel, old(c.Source().rest), fuel)
                  == pings + Pinged(primitives, gunzip, c.Kind(), channel, c.Source().rest, fuel)
        decreases |c.Source().rest|
      {
        ghost var turn := TurnOf(primitives, gunzip, c.Kind(), channel, c.Source().rest, fuel);
        ghost var rest := Received(primitives, gunzip, c.Kind(), channel, turn.rest, fuel);
        var over;
        over, ending := HearOne(c, fuel);
        RepliesAppend(c, pings, turn.pings, old(c.Written()), old(c.Target().out));
        TakenTogether(old(inbox), old(delivered), done, turn.delivery);
        ThenAssociates(done, turn.delivery, rest);
        done, pings := done.Then(turn.delivery), pings + turn.pings;
        if over {
          if ending.Finished? { Disconnect(); }
          return;
        }
      }
    }
  }

  lemma NoRoute(inbox: Inbox, log: seq<Packet>)
    ensures RouteAll(inbox, []) == inbox && log + [] == log
  {
  }

  lemma NoReplies(c: MsgConn, k: nat, out: Bytes)
    ensures out + c.Replies([], k) + [] == out
  {
  }

  lemma RepliesAppend(c: MsgConn, a: seq<Bytes>, b: seq<Bytes>, k: nat, out: Bytes)
    ensures out + c.Replies(a, k) + [] + c.Replies(b, k + |a|) + [] == out + c.Replies(a + b, k) + []
    ensures out + c.Replies(a + b, k) + [] == out + c.Replies(a + b, k)
  {
    hide WebSocket.Pongs;
    if c.WssConn? { WebSocket.PongsAppend(a, b, c.ws.masks, k); }
    AppendTwice(out, c.Replies(a, k), c.Replies(b, k + |a|));
  }

  lemma AppendTwice(out: Bytes, a: Bytes, b: Bytes)
    ensures out + a + [] + b + [] == out + (a + b) + [] == out + (a + b)
  {
  }

  /** Taking one delivery and then the next is taking both. */
  lemma TakenTogether(inbox: Inbox, log: seq<Packet>, a: Delivery, b: Delivery)
    requires a.ending.Finished?
    ensures var both := a.Then(b).packets;
            && RouteAll(inbox, both) == RouteAll(RouteAll(inbox, a.packets), b.packets)
            && log + both == log + a.packets + b.packets
  {
    RouteAllAppend(inbox, a.packets, b.packets);
    assert log + a.packets + b.packets == log + (a.packets + b.packets);
  }

  lemma NothingMore(a: Delivery)
    ensures a.Then(NOTHING) == a && NOTHING.Then(a) == a
  {
    assert a.packets + [] == a.packets && [] + a.packets == a.packets;
  }

  lemma ThenAssociates(a: Delivery, b: Delivery, c: Delivery)
    ensures a.Then(b).Then(c) == a.Then(b.Then(c))
  {
    assert a.packets + b.packets + c.packets == a.packets + (b.packets + c.packets);
  }

  // ------------------------------------------------------------- end to end

  /** A message on its way out, with the random bytes it is sealed with. */
  datatype Sending = Sending(msg: MsgProto, iv: Block, prefix: Nonce)

  /** Headers below 4 GiB, and no Multi. */
  predicate Goes(p: Primitives, ch: Channel, s: Sending) {
    Sized(s.msg) && NormalMsg(s.msg).msg != EMSG_MULTI && Sealed(p, ch, MsgProtoBytes(s.msg), s.iv, s.prefix).Ok?
  }

  function Ciphertext(p: Primitives, ch: Channel, s: Sending): Bytes
    requires Goes(p, ch, s)
  {
    Sealed(p, ch, MsgProtoBytes(s.msg), s.iv, s.prefix).value
  }

  /** Over TCP a ciphertext has at most 16 MiB. */
  predicate Sendable(p: Primitives, ch: Channel, s: Sending) {
    Goes(p, ch, s) && |Ciphertext(p, ch, s)| <= MAX_PACKET
  }

  function SentBytes(p: Primitives, ch: Channel, s: Sending): Bytes
    requires Sendable(p, ch, s)
  {
    PacketBytes(Ciphertext(p, ch, s))
  }

  ghost predicate AllSendable(p: Primitives, ch: Channel, ss: seq<Sending>) {
    forall i :: 0 <= i < |ss| ==> Sendable(p, ch, ss[i])
  }

  function SentStream(p: Primitives, ch: Channel, ss: seq<Sending>): Bytes
    requires AllSendable(p, ch, ss)
  {
    if ss == [] then [] else SentBytes(p, ch, ss[0]) + SentStream(p, ch, ss[1..])
  }

  function Arrivals(ss: seq<Sending>): seq<Packet> {
    if ss == [] then [] else [ProtoPacket(NormalMsg(ss[0].msg))] + Arrivals(ss[1..])
  }

  /** What is sealed and opened again is dispatched as the message. */
  lemma OneOpens(p: Primitives, gunzip: Bytes -> Option<Bytes>, ch: Channel, s: Sending, fuel: nat)
    requires p.Lawful() && GoodChannel(ch) && Goes(p, ch, s)
    ensures var plain := Opened(p, ch, Ciphertext(p, ch, s));
            plain.Ok? && Dispatched(gunzip, plain.value, fuel) == Delivery([ProtoPacket(NormalMsg(s.msg))], Finished)
  {
    hide Sealed, Opened, MsgProtoBytes, ParsedPacket, NormalMsg;
    OpenSealed(p, ch, MsgProtoBytes(s.msg), s.iv, s.prefix);
    MultiPacket(s.msg);
  }

  lemma ArrivalsCons(ss: seq<Sending>, end: Delivery)
    requires ss != []
    ensures Delivery([ProtoPacket(NormalMsg(ss[0].msg))], Finished).Then(Delivery(Arrivals(ss[1..]), Finished).Then(end))
            == Delivery(Arrivals(ss), Finished).Then(end)
  {
    hide NormalMsg;
    var one := Delivery([ProtoPacket(NormalMsg(ss[0].msg))], Finished);
    ThenAssociates(one, Delivery(Arrivals(ss[1..]), Finished), end);
  }

  /** The end-to-end channel: whatever list of messages is sent, with whatever
      random bytes and whatever follows on the stream, the read loop delivers
      exactly those messages, in order, and goes on with what follows. */
  lemma {:induction false} EndToEnd(p: Primitives, gunzip: Bytes -> Option<Bytes>, ch: Channel, ss: seq<Sending>, tail: Bytes, fuel: nat)
    requires p.Lawful() && GoodChannel(ch) && AllSendable(p, ch, ss)
    ensures Received(p, gunzip, Tcp, ch, SentStream(p, ch, ss) + tail, fuel)
            == Delivery(Arrivals(ss), Finished).Then(Received(p, gunzip, Tcp, ch, tail, fuel))
  {
    hide Received, Sendable, SentBytes, NormalMsg;
    var end := Received(p, gunzip, Tcp, ch, tail, fuel);
    if ss == [] {
      assert SentStream(p, ch, ss) + tail == tail;
      NothingMore(end);
    } else {
      var rest := SentStream(p, ch, ss[1..]) + tail;
      assert SentStream(p, ch, ss) + tail == SentBytes(p, ch, ss[0]) + rest;
      OneArrives(p, gunzip, ch, ss[0], rest, fuel);
      EndToEnd(p, gunzip, ch, ss[1..], tail, fuel);
      ArrivalsCons(ss, end);
    }
  }

  lemma OneArrives(p: Primitives, gunzip: Bytes -> Option<Bytes>, ch: Channel, s: Sending, rest: Bytes, fuel: nat)
    requires p.Lawful() && GoodChannel(ch) && Sendable(p, ch, s)
    ensures Received(p, gunzip, Tcp, ch, SentBytes(p, ch, s) + rest, fuel)
            == Delivery([ProtoPacket(NormalMsg(s.msg))], Finished).Then(Received(p, gunzip, Tcp, ch, rest, fuel))
  {
    OneOpens(p, gunzip, ch, s, fuel);
    hide Ciphertext, Opened, Dispatched, PacketOf, PacketBytes, NormalMsg, Goes;
    PacketRoundTrip(Ciphertext(p, ch, s), rest);
  }

  /** A message that cannot be opened ends the loop: what came before it is
      delivered, and nothing after it. */
  lemma StopsAtBad(p: Primitives, gunzip: Bytes -> Option<Bytes>, ch: Channel, ss: seq<Sending>, bad: Bytes, tail: Bytes, fuel: nat)
    requires p.Lawful() && GoodChannel(ch) && AllSendable(p, ch, ss)
    requires |bad| <= MAX_PACKET && !Opened(p, ch, bad).Ok?
    ensures Received(p, gunzip, Tcp, ch, SentStream(p, ch, ss) + PacketBytes(bad) + tail, fuel) == Delivery(Arrivals(ss), Finished)
  {
    hide SentStream, Opened, PacketOf, PacketBytes, AllSendable;
    var rest := PacketBytes(bad) + tail;
    assert SentStream(p, ch, ss) + PacketBytes(bad) + tail == SentStream(p, ch, ss) + rest;
    EndToEnd(p, gunzip, ch, ss, rest, fuel);
    PacketRoundTrip(bad, tail);
    NothingMore(Delivery(Arrivals(ss), Finished));
  }

  // ----------------------------------------------------------- what is sent

  /** A call of SendMsgProto: the message, the ids of the session then, and the
      random bytes. */
  datatype Call = Call(msg: MsgProto, steamId: Uint64, sessionId: Int32, iv: Block, prefix: Nonce)
  {
    function Out(): Sending { Sending(Stamp(msg, steamId, sessionId), iv, prefix) }
  }

  function Sendings(calls: seq<Call>): seq<Sending> {
    seq(|calls|, i requires 0 <= i < |calls| => calls[i].Out())
  }

  /** A run of calls: outs are the bytes written before the first and after each,
      ks the frames written before each. */
  ghost predicate Sends(p: Primitives, ch: Channel, c: MsgConn, calls: seq<Call>, outs: seq<Bytes>, ks: seq<nat>) {
    && |outs| == |calls| + 1 && |ks| == |calls| && outs[0] == []
    && forall i :: 0 <= i < |calls| ==>
         var s := calls[i].Out();
         Appended(c, outs[i], outs[i + 1], Sealed(p, ch, MsgProtoBytes(s.msg), s.iv, s.prefix), ks[i])
  }

  lemma {:induction false} TcpSends(p: Primitives, ch: Channel, c: MsgConn, calls: seq<Call>, outs: seq<Bytes>, ks: seq<nat>)
    requires c.TcpConn? && Sends(p, ch, c, calls, outs, ks) && AllSendable(p, ch, Sendings(calls))
    ensures |outs| == |calls| + 1 && outs[|calls|] == SentStream(p, ch, Sendings(calls))
  {
    hide Sends, Stamp, PacketBytes, Sendable, Goes, Ciphertext, SentStream;
    Lengths(p, ch, c, calls, outs, ks);
    if calls == [] {
      assert Sendings(calls) == [];
      NothingSent(p, ch);
    } else {
      var n := |calls| - 1;
      var init, s := Sendings(calls[..n]), calls[n].Out();
      assert Sendings(calls) == init + [s];
      assert Sendable(p, ch, Sendings(calls)[n]);
      forall i | 0 <= i < n ensures Sendable(p, ch, init[i]) { assert init[i] == Sendings(calls)[i]; }
      SendsInit(p, ch, c, calls, outs, ks);
      TcpSends(p, ch, c, calls[..n], outs[..|calls|], ks[..n]);
      SendableGoes(p, ch, s);
      OneSent(p, ch, c, calls, outs, ks, n);
      SentStreamSnoc(p, ch, init, s);
    }
  }

  lemma NothingSent(p: Primitives, ch: Channel)
    ensures SentStream(p, ch, []) == []
  {
  }

  lemma SendableGoes(p: Primitives, ch: Channel, s: Sending)
    requires Sendable(p, ch, s)
    ensures Goes(p, ch, s)
  {
  }

  lemma SendsInit(p: Primitives, ch: Channel, c: MsgConn, calls: seq<Call>, outs: seq<Bytes>, ks: seq<nat>)
    requires Sends(p, ch, c, calls, outs, ks) && calls != []
    ensures Sends(p, ch, c, calls[..|calls| - 1], outs[..|calls|], ks[..|calls| - 1])
  {
    hide Sealed, Stamp, MsgProtoBytes, Appended;
  }

  /** From one end to the other over TCP: what any run of SendMsgProto calls wrote,
      whatever follows it, is delivered as the stamped messages, in order. */
  lemma SentIsDelivered(p: Primitives, gunzip: Bytes -> Option<Bytes>, ch: Channel, c: MsgConn, calls: seq<Call>,
                        outs: seq<Bytes>, ks: seq<nat>, tail: Bytes, fuel: nat)
    requires p.Lawful() && GoodChannel(ch) && c.TcpConn?
    requires Sends(p, ch, c, calls, outs, ks) && AllSendable(p, ch, Sendings(calls))
    ensures var d, more := Received(p, gunzip, Tcp, ch, outs[|calls|] + tail, fuel), Received(p, gunzip, Tcp, ch, tail, fuel);
            && |d.packets| == |calls| + |more.packets| && d.packets[|calls|..] == more.packets && d.ending == more.ending
            && forall i :: 0 <= i < |calls| ==>
                 d.packets[i] == ProtoPacket(NormalMsg(Stamp(calls[i].msg, calls[i].steamId, calls[i].sessionId)))
  {
    hide Received, Sends, AllSendable, NormalMsg, Stamp;
    TcpSends(p, ch, c, calls, outs, ks);
    EndToEnd(p, gunzip, ch, Sendings(calls), tail, fuel);
    ArrivalsAt(Sendings(calls));
  }

  lemma {:induction false} ArrivalsAt(ss: seq<Sending>)
    ensures |Arrivals(ss)| == |ss| && forall i :: 0 <= i < |ss| ==> Arrivals(ss)[i] == ProtoPacket(NormalMsg(ss[i].msg))
  {
    hide NormalMsg;
    if ss != [] { ArrivalsAt(ss[1..]); }
  }

  /** A frame as WriteMsg makes it, whose payload opens to this message. */
  predicate FrameCarries(p: Primitives, gunzip: Bytes -> Option<Bytes>, ch: Channel, f: WebSocket.RfcFrame, mask: WebSocket.Mask,
                         m: MsgProto, fuel: nat) {
    && f == WebSocket.RfcFrame(true, 0x2, Some(mask), f.payload)
    && Opened(p, ch, f.payload).Ok?
    && Dispatched(gunzip, Opened(p, ch, f.payload).value, fuel) == Delivery([ProtoPacket(NormalMsg(m))], Finished)
  }

  /** The same over a WebSocket, for the peer: what any run of calls wrote is one
      binary frame per message, each with its own mask, and what a frame carries
      opens to the stamped message. */
  lemma SentInFrames(p: Primitives, gunzip: Bytes -> Option<Bytes>, ch: Channel, c: MsgConn, calls: seq<Call>,
                     outs: seq<Bytes>, ks: seq<nat>, tail: Bytes, fuel: nat)
    requires p.Lawful() && GoodChannel(ch) && c.WssConn? && Sends(p, ch, c, calls, outs, ks)
    requires forall i :: 0 <= i < |calls| ==> Goes(p, ch, calls[i].Out()) && |Ciphertext(p, ch, calls[i].Out())| < TWO_63
    ensures var r := WebSocket.RfcFrames(outs[|calls|] + tail, |calls|);
            && r.Some? && |r.value.0| == |calls| && r.value.1 == tail
            && forall i :: 0 <= i < |calls| ==>
                 FrameCarries(p, gunzip, ch, r.value.0[i], c.ws.masks(ks[i]),
                              Stamp(calls[i].msg, calls[i].steamId, calls[i].sessionId), fuel)
  {
    hide Goes, Stamp, Ciphertext, WebSocket.RfcFrames, WebSocket.ClientFrame, FrameCarries, Sends;
    var n := |calls|;
    var xs := seq(n, i requires 0 <= i < n => Ciphertext(p, ch, calls[i].Out()));
    Lengths(p, ch, c, calls, outs, ks);
    var ms := seq(n, i requires 0 <= i < n => c.ws.masks(ks[i]));
    forall i | 0 <= i < n ensures outs[i + 1] == outs[i] + WebSocket.ClientFrame(WebSocket.BINARY, xs[i], ms[i]) {
      OneSent(p, ch, c, calls, outs, ks, i);
    }
    WebSocket.WrittenFrames(WebSocket.BINARY, xs, ms, outs, tail);
    var frames := WebSocket.RfcFrames(outs[n] + tail, n).value.0;
    forall i | 0 <= i < n
      ensures FrameCarries(p, gunzip, ch, frames[i], c.ws.masks(ks[i]), Stamp(calls[i].msg, calls[i].steamId, calls[i].sessionId), fuel)
    {
      Carried(p, gunzip, ch, calls[i].Out(), c.ws.masks(ks[i]), fuel);
    }
  }

  lemma Lengths(p: Primitives, ch: Channel, c: MsgConn, calls: seq<Call>, outs: seq<Bytes>, ks: seq<nat>)
    requires Sends(p, ch, c, calls, outs, ks)
    ensures |outs| == |calls| + 1 && |ks| == |calls| && outs[0] == []
  {
  }

  lemma Carried(p: Primitives, gunzip: Bytes -> Option<Bytes>, ch: Channel, s: Sending, mask: WebSocket.Mask, fuel: nat)
    requires p.Lawful() && GoodChannel(ch) && Goes(p, ch, s)
    ensures FrameCarries(p, gunzip, ch, WebSocket.RfcFrame(true, 0x2, Some(mask), Ciphertext(p, ch, s)), mask, s.msg, fuel)
  {
    OneOpens(p, gunzip, ch, s, fuel);
  }

  lemma OneSent(p: Primitives, ch: Channel, c: MsgConn, calls: seq<Call>, outs: seq<Bytes>, ks: seq<nat>, i: nat)
    requires Sends(p, ch, c, calls, outs, ks) && i < |calls| && Goes(p, ch, calls[i].Out())
    ensures outs[i + 1] == outs[i] + c.Wrapped(Ciphertext(p, ch, calls[i].Out()), ks[i])
  {
    hide Sealed, WebSocket.ClientFrame, PacketBytes, Stamp, MsgProtoBytes, Sized, NormalMsg;
  }

  /** Raw messages, decrypted and dispatched until one cannot be decrypted. */
  function FromRaws(p: Primitives, gunzip: Bytes -> Option<Bytes>, ch: Channel, raws: seq<Bytes>, end: Ending, fuel: nat): Delivery {
    if raws == [] then Delivery([], end)
    else match Opened(p, ch, raws[0])
      case Ok(msg) => Dispatched(gunzip, msg, fuel).Then(FromRaws(p, gunzip, ch, raws[1..], end, fuel))
      case _ => NOTHING
  }

  /** Over a WebSocket the loop sees the messages of repeated ReadMsg. */
  lemma {:induction false} ReceivedFrames(p: Primitives, gunzip: Bytes -> Option<Bytes>, ch: Channel, stream: Bytes, fuel: nat)
    ensures var all := WebSocket.ReadAll(stream);
            Received(p, gunzip, Wss, ch, stream, fuel)
            == FromRaws(p, gunzip, ch, all.messages, if all.result.Panic? then Crashed else Finished, fuel)
    decreases |stream|
  {
    hide Opened, Dispatched, WebSocket.NextMsg;
    var r := WebSocket.NextMsg(stream);
    if r.result.Message? {
      ReceivedFrames(p, gunzip, ch, r.rest, fuel);
      var more := WebSocket.ReadAll(r.rest);
      assert ([r.result.payload] + more.messages)[1..] == more.messages;
    }
  }

  ghost predicate AllGo(p: Primitives, ch: Channel, ss: seq<Sending>) {
    forall i :: 0 <= i < |ss| ==> Goes(p, ch, ss[i])
  }

  function Ciphertexts(p: Primitives, ch: Channel, ss: seq<Sending>): seq<Bytes>
    requires AllGo(p, ch, ss)
  {
    if ss == [] then [] else [Ciphertext(p, ch, ss[0])] + Ciphertexts(p, ch, ss[1..])
  }

  lemma {:induction false} RawsArrive(p: Primitives, gunzip: Bytes -> Option<Bytes>, ch: Channel, ss: seq<Sending>, more: seq<Bytes>,
                                      end: Ending, fuel: nat)
    requires p.Lawful() && GoodChannel(ch) && AllGo(p, ch, ss)
    ensures FromRaws(p, gunzip, ch, Ciphertexts(p, ch, ss) + more, end, fuel)
            == Delivery(Arrivals(ss), Finished).Then(FromRaws(p, gunzip, ch, more, end, fuel))
  {
    hide Goes, Ciphertext, Opened, Dispatched, NormalMsg;
    var after := FromRaws(p, gunzip, ch, more, end, fuel);
    if ss == [] {
      assert Ciphertexts(p, ch, ss) + more == more;
      NothingMore(after);
    } else {
      var raws := Ciphertexts(p, ch, ss) + more;
      assert raws[0] == Ciphertext(p, ch, ss[0]) && raws[1..] == Ciphertexts(p, ch, ss[1..]) + more;
      OneOpens(p, gunzip, ch, ss[0], fuel);
      RawsArrive(p, gunzip, ch, ss[1..], more, end, fuel);
      ArrivalsCons(ss, after);
    }
  }

  /** The same over a WebSocket: if the binary frames before the first close carry
      the sealed messages, whatever other frames come between and after them and
      whatever follows on the stream, the read loop delivers exactly those
      messages, in order, and goes on with what follows unless a close came. */
  lemma EndToEndWss(p: Primitives, gunzip: Bytes -> Option<Bytes>, ch: Channel, ss: seq<Sending>, fs: seq<WebSocket.ServerFrame>,
                    tail: Bytes, fuel: nat)
    requires p.Lawful() && GoodChannel(ch) && AllGo(p, ch, ss) && WebSocket.AllFit(fs)
    requires WebSocket.Payloads(WebSocket.Open(fs), WebSocket.BINARY) == Ciphertexts(p, ch, ss)
    ensures Received(p, gunzip, Wss, ch, WebSocket.StreamBytes(fs) + tail, fuel)
            == Delivery(Arrivals(ss), Finished).Then(
                 if WebSocket.Closes(fs) then NOTHING else Received(p, gunzip, Wss, ch, tail, fuel))
  {
    hide Received, FromRaws, WebSocket.ReadAll, WebSocket.StreamBytes, WebSocket.Payloads, WebSocket.Open, WebSocket.Closes, Goes;
    var raws := Ciphertexts(p, ch, ss);
    ReceivedFrames(p, gunzip, ch, WebSocket.StreamBytes(fs) + tail, fuel);
    ReceivedFrames(p, gunzip, ch, tail, fuel);
    WebSocket.FramesThenTail(fs, tail);
    if WebSocket.Closes(fs) {
      assert raws + [] == raws;
      RawsArrive(p, gunzip, ch, ss, [], Finished, fuel);
      NoRaws(p, gunzip, ch, fuel);
    } else {
      var all := WebSocket.ReadAll(tail);
      WebSocket.OpenAll(fs);
      RawsArrive(p, gunzip, ch, ss, all.messages, if all.result.Panic? then Crashed else Finished, fuel);
    }
  }

  lemma NoRaws(p: Primitives, gunzip: Bytes -> Option<Bytes>, ch: Channel, fuel: nat)
    ensures FromRaws(p, gunzip, ch, [], Finished, fuel) == NOTHING
  {
  }

  /** And it answers exactly the pings before the first close, on the wire: one
      frame per ping with FIN and opcode 0xA, and the payload of the ping. */
  lemma PingsAnswered(p: Primitives, gunzip: Bytes -> Option<Bytes>, ch: Channel, ss: seq<Sending>, fs: seq<WebSocket.ServerFrame>,
                      c: MsgConn, k: nat, tail: Bytes, fuel: nat)
    requires p.Lawful() && GoodChannel(ch) && AllGo(p, ch, ss) && WebSocket.AllFit(fs) && c.WssConn?
    requires WebSocket.Payloads(WebSocket.Open(fs), WebSocket.BINARY) == Ciphertexts(p, ch, ss)
    ensures var pings := WebSocket.Payloads(WebSocket.Open(fs), 0x9);
            var answered := Pinged(p, gunzip, Wss, ch, WebSocket.StreamBytes(fs), fuel);
            && answered == pings
            && var r := WebSocket.RfcFrames(c.Replies(answered, k) + tail, |pings|);
               && r.Some? && |r.value.0| == |pings| && r.value.1 == tail
               && forall i :: 0 <= i < |pings| ==>
                    r.value.0[i] == WebSocket.RfcFrame(true, 0xA, Some(c.ws.masks(k + i)), pings[i])
  {
    hide Pinged, WebSocket.ReadAll, WebSocket.StreamBytes, WebSocket.Payloads, WebSocket.Open, WebSocket.RfcFrames, WebSocket.Pongs;
    WebSocket.ReadMsgConforms(fs, c.ws.masks, k, tail);
    AllPinged(p, gunzip, ch, ss, WebSocket.StreamBytes(fs), fuel);
  }

  lemma {:induction false} AllPinged(p: Primitives, gunzip: Bytes -> Option<Bytes>, ch: Channel, ss: seq<Sending>, stream: Bytes, fuel: nat)
    requires p.Lawful() && GoodChannel(ch) && AllGo(p, ch, ss)
    requires WebSocket.ReadAll(stream).messages == Ciphertexts(p, ch, ss)
    ensures Pinged(p, gunzip, Wss, ch, stream, fuel) == WebSocket.ReadAll(stream).pings
    decreases |stream|
  {
    hide Goes, Ciphertext, Opened, Dispatched, WebSocket.NextMsg, NormalMsg;
    var r := WebSocket.NextMsg(stream);
    if r.result.Message? {
      var all := WebSocket.ReadAll(stream).messages;
      assert all[0] == r.result.payload && all[1..] == WebSocket.ReadAll(r.rest).messages;
      assert Ciphertexts(p, ch, ss)[1..] == Ciphertexts(p, ch, ss[1..]);
      OneOpens(p, gunzip, ch, ss[0], fuel);
      AllPinged(p, gunzip, ch, ss[1..], r.rest, fuel);
    }
  }

  /** Sending one more message appends its bytes, as SendMsgProto does. */
  lemma {:induction false} SentStreamSnoc(p: Primitives, ch: Channel, ss: seq<Sending>, s: Sending)
    requires AllSendable(p, ch, ss) && Sendable(p, ch, s)
    ensures AllSendable(p, ch, ss + [s])
    ensures SentStream(p, ch, ss + [s]) == SentStream(p, ch, ss) + SentBytes(p, ch, s)
  {
    hide Sendable, SentBytes;
    if ss == [] {
      assert [s][1..] == [];
    } else {
      assert (ss + [s])[1..] == ss[1..] + [s];
      SentStreamSnoc(p, ch, ss[1..], s);
    }
  }
}
