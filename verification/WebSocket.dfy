/** internal/steam/cm/wss.go: RFC 6455 frames under the message stream. */
module WebSocket {
  import opened ByteSeq
  import opened Results
  import opened Wire
  import opened Frame

  const CONTINUATION := 0x0
  const TEXT := 0x1
  const BINARY := 0x2
  const CLOSE := 0x8
  const PING := 0x9
  const PONG := 0xA

  type Opcode = n: int | 0 <= n < 16
  type Mask = b: Bytes | |b| == 4 witness [0, 0, 0, 0]

  /** `b & 0x0f` */
  function LowNibble(b: Byte): Opcode {
    b % 16
  }

  lemma NibbleOf(opcode: Opcode, flag: Byte)
    requires flag in {0, 0x80}
    ensures LowNibble(flag + opcode) == opcode && Digit(flag + opcode) == opcode
  {
  }

  function Word16(b: Bytes): Uint64
    requires |b| == 2
  {
    PowersOf256();
    FromBigEndian(b)
  }

  function BigWord64(b: Bytes): Uint64
    requires |b| == 8
  {
    PowersOf256();
    FromBigEndian(b)
  }

  // ------------------------------------------------------------ client frames

  /** Section 5.3: byte i is combined with mask byte i modulo 4. */
  function Masked(data: Bytes, mask: Mask): (r: Bytes)
    ensures |r| == |data|
  {
    seq(|data|, i requires 0 <= i < |data| => Xor(data[i], mask[i % 4]))
  }

  /** Transformed octet i is octet i of the data, exclusive-or octet i modulo 4 of
      the masking key, bit by bit. */
  lemma MaskedBits(data: Bytes, mask: Mask, i: nat, bit: nat)
    requires i < |data| && bit < 8
    ensures Bit(Masked(data, mask)[i], bit) == (Bit(data[i], bit) + Bit(mask[i % 4], bit)) % 2
  {
    XorBit(data[i], mask[i % 4], 8, bit);
  }

  lemma MaskedTwice(data: Bytes, mask: Mask)
    ensures Masked(Masked(data, mask), mask) == data
  {
    forall i | 0 <= i < |data| ensures Masked(Masked(data, mask), mask)[i] == data[i] {
      XorInvolution(data[i], mask[i % 4]);
    }
  }

  /** The length field: seven bits, or 126 and two bytes, or 127 and eight. */
  function LengthBytes(n: nat, flag: Byte): (b: Bytes)
    requires flag in {0, 0x80}
    ensures |b| >= 1
  {
    if n <= 125 then [flag + n]
    else if n <= 65535 then [flag + 126] + BigEndian(n, 2)
    else [flag + 127] + BigEndian(n, 8)
  }

  /** What writeFrame puts on the wire: FIN set, masked. */
  function ClientFrame(opcode: Opcode, payload: Bytes, mask: Mask): Bytes {
    [0x80 + opcode] + LengthBytes(|payload|, 0x80) + mask + Masked(payload, mask)
  }

  method MaskPayload(payload: Bytes, mask: Mask) returns (masked: Bytes)
    ensures masked == Masked(payload, mask)
  {
    var n := |payload|;
    masked := seq(n, _ => 0);
    var i := 0;
    while i < n
      invariant 0 <= i <= n == |masked|
      invariant forall j :: 0 <= j < i ==> masked[j] == Xor(payload[j], mask[j % 4])
    {
      masked := masked[i := Xor(payload[i], mask[i % 4])];
      i := i + 1;
    }
  }

  method WriteFrame(rw: Sink, opcode: Opcode, payload: Bytes, mask: Mask)
    modifies rw
    ensures rw.out == old(rw.out) + ClientFrame(opcode, payload, mask)
  {
    hide BigEndian;
    var n := |payload|;
    var second: Byte := if n <= 125 then 0x80 + n else if n <= 65535 then 0x80 + 126 else 0x80 + 127;
    rw.Write([0x80 + opcode, second]);
    if n <= 125 {
    } else if n <= 65535 {
      rw.Write(BigEndian(n, 2));
    } else {
      rw.Write(BigEndian(n, 8));
    }
    ghost var head := old(rw.out) + [0x80 + opcode] + LengthBytes(n, 0x80);
    assert rw.out == head;
    hide LengthBytes;
    rw.Write(mask);
    var masked := MaskPayload(payload, mask);
    rw.Write(masked);
  }

  // ------------------------------------------------------------- section 5.2

  /** A frame as section 5.2 lays it out. */
  datatype RfcFrame = RfcFrame(fin: bool, opcode: Opcode, mask: Option<Mask>, payload: Bytes)
  datatype Length = Length(n: nat, size: nat)

  /** The payload length after its first seven bits; minimal as section 5.2
      requires ("the minimal number of bytes MUST be used"). */
  function RfcLength(seven: nat, s: Bytes): Option<Length> {
    if seven <= 125 then Some(Length(seven, 0))
    else if seven == 126 then
      if |s| < 2 || Word16(s[..2]) <= 125 then None else Some(Length(Word16(s[..2]), 2))
    else
      if |s| < 8 || BigWord64(s[..8]) <= 65535 || BigWord64(s[..8]) >= TWO_63 then None
      else Some(Length(BigWord64(s[..8]), 8))
  }

  /** An independent decoder of section 5.2, both directions: the frame at the
      front of s and how long it is. Reserved bits must be zero. */
  function RfcDecode(s: Bytes): (r: Option<(RfcFrame, nat)>)
    ensures r.Some? ==> r.value.1 <= |s|
  {
    if |s| < 2 || Digit(s[0]) >= 16 then None else
    match RfcLength(Digit(s[1]), s[2..])
    case None => None
    case Some(Length(n, size)) =>
      var masked := s[1] >= 128;
      var at := 2 + size + (if masked then 4 else 0);
      if |s| < at + n then None else
      var mask := if masked then Some(s[2 + size..2 + size + 4]) else None;
      var raw := s[at..at + n];
      Some((RfcFrame(s[0] >= 128, Digit(s[0]), mask, if masked then Masked(raw, mask.value) else raw), at + n))
  }

  lemma LengthForm(n: nat, flag: Byte)
    requires flag in {0, 0x80}
    ensures var l := LengthBytes(n, flag);
            && Digit(l[0]) == (if n <= 125 then n else if n <= 65535 then 126 else 127)
            && (l[0] >= 128 <==> flag == 0x80)
            && l[1..] == (if n <= 125 then [] else if n <= 65535 then BigEndian(n, 2) else BigEndian(n, 8))
  {
    hide BigEndian;
  }

  lemma LengthRead(n: nat, flag: Byte, tail: Bytes)
    requires n < TWO_63 && flag in {0, 0x80}
    ensures var l := LengthBytes(n, flag);
            && (l[0] >= 128 <==> flag == 0x80)
            && RfcLength(Digit(l[0]), l[1..] + tail) == Some(Length(n, |l| - 1))
  {
    PowersOf256();
    LengthForm(n, flag);
    if 125 < n <= 65535 { BigEndianInverse(n, 2); }
    if n > 65535 { BigEndianInverse(n, 8); }
    hide BigEndian, FromBigEndian, LengthBytes, Pow256;
    var l := LengthBytes(n, flag);
    if 125 < n <= 65535 {
      assert (l[1..] + tail)[..2] == BigEndian(n, 2);
    } else if n > 65535 {
      assert (l[1..] + tail)[..8] == BigEndian(n, 8);
    }
  }

  lemma FrameParts(first: Byte, l: Bytes, mask: Bytes, data: Bytes, tail: Bytes)
    requires |l| >= 1
    ensures var s, size := [first] + l + mask + data + tail, |l| - 1;
            && s[0] == first && s[1] == l[0]
            && s[2..] == l[1..] + (mask + data + tail)
            && s[2..][size..] == mask + data + tail
            && s[2 + size..2 + size + |mask|] == mask
            && s[2 + size + |mask|..2 + size + |mask| + |data|] == data
  {
    var s := [first] + l + mask + data + tail;
    assert s == [first, l[0]] + (l[1..] + (mask + data + tail));
  }

  lemma DecodeMasked(s: Bytes, n: nat, size: nat)
    requires |s| >= 2 && Digit(s[0]) < 16 && s[1] >= 128
    requires RfcLength(Digit(s[1]), s[2..]) == Some(Length(n, size)) && |s| >= 2 + size + 4 + n
    ensures var mask := s[2 + size..2 + size + 4];
            RfcDecode(s) == Some((RfcFrame(s[0] >= 128, Digit(s[0]), Some(mask), Masked(s[2 + size + 4..2 + size + 4 + n], mask)),
                                  2 + size + 4 + n))
  {
    hide RfcLength, Masked, Digit;
  }

  /** Every frame the client writes is read back by the RFC decoder: opcode,
      mask and payload are recovered, with the minimal length form. */
  lemma WriteFrameConforms(opcode: Opcode, payload: Bytes, mask: Mask, tail: Bytes)
    requires |payload| < TWO_63
    ensures var f := ClientFrame(opcode, payload, mask);
            RfcDecode(f + tail) == Some((RfcFrame(true, opcode, Some(mask), payload), |f|))
  {
    var l := LengthBytes(|payload|, 0x80);
    var m := Masked(payload, mask);
    var s := ClientFrame(opcode, payload, mask) + tail;
    var size, first := |l| - 1, 0x80 + opcode;
    LengthRead(|payload|, 0x80, mask + m + tail);
    MaskedTwice(payload, mask);
    NibbleOf(opcode, 0x80);
    assert s == [first] + l + mask + m + tail;
    FrameParts(first, l, mask, m, tail);
    hide RfcDecode, LengthBytes, RfcLength, Masked, LowNibble, Digit;
    assert |ClientFrame(opcode, payload, mask)| == 1 + |l| + 4 + |m|;
    hide ClientFrame;
    DecodeMasked(s, |payload|, size);
  }

  /** The n frames at the front of s, one after the other, and what follows. */
  function RfcFrames(s: Bytes, n: nat): Option<(seq<RfcFrame>, Bytes)> {
    if n == 0 then Some(([], s)) else
    match RfcDecode(s)
    case None => None
    case Some((f, size)) =>
      match RfcFrames(s[size..], n - 1)
      case None => None
      case Some((fs, rest)) => Some(([f] + fs, rest))
  }

  lemma FrameThenFrames(opcode: Opcode, payload: Bytes, mask: Mask, more: Bytes, n: nat)
    requires |payload| < TWO_63
    ensures RfcFrames(ClientFrame(opcode, payload, mask) + more, n + 1)
            == match RfcFrames(more, n)
               case None => None
               case Some((fs, rest)) => Some(([RfcFrame(true, opcode, Some(mask), payload)] + fs, rest))
  {
    WriteFrameConforms(opcode, payload, mask, more);
    hide ClientFrame, RfcDecode;
    var f := ClientFrame(opcode, payload, mask);
    assert (f + more)[|f|..] == more;
  }

  /** Frames written one by one, outs being the bytes before the first and after
      each, are read back one by one, whatever follows. */
  lemma {:induction false} WrittenFrames(opcode: Opcode, xs: seq<Bytes>, ms: seq<Mask>, outs: seq<Bytes>, tail: Bytes)
    requires |ms| == |xs| && |outs| == |xs| + 1 && outs[0] == []
    requires forall i :: 0 <= i < |xs| ==> |xs[i]| < TWO_63 && outs[i + 1] == outs[i] + ClientFrame(opcode, xs[i], ms[i])
    ensures var r := RfcFrames(outs[|xs|] + tail, |xs|);
            && r.Some? && |r.value.0| == |xs| && r.value.1 == tail
            && forall i :: 0 <= i < |xs| ==> r.value.0[i] == RfcFrame(true, opcode, Some(ms[i]), xs[i])
  {
    hide ClientFrame, RfcDecode;
    if xs == [] {
      assert outs[0] + tail == tail;
    } else {
      var n := |xs| - 1;
      var f := ClientFrame(opcode, xs[n], ms[n]);
      assert outs[n + 1] + tail == outs[n] + (f + tail);
      WrittenFrames(opcode, xs[..n], ms[..n], outs[..|xs|], f + tail);
      FrameThenFrames(opcode, xs[n], ms[n], tail, 0);
      FramesAppend(outs[n] + (f + tail), n, 1);
    }
  }

  /** Reading n frames and then m more. */
  lemma {:induction false} FramesAppend(s: Bytes, n: nat, m: nat)
    requires RfcFrames(s, n).Some? && RfcFrames(RfcFrames(s, n).value.1, m).Some?
    ensures var (fs, more) := RfcFrames(s, n).value;
            var (gs, rest) := RfcFrames(more, m).value;
            RfcFrames(s, n + m) == Some((fs + gs, rest))
  {
    hide RfcDecode;
    if n == 0 {
      assert [] + RfcFrames(s, m).value.0 == RfcFrames(s, m).value.0;
    } else {
      var (f, size) := RfcDecode(s).value;
      FramesAppend(s[size..], n - 1, m);
      var (fs, more) := RfcFrames(s[size..], n - 1).value;
      var gs := RfcFrames(more, m).value.0;
      assert [f] + (fs + gs) == [f] + fs + gs;
    }
  }

  // ------------------------------------------------------------ server frames

  datatype HeaderRead = Header(opcode: Opcode, length: Uint64) | NoHeader(reason: Incoming)

  /** readFrame: the header, and the stream after it. FIN, the reserved bits and
      the length form are not looked at; a masked frame is refused. */
  function HeaderAt(s: Bytes): (HeaderRead, Bytes) {
    if |s| < 2 then (NoHeader(Missing(FullOf(s, 2))), []) else
    var opcode, rest := LowNibble(s[0]), s[2..];
    if s[1] >= 128 then (NoHeader(Refused), rest)
    else if s[1] == 126 then
      if |rest| < 2 then (NoHeader(Missing(FullOf(rest, 2))), []) else (Header(opcode, Word16(rest[..2])), rest[2..])
    else if s[1] == 127 then
      if |rest| < 8 then (NoHeader(Missing(FullOf(rest, 8))), []) else (Header(opcode, BigWord64(rest[..8])), rest[8..])
    else (Header(opcode, s[1]), rest)
  }

  method ReadFrame(br: Stream) returns (f: HeaderRead)
    modifies br
    ensures (f, br.rest) == HeaderAt(old(br.rest))
  {
    hide FromBigEndian;
    var head := br.ReadFull(2);
    if !head.Full? { return NoHeader(Missing(head)); }
    var hdr := head.data;
    var opcode := LowNibble(hdr[0]);
    if hdr[1] >= 128 { return NoHeader(Refused); }
    var length: Uint64 := hdr[1];
    if length == 126 {
      var ext := br.ReadFull(2);
      if !ext.Full? { return NoHeader(Missing(ext)); }
      length := Word16(ext.data);
    } else if length == 127 {
      var ext := br.ReadFull(8);
      if !ext.Full? { return NoHeader(Missing(ext)); }
      length := BigWord64(ext.data);
    }
    return Header(opcode, length);
  }

  /** What the header says is not checked further: FIN and the reserved bits are
      ignored, each length form is taken with any value, and a masked frame is
      refused. */
  lemma HeaderForms(first: Byte, n: Uint64, rest: Bytes)
    ensures n < 126 ==> HeaderAt([first, n] + rest) == (Header(first % 16, n), rest)
    ensures n < 0x1_0000 ==> HeaderAt([first, 126] + BigEndian(n, 2) + rest) == (Header(first % 16, n), rest)
    ensures HeaderAt([first, 127] + BigEndian(n, 8) + rest) == (Header(first % 16, n), rest)
    ensures n < 128 ==> HeaderAt([first, 0x80 + n] + rest).0 == NoHeader(Refused)
  {
    PowersOf256();
    BigEndianInverse(n, 8);
    ThreeParts([first, 127], BigEndian(n, 8), rest);
    if n < 0x1_0000 {
      BigEndianInverse(n, 2);
      ThreeParts([first, 126], BigEndian(n, 2), rest);
    }
    hide BigEndian, FromBigEndian, Pow256;
    if n < 128 {
      TwoParts([first, n], rest);
      TwoParts([first, 0x80 + n], rest);
    }
  }

  lemma TwoParts(a: Bytes, c: Bytes)
    requires |a| == 2
    ensures var s := a + c; s[0] == a[0] && s[1] == a[1] && s[2..] == c
  {
  }

  lemma ThreeParts(a: Bytes, b: Bytes, c: Bytes)
    requires |a| == 2
    ensures var s := a + b + c; s[0] == a[0] && s[1] == a[1] && s[2..][..|b|] == b && s[2..][|b|..] == c && |s[2..]| >= |b|
  {
    assert (a + b + c)[2..] == b + c;
  }

  /** One call of ReadMsg: its result, the stream it leaves, and the payloads of
      the pings it answered. After a close, and whenever the stream ends where
      bytes are discarded, the result is io.EOF. A length of 2^63 or more is a
      negative int: make panics on it, and io.CopyN discards nothing and reports
      no error. */
  datatype MsgRead = MsgRead(result: Incoming, rest: Bytes, pings: seq<Bytes>)

  function NextMsg(s: Bytes): (r: MsgRead)
    ensures |r.rest| <= |s|
    ensures r.result.Message? ==> |r.rest| < |s|
    decreases |s|
  {
    var (h, rest) := HeaderAt(s);
    if h.NoHeader? then MsgRead(h.reason, rest, []) else
    var Header(opcode, n) := h;
    if opcode == BINARY then
      if n >= TWO_63 then MsgRead(Panic, rest, [])
      else if n > |rest| then MsgRead(Missing(FullOf(rest, n)), [], [])
      else MsgRead(Message(rest[..n]), rest[n..], [])
    else if opcode == PING then
      if n >= TWO_63 then MsgRead(Panic, rest, [])
      else if n > |rest| then MsgRead(Missing(FullOf(rest, n)), [], [])
      else var more := NextMsg(rest[n..]); more.(pings := [rest[..n]] + more.pings)
    else
      if n >= TWO_63 then if opcode == CLOSE then MsgRead(EndOfFile, rest, []) else NextMsg(rest)
      else if n > |rest| then MsgRead(EndOfFile, [], [])
      else if opcode == CLOSE then MsgRead(EndOfFile, rest[n..], [])
      else NextMsg(rest[n..])
  }

  /** A length of 2^63 or more is negative as an int: a panic for a binary frame
      and a ping, the clean end for a close, and nothing is skipped otherwise. */
  lemma NegativeLength(first: Byte, n: Uint64, rest: Bytes)
    requires n >= 0x8000_0000_0000_0000
    ensures var s, opcode := [first, 127] + BigEndian(n, 8) + rest, first % 16;
            NextMsg(s) == if opcode in {0x2, 0x9} then MsgRead(Panic, rest, [])
                          else if opcode == 0x8 then MsgRead(EndOfFile, rest, []) else NextMsg(rest)
  {
    HeaderForms(first, n, rest);
    hide HeaderAt, BigEndian;
  }

  /** The pong frames that answer pings, the k-th masked with the k-th mask. */
  function Pongs(pings: seq<Bytes>, masks: nat -> Mask, k: nat): Bytes {
    if pings == [] then []
    else ClientFrame(PONG, pings[0], masks(k)) + Pongs(pings[1..], masks, k + 1)
  }

  /** Section 5.5.3: the pongs are frames with FIN and opcode 0xA, one per ping, in
      order, and each carries the application data of its ping. */
  lemma {:induction false} PongsConform(pings: seq<Bytes>, masks: nat -> Mask, k: nat, tail: Bytes)
    requires forall i :: 0 <= i < |pings| ==> |pings[i]| < TWO_63
    ensures var r := RfcFrames(Pongs(pings, masks, k) + tail, |pings|);
            && r.Some? && |r.value.0| == |pings| && r.value.1 == tail
            && forall i :: 0 <= i < |pings| ==> r.value.0[i] == RfcFrame(true, 0xA, Some(masks(k + i)), pings[i])
  {
    hide ClientFrame, RfcDecode;
    if pings == [] {
      assert Pongs(pings, masks, k) + tail == tail;
    } else {
      var f, more := ClientFrame(PONG, pings[0], masks(k)), Pongs(pings[1..], masks, k + 1) + tail;
      assert Pongs(pings, masks, k) + tail == f + more;
      FrameThenFrames(PONG, pings[0], masks(k), more, |pings| - 1);
      PongsConform(pings[1..], masks, k + 1, tail);
      hide RfcFrames;
      var r := RfcFrames(f + more, |pings|).value.0;
      forall i | 0 < i < |pings| ensures r[i] == RfcFrame(true, 0xA, Some(masks(k + i)), pings[i]) {
        assert pings[i] == pings[1..][i - 1] && k + i == k + 1 + (i - 1);
      }
    }
  }

  class Conn {
    const rw: Sink
    const br: Stream
    const masks: nat -> Mask // rand.Read, call by call
    var written: nat

    constructor (rw: Sink, br: Stream, masks: nat -> Mask)
      ensures this.rw == rw && this.br == br && this.masks == masks && written == 0
    {
      this.rw, this.br, this.masks, written := rw, br, masks, 0;
    }

    method WriteMsg(payload: Bytes)
      modifies rw, this`written
      ensures rw.out == old(rw.out) + ClientFrame(BINARY, payload, masks(old(written)))
      ensures written == old(written) + 1
    {
      WriteFrame(rw, BINARY, payload, masks(written));
      written := written + 1;
    }

    /** Close writes a close frame without status or reason. */
    method Close()
      modifies rw, this`written
      ensures rw.out == old(rw.out) + ClientFrame(CLOSE, [], masks(old(written)))
      ensures written == old(written) + 1
    {
      WriteFrame(rw, CLOSE, [], masks(written));
      written := written + 1;
    }

    /** io.CopyN(io.Discard, br, n) with n an int64. */
    method Discard(n: Uint64) returns (ok: bool)
      modifies br
      ensures n >= TWO_63 ==> ok && br.rest == old(br.rest)
      ensures n < TWO_63 ==> (ok <==> n <= |old(br.rest)|)
      ensures n < TWO_63 ==> br.rest == if ok then old(br.rest)[n..] else []
    {
      if n >= TWO_63 { return true; }
      var skipped := br.ReadFull(n);
      return skipped.Full?;
    }

    method ReadMsg() returns (result: Incoming)
      modifies rw, br, this`written
      ensures var r := NextMsg(old(br.rest));
              && result == r.result && br.rest == r.rest
              && rw.out == old(rw.out) + Pongs(r.pings, masks, old(written))
              && written == old(written) + |r.pings|
    {
      hide HeaderAt, ClientFrame;
      ghost var pings: seq<Bytes> := [];
      while true
        invariant |br.rest| <= |old(br.rest)|
        invariant NextMsg(old(br.rest)) == Answered(pings, NextMsg(br.rest))
        invariant rw.out == old(rw.out) + Pongs(pings, masks, old(written))
        invariant written == old(written) + |pings|
        decreases |br.rest|
      {
        ghost var s := br.rest;
        HeaderShrinks(s);
        var f := ReadFrame(br);
        AnsweredNone(pings, NextMsg(s));
        if f.NoHeader? { return f.reason; }
        ghost var rest := br.rest;
        var opcode, n := f.opcode, f.length;
        if opcode == BINARY {
          if n >= TWO_63 { return Panic; }
          var buf := br.ReadFull(n);
          if !buf.Full? { return Missing(buf); }
          return Message(buf.data);
        } else if opcode == PING {
          if n >= TWO_63 { return Panic; }
          var buf := br.ReadFull(n);
          if !buf.Full? { return Missing(buf); }
          var payload := buf.data;
          OnePong(pings, payload, masks, old(written));
          AnsweredStep(pings, payload, NextMsg(br.rest));
          WriteFrame(rw, PONG, payload, masks(written));
          written := written + 1;
          pings := pings + [payload];
        } else if opcode == CLOSE {
          var _ := Discard(n);
          return EndOfFile;
        } else {
          var ok := Discard(n);
          if !ok { return EndOfFile; }
        }
      }
    }
  }

  function Answered(pings: seq<Bytes>, r: MsgRead): MsgRead {
    r.(pings := pings + r.pings)
  }

  lemma OnePong(pings: seq<Bytes>, payload: Bytes, masks: nat -> Mask, k: nat)
    ensures Pongs(pings + [payload], masks, k) == Pongs(pings, masks, k) + ClientFrame(PONG, payload, masks(k + |pings|))
  {
    hide ClientFrame;
    PongsAppend(pings, [payload], masks, k);
    var f := ClientFrame(PONG, payload, masks(k + |pings|));
    assert [payload][1..] == [] && Pongs([], masks, k + |pings| + 1) == [];
    assert Pongs([payload], masks, k + |pings|) == f + [] == f;
  }

  lemma AnsweredNone(pings: seq<Bytes>, r: MsgRead)
    ensures r.pings == [] ==> Answered(pings, r).pings == pings
  {
  }

  lemma AnsweredStep(pings: seq<Bytes>, p: Bytes, r: MsgRead)
    ensures Answered(pings, r.(pings := [p] + r.pings)) == Answered(pings + [p], r)
  {
    assert pings + ([p] + r.pings) == pings + [p] + r.pings;
  }

  lemma {:induction false} PongsAppend(a: seq<Bytes>, b: seq<Bytes>, masks: nat -> Mask, k: nat)
    ensures Pongs(a + b, masks, k) == Pongs(a, masks, k) + Pongs(b, masks, k + |a|)
  {
    hide ClientFrame;
    if a == [] {
      assert a + b == b;
    } else {
      assert (a + b)[1..] == a[1..] + b;
      PongsAppend(a[1..], b, masks, k + 1);
    }
  }

  lemma HeaderShrinks(s: Bytes)
    ensures |HeaderAt(s).1| <= |s| && (HeaderAt(s).0.Header? ==> |HeaderAt(s).1| < |s|)
  {
  }

  // ----------------------------------------------------- streams of frames

  datatype ServerFrame = ServerFrame(fin: bool, opcode: Opcode, payload: Bytes)

  /** An unmasked frame in the minimal form of section 5.2. */
  function FrameBytes(f: ServerFrame): Bytes {
    [(if f.fin then 0x80 else 0) + f.opcode] + LengthBytes(|f.payload|, 0) + f.payload
  }

  function StreamBytes(fs: seq<ServerFrame>): Bytes {
    if fs == [] then [] else FrameBytes(fs[0]) + StreamBytes(fs[1..])
  }

  predicate AllFit(fs: seq<ServerFrame>) {
    forall i :: 0 <= i < |fs| ==> |fs[i].payload| < TWO_63
  }

  lemma FrameBytesParts(f: ServerFrame, tail: Bytes)
    ensures var s, l := FrameBytes(f) + tail, LengthBytes(|f.payload|, 0);
            && |FrameBytes(f)| == 1 + |l| + |f.payload|
            && s[0] == (if f.fin then 0x80 else 0) + f.opcode && s[1] == l[0]
            && s[2..] == l[1..] + (f.payload + tail)
            && s[2..][|l| - 1..] == f.payload + tail
            && s[1 + |l|..1 + |l| + |f.payload|] == f.payload
  {
    hide LengthBytes;
    var l := LengthBytes(|f.payload|, 0);
    var first := (if f.fin then 0x80 else 0) + f.opcode;
    assert FrameBytes(f) + tail == [first] + l + [] + f.payload + tail;
    FrameParts(first, l, [], f.payload, tail);
    assert [] + f.payload + tail == f.payload + tail;
  }

  /** Section 5.2 agrees that FrameBytes is the frame. */
  lemma FrameBytesConforms(f: ServerFrame, tail: Bytes)
    requires |f.payload| < TWO_63
    ensures RfcDecode(FrameBytes(f) + tail) == Some((RfcFrame(f.fin, f.opcode, None, f.payload), |FrameBytes(f)|))
  {
    hide LengthBytes, RfcLength, LowNibble, Digit, FrameBytes;
    LengthRead(|f.payload|, 0, f.payload + tail);
    NibbleOf(f.opcode, if f.fin then 0x80 else 0);
    FrameBytesParts(f, tail);
  }

  /** readFrame's own length switch on the minimal form. */
  lemma LengthSeen(n: nat, l: Bytes, tail: Bytes)
    requires n < TWO_63 && l == LengthBytes(n, 0)
    ensures l[0] < 128
    ensures l[0] == 126 ==> |l| == 3 && Word16((l[1..] + tail)[..2]) == n
    ensures l[0] == 127 ==> |l| == 9 && BigWord64((l[1..] + tail)[..8]) == n
    ensures l[0] < 126 ==> |l| == 1 && l[0] == n
  {
    PowersOf256();
    if 125 < n <= 65535 { BigEndianInverse(n, 2); }
    if n > 65535 { BigEndianInverse(n, 8); }
    LengthForm(n, 0);
    hide BigEndian, FromBigEndian, Pow256;
    if 125 < n <= 65535 {
      assert (l[1..] + tail)[..2] == BigEndian(n, 2);
    } else if n > 65535 {
      assert (l[1..] + tail)[..8] == BigEndian(n, 8);
    }
  }

  /** The header is read alike whatever bytes follow it. */
  lemma HeaderOfCut(f: ServerFrame, part: Bytes)
    requires |f.payload| < TWO_63
    ensures HeaderAt([(if f.fin then 0x80 else 0) + f.opcode] + LengthBytes(|f.payload|, 0) + part)
            == (Header(f.opcode, |f.payload|), part)
  {
    var l, first := LengthBytes(|f.payload|, 0), (if f.fin then 0x80 else 0) + f.opcode;
    NibbleOf(f.opcode, if f.fin then 0x80 else 0);
    LengthSeen(|f.payload|, l, part);
    FrameParts(first, l, [], [], part);
    assert [first] + l + [] + [] + part == [first] + l + part && [] + [] + part == part;
    hide LengthBytes, LowNibble, Digit, FromBigEndian;
  }

  lemma HeaderOfFrame(f: ServerFrame, tail: Bytes)
    requires |f.payload| < TWO_63
    ensures HeaderAt(FrameBytes(f) + tail) == (Header(f.opcode, |f.payload|), f.payload + tail)
  {
    hide LengthBytes, HeaderAt;
    HeaderOfCut(f, f.payload + tail);
    var first := (if f.fin then 0x80 else 0) + f.opcode;
    assert FrameBytes(f) + tail == [first] + LengthBytes(|f.payload|, 0) + (f.payload + tail);
  }

  /** Everything repeated ReadMsg calls return until the first that is no message,
      with the pings answered on the way. */
  datatype Session = Session(messages: seq<Bytes>, pings: seq<Bytes>, result: Incoming)

  function ReadAll(s: Bytes): (all: Session)
    ensures !all.result.Message?
    decreases |s|
  {
    var r := NextMsg(s);
    if !r.result.Message? then Session([], r.pings, r.result)
    else
      var more := ReadAll(r.rest);
      Session([r.result.payload] + more.messages, r.pings + more.pings, more.result)
  }

  /** The frames before the first close. */
  function Open(fs: seq<ServerFrame>): seq<ServerFrame> {
    if fs == [] || fs[0].opcode == CLOSE then [] else [fs[0]] + Open(fs[1..])
  }

  function Payloads(fs: seq<ServerFrame>, opcode: Opcode): seq<Bytes> {
    if fs == [] then []
    else if fs[0].opcode == opcode then [fs[0].payload] + Payloads(fs[1..], opcode)
    else Payloads(fs[1..], opcode)
  }

  predicate Closes(fs: seq<ServerFrame>) {
    exists i :: 0 <= i < |fs| && fs[i].opcode == CLOSE
  }

  lemma NextOfFrame(f: ServerFrame, rest: Bytes)
    requires |f.payload| < TWO_63
    ensures NextMsg(FrameBytes(f) + rest)
            == if f.opcode == BINARY then MsgRead(Message(f.payload), rest, [])
               else if f.opcode == PING then Answered([f.payload], NextMsg(rest))
               else if f.opcode == CLOSE then MsgRead(EndOfFile, rest, [])
               else NextMsg(rest)
  {
    HeaderOfFrame(f, rest);
    hide FrameBytes, HeaderAt;
    assert (f.payload + rest)[..|f.payload|] == f.payload && (f.payload + rest)[|f.payload|..] == rest;
  }

  lemma AllOfPing(s: Bytes, payload: Bytes, rest: Bytes)
    requires NextMsg(s) == Answered([payload], NextMsg(rest))
    ensures var more := ReadAll(rest); ReadAll(s) == more.(pings := [payload] + more.pings)
  {
    hide NextMsg;
    var r := NextMsg(rest);
    if r.result.Message? {
      var more := ReadAll(r.rest);
      assert [payload] + r.pings + more.pings == [payload] + (r.pings + more.pings);
    }
  }

  lemma AllOfFrame(f: ServerFrame, rest: Bytes)
    requires |f.payload| < TWO_63
    ensures var more := ReadAll(rest);
            ReadAll(FrameBytes(f) + rest)
            == if f.opcode == BINARY then more.(messages := [f.payload] + more.messages)
               else if f.opcode == PING then more.(pings := [f.payload] + more.pings)
               else if f.opcode == CLOSE then Session([], [], EndOfFile)
               else more
  {
    NextOfFrame(f, rest);
    if f.opcode == PING { AllOfPing(FrameBytes(f) + rest, f.payload, rest); }
    hide NextMsg, FrameBytes;
    if f.opcode == BINARY { assert [] + ReadAll(rest).pings == ReadAll(rest).pings; }
  }

  lemma ClosesTail(fs: seq<ServerFrame>)
    requires fs != []
    ensures Closes(fs) <==> fs[0].opcode == CLOSE || Closes(fs[1..])
  {
    if Closes(fs) && fs[0].opcode != CLOSE {
      var i :| 0 <= i < |fs| && fs[i].opcode == CLOSE;
      assert fs[1..][i - 1].opcode == CLOSE;
    }
    if Closes(fs[1..]) {
      var i :| 0 <= i < |fs| - 1 && fs[1..][i].opcode == CLOSE;
      assert fs[i + 1].opcode == CLOSE;
    }
  }

  /** What follows a close is not read. */
  function Before(fs: seq<ServerFrame>, all: Session): Session {
    if Closes(fs) then Session(Payloads(Open(fs), BINARY), Payloads(Open(fs), PING), EndOfFile)
    else Session(Payloads(fs, BINARY) + all.messages, Payloads(fs, PING) + all.pings, all.result)
  }

  lemma {:induction false} OpenAll(fs: seq<ServerFrame>)
    requires !Closes(fs)
    ensures Open(fs) == fs
  {
    if fs != [] {
      ClosesTail(fs);
      OpenAll(fs[1..]);
    }
  }

  /** Complete unmasked frames, whatever comes after them. */
  lemma {:induction false} FramesThenTail(fs: seq<ServerFrame>, tail: Bytes)
    requires AllFit(fs)
    ensures ReadAll(StreamBytes(fs) + tail) == Before(fs, ReadAll(tail))
    decreases |fs|
  {
    if fs == [] {
      assert StreamBytes(fs) + tail == tail;
      var all := ReadAll(tail);
      assert [] + all.messages == all.messages && [] + all.pings == all.pings;
      assert !Closes(fs);
    } else {
      var rest := StreamBytes(fs[1..]) + tail;
      assert StreamBytes(fs) + tail == FrameBytes(fs[0]) + rest;
      AllOfFrame(fs[0], rest);
      FramesThenTail(fs[1..], tail);
      ClosesTail(fs);
      hide FrameBytes, ReadAll, Closes;
      BeforeCons(fs, ReadAll(tail));
    }
  }

  lemma BeforeCons(fs: seq<ServerFrame>, all: Session)
    requires fs != [] && (Closes(fs) <==> fs[0].opcode == CLOSE || Closes(fs[1..]))
    ensures var f, more := fs[0], Before(fs[1..], all);
            Before(fs, all)
            == if f.opcode == BINARY then more.(messages := [f.payload] + more.messages)
               else if f.opcode == PING then more.(pings := [f.payload] + more.pings)
               else if f.opcode == CLOSE then Session([], [], EndOfFile)
               else more
  {
    hide Closes;
    var f, rest := fs[0], fs[1..];
    assert Open(fs) == if f.opcode == CLOSE then [] else [f] + Open(rest);
    assert ([f] + Open(rest))[1..] == Open(rest);
    assert [f.payload] + Payloads(rest, BINARY) + all.messages == [f.payload] + (Payloads(rest, BINARY) + all.messages);
    assert [f.payload] + Payloads(rest, PING) + all.pings == [f.payload] + (Payloads(rest, PING) + all.pings);
  }

  lemma CompleteFrames(fs: seq<ServerFrame>)
    requires AllFit(fs)
    ensures ReadAll(StreamBytes(fs)) == Session(Payloads(Open(fs), BINARY), Payloads(Open(fs), PING), EndOfFile)
  {
    FramesThenTail(fs, []);
    assert StreamBytes(fs) + [] == StreamBytes(fs);
    assert ReadAll([]) == Session([], [], EndOfFile);
    if !Closes(fs) { OpenAll(fs); }
    hide ReadAll, StreamBytes;
  }

  /** On every stream of complete unmasked frames, repeated ReadMsg returns
      exactly the binary payloads up to the first close and ends with io.EOF,
      close or no close; and the frames that answer are one pong per ping before
      it, in order and with its payload. */
  lemma ReadMsgConforms(fs: seq<ServerFrame>, masks: nat -> Mask, k: nat, tail: Bytes)
    requires AllFit(fs)
    ensures var all, pings := ReadAll(StreamBytes(fs)), Payloads(Open(fs), 0x9);
            && all.messages == Payloads(Open(fs), 0x2) && all.pings == pings && all.result == EndOfFile
            && var r := RfcFrames(Pongs(all.pings, masks, k) + tail, |pings|);
               && r.Some? && |r.value.0| == |pings| && r.value.1 == tail
               && forall i :: 0 <= i < |pings| ==> r.value.0[i] == RfcFrame(true, 0xA, Some(masks(k + i)), pings[i])
  {
    hide ReadAll, StreamBytes, Open, Payloads, Pongs, RfcFrames;
    CompleteFrames(fs);
    OpenFits(fs);
    PayloadsFit(Open(fs), PING);
    PongsConform(Payloads(Open(fs), PING), masks, k, tail);
  }

  lemma {:induction false} OpenFits(fs: seq<ServerFrame>)
    requires AllFit(fs)
    ensures AllFit(Open(fs))
  {
    if fs != [] { OpenFits(fs[1..]); }
  }

  lemma {:induction false} PayloadsFit(fs: seq<ServerFrame>, opcode: Opcode)
    requires AllFit(fs)
    ensures forall i :: 0 <= i < |Payloads(fs, opcode)| ==> |Payloads(fs, opcode)[i]| < TWO_63
  {
    if fs != [] { PayloadsFit(fs[1..], opcode); }
  }

  // ----------------------------------------------------------- cut streams

  function HeaderSize(f: ServerFrame): (n: nat)
    ensures n >= 2
  {
    LengthSize(|f.payload|);
    1 + |LengthBytes(|f.payload|, 0)|
  }

  lemma LengthSize(n: nat)
    ensures |LengthBytes(n, 0)| == if n <= 125 then 1 else if n <= 65535 then 3 else 9
  {
    hide BigEndian;
  }

  /** The cut is inside something io.ReadFull is asked for: the first two bytes,
      the extended length, or a payload that is not discarded. */
  predicate CutInside(f: ServerFrame, k: nat) {
    k == 1 || 2 < k < HeaderSize(f) || (k > HeaderSize(f) && f.opcode in {BINARY, PING})
  }

  lemma HeaderBytes(f: ServerFrame, k: nat)
    requires |f.payload| < TWO_63 && HeaderSize(f) <= k <= |FrameBytes(f)|
    ensures HeaderAt(FrameBytes(f)[..k]) == (Header(f.opcode, |f.payload|), f.payload[..k - HeaderSize(f)])
  {
    HeaderOfCut(f, f.payload[..k - HeaderSize(f)]);
    FrameBytesParts(f, []);
    hide HeaderAt, LengthBytes;
    var part := f.payload[..k - HeaderSize(f)];
    assert FrameBytes(f)[..k] == [(if f.fin then 0x80 else 0) + f.opcode] + LengthBytes(|f.payload|, 0) + part;
  }

  lemma CutHeader(f: ServerFrame, k: nat)
    requires |f.payload| < TWO_63 && k < HeaderSize(f)
    ensures k <= |FrameBytes(f)|
    ensures HeaderAt(FrameBytes(f)[..k]).0 == NoHeader(if k == 1 || k > 2 then CutShort else EndOfFile)
  {
    LengthForm(|f.payload|, 0);
    LengthSize(|f.payload|);
    FrameBytesParts(f, []);
    hide LengthBytes, LowNibble, Digit, FromBigEndian, FrameBytes;
    var s := FrameBytes(f)[..k];
    assert FrameBytes(f) + [] == FrameBytes(f);
    if k >= 2 {
      assert s[1] == FrameBytes(f)[1] && |s[2..]| == k - 2;
    }
  }

  lemma CutFrame(f: ServerFrame, k: nat)
    requires |f.payload| < TWO_63 && k < |FrameBytes(f)|
    ensures ReadAll(FrameBytes(f)[..k]) == Session([], [], if CutInside(f, k) then CutShort else EndOfFile)
  {
    hide HeaderAt, FrameBytes, HeaderSize;
    var s := FrameBytes(f)[..k];
    if k < HeaderSize(f) {
      CutHeader(f, k);
    } else {
      HeaderBytes(f, k);
      FrameSize(f);
    }
  }

  lemma FrameSize(f: ServerFrame)
    ensures |FrameBytes(f)| == HeaderSize(f) + |f.payload|
  {
    hide LengthBytes;
  }

  /** A stream cut inside frame f, after complete frames: the messages and pongs
      are those of the complete frames, and the cut is noticed, as
      io.ErrUnexpectedEOF, if and only if no close came before it and it is inside
      the first two bytes, the extended length, or the payload of a binary frame
      or a ping. Anywhere else it is taken for a clean end. */
  lemma CutStream(fs: seq<ServerFrame>, f: ServerFrame, k: nat)
    requires AllFit(fs) && |f.payload| < TWO_63 && k < |FrameBytes(f)|
    ensures var all := ReadAll(StreamBytes(fs) + FrameBytes(f)[..k]);
            && all.messages == Payloads(Open(fs), BINARY)
            && all.pings == Payloads(Open(fs), PING)
            && all.result == if !Closes(fs) && CutInside(f, k) then CutShort else EndOfFile
  {
    FramesThenTail(fs, FrameBytes(f)[..k]);
    CutFrame(f, k);
    if !Closes(fs) { OpenAll(fs); }
    hide ReadAll, StreamBytes, FrameBytes, CutInside;
  }

  /** Every cut of a stream of complete frames is of that form. */
  lemma {:induction false} CutIsInAFrame(fs: seq<ServerFrame>, n: nat) returns (i: nat, k: nat)
    requires n < |StreamBytes(fs)|
    ensures i < |fs| && k < |FrameBytes(fs[i])|
    ensures StreamBytes(fs)[..n] == StreamBytes(fs[..i]) + FrameBytes(fs[i])[..k]
    decreases |fs|
  {
    hide FrameBytes;
    var size := |FrameBytes(fs[0])|;
    if n < size {
      i, k := 0, n;
      assert fs[..0] == [] && StreamBytes(fs)[..n] == FrameBytes(fs[0])[..n];
    } else {
      var j;
      j, k := CutIsInAFrame(fs[1..], n - size);
      i := j + 1;
      assert fs[..i][1..] == fs[1..][..j] && fs[..i][0] == fs[0];
      assert StreamBytes(fs)[..n] == FrameBytes(fs[0]) + StreamBytes(fs[1..])[..n - size];
      var a, b, c := FrameBytes(fs[0]), StreamBytes(fs[1..][..j]), FrameBytes(fs[i])[..k];
      assert a + (b + c) == a + b + c;
    }
  }

  // -------------------------------------------------------- whole messages

  /** A message of section 5.4 that has begun and not ended. */
  datatype Pending = Nothing | Begun(opcode: Opcode, data: Bytes)

  /** Section 5.4: a message is one frame with FIN, or a first frame, its
      continuations and a last one with FIN; control frames may come between.
      No message is left unfinished at the end. */
  predicate WellFragmented(fs: seq<ServerFrame>, p: Pending) {
    if fs == [] then p.Nothing?
    else if fs[0].opcode >= CLOSE then WellFragmented(fs[1..], p)
    else (if p.Nothing? then fs[0].opcode in {TEXT, BINARY} else fs[0].opcode == CONTINUATION)
         && WellFragmented(fs[1..], Joined(fs[0], p))
  }

  function Extended(f: ServerFrame, p: Pending): Bytes {
    if p.Nothing? then f.payload else p.data + f.payload
  }

  function Joined(f: ServerFrame, p: Pending): Pending {
    if f.fin then Nothing else Begun(if p.Nothing? then f.opcode else p.opcode, Extended(f, p))
  }

  /** The payloads of the messages, text and binary. */
  function Messages(fs: seq<ServerFrame>, p: Pending): seq<Bytes> {
    if fs == [] then []
    else if fs[0].opcode >= CLOSE then Messages(fs[1..], p)
    else (if fs[0].fin then [Extended(fs[0], p)] else []) + Messages(fs[1..], Joined(fs[0], p))
  }

  /** No text, and continuations carry nothing. */
  predicate Unfragmented(fs: seq<ServerFrame>) {
    fs == []
    || (fs[0].opcode != TEXT && (fs[0].opcode == CONTINUATION ==> fs[0].payload == []) && Unfragmented(fs[1..]))
  }

  lemma {:induction false} MessageCount(fs: seq<ServerFrame>, p: Pending)
    requires WellFragmented(fs, p)
    ensures |Messages(fs, p)| == |Payloads(fs, BINARY)| + |Payloads(fs, TEXT)| + (if p.Begun? then 1 else 0)
  {
    if fs != [] {
      MessageCount(fs[1..], if fs[0].opcode >= CLOSE then p else Joined(fs[0], p));
    }
  }

  lemma ExtendsBy(d: Bytes, data: Bytes, more: Bytes)
    requires |d| <= |data|
    ensures d == data + more <==> d == data && more == []
  {
    if more == [] { assert data + more == data; }
  }

  /** In the middle of a binary message of which d was returned. */
  lemma {:induction false} BegunWhole(fs: seq<ServerFrame>, d: Bytes, data: Bytes)
    requires WellFragmented(fs, Begun(BINARY, data)) && |d| <= |data|
    ensures [d] + Payloads(fs, BINARY) == Messages(fs, Begun(BINARY, data)) <==> d == data && Unfragmented(fs)
    decreases |fs|, 0
  {
    var f, rest := fs[0], fs[1..];
    if f.opcode >= CLOSE {
      BegunWhole(rest, d, data);
    } else {
      ExtendsBy(d, data, f.payload);
      if f.fin {
        NothingWhole(rest);
        assert ([d] + Payloads(rest, BINARY))[1..] == Payloads(rest, BINARY);
        assert ([data + f.payload] + Messages(rest, Nothing))[1..] == Messages(rest, Nothing);
      } else {
        BegunWhole(rest, d, data + f.payload);
      }
    }
  }

  lemma {:induction false} NothingWhole(fs: seq<ServerFrame>)
    requires WellFragmented(fs, Nothing)
    ensures Payloads(fs, BINARY) == Messages(fs, Nothing) <==> Unfragmented(fs)
    decreases |fs|, 1
  {
    if fs != [] {
      var f, rest := fs[0], fs[1..];
      if f.opcode >= CLOSE {
        NothingWhole(rest);
      } else if f.opcode == TEXT {
        MessageCount(fs, Nothing);
      } else if f.fin {
        NothingWhole(rest);
        assert ([f.payload] + Payloads(rest, BINARY))[1..] == Payloads(rest, BINARY);
        assert ([f.payload] + Messages(rest, Nothing))[1..] == Messages(rest, Nothing);
      } else {
        BegunWhole(rest, f.payload, f.payload);
      }
    }
  }

  /** ReadMsg returns whole messages, text and binary, as its comment says, if
      and only if there is no text and no continuation carries data: FIN is not
      looked at, so a fragmented message comes back as its first fragment. */
  lemma WholeMessagesIff(fs: seq<ServerFrame>)
    requires AllFit(fs) && WellFragmented(Open(fs), Nothing)
    ensures ReadAll(StreamBytes(fs)).messages == Messages(Open(fs), Nothing) <==> Unfragmented(Open(fs))
  {
    CompleteFrames(fs);
    NothingWhole(Open(fs));
  }

  /** A message in two fragments loses the second. */
  lemma SecondFragmentLost(a: Byte, b: Byte)
    ensures var fs := [ServerFrame(false, BINARY, [a]), ServerFrame(true, CONTINUATION, [b])];
            && WellFragmented(fs, Nothing) && Messages(fs, Nothing) == [[a, b]]
            && ReadAll(StreamBytes(fs)).messages == [[a]]
  {
    var f, g := ServerFrame(false, BINARY, [a]), ServerFrame(true, CONTINUATION, [b]);
    var fs := [f, g];
    assert fs[1..] == [g] && [g][1..] == [];
    CompleteFrames(fs);
    hide ReadAll, StreamBytes;
    assert Open([g]) == [g] + Open([]) && Open(fs) == [f] + Open([g]);
    assert Open(fs) == fs;
    assert Payloads([g], BINARY) == Payloads([], BINARY);
    assert Joined(f, Nothing) == Begun(BINARY, [a]) && Joined(g, Begun(BINARY, [a])) == Nothing;
    assert WellFragmented([g], Begun(BINARY, [a]));
    assert Messages([g], Begun(BINARY, [a])) == [[a] + [b]] + Messages([], Nothing);
    assert Messages(fs, Nothing) == [] + Messages([g], Begun(BINARY, [a]));
    assert [a] + [b] == [a, b];
  }
}
