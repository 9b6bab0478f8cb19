/** internal/steam/protocol/frame.go: VT01 packets on a byte stream. */
module Frame {
  import opened ByteSeq
  import opened Wire

  const MAGIC: Bytes := [0x56, 0x54, 0x30, 0x31] // "VT01"
  const MAX_PACKET := 16 * 1024 * 1024

  /** io.ReadFull: all the bytes asked for, or io.EOF because there were none, or
      io.ErrUnexpectedEOF because there were too few. */
  datatype FullRead = Full(data: Bytes) | NoneLeft | TooFew

  function FullOf(s: Bytes, n: nat): FullRead {
    if n <= |s| then Full(s[..n]) else if s == [] then NoneLeft else TooFew
  }

  /** What a ReadMsg returns: a message, io.EOF, io.ErrUnexpectedEOF, an error of
      its own, or a run-time panic. */
  datatype Incoming = Message(payload: Bytes) | EndOfFile | CutShort | Refused | Panic

  function Missing(r: FullRead): Incoming
    requires !r.Full?
  {
    if r.NoneLeft? then EndOfFile else CutShort
  }

  /** A connection read to its end: the bytes that have not been read yet. */
  class Stream {
    var rest: Bytes

    constructor (data: Bytes)
      ensures rest == data
    {
      rest := data;
    }

    method ReadFull(n: nat) returns (r: FullRead)
      modifies this
      ensures r == FullOf(old(rest), n)
      ensures rest == if r.Full? then old(rest)[n..] else []
    {
      if n <= |rest| {
        r, rest := Full(rest[..n]), rest[n..];
      } else {
        r, rest := if |rest| == 0 then NoneLeft else TooFew, [];
      }
    }
  }

  class Sink {
    var out: Bytes

    constructor ()
      ensures out == []
    {
      out := [];
    }

    method Write(b: Bytes)
      modifies this
      ensures out == old(out) + b
    {
      out := out + b;
    }
  }

  function PacketBytes(payload: Bytes): Bytes {
    LittleEndian(|payload|, 4) + MAGIC + payload
  }

  /** What ReadPacket returns, and the stream it leaves. */
  function PacketOf(s: Bytes): (Incoming, Bytes) {
    if |s| < 8 then (Missing(FullOf(s, 8)), []) else
    var n, tail := Word32(s[0..4]), s[8..];
    if s[4..8] != MAGIC || n > MAX_PACKET then (Refused, tail)
    else if n > |tail| then (Missing(FullOf(tail, n)), [])
    else (Message(tail[..n]), tail[n..])
  }

  method ReadPacket(r: Stream) returns (res: Incoming)
    modifies r
    ensures (res, r.rest) == PacketOf(old(r.rest))
  {
    hide FromLittleEndian;
    var head := r.ReadFull(8);
    if !head.Full? { return Missing(head); }
    var hdr := head.data;
    var n := Word32(hdr[0..4]);
    assert hdr[0..4] == old(r.rest)[0..4] && hdr[4..8] == old(r.rest)[4..8];
    if hdr[4] != MAGIC[0] || hdr[5] != MAGIC[1] || hdr[6] != MAGIC[2] || hdr[7] != MAGIC[3] {
      assert hdr[4..8][0] == hdr[4] && hdr[4..8][1] == hdr[5] && hdr[4..8][2] == hdr[6] && hdr[4..8][3] == hdr[7];
      return Refused;
    }
    assert hdr[4..8] == MAGIC;
    if n > MAX_PACKET { return Refused; }
    var body := r.ReadFull(n);
    if !body.Full? { return Missing(body); }
    return Message(body.data);
  }

  method WritePacket(w: Sink, payload: Bytes)
    modifies w
    ensures w.out == old(w.out) + PacketBytes(payload)
  {
    var hdr := LittleEndian(|payload|, 4) + MAGIC;
    w.Write(hdr);
    w.Write(payload);
  }

  lemma PacketParts(a: Bytes, payload: Bytes, tail: Bytes)
    requires |a| == 4
    ensures var s := a + MAGIC + payload + tail;
            s[0..4] == a && s[4..8] == MAGIC && s[8..] == payload + tail
  {
  }

  /** What an eight-byte header makes of the stream behind it: another magic, or a
      length over 16 MiB, is refused and the stream stays behind the header. */
  lemma HeaderDecides(n: Uint32, magic: Bytes, rest: Bytes)
    requires |magic| == 4
    ensures PacketOf(LittleEndian(n, 4) + magic + rest)
            == if magic != [0x56, 0x54, 0x30, 0x31] || n > 0x100_0000 then (Refused, rest)
               else if n <= |rest| then (Message(rest[..n]), rest[n..])
               else (if rest == [] then EndOfFile else CutShort, [])
  {
    PowersOf256();
    LittleEndianInverse(n, 4);
    hide LittleEndian, FromLittleEndian;
    var s := LittleEndian(n, 4) + magic + rest;
    assert s[0..4] == LittleEndian(n, 4) && s[4..8] == magic && s[8..] == rest;
  }

  /** A packet is read back, and the stream left at the next one, if and only if
      its payload is at most 16 MiB. */
  lemma PacketRoundTrip(payload: Bytes, tail: Bytes)
    ensures PacketOf(PacketBytes(payload) + tail) == (Message(payload), tail) <==> |payload| <= MAX_PACKET
  {
    PowersOf256();
    PacketParts(LittleEndian(|payload|, 4), payload, tail);
    if |payload| < TWO_32 { LittleEndianInverse(|payload|, 4); }
    hide LittleEndian, FromLittleEndian;
    assert (payload + tail)[..|payload|] == payload && (payload + tail)[|payload|..] == tail;
  }

  /** ReadPacket accepts nothing but packets: the bytes it used up are the
      encoding of what it returned. */
  lemma PacketExact(s: Bytes, payload: Bytes, tail: Bytes)
    requires PacketOf(s) == (Message(payload), tail)
    ensures s == PacketBytes(payload) + tail && |payload| <= MAX_PACKET
  {
    LittleEndianOnto(s[0..4]);
    hide LittleEndian, FromLittleEndian;
    assert s[8..] == payload + tail;
    assert PacketBytes(payload) == s[0..4] + MAGIC + payload;
    assert s == s[0..4] + s[4..8] + s[8..];
  }

  /** A packet cut anywhere is not read; the cut is reported as io.EOF, a clean
      end, if and only if it is in front of the packet or right behind its header. */
  lemma CutPacket(payload: Bytes, k: nat)
    requires |payload| <= MAX_PACKET && k < |PacketBytes(payload)|
    ensures PacketOf(PacketBytes(payload)[..k]) == (if k == 0 || k == 8 then EndOfFile else CutShort, [])
  {
    PowersOf256();
    PacketParts(LittleEndian(|payload|, 4), payload, []);
    LittleEndianInverse(|payload|, 4);
    hide LittleEndian, FromLittleEndian;
    var whole := PacketBytes(payload);
    assert whole + [] == whole && payload + [] == payload;
    if k >= 8 {
      var cut := whole[..k];
      assert cut[0..4] == whole[0..4] && cut[4..8] == whole[4..8] && |cut[8..]| == k - 8;
    }
  }
}
