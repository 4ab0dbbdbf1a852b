/**
 The length-prefixed frames of FieldLenNetPack.hpp and the greedy stream parser
 of NetPackDispatcher.hpp, as functions on bytes.
 */
module FieldLenNetPack {
  import opened BufferValues
  import opened Options
  import opened Sequences

  const HEADER: nat := 12

  /** A message with the signed fields the program gives it. */
  datatype PeerMessage = PeerMessage(cmd: int, seqNo: int, proto: int, version: int, content: seq<Byte>)

  /** Each field is in the range of its C type. */
  predicate InRange(m: PeerMessage) {
    && -0x8000_0000 <= m.cmd < 0x8000_0000
    && -0x8000 <= m.seqNo < 0x8000
    && 0 <= m.proto < 0x100
    && -0x80 <= m.version < 0x80
  }

  // ----- writing -----

  /** The 12 header bytes; the 16-bit length wraps as it is stored. */
  function EncodeHeader(conlen: nat, m: PeerMessage): (h: seq<Byte>)
    requires conlen < 0x1_0000 && InRange(m)
    ensures |h| == HEADER
  {
    Be16((conlen + HEADER) % 0x1_0000)
    + [m.proto, Unsigned(m.version, 0x100)]
    + Be16(Unsigned(m.seqNo, 0x1_0000))
    + [0, 0]
    + Be32(Unsigned(m.cmd, 0x1_0000_0000))
  }

  /** `writeMessage`: a buffer for the 16-bit content length, the header and the
      whole content. When the content is longer than the 16-bit length says,
      marking it written fails an assertion. */
  function WriteMessage(m: PeerMessage): Option<seq<Byte>>
    requires InRange(m)
  {
    var conlen16 := |m.content| % 0x1_0000;
    if |m.content| > conlen16 then None
    else Some(EncodeHeader(conlen16, m) + m.content)
  }

  // ----- reading -----

  /** `peekPacketLength`, through a signed 16-bit number; -1 on less than 2 bytes. */
  function PeekLength(s: seq<Byte>): int {
    if |s| >= 2 then Signed(FromBe16(s), 0x1_0000) else -1
  }

  /** The message in a frame of its own. */
  function Decode(frame: seq<Byte>): (m: PeerMessage)
    requires |frame| > HEADER
    ensures InRange(m)
  {
    PeerMessage(Signed(FromBe32(frame[8..]), 0x1_0000_0000), Signed(FromBe16(frame[4..]), 0x1_0000),
                frame[2], Signed(frame[3], 0x100), frame[HEADER..])
  }

  /** A message and the bytes after it; nothing yet; or a failed assertion. */
  datatype ReadResult = Message(m: PeerMessage, rest: seq<Byte>) | NoMessage | AssertFailed

  /** `readMessage` */
  function ReadMessage(s: seq<Byte>): (r: ReadResult)
    ensures r.Message? ==> |r.rest| < |s| && InRange(r.m)
  {
    var packSize := PeekLength(s);
    if packSize <= 0 || |s| < packSize then NoMessage
    else if packSize <= HEADER then AssertFailed
    else Message(Decode(s[..packSize]), s[packSize..])
  }

  lemma EncodedFields(conlen: nat, m: PeerMessage, t: seq<Byte>)
    requires conlen < 0x1_0000 && InRange(m)
    ensures var s := EncodeHeader(conlen, m) + t;
      && FromBe16(s) == (conlen + HEADER) % 0x1_0000
      && s[2] == m.proto && s[3] == Unsigned(m.version, 0x100)
      && FromBe16(s[4..]) == Unsigned(m.seqNo, 0x1_0000)
      && FromBe32(s[8..]) == Unsigned(m.cmd, 0x1_0000_0000)
  {
    Be16RoundTrip((conlen + HEADER) % 0x1_0000);
    Be16RoundTrip(Unsigned(m.seqNo, 0x1_0000));
    Be32RoundTrip(Unsigned(m.cmd, 0x1_0000_0000));
    var s, c := EncodeHeader(conlen, m) + t, Be32(Unsigned(m.cmd, 0x1_0000_0000));
    assert s[8..][0] == c[0] && s[8..][1] == c[1] && s[8..][2] == c[2] && s[8..][3] == c[3];
    assert s[4..][0] == Be16(Unsigned(m.seqNo, 0x1_0000))[0] && s[4..][1] == Be16(Unsigned(m.seqNo, 0x1_0000))[1];
  }

  /** A whole frame decodes to the message it was made of. */
  lemma DecodeEncoded(m: PeerMessage)
    requires InRange(m) && 1 <= |m.content| < 0x1_0000
    ensures Decode(EncodeHeader(|m.content|, m) + m.content) == m
  {
    var frame := EncodeHeader(|m.content|, m) + m.content;
    EncodedFields(|m.content|, m, m.content);
    assert frame[HEADER..] == m.content;
  }

  lemma FrameLength(m: PeerMessage, rest: seq<Byte>)
    requires InRange(m) && 1 <= |m.content| <= 32755
    ensures PeekLength((EncodeHeader(|m.content|, m) + m.content) + rest) == HEADER + |m.content|
  {
    EncodedFields(|m.content|, m, m.content + rest);
    JoinAssociate(EncodeHeader(|m.content|, m), m.content, rest);
  }

  lemma CutJoined<T>(a: seq<T>, b: seq<T>)
    ensures (a + b)[..|a|] == a && (a + b)[|a|..] == b
  {}

  /** A frame decodes to the message that was written, whatever follows it. */
  lemma ReadBack(m: PeerMessage, rest: seq<Byte>)
    requires InRange(m) && 1 <= |m.content| <= 32755
    ensures WriteMessage(m).Some? && ReadMessage(WriteMessage(m).value + rest) == Message(m, rest)
  {
    FrameLength(m, rest);
    CutJoined(EncodeHeader(|m.content|, m) + m.content, rest);
    DecodeEncoded(m);
  }

  /** What is written can be read back exactly when the content has 1 to 32755
      bytes: a longer frame has a length that is negative or wraps, an empty
      one fails the assertion of `decode`. */
  lemma ReadBackExactly(m: PeerMessage)
    requires InRange(m)
    ensures (WriteMessage(m).Some? && forall rest ::
               ReadMessage(WriteMessage(m).value + rest) == Message(m, rest))
            <==> 1 <= |m.content| <= 32755
  {
    if 1 <= |m.content| <= 32755 {
      forall rest
        ensures ReadMessage(WriteMessage(m).value + rest) == Message(m, rest)
      {
        ReadBack(m, rest);
      }
    } else if WriteMessage(m).Some? {
      var frame := WriteMessage(m).value;
      EncodedFields(|m.content|, m, m.content);
      assert frame + [] == frame;
      assert ReadMessage(frame + []) != Message(m, []);
    }
  }

  // ----- the bytes on the wire -----

  /** The length is the first two bytes, high one first, and negative from 32768 on. */
  lemma LengthOnWire(high: Byte, low: Byte, t: seq<Byte>)
    ensures PeekLength([high, low] + t) ==
      if high < 128 then HighFirst(high, low) else HighFirst(high, low) - 0x1_0000
  {
    var s := [high, low] + t;
    assert s[0] == high && s[1] == low;
  }

  /** The number of two bytes, high one first. */
  function HighFirst(high: int, low: int): int {
    256 * high + low
  }

  /** `x` is what the four bytes hold, high one first, modulo 2^32. */
  predicate Holds32(x: int, a: Byte, b: Byte, c: Byte, d: Byte) {
    (0x100_0000 * a + 0x1_0000 * b + 256 * c + d - x) % 0x1_0000_0000 == 0
  }

  predicate Holds16(x: int, a: Byte, b: Byte) {
    (HighFirst(a, b) - x) % 0x1_0000 == 0
  }

  predicate Holds8(x: int, a: Byte) {
    (a - x) % 256 == 0
  }

  /** The bytes of the header: every field at its place, high byte first, signed
      ones in two's complement. */
  predicate HeaderOnWire(m: PeerMessage, v: seq<Byte>)
    requires |v| >= 12
  {
    && Holds8(m.proto, v[2]) && Holds8(m.version, v[3]) && Holds16(m.seqNo, v[4], v[5])
    && Holds32(m.cmd, v[8], v[9], v[10], v[11])
  }

  lemma FromBe32Holds(s: seq<Byte>)
    requires |s| >= 4
    ensures Holds32(FromBe32(s), s[0], s[1], s[2], s[3])
    ensures Holds32(Signed(FromBe32(s), 0x1_0000_0000), s[0], s[1], s[2], s[3])
  {
    var a: int, b: int, c: int, d: int := s[0], s[1], s[2], s[3];
    assert FromBe32(s) == 0x100_0000 * a + 0x1_0000 * b + 256 * c + d;
  }

  lemma FromBe16Holds(s: seq<Byte>)
    requires |s| >= 2
    ensures FromBe16(s) == HighFirst(s[0], s[1]) && Holds16(Signed(FromBe16(s), 0x1_0000), s[0], s[1])
  {}

  lemma SignedHolds8(b: Byte)
    ensures Holds8(b, b) && Holds8(Signed(b, 0x100), b)
  {}

  lemma DecodedFields(frame: seq<Byte>)
    requires |frame| > HEADER
    ensures HeaderOnWire(Decode(frame), frame) && Decode(frame).content == frame[12..]
  {
    FromBe32Holds(frame[8..]);
    FromBe16Holds(frame[4..]);
    SignedHolds8(frame[2]);
    SignedHolds8(frame[3]);
  }

  /** What is read, byte by byte: nothing while the frame is not whole or its
      length is 0 or negative, a failed assertion for a frame without content,
      else the fields and the content at their places. */
  lemma ReadFromWire(s: seq<Byte>)
    requires |s| >= 2
    ensures var n, r := HighFirst(s[0], s[1]), ReadMessage(s);
      && (s[0] >= 128 || n == 0 || |s| < n <==> r.NoMessage?)
      && (s[0] < 128 && 0 < n <= 12 && n <= |s| <==> r.AssertFailed?)
      && (r.Message? ==> 12 < n <= |s| && HeaderOnWire(r.m, s) && r.m.content == s[12..n] && r.rest == s[n..])
  {
    FromBe16Holds(s);
    var n := HighFirst(s[0], s[1]);
    if ReadMessage(s).Message? {
      DecodedFields(s[..n]);
      assert s[..n][12..] == s[12..n];
    }
  }

  lemma Be16OnWire(x: nat)
    requires x < 0x1_0000
    ensures HighFirst(Be16(x)[0], Be16(x)[1]) == x
  {}

  lemma SeqHolds(x: int)
    requires -0x8000 <= x < 0x8000
    ensures var b := Be16(Unsigned(x, 0x1_0000)); Holds16(x, b[0], b[1])
  {
    Be16OnWire(Unsigned(x, 0x1_0000));
  }

  lemma VersionHolds(x: int)
    requires -0x80 <= x < 0x80
    ensures Holds8(x, Unsigned(x, 0x100))
  {}

  lemma Be32OnWire(x: int)
    requires -0x8000_0000 <= x < 0x8000_0000
    ensures var b := Be32(Unsigned(x, 0x1_0000_0000)); Holds32(x, b[0], b[1], b[2], b[3])
  {
    var u := Unsigned(x, 0x1_0000_0000);
    Be32RoundTrip(u);
    FromBe32Holds(Be32(u));
  }

  /** Where each part of an encoded header lies. */
  lemma HeaderParts(conlen: nat, m: PeerMessage, t: seq<Byte>)
    requires conlen < 0x1_0000 && InRange(m)
    ensures var v := EncodeHeader(conlen, m) + t;
      && v[..2] == Be16((conlen + HEADER) % 0x1_0000) && v[2] == m.proto && v[3] == Unsigned(m.version, 0x100)
      && v[4..6] == Be16(Unsigned(m.seqNo, 0x1_0000)) && v[6] == v[7] == 0
      && v[8..12] == Be32(Unsigned(m.cmd, 0x1_0000_0000)) && v[12..] == t
  {}

  lemma HeaderHolds(conlen: nat, m: PeerMessage, v: seq<Byte>)
    requires conlen < 0x1_0000 && InRange(m) && |v| >= 12
    requires v[..2] == Be16((conlen + HEADER) % 0x1_0000) && v[2] == m.proto && v[3] == Unsigned(m.version, 0x100)
    requires v[4..6] == Be16(Unsigned(m.seqNo, 0x1_0000)) && v[8..12] == Be32(Unsigned(m.cmd, 0x1_0000_0000))
    ensures HighFirst(v[0], v[1]) == (conlen + HEADER) % 0x1_0000 && HeaderOnWire(m, v)
  {
    Be16OnWire((conlen + HEADER) % 0x1_0000);
    assert v[0] == v[..2][0] && v[1] == v[..2][1];
    SeqHolds(m.seqNo);
    assert v[4] == v[4..6][0] && v[5] == v[4..6][1];
    VersionHolds(m.version);
    SignedHolds8(m.proto);
    Be32OnWire(m.cmd);
    assert v[8] == v[8..12][0] && v[9] == v[8..12][1] && v[10] == v[8..12][2] && v[11] == v[8..12][3];
  }

  lemma FrameOnWire(m: PeerMessage, v: seq<Byte>)
    requires InRange(m) && |m.content| < 0x1_0000 && v == EncodeHeader(|m.content|, m) + m.content
    ensures |v| == 12 + |m.content| && v[12..] == m.content
    ensures HighFirst(v[0], v[1]) == (12 + |m.content|) % 0x1_0000
    ensures HeaderOnWire(m, v) && v[6] == v[7] == 0
  {
    HeaderParts(|m.content|, m, m.content);
    HeaderHolds(|m.content|, m, v);
  }

  lemma WrittenFrame(m: PeerMessage)
    requires InRange(m)
    ensures WriteMessage(m) ==
      if |m.content| < 0x1_0000 then Some(EncodeHeader(|m.content|, m) + m.content) else None
  {}

  /** What is written, byte by byte: the length with the header, modulo 2^16, high
      byte first, the fields, two zero bytes and the content; nothing exactly when
      the content is longer than 16 bits can say. */
  lemma WriteOnWire(m: PeerMessage)
    requires InRange(m)
    ensures WriteMessage(m).Some? <==> |m.content| < 0x1_0000
    ensures WriteMessage(m).Some? ==>
      var v := WriteMessage(m).value;
      && |v| == 12 + |m.content| && v[12..] == m.content
      && HighFirst(v[0], v[1]) == (12 + |m.content|) % 0x1_0000
      && HeaderOnWire(m, v) && v[6] == v[7] == 0
  {
    WrittenFrame(m);
    if |m.content| < 0x1_0000 {
      FrameOnWire(m, WriteMessage(m).value);
    }
  }

  // ----- streams -----

  /** What has been delivered, the bytes not consumed, and whether an assertion
      has stopped the program. */
  datatype Parsed = Parsed(msgs: seq<PeerMessage>, left: seq<Byte>, failed: bool)

  function After(m: PeerMessage, p: Parsed): Parsed {
    p.(msgs := [m] + p.msgs)
  }

  /** The `dispatch` loop: as many messages as there are. */
  function ParseAll(s: seq<Byte>): Parsed
    decreases |s|
  {
    match ReadMessage(s)
    case Message(m, rest) => After(m, ParseAll(rest))
    case NoMessage => Parsed([], s, false)
    case AssertFailed => Parsed([], s, true)
  }

  /** The arrival of more bytes, with a `dispatch` after them. */
  function Feed(p: Parsed, chunk: seq<Byte>): Parsed {
    if p.failed then p else
      var q := ParseAll(p.left + chunk);
      q.(msgs := p.msgs + q.msgs)
  }

  function FeedAll(p: Parsed, chunks: seq<seq<Byte>>): Parsed
    decreases chunks
  {
    if chunks == [] then p else FeedAll(Feed(p, chunks[0]), chunks[1..])
  }

  lemma ReadMore(s: seq<Byte>, t: seq<Byte>)
    ensures ReadMessage(s).Message? ==> ReadMessage(s + t) == Message(ReadMessage(s).m, ReadMessage(s).rest + t)
    ensures ReadMessage(s).AssertFailed? ==> ReadMessage(s + t).AssertFailed?
  {
    var n := PeekLength(s);
    if 0 < n <= |s| {
      assert (s + t)[..n] == s[..n] && (s + t)[n..] == s[n..] + t;
      assert PeekLength(s + t) == n;
    }
  }

  /** The same messages and the same end; the same bytes left, unless an
      assertion has stopped the program. */
  predicate Same(p: Parsed, w: Parsed) {
    p.msgs == w.msgs && p.failed == w.failed && (!p.failed ==> p.left == w.left)
  }

  lemma FeedAfter(m: PeerMessage, p: Parsed, t: seq<Byte>)
    ensures Feed(After(m, p), t) == After(m, Feed(p, t))
  {
    if !p.failed {
      var q := ParseAll(p.left + t).msgs;
      assert [m] + (p.msgs + q) == ([m] + p.msgs) + q;
    }
  }

  lemma ParseStep(s: seq<Byte>)
    ensures ReadMessage(s).Message? ==> ParseAll(s) == After(ReadMessage(s).m, ParseAll(ReadMessage(s).rest))
    ensures ReadMessage(s).NoMessage? ==> ParseAll(s) == Parsed([], s, false)
    ensures ReadMessage(s).AssertFailed? ==> ParseAll(s) == Parsed([], s, true)
  {}

  /** Parsing a stream in two goes: the second starts from what the first left. */
  lemma {:induction false} ParseInTwo(s: seq<Byte>, t: seq<Byte>)
    ensures Same(Feed(ParseAll(s), t), ParseAll(s + t))
    decreases |s|
  {
    ReadMore(s, t);
    ParseStep(s);
    ParseStep(s + t);
    var r := ReadMessage(s);
    if r.Message? {
      ParseInTwo(r.rest, t);
      FeedAfter(r.m, ParseAll(r.rest), t);
    } else if r.NoMessage? {
      assert Feed(Parsed([], s, false), t) == ParseAll(s + t);
    }
  }

  lemma {:induction false} FeedAllParses(p: Parsed, s: seq<Byte>, chunks: seq<seq<Byte>>)
    requires Same(p, ParseAll(s))
    ensures Same(FeedAll(p, chunks), ParseAll(s + Concat(chunks)))
    decreases chunks
  {
    if chunks == [] {
      assert s + Concat(chunks) == s;
    } else {
      var whole := s + chunks[0];
      ParseInTwo(s, chunks[0]);
      FeedSame(p, ParseAll(s), chunks[0]);
      FeedAllParses(Feed(p, chunks[0]), whole, chunks[1..]);
      JoinAssociate(s, chunks[0], Concat(chunks[1..]));
    }
  }

  lemma FeedSame(p: Parsed, w: Parsed, t: seq<Byte>)
    requires Same(p, w)
    ensures Same(Feed(p, t), Feed(w, t))
  {}

  /**
   Framing does not depend on how the stream was cut: for any bytes at all, any
   way of cutting them into chunks, with a `dispatch` after each, delivers the
   messages of one `dispatch` on the whole stream and leaves the same bytes; and
   if an assertion stops one, it stops the other after the same messages.
   */
  lemma ChunkingDoesNotMatter(chunks: seq<seq<Byte>>)
    ensures Same(FeedAll(Parsed([], [], false), chunks), ParseAll(Concat(chunks)))
  {
    FeedAllParses(Parsed([], [], false), [], chunks);
    assert [] + Concat(chunks) == Concat(chunks);
  }

  /** What `writeMessage` makes of a list of messages, one after the other. */
  function WriteAll(ms: seq<PeerMessage>): seq<Byte>
    requires forall i :: 0 <= i < |ms| ==> InRange(ms[i]) && 1 <= |ms[i].content| <= 32755
  {
    if ms == [] then [] else
      ReadBack(ms[0], []);
      WriteMessage(ms[0]).value + WriteAll(ms[1..])
  }

  /** A list of messages written and read back is the same list. */
  lemma {:induction false} ListReadBack(ms: seq<PeerMessage>)
    requires forall i :: 0 <= i < |ms| ==> InRange(ms[i]) && 1 <= |ms[i].content| <= 32755
    ensures ParseAll(WriteAll(ms)) == Parsed(ms, [], false)
  {
    if ms != [] {
      ReadBack(ms[0], WriteAll(ms[1..]));
      ListReadBack(ms[1..]);
    }
  }

  /** End to end: messages written by one side and received in any pieces by the
      other are delivered as they were, and no byte is left over. */
  lemma {:induction false} DeliveredAsWritten(ms: seq<PeerMessage>, chunks: seq<seq<Byte>>)
    requires forall i :: 0 <= i < |ms| ==> InRange(ms[i]) && 1 <= |ms[i].content| <= 32755
    requires Concat(chunks) == WriteAll(ms)
    ensures FeedAll(Parsed([], [], false), chunks) == Parsed(ms, [], false)
  {
    ListReadBack(ms);
    ChunkingDoesNotMatter(chunks);
  }
}
