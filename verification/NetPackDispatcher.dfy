/**
 Reading messages out of a shared receive buffer and the `dispatch` loop, in
 place, proved against the stream parser of `FieldLenNetPack`. A message keeps
 its content in the storage of the buffer it came from.
 */
module NetPackDispatchers {
  import opened BufferValues
  import opened FieldLenNetPack
  import opened Sequences
  import opened VecBuffers

  /** A message handed to the user: its fields and its piece of the buffer. */
  datatype Delivered = Delivered(cmd: int, seqNo: int, proto: int, version: int, buffer: VecBuffer)

  datatype Reading = Got(d: Delivered) | Nothing | AssertionFailed

  /** A delivered message has the fields and the content of `m`. */
  ghost predicate Shows(d: Delivered, m: PeerMessage)
    reads d.buffer, d.buffer.buffer
  {
    && d.cmd == m.cmd && d.seqNo == m.seqNo && d.proto == m.proto && d.version == m.version
    && d.buffer.Valid() && d.buffer.Contents() == m.content
  }

  lemma SliceOfSlice(s: seq<Byte>, offset: nat, len: nat, n: nat)
    requires n <= len && offset + len <= |s|
    ensures s[offset..offset + len][..n] == s[offset..offset + n]
  {}

  /** `FLNPHeader::decode` on a piece that holds one frame. */
  method DecodePiece(piece: VecBuffer, ghost frame: seq<Byte>) returns (d: Delivered)
    requires piece.Valid() && piece.Contents() == frame && |frame| > HEADER
    modifies piece`offset, piece`len
    ensures d.buffer == piece && Shows(d, Decode(frame))
    ensures piece.offset + piece.len == old(piece.offset) + old(piece.len)
  {
    var header := piece.buffer.bytes[piece.offset..piece.offset + HEADER];
    SliceOfSlice(piece.buffer.bytes, piece.offset, piece.len, HEADER);
    assert header == frame[..HEADER];
    assert header[8..] == frame[8..HEADER];
    MarkReadContents(piece.View(), HEADER);
    piece.MarkRead(HEADER);
    d := Delivered(Signed(FromBe32(header[8..]), 0x1_0000_0000), Signed(FromBe16(header[4..]), 0x1_0000),
                   header[2], Signed(header[3], 0x100), piece);
  }

  /** `peekPacketLength` */
  method PeekPacketLength(buffer: VecBuffer) returns (n: int)
    requires buffer.Valid()
    ensures n == PeekLength(buffer.Contents())
  {
    if buffer.len >= 2 {
      n := buffer.PeekInt16();
    } else {
      n := -1;
    }
  }

  /** `readMessage` */
  method ReadMessageFrom(buffer: VecBuffer) returns (r: Reading)
    requires buffer.Valid()
    modifies buffer`offset, buffer`len
    ensures buffer.Valid() && KeepsPrefix(old(buffer.View()), buffer.View())
    ensures match ReadMessage(old(buffer.Contents()))
      case Message(m, rest) =>
        && r.Got? && fresh(r.d.buffer) && r.d.buffer.buffer == buffer.buffer
        && Shows(r.d, m) && r.d.buffer.offset + r.d.buffer.len <= buffer.offset
        && buffer.Contents() == rest
        && buffer.View() == MarkRead(old(buffer.View()), old(buffer.len) - |rest|)
      case NoMessage => r == Nothing && buffer.View() == old(buffer.View())
      case AssertFailed => r == AssertionFailed
  {
    ghost var s := buffer.Contents();
    var packSize := PeekPacketLength(buffer);
    if packSize > 0 {
      if packSize <= buffer.len { MarkReadContents(buffer.View(), packSize); }
      var splited := buffer.Split(packSize);
      if splited.Some? {
        if splited.value.len <= HEADER {
          return AssertionFailed;
        }
        assert splited.value.Contents() == s[..packSize];
        var d := DecodePiece(splited.value, s[..packSize]);
        return Got(d);
      }
    }
    return Nothing;
  }

  /** The messages delivered so far: none of them is the buffer, and those that
      share its storage lie below its offset. */
  ghost predicate AllShow(ds: seq<Delivered>, ms: seq<PeerMessage>, buffer: VecBuffer)
    reads buffer, (set i | 0 <= i < |ds| :: ds[i].buffer), (set i | 0 <= i < |ds| :: ds[i].buffer.buffer)
  {
    && |ds| == |ms|
    && forall i :: 0 <= i < |ds| ==>
      && ds[i].buffer != buffer
      && (ds[i].buffer.buffer == buffer.buffer ==> ds[i].buffer.offset + ds[i].buffer.len <= buffer.offset)
      && Shows(ds[i], ms[i])
  }

  /** One turn of the `dispatch` loop up to the dispatching of the message. */
  method NextMessage(buffer: VecBuffer, ghost ds: seq<Delivered>, ghost ms: seq<PeerMessage>) returns (r: Reading)
    requires buffer.Valid() && AllShow(ds, ms, buffer)
    modifies buffer`offset, buffer`len
    ensures buffer.Valid()
    ensures match ReadMessage(old(buffer.Contents()))
      case Message(m, rest) =>
        && r.Got? && fresh(r.d.buffer) && r.d.buffer.buffer == buffer.buffer
        && AllShow(ds + [r.d], ms + [m], buffer) && buffer.Contents() == rest
        && buffer.View() == MarkRead(old(buffer.View()), old(buffer.len) - |rest|)
      case NoMessage =>
        r == Nothing && AllShow(ds, ms, buffer) && buffer.View() == old(buffer.View())
      case AssertFailed => r == AssertionFailed && AllShow(ds, ms, buffer)
  {
    r := ReadMessageFrom(buffer);
  }

  /** Growing the storage leaves the messages their content. */
  method Grow(buffer: VecBuffer, size: nat, ghost ds: seq<Delivered>, ghost ms: seq<PeerMessage>)
    requires buffer.Valid() && AllShow(ds, ms, buffer)
    modifies buffer.buffer
    ensures buffer.Valid() && AllShow(ds, ms, buffer)
    ensures buffer.View() == BufferValues.Ensure(old(buffer.View()), size)
  {
    ghost var b, b' := buffer.View(), BufferValues.Ensure(buffer.View(), size);
    buffer.Ensure(size);
    forall i | 0 <= i < |ds|
      ensures Shows(ds[i], ms[i])
    {
      if ds[i].buffer.buffer == buffer.buffer {
        PrefixContents(b.bytes, b'.bytes, ds[i].buffer.offset, ds[i].buffer.len);
      }
    }
  }

  /** The buffer with room for the frame that has begun. */
  function Reserved(b: Buf): Buf
    requires b.Fits()
  {
    var wanted := PeekLength(b.Contents());
    if wanted > 0 then BufferValues.Ensure(b, wanted) else b
  }

  /** Makes room for the frame that has begun; the messages keep their content. */
  method Reserve(buffer: VecBuffer, ghost ds: seq<Delivered>, ghost ms: seq<PeerMessage>)
    requires buffer.Valid() && AllShow(ds, ms, buffer)
    modifies buffer.buffer
    ensures buffer.Valid() && AllShow(ds, ms, buffer)
    ensures buffer.Contents() == old(buffer.Contents()) && buffer.View() == Reserved(old(buffer.View()))
    ensures PeekLength(buffer.Contents()) > |buffer.Contents()| ==>
      buffer.View().WrittableSize() >= PeekLength(buffer.Contents()) - |buffer.Contents()|
  {
    var wanted := PeekPacketLength(buffer);
    if wanted > 0 {
      GrowContents(buffer.View(), wanted);
      Grow(buffer, wanted, ds, ms);
    }
  }

  lemma PrefixContents(s: seq<Byte>, s': seq<Byte>, offset: nat, len: nat)
    requires s <= s' && offset + len <= |s|
    ensures s'[offset..offset + len] == s[offset..offset + len]
  {}

  lemma {:induction false} LeftIsPartial(s: seq<Byte>)
    requires !ParseAll(s).failed
    ensures ReadMessage(ParseAll(s).left).NoMessage?
    decreases |s|
  {
    if ReadMessage(s).Message? {
      LeftIsPartial(ReadMessage(s).rest);
    }
  }

  lemma LeftTooShort(s: seq<Byte>)
    ensures var left := ParseAll(s).left;
      !ParseAll(s).failed && PeekLength(left) > 0 ==> |left| < PeekLength(left)
  {
    if !ParseAll(s).failed {
      LeftIsPartial(s);
    }
  }

  /** Having delivered `ms`, what is still to come from `here` completes `s`. */
  predicate OnTheWay(s: seq<Byte>, ms: seq<PeerMessage>, here: seq<Byte>) {
    ParseAll(s) == ParseAll(here).(msgs := ms + ParseAll(here).msgs)
  }

  lemma Advance(s: seq<Byte>, ms: seq<PeerMessage>, here: seq<Byte>)
    requires OnTheWay(s, ms, here)
    ensures ReadMessage(here).Message? ==> OnTheWay(s, ms + [ReadMessage(here).m], ReadMessage(here).rest)
    ensures ReadMessage(here).NoMessage? ==> ParseAll(s) == Parsed(ms, here, false)
    ensures ReadMessage(here).AssertFailed? ==> ParseAll(s).msgs == ms && ParseAll(s).failed
  {
    ParseStep(here);
    if ReadMessage(here).Message? {
      var m, q := ReadMessage(here).m, ParseAll(ReadMessage(here).rest).msgs;
      assert ms + ([m] + q) == (ms + [m]) + q;
    } else {
      assert ms + [] == ms;
    }
  }

  lemma {:induction false} LeftIsEnd(s: seq<Byte>)
    ensures |ParseAll(s).left| <= |s|
    decreases |s|
  {
    if ReadMessage(s).Message? {
      LeftIsEnd(ReadMessage(s).rest);
    }
  }

  /** The buffer after a `dispatch` that no assertion stops: all messages read, and
      room for the frame that has begun. */
  function Dispatched(b: Buf): (b': Buf)
    requires b.Fits()
    ensures b'.Fits()
  {
    LeftIsEnd(b.Contents());
    Reserved(MarkRead(b, b.len - |ParseAll(b.Contents()).left|))
  }

  /** `b` is `b0` with its first bytes read. */
  predicate Consumed(b0: Buf, b: Buf) {
    b0.Fits() && b.len <= b0.len && b == MarkRead(b0, b0.len - b.len)
  }

  lemma DispatchedEnds(b0: Buf, b: Buf)
    requires Consumed(b0, b) && b.Fits() && ParseAll(b0.Contents()).left == b.Contents()
    ensures Reserved(b) == Dispatched(b0)
  {
    assert |b.Contents()| == b.len;
  }

  /** One turn of the `dispatch` loop, on the way through `s`: a message, or the
      room for the frame that has begun. */
  method DispatchTurn(buffer: VecBuffer, ghost b0: Buf, ghost s: seq<Byte>, ghost ms: seq<PeerMessage>,
                      ghost all: seq<Delivered>, ghost allMs: seq<PeerMessage>)
    returns (r: Reading, ghost m: PeerMessage)
    requires buffer.Valid() && AllShow(all, allMs, buffer) && OnTheWay(s, ms, buffer.Contents())
    requires Consumed(b0, buffer.View()) && s == b0.Contents()
    modifies buffer`offset, buffer`len, buffer.buffer
    ensures buffer.Valid()
    ensures match r
      case Got(d) =>
        && fresh(d.buffer) && d.buffer.buffer == buffer.buffer && AllShow(all + [d], allMs + [m], buffer)
        && OnTheWay(s, ms + [m], buffer.Contents()) && buffer.len < old(buffer.len)
        && Consumed(b0, buffer.View())
      case Nothing =>
        && AllShow(all, allMs, buffer) && ParseAll(s) == Parsed(ms, buffer.Contents(), false)
        && buffer.View() == Dispatched(b0)
        && (PeekLength(buffer.Contents()) > |buffer.Contents()| ==>
              buffer.View().WrittableSize() >= PeekLength(buffer.Contents()) - |buffer.Contents()|)
      case AssertionFailed =>
        AllShow(all, allMs, buffer) && ParseAll(s).msgs == ms && ParseAll(s).failed
  {
    ghost var here := buffer.Contents();
    Advance(s, ms, here);
    r := NextMessage(buffer, all, allMs);
    m := if ReadMessage(here).Message? then ReadMessage(here).m else PeerMessage(0, 0, 0, 0, []);
    if r == Nothing {
      DispatchedEnds(b0, buffer.View());
      Reserve(buffer, all, allMs);
    }
  }

  /**
   `dispatch`: delivers every whole message, in order, and reserves room for the
   one that has begun. The loop ends because every message shortens what is
   readable. Messages delivered before keep their content, those of this call
   are pieces of the buffer's own storage.
   */
  method Dispatch(buffer: VecBuffer, ghost before: seq<Delivered>, ghost ms0: seq<PeerMessage>)
    returns (ds: seq<Delivered>, failed: bool)
    requires buffer.Valid() && AllShow(before, ms0, buffer)
    modifies buffer`offset, buffer`len, buffer.buffer
    ensures buffer.Valid()
    ensures AllShow(before + ds, ms0 + ParseAll(old(buffer.Contents())).msgs, buffer)
    ensures forall i :: 0 <= i < |ds| ==> fresh(ds[i].buffer) && ds[i].buffer.buffer == buffer.buffer
    ensures failed == ParseAll(old(buffer.Contents())).failed
    ensures !failed ==>
      buffer.Contents() == ParseAll(old(buffer.Contents())).left && buffer.View() == Dispatched(old(buffer.View()))
    ensures !failed && PeekLength(buffer.Contents()) > 0 ==>
      && |buffer.Contents()| < PeekLength(buffer.Contents())
      && buffer.View().WrittableSize() >= PeekLength(buffer.Contents()) - |buffer.Contents()|
  {
    ghost var b0, s, ms, all, allMs := buffer.View(), buffer.Contents(), [], before, ms0;
    LeftTooShort(s);
    assert [] + ParseAll(s).msgs == ParseAll(s).msgs;
    ds := [];
    while true
      invariant buffer.Valid() && AllShow(all, allMs, buffer)
      invariant all == before + ds && allMs == ms0 + ms
      invariant forall i :: 0 <= i < |ds| ==> fresh(ds[i].buffer) && ds[i].buffer.buffer == buffer.buffer
      invariant OnTheWay(s, ms, buffer.Contents())
      invariant Consumed(b0, buffer.View())
      decreases buffer.len
    {
      var r;
      ghost var m;
      r, m := DispatchTurn(buffer, b0, s, ms, all, allMs);
      match r
      case Got(d) =>
        JoinAssociate(before, ds, [d]);
        JoinAssociate(ms0, ms, [m]);
        ds, all, ms, allMs := ds + [d], all + [d], ms + [m], allMs + [m];
      case Nothing =>
        return ds, false;
      case AssertionFailed =>
        return ds, true;
    }
  }
}
