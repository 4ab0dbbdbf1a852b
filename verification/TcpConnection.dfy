/**
 The send queue and the receive buffer of TcpConnection, in place. The socket is
 the bytes it has taken and the answers it gives.
 */
module TcpConnections {
  import opened BufferValues
  import opened FieldLenNetPack
  import opened NetPackDispatchers
  import opened SendValues
  import opened Sequences
  import opened VecBuffers

  class SendQueue {
    var sndBufList: seq<VecBuffer>
    var taken: seq<Byte>
    var reading: bool
    var writing: bool
    var open: bool
    /** The readable bytes of each buffer of the list. */
    ghost var queue: seq<seq<Byte>>

    /** The buffers that have been queued. */
    ghost var bufs: set<VecBuffer>

    /** Each buffer is in the list once. */
    ghost predicate Valid()
      reads this, sndBufList, set i | 0 <= i < |sndBufList| :: sndBufList[i].buffer
    {
      && Holds(sndBufList, queue)
      && (forall i :: 0 <= i < |sndBufList| ==> sndBufList[i] in bufs)
      && forall i, j :: 0 <= i < j < |sndBufList| ==> sndBufList[i] != sndBufList[j]
    }

    ghost function View(): Conn
      reads this
    {
      Conn(queue, taken, reading, writing, open)
    }

    constructor ()
      ensures Valid() && View() == NEW_CONN && sndBufList == []
    {
      sndBufList, taken, queue, bufs := [], [], [], {};
      reading, writing, open := true, false, true;
    }

    /** Takes `sended` bytes off the first buffer. */
    method TrimFirst(sended: nat)
      requires Valid() && sndBufList != [] && sended < |queue[0]|
      modifies `queue, {sndBufList[0]}`offset, {sndBufList[0]}`len
      ensures Valid() && queue == [old(queue[0])[sended..]] + old(queue)[1..]
    {
      MarkReadContents(sndBufList[0].View(), sended);
      sndBufList[0].MarkRead(sended);
      queue := [queue[0][sended..]] + queue[1..];
    }

    /** One turn of the loop of `markSended`, with the size of the buffer taken
        before it is erased. */
    method SendedTurn(sended: nat) returns (left: nat)
      requires Valid() && sndBufList != [] && 0 < sended
      modifies `sndBufList, `queue, bufs`offset, bufs`len
      ensures Valid() && AfterSending(queue, left) == AfterSending(old(queue), sended)
      ensures (sndBufList == old(sndBufList) && left == 0) || sndBufList == old(sndBufList)[1..]
    {
      var first := sndBufList[0];
      assert first.len == |queue[0]|;
      if sended >= first.len {
        sndBufList, queue := sndBufList[1..], queue[1..];
        left := sended - first.len;
      } else {
        TrimFirst(sended);
        left := 0;
      }
    }

    /** `markSended` */
    method MarkSended(size: nat)
      requires Valid() && 0 < size
      modifies `sndBufList, `queue, bufs`offset, bufs`len
      ensures Valid() && queue == AfterSending(old(queue), size)
    {
      var sended := size;
      while sndBufList != []
        invariant Valid() && 0 < sended
        invariant AfterSending(queue, sended) == AfterSending(old(queue), size)
        invariant bufs == old(bufs)
        decreases |sndBufList|
      {
        sended := SendedTurn(sended);
        if sended == 0 {
          return;
        }
      }
    }

    /** The vectors of the next `writev`. */
    method Gather() returns (iovecs: seq<seq<Byte>>)
      requires Valid()
      ensures iovecs == Offered(queue)
    {
      var vecCount := if |sndBufList| > VEC_MAX then VEC_MAX else |sndBufList|;
      iovecs := [];
      for i := 0 to vecCount
        invariant iovecs == queue[..i]
      {
        var buf := sndBufList[i];
        iovecs := iovecs + [buf.buffer.bytes[buf.offset..buf.offset + buf.len]];
      }
    }

    /** `writev`: the socket takes a first part of what it is offered. */
    method Writev(iovecs: seq<seq<Byte>>, most: nat) returns (sended: nat)
      requires Valid()
      modifies `taken
      ensures Valid() && sended == Min(most, |Concat(iovecs)|)
      ensures taken == old(taken) + Concat(iovecs)[..sended]
    {
      sended := Min(most, |Concat(iovecs)|);
      taken := taken + Concat(iovecs)[..sended];
    }

    /** One `writev` and the marking of what it took. */
    method WriteOnce(most: nat) returns (sended: nat)
      requires Valid()
      modifies `sndBufList, `queue, `taken, bufs`offset, bufs`len
      ensures Valid() && sended == Min(most, |Concat(Offered(old(queue)))|)
      ensures View() == if sended > 0 then Written(old(View()), sended) else old(View())
    {
      var iovecs := Gather();
      sended := Writev(iovecs, most);
      if sended > 0 {
        MarkSended(sended);
      }
    }

    /** `enableWrite` */
    method Block()
      requires Valid()
      modifies `reading, `writing
      ensures Valid() && View() == Blocked(old(View()))
    {
      reading, writing := false, true;
    }

    /** One turn of the loop of `sendInternal`; false when it is the last. */
    method SendTurn(answer: Answer) returns (goOn: bool)
      requires Valid() && sndBufList != []
      modifies `sndBufList, `queue, `taken, `reading, `writing, `open, bufs`offset, bufs`len
      ensures Valid() && goOn == SendGoesOn(old(View()), answer)
      ensures View() == SendOnce(old(View()), answer)
    {
      var sended := WriteOnce(answer.most);
      goOn := sended > 0;
      if !goOn {
        if answer.again {
          Block();
        } else {
          open := false;
        }
      }
    }

    /** `sendInternal` */
    method SendInternal(answers: seq<Answer>)
      requires Valid()
      modifies `sndBufList, `queue, `taken, `reading, `writing, `open, bufs`offset, bufs`len
      ensures Valid() && View() == SendValues.SendInternal(old(View()), answers)
    {
      var todo, goOn := answers, true;
      while goOn && sndBufList != []
        invariant Valid()
        invariant SendValues.SendInternal(old(View()), answers)
          == if goOn then SendValues.SendInternal(View(), todo) else View()
        invariant bufs == old(bufs)
        decreases |todo|, goOn
      {
        if todo == [] {
          Block();
          goOn := false;
        } else {
          goOn := SendTurn(todo[0]);
          todo := todo[1..];
        }
      }
    }

    method Enqueue(datas: seq<VecBuffer>, ghost bytes: seq<seq<Byte>>)
      requires Valid() && Holds(datas, bytes)
      requires forall i, j :: 0 <= i < j < |sndBufList + datas| ==> (sndBufList + datas)[i] != (sndBufList + datas)[j]
      modifies `sndBufList, `queue, `bufs
      ensures Valid() && queue == old(queue) + bytes
      ensures bufs == old(bufs) + set i | 0 <= i < |datas| :: datas[i]
    {
      sndBufList, queue, bufs := sndBufList + datas, queue + bytes, bufs + set i | 0 <= i < |datas| :: datas[i];
    }

    /** The runnable that `sendMultiple` posts; `send` is the list of one. */
    method SendMultiple(datas: seq<VecBuffer>, ghost bytes: seq<seq<Byte>>, answers: seq<Answer>)
      requires Valid() && Holds(datas, bytes)
      requires forall i, j :: 0 <= i < j < |sndBufList + datas| ==> (sndBufList + datas)[i] != (sndBufList + datas)[j]
      modifies this, bufs`offset, bufs`len, datas`offset, datas`len
      ensures Valid() && View() == SendValues.Step(old(View()), Send(bytes, answers))
      ensures bufs == old(bufs) + set i | 0 <= i < |datas| :: datas[i]
    {
      Enqueue(datas, bytes);
      SendInternal(answers);
    }

    /** `handleWrite`, after the watch for it has gone off. */
    method HandleWrite(answers: seq<Answer>)
      requires Valid() && writing
      modifies `sndBufList, `queue, `taken, `reading, `writing, `open, bufs`offset, bufs`len
      ensures Valid() && View() == SendValues.Step(old(View()), Writable(answers))
    {
      writing := false;
      SendInternal(answers);
    }
  }

  // ----- receiving -----

  const PRED_MSG_LEN: nat := 1024
  const PENDING_LEN: nat := 32768

  /** The merge of what `readv` put behind the readable bytes and into the
      pending buffer. */
  function Merge(b: Buf, data: seq<Byte>): Buf
    requires b.Fits()
  {
    var w := b.WrittableSize();
    if |data| > w then
      AppendContents(b, data[..w]);
      Append(Enlarge(Append(b, data[..w]), |data| - w), data[w..])
    else Append(b, data)
  }

  /** The merge as the program has it: the pending bytes are copied behind the
      readable ones and not marked written. */
  function MergeAsWritten(b: Buf, data: seq<Byte>): Buf
    requires b.Fits()
  {
    var w := b.WrittableSize();
    if |data| > w then
      AppendContents(b, data[..w]);
      Append(Enlarge(Append(b, data[..w]), |data| - w), data[w..]).(len := b.len + w)
    else Append(b, data)
  }

  lemma MergeContents(b: Buf, data: seq<Byte>)
    requires b.Fits()
    ensures KeepsPrefix(b, Merge(b, data)) && Merge(b, data).Contents() == b.Contents() + data
    ensures Merge(b, data).offset == b.offset
  {
    var w := b.WrittableSize();
    if |data| > w {
      var b1 := Append(b, data[..w]);
      AppendContents(b, data[..w]);
      GrowContents(b1, |data| - w);
      AppendContents(Enlarge(b1, |data| - w), data[w..]);
      JoinAssociate(b.Contents(), data[..w], data[w..]);
      assert data == data[..w] + data[w..];
      PrefixOfPrefix(b.bytes, b1.bytes, Merge(b, data).bytes, b.offset + b.len);
    } else {
      AppendContents(b, data);
    }
  }

  lemma PrefixOfPrefix(s: seq<Byte>, t: seq<Byte>, u: seq<Byte>, n: nat)
    requires n <= |s| == |t| <= |u| && t[..n] == s[..n] && u[..|t|] == t
    ensures u[..n] == s[..n]
  {}

  /** As it is written, what has been read is received exactly when it fits
      behind the readable bytes. */
  lemma MergeExactly(b: Buf, data: seq<Byte>)
    requires b.Fits()
    ensures MergeAsWritten(b, data).Fits()
    ensures MergeAsWritten(b, data).Contents() == b.Contents() + data <==> |data| <= b.WrittableSize()
  {
    MergeContents(b, data);
  }

  /** Two bytes read into a buffer with room for one: the second is not received. */
  lemma MergeWrong()
    ensures var b := Buf([0], 0, 0);
      b.Fits() && MergeAsWritten(b, [1, 2]).Contents() == [1] && Merge(b, [1, 2]).Contents() == [1, 2]
  {
    var b := Buf([0], 0, 0);
    AppendContents(b, [1]);
    assert [1, 2][..1] == [1] && [1, 2][1..] == [2];
  }

  /** A new buffer when nothing is readable and little is writable. */
  function Renewed(b: Buf): (b': Buf)
    requires b.Fits()
    ensures b'.Fits() && b'.Contents() == b.Contents()
    ensures b'.Contents() == [] ==> b'.WrittableSize() >= 512
    ensures b' != b ==> b.WrittableSize() < 512 && b' == Buf(Zeros(1024), 0, 0)
  {
    if b.len == 0 && 2 * b.WrittableSize() < PRED_MSG_LEN then Buf(Zeros(PRED_MSG_LEN), 0, 0) else b
  }

  /** How much one `readv` has room for. */
  function Room(b: Buf): nat
    requires b.Fits()
  {
    b.WrittableSize() + PENDING_LEN
  }

  /** The buffer after a read of `data` and the `dispatch` after it. */
  function AfterRead(b: Buf, data: seq<Byte>): (b': Buf)
    requires b.Fits()
    ensures b'.Fits()
  {
    MergeContents(Renewed(b), data);
    Dispatched(Merge(Renewed(b), data))
  }

  /** How much a turn of `handleRead` reads of `left` bytes when asked for `size`. */
  function TurnLen(b: Buf, left: nat, size: nat): nat
    requires b.Fits()
  {
    Min(Min(size, Room(Renewed(b))), left)
  }

  /** The loop goes on when the room was filled and no assertion has failed. */
  predicate TurnGoesOn(b: Buf, data: seq<Byte>)
    requires b.Fits()
  {
    |data| == Room(Renewed(b)) && !ParseAll(b.Contents() + data).failed
  }

  /** How much `handleRead` reads. */
  function ReadLen(b: Buf, stream: seq<Byte>, sizes: seq<nat>): (n: nat)
    requires b.Fits()
    ensures n <= |stream|
    decreases sizes
  {
    if sizes == [] then 0 else
      var k := TurnLen(b, |stream|, sizes[0]);
      if TurnGoesOn(b, stream[..k]) then k + ReadLen(AfterRead(b, stream[..k]), stream[k..], sizes[1..]) else k
  }

  class Receiver {
    var rcvBuf: VecBuffer
    /** The messages handed to the user so far, and what they are. */
    var delivered: seq<Delivered>
    ghost var messages: seq<PeerMessage>
    /** Everything that has been read from the socket. */
    ghost var received: seq<Byte>
    /** An assertion has stopped the program. */
    var failed: bool

    /** Every message handed out still has its fields and its content. */
    ghost predicate Valid()
      reads this, rcvBuf, rcvBuf.buffer
      reads (set i | 0 <= i < |delivered| :: delivered[i].buffer)
      reads (set i | 0 <= i < |delivered| :: delivered[i].buffer.buffer)
    {
      rcvBuf.Valid() && AllShow(delivered, messages, rcvBuf)
    }

    /** The messages and the readable bytes are those of one parse of everything read. */
    ghost predicate InStep()
      requires rcvBuf.Valid()
      reads this, rcvBuf, rcvBuf.buffer
    {
      Same(Parsed(messages, rcvBuf.Contents(), failed), ParseAll(received))
    }

    constructor ()
      ensures Valid() && InStep() && !failed && received == [] && delivered == []
      ensures fresh(rcvBuf) && fresh(rcvBuf.buffer) && rcvBuf.View() == Buf(Zeros(1024), 0, 0)
    {
      rcvBuf := new VecBuffer(PRED_MSG_LEN);
      delivered, messages, received, failed := [], [], [], false;
      new;
      assert rcvBuf.Contents() == [];
    }

    /** Takes a new buffer when nothing is readable and little is writable. */
    method Renew()
      requires Valid()
      modifies `rcvBuf
      ensures Valid() && rcvBuf.View() == Renewed(old(rcvBuf.View()))
      ensures rcvBuf == old(rcvBuf) || (fresh(rcvBuf) && fresh(rcvBuf.buffer))
    {
      if rcvBuf.len == 0 && 2 * (|rcvBuf.buffer.bytes| - rcvBuf.offset) < PRED_MSG_LEN {
        rcvBuf := new VecBuffer(PRED_MSG_LEN);
      }
    }

    method MergeBytes(data: seq<Byte>)
      requires rcvBuf.Valid()
      modifies rcvBuf`len, rcvBuf.buffer
      ensures rcvBuf.Valid() && rcvBuf.View() == Merge(old(rcvBuf.View()), data)
    {
      var w := |rcvBuf.buffer.bytes| - rcvBuf.offset - rcvBuf.len;
      if |data| > w {
        rcvBuf.Append(data[..w]);
        rcvBuf.Enlarge(|data| - w);
        rcvBuf.Append(data[w..]);
      } else {
        rcvBuf.Append(data);
      }
    }

    /** Merges what `readv` has read; the messages keep their content. */
    method MergeRead(data: seq<Byte>)
      requires Valid()
      modifies rcvBuf`len, rcvBuf.buffer
      ensures Valid() && rcvBuf.Contents() == old(rcvBuf.Contents()) + data
      ensures rcvBuf.View() == Merge(old(rcvBuf.View()), data)
    {
      ghost var b, b' := rcvBuf.View(), Merge(rcvBuf.View(), data);
      ghost var n := b.offset + b.len;
      assert n <= |b'.bytes| && b'.bytes[..n] == b.bytes[..n] by {
        MergeContents(b, data);
      }
      assert b'.offset == b.offset <= n && b'.Fits() && b'.Contents() == b.Contents() + data by {
        MergeContents(b, data);
      }
      MergeBytes(data);
      forall i | 0 <= i < |delivered|
        ensures Shows(delivered[i], messages[i])
      {
        if delivered[i].buffer.buffer == rcvBuf.buffer {
          PieceOfPrefix(b.bytes, b'.bytes, n, delivered[i].buffer.offset, delivered[i].buffer.len);
        }
      }
    }

    /** Hands out the messages of one `dispatch` after `data` has been read. */
    method HandOut(ds: seq<Delivered>, ghost ms: seq<PeerMessage>, stopped: bool, ghost data: seq<Byte>)
      requires rcvBuf.Valid() && AllShow(delivered + ds, messages + ms, rcvBuf)
      modifies `delivered, `messages, `received, `failed
      ensures Valid() && delivered == old(delivered) + ds && messages == old(messages) + ms
      ensures failed == stopped && received == old(received) + data
    {
      delivered, messages, failed, received := delivered + ds, messages + ms, stopped, received + data;
    }

    /** The `dispatch` of the message handler after `data` has been read. */
    method DispatchAll(ghost data: seq<Byte>)
      requires Valid()
      modifies `delivered, `messages, `received, `failed, rcvBuf`offset, rcvBuf`len, rcvBuf.buffer
      ensures Valid() && old(delivered) <= delivered && received == old(received) + data
      ensures var p := ParseAll(old(rcvBuf.Contents()));
        && messages == old(messages) + p.msgs && failed == p.failed
        && (!failed ==> rcvBuf.Contents() == p.left && rcvBuf.View() == Dispatched(old(rcvBuf.View())))
    {
      ghost var ms := ParseAll(rcvBuf.Contents()).msgs;
      var ds, stopped := Dispatch(rcvBuf, delivered, messages);
      HandOut(ds, ms, stopped, data);
    }

    /** One read and the `dispatch` after it. */
    method ReadMore(data: seq<Byte>)
      requires Valid() && InStep() && !failed
      modifies `delivered, `messages, `received, `failed, rcvBuf`offset, rcvBuf`len, rcvBuf.buffer
      ensures Valid() && InStep() && received == old(received) + data && old(delivered) <= delivered
      ensures failed == ParseAll(old(rcvBuf.Contents()) + data).failed
      ensures !failed ==>
        var m := Merge(old(rcvBuf.View()), data); m.Fits() && rcvBuf.View() == Dispatched(m)
    {
      ParseMore(received, data, messages, rcvBuf.Contents());
      MergeRead(data);
      DispatchAll(data);
    }

    /** How much a `readv` gives of `left` bytes, and whether that is all there
        was room for. */
    method Readv(size: nat, left: nat) returns (readed: nat, full: bool)
      requires rcvBuf.Valid()
      ensures readed == Min(Min(size, Room(rcvBuf.View())), left) && full == (readed == Room(rcvBuf.View()))
    {
      var readCap := |rcvBuf.buffer.bytes| - rcvBuf.offset - rcvBuf.len + PENDING_LEN;
      readed := Min(Min(size, readCap), left);
      full := readed == readCap;
    }

    /** One turn of the loop of `handleRead`, with a socket that gives at most
        `size` of the bytes it has from `n` on. */
    method ReadTurn(stream: seq<Byte>, n: nat, size: nat) returns (m: nat, full: bool)
      requires Valid() && InStep() && !failed && n <= |stream|
      modifies `rcvBuf, `delivered, `messages, `received, `failed, rcvBuf`offset, rcvBuf`len, rcvBuf.buffer
      ensures Valid() && InStep() && n <= m <= |stream| && old(delivered) <= delivered
      ensures received == old(received) + stream[n..m]
      ensures rcvBuf == old(rcvBuf) || fresh(rcvBuf)
      ensures rcvBuf.buffer == old(rcvBuf.buffer) || fresh(rcvBuf.buffer)
      ensures m == n + TurnLen(old(rcvBuf.View()), |stream| - n, size)
      ensures full && !failed <==> TurnGoesOn(old(rcvBuf.View()), stream[n..m])
      ensures full && !failed ==> rcvBuf.View() == AfterRead(old(rcvBuf.View()), stream[n..m])
      ensures (full ==> m >= n + 32768) && (size >= |stream| && !full ==> m == |stream|)
    {
      Renew();
      var readed;
      readed, full := Readv(size, |stream| - n);
      m := n + readed;
      if readed > 0 {
        ReadMore(stream[n..m]);
      }
    }

    /**
     `handleRead`: reads what the socket has (`stream`) in pieces of the sizes
     it chooses, until it has no more or gives less than there was room for,
     with a `dispatch` after each. Whatever the sizes, the messages are those of
     one parse of all bytes read, and messages delivered before keep their
     content. How much is read is what the sizes and the room of the buffer say:
     at least what the first answer gives, up to the pending buffer; and a socket
     that holds nothing back is emptied in as many turns as fill that buffer.
     */
    method HandleRead(stream: seq<Byte>, sizes: seq<nat>) returns (n: nat)
      requires Valid() && InStep() && !failed
      modifies `rcvBuf, `delivered, `messages, `received, `failed, rcvBuf`offset, rcvBuf`len, rcvBuf.buffer
      ensures Valid() && InStep() && n <= |stream| && old(delivered) <= delivered
      ensures received == old(received) + stream[..n]
      ensures n == ReadLen(old(rcvBuf.View()), stream, sizes)
      ensures |sizes| > 0 ==> n >= Min(Min(sizes[0], |stream|), 32768)
      ensures 32768 * |sizes| >= |stream| && GivesAll(stream, sizes) ==> failed || n == |stream|
    {
      ghost var b0, greedy := rcvBuf.View(), GivesAll(stream, sizes);
      if sizes != [] { ReadLenAtLeast(b0, stream, sizes); }
      var i, full := 0, true;
      n := 0;
      while i < |sizes| && full && !failed
        invariant Valid() && InStep() && n <= |stream| && old(delivered) <= delivered
        invariant received == old(received) + stream[..n]
        invariant rcvBuf == old(rcvBuf) || fresh(rcvBuf)
        invariant rcvBuf.buffer == old(rcvBuf.buffer) || fresh(rcvBuf.buffer)
        invariant i <= |sizes| && (full ==> 32768 * i <= n) && (greedy && !full ==> n == |stream|)
        invariant ReadLen(b0, stream, sizes)
                  == if full && !failed then n + ReadLen(rcvBuf.View(), stream[n..], sizes[i..]) else n
      {
        ghost var b := rcvBuf.View();
        var m;
        m, full := ReadTurn(stream, n, sizes[i]);
        ReadLenTurn(b, stream, sizes, n, i, m);
        StreamSoFar(old(received), stream, n, m);
        n, i := m, i + 1;
      }
    }
  }

  /** The socket holds nothing back. */
  predicate GivesAll(stream: seq<Byte>, sizes: seq<nat>) {
    forall i :: 0 <= i < |sizes| ==> sizes[i] >= |stream|
  }

  /** What the first answer gives is read, at least up to the pending buffer. */
  lemma ReadLenAtLeast(b: Buf, stream: seq<Byte>, sizes: seq<nat>)
    requires b.Fits() && sizes != []
    ensures ReadLen(b, stream, sizes) >= Min(Min(sizes[0], |stream|), 32768)
  {}

  /** One turn of what is read, from byte `n` and answer `i` on. */
  lemma ReadLenTurn(b: Buf, stream: seq<Byte>, sizes: seq<nat>, n: nat, i: nat, m: nat)
    requires b.Fits() && i < |sizes| && n <= |stream|
    requires m == n + TurnLen(b, |stream| - n, sizes[i])
    ensures n + ReadLen(b, stream[n..], sizes[i..]) ==
      if TurnGoesOn(b, stream[n..m]) then m + ReadLen(AfterRead(b, stream[n..m]), stream[m..], sizes[i + 1..]) else m
  {
    var k := m - n;
    assert stream[n..][..k] == stream[n..m] && stream[n..][k..] == stream[m..];
    assert sizes[i..][0] == sizes[i] && sizes[i..][1..] == sizes[i + 1..];
  }

  /** Parsing goes on from what is left. */
  lemma ParseMore(received: seq<Byte>, data: seq<Byte>, ms: seq<PeerMessage>, left: seq<Byte>)
    requires Same(Parsed(ms, left, false), ParseAll(received))
    ensures var p := ParseAll(left + data);
      Same(Parsed(ms + p.msgs, p.left, p.failed), ParseAll(received + data))
  {
    ParseInTwo(received, data);
  }

  lemma StreamSoFar(s: seq<Byte>, stream: seq<Byte>, n: nat, m: nat)
    requires n <= m <= |stream|
    ensures (s + stream[..n]) + stream[n..m] == s + stream[..m]
  {}

  lemma PieceOfPrefix(s: seq<Byte>, s': seq<Byte>, n: nat, offset: nat, len: nat)
    requires n <= |s| && n <= |s'| && s'[..n] == s[..n] && offset + len <= n
    ensures s'[offset..offset + len] == s[offset..offset + len]
  {
    assert s[offset..offset + len] == s[..n][offset..offset + len];
    assert s'[offset..offset + len] == s'[..n][offset..offset + len];
  }

  /** The buffers hold these bytes. */
  ghost predicate Holds(bufs: seq<VecBuffer>, q: seq<seq<Byte>>)
    reads bufs, set i | 0 <= i < |bufs| :: bufs[i].buffer
  {
    |bufs| == |q| && forall i :: 0 <= i < |bufs| ==> bufs[i].Valid() && bufs[i].Contents() == q[i]
  }
}
