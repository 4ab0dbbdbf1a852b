/** From the send queue of one peer to the messages of the other. */
module PeerToPeer {
  import opened BufferValues
  import opened FieldLenNetPack
  import SendValues
  import opened Sequences

  /**
   A peer enqueues the frames of `ms` in any buffers, its socket takes what it
   likes of them, and the other side receives what was taken in any chunks: the
   messages delivered are the first ones of `ms`, no assertion fails, and when
   the queue has emptied all have been delivered and no byte is left over.
   */
  lemma {:induction false} DeliveredInOrder(ms: seq<PeerMessage>, es: seq<SendValues.Event>, chunks: seq<seq<Byte>>)
    requires forall i :: 0 <= i < |ms| ==> InRange(ms[i]) && 1 <= |ms[i].content| <= 32755
    requires SendValues.Enqueued(es) == WriteAll(ms)
    requires Concat(chunks) == SendValues.Run(SendValues.NEW_CONN, es).taken
    ensures var got := FeedAll(Parsed([], [], false), chunks);
      && !got.failed && got.msgs <= ms
      && (Concat(SendValues.Run(SendValues.NEW_CONN, es).queue) == [] ==> got == Parsed(ms, [], false))
  {
    var c := SendValues.Run(SendValues.NEW_CONN, es);
    var rest := Concat(c.queue);
    SendValues.SendQueueConserves(es);
    ListReadBack(ms);
    ParseInTwo(c.taken, rest);
    ChunkingDoesNotMatter(chunks);
    if rest == [] {
      assert c.taken + rest == c.taken;
    }
  }
}
