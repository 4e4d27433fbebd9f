/**
 The two ends of an RTSP connection (src/shared/rtsp.c) put together: the sending
 queue, a stream that hands its bytes over in any pieces, and the parser object.
 */
module RtspLink {
  import opened RtspAutomaton
  import opened RtspFraming
  import P = RtspParser
  import W = RtspSender
  import R = Ring

  /**
   For any run of the sender and any way in which the stream cuts what was sent, the
   parser object has delivered exactly the messages sent, in order, and the first
   queued one exactly if enough of it was sent. It can only fail for want of a buffer
   for a single message.
   */
  method Transfer(events: seq<W.Event>, chunks: seq<seq<char>>) returns (d: P.Decoder, r: P.Result)
    requires forall e :: e in events && e.Call? ==> Sendable(e.m)
    requires Flatten(chunks) == W.Run(events).wire
    requires forall c :: c in chunks ==> |c| < R.SIZE_LIMIT
    ensures r == P.Ok || (r == P.NoMemory && P.TooLong(chunks))
    ensures r == P.Ok ==>
      var s := W.Run(events);
      && d.out == ReceivedAll(s.done) + W.HeadDelivered(s.queue)
      && (W.Partial(s.queue) == [] ==> d.state == New && d.lines == [])
  {
    hide Feed, Flatten, W.Run, Sendable;
    W.EndToEnd(events);
    d, r := P.Receive(chunks);
  }
}
