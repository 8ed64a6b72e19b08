/** Buffered socket output: socketWrite and socketFlush over a network that may take part
    of the data, ask to come back later, be interrupted or fail. */
module SockOut {
  import opened Option
  import opened Ringq

  /** One answer of send: how much it is ready to take (none means would-block), or an error. */
  datatype Send = Takes(n: nat) | Interrupted | WouldBlock | Failed

  /** What one call of send led to. */
  datatype Attempt = Progress | Retry | Later | Error

  datatype Event = Readable | Writable | Exception

  lemma SentMore(absorbed: seq<char>, sent: seq<char>, queued: seq<char>, n: nat, rest: seq<char>)
    requires absorbed == sent + queued && n <= |queued| && rest == queued[n..]
    ensures absorbed == (sent + queued[..n]) + rest
  {
  }

  class OutSocket {
    const outBuf: Ring
    const block: bool
    var flushing: bool
    var handlerMask: set<Event>
    var saveMask: Option<set<Event>>
    var net: seq<Send>            // the answers send will give, in order
    ghost var absorbed: seq<char> // everything socketWrite has accepted
    ghost var sent: seq<char>     // everything send has taken

    /** What has been accepted is what has been sent and then what is still buffered. */
    ghost predicate Valid()
      reads this, outBuf, outBuf.buf
    {
      outBuf.Valid() && outBuf.buf.Length >= 2 && absorbed == sent + outBuf.Contents()
    }

    /** The events the user asked for, also while the mask is borrowed for flushing. */
    function UserMask(): set<Event>
      reads this
    {
      if saveMask.Some? then saveMask.value else handlerMask
    }

    /** A socket with output buffer size `bufsiz`. */
    constructor (bufsiz: nat, block: bool, handlerMask: set<Event>, net: seq<Send>)
      ensures Valid() && fresh(outBuf) && fresh(outBuf.buf) && absorbed == sent == [] && this.net == net
    {
      var q := new Ring(bufsiz + 1, bufsiz + 1);
      outBuf := q;
      this.block, this.handlerMask, this.net := block, handlerMask, net;
      flushing, saveMask, absorbed, sent := false, None, [], [];
    }

    /** send: the network takes the bytes its answer says off the front of those it is given. */
    method Send(bytes: seq<char>) returns (answer: Send)
      requires net != []
      modifies this`net, this`sent
      ensures answer == old(net)[0] && net == old(net)[1..]
      ensures match answer
              case Takes(n) => sent == old(sent) + if n < |bytes| then bytes[..n] else bytes
              case _ => sent == old(sent)
    {
      answer := net[0];
      net := net[1..];
      if answer.Takes? {
        sent := sent + bytes[..Min(answer.n, |bytes|)];
      }
    }

    /** socketDoOutput on the straight part of the queue: what send has taken leaves the queue. */
    method DoOutput() returns (r: Attempt)
      requires Valid() && outBuf.Len() > 0 && net != []
      modifies this`net, this`sent, outBuf`servp
      ensures Valid() && net == old(net)[1..]
      ensures old(net)[0].Takes? ==>
                var n, len := old(net)[0].n, old(outBuf.GetBlkMax());
                var k := if n < len then n else len;
                sent == old(sent) + old(outBuf.Contents())[..k] && outBuf.Contents() == old(outBuf.Contents())[k..]
      ensures r == match old(net)[0]
                   case Takes(n) => if n == 0 then Later else Progress
                   case Interrupted => Retry
                   case WouldBlock => Later
                   case Failed => Error
      ensures r != Progress ==> sent == old(sent) && outBuf.servp == old(outBuf.servp)
    {
      var len := outBuf.GetBlkMax();
      ghost var queued := outBuf.Contents();
      assert outBuf.buf[outBuf.servp..outBuf.servp + len] == queued[..len];
      var answer := Send(outBuf.buf[outBuf.servp..outBuf.servp + len]);
      match answer
      case Takes(n) =>
        if n == 0 { return Later; }
        var bytes := Min(n, len);
        assert queued[..len][..bytes] == queued[..bytes];
        outBuf.GetBlkAdj(bytes);
        SentMore(absorbed, old(sent), queued, bytes, outBuf.Contents());
        return Progress;
      case Interrupted => return Retry;
      case WouldBlock => return Later;
      case Failed => return Error;
    }

    /** socketFlush: 0 when everything went out or the rest has to wait; -1 on an error. What
        is waiting stays queued in order, and the user's event mask survives. */
    method Flush() returns (rc: int)
      requires Valid()
      modifies this`flushing, this`handlerMask, this`saveMask, this`net, this`sent
      modifies outBuf`servp, outBuf`endp, outBuf.buf
      ensures Valid() && rc in {0, -1} && UserMask() == old(UserMask())
      ensures old(sent) <= sent && |net| <= |old(net)|
      ensures old(outBuf.Contents()) != [] && rc == 0 ==> |net| < |old(net)|
      ensures rc == 0 && outBuf.Contents() == [] ==> !flushing && saveMask == None && outBuf.servp == 0
      ensures rc == 0 && outBuf.Contents() != [] ==> saveMask.Some?
    {
      if !block {
        flushing := true;
      }
      while outBuf.Len() > 0
        invariant Valid() && old(sent) <= sent && |net| <= |old(net)|
        invariant |net| == |old(net)| ==> outBuf.Contents() == old(outBuf.Contents())
        invariant saveMask == old(saveMask) && handlerMask == old(handlerMask)
        decreases |net|
      {
        if net == [] {
          return -1;
        }
        ghost var before := sent;
        var r := DoOutput();
        PrefixTransitive(old(sent), before, sent);
        if r == Error {
          return -1;
        }
        if r == Later {
          AwaitWritable();
          return 0;
        }
      }
      FlushDone();
      return 0;
    }

    /** The rest has to wait until the socket is writable; the user's mask is kept aside. */
    method AwaitWritable()
      requires Valid()
      modifies this`handlerMask, this`saveMask
      ensures Valid() && saveMask.Some? && UserMask() == old(UserMask())
    {
      if saveMask.None? {
        saveMask := Some(handlerMask);
        handlerMask := handlerMask + {Writable};
      }
    }

    /** Everything went out; the user's mask is put back. */
    method FlushDone()
      requires Valid() && outBuf.Contents() == []
      modifies this`flushing, this`handlerMask, this`saveMask, outBuf`servp, outBuf`endp, outBuf.buf
      ensures Valid() && outBuf.Contents() == [] && outBuf.servp == 0
      ensures !flushing && saveMask == None && UserMask() == old(UserMask())
    {
      outBuf.Flush();
      if saveMask.Some? {
        handlerMask := saveMask.value;
        saveMask := None;
      }
      flushing := false;
    }

    /** Append a piece that fits. */
    method Absorb(piece: seq<char>)
      requires Valid() && |piece| <= outBuf.PutBlkMax()
      modifies this`absorbed, outBuf`endp, outBuf.buf
      ensures Valid() && absorbed == old(absorbed) + piece
    {
      ghost var queued := outBuf.Contents();
      outBuf.PutLine(piece);
      absorbed := absorbed + piece;
      assert absorbed == sent + (queued + piece);
    }

    /** socketWrite: the number of bytes absorbed, or -1. Accepted bytes are neither lost,
        repeated nor reordered. */
    method Write(data: seq<char>) returns (rc: int)
      requires Valid()
      modifies this, outBuf`servp, outBuf`endp, outBuf.buf
      ensures Valid() && UserMask() == old(UserMask())
      ensures old(sent) <= sent && -1 <= rc <= |data|
      ensures rc >= 0 ==> absorbed == old(absorbed) + data[..rc]
      ensures rc == -1 ==> exists k :: 0 <= k <= |data| && absorbed == old(absorbed) + data[..k]
      ensures 0 <= rc < |data| ==> !block && outBuf.PutBlkMax() == 0
    {
      var n := 0;
      while n < |data|
        invariant Valid() && 0 <= n <= |data| && UserMask() == old(UserMask())
        invariant old(sent) <= sent
        invariant absorbed == old(absorbed) + data[..n]
        decreases |data| - n + |net|
      {
        var room := outBuf.PutBlkMax();
        if room == 0 {
          ghost var before := sent;
          assert outBuf.Contents() != [];
          var f := Flush();
          PrefixTransitive(old(sent), before, sent);
          if f < 0 {
            return -1;
          }
          if outBuf.PutBlkMax() == 0 && !block {
            break;
          }
          continue;
        }
        var len := Min(room, |data| - n);
        AppendPart(old(absorbed), data, n, len);
        Absorb(data[n..n + len]);
        n := n + len;
      }
      return n;
    }
  }

  /** A caller's step: hand over data or push out what is waiting. */
  datatype Call = DoWrite(data: seq<char>) | DoFlush

  /** Over any run of calls and any behaviour of the network, accepted bytes equal sent
      bytes followed by queued bytes. */
  method Run(s: OutSocket, calls: seq<Call>)
    requires s.Valid()
    modifies s, s.outBuf, s.outBuf.buf
    ensures s.Valid() && s.absorbed == s.sent + s.outBuf.Contents()
    ensures old(s.sent) <= s.sent && old(s.absorbed) <= s.absorbed
  {
    for i := 0 to |calls|
      invariant s.Valid() && s.outBuf.buf == old(s.outBuf.buf) && old(s.sent) <= s.sent && old(s.absorbed) <= s.absorbed
    {
      match calls[i]
      case DoWrite(data) => var rc := s.Write(data);
      case DoFlush => var rc := s.Flush();
    }
  }
}
