/** Buffered socket input: socketRead and socketGets over a network that delivers bytes in
    arbitrary portions, with would-blocks, errors and end of file in between. */
module SockIn {
  import opened Seqs
  import opened Ringq

  const E_MAX_REQUEST: nat := 2048

  /** One answer of recv. A portion larger than the room is delivered in parts; end of file
      stays end of file. */
  datatype Recv = Data(bytes: seq<char>) | WouldBlock | Failed | Eof

  // ----- what the line reader does with a byte stream

  /** Complete lines and the line being collected. */
  datatype Lines = Lines(done: seq<seq<char>>, partial: seq<char>)

  /** One byte: a newline, or any byte once the line is over-long, ends the line; carriage
      returns are dropped. */
  function Step(l: Lines, c: char): Lines {
    if c == '\n' || |l.partial| > E_MAX_REQUEST then Lines(l.done + [l.partial], [])
    else if c == '\r' then l
    else Lines(l.done, l.partial + [c])
  }

  function Scan(s: seq<char>): Lines {
    if s == [] then Lines([], []) else Step(Scan(s[..|s| - 1]), s[|s| - 1])
  }

  /** End of file ends a line that has begun. */
  function Final(l: Lines): seq<seq<char>> {
    if l.partial == [] then l.done else l.done + [l.partial]
  }

  // ----- the same by splitting

  function DropCr(s: seq<char>): seq<char> {
    if s == [] then []
    else DropCr(s[..|s| - 1]) + if s[|s| - 1] == '\r' then [] else [s[|s| - 1]]
  }

  /** The segments between newlines; always at least one. */
  function Split(s: seq<char>): (r: seq<seq<char>>)
    ensures |r| >= 1
  {
    if s == [] then [[]]
    else
      var r := Split(s[..|s| - 1]);
      var n := |r| - 1;
      if s[|s| - 1] == '\n' then r + [[]] else r[n := r[n] + [s[|s| - 1]]]
  }

  function StripAll(segs: seq<seq<char>>): (r: seq<seq<char>>)
    ensures |r| == |segs| && forall i :: 0 <= i < |segs| ==> r[i] == DropCr(segs[i])
  {
    seq(|segs|, i requires 0 <= i < |segs| => DropCr(segs[i]))
  }

  ghost predicate ShortLines(s: seq<char>) {
    forall i :: 0 <= i < |Split(s)| ==> |DropCr(Split(s)[i])| <= E_MAX_REQUEST
  }

  lemma ShortPrefix(s: seq<char>)
    requires s != [] && ShortLines(s)
    ensures ShortLines(s[..|s| - 1])
  {
    var p := Split(s[..|s| - 1]);
    var n := |p| - 1;
    forall i | 0 <= i < |p|
      ensures |DropCr(p[i])| <= E_MAX_REQUEST
    {
      if s[|s| - 1] == '\n' {
        assert Split(s)[i] == p[i];
      } else if i < n {
        assert Split(s)[i] == p[i];
      } else {
        var x := p[n] + [s[|s| - 1]];
        assert Split(s)[n] == x && x[..|x| - 1] == p[n];
        assert |DropCr(p[n])| <= |DropCr(x)|;
      }
    }
  }

  /** With no over-long line the reader's lines are the newline-separated segments without
      carriage returns. */
  lemma {:induction false} ScanIsSplit(s: seq<char>)
    requires ShortLines(s)
    ensures var segs := StripAll(Split(s));
            Scan(s) == Lines(segs[..|segs| - 1], segs[|segs| - 1])
    decreases |s|
  {
    if s == [] {
      assert StripAll([[]])[..0] == [];
    } else {
      ShortPrefix(s);
      var p, c := s[..|s| - 1], s[|s| - 1];
      ScanIsSplit(p);
      var r := Split(p);
      assert |DropCr(r[|r| - 1])| <= E_MAX_REQUEST;
      if c == '\n' { StripNewline(r); } else { StripOther(r, |r| - 1, c); }
    }
  }

  lemma StripNewline(r: seq<seq<char>>)
    requires |r| > 0
    ensures StripAll(r + [[]])[..|r|] == StripAll(r)[..|r| - 1] + [DropCr(r[|r| - 1])]
    ensures StripAll(r + [[]])[|r|] == []
  {
  }

  lemma StripOther(r: seq<seq<char>>, n: nat, c: char)
    requires |r| == n + 1
    ensures var r' := StripAll(r[n := r[n] + [c]]);
            r'[..n] == StripAll(r)[..n] && r'[n] == DropCr(r[n]) + (if c == '\r' then [] else [c])
  {
    var x := r[n] + [c];
    assert x[..|x| - 1] == r[n];
  }

  /** The segments with a newline between each two. */
  function Rejoined(segs: seq<seq<char>>): seq<char>
    requires segs != []
  {
    var n := |segs| - 1;
    if n == 0 then segs[0] else Rejoined(segs[..n]) + ['\n'] + segs[n]
  }

  /** Splitting cuts at every newline and loses nothing else. */
  lemma {:induction false} SplitIs(s: seq<char>)
    ensures Rejoined(Split(s)) == s
    ensures forall i :: 0 <= i < |Split(s)| ==> '\n' !in Split(s)[i]
    decreases |s|
  {
    if s != [] {
      var p, c := s[..|s| - 1], s[|s| - 1];
      var r := Split(p);
      var n := |r| - 1;
      SplitIs(p);
      if c == '\n' {
        assert (r + [[]])[..n + 1] == r;
        assert Rejoined(r + [[]]) == p + ['\n'] + [];
      } else {
        assert r[n := r[n] + [c]][..n] == r[..n];
        assert s == p + [c];
      }
    }
  }

  /** Exactly the carriage returns go. */
  lemma {:induction false} DropCrIs(s: seq<char>)
    ensures '\r' !in DropCr(s) && ('\r' !in s ==> DropCr(s) == s)
  {
    if s != [] {
      var n := |s| - 1;
      DropCrIs(s[..n]);
      DropCrMore(s[..n], s[n]);
      assert s == s[..n] + [s[n]];
    }
  }

  lemma {:induction false} DropCrJoins(a: seq<char>, b: seq<char>)
    ensures DropCr(a + b) == DropCr(a) + DropCr(b)
    decreases |b|
  {
    if b == [] {
      assert a + b == a;
    } else {
      var n := |b| - 1;
      var x := if b[n] == '\r' then [] else [b[n]];
      DropCrJoins(a, b[..n]);
      DropCrMore(a + b[..n], b[n]);
      assert a + b == (a + b[..n]) + [b[n]];
      Assoc(DropCr(a), DropCr(b[..n]), x);
    }
  }

  lemma DropCrMore(s: seq<char>, c: char)
    ensures DropCr(s + [c]) == DropCr(s) + if c == '\r' then [] else [c]
  {
    assert (s + [c])[..|s|] == s;
  }

  lemma {:induction false} OneLine(s: seq<char>)
    requires '\n' !in s && '\r' !in s && |s| <= 2049
    ensures Scan(s) == Lines([], s)
    decreases |s|
  {
    if s != [] {
      OneLine(s[..|s| - 1]);
      assert s == s[..|s| - 1] + [s[|s| - 1]];
    }
  }

  /** A line of 2049 characters is ended by the next character, whichever it is, and that
      character is lost. */
  lemma LongLine(s: seq<char>, c: char)
    requires '\n' !in s && '\r' !in s && |s| == 2049
    ensures Scan(s + [c]) == Lines([s], [])
  {
    OneLine(s);
    assert (s + [c])[..|s|] == s;
    assert [] + [s] == [s];
  }

  /** How a read goes on after asking the network. */
  datatype Next = Ready | Again | Stop(rc: int)

  /** Bytes the network still holds. */
  function Weight(net: seq<Recv>): nat {
    if net == [] then 0 else (if net[0].Data? then |net[0].bytes| else 0) + Weight(net[1..])
  }

  /** What a network with these answers delivers: the bytes in order, up to end of file. */
  function Stream(net: seq<Recv>): seq<char> {
    if net == [] then []
    else
      match net[0]
      case Data(bytes) => if bytes == [] then [] else bytes + Stream(net[1..])
      case Eof => []
      case _ => Stream(net[1..])
  }

  /** A portion of which only the first part has room: the rest stays in the network. */
  lemma StreamParts(received: seq<char>, net: seq<Recv>, len: nat)
    requires net != [] && net[0].Data? && 0 < len <= |net[0].bytes|
    ensures var left := if len < |net[0].bytes| then [Data(net[0].bytes[len..])] + net[1..] else net[1..];
            received + net[0].bytes[..len] + Stream(left) == received + Stream(net)
  {
    var bytes, more := net[0].bytes, net[1..];
    var rest := bytes[len..];
    assert bytes == bytes[..len] + rest;
    Assoc(bytes[..len], rest, Stream(more));
    if rest != [] {
      assert ([Data(rest)] + more)[1..] == more;
      Assoc(received, bytes[..len], rest + Stream(more));
    } else {
      assert bytes[..len] == bytes;
      Assoc(received, bytes, Stream(more));
    }
  }

  lemma Handed(received: seq<char>, taken: seq<char>, all: seq<char>, bytes: seq<char>, rest: seq<char>)
    requires received == taken + all && |bytes| <= |all| && bytes == all[..|bytes|] && rest == all[|bytes|..]
    ensures received == (taken + bytes) + rest
  {
  }

  /** The last byte taken ended a line behind the given ones. */
  ghost predicate LastEnded(taken: seq<char>, lines: seq<seq<char>>) {
    taken != [] && Scan(taken[..|taken| - 1]).done == lines
  }

  class InSocket {
    const inBuf: Ring
    const lineBuf: Ring
    const block: bool
    var eof: bool
    var net: seq<Recv>                 // the answers recv will give, in order
    ghost const stream: seq<char>      // everything recv will have delivered in the end
    ghost var received: seq<char>      // what it has delivered so far
    ghost var taken: seq<char>         // everything handed to readers
    ghost var lines: seq<seq<char>>    // every line socketGets has returned
    ghost var ended: bool              // a line was ended by end of file

    /** Received bytes are the first of the network's stream, all of it at end of file, and they
        are the bytes handed out and then the bytes buffered. */
    ghost predicate Valid()
      reads this, inBuf, inBuf.buf, lineBuf, lineBuf.buf
    {
      Buffered() && received + Stream(net) == stream && (eof ==> Stream(net) == [])
    }

    /** The bytes received are handed out or buffered; neither buffer ever wraps. */
    ghost predicate Buffered()
      reads this, inBuf, inBuf.buf, lineBuf, lineBuf.buf
    {
      && inBuf != lineBuf && inBuf.buf != lineBuf.buf
      && inBuf.Valid() && inBuf.buf.Length >= 2 && inBuf.servp <= inBuf.endp
      && lineBuf.Valid() && lineBuf.servp == 0 && lineBuf.maxsize < 0
      && received == taken + inBuf.Contents()
      && (eof ==> inBuf.Contents() == [])
      && (ended ==> eof)
    }

    /** The lines returned are those of the bytes handed out, and the line buffer holds the
        line being collected. */
    ghost predicate LinesOk()
      requires Valid()
      reads this, inBuf, inBuf.buf, lineBuf, lineBuf.buf
    {
      if ended then lines == Final(Scan(taken)) && lineBuf.Contents() == []
      else Scan(taken) == Lines(lines, lineBuf.Contents())
    }

    /** Bytes not yet handed to a reader, here or in the network. */
    ghost function Avail(): nat
      requires inBuf.Valid()
      reads this, inBuf
    {
      Weight(net) + inBuf.Len()
    }

    constructor (bufsiz: nat, block: bool, net: seq<Recv>)
      ensures Valid() && LinesOk() && fresh(inBuf) && fresh(lineBuf) && fresh(inBuf.buf) && fresh(lineBuf.buf)
      ensures received == taken == [] && lines == [] && this.net == net && !eof && stream == Stream(net)
    {
      var a := new Ring(bufsiz, bufsiz);
      var b := new Ring(bufsiz, -1);
      inBuf, lineBuf := a, b;
      this.block, this.net := block, net;
      stream := Stream(net);
      eof, received, taken, lines, ended := false, [], [], [], false;
    }

    /** Bytes from recv into the flushed input buffer. */
    method Deliver(bytes: seq<char>)
      requires Buffered() && inBuf.Contents() == [] && inBuf.endp == 0 && |bytes| <= inBuf.PutBlkMax() && !eof
      modifies this`received, inBuf`endp, inBuf.buf
      ensures Buffered() && received == old(received) + bytes && inBuf.Contents() == bytes
    {
      inBuf.CopyIn(bytes);
      inBuf.PutBlkAdj(|bytes|);
      received := received + bytes;
      assert inBuf.Contents() == bytes;
    }

    /** socketGetInput into the emptied input buffer: the number of bytes, 0 at end of file,
        -1 for an error and whether that was would-block. */
    method GetInput() returns (len: int, wouldBlock: bool)
      requires Valid() && inBuf.Contents() == [] && !eof
      modifies this`net, this`received, inBuf`servp, inBuf`endp, inBuf.buf
      ensures Valid() && -1 <= len
      ensures received == old(received) + inBuf.Contents() && |inBuf.Contents()| == (if len > 0 then len else 0)
      ensures received + Stream(net) == old(received) + Stream(old(net))
      ensures len == 0 ==> Stream(net) == []
      ensures wouldBlock ==> len == -1 && |net| < |old(net)|
      ensures Avail() <= old(Avail())
    {
      inBuf.Flush();
      if net == [] {
        return -1, false;
      }
      var answer := net[0];
      if answer.Eof? || (answer.Data? && answer.bytes == []) {
        return 0, false;
      }
      ghost var was := net;
      net := net[1..];
      if answer.Data? {
        len := Min(inBuf.PutBlkMax(), |answer.bytes|);
        StreamParts(received, was, len);
        if len < |answer.bytes| {
          ghost var rest := net;
          net := [Data(answer.bytes[len..])] + net;
          assert net[1..] == rest;
        }
        Deliver(answer.bytes[..len]);
        return len, false;
      }
      return -1, answer.WouldBlock?;
    }

    /** The memcpy from servp: a straight copy, since the buffer never wraps. */
    method TakeOut(len: nat) returns (bytes: seq<char>)
      requires Valid() && 0 < len <= inBuf.Len()
      modifies this`taken, inBuf`servp
      ensures Valid() && |bytes| == len && taken == old(taken) + bytes && received == old(received)
      ensures Avail() == old(Avail()) - len
    {
      bytes := inBuf.buf[inBuf.servp..inBuf.servp + len];
      ghost var all := inBuf.Contents();
      inBuf.GetBlkAdj(len);
      Handed(received, taken, all, bytes, inBuf.Contents());
      taken := taken + bytes;
    }

    /** The buffer is empty: ask the network, with `have` bytes already read. */
    method Refill(have: nat) returns (next: Next)
      requires Valid() && inBuf.Contents() == [] && !eof
      modifies this`net, this`received, this`eof, inBuf`servp, inBuf`endp, inBuf.buf
      ensures Valid() && Avail() <= old(Avail())
      ensures eof ==> have == 0 && next == Stop(0)
      ensures match next
              case Ready => inBuf.Len() > 0
              case Again => |net| < |old(net)| && inBuf.Len() == 0
              case Stop(rc) => (rc == have || rc == -1) && inBuf.Len() == 0
    {
      var got, wouldBlock := GetInput();
      if got < 0 {
        if wouldBlock {
          return if block && have == 0 then Again else Stop(have);
        }
        return Stop(-1);
      } else if got == 0 {
        if have == 0 {
          eof := true;
        }
        return Stop(have);
      }
      return Ready;
    }

    /** socketRead: up to `bufsize` bytes in the order received. 0 with the end-of-file mark
        set means end of file, -1 an error. */
    method Read(bufsize: nat) returns (rc: int, bytes: seq<char>)
      requires Valid() && bufsize > 0
      modifies this`net, this`received, this`taken, this`eof, inBuf`servp, inBuf`endp, inBuf.buf
      ensures Valid() && |bytes| <= bufsize && (rc == |bytes| || (rc == -1 && |bytes| < bufsize))
      ensures taken == old(taken) + bytes
      ensures rc > 0 || bytes != [] ==> eof == old(eof)
      ensures old(eof) ==> rc == 0 && eof
      ensures Avail() + |bytes| <= old(Avail())
      ensures |bytes| < bufsize ==> inBuf.Len() == 0
      ensures rc < 0 ==> !eof
    {
      bytes := [];
      if eof {
        return 0, [];
      }
      while |bytes| < bufsize
        invariant Valid() && |bytes| <= bufsize && taken == old(taken) + bytes && !eof
        invariant Avail() + |bytes| <= old(Avail())
        decreases bufsize - |bytes|, |net|
      {
        if inBuf.Len() == 0 {
          if block && |bytes| > 0 {
            break;
          }
          var next := Refill(|bytes|);
          if next.Again? {
            continue;
          }
          if next.Stop? {
            return next.rc, bytes;
          }
        }
        var part := TakeOut(Min(inBuf.Len(), bufsize - |bytes|));
        Assoc(old(taken), bytes, part);
        bytes := bytes + part;
      }
      return |bytes|, bytes;
    }

    /** The line is complete: hand it out and start the next. */
    method EndLine(ghost atEof: bool) returns (line: seq<char>)
      requires Valid() && !ended
      requires atEof ==> eof && lineBuf.Contents() != [] && Scan(taken) == Lines(lines, lineBuf.Contents())
      requires !atEof ==> Scan(taken) == Lines(lines + [lineBuf.Contents()], [])
      modifies this`lines, this`ended, lineBuf`servp, lineBuf`endp, lineBuf.buf
      ensures Valid() && LinesOk() && lines == old(lines) + [line] && ended == atEof
      ensures atEof ==> line != []
    {
      var len := lineBuf.Len();
      line := lineBuf.buf[lineBuf.servp..lineBuf.servp + len];
      lines := lines + [line];
      lineBuf.Flush();
      ended := atEof;
    }

    /** An ordinary byte joins the line. */
    method Collect(c: char)
      requires Valid() && !ended && Scan(taken) == Lines(lines, lineBuf.Contents() + [c])
      modifies lineBuf, lineBuf.buf
      ensures Valid() && LinesOk() && (lineBuf.buf == old(lineBuf.buf) || fresh(lineBuf.buf))
    {
      var rc := lineBuf.Putc(c);
    }

    lemma ScanSnoc(s: seq<char>, c: char)
      ensures Scan(s + [c]) == Step(Scan(s), c)
    {
      assert (s + [c])[..|s|] == s;
    }

    /** One byte for the line reader. */
    method NextByte() returns (n: int, c: char)
      requires Valid() && LinesOk()
      modifies this`net, this`received, this`taken, this`eof, inBuf`servp, inBuf`endp, inBuf.buf
      ensures Valid() && old(taken) <= taken && Avail() <= old(Avail())
      ensures n <= 0 ==> LinesOk() && taken == received
      ensures n < 0 ==> !eof
      ensures n > 0 ==> Avail() < old(Avail()) && !ended && Scan(taken) == Step(Lines(lines, lineBuf.Contents()), c)
      ensures n > 0 ==> taken == old(taken) + [c]
    {
      ghost var before := taken;
      var bytes;
      n, bytes := Read(1);
      c := '\0';
      if n > 0 {
        c := bytes[0];
        assert bytes == [c];
        ScanSnoc(before, c);
      } else {
        assert taken == before;
      }
    }

    /** What a byte just read does to the line being collected. */
    method TakeByte(c: char) returns (complete: bool, line: seq<char>)
      requires Valid() && !ended && Scan(taken) == Step(Lines(lines, lineBuf.Contents()), c)
      modifies this`lines, this`ended, lineBuf, lineBuf.buf
      ensures Valid() && LinesOk() && (lineBuf.buf == old(lineBuf.buf) || fresh(lineBuf.buf)) && !ended
      ensures lines == if complete then old(lines) + [line] else old(lines)
    {
      if lineBuf.Len() > E_MAX_REQUEST || c == '\n' {
        line := EndLine(false);
        return true, line;
      }
      if c != '\r' {
        Collect(c);
      }
      return false, [];
    }

    /** The loop body of socketGets: a byte is read, and unless the line goes on, its result. */
    method Turn() returns (going: bool, rc: int, line: seq<char>)
      requires Valid() && LinesOk()
      modifies this, inBuf`servp, inBuf`endp, inBuf.buf, lineBuf, lineBuf.buf
      ensures Valid() && LinesOk() && (lineBuf.buf == old(lineBuf.buf) || fresh(lineBuf.buf))
      ensures old(taken) <= taken && Avail() <= old(Avail())
      ensures going ==> Avail() < old(Avail()) && lines == old(lines) && ended == old(ended)
      ensures !going ==> (rc == -1 || rc == |line|) && lines == if rc == -1 then old(lines) else old(lines) + [line]
      ensures !going && rc == -1 ==> taken == received && ended == old(ended) && (eof ==> lineBuf.Contents() == [])
      ensures !going && rc >= 0 && !ended ==> Avail() < old(Avail()) && LastEnded(taken, old(lines))
      ensures !going && rc >= 0 ==> !old(ended) && (ended ==> rc > 0)
    {
      ghost var before := taken;
      var n, c := NextByte();
      if n <= 0 {
        if n == 0 && lineBuf.Len() > 0 && eof {
          line := EndLine(true);
          return false, |line|, line;
        }
        return false, -1, [];
      }
      assert taken[..|taken| - 1] == before && Scan(before).done == lines;
      var complete;
      complete, line := TakeByte(c);
      return !complete, |line|, line;
    }

    /** socketGets: the next line without its newline; -1 when there is none yet, every byte
        received having been used. Over any sequence of calls and any portioning the lines are
        those of the byte stream. */
    method Gets() returns (rc: int, line: seq<char>)
      requires Valid() && LinesOk()
      modifies this, inBuf`servp, inBuf`endp, inBuf.buf, lineBuf, lineBuf.buf
      ensures Valid() && LinesOk() && (lineBuf.buf == old(lineBuf.buf) || fresh(lineBuf.buf))
      ensures old(taken) <= taken
      ensures rc == -1 || rc == |line|
      ensures lines == if rc == -1 then old(lines) else old(lines) + [line]
      ensures Avail() <= old(Avail())
      ensures rc >= 0 ==> Avail() < old(Avail()) || (ended && !old(ended))
      ensures old(ended) ==> ended
      ensures rc == -1 ==> taken == received && (eof ==> lineBuf.Contents() == [])
      ensures rc == 0 ==> !ended
      ensures rc >= 0 && !ended ==> LastEnded(taken, old(lines))
    {
      ghost var from, all := taken, lines;
      while true
        invariant Valid() && LinesOk() && (lineBuf.buf == old(lineBuf.buf) || fresh(lineBuf.buf))
        invariant from <= taken && lines == all && ended == old(ended) && Avail() <= old(Avail())
        decreases Avail()
      {
        ghost var before := taken;
        var going;
        going, rc, line := Turn();
        PrefixTransitive(from, before, taken);
        if !going {
          return;
        }
      }
    }
  }

  /** A reader that keeps asking for lines. If the last answer is that there is none, every byte
      received has been used. */
  method ReadLines(s: InSocket, calls: nat) returns (rc: int)
    requires s.Valid() && s.LinesOk()
    modifies s, s.inBuf, s.inBuf.buf, s.lineBuf, s.lineBuf.buf
    ensures s.Valid() && s.LinesOk() && s.taken <= s.received <= s.stream
    ensures rc == -1 ==> s.taken == s.received
  {
    rc := 0;
    for i := 0 to calls
      invariant s.Valid() && s.LinesOk() && s.inBuf.buf == old(s.inBuf.buf)
      invariant s.lineBuf.buf == old(s.lineBuf.buf) || fresh(s.lineBuf.buf)
      invariant rc == -1 ==> s.taken == s.received
    {
      var line;
      rc, line := s.Gets();
    }
  }

  /** In every reachable state the bytes received are the first of the network's stream, and lines
      short enough are the newline-separated segments of the bytes handed out, without carriage
      returns; when the reader has been told that there is no line they are those of every byte
      received; and once end of file has been seen and nothing is pending they are those of the
      whole stream, a last segment then counting as a line unless it is empty. */
  lemma LinesDelivered(s: InSocket)
    requires s.Valid() && s.LinesOk()
    ensures s.taken <= s.received <= s.stream
    ensures !s.ended && ShortLines(s.taken) ==>
              var segs := StripAll(Split(s.taken));
              s.lines == segs[..|segs| - 1] && s.lineBuf.Contents() == segs[|segs| - 1]
    ensures !s.ended && s.taken == s.received && ShortLines(s.received) ==>
              var segs := StripAll(Split(s.received));
              s.lines == segs[..|segs| - 1] && s.lineBuf.Contents() == segs[|segs| - 1]
    ensures s.eof && s.lineBuf.Contents() == [] ==> s.lines == Final(Scan(s.stream))
    ensures s.eof && s.lineBuf.Contents() == [] && ShortLines(s.stream) ==>
              var segs := StripAll(Split(s.stream));
              s.lines == if segs[|segs| - 1] == [] then segs[..|segs| - 1] else segs
  {
    if ShortLines(s.taken) { ScanIsSplit(s.taken); }
    if s.eof {
      AllReceived(s);
      if ShortLines(s.stream) { FinalIsSplit(s.stream); }
    }
  }

  lemma AllReceived(s: InSocket)
    requires s.Valid() && s.eof
    ensures s.taken == s.received == s.stream
  {
  }

  /** The lines of a stream that has ended, the last one if it is not empty. */
  lemma FinalIsSplit(s: seq<char>)
    requires ShortLines(s)
    ensures var segs := StripAll(Split(s));
            Final(Scan(s)) == if segs[|segs| - 1] == [] then segs[..|segs| - 1] else segs
  {
    ScanIsSplit(s);
    var segs := StripAll(Split(s));
    assert segs[..|segs| - 1] + [segs[|segs| - 1]] == segs;
  }
}
