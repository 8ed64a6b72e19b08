/** The request read state machine of websReadEvent and websGetInput on a non-blocking
    socket. What the request line and headers say is given by parameters. */
module Webs {
  import opened Option
  import opened Seqs
  import opened CString
  import opened Ringq
  import opened SockIn
  import opened RequestHead
  import opened PostData

  const WEBS_SOCKET_BUFSIZ: nat := 256

  datatype State = Begin | Header | Post | PostClen | Processing

  /** What websParseFirst and websParseRequest extract. */
  datatype Request = Request(post: bool, clen: Option<int>, query: Option<seq<char>>)

  class Webs {
    const sock: InSocket
    const firstOk: Line -> bool
    const parse: (Line, seq<Line>) -> Request
    var state: State
    var closed: bool
    var first: Line
    var header: seq<Line>
    var clen: int
    var query: Option<seq<char>>
    var postData: bool
    var calls: nat                    // how often the URL handler has been called
    ghost const prior: seq<Line>      // lines read before this request
    ghost var url: Option<seq<char>>  // the query of the URL
    ghost var head: seq<char>         // the bytes taken when the body began, and how many
    ghost var start: nat
    ghost var total: int              // the content length
    ghost var blanks: seq<Line>       // the empty lines in front of the request
    ghost var more: seq<Line>         // the lines behind its head
    ghost var rejected: bool          // the first line was not accepted

    constructor (sock: InSocket, firstOk: Line -> bool, parse: (Line, seq<Line>) -> Request)
      requires sock.Valid() && sock.LinesOk()
      ensures this.sock == sock && Valid() && state == Begin && !closed && calls == 0
    {
      this.sock, this.firstOk, this.parse := sock, firstOk, parse;
      state, closed, first, header, clen, query, postData, calls := Begin, false, [], [], 0, None, false, 0;
      prior, url, head, start, total := sock.lines, None, [], 0, 0;
      blanks, more, rejected := [], [], false;
      assert sock.lines + [] == sock.lines;
    }

    // ----- the head

    /** The lines of this request that have been read and processed. */
    ghost function Lines(): seq<Line>
      reads this
    {
      match state
      case Begin => if rejected then blanks + [first] else blanks
      case Header => Opened(blanks, first, header)
      case _ => Ended(blanks, first, header, more)
    }

    ghost predicate OpenLines()
      reads this
    {
      Opens(blanks, first, header) && firstOk(first)
    }

    /** The head has been read: it is that of the bytes taken, and ends where the body starts. */
    ghost predicate Known()
      reads this, sock
    {
      && HeadRead(sock.taken, head, prior, blanks, first, header) && |head| == start
      && firstOk(first) && url == parse(first, header).query
    }

    /** Length and kind of the body are those the head announces. */
    ghost predicate Announced()
      reads this
    {
      var r := parse(first, header);
      && (state == Post ==> r.post && r.clen.None?)
      && (state == PostClen ==> r.post && r.clen == Some(total))
      && (total > 0 ==> r.post && r.clen == Some(total))
      && (state == Processing && r.post && r.clen.Some? ==> total == r.clen.value)
    }

    // ----- the body

    /** The posted bytes among the first `upto` bytes read. */
    ghost function Body(upto: nat): seq<char>
      requires start <= upto <= |sock.taken|
      reads this, sock
    {
      sock.taken[start..upto]
    }

    /** While a body of known length is read: what is still to come, and the query so far. */
    ghost predicate BodyOk(upto: nat)
      reads this, sock
    {
      && start <= upto <= |sock.taken|
      && clen == total - |Body(upto)|
      && postData == (Body(upto) != [])
      && (NulFree(Body(upto)) ==> query == FullQuery(url, Body(upto)))
    }

    /** The handler was called when exactly the announced number of bytes had been read, with
        the URL's query and the body joined. */
    ghost predicate Served()
      reads this, sock
    {
      && start <= |sock.taken|
      && |Body(|sock.taken|)| == total
      && (NulFree(Body(|sock.taken|)) ==> query == FullQuery(url, Body(|sock.taken|)))
    }

    /** What the handler was called with, for each kind of request. */
    ghost predicate Processed()
      requires sock.Valid()
      reads this, sock, sock.inBuf, sock.inBuf.buf, sock.lineBuf, sock.lineBuf.buf
    {
      var r := parse(first, header);
      && (!r.post ==> |sock.taken| == start && query == url)
      && (r.post && r.clen.None? ==>
            sock.eof && sock.lines == Final(Scan(sock.taken)) == prior + Lines() && Posted(url, more, query, postData))
      && (total > 0 ==> Served())
      && (r.post && r.clen.Some? && total <= 0 ==>
            |sock.taken| == start && query == Some(if url.None? then [] else url.value))
    }

    // ----- between events

    /** Lines are being read and no handler has been called. */
    ghost predicate Reading()
      reads this, sock, sock.inBuf, sock.inBuf.buf, sock.lineBuf, sock.lineBuf.buf
    {
      && sock.Valid() && sock.LinesOk() && calls == 0 && total <= 0
      && match state
         case Begin => header == [] && AllEmpty(blanks)
         case Header => OpenLines()
         case Post => Behind() && Posted(url, more, query, postData)
         case _ => false
    }

    /** The head has been read. */
    ghost predicate Behind()
      reads this, sock
    {
      !rejected && Known() && Announced()
    }

    ghost predicate Valid()
      reads this, sock, sock.inBuf, sock.inBuf.buf, sock.lineBuf, sock.lineBuf.buf
    {
      match state
      case PostClen => sock.Valid() && Behind() && calls == 0 && (!closed ==> BodyOk(|sock.taken|) && clen > 0)
      case Processing => sock.Valid() && Behind() && calls == 1 && Processed()
      case _ =>
        && Reading() && sock.lines == prior + Lines()
        && (rejected ==> state == Begin && closed && first != [] && !firstOk(first))
    }

    /** What an event leaves undone has not arrived: with the head open every byte received has
        been read, with the body open some of it is missing. Only behind an empty line in front of
        a request, which ends an event, and behind a rejected first line can there be more. */
    ghost predicate Waits()
      reads this, sock
    {
      match state
      case Begin => sock.taken == sock.received || rejected || (!closed && blanks != [])
      case Header => sock.taken == sock.received
      case PostClen => start <= |sock.received| < start + total
      case _ => true
    }

    /** Input obtained for the current state. */
    ghost predicate Obtained(text: Option<seq<char>>, nbytes: int)
      reads this, sock, sock.inBuf, sock.inBuf.buf, sock.lineBuf, sock.lineBuf.buf
    {
      match state
      case PostClen => PartRead(text, nbytes)
      case _ => text.Some? && text.value != [] && nbytes == |text.value| && Got(text.value)
    }

    /** Part of a body of known length: no text at all when a content length of zero or less was
        announced. */
    ghost predicate PartRead(text: Option<seq<char>>, nbytes: int)
      reads this, sock, sock.inBuf, sock.inBuf.buf, sock.lineBuf, sock.lineBuf.buf
    {
      && sock.Valid() && Behind() && state == PostClen && calls == 0
      && match text
         case None => nbytes == 0 && clen == total <= 0 && |sock.taken| == start && query == url
         case Some(bytes) =>
           |bytes| == nbytes && |bytes| <= |sock.taken| && Portion(bytes, |sock.taken| - |bytes|)
    }

    /** A line has been read that is still to be processed. */
    ghost predicate Got(line: Line)
      reads this, sock, sock.inBuf, sock.inBuf.buf, sock.lineBuf, sock.lineBuf.buf
    {
      Reading() && sock.lines == prior + Lines() + [line] && !closed && !rejected
    }

    /** How much can still happen: bytes to come, and end of file ending a line. */
    ghost function Left(): nat
      requires sock.inBuf.Valid()
      reads this, sock, sock.inBuf
    {
      sock.Avail() + (if sock.ended then 0 else 1)
    }

    /** websUrlHandlerRequest: no more reading for this request. */
    method CallHandler()
      modifies this`state, this`calls
      ensures state == Processing && calls == old(calls) + 1
    {
      state := Processing;
      calls := calls + 1;
    }

    /** Bytes of the body have been read behind the first `k` bytes. */
    ghost predicate Portion(bytes: seq<char>, k: nat)
      reads this, sock
    {
      && 0 < |bytes| <= clen && start <= k && |sock.taken| == k + |bytes|
      && BodyOk(k) && bytes == sock.taken[k..]
    }

    /** Posted data of known length: at most what is missing, at most one buffer. */
    method ReadBody() returns (n: int, bytes: seq<char>)
      requires sock.Valid() && BodyOk(|sock.taken|) && clen > 0
      modifies sock`net, sock`received, sock`taken, sock`eof, sock.inBuf`servp, sock.inBuf`endp, sock.inBuf.buf
      ensures sock.Valid() && old(sock.taken) <= sock.taken
      ensures n <= 0 ==> start <= |sock.received| < start + total
      ensures n == 0 ==> sock.taken == old(sock.taken)
      ensures n > 0 ==> n == |bytes| && Portion(bytes, |old(sock.taken)|) && sock.Avail() < old(sock.Avail())
    {
      var len := Min(WEBS_SOCKET_BUFSIZ, clen);
      ghost var before := sock.taken;
      n, bytes := sock.Read(len);
      assert |bytes| < len ==> sock.received == sock.taken;
      if n > 0 {
        assert bytes == sock.taken[|before|..];
        assert sock.taken[start..|before|] == before[start..|before|];
      }
    }

    method GetBody() returns (rc: int, text: Option<seq<char>>, nbytes: int)
      requires Valid() && state == PostClen && !closed
      modifies this`closed, sock`net, sock`received, sock`taken, sock`eof, sock.inBuf`servp, sock.inBuf`endp,
               sock.inBuf.buf
      ensures rc in {-1, 1}
      ensures rc == -1 ==> Valid() && Waits()
      ensures rc == 1 ==> Obtained(text, nbytes) && text.Some? && !closed && Left() < old(Left())
    {
      label before:
      var n, bytes := ReadBody();
      StillBehind@before();
      if n <= 0 {
        NoBody(n);
        return -1, None, 0;
      }
      return 1, Some(bytes), n;
    }

    twostate lemma StillBehind()
      requires old(Behind()) && unchanged(this) && old(sock.taken) <= sock.taken
      ensures Behind()
    {
      HeadReadStill(old(sock.taken), sock.taken, head, prior, blanks, first, header);
    }

    /** An error or end of file in the body closes the connection. */
    method NoBody(n: int)
      requires sock.Valid() && Behind() && state == PostClen && calls == 0 && !closed && n <= 0
      requires n == 0 ==> BodyOk(|sock.taken|) && clen > 0
      modifies this`closed
      ensures Valid() && state == PostClen
    {
      if n < 0 || sock.eof {
        closed := true;
      }
    }

    /** The empty line behind the head has just been read and the request parsed. */
    ghost predicate HeadDone()
      reads this, sock
    {
      && state == Header && calls == 0 && !rejected && total <= 0
      && head == sock.taken && query == url && more == [] && Known()
    }

    /** websParseRequest. */
    method ParseRequest()
      requires Closed()
      modifies this`query, this`url, this`head, this`start, this`more
      ensures HeadDone()
    {
      query := parse(first, header).query;
      url, head, start, more := query, sock.taken, |sock.taken|, [];
    }

    /** No body: the handler is called. */
    method ServeNow()
      requires sock.Valid() && HeadDone() && !parse(first, header).post
      modifies this`state, this`calls
      ensures Valid() && state == Processing
    {
      CallHandler();
    }

    /** A body of unknown length. */
    method StartPost()
      requires sock.Valid() && sock.LinesOk() && sock.lines == prior + Ended(blanks, first, header, [])
      requires HeadDone() && !closed && parse(first, header).post && parse(first, header).clen.None?
      modifies this`state, this`postData
      ensures Valid() && state == Post
    {
      state, postData := Post, false;
    }

    /** A body of `n` bytes is announced. */
    method StartBody(n: int)
      requires sock.Valid() && HeadDone() && !closed
      requires parse(first, header).post && parse(first, header).clen == Some(n)
      modifies this`state, this`clen, this`total, this`postData
      ensures state == PostClen && clen == n && (n > 0 ==> Valid()) && (n <= 0 ==> Obtained(None, 0))
    {
      state, clen, postData := PostClen, n, false;
      total := n;
      assert Body(|sock.taken|) == [];
    }

    /** The end of the header: what kind of request is it? 0 asks for more input, 1 goes on
        without any, -1 ends the event. */
    method EndHeader() returns (rc: int)
      requires sock.Valid() && sock.LinesOk() && Closed()
      modifies this`query, this`url, this`state, this`calls, this`clen, this`total, this`head, this`start,
               this`postData, this`more
      ensures rc in {-1, 0, 1}
      ensures rc == -1 ==> Valid() && state == Processing && !parse(first, header).post
      ensures rc == 0 ==> Valid() && (state == Post || state == PostClen)
      ensures rc == 1 ==> Obtained(None, 0) && state == PostClen
    {
      ParseRequest();
      var r := parse(first, header);
      if !r.post {
        ServeNow();
        return -1;
      }
      if r.clen.None? {
        StartPost();
        return 0;
      }
      StartBody(r.clen.value);
      return if clen > 0 then 0 else 1;
    }

    /** The head is complete. */
    ghost predicate Closed()
      reads this, sock
    {
      && state == Header && !closed && calls == 0 && !rejected && total <= 0
      && OpenLines() && sock.lines == prior + Ended(blanks, first, header, [])
      && Closes(sock.taken, prior + Opened(blanks, first, header))
    }

    twostate lemma StillReading()
      requires old(Reading()) && unchanged(this) && sock.Valid() && sock.LinesOk() && old(sock.taken) <= sock.taken
      ensures Reading()
    {
      if state == Post { HeadReadStill(old(sock.taken), sock.taken, head, prior, blanks, first, header); }
    }

    /** End of file ends a body of unknown length. */
    method FinishPost()
      requires Valid() && state == Post && sock.eof && sock.lineBuf.Contents() == []
      modifies this`state, this`calls
      ensures Valid() && state == Processing
    {
      CallHandler();
    }

    /** An empty line in front of a request is skipped; one in a body of unknown length counts for
        nothing. Either ends the event. */
    method SkipEmpty()
      requires Got([]) && (state == Begin || state == Post)
      modifies this`more, this`blanks
      ensures Valid() && Waits() && state == old(state)
    {
      if state == Post {
        SkipPosted();
      } else {
        Assoc(prior, blanks, [[]]);
        blanks := blanks + [[]];
      }
    }

    ghost method SkipPosted()
      requires Got([]) && state == Post
      modifies this`more
      ensures Valid()
    {
      Assoc(prior, Lines(), [[]]);
      SkipLine();
    }

    ghost method SkipLine()
      requires Posted(url, more, query, postData)
      modifies this`more
      ensures more == old(more) + [[]] && Posted(url, more, query, postData)
      ensures Ended(blanks, first, header, more) == Ended(blanks, first, header, old(more)) + [[]]
    {
      PostedEmpty(url, more, query, postData);
      EndedMore(blanks, first, header, more, []);
      more := more + [[]];
    }

    /** No line: at end of file a body of unknown length is complete, and any other request is given
        up. */
    method NoLine()
      requires Reading() && sock.lines == prior + Lines() && !closed && !rejected
      requires sock.taken == sock.received && (sock.eof ==> sock.lineBuf.Contents() == [])
      modifies this`state, this`calls, this`closed
      ensures Valid() && Waits() && state != PostClen
    {
      if sock.eof {
        if state == Post {
          FinishPost();
        } else {
          closed := true;
        }
      }
    }

    /** An empty line ends the header. */
    method EmptyLine() returns (rc: int)
      requires Got([]) && !sock.ended && LastEnded(sock.taken, prior + Lines())
      modifies this
      ensures rc in {-1, 0, 1}
      ensures rc == -1 ==> Valid() && Waits() && state != PostClen
      ensures rc == 0 ==> Valid() && !closed && old(state) == Header && (state == Post || state == PostClen)
      ensures rc == 1 ==> Obtained(None, 0) && !closed
    {
      if state == Header {
        Assoc(prior, Lines(), [[]]);
        EndedNone(blanks, first, header);
        rc := EndHeader();
        return;
      }
      SkipEmpty();
      return -1;
    }

    /** socketGets: a line still to be processed, or none. */
    method NextLine() returns (n: int, line: Line)
      requires Reading() && sock.lines == prior + Lines() && !closed && !rejected
      modifies sock, sock.inBuf`servp, sock.inBuf`endp, sock.inBuf.buf, sock.lineBuf, sock.lineBuf.buf
      ensures sock.lineBuf.buf == old(sock.lineBuf.buf) || fresh(sock.lineBuf.buf)
      ensures sock.inBuf.Valid() && Left() <= old(Left()) && (n >= 0 ==> Left() < old(Left()))
      ensures n < 0 ==>
                && Reading() && sock.lines == prior + Lines() && !rejected
                && sock.taken == sock.received && (sock.eof ==> sock.lineBuf.Contents() == [])
      ensures n >= 0 ==> Got(line) && n == |line|
      ensures n == 0 ==> !sock.ended && LastEnded(sock.taken, prior + Lines())
    {
      ghost var was := sock.lines;
      label before:
      n, line := sock.Gets();
      StillReading@before();
      assert was == prior + Lines();
      assert n == 0 ==> LastEnded(sock.taken, was);
    }

    /** A line for every other state; end of file finishes a POST without content length. */
    method GetLine() returns (rc: int, text: Option<seq<char>>, nbytes: int)
      requires Valid() && (state == Begin || state == Header || state == Post) && !closed
      modifies this, sock, sock.inBuf`servp, sock.inBuf`endp, sock.inBuf.buf, sock.lineBuf, sock.lineBuf.buf
      ensures sock.lineBuf.buf == old(sock.lineBuf.buf) || fresh(sock.lineBuf.buf)
      ensures rc in {-1, 0, 1} && sock.inBuf.Valid() && Left() <= old(Left())
      ensures rc == -1 ==> Valid() && Waits() && state != PostClen
      ensures rc == 0 ==> Valid() && !closed && old(state) == Header && (state == Post || state == PostClen)
      ensures rc == 1 ==> Obtained(text, nbytes) && !closed
      ensures rc == 1 && text.Some? ==> state == old(state) && Left() < old(Left())
    {
      var n, line := NextLine();
      text, nbytes := None, 0;
      if n < 0 {
        NoLine();
        return -1, None, 0;
      }
      if n == 0 {
        rc := EmptyLine();
        return;
      }
      return 1, Some(line), n;
    }

    /** The portion just read joined to the body before it. */
    lemma Joined(text: seq<char>)
      requires |text| <= |sock.taken| && Portion(text, |sock.taken| - |text|)
      ensures var k, n := |sock.taken| - |text|, |sock.taken|;
              |Body(n)| == |Body(k)| + |text|
              && (NulFree(Body(n)) ==> Append(query, !postData, text) == FullQuery(url, Body(n)))
    {
      var k, n := |sock.taken| - |text|, |sock.taken|;
      var body, all := Body(k), Body(n);
      assert all == body + text;
      if NulFree(all) {
        assert forall i :: 0 <= i < |body| ==> body[i] == all[i];
        assert forall i :: 0 <= i < |text| ==> text[i] == all[|body| + i];
        AppendPortion(url, body, text);
      }
    }

    /** Posted text of known length joins the query; when nothing is missing any more the
        handler is called. */
    method TakeBody(text: Option<seq<char>>, nbytes: int) returns (done: bool)
      requires PartRead(text, nbytes) && !closed
      modifies this`query, this`postData, this`clen, this`state, this`calls
      ensures Valid() && (done <==> state == Processing) && (state == PostClen || state == Processing)
      ensures text.None? ==> done
    {
      if text.Some? {
        TakeText(text.value);
      } else {
        TakeNothing();
      }
      done := Conclude(nbytes);
    }

    method TakeText(text: seq<char>)
      requires PartRead(Some(text), |text|) && !closed
      modifies this`query, this`postData, this`clen
      ensures Joining() && clen == old(clen) - |text| >= 0 && total > 0
    {
      JoinText(text);
    }

    method TakeNothing()
      requires PartRead(None, 0) && !closed
      modifies this`query, this`postData
      ensures Joining()
    {
      if query.None? {
        query := Some([]);
      }
      postData := true;
    }

    /** A portion of the body has been joined to the query. */
    ghost predicate Joining()
      reads this, sock
    {
      && state == PostClen && calls == 0 && !rejected && !closed && Known() && Announced()
      && start <= |sock.taken|
      && (total > 0 ==> BodyOk(|sock.taken|))
      && (total <= 0 ==> |sock.taken| == start && clen <= 0 && query == Some(if url.None? then [] else url.value))
    }

    method Conclude(nbytes: int) returns (done: bool)
      requires sock.Valid() && Joining() && (clen > 0 ==> nbytes > 0) && (total > 0 ==> clen >= 0)
      modifies this`state, this`calls
      ensures Valid() && (done <==> state == Processing) && (state == PostClen || state == Processing)
      ensures clen <= 0 ==> done
    {
      if clen > 0 {
        return nbytes <= 0;
      }
      CallHandler();
      return true;
    }

    method JoinText(text: seq<char>)
      requires |text| <= |sock.taken| && Portion(text, |sock.taken| - |text|)
      modifies this`query, this`postData, this`clen
      ensures BodyOk(|sock.taken|) && clen == old(clen) - |text|
    {
      Joined(text);
      query := Append(query, !postData, text);
      postData := true;
      clen := clen - |text|;
    }

    /** The first line. One that is rejected ends the request with an error page. */
    method TakeFirst(text: Line) returns (done: bool)
      requires Got(text) && text != [] && state == Begin
      modifies this`first, this`state, this`closed, this`rejected
      ensures Valid() && first == text && (done <==> !firstOk(text)) && (closed <==> done)
      ensures state == (if done then Begin else Header) && (done ==> Waits())
    {
      Assoc(prior, blanks, [text]);
      first := text;
      if !firstOk(first) {
        closed, rejected := true, true;
        return true;
      }
      state := Header;
      OpenedFirst(blanks, first);
      return false;
    }

    /** A line of the header is stored. */
    method TakeHeader(text: Line)
      requires Got(text) && text != [] && state == Header
      modifies this`header
      ensures Valid() && header == old(header) + [text]
    {
      OpenedMore(blanks, first, header, text);
      Assoc(prior, Lines(), [text]);
      header := header + [text];
    }

    /** A line posted without a content length replaces the ones before it. */
    method TakePost(text: Line)
      requires Got(text) && text != [] && state == Post
      modifies this`query, this`postData, this`more
      ensures Valid() && state == Post
    {
      Assoc(prior, Lines(), [text]);
      JoinLine(text);
    }

    method JoinLine(text: Line)
      requires Posted(url, more, query, postData) && text != []
      modifies this`query, this`postData, this`more
      ensures more == old(more) + [text] && Posted(url, more, query, postData)
      ensures Ended(blanks, first, header, more) == Ended(blanks, first, header, old(more)) + [text]
    {
      PostedMore(url, more, query, postData, text);
      EndedMore(blanks, first, header, more, text);
      if query.Some? && query.value != [] && !postData {
        query := Some(query.value + ['&'] + CStr(text));
      } else {
        query := Some(CStr(text));
      }
      postData := true;
      more := more + [text];
    }

    /** The switch of websReadEvent on input for the current state. */
    method Take(text: Option<seq<char>>, nbytes: int) returns (done: bool)
      requires Obtained(text, nbytes) && !closed
      modifies this`query, this`postData, this`clen, this`state, this`calls, this`first, this`header, this`closed,
               this`rejected, this`more
      ensures Valid() && (closed <==> old(state) == Begin && done)
      ensures !done ==> state == old(state) || (old(state) == Begin && state == Header)
      ensures !done ==> state != Processing && !closed && Rank() <= old(Rank())
      ensures text.None? ==> done
      ensures done ==> Waits() && state != PostClen
      ensures old(state) == Begin ==> first == text.value && (done <==> !firstOk(first))
      ensures old(state) == Header ==> !done && header == old(header) + [text.value]
    {
      match state
      case Begin => done := TakeFirst(text.value);
      case Header =>
        TakeHeader(text.value);
        done := false;
      case PostClen => done := TakeBody(text, nbytes);
      case Post =>
        TakePost(text.value);
        done := true;
    }

    function Rank(): nat
      reads this
    {
      match state case Begin => 3 case Header => 2 case _ => 1
    }

    /** websGetInput: 1 with input for the current state, 0 to go round again, -1 to end the
        event. */
    method GetInput() returns (rc: int, text: Option<seq<char>>, nbytes: int)
      requires Valid() && state != Processing && !closed
      modifies this, sock, sock.inBuf`servp, sock.inBuf`endp, sock.inBuf.buf, sock.lineBuf, sock.lineBuf.buf
      ensures sock.lineBuf.buf == old(sock.lineBuf.buf) || fresh(sock.lineBuf.buf)
      ensures rc in {-1, 0, 1} && sock.inBuf.Valid()
      ensures rc == -1 ==> Valid() && Waits()
      ensures rc == 0 ==> Valid() && !closed && state != Processing && Rank() < old(Rank())
      ensures rc == 1 ==> Obtained(text, nbytes) && !closed
      ensures rc == 1 && text.Some? ==> state == old(state) && Left() < old(Left())
    {
      if state == PostClen {
        rc, text, nbytes := GetBody();
      } else {
        rc, text, nbytes := GetLine();
      }
    }

    /** One turn of the loop of websReadEvent. */
    method Turn() returns (done: bool)
      requires Valid() && state != Processing && !closed
      modifies this, sock, sock.inBuf`servp, sock.inBuf`endp, sock.inBuf.buf, sock.lineBuf, sock.lineBuf.buf
      ensures Valid() && (sock.lineBuf.buf == old(sock.lineBuf.buf) || fresh(sock.lineBuf.buf))
      ensures done ==> Waits()
      ensures !done ==> state != Processing && !closed
      ensures !done ==> Rank() < old(Rank()) || (Rank() == old(Rank()) && Left() < old(Left()))
    {
      var rc, text, nbytes := GetInput();
      if rc <= 0 {
        return rc < 0;
      }
      ghost var left := Left();
      done := Take(text, nbytes);
      assert Left() == left;
    }

    /** websReadEvent: reads and processes input until none is left or the request is done. What
        it leaves undone, also by closing the connection, has not arrived. */
    method ReadEvent()
      requires Valid() && state != Processing && !closed
      modifies this, sock, sock.inBuf`servp, sock.inBuf`endp, sock.inBuf.buf, sock.lineBuf, sock.lineBuf.buf
      ensures Valid() && Waits() && (sock.lineBuf.buf == old(sock.lineBuf.buf) || fresh(sock.lineBuf.buf))
    {
      var done := false;
      while !done
        invariant Valid() && (sock.lineBuf.buf == old(sock.lineBuf.buf) || fresh(sock.lineBuf.buf))
        invariant !done ==> state != Processing && !closed
        invariant done ==> Waits()
        decreases !done, Rank(), Left()
      {
        done := Turn();
      }
    }

    // ----- the same in terms of the bytes received

    /** A handler has been called, for the request that the bytes received from the network hold:
        its head is that of the bytes, and of the bytes behind the head exactly the body it
        announces has been read and joined to the query of the URL. */
    ghost predicate Handled()
      reads this, sock
    {
      var s := sock.received;
      && HeadIn(s, |prior|).Some? && sock.taken <= s <= sock.stream
      && var h, e := HeadIn(s, |prior|).value, HeadEnd(s, |prior|).value;
         && firstOk(h.first)
         && var r := parse(h.first, h.header);
            if !r.post then sock.taken == s[..e] && query == r.query
            else if r.clen.None? then
              && sock.eof && sock.taken == s == sock.stream
              && query == PostQuery(r.query, Filled(BehindHead(Own(Final(Scan(s)), |prior|))))
            else if r.clen.value > 0 then
              && e + r.clen.value <= |s| && sock.taken == s[..e + r.clen.value]
              && var body := s[e..e + r.clen.value];
                 NulFree(body) ==> query == FullQuery(r.query, body)
            else sock.taken == s[..e] && query == Some(if r.query.None? then [] else r.query.value)
    }

    /** The bytes received hold a whole request that the server takes. */
    ghost predicate Arrived()
      reads this, sock
    {
      var s := sock.received;
      && HeadIn(s, |prior|).Some?
      && var h, e := HeadIn(s, |prior|).value, HeadEnd(s, |prior|).value;
         && firstOk(h.first)
         && var r := parse(h.first, h.header);
            r.post ==> r.clen.Some? && |s| >= e + r.clen.value
    }

    lemma HeadKnown()
      requires sock.Valid() && Known()
      ensures HeadIn(sock.received, |prior|) == Some(Head(first, header))
      ensures HeadEnd(sock.received, |prior|) == Some(start)
      ensures start <= |sock.taken| && sock.taken == sock.received[..|sock.taken|]
    {
      ClosesHead(head, prior, blanks, first, header);
      assert head <= sock.received;
      HeadStays(head, sock.received, |prior|);
      HeadEndStays(head, sock.received, |prior|);
    }

    /** What the handler was called with is what the bytes received ask for. */
    lemma IsHandled()
      requires Valid() && state == Processing
      ensures Handled()
    {
      HeadKnown();
      var r := parse(first, header);
      if r.post && r.clen.None? {
        LinesPosted();
      } else if r.post && r.clen.value > 0 {
        BytesPosted();
      }
    }

    lemma LinesPosted()
      requires sock.Valid() && Processed() && Opens(blanks, first, header) && state == Processing
      requires parse(first, header).post && parse(first, header).clen.None?
      ensures sock.eof && sock.taken == sock.received == sock.stream
      ensures query == PostQuery(url, Filled(BehindHead(Own(Final(Scan(sock.received)), |prior|))))
    {
      OwnBehind(prior, Lines());
      BehindIs(blanks, first, header, more);
    }

    lemma BytesPosted()
      requires sock.Valid() && Served() && total > 0
      ensures start + total <= |sock.received| && sock.taken == sock.received[..start + total]
      ensures var body := sock.received[start..start + total];
              NulFree(body) ==> query == FullQuery(url, body)
    {
      assert Body(|sock.taken|) == sock.received[start..start + total];
    }

    /** With the head open no whole request has arrived. */
    lemma OpenNotArrived(lines: seq<Line>)
      requires sock.Valid() && sock.LinesOk() && sock.lines == prior + lines && sock.taken == sock.received
      requires HeadOf(lines).None?
      ensures !Arrived()
    {
      OwnBehind(prior, lines);
      OpenStream(sock.received, sock.lines, |prior|);
    }

    lemma RejectedNotArrived()
      requires Valid() && rejected
      ensures !Arrived()
    {
      if sock.ended {
        OpenHead(blanks, first, []);
        OpenedFirst(blanks, first);
        OpenNotArrived(Lines());
      } else if HeadIn(sock.received, |prior|).Some? {
        ScanGrows(sock.taken, sock.received);
        OwnBehind(prior, Lines());
        FirstIs(blanks, first, Own(Scan(sock.received).done, |prior|));
      }
    }

    /** A whole request that has arrived has been handled, but for empty lines in front of it, each
        of which takes an event. */
    lemma ArrivedIsHandled()
      requires Valid() && Waits() && Arrived() && state != Processing
      ensures state == Begin && !closed && !rejected && blanks != []
    {
      if rejected {
        RejectedNotArrived();
      } else if state == Begin {
        EmptyHead(blanks);
        if sock.taken == sock.received { OpenNotArrived(blanks); }
      } else if state == Header {
        OpenHead(blanks, first, header);
        OpenNotArrived(Lines());
      } else {
        HeadKnown();
      }
    }
  }

  /** Read events for as long as the request wants them: whatever the portions and
      interruptions, the handler is called at most once, and then for the request that the bytes
      received hold, with exactly the body that request announces (`Handled`). Once a whole request
      has arrived the handler has been called, the connection being closed or not, unless only empty
      lines in front of the request have been read so far. */
  method Serve(w: Webs, events: nat)
    requires w.Valid()
    modifies w, w.sock, w.sock.inBuf, w.sock.inBuf.buf, w.sock.lineBuf, w.sock.lineBuf.buf
    ensures w.Valid() && w.calls <= 1
    ensures w.calls == 1 ==> w.Handled()
    ensures events > 0 && !old(w.closed) && w.Arrived() && w.calls == 0 ==>
              w.state == Begin && !w.closed && AllEmpty(w.blanks) && w.blanks != []
              && w.sock.lines == w.prior + w.blanks
    ensures events > 0 && !old(w.closed) ==> w.Waits()
  {
    for i := 0 to events
      invariant w.Valid() && w.sock.inBuf.buf == old(w.sock.inBuf.buf)
      invariant w.sock.lineBuf.buf == old(w.sock.lineBuf.buf) || fresh(w.sock.lineBuf.buf)
      invariant i == 0 ==> w.closed == old(w.closed)
      invariant i > 0 && !old(w.closed) ==> w.Waits()
    {
      if w.state != Processing && !w.closed {
        w.ReadEvent();
      }
    }
    if w.state == Processing {
      w.IsHandled();
    } else if events > 0 && !old(w.closed) && w.Arrived() {
      w.ArrivedIsHandled();
    }
  }
}
