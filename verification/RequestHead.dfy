/** The head of a request in a stream of bytes: its first line, the header lines behind it, and the
    position behind the empty line that ends it. */
module RequestHead {
  import opened Option
  import opened Seqs
  import opened SockIn

  type Line = seq<char>

  /** The lines up to the first empty one. */
  function Fields(lines: seq<Line>): Option<seq<Line>> {
    if lines == [] then None
    else if lines[0] == [] then Some([])
    else match Fields(lines[1..]) case None => None case Some(h) => Some([lines[0]] + h)
  }

  datatype Head = Head(first: Line, header: seq<Line>)

  /** Empty lines in front of a request are skipped. */
  function HeadOf(lines: seq<Line>): Option<Head> {
    if lines == [] then None
    else if lines[0] == [] then HeadOf(lines[1..])
    else match Fields(lines[1..]) case None => None case Some(h) => Some(Head(lines[0], h))
  }

  /** The lines but the first `base`, which belong to earlier requests. */
  function Own(lines: seq<Line>, base: nat): seq<Line> {
    if base <= |lines| then lines[base..] else []
  }

  function HeadIn(s: seq<char>, base: nat): Option<Head> {
    HeadOf(Own(Scan(s).done, base))
  }

  /** Where that head ends: the bytes of the shortest stream that has one. */
  function HeadEnd(s: seq<char>, base: nat): (r: Option<nat>)
    ensures r.Some? ==> r.value <= |s|
    ensures r.Some? <==> HeadIn(s, base).Some?
  {
    if HeadIn(s, base).None? then None
    else if s != [] && HeadEnd(s[..|s| - 1], base).Some? then HeadEnd(s[..|s| - 1], base)
    else Some(|s|)
  }

  /** The lines behind the head. */
  function BehindFields(lines: seq<Line>): seq<Line> {
    if lines == [] then [] else if lines[0] == [] then lines[1..] else BehindFields(lines[1..])
  }

  function BehindHead(lines: seq<Line>): seq<Line> {
    if lines == [] then [] else if lines[0] == [] then BehindHead(lines[1..]) else BehindFields(lines[1..])
  }

  /** The lines that are not empty. */
  function Filled(lines: seq<Line>): seq<Line> {
    if lines == [] then []
    else
      var last := lines[|lines| - 1];
      Filled(lines[..|lines| - 1]) + if last == [] then [] else [last]
  }

  lemma FilledMore(lines: seq<Line>, line: Line)
    ensures Filled(lines + [line]) == if line == [] then Filled(lines) else Filled(lines) + [line]
  {
    assert (lines + [line])[..|lines|] == lines;
  }

  // ----- more lines, more bytes

  lemma {:induction false} FieldsPrefix(a: seq<Line>, b: seq<Line>)
    requires a <= b && Fields(a).Some?
    ensures Fields(b) == Fields(a)
  {
    if a[0] != [] { FieldsPrefix(a[1..], b[1..]); }
  }

  lemma {:induction false} HeadPrefix(a: seq<Line>, b: seq<Line>)
    requires a <= b && HeadOf(a).Some?
    ensures HeadOf(b) == HeadOf(a)
  {
    if a[0] == [] { HeadPrefix(a[1..], b[1..]); } else { FieldsPrefix(a[1..], b[1..]); }
  }

  lemma {:induction false} ScanGrows(a: seq<char>, b: seq<char>)
    requires a <= b
    ensures Scan(a).done <= Scan(b).done
    decreases |b|
  {
    if a != b { ScanGrows(a, b[..|b| - 1]); }
  }

  /** What comes behind a head does not change it. */
  lemma HeadStays(a: seq<char>, b: seq<char>, base: nat)
    requires a <= b && HeadIn(a, base).Some?
    ensures HeadIn(b, base) == HeadIn(a, base)
  {
    ScanGrows(a, b);
    HeadPrefix(Own(Scan(a).done, base), Own(Scan(b).done, base));
  }

  lemma {:induction false} HeadEndStays(a: seq<char>, b: seq<char>, base: nat)
    requires a <= b && HeadEnd(a, base).Some?
    ensures HeadEnd(b, base) == HeadEnd(a, base)
    decreases |b|
  {
    HeadStays(a, b, base);
    if a != b { HeadEndStays(a, b[..|b| - 1], base); }
  }

  /** So the bytes up to there have a complete head, and no fewer do. */
  lemma {:induction false} HeadEndIs(s: seq<char>, base: nat, k: nat)
    requires HeadEnd(s, base).Some? && k <= |s|
    ensures HeadIn(s[..k], base).Some? <==> k >= HeadEnd(s, base).value
    decreases |s|
  {
    var n := HeadEnd(s, base).value;
    if s != [] && HeadEnd(s[..|s| - 1], base).Some? {
      if k < |s| {
        HeadEndIs(s[..|s| - 1], base, k);
        assert s[..|s| - 1][..k] == s[..k];
      } else {
        assert s[..k] == s;
      }
    } else if k < |s| {
      if HeadIn(s[..k], base).Some? { HeadStays(s[..k], s[..|s| - 1], base); }
    } else {
      assert s[..k] == s;
    }
  }

  // ----- lines as they are read

  ghost predicate AllEmpty(lines: seq<Line>) {
    forall i :: 0 <= i < |lines| ==> lines[i] == []
  }

  ghost predicate NoneEmpty(lines: seq<Line>) {
    forall i :: 0 <= i < |lines| ==> lines[i] != []
  }

  /** Lines read so far, of which the first that is not empty is `first`. */
  function Opened(blanks: seq<Line>, first: Line, header: seq<Line>): seq<Line> {
    blanks + [first] + header
  }

  ghost predicate Opens(blanks: seq<Line>, first: Line, header: seq<Line>) {
    AllEmpty(blanks) && first != [] && NoneEmpty(header)
  }

  /** The same with the empty line that ends the header and the lines behind it. */
  function Ended(blanks: seq<Line>, first: Line, header: seq<Line>, more: seq<Line>): seq<Line> {
    Opened(blanks, first, header) + [[]] + more
  }

  lemma OpenedFirst(blanks: seq<Line>, first: Line)
    ensures Opened(blanks, first, []) == blanks + [first]
  {
  }

  lemma OpenedMore(blanks: seq<Line>, first: Line, header: seq<Line>, line: Line)
    ensures Opened(blanks, first, header + [line]) == Opened(blanks, first, header) + [line]
  {
    Assoc(blanks + [first], header, [line]);
  }

  lemma EndedNone(blanks: seq<Line>, first: Line, header: seq<Line>)
    ensures Ended(blanks, first, header, []) == Opened(blanks, first, header) + [[]]
  {
  }

  lemma EndedMore(blanks: seq<Line>, first: Line, header: seq<Line>, more: seq<Line>, line: Line)
    ensures Ended(blanks, first, header, more + [line]) == Ended(blanks, first, header, more) + [line]
  {
    Assoc(Opened(blanks, first, header) + [[]], more, [line]);
  }

  lemma {:induction false} EmptyHead(lines: seq<Line>)
    requires AllEmpty(lines)
    ensures HeadOf(lines) == None
  {
    if lines != [] { EmptyHead(lines[1..]); }
  }

  lemma {:induction false} OpenFields(h: seq<Line>)
    requires NoneEmpty(h)
    ensures Fields(h) == None && Fields(h + [[]]) == Some(h)
  {
    if h != [] {
      OpenFields(h[1..]);
      assert (h + [[]])[1..] == h[1..] + [[]] && h == [h[0]] + h[1..];
    }
  }

  /** Header lines that are not empty leave the head open; an empty one completes it. */
  lemma {:induction false} OpenHead(blanks: seq<Line>, first: Line, header: seq<Line>)
    requires Opens(blanks, first, header)
    ensures HeadOf(Opened(blanks, first, header)) == None
    ensures HeadOf(Opened(blanks, first, header) + [[]]) == Some(Head(first, header))
  {
    var lines := blanks + [first] + header;
    if blanks == [] {
      OpenFields(header);
      assert lines[1..] == header && (lines + [[]])[1..] == header + [[]];
    } else {
      OpenHead(blanks[1..], first, header);
      assert lines[1..] == blanks[1..] + [first] + header;
      assert (lines + [[]])[1..] == blanks[1..] + [first] + header + [[]];
    }
  }

  lemma {:induction false} BehindIs(blanks: seq<Line>, first: Line, header: seq<Line>, more: seq<Line>)
    requires Opens(blanks, first, header)
    ensures BehindHead(Ended(blanks, first, header, more)) == more
  {
    var lines := blanks + [first] + header + [[]] + more;
    if blanks == [] {
      BehindFieldsIs(header, more);
      assert lines[1..] == header + [[]] + more;
    } else {
      BehindIs(blanks[1..], first, header, more);
      assert lines[1..] == blanks[1..] + [first] + header + [[]] + more;
    }
  }

  lemma {:induction false} BehindFieldsIs(header: seq<Line>, more: seq<Line>)
    requires NoneEmpty(header)
    ensures BehindFields(header + [[]] + more) == more
  {
    var lines := header + [[]] + more;
    if header == [] {
      assert lines[1..] == more;
    } else {
      BehindFieldsIs(header[1..], more);
      assert lines[1..] == header[1..] + [[]] + more;
    }
  }

  /** A first line behind empty ones is the first line of the head, if that is complete. */
  lemma {:induction false} FirstIs(blanks: seq<Line>, first: Line, lines: seq<Line>)
    requires AllEmpty(blanks) && first != [] && blanks + [first] <= lines && HeadOf(lines).Some?
    ensures HeadOf(lines).value.first == first
  {
    if blanks != [] {
      assert blanks[1..] + [first] == (blanks + [first])[1..];
      FirstIs(blanks[1..], first, lines[1..]);
    }
  }

  /** The last byte ended an empty line behind the given ones. */
  ghost predicate Closes(s: seq<char>, all: seq<Line>) {
    s != [] && Scan(s[..|s| - 1]).done == all && Scan(s).done == all + [[]]
  }

  /** The bytes of a head at the start of those taken, and its lines behind those of earlier
      requests. */
  ghost predicate HeadRead(taken: seq<char>, head: seq<char>, prior: seq<Line>,
                           blanks: seq<Line>, first: Line, header: seq<Line>) {
    head <= taken && Opens(blanks, first, header) && Closes(head, prior + Opened(blanks, first, header))
  }

  lemma HeadReadStill(taken: seq<char>, taken': seq<char>, head: seq<char>, prior: seq<Line>,
                      blanks: seq<Line>, first: Line, header: seq<Line>)
    requires HeadRead(taken, head, prior, blanks, first, header) && taken <= taken'
    ensures HeadRead(taken', head, prior, blanks, first, header)
  {
  }

  /** An empty line behind an open head completes it, and the head ends with its last byte. */
  lemma ClosesHead(s: seq<char>, prior: seq<Line>, blanks: seq<Line>, first: Line, header: seq<Line>)
    requires Opens(blanks, first, header) && Closes(s, prior + Opened(blanks, first, header))
    ensures HeadEnd(s, |prior|) == Some(|s|) && HeadIn(s, |prior|) == Some(Head(first, header))
  {
    var lines := Opened(blanks, first, header);
    OwnBehind(prior, lines);
    Assoc(prior, lines, [[]]);
    OwnBehind(prior, lines + [[]]);
    OpenHead(blanks, first, header);
  }

  lemma OwnBehind(prior: seq<Line>, lines: seq<Line>)
    ensures Own(prior + lines, |prior|) == lines
  {
  }

  /** The lines of a stream, its unfinished last line among them or not, have a head only if the
      complete lines have. */
  lemma OpenStream(s: seq<char>, lines: seq<Line>, base: nat)
    requires (lines == Scan(s).done || lines == Final(Scan(s))) && HeadOf(Own(lines, base)).None?
    ensures HeadIn(s, base).None?
  {
    var done := Scan(s).done;
    if HeadIn(s, base).Some? { HeadPrefix(Own(done, base), Own(lines, base)); }
  }
}
