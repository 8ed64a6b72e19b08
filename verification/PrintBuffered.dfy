/** The growing-buffer printer: text is written at `offset` into a buffer that `ensure`
    enlarges. The buffer ends up holding exactly `Text` of the tree. */
module PrintBuffered {
  import opened Seqs
  import opened CString
  import opened CJson
  import opened JsonText
  import opened Bits
  import PrintAlloc

  /** Sizes stay far enough below 2^30 for pow2gt not to overflow. */
  const LIMIT: nat := 0x4000_0000 - 64

  lemma LimitIsPow2()
    ensures LIMIT + 64 == Pow2(30)
  {
    assert Pow2(10) == 1024;
    assert Pow2(20) == 1024 * 1024;
  }

  /** malloc of the new size and memcpy of the old contents. */
  method Enlarged(oldbuffer: array<char>, newsize: nat) returns (newbuffer: array<char>)
    requires oldbuffer.Length <= newsize
    ensures fresh(newbuffer) && newbuffer.Length == newsize
    ensures forall j :: 0 <= j < oldbuffer.Length ==> newbuffer[j] == oldbuffer[j]
  {
    newbuffer := new char[newsize];
    for i := 0 to oldbuffer.Length
      invariant forall j :: 0 <= j < i ==> newbuffer[j] == oldbuffer[j]
    {
      newbuffer[i] := oldbuffer[i];
    }
  }

  class PrintBuffer {
    var buffer: array<char>
    var offset: nat

    constructor (prebuffer: nat)
      ensures fresh(buffer) && buffer.Length == prebuffer && offset == 0
    {
      buffer := new char[prebuffer];
      offset := 0;
    }

    /** What is already written. */
    ghost function Done(): string
      requires offset <= buffer.Length
      reads this, buffer
    {
      buffer[..offset]
    }

    /** ensure: room for `needed` more characters at the offset; nothing written is lost. */
    method Ensure(needed: nat)
      requires offset <= buffer.Length && 1 <= offset + needed <= LIMIT + 64
      modifies this`buffer
      ensures buffer == old(buffer) || fresh(buffer)
      ensures offset + needed <= buffer.Length && buffer[..offset] == old(buffer[..offset])
    {
      var total := needed + offset;
      if total <= buffer.Length {
        return;
      }
      LimitIsPow2();
      ghost var k := Pow2gtIsLeast(total);
      var newsize := Pow2gt(total);
      buffer := Enlarged(buffer, newsize);
    }

    /** Reserve, write `s` (with or without a terminator) inside the reserved space, and
        move the offset behind it. */
    method Put(s: string, needed: nat, terminate: bool)
      requires offset <= buffer.Length && 1 <= offset + needed <= LIMIT + 64
      requires |s| + (if terminate then 1 else 0) <= needed
      modifies this, buffer
      ensures buffer == old(buffer) || fresh(buffer)
      ensures offset == old(offset) + |s| <= buffer.Length
      ensures buffer[..offset] == old(Done()) + s
    {
      WriteAt(s, needed, terminate);
      offset := offset + |s|;
    }

    /** Reserve and write at the offset, which stays where it is. */
    method WriteAt(s: string, needed: nat, terminate: bool)
      requires offset <= buffer.Length && 1 <= offset + needed <= LIMIT + 64
      requires |s| + (if terminate then 1 else 0) <= needed
      modifies this`buffer, buffer
      ensures buffer == old(buffer) || fresh(buffer)
      ensures offset + |s| + (if terminate then 1 else 0) <= buffer.Length
      ensures buffer[..offset + |s|] == old(Done()) + s
      ensures terminate ==> buffer[offset + |s|] == '\0'
    {
      ghost var done := Done();
      Ensure(needed);
      for i := 0 to |s|
        modifies buffer
        invariant buffer[..offset + i] == done + s[..i]
      {
        buffer[offset + i] := s[i];
        assert s[..i + 1] == s[..i] + [s[i]];
      }
      assert s[..|s|] == s;
      if terminate {
        buffer[offset + |s|] := '\0';
        assert buffer[..offset + |s|] == done + s;
      }
    }

    /** update: the offset moves over the C string written there. */
    method Update(ghost s: string, ghost full: string)
      requires offset + |s| < buffer.Length && NulFree(s)
      requires buffer[..offset + |s|] == full && buffer[offset..offset + |s|] == s && buffer[offset + |s|] == '\0'
      modifies this`offset
      ensures offset == old(offset) + |s| && buffer[..offset] == full
    {
      var n := 0;
      assert forall i :: 0 <= i < |s| ==> s[i] == buffer[offset + i];
      while buffer[offset + n] != '\0'
        invariant n <= |s|
        decreases |s| - n
      {
        n := n + 1;
      }
      offset := offset + n;
    }

    /** print_value with a buffer: the text stands at the old offset, terminated; the
        offset has moved somewhere into it. Returns the position of the pointer that the
        C routine returns; for a non-empty formatted object the loop variable holding it
        is reused, so it is the depth and only right at depth 0. */
    method PrintValue(t: Json, depth: nat, fmt: bool) returns (at: nat)
      requires offset <= buffer.Length && Printable(t) && offset + |Text(t, depth, fmt)| <= LIMIT
      modifies this, buffer
      ensures buffer == old(buffer) || fresh(buffer)
      ensures var n := old(offset) + |Text(t, depth, fmt)|;
              old(offset) <= offset <= n < buffer.Length
              && buffer[..n] == old(Done()) + Text(t, depth, fmt) && buffer[n] == '\0'
      ensures at == if t.Object? && t.members != [] && fmt then depth else old(offset)
      decreases t, 0
    {
      at := offset;
      match t
      case Array(items) => PrintArray(items, depth, fmt);
      case Object(ms) => at := PrintObject(ms, depth, fmt);
      case _ => PrintScalar(t, depth, fmt);
    }

    method PrintScalar(t: Json, depth: nat, fmt: bool)
      requires offset <= buffer.Length && Printable(t) && offset + |Text(t, depth, fmt)| <= LIMIT
      requires !t.Array? && !t.Object?
      modifies this`buffer, buffer
      ensures buffer == old(buffer) || fresh(buffer)
      ensures var n := offset + |Text(t, depth, fmt)|;
              n < buffer.Length && buffer[..n] == old(Done()) + Text(t, depth, fmt) && buffer[n] == '\0'
    {
      match t
      case Null => WriteAt("null", 5, true);
      case False => WriteAt("false", 6, true);
      case True => WriteAt("true", 5, true);
      case Number(i, d) => PrintNumber(i, d);
      case String(s) => PrintString(s);
    }

    method PrintNumber(i: int, d: real)
      requires offset <= buffer.Length && INT_MIN <= i <= INT_MAX && offset + |NumberText(i, d)| <= LIMIT
      modifies this`buffer, buffer
      ensures buffer == old(buffer) || fresh(buffer)
      ensures var n := offset + |NumberText(i, d)|;
              n < buffer.Length && buffer[..n] == old(Done()) + NumberText(i, d) && buffer[n] == '\0'
    {
      PrintAlloc.NumberLength(i, d);
      if d == 0.0 { WriteAt("0", 2, true); } else { WriteAt(DecimalInt(i), 21, true); }
    }

    method PrintString(str: string)
      requires offset <= buffer.Length && NulFree(str) && offset + |StringText(str)| <= LIMIT
      modifies this`buffer, buffer
      ensures buffer == old(buffer) || fresh(buffer)
      ensures var n := offset + |StringText(str)|;
              n < buffer.Length && buffer[..n] == old(Done()) + StringText(str) && buffer[n] == '\0'
    {
      var flag := PrintAlloc.AnyEscapes(str);
      var len := PrintAlloc.StringLength(str, flag);
      Ensure(len + 3);
      PrintAlloc.WriteString(buffer, offset, str, flag);
    }

    /** A whole value and then update. */
    method PrintChild(t: Json, depth: nat, fmt: bool)
      requires offset <= buffer.Length && Printable(t) && offset + |Text(t, depth, fmt)| <= LIMIT
      modifies this, buffer
      ensures buffer == old(buffer) || fresh(buffer)
      ensures offset == old(offset) + |Text(t, depth, fmt)| <= buffer.Length
      ensures buffer[..offset] == old(Done()) + Text(t, depth, fmt)
      decreases t, 1
    {
      ghost var pre, text := Done(), Text(t, depth, fmt);
      var at := PrintValue(t, depth, fmt);
      TextNulFree(t, depth, fmt);
      ghost var full := pre + text;
      ghost var tail := full[offset..];
      assert forall i :: 0 <= i < |tail| ==> tail[i] == text[offset - |pre| + i];
      Update(tail, full);
    }

    method PrintArray(items: seq<Json>, depth: nat, fmt: bool)
      requires offset <= buffer.Length && PrintableItems(items) && offset + |Text(Array(items), depth, fmt)| <= LIMIT
      modifies this, buffer
      ensures buffer == old(buffer) || fresh(buffer)
      ensures var n := old(offset) + |Text(Array(items), depth, fmt)|;
              old(offset) <= offset <= n < buffer.Length
              && buffer[..n] == old(Done()) + Text(Array(items), depth, fmt) && buffer[n] == '\0'
      decreases items, 2
    {
      if items == [] {
        WriteAt("[]", 3, true);
        return;
      }
      ghost var pre := Done();
      ghost var full := pre + Text(Array(items), depth, fmt);
      ghost var d := depth + 1;
      Assoc("[", ItemsText(items, d, fmt), "]");
      Assoc(pre, "[", ItemsText(items, d, fmt) + "]");
      Put("[", 1, false);
      PrintItems(items, depth + 1, fmt, full);
      WriteAt("]", 2, true);
    }

    /** The loop over the items. */
    method PrintItems(items: seq<Json>, depth: nat, fmt: bool, ghost full: string)
      requires PrintableItems(items) && offset <= buffer.Length && |full| <= LIMIT
      requires buffer[..offset] + (ItemsText(items, depth, fmt) + "]") == full
      modifies this, buffer
      ensures buffer == old(buffer) || fresh(buffer)
      ensures old(offset) <= offset <= buffer.Length
      ensures buffer[..offset] + "]" == full
      decreases items, 1
    {
      assert items[0..] == items;
      for c := 0 to |items|
        invariant buffer == old(buffer) || fresh(buffer)
        invariant old(offset) <= offset <= buffer.Length
        invariant buffer[..offset] + (ItemsText(items[c..], depth, fmt) + "]") == full
      {
        PrintItem(items, c, depth, fmt, full);
      }
      assert ItemsText(items[|items|..], depth, fmt) + "]" == "]";
    }

    /** One item and the separator behind it. */
    method PrintItem(items: seq<Json>, c: nat, depth: nat, fmt: bool, ghost full: string)
      requires c < |items| && PrintableItems(items) && offset <= buffer.Length && |full| <= LIMIT
      requires buffer[..offset] + (ItemsText(items[c..], depth, fmt) + "]") == full
      modifies this, buffer
      ensures buffer == old(buffer) || fresh(buffer)
      ensures old(offset) <= offset <= buffer.Length
      ensures buffer[..offset] + (ItemsText(items[c + 1..], depth, fmt) + "]") == full
      decreases items[c], 2
    {
      ghost var rest := items[c..];
      ghost var after := AfterItem(rest, depth, fmt, "]");
      assert rest[1..] == items[c + 1..];
      ItemsLayout(rest, depth, fmt, "]");
      Assoc(Done(), Text(items[c], depth, fmt), after);
      PrintChild(items[c], depth, fmt);
      if c + 1 < |items| {
        Assoc(Done(), Comma(fmt), ItemsText(items[c + 1..], depth, fmt) + "]");
        Put(Comma(fmt), |Comma(fmt)| + 1, true);
      } else {
        assert ItemsText(items[c + 1..], depth, fmt) + "]" == "]";
      }
    }

    method PrintObject(ms: seq<Member>, depth: nat, fmt: bool) returns (at: nat)
      requires offset <= buffer.Length && PrintableMembers(ms) && offset + |Text(Object(ms), depth, fmt)| <= LIMIT
      modifies this, buffer
      ensures buffer == old(buffer) || fresh(buffer)
      ensures var n := old(offset) + |Text(Object(ms), depth, fmt)|;
              old(offset) <= offset <= n < buffer.Length
              && buffer[..n] == old(Done()) + Text(Object(ms), depth, fmt) && buffer[n] == '\0'
      ensures at == if ms != [] && fmt then depth else old(offset)
      decreases ms, 3
    {
      at := offset;
      if ms == [] {
        PrintBraces(depth, fmt);
        return;
      }
      PrintFilled(ms, depth, fmt, Done() + Text(Object(ms), depth, fmt));
      if fmt { at := depth; }
    }

    /** An object with members. */
    method PrintFilled(ms: seq<Member>, depth: nat, fmt: bool, ghost full: string)
      requires ms != [] && offset <= buffer.Length && PrintableMembers(ms) && |full| <= LIMIT
      requires full == Done() + Text(Object(ms), depth, fmt)
      modifies this, buffer
      ensures buffer == old(buffer) || fresh(buffer)
      ensures old(offset) <= offset <= |full| < buffer.Length && buffer[..|full|] == full && buffer[|full|] == '\0'
      decreases ms, 2
    {
      var end := Opt(fmt, Tabs(depth)) + "}";
      OpenObject(ms, depth, fmt, end, full);
      PrintMembers(ms, depth + 1, fmt, end, full);
      CloseObject(depth, fmt, end, full);
    }

    /** The tabs and the brace behind the members. */
    method CloseObject(depth: nat, fmt: bool, end: string, ghost full: string)
      requires offset <= buffer.Length && |full| <= LIMIT && end == Opt(fmt, Tabs(depth)) + "}"
      requires buffer[..offset] + end == full
      modifies this, buffer
      ensures buffer == old(buffer) || fresh(buffer)
      ensures offset == old(offset) <= |full| < buffer.Length && buffer[..|full|] == full && buffer[|full|] == '\0'
    {
      WriteAt(end, if fmt then depth + 2 else 2, true);
    }

    /** An object without members. */
    method PrintBraces(depth: nat, fmt: bool)
      requires offset <= buffer.Length && offset + |Text(Object([]), depth, fmt)| <= LIMIT
      modifies this, buffer
      ensures buffer == old(buffer) || fresh(buffer)
      ensures var n := old(offset) + |Text(Object([]), depth, fmt)|;
              offset == old(offset) <= n < buffer.Length
              && buffer[..n] == old(Done()) + Text(Object([]), depth, fmt) && buffer[n] == '\0'
    {
      WriteAt("{" + Opt(fmt, "\n" + Tabs(depth - 1)) + "}", if fmt then depth + 4 else 3, true);
    }

    /** The brace and, when formatting, the newline. */
    method OpenObject(ms: seq<Member>, depth: nat, fmt: bool, ghost end: string, ghost full: string)
      requires ms != [] && offset <= buffer.Length && |full| <= LIMIT
      requires end == Opt(fmt, Tabs(depth)) + "}" && full == Done() + Text(Object(ms), depth, fmt)
      modifies this, buffer
      ensures buffer == old(buffer) || fresh(buffer)
      ensures old(offset) <= offset <= buffer.Length
      ensures buffer[..offset] + (MembersText(ms, depth + 1, fmt) + end) == full
    {
      ghost var body := MembersText(ms, depth + 1, fmt) + end;
      var open := "{" + Opt(fmt, "\n");
      Assoc(open + MembersText(ms, depth + 1, fmt), Opt(fmt, Tabs(depth)), "}");
      Assoc(open, MembersText(ms, depth + 1, fmt), end);
      Assoc(Done(), open, body);
      Put(open, |open| + 1, true);
    }

    method PrintMembers(ms: seq<Member>, depth: nat, fmt: bool, ghost close: string, ghost full: string)
      requires PrintableMembers(ms) && depth >= 1 && offset <= buffer.Length && |full| <= LIMIT
      requires buffer[..offset] + (MembersText(ms, depth, fmt) + close) == full
      modifies this, buffer
      ensures buffer == old(buffer) || fresh(buffer)
      ensures old(offset) <= offset <= buffer.Length
      ensures buffer[..offset] + close == full
      decreases ms, 1
    {
      assert ms[0..] == ms;
      for c := 0 to |ms|
        invariant buffer == old(buffer) || fresh(buffer)
        invariant old(offset) <= offset <= buffer.Length
        invariant buffer[..offset] + (MembersText(ms[c..], depth, fmt) + close) == full
      {
        PrintMember(ms, c, depth, fmt, close, full);
      }
      assert MembersText(ms[|ms|..], depth, fmt) + close == close;
    }

    /** Tabs, name, colon, value, comma and newline of one member. */
    method PrintMember(ms: seq<Member>, c: nat, depth: nat, fmt: bool, ghost close: string, ghost full: string)
      requires c < |ms| && PrintableMembers(ms) && depth >= 1 && offset <= buffer.Length && |full| <= LIMIT
      requires buffer[..offset] + (MembersText(ms[c..], depth, fmt) + close) == full
      modifies this, buffer
      ensures buffer == old(buffer) || fresh(buffer)
      ensures old(offset) <= offset <= buffer.Length
      ensures buffer[..offset] + (MembersText(ms[c + 1..], depth, fmt) + close) == full
      decreases ms[c], 2
    {
      ghost var rest := ms[c..];
      ghost var inner := MembersText(ms[c + 1..], depth, fmt) + close;
      ghost var after := AfterMember(rest, depth, fmt, close);
      ghost var value := Text(ms[c].value, depth, fmt) + after;
      assert rest[1..] == ms[c + 1..];
      MembersLayout(rest, depth, fmt, close);
      PrintName(ms[c].name, depth, fmt, value, full);
      Assoc(Done(), Text(ms[c].value, depth, fmt), after);
      PrintChild(ms[c].value, depth, fmt);
      var sep := Opt(c + 1 < |ms|, ",") + Opt(fmt, "\n");
      Assoc(Opt(c + 1 < |ms|, ","), Opt(fmt, "\n"), inner);
      Assoc(Done(), sep, inner);
      Put(sep, |sep| + 1, true);
    }

    method PrintName(name: string, depth: nat, fmt: bool, ghost value: string, ghost full: string)
      requires NulFree(name) && depth >= 1 && offset <= buffer.Length && |full| <= LIMIT
      requires buffer[..offset] + (NameText(name, depth, fmt) + value) == full
      modifies this, buffer
      ensures buffer == old(buffer) || fresh(buffer)
      ensures old(offset) <= offset <= buffer.Length
      ensures buffer[..offset] + value == full
    {
      ghost var quoted := StringText(name);
      ghost var colon := ":" + (Opt(fmt, "\t") + value);
      NameLayout(name, depth, fmt, value);
      Assoc(Done(), Opt(fmt, Tabs(depth)), quoted + colon);
      if fmt {
        Put(Tabs(depth), depth, false);
      } else {
        assert Opt(fmt, Tabs(depth)) + (quoted + colon) == quoted + colon;
      }
      Assoc(Done(), quoted, colon);
      ghost var upto := Done() + quoted;
      NameNulFree(name, depth, fmt);
      PrintString(name);
      Update(quoted, upto);
      var sep := ":" + Opt(fmt, "\t");
      Assoc(":", Opt(fmt, "\t"), value);
      Assoc(Done(), sep, value);
      Put(sep, |sep|, false);
    }
  }

  /** cJSON_PrintBuffered: for every starting size the returned pointer is the start of a
      buffer holding exactly what the two-pass printer produces. */
  method PrintBuffered(t: Json, prebuffer: nat, fmt: bool) returns (p: PrintBuffer, at: nat)
    requires Printable(t) && |Text(t, 0, fmt)| <= LIMIT
    ensures at == 0 && PrintAlloc.Holds(p.buffer, Text(t, 0, fmt))
  {
    p := new PrintBuffer(prebuffer);
    at := p.PrintValue(t, 0, fmt);
  }

  /** The two printers side by side. */
  method BothPrinters(t: Json, prebuffer: nat, fmt: bool) returns (a: string, b: string)
    requires Printable(t) && |Text(t, 0, fmt)| <= LIMIT
    ensures a == b == Text(t, 0, fmt)
  {
    TextNulFree(t, 0, fmt);
    var one := PrintAlloc.PrintValue(t, 0, fmt);
    a := PrintAlloc.Contents(one, Text(t, 0, fmt));
    var p, at := PrintBuffered(t, prebuffer, fmt);
    b := PrintAlloc.Contents(p.buffer, Text(t, 0, fmt));
  }
}
