/** The entry points of the JSON library used together: print, parse and minify. */
module JsonRun {
  import opened CJson
  import opened JsonText
  import opened Parser
  import opened StringBuffer
  import ParserOps
  import PrintFits
  import opened RoundTrip
  import PrintAlloc
  import PrintBuffered
  import Minify

  /** cJSON_ParseWithOpts: the value and where its text ends. `over` says that some string did not
      fit the buffer measured for it, which text regular behind all its quotes excludes. */
  method ParseWithOpts(value: string, requireNullTerminated: bool) returns (r: Parsed<Json>, over: bool)
    ensures r == Parse(value, requireNullTerminated)
    ensures AllRegular(value) ==> !over
  {
    ParserOps.SkipStays(value);
    var start := ParserOps.SkipWhite(value);
    r, over := ParserOps.ParseValueAt(start);
    if r.Parsed? && requireNullTerminated {
      var end := ParserOps.SkipWhite(r.rest);
      if end != "" {
        return Fail, over;
      }
      return Parsed(r.value, end), over;
    }
  }

  /** Printing with either printer and parsing gives the tree back, uses all of the text and
      stays inside every buffer. */
  method PrintThenParse(t: Json, prebuffer: nat, fmt: bool, requireNullTerminated: bool)
    returns (one: Parsed<Json>, two: Parsed<Json>, over: bool)
    requires Printable(t) && |Text(t, 0, fmt)| <= PrintBuffered.LIMIT
    ensures one == two == Parsed(t, "") && !over
  {
    var a, b := PrintBuffered.BothPrinters(t, prebuffer, fmt);
    ParseUndoesPrint(t, fmt, requireNullTerminated);
    PrintFits.PrintedAllRegular(t, fmt);
    var more;
    one, over := ParseWithOpts(a, requireNullTerminated);
    two, more := ParseWithOpts(b, requireNullTerminated);
    over := over || more;
  }

  /** Minifying the formatted print in its own buffer leaves the unformatted print there. */
  method PrintThenMinify(t: Json) returns (text: string)
    requires Printable(t)
    ensures text == Text(t, 0, false)
  {
    var buf := PrintAlloc.PrintValue(t, 0, true);
    TextNulFree(t, 0, true);
    Minify.MinifyUndoesFormatting(t);
    var into := Minify.MinifyInPlace(buf, |Text(t, 0, true)|);
    text := buf[..into];
  }
}
