/** Parsing undoes printing. */
module RoundTrip {
  import opened Bytes
  import opened JsonValue
  import opened NumberText
  import opened Rendering
  import opened StringCodec
  import opened ParseSpec
  import Grammar
  import Reading
  import Layout

  /** `strtod` reads back exactly the int that `%d` wrote, and all of its text. */
  lemma StrtodOfIntText(n: int)
    ensures Strtod(IntText(n)) == Decimal(n as real, |IntText(n)|)
  {
    hide Strtod, IntText;
    var m := Layout.IntIsPlain(n);
    Reading.NumeralIsRead(m);
  }

  /** `parse_string` on a string that `print_string_ptr` wrote returns the original string, and consumes all of it. */
  lemma StringRoundTrip(s: seq<byte>, i: nat, t: CString)
    requires At(s, i, StringText(t))
    ensures i < |s| && StringAt(s, i) == Text(t, i + |StringText(t)|)
  {
    hide At, StringText, StringAt;
    var us := Layout.StringIsShortest(t);
    Layout.QuotedIsStringText(us);
    Reading.LiteralIsRead(s, i, us);
  }

  /** The buffer that holds the C string `t`. */
  function Buffer(t: CString): (s: seq<byte>)
    ensures Terminated(s)
  {
    t + [NUL]
  }

  /**
   * Parse undoes print: the formatted or compact text of a printable value nested at most 1000 deep
   * parses, is consumed up to its NUL, and gives the same value in the same order. This holds with
   * and without the demand that nothing follows the value.
   */
  lemma ParseUndoesPrint(v: Json, format: bool, depth: nat, requireNul: bool)
    requires Printable(v) && Height(v) <= NESTING_LIMIT
    ensures ParseDocument(Buffer(Render(v, format, depth)), requireNul) == Parsed(v, |Render(v, format, depth)|)
  {
    hide Render, Printable, Height, ParseDocument;
    var c := Layout.LayOut(v, format, depth);
    Layout.LaidIsRendered(c, format, depth);
    var d := Reading.Document(false, [], c, []);
    Reading.DocumentIsRead(d, requireNul);
    assert [] + [] + Grammar.TextOf(c) == Grammar.TextOf(c);
    assert Reading.DocumentText(d) == Buffer(Render(v, format, depth));
  }

  /** Under a limit that is high enough, the text of every printable value is read back. */
  lemma ReadUnderLimit(v: Json, format: bool, depth: nat, nesting: int)
    requires Printable(v) && nesting + Height(v) <= NESTING_LIMIT
    ensures var t := Render(v, format, depth);
      t != [] && t[0] > 32 && t[0] != 239 && ParseValue(Buffer(t), 0, nesting) == Parsed(v, |t|)
  {
    hide Render, Printable, Height, ParseValue, Grammar.TextOf;
    var c := Layout.LayOut(v, format, depth);
    Layout.LaidIsRendered(c, format, depth);
    Reading.TextHead(c);
    Reading.FirstByte(c);
    Reading.ValueIsRead(Buffer(Render(v, format, depth)), 0, c, nesting);
  }

  /** Beyond the nesting limit the printed text is refused. */
  lemma DeepTextFails(v: Json, format: bool, depth: nat, requireNul: bool)
    requires Printable(v) && Height(v) > NESTING_LIMIT
    ensures ParseDocument(Buffer(Render(v, format, depth)), requireNul).Failed?
  {
    hide Render, Printable, Height, ParseValue;
    var s := Buffer(Render(v, format, depth));
    ReadUnderLimit(v, format, depth, NESTING_LIMIT - Height(v));
    if ParseValue(s, 0, 0).Parsed? {
      ValueUnderHigherLimit(s, 0, 0, NESTING_LIMIT - Height(v));
      assert false;
    }
  }

  /** The printer's text is read back if it is nested at most 1000 deep, and refused otherwise. */
  lemma PrintedTextParsesIff(v: Json, format: bool, depth: nat, requireNul: bool)
    requires Printable(v)
    ensures var r := ParseDocument(Buffer(Render(v, format, depth)), requireNul);
      if Height(v) <= 1000 then r == Parsed(v, |Render(v, format, depth)|) else r.Failed?
  {
    hide Render, Printable, Height, ParseDocument;
    if Height(v) <= NESTING_LIMIT {
      ParseUndoesPrint(v, format, depth, requireNul);
    } else {
      DeepTextFails(v, format, depth, requireNul);
    }
  }

  /** Print, parse and print again: the text is the same, whatever format was printed first. */
  lemma PrintParsePrint(v: Json, first: bool, second: bool)
    requires Printable(v) && Height(v) <= NESTING_LIMIT
    ensures var r := ParseDocument(Buffer(Render(v, first, 0)), true);
            r.Parsed? && Render(r.value, second, 0) == Render(v, second, 0)
  {
    ParseUndoesPrint(v, first, 0, true);
  }

  /** Whatever text was parsed: printing the result, in either format, and parsing that gives it again. */
  lemma ParsePrintParse(s: seq<byte>, requireNul: bool, format: bool)
    requires Terminated(s)
    ensures var r := ParseDocument(s, requireNul);
      r.Parsed? && Printable(r.value) ==>
        ParseDocument(Buffer(Render(r.value, format, 0)), true) == Parsed(r.value, |Render(r.value, format, 0)|)
  {
    hide Render;
    var r := ParseDocument(s, requireNul);
    if r.Parsed? && Printable(r.value) {
      hide ParseDocument;
      ParseUndoesPrint(r.value, format, 0, true);
    }
  }

  /** Different printable values never share a text, however deep they are nested. */
  lemma RenderIsInjective(v: Json, w: Json, format: bool, depth: nat)
    requires Printable(v) && Printable(w) && Render(v, format, depth) == Render(w, format, depth)
    ensures v == w
  {
    hide Render, Printable, Height, ParseValue;
    var nesting := NESTING_LIMIT - Height(v) - Height(w);
    ReadUnderLimit(v, format, depth, nesting);
    ReadUnderLimit(w, format, depth, nesting);
  }
}
