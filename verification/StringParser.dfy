/** The two passes of `parse_string` as loops over the input. */
module StringParser {
  import opened Bytes
  import opened Utf
  import opened StringCodec

  /** First pass: finds the closing quote and counts the bytes hidden by backslashes. */
  method ScanString(s: seq<byte>, start: nat) returns (end: int, skipped: nat)
    requires start <= |s|
    ensures end == ClosingQuote(s, start)
    ensures end >= 0 ==> skipped == Count(Hiding(s, start, end), start, end)
  {
    ghost var e := ClosingQuote(s, start);
    ghost var k := if e >= 0 then Hiding(s, start, e) else {};
    var p := start;
    skipped := 0;
    while p < |s| && s[p] != QUOTE
      invariant start <= p <= |s| && ClosingQuote(s, p) == e
      invariant e >= 0 ==> Scanned(s, k, start, p, e, skipped)
      decreases |s| - p
    {
      if e >= 0 {
        ScanStep(s, k, start, p, e, skipped);
      }
      if s[p] == BACKSLASH {
        if p + 1 >= |s| {
          return -1, skipped;
        }
        skipped := skipped + 1;
        p := p + 1;
      }
      p := p + 1;
    }
    if p >= |s| || s[p] != QUOTE {
      return -1, skipped;
    }
    end := p;
  }

  ghost predicate Scanned(s: seq<byte>, k: set<int>, start: nat, p: nat, e: nat, skipped: nat) {
    && start <= p <= e < |s| && ClosingQuote(s, start) == e && k == Hiding(s, start, e)
    && skipped == Count(k, start, p)
    && forall x :: p <= x ==> (x in k <==> x in Hiding(s, p, e))
  }

  lemma ScanStep(s: seq<byte>, k: set<int>, start: nat, p: nat, e: nat, skipped: nat)
    requires Scanned(s, k, start, p, e, skipped) && ClosingQuote(s, p) == e && s[p] != QUOTE
    ensures
      if s[p] == BACKSLASH then Scanned(s, k, start, p + 2, e, skipped + 1)
      else Scanned(s, k, start, p + 1, e, skipped)
  {
    HidingIsSparse(s, start);
    if s[p] == BACKSLASH {
      assert ClosingQuote(s, p + 2) == e;
      assert p in k;
      CountSplit(k, start, p, p + 2);
      assert Count(k, p, p + 2) == 1 + Count(k, p + 1, p + 2) && Count(k, p + 1, p + 2) == Count(k, p + 2, p + 2);
    } else {
      assert ClosingQuote(s, p + 1) == e;
      HidingIsSparse(s, p + 1);
      CountSplit(k, start, p, p + 1);
      assert Count(k, p, p + 1) == Count(k, p + 1, p + 1);
    }
  }

  /**
   * Second pass: decodes into the output buffer and terminates it. Every write is inside the buffer,
   * whose size is what the first pass computed plus the terminator.
   */
  method DecodeString(s: seq<byte>, start: nat, end: nat, skipped: nat, output: array<byte>)
    returns (ok: bool, written: nat, position: nat)
    requires ClosingQuote(s, start) == end && skipped == Count(Hiding(s, start, end), start, end)
    requires output.Length == (end - (start - 1) - skipped) + 1
    modifies output
    ensures ok ==>
      written < output.Length && output[written] == NUL && Decode(s, start, end) == Decoded(output[..written])
    ensures !ok ==> Decode(s, start, end) == BadEscape(position)
  {
    ghost var k := Hiding(s, start, end);
    RoomAtStart(s, start, end);
    hide ClosingQuote, Hiding, Count, Room, LiteralAt;
    var p := start;
    written := 0;
    assert output[..0] == [];
    while p < end
      invariant start <= p <= end + 1
      invariant written <= Room(k, start, if p <= end then p else end) <= Room(k, start, end)
      invariant Prepend(output[..written], Decode(s, p, end)) == Decode(s, start, end)
      decreases end - p
    {
      var step, count := DecodeStep(s, start, p, end, output, written);
      if step == 0 {
        return false, written, p;
      }
      p, written := p + step, written + count;
    }
    output[written] := NUL;
    assert output[..written] + [] == output[..written];
    ok, position := true, end;
  }

  /** One turn of the second pass: the bytes consumed (0 on a bad escape) and the bytes written. */
  method DecodeStep(s: seq<byte>, start: nat, p: nat, end: nat, output: array<byte>, at: nat)
    returns (step: nat, count: nat)
    requires ClosingQuote(s, start) == end && start <= p < end < |s|
    requires at <= Room(Hiding(s, start, end), start, p)
    requires Room(Hiding(s, start, end), start, end) + 1 < output.Length
    modifies output
    ensures step == 0 ==> Decode(s, p, end) == BadEscape(p)
    ensures step != 0 ==> p + step <= end + 1 && at + count <= output.Length
    ensures step != 0 ==>
      at + count <= Room(Hiding(s, start, end), start, if p + step <= end then p + step else end)
                 <= Room(Hiding(s, start, end), start, end)
    ensures step != 0 ==>
      Prepend(output[..at + count], Decode(s, p + step, end)) == Prepend(old(output[..at]), Decode(s, p, end))
  {
    hide ClosingQuote, Hiding, Count, Room, LiteralAt;
    RoomStep(s, start, p, end);
    ghost var done := output[..at];
    if s[p] != BACKSLASH {
      output[at] := s[p];
      PrependConcat(done, [s[p]], Decode(s, p + 1, end));
      assert output[..at + 1] == done + [s[p]];
      return 1, 1;
    }
    if s[p + 1] == 117 {
      step, count := Utf16LiteralToUtf8(s, p, end, output, at);
      if step != 0 {
        PrependConcat(done, Utf8(LiteralAt(s, p, end).codepoint), Decode(s, p + step, end));
      }
      return;
    }
    var b := SimpleEscape(s[p + 1]);
    if b < 0 {
      return 0, 0;
    }
    output[at] := b;
    PrependConcat(done, [b], Decode(s, p + 2, end));
    assert output[..at + 1] == done + [b];
    return 2, 1;
  }

  lemma RoomAtStart(s: seq<byte>, start: nat, end: nat)
    requires start <= end <= |s|
    ensures var k := Hiding(s, start, end); 0 == Room(k, start, start) <= Room(k, start, end)
    ensures var k := Hiding(s, start, end); Room(k, start, end) == end - start - Count(k, start, end)
  {
    CountAtMost(Hiding(s, start, end), start, end);
  }

  /** The room that each kind of step leaves. */
  lemma RoomStep(s: seq<byte>, start: nat, p: nat, end: nat)
    requires ClosingQuote(s, start) == end && start <= p < end < |s|
    ensures var k := Hiding(s, start, end); var literal := LiteralAt(s, p, end);
      && (s[p] != BACKSLASH ==> Room(k, start, p) + 1 <= Room(k, start, p + 1) <= Room(k, start, end))
      && (s[p] == BACKSLASH && p + 2 <= end ==> Room(k, start, p) + 1 <= Room(k, start, p + 2) <= Room(k, start, end))
      && (p + 2 > end ==> Room(k, start, p) + 1 <= Room(k, start, end))
      && (literal.length != 0 ==>
            Room(k, start, p) + Utf8Length(literal.codepoint)
            <= Room(k, start, p + literal.length) <= Room(k, start, end))
      && Room(k, start, p) <= Room(k, start, end)
  {
    var k := Hiding(s, start, end);
    var literal := LiteralAt(s, p, end);
    HidingIsSparse(s, start);
    if p + 2 <= end {
      StepFits(s, k, end, start, p, 2, 1);
    } else {
      LastStepFits(s, k, end, start, p);
    }
    if s[p] != BACKSLASH {
      StepFits(s, k, end, start, p, 1, 1);
    }
    if literal.length != 0 {
      StepFits(s, k, end, start, p, literal.length, Utf8Length(literal.codepoint));
    }
  }
}
