/** A string cut at every separator. */
module Pieces {
  import opened Bytes

  /** The pieces between the separators. */
  function Split(s: CString, separator: cbyte): (pieces: seq<CString>)
    ensures |pieces| >= 1
  {
    if s == [] then [[]]
    else if s[0] == separator then [[]] + Split(s[1..], separator)
    else
      var rest := Split(s[1..], separator);
      [[s[0]] + rest[0]] + rest[1..]
  }

  function Join(pieces: seq<CString>, separator: cbyte): CString
    requires pieces != []
  {
    if |pieces| == 1 then pieces[0] else pieces[0] + [separator] + Join(pieces[1..], separator)
  }

  /** No piece holds a separator. */
  predicate Parted(pieces: seq<CString>, separator: cbyte) {
    pieces != [] && forall i :: 0 <= i < |pieces| ==> separator !in pieces[i]
  }

  /** A string without a separator is one piece; otherwise the first piece ends at the first separator. */
  lemma {:induction false} SplitFirst(a: CString, separator: cbyte, rest: CString)
    requires separator !in a
    ensures Split(a, separator) == [a]
    ensures Split(a + [separator] + rest, separator) == [a] + Split(rest, separator)
  {
    var s := a + [separator] + rest;
    if a == [] {
      assert s == [separator] + rest && s[1..] == rest;
    } else {
      SplitFirst(a[1..], separator, rest);
      assert s[1..] == a[1..] + [separator] + rest;
      assert [a[0]] + a[1..] == a;
    }
  }

  /** Two strings with a separator between them have the pieces of the one and then those of the other. */
  lemma {:induction false} SplitBoth(a: CString, separator: cbyte, rest: CString)
    ensures Split(a + [separator] + rest, separator) == Split(a, separator) + Split(rest, separator)
  {
    var s := a + [separator] + rest;
    if a == [] {
      assert s == [separator] + rest && s[1..] == rest;
    } else {
      SplitBoth(a[1..], separator, rest);
      assert s[1..] == a[1..] + [separator] + rest && s[0] == a[0];
      FirstPiece(Split(a[1..], separator), Split(rest, separator), a[0]);
    }
  }

  lemma FirstPiece(a: seq<CString>, b: seq<CString>, c: cbyte)
    requires a != []
    ensures [[c] + (a + b)[0]] + (a + b)[1..] == [[c] + a[0]] + a[1..] + b
    ensures [[]] + (a + b) == [[]] + a + b
  {
    assert (a + b)[1..] == a[1..] + b;
  }

  /** The pieces of a string are the one way to write it as pieces joined by separators. */
  lemma {:induction false} SplitIsJoined(s: CString, pieces: seq<CString>, separator: cbyte)
    ensures Parted(pieces, separator) && Join(pieces, separator) == s <==> pieces == Split(s, separator)
  {
    SplitJoins(s, separator);
    if Parted(pieces, separator) && Join(pieces, separator) == s {
      JoinSplits(pieces, separator);
    }
  }

  lemma {:induction false} JoinSplits(pieces: seq<CString>, separator: cbyte)
    requires Parted(pieces, separator)
    ensures Split(Join(pieces, separator), separator) == pieces
  {
    if |pieces| == 1 {
      SplitFirst(pieces[0], separator, []);
    } else {
      JoinSplits(pieces[1..], separator);
      SplitFirst(pieces[0], separator, Join(pieces[1..], separator));
    }
  }

  lemma {:induction false} SplitJoins(s: CString, separator: cbyte)
    ensures Parted(Split(s, separator), separator) && Join(Split(s, separator), separator) == s
  {
    if s != [] {
      var rest := Split(s[1..], separator);
      SplitJoins(s[1..], separator);
      if s[0] == separator {
        assert Split(s, separator)[1..] == rest;
      } else {
        JoinBehind(s[0], rest, separator);
      }
    }
  }

  lemma JoinBehind(c: cbyte, rest: seq<CString>, separator: cbyte)
    requires rest != []
    ensures Join([[c] + rest[0]] + rest[1..], separator) == [c] + Join(rest, separator)
  {
    if |rest| > 1 {
      assert ([[c] + rest[0]] + rest[1..])[1..] == rest[1..];
    }
  }
}
