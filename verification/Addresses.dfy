/** `isValidIp4`: a one-pass recogniser, proved equal to a specification by splitting. */
module Addresses {
  import opened Bytes
  import opened Tree
  import opened Grammar
  import opened Pieces
  import Rendering
  import opened Layout

  /** One to any number of digits, worth at most 255; leading zeros are allowed. */
  predicate GoodPiece(s: CString) { s != [] && Digits(s) && Worth(s) <= 255 }

  predicate IsAddress(s: CString) {
    |Split(s, POINT)| == 4 && forall piece <- Split(s, POINT) :: GoodPiece(piece)
  }

  /** Appending to a run of digits never makes its value smaller. */
  lemma {:induction false} WorthGrows(p: CString, t: CString)
    ensures Worth(p + t) >= Worth(p)
    decreases |t|
  {
    if t == [] {
      assert p + t == p;
    } else {
      var u := t[..|t| - 1];
      assert (p + t)[..|p + t| - 1] == p + u;
      WorthGrows(p, u);
    }
  }

  /** The rest of the loop, with `segs` dots behind it and `count` digits worth `amount` in the current piece. */
  function Accepts(s: CString, segs: nat, count: nat, amount: nat): bool {
    if s == [] then segs == 3 && count != 0
    else if s[0] == POINT then count != 0 && segs + 1 != 4 && Accepts(s[1..], segs + 1, 0, 0)
    else
      var more := amount * 10 + (if IsDigit(s[0]) then s[0] - ZERO else 0);
      IsDigit(s[0]) && more <= 255 && Accepts(s[1..], segs, count + 1, more)
  }

  /** The pieces of the remaining input, the first one continuing the digits `p` already read. */
  predicate Completes(p: CString, pieces: seq<CString>, segs: nat)
    requires pieces != []
  {
    segs + |pieces| == 4 && GoodPiece(p + pieces[0]) && forall i :: 1 <= i < |pieces| ==> GoodPiece(pieces[i])
  }

  /** Rejecting as soon as a prefix exceeds 255 is the same as rejecting the full value. */
  lemma {:induction false} AcceptsIsSplit(s: CString, segs: nat, p: CString)
    requires segs <= 3 && Digits(p) && Worth(p) <= 255
    ensures Accepts(s, segs, |p|, Worth(p)) <==> Completes(p, Split(s, POINT), segs)
    decreases |s|
  {
    hide GoodPiece, Completes, Split, Digits, Worth;
    if s == [] {
      AtEnd(segs, p);
    } else if s[0] == POINT {
      AtPoint(s, segs, p);
      if segs + 1 <= 3 {
        NoDigits();
        AcceptsIsSplit(s[1..], segs + 1, []);
      } else {
        TooMany(s[1..], segs + 1);
      }
    } else {
      AtOther(s, segs, p);
      if IsDigit(s[0]) && Worth(p + [s[0]]) <= 255 {
        OneMoreDigit(p, s[0]);
        AcceptsIsSplit(s[1..], segs, p + [s[0]]);
      }
    }
  }

  lemma NoDigits()
    ensures Digits([]) && Worth([]) == 0
  {
  }

  lemma OneMoreDigit(p: CString, c: cbyte)
    requires Digits(p) && IsDigit(c)
    ensures Digits(p + [c])
  {
  }

  lemma TooMany(s: CString, segs: nat)
    requires segs >= 4
    ensures !Completes([], Split(s, POINT), segs)
  {
  }

  lemma AtEnd(segs: nat, p: CString)
    requires Digits(p) && Worth(p) <= 255
    ensures Completes(p, Split([], POINT), segs) <==> segs == 3 && p != []
  {
    assert p + [] == p;
  }

  lemma AtPoint(s: CString, segs: nat, p: CString)
    requires s != [] && s[0] == POINT && Digits(p) && Worth(p) <= 255
    ensures Completes(p, Split(s, POINT), segs) <==> p != [] && Completes([], Split(s[1..], POINT), segs + 1)
  {
    hide GoodPiece;
    var pieces, rest := Split(s, POINT), Split(s[1..], POINT);
    assert p + [] == p && [] + rest[0] == rest[0];
    assert pieces[0] == [] && pieces[1..] == rest;
    EmptyPiece(p);
    if Completes(p, pieces, segs) {
      forall i | 0 <= i < |rest| ensures GoodPiece(rest[i]) { assert rest[i] == pieces[i + 1]; }
    }
  }

  lemma EmptyPiece(p: CString)
    requires Digits(p) && Worth(p) <= 255
    ensures GoodPiece(p) <==> p != []
  {
  }

  lemma AtOther(s: CString, segs: nat, p: CString)
    requires s != [] && s[0] != POINT && Digits(p) && Worth(p) <= 255
    ensures Worth(p + [s[0]]) == 10 * Worth(p) + (if IsDigit(s[0]) then s[0] - ZERO else 0)
    ensures Completes(p, Split(s, POINT), segs)
       <==> IsDigit(s[0]) && Worth(p + [s[0]]) <= 255 && Completes(p + [s[0]], Split(s[1..], POINT), segs)
  {
    hide GoodPiece;
    var q := p + [s[0]];
    assert q[..|q| - 1] == p;
    Shifted(s, segs, p);
    GoodStart(q, Split(s[1..], POINT)[0]);
  }

  /** Moving a byte that is not a dot from the input to the digits already read. */
  lemma Shifted(s: CString, segs: nat, p: CString)
    requires s != [] && s[0] != POINT
    ensures Completes(p, Split(s, POINT), segs) <==> Completes(p + [s[0]], Split(s[1..], POINT), segs)
  {
    hide GoodPiece;
    var pieces, rest := Split(s, POINT), Split(s[1..], POINT);
    assert p + ([s[0]] + rest[0]) == p + [s[0]] + rest[0];
    assert pieces[0] == [s[0]] + rest[0] && |pieces| == |rest|;
    assert forall i :: 1 <= i < |rest| ==> pieces[i] == rest[i];
  }

  /** A good piece starts with digits worth at most 255. */
  lemma GoodStart(q: CString, t: CString)
    requires q != []
    ensures GoodPiece(q + t) ==> IsDigit(q[|q| - 1]) && Worth(q) <= 255
  {
    WorthGrows(q, t);
    assert (q + t)[|q| - 1] == q[|q| - 1];
  }

  /** `isValidIp4`. */
  method IsValidIp4(str: Text?) returns (valid: bool)
    ensures valid <==> str != null && IsAddress(str.s)
  {
    if str == null {
      return false;
    }
    AcceptsIsSplit(str.s, 0, []);
    CompletesIsAddress(str.s);
    var segs, count, accum, i := 0, 0, 0, 0;
    assert str.s[0..] == str.s;
    while i < |str.s|
      invariant 0 <= i <= |str.s| && 0 <= segs <= 3 && count >= 0 && accum >= 0
      invariant Accepts(str.s[i..], segs, count, accum) == Accepts(str.s, 0, 0, 0)
    {
      var c := str.s[i];
      assert str.s[i..][1..] == str.s[i + 1..];
      if c == POINT {
        if count == 0 {
          return false;
        }
        segs := segs + 1;
        if segs == 4 {
          return false;
        }
        count, accum := 0, 0;
        i := i + 1;
        continue;
      }
      if c < ZERO || c > 57 {
        return false;
      }
      accum := accum * 10 + (c - ZERO);
      if accum > 255 {
        return false;
      }
      count := count + 1;
      i := i + 1;
    }
    if segs != 3 {
      return false;
    }
    if count == 0 {
      return false;
    }
    return true;
  }

  lemma CompletesIsAddress(s: CString)
    ensures Completes([], Split(s, POINT), 0) <==> IsAddress(s)
  {
    assert [] + Split(s, POINT)[0] == Split(s, POINT)[0];
    if IsAddress(s) {
      assert forall i :: 0 <= i < |Split(s, POINT)| ==> Split(s, POINT)[i] in Split(s, POINT);
    }
  }

  /** Four numbers in decimal with dots between them are an address if and only if each is at most 255. */
  lemma DottedNumbers(a: nat, b: nat, c: nat, d: nat)
    ensures var text := Rendering.Digits(a) + [46] + (Rendering.Digits(b) + [46]
                        + (Rendering.Digits(c) + [46] + Rendering.Digits(d)));
      IsAddress(text) <==> a <= 255 && b <= 255 && c <= 255 && d <= 255
  {
    hide Worth, Rendering.Digits, Split;
    GoodNumber(a);
    GoodNumber(b);
    GoodNumber(c);
    GoodNumber(d);
    var t, u, v, w := Rendering.Digits(a), Rendering.Digits(b), Rendering.Digits(c), Rendering.Digits(d);
    SplitFirst(w, 46, []);
    SplitFirst(v, 46, w);
    SplitFirst(u, 46, v + [46] + w);
    SplitFirst(t, 46, u + [46] + (v + [46] + w));
    FourPieces(t + [46] + (u + [46] + (v + [46] + w)), t, u, v, w);
  }

  lemma GoodNumber(n: nat)
    ensures 46 !in Rendering.Digits(n) && (GoodPiece(Rendering.Digits(n)) <==> n <= 255)
  {
    hide Rendering.Digits, Worth;
    WorthOfDigits(n);
  }

  lemma FourPieces(s: CString, t: CString, u: CString, v: CString, w: CString)
    requires Split(s, POINT) == [t] + ([u] + ([v] + [w]))
    ensures IsAddress(s) <==> GoodPiece(t) && GoodPiece(u) && GoodPiece(v) && GoodPiece(w)
  {
    hide GoodPiece, Split;
    var pieces := Split(s, POINT);
    assert pieces[0] == t && pieces[1] == u && pieces[2] == v && pieces[3] == w;
    assert IsAddress(s) ==> t in pieces && u in pieces && v in pieces && w in pieces;
  }
}
