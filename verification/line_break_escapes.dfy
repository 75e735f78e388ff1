/** The line-break normalisation `encodeForSignature` applies to an encoded
    query: `%0D%0A`, `%0A%0D` and then any remaining `%0D` become `%0A`,
    each pattern matched case-insensitively. */
module LineBreakEscapes {
  import opened Text

  function NormalizeEscapedLineBreaks(s: string): (r: string)
    ensures !Occurs(r, "%0D", true)
  {
    var t := ReplaceAll(ReplaceAll(s, "%0D%0A", "%0A", true), "%0A%0D", "%0A", true);
    NoCarriageReturnLeft(t);
    ReplaceAll(t, "%0D", "%0A", true)
  }

  /** Prepending one character to a string shifts every match by one. */
  lemma MatchesAtCons(c: char, y: string, pat: string, ignoreCase: bool)
    requires |pat| >= 1
    ensures MatchesAt([c] + y, pat, ignoreCase) <==> SameChar(c, pat[0], ignoreCase) && MatchesAt(y, pat[1..], ignoreCase)
  {
    var x := [c] + y;
    assert forall i :: 1 <= i < |x| ==> x[i] == y[i - 1];
    if SameChar(c, pat[0], ignoreCase) && MatchesAt(y, pat[1..], ignoreCase) {
      forall i | 0 <= i < |pat|
        ensures SameChar(x[i], pat[i], ignoreCase)
      {
        if i > 0 {
          assert pat[1..][i - 1] == pat[i];
        }
      }
    }
    if MatchesAt(x, pat, ignoreCase) {
      forall i | 0 <= i < |pat| - 1
        ensures SameChar(y[i], pat[1..][i], ignoreCase)
      {
        assert x[i + 1] == y[i];
      }
    }
  }

  /** The first character of `R(t)`: a `%` where a `%0D` was replaced,
      otherwise `t`'s own. */
  lemma ReplacedHead(t: string)
    requires |t| > 0
    ensures var r := ReplaceAll(t, "%0D", "%0A", true);
            |r| > 0 && r[0] == (if MatchesAt(t, "%0D", true) then '%' else t[0])
  {
  }

  /** `R(t)` starting with `0D` (any case) means `t` does. */
  lemma {:induction false} ReplacedStartsZeroD(t: string)
    requires MatchesAt(ReplaceAll(t, "%0D", "%0A", true), "0D", true)
    ensures MatchesAt(t, "0D", true)
  {
    var r := ReplaceAll(t, "%0D", "%0A", true);
    assert |t| > 0;
    ReplacedHead(t);
    assert r[0] != '%' by {
      assert SameChar(r[0], '0', true);
    }
    assert r == [t[0]] + ReplaceAll(t[1..], "%0D", "%0A", true);
    var r1 := ReplaceAll(t[1..], "%0D", "%0A", true);
    assert |r1| > 0 && r1[0] == r[1];
    assert |t[1..]| > 0;
    ReplacedHead(t[1..]);
    assert r1[0] != '%' by {
      assert SameChar(r1[0], 'D', true);
    }
    assert t[1..][0] == t[1];
  }

  /** `Occurs` skips a prefix `%0A`, which cannot start or overlap a `%0D`. */
  lemma SkipLineFeedEscape(z: string)
    ensures Occurs("%0A" + z, "%0D", true) == Occurs(z, "%0D", true)
  {
    var x := "%0A" + z;
    var x1 := "0A" + z;
    var x2 := "A" + z;
    assert x[1..] == x1 && x1[1..] == x2 && x2[1..] == z;
    assert !MatchesAt(x, "%0D", true) by {
      assert x[2] == 'A';
    }
    assert !MatchesAt(x1, "%0D", true) by {
      assert x1[0] == '0';
    }
    assert !MatchesAt(x2, "%0D", true) by {
      assert x2[0] == 'A';
    }
    assert Occurs(x, "%0D", true) == Occurs(x1, "%0D", true);
    assert Occurs(x1, "%0D", true) == Occurs(x2, "%0D", true);
  }

  /** After `replace(/%0D/gi, "%0A")` no `%0D`, in any case, is left. */
  lemma {:induction false} NoCarriageReturnLeft(s: string)
    ensures !Occurs(ReplaceAll(s, "%0D", "%0A", true), "%0D", true)
    decreases |s|
  {
    if |s| > 0 {
      if MatchesAt(s, "%0D", true) {
        NoCarriageReturnLeft(s[3..]);
        SkipLineFeedEscape(ReplaceAll(s[3..], "%0D", "%0A", true));
      } else {
        NoCarriageReturnLeft(s[1..]);
        var y := ReplaceAll(s[1..], "%0D", "%0A", true);
        var r := [s[0]] + y;
        assert ReplaceAll(s, "%0D", "%0A", true) == r;
        assert r[1..] == y;
        MatchesAtCons(s[0], y, "%0D", true);
        assert "%0D"[1..] == "0D";
        if MatchesAt(r, "%0D", true) {
          ReplacedStartsZeroD(s[1..]);
          MatchesAtCons(s[0], s[1..], "%0D", true);
          assert false;
        }
      }
    }
  }

  /** A longer pattern occurs only where its prefix does. */
  lemma {:induction false} OccursPrefix(s: string, pat: string, n: nat, ignoreCase: bool)
    requires 0 < n <= |pat| && Occurs(s, pat, ignoreCase)
    ensures Occurs(s, pat[..n], ignoreCase)
    decreases |s|
  {
    if !MatchesAt(s, pat, ignoreCase) {
      OccursPrefix(s[1..], pat, n, ignoreCase);
    }
  }

  /** Text without an escaped carriage return (in either case) is left as it is. */
  lemma NormalizeKeepsCleanText(s: string)
    requires !Occurs(s, "%0D", true)
    ensures NormalizeEscapedLineBreaks(s) == s
  {
    assert "%0D%0A"[..3] == "%0D";
    if Occurs(s, "%0D%0A", true) {
      OccursPrefix(s, "%0D%0A", 3, true);
    }
    ReplaceAbsent(s, "%0D%0A", "%0A", true);
    assert "%0A" + "%0D" == "%0A%0D";
    if Occurs(s, "%0A%0D", true) {
      OccursSuffix(s, "%0A", "%0D", true);
    }
    ReplaceAbsent(s, "%0A%0D", "%0A", true);
    ReplaceAbsent(s, "%0D", "%0A", true);
  }

  /** A pattern `p + q` occurring means `q` occurs. */
  lemma {:induction false} OccursSuffix(s: string, p: string, q: string, ignoreCase: bool)
    requires |q| > 0 && Occurs(s, p + q, ignoreCase)
    ensures Occurs(s, q, ignoreCase)
    decreases |s|
  {
    if MatchesAt(s, p + q, ignoreCase) {
      OccursAt(s, |p|, q, ignoreCase);
      forall i | 0 <= i < |q|
        ensures SameChar(s[|p|..][i], q[i], ignoreCase)
      {
        assert (p + q)[|p| + i] == q[i];
      }
    } else {
      OccursSuffix(s[1..], p, q, ignoreCase);
    }
  }

  /** A match at offset `k` is an occurrence. */
  lemma {:induction false} OccursAt(s: string, k: nat, q: string, ignoreCase: bool)
    requires k <= |s| && MatchesAt(s[k..], q, ignoreCase)
    ensures Occurs(s, q, ignoreCase)
    decreases k
  {
    if k > 0 {
      assert s[1..][k - 1..] == s[k..];
      OccursAt(s[1..], k - 1, q, ignoreCase);
    }
  }

  /** `c` can stand at no position of `pat`. */
  predicate Separates(c: char, pat: string, ignoreCase: bool) {
    forall i :: 0 <= i < |pat| ==> !SameChar(c, pat[i], ignoreCase)
  }

  /** No match can straddle a character that the pattern cannot contain, so
      the scan replaces on each side of it independently. */
  lemma {:induction false} ReplaceAllSplit(x: string, y: string, pat: string, rep: string, ignoreCase: bool)
    requires |pat| > 0
    requires |x| == 0 || |y| == 0 || Separates(x[|x| - 1], pat, ignoreCase) || Separates(y[0], pat, ignoreCase)
    ensures ReplaceAll(x + y, pat, rep, ignoreCase) == ReplaceAll(x, pat, rep, ignoreCase) + ReplaceAll(y, pat, rep, ignoreCase)
    decreases |x|
  {
    if |x| == 0 {
      assert x + y == y;
    } else if |y| == 0 {
      assert x + y == x;
    } else if MatchesAt(x + y, pat, ignoreCase) {
      MatchInsideLeft(x, y, pat, ignoreCase);
      var rest := x[|pat|..];
      if |rest| > 0 {
        assert rest[|rest| - 1] == x[|x| - 1];
      }
      ReplaceAllSplit(rest, y, pat, rep, ignoreCase);
      SplitAfterMatch(x, y, pat, rep, ignoreCase);
    } else {
      if MatchesAt(x, pat, ignoreCase) {
        PrefixMatch(x, y, pat, ignoreCase);
      }
      if |x| > 1 {
        assert x[1..][|x[1..]| - 1] == x[|x| - 1];
      }
      ReplaceAllSplit(x[1..], y, pat, rep, ignoreCase);
      SplitAfterSkip(x, y, pat, rep, ignoreCase);
    }
  }

  /** The step of `ReplaceAllSplit` where a match opens both strings. */
  lemma SplitAfterMatch(x: string, y: string, pat: string, rep: string, ignoreCase: bool)
    requires 0 < |pat| <= |x| && MatchesAt(x, pat, ignoreCase) && MatchesAt(x + y, pat, ignoreCase)
    requires ReplaceAll(x[|pat|..] + y, pat, rep, ignoreCase)
             == ReplaceAll(x[|pat|..], pat, rep, ignoreCase) + ReplaceAll(y, pat, rep, ignoreCase)
    ensures ReplaceAll(x + y, pat, rep, ignoreCase) == ReplaceAll(x, pat, rep, ignoreCase) + ReplaceAll(y, pat, rep, ignoreCase)
  {
    var rest := x[|pat|..];
    assert (x + y)[|pat|..] == rest + y;
    calc {
      ReplaceAll(x + y, pat, rep, ignoreCase);
      rep + ReplaceAll(rest + y, pat, rep, ignoreCase);
      rep + (ReplaceAll(rest, pat, rep, ignoreCase) + ReplaceAll(y, pat, rep, ignoreCase));
      (rep + ReplaceAll(rest, pat, rep, ignoreCase)) + ReplaceAll(y, pat, rep, ignoreCase);
      ReplaceAll(x, pat, rep, ignoreCase) + ReplaceAll(y, pat, rep, ignoreCase);
    }
  }

  /** The step of `ReplaceAllSplit` where neither string opens with a match. */
  lemma SplitAfterSkip(x: string, y: string, pat: string, rep: string, ignoreCase: bool)
    requires |pat| > 0 && |x| > 0 && !MatchesAt(x, pat, ignoreCase) && !MatchesAt(x + y, pat, ignoreCase)
    requires ReplaceAll(x[1..] + y, pat, rep, ignoreCase)
             == ReplaceAll(x[1..], pat, rep, ignoreCase) + ReplaceAll(y, pat, rep, ignoreCase)
    ensures ReplaceAll(x + y, pat, rep, ignoreCase) == ReplaceAll(x, pat, rep, ignoreCase) + ReplaceAll(y, pat, rep, ignoreCase)
  {
    assert (x + y)[1..] == x[1..] + y;
    calc {
      ReplaceAll(x + y, pat, rep, ignoreCase);
      { assert (x + y)[0] == x[0]; }
      [x[0]] + ReplaceAll(x[1..] + y, pat, rep, ignoreCase);
      [x[0]] + (ReplaceAll(x[1..], pat, rep, ignoreCase) + ReplaceAll(y, pat, rep, ignoreCase));
      ([x[0]] + ReplaceAll(x[1..], pat, rep, ignoreCase)) + ReplaceAll(y, pat, rep, ignoreCase);
      ReplaceAll(x, pat, rep, ignoreCase) + ReplaceAll(y, pat, rep, ignoreCase);
    }
  }

  /** A match at the start of `x + y` cannot cover the boundary, so it lies in `x`. */
  lemma MatchInsideLeft(x: string, y: string, pat: string, ignoreCase: bool)
    requires |x| > 0 && |y| > 0
    requires Separates(x[|x| - 1], pat, ignoreCase) || Separates(y[0], pat, ignoreCase)
    requires MatchesAt(x + y, pat, ignoreCase)
    ensures |pat| <= |x| && MatchesAt(x, pat, ignoreCase)
  {
    if |pat| > |x| {
      Straddle(x, y, pat, ignoreCase);
      assert false;
    }
    forall i | 0 <= i < |pat|
      ensures SameChar(x[i], pat[i], ignoreCase)
    {
      assert (x + y)[i] == x[i];
    }
  }

  /** A match longer than `x` covers both sides of the boundary. */
  lemma Straddle(x: string, y: string, pat: string, ignoreCase: bool)
    requires |x| > 0 && |pat| > |x| && MatchesAt(x + y, pat, ignoreCase)
    ensures |y| > 0 && SameChar(x[|x| - 1], pat[|x| - 1], ignoreCase) && SameChar(y[0], pat[|x|], ignoreCase)
  {
    assert (x + y)[|x| - 1] == x[|x| - 1];
    assert (x + y)[|x|] == y[0];
  }

  /** A match at the start of `x` is one at the start of `x + y`. */
  lemma PrefixMatch(x: string, y: string, pat: string, ignoreCase: bool)
    requires MatchesAt(x, pat, ignoreCase)
    ensures MatchesAt(x + y, pat, ignoreCase)
  {
    assert forall i :: 0 <= i < |pat| ==> (x + y)[i] == x[i];
  }

  /** A character the pattern cannot contain is copied through. */
  lemma ReplaceSeparator(c: char, pat: string, rep: string, ignoreCase: bool)
    requires |pat| > 0 && Separates(c, pat, ignoreCase)
    ensures ReplaceAll([c], pat, rep, ignoreCase) == [c]
  {
    assert !SameChar([c][0], pat[0], ignoreCase);
    assert [c][1..] == [];
  }

  /** A value's escaped text sits between the `=` after its key and the `&`
      before the next pair (or the end of the query). */
  predicate Framed(x: string, y: string) {
    |x| > 0 && x[|x| - 1] == '=' && (|y| == 0 || y[0] == '&')
  }

  /** One pass of a pattern without `=` or `&` rewrites a framed value
      independently of the text around it, and keeps the frame. */
  lemma PassSplits(x: string, v: string, y: string, pat: string, rep: string)
    requires |pat| > 0 && Separates('=', pat, true) && Separates('&', pat, true)
    requires Framed(x, y)
    ensures ReplaceAll(x + v + y, pat, rep, true) == ReplaceAll(x, pat, rep, true) + ReplaceAll(v, pat, rep, true) + ReplaceAll(y, pat, rep, true)
    ensures Framed(ReplaceAll(x, pat, rep, true), ReplaceAll(y, pat, rep, true))
  {
    assert x + v + y == x + (v + y);
    ReplaceAllSplit(x, v + y, pat, rep, true);
    ReplaceAllSplit(v, y, pat, rep, true);
    PassKeepsFrame(x, y, pat, rep);
  }

  lemma PassKeepsFrame(x: string, y: string, pat: string, rep: string)
    requires |pat| > 0 && Separates('=', pat, true) && Separates('&', pat, true)
    requires Framed(x, y)
    ensures Framed(ReplaceAll(x, pat, rep, true), ReplaceAll(y, pat, rep, true))
  {
    var x0 := x[..|x| - 1];
    assert x == x0 + ['='];
    ReplaceAllSplit(x0, ['='], pat, rep, true);
    ReplaceSeparator('=', pat, rep, true);
    if |y| > 0 {
      assert y == ['&'] + y[1..];
      ReplaceAllSplit(['&'], y[1..], pat, rep, true);
      ReplaceSeparator('&', pat, rep, true);
    }
  }

  lemma PatternsAvoidFrame()
    ensures Separates('=', "%0D%0A", true) && Separates('&', "%0D%0A", true)
    ensures Separates('=', "%0A%0D", true) && Separates('&', "%0A%0D", true)
    ensures Separates('=', "%0D", true) && Separates('&', "%0D", true)
  {
  }

  /** The normalisation of a query rewrites a framed value on its own. */
  lemma NormalizeSplits(x: string, v: string, y: string)
    requires Framed(x, y)
    ensures NormalizeEscapedLineBreaks(x + v + y)
            == NormalizeEscapedLineBreaks(x) + NormalizeEscapedLineBreaks(v) + NormalizeEscapedLineBreaks(y)
  {
    PatternsAvoidFrame();
    PassSplits(x, v, y, "%0D%0A", "%0A");
    var x1, v1, y1 := ReplaceAll(x, "%0D%0A", "%0A", true), ReplaceAll(v, "%0D%0A", "%0A", true), ReplaceAll(y, "%0D%0A", "%0A", true);
    PassSplits(x1, v1, y1, "%0A%0D", "%0A");
    var x2, v2, y2 := ReplaceAll(x1, "%0A%0D", "%0A", true), ReplaceAll(v1, "%0A%0D", "%0A", true), ReplaceAll(y1, "%0A%0D", "%0A", true);
    PassSplits(x2, v2, y2, "%0D", "%0A");
  }

  /** An escaped CR LF, LF CR or lone CR, in either case of the hex digits. */
  predicate EscapedCarriageReturn(v: string) {
    || (|v| == 6 && MatchesAt(v, "%0D%0A", true))
    || (|v| == 6 && MatchesAt(v, "%0A%0D", true))
    || (|v| == 3 && MatchesAt(v, "%0D", true))
  }

  /** A string shorter than the pattern holds no match. */
  lemma {:induction false} ReplaceShort(s: string, pat: string, rep: string, ignoreCase: bool)
    requires |s| < |pat|
    ensures ReplaceAll(s, pat, rep, ignoreCase) == s
    decreases |s|
  {
    if |s| > 0 {
      ReplaceShort(s[1..], pat, rep, ignoreCase);
      assert s == [s[0]] + s[1..];
    }
  }

  /** Each escaped line break containing a CR becomes one escaped LF. */
  lemma EscapedCarriageReturnBecomesLineFeed(v: string)
    requires EscapedCarriageReturn(v)
    ensures NormalizeEscapedLineBreaks(v) == "%0A"
  {
    SkipLineFeedEscape("");
    assert "%0A" + "" == "%0A";
    NormalizeKeepsCleanText("%0A");
    if |v| == 6 && MatchesAt(v, "%0D%0A", true) {
      assert v[6..] == "";
      assert ReplaceAll(v, "%0D%0A", "%0A", true) == "%0A";
      ReplaceShort("%0A", "%0A%0D", "%0A", true);
    } else if |v| == 6 {
      assert !SameChar(v[2], "%0D%0A"[2], true);
      ReplaceShort(v[1..], "%0D%0A", "%0A", true);
      assert v == [v[0]] + v[1..];
      assert ReplaceAll(v, "%0D%0A", "%0A", true) == v;
      assert v[6..] == "";
      assert ReplaceAll(v, "%0A%0D", "%0A", true) == "%0A";
    } else {
      ReplaceShort(v, "%0D%0A", "%0A", true);
      ReplaceShort(v, "%0A%0D", "%0A", true);
      assert v[3..] == "";
      assert ReplaceAll(v, "%0D", "%0A", true) == "%0A";
    }
  }

  /** An escaped CR LF, LF CR or lone CR framed as a value becomes `%0A`,
      and the text on either side is normalised as if it stood alone. */
  lemma NormalizeRewritesLineBreak(x: string, v: string, y: string)
    requires Framed(x, y) && EscapedCarriageReturn(v)
    ensures NormalizeEscapedLineBreaks(x + v + y)
            == NormalizeEscapedLineBreaks(x) + "%0A" + NormalizeEscapedLineBreaks(y)
  {
    NormalizeSplits(x, v, y);
    EscapedCarriageReturnBecomesLineFeed(v);
  }

  /** The encodings of the values "\r\n", "\n\r", "\r" and "\n" all sign as
      the same text. */
  lemma LineBreaksConverge(x: string, y: string)
    requires Framed(x, y)
    ensures NormalizeEscapedLineBreaks(x + "%0D%0A" + y) == NormalizeEscapedLineBreaks(x + "%0A" + y)
    ensures NormalizeEscapedLineBreaks(x + "%0A%0D" + y) == NormalizeEscapedLineBreaks(x + "%0A" + y)
    ensures NormalizeEscapedLineBreaks(x + "%0D" + y) == NormalizeEscapedLineBreaks(x + "%0A" + y)
  {
    assert EscapedCarriageReturn("%0D%0A") && EscapedCarriageReturn("%0A%0D") && EscapedCarriageReturn("%0D");
    NormalizeRewritesLineBreak(x, "%0D%0A", y);
    NormalizeRewritesLineBreak(x, "%0A%0D", y);
    NormalizeRewritesLineBreak(x, "%0D", y);
    NormalizeSplits(x, "%0A", y);
    SkipLineFeedEscape("");
    assert "%0A" + "" == "%0A";
    NormalizeKeepsCleanText("%0A");
  }
}
