/** `escapeHTML` (server.js): `String(s)` with `&`, `<`, `>`, `"` and `'`
    rewritten to entities by five successive `replaceAll` calls, `&` first. */
module HtmlEscape {
  import opened Results
  import opened JsValues
  import opened Text

  /** Reference escape of one character. */
  function EscapeChar(c: char): (r: string)
    ensures c !in "&<>\"'" ==> r == [c]
    ensures |r| >= 1 && r[0] == (if c in "&<>\"'" then '&' else c)
  {
    if c == '&' then "&amp;"
    else if c == '<' then "&lt;"
    else if c == '>' then "&gt;"
    else if c == '"' then "&quot;"
    else if c == '\'' then "&#39;"
    else [c]
  }

  /** Reference escape of a string: each character escaped on its own. */
  function EscapeChars(s: string): (r: string)
    ensures |r| >= |s|
  {
    if |s| == 0 then "" else EscapeChar(s[0]) + EscapeChars(s[1..])
  }

  /** The five passes in source order. */
  function Passes(s: string): string {
    var amp := ReplaceChar(s, '&', "&amp;");
    var lt := ReplaceChar(amp, '<', "&lt;");
    var gt := ReplaceChar(lt, '>', "&gt;");
    var quot := ReplaceChar(gt, '"', "&quot;");
    ReplaceChar(quot, '\'', "&#39;")
  }

  /** `escapeHTML(v)`. Because `&` is rewritten first, the entities the later
      passes insert are never escaped again: the chain equals the
      per-character escape, and no raw `<`, `>`, `"` or `'` remains. */
  function EscapeHtml(v: Value): (r: string)
    ensures r == EscapeChars(ToJsString(v))
    ensures '<' !in r && '>' !in r && '"' !in r && '\'' !in r
  {
    var s := ToJsString(v);
    PassesAreCharEscape(s);
    EscapedHasNoMarkup(s);
    Passes(s)
  }

  /** No raw `<`, `>`, `"` or `'`. */
  predicate MarkupFree(r: string) {
    forall i :: 0 <= i < |r| ==> r[i] != '<' && r[i] != '>' && r[i] != '"' && r[i] != '\''
  }

  lemma EscapedHasNoMarkup(s: string)
    ensures var r := EscapeChars(s);
            '<' !in r && '>' !in r && '"' !in r && '\'' !in r
  {
    EscapeCharsMarkupFree(s);
  }

  lemma {:induction false} EscapeCharsMarkupFree(s: string)
    ensures MarkupFree(EscapeChars(s))
    decreases |s|
  {
    if |s| > 0 {
      EscapeCharsMarkupFree(s[1..]);
      var e := EscapeChar(s[0]);
      var t := EscapeChars(s[1..]);
      assert MarkupFree(e);
      assert forall i :: |e| <= i < |e + t| ==> (e + t)[i] == t[i - |e|];
    }
  }

  lemma PassesAppend(a: string, b: string)
    ensures Passes(a + b) == Passes(a) + Passes(b)
  {
    var amp1, amp2 := ReplaceChar(a, '&', "&amp;"), ReplaceChar(b, '&', "&amp;");
    ReplaceCharAppend(a, b, '&', "&amp;");
    var lt1, lt2 := ReplaceChar(amp1, '<', "&lt;"), ReplaceChar(amp2, '<', "&lt;");
    ReplaceCharAppend(amp1, amp2, '<', "&lt;");
    var gt1, gt2 := ReplaceChar(lt1, '>', "&gt;"), ReplaceChar(lt2, '>', "&gt;");
    ReplaceCharAppend(lt1, lt2, '>', "&gt;");
    var q1, q2 := ReplaceChar(gt1, '"', "&quot;"), ReplaceChar(gt2, '"', "&quot;");
    ReplaceCharAppend(gt1, gt2, '"', "&quot;");
    ReplaceCharAppend(q1, q2, '\'', "&#39;");
  }

  /** A string none of whose characters a pass rewrites is left alone. */
  lemma ReplaceCharAbsent(s: string, c: char, rep: string)
    requires c !in s
    ensures ReplaceChar(s, c, rep) == s
  {
    if |s| > 0 {
      ReplaceCharAbsent(s[1..], c, rep);
      assert s == [s[0]] + s[1..];
    }
  }

  lemma ReplaceCharOne(x: char, c: char, rep: string)
    ensures ReplaceChar([x], c, rep) == if x == c then rep else [x]
  {
    assert [x][1..] == "";
  }

  /** The passes after the `&` pass leave an entity they do not target alone. */
  lemma LaterPassesKeep(e: string, from: nat)
    requires 2 <= from <= 5
    requires from <= 2 ==> '<' !in e
    requires from <= 3 ==> '>' !in e
    requires from <= 4 ==> '"' !in e
    requires '\'' !in e
    ensures from <= 2 ==> ReplaceChar(e, '<', "&lt;") == e
    ensures from <= 3 ==> ReplaceChar(e, '>', "&gt;") == e
    ensures from <= 4 ==> ReplaceChar(e, '"', "&quot;") == e
    ensures ReplaceChar(e, '\'', "&#39;") == e
  {
    if from <= 2 { ReplaceCharAbsent(e, '<', "&lt;"); }
    if from <= 3 { ReplaceCharAbsent(e, '>', "&gt;"); }
    if from <= 4 { ReplaceCharAbsent(e, '"', "&quot;"); }
    ReplaceCharAbsent(e, '\'', "&#39;");
  }

  lemma PassesOneChar(c: char)
    ensures Passes([c]) == EscapeChar(c)
  {
    ReplaceCharOne(c, '&', "&amp;");
    if c == '&' {
      LaterPassesKeep("&amp;", 2);
    } else {
      PassesOneCharAfterAmp(c);
    }
  }

  lemma PassesOneCharAfterAmp(c: char)
    requires c != '&'
    ensures var lt := ReplaceChar([c], '<', "&lt;");
            var gt := ReplaceChar(lt, '>', "&gt;");
            var quot := ReplaceChar(gt, '"', "&quot;");
            ReplaceChar(quot, '\'', "&#39;") == EscapeChar(c)
  {
    ReplaceCharOne(c, '<', "&lt;");
    if c == '<' {
      LaterPassesKeep("&lt;", 3);
    } else {
      ReplaceCharOne(c, '>', "&gt;");
      if c == '>' {
        LaterPassesKeep("&gt;", 4);
      } else {
        ReplaceCharOne(c, '"', "&quot;");
        if c == '"' {
          LaterPassesKeep("&quot;", 5);
        } else {
          ReplaceCharOne(c, '\'', "&#39;");
        }
      }
    }
  }

  lemma {:induction false} PassesAreCharEscape(s: string)
    ensures Passes(s) == EscapeChars(s)
    decreases |s|
  {
    if |s| > 0 {
      assert s == [s[0]] + s[1..];
      PassesAppend([s[0]], s[1..]);
      PassesOneChar(s[0]);
      PassesAreCharEscape(s[1..]);
    }
  }

  /** Reference decoder of the five entities; any other text is kept. */
  function Unescape(s: string): string
    decreases |s|
  {
    if |s| == 0 then ""
    else if s[0] == '&' then
      if |s| >= 5 && s[..5] == "&amp;" then "&" + Unescape(s[5..])
      else if |s| >= 4 && s[..4] == "&lt;" then "<" + Unescape(s[4..])
      else if |s| >= 4 && s[..4] == "&gt;" then ">" + Unescape(s[4..])
      else if |s| >= 6 && s[..6] == "&quot;" then "\"" + Unescape(s[6..])
      else if |s| >= 5 && s[..5] == "&#39;" then "'" + Unescape(s[5..])
      else "&" + Unescape(s[1..])
    else [s[0]] + Unescape(s[1..])
  }

  /** Decoding the escaped text gives the original back, so escaping loses
      nothing and two different inputs never escape alike. */
  lemma {:induction false} UnescapeEscape(s: string)
    ensures Unescape(EscapeChars(s)) == s
    decreases |s|
  {
    if |s| > 0 {
      UnescapeOneChar(s[0], EscapeChars(s[1..]));
      UnescapeEscape(s[1..]);
      assert s == [s[0]] + s[1..];
    }
  }

  lemma UnescapeOneChar(c: char, rest: string)
    ensures Unescape(EscapeChar(c) + rest) == [c] + Unescape(rest)
  {
    if c == '&' {
      UnescapeAmp(rest);
    } else if c == '<' {
      UnescapeLt(rest);
    } else if c == '>' {
      UnescapeGt(rest);
    } else if c == '"' {
      UnescapeQuot(rest);
    } else if c == '\'' {
      UnescapeApos(rest);
    } else {
      var t := [c] + rest;
      assert t[0] == c && t[1..] == rest;
    }
  }

  lemma UnescapeAmp(rest: string)
    ensures Unescape("&amp;" + rest) == "&" + Unescape(rest)
  {
    var t := "&amp;" + rest;
    assert t[..5] == "&amp;";
    assert t[5..] == rest;
  }

  lemma UnescapeLt(rest: string)
    ensures Unescape("&lt;" + rest) == "<" + Unescape(rest)
  {
    var t := "&lt;" + rest;
    assert t[1] == 'l';
    assert t[..4] == "&lt;";
    assert t[4..] == rest;
  }

  lemma UnescapeGt(rest: string)
    ensures Unescape("&gt;" + rest) == ">" + Unescape(rest)
  {
    var t := "&gt;" + rest;
    assert t[1] == 'g';
    assert t[..4] == "&gt;";
    assert t[4..] == rest;
  }

  lemma UnescapeQuot(rest: string)
    ensures Unescape("&quot;" + rest) == "\"" + Unescape(rest)
  {
    var t := "&quot;" + rest;
    assert t[1] == 'q';
    assert t[..6] == "&quot;";
    assert t[6..] == rest;
  }

  lemma UnescapeApos(rest: string)
    ensures Unescape("&#39;" + rest) == "'" + Unescape(rest)
  {
    var t := "&#39;" + rest;
    assert t[1] == '#';
    assert t[..5] == "&#39;";
    assert t[5..] == rest;
  }

  lemma EscapeHtmlInjective(a: Value, b: Value)
    requires EscapeHtml(a) == EscapeHtml(b)
    ensures ToJsString(a) == ToJsString(b)
  {
    UnescapeEscape(ToJsString(a));
    UnescapeEscape(ToJsString(b));
  }
}
