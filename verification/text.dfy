/** The String.prototype operations the signing code uses: `split` and
    `join` on a one-character separator, `trim`, and global replacement of a
    literal pattern (`replace(/pat/g, …)`, `replaceAll`). */
module Text {

  /** `parts.join(sep)`; the empty array joins to "". */
  function Join(parts: seq<string>, sep: char): string
  {
    if |parts| == 0 then ""
    else if |parts| == 1 then parts[0]
    else parts[0] + [sep] + Join(parts[1..], sep)
  }

  /** `s.split(sep)` for a one-character separator: always at least one piece,
      no piece contains the separator, and joining the pieces gives `s` back. */
  function Split(s: string, sep: char): (r: seq<string>)
    ensures |r| >= 1
    ensures forall i :: 0 <= i < |r| ==> sep !in r[i]
    ensures Join(r, sep) == s
    decreases |s|
  {
    if |s| == 0 then [""]
    else
      var rest := Split(s[1..], sep);
      if s[0] == sep then
        assert s == [sep] + s[1..];
        [""] + rest
      else
        var r := [[s[0]] + rest[0]] + rest[1..];
        assert r[1..] == rest[1..];
        assert s == [s[0]] + s[1..];
        r
  }

  /** In `a + [sep] + x` with `sep` absent from `a`, the first separator sits at index |a|. */
  lemma FirstSeparatorIndex(a: string, x: string, sep: char)
    requires sep !in a
    ensures (a + [sep] + x)[|a|] == sep
    ensures forall i :: 0 <= i < |a| ==> (a + [sep] + x)[i] != sep
  {
  }

  /** Two splittings at the first separator agree. */
  lemma FirstSeparator(a: string, x: string, b: string, y: string, sep: char)
    requires sep !in a && sep !in b
    requires a + [sep] + x == b + [sep] + y
    ensures a == b && x == y
  {
    var l := a + [sep] + x;
    FirstSeparatorIndex(a, x, sep);
    FirstSeparatorIndex(b, y, sep);
    if |a| < |b| {
      assert false;
    } else if |b| < |a| {
      assert false;
    }
    assert a == l[..|a|] == b;
    assert x == l[|a| + 1..] == y;
  }

  /** `join` is injective on separator-free pieces (with at least one piece). */
  lemma {:induction false} JoinInjective(p: seq<string>, q: seq<string>, sep: char)
    requires |p| >= 1 && |q| >= 1
    requires forall i :: 0 <= i < |p| ==> sep !in p[i]
    requires forall i :: 0 <= i < |q| ==> sep !in q[i]
    requires Join(p, sep) == Join(q, sep)
    ensures p == q
    decreases |p|
  {
    if |p| == 1 && |q| == 1 {
    } else if |p| == 1 {
      assert false;
    } else if |q| == 1 {
      assert false;
    } else {
      FirstSeparator(p[0], Join(p[1..], sep), q[0], Join(q[1..], sep), sep);
      JoinInjective(p[1..], q[1..], sep);
      assert p == [p[0]] + p[1..];
      assert q == [q[0]] + q[1..];
    }
  }

  /** A character that is neither the separator nor in any piece is not in the join. */
  lemma {:induction false} NotInJoin(parts: seq<string>, sep: char, c: char)
    requires c != sep
    requires forall i :: 0 <= i < |parts| ==> c !in parts[i]
    ensures c !in Join(parts, sep)
    decreases |parts|
  {
    if |parts| > 1 {
      NotInJoin(parts[1..], sep, c);
    }
  }

  /** Every piece of a join stands between separators (or an end of the
      joined string). */
  lemma {:induction false} PieceInJoin(parts: seq<string>, i: nat, sep: char) returns (a: string, b: string)
    requires i < |parts|
    ensures Join(parts, sep) == a + parts[i] + b
    ensures |a| == 0 || a[|a| - 1] == sep
    ensures |b| == 0 || b[0] == sep
    decreases i
  {
    if i == 0 {
      a := "";
      b := if |parts| == 1 then "" else [sep] + Join(parts[1..], sep);
    } else {
      var a', b' := PieceInJoin(parts[1..], i - 1, sep);
      a := parts[0] + [sep] + a';
      b := b';
      assert parts[1..][i - 1] == parts[i];
    }
  }

  /** A join of at least one piece starts with its first piece. */
  lemma JoinStartsWithFirst(parts: seq<string>, sep: char)
    requires |parts| >= 1
    ensures |Join(parts, sep)| >= |parts[0]| && Join(parts, sep)[..|parts[0]|] == parts[0]
  {
  }

  /** Splitting a join of separator-free pieces recovers the pieces. */
  lemma SplitJoin(parts: seq<string>, sep: char)
    requires |parts| >= 1
    requires forall i :: 0 <= i < |parts| ==> sep !in parts[i]
    ensures Split(Join(parts, sep), sep) == parts
  {
    JoinInjective(Split(Join(parts, sep), sep), parts, sep);
  }

  /** The text before the first separator (`s.split(sep)[0]`). */
  function FirstSegment(s: string, sep: char): (r: string)
    ensures sep !in r
    ensures sep !in s ==> r == s
    ensures sep in s ==> exists rest :: s == r + [sep] + rest
  {
    var parts := Split(s, sep);
    if |parts| == 1 then parts[0]
    else
      assert s == parts[0] + [sep] + Join(parts[1..], sep);
      parts[0]
  }

  /** `s.split(sep).slice(1).join(sep)`: everything after the first separator. */
  function AfterFirst(s: string, sep: char): (r: string)
    ensures sep in s ==> s == FirstSegment(s, sep) + [sep] + r
    ensures sep !in s ==> r == ""
  {
    var parts := Split(s, sep);
    if |parts| == 1 then Join(parts[1..], sep)
    else
      assert s == parts[0] + [sep] + Join(parts[1..], sep);
      Join(parts[1..], sep)
  }

  /** WhiteSpace and LineTerminator code points of ECMA-262 (what `trim` strips). */
  predicate IsJsSpace(c: char) {
    var n := c as int;
    n == 0x09 || n == 0x0A || n == 0x0B || n == 0x0C || n == 0x0D || n == 0x20
    || n == 0xA0 || n == 0x1680 || (0x2000 <= n <= 0x200A) || n == 0x2028 || n == 0x2029
    || n == 0x202F || n == 0x205F || n == 0x3000 || n == 0xFEFF
  }

  /** Neither starts nor ends with white space. */
  predicate Trimmed(s: string) {
    |s| == 0 || (!IsJsSpace(s[0]) && !IsJsSpace(s[|s| - 1]))
  }

  predicate AllSpace(s: string) {
    forall i :: 0 <= i < |s| ==> IsJsSpace(s[i])
  }

  /** The end of the run of white space in `s` that starts at `i`. */
  function SpaceRunEnd(s: string, i: nat): (k: nat)
    requires i <= |s|
    ensures i <= k <= |s|
    ensures forall m :: i <= m < k ==> IsJsSpace(s[m])
    ensures k == |s| || !IsJsSpace(s[k])
    decreases |s| - i
  {
    if i < |s| && IsJsSpace(s[i]) then SpaceRunEnd(s, i + 1) else i
  }

  /** The start of the run of white space in `s` that ends at `j`, not
      looking below `lo`. */
  function SpaceRunStart(s: string, lo: nat, j: nat): (k: nat)
    requires lo <= j <= |s|
    ensures lo <= k <= j
    ensures forall m :: k <= m < j ==> IsJsSpace(s[m])
    ensures k == lo || !IsJsSpace(s[k - 1])
    decreases j - lo
  {
    if lo < j && IsJsSpace(s[j - 1]) then SpaceRunStart(s, lo, j - 1) else j
  }

  /** `s.trim()`: `s` is the result wrapped in white space only. */
  function Trim(s: string): (r: string)
    ensures Trimmed(r)
    ensures exists i, j :: 0 <= i <= j <= |s| && r == s[i..j] && AllSpace(s[..i]) && AllSpace(s[j..])
    ensures Trimmed(s) ==> r == s
  {
    var i := SpaceRunEnd(s, 0);
    var j := SpaceRunStart(s, i, |s|);
    assert AllSpace(s[..i]) by {
      forall m | 0 <= m < i
        ensures IsJsSpace(s[..i][m])
      {
        assert s[..i][m] == s[m];
      }
    }
    assert AllSpace(s[j..]) by {
      forall m | 0 <= m < |s| - j
        ensures IsJsSpace(s[j..][m])
      {
        assert s[j..][m] == s[j + m];
      }
    }
    assert Trimmed(s) ==> s[i..j] == s[0..|s|];
    s[i..j]
  }

  /** `.map(s => s.trim())` */
  function TrimEach(parts: seq<string>): (r: seq<string>)
    ensures |r| == |parts|
    ensures forall i :: 0 <= i < |r| ==> r[i] == Trim(parts[i])
  {
    if |parts| == 0 then [] else [Trim(parts[0])] + TrimEach(parts[1..])
  }

  /** `.filter(Boolean)` on strings: drops the empty ones, keeps order. */
  function NonEmptyOnly(parts: seq<string>): (r: seq<string>)
    ensures forall i :: 0 <= i < |r| ==> r[i] != "" && r[i] in parts
    ensures forall x :: x in parts && x != "" ==> x in r
  {
    if |parts| == 0 then []
    else if parts[0] == "" then NonEmptyOnly(parts[1..])
    else [parts[0]] + NonEmptyOnly(parts[1..])
  }

  function Shifted(pos: seq<int>): (r: seq<int>)
    ensures |r| == |pos|
    ensures forall i :: 0 <= i < |r| ==> r[i] == pos[i] + 1
  {
    seq(|pos|, i requires 0 <= i < |pos| => pos[i] + 1)
  }

  /** How many of `parts` are non-empty. */
  function NonEmptyCount(parts: seq<string>): nat {
    if |parts| == 0 then 0 else (if parts[0] == "" then 0 else 1) + NonEmptyCount(parts[1..])
  }

  /** Reference reading of a filter that keeps the non-empty strings: the
      positions of `parts` holding one, in increasing order, and as many as
      there are non-empty strings, so every such position is listed. */
  function KeptPositions(parts: seq<string>): (pos: seq<int>)
    ensures forall i :: 0 <= i < |pos| ==> 0 <= pos[i] < |parts| && parts[pos[i]] != ""
    ensures forall i, j :: 0 <= i < j < |pos| ==> pos[i] < pos[j]
    ensures |pos| == NonEmptyCount(parts)
  {
    if |parts| == 0 then []
    else
      var rest := Shifted(KeptPositions(parts[1..]));
      ShiftedPositions(parts, KeptPositions(parts[1..]));
      if parts[0] == "" then rest
      else
        PrependFirst(parts, rest);
        [0] + rest
  }

  /** The kept positions of `parts[1..]`, moved up by one, are kept
      positions of `parts` past the first. */
  lemma ShiftedPositions(parts: seq<string>, tail: seq<int>)
    requires |parts| > 0
    requires forall i :: 0 <= i < |tail| ==> 0 <= tail[i] < |parts| - 1 && parts[1..][tail[i]] != ""
    requires forall i, j :: 0 <= i < j < |tail| ==> tail[i] < tail[j]
    ensures forall i :: 0 <= i < |Shifted(tail)| ==> 1 <= Shifted(tail)[i] < |parts| && parts[Shifted(tail)[i]] != ""
    ensures forall i, j :: 0 <= i < j < |Shifted(tail)| ==> Shifted(tail)[i] < Shifted(tail)[j]
  {
    forall i | 0 <= i < |tail|
      ensures parts[tail[i] + 1] != ""
    {
      assert parts[1..][tail[i]] == parts[tail[i] + 1];
    }
  }

  /** Putting position 0 in front keeps the positions increasing. */
  lemma PrependFirst(parts: seq<string>, rest: seq<int>)
    requires |parts| > 0 && parts[0] != ""
    requires forall i :: 0 <= i < |rest| ==> 1 <= rest[i] < |parts| && parts[rest[i]] != ""
    requires forall i, j :: 0 <= i < j < |rest| ==> rest[i] < rest[j]
    ensures forall i :: 0 <= i < |[0] + rest| ==> 0 <= ([0] + rest)[i] < |parts| && parts[([0] + rest)[i]] != ""
    ensures forall i, j :: 0 <= i < j < |[0] + rest| ==> ([0] + rest)[i] < ([0] + rest)[j]
  {
    var pos := [0] + rest;
    assert forall i :: 1 <= i < |pos| ==> pos[i] == rest[i - 1];
  }

  /** `NonEmptyOnly` keeps exactly the strings at the kept positions, in order. */
  lemma {:induction false} NonEmptyOnlyPicks(parts: seq<string>)
    ensures var r := NonEmptyOnly(parts);
            var pos := KeptPositions(parts);
            |r| == |pos| && forall i :: 0 <= i < |r| ==> r[i] == parts[pos[i]]
    decreases |parts|
  {
    if |parts| > 0 {
      var tail := parts[1..];
      NonEmptyOnlyPicks(tail);
      var r', pos' := NonEmptyOnly(tail), KeptPositions(tail);
      var rest := Shifted(pos');
      forall i | 0 <= i < |r'|
        ensures r'[i] == parts[rest[i]]
      {
        assert tail[pos'[i]] == parts[pos'[i] + 1];
      }
      if parts[0] != "" {
        var r, pos := NonEmptyOnly(parts), KeptPositions(parts);
        assert r == [parts[0]] + r' && pos == [0] + rest;
        forall i | 0 < i < |r|
          ensures r[i] == parts[pos[i]]
        {
          assert r[i] == r'[i - 1] && pos[i] == rest[i - 1];
        }
      }
    }
  }

  /** `list.split(sep).map(s => s.trim()).filter(Boolean)`, the name-list parse
      shared by the TypeScript signer and the server's verifier. */
  function ParseNameList(list: string, sep: char): (names: seq<string>)
    ensures forall i :: 0 <= i < |names| ==> names[i] != "" && Trimmed(names[i]) && sep !in names[i]
  {
    NonEmptyOnly(TrimEach(Split(list, sep)))
  }

  /** The names a list parses to are the trimmed pieces that are not
      empty, in the order of the pieces. */
  lemma ParsedNamesInOrder(list: string, sep: char)
    ensures var names := ParseNameList(list, sep);
            var pieces := Split(list, sep);
            var pos := KeptPositions(TrimEach(pieces));
            |names| == |pos| && forall i :: 0 <= i < |names| ==> names[i] == Trim(pieces[pos[i]])
  {
    NonEmptyOnlyPicks(TrimEach(Split(list, sep)));
  }

  /** A value is among the images of `parts` under `f` exactly when some
      element of `parts` maps to it. */
  lemma ImageMembers<A, B>(f: A -> B, parts: seq<A>, r: seq<B>)
    requires |r| == |parts|
    requires forall i :: 0 <= i < |r| ==> r[i] == f(parts[i])
    ensures forall x :: x in r <==> exists p :: p in parts && f(p) == x
  {
    forall x | x in r
      ensures exists p :: p in parts && f(p) == x
    {
      var i :| 0 <= i < |r| && r[i] == x;
      assert parts[i] in parts;
    }
    forall x | exists p :: p in parts && f(p) == x
      ensures x in r
    {
      var p :| p in parts && f(p) == x;
      var k :| 0 <= k < |parts| && parts[k] == p;
      assert r[k] == x;
    }
  }

  /** A name comes out of a list exactly when it is not empty and some
      piece of the list trims to it. */
  lemma ParsedNames(list: string, sep: char)
    ensures var names := ParseNameList(list, sep);
            forall x :: x in names <==> x != "" && exists p :: p in Split(list, sep) && Trim(p) == x
  {
    ImageMembers(Trim, Split(list, sep), TrimEach(Split(list, sep)));
  }

  lemma {:induction false} TrimEachIdentity(parts: seq<string>)
    requires forall i :: 0 <= i < |parts| ==> Trimmed(parts[i])
    ensures TrimEach(parts) == parts
  {
  }

  lemma {:induction false} NonEmptyOnlyIdentity(parts: seq<string>)
    requires forall i :: 0 <= i < |parts| ==> parts[i] != ""
    ensures NonEmptyOnly(parts) == parts
    decreases |parts|
  {
    if |parts| > 0 {
      NonEmptyOnlyIdentity(parts[1..]);
      assert parts == [parts[0]] + parts[1..];
    }
  }

  /** A list written by joining non-empty, trimmed, separator-free names parses
      back to exactly those names (the empty list joins to "" and parses to []). */
  lemma ParseJoinedNames(names: seq<string>, sep: char)
    requires forall i :: 0 <= i < |names| ==> names[i] != "" && Trimmed(names[i]) && sep !in names[i]
    ensures ParseNameList(Join(names, sep), sep) == names
  {
    if |names| == 0 {
      assert Split("", sep) == [""];
      assert TrimEach([""]) == [""];
      assert NonEmptyOnly([""]) == [];
    } else {
      SplitJoin(names, sep);
      TrimEachIdentity(names);
      NonEmptyOnlyIdentity(names);
    }
  }

  /** ASCII case folding, as a case-insensitive regular expression applies it
      to the ASCII pattern characters used here. */
  function AsciiUpper(c: char): char {
    if 'a' <= c <= 'z' then (c as int - 32) as char else c
  }

  predicate SameChar(a: char, b: char, ignoreCase: bool) {
    if ignoreCase then AsciiUpper(a) == AsciiUpper(b) else a == b
  }

  /** `pat` occurs at the start of `s`. */
  predicate MatchesAt(s: string, pat: string, ignoreCase: bool) {
    |pat| <= |s| && forall i :: 0 <= i < |pat| ==> SameChar(s[i], pat[i], ignoreCase)
  }

  /** `pat` occurs somewhere in `s`. */
  predicate Occurs(s: string, pat: string, ignoreCase: bool)
    decreases |s|
  {
    MatchesAt(s, pat, ignoreCase) || (|s| > 0 && Occurs(s[1..], pat, ignoreCase))
  }

  /** Global replacement of a literal, non-empty pattern: scan left to right,
      replace each match and resume after it (`s.replace(/pat/g, rep)`,
      with flag `i` when `ignoreCase`). */
  function ReplaceAll(s: string, pat: string, rep: string, ignoreCase: bool): string
    requires |pat| > 0
    decreases |s|
  {
    if |s| == 0 then ""
    else if MatchesAt(s, pat, ignoreCase) then rep + ReplaceAll(s[|pat|..], pat, rep, ignoreCase)
    else [s[0]] + ReplaceAll(s[1..], pat, rep, ignoreCase)
  }

  /** A pattern absent from `s` leaves it unchanged. */
  lemma {:induction false} ReplaceAbsent(s: string, pat: string, rep: string, ignoreCase: bool)
    requires |pat| > 0 && !Occurs(s, pat, ignoreCase)
    ensures ReplaceAll(s, pat, rep, ignoreCase) == s
    decreases |s|
  {
    if |s| > 0 {
      ReplaceAbsent(s[1..], pat, rep, ignoreCase);
      assert s == [s[0]] + s[1..];
    }
  }

  /** A first character that cannot start the pattern is copied through. */
  lemma ReplaceSkipsChar(s: string, pat: string, rep: string, ignoreCase: bool)
    requires |pat| > 0 && |s| > 0 && !SameChar(s[0], pat[0], ignoreCase)
    ensures ReplaceAll(s, pat, rep, ignoreCase) == [s[0]] + ReplaceAll(s[1..], pat, rep, ignoreCase)
  {
  }

  /** `s.replaceAll(c, rep)` for a one-character literal `c`. */
  function ReplaceChar(s: string, c: char, rep: string): (r: string)
    ensures c !in rep ==> c !in r
    ensures forall x :: x in r ==> x in s || x in rep
  {
    if |s| == 0 then ""
    else (if s[0] == c then rep else [s[0]]) + ReplaceChar(s[1..], c, rep)
  }

  lemma ReplaceCharAppend(a: string, b: string, c: char, rep: string)
    ensures ReplaceChar(a + b, c, rep) == ReplaceChar(a, c, rep) + ReplaceChar(b, c, rep)
    decreases |a|
  {
    if |a| > 0 {
      ReplaceCharAppend(a[1..], b, c, rep);
      var h := if a[0] == c then rep else [a[0]];
      assert (a + b)[0] == a[0];
      assert (a + b)[1..] == a[1..] + b;
      assert ReplaceChar(a + b, c, rep) == h + ReplaceChar(a[1..] + b, c, rep);
      assert ReplaceChar(a, c, rep) == h + ReplaceChar(a[1..], c, rep);
    } else {
      assert a + b == b;
    }
  }
}
