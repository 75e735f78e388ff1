/** The order in which the signing code lists field names: `Array.prototype.sort()`
    with no comparator, and the comparator `(a < b ? -1 : a > b ? 1 : 0)`, both
    compare strings by UTF-16 code units, lexicographically, a proper prefix first. */
module KeyOrder {

  /** A rank per character such that comparing ranks agrees with comparing the
      characters' UTF-16 encodings: BMP characters keep their code point (scaled),
      supplementary characters sort between U+D7FF and U+E000, exactly where
      their high surrogate falls, in code point order. */
  function CodeUnitRank(c: char): int
  {
    var n := c as int;
    if n < 0x10000 then n * 0x10_0000 else 0xD800 * 0x10_0000 + (n - 0x10000)
  }

  lemma CodeUnitRankInjective(c: char, d: char)
    requires c != d
    ensures CodeUnitRank(c) != CodeUnitRank(d)
  {
  }

  /** JavaScript `a < b` on strings. */
  predicate Below(a: string, b: string)
    decreases |a|
  {
    if |a| == 0 then |b| > 0
    else if |b| == 0 then false
    else if a[0] == b[0] then Below(a[1..], b[1..])
    else CodeUnitRank(a[0]) < CodeUnitRank(b[0])
  }

  lemma {:induction false} BelowIrreflexive(a: string)
    ensures !Below(a, a)
    decreases |a|
  {
    if |a| > 0 {
      BelowIrreflexive(a[1..]);
    }
  }

  lemma {:induction false} BelowTransitive(a: string, b: string, c: string)
    requires Below(a, b) && Below(b, c)
    ensures Below(a, c)
    decreases |a|
  {
    if |a| > 0 && a[0] == b[0] && b[0] == c[0] {
      BelowTransitive(a[1..], b[1..], c[1..]);
    }
  }

  lemma {:induction false} BelowTotal(a: string, b: string)
    ensures a == b || Below(a, b) || Below(b, a)
    decreases |a|
  {
    if |a| > 0 && |b| > 0 {
      if a[0] == b[0] {
        BelowTotal(a[1..], b[1..]);
        if a[1..] == b[1..] {
          assert a == [a[0]] + a[1..] && b == [b[0]] + b[1..];
        }
      } else {
        CodeUnitRankInjective(a[0], b[0]);
      }
    }
  }

  lemma BelowAsymmetric(a: string, b: string)
    ensures Below(a, b) ==> !Below(b, a)
  {
    if Below(a, b) && Below(b, a) {
      BelowTransitive(a, b, a);
      BelowIrreflexive(a);
    }
  }

  /** Every element is strictly below every later one (so there are no duplicates). */
  predicate StrictlyAscending(s: seq<string>) {
    forall i, j :: 0 <= i < j < |s| ==> Below(s[i], s[j])
  }

  /** No element is below an earlier one. */
  predicate Ascending(s: seq<string>) {
    forall i, j :: 0 <= i < j < |s| ==> !Below(s[j], s[i])
  }

  predicate Distinct(s: seq<string>) {
    forall i, j :: 0 <= i < j < |s| ==> s[i] != s[j]
  }

  predicate IsLeast(m: string, s: set<string>) {
    m in s && forall k :: k in s && k != m ==> Below(m, k)
  }

  lemma {:induction false} LeastExists(s: set<string>)
    requires s != {}
    ensures exists m :: IsLeast(m, s)
    decreases |s|
  {
    var x :| x in s;
    if s != {x} {
      LeastExists(s - {x});
      var m :| IsLeast(m, s - {x});
      BelowTotal(x, m);
      if Below(x, m) {
        forall k | k in s && k != x
          ensures Below(x, k)
        {
          if k != m {
            BelowTransitive(x, m, k);
          }
        }
        assert IsLeast(x, s);
      } else {
        assert IsLeast(m, s);
      }
    } else {
      assert IsLeast(x, s);
    }
  }

  lemma LeastUnique(s: set<string>)
    ensures forall a, b :: IsLeast(a, s) && IsLeast(b, s) ==> a == b
  {
    forall a, b | IsLeast(a, s) && IsLeast(b, s)
      ensures a == b
    {
      BelowAsymmetric(a, b);
    }
  }

  /** The names of a key set in ascending code-unit order: the one sequence that
      lists each name once and is strictly ascending. */
  function SortedKeys(s: set<string>): (r: seq<string>)
    ensures |r| == |s|
    ensures forall i :: 0 <= i < |r| ==> r[i] in s
    ensures forall k :: k in s ==> k in r
    ensures StrictlyAscending(r)
    decreases |s|
  {
    if s == {} then []
    else
      LeastExists(s);
      LeastUnique(s);
      var m :| m in s && IsLeast(m, s);
      var rest := SortedKeys(s - {m});
      var r := [m] + rest;
      assert forall j :: 0 < j < |r| ==> r[j] == rest[j - 1];
      r
  }

  /** Equal sorted listings come from equal sets. */
  lemma SameSortedKeys(s1: set<string>, s2: set<string>)
    requires SortedKeys(s1) == SortedKeys(s2)
    ensures s1 == s2
  {
    assert forall k :: k in s1 <==> k in SortedKeys(s1);
    assert forall k :: k in s2 <==> k in SortedKeys(s2);
  }

  lemma HeadIn(a: seq<string>)
    requires |a| > 0
    ensures a[0] in a
  {
  }

  /** The head of a strictly ascending sequence is below every other element. */
  lemma HeadIsLeast(a: seq<string>)
    requires StrictlyAscending(a) && |a| > 0
    ensures forall x :: x in a && x != a[0] ==> Below(a[0], x)
    ensures forall x :: x in a[1..] <==> x in a && x != a[0]
  {
    BelowIrreflexive(a[0]);
    assert a == [a[0]] + a[1..];
  }

  /** Two strictly ascending sequences with the same elements are equal. */
  lemma {:induction false} StrictlyAscendingUnique(a: seq<string>, b: seq<string>)
    requires StrictlyAscending(a) && StrictlyAscending(b)
    requires forall x :: x in a <==> x in b
    ensures a == b
    decreases |a|
  {
    if |a| == 0 && |b| > 0 {
      HeadIn(b);
      assert false;
    } else if |a| > 0 && |b| == 0 {
      HeadIn(a);
      assert false;
    } else if |a| > 0 {
      HeadIn(a);
      HeadIn(b);
      HeadIsLeast(a);
      HeadIsLeast(b);
      BelowAsymmetric(a[0], b[0]);
      assert a[0] == b[0];
      assert forall x :: x in a[1..] <==> x in b[1..];
      StrictlyAscendingUnique(a[1..], b[1..]);
      assert a == [a[0]] + a[1..];
      assert b == [b[0]] + b[1..];
    }
  }

  /** Inserting one name into an ascending list (one step of sorting). */
  function Insert(k: string, r: seq<string>): (t: seq<string>)
    requires Ascending(r)
    ensures multiset(t) == multiset(r) + multiset{k}
    ensures Ascending(t)
    decreases |r|
  {
    if |r| == 0 then [k]
    else if !Below(r[0], k) then
      var t := [k] + r;
      assert forall j :: 0 < j < |r| ==> !Below(r[j], r[0]);
      forall i, j | 0 <= i < j < |t|
        ensures !Below(t[j], t[i])
      {
        if i == 0 {
          BelowTotal(r[0], k);
          if Below(t[j], k) {
            if j - 1 > 0 {
              BelowTotal(r[j - 1], r[0]);
              if Below(r[0], r[j - 1]) {
                BelowTransitive(r[0], r[j - 1], k);
              }
            }
          }
        }
      }
      t
    else
      var rest := Insert(k, r[1..]);
      var t := [r[0]] + rest;
      assert multiset(r) == multiset{r[0]} + multiset(r[1..]) by {
        assert r == [r[0]] + r[1..];
      }
      forall i, j | 0 <= i < j < |t|
        ensures !Below(t[j], t[i])
      {
        if i == 0 {
          assert t[j] in multiset(rest);
          if t[j] == k {
            BelowAsymmetric(r[0], k);
          } else {
            assert t[j] in multiset(r[1..]);
            var m :| 0 <= m < |r[1..]| && r[1..][m] == t[j];
            assert r[m + 1] == t[j];
          }
        }
      }
      t
  }

  /** `Array.prototype.sort()` applied to an enumeration of names. */
  function Sort(ks: seq<string>): (r: seq<string>)
    ensures multiset(r) == multiset(ks)
    ensures Ascending(r)
  {
    if |ks| == 0 then []
    else
      assert ks == [ks[0]] + ks[1..];
      Insert(ks[0], Sort(ks[1..]))
  }

  lemma RepeatCounted(r: seq<string>, i: int, j: int)
    requires 0 <= i < j < |r| && r[i] == r[j]
    ensures multiset(r)[r[i]] >= 2
  {
    assert r == r[..i] + [r[i]] + r[i + 1..];
    assert r[i + 1..] == r[i + 1..j] + [r[j]] + r[j + 1..];
  }

  lemma AscendingDistinctIsStrict(r: seq<string>)
    requires Ascending(r)
    requires multiset(r) == multiset(set x | x in r)
    ensures StrictlyAscending(r)
  {
    forall i, j | 0 <= i < j < |r|
      ensures Below(r[i], r[j])
    {
      BelowTotal(r[i], r[j]);
      if r[i] == r[j] {
        RepeatCounted(r, i, j);
        assert false;
      }
    }
  }

  /** Whatever order `Object.keys` enumerates a set of names in, sorting that
      enumeration yields `SortedKeys` of the set: the signed order never
      depends on insertion order. */
  lemma SortIgnoresEnumerationOrder(ks: seq<string>, s: set<string>)
    requires multiset(ks) == multiset(s)
    ensures Sort(ks) == SortedKeys(s)
  {
    var r := Sort(ks);
    assert multiset(r) == multiset(s);
    forall x
      ensures x in r <==> x in s
    {
      assert x in r <==> x in multiset(r);
    }
    assert (set x | x in r) == s;
    AscendingDistinctIsStrict(r);
    StrictlyAscendingUnique(r, SortedKeys(s));
  }
}
