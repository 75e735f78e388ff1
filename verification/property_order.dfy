/** The order in which JavaScript enumerates the own properties of an
    ordinary object (section 10.1.11.1 of ECMA-262, OrdinaryOwnPropertyKeys):
    array-index names first, in ascending numeric order, then the other
    names in the order they were created. */
module PropertyOrder {
  import opened JsValues
  import opened KeyOrder

  /** An array index: a digit string that is the canonical decimal form of
      a value below 2^32 - 1. */
  predicate IsArrayIndex(k: string) {
    |k| >= 1 && AllDigits(k) && DigitsValue(k) < 0xFFFF_FFFF && NatToDecimal(DigitsValue(k)) == k
  }

  /** The numeric value of an index name (0 for any other name). */
  function IndexValue(k: string): nat {
    if AllDigits(k) then DigitsValue(k) else 0
  }

  /** Every element's value is below every later one's. */
  predicate NumericallyAscending(r: seq<string>) {
    forall i, j :: 0 <= i < j < |r| ==> IndexValue(r[i]) < IndexValue(r[j])
  }

  predicate AllIndices(s: set<string>) {
    forall k :: k in s ==> IsArrayIndex(k)
  }

  predicate IsLeastIndex(m: string, s: set<string>) {
    m in s && forall k :: k in s ==> IndexValue(m) <= IndexValue(k)
  }

  lemma {:induction false} LeastIndexExists(s: set<string>)
    requires s != {} && AllIndices(s)
    ensures exists m :: IsLeastIndex(m, s)
    decreases |s|
  {
    var x :| x in s;
    if s != {x} {
      LeastIndexExists(s - {x});
      var m :| IsLeastIndex(m, s - {x});
      if IndexValue(x) <= IndexValue(m) {
        assert IsLeastIndex(x, s);
      } else {
        assert IsLeastIndex(m, s);
      }
    } else {
      assert IsLeastIndex(x, s);
    }
  }

  /** Equal numeric values mean equal names: an index is its value's canonical decimal. */
  lemma LeastIndexUnique(s: set<string>)
    requires AllIndices(s)
    ensures forall a, b :: IsLeastIndex(a, s) && IsLeastIndex(b, s) ==> a == b
  {
  }

  /** The array-index names of a set in ascending numeric order. */
  function SortedIndices(s: set<string>): (r: seq<string>)
    requires AllIndices(s)
    ensures |r| == |s|
    ensures forall i :: 0 <= i < |r| ==> r[i] in s
    ensures forall k :: k in s ==> k in r
    ensures NumericallyAscending(r)
    decreases |s|
  {
    if s == {} then []
    else
      LeastIndexExists(s);
      LeastIndexUnique(s);
      var m :| IsLeastIndex(m, s);
      var rest := SortedIndices(s - {m});
      PrependLeast(m, s, rest);
      [m] + rest
  }

  lemma PrependLeast(m: string, s: set<string>, rest: seq<string>)
    requires AllIndices(s) && IsLeastIndex(m, s)
    requires forall i :: 0 <= i < |rest| ==> rest[i] in s - {m}
    requires NumericallyAscending(rest)
    ensures NumericallyAscending([m] + rest)
  {
    var r := [m] + rest;
    forall i, j | 0 <= i < j < |r|
      ensures IndexValue(r[i]) < IndexValue(r[j])
    {
      assert r[j] == rest[j - 1];
      if i == 0 {
        assert IndexValue(m) != IndexValue(r[j]);
      } else {
        assert r[i] == rest[i - 1];
      }
    }
  }

  /** The position at which `k` was created: its first occurrence in
      `created`, or `|created|` when it is not there. */
  function CreatedAt(created: seq<string>, k: string): (p: nat)
    ensures p <= |created|
    ensures p < |created| <==> k in created
    ensures p < |created| ==> created[p] == k
    ensures forall q :: 0 <= q < p ==> created[q] != k
  {
    if |created| == 0 || created[0] == k then 0 else 1 + CreatedAt(created[1..], k)
  }

  /** The array-index names among `created`. */
  function IndexNames(created: seq<string>): (s: set<string>)
    ensures AllIndices(s)
    ensures forall k :: k in s <==> k in created && IsArrayIndex(k)
  {
    set k | k in created && IsArrayIndex(k)
  }

  /** The non-index names, in creation order. */
  function OtherNames(created: seq<string>): (r: seq<string>)
    ensures forall k :: k in r <==> k in created && !IsArrayIndex(k)
    ensures Distinct(created) ==> Distinct(r)
    ensures Distinct(created) ==>
              forall i, j :: 0 <= i < j < |r| ==> CreatedAt(created, r[i]) < CreatedAt(created, r[j])
  {
    if |created| == 0 then []
    else
      var rest := OtherNames(created[1..]);
      assert forall k :: k in created <==> k == created[0] || k in created[1..];
      OthersAfterFirst(created, rest);
      if IsArrayIndex(created[0]) then rest
      else
        var r := [created[0]] + rest;
        assert forall j :: 0 < j < |r| ==> r[j] == rest[j - 1];
        r
  }

  /** The names after the first are created one position later in `created`
      than in `created[1..]`, and after the first name. */
  lemma OthersAfterFirst(created: seq<string>, rest: seq<string>)
    requires |created| > 0
    requires forall k :: k in rest ==> k in created[1..]
    requires Distinct(created[1..]) ==>
               forall i, j :: 0 <= i < j < |rest| ==> CreatedAt(created[1..], rest[i]) < CreatedAt(created[1..], rest[j])
    ensures Distinct(created) ==>
              && (forall i :: 0 <= i < |rest| ==> 0 < CreatedAt(created, rest[i]))
              && (forall i, j :: 0 <= i < j < |rest| ==> CreatedAt(created, rest[i]) < CreatedAt(created, rest[j]))
  {
    if Distinct(created) {
      assert Distinct(created[1..]) by {
        forall i, j | 0 <= i < j < |created[1..]|
          ensures created[1..][i] != created[1..][j]
        {
          assert created[1..][i] == created[i + 1] && created[1..][j] == created[j + 1];
        }
      }
      forall i | 0 <= i < |rest|
        ensures CreatedAt(created, rest[i]) == 1 + CreatedAt(created[1..], rest[i])
      {
        var p := CreatedAt(created[1..], rest[i]);
        assert created[1..][p] == rest[i] && created[p + 1] == rest[i];
        assert created[0] != rest[i];
      }
    }
  }

  /** `Object.keys` of an object whose properties were created in the order
      `created`. */
  function EnumerationOrder(created: seq<string>): (r: seq<string>)
    ensures forall k :: k in r <==> k in created
    ensures Distinct(created) ==> Distinct(r)
    ensures forall i, j :: 0 <= i < |r| && 0 <= j < |r| && IsArrayIndex(r[i]) && !IsArrayIndex(r[j]) ==> i < j
    ensures forall i, j :: 0 <= i < j < |r| && IsArrayIndex(r[i]) && IsArrayIndex(r[j]) ==>
              IndexValue(r[i]) < IndexValue(r[j])
    ensures Distinct(created) ==>
              forall i, j :: 0 <= i < j < |r| && !IsArrayIndex(r[i]) && !IsArrayIndex(r[j]) ==>
                CreatedAt(created, r[i]) < CreatedAt(created, r[j])
  {
    var indices := SortedIndices(IndexNames(created));
    var others := OtherNames(created);
    IndicesThenOthers(indices, others);
    OrderWithinGroups(indices, others, created);
    indices + others
  }

  lemma OrderWithinGroups(indices: seq<string>, others: seq<string>, created: seq<string>)
    requires forall i :: 0 <= i < |indices| ==> IsArrayIndex(indices[i])
    requires NumericallyAscending(indices)
    requires forall k :: k in others ==> !IsArrayIndex(k)
    requires Distinct(created) ==>
               forall i, j :: 0 <= i < j < |others| ==> CreatedAt(created, others[i]) < CreatedAt(created, others[j])
    ensures var r := indices + others;
            forall i, j :: 0 <= i < j < |r| && IsArrayIndex(r[i]) && IsArrayIndex(r[j]) ==>
              IndexValue(r[i]) < IndexValue(r[j])
    ensures var r := indices + others;
            Distinct(created) ==>
              forall i, j :: 0 <= i < j < |r| && !IsArrayIndex(r[i]) && !IsArrayIndex(r[j]) ==>
                CreatedAt(created, r[i]) < CreatedAt(created, r[j])
  {
    var r := indices + others;
    var n := |indices|;
    assert forall i :: 0 <= i < n ==> r[i] == indices[i];
    assert forall i :: n <= i < |r| ==> r[i] == others[i - n] && r[i] in others;
  }

  lemma IndicesThenOthers(indices: seq<string>, others: seq<string>)
    requires forall i :: 0 <= i < |indices| ==> IsArrayIndex(indices[i])
    requires NumericallyAscending(indices)
    requires forall k :: k in others ==> !IsArrayIndex(k)
    ensures Distinct(others) ==> Distinct(indices + others)
    ensures var r := indices + others;
            forall i, j :: 0 <= i < |r| && 0 <= j < |r| && IsArrayIndex(r[i]) && !IsArrayIndex(r[j]) ==> i < j
  {
    var r := indices + others;
    assert forall i :: |indices| <= i < |r| ==> r[i] == others[i - |indices|] && r[i] in others;
    if Distinct(others) {
      forall i, j | 0 <= i < j < |r|
        ensures r[i] != r[j]
      {
        if j < |indices| {
          assert IndexValue(r[i]) < IndexValue(r[j]);
        }
      }
    }
  }

  /** Without array-index names, enumeration follows creation order. */
  lemma {:induction false} EnumerationWithoutIndices(created: seq<string>)
    requires forall i :: 0 <= i < |created| ==> !IsArrayIndex(created[i])
    ensures EnumerationOrder(created) == created
  {
    assert IndexNames(created) == {};
    OtherNamesWithoutIndices(created);
  }

  lemma {:induction false} OtherNamesWithoutIndices(created: seq<string>)
    requires forall i :: 0 <= i < |created| ==> !IsArrayIndex(created[i])
    ensures OtherNames(created) == created
  {
    if |created| > 0 {
      OtherNamesWithoutIndices(created[1..]);
      assert created == [created[0]] + created[1..];
    }
  }

  lemma TenAndNineAreIndices()
    ensures IsArrayIndex("10") && IndexValue("10") == 10
    ensures IsArrayIndex("9") && IndexValue("9") == 9
  {
    assert NatToDecimal(1) == "1";
    assert NatToDecimal(0) == "0";
    assert DigitsValue("10") == 10 by {
      assert "10"[..1] == "1";
    }
    assert NatToDecimal(10) == "10";
    assert NatToDecimal(9) == "9";
  }

  lemma SortedTenAndNine()
    ensures IsArrayIndex("10") && IsArrayIndex("9") && SortedIndices({"10", "9"}) == ["9", "10"]
  {
    TenAndNineAreIndices();
    var r := SortedIndices({"10", "9"});
    assert r[0] in {"10", "9"} && r[1] in {"10", "9"} && r[0] != r[1];
  }

  /** The enumeration can differ from the code-unit order the names were
      created in: after creating "10" and then "9", `Object.keys` gives "9"
      first. */
  lemma IndicesComeNumerically()
    ensures Below("10", "9")
    ensures EnumerationOrder(["10", "9"]) == ["9", "10"]
  {
    assert CodeUnitRank('1') < CodeUnitRank('9');
    TenAndNineAreIndices();
    assert IndexNames(["10", "9"]) == {"10", "9"};
    SortedTenAndNine();
    assert OtherNames(["10", "9"]) == [];
  }
}
