/**
  The collection operations of the .NET and Unity libraries that the drawer
  calls: Array.IndexOf (exact, case-sensitive search), Mathf.Clamp, and
  List<string>.Sort under StringComparer.OrdinalIgnoreCase.
 */
module Collections {

  import opened Text

  /** Every later element is not case-insensitively less than an earlier one. */
  predicate SortedIgnoreCase(s: seq<string>)
  {
    forall i, j :: 0 <= i < j < |s| ==> !LessIgnoreCase(s[j], s[i])
  }

  /** Every earlier element is case-insensitively less than every later one. */
  predicate StrictlySortedIgnoreCase(s: seq<string>)
  {
    forall i, j :: 0 <= i < j < |s| ==> LessIgnoreCase(s[i], s[j])
  }

  /** No two positions hold case-insensitively equal strings. */
  predicate DistinctIgnoreCase(s: seq<string>)
  {
    forall i, j :: 0 <= i < j < |s| ==> !EqualsIgnoreCase(s[i], s[j])
  }

  /**
    Array.IndexOf: the first position holding exactly `value` (ordinal,
    case-sensitive equality), or -1 when no position does.
   */
  function IndexOf(a: seq<string>, value: string): (k: int)
    ensures -1 <= k < |a|
    ensures k == -1 <==> value !in a
    ensures 0 <= k ==> a[k] == value && value !in a[..k]
  {
    if a == [] then -1
    else if a[0] == value then 0
    else
      var k := IndexOf(a[1..], value);
      assert a == [a[0]] + a[1..];
      if k < 0 then -1
      else
        assert a[..k + 1] == [a[0]] + a[1..][..k];
        k + 1
  }

  /**
    Mathf.Clamp: `value` when it lies in [min, max]; otherwise the bound it
    crossed (min is tested first).
   */
  function Clamp(value: int, min: int, max: int): (r: int)
    ensures min <= max ==> min <= r <= max
    ensures min <= value <= max ==> r == value
    ensures value < min ==> r == min
    ensures min <= value && max < value ==> r == max
  {
    if value < min then min else if value > max then max else value
  }

  /**
    List<string>.Sort(StringComparer.OrdinalIgnoreCase): the result is a
    permutation of `s`, in ascending case-insensitive order. The library's own
    unstable algorithm is not modelled; insertion sort meets the same contract
    and gives the same result on case-insensitively distinct lists.
   */
  method SortIgnoreCase(s: seq<string>) returns (r: seq<string>)
    ensures SortedIgnoreCase(r)
    ensures multiset(r) == multiset(s)
  {
    r := [];
    for i := 0 to |s|
      invariant SortedIgnoreCase(r)
      invariant multiset(r) == multiset(s[..i])
    {
      var x := s[i];
      var j := 0;
      while j < |r| && !LessIgnoreCase(x, r[j])
        invariant 0 <= j <= |r|
        invariant forall k :: 0 <= k < j ==> !LessIgnoreCase(x, r[k])
      {
        j := j + 1;
      }
      InsertKeepsSorted(r, j, x);
      assert r == r[..j] + r[j..];
      assert s[..i + 1] == s[..i] + [x];
      r := r[..j] + [x] + r[j..];
    }
    assert s[..|s|] == s;
  }

  /** Inserting `x` after everything not greater and before everything greater keeps the order. */
  lemma InsertKeepsSorted(r: seq<string>, j: nat, x: string)
    requires SortedIgnoreCase(r) && j <= |r|
    requires forall k :: 0 <= k < j ==> !LessIgnoreCase(x, r[k])
    requires j < |r| ==> LessIgnoreCase(x, r[j])
    ensures SortedIgnoreCase(r[..j] + [x] + r[j..])
  {
    var r' := r[..j] + [x] + r[j..];
    forall p, q | 0 <= p < q < |r'| ensures !LessIgnoreCase(r'[q], r'[p]) {
      if p < j && q == j {
      } else if p == j && j < q {
        var m := q - 1;
        assert r'[q] == r[m];
        if m == j {
          LessIgnoreCaseAsymmetric(x, r[j]);
        } else if LessIgnoreCase(r[m], x) {
          LessIgnoreCaseTransitive(r[m], x, r[j]);
          assert false;
        }
      } else if q < j {
        assert r'[p] == r[p] && r'[q] == r[q];
      } else if p < j {
        assert r'[p] == r[p];
        assert r'[q] == r[j..][q - j - 1] == r[q - 1];
      } else {
        assert r'[p] == r[p - 1] && r'[q] == r[q - 1];
      }
    }
  }

  /** A sequence without repeated elements holds each value at most once. */
  lemma {:induction false} DistinctCountAtMostOne(s: seq<string>, x: string)
    requires forall i, j :: 0 <= i < j < |s| ==> s[i] != s[j]
    ensures multiset(s)[x] <= 1
  {
    if s != [] {
      var init := s[..|s| - 1];
      assert s == init + [s[|s| - 1]];
      DistinctCountAtMostOne(init, x);
      if x == s[|s| - 1] {
        assert x !in init;
      }
    }
  }

  /** A value held at two positions is counted at least twice. */
  lemma RepeatedCountAtLeastTwo(r: seq<string>, i: nat, j: nat)
    requires i < j < |r| && r[i] == r[j]
    ensures multiset(r)[r[i]] >= 2
  {
    assert r == r[..j] + [r[j]] + r[j + 1..];
    assert r[..j][i] == r[i];
    assert r[i] in multiset(r[..j]);
  }

  /**
    Sorting a case-insensitively distinct list orders it strictly: no two
    entries of the result are equal under case-insensitive comparison.
   */
  lemma SortedDistinctIsStrict(s: seq<string>, r: seq<string>)
    requires DistinctIgnoreCase(s)
    requires SortedIgnoreCase(r) && multiset(r) == multiset(s)
    ensures StrictlySortedIgnoreCase(r)
  {
    forall i, j | 0 <= i < j < |r| ensures LessIgnoreCase(r[i], r[j]) {
      assert r[i] in multiset(s) && r[j] in multiset(s);
      var p :| 0 <= p < |s| && s[p] == r[i];
      var q :| 0 <= q < |s| && s[q] == r[j];
      if r[i] == r[j] {
        DistinctCountAtMostOne(s, r[i]);
        RepeatedCountAtLeastTwo(r, i, j);
        assert false;
      }
      assert p != q;
      assert !EqualsIgnoreCase(r[i], r[j]) by {
        if p < q { assert !EqualsIgnoreCase(s[p], s[q]); } else { assert !EqualsIgnoreCase(s[q], s[p]); }
      }
      LessIgnoreCaseTrichotomy(r[i], r[j]);
    }
  }

  /** Strict order implies case-insensitive distinctness. */
  lemma StrictlySortedIsDistinct(s: seq<string>)
    requires StrictlySortedIgnoreCase(s)
    ensures DistinctIgnoreCase(s)
  {
  }

  lemma SameElementsBothEmpty(r1: seq<string>, r2: seq<string>)
    requires forall x :: x in r1 <==> x in r2
    ensures r1 == [] <==> r2 == []
  {
    if r1 != [] {
      assert r1[0] in r2;
    }
    if r2 != [] {
      assert r2[0] in r1;
    }
  }

  /**
    A strictly sorted sequence is determined by its elements: two strictly
    sorted sequences with the same elements are equal, whatever order the
    elements were enumerated in before sorting.
   */
  lemma {:induction false} StrictlySortedUnique(r1: seq<string>, r2: seq<string>)
    requires StrictlySortedIgnoreCase(r1) && StrictlySortedIgnoreCase(r2)
    requires forall x :: x in r1 <==> x in r2
    ensures r1 == r2
  {
    SameElementsBothEmpty(r1, r2);
    if r1 != [] {
      assert r1[0] in r2;
      assert r2 != [] && r2[0] in r1;
      assert r1 == [r1[0]] + r1[1..] && r2 == [r2[0]] + r2[1..];
      if r1[0] != r2[0] {
        var p :| 0 <= p < |r2| && r2[p] == r1[0];
        var q :| 0 <= q < |r1| && r1[q] == r2[0];
        assert LessIgnoreCase(r2[0], r1[0]);
        assert LessIgnoreCase(r1[0], r2[0]);
        LessIgnoreCaseAsymmetric(r1[0], r2[0]);
      }
      forall x ensures x in r1[1..] <==> x in r2[1..] {
        if x in r1[1..] {
          var k :| 0 <= k < |r1[1..]| && r1[1..][k] == x;
          assert LessIgnoreCase(r1[0], r1[k + 1]);
          LexLessIrreflexive(Fold(x));
          assert x != r2[0] && x in r1;
          assert x in r2 && r2 == [r2[0]] + r2[1..];
        }
        if x in r2[1..] {
          var k :| 0 <= k < |r2[1..]| && r2[1..][k] == x;
          assert LessIgnoreCase(r2[0], r2[k + 1]);
          LexLessIrreflexive(Fold(x));
          assert x != r1[0] && x in r2;
          assert x in r1 && r1 == [r1[0]] + r1[1..];
        }
      }
      StrictlySortedUnique(r1[1..], r2[1..]);
    }
  }
}
