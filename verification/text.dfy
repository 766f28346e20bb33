/**
  The string primitives the drawer relies on from the .NET base library:
  white-space tests (string.IsNullOrWhiteSpace), string.Trim, and the
  ordinal case-insensitive equality and order of StringComparer.OrdinalIgnoreCase.
  All of them are stated at the level of ASCII: the white-space set is
  space and U+0009..U+000D, and case folding upper-cases 'a'..'z' only.
 */
module Text {

  import opened Wrappers

  /** ASCII white space: space, tab, line feed, vertical tab, form feed, carriage return. */
  predicate IsWhiteSpace(c: char)
  {
    c == ' ' || '\t' <= c <= '\r'
  }

  /** True when every character is white space; the empty string is blank. */
  predicate IsBlank(s: string)
  {
    forall i :: 0 <= i < |s| ==> IsWhiteSpace(s[i])
  }

  /**
    string.IsNullOrWhiteSpace: null, empty, or white space only; that is,
    null or trimming to the empty string.
   */
  predicate IsNullOrWhiteSpace(s: Option<string>)
    ensures IsNullOrWhiteSpace(s) <==> s.None? || Trim(s.value) == []
  {
    s.None? || IsBlank(s.value)
  }

  /** Number of white-space characters at the start of `s`. */
  function LeadingWhiteSpace(s: string): (n: nat)
    ensures n <= |s|
    ensures forall i :: 0 <= i < n ==> IsWhiteSpace(s[i])
    ensures n < |s| ==> !IsWhiteSpace(s[n])
  {
    if s != [] && IsWhiteSpace(s[0]) then 1 + LeadingWhiteSpace(s[1..]) else 0
  }

  /** Number of white-space characters at the end of `s`. */
  function TrailingWhiteSpace(s: string): (n: nat)
    ensures n <= |s|
    ensures forall i :: |s| - n <= i < |s| ==> IsWhiteSpace(s[i])
    ensures n < |s| ==> !IsWhiteSpace(s[|s| - 1 - n])
  {
    if s != [] && IsWhiteSpace(s[|s| - 1]) then 1 + TrailingWhiteSpace(s[..|s| - 1]) else 0
  }

  /**
    string.Trim: `s` without its leading and trailing white space. The result
    is a contiguous piece of `s`, only white space is cut off around it, it is
    empty exactly when `s` is blank, and otherwise it starts and ends with a
    character that is not white space.
   */
  function Trim(s: string): (t: string)
    ensures |t| <= |s|
    ensures exists a :: 0 <= a <= |s| - |t| && t == s[a..a + |t|] && IsBlank(s[..a]) && IsBlank(s[a + |t|..])
    ensures t == [] <==> IsBlank(s)
    ensures t != [] ==> !IsWhiteSpace(t[0]) && !IsWhiteSpace(t[|t| - 1])
  {
    var a := LeadingWhiteSpace(s);
    var n := TrailingWhiteSpace(s[a..]);
    TrailingRunOfSuffix(s, a, n);
    var t := s[a..|s| - n];
    TrimPieceMargins(s, a, n);
    TrimPieceEnds(s, a, n, t);
    assert t == s[a..a + |t|] && s[a + |t|..] == s[|s| - n..];
    t
  }

  /** The trailing white space of `s[a..]` is trailing white space of `s`. */
  lemma TrailingRunOfSuffix(s: string, a: nat, n: nat)
    requires a <= |s| && n == TrailingWhiteSpace(s[a..])
    ensures a + n <= |s|
    ensures forall i :: |s| - n <= i < |s| ==> IsWhiteSpace(s[i])
    ensures a + n < |s| ==> !IsWhiteSpace(s[|s| - 1 - n])
  {
    var rest := s[a..];
    forall i | |s| - n <= i < |s| ensures IsWhiteSpace(s[i]) {
      assert s[i] == rest[i - a];
    }
    if a + n < |s| {
      assert s[|s| - 1 - n] == rest[|rest| - 1 - n];
    }
  }

  /** The piece between a white-space prefix of length `a` and a white-space suffix of length `n`. */
  lemma TrimPieceMargins(s: string, a: nat, n: nat)
    requires a + n <= |s|
    requires forall i :: 0 <= i < a ==> IsWhiteSpace(s[i])
    requires forall i :: |s| - n <= i < |s| ==> IsWhiteSpace(s[i])
    ensures IsBlank(s[..a]) && IsBlank(s[|s| - n..])
  {
    forall i | 0 <= i < a ensures IsWhiteSpace(s[..a][i]) {
      assert s[..a][i] == s[i];
    }
    var suffix := s[|s| - n..];
    forall i | 0 <= i < |suffix| ensures IsWhiteSpace(suffix[i]) {
      assert suffix[i] == s[|s| - n + i];
    }
  }

  /**
    With both runs of white space maximal, the piece between them is empty
    only for a blank `s`, and otherwise has non-white-space ends.
   */
  lemma TrimPieceEnds(s: string, a: nat, n: nat, t: string)
    requires a + n <= |s| && t == s[a..|s| - n]
    requires forall i :: 0 <= i < a ==> IsWhiteSpace(s[i])
    requires a < |s| ==> !IsWhiteSpace(s[a])
    requires forall i :: |s| - n <= i < |s| ==> IsWhiteSpace(s[i])
    requires a + n < |s| ==> !IsWhiteSpace(s[|s| - 1 - n])
    ensures t == [] <==> IsBlank(s)
    ensures t != [] ==> !IsWhiteSpace(t[0]) && !IsWhiteSpace(t[|t| - 1])
  {
    if t != [] {
      assert t[0] == s[a] && t[|t| - 1] == s[|s| - 1 - n];
    }
  }

  /** A string that neither starts nor ends with white space is its own trimmed form. */
  lemma TrimOfTrimmed(t: string)
    requires t != [] ==> !IsWhiteSpace(t[0]) && !IsWhiteSpace(t[|t| - 1])
    ensures Trim(t) == t
  {
  }

  /** Trimming twice is trimming once. */
  lemma TrimIdempotent(s: string)
    ensures Trim(Trim(s)) == Trim(s)
  {
  }

  /** Ordinal upper-casing of one character, ASCII letters only. */
  function ToUpper(c: char): char
  {
    if 'a' <= c <= 'z' then (c as int - 32) as char else c
  }

  /** The case-folded form of `s` that ordinal case-insensitive comparison looks at. */
  function Fold(s: string): seq<char>
  {
    seq(|s|, i requires 0 <= i < |s| => ToUpper(s[i]))
  }

  /**
    StringComparer.OrdinalIgnoreCase.Equals: same length, and the characters
    at each position are equal after upper-casing.
   */
  predicate EqualsIgnoreCase(a: string, b: string)
    ensures EqualsIgnoreCase(a, b) <==> |a| == |b| && forall i :: 0 <= i < |a| ==> ToUpper(a[i]) == ToUpper(b[i])
  {
    assert Fold(a) == Fold(b) ==> forall i :: 0 <= i < |a| ==> ToUpper(a[i]) == ToUpper(b[i]) by {
      if Fold(a) == Fold(b) {
        forall i | 0 <= i < |a| ensures ToUpper(a[i]) == ToUpper(b[i]) {
          assert Fold(a)[i] == Fold(b)[i];
        }
      }
    }
    Fold(a) == Fold(b)
  }

  /** Strict lexicographic order on character codes; a proper prefix comes first. */
  predicate LexLess(a: seq<char>, b: seq<char>)
  {
    if a == [] then b != []
    else if b == [] then false
    else if a[0] != b[0] then a[0] < b[0]
    else LexLess(a[1..], b[1..])
  }

  /** StringComparer.OrdinalIgnoreCase.Compare(a, b) < 0 */
  predicate LessIgnoreCase(a: string, b: string)
    ensures LessIgnoreCase(a, b) ==> !EqualsIgnoreCase(a, b)
  {
    LexLessIrreflexive(Fold(a));
    LexLess(Fold(a), Fold(b))
  }

  lemma {:induction false} LexLessIrreflexive(a: seq<char>)
    ensures !LexLess(a, a)
  {
    if a != [] {
      LexLessIrreflexive(a[1..]);
    }
  }

  lemma {:induction false} LexLessTransitive(a: seq<char>, b: seq<char>, c: seq<char>)
    requires LexLess(a, b) && LexLess(b, c)
    ensures LexLess(a, c)
  {
    if a != [] && a[0] == b[0] && b[0] == c[0] {
      LexLessTransitive(a[1..], b[1..], c[1..]);
    }
  }

  lemma {:induction false} LexLessTotal(a: seq<char>, b: seq<char>)
    ensures a == b || LexLess(a, b) || LexLess(b, a)
  {
    if a != [] && b != [] && a[0] == b[0] {
      LexLessTotal(a[1..], b[1..]);
      if a[1..] == b[1..] {
        assert a == [a[0]] + a[1..] && b == [b[0]] + b[1..];
      }
    }
  }

  lemma LessIgnoreCaseTransitive(a: string, b: string, c: string)
    requires LessIgnoreCase(a, b) && LessIgnoreCase(b, c)
    ensures LessIgnoreCase(a, c)
  {
    LexLessTransitive(Fold(a), Fold(b), Fold(c));
  }

  lemma LessIgnoreCaseAsymmetric(a: string, b: string)
    requires LessIgnoreCase(a, b)
    ensures !LessIgnoreCase(b, a)
  {
    if LessIgnoreCase(b, a) {
      LexLessTransitive(Fold(a), Fold(b), Fold(a));
      LexLessIrreflexive(Fold(a));
    }
  }

  /** Any two strings are case-insensitively equal, or one is less than the other. */
  lemma LessIgnoreCaseTrichotomy(a: string, b: string)
    ensures EqualsIgnoreCase(a, b) || LessIgnoreCase(a, b) || LessIgnoreCase(b, a)
  {
    LexLessTotal(Fold(a), Fold(b));
  }
}
