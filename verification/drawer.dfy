/**
  The property drawer that shows a string field as a dropdown of the labels
  held by a sibling label-source asset, or as a plain text field when there
  are no usable labels.

  The Unity collaborators are parameters: the sibling lookup (FindProperty on
  the root serialized object, the cast of its object reference to a label
  source, and that source's label list) is a resolver from the source field
  name to an optional list of optional strings; the popup and the text field
  are arbitrary functions of what they are shown.
 */
module StringDropdownDrawer {

  import opened Wrappers
  import opened Text
  import opened Collections

  /** A label that survives cleaning: not null, not empty, not white space only. */
  predicate Usable(entry: Option<string>)
  {
    !IsNullOrWhiteSpace(entry)
  }

  predicate HasUsable(labels: seq<Option<string>>)
  {
    exists i :: 0 <= i < |labels| && Usable(labels[i])
  }

  /**
    `t` is the trimmed form of the usable label at index `i`, and no usable
    label before `i` trims to a case-insensitive variant of `t`: the casing a
    case-insensitive set keeps when it refuses to replace entries it holds.
   */
  predicate FirstSeenAt(labels: seq<Option<string>>, i: int, t: string)
  {
    && 0 <= i < |labels|
    && Usable(labels[i])
    && Trim(labels[i].value) == t
    && forall j :: 0 <= j < i && Usable(labels[j]) ==> !EqualsIgnoreCase(Trim(labels[j].value), t)
  }

  ghost predicate IsFirstSeen(labels: seq<Option<string>>, t: string)
  {
    exists i :: FirstSeenAt(labels, i, t)
  }

  /** Some entry of `seen` equals `t` case-insensitively (HashSet.Contains under OrdinalIgnoreCase). */
  predicate ContainsIgnoreCase(seen: seq<string>, t: string)
  {
    exists k :: 0 <= k < |seen| && EqualsIgnoreCase(seen[k], t)
  }

  /**
    `options` is the cleaned form of `labels`: strictly ascending in ordinal
    case-insensitive order, every entry the first-seen trimmed form of a
    usable label, and every usable label represented case-insensitively.
   */
  ghost predicate IsCleanedOf(options: seq<string>, labels: seq<Option<string>>)
  {
    && StrictlySortedIgnoreCase(options)
    && (forall k {:trigger IsFirstSeen(labels, options[k])} :: 0 <= k < |options| ==> IsFirstSeen(labels, options[k]))
    && (forall i :: 0 <= i < |labels| && Usable(labels[i]) ==> ContainsIgnoreCase(options, Trim(labels[i].value)))
  }

  /**
    The state of the case-insensitive set after the labels before index `n`
    were offered to it: `seen` holds, in insertion order, the first-seen
    trimmed form of each usable label (`origin` gives the label index it came
    from), no two of them case-insensitively equal, and every usable label
    before `n` is represented.
   */
  ghost predicate Collected(labels: seq<Option<string>>, n: int, seen: seq<string>, origin: seq<int>)
  {
    && 0 <= n <= |labels|
    && |origin| == |seen|
    && (forall k {:trigger origin[k]} :: 0 <= k < |seen| ==> 0 <= origin[k] < n && FirstSeenAt(labels, origin[k], seen[k]))
    && DistinctIgnoreCase(seen)
    && (forall j :: 0 <= j < n && Usable(labels[j]) ==> ContainsIgnoreCase(seen, Trim(labels[j].value)))
  }

  /** Offering label `i` to the set: HashSet.Add keeps the entry it holds when a case variant is already present. */
  lemma CollectStep(labels: seq<Option<string>>, i: nat, seen: seq<string>, origin: seq<int>)
    requires i < |labels| && Collected(labels, i, seen, origin)
    ensures !Usable(labels[i]) ==> Collected(labels, i + 1, seen, origin)
    ensures Usable(labels[i]) && ContainsIgnoreCase(seen, Trim(labels[i].value)) ==>
      Collected(labels, i + 1, seen, origin)
    ensures Usable(labels[i]) && !ContainsIgnoreCase(seen, Trim(labels[i].value)) ==>
      Collected(labels, i + 1, seen + [Trim(labels[i].value)], origin + [i])
  {
    if Usable(labels[i]) && !ContainsIgnoreCase(seen, Trim(labels[i].value)) {
      CollectAdd(labels, i, seen, origin);
    }
  }

  /** A label with no case variant in the set is first seen, and adding its trimmed form keeps the invariant. */
  lemma CollectAdd(labels: seq<Option<string>>, i: nat, seen: seq<string>, origin: seq<int>)
    requires i < |labels| && Collected(labels, i, seen, origin)
    requires Usable(labels[i]) && !ContainsIgnoreCase(seen, Trim(labels[i].value))
    ensures Collected(labels, i + 1, seen + [Trim(labels[i].value)], origin + [i])
  {
    var t := Trim(labels[i].value);
    var seen', origin' := seen + [t], origin + [i];
    forall j | 0 <= j < i && Usable(labels[j]) ensures !EqualsIgnoreCase(Trim(labels[j].value), t) {
      var k :| 0 <= k < |seen| && EqualsIgnoreCase(seen[k], Trim(labels[j].value));
    }
    assert FirstSeenAt(labels, i, t);
    forall k | 0 <= k < |seen'| ensures 0 <= origin'[k] < i + 1 && FirstSeenAt(labels, origin'[k], seen'[k]) {
      if k < |seen| {
        assert origin'[k] == origin[k] && seen'[k] == seen[k];
      }
    }
    forall p, q | 0 <= p < q < |seen'| ensures !EqualsIgnoreCase(seen'[p], seen'[q]) {
      assert seen'[p] == seen[p];
      if q < |seen| {
        assert seen'[q] == seen[q];
      } else {
        assert seen'[q] == t;
      }
    }
    forall j | 0 <= j < i + 1 && Usable(labels[j]) ensures ContainsIgnoreCase(seen', Trim(labels[j].value)) {
      if j == i {
        assert seen'[|seen|] == t;
      } else {
        var k :| 0 <= k < |seen| && EqualsIgnoreCase(seen[k], Trim(labels[j].value));
        assert seen'[k] == seen[k];
      }
    }
  }

  /** Sorting the collected set of all labels yields their cleaned form. */
  lemma CollectedSortedIsCleaned(labels: seq<Option<string>>, seen: seq<string>, origin: seq<int>, list: seq<string>)
    requires Collected(labels, |labels|, seen, origin)
    requires SortedIgnoreCase(list) && multiset(list) == multiset(seen)
    ensures IsCleanedOf(list, labels)
  {
    assert StrictlySortedIgnoreCase(list) by {
      SortedDistinctIsStrict(seen, list);
    }
    assert forall k {:trigger IsFirstSeen(labels, list[k])} :: 0 <= k < |list| ==> IsFirstSeen(labels, list[k]) by {
      forall k | 0 <= k < |list| ensures IsFirstSeen(labels, list[k]) {
        assert list[k] in multiset(seen);
        var m :| 0 <= m < |seen| && seen[m] == list[k];
        assert FirstSeenAt(labels, origin[m], list[k]);
      }
    }
    assert forall i :: 0 <= i < |labels| && Usable(labels[i]) ==> ContainsIgnoreCase(list, Trim(labels[i].value)) by {
      forall i | 0 <= i < |labels| && Usable(labels[i]) ensures ContainsIgnoreCase(list, Trim(labels[i].value)) {
        var m :| 0 <= m < |seen| && EqualsIgnoreCase(seen[m], Trim(labels[i].value));
        assert seen[m] in multiset(list);
        var k :| 0 <= k < |list| && list[k] == seen[m];
      }
    }
  }

  /**
    GetLabelOptions: the cleaned, sorted, case-insensitively unique labels of
    the resolved source, or None when the source is missing or none of its
    labels is usable.
   */
  method GetLabelOptions(source: Option<seq<Option<string>>>) returns (options: Option<seq<string>>)
    ensures options.None? <==> source.None? || !HasUsable(source.value)
    ensures options.Some? ==> |options.value| > 0 && IsCleanedOf(options.value, source.value)
  {
    if source.None? {
      return None;
    }
    var labels := source.value;
    if |labels| == 0 {
      return None;
    }

    var seen: seq<string> := [];
    ghost var origin: seq<int> := [];
    for i := 0 to |labels|
      invariant Collected(labels, i, seen, origin)
    {
      CollectStep(labels, i, seen, origin);
      var s := labels[i];
      if !IsNullOrWhiteSpace(s) {
        var t := Trim(s.value);
        if !ContainsIgnoreCase(seen, t) {
          seen := seen + [t];
          origin := origin + [i];
        }
      }
    }

    if |seen| == 0 {
      assert !HasUsable(labels);
      return None;
    }
    assert Usable(labels[origin[0]]);

    var list := SortIgnoreCase(seen);
    CollectedSortedIsCleaned(labels, seen, origin, list);
    options := Some(list);
  }

  /** Two first-seen forms that are case variants of each other are the same string. */
  lemma FirstSeenUnique(labels: seq<Option<string>>, x: string, y: string)
    requires IsFirstSeen(labels, x) && IsFirstSeen(labels, y)
    requires EqualsIgnoreCase(x, y)
    ensures x == y
  {
    var i :| FirstSeenAt(labels, i, x);
    var j :| FirstSeenAt(labels, j, y);
  }

  /**
    The cleaned form of a label list is unique: cleaning is deterministic,
    whatever order the case-insensitive set enumerates its entries in.
   */
  lemma CleanedIsUnique(labels: seq<Option<string>>, r1: seq<string>, r2: seq<string>)
    requires IsCleanedOf(r1, labels) && IsCleanedOf(r2, labels)
    ensures r1 == r2
  {
    forall x | x in r1 ensures x in r2 {
      CleanedMemberIn(labels, r1, r2, x);
    }
    forall x | x in r2 ensures x in r1 {
      CleanedMemberIn(labels, r2, r1, x);
    }
    StrictlySortedUnique(r1, r2);
  }

  lemma CleanedMemberIn(labels: seq<Option<string>>, r1: seq<string>, r2: seq<string>, x: string)
    requires IsCleanedOf(r1, labels) && IsCleanedOf(r2, labels)
    requires x in r1
    ensures x in r2
  {
    var k :| 0 <= k < |r1| && r1[k] == x;
    assert IsFirstSeen(labels, r1[k]);
    var i :| FirstSeenAt(labels, i, x);
    assert ContainsIgnoreCase(r2, Trim(labels[i].value));
    var m :| 0 <= m < |r2| && EqualsIgnoreCase(r2[m], x);
    assert IsFirstSeen(labels, r2[m]);
    FirstSeenUnique(labels, r2[m], x);
  }

  /**
    Every cleaned entry is the trimmed form of a usable label: it is not
    empty, not white space only, has no white space at either end, and
    trimming it again leaves it unchanged.
   */
  lemma CleanedEntryIsClean(labels: seq<Option<string>>, r: seq<string>, k: nat)
    requires IsCleanedOf(r, labels) && k < |r|
    ensures exists i :: 0 <= i < |labels| && Usable(labels[i]) && Trim(labels[i].value) == r[k]
    ensures !IsBlank(r[k]) && r[k] != []
    ensures !IsWhiteSpace(r[k][0]) && !IsWhiteSpace(r[k][|r[k]| - 1])
    ensures Trim(r[k]) == r[k]
  {
    assert IsFirstSeen(labels, r[k]);
    var i :| FirstSeenAt(labels, i, r[k]);
    TrimmedFormIsClean(labels[i].value);
  }

  /** The trimmed form of a string that is not blank is non-empty, has non-white-space ends, and is its own trim. */
  lemma TrimmedFormIsClean(s: string)
    requires !IsBlank(s)
    ensures Trim(s) != [] && !IsBlank(Trim(s))
    ensures !IsWhiteSpace(Trim(s)[0]) && !IsWhiteSpace(Trim(s)[|Trim(s)| - 1])
    ensures Trim(Trim(s)) == Trim(s)
  {
    var t := Trim(s);
    assert !IsWhiteSpace(t[0]);
    TrimOfTrimmed(t);
  }

  /** No two cleaned entries are equal under case-insensitive comparison. */
  lemma CleanedIsDistinct(labels: seq<Option<string>>, r: seq<string>)
    requires IsCleanedOf(r, labels)
    ensures forall j, k :: 0 <= j < k < |r| ==> !EqualsIgnoreCase(r[j], r[k])
  {
    StrictlySortedIsDistinct(r);
  }

  /**
    Among labels whose trimmed forms are case variants of each other, the
    earliest one's trimmed form is the entry that is kept.
   */
  lemma CleanedKeepsFirstCasing(labels: seq<Option<string>>, r: seq<string>, i: nat)
    requires IsCleanedOf(r, labels)
    requires i < |labels| && Usable(labels[i])
    requires forall j :: 0 <= j < i && Usable(labels[j]) ==> !EqualsIgnoreCase(Trim(labels[j].value), Trim(labels[i].value))
    ensures Trim(labels[i].value) in r
  {
    var t := Trim(labels[i].value);
    assert ContainsIgnoreCase(r, t);
    var k :| 0 <= k < |r| && EqualsIgnoreCase(r[k], t);
    assert IsFirstSeen(labels, r[k]);
    assert FirstSeenAt(labels, i, t);
    FirstSeenUnique(labels, r[k], t);
  }

  /** The options list offered back to the drawer as a label list. */
  function AsLabels(options: seq<string>): seq<Option<string>>
  {
    seq(|options|, k requires 0 <= k < |options| => Some(options[k]))
  }

  /**
    Cleaning is idempotent: cleaning the cleaned options again yields the
    same options, and a non-empty result is not turned into "no options".
   */
  lemma CleaningIsIdempotent(labels: seq<Option<string>>, r: seq<string>)
    requires IsCleanedOf(r, labels)
    ensures r != [] ==> HasUsable(AsLabels(r))
    ensures IsCleanedOf(r, AsLabels(r))
    ensures forall r2 :: IsCleanedOf(r2, AsLabels(r)) ==> r2 == r
  {
    CleanedIsCleanedOfItself(labels, r);
    forall r2 | IsCleanedOf(r2, AsLabels(r)) ensures r2 == r {
      CleanedIsUnique(AsLabels(r), r2, r);
    }
  }

  lemma CleanedIsCleanedOfItself(labels: seq<Option<string>>, r: seq<string>)
    requires IsCleanedOf(r, labels)
    ensures r != [] ==> HasUsable(AsLabels(r))
    ensures IsCleanedOf(r, AsLabels(r))
  {
    forall k | 0 <= k < |r| ensures !IsBlank(r[k]) && Trim(r[k]) == r[k] {
      CleanedEntryIsClean(labels, r, k);
    }
    TrimmedSortedIsOwnCleaning(r);
  }

  /** A strictly sorted list of non-blank, already trimmed strings is the cleaned form of itself. */
  lemma TrimmedSortedIsOwnCleaning(r: seq<string>)
    requires StrictlySortedIgnoreCase(r)
    requires forall k :: 0 <= k < |r| ==> !IsBlank(r[k]) && Trim(r[k]) == r[k]
    ensures r != [] ==> HasUsable(AsLabels(r))
    ensures IsCleanedOf(r, AsLabels(r))
  {
    var again := AsLabels(r);
    if r != [] {
      assert Usable(again[0]);
    }
    OwnCleaningFirstSeen(r);
    OwnCleaningComplete(r);
  }

  lemma OwnCleaningFirstSeen(r: seq<string>)
    requires StrictlySortedIgnoreCase(r)
    requires forall k :: 0 <= k < |r| ==> !IsBlank(r[k]) && Trim(r[k]) == r[k]
    ensures forall k {:trigger IsFirstSeen(AsLabels(r), r[k])} :: 0 <= k < |r| ==> IsFirstSeen(AsLabels(r), r[k])
  {
    var again := AsLabels(r);
    forall k | 0 <= k < |r| ensures IsFirstSeen(again, r[k]) {
      assert FirstSeenAt(again, k, r[k]) by {
        forall j | 0 <= j < k && Usable(again[j]) ensures !EqualsIgnoreCase(Trim(again[j].value), r[k]) {
          assert LessIgnoreCase(r[j], r[k]);
        }
      }
    }
  }

  lemma OwnCleaningComplete(r: seq<string>)
    requires forall k :: 0 <= k < |r| ==> !IsBlank(r[k]) && Trim(r[k]) == r[k]
    ensures forall i :: 0 <= i < |AsLabels(r)| && Usable(AsLabels(r)[i]) ==> ContainsIgnoreCase(r, Trim(AsLabels(r)[i].value))
  {
    var again := AsLabels(r);
    forall i | 0 <= i < |again| && Usable(again[i]) ensures ContainsIgnoreCase(r, Trim(again[i].value)) {
      assert EqualsIgnoreCase(r[i], Trim(again[i].value));
    }
  }

  /** SerializedPropertyType, reduced to a few of its values; only String matters to the drawer. */
  datatype PropertyType = String | Integer | Boolean | Float | ObjectReference | Generic

  /** The serialized field being drawn; the drawer only ever writes its string value. */
  class SerializedProperty {
    const propertyType: PropertyType
    var stringValue: Option<string>

    constructor (propertyType: PropertyType, stringValue: Option<string>)
      ensures this.propertyType == propertyType && this.stringValue == stringValue
    {
      this.propertyType := propertyType;
      this.stringValue := stringValue;
    }
  }

  /** What the drawer put on screen. */
  datatype Control =
    | PropertyField                                  // the default field renderer
    | Popup(options: seq<string>, selected: int)     // a popup seeded with `selected`
    | TextField                                      // the free-text fallback

  /** `current ?? string.Empty`: a null value reads as the empty string. */
  function OrEmpty(current: Option<string>): string
  {
    if current.Some? then current.value else ""
  }

  /**
    The index the popup is seeded with: the first position holding exactly
    the current value (null read as empty), compared case-sensitively, or 0
    when no option matches.
   */
  function StartIndex(options: seq<string>, current: Option<string>): (i: nat)
    requires |options| > 0
    ensures i < |options|
    ensures OrEmpty(current) in options ==> options[i] == OrEmpty(current) && OrEmpty(current) !in options[..i]
    ensures OrEmpty(current) !in options ==> i == 0
  {
    var k := IndexOf(options, OrEmpty(current));
    if k < 0 then 0 else k
  }

  /**
    OnGUI: a non-string field goes to the default renderer untouched; with
    usable labels, the option at the clamped popup index is written back;
    without, the text field's result is written back as it is.
    `findSource` resolves the source field name to the label list (None for a
    missing field, a reference that is not a label source, or an unset one);
    `popup` and `textField` are what the user does with the controls shown.
   */
  method OnGUI(property: SerializedProperty, sourceFieldName: string,
               findSource: string -> Option<seq<Option<string>>>,
               popup: (int, seq<string>) -> int,
               textField: Option<string> -> string)
    returns (drawn: Control)
    modifies property
    ensures drawn.PropertyField? <==> property.propertyType != String
    ensures drawn.PropertyField? ==> property.stringValue == old(property.stringValue)
    ensures drawn.Popup? <==>
      property.propertyType == String && findSource(sourceFieldName).Some? && HasUsable(findSource(sourceFieldName).value)
    ensures drawn.Popup? ==>
      && |drawn.options| > 0
      && IsCleanedOf(drawn.options, findSource(sourceFieldName).value)
      && drawn.selected == StartIndex(drawn.options, old(property.stringValue))
      && property.stringValue == Some(drawn.options[Clamp(popup(drawn.selected, drawn.options), 0, |drawn.options| - 1)])
      && property.stringValue.value in drawn.options
    ensures drawn.TextField? ==> property.stringValue == Some(textField(old(property.stringValue)))
  {
    if property.propertyType != String {
      return PropertyField;
    }

    var options := GetLabelOptions(findSource(sourceFieldName));

    if options.Some? && |options.value| > 0 {
      var current := OrEmpty(property.stringValue);
      var currentIndex := IndexOf(options.value, current);
      if currentIndex < 0 {
        currentIndex := 0;
      }

      var newIndex := popup(currentIndex, options.value);
      property.stringValue := Some(options.value[Clamp(newIndex, 0, |options.value| - 1)]);
      drawn := Popup(options.value, currentIndex);
    } else {
      property.stringValue := Some(textField(property.stringValue));
      drawn := TextField;
    }
  }

  /**
    When the user leaves the popup at the index it was seeded with, the value
    written back is the current value if it is exactly one of the options,
    and otherwise the first option: a stored value outside the options is
    silently replaced.
   */
  lemma UntouchedPopupKeepsOrResets(options: seq<string>, current: Option<string>)
    requires |options| > 0
    ensures options[Clamp(StartIndex(options, current), 0, |options| - 1)] ==
      if OrEmpty(current) in options then OrEmpty(current) else options[0]
  {
  }

  /** Labels ["Banana", "apple", " Apple ", ""] clean to ["apple", "Banana"], and only to that. */
  lemma FruitLabelsScenario()
    ensures IsCleanedOf(["apple", "Banana"], [Some("Banana"), Some("apple"), Some(" Apple "), Some("")])
    ensures forall r :: IsCleanedOf(r, [Some("Banana"), Some("apple"), Some(" Apple "), Some("")]) ==> r == ["apple", "Banana"]
  {
    var labels := [Some("Banana"), Some("apple"), Some(" Apple "), Some("")];
    var options := ["apple", "Banana"];
    FruitLabelsCleaned(labels, options);
    forall r | IsCleanedOf(r, labels) ensures r == options {
      CleanedIsUnique(labels, r, options);
    }
  }

  lemma FruitLabelsCleaned(labels: seq<Option<string>>, options: seq<string>)
    requires labels == [Some("Banana"), Some("apple"), Some(" Apple "), Some("")]
    requires options == ["apple", "Banana"]
    ensures IsCleanedOf(options, labels)
  {
    FruitComparisons();
    assert StrictlySortedIgnoreCase(options);
    FruitLabelsFirstSeen(labels, options);
    FruitLabelsComplete(labels, options);
  }

  lemma FruitLabelsFirstSeen(labels: seq<Option<string>>, options: seq<string>)
    requires labels == [Some("Banana"), Some("apple"), Some(" Apple "), Some("")]
    requires options == ["apple", "Banana"]
    ensures forall k {:trigger IsFirstSeen(labels, options[k])} :: 0 <= k < |options| ==> IsFirstSeen(labels, options[k])
  {
    FruitBananaFirstSeen(labels);
    FruitAppleFirstSeen(labels);
  }

  lemma FruitBananaFirstSeen(labels: seq<Option<string>>)
    requires labels == [Some("Banana"), Some("apple"), Some(" Apple "), Some("")]
    ensures IsFirstSeen(labels, "Banana")
  {
    FruitTrims();
    assert FirstSeenAt(labels, 0, "Banana");
  }

  lemma FruitAppleFirstSeen(labels: seq<Option<string>>)
    requires labels == [Some("Banana"), Some("apple"), Some(" Apple "), Some("")]
    ensures IsFirstSeen(labels, "apple")
  {
    FruitAppleFacts();
    SecondFirstSeen(labels, "apple");
  }

  lemma FruitAppleFacts()
    ensures Usable(Some("apple")) && Trim("apple") == "apple"
    ensures !EqualsIgnoreCase(Trim("Banana"), "apple")
  {
    TrimOfTrimmed("Banana");
    TrimOfTrimmed("apple");
    assert !IsWhiteSpace("apple"[0]);
    assert |"Banana"| != |"apple"|;
  }

  /** The second label's trimmed form is first seen when the first label is no case variant of it. */
  lemma SecondFirstSeen(labels: seq<Option<string>>, t: string)
    requires |labels| >= 2 && Usable(labels[1]) && Trim(labels[1].value) == t
    requires Usable(labels[0]) ==> !EqualsIgnoreCase(Trim(labels[0].value), t)
    ensures IsFirstSeen(labels, t)
  {
    assert FirstSeenAt(labels, 1, t);
  }

  lemma FruitLabelsComplete(labels: seq<Option<string>>, options: seq<string>)
    requires labels == [Some("Banana"), Some("apple"), Some(" Apple "), Some("")]
    requires options == ["apple", "Banana"]
    ensures forall i :: 0 <= i < |labels| && Usable(labels[i]) ==> ContainsIgnoreCase(options, Trim(labels[i].value))
  {
    FruitTrims();
    FruitComparisons();
    forall i | 0 <= i < |labels| && Usable(labels[i]) ensures ContainsIgnoreCase(options, Trim(labels[i].value)) {
      if i == 0 {
        assert EqualsIgnoreCase(options[1], Trim(labels[i].value));
      } else {
        assert i == 1 || i == 2;
        assert EqualsIgnoreCase(options[0], Trim(labels[i].value));
      }
    }
  }

  lemma FruitTrims()
    ensures Trim("Banana") == "Banana" && Trim("apple") == "apple" && Trim(" Apple ") == "Apple"
    ensures !IsBlank("Banana") && !IsBlank("apple") && !IsBlank(" Apple ") && IsBlank("")
  {
    TrimOfTrimmed("Banana");
    TrimOfTrimmed("apple");
    assert !IsWhiteSpace("Banana"[0]) && !IsWhiteSpace("apple"[0]) && !IsWhiteSpace(" Apple "[1]);
    PaddedAppleTrim();
  }

  lemma PaddedAppleTrim()
    ensures Trim(" Apple ") == "Apple"
  {
    assert LeadingWhiteSpace(" Apple ") == 1;
    assert TrailingWhiteSpace("Apple ") == 1;
  }

  lemma FruitComparisons()
    ensures LessIgnoreCase("apple", "Banana")
    ensures EqualsIgnoreCase("Apple", "apple") && !EqualsIgnoreCase("Banana", "apple")
  {
  }

  /**
    With options ["apple", "Banana"], a current value "Cherry" seeds the popup
    at 0 and choosing index 1 writes "Banana"; a current value "banana", a
    case variant of an option, is not matched and also seeds the popup at 0.
   */
  lemma SelectionScenario()
    ensures StartIndex(["apple", "Banana"], Some("Cherry")) == 0
    ensures ["apple", "Banana"][Clamp(1, 0, 1)] == "Banana"
    ensures EqualsIgnoreCase("banana", "Banana") && StartIndex(["apple", "Banana"], Some("banana")) == 0
  {
  }
}
