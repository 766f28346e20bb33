# String dropdown drawer — a verified model

This project models the Unity editor property drawer of the `StringDropdown`
package. A string field carries a `[StringDropdown("sourceField")]`
attribute. When the field is drawn, the drawer looks up the sibling field
named by the attribute. That field holds a label-source asset, which is a list
of strings the author edits freely. The drawer cleans those labels:

- It drops null, empty and white-space-only entries.
- It trims the rest.
- It de-duplicates them under ordinal case-insensitive equality and keeps
  the first-seen casing.
- It sorts them in ordinal case-insensitive order.

With at least one usable label, the field is shown as a popup. The option at
the clamped index the popup returns is written back to the field. Without
usable labels, the field is shown as a text field, and whatever the text
field returns is written back unchanged.

Modules:

- `Wrappers` (`wrappers.dfy`): `Option`, which stands for a nullable reference.
- `Text` (`text.dfy`): the base-library string operations the drawer uses.
  These are `string.IsNullOrWhiteSpace` and `string.Trim`, plus the equality
  and order of `StringComparer.OrdinalIgnoreCase`. Case folding is ordinal
  upper-casing. The order is lexicographic on the upper-cased characters.
- `Collections` (`collections.dfy`): `Array.IndexOf`, `Mathf.Clamp`, and
  `List<string>.Sort` under the case-insensitive comparer. It also proves
  that a strictly sorted list is determined by its elements.
- `StringDropdownDrawer` (`drawer.dfy`): `GetLabelOptions` and `OnGUI`.
  - `GetLabelOptions` is a method. Its loop adds trimmed labels to a
    sequence with case-insensitive membership, which stands for the
    `HashSet`. It then sorts the result.
  - It is proved against `IsCleanedOf`, a relational specification: the
    options are strictly ascending, each is the first-seen trimmed form of a
    usable label, and every usable label is represented.
  - Lemmas show that this specification has exactly one solution. So
    cleaning is deterministic and idempotent.
  - `OnGUI` updates the `stringValue` field of a `SerializedProperty`
    object. Three Unity calls become parameters:
    - the sibling lookup (`FindProperty`, the cast to the source type, and
      its `Labels` list) becomes a resolver from the field name to
      `Option<seq<Option<string>>>`;
    - `EditorGUI.Popup` becomes an arbitrary function of the seeded index
      and the options;
    - `EditorGUI.TextField` becomes an arbitrary function of the current
      value.

The current value is located with an exact, case-sensitive search. The labels
were de-duplicated case-insensitively. So a stored value that differs from an
option only in case is not found, and the popup starts at index 0.
`SelectionScenario` states this. It is modelled as written, because it is not
clear whether the authors intended it.

## Model

| member | source | states |
|---|---|---|
| `StringDropdownDrawer.GetLabelOptions` | Editor/StringDropdownDrawer.cs:52-86 | "No options" exactly when the source is missing or none of its labels is usable. Otherwise the options are non-empty and are the cleaned form of the labels (`IsCleanedOf`). |
| `StringDropdownDrawer.CollectStep` | Editor/StringDropdownDrawer.cs:69-76 | Offering one label to the case-insensitive set preserves what the set holds. It holds each usable label's first-seen trimmed form, no two of them are case variants, and every usable label seen so far is represented. |
| `StringDropdownDrawer.CollectedSortedIsCleaned` | Editor/StringDropdownDrawer.cs:78-85 | Sorting the collected set of all labels yields their cleaned form. |
| `StringDropdownDrawer.FirstSeenUnique` | Editor/StringDropdownDrawer.cs:67-75 | Two first-seen trimmed forms that are case variants are the same string, because the set never replaces an entry. |
| `StringDropdownDrawer.CleanedIsUnique` | Editor/StringDropdownDrawer.cs:67-85 | A label list has exactly one cleaned form, whatever order the set enumerates in. Cleaning is deterministic. |
| `StringDropdownDrawer.CleanedEntryIsClean` | Editor/StringDropdownDrawer.cs:69-75 | Every option is the trimmed form of some usable label. It is not blank, does not start or end with white space, and trimming leaves it unchanged. |
| `StringDropdownDrawer.CleanedIsDistinct` | Editor/StringDropdownDrawer.cs:67-74 | No two options are equal under ordinal case-insensitive comparison. |
| `StringDropdownDrawer.CleanedKeepsFirstCasing` | Editor/StringDropdownDrawer.cs:67-75 | Among labels whose trimmed forms are case variants, the earliest one's trimmed form is the option kept. |
| `StringDropdownDrawer.CleaningIsIdempotent` | Editor/StringDropdownDrawer.cs:67-85 | Cleaning the options again gives the same options, and a non-empty result stays non-empty. |
| `StringDropdownDrawer.TrimmedSortedIsOwnCleaning` | Editor/StringDropdownDrawer.cs:69-85 | A strictly sorted list of trimmed, non-blank strings is its own cleaned form. |
| `StringDropdownDrawer.FruitLabelsScenario` | Editor/StringDropdownDrawer.cs:67-85 | The labels `["Banana", "apple", " Apple ", ""]` clean to `["apple", "Banana"]` and to nothing else. |
| `StringDropdownDrawer.StartIndex` | Editor/StringDropdownDrawer.cs:33-38 | The popup is seeded with the first exact, case-sensitive position of the current value, with null read as empty. If there is no such position, it is seeded with 0. The index is always in range. |
| `StringDropdownDrawer.UntouchedPopupKeepsOrResets` | Editor/StringDropdownDrawer.cs:33-41 | If the popup returns the index it was seeded with, the value written back is the current value when that value is an option. Otherwise it is the first option. |
| `StringDropdownDrawer.SelectionScenario` | Editor/StringDropdownDrawer.cs:33-41 | "Cherry" seeds index 0, and choosing 1 writes "Banana". The case variant "banana" is not matched and also seeds index 0. |
| `StringDropdownDrawer.SerializedProperty.constructor` | Editor/StringDropdownDrawer.cs:20-47 | The property the drawer is given: its type, which never changes, and its `stringValue`, which may be null and which `OnGUI` updates. |
| `StringDropdownDrawer.OnGUI` | Editor/StringDropdownDrawer.cs:20-47 | A non-string property goes to the default field and keeps its value. With usable labels, a popup shows the cleaned options seeded at `StartIndex`. The value written is the option at the clamped popup index, so it is always one of the options. Without usable labels, the text field's result is written back verbatim. |
| `Collections.IndexOf` | Editor/StringDropdownDrawer.cs:34 | The result is -1 exactly when the value is absent. Otherwise it is the first position holding exactly that value. |
| `Collections.Clamp` | Editor/StringDropdownDrawer.cs:41 | A value below min gives min. A value from min up to max gives the value itself. A value above max, when it is not below min, gives max. So for min <= max the result always lies within the bounds. |
| `Collections.SortIgnoreCase` | Editor/StringDropdownDrawer.cs:83-84 | The result is a permutation of the input, in ascending case-insensitive order. |
| `Collections.SortedDistinctIsStrict` | Editor/StringDropdownDrawer.cs:67-84 | Sorting a list with no two case variants in it gives a strictly ascending list. |
| `Collections.StrictlySortedUnique` | Editor/StringDropdownDrawer.cs:83-85 | Two strictly sorted lists with the same elements are equal. |
| `Text.Trim` | Editor/StringDropdownDrawer.cs:74 | The result is a contiguous piece of the input with only white space cut from either side. It is empty exactly when the input is blank. Otherwise it starts and ends with a character that is not white space. |
| `Text.TrimIdempotent` | Editor/StringDropdownDrawer.cs:74 | Trimming twice is the same as trimming once. |
| `Text.IsNullOrWhiteSpace` | Editor/StringDropdownDrawer.cs:72 | A label is unusable exactly when it is null or trims to the empty string. |
| `Text.EqualsIgnoreCase` | Editor/StringDropdownDrawer.cs:67 | Two strings are equal under the comparer exactly when they have the same length and the characters at each position are equal after upper-casing. |
| `Text.LessIgnoreCase` | Editor/StringDropdownDrawer.cs:84 | Compares the upper-cased strings lexicographically, character by character. Two case variants are never ordered either way. |
| `Text.LessIgnoreCaseTransitive` | Editor/StringDropdownDrawer.cs:84 | The case-insensitive order is transitive. |
| `Text.LessIgnoreCaseTrichotomy` | Editor/StringDropdownDrawer.cs:84 | Any two strings are case variants, or one is less than the other. |
| `Text.LessIgnoreCaseAsymmetric` | Editor/StringDropdownDrawer.cs:84 | The case-insensitive order is asymmetric. |

## Left out

- The Unity GUI calls `EditorGUI.PropertyField`, `EditorGUI.Popup` and `EditorGUI.TextField` are not modelled. The popup and the text field are arbitrary function parameters, and `position` and the `GUIContent` label are not modelled. Whatever the default `PropertyField` does to the property is outside the model. The model only states that the drawer itself writes nothing in that case.
- `SerializedObject.FindProperty`, the `objectReferenceValue` cast, Unity's null test on the asset, and the `Labels` list are folded into one resolver result. `None` covers a missing field, a reference of another type, an unset reference and a null list.
- `Text.IsWhiteSpace` and `Text.ToUpper` are ASCII only. .NET uses the full Unicode white-space set and Unicode upper-casing in `Trim`, `IsNullOrWhiteSpace` and `OrdinalIgnoreCase`. Non-ASCII white space and case pairs are not modelled.
- `Text.LessIgnoreCase` orders characters by Unicode code point. .NET's ordinal comparison orders UTF-16 code units, so a character beyond U+FFFF (stored as surrogates 0xD800–0xDFFF) sorts below the characters U+E000–U+FFFF there, but above them here. Labels that mix such characters may sort differently.
- `SerializedPropertyType` is reduced to a few constructors. Only whether a property is `String` matters.
- `HashSet` enumeration order is not modelled. The set is a sequence in insertion order with case-insensitive membership. `StrictlySortedUnique` shows that the sort makes the order irrelevant.
- `Collections.SortIgnoreCase`: the algorithm of .NET's `List.Sort` (an unstable introspective sort) is not modelled. An insertion sort computes a result with the same contract. For the case-insensitively distinct lists the drawer sorts, `StrictlySortedUnique` shows that this result is the only possible one.
- `Runtime/StringDropdownAttribute.cs` and `Runtime/StringDropdownSource.cs` are not part of this model. They are data holders with no behaviour: the attribute's field name becomes a parameter of `OnGUI`, and the source's list becomes the resolver's result. Asset creation and serialization are Unity plumbing.
