# Aztec text and node helpers, modelled in Dafny

This project models three small, pure parts of the Aztec rich-text editor for iOS:

- **String range conversion.** A Swift `String` is a sequence of `Character`s, and
  each character is a whole number of UTF-16 code units wide. `NSString` and a UTF-16
  `NSRange` count code units. A "native" `NSRange` and a `Range<String.Index>` count
  characters. The extension does the following:
  - maps a UTF-16 offset to a character index (`indexFromLocation`);
  - converts a UTF-16 range to a native one (`nsRange(fromUTF16NSRange:)`), and native
    ranges to character ranges and back (`range(from:)`, `nsRange(from:)`);
  - steps one whole character back or forward (`location(before:)`, `location(after:)`);
  - builds the empty range at the end of the text (`endOfStringNSRange`).

  The model (`text.dfy`, `range_conversion.dfy`) keeps a prefix sum of character
  widths. A flag such as 🇮🇳 is one character of two scalars, four units wide.
- **Replacing occurrences.** `NSMutableAttributedString.replaceOcurrences(of:with:within:)`
  scans the text from the left. It replaces every non-overlapping occurrence of a query
  and resumes right after each one. The optional bounding range limits the scan to the
  occurrences that lie entirely inside it. An empty query changes nothing.
  - `ReplaceOccurrences.ReplaceAll` is the recursive reference definition.
  - `ReplaceOccurrences.ReplaceWithin` adds the bounding range.
  - `ReplaceOccurrences.ReplaceOccurrencesIn` is the in-place loop. It searches, edits and
    moves the end of the range by the change in length, and is proved equal to the
    reference.
  - `Occurrences` holds the leftmost search and the list of occurrences it yields.

  The model works on sequences of any element type. The examples use plain strings.
- **Element nodes.** An `ElementNode` has a name, attributes and children, and a child is
  an element or a text node. The model covers structural `==`, `onlyChild(ofType:)` and
  `firstChild(ofType:)` (`element_node.dfy`).

The `*_examples.dfy` files restate some of the concrete cases the repository's tests
assert, as lemmas. The other range-conversion cases are instances of the generic lemmas
`RangeConversion.SubstringCapture`, `RangeConversion.IndexFromLocationPrefix`,
`RangeConversion.LocationBeforeSteps` and `RangeConversion.NSRangeFromUtf16RoundTrip`.
`RangeConversionExamples.InsideFlagExample` is not a test case. It illustrates the model's
own policy for ranges that split a character.

Native positions count characters. `endOfStringNSRange` is asserted to sit at
`string.count` (AztecTests/Extensions/StringRangeConversionTests.swift:246), and Swift's
`count` counts `Character`s.

## Model

| member | source | states |
|---|---|---|
| Text.OffsetAfterPrefix | AztecTests/Extensions/StringRangeConversionTests.swift:113-124 | the boundary after a prefix lies at the prefix's UTF-16 length, whatever follows |
| Text.OffsetStrictlyIncreasing | AztecTests/Extensions/StringRangeConversionTests.swift:126-150 | every character is at least one unit wide, so later boundaries sit at strictly larger UTF-16 offsets |
| Text.OffsetInjective | AztecTests/Extensions/StringRangeConversionTests.swift:73-124 | two character boundaries at the same UTF-16 offset are the same boundary, so an offset names at most one index |
| RangeConversion.IndexFromLocation | AztecTests/Extensions/StringRangeConversionTests.swift:73-124 | returns an index whose UTF-16 offset is the location; returns none exactly when no boundary has that offset (past the end or inside a character) |
| RangeConversion.IndexFromLocationOfOffset | AztecTests/Extensions/StringRangeConversionTests.swift:73-124 | `indexFromLocation` inverts the offset of every boundary |
| RangeConversion.IndexFromLocationPrefix | AztecTests/Extensions/StringRangeConversionTests.swift:73-124 | the UTF-16 start of text behind any prefix maps to the index whose prefix is exactly that text, even behind a four-unit flag |
| RangeConversion.LocationBefore | AztecTests/Extensions/StringRangeConversionTests.swift:126-150 | when defined, the result is a boundary strictly before the location, and the location is a boundary too |
| RangeConversion.LocationBeforeSteps | AztecTests/Extensions/StringRangeConversionTests.swift:126-150 | from the boundary in front of character `i`, it steps back exactly that character's width, to the boundary in front of `i - 1` |
| RangeConversion.LocationAfter | AztecTests/Extensions/StringRangeConversionTests.swift:159-164 | when defined, the result is a boundary strictly after the location and within the UTF-16 length |
| RangeConversion.LocationAfterSteps | AztecTests/Extensions/StringRangeConversionTests.swift:159-164 | from the boundary in front of character `i`, it steps forward exactly over that character |
| RangeConversion.LocationNeighboursUndefined | AztecTests/Extensions/StringRangeConversionTests.swift:152-164 | `location(before:)` is none iff at offset 0 or not at a boundary; `location(after:)` is none iff at the end or not at a boundary |
| RangeConversion.LocationBeforeAfterInverse | AztecTests/Extensions/StringRangeConversionTests.swift:126-164 | `location(after: a) == b` iff `location(before: b) == a` |
| RangeConversion.RangeFrom | AztecTests/Extensions/StringRangeConversionTests.swift:17-28 | a native range within the text gives the character range within the text that starts at its location and has its length |
| RangeConversion.NSRangeFrom | AztecTests/Extensions/StringRangeConversionTests.swift:176-230 | a character range within the text gives the native range within the text that starts at its lower bound and has its length |
| RangeConversion.RangeFromNSRangeFromInverse | AztecTests/Extensions/StringRangeConversionTests.swift:176-230 | for all ranges within the text, `range(from: r) == cr` iff `nsRange(from: cr) == r`, so each undoes the other |
| RangeConversion.NSRangeFromUtf16 | AztecTests/Extensions/StringRangeConversionTests.swift:32-69 | on success, the native range's ends sit at the UTF-16 range's ends; fails with out-of-bounds exactly when the range passes the UTF-16 length |
| RangeConversion.AlignedUtf16RangeConverts | AztecTests/Extensions/StringRangeConversionTests.swift:32-69 | a UTF-16 range whose ends are the boundaries in front of characters `i` and `j` converts to the native range from `i` to `j` |
| RangeConversion.SubstringCapture | AztecTests/Extensions/StringRangeConversionTests.swift:32-69 | the UTF-16 range of a piece of text converts to that piece's native range, and slicing with it returns exactly the piece, whatever wide characters surround it |
| RangeConversion.Utf16RoundTrip | AztecTests/Extensions/StringRangeConversionTests.swift:176-230 | any native range, taken to its UTF-16 range and converted back by `nsRange(fromUTF16NSRange:)`, is unchanged |
| RangeConversion.NSRangeFromUtf16RoundTrip | AztecTests/Extensions/StringRangeConversionTests.swift:176-230 | a native range obtained from a UTF-16 range maps back to that UTF-16 range, and `nsRange(from: range(from: r)) == r` |
| RangeConversion.EndOfStringNSRange | AztecTests/Extensions/StringRangeConversionTests.swift:241-247 | the result is empty and the characters in front of it are the whole text; in UTF-16 it is the empty range at the text's UTF-16 length |
| RangeConversionExamples.GlobeAfterFlagExample | AztecTests/Extensions/StringRangeConversionTests.swift:45-56 | in "Hello 🇮🇳 World 🌎!" the globe's UTF-16 range (17, 2) converts to native (14, 1), and slicing with it gives the globe |
| RangeConversionExamples.LocationBeforeEarthExample | AztecTests/Extensions/StringRangeConversionTests.swift:139-150 | in "Hello 🌍!" the location before the end of 🌍 (8) is 6, and the prefix up to it is "Hello " |
| RangeConversionExamples.EmptyTextNeighboursExample | AztecTests/Extensions/StringRangeConversionTests.swift:152-164 | on the empty string, both `location(before: 0)` and `location(after: 0)` are none |
| RangeConversionExamples.EndOfStringExample | AztecTests/Extensions/StringRangeConversionTests.swift:241-247 | for "Some random content here" the end range is (24, 0) |
| RangeConversionExamples.CaptureWorldExample | AztecTests/Extensions/StringRangeConversionTests.swift:17-28 | in "Hello World!" the native range (6, 5) of "World" captures exactly "World" |
| RangeConversionExamples.LocationBehindFlagExample | AztecTests/Extensions/StringRangeConversionTests.swift:113-124 | in "Hello 🇮🇳 🌍!" the UTF-16 start of 🌍 (11) is character index 8, with exactly "Hello 🇮🇳 " in front of it |
| RangeConversionExamples.LocationBeforeWorldExample | AztecTests/Extensions/StringRangeConversionTests.swift:126-137 | in "Hello World!" the location before "World" (6) is 5, whose index has exactly "Hello" in front of it |
| RangeConversionExamples.GlobeRoundTripExample | AztecTests/Extensions/StringRangeConversionTests.swift:218-230 | in "Hello 🌎!" the UTF-16 range (6, 2) of 🌎 converts to native (6, 1), and a round trip through a character range gives (6, 1) again |
| Occurrences.FindFrom | AztecTests/Extensions/NSMutableAttributedStringReplaceOcurrencesTests.swift:73-90 | finds the leftmost occurrence at or after the start, with none before it; none iff the query is empty or does not occur there |
| Occurrences.AllOccurrences | AztecTests/Extensions/NSMutableAttributedStringReplaceOcurrencesTests.swift:73-90 | each position found is an occurrence; they do not overlap; every occurrence lies inside one found; there are none iff the query is empty or absent |
| Occurrences.OccurrencesCoverMatches | AztecTests/Extensions/NSMutableAttributedStringReplaceOcurrencesTests.swift:84-90 | the left-to-right scan misses nothing: every place the query occurs lies inside an occurrence found |
| Occurrences.SpansNonOverlapping | AztecTests/Extensions/NSMutableAttributedStringReplaceOcurrencesTests.swift:84-90 | occurrences laid end to end are ascending, do not overlap and lie inside the scanned range |
| ReplaceOccurrences.ReplaceAll | AztecTests/Extensions/NSMutableAttributedStringReplaceOcurrencesTests.swift:12-90 | `replaceOcurrences(of:with:)`: an empty query leaves the text unchanged, and a replacement as long as the query keeps the length; its scan is pinned by the lemmas below |
| ReplaceOccurrences.ReplaceWithin | AztecTests/Extensions/NSMutableAttributedStringReplaceOcurrencesTests.swift:94-100 | `replaceOcurrences(of:with:within:)`: an empty query leaves the text unchanged, and a replacement as long as the query keeps the length; what happens inside and outside the range is pinned by the lemmas below |
| ReplaceOccurrences.ReplaceAllWithoutMatches | AztecTests/Extensions/NSMutableAttributedStringReplaceOcurrencesTests.swift:12-18 | a text where the query never occurs comes back unchanged |
| ReplaceOccurrences.ReplaceAllUnchanged | AztecTests/Extensions/NSMutableAttributedStringReplaceOcurrencesTests.swift:12-29 | the text is unchanged iff the query is empty, absent, or replaced by itself |
| ReplaceOccurrences.ReplaceAllChanges | AztecTests/Extensions/NSMutableAttributedStringReplaceOcurrencesTests.swift:36-66 | a query that occurs, replaced by anything else, always changes the text |
| ReplaceOccurrences.ReplaceAllFirstMatch | AztecTests/Extensions/NSMutableAttributedStringReplaceOcurrencesTests.swift:36-66 | the text up to the first occurrence is copied, the occurrence becomes the replacement, and the scan resumes right after it |
| ReplaceOccurrences.ReplaceSingleOccurrence | AztecTests/Extensions/NSMutableAttributedStringReplaceOcurrencesTests.swift:36-66 | a query that occurs once, at the start, middle or end, is replaced there, and the text before and after it is kept |
| ReplaceOccurrences.ReplaceAllKeepsPrefix | AztecTests/Extensions/NSMutableAttributedStringReplaceOcurrencesTests.swift:36-66 | the text in front of the first occurrence comes through untouched |
| ReplaceOccurrences.ReplaceAllCopiesPrefix | AztecTests/Extensions/NSMutableAttributedStringReplaceOcurrencesTests.swift:36-66 | text without the query's first element is copied, and the scan continues behind it |
| ReplaceOccurrences.ReplaceAllStartsWithQuery | AztecTests/Extensions/NSMutableAttributedStringReplaceOcurrencesTests.swift:48-54 | a text that starts with the query starts, after replacing, with the replacement |
| ReplaceOccurrences.ReplaceAllIsSplice | AztecTests/Extensions/NSMutableAttributedStringReplaceOcurrencesTests.swift:73-90 | replacing as you go equals splicing the replacement over the occurrences found in the original text |
| ReplaceOccurrences.SpliceLength | AztecTests/Extensions/NSMutableAttributedStringReplaceOcurrencesTests.swift:73-90 | each spliced occurrence changes the length by the replacement's length minus the query's |
| ReplaceOccurrences.ReplaceAllLength | AztecTests/Extensions/NSMutableAttributedStringReplaceOcurrencesTests.swift:73-90 | the result's length is the original plus, per occurrence, the replacement's length minus the query's |
| ReplaceOccurrences.ReplaceAllBySelf | AztecTests/Extensions/NSMutableAttributedStringReplaceOcurrencesTests.swift:12-29 | replacing a query by itself changes nothing |
| ReplaceOccurrences.ReplaceWithinWholeText | AztecTests/Extensions/NSMutableAttributedStringReplaceOcurrencesTests.swift:36-42 | without a bounding range (the whole text) the bounded form is the plain scan |
| ReplaceOccurrences.ReplaceWithinKeepsOutside | AztecTests/Extensions/NSMutableAttributedStringReplaceOcurrencesTests.swift:94-100 | the text in front of and behind the bounding range comes through unchanged |
| ReplaceOccurrences.ReplaceWithinNoInnerMatch | AztecTests/Extensions/NSMutableAttributedStringReplaceOcurrencesTests.swift:94-100 | if no occurrence lies entirely inside the bounding range, nothing changes, even with occurrences outside it or across its edges |
| ReplaceOccurrences.ReplaceOccurrencesIn | AztecTests/Extensions/NSMutableAttributedStringReplaceOcurrencesTests.swift:94-100 | the in-place search-and-edit loop, which moves the range's end as it edits, yields exactly the reference bounded replacement |
| ReplaceExamples.AbsentQueryExample | AztecTests/Extensions/NSMutableAttributedStringReplaceOcurrencesTests.swift:12-18 | replacing 🍎 in "Hello 🌎 World!" changes nothing |
| ReplaceExamples.EmptyQueryExample | AztecTests/Extensions/NSMutableAttributedStringReplaceOcurrencesTests.swift:23-29 | replacing the empty query changes nothing |
| ReplaceExamples.SingleOccurrenceInMiddleExample | AztecTests/Extensions/NSMutableAttributedStringReplaceOcurrencesTests.swift:36-42 | removing "🌎 " gives "Hello World!" |
| ReplaceExamples.SingleOccurrenceAtStartExample | AztecTests/Extensions/NSMutableAttributedStringReplaceOcurrencesTests.swift:48-54 | removing "Hello " gives "🌎 World!" |
| ReplaceExamples.SingleOccurrenceAtEndExample | AztecTests/Extensions/NSMutableAttributedStringReplaceOcurrencesTests.swift:60-66 | removing " World!" gives "Hello 🌎" |
| ReplaceExamples.SeveralOccurrencesExample | AztecTests/Extensions/NSMutableAttributedStringReplaceOcurrencesTests.swift:73-79 | removing every "Hello " gives "🌎, World! There!" |
| ReplaceExamples.AdjacentOccurrencesExample | AztecTests/Extensions/NSMutableAttributedStringReplaceOcurrencesTests.swift:84-90 | replacing 🍎 by 💚 in "🌎🍎🍎😬🍎🌎" gives "🌎💚💚😬💚🌎" |
| ReplaceExamples.BoundedReplaceExample | AztecTests/Extensions/NSMutableAttributedStringReplaceOcurrencesTests.swift:94-100 | within (6, 8) only the second paragraph separator becomes a line feed |
| ElementNodes.ElementEqualsIsEquality | AztecTests/HTML/Nodes/ElementNodeTests.swift:12-40 | two element nodes compare equal iff they have the same name, attributes and (recursively) children |
| ElementNodes.NodeEqualsIsEquality | AztecTests/HTML/Nodes/ElementNodeTests.swift:12-40 | node equality is value equality, and an element never equals a text node |
| ElementNodes.NewElement | AztecTests/HTML/Nodes/ElementNodeTests.swift:45-50 | an element built from a type is of that type and has no attributes or children |
| ElementNodes.FirstIndexOfType | AztecTests/HTML/Nodes/ElementNodeTests.swift:75-91 | finds the first child of the type at or after the start, with none of that type before it; none iff no child from there on has it |
| ElementNodes.FirstChild | AztecTests/HTML/Nodes/ElementNodeTests.swift:75-91 | none iff no child is of the type; otherwise the result is a child of the type with none of that type before it |
| ElementNodes.FirstIndexIsHeadOfMatches | AztecTests/HTML/Nodes/ElementNodeTests.swift:75-91 | the search finds the head of the filtered list of matching children, and nothing iff that list is empty |
| ElementNodes.FirstChildIsFirstOfType | AztecTests/HTML/Nodes/ElementNodeTests.swift:75-91 | `firstChild(ofType:)` is the first element of the children filtered by type, or none when the filter is empty |
| ElementNodes.OnlyChild | AztecTests/HTML/Nodes/ElementNodeTests.swift:45-70 | defined iff there is exactly one child and it is of the type; then the children are exactly that element |
| ElementNodes.OnlyChildIsFirstOfOne | AztecTests/HTML/Nodes/ElementNodeTests.swift:45-70 | with one child, the only child is the first child of the type; with any other number of children it is none |
| ElementNodeExamples.DifferentChildrenExample | AztecTests/HTML/Nodes/ElementNodeTests.swift:12-23 | two "strong" nodes with different text children are not equal, and a node equals itself |
| ElementNodeExamples.EqualPartsExample | AztecTests/HTML/Nodes/ElementNodeTests.swift:29-40 | two "strong" nodes built separately from equal parts are equal |
| ElementNodeExamples.OnlyImageExample | AztecTests/HTML/Nodes/ElementNodeTests.swift:45-50 | an anchor holding one image has that image as its only image child |
| ElementNodeExamples.TwoImagesExample | AztecTests/HTML/Nodes/ElementNodeTests.swift:55-60 | an anchor holding two images has no only child, although both match |
| ElementNodeExamples.NoMatchingChildExample | AztecTests/HTML/Nodes/ElementNodeTests.swift:65-80 | an anchor holding one image has neither an only nor a first bold child |
| ElementNodeExamples.FirstEmphasisExample | AztecTests/HTML/Nodes/ElementNodeTests.swift:85-91 | for an image followed by an emphasis, the first emphasis child is the second child |

## Left out

- Attributes (styling) of the attributed string: only its text is modelled. No rule for
  the attributes of a replacement is visible.
- Unicode segmentation. A character is an opaque non-empty cluster of scalars, and its
  width is its scalars' UTF-16 units. Grapheme-cluster rules, surrogate decoding and
  normalisation are not modelled. The example texts are built character by character.
- Search semantics of `NSString.range(of:)`. Occurrences are exact element-wise matches,
  with no case or diacritic folding and no canonical equivalence.
- The bounding range of `replaceOcurrences(of:with:within:)` counts elements of the
  searched sequence (in the examples, Unicode scalars), not UTF-16 units. On the text the
  tests use, every element is one UTF-16 unit wide, so the two agree there.
- RangeConversion.NSRangeFromUtf16: the program's result for a UTF-16 range that passes
  the end of the text or has an end inside a character is not visible, and its return type
  is a bare `NSRange`. The model returns an error for those ranges instead.
- RangeConversion.MisalignedUtf16RangeFails: states the model's own refusal of a range with
  an end inside a character; no visible line shows what the program does there.
- RangeConversionExamples.InsideFlagExample: an instance of that refusal (a range starting
  inside the flag 🇮🇳), likewise the model's policy rather than observed behaviour.
- RangeConversion.Utf16NSRange: the model's own inverse of `nsRange(fromUTF16NSRange:)`,
  used to state its round trips; the program's counterpart is not part of this model.
- Negative locations: `NSRange` fields and UTF-16 offsets are natural numbers, so the
  negative `Int` values Swift allows are not modelled.
- Reference identity of nodes (`!==`, AztecTests/HTML/Nodes/ElementNodeTests.swift:39):
  nodes are values, so only structural equality exists.
- `needsClosingParagraphSeparator` and `RootNode` (AztecTests/HTML/Nodes/ElementNodeTests.swift:93-100):
  the rule is asserted for one case only and is not visible.
- `isNodeType` is modelled as the tag name being the type's own name. Equivalent tag names
  and case-insensitive comparison are not part of this model.
- Attribute values are plain strings or absent. Inline-CSS values are not modelled.
- XCTest set-up and tear-down, and the Foundation and UIKit plumbing around these helpers.
