# FastFuzzyStringMatcher in Dafny

This project models the core of FastFuzzyStringMatcher, a Java library for
fuzzy string lookup. Keywords, each carrying some associated data, are stored
in a BK-tree. In that tree every child edge is labelled with the
case-insensitive Levenshtein distance from the parent's keyword to the
keyword being inserted. A search for a query with an edit-distance threshold
`t` looks at a node at distance `d` from the query. It descends only into
children whose edge label lies in `[d - t, d + t]`, because the triangle
inequality rules out the rest. Each match is reported with its original
keyword, its data and a match percentage. The results come back sorted,
highest percentage first. The window bounds `d - t` and `d + t` are Java
`int`s and wrap round past `Integer.MAX_VALUE`; the model computes them the
same way.

The project has five modules:

- `Wrappers` (`wrappers.dfy`): `Option` stands for a nullable reference. `Result` and `Outcome` stand for a call that may throw `IllegalArgumentException`.
- `EditDistanceCalculator` (`edit_distance_calculator.dfy`):
  - the recursive Levenshtein distance `PrefixDistance`/`Distance`, over characters folded by `ToLower`;
  - the two-row dynamic program of `calculateEditDistance` as a method over arrays, proved equal to `Distance`;
  - the metric laws of the distance (zero iff equal after folding, symmetry, triangle inequality, length bounds) and the pruning window derived from them;
  - some of the distances the library's unit tests expect, proved exactly: "Hat"/"Cat" 1, "Test"/"test" 0, the long string and its misspelling 3, a word and the empty string 4, a word and itself 0.
- `SearchResults` (`search_result_list.dfy`):
  - the `SearchResult` record and the `SearchResultList` class, whose list is a `seq` field;
  - the comparator;
  - the stable sort `Collections.sort` performs, given as an insertion-sort function. It is proved to be a permutation, descending and stable. It is also proved to be the only ordering with those properties.
- `StringMatching` (`string_matcher.dfy`):
  - keyword normalisation and the percentage and threshold arithmetic, with `Math.round`'s saturation and `int` wrap-around written out;
  - the `Node` class, whose `children` is a mutable `map`;
  - the `StringMatcher` class with `Add` and both `search` overloads, and the recursive `searchTree` as a method that appends to a shared result list.
  - The ghost set `nodes` and the ghost `parent`/`key`/`born` constants of each node record the tree's shape. Over them the model states the BK-tree invariant (`Ordered`), which `Add` preserves.
  - The search is proved sound in both matching modes: it reports only stored nodes within the threshold, each node once. It is also proved complete, reporting every such node, when the matcher uses NONE and `d + t` fits in an `int` for every stored node (`Exhaustive`).
- `Scenarios` (`scenarios.dfy`): scenarios of the matcher, proved from the contracts of `Add` and `search`. They show how `Add` treats a keyword it has stored already, and which results the unit tests' searches on "Cat" and "Bats" return, in which order.

Two behaviours of the code are modelled as written:

- `Add` measures the distance from each node's normalised keyword to the raw keyword being added (`StringMatcher.java:70`, `:74`). Queries, however, are normalised. With whitespace removal, a match can therefore be pruned away. That is why completeness is proved for NONE mode only.
- The duplicate check of `Add` runs only after the walk has moved to a child (`StringMatcher.java:72-78`). In NONE mode, or for a keyword without whitespace, a keyword equal to the root's is therefore stored once more, under key 0, and a third copy is rejected (`Scenarios.RootDuplicate`). With whitespace removal a keyword holding whitespace is never at distance 0 from its own stored copy, so every copy is stored: adding "a b" three times stores it three times (`Scenarios.SpacedDuplicates`).
- The stored keyword is not lower-cased; case folding happens only inside the distance calculation (`EditDistanceCalculator.java:65-66`).

## Model

| member | source | states |
|---|---|---|
| EditDistanceCalculator.Min | FastStringMatcher/src/main/java/com/github/pekoto/faststringmatcher/EditDistanceCalculator.java:87-89 | the result is at most each argument and equal to one of them |
| EditDistanceCalculator.ToLower | FastStringMatcher/src/main/java/com/github/pekoto/faststringmatcher/EditDistanceCalculator.java:65-66 | the folded character is never an upper-case ASCII letter, and any other character is kept |
| EditDistanceCalculator.LowerCase | FastStringMatcher/src/main/java/com/github/pekoto/faststringmatcher/EditDistanceCalculator.java:65-66 | the folded string keeps the length, is itself folded, and agrees with the input after folding |
| EditDistanceCalculator.LowerCaseIdempotent | FastStringMatcher/src/main/java/com/github/pekoto/faststringmatcher/EditDistanceCalculator.java:65-66 | folding a folded string changes nothing |
| EditDistanceCalculator.PrefixDistanceCell | FastStringMatcher/src/main/java/com/github/pekoto/faststringmatcher/EditDistanceCalculator.java:64-76 | the minimum of the insertion, deletion and substitution costs computed from the two rows is the distance of the next prefix pair |
| EditDistanceCalculator.CalculateEditDistance | FastStringMatcher/src/main/java/com/github/pekoto/faststringmatcher/EditDistanceCalculator.java:35-85 | a null argument fails with "Argument cannot be null."; otherwise the two-row dynamic program returns exactly the Levenshtein distance over folded characters |
| EditDistanceCalculator.LengthDifferenceBound | FastStringMatcher/src/main/java/com/github/pekoto/faststringmatcher/EditDistanceCalculator.java:49-84 | the distance of two prefixes is at least the difference of their lengths |
| EditDistanceCalculator.LongerLengthBound | FastStringMatcher/src/main/java/com/github/pekoto/faststringmatcher/EditDistanceCalculator.java:49-84 | the distance of two prefixes is at most the longer length |
| EditDistanceCalculator.PrefixDistanceZeroIff | FastStringMatcher/src/main/java/com/github/pekoto/faststringmatcher/EditDistanceCalculator.java:49-84 | a prefix distance is 0 iff the prefixes have equal length and agree position by position after folding |
| EditDistanceCalculator.PrefixDistanceSymmetric | FastStringMatcher/src/main/java/com/github/pekoto/faststringmatcher/EditDistanceCalculator.java:49-84 | swapping the two prefixes gives the same distance |
| EditDistanceCalculator.PrefixTriangle | FastStringMatcher/src/main/java/com/github/pekoto/faststringmatcher/EditDistanceCalculator.java:49-84 | the triangle inequality holds on prefixes |
| EditDistanceCalculator.PrefixDistanceCaseInsensitive | FastStringMatcher/src/main/java/com/github/pekoto/faststringmatcher/EditDistanceCalculator.java:65-66 | folding both strings first does not change any prefix distance |
| EditDistanceCalculator.DistanceToEmpty | FastStringMatcher/src/main/java/com/github/pekoto/faststringmatcher/EditDistanceCalculator.java:41-47 | the distance to or from the empty string is the other string's length |
| EditDistanceCalculator.DistanceZeroIff | FastStringMatcher/src/main/java/com/github/pekoto/faststringmatcher/EditDistanceCalculator.java:4-8 | the distance is 0 iff the strings are equal after folding |
| EditDistanceCalculator.DistanceToSelf | FastStringMatcher/src/test/java/com/github/pekoto/fastfuzzystringmatcher/EditDistanceCalculatorTest.java:101-109 | every string is at distance 0 from itself |
| EditDistanceCalculator.DistanceSymmetric | FastStringMatcher/src/test/java/com/github/pekoto/fastfuzzystringmatcher/EditDistanceCalculatorTest.java:33-51 | the distance does not depend on the order of the arguments |
| EditDistanceCalculator.DistanceCaseInsensitive | FastStringMatcher/src/main/java/com/github/pekoto/faststringmatcher/EditDistanceCalculator.java:8 | the distance equals the distance of the folded strings |
| EditDistanceCalculator.DistanceBounds | FastStringMatcher/src/main/java/com/github/pekoto/faststringmatcher/EditDistanceCalculator.java:35-85 | the distance lies between the length difference and the longer length |
| EditDistanceCalculator.TriangleInequality | FastStringMatcher/src/main/java/com/github/pekoto/faststringmatcher/EditDistanceCalculator.java:4-5 | the Levenshtein distance satisfies the triangle inequality, which makes it a metric the BK-tree can prune with |
| EditDistanceCalculator.PruningWindow | FastStringMatcher/src/main/java/com/github/pekoto/fastfuzzystringmatcher/StringMatcher.java:128-140 | if a keyword is within t of the query, its distance to any node lies in [d - t, d + t], where d is that node's distance to the query |
| EditDistanceCalculator.MismatchBound | FastStringMatcher/src/main/java/com/github/pekoto/faststringmatcher/EditDistanceCalculator.java:68-70 | for equal-length prefixes the distance is at most the number of differing positions |
| EditDistanceCalculator.CountSurplusBound | FastStringMatcher/src/main/java/com/github/pekoto/faststringmatcher/EditDistanceCalculator.java:70-75 | each edit changes the count of characters from a set by at most one, so the distance is at least the difference of those counts |
| EditDistanceCalculator.ExactDistance | FastStringMatcher/src/main/java/com/github/pekoto/faststringmatcher/EditDistanceCalculator.java:49-84 | a distance is pinned exactly when the mismatch count and a count surplus meet |
| EditDistanceCalculator.HatCatDistance | FastStringMatcher/src/test/java/com/github/pekoto/fastfuzzystringmatcher/EditDistanceCalculatorTest.java:13-21 | the distance of "Hat" and "Cat" is 1 |
| EditDistanceCalculator.FoldedCaseDistance | FastStringMatcher/src/test/java/com/github/pekoto/fastfuzzystringmatcher/EditDistanceCalculatorTest.java:53-61 | the distance of "Test" and "test" is 0 |
| EditDistanceCalculator.EmptyStringDistance | FastStringMatcher/src/test/java/com/github/pekoto/fastfuzzystringmatcher/EditDistanceCalculatorTest.java:81-99 | "Test" is at distance 4 from the empty string, in both orders |
| EditDistanceCalculator.DropLastBound | FastStringMatcher/src/main/java/com/github/pekoto/faststringmatcher/EditDistanceCalculator.java:64-76 | dropping the last character of the longer prefix costs at most one more than the mismatches of the rest |
| EditDistanceCalculator.ExactDistanceDropLast | FastStringMatcher/src/main/java/com/github/pekoto/faststringmatcher/EditDistanceCalculator.java:49-84 | a distance between words one character apart in length is pinned exactly when the mismatch bound and a count surplus meet |
| EditDistanceCalculator.LongStringDistance | FastStringMatcher/src/test/java/com/github/pekoto/fastfuzzystringmatcher/EditDistanceCalculatorTest.java:23-31 | the distance of "This is a long string" and "Th1s is a l0ng str1ng" is 3 |
| SearchResults.Compare | FastStringMatcher/src/main/java/com/github/pekoto/fastfuzzystringmatcher/SearchResultList.java:31-40 | negative exactly when the first percentage is higher, zero exactly when the percentages are equal |
| SearchResults.CompareAntisymmetric | FastStringMatcher/src/main/java/com/github/pekoto/fastfuzzystringmatcher/SearchResultList.java:32-40 | swapping the arguments negates the comparison |
| SearchResults.CompareTransitive | FastStringMatcher/src/main/java/com/github/pekoto/fastfuzzystringmatcher/SearchResultList.java:32-40 | the "not after" relation of the comparator is transitive |
| SearchResults.WithPercentageMembers | FastStringMatcher/src/main/java/com/github/pekoto/fastfuzzystringmatcher/SearchResultList.java:32-40 | an equal-percentage class holds exactly the results of that percentage |
| SearchResults.InsertPermutation | FastStringMatcher/src/main/java/com/github/pekoto/fastfuzzystringmatcher/SearchResultList.java:26-28 | one insertion step adds exactly the inserted result |
| SearchResults.InsertDescending | FastStringMatcher/src/main/java/com/github/pekoto/fastfuzzystringmatcher/SearchResultList.java:26-28 | inserting into a descending list keeps it descending |
| SearchResults.SortPermutation | FastStringMatcher/src/main/java/com/github/pekoto/fastfuzzystringmatcher/SearchResultList.java:26-28 | the sorted list is a permutation of the input |
| SearchResults.SortDescending | FastStringMatcher/src/main/java/com/github/pekoto/fastfuzzystringmatcher/SearchResultList.java:26-28 | the sorted list has the highest percentages first |
| SearchResults.InsertWithPercentage | FastStringMatcher/src/main/java/com/github/pekoto/fastfuzzystringmatcher/SearchResultList.java:26-28 | an insertion puts the result at the front of its own class and leaves every other class alone |
| SearchResults.SortStable | FastStringMatcher/src/main/java/com/github/pekoto/fastfuzzystringmatcher/SearchResultList.java:26-28 | the sort is stable: results with equal percentages keep their order, as `Collections.sort` guarantees |
| SearchResults.SortIdempotent | FastStringMatcher/src/main/java/com/github/pekoto/fastfuzzystringmatcher/SearchResultList.java:26-28 | an already descending list is left unchanged |
| SearchResults.SortUnique | FastStringMatcher/src/main/java/com/github/pekoto/fastfuzzystringmatcher/SearchResultList.java:26-28 | every descending ordering that keeps each class in its input order equals the sorted list |
| SearchResults.DescendingClassesDetermine | FastStringMatcher/src/main/java/com/github/pekoto/fastfuzzystringmatcher/SearchResultList.java:26-28 | two descending lists with the same percentage classes are equal |
| SearchResults.SearchResultList.constructor | FastStringMatcher/src/main/java/com/github/pekoto/fastfuzzystringmatcher/StringMatcher.java:115 | a new result list is empty |
| SearchResults.SearchResultList.Add | FastStringMatcher/src/main/java/com/github/pekoto/fastfuzzystringmatcher/StringMatcher.java:135 | appends exactly one result at the end |
| SearchResults.SearchResultList.ContainsKeyword | FastStringMatcher/src/main/java/com/github/pekoto/fastfuzzystringmatcher/SearchResultList.java:22-24 | true iff some result's keyword equals the argument exactly |
| SearchResults.ContainsKeywordIn | FastStringMatcher/src/main/java/com/github/pekoto/fastfuzzystringmatcher/SearchResultList.java:22-24 | the stream filter finds a keyword iff it occurs at some index |
| SearchResults.SearchResultList.SortByClosestMatch | FastStringMatcher/src/main/java/com/github/pekoto/fastfuzzystringmatcher/SearchResultList.java:26-28 | reorders the list in place into the stable sort of the old list, which is descending and a permutation of it |
| SearchResults.SortPreservesKeywords | FastStringMatcher/src/main/java/com/github/pekoto/fastfuzzystringmatcher/SearchResultList.java:22-28 | sorting never changes whether a keyword is contained |
| StringMatching.RemoveSpacesAndLinebreaks | FastStringMatcher/src/main/java/com/github/pekoto/fastfuzzystringmatcher/StringMatcher.java:94-96 | the result is no longer than the input and holds no whitespace |
| StringMatching.RemoveWithoutWhitespace | FastStringMatcher/src/main/java/com/github/pekoto/fastfuzzystringmatcher/StringMatcher.java:94-96 | a string without whitespace is left unchanged |
| StringMatching.RemoveDistributes | FastStringMatcher/src/main/java/com/github/pekoto/fastfuzzystringmatcher/StringMatcher.java:94-96 | removal of a concatenation is the concatenation of the removals |
| StringMatching.GetNormalizedString | FastStringMatcher/src/main/java/com/github/pekoto/fastfuzzystringmatcher/StringMatcher.java:85-92 | NONE leaves the string as it is; whitespace removal leaves no whitespace |
| StringMatching.NormalizeIdempotent | FastStringMatcher/src/main/java/com/github/pekoto/fastfuzzystringmatcher/StringMatcher.java:85-92 | normalising a normalised string changes nothing |
| StringMatching.Wrap32 | FastStringMatcher/src/main/java/com/github/pekoto/fastfuzzystringmatcher/StringMatcher.java:129-130 | the `int` value congruent to the argument modulo 2^32, equal to it when it is in range |
| StringMatching.Round | FastStringMatcher/src/main/java/com/github/pekoto/fastfuzzystringmatcher/StringMatcher.java:106 | `Math.round` gives the integer within half a unit, with halves rounded up |
| StringMatching.SaturatingRound | FastStringMatcher/src/main/java/com/github/pekoto/fastfuzzystringmatcher/StringMatcher.java:106 | `Math.round(float)`: the rounded value, clamped to the `int` range |
| StringMatching.SaturatingRoundNearest | FastStringMatcher/src/main/java/com/github/pekoto/fastfuzzystringmatcher/StringMatcher.java:106 | the clamped value lies between the rounded value and any `int` |
| StringMatching.SaturatingRoundMonotone | FastStringMatcher/src/main/java/com/github/pekoto/fastfuzzystringmatcher/StringMatcher.java:106 | rounding with saturation never decreases |
| StringMatching.ConvertPercentageToEditDistance | FastStringMatcher/src/main/java/com/github/pekoto/fastfuzzystringmatcher/StringMatcher.java:105-107 | always an `int`; for a percentage in [0, 100], length minus the threshold is the kept share of the keyword's length, rounded to nearest; for a non-negative percentage the threshold is at most the length |
| StringMatching.ShareMonotone | FastStringMatcher/src/main/java/com/github/pekoto/fastfuzzystringmatcher/StringMatcher.java:106 | the kept share grows with the percentage |
| StringMatching.ShareWithin | FastStringMatcher/src/main/java/com/github/pekoto/fastfuzzystringmatcher/StringMatcher.java:106 | for a percentage in [0, 100] the kept share lies between 0 and the length |
| StringMatching.RoundWithin | FastStringMatcher/src/main/java/com/github/pekoto/fastfuzzystringmatcher/StringMatcher.java:106 | rounding a value between 0 and a whole number stays between them |
| StringMatching.ThresholdNoWrap | FastStringMatcher/src/main/java/com/github/pekoto/fastfuzzystringmatcher/StringMatcher.java:105-107 | for a non-negative percentage `length - round` does not wrap, and for a percentage up to 100 `Math.round` does not saturate |
| StringMatching.FullMatchAllowsNoEdit | FastStringMatcher/src/test/java/com/github/pekoto/fastfuzzystringmatcher/StringMatcherTest.java:38-39 | a 100% search allows 0 edits |
| StringMatching.ThresholdWithinLength | FastStringMatcher/src/main/java/com/github/pekoto/fastfuzzystringmatcher/StringMatcher.java:105-107 | a percentage in [0, 100] gives a threshold in [0, length] |
| StringMatching.ThresholdAntitone | FastStringMatcher/src/main/java/com/github/pekoto/fastfuzzystringmatcher/StringMatcher.java:105-107 | a higher percentage never allows more edits |
| StringMatching.NegativePercentageWraps | FastStringMatcher/src/main/java/com/github/pekoto/fastfuzzystringmatcher/StringMatcher.java:105-107 | a percentage so negative that the kept share is below the least `int` saturates `Math.round` and wraps the threshold round to a negative value |
| StringMatching.TenCharacterThresholds | FastStringMatcher/src/test/java/com/github/pekoto/fastfuzzystringmatcher/StringMatcherTest.java:46-70 | on a ten-character query 75%, 50% and 25% allow 2, 5 and 7 edits |
| StringMatching.PercentageDifference | FastStringMatcher/src/main/java/com/github/pekoto/fastfuzzystringmatcher/StringMatcher.java:146-149 | distance 0 gives 100; on words not both empty, a non-zero distance never gives 100 and a positive one gives less than 100; a distance up to the longer length gives a value in [0, 100] |
| StringMatching.MatchPercentageRange | FastStringMatcher/src/main/java/com/github/pekoto/fastfuzzystringmatcher/StringMatcher.java:133 | a hit's percentage lies in [0, 100] and is 100 iff the words agree after folding |
| StringMatching.PercentageAntitone | FastStringMatcher/src/main/java/com/github/pekoto/fastfuzzystringmatcher/StringMatcher.java:146-149 | a smaller distance never gives a lower percentage |
| StringMatching.Node.constructor | FastStringMatcher/src/main/java/com/github/pekoto/fastfuzzystringmatcher/StringMatcher.java:166-170 | a new node holds the keyword, its normalised form and the data, and has no children |
| StringMatching.Node.ContainsChildWithDistance | FastStringMatcher/src/main/java/com/github/pekoto/fastfuzzystringmatcher/StringMatcher.java:189-191 | true iff the one-key window of `getChildKeysWithinDistance` holds the key |
| StringMatching.Node.GetChild | FastStringMatcher/src/main/java/com/github/pekoto/fastfuzzystringmatcher/StringMatcher.java:172-178 | a non-null result is one of the node's children; null iff the one-key window of `getChildKeysWithinDistance` is empty |
| StringMatching.Node.ChildKeysWithinDistance | FastStringMatcher/src/main/java/com/github/pekoto/fastfuzzystringmatcher/StringMatcher.java:180-187 | only child keys, only keys inside the window, and none for an empty window |
| StringMatching.Node.AddChild | FastStringMatcher/src/main/java/com/github/pekoto/fastfuzzystringmatcher/StringMatcher.java:193-200 | a fresh leaf with the given keyword and data is stored under the key, replacing any earlier child; no other key changes |
| StringMatching.ChildTowards | FastStringMatcher/src/main/java/com/github/pekoto/fastfuzzystringmatcher/StringMatcher.java:140-143 | the child of an ancestor on the path down to a descendant, which lies below it |
| StringMatching.ResultFor | FastStringMatcher/src/main/java/com/github/pekoto/fastfuzzystringmatcher/StringMatcher.java:133-134 | a node's result carries its original keyword and its data; its percentage lies in [0, 100] and is 100 iff the node's keyword and the query agree after folding |
| StringMatching.DescendantBorn | FastStringMatcher/src/main/java/com/github/pekoto/fastfuzzystringmatcher/StringMatcher.java:193-200 | a descendant was attached after each of its ancestors |
| StringMatching.DescendantTransitive | FastStringMatcher/src/main/java/com/github/pekoto/fastfuzzystringmatcher/StringMatcher.java:140-143 | a subtree of a subtree is part of the subtree |
| StringMatching.ChildTowardsUnique | FastStringMatcher/src/main/java/com/github/pekoto/fastfuzzystringmatcher/StringMatcher.java:140-143 | a node below a child lies below no other child of the same parent |
| StringMatching.ReachesAncestor | FastStringMatcher/src/main/java/com/github/pekoto/fastfuzzystringmatcher/StringMatcher.java:72-79 | every node the walk passed on its way was reached by the same walk |
| StringMatching.AttachKeepsOrdered | FastStringMatcher/src/main/java/com/github/pekoto/fastfuzzystringmatcher/StringMatcher.java:69-81 | attaching a leaf where the walk ends keeps the BK-tree invariant |
| StringMatching.ResultsForAppend | FastStringMatcher/src/main/java/com/github/pekoto/fastfuzzystringmatcher/StringMatcher.java:127-144 | results of concatenated node lists are the concatenated results |
| StringMatching.SearchStart | FastStringMatcher/src/main/java/com/github/pekoto/fastfuzzystringmatcher/StringMatcher.java:132-138 | after the node's own test, the loop invariant holds with every window key still pending |
| StringMatching.SearchStep | FastStringMatcher/src/main/java/com/github/pekoto/fastfuzzystringmatcher/StringMatcher.java:140-143 | searching one more child's subtree keeps the invariant: no node twice, all matches, and in NONE mode all matches outside the pending keys |
| StringMatching.SearchDone | FastStringMatcher/src/main/java/com/github/pekoto/fastfuzzystringmatcher/StringMatcher.java:140-144 | with no key pending, the invariant gives the subtree's search postcondition |
| StringMatching.WindowFits | FastStringMatcher/src/main/java/com/github/pekoto/fastfuzzystringmatcher/StringMatcher.java:129-130 | every stored node's distance to the query plus the threshold fits in an `int`, so the window bound `d + t` does not wrap |
| StringMatching.ShortWordsFit | FastStringMatcher/src/main/java/com/github/pekoto/fastfuzzystringmatcher/StringMatcher.java:129-130 | a query and stored keywords that are each no longer than `Integer.MAX_VALUE` minus the threshold keep every window in range |
| StringMatching.StringMatcher.constructor | FastStringMatcher/src/main/java/com/github/pekoto/fastfuzzystringmatcher/StringMatcher.java:47-49 | a new matcher is empty, valid and uses NONE |
| StringMatching.StringMatcher.WithMatchingOption | FastStringMatcher/src/main/java/com/github/pekoto/fastfuzzystringmatcher/StringMatcher.java:51-53 | a new matcher is empty, valid and uses the given option |
| StringMatching.StringMatcher.InRootSubtree | FastStringMatcher/src/main/java/com/github/pekoto/fastfuzzystringmatcher/StringMatcher.java:66-81 | every stored node lies below the root |
| StringMatching.StringMatcher.AncestorStored | FastStringMatcher/src/main/java/com/github/pekoto/fastfuzzystringmatcher/StringMatcher.java:66-81 | every ancestor of a stored node is stored |
| StringMatching.StringMatcher.ContainsChildIffAttached | FastStringMatcher/src/main/java/com/github/pekoto/fastfuzzystringmatcher/StringMatcher.java:189-191 | `containsChildWithDistance` is true iff some stored node hangs below the node under that key |
| StringMatching.StringMatcher.GetChildIsAttached | FastStringMatcher/src/main/java/com/github/pekoto/fastfuzzystringmatcher/StringMatcher.java:172-178 | `getChild` returns the stored node attached under the key when there is one, and null otherwise |
| StringMatching.StringMatcher.ChildKeysAreAttachedKeys | FastStringMatcher/src/main/java/com/github/pekoto/fastfuzzystringmatcher/StringMatcher.java:180-187 | `getChildKeysWithinDistance` returns exactly the keys in the range under which some stored node is attached |
| StringMatching.StringMatcher.Add | FastStringMatcher/src/main/java/com/github/pekoto/fastfuzzystringmatcher/StringMatcher.java:55-83 | null and empty keywords fail with the code's messages; the first keyword becomes the root; otherwise the walk follows the distance-labelled edges and either stops on a duplicate below the root, leaving the tree unchanged, or attaches exactly one new leaf under the distance from where the walk ended; the BK-tree invariant is preserved |
| StringMatching.StringMatcher.AddBelowRoot | FastStringMatcher/src/main/java/com/github/pekoto/fastfuzzystringmatcher/StringMatcher.java:68-82 | the walk ends on a node it reached; nothing is added iff that node is below the root at distance 0; otherwise one leaf is added there and no other node changes |
| StringMatching.StringMatcher.Walk | FastStringMatcher/src/main/java/com/github/pekoto/fastfuzzystringmatcher/StringMatcher.java:69-79 | the loop ends on a reached node, with its distance to the keyword; it reports a duplicate iff that node is below the root at distance 0, and otherwise has no child under that distance |
| StringMatching.StringMatcher.Attach | FastStringMatcher/src/main/java/com/github/pekoto/fastfuzzystringmatcher/StringMatcher.java:81 | the new leaf is recorded under the walk's final distance and the matcher stays valid |
| StringMatching.StringMatcher.ChildKeyInWindow | FastStringMatcher/src/main/java/com/github/pekoto/fastfuzzystringmatcher/StringMatcher.java:128-138 | in NONE mode a match below a node lies below a child whose key is in the window [d - t, d + t] |
| StringMatching.StringMatcher.Search | FastStringMatcher/src/main/java/com/github/pekoto/fastfuzzystringmatcher/StringMatcher.java:109-112 | for a threshold in the `int` range, the results are the sorted results for distinct stored nodes within the threshold of the normalised query; in NONE mode, when `d + t` fits in an `int` for every stored node, every such node is reported |
| StringMatching.StringMatcher.SearchByPercentage | FastStringMatcher/src/main/java/com/github/pekoto/fastfuzzystringmatcher/StringMatcher.java:98-103 | the same, with the threshold the percentage gives for the normalised query, wrap-around included |
| StringMatching.StringMatcher.SearchTree | FastStringMatcher/src/main/java/com/github/pekoto/fastfuzzystringmatcher/StringMatcher.java:114-122 | a fresh list holding the sorted results of the whole tree's search: descending, sound, without repeats, and complete in NONE mode when no window wraps |
| StringMatching.StringMatcher.MatchesInWindow | FastStringMatcher/src/main/java/com/github/pekoto/fastfuzzystringmatcher/StringMatcher.java:129-138 | in NONE mode, with a window that does not wrap, the keys `getChildKeysWithinDistance` returns lead to every match below the node |
| StringMatching.StringMatcher.OneChildPerKey | FastStringMatcher/src/main/java/com/github/pekoto/fastfuzzystringmatcher/StringMatcher.java:164 | descendants whose path starts with a child's key lie below that child |
| StringMatching.StringMatcher.SearchSubtree | FastStringMatcher/src/main/java/com/github/pekoto/fastfuzzystringmatcher/StringMatcher.java:127-144 | the window bounds are computed with `int` wrap-around; the results for the reported nodes are appended in report order; those nodes are distinct matches within the threshold below the node, and in NONE mode with no window wrapping they are all such matches |
| StringMatching.StringMatcher.Report | FastStringMatcher/src/main/java/com/github/pekoto/fastfuzzystringmatcher/StringMatcher.java:132-136 | appends the node's original keyword, data and percentage |
| StringMatching.StringMatcher.SearchChildren | FastStringMatcher/src/main/java/com/github/pekoto/fastfuzzystringmatcher/StringMatcher.java:140-143 | the loop over the window keys leaves the subtree's search postcondition |
| StringMatching.StringMatcher.PickKey | FastStringMatcher/src/main/java/com/github/pekoto/fastfuzzystringmatcher/StringMatcher.java:140 | the iteration visits some key of the non-empty set |
| StringMatching.StringMatcher.SearchChild | FastStringMatcher/src/main/java/com/github/pekoto/fastfuzzystringmatcher/StringMatcher.java:141-142 | searching the child under one pending key keeps the loop invariant, with that key no longer pending |
| Scenarios.RootDuplicate | FastStringMatcher/src/main/java/com/github/pekoto/fastfuzzystringmatcher/StringMatcher.java:66-81 | adding one keyword three times in NONE mode stores it twice: at the root and once more under key 0 |
| Scenarios.SpacedDuplicates | FastStringMatcher/src/main/java/com/github/pekoto/fastfuzzystringmatcher/StringMatcher.java:64-81 | with whitespace removal, adding "a b" three times stores three nodes, all holding "a b" and "ab" |
| Scenarios.AddSpacedAgain | FastStringMatcher/src/main/java/com/github/pekoto/fastfuzzystringmatcher/StringMatcher.java:64-81 | one more `Add` of "a b" to a matcher holding only its copies stores one more node |
| Scenarios.DistinctWithin | FastStringMatcher/src/main/java/com/github/pekoto/fastfuzzystringmatcher/StringMatcher.java:131-143 | distinct reported nodes drawn from a set are no more than the set holds |
| Scenarios.BothInEitherOrder | FastStringMatcher/src/main/java/com/github/pekoto/fastfuzzystringmatcher/StringMatcher.java:131-143 | distinct reported nodes drawn from two, holding both, are those two in one of the two orders |
| Scenarios.TwoResultsSorted | FastStringMatcher/src/main/java/com/github/pekoto/fastfuzzystringmatcher/SearchResultList.java:26-40 | two results sort into the order of their percentages, highest first |
| Scenarios.CatFatDistance | FastStringMatcher/src/test/java/com/github/pekoto/fastfuzzystringmatcher/StringMatcherTest.java:93-99 | the distance of "Cat" and "Fat" is 1 |
| Scenarios.BatsFatDistance | FastStringMatcher/src/test/java/com/github/pekoto/fastfuzzystringmatcher/StringMatcherTest.java:93-99 | the distance of "Bats" and "Fat" is 2 |
| Scenarios.BatsCatDistance | FastStringMatcher/src/test/java/com/github/pekoto/fastfuzzystringmatcher/StringMatcherTest.java:101-108 | the distance of "Bats" and "Cat" is 2 |
| Scenarios.ShortWordMatcher | FastStringMatcher/src/test/java/com/github/pekoto/fastfuzzystringmatcher/StringMatcherTest.java:33-34 | adding "Cat" and then "Bats" stores exactly those two nodes with their data |
| Scenarios.SearchShortWords | FastStringMatcher/src/main/java/com/github/pekoto/fastfuzzystringmatcher/StringMatcher.java:109-144 | on that matcher, a query within the threshold of both words, with "Cat" scoring higher, gives exactly the results for "Cat" and then "Bats" |
| Scenarios.ShortWords | FastStringMatcher/src/test/java/com/github/pekoto/fastfuzzystringmatcher/StringMatcherTest.java:93-108 | on a matcher holding only "Cat" and "Bats", `search("Fat", 2)` lists "Cat" then "Bats" with their data, and `search("Cat", 2)` scores them 100 and 50 |

## Left out

- Java `float` arithmetic: percentages and thresholds are exact `real`s. Values that `float` rounding would move across a `.5` boundary are not modelled.
- StringMatching.PercentageDifference: two empty words give NaN in Java (0/0 as `float`). The model returns 100.0. A stored keyword is never empty, so this needs whitespace removal and an all-whitespace stored keyword, matched by an empty or all-whitespace query.
- EditDistanceCalculator.ToLower: `Character.toLowerCase` folds all of Unicode; the model folds ASCII letters only.
- StringMatching.IsWhitespace: the regular-expression class `[\t\n\r\s]` is a fixed set of six characters, the ones `\s` matches by default.
- StringMatching.Node.ChildKeysWithinDistance: Java returns the keys as a list in `HashMap` order; the model returns a set. `PickKey` may visit the keys in any order; results before sorting follow the visit order.
- StringMatching.Node: the `children` field is null until the first child arrives. The model uses the empty map for both, since every method treats them alike.
- StringMatching.StringMatcher.Search, StringMatching.StringMatcher.SearchByPercentage, StringMatching.StringMatcher.SearchTree: a search on an empty matcher throws `NullPointerException` in Java; the model requires a root.
- StringMatching.StringMatcher.Search, StringMatching.StringMatcher.SearchByPercentage: a null query throws in Java; the model's query is a string.
- StringMatching.StringMatcher.Search, StringMatching.StringMatcher.SearchByPercentage, StringMatching.StringMatcher.SearchTree, StringMatching.StringMatcher.SearchSubtree: completeness is proved in NONE mode only. With whitespace removal, the tree is built on raw keywords. Because of that, a match can be pruned away, and only soundness holds.
- StringMatching.StringMatcher.Search, StringMatching.StringMatcher.SearchByPercentage, StringMatching.StringMatcher.SearchTree, StringMatching.StringMatcher.SearchSubtree: completeness is promised only when `d + t` fits in an `int` at every stored node (`WindowFits`). Otherwise Java's `maxDistance` wraps to a negative number, the window is empty and matches are missed: with "Cat" at the root and "Hat" below it, `search("Bat", Integer.MAX_VALUE)` reports only "Cat". The model computes the same wrapped window, so soundness still holds.
- StringMatching.ThresholdAntitone, StringMatching.ThresholdWithinLength, StringMatching.FullMatchAllowsNoEdit: stated for non-negative percentages and for keywords no longer than a Java string can be. A negative enough percentage makes the threshold wrap round (`NegativePercentageWraps`), so a lower percentage can then allow fewer edits.
- EditDistanceCalculator.Distance, EditDistanceCalculator.CalculateEditDistance, StringMatching.ConvertPercentageToEditDistance: characters are Unicode scalar values, not UTF-16 code units. Java's `length()` and `charAt` count a character outside the Basic Multilingual Plane as two code units, the model as one. Distances, lengths and percentage thresholds therefore differ on such text: "\U{1F600}" is at distance 2 from "" in Java and 1 here.
- StringMatching.Node: Java keeps the caller's `CharSequence` by reference, and in NONE mode the normalised keyword is that same object. A `StringBuilder` changed after `Add` would change a stored keyword under a tree built on its old value. The model stores keywords as values, so a stored keyword is a copy, not an alias.
- The unit tests on the ten digit keywords (`StringMatcherTest.java:37-91`) are not proved as scenarios: 3, 6 and 8 results at 75%, 50% and 25%, one result at 100% and three for `search("01234", 1)`. The model proves only the thresholds those percentages give (`TenCharacterThresholds`) and the searches on "Cat" and "Bats".
- EditDistanceCalculator: the unit tests' distance of 10 between "This string is longer" and "This is shorter" (`EditDistanceCalculatorTest.java:33-51`) is not proved. Pinning it needs a lower bound the mismatch and letter-count arguments do not reach. The model proves only that the distance is the same in both argument orders, which those two tests rely on.
- `printTree`, `printHierarchy` and `toString` write text to the console. They change no state and are not part of this model.
- The `faststringmatcher` package's `StringMatcher` is an empty class, and its `StringSearchResult` and `StringSearchResults` are unused by the core; they are not modelled. The example programs and `SearchResult`'s accessors are not part of this model either; `SearchResult` is a datatype.
