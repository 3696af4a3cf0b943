# String and vector utilities: a verified Dafny model

This project models four small, stateless utility functions and proves what
their test suite (`test.cpp`) asserts about them, and more:

- **Split(text, delim)** breaks a string into fields on one delimiter
  character. Empty fields are kept, so there is always one field more than
  there are delimiters (module `Splitting`, `split.dfy`).
- **Join(parts, glue)** concatenates the parts in order, with the glue only
  between neighbours (module `Joining`, `join.dfy`). With the delimiter as
  glue, Join undoes Split for every text; Split undoes Join for a non-empty
  list of parts none of which contains the delimiter (module `SplitJoin`,
  `split_join.dfy`).
- **RemoveAllSubstrings(s1, s2)** erases occurrences of `s2` from a working
  copy of `s1`. It scans left to right and, after each erasure, searches
  again from the index of the erased occurrence (module `SubstringRemoval`,
  `remove_substrings.dfy`). It is an imperative method with a `while` loop.
  It is proved equal to the specification function `RemoveAll`, and the
  properties are proved about `RemoveAll`. The string search is `Find`: the
  first occurrence at or after a start index, or `None`. The scan erases
  exactly the leftmost non-overlapping occurrences of the original string, as
  the one-pass reference `Cut` does; it never finds an occurrence formed by an
  erasure.
- **MatchVectors(a, b)** keeps, in order and with duplicates, the elements of
  `a` whose value is not in `b` (module `VectorMatching`,
  `match_vectors.dfy`).

Strings are `seq<char>`; integer vectors are `seq<int>`. The implementation
file `functions_to_implement.cpp` is not part of this model. Split, Join and
MatchVectors are modelled by the behaviour their test cases pin down. For
RemoveAllSubstrings the test cases alone do not fix the scan: a scan that
restarts from index 0 after each erasure passes them too. The model follows
the resume-at-the-erasure-index policy stated in the comment at
test.cpp:56-57. That policy does not remove every occurrence: `"aabb"` minus
`"ab"` leaves `"ab"` (`ResumePolicyExample`), where a restart from 0 would
leave `""`.

## Model

| member | source | states |
|---|---|---|
| `Splitting.Split` | test.cpp:9-39 | there is always at least one field, and no field contains the delimiter |
| `Splitting.SplitCount` | test.cpp:30-33 | the number of fields is the number of delimiters in the text plus one |
| `Splitting.SplitWithoutDelimiter` | test.cpp:15-19 | the text is returned as its only field exactly when it holds no delimiter |
| `Splitting.SplitAtDelimiter` | test.cpp:20-33 | a delimiter between two texts separates their fields: Split(l + [d] + r) is Split(l) followed by Split(r) |
| `Splitting.SplitLeadingDelimiter` | test.cpp:20-24 | a leading delimiter yields an empty first field before the fields of the rest |
| `Splitting.SplitTrailingDelimiter` | test.cpp:25-29 | a trailing delimiter yields an empty last field after the fields of the rest |
| `Splitting.SplitConsecutiveDelimiters` | test.cpp:30-34 | two consecutive delimiters yield an empty field between the fields on either side |
| `Splitting.SplitBasicExample` | test.cpp:10-14 | "a,b,c" splits into "a", "b", "c" |
| `Splitting.SplitConsecutiveExample` | test.cpp:30-34 | "a,,b,,,c" splits into "a", "", "b", "", "", "c" |
| `Splitting.SplitEdgeExamples` | test.cpp:15-39 | "abc" is one field, ",a,b" and "a,b," give an empty first and last field, "" gives one empty field |
| `Joining.Join` | test.cpp:67-88 | a non-empty join starts with the first part, so no glue precedes it; the other cases are carried by JoinFewParts, JoinConcat, JoinAroundPart and JoinEndsWithLast |
| `Joining.JoinEndsWithLast` | test.cpp:76-79 | a non-empty join ends with the last part, so no glue follows it |
| `Joining.JoinFewParts` | test.cpp:68-75 | no parts join to ""; a single part is returned unchanged, whatever the glue |
| `Joining.JoinConcat` | test.cpp:76-79 | joining two non-empty runs of parts puts exactly one glue between their joins |
| `Joining.JoinAroundPart` | test.cpp:84-87 | every part appears verbatim in the result, with glue before it exactly when it is not first and after it exactly when it is not last |
| `Joining.JoinEmptyGlue` | test.cpp:80-83 | with empty glue, Join equals plain concatenation (`Concat`) |
| `Joining.JoinLength` | test.cpp:76-79 | the result's length is the total length of the parts plus one glue per gap |
| `Joining.JoinExamples` | test.cpp:67-88 | the five Join test cases, including "a-b","c" joined by "-" giving "a-b-c" |
| `SplitJoin.JoinOfSplit` | test.cpp:10-14 | joining the fields of Split(s, d) with [d] gives back s, for every s and d |
| `SplitJoin.SplitOfJoin` | test.cpp:76-79 | splitting the join of a non-empty list of delimiter-free parts gives back the parts |
| `SplitJoin.JoinKeepsGlueInParts` | test.cpp:84-87 | a part holding the glue is copied verbatim, so splitting "a-b-c" no longer recovers ["a-b", "c"] |
| `SubstringRemoval.Find` | test.cpp:55-57 | a found index lies at or after the start index, and the pattern occurs there; no occurrence lies between the start and the found index (or anywhere after the start when none is found) |
| `SubstringRemoval.EraseAt` | test.cpp:55-57 | erasing an occurrence at index `i` shortens the string by the pattern's length, keeps the text before `i` and moves the text after the occurrence up to `i` |
| `SubstringRemoval.RemoveFrom` | test.cpp:55-57 | continuing the scan from a resume index never lengthens the string |
| `SubstringRemoval.RemoveAll` | test.cpp:42-65 | the whole scan (nothing for an empty pattern) never lengthens the string; its other properties are the RemoveAll lemmas below |
| `SubstringRemoval.RemoveAllSubstrings` | test.cpp:42-65 | the loop that erases and re-searches from the erasure index computes exactly `RemoveAll(s1, s2)` |
| `SubstringRemoval.RemoveAllUnchanged` | test.cpp:47-54 | the string comes back unchanged exactly when the pattern is empty or does not occur in it |
| `SubstringRemoval.RemoveFromIsCut` | test.cpp:55-57 | the scan resumed at `from` keeps the text before `from` and cuts the rest as the reference `Cut` does: no occurrence formed by an erasure is ever found |
| `SubstringRemoval.RemoveAllIsCut` | test.cpp:42-65 | for every string and pattern, the whole scan equals `Cut`: exactly the leftmost non-overlapping occurrences of the original string are deleted, scanning left to right (an empty pattern deletes nothing) |
| `SubstringRemoval.RemoveFromKeepsPrefix` | test.cpp:55-57 | the text before the resume index is never changed again |
| `SubstringRemoval.RemoveAllErasesCopies` | test.cpp:43-46 | as a multiset, the characters removed are those of some number of copies of the pattern (for an empty pattern, none) |
| `SubstringRemoval.RemoveAllSingleChar` | test.cpp:61-64 | a one-character pattern is removed completely, and the result equals the reference `Without(s, c)`: every other character kept in order |
| `SubstringRemoval.RemoveAllTwoSeparated` | test.cpp:43-46 | two occurrences are both erased where they stood, and nothing else is, when the text before, between and after them holds no first character of the pattern |
| `SubstringRemoval.CatExample` | test.cpp:43-46 | "the cat in the cathedral" minus "cat" is "the  in the hedral" |
| `SubstringRemoval.UnchangedExamples` | test.cpp:47-54 | "abcdef" minus "xyz", and "abcdef" minus "", are "abcdef" |
| `SubstringRemoval.OverlapExample` | test.cpp:55-60 | "aaaa" minus "aa" is "": both non-overlapping pairs of the original string are erased |
| `SubstringRemoval.BananaExample` | test.cpp:61-64 | "banana" minus "a" is "bnn" |
| `SubstringRemoval.ResumePolicyExample` | test.cpp:55-57 | "aabb" minus "ab" is "ab": an occurrence formed left of the resume index is not searched for again |
| `VectorMatching.MatchVectors` | test.cpp:90-126 | the result is no longer than `a`, and each of its elements is in `a` and not in `b` |
| `VectorMatching.MatchVectorsCount` | test.cpp:114-119 | each value occurs in the result as often as in `a` if it is not in `b`, and never if it is |
| `VectorMatching.MatchVectorsConcat` | test.cpp:114-119 | filtering distributes over concatenation, so kept elements keep their relative order |
| `VectorMatching.MatchVectorsKeepsAll` | test.cpp:98-102 | `a` comes back unchanged exactly when none of its values is in `b` |
| `VectorMatching.MatchVectorsDropsAll` | test.cpp:108-113 | the result is empty exactly when every value of `a` is in `b` |
| `VectorMatching.MatchVectorsEmpty` | test.cpp:98-107 | an empty `b` returns `a`; an empty `a` returns the empty sequence |
| `VectorMatching.MatchVectorsMembershipOnly` | test.cpp:120-125 | exclusion lists that agree on the values of `a` give the same result, so values of `b` absent from `a` have no effect |
| `VectorMatching.MatchVectorsBasicExample` | test.cpp:91-97 | [1,2,3,4,5] minus [2,4,6] is [1,3,5] |
| `VectorMatching.MatchVectorsEmptyExamples` | test.cpp:98-107 | [7,8,9] minus [] is [7,8,9]; [] minus [1,2,3] is [] |
| `VectorMatching.MatchVectorsAllRemovedExample` | test.cpp:108-113 | [1,1,2,2] minus [1,2] is [] |
| `VectorMatching.MatchVectorsDuplicatesExample` | test.cpp:114-119 | [3,3,2,3,1,3] minus [2] is [3,3,3,1,3] |
| `VectorMatching.MatchVectorsExtrasExample` | test.cpp:120-125 | [10,11] minus [0,1,2,10] is [11] |

## Left out

- The Catch2 test harness (`CATCH_CONFIG_MAIN`, the `TEST_CASE`/`SECTION` macros, the includes at test.cpp:1-7) is test wiring. Its assertions appear here as the example lemmas.
- `functions_to_implement.cpp` is not part of this model. Split, Join and MatchVectors are modelled as recursive functions over values, because the tests constrain only their results. Whether the implementation loops, passes arguments by value or by reference, or how fast it runs, is not modelled.
- `std::string::find` and `std::string::erase` are modelled by `Find` and `EraseAt` on sequences. Allocation and in-place buffer management are not modelled.
- RemoveAllSubstrings: the working copy is a `seq<char>` variable that the loop reassigns, not a mutable buffer erased in place.
- RemoveAllSubstrings: no claim that no occurrence of the pattern survives, because the scan does not promise it (`ResumePolicyExample`). Only a one-character pattern is proved to be removed completely.
- Characters are Dafny `char`, not the bytes of a `std::string`. No encoding is modelled. No operation here depends on character values beyond equality.
- MatchVectors uses unbounded `int` where C++ uses `int`. The operation only compares values for equality, so width and wrap-around do not arise.
