# Windowed binary search and sentence casing, in Dafny

This project models two small routines from a collection of Python exercises
and proves what they promise.

- `binary_search(mylist, item, p_start, p_end)` (`multi_binary_search.py`)
  searches the inclusive index window `[start, end]` of a list. It returns the
  index where it finds `item`, or `-1`, and it counts its loop iterations.
  The script's `__main__` driver looks up an ascending list of targets. After
  each find at index `r` it moves the window's start to `r + 1`; a miss leaves
  the window as it was.
- `toCamelCase(string_input)` (`toCamelCase.py`) splits a sentence on
  whitespace, lower-cases the first word, capitalizes every later word and
  joins the words with single spaces.

`binary_search.dfy` (module `BinarySearch`) holds the search:

- `Resolve` works out the window defaults.
- `Search` is `binary_search` itself: it resolves the window, then runs the
  probing loop `SearchWindow`.
- `FindTargets` is the driver loop; `SearchFrom` is one pass of its body.
- Correctness is stated against `IndexOf`, an independent left-to-right scan,
  and against the predicates `SortedIn` and `StrictlySortedIn`. These ask for
  sortedness of the searched window only, not of the whole list.
- The iteration bound is stated with `Bits(w)`, which is floor(log2 w) + 1.

`camel_case.dfy` (module `CamelCase`) holds the casing:

- `ToCamelCase` is a loop that overwrites the split word list position by
  position, as the source does.
- It is proved equal to the function `CamelCase`.
- `CamelCase` and the lemmas about it state word count, order, per-word
  casing, whitespace normalisation, the empty case and idempotence.
- `Words` (`split()`) is tied to `JoinWords` (`' '.join`) in both directions:
  it keeps every non-whitespace character in order.

Two details of `binary_search` that the model keeps:

- `binary_search` honours a caller-supplied `p_end == 0` whatever the start
  is (multi_binary_search.py:4-5), not only for the window `(0, 0)`.
  `Resolve` states that every supplied bound is used as given.
- A miss returns `-1` (multi_binary_search.py:20), and so does `Search`.

## Model

| member | source | states |
|---|---|---|
| BinarySearch.Resolve | multi_binary_search.py:1-5 | a supplied `p_start` or `p_end` is used as given, 0 included; a missing start is 0 and a missing end is `len - 1` |
| BinarySearch.Midpoint | multi_binary_search.py:9 | the probe lies inside the window `[start, end]` and splits it into two halves that differ in width by at most one |
| BinarySearch.IndexOf | multi_binary_search.py:10-12 | reference scan: the result is -1 exactly when `item` is absent from the window; otherwise it is the first index in the window that holds `item` |
| BinarySearch.Search | multi_binary_search.py:1-20 | a result other than -1 lies in the resolved window and holds `item`; when the window is sorted, -1 means `item` is absent from it; when the window is strictly ascending, the result equals IndexOf; a one-element window `[k, k]` returns k exactly when `s[k] == item`, on any list; an empty window gives -1 after 0 iterations; a one-element window takes exactly 1 iteration; a window of width w takes at most floor(log2 w) + 1 |
| BinarySearch.SearchWindow | multi_binary_search.py:6-20 | the same guarantees for the probing loop over `[lo, hi]`, with sortedness asked of `[lo, hi]` only; every probe is in bounds and `end - start` decreases on every iteration |
| BinarySearch.BitsIsFloorLog2PlusOne | multi_binary_search.py:7-18 | Bits(w) is floor(log2 w) + 1: 2^(Bits(w)-1) <= w < 2^Bits(w) |
| BinarySearch.BitsMonotone | multi_binary_search.py:34-35 | a narrower window never allows more iterations than a wider one, so each search the driver makes is bounded by the bound for the whole list |
| BinarySearch.StrictlySortedIndexOf | multi_binary_search.py:10-12 | in a strictly ascending window the index the search finds is the only occurrence, so it is the one the scan finds |
| BinarySearch.ProbeAbove | multi_binary_search.py:13-15 | in a sorted window, a probe above `item` rules out the probe and everything after it up to the window's end |
| BinarySearch.ProbeBelow | multi_binary_search.py:16-18 | in a sorted window, a probe below `item` rules out everything from the window's start up to the probe |
| BinarySearch.WindowExhausted | multi_binary_search.py:19-20 | once `start > end`, all of the original window has been ruled out, so -1 is the right answer |
| BinarySearch.IndexOfSkipsPrefix | multi_binary_search.py:36-43 | when no element before `start` equals the target, searching from `start` finds the same index as searching from 0 |
| BinarySearch.AdvancePastFound | multi_binary_search.py:40-43 | with both lists strictly ascending, moving `start` past a found index skips only elements below every target still to come |
| BinarySearch.SearchFrom | multi_binary_search.py:35-43 | one pass of the driver: a found index is at or after `start` and holds the target; the next start is r + 1 after a find at r (r = 0 included) and unchanged after -1; the pass takes at most floor(log2 len) + 1 iterations; on a strictly sorted list, when nothing before `start` equals the target, the index is the full-list IndexOf |
| BinarySearch.FindTargets | multi_binary_search.py:32-43 | the driver: the first search starts at 0; after a find at r (r = 0 included) the next start is r + 1, and after -1 it is unchanged; each found index is at or after its search's start and holds its target; each search takes at most floor(log2 len) + 1 iterations; for a strictly sorted list and strictly ascending targets each index equals the full-list IndexOf |
| BinarySearch.HardCodedTargets | multi_binary_search.py:25-43 | the script's own run, list [1..7] with targets [1, 4, 6, 8], reports 0, 3, 5, -1 |
| BinarySearch.SingletonWindow | multi_binary_search.py:2-5 | the list [7] with `p_end == 0` is searched over the window (0, 0) and the search finds 7 at index 0 after exactly one comparison |
| BinarySearch.UnsortedOutsideWindow | multi_binary_search.py:1-12 | only the window has to be sorted: in the unsorted list [3, 7, 1], the window (1, 1) finds 7 at index 1 after one comparison |
| BinarySearch.EmptyList | multi_binary_search.py:2-7 | an empty list with the default window `[0, -1]` gives -1 after zero iterations |
| CamelCase.LowerChar | toCamelCase.py:21-22 | ASCII lower-casing of one character: no upper-case letter is left; an upper-case letter becomes the lower-case letter at the same place in the alphabet; every other character is unchanged |
| CamelCase.UpperChar | toCamelCase.py:18-19 | ASCII upper-casing of one character: no lower-case letter is left; a lower-case letter becomes the upper-case letter at the same place in the alphabet, and lower-casing that gives back the original letter; every other character is unchanged |
| CamelCase.Lower | toCamelCase.py:21-22 | `str.lower()`: same length; every position is lower-cased |
| CamelCase.Capitalize | toCamelCase.py:18-19 | `str.capitalize()`: same length; the first character is upper-cased and every later character lower-cased |
| CamelCase.WordLength | toCamelCase.py:9 | the leading run of non-whitespace is maximal: it ends at whitespace or at the end of the string |
| CamelCase.Words | toCamelCase.py:9 | `split()` yields only words: each one non-empty and free of whitespace |
| CamelCase.WordsOfWord | toCamelCase.py:9 | `split()` of a single word (non-empty, no whitespace) is that word alone |
| CamelCase.WordsSplitAt | toCamelCase.py:9 | `split()` cuts at every whitespace character: the words of s are the words before position k followed by the words after it, whenever s[k] is whitespace |
| CamelCase.WordsAtSpace | toCamelCase.py:9 | the words of `a`, one whitespace character, then `b` are the words of `a` followed by the words of `b`; with WordsOfWord and WordsEmptyIffBlank this fixes the words of every string, so each word is a maximal run of non-whitespace |
| CamelCase.WordsKeepContent | toCamelCase.py:9 | `split()` keeps every non-whitespace character, in order, and only those: the words run together equal the string with its whitespace dropped |
| CamelCase.JoinWords | toCamelCase.py:26 | `' '.join`: it adds exactly one separator between each two words, and for a list of words the separators are the only whitespace, so dropping the whitespace leaves the words run together |
| CamelCase.JoinWordsOfNormalised | toCamelCase.py:9-26 | a string with no leading, trailing or repeated whitespace is rebuilt unchanged by joining its own words with single spaces |
| CamelCase.CaseAt | toCamelCase.py:18-22 | the casing applied at list position `index`: same length; every character after the first is lower-cased; the first is upper-cased after position 0 and lower-cased at position 0 |
| CamelCase.CaseWords | toCamelCase.py:17-23 | the loop's effect on the word list: same length; word 0 lower-cased; every later word capitalized |
| CamelCase.CamelCase | toCamelCase.py:7-26 | toCamelCase as a function: the output's words are the input's words cased by position, same count and same order; the output has no leading, trailing or repeated whitespace, and every whitespace character in it is a single space |
| CamelCase.ToCamelCase | toCamelCase.py:7-26 | the output equals CamelCase(input); it has as many words as the input, in the same order; word 0 is the lower-cased input word 0 and every later word is the capitalized input word; the output is in normal form; it is empty exactly when the input is all whitespace |
| CamelCase.CaseAtIsWord | toCamelCase.py:17-23 | casing a word keeps it a word: no whitespace is created or removed |
| CamelCase.CaseWordsAreWords | toCamelCase.py:17-23 | the cased list is still a list of words |
| CamelCase.CaseAtIdempotent | toCamelCase.py:17-23 | lower-casing twice, or capitalizing twice, is the same as doing it once |
| CamelCase.SameWordCasedByPosition | toCamelCase.py:11-23 | the update goes by position, not by value: the same word at position 0 and at a later position is cased differently when it starts with a letter (lower-case first, upper-case later) |
| CamelCase.WordsOfJoin | toCamelCase.py:9-26 | splitting words that were joined with single spaces gives back exactly those words |
| CamelCase.JoinNormalised | toCamelCase.py:26 | joining words with single spaces gives a string with no leading, trailing or repeated whitespace |
| CamelCase.WordsEmptyIffBlank | toCamelCase.py:9 | `split()` finds no word exactly when the string is empty or all whitespace |
| CamelCase.CamelCaseEmptyIffBlank | toCamelCase.py:9-26 | the output is empty exactly when the input is empty or all whitespace |
| CamelCase.CamelCaseIdempotent | toCamelCase.py:9-26 | casing the output again changes nothing |

## Left out

- thread_proc_helper.py is not part of this model. It starts threads and processes, writes files, measures wall-clock time and configures logging; none of it is sequential logic with a result.
- The `print` statements of both scripts and the `raw_input` call are console I/O. `Search` returns its iteration count and `ToCamelCase` returns the cased string instead.
- List elements are integers. The source accepts any values that Python can compare. With values that have no total order, such as a float NaN, none of the three comparisons at multi_binary_search.py:10-18 may hold. Neither half is then chosen and the source's loop may never end. The model's termination (`end - start` decreases) rests on integer trichotomy, which is why its third branch is an `else`.
- `p_start` is a natural number. With a negative start the source may probe a negative index, which Python reads as an index from the end of the list, or which may raise an index error.
- A `p_end` beyond `len - 1` is a precondition of `Search`. With such a window the source may probe past the end of the list and fail with an index error, or it may find the item before it gets there.
- Sortedness of the window is a hypothesis of the correctness clauses, not a precondition. On an unsorted window the model still promises that a found index holds the item.
- The driver's hard-coded lists are parameters of `FindTargets`. `HardCodedTargets` runs it on the script's own values.
- `Search`: the iteration count is bounded (floor(log2 w) + 1), not given exactly.
- Casing covers ASCII letters only. Python 2 byte strings under the C locale behave this way; Unicode casing rules are not modelled.
- `split()` is modelled by the function `Words` and `' '.join` by `JoinWords`. They are library calls in the source, not loops of its own.
