# Latin-square stimulus lists, modelled in Dafny

This project models `latinSquare(curList, itemFile)` of Deep/CSL.py. It is the
routine that builds the presentation order of a self-paced-reading experiment.
Its input is the rows of an items file: label, item id, condition, payload. It
returns one list of rows that mixes the Filler rows with, for every other
sub-experiment, the rows the Latin square assigns to list `curList`. The
routine works in four stages:

1. **Grouping** (`ItemStore`, lines 20-23). Rows are grouped by label into a
   dictionary of buckets.
2. **Latin-square selection** (`ConditionAssigner`, lines 25-43). The condition
   count `C` is `int(max(...))` over the condition strings, and `N` is the
   number of rows. The condition sequence `[1..C] * N` is indexed at
   `(i-1)+(curList-1)`. Only the rows whose `(id, condition)` pair is current
   are kept.
3. **Shuffling** (`BucketShuffler`, lines 45-46). `random.shuffle` runs on
   every bucket.
4. **Interleaving** (`Interleaver`, lines 48-72). The loop draws a
   sub-experiment other than the last one appended. It pops that bucket's tail
   and appends it with its label in front, or drops the sub-experiment once its
   bucket is empty, until one sub-experiment is left. A warning is raised when
   that survivor is not Filler. The survivor's leftovers are inserted at drawn
   positions.

`CSL.LatinSquare` composes the four stages. It raises exactly the error the
input calls for (`CSL.InputError`). Otherwise it returns a permutation of the
rows the Latin square keeps (`CSL.KeptRows`), together with the survivor
`remainingExpts[0]`. In that list, only rows of the survivor can be neighbours. The warning is raised exactly when the survivor is
not Filler.

Surrounding modules:

- `PyBuiltins` models the Python built-ins the routine relies on. These are
  `int`, `str`, `max` on strings, `range`, list repetition, indexing with
  negative indices, `list.remove` and `list.insert`.
- `PyRandom` drives `random.choice`, `random.randrange` and `random.shuffle`
  (CPython 2.7's Fisher-Yates loop) from an explicit stream of draws
  `rng: nat -> nat` and a draw counter.
- `SwetsSurface` models two pure helpers of Surface/swetsSPR_surface.py. One is
  the subject-to-list arithmetic (lines 80-81) with `number_lists = 3`
  (line 32). The other is `format` (lines 37-41).

Behaviour of the code worth knowing:

- **No wrap-around.** The condition lookup of line 36 does not wrap around.
  An index past the end of the sequence raises IndexError, which is the error
  `ConditionOutOfRange`. A negative index counts from the end, as Python's
  does.
- **Warning.** The warning fires whenever the survivor is not Filler, even if
  its bucket is already empty.
- **Dropping labels.** A sub-experiment is dropped only when it is drawn with
  an empty bucket, not at the moment its bucket empties.
- **Missing rows and fields.** An input without rows, or without Filler rows,
  fails at `experiments.remove('Filler')` (`MissingFiller`). An empty row
  fails at `item[0]` (`EmptyRow`). A one-field row is accepted as a Filler
  row. In a sub-experiment, a row with fewer than three fields (a record
  without a condition) fails at `item[1]` of line 33 (`MissingCondition`).
- **Counts.** `N` is the number of rows of the sub-experiment, not the number
  of distinct item ids. `C` comes from the largest condition as a string, so
  `"9"` outranks `"10"`.

## Model

| member | source | states |
|---|---|---|
| PyBuiltins.Str | Deep/CSL.py:36 | `str(n)` is non-empty, and all digits exactly when `n >= 0` |
| PyBuiltins.IntOfStr | Deep/CSL.py:33 | `int(str(n)) == n` for every integer, so conditions written by `str` read back |
| PyBuiltins.Int | Deep/CSL.py:33 | `int()` of a string: blanks around the text and after an optional sign, then at least one decimal digit, read as a decimal value; anything else is ValueError (None) |
| PyBuiltins.IntSignBlank | Deep/CSL.py:33 | as in Python 2, `int("- 5") == -5` and `int(" + 2 ") == 2` |
| PyBuiltins.StrInjective | Deep/CSL.py:36 | different item numbers give different id strings |
| PyBuiltins.Max | Deep/CSL.py:33 | `max` of a non-empty list of strings is one of them, and no element is lexicographically greater |
| PyBuiltins.MaxIsNotNumeric | Deep/CSL.py:33 | the maximum is a string maximum: `max(["9","10"]) == "9"` |
| PyBuiltins.LexLess | Deep/CSL.py:33 | Python's `<` on strings that `max` uses: by character code, a proper prefix first |
| PyBuiltins.Range | Deep/CSL.py:35 | `range(lo, hi)` has `hi - lo` elements (none if `hi <= lo`), element `k` being `lo + k` |
| PyBuiltins.RepeatAt | Deep/CSL.py:35 | `s * n` has length `len(s) * n`, and element `k` is `s[k % len(s)]` |
| PyBuiltins.Repeat | Deep/CSL.py:35 | list repetition `s * n`, empty for `n <= 0` |
| PyBuiltins.RemoveDistinct | Deep/CSL.py:28 | removing `x` from a duplicate-free list leaves exactly the other elements, still duplicate-free |
| PyBuiltins.Remove | Deep/CSL.py:28 | `list.remove(x)` leaves one element fewer, and the multiset loses exactly one `x` |
| PyBuiltins.IndexOf | Deep/CSL.py:28 | the position of the first occurrence of `x`: it holds `x` and no earlier position does |
| PyBuiltins.RemoveAt | Deep/CSL.py:28 | removing `x` whose first occurrence is at `i` leaves the elements before `i` and those after it, in order |
| PyBuiltins.RemovePlaces | Deep/CSL.py:28 | `list.remove(x)` deletes the first occurrence of `x`, and the other elements keep their order |
| PyBuiltins.Index | Deep/CSL.py:36 | Python indexing `s[k]`: `s[k]` for `0 <= k < len`, `s[len + k]` for `-len <= k < 0`, IndexError (None) otherwise |
| PyBuiltins.Insert | Deep/CSL.py:72 | `list.insert(p, x)` puts `x` at `p`, grows the list by one and adds `x` to its multiset |
| PyBuiltins.InsertPlaces | Deep/CSL.py:72 | the elements before `p` keep their places and those from `p` on move up by one |
| PyBuiltins.IsSubseqInsert | Deep/CSL.py:72 | inserting an element keeps every subsequence of the list |
| PyRandom.RandBelow | Deep/CSL.py:57 | a draw among `n` choices is below `n` |
| PyRandom.ShuffledPermutes | Deep/CSL.py:46 | `random.shuffle` keeps the length and the multiset of the list |
| PyRandom.Shuffled | Deep/CSL.py:46 | the list `random.shuffle` leaves: lists of length 0 or 1 unchanged, otherwise the `len - 1` swaps of the Fisher-Yates loop |
| PyRandom.Shuffle | Deep/CSL.py:46 | the Fisher-Yates loop yields the shuffled list, a permutation of its input, and consumes `len - 1` draws |
| Catalogs.SetDefaultAppend | Deep/CSL.py:23 | `setdefault(l, []).append(x)` keeps the dictionary well formed, and its keys become the old keys plus `l` |
| Catalogs.SetDefaultAppendPlaces | Deep/CSL.py:23 | `x` goes at the end of bucket `l` (a new bucket `[x]` when `l` is new, its label added last to the key order), and every other bucket is unchanged |
| Catalogs.TagCount | Deep/CSL.py:62 | a bucket with its label put back in front holds `[l] + t` as often as the bucket holds `t` |
| Catalogs.PoolPermuted | Deep/CSL.py:46 | permuting each bucket leaves the multiset of labelled records unchanged |
| Catalogs.PoolPop | Deep/CSL.py:62 | popping a bucket's tail moves exactly that labelled record out of the pool |
| ItemStore.Labels | Deep/CSL.py:22-23 | the dictionary keys are duplicate-free; every row's label is among them, and each comes from some row |
| ItemStore.GroupedSnoc | Deep/CSL.py:23 | grouping one more row is one `setdefault(...).append(item[1:])` |
| ItemStore.FirstEmptyRowAt | Deep/CSL.py:23 | the first empty row raises the grouping error, naming that row |
| ItemStore.GroupRows | Deep/CSL.py:20-23 | the loop builds exactly the grouping of all rows, or fails at the first empty row |
| ItemStore.Bucket | Deep/CSL.py:22-23 | `stimDictionary[l]`: the rows labelled `l` without their label, in input order |
| ItemStore.Grouped | Deep/CSL.py:20-23 | the dictionary of buckets, one per label in first-occurrence order |
| ItemStore.Grouping | Deep/CSL.py:20-23 | the outcome of grouping: the EmptyRow error at the first empty row, else every label's rows, without the label, in input order, the labels in first-occurrence order |
| ItemStore.BucketCount | Deep/CSL.py:22-23 | the bucket of `l` holds `t` exactly as often as the rows hold `[l] + t` |
| ItemStore.BucketInOrder | Deep/CSL.py:22-23 | a bucket, labelled again, is a subsequence of the rows: input order is kept |
| ItemStore.GroupedBucketsNonEmpty | Deep/CSL.py:22-23 | the grouping is well formed and never has an empty bucket |
| ItemStore.GroupedPool | Deep/CSL.py:22-23 | without empty rows, the labelled buckets make up exactly the multiset of rows, so the bucket sizes sum to the row count |
| ConditionAssigner.CondSequenceShape | Deep/CSL.py:35 | `range(1, C+1) * N` has length `C*N` (empty for `C < 1`), and element `k` is `k mod C + 1` |
| ConditionAssigner.CondSequence | Deep/CSL.py:35 | `range(1, C + 1) * N` |
| ConditionAssigner.CondSequenceIndex | Deep/CSL.py:36 | every in-range index, negative ones included, looks up `k mod C + 1` |
| ConditionAssigner.Owed | Deep/CSL.py:36 | the condition owed to an item lies in `1..C` |
| ConditionAssigner.OwedNextList | Deep/CSL.py:36 | the next list moves every item on to the next condition, cyclically |
| ConditionAssigner.OwedNextItem | Deep/CSL.py:36 | on one list, consecutive items go through the conditions cyclically |
| ConditionAssigner.OwedLatin | Deep/CSL.py:36 | lists `1..C` give an item pairwise different conditions |
| ConditionAssigner.ListFor | Deep/CSL.py:36 | every condition of an item is owed on some list in `1..C` |
| ConditionAssigner.CurrentItemsDefined | Deep/CSL.py:36 | the list comprehension succeeds exactly when no lookup runs outside the sequence (IndexError otherwise) |
| ConditionAssigner.CurrentItems | Deep/CSL.py:36 | the comprehension over items `1..N`: the pairs `(str(i), str(condSequence[(i-1)+(curList-1)]))` in order, or None at the first lookup that raises IndexError |
| ConditionAssigner.CondAt | Deep/CSL.py:36 | the lookup `condSequence[(item-1)+(curList-1)]` for item `k + 1`, with Python's negative indexing and IndexError as None |
| ConditionAssigner.CurrentItemsLast | Deep/CSL.py:36 | a defined `currentItems` for `N > 0` items is the one for `N - 1` items followed by the pair of item `N` |
| ConditionAssigner.CondAtOwed | Deep/CSL.py:35-36 | a lookup into `range(1, C + 1) * N` that succeeds yields the condition owed to the item |
| ConditionAssigner.CurrentItemsEntries | Deep/CSL.py:36 | a defined `currentItems` has `N` entries, entry `k` being `(str(k+1), str(condSequence[k+curList-1]))`, every lookup defined |
| ConditionAssigner.LatinSquareItems | Deep/CSL.py:35-36 | `currentItems` exists iff `C >= 1`, `-(C*N) <= curList-1` and `N + curList - 2 < C*N`; then entry `k` is `(str(k+1), str(owed condition))` |
| ConditionAssigner.ListInRange | Deep/CSL.py:36 | a list number in `1..C` never makes the lookup fail |
| ConditionAssigner.CurrentItemsMembers | Deep/CSL.py:36 | a pair is current iff it names an item `1..N` and the condition owed to it |
| ConditionAssigner.CurrentItemsOneCondition | Deep/CSL.py:36 | `currentItems` pairs each item id with one condition only |
| ConditionAssigner.CurrentItemsExample | Deep/CSL.py:35-36 | with 2 conditions, 4 items and list 2, the items get conditions 2, 1, 2, 1 |
| ConditionAssigner.ConditionCount | Deep/CSL.py:33 | a missing condition fails; otherwise the count is `int` of a lexicographically maximal condition, or the error names an unparsable condition text that is itself maximal |
| ConditionAssigner.Conditions | Deep/CSL.py:33 | `[item[1] for item in stimDictionary[expt]]`: the condition field of each record, in order |
| ConditionAssigner.ConditionCountOfMaximum | Deep/CSL.py:33 | for any condition nothing is lexicographically above, the count is Ok with `int` of it exactly when it parses, and otherwise the error names it |
| ConditionAssigner.ConditionCountExample | Deep/CSL.py:33 | conditions "9" and "10" give 9 conditions |
| ConditionAssigner.SelectedCount | Deep/CSL.py:41-43 | the filter keeps a record as often as it occurs when its first two fields are a current pair, and never otherwise |
| ConditionAssigner.SelectedInOrder | Deep/CSL.py:41-43 | the filter keeps input order |
| ConditionAssigner.Selected | Deep/CSL.py:41-43 | the records whose `tuple(item[0:2])` is a current pair, in input order |
| ConditionAssigner.SelectionMeaning | Deep/CSL.py:33-43 | the selection succeeds iff the count parses and the lookups stay in range; it fails with the count's error or `ConditionOutOfRange`; it keeps each owed record with its multiplicity and nothing else |
| ConditionAssigner.Selection | Deep/CSL.py:33-43 | one sub-experiment: the count's error, else `ConditionOutOfRange` when a lookup fails, else the records whose pair is current |
| ConditionAssigner.SelectionOneCondition | Deep/CSL.py:41-43 | two selected records of the same item carry the same condition |
| ConditionAssigner.SelectionInOrder | Deep/CSL.py:41-43 | the selected bucket is a subsequence of the sub-experiment's rows |
| ConditionAssigner.FirstErrorNone | Deep/CSL.py:32-43 | no error is raised iff every sub-experiment's selection succeeds |
| ConditionAssigner.FirstErrorAt | Deep/CSL.py:32-43 | the raised error is the first failing sub-experiment's |
| ConditionAssigner.FirstFailureNames | Deep/CSL.py:32-43 | an error is raised iff some sub-experiment's selection fails, and it is the error of a failing sub-experiment all of whose predecessors succeed |
| ConditionAssigner.FirstFailure | Deep/CSL.py:32-43 | the error of the first sub-experiment, in key order, whose selection raises |
| ConditionAssigner.AssignedNonEmpty | Deep/CSL.py:29-43 | every bucket of `exptItems` is non-empty: Filler holds the Filler rows, and a sub-experiment appears only when it selects something |
| ConditionAssigner.AppendSelected | Deep/CSL.py:41-43 | the loop adds the sub-experiment's bucket exactly when some record is selected, holding exactly the selection |
| ConditionAssigner.CopyFiller | Deep/CSL.py:29-30 | the Filler rows are copied, in order, into `exptItems['Filler']` as its first key |
| ConditionAssigner.AssignExperiment | Deep/CSL.py:33-43 | one sub-experiment fails exactly with its selection's error, or gains exactly its selection |
| ConditionAssigner.WithSelectionWellFormed | Deep/CSL.py:43 | adding a selection keeps the other buckets and the first key, and adds the label only when the selection is non-empty |
| ConditionAssigner.AssignConditions | Deep/CSL.py:25-31 | no Filler fails first; otherwise the first failing sub-experiment's error is raised; otherwise Filler is kept unchanged and every other sub-experiment holds exactly its non-empty selection |
| ConditionAssigner.AssignAll | Deep/CSL.py:32-43 | the loop over the sub-experiments fails exactly when some selection fails, with the first such error, and otherwise leaves every sub-experiment holding exactly its non-empty selection |
| BucketShuffler.ShuffleBuckets | Deep/CSL.py:45-46 | every bucket becomes its shuffle, drawing after the buckets before it; keys are unchanged; each bucket and the whole labelled pool keep their multisets |
| BucketShuffler.ShuffledBucket | Deep/CSL.py:46 | what `random.shuffle` makes of the `i`-th bucket when its draws follow those of the buckets before it |
| BucketShuffler.StartNext | Deep/CSL.py:45-46 | each bucket's shuffle starts drawing where the previous bucket's draws end |
| BucketShuffler.ShuffledBucketsPermute | Deep/CSL.py:45-46 | shuffled buckets keep each bucket's multiset and the pool |
| Interleaver.ChooseExpt | Deep/CSL.py:57-59 | the drawn sub-experiment is still remaining and differs from `lastExpt` |
| Interleaver.PopStep | Deep/CSL.py:61-63 | appending a popped tail keeps the loop invariant: no label twice in a row, nothing lost, buckets only shortened from the tail |
| Interleaver.DropStep | Deep/CSL.py:64-65 | dropping a sub-experiment with an empty bucket keeps the loop invariant |
| Interleaver.Merge | Deep/CSL.py:50-65 | one sub-experiment survives and every other bucket is empty; the leftovers are the front of the survivor's bucket; the built list plus the leftovers is the whole pool; no two neighbours share a label; a non-empty list ends with a row of the survivor |
| Interleaver.InsertAllCount | Deep/CSL.py:71-72 | inserting the leftovers adds exactly them, labelled, to the list |
| Interleaver.InsertAll | Deep/CSL.py:71-72 | each leftover record, front to back, labelled and inserted at `randrange(len + 1)` from consecutive draws |
| Interleaver.InsertAllKeepsOrder | Deep/CSL.py:71-72 | insertions keep the order of the rows already placed |
| Interleaver.InsertAdjacent | Deep/CSL.py:72 | inserting a row labelled `l` can make only rows labelled `l` neighbours |
| Interleaver.InsertAllAdjacent | Deep/CSL.py:71-72 | after all insertions, only the survivor's rows can be neighbours |
| Interleaver.InsertLeftovers | Deep/CSL.py:71-72 | the loop performs exactly the drawn insertions, one draw per leftover |
| Interleaver.LeftoversPlaced | Deep/CSL.py:67-72 | the final list is the pool as a multiset, keeps the built list as a subsequence, and pairs only survivor rows |
| Interleaver.Interleave | Deep/CSL.py:48-72 | returns the survivor `remainingExpts[0]`, one of the keys; the list holds exactly the labelled records; it is the merged list, kept in order, with no neighbours sharing a label and ending (when non-empty) with a survivor row, plus inserted rows that are all the survivor's; only the survivor's rows can be neighbours; the warning is raised iff that survivor is not Filler; without a warning only Filler rows can be neighbours |
| Interleaver.SurvivorInserted | Deep/CSL.py:50-72 | the shape lines 50-72 give the list: the merged list kept in order, no two neighbours from one sub-experiment, its last row the survivor's, and every further row the survivor's |
| CSL.InputError | Deep/CSL.py:22-36 | the exception raised, in the order the code meets it: `EmptyRow` at the first empty row, then `MissingFiller`, then the first failing sub-experiment's error |
| CSL.Experiments | Deep/CSL.py:27-28 | the Latin-squared sub-experiments are exactly the labels other than Filler, without duplicates |
| CSL.KeptCount | Deep/CSL.py:25-43 | a kept row occurs in the kept list exactly as often as in the input, and any other row not at all |
| CSL.KeptFromInOrder | Deep/CSL.py:25-43 | kept rows keep their input order |
| CSL.FillerKept | Deep/CSL.py:29-30 | every Filler row is kept |
| CSL.AssignedPool | Deep/CSL.py:25-43 | the selection, labelled again, is exactly the multiset of kept rows |
| CSL.AssignedLabelCount | Deep/CSL.py:25-43 | within the bucket of its label, a record survives the selection exactly as often as its row is kept: Filler always, another label by its owed condition, an unseen label never |
| CSL.LatinSquare | Deep/CSL.py:15-74 | fails exactly with the input's error; otherwise returns, with the surviving label, a permutation of the kept rows that contains a row of the survivor and is a merged list without equal-label neighbours ending in a survivor row plus inserted survivor rows; only the survivor's rows can be neighbours, it warns iff the survivor is not Filler, and without a warning only Filler rows can be neighbours |
| CSL.SurvivorHasRow | Deep/CSL.py:52 | every sub-experiment left after the selection has a row, so the survivor has a row in the list |
| SwetsSurface.CurrentList | Surface/swetsSPR_surface.py:80-81 | the list number lies in `1..n` for every subject number |
| SwetsSurface.CurrentListMultiple | Surface/swetsSPR_surface.py:81 | a multiple of `n` runs on list `n` |
| SwetsSurface.CurrentListOther | Surface/swetsSPR_surface.py:80 | any other subject runs on list `subject mod n` |
| SwetsSurface.CurrentListShifted | Surface/swetsSPR_surface.py:80-81 | the list is `(subject - 1) mod n + 1` |
| SwetsSurface.CurrentListNext | Surface/swetsSPR_surface.py:80-81 | consecutive subjects cycle through lists `1..n` |
| SwetsSurface.SubjectListInRange | Surface/swetsSPR_surface.py:80-81 | with `number_lists = 3`, the condition lookup never fails for a sub-experiment with at least 3 conditions |
| SwetsSurface.Format | Surface/swetsSPR_surface.py:37-41 | `format` keeps the length, turns each `'_'` into `' '` and keeps every other character |
| SwetsSurface.FormatNoUnderscore | Surface/swetsSPR_surface.py:41 | the result has no `'_'` |
| SwetsSurface.FormatClean | Surface/swetsSPR_surface.py:41 | text without `'_'` is unchanged |
| SwetsSurface.FormatIdempotent | Surface/swetsSPR_surface.py:41 | formatting twice is formatting once |
| SwetsSurface.FormatExample | Surface/swetsSPR_surface.py:41 | `format("a_b") == "a b"` |

## Left out

- Reading the items file (Deep/CSL.py:16-18): the model starts from the parsed rows `stimList`. Opening files and csv parsing are I/O.
- The `print` of the warning (Deep/CSL.py:68): the model returns it as a flag.
- The distribution of the random calls. `random.choice`, `random.randrange` and `random.shuffle` take their draws from an arbitrary stream `rng`, reduced below the bound with `mod`. Python maps its float draws instead, and nothing is claimed about uniformity.
- Interleaver.ChooseExpt: the redraw of lines 57-59 until the choice differs from `lastExpt` is one draw among the other remaining sub-experiments. The state after each step is the same. The number of draws consumed, and so which later draws go where, is not. On a stream of draws that keeps naming `lastExpt`, the code's redraw loop never ends, while the model's single draw always does, so `Interleaver.Merge` terminates on every stream, including those on which the code would not.
- Python 2 dictionary order (Deep/CSL.py:27, 45, 52): keys are modelled in first-insertion order. This decides which sub-experiment's error is reported when several fail, which draws go to which bucket, and which sub-experiment survives the merge. The Ok half of the contract of `CSL.LatinSquare` (the multiset of kept rows, the adjacency and the warning) holds whatever the order.
- Interleaver.Merge: states the invariants of the list it builds, not the exact list a given stream of draws yields.
- CSL.LatinSquare: states the multiset, adjacency and warning of the result, not its exact order for a given stream of draws. The orders of the shuffle and of the insertions are given by `BucketShuffler.ShuffledBucket` and `Interleaver.InsertAll`; the order of the merge loop (lines 50-65) is fixed only by the body of `Interleaver.Merge`, whose contract states invariants, as noted above.
- `int()` accepts ASCII whitespace around the text and between the sign and the digits, as Python 2 does. Other Unicode whitespace and non-ASCII digits are not modelled, nor the separate parser Python 2 uses for numbers beyond the machine word.
- `decode_unicode` (Surface/swetsSPR_surface.py:43-47): byte decoding, not modelled.
- The rest of Surface/swetsSPR_surface.py is not part of this model. That covers the results directory, the subject dialog, log files, PsychoPy windows, stimuli, key polling, clocks and `questionTrial`. It is interactive I/O and real-time display.
