# latex-bib-doi-insert, modelled in Dafny

`latex_bib_doi_insert.py` walks through the entries of a BibTeX file in key order.
For each entry that has a title and authors but no DOI, it asks Crossref for the best
matching work. It scores the candidate against the entry with a bigram-overlap
similarity on the title and on the authors. Depending on the two scores it then
inserts the candidate's DOI under the entry's key line, leaves the text alone, or asks
the user.

This project models the string-processing and decision core of that script:

- `fuzzy.dfy`, module `Fuzzy`: `fuzzy_match`, with the score as an exact ratio
  (`Ratio(num, den)`, real value `num / den`). `None` stands for the
  `ZeroDivisionError` raised when `sub` has fewer than two words.
- `authors.dfy`, module `Authors`: `process_author_field`. Its accumulating loop is
  a method proved against a reference rendering (segments joined by `" and "`).
- `doi_insert.dfy`, module `DoiInsert`: `insert_doi`, as Python's `str.replace`
  (every non-overlapping occurrence, left to right), with its inverse `RemoveDoi`.
- `policy.dfy`, module `Policy`: the three-way threshold rule, and the prompt loop
  over a supplied sequence of replies.
- `bibfile.dfy`, module `BibProcess`: the loop of `bibfile_process`. The order is
  `sorted` by key. `Step` is one entry and `Run` is the whole loop.
  `ProcessEntry` and `BibfileProcess` are the imperative loops, proved equal to
  `Step` and `Run`.
- `scenarios.dfy`, module `Scenarios`: one entry, "Deep Learning" by "Smith, A",
  checked against an identical record and against an unrelated one.
- `strings.dfy` and `wrappers.dfy`: `sep.join`, `"".join`, `Option` and `Result`.

Notes on behaviour:

- `insert_doi` (line 34) uses `str.replace`, which rewrites every occurrence of
  `key + ",\n"`, not only the first; the model does the same.
- `fuzzy_match` lower-cases both operands: `sub` on line 55 and `orig` at the
  containment test on line 57. So case folding is symmetric.
- The key line is matched as plain text. An entry whose key ends with another
  entry's key also receives that entry's DOI (`DoiInsert.LongerKeyAlsoMatched`).
- The run stops with `Err(DivisionByZero)` when a title or author score is
  undefined. It stops with `Err(EndOfInput)` when the replies run out at the
  prompt; that is `input()` raising `EOFError`.

## Model

| member | source | states |
|---|---|---|
| `Fuzzy.FuzzyMatch` | latex_bib_doi_insert.py:46-58 | undefined (`None`, the ZeroDivisionError) exactly when `sub` has fewer than two words after stripping; otherwise `0 <= num <= den`, with `den` the length of all pairs joined |
| `Fuzzy.ScoreRange` | latex_bib_doi_insert.py:55-58 | the score is defined iff `sub` has at least two words, and then lies in [0, 1] |
| `Fuzzy.DegenerateHasNoPairs` | latex_bib_doi_insert.py:55-58 | with zero or one word there is no pair, the denominator is 0 and the result is `None` |
| `Fuzzy.PairsAreLong` | latex_bib_doi_insert.py:56-58 | the joined pairs are at least three characters per pair, so the denominator is positive whenever a pair exists |
| `Fuzzy.FullMatch` | latex_bib_doi_insert.py:56-58 | the score is 1 exactly when every adjacent word pair of `sub` occurs in the stripped, lower-cased `orig` |
| `Fuzzy.MatchedAll` | latex_bib_doi_insert.py:57-58 | the matched length equals the total length iff every pair is found |
| `Fuzzy.CaseInsensitive` | latex_bib_doi_insert.py:53-57 | changing letter case in either argument does not change the score |
| `Fuzzy.PunctuationIgnoredInOrig` | latex_bib_doi_insert.py:53-54 | inserting a character outside `[a-zA-Z0-9 ]` anywhere in `orig` alone does not change the score |
| `Fuzzy.PunctuationIgnoredInSub` | latex_bib_doi_insert.py:53-54 | inserting a character outside `[a-zA-Z0-9 ]` anywhere in `sub` alone does not change the score |
| `Fuzzy.Split` | latex_bib_doi_insert.py:55 | every word produced by `split()` is non-empty and contains no space |
| `Fuzzy.SplitJoin` | latex_bib_doi_insert.py:55-56 | splitting a single-space join of space-free non-empty words gives the words back |
| `Fuzzy.SelfMatch` | latex_bib_doi_insert.py:53-58 | a text of two or more lower-case words joined by single spaces scores 1 against itself |
| `Fuzzy.Asymmetric` | latex_bib_doi_insert.py:46-58 | swapping the arguments changes the score's value ("a b" vs "a b c": 0.5 one way, 1.0 the other) |
| `Fuzzy.ContainsNeedsRoom` | latex_bib_doi_insert.py:57 | a pair longer than `orig` is never found in it |
| `Fuzzy.Thresholds` | latex_bib_doi_insert.py:158-160 | comparing the score with 0.5 and 0.9 is the exact integer test `2*num <= den`, `10*num >= 9*den` |
| `Authors.Render` | latex_bib_doi_insert.py:61-72 | the reference rendering the loop is proved against: each author's segment (`family`, then `", " + given`), in list order, joined by `" and "` |
| `Authors.ProcessAuthorField` | latex_bib_doi_insert.py:61-72 | the loop with the `add` separator returns the segments (`family`, then `", " + given`) joined by `" and "` in list order |
| `Strings.JoinSnoc` | latex_bib_doi_insert.py:64-70 | appending a segment adds the separator only when a segment came before, which is the loop's step |
| `Authors.RenderPrefix` | latex_bib_doi_insert.py:64-70 | rendering one more author adds `" and "` (after the first) and that author's segment, which is one loop iteration |
| `Authors.RenderCons` | latex_bib_doi_insert.py:64-70 | the first author's segment comes first, followed by `" and "` and the rest when there is a rest |
| `Authors.RenderEmpty` | latex_bib_doi_insert.py:61-72 | an empty list renders as `""` |
| `Authors.RenderTwo` | latex_bib_doi_insert.py:61-72 | Smith/A and Doe/B render as `"Smith, A and Doe, B"` |
| `Authors.NamelessStillSeparated` | latex_bib_doi_insert.py:64-70 | a record with neither name is an empty segment that is still separated by `" and "` |
| `DoiInsert.ReplaceAll` | latex_bib_doi_insert.py:34 | `str.replace` for a non-empty pattern: left to right, each match is rewritten and scanning resumes after it, otherwise one character is copied; its properties are `ReplaceLength`, `NoNewPrefix` and `ReplaceSkipsTo` |
| `DoiInsert.InsertDoi` | latex_bib_doi_insert.py:33-34 | `insert_doi`: every key line `key + ",\n"` becomes the key line followed by `"  doi = {" + doi + "},\n"`; its inverse is `RemoveDoi` (`RemoveAfterInsert`) |
| `DoiInsert.InsertWithoutKeyLine` | latex_bib_doi_insert.py:34 | if `key + ",\n"` does not occur, the text is returned unchanged |
| `DoiInsert.CountOccurs` | latex_bib_doi_insert.py:34 | the left-to-right scan rewrites at least one occurrence iff the key line occurs |
| `DoiInsert.ReplaceLength` | latex_bib_doi_insert.py:34 | `str.replace` changes the length by (occurrences) x (replacement length - pattern length) |
| `DoiInsert.InsertLength` | latex_bib_doi_insert.py:34 | the text grows by (number of rewritten key lines) x (length of the DOI line) |
| `DoiInsert.NoNewPrefix` | latex_bib_doi_insert.py:34 | a replacement that starts with the pattern creates no new match at the front of the text |
| `DoiInsert.RemoveAfterInsert` | latex_bib_doi_insert.py:34 | deleting the inserted DOI lines gives back the input exactly |
| `DoiInsert.NotIdempotent` | latex_bib_doi_insert.py:34 | when the key line occurs, inserting lengthens the text and leaves the key line in place for another insertion |
| `DoiInsert.StackedInsert` | latex_bib_doi_insert.py:34 | a second insertion under the same key line goes above the first: key line, DOI B, DOI A |
| `DoiInsert.InsertUnderKeyLine` | latex_bib_doi_insert.py:34 | in a file whose key line occurs once (no match before it, none after it), the DOI line lands directly under the key line and the rest of the file is unchanged |
| `DoiInsert.StackedInsertInFile` | latex_bib_doi_insert.py:34 | in such a file, a second insertion stacks its DOI line directly under the key line, above the first: prefix, key line, DOI B, DOI A, rest |
| `DoiInsert.SecondInsertGoesAbove` | latex_bib_doi_insert.py:34 | `"key,\n"` with A then B gives `"key,\n  doi = {B},\n  doi = {A},\n"` |
| `DoiInsert.ReplaceSkipsTo` | latex_bib_doi_insert.py:34 | text before the first place the pattern starts is copied unchanged |
| `DoiInsert.LongerKeyAlsoMatched` | latex_bib_doi_insert.py:34 | the key line of `smith` also matches the end of the key line of `asmith`, which receives the DOI |
| `Policy.Decide` | latex_bib_doi_insert.py:158-163 | reject iff either score is at most 0.5; accept iff both are at least 0.9; ask iff both are above 0.5 and one is below 0.9 (exclusive and exhaustive) |
| `Policy.DecideMonotone` | latex_bib_doi_insert.py:158-163 | raising either score never moves the decision from accept to ask or from ask to reject |
| `Policy.DecideBoundaries` | latex_bib_doi_insert.py:158-163 | 0.5 rejects and 0.9 accepts: (0.5,1.0) reject, (0.51,0.89) ask, (0.9,0.9) accept, (0.4,0.95) reject |
| `Policy.Confirm` | latex_bib_doi_insert.py:164-172 | the `while resp` prompt loop over the supplied replies: skips anything but "y"/"n", answers with the first of those and the unread rest, `None` when the replies run out; characterised by `ConfirmFirstAnswer` |
| `Policy.ConfirmFirstAnswer` | latex_bib_doi_insert.py:164-172 | the prompt settles on the first reply that is exactly "y" or "n", says yes iff that reply is "y", leaves the later replies unread, and fails iff no such reply exists |
| `BibProcess.KeyLeTotal` | latex_bib_doi_insert.py:110 | any two keys are ordered one way or the other |
| `BibProcess.InsertByKey` | latex_bib_doi_insert.py:110 | inserting into a key-sorted list keeps it sorted and adds exactly that entry |
| `BibProcess.SortByKey` | latex_bib_doi_insert.py:110 | the entries are put in ascending key order, as a permutation of the input |
| `BibProcess.ProcessEntry` | latex_bib_doi_insert.py:116-176 | one loop iteration, including the `while resp` prompt loop, yields exactly `Step` |
| `BibProcess.BibfileProcess` | latex_bib_doi_insert.py:107-178 | the loop over the key-sorted entries threads `file_str` through and yields exactly `Run` on the sorted entries |
| `BibProcess.Step` | latex_bib_doi_insert.py:116-176 | one iteration of the loop over entries, given the search result: skip, DOI and not-found paths, both scores, the decision and the prompt; its properties are `NoOpPaths`, `OnlyFoundInserts` and the three decision lemmas |
| `BibProcess.Run` | latex_bib_doi_insert.py:116-178 | the loop over the entries in order, searching only entries that need it and stopping at the first exception; its properties are `RunAppend`, `RunNothingFound` and `RunWithoutKeyLines` |
| `BibProcess.NoOpPaths` | latex_bib_doi_insert.py:117-147 | an entry missing author or title, one with a non-empty `doi`, or one whose search found nothing leaves buffer and replies unchanged |
| `BibProcess.OnlyFoundInserts` | latex_bib_doi_insert.py:134-172 | a step either leaves the text alone or, for a searched entry with a candidate, inserts the candidate's DOI under that entry's key |
| `BibProcess.AcceptInsertsWithoutPrompt` | latex_bib_doi_insert.py:156-162 | both scores at least 9/10: the DOI is inserted and no reply is read |
| `BibProcess.RejectLeavesBuffer` | latex_bib_doi_insert.py:156-159 | either score at most 1/2: the buffer is unchanged |
| `BibProcess.AskFollowsFirstAnswer` | latex_bib_doi_insert.py:163-172 | in between, the step succeeds iff some reply is "y" or "n"; the first such reply decides, only "y" inserts, and the replies after it are left for later entries; without one the run ends at the prompt |
| `BibProcess.RunAppend` | latex_bib_doi_insert.py:116-176 | running over two lists in a row is running over the first and continuing from its end state |
| `BibProcess.RunNothingFound` | latex_bib_doi_insert.py:116-147 | when no search finds anything, the run returns the buffer untouched and reads no reply |
| `BibProcess.RunWithoutKeyLines` | latex_bib_doi_insert.py:116-176 | DOIs only go under key lines: if no entry's key line occurs, a completed run leaves the text unchanged |
| `Scenarios.SameTitleScoresOne` | latex_bib_doi_insert.py:156 | "Deep Learning" scores 13/13 against itself |
| `Scenarios.OtherTitleScoresZero` | latex_bib_doi_insert.py:156 | "Deep Learning" scores 0/13 against "Graph Theory" |
| `Scenarios.SameAuthorScoresOne` | latex_bib_doi_insert.py:157 | the rendered author "Smith, A" scores 7/7 against itself |
| `Scenarios.IdenticalRecordInserted` | latex_bib_doi_insert.py:116-176 | an identical Crossref record gets its DOI inserted under the entry's key without a prompt |
| `Scenarios.UnrelatedTitleRejected` | latex_bib_doi_insert.py:116-176 | a record with an unrelated title leaves the buffer unchanged |

## Left out

- `search_by_doi` and `search_by_title_and_author` (lines 74-105) make HTTP requests to Crossref and decode JSON. The title/author search is a supplied total function `Lookup`. The DOI search only feeds `print` output, so it has no effect on the buffer. Its failing `assert` on a bad status is not modelled.
- The title/author search can also end the run: a network or JSON error, or `item["author"]` raising `KeyError` for a Crossref record without authors (line 103). `Lookup` is total and cannot fail, so these crashes are not modelled. `Err` carries only the failure, not the buffer, so the model does not state the text a crash leaves in the `.out` file (the buffer as it was before the failing entry).
- `detex` (lines 36-44) runs an external program. An `Entry` carries the `author` and `title` fields after it has run.
- File reading, the `.out` write after each entry whose search returned a candidate (lines 174-176, inside the `else` of `if res is None`), all `print` output and the pybtex parser are I/O or a foreign library. A run yields the final buffer instead of the file contents.
- The `journal` lookup (lines 122-128) is computed and never used, so it is left out.
- `input()` itself is replaced by a finite sequence of replies. Running out of replies is the `EOFError` that `input()` raises at end of input.
- `__main__` argument and path handling (lines 181-189) is command-line plumbing.
- Fuzzy.FuzzyMatch: the score is an exact ratio, not an IEEE double. Python's correctly rounded division agrees with it at the 0.5 and 0.9 thresholds except at pathologically large denominators.
- Fuzzy.Split: models `str.split()` on already-stripped text, where a space is the only whitespace left.
- BibProcess.SortByKey: proves sortedness and permutation but not stability. Stability does not matter here because the parsed entries have unique keys.
