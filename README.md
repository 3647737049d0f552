# Data augmentation for CoLA: a Dafny model

`metal/mmtl/glue/augment_datasets.py` builds extra training data for CoLA, the
grammatical-acceptability task of GLUE, out of the sentences of another GLUE task.
For each text of the source dataset it selects one sentence that matches a "slice":

- a question;
- a sentence holding a word from a category list (wh-words, question words,
  negations, "but", temporal words, possessives, comparatives);
- in the "all" mode, the whole text when it has 2 to 14 words.

The selected sentence is kept as a positive (acceptable) example. A negative
(unacceptable) example is made from it by deleting one or two random words, or by
exchanging two random interior words. The two lists are then written out in pairs.
When the source task is CoLA itself, its texts are sorted by their labels instead.

The model has five modules:

| file | module | what it holds |
|---|---|---|
| `results.dfy` | `Results` | `Option`, `Result` and the exceptions the script can raise (`IndexError`, `KeyError`) |
| `strings.dfy` | `Strings` | Python's `str.split(sep)`, `sep.join`, `str.replace` and `str.strip`, with the laws the model relies on (`Join(Split(s, sep), sep) == s`, splitting a space-free join gives the words back, and more) |
| `selection.dfy` | `Selection` | `slice_mappings`, `preprocess_text`, `fix_capitalization`, the three extractors, `select_sentences` |
| `negatives.dfy` | `Negatives` | `remove_random_words`, `swap_random_words`, `augment_negative` |
| `driver.dfy` | `Driver` | the collection loop of `main`, the pairing for output, the `fix` table |

Modelling conventions:

- Words are exactly Python's `split(" ")`. Empty words are kept, and `" ".join` is its inverse.
- Each `random.randint(a, b)` is a parameter, and a `requires` keeps it within `a..b`.
- An exception the script would raise becomes a `Failure` value. Examples are the `IndexError` of `fix_capitalization` on a blank part and the `KeyError` of an unknown slice type.
- `upper`, `lower` and `capitalize` are uninterpreted functions. They come in a `CaseOps` value.
- The word-category lists are uninterpreted sequences. They come in a `Categories` value.

The code decides these points:

- `preprocess_text` splits on `". |.\t|.\n"` with `str.split`. That is one literal eight-character separator, not three alternatives.
  - A text such as `"I do not know. I am tired."` therefore stays one part (`TwoSentencesOnePart`).
  - The keyword extractor returns the whole text, not its first sentence.
- `select_sentences` never calls `get_comparative_sentences`. The `comp` slice goes through `get_sentences_with` with the comparatives list. The comparative extractor is modelled all the same.
- A corrupted sentence can be empty. `split(" ")` turns a trailing space into an empty word, so deleting the first word of `"a "` leaves `""` (`RemovalCanEmpty`).
- A one-word input to `remove_random_words` raises `IndexError`. Any one-word sentence the driver selects therefore makes it fail (`OneWordQuestionFails`). Every slice other than "questions" selects at least two words (`SelectedShort`, `TextStepSucceeds`). The "questions" slice selects a one-word part only if its first word, which then still carries the `?`, lower-cases to an entry of the question-word list. That list is not part of this model, so whether this can happen depends on its contents.
- Outside CoLA, no collected example has more than fourteen words (`CollectedShort`). CoLA texts are appended as they are, with no bound on their length.
- `fix_capitalization` on a part that is blank after stripping raises `IndexError`. This happens, for example, on an empty text, or on an empty part after the separator. The model keeps the exception and does not skip the part.

## Model

| member | source | states |
|---|---|---|
| `Selection.SliceMappings` | metal/mmtl/glue/augment_datasets.py:25-33 | the table has exactly the seven slice types as keys; `but` maps to `["but"]`, `neg` to the negations, `comp` to the comparatives |
| `Selection.SelectSentences` | metal/mmtl/glue/augment_datasets.py:36-46 | "questions" is `get_questions` with the question words; a slice type of the table is `get_sentences_with` with that slice's words; in the "all" mode the text comes back unchanged exactly when it has 1 to 13 spaces (2 to 14 words), else None, and never fails; any other slice type raises `KeyError` |
| `Selection.PreprocessText` | metal/mmtl/glue/augment_datasets.py:100-104 | at least one part; no part holds `"` or the boundary literal |
| `Selection.PreprocessRoundTrip` | metal/mmtl/glue/augment_datasets.py:100-104 | joining the parts with the boundary literal gives back the text after the two replacements |
| `Selection.PreprocessKeepsPlainText` | metal/mmtl/glue/augment_datasets.py:101-103 | a text with no `"`, no `'` and no `\|` is returned whole as the only part |
| `Selection.TwoSentencesOnePart` | metal/mmtl/glue/augment_datasets.py:103 | `"I do not know. I am tired."` is not split |
| `Selection.FixCapitalization` | metal/mmtl/glue/augment_datasets.py:107-112 | raises `IndexError` exactly when the stripped sentence is empty; otherwise the result is non-empty |
| `Selection.FixCapitalizationChanges` | metal/mmtl/glue/augment_datasets.py:107-112 | the result is as long as the stripped sentence; its first character is upper-cased; every other changed character was an `i` between a space and a space or `'`, and is now `I` |
| `Selection.SearchStopsAtFirst` | metal/mmtl/glue/augment_datasets.py:62-68 | when all parts before `k` are skipped and part `k` is not, the extractor returns what part `k` gives: its pick or its exception |
| `Selection.SearchFindsNothing` | metal/mmtl/glue/augment_datasets.py:62-68 | an extractor returns None exactly when every part is skipped |
| `Selection.SearchSound` | metal/mmtl/glue/augment_datasets.py:62-68 | whatever an extractor returns was picked from one of the parts |
| `Selection.Search` | metal/mmtl/glue/augment_datasets.py:62-68 | the loop shared by the three extractors: when it raises, the exception is the one some part's own step raised |
| `Selection.Examine` | metal/mmtl/glue/augment_datasets.py:63-68 | the step for one part raises exactly when the part is blank after stripping, and then the error is IndexError |
| `Selection.SearchRaisesIndexError` | metal/mmtl/glue/augment_datasets.py:62-68 | so the only exception an extractor loop can raise is IndexError |
| `Selection.GetQuestions` | metal/mmtl/glue/augment_datasets.py:60-68 | `get_questions`: its only exception is IndexError; what it returns is stated by `Selection.QuestionShape`, `Selection.SearchStopsAtFirst`, `Selection.SearchFindsNothing` and `Selection.SearchSound` |
| `Selection.GetSentencesWith` | metal/mmtl/glue/augment_datasets.py:71-82 | `get_sentences_with`: its only exception is IndexError; what it returns is stated by `Selection.KeywordSentenceShape` and the three search lemmas |
| `Selection.GetComparativeSentences` | metal/mmtl/glue/augment_datasets.py:85-97 | `get_comparative_sentences`: its only exception is IndexError; what it returns is stated by `Selection.ComparativeSentenceShape` and the three search lemmas |
| `Selection.ExaminedPart` | metal/mmtl/glue/augment_datasets.py:63-64 | a picked sentence comes from a part that normalises without error |
| `Selection.QuestionShape` | metal/mmtl/glue/augment_datasets.py:60-68 | a question from `get_questions` ends in `?`, has fewer than 15 words, and its first word lower-cased is a question word |
| `Selection.QuestionPickShape` | metal/mmtl/glue/augment_datasets.py:64-68 | the question test returns the part itself, ending in `?`, with a question word first |
| `Selection.ScanKeywordsSpec` | metal/mmtl/glue/augment_datasets.py:78-82 | with no search word among the words, nothing; otherwise a part ending in `.` is returned as is, one ending in `?` is dropped, any other gets a `.` |
| `Selection.AppendDotKeepsWords` | metal/mmtl/glue/augment_datasets.py:82 | appending `.` keeps the word count; each word survives or, if last, carries the `.` |
| `Selection.KeywordPickShape` | metal/mmtl/glue/augment_datasets.py:75-82 | a picked part ends in `.`, has 2 to 14 words, and mentions a search word as a word or as its last word before the `.` |
| `Selection.KeywordSentenceShape` | metal/mmtl/glue/augment_datasets.py:71-82 | the same for the result of `get_sentences_with` |
| `Selection.ScanComparativeSpec` | metal/mmtl/glue/augment_datasets.py:92-97 | the part is picked exactly when one of its words is a comparative or ends in `est` or `ier` |
| `Selection.ComparativePickShape` | metal/mmtl/glue/augment_datasets.py:89-97 | a picked part has 2 to 14 words, one of them a comparative or ending in `est`/`ier` |
| `Selection.ComparativeSentenceShape` | metal/mmtl/glue/augment_datasets.py:85-97 | the same for the result of `get_comparative_sentences` |
| `Selection.SelectedShort` | metal/mmtl/glue/augment_datasets.py:36-46 | a sentence `select_sentences` selects has at most fourteen words in every slice, and at least two outside "questions" |
| `Strings.Strip` | metal/mmtl/glue/augment_datasets.py:108 | the stripped string is the slice of the input left after removing a whitespace prefix and a whitespace suffix; it starts and ends with a non-whitespace character, and is empty exactly when the input is all whitespace |
| `Strings.SplitCharCount` | metal/mmtl/glue/augment_datasets.py:40 | `split(" ")` gives one more word than there are spaces |
| `Strings.SplitJoin` | metal/mmtl/glue/augment_datasets.py:103 | joining the pieces of a split with the separator gives the string back |
| `Strings.JoinSplit` | metal/mmtl/glue/augment_datasets.py:143 | splitting a join of separator-free words gives the words back |
| `Strings.Split` | metal/mmtl/glue/augment_datasets.py:103 | `str.split(sep)` always gives at least one piece; its inverse is stated by `Strings.SplitJoin` and its piece count by `Strings.SplitCharCount` |
| `Strings.Join` | metal/mmtl/glue/augment_datasets.py:143 | `sep.join(parts)` starts with the first part, followed by `sep` when a second part comes; its inverse is stated by `Strings.JoinSplit` |
| `Strings.Replace` | metal/mmtl/glue/augment_datasets.py:101-102 | `str.replace` with a replacement as long as the pattern keeps the length; `Strings.ReplaceMiddle` and `Strings.ReplaceIsSplitJoin` state the rest |
| `Strings.SplitAppend` | metal/mmtl/glue/augment_datasets.py:127 | appending a non-separator character extends only the last piece |
| `Strings.ReplaceMiddle` | metal/mmtl/glue/augment_datasets.py:110-111 | a replacement that keeps the first and last characters of the pattern keeps the length and changes only middle characters of occurrences |
| `Negatives.RemovedPositions` | metal/mmtl/glue/augment_datasets.py:119-126 | the deleted input positions: one for at most three words, two distinct ones otherwise, `idx1` among them; position 0 goes exactly when `idx1 == 0` or `idx2 == 0`, and the last position exactly when `idx1 == n - 1` or `idx2 == n - 2` (the code's conditions for capitalising and for the `.`) |
| `Negatives.SurvivorsInOrder` | metal/mmtl/glue/augment_datasets.py:120-123 | the remaining words are an in-order subsequence of the input that skips exactly the deleted positions, one or two words shorter |
| `Negatives.DeleteEarlier` | metal/mmtl/glue/augment_datasets.py:120-123 | a second deletion before the first removes the input word at `idx2` |
| `Negatives.DeleteLater` | metal/mmtl/glue/augment_datasets.py:120-123 | a second deletion at or after the first removes the input word at `idx2 + 1` |
| `Negatives.DeletionsLeaveSurvivors` | metal/mmtl/glue/augment_datasets.py:119-123 | `del words[idx1]` followed, for more than three words, by `del words[idx2]` leaves exactly the survivors of the deleted input positions |
| `Negatives.RemovedWords` | metal/mmtl/glue/augment_datasets.py:115-129 | fails, with `IndexError`, exactly on a one-word input |
| `Negatives.RemoveRandomWords` | metal/mmtl/glue/augment_datasets.py:115-129 | the in-place deletions, the capitalisation and the final `.` compute `RemovedWords`. That is the survivors joined by spaces; the first is capitalised when input position 0 went, and a `.` is appended when the last input position went. A one-word input raises `IndexError` |
| `Negatives.RemovedWordsWords` | metal/mmtl/glue/augment_datasets.py:115-129 | read back as words, the result has one word fewer for at most three words and two fewer otherwise; each word is the input word at its origin, capitalised if first and the first input word went, with a `.` if last and the last input word went |
| `Negatives.FinishedWords` | metal/mmtl/glue/augment_datasets.py:124-129 | capitalising the first word and appending `.` change only the first and last word |
| `Negatives.RemovalCanEmpty` | metal/mmtl/glue/augment_datasets.py:115-129 | deleting the first word of `"a "` gives the empty string |
| `Negatives.FirstDistinct` | metal/mmtl/glue/augment_datasets.py:137-139 | the resampling loop stops at the first pair of distinct draws |
| `Negatives.SwapNeedsFourWords` | metal/mmtl/glue/augment_datasets.py:137-139 | two distinct draws from `randint(1, n - 2)` exist only for at least four words |
| `Negatives.SwapRandomWords` | metal/mmtl/glue/augment_datasets.py:132-143 | the resampling loop and the in-place exchange compute `SwappedText`: the words with the first distinct draw pair exchanged, joined by spaces |
| `Negatives.SwappedExchangesTwo` | metal/mmtl/glue/augment_datasets.py:140-142 | exactly the two drawn positions are exchanged; the multiset of words and the first and last words are kept |
| `Negatives.SwappedJoinedWords` | metal/mmtl/glue/augment_datasets.py:143 | the joined swapped words read back as the swapped words |
| `Negatives.SwappedWordsKeep` | metal/mmtl/glue/augment_datasets.py:140-143 | the joined list with two inner words exchanged reads back as that list, with the same count, multiset, first word and last word |
| `Negatives.SwappedTextWords` | metal/mmtl/glue/augment_datasets.py:132-143 | read back as words, the swapped text has the input's word count, multiset of words, first word and last word |
| `Negatives.Augmented` | metal/mmtl/glue/augment_datasets.py:49-57 | fails, with `IndexError`, exactly on a one-word example |
| `Negatives.AugmentNegative` | metal/mmtl/glue/augment_datasets.py:49-57 | computes `Augmented`: deletion for at most three words or a coin of 0, the swap otherwise |
| `Negatives.AugmentedWordCount` | metal/mmtl/glue/augment_datasets.py:49-57 | a negative has one word fewer (at most three words), two fewer (deletion) or as many (swap) |
| `Driver.TextStep` | metal/mmtl/glue/augment_datasets.py:206-219 | one text only appends, at most two examples; outside CoLA both lists grow by the same amount, and a new positive is what `select_sentences` returns for the text while the new negative is `augment_negative` of that positive under the text's draws |
| `Driver.TextStepCollects` | metal/mmtl/glue/augment_datasets.py:214-219 | outside CoLA a raising selection or corruption ends the text with that exception, a None selection leaves both lists unchanged, and a selected sentence is always appended together with its corruption |
| `Driver.TextStepPositives` | metal/mmtl/glue/augment_datasets.py:208-216 | a text that does not raise appends exactly the positives it is to contribute: its CoLA text for a row labelled `1`, or its selected sentence |
| `Driver.RunTextsPositives` | metal/mmtl/glue/augment_datasets.py:206-216 | a row that does not raise appends exactly the positives of all its texts, in order: no selection is dropped |
| `Driver.RunRowsPositives` | metal/mmtl/glue/augment_datasets.py:205-221 | a run that does not raise has appended the positives of a first stretch of rows, and it stops before the last row only when the lists hold more than 5000 examples |
| `Driver.RunRowsUnderCapPositives` | metal/mmtl/glue/augment_datasets.py:205-221 | a run that ends with at most 5000 examples went through every row and appended the positives of all of them |
| `Driver.CollectExamples` | metal/mmtl/glue/augment_datasets.py:203-221 | the row loop with its after-row `break` computes the row-by-row specification from empty lists |
| `Driver.CollectText` | metal/mmtl/glue/augment_datasets.py:207-219 | one turn of the inner loop, appending to the lists, is proved equal to `Driver.TextStep` |
| `Driver.CollectRow` | metal/mmtl/glue/augment_datasets.py:206-219 | the inner loop over a row's texts, stopping at the first exception, is proved equal to `Driver.RunTexts` |
| `Driver.RunTexts` | metal/mmtl/glue/augment_datasets.py:206-219 | the loop over one row's texts only appends to both lists (the method `Driver.CollectRow` is proved equal to it) |
| `Driver.RunRows` | metal/mmtl/glue/augment_datasets.py:205-221 | the loop over the rows only appends to both lists |
| `Driver.RunTextsAppends` | metal/mmtl/glue/augment_datasets.py:206-219 | a row only appends, at most two examples per text |
| `Driver.RunRowsBounded` | metal/mmtl/glue/augment_datasets.py:205-221 | the lists only grow, and a run started under the cap ends with at most 5000 plus two per text of the largest row |
| `Driver.RunTextsBalanced` | metal/mmtl/glue/augment_datasets.py:213-219 | outside CoLA a row adds as many negatives as positives |
| `Driver.RunRowsBalanced` | metal/mmtl/glue/augment_datasets.py:205-221 | outside CoLA the whole run adds as many negatives as positives |
| `Driver.RunTextsCola` | metal/mmtl/glue/augment_datasets.py:208-212 | a CoLA row's texts all go to the positives when its label is `1`, else all to the negatives |
| `Driver.RunRowsCola` | metal/mmtl/glue/augment_datasets.py:205-221 | a CoLA run never fails |
| `Driver.TextStepSucceeds` | metal/mmtl/glue/augment_datasets.py:214-219 | outside CoLA and the "questions" slice, a text whose selection does not raise never fails |
| `Driver.OneWordQuestionFails` | metal/mmtl/glue/augment_datasets.py:214-219 | a selected one-word sentence makes the text fail with `IndexError` |
| `Driver.TextStepShort` | metal/mmtl/glue/augment_datasets.py:214-219 | outside CoLA a text appends only sentences of at most fourteen words: the selection and its corruption |
| `Driver.RunTextsShort` | metal/mmtl/glue/augment_datasets.py:206-219 | the same over one row |
| `Driver.RunRowsShort` | metal/mmtl/glue/augment_datasets.py:205-221 | the same over the rows, from any lists already within the bound |
| `Driver.CollectedShort` | metal/mmtl/glue/augment_datasets.py:203-221 | outside CoLA every positive and every negative the loop collects from empty lists has at most fourteen words |
| `Driver.TextStepPaired` | metal/mmtl/glue/augment_datasets.py:214-219 | outside CoLA a text keeps every negative a corruption of the positive at the same index |
| `Driver.RunTextsPaired` | metal/mmtl/glue/augment_datasets.py:206-219 | the same over one row's texts |
| `Driver.RunRowsPaired` | metal/mmtl/glue/augment_datasets.py:205-221 | the same over the rows |
| `Driver.CollectedPaired` | metal/mmtl/glue/augment_datasets.py:203-221 | outside CoLA, from empty lists, the loop yields as many negatives as positives, and negative `i` is what `augment_negative` makes of positive `i` for some draws in range |
| `Driver.SaveRows` | metal/mmtl/glue/augment_datasets.py:152-154 | `2 * min` rows, alternating `(task, 1, "?", positive i)` and `(task, 0, "?", negative i)` |
| `Driver.PrintLines` | metal/mmtl/glue/augment_datasets.py:225-227 | `2 * min` lines, alternating `positive i + " 1"` and `negative i + " 0"` |
| `Driver.NonColaPairsAll` | metal/mmtl/glue/augment_datasets.py:205-227 | outside CoLA the lists end equally long, so pairing writes every example |
| `Driver.TaskKey` | metal/mmtl/glue/augment_datasets.py:178-188 | the key lookup raises `KeyError` exactly for a name outside the nine datasets |

## Left out

- Command-line parsing (`get_commandline_args`). The slice type and the source task are fields of `Driver.Config`.
- Dataset loading and the path and configuration lookups: `load_tsv`, `tsv_path_for_dataset` and `get_task_tsv_config`, with the `max_datapoints` limit. The loaded text blocks and labels are parameters. `Driver.RowsFit` assumes that `load_tsv` returns as many blocks as labels.
- File writing with `csv.writer` and its quoting, and the `print` calls. The rows and lines they would emit are returned as sequences.
- The random number generator. Each draw is a parameter within its range, and the uniform distribution is not modelled.
- The resampling loop of `swap_random_words` is modelled as a loop over a finite stream of draws, one of which is distinct. For fewer than four words, Python's `randint(1, n - 2)` raises `ValueError` (n ≤ 2) or loops forever (n = 3). These inputs are excluded by the precondition, and `augment_negative` never passes them.
- Unicode case mapping. `upper` maps one character to one character, so mappings such as `ß` to `SS` are not modelled.
- `Negatives.RemovedWordsWords`, `Negatives.AugmentedWordCount` and the word-count bounds built on them (`Driver.TextStepShort`, `Driver.RunTextsShort`, `Driver.RunRowsShort`, `Driver.CollectedShort`) assume that `capitalize` never puts a space into a word.
- The contents of the word-category lists in `word_categories`, which is not part of this model.
- The unused `pandas` import and the unused module-level `slice_type` default.
- When an exception ends the run, the model returns the `Failure` and not the partly filled lists. Python would stop with the lists unused.
- The `fix` table's only use is the `get_task_tsv_config` lookup. `Driver.TaskKey` models the lookup, including its `KeyError`.
