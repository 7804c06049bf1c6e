# Accent dataset tools: segmentation engine and selection scripts

This project models, in Dafny, the pure logic of a toolkit that builds accent-classification
datasets from Mozilla Common Voice and from long recordings aligned word by word by the Gentle
forced aligner.

The segmentation engine turns an alignment into training clips in two stages:

- **Word merger** (`merge_short_words`, three copies). Words the aligner did not place
  (`case != "success"`) are skipped. A success word at least `MIN_WORD_DURATION` long becomes
  a token of its own. A shorter one is glued onto the next success word. When no success word
  follows, it is glued back onto the last token or emitted alone. The copies differ only in
  the threshold (0.2 s, 0.5 s, 0.25 s) and in whether the backward merge exists, so
  `Merger.MergeShortWords` is written once over a `Config`. It is proved equal to a
  reference grouping of the success words (`Pair`, then `FixTail`). `MergeRules` derives each
  copy's rules from that.
- **Clip packer** (`cut_audio_segments` of text_splice.py). It rejects recordings shorter than
  1.5 s. It then accumulates every token but the last and writes a clip whenever the
  accumulator reaches 1.5 s, through the force-split branch when it has passed 3.0 s. Times
  are whole milliseconds. `Packer.CutAudioSegments` is proved to produce the unique greedy
  packing described by `GreedyPacking`. The other two copies of `cut_audio_segments` write one
  clip per token (`TokenClips.CutPerToken`).

The dataset-selection scripts are modelled as pure functions over the lines of a TSV file:

- `CommonVoice`: the row parser, with digit-guarded vote counts.
- `ScoreOrder`: the stable ranking by `(score != 0, -score)`.
- `PickAudio`: `create_set` in pick_audio.py, with Polish injection and the per-speaker, size-capped selection.
- `LabelScript`: label_script.py, covering filtering, ranking, batching and the folder name.
- `TestModel`: the evaluation of test_model.py, covering its own column layout and the hit, prediction and export counters.
- `SpeakerCount`: both copies of count_uniqe_speakers.py.
- `OtherAccents`: create_other_acc_dataset.py.
- `Alignment.IsAligned`: `is_aligned` of test_gentle.py.

Things the scripts take from the outside world are parameters of the model:

- whether a clip file exists and is long enough: `usable`;
- the multi-line Slavic regular expression: `slavic`;
- the trained classifier: `predict`;
- whether an output directory already held files: `dirHadEntries`.

Behaviour of the code that a reader might not expect, each proved as stated:

- **One merged token gives no clip.** A recording whose words merge into a single token
  yields no clip at all, because the packer always withholds the last token
  (`PackerCases.MergedPairGivesNoClip`).
- **Merged tokens may stay short.** A merged token is not re-checked against the
  minimum and may stay shorter than it (`MergeRules.MergedTokenNotRechecked`).
- **Inverted spans are kept.** A word whose end precedes its start is not rejected
  (`MergeRules.InvertedWordKept`).
- **Clips can exceed 3.0 s.** A clip can be longer than 3.0 s (`PackerCases.ClipLongerThanMax`).
- **The final flush never fires.** After every loop step the accumulator is below 1.5 s, so
  the post-loop check at text_splice.py:116-118 never writes.
- **A short labelling file still gets a second batch.** With fewer than ten rows, the first
  Enter in label_script.py `main` fetches a second, empty batch at index 10, because the first
  call's end flag is overwritten before it is tested (`LabelScript.BatchSizes`).

## Model

| member | source | states |
|---|---|---|
| Merger.MergeShortWords | text_splice.py:34-76 | the loop's tokens are exactly the tokens of the reference grouping of the success words: words that are not successes contribute nothing wherever they stand |
| Merger.MergeFromClosed | text_splice.py:37-75 | the loop's invariant: continuing from index i with tokens m gives m plus the reference tokens of the success words still ahead, or m with its last token extended when one short success word is left and the backward merge exists |
| Merger.Pair | text_splice.py:43-64 | the forward rules cut the success words into groups that cover them exactly, in order; each group but the last is one long word or a short word with its successor; the only group is a lone short word exactly when there is a single success word and it is short |
| MergeRules.GroupsShape | text_splice.py:65-75 | after the backward merge the groups still cover the success words; the last group is regular, a lone short word (only if it is the only group or backward merging is off), or a regular group with a trailing short word appended |
| MergeRules.MergeRulesHold | text_splice.py:34-76 | for every configuration: one token per group, at most one per success word and none exactly when there is no success word, each token built by its rule, and the joined token texts equal the joined success-word texts, so every success word appears once, in order |
| MergeRules.MergeIgnoresFailures | text_splice.py:37-53 | two word lists with the same success words give the same tokens: skipped words, including those passed over by the look-ahead, never matter |
| MergeRules.MergeOfSuccessOnly | text_splice.py:39-41 | removing the non-success words first changes nothing |
| MergeRules.MergeAppendOnly | text_splice_copy.py:23-59 | tokens already emitted are never changed except that the backward merge may extend the last one, keeping its start; without the backward merge the loop only appends |
| MergeRules.SpliceMergeShortWords | text_splice.py:34-76 | text_splice.py's merger (0.2 s, backward merge) follows the four rules and preserves the success words in order |
| MergeRules.GentleMergeShortWords | text_splice_gentle.py:37-80 | text_splice_gentle.py's merger (0.5 s, backward merge) follows the four rules and preserves the success words in order |
| MergeRules.CopyMergeShortWords | text_splice_copy.py:23-59 | text_splice_copy.py's merger (0.25 s, no backward merge) follows the rules, so a trailing short word is always its own token |
| MergeRules.MergedTokenNotRechecked | text_splice.py:55-64 | two short words merge into "a b" spanning first start to second end, even though the merged token is still below the threshold |
| MergeRules.InvertedWordKept | text_splice.py:43-48 | a success word ending before it starts is emitted unchanged as a token |
| MergeRules.OverlapKept | text_splice.py:43-48 | two long success words with overlapping spans give two overlapping tokens |
| MergeRules.TrailingShortWordSplice | text_splice.py:65-69 | with the backward merge a trailing short word is appended to the last token: text extended by a space and the word, end moved, start kept |
| MergeRules.TrailingShortWordCopy | text_splice_copy.py:54-58 | without the backward merge the same trailing short word becomes a token of its own |
| Alignment.IsAligned | test_gentle.py:19-26 | the result is aligned iff every word's status is "success", which holds when the word list is missing or empty; a missing status counts as failure and the times are never inspected |
| Packer.Ms | text_splice.py:93-94 | `int(t * 1000)` truncates toward zero, for negative times too |
| Packer.SliceMs | text_splice.py:96 | a slice never exceeds the recording, an in-range slice lasts end minus start, and an empty or inverted slice lasts 0 |
| Packer.CutAudioSegments | text_splice.py:79-126 | recordings under 1.5 s are rejected before anything is written; otherwise the clips are the greedy packing of all tokens but the last; False with no clip exactly when the packing is empty and the directory held nothing |
| Packer.GreedyPackingUnique | text_splice.py:92-113 | the greedy packing of a token list is unique: any two clip lists that cut it into shortest runs reaching 1.5 s, with less than 1.5 s left over, are equal |
| Packer.NoViableUnique | text_splice.py:120-124 | a packing is empty exactly when the empty clip list is the packing, so "no valid segments" is decided by the tokens alone |
| Packer.ClipBounds | text_splice.py:99-113 | every clip lasts at least 1.5 s and less than 1.5 s plus the slice of its last token, so the force split can write clips longer than 3.0 s |
| Packer.LastTokenUnused | text_splice.py:92 | the clips never use the last token, and fewer than two tokens give no clip |
| Packer.ClipNameIndex | text_splice.py:100 | a clip name read back gives the index it was written with |
| Packer.ClipNamesDistinct | text_splice.py:100-104 | clips with different indices have different file names, so no clip overwrites another |
| PackerCases.TenSteadyTokens | text_splice.py:92-104 | ten 0.4 s tokens in a 4.0 s recording give exactly two clips of four tokens and 1.6 s each, named 000_… and 001_…, leaving one token over and the last withheld |
| PackerCases.ClipLongerThanMax | text_splice.py:106-113 | a 4.0 s first token is written through the force split as a 4.0 s clip named 000_long.wav |
| PackerCases.MergedPairGivesNoClip | text_splice.py:92-124 | two words the merger joins into one token give no clip, because that token is the withheld last one |
| PackerCases.MergedPair | text_splice.py:55-64 | a 0.05 s word followed by a 1.75 s word become the single token "a b" from the first start to the second end |
| TokenClips.CutPerToken | text_splice_gentle.py:82-90 | one clip per token, in order, with no filtering or rejection; clip i is cut from `Ms(start)` to `Ms(end)` of token i, lasts that clamped slice, its name starts with index i and spells the token text back when the text has no underscore, and names are distinct |
| TokenClips.NameTextRoundTrip | text_splice_copy.py:69 | a token text without underscores is read back from its clip name, where its spaces were written as underscores |
| CommonVoice.RawEntryRow | create_other_acc_dataset.py:17-22 | a written row of at least ten tab-free fields, header or not, reads back as the entry of its fields 0, 1, 3, 5, 6 and 9 |
| CommonVoice.HeaderSkipped | pick_audio.py:13-24 | a written header row is skipped by `parse_line` but read as an entry by the reader without a header check |
| CommonVoice.ParseRow | count_uniqe_speakers.py:13-24 | a row written as tab-separated fields parses back to those fields and their entry |
| CommonVoice.CountRoundTrip | pick_audio.py:21-22 | an all-digit vote field counts as its decimal value |
| CommonVoice.CountNonDigits | label_script.py:59-60 | a vote field with any non-digit counts as 0 |
| CommonVoice.WriteRows | label_script.py:94-95 | one `filename\ttranscript` row per entry, in the entries' order |
| ScoreOrder.KeyLeIsTupleOrder | pick_audio.py:53 | the order used is Python's tuple order on `(score != 0, -score)` |
| ScoreOrder.KeyLeTotal | label_script.py:89 | the sort key orders any two scores |
| ScoreOrder.SortByScore | test_model.py:99 | the sort is a permutation, ordered by the key: score 0 first, then descending scores; it is stable, keeping the input order among equal scores |
| PickAudio.DataPath | pick_audio.py:119-126 | the dataset choice, checked alike by `pick_audio` at lines 146-153, succeeds exactly for "big_data" and "small_data", giving the 21.0 and the 20.0 delta corpus paths; any other choice is the `ValueError` |
| PickAudio.GroupsDisjoint | pick_audio.py:132-143 | the British, American and other accent patterns match disjoint accents |
| PickAudio.RoutesExclusive | pick_audio.py:47-51 | with injection a "pol" accent goes only to the Polish list; without injection the main pattern alone decides |
| PickAudio.RouteEntries | pick_audio.py:41-51 | the reading loop's two lists are exactly the parsed rows of each route, in file order |
| PickAudio.RouteWith | pick_audio.py:41-51 | for any row parser, the Polish list holds the parsed rows of the Polish route and the main list those of the main route, each in file order |
| PickAudio.NoPolishWithout | pick_audio.py:47 | without injection the Polish list stays empty |
| PickAudio.CandidatesShape | pick_audio.py:53-59 | the candidates are the Polish rows in file order, then the main-pattern rows sorted by the score key |
| PickAudio.SelectEntries | pick_audio.py:61-81 | the selection is the first usable candidate of every speaker, in candidate order, cut at `size` (at least one, since the cap is checked after appending) |
| PickAudio.SelectionShape | pick_audio.py:64-81 | at most `size` rows (at least one allowed), each usable and a candidate, no speaker twice |
| PickAudio.OutputLineFields | pick_audio.py:83-87 | an output row splits back into filename, transcript, score and accent |
| PickAudio.CreateSet | pick_audio.py:27-87 | the written rows are the selected entries, in order, as output rows |
| LabelScript.KeptStep | label_script.py:75-87 | one more row adds its entry exactly when it parses, is accepted and its speaker is new |
| LabelScript.FilterRows | label_script.py:47-87 | the kept entries are the first accepted row of every speaker in file order |
| LabelScript.FirstRowsWith | label_script.py:75-87 | for any row parser and acceptance test, the loop keeps the first accepted row of every speaker, in file order |
| LabelScript.FilterAndSort | label_script.py:43-98 | the written rows are the kept entries ranked by the score key, as `filename\ttranscript` |
| LabelScript.RankedRows | label_script.py:75-95 | the ranked rows are sorted, a permutation of the kept rows, all accepted rows of the file, with no speaker twice |
| LabelScript.FirstFieldOfRow | label_script.py:115-116 | the first field of a written row is its file name |
| LabelScript.GetNextBatch | label_script.py:101-129 | the batch is the first fields of lines index to index+10, and EOF holds exactly when fewer than ten lines remain, so exactly ten give False |
| LabelScript.ReadAfter | label_script.py:106-116 | skipping `index` lines and reading up to n more gives the reading of each line of the window from `index`, and the end flag rises exactly when fewer than n lines remain |
| LabelScript.BatchesCover | label_script.py:139-171 | the calls `main` makes, advancing the index by ten after each, hand out every line once, in order |
| LabelScript.BatchSizes | label_script.py:139-171 | with ten lines or more every batch but the last has ten lines and the last has the remainder; with fewer than ten, `main` prepares two batches, all the lines and then an empty one, because Enter overwrites the first call's end flag before it is tested |
| LabelScript.BatchCalls | label_script.py:139-171 | batch k is the k-th call of `get_next_batch`, at index 10k, and it is the last exactly when it is not the first call and its call reports the end of the file |
| LabelScript.FolderNameBlank | label_script.py:226 | a blank label has no first word, so no folder name |
| LabelScript.FolderNameOf | label_script.py:226 | for a label of a first word between any whitespace, the folder name is that word followed by "_dataset" |
| TestModel.ParseTestRow | test_model.py:59-71 | a written non-header row of at least eight fields reads back as the entry of its fields 0, 1, 2, 3, 4 and 7 |
| TestModel.ShortTestRowFails | test_model.py:59-71 | a written non-header row of fewer than eight fields is an error, not a skipped row |
| TestModel.ParseTestFileFails | test_model.py:57-71 | reading the file fails exactly when some row is short |
| TestModel.BlankLineFails | test_model.py:59-67 | a blank line is an error, not a skipped row |
| TestModel.FilterAndSortTest | test_model.py:52-108 | the written rows are the accepted entries ranked by the score key, as `filename\ttranscript` |
| TestModel.NoSpeakerDedupe | test_model.py:85-97 | every accepted row is kept: the ranking is a permutation of all of them |
| TestModel.SameSpeakerTwice | test_model.py:85-88 | two accepted rows of the same speaker are both written |
| TestModel.JudgeWrittenRow | test_model.py:195-205 | a row of the ranked file is judged under its file name, and is a hit exactly when the stripped prediction equals the lower-case true label up to letter case |
| TestModel.EmptyTranscriptSkipped | test_model.py:195-198 | a ranked row with an empty transcript loses its tab to `strip()`, has one field and is skipped without a prediction |
| TestModel.HitsAndMisses | test_model.py:205-221 | hits plus misclassifications equal predictions |
| TestModel.EveryFromZero | test_model.py:208-210 | the exported clips are every 25th misclassification, and there are the count divided by 25 of them |
| TestModel.Tally | test_model.py:195-221 | one accent's loop counts its hits and predictions, advances the run's misclassification counter and exports when the counter is a multiple of 25 |
| TestModel.TallyNext | test_model.py:195-221 | a line the judgement skips (fewer than two fields) leaves every counter unchanged; a hit adds one hit and one prediction; a miss adds one prediction and one misclassification and exports the clip when the new count is a multiple of 25 |
| TestModel.TotalsAddUp | test_model.py:190-221 | total hits plus all misclassifications equal total predictions |
| TestModel.Evaluate | test_model.py:186-221 | per-accent counts, totals that are the sums over the accents, and exports counted across the whole run |
| TestModel.RankAll | test_model.py:190-193 | the loop builds the ranked file of every accent |
| TestModel.ReportBound | test_model.py:205-221 | hits plus exported clips never exceed predictions |
| TestModel.RunEvaluation | test_model.py:52-221 | a short row ends the run with an error; otherwise the report is the evaluation of the nine labels over their ranked files |
| SpeakerCount.CountWith | helper_scripts/count_uniqe_speakers.py:59-67 | the loop's counter is the number of distinct speakers among the matching rows |
| SpeakerCount.CountSpeakers | count_uniqe_speakers.py:48-56 | the count for an accent is the number of distinct speakers with a parsed matching row |
| SpeakerCount.CountIsFirstRows | count_uniqe_speakers.py:53-56 | the count equals the number of first rows per speaker and is at most the matching rows |
| SpeakerCount.CountAll | count_uniqe_speakers.py:42-46 | the counter and seen set restart for each accent, so each count depends on its accent alone |
| SpeakerCount.CountAllWith | count_uniqe_speakers.py:42-56 | for any row parser and match test, one count per accent, each the number of distinct speakers among the parsed rows that match it |
| SpeakerCount.RootCounts | count_uniqe_speakers.py:27-58 | eight counts, each for a whole-field match ignoring case |
| SpeakerCount.HelperCounts | helper_scripts/count_uniqe_speakers.py:28-69 | nine counts, a case-sensitive whole-field match for the menu and the Slavic alternation for "Slavic" |
| SpeakerCount.HelperCountsNoMore | helper_scripts/count_uniqe_speakers.py:53-54 | for a shared accent the helper copy's speakers are among the root copy's, so it counts no more |
| SpeakerCount.CaseMatters | helper_scripts/count_uniqe_speakers.py:54 | a row whose accent differs only in letter case counts for the root copy and not for the helper copy |
| OtherAccents.SelectWith | create_other_acc_dataset.py:15-27 | the loop keeps the first kept row of every speaker in file order and stops once the cap is reached |
| OtherAccents.OtherAccentsList | create_other_acc_dataset.py:13-33 | the output rows are `filename\ttranscript` of the first eligible row of up to 712 speakers, in first-seen order |
| OtherAccents.ChosenShape | create_other_acc_dataset.py:23-27 | at most 712 rows, none with an excluded accent, no speaker twice, all from the file |
| OtherAccents.AccentsColumnEligible | create_other_acc_dataset.py:11 | the header's accent column name "accents" matches none of the excluded words |
| OtherAccents.HeaderRowKept | create_other_acc_dataset.py:17-25 | with no header check, a first header row of ten fields with an eligible accent column becomes the first output row |

## Left out

- HTTP alignment calls (`align`): the word list is an input of the merger.
- Audio decoding, slicing, export, format conversion and denoising: a clip is modelled by its
  tokens, name and length in milliseconds; `AudioSegment` slicing is modelled as clamping to
  the recording, and negative offsets (which pydub counts from the end) are clamped to 0.
- Packer.CutAudioSegments: the recording length is given in whole milliseconds
  (`len(audio)`), and `duration_seconds` is taken as exactly length/1000, which holds for the
  16 kHz audio the pipeline produces.
- Packer.CutAudioSegments: `os.listdir` of the output directory is the `dirHadEntries`
  parameter. Making and removing the directory are not modelled.
- Filesystem checks (`os.path.exists`, `sf.info` frame counts and durations): the `usable`
  parameter.
- PickAudio.CreateSet: `usable` stands for the check on the clip file that the code evidently
  means. As written, pick_audio.py:74 calls `sf.info(clips_path, entry["filename"])`: the file
  name lands in the `verbose` argument and soundfile is asked to open the clips directory
  itself, which plausibly raises (not executed). If it does, the first candidate whose file
  exists ends `create_set` with that exception; the model does not describe this.
- The Slavic alternation of label_script.py, test_model.py and
  helper_scripts/count_uniqe_speakers.py: the raw string contains backslash-newline sequences and
  indentation, which become part of the alternatives. It is the `slavic` parameter.
- Regular expressions otherwise: whole-field matches are modelled as equality, ignoring case
  or not, and `search` for the excluded words as substring containment ignoring case. Case is
  folded for ASCII letters only, where Python folds all of Unicode.
- TestModel.Judge: `.lower()` of the prediction at test_model.py:202 is modelled for ASCII
  letters only; other letters are left as they are.
- CommonVoice.CountNonDigits: `isdigit` is modelled for the ASCII digits only. Python also
  accepts other Unicode digits: for "٣" `int` gives 3 where the model counts 0, and for "²"
  `int` raises `ValueError` where the model counts 0.
- Merger.MergeShortWords: word times are exact reals. The code subtracts IEEE doubles, so a
  word exactly at the threshold can fall below it there (0.3 - 0.1 < 0.2 in double arithmetic,
  and likewise 0.7 - 0.2 < 0.5 and 0.35 - 0.1 < 0.25) and is merged, where the model keeps it
  on its own. Double rounding is not modelled.
- Packer.Ms: `t * 1000` is an exact real product. In double arithmetic `int(1.005 * 1000)` is
  1004 where `Ms(1.005)` is 1005; rounding of the product is not modelled.
- The classifier and spectrograms in test_model.py: `predict` maps a file name to the label
  string the model returns. Converting and copying misclassified clips is modelled only as the
  list of exported verdicts.
- Printing, accuracy ratios, temporary files and copying of selected clips.
- The interactive loop of label_script.py `main` (lines 144-172): prompts, moving approved
  files, appending approved rows to labeled.tsv, and the stop once `SIZE` files are filtered.
  Its calls of `get_next_batch` are covered by `LabelScript.BatchCalls`, `BatchesCover` and
  `BatchSizes`, for a labeller who always presses Enter.
- pick_audio.py line 86 nests double quotes inside a double-quoted f-string, which only
  Python 3.12 and later accept. The model gives the row the evident meaning.
- Orchestration (`splice_audio_files`, `main` of the splice scripts, preprocessing) and the
  remaining scripts (training, augmentation, CSV and upload plumbing).
