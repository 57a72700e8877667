# Xiangxi dialect speech collector — a Dafny model of its core

The collector gathers read-aloud recordings of the Chenxu (辰溆) Xiangxi dialect for
speech-recognition training. Its server does five things, all modelled here.

- It scores sentences for dialect features. It counts checked-tone (入声) characters,
  zhi/zhuang-group (知组) characters and dialect words. It turns those counts into a
  score out of 100 and a per-character heatmap.
- It generates candidate sentences through an OpenAI-compatible chat endpoint. It
  unwraps the JSON reply, analyses and ranks the sentences, and stages them as
  `pending`. Approving copies them into the corpus; rejecting only marks them.
- It loads the bundled corpus files into the `corpora` table. For each speaker it
  chooses the next paragraph to read and reports progress by category.
- It takes a recording upload, reads the ffmpeg statistics report of the standardised
  file, and classifies the take as `success`, `clipping_detected` or `too_quiet`.
- It exports the accepted recordings as a ZIP archive with a `manifest.jsonl`.

On the client, the model covers the corpus-generator page's list logic:

- the feature-hint parser;
- the heatmap colours;
- the status update after an approve or reject call;
- "approve high scores".

The modules follow the source files:

| module | file | flavour |
|---|---|---|
| `Phonetic` | `phonetic_analyzer.dfy` | pure functions and lemmas |
| `AudioProcessor` | `audio_processor.dfy` | functions; the silence-summing loop is a method |
| `Recordings` | `recordings.dfy` | the upload handler is a method on the `Database.Db` object |
| `Corpus` | `corpus.dfy` | pure extraction and ranking; generate, approve and reject are methods that update `Db`, each proved against a function |
| `CorporaService` | `corpora_service.dfy` | loading and progress counting are loops, proved against functions |
| `Dataset` | `dataset.dfy` | the condition builder and the packing loop are methods |
| `CorpusGenerator` | `corpus_generator.dfy` | pure list functions |

Three support modules sit beside them:

- `Wrappers` holds Option and Result.
- `Strings` models JavaScript's `trim`, `split`, `join`, `indexOf` and `replace` on
  UTF-16 units.
- `Database` holds the row types and the `Db` class. Its fields `corpora` and
  `recordings` are sequences in row order. Its field `generated` is the
  `generated_corpus` table as a map from id to row. `Valid()` states that the
  primary keys are unique.

Things the program cannot compute itself are parameters of the model:

- `JSON.parse` and `JSON.stringify`;
- the ids `nanoid` hands out;
- `Number()` of a query string;
- the endpoint's reply;
- whether a file exists;
- whether ffmpeg's transcoding finished, and the exit code and report of its analysis run.

### Notes on the code's behaviour

- The example sentence 赶场要恰白崽伢子的饭 is 10 UTF-16 units long. It gets no
  length bonus and scores 20 (`Phonetic.ExampleSentence`).
- A reply with zero usable sentences is a success with an empty list.
- Approval uses `INSERT OR REPLACE` and does not check that a candidate is still
  `pending`. Approving or rejecting twice rewrites the row or the status again.
- Rejection returns the number of ids sent, found or not.
- The schema in `packages/server/src/db.ts` creates neither a `source` column in
  `corpora` nor a `generated_corpus` table, yet the handlers write both. The model
  gives `corpora` a `source` column and includes the staged table, as the handlers
  expect.

## Model

| member | source | states |
|---|---|---|
| Phonetic.Select | packages/server/src/utils/phoneticAnalyzer.ts:30-33 | the kept characters are a subsequence of the text, all from the given set; one per occurrence is stated by `SelectCounts`, and order by `SelectAppend` with `SelectSingle` |
| Phonetic.MatchedWords | packages/server/src/utils/phoneticAnalyzer.ts:34 | a word is matched iff it is a dictionary key that occurs in the text, and the matches keep the dictionary's key order |
| Phonetic.Score | packages/server/src/utils/phoneticAnalyzer.ts:36-42 | the score never exceeds 100 |
| Phonetic.Analyze | packages/server/src/utils/phoneticAnalyzer.ts:29-57 | the character count is the text length; both counts are bounded by it; the score is at most 100; there is one feature tag per counted character and matched word |
| Phonetic.Heatmap | packages/server/src/utils/phoneticAnalyzer.ts:59-72 | there is one cell per UTF-16 unit, carrying its index and character |
| Phonetic.ScoreIsSumOfBonuses | packages/server/src/utils/phoneticAnalyzer.ts:36-42 | the score is exactly the sum of the density, zhuzhuang, dialect and length bonuses; the cap at 100 never changes it |
| Phonetic.DensityBonusByCounts | packages/server/src/utils/phoneticAnalyzer.ts:32-38 | the density bonus is 40 iff 20r > 3n and 20 iff 10r > n otherwise, stated in whole numbers |
| Phonetic.DensityThresholdsStrict | packages/server/src/utils/phoneticAnalyzer.ts:37-38 | both thresholds are strict: exactly 10% earns nothing and exactly 15% earns only 20 |
| Phonetic.AnalyzeEmpty | packages/server/src/utils/phoneticAnalyzer.ts:30-32 | the empty text has zero counts, zero density (no division by zero), score 0 and no features |
| Phonetic.DialectKeysDistinct | packages/server/src/utils/phoneticAnalyzer.ts:16-27 | the dialect dictionary's keys are pairwise distinct |
| Phonetic.NoWordsMatched | packages/server/src/utils/phoneticAnalyzer.ts:34 | when no key occurs in the text, no dialect word is reported |
| Phonetic.SingleUnitMatchesNothing | packages/server/src/utils/phoneticAnalyzer.ts:16-34 | a one-unit text matches no dialect word unless it is one of the one-character keys 恰 or 克 |
| Phonetic.DialectWordsAreMatchedKeys | packages/server/src/utils/phoneticAnalyzer.ts:34 | the reported dialect words are exactly the keys occurring in the text, in key order, each at most once |
| Phonetic.FeaturesLayout | packages/server/src/utils/phoneticAnalyzer.ts:51-55 | features list one 入声 tag per checked-tone unit, then one 知组 tag per zhuzhuang unit, then one 方言 tag per matched word, in text order |
| Phonetic.FeaturesOrder | packages/server/src/utils/phoneticAnalyzer.ts:51-55 | the three tag groups are concatenated in that order, with each tag at its computed position |
| Phonetic.SharedCharCountedTwice | packages/server/src/utils/phoneticAnalyzer.ts:4-33 | a character in both sets (十) is counted in both groups and tagged twice |
| Phonetic.SelectNone | packages/server/src/utils/phoneticAnalyzer.ts:31 | a text with no character of the set keeps nothing |
| Phonetic.SelectAppend | packages/server/src/utils/phoneticAnalyzer.ts:31 | the character filter distributes over concatenation |
| Phonetic.SelectSingle | packages/server/src/utils/phoneticAnalyzer.ts:31 | one unit is kept iff it is in the set; with `SelectAppend` this fixes the result for every text |
| Phonetic.SelectCounts | packages/server/src/utils/phoneticAnalyzer.ts:31-33 | every unit of the set is kept as often as it occurs in the text, and no other unit is kept |
| Phonetic.ExampleSentence | packages/server/src/utils/phoneticAnalyzer.ts:29-57 | 赶场要恰白崽伢子的饭 has 10 units, 1 checked-tone unit, no zhuzhuang unit and the dialect words 赶场, 崽伢子 and 恰, and it scores 20 |
| Phonetic.ExampleSentenceScore | packages/server/src/utils/phoneticAnalyzer.ts:36-42 | any 10-unit text with one checked-tone unit, no zhuzhuang unit and a dialect word scores 20 |
| Phonetic.HeatmapPrecedence | packages/server/src/utils/phoneticAnalyzer.ts:61-70 | a cell is rusheng before zhuzhuang before dialect before normal, each iff its condition holds and no earlier one does, with intensity 1, 0.8, 0.6 or 0 |
| Phonetic.HeatmapDialectIsPerUnit | packages/server/src/utils/phoneticAnalyzer.ts:34-67 | a unit of a dialect word is highlighted even when the text contains no whole dialect word (场 alone) |
| Phonetic.CountKindMatchesSelect | packages/server/src/utils/phoneticAnalyzer.ts:31-66 | the rusheng cells are the checked-tone units and the zhuzhuang cells are the zhuzhuang units that are not checked-tone |
| Phonetic.HeatmapAgreesWithCounts | packages/server/src/utils/phoneticAnalyzer.ts:31-72 | the heatmap's rusheng cells equal the analyser's count, and its zhuzhuang cells are at most the analyser's zhuzhuang count |
| Phonetic.SelectSubset | packages/server/src/utils/phoneticAnalyzer.ts:31-33 | filtering by a smaller set keeps no more characters |
| AudioProcessor.UnsignedDecimal | packages/server/src/services/AudioProcessor.ts:35 | an accepted unsigned literal reads as a non-negative number; its value is stated by `UnsignedDecimalReadsDecimal` |
| AudioProcessor.NumberOfToken | packages/server/src/services/AudioProcessor.ts:35 | a token without a leading minus reads as its unsigned literal, and only a token with a leading minus can read as a negative number |
| AudioProcessor.ParseNumber | packages/server/src/services/AudioProcessor.ts:33-37 | a missing or empty value is null; otherwise the result is the number the token reads as, or null when it is not a finite number |
| AudioProcessor.ParseNumberReadsIntegers | packages/server/src/services/AudioProcessor.ts:33-37 | every decimal integer, with or without a minus sign, parses to its value |
| AudioProcessor.UnsignedDecimalReadsDecimal | packages/server/src/services/AudioProcessor.ts:35 | `whole.frac` reads as the whole part plus the fraction, each digit after the point a tenth of the one before |
| AudioProcessor.ParseNumberReadsDecimals | packages/server/src/services/AudioProcessor.ts:33-37 | a decimal with or without a minus sign parses to its value, negated for the minus sign |
| AudioProcessor.ParseNumberReadsRmsLevel | packages/server/src/services/AudioProcessor.ts:33-37 | the report value `-23.45` parses to -23.45 |
| AudioProcessor.ParseNumberRejectsNonNumbers | packages/server/src/services/AudioProcessor.ts:33-37 | tokens that the report regex admits but are not numbers (`-`, `.`, `1.2.3`, `--1`) give null |
| AudioProcessor.FirstStat | packages/server/src/services/AudioProcessor.ts:69-71 | the result is the first position where the key is followed by a value, and no earlier position qualifies |
| AudioProcessor.StatValue | packages/server/src/services/AudioProcessor.ts:69-71 | a captured value is non-empty and made only of digits, `-` and `.` |
| AudioProcessor.FirstOccurrenceWins | packages/server/src/services/AudioProcessor.ts:69-71 | the value read is the run after the first occurrence of the key that is followed by a value |
| AudioProcessor.AbsentKeyNoStat | packages/server/src/services/AudioProcessor.ts:69-71 | a key missing from the report yields no value |
| AudioProcessor.NextSilence | packages/server/src/services/AudioProcessor.ts:74-79 | the match is the leftmost one at or after the cursor, and it is the match at that position; there is none iff no later position matches |
| AudioProcessor.MatchAt | packages/server/src/services/AudioProcessor.ts:74-77 | the token is the whole run of digits and dots after the key and its whitespace, non-empty, and the scan resumes just after it |
| AudioProcessor.SumSilence | packages/server/src/services/AudioProcessor.ts:73-80 | the loop's total is the sum of every parseable silence duration in the report |
| AudioProcessor.SilenceFrom | packages/server/src/services/AudioProcessor.ts:73-80 | the silence sum from any position is non-negative |
| AudioProcessor.SilenceTotal | packages/server/src/services/AudioProcessor.ts:73-80 | the report's silence total is non-negative |
| AudioProcessor.SilenceFromNonNegative | packages/server/src/services/AudioProcessor.ts:73-80 | the silence sum from any position is non-negative |
| AudioProcessor.SilenceTotalBounds | packages/server/src/services/AudioProcessor.ts:73-80 | the silence total is non-negative and is 0 when the report has no `silence_duration` |
| AudioProcessor.UnparseableSilenceSkipped | packages/server/src/services/AudioProcessor.ts:77-78 | a silence token that is not a finite number adds nothing and the scan moves on |
| AudioProcessor.Round | packages/server/src/services/AudioProcessor.ts:84 | the result is the integer nearest to the value, with halves rounded up as `Math.round` does |
| AudioProcessor.ClipCountOf | packages/server/src/services/AudioProcessor.ts:84 | a missing token counts 0; a non-numeric token gives NaN; a number gives its rounded value, floored at 0 |
| AudioProcessor.Readings | packages/server/src/services/AudioProcessor.ts:82-93 | the readings carry the given silence total; the SNR is present iff the RMS level is, and is the RMS level plus 40 dB |
| AudioProcessor.ReportMetrics | packages/server/src/services/AudioProcessor.ts:63-94 | on success the silence duration is the report's silence total, never negative |
| AudioProcessor.AnalyzeReport | packages/server/src/services/AudioProcessor.ts:63-94 | the close handler's outcome is the report reading for the exit code and report |
| AudioProcessor.ExitCodeTolerance | packages/server/src/services/AudioProcessor.ts:64-67 | exit codes 0 and 1 succeed; any other code, or none, is an error carrying that code |
| AudioProcessor.SnrFollowsRms | packages/server/src/services/AudioProcessor.ts:83-86 | the SNR is present iff the RMS level is, and then equals RMS + 40 dB |
| AudioProcessor.AbsentKeyGivesNull | packages/server/src/services/AudioProcessor.ts:69-84 | with its key absent, peak and RMS are null rather than 0, SNR is null, and the clip count is 0 |
| AudioProcessor.FileSizeKb | packages/server/src/services/AudioProcessor.ts:21-23 | the size is the least whole number of KiB that holds the file |
| AudioProcessor.FileSizeKbRounding | packages/server/src/services/AudioProcessor.ts:22 | the size is 0 only for an empty file; 1 to 1024 bytes is 1 KiB and 1025 bytes is 2 KiB |
| Database.DifficultyScore | packages/server/src/routes/corpus.ts:171 | the score is 3 iff the name is `hard`, 2 iff it is `medium`, and 1 for everything else |
| Recordings.RecordingFor | packages/server/src/routes/recordings.ts:65-81 | the row points at the raw file; it has a processed path iff the take succeeded; its status is `raw` on success and `discarded` otherwise |
| Recordings.Assess | packages/server/src/routes/recordings.ts:33-61 | a failed analysis is `too_quiet` with the default metrics; the verdict is `clipping_detected` iff the peak is above -1 dBFS or a sample clipped; `success` needs an RMS level of at least -35 dBFS |
| Recordings.AnalysisOf | packages/server/src/routes/recordings.ts:43-45 | the handler has an analysis iff transcoding finished and the analyser exited with 0 or 1; its silence duration is never negative |
| Recordings.Upload | packages/server/src/routes/recordings.ts:16-91 | a missing file is an error with no row; otherwise one row for the new id is appended with the assessed status and metrics, unless the id is taken, which fails with no row; other tables are unchanged and ids stay unique |
| Recordings.AppendFreshUnique | packages/server/src/db.ts:20 | appending a row with a new id keeps the recording ids unique |
| Recordings.FindRecording | packages/server/src/routes/recordings.ts:95 | the lookup finds a row with that id iff one exists |
| Recordings.Download | packages/server/src/routes/recordings.ts:93-101 | the download is 404 iff no recording has that id |
| Recordings.ClippingWins | packages/server/src/routes/recordings.ts:54-55 | the verdict is `clipping_detected` iff the peak is above -1 dBFS or a sample clipped, whatever the RMS level |
| Recordings.QuietOtherwise | packages/server/src/routes/recordings.ts:56-58 | without clipping, a missing RMS or one below -35 dBFS is `too_quiet`, and anything else is `success` |
| Recordings.FailureIsTooQuiet | packages/server/src/routes/recordings.ts:33-61 | when transcoding or analysis fails, the verdict is `too_quiet` with the default metrics (-60 dBFS, no clipping, no silence, null peak and SNR) |
| Recordings.BadExitCodeIsTooQuiet | packages/server/src/routes/recordings.ts:45-61 | an analyser exit code other than 0 or 1 makes the take `too_quiet` |
| Recordings.MetricsMirrorAnalysis | packages/server/src/routes/recordings.ts:46-53 | reported metrics copy the analysis; the clipping flag is true iff the count is positive; dbFS is the RMS level or -60 |
| Recordings.RowFields | packages/server/src/routes/recordings.ts:72-80 | the stored paths are `raw/<id>.webm` and, on success only, `processed/<id>.wav` |
| Recordings.DownloadAfterUpload | packages/server/src/routes/recordings.ts:93-101 | with unique ids, the download returns the stored raw path of the recording with that id, and 404 for an unknown id |
| Recordings.UniqueFind | packages/server/src/routes/recordings.ts:95 | with unique ids, the lookup returns the one row carrying the id |
| Corpus.FeatureLine | packages/server/src/routes/corpus.ts:20-22 | the feature line is empty iff no features were given; otherwise it starts with the fixed prefix |
| Corpus.FeatureLineReadsBack | packages/server/src/routes/corpus.ts:20-22 | features without 、 are recovered by splitting the line after its prefix |
| Corpus.NormalizeEndpoint | packages/server/src/routes/corpus.ts:39-43 | the URL always ends in `/v1/chat/completions` |
| Corpus.NormalizeEndpointKeepsBase | packages/server/src/routes/corpus.ts:40-42 | the URL is the trimmed, slash-stripped endpoint followed by `/chat/completions` when it already ends in `/v1`, and by `/v1/chat/completions` otherwise |
| Corpus.VersionSuffixOptional | packages/server/src/routes/corpus.ts:39-43 | an endpoint with or without `/v1`, trailing slashes or surrounding whitespace gives the same URL |
| Corpus.CleanBase | packages/server/src/routes/corpus.ts:42 | a clean base without `/v1` gets `/v1/chat/completions` appended |
| Corpus.StripOpeningFence | packages/server/src/routes/corpus.ts:48 | exactly the fence, the whole run of ASCII letters after it and one line break, if one follows the run, are removed; the rest is a suffix of the text |
| Corpus.StripClosingFence | packages/server/src/routes/corpus.ts:48 | a trailing fence is removed and nothing else changes |
| Corpus.Unfence | packages/server/src/routes/corpus.ts:45-51 | the text handed to `JSON.parse` has no surrounding whitespace |
| Corpus.UnfencedIsTrimmed | packages/server/src/routes/corpus.ts:46-51 | content that does not start with a fence is parsed after trimming only |
| Corpus.FenceRoundTrip | packages/server/src/routes/corpus.ts:45-52 | a body wrapped in a fenced code block with any letter tag is recovered exactly |
| Corpus.ItemText | packages/server/src/routes/corpus.ts:104-105 | a text is read iff it is non-empty and the item is that string or an object whose `text` field is that string |
| Corpus.ItemsKept | packages/server/src/routes/corpus.ts:104-105 | bare strings and `{text}` objects are read; empty texts, numbers, booleans, null and arrays are dropped |
| Corpus.Kept | packages/server/src/routes/corpus.ts:102-118 | the kept items are no more than those given, and every one has a text |
| Corpus.KeptAppend | packages/server/src/routes/corpus.ts:102-118 | each item is kept or dropped on its own, whatever surrounds it |
| Corpus.KeptSingle | packages/server/src/routes/corpus.ts:104-110 | one item contributes its text and features, or nothing |
| Corpus.Candidates | packages/server/src/routes/corpus.ts:106-116 | each kept item gets the next fresh id, its analysis, `pending`, and the request's topic and difficulty |
| Corpus.InsertByScore | packages/server/src/routes/corpus.ts:120 | inserting into the ranking adds exactly one element and loses none |
| Corpus.SortByScore | packages/server/src/routes/corpus.ts:120 | the ranking is a permutation of the candidates |
| Corpus.InsertKeepsOrder | packages/server/src/routes/corpus.ts:120 | insertion keeps a list ordered by descending score |
| Corpus.SortIsOrdered | packages/server/src/routes/corpus.ts:120 | the ranking is by descending score and is a permutation |
| Corpus.InsertStable | packages/server/src/routes/corpus.ts:120 | insertion never reorders candidates of equal score |
| Corpus.SortIsStable | packages/server/src/routes/corpus.ts:120 | the sort is stable: equal scores keep the reply's order, as `Array.prototype.sort` guarantees |
| Corpus.CountHighQuality | packages/server/src/routes/corpus.ts:141 | the high-quality count is at most the list length |
| Corpus.Summarize | packages/server/src/routes/corpus.ts:139-146 | the total is the list length and the high-quality count is at most the total |
| Corpus.CountAppend | packages/server/src/routes/corpus.ts:141 | the high-quality count adds up over concatenation |
| Corpus.CountInsert | packages/server/src/routes/corpus.ts:141 | inserting a candidate into the ranking adds its own count |
| Corpus.SummaryIgnoresOrder | packages/server/src/routes/corpus.ts:120-146 | ranking does not change the summary |
| Corpus.HighQualityIsPrefix | packages/server/src/routes/corpus.ts:120-141 | in a ranked list, the candidates scoring at least 60 are exactly the first `highQuality` ones |
| Corpus.StageRows | packages/server/src/routes/corpus.ts:122-137 | the staged table's keys are the old keys plus the candidates' ids |
| Corpus.FreshIdsMeaning | packages/server/src/routes/corpus.ts:125-137 | the batch inserts cleanly iff no id is taken and no two candidates share an id |
| Corpus.FreshIdsPrefix | packages/server/src/routes/corpus.ts:125-137 | a clash in any prefix aborts the whole batch |
| Corpus.StageAll | packages/server/src/routes/corpus.ts:122-137 | the transaction succeeds iff every id is fresh; it then stages every row, and otherwise rolls back; other tables are unchanged |
| Corpus.Generate | packages/server/src/routes/corpus.ts:55-154 | every error leaves the tables alone; success stages the ranked list and answers it with its summary; a taken id fails with nothing staged |
| Corpus.MissingConfigFirst | packages/server/src/routes/corpus.ts:57-60 | a missing or empty endpoint or model is refused before anything else |
| Corpus.StagedContents | packages/server/src/routes/corpus.ts:126-134 | each staged row holds its sentence's text, topic, difficulty name, analysis and `pending`; earlier staged rows are untouched |
| Corpus.GeneratedListIsRanked | packages/server/src/routes/corpus.ts:101-120 | a successful generation answers a list ordered by descending score, each entry `pending` and non-empty |
| Corpus.Upsert | packages/server/src/routes/corpus.ts:161-172 | after `INSERT OR REPLACE` the new row is last, and a row is present iff it is the new row or an old row with another id |
| Corpus.RemoveId | packages/server/src/routes/corpus.ts:162 | the rows left are exactly the old rows with other ids; order and multiplicity are stated by `RemoveIdAppend` with `RemoveIdSingle` |
| Corpus.RemoveIdAppend | packages/server/src/routes/corpus.ts:162 | deleting by id works row by row, so the kept rows stay in order, one per occurrence |
| Corpus.RemoveIdSingle | packages/server/src/routes/corpus.ts:162 | a single row is deleted iff it has the id |
| Corpus.RemoveIdAbsent | packages/server/src/routes/corpus.ts:162 | deleting an id no row has changes nothing |
| Corpus.UpsertNew | packages/server/src/routes/corpus.ts:161-172 | a row with a new id is appended to the table |
| Corpus.UpsertReplaces | packages/server/src/routes/corpus.ts:161-172 | with unique ids, the row holding the id is taken out of its place and the new row appended; all other rows keep their order |
| Corpus.RemoveIdUnique | packages/server/src/routes/corpus.ts:162 | removing an id keeps ids unique and leaves none with that id |
| Corpus.UpsertUnique | packages/server/src/routes/corpus.ts:162-172 | an upsert keeps the primary key unique, and the only row with its id is the new row |
| Corpus.ApprovedRow | packages/server/src/routes/corpus.ts:171-172 | the written row takes the id, the topic as title and category, the text as content, the derived difficulty score and `llm_generated` |
| Corpus.ApproveOne | packages/server/src/routes/corpus.ts:169-174 | an id counts iff it is staged; an unknown id changes nothing; the staged table keeps its keys |
| Corpus.ApplyApprovals | packages/server/src/routes/corpus.ts:166-177 | the staged table keeps its keys and at most one approval is counted per id sent |
| Corpus.ApproveId | packages/server/src/routes/corpus.ts:169-174 | one loop step writes the approved row and status for a staged id, keeps ids unique and leaves recordings alone |
| Corpus.Approve | packages/server/src/routes/corpus.ts:156-181 | no ids approves nothing; otherwise the tables and count are those of approving the ids in order; ids stay unique |
| Corpus.CountKnown | packages/server/src/routes/corpus.ts:170-174 | the count of found ids is at most the number sent |
| Corpus.ApprovalEffect | packages/server/src/routes/corpus.ts:166-177 | the count is the number of ids sent that are staged, repeats included; every found id becomes `approved` whatever its status was; other staged rows are unchanged |
| Corpus.ApprovalWritesCorpora | packages/server/src/routes/corpus.ts:166-177 | after approval every found id has its approved row in `corpora`, rows of other ids are kept, no other row is present, and ids stay unique |
| Corpus.RejectAll | packages/server/src/routes/corpus.ts:187-194 | found ids become `rejected`, unknown ids are ignored, and the table keeps its keys |
| Corpus.Reject | packages/server/src/routes/corpus.ts:183-198 | no ids rejects nothing; otherwise every staged id sent is marked `rejected`, the count is the number of ids sent, and the other tables are unchanged |
| CorporaService.CategoryOfJsonFile | packages/server/src/services/CorporaService.ts:22 | `<base>.json` gets category `base` when the base has no `.json` of its own |
| CorporaService.Category | packages/server/src/services/CorporaService.ts:22 | a name without `.json` is its own category; otherwise the first `.json` is removed, and putting it back where it was gives the name |
| CorporaService.EntryRow | packages/server/src/services/CorporaService.ts:25-26 | the row takes the entry's id and content, the file's category as title and category, the score of its difficulty and `local` |
| CorporaService.InsertOrIgnore | packages/server/src/services/CorporaService.ts:17-26 | a taken id leaves the table unchanged, a new id appends the row, and ids stay unique |
| CorporaService.LoadEntries | packages/server/src/services/CorporaService.ts:24-27 | loading one file only appends, at most one row per entry |
| CorporaService.LoadFiles | packages/server/src/services/CorporaService.ts:21-28 | loading files only appends rows |
| CorporaService.InsertAll | packages/server/src/services/CorporaService.ts:24-27 | inserting rows one by one only appends, at most one row per offered row |
| CorporaService.JsonFiles | packages/server/src/services/CorporaService.ts:16 | exactly the directory entries whose names end in `.json` are loaded, in order |
| CorporaService.JsonFilesAppend | packages/server/src/services/CorporaService.ts:16 | files are chosen one by one, keeping directory order and repeats |
| CorporaService.JsonFilesSingle | packages/server/src/services/CorporaService.ts:16 | a single file is chosen iff its name ends in `.json` |
| CorporaService.FileRows | packages/server/src/services/CorporaService.ts:24-26 | each entry of a file becomes its corpus row, in order |
| CorporaService.InsertAllAppend | packages/server/src/services/CorporaService.ts:21-28 | inserting two batches is inserting their concatenation |
| CorporaService.LoadEntriesIsInsertAll | packages/server/src/services/CorporaService.ts:24-27 | loading one file inserts its rows in order |
| CorporaService.LoadFilesIsInsertAll | packages/server/src/services/CorporaService.ts:21-28 | loading all files inserts every file's rows, file after file |
| CorporaService.InsertAllShape | packages/server/src/services/CorporaService.ts:15-29 | loading only appends: existing rows keep their place, ids stay unique, and every offered id ends up present |
| CorporaService.CorpusIdsAppend | packages/server/src/services/CorporaService.ts:26 | appending a row adds exactly its id to the id set |
| CorporaService.FirstInsertWins | packages/server/src/services/CorporaService.ts:17-26 | each appended row is the first row offered with its id, and that id was new |
| CorporaService.RunInsert | packages/server/src/services/CorporaService.ts:26 | one insert leaves `corpora` as `INSERT OR IGNORE` does and keeps ids unique |
| CorporaService.LoadFile | packages/server/src/services/CorporaService.ts:24-27 | the inner loop loads one file's entries and keeps ids unique |
| CorporaService.LoadCorpora | packages/server/src/services/CorporaService.ts:15-29 | `corpora` ends as loading every `.json` file in order would leave it; other tables are unchanged; ids stay unique |
| CorporaService.DifficultyOf | packages/server/src/services/CorporaService.ts:52 | a score of 3 or more is hard, exactly 2 is medium, and anything else is easy |
| CorporaService.DifficultyRoundTrip | packages/server/src/services/CorporaService.ts:25-52 | a difficulty stored by name reads back as the same difficulty |
| CorporaService.UnknownDifficultyIsEasy | packages/server/src/services/CorporaService.ts:25-52 | a missing or unknown difficulty is stored as 1 and read as easy |
| CorporaService.EstimatedDuration | packages/server/src/services/CorporaService.ts:53 | the estimate is at least 3 seconds; above 3 it is the least whole number of seconds at 4 units per second |
| CorporaService.RecordedParagraphs | packages/server/src/services/CorporaService.ts:33-35 | the grouped paragraph ids are distinct, and are exactly those the speaker recorded |
| CorporaService.SpeakerParagraphs | packages/server/src/services/CorporaService.ts:37 | a paragraph is completed iff the speaker has a recording of it |
| CorporaService.NextIndex | packages/server/src/services/CorporaService.ts:38 | the chosen row is the first not completed, or the first row when all are completed |
| CorporaService.FirstUnrecorded | packages/server/src/services/CorporaService.ts:38 | the search finds the first uncompleted row from the cursor, and none when every later row is completed |
| CorporaService.NextIsFirstUnrecorded | packages/server/src/services/CorporaService.ts:38 | if any paragraph is left, the next one is the first in table order; once all are read, it wraps to the first row |
| CorporaService.ParagraphOf | packages/server/src/services/CorporaService.ts:49-55 | the paragraph copies the row's id, content and category, with the difficulty and duration derived from it |
| CorporaService.CategoryOf | packages/server/src/services/CorporaService.ts:45 | a recorded paragraph has a category iff its id is in `corpora`, and then it is that row's category |
| CorporaService.CountInCategory | packages/server/src/services/CorporaService.ts:44-47 | a category's count never exceeds the number of recorded paragraphs |
| CorporaService.Categories | packages/server/src/services/CorporaService.ts:41-43 | a category is listed iff some row has it |
| CorporaService.ZeroByCategory | packages/server/src/services/CorporaService.ts:40-43 | every category of a row starts at 0, and no other key exists |
| CorporaService.TallyOne | packages/server/src/services/CorporaService.ts:45-46 | one loop step counts the paragraph in its category, if it has one |
| CorporaService.CountByCategory | packages/server/src/services/CorporaService.ts:40-47 | the keys are exactly the categories present, each counting the recorded paragraphs of that category |
| CorporaService.GetNextParagraph | packages/server/src/services/CorporaService.ts:31-65 | an empty corpus is an error; otherwise it returns the first unrecorded paragraph, the corpus size, the number of distinct paragraphs completed and the per-category counts |
| CorporaService.DistinctCardinality | packages/server/src/services/CorporaService.ts:37-61 | `completed` (the size of the set) equals the number of grouped rows |
| CorporaService.CategoryCountIsDistinct | packages/server/src/services/CorporaService.ts:33-47 | each category counts distinct paragraphs, not takes: repeated recordings of one paragraph count once |
| Dataset.BuildConditions | packages/server/src/routes/dataset.ts:20-37 | the speaker condition is present iff a non-empty speaker id is given; the SNR condition is present iff a non-empty minimum converts to a finite number; the speaker condition comes first |
| Dataset.ContentOf | packages/server/src/routes/dataset.ts:24-26 | the joined content is that of a `corpora` row with the paragraph's id |
| Dataset.QueryRows | packages/server/src/routes/dataset.ts:23-39 | the query yields no more rows than there are recordings; one row per selected recording, in order, is stated by `QueryRowsAppend` with `QueryRowsSingle` |
| Dataset.QueryRowsAppend | packages/server/src/routes/dataset.ts:23-39 | the query reads `recordings` row by row, so the result keeps table order |
| Dataset.QueryRowsSingle | packages/server/src/routes/dataset.ts:23-39 | one recording yields its joined row iff it meets the filter, and nothing otherwise |
| Dataset.QueryRowsSelected | packages/server/src/routes/dataset.ts:23-39 | every exported row comes from a recording that is `raw`, processed, joined to a paragraph and meets every condition |
| Dataset.SelectedIsQueried | packages/server/src/routes/dataset.ts:23-39 | every recording meeting the filter is in the query result |
| Dataset.FilterConditions | packages/server/src/routes/dataset.ts:27-35 | without options only the fixed filter applies; with a minimum SNR, a recording without an SNR is excluded |
| Dataset.Packed | packages/server/src/routes/dataset.ts:53-56 | exactly the query rows with a non-empty processed path whose file exists are packed |
| Dataset.PackedAppend | packages/server/src/routes/dataset.ts:53-61 | packing goes row by row, keeping query order and repeats |
| Dataset.PackedSingle | packages/server/src/routes/dataset.ts:53-56 | a single row is packed iff its processed path is non-empty and its file exists |
| Dataset.LinesOf | packages/server/src/routes/dataset.ts:58-59 | each packed row gets a manifest line naming `audio/<id>.wav` with its text |
| Dataset.FilesOf | packages/server/src/routes/dataset.ts:58-60 | each packed row adds its audio file as `audio/<id>.wav` |
| Dataset.ManifestText | packages/server/src/routes/dataset.ts:63 | the manifest always ends with a line break |
| Dataset.PackArchive | packages/server/src/routes/dataset.ts:52-63 | the archive holds one audio file per packed row, in query order, then the manifest of their lines |
| Dataset.Export | packages/server/src/routes/dataset.ts:18-65 | the archive is the packing of the rows the query filter selects |
| Dataset.EmptyManifest | packages/server/src/routes/dataset.ts:63 | with nothing packed the manifest is one newline |
| Dataset.ManifestOneLinePerFile | packages/server/src/routes/dataset.ts:59-63 | the manifest splits back into one encoded line per packed file, in order |
| CorpusGenerator.HeatmapColor | packages/web/src/components/CorpusGenerator.tsx:24-35 | a cell is transparent iff it is normal |
| CorpusGenerator.HeatmapColorsDistinct | packages/web/src/components/CorpusGenerator.tsx:24-35 | the four kinds get four different colours |
| CorpusGenerator.FeatureList | packages/web/src/components/CorpusGenerator.tsx:63-70 | every feature is non-empty, already trimmed and contains no comma; the parts are kept in order by `FeatureListAppend` with `FeatureListNoComma` |
| CorpusGenerator.TrimmedNonEmpty | packages/web/src/components/CorpusGenerator.tsx:67-68 | no more features than parts, each trimmed, non-empty and comma-free |
| CorpusGenerator.TrimmedNonEmptyAppend | packages/web/src/components/CorpusGenerator.tsx:67-68 | trimming and dropping empty parts goes part by part, keeping order |
| CorpusGenerator.FeatureListAppend | packages/web/src/components/CorpusGenerator.tsx:63-70 | the text on each side of a comma is read on its own: the features before it, then those after it |
| CorpusGenerator.FeatureListNoComma | packages/web/src/components/CorpusGenerator.tsx:63-70 | text without a comma is one feature, trimmed, or none when blank |
| CorpusGenerator.FeatureListRoundTrip | packages/web/src/components/CorpusGenerator.tsx:63-70 | clean features joined with commas parse back to the same list |
| CorpusGenerator.BlankFeatureText | packages/web/src/components/CorpusGenerator.tsx:63-70 | text of only commas and whitespace gives no features |
| CorpusGenerator.AfterReview | packages/web/src/components/CorpusGenerator.tsx:108-126 | a failed call leaves the list alone; a successful one sets the status of exactly the listed candidates |
| CorpusGenerator.ReviewChangesOnlyStatus | packages/web/src/components/CorpusGenerator.tsx:112-126 | a review changes only the status field, and only for listed ids |
| CorpusGenerator.ReviewIdempotent | packages/web/src/components/CorpusGenerator.tsx:112-126 | repeating a review changes nothing |
| CorpusGenerator.HighQualityIds | packages/web/src/components/CorpusGenerator.tsx:131 | one id is sent per candidate scoring at least 60, matching the server's high-quality count; list order is stated by `HighQualityIdsAppend` with `HighQualityIdsSingle` |
| CorpusGenerator.HighQualityIdsAppend | packages/web/src/components/CorpusGenerator.tsx:131 | candidates are judged one by one, keeping list order and repeats |
| CorpusGenerator.HighQualityIdsSingle | packages/web/src/components/CorpusGenerator.tsx:131 | a single candidate's id is sent iff it scores at least 60 |
| CorpusGenerator.ApproveHighQuality | packages/web/src/components/CorpusGenerator.tsx:130-137 | no request is sent iff no candidate scores at least 60; otherwise the ids sent are the qualifying ones |
| CorpusGenerator.HighQualityIdsExact | packages/web/src/components/CorpusGenerator.tsx:131 | an id is sent iff a candidate with that id scores at least 60 |
| CorpusGenerator.RankedHighQualityIsPrefix | packages/web/src/components/CorpusGenerator.tsx:131 | on a freshly ranked list, the ids sent are those of the first `highQuality` candidates |

## Left out

- Text is a sequence of UTF-16 units as `seq<char>`. Dafny characters cannot hold a
  lone surrogate, so text containing one is outside the model. No character of the
  analyser's tables is a surrogate.
- The analyser's dictionary glosses (the values of `DIALECT_WORDS`) are never read.
  Only the keys are modelled.
- Phonetic.Analyze: `rushengDensity` is the exact ratio. The rounding to three
  decimals by `toFixed(3)`, used for display only, is not modelled.
- Corpus.Summarize: the `avgRushengDensity` field is left out. It is a
  floating-point average of the displayed densities.
- The prompt text sent to the endpoint (the system prompt and `buildUserPrompt`) is
  left out, apart from its feature line. Neither `fetch` nor its HTTP headers are
  modelled. The endpoint's answer is the `reply` parameter.
- A reply whose body is not JSON (`response.json()` throwing) is left out. So is a
  `content` that is truthy but not a string. The reply carries a string or nothing.
- `JSON.parse` and `JSON.stringify` are the `parse` and `encode` parameters.
  `Corpus.Crashed` stands for the TypeError of an unexpected JSON shape.
- `nanoid` is the `freshId` or `recordingId` parameter. A clash with an existing
  primary key is modelled as an insert error (`InsertFailed`).
- ffmpeg is left out:
  - `standardizeAudio` becomes the boolean `standardized`;
  - the analysis run becomes its exit code and its stderr text;
  - a spawn error counts as a failed analysis.
- AudioProcessor.ParseNumber: JavaScript's `Number()` is modelled only on the
  tokens the report regex can capture. These are digits, `-` and `.`, with an
  optional leading minus.
- AudioProcessor.ParseNumber: a token is read as an exact real, not rounded to a
  double. JavaScript reads `-0.99999999999999999999` as -1, which is not above
  -1 dBFS, while the model reads it as above -1 and detects clipping. A digit run
  so long that JavaScript reads it as Infinity (so null) is a finite number here.
- UnsignedDecimal: its own contract gives only the sign. The value of a literal is
  stated by `AudioProcessor.UnsignedDecimalReadsDecimal` and
  `AudioProcessor.ParseNumberReadsIntegers`.
- AudioProcessor.SumSilence: floating-point addition is modelled as exact real
  addition.
- Recordings.Upload:
  - the multipart parsing and the file streaming to disk are left out;
  - the `retryCount` field is never used, so it is not modelled;
  - the file size is given in bytes.
- Recordings.Download: sending the file is left out. The result is the stored path.
- Dataset.Export:
  - the ZIP bytes, compression and streaming are left out;
  - the archive is the ordered list of its entries;
  - `existsSync` is the `onDisk` parameter;
  - `Number()` of `minSnr` is the `toNumber` parameter.
- Dataset.Export: the postcondition says only that some condition list exists with
  the stated contents. The list's order is proved in `Dataset.BuildConditions`.
- Dataset.QueryRows: without an `ORDER BY`, the join's row order is taken to be
  `recordings` order.
- CorporaService.RecordedParagraphs: the `GROUP BY` row order is taken to be the
  order of first appearance. Only the set of ids and its size are used.
- CorporaService.LoadCorpora:
  - the directory listing is the `files` parameter, in `readdirSync` order;
  - reading and parsing each file is left out; a `.json` file arrives with its
    entries already parsed;
  - a malformed file, which would throw, is not modelled.
- CorporaService.CountByCategory: `byCategory` is a plain JavaScript object. A
  category named like an inherited property (`constructor`, `toString`) is never
  set to 0, and `+= 1` then turns it into a string. The model's map from category
  to count gives 0 or the count for every name.
- The request's `topic` and `difficulty` are not checked at run time. The model
  types the topic as a string and the difficulty as `easy`, `medium` or `hard`. A
  missing topic (a NULL category) or another difficulty string (approved with
  score 1) is outside the model.
- `generated_corpus` has no schema in the repository, so nothing says what a
  second insert of one id does. The model treats `id` as its primary key:
  `Corpus.StageAll` fails on a taken id and rolls the batch back.
- SQLite transactions are modelled by their effect. A failed batch of
  `Corpus.StageAll` leaves the table as it was. Concurrency and durability are left
  out.
- The `speakers` table and the `duration_ms`, `transcript`, `whisper_transcript`,
  `cer_score` and `created_at` columns are never written by the core, so they are
  left out.
- Of the React page, only the pure list helpers named above are modelled. These
  are left out:
  - loading and saving the configuration in `localStorage`;
  - the status messages;
  - `fetch`;
  - rendering.
- The server bootstrap and the corpus-library route in
  `packages/server/src/routes/corpora.ts` are not part of this model.
