# C++ homework evaluator: the text logic, modelled in Dafny

The system unpacks a ZIP of student C++ homework. It finds the C++ files and
works out whose each file is. It asks a language model to evaluate each file
and reads a score out of the answer. It then writes individual reports, a PDF
per student, an Excel summary and a JSON dump. This project models the
deterministic text logic inside that pipeline and proves properties of it.
Everything around it is I/O.

- `Extractor` (`extractor.dfy`): the C++ suffix filter of `scan_cpp_files` and
  the three-tier `_extract_student_name`:
  - the parent folder, unless it is `src`, `include`, `homework` or `作业`;
  - otherwise the first underscore token of the stem that is non-empty and not
    all digits;
  - otherwise the bare stem.
- `ScoreExtraction` (`score_extraction.dfy`): `_extract_score`. The four regular
  expressions are written out as matchers over `string`. `re.search` is
  modelled as the leftmost start. The greedy `\d+` group with backtracking is
  modelled as the longest group whose continuation matches. The first
  pattern whose leftmost group `int()` accepts (at most 4300 digits) and
  reads in [0, 100] decides.
- `EvaluationRun` (`evaluation_run.dfy`): the per-file loop of `run`, its
  early returns, the `成功`/`失败` counts and the max/min statistics. Reading
  code, calling the model and saving a report are parameters: each file comes
  with an `Attempt` that says how its work ended.
- `ResultSaver` (`result_saver.dfy`), the saver's string helpers:
  - name sanitising and report/PDF file names;
  - the status column;
  - the cleanup of one evaluation into PDF paragraphs: defaults, placeholder,
    strip, the `【题目N:…】` marker, XML escape;
  - the integer parts of `_calculate_total_score`.
- `Prompts` (`prompts.dfy`): `get_prompt` and `get_batch_prompt`. Templates
  are modelled as sequences of literal text and named holes, filled by a
  model of `str.format`. The instruction prose of each template is shortened
  to a bracketed tag; the holes, their order and the labels beside them are
  kept. The batch code section is serialised with 1-based headers and
  per-key defaults.
- `Text` and `Wrappers` hold the Python primitives the modules share:
  - `str.isspace` (also `\s`) and ASCII `\d`;
  - `split`, `strip` and `replace`;
  - `str(n)` and `int(s)`, `sum`;
  - `Option`, and `Field`, which tells a missing dict key from one holding
    `None`.

One place where the code and its own documentation disagree; the model
follows the code. The docstring of `_extract_student_name`
(src/extractor.py:100) promises `第02周上机作业/张三_code.cpp` → `张三`. The code
returns the parent folder `第02周上机作业`, because that folder is not on the
denylist (`Extractor.ExampleDocstringSecondCaseDiffers`).

## Model

| member | source | states |
|---|---|---|
| Extractor.Suffix | src/extractor.py:80 | `PurePath.suffix` (Python 3.13 and earlier) is empty or a dot followed by dot-free characters, and the name ends with it; `SuffixNonEmpty` states when it is non-empty |
| Extractor.SuffixNonEmpty | src/extractor.py:80 | the suffix is non-empty iff some dot after the first character and before the last has no dot after it (pathlib's rule up to Python 3.13; 3.14 also counts a trailing dot) |
| Extractor.Stem | src/extractor.py:122 | the stem followed by the suffix is the whole name; a name with a suffix has a non-empty stem |
| Extractor.IsCppFileIffEndsWithExtension | src/extractor.py:76-80 | a file is accepted iff its name is longer than some C++ extension, its lower-cased end is that extension, and the dot is not at the start (dotfiles such as `.cpp` are rejected) |
| Extractor.IsCppFile | src/extractor.py:80 | the filter itself; `IsCppFileIffEndsWithExtension` characterises it |
| Extractor.ExampleSuffixes | src/extractor.py:80 | `MAIN.CPP` is accepted; `a.cpp.txt` and `.cpp` are rejected |
| Extractor.FirstNameToken | src/extractor.py:127-129 | the index found holds a non-empty, not-all-digit token and every earlier token is empty or numeric |
| Extractor.NameFromStem | src/extractor.py:122-132 | tiers two and three give the stem itself, or an underscore-free name token of the stem |
| Extractor.ExtractStudentName | src/extractor.py:110-132 | the result is a non-denylisted parent folder, or a name token of the stem, or the stem; it never fails |
| Extractor.ParentFolderWins | src/extractor.py:114-119 | a parent folder that is not on the denylist is the name |
| Extractor.StructuralParentUsesFileNameOnly | src/extractor.py:114-122 | with a denylisted parent, higher ancestors never matter: the result depends on the file name alone |
| Extractor.StructuralParentDefersToStem | src/extractor.py:114-122 | with a denylisted parent or none, the name comes from the stem rules |
| Extractor.FirstTokenRule | src/extractor.py:123-129 | with `_` in the stem and some name token, the result is the first non-empty, not-all-digit token of `stem.split('_')` |
| Extractor.StemFallback | src/extractor.py:123-132 | with no `_` in the stem, or only empty and numeric tokens, the result is the whole stem |
| Extractor.RootFileUsesStem | src/extractor.py:110-122 | a file at the scan root has no parent folder, so its name comes from the stem |
| Extractor.ExampleStudentFolder | src/extractor.py:113-119 | `第02周上机作业/张三/code.cpp` gives `张三` |
| Extractor.ExampleNumberedFile | src/extractor.py:121-129 | `作业/2024001_张三.cpp` gives `张三` |
| Extractor.ExampleDocstringSecondCaseDiffers | src/extractor.py:114-119 | `第02周上机作业/张三_code.cpp` gives the folder `第02周上机作业`, not `张三` |
| Extractor.ExampleUnderscoredFileAtRoot | src/extractor.py:121-129 | only a root-level `张三_code.cpp` gives `张三` |
| Extractor.ExampleDenylistIsCaseSensitive | src/extractor.py:118 | `Src` and `HOMEWORK` are returned as names: the denylist check is exact |
| Extractor.ExampleNumericTokens | src/extractor.py:123-132 | `2024_001.cpp` gives the whole stem `2024_001` |
| Extractor.ScanCppFiles | src/extractor.py:79-89 | every accepted file yields its entry and every entry comes from an accepted file; when every file is accepted, nothing is dropped |
| Extractor.ScanCppFilesIsFilter | src/extractor.py:79-89 | the scan keeps the listing's order and multiplicity: a split listing is scanned part by part, and one file yields its entry iff it is accepted |
| Extractor.Info | src/extractor.py:84-89 | the entry of one file; its path is stated by `InfoRelativePath` |
| Extractor.InfoRelativePath | src/extractor.py:88 | the relative path ends with the file name, and splits at `/` back into the folders and the name when none of them holds a `/` |
| ScoreExtraction.CaptureStart | src/main.py:206-209 | a group never starts before its match; its exact position is stated by `CaptureStartSpec` |
| ScoreExtraction.CaptureStartSpec | src/main.py:206-209 | for a labelled pattern a group start exists iff the two label characters and a full-width or ASCII colon stand at the match start; it then lies after the colon and the whole whitespace run that follows it; the bare pattern's group starts at the match start |
| ScoreExtraction.BacktrackSpec | src/main.py:213 | backtracking into greedy `\d+` settles on the longest group length whose continuation matches, or on none when no length does |
| ScoreExtraction.LongestFit | src/main.py:206-209 | from a group start, the group found is the longest fitting digit group, and none is found exactly when none fits |
| ScoreExtraction.MatchAtIsLongestGroup | src/main.py:206-213 | a match at a position exists iff some group length is accepted there; the reported group is the longest accepted one and is the text at the group start |
| ScoreExtraction.MatchAt | src/main.py:206-213 | the match at one start; `MatchAtIsLongestGroup` states which group it reports |
| ScoreExtraction.MatchAtDigits | src/main.py:216 | a captured group is a non-empty run of digits, so `int()` can reject it only for its length (see `PatternScore`) |
| ScoreExtraction.FirstHit | src/main.py:213 | a left-to-right scan returns the first position with a hit, or none when no position in range has one |
| ScoreExtraction.Search | src/main.py:213 | `re.search` returns the leftmost start where the pattern matches, with its digit group; none means no start matches |
| ScoreExtraction.PatternScore | src/main.py:213-220 | a pattern contributes exactly when its leftmost match exists, its group has at most 4300 digits (more make `int()` raise `ValueError`, and the pattern is skipped) and reads at most 100; the contribution is then the integer value of that group |
| ScoreExtraction.FirstScore | src/main.py:212-218 | the result is present iff some pattern contributes, and then it is the contribution of the first pattern that does |
| ScoreExtraction.FirstScoreIsFirst | src/main.py:212-218 | when pattern `k` contributes and all earlier ones do not, the result is pattern `k`'s value |
| ScoreExtraction.ExtractScore | src/main.py:212-222 | `_extract_score` returns `None` or an integer in [0, 100], and `None` exactly when no pattern contributes |
| ScoreExtraction.ExtractScoreOrderedChoice | src/main.py:205-218 | the score is `v` iff some pattern yields `v` from its leftmost match and every earlier pattern yields nothing |
| ScoreExtraction.NoSlashNoBareHit | src/main.py:209 | without a `/` in the text the bare `NN/100` pattern never matches |
| ScoreExtraction.NoLabelNoHit | src/main.py:206-208 | a labelled pattern never matches a text missing a character of its label |
| ScoreExtraction.SearchFinds | src/main.py:213 | when no earlier start matches and the pattern matches at `h`, the search reports `h` |
| ScoreExtraction.ScoreByFirstPattern | src/main.py:212-218 | a contribution of the first pattern decides the score |
| ScoreExtraction.ScoreByLastPattern | src/main.py:212-218 | when the three labelled patterns contribute nothing, the bare pattern decides |
| ScoreExtraction.NoScoreFromAnyPattern | src/main.py:222 | when no pattern contributes, the score is `None` |
| ScoreExtraction.ExampleLabelledScore | src/result_saver.py:504 | the saver's self-test evaluation (`## 总体评分\n- 分数: 85/100\n\n## 优点…`) scores 85, by the first pattern on its second line |
| ScoreExtraction.LabelledMissesBoldText | src/main.py:206 | the first pattern finds no match in `**分数**: 85/100` |
| ScoreExtraction.LabelledPatternsMissBoldText | src/main.py:206-208 | in `**分数**: 85/100` no labelled pattern matches, because of the `**` between the label and the colon |
| ScoreExtraction.BareMatchInBoldText | src/main.py:209 | in `**分数**: 85/100` the bare pattern's leftmost match captures `85` |
| ScoreExtraction.ExampleBoldLabelledScore | src/main.py:206-209 | `**分数**: 85/100`, the format the batch prompt asks for, still gives 85, through the bare pattern |
| ScoreExtraction.GotMissesRepeatedText | src/main.py:213-218 | in `得分: 150 得分: 80` the leftmost `得分` match captures 150, so that pattern contributes nothing and the later 80 is never tried |
| ScoreExtraction.ExampleLeftmostOutOfRange | src/main.py:213-218 | `得分: 150 得分: 80` gives `None` |
| ScoreExtraction.ExampleOverlongScore | src/main.py:213-220 | `分数: ` with more than 4298 zeros before `85/100`: the first pattern's leftmost group is worth 85 but is too long for `int()`, the bare pattern's group raises too, and the score is `None` |
| Text.LeadingZerosValue | src/main.py:216 | `int()` ignores leading zeros |
| Text.DigitRunEndIs | src/main.py:206-209 | the digit run from a position ends at the first non-digit |
| ScoreExtraction.NoScoreWithoutLabelOrSlash | src/main.py:205-222 | a text with none of `数`, `得`, `评` and `/` gives `None` |
| ScoreExtraction.ExampleNoScore | src/main.py:222 | the empty text and `代码优秀` give `None` |
| EvaluationRun.FailureText | src/main.py:153 | a failed record's evaluation is `评价失败: ` followed by the exception message, and the message can be read back |
| EvaluationRun.Success | src/main.py:121-132 | the success record keeps the file's name fields and the evaluation, and its score is `_extract_score` of that evaluation: `None` or in [0, 100] |
| EvaluationRun.Failure | src/main.py:149-156 | the failure record keeps the file's name fields, has score `None` and carries the failure text |
| EvaluationRun.FileRecordsAsWritten | src/main.py:116-156 | as written, one iteration appends two records exactly when individual reports are on, the model answered and the save raised, and one record otherwise |
| EvaluationRun.DoubleRecordForOneFile | src/main.py:132-153 | a file whose report save raises leaves a success record followed by a failure record |
| EvaluationRun.FileRecord | src/main.py:116-156 | corrected: one record per file; when the whole per-file block succeeded it carries the evaluation and `_extract_score` of it, otherwise a `None` score and the failure text |
| EvaluationRun.FileRecordIsLastAsWritten | src/main.py:132-156 | the corrected record is the last record the code as written appends, and the only one when no save fails |
| EvaluationRun.Records | src/main.py:98-156 | the corrected loop gives exactly one record per scanned file, in scan order |
| EvaluationRun.SaveFailures | src/main.py:135-142 | failing saves can only occur when individual reports are on |
| EvaluationRun.RecordsAsWritten | src/main.py:98-156 | as written, the loop appends one record per file plus one per failing save; without individual reports these are exactly the corrected records |
| EvaluationRun.AsWrittenWithoutReports | src/main.py:135-142 | with individual reports off, the code as written already yields one record per file |
| EvaluationRun.Scores | src/main.py:183 | a score is in the list iff some record has it; order and multiplicity are stated by `ScoresIsFilter` |
| EvaluationRun.ScoresIsFilter | src/main.py:183 | the list comprehension keeps order and multiplicity: a split record list is collected part by part, and one record gives its score iff it is not `None` |
| EvaluationRun.ScoresSum | src/main.py:184 | `sum(scores)` is the sum of the records' scores that are not `None` |
| EvaluationRun.CountsPartition | src/main.py:179-180 | the `成功` count plus the `失败` count equals the number of results |
| EvaluationRun.MaxOf | src/main.py:185 | `max` is a member of the list and bounds every element from above |
| EvaluationRun.MinOf | src/main.py:186 | `min` is a member of the list and bounds every element from below |
| EvaluationRun.Statistics | src/main.py:182-186 | statistics are printed iff some score is truthy (present and non-zero); then the count is the number of present scores, the total (the average's numerator) is their sum, min ≤ max, both are taken from the scores and bound every present score |
| EvaluationRun.RunScoresInRange | src/main.py:121-186 | the loop's scores, and so the printed max and min, lie in [0, 100] |
| EvaluationRun.Run | src/main.py:77-190 | corrected run (one record per file; the code as written is `RunAsWritten`): a failed extraction, a failed scan or an empty scan returns `[]` and leaves earlier results and outputs alone; otherwise the new records follow the earlier ones one per file, the summary files are written when asked for, and the whole list is returned; the scan outcome (the files and each one's evaluation attempt) is an input, not derived from `Extractor.ScanCppFiles` |
| EvaluationRun.RunAsWritten | src/main.py:77-190 | as written, the same early returns; otherwise the results grow by one record per file plus one per failing save |
| EvaluationRun.CountsAddUpToFiles | src/main.py:178-180 | on a first run, `成功` plus `失败` equals `总计评价`, the number of files |
| EvaluationRun.CountsExceedFilesAsWritten | src/main.py:178-180 | as written, one file whose report save raises is counted twice: `成功` plus `失败` is 2 against 1 file |
| ResultSaver.Sanitize | src/result_saver.py:55 | sanitising keeps the length, turns every `/` and `\` into `_` and leaves every other character in place |
| ResultSaver.SanitizeIsClean | src/result_saver.py:300 | a sanitised name holds neither separator, and sanitising is idempotent |
| ResultSaver.SanitizeKeepsClean | src/result_saver.py:55 | a name without separators is unchanged |
| ResultSaver.ReportFileNameShape | src/result_saver.py:52-56 | the report name starts with the sanitised name, holds no separator, and ends `_评价报告.md` iff the format is `markdown`, `_评价报告.txt` otherwise |
| ResultSaver.ReportFileName | src/result_saver.py:52-56 | the report file name; `ReportFileNameShape` states its shape |
| ResultSaver.PdfDisplayNameParts | src/result_saver.py:300-302 | the PDF stem ends with the sanitised name; it is that name alone when the id is falsy; it holds a separator only when the id does; an underscore-free id is what precedes the first `_` |
| ResultSaver.PdfDisplayNameLayout | src/result_saver.py:300-301 | with a truthy id the stem is exactly `{id}_{safe_name}`: it starts with the id and `_`, ends with the safe name, and is exactly as long as the two together |
| ResultSaver.PdfDisplayName | src/result_saver.py:300-301 | the PDF stem; `PdfDisplayNameParts` and `PdfDisplayNameLayout` state its shape |
| ResultSaver.PdfFileName | src/result_saver.py:302 | the PDF file name, the stem followed by `_评价报告.pdf` |
| ResultSaver.StatusLabel | src/result_saver.py:188-193 | `已评价` iff the status is missing or `evaluated`; `未提交` iff `not_submitted`; `评价失败` iff `failed`; `未知` for `None` and every other value |
| ResultSaver.EvaluationText | src/result_saver.py:407-417 | a missing evaluation reads `无评价`; `None` or a blank one becomes `该题目暂无评价内容`; otherwise the text is stripped and loses its leading marker |
| ResultSaver.StripOfTrimmed | src/result_saver.py:414 | a text with no whitespace at either end is its own strip |
| ResultSaver.CloseAt | src/result_saver.py:417 | the scan stops at the first `】` or line break, or at the end |
| ResultSaver.MarkerEndSpec | src/result_saver.py:417 | the marker is found iff the text starts with `【题目`, digits, an ASCII colon and a `】` before any line break; the removal then ends after the first such `】` and all whitespace after it |
| ResultSaver.MarkerFound | src/result_saver.py:417 | when some marker head is present, the one the removal looks at ends at the digit run and the first `】` after it |
| ResultSaver.StripMarkerSpec | src/result_saver.py:417 | text without a leading marker is unchanged; otherwise what is left starts after the marker's first `】` and the whole whitespace run after it |
| ResultSaver.StripMarker | src/result_saver.py:417 | the marker removal; `StripMarkerSpec` states what it leaves |
| ResultSaver.ExampleMarkerRemovedOnce | src/result_saver.py:417 | only the first of two markers is removed |
| ResultSaver.ExampleMarkerAcrossLines | src/result_saver.py:417 | a marker whose `】` comes after a line break stays |
| ResultSaver.EscapeIsPerCharacter | src/result_saver.py:427 | replacing `&` first, then `<`, then `>` is the same as escaping each character on its own |
| ResultSaver.EscapeIsSafe | src/result_saver.py:427 | the escaped text holds no raw `<` or `>`, and every `&` in it begins `&amp;`, `&lt;` or `&gt;` |
| ResultSaver.UnescapeEscape | src/result_saver.py:427 | unescaping the escaped paragraph gives it back |
| ResultSaver.Escape | src/result_saver.py:427 | the XML escape; `EscapeIsSafe`, `EscapeIsPerCharacter` and `UnescapeEscape` state its properties |
| ResultSaver.LineBlock | src/result_saver.py:423-445 | one line becomes a spacer iff it is blank, and otherwise safe markup that unescapes to the stripped line |
| ResultSaver.Paragraphs | src/result_saver.py:420-445 | the `\n`-separated lines join back to the text and there is one block per line, in order; a block is a spacer iff its line is blank, and otherwise safe markup that unescapes to the stripped line |
| ResultSaver.PresentScores | src/result_saver.py:487 | a score is kept iff some entry holds it as present (a missing key counts as `None`); nothing is kept iff no entry is present |
| ResultSaver.PresentScoresIsFilter | src/result_saver.py:487 | keeping the present scores is a filter: a split list is filtered part by part, in order, and one entry is kept iff it is present |
| ResultSaver.PresentScoresSumCount | src/result_saver.py:487-493 | the kept list sums to the present scores' sum and has their number as its length |
| ResultSaver.TotalScore | src/result_saver.py:487-493 | there is nothing to total iff no score is present; otherwise the total is the sum of the present scores and the count is their number, at least one |
| ResultSaver.TotalScoreTextZero | src/result_saver.py:488-493 | the cell reads `0/0` iff no score is present |
| ResultSaver.TotalScoreText | src/result_saver.py:488-493 | the cell reads `0/0` iff there is nothing to total; otherwise it starts with the rendered average and ends with ` (总分: `, the total, `/`, 100 × the count and `)` |
| ResultSaver.TotalScoreTextReadBack | src/result_saver.py:493 | with the same average, two cells are equal only for the same total and count: the cell determines both |
| ResultSaver.TotalScoreCell | src/result_saver.py:487-493 | when a score is present the cell shows the sum of the present scores over 100 × their number |
| Text.IntToStringInjective | src/result_saver.py:493 | different integers render differently under `str` |
| Text.IntToStringHasNoSlash | src/result_saver.py:493 | `str` of an integer holds no `/`, so the total ends at the cell's first `/` |
| Text.SplitAtFirst | src/result_saver.py:493 | the parts before and after the first separator are fixed by the whole text |
| ResultSaver.TotalWithinDenominator | src/result_saver.py:491-493 | with every present score in [0, 100], the total lies between 0 and 100 × the count |
| Prompts.Fill | config/prompts.py:195-200 | `format` succeeds iff every hole of the template names a supplied key |
| Prompts.FillContainsValues | config/prompts.py:195-200 | every value put into a hole occurs in the formatted text |
| Prompts.SelectionByWeek | config/prompts.py:190-193 | week `02` gets the week-specific template, every other week the basic one; the batch templates follow the same rule |
| Prompts.SelectPrompt | config/prompts.py:190-193 | the single-file template choice; `SelectionByWeek` states it |
| Prompts.SelectBatchPrompt | config/prompts.py:242-245 | the batch template choice; `SelectionByWeek` states it |
| Prompts.PromptHoles | config/prompts.py:190-200 | the single-file templates use only the four single-file holes, and the week appears as a hole only outside week `02` |
| Prompts.GetPrompt | config/prompts.py:190-200 | `get_prompt` never raises; the name, file name and code appear in the prompt, and the week does too outside week `02` |
| Prompts.FieldDefaultOnlyWhenAbsent | config/prompts.py:227-229 | a field shows its default only for a missing key (or a value equal to it); `None` shows as `None` |
| Prompts.BuildCodesText | config/prompts.py:225-238 | the accumulating loop builds exactly the blocks of all problems in input order, numbered from 1 |
| Prompts.CodesTextPrefix | config/prompts.py:226-238 | the code section of the first `j` problems is a prefix of the whole code section |
| Prompts.BlockInPlace | config/prompts.py:226-238 | the block of problem `i`, numbered `i + 1`, follows the blocks of all problems before it |
| Prompts.HeaderIndexOfBlock | config/prompts.py:232 | the index in a block's `### 题目{idx}:` header reads back as `idx`, whatever the problem's name |
| Prompts.CodeBlockLayout | config/prompts.py:226-239 | one problem's block opens with `### 题目{idx}: `, the name (`题目{idx}` when the key is missing), `文件名: ` and the file name (`main.cpp` when missing), then the cpp fence, and it closes with the code (empty when missing) and the closing fence |
| Prompts.CodeBlockOfEmptyProblem | config/prompts.py:227-239 | a problem with no keys gives the block with all three defaults |
| Prompts.FillHasValue | config/prompts.py:195-200 | the value of a hole the template uses occurs in the formatted text |
| Prompts.BatchHoles | config/prompts.py:242-254 | both batch templates contain exactly the five batch holes |
| Prompts.GetBatchPrompt | config/prompts.py:242-254 | `get_batch_prompt` never raises; the prompt shows the name, the id or `无`, the week, the number of problems and the code section |
| Prompts.EmptyProblemList | config/prompts.py:225-254 | with no problems the code section is empty and the count reads `0` |
| Text.Strip | src/result_saver.py:414 | `strip` leaves an infix with only whitespace around it that neither starts nor ends with whitespace, and is empty iff the text is all whitespace |
| Text.StripIdempotent | src/result_saver.py:423 | stripping twice is stripping once |
| Text.Split | src/extractor.py:125 | `split` gives at least one part, none holding the separator, and joining them gives the text back; a text without the separator is its own single part |
| Text.SplitJoin | src/result_saver.py:420 | splitting a join of separator-free parts gives the parts back |
| Text.ReplaceCharPointwise | src/result_saver.py:55 | replacing one character by one character keeps the length and changes each position on its own |
| Text.NatToString | config/prompts.py:252 | `str(n)` is a non-empty digit string without a leading zero |
| Text.NatToStringRoundTrip | src/main.py:216 | `int(str(n)) == n` |
| Text.NatToStringInjective | config/prompts.py:232 | different numbers render differently |

## Left out

- ScoreExtraction.PatternScore: the `int()` digit limit is CPython's default
  of 4300. Changing it (`sys.set_int_max_str_digits`, `PYTHONINTMAXSTRDIGITS`)
  is interpreter configuration, and interpreters older than the limit accept
  any length.
- ZIP extraction, the `rglob` walk and reading code in several encodings
  (src/extractor.py:25-46, 79, 134-160) are filesystem I/O.
  `Extractor.ScanCppFiles` takes the file listing as input.
- `Extractor.ScanCppFiles` ignores directories. The listing it takes holds
  files only, relative to the scan root. The relative path is joined with
  `/`, not the platform separator.
- The absolute `file_path` and every `datetime.now()` timestamp are left out
  of the records; they depend on the machine and the clock. In place of
  `file_path` a record carries the path relative to the scan root, as the
  scanned entry does (src/extractor.py:88); it identifies the file without
  depending on where the ZIP was unpacked.
- The language-model clients and `get_evaluator` (src/llm_evaluator.py) are
  network SDKs. Their outcome, and that of `read_code` and
  `save_individual_report`, enters as `EvaluationRun.Attempt`.
- Excel, PDF and JSON document building, Markdown and text report layout, and
  directory creation are left out. These are rendering libraries and the
  filesystem. For the summary files the model records only whether they are
  written.
- Console output (`print`) is left out. The run's printed summary is modelled
  as `EvaluationRun.Summary`.
- Float averages and `%.1f` formatting (src/main.py:184,
  src/result_saver.py:492-493) are floating point. `EvaluationRun.Stats` keeps
  the integer total and count. `ResultSaver.TotalScoreText` takes the
  rendered average as an argument.
- The Markdown bold/italic rewrite and the tag-stripping fallback
  (src/result_saver.py:431-441) only feed reportlab's markup parser. The
  paragraph markup modelled is the escaped text before that rewrite.
- The PDF problem heading (src/result_saver.py:397-403) is left out. It is
  reportlab layout, and its `score` default of 0 never changes the total
  score.
- `\d` is modelled as ASCII digits. `\s` and `str.strip` use the fixed
  `str.isspace` set in `Text.IsSpace`. `lower()` is ASCII-only, which is exact
  for matching the ASCII extension list. Other Unicode digits and case
  mappings are not modelled.
- Dict values are modelled as strings or `None` (`Wrappers.Field`). `str()`
  of other value types in f-strings is not modelled.
- The instruction prose inside the four templates is shortened to bracketed
  tags. Only the holes, their order and the labels next to them are kept.
- Prompts.GetPrompt: states that each value appears in the prompt, not its
  exact position; the filled text is `Prompts.Fill` of the selected
  template.
- Prompts.GetBatchPrompt: states that each value appears in the prompt, not
  its exact position; the filled text is `Prompts.Fill` of the selected
  template.
- The interactive scripts test_api.py and test_structure.py are left out.
  They do API and filesystem I/O and call methods the extractor does not
  have.
- config/__init__.py is a re-export only.

## Findings

| source | as written | input that shows it | evidently intended | confidence | as-written member | corrected member |
|---|---|---|---|---|---|---|
| src/main.py:132-156 | The success record is appended before `save_individual_report` runs. If the save raises, the handler appends a second, failed record for the same file. | One file, `save_individual=True`, the model answers, and the report save raises. The results then hold two records for one file, and `成功` + `失败` = 2 against `总计评价` 1. | Exactly one record per file. A failing save yields the failure record instead of the success record. | not executed | EvaluationRun.DoubleRecordForOneFile | EvaluationRun.FileRecord |
