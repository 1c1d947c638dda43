# ai-assignment-grader: a Dafny model of its text rewriters and decision rules

The assignment-grading repository holds a few small pieces of logic between its LLM calls and its
file plumbing. This project models that logic as pure Dafny functions over
`string` (`seq<char>`) and integers, and proves what each piece promises:

- **Template-literal converters.** Three sibling tools rewrite JavaScript template
  literals (`` `a${x}b` ``) into string concatenation (`"a" + (x) + "b"`).
  - `convert-templates.py`, module `ConvertTemplates`: a span regex with a per-span
    converter that has a single-line and a multi-line mode. The file conversion is
    the program as written; the multi-line mode with its third clean-up corrected is
    kept beside it for the finding below.
  - `fix-templates.js`, module `FixTemplates`: a character scanner with brace-depth
    counting and indentation skipping, followed by three global clean-ups. It is
    modelled both as a recursive function and as the imperative loop of the source,
    and the loop is proved equal to the function.
  - `fix-backticks.js`, module `FixBackticks`: a two-pass regex rewriter. Its
    `String.replace` is modelled with JavaScript's `$`-patterns.
  - Module `Rewrite` holds the two rewrites they share: the hole substitution
    `${E}` → `" + (E) + "` and the `lead\s*\+\s*trail` clean-up rules.
  - Module `CrossCheck` compares the three tools on the same input.
- **Student-header parsers.**
  - `extractStudentInfoNEW` and `extractStudentInfoOLD` in `test-grader-fix.js`,
    module `StudentInfo`.
  - The field patterns and the header-removal pipeline of `test-regex.js`, module
    `HeaderRegex`.
  - Both share the case-insensitive key matchers of module `HeaderKeys`.
- **CSV helpers of `scripts/utils.js`**, module `CsvUtils`:
  - `sanitizeText`;
  - the statistics of `getStatistics`, including the grade-letter histogram;
  - the defaulting rules for a saved result row.
- **The AI-usage penalty**, module `AiPenalty`. The tier table and the final-score
  identity are the ones `test-grading.js` asserts.

Module `Text` provides whitespace, `trim`, `split`/`join`, search and replace.
Module `Wrappers` provides `Option`. Whitespace is the six ASCII characters
(space, tab, LF, VT, FF, CR), and the line terminators are LF and CR.

## Model

| member | source | states |
|---|---|---|
| Text.Split | convert-templates.py:7 | `split` always gives at least one piece |
| Text.SplitShape | convert-templates.py:7-9 | no piece holds the separator, and there is more than one piece exactly when the separator occurs |
| Text.JoinSplit | convert-templates.py:7 | joining the pieces of a split with the separator gives back the text |
| Text.SplitJoin | convert-templates.py:7 | splitting a join of separator-free pieces gives back the pieces |
| Text.TrimSlice | test-grader-fix.js:49 | `trim` keeps exactly the text between a leading and a trailing run of whitespace |
| Text.TrimEdges | test-regex.js:65 | a trimmed text neither starts nor ends with whitespace |
| Text.TrimmedIsFixed | test-grader-fix.js:58 | trimming a text without whitespace at either end changes nothing |
| Text.TrimEmpty | convert-templates.py:15 | a line strips to nothing exactly when it is all whitespace |
| Text.CutAtShape | convert-templates.py:14 | `[^}]+\}` stops at the first `}`: the cut exists exactly when `}` occurs, and the text is rebuilt from the two halves |
| Text.FindPairShape | convert-templates.py:40 | a span found runs from the first backtick to the next one, and the text is rebuilt around it |
| Text.ReplaceAllSelf | fix-backticks.js:21 | replacing `\n` by `\n` is the identity |
| Text.ReplaceAllAbsent | fix-backticks.js:27 | a global replace whose pattern does not occur changes nothing |
| Rewrite.SubHolesIdle | convert-templates.py:14 | text without `${`, or without `}`, is unchanged by the hole substitution |
| Rewrite.SubHolesDollarFree | convert-templates.py:14 | text without `$` is copied unchanged, whatever follows it |
| Rewrite.SubHolesHole | convert-templates.py:14 | `${E}` with E non-empty and free of `}` becomes `" + (E) + "` |
| Rewrite.SubHolesEmptyHole | convert-templates.py:14 | `${}` is not a hole and is kept as written |
| Rewrite.SubHolesAvoids | convert-templates.py:14 | the substitution adds no character other than those of `" + ()` |
| Rewrite.SubHolesRender | convert-templates.py:29 | on a text built from literal pieces and holes, exactly the holes become splices and the literal text is kept |
| Rewrite.GapLenIsGap | convert-templates.py:21 | what `\s*\+\s*` matches is whitespace, one plus sign, whitespace |
| Rewrite.GapLenGreedy | convert-templates.py:21 | `\s*\+\s*` is greedy: no whitespace follows the gap it takes |
| Rewrite.MatchRuleShape | convert-templates.py:21-24 | a match of a clean-up rule is its lead, a gap and its trail, in that order |
| Rewrite.ApplyRulePlusFree | convert-templates.py:21-24 | a clean-up rule never changes text without a plus sign |
| Rewrite.ApplyRuleSpaced | convert-templates.py:21-24 | lead, ` + ` and trail are replaced, and scanning resumes after the trail |
| Rewrite.ApplyRuleNoMatch | convert-templates.py:21-24 | a text in which no position starts a match is left unchanged |
| Rewrite.QuotePairRuleIdle | convert-templates.py:31-32 | the rules that need an empty literal `""` never fire on text without two adjacent quotes |
| ConvertTemplates.ConvertLiteral | convert-templates.py:7-9 | a span is converted in multi-line mode, with the clean-ups as written, exactly when its content holds a newline, and in single-line mode otherwise |
| ConvertTemplates.Parts | convert-templates.py:11-17 | at most one part per line of the span |
| ConvertTemplates.PartsSnoc | convert-templates.py:12-16 | the parts are built line by line, in order: one more line adds exactly that line's converted text as a quoted part, or nothing when the converted line is blank |
| ConvertTemplates.SingleLine | convert-templates.py:27-33 | single-line mode (no contract of its own): `SingleLinePlain` and `SingleLineLoneHole` state what it gives |
| ConvertTemplates.MultiLineAsWritten | convert-templates.py:9-26 | multi-line mode with the four clean-ups as written (no contract of its own): `PartsEmpty`, `MultiLineAllBlank` and `MultiLineTightOpen` state what it gives |
| ConvertTemplates.Parse | convert-templates.py:40 | the file is cut into code, span, code, ..., starting with code |
| ConvertTemplates.ParseSpan | convert-templates.py:40 | the first span runs from a backtick to the next one, and the code before it is kept |
| ConvertTemplates.ParseUnclosed | convert-templates.py:40 | a single backtick opens no span |
| ConvertTemplates.SourceParse | convert-templates.py:40 | putting the pieces back together gives the file |
| ConvertTemplates.ParseSource | convert-templates.py:40 | cutting a file written from backtick-free pieces gives back those pieces |
| ConvertTemplates.ConvertFileChunks | convert-templates.py:40 | every span is replaced by its conversion, and the code between spans is copied unchanged |
| ConvertTemplates.ConvertFile | convert-templates.py:35-42 | the whole conversion as written: a file without backticks is left as it is |
| ConvertTemplates.ConvertFileSwallowsHole | convert-templates.py:23-40 | as written, the template literal `a${e}b` plus a newline comes out of the file conversion as `"a(e) + "b\n"`, the hole inside a string |
| ConvertTemplates.ConvertFileSpan | convert-templates.py:40 | a file that is one span becomes that span's conversion |
| ConvertTemplates.SingleLinePlain | convert-templates.py:28-33 | single-line content without `"` and without `${` is just wrapped in quotes; a lone `$` is kept |
| ConvertTemplates.ConvertLiteralPlain | convert-templates.py:27-33 | a one-line span without `"` and without `${` converts to `"` + content + `"` |
| ConvertTemplates.SingleLineLoneHole | convert-templates.py:29-32 | a span that is only `${e}` gives `"" + (e) + ""`, because neither clean-up fires |
| ConvertTemplates.ConvertLiteralLoneHole | convert-templates.py:29-32 | the Python tool keeps both empty literals around a lone hole |
| ConvertTemplates.PartsEmpty | convert-templates.py:12-17 | no part survives exactly when every converted line is whitespace |
| ConvertTemplates.MultiLineAllBlank | convert-templates.py:18-26 | a multi-line span whose converted lines are all blank gives `""` |
| ConvertTemplates.PartsNoNewline | convert-templates.py:14-16 | the quoted parts hold no raw newline |
| ConvertTemplates.JoinNewlines | convert-templates.py:19 | joining n newline-free parts puts exactly n - 1 newlines into the text |
| ConvertTemplates.MultiLineSeparators | convert-templates.py:16-19 | before clean-up, a multi-line span holds one separator fewer than it has surviving parts |
| ConvertTemplates.MultiLinePart | convert-templates.py:12-16 | the line `a${e}b` becomes the single part `"a" + (e) + "b\n"` |
| ConvertTemplates.MultiLineTightOpen | convert-templates.py:21-24 | as written, the four clean-ups turn `a${e}b` on a multi-line span into `"a(e) + "b\n"` |
| ConvertTemplates.MultiLineKeepsHole | convert-templates.py:21-24 | with the corrected third clean-up, the part `"a" + (e) + "b\n"` is kept as it is |
| ConvertTemplates.TightOpenSwallowsHole | convert-templates.py:23 | as written, the expression of the hole ends up inside a string literal |
| ConvertTemplates.TightOpenFixedKeepsHole | convert-templates.py:23 | corrected, the expression of the hole sits outside every string literal |
| FixTemplates.HoleBody | fix-templates.js:27-33 | the hole scanner never reads past the end of the input |
| FixTemplates.StepOf | fix-templates.js:10-59 | every turn of the loop advances the index by at least one and stays within the input, so the scan ends |
| FixTemplates.Scan | fix-templates.js:10-59 | the output of the scanning loop (no contract of its own): `ScanLoop` proves the loop equal to it, and `ScanCode`, `ScanHole`, `ScanLineFeed`, `ScanCrLf`, `ScanEscaped` and `ScanText` state each branch |
| FixTemplates.ConvertFile | fix-templates.js:3-66 | `convertFile` without the file access (no contract of its own): `ConvertFileLoop`, `ConvertFileLoneHole`, `ConvertFilePlainSpan` and `ConvertFileFusesCode` state what it gives |
| FixTemplates.StepLoop | fix-templates.js:11-58 | one turn of the loop body, inner loops included, advances the index and does what one step of the scanner function does |
| FixTemplates.HoleLoop | fix-templates.js:27-33 | the brace-counting loop copies what the hole scanner copies and consumes as much |
| FixTemplates.SkipIndent | fix-templates.js:40-42 | the skipping loop stops after exactly the run of spaces and tabs |
| FixTemplates.ScanLoop | fix-templates.js:6-59 | the while loop computes the scanner's output |
| FixTemplates.ConvertFileLoop | fix-templates.js:3-66 | `convertFile` is the scan followed by the three clean-ups |
| FixTemplates.StepToggle | fix-templates.js:11-22 | the template state flips exactly on a backtick, and a backtick is written as `"` |
| FixTemplates.ScanCode | fix-templates.js:55-57 | outside a template, text without a backtick is copied verbatim |
| FixTemplates.ScanCodeOnly | fix-templates.js:10-59 | a file without a backtick goes through the scanner unchanged |
| FixTemplates.HoleSkip | fix-templates.js:28-33 | brace-free text inside a hole is copied at any depth |
| FixTemplates.HoleFlat | fix-templates.js:23-34 | a hole without nested braces is its text up to the first `}`, which is consumed and dropped |
| FixTemplates.HoleNested | fix-templates.js:27-33 | nested braces are copied, and only the brace that returns the depth to 0 is dropped |
| FixTemplates.HoleUnclosed | fix-templates.js:28-33 | an unclosed hole takes everything up to the end of the input |
| FixTemplates.ScanHole | fix-templates.js:23-34 | inside a template, `${e}` becomes `" + (e) + "`, and the scan stays inside the template |
| FixTemplates.HoleHidesBacktick | fix-templates.js:28-33 | a backtick inside a hole is expression text and does not end the template |
| FixTemplates.ScanUnclosed | fix-templates.js:23-34 | an unclosed hole takes the rest of the input, and `) + "` is still written |
| FixTemplates.IndentOf | fix-templates.js:40-42 | the indentation skipped is exactly the run of spaces and tabs |
| FixTemplates.ScanLineFeed | fix-templates.js:43-50 | inside a template, LF becomes backslash-`n`, and the indentation after it is skipped |
| FixTemplates.ScanCrLf | fix-templates.js:35-42 | inside a template, CR LF becomes backslash-`n`, and the indentation after it is skipped |
| FixTemplates.ScanEscaped | fix-templates.js:51-54 | an existing backslash-`n` escape passes through |
| FixTemplates.ScanText | fix-templates.js:55-57 | inside a template, other characters are copied as they are, a `"` included, unescaped |
| FixTemplates.ScanTemplate | fix-templates.js:11-22 | a template of quiet text becomes the same text between double quotes |
| FixTemplates.ConvertFileLoneHole | fix-templates.js:62-64 | `` `${x}` `` comes out as `(x)` |
| FixTemplates.ConvertFilePlainSpan | fix-templates.js:10-64 | a template of plain text comes out as the same text in double quotes |
| FixTemplates.ConvertFileFusesCode | fix-templates.js:64 | the clean-ups also touch ordinary code: `"a" + "b"` becomes `"ab"` |
| FixBackticks.HasHoleIff | fix-backticks.js:10 | the first pass takes a span exactly when some `${` in it has a `}` after it |
| FixBackticks.TemplatesSkip | fix-backticks.js:10-13 | text without a backtick starts no span |
| FixBackticks.TemplatesSpan | fix-backticks.js:10-13 | a backtick-free span with a hole is found, and the search resumes after it |
| FixBackticks.TemplatesNoHole | fix-backticks.js:10-13 | a span without a hole is skipped, and its closing backtick may open the next span |
| FixBackticks.TemplatesShape | fix-backticks.js:10-15 | every span found holds no backtick and has a hole |
| FixBackticks.ExpandLiteral | fix-backticks.js:31 | a replacement without `$` is inserted literally |
| FixBackticks.ReplaceFirstAgree | fix-backticks.js:31 | without `$` in the replacement, JavaScript's replace and a literal replace agree |
| FixBackticks.ReplaceFirstAt | fix-backticks.js:31 | replace changes the first occurrence only, and keeps the text before and after it |
| FixBackticks.ReplaceFirstAbsent | fix-backticks.js:31 | text without an occurrence of the pattern is left alone |
| FixBackticks.PlainifySkip | fix-backticks.js:35 | the second pass copies text without a backtick |
| FixBackticks.PlainifySpan | fix-backticks.js:35 | a span without `$` becomes `"` + content + `"`, raw line breaks included |
| FixBackticks.PlainifyIdle | fix-backticks.js:35 | text without a backtick is left alone by the second pass |
| FixBackticks.PlainifyDollarSpan | fix-backticks.js:35 | a span with `$` keeps its backticks |
| FixBackticks.CollapseAbsent | fix-backticks.js:27 | `" + "" + "` cannot occur when `""` appears only at the ends |
| FixBackticks.ConvertInnerQuoted | fix-backticks.js:18-29 | without a collapse, a span's conversion is its spliced text in quotes with the two ends stripped |
| FixBackticks.StripBoth | fix-backticks.js:28-29 | a leading `"" + ` and a trailing ` + ""` are both stripped |
| FixBackticks.StripNone | fix-backticks.js:28-29 | a text that starts and ends with a non-empty literal is not stripped |
| FixBackticks.ConvertInnerSpliced | fix-backticks.js:18-29 | a span splicing to text, one hole and text converts to the two literals around the parenthesised hole |
| FixBackticks.ConvertInnerLoneHole | fix-backticks.js:18-29 | a span that is only `${x}` converts to `(x)` |
| FixBackticks.ConvertInnerHole | fix-backticks.js:18-29 | the span `a${x}b` converts to `"a" + (x) + "b"` |
| FixBackticks.ConvertSingleSpan | fix-backticks.js:3-37 | content that is one span with a hole becomes that span's conversion, with either replace |
| FixBackticks.ConvertAsWritten | fix-backticks.js:3-38 | the tool as written: content without a backtick comes back unchanged |
| FixBackticks.Convert | fix-backticks.js:3-38 | the tool with the converted text put in literally: content without a backtick comes back unchanged |
| FixBackticks.ConvertLoneHole | fix-backticks.js:3-37 | `` `${x}` `` becomes `(x)` |
| FixBackticks.ConvertHoleSpan | fix-backticks.js:3-37 | `` `a${x}b` `` becomes `"a" + (x) + "b"` |
| FixBackticks.ConvertPlainSpan | fix-backticks.js:35 | a span without `$` becomes a double-quoted string with the same text, raw line breaks included |
| FixBackticks.ConvertDollarSpan | fix-backticks.js:10-35 | a span with a `$` but no hole is kept with its backticks |
| FixBackticks.ApplyAllAgree | fix-backticks.js:13-32 | the two replaces agree while no span's conversion holds a `$` |
| FixBackticks.ConvertAgree | fix-backticks.js:3-37 | the tool as written differs from the literal-replace version only through a `$` in a conversion |
| FixBackticks.ConvertAmpSpan | fix-backticks.js:31 | as written, `$&` in a conversion splices the whole original template literal back into the output |
| FixBackticks.ConvertAmpSpanFixed | fix-backticks.js:31 | put in literally, `$&${x}b` converts to `"$&" + (x) + "b"` like any span with text around one hole |
| CrossCheck.LoneHoleAcrossTools | convert-templates.py:29-32 | on `` `${x}` `` the Python tool gives `"" + (x) + ""` and both JavaScript tools give `(x)` |
| CrossCheck.PlainSpanAcrossTools | convert-templates.py:27-33 | on a plain one-line template all three tools give the same double-quoted string |
| HeaderKeys.KeyColon | test-grader-fix.js:52-56 | a key match ends at a colon inside the text |
| HeaderKeys.KeyColonShape | test-grader-fix.js:52-56 | the colon found is the first one, and the text before it spells a key up to case and trailing whitespace |
| HeaderKeys.KeyColonOf | test-grader-fix.js:52-56 | conversely, the first colon is found exactly when a key is spelled before it |
| HeaderKeys.KeyInitial | test-grader-fix.js:52-56 | every key starts with the first letter of one of its words |
| HeaderKeys.KeysDisjoint | test-grader-fix.js:52-56 | no text spells the strict keys of two different fields |
| HeaderKeys.NameSpellings | test-grader-fix.js:52 | `STUDENT_NAME`, `STUDENT NAME` and `STUDENTNAME` are name keys, and plain `NAME` is one in the unanchored patterns |
| HeaderKeys.RollSpellings | test-grader-fix.js:53 | `ROLL` with or without a separator and a number word is an identifier key |
| HeaderKeys.PracticalSpellings | test-grader-fix.js:56 | `PRACTICAL` or `ASSIGNMENT`, optionally followed by whitespace and a number word, is a practical key |
| HeaderKeys.EndFromShape | test-grader-fix.js:52 | `\s*(.+)$` captures a non-empty, break-free end of the text, starting as late as backtracking allows |
| HeaderKeys.EndFromNone | test-grader-fix.js:52 | `\s*(.+)$` fails only when no start it tries fits |
| HeaderKeys.EndValueTrimmed | test-grader-fix.js:52-58 | on a trimmed line, the capture is the text after the colon without its leading whitespace, and none exists when that text is empty or breaks the line |
| HeaderKeys.LineLenShape | test-regex.js:34 | `.+` takes no line break and stops at one or at the end |
| HeaderKeys.LineFromShape | test-regex.js:34-42 | the capture of `\s*(.+)` starts at a non-break and runs to the end of its line |
| HeaderKeys.DigitLenShape | test-regex.js:46 | `\d+` takes only digits and stops at a non-digit or at the end |
| HeaderKeys.DigitValueShape | test-regex.js:46-50 | the capture of `\s*(\d+)` is a maximal, non-empty digit run right after the whitespace |
| StudentInfo.Set | test-grader-fix.js:58-62 | assigning one field leaves the other four unchanged |
| StudentInfo.Window | test-grader-fix.js:46 | `slice(0, n)` keeps at most n lines |
| StudentInfo.Hits | test-grader-fix.js:28-37 | every test of the old chain needs a colon in the line |
| StudentInfo.NewWindowOnly | test-grader-fix.js:46 | lines after the tenth never affect the new extractor |
| StudentInfo.OldWindowOnly | test-grader-fix.js:24 | lines after the twentieth never affect the old extractor |
| StudentInfo.NewCaptureIs | test-grader-fix.js:52-58 | on a keyed trimmed line, the value is everything after the colon, trimmed, or nothing when that is empty |
| StudentInfo.CaptureClean | test-grader-fix.js:52-58 | a captured value is non-empty, trimmed and on one line |
| StudentInfo.NewAnchored | test-grader-fix.js:52-56 | the new patterns only match from the start of the line |
| StudentInfo.CaptureUnique | test-grader-fix.js:52-56 | a trimmed line matches the pattern of at most one field |
| StudentInfo.ChainField | test-grader-fix.js:58-62 | the `else if` chain sets a field exactly when its pattern matches and it is still empty |
| StudentInfo.StepField | test-grader-fix.js:58-62 | one line sets a field exactly when its pattern matches and the field is empty, to the capture |
| StudentInfo.NewStepOne | test-grader-fix.js:58-62 | one line changes at most one field |
| StudentInfo.NewKeeps | test-grader-fix.js:58-62 | a field that holds a value is never overwritten |
| StudentInfo.NewNone | test-grader-fix.js:48-63 | a field no line matches keeps what it held |
| StudentInfo.NewFirst | test-grader-fix.js:48-63 | an empty field receives the capture of the first matching line |
| StudentInfo.ExtractNewFirst | test-grader-fix.js:44-65 | each field is the capture of the first of the first ten lines matching its pattern: first match wins |
| StudentInfo.ExtractNew | test-grader-fix.js:44-65 | the new extractor (no contract of its own): `ExtractNewFirst` and `ExtractNewMissing` state what it gives |
| StudentInfo.ExtractNewMissing | test-grader-fix.js:44-65 | a field none of the first ten lines matches stays `''` |
| StudentInfo.UpperMissing | test-grader-fix.js:27 | a letter absent in both cases is absent after upper-casing |
| StudentInfo.OldValuePieces | test-grader-fix.js:29 | the old value is the text between the first and second colon, trimmed |
| StudentInfo.OldStepField | test-grader-fix.js:28-38 | a hit overwrites the field, whatever it held |
| StudentInfo.OldNone | test-grader-fix.js:26-39 | a field no line hits keeps what it held |
| StudentInfo.OldLast | test-grader-fix.js:26-39 | the last line that hits a field decides it: last match wins |
| StudentInfo.ExtractOldLast | test-grader-fix.js:22-41 | each field is the value of the last of the first twenty lines that hits it |
| StudentInfo.ExtractOld | test-grader-fix.js:22-41 | the old extractor (no contract of its own): `ExtractOldLast` and `ExtractOldMissing` state what it gives |
| StudentInfo.ExtractOldMissing | test-grader-fix.js:22-41 | a field none of the first twenty lines hits stays `''` |
| StudentInfo.NoNameWithoutM | test-grader-fix.js:28 | a line without an `M` in either case never takes the name branch |
| StudentInfo.SampleNew | test-grader-fix.js:4-19 | on the sample, the new extractor gives the name `Ajay` |
| StudentInfo.SampleOld | test-grader-fix.js:4-19 | on the sample, the old extractor gives the name `John Smith` |
| HeaderRegex.Find | test-regex.js:34-50 | the match found is the leftmost: none starts earlier, and there is none at all when nothing is found |
| HeaderRegex.Extract | test-regex.js:33-51 | one field of `testExtraction`, `None` for NOT FOUND (no contract of its own): `ExtractDigits`, `ExtractText`, `ExtractAtStart` and `NameFormats` state what it gives |
| HeaderRegex.ExtractDigits | test-regex.js:46-50 | batch and practical capture a non-empty run of digits |
| HeaderRegex.ExtractText | test-regex.js:34-42 | name, identifier and email are trimmed text from one line |
| HeaderRegex.ExtractAtStart | test-regex.js:34-42 | a key, a colon and a value at the start of the text give the whole value |
| HeaderRegex.NameFormats | test-regex.js:34 | `Student Name:`, `STUDENT_NAME:` and plain `Name:` all give the value |
| HeaderRegex.HeaderAt | test-regex.js:60-64 | a removal match is non-empty and lies within the text |
| HeaderRegex.AfterColon | test-regex.js:60-64 | the `\s*.+$` after the colon is non-empty and lies within the text |
| HeaderRegex.Remove | test-regex.js:60-64 | one global, multi-line replace (no contract of its own): `RemoveLines` states what it does to a text of lines |
| HeaderRegex.RemoveHeaders | test-regex.js:59-64 | the five replaces in order (no contract of its own): `RemoveHeadersLines` states what they do together |
| HeaderRegex.TidyExamples | test-regex.js:60-64 | `Hello world` and `Example:` are tidy lines, while `Name:` and `Name` alone are not |
| HeaderRegex.RemoveLines | test-regex.js:60-64 | each pass empties exactly the header lines of its field and keeps every other line |
| HeaderRegex.EmptyNotHeader | test-regex.js:60-64 | an emptied line is no header, so later passes leave it empty |
| HeaderRegex.PassesStripped | test-regex.js:60-64 | five passes in a row empty exactly the lines that are a header of some field |
| HeaderRegex.RemoveHeadersLines | test-regex.js:59-64 | the five replaces together empty every header line and keep every other line in order |
| HeaderRegex.Collapse | test-regex.js:65 | `replace(/\n{3,}/g, '\n\n')` (no contract of its own): `CollapseRun`, `CollapseNoTriple`, `CollapseIdle` and `CollapseKeepsText` state what it gives |
| HeaderRegex.CollapseRun | test-regex.js:65 | a run of three or more line feeds becomes exactly two, and a run of one or two is kept |
| HeaderRegex.CollapseNoTriple | test-regex.js:65 | after the collapse, no three line feeds are left in a row |
| HeaderRegex.CollapseIdle | test-regex.js:65 | text without three line feeds in a row is unchanged by the collapse |
| HeaderRegex.CollapseKeepsText | test-regex.js:65 | the collapse changes only runs of line feeds: every other character is kept, in order |
| HeaderRegex.CleanShape | test-regex.js:65 | the cleaned text has no three line feeds in a row and no whitespace at either end |
| HeaderRegex.Clean | test-regex.js:59-65 | the whole cleaning of `testHeaderRemoval` (no contract of its own): `CleanShape` states what it gives |
| HeaderRegex.BlankValueSwallows | test-regex.js:60 | as written, `Name:` with an empty value removes the next line too: `Name:\nHello` cleans to nothing |
| HeaderRegex.ConfinedKeepsNextLine | test-regex.js:60 | with whitespace confined to the line, `Name:` with an empty value is no header, and the text is kept |
| CsvUtils.BreakRun | scripts/utils.js:141 | a run of CR and LF lies within the text and is non-empty at a line break |
| CsvUtils.FoldNoBreak | scripts/utils.js:141 | no CR or LF survives the folding |
| CsvUtils.FoldLines | scripts/utils.js:141 | lines joined by any non-empty run of CR and LF come out joined by single spaces |
| CsvUtils.FoldCount | scripts/utils.js:141 | folding keeps every quote |
| CsvUtils.DoubleCount | scripts/utils.js:142 | doubling exactly doubles the number of quotes |
| CsvUtils.UndoubleDouble | scripts/utils.js:142 | reading the CSV cell back gives the text before doubling |
| CsvUtils.DoubleNoBreak | scripts/utils.js:142 | doubling adds no line break |
| CsvUtils.TrimCount | scripts/utils.js:143 | trimming keeps every quote |
| CsvUtils.SanitizeShape | scripts/utils.js:138-144 | a missing or empty text gives `''`; the result has no CR or LF, no whitespace at either end, and twice the quotes of the input |
| CsvUtils.SanitizeLines | scripts/utils.js:138-144 | a quote-free text written on several lines ends up on one line, separated by single spaces |
| CsvUtils.Sanitize | scripts/utils.js:138-144 | `sanitizeText` (no contract of its own): `SanitizeShape` and `SanitizeLines` state what it gives |
| CsvUtils.TallyTotal | scripts/utils.js:111-113 | one step of the reduce adds one to the sum of all counts |
| CsvUtils.FoldTotal | scripts/utils.js:110-114 | the reduce adds the number of rows to the sum of all counts |
| CsvUtils.FoldCounts | scripts/utils.js:110-114 | each letter is counted once per row that carries it |
| CsvUtils.FoldKeys | scripts/utils.js:110-114 | the reduce adds exactly the letters of the rows as keys |
| CsvUtils.DistributionShape | scripts/utils.js:110-114 | the histogram has A to F and every row's letter as keys, counts a missing letter as F, and sums to the number of rows |
| CsvUtils.Distribution | scripts/utils.js:110-114 | the grade-letter histogram (no contract of its own): `FoldCounts`, `FoldKeys` and `DistributionShape` state what it gives |
| CsvUtils.AiDetectedBound | scripts/utils.js:108 | at most every row is counted as AI-detected |
| CsvUtils.StatisticsShape | scripts/utils.js:94-122 | the statistics count every row, their histogram sums to that count, and the early return for no rows agrees with the general case |
| CsvUtils.GetStatistics | scripts/utils.js:94-122 | `getStatistics` without `averageGrade` (no contract of its own): `StatisticsShape` and `AiDetectedBound` state what it gives |
| CsvUtils.RowShape | scripts/utils.js:160-172 | every text cell but the feedback is filled, the maximum is never 0, the AI flag holds exactly when the confidence is at least 50, and the feedback is a sanitised cell |
| CsvUtils.BuildRow | scripts/utils.js:160-172 | the `data` object of `save-result` (no contract of its own): `RowShape` and `RowKeeps` state what it gives |
| CsvUtils.RowKeeps | scripts/utils.js:160-172 | each argument, the total score, the criteria sum and the grade letter is kept when given and not falsy, and otherwise takes its default (`Unknown`, `Unknown`, `unknown@example.com`, `1`, 0, 100, `F`); the confidence is the AI probability or 0 |
| AiPenalty.CalculatePenalty | test-grading.js:325-336 | the severity ranks as the number of thresholds 20, 40, 60 and 80 passed (none for a missing value), and the penalty is that severity's deduction |
| AiPenalty.PenaltyMonotone | test-grading.js:325-336 | more AI use never costs less and never ranks lower |
| AiPenalty.PenaltyBounds | test-grading.js:199-201 | the penalty lies between -100 and 0, and is 0 exactly when the severity is none |
| AiPenalty.PenaltyExamples | test-grading.js:311-366 | every boundary, invalid and tier example the test asserts |
| AiPenalty.FinalScoreRange | test-grading.js:269 | the final score is the base score plus the deduction, at most 100 below it, and equal to it up to 20 % |

## Left out

- Reading and writing files, the console output and the process plumbing around the
  converters and parsers. Each core function is modelled on the string it is given.
- The JSON parsing of the AI and grading results in `scripts/utils.js`. `BuildRow`
  takes already-parsed records, and a field that is absent or `null` is `None`.
- CSV reading and writing in `scripts/utils.js`, and `averageGrade`, which relies on
  floating point and `toFixed`.
- Unicode whitespace, U+2028/U+2029 as line terminators, and case mapping beyond
  ASCII. Python's `\s` also matches `\x1c`–`\x1f`, which this model does not.
- A general regular-expression engine. Each fixed pattern has a hand-written matcher,
  including the backtracking that `\s*(.+)` needs.
- `calculateAIPenalty` is not part of this model. Its table is the one the
  assertions of `test-grading.js` fix.
- AiPenalty.CalculatePenalty: the percentage is an integer, because the test only
  uses integers. Below 21 and at tier boundaries the severity is taken from the tier,
  because the boundary test asserts only the penalty there.
- CsvUtils.DistributionShape: grade letters are strings only. JavaScript keys such
  as `__proto__` or `constructor`, which would collide with object prototype
  properties, are not modelled.
- CsvUtils.RowShape: criteria scores are integers. A `maxScore` that is missing from
  a criterion (giving `NaN` in JavaScript) is not modelled.
- HeaderRegex.RemoveLines: as written, `\s*` may cross a line break, so the lemma
  covers only texts whose lines are tidy. A line is tidy when it is empty, or starts
  with a character no key starts with (a letter other than S, R, E, B, P, A, N, I, or
  a non-letter), or has a colon that follows something other than a key or is
  followed by more than whitespace, or has no colon and holds a character no key has
  (a digit or punctuation, say). So `Hello world` and `Example:` are tidy, while
  `Name:` alone and `Name` alone are not. The counterexample outside that
  class is the finding below.
- HeaderRegex.RemoveHeadersLines: the same tidiness condition as `RemoveLines`, for
  the same reason.
- ConvertTemplates.Parts: its own contract only bounds the number of parts. Which
  part each line gives is stated by `ConvertTemplates.PartsSnoc`.
- `scripts/grader.js`, `scripts/ai-detector.js`, `scripts/save-detailed-results.js`
  and the network tests. They wrap API calls and JSON parsing.

## Findings

| source | as written | input that shows it | evidently intended | confidence | as-written member | corrected member |
|---|---|---|---|---|---|---|
| convert-templates.py:23 | the clean-up `"\s*\+\s*\(` → `(` also removes the closing quote of the literal before a hole | the multi-line span `a${x}b` + newline gives `"a(x) + "b\n"`, so `(x)` is inside a string | keep the hole as an expression, `"a" + (x) + "b\n"`, by removing only an empty literal before `(` | not executed; high | ConvertTemplates.TightOpenSwallowsHole | ConvertTemplates.TightOpenFixedKeepsHole |
| fix-backticks.js:31 | `replace` with a string replacement expands `$&`, `` $` ``, `$'` and `$$` in the converted text | the template `` `$&${x}b` `` comes out with the whole original template literal spliced in where `$&` was | put the converted text in literally | not executed; medium | FixBackticks.ConvertAmpSpan | FixBackticks.ConvertAmpSpanFixed |
| test-regex.js:60 | `\s*` after the colon crosses the line break, so a header with an empty value deletes the next line | `Name:` followed by a newline and `Hello` cleans to the empty text | a header with no value on its own line is left alone, and the next line is kept | not executed; medium | HeaderRegex.BlankValueSwallows | HeaderRegex.ConfinedKeepsNextLine |
