# Mewgenics translation-patch toolkit, modelled in Dafny

This project models the text-processing core of a translation patch for the game Mewgenics. It covers five Python scripts.

- **`scripts/simplified_to_traditional.py`** (module `Converter`). It loads two tab-separated dictionaries, a phrase table and a character table, and derives the longest phrase-key length. It converts text by greedy longest match, falling back to the character table and then to the character itself. It copies each CSV file's header row and rewrites every data cell that contains a CJK Unified Ideograph. `convert_text` is modelled twice:
  - a declarative segmentation function, `Segments`, with the meaning `Matches` of each step;
  - the two nested loops of the source, proved equal to that function.
- **`Mewgenics_CN_patch/scripts/ai_translate_missing_zh.py`** (module `TranslateMissing`). It reads the `(file, key)` targets of a missing-translation report, builds the last-wins key index, and derives the `_NAME` → `_DESC` description context. It also cleans the service's fenced answers. Its row loop fills in `zh` under a `max_rows` cap.
- **`Mewgenics_CN_patch/scripts/ai_fix_term_alignment.py`** (module `TermAlignment`). It derives the Chinese renderings required by the English text, de-duplicated and in order, and the ones missing from the Chinese text. Its row loop asks a rewriting service for a fix and counts the terms that the fix brings in.
- **`Mewgenics_CN_patch/scripts/check_missing_translations.py`** (module `CheckMissing`). It decides whether a source is tag-only. Its scan yields an issue for each row and each target column that holds a verbatim copy of the source.
- **`Mewgenics_CN_patch/scripts/fix_mixed_terms_zh.py`** (module `FixMixed`). It detects CJK text and substitutes the six game terms with per-term hit counts. Its row loop counts changed rows and term hits per file.

Shared modules:
- `Strings`: Python's `str.strip` with the exact `str.isspace` set, plus `split`, `join`, `replace` and substring tests.
- `Seqs`: order-preserving de-duplication.
- `Rows`: a CSV row as a map from column to an optional cell, `normalize_text`, `should_skip_row`, and `Counter`.
- `Terms`: the six terms in `TERM_PATTERNS` order, with their Chinese renderings.

## How the scripts are represented

- **Rows.** A `csv.DictReader` row is a `map<string, Option<string>>`. A cell is `None` when the line was too short to fill it.
- **The conversion tables.** The module globals `phrase_map`, `char_map` and `max_phrase_len` become the immutable value `Tables`, which is passed to every conversion.
- **External services as parameters.** These become function parameters, so every property holds for every possible answer:
  - the language-model service (`translate`, `rewrite`), which answers with a text or fails;
  - the regular expressions (`search` for `TERM_PATTERNS[t].search`, `sub` for `TERM_PATTERNS[t].sub`, `stripTags` for `TAG_OR_VAR_PATTERN.sub`).
- **Loops.** Every loop of the source is a Dafny loop in a method. Each method is proved equal to a specification function, such as `Run`, `Segments`, `Required`, `Missing`, `Collect` or `FixTerms`. The promised properties are lemmas about those functions.
- **Mutated rows.** In `ai_translate_missing_zh.py` the key index holds references to the very rows the loop later rewrites. The model therefore keeps row positions in the index and reads the rows as they stand when each description context is requested.
- **Dictionary keys.** The loader enforces no key-length rule: any non-empty, tab-free field is accepted as a key of either table. A one-character phrase key therefore shadows the character table (`PhraseBeforeCharacter`), and multi-character keys of the character table are never looked up.

## Model

| member | source | states |
|---|---|---|
| Strings.Strip | Mewgenics_CN_patch/scripts/ai_translate_missing_zh.py:19-22 | `strip()` leaves no leading or trailing whitespace and never lengthens the text |
| Strings.StripSlice | Mewgenics_CN_patch/scripts/ai_translate_missing_zh.py:22 | the stripped text occurs contiguously in the original |
| Strings.StripEmptyIff | Mewgenics_CN_patch/scripts/ai_translate_missing_zh.py:22 | `strip()` gives `""` exactly when every character is whitespace |
| Strings.StripStripped | Mewgenics_CN_patch/scripts/ai_translate_missing_zh.py:22 | stripping an already stripped text changes nothing |
| Strings.StripKeeps | Mewgenics_CN_patch/scripts/check_missing_translations.py:34 | a non-whitespace character survives `strip()` |
| Strings.SplitJoin | scripts/simplified_to_traditional.py:41 | the pieces of `split('\t')` join back to the line, and no piece holds a tab |
| Strings.ReplaceAllKeeps | Mewgenics_CN_patch/scripts/check_missing_translations.py:34 | `replace` keeps every character that is not part of the pattern |
| Strings.ReplaceCharRemoves | Mewgenics_CN_patch/scripts/check_missing_translations.py:78 | replacing `\n` by the two characters `\` `n` leaves no newline |
| Seqs.DedupList | Mewgenics_CN_patch/scripts/ai_fix_term_alignment.py:56-63 | the `seen`-set loop computes the first-occurrence de-duplication `Dedup` |
| Seqs.DedupDistinct | Mewgenics_CN_patch/scripts/ai_fix_term_alignment.py:56-63 | de-duplicating a list without repeats returns it unchanged |
| Rows.Text | Mewgenics_CN_patch/scripts/ai_translate_missing_zh.py:235-236 | `row.get(col) or ""` is the cell's text, or `""` when the column or the value is missing |
| Rows.Normalize | Mewgenics_CN_patch/scripts/ai_translate_missing_zh.py:19-22 | `normalize_text` gives a stripped text, `""` for `None` |
| Rows.NormalizeBlank | Mewgenics_CN_patch/scripts/check_missing_translations.py:13-16 | `normalize_text(v) == ""` exactly when `v` is `None` or all whitespace |
| Rows.ShouldSkipRowMeaning | Mewgenics_CN_patch/scripts/ai_translate_missing_zh.py:56-60 | a row is skipped exactly when its stripped `KEY` starts with `//` or every cell is `None` or blank; `ai_fix_term_alignment.py:44-48` defines the same test, and `check_missing_translations.py:19-25` an equivalent one on cells that are `None` or a string |
| Rows.AddCount | Mewgenics_CN_patch/scripts/ai_fix_term_alignment.py:237 | `counter[t] += n` raises the count of `t` by `n` and no other count |
| Terms.TermOrderComplete | Mewgenics_CN_patch/scripts/ai_fix_term_alignment.py:19-26 | `TERM_PATTERNS` lists each of the six terms exactly once |
| Terms.ZhTermInjective | Mewgenics_CN_patch/scripts/ai_fix_term_alignment.py:28-35 | distinct terms have distinct Chinese renderings |
| Converter.NonEmpty | scripts/simplified_to_traditional.py:42 | every part kept is a non-empty input part, every non-empty input part is kept, and the list never grows |
| Converter.NonEmptyAppend | scripts/simplified_to_traditional.py:42 | the filter works part by part and keeps order: filtering `a + b` gives the filtered `a` followed by the filtered `b` |
| Converter.NonEmptyHead | scripts/simplified_to_traditional.py:42 | the first part kept is the first non-empty part |
| Converter.ParseLineSomeIff | scripts/simplified_to_traditional.py:38-44 | a line yields an entry exactly when a tab is left after `strip()`; so `key<TAB>` and `<TAB>key`, which have one non-empty field, add nothing |
| Converter.ParseLineEntry | scripts/simplified_to_traditional.py:41-47 | the entry's key is the text before the first tab of the stripped line, and its value is the first space-separated token of the next non-empty field |
| Converter.ParseLineSkipsEmptyField | scripts/simplified_to_traditional.py:42-47 | `a<TAB><TAB>b` stores `b` under `a` |
| Converter.ParseLineIgnoresThirdField | scripts/simplified_to_traditional.py:44-47 | `a<TAB>b<TAB>c` stores `b` under `a` |
| Converter.ParseLineEdgeTab | scripts/simplified_to_traditional.py:38-44 | `key<TAB>` and `<TAB>key` store nothing |
| Converter.ParsedKeyShape | scripts/simplified_to_traditional.py:41-45 | a stored key is a non-empty field without tabs |
| Converter.NoTabNoEntry | scripts/simplified_to_traditional.py:41-44 | a line without any tab has one field and adds nothing (the general case is `ParseLineSomeIff`) |
| Converter.EntryLine | scripts/simplified_to_traditional.py:44-48 | a single-tab line `source<TAB>candidate alternates` stores `candidate` under `source` |
| Converter.LoadLinesLastWins | scripts/simplified_to_traditional.py:48 | a key holds the value of the last line that defines it |
| Converter.LoadLinesUntouched | scripts/simplified_to_traditional.py:37-49 | a key that no line defines keeps its earlier value, or stays absent |
| Converter.DuplicateKeyExample | scripts/simplified_to_traditional.py:48 | `家<TAB>甲` followed by `家<TAB>乙` maps `家` to `乙` |
| Converter.LoadDict | scripts/simplified_to_traditional.py:29-50 | a missing file leaves the table unchanged with count 0; otherwise the loop computes `LoadLines`, and `count` is the number of lines that carry an entry |
| Converter.MaxPhraseLen | scripts/simplified_to_traditional.py:57-59 | the bound is the longest phrase-key length, and 0 for an empty table |
| Converter.MaxKeyLenUnique | scripts/simplified_to_traditional.py:57-59 | that bound is unique |
| Converter.LoadTables | scripts/simplified_to_traditional.py:52-59 | start-up loads both tables into empty maps and derives the bound from the phrase table only |
| Converter.Window | scripts/simplified_to_traditional.py:77 | `min(max_phrase_len, n - i)` never reaches past the end of the text |
| Converter.LongestPhraseLongest | scripts/simplified_to_traditional.py:78-84 | no length above the countdown's hit, within the window, is a phrase key |
| Converter.NextSegmentMatches | scripts/simplified_to_traditional.py:75-92 | each emitted step is the declared one: longest phrase in the window, else the character-table entry, else the character itself |
| Converter.MatchesUnique | scripts/simplified_to_traditional.py:75-92 | at most one step fits the declared rule at any position |
| Converter.SegmentsTile | scripts/simplified_to_traditional.py:75-92 | the converter's segments tile the input by the declared rule |
| Converter.TilesConsume | scripts/simplified_to_traditional.py:75-92 | a tiling consumes every input character exactly once, in order |
| Converter.TilesUnique | scripts/simplified_to_traditional.py:75-92 | the converter's segmentation is the only tiling: greedy and deterministic |
| Converter.Convert | scripts/simplified_to_traditional.py:68-69 | empty input comes back unchanged |
| Converter.LongestMatch | scripts/simplified_to_traditional.py:77-84 | when the bound is the true maximum, no longer phrase key starts where a phrase segment starts |
| Converter.PhraseLongest | scripts/simplified_to_traditional.py:77-84 | a phrase step admits no longer phrase key at its start |
| Converter.PhraseBeforeCharacter | scripts/simplified_to_traditional.py:78-88 | a one-character phrase key wins over the character table |
| Converter.ZeroBoundPerChar | scripts/simplified_to_traditional.py:77-92 | with a zero bound, conversion goes character by character through the character table |
| Converter.NoHitsFrom | scripts/simplified_to_traditional.py:86-92 | text without table hits is emitted as is |
| Converter.PassThrough | scripts/simplified_to_traditional.py:67-94 | `convert_text` returns text without table hits unchanged |
| Converter.LongestAt | scripts/simplified_to_traditional.py:77-85 | the inner countdown finds the longest phrase length in the window, or 0 |
| Converter.ConvertAt | scripts/simplified_to_traditional.py:76-92 | one outer iteration emits the next segment's output and advances by its length |
| Converter.ConvertText | scripts/simplified_to_traditional.py:67-94 | the two nested loops compute `Convert`, the concatenated outputs of `Segments` |
| Converter.ContainsChineseIff | scripts/simplified_to_traditional.py:64-65 | `contains_chinese` holds exactly when some character is in U+4E00..U+9FFF |
| Converter.ConvertRow | scripts/simplified_to_traditional.py:124-128 | a row keeps its length; cells with a Han character are converted and the rest are copied |
| Converter.ConvertCsv | scripts/simplified_to_traditional.py:105-130 | an empty file writes one empty row to the temporary file and is not replaced; otherwise the header is copied, each data cell is rewritten as `RewriteCell` says, and the file is replaced |
| TranslateMissing.MissingTranslationMeaning | Mewgenics_CN_patch/scripts/ai_translate_missing_zh.py:25-30 | a translation is missing exactly when the English is not blank and the Chinese is blank or equals it after stripping |
| TranslateMissing.MissingTranslationStripInvariant | Mewgenics_CN_patch/scripts/ai_translate_missing_zh.py:25-30 | surrounding whitespace on either cell never changes the verdict |
| TranslateMissing.ReportEntry | Mewgenics_CN_patch/scripts/ai_translate_missing_zh.py:41-47 | an accepted report row has a non-empty file and key |
| TranslateMissing.ReportFilter | Mewgenics_CN_patch/scripts/ai_translate_missing_zh.py:41-51 | a report row is dropped exactly when its file or key is blank, or its `target_col` is non-blank and not `zh` |
| TranslateMissing.ReportEntriesAt | Mewgenics_CN_patch/scripts/ai_translate_missing_zh.py:40-47 | the filter is applied to each report row, in place |
| TranslateMissing.TargetsMeaning | Mewgenics_CN_patch/scripts/ai_translate_missing_zh.py:49-51 | a key is a target of a file exactly when an accepted report row names both, and every listed file has a key |
| TranslateMissing.LoadTargetsFromReport | Mewgenics_CN_patch/scripts/ai_translate_missing_zh.py:33-53 | a missing report gives no targets; otherwise the loop computes the key sets `Targets` |
| TranslateMissing.KeyIndexMeaning | Mewgenics_CN_patch/scripts/ai_translate_missing_zh.py:63-69 | the index holds exactly the non-blank keys, each at the last row carrying it |
| TranslateMissing.BuildKeyIndex | Mewgenics_CN_patch/scripts/ai_translate_missing_zh.py:63-69 | the loop computes `KeyIndex` of the rows' stripped keys |
| TranslateMissing.DescContext | Mewgenics_CN_patch/scripts/ai_translate_missing_zh.py:72-84 | a non-empty context only comes from a `_NAME` key whose `_DESC` key is indexed |
| TranslateMissing.DescContextOfName | Mewgenics_CN_patch/scripts/ai_translate_missing_zh.py:72-84 | `<base>_NAME` gets the current `en`/`zh` of the `<base>_DESC` row, or `("", "")` when there is none |
| TranslateMissing.LetterRunOf | Mewgenics_CN_patch/scripts/ai_translate_missing_zh.py:122 | `[a-zA-Z]*` matches the whole letter run |
| TranslateMissing.SanitizeModelOutput | Mewgenics_CN_patch/scripts/ai_translate_missing_zh.py:120-124 | the cleaned answer is stripped and no longer than the raw one |
| TranslateMissing.SanitizeUnfenced | Mewgenics_CN_patch/scripts/ai_translate_missing_zh.py:120-124 | text without fences only loses its surrounding whitespace |
| TranslateMissing.SanitizeFenced | Mewgenics_CN_patch/scripts/ai_translate_missing_zh.py:120-124 | a fenced block with a language tag gives back its stripped body |
| TranslateMissing.RunCounters | Mewgenics_CN_patch/scripts/ai_translate_missing_zh.py:242-263 | each row is counted as translated or failed at most once, and a positive `max_rows` is never exceeded |
| TranslateMissing.StepRowEffect | Mewgenics_CN_patch/scripts/ai_translate_missing_zh.py:229-265 | a visit changes only its own row, and only as `RowOutcome` allows; once a positive cap is reached the visit changes nothing |
| TranslateMissing.RunCapped | Mewgenics_CN_patch/scripts/ai_translate_missing_zh.py:243 | once a positive `max_rows` is reached, no later row is sent to the service: each is written as read and the counters stay |
| TranslateMissing.RunUnvisited | Mewgenics_CN_patch/scripts/ai_translate_missing_zh.py:229 | rows not yet visited are as read |
| TranslateMissing.RunRows | Mewgenics_CN_patch/scripts/ai_translate_missing_zh.py:229-265 | only eligible rows change, and only their `zh`, which becomes non-empty |
| TranslateMissing.StepComplete | Mewgenics_CN_patch/scripts/ai_translate_missing_zh.py:242-261 | with no cap, an eligible row the service answers gets a non-empty `zh` |
| TranslateMissing.RunComplete | Mewgenics_CN_patch/scripts/ai_translate_missing_zh.py:242-261 | with no cap and a service that always answers, every eligible row ends with a non-empty `zh` |
| TranslateMissing.VisitRow | Mewgenics_CN_patch/scripts/ai_translate_missing_zh.py:230-265 | the loop body is one `StepRow` |
| TranslateMissing.ProcessFile | Mewgenics_CN_patch/scripts/ai_translate_missing_zh.py:196-267 | a file without both `en` and `zh` is copied with zero counts; otherwise the loop computes `Run`; row count kept; cap kept; every row is as `RowOutcome` allows |
| TermAlignment.RequiredMember | Mewgenics_CN_patch/scripts/ai_fix_term_alignment.py:53-55 | a rendering is required exactly when some listed term matching the English has it |
| TermAlignment.RequiredDistinct | Mewgenics_CN_patch/scripts/ai_fix_term_alignment.py:56-63 | required renderings of distinct terms never repeat |
| TermAlignment.RequiredZhTerms | Mewgenics_CN_patch/scripts/ai_fix_term_alignment.py:51-63 | the two loops compute `Required` over `TERM_PATTERNS` order |
| TermAlignment.RequiredTerms | Mewgenics_CN_patch/scripts/ai_fix_term_alignment.py:51-63 | the required list has no repeats and holds exactly the renderings of the terms found in the English |
| TermAlignment.MissingMember | Mewgenics_CN_patch/scripts/ai_fix_term_alignment.py:66-71 | a term is missing exactly when it is required and is not a substring of the Chinese text |
| TermAlignment.MissingEmptyIff | Mewgenics_CN_patch/scripts/ai_fix_term_alignment.py:66-71 | nothing is missing exactly when every required term occurs in the Chinese text |
| TermAlignment.MissingDistinct | Mewgenics_CN_patch/scripts/ai_fix_term_alignment.py:66-71 | a filtered list of distinct terms stays distinct |
| TermAlignment.MissingTerms | Mewgenics_CN_patch/scripts/ai_fix_term_alignment.py:66-71 | the loop computes `Missing` |
| TermAlignment.CountPresentEffect | Mewgenics_CN_patch/scripts/ai_fix_term_alignment.py:235-237 | a term's count rises by one exactly when it was missing and the fix contains it |
| TermAlignment.CountFixedTerms | Mewgenics_CN_patch/scripts/ai_fix_term_alignment.py:235-237 | the counting loop computes `CountPresent` |
| TermAlignment.StepCounters | Mewgenics_CN_patch/scripts/ai_fix_term_alignment.py:217-239 | one row adds at most one to `rows_fixed + rows_failed`, keeps a positive cap, and keeps every term count within `rows_fixed` |
| TermAlignment.RunCounters | Mewgenics_CN_patch/scripts/ai_fix_term_alignment.py:217-239 | fixed plus failed is at most the rows seen, a positive cap holds, and no term is counted more often than there are fixed rows |
| TermAlignment.StepRowEffect | Mewgenics_CN_patch/scripts/ai_fix_term_alignment.py:194-241 | a visit changes only its own row, and only as `RowOutcome` allows; once a positive cap is reached the visit changes nothing |
| TermAlignment.StepFixed | Mewgenics_CN_patch/scripts/ai_fix_term_alignment.py:217-234 | `rows_fixed` rises by one exactly when the visited row's `zh` is replaced, and otherwise stays |
| TermAlignment.RunOutcomes | Mewgenics_CN_patch/scripts/ai_fix_term_alignment.py:194-241 | after `n` rows, each visited row is as `RowOutcome` allows (unchanged, or only its `zh` replaced by a non-empty, different fix while it needed one) and each unvisited row is as read |
| TermAlignment.RunUnvisited | Mewgenics_CN_patch/scripts/ai_fix_term_alignment.py:194 | rows not yet visited are as read |
| TermAlignment.RunFixed | Mewgenics_CN_patch/scripts/ai_fix_term_alignment.py:217-234 | `rows_fixed` is the number of rows whose `zh` was replaced |
| TermAlignment.RunCappedState | Mewgenics_CN_patch/scripts/ai_fix_term_alignment.py:217-219 | once a positive `max_rows` is reached, the state after any further rows is the state at that moment |
| TermAlignment.RunCapped | Mewgenics_CN_patch/scripts/ai_fix_term_alignment.py:217-219 | once a positive `max_rows` is reached, every later row is written as read and the counters stay |
| TermAlignment.RunRows | Mewgenics_CN_patch/scripts/ai_fix_term_alignment.py:194-241 | a row changes only when it needs a fix and the fix is non-empty and differs from its `zh`, and only its `zh`; a row reached after a positive cap is written as read; unvisited rows are as read |
| TermAlignment.VisitRow | Mewgenics_CN_patch/scripts/ai_fix_term_alignment.py:195-241 | the loop body is one `StepRow` |
| TermAlignment.ProcessFile | Mewgenics_CN_patch/scripts/ai_fix_term_alignment.py:171-243 | the loop computes `Run`; row count kept; cap kept; every row is as `RowOutcome` allows; `rows_fixed` is the number of rows changed |
| CheckMissing.AlnumNotSpace | Mewgenics_CN_patch/scripts/check_missing_translations.py:10 | no letter, digit or CJK character of `ALNUM_PATTERN` is whitespace |
| CheckMissing.HasAlnumIff | Mewgenics_CN_patch/scripts/check_missing_translations.py:37 | `ALNUM_PATTERN.search` succeeds exactly when some character is alphanumeric |
| CheckMissing.BlankNotTagOnly | Mewgenics_CN_patch/scripts/check_missing_translations.py:28-31 | a blank source is never tag-only |
| CheckMissing.TagOnlyWhenNoAlnum | Mewgenics_CN_patch/scripts/check_missing_translations.py:28-37 | a non-blank source whose tag-stripped text has no alphanumeric character is tag-only: the later `replace` and `strip` steps only delete |
| CheckMissing.NoAlnumSourceTagOnly | Mewgenics_CN_patch/scripts/check_missing_translations.py:28-37 | with a tag stripper that only deletes characters, as `TAG_OR_VAR_PATTERN.sub("", ...)` does, a non-blank source without any alphanumeric character is tag-only |
| CheckMissing.AlnumSurvives | Mewgenics_CN_patch/scripts/check_missing_translations.py:33-37 | an alphanumeric that the tag stripper keeps makes the source not tag-only |
| CheckMissing.Preview | Mewgenics_CN_patch/scripts/check_missing_translations.py:78 | the preview is a prefix of the newline-escaped source, at most 120 characters, without newlines, and all of it when shorter |
| CheckMissing.ValidTargets | Mewgenics_CN_patch/scripts/check_missing_translations.py:50 | the valid targets are exactly the requested columns that the header has |
| CheckMissing.ValidTargetsOrder | Mewgenics_CN_patch/scripts/check_missing_translations.py:50 | the filter keeps the requested order: it works piece by piece on a concatenation, and keeps one column exactly when the header has it |
| CheckMissing.TargetIssuesSound | Mewgenics_CN_patch/scripts/check_missing_translations.py:67-80 | each issue of a row is for a listed target column whose cell copies the source |
| CheckMissing.TargetIssuesComplete | Mewgenics_CN_patch/scripts/check_missing_translations.py:67-80 | each listed target column that copies the source gives an issue |
| CheckMissing.CollectSound | Mewgenics_CN_patch/scripts/check_missing_translations.py:54 | each result of the scan comes from the row on the line it names, numbered from 2 |
| CheckMissing.CollectComplete | Mewgenics_CN_patch/scripts/check_missing_translations.py:54 | every result of every row is collected |
| CheckMissing.CollectOrdered | Mewgenics_CN_patch/scripts/check_missing_translations.py:54 | results come in line order |
| CheckMissing.RowIssuesTagged | Mewgenics_CN_patch/scripts/check_missing_translations.py:54-80 | every issue of a row carries that row's line number |
| CheckMissing.RowIssueSound | Mewgenics_CN_patch/scripts/check_missing_translations.py:55-80 | an issue of a row means that the row is not skipped, its source is non-blank and not tag-only, and the issue's target copies the source; the issue agrees with `MakeIssue` |
| CheckMissing.RowIssueComplete | Mewgenics_CN_patch/scripts/check_missing_translations.py:55-80 | such a row gives an issue for each copying target |
| CheckMissing.IssueOfRow | Mewgenics_CN_patch/scripts/check_missing_translations.py:54-80 | every reported issue lies on a data line `2 ..= n + 1` and is one of that row's issues |
| CheckMissing.IssueFromRow | Mewgenics_CN_patch/scripts/check_missing_translations.py:54-80 | every issue of every data row is reported |
| CheckMissing.IssuesOrdered | Mewgenics_CN_patch/scripts/check_missing_translations.py:54-80 | reported line numbers never decrease |
| CheckMissing.ScanNeedsColumns | Mewgenics_CN_patch/scripts/check_missing_translations.py:47-52 | without the source column or any valid target column there are no issues |
| CheckMissing.ScanTargets | Mewgenics_CN_patch/scripts/check_missing_translations.py:67-80 | the inner loop appends exactly the row's `TargetIssues` |
| CheckMissing.ScanFile | Mewgenics_CN_patch/scripts/check_missing_translations.py:40-82 | `scan_file` computes `Scan` |
| FixMixed.HasCjkIff | Mewgenics_CN_patch/scripts/fix_mixed_terms_zh.py:31-35 | `has_cjk` holds exactly when some character is in U+3400..U+4DBF, U+4E00..U+9FFF or U+F900..U+FAFF |
| FixMixed.FixTermsKeys | Mewgenics_CN_patch/scripts/fix_mixed_terms_zh.py:38-51 | the counter holds only terms that were substituted at least once |
| FixMixed.FixTermsCount | Mewgenics_CN_patch/scripts/fix_mixed_terms_zh.py:42-49 | each term's count is the number of matches its substitution found in the text left by the terms before it |
| FixMixed.FixTermsNoMatch | Mewgenics_CN_patch/scripts/fix_mixed_terms_zh.py:42-51 | with no match, the text comes back unchanged with an empty counter |
| FixMixed.FixZhTerms | Mewgenics_CN_patch/scripts/fix_mixed_terms_zh.py:38-51 | the loop computes `FixTerms` over `TERM_PATTERNS` order |
| FixMixed.AddCounts | Mewgenics_CN_patch/scripts/fix_mixed_terms_zh.py:87 | `Counter.update` adds the counts term by term |
| FixMixed.RewrittenIff | Mewgenics_CN_patch/scripts/fix_mixed_terms_zh.py:83-86 | a row is written differently exactly when its fixed text differs |
| FixMixed.RewrittenKeeps | Mewgenics_CN_patch/scripts/fix_mixed_terms_zh.py:68-81 | comment rows, rows without a `zh` value and rows without CJK are written as read |
| FixMixed.StepRowEffect | Mewgenics_CN_patch/scripts/fix_mixed_terms_zh.py:68-89 | a visit writes its row as `Rewritten` says and adds its change and its hits |
| FixMixed.RunRows | Mewgenics_CN_patch/scripts/fix_mixed_terms_zh.py:68-89 | each visited row is as `Rewritten` says and the rest are as read |
| FixMixed.RunChanged | Mewgenics_CN_patch/scripts/fix_mixed_terms_zh.py:84-86 | `rows_changed` counts exactly the changed rows |
| FixMixed.RunHits | Mewgenics_CN_patch/scripts/fix_mixed_terms_zh.py:87 | each term's file count sums its hits over the changed rows only |
| FixMixed.VisitRow | Mewgenics_CN_patch/scripts/fix_mixed_terms_zh.py:68-89 | the loop body is one `StepRow` |
| FixMixed.ProcessFile | Mewgenics_CN_patch/scripts/fix_mixed_terms_zh.py:54-91 | every row is written as `Rewritten` says, `rows_changed` is `ChangedRows`, and each count is `TermHits` |

## Left out

- File and CSV input and output are left out; files are in-memory sequences of rows. This covers `open`, `csv.reader`/`DictReader`/`DictWriter`, `write_report`, the `.tmp` file swap, `glob` and `os.listdir`, and `os.makedirs`.
- The CSV dialect is left out. So are the `DictReader` rest-key lists for over-long lines, which would make `strip()` fail in the source.
- Missing dictionary files are an `Option`; the warning they print is not modelled.
- Text decoding (UTF-8 errors) is left out: text is a sequence of code points.
- The HTTP layer is left out: `call_openai_chat`, the JSON request and reply, the prompts, `HTTPError` handling, and the retry loop with `time.sleep`. `translate_zh_text` and `ai_rewrite_zh_for_terms` are function parameters that answer with a text or fail. Sanitizing the answer is modelled separately (`SanitizeModelOutput`).
- The regular expressions of `TERM_PATTERNS` (with `\b`, `IGNORECASE` and the optional suffixes) and `TAG_OR_VAR_PATTERN` are function parameters, not a regex engine. The other patterns are written out: `ALNUM_PATTERN`, the two CJK classes, and the two fence patterns of `sanitize_model_output` (`LetterRun`, `OpenFenceLen`, `DropCloseFence`).
- `argparse`, `main`, `sys.argv`, the `print` summaries, the per-directory totals and `SKIP_FILES`/`REPORT_SKIP_FILES` are left out. `os.path.basename` is left out too; the file name is a parameter.
- The `api_key` checks and the empty-report exit in `main` are not modelled.
- The key index of `ai_translate_missing_zh.py` is kept by row position, not by reference to the row object. Reads of it see the rows as the loop has left them, as the shared references do.
- `normalize_text` and `should_skip_row` are modelled once, in `Rows`. The copies in `check_missing_translations.py` (lines 19-25) use `(row.get("KEY") or "").strip()` and `str(v).strip()`; on cells that are `None` or a string, which is all a row of this model holds, they agree with the other two scripts.
- TranslateMissing.ProcessFile: the per-file `report_targets` is a parameter, `None` when the report does not name the file.
- CheckMissing.AlnumSurvives: stated only for characters other than `n`. Removing the literal `\n` pair can delete an `n`, so a general statement would need the stripper's output in detail.
- Idempotence of `convert_text` is not stated: the code does not promise it.
- Converter.LongestMatch: longest match is proved both within the window (`NextSegmentMatches`) and, given the true maximum bound, beyond it. With a smaller hand-picked bound, longer keys are not looked at, exactly as in the code.
