# Regulatory compliance tracker — a Dafny model

This project models the deterministic core of the "AI-Powered Regulatory
Compliance Checker". It has two halves.

**The tracker engine** is `Regulatory.py/regulatory.py`:
- the keyword and jurisdiction relevance score of a regulation for a contract;
- `apply_regulation`, which writes a new version of a contract with an amendment footer and updates the registry;
- `fetch_mock_regulation`;
- the background poller that `toggle_scheduler` starts and stops;
- the menu that validates ids before applying.

**The packaging scripts** are:
- `detect_amendments.py`, which groups `NAME-vN.txt` files by base name and records one amendment per upgrade step;
- `generate_milestone_links.py`, which finds excerpts and derives the `source_txt` / `pdf_path` of an index entry;
- `generate_final_report.py`, which finds excerpts and builds the integrity summary line;
- `generate_diff_report.py`, which flattens `processed_results.json`, does the case-insensitive excerpt search and runs the best-excerpt heuristics;
- `convert_txt_to_pdf.py`, which splits paragraphs, folds lines, escapes markup and maps an input path to its output path.

Python's own library behaviour is modelled where the code depends on it:
- `str.find`, `strip`, `split`, `splitlines`, `join` and `lower`, in `Strings`;
- `str(int)` and `:03d`, in `Decimal`;
- the stable `list.sort`, in `Sorting`;
- `pathlib` parsing, `/`, `.name`, `.suffix`, `.stem` and `with_suffix`, in `Paths`.

Every operation is a pure function over immutable data. Anything that comes from outside is a parameter:
- the file system becomes sequences and maps;
- the clock and `uuid4` become strings;
- JSON documents become datatypes.

Modules, one per file: `Wrappers`, `Sequences`, `Strings`, `Decimal`, `Sorting`, `Paths`,
`Regulatory`, `Scheduler`, `Menu`, `Excerpts`, `DetectAmendments`,
`MilestoneLinks`, `FinalReport`, `DiffReport`, `TxtToPdf`.

## Model

| member | source | states |
|---|---|---|
| Regulatory.MatchedKeywords | Regulatory.py/regulatory.py:107-110 | the matched keywords are the regulation's keywords that occur in the text: a subsequence of the keyword list, so declaration order is kept, with each keyword exactly as often as it is listed |
| Regulatory.KeywordScan | Regulatory.py/regulatory.py:105-110 | the keyword loop adds 2 to the score per matched keyword and appends the matches after what was accumulated |
| Regulatory.Relevance | Regulatory.py/regulatory.py:104-114 | score = 2 × matched keywords + 3 when the regulation is GLOBAL or the contract's jurisdiction; the matches list the keywords then the jurisdiction token; score is never negative and is 0 exactly when nothing matched |
| Regulatory.ScoringExample | Regulatory.py/regulatory.py:104-114 | a worked case: one of two keywords found plus a matching jurisdiction give score 2 + 3 = 5, with the keyword then `jurisdiction:EU` as matches |
| Regulatory.NoInfluenceExample | Regulatory.py/regulatory.py:104-114 | a worked case: a foreign jurisdiction with no keyword found gives score 0 and no matches |
| Regulatory.ApplyRegulation | Regulatory.py/regulatory.py:117-142 | an id already recorded is reported and nothing changes; a missing current text is the error case; otherwise only this contract's entry changes: version + 1, the file handle of the new version, the id appended; the new text is the lower-cased old text plus the footer, and every other text is kept |
| Regulatory.ApplyTwiceAmendsOnce | Regulatory.py/regulatory.py:121-123 | applying the same regulation again reports it as applied; the version rose by exactly one and the id is recorded exactly once |
| Regulatory.ApplyPreservesWellFormed | Regulatory.py/regulatory.py:125-140 | on a store where each contract's file is the handle of its version and every version's text exists, the text is always found and the invariant holds afterwards |
| Regulatory.ApplyAll | Regulatory.py/regulatory.py:117-142 | a run of applies to one contract keeps it registered |
| Regulatory.ApplyStep | Regulatory.py/regulatory.py:125-134 | a fresh regulation on a well-formed store amends it, keeps it well-formed, and the old lower-cased text is a prefix of the new one |
| Regulatory.ApplyAllKeepsOthers | Regulatory.py/regulatory.py:136-140 | repeated applies to one contract never touch another contract's entry or the set of registered ids |
| Regulatory.ApplyAllKeepsHistory | Regulatory.py/regulatory.py:125-134 | after N fresh applies the store is still well-formed and the original lower-cased text is a prefix of the latest version |
| Regulatory.MonotonicVersioning | Regulatory.py/regulatory.py:136-140 | N distinct fresh regulations raise the version by exactly N and append their ids in order |
| Regulatory.FetchMockRegulation | Regulatory.py/regulatory.py:145-156 | exactly one record is appended, the existing ones are unchanged, it is GLOBAL, and its id is `REG-MOCK-` followed by the random suffix |
| Regulatory.SeedWellFormed | Regulatory.py/regulatory.py:49-91 | the sample registry and contract texts satisfy the registry invariant |
| Scheduler.Toggle | Regulatory.py/regulatory.py:167-176 | afterwards a worker is alive; the stop event is set exactly when a worker was alive before, and then nothing else changes |
| Scheduler.Exit | Regulatory.py/regulatory.py:238-239 | leaving the menu sets the stop event and does not change whether a worker is alive |
| Scheduler.Tick | Regulatory.py/regulatory.py:159-164 | a live worker with a clear event fetches one mock regulation; a set event ends the worker and fetches nothing; without a worker nothing happens |
| Scheduler.Mocks | Regulatory.py/regulatory.py:145-156 | one mock record per suffix, in order |
| Scheduler.StopIsFinal | Regulatory.py/regulatory.py:159-164 | once the event is set, no later tick fetches anything, and after one tick the worker has ended |
| Scheduler.RunningFetchesEveryTick | Regulatory.py/regulatory.py:159-164 | a running worker appends one mock per tick at the end of the store and keeps running |
| Scheduler.ToggleWhileStopping | Regulatory.py/regulatory.py:167-172 | toggling twice before the worker notices leaves one worker, asked to stop |
| Scheduler.ToggleRestarts | Regulatory.py/regulatory.py:167-176 | toggling after the worker has ended starts a fresh worker with the event cleared |
| Menu.FindRegulation | Regulatory.py/regulatory.py:222 | returns the first regulation with the id, and none exactly when no regulation has it |
| Menu.MenuApply | Regulatory.py/regulatory.py:215-233 | an unknown regulation id is rejected; then an unregistered contract id is rejected; only a valid pair of stripped ids reaches the applier, with the first matching regulation |
| Menu.RegulationVerdict | Regulatory.py/regulatory.py:210-214 | "no influence" exactly when no keyword matched and the jurisdiction does not apply; otherwise the positive score and the matches of the relevance check |
| Menu.ContractReport | Regulatory.py/regulatory.py:203-214 | one verdict per regulation, in store order; "no influence" exactly when no keyword matched and the jurisdiction does not apply; otherwise the positive score and the matches of the relevance check |
| Menu.Step | Regulatory.py/regulatory.py:196-243 | viewing and analysing change nothing; fetching appends one mock regulation, toggling toggles the scheduler and exiting sets its stop event; an apply that the validated apply reports as amended installs the new contract store, and any other apply leaves the tracker unchanged; nothing else changes |
| Menu.InvalidIdsChangeNothing | Regulatory.py/regulatory.py:221-232 | an unknown regulation id or contract id leaves the whole tracker unchanged |
| Menu.RepeatedApplyAmendsOnce | Regulatory.py/regulatory.py:215-233 | entering the same valid pair again after a successful apply changes nothing |
| Strings.Find | scripts/generate_milestone_links.py:35 | -1 exactly when the pattern does not occur; otherwise the index of an occurrence with no earlier one |
| Strings.Strip | scripts/convert_txt_to_pdf.py:52 | the result neither starts nor ends with whitespace, sits in the input after the leading whitespace, and is empty exactly when the input is all whitespace |
| Strings.StripRemovesOnlySpace | scripts/convert_txt_to_pdf.py:52 | what `strip()` removes on either side is whitespace only |
| Strings.LowerAt | scripts/generate_diff_report.py:40 | lower-casing maps each character on its own, at the same index |
| Strings.LowerIdempotent | scripts/generate_diff_report.py:40 | lower-casing twice is lower-casing once |
| Strings.SplitJoinChar | scripts/convert_txt_to_pdf.py:61 | splitting on a character that no part contains undoes joining on it |
| Strings.JoinContainsPart | scripts/generate_final_report.py:70 | every joined part appears in the joined string |
| Decimal.DecimalRoundTrip | scripts/detect_amendments.py:25-40 | reading back a printed natural number gives the number |
| Decimal.PadValueRestoresDigits | scripts/generate_diff_report.py:53 | zero-padding the printed value of a digit string to the string's width gives the string back |
| Decimal.Format03OfDigits | scripts/generate_diff_report.py:53 | for up to three digits, `f"{int(d):03d}"` is `d` zero-padded to three characters |
| Sorting.SortBy | scripts/detect_amendments.py:30 | the result is sorted and is a permutation of the input |
| Sorting.SortByStable | scripts/detect_amendments.py:30 | elements with equal keys keep their original relative order |
| Paths.Parse | scripts/convert_txt_to_pdf.py:82 | parsing yields a valid path, rooted exactly when the text starts with `/`, whose components are the `/`-separated pieces that are neither empty nor `.`, in order and with their multiplicity |
| Paths.ParseRender | scripts/generate_milestone_links.py:58 | rendering a path and parsing it back gives the same path |
| Paths.RenderJoin | scripts/generate_milestone_links.py:58-59 | `str(a / b)` is `str(b)` for a rooted `b` or an empty relative `a`, `str(a)` for an empty relative `b`, and otherwise `str(a)`, a `/` and `str(b)` |
| Paths.Stem | scripts/convert_txt_to_pdf.py:82 | the name is the stem followed by the suffix, and a non-empty name has a non-empty stem |
| Paths.WithSuffix | scripts/convert_txt_to_pdf.py:82 | a path with no name is the ValueError case; otherwise the result is valid and rooted like the input |
| Paths.SuffixOfStemPlus | scripts/convert_txt_to_pdf.py:82 | the name `with_suffix` builds has exactly the requested suffix and the old stem |
| Paths.WithSuffixIdempotent | scripts/convert_txt_to_pdf.py:82 | changing the suffix twice to the same value is changing it once |
| Paths.ReplacesTxt | scripts/convert_txt_to_pdf.py:82 | `<stem>.txt` becomes `<stem>.pdf` |
| Paths.DotTxtGetsAppended | scripts/convert_txt_to_pdf.py:82 | a file named just `.txt` has no suffix, so the output is named `.txt.pdf` |
| Excerpts.FirstFound | scripts/generate_milestone_links.py:32-35 | the first term, in list order, that is non-empty and occurs; none exactly when no term qualifies |
| Excerpts.Window | scripts/generate_milestone_links.py:37-39 | the window is the slice of the text that starts min(i, context) characters before the term and runs min(context, what is left) characters past it; so it holds the term and is at most term length + 2 × context long |
| Excerpts.TermExcerpt | scripts/generate_milestone_links.py:31-40 | `None` exactly when no term is found; otherwise the stripped window around the first occurrence of the first found term, which is a substring of the text |
| Excerpts.SkippedTermChangesNothing | scripts/generate_milestone_links.py:33-34 | an empty or absent term in front changes nothing |
| Excerpts.FirstTermWins | scripts/generate_milestone_links.py:35-39 | a found first term decides the excerpt whatever follows |
| MilestoneLinks.FindExcerpt | scripts/generate_milestone_links.py:31-40 | with context 120: `None` exactly when no term is found; otherwise a substring of the text |
| MilestoneLinks.FirstTruthy | scripts/generate_milestone_links.py:57 | the first truthy option, else `''`; empty exactly when neither is truthy |
| MilestoneLinks.FileRel | scripts/generate_milestone_links.py:57 | `file` if truthy, else `file_path` if truthy, else empty |
| MilestoneLinks.Terms | scripts/generate_milestone_links.py:61-62 | three terms: the key, the file's base name, and title-or-name, which is empty exactly when neither is truthy |
| MilestoneLinks.IndexPath | scripts/generate_milestone_links.py:52 | the index path is the root's components followed by the directory and `contracts_index.json` |
| MilestoneLinks.SourceNameAsWritten | scripts/generate_milestone_links.py:55 | as written: `data` exactly when the rendered index path contains `data` anywhere, else `Dataset` |
| MilestoneLinks.SourceNameNamesDirectory | scripts/generate_milestone_links.py:52-55 | the intended labelling names each index after its own directory |
| MilestoneLinks.AsWrittenLabelsDataIndex | scripts/generate_milestone_links.py:55 | the `data` index is labelled `data` under any root |
| MilestoneLinks.AsWrittenMislabelsDatasetIndex | scripts/generate_milestone_links.py:55 | under the root `mydata` the `Dataset` index is labelled `data` |
| MilestoneLinks.SourceTxt | scripts/generate_milestone_links.py:58 | a relative file path is rendered under the source directory; an empty one gives the directory alone |
| MilestoneLinks.RenderUnder | scripts/generate_milestone_links.py:59 | `Path(a) / b / q` renders as `a/b/q` for a relative non-empty `q`, and as `q` for a rooted one |
| MilestoneLinks.PdfPath | scripts/generate_milestone_links.py:59 | an empty file path raises ValueError; otherwise the path goes under `pdf_output/<source>/` with the suffix replaced |
| MilestoneLinks.MissingFileAborts | scripts/generate_milestone_links.py:57-59 | an entry with neither `file` nor `file_path` raises ValueError in `with_suffix` |
| MilestoneLinks.PdfPathOfContract | scripts/generate_milestone_links.py:59 | `contracts/<stem>.txt` maps to `pdf_output/<source>/contracts/<stem>.pdf` |
| FinalReport.ShortExcerpt | scripts/generate_final_report.py:28-37 | with context 200: `None` exactly when no term is found; otherwise a substring of the text |
| FinalReport.IntegrityParts | scripts/generate_final_report.py:61-69 | one part per present field, in the fixed order TXT checksum, TXT size, PDF checksum, PDF size: each present field's text sits at the index given by the fields before it that are present; every part starts with `TXT ` or `PDF `; none exactly when no field is present |
| FinalReport.IntegrityLine | scripts/generate_final_report.py:70 | the line starts with the asset id and an em dash; the rest is the "no integrity metadata" notice exactly when no field is present, and otherwise the parts joined by ` \| ` |
| FinalReport.IntegrityLineShowsPresentFields | scripts/generate_final_report.py:59-70 | every checksum or size that counts as present appears in the line |
| FinalReport.ZeroSizeCountsEmptyShaDoesNot | scripts/generate_final_report.py:62-65 | a size of 0 bytes is shown while an empty checksum is not |
| DiffReport.LexLeTotal | scripts/generate_diff_report.py:27 | string comparison, by which keys are sorted, is total |
| DiffReport.LexLeTrans | scripts/generate_diff_report.py:27 | string comparison is transitive |
| DiffReport.LexLeAntisymmetric | scripts/generate_diff_report.py:27 | string comparison is antisymmetric, so distinct keys are strictly ordered |
| DiffReport.EntryLeTotalPreorder | scripts/generate_diff_report.py:27 | ordering entries by key is a total preorder |
| DiffReport.StringEntries | scripts/generate_diff_report.py:28-30 | exactly the string-valued entries are kept, with their keys; entries sorted by key give pairs sorted by key |
| DiffReport.StringEntriesCounts | scripts/generate_diff_report.py:28-30 | each key and text occurs as often as the entry with that key and string value occurs |
| DiffReport.StringEntriesAppend | scripts/generate_diff_report.py:27-30 | the pairs of two runs of entries are those of the first run followed by those of the second, so the input order is kept |
| DiffReport.StringEntriesOne | scripts/generate_diff_report.py:29-30 | one entry gives its key and text when the value is a string, and nothing otherwise |
| DiffReport.ObjectText | scripts/generate_diff_report.py:25-31 | the text is the string values joined by blank lines, taken in key order, each value as often as its entry occurs and no other |
| DiffReport.LoadProcessedText | scripts/generate_diff_report.py:20-36 | an object gives its string values in key order, each as often as its entry occurs, joined by blank lines; any other JSON gives its dump; a file that is not JSON gives its raw text |
| DiffReport.InsertOtherAddsNothing | scripts/generate_diff_report.py:29-30 | sorting in an entry that is not a string adds no string |
| DiffReport.NonStringValueIgnored | scripts/generate_diff_report.py:29-30 | adding a non-string value to the object leaves the text unchanged |
| DiffReport.SingleStringValue | scripts/generate_diff_report.py:25-31 | an object with one string value yields exactly that value |
| DiffReport.ExcerptAround | scripts/generate_diff_report.py:39-45 | `None` exactly when the pattern does not occur case-insensitively; otherwise the slice of the text that starts min(idx, chars // 3) characters before the first such occurrence and runs min(chars, what is left) characters from it; so it holds the pattern (case aside) when the pattern fits |
| DiffReport.WindowKeepsPattern | scripts/generate_diff_report.py:43-45 | a window reaching past the occurrence holds the pattern, case aside |
| DiffReport.HitIff | scripts/generate_diff_report.py:54-55 | `if e:` holds exactly when the text is non-empty and contains the pattern, case aside |
| DiffReport.Digits | scripts/generate_diff_report.py:51 | the digits of the asset id in order; empty exactly when it has none; a string of digits is returned as is |
| DiffReport.DigitsAppend | scripts/generate_diff_report.py:51 | digit extraction distributes over concatenation |
| DiffReport.ContractPattern | scripts/generate_diff_report.py:53 | `Contract #` followed by the digits zero-padded to three places, or unpadded when longer |
| DiffReport.FirstLine | scripts/generate_diff_report.py:64 | empty exactly when the source is blank; otherwise the prefix of the stripped source that runs up to its first line break or its end |
| DiffReport.Candidates | scripts/generate_diff_report.py:50-68 | between one and three patterns are tried |
| DiffReport.FirstHit | scripts/generate_diff_report.py:48-68 | the excerpt of the first pattern that hits; none exactly when no pattern hits |
| DiffReport.FindBestExcerpt | scripts/generate_diff_report.py:48-71 | the result is a substring of the processed text of at most 1200 characters, and is empty only when that text is |
| DiffReport.FindBestIsFirstHit | scripts/generate_diff_report.py:48-71 | the heuristics take the first candidate that hits, in the order heading, asset id, first line; when none hits they take the first 1200 characters |
| DiffReport.ContractHeadingPreferred | scripts/generate_diff_report.py:51-56 | when the zero-padded contract heading occurs, the excerpt is taken around it |
| DiffReport.NothingFoundGivesHead | scripts/generate_diff_report.py:70-71 | when no pattern occurs, the excerpt is the head of the text |
| DetectAmendments.TrailingDigits | scripts/detect_amendments.py:18 | the longest run of digits that ends the string |
| DetectAmendments.WithoutEnding | scripts/detect_amendments.py:18 | the text before a case-insensitive `.txt` ending, which an optional final newline may follow; none exactly when no such ending exists |
| DetectAmendments.ParseSound | scripts/detect_amendments.py:18-22 | every `base`/`ver` pair the parser returns is a match of the name pattern (greedy `base`, case-insensitive `-v` and `.txt`, `\d+` version) |
| DetectAmendments.ParseComplete | scripts/detect_amendments.py:18-22 | every match of the pattern is the parse returned, so the parser accepts exactly the matching names |
| DetectAmendments.Parsed | scripts/detect_amendments.py:20-24 | an entry is in the result exactly when some found file's name matches the pattern, and it carries that file's `base` group, `int(ver)`, path and date |
| DetectAmendments.ParsedAppend | scripts/detect_amendments.py:18-24 | the entries of two walks one after the other are those of the first followed by those of the second, so walk order and multiplicity are kept |
| DetectAmendments.ParsedOne | scripts/detect_amendments.py:20-24 | one file gives one entry when its name matches and none otherwise |
| DetectAmendments.Bases | scripts/detect_amendments.py:24-27 | each base name of a matched file appears exactly once, and a base comes before another exactly as a file with it is seen before any file with the other |
| DetectAmendments.Group | scripts/detect_amendments.py:24 | a group is the subsequence of the files with its base: walk order kept, each file exactly as often as it was found |
| DetectAmendments.VersionLeTotal | scripts/detect_amendments.py:30 | ordering by version number is a total preorder |
| DetectAmendments.SortedGroup | scripts/detect_amendments.py:30 | each group is sorted by version and is a permutation of the files with that base |
| DetectAmendments.Steps | scripts/detect_amendments.py:32-44 | one record per consecutive pair, for the newer file of the pair |
| DetectAmendments.AllStepsAreUpgrades | scripts/detect_amendments.py:29-44 | every record links two files of the same asset, from a version to one no lower, and names the newer file |
| DetectAmendments.DetectYieldsUpgrades | scripts/detect_amendments.py:17-46 | every detected amendment is an upgrade between two matched files of its asset |
| DetectAmendments.GroupsPartition | scripts/detect_amendments.py:26 | the group sizes add up to the number of matched files |
| DetectAmendments.AllStepsCount | scripts/detect_amendments.py:32 | each group yields one record fewer than it has files |
| DetectAmendments.DetectCount | scripts/detect_amendments.py:17-46 | records = matched files − distinct assets |
| DetectAmendments.DetectExample | scripts/detect_amendments.py:17-46 | for `X-v2.txt` found before `X-V1.txt`, one record `X-amend-v2` "Update from v1 to v2" naming the v2 file |
| TxtToPdf.StripAll | scripts/convert_txt_to_pdf.py:52 | each piece is stripped |
| TxtToPdf.NonEmpty | scripts/convert_txt_to_pdf.py:52 | the result is the subsequence of the non-empty pieces, each as often as it occurs |
| TxtToPdf.Paragraphs | scripts/convert_txt_to_pdf.py:52 | every paragraph is non-empty, stripped, a substring of the text, and holds no blank line |
| TxtToPdf.ParagraphsOfJoin | scripts/convert_txt_to_pdf.py:52 | stripped paragraphs without blank lines, joined by blank lines, split back into themselves |
| TxtToPdf.SingleParagraph | scripts/convert_txt_to_pdf.py:52 | a text with no blank line is one stripped paragraph, or none when it is all whitespace |
| TxtToPdf.ParagraphsAtFirstBlank | scripts/convert_txt_to_pdf.py:52 | a text with a blank line gives the paragraphs before its first blank line followed by those after it; with SingleParagraph this fixes the paragraphs of every text |
| TxtToPdf.ParagraphsStep | scripts/convert_txt_to_pdf.py:52 | joining two texts at a blank line concatenates their paragraphs, when the first has no blank line and does not end in a line break |
| TxtToPdf.CleanParagraph | scripts/convert_txt_to_pdf.py:61 | the folded paragraph holds no line break |
| TxtToPdf.CleanSingleLine | scripts/convert_txt_to_pdf.py:61 | a single-line paragraph is only stripped |
| TxtToPdf.CleanLineBreak | scripts/convert_txt_to_pdf.py:61 | a single line break becomes one space between stripped lines |
| TxtToPdf.Escape | scripts/convert_txt_to_pdf.py:62 | the escaped paragraph holds no `<` and no `>` |
| TxtToPdf.EscapeIsOnePass | scripts/convert_txt_to_pdf.py:62 | replacing `&` first makes the three chained replaces one pass over the characters, so no entity is escaped twice |
| TxtToPdf.EscapeRoundTrip | scripts/convert_txt_to_pdf.py:62 | unescaping the escaped paragraph gives it back |
| TxtToPdf.OutputPdf | scripts/convert_txt_to_pdf.py:79-82 | the output lies under the output root, then the source directory's name, then the relative directories, with a valid path rooted like the output root |
| TxtToPdf.OutputOfTxt | scripts/convert_txt_to_pdf.py:82 | `<dir>/<stem>.txt` maps to `<root>/<source>/<dir>/<stem>.pdf` |
| TxtToPdf.OutputInjective | scripts/convert_txt_to_pdf.py:79-82 | two different `.txt` files under one source directory never map to the same PDF |

## Left out

- File I/O in every script is not modelled: reading, writing, `mkdir`, `exists`, `rglob` and `stat`. Directory walks become sequences of found files. File contents become strings or maps from handle to text.
- The JSON layer is not modelled: `json.load` and `json.dumps`. A loaded document is a datatype: an object of string and non-string values, another JSON value with its dump, or text that failed to parse.
- SHA-256 hashing is not modelled; the checksums come in as strings.
- Modification times, `datetime.utcnow` / `now` / `fromtimestamp`, and `uuid4` come in as strings.
- PDF rendering with ReportLab (headers, footers, styles, `doc.build`) and `difflib` are not modelled. They are output formatting, not logic.
- `txt_to_pdf`'s title and page furniture are not modelled. Only the paragraph text passed to `Paragraph` is.
- The scheduler thread, `time.sleep` and real concurrency are not modelled. The model treats each `fetch_mock_regulation` as one atomic step, so a run is a sequence of calls to `Toggle`, `Exit` and `Tick`.
- The race between the worker and the menu is not modelled. `fetch_mock_regulation` (`Regulatory.py/regulatory.py:145-156`) loads the list, appends and saves it. A worker pass and option 5 (`regulatory.py:234-235`) running at once can each load the same list, so one new regulation is lost. Options 1, 3 and 4 can also read the file while `save_json` is part-way through writing it and fail on the partial JSON.
- Console printing and the input loop of the menu are not modelled. Option 0 also ends the loop (`Regulatory.py/regulatory.py:238-241`); the model only sets the stop event and says nothing about commands after `ExitCommand`.
- Option 4's two `input()` answers are arguments of `ApplyCommand`.
- `read_contract` is not modelled separately. Relevance takes the lower-cased contract text; `ApplyRegulation` lower-cases it itself.
- The exception `read_contract` raises on a missing text becomes the result `TextMissing`. The menu then leaves the tracker unchanged, and the program's actual crash is not modelled.
- Strings.Lower: lower-cases ASCII letters only; Python's `str.lower` also maps the rest of Unicode.
- `DetectAmendments.ParseVersionName` models `\d` as the ASCII digits; Python's `\d` also accepts other Unicode decimal digits.
- `Paths` models POSIX paths only; Windows drive letters and backslash separators are left out.
- Paths.Parse: treats any run of leading slashes as one root. POSIX `pathlib` keeps exactly two leading slashes (`//x` stays `//x`), so for such a text the model differs.
- DiffReport.Digits: keeps only the ASCII digits. Python's `\d` in `re.findall` also matches other Unicode decimal digits.
- `convert_tree`'s loop over directories (`convert_txt_to_pdf.py:69-89`) is not modelled. That covers skipping missing directories, the `relative_to` fallback, and catching conversion errors. Only the path derivation for one file is modelled, in `TxtToPdf.OutputPdf`.
- `make_diff` and the rest of the diff report and final report layout (`generate_diff_report.py:74` onward, `generate_final_report.py:75` onward) are not modelled. They are formatting and library calls.
- The `amendments` filter and the hashing in `build_mappings` (`generate_milestone_links.py:66-120`) are not modelled. They are I/O plus string tests.
- The Streamlit and Flask front ends and the RAG system are not modelled. They are outside the deterministic core.
- Regulatory.ApplyAll: its own contract states only that the contract stays registered. What the run does is stated by ApplyAllKeepsOthers, ApplyAllKeepsHistory and MonotonicVersioning.
- DiffReport.Candidates: its contract states only the number of patterns. Their order and content are stated through FindBestIsFirstHit.
- TxtToPdf.OutputPdf: requires a relative, non-empty path below the source directory, which is what `relative_to` yields for a found file. The `relative_to` fallback is left out with `convert_tree`.
- Regulatory.ApplyRegulation: requires the contract id to be registered. The code indexes the registry directly, and the menu validates the id first, as `Menu.MenuApply` models.

## Findings

| source | as written | input that shows it | evidently intended | confidence | as-written member | corrected member |
|---|---|---|---|---|---|---|
| scripts/generate_milestone_links.py:55 | `source_name` is `data` whenever the text `data` appears anywhere in the full index path | a repository root named `mydata`: its `Dataset/contracts_index.json` is labelled `data`, so its `source_txt` and `pdf_path` point under `data` | name each index after the directory that holds it (`data` or `Dataset`) | not executed | MilestoneLinks.AsWrittenMislabelsDatasetIndex | MilestoneLinks.SourceNameNamesDirectory |
