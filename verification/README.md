# Résumé validator: the text-processing core, modelled in Dafny

The résumé validator is a desktop tool. It turns a résumé's text into a prompt, sends the prompt to a
locally running language model, pulls one JSON object out of the model's free-text reply, decodes it
and appends a timestamped entry to `results.json`. This project models the deterministic middle of
that pipeline, all of it in `main.py`:

- `extract_json` (module `Extract`, properties in `ExtractFacts`). The fenced-block regular
  expression is a pure function that finds the leftmost match and stops at the first possible closing
  brace. The brace scan is a method with the `for` loop of main.py:122 and its `depth` counter. It is proved
  equal to a declarative specification: the shortest prefix, starting at the first `{`, whose braces
  balance.
- `build_prompt` (module `Prompt`). The fixed template, the `- name` requirement lines and the final
  document text. The lemmas show how the prompt splits into lines and that the document text can be
  recovered from the prompt.
- The result classification in `validate_resume_local` (module `Analysis`). The two library parsers
  behind `safe_json_loads` are opaque decoders. The model covers the fallback between them, the
  error records and how the extractor feeds the classifier.
- The history file and the window's history list (modules `History` and `App`). The file is a state
  `Missing | Unreadable | Saved(entries)`. It is owned by the class `ResultsFile`, whose methods
  rewrite that state. `ResumeAnalyzerApp` holds the in-memory list and the number of list-box rows.
  Its handlers reload, delete, clear and show a finished run.
- `validate_resume_local` as a whole (module `Pipeline`). The run's inputs are parameters: the
  extracted text, the model call, the clock and the file names.

Three behaviours of the code that a reader may not expect:

- The JSON skeleton in the prompt is always the constant `JSON_REQUIREMENTS`, rendered with Python's
  `repr`, so its strings use single quotes. It is not built from the `requirements` argument.
- Clearing the history does not leave an empty history on screen. See Findings.
- The brace scan does not know about string literals. `Extract` follows the code, and
  `ExtractFacts.ScanStopsAtQuotedBrace` shows the consequence.

## Model

| member | source | states |
|---|---|---|
| `Text.Find` | main.py:117 | `find` gives the first index holding the character, with none before it; None exactly when the character is absent |
| `Text.Strip` | main.py:119 | `strip()` returns the slice of its input that starts after the leading whitespace; everything before and after that slice is whitespace as `str.isspace` defines it, and a non-empty result begins and ends with a non-space |
| `Text.StripKeepsNonSpaceStart` | main.py:117-119 | when the text starts at a `{`, `strip()` removes only a run of trailing whitespace, so the result is a prefix of the original |
| `Text.DepthOverSpaces` | main.py:121-126 | whitespace never changes the brace depth |
| `Extract.SkipSpaces` | main.py:113 | `\s*` matched greedily: the first non-whitespace index at or after the start |
| `Extract.TagEnd` | main.py:113 | `(?:json)?` skips four characters exactly when `json` follows the backticks, and none otherwise |
| `Extract.FirstClose` | main.py:113 | the lazy `.*?\}` ends at the least `}` that is followed by whitespace and a closing fence |
| `Extract.MatchAt` | main.py:113 | a match anchored at a position has backticks there, its group starts exactly where the optional tag and the whitespace after it end, with a `{`, and runs to the first closing `}` after it |
| `Extract.SearchFrom` | main.py:113 | `re.search` reports a start inside the text where the pattern matches, with that match's group bounds |
| `Extract.SearchFromLeftmost` | main.py:113 | the reported start is the leftmost: no earlier start matches, and when nothing is reported no start matches at all |
| `Extract.FenceGroup` | main.py:113-115 | the captured group has at least two characters and starts with `{` and ends with `}` |
| `Extract.FirstCloseIs` | main.py:113 | the lazy group ends at any `}` that closes the fence with no closing `}` before it |
| `Extract.Outermost` | main.py:121-128 | the shortest non-empty prefix whose braces balance, or None with the depth positive on every non-empty prefix |
| `Extract.DepthStaysPositive` | main.py:121-129 | from an opening brace, if no prefix balances then the depth never reaches zero |
| `Extract.OutermostIgnoresTrailingSpaces` | main.py:119-128 | scanning the stripped text gives the same answer as scanning the unstripped text |
| `Extract.ExtractJson` | main.py:109-129 | returns exactly the fenced group, else the outermost object of the stripped text from the first `{`, else None |
| `Extract.ScanOutermost` | main.py:121-129 | the loop with its depth counter returns the shortest balanced prefix as soon as the depth is back at zero, and None when it never is |
| `Extract.ScanTarget` | main.py:117-119 | without a fence and with a `{`, the stripped text from the first `{` still starts with `{`, and its outermost object is the answer |
| `Extract.ClosesAt` | main.py:125-128 | a depth that first comes back to zero after `n` characters makes those `n` characters the outermost object |
| `Extract.ClosesNowhere` | main.py:121-129 | a depth that stays positive to the end leaves no outermost object |
| `ExtractFacts.NoCandidateIff` | main.py:113-129 | no candidate exactly when there is no `{`, or there is no fence and the depth from the first `{` never returns to zero |
| `ExtractFacts.BraceScanShape` | main.py:117-128 | on the scan path the candidate is the slice starting at the first `{` and ending with `}`; it has as many `{` as `}`, and every proper prefix has more `{` |
| `ExtractFacts.ObjectInProse` | main.py:117-128 | a balanced object in prose with no `{` before it and no fence is returned whole, never an inner object |
| `ExtractFacts.CandidateNonEmpty` | main.py:113-128 | the candidate is never the empty string, so `not json_str` tests only for None |
| `ExtractFacts.FencedAtStart` | main.py:113-115 | a match at position 0 decides the answer: its group is returned |
| `ExtractFacts.MatchAtIs` | main.py:113 | backticks, the optional tag, whitespace, a `{` and a first closing `}` make a match at that position |
| `ExtractFacts.FencedExampleMatch` | main.py:113 | in the fenced `{"a":1}` example the group runs from index 8 to index 14 |
| `ExtractFacts.QuotedBraceCloses` | main.py:113 | in the quoted-brace example only the last `}` is followed by the closing fence |
| `ExtractFacts.FencedExample` | main.py:113-115 | a fenced `json` block is returned without fence or newlines |
| `ExtractFacts.QuotedBraceMatch` | main.py:113 | on a fenced object with a quoted `}`, the group runs to the last `}` |
| `ExtractFacts.FencePreferredOverScan` | main.py:113-115 | with a fence, the whole object is returned although it contains a quoted `}` |
| `ExtractFacts.ScanStopsAtQuotedBrace` | main.py:121-128 | without the fence, the brace scan stops at the quoted `}` |
| `Prompt.Bullets` | main.py:60 | one `- name` line per requirement, in order |
| `Prompt.JoinWith` | main.py:60 | `"\n".join`: no parts give the empty string; otherwise the result starts with the first part |
| `Prompt.Lines` | main.py:60 | `split("\n")`, which the source never calls: the inverse of the join, used to state what the join produces; it yields at least one piece |
| `Prompt.LinesHaveNoNewline` | main.py:60 | no piece of `split("\n")`, the join's inverse, contains a newline |
| `Prompt.LinesConcat` | main.py:60 | `split("\n")`, the join's inverse, splits text at an inserted newline into each side's own pieces |
| `Prompt.LinesOfJoin` | main.py:60 | joining newline-free lines with `"\n"` and splitting again gives the same lines |
| `Prompt.JoinOfLines` | main.py:60 | the other direction of the round trip: splitting at newlines and joining with `"\n"` gives the same text |
| `Prompt.TemplateItems` | main.py:74 | the `{JSON_REQUIREMENTS}` field renders as a Python list: it starts with `[` and ends with `]` |
| `Prompt.TemplateItemList` | main.py:23-28 | `JSON_REQUIREMENTS` has one item per rubric requirement, in rubric order, and the i-th item is the empty record for the i-th requirement |
| `Prompt.TemplateItem` | main.py:24-27 | an item's `repr` carries the requirement's name verbatim at a fixed offset, and introduces no double quote of its own |
| `Prompt.TemplateUsesSingleQuotes` | main.py:74 | the skeleton the prompt shows is a Python `repr`, not JSON: it holds no double quote at all |
| `Prompt.JoinKeepsOut` | main.py:74 | a character absent from every item and from the `", "` separator is absent from the rendered list |
| `Prompt.BuildPrompt` | main.py:59-81 | the prompt starts with the fixed intro and ends with `CURRÍCULO:`, newline, the document text, newline |
| `Prompt.PromptLines` | main.py:60-81 | line by line: opening lines, `REQUISITOS:`, one `- name` line per requirement in order, the instructions, `CURRÍCULO:`, the text's lines, a final empty line |
| `Prompt.RequirementLines` | main.py:60 | the requirement block splits into exactly the bullet lines, or one empty line when there are none |
| `Prompt.PromptDeterminesText` | main.py:79-81 | two prompts for the same requirements are equal only if their document texts are equal |
| `Prompt.RequirementsAreSingleLines` | main.py:17-22 | no rubric name contains a newline |
| `Analysis.SafeJsonLoads` | main.py:173-183 | succeeds exactly when one of the two parsers succeeds; the strict result wins; the failure message wraps the second parser's message |
| `Analysis.NoJsonRecord` | main.py:195 | the record's `error` is "Nenhum JSON encontrado", its `raw` is the response, and it has no `json_extraido` |
| `Analysis.DecodeFailureRecord` | main.py:200-204 | the record's `error` carries the decode message, `json_extraido` the candidate, and `raw` the response |
| `Analysis.Classify` | main.py:194-204 | None gives the no-JSON record; a rejected candidate gives the decode-failure record; an accepted candidate gives the decoded value |
| `Analysis.AnalysisResult` | main.py:192-204 | the extractor's answer decides between the no-JSON record, the decode-failure record and the decoded value |
| `Analysis.NoBraceNoJson` | main.py:192-195 | a response without `{` gives the no-JSON record, which keeps the response as `raw` |
| `Analysis.FencedResponseDecoded` | main.py:192-198 | a fenced `{"a":1}` that the strict parser accepts is stored as exactly the decoded value |
| `Analysis.ErrorKeepsResponse` | main.py:194-204 | every non-decoded result is a dictionary whose `raw` is the whole response |
| `History.Loaded` | main.py:148-155 | `load_history` returns the stored list, or `[]` when the file is missing or unreadable |
| `History.Appended` | main.py:131-146 | saving adds exactly one entry at the end and leaves the loaded history before it unchanged |
| `History.AppendThenLoad` | main.py:131-155 | a missing or unreadable file becomes `[entry]`; otherwise the old list followed by the entry; the last loaded element is the entry |
| `History.RemoveAt` | main.py:525 | `pop(i)` keeps the elements before `i`, shifts those after it, and removes exactly one occurrence of `s[i]` |
| `History.ResultsFile.SaveResultEntry` | main.py:131-146 | the file afterwards holds the previously loadable list plus the entry |
| `History.ResultsFile.LoadHistory` | main.py:148-155 | returns what `Loaded` specifies for the current file |
| `History.ResultsFile.ClearHistoryFile` | main.py:157-160 | the file is absent afterwards and the call raises `NameError` |
| `History.ResultsFile.RemoveFile` | main.py:158-159 | the file is absent afterwards |
| `History.ResultsFile.WriteAll` | main.py:528-529 | the file holds exactly the given list |
| `Pipeline.ValidateResumeLocal` | main.py:185-214 | the entry carries the given names, timestamp and model; its result is the extraction and classification of the model's reply to the built prompt; the entry is appended to the file |
| `App.ResumeAnalyzerApp.constructor` | main.py:349-351 | the window starts with the history loaded from the file, one row per entry |
| `App.ResumeAnalyzerApp.ReloadHistory` | main.py:394-403 | memory holds the loaded list, and the list box has one row per entry |
| `App.ResumeAnalyzerApp.DeleteSelected` | main.py:512-536 | with no selection or no confirmation nothing changes; otherwise exactly the selected entry is removed, the rest keep their order, and the file equals the in-memory list |
| `App.ResumeAnalyzerApp.ClearHistoryConfirmAsWritten` | main.py:417-427 | once confirmed, the file is absent and the handler reports failure, but memory and list box keep every entry |
| `App.ResumeAnalyzerApp.ClearHistoryConfirm` | main.py:417-425 | once confirmed, the file is absent and memory and list box are empty and agree with the file |
| `App.ResumeAnalyzerApp.ShowFinishedRun` | main.py:583-594 | after reloading, the selected row is the last one, or none when the history is empty |
| `App.AnalyzeAndShow` | main.py:249-255 | after one run and its hand-off, the selected row is the new entry, at the end of the previously stored history; the list box still has one row per entry and memory agrees with the file |
| `App.ClearAsWrittenResurrects` | main.py:157-160 | two stored entries, then clear, then delete row 0: the file holds the second entry again |
| `App.ClearThenNothingToDelete` | main.py:417-425 | with the intended clear, the same sequence leaves the file empty and no rows on screen |

## Left out

- `ollama_chat` (the subprocess call, its timeout and its error strings) is not modelled. The model's reply comes from the `chat` parameter of `Pipeline.ValidateResumeLocal`.
- The text extractors for `.docx` and `.pdf` (`extract_text_from_file`, `_docx`, `_pdf`) are not modelled: they are document-library calls. The document text is a parameter. For an unsupported extension the source puts a dictionary into the f-string, which the model does not reproduce.
- The grammars of `json.loads` and `ast.literal_eval` are not modelled. They are the opaque `Decoder` functions, so the model proves no decode/encode round trip.
- `Analysis.Value` keeps numbers as exact reals, so the model does not capture floating-point rounding.
- `export_entry_to_pdf` is not modelled: it is made of reportlab calls.
- The worker thread, the queue and the polling loop are not modelled. `App.AnalyzeAndShow` runs the analysis and its "ok" hand-off one after the other, and the worker's error branch is left out.
- Widgets, labels, status texts, themes, dialogs, opening files and folders, re-running and exporting are not modelled. A dialog answer or a list-box selection is a parameter.
- `App.ResumeAnalyzerApp.DeleteSelected` requires the selected index to name an existing row, because a list-box selection can only name a row that exists.
- The clock and `os.path.basename`/`abspath` are parameters of `Pipeline.ValidateResumeLocal`.
- A `results.json` whose JSON is valid but is not a list of entries is not modelled. The store is missing, unreadable or a list of entries.
- Failures while writing the file (disk full, permissions) are not modelled.
- History.ResultsFile.SaveResultEntry: assumes every entry survives a `json.dump`/`json.load` round trip unchanged. The model always ends with the old list plus the entry, and `History.AppendThenLoad` says the entry is what comes back last. That holds only because `Analysis.Value` has string keys only and no tuples, sets, bytes or complex numbers. A candidate that only `ast.literal_eval` accepts can produce these values, and the code then goes wrong in two ways:
  - Some results are written but come back changed. An integer, float, bool or `None` dictionary key is written as a JSON string, so `{1: 'x'}` comes back as `{"1": "x"}`. A tuple comes back as a list.
  - Other results make `json.dump` raise `TypeError` after `open(..., "w")` has already truncated `results.json`. These are sets, bytes and complex values, and dictionaries with tuple or bytes keys. The next `load_history` then returns `[]`, so the whole stored history is lost.
- After the `NameError`, the rest of `clear_history_file` (main.py:160-171) is never reached and is not modelled.

## Findings

| source | as written | input that shows it | evidently intended | confidence | as-written member | corrected member |
|---|---|---|---|---|---|---|
| main.py:157-160 | `clear_history_file` removes `results.json` and then uses `self`, which does not exist in a module-level function. The `NameError` is caught at main.py:426-427, so `reload_history` never runs and the window keeps the cleared entries. The next `delete_selected` rewrites the file from that stale list. | file holds `[e1, e2]`; confirm "clear history"; delete row 0; the file now holds `[e2]` | after a confirmed clear, the file is absent and the in-memory history and list box are empty | high; not executed | `App.ClearAsWrittenResurrects` | `App.ResumeAnalyzerApp.ClearHistoryConfirm` |
