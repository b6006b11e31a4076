# Ingredient health report: a verified model of its string logic

`IngredientHealthReport.py` is a Streamlit page. It takes up to four health
conditions, sends a photo of a food label to Azure's OCR ("read") service, and
asks a chat model how each listed ingredient bears on those conditions.
Around the network and UI calls sits a small amount of deterministic logic.
This project models that logic in Dafny and proves what it does:

- **Health conditions** (`HealthConditions.dfy`): the four inputs are
  filtered down to the non-empty ones, in order. They are joined with `", "`,
  and `"None"` stands in when nothing is left. The filter and join loops are
  methods proved against specification functions. The join loop is modelled
  twice: once as written, comparing each entry with the last one by value,
  and once as intended, recognising the last entry by its position (see
  Findings).
- **OCR** (`Ocr.dfy`):
  - the operation id is cut from the `Operation-Location` header;
  - the polling loop stops at the first answer whose status is neither
    `notStarted` nor `running`;
  - on `succeeded`, every recognised line of every region is concatenated,
    each followed by `"\n"`;
  - any other status yields the line `Failed with status: <status>`.

  The service's answers are supplied as a finite sequence, one per poll.
- **Prompt** (`Prompt.dfy`): the f-string that wraps the label text and the
  condition text in fixed instructions.
- **Report** (`Report.dfy`): the main block. It builds the condition text as
  the script does, with the value-comparing join, reads the label, and forms
  the prompt when a text was recognised.
- **Strings** (`Strings.dfy`): Python's `sep.join`, `s.split(c)` and `in` on
  strings, with the split/join round trip and the facts the modules above
  rely on.

## Model

| member | source | states |
|---|---|---|
| HealthConditions.NonEmpty | IngredientHealthReport.py:79-81 | the kept conditions are exactly the inputs that are not "" (membership in both directions), none is "", and there are no more of them than inputs |
| HealthConditions.NonEmptyAppend | IngredientHealthReport.py:79-81 | filtering keeps input order: the filter of a concatenation is the concatenation of the filters |
| HealthConditions.NonEmptyKeepsAll | IngredientHealthReport.py:79-81 | when no input is "", every input is kept, in order |
| HealthConditions.CollectConditions | IngredientHealthReport.py:73-81 | the list built from the four inputs is their non-empty entries in order; it has at most 4 entries; it is empty exactly when all four inputs are "" |
| HealthConditions.JoinConditionsAsWritten | IngredientHealthReport.py:83-90 | the loop as written, comparing by value with the last entry, yields the as-written text (the loop's accumulation, or "None" when that is "") |
| HealthConditions.JoinConditions | IngredientHealthReport.py:83-90 | with the last entry recognised by position, the text is the entries joined by ", " with no trailing separator, or "None" for an empty list; it ends with the last entry |
| HealthConditions.HealthConditionsTextAsWritten | IngredientHealthReport.py:73-90 | as written: the condition text is "None" when all four inputs are "", and otherwise what the value-comparing join loop accumulates over the non-empty inputs, which is never "" |
| HealthConditions.HealthConditionsText | IngredientHealthReport.py:73-90 | corrected, with the position-based join: the condition text is "None" when all four inputs are "", and otherwise the non-empty inputs joined by ", ", which is never "" |
| HealthConditions.AsWrittenMatchesWhenLastDistinct | IngredientHealthReport.py:83-90 | when no earlier entry equals the last one, the loop as written gives exactly the ", "-joined text |
| HealthConditions.AsWrittenJoinDistinct | IngredientHealthReport.py:84-88 | over entries that all differ from the last one, the loop appends a separator after each entry, so whatever follows completes a proper join |
| HealthConditions.AsWrittenJoinLength | IngredientHealthReport.py:84-88 | the loop as written adds a two-character separator after each entry NOT equal to the last entry, and after no other entry |
| HealthConditions.AsWrittenNeverEmpty | IngredientHealthReport.py:83-90 | as written, a list whose last entry is not "" never reaches the "None" replacement, and the text is at least as long as all entries together |
| HealthConditions.AsWrittenDiffersOnDuplicateOfLast | IngredientHealthReport.py:85-88 | whenever an earlier entry equals the non-empty last entry, the text as written differs from the ", "-joined text |
| HealthConditions.DuplicateOfLastExample | IngredientHealthReport.py:83-90 | entries "a", "b", "a" give "ab, a" as written, where "a, b, a" is the join |
| Strings.JoinEndsWithLast | IngredientHealthReport.py:83-88 | a join ends with its last part: there is no trailing separator |
| Strings.JoinSnoc | IngredientHealthReport.py:83-88 | one more part appends the separator and that part |
| Strings.JoinLength | IngredientHealthReport.py:83-88 | a join's length is the parts' total length plus one separator per pair of neighbours |
| Strings.JoinExtendLast | IngredientHealthReport.py:83-88 | extending the last part extends the join by the same text |
| Strings.Split | IngredientHealthReport.py:52 | `split` always yields at least one piece |
| Strings.SplitSnoc | IngredientHealthReport.py:52 | one more character either starts a new piece (the separator) or extends the last piece |
| Strings.SplitPartsExcludeSeparator | IngredientHealthReport.py:52 | no piece of a split contains the separator |
| Strings.SplitLast | IngredientHealthReport.py:52 | the last piece is a suffix of the text, and either it is the whole text or a separator stands just before it |
| Strings.SplitWithoutSeparator | IngredientHealthReport.py:52 | a text without the separator splits into itself alone |
| Strings.JoinSplit | IngredientHealthReport.py:52 | joining the pieces of a split with the same character gives the text back |
| Strings.SplitExtend | IngredientHealthReport.py:52 | appending text without the separator only extends the last piece |
| Ocr.OperationId | IngredientHealthReport.py:51-52 | the id contains no "/", is a suffix of the header, is preceded by "/" when shorter than the header, and is the whole header when it holds no "/" |
| Ocr.FirstTerminal | IngredientHealthReport.py:54-57 | the index found is the first answer that is not in progress; there is none exactly when every answer is in progress |
| Ocr.FirstTerminalUnique | IngredientHealthReport.py:54-57 | at most one answer is the first terminal one |
| Ocr.Poll | IngredientHealthReport.py:54-58 | the polling loop stops at the first answer whose status is neither "notStarted" nor "running", or runs out of answers when there is none |
| Ocr.LineTexts | IngredientHealthReport.py:63-64 | one text per line, in line order |
| Ocr.TerminatedShape | IngredientHealthReport.py:61-64 | the assembled text's length is the lines' total length plus the number of lines, and it ends in "\n" when there is any line |
| Ocr.AssembleText | IngredientHealthReport.py:61-64 | the nested loops produce every line of every region, in region order and then line order, each followed by "\n" |
| Ocr.TerminatedAppend | IngredientHealthReport.py:61-64 | the text of two line lists in a row is the text of the first followed by the text of the second |
| Ocr.FlattenAppend | IngredientHealthReport.py:62-63 | the lines of two region lists in a row are the lines of the first, then those of the second |
| Ocr.RecognizedTextAppend | IngredientHealthReport.py:61-64 | the text of two region lists in a row is the text of the first followed by the text of the second |
| Ocr.SplitTerminated | IngredientHealthReport.py:61-64 | when no line holds a "\n", splitting the text at "\n" gives back the lines, plus the empty piece after the final newline |
| Ocr.RecognizedTextExample | IngredientHealthReport.py:61-64 | regions with lines "A", "B" and "C" give "A\nB\nC\n" |
| Ocr.FailureMessage | IngredientHealthReport.py:67 | the failure line starts with "Failed with status: " and contains the status |
| Ocr.ReadOutcome | IngredientHealthReport.py:54-68 | polling continues exactly when every answer is in progress. A text is produced exactly when the first terminal status is "succeeded", and it is that answer's assembled text. Otherwise the outcome carries that answer's status, which is neither in progress nor "succeeded" |
| Ocr.ReadText | IngredientHealthReport.py:54-68 | polling and then assembling or failing gives the specified outcome |
| ReportPrompt.Prompt | IngredientHealthReport.py:22 | the prompt starts with the fixed preamble, ends with the fixed closing, and its length is the fixed parts plus both texts |
| ReportPrompt.PromptRoundTrip | IngredientHealthReport.py:22 | the label text and the condition text can be read back out of the prompt unchanged |
| ReportPrompt.PromptInjective | IngredientHealthReport.py:22 | for label texts of the same length, equal prompts come from equal label texts and equal condition texts, in both directions |
| ReportPrompt.PromptContains | IngredientHealthReport.py:22 | the prompt contains the label text, the condition text, and the sentence "The image does not appear to contain an ingredient list" |
| Report.Run | IngredientHealthReport.py:50-95 | a prompt is formed exactly when the first terminal status is "succeeded"; it is built from that answer's text and the condition text as the script computes it (value-comparing join), and contains both that text and the fallback sentence. A failure line is shown exactly when that status is anything else |

## Left out

- The Streamlit page (`title`, `text_input`, `file_uploader`, `image`, `write`) is UI rendering. The four inputs are parameters. The failure line is returned instead of written.
- The missing-image branch of `ocr()` (line 40) is not modelled. Without an upload the page simply waits, and no prompt is formed.
- PIL image decoding and re-encoding (lines 41, 46-48) are not modelled. Nor are `load_dotenv`, `os.getenv`, the endpoints and the credentials. These are I/O and configuration.
- `read_in_stream` and `get_read_result` are calls to the Azure service. The `Operation-Location` header is a parameter. The service's answers are a supplied function from operation id to the finite sequence of answers the polls receive.
- Ocr.Poll: `time.sleep(1)` and the unbounded `while True` are not modelled. The loop runs over the supplied finite answers, and when all of them are still in progress the outcome is `StillPolling` rather than more polling.
- Service errors are not modelled: a missing `Operation-Location` header, a missing `analyze_result`, or exceptions raised by the clients.
- The status is an arbitrary string. The service's enumeration of statuses is not modelled.
- The `AzureOpenAI` chat completion (lines 18-21, 23-32) is a foreign network call and is not modelled. Neither is `json.loads` of its answer or indexing into `choices[0]` (lines 94-95). The model stops at the prompt that would be sent.

## Findings

| source | as written | input that shows it | evidently intended | confidence | as-written member | corrected member |
|---|---|---|---|---|---|---|
| IngredientHealthReport.py:85 | an entry gets no ", " after it when it is EQUAL to the last entry, so every earlier copy of the last entry also loses its separator | conditions "a", "b", "a" give "ab, a" | a separator after every entry but the last by position: "a, b, a" | high, not executed | HealthConditions.JoinConditionsAsWritten (with AsWrittenDiffersOnDuplicateOfLast, DuplicateOfLastExample) | HealthConditions.JoinConditions and HealthConditions.HealthConditionsText (with AsWrittenMatchesWhenLastDistinct) |
