# Rating therapy conversations with local language models — a Dafny model

The script `index.ts` runs a questionnaire experiment. A template file's header row marks where each question group starts, and its element row holds each group's prompt text and terms. Each transcript is a chat log between a client and a chatbot.

For every configured model file, the script first checks whether the model's result file already exists. If it does, the model is skipped. Otherwise the script loads the model and runs every transcript of the folders `Alex001` and `Alex002` through a fresh chat session. Within a session it asks every question group in template order:

- a free-text group sends its prompt once and keeps the answer verbatim;
- an enumerable group sends one prompt per term and keeps the first decimal number in each answer, or `NaN`.

After each transcript, the script rewrites the model's tab-separated result file with the two template rows plus one row per transcript so far.

This project models that logic in Dafny and proves properties of it:

- **`Js`**: the JavaScript built-ins the script relies on, with their ECMAScript edge cases: `slice` with negative and clamped indices, one-character `split`, and `join`.
- **`Answers`**: the answer cell type and the extraction `Number(answer.match(/\d+/gi)?.[0])`.
- **`Template`**: parsing the template (split, then strip one delimiter character on each side of a cell), the scan for `"prompt"` headers, and the term slices of each group.
- **`Session`**: one transcript's session, meaning the prompts issued and the row assembled from the answers.
- **`ResultTable`**: serialising the table and reading it back.
- **`Experiment`**: one model's run with its checkpoints, the result-file names, the seed, and the loop over all models with its skip-if-present resumption.

The language model is an oracle, `(Context, seq<Prompt>) -> string`. Given the session's context (model, seed and transcript text) and every prompt issued in that session so far, it returns the text generated for the last prompt. Because the oracle sees the whole session, an answer may depend on every earlier question of the same transcript, as the session's carried history allows. Random draws are parameters. The result folder is a map from file name to content.

The model follows what the code does, including behaviour that is easy to misread:

- The last group's terms end one cell before the end of the element row. `promptStarts[i + 1] ?? -1` slices to `-1`, so the final element cell is never a term.
- The seed is `Math.round(u * 1000000)`, which reaches 1000000 for draws from 0.9999995 on.
- The long prompt goes to every term equal to the first term, not only to the first position.
- Every group adds an empty spacer cell before its answers, so a group takes one column more than its answer count.
- A template file without a line break has no element row. The script then throws at the first transcript of the first model it loads, before any prompt or write. With no transcripts at all it throws nothing and writes nothing.

## Model

| member | source | states |
|---|---|---|
| `Js.Slice` | index.ts:120 | `slice`: in-range bounds give the subsequence, an end past the length is clamped, a negative start or end (or both) counts from the end (a start before the front is clamped to 0), and empty or inverted ranges give nothing |
| `Js.JoinSplit` | index.ts:88 | joining the pieces of `split` with the same separator gives back the original text |
| `Js.SplitJoin` | index.ts:141 | splitting a `join` of separator-free pieces gives back exactly those pieces |
| `Js.SplitCount` | index.ts:88 | `split` yields one piece more than the text has separators |
| `Js.SplitAtFirstSeparator` | index.ts:88 | splitting stops at the first separator: the text before it is the first piece and the rest splits on its own |
| `Js.JoinSnoc` | index.ts:141 | joining one more piece appends a separator and that piece |
| `Answers.Decimal` | index.ts:141 | the decimal text that `join` prints for a number is a non-empty digit string with that value, with no leading zero, so 0 prints as exactly "0" |
| `Answers.Extract` | index.ts:131 | the cell is `NaN` exactly when the answer has no digit, is never text, and otherwise is the value of a first maximal digit run |
| `Answers.ExtractReadsFirstRun` | index.ts:131 | conversely, whatever the first maximal digit run is, the extracted value is that run's value |
| `Answers.LeadingZeros` | index.ts:131 | zeros in front of a digit string do not change the number read from it |
| `Answers.ExtractDecimal` | index.ts:131 | a number written in an answer between digit-free text and a non-digit, with any leading zeros, is read back as that number |
| `Template.Unwrap` | index.ts:88 | `cell.slice(1, -1)` drops the first and last character whatever they are, and a cell of fewer than two characters becomes empty |
| `Template.ParseQuestionnaire` | index.ts:87-90 | the template has an element row exactly when the file holds a line break, and both parsed rows then have at least one cell |
| `Template.ParsedCellsClean` | index.ts:87-88 | no parsed template cell holds a tab or a line break |
| `Template.RowRoundTrip` | index.ts:88 | one rendered row (cells wrapped in any delimiters, joined by tabs) splits and unwraps to the original cells |
| `Template.ParseRender` | index.ts:87-90 | parsing a rendered template gives back the template, whatever delimiter characters wrapped its cells, since they are dropped unchecked |
| `Template.ParseRenderWithMoreLines` | index.ts:87-90 | a rendered template followed by a line break and any further text (a trailing newline, more lines) parses to the same template: line 0 gives the headers, line 1 the elements, later lines are ignored |
| `Template.PromptStarts` | index.ts:93-100 | the group starts ascend strictly and each one is a header cell equal to `"prompt"` |
| `Template.PromptStartsExact` | index.ts:95-99 | a header position is a group start if and only if its cell equals `"prompt"` |
| `Template.PromptStartsCount` | index.ts:93-100 | there are as many groups as header cells equal to `"prompt"` |
| `Template.FindPromptStarts` | index.ts:93-100 | the script's scan over the header row yields exactly the ascending positions of `"prompt"` cells |
| `Template.Groups` | index.ts:118-120 | one group per start, and an enumerable group always has a defined prompt cell |
| `Template.GroupTermsAreCells` | index.ts:120 | term k of group i is element cell `start + 1 + k`, terms stop before the next start, and the last group's terms stop before the final element cell |
| `Template.InnerGroupTerms` | index.ts:120 | a group that is not last takes every element cell strictly between its start and the next start, both clamped to the element row; a row ending before the next start gives the group all remaining cells |
| `Template.LastGroupTerms` | index.ts:120 | the last group takes the cells after its start except the final one, and none when no such cell exists |
| `Template.FinalCellNeverTerm` | index.ts:120 | when the element row is as long as the header row, no group ever asks about the final element cell |
| `Template.TwelveCellExample` | index.ts:120 | with starts 2, 5 and 9 in a 12-cell row the groups take cells 3–4, 6–8 and 10 only |
| `Session.GroupPromptsShape` | index.ts:123-135 | a free-text group sends its prompt cell verbatim; an enumerable group sends prompt, connective and term for terms equal to the first and the bare term otherwise, and every prompt ends with its term |
| `Session.RepeatedFirstTerm` | index.ts:125-127 | a later term equal to the first term gets the long prompt again |
| `Session.ConversePrefix` | index.ts:110-114 | answers already given in a session do not change as the session goes on |
| `Session.AskGroup` | index.ts:122-137 | asking one group issues exactly the group's prompts after the earlier ones and yields a spacer plus one cell per answer, extracted or verbatim |
| `Session.RunTranscript` | index.ts:116-138 | the session loop issues every group's prompts in group order and builds the transcript's row from the oracle's answers |
| `Session.GroupStep` | index.ts:118-138 | adding a group appends its prompts to the session's prompts and its cells to the row |
| `Session.PromptsAppend` | index.ts:118-138 | the prompts of consecutive group sequences are the concatenation of their prompts |
| `Session.CellsAppend` | index.ts:118-138 | the cells of consecutive group sequences, with the answers cut at the same place, are the concatenation of their cells |
| `Session.RowLength` | index.ts:116-138 | a row holds the transcript name, one spacer per group and one cell per prompt |
| `Session.PromptLayout` | index.ts:118-130 | prompt k of a group is prompt `|earlier prompts| + k` of the session and receives the answer at that position |
| `Session.RowLayout` | index.ts:122-136 | the group's spacer sits at column `1 + |earlier groups| + |earlier prompts|` and answer k right after it, extracted for enumerable groups and verbatim otherwise |
| `Session.SingleGroup` | index.ts:116-138 | a session of one group issues that group's prompts, and its row is the name followed by that group's cells |
| `Session.RatingExample` | index.ts:118-133 | a rating group with terms "Angst" and "Wut" answered "3" and "4\n" yields the row name, spacer, 3, 4 |
| `Session.FreeTextExample` | index.ts:134-137 | a free-text group's answer ("Ich fühle mich neutral.") is stored as returned |
| `ResultTable.ReadSerialize` | index.ts:141 | a table whose cells hold no tab or line break reads back from its serialisation as its cells' texts, line per row and field per cell |
| `ResultTable.LineCount` | index.ts:141 | such a file has exactly one line per table row |
| `ResultTable.SerializeSnoc` | index.ts:139-141 | adding a row appends a line break and that row's line to the file |
| `ResultTable.Reextract` | index.ts:131-141 | a number or `NaN` cell, printed and extracted again, gives the same cell |
| `Experiment.StripExt` | index.ts:54 | `basename(name, ".gguf")` removes the extension when the name ends with it and leaves the name alone otherwise |
| `Experiment.OutName` | index.ts:54 | a result file name ends in ".tsv" |
| `Experiment.OutNameInjective` | index.ts:54 | two model files with the extension share a result file only when they are the same file |
| `Experiment.OutNameCollision` | index.ts:54 | without the extension that fails: "m" and "m.gguf" share "output_m.tsv" |
| `Experiment.ModelFilesDistinct` | index.ts:47-54 | the three configured models write three different result files |
| `Experiment.Seed` | index.ts:109 | the seed is the nearest integer to `u * 1000000` (halves up) and is at most 1000000 |
| `Experiment.SeedReachesMillion` | index.ts:109 | the bound 1000000 is reached |
| `Experiment.CheckpointsExtend` | index.ts:139-142 | each rewrite of the result file extends the previous content by a line break and the new transcript's row |
| `Experiment.CheckpointReadsBack` | index.ts:102-142 | a checkpoint reads back as the two template rows and one row per transcript so far, when no name or free-text answer holds a separator |
| `Experiment.RunModel` | index.ts:102-145 | without an element row the run throws if and only if there is a transcript, and writes nothing; otherwise write k is the table after k + 1 transcripts |
| `Experiment.OutcomeOf` | index.ts:89-141 | a loaded model's run throws exactly when the template has no line break and there is a transcript, writes exactly when it has one and there is a transcript, and does neither without transcripts |
| `Experiment.VisitOf` | index.ts:56-63 | a model is loaded exactly when its result file is missing; only a loaded model that writes changes the folder, and only its own file |
| `Experiment.VisitModel` | index.ts:53-148 | one model's turn as the script takes it is the turn described by `VisitOf` |
| `Experiment.RunAll` | index.ts:53-149 | the script's loop over the models is the fold of the model turns, stopping at the first throw |
| `Experiment.AbortIsFinal` | index.ts:53-149 | after a throw no later model changes anything |
| `Experiment.KeepsExistingFiles` | index.ts:56-60 | a result file present at the start is never rewritten |
| `Experiment.NewFilesAreResults` | index.ts:54-142 | every new file is the result file of a model that was loaded |
| `Experiment.LoadedOnlyWhenMissing` | index.ts:53-63 | models are loaded in order, and only when their result file was missing at the start |
| `Experiment.LoadedWhenMissing` | index.ts:53-63 | with distinct result names and no throw, a model is loaded if and only if its file was missing at the start |
| `Experiment.ThrowsAtFirstLoad` | index.ts:89-141 | the run throws exactly when the template has no element row, a transcript exists and some result file is missing; it throws at the first such model, having written nothing |
| `Experiment.QuietRunWritesNothing` | index.ts:104-146 | a run that never writes leaves the folder unchanged |
| `Experiment.ResultsWritten` | index.ts:139-142 | when runs write, every visited model ends with a result file, and a loaded model's file holds its final table |
| `Experiment.QuietOnceDone` | index.ts:56-60 | when every result file exists no model is loaded and nothing changes |
| `Experiment.RerunIsNoOp` | index.ts:56-60 | running a completed experiment again loads no model and leaves the folder as it is |
| `Experiment.FinalsAreCheckpoints` | index.ts:139-142 | the final content of a loaded model's file is its checkpoint after the last transcript |

## Left out

- The language model (`getAnswser` and node-llama-cpp, index.ts:13-39) is the oracle. Token limits, stop triggers, temperature, streaming and detokenisation are inside it. The constant instruction preamble of the system prompt is omitted from `Context`, since it is the same for every session.
- A group whose start cell lies past the end of the element row hands JavaScript's `undefined` to `session.prompt` (index.ts:119 and 135). The model passes `Prompt.Undefined` to the oracle and assumes an ordinary answer comes back. Whether node-llama-cpp answers or throws for `undefined` cannot be told from the script, and a throw there is not modelled.
- Console output and `process.stdout.write` are left out; they do not affect results.
- `Math.random` is not modelled; the draws are parameters, one per transcript per model.
- File system access:
  - The transcript listings and the template text are fixed inputs. The script re-reads them for every model, and the model assumes they do not change in between.
  - A listing entry that is a directory (which would make `readFile` throw) is not modelled.
  - `access` failing for reasons other than absence is treated as absence.
  - A failed load or write is not modelled.
- Paths are not modelled:
  - `join(__dirname, …)` directory parts are dropped; the output folder is a map keyed by file name.
  - `basename` is modelled only for names without a directory part.
  - A transcript's name is its file name.
- Context and model disposal and `process.exit` are not modelled; they do not affect the result files.
- Character encoding is not modelled; strings are sequences of characters.
- `Answers.Decimal`: the text of every number is its plain decimal numeral. JavaScript prints numbers from 10^21 on in exponent form (`"1e+21"`), and that form is not modelled; together with the rounding below, this only matters for answers with more than 15 digits.
- `Answers.Extract`: the value is the exact integer of the digit run. JavaScript's `Number` rounds runs beyond 2^53 to the nearest double, and that is not modelled.
- `Experiment.Seed`: computed on exact reals. The rounding of the double product `Math.random() * 1000000` is not modelled.
