# Hybrid retail analytics agent: the orchestration core in Dafny

The hybrid agent answers analytics questions over a document corpus and a SQLite database. The questions are in natural language.

A LangGraph state machine drives one question through these nodes:
- **router**: classifies the question as `rag`, `sql` or `hybrid`;
- **retriever**: fetches document chunks;
- **planner**: scans the chunks for date and formula hints;
- **nl2sql**: generates a query;
- **executor**: runs the query;
- **synthesizer**: writes a cited answer with a confidence;
- **validate_and_repair**: checks the answer and either ends the run or sends it back to query generation or synthesis.

This project models that state machine, together with the deterministic post-processing around the three predictor calls and the paragraph chunker and top-k selection of the retriever. It proves what the code guarantees and also what it does not.

Modules, one per part of the program:

| module | file | models |
|---|---|---|
| `Text` | text.dfy | The Python string operations the code relies on: `strip`, `lower`, `in`, `split`, `join`, `replace`, slicing and `str(n)`. |
| `SqlTool` | sqltool.dfy | The shape of the query tool's result: `{}`, or `{columns, rows, error}` with no rows when `error` is set. |
| `Signatures` | signatures.dfy | Mode coercion, citation parsing, the confidence clamp and query trimming in `Router.forward`, `NL2SQL.forward` and `Synthesizer.forward`. |
| `Retrieval` | retrieval.dfy | `DocChunk`, `_split_into_chunks`, document loading into `RAGRetriever.chunks`, and the top-k selection and copying of `retrieve`. |
| `Planner` | planner.dfy | The constraint scan of `planner_node`, including the case-insensitive `findall` of the month pattern. |
| `Validation` | validation.dfy | The issue list of `validate_and_repair_node` and its `done` rule. |
| `Graph` | graph.dfy | The pure specification: `AgentState`, one update function per node, the three routers, and the graph loop with an explicit budget of node invocations. It also holds the run-level theorems. |
| `Session` | session.dfy | The run as the compiled graph executes it. An `AgentSession` object holds the mutable state. One method per node overwrites the fields its partial update names and appends its trace entry. A driver loop over the node enum follows the edges. |

The router, SQL and synthesis predictors, the retriever's TF-IDF similarity and SQLite are oracles, passed in as one `Oracles` value.
- Every predictor and query call also receives the number of node invocations so far, so the model admits any answer stream, including a different answer on every call.
- The similarity scores and numpy's argsort of them are inputs of `Retrieve`.

## Termination

The attempt cap (`attempts >= 2`) bounds only the query-repair path.
- Only the executor changes `attempts`. It adds exactly one on every pass, with or without an error.
- Consequently, on every run `attempts <= 2` and the query generator runs at most twice (`Graph.AttemptsBounded`).
- An `sql` question whose query always fails ends after exactly ten node invocations, done, with two attempts (`Graph.FailingQueryEnds`).

The re-synthesis route does not count as an attempt. Validation sends the run back to the synthesizer whenever the last query did not fail.
- **No rows.** A database run whose query succeeded with no rows before the cap never reaches the end, whatever the budget (`Graph.NoRowsNeverEnds`). The same holds for a whole `sql` run from the start whose queries always succeed empty (`Graph.EmptyQueryNeverEnds`).
- **No citations.** A `rag` or `hybrid` run whose synthesizer never produces a citation never reaches the end either, once it is at the synthesizer with no failed query and fewer than two attempts (`Graph.UncitedNeverEnds`). A whole `rag` run from the start, which runs no query, is always in that position (`Graph.UncitedRagNeverEnds`). A `hybrid` run whose query fails goes back to query generation instead and ends at the attempt cap.

Only LangGraph's recursion limit stops those runs, and that limit lies outside this code. The model therefore runs the graph with explicit fuel, and `Session.RunQuestion` returns `None` when the budget runs out first.

## Where the description of the system and the code differ

The model follows the code in each case:
- **Termination.** The description calls the run always terminating, with up to three query generations. In the code the query generator runs at most twice, and the re-synthesis cycle is unbounded (see above).
- **Planner hints.** The description speaks of "month+year" hints. `re.findall` with one capturing group returns only the month names (`Planner.MatchReportsMonthOnly`).
- **Fallback text.** The description writes "no specific constraints". The code writes "No specific constraints".
- **SQL issues.** The description lets the SQL-error issue and the no-rows issue fire together. The code checks for no rows only when there is no error, so at most one of them is reported (`Validation.SqlIssuesReported`).
- **Ties in retrieval.** The description asks for ties broken deterministically by corpus order. The code takes the last `k` entries of `np.argsort`, whose order among equal scores is not fixed, so the model admits any order among ties (`Retrieval.RagRetriever.Retrieve`).
- **Code fences.** The description strips a fence with any language tag. The code strips only the lower-case `sql` tag; any other tag stays at the head of the query (`Graph.CleanSqlKeepsOtherTag`).

## Model

| member | source | states |
|---|---|---|
| Text.Strip | agent/dspy_signatures.py:79 | `strip()` returns a text with no whitespace at either end, no longer than its input; a text that is already trimmed comes back unchanged |
| Text.StripPadded | agent/graph_hybrid.py:240 | whitespace runs around a trimmed text are exactly what `strip()` removes |
| Text.StripIdempotent | agent/graph_hybrid.py:247 | stripping a stripped text changes nothing |
| Text.StripKeeps | agent/dspy_signatures.py:148 | `strip()` keeps every occurrence of a non-empty trimmed text such as "::" |
| Text.LowerAt | agent/dspy_signatures.py:79 | `lower()` maps each character on its own: upper-case ASCII letters to lower case, every other character kept |
| Text.ContainsAt | agent/dspy_signatures.py:148 | an occurrence of `sub` at any index makes `sub in s` true |
| Text.ContainsWitness | agent/dspy_signatures.py:148 | when `sub in s` holds, `sub` occurs at some index (the converse of ContainsAt) |
| Text.Prefix | agent/graph_hybrid.py:157 | `s[:n]` is all of `s` when `s` is no longer than `n`, and exactly its first `n` characters otherwise |
| Text.Split | agent/dspy_signatures.py:148 | `split` on one character always yields at least one piece |
| Text.JoinSplit | agent/dspy_signatures.py:148 | joining the pieces of `split(sep)` with `sep` gives the text back |
| Text.SplitJoin | agent/dspy_signatures.py:148 | splitting the join of pieces that hold no separator gives the pieces back |
| Text.RemoveAll | agent/rag/retrieval.py:86 | `replace(pat, '')` never lengthens the text |
| Text.RemoveAllAbsent | agent/rag/retrieval.py:86 | a source name without ".md" is its own base name |
| Text.RemoveCharKeeps | agent/graph_hybrid.py:344 | `replace(c, '')` keeps every character other than `c` and only those |
| Text.ContainsHead | agent/rag/retrieval.py:86 | a text holding a pattern holds its first character |
| Text.RemoveAllAppended | agent/rag/retrieval.py:86 | `(b + pat).replace(pat, '')` is `b` when `pat` does not occur in `b` and its first character does not recur in it |
| Text.LowerPrefix | agent/graph_hybrid.py:203 | lowering a prefix gives the prefix of the lowered text |
| Text.NatToString | agent/rag/retrieval.py:93 | `str(n)` is a non-empty string of decimal digits |
| Text.NatToStringRoundTrip | agent/rag/retrieval.py:93 | reading the digits of `str(n)` back gives `n` |
| Text.NatToStringInjective | agent/rag/retrieval.py:93 | different counters give different digit strings |
| Signatures.CoerceMode | agent/dspy_signatures.py:78-86 | the router's mode is always `rag`, `sql` or `hybrid`; it is the mode the lower-cased, stripped text names exactly when that text names one, and `hybrid` otherwise |
| Signatures.ValidModeFixed | agent/dspy_signatures.py:79-86 | the name of a valid mode maps to that mode |
| Signatures.CoerceModeIdempotent | agent/dspy_signatures.py:79-86 | coercing the name of a coerced mode gives the same mode |
| Signatures.CoerceModeTolerant | agent/dspy_signatures.py:79 | " SQL\n" maps to `sql`: case and surrounding whitespace do not matter |
| Signatures.CoerceModeFallback | agent/dspy_signatures.py:82-84 | a word that is not a mode ("both") maps to `hybrid` |
| Signatures.WellCitedAt | agent/dspy_signatures.py:148 | every entry of a parsed citation list holds "::" and is trimmed |
| Signatures.Cited | agent/dspy_signatures.py:148 | one comma-separated piece yields at most one citation, trimmed and holding "::" |
| Signatures.KeepCitations | agent/dspy_signatures.py:148 | the comprehension keeps no more citations than there are pieces, each trimmed and holding "::" |
| Signatures.KeepCitationsAppend | agent/dspy_signatures.py:148 | the citations of consecutive runs of pieces follow each other: piece order is kept |
| Signatures.KeepCitationsOne | agent/dspy_signatures.py:148 | a piece is dropped exactly when it lacks "::" and is otherwise kept stripped |
| Signatures.NoColonNoCitation | agent/dspy_signatures.py:148 | a piece without a colon never holds "::" |
| Signatures.CitedKept | agent/dspy_signatures.py:148 | a piece holding "::" that is a trimmed text after leading whitespace is kept as that trimmed text |
| Signatures.ParseCitations | agent/dspy_signatures.py:144-150 | non-text citation output gives `[]`, never an error; text output gives at most one citation per comma-separated piece, each trimmed and holding "::" |
| Signatures.ParseCitationsExample | agent/dspy_signatures.py:144-150 | "a::c1, x, b::c2" parses to ["a::c1", "b::c2"] |
| Signatures.MinOne | agent/dspy_signatures.py:155 | `min(1.0, x)` is finite or minus infinity |
| Signatures.MaxZero | agent/dspy_signatures.py:155 | `max(0.0, ·)` of that is finite |
| Signatures.ClampConfidence | agent/dspy_signatures.py:152-157 | the confidence always lies in [0, 1]; a parse failure gives 0.5; an in-range value is kept; above 1, +inf and NaN give 1.0; below 0 and -inf give 0.0 |
| Signatures.GeneratedSql | agent/dspy_signatures.py:112 | the generated query is trimmed, no longer than the predictor's text, and unchanged when already trimmed |
| Signatures.Synthesize | agent/dspy_signatures.py:136-164 | answer and explanation pass through; the citations are those `ParseCitations` gives (trimmed, holding "::", empty for non-text output) and the confidence is `ClampConfidence` of the parse, in [0, 1] |
| Retrieval.NewlineRunEnd | agent/rag/retrieval.py:82 | the greedy `\n\n+` match ends at the end of the text or before a character that is not a newline |
| Retrieval.SplitFrom | agent/rag/retrieval.py:82 | `re.split` always yields at least one piece |
| Retrieval.NoBreakOneParagraph | agent/rag/retrieval.py:82 | text without a blank line is a single paragraph |
| Retrieval.SplitFromFirstBreak | agent/rag/retrieval.py:82 | the first blank line ends the current paragraph, and the next paragraph starts after the whole run of newlines |
| Retrieval.SliceNoBreak | agent/rag/retrieval.py:82 | a piece ending before the next blank line holds none |
| Retrieval.SplitFromNoBreak | agent/rag/retrieval.py:82 | every piece of the split is free of blank lines |
| Retrieval.SplitParagraphsBreaks | agent/rag/retrieval.py:82 | no paragraph holds a blank line, and a blank line anywhere gives at least two paragraphs |
| Retrieval.FirstBreak | agent/rag/retrieval.py:82 | where there is a blank line, there is a first one |
| Retrieval.ParagraphSplitExample | agent/rag/retrieval.py:82 | "a\n\n\nb" splits into "a" and "b" |
| Retrieval.BaseNameOfMarkdown | agent/rag/retrieval.py:86 | the base name of `b + ".md"` is `b` when `b` holds no ".md" |
| Retrieval.BaseNameExample | agent/rag/retrieval.py:86 | the base name of "catalog.md" is "catalog" |
| Retrieval.ChunkIdCitable | agent/rag/retrieval.py:93 | every chunk id holds the "::" citation delimiter |
| Retrieval.ChunkIdInjective | agent/rag/retrieval.py:93 | two ids of one base name are equal only for equal chunk numbers |
| Retrieval.KeptByAppend | agent/rag/retrieval.py:88-101 | paragraphs are kept one by one, so keeping distributes over concatenation |
| Retrieval.KeptByLast | agent/rag/retrieval.py:88-101 | what is kept of the last paragraph comes last |
| Retrieval.KeptChunks | agent/rag/retrieval.py:84-103 | chunk `k` has id `<base>::chunk<k+1>`, the given source, score 0.0, and trimmed content of at least 20 characters; there are no more chunks than paragraphs |
| Retrieval.KeptChunksContents | agent/rag/retrieval.py:88-101 | the chunk contents are exactly the stripped paragraphs of at least 20 characters, in paragraph order: a short paragraph is dropped without using up a number |
| Retrieval.KeptChunkIdsUnique | agent/rag/retrieval.py:93 | the ids of one document's chunks are pairwise distinct |
| Retrieval.KeptChunksStep | agent/rag/retrieval.py:88-101 | one more paragraph adds one chunk, numbered after the previous ones, exactly when its stripped text has at least 20 characters |
| Retrieval.SplitIntoChunks | agent/rag/retrieval.py:71-103 | the loop with its counter builds exactly the chunks `KeptChunks` defines for the paragraphs of `re.split(r'\n\n+', content)` and the base name `source.replace('.md', '')` |
| Retrieval.Reverse | agent/rag/retrieval.py:125 | `[::-1]` keeps the length and puts position `i` at `n - 1 - i` |
| Retrieval.TopIndicesAt | agent/rag/retrieval.py:125 | `argsort[-k:][::-1]` has `min(k, n)` entries, entry `i` being argsort position `n - 1 - i` |
| Retrieval.TopIndicesSorted | agent/rag/retrieval.py:125 | the selected indices are distinct and in non-increasing score order |
| Retrieval.TopIndicesBeatRest | agent/rag/retrieval.py:125 | no unselected chunk scores higher than a selected one |
| Retrieval.TopIndicesAreTop | agent/rag/retrieval.py:124-125 | for k >= 1: `min(k, n)` distinct valid indices, best first, none beaten by an unselected chunk |
| Retrieval.CopyWithScores | agent/rag/retrieval.py:128-138 | result `i` is a new chunk with the id, source and content of the chunk at index `i` and that index's similarity as its score |
| Retrieval.RagRetriever.constructor | agent/rag/retrieval.py:26-69 | the corpus is the chunks of each listed document that exists, in file order |
| Retrieval.RagRetriever.Retrieve | agent/rag/retrieval.py:105-140 | `[]` for an empty corpus; otherwise `min(k, n)` copies of distinct corpus chunks carrying their scores, in non-increasing score order, none beaten by an unselected chunk; the corpus is not modified |
| Planner.MonthAt | agent/graph_hybrid.py:203 | the alternation's match, when there is one, lies within the text |
| Planner.MonthAtName | agent/graph_hybrid.py:203 | the text the alternation matched is one of the alternatives, in any letter case |
| Planner.YearEnd | agent/graph_hybrid.py:203 | a match of `\s+\d{4}\b` covers at least one whitespace character and four digits |
| Planner.DateAt | agent/graph_hybrid.py:203 | a match of the whole pattern ends after it starts, within the text |
| Planner.DateAtMatch | agent/graph_hybrid.py:203 | a match is a word boundary, a month name in any case, a whitespace run, four digits and a word boundary |
| Planner.FindDates | agent/graph_hybrid.py:204 | `findall` reports no more matches than characters scanned |
| Planner.FindDatesAtMatch | agent/graph_hybrid.py:204 | a match reports the month text, then scanning resumes where the match ended (matches do not overlap) |
| Planner.FindDatesMonths | agent/graph_hybrid.py:203-204 | every reported date is a month name, in whatever case the text has it |
| Planner.MatchReportsMonthOnly | agent/graph_hybrid.py:203-206 | what a match reports is the month only: the whitespace and the year follow it in the text but are not part of it |
| Planner.DateHasDigit | agent/graph_hybrid.py:203 | a match ends with a digit of the text |
| Planner.NoDigitsNoDates | agent/graph_hybrid.py:203-205 | a text without digits contains no date |
| Planner.NameAtComparable | agent/graph_hybrid.py:203 | two names found at one position are prefixes of one another |
| Planner.NameAtUnique | agent/graph_hybrid.py:203 | of alternatives none of which is empty or a prefix of another, at most one occurs at a position |
| Planner.MonthAtFinds | agent/graph_hybrid.py:203 | where such an alternative occurs, the alternation matches exactly it |
| Planner.DateAtFinds | agent/graph_hybrid.py:203 | a word boundary, a month name in any case, whitespace, four digits and a word boundary are a match ending after the digits (the converse of DateAtMatch) |
| Planner.FindDatesFinds | agent/graph_hybrid.py:203-204 | a text holding a match anywhere after the scan position yields at least one date |
| Planner.MentionGivesDatesFragment | agent/graph_hybrid.py:203-206 | a chunk mentioning a date gets a "Relevant dates: …" fragment first, listing what `findall` reports |
| Planner.MonthsProper | agent/graph_hybrid.py:203 | no month name is empty or a prefix of another |
| Planner.MarchExample | agent/graph_hybrid.py:203-204 | "March 2024" yields the date "March" |
| Planner.ChunkFragments | agent/graph_hybrid.py:200-210 | one chunk adds at most two fragments |
| Planner.ChunkFragmentsShape | agent/graph_hybrid.py:200-210 | a chunk adds a "Relevant dates: …" fragment exactly when dates were found and a "KPI formula found in <source>" fragment exactly when it holds "Formula:" or "SELECT", dates first |
| Planner.CollectAppend | agent/graph_hybrid.py:197-210 | the fragments of consecutive chunk lists follow each other: chunk order is kept |
| Planner.ConstraintPartsLead | agent/graph_hybrid.py:205-210 | every fragment is non-empty and starts with 'R' or 'K' |
| Planner.ConstraintsFallback | agent/graph_hybrid.py:212 | the constraints text is never empty, and it is "No specific constraints" exactly when no chunk added a fragment |
| Planner.ConstraintPartsReadContentAndSource | agent/graph_hybrid.py:200-210 | the fragments depend only on the chunks' contents and sources |
| Planner.ConstraintsReadContentAndSource | agent/graph_hybrid.py:197-212 | the constraints text is a pure function of the chunks' contents and sources: ids and scores do not matter |
| Planner.PlainChunkSilent | agent/graph_hybrid.py:203-210 | a chunk with neither a digit nor a formula marker adds nothing |
| Planner.ScanConstraints | agent/graph_hybrid.py:197-212 | the loop that appends each chunk's fragments and then joins them computes exactly `Constraints(chunks)` |
| Validation.NumberText | agent/graph_hybrid.py:344 | removing '$' and ',' never lengthens the answer |
| Validation.NumberTextClean | agent/graph_hybrid.py:344 | the text handed to `float()` holds no '$' and no ',' and every other character of the answer |
| Validation.Issues | agent/graph_hybrid.py:339-363 | there are at most four issues |
| Validation.RankedAppendCheck | agent/graph_hybrid.py:339-363 | appending one check's issue to those of the earlier checks keeps the check order |
| Validation.IssuesOrdered | agent/graph_hybrid.py:339-363 | issues come in check order (number format, JSON, citations, SQL), at most one per check, and an SQL error issue carries the result's error text |
| Validation.AnswerIssuesReported | agent/graph_hybrid.py:342-356 | "Answer should be a number" iff the hint is "number" and `float()` fails; "not JSON serializable" iff `json.dumps` fails; "Missing citations" iff the mode is `rag`/`hybrid` and there are no citations |
| Validation.SqlIssuesReported | agent/graph_hybrid.py:358-363 | an SQL error issue iff a `sql`/`hybrid` run's query failed; "SQL returned no rows" iff a `sql`/`hybrid` run's query neither failed nor returned rows; never both |
| Validation.NoIssuesIff | agent/graph_hybrid.py:339-363 | the issue list is empty exactly when every check passes |
| Validation.Messages | agent/graph_hybrid.py:370 | there is one trace message per issue |
| Validation.MessagesText | agent/graph_hybrid.py:370 | message `k` is the text of issue `k` |
| Validation.Done | agent/graph_hybrid.py:366 | `done` holds exactly when there are no issues or `attempts >= 2` |
| Validation.RagCleanAnswer | agent/graph_hybrid.py:339-366 | a cited, serialisable `rag` answer that is a number when one is asked for has no issues |
| Validation.CollectIssues | agent/graph_hybrid.py:339-363 | the appending checks build exactly `Issues(...)` |
| Graph.Initial | agent/graph_hybrid.py:392-408 | a run starts with no attempts, an empty trace, no result, no mode, and `done` false |
| Graph.RouterUpdate | agent/graph_hybrid.py:149-163 | the router sets the coerced mode of the classifier's answer and appends its entry with the first 100 characters of the question; nothing else changes |
| Graph.ChunkIds | agent/graph_hybrid.py:183 | the trace lists the ids of the retrieved chunks, in order |
| Graph.RetrieverUpdate | agent/graph_hybrid.py:165-189 | the retriever stores the at most four chunks retrieval returns and appends their count and ids; nothing else changes |
| Graph.PlannerUpdate | agent/graph_hybrid.py:191-222 | the planner stores the never-empty `Constraints(chunks)` and appends it; nothing else changes |
| Graph.SqlHintCarriesError | agent/graph_hybrid.py:230-235 | the first attempt sees the constraints unchanged; a repair attempt sees them extended with the previous error text |
| Graph.Unfence | agent/graph_hybrid.py:241-246 | fence removal never lengthens the query |
| Graph.CleanSql | agent/graph_hybrid.py:240-247 | the cleaned query is trimmed and no longer than the predictor's text |
| Graph.CleanSqlUnfenced | agent/graph_hybrid.py:240-247 | a trimmed query without backtick fences, with any surrounding whitespace, comes back as the query |
| Graph.CleanSqlPadded | agent/graph_hybrid.py:240-247 | surrounding whitespace does not change the cleanup |
| Graph.UnfenceSql | agent/graph_hybrid.py:241-246 | the three checks turn "```sql" + q + "```" into q whenever q does not itself start with "```" |
| Graph.CleanSqlFenced | agent/graph_hybrid.py:240-247 | "```sql" + q + "```", with any surrounding whitespace, cleans to q stripped whenever q does not start with "```" |
| Graph.UnfenceOtherTag | agent/graph_hybrid.py:241-246 | a fence opened by "```" followed by a tag other than `sql` loses only the backticks |
| Graph.CleanSqlKeepsOtherTag | agent/graph_hybrid.py:241-247 | after a fence tagged "SQL" the tag stays at the head of the query: only the lower-case `sql` tag is handled |
| Graph.Nl2SqlUpdate | agent/graph_hybrid.py:224-258 | nl2sql stores the cleaned, trimmed query generated from the question, the hint for the current attempt and the schema, and appends it with attempt number `attempts + 1`; `constraints` and every other field stay unchanged |
| Graph.ExecutorUpdate | agent/graph_hybrid.py:260-278 | the executor stores the database's result for the current query, adds exactly one to `attempts`, and appends success, row count and error; a failed result carries no rows; nothing else changes |
| Graph.RenderChunk | agent/graph_hybrid.py:289 | a rendered chunk is at most 206 characters longer than its id |
| Graph.RenderChunkShape | agent/graph_hybrid.py:289 | a chunk renders as "[id] " + the first 200 characters of its content (all of it when shorter) + "..." |
| Graph.RenderEach | agent/graph_hybrid.py:288-291 | there is one rendering per chunk |
| Graph.RenderEachAt | agent/graph_hybrid.py:288-291 | rendering `k` is that of chunk `k` |
| Graph.RenderChunks | agent/graph_hybrid.py:286-293 | no chunks render as "No documents retrieved"; a single chunk renders alone |
| Graph.RenderChunksCons | agent/graph_hybrid.py:288-291 | two or more chunks render as the first chunk's rendering, "\n\n", then the rendering of the rest: the renderings joined by blank lines in chunk order |
| Graph.RenderTwoChunks | agent/graph_hybrid.py:288-291 | two chunks render as their two renderings separated by "\n\n" |
| Graph.RenderRows | agent/graph_hybrid.py:299-305 | an error wins over rows; rows are shown exactly when there is no error and there are rows, and then the first `min(5, n)` of them; otherwise "No SQL results" |
| Graph.RenderRowsPrefix | agent/graph_hybrid.py:302 | the rows shown are the leading rows of the result |
| Graph.SynthesizerUpdate | agent/graph_hybrid.py:280-328 | the synthesizer stores the answer, citations, confidence and explanation of the post-processed prediction for the rendered chunks and rows (trimmed "::" citations, a confidence in [0, 1]), and appends confidence and citation count; nothing else changes |
| Graph.ValidateUpdate | agent/graph_hybrid.py:330-378 | validation sets `done` exactly when the current answer has no issues or `attempts >= 2`, and appends the issue messages; nothing else changes |
| Graph.ApplyAppendsOne | agent/graph_hybrid.py:44 | every node appends exactly one trace entry, its own, keeping the earlier ones; only the executor changes `attempts` and `sql_result` |
| Graph.AfterRouter | agent/graph_hybrid.py:115-121 | after the router the run goes to the retriever exactly in `rag`/`hybrid` mode, and to the planner otherwise |
| Graph.AfterPlanner | agent/graph_hybrid.py:123-129 | after the planner the run goes to nl2sql exactly in `sql`/`hybrid` mode, and to the synthesizer otherwise |
| Graph.AfterValidation | agent/graph_hybrid.py:131-146 | after validation the run ends iff `done` or `attempts >= 2`; otherwise it goes to nl2sql iff the last result has an error, else to the synthesizer |
| Graph.IterateUnfold | agent/graph_hybrid.py:411 | a loop pass from a node that is not `End`, with budget left, is one step followed by the rest of the loop |
| Graph.RunStep | agent/graph_hybrid.py:411 | a run from a node that is not `End` is that node's update, its edge, then the rest of the run |
| Graph.RunStops | agent/graph_hybrid.py:411 | a run at `End`, or with no budget left, stays where it is |
| Graph.Path | agent/graph_hybrid.py:411 | the stops of a run begin at its start and number at most one more than the budget |
| Graph.PathNext | agent/graph_hybrid.py:411 | from a stop that is not `End`, with budget left, the next stop is one step later |
| Graph.RunPathNext | agent/graph_hybrid.py:411 | on a run from the router, the stop after a node is that node's update with the edge it takes |
| Graph.PathLast | agent/graph_hybrid.py:411 | a stop at `End` or with the budget spent is where the run ends |
| Graph.IterateKeeps | agent/graph_hybrid.py:411 | a property every pass preserves holds where the loop stops |
| Graph.IterateTrace | agent/graph_hybrid.py:44 | when each pass appends one entry, the loop only appends, at most one entry per pass |
| Graph.Count | agent/graph_hybrid.py:44 | a node wrote no more entries than the trace holds |
| Graph.RunTrace | agent/graph_hybrid.py:44 | a run only appends to the trace, one entry per node invocation, and a run that did not end used its whole budget |
| Graph.InvInitial | agent/graph_hybrid.py:392-408 | the initial state satisfies the run invariant |
| Graph.InvStep | agent/graph_hybrid.py:115-378 | every node invocation keeps the run invariant: attempts at most 2, executor entries equal to attempts, nl2sql entries at most attempts + 1, mode-dependent fields untouched |
| Graph.InvRun | agent/graph_hybrid.py:411 | the invariant holds wherever a run stops |
| Graph.AttemptsBounded | agent/graph_hybrid.py:131-146 | on every run: `attempts <= 2`, the executor ran `attempts` times and nl2sql at most twice; a `rag` run keeps `sql == ""` and `sql_result == {}`; an `sql` run keeps no chunks; after the planner the constraints are those of the chunks |
| Graph.IterateEnds | agent/graph_hybrid.py:411 | a loop whose passes keep a property and lower a measure reaches `End` within that measure |
| Graph.NoRowsStep | agent/graph_hybrid.py:141-146 | a database run at the synthesizer or validation with an empty, successful result before the cap stays in that cycle |
| Graph.NoRowsNeverEnds | agent/graph_hybrid.py:141-146 | from that cycle no budget reaches `End` |
| Graph.UncitedStep | agent/graph_hybrid.py:141-146 | a document run whose synthesizer never cites stays in the synthesizer–validation cycle |
| Graph.UncitedNeverEnds | agent/graph_hybrid.py:141-146 | such a run never reaches `End`: missing citations do not count as an attempt |
| Graph.EmptyQueryStep | agent/graph_hybrid.py:115-146 | an `sql` run whose queries succeed empty stays on its path |
| Graph.EmptyQueryKeeps | agent/graph_hybrid.py:115-146 | every pass of such a run stays on that path |
| Graph.EmptyQueryNeverEnds | agent/graph_hybrid.py:131-146 | an `sql` question whose queries always succeed with no rows never finishes, whatever the budget |
| Graph.UncitedRagStep | agent/graph_hybrid.py:115-146 | a `rag` run whose synthesizer never cites stays on its path: router, retriever, planner, then the synthesizer–validation cycle |
| Graph.UncitedRagKeeps | agent/graph_hybrid.py:115-146 | every pass of such a run stays on that path |
| Graph.UncitedRagNeverEnds | agent/graph_hybrid.py:131-146 | a `rag` question whose synthesizer never cites never finishes, whatever the budget |
| Graph.FailingQueryValidate | agent/graph_hybrid.py:131-146 | with a failed query, validation marks the run done exactly at the second attempt |
| Graph.FailingQueryStep | agent/graph_hybrid.py:115-278 | on an `sql` run whose query always fails, every pass stays on the path and brings `End` one invocation closer |
| Graph.FailingQueryKeeps | agent/graph_hybrid.py:115-278 | the same, for every node and state on that path |
| Graph.FailingQueryEnds | agent/graph_hybrid.py:131-146 | an `sql` question whose query always fails ends after exactly ten node invocations, done, with two attempts |
| Session.AgentSession.constructor | agent/graph_hybrid.py:391-408 | a session starts in the initial state of `run` |
| Session.AgentSession.RunRouter | agent/graph_hybrid.py:149-163 | the new state is the router's update of the old |
| Session.AgentSession.RunRetriever | agent/graph_hybrid.py:165-189 | the new state is the retriever's update of the old |
| Session.AgentSession.RunPlanner | agent/graph_hybrid.py:191-222 | the scanning loop leaves exactly the planner's update of the old state |
| Session.AgentSession.RunNl2Sql | agent/graph_hybrid.py:224-258 | the new state is the nl2sql update of the old |
| Session.AgentSession.RunExecutor | agent/graph_hybrid.py:260-278 | the new state is the executor's update of the old |
| Session.AgentSession.RunSynthesizer | agent/graph_hybrid.py:280-328 | the new state is the synthesizer's update of the old |
| Session.AgentSession.RunValidate | agent/graph_hybrid.py:330-378 | collecting the issues check by check leaves exactly the validation update of the old state |
| Session.AgentSession.RunNode | agent/graph_hybrid.py:67-73 | invoking a node leaves that node's update of the old state |
| Session.AgentSession.Invoke | agent/graph_hybrid.py:75-111 | the driver loop ends on the node, and with the state, that the graph's run with the same budget gives |
| Session.RunQuestion | agent/graph_hybrid.py:380-422 | `run` returns id, question, answer, citations, confidence, explanation and trace of the final state when the run ends within the budget, and `None` otherwise |

## Left out

- **Model calls.** The predictors behind `Router`, `NL2SQL` and `Synthesizer` are foreign calls to a generative model. They are the `classify`, `generateSql` and `synthesize` oracles. Their prompts (the signature classes), `configure_dspy` and `optimize_router` are not modelled.
- **Similarity scores.** TF-IDF vectorisation and cosine similarity are floating-point numerics in scikit-learn. `Retrieve` takes the scores and numpy's ascending argsort of them as inputs, and the graph's retriever node takes the retriever as an oracle returning at most four chunks.
- **Document loading and singletons.** `_load_documents` reads files: the constructor takes a map from the file names that exist to their contents. The `get_rag_retriever`/`get_sqlite_tool` singletons are global state. The vectorizer and `chunk_vectors` are not modelled. `chunk_vectors` is set exactly when the corpus is non-empty, so the empty-corpus guard is modelled as `chunks == []`.
- **SQLite.** agent/tools/sqlite_tool.py is a wrapper over sqlite3. `execute_sql` is an oracle whose result has no columns and no rows when `error` is set. The schema summary is an opaque string.
- **Validator primitives.** `float()` on the cleaned answer and `json.dumps` on the answer are oracle predicates. IEEE parsing is not modelled.
- **JSON rendering.** `json.dumps(rows, indent=2)` is modelled as the list of rows handed to the synthesizer, not as its text.
- **The answer.** `final_answer` is the predictor's text; other JSON values are not modelled.
- **LangGraph runtime.** The recursion limit and the runtime's state merging are not modelled. Each node's partial update is modelled as field overwrite plus an appended trace entry. `Graph.Run` and `Session.AgentSession.Invoke` take an explicit budget of node invocations (fuel) in place of the recursion limit, so they cannot say which error LangGraph raises when the limit is hit.
- **Driver and tests.** The CLI batch driver (run_agent_hybrid.py), the demo (demo_system.py) and the tests (test_components.py) are I/O and test harnesses.
- **Citations.** The code never checks that citations name retrieved chunks. The model does not claim that they do.
- Text.Lower: lowers ASCII letters only; Python's `str.lower` also lowers other Unicode letters.
- Planner.MonthAt: `re.IGNORECASE` is modelled on ASCII letters only. Python's Unicode case folding, under which 'ſ' (U+017F) also matches the 's' of "august" and "september" and 'İ' (U+0130) and 'ı' (U+0131) also match the 'i' of "april", is not modelled.
- Planner.YearEnd: `\d` is modelled as the ASCII digits and `\b` as a boundary of ASCII word characters. Python's `\d` and `\w` also accept other Unicode digits and letters. `\s` is Python's full whitespace set.
- Planner.MonthAt: the matcher is stated for any list of lower-case alternatives; the planner passes the twelve month names.
- Retrieval.RagRetriever.Retrieve: requires `k >= 1`. With `k == 0` the slice `[-0:]` returns every index, and with `k < 0` the slice `[-k:]` drops the first `|k|` positions of the argsort; the node never asks for either (it passes `k=4`).
- Retrieval.RagRetriever.Retrieve: the argsort is any ascending order of the scores. Ties are not ordered, because numpy leaves the tie order unspecified.
- Signatures.ClampConfidence: takes the outcome of `float()` (a finite value, an infinity, NaN or a failure) rather than the text, and computes on exact reals rather than doubles.
