/** The LangGraph workflow of agent/graph_hybrid.py as a pure specification:
    the agent state, the trace entries, the seven node updates, the three
    routers, and a run of the graph with an explicit step budget. The router,
    SQL and synthesis predictors, the retriever and SQLite are oracles. */
module Graph {
  import opened Maybe
  import opened Text
  import opened SqlTool
  import opened Signatures
  import opened Retrieval
  import opened Planner
  import opened Validation

  // ------------------------------------------------------------------- nodes

  datatype Node = RouterNode | RetrieverNode | PlannerNode | Nl2SqlNode
                | ExecutorNode | SynthesizerNode | ValidateNode | End

  /** The dictionary each node appends to `trace`. */
  datatype TraceEntry =
    | RouterEntry(mode: Mode, questionPreview: string)
    | RetrieverEntry(numChunks: nat, chunkIds: seq<string>)
    | PlannerEntry(constraints: string)
    | Nl2SqlEntry(sql: string, attempt: nat)
    | ExecutorEntry(success: bool, numRows: nat, error: Option<string>)
    | SynthesizerEntry(confidence: real, numCitations: nat)
    | ValidateEntry(issues: seq<string>, done: bool, attempts: nat)
  {
    /** The node that wrote the entry (its `"node"` key). */
    function Writer(): Node {
      match this
      case RouterEntry(_, _) => RouterNode
      case RetrieverEntry(_, _) => RetrieverNode
      case PlannerEntry(_) => PlannerNode
      case Nl2SqlEntry(_, _) => Nl2SqlNode
      case ExecutorEntry(_, _, _) => ExecutorNode
      case SynthesizerEntry(_, _) => SynthesizerNode
      case ValidateEntry(_, _, _) => ValidateNode
    }
  }

  /** `AgentState`. The final answer is the text the synthesis predictor gave. */
  datatype State = State(
    id: string, question: string, formatHint: string,
    mode: Mode,
    chunks: seq<DocChunk>, constraints: string,
    sql: string, sqlResult: SqlResult, attempts: nat,
    finalAnswer: string, citations: seq<string>, confidence: real, explanation: string,
    done: bool,
    trace: seq<TraceEntry>)

  /** The state `run` hands to the graph. */
  function Initial(id: string, question: string, formatHint: string): (s: State)
    ensures s.attempts == 0 && s.trace == [] && !s.done && s.sqlResult == NoResult && s.mode == Unset
  {
    State(id, question, formatHint, Unset, [], "", "", NoResult, 0, "", [], 0.0, "", false, [])
  }

  // ----------------------------------------------------------------- oracles

  /** What the synthesis predictor is shown of the query result. */
  datatype RenderedRows = SqlErrorLine(text: string) | JsonRows(rows: seq<Row>) | NoSqlResults

  datatype SynthInput = SynthInput(question: string, formatHint: string, retrievedDocs: string,
                                   sqlRows: RenderedRows, sql: string)

  /** `retrieve(question, k=4)` returns at most four chunks. */
  type Retrieved = r: seq<DocChunk> | |r| <= 4 witness []

  /** The calls into code outside the model. The predictors and the query
      tool also receive the number of node invocations so far, so that a
      different answer may come back on every call. */
  datatype Oracles = Oracles(
    classify: (nat, string) -> string,
    retrieve: string -> Retrieved,
    schema: string,
    generateSql: (nat, string, string, string) -> string,
    execute: (nat, string) -> ExecResult,
    synthesize: (nat, SynthInput) -> SynthRaw,
    parsesAsNumber: string -> bool,
    serializable: string -> bool)

  // ----------------------------------------------------------- node updates

  function RouterUpdate(s: State, o: Oracles): (t: State)
    ensures t.mode != Unset
    ensures t.mode == CoerceMode(o.classify(|s.trace|, s.question))
    ensures t == s.(mode := t.mode, trace := s.trace + [RouterEntry(t.mode, Prefix(s.question, 100))])
  {
    var mode := CoerceMode(o.classify(|s.trace|, s.question));
    s.(mode := mode, trace := s.trace + [RouterEntry(mode, Prefix(s.question, 100))])
  }

  function ChunkIds(chunks: seq<DocChunk>): (ids: seq<string>)
    ensures |ids| == |chunks| && forall k :: 0 <= k < |chunks| ==> ids[k] == chunks[k].id
  {
    if chunks == [] then [] else ChunkIds(chunks[..|chunks| - 1]) + [chunks[|chunks| - 1].id]
  }

  function RetrieverUpdate(s: State, o: Oracles): (t: State)
    ensures |t.chunks| <= 4
    ensures t.chunks == o.retrieve(s.question)
    ensures t == s.(chunks := t.chunks, trace := s.trace + [RetrieverEntry(|t.chunks|, ChunkIds(t.chunks))])
  {
    var chunks := o.retrieve(s.question);
    s.(chunks := chunks, trace := s.trace + [RetrieverEntry(|chunks|, ChunkIds(chunks))])
  }

  /** The planner asks no oracle; `o` only gives it the signature every node
      function shares. */
  function PlannerUpdate(s: State, o: Oracles): (t: State)
    ensures t.constraints == Constraints(s.chunks) && t.constraints != []
    ensures t == s.(constraints := t.constraints, trace := s.trace + [PlannerEntry(t.constraints)])
  {
    ConstraintsFallback(s.chunks);
    var constraints := Constraints(s.chunks);
    s.(constraints := constraints, trace := s.trace + [PlannerEntry(constraints)])
  }

  const RepairLead := " Previous SQL failed with: "
  const RepairTail := ". Please fix the SQL."

  /** The constraints text the SQL predictor sees: on a repair attempt the
      previous error (`None` after a success, "" before any execution) is
      appended to a local copy. */
  function SqlHint(constraints: string, attempts: nat, result: SqlResult): string {
    if attempts > 0 then constraints + RepairLead + ErrorText(result) + RepairTail else constraints
  }

  /** The first attempt sees the constraints as they are; a repair attempt
      sees them followed by the previous error. */
  lemma SqlHintCarriesError(constraints: string, attempts: nat, result: SqlResult)
    ensures attempts == 0 ==> SqlHint(constraints, attempts, result) == constraints
    ensures attempts > 0 ==> constraints <= SqlHint(constraints, attempts, result)
                             && Contains(SqlHint(constraints, attempts, result), ErrorText(result))
  {
    if attempts > 0 {
      var hint := SqlHint(constraints, attempts, result);
      assert hint[|constraints + RepairLead|..][..|ErrorText(result)|] == ErrorText(result);
      ContainsAt(hint, ErrorText(result), |constraints + RepairLead|);
    }
  }

  /** `startswith("```")`. */
  predicate OpensFence(s: string) {
    |s| >= 3 && s[0] == '`' && s[1] == '`' && s[2] == '`'
  }

  /** `startswith("```sql")`. */
  predicate OpensSqlFence(s: string) {
    OpensFence(s) && |s| >= 6 && s[3] == 's' && s[4] == 'q' && s[5] == 'l'
  }

  /** `endswith("```")`. */
  predicate ClosesFence(s: string) {
    EndsWith(s, "```")
  }

  /** The three fence checks of `nl2sql_node`, in order: an opening "```sql",
      then an opening "```", then a closing "```". */
  function Unfence(a: string): (b: string)
    ensures |b| <= |a|
  {
    var b := if OpensSqlFence(a) then a[6..] else a;
    var c := if OpensFence(b) then b[3..] else b;
    if ClosesFence(c) then c[..|c| - 3] else c
  }

  /** The fence cleanup of `nl2sql_node`: strip, unfence, strip again. */
  function CleanSql(raw: string): (sql: string)
    ensures IsTrimmed(sql) && |sql| <= |raw|
  {
    Strip(Unfence(Strip(raw)))
  }

  /** A reply without fences loses only its surrounding whitespace. */
  lemma {:induction false} CleanSqlUnfenced(w1: string, q: string, w2: string)
    requires AllSpace(w1) && AllSpace(w2) && IsTrimmed(q)
    requires !OpensFence(q) && !ClosesFence(q)
    ensures CleanSql(w1 + q + w2) == q
  {
    CleanSqlPadded(w1, q, w2);
    assert Unfence(q) == q;
  }

  /** Whitespace around a trimmed reply does not change its cleanup. */
  lemma {:induction false} CleanSqlPadded(w1: string, t: string, w2: string)
    requires AllSpace(w1) && AllSpace(w2) && IsTrimmed(t)
    ensures CleanSql(w1 + t + w2) == Strip(Unfence(t))
  {
    StripPadded(w1, t, w2);
  }

  /** The code of an `sql` fence comes back whole unless it starts with a
      fence itself. Code of fewer than three backticks passes the second
      check, which strips three of the closing ones instead. */
  lemma {:induction false} UnfenceSql(q: string)
    requires !OpensFence(q)
    ensures Unfence("```sql" + q + "```") == q
  {
    var t := "```sql" + q + "```";
    var b := q + "```";
    assert OpensSqlFence(t) && t[6..] == b;
    if |q| < 3 {
      assert forall k :: 0 <= k < |q| ==> b[k] == q[k];
      if OpensFence(b) {
        assert forall k :: 0 <= k < |q| ==> q[k] == '`';
        assert b[3..] == q;
      } else {
        assert b[..|q|] == q;
      }
    } else {
      assert b[0] == q[0] && b[1] == q[1] && b[2] == q[2];
      assert b[..|q|] == q;
    }
  }

  /** A reply fenced as an `sql` code block yields the code inside the fence,
      stripped. */
  lemma {:induction false} CleanSqlFenced(w1: string, q: string, w2: string)
    requires AllSpace(w1) && AllSpace(w2)
    requires !OpensFence(q)
    ensures CleanSql(w1 + "```sql" + q + "```" + w2) == Strip(q)
  {
    var t := "```sql" + q + "```";
    assert IsTrimmed(t) by {
      assert t[0] == '`' && t[|t| - 1] == '`';
    }
    assert w1 + "```sql" + q + "```" + w2 == w1 + t + w2 by {
      assert w1 + "```sql" + q + "```" == w1 + t;
    }
    CleanSqlPadded(w1, t, w2);
    UnfenceSql(q);
  }

  lemma {:induction false} UnfenceOtherTag(d: string)
    requires d != [] && d[0] == 'S' && !ClosesFence(d)
    ensures Unfence("```" + d + "```") == d
  {
    var t := "```" + d + "```";
    assert !OpensSqlFence(t) by {
      assert t[3] == 'S';
    }
    assert OpensFence(t) && t[3..] == d + "```";
    assert (d + "```")[..|d|] == d;
  }

  /** Only the lower-case `sql` tag is removed: after a fence tagged "SQL" the
      tag stays at the head of the query. */
  lemma {:induction false} CleanSqlKeepsOtherTag(q: string)
    requires IsTrimmed(q) && q != [] && q[0] != '`' && q[|q| - 1] != '`'
    ensures CleanSql("```SQL\n" + q + "```") == "SQL\n" + q
  {
    var d := "SQL\n" + q;
    assert d[|d| - 1] == q[|q| - 1];
    assert "```SQL\n" + q + "```" == "```" + d + "```";
    var t := "```" + d + "```";
    assert t[0] == '`' && t[|t| - 1] == '`';
    UnfenceOtherTag(d);
    assert IsTrimmed(t);
    assert Strip(t) == t;
    assert IsTrimmed(d) by {
      assert d[0] == 'S';
    }
    assert Strip(d) == d;
    assert CleanSql(t) == d;
  }

  function Nl2SqlUpdate(s: State, o: Oracles): (t: State)
    ensures IsTrimmed(t.sql)
    ensures t.sql == CleanSql(GeneratedSql(o.generateSql(|s.trace|, s.question,
                                                         SqlHint(s.constraints, s.attempts, s.sqlResult), o.schema)))
    ensures t == s.(sql := t.sql, trace := s.trace + [Nl2SqlEntry(t.sql, s.attempts + 1)])
  {
    var hint := SqlHint(s.constraints, s.attempts, s.sqlResult);
    var sql := CleanSql(GeneratedSql(o.generateSql(|s.trace|, s.question, hint, o.schema)));
    s.(sql := sql, trace := s.trace + [Nl2SqlEntry(sql, s.attempts + 1)])
  }

  function ExecutorUpdate(s: State, o: Oracles): (t: State)
    ensures t.attempts == s.attempts + 1 && t.sqlResult.Executed?
    ensures t.sqlResult.error.Some? ==> t.sqlResult.rows == []
    ensures t.sqlResult == o.execute(|s.trace|, s.sql)
    ensures t == s.(sqlResult := t.sqlResult, attempts := s.attempts + 1,
                    trace := s.trace + [ExecutorEntry(t.sqlResult.error.None?, RowCount(t.sqlResult), t.sqlResult.error)])
  {
    var result := o.execute(|s.trace|, s.sql);
    s.(sqlResult := result, attempts := s.attempts + 1,
       trace := s.trace + [ExecutorEntry(result.error.None?, RowCount(result), result.error)])
  }

  /** One retrieved chunk as the synthesis predictor sees it: its id in
      brackets, at most 200 characters of its content, and an ellipsis. */
  function RenderChunk(c: DocChunk): (text: string)
    ensures |text| <= |c.id| + 206
  {
    "[" + c.id + "] " + Prefix(c.content, 200) + "..."
  }

  /** A rendered chunk is its id in brackets, then the first 200 characters
      of its content, all of it when it is no longer, then "...". */
  lemma RenderChunkShape(c: DocChunk)
    ensures exists body :: body <= c.content && |body| <= 200
                           && RenderChunk(c) == "[" + c.id + "] " + body + "..."
    ensures |c.content| <= 200 ==> RenderChunk(c) == "[" + c.id + "] " + c.content + "..."
    ensures |c.content| > 200 ==> RenderChunk(c) == "[" + c.id + "] " + c.content[..200] + "..."
  {
    var body := Prefix(c.content, 200);
    assert body <= c.content && |body| <= 200;
  }

  /** Each chunk rendered, in chunk order. */
  function RenderEach(chunks: seq<DocChunk>): (texts: seq<string>)
    ensures |texts| == |chunks|
  {
    if chunks == [] then [] else RenderEach(chunks[..|chunks| - 1]) + [RenderChunk(chunks[|chunks| - 1])]
  }

  /** The `k`-th rendering is that of the `k`-th chunk. */
  lemma {:induction false} RenderEachAt(chunks: seq<DocChunk>)
    ensures forall k :: 0 <= k < |chunks| ==> RenderEach(chunks)[k] == RenderChunk(chunks[k])
  {
    if chunks != [] {
      var front := chunks[..|chunks| - 1];
      RenderEachAt(front);
      assert forall k :: 0 <= k < |front| ==> chunks[k] == front[k];
    }
  }

  function RenderChunks(chunks: seq<DocChunk>): (docs: string)
    ensures chunks == [] ==> docs == "No documents retrieved"
    ensures |chunks| == 1 ==> docs == RenderChunk(chunks[0])
  {
    if chunks == [] then "No documents retrieved"
    else Join(RenderEach(chunks), "\n\n")
  }

  /** Two or more chunks render as the first one, a blank line, and the
      rendering of the rest: the renderings joined with "\n\n", in chunk order. */
  lemma RenderChunksCons(chunks: seq<DocChunk>)
    requires |chunks| >= 2
    ensures RenderChunks(chunks) == RenderChunk(chunks[0]) + "\n\n" + RenderChunks(chunks[1..])
  {
    var rest := chunks[1..];
    RenderEachAt(chunks);
    RenderEachAt(rest);
    assert RenderEach(chunks)[1..] == RenderEach(rest);
  }

  /** Two chunks render as their renderings separated by a blank line. */
  lemma RenderTwoChunks(a: DocChunk, b: DocChunk)
    ensures RenderChunks([a, b]) == RenderChunk(a) + "\n\n" + RenderChunk(b)
  {
    RenderChunksCons([a, b]);
    assert [a, b][1..] == [b];
  }

  /** What the synthesis predictor is shown of the query: an error wins over
      rows, and at most the first five rows are shown. */
  function RenderRows(r: SqlResult): (out: RenderedRows)
    ensures HasError(r) ==> out == SqlErrorLine("SQL Error: " + ErrorText(r))
    ensures out.JsonRows? <==> !HasError(r) && HasRows(r)
    ensures out.JsonRows? ==> 1 <= |out.rows| <= 5 && |out.rows| == Min(5, |r.rows|)
    ensures out == NoSqlResults <==> !HasError(r) && !HasRows(r)
  {
    if HasError(r) then SqlErrorLine("SQL Error: " + ErrorText(r))
    else if HasRows(r) then JsonRows(if |r.rows| <= 5 then r.rows else r.rows[..5])
    else NoSqlResults
  }

  /** The rows shown are the first rows of the result, in order. */
  lemma RenderRowsPrefix(r: SqlResult)
    ensures RenderRows(r).JsonRows? ==> RenderRows(r).rows <= r.rows
  {
  }

  function SynthesizerUpdate(s: State, o: Oracles): (t: State)
    ensures 0.0 <= t.confidence <= 1.0
    ensures WellCited(t.citations)
    ensures var out := Synthesize(o.synthesize(|s.trace|, SynthInput(s.question, s.formatHint, RenderChunks(s.chunks),
                                                                    RenderRows(s.sqlResult), s.sql)));
            t.finalAnswer == out.finalAnswer && t.citations == out.citations
            && t.confidence == out.confidence && t.explanation == out.explanation
    ensures t == s.(finalAnswer := t.finalAnswer, citations := t.citations, confidence := t.confidence,
                    explanation := t.explanation,
                    trace := s.trace + [SynthesizerEntry(t.confidence, |t.citations|)])
  {
    var input := SynthInput(s.question, s.formatHint, RenderChunks(s.chunks), RenderRows(s.sqlResult), s.sql);
    var out := Synthesize(o.synthesize(|s.trace|, input));
    s.(finalAnswer := out.finalAnswer, citations := out.citations, confidence := out.confidence,
       explanation := out.explanation, trace := s.trace + [SynthesizerEntry(out.confidence, |out.citations|)])
  }

  /** The issues of the current answer. */
  function StateIssues(s: State, o: Oracles): seq<Issue> {
    Issues(s.formatHint, o.parsesAsNumber(NumberText(s.finalAnswer)), o.serializable(s.finalAnswer),
           s.mode, s.citations, s.sqlResult)
  }

  function ValidateUpdate(s: State, o: Oracles): (t: State)
    ensures t.done <==> StateIssues(s, o) == [] || s.attempts >= 2
    ensures t == s.(done := t.done,
                    trace := s.trace + [ValidateEntry(Messages(StateIssues(s, o)), t.done, s.attempts)])
  {
    var issues := StateIssues(s, o);
    var done := Done(issues, s.attempts);
    s.(done := done, trace := s.trace + [ValidateEntry(Messages(issues), done, s.attempts)])
  }

  /** The node functions registered with `add_node`. */
  function NodeFunction(node: Node): (State, Oracles) -> State {
    match node
    case RouterNode => RouterUpdate
    case RetrieverNode => RetrieverUpdate
    case PlannerNode => PlannerUpdate
    case Nl2SqlNode => Nl2SqlUpdate
    case ExecutorNode => ExecutorUpdate
    case SynthesizerNode => SynthesizerUpdate
    case ValidateNode => ValidateUpdate
    case End => (s, o) => s
  }

  /** One node invocation: its partial update merged into the state, its one
      trace entry appended after the earlier ones. */
  function Apply(node: Node, s: State, o: Oracles): State {
    NodeFunction(node)(s, o)
  }

  /** Every node appends exactly one entry, its own, and keeps the earlier
      ones; only the executor touches the attempt counter and the result. */
  lemma ApplyAppendsOne(node: Node, s: State, o: Oracles)
    requires node != End
    ensures var t := Apply(node, s, o);
            |t.trace| == |s.trace| + 1 && t.trace[..|s.trace|] == s.trace
            && t.trace[|s.trace|].Writer() == node
            && (node != ExecutorNode ==> t.attempts == s.attempts && t.sqlResult == s.sqlResult)
  {
    var t := Apply(node, s, o);
    match node
    case RouterNode => assert t == RouterUpdate(s, o); assert t.trace[|s.trace|].RouterEntry?;
    case RetrieverNode => assert t == RetrieverUpdate(s, o); assert t.trace[|s.trace|].RetrieverEntry?;
    case PlannerNode => assert t == PlannerUpdate(s, o); assert t.trace[|s.trace|].PlannerEntry?;
    case Nl2SqlNode => assert t == Nl2SqlUpdate(s, o); assert t.trace[|s.trace|].Nl2SqlEntry?;
    case ExecutorNode => assert t == ExecutorUpdate(s, o); assert t.trace[|s.trace|].ExecutorEntry?;
    case SynthesizerNode => assert t == SynthesizerUpdate(s, o); assert t.trace[|s.trace|].SynthesizerEntry?;
    case ValidateNode => assert t == ValidateUpdate(s, o); assert t.trace[|s.trace|].ValidateEntry?;
  }

  // ----------------------------------------------------------------- routing

  function AfterRouter(s: State): (next: Node)
    ensures next == RetrieverNode <==> UsesDocuments(s.mode)
    ensures next == RetrieverNode || next == PlannerNode
  {
    if s.mode == Rag || s.mode == Hybrid then RetrieverNode else PlannerNode
  }

  function AfterPlanner(s: State): (next: Node)
    ensures next == Nl2SqlNode <==> UsesDatabase(s.mode)
    ensures next == Nl2SqlNode || next == SynthesizerNode
  {
    if s.mode == Sql || s.mode == Hybrid then Nl2SqlNode else SynthesizerNode
  }

  function AfterValidation(s: State): (next: Node)
    ensures next == End <==> s.done || s.attempts >= 2
    ensures next == Nl2SqlNode <==> !s.done && s.attempts < 2 && HasError(s.sqlResult)
    ensures next == SynthesizerNode <==> !s.done && s.attempts < 2 && !HasError(s.sqlResult)
  {
    if s.done then End
    else if s.attempts >= 2 then End
    else if HasError(s.sqlResult) then Nl2SqlNode
    else SynthesizerNode
  }

  /** The edge taken after `node` has produced the state `s`. */
  function Next(node: Node, s: State): Node {
    match node
    case RouterNode => AfterRouter(s)
    case RetrieverNode => PlannerNode
    case PlannerNode => AfterPlanner(s)
    case Nl2SqlNode => ExecutorNode
    case ExecutorNode => SynthesizerNode
    case SynthesizerNode => ValidateNode
    case ValidateNode => AfterValidation(s)
    case End => End
  }

  /** One pass of the graph loop: invoke the node, then follow its edge. */
  function StepOf(node: Node, s: State, o: Oracles): (Node, State) {
    var t := Apply(node, s, o);
    (Next(node, t), t)
  }

  /** The same pass as a function value, the form `Iterate` takes. */
  function Step(o: Oracles): (Node, State) -> (Node, State) {
    (node: Node, s: State) => StepOf(node, s, o)
  }

  /** The loop, for any step function: at most `fuel` passes from `node`,
      stopping at `End`; the node where it stopped (`End`, or wherever the
      budget ran out) and the state there. */
  function Iterate(step: (Node, State) -> (Node, State), node: Node, s: State, fuel: nat): (Node, State)
    decreases fuel
  {
    if node == End || fuel == 0 then (node, s)
    else Iterate(step, step(node, s).0, step(node, s).1, fuel - 1)
  }

  /** `graph.invoke`: the graph loop with a budget of `fuel` node invocations. */
  function Run(node: Node, s: State, o: Oracles, fuel: nat): (Node, State) {
    Iterate(Step(o), node, s, fuel)
  }

  /** One pass of the loop, taken out of it. */
  lemma IterateUnfold(step: (Node, State) -> (Node, State), node: Node, s: State, fuel: nat)
    requires node != End && fuel > 0
    ensures Iterate(step, node, s, fuel) == Iterate(step, step(node, s).0, step(node, s).1, fuel - 1)
  {
  }

  /** One node invocation of a run, taken out of it. */
  lemma RunStep(node: Node, s: State, o: Oracles, fuel: nat, next: Node, t: State)
    requires node != End && fuel > 0 && (next, t) == Step(o)(node, s)
    ensures Run(node, s, o, fuel) == Run(next, t, o, fuel - 1)
  {
    IterateUnfold(Step(o), node, s, fuel);
  }

  /** A run at `End`, or out of budget, stays where it is. */
  lemma RunStops(node: Node, s: State, o: Oracles, fuel: nat)
    requires node == End || fuel == 0
    ensures Run(node, s, o, fuel) == (node, s)
  {
  }

  /** The stops of the loop, for any step function: the node about to be
      invoked and the state it will see, from `(node, s)` to where `Iterate`
      stops. */
  function Path(step: (Node, State) -> (Node, State), node: Node, s: State, fuel: nat): (p: seq<(Node, State)>)
    ensures 1 <= |p| <= fuel + 1 && p[0] == (node, s)
    decreases fuel
  {
    if node == End || fuel == 0 then [(node, s)]
    else [(node, s)] + Path(step, step(node, s).0, step(node, s).1, fuel - 1)
  }

  /** From a stop that is not `End`, with budget left, the path goes on one
      pass of `step` later. */
  lemma {:induction false} PathNext(step: (Node, State) -> (Node, State), node: Node, s: State, fuel: nat, i: nat)
    requires i < |Path(step, node, s, fuel)|
    requires Path(step, node, s, fuel)[i].0 != End && i < fuel
    ensures var p := Path(step, node, s, fuel);
            i + 1 < |p| && p[i + 1] == step(p[i].0, p[i].1)
    decreases i
  {
    if i > 0 {
      PathNext(step, step(node, s).0, step(node, s).1, fuel - 1, i - 1);
    }
  }

  /** On the path of a run from the router, the stop after a node is that
      node's update and the edge it takes. */
  lemma RunPathNext(o: Oracles, start: State, fuel: nat, i: nat, node: Node, s: State)
    requires i < |Path(Step(o), RouterNode, start, fuel)|
    requires Path(Step(o), RouterNode, start, fuel)[i] == (node, s) && node != End && i < fuel
    ensures var p := Path(Step(o), RouterNode, start, fuel);
            i + 1 < |p| && p[i + 1] == (Next(node, Apply(node, s, o)), Apply(node, s, o))
  {
    PathNext(Step(o), RouterNode, start, fuel, i);
  }

  /** A stop at `End`, or with the budget spent, is the last one: where
      `Iterate` ends. */
  lemma {:induction false} PathLast(step: (Node, State) -> (Node, State), node: Node, s: State, fuel: nat, i: nat)
    requires i < |Path(step, node, s, fuel)|
    requires Path(step, node, s, fuel)[i].0 == End || i == fuel
    ensures Path(step, node, s, fuel)[i] == Iterate(step, node, s, fuel)
    decreases i
  {
    if i > 0 {
      PathLast(step, step(node, s).0, step(node, s).1, fuel - 1, i - 1);
    }
  }

  /** Whatever every pass preserves holds where the loop stops. */
  lemma {:induction false} IterateKeeps(step: (Node, State) -> (Node, State), P: (Node, State) -> bool,
                                        node: Node, s: State, fuel: nat)
    requires P(node, s)
    requires forall n, x :: n != End && P(n, x) ==> P(step(n, x).0, step(n, x).1)
    ensures P(Iterate(step, node, s, fuel).0, Iterate(step, node, s, fuel).1)
    decreases fuel
  {
    if node != End && fuel > 0 {
      IterateKeeps(step, P, step(node, s).0, step(node, s).1, fuel - 1);
    }
  }

  /** `t` is `s` with one more trace entry. */
  predicate AppendsOne(s: State, t: State) {
    |t.trace| == |s.trace| + 1 && t.trace[..|s.trace|] == s.trace
  }

  /** When every pass appends one entry, the loop only appends, one entry per
      pass, and a loop that did not reach `End` used its whole budget. */
  lemma {:induction false} IterateTrace(step: (Node, State) -> (Node, State), node: Node, s: State, fuel: nat)
    requires forall n, x :: n != End ==> AppendsOne(x, step(n, x).1)
    ensures var (last, t) := Iterate(step, node, s, fuel);
            s.trace <= t.trace && |t.trace| <= |s.trace| + fuel
            && (node != End && last != End ==> |t.trace| == |s.trace| + fuel)
    decreases fuel
  {
    if node != End && fuel > 0 {
      var (n, x) := step(node, s);
      assert AppendsOne(s, x);
      IterateTrace(step, n, x, fuel - 1);
    }
  }

  // ------------------------------------------------------------------- trace

  /** How many entries of `trace` the node wrote. */
  function Count(trace: seq<TraceEntry>, node: Node): (n: nat)
    ensures n <= |trace|
  {
    if trace == [] then 0
    else Count(trace[..|trace| - 1], node) + (if trace[|trace| - 1].Writer() == node then 1 else 0)
  }

  /** A run only appends to the trace, one entry per node invocation; a run
      that did not reach `End` used its whole budget. */
  lemma RunTrace(node: Node, s: State, o: Oracles, fuel: nat)
    ensures var (last, t) := Run(node, s, o, fuel);
            s.trace <= t.trace && |t.trace| <= |s.trace| + fuel
            && (node != End && last != End ==> |t.trace| == |s.trace| + fuel)
  {
    forall n, x | n != End
      ensures AppendsOne(x, Step(o)(n, x).1)
    {
      ApplyAppendsOne(n, x, o);
    }
    IterateTrace(Step(o), node, s, fuel);
  }

  // --------------------------------------------------------------- invariant

  /** What holds whenever the run is about to invoke `node` in state `s`. */
  predicate Inv(node: Node, s: State) {
    && s.attempts <= 2
    && (node == RouterNode || node == RetrieverNode || node == PlannerNode ==> s.attempts == 0)
    && (node == Nl2SqlNode || node == ExecutorNode ==> s.attempts <= 1 && UsesDatabase(s.mode))
    && (node != RouterNode ==> s.mode != Unset)
    && (node == RetrieverNode ==> UsesDocuments(s.mode))
    && (!UsesDatabase(s.mode) ==> s.attempts == 0 && s.sqlResult == NoResult && s.sql == "")
    && (!UsesDocuments(s.mode) ==> s.chunks == [])
    && (node != RouterNode && node != RetrieverNode && node != PlannerNode ==> s.constraints == Constraints(s.chunks))
    && (node == RouterNode ==> s.trace == [] && s.mode == Unset)
    && Count(s.trace, ExecutorNode) == s.attempts
    && Count(s.trace, Nl2SqlNode) == s.attempts + (if node == ExecutorNode then 1 else 0)
  }

  lemma InvInitial(id: string, question: string, formatHint: string)
    ensures Inv(RouterNode, Initial(id, question, formatHint))
  {
  }

  lemma CountAppend(trace: seq<TraceEntry>, e: TraceEntry, node: Node)
    ensures Count(trace + [e], node) == Count(trace, node) + (if e.Writer() == node then 1 else 0)
  {
    assert (trace + [e])[..|trace|] == trace;
  }

  /** The two counters the invariant tracks, after one more entry. */
  lemma CountsAfter(s: State, t: State, e: TraceEntry)
    requires t.trace == s.trace + [e]
    ensures Count(t.trace, ExecutorNode) == Count(s.trace, ExecutorNode) + (if e.Writer() == ExecutorNode then 1 else 0)
    ensures Count(t.trace, Nl2SqlNode) == Count(s.trace, Nl2SqlNode) + (if e.Writer() == Nl2SqlNode then 1 else 0)
  {
    CountAppend(s.trace, e, ExecutorNode);
    CountAppend(s.trace, e, Nl2SqlNode);
  }

  // Each node's lemma is stated over one pass of the loop from that node,
  // whatever the oracles answer.

  lemma {:induction false} InvRouter(s: State, o: Oracles)
    requires Inv(RouterNode, s)
    ensures Inv(Step(o)(RouterNode, s).0, Step(o)(RouterNode, s).1)
  {
    var t := RouterUpdate(s, o);
    assert Step(o)(RouterNode, s) == (AfterRouter(t), t);
    CountsAfter(s, t, RouterEntry(t.mode, Prefix(s.question, 100)));
  }

  lemma {:induction false} InvRetriever(s: State, o: Oracles)
    requires Inv(RetrieverNode, s)
    ensures Inv(Step(o)(RetrieverNode, s).0, Step(o)(RetrieverNode, s).1)
  {
    var t := RetrieverUpdate(s, o);
    assert Step(o)(RetrieverNode, s) == (PlannerNode, t);
    CountsAfter(s, t, RetrieverEntry(|t.chunks|, ChunkIds(t.chunks)));
  }

  lemma {:induction false} InvPlanner(s: State, o: Oracles)
    requires Inv(PlannerNode, s)
    ensures Inv(Step(o)(PlannerNode, s).0, Step(o)(PlannerNode, s).1)
  {
    var t := PlannerUpdate(s, o);
    assert Step(o)(PlannerNode, s) == (AfterPlanner(t), t);
    CountsAfter(s, t, PlannerEntry(t.constraints));
  }

  lemma {:induction false} InvNl2Sql(s: State, o: Oracles)
    requires Inv(Nl2SqlNode, s)
    ensures Inv(Step(o)(Nl2SqlNode, s).0, Step(o)(Nl2SqlNode, s).1)
  {
    var sql := Nl2SqlStep(s, o);
    InvGenerated(s, sql);
  }

  /** One pass from the SQL generator, with the cleaned query named. */
  lemma Nl2SqlStep(s: State, o: Oracles) returns (sql: string)
    ensures Step(o)(Nl2SqlNode, s)
            == (ExecutorNode, s.(sql := sql, trace := s.trace + [Nl2SqlEntry(sql, s.attempts + 1)]))
  {
    sql := Nl2SqlUpdate(s, o).sql;
  }

  lemma {:induction false} InvGenerated(s: State, sql: string)
    requires Inv(Nl2SqlNode, s)
    ensures Inv(ExecutorNode, s.(sql := sql, trace := s.trace + [Nl2SqlEntry(sql, s.attempts + 1)]))
  {
    var t := s.(sql := sql, trace := s.trace + [Nl2SqlEntry(sql, s.attempts + 1)]);
    CountsAfter(s, t, Nl2SqlEntry(sql, s.attempts + 1));
  }

  lemma {:induction false} InvExecutor(s: State, o: Oracles)
    requires Inv(ExecutorNode, s)
    ensures Inv(Step(o)(ExecutorNode, s).0, Step(o)(ExecutorNode, s).1)
  {
    var r := ExecutorStep(s, o);
    InvExecuted(s, r);
  }

  /** One pass from the executor, with the database's answer named. */
  lemma ExecutorStep(s: State, o: Oracles) returns (r: ExecResult)
    ensures Step(o)(ExecutorNode, s)
            == (SynthesizerNode, s.(sqlResult := r, attempts := s.attempts + 1,
                                    trace := s.trace + [ExecutorEntry(r.error.None?, RowCount(r), r.error)]))
  {
    r := ExecutorUpdate(s, o).sqlResult;
  }

  lemma {:induction false} InvExecuted(s: State, r: ExecResult)
    requires Inv(ExecutorNode, s)
    ensures Inv(SynthesizerNode, s.(sqlResult := r, attempts := s.attempts + 1,
                                   trace := s.trace + [ExecutorEntry(r.error.None?, RowCount(r), r.error)]))
  {
    var t := s.(sqlResult := r, attempts := s.attempts + 1,
                trace := s.trace + [ExecutorEntry(r.error.None?, RowCount(r), r.error)]);
    CountsAfter(s, t, ExecutorEntry(r.error.None?, RowCount(r), r.error));
  }

  lemma {:induction false} InvSynthesizer(s: State, o: Oracles)
    requires Inv(SynthesizerNode, s)
    ensures Inv(Step(o)(SynthesizerNode, s).0, Step(o)(SynthesizerNode, s).1)
  {
    var out := SynthesizerStep(s, o);
    InvSynthesized(s, out);
  }

  /** One pass from the synthesizer, with the oracle's answer named. */
  lemma SynthesizerStep(s: State, o: Oracles) returns (out: Synthesis)
    ensures Step(o)(SynthesizerNode, s)
            == (ValidateNode, s.(finalAnswer := out.finalAnswer, citations := out.citations,
                                 confidence := out.confidence, explanation := out.explanation,
                                 trace := s.trace + [SynthesizerEntry(out.confidence, |out.citations|)]))
  {
    var t := SynthesizerUpdate(s, o);
    out := Synthesis(t.finalAnswer, t.citations, t.confidence, t.explanation);
  }

  lemma {:induction false} InvSynthesized(s: State, out: Synthesis)
    requires Inv(SynthesizerNode, s)
    ensures Inv(ValidateNode, s.(finalAnswer := out.finalAnswer, citations := out.citations,
                                 confidence := out.confidence, explanation := out.explanation,
                                 trace := s.trace + [SynthesizerEntry(out.confidence, |out.citations|)]))
  {
    var t := s.(finalAnswer := out.finalAnswer, citations := out.citations,
                confidence := out.confidence, explanation := out.explanation,
                trace := s.trace + [SynthesizerEntry(out.confidence, |out.citations|)]);
    CountsAfter(s, t, SynthesizerEntry(out.confidence, |out.citations|));
  }

  lemma {:induction false} InvValidate(s: State, o: Oracles)
    requires Inv(ValidateNode, s)
    ensures Inv(Step(o)(ValidateNode, s).0, Step(o)(ValidateNode, s).1)
  {
    var done, messages := ValidateStep(s, o);
    InvValidated(s, done, messages);
  }

  /** One pass from validation, with the verdict and the messages named. */
  lemma ValidateStep(s: State, o: Oracles) returns (done: bool, messages: seq<string>)
    ensures var t := s.(done := done, trace := s.trace + [ValidateEntry(messages, done, s.attempts)]);
            Step(o)(ValidateNode, s) == (AfterValidation(t), t)
  {
    var t := ValidateUpdate(s, o);
    done, messages := t.done, Messages(StateIssues(s, o));
  }

  lemma {:induction false} InvValidated(s: State, done: bool, messages: seq<string>)
    requires Inv(ValidateNode, s)
    ensures var t := s.(done := done, trace := s.trace + [ValidateEntry(messages, done, s.attempts)]);
            Inv(AfterValidation(t), t)
  {
    var t := s.(done := done, trace := s.trace + [ValidateEntry(messages, done, s.attempts)]);
    CountsAfter(s, t, ValidateEntry(messages, done, s.attempts));
  }

  /** Every node invocation keeps the invariant. */
  lemma {:induction false} InvStep(node: Node, s: State, o: Oracles)
    requires Inv(node, s) && node != End
    ensures Inv(Step(o)(node, s).0, Step(o)(node, s).1)
  {
    match node
    case RouterNode => InvRouter(s, o);
    case RetrieverNode => InvRetriever(s, o);
    case PlannerNode => InvPlanner(s, o);
    case Nl2SqlNode => InvNl2Sql(s, o);
    case ExecutorNode => InvExecutor(s, o);
    case SynthesizerNode => InvSynthesizer(s, o);
    case ValidateNode => InvValidate(s, o);
  }

  lemma InvRun(node: Node, s: State, o: Oracles, fuel: nat)
    requires Inv(node, s)
    ensures Inv(Run(node, s, o, fuel).0, Run(node, s, o, fuel).1)
  {
    forall n, x | n != End && Inv(n, x)
      ensures Inv(Step(o)(n, x).0, Step(o)(n, x).1)
    {
      InvStep(n, x, o);
    }
    IterateKeeps(Step(o), Inv, node, s, fuel);
  }

  /** On every run, however long: the executor has run `attempts <= 2` times
      and the SQL predictor at most twice; a `rag` run never touches the
      database, an `sql` run never retrieves, and once the planner has run the
      constraints are those of the retrieved chunks. */
  lemma AttemptsBounded(id: string, question: string, formatHint: string, o: Oracles, fuel: nat)
    ensures var (node, t) := Run(RouterNode, Initial(id, question, formatHint), o, fuel);
            t.attempts <= 2
            && Count(t.trace, ExecutorNode) == t.attempts
            && Count(t.trace, Nl2SqlNode) <= 2
            && (t.mode == Rag ==> t.sql == "" && t.sqlResult == NoResult)
            && (t.mode == Sql ==> t.chunks == [])
            && (node != RouterNode && node != RetrieverNode && node != PlannerNode ==> t.constraints == Constraints(t.chunks))
  {
    InvInitial(id, question, formatHint);
    InvRun(RouterNode, Initial(id, question, formatHint), o, fuel);
  }

  // ---------------------------------------------------------- termination

  /** A loop from a state satisfying `P` reaches `End` within `M(node, s)`
      passes when every pass keeps `P` and lowers `M`. */
  lemma {:induction false} IterateEnds(step: (Node, State) -> (Node, State), P: (Node, State) -> bool,
                                       M: (Node, State) -> nat, node: Node, s: State, fuel: nat)
    requires P(node, s) && M(node, s) <= fuel
    requires forall n, x :: n != End && P(n, x) ==>
               P(step(n, x).0, step(n, x).1) && M(step(n, x).0, step(n, x).1) < M(n, x)
    ensures Iterate(step, node, s, fuel).0 == End
    ensures P(Iterate(step, node, s, fuel).0, Iterate(step, node, s, fuel).1)
    decreases fuel
  {
    if node != End {
      assert M(step(node, s).0, step(node, s).1) < M(node, s);
      IterateEnds(step, P, M, step(node, s).0, step(node, s).1, fuel - 1);
    }
  }

  /** The re-synthesis cycle of a database run: the query succeeded without
      rows, so validation reports "SQL returned no rows" and, the query not
      having failed, sends the run back to the synthesizer; no node on the
      cycle touches the attempt counter or the result. */
  predicate NoRowsCycle(node: Node, s: State) {
    (node == SynthesizerNode || node == ValidateNode)
    && UsesDatabase(s.mode) && s.attempts < 2 && !HasError(s.sqlResult) && !HasRows(s.sqlResult)
  }

  lemma NoRowsStep(node: Node, s: State, o: Oracles)
    requires NoRowsCycle(node, s)
    ensures NoRowsCycle(Step(o)(node, s).0, Step(o)(node, s).1)
  {
    if node == ValidateNode {
      var t := ValidateUpdate(s, o);
      NoIssuesIff(s.formatHint, o.parsesAsNumber(NumberText(s.finalAnswer)), o.serializable(s.finalAnswer),
                  s.mode, s.citations, s.sqlResult);
      assert AfterValidation(t) == SynthesizerNode;
    } else {
      assert SynthesizerUpdate(s, o).sqlResult == s.sqlResult;
    }
  }

  /** Once a database query has succeeded with no rows before the attempt
      cap, no budget is large enough: the run alternates between the
      synthesizer and validation and never reaches `End`. */
  lemma NoRowsNeverEnds(node: Node, s: State, o: Oracles, fuel: nat)
    requires NoRowsCycle(node, s)
    ensures Run(node, s, o, fuel).0 != End
    ensures NoRowsCycle(Run(node, s, o, fuel).0, Run(node, s, o, fuel).1)
  {
    forall n, x | n != End && NoRowsCycle(n, x)
      ensures NoRowsCycle(Step(o)(n, x).0, Step(o)(n, x).1)
    {
      NoRowsStep(n, x, o);
    }
    IterateKeeps(Step(o), NoRowsCycle, node, s, fuel);
  }

  /** The re-synthesis cycle of a document run whose synthesizer never cites:
      validation reports "Missing citations" and, no query having failed,
      sends the run back to the synthesizer. */
  predicate UncitedCycle(node: Node, s: State) {
    (node == SynthesizerNode || node == ValidateNode)
    && UsesDocuments(s.mode) && s.attempts < 2 && !HasError(s.sqlResult)
    && (node == ValidateNode ==> s.citations == [])
  }

  /** The synthesis predictor gives nothing that parses as a citation. */
  ghost predicate NeverCites(o: Oracles) {
    forall n, x :: Synthesize(o.synthesize(n, x)).citations == []
  }

  lemma UncitedStep(node: Node, s: State, o: Oracles)
    requires UncitedCycle(node, s) && NeverCites(o)
    ensures UncitedCycle(Step(o)(node, s).0, Step(o)(node, s).1)
  {
    if node == ValidateNode {
      var t := ValidateUpdate(s, o);
      NoIssuesIff(s.formatHint, o.parsesAsNumber(NumberText(s.finalAnswer)), o.serializable(s.finalAnswer),
                  s.mode, s.citations, s.sqlResult);
      assert AfterValidation(t) == SynthesizerNode;
    } else {
      var input := SynthInput(s.question, s.formatHint, RenderChunks(s.chunks), RenderRows(s.sqlResult), s.sql);
      assert SynthesizerUpdate(s, o).citations == Synthesize(o.synthesize(|s.trace|, input)).citations;
    }
  }

  /** A `rag` or `hybrid` run whose synthesizer never cites, once it reaches
      the synthesizer with no failed query and fewer than two attempts,
      never reaches `End`: missing citations do not count as an attempt. */
  lemma UncitedNeverEnds(node: Node, s: State, o: Oracles, fuel: nat)
    requires UncitedCycle(node, s) && NeverCites(o)
    ensures Run(node, s, o, fuel).0 != End
  {
    forall n, x | n != End && UncitedCycle(n, x)
      ensures UncitedCycle(Step(o)(n, x).0, Step(o)(n, x).1)
    {
      UncitedStep(n, x, o);
    }
    IterateKeeps(Step(o), UncitedCycle, node, s, fuel);
  }

  // ------------------------------------------------------- two whole runs

  /** The classifier always answers `sql`. */
  ghost predicate AlwaysSql(o: Oracles) {
    forall n, q :: CoerceMode(o.classify(n, q)) == Sql
  }

  /** The database always answers with an empty success. */
  ghost predicate AlwaysEmpty(o: Oracles) {
    forall n, q :: o.execute(n, q) == Executed([], [], None)
  }

  /** Where an `sql` run whose every query succeeds with no rows can be. */
  predicate EmptyQueryPath(node: Node, s: State) {
    || (node == RouterNode && s.attempts == 0)
    || ((node == PlannerNode || node == Nl2SqlNode || node == ExecutorNode) && s.mode == Sql && s.attempts == 0)
    || NoRowsCycle(node, s)
  }

  lemma EmptyQueryStep(node: Node, s: State, o: Oracles)
    requires AlwaysSql(o) && AlwaysEmpty(o)
    requires node != End && EmptyQueryPath(node, s)
    ensures EmptyQueryPath(Step(o)(node, s).0, Step(o)(node, s).1)
  {
    if NoRowsCycle(node, s) {
      NoRowsStep(node, s, o);
    } else if node == RouterNode {
      assert RouterUpdate(s, o).mode == Sql;
    } else if node == ExecutorNode {
      assert ExecutorUpdate(s, o).sqlResult == Executed([], [], None);
    } else if node == PlannerNode {
      assert PlannerUpdate(s, o).mode == Sql;
    } else {
      assert Nl2SqlUpdate(s, o).mode == Sql;
    }
  }

  lemma EmptyQueryKeeps(o: Oracles)
    requires AlwaysSql(o) && AlwaysEmpty(o)
    ensures forall n, x :: n != End && EmptyQueryPath(n, x) ==> EmptyQueryPath(Step(o)(n, x).0, Step(o)(n, x).1)
  {
    forall n, x | n != End && EmptyQueryPath(n, x)
      ensures EmptyQueryPath(Step(o)(n, x).0, Step(o)(n, x).1)
    {
      EmptyQueryStep(n, x, o);
    }
  }

  /** An `sql` question whose query always succeeds with no rows never
      finishes, whatever the budget: the attempt cap does not apply to the
      re-synthesis cycle. */
  lemma EmptyQueryNeverEnds(id: string, question: string, formatHint: string, o: Oracles, fuel: nat)
    requires AlwaysSql(o) && AlwaysEmpty(o)
    ensures Run(RouterNode, Initial(id, question, formatHint), o, fuel).0 != End
  {
    EmptyQueryKeeps(o);
    IterateKeeps(Step(o), EmptyQueryPath, RouterNode, Initial(id, question, formatHint), fuel);
  }

  /** The classifier always answers `rag`. */
  ghost predicate AlwaysRag(o: Oracles) {
    forall n, q :: CoerceMode(o.classify(n, q)) == Rag
  }

  /** Where a `rag` run whose synthesizer never cites can be. */
  predicate UncitedRagPath(node: Node, s: State) {
    || (node == RouterNode && s.attempts == 0 && s.sqlResult == NoResult)
    || ((node == RetrieverNode || node == PlannerNode) && s.mode == Rag && s.attempts == 0 && s.sqlResult == NoResult)
    || UncitedCycle(node, s)
  }

  lemma UncitedRagStep(node: Node, s: State, o: Oracles)
    requires AlwaysRag(o) && NeverCites(o)
    requires node != End && UncitedRagPath(node, s)
    ensures UncitedRagPath(Step(o)(node, s).0, Step(o)(node, s).1)
  {
    if UncitedCycle(node, s) {
      UncitedStep(node, s, o);
    } else if node == RouterNode {
      assert RouterUpdate(s, o).mode == Rag;
    } else if node == RetrieverNode {
      assert RetrieverUpdate(s, o).mode == Rag;
    } else {
      assert PlannerUpdate(s, o).mode == Rag;
    }
  }

  lemma UncitedRagKeeps(o: Oracles)
    requires AlwaysRag(o) && NeverCites(o)
    ensures forall n, x :: n != End && UncitedRagPath(n, x) ==> UncitedRagPath(Step(o)(n, x).0, Step(o)(n, x).1)
  {
    forall n, x | n != End && UncitedRagPath(n, x)
      ensures UncitedRagPath(Step(o)(n, x).0, Step(o)(n, x).1)
    {
      UncitedRagStep(n, x, o);
    }
  }

  /** A `rag` question whose synthesizer never cites never finishes, whatever
      the budget: with no query run, validation keeps sending it back to the
      synthesizer. */
  lemma UncitedRagNeverEnds(id: string, question: string, formatHint: string, o: Oracles, fuel: nat)
    requires AlwaysRag(o) && NeverCites(o)
    ensures Run(RouterNode, Initial(id, question, formatHint), o, fuel).0 != End
  {
    UncitedRagKeeps(o);
    IterateKeeps(Step(o), UncitedRagPath, RouterNode, Initial(id, question, formatHint), fuel);
  }

  /** Node invocations left on the run of `FailingQueryPath`. */
  function FailingQueryLeft(node: Node, s: State): nat {
    var a := if s.attempts <= 2 then s.attempts else 2;
    match node
    case RouterNode => 10
    case RetrieverNode => 0
    case PlannerNode => 9
    case Nl2SqlNode => if a <= 1 then 4 + 4 * (1 - a) else 0
    case ExecutorNode => if a <= 1 then 3 + 4 * (1 - a) else 0
    case SynthesizerNode => 2 + 4 * (2 - a)
    case ValidateNode => 1 + 4 * (2 - a)
    case End => 0
  }

  /** Where an `sql` run whose every query fails can be, with the trace
      length and the invocations left adding up to ten. */
  predicate FailingQueryPath(node: Node, s: State) {
    && node != RetrieverNode
    && |s.trace| + FailingQueryLeft(node, s) == 10
    && (node == RouterNode ==> s.attempts == 0)
    && (node != RouterNode ==> s.mode == Sql)
    && (node == PlannerNode ==> s.attempts == 0)
    && (node == Nl2SqlNode || node == ExecutorNode ==> s.attempts <= 1)
    && (node == SynthesizerNode || node == ValidateNode ==> 1 <= s.attempts <= 2 && HasError(s.sqlResult))
    && (node == End ==> s.attempts == 2 && s.done)
  }

  /** The database always fails with the same non-empty message. */
  ghost predicate AlwaysFails(o: Oracles, e: string) {
    e != "" && forall n, q :: o.execute(n, q) == Executed([], [], Some(e))
  }

  /** One pass from `node` stays on the path and brings `End` one step closer. */
  predicate FailingQueryAdvances(node: Node, s: State, o: Oracles) {
    FailingQueryPath(Step(o)(node, s).0, Step(o)(node, s).1)
    && FailingQueryLeft(Step(o)(node, s).0, Step(o)(node, s).1) < FailingQueryLeft(node, s)
  }

  lemma FailingQueryRouter(s: State, o: Oracles)
    requires AlwaysSql(o) && FailingQueryPath(RouterNode, s)
    ensures FailingQueryAdvances(RouterNode, s, o)
  {
    assert RouterUpdate(s, o).mode == Sql;
  }

  lemma FailingQueryPlanner(s: State, o: Oracles)
    requires FailingQueryPath(PlannerNode, s)
    ensures FailingQueryAdvances(PlannerNode, s, o)
  {
  }

  lemma FailingQueryNl2Sql(s: State, o: Oracles)
    requires FailingQueryPath(Nl2SqlNode, s)
    ensures FailingQueryAdvances(Nl2SqlNode, s, o)
  {
    var sql := Nl2SqlStep(s, o);
    FailingQueryGenerated(s, sql);
  }

  lemma FailingQueryGenerated(s: State, sql: string)
    requires FailingQueryPath(Nl2SqlNode, s)
    ensures var t := s.(sql := sql, trace := s.trace + [Nl2SqlEntry(sql, s.attempts + 1)]);
            FailingQueryPath(ExecutorNode, t) && FailingQueryLeft(ExecutorNode, t) < FailingQueryLeft(Nl2SqlNode, s)
  {
  }

  lemma FailingQueryExecutor(s: State, o: Oracles, e: string)
    requires AlwaysFails(o, e) && FailingQueryPath(ExecutorNode, s)
    ensures FailingQueryAdvances(ExecutorNode, s, o)
  {
    assert ExecutorUpdate(s, o).sqlResult == Executed([], [], Some(e));
  }

  lemma FailingQuerySynthesizer(s: State, o: Oracles)
    requires FailingQueryPath(SynthesizerNode, s)
    ensures FailingQueryAdvances(SynthesizerNode, s, o)
  {
  }

  lemma FailingQueryStep(node: Node, s: State, o: Oracles, e: string)
    requires AlwaysSql(o) && AlwaysFails(o, e)
    requires node != End && FailingQueryPath(node, s)
    ensures FailingQueryAdvances(node, s, o)
  {
    match node
    case RouterNode => FailingQueryRouter(s, o);
    case PlannerNode => FailingQueryPlanner(s, o);
    case Nl2SqlNode => FailingQueryNl2Sql(s, o);
    case ExecutorNode => FailingQueryExecutor(s, o, e);
    case SynthesizerNode => FailingQuerySynthesizer(s, o);
    case ValidateNode => FailingQueryValidate(s, o);
  }

  /** Validation of a failed query: done exactly at the second attempt. */
  lemma FailingQueryValidate(s: State, o: Oracles)
    requires FailingQueryPath(ValidateNode, s)
    ensures FailingQueryAdvances(ValidateNode, s, o)
  {
    var t := ValidateUpdate(s, o);
    NoIssuesIff(s.formatHint, o.parsesAsNumber(NumberText(s.finalAnswer)), o.serializable(s.finalAnswer),
                s.mode, s.citations, s.sqlResult);
    assert t.done <==> s.attempts >= 2;
  }

  lemma FailingQueryKeeps(o: Oracles, e: string)
    requires AlwaysSql(o) && AlwaysFails(o, e)
    ensures forall n, x :: n != End && FailingQueryPath(n, x) ==>
              FailingQueryPath(Step(o)(n, x).0, Step(o)(n, x).1)
              && FailingQueryLeft(Step(o)(n, x).0, Step(o)(n, x).1) < FailingQueryLeft(n, x)
  {
    forall n, x | n != End && FailingQueryPath(n, x)
      ensures FailingQueryAdvances(n, x, o)
    {
      FailingQueryStep(n, x, o, e);
    }
  }

  /** An `sql` question whose query always fails ends after exactly ten node
      invocations, with the query tried twice and the run marked done. */
  lemma FailingQueryEnds(id: string, question: string, formatHint: string, o: Oracles, e: string, fuel: nat)
    requires AlwaysSql(o) && AlwaysFails(o, e)
    requires fuel >= 10
    ensures var (node, t) := Run(RouterNode, Initial(id, question, formatHint), o, fuel);
            node == End && |t.trace| == 10 && t.attempts == 2 && t.done
  {
    FailingQueryKeeps(o, e);
    IterateEnds(Step(o), (n, x) => FailingQueryPath(n, x), (n, x) => FailingQueryLeft(n, x),
                RouterNode, Initial(id, question, formatHint), fuel);
  }
}
