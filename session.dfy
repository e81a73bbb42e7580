/** One `HybridAgent.run` of agent/graph_hybrid.py as the compiled graph
    executes it: a session object holds the agent state, each node overwrites
    the fields its partial update names and appends its trace entry, and a
    driver loop invokes the nodes along the edges. Every node method is proved
    to leave exactly the state the pure update of the Graph module gives, and
    the driver to end where the Graph module's run ends. */
module Session {
  import opened Maybe
  import opened SqlTool
  import opened Signatures
  import opened Retrieval
  import opened Planner
  import opened Validation
  import opened Graph

  /** The dictionary `run` returns. */
  datatype AgentResult = AgentResult(
    id: string, question: string,
    finalAnswer: string, citations: seq<string>, confidence: real, explanation: string,
    trace: seq<TraceEntry>)

  class AgentSession {
    /** The agent state the graph threads from node to node. */
    var state: State

    /** `initial_state` of `run`. */
    constructor (id: string, question: string, formatHint: string)
      ensures state == Initial(id, question, formatHint)
    {
      state := Initial(id, question, formatHint);
    }

    /** `router_node`. */
    method RunRouter(o: Oracles)
      modifies this
      ensures state == Apply(RouterNode, old(state), o)
    {
      state := RouterUpdate(state, o);
    }

    /** `retriever_node`. */
    method RunRetriever(o: Oracles)
      modifies this
      ensures state == Apply(RetrieverNode, old(state), o)
    {
      state := RetrieverUpdate(state, o);
    }

    /** `planner_node`: the constraint scan runs as a loop over the chunks. */
    method RunPlanner(ghost o: Oracles)
      modifies this
      ensures state == Apply(PlannerNode, old(state), o)
    {
      ghost var s := state;
      var c := ScanConstraints(state.chunks);
      state := state.(constraints := c, trace := state.trace + [PlannerEntry(c)]);
      assert state == PlannerUpdate(s, o);
    }

    /** `nl2sql_node`: the repair hint is a local copy, `constraints` is kept. */
    method RunNl2Sql(o: Oracles)
      modifies this
      ensures state == Apply(Nl2SqlNode, old(state), o)
    {
      assert NodeFunction(Nl2SqlNode) == Nl2SqlUpdate;
      state := Nl2SqlUpdate(state, o);
    }

    /** `executor_node`: the only writer of the attempt counter. */
    method RunExecutor(o: Oracles)
      modifies this
      ensures state == Apply(ExecutorNode, old(state), o)
    {
      state := ExecutorUpdate(state, o);
    }

    /** `synthesizer_node`. */
    method RunSynthesizer(o: Oracles)
      modifies this
      ensures state == Apply(SynthesizerNode, old(state), o)
    {
      assert NodeFunction(SynthesizerNode) == SynthesizerUpdate;
      state := SynthesizerUpdate(state, o);
    }

    /** `validate_and_repair_node`: the issues are collected one check at a time. */
    method RunValidate(o: Oracles)
      modifies this
      ensures state == Apply(ValidateNode, old(state), o)
    {
      ghost var s := state;
      var issues := CollectIssues(state.formatHint, o.parsesAsNumber(NumberText(state.finalAnswer)),
                                  o.serializable(state.finalAnswer), state.mode, state.citations, state.sqlResult);
      var d := Done(issues, state.attempts);
      state := state.(done := d, trace := state.trace + [ValidateEntry(Messages(issues), d, state.attempts)]);
      assert state == ValidateUpdate(s, o);
    }

    /** Invokes `node` on the state. */
    method RunNode(node: Node, o: Oracles)
      requires node != End
      modifies this
      ensures state == Apply(node, old(state), o)
    {
      match node
      case RouterNode => RunRouter(o);
      case RetrieverNode => RunRetriever(o);
      case PlannerNode => RunPlanner(o);
      case Nl2SqlNode => RunNl2Sql(o);
      case ExecutorNode => RunExecutor(o);
      case SynthesizerNode => RunSynthesizer(o);
      case ValidateNode => RunValidate(o);
    }

    /** `graph.invoke`: from the router, invoke the node, follow its edge,
        and go on until `End` or until `fuel` node invocations are spent;
        the loop is at stop `i` of the path of the run throughout. */
    method Invoke(o: Oracles, fuel: nat) returns (last: Node)
      modifies this
      ensures (last, state) == Run(RouterNode, old(state), o, fuel)
    {
      ghost var start := state;
      var node, i := RouterNode, 0;
      while node != End && i < fuel
        invariant i <= fuel && i < |Path(Step(o), RouterNode, start, fuel)|
        invariant Path(Step(o), RouterNode, start, fuel)[i] == (node, state)
        decreases fuel - i
      {
        RunPathNext(o, start, fuel, i, node, state);
        RunNode(node, o);
        node, i := Next(node, state), i + 1;
      }
      PathLast(Step(o), RouterNode, start, fuel, i);
      last := node;
    }
  }

  /** `HybridAgent.run`: a fresh session driven through the graph. `None`
      stands for a run that has not reached `End` within `fuel` node
      invocations. */
  method RunQuestion(id: string, question: string, formatHint: string, o: Oracles, fuel: nat)
    returns (result: Option<AgentResult>)
    ensures var (last, t) := Run(RouterNode, Initial(id, question, formatHint), o, fuel);
            result == if last == End
                      then Some(AgentResult(t.id, t.question, t.finalAnswer, t.citations, t.confidence,
                                            t.explanation, t.trace))
                      else None
  {
    var session := new AgentSession(id, question, formatHint);
    var last := session.Invoke(o, fuel);
    assert (last, session.state) == Run(RouterNode, Initial(id, question, formatHint), o, fuel);
    if last == End {
      var t := session.state;
      return Some(AgentResult(t.id, t.question, t.finalAnswer, t.citations, t.confidence, t.explanation, t.trace));
    }
    return None;
  }
}
