/**
 * A node of a copilot workflow graph: its outgoing edges and its parents, the rules for adding
 * an edge, and the choice of the next node when the node runs. What the node's executor yields
 * and what a decision node's condition returns (it runs in a worker thread) are inputs.
 */
module WorkflowNodes {
  import opened Wrappers

  datatype NodeType = Basic | Decision

  /**
   * The node's data. `executorType` is a basic node's executor `type`; a node without a condition
   * has `condition == ""`, which is falsy.
   */
  datatype NodeData = NodeData(id: string, name: string, nodeType: NodeType, executorType: string, condition: string)

  /** What the node's `throw`s report. */
  datatype NodeError =
    | BasicHasEdge
    | MissingCondition
    | NoEdgeForCondition(condition: string)
    | NotInitialized(name: string)
    | ConditionFailed
    | ExecutorNotDefined(executorType: string)

  /** The value a condition evaluates to in the worker: a string or anything else. */
  datatype WorkerValue = StringValue(s: string) | OtherValue

  /** How evaluating the condition in the worker ends. */
  datatype WorkerOutcome = Returned(v: WorkerValue) | Threw

  /** What `next` yields; `Executed` carries an item of the executor's own stream. */
  datatype WorkflowResult<E> =
    | StartRun(nodeId: string)
    | Executed(item: E)
    | EndRun(nextNode: Option<WorkflowNode>)

  // ---------------------------------------------------------------------------------------------
  // Edges and parents

  /** The checks `addEdge` makes before it adds anything. */
  function EdgeGuard(data: NodeData, edgeCount: nat): Option<NodeError> {
    if data.nodeType == Basic then
      (if edgeCount > 0 then Some(BasicHasEdge) else None)
    else if data.condition == "" then Some(MissingCondition)
    else None
  }

  /** `addEdge(node)` on a node holding `edges`: what it returns or throws, and the edges after it. */
  function AddEdgeStep<T>(data: NodeData, edges: seq<T>, node: T): (Result<nat, NodeError>, seq<T>) {
    match EdgeGuard(data, |edges|)
    case Some(e) => (Err(e), edges)
    case None => (Ok(|edges| + 1), edges + [node])
  }

  /** The `parent` setter: `node` is pushed only when it is not there yet. */
  function WithParent<T(==)>(parents: seq<T>, node: T): seq<T> {
    if node in parents then parents else parents + [node]
  }

  /**
   * `addEdge` throws exactly when a basic node already has an edge or a decision node has no
   * condition, and changes nothing then; otherwise it appends the target and returns the new
   * number of edges, after which the node has edges.
   */
  lemma AddEdgeLaws<T>(data: NodeData, edges: seq<T>, node: T)
    ensures var (r, after) := AddEdgeStep(data, edges, node);
      && (r == Err(BasicHasEdge) <==> data.nodeType == Basic && |edges| > 0)
      && (r == Err(MissingCondition) <==> data.nodeType == Decision && data.condition == "")
      && (r.Err? ==> after == edges)
      && (r.Ok? ==> after == edges + [node] && r.value == |after| && |after| > 0)
  {
  }

  /** The parent setter never duplicates a parent, always leaves `node` among the parents, keeps the old ones in order, and a second call changes nothing. */
  lemma WithParentLaws<T>(parents: seq<T>, node: T)
    ensures Distinct(parents) ==> Distinct(WithParent(parents, node))
    ensures node in WithParent(parents, node)
    ensures forall x :: x in WithParent(parents, node) <==> x in parents || x == node
    ensures parents <= WithParent(parents, node)
    ensures WithParent(WithParent(parents, node), node) == WithParent(parents, node)
  {
  }

  /** The edges after `addEdge` is called with each of `targets` in turn, each call that throws being skipped. */
  function AddEdges<T>(data: NodeData, edges: seq<T>, targets: seq<T>): seq<T>
    decreases |targets|
  {
    if targets == [] then edges
    else AddEdgeStep(data, AddEdges(data, edges, targets[..|targets| - 1]), targets[|targets| - 1]).1
  }

  /** The edge limits a node keeps: a basic node has at most one edge, a decision node without a condition none. */
  predicate EdgesAllowed<T>(data: NodeData, edges: seq<T>) {
    && (data.nodeType == Basic ==> |edges| <= 1)
    && (data.nodeType == Decision && data.condition == "" ==> edges == [])
  }

  /**
   * However many edges are added, a basic node ends with at most one and a decision node
   * without a condition with none; a decision node with a condition gets every target, in order.
   */
  lemma {:induction false} AddEdgesLaws<T>(data: NodeData, edges: seq<T>, targets: seq<T>)
    ensures EdgesAllowed(data, edges) ==> EdgesAllowed(data, AddEdges(data, edges, targets))
    ensures data.nodeType == Decision && data.condition != "" ==> AddEdges(data, edges, targets) == edges + targets
    ensures data.nodeType == Basic && edges == [] && targets != [] ==> AddEdges(data, edges, targets) == [targets[0]]
    decreases |targets|
  {
    if targets != [] {
      var init := targets[..|targets| - 1];
      AddEdgesLaws(data, edges, init);
      if data.nodeType == Decision && data.condition != "" {
        assert edges + init + [targets[|targets| - 1]] == edges + targets;
      }
      if data.nodeType == Basic && edges == [] && init != [] {
        assert init[0] == targets[0];
      }
    }
  }

  // ---------------------------------------------------------------------------------------------
  // Choosing the next node

  /** `edges[0]`, or `undefined` without edges. */
  function FirstEdge(edges: seq<WorkflowNode>): (r: Option<WorkflowNode>)
    ensures r.Some? <==> |edges| > 0
    ensures r.Some? ==> r.value == edges[0]
  {
    if |edges| > 0 then Some(edges[0]) else None
  }

  /** `edges.find(node => node.id === id)` as an index: the first edge with that id, or -1. */
  function FindEdge(edges: seq<WorkflowNode>, id: string): (k: int)
    ensures -1 <= k < |edges|
    ensures k >= 0 ==> edges[k].data.id == id && forall j :: 0 <= j < k ==> edges[j].data.id != id
    ensures k < 0 <==> forall j :: 0 <= j < |edges| ==> edges[j].data.id != id
    decreases |edges|
  {
    if edges == [] then -1
    else if edges[0].data.id == id then 0
    else
      var k := FindEdge(edges[1..], id);
      if k < 0 then -1 else k + 1
  }

  /**
   * `evaluateCondition` with the worker's answer awaited: a non-empty string is the chosen id, a
   * failure is rethrown, and any other answer falls back to the first edge's id.
   */
  function EvaluateCondition(edges: seq<WorkflowNode>, outcome: WorkerOutcome): Result<Option<string>, NodeError> {
    match outcome
    case Threw => Err(ConditionFailed)
    case Returned(v) =>
      if v.StringValue? && v.s != "" then Ok(Some(v.s))
      else Ok(if |edges| > 0 then Some(edges[0].data.id) else None)
  }

  /**
   * `evaluateCondition` as written: `worker.run` is not awaited, so its value is a promise,
   * never a string, and a failure in the worker does not reach the `catch`; every call ends in
   * the fallback.
   */
  function EvaluateConditionAsWritten(edges: seq<WorkflowNode>, outcome: WorkerOutcome): Result<Option<string>, NodeError> {
    Ok(if |edges| > 0 then Some(edges[0].data.id) else None)
  }

  /** The choice in `next` once a decision node's condition produced `chosen`. */
  function ChooseNext(data: NodeData, edges: seq<WorkflowNode>, chosen: Option<string>): Result<Option<WorkflowNode>, NodeError> {
    if chosen.Some? && chosen.value != "" then
      var k := FindEdge(edges, chosen.value);
      if k < 0 then Err(NoEdgeForCondition(data.condition)) else Ok(Some(edges[k]))
    else Ok(FirstEdge(edges))
  }

  /**
   * `next` once a decision node's `evaluateCondition` has ended as `evaluated`: what it yields,
   * and what it throws after that (if anything). A node without a condition-driven choice ends
   * with its first edge. The source's `next` is this run with `EvaluateConditionAsWritten`; the
   * corrected one, with the answer awaited, is this run with `EvaluateCondition`.
   */
  function NextRun<E>(data: NodeData, hasExecutor: bool, edges: seq<WorkflowNode>, evaluated: Result<Option<string>, NodeError>, executed: seq<E>)
    : (seq<WorkflowResult<E>>, Option<NodeError>)
  {
    var start := [StartRun(data.id)];
    match data.nodeType
    case Decision =>
      (match evaluated
       case Err(e) => (start, Some(e))
       case Ok(chosen) =>
         match ChooseNext(data, edges, chosen)
         case Err(e) => (start, Some(e))
         case Ok(next) => (start + [EndRun(next)], None))
    case Basic =>
      if !hasExecutor then (start, Some(NotInitialized(data.name)))
      else (start + Executions(executed) + [EndRun(FirstEdge(edges))], None)
  }

  /** `yield*` of the executor's stream. */
  function Executions<E>(executed: seq<E>): (r: seq<WorkflowResult<E>>)
    ensures |r| == |executed|
    ensures forall k :: 0 <= k < |r| ==> r[k] == Executed(executed[k])
  {
    seq(|executed|, k requires 0 <= k < |executed| => Executed(executed[k]))
  }

  /**
   * `next` always yields `StartRun` first; when it does not throw it yields `EndRun` last and
   * nowhere else; when it throws, `StartRun` is all it yielded. A basic node without an executor
   * throws "not initialized", and otherwise passes the executor's stream through in order. This
   * holds whatever the condition's evaluation gave, so for the run as written and the awaited one.
   */
  lemma NextRunLaws<E>(data: NodeData, hasExecutor: bool, edges: seq<WorkflowNode>, evaluated: Result<Option<string>, NodeError>, executed: seq<E>)
    ensures var (ys, err) := NextRun(data, hasExecutor, edges, evaluated, executed);
      && |ys| > 0 && ys[0] == StartRun(data.id)
      && (err.Some? ==> ys == [StartRun(data.id)])
      && (err.None? ==> ys[|ys| - 1].EndRun? && forall k :: 0 <= k < |ys| - 1 ==> !ys[k].EndRun?)
      && (data.nodeType == Basic ==> (err.Some? <==> !hasExecutor) && (err.Some? ==> err.value == NotInitialized(data.name)))
      && (data.nodeType == Basic && hasExecutor ==> ys == [StartRun(data.id)] + Executions(executed) + [EndRun(FirstEdge(edges))])
  {
  }

  /**
   * With the condition's answer awaited: for a decision node whose condition names a non-empty
   * id, the run ends at the first edge with that id, and throws when no edge has it; an empty or
   * non-string answer keeps the first edge; a failing condition is rethrown.
   */
  lemma DecisionLaws<E>(data: NodeData, edges: seq<WorkflowNode>, outcome: WorkerOutcome, executed: seq<E>)
    requires data.nodeType == Decision
    ensures var (ys, err) := NextRun(data, false, edges, EvaluateCondition(edges, outcome), executed);
      && (outcome.Threw? ==> err == Some(ConditionFailed))
      && (outcome.Returned? && outcome.v.StringValue? && outcome.v.s != "" ==>
            var s := outcome.v.s;
            && ((exists k :: 0 <= k < |edges| && edges[k].data.id == s) <==> err.None?)
            && (err.None? ==> exists k :: 0 <= k < |edges| && edges[k].data.id == s && ys[1] == EndRun(Some(edges[k]))
                                           && forall j :: 0 <= j < k ==> edges[j].data.id != s)
            && (err.Some? ==> err.value == NoEdgeForCondition(data.condition)))
      && (outcome.Returned? && !(outcome.v.StringValue? && outcome.v.s != "") ==>
            err.None? && ys == [StartRun(data.id), EndRun(FirstEdge(edges))])
  {
    if outcome.Returned? && outcome.v.StringValue? && outcome.v.s != "" {
      var k := FindEdge(edges, outcome.v.s);
      if k >= 0 {
        assert edges[k].data.id == outcome.v.s;
      }
    } else if outcome.Returned? {
      if |edges| > 0 && edges[0].data.id != "" {
        assert FindEdge(edges, edges[0].data.id) == 0;
      }
    }
  }

  /**
   * As written, a decision node always ends at its first edge, whatever its condition says: the
   * fallback id is the first edge's own id, and looking it up finds the first edge again.
   */
  lemma AsWrittenIgnoresCondition(data: NodeData, edges: seq<WorkflowNode>, outcome: WorkerOutcome)
    ensures EvaluateConditionAsWritten(edges, outcome).Ok?
    ensures ChooseNext(data, edges, EvaluateConditionAsWritten(edges, outcome).value) == Ok(FirstEdge(edges))
  {
    if |edges| > 0 && edges[0].data.id != "" {
      assert FindEdge(edges, edges[0].data.id) == 0;
    }
  }

  /**
   * The source's `next` for a decision node: whatever the worker does, it never throws, and it
   * yields `StartRun` and then `EndRun` with the first edge.
   */
  lemma AsWrittenRun<E>(data: NodeData, hasExecutor: bool, edges: seq<WorkflowNode>, outcome: WorkerOutcome, executed: seq<E>)
    requires data.nodeType == Decision
    ensures NextRun(data, hasExecutor, edges, EvaluateConditionAsWritten(edges, outcome), executed)
      == ([StartRun(data.id), EndRun(FirstEdge(edges))], None)
  {
    var evaluated := EvaluateConditionAsWritten(edges, outcome);
    AsWrittenIgnoresCondition(data, edges, outcome);
    assert evaluated == Ok(evaluated.value);
    assert ChooseNext(data, edges, evaluated.value) == Ok(FirstEdge(edges));
    var start: seq<WorkflowResult<E>> := [StartRun(data.id)];
    assert start + [EndRun(FirstEdge(edges))] == [StartRun(data.id), EndRun(FirstEdge(edges))];
  }

  /**
   * The input that shows it: two edges with different ids and a condition that picks the second.
   * As written the first edge is taken; with the answer awaited the second one is.
   */
  lemma SecondEdgeChoice(data: NodeData, edges: seq<WorkflowNode>, outcome: WorkerOutcome)
    requires |edges| == 2 && edges[0].data.id != edges[1].data.id && edges[1].data.id != ""
    requires outcome == Returned(StringValue(edges[1].data.id))
    ensures ChooseNext(data, edges, EvaluateConditionAsWritten(edges, outcome).value) == Ok(Some(edges[0]))
    ensures ChooseNext(data, edges, EvaluateCondition(edges, outcome).value) == Ok(Some(edges[1]))
  {
    AsWrittenIgnoresCondition(data, edges, outcome);
    assert FindEdge(edges[1..], edges[1].data.id) == 0;
  }

  // ---------------------------------------------------------------------------------------------
  // The node

  class WorkflowNode {
    const data: NodeData
    /** Whether the node holds an executor (`this.executor` is set). */
    const hasExecutor: bool
    var edges: seq<WorkflowNode>
    var parents: seq<WorkflowNode>

    /**
     * The constructor once a basic node's executor was found among the `registry` of executor
     * types; `NewNode` is the whole construction, including the failed lookup.
     */
    constructor(data: NodeData, registry: set<string>)
      requires data.nodeType == Basic ==> data.executorType in registry
      ensures this.data == data && hasExecutor == (data.nodeType == Basic)
      ensures edges == [] && parents == []
      ensures Valid()
    {
      this.data := data;
      hasExecutor := data.nodeType == Basic;
      edges := [];
      parents := [];
    }

    /**
     * The invariant every method keeps: the edge limits hold, no parent is listed twice, and a
     * basic node holds its executor.
     */
    predicate Valid()
      reads this
    {
      EdgesAllowed(data, edges) && Distinct(parents) && (data.nodeType == Basic ==> hasExecutor)
    }

    /** `hasEdges`. */
    function HasEdges(): (r: bool)
      reads this
      ensures r <==> edges != []
    {
      |edges| > 0
    }

    /** The `parent` setter. */
    method SetParent(node: WorkflowNode)
      modifies this
      ensures parents == WithParent(old(parents), node)
      ensures edges == old(edges)
      ensures old(Valid()) ==> Valid()
    {
      WithParentLaws(parents, node);
      if node !in parents {
        parents := parents + [node];
      }
    }

    /**
     * `addEdge(node)`: throws as `AddEdgeStep` says and changes nothing then; otherwise records
     * this node as a parent of `node`, appends `node` to the edges and returns their number.
     * Both nodes keep their invariant.
     */
    method AddEdge(node: WorkflowNode) returns (r: Result<nat, NodeError>)
      modifies this, node
      ensures (r, edges) == AddEdgeStep(data, old(edges), node)
      ensures r.Ok? ==> node.parents == WithParent(old(node.parents), this) && HasEdges()
      ensures r.Err? ==> node.parents == old(node.parents)
      ensures node != this ==> parents == old(parents) && node.edges == old(node.edges)
      ensures old(Valid()) ==> Valid()
      ensures old(node.Valid()) ==> node.Valid()
    {
      if data.nodeType == Basic {
        if |edges| > 0 {
          return Err(BasicHasEdge);
        }
      } else if data.condition == "" {
        return Err(MissingCondition);
      }
      node.SetParent(this);
      edges := edges + [node];
      return Ok(|edges|);
    }

    /**
     * The corrected `next(params)`, with the condition's answer awaited, for a condition that ends
     * as `outcome` and an executor that yields `executed`: the results yielded, in order, and what
     * is thrown at the end, if anything. On a valid node "not initialized" is never thrown.
     */
    method Next<E>(outcome: WorkerOutcome, executed: seq<E>) returns (results: seq<WorkflowResult<E>>, error: Option<NodeError>)
      ensures (results, error) == NextRun(data, hasExecutor, edges, EvaluateCondition(edges, outcome), executed)
      ensures Valid() && error.Some? ==> !error.value.NotInitialized?
    {
      results := [StartRun(data.id)];
      var nextNode := FirstEdge(edges);
      if data.nodeType == Decision {
        var evaluated := EvaluateCondition(edges, outcome);
        if evaluated.Err? {
          return results, Some(evaluated.error);
        }
        var nextNodeId := evaluated.value;
        if nextNodeId.Some? && nextNodeId.value != "" {
          var k := FindEdge(edges, nextNodeId.value);
          if k < 0 {
            return results, Some(NoEdgeForCondition(data.condition));
          }
          nextNode := Some(edges[k]);
        }
      } else {
        if !hasExecutor {
          return results, Some(NotInitialized(data.name));
        }
        results := results + Executions(executed);
      }
      results := results + [EndRun(nextNode)];
      error := None;
    }
  }

  /**
   * `getWorkflowExecutor(type)` against the registered executor types: "not defined" for a type
   * nobody registered.
   */
  function ExecutorLookup(registry: set<string>, executorType: string): (r: Option<NodeError>)
    ensures r.Some? <==> executorType !in registry
    ensures r.Some? ==> r.value == ExecutorNotDefined(executorType)
  {
    if executorType in registry then None else Some(ExecutorNotDefined(executorType))
  }

  /**
   * `new WorkflowNode(data)`: a basic node whose executor type is not registered throws
   * "not defined" and no node is built; otherwise a fresh valid node with no edges and no
   * parents, holding its executor exactly when it is basic.
   */
  method NewNode(data: NodeData, registry: set<string>) returns (r: Result<WorkflowNode, NodeError>)
    ensures r.Err? <==> data.nodeType == Basic && data.executorType !in registry
    ensures r.Err? ==> r.error == ExecutorNotDefined(data.executorType)
    ensures r.Ok? ==> fresh(r.value) && r.value.data == data && r.value.edges == [] && r.value.parents == []
    ensures r.Ok? ==> r.value.Valid() && r.value.hasExecutor == (data.nodeType == Basic)
  {
    if data.nodeType == Basic {
      var failure := ExecutorLookup(registry, data.executorType);
      if failure.Some? {
        return Err(failure.value);
      }
    }
    var node := new WorkflowNode(data, registry);
    return Ok(node);
  }
}
