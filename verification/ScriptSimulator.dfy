/** `simulate_version`, input-map walk: the interpreter of script graphs. */
module ScriptSimulator {
  import opened Prelude
  import opened ScriptGraph
  import opened Text

  datatype SimulationInput = SimulationInput(nodeId: string, userResponse: Option<string>, noResponse: bool)

  datatype Step = Step(
    number: nat,
    nodeId: string,
    nodeType: NodeType,
    prompt: string,
    userResponse: Option<string>,
    transitionTaken: Option<string>,
    capturedField: string,
    capturedValue: Option<string>)

  datatype Walk = Walk(
    nodePath: seq<string>,
    spokenPrompts: seq<string>,
    capturedFields: map<string, string>,
    steps: seq<Step>,
    finalDisposition: Option<string>,
    completed: bool)

  datatype Result = Result(walk: Walk, qualificationStatus: string, completed: bool)

  type Inputs = map<string, SimulationInput>

  const START := Walk([], [], map[], [], None, false)

  /** One input per node: the last one given wins. */
  function InputsMap(inputs: seq<SimulationInput>): Inputs {
    if inputs == [] then map[] else
    var last := inputs[|inputs| - 1];
    InputsMap(inputs[..|inputs| - 1])[last.nodeId := last]
  }

  function Response(inputs: Inputs, id: string): Option<string> {
    if id in inputs then inputs[id].userResponse else None
  }

  predicate Matches(tr: Transition, inputs: Inputs, id: string) {
    var resp := Response(inputs, id).GetOr("");
    || tr.when == "always"
    || (tr.when in {"yes", "no"} && Lower(resp) == tr.when)
    || (tr.when == "no_response" && id in inputs && inputs[id].noResponse)
    || (tr.when == "expression" && resp != "")
  }

  /** The first transition that matches the input given for the node. */
  function Taken(ts: seq<Transition>, inputs: Inputs, id: string): (t: Option<Transition>)
    ensures t.Some? ==> t.value in ts && Matches(t.value, inputs, id)
    ensures t.None? ==> forall tr :: tr in ts ==> !Matches(tr, inputs, id)
  {
    if ts == [] then None
    else if Matches(ts[0], inputs, id) then Some(ts[0])
    else
      assert forall tr :: tr in ts ==> tr == ts[0] || tr in ts[1..];
      Taken(ts[1..], inputs, id)
  }

  function TakenAt(g: Graph, inputs: Inputs, id: string): Option<Transition> {
    if id in g then Taken(g[id].transitions, inputs, id) else None
  }

  predicate EndsCall(t: Option<Transition>) {
    t.Some? && t.value.endCall
  }

  /** Where the walk goes next; empty when it stops. */
  function NextId(t: Option<Transition>): string {
    if t.Some? && !t.value.endCall then t.value.nextNodeId else ""
  }

  /** One turn of the loop at node `id`. */
  function Visit(g: Graph, inputs: Inputs, id: string, w: Walk): Walk
    requires id in g
  {
    var n := g[id];
    var resp := Response(inputs, id);
    var t := TakenAt(g, inputs, id);
    Walk(
      w.nodePath + [id],
      w.spokenPrompts + [n.prompt],
      if n.captureField != "" && resp.Some? then w.capturedFields[n.captureField := resp.value] else w.capturedFields,
      w.steps + [Step(|w.steps| + 1, id, n.nodeType, n.prompt, resp,
                      if t.Some? then Some(t.value.when) else None,
                      n.captureField, if n.captureField != "" then resp else None)],
      if t.Some? && t.value.disposition != "" then Some(t.value.disposition) else w.finalDisposition,
      w.completed || EndsCall(t))
  }

  /** The rest of the walk from `id`, with the identifier the loop stops at. */
  function WalkOn(g: Graph, inputs: Inputs, id: string, visited: set<string>, w: Walk): (Walk, string)
    decreases g.Keys - visited
  {
    if id == "" || id !in g || id in visited then (w, id) else
    assert id in g.Keys - visited;
    var next := NextId(TakenAt(g, inputs, id));
    var w' := Visit(g, inputs, id, w);
    if w'.completed || next == "" then (w', id) else WalkOn(g, inputs, next, visited + {id}, w')
  }

  function Simulation(nodes: seq<Node>, entry: string, inputs: seq<SimulationInput>): Result {
    var g := ById(nodes);
    var (w, stop) := WalkOn(g, InputsMap(inputs), entry, {}, START);
    Result(w,
           if w.finalDisposition == Some("qualified_transferred") then "qualified" else "in_progress",
           w.completed || stop !in g)
  }

  /** The loop over a node's transitions, up to the first match. */
  method FirstMatch(ts: seq<Transition>, inputs: Inputs, id: string) returns (t: Option<Transition>)
    ensures t == Taken(ts, inputs, id)
  {
    for k := 0 to |ts|
      invariant Taken(ts, inputs, id) == Taken(ts[k..], inputs, id)
    {
      if Matches(ts[k], inputs, id) { return Some(ts[k]); }
      assert ts[k..][1..] == ts[k + 1..];
    }
    t := None;
  }

  method IndexById(nodes: seq<Node>) returns (g: Graph)
    ensures g == ById(nodes)
  {
    g := map[];
    for i := 0 to |nodes|
      invariant g == ById(nodes[..i])
    {
      assert nodes[..i + 1][..i] == nodes[..i];
      if nodes[i].id != "" { g := g[nodes[i].id := nodes[i]]; }
    }
    assert nodes[..|nodes|] == nodes;
  }

  method IndexInputs(inputs: seq<SimulationInput>) returns (inputsMap: Inputs)
    ensures inputsMap == InputsMap(inputs)
  {
    inputsMap := map[];
    for i := 0 to |inputs|
      invariant inputsMap == InputsMap(inputs[..i])
    {
      assert inputs[..i + 1][..i] == inputs[..i];
      inputsMap := inputsMap[inputs[i].nodeId := inputs[i]];
    }
    assert inputs[..|inputs|] == inputs;
  }

  method Simulate(nodes: seq<Node>, entry: string, inputs: seq<SimulationInput>) returns (r: Result)
    ensures r == Simulation(nodes, entry, inputs)
  {
    var g := IndexById(nodes);
    var inputsMap := IndexInputs(inputs);
    var curr, visited, stepNum := entry, {}, 1;
    var nodePath, spokenPrompts, steps := [], [], [];
    var capturedFields: map<string, string> := map[];
    var finalDisposition, completed := None, false;
    ghost var goal := WalkOn(g, inputsMap, entry, {}, START);
    while curr != "" && curr in g && curr !in visited
      invariant !completed && stepNum == |steps| + 1
      invariant WalkOn(g, inputsMap, curr, visited,
        Walk(nodePath, spokenPrompts, capturedFields, steps, finalDisposition, completed)) == goal
      decreases g.Keys - visited
    {
      assert curr in g.Keys - visited;
      visited := visited + {curr};
      nodePath := nodePath + [curr];
      var node := g[curr];
      spokenPrompts := spokenPrompts + [node.prompt];
      var userResp := if curr in inputsMap then inputsMap[curr].userResponse else None;
      if node.captureField != "" && userResp.Some? {
        capturedFields := capturedFields[node.captureField := userResp.value];
      }
      var nextNodeId, transitionTaken := "", None;
      var matched := FirstMatch(node.transitions, inputsMap, curr);
      if matched.Some? {
        var tr := matched.value;
        transitionTaken := Some(tr.when);
        if tr.disposition != "" { finalDisposition := Some(tr.disposition); }
        if tr.endCall { completed := true; } else { nextNodeId := tr.nextNodeId; }
      }
      steps := steps + [Step(stepNum, curr, node.nodeType, node.prompt, userResp, transitionTaken,
                             node.captureField, if node.captureField != "" then userResp else None)];
      if completed || nextNodeId == "" { break; }
      curr := nextNodeId;
      stepNum := stepNum + 1;
    }
    var walk := Walk(nodePath, spokenPrompts, capturedFields, steps, finalDisposition, completed);
    r := Result(walk,
                if finalDisposition == Some("qualified_transferred") then "qualified" else "in_progress",
                completed || curr !in g);
  }
}
