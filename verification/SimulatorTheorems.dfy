/** What every simulation does, and what it cannot do on a graph the validator accepts. */
module SimulatorTheorems {
  import opened Prelude
  import opened ScriptGraph
  import opened GraphValidator
  import opened GraphTheorems
  import opened ScriptSimulator
  import opened Text

  ghost predicate FollowsAt(g: Graph, inputs: Inputs, path: seq<string>, i: int) {
    0 < i < |path| && path[i] != "" && path[i] == NextId(TakenAt(g, inputs, path[i - 1]))
  }

  ghost predicate Follows(g: Graph, inputs: Inputs, path: seq<string>) {
    forall i :: 0 < i < |path| ==> FollowsAt(g, inputs, path, i)
  }

  ghost function PromptsOf(g: Graph, path: seq<string>): seq<string> {
    seq(|path|, i requires 0 <= i < |path| => if path[i] in g then g[path[i]].prompt else "")
  }

  /** The disposition a taken transition sets; empty when it sets none. */
  ghost function DispositionSet(t: Option<Transition>): string {
    if t.Some? then t.value.disposition else ""
  }

  /** The last disposition set by a transition taken along a path. */
  ghost function DispositionOf(g: Graph, inputs: Inputs, path: seq<string>): Option<string> {
    if path == [] then None else
    var d := DispositionSet(TakenAt(g, inputs, path[|path| - 1]));
    if d != "" then Some(d) else DispositionOf(g, inputs, path[..|path| - 1])
  }

  /** For each capture field along a path, the last response given to one of its nodes. */
  ghost function CapturedOf(g: Graph, inputs: Inputs, path: seq<string>): map<string, string> {
    if path == [] then map[] else
    var last := path[|path| - 1];
    var earlier := CapturedOf(g, inputs, path[..|path| - 1]);
    if last in g && g[last].captureField != "" && Response(inputs, last).Some?
    then earlier[g[last].captureField := Response(inputs, last).value]
    else earlier
  }

  /** The identifier the loop was about to visit, or had just visited, when it stopped. */
  ghost function StopOf(nodes: seq<Node>, entry: string, inputs: seq<SimulationInput>): string {
    WalkOn(ById(nodes), InputsMap(inputs), entry, {}, START).1
  }

  /** A repetition-free trail that starts at the entry and follows the taken transitions. */
  ghost predicate Trail(g: Graph, inputs: Inputs, entry: string, path: seq<string>) {
    && Distinct(path)
    && (forall v :: v in path ==> v in g)
    && Follows(g, inputs, path)
    && (path != [] ==> path[0] == entry && entry != "")
  }

  /** The step reports node `id`, the response given there, the condition of the transition taken, and
      the response as captured if the node captures one. */
  ghost predicate Reports(g: Graph, inputs: Inputs, step: Step, i: nat, id: string) {
    && step.number == i + 1 && step.nodeId == id && id in g
    && step.nodeType == g[id].nodeType && step.prompt == g[id].prompt && step.capturedField == g[id].captureField
    && step.userResponse == (if id in inputs then inputs[id].userResponse else None)
    && (g[id].captureField == "" ==> step.capturedValue == None)
    && (g[id].captureField != "" ==> step.capturedValue == step.userResponse)
    && (step.transitionTaken.Some? <==> TakenAt(g, inputs, id).Some?)
    && (step.transitionTaken.Some? ==> step.transitionTaken.value == TakenAt(g, inputs, id).value.when)
  }

  /** The input for a node is the last one given for it. */
  lemma {:induction false} LastInputWins(inputs: seq<SimulationInput>, i: nat)
    requires i < |inputs| && forall j :: i < j < |inputs| ==> inputs[j].nodeId != inputs[i].nodeId
    ensures inputs[i].nodeId in InputsMap(inputs) && InputsMap(inputs)[inputs[i].nodeId] == inputs[i]
  {
    if i < |inputs| - 1 { LastInputWins(inputs[..|inputs| - 1], i); }
  }

  /** Which responses meet the condition of a transition. */
  lemma MatchesExactly(t: Transition, inputs: Inputs, id: string)
    ensures var said := if id in inputs && inputs[id].userResponse.Some? then inputs[id].userResponse.value else "";
            && (t.when == "always" ==> Matches(t, inputs, id))
            && (t.when == "yes" ==> (Matches(t, inputs, id) <==> Lower(said) == "yes"))
            && (t.when == "no" ==> (Matches(t, inputs, id) <==> Lower(said) == "no"))
            && (t.when == "no_response" ==> (Matches(t, inputs, id) <==> id in inputs && inputs[id].noResponse))
            && (t.when == "expression" ==> (Matches(t, inputs, id) <==> said != ""))
            && (t.when !in {"always", "yes", "no", "no_response", "expression"} ==> !Matches(t, inputs, id))
  {
    assert "always"[0] == 'a' && "yes"[0] == 'y' && "no_response"[1] == 'o' && "expression"[0] == 'e';
  }

  /** What was spoken, captured and concluded is a function of the nodes visited. */
  ghost predicate Recorded(g: Graph, inputs: Inputs, w: Walk) {
    && w.spokenPrompts == PromptsOf(g, w.nodePath)
    && |w.steps| == |w.nodePath|
    && (forall i :: 0 <= i < |w.steps| ==> Reports(g, inputs, w.steps[i], i, w.nodePath[i]))
    && w.finalDisposition == DispositionOf(g, inputs, w.nodePath)
    && w.capturedFields == CapturedOf(g, inputs, w.nodePath)
  }

  /** A finished walk is completed exactly when the last transition taken ends the call, and it
      stops only there, where no transition leads on, outside the graph, or at a node already
      visited. */
  ghost predicate Finished(g: Graph, inputs: Inputs, entry: string, w: Walk, stop: string) {
    var path := w.nodePath;
    && Trail(g, inputs, entry, path)
    && Recorded(g, inputs, w)
    && (path == [] <==> entry == "" || entry !in g)
    && (path == [] ==> stop == entry && !w.completed)
    && (path != [] ==>
          var t := TakenAt(g, inputs, path[|path| - 1]);
          && (w.completed <==> EndsCall(t))
          && (if NextId(t) == "" then stop == path[|path| - 1]
              else stop == NextId(t) && (stop !in g || stop in path)))
  }

  /** The same at the head of the loop, before node `id`. */
  ghost predicate Underway(g: Graph, inputs: Inputs, entry: string, w: Walk, id: string) {
    var path := w.nodePath;
    && Trail(g, inputs, entry, path)
    && Recorded(g, inputs, w)
    && !w.completed
    && (path == [] ==> id == entry)
    && (path != [] ==> id != "" && id == NextId(TakenAt(g, inputs, path[|path| - 1])))
  }

  lemma FollowsOneMore(g: Graph, inputs: Inputs, path: seq<string>, id: string)
    requires Follows(g, inputs, path) && id != ""
    requires path != [] ==> id == NextId(TakenAt(g, inputs, path[|path| - 1]))
    ensures Follows(g, inputs, path + [id])
  {
    var path' := path + [id];
    forall i | 0 < i < |path'| ensures FollowsAt(g, inputs, path', i) {
      if i < |path| { assert FollowsAt(g, inputs, path, i); }
    }
  }

  lemma VisitKeepsTrail(g: Graph, inputs: Inputs, entry: string, w: Walk, id: string)
    requires Underway(g, inputs, entry, w, id) && id != "" && id in g && id !in w.nodePath
    ensures Trail(g, inputs, entry, w.nodePath + [id])
  {
    FollowsOneMore(g, inputs, w.nodePath, id);
  }

  lemma VisitKeepsRecord(g: Graph, inputs: Inputs, w: Walk, id: string)
    requires Recorded(g, inputs, w) && id in g
    ensures Recorded(g, inputs, Visit(g, inputs, id, w))
  {
    var path := w.nodePath + [id];
    assert path[..|path| - 1] == w.nodePath && path[|path| - 1] == id;
    assert PromptsOf(g, path) == PromptsOf(g, w.nodePath) + [g[id].prompt];
  }

  lemma VisitOutcome(g: Graph, inputs: Inputs, entry: string, w: Walk, id: string)
    requires Underway(g, inputs, entry, w, id) && id != "" && id in g && id !in w.nodePath
    ensures var w', next := Visit(g, inputs, id, w), NextId(TakenAt(g, inputs, id));
            && (w'.completed || next == "" ==> Finished(g, inputs, entry, w', id))
            && (!w'.completed && next != "" ==> Underway(g, inputs, entry, w', next))
  {
    VisitKeepsTrail(g, inputs, entry, w, id);
    VisitKeepsRecord(g, inputs, w, id);
    var path := Visit(g, inputs, id, w).nodePath;
    assert path == w.nodePath + [id] && path[|path| - 1] == id;
  }

  lemma StopOutcome(g: Graph, inputs: Inputs, entry: string, w: Walk, id: string)
    requires Underway(g, inputs, entry, w, id) && (id == "" || id !in g || id in w.nodePath)
    ensures Finished(g, inputs, entry, w, id)
  {
  }

  /** From any point under way, what the rest of the walk returns is finished. */
  lemma {:induction false} WalkFinishes(
      g: Graph, inputs: Inputs, entry: string, id: string, visited: set<string>, w: Walk, end: Walk, stop: string)
    requires Underway(g, inputs, entry, w, id) && visited == Elements(w.nodePath)
    requires WalkOn(g, inputs, id, visited, w) == (end, stop)
    ensures Finished(g, inputs, entry, end, stop)
    decreases g.Keys - visited
  {
    if id == "" || id !in g || id in visited {
      StopOutcome(g, inputs, entry, w, id);
    } else {
      assert id in g.Keys - visited;
      var w', next := Visit(g, inputs, id, w), NextId(TakenAt(g, inputs, id));
      VisitOutcome(g, inputs, entry, w, id);
      if !w'.completed && next != "" {
        ElementsOneMore(w.nodePath, id);
        WalkFinishes(g, inputs, entry, next, visited + {id}, w', end, stop);
      }
    }
  }

  /** Every simulation of every node list, accepted or not. */
  lemma EverySimulation(nodes: seq<Node>, entry: string, inputs: seq<SimulationInput>)
    ensures var r := Simulation(nodes, entry, inputs);
            var stop := StopOf(nodes, entry, inputs);
            Finished(ById(nodes), InputsMap(inputs), entry, r.walk, stop)
            && (r.completed <==> r.walk.completed || stop !in ById(nodes))
            && (r.qualificationStatus == "qualified" <==> r.walk.finalDisposition == Some("qualified_transferred"))
            && r.qualificationStatus in {"qualified", "in_progress"}
    ensures |Simulation(nodes, entry, inputs).walk.nodePath| <= |ById(nodes)|
  {
    var g := ById(nodes);
    var (w, stop) := WalkOn(g, InputsMap(inputs), entry, {}, START);
    WalkFinishes(g, InputsMap(inputs), entry, entry, {}, START, w, stop);
    assert Finished(g, InputsMap(inputs), entry, w, stop);
    DistinctFits(w.nodePath, g.Keys);
  }

  /** A transition that is taken and does not end the call is an edge, unless it dangles. */
  lemma TakenIsEdge(g: Graph, inputs: Inputs, u: string, v: string)
    requires u in g && v == NextId(TakenAt(g, inputs, u)) && v != "" && v in g
    ensures Edge(g, u, v)
  {
    var t := TakenAt(g, inputs, u).value;
    assert t in g[u].transitions && LeadsInto(g, t);
  }

  lemma AcceptedStopsInside(nodes: seq<Node>, entry: string, inputs: Inputs, u: string)
    requires WellFormed(nodes, entry) && u in ById(nodes)
    ensures var next := NextId(TakenAt(ById(nodes), inputs, u)); next != "" ==> next in ById(nodes)
  {
    var g := ById(nodes);
    ByIdKeys(nodes);
    var t := TakenAt(g, inputs, u);
    if NextId(t) != "" {
      assert g[u] in nodes && t.value in g[u].transitions && !Dangles(g, t.value);
    }
  }

  /** On a graph accepted under the enforced rule, whatever the inputs: the walk starts at the
      entry, follows graph edges, repeats no node, reports `completed` exactly when the last
      transition taken ends the call, and speaks no benefits prompt before a disclaimer. */
  lemma AcceptedSimulation(nodes: seq<Node>, entry: string, inputs: seq<SimulationInput>)
    requires GraphErrors(nodes, entry, true) == []
    ensures var r := Simulation(nodes, entry, inputs);
            var g := ById(nodes);
            var path := r.walk.nodePath;
            && IsWalk(g, path) && path[0] == entry && Distinct(path)
            && r.walk.spokenPrompts == PromptsOf(g, path)
            && (r.completed <==> EndsCall(TakenAt(g, InputsMap(inputs), path[|path| - 1])))
            && (forall k :: 0 <= k < |path| && IsBenefits(g, path[k]) ==>
                 exists d :: 0 <= d <= k && IsDisclaimer(g, path[d]))
  {
    EnforcedVerdict(nodes, entry);
    WellFormedSimulation(nodes, entry, inputs);
    var g, path := ById(nodes), Simulation(nodes, entry, inputs).walk.nodePath;
    forall k | 0 <= k < |path| && IsBenefits(g, path[k])
      ensures exists d :: 0 <= d <= k && IsDisclaimer(g, path[d])
    {
      DisclaimerFirst(g, entry, path, k);
    }
  }

  /** On a well-formed graph the simulation walks along its edges and never leaves it. */
  lemma WellFormedSimulation(nodes: seq<Node>, entry: string, inputs: seq<SimulationInput>)
    requires WellFormed(nodes, entry)
    ensures var r := Simulation(nodes, entry, inputs);
            var g := ById(nodes);
            var path := r.walk.nodePath;
            && IsWalk(g, path) && path[0] == entry && Distinct(path)
            && r.walk.spokenPrompts == PromptsOf(g, path)
            && (r.completed <==> EndsCall(TakenAt(g, InputsMap(inputs), path[|path| - 1])))
  {
    EverySimulation(nodes, entry, inputs);
    ByIdKeys(nodes);
    var g, im, path := ById(nodes), InputsMap(inputs), Simulation(nodes, entry, inputs).walk.nodePath;
    AcceptedStopsInside(nodes, entry, im, path[|path| - 1]);
    TrailIsWalk(g, im, path);
  }

  lemma TrailIsWalk(g: Graph, inputs: Inputs, path: seq<string>)
    requires path != [] && (forall v :: v in path ==> v in g) && Follows(g, inputs, path)
    ensures IsWalk(g, path)
  {
    forall i | 0 < i < |path| ensures Edge(g, path[i - 1], path[i]) {
      assert FollowsAt(g, inputs, path, i) && path[i - 1] in path && path[i] in path;
      TakenIsEdge(g, inputs, path[i - 1], path[i]);
    }
  }

  lemma DisclaimerFirst(g: Graph, entry: string, path: seq<string>, k: nat)
    requires IsWalk(g, path) && path[0] == entry && k < |path| && IsBenefits(g, path[k])
    requires forall b :: !HasOffendingWalk(g, entry, b)
    ensures exists d :: 0 <= d <= k && IsDisclaimer(g, path[d])
    decreases k
  {
    if j :| 0 <= j < k && IsBenefits(g, path[j]) {
      DisclaimerFirst(g, entry, path, j);
    } else {
      var w := path[..k + 1];
      assert !HasOffendingWalk(g, entry, path[k]);
      assert !OffendingWalk(g, w, entry, path[k]);
      assert WalkFromTo(g, w, entry, path[k]);
    }
  }
}
