/** Which nodes some simulation visits, and which offences some simulation speaks: the exact
    relation between the edges the validator follows and those the simulator can take. */
module SimulatorCoverage {
  import opened Prelude
  import opened Text
  import opened ScriptGraph
  import opened GraphValidator
  import opened GraphTheorems
  import opened ScriptSimulator
  import opened SimulatorTheorems
  import opened ScriptCompiler
  import opened CompilerTheorems

  // ----- which transition of a node some input takes -----

  /** Any input that matches `t` already matches the earlier transition. */
  predicate Shadows(earlier: Transition, t: Transition) {
    || earlier.when == "always" || earlier.when == t.when
    || (earlier.when == "expression" && t.when in {"yes", "no"})
  }

  /** A condition that some input meets. */
  predicate Satisfiable(t: Transition) {
    t.when in {"always", "yes", "no", "no_response", "expression"}
  }

  /** Transition `j` can be taken: its condition can be met and no earlier transition shadows it. */
  ghost predicate Takeable(ts: seq<Transition>, j: int) {
    0 <= j < |ts| && Satisfiable(ts[j]) && forall i :: 0 <= i < j ==> !Shadows(ts[i], ts[j])
  }

  /** An input that meets a condition and as few others as possible. */
  function Prompt(id: string, when: string): SimulationInput {
    if when == "yes" || when == "no" then SimulationInput(id, Some(when), false)
    else if when == "no_response" then SimulationInput(id, None, true)
    else if when == "expression" then SimulationInput(id, Some("other"), false)
    else SimulationInput(id, None, false)
  }

  lemma LowerWords()
    ensures Lower("yes") == "yes" && Lower("no") == "no" && Lower("other") == "other" && Lower("") == ""
  {
  }

  lemma PromptMatches(id: string, when: string, inputs: Inputs, tr: Transition)
    requires id in inputs && inputs[id] == Prompt(id, when)
    ensures Matches(tr, inputs, id) <==>
      || tr.when == "always"
      || (when in {"yes", "no"} && (tr.when == when || tr.when == "expression"))
      || (when in {"no_response", "expression"} && tr.when == when)
  {
    LowerWords();
  }

  lemma {:induction false} FirstMatchIsTaken(ts: seq<Transition>, inputs: Inputs, id: string, j: nat)
    requires j < |ts| && Matches(ts[j], inputs, id) && forall i :: 0 <= i < j ==> !Matches(ts[i], inputs, id)
    ensures Taken(ts, inputs, id) == Some(ts[j])
  {
    if j > 0 { FirstMatchIsTaken(ts[1..], inputs, id, j - 1); }
  }

  lemma {:induction false} TakenIsFirst(ts: seq<Transition>, inputs: Inputs, id: string) returns (j: nat)
    requires Taken(ts, inputs, id).Some?
    ensures j < |ts| && Taken(ts, inputs, id) == Some(ts[j])
    ensures Matches(ts[j], inputs, id) && forall i :: 0 <= i < j ==> !Matches(ts[i], inputs, id)
  {
    if Matches(ts[0], inputs, id) { return 0; }
    var k := TakenIsFirst(ts[1..], inputs, id);
    j := k + 1;
    forall i | 0 <= i < j ensures !Matches(ts[i], inputs, id) {
      if i > 0 { assert ts[i] == ts[1..][i - 1]; }
    }
  }

  /** A takeable transition is taken on the input that prompts for it. */
  lemma PromptTakes(ts: seq<Transition>, inputs: Inputs, id: string, j: nat)
    requires Takeable(ts, j) && id in inputs && inputs[id] == Prompt(id, ts[j].when)
    ensures Taken(ts, inputs, id) == Some(ts[j])
  {
    PromptMatches(id, ts[j].when, inputs, ts[j]);
    forall i | 0 <= i < j ensures !Matches(ts[i], inputs, id) {
      assert !Shadows(ts[i], ts[j]);
      PromptMatches(id, ts[j].when, inputs, ts[i]);
    }
    FirstMatchIsTaken(ts, inputs, id, j);
  }

  lemma MatchMeansSatisfiable(tr: Transition, inputs: Inputs, id: string)
    requires Matches(tr, inputs, id)
    ensures Satisfiable(tr)
  {
  }

  lemma ShadowMatches(earlier: Transition, tr: Transition, inputs: Inputs, id: string)
    requires Matches(tr, inputs, id) && Shadows(earlier, tr)
    ensures Matches(earlier, inputs, id)
  {
    LowerWords();
  }

  /** The transition taken is a takeable one. */
  lemma TakenIsTakeable(ts: seq<Transition>, inputs: Inputs, id: string) returns (j: nat)
    requires Taken(ts, inputs, id).Some?
    ensures Takeable(ts, j) && Taken(ts, inputs, id) == Some(ts[j])
  {
    j := TakenIsFirst(ts, inputs, id);
    MatchMeansSatisfiable(ts[j], inputs, id);
    forall i | 0 <= i < j ensures !Shadows(ts[i], ts[j]) {
      if Shadows(ts[i], ts[j]) { ShadowMatches(ts[i], ts[j], inputs, id); }
    }
  }

  // ----- walks the simulator can take -----

  ghost predicate LeadsByTaking(g: Graph, u: string, v: string, j: int) {
    && u in g && Takeable(g[u].transitions, j)
    && var t := g[u].transitions[j];
    !t.endCall && t.nextNodeId == v && LeadsInto(g, t)
  }

  /** An edge that some input takes. */
  ghost predicate TakeableEdge(g: Graph, u: string, v: string) {
    exists j :: LeadsByTaking(g, u, v, j)
  }

  ghost predicate TakeableWalk(g: Graph, w: seq<string>) {
    w != [] && w[0] in g && forall i :: 0 < i < |w| ==> TakeableStep(g, w, i)
  }

  ghost predicate TakeableStep(g: Graph, w: seq<string>, i: int) {
    0 < i < |w| && TakeableEdge(g, w[i - 1], w[i])
  }

  lemma TakeableIsEdge(g: Graph, u: string, v: string)
    requires TakeableEdge(g, u, v)
    ensures Edge(g, u, v) && v in g
  {
    var j :| LeadsByTaking(g, u, v, j);
    assert g[u].transitions[j] in g[u].transitions;
  }

  lemma TakeableStays(g: Graph, w: seq<string>)
    requires TakeableWalk(g, w)
    ensures IsWalk(g, w) && forall v :: v in w ==> v in g
  {
    forall i | 0 < i < |w| ensures Edge(g, w[i - 1], w[i]) && w[i] in g {
      assert TakeableStep(g, w, i);
      TakeableIsEdge(g, w[i - 1], w[i]);
    }
  }

  /** A takeable walk cut to one without repetitions, between the same ends. */
  lemma {:induction false} CutTakeable(g: Graph, w: seq<string>) returns (s: seq<string>)
    requires TakeableWalk(g, w)
    ensures TakeableWalk(g, s) && Distinct(s)
    ensures s[0] == w[0] && s[|s| - 1] == w[|w| - 1] && forall v :: v in s ==> v in w
    decreases |w|
  {
    if Distinct(w) { return w; }
    var i, j :| 0 <= i < j < |w| && w[i] == w[j];
    var cut := w[..i] + w[j..];
    forall k | 0 < k < |cut| ensures TakeableStep(g, cut, k) {
      if k < i { assert TakeableStep(g, w, k); }
      else if k == i { assert TakeableStep(g, w, i); }
      else { assert TakeableStep(g, w, k + j - i); }
    }
    s := CutTakeable(g, cut);
  }

  // ----- from a walk to inputs -----

  lemma {:induction false} TakenFrame(ts: seq<Transition>, a: Inputs, b: Inputs, id: string)
    requires id in a <==> id in b
    requires id in a ==> a[id] == b[id]
    ensures Taken(ts, a, id) == Taken(ts, b, id)
  {
    if ts != [] { TakenFrame(ts[1..], a, b, id); }
  }

  /** The inputs lead from `w[i]` to `w[i + 1]`. */
  ghost predicate GuidesAt(g: Graph, inputs: Inputs, w: seq<string>, i: int) {
    0 <= i < |w| - 1 && NextId(TakenAt(g, inputs, w[i])) == w[i + 1]
  }

  ghost predicate Guides(g: Graph, inputs: Inputs, w: seq<string>, n: nat) {
    forall i :: 0 <= i < n ==> GuidesAt(g, inputs, w, i)
  }

  lemma GuideOneMore(g: Graph, inputs: seq<SimulationInput>, w: seq<string>, n: nat, j: nat)
    requires Distinct(w) && n < |w| - 1 && Guides(g, InputsMap(inputs), w, n) && LeadsByTaking(g, w[n], w[n + 1], j)
    ensures Guides(g, InputsMap(inputs + [Prompt(w[n], g[w[n]].transitions[j].when)]), w, n + 1)
  {
    var x := Prompt(w[n], g[w[n]].transitions[j].when);
    assert (inputs + [x])[..|inputs|] == inputs;
    var before, after := InputsMap(inputs), InputsMap(inputs + [x]);
    PromptTakes(g[w[n]].transitions, after, w[n], j);
    forall i | 0 <= i < n + 1 ensures GuidesAt(g, after, w, i) {
      if i < n {
        assert GuidesAt(g, before, w, i) && w[i] != w[n];
        if w[i] in g { TakenFrame(g[w[i]].transitions, before, after, w[i]); }
      }
    }
  }

  lemma {:induction false} GuideFor(g: Graph, w: seq<string>, n: nat) returns (inputs: seq<SimulationInput>)
    requires TakeableWalk(g, w) && Distinct(w) && n < |w|
    ensures Guides(g, InputsMap(inputs), w, n)
  {
    if n == 0 { return []; }
    inputs := GuideFor(g, w, n - 1);
    assert TakeableStep(g, w, n);
    var j :| LeadsByTaking(g, w[n - 1], w[n], j);
    GuideOneMore(g, inputs, w, n - 1, j);
    inputs := inputs + [Prompt(w[n - 1], g[w[n - 1]].transitions[j].when)];
  }

  lemma {:induction false} WalkOnExtends(g: Graph, inputs: Inputs, id: string, visited: set<string>, w: Walk)
    ensures w.nodePath <= WalkOn(g, inputs, id, visited, w).0.nodePath
    decreases g.Keys - visited
  {
    if id != "" && id in g && id !in visited {
      assert id in g.Keys - visited;
      var w', next := Visit(g, inputs, id, w), NextId(TakenAt(g, inputs, id));
      if !w'.completed && next != "" { WalkOnExtends(g, inputs, next, visited + {id}, w'); }
    }
  }

  /** A walk that is guided along `w` visits all of it. */
  lemma {:induction false} GuidedWalk(g: Graph, inputs: Inputs, w: seq<string>, k: nat, walk: Walk)
    requires k < |w| && Distinct(w) && (forall v :: v in w ==> v in g && v != "") && Guides(g, inputs, w, |w| - 1)
    requires walk.nodePath == w[..k] && !walk.completed
    ensures w <= WalkOn(g, inputs, w[k], Elements(w[..k]), walk).0.nodePath
    decreases |w| - k
  {
    var visited := Elements(w[..k]);
    assert w[k] !in w[..k] && w[k] in w;
    assert w[k] in g.Keys - visited;
    var walk', next := Visit(g, inputs, w[k], walk), NextId(TakenAt(g, inputs, w[k]));
    assert w[..k] + [w[k]] == w[..k + 1];
    ElementsOneMore(w[..k], w[k]);
    if k == |w| - 1 {
      assert walk'.nodePath == w;
      if !walk'.completed && next != "" { WalkOnExtends(g, inputs, next, visited + {w[k]}, walk'); }
    } else {
      assert GuidesAt(g, inputs, w, k) && w[k + 1] in w;
      GuidedWalk(g, inputs, w, k + 1, walk');
    }
  }

  ghost function PathOf(nodes: seq<Node>, entry: string, inputs: seq<SimulationInput>): seq<string> {
    Simulation(nodes, entry, inputs).walk.nodePath
  }

  /** Some inputs make the simulation visit a given takeable walk from the entry. */
  lemma SomeInputsVisit(nodes: seq<Node>, entry: string, w: seq<string>) returns (inputs: seq<SimulationInput>)
    requires TakeableWalk(ById(nodes), w) && Distinct(w) && w[0] == entry
    ensures w <= PathOf(nodes, entry, inputs)
  {
    var g := ById(nodes);
    inputs := GuideFor(g, w, |w| - 1);
    TakeableStays(g, w);
    ByIdKeys(nodes);
    assert w[..0] == [] && Elements<string>([]) == {};
    GuidedWalk(g, InputsMap(inputs), w, 0, START);
  }

  // ----- from a simulation to a walk -----

  /** What a simulation visits is a takeable walk. */
  lemma VisitedIsTakeable(nodes: seq<Node>, entry: string, inputs: seq<SimulationInput>, k: nat)
    requires k < |PathOf(nodes, entry, inputs)|
    ensures var w := PathOf(nodes, entry, inputs)[..k + 1]; TakeableWalk(ById(nodes), w) && w[0] == entry
  {
    var g, im, path := ById(nodes), InputsMap(inputs), PathOf(nodes, entry, inputs);
    EverySimulation(nodes, entry, inputs);
    assert path[0] in path;
    var w := path[..k + 1];
    forall i | 0 < i < |w| ensures TakeableStep(g, w, i) {
      var u, v := path[i - 1], path[i];
      assert FollowsAt(g, im, path, i) && u in path && v in path;
      TakenEdgeIsTakeable(g, im, u, v);
    }
  }

  lemma TakenEdgeIsTakeable(g: Graph, inputs: Inputs, u: string, v: string)
    requires u in g && v in g && v != "" && v == NextId(TakenAt(g, inputs, u))
    ensures TakeableEdge(g, u, v)
  {
    var j := TakenIsTakeable(g[u].transitions, inputs, u);
    assert LeadsByTaking(g, u, v, j);
  }

  // ----- the exact relation -----

  ghost predicate TakeableTo(g: Graph, w: seq<string>, entry: string, v: string) {
    TakeableWalk(g, w) && w[0] == entry && w[|w| - 1] == v
  }

  ghost predicate Visits(nodes: seq<Node>, entry: string, inputs: seq<SimulationInput>, v: string) {
    v in PathOf(nodes, entry, inputs)
  }

  lemma VisitIsTakeable(nodes: seq<Node>, entry: string, inputs: seq<SimulationInput>, v: string)
    requires Visits(nodes, entry, inputs, v)
    ensures exists w :: TakeableTo(ById(nodes), w, entry, v)
  {
    var path := PathOf(nodes, entry, inputs);
    var k: nat :| k < |path| && path[k] == v;
    VisitedIsTakeable(nodes, entry, inputs, k);
    assert TakeableTo(ById(nodes), path[..k + 1], entry, v);
  }

  lemma TakeableIsVisited(nodes: seq<Node>, entry: string, w: seq<string>, v: string)
    requires TakeableTo(ById(nodes), w, entry, v)
    ensures exists inputs :: Visits(nodes, entry, inputs, v)
  {
    var s := CutTakeable(ById(nodes), w);
    var inputs := SomeInputsVisit(nodes, entry, s);
    assert PathOf(nodes, entry, inputs)[|s| - 1] == s[|s| - 1];
    assert Visits(nodes, entry, inputs, v);
  }

  /** Some simulation visits a node exactly when a walk of takeable edges leads to it; the validator
      asks for a walk of any edges. */
  lemma VisitedExactly(nodes: seq<Node>, entry: string, v: string)
    ensures (exists inputs :: Visits(nodes, entry, inputs, v)) <==> (exists w :: TakeableTo(ById(nodes), w, entry, v))
  {
    if inputs :| Visits(nodes, entry, inputs, v) { VisitIsTakeable(nodes, entry, inputs, v); }
    if w :| TakeableTo(ById(nodes), w, entry, v) { TakeableIsVisited(nodes, entry, w, v); }
  }

  /** The first benefits prompt the simulation speaks is that of `b`, with no disclaimer at or
      before it. */
  ghost predicate SpeaksTooEarly(nodes: seq<Node>, entry: string, inputs: seq<SimulationInput>, b: string) {
    FirstOffenceIs(ById(nodes), PathOf(nodes, entry, inputs), b)
  }

  ghost predicate TakeableOffence(g: Graph, w: seq<string>, entry: string, b: string) {
    TakeableWalk(g, w) && OffendingWalk(g, w, entry, b)
  }

  lemma CutOffence(g: Graph, w: seq<string>, entry: string, b: string) returns (s: seq<string>)
    requires TakeableOffence(g, w, entry, b)
    ensures TakeableOffence(g, s, entry, b) && Distinct(s)
  {
    s := CutTakeable(g, w);
    TakeableStays(g, s);
    forall i | 0 <= i < |s| ensures !IsDisclaimer(g, s[i]) && (i < |s| - 1 ==> !IsBenefits(g, s[i])) {
      assert s[i] in w;
      var k :| 0 <= k < |w| && w[k] == s[i];
      if i < |s| - 1 { assert s[i] != s[|s| - 1]; }
    }
  }

  lemma SpokenIsOffence(nodes: seq<Node>, entry: string, inputs: seq<SimulationInput>, b: string)
    requires SpeaksTooEarly(nodes, entry, inputs, b)
    ensures exists w :: TakeableOffence(ById(nodes), w, entry, b)
  {
    var g, path := ById(nodes), PathOf(nodes, entry, inputs);
    ScanMeaning(g, path, b);
    var k: nat :| OffendsAt(g, path, k) && path[k] == b;
    VisitedIsTakeable(nodes, entry, inputs, k);
    TakeableStays(g, path[..k + 1]);
    assert TakeableOffence(g, path[..k + 1], entry, b);
  }

  lemma OffenceIsSpoken(nodes: seq<Node>, entry: string, w: seq<string>, b: string)
    requires TakeableOffence(ById(nodes), w, entry, b)
    ensures exists inputs :: SpeaksTooEarly(nodes, entry, inputs, b)
  {
    var g := ById(nodes);
    var s := CutOffence(g, w, entry, b);
    var inputs := SomeInputsVisit(nodes, entry, s);
    var path := PathOf(nodes, entry, inputs);
    OffendsAlongPrefix(g, s, path, entry, b);
    ScanMeaning(g, path, b);
    assert SpeaksTooEarly(nodes, entry, inputs, b);
  }

  /** Some inputs make the simulation speak benefits node `b` before any disclaimer exactly when an
      offending walk of takeable edges leads to it; the validator reports `b` when one of any edges
      does. */
  lemma SpokenExactly(nodes: seq<Node>, entry: string, b: string)
    ensures (exists inputs :: SpeaksTooEarly(nodes, entry, inputs, b)) <==>
      (exists w :: TakeableOffence(ById(nodes), w, entry, b))
  {
    if inputs :| SpeaksTooEarly(nodes, entry, inputs, b) { SpokenIsOffence(nodes, entry, inputs, b); }
    if w :| TakeableOffence(ById(nodes), w, entry, b) { OffenceIsSpoken(nodes, entry, w, b); }
  }

  // ----- where they differ -----

  /** The closing node of every compiled graph is reachable for the validator and visited by no
      simulation. */
  lemma ClosingNeverVisited(t: SimpleText, inputs: seq<SimulationInput>)
    ensures Reachable(ById(CompiledNodes(t)), "node-1", "node-disqualify")
    ensures !Visits(CompiledNodes(t), "node-1", inputs, "node-disqualify")
  {
    var n := |QuestionsOf(t)|;
    CompiledReachable(t, n + 3);
    CompiledSimulation(t, inputs);
    var path := PathOf(CompiledNodes(t), "node-1", inputs);
    forall i | 0 <= i < |path| ensures path[i] != "node-disqualify" {
      IdsDiffer(n, i, n + 3);
    }
  }

  ghost function EndingNode(): Node {
    Node("a", Greeting, "", "", "", "", false, 0, 0, false, [Transition("", "always", "b", true, "")], false, "", false)
  }

  ghost function BenefitsNode(): Node {
    Node("b", Statement, "", "", "", "", false, 0, 0, false, [], true, "", true)
  }

  lemma EndingGraph()
    ensures ById([EndingNode(), BenefitsNode()]) == map["a" := EndingNode(), "b" := BenefitsNode()]
  {
    var nodes := [EndingNode(), BenefitsNode()];
    assert nodes[..1] == [EndingNode()] && [EndingNode()][..0] == [];
  }

  /** A benefits node behind a transition that ends the call: the validator reports it, and no
      simulation speaks it. */
  lemma ReportedNeverSpoken(inputs: seq<SimulationInput>)
    ensures var nodes := [EndingNode(), BenefitsNode()];
            && BenefitsBeforeDisclaimer("b") in GraphErrors(nodes, "a", true)
            && !SpeaksTooEarly(nodes, "a", inputs, "b")
  {
    var nodes := [EndingNode(), BenefitsNode()];
    var g := ById(nodes);
    EndingGraph();
    assert EndingNode().transitions[0] in g["a"].transitions && LeadsInto(g, EndingNode().transitions[0]);
    assert Edge(g, "a", "b");
    assert OffendingWalk(g, ["a", "b"], "a", "b");
    ComplianceVerdict(nodes, "a", "b");
    SpokenExactly(nodes, "a", "b");
    forall w ensures !TakeableOffence(g, w, "a", "b") {
      if |w| > 1 && w[0] == "a" { assert !TakeableStep(g, w, 1); }
    }
  }
}
