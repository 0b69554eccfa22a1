/** Every compiled graph is accepted, gives its texts back, and runs as the list of questions
    says. */
module CompilerTheorems {
  import opened Prelude
  import opened Text
  import opened ScriptGraph
  import opened GraphValidator
  import opened GraphTheorems
  import opened ScriptSimulator
  import opened SimulatorTheorems
  import opened ScriptCompiler

  // ----- round trip -----

  lemma ProjectSnoc(nodes: seq<Node>, n: Node)
    ensures ProjectAll(nodes + [n]) == Project(ProjectAll(nodes), n)
  {
    assert (nodes + [n])[..|nodes|] == nodes;
  }

  /** The nodes ask these questions. */
  ghost predicate Ask(asked: seq<Node>, qs: seq<string>) {
    |asked| == |qs| && forall i :: 0 <= i < |qs| ==> asked[i].nodeType == Question && asked[i].prompt == qs[i]
  }

  lemma ProjectOneMore(init: seq<Node>, n: Node, p: Projections, qs: seq<string>)
    requires n.nodeType == Question && ProjectAll(init) == p.(questions := p.questions + qs)
    ensures ProjectAll(init + [n]) == p.(questions := p.questions + (qs + [n.prompt]))
  {
    ProjectSnoc(init, n);
    assert p.questions + qs + [n.prompt] == p.questions + (qs + [n.prompt]);
  }

  lemma {:induction false} ProjectQuestions(front: seq<Node>, asked: seq<Node>, qs: seq<string>)
    requires Ask(asked, qs)
    ensures ProjectAll(front + asked) == ProjectAll(front).(questions := ProjectAll(front).questions + qs)
  {
    if qs == [] {
      assert front + asked == front && ProjectAll(front).questions + qs == ProjectAll(front).questions;
    } else {
      var n := |qs| - 1;
      ProjectQuestions(front, asked[..n], qs[..n]);
      ProjectOneMore(front + asked[..n], asked[n], ProjectAll(front), qs[..n]);
      assert front + asked[..n] + [asked[n]] == front + asked && qs[..n] + [qs[n]] == qs;
    }
  }

  lemma ProjectFront(greeting: Node, consent: Node)
    requires greeting.nodeType == Greeting && consent.nodeType == Consent
    ensures ProjectAll([greeting, consent]) == Projections(Some(greeting.prompt), Some(consent.prompt), [], None, None)
  {
    ProjectSnoc([], greeting);
    ProjectSnoc([greeting], consent);
    assert [] + [greeting] == [greeting] && [greeting] + [consent] == [greeting, consent];
  }

  lemma ProjectEnd(nodes: seq<Node>, transfer: Node, closing: Node)
    requires transfer.nodeType == Transfer && closing.nodeType == Closing
    requires ProjectAll(nodes).transferMsg.None? && ProjectAll(nodes).disqualifyMsg.None?
    ensures ProjectAll(nodes + [transfer, closing]) ==
      ProjectAll(nodes).(transferMsg := Some(transfer.prompt), disqualifyMsg := Some(closing.prompt))
  {
    ProjectSnoc(nodes, transfer);
    ProjectSnoc(nodes + [transfer], closing);
    assert nodes + [transfer, closing] == nodes + [transfer] + [closing];
  }

  /** The shape a compiled graph has. */
  lemma ProjectShape(greeting: Node, consent: Node, asked: seq<Node>, qs: seq<string>, transfer: Node, closing: Node)
    requires greeting.nodeType == Greeting && consent.nodeType == Consent
    requires transfer.nodeType == Transfer && closing.nodeType == Closing
    requires Ask(asked, qs)
    ensures ProjectAll([greeting, consent] + asked + [transfer, closing]) ==
      Projections(Some(greeting.prompt), Some(consent.prompt), qs, Some(transfer.prompt), Some(closing.prompt))
  {
    ProjectFront(greeting, consent);
    ProjectQuestions([greeting, consent], asked, qs);
    assert [] + qs == qs;
    ProjectEnd([greeting, consent] + asked, transfer, closing);
  }

  /** The projections of a compiled graph are its texts, defaults filled in, questions in order. */
  ghost predicate TextAt(nodes: seq<Node>, types: set<NodeType>, i: int) {
    0 <= i < |nodes| && nodes[i].nodeType in types && nodes[i].prompt != ""
  }

  /** The text is that of the first node of these types that says something; if there is none it is
      empty when a node of these types exists, and absent when none does. */
  ghost predicate FirstText(nodes: seq<Node>, types: set<NodeType>, text: Option<string>) {
    && (forall i :: TextAt(nodes, types, i) && (forall j :: 0 <= j < i ==> !TextAt(nodes, types, j)) ==>
          text == Some(nodes[i].prompt))
    && ((forall i :: !TextAt(nodes, types, i)) ==> text == if HasType(nodes, types) then Some("") else None)
  }

  ghost predicate HasType(nodes: seq<Node>, types: set<NodeType>) {
    exists n :: n in nodes && n.nodeType in types
  }

  function QuestionPrompts(nodes: seq<Node>): seq<string> {
    if nodes == [] then [] else
    var front, n := QuestionPrompts(nodes[..|nodes| - 1]), nodes[|nodes| - 1];
    if n.nodeType == Question then front + [n.prompt] else front
  }

  lemma {:induction false} SomeText(nodes: seq<Node>, types: set<NodeType>, i: int) returns (first: nat)
    requires TextAt(nodes, types, i)
    ensures TextAt(nodes, types, first) && forall j :: 0 <= j < first ==> !TextAt(nodes, types, j)
    decreases i
  {
    if j :| 0 <= j < i && TextAt(nodes, types, j) { first := SomeText(nodes, types, j); } else { first := i; }
  }

  /** One node more: it gives the text if it has one of the types and none was given before. */
  lemma TextOneMore(nodes: seq<Node>, types: set<NodeType>, n: Node, before: Option<string>, after: Option<string>)
    requires FirstText(nodes, types, before)
    requires after == Taking(types, n, before)
    ensures FirstText(nodes + [n], types, after)
  {
    var more := nodes + [n];
    assert HasType(more, types) <==> HasType(nodes, types) || n.nodeType in types by {
      if m :| m in nodes && m.nodeType in types { assert m in more; }
      assert n in more;
    }
    forall i | 0 <= i < |nodes| ensures TextAt(more, types, i) <==> TextAt(nodes, types, i) {}
    if i :| TextAt(nodes, types, i) {
      var first := SomeText(nodes, types, i);
      assert before == Some(nodes[first].prompt) && TextAt(more, types, first);
    } else {
      assert Unset(before);
      assert TextAt(more, types, |nodes|) <==> n.nodeType in types && n.prompt != "";
    }
  }

  function Taking(types: set<NodeType>, n: Node, before: Option<string>): Option<string> {
    if n.nodeType in types && Unset(before) then Some(n.prompt) else before
  }

  lemma OneNodeMore(p: Projections, n: Node)
    ensures var q := Project(p, n);
            && q.greeting == Taking({Greeting}, n, p.greeting) && q.consent == Taking({Consent}, n, p.consent)
            && q.transferMsg == Taking({Transfer}, n, p.transferMsg)
            && q.disqualifyMsg == Taking({Closing, OptOut}, n, p.disqualifyMsg)
            && q.questions == if n.nodeType == Question then p.questions + [n.prompt] else p.questions
  {
  }

  /** The projections of any graph: for each kind of text the first one that says something, and the
      prompts of all questions in order. */
  lemma {:induction false} ProjectionsExactly(nodes: seq<Node>)
    ensures var p := ProjectAll(nodes);
            && FirstText(nodes, {Greeting}, p.greeting) && FirstText(nodes, {Consent}, p.consent)
            && FirstText(nodes, {Transfer}, p.transferMsg) && FirstText(nodes, {Closing, OptOut}, p.disqualifyMsg)
            && p.questions == QuestionPrompts(nodes)
  {
    if nodes != [] {
      var front, n := nodes[..|nodes| - 1], nodes[|nodes| - 1];
      assert nodes == front + [n];
      ProjectionsExactly(front);
      var before, after := ProjectAll(front), Project(ProjectAll(front), n);
      OneNodeMore(before, n);
      TextOneMore(front, {Greeting}, n, before.greeting, after.greeting);
      TextOneMore(front, {Consent}, n, before.consent, after.consent);
      TextOneMore(front, {Transfer}, n, before.transferMsg, after.transferMsg);
      TextOneMore(front, {Closing, OptOut}, n, before.disqualifyMsg, after.disqualifyMsg);
    }
  }

  lemma ProjectionsOfCompiled(t: SimpleText)
    ensures ProjectAll(CompiledNodes(t)) == Projections(
              Some(OrDefault(t.greeting, DEFAULT_GREETING)),
              Some(OrDefault(t.consent, DEFAULT_CONSENT)),
              QuestionsOf(t),
              Some(OrDefault(t.transferMsg, DEFAULT_TRANSFER)),
              Some(OrDefault(t.disqualifyMsg, DEFAULT_DISQUALIFY)))
  {
    var qs := QuestionsOf(t);
    ProjectShape(GreetingNode(t), ConsentNode(t, |qs|), QuestionNodes(qs), qs, TransferNode(t), DisqualifyNode(t));
  }

  /** The text that stands in a compiled graph: the given one, unless it is absent or empty. */
  ghost predicate GivenOr(text: Option<string>, given: Option<string>, default: string) {
    && text.Some?
    && (given.Some? && given.value != "" ==> text == given)
    && (given.None? || given.value == "" ==> text == Some(default))
  }

  /** Texts that were not given are replaced, and so are questions, but not an empty list of them. */
  lemma CompiledTexts(t: SimpleText)
    ensures var p := ProjectAll(CompiledNodes(t));
            && GivenOr(p.greeting, t.greeting, "Hello, thank you for taking our call.")
            && GivenOr(p.consent, t.consent,
                       "This call is recorded for quality and compliance purposes. May we proceed?")
            && GivenOr(p.transferMsg, t.transferMsg, "Great news! Connecting you to a licensed Medicare verifier now.")
            && GivenOr(p.disqualifyMsg, t.disqualifyMsg, "Thank you for your time today. Goodbye.")
            && (t.questions.Some? ==> p.questions == t.questions.value)
            && (t.questions.None? ==> p.questions == ["Are you enrolled in Medicare Part A and B?"])
  {
    ProjectionsOfCompiled(t);
  }

  ghost function AsText(p: Projections): SimpleText {
    SimpleText(p.greeting, p.consent, Some(p.questions), p.transferMsg, p.disqualifyMsg)
  }

  /** Recompiling the projections of a compiled graph yields the same graph. */
  lemma RecompilationIsIdentity(t: SimpleText)
    ensures CompiledNodes(AsText(ProjectAll(CompiledNodes(t)))) == CompiledNodes(t)
  {
    ProjectionsOfCompiled(t);
  }

  // ----- identifiers -----

  lemma QuestionIdsDiffer(j: nat, k: nat)
    requires j != k
    ensures QuestionId(j) != QuestionId(k)
  {
    NumeralValue(j);
    NumeralValue(k);
    assert QuestionId(j)[6..] == Numeral(j) && QuestionId(k)[6..] == Numeral(k);
  }

  lemma QuestionIdIsNew(k: nat)
    ensures QuestionId(k) !in {"", "node-1", "node-2", "node-transfer", "node-disqualify"}
    ensures QuestionId(1) == "node-q1"
  {
    assert QuestionId(k)[5] == 'q';
  }

  /** The identifiers of the compiled nodes, by position. */
  ghost function IdAt(count: nat, i: nat): string
    requires i < count + 4
  {
    if i == 0 then "node-1" else if i == 1 then "node-2"
    else if i < count + 2 then QuestionId(i - 1)
    else if i == count + 2 then "node-transfer" else "node-disqualify"
  }

  lemma IdsDiffer(count: nat, i: nat, j: nat)
    requires i < j < count + 4
    ensures IdAt(count, i) != IdAt(count, j) && IdAt(count, i) != ""
  {
    if 2 <= i < count + 2 { QuestionIdIsNew(i - 1); }
    if 2 <= j < count + 2 { QuestionIdIsNew(j - 1); }
    if 2 <= i && j < count + 2 { QuestionIdsDiffer(i - 1, j - 1); }
  }

  lemma CompiledIndex(t: SimpleText)
    ensures var nodes, g, n := CompiledNodes(t), ById(CompiledNodes(t)), |QuestionsOf(t)|;
            |nodes| == n + 4 &&
            forall i :: 0 <= i < n + 4 ==> nodes[i].id == IdAt(n, i) && IdAt(n, i) in g && g[IdAt(n, i)] == nodes[i]
  {
    var nodes, g, n := CompiledNodes(t), ById(CompiledNodes(t)), |QuestionsOf(t)|;
    ByIdKeys(nodes);
    forall i | 0 <= i < n + 4
      ensures nodes[i].id == IdAt(n, i) && IdAt(n, i) in g && g[IdAt(n, i)] == nodes[i]
    {
      CompiledNodeId(t, i);
      if i + 1 < n + 4 { IdsDiffer(n, i, i + 1); } else { IdsDiffer(n, 0, i); }
      var id := IdAt(n, i);
      assert id in g && g[id] in nodes && g[id].id == id;
      var j :| 0 <= j < |nodes| && nodes[j] == g[id];
      CompiledNodeId(t, j);
      if i < j { IdsDiffer(n, i, j); } else if j < i { IdsDiffer(n, j, i); }
    }
  }

  lemma CompiledNodeId(t: SimpleText, i: nat)
    requires i < |QuestionsOf(t)| + 4
    ensures |CompiledNodes(t)| == |QuestionsOf(t)| + 4
    ensures CompiledNodes(t)[i].id == IdAt(|QuestionsOf(t)|, i)
    ensures CompiledNodes(t)[i] ==
      var n := |QuestionsOf(t)|;
      if i == 0 then GreetingNode(t) else if i == 1 then ConsentNode(t, n)
      else if i < n + 2 then QuestionNode(QuestionsOf(t)[i - 2], i - 1, n)
      else if i == n + 2 then TransferNode(t) else DisqualifyNode(t)
  {
  }

  // ----- acceptance -----

  lemma CompiledEdge(t: SimpleText, i: nat)
    requires i < |QuestionsOf(t)| + 2
    ensures var g, n := ById(CompiledNodes(t)), |QuestionsOf(t)|;
            Edge(g, IdAt(n, i), IdAt(n, i + 1)) && Edge(g, "node-2", "node-disqualify")
  {
    var g, n := ById(CompiledNodes(t)), |QuestionsOf(t)|;
    CompiledIndex(t);
    FirstTransition(t, i);
    var tr := CompiledNodes(t)[i].transitions[0];
    assert IdAt(n, i + 1) in g && tr in g[IdAt(n, i)].transitions;
    IdsDiffer(n, i, i + 1);
    IdsDiffer(n, i + 1, n + 3);
    assert LeadsInto(g, tr);
    assert IdAt(n, 1) == "node-2" && IdAt(n, n + 3) == "node-disqualify";
    CompiledNodeId(t, 1);
    var no := ConsentNode(t, n).transitions[1];
    assert g["node-2"].transitions[1] == no && LeadsInto(g, no);
  }

  lemma FirstTransition(t: SimpleText, i: nat)
    requires i < |QuestionsOf(t)| + 2
    ensures |CompiledNodes(t)| == |QuestionsOf(t)| + 4 && CompiledNodes(t)[i].transitions != []
    ensures CompiledNodes(t)[i].transitions[0].nextNodeId == IdAt(|QuestionsOf(t)|, i + 1)
  {
    CompiledNodeId(t, i);
    QuestionIdIsNew(1);
  }

  lemma {:induction false} CompiledReachable(t: SimpleText, i: nat)
    requires i < |QuestionsOf(t)| + 4
    ensures Reachable(ById(CompiledNodes(t)), "node-1", IdAt(|QuestionsOf(t)|, i))
  {
    var g, n := ById(CompiledNodes(t)), |QuestionsOf(t)|;
    CompiledIndex(t);
    if i == 0 {
      assert IdAt(n, 0) in g;
      assert WalkFromTo(g, ["node-1"], "node-1", "node-1");
    } else if i < n + 3 {
      CompiledReachable(t, i - 1);
      CompiledEdge(t, i - 1);
      ReachableByEdge(g, "node-1", IdAt(n, i - 1), IdAt(n, i));
    } else {
      CompiledReachable(t, 1);
      CompiledEdge(t, 0);
      ReachableByEdge(g, "node-1", "node-2", "node-disqualify");
    }
  }

  lemma CompiledTransitions(t: SimpleText, i: nat)
    requires i < |QuestionsOf(t)| + 4
    ensures |CompiledNodes(t)| == |QuestionsOf(t)| + 4
    ensures var n := CompiledNodes(t)[i];
            && n.transitions != [] && !n.discussesBenefits
            && forall tr :: tr in n.transitions ==> !Dangles(ById(CompiledNodes(t)), tr)
  {
    CompiledNodeId(t, i);
    CompiledIndex(t);
    var g, n := ById(CompiledNodes(t)), |QuestionsOf(t)|;
    if i < n + 2 {
      FirstTransition(t, i);
      assert IdAt(n, i + 1) in g;
    }
  }

  /** Every compiled graph passes the validator, with the disclaimer rule enforced or not. */
  lemma CompiledIsAccepted(t: SimpleText, enforce: bool)
    ensures GraphErrors(CompiledNodes(t), "node-1", enforce) == []
  {
    var nodes, g, n := CompiledNodes(t), ById(CompiledNodes(t)), |QuestionsOf(t)|;
    CompiledIndex(t);
    forall node | node in nodes
      ensures node.id != "" && node.transitions != [] && !node.discussesBenefits && Reachable(g, "node-1", node.id)
      ensures forall tr :: tr in node.transitions ==> !Dangles(g, tr)
    {
      var i :| 0 <= i < |nodes| && nodes[i] == node;
      CompiledTransitions(t, i);
      CompiledReachable(t, i);
      if i + 1 < n + 4 { IdsDiffer(n, i, i + 1); } else { IdsDiffer(n, 0, i); }
    }
    assert IdAt(n, 0) in g;
    assert WellFormed(nodes, "node-1");
    StructuralVerdict(nodes, "node-1");
    ByIdKeys(nodes);
    forall b ensures !HasOffendingWalk(g, "node-1", b) {
      assert !IsBenefits(g, b);
    }
    EnforcedVerdict(nodes, "node-1");
  }

  // ----- meaning -----

  datatype Answer = Yes | No | Other

  function AnswerAt(inputs: Inputs, id: string): Answer {
    var said := Lower(Response(inputs, id).GetOr(""));
    if said == "yes" then Yes else if said == "no" then No else Other
  }

  /** Which transition a compiled node takes. */
  lemma CompiledChoice(t: SimpleText, inputs: Inputs, i: nat)
    requires i < |QuestionsOf(t)| + 3
    ensures var g, n, node := ById(CompiledNodes(t)), |QuestionsOf(t)|, CompiledNodes(t)[i];
            TakenAt(g, inputs, IdAt(n, i)) ==
              if i == 0 || i == n + 2 then Some(node.transitions[0])
              else match AnswerAt(inputs, IdAt(n, i))
                case Yes => Some(node.transitions[0])
                case No => Some(node.transitions[1])
                case Other => None
  {
    CompiledIndex(t);
    CompiledNodeId(t, i);
    var n, node := |QuestionsOf(t)|, CompiledNodes(t)[i];
    var id, ts := IdAt(n, i), node.transitions;
    if 0 < i < n + 2 {
      assert |ts| == 2 && ts[0].when == "yes" && ts[1].when == "no";
      assert ts[1..] == [ts[1]] && ts[1..][1..] == [];
      assert Matches(ts[0], inputs, id) <==> AnswerAt(inputs, id) == Yes;
      assert Matches(ts[1], inputs, id) <==> AnswerAt(inputs, id) == No;
    }
  }

  /** Where a compiled node leads, whether it ends the call and the disposition it sets. */
  ghost predicate Moves(g: Graph, inputs: Inputs, n: nat, i: nat)
    requires i < n + 3
  {
    var t, answer := TakenAt(g, inputs, IdAt(n, i)), AnswerAt(inputs, IdAt(n, i));
    var asks := 0 < i < n + 2;
    && NextId(t) == (if i == 0 || (asks && answer == Yes) then IdAt(n, i + 1) else "")
    && (EndsCall(t) <==> asks && answer == No)
    && DispositionSet(t) == (if i == n + 2 then "qualified_transferred"
                             else if asks && answer == No then (if i == 1 then "opt_out" else "disqualified")
                             else "")
  }

  lemma CompiledMoves(t: SimpleText, inputs: Inputs, i: nat)
    requires i < |QuestionsOf(t)| + 3
    ensures Moves(ById(CompiledNodes(t)), inputs, |QuestionsOf(t)|, i)
  {
    CompiledChoice(t, inputs, i);
    CompiledNodeId(t, i);
    if i < |QuestionsOf(t)| + 2 { FirstTransition(t, i); }
  }

  lemma {:induction false} PathIsPrefix(g: Graph, inputs: Inputs, n: nat, path: seq<string>, m: nat)
    requires forall i: nat :: i < n + 3 ==> Moves(g, inputs, n, i)
    requires m < |path| && path[0] == IdAt(n, 0) && Follows(g, inputs, path)
    ensures m < n + 3 && path[m] == IdAt(n, m)
    ensures m >= 2 ==> AnswerAt(inputs, IdAt(n, m - 1)) == Yes
  {
    if m > 0 {
      PathIsPrefix(g, inputs, n, path, m - 1);
      assert FollowsAt(g, inputs, path, m);
      assert Moves(g, inputs, n, m - 1);
    }
  }

  /** The transition taken at position `i` sets no disposition. */
  ghost predicate SilentAt(g: Graph, inputs: Inputs, path: seq<string>, i: int) {
    0 <= i < |path| && DispositionSet(TakenAt(g, inputs, path[i])) == ""
  }

  lemma {:induction false} NothingSetBefore(g: Graph, inputs: Inputs, path: seq<string>, m: nat)
    requires m <= |path| && forall i :: 0 <= i < m ==> SilentAt(g, inputs, path, i)
    ensures DispositionOf(g, inputs, path[..m]) == None
  {
    if m > 0 {
      NothingSetBefore(g, inputs, path, m - 1);
      assert path[..m][..m - 1] == path[..m - 1];
      assert SilentAt(g, inputs, path, m - 1);
    }
  }

  /** Simulating a compiled graph equals going through the answers in order.  The walk visits
      greeting, consent and questions up to the first answer that is not yes.  A no to the
      consent opts out and a no to a question disqualifies, ending the call there; any other or
      missing answer stops there without a disposition.  When all answers are yes the walk
      reaches the transfer and reports `qualified_transferred`. */
  lemma CompiledSimulation(t: SimpleText, inputs: seq<SimulationInput>)
    ensures FollowsAnswers(Simulation(CompiledNodes(t), "node-1", inputs), InputsMap(inputs), |QuestionsOf(t)|)
  {
    var nodes, g, n := CompiledNodes(t), ById(CompiledNodes(t)), |QuestionsOf(t)|;
    var r, im, stop := Simulation(nodes, "node-1", inputs), InputsMap(inputs), StopOf(nodes, "node-1", inputs);
    EverySimulation(nodes, "node-1", inputs);
    forall i: nat | i < n + 3 ensures Moves(g, im, n, i) { CompiledMoves(t, im, i); }
    forall i: nat | i < n + 4 ensures IdAt(n, i) in g && IdAt(n, i) != "" {
      CompiledIndex(t);
      if i + 1 < n + 4 { IdsDiffer(n, i, i + 1); } else { IdsDiffer(n, 0, i); }
    }
    assert IdAt(n, 0) == "node-1";
    StopsAtAnswer(g, im, n, r, stop);
  }

  ghost predicate FollowsAnswers(r: Result, inputs: Inputs, n: nat) {
    var path, m := r.walk.nodePath, |r.walk.nodePath| - 1;
    && 1 <= m <= n + 2
    && (forall i :: 0 <= i <= m ==> path[i] == IdAt(n, i))
    && (forall i :: 1 <= i < m ==> AnswerAt(inputs, path[i]) == Yes)
    && (m == n + 2 ==>
          r.walk.finalDisposition == Some("qualified_transferred")
          && r.qualificationStatus == "qualified" && !r.completed)
    && (m < n + 2 ==>
          && AnswerAt(inputs, path[m]) != Yes
          && r.qualificationStatus == "in_progress"
          && (r.completed <==> AnswerAt(inputs, path[m]) == No)
          && r.walk.finalDisposition ==
              if AnswerAt(inputs, path[m]) == Other then None
              else if m == 1 then Some("opt_out") else Some("disqualified"))
  }

  lemma StopsAtAnswer(g: Graph, inputs: Inputs, n: nat, r: Result, stop: string)
    requires forall i: nat :: i < n + 3 ==> Moves(g, inputs, n, i)
    requires forall i: nat :: i < n + 4 ==> IdAt(n, i) in g && IdAt(n, i) != ""
    requires Finished(g, inputs, IdAt(n, 0), r.walk, stop) && (r.completed <==> r.walk.completed || stop !in g)
    requires r.qualificationStatus ==
      if r.walk.finalDisposition == Some("qualified_transferred") then "qualified" else "in_progress"
    ensures FollowsAnswers(r, inputs, n)
  {
    var path, m := r.walk.nodePath, |r.walk.nodePath| - 1;
    assert IdAt(n, 0) in g && IdAt(n, 0) != "";
    assert Follows(g, inputs, path) && path != [] && path[0] == IdAt(n, 0);
    FollowedPath(g, inputs, n, path);
    NextIsNew(n, path);
    OnlyLastSets(g, inputs, n, path);
    assert IdAt(n, m) in g && IdAt(n, m + 1) in g;
    LastAnswer(g, inputs, n, r, stop);
  }

  lemma MovesSilently(g: Graph, inputs: Inputs, n: nat, path: seq<string>, i: nat)
    requires i < |path| && i < n + 2 && path[i] == IdAt(n, i) && Moves(g, inputs, n, i)
    requires i > 0 ==> AnswerAt(inputs, IdAt(n, i)) == Yes
    ensures SilentAt(g, inputs, path, i)
  {
  }

  lemma OnlyLastSets(g: Graph, inputs: Inputs, n: nat, path: seq<string>)
    requires 0 < |path| <= n + 3
    requires forall i: nat :: i < |path| ==> path[i] == IdAt(n, i) && Moves(g, inputs, n, i)
    requires forall i: nat :: 0 < i < |path| - 1 ==> AnswerAt(inputs, IdAt(n, i)) == Yes
    ensures var d := DispositionSet(TakenAt(g, inputs, path[|path| - 1]));
            DispositionOf(g, inputs, path) == if d != "" then Some(d) else None
  {
    forall i: nat | i < |path| - 1 ensures SilentAt(g, inputs, path, i) {
      MovesSilently(g, inputs, n, path, i);
    }
    NothingSetBefore(g, inputs, path, |path| - 1);
  }

  /** The last node visited decides the outcome. */
  lemma LastAnswer(g: Graph, inputs: Inputs, n: nat, r: Result, stop: string)
    requires var path, m := r.walk.nodePath, |r.walk.nodePath| - 1;
      && 0 <= m < n + 3
      && (forall i: nat :: i <= m ==> path[i] == IdAt(n, i))
      && (forall i: nat :: 0 < i < m ==> AnswerAt(inputs, IdAt(n, i)) == Yes)
      && Moves(g, inputs, n, m)
      && IdAt(n, m) in g && IdAt(n, m) != "" && IdAt(n, m + 1) in g && IdAt(n, m + 1) != ""
      && IdAt(n, m + 1) !in path
      && var t := TakenAt(g, inputs, path[m]);
      && (r.walk.completed <==> EndsCall(t))
      && (if NextId(t) == "" then stop == path[m] else stop == NextId(t) && (stop !in g || stop in path))
      && (r.completed <==> r.walk.completed || stop !in g)
      && r.walk.finalDisposition == if DispositionSet(t) != "" then Some(DispositionSet(t)) else None
    requires r.qualificationStatus ==
      if r.walk.finalDisposition == Some("qualified_transferred") then "qualified" else "in_progress"
    ensures FollowsAnswers(r, inputs, n)
  {
    assert "opt_out" != "qualified_transferred" && "disqualified" != "qualified_transferred";
  }

  lemma FollowedPath(g: Graph, inputs: Inputs, n: nat, path: seq<string>)
    requires forall i: nat :: i < n + 3 ==> Moves(g, inputs, n, i)
    requires path != [] && path[0] == IdAt(n, 0) && Follows(g, inputs, path)
    ensures |path| <= n + 3
    ensures forall i: nat :: i < |path| ==> path[i] == IdAt(n, i)
    ensures forall i: nat :: 0 < i < |path| - 1 ==> AnswerAt(inputs, IdAt(n, i)) == Yes
  {
    PathIsPrefix(g, inputs, n, path, |path| - 1);
    forall i: nat | i < |path|
      ensures path[i] == IdAt(n, i) && (0 < i < |path| - 1 ==> AnswerAt(inputs, IdAt(n, i)) == Yes)
    {
      PathIsPrefix(g, inputs, n, path, i);
      if i < |path| - 1 { PathIsPrefix(g, inputs, n, path, i + 1); }
    }
  }

  lemma NextIsNew(n: nat, path: seq<string>)
    requires |path| <= n + 3 && forall i: nat :: i < |path| ==> path[i] == IdAt(n, i)
    ensures IdAt(n, |path|) !in path
  {
    forall i | 0 <= i < |path| ensures path[i] != IdAt(n, |path|) { IdsDiffer(n, i, |path|); }
  }
}
