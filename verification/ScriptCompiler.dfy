/** `_nodes_from_simple_text` and `_extract_projections`: prompt texts to node graph and back. */
module ScriptCompiler {
  import opened Prelude
  import opened ScriptGraph
  import opened Text

  datatype SimpleText = SimpleText(
    greeting: Option<string>,
    consent: Option<string>,
    questions: Option<seq<string>>,
    transferMsg: Option<string>,
    disqualifyMsg: Option<string>)

  /** The projections of a graph; `None` for a text no node supplies. */
  datatype Projections = Projections(
    greeting: Option<string>,
    consent: Option<string>,
    questions: seq<string>,
    transferMsg: Option<string>,
    disqualifyMsg: Option<string>)

  const DEFAULT_GREETING := "Hello, thank you for taking our call."
  const DEFAULT_CONSENT := "This call is recorded for quality and compliance purposes. May we proceed?"
  const DEFAULT_QUESTION := "Are you enrolled in Medicare Part A and B?"
  const DEFAULT_TRANSFER := "Great news! Connecting you to a licensed Medicare verifier now."
  const DEFAULT_DISQUALIFY := "Thank you for your time today. Goodbye."

  /** Absent and empty texts are replaced. */
  function OrDefault(text: Option<string>, default: string): string {
    if text.Some? && text.value != "" then text.value else default
  }

  function QuestionsOf(t: SimpleText): seq<string> {
    t.questions.GetOr([DEFAULT_QUESTION])
  }

  function QuestionId(k: nat): string {
    "node-q" + Numeral(k)
  }

  function GreetingNode(t: SimpleText): Node {
    Node("node-1", Greeting, "Greeting", OrDefault(t.greeting, DEFAULT_GREETING), "", "", true, 1, 5000, true,
         [Transition("tr-1", "always", "node-2", false, "")], false, "", false)
  }

  function ConsentNode(t: SimpleText, count: nat): Node {
    Node("node-2", Consent, "TCPA Consent", OrDefault(t.consent, DEFAULT_CONSENT), "tcpa_consent", "boolean",
         true, 2, 5000, true,
         [Transition("tr-2a", "yes", if count > 0 then "node-q1" else "node-transfer", false, ""),
          Transition("tr-2b", "no", "node-disqualify", true, "opt_out")], false, "", false)
  }

  /** The `k`-th of `count` questions, counted from 1. */
  function QuestionNode(prompt: string, k: nat, count: nat): Node {
    Node(QuestionId(k), Question, "Qualification Q" + Numeral(k), prompt, "qual_q" + Numeral(k), "boolean",
         true, 2, 5000, true,
         [Transition("tr-q" + Numeral(k) + "a", "yes",
                     if k < count then QuestionId(k + 1) else "node-transfer", false, ""),
          Transition("tr-q" + Numeral(k) + "b", "no", "node-disqualify", true, "disqualified")], false, "", false)
  }

  function TransferNode(t: SimpleText): Node {
    Node("node-transfer", Transfer, "Verifier Handoff", OrDefault(t.transferMsg, DEFAULT_TRANSFER), "", "",
         false, 1, 5000, false,
         [Transition("tr-t1", "always", "", false, "qualified_transferred")], false, "", false)
  }

  function DisqualifyNode(t: SimpleText): Node {
    Node("node-disqualify", Closing, "Disqualification Closing", OrDefault(t.disqualifyMsg, DEFAULT_DISQUALIFY), "", "",
         false, 1, 5000, false,
         [Transition("tr-d1", "always", "", true, "disqualified")], false, "", false)
  }

  function QuestionNodes(qs: seq<string>): seq<Node> {
    seq(|qs|, i requires 0 <= i < |qs| => QuestionNode(qs[i], i + 1, |qs|))
  }

  function CompiledNodes(t: SimpleText): seq<Node> {
    [GreetingNode(t), ConsentNode(t, |QuestionsOf(t)|)] + QuestionNodes(QuestionsOf(t))
      + [TransferNode(t), DisqualifyNode(t)]
  }

  /** The loop over the questions. */
  method AppendQuestions(front: seq<Node>, qList: seq<string>) returns (nodes: seq<Node>)
    ensures nodes == front + QuestionNodes(qList)
  {
    nodes := front;
    for i := 0 to |qList|
      invariant nodes == front + QuestionNodes(qList)[..i]
    {
      SliceOneMore(QuestionNodes(qList), i);
      nodes := nodes + [QuestionNode(qList[i], i + 1, |qList|)];
    }
    assert QuestionNodes(qList)[..|qList|] == QuestionNodes(qList);
  }

  method NodesFromSimpleText(t: SimpleText) returns (entryId: string, nodes: seq<Node>)
    ensures entryId == "node-1" && nodes == CompiledNodes(t)
  {
    entryId := "node-1";
    nodes := [GreetingNode(t)];
    var qList := if t.questions.Some? then t.questions.value else [DEFAULT_QUESTION];
    nodes := nodes + [ConsentNode(t, |qList|)];
    ghost var front := nodes;
    nodes := AppendQuestions(nodes, qList);
    nodes := nodes + [TransferNode(t)] + [DisqualifyNode(t)];
    Assembled(front, QuestionNodes(qList), TransferNode(t), DisqualifyNode(t));
  }

  lemma SliceOneMore(s: seq<Node>, i: nat)
    requires i < |s|
    ensures s[..i + 1] == s[..i] + [s[i]]
  {
  }

  lemma Assembled(front: seq<Node>, middle: seq<Node>, a: Node, b: Node)
    ensures front + middle + [a] + [b] == front + middle + [a, b]
  {
  }

  // ----- projections -----

  predicate Unset(text: Option<string>) {
    text.None? || text.value == ""
  }

  function Project(p: Projections, n: Node): Projections {
    if n.nodeType == Greeting && Unset(p.greeting) then p.(greeting := Some(n.prompt))
    else if n.nodeType == Consent && Unset(p.consent) then p.(consent := Some(n.prompt))
    else if n.nodeType == Question then p.(questions := p.questions + [n.prompt])
    else if n.nodeType == Transfer && Unset(p.transferMsg) then p.(transferMsg := Some(n.prompt))
    else if n.nodeType in {Closing, OptOut} && Unset(p.disqualifyMsg) then p.(disqualifyMsg := Some(n.prompt))
    else p
  }

  function ProjectAll(nodes: seq<Node>): Projections {
    if nodes == [] then Projections(None, None, [], None, None)
    else Project(ProjectAll(nodes[..|nodes| - 1]), nodes[|nodes| - 1])
  }

  method ExtractProjections(nodes: seq<Node>) returns (p: Projections)
    ensures p == ProjectAll(nodes)
  {
    var greeting, consent, transferMsg, disqualifyMsg := None, None, None, None;
    var questions := [];
    for i := 0 to |nodes|
      invariant Projections(greeting, consent, questions, transferMsg, disqualifyMsg) == ProjectAll(nodes[..i])
    {
      assert nodes[..i + 1][..i] == nodes[..i];
      var n := nodes[i];
      if n.nodeType == Greeting && Unset(greeting) { greeting := Some(n.prompt); }
      else if n.nodeType == Consent && Unset(consent) { consent := Some(n.prompt); }
      else if n.nodeType == Question { questions := questions + [n.prompt]; }
      else if n.nodeType == Transfer && Unset(transferMsg) { transferMsg := Some(n.prompt); }
      else if n.nodeType in {Closing, OptOut} && Unset(disqualifyMsg) { disqualifyMsg := Some(n.prompt); }
    }
    assert nodes[..|nodes|] == nodes;
    p := Projections(greeting, consent, questions, transferMsg, disqualifyMsg);
  }
}
