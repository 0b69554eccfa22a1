/** What each lifecycle operation does to the versions of a script, and what a version says after any
    run: what its last accepted write asked for. */
module LifecycleEffects {
  import opened Prelude
  import opened ScriptGraph
  import opened GraphTheorems
  import opened ScriptCompiler
  import opened CompilerTheorems
  import opened ScriptLifecycle
  import opened LifecycleTheorems
  import opened Transitions

  // ----- what an update asks for -----

  ghost predicate Says(text: Option<string>) {
    text.Some? && text.value != ""
  }

  /** The payload carries a text or a question. */
  ghost predicate GivesText(t: SimpleText) {
    || Says(t.greeting) || Says(t.consent) || (t.questions.Some? && |t.questions.value| > 0)
    || Says(t.transferMsg) || Says(t.disqualifyMsg)
  }

  /** The content an update asks for: the given nodes; without nodes the given text, compiled, which
      reads back as that text with its defaults; without either the old nodes.  An entry that is not
      given is the old one. */
  ghost predicate Asked(was: Content, p: UpdatePayload, c: Content) {
    && (p.nodes.Some? ==> c.nodes == p.nodes.value)
    && (p.nodes.None? && GivesText(p.text) ==>
          && c.entry == "node-1" && c.nodes == CompiledNodes(p.text)
          && ProjectAll(c.nodes).questions == QuestionsOf(p.text)
          && (Says(p.text.greeting) ==> ProjectAll(c.nodes).greeting == p.text.greeting)
          && (Says(p.text.consent) ==> ProjectAll(c.nodes).consent == p.text.consent)
          && (Says(p.text.transferMsg) ==> ProjectAll(c.nodes).transferMsg == p.text.transferMsg)
          && (Says(p.text.disqualifyMsg) ==> ProjectAll(c.nodes).disqualifyMsg == p.text.disqualifyMsg))
    && (p.nodes.None? && !GivesText(p.text) ==> c.nodes == was.nodes)
    && (p.nodes.Some? || !GivesText(p.text) ==>
         (p.entry != "" ==> c.entry == p.entry) && (p.entry == "" ==> c.entry == was.entry))
  }

  lemma AskedIsOne(was: Content, p: UpdatePayload, c: Content, d: Content)
    requires Asked(was, p, c) && Asked(was, p, d)
    ensures c == d
  {
  }

  /** Version `i + 1` is now `v`, and nothing else has changed but, perhaps, the script's status. */
  ghost predicate Replaced(s: ScriptState, after: ScriptState, i: nat, v: Version) {
    && i < |s.versions| == |after.versions| && after.versions[i] == v
    && (forall j :: 0 <= j < |s.versions| && j != i ==> after.versions[j] == s.versions[j])
    && after.activeVersion == s.activeVersion && after.currentVersion == s.currentVersion
  }

  /** What an update may answer and change, given the content it asks for. */
  ghost predicate UpdateOutcome(
      s: ScriptState, n: nat, p: UpdatePayload, c: Content, after: ScriptState, reply: Reply) {
    && (reply == NotFound <==> !(1 <= n <= |s.versions|))
    && (reply == NotEditable <==> 1 <= n <= |s.versions| && s.versions[n - 1].status != Draft)
    && (reply != Done ==> after == s)
    && (1 <= n <= |s.versions| && s.versions[n - 1].status == Draft ==>
          && Asked(s.versions[n - 1].content, p, c)
          && (reply == InvalidGraph <==> !WellFormed(c.nodes, c.entry))
          && (reply == Done <==> WellFormed(c.nodes, c.entry))
          && (reply == Done ==>
                after.status == s.status && Replaced(s, after, n - 1, s.versions[n - 1].(content := c))))
  }

  /** An update of a draft stores the content it asks for, exactly if that is well formed. */
  lemma UpdateExactly(s: ScriptState, n: nat, p: UpdatePayload) returns (c: Content)
    requires Valid(s)
    ensures UpdateOutcome(s, n, p, c, Perform(s, Update(n, p)).0, Perform(s, Update(n, p)).1)
  {
    FindByNumber(s, n);
    c := Content("", []);
    if 1 <= n <= |s.versions| {
      c := UpdatedContent(s.versions[n - 1].content, p);
      UpdateAsks(s.versions[n - 1].content, p);
      UpdateReplies(s, n - 1, p, c);
    }
    var (after, reply) := Perform(s, Update(n, p));
    OutcomeOfReply(s, n, p, c, after, reply);
  }

  lemma OutcomeOfReply(s: ScriptState, n: nat, p: UpdatePayload, c: Content, after: ScriptState, reply: Reply)
    requires !(1 <= n <= |s.versions|) ==> after == s && reply == NotFound
    requires 1 <= n <= |s.versions| ==>
      && Asked(s.versions[n - 1].content, p, c)
      && (s.versions[n - 1].status != Draft ==> after == s && reply == NotEditable)
      && (s.versions[n - 1].status == Draft && !WellFormed(c.nodes, c.entry) ==> after == s && reply == InvalidGraph)
      && (s.versions[n - 1].status == Draft && WellFormed(c.nodes, c.entry) ==>
            after == SetVersion(s, n - 1, s.versions[n - 1].(content := c)) && reply == Done)
    ensures UpdateOutcome(s, n, p, c, after, reply)
  {
  }

  lemma UpdateReplies(s: ScriptState, i: nat, p: UpdatePayload, c: Content)
    requires i < |s.versions| && Find(s.versions, i + 1) == Some(i) && c == UpdatedContent(s.versions[i].content, p)
    ensures s.versions[i].status != Draft ==> Perform(s, Update(i + 1, p)) == (s, NotEditable)
    ensures s.versions[i].status == Draft && !WellFormed(c.nodes, c.entry) ==>
      Perform(s, Update(i + 1, p)) == (s, InvalidGraph)
    ensures s.versions[i].status == Draft && WellFormed(c.nodes, c.entry) ==>
      Perform(s, Update(i + 1, p)) == (SetVersion(s, i, s.versions[i].(content := c)), Done)
  {
    if s.versions[i].status == Draft {
      if WellFormed(c.nodes, c.entry) { GoodUpdate(s, i, p, c); } else { BadUpdate(s, i, p, c); }
    }
  }

  lemma GoodUpdate(s: ScriptState, i: nat, p: UpdatePayload, c: Content)
    requires i < |s.versions| && Find(s.versions, i + 1) == Some(i) && c == UpdatedContent(s.versions[i].content, p)
    requires s.versions[i].status == Draft && WellFormed(c.nodes, c.entry)
    ensures Perform(s, Update(i + 1, p)) == (SetVersion(s, i, s.versions[i].(content := c)), Done)
  {
  }

  lemma BadUpdate(s: ScriptState, i: nat, p: UpdatePayload, c: Content)
    requires i < |s.versions| && Find(s.versions, i + 1) == Some(i) && c == UpdatedContent(s.versions[i].content, p)
    requires s.versions[i].status == Draft && !WellFormed(c.nodes, c.entry)
    ensures Perform(s, Update(i + 1, p)) == (s, InvalidGraph)
  {
  }

  lemma UpdateAsks(was: Content, p: UpdatePayload)
    ensures Asked(was, p, UpdatedContent(was, p))
  {
    ProjectionsOfCompiled(p.text);
  }

  /** The version a creation starts from: the one it names, or else the newest. */
  ghost predicate StartsFrom(s: ScriptState, fromVersion: Option<nat>, base: nat) {
    && base < |s.versions|
    && (if fromVersion.Some? && 1 <= fromVersion.value <= |s.versions| then base == fromVersion.value - 1
        else base == |s.versions| - 1)
  }

  /** The content a creation asks for, given the version it starts from. */
  ghost predicate AskedNew(base: Content, entry: string, nodes: Option<seq<Node>>, c: Content) {
    && (nodes.Some? ==> c.nodes == nodes.value) && (nodes.None? ==> c.nodes == base.nodes)
    && (entry != "" ==> c.entry == entry) && (entry == "" ==> c.entry == base.entry)
  }

  /** A creation appends an unsigned draft with the next number and leaves all else alone. */
  lemma CreateExactly(s: ScriptState, fromVersion: Option<nat>, entry: string, nodes: Option<seq<Node>>, base: nat)
    requires Valid(s) && StartsFrom(s, fromVersion, base)
    ensures var (after, reply) := Perform(s, Create(fromVersion, entry, nodes));
            var n := |s.versions|;
            && reply == Done && |after.versions| == n + 1 && after.versions[..n] == s.versions
            && after.status == s.status && after.activeVersion == s.activeVersion && after.currentVersion == n + 1
            && after.versions[n].number == n + 1 && after.versions[n].status == Draft
            && after.versions[n].submittedBy == None && after.versions[n].approvedBy == None
            && AskedNew(s.versions[base].content, entry, nodes, after.versions[n].content)
  {
    if fromVersion.Some? { FindByNumber(s, fromVersion.value); }
    assert s.versions[|s.versions| - 1].number == |s.versions|;
  }

  /** Submission, approval and rejection: each needs one status, leads to one, and signs. */
  lemma ReviewExactly(s: ScriptState, op: Op)
    requires Valid(s) && (op.Submit? || op.Approve? || op.Reject?)
    ensures var (after, reply) := Perform(s, op);
            var n, needed := op.target, if op.Submit? then Draft else PendingApproval;
            && (reply == NotFound <==> !(1 <= n <= |s.versions|))
            && (reply == InvalidTransition <==> 1 <= n <= |s.versions| && s.versions[n - 1].status != needed)
            && (reply == Done <==> 1 <= n <= |s.versions| && s.versions[n - 1].status == needed)
            && (reply != Done ==> after == s)
            && (reply == Done ==>
                  var v := s.versions[n - 1];
                  && Replaced(s, after, n - 1,
                       match op
                       case Submit(_, actor) => v.(status := PendingApproval, submittedBy := Some(actor))
                       case Approve(_, actor) => v.(status := Approved, approvedBy := Some(actor))
                       case Reject(_, reason) => v.(status := Draft, rejectedReason := Some(reason)))
                  && after.status == if op.Approve? && s.status == Draft then Approved else s.status)
  {
    FindByNumber(s, op.target);
  }

  /** Activation needs an approved version or the active one; the one that was active is archived. */
  lemma ActivateExactly(s: ScriptState, n: nat)
    requires Valid(s)
    ensures var (after, reply) := Perform(s, Activate(n));
            && (reply == NotFound <==> !(1 <= n <= |s.versions|))
            && (reply == Done <==> 1 <= n <= |s.versions| && s.versions[n - 1].status in {Approved, Active})
            && (reply != Done ==> after == s)
            && (reply == Done ==>
                  && |after.versions| == |s.versions| && after.currentVersion == s.currentVersion
                  && after.status == Active && after.activeVersion == Some(n)
                  && forall i :: 0 <= i < |s.versions| ==>
                       after.versions[i] == s.versions[i].(status :=
                         if i == n - 1 then Active
                         else if s.activeVersion == Some(i + 1) then Archived else s.versions[i].status))
  {
    FindByNumber(s, n);
  }

  // ----- what a version says after a run -----

  /** Operation `j` is the creation of version `i + 1`, or an accepted update of it, and asked for
      this content. */
  ghost predicate WroteAt(c: Content, ops: seq<Op>, j: int, i: nat, content: Content) {
    HappensAt(Next, (s: ScriptState, op: Op) => Wrote(s, op, i, content), NewScript(c), ops, j)
  }

  ghost predicate Wrote(s: ScriptState, op: Op, i: nat, content: Content) {
    match op
    case Create(from, entry, nodes) =>
      && i == |s.versions|
      && exists base: nat :: StartsFrom(s, from, base) && AskedNew(s.versions[base].content, entry, nodes, content)
    case Update(n, p) =>
      n == i + 1 && i < |s.versions| && Perform(s, op).1 == Done && Asked(s.versions[i].content, p, content)
    case _ => false
  }

  /** Operation `j` writes version `i + 1`. */
  ghost predicate Writes(s: ScriptState, op: Op, i: nat) {
    (op.Create? && i == |s.versions|) || (op.Update? && op.target == i + 1 && Perform(s, op).1 == Done)
  }

  ghost predicate WritesAt(c: Content, ops: seq<Op>, j: int, i: nat) {
    HappensAt(Next, (s: ScriptState, op: Op) => Writes(s, op, i), NewScript(c), ops, j)
  }

  /** The content stands since operation `j` wrote it, or since the script was created. */
  ghost predicate SaysSince(c: Content, ops: seq<Op>, i: nat, j: int, content: Content) {
    && (forall k :: j < k < |ops| ==> !WritesAt(c, ops, k, i))
    && (if j < 0 then i == 0 && content == c else WroteAt(c, ops, j, i, content))
  }

  lemma OneWrite(s: ScriptState, op: Op, i: nat)
    requires Valid(s) && s.versions != [] && i < |Next(s, op).versions|
    ensures Writes(s, op, i) ==> Wrote(s, op, i, Next(s, op).versions[i].content)
    ensures !Writes(s, op, i) ==> i < |s.versions| && Next(s, op).versions[i].content == s.versions[i].content
  {
    match op
    case Create(from, entry, nodes) =>
      var base := if from.Some? && 1 <= from.value <= |s.versions| then from.value - 1 else |s.versions| - 1;
      assert StartsFrom(s, from, base);
      CreateExactly(s, from, entry, nodes, base);
    case Update(n, p) => OneUpdate(s, n, p, i);
    case Activate(n) => ActivateExactly(s, n);
    case _ => ReviewExactly(s, op);
  }

  lemma OneUpdate(s: ScriptState, n: nat, p: UpdatePayload, i: nat)
    requires Valid(s) && i < |s.versions|
    ensures var (after, reply) := Perform(s, Update(n, p));
            && i < |after.versions|
            && (n == i + 1 && reply == Done ==> Asked(s.versions[i].content, p, after.versions[i].content))
            && (!(n == i + 1 && reply == Done) ==> after.versions[i].content == s.versions[i].content)
  {
    var c := UpdateExactly(s, n, p);
    assert Perform(s, Update(n, p)).1 in {NotFound, NotEditable, InvalidGraph, Done};
  }

  lemma NeverEmpty(c: Content, ops: seq<Op>)
    ensures Run(c, ops).versions != []
  {
    var inv := (s: ScriptState) => s.versions != [];
    forall s, op | inv(s) ensures inv(Next(s, op)) { StepIsLawful(s, op); }
    AlwaysKept(Next, inv, NewScript(c), ops);
  }

  lemma StillSays(c: Content, ops: seq<Op>, i: nat, j: int, content: Content)
    requires ops != [] && j < |ops| - 1 && SaysSince(c, ops[..|ops| - 1], i, j, content)
    requires !WritesAt(c, ops, |ops| - 1, i)
    ensures SaysSince(c, ops, i, j, content)
  {
    var n := |ops| - 1;
    var writes, wrote :=
      (s: ScriptState, op: Op) => Writes(s, op, i), (s: ScriptState, op: Op) => Wrote(s, op, i, content);
    forall k | j < k < |ops| ensures !WritesAt(c, ops, k, i) {
      if 0 <= k < n {
        HappensInPrefix(Next, writes, NewScript(c), ops, n, k);
        assert !WritesAt(c, ops[..n], k, i);
      }
    }
    if j >= 0 { HappensInPrefix(Next, wrote, NewScript(c), ops, n, j); }
  }

  /** After every run each version says what its last accepted write asked for: the update that was
      answered `Done` last, or else its creation. */
  lemma {:induction false} SaysLastWrite(c: Content, ops: seq<Op>, i: nat) returns (j: int)
    requires i < |Run(c, ops).versions|
    ensures -1 <= j < |ops| && SaysSince(c, ops, i, j, Run(c, ops).versions[i].content)
  {
    if ops == [] { return -1; }
    var n := |ops| - 1;
    var s, op, content := Run(c, ops[..n]), ops[n], Run(c, ops).versions[i].content;
    EveryRunIsValid(c, ops[..n]);
    NeverEmpty(c, ops[..n]);
    OneWrite(s, op, i);
    if Writes(s, op, i) {
      j := n;
    } else {
      j := SaysLastWrite(c, ops[..n], i);
      StillSays(c, ops, i, j, content);
    }
  }
}
