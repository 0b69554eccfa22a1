/** Laws of the script lifecycle over every run of operations. */
module LifecycleTheorems {
  import opened Prelude
  import opened ScriptGraph
  import opened GraphTheorems
  import opened GraphValidator
  import opened ScriptCompiler
  import opened CompilerTheorems
  import opened ScriptSimulator
  import opened SimulatorTheorems
  import opened SimulatorCoverage
  import opened ScriptLifecycle
  import opened Transitions

  ghost function Next(s: ScriptState, op: Op): ScriptState {
    Perform(s, op).0
  }

  ghost function Run(c: Content, ops: seq<Op>): ScriptState {
    RunOf(Next, NewScript(c), ops)
  }

  // ----- the invariant -----

  /** Version numbers are exactly 1..currentVersion, in order. */
  ghost predicate NumberedInOrder(s: ScriptState) {
    && s.currentVersion == |s.versions|
    && forall i :: 0 <= i < |s.versions| ==> s.versions[i].number == i + 1
  }

  /** The script is active exactly when it points at a version, that version is active, and no
      other is. */
  ghost predicate ActiveIsPointedAt(s: ScriptState) {
    && (s.status == Active <==> s.activeVersion.Some?)
    && (s.activeVersion.Some? ==> 1 <= s.activeVersion.value <= |s.versions|)
    && forall i :: 0 <= i < |s.versions| ==> (s.versions[i].status == Active <==> s.activeVersion == Some(i + 1))
  }

  ghost predicate SignedVersion(v: Version) {
    (v.status != Draft ==> v.submittedBy.Some?) && (v.status in {Approved, Active, Archived} ==> v.approvedBy.Some?)
  }

  /** Every approved, active or archived version has an approver and a submitter. */
  ghost predicate Signed(s: ScriptState) {
    forall v :: v in s.versions ==> SignedVersion(v)
  }

  ghost predicate Valid(s: ScriptState) {
    NumberedInOrder(s) && ActiveIsPointedAt(s) && Signed(s)
  }

  lemma FindByNumber(s: ScriptState, n: nat)
    requires NumberedInOrder(s)
    ensures Find(s.versions, n) == if 1 <= n <= |s.versions| then Some(n - 1) else None
  {
    if 1 <= n <= |s.versions| { assert s.versions[n - 1].number == n; }
  }

  /** A step leaves every version in place, changes statuses only along allowed transitions, and
      changes content only of drafts. */
  ghost predicate LawfulStep(before: seq<Version>, after: seq<Version>) {
    |before| <= |after| &&
    forall i :: 0 <= i < |before| ==>
      && after[i].number == before[i].number
      && (after[i].status == before[i].status || CanTransition(before[i].status, after[i].status))
      && (after[i].content == before[i].content || (before[i].status == Draft && after[i].status == Draft))
  }

  lemma ActivateIsLawful(s: ScriptState, n: nat)
    ensures LawfulStep(s.versions, Next(s, Activate(n)).versions)
  {
  }

  lemma EditIsLawful(s: ScriptState, op: Op)
    requires op.Create? || op.Update?
    ensures LawfulStep(s.versions, Next(s, op).versions)
  {
  }

  lemma ReviewIsLawful(s: ScriptState, op: Op)
    requires op.Submit? || op.Approve? || op.Reject?
    ensures LawfulStep(s.versions, Next(s, op).versions)
  {
  }

  lemma StepIsLawful(s: ScriptState, op: Op)
    ensures LawfulStep(s.versions, Next(s, op).versions)
  {
    match op
    case Activate(n) => ActivateIsLawful(s, n);
    case Create(_, _, _) => EditIsLawful(s, op);
    case Update(_, _) => EditIsLawful(s, op);
    case _ => ReviewIsLawful(s, op);
  }

  /** Version `k` is made active and any other active one archived. */
  ghost predicate Activated(s: ScriptState, s': ScriptState, k: nat) {
    && k < |s.versions| == |s'.versions| && s'.currentVersion == s.currentVersion
    && s'.status == Active && s'.activeVersion == Some(k + 1)
    && forall i :: 0 <= i < |s.versions| ==>
         s'.versions[i] == s.versions[i].(status :=
           if i == k then Active else if s.versions[i].status == Active then Archived else s.versions[i].status)
  }

  lemma ActivateEffect(s: ScriptState, n: nat)
    requires Valid(s)
    ensures Next(s, Activate(n)) == s ||
      (1 <= n <= |s.versions| && s.versions[n - 1].status in {Approved, Active}
        && Activated(s, Next(s, Activate(n)), n - 1))
  {
    FindByNumber(s, n);
  }

  lemma ActivatedIsValid(s: ScriptState, s': ScriptState, k: nat)
    requires Valid(s) && Activated(s, s', k) && s.versions[k].status in {Approved, Active}
    ensures Valid(s')
  {
    forall v | v in s'.versions ensures SignedVersion(v) {
      var i :| 0 <= i < |s'.versions| && s'.versions[i] == v;
      assert s.versions[i] in s.versions;
    }
  }

  lemma ActivateKeepsValid(s: ScriptState, n: nat)
    requires Valid(s)
    ensures Valid(Next(s, Activate(n)))
  {
    ActivateEffect(s, n);
    if Next(s, Activate(n)) != s { ActivatedIsValid(s, Next(s, Activate(n)), n - 1); }
  }

  lemma CreateKeepsValid(s: ScriptState, op: Op)
    requires Valid(s) && op.Create?
    ensures Valid(Next(s, op))
  {
  }

  /** One version that is not active is replaced by another of its number that is not active. */
  ghost predicate Rewritten(s: ScriptState, s': ScriptState, k: nat, v: Version) {
    && k < |s.versions| && s'.versions == s.versions[k := v] && v.number == s.versions[k].number
    && s.versions[k].status != Active && v.status != Active
    && s'.currentVersion == s.currentVersion && s'.activeVersion == s.activeVersion
    && (s'.status == s.status || (s.status == Draft && s'.status == Approved))
  }

  lemma RewrittenIsValid(s: ScriptState, s': ScriptState, k: nat, v: Version)
    requires Valid(s) && Rewritten(s, s', k, v) && SignedVersion(v)
    ensures Valid(s')
  {
    forall u | u in s'.versions ensures SignedVersion(u) {
      if u != v { assert u in s.versions; }
    }
  }

  /** The operation rewrites its target and signs what it must. */
  ghost predicate Rewrites(s: ScriptState, op: Op)
    requires op.Update? || op.Submit? || op.Approve? || op.Reject?
  {
    && 1 <= op.target <= |s.versions| == |Next(s, op).versions|
    && Rewritten(s, Next(s, op), op.target - 1, Next(s, op).versions[op.target - 1])
    && SignedVersion(Next(s, op).versions[op.target - 1])
  }

  lemma OneVersionRewritten(s: ScriptState, op: Op)
    requires Valid(s) && (op.Update? || op.Submit? || op.Approve? || op.Reject?)
    ensures Next(s, op) == s || Rewrites(s, op)
  {
    if op.Update? { OneVersionEdited(s, op); } else { OneVersionReviewed(s, op); }
  }

  lemma OneVersionEdited(s: ScriptState, op: Op)
    requires Valid(s) && op.Update?
    ensures Next(s, op) == s || Rewrites(s, op)
  {
    FindByNumber(s, op.target);
    if k: nat :| Stores(s, op, k) {
      UpdateStores(s, op, k);
      assert SignedVersion(s.versions[k]);
    } else {
      NothingStored(s, op);
    }
  }

  lemma OneVersionReviewed(s: ScriptState, op: Op)
    requires Valid(s) && (op.Submit? || op.Approve? || op.Reject?)
    ensures Next(s, op) == s || Rewrites(s, op)
  {
    FindByNumber(s, op.target);
    if 1 <= op.target <= |s.versions| { assert SignedVersion(s.versions[op.target - 1]); }
  }

  lemma OneVersionKeepsValid(s: ScriptState, op: Op)
    requires Valid(s) && (op.Update? || op.Submit? || op.Approve? || op.Reject?)
    ensures Valid(Next(s, op))
  {
    OneVersionRewritten(s, op);
    if Next(s, op) != s {
      RewrittenIsValid(s, Next(s, op), op.target - 1, Next(s, op).versions[op.target - 1]);
    }
  }

  lemma StepKeepsValid(s: ScriptState, op: Op)
    requires Valid(s)
    ensures Valid(Next(s, op))
  {
    match op
    case Create(_, _, _) => CreateKeepsValid(s, op);
    case Activate(n) => ActivateKeepsValid(s, n);
    case _ => OneVersionKeepsValid(s, op);
  }

  /** Safety over every run. */
  lemma EveryRunIsValid(c: Content, ops: seq<Op>)
    ensures Valid(Run(c, ops))
  {
    forall s, op | Valid(s) ensures Valid(Next(s, op)) { StepKeepsValid(s, op); }
    AlwaysKept(Next, Valid, NewScript(c), ops);
  }

  ghost predicate ArchivedAt(s: ScriptState, i: nat) {
    i < |s.versions| && s.versions[i].status == Archived
  }

  /** Archived versions stay archived, whatever follows. */
  lemma ArchivedForGood(c: Content, ops: seq<Op>, more: seq<Op>, i: nat)
    requires ArchivedAt(Run(c, ops), i)
    ensures ArchivedAt(Run(c, ops + more), i)
  {
    var inv := (s: ScriptState) => ArchivedAt(s, i);
    forall s, op | inv(s) ensures inv(Next(s, op)) { StepIsLawful(s, op); }
    RunConcat(Next, NewScript(c), ops, more);
    AlwaysKept(Next, inv, Run(c, ops), more);
  }

  // ----- freezing -----

  ghost predicate SubmitsNow(s: ScriptState, op: Op, i: nat) {
    op.Submit? && op.target == i + 1 && Perform(s, op).1 == Done
  }

  /** The content version `i + 1` had when it was last submitted. */
  ghost function LastSubmitted(c: Content, ops: seq<Op>, i: nat): Option<Content> {
    if ops == [] then None else
    var before, op := Run(c, ops[..|ops| - 1]), ops[|ops| - 1];
    if i < |before.versions| && SubmitsNow(before, op, i) then Some(before.versions[i].content)
    else LastSubmitted(c, ops[..|ops| - 1], i)
  }

  /** A version leaves draft only by being submitted, with the content it has, and a version
      that has left draft is neither submitted nor edited. */
  lemma FreezingStep(s: ScriptState, op: Op, i: nat)
    requires Valid(s) && i < |s.versions|
    ensures i < |Next(s, op).versions|
    ensures s.versions[i].status != Draft ==> !SubmitsNow(s, op, i)
    ensures Next(s, op).versions[i].status != Draft ==>
      && (SubmitsNow(s, op, i) || s.versions[i].status != Draft)
      && Next(s, op).versions[i].content == s.versions[i].content
  {
    if !op.Create? { FindByNumber(s, op.target); }
  }

  /** No edit lands between submission and approval or at any later time: a version that is not
      a draft says what it said when it was last submitted. */
  lemma {:induction false} FrozenSinceSubmission(c: Content, ops: seq<Op>, i: nat)
    requires i < |Run(c, ops).versions| && Run(c, ops).versions[i].status != Draft
    ensures LastSubmitted(c, ops, i) == Some(Run(c, ops).versions[i].content)
  {
    if ops != [] {
      var front, op := ops[..|ops| - 1], ops[|ops| - 1];
      EveryRunIsValid(c, front);
      NewIsDraft(Run(c, front), op, i);
      FreezingStep(Run(c, front), op, i);
      if Run(c, front).versions[i].status != Draft { FrozenSinceSubmission(c, front, i); }
    }
  }

  lemma NewIsDraft(s: ScriptState, op: Op, i: nat)
    requires i < |Next(s, op).versions| && Next(s, op).versions[i].status != Draft
    ensures i < |s.versions|
  {
  }

  // ----- which content was validated -----

  /** The content version `i + 1` was created with. */
  ghost function CreatedWith(c: Content, ops: seq<Op>, i: nat): Option<Content> {
    if ops == [] then if i == 0 then Some(c) else None else
    var before, after := Run(c, ops[..|ops| - 1]), Run(c, ops);
    if |before.versions| == i < |after.versions| then Some(after.versions[i].content)
    else CreatedWith(c, ops[..|ops| - 1], i)
  }

  /** Every version is either well formed or still says what it was created with: creation from
      another version or from given nodes does not validate, every update does. */
  lemma {:induction false} ValidatedOrAsCreated(c: Content, ops: seq<Op>, i: nat)
    requires i < |Run(c, ops).versions|
    ensures var content := Run(c, ops).versions[i].content;
            WellFormed(content.nodes, content.entry) || CreatedWith(c, ops, i) == Some(content)
  {
    if ops != [] {
      var front, op := ops[..|ops| - 1], ops[|ops| - 1];
      var before := Run(c, front);
      StepIsLawful(before, op);
      if i < |before.versions| {
        ValidatedOrAsCreated(c, front, i);
        if Run(c, ops).versions[i].content != before.versions[i].content {
          ChangedIsValidated(before, op, i);
        }
      }
    }
  }

  lemma ChangedIsValidated(s: ScriptState, op: Op, i: nat)
    requires i < |s.versions| && i < |Next(s, op).versions|
    requires Next(s, op).versions[i].content != s.versions[i].content
    ensures var content := Next(s, op).versions[i].content; WellFormed(content.nodes, content.entry)
  {
  }

  ghost predicate Sound(c: Content) {
    WellFormed(c.nodes, c.entry)
  }

  ghost predicate AllSound(s: ScriptState) {
    forall v :: v in s.versions ==> Sound(v.content)
  }

  /** If the operation creates a version, what it creates is well formed. */
  ghost predicate CreatesSound(s: ScriptState, op: Op) {
    op.Create? ==> Sound(CreatedContent(s.versions, op.fromVersion, op.newEntry, op.newNodes))
  }

  lemma CreateKeepsSound(s: ScriptState, op: Op)
    requires AllSound(s) && op.Create?
    ensures AllSound(Next(s, op)) <==> CreatesSound(s, op)
  {
    var after := Next(s, op).versions;
    var last := after[|s.versions|];
    assert after == s.versions + [last];
    assert last in after;
  }

  lemma OthersKeepSound(s: ScriptState, op: Op)
    requires AllSound(s) && !op.Create?
    ensures AllSound(Next(s, op))
  {
    StepIsLawful(s, op);
    var after := Next(s, op).versions;
    assert |after| == |s.versions|;
    forall v | v in after ensures Sound(v.content) {
      var i: nat :| i < |after| && after[i] == v;
      assert s.versions[i] in s.versions;
      if v.content != s.versions[i].content { ChangedIsValidated(s, op, i); }
    }
  }

  /** Every version is well formed at every point of a run exactly when the first one is and every
      creation makes well-formed content. */
  lemma SoundExactly(c: Content, ops: seq<Op>)
    ensures Throughout(Next, AllSound, NewScript(c), ops) <==>
      Sound(c) && Possible(Next, CreatesSound, NewScript(c), ops)
  {
    forall s, op | AllSound(s) ensures AllSound(Next(s, op)) <==> CreatesSound(s, op) {
      if op.Create? { CreateKeepsSound(s, op); } else { OthersKeepSound(s, op); }
    }
    KeptExactly(Next, CreatesSound, AllSound, NewScript(c), ops);
    var first := Version(1, Draft, c, None, None, None);
    assert first in NewScript(c).versions;
  }

  /** For a script that was created with validation only later creations matter; one created from
      text passes that validation whatever the text. */
  lemma SoundAfterCreateScript(entry: string, nodes: seq<Node>, text: SimpleText, ops: seq<Op>)
    ensures var c := InitialContent(entry, nodes, text);
            && (nodes == [] ==> Sound(c))
            && (Sound(c) ==>
                  (Throughout(Next, AllSound, NewScript(c), ops) <==> Possible(Next, CreatesSound, NewScript(c), ops)))
  {
    var c := InitialContent(entry, nodes, text);
    if nodes == [] {
      CompiledIsAccepted(text, false);
      StructuralVerdict(c.nodes, c.entry);
    }
    SoundExactly(c, ops);
  }

  // ----- the disclaimer rule over runs -----

  /** No walk through the content offends against the disclaimer rule. */
  ghost predicate Clean(c: Content) {
    forall b :: !HasOffendingWalk(ById(c.nodes), c.entry, b)
  }

  ghost predicate AllClean(s: ScriptState) {
    forall v :: v in s.versions ==> Clean(v.content)
  }

  /** What the update of version `k` would store. */
  ghost predicate Stores(s: ScriptState, op: Op, k: nat)
    requires op.Update?
  {
    && Find(s.versions, op.target) == Some(k) && k < |s.versions|
    && CanEditVersion(s.versions[k].status)
    && Sound(UpdatedContent(s.versions[k].content, op.payload))
  }

  /** What the operation writes, if anything, does not offend. */
  ghost predicate WritesClean(s: ScriptState, op: Op) {
    && (op.Create? ==> Clean(CreatedContent(s.versions, op.fromVersion, op.newEntry, op.newNodes)))
    && (op.Update? ==> forall k: nat :: Stores(s, op, k) ==> Clean(UpdatedContent(s.versions[k].content, op.payload)))
  }

  lemma CreateDecides(s: ScriptState, op: Op)
    requires AllClean(s) && op.Create?
    ensures AllClean(Next(s, op)) <==> WritesClean(s, op)
  {
    var after := Next(s, op).versions;
    var last := after[|s.versions|];
    assert after == s.versions + [last] && last in after;
  }

  lemma UpdateStores(s: ScriptState, op: Op, k: nat)
    requires op.Update? && Stores(s, op, k)
    ensures Next(s, op).versions ==
      s.versions[k := s.versions[k].(content := UpdatedContent(s.versions[k].content, op.payload))]
  {
  }

  lemma UpdateDecides(s: ScriptState, op: Op)
    requires AllClean(s) && op.Update?
    ensures AllClean(Next(s, op)) <==> WritesClean(s, op)
  {
    if k: nat :| Stores(s, op, k) {
      UpdateStores(s, op, k);
      var v := s.versions[k].(content := UpdatedContent(s.versions[k].content, op.payload));
      var after := Next(s, op).versions;
      assert after[k] == v && v in after;
      forall u | u in after && u != v ensures Clean(u.content) {
        assert u in s.versions;
      }
    } else {
      NothingStored(s, op);
    }
  }

  lemma NothingStored(s: ScriptState, op: Op)
    requires op.Update? && forall k: nat :: !Stores(s, op, k)
    ensures Next(s, op) == s
  {
    var found := Find(s.versions, op.target);
    if found.Some? { assert !Stores(s, op, found.value); }
  }

  lemma OthersKeepContents(s: ScriptState, op: Op)
    requires AllClean(s) && !op.Create? && !op.Update?
    ensures AllClean(Next(s, op))
  {
    var after := Next(s, op).versions;
    forall v | v in after ensures Clean(v.content) {
      var i: nat :| i < |after| && after[i] == v;
      SameContent(s, op, i);
      assert s.versions[i] in s.versions;
    }
  }

  lemma SameContent(s: ScriptState, op: Op, i: nat)
    requires !op.Create? && !op.Update? && i < |Next(s, op).versions|
    ensures |Next(s, op).versions| == |s.versions| && Next(s, op).versions[i].content == s.versions[i].content
  {
  }

  /** For contents with any marks: no version offends against the disclaimer rule at any point of a
      run exactly when the first one does not and no creation and no update that is stored writes
      content that does, since only the structure is checked. */
  lemma CleanExactly(c: Content, ops: seq<Op>)
    ensures Throughout(Next, AllClean, NewScript(c), ops) <==>
      Clean(c) && Possible(Next, WritesClean, NewScript(c), ops)
  {
    forall s, op | AllClean(s) ensures AllClean(Next(s, op)) <==> WritesClean(s, op) {
      if op.Create? { CreateDecides(s, op); }
      else if op.Update? { UpdateDecides(s, op); }
      else { OthersKeepContents(s, op); }
    }
    KeptExactly(Next, WritesClean, AllClean, NewScript(c), ops);
    var first := Version(1, Draft, c, None, None, None);
    assert first in NewScript(c).versions;
  }

  /** Content on which some simulation speaks benefits before a disclaimer offends. */
  lemma SpokenIsUnclean(c: Content, inputs: seq<SimulationInput>, b: string)
    requires SpeaksTooEarly(c.nodes, c.entry, inputs, b)
    ensures !Clean(c)
  {
    SpokenIsOffence(c.nodes, c.entry, inputs, b);
    var w :| TakeableOffence(ById(c.nodes), w, c.entry, b);
    assert HasOffendingWalk(ById(c.nodes), c.entry, b);
  }

  // ----- what requests can carry -----

  /** Nodes without any mark: the request type of a node has no field for being terminal, for
      discussing benefits or for a compliance role, and refuses fields it does not have. */
  predicate Plain(nodes: seq<Node>) {
    forall n :: n in nodes ==> !n.terminal && !n.discussesBenefits && n.complianceRole == ""
  }

  /** The operation brings in only such nodes. */
  predicate Requested(op: Op) {
    && (op.Create? && op.newNodes.Some? ==> Plain(op.newNodes.value))
    && (op.Update? && op.payload.nodes.Some? ==> Plain(op.payload.nodes.value))
  }

  ghost predicate AllPlain(s: ScriptState) {
    forall v :: v in s.versions ==> Plain(v.content.nodes)
  }

  lemma CompiledIsPlain(text: SimpleText)
    ensures Plain(CompiledNodes(text))
  {
    forall n | n in QuestionNodes(QuestionsOf(text)) ensures Plain([n]) {}
  }

  lemma UpdateKeepsPlain(s: ScriptState, op: Op)
    requires AllPlain(s) && op.Update? && Requested(op)
    ensures AllPlain(Next(s, op))
  {
    if k: nat :| Stores(s, op, k) {
      UpdateStores(s, op, k);
      CompiledIsPlain(op.payload.text);
      assert s.versions[k] in s.versions;
    } else {
      NothingStored(s, op);
    }
  }

  lemma CreateKeepsPlain(s: ScriptState, op: Op)
    requires AllPlain(s) && op.Create? && Requested(op)
    ensures AllPlain(Next(s, op))
  {
    var base := BaseVersion(s.versions, op.fromVersion);
    assert base.Some? ==> base.value in s.versions;
  }

  lemma OthersKeepPlain(s: ScriptState, op: Op)
    requires AllPlain(s) && !op.Create? && !op.Update?
    ensures AllPlain(Next(s, op))
  {
    var after := Next(s, op).versions;
    forall v | v in after ensures Plain(v.content.nodes) {
      var i: nat :| i < |after| && after[i] == v;
      SameContent(s, op, i);
      assert s.versions[i] in s.versions;
    }
  }

  /** A script starts with nodes of a request or with compiled text. */
  lemma StartIsPlain(entry: string, nodes: seq<Node>, text: SimpleText)
    requires Plain(nodes)
    ensures Plain(InitialContent(entry, nodes, text).nodes)
  {
    CompiledIsPlain(text);
  }

  /** Whatever the requests, no stored node is ever marked. */
  lemma {:induction false} StoredArePlain(c: Content, ops: seq<Op>)
    requires Plain(c.nodes) && forall op :: op in ops ==> Requested(op)
    ensures AllPlain(Run(c, ops))
  {
    if ops != [] {
      var s, op := Run(c, ops[..|ops| - 1]), ops[|ops| - 1];
      StoredArePlain(c, ops[..|ops| - 1]);
      if op.Create? { CreateKeepsPlain(s, op); }
      else if op.Update? { UpdateKeepsPlain(s, op); }
      else { OthersKeepPlain(s, op); }
    }
  }

  lemma PlainIsClean(c: Content)
    requires Plain(c.nodes)
    ensures Clean(c)
  {
    ByIdKeys(c.nodes);
  }

  lemma UnmarkedNeverOffends(nodes: seq<Node>, path: seq<string>)
    requires Plain(nodes)
    ensures FirstOffence(ById(nodes), path, false) == None
  {
    ByIdKeys(nodes);
    var offence := FirstOffence(ById(nodes), path, false);
    if offence.Some? { ScanMeaning(ById(nodes), path, offence.value); }
  }

  lemma {:induction false} NoOffences(nodes: seq<Node>, paths: seq<seq<string>>)
    requires Plain(nodes)
    ensures ComplianceErrors(ById(nodes), paths) == []
  {
    if paths != [] {
      NoOffences(nodes, paths[..|paths| - 1]);
      UnmarkedNeverOffends(nodes, paths[|paths| - 1]);
    }
  }

  /** Content without marks gets the same verdict with the rule enforced and without. */
  lemma RuleIsIdle(c: Content)
    requires Plain(c.nodes)
    ensures GraphErrors(c.nodes, c.entry, true) == GraphErrors(c.nodes, c.entry, false)
  {
    if c.entry in ById(c.nodes) { NoOffences(c.nodes, AllPaths(ById(c.nodes), c.entry)); }
  }

  /** So in every script the service can store the rule has nothing to decide: after any requests no
      version has an offending walk, no simulation of one speaks benefits before a disclaimer, and
      enforcing the rule would not change the verdict on any. */
  lemma RuleNeverDecides(c: Content, ops: seq<Op>, v: Version)
    requires Plain(c.nodes) && (forall op :: op in ops ==> Requested(op)) && v in Run(c, ops).versions
    ensures Clean(v.content)
    ensures forall inputs, b :: !SpeaksTooEarly(v.content.nodes, v.content.entry, inputs, b)
    ensures GraphErrors(v.content.nodes, v.content.entry, true) == GraphErrors(v.content.nodes, v.content.entry, false)
  {
    StoredArePlain(c, ops);
    PlainIsClean(v.content);
    RuleIsIdle(v.content);
    forall inputs, b ensures !SpeaksTooEarly(v.content.nodes, v.content.entry, inputs, b) {
      if SpeaksTooEarly(v.content.nodes, v.content.entry, inputs, b) { SpokenIsUnclean(v.content, inputs, b); }
    }
  }

  ghost function OneBenefitsNode(): seq<Node> {
    [Node("b", Statement, "", "", "", "", false, 0, 0, false,
          [Transition("t", "always", "", true, "")], false, "", true)]
  }

  lemma OneNodeGraph()
    ensures var nodes := OneBenefitsNode(); ById(nodes) == map["b" := nodes[0]]
  {
    assert OneBenefitsNode()[..0] == [];
  }

  lemma OneNodeIsSound()
    ensures Sound(Content("b", OneBenefitsNode()))
  {
    var nodes, g := OneBenefitsNode(), ById(OneBenefitsNode());
    OneNodeGraph();
    assert WalkFromTo(g, ["b"], "b", "b");
    assert Reachable(g, "b", "b");
    forall n | n in nodes ensures n == nodes[0] {}
    assert WellFormed(nodes, "b");
  }

  lemma OneNodeIsSpoken(inputs: seq<SimulationInput>)
    ensures SpeaksTooEarly(OneBenefitsNode(), "b", inputs, "b")
  {
    var nodes, g, path := OneBenefitsNode(), ById(OneBenefitsNode()), PathOf(OneBenefitsNode(), "b", inputs);
    OneNodeGraph();
    EverySimulation(nodes, "b", inputs);
    assert path != [] && path[0] == "b";
    ScanFinds(g, path, 0, "b");
  }

  /** It is the missing marks that keep the rule idle: one benefits node passes the validation of a
      new script and every simulation of it speaks benefits without a disclaimer. */
  lemma MarkedAndSpoken(text: SimpleText, inputs: seq<SimulationInput>)
    ensures var c := InitialContent("b", OneBenefitsNode(), text);
            Sound(c) && !Plain(c.nodes) && !Clean(c) && SpeaksTooEarly(c.nodes, c.entry, inputs, "b")
  {
    OneNodeIsSound();
    OneNodeIsSpoken(inputs);
    assert InitialContent("b", OneBenefitsNode(), text) == Content("b", OneBenefitsNode());
    SpokenIsUnclean(Content("b", OneBenefitsNode()), inputs, "b");
    assert OneBenefitsNode()[0] in OneBenefitsNode();
  }

  /** The second version has an empty graph and the given status. */
  ghost predicate EmptySecond(s: ScriptState, status: Status) {
    && NumberedInOrder(s) && |s.versions| == 2
    && s.versions[1].status == status && s.versions[1].content.nodes == []
  }

  lemma EmptySecondMoves(c: Content, ops: seq<Op>, op: Op, status: Status) returns (more: seq<Op>)
    requires EmptySecond(Run(c, ops), status) && !op.Create? && op.target == 2
    ensures more == ops + [op]
    ensures status == Draft && op.Submit? ==> EmptySecond(Run(c, more), PendingApproval)
    ensures status == PendingApproval && op.Approve? ==> EmptySecond(Run(c, more), Approved)
    ensures status == Approved && op.Activate? ==> EmptySecond(Run(c, more), Active)
  {
    more := ops + [op];
    assert more[..|ops|] == ops;
    FindByNumber(Run(c, ops), 2);
  }

  /** So an active version need not be well formed: an empty graph can be created, submitted,
      approved and activated, on any script. */
  lemma EmptyGraphCanBeActive(c: Content) returns (ops: seq<Op>)
    ensures ops == [Create(None, "", Some([])), Submit(2, "ana"), Approve(2, "bo"), Activate(2)]
    ensures var s := Run(c, ops);
            && |s.versions| == 2 && s.versions[1].status == Active
            && !WellFormed(s.versions[1].content.nodes, s.versions[1].content.entry)
  {
    ops := [Create(None, "", Some([]))];
    assert ops[..0] == [];
    assert EmptySecond(Run(c, ops), Draft);
    ops := EmptySecondMoves(c, ops, Submit(2, "ana"), Draft);
    ops := EmptySecondMoves(c, ops, Approve(2, "bo"), PendingApproval);
    ops := EmptySecondMoves(c, ops, Activate(2), Approved);
  }
}
