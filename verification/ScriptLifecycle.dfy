/** The governance lifecycle of one script and its versions: draft, submit, approve or reject,
    activate, archive.  Versions are found by number. */
module ScriptLifecycle {
  import opened Prelude
  import opened ScriptGraph
  import opened GraphValidator
  import opened GraphTheorems
  import opened ScriptCompiler

  datatype Status = Draft | PendingApproval | Approved | Active | Archived

  /** The allowed status changes. */
  predicate CanTransition(frm: Status, to: Status) {
    match frm
    case Draft => to == PendingApproval
    case PendingApproval => to == Approved || to == Draft
    case Approved => to == Active || to == Archived
    case Active => to == Archived
    case Archived => false
  }

  predicate CanEditVersion(status: Status) {
    status == Draft
  }

  /** What a version says: its entry node and its nodes. */
  datatype Content = Content(entry: string, nodes: seq<Node>)

  datatype Version = Version(
    number: nat,
    status: Status,
    content: Content,
    submittedBy: Option<string>,
    approvedBy: Option<string>,
    rejectedReason: Option<string>)

  datatype ScriptState = ScriptState(
    status: Status, activeVersion: Option<nat>, currentVersion: nat, versions: seq<Version>)

  /** What an update may carry; an empty entry means none was given. */
  datatype UpdatePayload = UpdatePayload(entry: string, nodes: Option<seq<Node>>, text: SimpleText)

  datatype Op =
    | Create(fromVersion: Option<nat>, newEntry: string, newNodes: Option<seq<Node>>)
    | Update(target: nat, payload: UpdatePayload)
    | Submit(target: nat, actor: string)
    | Approve(target: nat, actor: string)
    | Reject(target: nat, reason: string)
    | Activate(target: nat)

  datatype Reply = Done | NotFound | NotEditable | InvalidTransition | InvalidGraph

  // ----- what each operation does -----

  /** The position of version `n`: the first one of that number. */
  function Find(versions: seq<Version>, n: nat): (r: Option<nat>)
    ensures r.Some? ==> r.value < |versions| && versions[r.value].number == n
    ensures r.None? ==> forall i :: 0 <= i < |versions| ==> versions[i].number != n
  {
    if versions == [] then None else
    var last := |versions| - 1;
    var front := Find(versions[..last], n);
    if front.Some? then front else if versions[last].number == n then Some(last) else None
  }

  /** The position of the first version whose number no other exceeds. */
  function Latest(versions: seq<Version>): (k: nat)
    requires versions != []
    ensures k < |versions| && forall i :: 0 <= i < |versions| ==> versions[i].number <= versions[k].number
    ensures forall i :: 0 <= i < k ==> versions[i].number < versions[k].number
  {
    var last := |versions| - 1;
    if last == 0 then 0 else
    var k := Latest(versions[..last]);
    assert forall i :: 0 <= i < last ==> versions[i] == versions[..last][i];
    if versions[last].number > versions[k].number then last else k
  }

  /** The version a new one starts from. */
  function BaseVersion(versions: seq<Version>, fromVersion: Option<nat>): Option<Version> {
    var named := if fromVersion.Some? then Find(versions, fromVersion.value) else None;
    if named.Some? then Some(versions[named.value])
    else if versions != [] then Some(versions[Latest(versions)]) else None
  }

  function CreatedContent(
      versions: seq<Version>, fromVersion: Option<nat>, entry: string, nodes: Option<seq<Node>>): Content {
    var base := BaseVersion(versions, fromVersion);
    Content(
      if entry != "" then entry else if base.Some? then base.value.content.entry else "node-1",
      if nodes.Some? then nodes.value else if base.Some? then base.value.content.nodes else [])
  }

  predicate CarriesText(t: SimpleText) {
    || t.greeting.GetOr("") != "" || t.consent.GetOr("") != "" || t.questions.GetOr([]) != []
    || t.transferMsg.GetOr("") != "" || t.disqualifyMsg.GetOr("") != ""
  }

  function UpdatedContent(current: Content, p: UpdatePayload): Content {
    var entry := if p.entry != "" then p.entry else current.entry;
    if p.nodes.Some? then Content(entry, p.nodes.value)
    else if CarriesText(p.text) then Content("node-1", CompiledNodes(p.text))
    else Content(entry, current.nodes)
  }

  /** What a new script starts with: the given nodes, or the compiled text when there are none. */
  function InitialContent(entry: string, nodes: seq<Node>, text: SimpleText): Content {
    if nodes != [] then Content(entry, nodes) else Content("node-1", CompiledNodes(text))
  }

  function ArchiveOthers(versions: seq<Version>, k: nat): seq<Version>
    requires k < |versions|
  {
    seq(|versions|, i requires 0 <= i < |versions| =>
      if versions[i].status == Active && versions[i].number != versions[k].number
      then versions[i].(status := Archived) else versions[i])
  }

  /** Version `k` active and every other active one archived; nothing when it is active already. */
  function MadeActive(versions: seq<Version>, k: nat): (r: seq<Version>)
    requires k < |versions|
    ensures |r| == |versions|
  {
    if versions[k].status == Active then versions
    else ArchiveOthers(versions, k)[k := versions[k].(status := Active)]
  }

  function SetVersion(s: ScriptState, k: nat, v: Version): ScriptState
    requires k < |s.versions|
  {
    s.(versions := s.versions[k := v])
  }

  ghost function Perform(s: ScriptState, op: Op): (ScriptState, Reply) {
    if op.Create? then
      var n := s.currentVersion + 1;
      var c := CreatedContent(s.versions, op.fromVersion, op.newEntry, op.newNodes);
      (s.(currentVersion := n, versions := s.versions + [Version(n, Draft, c, None, None, None)]), Done)
    else
      var found := Find(s.versions, op.target);
      if found.None? then (s, NotFound) else
      var k, v := found.value, s.versions[found.value];
      match op
      case Update(_, p) =>
        var c := UpdatedContent(v.content, p);
        if !CanEditVersion(v.status) then (s, NotEditable)
        else if !WellFormed(c.nodes, c.entry) then (s, InvalidGraph)
        else (SetVersion(s, k, v.(content := c)), Done)
      case Submit(_, actor) =>
        if !CanTransition(v.status, PendingApproval) then (s, InvalidTransition)
        else (SetVersion(s, k, v.(status := PendingApproval, submittedBy := Some(actor))), Done)
      case Approve(_, actor) =>
        if !CanTransition(v.status, Approved) then (s, InvalidTransition)
        else
          var s' := SetVersion(s, k, v.(status := Approved, approvedBy := Some(actor)));
          (if s.status == Draft then s'.(status := Approved) else s', Done)
      case Reject(_, reason) =>
        if !CanTransition(v.status, Draft) then (s, InvalidTransition)
        else (SetVersion(s, k, v.(status := Draft, rejectedReason := Some(reason))), Done)
      case Activate(_) =>
        if v.status != Active && !CanTransition(v.status, Active) then (s, InvalidTransition)
        else
          (s.(status := Active, activeVersion := Some(v.number), versions := MadeActive(s.versions, k)), Done)
  }

  // ----- the stored objects -----

  class VersionRow {
    const number: nat
    var status: Status
    var content: Content
    var submittedBy: Option<string>
    var approvedBy: Option<string>
    var rejectedReason: Option<string>

    constructor (number: nat, content: Content)
      ensures View() == Version(number, Draft, content, None, None, None)
    {
      this.number := number;
      this.content := content;
      status, submittedBy, approvedBy, rejectedReason := Draft, None, None, None;
    }

    function View(): Version
      reads this
    {
      Version(number, status, content, submittedBy, approvedBy, rejectedReason)
    }
  }

  class Script {
    var status: Status
    var activeVersion: Option<nat>
    var currentVersion: nat
    var versions: seq<VersionRow>

    /** A new script has one draft version. */
    constructor (content: Content)
      ensures Separate() && fresh(versions)
      ensures State() == NewScript(content)
    {
      var first := new VersionRow(1, content);
      status, activeVersion, currentVersion, versions := Draft, None, 1, [first];
    }

    /** The rows are different objects. */
    ghost predicate Separate()
      reads this
    {
      Distinct(versions)
    }

    function Views(): (vs: seq<Version>)
      reads this, versions
      ensures |vs| == |versions| && forall i :: 0 <= i < |versions| ==> vs[i] == versions[i].View()
    {
      seq(|versions|, i requires 0 <= i < |versions| reads this, versions => versions[i].View())
    }

    ghost function State(): ScriptState
      reads this, versions
    {
      ScriptState(status, activeVersion, currentVersion, Views())
    }

    method CreateVersion(fromVersion: Option<nat>, entry: string, nodes: Option<seq<Node>>)
      requires Separate()
      modifies this
      ensures Separate() && old(versions) <= versions && fresh(versions[|old(versions)|..])
      ensures State() == Perform(old(State()), Create(fromVersion, entry, nodes)).0
    {
      var c := CreatedContent(Views(), fromVersion, entry, nodes);
      currentVersion := currentVersion + 1;
      var row := new VersionRow(currentVersion, c);
      versions := versions + [row];
      assert Views() == old(Views()) + [row.View()];
    }

    method UpdateVersion(n: nat, p: UpdatePayload) returns (reply: Reply)
      requires Separate()
      modifies versions
      ensures (State(), reply) == Perform(old(State()), Update(n, p))
    {
      var found := Find(Views(), n);
      if found.None? { return NotFound; }
      var row := versions[found.value];
      if !CanEditVersion(row.status) { return NotEditable; }
      var c := UpdatedContent(row.content, p);
      var problems := ValidateGraph(c.nodes, c.entry, false);
      StructuralVerdict(c.nodes, c.entry);
      if problems != [] { return InvalidGraph; }
      row.content := c;
      assert Views() == old(Views())[found.value := row.View()];
      reply := Done;
    }

    method SubmitVersion(n: nat, actor: string) returns (reply: Reply)
      requires Separate()
      modifies versions
      ensures (State(), reply) == Perform(old(State()), Submit(n, actor))
    {
      var found := Find(Views(), n);
      if found.None? { return NotFound; }
      var row := versions[found.value];
      if !CanTransition(row.status, PendingApproval) { return InvalidTransition; }
      row.status := PendingApproval;
      row.submittedBy := Some(actor);
      assert Views() == old(Views())[found.value := row.View()];
      reply := Done;
    }

    method ApproveVersion(n: nat, actor: string) returns (reply: Reply)
      requires Separate()
      modifies this`status, versions
      ensures (State(), reply) == Perform(old(State()), Approve(n, actor))
    {
      var found := Find(Views(), n);
      if found.None? { return NotFound; }
      var row := versions[found.value];
      if !CanTransition(row.status, Approved) { return InvalidTransition; }
      row.status := Approved;
      row.approvedBy := Some(actor);
      if status == Draft { status := Approved; }
      assert Views() == old(Views())[found.value := row.View()];
      reply := Done;
    }

    method RejectVersion(n: nat, reason: string) returns (reply: Reply)
      requires Separate()
      modifies versions
      ensures (State(), reply) == Perform(old(State()), Reject(n, reason))
    {
      var found := Find(Views(), n);
      if found.None? { return NotFound; }
      var row := versions[found.value];
      if !CanTransition(row.status, Draft) { return InvalidTransition; }
      row.status := Draft;
      row.rejectedReason := Some(reason);
      assert Views() == old(Views())[found.value := row.View()];
      reply := Done;
    }

    /** The loop over the versions that archives every active one but version `k`. */
    method ArchiveActive(k: nat)
      requires Separate() && k < |versions|
      modifies versions
      ensures Views() == ArchiveOthers(old(Views()), k)
    {
      ghost var archived := ArchiveOthers(old(Views()), k);
      for i := 0 to |versions|
        invariant forall j :: 0 <= j < i ==> versions[j].View() == archived[j]
        invariant forall j :: i <= j < |versions| ==> versions[j].View() == old(versions[j].View())
      {
        var v := versions[i];
        if v.status == Active && v.number != versions[k].number && CanTransition(v.status, Archived) {
          v.status := Archived;
        }
      }
    }

    method ActivateVersion(n: nat) returns (reply: Reply)
      requires Separate()
      modifies this`status, this`activeVersion, versions
      ensures (State(), reply) == Perform(old(State()), Activate(n))
    {
      var found := Find(Views(), n);
      if found.None? { return NotFound; }
      var k := found.value;
      var row := versions[k];
      if row.status != Active {
        if !CanTransition(row.status, Active) { return InvalidTransition; }
        ArchiveActive(k);
        row.status := Active;
        assert Views() == ArchiveOthers(old(Views()), k)[k := row.View()];
      }
      assert Views() == MadeActive(old(Views()), k);
      activeVersion := Some(row.number);
      status := Active;
      reply := Done;
      ActivateResult(old(State()), n, k);
      assert Views() == MadeActive(old(Views()), k);
    }
  }

  lemma ActivateResult(s: ScriptState, n: nat, k: nat)
    requires Find(s.versions, n) == Some(k)
    requires s.versions[k].status == Active || CanTransition(s.versions[k].status, Active)
    ensures Perform(s, Activate(n)) ==
      (ScriptState(Active, Some(s.versions[k].number), s.currentVersion, MadeActive(s.versions, k)), Done)
  {
  }

  /** `create_script`: the first version is validated before anything is stored. */
  method CreateScript(entry: string, nodes: seq<Node>, text: SimpleText) returns (script: Script?, reply: Reply)
    ensures var c := InitialContent(entry, nodes, text);
            if WellFormed(c.nodes, c.entry)
            then reply == Done && script != null && fresh(script) && script.Separate() && script.State() == NewScript(c)
            else reply == InvalidGraph && script == null
  {
    var content := Content(entry, nodes);
    if nodes == [] {
      var entryId, compiled := NodesFromSimpleText(text);
      content := Content(entryId, compiled);
    }
    var problems := ValidateGraph(content.nodes, content.entry, false);
    StructuralVerdict(content.nodes, content.entry);
    if problems != [] { return null, InvalidGraph; }
    script := new Script(content);
    reply := Done;
  }

  ghost function NewScript(content: Content): ScriptState {
    ScriptState(Draft, None, 1, [Version(1, Draft, content, None, None, None)])
  }
}
