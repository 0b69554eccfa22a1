/** What each error of the validator says about the graph, and what ending the call does to it. */
module VerdictTheorems {
  import opened ScriptGraph
  import opened GraphValidator
  import opened GraphTheorems

  ghost predicate HasId(nodes: seq<Node>, id: string) {
    exists n :: n in nodes && n.id == id
  }

  /** A node of this id has a transition to `target` that does not end the call. */
  ghost predicate Continues(nodes: seq<Node>, id: string, target: string) {
    exists n, t :: n in nodes && n.id == id && t in n.transitions && !t.endCall && t.nextNodeId == target
  }

  ghost predicate Deserved(nodes: seq<Node>, entry: string, enforce: bool, e: GraphError) {
    match e
    case EmptyGraph => nodes == []
    case MissingId(i) => i < |nodes| && nodes[i].id == ""
    case MissingEntry(id) => nodes != [] && id == entry && (id == "" || !HasId(nodes, id))
    case DanglingTransition(id, target) => target != "" && !HasId(nodes, target) && Continues(nodes, id, target)
    case DeadEnd(id) => exists n :: n in nodes && n.id == id && !n.terminal && n.transitions == []
    case Unreachable(id) => id != "" && HasId(nodes, id) && !Reachable(ById(nodes), entry, id)
    case BenefitsBeforeDisclaimer(id) => enforce && HasOffendingWalk(ById(nodes), entry, id)
  }

  lemma IdsAreKeys(nodes: seq<Node>, id: string)
    ensures id in ById(nodes) <==> id != "" && HasId(nodes, id)
  {
    ByIdKeys(nodes);
    if n :| n in nodes && n.id == id {
      var i :| 0 <= i < |nodes| && nodes[i] == n;
    }
    if i :| 0 <= i < |nodes| && nodes[i].id == id { assert nodes[i] in nodes; }
  }

  lemma DanglingExactly(nodes: seq<Node>, id: string, target: string)
    ensures DanglingTransition(id, target) in TransitionErrors(ById(nodes), nodes) <==>
      target != "" && !HasId(nodes, target) && Continues(nodes, id, target)
  {
    var g, e := ById(nodes), DanglingTransition(id, target);
    IdsAreKeys(nodes, target);
    if e in TransitionErrors(g, nodes) {
      var n :| n in nodes && e in DanglingErrors(g, n.id, n.transitions);
    }
    if n, t :| n in nodes && n.id == id && t in n.transitions && !t.endCall && t.nextNodeId == target {
      assert target != "" && target !in g ==> e in DanglingErrors(g, n.id, n.transitions);
    }
  }

  lemma DeadEndExactly(nodes: seq<Node>, id: string)
    ensures DeadEnd(id) in TransitionErrors(ById(nodes), nodes) <==>
      exists n :: n in nodes && n.id == id && !n.terminal && n.transitions == []
  {
    if n :| n in nodes && n.id == id && !n.terminal && n.transitions == [] {
      assert DeadEnd(id) in DeadEndErrors(n);
    }
  }

  lemma UnreachableExactly(nodes: seq<Node>, entry: string, id: string)
    ensures Unreachable(id) in UnreachableErrors(nodes, ReachableSet(ById(nodes), entry)) <==>
      id != "" && HasId(nodes, id) && !Reachable(ById(nodes), entry, id)
  {
    IdsAreKeys(nodes, id);
  }

  /** Which block of checks an error comes from. */
  ghost predicate Reported(nodes: seq<Node>, entry: string, enforce: bool, e: GraphError) {
    var g := ById(nodes);
    match e
    case EmptyGraph => false
    case MissingId(_) => e in IdErrors(nodes)
    case MissingEntry(id) => id == entry && entry !in g
    case DanglingTransition(_, _) => e in TransitionErrors(g, nodes)
    case DeadEnd(_) => e in TransitionErrors(g, nodes)
    case Unreachable(_) => e in UnreachableErrors(nodes, ReachableSet(g, entry))
    case BenefitsBeforeDisclaimer(_) => enforce && entry in g && e in ComplianceErrors(g, AllPaths(g, entry))
  }

  lemma ErrorsByBlock(nodes: seq<Node>, entry: string, enforce: bool, e: GraphError)
    requires nodes != []
    ensures e in GraphErrors(nodes, entry, enforce) <==> Reported(nodes, entry, enforce, e)
  {
    OwnKinds(nodes, entry, e);
  }

  lemma OwnKinds(nodes: seq<Node>, entry: string, e: GraphError)
    ensures e in IdErrors(nodes) ==> e.MissingId?
    ensures e in TransitionErrors(ById(nodes), nodes) ==> e.DanglingTransition? || e.DeadEnd?
    ensures e in UnreachableErrors(nodes, ReachableSet(ById(nodes), entry)) ==> e.Unreachable?
  {
  }

  /** Every error that is reported is deserved, and every one that is deserved is reported. */
  lemma ErrorsExactly(nodes: seq<Node>, entry: string, enforce: bool, e: GraphError)
    ensures e in GraphErrors(nodes, entry, enforce) <==> Deserved(nodes, entry, enforce, e)
  {
    if nodes == [] {
      NothingInEmpty(entry, enforce, e);
    } else {
      ErrorsByBlock(nodes, entry, enforce, e);
      match e
      case EmptyGraph =>
      case MissingId(i) =>
      case MissingEntry(id) => IdsAreKeys(nodes, entry);
      case DanglingTransition(id, target) => DanglingExactly(nodes, id, target);
      case DeadEnd(id) => DeadEndExactly(nodes, id);
      case Unreachable(id) => UnreachableExactly(nodes, entry, id);
      case BenefitsBeforeDisclaimer(id) =>
        ComplianceVerdict(nodes, entry, id);
        OnlyComplianceErrors(nodes, entry, id);
    }
  }

  lemma NothingInEmpty(entry: string, enforce: bool, e: GraphError)
    ensures Deserved([], entry, enforce, e) <==> e == EmptyGraph
  {
    if e.BenefitsBeforeDisclaimer? {
      forall w ensures !OffendingWalk(ById([]), w, entry, e.nodeId) {}
    }
  }

  // ----- ending the call instead of leading nowhere -----

  /** The transition, ending the call if its target is missing. */
  ghost function Ended(t: Transition, ids: set<string>): Transition {
    if t.nextNodeId == "" || t.nextNodeId in ids then t else t.(endCall := true)
  }

  ghost function EndedNode(n: Node, ids: set<string>): Node {
    n.(transitions := seq(|n.transitions|, i requires 0 <= i < |n.transitions| => Ended(n.transitions[i], ids)))
  }

  ghost function EndedGraph(nodes: seq<Node>, ids: set<string>): seq<Node> {
    seq(|nodes|, i requires 0 <= i < |nodes| => EndedNode(nodes[i], ids))
  }

  lemma {:induction false} EndedIndex(nodes: seq<Node>, ids: set<string>)
    ensures var g, h := ById(nodes), ById(EndedGraph(nodes, ids));
            h.Keys == g.Keys && forall k :: k in g ==> h[k] == EndedNode(g[k], ids)
  {
    if nodes != [] {
      var n := |nodes| - 1;
      EndedIndex(nodes[..n], ids);
      assert EndedGraph(nodes, ids)[..n] == EndedGraph(nodes[..n], ids);
    }
  }

  lemma EndedEdges(n: Node, ids: set<string>, v: string)
    ensures (exists t :: t in EndedNode(n, ids).transitions && t.nextNodeId == v) <==>
      (exists t :: t in n.transitions && t.nextNodeId == v)
  {
    var ts := EndedNode(n, ids).transitions;
    if t :| t in n.transitions && t.nextNodeId == v {
      var i :| 0 <= i < |n.transitions| && n.transitions[i] == t;
      assert ts[i] in ts && ts[i].nextNodeId == v;
    }
    if t :| t in ts && t.nextNodeId == v {
      var i :| 0 <= i < |ts| && ts[i] == t;
      assert n.transitions[i] in n.transitions;
    }
  }

  lemma EndedWalks(nodes: seq<Node>, ids: set<string>, w: seq<string>)
    ensures IsWalk(ById(EndedGraph(nodes, ids)), w) <==> IsWalk(ById(nodes), w)
  {
    var g, h := ById(nodes), ById(EndedGraph(nodes, ids));
    EndedIndex(nodes, ids);
    forall u, v ensures Edge(h, u, v) <==> Edge(g, u, v) {
      if u in g { EndedEdges(g[u], ids, v); }
    }
  }

  lemma EndedReach(nodes: seq<Node>, ids: set<string>, entry: string, id: string)
    ensures var g, h := ById(nodes), ById(EndedGraph(nodes, ids));
            && (Reachable(h, entry, id) <==> Reachable(g, entry, id))
            && (HasOffendingWalk(h, entry, id) <==> HasOffendingWalk(g, entry, id))
  {
    var g, h := ById(nodes), ById(EndedGraph(nodes, ids));
    EndedIndex(nodes, ids);
    forall w ensures WalkFromTo(h, w, entry, id) <==> WalkFromTo(g, w, entry, id) { EndedWalks(nodes, ids, w); }
    forall w ensures OffendingWalk(h, w, entry, id) <==> OffendingWalk(g, w, entry, id) {
      assert WalkFromTo(h, w, entry, id) <==> WalkFromTo(g, w, entry, id);
    }
  }

  lemma EndedIds(nodes: seq<Node>, ids: set<string>, id: string)
    ensures HasId(EndedGraph(nodes, ids), id) <==> HasId(nodes, id)
  {
    var ended := EndedGraph(nodes, ids);
    if n :| n in nodes && n.id == id {
      var i :| 0 <= i < |nodes| && nodes[i] == n;
      assert ended[i] in ended && ended[i].id == id;
    }
    if n :| n in ended && n.id == id {
      var i :| 0 <= i < |ended| && ended[i] == n;
      assert nodes[i] in nodes;
    }
  }

  lemma EndedDeadEnds(nodes: seq<Node>, ids: set<string>, entry: string, id: string)
    ensures Deserved(EndedGraph(nodes, ids), entry, false, DeadEnd(id)) <==> Deserved(nodes, entry, false, DeadEnd(id))
  {
    var ended := EndedGraph(nodes, ids);
    if n :| n in nodes && n.id == id && !n.terminal && n.transitions == [] {
      var i :| 0 <= i < |nodes| && nodes[i] == n;
      assert ended[i] in ended && ended[i].id == id && !ended[i].terminal && ended[i].transitions == [];
    }
    if n :| n in ended && n.id == id && !n.terminal && n.transitions == [] {
      var i :| 0 <= i < |ended| && ended[i] == n;
      assert nodes[i] in nodes && |nodes[i].transitions| == 0;
    }
  }

  lemma NothingContinues(nodes: seq<Node>, ids: set<string>, id: string, target: string)
    requires target != "" && target !in ids
    ensures !Continues(EndedGraph(nodes, ids), id, target)
  {
  }

  /** Letting every transition with a missing target end the call removes exactly the errors about
      such transitions: it adds none, and reachability and compliance stay as they were. */
  lemma EndingRemovesDangling(nodes: seq<Node>, entry: string, enforce: bool, e: GraphError)
    ensures e in GraphErrors(EndedGraph(nodes, ById(nodes).Keys), entry, enforce) <==>
      e in GraphErrors(nodes, entry, enforce) && !e.DanglingTransition?
  {
    var ids := ById(nodes).Keys;
    var ended := EndedGraph(nodes, ids);
    ErrorsExactly(nodes, entry, enforce, e);
    ErrorsExactly(ended, entry, enforce, e);
    match e
    case EmptyGraph =>
    case MissingId(i) =>
    case MissingEntry(id) => EndedIds(nodes, ids, id);
    case DanglingTransition(id, target) =>
      EndedIds(nodes, ids, target);
      IdsAreKeys(nodes, target);
      if target != "" && target !in ids { NothingContinues(nodes, ids, id, target); }
    case DeadEnd(id) => EndedDeadEnds(nodes, ids, entry, id);
    case Unreachable(id) =>
      EndedIds(nodes, ids, id);
      EndedReach(nodes, ids, entry, id);
    case BenefitsBeforeDisclaimer(id) => EndedReach(nodes, ids, entry, id);
  }
}
