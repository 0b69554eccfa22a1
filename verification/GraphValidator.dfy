/** `validate_graph`: structure checks, reachability by breadth-first search and the scan of
    all simple paths that decides whether a disclaimer precedes every benefits node. */
module GraphValidator {
  import opened Prelude
  import opened ScriptGraph

  datatype GraphError =
    | EmptyGraph
    | MissingId(index: nat)
    | MissingEntry(entryId: string)
    | DanglingTransition(nodeId: string, target: string)
    | DeadEnd(nodeId: string)
    | Unreachable(nodeId: string)
    | BenefitsBeforeDisclaimer(nodeId: string)

  predicate IsDisclaimer(g: Graph, id: string) {
    id in g && g[id].complianceRole == "tpmo_disclaimer"
  }

  predicate IsBenefits(g: Graph, id: string) {
    id in g && g[id].discussesBenefits
  }

  // ----- what each block of checks reports, as functions of its input -----

  function IdErrors(nodes: seq<Node>): (errs: seq<GraphError>)
    ensures forall e :: e in errs <==> exists i :: 0 <= i < |nodes| && nodes[i].id == "" && e == MissingId(i)
  {
    if nodes == [] then [] else
    var rest := nodes[..|nodes| - 1];
    assert forall i :: 0 <= i < |rest| ==> nodes[i] == rest[i];
    var errs := IdErrors(rest);
    if nodes[|nodes| - 1].id == "" then
      assert nodes[|nodes| - 1].id == "" && MissingId(|nodes| - 1) == MissingId(|nodes| - 1);
      errs + [MissingId(|nodes| - 1)]
    else errs
  }

  predicate Dangles(g: Graph, t: Transition) {
    !t.endCall && t.nextNodeId != "" && t.nextNodeId !in g
  }

  function DanglingErrors(g: Graph, id: string, ts: seq<Transition>): (errs: seq<GraphError>)
    ensures forall e :: e in errs <==> exists t :: t in ts && Dangles(g, t) && e == DanglingTransition(id, t.nextNodeId)
  {
    if ts == [] then [] else
    var last := ts[|ts| - 1];
    assert ts == ts[..|ts| - 1] + [last];
    var errs := DanglingErrors(g, id, ts[..|ts| - 1]);
    if Dangles(g, last) then errs + [DanglingTransition(id, last.nextNodeId)] else errs
  }

  function DeadEndErrors(n: Node): seq<GraphError> {
    if !n.terminal && n.transitions == [] then [DeadEnd(n.id)] else []
  }

  function TransitionErrors(g: Graph, nodes: seq<Node>): (errs: seq<GraphError>)
    ensures forall e :: e in errs <==>
      (exists n :: n in nodes && (e in DanglingErrors(g, n.id, n.transitions) || e in DeadEndErrors(n)))
  {
    if nodes == [] then [] else
    var last := nodes[|nodes| - 1];
    assert nodes == nodes[..|nodes| - 1] + [last];
    TransitionErrors(g, nodes[..|nodes| - 1]) + DanglingErrors(g, last.id, last.transitions) + DeadEndErrors(last)
  }

  function UnreachableErrors(nodes: seq<Node>, reachable: set<string>): (errs: seq<GraphError>)
    ensures forall e :: e in errs <==>
      exists n :: n in nodes && n.id != "" && n.id !in reachable && e == Unreachable(n.id)
  {
    if nodes == [] then [] else
    var last := nodes[|nodes| - 1];
    assert nodes == nodes[..|nodes| - 1] + [last];
    var errs := UnreachableErrors(nodes[..|nodes| - 1], reachable);
    if last.id != "" && last.id !in reachable then errs + [Unreachable(last.id)] else errs
  }

  // ----- the all-paths search -----

  /** The paths a depth-first search records from `curr`, given the path so far and the
      nodes on it.  A step back to a visited node is recorded and not followed. */
  function PathsFrom(g: Graph, curr: string, path: seq<string>, visited: set<string>): seq<seq<string>>
    requires curr in g
    decreases g.Keys - visited, 1, 0
  {
    var next := Targets(g, g[curr].transitions);
    if next == [] then [path + [curr]] else PathsOver(g, next, path + [curr], visited)
  }

  function PathsOver(g: Graph, next: seq<string>, path: seq<string>, visited: set<string>): seq<seq<string>>
    requires forall v :: v in next ==> v in g
    decreases g.Keys - visited, 0, |next|
  {
    if next == [] then [] else
    (if next[0] in visited then [path + [next[0]]]
     else
       assert next[0] in g.Keys - visited;
       PathsFrom(g, next[0], path, visited + {next[0]}))
    + PathsOver(g, next[1..], path, visited)
  }

  /** The paths through the remaining successors, the next one first. */
  lemma FirstBranch(
      g: Graph, next: seq<string>, k: nat, path: seq<string>, visited: set<string>, done: seq<seq<string>>)
    requires k < |next| && forall v :: v in next[k..] ==> v in g
    ensures next[k] in g && forall v :: v in next[k + 1..] ==> v in g
    ensures next[k] in visited ==>
      done + PathsOver(g, next[k..], path, visited) ==
        done + [path + [next[k]]] + PathsOver(g, next[k + 1..], path, visited)
    ensures next[k] !in visited ==>
      done + PathsOver(g, next[k..], path, visited) ==
        done + PathsFrom(g, next[k], path, visited + {next[k]}) + PathsOver(g, next[k + 1..], path, visited)
  {
    assert next[k..][0] == next[k] && next[k..][1..] == next[k + 1..];
    assert next[k] in next[k..];
  }

  lemma OneFewer(g: Graph, visited: set<string>, v: string)
    requires v in g && v !in visited
    ensures g.Keys - (visited + {v}) < g.Keys - visited && visited + {v} - {v} == visited
  {
    assert v in g.Keys - visited;
  }

  function AllPaths(g: Graph, entry: string): seq<seq<string>> requires entry in g {
    PathsFrom(g, entry, [], {entry})
  }

  /** The search of the program: one path and one visited set, changed in place and put back. */
  class PathSearch {
    const byId: Graph
    var currentPath: seq<string>
    var visited: set<string>
    var paths: seq<seq<string>>

    constructor (g: Graph, start: string)
      ensures byId == g && currentPath == [] && visited == {start} && paths == []
    {
      byId := g;
      currentPath := [];
      visited := {start};
      paths := [];
    }

    method Dfs(curr: string)
      requires curr in byId
      modifies this
      ensures currentPath == old(currentPath) && visited == old(visited)
      ensures paths == old(paths) + PathsFrom(byId, curr, old(currentPath), old(visited))
      decreases byId.Keys - visited
    {
      currentPath := currentPath + [curr];
      var nextNodes := Targets(byId, byId[curr].transitions);
      if nextNodes == [] {
        paths := paths + [currentPath];
      } else {
        ghost var path, seen := currentPath, visited;
        ghost var goal := paths + PathsOver(byId, nextNodes, path, seen);
        assert nextNodes[0..] == nextNodes;
        for k := 0 to |nextNodes|
          invariant currentPath == path && visited == seen
          invariant forall v :: v in nextNodes[k..] ==> v in byId
          invariant paths + PathsOver(byId, nextNodes[k..], path, seen) == goal
        {
          var nxt := nextNodes[k];
          FirstBranch(byId, nextNodes, k, path, seen, paths);
          if nxt !in visited {
            OneFewer(byId, seen, nxt);
            visited := visited + {nxt};
            Dfs(nxt);
            visited := visited - {nxt};
          } else {
            paths := paths + [currentPath + [nxt]];
          }
        }
        assert paths + [] == paths;
      }
      currentPath := currentPath[..|currentPath| - 1];
    }
  }

  // ----- the compliance scan -----

  /** The first node of a path that discusses benefits before any disclaimer. */
  function FirstOffence(g: Graph, path: seq<string>, seenDisclaimer: bool): Option<string> {
    if path == [] then None else
    var seen := seenDisclaimer || IsDisclaimer(g, path[0]);
    if IsBenefits(g, path[0]) && !seen then Some(path[0]) else FirstOffence(g, path[1..], seen)
  }

  ghost predicate FirstOffenceIs(g: Graph, path: seq<string>, b: string) {
    FirstOffence(g, path, false) == Some(b)
  }

  function ComplianceErrors(g: Graph, paths: seq<seq<string>>): (errs: seq<GraphError>)
    ensures forall e :: e in errs ==> e.BenefitsBeforeDisclaimer?
    ensures forall b :: BenefitsBeforeDisclaimer(b) in errs <==> exists p :: p in paths && FirstOffenceIs(g, p, b)
  {
    if paths == [] then [] else
    var last := paths[|paths| - 1];
    assert paths == paths[..|paths| - 1] + [last];
    var errs := ComplianceErrors(g, paths[..|paths| - 1]);
    assert last in paths;
    var offence := FirstOffence(g, last, false);
    if offence.Some? then errs + [BenefitsBeforeDisclaimer(offence.value)] else errs
  }

  // ----- the whole validator -----

  ghost function GraphErrors(nodes: seq<Node>, entry: string, enforce: bool): seq<GraphError> {
    if nodes == [] then [EmptyGraph] else
    var g := ById(nodes);
    IdErrors(nodes)
    + (if entry in g then [] else [MissingEntry(entry)])
    + TransitionErrors(g, nodes)
    + UnreachableErrors(nodes, ReachableSet(g, entry))
    + (if enforce && entry in g then ComplianceErrors(g, AllPaths(g, entry)) else [])
  }

  /** Breadth-first search from the entry. */
  method ReachableIds(g: Graph, entry: string) returns (reachable: set<string>)
    ensures reachable == ReachableSet(g, entry)
  {
    reachable := {};
    if entry !in g {
      assert forall w, v :: !WalkFromTo(g, w, entry, v);
      return;
    }
    var queue := [entry];
    reachable := {entry};
    assert WalkFromTo(g, [entry], entry, entry);
    while queue != []
      invariant entry in reachable && reachable <= ReachableSet(g, entry)
      invariant forall v :: v in queue ==> v in reachable
      invariant forall u, v :: u in reachable && u !in queue && Edge(g, u, v) ==> v in reachable
      decreases g.Keys - reachable, |queue|
    {
      var curr := queue[0];
      assert curr in queue;
      ghost var before, rest := reachable, queue[1..];
      assert queue == [curr] + rest;
      queue := queue[1..];
      var ts := g[curr].transitions;
      for k := 0 to |ts|
        invariant before <= reachable <= ReachableSet(g, entry)
        invariant rest <= queue && (reachable == before ==> queue == rest)
        invariant forall v :: v in queue ==> v in reachable
        invariant forall v :: v in reachable ==> v in before || v in queue
        invariant forall t :: t in ts[..k] && LeadsInto(g, t) ==> t.nextNodeId in reachable
      {
        var nxt := ts[k].nextNodeId;
        assert ts[..k + 1] == ts[..k] + [ts[k]];
        if LeadsInto(g, ts[k]) && nxt !in reachable {
          assert Edge(g, curr, nxt);
          ReachableByEdge(g, entry, curr, nxt);
          reachable := reachable + {nxt};
          queue := queue + [nxt];
        }
      }
      assert ts[..|ts|] == ts;
    }
    forall v | v in ReachableSet(g, entry) ensures v in reachable {
      var w :| WalkFromTo(g, w, entry, v);
      ClosedContainsReachable(g, entry, reachable, w);
    }
  }

  method ScanPath(g: Graph, path: seq<string>) returns (offence: Option<string>)
    ensures offence == FirstOffence(g, path, false)
  {
    var seen := false;
    for i := 0 to |path|
      invariant FirstOffence(g, path[i..], seen) == FirstOffence(g, path, false)
    {
      if IsDisclaimer(g, path[i]) { seen := true; }
      if IsBenefits(g, path[i]) && !seen { return Some(path[i]); }
      assert path[i..][1..] == path[i + 1..];
    }
    return None;
  }

  /** Builds the index and reports nodes without an identifier. */
  method IndexNodes(nodes: seq<Node>) returns (byId: Graph, errs: seq<GraphError>)
    ensures byId == ById(nodes) && errs == IdErrors(nodes)
  {
    byId, errs := map[], [];
    for i := 0 to |nodes|
      invariant errs == IdErrors(nodes[..i]) && byId == ById(nodes[..i])
    {
      assert nodes[..i + 1][..i] == nodes[..i];
      if nodes[i].id == "" {
        errs := errs + [MissingId(i)];
      } else {
        byId := byId[nodes[i].id := nodes[i]];
      }
    }
    assert nodes[..|nodes|] == nodes;
  }

  method CheckTransitions(g: Graph, nodes: seq<Node>) returns (errs: seq<GraphError>)
    ensures errs == TransitionErrors(g, nodes)
  {
    errs := [];
    for i := 0 to |nodes|
      invariant errs == TransitionErrors(g, nodes[..i])
    {
      assert nodes[..i + 1][..i] == nodes[..i];
      var n := nodes[i];
      ghost var before := errs;
      for k := 0 to |n.transitions|
        invariant errs == before + DanglingErrors(g, n.id, n.transitions[..k])
      {
        assert n.transitions[..k + 1][..k] == n.transitions[..k];
        if Dangles(g, n.transitions[k]) {
          errs := errs + [DanglingTransition(n.id, n.transitions[k].nextNodeId)];
        }
      }
      assert n.transitions[..|n.transitions|] == n.transitions;
      if !n.terminal && n.transitions == [] {
        errs := errs + [DeadEnd(n.id)];
      }
    }
    assert nodes[..|nodes|] == nodes;
  }

  method CheckReachability(nodes: seq<Node>, reachable: set<string>) returns (errs: seq<GraphError>)
    ensures errs == UnreachableErrors(nodes, reachable)
  {
    errs := [];
    for i := 0 to |nodes|
      invariant errs == UnreachableErrors(nodes[..i], reachable)
    {
      assert nodes[..i + 1][..i] == nodes[..i];
      if nodes[i].id != "" && nodes[i].id !in reachable {
        errs := errs + [Unreachable(nodes[i].id)];
      }
    }
    assert nodes[..|nodes|] == nodes;
  }

  /** The loop over the recorded paths. */
  method ScanPaths(g: Graph, paths: seq<seq<string>>) returns (errs: seq<GraphError>)
    ensures errs == ComplianceErrors(g, paths)
  {
    errs := [];
    for i := 0 to |paths|
      invariant errs == ComplianceErrors(g, paths[..i])
    {
      assert paths[..i + 1][..i] == paths[..i];
      var offence := ScanPath(g, paths[i]);
      if offence.Some? {
        errs := errs + [BenefitsBeforeDisclaimer(offence.value)];
      }
    }
    assert paths[..|paths|] == paths;
  }

  method CheckCompliance(g: Graph, entry: string) returns (errs: seq<GraphError>)
    requires entry in g
    ensures errs == ComplianceErrors(g, AllPaths(g, entry))
  {
    var search := new PathSearch(g, entry);
    search.Dfs(entry);
    assert search.paths == AllPaths(g, entry);
    errs := ScanPaths(g, search.paths);
  }

  /** The report is its five parts in order. */
  lemma ReportParts(
      nodes: seq<Node>, entry: string, enforce: bool, ids: seq<GraphError>, transitions: seq<GraphError>,
      unreachable: seq<GraphError>, compliance: seq<GraphError>)
    requires nodes != [] && ids == IdErrors(nodes) && transitions == TransitionErrors(ById(nodes), nodes)
    requires unreachable == UnreachableErrors(nodes, ReachableSet(ById(nodes), entry))
    requires enforce && entry in ById(nodes) ==>
      compliance == ComplianceErrors(ById(nodes), AllPaths(ById(nodes), entry))
    requires !(enforce && entry in ById(nodes)) ==> compliance == []
    ensures var missing := if entry in ById(nodes) then [] else [MissingEntry(entry)];
            ids + missing + transitions + unreachable + compliance == GraphErrors(nodes, entry, enforce)
  {
  }

  method ValidateGraph(nodes: seq<Node>, entry: string, enforce: bool) returns (errs: seq<GraphError>)
    ensures errs == GraphErrors(nodes, entry, enforce)
  {
    if nodes == [] {
      return [EmptyGraph];
    }
    var byId, idErrs := IndexNodes(nodes);
    errs := idErrs;
    if entry !in byId {
      errs := errs + [MissingEntry(entry)];
    }
    var transitionErrs := CheckTransitions(byId, nodes);
    errs := errs + transitionErrs;
    var reachable := ReachableIds(byId, entry);
    var unreachableErrs := CheckReachability(nodes, reachable);
    errs := errs + unreachableErrs;
    var complianceErrs := [];
    if enforce && entry in byId {
      complianceErrs := CheckCompliance(byId, entry);
      errs := errs + complianceErrs;
    }
    ReportParts(nodes, entry, enforce, idErrs, transitionErrs, unreachableErrs, complianceErrs);
  }
}
