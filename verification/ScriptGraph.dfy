/** Script node graphs: nodes, transitions, edges and walks.

    Identifiers are strings.  An absent or empty `id`, `nextNodeId`, `captureField` or
    `disposition` is the empty string, because the program only ever asks whether the
    value is truthy. */
module ScriptGraph {
  datatype Transition = Transition(id: string, when: string, nextNodeId: string, endCall: bool, disposition: string)

  datatype NodeType = Greeting | Consent | Question | Statement | Condition | Fallback | Transfer | Closing | OptOut

  datatype Node = Node(
    id: string,
    nodeType: NodeType,
    labelText: string,
    prompt: string,
    captureField: string,
    captureType: string,
    required: bool,
    maxRetries: nat,
    noResponseMs: nat,
    allowBargeIn: bool,
    transitions: seq<Transition>,
    terminal: bool,
    complianceRole: string,
    discussesBenefits: bool)

  type Graph = map<string, Node>

  /** The index from identifier to node: a later node replaces an earlier one of the same id. */
  function ById(nodes: seq<Node>): Graph {
    if nodes == [] then map[] else
    var g := ById(nodes[..|nodes| - 1]);
    var n := nodes[|nodes| - 1];
    if n.id == "" then g else g[n.id := n]
  }

  lemma {:induction false} ByIdKeys(nodes: seq<Node>)
    ensures forall k :: k in ById(nodes) <==> k != "" && exists i :: 0 <= i < |nodes| && nodes[i].id == k
    ensures forall k :: k in ById(nodes) ==> ById(nodes)[k].id == k && ById(nodes)[k] in nodes
  {
    if nodes == [] {
    } else {
      var rest, n := nodes[..|nodes| - 1], nodes[|nodes| - 1];
      ByIdKeys(rest);
      assert nodes == rest + [n];
      forall k ensures k in ById(nodes) <==> k != "" && exists i :: 0 <= i < |nodes| && nodes[i].id == k {
        if k in ById(rest) {
          var i :| 0 <= i < |rest| && rest[i].id == k;
          assert nodes[i].id == k;
        }
        if k != "" && exists i :: 0 <= i < |nodes| && nodes[i].id == k {
          var i :| 0 <= i < |nodes| && nodes[i].id == k;
          assert i == |rest| || rest[i].id == k;
        }
      }
    }
  }

  /** A later node replaces an earlier one of the same id. */
  lemma {:induction false} LastOfIdWins(nodes: seq<Node>, i: nat)
    requires i < |nodes| && nodes[i].id != "" && forall j :: i < j < |nodes| ==> nodes[j].id != nodes[i].id
    ensures nodes[i].id in ById(nodes) && ById(nodes)[nodes[i].id] == nodes[i]
  {
    if i < |nodes| - 1 { LastOfIdWins(nodes[..|nodes| - 1], i); }
  }

  /** A transition that leads somewhere inside the graph; `endCall` makes no difference here. */
  predicate LeadsInto(g: Graph, t: Transition) {
    t.nextNodeId != "" && t.nextNodeId in g
  }

  /** The successors named by a list of transitions, in order and with repetitions. */
  function Targets(g: Graph, ts: seq<Transition>): (out: seq<string>)
    ensures forall v :: v in out <==> exists t :: t in ts && LeadsInto(g, t) && t.nextNodeId == v
  {
    if ts == [] then [] else
    var rest := Targets(g, ts[1..]);
    assert ts == [ts[0]] + ts[1..];
    if LeadsInto(g, ts[0]) then [ts[0].nextNodeId] + rest else rest
  }

  ghost predicate Edge(g: Graph, u: string, v: string) {
    u in g && v != "" && v in g && exists t :: t in g[u].transitions && t.nextNodeId == v
  }

  /** A walk of any length; nodes and edges may repeat. */
  ghost predicate IsWalk(g: Graph, w: seq<string>) {
    w != [] && w[0] in g && forall i :: 0 < i < |w| ==> Edge(g, w[i - 1], w[i])
  }

  ghost predicate WalkFromTo(g: Graph, w: seq<string>, u: string, v: string) {
    IsWalk(g, w) && w[0] == u && w[|w| - 1] == v
  }

  ghost predicate Reachable(g: Graph, entry: string, v: string) {
    exists w :: WalkFromTo(g, w, entry, v)
  }

  /** The nodes reachable from `entry`; none when `entry` is not a node. */
  ghost function ReachableSet(g: Graph, entry: string): set<string> {
    set v | v in g && Reachable(g, entry, v)
  }

  lemma ExtendWalk(g: Graph, w: seq<string>, u: string, v: string, x: string)
    requires WalkFromTo(g, w, u, v) && Edge(g, v, x)
    ensures WalkFromTo(g, w + [x], u, x)
  {
    var w' := w + [x];
    forall i | 0 < i < |w'| ensures Edge(g, w'[i - 1], w'[i]) {
      if i < |w| { assert Edge(g, w[i - 1], w[i]); }
    }
  }

  lemma ReachableByEdge(g: Graph, entry: string, v: string, x: string)
    requires Reachable(g, entry, v) && Edge(g, v, x)
    ensures Reachable(g, entry, x)
  {
    var w :| WalkFromTo(g, w, entry, v);
    ExtendWalk(g, w, entry, v, x);
  }

  /** A set that contains the entry and is closed under edges contains every reachable node. */
  lemma ClosedContainsReachable(g: Graph, entry: string, s: set<string>, w: seq<string>)
    requires IsWalk(g, w) && w[0] == entry && entry in s
    requires forall u, v :: u in s && Edge(g, u, v) ==> v in s
    ensures forall i :: 0 <= i < |w| ==> w[i] in s
  {
    var i := 1;
    while i < |w|
      invariant 1 <= i <= |w|
      invariant forall k :: 0 <= k < i ==> w[k] in s
    {
      assert Edge(g, w[i - 1], w[i]);
      i := i + 1;
    }
  }
}
