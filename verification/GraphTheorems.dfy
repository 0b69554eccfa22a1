/** What a verdict of the graph validator means.

    Structure: with no rule enforced there is no error exactly for well-formed graphs.
    Compliance: scanning the simple paths found by the search decides the question for all
    walks, cycles included. */
module GraphTheorems {
  import opened Prelude
  import opened ScriptGraph
  import opened GraphValidator

  // ----- structure -----

  ghost predicate WellFormed(nodes: seq<Node>, entry: string) {
    var g := ById(nodes);
    && nodes != []
    && (forall n :: n in nodes ==> n.id != "")
    && entry in g
    && (forall n, t :: n in nodes && t in n.transitions && !t.endCall && t.nextNodeId != "" ==> t.nextNodeId in g)
    && (forall n :: n in nodes && !n.terminal ==> n.transitions != [])
    && (forall n :: n in nodes ==> Reachable(g, entry, n.id))
  }

  lemma StructuralVerdict(nodes: seq<Node>, entry: string)
    ensures GraphErrors(nodes, entry, false) == [] <==> WellFormed(nodes, entry)
  {
    if nodes != [] {
      IdVerdict(nodes);
      TransitionVerdict(nodes, ById(nodes));
      ReachabilityVerdict(nodes, entry);
    }
  }

  lemma IdVerdict(nodes: seq<Node>)
    ensures IdErrors(nodes) == [] <==> forall n :: n in nodes ==> n.id != ""
  {
    var errs := IdErrors(nodes);
    if errs != [] { assert errs[0] in errs; }
    forall n | n in nodes ensures errs == [] ==> n.id != "" {
      var i :| 0 <= i < |nodes| && nodes[i] == n;
      assert n.id == "" ==> MissingId(i) in errs;
    }
  }

  lemma TransitionVerdict(nodes: seq<Node>, g: Graph)
    ensures TransitionErrors(g, nodes) == [] <==>
      && (forall n, t :: n in nodes && t in n.transitions && !t.endCall && t.nextNodeId != "" ==> t.nextNodeId in g)
      && (forall n :: n in nodes && !n.terminal ==> n.transitions != [])
  {
    var errs := TransitionErrors(g, nodes);
    if errs != [] {
      assert errs[0] in errs;
      var n :| n in nodes && (errs[0] in DanglingErrors(g, n.id, n.transitions) || errs[0] in DeadEndErrors(n));
    }
    forall n, t | n in nodes && t in n.transitions && !t.endCall && t.nextNodeId != ""
      ensures errs == [] ==> t.nextNodeId in g
    {
      var e := DanglingTransition(n.id, t.nextNodeId);
      assert t.nextNodeId !in g ==> e in DanglingErrors(g, n.id, n.transitions) && e in errs;
    }
    forall n | n in nodes ensures errs == [] && !n.terminal ==> n.transitions != [] {
      var e := DeadEnd(n.id);
      assert !n.terminal && n.transitions == [] ==> e in DeadEndErrors(n) && e in errs;
    }
  }

  lemma ReachabilityVerdict(nodes: seq<Node>, entry: string)
    ensures UnreachableErrors(nodes, ReachableSet(ById(nodes), entry)) == [] <==>
      forall n :: n in nodes && n.id != "" ==> Reachable(ById(nodes), entry, n.id)
  {
    var g := ById(nodes);
    ByIdKeys(nodes);
    var reachable := ReachableSet(g, entry);
    var errs := UnreachableErrors(nodes, reachable);
    if errs != [] { assert errs[0] in errs; }
    forall n | n in nodes && n.id != ""
      ensures n.id in g && (errs == [] ==> n.id in reachable)
    {
      var i :| 0 <= i < |nodes| && nodes[i] == n;
      assert n.id !in reachable ==> Unreachable(n.id) in errs;
    }
  }

  // ----- compliance -----

  /** A walk that reaches benefits node `b` with no disclaimer at or before it and no earlier
      benefits node. */
  ghost predicate OffendingWalk(g: Graph, w: seq<string>, entry: string, b: string) {
    && WalkFromTo(g, w, entry, b)
    && b in g && g[b].discussesBenefits
    && (forall i :: 0 <= i < |w| && w[i] in g ==> g[w[i]].complianceRole != "tpmo_disclaimer")
    && (forall i :: 0 <= i < |w| - 1 && w[i] in g ==> !g[w[i]].discussesBenefits)
  }

  ghost predicate HasOffendingWalk(g: Graph, entry: string, b: string) {
    exists w :: OffendingWalk(g, w, entry, b)
  }

  ghost predicate OffendsAt(g: Graph, path: seq<string>, k: nat) {
    && k < |path| && IsBenefits(g, path[k])
    && (forall i :: 0 <= i <= k ==> !IsDisclaimer(g, path[i]))
    && (forall i :: 0 <= i < k ==> !IsBenefits(g, path[i]))
  }

  lemma {:induction false} ScanMeaning(g: Graph, path: seq<string>, b: string)
    ensures FirstOffenceIs(g, path, b) <==> exists k: nat :: OffendsAt(g, path, k) && path[k] == b
  {
    if path == [] {
    } else if IsDisclaimer(g, path[0]) {
      ScanAfterDisclaimer(g, path[1..]);
    } else if IsBenefits(g, path[0]) {
      if path[0] == b { assert OffendsAt(g, path, 0); }
    } else {
      ScanMeaning(g, path[1..], b);
      if k: nat :| OffendsAt(g, path[1..], k) && path[1..][k] == b {
        forall i | 0 <= i <= k + 1 ensures !IsDisclaimer(g, path[i]) {
          if i > 0 { assert path[i] == path[1..][i - 1]; }
        }
        forall i | 0 <= i < k + 1 ensures !IsBenefits(g, path[i]) {
          if i > 0 { assert path[i] == path[1..][i - 1]; }
        }
        assert OffendsAt(g, path, k + 1);
      }
      if k: nat :| OffendsAt(g, path, k) && path[k] == b {
        assert k > 0;
        assert OffendsAt(g, path[1..], k - 1);
      }
    }
  }

  lemma {:induction false} ScanAfterDisclaimer(g: Graph, path: seq<string>)
    ensures FirstOffence(g, path, true) == None
  {
    if path != [] { ScanAfterDisclaimer(g, path[1..]); }
  }

  /** Every recorded path extends the path so far and is a walk if the path so far is one. */
  lemma {:induction false} PathsAreWalks(g: Graph, curr: string, path: seq<string>, visited: set<string>)
    requires curr in g && IsWalk(g, path + [curr])
    ensures forall p :: p in PathsFrom(g, curr, path, visited) ==> IsWalk(g, p) && path + [curr] <= p
    decreases g.Keys - visited, 1, 0
  {
    var next := Targets(g, g[curr].transitions);
    var here := path + [curr];
    if next != [] {
      forall v | v in next ensures Edge(g, here[|here| - 1], v) {}
      PathsOverAreWalks(g, next, here, visited);
    }
  }

  lemma {:induction false} PathsOverAreWalks(g: Graph, next: seq<string>, path: seq<string>, visited: set<string>)
    requires IsWalk(g, path)
    requires forall v :: v in next ==> v in g && Edge(g, path[|path| - 1], v)
    ensures forall p :: p in PathsOver(g, next, path, visited) ==> IsWalk(g, p) && path <= p
    decreases g.Keys - visited, 0, |next|
  {
    if next != [] {
      assert next[0] in next;
      ExtendWalk(g, path, path[0], path[|path| - 1], next[0]);
      if next[0] !in visited {
        assert next[0] in g.Keys - visited;
        PathsAreWalks(g, next[0], path, visited + {next[0]});
      }
      PathsOverAreWalks(g, next[1..], path, visited);
    }
  }

  lemma SomePath(g: Graph, curr: string, path: seq<string>, visited: set<string>) returns (p: seq<string>)
    requires curr in g && IsWalk(g, path + [curr])
    ensures p in PathsFrom(g, curr, path, visited) && path + [curr] <= p
  {
    PathsAreWalks(g, curr, path, visited);
    NonEmptyFrom(g, curr, path, visited);
    p := PathsFrom(g, curr, path, visited)[0];
  }

  lemma {:induction false} NonEmptyFrom(g: Graph, curr: string, path: seq<string>, visited: set<string>)
    requires curr in g
    ensures PathsFrom(g, curr, path, visited) != []
    decreases g.Keys - visited
  {
    var next := Targets(g, g[curr].transitions);
    if next != [] && next[0] !in visited {
      assert next[0] in next;
      assert next[0] in g.Keys - visited;
      NonEmptyFrom(g, next[0], path + [curr], visited + {next[0]});
    }
  }

  /** Every simple walk that avoids the visited nodes is a prefix of a recorded path. */
  lemma {:induction false} SimpleWalksCovered(g: Graph, w: seq<string>, path: seq<string>, visited: set<string>)
    returns (p: seq<string>)
    requires IsWalk(g, w) && Distinct(w) && IsWalk(g, path + [w[0]])
    requires forall i :: 0 < i < |w| ==> w[i] !in visited
    ensures p in PathsFrom(g, w[0], path, visited) && path + w <= p
    decreases |w|
  {
    if |w| == 1 {
      p := SomePath(g, w[0], path, visited);
      assert w == [w[0]];
      return;
    }
    assert Edge(g, w[0], w[1]);
    var here := path + [w[0]];
    ExtendWalk(g, here, here[0], w[0], w[1]);
    assert w[1] in g.Keys - visited;
    WalkTail(g, w);
    p := SimpleWalksCovered(g, w[1..], here, visited + {w[1]});
    assert here + w[1..] == path + w;
    BranchIncluded(g, Targets(g, g[w[0]].transitions), here, visited, w[1], p);
  }

  lemma WalkTail(g: Graph, w: seq<string>)
    requires IsWalk(g, w) && |w| > 1
    ensures IsWalk(g, w[1..])
  {
    assert Edge(g, w[0], w[1]);
    forall i | 0 < i < |w[1..]| ensures Edge(g, w[1..][i - 1], w[1..][i]) {
      assert Edge(g, w[i], w[i + 1]);
    }
  }

  lemma {:induction false} BranchIncluded(
      g: Graph, next: seq<string>, path: seq<string>, visited: set<string>, v: string, p: seq<string>)
    requires forall u :: u in next ==> u in g
    requires v in next && v !in visited && p in PathsFrom(g, v, path, visited + {v})
    ensures p in PathsOver(g, next, path, visited)
    decreases |next|
  {
    if next[0] != v { BranchIncluded(g, next[1..], path, visited, v, p); }
  }

  lemma CutIsWalk(g: Graph, w: seq<string>, i: nat, j: nat)
    requires IsWalk(g, w) && i < j < |w| && w[i] == w[j]
    ensures var cut := w[..i] + w[j..]; IsWalk(g, cut) && cut[0] == w[0] && cut[|cut| - 1] == w[|w| - 1]
  {
    var cut := w[..i] + w[j..];
    forall k | 0 < k < |cut| ensures Edge(g, cut[k - 1], cut[k]) {
      if k < i { assert Edge(g, w[k - 1], w[k]); }
      else if k == i { assert Edge(g, w[i - 1], w[i]); }
      else { assert Edge(g, w[k + j - i - 1], w[k + j - i]); }
    }
  }

  /** A walk that repeats a node can be shortened to an offending walk without repetitions. */
  lemma {:induction false} CutCycles(g: Graph, w: seq<string>, entry: string, b: string) returns (s: seq<string>)
    requires OffendingWalk(g, w, entry, b)
    ensures OffendingWalk(g, s, entry, b) && Distinct(s)
    decreases |w|
  {
    if Distinct(w) { return w; }
    var i, j :| 0 <= i < j < |w| && w[i] == w[j];
    var cut := w[..i] + w[j..];
    CutIsWalk(g, w, i, j);
    assert j < |w| - 1;
    forall k | 0 <= k < |cut| ensures !IsDisclaimer(g, cut[k]) && (k < |cut| - 1 ==> !IsBenefits(g, cut[k])) {
      if k >= i { assert cut[k] == w[k + j - i]; }
    }
    s := CutCycles(g, cut, entry, b);
  }

  /** The scan over the search's simple paths decides the question for walks of any length. */
  lemma ComplianceVerdict(nodes: seq<Node>, entry: string, b: string)
    ensures BenefitsBeforeDisclaimer(b) in GraphErrors(nodes, entry, true)
       <==> HasOffendingWalk(ById(nodes), entry, b)
  {
    var g := ById(nodes);
    if nodes == [] || entry !in g {
      assert forall w :: !OffendingWalk(g, w, entry, b);
    }
    if nodes != [] {
      OnlyComplianceErrors(nodes, entry, b);
      if entry in g { PathsDecide(g, entry, b); }
    }
  }

  lemma PathsDecide(g: Graph, entry: string, b: string)
    requires entry in g
    ensures BenefitsBeforeDisclaimer(b) in ComplianceErrors(g, AllPaths(g, entry)) <==> HasOffendingWalk(g, entry, b)
  {
    if p :| p in AllPaths(g, entry) && FirstOffenceIs(g, p, b) { ReportedIsWalk(g, entry, b, p); }
    if w :| OffendingWalk(g, w, entry, b) { var p := WalkIsReported(g, entry, b, w); }
  }

  lemma ReportedIsWalk(g: Graph, entry: string, b: string, p: seq<string>)
    requires entry in g && p in AllPaths(g, entry) && FirstOffenceIs(g, p, b)
    ensures HasOffendingWalk(g, entry, b)
  {
    assert [] + [entry] == [entry];
    PathsAreWalks(g, entry, [], {entry});
    ScanMeaning(g, p, b);
    var k: nat :| OffendsAt(g, p, k) && p[k] == b;
    assert OffendingWalk(g, p[..k + 1], entry, b);
  }

  lemma OffendsAlongPrefix(g: Graph, w: seq<string>, p: seq<string>, entry: string, b: string)
    requires OffendingWalk(g, w, entry, b) && w <= p
    ensures OffendsAt(g, p, |w| - 1) && p[|w| - 1] == b
  {
    assert forall i :: 0 <= i < |w| ==> p[i] == w[i];
  }

  lemma ScanFinds(g: Graph, path: seq<string>, k: nat, b: string)
    requires OffendsAt(g, path, k) && path[k] == b
    ensures FirstOffenceIs(g, path, b)
  {
    ScanMeaning(g, path, b);
  }

  /** Every simple walk from the entry is a prefix of one of the search's paths. */
  lemma CoveredFromEntry(g: Graph, entry: string, s: seq<string>) returns (p: seq<string>)
    requires entry in g && IsWalk(g, s) && Distinct(s) && s[0] == entry
    ensures p in AllPaths(g, entry) && s <= p
  {
    assert [] + [entry] == [entry] && [] + s == s;
    p := SimpleWalksCovered(g, s, [], {entry});
  }

  lemma WalkIsReported(g: Graph, entry: string, b: string, w: seq<string>) returns (p: seq<string>)
    requires entry in g && OffendingWalk(g, w, entry, b)
    ensures p in AllPaths(g, entry) && FirstOffenceIs(g, p, b)
  {
    var s := CutCycles(g, w, entry, b);
    p := CoveredFromEntry(g, entry, s);
    OffendsAlongPrefix(g, s, p, entry, b);
    ScanFinds(g, p, |s| - 1, b);
  }

  lemma OnlyComplianceErrors(nodes: seq<Node>, entry: string, b: string)
    requires nodes != []
    ensures BenefitsBeforeDisclaimer(b) in GraphErrors(nodes, entry, true)
       <==> (entry in ById(nodes)
             && BenefitsBeforeDisclaimer(b) in ComplianceErrors(ById(nodes), AllPaths(ById(nodes), entry)))
  {
    var e := BenefitsBeforeDisclaimer(b);
    var g := ById(nodes);
    assert e !in TransitionErrors(g, nodes);
  }

  /** Acceptance under the enforced rule. */
  lemma EnforcedVerdict(nodes: seq<Node>, entry: string)
    ensures GraphErrors(nodes, entry, true) == [] <==>
      WellFormed(nodes, entry) && forall b :: !HasOffendingWalk(ById(nodes), entry, b)
  {
    StructuralVerdict(nodes, entry);
    if nodes == [] { return; }
    var g := ById(nodes);
    var all := GraphErrors(nodes, entry, true);
    if all == [] {
      forall b ensures !HasOffendingWalk(g, entry, b) {
        ComplianceVerdict(nodes, entry, b);
        assert BenefitsBeforeDisclaimer(b) !in all;
      }
    }
    if entry in g && WellFormed(nodes, entry) && ComplianceErrors(g, AllPaths(g, entry)) != [] {
      var errs := ComplianceErrors(g, AllPaths(g, entry));
      assert errs[0] in errs;
      ComplianceVerdict(nodes, entry, errs[0].nodeId);
      OnlyComplianceErrors(nodes, entry, errs[0].nodeId);
    }
  }
}
