/** What a simulation of compiled text captures, and how its nodes are asked. */
module CompilerCaptures {
  import opened Text
  import opened ScriptGraph
  import opened ScriptSimulator
  import opened SimulatorTheorems
  import opened ScriptCompiler
  import opened CompilerTheorems

  /** The field node `i` captures: the consent, then the questions by number; empty for the others. */
  function FieldAt(count: nat, i: nat): string {
    if i == 1 then "tcpa_consent" else if 2 <= i < count + 2 then "qual_q" + Numeral(i - 1) else ""
  }

  /** Consent and questions capture a yes or no and may be asked twice more; every node waits five
      seconds, and all but the last two are required and can be interrupted. */
  lemma CompiledSettings(t: SimpleText, i: nat)
    requires i < |QuestionsOf(t)| + 4
    ensures var g, n := ById(CompiledNodes(t)), |QuestionsOf(t)|;
            && IdAt(n, i) in g
            && var node := g[IdAt(n, i)];
            && node.captureField == FieldAt(n, i)
            && node.captureType == (if 1 <= i < n + 2 then "boolean" else "")
            && node.maxRetries == (if 1 <= i < n + 2 then 2 else 1)
            && node.noResponseMs == 5000 && !node.terminal
            && (node.required <==> i < n + 2) && (node.allowBargeIn <==> i < n + 2)
  {
    CompiledIndex(t);
    var nodes, n := CompiledNodes(t), |QuestionsOf(t)|;
    assert nodes[i] == if i == 0 then GreetingNode(t) else if i == 1 then ConsentNode(t, n)
                       else if i < n + 2 then QuestionNode(QuestionsOf(t)[i - 2], i - 1, n)
                       else if i == n + 2 then TransferNode(t) else DisqualifyNode(t);
  }

  lemma CapturesAt(t: SimpleText, i: nat)
    requires i < |QuestionsOf(t)| + 4
    ensures var g, n := ById(CompiledNodes(t)), |QuestionsOf(t)|;
            IdAt(n, i) in g && g[IdAt(n, i)].captureField == FieldAt(n, i)
  {
    CompiledSettings(t, i);
  }

  lemma FieldsDiffer(count: nat, i: nat, j: nat)
    requires 1 <= i < j < count + 2
    ensures FieldAt(count, i) != FieldAt(count, j)
  {
    if i == 1 {
      assert "tcpa_consent"[0] != FieldAt(count, j)[0];
    } else {
      NumeralValue(i - 1);
      NumeralValue(j - 1);
      assert FieldAt(count, i)[6..] == Numeral(i - 1) && FieldAt(count, j)[6..] == Numeral(j - 1);
    }
  }

  /** Field `i` has been captured exactly if an answer was given at node `i`, and is that answer. */
  ghost predicate CapturedAt(captured: map<string, string>, inputs: Inputs, n: nat, i: nat)
    requires i < n + 4
  {
    var f, answer := FieldAt(n, i), Response(inputs, IdAt(n, i));
    (f in captured <==> answer.Some?) && (answer.Some? ==> f in captured && captured[f] == answer.value)
  }

  ghost predicate FieldOf(f: string, n: nat, m: nat, i: int) {
    1 <= i < m && i < n + 2 && f == FieldAt(n, i)
  }

  /** What has been captured at the first `m` nodes: their answers, each under its field. */
  ghost predicate Captures(captured: map<string, string>, inputs: Inputs, n: nat, m: nat) {
    && m <= n + 4
    && (forall i :: 1 <= i < m && i < n + 2 ==> CapturedAt(captured, inputs, n, i))
    && (forall f :: f in captured ==> exists i :: FieldOf(f, n, m, i))
  }

  lemma CapturedOneMore(earlier: map<string, string>, later: map<string, string>, inputs: Inputs, n: nat, p: nat)
    requires p < n + 4 && Captures(earlier, inputs, n, p)
    requires var f, answer := FieldAt(n, p), Response(inputs, IdAt(n, p));
             later == if f != "" && answer.Some? then earlier[f := answer.value] else earlier
    ensures Captures(later, inputs, n, p + 1)
  {
    var q := p + 1;
    forall f | f in later ensures exists i :: FieldOf(f, n, q, i) {
      if f in earlier {
        var i :| FieldOf(f, n, p, i);
        assert FieldOf(f, n, q, i);
      } else {
        assert FieldOf(f, n, q, p);
      }
    }
    forall i | 1 <= i < p && p < n + 2 ensures FieldAt(n, i) != FieldAt(n, p) { FieldsDiffer(n, i, p); }
    forall i | 1 <= i < p + 1 && i < n + 2 ensures CapturedAt(later, inputs, n, i) {
      if i < p { assert CapturedAt(earlier, inputs, n, i); }
    }
  }

  /** The nodes of the graph capture the fields that compiled text has there. */
  ghost predicate HasFields(g: Graph, n: nat) {
    forall i :: 0 <= i < n + 4 ==> IdAt(n, i) in g && g[IdAt(n, i)].captureField == FieldAt(n, i)
  }

  lemma {:induction false} CapturedAlong(g: Graph, inputs: Inputs, n: nat, path: seq<string>)
    requires HasFields(g, n) && |path| <= n + 4 && forall i :: 0 <= i < |path| ==> path[i] == IdAt(n, i)
    ensures Captures(CapturedOf(g, inputs, path), inputs, n, |path|)
  {
    if path != [] {
      var p := |path| - 1;
      CapturedAlong(g, inputs, n, path[..p]);
      CapturedStep(g, inputs, path, FieldAt(n, p));
      CapturedOneMore(CapturedOf(g, inputs, path[..p]), CapturedOf(g, inputs, path), inputs, n, p);
    }
  }

  lemma CapturedStep(g: Graph, inputs: Inputs, path: seq<string>, f: string)
    requires path != [] && path[|path| - 1] in g && g[path[|path| - 1]].captureField == f
    ensures var earlier, answer := CapturedOf(g, inputs, path[..|path| - 1]), Response(inputs, path[|path| - 1]);
            CapturedOf(g, inputs, path) == if f != "" && answer.Some? then earlier[f := answer.value] else earlier
  {
  }

  /** A simulation of compiled text captures the answers given at the nodes it visits, each under the
      field of its node, and nothing else. */
  lemma CompiledCaptures(t: SimpleText, inputs: seq<SimulationInput>)
    ensures var walk := Simulation(CompiledNodes(t), "node-1", inputs).walk;
            Captures(walk.capturedFields, InputsMap(inputs), |QuestionsOf(t)|, |walk.nodePath|)
  {
    CompiledSimulation(t, inputs);
    EverySimulation(CompiledNodes(t), "node-1", inputs);
    forall i | 0 <= i < |QuestionsOf(t)| + 4
      ensures IdAt(|QuestionsOf(t)|, i) in ById(CompiledNodes(t))
        && ById(CompiledNodes(t))[IdAt(|QuestionsOf(t)|, i)].captureField == FieldAt(|QuestionsOf(t)|, i)
    {
      CapturesAt(t, i);
    }
    var walk := Simulation(CompiledNodes(t), "node-1", inputs).walk;
    CapturedAlong(ById(CompiledNodes(t)), InputsMap(inputs), |QuestionsOf(t)|, walk.nodePath);
  }
}
