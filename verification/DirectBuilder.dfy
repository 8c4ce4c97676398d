/** The direct builder of the older grammar (`reconstruct_v0` in src/synthesizer.rs), and
    its agreement with the exhaustive search. */
module DirectBuilder {
  import opened Basics
  import opened Model
  import opened Evaluation
  import Search

  type Obligations = map<(Text, Text), Transition>

  /** The transition each contract fragment demands, refused on an unknown symbol or on two
      different demands for one cell. */
  function Collect(g: Grammar, contents: seq<FragmentContent>): Result<Obligations, Error> {
    if contents == [] then Ok(map[])
    else
      match Collect(g, contents[..|contents| - 1])
      case Err(e) => Err(e)
      case Ok(m) => Demand(g, m, contents[|contents| - 1])
  }

  function Demand(g: Grammar, m: Obligations, content: FragmentContent): Result<Obligations, Error> {
    if !content.Rule? then Ok(m)
    else
      var t := content.Demand();
      if !t.Valid(g) then Err(InvalidEvidence)
      else if t.Cell() in m && m[t.Cell()] != t then Err(ContradictoryEvidence)
      else Ok(m[t.Cell() := t])
  }

  /** What the two inner loops push for one cell: the demand, once for each matching choice. */
  function Picks(choices: seq<(Text, Text)>, required: Transition): seq<Transition> {
    if choices == [] then []
    else
      var init, last := choices[..|choices| - 1], choices[|choices| - 1];
      Picks(init, required) + if last == required.Choice() then [required] else []
  }

  function Assemble(cells: seq<(Text, Text)>, choices: seq<(Text, Text)>, m: Obligations): seq<Transition>
    requires forall c :: c in cells ==> c in m
  {
    if cells == [] then []
    else Assemble(cells[..|cells| - 1], choices, m) + Picks(choices, m[cells[|cells| - 1]])
  }

  lemma {:induction false} CollectInCells(g: Grammar, contents: seq<FragmentContent>)
    ensures Collect(g, contents).Ok? ==>
              forall c :: c in Collect(g, contents).value ==>
                c.0 in g.states && c.1 in g.inputs && Collect(g, contents).value[c].Cell() == c
  {
    if contents != [] {
      CollectInCells(g, contents[..|contents| - 1]);
    }
  }

  /** A full set of obligations over valid symbols has one for every cell. */
  lemma CollectCoversCells(g: Grammar, contents: seq<FragmentContent>)
    ensures Collect(g, contents).Ok? ==>
              var m := Collect(g, contents).value;
              && (forall c :: c in m ==> c in g.Cells() && m[c].Cell() == c)
              && (|m| == |g.states| * |g.inputs| ==> forall c :: c in g.Cells() ==> c in m)
  {
    hide Collect, Product;
    CollectInCells(g, contents);
    ProductFacts(g.states, g.inputs);
    if Collect(g, contents).Ok? {
      var m := Collect(g, contents).value;
      if |m| == |g.states| * |g.inputs| {
        DistinctCount(g.Cells());
        assert |m.Keys| == |m|;
        SubsetSize(m.Keys, Elements(g.Cells()));
        SubsetOfSameSize(m.Keys, Elements(g.Cells()));
      }
    }
  }

  function Outcome(g: Grammar, contents: seq<FragmentContent>): Result<(seq<Transition>, nat), Error> {
    match Collect(g, contents)
    case Err(e) => Err(e)
    case Ok(m) =>
      if |m| != |g.states| * |g.inputs| then Err(InsufficientEvidence)
      else if Times(|g.Cells()|, |g.Choices()|) > g.maxCandidates then Err(SearchExhausted)
      else
        CollectCoversCells(g, contents);
        Ok((Assemble(g.Cells(), g.Choices(), m), Times(|g.Cells()|, |g.Choices()|)))
  }

  method ReconstructV0(g: Grammar, contents: seq<FragmentContent>)
    returns (r: Result<(seq<Transition>, nat), Error>)
    ensures r == Outcome(g, contents)
  {
    var obligations: Obligations := map[];
    for i := 0 to |contents|
      invariant Collect(g, contents[..i]) == Ok(obligations)
    {
      assert contents[..i + 1][..i] == contents[..i];
      if contents[i].Rule? {
        var t := contents[i].Demand();
        if !t.Valid(g) {
          CollectStops(g, contents, i + 1);
          return Err(InvalidEvidence);
        }
        if t.Cell() in obligations && obligations[t.Cell()] != t {
          CollectStops(g, contents, i + 1);
          return Err(ContradictoryEvidence);
        }
        obligations := obligations[t.Cell() := t];
      }
    }
    assert contents[..|contents|] == contents;
    if |obligations| != |g.states| * |g.inputs| {
      return Err(InsufficientEvidence);
    }
    CollectCoversCells(g, contents);
    r := Probe(g, obligations);
  }

  /** The nested loops over every cell and every choice, with their shared counter. */
  method Probe(g: Grammar, m: Obligations) returns (r: Result<(seq<Transition>, nat), Error>)
    requires forall c :: c in g.Cells() ==> c in m
    ensures r == if Times(|g.Cells()|, |g.Choices()|) > g.maxCandidates then Err(SearchExhausted)
                 else Ok((Assemble(g.Cells(), g.Choices(), m), Times(|g.Cells()|, |g.Choices()|)))
  {
    var cells, choices := g.Cells(), g.Choices();
    var examined, transitions := 0, [];
    for i := 0 to |cells|
      invariant examined == i * |choices| <= g.maxCandidates
      invariant transitions == Assemble(cells[..i], choices, m)
    {
      MulMonotone(i + 1, |cells|, |choices|);
      assert (i + 1) * |choices| == i * |choices| + |choices|;
      assert cells[..i + 1][..i] == cells[..i] && cells[i] in cells;
      var required := m[cells[i]];
      for k := 0 to |choices|
        invariant examined == i * |choices| + k <= g.maxCandidates
        invariant transitions == Assemble(cells[..i], choices, m) + Picks(choices[..k], required)
      {
        assert choices[..k + 1][..k] == choices[..k];
        examined := examined + 1;
        if examined > g.maxCandidates {
          return Err(SearchExhausted);
        }
        if choices[k] == required.Choice() {
          transitions := transitions + [required];
        }
      }
      assert choices[..|choices|] == choices;
    }
    assert cells[..|cells|] == cells;
    return Ok((transitions, examined));
  }

  lemma {:induction false} CollectStops(g: Grammar, contents: seq<FragmentContent>, n: nat)
    requires n <= |contents| && Collect(g, contents[..n]).Err?
    ensures Collect(g, contents) == Collect(g, contents[..n])
    decreases |contents|
  {
    if n == |contents| {
      assert contents[..n] == contents;
    } else {
      assert contents[..|contents| - 1][..n] == contents[..n];
      CollectStops(g, contents[..|contents| - 1], n);
    }
  }

  // ----- The direct builder refines the search -----

  /** Some contract fragment speaks about the cell. */
  ghost predicate Names(contents: seq<FragmentContent>, cell: (Text, Text)) {
    exists k :: 0 <= k < |contents| && contents[k].Rule? && contents[k].Demand().Cell() == cell
  }

  lemma NamesStep(init: seq<FragmentContent>, last: FragmentContent, c: (Text, Text))
    ensures Names(init + [last], c) <==> Names(init, c) || (last.Rule? && last.Demand().Cell() == c)
  {
    var contents := init + [last];
    if Names(init, c) {
      var k :| 0 <= k < |init| && init[k].Rule? && init[k].Demand().Cell() == c;
      assert contents[k].Rule?;
    }
    if last.Rule? && last.Demand().Cell() == c {
      assert contents[|init|].Rule?;
    }
    if Names(contents, c) {
      var k :| 0 <= k < |contents| && contents[k].Rule? && contents[k].Demand().Cell() == c;
      assert k < |init| ==> init[k] == contents[k];
    }
  }

  /** Demands that all come from one valid table are collected without conflict. */
  lemma {:induction false} CollectFromTable(g: Grammar, contents: seq<FragmentContent>, ts: seq<Transition>)
    requires DistinctCells(ts) && forall j :: 0 <= j < |ts| ==> ts[j].Valid(g)
    requires forall k :: 0 <= k < |contents| && contents[k].Rule? ==> contents[k].Demand() in ts
    ensures Collect(g, contents).Ok?
    ensures forall c :: c in Collect(g, contents).value <==> Names(contents, c)
    ensures forall c :: c in Collect(g, contents).value ==>
              Collect(g, contents).value[c] in ts && Collect(g, contents).value[c].Cell() == c
  {
    hide Names;
    if contents == [] {
      forall c
        ensures !Names(contents, c)
      {
        NothingNamed(c);
      }
    } else {
      var init, last := contents[..|contents| - 1], contents[|contents| - 1];
      assert contents == init + [last];
      CollectFromTable(g, init, ts);
      var m := Collect(g, init).value;
      if last.Rule? {
        var t := last.Demand();
        assert t in ts;
        if t.Cell() in m {
          assert m[t.Cell()] == t;
        }
      }
      forall c
        ensures Names(contents, c) <==> Names(init, c) || (last.Rule? && last.Demand().Cell() == c)
      {
        NamesStep(init, last, c);
      }
    }
  }

  lemma NothingNamed(c: (Text, Text))
    ensures !Names([], c)
  {
  }

  lemma {:induction false} PickOnce(choices: seq<(Text, Text)>, required: Transition)
    requires NoDuplicates(choices)
    ensures Picks(choices, required) == if required.Choice() in choices then [required] else []
  {
    if choices != [] {
      var init := choices[..|choices| - 1];
      PickOnce(init, required);
      assert choices == init + [choices[|choices| - 1]];
    }
  }

  lemma {:induction false} AssembleTable(cells: seq<(Text, Text)>, choices: seq<(Text, Text)>,
                                         m: Obligations, ts: seq<Transition>)
    requires |cells| <= |ts| && NoDuplicates(choices)
    requires forall c :: c in cells ==> c in m
    requires forall j :: 0 <= j < |cells| ==>
               m[cells[j]] == ts[j] && ts[j].Choice() in choices
    ensures Assemble(cells, choices, m) == ts[..|cells|]
  {
    hide Picks, NoDuplicates;
    if cells != [] {
      var n := |cells| - 1;
      var init := cells[..n];
      assert forall j :: 0 <= j < n ==> init[j] == cells[j];
      AssembleTable(init, choices, m, ts);
      PickOnce(choices, ts[n]);
      assert Assemble(cells, choices, m) == Assemble(init, choices, m) + [ts[n]];
      assert ts[..n + 1] == ts[..n] + [ts[n]];
    }
  }

  /** What the search found, seen as transitions: one valid transition per cell. */
  lemma FoundTable(pb: Search.Problem, ts: seq<Transition>)
    requires pb.g.Valid() && pb.IsTable(ts)
    ensures DistinctCells(ts) && forall j :: 0 <= j < |ts| ==> ts[j].Valid(pb.g)
  {
    GrammarTableShape(pb.g);
    ProductFacts(pb.g.states, pb.g.inputs);
    ProductFacts(pb.g.states, pb.g.outputs);
    forall j | 0 <= j < |ts|
      ensures ts[j].Valid(pb.g)
    {
      assert ts[j].Cell() in pb.g.Cells() && ts[j].Choice() in pb.g.Choices();
    }
  }

  lemma DemandsComeFromTable(pb: Search.Problem, ts: seq<Transition>)
    requires DistinctCells(ts) && pb.Verdict(ts) == Ok(true)
    ensures forall k :: 0 <= k < |pb.contents| && pb.contents[k].Rule? ==> pb.contents[k].Demand() in ts
  {
    TableOfDistinct(ts);
    MeetsAllEach(TableOf(ts), pb.g, pb.contents);
    forall k | 0 <= k < |pb.contents| && pb.contents[k].Rule?
      ensures pb.contents[k].Demand() in ts
    {
      var t := pb.contents[k].Demand();
      assert Meets(TableOf(ts), pb.g, pb.contents[k]) == Ok(true);
      var j :| 0 <= j < |ts| && ts[j].Cell() == t.Cell();
      assert ts[j] == t;
    }
  }

  /** Obligations drawn from a table agree with it cell by cell. */
  lemma ObligationsMatch(cells: seq<(Text, Text)>, choices: seq<(Text, Text)>, m: Obligations, ts: seq<Transition>)
    requires Search.Assigns(cells, choices, ts) && |ts| == |cells|
    requires NoDuplicates(cells) && NoDuplicates(choices)
    requires forall c :: c in m <==> c in cells
    requires forall c :: c in m ==> m[c] in ts && m[c].Cell() == c
    ensures |m| == |cells|
    ensures Assemble(cells, choices, m) == ts
  {
    forall j: nat | j < |cells| {
      ObligationAt(cells, choices, m, ts, j);
    }
    AssembleTable(cells, choices, m, ts);
    assert ts[..|cells|] == ts;
    DistinctCount(cells);
    assert m.Keys == Elements(cells);
    assert |m| == |m.Keys|;
  }

  lemma ObligationAt(cells: seq<(Text, Text)>, choices: seq<(Text, Text)>, m: Obligations, ts: seq<Transition>, j: nat)
    requires Search.Assigns(cells, choices, ts) && |ts| == |cells| && NoDuplicates(cells)
    requires forall c :: c in m <==> c in cells
    requires forall c :: c in m ==> m[c] in ts && m[c].Cell() == c
    requires j < |cells|
    ensures m[cells[j]] == ts[j]
  {
    assert cells[j] in cells;
    var i :| 0 <= i < |ts| && ts[i] == m[cells[j]];
    assert ts[i].Cell() == cells[i];
  }

  /** Demands that name every cell of one table rebuild that table. */
  lemma DirectRebuilds(g: Grammar, contents: seq<FragmentContent>, ts: seq<Transition>)
    requires g.Valid() && Search.Problem(g, contents).IsTable(ts)
    requires forall k :: 0 <= k < |contents| && contents[k].Rule? ==> contents[k].Demand() in ts
    requires forall c :: c in g.Cells() ==> Names(contents, c)
    ensures Outcome(g, contents) ==
              if Times(|g.Cells()|, |g.Choices()|) > g.maxCandidates then Err(SearchExhausted)
              else Ok((ts, Times(|g.Cells()|, |g.Choices()|)))
  {
    GrammarTableShape(g);
    FoundTable(Search.Problem(g, contents), ts);
    CollectFromTable(g, contents, ts);
    CollectCoversCells(g, contents);
    ObligationsMatch(g.Cells(), g.Choices(), Collect(g, contents).value, ts);
  }

  /** Where the search succeeds and the contract names every cell, the direct builder
      returns the same transitions in the same order exactly when its linear count fits the
      budget, which two choices per cell already guarantee, and is out of budget otherwise. */
  lemma DirectRefinesSearch(g: Grammar, contents: seq<FragmentContent>)
    requires g.Valid()
    requires Search.Problem(g, contents).Outcome().Ok?
    requires forall c :: c in g.Cells() ==> Names(contents, c)
    ensures var (ts, examined) := Search.Problem(g, contents).Outcome().value;
            && (Outcome(g, contents) == Ok((ts, Times(|g.Cells()|, |g.Choices()|)))
                <==> Times(|g.Cells()|, |g.Choices()|) <= g.maxCandidates)
            && (Outcome(g, contents) == Err(SearchExhausted)
                <==> Times(|g.Cells()|, |g.Choices()|) > g.maxCandidates)
            && (|g.Choices()| >= 2 ==> Times(|g.Cells()|, |g.Choices()|) <= examined <= g.maxCandidates)
  {
    var pb := Search.Problem(g, contents);
    var (ts, examined) := pb.Outcome().value;
    Search.SynthesisExact(pb);
    GrammarTableShape(g);
    FoundTable(pb, ts);
    DemandsComeFromTable(pb, ts);
    DirectRebuilds(g, contents, ts);
    if |g.Choices()| >= 2 {
      LinearBelowPower(|g.Cells()|, |g.Choices()|);
    }
  }

  // ----- The gap a single choice leaves -----

  /** One state, one output and two inputs: one table in all, and two cells to probe. */
  function NarrowGrammar(): Grammar {
    Grammar([1], [[1], [2]], [[3]], [[4]], [4], 1)
  }

  function NarrowContract(): seq<FragmentContent> {
    [Rule([4], [1], [4], [3]), Rule([4], [2], [4], [3])]
  }

  /** The search examines the one table and returns it within a budget of one, and on the
      same symbols, evidence and budget the direct builder is exhausted at the second cell. */
  lemma SingleChoiceExhausts()
    ensures NarrowGrammar().Valid()
    ensures forall c :: c in NarrowGrammar().Cells() ==> Names(NarrowContract(), c)
    ensures Search.Problem(NarrowGrammar(), NarrowContract()).Outcome()
         == Ok(([Transition([4], [1], [4], [3]), Transition([4], [2], [4], [3])], 1))
    ensures Outcome(NarrowGrammar(), NarrowContract()) == Err(SearchExhausted)
  {
    var g, contents := NarrowGrammar(), NarrowContract();
    var ts := [Transition([4], [1], [4], [3]), Transition([4], [2], [4], [3])];
    NarrowShape();
    NarrowTable(ts);
    var pb := Search.Problem(g, contents);
    assert forall c :: c in g.Cells() ==> Names(contents, c) by {
      assert contents[0].Rule? && contents[1].Rule?;
    }
    OneTableFound(pb, ts);
    DirectRefinesSearch(g, contents);
  }

  lemma NarrowShape()
    ensures var g := NarrowGrammar();
            && g.Valid() && g.Cells() == [([4], [1]), ([4], [2])] && g.Choices() == [([4], [3])]
            && Search.TableCount(g) == 1
  {
    var g := NarrowGrammar();
    assert Elements(g.inputs) == {[1], [2]} && Elements(g.states) == {[4]} && Elements(g.outputs) == {[3]};
    assert g.states[0] == [4];
    assert g.states[1..] == [];
    assert Product(g.states[1..], g.inputs) == [] && Product(g.states[1..], g.outputs) == [];
    assert Pow(1, 2) == 1 * Pow(1, 1) && Pow(1, 1) == 1 * Pow(1, 0);
  }

  lemma NarrowTable(ts: seq<Transition>)
    requires ts == [Transition([4], [1], [4], [3]), Transition([4], [2], [4], [3])]
    ensures var pb := Search.Problem(NarrowGrammar(), NarrowContract()); pb.IsTable(ts) && pb.Verdict(ts) == Ok(true)
  {
    NarrowShape();
    TableOfDistinct(ts);
    assert ts[0].Cell() == ([4], [1]) && ts[1].Cell() == ([4], [2]);
    assert TableOf(ts)[ts[0].Cell()] == ts[0].Choice() && TableOf(ts)[ts[1].Cell()] == ts[1].Choice();
    MeetsAllEach(TableOf(ts), NarrowGrammar(), NarrowContract());
  }

  /** When there is only one table, within the budget, and it satisfies the evidence, the
      search returns it. */
  lemma OneTableFound(pb: Search.Problem, ts: seq<Transition>)
    requires pb.g.Valid() && Search.TableCount(pb.g) == 1
    requires pb.IsTable(ts) && pb.Verdict(ts) == Ok(true)
    ensures pb.Outcome() == Ok((ts, 1))
  {
    hide Search.Leaves, Search.TableCount, Search.Problem.Outcome, Search.Problem.IsTable, Search.Problem.Verdict;
    Search.SpaceFacts(pb);
    Search.SynthesisExact(pb);
    assert forall other :: pb.IsTable(other) ==> other in pb.Space() && other == ts;
  }
}
