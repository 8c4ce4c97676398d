/** The direct builder of src/synthesizer.rs, judged by the contract fragments alone: when it
    builds, what it builds, and why it refuses. */
module DirectMeaning {
  import opened Basics
  import opened Model
  import opened Evaluation
  import opened DirectBuilder
  import Search

  /** Every demanded transition is over the grammar's symbols. */
  ghost predicate DemandsValid(g: Grammar, contents: seq<FragmentContent>) {
    forall k :: 0 <= k < |contents| && contents[k].Rule? ==> contents[k].Demand().Valid(g)
  }

  /** No two contract fragments demand different transitions of one cell. */
  ghost predicate Consistent(contents: seq<FragmentContent>) {
    forall i, j :: 0 <= i < |contents| && 0 <= j < |contents| && contents[i].Rule? && contents[j].Rule?
                   && contents[i].Demand().Cell() == contents[j].Demand().Cell() ==>
      contents[i].Demand() == contents[j].Demand()
  }

  /** The collected obligations are what the fragments demand. */
  ghost predicate Collects(contents: seq<FragmentContent>, m: Obligations) {
    && (forall k :: 0 <= k < |contents| && contents[k].Rule? ==>
          contents[k].Demand().Cell() in m && m[contents[k].Demand().Cell()] == contents[k].Demand())
    && forall c :: c in m ==> Names(contents, c) && m[c].Cell() == c
  }

  lemma {:induction false} CollectExactly(g: Grammar, contents: seq<FragmentContent>)
    ensures Collect(g, contents).Ok? <==> DemandsValid(g, contents) && Consistent(contents)
    ensures Collect(g, contents).Ok? ==> Collects(contents, Collect(g, contents).value)
    ensures Collect(g, contents) == Err(InvalidEvidence) ==> !DemandsValid(g, contents)
    ensures Collect(g, contents) == Err(ContradictoryEvidence) ==> !Consistent(contents)
    ensures Collect(g, contents).Err? ==> Collect(g, contents).error in {InvalidEvidence, ContradictoryEvidence}
  {
    hide Transition.Valid, Names;
    if contents != [] {
      var init, last := contents[..|contents| - 1], contents[|contents| - 1];
      assert contents == init + [last];
      CollectExactly(g, init);
      if Collect(g, init).Ok? {
        CollectStep(g, init, last, Collect(g, init).value);
      } else {
        assert DemandsValid(g, contents) ==> DemandsValid(g, init);
        assert Consistent(contents) ==> Consistent(init);
      }
    }
  }

  lemma CollectStep(g: Grammar, init: seq<FragmentContent>, last: FragmentContent, m: Obligations)
    requires Collects(init, m) && DemandsValid(g, init) && Consistent(init)
    ensures var contents, r := init + [last], DirectBuilder.Demand(g, m, last);
            && (r.Ok? <==> DemandsValid(g, contents) && Consistent(contents))
            && (r.Ok? ==> Collects(contents, r.value))
            && (r == Err(InvalidEvidence) ==> !DemandsValid(g, contents))
            && (r == Err(ContradictoryEvidence) ==> !Consistent(contents))
            && (r.Err? ==> r.error in {InvalidEvidence, ContradictoryEvidence})
  {
    hide Transition.Valid, DemandsValid, Consistent, Collects;
    ValidStep(g, init, last);
    ConsistentStep(init, last, m);
    if DirectBuilder.Demand(g, m, last).Ok? {
      CollectsStep(g, init, last, m);
    }
  }

  lemma ValidStep(g: Grammar, init: seq<FragmentContent>, last: FragmentContent)
    ensures DemandsValid(g, init + [last]) <==> DemandsValid(g, init) && (last.Rule? ==> last.Demand().Valid(g))
  {
    hide Transition.Valid;
    var contents := init + [last];
    assert forall k :: 0 <= k < |init| ==> contents[k] == init[k];
    assert contents[|init|] == last;
  }

  lemma ConsistentStep(init: seq<FragmentContent>, last: FragmentContent, m: Obligations)
    requires Collects(init, m) && Consistent(init)
    ensures Consistent(init + [last]) <==>
            (last.Rule? && last.Demand().Cell() in m ==> m[last.Demand().Cell()] == last.Demand())
  {
    var contents := init + [last];
    assert forall k :: 0 <= k < |init| ==> contents[k] == init[k];
    assert contents[|init|] == last;
    if last.Rule? && last.Demand().Cell() in m {
      var k :| 0 <= k < |init| && init[k].Rule? && init[k].Demand().Cell() == last.Demand().Cell();
      assert contents[k].Demand() == m[last.Demand().Cell()];
    }
  }

  lemma CollectsStep(g: Grammar, init: seq<FragmentContent>, last: FragmentContent, m: Obligations)
    requires Collects(init, m) && DirectBuilder.Demand(g, m, last).Ok?
    ensures Collects(init + [last], DirectBuilder.Demand(g, m, last).value)
  {
    hide Transition.Valid, Names;
    var contents, r := init + [last], DirectBuilder.Demand(g, m, last).value;
    forall c | c in r
      ensures Names(contents, c) && r[c].Cell() == c
    {
      NamesStep(init, last, c);
    }
  }

  ghost predicate Complete(g: Grammar, contents: seq<FragmentContent>) {
    forall c :: c in g.Cells() ==> Names(contents, c)
  }

  lemma ObligationsCount(g: Grammar, contents: seq<FragmentContent>)
    requires g.Valid() && Collect(g, contents).Ok?
    ensures |Collect(g, contents).value| == |g.states| * |g.inputs| <==> Complete(g, contents)
  {
    hide Names, Collect;
    var m := Collect(g, contents).value;
    CollectExactly(g, contents);
    CollectCoversCells(g, contents);
    GrammarTableShape(g);
    if Complete(g, contents) {
      forall c | c in g.Cells()
        ensures c in m
      {
        Demanded(contents, m, c);
      }
      DistinctCount(g.Cells());
      assert m.Keys == Elements(g.Cells());
      assert |m.Keys| == |m|;
    }
  }

  lemma Demanded(contents: seq<FragmentContent>, m: Obligations, c: (Text, Text))
    requires Collects(contents, m) && Names(contents, c)
    ensures c in m
  {
  }

  /** The direct builder builds exactly from a valid, consistent and complete contract whose
      linear count fits the limit, and then lists one transition for each cell, every demanded
      one among them. Its refusals say why not. */
  lemma DirectMeans(g: Grammar, contents: seq<FragmentContent>)
    requires g.Valid()
    ensures var sound := DemandsValid(g, contents) && Consistent(contents);
            var fits := Times(|g.Cells()|, |g.Choices()|) <= g.maxCandidates;
            match Outcome(g, contents)
            case Ok((ts, examined)) =>
              && sound && Complete(g, contents) && fits && examined == Times(|g.Cells()|, |g.Choices()|)
              && Search.Problem(g, contents).IsTable(ts)
              && forall k :: 0 <= k < |contents| && contents[k].Rule? ==> contents[k].Demand() in ts
            case Err(InvalidEvidence) => !DemandsValid(g, contents)
            case Err(ContradictoryEvidence) => !Consistent(contents)
            case Err(InsufficientEvidence) => sound && !Complete(g, contents)
            case Err(SearchExhausted) => sound && Complete(g, contents) && !fits
            case Err(_) => false
  {
    hide Names, Collect, Transition.Valid, DemandsValid, Consistent, Complete, Assemble, Collects;
    CollectExactly(g, contents);
    if Collect(g, contents).Ok? {
      ObligationsCount(g, contents);
      if Outcome(g, contents).Ok? {
        var m := Collect(g, contents).value;
        CollectCoversCells(g, contents);
        ObligationsValid(g, contents, m);
        Assembled(g, contents, m);
      }
    }
  }

  lemma ObligationsValid(g: Grammar, contents: seq<FragmentContent>, m: Obligations)
    requires DemandsValid(g, contents) && Collects(contents, m)
    ensures forall c :: c in m ==> m[c].Valid(g)
  {
    forall c | c in m
      ensures m[c].Valid(g)
    {
      var k :| 0 <= k < |contents| && contents[k].Rule? && contents[k].Demand().Cell() == c;
      assert m[c] == contents[k].Demand();
    }
  }

  lemma Assembled(g: Grammar, contents: seq<FragmentContent>, m: Obligations)
    requires g.Valid() && Collects(contents, m) && DemandsValid(g, contents)
    requires forall c :: c in m ==> c in g.Cells() && m[c].Valid(g)
    requires forall c :: c in g.Cells() ==> c in m
    ensures var ts := Assemble(g.Cells(), g.Choices(), m);
            && Search.Problem(g, contents).IsTable(ts)
            && forall k :: 0 <= k < |contents| && contents[k].Rule? ==> contents[k].Demand() in ts
  {
    hide Assemble, Product, Grammar.Valid, Names;
    var cells, choices := g.Cells(), g.Choices();
    GrammarTableShape(g);
    ProductFacts(g.states, g.outputs);
    var ts := seq(|cells|, j requires 0 <= j < |cells| && cells[j] in m => m[cells[j]]);
    AssembleTable(cells, choices, m, ts);
    assert ts[..|cells|] == ts;
    forall k | 0 <= k < |contents| && contents[k].Rule?
      ensures contents[k].Demand() in ts
    {
      var c := contents[k].Demand().Cell();
      assert c in m && c in cells;
      var j :| 0 <= j < |cells| && cells[j] == c;
      assert ts[j] == contents[k].Demand();
    }
  }
}
