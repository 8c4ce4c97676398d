/** The bounded backtracking search over every transition table of a grammar
    (`reconstruct_v1` and `enumerate` in src/synthesizer.rs), and its exactness. */
module Search {
  import opened Basics
  import opened Model
  import opened Evaluation

  // ----- The search space: complete assignments in the order the recursion reaches them -----

  function Fill(cell: (Text, Text), choice: (Text, Text)): Transition {
    Transition(cell.0, cell.1, choice.0, choice.1)
  }

  function Leaves(cells: seq<(Text, Text)>, choices: seq<(Text, Text)>, prefix: seq<Transition>)
    : seq<seq<Transition>>
    requires |prefix| <= |cells|
    decreases |cells| - |prefix|, |choices| + 1
  {
    if |prefix| == |cells| then [prefix] else LeavesFrom(cells, choices, prefix, 0)
  }

  /** The part of the subtree under `prefix` that choices `k`, `k + 1`, ... open. */
  function LeavesFrom(cells: seq<(Text, Text)>, choices: seq<(Text, Text)>, prefix: seq<Transition>, k: nat)
    : seq<seq<Transition>>
    requires |prefix| < |cells| && k <= |choices|
    decreases |cells| - |prefix|, |choices| - k
  {
    if k == |choices| then []
    else Leaves(cells, choices, prefix + [Fill(cells[|prefix|], choices[k])])
         + LeavesFrom(cells, choices, prefix, k + 1)
  }

  /** The declarative reading of the space: one admissible choice for each cell, in order. */
  predicate Assigns(cells: seq<(Text, Text)>, choices: seq<(Text, Text)>, ts: seq<Transition>) {
    && |ts| <= |cells|
    && forall j :: 0 <= j < |ts| ==> ts[j].Cell() == cells[j] && ts[j].Choice() in choices
  }

  ghost predicate Completes(cells: seq<(Text, Text)>, choices: seq<(Text, Text)>,
                            prefix: seq<Transition>, ts: seq<Transition>) {
    Assigns(cells, choices, ts) && |ts| == |cells| && prefix <= ts
  }

  lemma {:induction false} LeavesExact(cells: seq<(Text, Text)>, choices: seq<(Text, Text)>,
                                       prefix: seq<Transition>, ts: seq<Transition>)
    requires Assigns(cells, choices, prefix)
    ensures ts in Leaves(cells, choices, prefix) <==> Completes(cells, choices, prefix, ts)
    decreases |cells| - |prefix|, |choices| + 1
  {
    if |prefix| < |cells| {
      LeavesFromExact(cells, choices, prefix, 0, ts);
      if Completes(cells, choices, prefix, ts) {
        assert ts[|prefix|].Choice() in choices;
        var k :| 0 <= k < |choices| && choices[k] == ts[|prefix|].Choice();
        assert ts[|prefix|] == Fill(cells[|prefix|], choices[k]);
      }
    } else if prefix <= ts && |ts| == |cells| {
      assert ts == prefix;
    }
  }

  lemma {:induction false} LeavesFromExact(cells: seq<(Text, Text)>, choices: seq<(Text, Text)>,
                                           prefix: seq<Transition>, k: nat, ts: seq<Transition>)
    requires Assigns(cells, choices, prefix) && |prefix| < |cells| && k <= |choices|
    ensures ts in LeavesFrom(cells, choices, prefix, k) <==>
            && Completes(cells, choices, prefix, ts)
            && exists c :: k <= c < |choices| && ts[|prefix|] == Fill(cells[|prefix|], choices[c])
    decreases |cells| - |prefix|, |choices| - k
  {
    if k < |choices| {
      var longer := prefix + [Fill(cells[|prefix|], choices[k])];
      LeavesExact(cells, choices, longer, ts);
      LeavesFromExact(cells, choices, prefix, k + 1, ts);
      if Completes(cells, choices, prefix, ts) && ts[|prefix|] == Fill(cells[|prefix|], choices[k]) {
        assert longer <= ts;
      }
    }
  }

  lemma {:induction false} LeavesDistinct(cells: seq<(Text, Text)>, choices: seq<(Text, Text)>,
                                          prefix: seq<Transition>)
    requires Assigns(cells, choices, prefix) && NoDuplicates(choices)
    ensures NoDuplicates(Leaves(cells, choices, prefix))
    ensures |Leaves(cells, choices, prefix)| == Pow(|choices|, |cells| - |prefix|)
    decreases |cells| - |prefix|, |choices| + 1
  {
    if |prefix| < |cells| {
      LeavesFromDistinct(cells, choices, prefix, 0);
    }
  }

  lemma {:induction false} LeavesFromDistinct(cells: seq<(Text, Text)>, choices: seq<(Text, Text)>,
                                              prefix: seq<Transition>, k: nat)
    requires Assigns(cells, choices, prefix) && |prefix| < |cells| && k <= |choices|
    requires NoDuplicates(choices)
    ensures NoDuplicates(LeavesFrom(cells, choices, prefix, k))
    ensures |LeavesFrom(cells, choices, prefix, k)| ==
            (|choices| - k) * Pow(|choices|, |cells| - |prefix| - 1)
    decreases |cells| - |prefix|, |choices| - k
  {
    if k < |choices| {
      var longer := prefix + [Fill(cells[|prefix|], choices[k])];
      LeavesDistinct(cells, choices, longer);
      LeavesFromDistinct(cells, choices, prefix, k + 1);
      SubtreesDisjoint(cells, choices, prefix, k);
      NoDuplicatesConcat(Leaves(cells, choices, longer), LeavesFrom(cells, choices, prefix, k + 1));
      assert (|choices| - k) * Pow(|choices|, |cells| - |prefix| - 1) ==
             Pow(|choices|, |cells| - |prefix| - 1) + (|choices| - (k + 1)) * Pow(|choices|, |cells| - |prefix| - 1);
    }
  }

  /** Different choices for one cell open disjoint subtrees. */
  lemma SubtreesDisjoint(cells: seq<(Text, Text)>, choices: seq<(Text, Text)>, prefix: seq<Transition>, k: nat)
    requires Assigns(cells, choices, prefix) && |prefix| < |cells| && k < |choices| && NoDuplicates(choices)
    ensures forall l :: l in Leaves(cells, choices, prefix + [Fill(cells[|prefix|], choices[k])]) ==>
              l !in LeavesFrom(cells, choices, prefix, k + 1)
  {
    hide Leaves, LeavesFrom;
    var longer := prefix + [Fill(cells[|prefix|], choices[k])];
    forall l | l in Leaves(cells, choices, longer)
      ensures l !in LeavesFrom(cells, choices, prefix, k + 1)
    {
      LeavesExact(cells, choices, longer, l);
      LeavesFromExact(cells, choices, prefix, k + 1, l);
      assert l[|prefix|] == longer[|prefix|];
    }
  }

  // ----- What visiting one leaf, and then many, does to the search state -----

  datatype Progress = Progress(examined: nat, solutions: seq<seq<Transition>>, failure: Option<Error>) {
    predicate Halted() {
      failure.Some? || |solutions| > 1
    }

    function Answer(): Result<(seq<Transition>, nat), Error> {
      if failure.Some? then Err(failure.value)
      else if |solutions| == 0 then Err(ContradictoryEvidence)
      else if |solutions| == 1 then Ok((solutions[0], examined))
      else Err(InsufficientEvidence)
    }
  }

  const START := Progress(0, [], None)

  datatype Problem = Problem(g: Grammar, contents: seq<FragmentContent>) {
    function Verdict(ts: seq<Transition>): Result<bool, Error> {
      MeetsAll(TableOf(ts), g, contents)
    }

    function Visit(p: Progress, leaf: seq<Transition>): Progress {
      if p.Halted() then p
      else if p.examined >= U64_LIMIT - 1 then p.(failure := Some(SearchExhausted))
      else if p.examined + 1 > g.maxCandidates then
        p.(examined := p.examined + 1, failure := Some(SearchExhausted))
      else
        var q := p.(examined := p.examined + 1);
        match Verdict(leaf)
        case Err(e) => q.(failure := Some(e))
        case Ok(good) => if good then q.(solutions := q.solutions + [leaf]) else q
    }

    function Scan(p: Progress, leaves: seq<seq<Transition>>): Progress
      decreases |leaves|
    {
      if leaves == [] then p else Scan(Visit(p, leaves[0]), leaves[1..])
    }

    function Space(): seq<seq<Transition>> {
      Leaves(g.Cells(), g.Choices(), [])
    }

    /** The outcome of the whole search. */
    function Outcome(): Result<(seq<Transition>, nat), Error> {
      Scan(START, Space()).Answer()
    }

    /** `ts` is one of the grammar's transition tables. */
    predicate IsTable(ts: seq<Transition>) {
      Assigns(g.Cells(), g.Choices(), ts) && |ts| == |g.Cells()|
    }
  }

  lemma {:induction false} ScanHalted(pb: Problem, p: Progress, leaves: seq<seq<Transition>>)
    requires p.Halted()
    ensures pb.Scan(p, leaves) == p
    decreases |leaves|
  {
    if leaves != [] {
      ScanHalted(pb, p, leaves[1..]);
    }
  }

  lemma {:induction false} ScanConcat(pb: Problem, p: Progress, a: seq<seq<Transition>>, b: seq<seq<Transition>>)
    ensures pb.Scan(p, a + b) == pb.Scan(pb.Scan(p, a), b)
    decreases |a|
  {
    if a == [] {
      assert a + b == b;
    } else {
      ScanConcat(pb, pb.Visit(p, a[0]), a[1..], b);
      assert (a + b)[1..] == a[1..] + b;
    }
  }

  // ----- The search itself, with its state updated in place -----

  class Searcher {
    const cells: seq<(Text, Text)>
    const choices: seq<(Text, Text)>
    const pb: Problem
    var assignment: seq<Transition>
    var examined: nat
    var solutions: seq<seq<Transition>>

    constructor (pb: Problem)
      ensures this.pb == pb && cells == pb.g.Cells() && choices == pb.g.Choices()
      ensures assignment == [] && examined == 0 && solutions == []
    {
      this.pb := pb;
      cells, choices := pb.g.Cells(), pb.g.Choices();
      assignment, examined, solutions := [], 0, [];
    }

    ghost function State(r: Result<(), Error>): Progress
      reads this
    {
      Progress(examined, solutions, if r.Err? then Some(r.error) else None)
    }

    method Enumerate(index: nat) returns (r: Result<(), Error>)
      requires index == |assignment| <= |cells|
      modifies this`assignment, this`examined, this`solutions
      ensures State(r) == pb.Scan(old(State(Ok(()))), Leaves(cells, choices, old(assignment)))
      ensures r.Ok? ==> assignment == old(assignment)
      decreases |cells| - index
    {
      ghost var start := State(Ok(()));
      ghost var prefix := assignment;
      if |solutions| > 1 {
        ScanHalted(pb, start, Leaves(cells, choices, prefix));
        return Ok(());
      }
      if index == |cells| {
        assert Leaves(cells, choices, prefix)[1..] == [];
        if examined >= U64_LIMIT - 1 {
          return Err(SearchExhausted);
        }
        examined := examined + 1;
        if examined > pb.g.maxCandidates {
          return Err(SearchExhausted);
        }
        var good := Satisfies(assignment, pb.g, pb.contents);
        if good.Err? {
          return Err(good.error);
        }
        if good.value {
          solutions := solutions + [assignment];
        }
        return Ok(());
      }
      var k := 0;
      while k < |choices|
        invariant k <= |choices| && assignment == prefix
        invariant pb.Scan(start, Leaves(cells, choices, prefix)) ==
                  pb.Scan(State(Ok(())), LeavesFrom(cells, choices, prefix, k))
      {
        ghost var before := State(Ok(()));
        assignment := assignment + [Fill(cells[index], choices[k])];
        ghost var subtree := Leaves(cells, choices, assignment);
        ghost var rest := LeavesFrom(cells, choices, prefix, k + 1);
        ScanConcat(pb, before, subtree, rest);
        r := Enumerate(index + 1);
        if r.Err? {
          ScanHalted(pb, State(r), rest);
          return;
        }
        assignment := assignment[..|assignment| - 1];
        if |solutions| > 1 {
          ScanHalted(pb, State(Ok(())), rest);
          return;
        }
        k := k + 1;
      }
      return Ok(());
    }
  }

  method ReconstructV1(g: Grammar, contents: seq<FragmentContent>)
    returns (r: Result<(seq<Transition>, nat), Error>)
    ensures r == Problem(g, contents).Outcome()
  {
    var search := new Searcher(Problem(g, contents));
    var done := search.Enumerate(0);
    if done.Err? {
      return Err(done.error);
    }
    match |search.solutions| {
      case 0 => return Err(ContradictoryEvidence);
      case 1 => return Ok((search.solutions[0], search.examined));
      case _ => return Err(InsufficientEvidence);
    }
  }

  // ----- Exactness -----

  /** The leaves of a list that satisfy the evidence, in order. */
  ghost function Good(pb: Problem, leaves: seq<seq<Transition>>): seq<seq<Transition>> {
    if leaves == [] then []
    else
      var init, last := leaves[..|leaves| - 1], leaves[|leaves| - 1];
      if pb.Verdict(last) == Ok(true) then Good(pb, init) + [last] else Good(pb, init)
  }

  lemma {:induction false} GoodFacts(pb: Problem, leaves: seq<seq<Transition>>)
    ensures forall l :: l in Good(pb, leaves) <==> l in leaves && pb.Verdict(l) == Ok(true)
    ensures NoDuplicates(leaves) ==> NoDuplicates(Good(pb, leaves))
  {
    if leaves != [] {
      var init, last := leaves[..|leaves| - 1], leaves[|leaves| - 1];
      GoodFacts(pb, init);
      assert leaves == init + [last];
      if NoDuplicates(leaves) {
        assert NoDuplicates(init);
        assert last !in init;
      }
    }
  }

  /** Everything the final search state says about the leaves it was shown. */
  ghost predicate Reports(pb: Problem, leaves: seq<seq<Transition>>, end: Progress) {
    && (!end.Halted() ==>
          && end.examined == |leaves|
          && (leaves != [] ==> |leaves| <= pb.g.maxCandidates)
          && end.solutions == Good(pb, leaves)
          && forall l :: l in leaves ==> pb.Verdict(l).Ok?)
    && (|end.solutions| > 1 ==>
          end.failure.None? && |end.solutions| == 2 && end.solutions <= Good(pb, leaves))
    && (end.failure == Some(SearchExhausted) ==> |leaves| > pb.g.maxCandidates)
    && (end.failure.Some? && end.failure != Some(SearchExhausted) ==>
          exists l :: l in leaves && pb.Verdict(l) == Err(end.failure.value))
  }

  lemma {:induction false} ScanReports(pb: Problem, leaves: seq<seq<Transition>>)
    requires pb.g.maxCandidates < U64_LIMIT - 1
    ensures Reports(pb, leaves, pb.Scan(START, leaves))
  {
    if leaves != [] {
      var init, last := leaves[..|leaves| - 1], leaves[|leaves| - 1];
      assert leaves == init + [last];
      ScanReports(pb, init);
      ScanConcat(pb, START, init, [last]);
      var mid, end := pb.Scan(START, init), pb.Scan(START, leaves);
      assert end == pb.Visit(mid, last);
      MeetsAllErrors(TableOf(last), pb.g, pb.contents);
      assert last in leaves;
      if end.failure.Some? && mid.failure.None? && end.failure != Some(SearchExhausted) {
        assert pb.Verdict(last) == Err(end.failure.value);
      }
    }
  }

  /** Within the budget and on evidence no table trips over, nothing stops the search
      but a second solution. */
  lemma {:induction false} ScanCompletes(pb: Problem, leaves: seq<seq<Transition>>)
    requires |leaves| <= pb.g.maxCandidates < U64_LIMIT - 1
    requires forall l :: l in leaves ==> pb.Verdict(l).Ok?
    ensures pb.Scan(START, leaves).failure.None?
    ensures |pb.Scan(START, leaves).solutions| == if |Good(pb, leaves)| > 1 then 2 else |Good(pb, leaves)|
  {
    ScanReports(pb, leaves);
    if leaves != [] {
      var init, last := leaves[..|leaves| - 1], leaves[|leaves| - 1];
      assert leaves == init + [last];
      ScanReports(pb, init);
      ScanCompletes(pb, init);
      ScanConcat(pb, START, init, [last]);
      assert pb.Scan(START, leaves) == pb.Visit(pb.Scan(START, init), last);
    }
  }

  /** (|S|*|O|)^(|S|*|I|): a choice of next state and output for every state and input. */
  function TableCount(g: Grammar): nat {
    Pow(Times(|g.states|, |g.outputs|), Times(|g.states|, |g.inputs|))
  }

  lemma SpaceFacts(pb: Problem)
    requires pb.g.Valid()
    ensures forall ts :: ts in pb.Space() <==> pb.IsTable(ts)
    ensures NoDuplicates(pb.Space())
    ensures |pb.Space()| == TableCount(pb.g) >= 1
  {
    GrammarTableShape(pb.g);
    forall ts
      ensures ts in pb.Space() <==> pb.IsTable(ts)
    {
      LeavesExact(pb.g.Cells(), pb.g.Choices(), [], ts);
    }
    hide Pow;
    LeavesDistinct(pb.g.Cells(), pb.g.Choices(), []);
    PowPositive(|pb.g.Choices()|, |pb.g.Cells()|);
  }

  /** The truth an answer claims about a list of tables. */
  ghost predicate TrueOf(pb: Problem, space: seq<seq<Transition>>, r: Result<(seq<Transition>, nat), Error>) {
    match r
    case Ok((ts, examined)) =>
      && ts in space && pb.Verdict(ts) == Ok(true)
      && (forall other :: other in space && other != ts ==> pb.Verdict(other) == Ok(false))
      && examined == |space| <= pb.g.maxCandidates
    case Err(ContradictoryEvidence) => forall ts :: ts in space ==> pb.Verdict(ts) == Ok(false)
    case Err(InsufficientEvidence) =>
      exists a, b :: a in space && b in space && a != b
                     && pb.Verdict(a) == Ok(true) && pb.Verdict(b) == Ok(true)
    case Err(SearchExhausted) => |space| > pb.g.maxCandidates
    case Err(InvalidEvidence) => exists ts :: ts in space && pb.Verdict(ts).Err?
    case Err(_) => false
  }

  lemma AnswerIsTrue(pb: Problem, space: seq<seq<Transition>>, end: Progress)
    requires NoDuplicates(space) && space != []
    requires Reports(pb, space, end)
    ensures TrueOf(pb, space, end.Answer())
  {
    var good := Good(pb, space);
    GoodFacts(pb, space);
    if end.failure.Some? {
      if end.failure != Some(SearchExhausted) {
        var l :| l in space && pb.Verdict(l) == Err(end.failure.value);
        MeetsAllErrors(TableOf(l), pb.g, pb.contents);
      }
    } else if |end.solutions| > 1 {
      assert good[0] in good && good[1] in good && good[0] != good[1];
      assert end.solutions[0] == good[0] && end.solutions[1] == good[1];
    } else {
      forall other | other in space && other !in good
        ensures pb.Verdict(other) == Ok(false)
      {
        var verdict := pb.Verdict(other);
        assert verdict.Ok?;
        assert verdict != Ok(true);
        assert !verdict.value;
      }
    }
  }

  /** Synthesis is exact: whatever the search answers is the truth about all
      (|S|*|O|)^(|S|*|I|) tables of the grammar. */
  lemma SynthesisExact(pb: Problem)
    requires pb.g.Valid()
    ensures match pb.Outcome()
      case Ok((ts, examined)) =>
        && pb.IsTable(ts) && pb.Verdict(ts) == Ok(true)
        && (forall other :: pb.IsTable(other) && other != ts ==> pb.Verdict(other) == Ok(false))
        && examined == TableCount(pb.g)
        && examined <= pb.g.maxCandidates
      case Err(ContradictoryEvidence) =>
        forall ts :: pb.IsTable(ts) ==> pb.Verdict(ts) == Ok(false)
      case Err(InsufficientEvidence) =>
        exists a, b :: pb.IsTable(a) && pb.IsTable(b) && a != b
                       && pb.Verdict(a) == Ok(true) && pb.Verdict(b) == Ok(true)
      case Err(SearchExhausted) =>
        TableCount(pb.g) > pb.g.maxCandidates
      case Err(InvalidEvidence) =>
        exists ts :: pb.IsTable(ts) && pb.Verdict(ts).Err?
      case Err(_) => false
  {
    SpaceFacts(pb);
    ScanReports(pb, pb.Space());
    AnswerIsTrue(pb, pb.Space(), pb.Scan(START, pb.Space()));
  }

  /** The search finds what there is to find: when the space fits the budget and no table
      trips over an unknown symbol, a unique solution is always returned, and only then. */
  lemma SynthesisComplete(pb: Problem)
    requires pb.g.Valid()
    requires TableCount(pb.g) <= pb.g.maxCandidates
    requires forall ts :: pb.IsTable(ts) ==> pb.Verdict(ts).Ok?
    ensures pb.Outcome().Ok? <==>
            exists ts :: pb.IsTable(ts) && pb.Verdict(ts) == Ok(true)
                         && forall other :: pb.IsTable(other) && pb.Verdict(other) == Ok(true) ==> other == ts
  {
    var space := pb.Space();
    SpaceFacts(pb);
    ScanCompletes(pb, space);
    SynthesisExact(pb);
    if ts :| pb.IsTable(ts) && pb.Verdict(ts) == Ok(true)
             && forall other :: pb.IsTable(other) && pb.Verdict(other) == Ok(true) ==> other == ts {
      UniqueGood(pb, space, ts);
    }
  }

  lemma UniqueGood(pb: Problem, space: seq<seq<Transition>>, ts: seq<Transition>)
    requires NoDuplicates(space) && ts in space && pb.Verdict(ts) == Ok(true)
    requires forall other :: other in space && pb.Verdict(other) == Ok(true) ==> other == ts
    ensures |Good(pb, space)| == 1
  {
    var good := Good(pb, space);
    GoodFacts(pb, space);
    assert ts in good;
    assert Elements(good) == {ts};
    DistinctCount(good);
  }
}
