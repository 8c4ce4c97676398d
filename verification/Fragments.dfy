/** The structural admission of evidence fragments (`collect_at` in src/fragments.rs). */
module Fragments {
  import opened Basics
  import opened Model
  import opened CycleCheck
  import opened Sorting

  datatype Kind = Contract | TraceKind | StateSchema | Negative | Metamorphic

  /** A signed fragment. `timely` stands for a canonical `issuedAt` and `authentic` for a
      `signature` its issuer's policy accepts: verdicts of libraries outside this model. */
  datatype Envelope = Envelope(
    issuer: Text,
    sequence: nat,
    kind: Kind,
    component: Text,
    interfaceVersion: Text,
    failureDomain: Text,
    contentDigest: Digest,
    dependencies: seq<Digest>,
    content: FragmentContent,
    issuedAt: Text,
    signature: Text,
    timely: bool,
    authentic: bool
  )

  datatype Target = Target(trusted: map<Text, Text>, requiredDomains: nat, component: Text, interfaceVersion: Text)

  datatype Collected = Collected(envelopes: seq<Envelope>, domains: set<Text>)

  predicate KindMatches(e: Envelope) {
    match e.content
    case Rule(_, _, _, _) => e.kind.Contract?
    case Trace(_, _, _, _) => e.kind.TraceKind?
    case StatePolicy(_, _) => e.kind.StateSchema?
    case NegativeCase(_, _, _) => e.kind.Negative?
    case MetamorphicProperty(_, _, _) => e.kind.Metamorphic?
  }

  /** What one envelope must satisfy by itself. */
  predicate Acceptable(e: Envelope, t: Target) {
    && KindMatches(e)
    && e.component == t.component && e.interfaceVersion == t.interfaceVersion
    && e.timely
    && e.issuer in t.trusted && e.failureDomain == t.trusted[e.issuer]
    && Digest(e.content) == e.contentDigest
    && e.authentic
  }

  function Identity(e: Envelope): (Text, nat) {
    (e.issuer, e.sequence)
  }

  ghost predicate DistinctOn<K(!new)>(s: seq<Envelope>, key: Envelope -> K) {
    forall i, j :: 0 <= i < j < |s| ==> key(s[i]) != key(s[j])
  }

  function DependencyGraph(s: seq<Envelope>): Graph {
    if s == [] then map[]
    else DependencyGraph(s[..|s| - 1])[s[|s| - 1].contentDigest := s[|s| - 1].dependencies]
  }

  ghost predicate WellFormed(s: seq<Envelope>, t: Target) {
    && (forall k :: 0 <= k < |s| ==> Acceptable(s[k], t))
    && DistinctOn(s, (e: Envelope) => Identity(e))
    && DistinctOn(s, (e: Envelope) => e.contentDigest)
    && Closed(DependencyGraph(s)) && Acyclic(DependencyGraph(s))
  }

  function Domains(s: seq<Envelope>): set<Text> {
    set k | 0 <= k < |s| :: s[k].failureDomain
  }

  ghost predicate Sufficient(s: seq<Envelope>, t: Target) {
    && |Domains(s)| >= t.requiredDomains
    && (exists k :: 0 <= k < |s| && s[k].kind.Contract?)
    && (exists k :: 0 <= k < |s| && s[k].kind.StateSchema?)
  }

  /** The order of the returned envelopes. Identities are distinct, so the digest the source
      compares last never decides. */
  predicate Before(a: Envelope, b: Envelope) {
    TextLess(a.issuer, b.issuer) || (a.issuer == b.issuer && a.sequence < b.sequence)
  }

  lemma {:induction false} GraphFacts(s: seq<Envelope>)
    ensures forall d :: d in DependencyGraph(s) <==> exists k :: 0 <= k < |s| && s[k].contentDigest == d
    ensures DistinctOn(s, (e: Envelope) => e.contentDigest) ==>
              forall k :: 0 <= k < |s| ==>
                && s[k].contentDigest in DependencyGraph(s)
                && DependencyGraph(s)[s[k].contentDigest] == s[k].dependencies
  {
    if s != [] {
      var init, last := s[..|s| - 1], s[|s| - 1];
      GraphFacts(init);
      forall d
        ensures d in DependencyGraph(s) <==> exists k :: 0 <= k < |s| && s[k].contentDigest == d
      {
        if d in DependencyGraph(init) {
          var k :| 0 <= k < |init| && init[k].contentDigest == d;
          assert s[k].contentDigest == d;
        }
        if k :| 0 <= k < |s| && s[k].contentDigest == d {
          assert k < |init| ==> init[k].contentDigest == d;
        }
      }
      if DistinctOn(s, (e: Envelope) => e.contentDigest) {
        assert forall k :: 0 <= k < |init| ==> init[k] == s[k];
      }
    }
  }

  ghost function Admission(s: seq<Envelope>, t: Target): Result<Collected, Error> {
    if !WellFormed(s, t) then Err(InvalidEvidence)
    else if !Sufficient(s, t) then Err(InsufficientEvidence)
    else Ok(Collected(Sort(s, Before), Domains(s)))
  }

  /** Admission accepts exactly the well-formed, sufficient sets of fragments, and returns
      them sorted with nothing added or lost. */
  method CollectAt(s: seq<Envelope>, t: Target) returns (r: Result<Collected, Error>)
    ensures r == Admission(s, t)
  {
    hide Acceptable, Acyclic, Sort;
    var distinct := CheckEach(s, t);
    if !distinct {
      return Err(InvalidEvidence);
    }
    var graph := BuildGraph(s);
    var available := true;
    for k := 0 to |s|
      invariant available <==> forall j, d :: 0 <= j < k && d in s[j].dependencies ==> d in graph
    {
      available := available && forall d :: d in s[k].dependencies ==> d in graph;
    }
    GraphFacts(s);
    if !available {
      return Err(InvalidEvidence);
    }
    var acyclic := RejectCycles(graph);
    if !acyclic {
      return Err(InvalidEvidence);
    }
    if |Domains(s)| < t.requiredDomains {
      return Err(InsufficientEvidence);
    }
    if !(exists k :: 0 <= k < |s| && s[k].kind.Contract?) || !(exists k :: 0 <= k < |s| && s[k].kind.StateSchema?) {
      return Err(InsufficientEvidence);
    }
    return Ok(Collected(Sort(s, Before), Domains(s)));
  }

  method BuildGraph(s: seq<Envelope>) returns (g: Graph)
    ensures g == DependencyGraph(s)
  {
    g := map[];
    for k := 0 to |s|
      invariant g == DependencyGraph(s[..k])
    {
      assert s[..k + 1][..k] == s[..k];
      g := g[s[k].contentDigest := s[k].dependencies];
    }
    assert s[..|s|] == s;
  }

  /** The first loop: every envelope acceptable, no identity and no content seen before. */
  method CheckEach(s: seq<Envelope>, t: Target) returns (ok: bool)
    ensures ok <==> (forall k :: 0 <= k < |s| ==> Acceptable(s[k], t))
                    && DistinctOn(s, (e: Envelope) => Identity(e))
                    && DistinctOn(s, (e: Envelope) => e.contentDigest)
  {
    hide Acceptable;
    var identities: set<(Text, nat)>, digests: set<Digest> := {}, {};
    for k := 0 to |s|
      invariant forall j :: 0 <= j < k ==> Acceptable(s[j], t)
      invariant forall x :: x in identities <==> exists j :: 0 <= j < k && Identity(s[j]) == x
      invariant forall x :: x in digests <==> exists j :: 0 <= j < k && s[j].contentDigest == x
      invariant forall i, j :: 0 <= i < j < k ==> Identity(s[i]) != Identity(s[j])
      invariant forall i, j :: 0 <= i < j < k ==> s[i].contentDigest != s[j].contentDigest
    {
      if !Acceptable(s[k], t) || Identity(s[k]) in identities || s[k].contentDigest in digests {
        return false;
      }
      identities := identities + {Identity(s[k])};
      digests := digests + {s[k].contentDigest};
    }
    return true;
  }

  // ----- What admission gives the pipeline -----

  function Contents(s: seq<Envelope>): (r: seq<FragmentContent>)
    ensures |r| == |s| && forall k :: 0 <= k < |s| ==> r[k] == s[k].content
  {
    seq(|s|, k requires 0 <= k < |s| => s[k].content)
  }

  lemma BeforeIsStrict()
    ensures Transitive(Before) && Asymmetric(Before)
  {
    forall x, y, z | Before(x, y) && Before(y, z)
      ensures Before(x, z)
    {
      if TextLess(x.issuer, y.issuer) && TextLess(y.issuer, z.issuer) {
        TextLessTransitive(x.issuer, y.issuer, z.issuer);
      }
    }
    forall x, y | Before(x, y)
      ensures !Before(y, x)
    {
      TextLessTotal(x.issuer, y.issuer);
    }
  }

  lemma IdentitiesDoNotTie(s: seq<Envelope>)
    requires DistinctOn(s, (e: Envelope) => Identity(e))
    ensures NoTies(s, Before)
  {
    forall i, j | 0 <= i < j < |s|
      ensures Before(s[i], s[j]) || Before(s[j], s[i])
    {
      TextLessTotal(s[i].issuer, s[j].issuer);
      assert Identity(s[i]) != Identity(s[j]);
    }
  }

  lemma ContentsApart(s: seq<Envelope>, t: Target, a: nat, b: nat)
    requires WellFormed(s, t) && a < |s| && b < |s| && s[a] != s[b]
    ensures s[a].content != s[b].content
  {
    hide Closed, Acyclic, DependencyGraph;
    assert s[a].contentDigest != s[b].contentDigest;
    assert Acceptable(s[a], t) && Acceptable(s[b], t);
  }

  lemma SortedIncreasing(s: seq<Envelope>)
    requires DistinctOn(s, (e: Envelope) => Identity(e))
    ensures Increasing(Sort(s, Before), Before)
  {
    hide Increasing, Transitive, Asymmetric, NoTies, Sort, DistinctOn;
    BeforeIsStrict();
    IdentitiesDoNotTie(s);
    SortIncreasing(s, Before);
  }

  lemma SortedFrom(s: seq<Envelope>, i: nat) returns (a: nat)
    requires i < |Sort(s, Before)|
    ensures a < |s| && s[a] == Sort(s, Before)[i]
  {
    hide Sort;
    SortPermutes(s, Before);
    assert Sort(s, Before)[i] in multiset(Sort(s, Before));
    a :| 0 <= a < |s| && s[a] == Sort(s, Before)[i];
  }

  /** The collected fragments carry no duplicate content: what certification's pigeonhole
      argument starts from. */
  lemma CollectedContentsDistinct(s: seq<Envelope>, t: Target)
    requires WellFormed(s, t)
    ensures NoDuplicates(Contents(Sort(s, Before)))
    ensures Increasing(Sort(s, Before), Before)
  {
    var sorted := Sort(s, Before);
    SortedIncreasing(s);
    BeforeIsStrict();
    hide WellFormed, Sort, Before, Transitive;
    forall i, j | 0 <= i < j < |sorted|
      ensures sorted[i].content != sorted[j].content
    {
      var a := SortedFrom(s, i);
      var b := SortedFrom(s, j);
      assert Before(sorted[i], sorted[j]) && sorted[i] != sorted[j];
      ContentsApart(s, t, a, b);
    }
  }

  /** The order in which fragments arrive does not matter. */
  lemma CollectionIgnoresOrder(a: seq<Envelope>, b: seq<Envelope>, t: Target)
    requires WellFormed(a, t) && WellFormed(b, t) && multiset(a) == multiset(b)
    ensures Sort(a, Before) == Sort(b, Before)
  {
    CollectedContentsDistinct(a, t);
    CollectedContentsDistinct(b, t);
    SortPermutes(a, Before);
    SortPermutes(b, Before);
    BeforeIsStrict();
    IncreasingIsUnique(Sort(a, Before), Sort(b, Before), Before);
  }

  // ----- What admission is worth -----

  /** The kind a content must be declared as. */
  predicate Declared(kind: Kind, content: FragmentContent) {
    && (kind.Contract? <==> content.Rule?) && (kind.TraceKind? <==> content.Trace?)
    && (kind.StateSchema? <==> content.StatePolicy?) && (kind.Negative? <==> content.NegativeCase?)
    && (kind.Metamorphic? <==> content.MetamorphicProperty?)
  }

  /** Every admitted fragment is authentic, from a trusted issuer in its domain, about this
      component, and what its digest and kind say; what it depends on was admitted too, and no
      other fragment has its identity or its content. */
  lemma AdmittedFragment(s: seq<Envelope>, t: Target, k: nat)
    requires Admission(s, t).Ok? && k < |s|
    ensures var e := s[k];
            && e.authentic && e.timely
            && e.issuer in t.trusted && t.trusted[e.issuer] == e.failureDomain
            && e.component == t.component && e.interfaceVersion == t.interfaceVersion
            && e.contentDigest == Digest(e.content) && Declared(e.kind, e.content)
    ensures forall d :: d in s[k].dependencies ==> exists j :: 0 <= j < |s| && s[j].contentDigest == d
    ensures forall j :: 0 <= j < |s| && j != k ==>
              (s[j].issuer, s[j].sequence) != (s[k].issuer, s[k].sequence) && s[j].content != s[k].content
  {
    AdmittedIfWellFormed(s, t, k);
  }

  /** And one fragment that is not, or depends on a missing one, or repeats another, refuses all
      of them. */
  lemma OneFragmentRefuses(s: seq<Envelope>, t: Target, k: nat)
    requires k < |s|
    requires var e := s[k];
             || !e.authentic || !e.timely || e.issuer !in t.trusted || t.trusted[e.issuer] != e.failureDomain
             || e.component != t.component || e.interfaceVersion != t.interfaceVersion
             || e.contentDigest != Digest(e.content) || !Declared(e.kind, e.content)
             || (exists d :: d in e.dependencies && forall j :: 0 <= j < |s| ==> s[j].contentDigest != d)
             || (exists j :: 0 <= j < |s| && j != k
                             && ((s[j].issuer, s[j].sequence) == (e.issuer, e.sequence) || s[j].content == e.content))
    ensures Admission(s, t) == Err(InvalidEvidence)
  {
    if WellFormed(s, t) {
      AdmittedIfWellFormed(s, t, k);
    }
  }

  lemma AdmittedIfWellFormed(s: seq<Envelope>, t: Target, k: nat)
    requires WellFormed(s, t) && k < |s|
    ensures var e := s[k];
            && e.authentic && e.timely
            && e.issuer in t.trusted && t.trusted[e.issuer] == e.failureDomain
            && e.component == t.component && e.interfaceVersion == t.interfaceVersion
            && e.contentDigest == Digest(e.content) && Declared(e.kind, e.content)
    ensures forall d :: d in s[k].dependencies ==> exists j :: 0 <= j < |s| && s[j].contentDigest == d
    ensures forall j :: 0 <= j < |s| && j != k ==>
              (s[j].issuer, s[j].sequence) != (s[k].issuer, s[k].sequence) && s[j].content != s[k].content
  {
    hide Acyclic, DependencyGraph;
    assert Acceptable(s[k], t);
    GraphFacts(s);
    assert DependencyGraph(s)[s[k].contentDigest] == s[k].dependencies;
    forall d | d in s[k].dependencies
      ensures exists j :: 0 <= j < |s| && s[j].contentDigest == d
    {
      assert d in DependencyGraph(s);
    }
    forall j | 0 <= j < |s| && j != k
      ensures (s[j].issuer, s[j].sequence) != (s[k].issuer, s[k].sequence) && s[j].content != s[k].content
    {
      assert Acceptable(s[j], t);
      assert Identity(s[j]) != Identity(s[k]);
    }
  }

  /** Whether sound fragments are enough: as many failure domains as required, a contract and a
      state schema. They come back as they are, by issuer and sequence number. */
  lemma AdmissionSuffices(s: seq<Envelope>, t: Target)
    requires WellFormed(s, t)
    ensures Admission(s, t).Ok? <==>
            && |set k | 0 <= k < |s| :: s[k].failureDomain| >= t.requiredDomains
            && (exists k :: 0 <= k < |s| && s[k].content.Rule?) && (exists k :: 0 <= k < |s| && s[k].content.StatePolicy?)
    ensures Admission(s, t).Ok? ==>
              var out := Admission(s, t).value.envelopes;
              && multiset(out) == multiset(s)
              && forall i, j :: 0 <= i < j < |out| ==>
                   FirstDifference(out[i].issuer, out[j].issuer)
                   || (out[i].issuer == out[j].issuer && out[i].sequence < out[j].sequence)
  {
    hide Acyclic, DependencyGraph, Closed, Sort, TextLess, FirstDifference;
    forall k | 0 <= k < |s|
      ensures Declared(s[k].kind, s[k].content)
    {
      AdmittedIfWellFormed(s, t, k);
    }
    SortPermutes(s, Before);
    CollectedContentsDistinct(s, t);
    forall x, y | Before(x, y)
      ensures FirstDifference(x.issuer, y.issuer) || (x.issuer == y.issuer && x.sequence < y.sequence)
    {
      TextLessMeans(x.issuer, y.issuer);
    }
    InOrder(Sort(s, Before));
  }

  lemma InOrder(out: seq<Envelope>)
    requires Increasing(out, Before)
    requires forall x, y :: Before(x, y) ==>
               FirstDifference(x.issuer, y.issuer) || (x.issuer == y.issuer && x.sequence < y.sequence)
    ensures forall i, j :: 0 <= i < j < |out| ==>
              FirstDifference(out[i].issuer, out[j].issuer)
              || (out[i].issuer == out[j].issuer && out[i].sequence < out[j].sequence)
  {
    hide FirstDifference, Before;
    forall i, j | 0 <= i < j < |out|
      ensures Before(out[i], out[j])
    {
    }
  }
}
