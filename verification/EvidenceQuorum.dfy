/** What the two quorums of evidence retrieval give: every returned envelope was opened from
    enough independent stores, and fewer faulty stores than that cannot sway the result. */
module EvidenceQuorum {
  import opened Basics
  import opened Model
  import opened Sorting
  import Fragments
  import opened EvidencePlane

  type Envelope = Fragments.Envelope

  /** The store answered with a valid bundle of which every item opens. */
  ghost predicate Responds(c: Config, net: Network, k: nat) {
    k < |c.stores| && Accepted(c, net, k).Some? && AllOpen(Accepted(c, net, k).value.evidence)
  }

  ghost predicate Carries(c: Config, net: Network, k: nat, e: Envelope) {
    Responds(c, net, k) && Holds(Accepted(c, net, k).value.evidence, e)
  }

  ghost function Responders(c: Config, net: Network): set<nat> {
    set k: nat | k < |c.stores| && Responds(c, net, k)
  }

  ghost function Carriers(c: Config, net: Network, e: Envelope): set<nat> {
    set k: nat | k < |c.stores| && Carries(c, net, k, e)
  }

  ghost function RespondersBelow(c: Config, net: Network, n: nat): set<nat> {
    set k: nat | k < n && Responds(c, net, k)
  }

  ghost function CarriersBelow(c: Config, net: Network, e: Envelope, n: nat): set<nat> {
    set k: nat | k < n && Carries(c, net, k, e)
  }

  lemma RespondersStep(c: Config, net: Network, n: nat)
    ensures |RespondersBelow(c, net, n + 1)| == |RespondersBelow(c, net, n)| + if Responds(c, net, n) then 1 else 0
  {
    hide Responds;
    assert RespondersBelow(c, net, n + 1) == RespondersBelow(c, net, n) + if Responds(c, net, n) then {n} else {};
  }

  lemma CarriersStep(c: Config, net: Network, e: Envelope, n: nat)
    ensures |CarriersBelow(c, net, e, n + 1)| == |CarriersBelow(c, net, e, n)| + if Carries(c, net, n, e) then 1 else 0
  {
    hide Carries;
    assert CarriersBelow(c, net, e, n + 1) == CarriersBelow(c, net, e, n) + if Carries(c, net, n, e) then {n} else {};
  }

  lemma CopiesStep(tables: seq<seq<Envelope>>, table: seq<Envelope>, e: Envelope)
    ensures Copies(tables + [table], e) == Copies(tables, e) + if e in table then 1 else 0
  {
    assert (tables + [table])[..|tables + [table]| - 1] == tables;
  }

  /** Store `k` adds a table exactly when it responds, and the table is what it holds. */
  lemma StoreStep(c: Config, net: Network, f: Fingerprint, k: nat) returns (table: seq<Envelope>)
    requires Injective(f) && k < |c.stores|
    ensures Tables(Successes(c, net, k + 1), f)
         == if Responds(c, net, k) then Tables(Successes(c, net, k), f) + [table] else Tables(Successes(c, net, k), f)
    ensures Responds(c, net, k) ==> forall e :: e in table <==> Carries(c, net, k, e)
  {
    hide Opened, Accepted, Injective, AllOpen, Holds;
    table := [];
    var b, before := Accepted(c, net, k), Successes(c, net, k);
    if b.Some? {
      assert Successes(c, net, k + 1) == before + [b.value];
      assert (before + [b.value])[..|before + [b.value]| - 1] == before;
      OpenedFacts(b.value.evidence, f);
      if AllOpen(b.value.evidence) {
        table := Opened(b.value.evidence, f).value;
      } else {
        assert Tables(before + [b.value], f) == Tables(before, f) + [];
      }
    } else {
      assert Successes(c, net, k + 1) == before;
    }
  }

  /** The tables of the first `n` stores are those of the responders among them. */
  lemma {:induction false} TablesAreResponders(c: Config, net: Network, f: Fingerprint, n: nat)
    requires Injective(f) && n <= |c.stores|
    ensures |Tables(Successes(c, net, n), f)| == |RespondersBelow(c, net, n)|
  {
    hide Tables, Responds, Injective, Successes, RespondersBelow;
    if n == 0 {
      NoTables(c, net, f);
    } else {
      TablesAreResponders(c, net, f, n - 1);
      var table := StoreStep(c, net, f, n - 1);
      RespondersStep(c, net, n - 1);
    }
  }

  lemma NoTables(c: Config, net: Network, f: Fingerprint)
    ensures |Tables(Successes(c, net, 0), f)| == |RespondersBelow(c, net, 0)|
  {
    assert Successes(c, net, 0) == [] && RespondersBelow(c, net, 0) == {};
  }

  lemma NoCopies(c: Config, net: Network, f: Fingerprint, e: Envelope)
    ensures Copies(Tables(Successes(c, net, 0), f), e) == |CarriersBelow(c, net, e, 0)|
  {
    assert Successes(c, net, 0) == [] && Tables([], f) == [] && CarriersBelow(c, net, e, 0) == {};
  }

  /** An envelope's copies are the stores that carry it. */
  lemma {:induction false} CopiesAreCarriers(c: Config, net: Network, f: Fingerprint, e: Envelope, n: nat)
    requires Injective(f) && n <= |c.stores|
    ensures Copies(Tables(Successes(c, net, n), f), e) == |CarriersBelow(c, net, e, n)|
  {
    hide Tables, Carries, Responds, Injective, Successes, CarriersBelow, Copies;
    if n == 0 {
      NoCopies(c, net, f, e);
    } else {
      CopiesAreCarriers(c, net, f, e, n - 1);
      var table := StoreStep(c, net, f, n - 1);
      CarriersStep(c, net, e, n - 1);
      CopiesStep(Tables(Successes(c, net, n - 1), f), table, e);
      CarriersRespond(c, net, n - 1, e);
    }
  }

  lemma CarriersRespond(c: Config, net: Network, k: nat, e: Envelope)
    ensures Carries(c, net, k, e) ==> Responds(c, net, k) && k < |c.stores|
  {
  }

  lemma {:induction false} EnterAllMembers(unique: seq<Envelope>, table: seq<Envelope>, f: Fingerprint)
    requires Injective(f) && NoDuplicates(unique)
    ensures NoDuplicates(EnterAll(unique, table, f))
    ensures forall e :: e in EnterAll(unique, table, f) <==> e in unique || e in table
  {
    hide Enter, Injective;
    if table != [] {
      var init, last := table[..|table| - 1], table[|table| - 1];
      EnterAllMembers(unique, init, f);
      EnterFacts(EnterAll(unique, init, f), last, f);
      assert table == init + [last];
    }
  }

  lemma {:induction false} UnionMembers(processed: seq<seq<Envelope>>, f: Fingerprint)
    requires Injective(f)
    ensures NoDuplicates(Union(processed, f))
    ensures forall e :: e in Union(processed, f) <==> Copies(processed, e) > 0
  {
    hide EnterAll, Injective;
    if processed != [] {
      var init := processed[..|processed| - 1];
      UnionMembers(init, f);
      EnterAllMembers(Union(init, f), processed[|processed| - 1], f);
    }
  }

  lemma ProcessedFacts(c: Config, net: Network, f: Fingerprint)
    requires Injective(f)
    ensures var processed := Tables(Successes(c, net, |c.stores|), f);
            && |processed| == |Responders(c, net)|
            && (forall e :: Copies(processed, e) == |Carriers(c, net, e)|)
            && (forall e :: e in Union(processed, f) <==> Carriers(c, net, e) != {})
            && NoDuplicates(Union(processed, f))
  {
    hide Tables, Successes, Copies, Union, Injective, Responds, Carries;
    var processed := Tables(Successes(c, net, |c.stores|), f);
    TablesAreResponders(c, net, f, |c.stores|);
    assert RespondersBelow(c, net, |c.stores|) == Responders(c, net);
    UnionMembers(processed, f);
    forall e
      ensures Copies(processed, e) == |Carriers(c, net, e)|
      ensures e in Union(processed, f) <==> Carriers(c, net, e) != {}
    {
      CopiesAreCarriers(c, net, f, e, |c.stores|);
      assert CarriersBelow(c, net, e, |c.stores|) == Carriers(c, net, e);
    }
  }

  /** When retrieval succeeds, in terms of the stores alone: enough of them respond, every
      envelope one of them carries is carried by enough, and admission accepts the union. */
  lemma RetrievalSucceeds(c: Config, net: Network, f: Fingerprint)
    requires Injective(f)
    ensures Retrieval(c, net, f).Ok?
       <==> && ValidConfig(c) && c.keysLoad
            && |Responders(c, net)| >= c.requiredStores
            && (forall e :: Carriers(c, net, e) != {} ==> |Carriers(c, net, e)| >= c.requiredCopies)
            && Fragments.Admission(Union(Tables(Successes(c, net, |c.stores|), f), f), c.Aim()).Ok?
  {
    hide Tables, Successes, Copies, Union, Injective, Carriers, Responders, Fragments.Admission, ValidConfig;
    ProcessedFacts(c, net, f);
    var processed := Tables(Successes(c, net, |c.stores|), f);
    forall e
      ensures Copies(processed, e) > 0 <==> Carriers(c, net, e) != {}
    {
      assert Copies(processed, e) == |Carriers(c, net, e)|;
    }
  }

  /** What a successful retrieval returns: the union of the tables, sorted. */
  lemma RetrievalShape(c: Config, net: Network, f: Fingerprint)
    requires Retrieval(c, net, f).Ok?
    ensures var unique := Union(Tables(Successes(c, net, |c.stores|), f), f);
            && Fragments.WellFormed(unique, c.Aim())
            && Retrieval(c, net, f).value.envelopes == Sort(unique, Fragments.Before)
            && Retrieval(c, net, f).value.domains == Fragments.Domains(unique)
  {
    hide Tables, Successes, Union, Quorate, ValidConfig, Provenances, Failures, Unopened,
      Fragments.WellFormed, Fragments.Sufficient, Fragments.Domains, Sort;
  }

  lemma Returned(c: Config, net: Network, f: Fingerprint, e: Envelope)
    requires Injective(f) && Retrieval(c, net, f).Ok?
    ensures e in Retrieval(c, net, f).value.envelopes <==> Carriers(c, net, e) != {}
  {
    hide Retrieval, Tables, Successes, Copies, Union, Injective, Carriers, Fragments.WellFormed, Fragments.Domains, Sort;
    RetrievalShape(c, net, f);
    ProcessedFacts(c, net, f);
    var unique := Union(Tables(Successes(c, net, |c.stores|), f), f);
    SortPermutes(unique, Fragments.Before);
    assert e in unique <==> e in multiset(unique);
    assert e in Sort(unique, Fragments.Before) <==> e in multiset(Sort(unique, Fragments.Before));
  }

  /** The copy quorum: nothing the responding stores carry is dropped, and everything
      returned was opened from as many stores as required, no two of which share an id or an
      administrative failure domain. */
  lemma CopyQuorum(c: Config, net: Network, f: Fingerprint, e: Envelope)
    requires Injective(f) && Retrieval(c, net, f).Ok?
    ensures e in Retrieval(c, net, f).value.envelopes <==> Carriers(c, net, e) != {}
    ensures e in Retrieval(c, net, f).value.envelopes ==> |Carriers(c, net, e)| >= c.requiredCopies
    ensures forall i, j :: i in Carriers(c, net, e) && j in Carriers(c, net, e) && i != j ==>
                             c.stores[i].id != c.stores[j].id && c.stores[i].domain != c.stores[j].domain
  {
    Returned(c, net, f, e);
    RetrievalSucceeds(c, net, f);
    hide Retrieval, Injective, Carries;
    assert StoresIndependent(c.stores);
  }

  /** Fewer faulty stores than required copies cannot introduce an envelope: an honest store
      carries whatever is returned. */
  lemma FaultyCannotIntroduce(c: Config, net: Network, f: Fingerprint, faulty: set<nat>, e: Envelope) returns (k: nat)
    requires Injective(f) && Retrieval(c, net, f).Ok? && |faulty| < c.requiredCopies
    requires e in Retrieval(c, net, f).value.envelopes
    ensures k !in faulty && Carries(c, net, k, e)
  {
    CopyQuorum(c, net, f, e);
    hide Retrieval, Injective, Carries;
    if Carriers(c, net, e) <= faulty {
      SubsetSize(Carriers(c, net, e), faulty);
    }
    k :| k in Carriers(c, net, e) && k !in faulty;
  }

  ghost predicate AgreeOff(c: Config, x: Network, y: Network, faulty: set<nat>) {
    forall k: nat, attempt: nat :: k !in faulty ==> x(k, attempt) == y(k, attempt)
  }

  lemma {:induction false} SameReply(c: Config, x: Network, y: Network, faulty: set<nat>, k: nat, from: nat)
    requires AgreeOff(c, x, y, faulty) && k !in faulty && from <= c.retryBudget + 1
    ensures FirstReply(x, k, from, c.retryBudget) == FirstReply(y, k, from, c.retryBudget)
    decreases c.retryBudget + 1 - from
  {
    if from <= c.retryBudget {
      SameReply(c, x, y, faulty, k, from + 1);
    }
  }

  lemma HonestCarries(c: Config, x: Network, y: Network, faulty: set<nat>, k: nat, e: Envelope)
    requires AgreeOff(c, x, y, faulty) && k !in faulty
    ensures Carries(c, x, k, e) <==> Carries(c, y, k, e)
  {
    hide AgreeOff, FirstReply, Holds, AllOpen;
    SameReply(c, x, y, faulty, k, 0);
  }

  /** Fewer faulty stores than required copies can stop a retrieval, but not change what it
      returns: whatever they answer, two retrievals that succeed agree. */
  lemma FaultyCannotSway(c: Config, x: Network, y: Network, f: Fingerprint, faulty: set<nat>)
    requires Injective(f) && |faulty| < c.requiredCopies && AgreeOff(c, x, y, faulty)
    requires Retrieval(c, x, f).Ok? && Retrieval(c, y, f).Ok?
    ensures Retrieval(c, x, f).value.envelopes == Retrieval(c, y, f).value.envelopes
    ensures Retrieval(c, x, f).value.domains == Retrieval(c, y, f).value.domains
  {
    assert AgreeOff(c, y, x, faulty);
    hide Retrieval, Tables, Successes, Copies, Union, Injective, Carriers, Responders, AgreeOff, NoDuplicates,
      Fragments.WellFormed, Fragments.Domains, Sort;
    ProcessedFacts(c, x, f);
    ProcessedFacts(c, y, f);
    RetrievalShape(c, x, f);
    RetrievalShape(c, y, f);
    var left := Union(Tables(Successes(c, x, |c.stores|), f), f);
    var right := Union(Tables(Successes(c, y, |c.stores|), f), f);
    forall e
      ensures e in left <==> e in right
    {
      if e in left {
        SameUnion(c, x, y, f, faulty, e);
      } else if e in right {
        SameUnion(c, y, x, f, faulty, e);
      }
    }
    SameMembersSameMultiset(left, right);
    Fragments.CollectionIgnoresOrder(left, right, c.Aim());
    SameDomains(left, right);
  }

  lemma SameUnion(c: Config, x: Network, y: Network, f: Fingerprint, faulty: set<nat>, e: Envelope)
    requires Injective(f) && |faulty| < c.requiredCopies && AgreeOff(c, x, y, faulty)
    requires Retrieval(c, x, f).Ok? && Retrieval(c, y, f).Ok?
    requires e in Union(Tables(Successes(c, x, |c.stores|), f), f)
    ensures e in Union(Tables(Successes(c, y, |c.stores|), f), f)
  {
    ProcessedFacts(c, x, f);
    ProcessedFacts(c, y, f);
    hide Tables, Successes, Copies, Union, Injective, Retrieval, Carries, AgreeOff;
    Returned(c, x, f, e);
    var k := FaultyCannotIntroduce(c, x, f, faulty, e);
    HonestCarries(c, x, y, faulty, k, e);
    CarriersRespond(c, x, k, e);
    assert k in Carriers(c, y, e);
  }

  lemma SameMembersSameMultiset(x: seq<Envelope>, y: seq<Envelope>)
    requires NoDuplicates(x) && NoDuplicates(y) && forall e :: e in x <==> e in y
    ensures multiset(x) == multiset(y)
  {
    forall e
      ensures multiset(x)[e] == multiset(y)[e]
    {
      OnceInMultiset(x, e);
      OnceInMultiset(y, e);
    }
  }

  lemma {:induction false} OnceInMultiset(s: seq<Envelope>, e: Envelope)
    requires NoDuplicates(s)
    ensures multiset(s)[e] == if e in s then 1 else 0
  {
    if s != [] {
      var init, last := s[..|s| - 1], s[|s| - 1];
      assert s == init + [last];
      OnceInMultiset(init, e);
      assert last !in init;
    }
  }

  lemma SameDomains(x: seq<Envelope>, y: seq<Envelope>)
    requires forall e :: e in x <==> e in y
    ensures Fragments.Domains(x) == Fragments.Domains(y)
  {
    forall d
      ensures d in Fragments.Domains(x) <==> d in Fragments.Domains(y)
    {
      if k :| 0 <= k < |x| && x[k].failureDomain == d {
        assert x[k] in y;
        var j :| 0 <= j < |y| && y[j] == x[k];
      }
      if k :| 0 <= k < |y| && y[k].failureDomain == d {
        assert y[k] in x;
        var j :| 0 <= j < |x| && x[j] == y[k];
      }
    }
  }

  // ----- What one store can do -----

  /** The bundle a store may answer with: its own name, and one envelope. */
  function Lone(store: Store, e: Envelope): Bundle {
    Bundle(true, store.id, store.domain, store.minimumGeneration, [Sealed(Some(e))], true)
  }

  /** The same answers, but for store `k` carrying just this envelope. */
  function Answering(c: Config, net: Network, k: nat, e: Envelope): Network
    requires k < |c.stores|
  {
    (store: nat, attempt: nat) => if store == k then Some(Lone(c.stores[k], e)) else net(store, attempt)
  }

  lemma LoneCarries(c: Config, net: Network, k: nat, e: Envelope)
    requires k < |c.stores|
    ensures AgreeOff(c, net, Answering(c, net, k, e), {k})
    ensures forall x :: Carries(c, Answering(c, net, k, e), k, x) <==> x == e
  {
    var y := Answering(c, net, k, e);
    var b := Lone(c.stores[k], e);
    assert FirstReply(y, k, 0, c.retryBudget) == Some(b);
    assert Accepted(c, y, k) == Some(b);
    assert b.evidence[0].plain == Some(e);
  }

  lemma NobodyElseCarries(c: Config, net: Network, k: nat, e: Envelope, n: nat)
    requires k < |c.stores| && Carriers(c, net, e) <= {k} && n != k
    ensures !Carries(c, Answering(c, net, k, e), n, e)
  {
    LoneCarries(c, net, k, e);
    hide Carries;
    HonestCarries(c, net, Answering(c, net, k, e), {k}, n, e);
    CarriersRespond(c, net, n, e);
    assert Carries(c, net, n, e) ==> n in Carriers(c, net, e);
  }

  /** With a quorum of two or more, one store refuses a retrieval by carrying an envelope that
      nobody else carries, however acceptable the envelope is. */
  lemma LoneEnvelopeRefuses(c: Config, net: Network, f: Fingerprint, k: nat, e: Envelope)
    requires Injective(f) && k < |c.stores| && c.requiredCopies >= 2
    requires Carriers(c, net, e) <= {k}
    ensures Retrieval(c, Answering(c, net, k, e), f).Err?
  {
    var y := Answering(c, net, k, e);
    LoneCarries(c, net, k, e);
    forall n: nat | n != k
      ensures !Carries(c, y, n, e)
    {
      NobodyElseCarries(c, net, k, e, n);
    }
    CarriersRespond(c, y, k, e);
    assert Carriers(c, y, e) == {k};
    hide Retrieval, Injective;
    RetrievalSucceeds(c, y, f);
  }

  /** A list leaves one of the smallest sequence numbers free. */
  lemma Fresh(s: seq<Envelope>, sample: Envelope) returns (e: Envelope)
    ensures e !in s && e == sample.(sequence := e.sequence) && e.sequence <= |s|
  {
    var taken, numbers := set k | 0 <= k < |s| :: s[k].sequence, Below(|s| + 1);
    TakenBound(s);
    if numbers <= taken {
      SubsetSize(numbers, taken);
    }
    var n :| n in numbers && n !in taken;
    e := sample.(sequence := n);
  }

  lemma {:induction false} TakenBound(s: seq<Envelope>)
    ensures |set k | 0 <= k < |s| :: s[k].sequence| <= |s|
  {
    if s != [] {
      var init, last := s[..|s| - 1], s[|s| - 1];
      TakenBound(init);
      assert (set k | 0 <= k < |s| :: s[k].sequence) == (set k | 0 <= k < |init| :: init[k].sequence) + {last.sequence};
    }
  }

  function Below(n: nat): (r: set<nat>)
    ensures |r| == n && forall k: nat :: k in r <==> k < n
  {
    if n == 0 then {} else Below(n - 1) + {n - 1}
  }

  /** From two required copies on, any single store can turn a retrieval that succeeds into one
      that is refused, with an envelope like any it is asked for but for its sequence number.
      With one required copy it can too, but not by the copy quorum: only with an envelope
      that admission does not accept. */
  lemma OneStoreRefuses(c: Config, net: Network, f: Fingerprint, k: nat, sample: Envelope) returns (e: Envelope)
    requires Injective(f) && Retrieval(c, net, f).Ok? && k < |c.stores|
    ensures AgreeOff(c, net, Answering(c, net, k, e), {k})
    ensures Retrieval(c, Answering(c, net, k, e), f).Err?
    ensures c.requiredCopies >= 2 ==> e == sample.(sequence := e.sequence)
  {
    if c.requiredCopies >= 2 {
      e := Fresh(Retrieval(c, net, f).value.envelopes, sample);
      Returned(c, net, f, e);
      LoneEnvelopeRefuses(c, net, f, k, e);
    } else {
      e := sample.(timely := false);
      LoneCarries(c, net, k, e);
      InadmissibleRefuses(c, Answering(c, net, k, e), f, k, e);
    }
    LoneCarries(c, net, k, e);
  }

  lemma InadmissibleRefuses(c: Config, net: Network, f: Fingerprint, k: nat, e: Envelope)
    requires Injective(f) && k < |c.stores| && !e.timely && Carries(c, net, k, e)
    ensures Retrieval(c, net, f).Err?
  {
    hide Retrieval, Carries, Injective;
    if Retrieval(c, net, f).Ok? {
      assert k in Carriers(c, net, e);
      RetrievalShape(c, net, f);
      ProcessedFacts(c, net, f);
      var unique := Union(Tables(Successes(c, net, |c.stores|), f), f);
      assert e in unique;
      NotAdmitted(unique, c.Aim(), e);
    }
  }

  lemma NotAdmitted(s: seq<Envelope>, t: Fragments.Target, e: Envelope)
    requires e in s && !e.timely
    ensures !Fragments.WellFormed(s, t)
  {
    var k :| 0 <= k < |s| && s[k] == e;
    assert !Fragments.Acceptable(s[k], t);
  }

  /** With one required copy the copy quorum refuses nothing: retrieval succeeds whenever
      enough stores respond and admission accepts the union, and then whatever a single store
      carries is returned. */
  lemma SingleCopyTrustsEachStore(c: Config, net: Network, f: Fingerprint, k: nat, e: Envelope)
    requires Injective(f) && c.requiredCopies == 1
    ensures Retrieval(c, net, f).Ok?
       <==> && ValidConfig(c) && c.keysLoad && |Responders(c, net)| >= c.requiredStores
            && Fragments.Admission(Union(Tables(Successes(c, net, |c.stores|), f), f), c.Aim()).Ok?
    ensures Retrieval(c, net, f).Ok? && Carries(c, net, k, e) ==> e in Retrieval(c, net, f).value.envelopes
  {
    RetrievalSucceeds(c, net, f);
    hide Retrieval, Injective, ValidConfig, Fragments.Admission, Responders, Carries;
    if Retrieval(c, net, f).Ok? && Carries(c, net, k, e) {
      CarriersRespond(c, net, k, e);
      assert k in Carriers(c, net, e);
      Returned(c, net, f, e);
    }
  }

  /** The batch size never shows in the result. */
  lemma {:induction false} SuccessesIgnoreBatching(c: Config, net: Network, parallel: nat, n: nat)
    requires n <= |c.stores|
    ensures Successes(c.(maxParallel := parallel), net, n) == Successes(c, net, n)
    ensures Failures(c.(maxParallel := parallel), net, n) == Failures(c, net, n)
  {
    if n > 0 {
      SuccessesIgnoreBatching(c, net, parallel, n - 1);
    }
  }

  lemma BatchingIsInvisible(c: Config, net: Network, f: Fingerprint, parallel: nat)
    requires 1 <= parallel <= MAX_PARALLEL && 1 <= c.maxParallel <= MAX_PARALLEL
    ensures Retrieval(c.(maxParallel := parallel), net, f) == Retrieval(c, net, f)
  {
    hide Successes, Failures, Tables, Provenances, Unopened, Union, Fragments.Admission, Quorate, ValidId;
    SuccessesIgnoreBatching(c, net, parallel, |c.stores|);
    assert c.(maxParallel := parallel).Aim() == c.Aim();
    assert ValidConfig(c.(maxParallel := parallel)) == ValidConfig(c);
  }

  // ----- Which answer counts, and what the receipt says of it -----

  /** The store's first answer is this bundle, at this attempt. */
  ghost predicate FirstAnswer(net: Network, k: nat, attempt: nat, b: Bundle) {
    net(k, attempt) == Some(b) && forall j: nat :: j < attempt ==> net(k, j).None?
  }

  /** A bundle this store may be believed for, of which every item opens. */
  ghost predicate Believable(store: Store, b: Bundle) {
    && b.versioned && b.signed && b.storeId == store.id && b.domain == store.domain
    && b.generation >= store.minimumGeneration
    && 1 <= |b.evidence| <= 10_000
    && forall i :: 0 <= i < |b.evidence| ==> b.evidence[i].plain.Some?
  }

  lemma {:induction false} FirstReplyIs(net: Network, k: nat, from: nat, retries: nat)
    requires from <= retries + 1 && forall j: nat :: j < from ==> net(k, j).None?
    ensures forall b :: FirstReply(net, k, from, retries) == Some(b)
                        <==> exists attempt: nat :: attempt <= retries && FirstAnswer(net, k, attempt, b)
    decreases retries + 1 - from
  {
    if from <= retries && net(k, from).None? {
      FirstReplyIs(net, k, from + 1, retries);
    } else if from <= retries {
      var first := net(k, from).value;
      assert FirstAnswer(net, k, from, first);
      forall b, attempt: nat | FirstAnswer(net, k, attempt, b)
        ensures b == first
      {
        assert attempt >= from;
        assert attempt > from ==> net(k, from).None?;
      }
    }
  }

  /** A store responds exactly when its first answer within the retries is believable. A later
      answer does not repair an earlier one. */
  lemma RespondsExactly(c: Config, net: Network, k: nat)
    requires k < |c.stores|
    ensures Responds(c, net, k) <==>
            exists attempt: nat, b :: attempt <= c.retryBudget && FirstAnswer(net, k, attempt, b) && Believable(c.stores[k], b)
  {
    FirstReplyIs(net, k, 0, c.retryBudget);
    hide FirstReply, FirstAnswer;
    if Responds(c, net, k) {
      var b := Accepted(c, net, k).value;
      assert FirstReply(net, k, 0, c.retryBudget) == Some(b);
      assert Believable(c.stores[k], b);
    }
    if attempt: nat, b :| attempt <= c.retryBudget && FirstAnswer(net, k, attempt, b) && Believable(c.stores[k], b) {
      assert FirstReply(net, k, 0, c.retryBudget) == Some(b);
    }
  }

  /** The receipt's line about a store that responded. */
  function Line(store: Store, b: Bundle): Provenance {
    Provenance(store.id, store.domain, b.generation, |b.evidence|)
  }

  /** One of the first `n` stores has this id and did not respond. */
  ghost predicate Silent(c: Config, net: Network, n: nat, id: Text) {
    exists k: nat :: k < n && k < |c.stores| && !Responds(c, net, k) && c.stores[k].id == id
  }

  /** This is the line of one of the first `n` stores, which responded. */
  ghost predicate Told(c: Config, net: Network, n: nat, p: Provenance) {
    exists k: nat :: k < n && k < |c.stores| && Responds(c, net, k) && p == Line(c.stores[k], Accepted(c, net, k).value)
  }

  lemma SilentStep(c: Config, net: Network, n: nat, id: Text)
    requires n < |c.stores|
    ensures Silent(c, net, n + 1, id) <==> Silent(c, net, n, id) || (!Responds(c, net, n) && c.stores[n].id == id)
  {
    hide Responds;
  }

  lemma ToldStep(c: Config, net: Network, n: nat, p: Provenance)
    requires n < |c.stores|
    ensures Told(c, net, n + 1, p) <==>
            Told(c, net, n, p) || (Responds(c, net, n) && p == Line(c.stores[n], Accepted(c, net, n).value))
  {
    hide Accepted, AllOpen;
  }

  lemma {:induction false} ReceiptBelow(c: Config, net: Network, f: Fingerprint, n: nat)
    requires Injective(f) && n <= |c.stores|
    ensures forall id :: id in Failures(c, net, n) || id in Unopened(Successes(c, net, n), f) <==> Silent(c, net, n, id)
    ensures forall p :: p in Provenances(Successes(c, net, n), f) <==> Told(c, net, n, p)
    decreases n
  {
    hide Opened, Injective, AllOpen, Accepted, Responds;
    if n == 0 {
      assert Successes(c, net, 0) == [];
    } else {
      hide Silent, Told, Failures, Unopened, Successes, Provenances;
      ReceiptBelow(c, net, f, n - 1);
      ReceiptStep(c, net, f, n - 1);
      forall id
        ensures Silent(c, net, n, id) <==> id in Failures(c, net, n) || id in Unopened(Successes(c, net, n), f)
      {
        SilentStep(c, net, n - 1, id);
      }
      forall p
        ensures Told(c, net, n, p) <==> p in Provenances(Successes(c, net, n), f)
      {
        ToldStep(c, net, n - 1, p);
      }
    }
  }

  lemma ReceiptStep(c: Config, net: Network, f: Fingerprint, k: nat)
    requires Injective(f) && k < |c.stores|
    ensures forall id :: id in Failures(c, net, k + 1) || id in Unopened(Successes(c, net, k + 1), f) <==>
              id in Failures(c, net, k) || id in Unopened(Successes(c, net, k), f)
              || (!Responds(c, net, k) && c.stores[k].id == id)
    ensures forall p :: p in Provenances(Successes(c, net, k + 1), f) <==>
              p in Provenances(Successes(c, net, k), f)
              || (Responds(c, net, k) && p == Line(c.stores[k], Accepted(c, net, k).value))
  {
    hide Opened, Injective, AllOpen;
    var b, before, id := Accepted(c, net, k), Successes(c, net, k), c.stores[k].id;
    assert Failures(c, net, k + 1) == Failures(c, net, k) + if b.Some? then [] else [id];
    if b.Some? {
      assert Successes(c, net, k + 1) == before + [b.value];
      OpenedFacts(b.value.evidence, f);
      assert b.value.storeId == id && b.value.domain == c.stores[k].domain;
      UnopenedSnoc(before, b.value, f);
      assert Unopened(Successes(c, net, k + 1), f) == Unopened(before, f) + if Responds(c, net, k) then [] else [id];
      assert Provenances(Successes(c, net, k + 1), f)
          == Provenances(before, f) + if Responds(c, net, k) then [Line(c.stores[k], b.value)] else [];
    } else {
      assert Successes(c, net, k + 1) == before + [] == before;
    }
  }

  lemma UnopenedSnoc(before: seq<Bundle>, b: Bundle, f: Fingerprint)
    ensures Unopened(before + [b], f) == Unopened(before, f) + if Opened(b.evidence, f).Some? then [] else [b.storeId]
    ensures Provenances(before + [b], f) == Provenances(before, f)
            + if Opened(b.evidence, f).Some? then [Provenance(b.storeId, b.domain, b.generation, |b.evidence|)] else []
  {
    hide Opened;
    assert (before + [b])[..|before + [b]| - 1] == before;
  }

  /** The receipt of a retrieval names as failed exactly the stores that did not respond, and has
      a line for each of the others with what its counted answer held. */
  lemma ReceiptExactly(c: Config, net: Network, f: Fingerprint, k: nat)
    requires Injective(f) && Retrieval(c, net, f).Ok? && k < |c.stores|
    ensures var r := Retrieval(c, net, f).value;
            && (c.stores[k].id in r.failed <==> !Responds(c, net, k))
            && (Responds(c, net, k) ==> Line(c.stores[k], Accepted(c, net, k).value) in r.provenance)
            && ((exists p :: p in r.provenance && p.storeId == c.stores[k].id) <==> Responds(c, net, k))
  {
    hide Injective, Responds, Accepted, Fragments.Admission, Quorate, Provenances, Unopened, Failures, Successes;
    ReceiptBelow(c, net, f, |c.stores|);
    assert StoresIndependent(c.stores);
  }
}
