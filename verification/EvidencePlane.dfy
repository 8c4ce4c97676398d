/** Retrieval of sealed evidence from several stores (`retrieve` in src/evidence_plane.rs):
    batched reads, the copy count, and the quorums. */
module EvidencePlane {
  import opened Basics
  import opened Model
  import opened Sorting
  import opened Fragments

  const MAX_STORES := 32
  const MAX_PARALLEL := 8
  const MAX_EVIDENCE := 10_000

  /** `keyUsable`: the public key is 32 bytes of hex. */
  datatype Store = Store(id: Text, domain: Text, minimumGeneration: nat, keyUsable: bool)

  /** `usable`: the issuer policy validates. `legacy`: it is an HMAC policy. */
  datatype Issuer = Issuer(domain: Text, legacy: bool, usable: bool)

  /** `timed`: the verification time parses. `keysLoad`: every recovery key file is read. */
  datatype Config = Config(
    component: Text,
    interfaceVersion: Text,
    requiredDomains: nat,
    requiredStores: nat,
    requiredCopies: nat,
    maxParallel: nat,
    timeoutMs: nat,
    retryBudget: nat,
    timed: bool,
    stores: seq<Store>,
    issuers: map<Text, Issuer>,
    keysLoad: bool
  ) {
    function Aim(): Target {
      Target(map i | i in issuers :: issuers[i].domain, requiredDomains, component, interfaceVersion)
    }
  }

  /** What opening a sealed item with the recovery keys yields, if it opens. */
  datatype Sealed = Sealed(plain: Option<Envelope>)

  /** `signed`: the signature holds under the key of the store the bundle was asked from. */
  datatype Bundle = Bundle(
    versioned: bool,
    storeId: Text,
    domain: Text,
    generation: nat,
    evidence: seq<Sealed>,
    signed: bool
  )

  /** What each store answers to each attempt to read it. */
  type Network = (nat, nat) -> Option<Bundle>

  datatype Provenance = Provenance(storeId: Text, domain: Text, generation: nat, count: nat)

  datatype Retrieved = Retrieved(
    envelopes: seq<Envelope>,
    domains: set<Text>,
    provenance: seq<Provenance>,
    failed: seq<Text>
  )

  // ----- Configuration -----

  predicate IdByte(b: Byte) {
    || 0x30 <= b <= 0x39 || 0x41 <= b <= 0x5a || 0x61 <= b <= 0x7a
    || b in {0x2e, 0x5f, 0x3a, 0x2f, 0x2d}
  }

  predicate ValidId(t: Text) {
    1 <= |t| <= 128 && forall k :: 0 <= k < |t| ==> IdByte(t[k])
  }

  predicate WithinBounds(c: Config) {
    && 1 <= |c.stores| <= MAX_STORES
    && 1 <= c.requiredCopies <= c.requiredStores <= |c.stores|
    && 1 <= c.maxParallel <= MAX_PARALLEL
    && 1 <= c.timeoutMs <= 60_000
    && c.retryBudget <= 3
    && c.requiredDomains >= 1
  }

  predicate IssuersUsable(c: Config) {
    forall i :: i in c.issuers ==> c.issuers[i].usable && c.issuers[i].domain != [] && !c.issuers[i].legacy
  }

  /** No two stores share an id or an administrative failure domain. */
  predicate StoresIndependent(stores: seq<Store>) {
    forall i, j :: 0 <= i < j < |stores| ==> stores[i].id != stores[j].id && stores[i].domain != stores[j].domain
  }

  predicate ValidConfig(c: Config) {
    && ValidId(c.component) && ValidId(c.interfaceVersion) && c.timed
    && WithinBounds(c)
    && (forall k :: 0 <= k < |c.stores| ==> ValidId(c.stores[k].id) && ValidId(c.stores[k].domain) && c.stores[k].keyUsable)
    && StoresIndependent(c.stores)
    && IssuersUsable(c)
  }

  method ValidateConfig(c: Config) returns (valid: bool)
    ensures valid == ValidConfig(c)
  {
    if !ValidId(c.component) || !ValidId(c.interfaceVersion) || !c.timed || !WithinBounds(c) {
      return false;
    }
    hide ValidId, IssuersUsable;
    var ids: set<Text>, domains: set<Text> := {}, {};
    for k := 0 to |c.stores|
      invariant forall x :: x in ids <==> exists i :: 0 <= i < k && c.stores[i].id == x
      invariant forall x :: x in domains <==> exists i :: 0 <= i < k && c.stores[i].domain == x
      invariant forall i :: 0 <= i < k ==> ValidId(c.stores[i].id) && ValidId(c.stores[i].domain) && c.stores[i].keyUsable
      invariant forall i, j :: 0 <= i < j < k ==> c.stores[i].id != c.stores[j].id && c.stores[i].domain != c.stores[j].domain
    {
      var store := c.stores[k];
      if !ValidId(store.id) || !ValidId(store.domain) || store.id in ids || store.domain in domains || !store.keyUsable {
        return false;
      }
      ids := ids + {store.id};
      domains := domains + {store.domain};
    }
    return IssuersUsable(c);
  }

  // ----- Reading the stores -----

  function FirstReply(net: Network, k: nat, from: nat, retries: nat): Option<Bundle>
    requires from <= retries + 1
    decreases retries + 1 - from
  {
    if from == retries + 1 then None
    else if net(k, from).Some? then net(k, from)
    else FirstReply(net, k, from + 1, retries)
  }

  predicate Authentic(store: Store, b: Bundle) {
    && b.versioned && b.storeId == store.id && b.domain == store.domain
    && b.generation >= store.minimumGeneration
    && 1 <= |b.evidence| <= MAX_EVIDENCE
    && b.signed
  }

  function Accepted(c: Config, net: Network, k: nat): Option<Bundle>
    requires k < |c.stores|
  {
    var reply := FirstReply(net, k, 0, c.retryBudget);
    if reply.Some? && Authentic(c.stores[k], reply.value) then reply else None
  }

  /** The accepted bundles of the first `n` stores, in store order. */
  function Successes(c: Config, net: Network, n: nat): seq<Bundle>
    requires n <= |c.stores|
  {
    if n == 0 then []
    else
      var b := Accepted(c, net, n - 1);
      Successes(c, net, n - 1) + if b.Some? then [b.value] else []
  }

  function Failures(c: Config, net: Network, n: nat): seq<Text>
    requires n <= |c.stores|
  {
    if n == 0 then []
    else Failures(c, net, n - 1) + if Accepted(c, net, n - 1).Some? then [] else [c.stores[n - 1].id]
  }

  method FetchWithRetries(net: Network, k: nat, retries: nat) returns (r: Option<Bundle>)
    ensures r == FirstReply(net, k, 0, retries)
  {
    for attempt := 0 to retries + 1
      invariant FirstReply(net, k, 0, retries) == FirstReply(net, k, attempt, retries)
    {
      if net(k, attempt).Some? {
        return net(k, attempt);
      }
    }
    return None;
  }

  /** Reads the stores in batches of `maxParallel`: the batches leave no trace in the result. */
  method ReadStores(c: Config, net: Network) returns (successes: seq<Bundle>, failures: seq<Text>)
    requires c.maxParallel >= 1
    ensures successes == Successes(c, net, |c.stores|)
    ensures failures == Failures(c, net, |c.stores|)
  {
    hide Authentic;
    successes, failures := [], [];
    var start := 0;
    while start < |c.stores|
      invariant start <= |c.stores|
      invariant successes == Successes(c, net, start)
      invariant failures == Failures(c, net, start)
    {
      var end := if start + c.maxParallel <= |c.stores| then start + c.maxParallel else |c.stores|;
      var results: seq<Option<Bundle>> := [];
      for k := start to end
        invariant |results| == k - start
        invariant forall j :: 0 <= j < |results| ==> results[j] == FirstReply(net, start + j, 0, c.retryBudget)
      {
        var result := FetchWithRetries(net, k, c.retryBudget);
        results := results + [result];
      }
      for k := start to end
        invariant successes == Successes(c, net, k)
        invariant failures == Failures(c, net, k)
      {
        var result := results[k - start];
        if result.Some? && Authentic(c.stores[k], result.value) {
          successes := successes + [result.value];
        } else {
          failures := failures + [c.stores[k].id];
        }
      }
      start := end;
    }
  }

  // ----- Opening the bundles -----

  /** Envelopes by fingerprint, in the order of an ordered map. The fingerprint stands for
      the canonical digest and is taken to be injective. */
  type Fingerprint = Envelope -> Text

  ghost predicate Injective(f: Fingerprint) {
    forall x, y :: f(x) == f(y) ==> x == y
  }

  function By(f: Fingerprint): (Envelope, Envelope) -> bool {
    (x: Envelope, y: Envelope) => TextLess(f(x), f(y))
  }

  /** Adds an envelope unless its fingerprint is there. */
  function Enter(table: seq<Envelope>, e: Envelope, f: Fingerprint): seq<Envelope> {
    if exists k :: 0 <= k < |table| && f(table[k]) == f(e) then table else Insert(e, table, By(f))
  }

  function Opened(evidence: seq<Sealed>, f: Fingerprint): Option<seq<Envelope>> {
    if evidence == [] then Some([])
    else
      var table := Opened(evidence[..|evidence| - 1], f);
      var item := evidence[|evidence| - 1].plain;
      if table.None? || item.None? then None else Some(Enter(table.value, item.value, f))
  }

  lemma {:induction false} OpenedPrefix(evidence: seq<Sealed>, n: nat, f: Fingerprint)
    requires n <= |evidence| && Opened(evidence[..n], f).None?
    ensures Opened(evidence, f).None?
    decreases |evidence|
  {
    if n == |evidence| {
      assert evidence[..n] == evidence;
    } else {
      assert evidence[..|evidence| - 1][..n] == evidence[..n];
      OpenedPrefix(evidence[..|evidence| - 1], n, f);
    }
  }

  method OpenBundle(evidence: seq<Sealed>, f: Fingerprint) returns (table: Option<seq<Envelope>>)
    ensures table == Opened(evidence, f)
  {
    hide Enter;
    var envelopes: seq<Envelope> := [];
    for k := 0 to |evidence|
      invariant Opened(evidence[..k], f) == Some(envelopes)
    {
      assert evidence[..k + 1][..k] == evidence[..k];
      if evidence[k].plain.None? {
        OpenedPrefix(evidence, k + 1, f);
        return None;
      }
      envelopes := Enter(envelopes, evidence[k].plain.value, f);
    }
    assert evidence[..|evidence|] == evidence;
    return Some(envelopes);
  }

  function Tables(bundles: seq<Bundle>, f: Fingerprint): seq<seq<Envelope>> {
    if bundles == [] then []
    else
      var table := Opened(bundles[|bundles| - 1].evidence, f);
      Tables(bundles[..|bundles| - 1], f) + if table.Some? then [table.value] else []
  }

  function Provenances(bundles: seq<Bundle>, f: Fingerprint): seq<Provenance> {
    if bundles == [] then []
    else
      var b := bundles[|bundles| - 1];
      Provenances(bundles[..|bundles| - 1], f)
      + if Opened(b.evidence, f).Some? then [Provenance(b.storeId, b.domain, b.generation, |b.evidence|)] else []
  }

  function Unopened(bundles: seq<Bundle>, f: Fingerprint): seq<Text> {
    if bundles == [] then []
    else
      var b := bundles[|bundles| - 1];
      Unopened(bundles[..|bundles| - 1], f) + if Opened(b.evidence, f).Some? then [] else [b.storeId]
  }

  method OpenBundles(bundles: seq<Bundle>, f: Fingerprint)
    returns (processed: seq<seq<Envelope>>, provenance: seq<Provenance>, failures: seq<Text>)
    ensures processed == Tables(bundles, f)
    ensures provenance == Provenances(bundles, f)
    ensures failures == Unopened(bundles, f)
  {
    hide Opened;
    processed, provenance, failures := [], [], [];
    for k := 0 to |bundles|
      invariant processed == Tables(bundles[..k], f)
      invariant provenance == Provenances(bundles[..k], f)
      invariant failures == Unopened(bundles[..k], f)
    {
      assert bundles[..k + 1][..k] == bundles[..k];
      var b := bundles[k];
      var table := OpenBundle(b.evidence, f);
      if table.Some? {
        provenance := provenance + [Provenance(b.storeId, b.domain, b.generation, |b.evidence|)];
        processed := processed + [table.value];
      } else {
        failures := failures + [b.storeId];
      }
    }
    assert bundles[..|bundles|] == bundles;
  }

  // ----- Counting copies -----

  /** In how many tables an envelope stands. */
  function Copies(processed: seq<seq<Envelope>>, e: Envelope): nat {
    if processed == [] then 0
    else Copies(processed[..|processed| - 1], e) + if e in processed[|processed| - 1] then 1 else 0
  }

  function EnterAll(unique: seq<Envelope>, table: seq<Envelope>, f: Fingerprint): seq<Envelope> {
    if table == [] then unique
    else Enter(EnterAll(unique, table[..|table| - 1], f), table[|table| - 1], f)
  }

  function Union(processed: seq<seq<Envelope>>, f: Fingerprint): seq<Envelope> {
    if processed == [] then []
    else EnterAll(Union(processed[..|processed| - 1], f), processed[|processed| - 1], f)
  }

  ghost predicate Quorate(processed: seq<seq<Envelope>>, required: nat) {
    forall e :: Copies(processed, e) > 0 ==> Copies(processed, e) >= required
  }

  /** Everything after the stores were read and opened. */
  ghost function Retrieval(c: Config, net: Network, f: Fingerprint): Result<Retrieved, Error> {
    if !ValidConfig(c) || !c.keysLoad then Err(InvalidRegistry)
    else
      var bundles := Successes(c, net, |c.stores|);
      var processed := Tables(bundles, f);
      if |processed| < c.requiredStores || !Quorate(processed, c.requiredCopies) then Err(InsufficientEvidence)
      else
        match Admission(Union(processed, f), c.Aim())
        case Err(e) => Err(e)
        case Ok(v) =>
          Ok(Retrieved(v.envelopes, v.domains, Provenances(bundles, f),
                       Failures(c, net, |c.stores|) + Unopened(bundles, f)))
  }

  ghost predicate Counted(copies: map<Text, nat>, processed: seq<seq<Envelope>>, table: seq<Envelope>, f: Fingerprint) {
    forall e ::
      && (f(e) in copies <==> Copies(processed, e) > 0 || e in table)
      && (f(e) in copies ==> copies[f(e)] == Copies(processed, e) + if e in table then 1 else 0)
  }

  /** Every key of the counter is the fingerprint of an envelope. */
  ghost predicate Grounded(copies: map<Text, nat>, f: Fingerprint) {
    forall key :: key in copies ==> exists e :: f(e) == key
  }

  lemma CountOne(copies: map<Text, nat>, processed: seq<seq<Envelope>>, table: seq<Envelope>, e: Envelope, f: Fingerprint)
    requires Injective(f) && Counted(copies, processed, table, f) && e !in table
    ensures Counted(copies[f(e) := (if f(e) in copies then copies[f(e)] else 0) + 1], processed, table + [e], f)
  {
    hide Copies;
    var next := copies[f(e) := (if f(e) in copies then copies[f(e)] else 0) + 1];
    forall x
      ensures f(x) in next <==> Copies(processed, x) > 0 || x in table + [e]
      ensures f(x) in next ==> next[f(x)] == Copies(processed, x) + if x in table + [e] then 1 else 0
    {
      assert x in table + [e] <==> x in table || x == e;
      assert f(x) == f(e) ==> x == e;
    }
  }

  /** The nested loop over the stores' tables. */
  method CountCopies(processed: seq<seq<Envelope>>, f: Fingerprint)
    returns (copies: map<Text, nat>, unique: seq<Envelope>)
    requires Injective(f) && forall k :: 0 <= k < |processed| ==> NoDuplicates(processed[k])
    ensures Counted(copies, processed, [], f) && Grounded(copies, f)
    ensures unique == Union(processed, f)
  {
    hide Enter, Injective, Counted, Copies, Grounded;
    copies, unique := map[], [];
    assert Counted(copies, [], [], f) && Grounded(copies, f) by {
      NothingCounted(f);
    }
    for k := 0 to |processed|
      invariant Counted(copies, processed[..k], [], f) && Grounded(copies, f)
      invariant unique == Union(processed[..k], f)
    {
      var table := processed[k];
      assert processed[..k + 1][..k] == processed[..k];
      for j := 0 to |table|
        invariant Counted(copies, processed[..k], table[..j], f) && Grounded(copies, f)
        invariant unique == EnterAll(Union(processed[..k], f), table[..j], f)
      {
        assert table[..j + 1][..j] == table[..j] && table[..j + 1] == table[..j] + [table[j]];
        assert table[j] !in table[..j];
        var key := f(table[j]);
        CountOne(copies, processed[..k], table[..j], table[j], f);
        StillGrounded(copies, table[j], (if key in copies then copies[key] else 0) + 1, f);
        copies := copies[key := (if key in copies then copies[key] else 0) + 1];
        unique := Enter(unique, table[j], f);
      }
      assert table[..|table|] == table;
      NextTable(copies, processed, k, f);
    }
    assert processed[..|processed|] == processed;
  }

  lemma NothingCounted(f: Fingerprint)
    ensures Counted(map[], [], [], f) && Grounded(map[], f)
  {
  }

  lemma StillGrounded(copies: map<Text, nat>, e: Envelope, n: nat, f: Fingerprint)
    requires Grounded(copies, f)
    ensures Grounded(copies[f(e) := n], f)
  {
  }

  lemma NextTable(copies: map<Text, nat>, processed: seq<seq<Envelope>>, k: nat, f: Fingerprint)
    requires k < |processed| && Counted(copies, processed[..k], processed[k], f)
    ensures Counted(copies, processed[..k + 1], [], f)
  {
    assert processed[..k + 1][..k] == processed[..k];
  }

  lemma QuorumByCounter(copies: map<Text, nat>, processed: seq<seq<Envelope>>, required: nat, f: Fingerprint)
    requires Counted(copies, processed, [], f) && Grounded(copies, f)
    ensures (exists key :: key in copies && copies[key] < required) <==> !Quorate(processed, required)
  {
    hide Copies;
    if key :| key in copies && copies[key] < required {
      var e :| f(e) == key;
      assert Copies(processed, e) < required;
    }
    if !Quorate(processed, required) {
      var e :| Copies(processed, e) > 0 && Copies(processed, e) < required;
      assert f(e) in copies && copies[f(e)] < required;
    }
  }

  method Retrieve(c: Config, net: Network, f: Fingerprint) returns (r: Result<Retrieved, Error>)
    requires Injective(f)
    ensures r == Retrieval(c, net, f)
  {
    var valid := ValidateConfig(c);
    if !valid || !c.keysLoad {
      return Err(InvalidRegistry);
    }
    var bundles, failures := ReadStores(c, net);
    var processed, provenance, unopened := OpenBundles(bundles, f);
    if |processed| < c.requiredStores {
      return Err(InsufficientEvidence);
    }
    TablesApart(bundles, f);
    var copies, unique := CountCopies(processed, f);
    hide Counted, Grounded, Quorate, Admission, ValidConfig, Injective;
    QuorumByCounter(copies, processed, c.requiredCopies, f);
    if exists key :: key in copies && copies[key] < c.requiredCopies {
      return Err(InsufficientEvidence);
    }
    var collected := CollectAt(unique, c.Aim());
    if collected.Err? {
      return Err(collected.error);
    }
    return Ok(Retrieved(collected.value.envelopes, collected.value.domains, provenance, failures + unopened));
  }

  // ----- Tables hold each envelope once -----

  lemma EnterFacts(table: seq<Envelope>, e: Envelope, f: Fingerprint)
    requires Injective(f) && NoDuplicates(table)
    ensures NoDuplicates(Enter(table, e, f))
    ensures forall x :: x in Enter(table, e, f) <==> x == e || x in table
  {
    if exists k :: 0 <= k < |table| && f(table[k]) == f(e) {
      var k :| 0 <= k < |table| && f(table[k]) == f(e);
      assert table[k] == e;
    } else {
      var entered := Insert(e, table, By(f));
      InsertPermutes(e, table, By(f));
      assert e !in table;
      forall x
        ensures x in entered <==> x == e || x in table
      {
        assert x in entered <==> x in multiset(entered);
        assert x in table <==> x in multiset(table);
      }
      DistinctByMultiset(e, table, entered);
    }
  }

  lemma DistinctByMultiset(e: Envelope, table: seq<Envelope>, entered: seq<Envelope>)
    requires NoDuplicates(table) && e !in table && multiset(entered) == multiset{e} + multiset(table)
    ensures NoDuplicates(entered)
  {
    DistinctCount(table);
    DistinctCount(entered);
    assert |multiset(entered)| == |entered| && |multiset(table)| == |table|;
    forall x
      ensures x in entered <==> x == e || x in table
    {
      assert x in entered <==> x in multiset(entered);
      assert x in table <==> x in multiset(table);
    }
    assert Elements(entered) == Elements(table) + {e};
  }

  ghost predicate Holds(evidence: seq<Sealed>, e: Envelope) {
    exists k :: 0 <= k < |evidence| && evidence[k].plain == Some(e)
  }

  ghost predicate AllOpen(evidence: seq<Sealed>) {
    forall k :: 0 <= k < |evidence| ==> evidence[k].plain.Some?
  }

  /** A bundle's table lists each envelope it holds once, if all of its items open. */
  lemma {:induction false} OpenedFacts(evidence: seq<Sealed>, f: Fingerprint)
    requires Injective(f)
    ensures Opened(evidence, f).Some? <==> AllOpen(evidence)
    ensures Opened(evidence, f).Some? ==>
              && NoDuplicates(Opened(evidence, f).value)
              && forall e :: e in Opened(evidence, f).value <==> Holds(evidence, e)
  {
    hide Enter, Injective;
    if evidence != [] {
      var init, last := evidence[..|evidence| - 1], evidence[|evidence| - 1];
      OpenedFacts(init, f);
      assert evidence == init + [last];
      assert AllOpen(evidence) <==> AllOpen(init) && last.plain.Some?;
      if AllOpen(evidence) {
        EnterFacts(Opened(init, f).value, last.plain.value, f);
        forall e
          ensures Holds(evidence, e) <==> Holds(init, e) || last.plain == Some(e)
        {
          HoldsStep(init, last, e);
        }
      }
    }
  }

  lemma HoldsStep(init: seq<Sealed>, last: Sealed, e: Envelope)
    ensures Holds(init + [last], e) <==> Holds(init, e) || last.plain == Some(e)
  {
    var evidence := init + [last];
    if Holds(init, e) {
      var k :| 0 <= k < |init| && init[k].plain == Some(e);
      assert evidence[k].plain == Some(e);
    }
    if last.plain == Some(e) {
      assert evidence[|init|].plain == Some(e);
    }
    if Holds(evidence, e) {
      var k :| 0 <= k < |evidence| && evidence[k].plain == Some(e);
      assert k < |init| ==> init[k].plain == Some(e);
    }
  }

  lemma {:induction false} TablesApart(bundles: seq<Bundle>, f: Fingerprint)
    requires Injective(f)
    ensures forall k :: 0 <= k < |Tables(bundles, f)| ==> NoDuplicates(Tables(bundles, f)[k])
  {
    hide Opened, Injective;
    if bundles != [] {
      TablesApart(bundles[..|bundles| - 1], f);
      OpenedFacts(bundles[|bundles| - 1].evidence, f);
    }
  }
}
