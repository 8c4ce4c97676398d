/** The content-addressed snapshot store (`snapshot` and the reading half of
    `restore_with_failure` in src/state_store.rs). */
module Snapshots {
  import opened Basics
  import opened StateStore

  /** SHA-256 of a payload, taken as injective. */
  datatype Digest = Digest(payload: Payload)

  datatype Manifest = Manifest(component: Text, schemaVersion: Text, revision: nat, digest: Digest, bytes: nat)

  datatype Store = Store(current: Option<Manifest>, objects: map<Digest, Payload>)

  predicate LabelByte(b: Byte) {
    || 0x30 <= b <= 0x39 || 0x41 <= b <= 0x5A || 0x61 <= b <= 0x7A
    || b in {0x2E, 0x5F, 0x3A, 0x2F, 0x2D}
  }

  predicate ValidLabel(s: Text) {
    1 <= |s| <= 128 && forall k :: 0 <= k < |s| ==> LabelByte(s[k])
  }

  predicate ValidManifest(m: Manifest) {
    m.bytes <= MAX_STATE_BYTES && ValidLabel(m.component) && ValidLabel(m.schemaVersion)
  }

  function Snapshot(s: Store, source: Payload, component: Text, schemaVersion: Text, revision: nat): (Store, bool) {
    if !ValidLabel(component) || !ValidLabel(schemaVersion) || |source| > MAX_STATE_BYTES then (s, false)
    else if s.current.Some? && !(ValidManifest(s.current.value) && s.current.value.component == component
                                 && revision > s.current.value.revision) then (s, false)
    else if Digest(source) in s.objects && s.objects[Digest(source)] != source then (s, false)
    else
      (Store(Some(Manifest(component, schemaVersion, revision, Digest(source), |source|)),
             s.objects[Digest(source) := source]), true)
  }

  /** The payload a restore would install; None when manifest or object fails its check. */
  function Restorable(s: Store): Option<Payload> {
    if s.current.None? || !ValidManifest(s.current.value) then None
    else
      var m := s.current.value;
      if m.digest !in s.objects then None
      else
        var payload := s.objects[m.digest];
        if |payload| > MAX_STATE_BYTES || |payload| != m.bytes || Digest(payload) != m.digest then None
        else Some(payload)
  }

  /** Every object sits under its own digest, and the current manifest is backed by one. */
  ghost predicate Intact(s: Store) {
    && (forall d :: d in s.objects ==> d == Digest(s.objects[d]))
    && (s.current.Some? ==> ValidManifest(s.current.value) && Restorable(s).Some?)
  }

  datatype Take = Take(source: Payload, component: Text, schemaVersion: Text, revision: nat)

  function TakeAll(s: Store, takes: seq<Take>): Store
    decreases |takes|
  {
    if takes == [] then s
    else
      var t := takes[0];
      TakeAll(Snapshot(s, t.source, t.component, t.schemaVersion, t.revision).0, takes[1..])
  }

  /** An accepted snapshot is what the next restore installs; a refused one changes nothing.
      On an intact store refusals have no other cause than labels, size, identity or revision. */
  lemma SnapshotRestores(s: Store, source: Payload, component: Text, schemaVersion: Text, revision: nat)
    requires Intact(s)
    ensures var (after, ok) := Snapshot(s, source, component, schemaVersion, revision);
            && Intact(after)
            && (ok <==> ValidLabel(component) && ValidLabel(schemaVersion) && |source| <= MAX_STATE_BYTES
                        && (s.current.Some? ==> s.current.value.component == component
                                                && revision > s.current.value.revision))
            && (if ok then Restorable(after) == Some(source) else after == s)
            && (forall d :: d in s.objects ==> d in after.objects && after.objects[d] == s.objects[d])
  {
  }

  /** Over any sequence of snapshots the store stays intact, keeps every object ever written,
      never changes its component and never lowers its revision. */
  lemma {:induction false} SnapshotHistory(s: Store, takes: seq<Take>)
    requires Intact(s)
    ensures var after := TakeAll(s, takes);
            && Intact(after)
            && (forall d :: d in s.objects ==> d in after.objects && after.objects[d] == s.objects[d])
            && (s.current.Some? ==>
                  && after.current.Some?
                  && after.current.value.component == s.current.value.component
                  && after.current.value.revision >= s.current.value.revision)
    decreases |takes|
  {
    if takes != [] {
      var t := takes[0];
      SnapshotRestores(s, t.source, t.component, t.schemaVersion, t.revision);
      SnapshotHistory(Snapshot(s, t.source, t.component, t.schemaVersion, t.revision).0, takes[1..]);
    }
  }

  /** Restoring an accepted snapshot installs its source, onto a file or where nothing was. */
  lemma SnapshotInstalls(s: Store, source: Payload, component: Text, schemaVersion: Text, revision: nat, f: Files)
    requires Intact(s) && Snapshot(s, source, component, schemaVersion, revision).1
    requires Clean(f) && (f.destination.None? || f.destination.value.File?)
    ensures var stored := Snapshot(s, source, component, schemaVersion, revision).0;
            && stored.current == Some(Manifest(component, schemaVersion, revision, Digest(source), |source|))
            && Restorable(stored).Some?
            && var after := Complete(f, DoRestore(Restorable(stored).value, NoFailure));
               after.destination == Some(File(source)) && after.rollback == f.destination && after.stage.None?
  {
    SnapshotRestores(s, source, component, schemaVersion, revision);
    RestoreInstalls(f, source);
  }

  /** Snapshot, restore, roll back: the destination is back where it was, with the snapshot
      installed in between. */
  lemma SnapshotRestoreRollback(s: Store, source: Payload, component: Text, schemaVersion: Text, revision: nat,
                                f: Files, previous: Payload)
    requires Intact(s) && Snapshot(s, source, component, schemaVersion, revision).1
    requires Clean(f) && f.destination == Some(File(previous)) && |previous| <= MAX_STATE_BYTES
    ensures var stored := Snapshot(s, source, component, schemaVersion, revision).0;
            && Restorable(stored).Some?
            && var restored := Complete(f, DoRestore(Restorable(stored).value, NoFailure));
               restored.destination == Some(File(source)) && Complete(restored, DoRollback) == f
  {
    SnapshotRestores(s, source, component, schemaVersion, revision);
    RestoreRollbackIdentity(f, source);
  }
}
