/** The verification ledger and the file it may be kept in. */
module Ledger {
  import opened Prelude
  import opened LedgerModel
  import opened LedgerFile
  import opened CappedLog

  datatype Status = Starting | CurrentVerified | CurrentRejected

  datatype Snapshot = Snapshot(
    status: Status,
    generatedAt: int,
    verifiedTotal: nat,
    rejectedTotal: nat,
    encryptedTotal: nat,
    failedTotal: nat,
    persistent: bool,
    current: Option<Attestation>,
    attestations: seq<Attestation>,
    requests: seq<Request>)

  function Strip(a: Attestation): (r: Attestation)
    ensures r.document == [] && r.manifest == [] && a == r.(document := a.document, manifest := a.manifest)
  {
    a.(document := [], manifest := [])
  }

  function StripAll(s: seq<Attestation>): (r: seq<Attestation>)
    ensures |r| == |s| && forall k :: 0 <= k < |s| ==> r[k] == s[k].(document := [], manifest := [])
  {
    seq(|s|, k requires 0 <= k < |s| => Strip(s[k]))
  }

  /** Drops the evidence from a list of records, in place. */
  method WithoutEvidence(items: array<Attestation>)
    modifies items
    ensures items[..] == StripAll(old(items[..]))
  {
    for index := 0 to items.Length
      invariant forall k :: 0 <= k < index ==> items[k] == Strip(old(items[k]))
      invariant forall k :: index <= k < items.Length ==> items[k] == old(items[k])
    {
      items[index] := items[index].(document := []);
      items[index] := items[index].(manifest := []);
    }
  }

  /** The position of the newest record with this identifier that carries a document. */
  ghost predicate Serves(s: seq<Attestation>, id: AttestationId, k: nat) {
    && k < |s| && s[k].id == id && s[k].document != []
    && forall j :: k < j < |s| ==> s[j].id != id || s[j].document == []
  }

  class Store {
    var dirty: bool
    var file: File

    constructor (file: File)
      ensures !dirty && this.file == file
    {
      dirty, this.file := false, file;
    }
  }

  class Ledger {
    const attestations: CappedLog<Attestation>
    const requests: CappedLog<Request>
    var verifiedTotal: nat
    var rejectedTotal: nat
    var encryptedTotal: nat
    var failedTotal: nat
    const store: Store?

    ghost const Repr: set<object>

    ghost predicate Valid()
      reads this, attestations, requests
    {
      && attestations.Valid() && requests.Valid()
      && attestations.items.Length == MAX_ATTESTATIONS && requests.items.Length == MAX_REQUESTS
      && Repr == {attestations, attestations.items, requests, requests.items}
      && attestations as object != requests && attestations.items as object != requests.items
    }

    /** A ledger as Open makes one: empty, or restored from the store's file. */
    constructor (store: Store?)
      ensures Valid() && fresh(Repr) && this.store == store
      ensures State() == if store == null then EMPTY else Load(store.file)
    {
      var a := new CappedLog<Attestation>(MAX_ATTESTATIONS);
      var r := new CappedLog<Request>(MAX_REQUESTS);
      attestations, requests := a, r;
      verifiedTotal, rejectedTotal, encryptedTotal, failedTotal := 0, 0, 0, 0;
      this.store := store;
      Repr := {a, a.items, r, r.items};
      new;
      if store != null {
        LoadFrom(store.file);
      }
    }

    function State(): LedgerState
      requires Valid()
      reads this, Repr
    {
      LedgerState(attestations.Contents(), requests.Contents(), verifiedTotal, rejectedTotal, encryptedTotal,
                  failedTotal)
    }

    /** Restores an empty ledger. A file that is missing, empty, too long or of another version is ignored. */
    method LoadFrom(file: File)
      requires Valid() && State() == EMPTY
      modifies this, Repr
      ensures Valid() && State() == Load(file)
    {
      if file == Absent || file.size == 0 || file.size > MAX_STATE {
        return;
      }
      var state := file.state;
      if state.schemaVersion != SCHEMA_VERSION {
        return;
      }
      verifiedTotal := state.verifiedTotal;
      rejectedTotal := state.rejectedTotal;
      encryptedTotal := state.encryptedTotal;
      failedTotal := state.failedTotal;
      attestations.Restore(RecordsOf(state.attestations));
      requests.Restore(state.requests);
    }

    method MarkDirty()
      modifies store
      ensures store != null ==> store.dirty && store.file == old(store.file)
    {
      if store != null {
        store.dirty := true;
      }
    }

    method RecordVerified(id: AttestationId, verifiedAt: int, claims: Claims, document: Bytes, manifest: Bytes,
                          now: int)
      requires Valid()
      modifies this, Repr, store
      ensures Valid()
      ensures State() == Apply(old(State()), Event.RecordVerified(id, verifiedAt, claims, document, manifest, now))
      ensures store != null ==> store.dirty && store.file == old(store.file)
    {
      var record := Attestation(id, Verified, verifiedAt, "", claims, |document|, document, manifest);
      if record.verifiedAt == ZERO_TIME {
        record := record.(verifiedAt := now);
      }
      verifiedTotal := (verifiedTotal + 1) % U64;
      attestations.Append(record);
      MarkDirty();
    }

    method RecordRejected(failure: string, now: int)
      requires Valid()
      modifies this, Repr, store
      ensures Valid()
      ensures State() == Apply(old(State()), Event.RecordRejected(failure, now))
      ensures store != null ==> store.dirty && store.file == old(store.file)
    {
      rejectedTotal := (rejectedTotal + 1) % U64;
      attestations.Append(Attestation(RejectedId(rejectedTotal / 0x100 % 0x100, rejectedTotal % 0x100),
                                      Rejected, now, failure, NoClaims, 0, [], []));
      MarkDirty();
    }

    method RecordRequest(record: Request)
      requires Valid()
      modifies this, Repr, store
      ensures Valid()
      ensures State() == Apply(old(State()), Event.RecordRequest(record))
      ensures store != null ==> store.dirty && store.file == old(store.file)
    {
      if record.outcome == Encrypted {
        encryptedTotal := (encryptedTotal + 1) % U64;
      } else {
        failedTotal := (failedTotal + 1) % U64;
      }
      requests.Append(record);
      MarkDirty();
    }

    /** The view shown to a user: newest first and without evidence. The ledger's own records keep
        their evidence, so Document answers as before. */
    method TakeSnapshot(now: int) returns (snapshot: Snapshot)
      requires Valid()
      ensures Valid() && State() == old(State())
      ensures snapshot.attestations == StripAll(Reverse(State().attestations))
      ensures snapshot.requests == Reverse(State().requests)
      ensures (snapshot.verifiedTotal, snapshot.rejectedTotal, snapshot.encryptedTotal, snapshot.failedTotal)
           == (State().verifiedTotal, State().rejectedTotal, State().encryptedTotal, State().failedTotal)
      ensures snapshot.status == Starting <==> State().attestations == []
      ensures snapshot.status == CurrentVerified <==> snapshot.current.Some?
      ensures var held := State().attestations;
              && (snapshot.current.Some? <==> held != [] && held[|held| - 1].outcome == Verified)
              && (snapshot.current.Some? ==> snapshot.current.value == Strip(held[|held| - 1]))
      ensures snapshot.generatedAt == now && (snapshot.persistent <==> store != null)
    {
      var shown := Reversed(attestations);
      WithoutEvidence(shown);
      var recent := Reversed(requests);
      var status, current := Starting, None;
      if shown.Length > 0 {
        if shown[0].outcome == Verified {
          status, current := CurrentVerified, Some(shown[0]);
        } else {
          status := CurrentRejected;
        }
      }
      snapshot := Snapshot(status, now, verifiedTotal, rejectedTotal, encryptedTotal, failedTotal,
                           store != null, current, shown[..], recent[..]);
    }

    /** The evidence of the newest record with this identifier that has any. */
    method Document(id: AttestationId) returns (document: Bytes, manifest: Bytes, ok: bool)
      requires Valid()
      ensures ok <==> exists k: nat :: Serves(State().attestations, id, k)
      ensures forall k: nat :: Serves(State().attestations, id, k) ==>
                document == State().attestations[k].document && manifest == State().attestations[k].manifest
    {
      var index := attestations.len;
      while index > 0
        invariant 0 <= index <= attestations.len
        invariant forall j :: index <= j < attestations.len ==>
                    attestations.items[j].id != id || attestations.items[j].document == []
      {
        index := index - 1;
        var record := attestations.items[index];
        if record.id == id && |record.document| > 0 {
          assert Serves(State().attestations, id, index);
          return record.document, record.manifest, true;
        }
      }
      return [], [], false;
    }

    method SnapshotForDisk() returns (state: Persisted)
      requires Valid()
      ensures state == PersistedOf(State())
    {
      var entries := [];
      for i := 0 to attestations.len
        invariant entries == PersistAll(attestations.items[..i])
      {
        var record := attestations.items[i];
        entries := entries + [PersistedAttestation(Strip(record), record.document, record.manifest)];
        assert attestations.items[..i + 1] == attestations.items[..i] + [record];
      }
      state := Persisted(SCHEMA_VERSION, verifiedTotal, rejectedTotal, encryptedTotal, failedTotal,
                         entries, requests.Contents());
    }

    /** One Flush with nothing landing in between: the file is replaced by an encoding of the ledger
        and the ledger is clean, or something failed, the file is as it was and the ledger stays dirty. */
    method Flush(codec: Codec, writable: bool) returns (ok: bool)
      requires Valid()
      modifies store
      ensures Valid() && State() == old(State())
      ensures store == null || old(!store.dirty) ==>
                ok && (store == null || (!store.dirty && store.file == old(store.file)))
      ensures store != null && old(store.dirty) ==>
                && (ok <==> writable && Encode(codec, State()).Some?)
                && store.dirty == !ok
                && store.file == if ok then Encode(codec, State()).value else old(store.file)
    {
      if store == null {
        return true;
      }
      if !store.dirty {
        return true;
      }
      store.dirty := false;
      var state := SnapshotForDisk();
      var data := Marshal(codec, state);
      if data.None? {
        MarkDirty();
        return false;
      }
      if !writable {
        MarkDirty();
        return false;
      }
      store.file := data.value;
      return true;
    }
  }
}
