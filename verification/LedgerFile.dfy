/** The ledger's state file at the level of decoded structures. The JSON text itself is represented
    by its size and by what encoding does to an embedded manifest. */
module LedgerFile {
  import opened Prelude
  import opened LedgerModel

  const SCHEMA_VERSION: int := 1
  const MAX_STATE: nat := 32 * 1024 * 1024

  datatype PersistedAttestation = PersistedAttestation(record: Attestation, document: Bytes, manifest: Bytes)

  datatype Persisted = Persisted(
    schemaVersion: int,
    verifiedTotal: nat,
    rejectedTotal: nat,
    encryptedTotal: nat,
    failedTotal: nat,
    attestations: seq<PersistedAttestation>,
    requests: seq<Request>)

  datatype File = Absent | File(size: nat, state: Persisted)

  /** What JSON encoding does beyond the structure: how long the text gets, and how an embedded
      manifest is rewritten (not at all encodable if it is no JSON). */
  datatype Codec = Codec(size: Persisted -> nat, compact: Bytes -> Option<Bytes>)

  function PersistAll(records: seq<Attestation>): seq<PersistedAttestation> {
    seq(|records|, k requires 0 <= k < |records| =>
      PersistedAttestation(records[k].(document := [], manifest := []), records[k].document, records[k].manifest))
  }

  function PersistedOf(l: LedgerState): Persisted {
    Persisted(SCHEMA_VERSION, l.verifiedTotal, l.rejectedTotal, l.encryptedTotal, l.failedTotal,
              PersistAll(l.attestations), l.requests)
  }

  function RecordOf(entry: PersistedAttestation): Attestation {
    entry.record.(document := entry.document, manifest := entry.manifest)
  }

  function RecordsOf(entries: seq<PersistedAttestation>): seq<Attestation> {
    seq(|entries|, k requires 0 <= k < |entries| => RecordOf(entries[k]))
  }

  /** An empty manifest is left out of the text, any other is rewritten. */
  function CompactManifest(codec: Codec, manifest: Bytes): Option<Bytes> {
    if manifest == [] then Some([]) else codec.compact(manifest)
  }

  function Marshal(codec: Codec, state: Persisted): Option<File> {
    if exists k :: 0 <= k < |state.attestations| && CompactManifest(codec, state.attestations[k].manifest).None?
    then None
    else
      var written := state.(attestations := seq(|state.attestations|, k requires 0 <= k < |state.attestations| =>
        state.attestations[k].(manifest := match CompactManifest(codec, state.attestations[k].manifest)
                                           case Some(m) => m
                                           case None => [])));
      Some(File(codec.size(written), written))
  }

  function Encode(codec: Codec, l: LedgerState): Option<File> {
    Marshal(codec, PersistedOf(l))
  }

  /** What opening a file yields. */
  function Load(file: File): LedgerState {
    if file == Absent || file.size == 0 || file.size > MAX_STATE then EMPTY
    else if file.state.schemaVersion != SCHEMA_VERSION then EMPTY
    else LedgerState(
      LastN(RecordsOf(file.state.attestations), MAX_ATTESTATIONS),
      LastN(file.state.requests, MAX_REQUESTS),
      file.state.verifiedTotal, file.state.rejectedTotal, file.state.encryptedTotal, file.state.failedTotal)
  }

  /** What is written of a ledger, field by field. */
  lemma PersistedFields(l: LedgerState)
    ensures var p := PersistedOf(l);
            && p.schemaVersion == 1 && p.requests == l.requests && |p.attestations| == |l.attestations|
            && p.verifiedTotal == l.verifiedTotal && p.rejectedTotal == l.rejectedTotal
            && p.encryptedTotal == l.encryptedTotal && p.failedTotal == l.failedTotal
            && forall k :: 0 <= k < |l.attestations| ==>
                 && p.attestations[k].document == l.attestations[k].document
                 && p.attestations[k].manifest == l.attestations[k].manifest
                 && p.attestations[k].record == l.attestations[k].(document := [], manifest := [])
  {
  }

  /** What is restored from a file, field by field: nothing unless the file is of this version and within
      the limit, and then the totals and the last entries of both lists. */
  lemma LoadFields(file: File)
    ensures var l := Load(file);
            if file.Absent? || file.size == 0 || file.size > 33_554_432 || file.state.schemaVersion != 1
            then l == LedgerState([], [], 0, 0, 0, 0)
            else
              var state := file.state;
              && l.verifiedTotal == state.verifiedTotal && l.rejectedTotal == state.rejectedTotal
              && l.encryptedTotal == state.encryptedTotal && l.failedTotal == state.failedTotal
              && |l.requests| == Min(|state.requests|, 256) && |l.attestations| == Min(|state.attestations|, 64)
              && (forall k :: 0 <= k < |l.requests| ==>
                    l.requests[k] == state.requests[|state.requests| - |l.requests| + k])
              && forall k :: 0 <= k < |l.attestations| ==>
                   var entry := state.attestations[|state.attestations| - |l.attestations| + k];
                   l.attestations[k] == entry.record.(document := entry.document, manifest := entry.manifest)
  {
  }

  /** A ledger cannot be written exactly if one of its manifests is there and is no JSON. */
  lemma EncodeFails(codec: Codec, l: LedgerState)
    ensures Encode(codec, l).None? <==>
              exists k :: 0 <= k < |l.attestations| && l.attestations[k].manifest != []
                && codec.compact(l.attestations[k].manifest).None?
  {
    var p := PersistedOf(l);
    assert forall k :: 0 <= k < |l.attestations| ==> p.attestations[k].manifest == l.attestations[k].manifest;
  }

  ghost predicate Capped(l: LedgerState) {
    |l.attestations| <= MAX_ATTESTATIONS && |l.requests| <= MAX_REQUESTS
  }

  /** Every manifest is already in the form that encoding gives it. */
  ghost predicate ManifestsCompact(codec: Codec, l: LedgerState) {
    forall k :: 0 <= k < |l.attestations| ==>
      CompactManifest(codec, l.attestations[k].manifest) == Some(l.attestations[k].manifest)
  }

  lemma ManifestOnFile(codec: Codec, l: LedgerState, k: nat)
    requires Encode(codec, l).Some? && k < |l.attestations|
    ensures CompactManifest(codec, l.attestations[k].manifest).Some?
    ensures RecordsOf(Encode(codec, l).value.state.attestations)[k]
         == l.attestations[k].(manifest := CompactManifest(codec, l.attestations[k].manifest).value)
  {
    assert PersistedOf(l).attestations[k].manifest == l.attestations[k].manifest;
  }

  /** A written ledger reads back as itself exactly when its text is within the limit that only
      reading applies, and encoding leaves its manifests as they are; an empty ledger reads back as
      itself in any case. */
  lemma RoundTrip(codec: Codec, l: LedgerState)
    requires Capped(l) && Encode(codec, l).Some?
    ensures var file := Encode(codec, l).value;
            Load(file) == l <==> l == EMPTY || (0 < file.size <= MAX_STATE && ManifestsCompact(codec, l))
  {
    var file := Encode(codec, l).value;
    if 0 < file.size <= MAX_STATE {
      var read := Load(file).attestations;
      forall k: nat | k < |read|
        ensures read[k] == l.attestations[k] <==>
                  CompactManifest(codec, l.attestations[k].manifest) == Some(l.attestations[k].manifest)
      {
        ManifestOnFile(codec, l, k);
      }
      assert read == l.attestations <==> forall k: nat :: k < |read| ==> read[k] == l.attestations[k];
    }
  }
}
