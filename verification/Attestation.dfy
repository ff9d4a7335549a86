/** Deciding whether fetched evidence shows a Gateway build that the trust policy pins. */
module Attestation {
  import opened Prelude
  import opened TrustPolicy
  import Hex

  const NONCE_BYTES: nat := 32
  const KEY_BYTES: nat := 32
  const DIGEST_BYTES: nat := 48
  const MAX_INT64: int := 0x7fff_ffff_ffff_ffff
  const MILLISECOND: int := 1_000_000

  /** Times and durations are in nanoseconds. */
  const MAX_AGE: int := 120_000_000_000
  const MAX_SKEW: int := 30_000_000_000

  const ROOT: string := "641a0321a3e244efe456463195d606317ed7cdcc3c1756e09893f3c68f79bb5b"

  /** The claims a manifest makes; `e2ee` is absent, present but not decodable, or a contract. */
  datatype E2EEClaim = Missing | Undecodable | Claimed(e2ee: E2EE)

  datatype ManifestClaims = ManifestClaims(schemaVersion: int, profile: string, workload: string,
                                           sourceRevision: string, e2ee: E2EEClaim)

  datatype Document = Document(timestamp: nat, pcrs: map<nat, Bytes>, moduleID: string)

  /** The answer of the foreign verifier of signed documents. */
  datatype NitroAnswer =
    | ParseError
    | NoAnswer
    | Answer(valid: bool, chainTrusted: bool, root: string, nonce: Bytes, userData: Bytes, publicKey: Bytes,
             document: Option<Document>)

  /** The code this model does not see: the digest, the JSON decoder and the document verifier. */
  datatype Foreign = Foreign(sha384: Bytes -> Bytes, claims: Bytes -> Option<ManifestClaims>,
                             nitro: Bytes -> NitroAnswer)

  datatype Fetched = Fetched(document: Bytes, manifest: Bytes, userData: Bytes, publicKey: Bytes)

  datatype Evidence = Evidence(
    publicKey: Bytes,
    attestedAt: int,
    expiresAt: int,
    document: Bytes,
    manifest: Bytes,
    nonce: Bytes,
    moduleID: string,
    pcrs: map<nat, Bytes>,
    sourceRevision: string)

  datatype VerifyError =
    | NoResponse
    | BadState
    | DigestMismatch
    | ManifestRejected
    | UnpinnedRelease
    | DocumentRejected
    | NonceMismatch
    | SignedDataMismatch
    | KeyRejected
    | TimestampRejected
    | MeasurementRejected
    | NotFetched

  /** Which policy clauses the manifest must meet before its release is looked up. */
  predicate SharedClaimsOk(policy: Policy, claims: ManifestClaims) {
    && claims.schemaVersion == policy.manifestSchemaVersion
    && claims.workload == policy.workload
    && claims.profile == policy.profile
    && claims.e2ee == Claimed(policy.e2ee)
  }

  /** The first release that names the revision. */
  function ReleaseFor(releases: seq<Release>, revision: string): Option<Release> {
    if releases == [] then None
    else if releases[0].sourceRevision == revision then Some(releases[0])
    else ReleaseFor(releases[1..], revision)
  }

  method FindRelease(cells: seq<ReleaseCell>, revision: string) returns (found: Option<ReleaseCell>)
    ensures found.None? <==> ReleaseFor(ReleasesOf(cells), revision).None?
    ensures found.Some? ==> found.value in cells && ReleaseFor(ReleasesOf(cells), revision) == Some(found.value.release)
  {
    ghost var releases := ReleasesOf(cells);
    for index := 0 to |cells|
      invariant ReleaseFor(releases, revision) == ReleaseFor(releases[index..], revision)
    {
      if cells[index].release.sourceRevision == revision {
        return Some(cells[index]);
      }
    }
    return None;
  }

  function ValidateManifest(f: Foreign, policy: Policy, manifest: Bytes): Result<Release, VerifyError> {
    match f.claims(manifest)
    case None => Err(ManifestRejected)
    case Some(claims) =>
      if !SharedClaimsOk(policy, claims) then Err(ManifestRejected)
      else
        match ReleaseFor(policy.releases, claims.sourceRevision)
        case None => Err(UnpinnedRelease)
        case Some(release) => Ok(release)
  }

  /** The document shows measurement `i`, and it is the expected one. */
  predicate Measures(document: Document, expected: map<nat, Bytes>, i: nat) {
    && i in document.pcrs && |document.pcrs[i]| == PCR_BYTES && !Hex.ZeroBytes(document.pcrs[i])
    && i in expected && document.pcrs[i] == expected[i]
  }

  predicate MeasuresAll(document: Document, expected: map<nat, Bytes>) {
    Measures(document, expected, 0) && Measures(document, expected, 1) && Measures(document, expected, 2)
  }

  function AttestedAt(document: Document): int {
    document.timestamp * MILLISECOND
  }

  /** Everything about the signed document, given the release that the manifest names and the
      measurements that are expected of it. */
  function CheckAgainst(f: Foreign, release: Release, expected: map<nat, Bytes>, fetched: Fetched, nonce: Bytes,
                        now: int, maxAge: int, maxSkew: int): Result<Evidence, VerifyError>
  {
    match f.nitro(fetched.document)
    case ParseError => Err(DocumentRejected)
    case NoAnswer => Err(DocumentRejected)
    case Answer(valid, chainTrusted, root, signedNonce, userData, publicKey, document) =>
      if !valid then Err(DocumentRejected)
      else if !chainTrusted || root != ROOT then Err(DocumentRejected)
      else if document.None? then Err(DocumentRejected)
      else if signedNonce != nonce || |signedNonce| != NONCE_BYTES then Err(NonceMismatch)
      else if userData != f.sha384(fetched.manifest) || |userData| != DIGEST_BYTES then Err(SignedDataMismatch)
      else if |publicKey| != KEY_BYTES || Hex.ZeroBytes(publicKey) then Err(KeyRejected)
      else if publicKey != fetched.publicKey then Err(KeyRejected)
      else
        var doc := document.value;
        if doc.timestamp > MAX_INT64 then Err(TimestampRejected)
        else if AttestedAt(doc) > now + maxSkew then Err(TimestampRejected)
        else if AttestedAt(doc) < now - maxAge then Err(TimestampRejected)
        else
          if !MeasuresAll(doc, expected) then Err(MeasurementRejected)
          else Ok(Evidence(publicKey, AttestedAt(doc), AttestedAt(doc) + maxAge, fetched.document, fetched.manifest,
                           signedNonce, doc.moduleID, map[0 := doc.pcrs[0], 1 := doc.pcrs[1], 2 := doc.pcrs[2]],
                           release.sourceRevision))
  }

  function CheckDocument(f: Foreign, release: Release, fetched: Fetched, nonce: Bytes, now: int, maxAge: int,
                         maxSkew: int):
    Result<Evidence, VerifyError>
  {
    CheckAgainst(f, release, Decoded(release), fetched, nonce, now, maxAge, maxSkew)
  }

  /** The verification of one response, against one snapshot of the policy. */
  function Validate(f: Foreign, policy: Policy, fetched: Option<Fetched>, nonce: Bytes, now: int, maxAge: int,
                    maxSkew: int):
    Result<Evidence, VerifyError>
  {
    if fetched.None? then Err(NoResponse)
    else if |nonce| != NONCE_BYTES || now == ZERO_TIME || maxAge <= 0 || maxSkew < 0 then Err(BadState)
    else if fetched.value.userData != f.sha384(fetched.value.manifest) then Err(DigestMismatch)
    else
      match ValidateManifest(f, policy, fetched.value.manifest)
      case Err(e) => Err(e)
      case Ok(release) => CheckDocument(f, release, fetched.value, nonce, now, maxAge, maxSkew)
  }

  /** The verification as the code runs it, on the release cells in force: the measurements it compares
      are the ones that were decoded when the policy was set. */
  method ValidateInForce(f: Foreign, policy: PolicyRef, fetched: Option<Fetched>, nonce: Bytes, now: int,
                         maxAge: int, maxSkew: int)
    returns (result: Result<Evidence, VerifyError>)
    requires forall c :: c in policy.cells ==> c.pcrs == Decoded(c.release)
    ensures result == Validate(f, ValueOf(policy), fetched, nonce, now, maxAge, maxSkew)
  {
    if fetched.None? {
      return Err(NoResponse);
    }
    if |nonce| != NONCE_BYTES || now == ZERO_TIME || maxAge <= 0 || maxSkew < 0 {
      return Err(BadState);
    }
    if fetched.value.userData != f.sha384(fetched.value.manifest) {
      return Err(DigestMismatch);
    }
    var claims := f.claims(fetched.value.manifest);
    if claims.None? || !SharedClaimsOk(policy.header, claims.value) {
      return Err(ManifestRejected);
    }
    var found := FindRelease(policy.cells, claims.value.sourceRevision);
    if found.None? {
      return Err(UnpinnedRelease);
    }
    result := CheckAgainst(f, found.value.release, found.value.pcrs, fetched.value, nonce, now, maxAge, maxSkew);
  }

  /** A policy that pins one of the releases alone. */
  function Only(policy: Policy, release: Release): Policy {
    policy.(releases := [release])
  }

  lemma {:induction false} LookupIsCanonical(releases: seq<Release>, revision: string, i: nat)
    requires DistinctRevisions(releases) && i < |releases|
    ensures ReleaseFor(releases, revision) == Some(releases[i]) <==> releases[i].sourceRevision == revision
  {
    if i == 0 {
      LookupFinds(releases, revision);
    } else {
      var rest := releases[1..];
      assert rest[i - 1] == releases[i];
      assert forall k :: 0 <= k < |rest| ==> rest[k] == releases[k + 1];
      LookupIsCanonical(rest, revision, i - 1);
      LookupFinds(rest, revision);
    }
  }

  lemma {:induction false} LookupFinds(releases: seq<Release>, revision: string)
    ensures ReleaseFor(releases, revision).Some? <==>
              exists i :: 0 <= i < |releases| && releases[i].sourceRevision == revision
    ensures ReleaseFor(releases, revision).Some? ==>
              ReleaseFor(releases, revision).value in releases
              && ReleaseFor(releases, revision).value.sourceRevision == revision
  {
    if releases != [] {
      var rest := releases[1..];
      LookupFinds(rest, revision);
      assert forall k :: 0 <= k < |rest| ==> rest[k] == releases[k + 1];
    }
  }

  /** A policy with one of the releases accepts exactly what names that release. */
  lemma OnlyAccepts(f: Foreign, policy: Policy, i: nat, fetched: Option<Fetched>, nonce: Bytes, now: int,
                    maxAge: int, maxSkew: int)
    requires DistinctRevisions(policy.releases) && i < |policy.releases|
    ensures var one, all := Validate(f, Only(policy, policy.releases[i]), fetched, nonce, now, maxAge, maxSkew),
                            Validate(f, policy, fetched, nonce, now, maxAge, maxSkew);
            && (one.Ok? ==> one == all)
            && (one.Ok? <==> all.Ok? && all.value.sourceRevision == policy.releases[i].sourceRevision)
  {
    if fetched.Some? && f.claims(fetched.value.manifest).Some? {
      var revision := f.claims(fetched.value.manifest).value.sourceRevision;
      LookupFinds(policy.releases, revision);
      LookupIsCanonical(policy.releases, revision, i);
      assert ReleaseFor([policy.releases[i]], revision)
          == if policy.releases[i].sourceRevision == revision then Some(policy.releases[i]) else None;
    }
  }

  lemma AcceptedIsPinned(f: Foreign, policy: Policy, fetched: Option<Fetched>, nonce: Bytes, now: int,
                         maxAge: int, maxSkew: int)
    requires Validate(f, policy, fetched, nonce, now, maxAge, maxSkew).Ok?
    ensures exists i :: 0 <= i < |policy.releases|
              && policy.releases[i].sourceRevision
                 == Validate(f, policy, fetched, nonce, now, maxAge, maxSkew).value.sourceRevision
  {
    LookupFinds(policy.releases, f.claims(fetched.value.manifest).value.sourceRevision);
  }

  /** No mixing of measurements: evidence is accepted by an acceptable policy if and only if the policy
      that pins one of its releases alone accepts it; there is only one such release, and the evidence
      is the same. */
  lemma UnionLaw(f: Foreign, policy: Policy, fetched: Option<Fetched>, nonce: Bytes, now: int, maxAge: int,
                 maxSkew: int)
    requires Acceptable(policy)
    ensures Validate(f, policy, fetched, nonce, now, maxAge, maxSkew).Ok? <==>
              exists i :: 0 <= i < |policy.releases|
                && Validate(f, Only(policy, policy.releases[i]), fetched, nonce, now, maxAge, maxSkew).Ok?
    ensures forall i :: 0 <= i < |policy.releases| ==>
              var one := Validate(f, Only(policy, policy.releases[i]), fetched, nonce, now, maxAge, maxSkew);
              one.Ok? ==> one == Validate(f, policy, fetched, nonce, now, maxAge, maxSkew)
    ensures forall i, j :: 0 <= i < j < |policy.releases| ==>
              !(Validate(f, Only(policy, policy.releases[i]), fetched, nonce, now, maxAge, maxSkew).Ok?
                && Validate(f, Only(policy, policy.releases[j]), fetched, nonce, now, maxAge, maxSkew).Ok?)
  {
    forall i | 0 <= i < |policy.releases|
      ensures var one, all := Validate(f, Only(policy, policy.releases[i]), fetched, nonce, now, maxAge, maxSkew),
                              Validate(f, policy, fetched, nonce, now, maxAge, maxSkew);
              && (one.Ok? ==> one == all)
              && (one.Ok? <==> all.Ok? && all.value.sourceRevision == policy.releases[i].sourceRevision)
    {
      OnlyAccepts(f, policy, i, fetched, nonce, now, maxAge, maxSkew);
    }
    if Validate(f, policy, fetched, nonce, now, maxAge, maxSkew).Ok? {
      AcceptedIsPinned(f, policy, fetched, nonce, now, maxAge, maxSkew);
    }
  }

  /** The order of the releases does not matter, and adding a release with a new revision takes
      nothing away. */
  lemma LargerPolicyAcceptsMore(f: Foreign, small: Policy, large: Policy, fetched: Option<Fetched>, nonce: Bytes,
                                now: int, maxAge: int, maxSkew: int)
    requires DistinctRevisions(small.releases) && DistinctRevisions(large.releases)
    requires large == small.(releases := large.releases)
    requires forall r :: r in small.releases ==> r in large.releases
    ensures Validate(f, small, fetched, nonce, now, maxAge, maxSkew).Ok? ==>
              Validate(f, large, fetched, nonce, now, maxAge, maxSkew)
              == Validate(f, small, fetched, nonce, now, maxAge, maxSkew)
    ensures (forall r :: r in large.releases ==> r in small.releases) ==>
              Validate(f, large, fetched, nonce, now, maxAge, maxSkew)
              == Validate(f, small, fetched, nonce, now, maxAge, maxSkew)
  {
    if fetched.Some? && f.claims(fetched.value.manifest).Some? {
      var revision := f.claims(fetched.value.manifest).value.sourceRevision;
      LookupTransfers(small.releases, large.releases, revision);
      if forall r :: r in large.releases ==> r in small.releases {
        LookupTransfers(large.releases, small.releases, revision);
      }
    }
  }

  lemma LookupTransfers(small: seq<Release>, large: seq<Release>, revision: string)
    requires DistinctRevisions(large) && forall r :: r in small ==> r in large
    ensures ReleaseFor(small, revision).Some? ==> ReleaseFor(large, revision) == ReleaseFor(small, revision)
  {
    LookupFinds(small, revision);
    if ReleaseFor(small, revision).Some? {
      var r := ReleaseFor(small, revision).value;
      var i :| 0 <= i < |large| && large[i] == r;
      LookupIsCanonical(large, revision, i);
    }
  }

  lemma MeasuredAll(release: Release, document: Document, pcrs: map<nat, Bytes>)
    requires ReleaseOk(release) && pcrs.Keys == {0, 1, 2}
    requires forall i :: i in pcrs ==> Measures(document, Decoded(release), i) && pcrs[i] == document.pcrs[i]
    ensures pcrs == Measurements(release)
  {
  }

  /** What the check of the signed document establishes. */
  lemma AcceptedDocument(f: Foreign, release: Release, fetched: Fetched, nonce: Bytes, now: int, maxAge: int,
                         maxSkew: int)
    requires ReleaseOk(release)
    requires CheckDocument(f, release, fetched, nonce, now, maxAge, maxSkew).Ok?
    ensures var e := CheckDocument(f, release, fetched, nonce, now, maxAge, maxSkew).value;
            var a := f.nitro(fetched.document);
            && e.sourceRevision == release.sourceRevision && e.pcrs == Measurements(release)
            && e.expiresAt == e.attestedAt + maxAge && now <= e.expiresAt <= now + maxSkew + maxAge
            && a.Answer? && a.document.Some? && e.attestedAt == AttestedAt(a.document.value)
            && a.valid && a.chainTrusted && a.root == ROOT
            && a.nonce == nonce && a.userData == f.sha384(fetched.manifest) && a.publicKey == e.publicKey
            && e.document == fetched.document && e.manifest == fetched.manifest && e.nonce == nonce
            && e.moduleID == a.document.value.moduleID && e.publicKey == fetched.publicKey
  {
    var e := CheckDocument(f, release, fetched, nonce, now, maxAge, maxSkew).value;
    MeasuredAll(release, f.nitro(fetched.document).document.value, e.pcrs);
  }

  /** What acceptance means: the signed document carries the nonce, the manifest's digest and the key,
      is fresh, and shows all three measurements of the one pinned release whose revision the
      manifest claims. */
  lemma AcceptedEvidence(f: Foreign, policy: Policy, fetched: Option<Fetched>, nonce: Bytes, now: int,
                         maxAge: int, maxSkew: int)
    returns (release: Release)
    requires AllReleasesOk(policy.releases)
    requires Validate(f, policy, fetched, nonce, now, maxAge, maxSkew).Ok?
    ensures var e := Validate(f, policy, fetched, nonce, now, maxAge, maxSkew).value;
            var a := f.nitro(fetched.value.document);
            && release in policy.releases
            && f.claims(fetched.value.manifest).value.sourceRevision == release.sourceRevision
            && e.sourceRevision == release.sourceRevision && e.pcrs == Measurements(release)
            && e.expiresAt == e.attestedAt + maxAge && now <= e.expiresAt <= now + maxSkew + maxAge
            && a.Answer? && a.document.Some? && e.attestedAt == AttestedAt(a.document.value)
            && a.valid && a.chainTrusted && a.root == ROOT
            && a.nonce == nonce && a.userData == f.sha384(fetched.value.manifest) && a.publicKey == e.publicKey
            && e.document == fetched.value.document && e.manifest == fetched.value.manifest && e.nonce == nonce
            && e.moduleID == a.document.value.moduleID && e.publicKey == fetched.value.publicKey
  {
    var revision := f.claims(fetched.value.manifest).value.sourceRevision;
    LookupFinds(policy.releases, revision);
    release := ReleaseFor(policy.releases, revision).value;
    AcceptedDocument(f, release, fetched.value, nonce, now, maxAge, maxSkew);
  }

  /** What the signed document has to show, its measurements aside. */
  ghost predicate Signs(f: Foreign, fetched: Fetched, nonce: Bytes, now: int, maxAge: int, maxSkew: int) {
    var answer := f.nitro(fetched.document);
    && answer.Answer? && answer.valid && answer.chainTrusted && answer.root == ROOT && answer.document.Some?
    && answer.nonce == nonce
    && answer.userData == fetched.userData == f.sha384(fetched.manifest) && |answer.userData| == 48
    && answer.publicKey == fetched.publicKey && |answer.publicKey| == 32
    && (exists i :: 0 <= i < 32 && answer.publicKey[i] != 0)
    && answer.document.value.timestamp <= 0x7fff_ffff_ffff_ffff
    && now - maxAge <= answer.document.value.timestamp * 1_000_000 <= now + maxSkew
  }

  /** What evidence has to show for one release of a policy, in full. */
  ghost predicate Proves(f: Foreign, policy: Policy, release: Release, fetched: Fetched, nonce: Bytes, now: int,
                         maxAge: int, maxSkew: int)
    requires ReleaseOk(release)
  {
    && f.claims(fetched.manifest) == Some(ManifestClaims(policy.manifestSchemaVersion, policy.profile, policy.workload,
                                                         release.sourceRevision, Claimed(policy.e2ee)))
    && Signs(f, fetched, nonce, now, maxAge, maxSkew)
    && Shows(f.nitro(fetched.document).document.value.pcrs, Measurements(release))
  }

  ghost predicate Shows(actual: map<nat, Bytes>, expected: map<nat, Bytes>) {
    forall i :: i in expected ==> i in actual && actual[i] == expected[i]
  }

  lemma MeasurementsAreProper(release: Release, i: nat)
    requires ReleaseOk(release) && i < 3
    ensures Decoded(release) == Measurements(release) && i in Measurements(release)
    ensures |Measurements(release)[i]| == PCR_BYTES && !Hex.ZeroBytes(Measurements(release)[i])
  {
    TableEntries(Texts(release), 3, i);
  }

  /** Of a document that shows what is expected, the code's tests of length and of zeros say nothing new. */
  lemma ShownIsMeasured(document: Document, expected: map<nat, Bytes>)
    requires expected.Keys == {0, 1, 2}
    requires forall i :: i in expected ==> |expected[i]| == PCR_BYTES && !Hex.ZeroBytes(expected[i])
    ensures Shows(document.pcrs, expected) <==> MeasuresAll(document, expected)
  {
  }

  lemma ReleaseIsMeasured(release: Release, document: Document)
    requires ReleaseOk(release)
    ensures Shows(document.pcrs, Measurements(release)) <==> MeasuresAll(document, Decoded(release))
  {
    MeasurementsAreProper(release, 0);
    MeasurementsAreProper(release, 1);
    MeasurementsAreProper(release, 2);
    ShownIsMeasured(document, Measurements(release));
  }

  lemma SignedExactly(f: Foreign, release: Release, expected: map<nat, Bytes>, fetched: Fetched, nonce: Bytes, now: int,
                      maxAge: int, maxSkew: int)
    requires |nonce| == NONCE_BYTES && fetched.userData == f.sha384(fetched.manifest)
    ensures CheckAgainst(f, release, expected, fetched, nonce, now, maxAge, maxSkew).Ok? <==>
              && Signs(f, fetched, nonce, now, maxAge, maxSkew)
              && MeasuresAll(f.nitro(fetched.document).document.value, expected)
  {
  }

  lemma CheckedExactly(f: Foreign, policy: Policy, release: Release, fetched: Fetched, nonce: Bytes, now: int,
                       maxAge: int, maxSkew: int)
    requires ReleaseOk(release) && |nonce| == NONCE_BYTES
    requires f.claims(fetched.manifest).Some? && SharedClaimsOk(policy, f.claims(fetched.manifest).value)
    requires f.claims(fetched.manifest).value.sourceRevision == release.sourceRevision
    requires fetched.userData == f.sha384(fetched.manifest)
    ensures CheckDocument(f, release, fetched, nonce, now, maxAge, maxSkew).Ok? <==>
              Proves(f, policy, release, fetched, nonce, now, maxAge, maxSkew)
  {
    SignedExactly(f, release, Decoded(release), fetched, nonce, now, maxAge, maxSkew);
    if Signs(f, fetched, nonce, now, maxAge, maxSkew) {
      ReleaseIsMeasured(release, f.nitro(fetched.document).document.value);
    }
  }

  /** Acceptance, exactly: an acceptable policy accepts the evidence that proves one of its releases,
      and no other. */
  lemma AcceptedExactly(f: Foreign, policy: Policy, fetched: Fetched, nonce: Bytes, now: int, maxAge: int, maxSkew: int)
    requires AllReleasesOk(policy.releases) && DistinctRevisions(policy.releases)
    requires |nonce| == NONCE_BYTES && now != ZERO_TIME && maxAge > 0 && maxSkew >= 0
    ensures Validate(f, policy, Some(fetched), nonce, now, maxAge, maxSkew).Ok? <==>
              exists i :: 0 <= i < |policy.releases|
                && Proves(f, policy, policy.releases[i], fetched, nonce, now, maxAge, maxSkew)
  {
    if f.claims(fetched.manifest).Some? && SharedClaimsOk(policy, f.claims(fetched.manifest).value)
       && fetched.userData == f.sha384(fetched.manifest) {
      var revision := f.claims(fetched.manifest).value.sourceRevision;
      LookupFinds(policy.releases, revision);
      forall i | 0 <= i < |policy.releases| && policy.releases[i].sourceRevision == revision
        ensures CheckDocument(f, policy.releases[i], fetched, nonce, now, maxAge, maxSkew).Ok? <==>
                  Proves(f, policy, policy.releases[i], fetched, nonce, now, maxAge, maxSkew)
        ensures ReleaseFor(policy.releases, revision) == Some(policy.releases[i])
      {
        CheckedExactly(f, policy, policy.releases[i], fetched, nonce, now, maxAge, maxSkew);
        LookupIsCanonical(policy.releases, revision, i);
      }
    }
  }

  /** A rejection names a fault that the evidence has. */
  lemma RejectionNamesAFault(f: Foreign, release: Release, expected: map<nat, Bytes>, fetched: Fetched, nonce: Bytes,
                             now: int, maxAge: int, maxSkew: int)
    ensures var result := CheckAgainst(f, release, expected, fetched, nonce, now, maxAge, maxSkew);
            var a := f.nitro(fetched.document);
            result.Err? ==>
              match result.error
              case DocumentRejected =>
                !(a.Answer? && a.valid && a.chainTrusted && a.root == ROOT && a.document.Some?)
              case NonceMismatch => a.Answer? && (a.nonce != nonce || |nonce| != 32)
              case SignedDataMismatch => a.Answer? && (a.userData != f.sha384(fetched.manifest) || |a.userData| != 48)
              case KeyRejected =>
                && a.Answer?
                && (a.publicKey != fetched.publicKey || |a.publicKey| != 32 || Hex.ZeroBytes(a.publicKey))
              case TimestampRejected =>
                && a.Answer? && a.document.Some?
                && var at := a.document.value.timestamp * 1_000_000;
                   a.document.value.timestamp > 0x7fff_ffff_ffff_ffff || at > now + maxSkew || at + maxAge < now
              case MeasurementRejected =>
                a.Answer? && a.document.Some? && exists i :: 0 <= i < 3 && !Measures(a.document.value, expected, i)
              case _ => false
  {
  }

  /** An unpinned release is reported exactly when the manifest matches its digest and every clause
      the releases share, and no release names its revision. The signed document plays no part. */
  lemma UnpinnedExactly(f: Foreign, policy: Policy, fetched: Fetched, nonce: Bytes, now: int, maxAge: int, maxSkew: int)
    requires |nonce| == NONCE_BYTES && now != ZERO_TIME && maxAge > 0 && maxSkew >= 0
    ensures Validate(f, policy, Some(fetched), nonce, now, maxAge, maxSkew) == Err(UnpinnedRelease) <==>
              && fetched.userData == f.sha384(fetched.manifest)
              && f.claims(fetched.manifest).Some?
              && var revision := f.claims(fetched.manifest).value.sourceRevision;
                 && f.claims(fetched.manifest) == Some(ManifestClaims(policy.manifestSchemaVersion, policy.profile,
                                                                      policy.workload, revision, Claimed(policy.e2ee)))
                 && forall r :: r in policy.releases ==> r.sourceRevision != revision
    ensures forall nitro :: Validate(f, policy, Some(fetched), nonce, now, maxAge, maxSkew) == Err(UnpinnedRelease) ==>
              Validate(f.(nitro := nitro), policy, Some(fetched), nonce, now, maxAge, maxSkew) == Err(UnpinnedRelease)
  {
    if f.claims(fetched.manifest).Some? {
      LookupFinds(policy.releases, f.claims(fetched.manifest).value.sourceRevision);
    }
  }
}
