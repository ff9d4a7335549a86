/** Signed release manifests, and the trust policy derived from them. Two validators written apart
    from one another, one for manifests and one for policies, have to agree. */
module ReleaseManifest {
  import opened Prelude
  import opened TrustPolicy
  import opened Attestation
  import Hex

  const SCHEMA: int := 2
  const MEASUREMENTS_SCHEMA: int := 2
  const ENVIRONMENT: string := "prod"
  const MAX_MANIFEST: nat := 0x1_0000
  const PCR_HEX: nat := 96
  const REPOSITORY: string := "https://github.com/dappnode/dappnode-nexus-gateway"

  datatype Profile = Profile(protocol: string, suite: string, endpoint: string)

  datatype Manifest = Manifest(
    schemaVersion: int,
    version: string,
    environment: string,
    repository: string,
    revision: string,
    measurementsSchema: int,
    pcr0: string,
    pcr1: string,
    pcr2: string,
    bodyE2EE: Profile)

  datatype ManifestError =
    | WrongSchema
    | WrongMeasurementsSchema
    | WrongEnvironment
    | MalformedVersion
    | MalformedRevision
    | MalformedMeasurement(index: nat)
    | ZeroMeasurement(index: nat)

  predicate Digit(c: char) {
    '0' <= c <= '9'
  }

  predicate Digits(s: string) {
    s != [] && forall i :: 0 <= i < |s| ==> Digit(s[i])
  }

  lemma TenDigits(c: char)
    ensures Digit(c) <==> c in "0123456789"
  {
    assert forall i :: 0 <= i < 10 ==> Digit("0123456789"[i]);
    if Digit(c) {
      assert "0123456789"[(c - '0') as nat] == c;
    }
  }

  function DropDigits(s: string): string {
    if s != [] && Digit(s[0]) then DropDigits(s[1..]) else s
  }

  /** What is left after a number and the character `stop`, or nothing if the text does not begin so. */
  function AfterNumber(s: string, stop: char): Option<string> {
    var rest := DropDigits(s);
    if |rest| < |s| && rest != [] && rest[0] == stop then Some(rest[1..]) else None
  }

  predicate VersionOk(s: string) {
    && s != [] && s[0] == 'v'
    && AfterNumber(s[1..], '.').Some?
    && AfterNumber(AfterNumber(s[1..], '.').value, '.').Some?
    && Digits(AfterNumber(AfterNumber(s[1..], '.').value, '.').value)
  }

  lemma {:induction false} DropDigitsSplits(s: string)
    ensures var n := |s| - |DropDigits(s)|;
            && 0 <= n && s == s[..n] + DropDigits(s)
            && (forall i :: 0 <= i < n ==> Digit(s[i]))
            && (DropDigits(s) != [] ==> !Digit(DropDigits(s)[0]))
  {
    if s != [] && Digit(s[0]) {
      DropDigitsSplits(s[1..]);
      assert s == [s[0]] + s[1..];
    }
  }

  lemma AfterNumberSplits(s: string, stop: char, number: string, rest: string)
    requires !Digit(stop)
    ensures Digits(number) && s == number + [stop] + rest ==> AfterNumber(s, stop) == Some(rest)
    ensures AfterNumber(s, stop).Some? ==>
              var n := |s| - |AfterNumber(s, stop).value| - 1;
              0 < n && Digits(s[..n]) && s == s[..n] + [stop] + AfterNumber(s, stop).value
  {
    DropDigitsSplits(s);
    var n := |s| - |DropDigits(s)|;
    if Digits(number) && s == number + [stop] + rest {
      assert s[|number|] == stop;
      assert forall i :: 0 <= i < |number| ==> s[i] == number[i];
      assert n == |number| by {
        assert n < |s| ==> s[n] == DropDigits(s)[0];
      }
    }
  }

  /** The version is a `v` and three numbers with dots between them. */
  lemma VersionExactly(s: string)
    ensures VersionOk(s) <==>
              exists a, b, c :: Digits(a) && Digits(b) && Digits(c) && s == "v" + (a + "." + (b + "." + c))
  {
    if VersionOk(s) {
      AfterNumberSplits(s[1..], '.', "", "");
      var r := AfterNumber(s[1..], '.').value;
      AfterNumberSplits(r, '.', "", "");
      var a, b, c := s[1..][..|s| - 1 - |r| - 1], r[..|r| - |AfterNumber(r, '.').value| - 1], AfterNumber(r, '.').value;
      assert s == "v" + s[1..];
      assert a + ['.'] + r == a + "." + (b + "." + c);
      assert Digits(a) && Digits(b) && Digits(c);
    }
    if a, b, c :| Digits(a) && Digits(b) && Digits(c) && s == "v" + (a + "." + (b + "." + c)) {
      var r := b + "." + c;
      assert s[1..] == a + ['.'] + r;
      AfterNumberSplits(s[1..], '.', a, r);
      assert r == b + ['.'] + c;
      AfterNumberSplits(r, '.', b, c);
    }
  }

  /** One measurement of a manifest: the text pattern, then the test for zeros on the text. */
  function CheckMeasurement(index: nat, value: string): Result<(), ManifestError> {
    if |value| != PCR_HEX || !Hex.LowerHex(value) then Err(MalformedMeasurement(index))
    else if Hex.ZeroText(value) then Err(ZeroMeasurement(index))
    else Ok(())
  }

  function ValidateManifestText(m: Manifest): Result<(), ManifestError> {
    if m.schemaVersion != SCHEMA then Err(WrongSchema)
    else if m.measurementsSchema != MEASUREMENTS_SCHEMA then Err(WrongMeasurementsSchema)
    else if m.environment != ENVIRONMENT then Err(WrongEnvironment)
    else if !VersionOk(m.version) then Err(MalformedVersion)
    else if |m.revision| != REVISION_LENGTH || !Hex.LowerHex(m.revision) then Err(MalformedRevision)
    else
      var first := CheckMeasurement(0, m.pcr0);
      if first.Err? then first
      else
        var second := CheckMeasurement(1, m.pcr1);
        if second.Err? then second
        else CheckMeasurement(2, m.pcr2)
  }

  predicate FloorOk(m: Manifest) {
    m.bodyE2EE == Profile(CONTRACT.protocol, CONTRACT.suite, CONTRACT.endpoint)
  }

  /** The code this model does not see: the Sigstore check of a bundle over a manifest by the pinned
      workflow identity, and the JSON decoder. */
  datatype Signing = Signing(signed: (Bytes, Bytes) -> bool, decode: Bytes -> Option<Manifest>)

  /** A manifest is believed only if its bundle signs it and it passes every check of its text. */
  function VerifyRelease(signing: Signing, manifest: Bytes, bundle: Bytes): Option<Manifest> {
    if manifest == [] || bundle == [] || |manifest| > MAX_MANIFEST then None
    else if !signing.signed(manifest, bundle) then None
    else
      match signing.decode(manifest)
      case None => None
      case Some(m) =>
        if ValidateManifestText(m).Ok? && m.repository == REPOSITORY && FloorOk(m) then Some(m) else None
  }

  function ReleaseOf(m: Manifest): Release {
    Release(m.revision, m.pcr0, m.pcr1, m.pcr2)
  }

  /** The policy document written for some releases. */
  function DocumentOf(releases: seq<Release>): Policy {
    Policy(POLICY_SCHEMA, MANIFEST_SCHEMA, WORKLOAD, PROFILE, CONTRACT, releases)
  }

  function Releases(manifests: seq<Manifest>): seq<Release> {
    seq(|manifests|, i requires 0 <= i < |manifests| => ReleaseOf(manifests[i]))
  }

  ghost predicate Usable(manifests: seq<Option<Manifest>>) {
    forall i :: 0 <= i < |manifests| ==> manifests[i].Some?
  }

  function Values(manifests: seq<Option<Manifest>>): seq<Manifest>
    requires Usable(manifests)
  {
    seq(|manifests|, i requires 0 <= i < |manifests| => manifests[i].value)
  }

  /** New release cells for the manifests, unless one of them is missing. */
  method MakeCells(manifests: seq<Option<Manifest>>) returns (cells: Option<seq<ReleaseCell>>)
    ensures cells.Some? <==> Usable(manifests)
    ensures cells.Some? ==>
              && |cells.value| == |manifests| && Distinct(cells.value)
              && forall i :: 0 <= i < |manifests| ==>
                   fresh(cells.value[i]) && cells.value[i].release == ReleaseOf(manifests[i].value)
  {
    var made: seq<ReleaseCell> := [];
    for index := 0 to |manifests|
      invariant |made| == index && Distinct(made)
      invariant forall i :: 0 <= i < index ==>
                  manifests[i].Some? && fresh(made[i]) && made[i].release == ReleaseOf(manifests[i].value)
    {
      if manifests[index].None? {
        return None;
      }
      var cell := new ReleaseCell(ReleaseOf(manifests[index].value));
      made := made + [cell];
    }
    return Some(made);
  }

  /** Converts verified manifests into a policy with releases of its own. */
  method DerivePolicy(manifests: seq<Option<Manifest>>) returns (policy: Option<PolicyRef>)
    ensures policy.Some? <==> Usable(manifests) && Acceptable(DocumentOf(Releases(Values(manifests))))
    ensures policy.Some? ==>
              && OneSlice(policy.value) && (forall c :: c in policy.value.cells ==> fresh(c))
              && ValueOf(policy.value) == DocumentOf(Releases(Values(manifests)))
              && forall c :: c in policy.value.cells ==> c.pcrs == Decoded(c.release)
  {
    if |manifests| == 0 {
      return None;
    }
    var cells := MakeCells(manifests);
    if cells.None? {
      return None;
    }
    var parsed := PolicyRef(DocumentOf([]), cells.value);
    ghost var value := DocumentOf(Releases(Values(manifests)));
    assert ReleasesOf(cells.value) == value.releases;
    policy := ParsedPolicy(parsed, value);
  }

  /** Parsing and validating a policy document that holds these releases. */
  method ParsedPolicy(parsed: PolicyRef, ghost value: Policy) returns (policy: Option<PolicyRef>)
    requires OneSlice(parsed) && ValueOf(parsed) == value
    modifies (set c | c in parsed.cells)`pcrs
    ensures policy == if Acceptable(value) then Some(parsed) else None
    ensures policy.Some? ==> forall c :: c in parsed.cells ==> c.pcrs == Decoded(c.release)
  {
    var ok, reached := ValidatePolicy(parsed);
    assert ValueOf(parsed) == value by {
      assert ReleasesOf(parsed.cells) == value.releases;
    }
    if !ok {
      return None;
    }
    forall i | 0 <= i < |parsed.cells|
      ensures parsed.cells[i].pcrs == Decoded(parsed.cells[i].release)
    {
      assert RevisionOk(value.releases[i].sourceRevision);
    }
    return Some(parsed);
  }

  /** The manifest validator accepts the same revision and measurement texts as the policy validator. */
  lemma ManifestReleaseIsOk(m: Manifest)
    ensures ValidateManifestText(m).Ok? <==>
              && m.schemaVersion == SCHEMA && m.measurementsSchema == MEASUREMENTS_SCHEMA
              && m.environment == ENVIRONMENT
              && VersionOk(m.version) && ReleaseOk(Release(m.revision, m.pcr0, m.pcr1, m.pcr2))
  {
  }

  /** The measurements of a manifest in their order. */
  function MeasurementsText(m: Manifest): seq<string> {
    [m.pcr0, m.pcr1, m.pcr2]
  }

  /** A refusal names a fault that the manifest has. */
  lemma RefusalNamesAFault(m: Manifest)
    ensures ValidateManifestText(m).Err? ==>
              match ValidateManifestText(m).error
              case WrongSchema => m.schemaVersion != 2
              case WrongMeasurementsSchema => m.measurementsSchema != 2
              case WrongEnvironment => m.environment != "prod"
              case MalformedVersion => !VersionOk(m.version)
              case MalformedRevision => !RevisionOk(m.revision)
              case MalformedMeasurement(i) =>
                i < 3 && (|MeasurementsText(m)[i]| != 96 || !Hex.LowerHex(MeasurementsText(m)[i]))
              case ZeroMeasurement(i) => i < 3 && MeasurementsText(m)[i] == seq(96, _ => '0')
  {
  }

  /** A release verifies exactly if its bundle signs the text of at most 64 KiB and that text is a valid
      production manifest of the Gateway repository, at the demanded encryption. */
  lemma VerifiedExactly(signing: Signing, manifest: Bytes, bundle: Bytes, m: Manifest)
    ensures VerifyRelease(signing, manifest, bundle) == Some(m) <==>
              && 0 < |manifest| <= 65_536 && bundle != []
              && signing.signed(manifest, bundle) && signing.decode(manifest) == Some(m)
              && m.schemaVersion == 2 && m.measurementsSchema == 2 && m.environment == "prod" && VersionOk(m.version)
              && m.repository == "https://github.com/dappnode/dappnode-nexus-gateway"
              && m.bodyE2EE == Profile("ehbp-v1", "DHKEM-X25519-HKDF-SHA256/HKDF-SHA256/AES-256-GCM",
                                       "/v1/confidential/chat/completions")
              && ReleaseOk(Release(m.revision, m.pcr0, m.pcr1, m.pcr2))
  {
    ManifestReleaseIsOk(m);
  }

  /** A bundle by the release workflow signs this text of a production manifest of the Gateway, which
      promises the encryption that the client demands, for the build. */
  ghost predicate Vouches(signing: Signing, manifest: Bytes, bundle: Bytes, build: Release) {
    && signing.signed(manifest, bundle) && 0 < |manifest| <= MAX_MANIFEST
    && signing.decode(manifest).Some?
    && var m := signing.decode(manifest).value;
       && m.environment == ENVIRONMENT && m.repository == REPOSITORY
       && m.bodyE2EE == Profile(CONTRACT.protocol, CONTRACT.suite, CONTRACT.endpoint)
       && ReleaseOk(build) && build == Release(m.revision, m.pcr0, m.pcr1, m.pcr2)
  }

  lemma VerifiedIsVouchedFor(signing: Signing, manifest: Bytes, bundle: Bytes)
    ensures VerifyRelease(signing, manifest, bundle).Some? ==>
              Vouches(signing, manifest, bundle, ReleaseOf(VerifyRelease(signing, manifest, bundle).value))
  {
    if VerifyRelease(signing, manifest, bundle).Some? {
      ManifestReleaseIsOk(VerifyRelease(signing, manifest, bundle).value);
    }
  }

  /** Manifests that passed their own validator make a policy if and only if there are one to four of
      them, all of different revisions; the policy then pins their builds in their order. */
  lemma ValidatorsAgree(manifests: seq<Manifest>)
    requires forall i :: 0 <= i < |manifests| ==> ValidateManifestText(manifests[i]).Ok?
    ensures |Releases(manifests)| == |manifests|
    ensures forall i :: 0 <= i < |manifests| ==>
              && Releases(manifests)[i].sourceRevision == manifests[i].revision
              && Releases(manifests)[i].pcr0 == manifests[i].pcr0
              && Releases(manifests)[i].pcr1 == manifests[i].pcr1
              && Releases(manifests)[i].pcr2 == manifests[i].pcr2
    ensures Acceptable(DocumentOf(Releases(manifests))) <==>
              && 1 <= |manifests| <= MAX_RELEASES
              && forall i, j :: 0 <= i < j < |manifests| ==> manifests[i].revision != manifests[j].revision
  {
    var releases := Releases(manifests);
    forall i | 0 <= i < |releases|
      ensures ReleaseOk(releases[i])
    {
      ManifestReleaseIsOk(manifests[i]);
    }
    if DistinctRevisions(releases) {
      forall i, j | 0 <= i < j < |manifests|
        ensures manifests[i].revision != manifests[j].revision
      {
        assert releases[i].sourceRevision != releases[j].sourceRevision;
      }
    }
  }

  /** The measurements, number by number, are those that the manifest gives in text. */
  ghost predicate ShowsManifest(pcrs: map<nat, Bytes>, m: Manifest) {
    && pcrs.Keys == {0, 1, 2}
    && Some(pcrs[0]) == Hex.Decode(m.pcr0) && Some(pcrs[1]) == Hex.Decode(m.pcr1) && Some(pcrs[2]) == Hex.Decode(m.pcr2)
  }

  /** Evidence accepted under a policy derived from manifests shows the three measurements of one of
      them, the one whose revision it claims. */
  lemma AcceptedEvidenceIsReleased(f: Foreign, manifests: seq<Manifest>, fetched: Option<Fetched>, nonce: Bytes,
                                   now: int, maxAge: int, maxSkew: int)
    requires Acceptable(DocumentOf(Releases(manifests)))
    ensures var result := Validate(f, DocumentOf(Releases(manifests)), fetched, nonce, now, maxAge, maxSkew);
            result.Ok? ==>
              exists m :: m in manifests && m.revision == result.value.sourceRevision
                && ShowsManifest(result.value.pcrs, m)
  {
    if Validate(f, DocumentOf(Releases(manifests)), fetched, nonce, now, maxAge, maxSkew).Ok? {
      var release := AcceptedEvidence(f, DocumentOf(Releases(manifests)), fetched, nonce, now, maxAge, maxSkew);
      var i :| 0 <= i < |manifests| && Releases(manifests)[i] == release;
      assert manifests[i] in manifests && ShowsManifest(Measurements(release), manifests[i]);
    }
  }
}
