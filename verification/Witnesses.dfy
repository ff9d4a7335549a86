/** Concrete inputs for what is claimed to happen: a revoked build that is still handed out, and fetched
    releases that make no policy. */
module Witnesses {
  import opened Prelude
  import opened TrustPolicy
  import opened Attestation
  import opened PolicyRefresh
  import opened SessionProtocol
  import opened Revocation
  import opened ReleaseManifest
  import opened ReleaseOrder
  import opened ReleaseSource
  import Hex

  function Text(c: char, n: nat): string {
    seq(n, _ => c)
  }

  function Build(c: char): Release {
    Release(Text(c, REVISION_LENGTH), Text('1', 2 * PCR_BYTES), Text('2', 2 * PCR_BYTES), Text('3', 2 * PCR_BYTES))
  }

  lemma BuildIsOk(c: char)
    requires Hex.LowerDigit(c)
    ensures ReleaseOk(Build(c)) && Acceptable(DocumentOf([Build(c)]))
  {
    var n := 2 * PCR_BYTES;
    assert Text('1', n)[0] == '1' && Text('2', n)[0] == '2' && Text('3', n)[0] == '3';
  }

  const CLOCK: int := MILLISECOND

  function Sevens(n: nat): (b: Bytes)
    ensures |b| == n && forall i :: 0 <= i < n ==> b[i] == 7
  {
    if n == 0 then [] else [7] + Sevens(n - 1)
  }

  function Sent(): Fetched {
    Attestation.Fetched([], [], Sevens(DIGEST_BYTES), Sevens(KEY_BYTES))
  }

  function ClaimsOf(build: Release): ManifestClaims {
    ManifestClaims(MANIFEST_SCHEMA, PROFILE, WORKLOAD, build.sourceRevision, Claimed(CONTRACT))
  }

  /** A trusted document with these measurements, dated as far ahead of CLOCK as is tolerated. */
  function AnswerWith(pcrs: map<nat, Bytes>): NitroAnswer {
    NitroAnswer.Answer(true, true, ROOT, Sevens(NONCE_BYTES), Sevens(DIGEST_BYTES), Sevens(KEY_BYTES),
                       Some(Document(30_001, pcrs, "")))
  }

  function World(claims: ManifestClaims, answer: NitroAnswer): Foreign {
    Foreign(_ => Sevens(DIGEST_BYTES), _ => Some(claims), _ => answer)
  }

  lemma AheadIsAccepted(build: Release)
    requires ReleaseOk(build) && Acceptable(DocumentOf([build]))
    ensures var f, policy := World(ClaimsOf(build), AnswerWith(Measurements(build))), DocumentOf([build]);
            var result := VerifyNow(f, policy, Some(Sent()), Sevens(NONCE_BYTES), CLOCK);
            && result.Ok? && result.value.sourceRevision == build.sourceRevision
            && result.value.expiresAt == CLOCK + MAX_AGE + MAX_SKEW
  {
    var f, policy := World(ClaimsOf(build), AnswerWith(Measurements(build))), DocumentOf([build]);
    assert Sevens(KEY_BYTES)[0] == 7;
    assert Proves(f, policy, policy.releases[0], Sent(), Sevens(NONCE_BYTES), CLOCK, MAX_AGE, MAX_SKEW);
    AcceptedExactly(f, policy, Sent(), Sevens(NONCE_BYTES), CLOCK, MAX_AGE, MAX_SKEW);
    var release := AcceptedEvidence(f, policy, Some(Sent()), Sevens(NONCE_BYTES), CLOCK, MAX_AGE, MAX_SKEW);
  }

  /** The build has been gone since `clock + 1`, and is handed out two ticks before the bound. */
  ghost predicate HandsOutLate(f: Foreign, clock: int, policy: Policy, actions: seq<Action>, build: Release) {
    && Acceptable(policy) && AlwaysGone(f, Initial(clock, policy), actions, build, clock + 1)
    && exists h :: h in Run(f, Initial(clock, policy), actions).handOuts && h.session.build == build
         && h.time == clock + 1 + MAX_AGE + MAX_SKEW - 2
  }

  /** A revoked build is indeed handed out 150 seconds, less two ticks of the clock, after it was gone. */
  lemma BoundIsMet()
    ensures exists f, clock, policy, actions, build :: HandsOutLate(f, clock, policy, actions, build)
  {
    var policy, next := DocumentOf([Build('a')]), DocumentOf([Build('b')]);
    BuildIsOk('a');
    BuildIsOk('b');
    AheadIsAccepted(Build('a'));
    assert Text('a', REVISION_LENGTH)[0] != Text('b', REVISION_LENGTH)[0];
    assert NamedRelease(policy, Build('a').sourceRevision) == Build('a') && Build('a') !in next.releases;
    var f := World(ClaimsOf(Build('a')), AnswerWith(Measurements(Build('a'))));
    BoundIsTight(f, CLOCK, policy, next, "", Sent(), Sevens(NONCE_BYTES));
    assert HandsOutLate(f, CLOCK, policy, LongestUse("", Sent(), Sevens(NONCE_BYTES), next), Build('a'));
  }

  const RELEASED := Manifest(
    SCHEMA, "v1.0.0", ENVIRONMENT, REPOSITORY, Build('a').sourceRevision, MEASUREMENTS_SCHEMA,
    Build('a').pcr0, Build('a').pcr1, Build('a').pcr2, Profile(CONTRACT.protocol, CONTRACT.suite, CONTRACT.endpoint))

  const LISTING := Listing(false, false, "", [Asset("v1" + MANIFEST_SUFFIX, "m"), Asset("v1" + BUNDLE_SUFFIX, "b")])
  const SIGNING := Signing((manifest, bundle) => manifest == [0] && bundle == [1], _ => Some(RELEASED))
  const WEB := Web(Some([LISTING, LISTING]), (_, url) => Some(if url == "m" then [0] else [1]))

  lemma VersionIsOk()
    ensures VersionOk("v1.0.0")
  {
    VersionExactly("v1.0.0");
    assert Digits("1") && Digits("0") && "v1.0.0" == "v" + ("1" + "." + ("0" + "." + "0"));
  }

  lemma ReleasedIsValid()
    ensures VerifyRelease(SIGNING, [0], [1]) == Some(RELEASED)
  {
    BuildIsOk('a');
    VersionIsOk();
    ManifestReleaseIsOk(RELEASED);
  }

  lemma ListingIsCandidate()
    ensures CandidateOf(LISTING) == Some(Candidate("m", "b", ""))
  {
    var assets := LISTING.assets;
    SuffixMeaning("v1" + MANIFEST_SUFFIX, MANIFEST_SUFFIX);
    SuffixMeaning("v1" + BUNDLE_SUFFIX, BUNDLE_SUFFIX);
    SuffixesDiffer("v1" + MANIFEST_SUFFIX);
    SuffixesDiffer("v1" + BUNDLE_SUFFIX);
    assert LastWith(assets, MANIFEST_SUFFIX, 0) && LastWith(assets, BUNDLE_SUFFIX, 1);
    CandidateExactly(LISTING, Candidate("m", "b", ""));
  }

  lemma ListedTwice()
    ensures Listed(WEB) == [Candidate("m", "b", ""), Candidate("m", "b", "")]
  {
    ListingIsCandidate();
    var c := Candidate("m", "b", "");
    assert [LISTING, LISTING][..1] == [LISTING] && [LISTING][..0] == [];
    assert Candidates([LISTING]) == [c];
    assert Candidates([LISTING, LISTING]) == [c, c];
    assert [c, c][1..] == [c] && [c][1..] == [];
    assert Sort([c]) == [c];
  }

  lemma PairIsSigned(cands: seq<Candidate>, i: nat)
    requires i < |cands| && cands[i] == Candidate("m", "b", "")
    ensures PairAt(WEB, cands, i) == Some(SignedRelease([0], [1])) && Verifies(SIGNING, WEB, cands, i)
    ensures VerifyPair(SIGNING, SignedRelease([0], [1])) == Some(RELEASED)
  {
    ReleasedIsValid();
  }

  lemma BothAreChosen()
    ensures FetchedPairs(SIGNING, WEB, 3) == [SignedRelease([0], [1]), SignedRelease([0], [1])]
  {
    ListedTwice();
    var cands := Listed(WEB);
    PairIsSigned(cands, 0);
    PairIsSigned(cands, 1);
    assert Verifying(SIGNING, WEB, cands, 1) == [0];
    assert Verifying(SIGNING, WEB, cands, 2) == [0, 1];
    assert Chosen(SIGNING, WEB, cands, 3) == [0, 1];
  }

  /** Two releases that name one revision are fetched, and make no policy. */
  lemma DuplicatesCanBeFetched()
    ensures exists signing, web ::
              var pairs := FetchedPairs(signing, web, 3); pairs != [] && PolicyOf(ManifestsOf(signing, pairs)).None?
  {
    ListedTwice();
    BothAreChosen();
    PairIsSigned(Listed(WEB), 0);
    var pairs := FetchedPairs(SIGNING, WEB, 3);
    FetchedFailsOnlyOnDuplicates(SIGNING, WEB, 3);
    assert ManifestsOf(SIGNING, pairs)[0].revision == ManifestsOf(SIGNING, pairs)[1].revision;
  }
}
