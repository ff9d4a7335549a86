/** Where the builds come from that sessions are handed out for. */
module Provenance {
  import opened Prelude
  import opened TrustPolicy
  import opened Attestation
  import opened PolicyRefresh
  import opened SessionProtocol
  import opened ReleaseManifest
  import opened ReleaseSource

  ghost predicate AllGood(releases: seq<Release>, good: Release -> bool) {
    forall r :: r in releases ==> good(r)
  }

  /** Every policy that is set during a run pins good builds only. */
  ghost predicate SetsOnlyGood(actions: seq<Action>, good: Release -> bool) {
    forall i :: 0 <= i < |actions| && actions[i].SetPolicy? ==> AllGood(actions[i].policy.releases, good)
  }

  ghost predicate Sound(s: System, good: Release -> bool) {
    && AllGood(s.policy.releases, good)
    && (s.verifying.Some? && s.verifying.value.stage.Snapped? ==>
          AllGood(s.verifying.value.stage.policy.releases, good))
    && (s.session.Some? ==> good(s.session.value.build))
    && forall h :: h in s.handOuts ==> good(h.session.build)
  }

  lemma AcceptedIsGood(f: Foreign, policy: Policy, fetched: Option<Fetched>, nonce: Bytes, now: int,
                       good: Release -> bool)
    requires AllGood(policy.releases, good)
    ensures var result := VerifyNow(f, policy, fetched, nonce, now);
            result.Ok? ==> good(NamedRelease(policy, result.value.sourceRevision))
  {
    var result := VerifyNow(f, policy, fetched, nonce, now);
    if result.Ok? {
      LookupFinds(policy.releases, f.claims(fetched.value.manifest).value.sourceRevision);
      LookupFinds(policy.releases, result.value.sourceRevision);
    }
  }

  lemma ResultKeepsSound(s: System, result: Result<Evidence, VerifyError>, keyUsable: bool, again: bool,
                         good: Release -> bool)
    requires Sound(s, good) && s.verifying.Some? && s.verifying.value.task in s.tasks
    requires s.verifying.value.stage.Snapped?
    requires result.Ok? ==> good(NamedRelease(s.verifying.value.stage.policy, result.value.sourceRevision))
    ensures Sound(JudgedAs(s, result, keyUsable, again), good)
  {
  }

  lemma JudgeKeepsSound(f: Foreign, s: System, a: Action, good: Release -> bool)
    requires Sound(s, good) && a.Judge?
    ensures Sound(Step(f, s, a), good)
  {
    if s.verifying.Some? && s.verifying.value.task in s.tasks && s.verifying.value.stage.Snapped? {
      var stage := s.verifying.value.stage;
      AcceptedIsGood(f, stage.policy, a.fetched, a.nonce, stage.now, good);
      ResultKeepsSound(s, VerifyNow(f, stage.policy, a.fetched, a.nonce, stage.now), a.keyUsable, a.again, good);
    }
  }

  lemma StepKeepsSound(f: Foreign, s: System, a: Action, good: Release -> bool)
    requires Sound(s, good) && (a.SetPolicy? ==> AllGood(a.policy.releases, good))
    ensures Sound(Step(f, s, a), good)
  {
    if a.Judge? {
      JudgeKeepsSound(f, s, a, good);
    }
  }

  /** Whatever is true of all builds that any policy of a run pins is true of every session that the
      run hands out. */
  lemma {:induction false} OnlyGoodBuilds(f: Foreign, clock: int, policy: Policy, actions: seq<Action>,
                                          good: Release -> bool)
    requires AllGood(policy.releases, good) && SetsOnlyGood(actions, good)
    ensures Sound(Run(f, Initial(clock, policy), actions), good)
  {
    if actions != [] {
      var before := actions[..|actions| - 1];
      assert forall i :: 0 <= i < |before| ==> before[i] == actions[i];
      OnlyGoodBuilds(f, clock, policy, before, good);
      StepKeepsSound(f, Run(f, Initial(clock, policy), before), actions[|actions| - 1], good);
    }
  }

  /** The build of a production manifest that the release workflow signed. */
  ghost predicate SignedBuild(signing: Signing, build: Release) {
    exists manifest, bundle :: Vouches(signing, manifest, bundle, build)
  }

  /** A policy as Source.Policy makes them, from the network or from the cache. */
  ghost predicate FromSource(signing: Signing, policy: Policy) {
    exists pairs: seq<SignedRelease> ::
      && (forall k :: 0 <= k < |pairs| ==> VerifyPair(signing, pairs[k]).Some?)
      && PolicyOf(ManifestsOf(signing, pairs)) == Some(policy)
  }

  lemma PairsQualify(signing: Signing, pairs: seq<SignedRelease>)
    requires forall k :: 0 <= k < |pairs| ==> VerifyPair(signing, pairs[k]).Some?
    ensures forall policy :: PolicyOf(ManifestsOf(signing, pairs)) == Some(policy) ==> FromSource(signing, policy)
  {
  }

  lemma SourcePoliciesQualify(signing: Signing, web: Web, entries: Option<seq<SignedRelease>>, count: nat,
                              policy: Policy)
    ensures PolicyOf(ManifestsOf(signing, FetchedPairs(signing, web, count))) == Some(policy) ==>
              FromSource(signing, policy)
    ensures Replay(signing, entries, count).Some? && PolicyOf(Replay(signing, entries, count).value) == Some(policy) ==>
              FromSource(signing, policy)
  {
    PairsQualify(signing, FetchedPairs(signing, web, count));
    if Replay(signing, entries, count).Some? {
      PairsQualify(signing, entries.value[..Min(count, |entries.value|)]);
    }
  }

  lemma SourcesPinSignedBuilds(signing: Signing, policy: Policy)
    requires FromSource(signing, policy)
    ensures AllGood(policy.releases, r => SignedBuild(signing, r))
  {
    var pairs :| (forall k :: 0 <= k < |pairs| ==> VerifyPair(signing, pairs[k]).Some?)
                 && PolicyOf(ManifestsOf(signing, pairs)) == Some(policy);
    assert policy.releases == Releases(ManifestsOf(signing, pairs));
    VerifiedBuildsAreSigned(signing, pairs);
  }

  lemma VerifiedBuildsAreSigned(signing: Signing, pairs: seq<SignedRelease>)
    requires forall k :: 0 <= k < |pairs| ==> VerifyPair(signing, pairs[k]).Some?
    ensures AllGood(Releases(ManifestsOf(signing, pairs)), r => SignedBuild(signing, r))
  {
    var releases := Releases(ManifestsOf(signing, pairs));
    forall r | r in releases
      ensures SignedBuild(signing, r)
    {
      var i :| 0 <= i < |releases| && releases[i] == r;
      assert ReleaseOf(VerifyPair(signing, pairs[i]).value) == r;
      VerifiedIsVouchedFor(signing, pairs[i].manifest, pairs[i].bundle);
    }
  }

  /** With policies that come from signed releases, a session is only ever handed out for a build whose
      measurements the release workflow signed. */
  lemma OnlySignedBuilds(f: Foreign, signing: Signing, clock: int, policy: Policy, actions: seq<Action>)
    requires FromSource(signing, policy)
    requires forall i :: 0 <= i < |actions| && actions[i].SetPolicy? ==> FromSource(signing, actions[i].policy)
    ensures forall h :: h in Run(f, Initial(clock, policy), actions).handOuts ==> SignedBuild(signing, h.session.build)
  {
    SourcesPinSignedBuilds(signing, policy);
    forall i | 0 <= i < |actions| && actions[i].SetPolicy?
      ensures AllGood(actions[i].policy.releases, r => SignedBuild(signing, r))
    {
      SourcesPinSignedBuilds(signing, actions[i].policy);
    }
    OnlyGoodBuilds(f, clock, policy, actions, r => SignedBuild(signing, r));
  }
}
