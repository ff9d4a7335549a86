/** How long a build may still be used after the policy stopped pinning it. */
module Revocation {
  import opened Prelude
  import opened TrustPolicy
  import opened Attestation
  import opened PolicyRefresh
  import opened SessionProtocol

  /** `build` has not been pinned since time `since`, as far as this state shows. */
  ghost predicate Gone(s: System, build: Release, since: int) {
    s.clock >= since ==> build !in s.policy.releases
  }

  /** ... nor in any state on the way. */
  ghost predicate AlwaysGone(f: Foreign, s: System, actions: seq<Action>, build: Release, since: int) {
    forall n :: 0 <= n <= |actions| ==> Gone(Run(f, s, actions[..n]), build, since)
  }

  /** What keeps a build that is gone from living on: whatever shows it was checked against an older
      policy, and an older clock. */
  ghost predicate Expiring(s: System, build: Release, since: int) {
    && AllReleasesOk(s.policy.releases)
    && (s.verifying.Some? && s.verifying.value.stage.Clocked? ==> s.verifying.value.stage.now <= s.clock)
    && (s.verifying.Some? && s.verifying.value.stage.Snapped? ==>
          var stage := s.verifying.value.stage;
          AllReleasesOk(stage.policy.releases) && stage.now <= stage.at <= s.clock
          && (build in stage.policy.releases ==> stage.now < since))
    && (s.session.Some? && s.session.value.build == build ==> s.session.value.expiresAt < since + MAX_SKEW + MAX_AGE)
    && forall i :: 0 <= i < |s.handOuts| ==>
         && s.handOuts[i].time < s.handOuts[i].session.expiresAt
         && (s.handOuts[i].session.build == build ==> s.handOuts[i].session.expiresAt < since + MAX_SKEW + MAX_AGE)
  }

  /** Evidence lives no longer than 150 seconds past the clock it was checked against, and the build
      it is installed for was pinned by the policy it was checked against. */
  lemma EvidenceExpires(f: Foreign, policy: Policy, fetched: Option<Fetched>, nonce: Bytes, now: int)
    requires AllReleasesOk(policy.releases)
    ensures var result := VerifyNow(f, policy, fetched, nonce, now);
            result.Ok? ==>
              && result.value.expiresAt <= now + MAX_SKEW + MAX_AGE
              && NamedRelease(policy, result.value.sourceRevision) in policy.releases
  {
    if VerifyNow(f, policy, fetched, nonce, now).Ok? {
      var release := AcceptedEvidence(f, policy, fetched, nonce, now, MAX_AGE, MAX_SKEW);
      LookupFinds(policy.releases, release.sourceRevision);
    }
  }

  lemma StepKeepsExpiring(f: Foreign, s: System, a: Action, build: Release, since: int)
    requires Expiring(s, build, since) && Gone(s, build, since)
    ensures Expiring(Step(f, s, a), build, since)
  {
    if a.Judge? {
      JudgeKeepsExpiring(f, s, a, build, since);
    } else if a.Enter? || a.Respond? || a.Snapshot? {
      VerifyingKeepsExpiring(f, s, a, build, since);
    } else {
      OtherStepsKeepExpiring(f, s, a, build, since);
    }
  }

  lemma VerifyingKeepsExpiring(f: Foreign, s: System, a: Action, build: Release, since: int)
    requires Expiring(s, build, since) && Gone(s, build, since) && (a.Enter? || a.Respond? || a.Snapshot?)
    ensures Expiring(Step(f, s, a), build, since)
  {
  }

  lemma OtherStepsKeepExpiring(f: Foreign, s: System, a: Action, build: Release, since: int)
    requires Expiring(s, build, since) && !a.Judge? && !a.Enter? && !a.Respond? && !a.Snapshot?
    ensures Expiring(Step(f, s, a), build, since)
  {
    var s' := Effect(f, s, a);
    assert s'.handOuts == s.handOuts && s'.session in {None, s.session};
  }

  lemma JudgeKeepsExpiring(f: Foreign, s: System, a: Action, build: Release, since: int)
    requires Expiring(s, build, since) && a.Judge?
    ensures Expiring(Step(f, s, a), build, since)
  {
    if s.verifying.Some? && s.verifying.value.stage.Snapped? {
      var stage := s.verifying.value.stage;
      EvidenceExpires(f, stage.policy, a.fetched, a.nonce, stage.now);
    }
  }

  lemma {:induction false} RunKeepsExpiring(f: Foreign, s: System, actions: seq<Action>, build: Release, since: int)
    requires Expiring(s, build, since) && AlwaysGone(f, s, actions, build, since)
    ensures Expiring(Run(f, s, actions), build, since)
  {
    assert actions[..|actions|] == actions;
    if actions != [] {
      var before := actions[..|actions| - 1];
      forall n | 0 <= n <= |before|
        ensures Gone(Run(f, s, before[..n]), build, since)
      {
        assert before[..n] == actions[..n];
      }
      RunKeepsExpiring(f, s, before, build, since);
      assert Gone(Run(f, s, actions[..|before|]), build, since);
      StepKeepsExpiring(f, Run(f, s, before), actions[|actions| - 1], build, since);
    }
  }

  /** Bounded revocation: once a build is no longer pinned, no session of it is handed out from one tick
      of the clock before another 150 seconds have passed, whatever requests, re-verifications,
      invalidations and policy changes come in between, although sessions are not dropped when the policy
      changes. */
  lemma {:induction false} RevokedBuildsExpire(f: Foreign, clock: int, policy: Policy, actions: seq<Action>,
                                               build: Release, since: int)
    requires Acceptable(policy) && AlwaysGone(f, Initial(clock, policy), actions, build, since)
    ensures forall h :: h in Run(f, Initial(clock, policy), actions).handOuts && h.session.build == build ==>
              h.time <= since + MAX_AGE + MAX_SKEW - 2
  {
    RunKeepsExpiring(f, Initial(clock, policy), actions, build, since);
  }

  /** Every session handed out was unexpired when it was checked. */
  lemma {:induction false} HandOutsAreFresh(f: Foreign, clock: int, policy: Policy, actions: seq<Action>)
    ensures forall h :: h in Run(f, Initial(clock, policy), actions).handOuts ==> h.time < h.session.expiresAt
  {
    RunKeepsFresh(f, Initial(clock, policy), actions);
  }

  lemma {:induction false} RunKeepsFresh(f: Foreign, s: System, actions: seq<Action>)
    requires forall h :: h in s.handOuts ==> h.time < h.session.expiresAt
    ensures forall h :: h in Run(f, s, actions).handOuts ==> h.time < h.session.expiresAt
  {
    if actions != [] {
      RunKeepsFresh(f, s, actions[..|actions| - 1]);
    }
  }

  lemma RunPrefix(f: Foreign, s: System, actions: seq<Action>, n: nat)
    requires n < |actions|
    ensures Run(f, s, actions[..n + 1]) == Step(f, Run(f, s, actions[..n]), actions[n])
  {
    assert actions[..n + 1][..n] == actions[..n];
  }

  /** The longest a build can be used after the policy dropped it: verified just before, by evidence
      dated as far ahead as is tolerated. */
  function LongestUse(task: string, fetched: Fetched, nonce: Bytes, next: Policy): seq<Action> {
    [Start(task), Enter(task), Respond(true), Snapshot, SetPolicy(next),
     Tick(MAX_AGE + MAX_SKEW - 1), Judge(Some(fetched), nonce, true, false)]
  }

  /** The protocol with one task that verifies, and has taken its snapshot at `clock`. */
  function Waiting(clock: int, policy: Policy, task: string): System {
    Initial(clock, policy).(
      tasks := map[task := Task(ForRequest, Wants)],
      verifying := Some(Verification(task, false, 1, Snapped(clock, policy, clock))),
      step := 4)
  }

  function Asking(clock: int, policy: Policy, task: string): System {
    Waiting(clock, policy, task).(verifying := Some(Verification(task, false, 1, Fetching)), step := 2)
  }

  lemma AskingIsReached(f: Foreign, clock: int, policy: Policy, task: string)
    ensures Step(f, Step(f, Initial(clock, policy), Start(task)), Enter(task)) == Asking(clock, policy, task)
  {
  }

  lemma WaitingFollows(f: Foreign, clock: int, policy: Policy, task: string)
    ensures Step(f, Step(f, Asking(clock, policy, task), Respond(true)), Snapshot) == Waiting(clock, policy, task)
  {
  }

  lemma {:induction false} OnlyTicksMoveTheClock(f: Foreign, s: System, actions: seq<Action>)
    requires forall i :: 0 <= i < |actions| ==> !actions[i].Tick?
    ensures Run(f, s, actions).clock == s.clock
  {
    if actions != [] {
      OnlyTicksMoveTheClock(f, s, actions[..|actions| - 1]);
    }
  }

  lemma LongestUseStates(f: Foreign, clock: int, policy: Policy, next: Policy, task: string, fetched: Fetched,
                         nonce: Bytes)
    requires Acceptable(next)
    ensures var actions, s := LongestUse(task, fetched, nonce, next), Initial(clock, policy);
            && Run(f, s, actions[..5]) == Waiting(clock, policy, task).(policy := next, step := 5)
            && Run(f, s, actions[..6])
               == Waiting(clock, policy, task).(policy := next, step := 6, clock := clock + MAX_AGE + MAX_SKEW - 1)
  {
    var actions, s := LongestUse(task, fetched, nonce, next), Initial(clock, policy);
    assert Run(f, s, actions[..0]) == s;
    RunPrefix(f, s, actions, 0);
    RunPrefix(f, s, actions, 1);
    AskingIsReached(f, clock, policy, task);
    RunPrefix(f, s, actions, 2);
    RunPrefix(f, s, actions, 3);
    WaitingFollows(f, clock, policy, task);
    RunPrefix(f, s, actions, 4);
    RunPrefix(f, s, actions, 5);
  }

  lemma GoneThroughout(f: Foreign, clock: int, policy: Policy, actions: seq<Action>, build: Release)
    requires |actions| == 7 && forall i :: 0 <= i < 5 ==> !actions[i].Tick?
    requires build !in Run(f, Initial(clock, policy), actions[..6]).policy.releases
    requires build !in Run(f, Initial(clock, policy), actions).policy.releases
    ensures AlwaysGone(f, Initial(clock, policy), actions, build, clock + 1)
  {
    forall n | 0 <= n <= |actions|
      ensures Gone(Run(f, Initial(clock, policy), actions[..n]), build, clock + 1)
    {
      if n <= 5 {
        OnlyTicksMoveTheClock(f, Initial(clock, policy), actions[..n]);
      } else if n == 7 {
        assert actions[..n] == actions;
      }
    }
  }

  /** The bound is met: a build that has been gone since `clock + 1` is handed out 150 seconds, less
      two ticks of the clock, after that. */
  lemma {:induction false} BoundIsTight(f: Foreign, clock: int, policy: Policy, next: Policy, task: string,
                                        fetched: Fetched, nonce: Bytes)
    requires Acceptable(policy) && Acceptable(next)
    requires var result := VerifyNow(f, policy, Some(fetched), nonce, clock);
             && result.Ok? && result.value.expiresAt == clock + MAX_AGE + MAX_SKEW
             && NamedRelease(policy, result.value.sourceRevision) !in next.releases
    ensures var build := NamedRelease(policy, VerifyNow(f, policy, Some(fetched), nonce, clock).value.sourceRevision);
            var actions := LongestUse(task, fetched, nonce, next);
            && AlwaysGone(f, Initial(clock, policy), actions, build, clock + 1)
            && exists h :: h in Run(f, Initial(clock, policy), actions).handOuts && h.session.build == build
                 && h.time == clock + 1 + MAX_AGE + MAX_SKEW - 2
  {
    var e := VerifyNow(f, policy, Some(fetched), nonce, clock).value;
    LongestUseEnds(f, clock, policy, next, task, fetched, nonce, e, NamedRelease(policy, e.sourceRevision));
    var actions := LongestUse(task, fetched, nonce, next);
    var after := Run(f, Initial(clock, policy), actions);
    assert after.handOuts[0] in after.handOuts;
    GoneThroughout(f, clock, policy, actions, NamedRelease(policy, e.sourceRevision));
  }

  lemma LongestUseEnds(f: Foreign, clock: int, policy: Policy, next: Policy, task: string, fetched: Fetched,
                       nonce: Bytes, e: Evidence, build: Release)
    requires Acceptable(next) && VerifyNow(f, policy, Some(fetched), nonce, clock) == Ok(e)
    requires e.expiresAt == clock + MAX_AGE + MAX_SKEW && build == NamedRelease(policy, e.sourceRevision)
    ensures var after := Run(f, Initial(clock, policy), LongestUse(task, fetched, nonce, next));
            && after.policy == next
            && Run(f, Initial(clock, policy), LongestUse(task, fetched, nonce, next)[..6]).policy == next
            && |after.handOuts| == 1
            && after.handOuts[0].session.build == build && after.handOuts[0].time == clock + MAX_AGE + MAX_SKEW - 1
  {
    var actions := LongestUse(task, fetched, nonce, next);
    var before := Waiting(clock, policy, task).(policy := next, step := 6, clock := clock + MAX_AGE + MAX_SKEW - 1);
    LongestUseStates(f, clock, policy, next, task, fetched, nonce);
    RunPrefix(f, Initial(clock, policy), actions, 6);
    assert actions[..7] == actions;
    LastIsHandedOut(f, before, e, build, fetched, nonce);
  }

  lemma LastIsHandedOut(f: Foreign, s: System, e: Evidence, build: Release, fetched: Fetched, nonce: Bytes)
    requires s.verifying.Some? && s.verifying.value.task in s.tasks && s.verifying.value.stage.Snapped?
    requires s.handOuts == []
    requires var stage := s.verifying.value.stage;
             && VerifyNow(f, stage.policy, Some(fetched), nonce, stage.now) == Ok(e)
             && build == NamedRelease(stage.policy, e.sourceRevision)
    requires s.clock < e.expiresAt
    ensures var after := Step(f, s, Judge(Some(fetched), nonce, true, false));
            && after.policy == s.policy && |after.handOuts| == 1
            && after.handOuts[0].session.build == build && after.handOuts[0].time == s.clock
  {
    var result := VerifyNow(f, s.verifying.value.stage.policy, Some(fetched), nonce, s.verifying.value.stage.now);
    ValidIsInstalled(s, result);
    assert Judged(f, s, Some(fetched), nonce, true, false) == JudgedAs(s, result, true, false);
    JudgeStep(f, s, fetched, nonce);
  }

  lemma JudgeStep(f: Foreign, s: System, fetched: Fetched, nonce: Bytes)
    ensures Step(f, s, Judge(Some(fetched), nonce, true, false))
         == Judged(f, s, Some(fetched), nonce, true, false).(step := s.step + 1)
  {
  }

  lemma ValidIsInstalled(s: System, result: Result<Evidence, VerifyError>)
    requires s.verifying.Some? && s.verifying.value.task in s.tasks && s.verifying.value.stage.Snapped?
    requires s.handOuts == []
    requires result.Ok? && s.clock < result.value.expiresAt
    ensures var after := JudgedAs(s, result, true, false);
            && after.policy == s.policy && |after.handOuts| == 1 && after.handOuts[0].time == s.clock
            && after.handOuts[0].session.build
               == NamedRelease(s.verifying.value.stage.policy, result.value.sourceRevision)
  {
  }
}
