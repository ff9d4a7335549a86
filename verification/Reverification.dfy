/** What a re-verification that succeeds has got hold of. */
module Reverification {
  import opened Prelude
  import opened TrustPolicy
  import opened Attestation
  import opened PolicyRefresh
  import opened SessionProtocol

  /** Step numbers tell which verification began after which clearing of the cache: while a
      re-verification waits, every session and verification there is began after it cleared. */
  ghost predicate InOrder(s: System) {
    && (s.session.Some? ==> s.session.value.begunAt < s.step)
    && (s.verifying.Some? ==>
          var v := s.verifying.value;
          v.begunAt < s.step && v.task in s.tasks && s.tasks[v.task].progress == Wants)
    && forall t :: t in s.tasks && s.tasks[t].purpose.ForReverify? ==> AfterClearing(s, s.tasks[t])
  }

  ghost predicate AfterClearing(s: System, t: Task)
    requires t.purpose.ForReverify?
  {
    var cleared := t.purpose.clearedAt;
    && cleared < s.step
    && (s.session.Some? && t.progress == Wants ==> cleared < s.session.value.begunAt)
    && (s.verifying.Some? && t.progress == Wants ==> cleared < s.verifying.value.begunAt)
    && (t.progress.Has? ==> cleared < t.progress.session.begunAt)
  }

  lemma EffectKeepsOrder(f: Foreign, s: System, a: Action)
    requires InOrder(s) && !a.Judge?
    ensures InOrder(Step(f, s, a))
  {
    if a.Start? || a.StartWarmUp? || a.StartReverify? {
      StartKeepsOrder(f, s, a);
    } else if a.Finish? {
      FinishKeepsOrder(f, s, a);
    } else if a.Invalidate? || a.Enter? {
      CacheKeepsOrder(f, s, a);
    } else {
      LockKeepsOrder(f, s, a);
    }
  }

  lemma StartKeepsOrder(f: Foreign, s: System, a: Action)
    requires InOrder(s) && (a.Start? || a.StartWarmUp? || a.StartReverify?)
    ensures InOrder(Step(f, s, a))
  {
  }

  lemma FinishKeepsOrder(f: Foreign, s: System, a: Action)
    requires InOrder(s) && a.Finish?
    ensures InOrder(Step(f, s, a))
  {
  }

  lemma CacheKeepsOrder(f: Foreign, s: System, a: Action)
    requires InOrder(s) && (a.Invalidate? || a.Enter?)
    ensures InOrder(Step(f, s, a))
  {
  }

  lemma LockKeepsOrder(f: Foreign, s: System, a: Action)
    requires InOrder(s) && (a.Tick? || a.SetPolicy? || a.Respond? || a.Snapshot?)
    ensures InOrder(Step(f, s, a))
  {
  }

  lemma ResultKeepsOrder(s: System, result: Result<Evidence, VerifyError>, keyUsable: bool, again: bool)
    requires InOrder(s) && s.verifying.Some? && s.verifying.value.stage.Snapped?
    ensures InOrder(JudgedAs(s, result, keyUsable, again))
  {
  }

  lemma JudgeKeepsOrder(f: Foreign, s: System, a: Action)
    requires InOrder(s) && a.Judge?
    ensures InOrder(Step(f, s, a))
  {
    if s.verifying.Some? && s.verifying.value.stage.Snapped? {
      var stage := s.verifying.value.stage;
      ResultKeepsOrder(s, VerifyNow(f, stage.policy, a.fetched, a.nonce, stage.now), a.keyUsable, a.again);
    }
    LaterKeepsOrder(Effect(f, s, a), s.step + 1);
  }

  lemma LaterKeepsOrder(s: System, step: nat)
    requires InOrder(s) && s.step <= step
    ensures InOrder(s.(step := step))
  {
  }

  lemma {:induction false} RunKeepsOrder(f: Foreign, s: System, actions: seq<Action>)
    requires InOrder(s)
    ensures InOrder(Run(f, s, actions))
  {
    if actions != [] {
      var before, a := actions[..|actions| - 1], actions[|actions| - 1];
      RunKeepsOrder(f, s, before);
      if a.Judge? {
        JudgeKeepsOrder(f, Run(f, s, before), a);
      } else {
        EffectKeepsOrder(f, Run(f, s, before), a);
      }
    }
  }

  /** A re-verification that succeeds holds a session whose verification began after that very call
      cleared the cache, even if another task verified it. */
  lemma {:induction false} ReverifiedSessionIsNew(f: Foreign, clock: int, policy: Policy, actions: seq<Action>,
                                                  task: string)
    requires var s := Run(f, Initial(clock, policy), actions);
             task in s.tasks && s.tasks[task].purpose.ForReverify? && s.tasks[task].progress.Has?
    ensures var t := Run(f, Initial(clock, policy), actions).tasks[task];
            t.purpose.clearedAt < t.progress.session.begunAt
  {
    RunKeepsOrder(f, Initial(clock, policy), actions);
  }
}
