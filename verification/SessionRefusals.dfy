/** Calls for a session that fail, and the rejections in the ledger. */
module SessionRefusals {
  import opened TrustPolicy
  import opened Attestation
  import opened LedgerModel
  import opened SessionProtocol

  predicate WasRefused(s: System, t: string) {
    || (t in s.tasks && s.tasks[t].progress == Refused)
    || (t in s.done && s.done[t].progress == Refused)
  }

  /** The tasks, running or over, whose call for a session failed. */
  function Refusals(s: System): set<string> {
    set t | t in s.tasks.Keys + s.done.Keys && WasRefused(s, t)
  }

  ghost predicate Tallied(s: System) {
    && Count(s.log, IsRejected) == |Refusals(s)|
    && (forall t :: t in s.tasks ==> t !in s.done)
    && (s.verifying.Some? ==> s.verifying.value.task in s.tasks && s.tasks[s.verifying.value.task].progress == Wants)
  }

  lemma RefusalIsTallied(s: System)
    requires Tallied(s) && s.verifying.Some?
    ensures Tallied(Reject(s))
  {
    var s' := Reject(s);
    assert s'.log[..|s.log|] == s.log;
    var task := s.verifying.value.task;
    assert forall t :: WasRefused(s', t) <==> WasRefused(s, t) || t == task;
    assert Refusals(s') == Refusals(s) + {task};
  }

  lemma SameRefusals(s: System, s': System)
    requires Tallied(s)
    requires s'.log == s.log || (|s'.log| == |s.log| + 1 && s'.log[..|s.log|] == s.log && !IsRejected(s'.log[|s.log|]))
    requires forall t :: WasRefused(s, t) <==> WasRefused(s', t)
    ensures Count(s'.log, IsRejected) == |Refusals(s')|
  {
    assert Refusals(s') == Refusals(s);
  }

  lemma JudgeKeepsTally(f: Foreign, s: System, a: Action)
    requires Tallied(s) && a.Judge?
    ensures Tallied(Effect(f, s, a))
  {
    var s' := Effect(f, s, a);
    if s' != s {
      if s' == Reject(s) {
        RefusalIsTallied(s);
      } else {
        SameRefusals(s, s');
      }
    }
  }

  lemma FinishKeepsTally(s: System, task: string, outcome: Outcome)
    requires Tallied(s)
    ensures Tallied(Finished(s, task, outcome))
  {
    var s' := Finished(s, task, outcome);
    if s' != s {
      assert WasRefused(s, task) <==> WasRefused(s', task);
      assert forall t :: t != task ==> (WasRefused(s, t) <==> WasRefused(s', t));
      SameRefusals(s, s');
    }
  }

  lemma RespondKeepsTally(f: Foreign, s: System, a: Action)
    requires Tallied(s) && a.Respond?
    ensures Tallied(Effect(f, s, a))
  {
    if s.verifying.Some? && !a.ok {
      RefusalIsTallied(s);
    } else {
      SameRefusals(s, Effect(f, s, a));
    }
  }

  lemma OtherStepsKeepTally(f: Foreign, s: System, a: Action)
    requires Tallied(s) && !a.Judge? && !a.Finish? && !a.Respond?
    ensures Tallied(Effect(f, s, a))
  {
    SameRefusals(s, Effect(f, s, a));
  }

  lemma StepKeepsTally(f: Foreign, s: System, a: Action)
    requires Tallied(s)
    ensures Tallied(Step(f, s, a))
  {
    if a.Judge? {
      JudgeKeepsTally(f, s, a);
    } else if a.Finish? {
      FinishKeepsTally(s, a.task, a.outcome);
    } else if a.Respond? {
      RespondKeepsTally(f, s, a);
    } else {
      OtherStepsKeepTally(f, s, a);
    }
    assert Refusals(Step(f, s, a)) == Refusals(Effect(f, s, a));
  }

  lemma {:induction false} RunKeepsTally(f: Foreign, clock: int, policy: Policy, actions: seq<Action>)
    ensures Tallied(Run(f, Initial(clock, policy), actions))
  {
    if actions != [] {
      RunKeepsTally(f, clock, policy, actions[..|actions| - 1]);
      StepKeepsTally(f, Run(f, Initial(clock, policy), actions[..|actions| - 1]), actions[|actions| - 1]);
    }
  }

  /** Rejected entries of the ledger and calls for a session that failed match one to one. */
  lemma {:induction false} RefusalsAreRecorded(f: Foreign, clock: int, policy: Policy, actions: seq<Action>)
    ensures var s := Run(f, Initial(clock, policy), actions); Count(s.log, IsRejected) == |Refusals(s)|
  {
    RunKeepsTally(f, clock, policy, actions);
  }
}
