/** What the sessions handed out, the ledger and the request records have to do with one another. */
module SessionBooks {
  import opened Prelude
  import opened TrustPolicy
  import opened Attestation
  import opened LedgerModel
  import opened PolicyRefresh
  import opened SessionProtocol

  function IsRecordOf(task: string): Event -> bool {
    (e: Event) => e.RecordRequest? && e.request.id == task
  }

  ghost predicate VerifiedBefore(log: seq<Event>, n: nat, id: AttestationId) {
    exists j :: 0 <= j < n && j < |log| && log[j].RecordVerified? && log[j].id == id
  }

  /** Every encrypted request names an attestation that was recorded as verified before it. */
  ghost predicate Linked(log: seq<Event>) {
    forall i :: 0 <= i < |log| && IsEncrypted(log[i]) ==> VerifiedBefore(log, i, log[i].request.attestationID)
  }

  ghost predicate HandedOut(s: System, x: Session) {
    exists i :: 0 <= i < |s.handOuts| && s.handOuts[i].session == x
  }

  ghost predicate Numbered(s: System) {
    && (forall i :: 0 <= i < |s.handOuts| ==> s.handOuts[i].session.number < s.made)
    && (forall i, j :: 0 <= i < |s.handOuts| && 0 <= j < |s.handOuts|
                       && s.handOuts[i].session.number == s.handOuts[j].session.number ==>
                         s.handOuts[i].session == s.handOuts[j].session)
    && (s.session.Some? ==> HandedOut(s, s.session.value))
    && (forall t :: t in s.tasks && s.tasks[t].progress.Has? ==> HandedOut(s, s.tasks[t].progress.session))
  }

  ghost predicate Booked(s: System) {
    && Linked(s.log)
    && (forall i :: 0 <= i < |s.handOuts| ==> VerifiedBefore(s.log, |s.log|, s.handOuts[i].session.attestationID))
    && Count(s.log, IsVerified) == s.made
    && (forall t :: t in s.tasks ==> t !in s.done)
    && (forall t :: Count(s.log, IsRecordOf(t)) == if t in s.done && s.done[t].purpose == ForRequest then 1 else 0)
  }

  lemma CountMore(log: seq<Event>, e: Event, which: Event -> bool)
    ensures Count(log + [e], which) == Count(log, which) + if which(e) then 1 else 0
  {
    assert (log + [e])[..|log|] == log;
  }

  lemma VerifiedStays(log: seq<Event>, e: Event, n: nat, id: AttestationId)
    requires n <= |log| && VerifiedBefore(log, n, id)
    ensures VerifiedBefore(log + [e], n, id) && VerifiedBefore(log + [e], |log| + 1, id)
  {
    var j :| 0 <= j < n && log[j].RecordVerified? && log[j].id == id;
    assert (log + [e])[j] == log[j];
  }

  lemma LinkedMore(log: seq<Event>, e: Event)
    requires Linked(log) && (IsEncrypted(e) ==> VerifiedBefore(log, |log|, e.request.attestationID))
    ensures Linked(log + [e])
  {
    forall i | 0 <= i < |log + [e]| && IsEncrypted((log + [e])[i])
      ensures VerifiedBefore(log + [e], i, (log + [e])[i].request.attestationID)
    {
      VerifiedStays(log, e, i, (log + [e])[i].request.attestationID);
    }
  }

  /** What one more ledger entry does to the books, the hand-outs and tasks left as they are. */
  lemma EntryKeepsBooks(s: System, e: Event)
    requires Booked(s) && (IsEncrypted(e) ==> VerifiedBefore(s.log, |s.log|, e.request.attestationID))
    ensures var log := s.log + [e];
            && Linked(log)
            && (forall i :: 0 <= i < |s.handOuts| ==> VerifiedBefore(log, |log|, s.handOuts[i].session.attestationID))
            && Count(log, IsVerified) == s.made + (if e.RecordVerified? then 1 else 0)
            && forall t ::
                 Count(log, IsRecordOf(t)) == (if t in s.done && s.done[t].purpose == ForRequest then 1 else 0)
                                              + if e.RecordRequest? && e.request.id == t then 1 else 0
  {
    LinkedMore(s.log, e);
    CountMore(s.log, e, IsVerified);
    forall i | 0 <= i < |s.handOuts|
      ensures VerifiedBefore(s.log + [e], |s.log| + 1, s.handOuts[i].session.attestationID)
    {
      VerifiedStays(s.log, e, |s.log|, s.handOuts[i].session.attestationID);
    }
    forall t
      ensures Count(s.log + [e], IsRecordOf(t)) == Count(s.log, IsRecordOf(t)) + if IsRecordOf(t)(e) then 1 else 0
    {
      CountMore(s.log, e, IsRecordOf(t));
    }
  }

  ghost predicate Busy(s: System) {
    s.verifying.Some? ==> s.verifying.value.task in s.tasks && s.tasks[s.verifying.value.task].progress == Wants
  }

  ghost predicate Books(s: System) {
    Numbered(s) && Booked(s) && Busy(s)
  }

  lemma RejectKeepsBooks(s: System)
    requires Books(s) && s.verifying.Some?
    ensures Books(Reject(s))
  {
    EntryKeepsBooks(s, RecordRejected("", s.clock));
    var s' := Reject(s);
    assert forall x :: HandedOut(s, x) ==> HandedOut(s', x);
  }

  lemma InstallKeepsBooks(s: System, e: Evidence, build: Release)
    requires Books(s) && s.verifying.Some? && s.verifying.value.stage.Snapped?
    ensures Books(Install(s, e, build))
  {
    var s' := Install(s, e, build);
    var x := s'.session.value;
    var entry := s'.log[|s.log|];
    EntryKeepsBooks(s, entry);
    assert s'.handOuts[|s.handOuts|].session == x;
    forall y | HandedOut(s, y)
      ensures HandedOut(s', y)
    {
      var i :| 0 <= i < |s.handOuts| && s.handOuts[i].session == y;
      assert s'.handOuts[i].session == y;
    }
    assert s'.log == s.log + [entry];
  }

  lemma FinishKeepsNumbered(s: System, task: string, outcome: Outcome)
    requires Numbered(s) && Busy(s)
    ensures Numbered(Finished(s, task, outcome)) && Busy(Finished(s, task, outcome))
  {
    var s' := Finished(s, task, outcome);
    assert s'.handOuts == s.handOuts;
    assert forall x :: HandedOut(s, x) ==> HandedOut(s', x);
  }

  lemma FinishKeepsBooked(s: System, task: string, outcome: Outcome)
    requires Books(s)
    ensures Booked(Finished(s, task, outcome))
  {
    var s' := Finished(s, task, outcome);
    if task in s.tasks && s.tasks[task].progress != Wants && s.tasks[task].purpose == ForRequest {
      var entry := s'.log[|s.log|];
      EntryKeepsBooks(s, entry);
      assert s'.log == s.log + [entry] && entry.request.id == task;
    }
  }

  lemma EnterKeepsNumbered(s: System, task: string)
    requires Numbered(s)
    ensures Numbered(Entered(s, task))
  {
    var s' := Entered(s, task);
    if s'.handOuts != s.handOuts {
      var x := s.session.value;
      assert s'.handOuts[|s.handOuts|].session == x;
      var i :| 0 <= i < |s.handOuts| && s.handOuts[i].session == x;
    }
    forall y | HandedOut(s, y)
      ensures HandedOut(s', y)
    {
      var i :| 0 <= i < |s.handOuts| && s.handOuts[i].session == y;
      assert s'.handOuts[i].session == y;
    }
  }

  lemma EnterKeepsBooked(s: System, task: string)
    requires Books(s)
    ensures Booked(Entered(s, task)) && Busy(Entered(s, task))
  {
    var s' := Entered(s, task);
    if s'.handOuts != s.handOuts {
      var i :| 0 <= i < |s.handOuts| && s.handOuts[i].session == s.session.value;
    }
  }

  /** Steps that leave the ledger and the hand-outs alone. */
  lemma QuietKeepsBooks(s: System, s': System)
    requires Books(s) && Busy(s')
    requires s'.log == s.log && s'.handOuts == s.handOuts && s'.made == s.made && s'.done == s.done
    requires s'.session in {None, s.session}
    requires forall t :: t in s'.tasks ==>
               t !in s.done && (s'.tasks[t].progress.Has? ==> t in s.tasks && s.tasks[t] == s'.tasks[t])
    ensures Books(s')
  {
    assert forall x :: HandedOut(s, x) ==> HandedOut(s', x);
  }

  lemma RetryKeepsBooks(s: System)
    requires Books(s) && s.verifying.Some?
    ensures Books(s.(verifying := Some(s.verifying.value.(retried := true, stage := Fetching))))
  {
    QuietKeepsBooks(s, s.(verifying := Some(s.verifying.value.(retried := true, stage := Fetching))));
  }

  lemma JudgeKeepsBooks(f: Foreign, s: System, a: Action)
    requires Books(s) && a.Judge?
    ensures Books(Effect(f, s, a))
  {
    if s.verifying.Some? && s.verifying.value.stage.Snapped? {
      var v := s.verifying.value;
      var result := VerifyNow(f, v.stage.policy, a.fetched, a.nonce, v.stage.now);
      var s' := Effect(f, s, a);
      if s' == Reject(s) {
        RejectKeepsBooks(s);
      } else if result.Ok? {
        InstallKeepsBooks(s, result.value, NamedRelease(v.stage.policy, result.value.sourceRevision));
      } else {
        RetryKeepsBooks(s);
      }
    }
  }

  lemma EffectKeepsBooks(f: Foreign, s: System, a: Action)
    requires Books(s) && !a.Judge?
    ensures Books(Effect(f, s, a))
  {
    if a.Finish? {
      FinishKeepsNumbered(s, a.task, a.outcome);
      FinishKeepsBooked(s, a.task, a.outcome);
    } else if a.Enter? {
      EnterKeepsNumbered(s, a.task);
      EnterKeepsBooked(s, a.task);
    } else if a.Respond? && !a.ok && Effect(f, s, a) != s {
      RejectKeepsBooks(s);
    } else if a.Start? || a.StartWarmUp? || a.StartReverify? {
      StartKeepsBooks(f, s, a);
    } else {
      QuietEffectKeepsBooks(f, s, a);
    }
  }

  lemma StartKeepsBooks(f: Foreign, s: System, a: Action)
    requires Books(s) && (a.Start? || a.StartWarmUp? || a.StartReverify?)
    ensures Books(Effect(f, s, a))
  {
    QuietKeepsBooks(s, Effect(f, s, a));
  }

  lemma QuietEffectKeepsBooks(f: Foreign, s: System, a: Action)
    requires Books(s) && (a.Tick? || a.SetPolicy? || a.Respond? || a.Snapshot? || a.Invalidate?)
    requires !(a.Respond? && !a.ok && Effect(f, s, a) != s)
    ensures Books(Effect(f, s, a))
  {
    QuietKeepsBooks(s, Effect(f, s, a));
  }

  lemma {:induction false} RunKeepsBooks(f: Foreign, clock: int, policy: Policy, actions: seq<Action>)
    ensures Books(Run(f, Initial(clock, policy), actions))
  {
    var start := Initial(clock, policy);
    if actions == [] {
      assert forall t :: Count(start.log, IsRecordOf(t)) == 0;
    } else {
      var before, a := actions[..|actions| - 1], actions[|actions| - 1];
      RunKeepsBooks(f, clock, policy, before);
      var s := Run(f, start, before);
      if a.Judge? {
        JudgeKeepsBooks(f, s, a);
      } else {
        EffectKeepsBooks(f, s, a);
      }
      StepCountsOnly(f, s, a);
    }
  }

  lemma StepCountsOnly(f: Foreign, s: System, a: Action)
    requires Books(Effect(f, s, a))
    ensures Books(Step(f, s, a))
  {
    var s' := Step(f, s, a);
    assert forall x :: HandedOut(Effect(f, s, a), x) ==> HandedOut(s', x);
  }

  /** In every run, every request that counts as encrypted names an attestation which the ledger
      recorded as verified earlier. */
  lemma {:induction false} EncryptedMeansAttested(f: Foreign, clock: int, policy: Policy, actions: seq<Action>)
    ensures Linked(Run(f, Initial(clock, policy), actions).log)
  {
    RunKeepsBooks(f, clock, policy, actions);
  }

  /** A request leaves exactly one record when it ends, however it ends, and none before. */
  lemma {:induction false} OneRecordPerRequest(f: Foreign, clock: int, policy: Policy, actions: seq<Action>,
                                               task: string)
    ensures var s := Run(f, Initial(clock, policy), actions);
            && (task in s.done && s.done[task].purpose == ForRequest ==> Count(s.log, IsRecordOf(task)) == 1)
            && (task !in s.done || s.done[task].purpose != ForRequest ==> Count(s.log, IsRecordOf(task)) == 0)
  {
    RunKeepsBooks(f, clock, policy, actions);
  }

  function Sessions(s: System): set<Session> {
    set h | h in s.handOuts :: h.session
  }

  lemma SessionsGrow(s: System, s': System, more: HandOut)
    requires s'.handOuts == s.handOuts + [more]
    ensures Sessions(s') == Sessions(s) + {more.session}
  {
    assert s'.handOuts[|s.handOuts|] == more;
    assert forall h :: h in s.handOuts ==> h in s'.handOuts;
  }

  lemma HandOutIsTallied(s: System, s': System, more: HandOut)
    requires Numbered(s) && s.made == |Sessions(s)| && s'.handOuts == s.handOuts + [more]
    requires if s'.made == s.made then HandedOut(s, more.session)
             else s'.made == s.made + 1 && more.session.number == s.made
    ensures s'.made == |Sessions(s')|
  {
    SessionsGrow(s, s', more);
    HandedOutIsIn(s, more.session);
    if s'.made == s.made {
      assert Sessions(s) + {more.session} == Sessions(s);
    }
  }

  lemma HandedOutIsIn(s: System, x: Session)
    ensures x in Sessions(s) <==> HandedOut(s, x)
    ensures Numbered(s) && x in Sessions(s) ==> x.number < s.made
  {
    if x in Sessions(s) {
      var h :| h in s.handOuts && h.session == x;
      var i :| 0 <= i < |s.handOuts| && s.handOuts[i] == h;
    }
    if i :| 0 <= i < |s.handOuts| && s.handOuts[i].session == x {
      assert s.handOuts[i] in s.handOuts;
    }
  }

  /** Between two states either no session is handed out, or one that was, or a new one. */
  ghost predicate HandsOutOne(s: System, s': System) {
    || (s'.handOuts == s.handOuts && s'.made == s.made)
    || exists more :: s'.handOuts == s.handOuts + [more]
         && if s'.made == s.made then HandedOut(s, more.session)
            else s'.made == s.made + 1 && more.session.number == s.made
  }

  lemma EnterHandsOut(s: System, task: string)
    requires Numbered(s)
    ensures HandsOutOne(s, Entered(s, task))
  {
    var s' := Entered(s, task);
    if s'.handOuts != s.handOuts {
      assert s'.handOuts == s.handOuts + [HandOut(s.session.value, s.clock)];
    }
  }

  lemma ResultHandsOut(s: System, result: Result<Evidence, VerifyError>, keyUsable: bool, again: bool)
    requires s.verifying.Some? && s.verifying.value.task in s.tasks && s.verifying.value.stage.Snapped?
    ensures HandsOutOne(s, JudgedAs(s, result, keyUsable, again))
  {
    var s' := JudgedAs(s, result, keyUsable, again);
    if s'.handOuts != s.handOuts {
      assert s'.handOuts == s.handOuts + [HandOut(s'.session.value, s.clock)];
    }
  }

  lemma EffectHandsOut(f: Foreign, s: System, a: Action)
    requires Numbered(s)
    ensures HandsOutOne(s, Effect(f, s, a))
  {
    if a.Enter? {
      EnterHandsOut(s, a.task);
    } else if a.Judge? && Effect(f, s, a) != s {
      var stage := s.verifying.value.stage;
      ResultHandsOut(s, VerifyNow(f, stage.policy, a.fetched, a.nonce, stage.now), a.keyUsable, a.again);
    }
  }

  lemma StepHandsOut(f: Foreign, s: System, a: Action)
    requires Numbered(s) && s.made == |Sessions(s)|
    ensures var s' := Step(f, s, a); s'.made == |Sessions(s')|
  {
    var s' := Step(f, s, a);
    EffectHandsOut(f, s, a);
    if s'.handOuts == s.handOuts && s'.made == s.made {
      assert Sessions(s') == Sessions(s);
    } else {
      HandOutIsTallied(s, s', s'.handOuts[|s.handOuts|]);
    }
  }

  /** Sessions and verified entries of the ledger match one to one. */
  lemma {:induction false} SessionsAreRecorded(f: Foreign, clock: int, policy: Policy, actions: seq<Action>)
    ensures var s := Run(f, Initial(clock, policy), actions); Count(s.log, IsVerified) == s.made == |Sessions(s)|
  {
    RunKeepsBooks(f, clock, policy, actions);
    if actions != [] {
      var before := actions[..|actions| - 1];
      SessionsAreRecorded(f, clock, policy, before);
      RunKeepsBooks(f, clock, policy, before);
      StepHandsOut(f, Run(f, Initial(clock, policy), before), actions[|actions| - 1]);
    }
  }

  /** Giving up a session never takes a newer one out of the cache: what Invalidate removes is the
      very session the task was handed. */
  lemma {:induction false} InvalidateRemovesOnlyItsOwn(f: Foreign, clock: int, policy: Policy,
                                                       actions: seq<Action>, task: string)
    ensures var s := Run(f, Initial(clock, policy), actions);
            var s' := Step(f, s, Invalidate(task));
            s'.session != s.session ==>
              task in s.tasks && s.tasks[task].progress.Has? && s.session == Some(s.tasks[task].progress.session)
  {
    RunKeepsBooks(f, clock, policy, actions);
  }
}
