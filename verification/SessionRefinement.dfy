/** The client's call for a session, left uninterrupted, is a run of the steps of the session
    protocol, so what is proved of all runs holds of the client. */
module SessionRefinement {
  import opened Prelude
  import opened TrustPolicy
  import opened Attestation
  import opened LedgerModel
  import opened PolicyRefresh
  import opened SessionProtocol
  import opened ConfidentialClient

  predicate Refreshes(f: Foreign, s: System, last: Option<int>, a: Attempt, derived: Option<Policy>) {
    && VerifyNow(f, s.policy, a.first.fetched, a.first.nonce, a.first.now) == Err(UnpinnedRelease)
    && Grant(last, a.decided, a.remembered).0 && derived.Some? && Acceptable(derived.value)
  }

  function JudgeTry(t: Try, usable: bool, again: bool): Action {
    Judge(t.fetched, t.nonce, usable, again)
  }

  /** The clock never runs backwards during the call. */
  predicate InTime(a: Attempt) {
    a.checked <= a.first.now <= a.second.now <= a.judged
  }

  /** A verification up to its policy snapshot, entered at clock `from`. */
  function UpToSnapshot(from: int, t: Try): seq<Action>
    requires from <= t.now
  {
    [Tick(t.now - from), Respond(true), Snapshot]
  }

  /** The steps of one call that nothing interrupts. */
  function Steps(f: Foreign, s: System, task: string, last: Option<int>, a: Attempt,
                 derived: Option<Policy>): seq<Action>
    requires InTime(a)
  {
    if Fresh(s) then [Enter(task)]
    else [Enter(task)] + UpToSnapshot(a.checked, a.first) + Judging(f, s, last, a, derived)
  }

  function Judging(f: Foreign, s: System, last: Option<int>, a: Attempt, derived: Option<Policy>): seq<Action>
    requires InTime(a)
  {
    if Refreshes(f, s, last, a, derived) then
      [JudgeTry(a.first, a.usable, true), SetPolicy(derived.value)] + UpToSnapshot(a.first.now, a.second)
      + [Tick(a.judged - a.second.now), JudgeTry(a.second, a.usable, false)]
    else [Tick(a.judged - a.first.now), JudgeTry(a.first, a.usable, false)]
  }

  lemma {:induction false} RunJoins(f: Foreign, s: System, first: seq<Action>, rest: seq<Action>)
    ensures Run(f, s, first + rest) == Run(f, Run(f, s, first), rest)
  {
    if rest == [] {
      assert first + rest == first;
    } else {
      var most, a := rest[..|rest| - 1], rest[|rest| - 1];
      RunJoins(f, s, first, most);
      assert (first + rest)[..|first + rest| - 1] == first + most;
    }
  }

  lemma RunOfTwo(f: Foreign, s: System, a: Action, b: Action)
    ensures Run(f, s, [a]) == Step(f, s, a)
    ensures Run(f, s, [a, b]) == Step(f, Step(f, s, a), b)
  {
    assert [a][..0] == [] && [a, b][..1] == [a];
    assert Run(f, s, []) == s;
  }

  /** Where a verification stands once it has taken its snapshot. */
  function AtSnapshot(s: System, now: int): System
    requires s.verifying.Some?
  {
    s.(clock := now, verifying := Some(s.verifying.value.(stage := Snapped(now, s.policy, now))), step := s.step + 3)
  }

  lemma SnapshotSteps(f: Foreign, s: System, t: Try)
    requires s.clock <= t.now
    requires s.verifying.Some? && s.verifying.value.task in s.tasks && s.verifying.value.stage == Fetching
    ensures Run(f, s, UpToSnapshot(s.clock, t)) == AtSnapshot(s, t.now)
  {
    var ticked := Step(f, s, Tick(t.now - s.clock));
    RunOfTwo(f, s, Tick(t.now - s.clock), Respond(true));
    RunOfTwo(f, Step(f, ticked, Respond(true)), Snapshot, Snapshot);
    assert UpToSnapshot(s.clock, t) == [Tick(t.now - s.clock), Respond(true)] + [Snapshot];
    RunJoins(f, s, [Tick(t.now - s.clock), Respond(true)], [Snapshot]);
  }

  /** The verification ends: the clock moves on and the result is judged. */
  lemma JudgeSteps(f: Foreign, s: System, t: Try, judged: int, usable: bool)
    requires s.clock <= judged && s.verifying.Some? && s.verifying.value.task in s.tasks
    ensures Run(f, s, [Tick(judged - s.clock), JudgeTry(t, usable, false)])
         == Judged(f, s.(clock := judged, step := s.step + 1), t.fetched, t.nonce, usable, false).(step := s.step + 2)
  {
    RunOfTwo(f, s, Tick(judged - s.clock), JudgeTry(t, usable, false));
    assert Step(f, s, Tick(judged - s.clock)) == s.(clock := judged, step := s.step + 1);
  }

  ghost predicate OneMore(log: seq<Event>, log': seq<Event>, which: Event -> bool) {
    |log'| == |log| + 1 && log'[..|log|] == log && which(log'[|log|])
  }

  /** How the call ends, as the client sees it. */
  ghost predicate Ends(s: System, s': System, task: string, result: Result<Evidence, VerifyError>,
                       policy: Policy, a: Attempt) {
    && s'.verifying == None && s'.policy == policy && s'.done == s.done
    && task in s.tasks && task in s'.tasks && s'.tasks[task].purpose == s.tasks[task].purpose
    && if Succeeds(result, a) then
         && s'.session.Some? && s'.tasks[task].progress == Has(s'.session.value)
         && s'.session.value.attestationID == KeyId(result.value.publicKey)
         && s'.session.value.expiresAt == result.value.expiresAt
         && OneMore(s.log, s'.log, IsVerified)
       else
         && s'.session == s.session && s'.tasks[task].progress == Refused
         && OneMore(s.log, s'.log, IsRejected)
  }

  lemma JudgedEnds(f: Foreign, s: System, s': System, task: string, t: Try, a: Attempt, begun: System, policy: Policy)
    requires s.verifying.Some? && s.verifying.value.task == task && task in s.tasks && s.clock == a.judged
    requires s.verifying.value.stage.Snapped? && s.verifying.value.stage.policy == policy == s.policy
    requires s.verifying.value.stage.now == t.now
    requires begun.session == s.session && begun.log == s.log && begun.tasks == s.tasks && begun.done == s.done
    requires s' == Judged(f, s, t.fetched, t.nonce, a.usable, false).(step := s'.step)
    ensures Ends(begun, s', task, VerifyNow(f, policy, t.fetched, t.nonce, t.now), policy, a)
  {
    var result := VerifyNow(f, policy, t.fetched, t.nonce, t.now);
    if Succeeds(result, a) {
      assert s' == Install(s, result.value, NamedRelease(policy, result.value.sourceRevision)).(step := s'.step);
    } else {
      assert s' == Reject(s).(step := s'.step);
    }
  }

  /** A fresh verification for the task, when it has taken its snapshot. */
  function Opened(s: System, task: string, now: int): System {
    s.(clock := now, verifying := Some(Verification(task, false, s.step, Snapped(now, s.policy, now))),
       step := s.step + 4)
  }

  lemma OpeningSteps(f: Foreign, s: System, task: string, t: Try)
    requires s.clock <= t.now && !Fresh(s) && s.verifying.None? && task in s.tasks && s.tasks[task].progress == Wants
    ensures Run(f, s, [Enter(task)] + UpToSnapshot(s.clock, t)) == Opened(s, task, t.now)
  {
    var entered := Step(f, s, Enter(task));
    RunOfTwo(f, s, Enter(task), Enter(task));
    SnapshotSteps(f, entered, t);
    RunJoins(f, s, [Enter(task)], UpToSnapshot(s.clock, t));
  }

  lemma EndingSteps(f: Foreign, s: System, task: string, t: Try, a: Attempt, begun: System, policy: Policy,
                    actions: seq<Action>)
    requires policy == s.policy && t.now <= a.judged
    requires actions == [Tick(a.judged - t.now), JudgeTry(t, a.usable, false)]
    requires s.clock == t.now && begun.session == s.session && begun.log == s.log && begun.tasks == s.tasks
    requires begun.done == s.done
    requires s.verifying.Some? && s.verifying.value.task == task && task in s.tasks
    requires s.verifying.value.stage == Snapped(t.now, s.policy, t.now)
    ensures Ends(begun, Run(f, s, actions), task, VerifyNow(f, policy, t.fetched, t.nonce, t.now), policy, a)
  {
    JudgeSteps(f, s, t, a.judged, a.usable);
    JudgedEnds(f, s.(clock := a.judged, step := s.step + 1), Run(f, s, actions), task, t, a, begun, policy);
  }

  /** After an unpinned release: the refreshed policy is in force and the verification starts over. */
  function Refreshed(s: System, derived: Policy): System
    requires s.verifying.Some?
  {
    s.(policy := derived, verifying := Some(s.verifying.value.(retried := true, stage := Fetching)), step := s.step + 2)
  }

  lemma RefreshSteps(f: Foreign, s: System, t: Try, usable: bool, derived: Policy)
    requires Acceptable(derived) && s.verifying.Some? && s.verifying.value.task in s.tasks
    requires !s.verifying.value.retried && s.verifying.value.stage == Snapped(t.now, s.policy, t.now)
    requires VerifyNow(f, s.policy, t.fetched, t.nonce, t.now) == Err(UnpinnedRelease)
    ensures Run(f, s, [JudgeTry(t, usable, true), SetPolicy(derived)]) == Refreshed(s, derived)
  {
    RunOfTwo(f, s, JudgeTry(t, usable, true), SetPolicy(derived));
  }

  /** A call whose first verification met an unpinned release that a refresh brought in. */
  lemma RefreshedStepsEnd(f: Foreign, s: System, task: string, a: Attempt, derived: Policy, begun: System,
                          actions: seq<Action>)
    requires begun.session == s.session && begun.log == s.log && begun.tasks == s.tasks && begun.done == s.done
    requires InTime(a) && s.clock == a.first.now && Acceptable(derived) && task in s.tasks
    requires s.verifying.Some? && s.verifying.value.task == task && !s.verifying.value.retried
    requires s.verifying.value.stage == Snapped(a.first.now, s.policy, a.first.now)
    requires VerifyNow(f, s.policy, a.first.fetched, a.first.nonce, a.first.now) == Err(UnpinnedRelease)
    requires actions == [JudgeTry(a.first, a.usable, true), SetPolicy(derived)] + UpToSnapshot(a.first.now, a.second)
                        + [Tick(a.judged - a.second.now), JudgeTry(a.second, a.usable, false)]
    ensures Ends(begun, Run(f, s, actions), task,
                 VerifyNow(f, derived, a.second.fetched, a.second.nonce, a.second.now), derived, a)
  {
    var ending := [Tick(a.judged - a.second.now), JudgeTry(a.second, a.usable, false)];
    RefreshedStepsReach(f, s, a, derived, ending);
    EndingSteps(f, AtSnapshot(Refreshed(s, derived), a.second.now), task, a.second, a, begun, derived, ending);
  }

  lemma RefreshedStepsReach(f: Foreign, s: System, a: Attempt, derived: Policy, ending: seq<Action>)
    requires InTime(a) && s.clock == a.first.now && Acceptable(derived)
    requires s.verifying.Some? && s.verifying.value.task in s.tasks && !s.verifying.value.retried
    requires s.verifying.value.stage == Snapped(a.first.now, s.policy, a.first.now)
    requires VerifyNow(f, s.policy, a.first.fetched, a.first.nonce, a.first.now) == Err(UnpinnedRelease)
    ensures Run(f, s, [JudgeTry(a.first, a.usable, true), SetPolicy(derived)]
                      + UpToSnapshot(a.first.now, a.second) + ending)
         == Run(f, AtSnapshot(Refreshed(s, derived), a.second.now), ending)
  {
    var middle := [JudgeTry(a.first, a.usable, true), SetPolicy(derived)];
    var fetch := UpToSnapshot(a.first.now, a.second);
    RefreshSteps(f, s, a.first, a.usable, derived);
    RunJoins(f, s, middle, fetch);
    RunJoins(f, s, middle + fetch, ending);
    SnapshotSteps(f, Refreshed(s, derived), a.second);
  }

  lemma ResultIs(f: Foreign, s: System, last: Option<int>, a: Attempt, derived: Option<Policy>)
    ensures VerifierResult(f, s.policy, last, a, derived)
         == if Refreshes(f, s, last, a, derived)
            then (VerifyNow(f, derived.value, a.second.fetched, a.second.nonce, a.second.now), derived.value)
            else (VerifyNow(f, s.policy, a.first.fetched, a.first.nonce, a.first.now), s.policy)
  {
  }

  lemma JudgingEnds(f: Foreign, s: System, reached: System, task: string, last: Option<int>, a: Attempt,
                    derived: Option<Policy>)
    requires InTime(a) && task in s.tasks && reached == Opened(s, task, a.first.now)
    ensures var (result, policy) := VerifierResult(f, s.policy, last, a, derived);
            Ends(s, Run(f, reached, Judging(f, s, last, a, derived)), task, result, policy, a)
  {
    ResultIs(f, s, last, a, derived);
    if Refreshes(f, s, last, a, derived) {
      RefreshedStepsEnd(f, reached, task, a, derived.value, s, Judging(f, s, last, a, derived));
    } else {
      EndingSteps(f, reached, task, a.first, a, s, s.policy, Judging(f, s, last, a, derived));
    }
  }

  /** A call that has to verify ends as the client's method says. */
  lemma {:induction false} StepsEnd(f: Foreign, s: System, task: string, last: Option<int>, a: Attempt,
                                    derived: Option<Policy>)
    requires InTime(a) && s.clock == a.checked && !Fresh(s) && s.verifying.None?
    requires task in s.tasks && s.tasks[task].progress == Wants
    ensures var (result, policy) := VerifierResult(f, s.policy, last, a, derived);
            Ends(s, Run(f, s, Steps(f, s, task, last, a, derived)), task, result, policy, a)
  {
    StepsReach(f, s, task, last, a, derived);
    JudgingEnds(f, s, Opened(s, task, a.first.now), task, last, a, derived);
  }

  lemma StepsReach(f: Foreign, s: System, task: string, last: Option<int>, a: Attempt, derived: Option<Policy>)
    requires InTime(a) && s.clock == a.checked && !Fresh(s) && s.verifying.None?
    requires task in s.tasks && s.tasks[task].progress == Wants
    ensures Run(f, s, Steps(f, s, task, last, a, derived))
         == Run(f, Opened(s, task, a.first.now), Judging(f, s, last, a, derived))
  {
    OpeningSteps(f, s, task, a.first);
    RunJoins(f, s, [Enter(task)] + UpToSnapshot(a.checked, a.first), Judging(f, s, last, a, derived));
  }

  /** The client shows the session, the policy and the ledger's totals as the protocol's state has them. */
  ghost predicate Matches(v: ClientView, s: System) {
    && (v.session == match s.session case None => None case Some(x) => Some(Handle(x.attestationID, x.expiresAt)))
    && v.policy == s.policy && Totals(v.ledger, s.log)
  }

  ghost predicate Totals(l: LedgerState, log: seq<Event>) {
    && l.verifiedTotal == Count(log, IsVerified) % U64 && l.rejectedTotal == Count(log, IsRejected) % U64
    && l.encryptedTotal == Count(log, IsEncrypted) % U64 && l.failedTotal == Count(log, IsFailed) % U64
  }

  /** One entry more keeps the totals in step, whatever else it says. */
  lemma TotalsFollow(l: LedgerState, log: seq<Event>, e: Event, logged: Event)
    requires Totals(l, log)
    requires IsVerified(e) == IsVerified(logged) && IsRejected(e) == IsRejected(logged)
    requires IsEncrypted(e) == IsEncrypted(logged) && IsFailed(e) == IsFailed(logged)
    ensures Totals(Apply(l, e), log + [logged])
  {
    BumpCounts(Count(log, IsVerified));
    BumpCounts(Count(log, IsRejected));
    BumpCounts(Count(log, IsEncrypted));
    BumpCounts(Count(log, IsFailed));
    assert (log + [logged])[..|log|] == log;
  }

  /** The state a task leaves when its call for a session is over. */
  ghost predicate Answered(s: System, s': System, task: string, got: bool) {
    && s'.verifying.None? && s'.done == s.done && task in s.tasks && task in s'.tasks
    && s'.tasks[task].purpose == s.tasks[task].purpose
    && if got then s'.session.Some? && s'.tasks[task].progress == Has(s'.session.value)
       else s'.tasks[task].progress == Refused
  }

  /** A task that asks for a session while nobody verifies does in the protocol what the client's method
      does: it gets one when the method returns one, and the two states still match. */
  lemma SessionForRefines(f: Foreign, v: ClientView, s: System, task: string, last: Option<int>, a: Attempt,
                          derived: Option<Policy>)
    requires Matches(v, s) && InTime(a) && s.clock == a.checked && s.verifying.None?
    requires task in s.tasks && s.tasks[task].progress == Wants
    ensures var (after, got) := AfterSessionFor(f, v, last, a, derived);
            var s' := Run(f, s, Steps(f, s, task, last, a, derived));
            Matches(after, s') && Answered(s, s', task, got)
  {
    if Fresh(s) {
      RunOfTwo(f, s, Enter(task), Enter(task));
    } else {
      StepsEnd(f, s, task, last, a, derived);
      var (result, policy) := VerifierResult(f, v.policy, last, a, derived);
      EndsMatching(s, Run(f, s, Steps(f, s, task, last, a, derived)), task, result, policy, a, v);
    }
  }

  lemma EndsMatching(s: System, s': System, task: string, result: Result<Evidence, VerifyError>, policy: Policy,
                     a: Attempt, v: ClientView)
    requires Matches(v, s) && Ends(s, s', task, result, policy, a)
    ensures var session := if !Succeeds(result, a) then v.session
                           else Some(Handle(KeyId(result.value.publicKey), result.value.expiresAt));
            Matches(ClientView(session, policy, Apply(v.ledger, OutcomeEvent(result, a))), s')
    ensures Answered(s, s', task, Succeeds(result, a))
  {
    assert s'.log == s.log + [s'.log[|s.log|]];
    TotalsFollow(v.ledger, s.log, OutcomeEvent(result, a), s'.log[|s.log|]);
  }

  /** A re-verification clears the protocol's cache and asks anew, as the client's method does. */
  lemma ReverifyRefines(f: Foreign, v: ClientView, s: System, task: string, last: Option<int>, a: Attempt,
                        derived: Option<Policy>)
    requires Matches(v, s) && InTime(a) && s.clock == a.checked && s.verifying.None?
    requires task !in s.tasks && task !in s.done
    ensures var (after, got) := AfterSessionFor(f, v.(session := None), last, a, derived);
            var cleared := Step(f, s, StartReverify(task));
            var s' := Run(f, s, [StartReverify(task)] + Steps(f, cleared, task, last, a, derived));
            && task in cleared.tasks && cleared.tasks[task].purpose == ForReverify(s.step) && cleared.session.None?
            && Matches(after, s') && Answered(cleared, s', task, got)
  {
    var cleared := Step(f, s, StartReverify(task));
    RunOfTwo(f, s, StartReverify(task), StartReverify(task));
    RunJoins(f, s, [StartReverify(task)], Steps(f, cleared, task, last, a, derived));
    SessionForRefines(f, v.(session := None), cleared, task, last, a, derived);
  }

  /** A warm-up asks as a request does, and keeps what is cached. */
  lemma WarmUpRefines(f: Foreign, v: ClientView, s: System, task: string, last: Option<int>, a: Attempt,
                      derived: Option<Policy>)
    requires Matches(v, s) && InTime(a) && s.clock == a.checked && s.verifying.None?
    requires task !in s.tasks && task !in s.done
    ensures var (after, got) := AfterSessionFor(f, v, last, a, derived);
            var started := Step(f, s, StartWarmUp(task));
            var s' := Run(f, s, [StartWarmUp(task)] + Steps(f, started, task, last, a, derived));
            && started.session == s.session && task in started.tasks && started.tasks[task].purpose == ForWarmUp
            && Matches(after, s') && Answered(started, s', task, got)
  {
    var started := Step(f, s, StartWarmUp(task));
    RunOfTwo(f, s, StartWarmUp(task), StartWarmUp(task));
    RunJoins(f, s, [StartWarmUp(task)], Steps(f, started, task, last, a, derived));
    SessionForRefines(f, v, started, task, last, a, derived);
  }

  /** A task that is no request ends without a record. */
  lemma WarmUpLeavesNoRecord(f: Foreign, s: System, task: string, outcome: Outcome)
    requires task in s.tasks && s.tasks[task].purpose != ForRequest && s.tasks[task].progress != Wants
    ensures var s' := Step(f, s, Finish(task, outcome));
            s'.log == s.log && s'.session == s.session && s'.done == s.done[task := s.tasks[task]]
  {
  }

  /** The response does not arrive: the call is over, with a rejection. */
  lemma FetchFails(f: Foreign, s: System, task: string)
    requires !Fresh(s) && s.verifying.None? && task in s.tasks && s.tasks[task].progress == Wants
    ensures var s' := Run(f, s, [Enter(task), Respond(false)]);
            && s'.session == s.session && s'.policy == s.policy && Answered(s, s', task, false)
            && s'.log == s.log + [RecordRejected("", s.clock)]
  {
    RunOfTwo(f, s, Enter(task), Respond(false));
  }

  lemma ClientFetchFails(f: Foreign, v: ClientView, last: Option<int>, a: Attempt, derived: Option<Policy>)
    requires !HasFresh(v, a.checked) && a.first.fetched.None?
    ensures AfterSessionFor(f, v, last, a, derived)
         == (v.(ledger := Apply(v.ledger, Event.RecordRejected(a.failure, a.recorded))), false)
  {
  }

  /** A response that does not arrive ends the call in the protocol as in the client. */
  lemma FailedFetchRefines(f: Foreign, v: ClientView, s: System, s': System, task: string, last: Option<int>,
                           a: Attempt, derived: Option<Policy>)
    requires Matches(v, s) && s.clock == a.checked && s.verifying.None? && !Fresh(s)
    requires task in s.tasks && s.tasks[task].progress == Wants && a.first.fetched.None?
    requires s' == Run(f, s, [Enter(task), Respond(false)])
    ensures var (after, got) := AfterSessionFor(f, v, last, a, derived);
            !got && Matches(after, s') && Answered(s, s', task, false)
  {
    FetchFails(f, s, task);
    ClientFetchFails(f, v, last, a, derived);
    TotalsFollow(v.ledger, s.log, Event.RecordRejected(a.failure, a.recorded), RecordRejected("", s.clock));
  }

  /** A request that is sent: it starts, asks for a session, and gives that session up again if the
      Gateway refuses its key. */
  lemma DoRefines(f: Foreign, v: ClientView, s: System, task: string, last: Option<int>, a: Attempt,
                  derived: Option<Policy>, exchange: Exchange) returns (actions: seq<Action>)
    requires Matches(v, s) && InTime(a) && s.clock == a.checked && s.verifying.None?
    requires task !in s.tasks && task !in s.done
    ensures var (after, key) := AfterDo(f, v, last, a, derived, exchange);
            Sent(Run(f, s, actions), task, after, key)
    ensures var asked := [Start(task)] + Steps(f, Step(f, s, Start(task)), task, last, a, derived);
            if exchange == KeyConfigError && AfterSessionFor(f, v, last, a, derived).1 then
              actions == asked + [Invalidate(task)] && Run(f, s, actions).session.None?
            else actions == asked
  {
    var started := Step(f, s, Start(task));
    var asking := Steps(f, started, task, last, a, derived);
    actions := [Start(task)] + asking;
    RunOfTwo(f, s, Start(task), Start(task));
    RunJoins(f, s, [Start(task)], asking);
    SessionForRefines(f, v, started, task, last, a, derived);
    if AfterSessionFor(f, v, last, a, derived).1 && exchange == KeyConfigError {
      var sent := Run(f, s, actions);
      RunJoins(f, s, actions, [Invalidate(task)]);
      RunOfTwo(f, sent, Invalidate(task), Invalidate(task));
      InvalidateRefines(f, sent, task, AfterSessionFor(f, v, last, a, derived).0);
      actions := actions + [Invalidate(task)];
    }
  }

  /** Giving up the session that was just handed out empties the protocol's cache as it does the client's. */
  lemma InvalidateRefines(f: Foreign, s: System, task: string, v: ClientView)
    requires Matches(v, s) && s.verifying.None? && s.session.Some?
    requires task in s.tasks && s.tasks[task].progress == Has(s.session.value)
    ensures var s' := Step(f, s, Invalidate(task));
            Matches(v.(session := None), s') && s'.verifying.None? && s'.tasks == s.tasks
  {
  }

  /** The protocol after the sending: the task is answered, and names the key that was used. */
  ghost predicate Sent(s: System, task: string, after: ClientView, key: Option<AttestationId>) {
    && Matches(after, s) && s.verifying.None? && task in s.tasks && s.tasks[task].purpose == ForRequest
    && if key.Some? then s.tasks[task].progress.Has? && s.tasks[task].progress.session.attestationID == key.value
       else s.tasks[task].progress == Refused
  }

  /** A whole exchange, with its record: the protocol's history ends with a record of the same request,
      key and outcome, and the states still match. */
  lemma ExchangeRefines(f: Foreign, v: ClientView, s: System, last: Option<int>, a: Attempt, derived: Option<Policy>,
                        exchange: Exchange, record: LedgerModel.Request) returns (actions: seq<Action>)
    requires Matches(v, s) && InTime(a) && s.clock == a.checked && s.verifying.None?
    requires record.id !in s.tasks && record.id !in s.done
    requires var key := AfterDo(f, v, last, a, derived, exchange).1;
             && record.attestationID == (if key.Some? then key.value else NoId)
             && (record.outcome == Encrypted ==> key.Some?)
    ensures var after := AfterDo(f, v, last, a, derived, exchange).0;
            var s' := Run(f, s, actions);
            && Matches(after.(ledger := Apply(after.ledger, Event.RecordRequest(record))), s')
            && s'.verifying.None? && record.id in s'.done && record.id !in s'.tasks
            && s'.log != []
            && s'.log[|s'.log| - 1]
               == Event.RecordRequest(RequestRecord(record.id, record.attestationID, record.outcome))
  {
    var task := record.id;
    var (after, key) := AfterDo(f, v, last, a, derived, exchange);
    var sending := DoRefines(f, v, s, task, last, a, derived, exchange);
    var sent := Run(f, s, sending);
    actions := sending + [Finish(task, record.outcome)];
    RunJoins(f, s, sending, [Finish(task, record.outcome)]);
    RunOfTwo(f, sent, Finish(task, record.outcome), Finish(task, record.outcome));
    FinishRefines(f, sent, task, after, key, record);
  }

  lemma FinishRefines(f: Foreign, s: System, task: string, v: ClientView, key: Option<AttestationId>,
                      record: LedgerModel.Request)
    requires Sent(s, task, v, key) && record.attestationID == (if key.Some? then key.value else NoId)
    requires record.outcome == Encrypted ==> key.Some?
    ensures var s' := Step(f, s, Finish(task, record.outcome));
            && Matches(v.(ledger := Apply(v.ledger, Event.RecordRequest(record))), s')
            && s'.verifying.None? && task in s'.done && task !in s'.tasks
            && s'.log == s.log + [Event.RecordRequest(RequestRecord(task, record.attestationID, record.outcome))]
  {
    TotalsFollow(v.ledger, s.log, Event.RecordRequest(record),
                 Event.RecordRequest(RequestRecord(task, record.attestationID, record.outcome)));
  }
}
