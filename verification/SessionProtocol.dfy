/** The verified session shared by all requests, and the policy that may be replaced at any time, as
    a system of steps. One lock guards the session and is held through a whole verification; the
    policy has a lock of its own, and the clock never runs backwards. */
module SessionProtocol {
  import opened Prelude
  import opened TrustPolicy
  import opened Attestation
  import opened LedgerModel
  import opened PolicyRefresh

  /** A session and, as bookkeeping, its number, the build it was verified for, the step at which its
      verification began and the clock when that took its policy snapshot. */
  datatype Session = Session(
    number: nat,
    attestationID: AttestationId,
    expiresAt: int,
    build: Release,
    begunAt: nat,
    pinnedAt: int)

  /** How far a verification has come: waiting for the response, the clock read, the policy snapshot
      taken. The clock is read before the snapshot is taken. */
  datatype Stage =
    | Fetching
    | Clocked(now: int)
    | Snapped(now: int, policy: Policy, at: int)

  /** The holder of the session's lock while it verifies. */
  datatype Verification = Verification(task: string, retried: bool, begunAt: nat, stage: Stage)

  /** What a task wants a session for; a re-verification remembers when it cleared the cache. */
  datatype Purpose = ForRequest | ForWarmUp | ForReverify(clearedAt: nat)

  datatype Progress = Wants | Has(session: Session) | Refused

  datatype Task = Task(purpose: Purpose, progress: Progress)

  /** A session leaving sessionFor, and the clock at its freshness check. */
  datatype HandOut = HandOut(session: Session, time: int)

  datatype System = System(
    clock: int,
    policy: Policy,
    session: Option<Session>,
    verifying: Option<Verification>,
    tasks: map<string, Task>,
    done: map<string, Task>,
    handOuts: seq<HandOut>,
    log: seq<Event>,
    made: nat,
    step: nat)

  datatype Action =
    | Tick(d: nat)
    | SetPolicy(policy: Policy)
    | Start(task: string)
    | StartWarmUp(task: string)
    | StartReverify(task: string)
    | Enter(task: string)
    | Respond(ok: bool)
    | Snapshot
    | Judge(fetched: Option<Fetched>, nonce: Bytes, keyUsable: bool, again: bool)
    | Invalidate(task: string)
    | Finish(task: string, outcome: Outcome)

  function Initial(clock: int, policy: Policy): System {
    System(clock, policy, None, None, map[], map[], [], [], 0, 0)
  }

  function Fresh(s: System): bool {
    s.session.Some? && s.clock < s.session.value.expiresAt
  }

  /** The verification fails: the rejection is recorded, the lock released, the cache left alone. */
  function Reject(s: System): System
    requires s.verifying.Some? && s.verifying.value.task in s.tasks
  {
    var t := s.verifying.value.task;
    s.(verifying := None, log := s.log + [RecordRejected("", s.clock)],
       tasks := s.tasks[t := s.tasks[t].(progress := Refused)])
  }

  /** The verification succeeds: it is recorded, and its session installed and handed out. */
  function Install(s: System, e: Evidence, build: Release): System
    requires s.verifying.Some? && s.verifying.value.task in s.tasks && s.verifying.value.stage.Snapped?
  {
    var v := s.verifying.value;
    var made := Session(s.made, KeyId(e.publicKey), e.expiresAt, build, v.begunAt, v.stage.at);
    s.(verifying := None, session := Some(made), made := s.made + 1,
       log := s.log + [RecordVerified(made.attestationID, s.clock, NoClaims, e.document, e.manifest, s.clock)],
       handOuts := s.handOuts + [HandOut(made, s.clock)],
       tasks := s.tasks[v.task := s.tasks[v.task].(progress := Has(made))])
  }

  function Begin(s: System, task: string, purpose: Purpose): System {
    if task in s.tasks || task in s.done then s else s.(tasks := s.tasks[task := Task(purpose, Wants)])
  }

  function NamedRelease(policy: Policy, revision: string): Release {
    match ReleaseFor(policy.releases, revision)
    case Some(release) => release
    case None => Release(revision, "", "", "")
  }

  function RequestRecord(task: string, id: AttestationId, outcome: Outcome): LedgerModel.Request {
    LedgerModel.Request(task, 0, 0, id, outcome, NoFailure, 0, 0, 0, false)
  }

  /** The critical section of sessionFor, up to where it starts a verification: the cached session is
      handed out if it is still fresh. */
  function Entered(s: System, task: string): System {
    if task !in s.tasks || s.tasks[task].progress != Wants || s.verifying.Some? then s
    else if Fresh(s) then
      s.(handOuts := s.handOuts + [HandOut(s.session.value, s.clock)],
         tasks := s.tasks[task := s.tasks[task].(progress := Has(s.session.value))])
    else s.(verifying := Some(Verification(task, false, s.step, Fetching)))
  }

  /** A task ends. A request leaves its one record, whatever became of it; without a session it can
      only have failed. */
  function Finished(s: System, task: string, outcome: Outcome): System {
    if task !in s.tasks || s.tasks[task].progress == Wants then s
    else
      var t := s.tasks[task];
      var over := s.(tasks := s.tasks - {task}, done := s.done[task := t]);
      if t.purpose != ForRequest then over
      else over.(log := s.log + [Event.RecordRequest(
        if t.progress.Has? then RequestRecord(task, t.progress.session.attestationID, outcome)
        else RequestRecord(task, NoId, Failed))])
  }

  /** The end of a verification: its result, and whether the client could use it. An unpinned release
      may be tried once more, after a refresh. */
  function JudgedAs(s: System, result: Result<Evidence, VerifyError>, keyUsable: bool, again: bool): System
    requires s.verifying.Some? && s.verifying.value.task in s.tasks && s.verifying.value.stage.Snapped?
  {
    var v := s.verifying.value;
    match result
    case Ok(e) =>
      if s.clock < e.expiresAt && keyUsable then Install(s, e, NamedRelease(v.stage.policy, e.sourceRevision))
      else Reject(s)
    case Err(failure) =>
      if failure == UnpinnedRelease && again && !v.retried then
        s.(verifying := Some(v.(retried := true, stage := Fetching)))
      else Reject(s)
  }

  function Judged(f: Foreign, s: System, fetched: Option<Fetched>, nonce: Bytes, keyUsable: bool, again: bool): System {
    if s.verifying.None? || s.verifying.value.task !in s.tasks || !s.verifying.value.stage.Snapped? then s
    else
      var stage := s.verifying.value.stage;
      JudgedAs(s, VerifyNow(f, stage.policy, fetched, nonce, stage.now), keyUsable, again)
  }

  /** What one action does; an action that cannot happen does nothing. */
  function Effect(f: Foreign, s: System, a: Action): System {
    match a
    case Tick(d) => s.(clock := s.clock + d)
    case SetPolicy(policy) => if Acceptable(policy) then s.(policy := policy) else s
    case Start(task) => Begin(s, task, ForRequest)
    case StartWarmUp(task) => Begin(s, task, ForWarmUp)
    case StartReverify(task) =>
      if s.verifying.Some? || task in s.tasks || task in s.done then s
      else Begin(s, task, ForReverify(s.step)).(session := None)
    case Enter(task) => Entered(s, task)
    case Respond(ok) =>
      if s.verifying.None? || s.verifying.value.task !in s.tasks || s.verifying.value.stage != Fetching then s
      else if ok then s.(verifying := Some(s.verifying.value.(stage := Clocked(s.clock))))
      else Reject(s)
    case Snapshot =>
      if s.verifying.None? || !s.verifying.value.stage.Clocked? then s
      else s.(verifying := Some(s.verifying.value.(stage := Snapped(s.verifying.value.stage.now, s.policy, s.clock))))
    case Judge(fetched, nonce, keyUsable, again) => Judged(f, s, fetched, nonce, keyUsable, again)
    case Invalidate(task) =>
      if task !in s.tasks || !s.tasks[task].progress.Has? || s.verifying.Some? then s
      else if s.session.Some? && s.session.value.number == s.tasks[task].progress.session.number then
        s.(session := None)
      else s
    case Finish(task, outcome) => Finished(s, task, outcome)
  }

  function Step(f: Foreign, s: System, a: Action): System {
    Effect(f, s, a).(step := s.step + 1)
  }

  function Run(f: Foreign, s: System, actions: seq<Action>): System {
    if actions == [] then s else Step(f, Run(f, s, actions[..|actions| - 1]), actions[|actions| - 1])
  }
}
