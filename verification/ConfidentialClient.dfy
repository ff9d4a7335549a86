/** The client that owns the verified session: it hands the session out while it is fresh, verifies
    again when it is not, and gives it up when the Gateway's key no longer fits. */
module ConfidentialClient {
  import opened Prelude
  import opened TrustPolicy
  import opened Attestation
  import opened LedgerModel
  import opened Ledger
  import opened PolicyRefresh

  class VerifiedSession {
    const attestationID: AttestationId
    const expiresAt: int

    constructor (attestationID: AttestationId, expiresAt: int)
      ensures this.attestationID == attestationID && this.expiresAt == expiresAt
    {
      this.attestationID, this.expiresAt := attestationID, expiresAt;
    }
  }

  /** What one call for a session meets: the clock at each of its readings, the answers to its one or
      two verifications, the policy a refresh brings, and whether the attested key can be used. */
  datatype Attempt = Attempt(
    checked: int,
    first: Try,
    decided: int,
    remembered: int,
    derived: Option<PolicyRef>,
    second: Try,
    judged: int,
    usable: bool,
    failure: string,
    recorded: int)

  /** What the verifier makes of an attempt, and the policy it leaves in force. */
  function VerifierResult(f: Foreign, policy: Policy, last: Option<int>, a: Attempt, derived: Option<Policy>):
    (Result<Evidence, VerifyError>, Policy)
  {
    var initial := VerifyNow(f, policy, a.first.fetched, a.first.nonce, a.first.now);
    if initial == Err(UnpinnedRelease) && Grant(last, a.decided, a.remembered).0
       && derived.Some? && Acceptable(derived.value) then
      (VerifyNow(f, derived.value, a.second.fetched, a.second.nonce, a.second.now), derived.value)
    else (initial, policy)
  }

  function ValueOfAny(p: Option<PolicyRef>): Option<Policy>
    reads if p.Some? then set c | c in p.value.cells else {}
  {
    if p.Some? then Some(ValueOf(p.value)) else None
  }

  /** An attempt yields a session only from evidence that is still valid when it is used. */
  predicate Succeeds(verdict: Result<Evidence, VerifyError>, a: Attempt) {
    verdict.Ok? && a.judged < verdict.value.expiresAt && a.usable
  }

  function VerifiedEvent(e: Evidence, recorded: int): Event {
    Event.RecordVerified(KeyId(e.publicKey), recorded, Claims(e.attestedAt, e.expiresAt, e.publicKey, e.sourceRevision),
                         e.document, e.manifest, recorded)
  }

  function OutcomeEvent(result: Result<Evidence, VerifyError>, a: Attempt): Event {
    if Succeeds(result, a) then VerifiedEvent(result.value, a.recorded) else Event.RecordRejected(a.failure, a.recorded)
  }

  /** How the encrypted exchange of one request goes. */
  datatype Exchange = KeyConfigError | OtherError | Responded

  datatype Handle = Handle(attestationID: AttestationId, expiresAt: int)

  /** A client as a value. */
  datatype ClientView = ClientView(session: Option<Handle>, policy: Policy, ledger: LedgerState)

  predicate HasFresh(v: ClientView, now: int) {
    v.session.Some? && now < v.session.value.expiresAt
  }

  /** A call for a session: the client after it, and whether it yields one, which is then the cached one.
      A failed call leaves the cache as it was. */
  function AfterSessionFor(f: Foreign, v: ClientView, last: Option<int>, a: Attempt, derived: Option<Policy>):
    (ClientView, bool)
  {
    var (result, policy) := VerifierResult(f, v.policy, last, a, derived);
    if HasFresh(v, a.checked) then (v, true)
    else if Succeeds(result, a) then
      (ClientView(Some(Handle(KeyId(result.value.publicKey), result.value.expiresAt)), policy,
                  Apply(v.ledger, VerifiedEvent(result.value, a.recorded))), true)
    else (ClientView(v.session, policy, Apply(v.ledger, Event.RecordRejected(a.failure, a.recorded))), false)
  }

  /** The sending of one envelope: the client after it, and the key it was encrypted to, if any. */
  function AfterDo(f: Foreign, v: ClientView, last: Option<int>, a: Attempt, derived: Option<Policy>,
                   exchange: Exchange):
    (ClientView, Option<AttestationId>)
  {
    var (after, got) := AfterSessionFor(f, v, last, a, derived);
    if !got then (after, None)
    else (if exchange == KeyConfigError then after.(session := None) else after,
          Some(after.session.value.attestationID))
  }

  /** What a call for a session does, clause by clause: a fresh session is handed out and nothing changes;
      otherwise the newest entry of the ledger names the session that the call yields, or is a rejection. */
  lemma SessionForMeaning(f: Foreign, v: ClientView, last: Option<int>, a: Attempt, derived: Option<Policy>)
    ensures var (after, got) := AfterSessionFor(f, v, last, a, derived);
            var (result, policy) := VerifierResult(f, v.policy, last, a, derived);
            if v.session.Some? && a.checked < v.session.value.expiresAt then after == v && got
            else
              && after.policy == policy && (got <==> result.Ok? && a.judged < result.value.expiresAt && a.usable)
              && (got ==> after.session == Some(Handle(KeyId(result.value.publicKey), result.value.expiresAt)))
              && (!got ==> after.session == v.session)
    ensures var (after, got) := AfterSessionFor(f, v, last, a, derived);
            !(v.session.Some? && a.checked < v.session.value.expiresAt) ==>
              && after.ledger.requests == v.ledger.requests
              && if got then NewestVerifies(after, VerifierResult(f, v.policy, last, a, derived).0.value, a.recorded)
                 else NewestRejects(after.ledger, a)
  {
  }

  ghost predicate NewestVerifies(v: ClientView, e: Evidence, recorded: int) {
    && v.ledger.attestations != [] && v.session.Some?
    && var newest := v.ledger.attestations[|v.ledger.attestations| - 1];
       && newest.id == v.session.value.attestationID && newest.outcome == Verified && newest.verifiedAt == recorded
       && newest.claims == Claims(e.attestedAt, e.expiresAt, e.publicKey, e.sourceRevision)
       && newest.document == e.document && newest.manifest == e.manifest
  }

  ghost predicate NewestRejects(l: LedgerState, a: Attempt) {
    && l.attestations != []
    && var newest := l.attestations[|l.attestations| - 1];
       newest.outcome == Rejected && newest.failure == a.failure && newest.verifiedAt == a.recorded
  }

  /** What sending an envelope does beyond the call for a session: a key that the Gateway refuses is given
      up, and nothing else changes; the key named is that of the session the call yielded. */
  lemma DoMeaning(f: Foreign, v: ClientView, last: Option<int>, a: Attempt, derived: Option<Policy>,
                  exchange: Exchange)
    ensures var (kept, got) := AfterSessionFor(f, v, last, a, derived);
            var (after, key) := AfterDo(f, v, last, a, derived, exchange);
            && (got && exchange == KeyConfigError ==> after.session.None?)
            && (!got || exchange != KeyConfigError ==> after == kept)
            && after.policy == kept.policy && after.ledger == kept.ledger
            && (key.Some? <==> got) && (got ==> kept.session.Some? && key.value == kept.session.value.attestationID)
  {
  }

  class Client {
    const verifier: RefreshingVerifier
    const ledger: Ledger
    var session: VerifiedSession?

    constructor (verifier: RefreshingVerifier, ledger: Ledger)
      ensures this.verifier == verifier && this.ledger == ledger && session == null
    {
      this.verifier, this.ledger, session := verifier, ledger, null;
    }

    function PolicyValue(): Policy
      reads verifier, verifier.inner, set c | c in verifier.inner.policy.cells
    {
      ValueOf(verifier.inner.policy)
    }

    function View(): ClientView
      requires ledger.Valid()
      reads this, ledger, ledger.attestations, ledger.requests, ledger.Repr
      reads verifier, verifier.inner, set c | c in verifier.inner.policy.cells
    {
      ClientView(if session == null then None else Some(Handle(session.attestationID, session.expiresAt)),
                 PolicyValue(), ledger.State())
    }

    /** The verifier's answer, as a value. */
    method VerifyNew(f: Foreign, a: Attempt) returns (verdict: Result<Evidence, VerifyError>)
      requires verifier.inner.Settled() && OfItsOwn(verifier.inner, a.derived)
      modifies verifier`lastRefresh, verifier.inner, CellsOf(a.derived)`pcrs
      ensures verifier.inner.Settled()
      ensures (verdict, PolicyValue())
           == VerifierResult(f, old(PolicyValue()), old(verifier.lastRefresh), a, old(ValueOfAny(a.derived)))
    {
      ghost var held, brought := verifier.inner.policy.cells, if a.derived.Some? then a.derived.value.cells else [];
      ghost var heldReleases, broughtReleases := ReleasesOf(held), ReleasesOf(brought);
      var verifications, refreshes;
      verdict, verifications, refreshes := verifier.Verify(f, a.first, a.decided, a.remembered, a.derived, a.second);
      assert ReleasesOf(held) == heldReleases && ReleasesOf(brought) == broughtReleases;
    }

    /** The session to use now. A cached one is handed out while it is fresh; otherwise there is
        exactly one new entry in the ledger, and a new session if and only if the attempt succeeds.
        A failed attempt leaves the cache as it was. */
    method SessionFor(f: Foreign, a: Attempt) returns (s: VerifiedSession?)
      requires ledger.Valid() && verifier.inner.Settled() && OfItsOwn(verifier.inner, a.derived)
      modifies this, verifier`lastRefresh, verifier.inner, CellsOf(a.derived)`pcrs, ledger, ledger.Repr, ledger.store
      ensures ledger.Valid() && verifier.inner.Settled()
      ensures (View(), s != null)
           == AfterSessionFor(f, old(View()), old(verifier.lastRefresh), a, old(ValueOfAny(a.derived)))
      ensures if s == null || old(HasFresh(View(), a.checked)) then session == old(session) else fresh(session)
      ensures s != null ==> s == session
      ensures old(session != null && a.checked < session.expiresAt) ==> s == old(session) && View() == old(View())
    {
      if session != null && a.checked < session.expiresAt {
        return session;
      }
      var verdict := VerifyNew(f, a);
      s := Adopt(verdict, a);
    }

    /** Records what the verifier answered and, if the client can use it, makes it the session. */
    method Adopt(verdict: Result<Evidence, VerifyError>, a: Attempt) returns (s: VerifiedSession?)
      requires ledger.Valid() && verifier.inner.Settled()
      modifies this, ledger, ledger.Repr, ledger.store
      ensures ledger.Valid() && verifier.inner.Settled() && PolicyValue() == old(PolicyValue())
      ensures ledger.State() == Apply(old(ledger.State()), OutcomeEvent(verdict, a))
      ensures Succeeds(verdict, a) ==>
                && s != null && fresh(s) && session == s
                && s.attestationID == KeyId(verdict.value.publicKey) && s.expiresAt == verdict.value.expiresAt
      ensures !Succeeds(verdict, a) ==> s == null && session == old(session)
    {
      var usable := RecordOutcome(verdict, a);
      if !usable {
        return null;
      }
      s := new VerifiedSession(KeyId(verdict.value.publicKey), verdict.value.expiresAt);
      session := s;
    }

    /** One entry in the ledger, for a success or for one of the three ways to fail. */
    method RecordOutcome(verdict: Result<Evidence, VerifyError>, a: Attempt) returns (usable: bool)
      requires ledger.Valid() && verifier.inner.Settled()
      modifies ledger, ledger.Repr, ledger.store
      ensures ledger.Valid() && verifier.inner.Settled() && PolicyValue() == old(PolicyValue())
      ensures usable <==> Succeeds(verdict, a)
      ensures ledger.State() == Apply(old(ledger.State()), OutcomeEvent(verdict, a))
    {
      ghost var held := verifier.inner.policy.cells;
      ghost var releases := ReleasesOf(held);
      usable := RecordBeside(verdict, a, held);
      assert ReleasesOf(held) == releases;
    }

    /** The releases in force have nothing to do with the entry. */
    method RecordBeside(verdict: Result<Evidence, VerifyError>, a: Attempt, ghost held: seq<ReleaseCell>)
      returns (usable: bool)
      requires ledger.Valid()
      modifies ledger, ledger.Repr, ledger.store
      ensures ledger.Valid() && forall c :: c in held ==> c.pcrs == old(c.pcrs) && c.release == old(c.release)
      ensures usable <==> Succeeds(verdict, a)
      ensures ledger.State() == Apply(old(ledger.State()), OutcomeEvent(verdict, a))
    {
      if verdict.Err? {
        ledger.RecordRejected(a.failure, a.recorded);
        return false;
      }
      var e := verdict.value;
      if a.judged >= e.expiresAt {
        ledger.RecordRejected(a.failure, a.recorded);
        return false;
      }
      if !a.usable {
        ledger.RecordRejected(a.failure, a.recorded);
        return false;
      }
      ledger.RecordVerified(KeyId(e.publicKey), a.recorded,
                            Claims(e.attestedAt, e.expiresAt, e.publicKey, e.sourceRevision),
                            e.document, e.manifest, a.recorded);
      return true;
    }

    /** Gives up the cached session if it is still the one that failed. */
    method Invalidate(failed: VerifiedSession)
      modifies this
      ensures session == if old(session) == failed then null else old(session)
    {
      if session == failed {
        session := null;
      }
    }

    /** Forces a new verification: the cached session is given up even if the attempt then fails. */
    method Reverify(f: Foreign, a: Attempt) returns (ok: bool)
      requires ledger.Valid() && verifier.inner.Settled() && OfItsOwn(verifier.inner, a.derived)
      modifies this, verifier`lastRefresh, verifier.inner, CellsOf(a.derived)`pcrs, ledger, ledger.Repr, ledger.store
      ensures ledger.Valid() && verifier.inner.Settled()
      ensures (View(), ok)
           == AfterSessionFor(f, old(View()).(session := None), old(verifier.lastRefresh), a,
                              old(ValueOfAny(a.derived)))
      ensures if ok then session != null && fresh(session) else session == null
    {
      session := null;
      var s := SessionFor(f, a);
      return s != null;
    }

    /** Sends one envelope. The identifier returned names the attested key it was encrypted to; when
        the Gateway answers that the key does not fit, the session is given up. */
    method Do(f: Foreign, a: Attempt, envelope: Bytes, exchange: Exchange) returns (ok: bool, id: AttestationId)
      requires ledger.Valid() && verifier.inner.Settled() && OfItsOwn(verifier.inner, a.derived)
      modifies this, verifier`lastRefresh, verifier.inner, CellsOf(a.derived)`pcrs, ledger, ledger.Repr, ledger.store
      ensures ledger.Valid() && verifier.inner.Settled()
      ensures envelope == [] ==> !ok && id == NoId && View() == old(View())
      ensures var (after, key) := AfterDo(f, old(View()), old(verifier.lastRefresh), a, old(ValueOfAny(a.derived)),
                                          exchange);
              envelope != [] ==>
                && View() == after && id == (if key.Some? then key.value else NoId)
                && (ok <==> key.Some? && exchange == Responded)
      ensures var (kept, got) := AfterSessionFor(f, old(View()), old(verifier.lastRefresh), a,
                                                 old(ValueOfAny(a.derived)));
              envelope != [] ==>
                && (if got && exchange == KeyConfigError then session == null else View() == kept)
                && id == (if got then kept.session.value.attestationID else NoId)
                && (ok <==> got && exchange == Responded)
    {
      if envelope == [] {
        return false, NoId;
      }
      var s := SessionFor(f, a);
      if s == null {
        return false, NoId;
      }
      match exchange
      case KeyConfigError =>
        Invalidate(s);
        return false, s.attestationID;
      case OtherError =>
        return false, s.attestationID;
      case Responded =>
        return true, s.attestationID;
    }
  }
}
