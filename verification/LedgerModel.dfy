/** The verification ledger as a value: what one record call does to it, and what a whole run of
    calls leaves in it. */
module LedgerModel {
  import opened Prelude

  const MAX_ATTESTATIONS: nat := 64
  const MAX_REQUESTS: nat := 256
  const U64: nat := 0x1_0000_0000_0000_0000

  /** How a record names an attestation: the fingerprint of the attested key, the two low bytes of
      the rejection count, or nothing. */
  datatype AttestationId = KeyId(fingerprint: Bytes) | RejectedId(high: byte, low: byte) | NoId

  datatype Verdict = Verified | Rejected

  /** What the verifier established, as the ledger shows it. */
  datatype Claims = NoClaims | Claims(attestedAt: int, expiresAt: int, publicKey: Bytes, sourceRevision: string)

  datatype Attestation = Attestation(
    id: AttestationId,
    outcome: Verdict,
    verifiedAt: int,
    failure: string,
    claims: Claims,
    documentBytes: nat,
    document: Bytes,
    manifest: Bytes)

  datatype Outcome = Encrypted | Failed

  datatype Failure =
    | NoFailure
    | ExchangeFailed
    | ForbiddenStatus
    | UnreadableBody
    | NotOneObject
    | ClientDisconnected
    | EndedWithoutDone
    | FailedMidResponse

  datatype Request = Request(
    id: string,
    startedAt: int,
    durationMs: int,
    attestationID: AttestationId,
    outcome: Outcome,
    failure: Failure,
    statusCode: int,
    requestBytes: nat,
    responseBytes: nat,
    streaming: bool)

  datatype LedgerState = LedgerState(
    attestations: seq<Attestation>,
    requests: seq<Request>,
    verifiedTotal: nat,
    rejectedTotal: nat,
    encryptedTotal: nat,
    failedTotal: nat)

  const EMPTY := LedgerState([], [], 0, 0, 0, 0)

  /** A record call, with the clock reading it takes. `verifiedAt` is the zero time when the
      caller left it unset. */
  datatype Event =
    | RecordVerified(id: AttestationId, verifiedAt: int, claims: Claims, document: Bytes, manifest: Bytes, now: int)
    | RecordRejected(failure: string, now: int)
    | RecordRequest(request: Request)

  function AppendCapped<T>(items: seq<T>, item: T, limit: nat): seq<T>
    requires limit > 0
  {
    if |items| < limit then items + [item] else items[1..] + [item]
  }

  function Bump(total: nat): nat {
    (total + 1) % U64
  }

  /** The two low bytes of the rejection count. */
  function NumberedId(total: nat): AttestationId {
    RejectedId(total / 0x100 % 0x100, total % 0x100)
  }

  function VerifiedEntry(e: Event): Attestation
    requires e.RecordVerified?
  {
    Attestation(e.id, Verified, if e.verifiedAt == ZERO_TIME then e.now else e.verifiedAt, "", e.claims,
                |e.document|, e.document, e.manifest)
  }

  function RejectedEntry(e: Event, number: nat): Attestation
    requires e.RecordRejected?
  {
    Attestation(NumberedId(number), Rejected, e.now, e.failure, NoClaims, 0, [], [])
  }

  /** One record call. */
  function Apply(l: LedgerState, e: Event): LedgerState {
    match e
    case RecordVerified(_, _, _, _, _, _) =>
      l.(verifiedTotal := Bump(l.verifiedTotal),
         attestations := AppendCapped(l.attestations, VerifiedEntry(e), MAX_ATTESTATIONS))
    case RecordRejected(_, _) =>
      var total := Bump(l.rejectedTotal);
      l.(rejectedTotal := total,
         attestations := AppendCapped(l.attestations, RejectedEntry(e, total), MAX_ATTESTATIONS))
    case RecordRequest(request) =>
      var counted := if request.outcome == Encrypted then l.(encryptedTotal := Bump(l.encryptedTotal))
                     else l.(failedTotal := Bump(l.failedTotal));
      counted.(requests := AppendCapped(l.requests, request, MAX_REQUESTS))
  }

  /** What each record call writes, field by field; it leaves the other list and the other totals alone. */
  lemma ApplyMeaning(l: LedgerState, e: Event)
    ensures var after := Apply(l, e);
            match e
            case RecordVerified(id, verifiedAt, claims, document, manifest, now) =>
              && after.attestations != []
              && after.attestations[|after.attestations| - 1]
                 == Attestation(id, Verified, if verifiedAt == ZERO_TIME then now else verifiedAt, "", claims,
                                |document|, document, manifest)
              && after == l.(attestations := after.attestations,
                             verifiedTotal := (l.verifiedTotal + 1) % 0x1_0000_0000_0000_0000)
            case RecordRejected(failure, now) =>
              var total := (l.rejectedTotal + 1) % 0x1_0000_0000_0000_0000;
              && after.attestations != []
              && after.attestations[|after.attestations| - 1]
                 == Attestation(RejectedId(total / 256 % 256, total % 256), Rejected, now, failure, NoClaims, 0, [], [])
              && after == l.(attestations := after.attestations, rejectedTotal := total)
            case RecordRequest(request) =>
              && after.requests != [] && after.requests[|after.requests| - 1] == request
              && if request.outcome == Encrypted
                 then after == l.(requests := after.requests,
                                  encryptedTotal := (l.encryptedTotal + 1) % 0x1_0000_0000_0000_0000)
                 else after == l.(requests := after.requests,
                                  failedTotal := (l.failedTotal + 1) % 0x1_0000_0000_0000_0000)
  {
  }

  /** A run of record calls on an empty ledger. */
  function Replay(events: seq<Event>): LedgerState {
    if events == [] then EMPTY else Apply(Replay(events[..|events| - 1]), events[|events| - 1])
  }

  // The full history, kept without any cap or counter.

  function Count(events: seq<Event>, which: Event -> bool): nat {
    if events == [] then 0
    else Count(events[..|events| - 1], which) + if which(events[|events| - 1]) then 1 else 0
  }

  function IsVerified(e: Event): bool { e.RecordVerified? }
  function IsRejected(e: Event): bool { e.RecordRejected? }
  function IsEncrypted(e: Event): bool { e.RecordRequest? && e.request.outcome == Encrypted }
  function IsFailed(e: Event): bool { e.RecordRequest? && e.request.outcome != Encrypted }

  /** Every attestation ever recorded, oldest first; the n-th rejection carries number n. */
  function Entries(events: seq<Event>): seq<Attestation> {
    if events == [] then []
    else
      var before, e := events[..|events| - 1], events[|events| - 1];
      match e
      case RecordVerified(_, _, _, _, _, _) => Entries(before) + [VerifiedEntry(e)]
      case RecordRejected(_, _) => Entries(before) + [RejectedEntry(e, Count(before, IsRejected) + 1)]
      case RecordRequest(_) => Entries(before)
  }

  /** Every request ever recorded, oldest first. */
  function Requests(events: seq<Event>): seq<Request> {
    if events == [] then []
    else
      var before, e := events[..|events| - 1], events[|events| - 1];
      if e.RecordRequest? then Requests(before) + [e.request] else Requests(before)
  }

  lemma CappedIsLast<T>(history: seq<T>, item: T, limit: nat)
    requires limit > 0
    ensures AppendCapped(LastN(history, limit), item, limit) == LastN(history + [item], limit)
  {
  }

  /** What a ledger should hold after the given history. */
  function Latest(events: seq<Event>): LedgerState {
    LedgerState(
      LastN(Entries(events), MAX_ATTESTATIONS),
      LastN(Requests(events), MAX_REQUESTS),
      Count(events, IsVerified) % U64,
      Count(events, IsRejected) % U64,
      Count(events, IsEncrypted) % U64,
      Count(events, IsFailed) % U64)
  }

  lemma BumpCounts(n: nat)
    ensures Bump(n % U64) == (n + 1) % U64
  {
    var q, r := n / U64, n % U64;
    assert n + 1 == q * U64 + (r + 1);
    if r + 1 == U64 {
      assert n + 1 == (q + 1) * U64;
    }
  }

  lemma LatestRejected(before: seq<Event>, e: Event)
    requires e.RecordRejected?
    ensures Apply(Latest(before), e) == Latest(before).(
                rejectedTotal := (Count(before, IsRejected) + 1) % U64,
                attestations := LastN(Entries(before) + [RejectedEntry(e, Count(before, IsRejected) + 1)],
                                      MAX_ATTESTATIONS))
  {
    var n := Count(before, IsRejected);
    BumpCounts(n);
    WidthDoesNotShow(n + 1);
    assert RejectedEntry(e, Bump(n % U64)) == RejectedEntry(e, n + 1);
    CappedIsLast(Entries(before), RejectedEntry(e, n + 1), MAX_ATTESTATIONS);
  }

  lemma LatestVerified(before: seq<Event>, e: Event)
    requires e.RecordVerified?
    ensures Apply(Latest(before), e) == Latest(before).(
                verifiedTotal := (Count(before, IsVerified) + 1) % U64,
                attestations := LastN(Entries(before) + [VerifiedEntry(e)], MAX_ATTESTATIONS))
  {
    BumpCounts(Count(before, IsVerified));
    CappedIsLast(Entries(before), VerifiedEntry(e), MAX_ATTESTATIONS);
  }

  lemma LatestRequest(before: seq<Event>, e: Event)
    requires e.RecordRequest?
    ensures var counted := if IsEncrypted(e)
                           then Latest(before).(encryptedTotal := (Count(before, IsEncrypted) + 1) % U64)
                           else Latest(before).(failedTotal := (Count(before, IsFailed) + 1) % U64);
            Apply(Latest(before), e) == counted.(requests := LastN(Requests(before) + [e.request], MAX_REQUESTS))
  {
    BumpCounts(Count(before, IsEncrypted));
    BumpCounts(Count(before, IsFailed));
    CappedIsLast(Requests(before), e.request, MAX_REQUESTS);
  }

  lemma LatestStep(before: seq<Event>, e: Event)
    ensures Latest(before + [e]) == Apply(Latest(before), e)
  {
    var events := before + [e];
    assert events[..|events| - 1] == before && events[|events| - 1] == e;
    match e
    case RecordVerified(_, _, _, _, _, _) => LatestVerified(before, e);
    case RecordRejected(_, _) => LatestRejected(before, e);
    case RecordRequest(_) => LatestRequest(before, e);
  }

  /** After any run of record calls the ledger holds the last 64 attestations and the last 256
      requests of the full history, while its totals count all of it. */
  lemma {:induction false} ReplayKeepsTheLatest(events: seq<Event>)
    ensures Replay(events) == Latest(events)
  {
    if events != [] {
      ReplayKeepsTheLatest(events[..|events| - 1]);
      LatestStep(events[..|events| - 1], events[|events| - 1]);
      assert events == events[..|events| - 1] + [events[|events| - 1]];
    }
  }

  /** The counter's wrap-around at 64 bits is invisible in a 16-bit number. */
  lemma WidthDoesNotShow(n: nat)
    ensures NumberedId(n % U64) == NumberedId(n)
  {
    var q := n / U64;
    assert n == q * 0x1_0000_0000_0000 * 0x1_0000 + n % U64;
    LowBytes(n % U64, q * 0x1_0000_0000_0000);
  }

  lemma LowBytes(n: nat, q: nat)
    ensures NumberedId(n + q * 0x1_0000) == NumberedId(n)
  {
    assert (n + q * 0x1_0000) / 0x100 == n / 0x100 + q * 0x100;
  }

  lemma SameNumber(a: nat, b: nat)
    requires a < b && NumberedId(a) == NumberedId(b)
    ensures b - a >= 0x1_0000
  {
    assert a == a / 0x100 / 0x100 * 0x1_0000 + a / 0x100 % 0x100 * 0x100 + a % 0x100;
    assert b == b / 0x100 / 0x100 * 0x1_0000 + b / 0x100 % 0x100 * 0x100 + b % 0x100;
    assert b - a == (b / 0x100 / 0x100 - a / 0x100 / 0x100) * 0x1_0000;
  }

  /** The number of the rejection at position `i` of the history. */
  ghost function RejectionsUpTo(entries: seq<Attestation>, i: nat): nat
    requires i <= |entries|
  {
    if i == 0 then 0 else RejectionsUpTo(entries, i - 1) + if entries[i - 1].outcome == Rejected then 1 else 0
  }

  lemma {:induction false} RejectionsOfPrefix(a: seq<Attestation>, b: seq<Attestation>, i: nat)
    requires i <= |a|
    ensures RejectionsUpTo(a + b, i) == RejectionsUpTo(a, i)
  {
    if i > 0 {
      RejectionsOfPrefix(a, b, i - 1);
      assert (a + b)[i - 1] == a[i - 1];
    }
  }

  lemma {:induction false} EntriesAreNumbered(events: seq<Event>)
    ensures var entries := Entries(events);
            && RejectionsUpTo(entries, |entries|) == Count(events, IsRejected)
            && forall i :: 0 <= i < |entries| && entries[i].outcome == Rejected ==>
                 entries[i].id == NumberedId(RejectionsUpTo(entries, i + 1))
  {
    if events != [] {
      var before := events[..|events| - 1];
      var old', entries := Entries(before), Entries(events);
      EntriesAreNumbered(before);
      if entries != old' {
        var added := entries[|old'|..];
        assert entries == old' + added && |added| == 1;
        forall i | 0 <= i <= |old'|
          ensures RejectionsUpTo(entries, i) == RejectionsUpTo(old', i)
        {
          RejectionsOfPrefix(old', added, i);
        }
      }
    }
  }

  lemma {:induction false} RejectionsGrow(entries: seq<Attestation>, i: nat, j: nat)
    requires i <= j <= |entries|
    ensures 0 <= RejectionsUpTo(entries, j) - RejectionsUpTo(entries, i) <= j - i
  {
    if i < j {
      RejectionsGrow(entries, i, j - 1);
    }
  }

  lemma NearbyRejectionsDiffer(events: seq<Event>, i: nat, j: nat)
    requires i < j < |Entries(events)| && j - i < 0x1_0000
    requires Entries(events)[i].outcome == Rejected && Entries(events)[j].outcome == Rejected
    ensures Entries(events)[i].id != Entries(events)[j].id
  {
    var entries := Entries(events);
    EntriesAreNumbered(events);
    RejectionsGrow(entries, i + 1, j);
    var a, b := RejectionsUpTo(entries, i + 1), RejectionsUpTo(entries, j + 1);
    assert a < b && b - a < 0x1_0000;
    if NumberedId(a) == NumberedId(b) {
      SameNumber(a, b);
    }
  }

  /** The rejections still shown in a ledger that started empty never share an identifier, although
      the identifiers wrap around after 65536 rejections. */
  lemma ShownRejectionsDiffer(events: seq<Event>, i: nat, j: nat)
    requires i < j < |Replay(events).attestations|
    requires Replay(events).attestations[i].outcome == Rejected
    requires Replay(events).attestations[j].outcome == Rejected
    ensures Replay(events).attestations[i].id != Replay(events).attestations[j].id
  {
    ReplayKeepsTheLatest(events);
    var from := |Entries(events)| - |Replay(events).attestations|;
    NearbyRejectionsDiffer(events, from + i, from + j);
  }
}
