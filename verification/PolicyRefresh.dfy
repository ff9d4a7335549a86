/** Refreshing the trust policy when a Gateway attests a revision it does not list, but not too often. */
module PolicyRefresh {
  import opened Prelude
  import opened TrustPolicy
  import opened Attestation

  const INTERVAL: int := 300_000_000_000

  /** Whether a triggered refresh may start, and the time then remembered for the last one. The clock
      is read once to decide and once more to remember. */
  function Grant(last: Option<int>, decided: int, remembered: int): (bool, Option<int>) {
    if last.Some? && decided - last.value < INTERVAL then (false, last) else (true, Some(remembered))
  }

  function CellsOf(derived: Option<PolicyRef>): set<ReleaseCell> {
    if derived.Some? then set c | c in derived.value.cells else {}
  }

  /** A policy that was just parsed: it shares no release with the one in force. */
  ghost predicate OfItsOwn(inner: PolicyHolder, derived: Option<PolicyRef>)
    reads inner
  {
    derived.Some? ==> OneSlice(derived.value) && forall c :: c in derived.value.cells ==> c !in inner.policy.cells
  }

  class RefreshingVerifier {
    const inner: PolicyHolder
    var lastRefresh: Option<int>

    constructor (inner: PolicyHolder)
      ensures this.inner == inner && lastRefresh == None
    {
      this.inner := inner;
      lastRefresh := None;
    }

    method AllowRefresh(decided: int, remembered: int) returns (allowed: bool)
      modifies this`lastRefresh
      ensures (allowed, lastRefresh) == Grant(old(lastRefresh), decided, remembered)
      ensures allowed <==> old(lastRefresh).None? || decided - old(lastRefresh).value >= 300_000_000_000
      ensures lastRefresh == if allowed then Some(remembered) else old(lastRefresh)
    {
      if lastRefresh.Some? && decided - lastRefresh.value < INTERVAL {
        return false;
      }
      lastRefresh := Some(remembered);
      return true;
    }

    /** Re-derives the policy, reporting whether one was applied. A refresh that is not allowed, brings
        nothing or brings a policy that is rejected leaves the policy in force alone. */
    method Refresh(decided: int, remembered: int, derived: Option<PolicyRef>) returns (attempted: bool, applied: bool)
      requires inner.Settled() && OfItsOwn(inner, derived)
      modifies this`lastRefresh, inner, CellsOf(derived)`pcrs
      ensures inner.Settled()
      ensures (attempted, lastRefresh) == Grant(old(lastRefresh), decided, remembered)
      ensures applied <==> attempted && derived.Some? && Acceptable(ValueOf(derived.value))
      ensures inner.policy == if applied then derived.value else old(inner.policy)
    {
      attempted := AllowRefresh(decided, remembered);
      applied := false;
      if attempted && derived.Some? {
        applied := inner.SetPolicy(derived.value);
      }
    }

    /** One inner verification, against the policy in force when it takes its snapshot. */
    method VerifyOnce(f: Foreign, t: Try) returns (result: Result<Evidence, VerifyError>)
      requires inner.Settled()
      ensures result == VerifyNow(f, ValueOf(inner.policy), t.fetched, t.nonce, t.now)
    {
      result := ValidateInForce(f, inner.policy, t.fetched, t.nonce, t.now, MAX_AGE, MAX_SKEW);
    }

    /** One outer verification: at most one refresh and at most two inner verifications, the second
        one only after a refreshed policy was applied. Anything but an unpinned release is reported as
        it is, without a refresh, and a refresh that brings nothing reports the original failure. */
    method Verify(f: Foreign, first: Try, decided: int, remembered: int, derived: Option<PolicyRef>, second: Try)
      returns (result: Result<Evidence, VerifyError>, verifications: nat, refreshes: nat)
      requires inner.Settled() && OfItsOwn(inner, derived)
      modifies this`lastRefresh, inner, CellsOf(derived)`pcrs
      ensures inner.Settled()
      ensures var initial := VerifyNow(f, old(ValueOf(inner.policy)), first.fetched, first.nonce, first.now);
              var (granted, remember) := Grant(old(lastRefresh), decided, remembered);
              if initial != Err(UnpinnedRelease) then
                result == initial && verifications == 1 && refreshes == 0
                && lastRefresh == old(lastRefresh) && inner.policy == old(inner.policy)
              else if !granted then
                result == initial && verifications == 1 && refreshes == 0
                && lastRefresh == old(lastRefresh) && inner.policy == old(inner.policy)
              else if derived.Some? && Acceptable(ValueOf(derived.value)) then
                result == VerifyNow(f, ValueOf(derived.value), second.fetched, second.nonce, second.now)
                && verifications == 2 && refreshes == 1
                && lastRefresh == remember && inner.policy == derived.value
              else
                result == initial && verifications == 1 && refreshes == 1
                && lastRefresh == remember && inner.policy == old(inner.policy)
    {
      verifications, refreshes := 1, 0;
      result := VerifyOnce(f, first);
      if result != Err(UnpinnedRelease) {
        return;
      }
      var attempted, applied := Refresh(decided, remembered, derived);
      refreshes := if attempted then 1 else 0;
      if !applied {
        return;
      }
      verifications := 2;
      result := VerifyOnce(f, second);
    }
  }

  /** What one inner verification is given: its nonce, the response to it and the clock it reads. */
  datatype Try = Try(nonce: Bytes, fetched: Option<Fetched>, now: int)

  /** The verification of one response with the production limits. */
  function VerifyNow(f: Foreign, policy: Policy, fetched: Option<Fetched>, nonce: Bytes,
                     now: int): Result<Evidence, VerifyError> {
    Validate(f, policy, fetched, nonce, now, MAX_AGE, MAX_SKEW)
  }

  /** What is accepted is at most two minutes old, or dated ahead by half a minute, and expires two
      minutes after its date. */
  lemma AcceptedInTime(f: Foreign, policy: Policy, fetched: Option<Fetched>, nonce: Bytes, now: int)
    requires VerifyNow(f, policy, fetched, nonce, now).Ok?
    ensures var e := VerifyNow(f, policy, fetched, nonce, now).value;
            && now - 120_000_000_000 <= e.attestedAt <= now + 30_000_000_000
            && e.expiresAt == e.attestedAt + 120_000_000_000
  {
  }

  /** One caller passing the gate: the two clock readings it takes while it holds the lock. */
  datatype Reading = Reading(decided: int, remembered: int)

  /** The clock never runs backwards from one reading to the next, nor from one caller to the next. */
  ghost predicate Ordered(readings: seq<Reading>) {
    && (forall i :: 0 <= i < |readings| ==> readings[i].decided <= readings[i].remembered)
    && (forall i, j :: 0 <= i < j < |readings| ==> readings[i].remembered <= readings[j].decided)
  }

  /** The gate after all callers have passed, and the times at which it let one refresh. */
  function Pass(readings: seq<Reading>): (Option<int>, seq<int>) {
    if readings == [] then (None, [])
    else
      var r := readings[|readings| - 1];
      var (last, refreshes) := Pass(readings[..|readings| - 1]);
      var (allowed, remembered) := Grant(last, r.decided, r.remembered);
      (remembered, if allowed then refreshes + [r.remembered] else refreshes)
  }

  ghost predicate Spaced(times: seq<int>) {
    forall i :: 0 < i < |times| ==> times[i] - times[i - 1] >= INTERVAL
  }

  lemma {:induction false} RefreshesAreSpaced(readings: seq<Reading>)
    requires Ordered(readings)
    ensures var (last, refreshes) := Pass(readings);
            && Spaced(refreshes)
            && (if refreshes == [] then last == None else last == Some(refreshes[|refreshes| - 1]))
            && forall i :: 0 <= i < |refreshes| ==>
                 exists j :: 0 <= j < |readings| && refreshes[i] == readings[j].remembered
  {
    if readings != [] {
      var before := readings[..|readings| - 1];
      assert forall j :: 0 <= j < |before| ==> before[j] == readings[j];
      RefreshesAreSpaced(before);
      assert readings[|readings| - 1].remembered == readings[|readings| - 1].remembered;
    }
  }

  /** The caller's reading led to a refresh, or one was started less than five minutes before. */
  ghost predicate Served(refreshes: seq<int>, r: Reading) {
    || r.remembered in refreshes
    || exists g :: g in refreshes && g <= r.decided < g + 300_000_000_000
  }

  lemma StaysServed(refreshes: seq<int>, more: seq<int>, r: Reading)
    requires Served(refreshes, r)
    ensures Served(refreshes + more, r)
  {
    if r.remembered !in refreshes {
      var g :| g in refreshes && g <= r.decided < g + 300_000_000_000;
      assert g in refreshes + more;
    }
  }

  lemma LastIsServed(readings: seq<Reading>)
    requires Ordered(readings) && readings != []
    ensures Served(Pass(readings).1, readings[|readings| - 1])
  {
    var before, r := readings[..|readings| - 1], readings[|readings| - 1];
    var (last, refreshes) := Pass(before);
    assert forall j :: 0 <= j < |before| ==> before[j] == readings[j];
    RefreshesAreSpaced(before);
    if refreshes != [] {
      var g := refreshes[|refreshes| - 1];
      assert g in Pass(readings).1;
    }
  }

  /** Nobody is refused without need: a caller that passes either starts a refresh itself, or one was
      started less than five minutes before. */
  lemma {:induction false} RefusedOnlyWhenRecent(readings: seq<Reading>, i: nat)
    requires Ordered(readings) && i < |readings|
    ensures Served(Pass(readings).1, readings[i])
  {
    var before, n := readings[..|readings| - 1], |readings| - 1;
    if i < n {
      assert before[i] == readings[i];
      RefusedOnlyWhenRecent(before, i);
      var (refreshes, after) := (Pass(before).1, Pass(readings).1);
      StaysServed(refreshes, after[|refreshes|..], readings[i]);
      assert after == refreshes + after[|refreshes|..];
    } else {
      LastIsServed(readings);
    }
  }

  function InWindow(times: seq<int>, from: int, to: int): seq<int> {
    if times == [] then []
    else
      var t := times[|times| - 1];
      InWindow(times[..|times| - 1], from, to) + if from <= t <= to then [t] else []
  }

  lemma {:induction false} WindowIsSpaced(times: seq<int>, from: int, to: int)
    requires Spaced(times)
    ensures var w := InWindow(times, from, to);
            && Spaced(w) && |w| <= |times|
            && (forall i :: 0 <= i < |w| ==> from <= w[i] <= to)
            && (w != [] ==> w[|w| - 1] <= times[|times| - 1])
  {
    if times != [] {
      var before, t := times[..|times| - 1], times[|times| - 1];
      WindowIsSpaced(before, from, to);
      var w := InWindow(before, from, to);
      if w != [] {
        assert w[|w| - 1] <= before[|before| - 1] <= t - INTERVAL;
      }
    }
  }

  lemma {:induction false} SpacedSpan(times: seq<int>)
    requires Spaced(times) && times != []
    ensures times[|times| - 1] - times[0] >= (|times| - 1) * INTERVAL
  {
    if |times| > 1 {
      SpacedSpan(times[..|times| - 1]);
    }
  }

  /** However many callers meet an unknown Gateway, and whatever becomes of their refreshes, a stretch
      of time of length `d` sees at most 1 + d / 5 min of them start. */
  lemma RefreshRate(readings: seq<Reading>, from: int, d: nat)
    requires Ordered(readings)
    ensures |InWindow(Pass(readings).1, from, from + d)| <= 1 + d / INTERVAL
  {
    RefreshesAreSpaced(readings);
    var w := InWindow(Pass(readings).1, from, from + d);
    WindowIsSpaced(Pass(readings).1, from, from + d);
    if w != [] {
      SpacedSpan(w);
      assert (|w| - 1) * INTERVAL <= d;
    }
  }
}
