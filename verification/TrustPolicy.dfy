/** The pinned trust policy: what makes one acceptable, how it is validated in place, and how it is
    replaced while it is in use. */
module TrustPolicy {
  import opened Prelude
  import Hex

  const POLICY_SCHEMA: int := 2
  const MANIFEST_SCHEMA: int := 4
  const WORKLOAD: string := "dappnode-nexus-gateway"
  const PROFILE: string := "nexus-gateway-v2"
  const MAX_RELEASES: nat := 4
  const PCR_BYTES: nat := 48
  const REVISION_LENGTH: nat := 40

  datatype E2EE = E2EE(protocol: string, suite: string, endpoint: string, requestEncrypted: bool,
                       responseEncrypted: bool)

  const CONTRACT := E2EE("ehbp-v1", "DHKEM-X25519-HKDF-SHA256/HKDF-SHA256/AES-256-GCM",
                         "/v1/confidential/chat/completions", true, true)

  /** One acceptable Gateway build: a source revision and the measurements of its code. */
  datatype Release = Release(sourceRevision: string, pcr0: string, pcr1: string, pcr2: string)

  datatype Policy = Policy(
    schemaVersion: int,
    manifestSchemaVersion: int,
    workload: string,
    profile: string,
    e2ee: E2EE,
    releases: seq<Release>)

  predicate RevisionOk(s: string) {
    |s| == REVISION_LENGTH && Hex.LowerHex(s)
  }

  /** A full measurement in canonical text, and not the all-zero one of a debug build. */
  predicate PcrOk(s: string) {
    |s| == 2 * PCR_BYTES && Hex.LowerHex(s) && !Hex.ZeroText(s)
  }

  predicate ReleaseOk(r: Release) {
    RevisionOk(r.sourceRevision) && PcrOk(r.pcr0) && PcrOk(r.pcr1) && PcrOk(r.pcr2)
  }

  predicate DistinctRevisions(releases: seq<Release>) {
    forall i, j :: 0 <= i < j < |releases| ==> releases[i].sourceRevision != releases[j].sourceRevision
  }

  predicate AllReleasesOk(releases: seq<Release>) {
    forall i :: 0 <= i < |releases| ==> ReleaseOk(releases[i])
  }

  predicate HeaderOk(p: Policy) {
    && p.schemaVersion == POLICY_SCHEMA && p.manifestSchemaVersion == MANIFEST_SCHEMA
    && p.workload == WORKLOAD && p.profile == PROFILE && p.e2ee == CONTRACT
  }

  predicate Acceptable(p: Policy) {
    && HeaderOk(p)
    && 1 <= |p.releases| <= MAX_RELEASES
    && AllReleasesOk(p.releases)
    && DistinctRevisions(p.releases)
  }

  ghost predicate DigitsOnly(s: string) {
    forall i :: 0 <= i < |s| ==> s[i] in "0123456789abcdef"
  }

  /** The rules for a release, digit by digit. */
  lemma ReleaseRules(r: Release)
    ensures ReleaseOk(r) <==>
              && |r.sourceRevision| == 40 && DigitsOnly(r.sourceRevision)
              && forall pcr :: pcr in {r.pcr0, r.pcr1, r.pcr2} ==>
                   |pcr| == 96 && DigitsOnly(pcr) && exists i :: 0 <= i < |pcr| && pcr[i] != '0'
  {
    DigitsAreLowerHex(r.sourceRevision);
    DigitsAreLowerHex(r.pcr0);
    DigitsAreLowerHex(r.pcr1);
    DigitsAreLowerHex(r.pcr2);
  }

  lemma DigitsAreLowerHex(s: string)
    ensures Hex.LowerHex(s) <==> DigitsOnly(s)
  {
    forall i | 0 <= i < |s|
      ensures Hex.LowerDigit(s[i]) <==> s[i] in "0123456789abcdef"
    {
      Hex.SixteenDigits(s[i]);
    }
  }

  /** The rules for a policy: fixed header values, and one to four releases of different revisions. */
  lemma PolicyRules(p: Policy)
    ensures Acceptable(p) <==>
              && p == Policy(2, 4, "dappnode-nexus-gateway", "nexus-gateway-v2",
                             E2EE("ehbp-v1", "DHKEM-X25519-HKDF-SHA256/HKDF-SHA256/AES-256-GCM",
                                  "/v1/confidential/chat/completions", true, true), p.releases)
              && 1 <= |p.releases| <= 4
              && (forall r :: r in p.releases ==> ReleaseOk(r))
              && forall i, j :: 0 <= i < j < |p.releases| ==>
                   p.releases[i].sourceRevision != p.releases[j].sourceRevision
  {
  }

  /** Validation stops at this release: it is improper or repeats an earlier revision. */
  predicate Refused(releases: seq<Release>, i: nat)
    requires i < |releases|
  {
    !ReleaseOk(releases[i]) || exists j :: 0 <= j < i && releases[j].sourceRevision == releases[i].sourceRevision
  }

  /** How many releases are validated before the verdict, the first `i` having passed. */
  function ReachFrom(releases: seq<Release>, i: nat): (reach: nat)
    requires i <= |releases|
    ensures i <= reach <= |releases|
    decreases |releases| - i
  {
    if i == |releases| then i else if Refused(releases, i) then i + 1 else ReachFrom(releases, i + 1)
  }

  /** How many releases of a policy are validated, its header and their number being checked first. */
  function Reach(p: Policy): nat {
    if HeaderOk(p) && 1 <= |p.releases| <= MAX_RELEASES then ReachFrom(p.releases, 0) else 0
  }

  /** All releases before the last one reached pass; that one passes only if it is the very last. */
  lemma {:induction false} ReachMeaning(releases: seq<Release>, i: nat)
    requires i <= |releases|
    ensures var reach := ReachFrom(releases, i);
            && (forall k :: i <= k < reach - 1 ==> !Refused(releases, k))
            && (i < |releases| ==> i < reach)
            && (reach < |releases| ==> i < reach && Refused(releases, reach - 1))
            && ((forall k :: i <= k < |releases| ==> !Refused(releases, k))
                || (i < reach && Refused(releases, reach - 1)))
    decreases |releases| - i
  {
    if i < |releases| && !Refused(releases, i) {
      ReachMeaning(releases, i + 1);
    }
  }

  /** Nothing is refused exactly in lists of proper releases with different revisions. */
  lemma NoneRefused(releases: seq<Release>)
    ensures AllReleasesOk(releases) && DistinctRevisions(releases) <==>
              forall k :: 0 <= k < |releases| ==> !Refused(releases, k)
  {
    if forall k :: 0 <= k < |releases| ==> !Refused(releases, k) {
      forall j | 0 <= j < |releases|
        ensures ReleaseOk(releases[j])
        ensures forall i :: 0 <= i < j ==> releases[i].sourceRevision != releases[j].sourceRevision
      {
        assert !Refused(releases, j);
      }
    }
  }

  /** No release is reached if the header or the number of releases is refused. Otherwise all before the
      last one reached are proper and new; if that one is so too, it is the very last. */
  lemma ReachExactly(p: Policy)
    ensures Reach(p) == 0 <==> !HeaderOk(p) || p.releases == [] || |p.releases| > 4
    ensures Reach(p) <= |p.releases|
    ensures forall k :: 0 <= k < Reach(p) - 1 ==> New(p.releases, k)
    ensures Reach(p) > 0 && New(p.releases, Reach(p) - 1) ==> Reach(p) == |p.releases|
  {
    ReachMeaning(p.releases, 0);
    assert forall k: nat :: k < |p.releases| ==> (New(p.releases, k) <==> !Refused(p.releases, k));
  }

  ghost predicate New(releases: seq<Release>, k: nat)
    requires k < |releases|
  {
    ReleaseOk(releases[k]) && forall j :: 0 <= j < k ==> releases[j].sourceRevision != releases[k].sourceRevision
  }

  function Texts(r: Release): seq<string> {
    [r.pcr0, r.pcr1, r.pcr2]
  }

  /** The first `n` of some measurements, decoded. */
  function Table(texts: seq<string>, n: nat): (pcrs: map<nat, Bytes>)
    requires n <= |texts| && forall i :: 0 <= i < n ==> PcrOk(texts[i])
    ensures forall i: nat :: i in pcrs <==> i < n
    ensures forall i :: i in pcrs ==> Some(pcrs[i]) == Hex.Decode(texts[i])
  {
    AllDecode(texts, n);
    map i: nat | 0 <= i < n :: Hex.Decode(texts[i]).value
  }

  lemma AllDecode(texts: seq<string>, n: nat)
    requires n <= |texts| && forall i :: 0 <= i < n ==> PcrOk(texts[i])
    ensures forall i :: 0 <= i < n ==> Hex.Decode(texts[i]).Some?
  {
    forall i | 0 <= i < n
      ensures Hex.Decode(texts[i]).Some?
    {
      Decodes(texts[i]);
    }
  }

  /** One measurement more in a table. */
  lemma TableGrows(texts: seq<string>, n: nat)
    requires n < |texts| && forall i :: 0 <= i <= n ==> PcrOk(texts[i])
    ensures Hex.Decode(texts[n]).Some?
    ensures Table(texts, n + 1) == Table(texts, n)[n := Hex.Decode(texts[n]).value]
  {
    Decodes(texts[n]);
  }

  /** The measurements a release's text stands for. */
  function Measurements(r: Release): (pcrs: map<nat, Bytes>)
    requires ReleaseOk(r)
    ensures pcrs.Keys == {0, 1, 2}
  {
    assert forall i :: i in Table(Texts(r), 3) <==> i in {0, 1, 2};
    Table(Texts(r), 3)
  }

  lemma Decodes(s: string)
    requires PcrOk(s)
    ensures Hex.Decode(s).Some?
  {
    Hex.CanonicalIsLowerHex(s);
  }

  /** Every measurement in a table has the full length and is not the all-zero one. */
  lemma TableEntries(texts: seq<string>, n: nat, i: nat)
    requires i < n <= |texts| && forall j :: 0 <= j < n ==> PcrOk(texts[j])
    ensures |Table(texts, n)[i]| == PCR_BYTES && !Hex.ZeroBytes(Table(texts, n)[i])
  {
    Decodes(texts[i]);
    Hex.DecodedLength(texts[i]);
    Hex.ZeroTextIsZeroBytes(texts[i]);
  }

  /** The way the code checks a measurement: decode, encode back, and test the bytes for zero. It is
      exact: it accepts the texts that PcrOk describes and no others. */
  method DecodePCR(encoded: string) returns (decoded: Option<Bytes>)
    ensures decoded.Some? <==> PcrOk(encoded)
    ensures decoded.Some? ==> decoded == Hex.Decode(encoded)
  {
    if |encoded| != 2 * PCR_BYTES {
      return None;
    }
    Hex.CanonicalIsLowerHex(encoded);
    decoded := Hex.Decode(encoded);
    if decoded.None? || Hex.Encode(decoded.value) != encoded {
      return None;
    }
    Hex.ZeroTextIsZeroBytes(encoded);
    var zero := Hex.AllZero(decoded.value);
    if zero {
      return None;
    }
  }

  /** What validating a release with a proper revision leaves decoded: its measurements up to the
      first improper one. */
  function Decoded(r: Release): map<nat, Bytes> {
    Table(Texts(r), Proper(r))
  }

  /** How many measurements there are before the first improper one. */
  function Proper(r: Release): (n: nat)
    ensures n <= 3 && forall i :: 0 <= i < n ==> PcrOk(Texts(r)[i])
    ensures n < 3 ==> !PcrOk(Texts(r)[n])
  {
    if !PcrOk(r.pcr0) then 0 else if !PcrOk(r.pcr1) then 1 else if !PcrOk(r.pcr2) then 2 else 3
  }

  /** What a release's decoded measurements become when it is validated. */
  function AfterValidate(r: Release, before: map<nat, Bytes>): map<nat, Bytes> {
    if RevisionOk(r.sourceRevision) then Decoded(r) else before
  }

  /** An improper revision leaves what was decoded, an improper first measurement leaves nothing decoded,
      and a proper release has all three of its measurements decoded. */
  lemma AfterValidateMeaning(r: Release, before: map<nat, Bytes>)
    ensures var after := AfterValidate(r, before);
            && (!RevisionOk(r.sourceRevision) ==> after == before)
            && (RevisionOk(r.sourceRevision) && !PcrOk(r.pcr0) ==> after == map[])
            && (ReleaseOk(r) ==> after.Keys == {0, 1, 2})
            && (ReleaseOk(r) ==> Some(after[0]) == Hex.Decode(r.pcr0))
            && (ReleaseOk(r) ==> Some(after[1]) == Hex.Decode(r.pcr1) && Some(after[2]) == Hex.Decode(r.pcr2))
  {
  }

  /** An element of a policy's release slice. Slices that share their elements share these. */
  class ReleaseCell {
    var release: Release
    var pcrs: map<nat, Bytes>

    constructor (release: Release)
      ensures this.release == release && pcrs == map[]
    {
      this.release, pcrs := release, map[];
    }

    method Validate() returns (ok: bool)
      modifies this`pcrs
      ensures ok <==> ReleaseOk(release)
      ensures pcrs == AfterValidate(release, old(pcrs))
    {
      if |release.sourceRevision| != REVISION_LENGTH || !Hex.LowerHex(release.sourceRevision) {
        return false;
      }
      pcrs, ok := DecodePCRs(release);
    }
  }

  /** Decodes the measurements in order, up to the first improper one. */
  method DecodePCRs(r: Release) returns (pcrs: map<nat, Bytes>, ok: bool)
    ensures ok <==> PcrOk(r.pcr0) && PcrOk(r.pcr1) && PcrOk(r.pcr2)
    ensures pcrs == Decoded(r)
  {
    var texts := Texts(r);
    pcrs := map[];
    for i := 0 to 3
      invariant forall j :: 0 <= j < i ==> PcrOk(texts[j])
      invariant pcrs == Table(texts, i)
    {
      var decoded := DecodePCR(texts[i]);
      if decoded.None? {
        assert Proper(r) == i;
        return pcrs, false;
      }
      TableGrows(texts, i);
      pcrs := pcrs[i := decoded.value];
    }
    assert PcrOk(texts[0]) && PcrOk(texts[1]) && PcrOk(texts[2]);
    return pcrs, true;
  }

  /** A policy as the code holds one: its releases are a slice. */
  datatype PolicyRef = PolicyRef(header: Policy, cells: seq<ReleaseCell>)

  ghost predicate OneSlice(p: PolicyRef) {
    p.header.releases == [] && Distinct(p.cells)
  }

  function ReleasesOf(cells: seq<ReleaseCell>): (releases: seq<Release>)
    reads set c | c in cells
    ensures |releases| == |cells| && forall i :: 0 <= i < |cells| ==> releases[i] == cells[i].release
  {
    seq(|cells|, i requires 0 <= i < |cells| reads set c | c in cells => cells[i].release)
  }

  function PcrsOf(cells: seq<ReleaseCell>): (pcrs: seq<map<nat, Bytes>>)
    reads set c | c in cells
    ensures |pcrs| == |cells| && forall i :: 0 <= i < |cells| ==> pcrs[i] == cells[i].pcrs
  {
    seq(|cells|, i requires 0 <= i < |cells| reads set c | c in cells => cells[i].pcrs)
  }

  function ValueOf(p: PolicyRef): Policy
    reads set c | c in p.cells
  {
    p.header.(releases := ReleasesOf(p.cells))
  }

  /** Validates a policy, decoding the measurements of the releases it reaches in place. */
  method ValidatePolicy(p: PolicyRef) returns (ok: bool, ghost reached: nat)
    requires OneSlice(p)
    modifies (set c | c in p.cells)`pcrs
    ensures ok <==> Acceptable(ValueOf(p))
    ensures reached == Reach(old(ValueOf(p))) <= |p.cells| && (ok ==> reached == |p.cells|)
    ensures forall i :: 0 <= i < |p.cells| ==>
              p.cells[i].pcrs == if i < reached then AfterValidate(p.cells[i].release, old(p.cells[i].pcrs))
                                 else old(p.cells[i].pcrs)
  {
    reached := 0;
    if p.header.schemaVersion != POLICY_SCHEMA || p.header.manifestSchemaVersion != MANIFEST_SCHEMA
       || p.header.workload != WORKLOAD || p.header.profile != PROFILE || p.header.e2ee != CONTRACT {
      return false, 0;
    }
    if |p.cells| == 0 || |p.cells| > MAX_RELEASES {
      return false, 0;
    }
    ok, reached := ValidateReleases(p.cells);
  }

  /** Validates the releases one by one and refuses a revision that was seen before. */
  method ValidateReleases(cells: seq<ReleaseCell>) returns (ok: bool, ghost reached: nat)
    requires Distinct(cells)
    modifies (set c | c in cells)`pcrs
    ensures ok <==> AllReleasesOk(ReleasesOf(cells)) && DistinctRevisions(ReleasesOf(cells))
    ensures reached == ReachFrom(old(ReleasesOf(cells)), 0) && (ok ==> reached == |cells|)
    ensures forall i :: 0 <= i < |cells| ==>
              cells[i].pcrs == if i < reached then AfterValidate(cells[i].release, old(cells[i].pcrs))
                               else old(cells[i].pcrs)
  {
    ghost var releases, was := ReleasesOf(cells), PcrsOf(cells);
    ghost var after := seq(|cells|, i requires 0 <= i < |cells| => AfterValidate(releases[i], was[i]));
    var seen: set<string> := {};
    ok, reached := true, 0;
    var index := 0;
    while index < |cells| && ok
      invariant 0 <= index <= |cells| && ReleasesOf(cells) == releases
      invariant Validated(releases, index, seen, ok, reached)
      invariant PartlyDecoded(cells, reached, was, after)
      decreases |cells| - index, ok
    {
      NextValidated(releases, index, seen);
      ok := ValidateNext(cells, index, was, after);
      reached := index + 1;
      var revision := cells[index].release.sourceRevision;
      if ok {
        if revision in seen {
          ok := false;
        } else {
          seen := seen + {revision};
          index := index + 1;
        }
      }
    }
    ValidationOver(releases, index, seen, ok, reached);
  }

  /** The first `n` cells hold their measurements as they are `after` validation, the others as before. */
  ghost predicate PartlyDecoded(cells: seq<ReleaseCell>, n: nat, was: seq<map<nat, Bytes>>, after: seq<map<nat, Bytes>>)
    requires |was| == |after| == |cells|
    reads set c | c in cells
  {
    forall i :: 0 <= i < |cells| ==> cells[i].pcrs == if i < n then after[i] else was[i]
  }

  method ValidateNext(cells: seq<ReleaseCell>, index: nat,
                      ghost was: seq<map<nat, Bytes>>, ghost after: seq<map<nat, Bytes>>) returns (ok: bool)
    requires Distinct(cells) && index < |cells| && |was| == |after| == |cells|
    requires PartlyDecoded(cells, index, was, after) && after[index] == AfterValidate(cells[index].release, was[index])
    modifies (set c | c in cells)`pcrs
    ensures ok <==> ReleaseOk(cells[index].release)
    ensures PartlyDecoded(cells, index + 1, was, after) && ReleasesOf(cells) == old(ReleasesOf(cells))
  {
    ok := cells[index].Validate();
  }

  /** Where validation stands: `n` releases have passed, `seen` are their revisions, and then perhaps
      one was refused. */
  ghost predicate Validated(releases: seq<Release>, n: nat, seen: set<string>, ok: bool, reached: nat) {
    && n <= |releases| && reached <= |releases|
    && ReachFrom(releases, 0) == (if ok then ReachFrom(releases, n) else reached)
    && seen == (set i | 0 <= i < n :: releases[i].sourceRevision)
    && (forall i :: 0 <= i < n ==> !Refused(releases, i))
    && if ok then reached == n else reached == n + 1 && Refused(releases, n)
  }

  lemma NextValidated(releases: seq<Release>, n: nat, seen: set<string>)
    requires n < |releases| && Validated(releases, n, seen, true, n)
    ensures var revision := releases[n].sourceRevision;
            if !ReleaseOk(releases[n]) || revision in seen then Validated(releases, n, seen, false, n + 1)
            else Validated(releases, n + 1, seen + {revision}, true, n + 1)
  {
    assert Refused(releases, n) <==> !ReleaseOk(releases[n]) || releases[n].sourceRevision in seen;
  }

  lemma ValidationOver(releases: seq<Release>, n: nat, seen: set<string>, ok: bool, reached: nat)
    requires Validated(releases, n, seen, ok, reached) && (ok ==> n == |releases|)
    ensures ok <==> AllReleasesOk(releases) && DistinctRevisions(releases)
    ensures reached == ReachFrom(releases, 0) && (ok ==> reached == |releases|)
  {
    NoneRefused(releases);
  }

  /** What validating `offered` does to `held`, given the values in the cells of both, before and after:
      nothing exactly if nothing happens to the cells reached that both share. */
  lemma SharedCellsDecide<T>(held: seq<ReleaseCell>, offered: seq<ReleaseCell>, reached: nat,
                             heldWas: seq<T>, heldNow: seq<T>, offeredWas: seq<T>, offeredNow: seq<T>)
    requires |heldWas| == |heldNow| == |held| && |offeredWas| == |offeredNow| == |offered| && reached <= |offered|
    requires forall k :: 0 <= k < |held| && held[k] !in offered ==> heldNow[k] == heldWas[k]
    requires forall k, i :: 0 <= k < |held| && 0 <= i < |offered| && held[k] == offered[i] ==>
               heldWas[k] == offeredWas[i] && heldNow[k] == offeredNow[i]
    requires forall i :: reached <= i < |offered| ==> offeredNow[i] == offeredWas[i]
    ensures heldNow == heldWas <==>
              forall i :: 0 <= i < reached && offered[i] in held ==> offeredNow[i] == offeredWas[i]
  {
  }

  lemma DecodedWhenOk(p: Policy)
    requires Acceptable(p)
    ensures forall i, before :: 0 <= i < |p.releases| ==>
              AfterValidate(p.releases[i], before) == Decoded(p.releases[i])
  {
    assert forall i :: 0 <= i < |p.releases| ==> RevisionOk(p.releases[i].sourceRevision);
  }

  /** Validates a policy, and says when that leaves the measurements of other cells alone. */
  method ValidateBeside(p: PolicyRef, ghost held: seq<ReleaseCell>) returns (ok: bool, ghost reached: nat)
    requires OneSlice(p)
    modifies (set c | c in p.cells)`pcrs
    ensures ok <==> Acceptable(ValueOf(p))
    ensures reached == Reach(old(ValueOf(p))) <= |p.cells| && (ok ==> reached == |p.cells|)
    ensures forall i :: 0 <= i < |p.cells| ==>
              p.cells[i].pcrs == if i < reached then AfterValidate(p.cells[i].release, old(p.cells[i].pcrs))
                                 else old(p.cells[i].pcrs)
    ensures ReleasesOf(held) == old(ReleasesOf(held))
    ensures PcrsOf(held) == old(PcrsOf(held)) <==>
              forall i :: 0 <= i < reached && p.cells[i] in held ==> p.cells[i].pcrs == old(p.cells[i].pcrs)
  {
    ghost var was, offeredWas := PcrsOf(held), PcrsOf(p.cells);
    ok, reached := ValidatePolicy(p);
    SharedCellsDecide(held, p.cells, reached, was, PcrsOf(held), offeredWas, PcrsOf(p.cells));
  }

  class PolicyHolder {
    var policy: PolicyRef

    /** The releases in force with the measurements that evidence is compared against. */
    ghost function InForce(): (seq<Release>, seq<map<nat, Bytes>>)
      reads this, policy.cells
    {
      (ReleasesOf(policy.cells), PcrsOf(policy.cells))
    }

    /** The decoded measurements in force are those of the text beside them. */
    ghost predicate Settled()
      reads this, policy.cells
    {
      forall c :: c in policy.cells ==> c.pcrs == Decoded(c.release)
    }

    constructor (policy: PolicyRef)
      ensures this.policy == policy
    {
      this.policy := policy;
    }

    /** Validating `p` would find in every release in force that it reaches what is decoded there already. */
    ghost predicate Agrees(p: PolicyRef)
      reads this, policy.cells, p.cells
    {
      forall i :: 0 <= i < |p.cells| && i < Reach(ValueOf(p)) && p.cells[i] in policy.cells ==>
        p.cells[i].pcrs == AfterValidate(p.cells[i].release, p.cells[i].pcrs)
    }

    /** Replaces the policy wholesale. A rejected one leaves the previous one in force; it leaves the
        measurements in force alone exactly if it agrees with them on the shared releases it reaches.
        So it does if it brings its own releases, or if nobody has rewritten, behind the verifier's
        back, the text of releases that are in force. */
    method SetPolicy(replacement: PolicyRef) returns (ok: bool)
      requires OneSlice(replacement)
      modifies this, (set c | c in replacement.cells)`pcrs
      ensures ok <==> Acceptable(ValueOf(replacement))
      ensures ok ==> policy == replacement && Settled()
      ensures forall i :: 0 <= i < |replacement.cells| ==>
                var c := replacement.cells[i];
                c.pcrs == if i < Reach(old(ValueOf(replacement))) then AfterValidate(c.release, old(c.pcrs))
                          else old(c.pcrs)
      ensures !ok ==> policy == old(policy) && (InForce() == old(InForce()) <==> old(Agrees(replacement)))
      ensures !ok && (old(Settled()) || forall c :: c in old(policy).cells ==> c !in replacement.cells) ==>
                InForce() == old(InForce())
    {
      ghost var reached;
      ok, reached := ValidateBeside(replacement, policy.cells);
      if ok {
        DecodedWhenOk(ValueOf(replacement));
        policy := replacement;
      }
    }
  }

  /** A verifier comes into being only with an acceptable policy, decoded. */
  method NewHolder(policy: PolicyRef) returns (holder: PolicyHolder?)
    requires OneSlice(policy)
    modifies (set c | c in policy.cells)`pcrs
    ensures holder != null <==> Acceptable(ValueOf(policy))
    ensures holder != null ==> fresh(holder) && holder.policy == policy && holder.Settled()
  {
    var ok, reached := ValidatePolicy(policy);
    if !ok {
      return null;
    }
    holder := new PolicyHolder(policy);
  }

  lemma EmptiedByRefusal(header: Policy, bad: Release, before: map<nat, Bytes>)
    requires HeaderOk(header) && RevisionOk(bad.sourceRevision) && !PcrOk(bad.pcr0)
    ensures var p := header.(releases := [bad]); !Acceptable(p) && Reach(p) == 1
    ensures AfterValidate(bad, before) == map[]
  {
    assert Refused([bad], 0);
  }

  /** The condition is needed: when the text of a release in force was rewritten through a shared
      slice, rejecting the rewritten policy still takes the measurements of that release away. */
  method RejectedAfterRewrite(header: Policy, good: Release, bad: Release)
    returns (before: map<nat, Bytes>, after: map<nat, Bytes>, ok: bool)
    requires HeaderOk(header) && header.releases == [] && ReleaseOk(good)
    requires RevisionOk(bad.sourceRevision) && !PcrOk(bad.pcr0)
    ensures before == Measurements(good) && !ok && after == map[]
  {
    var holder, cell := HolderOf(header, good);
    before := cell.pcrs;
    cell.release := bad;
    var policy := PolicyRef(header, [cell]);
    assert ReleasesOf(policy.cells) == [bad] && ValueOf(policy) == header.(releases := [bad]);
    EmptiedByRefusal(header, bad, before);
    ok := holder.SetPolicy(policy);
    after := holder.policy.cells[0].pcrs;
  }

  method HolderOf(header: Policy, good: Release) returns (holder: PolicyHolder, cell: ReleaseCell)
    requires HeaderOk(header) && header.releases == [] && ReleaseOk(good)
    ensures fresh(holder) && fresh(cell) && holder.policy == PolicyRef(header, [cell])
    ensures cell.release == good && cell.pcrs == Measurements(good)
  {
    cell := new ReleaseCell(good);
    var policy := PolicyRef(header, [cell]);
    assert ReleasesOf(policy.cells) == [good] && ValueOf(policy) == header.(releases := [good]);
    holder := NewHolder(policy);
    assert cell in policy.cells && cell.pcrs == Decoded(good);
  }
}
