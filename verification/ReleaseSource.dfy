/** Finding signed releases: the listing, the selection of the newest that verify, and the cache that
    stands in for the network. */
module ReleaseSource {
  import opened Prelude
  import opened TrustPolicy
  import opened ReleaseManifest
  import opened ReleaseOrder

  const MANIFEST_SUFFIX: string := ".release.json"
  const BUNDLE_SUFFIX: string := ".release.json.sigstore.json"
  const MAX_ASSETS: nat := 32
  const DEFAULT_COUNT: nat := 3

  datatype Asset = Asset(name: string, url: string)

  datatype Listing = Listing(draft: bool, prerelease: bool, publishedAt: string, assets: seq<Asset>)

  datatype SignedRelease = SignedRelease(manifest: Bytes, bundle: Bytes)

  /** What the network answers during one fetch: the listing, if it can be had, and what a download
      of a URL brings when it is made for the i-th candidate. */
  datatype Web = Web(listing: Option<seq<Listing>>, get: (nat, string) -> Option<Bytes>)

  predicate HasSuffix(s: string, suffix: string) {
    |suffix| <= |s| && s[|s| - |suffix|..] == suffix
  }

  /** The address of the last asset with this suffix. */
  function LastURL(assets: seq<Asset>, suffix: string): string {
    if assets == [] then ""
    else if HasSuffix(assets[|assets| - 1].name, suffix) then assets[|assets| - 1].url
    else LastURL(assets[..|assets| - 1], suffix)
  }

  lemma SuffixMeaning(s: string, suffix: string)
    ensures HasSuffix(s, suffix) <==> exists front :: s == front + suffix
  {
    if HasSuffix(s, suffix) {
      assert s == s[..|s| - |suffix|] + suffix;
    }
  }

  /** Asset `i` is the last one with this suffix. */
  ghost predicate LastWith(assets: seq<Asset>, suffix: string, i: nat) {
    && i < |assets| && HasSuffix(assets[i].name, suffix)
    && forall j :: i < j < |assets| ==> !HasSuffix(assets[j].name, suffix)
  }

  lemma {:induction false} LastURLMeaning(assets: seq<Asset>, suffix: string)
    ensures forall i: nat :: LastWith(assets, suffix, i) ==> LastURL(assets, suffix) == assets[i].url
    ensures LastURL(assets, suffix) != "" ==> exists i: nat :: LastWith(assets, suffix, i)
  {
    if assets != [] && !HasSuffix(assets[|assets| - 1].name, suffix) {
      var front := assets[..|assets| - 1];
      LastURLMeaning(front, suffix);
      forall i: nat
        ensures LastWith(assets, suffix, i) <==> LastWith(front, suffix, i)
      {
        assert i < |front| ==> assets[i] == front[i];
      }
    } else if assets != [] {
      assert LastWith(assets, suffix, |assets| - 1);
    }
  }

  lemma SuffixesDiffer(name: string)
    ensures !(HasSuffix(name, MANIFEST_SUFFIX) && HasSuffix(name, BUNDLE_SUFFIX))
  {
    if |name| >= |BUNDLE_SUFFIX| {
      var at := |name| - |MANIFEST_SUFFIX|;
      assert name[at..][0] == name[|name| - |BUNDLE_SUFFIX|..][|BUNDLE_SUFFIX| - |MANIFEST_SUFFIX|];
    }
  }

  method AssetURLs(assets: seq<Asset>) returns (manifestURL: string, bundleURL: string)
    ensures manifestURL == LastURL(assets, MANIFEST_SUFFIX)
    ensures bundleURL == LastURL(assets, BUNDLE_SUFFIX)
  {
    manifestURL, bundleURL := "", "";
    for i := 0 to |assets|
      invariant manifestURL == LastURL(assets[..i], MANIFEST_SUFFIX)
      invariant bundleURL == LastURL(assets[..i], BUNDLE_SUFFIX)
    {
      assert assets[..i + 1][..i] == assets[..i];
      SuffixesDiffer(assets[i].name);
      if HasSuffix(assets[i].name, BUNDLE_SUFFIX) {
        bundleURL := assets[i].url;
      } else if HasSuffix(assets[i].name, MANIFEST_SUFFIX) {
        manifestURL := assets[i].url;
      }
    }
    assert assets[..|assets|] == assets;
  }

  /** The candidate a listed release makes, if it is a release with both its files. */
  function CandidateOf(l: Listing): Option<Candidate> {
    var m, b := LastURL(l.assets, MANIFEST_SUFFIX), LastURL(l.assets, BUNDLE_SUFFIX);
    if l.draft || l.prerelease || |l.assets| > MAX_ASSETS || m == "" || b == "" then None
    else Some(Candidate(m, b, l.publishedAt))
  }

  /** A listed release is a candidate exactly if it is out, has at most 32 assets and both files have an
      address; of several files with one suffix the last one counts. */
  lemma CandidateExactly(l: Listing, c: Candidate)
    ensures CandidateOf(l) == Some(c) <==>
              && !l.draft && !l.prerelease && |l.assets| <= 32 && c.publishedAt == l.publishedAt
              && c.manifestURL != "" && c.bundleURL != ""
              && (exists i: nat :: LastWith(l.assets, ".release.json", i) && l.assets[i].url == c.manifestURL)
              && exists j: nat :: LastWith(l.assets, ".release.json.sigstore.json", j) && l.assets[j].url == c.bundleURL
  {
    LastURLMeaning(l.assets, MANIFEST_SUFFIX);
    LastURLMeaning(l.assets, BUNDLE_SUFFIX);
  }

  function Candidates(listings: seq<Listing>): seq<Candidate> {
    if listings == [] then []
    else
      var c := CandidateOf(listings[|listings| - 1]);
      Candidates(listings[..|listings| - 1]) + if c.Some? then [c.value] else []
  }

  /** These are the positions of the listed releases that are candidates, and these the candidates. */
  ghost predicate Eligible(listings: seq<Listing>, at: seq<nat>, cands: seq<Candidate>) {
    && Increasing(at) && |at| == |cands|
    && (forall k :: 0 <= k < |at| ==> at[k] < |listings| && CandidateOf(listings[at[k]]) == Some(cands[k]))
    && forall i :: 0 <= i < |listings| && CandidateOf(listings[i]).Some? ==> i in at
  }

  /** The candidates are those of the eligible releases, each once and in listing order. */
  lemma {:induction false} CandidatesExactly(listings: seq<Listing>) returns (at: seq<nat>)
    ensures Eligible(listings, at, Candidates(listings))
  {
    at := [];
    if listings != [] {
      var front, last := listings[..|listings| - 1], listings[|listings| - 1];
      at := CandidatesExactly(front);
      EligibleMore(listings, front, at, Candidates(front));
      at := if CandidateOf(last).Some? then at + [|front|] else at;
    }
  }

  lemma EligibleMore(listings: seq<Listing>, front: seq<Listing>, at: seq<nat>, cands: seq<Candidate>)
    requires listings != [] && front == listings[..|listings| - 1] && Eligible(front, at, cands)
    ensures match CandidateOf(listings[|front|])
            case None => Eligible(listings, at, cands)
            case Some(c) => Eligible(listings, at + [|front|], cands + [c])
  {
    assert forall i :: 0 <= i < |front| ==> front[i] == listings[i];
    IncreasesBy(at, |front|);
    var more := at + [|front|];
    assert more[|at|] == |front| && forall k :: 0 <= k < |at| ==> more[k] == at[k];
  }

  /** The candidates of a fetch, newest first. */
  function Listed(web: Web): seq<Candidate> {
    if web.listing.None? then [] else Sort(Candidates(web.listing.value))
  }

  method ListReleases(web: Web) returns (candidates: Option<seq<Candidate>>)
    ensures candidates == if Listed(web) == [] then None else Some(Listed(web))
  {
    if web.listing.None? {
      return None;
    }
    var listings := web.listing.value;
    var kept := [];
    for i := 0 to |listings|
      invariant kept == Candidates(listings[..i])
    {
      assert listings[..i + 1][..i] == listings[..i];
      var listing := listings[i];
      if listing.draft || listing.prerelease || |listing.assets| > MAX_ASSETS {
        continue;
      }
      var manifestURL, bundleURL := AssetURLs(listing.assets);
      if manifestURL == "" || bundleURL == "" {
        continue;
      }
      kept := kept + [Candidate(manifestURL, bundleURL, listing.publishedAt)];
    }
    assert listings[..|listings|] == listings;
    SortIsStable(kept);
    if |kept| == 0 {
      return None;
    }
    assert multiset(Sort(kept)) == multiset(kept) && kept[0] in multiset(kept);
    return Some(Sort(kept));
  }

  function PairAt(web: Web, cands: seq<Candidate>, i: nat): Option<SignedRelease>
    requires i < |cands|
  {
    match (web.get(i, cands[i].manifestURL), web.get(i, cands[i].bundleURL))
    case (Some(m), Some(b)) => Some(SignedRelease(m, b))
    case _ => None
  }

  predicate Verifies(signing: Signing, web: Web, cands: seq<Candidate>, i: nat) {
    && i < |cands|
    && PairAt(web, cands, i).Some?
    && VerifyPair(signing, PairAt(web, cands, i).value).Some?
  }

  function VerifyPair(signing: Signing, pair: SignedRelease): Option<Manifest> {
    VerifyRelease(signing, pair.manifest, pair.bundle)
  }

  /** The positions below `n` of the candidates that can be downloaded and verify. */
  function Verifying(signing: Signing, web: Web, cands: seq<Candidate>, n: nat): (r: seq<nat>)
    requires n <= |cands|
    ensures forall k :: 0 <= k < |r| ==> r[k] < n && Verifies(signing, web, cands, r[k])
  {
    if n == 0 then []
    else Verifying(signing, web, cands, n - 1) + if Verifies(signing, web, cands, n - 1) then [n - 1] else []
  }

  lemma {:induction false} VerifyingIsComplete(signing: Signing, web: Web, cands: seq<Candidate>, n: nat)
    requires n <= |cands|
    ensures forall i :: 0 <= i < n && Verifies(signing, web, cands, i) ==> i in Verifying(signing, web, cands, n)
  {
    if n > 0 {
      VerifyingIsComplete(signing, web, cands, n - 1);
    }
  }

  predicate Increasing(r: seq<nat>) {
    forall j, k :: 0 <= j < k < |r| ==> r[j] < r[k]
  }

  lemma {:induction false} VerifyingInOrder(signing: Signing, web: Web, cands: seq<Candidate>, n: nat)
    requires n <= |cands|
    ensures Increasing(Verifying(signing, web, cands, n))
  {
    if n > 0 {
      VerifyingInOrder(signing, web, cands, n - 1);
      IncreasesBy(Verifying(signing, web, cands, n - 1), n - 1);
    }
  }

  lemma IncreasesBy(r: seq<nat>, x: nat)
    requires Increasing(r) && forall k :: 0 <= k < |r| ==> r[k] < x
    ensures Increasing(r + [x])
  {
  }

  lemma {:induction false} VerifyingGrows(signing: Signing, web: Web, cands: seq<Candidate>, n: nat, m: nat)
    requires n <= m <= |cands|
    ensures |Verifying(signing, web, cands, n)| <= |Verifying(signing, web, cands, m)|
    ensures Verifying(signing, web, cands, n)
         == Verifying(signing, web, cands, m)[..|Verifying(signing, web, cands, n)|]
  {
    if n < m {
      VerifyingGrows(signing, web, cands, n, m - 1);
    }
  }

  /** The chosen positions: the first `count` that verify. */
  function Chosen(signing: Signing, web: Web, cands: seq<Candidate>, count: nat): (r: seq<nat>)
    ensures forall k :: 0 <= k < |r| ==> Verifies(signing, web, cands, r[k])
  {
    var all := Verifying(signing, web, cands, |cands|);
    all[..Min(count, |all|)]
  }

  function PairsAt(web: Web, cands: seq<Candidate>, positions: seq<nat>): seq<SignedRelease>
    requires forall k :: 0 <= k < |positions| ==> positions[k] < |cands| && PairAt(web, cands, positions[k]).Some?
  {
    seq(|positions|, k requires 0 <= k < |positions| => PairAt(web, cands, positions[k]).value)
  }

  function ManifestsOf(signing: Signing, pairs: seq<SignedRelease>): seq<Manifest>
    requires forall k :: 0 <= k < |pairs| ==> VerifyPair(signing, pairs[k]).Some?
  {
    seq(|pairs|, k requires 0 <= k < |pairs| => VerifyPair(signing, pairs[k]).value)
  }

  /** The signed pairs a fetch chooses. */
  function FetchedPairs(signing: Signing, web: Web, count: nat): (pairs: seq<SignedRelease>)
    ensures forall k :: 0 <= k < |pairs| ==> VerifyPair(signing, pairs[k]).Some?
  {
    PairsAt(web, Listed(web), Chosen(signing, web, Listed(web), count))
  }

  /** What the cache yields: nothing if it holds nothing or one of the entries read is refused. */
  function Replay(signing: Signing, entries: Option<seq<SignedRelease>>, count: nat): Option<seq<Manifest>> {
    if entries.None? || entries.value == [] then None
    else
      var read := entries.value[..Min(count, |entries.value|)];
      if forall k :: 0 <= k < |read| ==> VerifyPair(signing, read[k]).Some?
      then Some(ManifestsOf(signing, read)) else None
  }

  /** The cache yields these manifests exactly if it holds something, and every one of its first `count`
      entries verifies as the manifest at its place. */
  lemma ReplayExactly(signing: Signing, entries: seq<SignedRelease>, count: nat, manifests: seq<Manifest>)
    ensures Replay(signing, Some(entries), count) == Some(manifests) <==>
              && entries != [] && |manifests| == Min(count, |entries|)
              && forall k :: 0 <= k < |manifests| ==>
                   VerifyRelease(signing, entries[k].manifest, entries[k].bundle) == Some(manifests[k])
    ensures Replay(signing, None, count) == None
  {
    var read := entries[..Min(count, |entries|)];
    if |manifests| == |read| && forall k :: 0 <= k < |read| ==> VerifyPair(signing, read[k]) == Some(manifests[k]) {
      assert ManifestsOf(signing, read) == manifests;
    }
  }

  /** Every chosen pair was downloaded from the two addresses of one candidate, and it verifies. */
  lemma ChosenAreDownloaded(signing: Signing, web: Web, count: nat)
    ensures var at, pairs := Chosen(signing, web, Listed(web), count), FetchedPairs(signing, web, count);
            && |at| == |pairs| <= count
            && forall k :: 0 <= k < |at| ==>
                 && at[k] < |Listed(web)|
                 && web.get(at[k], Listed(web)[at[k]].manifestURL) == Some(pairs[k].manifest)
                 && web.get(at[k], Listed(web)[at[k]].bundleURL) == Some(pairs[k].bundle)
                 && VerifyRelease(signing, pairs[k].manifest, pairs[k].bundle).Some?
  {
  }

  /** A candidate is passed over exactly if one of its files cannot be had or the two do not verify. */
  lemma VerifiesExactly(signing: Signing, web: Web, cands: seq<Candidate>, i: nat)
    requires i < |cands|
    ensures Verifies(signing, web, cands, i) <==>
              exists m, b :: web.get(i, cands[i].manifestURL) == Some(m) && web.get(i, cands[i].bundleURL) == Some(b)
                && VerifyRelease(signing, m, b).Some?
  {
    if Verifies(signing, web, cands, i) {
      var pair := PairAt(web, cands, i).value;
      assert web.get(i, cands[i].manifestURL) == Some(pair.manifest);
    }
  }

  /** What has been selected from the first `n` candidates. */
  ghost predicate Selected(signing: Signing, web: Web, cands: seq<Candidate>, n: nat, manifests: seq<Manifest>,
                           signed: seq<SignedRelease>) {
    && n <= |cands|
    && signed == PairsAt(web, cands, Verifying(signing, web, cands, n))
    && manifests == ManifestsOf(signing, signed)
  }

  lemma SelectNext(signing: Signing, web: Web, cands: seq<Candidate>, n: nat, manifests: seq<Manifest>,
                   signed: seq<SignedRelease>)
    requires n < |cands| && Selected(signing, web, cands, n, manifests, signed)
    ensures if Verifies(signing, web, cands, n) then
              var pair := PairAt(web, cands, n).value;
              Selected(signing, web, cands, n + 1, manifests + [VerifyPair(signing, pair).value], signed + [pair])
            else Selected(signing, web, cands, n + 1, manifests, signed)
  {
    if Verifies(signing, web, cands, n) {
      var pair := PairAt(web, cands, n).value;
      var more := signed + [pair];
      assert more == PairsAt(web, cands, Verifying(signing, web, cands, n + 1));
      assert ManifestsOf(signing, more) == manifests + [VerifyPair(signing, pair).value];
    }
  }

  lemma SelectionOver(signing: Signing, web: Web, cands: seq<Candidate>, n: nat, manifests: seq<Manifest>,
                      signed: seq<SignedRelease>, count: nat)
    requires Selected(signing, web, cands, n, manifests, signed)
    requires |manifests| == count || (|manifests| < count && n == |cands|)
    ensures signed == PairsAt(web, cands, Chosen(signing, web, cands, count))
  {
    VerifyingGrows(signing, web, cands, n, |cands|);
  }

  /** A cell for signed releases that is replaced as a whole: None when it cannot be read. */
  class Cache {
    var entries: Option<seq<SignedRelease>>

    constructor (entries: Option<seq<SignedRelease>>)
      ensures this.entries == entries
    {
      this.entries := entries;
    }

    method Store(entries: seq<SignedRelease>, storable: bool) returns (ok: bool)
      modifies this
      ensures ok <==> entries != [] && storable
      ensures this.entries == if ok then Some(entries) else old(this.entries)
    {
      if |entries| == 0 || !storable {
        return false;
      }
      this.entries := Some(entries);
      return true;
    }
  }

  /** The policy that manifests make, if they make one. */
  function PolicyOf(manifests: seq<Manifest>): Option<Policy> {
    if Acceptable(DocumentOf(Releases(manifests))) then Some(DocumentOf(Releases(manifests))) else None
  }

  function Outcome(policy: Option<PolicyRef>): Option<Policy>
    reads if policy.Some? then set c | c in policy.value.cells else {}
  {
    if policy.Some? then Some(ValueOf(policy.value)) else None
  }

  class Source {
    const count: nat
    var cache: Cache?

    constructor (count: nat)
      ensures this.count == count && cache == null
    {
      this.count := count;
      cache := null;
    }

    method WithCache(cache: Cache)
      modifies this
      ensures this.cache == cache
    {
      this.cache := cache;
    }

    /** The manifests of the chosen candidates; their signed pairs, in the same order, are stored. A
        candidate that cannot be had or does not verify is passed over. */
    method Fetch(signing: Signing, web: Web, storable: bool) returns (manifests: Option<seq<Manifest>>)
      requires count >= 1
      modifies cache
      ensures var pairs := FetchedPairs(signing, web, count);
              && manifests == (if pairs == [] then None else Some(ManifestsOf(signing, pairs)))
              && (cache != null ==>
                    cache.entries == if pairs != [] && storable then Some(pairs) else old(cache.entries))
    {
      var listed := ListReleases(web);
      if listed.None? {
        assert FetchedPairs(signing, web, count) == [];
        return None;
      }
      var found, signed := Select(signing, web, listed.value);
      if |found| == 0 {
        return None;
      }
      if cache != null && |signed| > 0 {
        var _ := cache.Store(signed, storable);
      }
      return Some(found);
    }

    method Select(signing: Signing, web: Web, listed: seq<Candidate>)
      returns (manifests: seq<Manifest>, signed: seq<SignedRelease>)
      requires count >= 1
      ensures signed == PairsAt(web, listed, Chosen(signing, web, listed, count))
      ensures manifests == ManifestsOf(signing, signed)
    {
      manifests, signed := [], [];
      for i := 0 to |listed|
        invariant |manifests| < count && Selected(signing, web, listed, i, manifests, signed)
      {
        SelectNext(signing, web, listed, i, manifests, signed);
        var manifest := web.get(i, listed[i].manifestURL);
        if manifest.None? {
          continue;
        }
        var bundle := web.get(i, listed[i].bundleURL);
        if bundle.None? {
          continue;
        }
        var verified := VerifyRelease(signing, manifest.value, bundle.value);
        if verified.None? {
          continue;
        }
        manifests := manifests + [verified.value];
        signed := signed + [SignedRelease(manifest.value, bundle.value)];
        if |manifests| == count {
          SelectionOver(signing, web, listed, i + 1, manifests, signed, count);
          return;
        }
      }
      SelectionOver(signing, web, listed, |listed|, manifests, signed, count);
    }

    /** The manifests in the cache, every one of them verified anew. */
    method Cached(signing: Signing) returns (manifests: Option<seq<Manifest>>)
      requires count >= 1
      ensures manifests == if cache == null then None else Replay(signing, cache.entries, count)
    {
      if cache == null || cache.entries.None? || |cache.entries.value| == 0 {
        return None;
      }
      var entries := cache.entries.value;
      var found := [];
      for i := 0 to |entries|
        invariant i < count && |found| == i
        invariant forall k :: 0 <= k < i ==> VerifyPair(signing, entries[k]) == Some(found[k])
      {
        var verified := VerifyRelease(signing, entries[i].manifest, entries[i].bundle);
        if verified.None? {
          assert entries[..Min(count, |entries|)][i] == entries[i];
          return None;
        }
        found := found + [verified.value];
        if |found| == count {
          break;
        }
      }
      ghost var read := entries[..Min(count, |entries|)];
      assert |found| == |read| && forall k :: 0 <= k < |read| ==> VerifyPair(signing, read[k]) == Some(found[k]);
      assert ManifestsOf(signing, read) == found;
      return Some(found);
    }

    /** A policy from the newest signed releases, or from the cached ones if they cannot be fetched.
        Releases that were fetched but make no policy are not replaced by cached ones. */
    method Policy(signing: Signing, web: Web, storable: bool) returns (policy: Option<PolicyRef>)
      requires count >= 1
      modifies cache
      ensures policy.Some? ==> OneSlice(policy.value) && forall c :: c in policy.value.cells ==> fresh(c)
      ensures var pairs := FetchedPairs(signing, web, count);
              && (cache != null ==>
                    cache.entries == if pairs != [] && storable then Some(pairs) else old(cache.entries))
              && if pairs != [] then Outcome(policy) == PolicyOf(ManifestsOf(signing, pairs))
                 else if cache == null || Replay(signing, old(cache.entries), count).None? then policy == None
                 else Outcome(policy) == PolicyOf(Replay(signing, old(cache.entries), count).value)
    {
      var manifests := Fetch(signing, web, storable);
      if manifests.None? {
        manifests := Cached(signing);
      }
      if manifests.None? {
        return None;
      }
      policy := PolicyFrom(manifests.value);
    }
  }

  /** A source for one to four releases, three if the caller does not say; anything else is refused. */
  method NewSource(count: int) returns (source: Source?)
    ensures source != null <==> 0 <= count <= 4
    ensures source != null ==>
              fresh(source) && source.cache == null && source.count == if count == 0 then 3 else count
  {
    var wanted := if count == 0 then DEFAULT_COUNT else count;
    if wanted < 1 || wanted > MAX_RELEASES {
      return null;
    }
    source := new Source(wanted);
  }

  method PolicyFrom(manifests: seq<Manifest>) returns (policy: Option<PolicyRef>)
    ensures Outcome(policy) == PolicyOf(manifests)
    ensures policy.Some? ==> OneSlice(policy.value) && forall c :: c in policy.value.cells ==> fresh(c)
  {
    var wrapped := seq(|manifests|, i requires 0 <= i < |manifests| => Some(manifests[i]));
    assert Values(wrapped) == manifests;
    policy := DerivePolicy(wrapped);
  }

  lemma FrontIsSmaller(all: seq<nat>, m: nat, x: nat, y: nat)
    requires Increasing(all) && m <= |all| && x in all[..m] && y in all && y !in all[..m]
    ensures m < |all| && x < y
  {
    var j :| 0 <= j < |all| && all[j] == y;
    assert forall k :: 0 <= k < m ==> all[..m][k] == all[k];
  }

  /** A release that verifies and is not chosen is no newer than any that is. */
  lemma NewestAreChosen(signing: Signing, web: Web, count: nat, chosen: nat, other: nat)
    requires chosen in Chosen(signing, web, Listed(web), count)
    requires Verifies(signing, web, Listed(web), other) && other !in Chosen(signing, web, Listed(web), count)
    ensures |Chosen(signing, web, Listed(web), count)| == count && chosen < other
    ensures !Before(Listed(web)[chosen].publishedAt, Listed(web)[other].publishedAt)
  {
    var cands := Listed(web);
    var all := Verifying(signing, web, cands, |cands|);
    VerifyingInOrder(signing, web, cands, |cands|);
    VerifyingIsComplete(signing, web, cands, |cands|);
    FrontIsSmaller(all, Min(count, |all|), chosen, other);
    SortIsStable(Candidates(web.listing.value));
  }

  /** Replaying what a fetch stored gives back the same manifests in the same order. */
  lemma CacheReplays(signing: Signing, web: Web, count: nat)
    requires FetchedPairs(signing, web, count) != []
    ensures var pairs := FetchedPairs(signing, web, count);
            Replay(signing, Some(pairs), count) == Some(ManifestsOf(signing, pairs))
  {
    var pairs := FetchedPairs(signing, web, count);
    assert pairs[..Min(count, |pairs|)] == pairs;
  }

  /** Once a fetch was stored, a start that can fetch nothing that verifies comes to the same policy, or
      fails as the online one did. */
  method OnlineThenOffline(source: Source, cache: Cache, signing: Signing, web: Web, offline: Web)
    returns (online: Option<PolicyRef>, later: Option<PolicyRef>)
    requires source.count >= 1
    requires FetchedPairs(signing, web, source.count) != [] && FetchedPairs(signing, offline, source.count) == []
    modifies source, cache
    ensures Outcome(later) == Outcome(online)
    ensures online.Some? ==> forall c :: c in online.value.cells ==> fresh(c)
  {
    source.WithCache(cache);
    online := source.Policy(signing, web, true);
    ghost var value := Outcome(online);
    CacheReplays(signing, web, source.count);
    later := source.Policy(signing, offline, true);
    assert Outcome(online) == value;
  }

  /** Releases that were fetched make a policy if and only if no two name one revision. */
  lemma FetchedFailsOnlyOnDuplicates(signing: Signing, web: Web, count: nat)
    requires count <= MAX_RELEASES && FetchedPairs(signing, web, count) != []
    ensures var manifests := ManifestsOf(signing, FetchedPairs(signing, web, count));
            && (PolicyOf(manifests).Some? <==>
                  forall i, j :: 0 <= i < j < |manifests| ==> manifests[i].revision != manifests[j].revision)
            && (PolicyOf(manifests).Some? ==> PolicyOf(manifests).value.releases == Releases(manifests))
  {
    ValidatorsAgree(ManifestsOf(signing, FetchedPairs(signing, web, count)));
  }
}
