/** Newest first: the stable sort of release candidates by their date text. */
module ReleaseOrder {

  datatype Candidate = Candidate(manifestURL: string, bundleURL: string, publishedAt: string)

  /** Go's order on strings. */
  predicate Before(a: string, b: string) {
    b != [] && (a == [] || a[0] < b[0] || (a[0] == b[0] && Before(a[1..], b[1..])))
  }

  /** It is the lexicographic order: the first difference decides, and a prefix comes first. */
  lemma {:induction false} BeforeExactly(a: string, b: string)
    ensures Before(a, b) <==>
              exists k: nat :: k <= |a| && k < |b| && a[..k] == b[..k] && (k == |a| || a[k] < b[k])
  {
    if a != [] && b != [] && a[0] == b[0] {
      BeforeExactly(a[1..], b[1..]);
      if k: nat :| k <= |a| - 1 && k < |b| - 1 && a[1..][..k] == b[1..][..k]
                   && (k == |a| - 1 || a[1..][k] < b[1..][k]) {
        assert a[..k + 1] == [a[0]] + a[1..][..k] && b[..k + 1] == [b[0]] + b[1..][..k];
      }
      if k: nat :| k <= |a| && k < |b| && a[..k] == b[..k] && (k == |a| || a[k] < b[k]) {
        assert k > 0;
        assert a[1..][..k - 1] == a[..k][1..] && b[1..][..k - 1] == b[..k][1..];
      }
    } else if b != [] {
      if a == [] || a[0] < b[0] {
        assert a[..0] == b[..0];
      } else {
        assert forall k :: 0 < k <= |a| && k <= |b| ==> a[..k][0] == a[0] && b[..k][0] == b[0];
      }
    }
  }

  lemma {:induction false} BeforeIsTotal(a: string, b: string)
    ensures !(Before(a, b) && Before(b, a))
    ensures !Before(a, b) && !Before(b, a) ==> a == b
  {
    if a != [] && b != [] {
      BeforeIsTotal(a[1..], b[1..]);
      assert a == [a[0]] + a[1..] && b == [b[0]] + b[1..];
    }
  }

  lemma {:induction false} BeforeIsTransitive(a: string, b: string, c: string)
    ensures Before(a, b) && Before(b, c) ==> Before(a, c)
  {
    if a != [] && b != [] && c != [] {
      BeforeIsTransitive(a[1..], b[1..], c[1..]);
    }
  }

  /** No candidate comes after an older one. */
  ghost predicate NewestFirst(s: seq<Candidate>) {
    forall i, j :: 0 <= i < j < |s| ==> !Before(s[i].publishedAt, s[j].publishedAt)
  }

  /** The candidates published at one time, in their order. */
  function PublishedAt(s: seq<Candidate>, time: string): seq<Candidate> {
    if s == [] then []
    else (if s[0].publishedAt == time then [s[0]] else []) + PublishedAt(s[1..], time)
  }

  /** What a stable sort promises: order, and candidates of one time left in the order they came in. */
  ghost predicate StableSortOf(r: seq<Candidate>, s: seq<Candidate>) {
    NewestFirst(r) && forall time :: PublishedAt(r, time) == PublishedAt(s, time)
  }

  function Insert(c: Candidate, s: seq<Candidate>): seq<Candidate> {
    if s == [] || !Before(c.publishedAt, s[0].publishedAt) then [c] + s else [s[0]] + Insert(c, s[1..])
  }

  function Sort(s: seq<Candidate>): seq<Candidate> {
    if s == [] then [] else Insert(s[0], Sort(s[1..]))
  }

  lemma NewestFirstFront(c: Candidate, s: seq<Candidate>)
    ensures NewestFirst([c] + s) <==>
              NewestFirst(s) && forall j :: 0 <= j < |s| ==> !Before(c.publishedAt, s[j].publishedAt)
  {
    var all := [c] + s;
    assert all[0] == c;
    assert forall j :: 0 <= j < |s| ==> s[j] == all[j + 1];
    assert forall j :: 1 <= j < |all| ==> all[j] == s[j - 1];
  }

  lemma {:induction false} InsertKeepsOrder(c: Candidate, s: seq<Candidate>)
    requires NewestFirst(s)
    ensures NewestFirst(Insert(c, s)) && multiset(Insert(c, s)) == multiset(s) + multiset{c}
  {
    if s == [] {
    } else if !Before(c.publishedAt, s[0].publishedAt) {
      forall j | 0 <= j < |s|
        ensures !Before(c.publishedAt, s[j].publishedAt)
      {
        BeforeIsTransitive(c.publishedAt, s[j].publishedAt, s[0].publishedAt);
        BeforeIsTotal(s[0].publishedAt, s[j].publishedAt);
      }
      NewestFirstFront(c, s);
    } else {
      var rest := Insert(c, s[1..]);
      InsertKeepsOrder(c, s[1..]);
      assert s == [s[0]] + s[1..];
      forall j | 0 <= j < |rest|
        ensures !Before(s[0].publishedAt, rest[j].publishedAt)
      {
        assert rest[j] in multiset(rest);
        assert rest[j] == c || rest[j] in s[1..];
        BeforeIsTotal(s[0].publishedAt, c.publishedAt);
      }
      NewestFirstFront(s[0], rest);
    }
  }

  lemma {:induction false} InsertIsStable(c: Candidate, s: seq<Candidate>, time: string)
    ensures PublishedAt(Insert(c, s), time) == (if c.publishedAt == time then [c] else []) + PublishedAt(s, time)
  {
    if s == [] || !Before(c.publishedAt, s[0].publishedAt) {
      assert ([c] + s)[1..] == s;
    } else {
      var rest := Insert(c, s[1..]);
      assert ([s[0]] + rest)[1..] == rest;
      InsertIsStable(c, s[1..], time);
      BeforeIsTotal(c.publishedAt, s[0].publishedAt);
    }
  }

  /** Sorting keeps every candidate and does what a stable sort promises. */
  lemma {:induction false} SortIsStable(s: seq<Candidate>)
    ensures StableSortOf(Sort(s), s) && multiset(Sort(s)) == multiset(s)
  {
    if s != [] {
      SortIsStable(s[1..]);
      InsertKeepsOrder(s[0], Sort(s[1..]));
      assert s == [s[0]] + s[1..];
      forall time
        ensures PublishedAt(Sort(s), time) == PublishedAt(s, time)
      {
        InsertIsStable(s[0], Sort(s[1..]), time);
      }
    }
  }

  lemma {:induction false} PublishedAtHas(s: seq<Candidate>, time: string)
    ensures PublishedAt(s, time) == [] <==> forall i :: 0 <= i < |s| ==> s[i].publishedAt != time
  {
    if s != [] {
      PublishedAtHas(s[1..], time);
      assert forall i :: 0 <= i < |s[1..]| ==> s[1..][i] == s[i + 1];
    }
  }

  /** The promise leaves no choice: two stable sorts of the same candidates are equal, whatever the
      algorithm. */
  lemma {:induction false} StableSortIsUnique(r: seq<Candidate>, q: seq<Candidate>)
    requires NewestFirst(r) && NewestFirst(q)
    requires forall time :: PublishedAt(r, time) == PublishedAt(q, time)
    ensures r == q
  {
    if r == [] || q == [] {
      if r != [] {
        PublishedAtHas(r, r[0].publishedAt);
      }
      if q != [] {
        PublishedAtHas(q, q[0].publishedAt);
      }
    } else {
      SameNewest(r, q);
      forall time
        ensures PublishedAt(r[1..], time) == PublishedAt(q[1..], time)
      {
        assert PublishedAt(r, time) == PublishedAt(q, time);
        PublishedAtRest(r, time);
        PublishedAtRest(q, time);
      }
      StableSortIsUnique(r[1..], q[1..]);
    }
  }

  lemma PublishedAtRest(s: seq<Candidate>, time: string)
    requires s != []
    ensures PublishedAt(s[1..], time)
         == if s[0].publishedAt == time then PublishedAt(s, time)[1..] else PublishedAt(s, time)
  {
  }

  lemma SameNewest(r: seq<Candidate>, q: seq<Candidate>)
    requires r != [] && q != [] && NewestFirst(r) && NewestFirst(q)
    requires forall time :: PublishedAt(r, time) == PublishedAt(q, time)
    ensures r[0] == q[0]
  {
    NotNewer(r, q);
    NotNewer(q, r);
    BeforeIsTotal(r[0].publishedAt, q[0].publishedAt);
    assert PublishedAt(r, r[0].publishedAt)[0] == PublishedAt(q, r[0].publishedAt)[0];
  }

  /** The newest of one list is among the other, so the other's newest is no older. */
  lemma NotNewer(r: seq<Candidate>, q: seq<Candidate>)
    requires r != [] && q != [] && NewestFirst(q)
    requires PublishedAt(r, r[0].publishedAt) == PublishedAt(q, r[0].publishedAt)
    ensures !Before(q[0].publishedAt, r[0].publishedAt)
  {
    PublishedAtHas(r, r[0].publishedAt);
    PublishedAtHas(q, r[0].publishedAt);
    var i :| 0 <= i < |q| && q[i].publishedAt == r[0].publishedAt;
    BeforeIsTotal(q[0].publishedAt, q[i].publishedAt);
  }
}
