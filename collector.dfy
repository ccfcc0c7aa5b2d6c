/**
 * `fetchAndSave`: fetch every source, merge the bodies into the raw list and
 * the deduplicated set under one lock, and write the set to
 * `unique_proxies.txt`.
 */
module Collector {
  import opened Wrappers
  import opened GoStrings
  import opened LineFile
  import opened Storage
  import opened Loader

  /** What one source goroutine ends with: `http.Get` failed, `io.ReadAll` failed, or a body. */
  datatype Fetch = GetFailed | ReadFailed | Body(body: string)

  /** The pieces a goroutine adds to `allProxies`: none for a failed source. */
  function Pieces(f: Fetch): seq<string> {
    if f.Body? then Split(f.body) else []
  }

  /** The keys the merge loop sets in `uniqueProxies` for these pieces. */
  function NonEmpty(pieces: seq<string>): (keys: set<string>)
    ensures forall p :: p in keys <==> p in pieces && p != []
  {
    set p | p in pieces && p != []
  }

  /** `allProxies` after the merges of `done`, in that order. */
  function RawOf(done: seq<Fetch>): seq<string> {
    if done == [] then [] else Pieces(done[0]) + RawOf(done[1..])
  }

  /** The key set of `uniqueProxies` after the merges of `done`. */
  function UniqueOf(done: seq<Fetch>): (unique: set<string>)
    ensures forall p :: p in unique ==> p != [] && '\n' !in p
  {
    if done == [] then {} else UniqueOf(done[..|done| - 1]) + NonEmpty(Pieces(done[|done| - 1]))
  }

  lemma {:induction false} RawOfAppend(a: seq<Fetch>, b: seq<Fetch>)
    ensures RawOf(a + b) == RawOf(a) + RawOf(b)
  {
    if a == [] {
      assert a + b == b;
    } else {
      assert (a + b)[0] == a[0] && (a + b)[1..] == a[1..] + b;
      RawOfAppend(a[1..], b);
    }
  }

  lemma RawOfOne(f: Fetch)
    ensures RawOf([f]) == Pieces(f)
  {
    assert [f][1..] == [];
  }

  /**
   * A proxy is in the deduplicated set exactly when it is a non-empty piece
   * of some successfully fetched body.
   */
  lemma {:induction false} UniqueMembers(done: seq<Fetch>, p: string)
    ensures p in UniqueOf(done) <==> p != [] && exists k :: 0 <= k < |done| && p in Pieces(done[k])
  {
    if done != [] {
      var init := done[..|done| - 1];
      UniqueMembers(init, p);
      if exists k :: 0 <= k < |init| && p in Pieces(init[k]) {
        var k :| 0 <= k < |init| && p in Pieces(init[k]);
        assert done[k] == init[k];
      }
      if exists k :: 0 <= k < |done| && p in Pieces(done[k]) {
        var k :| 0 <= k < |done| && p in Pieces(done[k]);
        if k < |init| {
          assert init[k] == done[k];
        }
      }
    }
  }

  /** The merge order does not matter for the set: it depends only on which outcomes were merged. */
  lemma UniqueOrderIndependent(a: seq<Fetch>, b: seq<Fetch>)
    requires multiset(a) == multiset(b)
    ensures UniqueOf(a) == UniqueOf(b)
  {
    forall p ensures p in UniqueOf(a) <==> p in UniqueOf(b) {
      UniqueMembers(a, p);
      UniqueMembers(b, p);
      if p != [] && exists k :: 0 <= k < |a| && p in Pieces(a[k]) {
        var k :| 0 <= k < |a| && p in Pieces(a[k]);
        assert a[k] in multiset(b);
        var j :| 0 <= j < |b| && b[j] == a[k];
      }
      if p != [] && exists k :: 0 <= k < |b| && p in Pieces(b[k]) {
        var k :| 0 <= k < |b| && p in Pieces(b[k]);
        assert b[k] in multiset(a);
        var j :| 0 <= j < |a| && a[j] == b[k];
      }
    }
  }

  /** The raw list of `b` is that of `b` without its `j`-th outcome, plus that outcome's pieces. */
  lemma RawRemove(b: seq<Fetch>, j: nat)
    requires j < |b|
    ensures multiset(RawOf(b)) == multiset(Pieces(b[j])) + multiset(RawOf(b[..j] + b[j + 1..]))
  {
    var tail := b[j + 1..];
    assert b == b[..j] + ([b[j]] + tail);
    assert ([b[j]] + tail)[1..] == tail;
    RawOfAppend(b[..j], [b[j]] + tail);
    RawOfAppend(b[..j], tail);
    var p, q, r := RawOf(b[..j]), Pieces(b[j]), RawOf(tail);
    assert RawOf([b[j]] + tail) == q + r;
    assert RawOf(b) == p + (q + r);
    assert RawOf(b[..j] + tail) == p + r;
    assert multiset(p + (q + r)) == multiset(q) + multiset(p + r);
  }

  lemma MultisetRemove(a: seq<Fetch>, b: seq<Fetch>, j: nat)
    requires multiset(a) == multiset(b) && a != [] && j < |b| && b[j] == a[0]
    ensures multiset(a[1..]) == multiset(b[..j] + b[j + 1..])
  {
    assert a == [a[0]] + a[1..];
    assert b == b[..j] + [b[j]] + b[j + 1..];
    assert multiset(a[1..]) == multiset(a) - multiset{a[0]};
    assert multiset(b[..j] + b[j + 1..]) == multiset(b) - multiset{b[j]};
  }

  /** Any two merge orders of the same outcomes give raw lists that are permutations of each other. */
  lemma {:induction false} RawOrderIndependent(a: seq<Fetch>, b: seq<Fetch>)
    requires multiset(a) == multiset(b)
    ensures multiset(RawOf(a)) == multiset(RawOf(b))
    decreases |a|
  {
    if a != [] {
      assert a[0] in multiset(b);
      var j :| 0 <= j < |b| && b[j] == a[0];
      MultisetRemove(a, b, j);
      RawOrderIndependent(a[1..], b[..j] + b[j + 1..]);
      RawRemove(b, j);
    }
  }

  /**
   * Merging the same body again leaves the set as it was after the first
   * merge, while the raw list grows by the body's pieces once more.
   */
  lemma MergeAgain(done: seq<Fetch>, f: Fetch)
    ensures UniqueOf(done + [f, f]) == UniqueOf(done + [f])
    ensures RawOf(done + [f, f]) == RawOf(done + [f]) + Pieces(f)
  {
    assert done + [f, f] == (done + [f]) + [f];
    RawOfAppend(done + [f], [f]);
    RawOfOne(f);
    assert (done + [f, f])[..|done| + 1] == done + [f];
    assert (done + [f])[..|done|] == done;
  }

  /**
   * Listing the same sources twice, or running the collector again on sources
   * that answer the same, gives the same set.
   */
  lemma RepeatedSourcesIdempotent(done: seq<Fetch>)
    ensures UniqueOf(done + done) == UniqueOf(done)
  {
    forall p ensures p in UniqueOf(done + done) <==> p in UniqueOf(done) {
      UniqueMembers(done + done, p);
      UniqueMembers(done, p);
      if p != [] && exists k :: 0 <= k < |done + done| && p in Pieces((done + done)[k]) {
        var k :| 0 <= k < |done + done| && p in Pieces((done + done)[k]);
        var j := if k < |done| then k else k - |done|;
        assert (done + done)[k] == done[j];
      }
      if p != [] && exists k :: 0 <= k < |done| && p in Pieces(done[k]) {
        var k :| 0 <= k < |done| && p in Pieces(done[k]);
        assert (done + done)[k] == done[k];
      }
    }
  }

  /** A source whose fetch or read failed leaves both collections as they were. */
  lemma FailedSourceNoOp(done: seq<Fetch>, f: Fetch)
    requires !f.Body?
    ensures RawOf(done + [f]) == RawOf(done) && UniqueOf(done + [f]) == UniqueOf(done)
  {
    RawOfAppend(done, [f]);
    RawOfOne(f);
    assert (done + [f])[..|done|] == done;
  }

  /**
   * The state shared by the source goroutines: `allProxies` and the keys of
   * `uniqueProxies` (a map whose values are always `true`), guarded by `mu`.
   */
  class Collection {
    var raw: seq<string>
    var unique: set<string>
    /** The per-source outcomes merged so far, in the order the lock was taken. */
    ghost var merged: seq<Fetch>

    ghost predicate Valid()
      reads this
    {
      raw == RawOf(merged) && unique == UniqueOf(merged)
    }

    constructor ()
      ensures Valid() && merged == [] && raw == [] && unique == {}
    {
      raw, unique, merged := [], {}, [];
    }

    /** The critical section of a source whose body was read. */
    method Merge(body: string)
      requires Valid()
      modifies this
      ensures Valid() && merged == old(merged) + [Body(body)]
      ensures raw == old(raw) + Split(body)
      ensures unique == old(unique) + NonEmpty(Split(body))
    {
      var proxies := Split(body);
      raw := raw + proxies;
      var i := 0;
      while i < |proxies|
        invariant 0 <= i <= |proxies|
        invariant raw == old(raw) + proxies && merged == old(merged)
        invariant unique == old(unique) + NonEmpty(proxies[..i])
      {
        if proxies[i] != [] {
          unique := unique + {proxies[i]};
        }
        assert proxies[..i + 1] == proxies[..i] + [proxies[i]];
        i := i + 1;
      }
      assert proxies[..i] == proxies;
      RawOfAppend(merged, [Body(body)]);
      RawOfOne(Body(body));
      merged := merged + [Body(body)];
      assert merged[..|merged| - 1] == old(merged);
    }

    /** One source goroutine: a failed fetch or read is logged and contributes nothing. */
    method Absorb(outcome: Fetch)
      requires Valid()
      modifies this
      ensures Valid() && merged == old(merged) + [outcome]
      ensures raw == old(raw) + Pieces(outcome)
      ensures unique == old(unique) + NonEmpty(Pieces(outcome))
    {
      if outcome.Body? {
        Merge(outcome.body);
      } else {
        RawOfAppend(merged, [outcome]);
        RawOfOne(outcome);
        merged := merged + [outcome];
        assert merged[..|merged| - 1] == old(merged);
      }
    }
  }

  /** `xs` lists every element of `s` exactly once. */
  ghost predicate IsListing(xs: seq<string>, s: set<string>) {
    && (forall p :: p in xs <==> p in s)
    && (forall i, j :: 0 <= i < j < |xs| ==> xs[i] != xs[j])
  }

  lemma {:induction false} ListingSize(xs: seq<string>, s: set<string>)
    requires IsListing(xs, s)
    ensures |xs| == |s|
    decreases |xs|
  {
    if xs != [] {
      var x := xs[|xs| - 1];
      var init := xs[..|xs| - 1];
      forall p ensures p in init <==> p in s - {x} {
        if p in init {
          var i :| 0 <= i < |init| && init[i] == p;
          assert xs[i] == p;
        }
        if p in s - {x} {
          assert p in xs;
          var i :| 0 <= i < |xs| && xs[i] == p;
          assert i < |xs| - 1;
          assert init[i] == p;
        }
      }
      ListingSize(init, s - {x});
    }
  }

  /**
   * The write loop over the map: every key once, in an order the map chooses
   * (here: any order), each written as the key followed by a newline.
   */
  method WriteSet(unique: set<string>) returns (listing: seq<string>, content: string)
    ensures IsListing(listing, unique) && |listing| == |unique|
    ensures content == Render(listing)
  {
    listing, content := [], [];
    var rest := unique;
    while rest != {}
      invariant forall p :: p in unique <==> p in rest || p in listing
      invariant forall p :: p in listing ==> p !in rest
      invariant forall i, j :: 0 <= i < j < |listing| ==> listing[i] != listing[j]
      invariant |listing| + |rest| == |unique|
      invariant content == Render(listing)
      decreases |rest|
    {
      var p :| p in rest;
      RenderAppend(listing, p);
      listing := listing + [p];
      content := content + p + "\n";
      rest := rest - {p};
    }
  }

  /**
   * Re-reading `unique_proxies.txt` line by line gives one line per key,
   * each key with at most one trailing carriage return removed; so when no
   * key ends in a carriage return the lines are exactly the keys.
   */
  lemma UniqueRoundTrip(done: seq<Fetch>, listing: seq<string>)
    requires IsListing(listing, UniqueOf(done))
    ensures |ScanLines(Render(listing))| == |UniqueOf(done)|
    ensures ScanLines(Render(listing)) == DropCRs(listing)
    ensures (forall p :: p in UniqueOf(done) ==> !EndsInCR(p)) ==>
      forall p :: p in ScanLines(Render(listing)) <==> p in UniqueOf(done)
  {
    ListingSize(listing, UniqueOf(done));
    ScanRender(listing);
  }

  /**
   * The outcome of the goroutine started for each URL, in URL order.
   * `fetch(k, url)` is what the `k`-th goroutine got for `url`, so a URL
   * listed twice may be answered differently by its two goroutines.
   */
  function Outcomes(fetch: (nat, string) -> Fetch, urls: seq<string>): (outcomes: seq<Fetch>)
    ensures |outcomes| == |urls|
    ensures forall k :: 0 <= k < |urls| ==> outcomes[k] == fetch(k, urls[k])
  {
    seq(|urls|, k requires 0 <= k < |urls| => fetch(k, urls[k]))
  }

  /** What `fetchAndSave` prints at the end: stopped after `loadURLs`, stopped at `os.Create`, or the two counts. */
  datatype CollectReport = LoadFailed(error: LoadError) | OutputFailed | Saved(rawCount: nat, uniqueCount: nat)

  /**
   * `fetchAndSave`. `fetch` stands for the network; `order` is the order in
   * which the goroutines took the lock and `listing` the order in which the
   * map was written. Whatever the order, the set written is the non-empty
   * pieces of all fetched bodies and the raw count is their total number of
   * pieces (empty ones included). A load error writes nothing; a missing
   * `urls.txt` does not stop the stage, which then rewrites the list empty.
   */
  method FetchAndSave(disk: Disk, fetch: (nat, string) -> Fetch)
    returns (after: Disk, report: CollectReport, order: seq<Fetch>, listing: seq<string>)
    ensures Loaded(disk).Failure? ==> after == disk && report == LoadFailed(Loaded(disk).error)
    ensures Loaded(disk).Success? ==>
      var outcomes := Outcomes(fetch, Loaded(disk).value);
      && multiset(order) == multiset(outcomes)
      && if disk.canCreate then
           && report == Saved(|RawOf(outcomes)|, |UniqueOf(outcomes)|)
           && IsListing(listing, UniqueOf(outcomes))
           && after == AfterLoad(disk).(unique := Present(Render(listing)))
         else
           report == OutputFailed && after == AfterLoad(disk)
    ensures disk.urls.Absent? && disk.canCreate ==> after.urls == Present([]) && after.unique == Present([])
  {
    var loaded;
    loaded, after := LoadUrls(disk);
    order, listing := [], [];
    if loaded.Failure? {
      return after, LoadFailed(loaded.error), order, listing;
    }
    var outcomes := Outcomes(fetch, loaded.value);
    var pool := new Collection();
    var pending := multiset(outcomes);
    while pending != multiset{}
      invariant pool.Valid() && pool.merged == order
      invariant multiset(order) + pending == multiset(outcomes)
      decreases |pending|
    {
      var f :| f in pending;
      pool.Absorb(f);
      order := order + [f];
      pending := pending - multiset{f};
    }
    UniqueOrderIndependent(order, outcomes);
    RawOrderIndependent(order, outcomes);
    assert |RawOf(order)| == |multiset(RawOf(order))|;
    if !after.canCreate {
      return after, OutputFailed, order, listing;
    }
    var content;
    listing, content := WriteSet(pool.unique);
    after := after.(unique := Present(content));
    report := Saved(|pool.raw|, |pool.unique|);
  }

  lemma SplitExampleBody(a: string, b: string)
    requires '\n' !in a && '\n' !in b
    ensures Split(a + "\n" + a + "\n" + b + "\n") == [a, a, b, []]
  {
    var s3 := b + "\n" + [];
    var s2 := a + "\n" + s3;
    assert a + "\n" + a + "\n" + b + "\n" == a + "\n" + s2;
    SplitAtNewline(b, []);
    SplitAtNewline(a, s3);
    SplitAtNewline(a, s2);
  }

  lemma NonEmptyExample(a: string, b: string)
    requires a != [] && b != []
    ensures NonEmpty([a, a, b, []]) == {a, b}
  {
  }

  lemma SingleBody(body: string)
    ensures RawOf([Body(body)]) == Split(body)
    ensures UniqueOf([Body(body)]) == NonEmpty(Split(body))
  {
    RawOfOne(Body(body));
    assert [Body(body)][..0] == [];
  }

  /**
   * One source whose body repeats a proxy and ends in a newline, such as
   * `1.1.1.1:1080\n1.1.1.1:1080\n2.2.2.2:1080\n`: four raw pieces (the
   * last one empty) and two distinct proxies.
   */
  lemma OneSourceExample(a: string, b: string)
    requires a != [] && b != [] && a != b && '\n' !in a && '\n' !in b
    ensures var done := [Body(a + "\n" + a + "\n" + b + "\n")];
      |RawOf(done)| == 4 && UniqueOf(done) == {a, b} && |UniqueOf(done)| == 2
  {
    SplitExampleBody(a, b);
    SingleBody(a + "\n" + a + "\n" + b + "\n");
    NonEmptyExample(a, b);
  }

  /**
   * Two sources, one failing and one answering with a single proxy: the set
   * holds exactly that proxy, in whichever order the two were merged.
   */
  lemma OneFailingSourceExample(c: string)
    requires c != [] && '\n' !in c
    ensures UniqueOf([GetFailed, Body(c)]) == {c}
    ensures UniqueOf([Body(c), GetFailed]) == {c}
  {
    SplitNoNewline(c);
    FailedSourceNoOp([], GetFailed);
    FailedSourceNoOp([Body(c)], GetFailed);
    SingleBody(c);
    assert [] + [GetFailed] == [GetFailed];
    assert [Body(c)] + [GetFailed] == [Body(c), GetFailed];
    var done := [GetFailed, Body(c)];
    assert done[..1] == [GetFailed];
    assert NonEmpty([c]) == {c};
  }
}
