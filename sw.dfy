/**
 * The video-caching service worker, public/sw.js: which requests it intercepts, the key it files
 * a response under, the eviction pass that keeps the cache near its size limit, the
 * cache-first request handler and the clean-up of stale caches on activation.
 *
 * The one cache the worker opens is an object whose entries are kept in insertion order (the order
 * `cache.keys()` lists them in). An entry carries its key, the byte size of its body and the
 * time its `Date` header names, in milliseconds (0 when the header is missing). The network is a
 * parameter: the outcome the fetch produced.
 */
module ServiceWorker {
  import opened Wrappers
  import opened Text
  import Sorting

  const CacheName := "video-cache-v1"
  const MaxCacheSize := 500 * 1024 * 1024
  /** `MAX_CACHE_SIZE * 0.8`, a product that is exact in double arithmetic. */
  const TargetSize := 419430400
  const VideoExtensions := [".mp4", ".webm", ".mkv", ".mov"]

  /**
   * `isVideoRequest(url)`: one of the extensions occurs anywhere in the lower-cased URL. Every
   * extension starts with a dot, so a URL without a `.` is never a video request.
   */
  predicate IsVideoRequest(url: string)
    ensures IsVideoRequest(url) ==> exists i | 0 <= i < |url| :: url[i] == '.'
  {
    var lower := ToLower(url);
    assert (forall i | 0 <= i < |url| :: url[i] != '.') ==> forall ext | ext in VideoExtensions :: !Contains(lower, ext) by {
      if forall i | 0 <= i < |url| :: url[i] != '.' {
        forall ext, i: nat | ext in VideoExtensions && i <= |lower|
          ensures !OccursAt(lower, ext, i)
        {
          assert ext[0] == '.';
          if i < |lower| {
            assert lower[i] == LowerChar(url[i]) != '.';
          }
        }
      }
    }
    exists ext | ext in VideoExtensions :: Contains(lower, ext)
  }

  lemma LowerCharIdempotent(c: char)
    ensures LowerChar(LowerChar(c)) == LowerChar(c)
  {
  }

  /** Lower-casing a URL first does not change the verdict. */
  lemma IsVideoRequestIgnoresCase(url: string)
    ensures IsVideoRequest(ToLower(url)) <==> IsVideoRequest(url)
  {
    assert ToLower(ToLower(url)) == ToLower(url) by {
      forall i | 0 <= i < |url|
        ensures ToLower(ToLower(url))[i] == ToLower(url)[i]
      {
        LowerCharIdempotent(url[i]);
      }
    }
  }

  /**
   * The extension need not end the URL: a signed link whose query names an upper-case `.MP4`
   * is a video request.
   */
  lemma QueryStringExtension()
    ensures IsVideoRequest("/v?f=a.MP4")
  {
    var lower := ToLower("/v?f=a.MP4");
    assert lower[6..10] == ".mp4";
    assert OccursAt(lower, ".mp4", 6);
    assert Contains(lower, VideoExtensions[0]);
  }

  /** The `Range` header, or `'full'` when it is missing or empty. */
  function RangePart(range: Option<string>): (r: string)
    ensures r != ""
    ensures range.Some? && range.value != "" ==> r == range.value
  {
    if range.Some? && range.value != "" then range.value else "full"
  }

  /** `getCacheKey(request)`: the URL and the range, joined by `|`. */
  function CacheKey(url: string, range: Option<string>): (key: string)
    ensures |key| == |url| + 1 + |RangePart(range)|
    ensures key[..|url|] == url && key[|url|] == '|' && key[|url| + 1..] == RangePart(range)
  {
    url + "|" + RangePart(range)
  }

  /**
   * For URLs without a `|`, the key determines both the URL and the range, so two requests
   * share an entry exactly when they ask for the same URL and the same range.
   */
  lemma CacheKeyInjective(u1: string, r1: Option<string>, u2: string, r2: Option<string>)
    requires forall i | 0 <= i < |u1| :: u1[i] != '|'
    requires forall i | 0 <= i < |u2| :: u2[i] != '|'
    ensures CacheKey(u1, r1) == CacheKey(u2, r2) <==> u1 == u2 && RangePart(r1) == RangePart(r2)
  {
    var k1, k2 := CacheKey(u1, r1), CacheKey(u2, r2);
    if k1 == k2 {
      if |u1| < |u2| {
        assert false;
      } else if |u2| < |u1| {
        assert false;
      }
      assert u1 == k1[..|u1|] == k2[..|u2|] == u2;
      assert RangePart(r1) == k1[|u1| + 1..] == k2[|u2| + 1..] == RangePart(r2);
    }
  }

  /** A request without a `Range` header and one with an empty header share the `full` entry. */
  lemma EmptyRangeIsFull(url: string)
    ensures CacheKey(url, Some("")) == CacheKey(url, None) == url + "|full"
  {
  }

  /**
   * `networkResponse.ok || networkResponse.status === 206`. The `status === 206` alternative
   * adds nothing: a partial response is already `ok`.
   */
  predicate ShouldCache(status: int)
    ensures ShouldCache(status) <==> 200 <= status <= 299
  {
    (200 <= status <= 299) || status == 206
  }

  /**
   * The fetch listener sends the `GET` requests for videos through the cache and passes every
   * other request to the network: no other method, and no URL without a `.`, is ever cached.
   */
  predicate HandledByCache(httpMethod: string, url: string)
    ensures HandledByCache(httpMethod, url) ==> httpMethod == "GET" && exists i | 0 <= i < |url| :: url[i] == '.'
  {
    httpMethod == "GET" && IsVideoRequest(url)
  }

  /** The activate listener: the caches to delete are the other versions of the video cache. */
  function StaleCaches(names: seq<string>): (stale: seq<string>)
    ensures |stale| <= |names|
    ensures forall n | n in stale :: n in names
  {
    if names == [] then []
    else
      var rest := StaleCaches(names[..|names| - 1]);
      var last := names[|names| - 1];
      if StartsWith(last, "video-cache-") && last != CacheName then rest + [last] else rest
  }

  /**
   * A name is deleted exactly when it is listed, starts with `video-cache-` and is not the
   * current cache: the current cache and every other application's caches survive.
   */
  lemma {:induction false} StaleCachesMembers(names: seq<string>, n: string)
    ensures n in StaleCaches(names) <==> n in names && StartsWith(n, "video-cache-") && n != CacheName
  {
    if names != [] {
      StaleCachesMembers(names[..|names| - 1], n);
      assert names == names[..|names| - 1] + [names[|names| - 1]];
    }
  }

  /** One cached response. */
  datatype CacheEntry = CacheEntry(key: string, size: nat, date: int)

  /** The sum of the body sizes. */
  function Sum(es: seq<CacheEntry>): (total: nat)
    ensures es == [] ==> total == 0
  {
    if es == [] then 0 else Sum(es[..|es| - 1]) + es[|es| - 1].size
  }

  lemma {:induction false} SumAppend(a: seq<CacheEntry>, b: seq<CacheEntry>)
    ensures Sum(a + b) == Sum(a) + Sum(b)
  {
    if b != [] {
      SumAppend(a, b[..|b| - 1]);
      assert (a + b)[..|a + b| - 1] == a + b[..|b| - 1];
    } else {
      assert a + b == a;
    }
  }

  /** Dropping the first entry lowers the sum by its size. */
  lemma SumTail(es: seq<CacheEntry>)
    requires es != []
    ensures Sum(es) == es[0].size + Sum(es[1..])
  {
    SumAppend([es[0]], es[1..]);
    assert es == [es[0]] + es[1..];
    assert [es[0]][..0] == [];
  }

  predicate KeysDistinct(es: seq<CacheEntry>) {
    forall i, j | 0 <= i < j < |es| :: es[i].key != es[j].key
  }

  function KeySet(es: seq<CacheEntry>): (keys: set<string>)
  {
    set e | e in es :: e.key
  }

  /** The entries whose keys are not in `keys`, in their original order (`cache.delete` on each). */
  function Without(es: seq<CacheEntry>, keys: set<string>): (kept: seq<CacheEntry>)
    ensures |kept| <= |es|
  {
    if es == [] then []
    else
      var last := es[|es| - 1];
      Without(es[..|es| - 1], keys) + (if last.key in keys then [] else [last])
  }

  lemma {:induction false} WithoutMembers(es: seq<CacheEntry>, keys: set<string>, e: CacheEntry)
    ensures e in Without(es, keys) <==> e in es && e.key !in keys
  {
    if es != [] {
      WithoutMembers(es[..|es| - 1], keys, e);
      assert es == es[..|es| - 1] + [es[|es| - 1]];
    }
  }

  lemma {:induction false} WithoutNothing(es: seq<CacheEntry>, keys: set<string>)
    requires forall e | e in es :: e.key !in keys
    ensures Without(es, keys) == es
  {
    if es != [] {
      WithoutNothing(es[..|es| - 1], keys);
      assert es == es[..|es| - 1] + [es[|es| - 1]];
    }
  }

  lemma {:induction false} WithoutKeepsDistinct(es: seq<CacheEntry>, keys: set<string>)
    requires KeysDistinct(es)
    ensures KeysDistinct(Without(es, keys))
  {
    if es != [] {
      var init, last := es[..|es| - 1], es[|es| - 1];
      WithoutKeepsDistinct(init, keys);
      var w := Without(init, keys);
      if last.key !in keys {
        forall e | e in w
          ensures e.key != last.key
        {
          WithoutMembers(init, keys, e);
          var i :| 0 <= i < |init| && init[i] == e;
        }
      }
    }
  }

  /** The key of the last entry occurs nowhere before it. */
  lemma LastKeyIsFresh(es: seq<CacheEntry>)
    requires KeysDistinct(es) && es != []
    ensures forall e | e in es[..|es| - 1] :: e.key !in {es[|es| - 1].key}
  {
    var init := es[..|es| - 1];
    forall e | e in init
      ensures e.key !in {es[|es| - 1].key}
    {
      var i :| 0 <= i < |init| && init[i] == e;
      assert es[i] == e;
    }
  }

  /** Two entries of a cache with distinct keys that share a key are the same entry. */
  lemma SameKeySameEntry(es: seq<CacheEntry>, a: CacheEntry, b: CacheEntry)
    requires KeysDistinct(es) && a in es && b in es && a.key == b.key
    ensures a == b
  {
    var i :| 0 <= i < |es| && es[i] == a;
    var j :| 0 <= j < |es| && es[j] == b;
  }

  /** With distinct keys, deleting the key of a present entry removes exactly that entry. */
  lemma {:induction false} RemoveOne(es: seq<CacheEntry>, x: CacheEntry)
    requires KeysDistinct(es) && x in es
    ensures multiset(Without(es, {x.key})) + multiset{x} == multiset(es)
  {
    var init, last := es[..|es| - 1], es[|es| - 1];
    assert es == init + [last];
    assert KeysDistinct(init);
    if last == x {
      LastKeyIsFresh(es);
      WithoutNothing(init, {x.key});
      assert x !in init;
    } else {
      assert x in init;
      if last.key == x.key {
        SameKeySameEntry(es, last, x);
      }
      RemoveOne(init, x);
    }
  }

  /** Adding the same entry to two bags of entries keeps them equal only if they were. */
  lemma CancelOne(a: multiset<CacheEntry>, b: multiset<CacheEntry>, x: CacheEntry)
    requires a + multiset{x} == b + multiset{x}
    ensures a == b
  {
    assert a == (a + multiset{x}) - multiset{x};
    assert b == (b + multiset{x}) - multiset{x};
  }

  /** Summing is blind to order: entries with the same multiset have the same total. */
  lemma {:induction false} SumOfPermutation(a: seq<CacheEntry>, b: seq<CacheEntry>)
    requires multiset(a) == multiset(b)
    ensures Sum(a) == Sum(b)
  {
    if a != [] {
      var x := a[|a| - 1];
      assert a == a[..|a| - 1] + [x];
      assert x in multiset(b);
      var i :| 0 <= i < |b| && b[i] == x;
      assert b == b[..i] + [x] + b[i + 1..];
      var rest := b[..i] + b[i + 1..];
      assert multiset(a) == multiset(a[..|a| - 1]) + multiset{x};
      assert multiset(b) == multiset(b[..i]) + multiset{x} + multiset(b[i + 1..]);
      assert multiset(rest) == multiset(b[..i]) + multiset(b[i + 1..]);
      assert multiset(a[..|a| - 1]) == multiset(a) - multiset{x};
      assert multiset(rest) == multiset(b) - multiset{x};
      SumOfPermutation(a[..|a| - 1], rest);
      SumAppend(b[..i] + [x], b[i + 1..]);
      SumAppend(b[..i], [x]);
      SumAppend(b[..i], b[i + 1..]);
      assert [x][..0] == [];
    }
  }

  /** Deleting a present entry's key lowers the total by that entry's size. */
  lemma RemoveOneSum(es: seq<CacheEntry>, x: CacheEntry)
    requires KeysDistinct(es) && x in es
    ensures Sum(Without(es, {x.key})) + x.size == Sum(es)
  {
    RemoveOne(es, x);
    var w := Without(es, {x.key});
    assert multiset(w + [x]) == multiset(es);
    SumOfPermutation(w + [x], es);
    assert (w + [x])[..|w|] == w;
  }

  /** How many of the oldest entries the `while` loop removes, from a running total. */
  function EvictCount(order: seq<CacheEntry>, total: int): (n: nat)
    ensures n <= |order|
  {
    if total <= TargetSize || order == [] then 0
    else 1 + EvictCount(order[1..], total - order[0].size)
  }

  lemma EvictCountStep(order: seq<CacheEntry>, total: int)
    requires order != [] && total > TargetSize
    ensures EvictCount(order, total) == 1 + EvictCount(order[1..], total - order[0].size)
  {
  }

  /**
   * The loop removes the shortest prefix of the oldest-first order after which the rest fits
   * the target: every shorter prefix leaves more than the target, and the one it takes leaves
   * at most the target unless it takes everything.
   */
  lemma {:induction false} EvictCountIsMinimal(order: seq<CacheEntry>)
    ensures var n := EvictCount(order, Sum(order));
      && (forall m | 0 <= m < n :: Sum(order[m..]) > TargetSize)
      && (n == |order| || Sum(order[n..]) <= TargetSize)
  {
    if Sum(order) > TargetSize && order != [] {
      var tail := order[1..];
      SumTail(order);
      EvictCountStep(order, Sum(order));
      EvictCountIsMinimal(tail);
      var n := EvictCount(order, Sum(order));
      assert n == 1 + EvictCount(tail, Sum(tail));
      forall m | 0 <= m < n
        ensures Sum(order[m..]) > TargetSize
      {
        if m > 0 {
          assert order[m..] == tail[m - 1..];
        } else {
          assert order[m..] == order;
        }
      }
      assert order[n..] == tail[n - 1..];
    }
  }

  /** No entry stands before an entry dated earlier. */
  predicate DateSorted(s: seq<CacheEntry>) {
    forall i, j | 0 <= i < j < |s| :: s[i].date <= s[j].date
  }

  /** `(a, b) => new Date(a.date) - new Date(b.date)`: `a` may stand before `b` when it is no newer. */
  function OlderFirst(a: CacheEntry, b: CacheEntry): bool {
    a.date <= b.date
  }

  lemma OlderFirstIsPreorder()
    ensures Sorting.TotalPreorder(OlderFirst)
  {
  }

  /** `entries.sort((a, b) => new Date(a.date) - new Date(b.date))`: the entries, oldest first. */
  function Oldest(es: seq<CacheEntry>): (order: seq<CacheEntry>)
    ensures DateSorted(order)
    ensures multiset(order) == multiset(es) && |order| == |es|
  {
    OlderFirstIsPreorder();
    var order := Sorting.Sort(es, OlderFirst);
    assert forall i, j | 0 <= i < j < |order| :: OlderFirst(order[i], order[j]);
    order
  }

  /**
   * The sort is stable: the entries dated like `c` keep their cache order, so among entries of
   * the same date the one filed first is evicted first.
   */
  lemma OldestKeepsCacheOrder(es: seq<CacheEntry>, c: CacheEntry)
    ensures Sorting.Ties(Oldest(es), OlderFirst, c) == Sorting.Ties(es, OlderFirst, c)
    ensures forall k | 0 <= k < |Sorting.Ties(es, OlderFirst, c)| :: Sorting.Ties(es, OlderFirst, c)[k].date == c.date
  {
    OlderFirstIsPreorder();
    Sorting.SortIsStable(es, OlderFirst, c);
  }

  /** `entries.shift()` on the oldest-first order, `n` entries in. */
  lemma ShiftOldest(order: seq<CacheEntry>, n: nat, total: int)
    requires n < |order|
    ensures order[n..][0] == order[n] && order[n..][1..] == order[n + 1..]
    ensures total > TargetSize ==>
      EvictCount(order[n..], total) == 1 + EvictCount(order[n + 1..], total - order[n].size)
  {
    assert order[n..] == [order[n]] + order[n + 1..];
  }

  /** The cache once the loop has shifted off and deleted the first `n` entries of `order`. */
  function Evict(es: seq<CacheEntry>, order: seq<CacheEntry>, n: nat): (kept: seq<CacheEntry>)
    requires n <= |order|
    ensures |kept| <= |es|
    decreases n
  {
    if n == 0 then es else Without(Evict(es, order, n - 1), {order[n - 1].key})
  }

  /** Deleting keys one after another keeps the keys of a cache distinct. */
  lemma {:induction false} EvictKeepsDistinct(es: seq<CacheEntry>, order: seq<CacheEntry>, n: nat)
    requires KeysDistinct(es) && n <= |order|
    ensures KeysDistinct(Evict(es, order, n))
  {
    if n > 0 {
      EvictKeepsDistinct(es, order, n - 1);
      WithoutKeepsDistinct(Evict(es, order, n - 1), {order[n - 1].key});
    }
  }

  /**
   * Deleting the first `n` entries of a reordering of a cache with distinct keys leaves exactly
   * the other entries of the reordering.
   */
  lemma {:induction false} EvictContents(es: seq<CacheEntry>, order: seq<CacheEntry>, n: nat)
    requires KeysDistinct(es) && multiset(order) == multiset(es) && n <= |order|
    ensures multiset(Evict(es, order, n)) == multiset(order[n..])
  {
    if n == 0 {
      assert order[0..] == order;
    } else {
      EvictContents(es, order, n - 1);
      EvictKeepsDistinct(es, order, n - 1);
      var prev, x := Evict(es, order, n - 1), order[n - 1];
      assert order[n - 1..] == [x] + order[n..];
      assert multiset(order[n - 1..]) == multiset{x} + multiset(order[n..]);
      EvictOne(prev, x, order[n..]);
    }
  }

  /** Deleting the key of an entry the cache holds leaves the cache without just that entry. */
  lemma EvictOne(prev: seq<CacheEntry>, x: CacheEntry, rest: seq<CacheEntry>)
    requires KeysDistinct(prev) && multiset(prev) == multiset{x} + multiset(rest)
    ensures multiset(Without(prev, {x.key})) == multiset(rest)
  {
    assert x in multiset(prev);
    RemoveOne(prev, x);
    CancelOne(multiset(Without(prev, {x.key})), multiset(rest), x);
  }

  /** The cache after `cleanupCache()`. */
  function AfterCleanup(es: seq<CacheEntry>): (kept: seq<CacheEntry>)
    ensures Sum(es) <= MaxCacheSize ==> kept == es
  {
    if Sum(es) <= MaxCacheSize then es
    else
      var order := Oldest(es);
      Evict(es, order, EvictCount(order, Sum(es)))
  }

  lemma CleanupKeepsDistinct(es: seq<CacheEntry>)
    requires KeysDistinct(es)
    ensures KeysDistinct(AfterCleanup(es))
  {
    if Sum(es) > MaxCacheSize {
      var order := Oldest(es);
      EvictKeepsDistinct(es, order, EvictCount(order, Sum(es)));
    }
  }

  /**
   * A cache over the limit ends at most at 80% of it, or empty when even deleting everything
   * was needed.
   */
  lemma CleanupReachesTarget(es: seq<CacheEntry>)
    requires KeysDistinct(es) && Sum(es) > MaxCacheSize
    ensures Sum(AfterCleanup(es)) <= TargetSize
  {
    var order := Oldest(es);
    var n := EvictCount(order, Sum(es));
    SumOfPermutation(order, es);
    EvictCountIsMinimal(order);
    EvictContents(es, order, n);
    SumOfPermutation(Evict(es, order, n), order[n..]);
    if n == |order| {
      assert order[n..] == [];
    }
  }

  /**
   * Cleanup deletes no more than it must: any shorter run of deletions along the oldest-first
   * order would have left more than the target.
   */
  lemma CleanupIsMinimal(es: seq<CacheEntry>, m: nat)
    requires Sum(es) > MaxCacheSize
    requires m < EvictCount(Oldest(es), Sum(es))
    ensures Sum(Oldest(es)[m..]) > TargetSize
  {
    SumOfPermutation(Oldest(es), es);
    EvictCountIsMinimal(Oldest(es));
  }

  /** In an oldest-first order, an entry outside the tail `order[n..]` is no newer than one inside it. */
  lemma OlderThanRest(order: seq<CacheEntry>, n: nat, r: CacheEntry, k: CacheEntry)
    requires n <= |order| && DateSorted(order)
    requires r in order && r !in order[n..] && k in order[n..]
    ensures r.date <= k.date
  {
    var i :| 0 <= i < |order| && order[i] == r;
    var j :| 0 <= j < |order[n..]| && order[n..][j] == k;
    assert order[n + j] == k;
  }

  /** Every entry cleanup deletes is at least as old as every entry it keeps. */
  lemma CleanupEvictsOldest(es: seq<CacheEntry>)
    requires KeysDistinct(es)
    ensures forall r, k | r in es && r !in AfterCleanup(es) && k in AfterCleanup(es) :: r.date <= k.date
  {
    if Sum(es) > MaxCacheSize {
      var order := Oldest(es);
      var n := EvictCount(order, Sum(es));
      var kept := AfterCleanup(es);
      EvictContents(es, order, n);
      forall r, k | r in es && r !in kept && k in kept
        ensures r.date <= k.date
      {
        Sorting.SameElements(kept, order[n..], r);
        Sorting.SameElements(kept, order[n..], k);
        Sorting.SameElements(order, es, r);
        OlderThanRest(order, n, r, k);
      }
    }
  }

  /** `cache.match(key)` */
  function Lookup(es: seq<CacheEntry>, key: string): (r: Option<CacheEntry>)
    ensures r.Some? ==> r.value in es && r.value.key == key
    ensures r.None? ==> key !in KeySet(es)
  {
    if es == [] then None
    else if es[0].key == key then Some(es[0])
    else Lookup(es[1..], key)
  }

  /**
   * The offline fallback as written, `cache.match(request.url)`: every entry is filed under a
   * `url|range` key, which holds a `|`, so a request URL without one never names an entry.
   */
  lemma FallbackAsWrittenMisses(es: seq<CacheEntry>, url: string)
    requires forall i | 0 <= i < |url| :: url[i] != '|'
    requires forall e | e in es :: exists u: string, r: Option<string> :: e.key == CacheKey(u, r)
    ensures Lookup(es, url).None?
  {
    forall e | e in es
      ensures e.key != url
    {
      var u: string, r: Option<string> :| e.key == CacheKey(u, r);
      assert e.key[|u|] == '|';
    }
  }

  /**
   * A cache holding the full body of `/a.mp4` under `/a.mp4|full`: the lookup as written finds
   * nothing for the bare URL, while an entry for that URL is right there.
   */
  lemma FallbackAsWrittenExample()
    ensures var es := [CacheEntry(CacheKey("/a.mp4", None), 1, 0)];
      Lookup(es, "/a.mp4").None? && FallbackEntry(es, "/a.mp4") == Some(es[0])
  {
    var es := [CacheEntry(CacheKey("/a.mp4", None), 1, 0)];
    assert es[0].key == "/a.mp4|full";
    assert es[0].key[..7] == "/a.mp4" + "|";
  }

  /** The first entry whose key is `url|` followed by some range. */
  function FallbackEntry(es: seq<CacheEntry>, url: string): (r: Option<CacheEntry>)
    ensures r.Some? ==> r.value in es && StartsWith(r.value.key, url + "|")
    ensures r.None? ==> forall e | e in es :: !StartsWith(e.key, url + "|")
  {
    if es == [] then None
    else if StartsWith(es[0].key, url + "|") then Some(es[0])
    else FallbackEntry(es[1..], url)
  }

  /** Any cached range of the URL serves as the fallback when the network fails. */
  lemma FallbackFindsAnyRange(es: seq<CacheEntry>, url: string, range: Option<string>)
    requires CacheKey(url, range) in KeySet(es)
    ensures FallbackEntry(es, url).Some?
  {
    var e :| e in es && e.key == CacheKey(url, range);
    assert e.key[..|url| + 1] == url + "|";
  }

  /**
   * Whether the Cache API's `put` takes a response with this status. It refuses a
   * `206 Partial Content` response: the returned promise rejects with a `TypeError` and nothing
   * is stored (the `Cache.put` algorithm of the W3C Service Workers specification).
   */
  predicate PutAccepts(status: int) {
    status != 206
  }

  /**
   * The cache after a network response, as written: a cacheable response is handed to `put`,
   * which refuses a partial one, so then nothing is stored and the chained `cleanupCache()`
   * never runs.
   */
  function AfterResponseAsWritten(es: seq<CacheEntry>, key: string, status: int, size: nat, date: int): (kept: seq<CacheEntry>)
    ensures !PutAccepts(status) ==> kept == es
  {
    if ShouldCache(status) && PutAccepts(status) then AfterCleanup(es + [CacheEntry(key, size, date)]) else es
  }

  /**
   * As written, a byte range the server answers with `206` is never stored: the next request
   * for the same range misses the cache again and goes back to the network.
   */
  lemma PartialResponseNeverStored(es: seq<CacheEntry>, url: string, range: Option<string>, size: nat, date: int)
    requires Lookup(es, CacheKey(url, range)).None?
    ensures Lookup(AfterResponseAsWritten(es, CacheKey(url, range), 206, size, date), CacheKey(url, range)).None?
  {
  }

  /**
   * The cache after a network response, corrected: a cacheable response, a partial one included
   * (handed to `put` with status 200, which it accepts), is filed under its key and the cache
   * is trimmed.
   */
  function AfterResponse(es: seq<CacheEntry>, key: string, status: int, size: nat, date: int): (kept: seq<CacheEntry>)
    ensures !ShouldCache(status) ==> kept == es
    ensures ShouldCache(status) && Sum(es) + size <= MaxCacheSize ==> kept == es + [CacheEntry(key, size, date)]
  {
    if ShouldCache(status) then
      assert (es + [CacheEntry(key, size, date)])[..|es|] == es;
      AfterCleanup(es + [CacheEntry(key, size, date)])
    else es
  }

  /** A lookup of the key of the last entry, held nowhere else, finds that entry. */
  lemma {:induction false} LookupLast(es: seq<CacheEntry>, e: CacheEntry)
    requires e.key !in KeySet(es)
    ensures Lookup(es + [e], e.key) == Some(e)
  {
    if es != [] {
      assert (es + [e])[1..] == es[1..] + [e];
      assert es[0] in es;
      LookupLast(es[1..], e);
    }
  }

  /**
   * Corrected, a range answered with `206` that keeps the cache within its limit is served
   * from the cache the next time it is asked for.
   */
  lemma PartialResponseStored(es: seq<CacheEntry>, url: string, range: Option<string>, size: nat, date: int)
    requires Lookup(es, CacheKey(url, range)).None?
    requires Sum(es) + size <= MaxCacheSize
    ensures Lookup(AfterResponse(es, CacheKey(url, range), 206, size, date), CacheKey(url, range))
      == Some(CacheEntry(CacheKey(url, range), size, date))
  {
    LookupLast(es, CacheEntry(CacheKey(url, range), size, date));
  }

  /** What `fetch(request)` produced. */
  datatype FetchOutcome =
    | Response(status: int, size: nat, date: int)
    | NetworkError

  /** What `handleVideoRequest` resolves to. */
  datatype Served =
    | FromCache(entry: CacheEntry)
    | FromNetwork(status: int)
    | Fallback(entry: CacheEntry)
    | Failed

  /** The cache `video-cache-v1`. */
  class VideoCache {
    var entries: seq<CacheEntry>

    predicate Valid()
      reads this
    {
      KeysDistinct(entries)
    }

    constructor ()
      ensures entries == [] && Valid()
    {
      entries := [];
    }

    /**
     * `cache.put(key, response)` of a response `put` accepts: a new entry replaces any under the
     * same key and goes last.
     */
    method Put(e: CacheEntry)
      requires Valid()
      modifies this
      ensures Valid()
      ensures entries == Without(old(entries), {e.key}) + [e]
    {
      WithoutKeepsDistinct(entries, {e.key});
      var kept := Without(entries, {e.key});
      forall i | 0 <= i < |kept|
        ensures kept[i].key != e.key
      {
        WithoutMembers(entries, {e.key}, kept[i]);
      }
      entries := kept + [e];
    }

    /**
     * The walk over `cache.keys()` that both `cleanupCache()` and the `GET_CACHE_SIZE` message
     * handler make: the entries in cache order and the sum of their body sizes.
     */
    method CacheSize() returns (total: nat, list: seq<CacheEntry>)
      ensures list == entries && total == Sum(entries)
    {
      total := 0;
      list := [];
      for i := 0 to |entries|
        invariant list == entries[..i] && total == Sum(list)
      {
        assert entries[..i + 1][..i] == entries[..i];
        list := list + [entries[i]];
        total := total + entries[i].size;
      }
    }

    /**
     * The `while` loop of `cleanupCache()`: shift the oldest entry off `order` and delete it
     * from the cache while the running total exceeds 80% of the limit.
     */
    method EvictOldest(order: seq<CacheEntry>, total: int)
      modifies this
      ensures entries == Evict(old(entries), order, EvictCount(order, total))
    {
      ghost var original := entries;
      var totalSize := total;
      ghost var count := EvictCount(order, total);
      var n := 0;  // how many entries `shift()` has taken off the front of `order`
      assert order[0..] == order;
      while totalSize > TargetSize && n < |order|
        invariant n <= |order|
        invariant entries == Evict(original, order, n)
        invariant count == n + EvictCount(order[n..], totalSize)
        decreases |order| - n
      {
        var oldest := order[n];
        ShiftOldest(order, n, totalSize);
        entries := Without(entries, {oldest.key});
        totalSize := totalSize - oldest.size;
        n := n + 1;
      }
    }

    /**
     * `cleanupCache()`: when the bodies add up to more than the limit, sort the entries oldest
     * first and evict them from the front while the running total exceeds 80% of the limit.
     */
    method CleanupCache()
      requires Valid()
      modifies this
      ensures Valid()
      ensures entries == AfterCleanup(old(entries))
    {
      CleanupKeepsDistinct(entries);
      var total, list := CacheSize();
      if total > MaxCacheSize {
        var sorted := Oldest(list);
        EvictOldest(sorted, total);
      }
    }

    /**
     * `handleVideoRequest(request)`: answer from the entry under the request's key without
     * touching the network; otherwise fetch, file a successful response and trim the cache,
     * and when the fetch fails fall back to any cached range of the same URL. Partial responses
     * are filed and the fallback finds any range: both follow the corrected definitions.
     */
    method HandleVideoRequest(url: string, range: Option<string>, network: FetchOutcome)
      returns (served: Served, fetched: bool)
      requires Valid()
      modifies this
      ensures Valid()
      ensures var key := CacheKey(url, range);
        match Lookup(old(entries), key)
        case Some(e) => served == FromCache(e) && !fetched && entries == old(entries)
        case None =>
          && fetched
          && match network
             case Response(status, size, date) =>
               && served == FromNetwork(status)
               && entries == AfterResponse(old(entries), key, status, size, date)
             case NetworkError =>
               && entries == old(entries)
               && served == (match FallbackEntry(old(entries), url)
                             case Some(e) => Fallback(e)
                             case None => Failed)
    {
      var key := CacheKey(url, range);
      var cached := Lookup(entries, key);
      if cached.Some? {
        return FromCache(cached.value), false;
      }
      fetched := true;
      match network {
        case Response(status, size, date) =>
          if ShouldCache(status) {
            WithoutNothing(entries, {key});
            Put(CacheEntry(key, size, date));
            CleanupCache();
          }
          served := FromNetwork(status);
        case NetworkError =>
          var fallback := FallbackEntry(entries, url);
          served := if fallback.Some? then Fallback(fallback.value) else Failed;
      }
    }
  }
}
