/** `SimpleCache`: a TTL cache from string keys to (value, timestamp)
    entries, with one lock object per key, and the `cached_api_call`
    decorator built on it. The clock is an integer number of microseconds. */
module Cache {
  import opened Wrappers
  import opened Strings
  import opened Clock

  /** `API_CACHE` is built with a five-minute TTL. */
  const DefaultTtlMinutes := 5

  /** A keyword argument, rendered: its name and `str` of its value. */
  type Item = (string, string)

  /** Python's order on `(name, value)` tuples of strings. */
  predicate ItemLess(a: Item, b: Item) {
    Less(a.0, b.0) || (a.0 == b.0 && Less(a.1, b.1))
  }

  lemma ItemLessTotal(a: Item, b: Item)
    ensures a == b || ItemLess(a, b) || ItemLess(b, a)
  {
    LessTotal(a.0, b.0);
    LessTotal(a.1, b.1);
  }

  lemma ItemLessTransitive(a: Item, b: Item, c: Item)
    requires ItemLess(a, b) && ItemLess(b, c)
    ensures ItemLess(a, c)
  {
    if Less(a.0, b.0) && Less(b.0, c.0) {
      LessTransitive(a.0, b.0, c.0);
    } else if Less(a.1, b.1) && Less(b.1, c.1) {
      LessTransitive(a.1, b.1, c.1);
    }
  }

  lemma ItemLessAsymmetric(a: Item, b: Item)
    requires ItemLess(a, b)
    ensures !ItemLess(b, a)
  {
    if Less(a.0, b.0) {
      LessAsymmetric(a.0, b.0);
      LessIrreflexive(a.0);
    } else {
      LessAsymmetric(a.1, b.1);
      LessIrreflexive(b.0);
    }
  }

  /** No item is smaller than one before it. */
  predicate SortedItems(s: seq<Item>) {
    forall i, j :: 0 <= i < j < |s| ==> !ItemLess(s[j], s[i])
  }

  function Insert(x: Item, s: seq<Item>): (r: seq<Item>)
    ensures multiset(r) == multiset(s) + multiset{x}
  {
    if |s| == 0 || !ItemLess(s[0], x) then [x] + s
    else
      assert s == [s[0]] + s[1..];
      [s[0]] + Insert(x, s[1..])
  }

  lemma {:induction false} InsertSorted(x: Item, s: seq<Item>)
    requires SortedItems(s)
    ensures SortedItems(Insert(x, s))
  {
    if |s| == 0 {
    } else if !ItemLess(s[0], x) {
      forall j | 0 <= j < |s|
        ensures !ItemLess(s[j], x)
      {
        if ItemLess(s[j], x) {
          ItemLessTotal(s[0], s[j]);
          if ItemLess(s[0], s[j]) {
            ItemLessTransitive(s[0], s[j], x);
          }
        }
      }
    } else {
      var rest := Insert(x, s[1..]);
      InsertSorted(x, s[1..]);
      forall j | 0 <= j < |rest|
        ensures !ItemLess(rest[j], s[0])
      {
        assert rest[j] in multiset(rest);
        if rest[j] == x {
          ItemLessAsymmetric(s[0], x);
        } else {
          assert rest[j] in multiset(s[1..]);
          var k :| 0 <= k < |s[1..]| && s[1..][k] == rest[j];
          assert s[k + 1] == rest[j];
        }
      }
    }
  }

  /** `sorted(kwargs.items())`: the items in increasing order. */
  function SortItems(s: seq<Item>): (r: seq<Item>)
    ensures multiset(r) == multiset(s)
  {
    if |s| == 0 then []
    else
      assert s == [s[0]] + s[1..];
      Insert(s[0], SortItems(s[1..]))
  }

  lemma {:induction false} SortItemsSorted(s: seq<Item>)
    ensures SortedItems(SortItems(s))
  {
    if |s| > 0 {
      SortItemsSorted(s[1..]);
      InsertSorted(s[0], SortItems(s[1..]));
    }
  }

  /** The first of a sorted list is not above any of its items. */
  lemma SortedHead(a: seq<Item>, x: Item)
    requires SortedItems(a) && x in multiset(a)
    ensures !ItemLess(x, a[0])
  {
    var i :| 0 <= i < |a| && a[i] == x;
    if i == 0 {
      LessIrreflexive(x.0);
      LessIrreflexive(x.1);
    }
  }

  /** Two sorted lists of the same items start with the same item. */
  lemma SortedHeads(a: seq<Item>, b: seq<Item>)
    requires SortedItems(a) && SortedItems(b) && multiset(a) == multiset(b) && |a| > 0
    ensures |b| > 0 && a[0] == b[0]
  {
    assert a[0] in multiset(a);
    assert |b| > 0;
    assert b[0] in multiset(b);
    SortedHead(a, b[0]);
    SortedHead(b, a[0]);
    ItemLessTotal(a[0], b[0]);
  }

  /** Two sorted lists of the same items are the same list. */
  lemma {:induction false} SortedUnique(a: seq<Item>, b: seq<Item>)
    requires SortedItems(a) && SortedItems(b) && multiset(a) == multiset(b)
    ensures a == b
    decreases |a|
  {
    if |a| == 0 {
      assert |multiset(b)| == 0;
    } else {
      SortedHeads(a, b);
      assert a == [a[0]] + a[1..] && b == [b[0]] + b[1..];
      assert multiset(a[1..]) == multiset(a) - multiset{a[0]};
      assert multiset(b[1..]) == multiset(b) - multiset{b[0]};
      SortedUnique(a[1..], b[1..]);
    }
  }

  /** The `f"{k}={v}"` parts. */
  function RenderItems(items: seq<Item>): (parts: seq<string>)
    ensures |parts| == |items|
    ensures forall i :: 0 <= i < |items| ==> parts[i] == items[i].0 + "=" + items[i].1
  {
    seq(|items|, i requires 0 <= i < |items| => items[i].0 + "=" + items[i].1)
  }

  /** `_get_cache_key(*args, **kwargs)`: `args` are the `str` of the
      positional arguments, `kwargs` the keyword arguments in call order. */
  function CacheKey(args: seq<string>, kwargs: seq<Item>): string {
    Join(args + RenderItems(SortItems(kwargs)), "|")
  }

  /** The key does not depend on the order the keyword arguments come in. */
  lemma CacheKeyIgnoresKwargOrder(args: seq<string>, kwargs: seq<Item>, reordered: seq<Item>)
    requires multiset(reordered) == multiset(kwargs)
    ensures CacheKey(args, reordered) == CacheKey(args, kwargs)
  {
    SortItemsSorted(kwargs);
    SortItemsSorted(reordered);
    SortedUnique(SortItems(kwargs), SortItems(reordered));
  }

  /** The key of a call with no keyword arguments is its positional parts
      joined by "|", in order. */
  lemma CacheKeyPositional(args: seq<string>)
    ensures CacheKey(args, []) == Join(args, "|")
  {
    assert args + RenderItems(SortItems([])) == args;
  }

  datatype Entry<V> = Entry(data: V, timestamp: int)

  /** The freshness test shared by `get` and `get_stats`. */
  predicate Fresh<V>(e: Entry<V>, now: int, ttl: int) {
    now - e.timestamp < ttl
  }

  /** The keys among `keys` whose entries are fresh, or expired, at `now`. */
  function FreshAmong<V>(cache: map<string, Entry<V>>, keys: set<string>, now: int, ttl: int): set<string> {
    set k | k in keys && k in cache && Fresh(cache[k], now, ttl)
  }

  function ExpiredAmong<V>(cache: map<string, Entry<V>>, keys: set<string>, now: int, ttl: int): set<string> {
    set k | k in keys && k in cache && !Fresh(cache[k], now, ttl)
  }

  /** Counting one more entry adds one to exactly one of the two counts. */
  lemma CountStep<V>(cache: map<string, Entry<V>>, seen: set<string>, k: string, now: int, ttl: int)
    requires k in cache && k !in seen
    ensures |FreshAmong(cache, seen + {k}, now, ttl)| == |FreshAmong(cache, seen, now, ttl)| + (if Fresh(cache[k], now, ttl) then 1 else 0)
    ensures |ExpiredAmong(cache, seen + {k}, now, ttl)| == |ExpiredAmong(cache, seen, now, ttl)| + (if Fresh(cache[k], now, ttl) then 0 else 1)
  {
    if Fresh(cache[k], now, ttl) {
      assert FreshAmong(cache, seen + {k}, now, ttl) == FreshAmong(cache, seen, now, ttl) + {k};
      assert ExpiredAmong(cache, seen + {k}, now, ttl) == ExpiredAmong(cache, seen, now, ttl);
    } else {
      assert FreshAmong(cache, seen + {k}, now, ttl) == FreshAmong(cache, seen, now, ttl);
      assert ExpiredAmong(cache, seen + {k}, now, ttl) == ExpiredAmong(cache, seen, now, ttl) + {k};
    }
  }

  /** The dictionary `get_stats` returns. */
  datatype CacheStats = CacheStats(totalEntries: nat, freshEntries: nat, expiredEntries: nat, ttlMinutes: int)

  function StatsOf<V>(cache: map<string, Entry<V>>, now: int, ttl: int): CacheStats {
    CacheStats(|cache|, |FreshAmong(cache, cache.Keys, now, ttl)|, |ExpiredAmong(cache, cache.Keys, now, ttl)|, ttl / Seconds(60))
  }

  /** Every entry is counted once, as fresh or as expired. */
  lemma StatsPartition<V>(cache: map<string, Entry<V>>, now: int, ttl: int)
    ensures var st := StatsOf(cache, now, ttl);
      st.freshEntries + st.expiredEntries == st.totalEntries
  {
    var f := FreshAmong(cache, cache.Keys, now, ttl);
    var e := ExpiredAmong(cache, cache.Keys, now, ttl);
    assert f + e == cache.Keys;
    assert f * e == {};
    assert |cache| == |cache.Keys|;
  }

  /** A `threading.Lock`: only its identity matters here. */
  class Lock {
    constructor() {}
  }

  class SimpleCache<V> {
    var cache: map<string, Entry<V>>
    var locks: map<string, Lock>
    const defaultTtl: int

    /** The TTL is kept in clock units, 60 seconds a minute. */
    constructor(defaultTtlMinutes: int)
      ensures cache == map[] && locks == map[] && defaultTtl == Seconds(defaultTtlMinutes * 60)
    {
      cache := map[];
      locks := map[];
      defaultTtl := Seconds(defaultTtlMinutes * 60);
    }

    /** `get` at clock reading `now`: the data of a fresh entry; an expired
        entry is deleted, so the data is never handed out stale. */
    method Get(key: string, now: int) returns (data: Option<V>, isFresh: bool)
      modifies this
      ensures isFresh <==> key in old(cache) && Fresh(old(cache)[key], now, defaultTtl)
      ensures isFresh ==> data == Some(old(cache)[key].data) && cache == old(cache)
      ensures !isFresh ==> data == None && cache == old(cache) - {key}
      ensures locks == old(locks)
    {
      if key in cache {
        var entry := cache[key];
        if now - entry.timestamp < defaultTtl {
          return Some(entry.data), true;
        }
        cache := cache - {key};
      }
      return None, false;
    }

    /** `set` at clock reading `now`. */
    method Set(key: string, data: V, now: int)
      modifies this
      ensures cache == old(cache)[key := Entry(data, now)]
      ensures locks == old(locks)
    {
      cache := cache[key := Entry(data, now)];
    }

    /** `get_lock`: the key's lock, made on first request only. */
    method GetLock(key: string) returns (lock: Lock)
      modifies this
      ensures key in old(locks) ==> lock == old(locks)[key] && locks == old(locks)
      ensures key !in old(locks) ==> fresh(lock) && locks == old(locks)[key := lock]
      ensures cache == old(cache)
    {
      if key !in locks {
        var made := new Lock();
        locks := locks[key := made];
      }
      lock := locks[key];
    }

    /** `clear`. */
    method Clear()
      modifies this
      ensures cache == map[] && locks == map[]
    {
      cache := map[];
      locks := map[];
    }

    /** `get_stats` at clock reading `now`: one pass over the entries. */
    method GetStats(now: int) returns (stats: CacheStats)
      ensures stats == StatsOf(cache, now, defaultTtl)
      ensures stats.freshEntries + stats.expiredEntries == stats.totalEntries
    {
      var freshCount := 0;
      var expiredCount := 0;
      var rest := cache.Keys;
      ghost var seen: set<string> := {};
      while rest != {}
        invariant rest + seen == cache.Keys && rest !! seen
        invariant freshCount == |FreshAmong(cache, seen, now, defaultTtl)|
        invariant expiredCount == |ExpiredAmong(cache, seen, now, defaultTtl)|
        decreases |rest|
      {
        var k :| k in rest;
        CountStep(cache, seen, k, now, defaultTtl);
        if now - cache[k].timestamp < defaultTtl {
          freshCount := freshCount + 1;
        } else {
          expiredCount := expiredCount + 1;
        }
        rest := rest - {k};
        seen := seen + {k};
      }
      stats := CacheStats(|cache|, freshCount, expiredCount, defaultTtl / Seconds(60));
      StatsPartition(cache, now, defaultTtl);
    }
  }

  /** A call through `cached_api_call`: `funcName` is `func.__name__`,
      `args` and `kwargs` the rendered arguments, `outcome` what `func`
      returns or raises when called, at clock reading `now`, and `after` the
      clock reading when it has returned. A fresh entry is returned without
      calling `func`; otherwise the result is stored under the key. Because
      `get` has deleted the expired entry, the fallback to expired data
      never applies and a failure of `func` always propagates. */
  method CachedApiCall<V, E>(c: SimpleCache<V>, funcName: string, args: seq<string>, kwargs: seq<Item>,
                             outcome: Result<V, E>, now: int, after: int)
    returns (r: Result<V, E>)
    modifies c
    ensures var key := CacheKey([funcName] + args, kwargs);
      if key in old(c.cache) && Fresh(old(c.cache)[key], now, c.defaultTtl) then
        r == Success(old(c.cache)[key].data) && c.cache == old(c.cache) && c.locks == old(c.locks)
      else
        && r == outcome
        && c.cache == (match outcome
                       case Success(v) => old(c.cache)[key := Entry(v, after)]
                       case Failure(_) => old(c.cache) - {key})
        && key in c.locks && c.locks.Keys == old(c.locks.Keys) + {key}
        && (forall k :: k in old(c.locks) ==> c.locks[k] == old(c.locks)[k])
  {
    var key := CacheKey([funcName] + args, kwargs);
    var cached, isFresh := c.Get(key, now);
    if isFresh {
      return Success(cached.value);
    }
    var keyLock := c.GetLock(key);
    // the check again under the key's lock: the first `get` has deleted
    // any expired entry, so it cannot hit
    cached, isFresh := c.Get(key, now);
    if isFresh {
      assert false;
    }
    match outcome
    case Success(v) =>
      c.Set(key, v, after);
      r := Success(v);
    case Failure(e) =>
      // the fallback to expired data: `cached` is always `None` here
      if cached.Some? {
        assert false;
      }
      r := Failure(e);
  }

  /** `get_cache_stats`: the statistics of the shared cache. */
  method GetCacheStats<V>(c: SimpleCache<V>, now: int) returns (stats: CacheStats)
    ensures stats == StatsOf(c.cache, now, c.defaultTtl)
    ensures stats.freshEntries + stats.expiredEntries == stats.totalEntries
  {
    stats := c.GetStats(now);
  }

  /** `clear_cache`. */
  method ClearCache<V>(c: SimpleCache<V>) returns (status: string)
    modifies c
    ensures c.cache == map[] && c.locks == map[]
    ensures status == "Cache cleared successfully"
  {
    c.Clear();
    status := "Cache cleared successfully";
  }
}
