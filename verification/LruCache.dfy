/** The image cache of `image_gallery.rs`: a recency vector beside a hash map. */
module LruCache {
  import opened Common

  /** `s` without the first occurrence of `h`. */
  function Without(s: seq<nat>, h: nat): seq<nat> {
    if s == [] then []
    else if s[0] == h then s[1..]
    else [s[0]] + Without(s[1..], h)
  }

  function Prefix(s: seq<nat>, n: nat): seq<nat> {
    if n <= |s| then s[..n] else s
  }

  // ---------------------------------------------------------------- ideal recency

  /** The distinct hashes of a trace of loads, most recently used first. */
  function Recency(trace: seq<nat>): seq<nat> {
    if trace == [] then []
    else
      var h := trace[|trace| - 1];
      [h] + Without(Recency(trace[..|trace| - 1]), h)
  }

  /** What one load does to the recency vector of a cache that holds at most `max` items. */
  function Loaded(usages: seq<nat>, max: nat, h: nat): seq<nat> {
    if h in usages then [h] + Without(usages, h)
    else if |usages| == max && usages != [] then [h] + usages[..|usages| - 1]
    else [h] + usages
  }

  function UsagesAfter(trace: seq<nat>, max: nat): seq<nat> {
    if trace == [] then []
    else Loaded(UsagesAfter(trace[..|trace| - 1], max), max, trace[|trace| - 1])
  }

  lemma {:induction false} WithoutElements(s: seq<nat>, h: nat)
    requires Distinct(s)
    ensures Distinct(Without(s, h))
    ensures forall x :: x in Without(s, h) <==> x in s && x != h
    ensures |Without(s, h)| == if h in s then |s| - 1 else |s|
  {
    if s != [] {
      WithoutElements(s[1..], h);
      assert s == [s[0]] + s[1..];
      if s[0] != h {
        var rest := Without(s[1..], h);
        assert forall k :: 0 <= k < |rest| ==> rest[k] in s[1..];
      }
    }
  }

  lemma {:induction false} WithoutAbsent(s: seq<nat>, h: nat)
    requires h !in s
    ensures Without(s, h) == s
  {
    if s != [] {
      WithoutAbsent(s[1..], h);
    }
  }

  /** Truncating before or after a removal: the removed element is inside the prefix. */
  lemma {:induction false} WithoutInPrefix(s: seq<nat>, h: nat, n: nat)
    requires n <= |s| && h in s[..n]
    ensures Without(s[..n], h) == Prefix(Without(s, h), n - 1)
  {
    if s[0] == h {
      assert s[..n][1..] == s[1..][..n - 1];
    } else {
      assert s[..n][1..] == s[1..][..n - 1];
      assert h in s[1..][..n - 1] by {
        var k :| 0 <= k < n && s[..n][k] == h;
        assert s[1..][..n - 1][k - 1] == h;
      }
      WithoutInPrefix(s[1..], h, n - 1);
    }
  }

  /** Truncating before or after a removal: the removed element, if any, is outside the prefix. */
  lemma {:induction false} WithoutBeyondPrefix(s: seq<nat>, h: nat, n: nat)
    requires n <= |s| && h !in s[..n]
    ensures |Without(s, h)| >= n - 1
    ensures n >= 1 ==> Prefix(Without(s, h), n - 1) == s[..n - 1]
  {
    if n >= 1 {
      assert s[0] == s[..n][0];
      assert s[..n] == [s[0]] + s[1..][..n - 1];
      WithoutBeyondPrefix(s[1..], h, n - 1);
      if n >= 2 {
        assert s[..n - 1] == [s[0]] + s[1..][..n - 2];
      }
    }
  }

  lemma {:induction false} RecencyIsDistinct(trace: seq<nat>)
    ensures Distinct(Recency(trace))
    ensures forall h :: h in Recency(trace) <==> h in trace
  {
    if trace != [] {
      var n := |trace| - 1;
      RecencyIsDistinct(trace[..n]);
      WithoutElements(Recency(trace[..n]), trace[n]);
      assert trace == trace[..n] + [trace[n]];
      var rest := Without(Recency(trace[..n]), trace[n]);
      assert forall k :: 0 <= k < |rest| ==> rest[k] in rest;
    }
  }

  /** Hash `h` was last loaded at step `i` of the trace. */
  ghost predicate LastUse(trace: seq<nat>, h: nat, i: nat) {
    i < |trace| && trace[i] == h && forall j :: i < j < |trace| ==> trace[j] != h
  }

  lemma LastUseBefore(trace: seq<nat>, h: nat, i: nat)
    requires trace != [] && h != trace[|trace| - 1]
    ensures LastUse(trace[..|trace| - 1], h, i) <==> LastUse(trace, h, i)
  {
    var front := trace[..|trace| - 1];
    assert forall j :: 0 <= j < |front| ==> front[j] == trace[j];
  }

  /** What stays in front of what, when one hash is taken out. */
  lemma {:induction false} WithoutKeepsOrder(s: seq<nat>, h: nat, i: nat, j: nat) returns (k: nat, l: nat)
    requires i < j < |Without(s, h)|
    ensures k < l < |s| && s[k] == Without(s, h)[i] && s[l] == Without(s, h)[j]
  {
    if s[0] == h {
      k, l := i + 1, j + 1;
    } else if i == 0 {
      k := 0;
      l := WithoutSource(s[1..], h, j - 1);
      l := l + 1;
    } else {
      k, l := WithoutKeepsOrder(s[1..], h, i - 1, j - 1);
      k, l := k + 1, l + 1;
    }
  }

  lemma {:induction false} WithoutSource(s: seq<nat>, h: nat, i: nat) returns (k: nat)
    requires i < |Without(s, h)|
    ensures k < |s| && s[k] == Without(s, h)[i]
  {
    if s[0] == h {
      k := i + 1;
    } else if i == 0 {
      k := 0;
    } else {
      k := WithoutSource(s[1..], h, i - 1);
      k := k + 1;
    }
  }

  /** Behind the latest hash come the others, in the order before. */
  lemma RecencyTail(trace: seq<nat>, j: nat)
    requires 1 <= j < |Recency(trace)|
    ensures trace != []
    ensures var front, h := trace[..|trace| - 1], trace[|trace| - 1];
      && |Without(Recency(front), h)| == |Recency(trace)| - 1
      && Recency(trace)[j] == Without(Recency(front), h)[j - 1]
      && Recency(trace)[j] != h && Recency(trace)[j] in front
  {
    var front, h := trace[..|trace| - 1], trace[|trace| - 1];
    RecencyIsDistinct(front);
    WithoutElements(Recency(front), h);
    assert Without(Recency(front), h)[j - 1] in Without(Recency(front), h);
  }

  lemma LatestIsFirst(trace: seq<nat>, j: nat) returns (v: nat)
    requires 1 <= j < |Recency(trace)|
    ensures LastUse(trace, Recency(trace)[0], |trace| - 1) && LastUse(trace, Recency(trace)[j], v) && v < |trace| - 1
  {
    RecencyTail(trace, j);
    v := LastUseExists(trace[..|trace| - 1], Recency(trace)[j]);
    LastUseBefore(trace, Recency(trace)[j], v);
  }

  /** The recency order is the order of last use, latest first. */
  lemma {:induction false} RecencyIsByLastUse(trace: seq<nat>, i: nat, j: nat) returns (u: nat, v: nat)
    requires i < j < |Recency(trace)|
    ensures LastUse(trace, Recency(trace)[i], u) && LastUse(trace, Recency(trace)[j], v) && u > v
  {
    RecencyTail(trace, j);
    if i == 0 {
      u := |trace| - 1;
      v := LatestIsFirst(trace, j);
    } else {
      RecencyTail(trace, i);
      var front, h := trace[..|trace| - 1], trace[|trace| - 1];
      var k, l := WithoutKeepsOrder(Recency(front), h, i - 1, j - 1);
      u, v := RecencyIsByLastUse(front, k, l);
      LastUseBefore(trace, Recency(trace)[i], u);
      LastUseBefore(trace, Recency(trace)[j], v);
    }
  }

  lemma {:induction false} LastUseExists(trace: seq<nat>, h: nat) returns (i: nat)
    requires h in trace
    ensures LastUse(trace, h, i)
  {
    var n := |trace| - 1;
    if trace[n] == h {
      i := n;
    } else {
      assert trace == trace[..n] + [trace[n]];
      i := LastUseExists(trace[..n], h);
      LastUseBefore(trace, h, i);
    }
  }

  /** One load commutes with truncation. */
  lemma LoadedIsTruncated(recency: seq<nat>, max: nat, h: nat)
    requires max >= 1 && Distinct(recency)
    ensures Loaded(Prefix(recency, max), max, h) == Prefix([h] + Without(recency, h), max)
  {
    var usages := Prefix(recency, max);
    var n := if max <= |recency| then max else |recency|;
    assert usages == recency[..n];
    WithoutElements(recency, h);
    assert Prefix([h] + Without(recency, h), max) == [h] + Prefix(Without(recency, h), max - 1);
    if h in usages {
      WithoutInPrefix(recency, h, n);
    } else if |usages| == max {
      WithoutBeyondPrefix(recency, h, n);
    } else {
      WithoutAbsent(recency, h);
    }
  }

  /** The recency vector is ideal LRU: the most recently used distinct hashes, cut off at the capacity. */
  lemma {:induction false} UsagesAreIdeal(trace: seq<nat>, max: nat)
    requires max >= 1
    ensures UsagesAfter(trace, max) == Prefix(Recency(trace), max)
  {
    if trace != [] {
      var n := |trace| - 1;
      UsagesAreIdeal(trace[..n], max);
      RecencyIsDistinct(trace[..n]);
      LoadedIsTruncated(Recency(trace[..n]), max, trace[n]);
    }
  }

  /** A smaller cache holds, at every moment of the same trace, a prefix of what a larger one holds. */
  lemma SmallerIsIncluded(trace: seq<nat>, small: nat, large: nat)
    requires 1 <= small <= large
    ensures UsagesAfter(trace, small) <= UsagesAfter(trace, large)
    ensures forall h :: h in UsagesAfter(trace, small) ==> h in UsagesAfter(trace, large)
  {
    UsagesAreIdeal(trace, small);
    UsagesAreIdeal(trace, large);
  }

  /** How many loads of the trace find their item cached. */
  function Hits(trace: seq<nat>, max: nat): nat {
    if trace == [] then 0
    else
      var n := |trace| - 1;
      Hits(trace[..n], max) + if trace[n] in UsagesAfter(trace[..n], max) then 1 else 0
  }

  /** More capacity never costs a hit. */
  lemma {:induction false} HitsGrowWithCapacity(trace: seq<nat>, small: nat, large: nat)
    requires 1 <= small <= large
    ensures Hits(trace, small) <= Hits(trace, large)
  {
    if trace != [] {
      var n := |trace| - 1;
      HitsGrowWithCapacity(trace[..n], small, large);
      SmallerIsIncluded(trace[..n], small, large);
    }
  }

  /** What a cache misses is exactly what has not been among the last `max` distinct hashes. */
  lemma HitIffRecent(trace: seq<nat>, max: nat, h: nat)
    requires max >= 1
    ensures h in UsagesAfter(trace, max) <==> exists k :: 0 <= k < |Recency(trace)| && k < max && Recency(trace)[k] == h
  {
    UsagesAreIdeal(trace, max);
    var recency, kept := Recency(trace), UsagesAfter(trace, max);
    if h in kept {
      var k :| 0 <= k < |kept| && kept[k] == h;
      assert recency[k] == h;
    }
    if exists k :: 0 <= k < |recency| && k < max && recency[k] == h {
      var k :| 0 <= k < |recency| && k < max && recency[k] == h;
      assert kept[k] == h;
    }
  }

  // ---------------------------------------------------------------- the cache object

  datatype Outcome<T> = Hit(value: T) | Miss(evicted: Option<T>) | Panic

  class SimpleLruCache<T(==)> {
    const maxItems: nat
    var usages: seq<nat>
    var cache: map<nat, T>

    /** The vector and the map are in step; the source asserts their sizes and the bound on every load. */
    ghost predicate Valid()
      reads this
    {
      && Distinct(usages)
      && (forall h :: h in usages <==> h in cache)
      && |usages| <= maxItems
    }

    constructor (max: nat)
      ensures Valid() && usages == [] && maxItems == max
    {
      maxItems, usages, cache := max, [], map[];
    }

    /**
     Looks `h` up, moving it to the front, or stores `item` under it, evicting the least recently used
     item when full. `Panic` is the failed `pop` of a cache without capacity.
     */
    method Load(h: nat, item: T) returns (r: Outcome<T>)
      requires Valid()
      modifies this
      ensures Valid()
      ensures r.Panic? <==> maxItems == 0
      ensures r.Hit? <==> h in old(cache)
      ensures maxItems >= 1 ==> usages == Loaded(old(usages), maxItems, h)
      ensures r.Hit? ==> cache == old(cache) && r.value == cache[h]
      ensures r.Miss? && |old(usages)| < maxItems ==> r.evicted == None && cache == old(cache)[h := item]
      ensures r.Miss? && |old(usages)| == maxItems ==>
                var oldest := old(usages)[maxItems - 1];
                && oldest in old(cache) && r.evicted == Some(old(cache)[oldest])
                && cache == (old(cache) - {oldest})[h := item]
      ensures r.Panic? ==> usages == old(usages) && cache == old(cache)
    {
      SizesAgree(usages, cache.Keys);
      assert |usages| == |cache| <= maxItems;
      if h in cache {
        MoveToFront(h);
        return Hit(cache[h]);
      }
      var evicted := None;
      if |usages| == maxItems {
        if usages == [] {
          return Panic;
        }
        var oldest := EvictOldest();
        evicted := Some(oldest);
      }
      Store(h, item);
      r := Miss(evicted);
    }

    method MoveToFront(h: nat)
      requires Valid() && h in cache
      modifies this`usages
      ensures Valid() && usages == [h] + Without(old(usages), h)
    {
      MovedToFront(usages, h);
      var ix := FindPosition(usages, h);
      WithoutAt(usages, h, ix);
      usages := usages[..ix] + usages[ix + 1..];
      usages := [h] + usages;
    }

    method EvictOldest() returns (evicted: T)
      requires Valid() && usages != []
      modifies this
      ensures Valid() && usages == old(usages)[..|old(usages)| - 1]
      ensures var oldest := old(usages)[|old(usages)| - 1];
        oldest in old(cache) && evicted == old(cache)[oldest] && cache == old(cache) - {oldest}
    {
      var last := |usages| - 1;
      var oldest := usages[last];
      assert usages == usages[..last] + [oldest];
      usages := usages[..last];
      evicted := cache[oldest];
      cache := cache - {oldest};
    }

    method Store(h: nat, item: T)
      requires Valid() && h !in cache && |usages| < maxItems
      modifies this
      ensures Valid() && usages == [h] + old(usages) && cache == old(cache)[h := item]
    {
      cache := cache[h := item];
      usages := [h] + usages;
    }
  }

  /** The first position of `h`. */
  method FindPosition(s: seq<nat>, h: nat) returns (ix: nat)
    requires h in s
    ensures ix < |s| && s[ix] == h && h !in s[..ix] && Some(ix) == Position(s, h)
  {
    ix := 0;
    while s[ix] != h
      invariant ix < |s| && h !in s[..ix]
      invariant exists k :: ix <= k < |s| && s[k] == h
      decreases |s| - ix
    {
      ix := ix + 1;
    }
  }

  lemma MovedToFront(s: seq<nat>, h: nat)
    requires Distinct(s) && h in s
    ensures var moved := [h] + Without(s, h);
      Distinct(moved) && |moved| == |s| && forall x :: x in moved <==> x in s
  {
    WithoutElements(s, h);
    var rest := Without(s, h);
    assert forall k :: 0 <= k < |rest| ==> rest[k] in rest;
  }

  lemma {:induction false} WithoutAt(s: seq<nat>, h: nat, ix: nat)
    requires ix < |s| && s[ix] == h && h !in s[..ix]
    ensures Without(s, h) == s[..ix] + s[ix + 1..]
  {
    if ix > 0 {
      assert s[..ix][0] == s[0] && s[1..][..ix - 1] == s[..ix][1..];
      WithoutAt(s[1..], h, ix - 1);
    }
  }

  /** A duplicate-free vector is as long as its set of elements is large. */
  lemma {:induction false} SizesAgree(s: seq<nat>, elements: set<nat>)
    requires Distinct(s) && forall h :: h in s <==> h in elements
    ensures |s| == |elements|
  {
    if s == [] {
      assert elements == {};
    } else {
      var n := |s| - 1;
      assert s == s[..n] + [s[n]];
      SizesAgree(s[..n], elements - {s[n]});
    }
  }

  /** A trace of loads from an empty cache leaves the ideal recency vector, with the map in step. */
  method LoadAll<T(==)>(lru: SimpleLruCache<T>, trace: seq<nat>, item: T) returns (hits: nat)
    requires lru.Valid() && lru.usages == [] && lru.maxItems >= 1
    modifies lru
    ensures lru.Valid()
    ensures lru.usages == Prefix(Recency(trace), lru.maxItems)
    ensures lru.cache.Keys == set h | h in lru.usages
    ensures hits == Hits(trace, lru.maxItems)
  {
    hits := 0;
    for i := 0 to |trace|
      invariant lru.Valid()
      invariant lru.usages == UsagesAfter(trace[..i], lru.maxItems)
      invariant hits == Hits(trace[..i], lru.maxItems)
    {
      assert trace[..i + 1][..i] == trace[..i];
      var r := lru.Load(trace[i], item);
      if r.Hit? {
        hits := hits + 1;
      }
    }
    assert trace[..|trace|] == trace;
    UsagesAreIdeal(trace, lru.maxItems);
  }
}
