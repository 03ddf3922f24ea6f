/** The in-memory object cache: two maps and an age counter, proved to be a list of entries ordered
    by their last use. */
module ObjMemCache {
  import opened Options

  /** The identity of a cached object. */
  type Obj = nat

  datatype Entry = Entry(obj: Obj, name: string)

  const TWO_32 := 0x1_0000_0000

  /** Conversion to `unsigned int`. */
  function Truncated(age: nat): nat { age % TWO_32 }

  // ---- The list: oldest entry first ----

  predicate Has(l: seq<Entry>, key: string) {
    exists i :: 0 <= i < |l| && l[i].name == key
  }

  predicate DistinctNames(l: seq<Entry>) {
    l == [] || (DistinctNames(l[..|l| - 1]) && !Has(l[..|l| - 1], l[|l| - 1].name))
  }

  lemma {:induction false} NamesDiffer(l: seq<Entry>, i: nat, j: nat)
    requires DistinctNames(l) && i < j < |l|
    ensures l[i].name != l[j].name
  {
    if j < |l| - 1 {
      NamesDiffer(l[..|l| - 1], i, j);
    } else {
      assert l[..|l| - 1][i].name == l[i].name;
    }
  }

  /** Where the entry of that name is, or the length of the list. */
  function Position(l: seq<Entry>, key: string): (r: nat)
    ensures r <= |l| && (r < |l| <==> Has(l, key))
    ensures r < |l| ==> l[r].name == key
    ensures forall i :: 0 <= i < r ==> l[i].name != key
  {
    if l == [] then 0
    else if l[0].name == key then 0
    else
      assert forall i :: 0 < i < |l| ==> l[i] == l[1..][i - 1];
      1 + Position(l[1..], key)
  }

  function Without(l: seq<Entry>, key: string): seq<Entry> {
    var i := Position(l, key);
    if i < |l| then l[..i] + l[i + 1..] else l
  }

  function Touched(l: seq<Entry>, key: string): seq<Entry> {
    var i := Position(l, key);
    if i < |l| then Without(l, key) + [l[i]] else l
  }

  /** `num_remove`: the fraction of the size, rounded down. */
  function Wanted(n: nat, fraction: real): (r: nat)
    requires fraction >= 0.0
  {
    assert n as real * fraction >= 0.0;
    (n as real * fraction).Floor
  }

  /** How many entries `purge(fraction)` removes of `n`. */
  function PurgeCount(n: nat, fraction: real): (r: nat)
    requires fraction >= 0.0
    ensures r <= n
  {
    var wanted := Wanted(n, fraction);
    if wanted < n then wanted else n
  }

  function Purged(l: seq<Entry>, fraction: real): seq<Entry>
    requires fraction >= 0.0
  {
    l[PurgeCount(|l|, fraction)..]
  }

  /** The list that `add` inserts into: with a threshold it purges first, when over it. */
  function Room(l: seq<Entry>, threshold: nat, fraction: real): seq<Entry>
    requires fraction >= 0.0
  {
    if threshold > 0 && |l| > threshold then Purged(l, fraction) else l
  }

  // ---- Objects ----

  function Objects(l: seq<Entry>): multiset<Obj> {
    if l == [] then multiset{} else Objects(l[..|l| - 1]) + multiset{l[|l| - 1].obj}
  }

  lemma ObjectsAppend(l: seq<Entry>, e: Entry)
    ensures Objects(l + [e]) == Objects(l) + multiset{e.obj}
  {
    assert (l + [e])[..|l|] == l;
  }

  lemma {:induction false} ObjectsSplit(l: seq<Entry>, i: nat)
    requires i < |l|
    ensures Objects(l) == Objects(l[..i] + l[i + 1..]) + multiset{l[i].obj}
  {
    var n := |l| - 1;
    if i == n {
      assert l[..i] + l[i + 1..] == l[..n];
    } else {
      ObjectsSplit(l[..n], i);
      CutThenLast(l, i);
      ObjectsAppend(l[..n][..i] + l[..n][i + 1..], l[n]);
    }
  }

  lemma CutThenLast(l: seq<Entry>, i: nat)
    requires i < |l| - 1
    ensures var n := |l| - 1; l[..i] + l[i + 1..] == (l[..n][..i] + l[..n][i + 1..]) + [l[n]]
    ensures l[..|l| - 1][i] == l[i]
  {
  }

  // ---- The two maps stand for the list ----

  predicate Below(ages: seq<nat>, bound: nat) {
    ages == [] || ages[|ages| - 1] < bound
  }

  predicate Ascending(ages: seq<nat>) {
    ages == [] || (Ascending(ages[..|ages| - 1]) && Below(ages[..|ages| - 1], ages[|ages| - 1]))
  }

  lemma {:induction false} AgesAscend(ages: seq<nat>, i: nat, j: nat)
    requires Ascending(ages) && i < j < |ages|
    ensures ages[i] < ages[j]
  {
    var n := |ages| - 1;
    if j < n {
      AgesAscend(ages[..n], i, j);
    } else if i < n - 1 {
      AgesAscend(ages[..n], i, n - 1);
    }
  }

  lemma AgesBelow(ages: seq<nat>, bound: nat)
    requires Ascending(ages) && Below(ages, bound)
    ensures forall a :: a in ages ==> a < bound
  {
    forall i | 0 <= i < |ages| - 1
      ensures ages[i] < bound
    {
      AgesAscend(ages, i, |ages| - 1);
    }
  }

  function CacheOf(l: seq<Entry>, ages: seq<nat>): map<nat, Entry>
    requires |l| == |ages|
  {
    if l == [] then map[]
    else
      var n := |l| - 1;
      CacheOf(l[..n], ages[..n])[ages[n] := l[n]]
  }

  function IndexOf(l: seq<Entry>, ages: seq<nat>): map<string, nat>
    requires |l| == |ages|
  {
    if l == [] then map[]
    else
      var n := |l| - 1;
      IndexOf(l[..n], ages[..n])[l[n].name := ages[n]]
  }

  /** The ages order the list, and cache and index are inverse to each other on it. */
  ghost predicate Fits(cache: map<nat, Entry>, index: map<string, nat>, age: nat, l: seq<Entry>, ages: seq<nat>) {
    && |ages| == |l| && DistinctNames(l) && Ascending(ages)
    && Below(ages, age + 1)
    && cache == CacheOf(l, ages) && index == IndexOf(l, ages)
  }

  lemma {:induction false} CacheLookup(l: seq<Entry>, ages: seq<nat>)
    requires |l| == |ages| && Ascending(ages)
    ensures forall i :: 0 <= i < |l| ==> ages[i] in CacheOf(l, ages) && CacheOf(l, ages)[ages[i]] == l[i]
    ensures forall a :: a in CacheOf(l, ages) ==> a in ages
  {
    if l != [] {
      var n := |l| - 1;
      CacheLookup(l[..n], ages[..n]);
      AgesBelow(ages[..n], ages[n]);
    }
  }

  lemma {:induction false} IndexLookup(l: seq<Entry>, ages: seq<nat>)
    requires |l| == |ages| && DistinctNames(l)
    ensures forall i :: 0 <= i < |l| ==> l[i].name in IndexOf(l, ages) && IndexOf(l, ages)[l[i].name] == ages[i]
    ensures forall k :: k in IndexOf(l, ages) <==> Has(l, k)
  {
    if l != [] {
      var n := |l| - 1;
      IndexLookup(l[..n], ages[..n]);
      assert l == l[..n] + [l[n]];
      forall k
        ensures k in IndexOf(l, ages) <==> Has(l, k)
      {
        HasAppend(l[..n], l[n], k);
      }
      assert forall i :: 0 <= i < n ==> Has(l[..n], l[..n][i].name);
    }
  }

  function Drop<T>(s: seq<T>, i: nat): seq<T>
    requires i < |s|
  {
    s[..i] + s[i + 1..]
  }

  lemma HasAppend(l: seq<Entry>, e: Entry, k: string)
    ensures Has(l + [e], k) <==> Has(l, k) || k == e.name
  {
    if Has(l, k) {
      var i :| 0 <= i < |l| && l[i].name == k;
      assert (l + [e])[i].name == k;
    }
    assert (l + [e])[|l|] == e;
  }

  lemma DropFront<T>(s: seq<T>, i: nat)
    requires i < |s|
    ensures i == |s| - 1 ==> Drop(s, i) == s[..i]
    ensures i < |s| - 1 ==> Drop(s, i)[..|s| - 2] == Drop(s[..|s| - 1], i) && Drop(s, i)[|s| - 2] == s[|s| - 1]
  {
  }

  lemma {:induction false} DropAscending(ages: seq<nat>, i: nat, bound: nat)
    requires Ascending(ages) && i < |ages| && Below(ages, bound)
    ensures Ascending(Drop(ages, i)) && Below(Drop(ages, i), bound)
    decreases |ages|
  {
    var n := |ages| - 1;
    DropFront(ages, i);
    if i < n {
      DropAscending(ages[..n], i, ages[n]);
    } else if n > 0 {
      AgesAscend(ages, n - 1, n);
    }
  }

  lemma {:induction false} DropDistinct(l: seq<Entry>, i: nat)
    requires DistinctNames(l) && i < |l|
    ensures DistinctNames(Drop(l, i)) && !Has(Drop(l, i), l[i].name)
    ensures forall k :: Has(Drop(l, i), k) ==> Has(l, k)
    decreases |l|
  {
    var n := |l| - 1;
    DropFront(l, i);
    forall k | Has(Drop(l, i), k)
      ensures Has(l, k)
    {
      var j :| 0 <= j < |Drop(l, i)| && Drop(l, i)[j].name == k;
      assert l[if j < i then j else j + 1].name == k;
    }
    if i < n {
      DropDistinct(l[..n], i);
      NamesDiffer(l, i, n);
      assert Drop(l, i) == Drop(l[..n], i) + [l[n]];
      HasAppend(Drop(l[..n], i), l[n], l[i].name);
    }
  }

  lemma UpdateThenDrop<K, V>(m: map<K, V>, k: K, v: V, d: K)
    ensures m[k := v] - {d} == if k == d then m - {d} else (m - {d})[k := v]
    ensures d !in m ==> m - {d} == m
  {
  }

  lemma {:induction false} CacheDrop(l: seq<Entry>, ages: seq<nat>, i: nat)
    requires |l| == |ages| && Ascending(ages) && i < |l|
    ensures CacheOf(Drop(l, i), Drop(ages, i)) == CacheOf(l, ages) - {ages[i]}
    decreases |l|
  {
    var n := |l| - 1;
    DropFront(l, i);
    DropFront(ages, i);
    UpdateThenDrop(CacheOf(l[..n], ages[..n]), ages[n], l[n], ages[i]);
    if i == n {
      CacheLookup(l[..n], ages[..n]);
      AgesBelow(ages[..n], ages[n]);
    } else {
      CacheDrop(l[..n], ages[..n], i);
      AgesAscend(ages, i, n);
    }
  }

  lemma {:induction false} IndexDrop(l: seq<Entry>, ages: seq<nat>, i: nat)
    requires |l| == |ages| && DistinctNames(l) && i < |l|
    ensures IndexOf(Drop(l, i), Drop(ages, i)) == IndexOf(l, ages) - {l[i].name}
    decreases |l|
  {
    var n := |l| - 1;
    DropFront(l, i);
    DropFront(ages, i);
    UpdateThenDrop(IndexOf(l[..n], ages[..n]), l[n].name, ages[n], l[i].name);
    if i == n {
      IndexLookup(l[..n], ages[..n]);
    } else {
      IndexDrop(l[..n], ages[..n], i);
      NamesDiffer(l, i, n);
    }
  }

  /** Erasing an entry from both maps. */
  lemma FitsDrop(cache: map<nat, Entry>, index: map<string, nat>, age: nat, l: seq<Entry>, ages: seq<nat>, i: nat)
    requires Fits(cache, index, age, l, ages) && i < |l|
    ensures Fits(cache - {ages[i]}, index - {l[i].name}, age, Drop(l, i), Drop(ages, i))
    ensures ages[i] in cache && cache[ages[i]] == l[i] && !Has(Drop(l, i), l[i].name)
  {
    DropAscending(ages, i, age + 1);
    DropDistinct(l, i);
    CacheDrop(l, ages, i);
    IndexDrop(l, ages, i);
    CacheLookup(l, ages);
  }

  /** Inserting a new entry into both maps, with the newest age. */
  lemma FitsAppend(cache: map<nat, Entry>, index: map<string, nat>, age: nat, l: seq<Entry>, ages: seq<nat>,
                   newest: nat, e: Entry)
    requires Fits(cache, index, age, l, ages) && age < newest && !Has(l, e.name)
    ensures Fits(cache[newest := e], index[e.name := newest], newest, l + [e], ages + [newest])
  {
    assert (l + [e])[..|l|] == l && (ages + [newest])[..|l|] == ages;
  }

  lemma FitsSizes(cache: map<nat, Entry>, index: map<string, nat>, age: nat, l: seq<Entry>, ages: seq<nat>)
    requires Fits(cache, index, age, l, ages)
    ensures |cache| == |index| == |l|
  {
    SizeOfCache(l, ages);
    SizeOfIndex(l, ages);
  }

  lemma {:induction false} SizeOfCache(l: seq<Entry>, ages: seq<nat>)
    requires |l| == |ages| && Ascending(ages)
    ensures |CacheOf(l, ages)| == |l|
  {
    if l != [] {
      var n := |l| - 1;
      SizeOfCache(l[..n], ages[..n]);
      CacheLookup(l[..n], ages[..n]);
      AgesBelow(ages[..n], ages[n]);
      assert ages[n] !in CacheOf(l[..n], ages[..n]);
    }
  }

  lemma {:induction false} SizeOfIndex(l: seq<Entry>, ages: seq<nat>)
    requires |l| == |ages| && DistinctNames(l)
    ensures |IndexOf(l, ages)| == |l|
  {
    if l != [] {
      var n := |l| - 1;
      SizeOfIndex(l[..n], ages[..n]);
      IndexLookup(l[..n], ages[..n]);
      assert l[n].name !in IndexOf(l[..n], ages[..n]);
    }
  }

  /** The oldest entry is the first of the cache map, in key order. */
  lemma FitsFirst(cache: map<nat, Entry>, index: map<string, nat>, age: nat, l: seq<Entry>, ages: seq<nat>)
    requires Fits(cache, index, age, l, ages) && cache != map[]
    ensures l != [] && ages[0] in cache && forall a :: a in cache ==> ages[0] <= a
  {
    CacheLookup(l, ages);
    forall a | a in cache
      ensures ages[0] <= a
    {
      var i :| 0 <= i < |ages| && ages[i] == a;
      if i > 0 {
        AgesAscend(ages, 0, i);
      }
    }
  }

  /** What the index says about a key. */
  lemma FitsFind(cache: map<nat, Entry>, index: map<string, nat>, age: nat, l: seq<Entry>, ages: seq<nat>, key: string)
    requires Fits(cache, index, age, l, ages)
    ensures key in index <==> Has(l, key)
    ensures key in index ==> index[key] == ages[Position(l, key)]
  {
    IndexLookup(l, ages);
  }

  class ObjMemCache {
    var age: nat
    const entriesThreshold: nat
    const purgeThreshold: real
    var cache: map<nat, Entry>
    var index: map<string, nat>
    // The objects that have been deleted, in order.
    var destroyed: seq<Obj>

    // The list the maps stand for, the ages of its entries, and all objects ever added.
    ghost var lru: seq<Entry>
    ghost var ages: seq<nat>
    ghost var added: multiset<Obj>

    ghost predicate Valid()
      reads this
    {
      && purgeThreshold >= 0.0
      && Fits(cache, index, age, lru, ages)
      && added == Objects(lru) + multiset(destroyed)
    }

    /** The two maps stand for some list of entries. */
    ghost predicate Consistent()
      reads this
    {
      exists l, stamps :: Fits(cache, index, age, l, stamps)
    }

    constructor (entriesThreshold: nat, purgeThreshold: real)
      requires purgeThreshold >= 0.0
      ensures Valid() && lru == [] && age == 0 && added == multiset{} && destroyed == []
      ensures this.entriesThreshold == entriesThreshold && this.purgeThreshold == purgeThreshold
    {
      this.entriesThreshold, this.purgeThreshold := entriesThreshold, purgeThreshold;
      age, cache, index, destroyed := 0, map[], map[], [];
      lru, ages, added := [], [], multiset{};
    }

    /** The consistency assertion of `size` never fires. */
    method Size() returns (n: nat)
      requires Valid()
      ensures n == |lru|
    {
      FitsSizes(cache, index, age, lru, ages);
      assert |cache| == |index|;
      n := |cache|;
    }

    /** Erases the entry of age `a` from both maps and deletes it; `at` is its place in the list. */
    method Erase(a: nat, ghost at: nat)
      requires Valid() && at < |lru| && a == ages[at]
      modifies this`cache, this`index, this`destroyed, this`lru, this`ages
      ensures Valid()
      ensures lru == Drop(old(lru), at) && ages == Drop(old(ages), at)
      ensures destroyed == old(destroyed) + [old(lru)[at].obj]
    {
      FitsDrop(cache, index, age, lru, ages, at);
      ObjectsSplit(lru, at);
      var entry := cache[a];
      cache := cache - {a};
      index := index - {entry.name};
      destroyed := destroyed + [entry.obj];
      lru, ages := Drop(lru, at), Drop(ages, at);
    }

    /** `purge`: removes exactly the oldest entries, as many as the fraction says. */
    method Purge(fraction: real, ghost bound: nat)
      requires Valid() && fraction >= 0.0 && Below(ages, bound)
      modifies this`cache, this`index, this`destroyed, this`lru, this`ages
      ensures Valid()
      ensures lru == Purged(old(lru), fraction) && Below(ages, bound)
    {
      FitsSizes(cache, index, age, lru, ages);
      var numRemove := Wanted(|cache|, fraction);
      var i := EraseOldest(numRemove, bound);
    }

    /** The loop of `purge`. */
    method EraseOldest(numRemove: nat, ghost bound: nat) returns (i: nat)
      requires Valid() && Below(ages, bound)
      modifies this`cache, this`index, this`destroyed, this`lru, this`ages
      ensures Valid() && i <= |old(lru)| && lru == old(lru)[i..] && Below(ages, bound)
      ensures i == if numRemove < |old(lru)| then numRemove else |old(lru)|
    {
      i := 0;
      FitsSizes(cache, index, age, lru, ages);
      while i < numRemove && cache != map[]
        invariant Valid() && |cache| == |lru| == |old(lru)| - i
        invariant lru == old(lru)[i..] && Below(ages, bound)
        invariant i <= numRemove
        decreases numRemove - i
      {
        EraseFirst(bound);
        i := i + 1;
      }
    }

    /** Erases the oldest entry; `bound` is above all ages. */
    method EraseFirst(ghost bound: nat)
      requires Valid() && cache != map[] && Below(ages, bound)
      modifies this`cache, this`index, this`destroyed, this`lru, this`ages
      ensures Valid() && |cache| == |lru|
      ensures old(lru) != [] && lru == old(lru)[1..] && Below(ages, bound)
    {
      FitsFirst(cache, index, age, lru, ages);
      var c :| c in cache && forall a :: a in cache ==> c <= a;
      Erase(c, 0);
      FitsSizes(cache, index, age, lru, ages);
    }

    /** `add`. With the age counter below 2^32, it keeps the maps consistent if and only if the key
        is not in the cache (any more, if a purge has made room), and then appends the entry. */
    method Add(obj: Obj, key: string)
      requires Valid() && age + 1 < TWO_32
      modifies this
      ensures age == old(age) + 1
      ensures var room := Room(old(lru), entriesThreshold, purgeThreshold);
              && (Consistent() <==> !Has(room, key))
              && (!Has(room, key) ==> Valid() && lru == room + [Entry(obj, key)])
      ensures added == old(added) + multiset{obj}
    {
      MakeRoom();
      Insert(obj, key);
    }

    /** The age and the purge of `add`. */
    method MakeRoom()
      requires Valid() && age + 1 < TWO_32
      modifies this`age, this`cache, this`index, this`destroyed, this`lru, this`ages
      ensures Valid() && age == old(age) + 1 && Below(ages, age)
      ensures lru == Room(old(lru), entriesThreshold, purgeThreshold)
    {
      FitsSizes(cache, index, age, lru, ages);
      age := age + 1;
      if entriesThreshold > 0 && |cache| > entriesThreshold {
        Purge(purgeThreshold, age);
      }
    }

    /** The two insertions of `add`; `insert` does not overwrite. */
    method Insert(obj: Obj, key: string)
      requires Valid() && age < TWO_32 && Below(ages, age)
      modifies this`cache, this`index, this`lru, this`ages, this`added
      ensures !Has(old(lru), key) ==> Valid() && lru == old(lru) + [Entry(obj, key)]
      ensures Has(old(lru), key) ==> !Consistent()
      ensures added == old(added) + multiset{obj}
    {
      var stamp := Truncated(age);
      FitsFind(cache, index, age, lru, ages, key);
      if key !in index {
        InsertNew(stamp, Entry(obj, key));
      } else {
        InsertInCacheOnly(stamp, Entry(obj, key));
      }
    }

    /** The insertions of an entry whose key is new. */
    method InsertNew(stamp: nat, e: Entry)
      requires Valid() && stamp == age && Below(ages, age) && !Has(lru, e.name)
      modifies this`cache, this`index, this`lru, this`ages, this`added
      ensures Valid() && lru == old(lru) + [e] && added == old(added) + multiset{e.obj}
    {
      FitsNewest(cache, index, stamp, lru, ages, e);
      ObjectsAppend(lru, e);
      ghost var l, stamps, all := lru + [e], ages + [stamp], added + multiset{e.obj};
      assert all == Objects(l) + multiset(destroyed);
      index := index[e.name := stamp];
      cache := cache[stamp := e];
      lru, ages, added := l, stamps, all;
    }

    /** The insertions of an entry whose key is there: the index keeps its old age. */
    method InsertInCacheOnly(stamp: nat, e: Entry)
      requires Valid() && stamp == age && Below(ages, age)
      modifies this`cache, this`added
      ensures !Consistent() && added == old(added) + multiset{e.obj}
    {
      FitsSizes(cache, index, age, lru, ages);
      NewestNotCached(cache, index, age, lru, ages, e);
      ConsistentSizes(cache[stamp := e], index, age);
      added := added + multiset{e.obj};
      cache := cache[stamp := e];
    }

    /** `get`: hands the object out and moves its entry to the newest end. */
    method Get(key: string) returns (r: Option<Obj>)
      requires Valid() && age + 1 < TWO_32
      modifies this
      ensures Valid() && added == old(added) && destroyed == old(destroyed)
      ensures lru == Touched(old(lru), key)
      ensures r == if Has(old(lru), key) then Some(old(lru)[Position(old(lru), key)].obj) else None
      ensures age == if r.Some? then old(age) + 1 else old(age)
    {
      r := None;
      FitsFind(cache, index, age, lru, ages, key);
      if key in index {
        TouchedObjects(lru, key);
        var entry := Refresh(key, index[key], Position(lru, key));
        r := Some(entry.obj);
      }
    }

    /** Erases the entry of age `a` and inserts it again with a new age; `at` is its place in the list. */
    method Refresh(key: string, a: nat, ghost at: nat) returns (entry: Entry)
      requires Valid() && age + 1 < TWO_32 && at < |lru| && a == ages[at] && key == lru[at].name
      requires Objects(Drop(lru, at) + [lru[at]]) == Objects(lru)
      modifies this`age, this`cache, this`index, this`lru, this`ages
      ensures Valid() && age == old(age) + 1
      ensures entry == old(lru)[at] && lru == Drop(old(lru), at) + [entry]
    {
      FitsDrop(cache, index, age, lru, ages, at);
      entry := cache[a];
      var newest := age + 1;
      FitsTouch(cache, index, age, lru, ages, at, newest, entry);
      var stamp := Truncated(newest);
      assert stamp == newest;
      cache := (cache - {a})[stamp := entry];
      index := (index - {key})[key := stamp];
      lru, ages, age := Drop(lru, at) + [entry], Drop(ages, at) + [newest], newest;
    }

    /** `remove`: deletes the entry and its object. */
    method Remove(key: string)
      requires Valid()
      modifies this
      ensures Valid() && added == old(added) && age == old(age)
      ensures lru == Without(old(lru), key)
      ensures destroyed == if Has(old(lru), key) then old(destroyed) + [old(lru)[Position(old(lru), key)].obj]
                           else old(destroyed)
    {
      FitsFind(cache, index, age, lru, ages, key);
      if key in index {
        Erase(index[key], Position(lru, key));
      }
    }

    /** The destructor. After it every object ever added has been destroyed exactly once. */
    method Destroy()
      requires Valid()
      modifies this
      ensures multiset(destroyed) == added == old(added)
    {
      FitsSizes(cache, index, age, lru, ages);
      while cache != map[]
        invariant Valid() && added == old(added) && |cache| == |lru|
        decreases |lru|
      {
        EraseFirst(age + 1);
      }
    }
  }

  lemma FitsTouch(cache: map<nat, Entry>, index: map<string, nat>, age: nat, l: seq<Entry>, ages: seq<nat>, at: nat,
                  newest: nat, e: Entry)
    requires Fits(cache, index, age, l, ages) && at < |l| && age < newest && e == l[at]
    ensures Fits((cache - {ages[at]})[newest := e], (index - {e.name})[e.name := newest], newest,
                 Drop(l, at) + [e], Drop(ages, at) + [newest])
  {
    FitsDrop(cache, index, age, l, ages, at);
    FitsAppend(cache - {ages[at]}, index - {e.name}, age, Drop(l, at), Drop(ages, at), newest, e);
  }

  /** An entry with the current age, when no entry has it yet. */
  lemma FitsNewest(cache: map<nat, Entry>, index: map<string, nat>, age: nat, l: seq<Entry>, ages: seq<nat>, e: Entry)
    requires Fits(cache, index, age, l, ages) && !Has(l, e.name) && Below(ages, age)
    ensures Fits(cache[age := e], index[e.name := age], age, l + [e], ages + [age])
  {
    assert (l + [e])[..|l|] == l && (ages + [age])[..|l|] == ages;
  }

  lemma ConsistentSizes(cache: map<nat, Entry>, index: map<string, nat>, age: nat)
    ensures (exists l, stamps :: Fits(cache, index, age, l, stamps)) ==> |cache| == |index|
  {
    forall l, stamps | Fits(cache, index, age, l, stamps)
      ensures |cache| == |index|
    {
      FitsSizes(cache, index, age, l, stamps);
    }
  }

  lemma NewestNotCached(cache: map<nat, Entry>, index: map<string, nat>, age: nat, l: seq<Entry>, ages: seq<nat>,
                        e: Entry)
    requires Fits(cache, index, age, l, ages) && Below(ages, age)
    ensures age !in cache && |cache[age := e]| == |cache| + 1
  {
    CacheLookup(l, ages);
    AgesBelow(ages, age);
  }

  lemma TouchedObjects(l: seq<Entry>, key: string)
    requires Has(l, key)
    ensures var at := Position(l, key);
            Drop(l, at) + [l[at]] == Touched(l, key) && Objects(Touched(l, key)) == Objects(l)
  {
    var at := Position(l, key);
    ObjectsSplit(l, at);
    ObjectsAppend(Drop(l, at), l[at]);
  }

  /** Adding two objects under one key breaks a new cache. */
  method AddTwice(first: Obj, second: Obj, key: string) returns (c: ObjMemCache)
    ensures !c.Consistent()
  {
    c := new ObjMemCache(0, 0.2);
    c.Add(first, key);
    assert c.lru == [Entry(first, key)];
    assert c.lru[0].name == key;
    c.Add(second, key);
  }
}
