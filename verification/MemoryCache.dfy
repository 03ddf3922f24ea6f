/** The FIFO memory cache: a queue of keys beside a map of values, and what any run of calls leaves
    in it. */
module MemoryCache {
  import opened Options

  /** `d_max_items` and `d_purge_items`. */
  datatype Limits = Limits(maxItems: nat, purgeItems: nat)

  /** What `initialize` lets through. */
  predicate Accepted(c: Limits) { c.maxItems > 0 && c.purgeItems > 0 }

  datatype State<V> = State(keys: seq<string>, values: map<string, V>)

  predicate Distinct(s: seq<string>) {
    forall i, j :: 0 <= i < j < |s| ==> s[i] != s[j]
  }

  /** The queue holds every key of the map, once. */
  ghost predicate Fits<V>(s: State<V>) {
    Distinct(s.keys) && forall k :: k in s.keys <==> k in s.values
  }

  /** The queue of a cache that fits has the keys of the map. */
  lemma {:induction false} SameSize<V>(s: State<V>)
    requires Fits(s)
    ensures |s.keys| == |s.values|
    decreases |s.keys|
  {
    if s.keys != [] {
      PopFits(s);
      SameSize(Pop(s).value);
    } else {
      assert s.values == map[];
    }
  }

  /** One round of the loop of `purge`, which fails when there is no front key. */
  function Pop<V>(s: State<V>): Option<State<V>> {
    if s.keys == [] then None else Some(State(s.keys[1..], s.values - {s.keys[0]}))
  }

  lemma PopFits<V>(s: State<V>)
    requires Fits(s) && s.keys != []
    ensures Fits(Pop(s).value)
  {
    assert s.keys == [s.keys[0]] + s.keys[1..];
  }

  /** The state after `n` rounds. */
  function Popped<V>(s: State<V>, n: nat): Option<State<V>>
    decreases n
  {
    if n == 0 then Some(s)
    else
      match Popped(s, n - 1)
      case None => None
      case Some(t) => Pop(t)
  }

  /** A state that is what is left when the `n` oldest keys are gone. */
  ghost predicate Remains<V>(s: State<V>, n: nat, t: State<V>) {
    && n <= |s.keys| && Fits(t) && t.keys == s.keys[n..]
    && forall k :: k in t.values ==> k in s.values && t.values[k] == s.values[k]
  }

  lemma RemainsStep<V>(s: State<V>, n: nat, t: State<V>)
    requires Remains(s, n, t) && n < |s.keys|
    ensures Remains(s, n + 1, Pop(t).value)
  {
    PopFits(t);
    assert t.keys[1..] == s.keys[n + 1..];
  }

  /** The rounds succeed exactly while the queue holds enough keys, and then take the oldest. */
  lemma {:induction false} PoppedFits<V>(s: State<V>, n: nat)
    requires Fits(s)
    ensures Popped(s, n).Some? <==> n <= |s.keys|
    ensures n <= |s.keys| ==> Remains(s, n, Popped(s, n).value)
    decreases n
  {
    if n > 0 {
      PoppedFits(s, n - 1);
      if n <= |s.keys| {
        RemainsStep(s, n - 1, Popped(s, n - 1).value);
      }
    }
  }

  /** The state before a purge, when the key is new. */
  function Pushed<V>(s: State<V>, key: string, value: V): State<V> {
    State(s.keys + [key], s.values[key := value])
  }

  lemma PushedFits<V>(s: State<V>, key: string, value: V)
    requires Fits(s) && key !in s.values
    ensures Fits(Pushed(s, key, value))
  {
  }

  /** `put`, for any limits: None when its purge finds the queue empty. */
  function Put<V>(s: State<V>, key: string, value: V, c: Limits): Option<State<V>> {
    if key in s.values then Some(s.(values := s.values[key := value]))
    else if |s.keys| + 1 > c.maxItems then Popped(Pushed(s, key, value), c.purgeItems)
    else Some(Pushed(s, key, value))
  }

  // ---- The class ----

  class MemoryCache<V(0)> {
    var maxItems: nat
    var purgeItems: nat
    var fifoKeys: seq<string>
    var cache: map<string, V>

    ghost function Contents(): State<V>
      reads this
    {
      State(fifoKeys, cache)
    }

    ghost function Settings(): Limits
      reads this
    {
      Limits(maxItems, purgeItems)
    }

    ghost predicate Valid()
      reads this
    {
      Fits(Contents()) && Accepted(Settings())
    }

    constructor ()
      ensures Valid() && Contents() == State([], map[]) && Settings() == Limits(100, 20)
    {
      maxItems, purgeItems, fifoKeys, cache := 100, 20, [], map[];
    }

    method Initialize(max: int, purge: int) returns (ok: bool)
      requires Valid()
      modifies this`maxItems, this`purgeItems
      ensures Valid() && ok == (max > 0 && purge > 0)
      ensures Settings() == if ok then Limits(max, purge) else old(Settings())
    {
      if max <= 0 || purge <= 0 {
        return false;
      }
      maxItems, purgeItems := max, purge;
      return true;
    }

    /** The value is returned together with the parameter that the caller passed in. */
    method Get(key: string, value: V) returns (found: bool, r: V)
      requires Valid()
      ensures found == (key in cache)
      ensures r == if found then cache[key] else value
    {
      if key in cache {
        return true, cache[key];
      }
      return false, value;
    }

    /** `put`; `ok` is false when its purge looks at the front of an empty queue. */
    method Store(key: string, value: V) returns (ok: bool)
      requires Valid()
      modifies this`fifoKeys, this`cache
      ensures Valid() && ok == Put(old(Contents()), key, value, Settings()).Some?
      ensures ok ==> Contents() == Put(old(Contents()), key, value, Settings()).value
    {
      ok := true;
      if key !in cache {
        PushedFits(Contents(), key, value);
        cache := cache[key := value];
        fifoKeys := fifoKeys + [key];
        SameSize(Contents());
        if |cache| > maxItems {
          ok := Purge();
        }
      } else {
        cache := cache[key := value];
      }
    }

    method Purge() returns (ok: bool)
      requires Valid()
      modifies this`fifoKeys, this`cache
      ensures Valid() && ok == Popped(old(Contents()), purgeItems).Some?
      ensures ok ==> Contents() == Popped(old(Contents()), purgeItems).value
    {
      var entries := 0;
      while entries < purgeItems
        invariant entries <= purgeItems && Valid()
        invariant Popped(old(Contents()), entries) == Some(Contents())
      {
        if fifoKeys == [] {
          PoppedFits(old(Contents()), entries);
          PoppedFits(old(Contents()), purgeItems);
          return false;
        }
        PopFits(Contents());
        var key := fifoKeys[0];
        cache := cache - {key};
        fifoKeys := fifoKeys[1..];
        entries := entries + 1;
      }
      return true;
    }

    method Size() returns (n: nat)
      requires Valid()
      ensures n == |fifoKeys|
    {
      SameSize(Contents());
      n := |cache|;
    }

    method Clear()
      requires Valid()
      modifies this`fifoKeys, this`cache
      ensures Valid() && Contents() == State([], map[])
    {
      cache := map[];
      fifoKeys := [];
    }
  }

  // ---- Runs ----

  datatype Op<V> = Store(key: string, value: V) | Get(key: string) | Clear

  function Step<V>(s: State<V>, op: Op<V>, c: Limits): Option<State<V>> {
    match op
    case Store(key, value) => Put(s, key, value, c)
    case Get(_) => Some(s)
    case Clear => Some(State([], map[]))
  }

  /** The state after all calls, or None when one of them has failed. */
  function Run<V>(ops: seq<Op<V>>, c: Limits): Option<State<V>> {
    if ops == [] then Some(State([], map[]))
    else
      match Run(ops[..|ops| - 1], c)
      case None => None
      case Some(s) => Step(s, ops[|ops| - 1], c)
  }

  /** The keys that were new when they were put, since the last `clear`. */
  function Insertions<V>(ops: seq<Op<V>>, c: Limits): seq<string>
    requires Run(ops, c).Some?
  {
    if ops == [] then []
    else
      var n := |ops| - 1;
      match ops[n]
      case Store(key, _) =>
        Insertions(ops[..n], c) + (if key in Run(ops[..n], c).value.values then [] else [key])
      case Get(_) => Insertions(ops[..n], c)
      case Clear => []
  }

  /** Limits with which no purge asks for more keys than the cache can hold. */
  predicate Safe(c: Limits) { c.purgeItems <= c.maxItems + 1 }

  /** How many of `n` insertions into an empty cache are left. */
  function Kept(n: nat, c: Limits): (r: nat)
    requires Accepted(c) && (Safe(c) || n <= c.maxItems)
    ensures r <= n && r <= c.maxItems
    ensures n > 0 && c.purgeItems <= c.maxItems ==> r > 0
  {
    if n <= c.maxItems then n
    else (c.maxItems + 1 - c.purgeItems) + Phase(n - c.maxItems - 1, c.purgeItems)
  }

  /** How far into a round of `p` insertions the `n`th is. */
  function Phase(n: nat, p: nat): (r: nat)
    requires p > 0
    ensures r < p && r <= n
  {
    if n < p then n else Phase(n - p, p)
  }

  lemma {:induction false} PhaseStep(n: nat, p: nat)
    requires p > 0
    ensures Phase(n + 1, p) == if Phase(n, p) + 1 == p then 0 else Phase(n, p) + 1
  {
    if n >= p {
      PhaseStep(n - p, p);
    }
  }

  /** One more insertion: a purge happens exactly when the cache is full. */
  lemma KeptStep(n: nat, c: Limits)
    requires Accepted(c) && (Safe(c) || n + 1 <= c.maxItems)
    ensures Kept(n + 1, c) == if Kept(n, c) == c.maxItems then c.maxItems + 1 - c.purgeItems else Kept(n, c) + 1
  {
    if n > c.maxItems {
      PhaseStep(n - c.maxItems - 1, c.purgeItems);
    }
  }

  /** The value of the last `put` of the key. */
  ghost predicate LastPut<V>(ops: seq<Op<V>>, key: string, value: V) {
    ops != [] &&
    var op := ops[|ops| - 1];
    if op.Store? && op.key == key then op.value == value
    else LastPut(ops[..|ops| - 1], key, value)
  }

  /** The number of insertions never forces a purge of more keys than there are. */
  predicate Bounded(all: seq<string>, c: Limits) { Accepted(c) && (Safe(c) || |all| <= c.maxItems) }

  function Newest(all: seq<string>, c: Limits): seq<string>
    requires Bounded(all, c)
  {
    all[|all| - Kept(|all|, c)..]
  }

  /** The queue after a new key is put. */
  function PutKeys(keys: seq<string>, key: string, c: Limits): seq<string>
    requires Safe(c) || |keys| + 1 <= c.maxItems
  {
    if |keys| + 1 > c.maxItems then (keys + [key])[c.purgeItems..] else keys + [key]
  }

  /** The queue is the last part of the insertions, of a length that their number alone decides; the
      map has the same keys. */
  ghost predicate KeepsNewest<V>(s: State<V>, all: seq<string>, c: Limits) {
    Fits(s) && Bounded(all, c) && s.keys == Newest(all, c)
  }

  lemma PutFits<V>(s: State<V>, key: string, value: V, c: Limits)
    requires Fits(s) && key !in s.values && Put(s, key, value, c).Some?
    ensures var t := Put(s, key, value, c).value;
      && Fits(t)
      && (Safe(c) || |s.keys| + 1 <= c.maxItems ==> t.keys == PutKeys(s.keys, key, c))
      && forall k :: k in t.values ==>
           k in Pushed(s, key, value).values && t.values[k] == Pushed(s, key, value).values[k]
  {
    PushedFits(s, key, value);
    if |s.keys| + 1 > c.maxItems {
      PoppedFits(Pushed(s, key, value), c.purgeItems);
    }
  }

  lemma QueueStep(all: seq<string>, key: string, c: Limits)
    requires Bounded(all + [key], c)
    ensures PutKeys(Newest(all, c), key, c) == Newest(all + [key], c)
  {
    KeptStep(|all|, c);
    var keys := Newest(all, c);
    DropDrop(all, |all| - |keys|, key, if |keys| + 1 > c.maxItems then c.purgeItems else 0);
  }

  lemma DropDrop(all: seq<string>, m: nat, key: string, n: nat)
    requires m <= |all| && m + n <= |all| + 1
    ensures (all[m..] + [key])[n..] == (all + [key])[m + n..]
  {
  }

  /** After any run that does not fail the queue is duplicate-free and is the last part of the
      insertions, of a length that their number alone decides; the map has the same keys. */
  lemma {:induction false} RunKeepsNewest<V>(ops: seq<Op<V>>, c: Limits)
    requires Accepted(c) && Run(ops, c).Some?
    ensures KeepsNewest(Run(ops, c).value, Insertions(ops, c), c)
  {
    if ops != [] {
      var n := |ops| - 1;
      RunKeepsNewest(ops[..n], c);
      if ops[n].Store? {
        StoreKeepsNewest(Run(ops[..n], c).value, Insertions(ops[..n], c), ops[n].key, ops[n].value, c);
      }
    }
  }

  lemma StoreKeepsNewest<V>(s: State<V>, all: seq<string>, key: string, value: V, c: Limits)
    requires KeepsNewest(s, all, c) && Put(s, key, value, c).Some?
    ensures KeepsNewest(Put(s, key, value, c).value, all + (if key in s.values then [] else [key]), c)
  {
    if key in s.values {
      assert all + [] == all;
    } else {
      SameSize(s);
      PutFailsIff(s, key, value, c);
      PutFits(s, key, value, c);
      QueueStep(all, key, c);
    }
  }

  /** After any run that does not fail each cached value is the last one put under its key. */
  lemma {:induction false} RunKeepsLastPut<V>(ops: seq<Op<V>>, c: Limits, k: string)
    requires Accepted(c) && Run(ops, c).Some? && k in Run(ops, c).value.values
    ensures LastPut(ops, k, Run(ops, c).value.values[k])
  {
    if ops != [] {
      var n := |ops| - 1;
      var s := Run(ops[..n], c).value;
      if ops[n].Store? && ops[n].key !in s.values {
        RunKeepsNewest(ops[..n], c);
        PutFits(s, ops[n].key, ops[n].value, c);
      }
      if !ops[n].Clear? && !(ops[n].Store? && ops[n].key == k) {
        RunKeepsLastPut(ops[..n], c, k);
      }
    }
  }

  /** A `put` keeps the size within the maximum, and keeps the key it puts, with its value, exactly
      when it does not purge everything. */
  lemma PutRetains<V>(s: State<V>, key: string, value: V, c: Limits)
    requires Accepted(c) && Fits(s) && |s.keys| <= c.maxItems && Put(s, key, value, c).Some?
    ensures var t := Put(s, key, value, c).value;
            && |t.keys| <= c.maxItems && (key in t.values ==> t.values[key] == value)
            && (key in t.values <==> c.purgeItems <= c.maxItems || key in s.values || |s.keys| < c.maxItems)
  {
    if key !in s.values {
      SameSize(s);
      PutFailsIff(s, key, value, c);
      PutFits(s, key, value, c);
      var keys := Put(s, key, value, c).value.keys;
      assert keys != [] ==> keys[|keys| - 1] == key;
    }
  }

  lemma RunOneMore<V>(ops: seq<Op<V>>, op: Op<V>, c: Limits)
    requires Run(ops, c).Some?
    ensures Run(ops + [op], c) == Step(Run(ops, c).value, op, c)
  {
    assert (ops + [op])[..|ops|] == ops;
  }

  /** After any run the size does not exceed the maximum; and the key just put can be got, with its
      value, if and only if the `put` succeeds without a purge of everything. */
  lemma JustPut<V>(ops: seq<Op<V>>, key: string, value: V, c: Limits)
    requires Accepted(c) && Run(ops, c).Some?
    ensures |Run(ops, c).value.values| <= c.maxItems
    ensures Run(ops + [Store(key, value)], c).Some? ==>
            var s, t := Run(ops, c).value, Run(ops + [Store(key, value)], c).value;
            && (key in t.values ==> t.values[key] == value)
            && (key in t.values <==>
                c.purgeItems <= c.maxItems || key in s.values || |s.values| < c.maxItems)
  {
    RunKeepsNewest(ops, c);
    SameSize(Run(ops, c).value);
    RunOneMore(ops, Store(key, value), c);
    if Run(ops + [Store(key, value)], c).Some? {
      PutRetains(Run(ops, c).value, key, value, c);
    }
  }

  /** With room for one key, and two to be purged, the second key is forgotten as it is put. */
  lemma JustPutForgotten<V>(value: V)
    ensures var c, ops := Limits(1, 2), [Store("a", value)];
            && Run(ops, c).Some? && Run(ops + [Store("b", value)], c).Some?
            && "b" !in Run(ops + [Store("b", value)], c).value.values
  {
    var c, ops := Limits(1, 2), [Store("a", value)];
    SafeNeverFails(ops, c);
    SafeNeverFails(ops + [Store("b", value)], c);
    assert ops[..0] == [];
    assert Run(ops, c).value == State(["a"], map["a" := value]);
    JustPut(ops, "b", value, c);
  }

  // ---- Failure ----

  /** A `put` looks at the front of an empty queue exactly when its key is new, the cache is full and
      `purge_items` exceeds `max_items + 1`. */
  lemma PutFailsIff<V>(s: State<V>, key: string, value: V, c: Limits)
    requires Fits(s) && |s.keys| <= c.maxItems
    ensures Put(s, key, value, c).None?
       <==> key !in s.values && |s.values| == c.maxItems && c.purgeItems > c.maxItems + 1
  {
    SameSize(s);
    if key !in s.values {
      PushedFits(s, key, value);
      PoppedFits(Pushed(s, key, value), c.purgeItems);
    }
  }

  /** A run fails at its next call exactly when the limits are not safe and the call puts a new key
      after `max_items` insertions. */
  lemma NextFailsIff<V>(ops: seq<Op<V>>, op: Op<V>, c: Limits)
    requires Accepted(c) && Run(ops, c).Some?
    ensures Run(ops + [op], c).None?
       <==> !Safe(c) && op.Store? && op.key !in Run(ops, c).value.values && |Insertions(ops, c)| == c.maxItems
  {
    RunKeepsNewest(ops, c);
    RunOneMore(ops, op, c);
    if op.Store? {
      var s := Run(ops, c).value;
      SameSize(s);
      PutFailsIff(s, op.key, op.value, c);
    }
  }

  lemma {:induction false} SafeNeverFails<V>(ops: seq<Op<V>>, c: Limits)
    requires Accepted(c) && Safe(c)
    ensures Run(ops, c).Some?
  {
    if ops != [] {
      var n := |ops| - 1;
      SafeNeverFails(ops[..n], c);
      NextFailsIff(ops[..n], ops[n], c);
      assert ops == ops[..n] + [ops[n]];
    }
  }

  function Letters(n: nat): (r: string)
    ensures |r| == n
  {
    if n == 0 then "" else Letters(n - 1) + "a"
  }

  /** Calls of `put` with `n` different keys. */
  function Stores<V>(n: nat, value: V): (r: seq<Op<V>>)
    ensures |r| == n
  {
    if n == 0 then [] else Stores(n - 1, value) + [Store(Letters(n - 1), value)]
  }

  /** The keys put so far are the shorter ones, and nothing has been purged. */
  ghost predicate Filled<V>(n: nat, ops: seq<Op<V>>, c: Limits) {
    && Run(ops, c).Some? && |Insertions(ops, c)| == n
    && forall k :: k in Run(ops, c).value.values ==> |k| < n
  }

  lemma FillOne<V>(n: nat, ops: seq<Op<V>>, value: V, c: Limits)
    requires Accepted(c) && n < c.maxItems && Filled(n, ops, c)
    ensures Filled(n + 1, ops + [Store(Letters(n), value)], c)
  {
    var s, key := Run(ops, c).value, Letters(n);
    RunKeepsNewest(ops, c);
    RunOneMore(ops, Store(key, value), c);
    assert Put(s, key, value, c) == Some(Pushed(s, key, value));
    var more := ops + [Store(key, value)];
    assert more[..|ops|] == ops;
    assert Insertions(more, c) == Insertions(ops, c) + [key];
  }

  lemma {:induction false} StoresFill<V>(n: nat, value: V, c: Limits)
    requires Accepted(c) && n <= c.maxItems
    ensures Filled(n, Stores(n, value), c)
  {
    if n > 0 {
      StoresFill(n - 1, value, c);
      FillOne(n - 1, Stores(n - 1, value), value, c);
    }
  }

  /** With these limits some run fails, namely that of `max_items + 1` different keys, if and only if
      `purge_items` exceeds `max_items + 1`. */
  lemma SomeRunFailsIff<V(!new)>(c: Limits, value: V)
    requires Accepted(c)
    ensures (exists ops: seq<Op<V>> :: Run(ops, c).None?) <==> c.purgeItems > c.maxItems + 1
    ensures c.purgeItems > c.maxItems + 1 ==> Run(Stores(c.maxItems + 1, value), c).None?
  {
    if Safe(c) {
      forall ops: seq<Op<V>>
        ensures Run(ops, c).Some?
      {
        SafeNeverFails(ops, c);
      }
    } else {
      StoresFill(c.maxItems, value, c);
      NextFailsIff(Stores(c.maxItems, value), Store(Letters(c.maxItems), value), c);
    }
  }
}
