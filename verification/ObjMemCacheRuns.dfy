/** What the object cache does over whole runs: its list is ordered by last use, and its size has an
    exact bound, although `add` purges before it inserts. */
module ObjMemCacheRuns {
  import opened ObjMemCache

  datatype Op = Add(obj: Obj, key: string) | Remove(key: string) | Get(key: string) | Purge(portion: real)

  /** The two settings of a cache; the fraction is exact. */
  datatype Limits = Limits(threshold: nat, fraction: real)

  predicate Sensible(c: Limits) { c.threshold > 0 && 0.0 < c.fraction <= 1.0 }

  /** What the methods of the class do to the list when `add` is given fresh keys (`FreshKeys`). The
      bounds below hold of this list for any keys; of the class they hold for runs with fresh ones. */
  function Step(l: seq<Entry>, op: Op, c: Limits): seq<Entry>
    requires Sensible(c)
  {
    match op
    case Add(obj, key) => Room(l, c.threshold, c.fraction) + [Entry(obj, key)]
    case Remove(key) => Without(l, key)
    case Get(key) => Touched(l, key)
    case Purge(portion) => if portion >= 0.0 then Purged(l, portion) else l
  }

  function Run(ops: seq<Op>, c: Limits): seq<Entry>
    requires Sensible(c)
  {
    if ops == [] then [] else Step(Run(ops[..|ops| - 1], c), ops[|ops| - 1], c)
  }

  /** Every `add` of the run uses a key that is not in the cache when it inserts. */
  predicate FreshKeys(ops: seq<Op>, c: Limits)
    requires Sensible(c)
  {
    ops == [] ||
    var n := |ops| - 1;
    && FreshKeys(ops[..n], c)
    && (ops[n].Add? ==> !Has(Room(Run(ops[..n], c), c.threshold, c.fraction), ops[n].key))
  }

  // ---- Size ----

  /** The least integer not below `x`. */
  function Ceiling(x: real): int { -((-x).Floor) }

  function MaxSize(c: Limits): (r: nat)
    requires Sensible(c)
    ensures r >= c.threshold + 1
  {
    var reach := Ceiling(1.0 / c.fraction);
    if reach > c.threshold + 1 then reach else c.threshold + 1
  }

  /** A fraction of `n` entries is less than one entry exactly when `n` is below the reach. */
  lemma PurgesNothing(n: nat, f: real)
    requires 0.0 < f <= 1.0
    ensures Wanted(n, f) == 0 <==> n < Ceiling(1.0 / f)
  {
    var x := 1.0 / f;
    assert x * f == 1.0;
    if n as real < x {
      assert n as real * f < x * f by { Scale(n as real, x, f); }
      assert n < Ceiling(x);
    } else {
      assert n as real * f >= x * f by { ScaleUp(x, n as real, f); }
      assert n >= Ceiling(x);
    }
  }

  lemma Scale(a: real, b: real, f: real)
    requires a < b && f > 0.0
    ensures a * f < b * f
  {
  }

  lemma ScaleUp(a: real, b: real, f: real)
    requires a <= b && f > 0.0
    ensures a * f <= b * f
  {
  }

  lemma AddWithinBound(l: seq<Entry>, c: Limits)
    requires Sensible(c) && |l| <= MaxSize(c)
    ensures |Room(l, c.threshold, c.fraction)| + 1 <= MaxSize(c)
    ensures |l| < MaxSize(c) ==> Room(l, c.threshold, c.fraction) == l
  {
    PurgesNothing(|l|, c.fraction);
  }

  /** No run makes the cache larger than max(threshold + 1, ceiling(1 / fraction)). */
  lemma {:induction false} SizeBound(ops: seq<Op>, c: Limits)
    requires Sensible(c)
    ensures |Run(ops, c)| <= MaxSize(c)
  {
    if ops != [] {
      var l := Run(ops[..|ops| - 1], c);
      SizeBound(ops[..|ops| - 1], c);
      AddWithinBound(l, c);
    }
  }

  function Adds(l: seq<Entry>): (r: seq<Op>)
    ensures |r| == |l|
  {
    if l == [] then [] else Adds(l[..|l| - 1]) + [Add(l[|l| - 1].obj, l[|l| - 1].name)]
  }

  /** The bound is exact: entries added one after the other are all kept if and only if there are
      no more of them than that. */
  lemma {:induction false} SizeBoundIsReached(l: seq<Entry>, c: Limits)
    requires Sensible(c)
    ensures Run(Adds(l), c) == l <==> |l| <= MaxSize(c)
  {
    SizeBound(Adds(l), c);
    if l != [] && |l| <= MaxSize(c) {
      SizeBoundIsReached(l[..|l| - 1], c);
      AddOne(l[..|l| - 1], l[|l| - 1], c);
      assert l == l[..|l| - 1] + [l[|l| - 1]];
    }
  }

  lemma AddOne(front: seq<Entry>, e: Entry, c: Limits)
    requires Sensible(c) && |front| < MaxSize(c) && Run(Adds(front), c) == front
    ensures Run(Adds(front + [e]), c) == front + [e]
  {
    var ops := Adds(front) + [Add(e.obj, e.name)];
    assert (front + [e])[..|front|] == front;
    assert Adds(front + [e]) == ops;
    assert ops[..|front|] == Adds(front);
    AddWithinBound(front, c);
  }

  // ---- Recency ----

  /** One more than the position of the last `add` or `get` of the key, or 0. */
  function LastUse(ops: seq<Op>, key: string): (r: nat)
    ensures r <= |ops|
  {
    if ops == [] then 0
    else
      var op := ops[|ops| - 1];
      if (op.Add? || op.Get?) && op.key == key then |ops|
      else LastUse(ops[..|ops| - 1], key)
  }

  /** The names of the list come with strictly increasing times of last use. */
  ghost predicate ByLastUse(l: seq<Entry>, ops: seq<Op>) {
    && (forall i :: 0 <= i < |l| ==> LastUse(ops, l[i].name) > 0)
    && (forall i, j :: 0 <= i < j < |l| ==> LastUse(ops, l[i].name) < LastUse(ops, l[j].name))
  }

  /** After any run with fresh keys the list is ordered by last use. */
  lemma {:induction false} OrderedByLastUse(ops: seq<Op>, c: Limits)
    requires Sensible(c) && FreshKeys(ops, c)
    ensures ByLastUse(Run(ops, c), ops)
  {
    if ops != [] {
      var n := |ops| - 1;
      var l := Run(ops[..n], c);
      OrderedByLastUse(ops[..n], c);
      match ops[n]
      case Add(obj, key) =>
        StaysOrdered(Room(l, c.threshold, c.fraction), ops);
        UsedLast(Room(l, c.threshold, c.fraction), ops, Entry(obj, key));
      case Remove(key) =>
        WithoutOrdered(l, key, ops[..n]);
        StaysOrdered(Without(l, key), ops);
      case Get(key) =>
        WithoutOrdered(l, key, ops[..n]);
        if Has(l, key) {
          WithoutLacks(l, key, ops[..n]);
          StaysOrdered(Without(l, key), ops);
          UsedLast(Without(l, key), ops, l[Position(l, key)]);
        } else {
          StaysOrdered(l, ops);
        }
      case Purge(_) => StaysOrdered(Run(ops, c), ops);
    }
  }

  /** An operation that uses none of the names of the list keeps their times. */
  lemma StaysOrdered(l: seq<Entry>, ops: seq<Op>)
    requires ops != [] && ByLastUse(l, ops[..|ops| - 1])
    requires var op := ops[|ops| - 1]; op.Add? || op.Get? ==> !Has(l, op.key)
    ensures ByLastUse(l, ops)
  {
    forall i | 0 <= i < |l|
      ensures LastUse(ops, l[i].name) == LastUse(ops[..|ops| - 1], l[i].name)
    {
      assert Has(l, l[i].name);
    }
  }

  lemma UsedLast(l: seq<Entry>, ops: seq<Op>, e: Entry)
    requires ops != [] && ByLastUse(l, ops) && !Has(l, e.name)
    requires var op := ops[|ops| - 1]; (op.Add? || op.Get?) && op.key == e.name
    ensures ByLastUse(l + [e], ops)
  {
    forall i | 0 <= i < |l|
      ensures LastUse(ops, l[i].name) < |ops|
    {
      assert l[i].name != e.name;
    }
  }

  /** Where the entries of a shortened list come from. */
  lemma WithoutAt(l: seq<Entry>, key: string, i: nat)
    requires i < |Without(l, key)|
    ensures |l| - 1 <= |Without(l, key)| <= |l|
    ensures Without(l, key)[i] == l[if i < Position(l, key) then i else i + 1]
  {
    CutAt(l, Position(l, key), i);
  }

  lemma CutAt(l: seq<Entry>, p: nat, i: nat)
    requires p < |l| ==> i < |l| - 1
    ensures p < |l| ==> (l[..p] + l[p + 1..])[i] == l[if i < p then i else i + 1]
  {
  }

  lemma WithoutOrdered(l: seq<Entry>, key: string, ops: seq<Op>)
    requires ByLastUse(l, ops)
    ensures ByLastUse(Without(l, key), ops)
  {
    var w := Without(l, key);
    forall i | 0 <= i < |w|
      ensures LastUse(ops, w[i].name) > 0
    {
      WithoutAt(l, key, i);
    }
    forall i, j | 0 <= i < j < |w|
      ensures LastUse(ops, w[i].name) < LastUse(ops, w[j].name)
    {
      WithoutAt(l, key, i);
      WithoutAt(l, key, j);
    }
  }

  lemma WithoutLacks(l: seq<Entry>, key: string, ops: seq<Op>)
    requires ByLastUse(l, ops) && Has(l, key)
    ensures !Has(Without(l, key), key)
  {
    var p := Position(l, key);
    forall i | 0 <= i < |l| - 1
      ensures Without(l, key)[i].name != key
    {
      assert Without(l, key)[i] == l[if i < p then i else i + 1];
    }
  }
}
