/** The counting map of counter.ts. The source keys its points by the
    string `String(vals)`; here a key is any value with equality standing for
    that string, which is faithful whenever distinct values join to distinct
    strings (as single numbers or single characters do). The points are held
    as (key, count) entries in the order `Object.entries` reports them. */
module Counting {
  import opened Outcomes

  datatype Counter<K> = Counter(entries: seq<(K, int)>)

  /** Whether key k has an entry. */
  predicate Has<K(==,!new)>(es: seq<(K, int)>, k: K)
  {
    es != [] && (es[0].0 == k || Has(es[1..], k))
  }

  /** Every written key has one entry. */
  predicate Distinct<K(==,!new)>(es: seq<(K, int)>)
  {
    es == [] || (!Has(es[1..], es[0].0) && Distinct(es[1..]))
  }

  predicate Valid<K(==,!new)>(c: Counter<K>)
  {
    Distinct(c.entries)
  }

  /** The keys written so far. */
  function Keys<K(==,!new)>(c: Counter<K>): (ks: set<K>)
    ensures forall k :: k in ks <==> Has(c.entries, k)
  {
    KeysOf(c.entries)
  }

  function KeysOf<K(==,!new)>(es: seq<(K, int)>): (ks: set<K>)
    ensures forall k :: k in ks <==> Has(es, k)
  {
    if es == [] then {} else {es[0].0} + KeysOf(es[1..])
  }

  function Empty<K(==,!new)>(): (c: Counter<K>)
    ensures Valid(c) && Keys(c) == {}
  {
    Counter([])
  }

  function Lookup<K(==,!new)>(es: seq<(K, int)>, k: K): (n: int)
    ensures !Has(es, k) ==> n == 0
  {
    if es == [] then 0
    else if es[0].0 == k then es[0].1
    else Lookup(es[1..], k)
  }

  /** `get(...vals)`: the count of a key, 0 for a key never written. */
  function Get<K(==,!new)>(c: Counter<K>, k: K): (n: int)
    ensures k !in Keys(c) ==> n == 0
  {
    Lookup(c.entries, k)
  }

  /** The entries after adding `count` to key k: its entry changes in place,
      or a new entry goes at the end. */
  function Update<K(==,!new)>(es: seq<(K, int)>, k: K, count: int): (r: seq<(K, int)>)
    ensures Lookup(r, k) == Lookup(es, k) + count
    ensures forall j :: j != k ==> Lookup(r, j) == Lookup(es, j)
    ensures forall j :: Has(r, j) <==> Has(es, j) || j == k
    ensures |r| == |es| + (if Has(es, k) then 0 else 1)
    ensures Distinct(es) ==> Distinct(r)
  {
    if es == [] then [(k, count)]
    else if es[0].0 == k then [(k, es[0].1 + count)] + es[1..]
    else [es[0]] + Update(es[1..], k, count)
  }

  /** `sum(count, ...vals)`: adds `count` to the key and returns the new
      count; no other key changes, and every key keeps one entry. */
  function Sum<K(==,!new)>(c: Counter<K>, count: int, k: K): (r: (Counter<K>, int))
    ensures r.1 == Get(c, k) + count
    ensures Get(r.0, k) == r.1
    ensures forall j :: j != k ==> Get(r.0, j) == Get(c, j)
  {
    var es := Update(c.entries, k, count);
    (Counter(es), Lookup(es, k))
  }

  /** `add(...vals)`: `sum` with a count of one. */
  function Add<K(==,!new)>(c: Counter<K>, k: K): (r: (Counter<K>, int))
    ensures r.1 == Get(c, k) + 1
    ensures Get(r.0, k) == r.1
    ensures forall j :: j != k ==> Get(r.0, j) == Get(c, j)
  {
    Sum(c, 1, k)
  }

  /** `sum` writes exactly key k and keeps every key to one entry. */
  lemma SumKeys<K(!new)>(c: Counter<K>, count: int, k: K)
    ensures Keys(Sum(c, count, k).0) == Keys(c) + {k}
    ensures Valid(c) ==> Valid(Sum(c, count, k).0)
  {
  }

  /** The filter of `total`: the count itself (the default), a number
      computed from count and key, or a yes/no test that counts one. */
  datatype CountFilter<-K> = Counts | Weigh(f: (int, K) -> int) | Test(p: (int, K) -> bool)

  function Apply<K(==,!new)>(fn: CountFilter<K>, v: int, k: K): int
  {
    match fn
    case Counts => v
    case Weigh(f) => f(v, k)
    case Test(p) => if p(v, k) then 1 else 0
  }

  /** The reduce of `total` over the entries. */
  function TotalOf<K(==,!new)>(es: seq<(K, int)>, fn: CountFilter<K>): int
  {
    if es == [] then 0 else Apply(fn, es[0].1, es[0].0) + TotalOf(es[1..], fn)
  }

  /** `total(fn)`. */
  function Total<K(==,!new)>(c: Counter<K>, fn: CountFilter<K>): int
  {
    TotalOf(c.entries, fn)
  }

  lemma {:induction false} TotalOfUpdate<K(!new)>(es: seq<(K, int)>, k: K, count: int)
    ensures TotalOf(Update(es, k, count), Counts) == TotalOf(es, Counts) + count
    decreases |es|
  {
    if es != [] && es[0].0 != k {
      TotalOfUpdate(es[1..], k, count);
      assert Update(es, k, count)[1..] == Update(es[1..], k, count);
    } else if es != [] {
      assert Update(es, k, count)[1..] == es[1..];
    }
  }

  /** `sum(count, k)` raises the default total by exactly `count`. */
  lemma SumTotal<K(!new)>(c: Counter<K>, count: int, k: K)
    ensures Total(Sum(c, count, k).0, Counts) == Total(c, Counts) + count
  {
    TotalOfUpdate(c.entries, k, count);
  }

  /** The keys whose entries a yes/no filter accepts. */
  ghost function Accepted<K(!new)>(es: seq<(K, int)>, p: (int, K) -> bool): set<K>
  {
    set k | k in KeysOf(es) && p(Lookup(es, k), k)
  }

  lemma {:induction false} TotalOfTest<K(!new)>(es: seq<(K, int)>, p: (int, K) -> bool)
    requires Distinct(es)
    ensures TotalOf(es, Test(p)) == |Accepted(es, p)|
    decreases |es|
  {
    if es != [] {
      var tail := es[1..];
      TotalOfTest(tail, p);
      var head := es[0].0;
      assert Accepted(es, p) == (if p(es[0].1, head) then {head} else {}) + Accepted(tail, p);
    }
  }

  /** `total(fn)` with a yes/no filter is the number of keys it accepts. */
  lemma TotalTest<K(!new)>(c: Counter<K>, p: (int, K) -> bool)
    requires Valid(c)
    ensures Total(c, Test(p)) == |set k | k in Keys(c) && p(Get(c, k), k)|
  {
    TotalOfTest(c.entries, p);
    assert Accepted(c.entries, p) == set k | k in Keys(c) && p(Get(c, k), k);
  }

  /** `max()`: no entry for an empty counter; otherwise an entry with the
      largest count, the first such in entry order because only a strictly
      larger count replaces the current one. */
  method Max<K(==,!new)>(c: Counter<K>) returns (r: Option<(K, int)>)
    ensures r.None? <==> |c.entries| == 0
    ensures r.Some? ==> exists at :: (0 <= at < |c.entries| && c.entries[at] == r.value &&
                                      forall j :: 0 <= j < at ==> c.entries[j].1 < r.value.1)
    ensures r.Some? ==> forall i :: 0 <= i < |c.entries| ==> c.entries[i].1 <= r.value.1
  {
    var es := c.entries;
    r := None;
    var i, at := 0, 0;
    while i < |es|
      invariant 0 <= i <= |es|
      invariant r.None? <==> i == 0
      invariant r.Some? ==> 0 <= at < i && es[at] == r.value
      invariant r.Some? ==> forall j :: 0 <= j < i ==> es[j].1 <= r.value.1
      invariant r.Some? ==> forall j :: 0 <= j < at ==> es[j].1 < r.value.1
    {
      if r.None? || es[i].1 > r.value.1 {
        r, at := Some(es[i]), i;
      }
      i := i + 1;
    }
  }

  /** `size()`: the number of distinct keys written. */
  function Size<K(==,!new)>(c: Counter<K>): (n: nat)
    ensures Valid(c) ==> n == |Keys(c)|
  {
    DistinctCard(c.entries);
    |c.entries|
  }

  lemma {:induction false} DistinctCard<K(!new)>(es: seq<(K, int)>)
    ensures Distinct(es) ==> |KeysOf(es)| == |es|
    decreases |es|
  {
    if es != [] {
      DistinctCard(es[1..]);
    }
  }

  /** Adding to a new key makes the size grow by one; adding to a written
      key leaves it alone. */
  lemma SumSize<K(!new)>(c: Counter<K>, count: int, k: K)
    requires Valid(c)
    ensures Size(Sum(c, count, k).0) == Size(c) + (if k in Keys(c) then 0 else 1)
  {
    SumKeys(c, count, k);
  }

  /** In a well-formed counter each entry holds the count of its key. */
  lemma {:induction false} LookupEntry<K(!new)>(es: seq<(K, int)>, i: nat)
    requires Distinct(es) && i < |es|
    ensures Lookup(es, es[i].0) == es[i].1
    decreases i
  {
    if i > 0 {
      assert es[1..][i - 1] == es[i];
      LookupEntry(es[1..], i - 1);
      HasAt(es[1..], i - 1);
    }
  }

  lemma {:induction false} HasAt<K(!new)>(es: seq<(K, int)>, i: nat)
    requires i < |es|
    ensures Has(es, es[i].0)
    decreases i
  {
    if i > 0 {
      assert es[1..][i - 1] == es[i];
      HasAt(es[1..], i - 1);
    }
  }

  /** Every written key has an entry at some position. */
  lemma {:induction false} EntryOf<K(!new)>(es: seq<(K, int)>, k: K) returns (i: nat)
    requires Has(es, k)
    ensures i < |es| && es[i].0 == k
    decreases |es|
  {
    if es[0].0 == k {
      i := 0;
    } else {
      var j := EntryOf(es[1..], k);
      i := j + 1;
    }
  }
}
