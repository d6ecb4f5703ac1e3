/** `Array.prototype.sort` with a comparator, as the solvers use it: a
    stable sort, modelled as insertion sort under a total preorder `le`
    ("a may come before b"). */
module Sorting {
  ghost predicate TotalPreorder<T(!new)>(le: (T, T) -> bool)
  {
    (forall a, b :: le(a, b) || le(b, a)) &&
    (forall a, b, c :: le(a, b) && le(b, c) ==> le(a, c))
  }

  ghost predicate SortedBy<T>(s: seq<T>, le: (T, T) -> bool)
  {
    forall i, j :: 0 <= i < j < |s| ==> le(s[i], s[j])
  }

  /** Places x after every element that may come before it, so equal
      elements keep their order. */
  function Insert<T>(s: seq<T>, x: T, le: (T, T) -> bool): (r: seq<T>)
    ensures multiset(r) == multiset(s) + multiset{x}
    ensures |r| == |s| + 1
    ensures forall y :: y in r ==> y in s || y == x
  {
    if s == [] then [x]
    else if le(s[|s| - 1], x) then s + [x]
    else
      assert s == s[..|s| - 1] + [s[|s| - 1]];
      Insert(s[..|s| - 1], x, le) + [s[|s| - 1]]
  }

  lemma {:induction false} InsertSorted<T(!new)>(s: seq<T>, x: T, le: (T, T) -> bool)
    requires TotalPreorder(le) && SortedBy(s, le)
    ensures SortedBy(Insert(s, x, le), le)
    decreases |s|
  {
    if s != [] && !le(s[|s| - 1], x) {
      var init := s[..|s| - 1];
      var last := s[|s| - 1];
      assert SortedBy(init, le);
      InsertSorted(init, x, le);
      var r' := Insert(init, x, le);
      assert le(x, last);
      forall i | 0 <= i < |r'|
        ensures le(r'[i], last)
      {
        assert r'[i] in r';
        if r'[i] != x {
          var j :| 0 <= j < |init| && init[j] == r'[i];
          assert le(s[j], s[|s| - 1]);
        }
      }
      assert Insert(s, x, le) == r' + [last];
    }
  }

  /** The sort: each element in turn is inserted into the sorted prefix. */
  function Sort<T>(s: seq<T>, le: (T, T) -> bool): (r: seq<T>)
    ensures multiset(r) == multiset(s)
    ensures |r| == |s|
  {
    if s == [] then []
    else
      assert s == s[..|s| - 1] + [s[|s| - 1]];
      Insert(Sort(s[..|s| - 1], le), s[|s| - 1], le)
  }

  /** Under a total preorder the result is sorted; it is always a
      permutation of the input. */
  lemma {:induction false} SortSorted<T(!new)>(s: seq<T>, le: (T, T) -> bool)
    requires TotalPreorder(le)
    ensures SortedBy(Sort(s, le), le)
    decreases |s|
  {
    if s != [] {
      SortSorted(s[..|s| - 1], le);
      InsertSorted(Sort(s[..|s| - 1], le), s[|s| - 1], le);
    }
  }

  /** The elements of s that `le` cannot tell apart from p, in order. */
  function Peers<T>(s: seq<T>, p: T, le: (T, T) -> bool): seq<T>
    decreases |s|
  {
    if s == [] then []
    else
      var last := s[|s| - 1];
      Peers(s[..|s| - 1], p, le) + (if Peer(last, p, le) then [last] else [])
  }

  lemma {:induction false} PeersAppend<T>(a: seq<T>, b: seq<T>, p: T, le: (T, T) -> bool)
    ensures Peers(a + b, p, le) == Peers(a, p, le) + Peers(b, p, le)
    decreases |b|
  {
    if b == [] {
      assert a + b == a;
    } else {
      assert (a + b)[..|a + b| - 1] == a + b[..|b| - 1];
      PeersAppend(a, b[..|b| - 1], p, le);
    }
  }

  predicate Peer<T>(y: T, p: T, le: (T, T) -> bool)
  {
    le(y, p) && le(p, y)
  }

  lemma PeersOne<T>(y: T, p: T, le: (T, T) -> bool)
    ensures Peers([y], p, le) == if Peer(y, p, le) then [y] else []
  {
    assert [y][..0] == [];
  }

  /** An element that must come after x is not a peer of anything x is a
      peer of. */
  lemma NotBothPeers<T(!new)>(last: T, x: T, p: T, le: (T, T) -> bool)
    requires TotalPreorder(le) && !le(last, x)
    ensures !(Peer(last, p, le) && Peer(x, p, le))
  {
  }

  /** Inserting x keeps the peers of every p in the order they would have
      appending x: x only moves past elements that must come after it,
      and none of those is a peer of x. */
  lemma {:induction false} InsertPeers<T>(s: seq<T>, x: T, p: T, le: (T, T) -> bool)
    requires forall k :: 0 <= k < |s| && !le(s[k], x) ==> !(Peer(s[k], p, le) && Peer(x, p, le))
    ensures Peers(Insert(s, x, le), p, le) == Peers(s + [x], p, le)
    decreases |s|
  {
    if s != [] && !le(s[|s| - 1], x) {
      var init := s[..|s| - 1];
      var last := s[|s| - 1];
      var ins := Insert(init, x, le);
      assert Insert(s, x, le) == ins + [last];
      assert forall k :: 0 <= k < |init| ==> init[k] == s[k];
      InsertPeers(init, x, p, le);
      PeersAppend(ins, [last], p, le);
      SwapPeers(init, last, x, p, le);
      Snoc(s);
    }
  }

  /** Under a total preorder, every insertion keeps the peers in order. */
  lemma InsertPeersOrdered<T(!new)>(t: seq<T>, x: T, p: T, le: (T, T) -> bool)
    requires TotalPreorder(le)
    ensures Peers(Insert(t, x, le), p, le) == Peers(t + [x], p, le)
  {
    forall k | 0 <= k < |t| && !le(t[k], x)
      ensures !(Peer(t[k], p, le) && Peer(x, p, le))
    {
      NotBothPeers(t[k], x, p, le);
    }
    InsertPeers(t, x, p, le);
  }

  /** Two neighbours that are not both peers of p can trade places
      without changing the peers of p. */
  lemma SwapPeers<T>(init: seq<T>, last: T, x: T, p: T, le: (T, T) -> bool)
    requires !(Peer(last, p, le) && Peer(x, p, le))
    ensures Peers(init + [x], p, le) + Peers([last], p, le) == Peers(init + [last] + [x], p, le)
  {
    PeersSnoc(init, x, p, le);
    PeersSnoc(init + [last], x, p, le);
    PeersSnoc(init, last, p, le);
    PeersOne(last, p, le);
    if Peer(x, p, le) {
      assert Peers(init + [x], p, le) + Peers([last], p, le) == Peers(init, p, le) + [x];
    } else {
      assert Peers(init + [last] + [x], p, le) == Peers(init + [last], p, le);
    }
  }

  lemma PeersSnoc<T>(t: seq<T>, y: T, p: T, le: (T, T) -> bool)
    ensures Peers(t + [y], p, le) == Peers(t, p, le) + (if Peer(y, p, le) then [y] else [])
  {
    assert (t + [y])[..|t|] == t;
  }

  lemma Snoc<T>(s: seq<T>)
    requires s != []
    ensures s == s[..|s| - 1] + [s[|s| - 1]]
  {
  }

  /** The sort is stable: for every p, the elements `le` cannot tell apart
      from p come out in the order they went in. */
  lemma {:induction false} SortStable<T(!new)>(s: seq<T>, p: T, le: (T, T) -> bool)
    requires TotalPreorder(le)
    ensures Peers(Sort(s, le), p, le) == Peers(s, p, le)
    decreases |s|
  {
    if s != [] {
      var init := s[..|s| - 1];
      var last := s[|s| - 1];
      var sorted := Sort(init, le);
      assert Sort(s, le) == Insert(sorted, last, le);
      SortStable(init, p, le);
      InsertPeersOrdered(sorted, last, p, le);
      PeersAppend(sorted, [last], p, le);
      Snoc(s);
      PeersAppend(init, [last], p, le);
    }
  }

  /** Sorting an already sorted sequence changes nothing. */
  lemma {:induction false} SortIdempotent<T(!new)>(s: seq<T>, le: (T, T) -> bool)
    requires SortedBy(s, le)
    ensures Sort(s, le) == s
    decreases |s|
  {
    if s != [] {
      var init := s[..|s| - 1];
      assert SortedBy(init, le);
      SortIdempotent(init, le);
      if |init| > 0 {
        assert le(init[|init| - 1], s[|s| - 1]);
      }
    }
  }
}
