/** Day 7 (day7.ts): Camel Cards. Hands are ranked by type, then card by
    card; the winnings are each bid times its hand's rank. */
module Day7 {
  import opened Outcomes
  import opened Counting
  import Sorting

  /** `HandType`, weakest first. */
  datatype HandType = High | Pair1 | Pair2 | Kind3 | Full | Kind4 | Kind5

  /** The enum's numbering, which the comparison subtracts. */
  function Rank(t: HandType): (n: nat)
    ensures n <= 6
  {
    match t
    case High => 0
    case Pair1 => 1
    case Pair2 => 2
    case Kind3 => 3
    case Full => 4
    case Kind4 => 5
    case Kind5 => 6
  }

  lemma RankInjective(s: HandType, t: HandType)
    ensures Rank(s) == Rank(t) <==> s == t
  {
  }

  predicate IsCard(c: char)
  {
    c in "23456789TJQKA"
  }

  predicate AllCards(cards: seq<char>)
  {
    forall i :: 0 <= i < |cards| ==> IsCard(cards[i])
  }

  /** `CARDS` ('2'..'9' are 1..8, T..A are 10..14), or with jokers `JCARDS`,
      where J is -1. A character that is no card has no value in the source;
      here it gets 0, and no hand holds one. */
  function Value(c: char, jokers: bool): int
  {
    if '2' <= c <= '9' then (c as int - '0' as int) - 1
    else if c == 'T' then 10
    else if c == 'J' then (if jokers then -1 else 11)
    else if c == 'Q' then 12
    else if c == 'K' then 13
    else if c == 'A' then 14
    else 0
  }

  /** Different cards have different values, and a joker is the weakest. */
  lemma ValueInjective(a: char, b: char, jokers: bool)
    requires IsCard(a) && IsCard(b)
    ensures Value(a, jokers) == Value(b, jokers) <==> a == b
    ensures jokers && a == 'J' && b != 'J' ==> Value(a, jokers) < Value(b, jokers)
  {
  }

  /** A hand as dealt: five cards and a bid. `kind` is the type the solver
      attaches; as read it is ignored. */
  datatype Play = Play(cards: seq<char>, bid: int, kind: HandType)

  type Hand = p: Play | |p.cards| == 5 && AllCards(p.cards) witness Play("23456", 0, High)

  /** `new Counter().addAll(cards)`. Day 7 imports lib/counter.ts, which is
      not part of this model; its `addAll` is read as one `add` of
      counter.ts per card, in order. */
  function AddAll(c: Counter<char>, cards: seq<char>): Counter<char>
  {
    if cards == [] then c else Add(AddAll(c, cards[..|cards| - 1]), cards[|cards| - 1]).0
  }

  function Tally(cards: seq<char>): Counter<char>
  {
    AddAll(Empty(), cards)
  }

  /** The tally counts each card's occurrences, and its keys are exactly the
      cards of the hand. */
  lemma {:induction false} TallyCounts(cards: seq<char>)
    ensures Valid(Tally(cards))
    ensures forall k :: Get(Tally(cards), k) == multiset(cards)[k]
    ensures forall k :: k in Keys(Tally(cards)) <==> k in cards
    decreases |cards|
  {
    if cards != [] {
      var init, last := cards[..|cards| - 1], cards[|cards| - 1];
      TallyCounts(init);
      SumKeys(Tally(init), 1, last);
      assert cards == init + [last];
    }
  }

  /** `values()`: the counts in entry order. */
  function Values(c: Counter<char>): (r: seq<int>)
    ensures |r| == |c.entries|
    ensures forall i :: 0 <= i < |r| ==> r[i] == c.entries[i].1
  {
    seq(|c.entries|, i requires 0 <= i < |c.entries| => c.entries[i].1)
  }

  predicate Desc(a: int, b: int)
  {
    a >= b
  }

  lemma DescPreorder()
    ensures Sorting.TotalPreorder(Desc)
  {
  }

  /** The counts of a hand's distinct cards, largest first. */
  function Counts(cards: seq<char>): seq<int>
  {
    Sorting.Sort(Values(Tally(cards)), Desc)
  }

  /** `getHandType` on the sorted counts: only the first two matter, and a
      missing count matches nothing. */
  function GetHandType(counts: seq<int>): HandType
  {
    if counts == [] then High
    else if counts[0] == 5 then Kind5
    else if counts[0] == 4 then Kind4
    else if counts[0] == 3 then (if |counts| > 1 && counts[1] == 2 then Full else Kind3)
    else if counts[0] == 2 then (if |counts| > 1 && counts[1] == 2 then Pair2 else Pair1)
    else High
  }

  function TypeOf(cards: seq<char>): HandType
  {
    GetHandType(Counts(cards))
  }

  /** The hand's largest group of equal cards has n of them. */
  ghost predicate Largest(cards: seq<char>, n: int)
  {
    (exists k :: multiset(cards)[k] == n) && forall k :: multiset(cards)[k] <= n
  }

  /** The first of the sorted counts is the size of the largest group. */
  lemma LargestGroup(cards: seq<char>)
    requires cards != []
    ensures |Counts(cards)| > 0 && Largest(cards, Counts(cards)[0])
  {
    var c := Tally(cards);
    TallyCounts(cards);
    var v, s := Values(c), Counts(cards);
    DescPreorder();
    Sorting.SortSorted(Values(c), Desc);
    assert cards[0] in Keys(c);
    assert |s| > 0;
    assert s[0] in multiset(v);
    var i :| 0 <= i < |v| && v[i] == s[0];
    LookupEntry(c.entries, i);
    assert multiset(cards)[c.entries[i].0] == s[0];
    forall k
      ensures multiset(cards)[k] <= s[0]
    {
      if k in cards {
        var j := EntryOf(c.entries, k);
        LookupEntry(c.entries, j);
        assert v[j] in multiset(s);
        var t :| 0 <= t < |s| && s[t] == v[j];
        if t > 0 {
          assert Desc(s[0], s[t]);
        }
      }
    }
  }

  /** A hand has one largest group size. */
  lemma LargestUnique(cards: seq<char>, m: int, n: int)
    requires Largest(cards, m) && Largest(cards, n)
    ensures m == n
  {
    var k :| multiset(cards)[k] == m;
    var k' :| multiset(cards)[k'] == n;
  }

  /** The largest group alone settles the hand type, up to telling a full
      house from three of a kind and two pairs from one. */
  lemma TypeByLargestGroup(cards: seq<char>)
    ensures TypeOf(cards) == Kind5 <==> Largest(cards, 5)
    ensures TypeOf(cards) == Kind4 <==> Largest(cards, 4)
    ensures TypeOf(cards) in {Full, Kind3} <==> Largest(cards, 3)
    ensures TypeOf(cards) in {Pair2, Pair1} <==> Largest(cards, 2)
    ensures TypeOf(cards) == High <==> !Largest(cards, 2) && !Largest(cards, 3) && !Largest(cards, 4) && !Largest(cards, 5)
  {
    if cards == [] {
      assert Largest(cards, 0) by {
        assert multiset(cards)['2'] == 0;
      }
      forall m | Largest(cards, m)
        ensures m == 0
      {
        LargestUnique(cards, m, 0);
      }
    } else {
      LargestGroup(cards);
      var n := Counts(cards)[0];
      forall m | Largest(cards, m)
        ensures m == n
      {
        LargestUnique(cards, m, n);
      }
    }
  }

  /** `delete points[k]`: the entry of key k dropped, the others kept in
      order. */
  function Delete(c: Counter<char>, k: char): Counter<char>
  {
    Counter(Filter(c.entries, (e: (char, int)) => e.0 != k))
  }

  /** Deleting a key the hand lacks changes nothing. */
  lemma DeleteAbsent(cards: seq<char>, k: char)
    requires k !in cards
    ensures Delete(Tally(cards), k) == Tally(cards)
  {
    var c := Tally(cards);
    TallyCounts(cards);
    forall i | 0 <= i < |c.entries|
      ensures c.entries[i].0 != k
    {
      HasAt(c.entries, i);
    }
    FilterAll(c.entries, (e: (char, int)) => e.0 != k);
  }

  /** Part 2's counts: the jokers' entry deleted, and their number added to
      the largest remaining count (which is 0 when only jokers remain). */
  function JokerCounts(cards: seq<char>): seq<int>
  {
    JokerCountsOf(Tally(cards))
  }

  function JokerCountsOf(c: Counter<char>): seq<int>
  {
    var jokers := Get(c, 'J');
    var e := Sorting.Sort(Values(Delete(c, 'J')), Desc);
    if e == [] then [jokers] else [e[0] + jokers] + e[1..]
  }

  function JokerTypeOf(cards: seq<char>): HandType
  {
    GetHandType(JokerCounts(cards))
  }

  /** A counter without jokers keeps its sorted counts under part 2's rule
      (an empty one reads a single count 0). */
  lemma JokerCountsKeep(c: Counter<char>)
    requires Get(c, 'J') == 0 && Values(Delete(c, 'J')) == Values(c)
    ensures var e := Sorting.Sort(Values(c), Desc); JokerCountsOf(c) == if e == [] then [0] else e
  {
    var e := Sorting.Sort(Values(c), Desc);
    if e != [] {
      HeadPlusZero(e);
    }
  }

  lemma HeadPlusZero(e: seq<int>)
    requires e != []
    ensures [e[0] + 0] + e[1..] == e
  {
  }

  /** Without jokers the two rules give the same type. */
  lemma NoJokers(cards: seq<char>)
    requires 'J' !in cards
    ensures JokerTypeOf(cards) == TypeOf(cards)
  {
    var c := Tally(cards);
    assert Get(c, 'J') == 0 by {
      TallyCounts(cards);
    }
    assert Values(Delete(c, 'J')) == Values(c) by {
      DeleteAbsent(cards, 'J');
    }
    JokerCountsKeep(c);
  }

  /** A hand of five jokers is five of a kind. */
  lemma AllJokers(cards: seq<char>)
    requires |cards| == 5 && forall i :: 0 <= i < 5 ==> cards[i] == 'J'
    ensures JokerTypeOf(cards) == Kind5
  {
    var c := Tally(cards);
    TallyCounts(cards);
    assert cards == "JJJJJ";
    assert multiset(cards)['J'] == 5;
    var rest := Delete(c, 'J').entries;
    if rest != [] {
      assert rest[0] in c.entries;
      var i :| 0 <= i < |c.entries| && c.entries[i] == rest[0];
      HasAt(c.entries, i);
      assert false;
    }
  }

  /** `cmpHands` past the type test: the first differing card decides. */
  function CmpCards(x: seq<char>, y: seq<char>, jokers: bool): int
    requires |x| == |y|
  {
    if x == [] then 0
    else if x[0] != y[0] then Value(x[0], jokers) - Value(y[0], jokers)
    else CmpCards(x[1..], y[1..], jokers)
  }

  /** `cmpHands(values)(a, b)`: negative when a ranks below b. */
  function Cmp(a: Hand, b: Hand, jokers: bool): int
  {
    if a.kind != b.kind then Rank(a.kind) - Rank(b.kind) else CmpCards(a.cards, b.cards, jokers)
  }

  lemma {:induction false} CmpCardsZero(x: seq<char>, y: seq<char>, jokers: bool)
    requires |x| == |y| && AllCards(x) && AllCards(y)
    ensures CmpCards(x, y, jokers) == 0 <==> x == y
    decreases |x|
  {
    if x != [] {
      ValueInjective(x[0], y[0], jokers);
      if x[0] == y[0] {
        CmpCardsZero(x[1..], y[1..], jokers);
        if x[1..] == y[1..] {
          assert x == [x[0]] + x[1..] && y == [y[0]] + y[1..];
        }
      }
    }
  }

  lemma {:induction false} CmpCardsAntisymmetric(x: seq<char>, y: seq<char>, jokers: bool)
    requires |x| == |y|
    ensures CmpCards(x, y, jokers) == -CmpCards(y, x, jokers)
    decreases |x|
  {
    if x != [] && x[0] == y[0] {
      CmpCardsAntisymmetric(x[1..], y[1..], jokers);
    }
  }

  lemma {:induction false} CmpCardsTransitive(x: seq<char>, y: seq<char>, z: seq<char>, jokers: bool)
    requires |x| == |y| == |z| && AllCards(x) && AllCards(y) && AllCards(z)
    requires CmpCards(x, y, jokers) <= 0 && CmpCards(y, z, jokers) <= 0
    ensures CmpCards(x, z, jokers) <= 0
    decreases |x|
  {
    if x != [] {
      ValueInjective(x[0], y[0], jokers);
      ValueInjective(y[0], z[0], jokers);
      ValueInjective(x[0], z[0], jokers);
      if x[0] == y[0] && y[0] == z[0] {
        CmpCardsTransitive(x[1..], y[1..], z[1..], jokers);
      }
    }
  }

  /** Two hands compare equal exactly when they have the same type and the
      same cards, and swapping them flips the sign. */
  lemma CmpZeroIff(a: Hand, b: Hand, jokers: bool)
    ensures Cmp(a, b, jokers) == 0 <==> a.kind == b.kind && a.cards == b.cards
    ensures Cmp(a, b, jokers) == -Cmp(b, a, jokers)
  {
    RankInjective(a.kind, b.kind);
    CmpCardsZero(a.cards, b.cards, jokers);
    CmpCardsAntisymmetric(a.cards, b.cards, jokers);
  }

  /** "a may come before b" for the ascending sort. */
  function Le(jokers: bool): (Hand, Hand) -> bool
  {
    (a: Hand, b: Hand) => Cmp(a, b, jokers) <= 0
  }

  /** The comparison orders all hands: any two compare, and the order is
      transitive. */
  lemma CmpPreorder(jokers: bool)
    ensures Sorting.TotalPreorder(Le(jokers))
  {
    forall a: Hand, b: Hand
      ensures Le(jokers)(a, b) || Le(jokers)(b, a)
    {
      CmpZeroIff(a, b, jokers);
    }
    forall a: Hand, b: Hand, c: Hand | Le(jokers)(a, b) && Le(jokers)(b, c)
      ensures Le(jokers)(a, c)
    {
      if a.kind == b.kind && b.kind == c.kind {
        CmpCardsTransitive(a.cards, b.cards, c.cards, jokers);
      }
    }
  }

  /** The reduce `t + bid * (i + 1)` over the sorted hands, from position
      `base` on. */
  function Winnings(s: seq<Hand>, base: nat): int
    decreases |s|
  {
    if s == [] then 0 else s[0].bid * (base + 1) + Winnings(s[1..], base + 1)
  }

  /** A hand ranked above all the others adds its bid times the number of
      hands. */
  lemma {:induction false} WinningsAppend(s: seq<Hand>, h: Hand, base: nat)
    ensures Winnings(s + [h], base) == Winnings(s, base) + h.bid * (base + |s| + 1)
    decreases |s|
  {
    if s == [] {
      assert [h][1..] == [];
    } else {
      assert (s + [h])[1..] == s[1..] + [h];
      WinningsAppend(s[1..], h, base + 1);
    }
  }

  function Typed(h: Hand, jokers: bool): Hand
  {
    Play(h.cards, h.bid, if jokers then JokerTypeOf(h.cards) else TypeOf(h.cards))
  }

  function Classify(hands: seq<Hand>, jokers: bool): (r: seq<Hand>)
    ensures |r| == |hands|
    ensures forall i :: 0 <= i < |r| ==> r[i].cards == hands[i].cards && r[i].bid == hands[i].bid
    ensures forall i :: 0 <= i < |r| ==> r[i].kind == if jokers then JokerTypeOf(hands[i].cards) else TypeOf(hands[i].cards)
  {
    seq(|hands|, i requires 0 <= i < |hands| => Typed(hands[i], jokers))
  }

  /** The hands typed and sorted, weakest first. */
  function Ranked(hands: seq<Hand>, jokers: bool): seq<Hand>
  {
    Sorting.Sort(Classify(hands, jokers), Le(jokers))
  }

  /** The ranking lists every typed hand once, weakest first. */
  lemma RankedInOrder(hands: seq<Hand>, jokers: bool)
    ensures multiset(Ranked(hands, jokers)) == multiset(Classify(hands, jokers))
    ensures forall i, j :: 0 <= i < j < |Ranked(hands, jokers)| ==>
      Cmp(Ranked(hands, jokers)[i], Ranked(hands, jokers)[j], jokers) <= 0
  {
    CmpPreorder(jokers);
    Sorting.SortSorted(Classify(hands, jokers), Le(jokers));
  }

  function BidSum(s: seq<Hand>): int
    decreases |s|
  {
    if s == [] then 0 else s[0].bid + BidSum(s[1..])
  }

  /** Taking out the hand at k leaves the other bids. */
  lemma {:induction false} BidSumRemove(s: seq<Hand>, k: nat)
    requires k < |s|
    ensures BidSum(s) == s[k].bid + BidSum(s[..k] + s[k + 1..])
    decreases k
  {
    if k > 0 {
      BidSumRemove(s[1..], k - 1);
      assert s[1..][..k - 1] + s[1..][k..] == (s[..k] + s[k + 1..])[1..];
    } else {
      assert s[..k] + s[k + 1..] == s[1..];
    }
  }

  /** The bids add up the same in any order. */
  lemma {:induction false} BidSumPermutation(a: seq<Hand>, b: seq<Hand>)
    requires multiset(a) == multiset(b)
    ensures BidSum(a) == BidSum(b)
    decreases |a|
  {
    if a != [] {
      assert a[0] in multiset(b);
      var k :| 0 <= k < |b| && b[k] == a[0];
      var rest := b[..k] + b[k + 1..];
      RemoveMatching(a, b, k);
      BidSumPermutation(a[1..], rest);
      BidSumRemove(b, k);
    }
  }

  /** Taking the first element out of one and a copy of it out of the
      other keeps two permutations permutations. */
  lemma RemoveMatching<T>(a: seq<T>, b: seq<T>, k: nat)
    requires multiset(a) == multiset(b) && a != [] && k < |b| && b[k] == a[0]
    ensures multiset(a[1..]) == multiset(b[..k] + b[k + 1..])
  {
    assert b[..k] + [b[k]] + b[k + 1..] == b;
    assert multiset(b) == multiset(b[..k]) + multiset{b[k]} + multiset(b[k + 1..]);
    assert [a[0]] + a[1..] == a;
    assert multiset(a) == multiset{a[0]} + multiset(a[1..]);
    var rest := b[..k] + b[k + 1..];
    assert multiset(rest) == multiset(b[..k]) + multiset(b[k + 1..]);
    forall x
      ensures multiset(a[1..])[x] == multiset(rest)[x]
    {
      assert multiset(a)[x] == multiset{a[0]}[x] + multiset(a[1..])[x];
      assert multiset(b)[x] == multiset{b[k]}[x] + multiset(rest)[x];
    }
  }

  /** Typing a hand keeps its bid. */
  lemma {:induction false} BidSumClassify(hands: seq<Hand>, jokers: bool)
    ensures BidSum(Classify(hands, jokers)) == BidSum(hands)
    decreases |hands|
  {
    if hands != [] {
      BidSumClassify(hands[1..], jokers);
      assert Classify(hands, jokers)[1..] == Classify(hands[1..], jokers);
    }
  }

  /** With non-negative bids, ranks base+1 .. base+|s| pay between base+1
      and base+|s| times the bids. */
  lemma {:induction false} WinningsBounds(s: seq<Hand>, base: nat)
    requires forall i :: 0 <= i < |s| ==> s[i].bid >= 0
    ensures BidSum(s) >= 0
    ensures (base + 1) * BidSum(s) <= Winnings(s, base) <= (base + |s|) * BidSum(s)
    decreases |s|
  {
    if s != [] {
      var t := s[1..];
      assert forall i :: 0 <= i < |t| ==> t[i] == s[i + 1];
      WinningsBounds(t, base + 1);
      var x, rest, w := s[0].bid, BidSum(t), Winnings(t, base + 1);
      assert (base + 2) * rest <= w <= (base + 1 + |t|) * rest;
      assert (base + 1) * rest <= (base + 2) * rest;
      assert (base + 1 + |t|) * rest == (base + |s|) * rest;
      assert x * (base + 1) <= x * (base + |s|);
      assert (base + 1) * (x + rest) == x * (base + 1) + (base + 1) * rest;
      assert (base + |s|) * (x + rest) == x * (base + |s|) + (base + |s|) * rest;
    }
  }

  /** Part 1 (jokers = false) and part 2 (jokers = true): each hand pays
      its bid times its rank, so with non-negative bids the winnings lie
      between the bids' sum (every hand ranked 1) and the number of hands
      times it. */
  function Solve(hands: seq<Hand>, jokers: bool): (r: int)
    ensures (forall i :: 0 <= i < |hands| ==> hands[i].bid >= 0) ==>
      BidSum(hands) <= r <= |hands| * BidSum(hands)
  {
    var ranked := Ranked(hands, jokers);
    RankedInOrder(hands, jokers);
    BidSumPermutation(ranked, Classify(hands, jokers));
    BidSumClassify(hands, jokers);
    BidsNonNegative(ranked, Classify(hands, jokers), hands);
    Winnings(ranked, 0)
  }

  /** A reordering of the typed hands pays between the bids' sum and the
      number of hands times it, when the bids are non-negative. */
  lemma BidsNonNegative(ranked: seq<Hand>, typed: seq<Hand>, hands: seq<Hand>)
    requires multiset(ranked) == multiset(typed)
    requires |typed| == |hands| && forall j :: 0 <= j < |typed| ==> typed[j].bid == hands[j].bid
    ensures (forall i :: 0 <= i < |hands| ==> hands[i].bid >= 0) ==>
      BidSum(ranked) <= Winnings(ranked, 0) <= |hands| * BidSum(ranked)
  {
    if forall i :: 0 <= i < |hands| ==> hands[i].bid >= 0 {
      forall i | 0 <= i < |ranked|
        ensures ranked[i].bid >= 0
      {
        assert ranked[i] in multiset(typed);
        var j :| 0 <= j < |typed| && typed[j] == ranked[i];
      }
      assert |ranked| == |typed| by {
        assert |multiset(ranked)| == |multiset(typed)|;
      }
      WinningsBounds(ranked, 0);
    }
  }
}
