/** Day 4 (day4.ts): scratchcards. A card's matches are the numbers it has
    that are among its winning numbers. */
module Day4 {
  import opened Outcomes
  import opened Counting

  datatype Card = Card(num: int, winning: seq<int>, have: seq<int>)

  function SetOf(s: seq<int>): set<int>
  {
    set i | 0 <= i < |s| :: s[i]
  }

  /** The winning numbers form a set, while every occurrence in `have`
      counts. */
  function Matches(c: Card): nat
  {
    CountIf(c.have, (h: int) => h in SetOf(c.winning))
  }

  /** Listing a winning number twice changes nothing; having a winning
      number once more adds a match. */
  lemma MatchesMultiplicity(c: Card, h: int)
    ensures Matches(Card(c.num, c.winning + c.winning, c.have)) == Matches(c)
    ensures Matches(Card(c.num, c.winning, c.have + [h])) == Matches(c) + (if h in c.winning then 1 else 0)
  {
    assert SetOf(c.winning + c.winning) == SetOf(c.winning) by {
      forall x | x in SetOf(c.winning + c.winning)
        ensures x in SetOf(c.winning)
      {
        var i :| 0 <= i < |c.winning + c.winning| && (c.winning + c.winning)[i] == x;
        if i >= |c.winning| {
          assert c.winning[i - |c.winning|] == x;
        }
      }
      forall x | x in SetOf(c.winning)
        ensures x in SetOf(c.winning + c.winning)
      {
        var i :| 0 <= i < |c.winning| && c.winning[i] == x;
        assert (c.winning + c.winning)[i] == x;
      }
    }
    var have := c.have + [h];
    assert have[..|have| - 1] == c.have;
    assert h in c.winning <==> h in SetOf(c.winning) by {
      if h in c.winning {
        var i :| 0 <= i < |c.winning| && c.winning[i] == h;
      }
    }
  }

  function Pow2(n: nat): (p: nat)
    ensures p >= 1
  {
    if n == 0 then 1 else 2 * Pow2(n - 1)
  }

  /** The score after reading the numbers in `have`: the first match scores
      one and every further match doubles it. */
  function Score(have: seq<int>, ws: set<int>): nat
  {
    if have == [] then 0
    else
      var m := Score(have[..|have| - 1], ws);
      if have[|have| - 1] in ws then (if m == 0 then 1 else 2 * m) else m
  }

  /** A card with k >= 1 matches scores 2^(k-1); one with none scores 0. */
  lemma {:induction false} ScoreIsPower(have: seq<int>, ws: set<int>)
    ensures var k := CountIf(have, (h: int) => h in ws);
      Score(have, ws) == if k == 0 then 0 else Pow2(k - 1)
    decreases |have|
  {
    if have != [] {
      ScoreIsPower(have[..|have| - 1], ws);
    }
  }

  /** The score of one card, in terms of its matches. */
  lemma CardScore(c: Card)
    ensures Score(c.have, SetOf(c.winning)) == if Matches(c) == 0 then 0 else Pow2(Matches(c) - 1)
  {
    ScoreIsPower(c.have, SetOf(c.winning));
  }

  /** The card scores added up: each card with k >= 1 matches adds
      2^(k-1), and the total is 0 exactly when no card matches. */
  function ScoreSum(cards: seq<Card>): (t: nat)
    ensures forall i :: 0 <= i < |cards| && Matches(cards[i]) > 0 ==> Pow2(Matches(cards[i]) - 1) <= t
    ensures t == 0 <==> forall i :: 0 <= i < |cards| ==> Matches(cards[i]) == 0
  {
    if cards == [] then 0
    else
      var init, last := cards[..|cards| - 1], cards[|cards| - 1];
      assert forall i :: 0 <= i < |init| ==> init[i] == cards[i];
      CardScore(last);
      ScoreSum(init) + Score(last.have, SetOf(last.winning))
  }

  /** Part 1: the sum of the card scores. */
  function Part1(cards: seq<Card>): (r: nat)
    ensures forall i :: 0 <= i < |cards| && Matches(cards[i]) > 0 ==> Pow2(Matches(cards[i]) - 1) <= r
    ensures r == 0 <==> forall i :: 0 <= i < |cards| ==> Matches(cards[i]) == 0
  {
    ScoreSum(cards)
  }

  /** The loop `for (i = 1; i <= f; i++) c.sum(c.get(num), num + i)`, from
      the step whose target card is k up to the last target card. */
  function Spread(c: Counter<int>, num: int, k: int, last: int): Counter<int>
    decreases last + 1 - k
  {
    if k > last then c else Spread(Counting.Sum(c, Get(c, num), k).0, num, k + 1, last)
  }

  /** The copies of card num flow only to cards k..last, each of which gains
      as many as card num holds; card num itself (which lies below k) and
      every other card keep their counts. */
  lemma {:induction false} SpreadGet(c: Counter<int>, num: int, k: int, last: int)
    requires num < k
    ensures Get(Spread(c, num, k, last), num) == Get(c, num)
    ensures forall j :: j < k || j > last ==> Get(Spread(c, num, k, last), j) == Get(c, j)
    ensures forall j :: k <= j <= last ==> Get(Spread(c, num, k, last), j) == Get(c, j) + Get(c, num)
    decreases last + 1 - k
  {
    if k <= last {
      SpreadGet(Counting.Sum(c, Get(c, num), k).0, num, k + 1, last);
    }
  }

  /** Spreading keeps every written key listed once. */
  lemma {:induction false} SpreadValid(c: Counter<int>, num: int, k: int, last: int)
    requires Valid(c)
    ensures Valid(Spread(c, num, k, last))
    decreases last + 1 - k
  {
    if k <= last {
      SumKeys(c, Get(c, num), k);
      SpreadValid(Counting.Sum(c, Get(c, num), k).0, num, k + 1, last);
    }
  }

  /** Spreading raises the total by the copies handed out: one lot of card
      num's count per target card. */
  lemma {:induction false} SpreadTotal(c: Counter<int>, num: int, k: int, last: int)
    requires num < k
    ensures Total(Spread(c, num, k, last), Counts) ==
      Total(c, Counts) + (if k <= last then Times(last + 1 - k, Get(c, num)) else 0)
    decreases last + 1 - k
  {
    if k <= last {
      var g := Get(c, num);
      SumTotal(c, g, k);
      var c' := Counting.Sum(c, g, k).0;
      SpreadTotal(c', num, k + 1, last);
    }
  }

  /** n copies of x, added up. */
  function Times(n: nat, x: int): int
  {
    if n == 0 then 0 else x + Times(n - 1, x)
  }

  lemma {:induction false} TimesIsProduct(n: nat, x: int)
    ensures Times(n, x) == n * x
    decreases n
  {
    if n > 0 {
      TimesIsProduct(n - 1, x);
    }
  }

  /** One pass of the outer loop for card num with f matches: its original
      copy, then its wins. */
  function Copy(c: Counter<int>, num: int, f: nat): Counter<int>
  {
    Spread(Add(c, num).0, num, num + 1, num + f)
  }

  function Process(c: Counter<int>, card: Card): Counter<int>
  {
    Copy(c, card.num, Matches(card))
  }

  /** A card first receives its original copy, then hands its new count to
      each of the next f cards; no other card changes. */
  lemma CopyGet(c: Counter<int>, num: int, f: nat)
    ensures Get(Copy(c, num, f), num) == Get(c, num) + 1
    ensures forall k :: num < k <= num + f ==> Get(Copy(c, num, f), k) == Get(c, k) + Get(c, num) + 1
    ensures forall k :: k < num || k > num + f ==> Get(Copy(c, num, f), k) == Get(c, k)
  {
    SpreadGet(Add(c, num).0, num, num + 1, num + f);
  }

  /** Processing a card keeps the counter well formed. */
  lemma CopyValid(c: Counter<int>, num: int, f: nat)
    requires Valid(c)
    ensures Valid(Copy(c, num, f))
  {
    var a := Add(c, num).0;
    assert Copy(c, num, f) == Spread(a, num, num + 1, num + f);
    SumKeys(c, 1, num);
    SpreadValid(a, num, num + 1, num + f);
  }

  /** The total grows by the original plus the card's new count once per
      match. */
  lemma CopyTotal(c: Counter<int>, num: int, f: nat)
    ensures Total(Copy(c, num, f), Counts) == Total(c, Counts) + 1 + Times(f, Get(c, num) + 1)
  {
    var a := Add(c, num).0;
    assert Copy(c, num, f) == Spread(a, num, num + 1, num + f);
    SumTotal(c, 1, num);
    SpreadTotal(a, num, num + 1, num + f);
    var g := Get(a, num);
    assert g == Get(c, num) + 1;
    if f == 0 {
      assert Times(f, g) == 0;
    }
  }

  function ProcessAll(c: Counter<int>, cards: seq<Card>): Counter<int>
  {
    if cards == [] then c else Process(ProcessAll(c, cards[..|cards| - 1]), cards[|cards| - 1])
  }

  lemma {:induction false} ProcessAllValid(cards: seq<Card>)
    ensures Valid(ProcessAll(Empty(), cards))
    decreases |cards|
  {
    if cards != [] {
      ProcessAllValid(cards[..|cards| - 1]);
      CopyValid(ProcessAll(Empty(), cards[..|cards| - 1]), cards[|cards| - 1].num, Matches(cards[|cards| - 1]));
    }
  }

  /** The total number of cards, originals and copies. */
  function Won(cards: seq<Card>): int
  {
    Total(ProcessAll(Empty(), cards), Counts)
  }

  /** Part 2: the cards won, at least one per card and none without
      cards. */
  function Part2(cards: seq<Card>): (r: int)
    ensures r >= |cards|
    ensures r == 0 <==> cards == []
  {
    Part2AtLeastCards(cards);
    Won(cards)
  }

  /** Every card ends up with at least its original copy. */
  lemma {:induction false} CountsAtLeastOne(cards: seq<Card>, k: nat)
    requires k < |cards|
    ensures Get(ProcessAll(Empty(), cards), cards[k].num) >= 1
    decreases |cards|
  {
    var c := ProcessAll(Empty(), cards[..|cards| - 1]);
    CopyGet(c, cards[|cards| - 1].num, Matches(cards[|cards| - 1]));
    if k < |cards| - 1 {
      CountsAtLeastOne(cards[..|cards| - 1], k);
      assert cards[..|cards| - 1][k] == cards[k];
      assert Get(c, cards[k].num) >= 1;
      NonNegative(cards[..|cards| - 1]);
    } else {
      NonNegative(cards[..|cards| - 1]);
    }
  }

  /** No count ever goes below zero. */
  lemma {:induction false} NonNegative(cards: seq<Card>)
    ensures forall k :: Get(ProcessAll(Empty(), cards), k) >= 0
    decreases |cards|
  {
    if cards != [] {
      NonNegative(cards[..|cards| - 1]);
      CopyGet(ProcessAll(Empty(), cards[..|cards| - 1]), cards[|cards| - 1].num, Matches(cards[|cards| - 1]));
    }
  }

  lemma {:induction false} TimesNonNegative(n: nat, x: int)
    requires x >= 0
    ensures Times(n, x) >= 0
    decreases n
  {
    if n > 0 {
      TimesNonNegative(n - 1, x);
    }
  }

  /** The copies card `num` holds once `cards` are processed. */
  function Copies(cards: seq<Card>, num: int): int
  {
    Get(ProcessAll(Empty(), cards), num)
  }

  /** Appending a card adds its original plus, per match, its final count. */
  lemma Part2Step(cards: seq<Card>, card: Card)
    ensures Won(cards + [card]) == Won(cards) + 1 + Times(Matches(card), Copies(cards, card.num) + 1)
  {
    var all := cards + [card];
    var c := ProcessAll(Empty(), cards);
    assert ProcessAll(Empty(), all) == Copy(c, card.num, Matches(card)) by {
      assert all[..|all| - 1] == cards;
    }
    var m, g := Matches(card), Get(c, card.num) + 1;
    assert Total(Copy(c, card.num, m), Counts) == Total(c, Counts) + 1 + Times(m, g) by {
      CopyTotal(c, card.num, m);
    }
    assert Won(cards) == Total(c, Counts) && Copies(cards, card.num) + 1 == g;
  }

  /** So the answer is at least the number of cards. */
  lemma {:induction false} Part2AtLeastCards(cards: seq<Card>)
    ensures Won(cards) >= |cards|
    ensures cards == [] ==> Won(cards) == 0
    decreases |cards|
  {
    if cards == [] {
      assert Total(Empty<int>(), Counts) == 0;
    } else {
      var init := cards[..|cards| - 1];
      assert init + [cards[|cards| - 1]] == cards;
      Part2AtLeastCards(init);
      Part2Step(init, cards[|cards| - 1]);
      NonNegative(init);
      TimesNonNegative(Matches(cards[|cards| - 1]), Copies(init, cards[|cards| - 1].num) + 1);
    }
  }
}
