/** Day 2 (day2.ts): games of coloured cubes drawn from a bag. */
module Day2 {
  import opened Outcomes

  datatype Colour = Red | Green | Blue

  /** One draw; a colour the draw does not mention is absent, not zero. */
  datatype Draw = Draw(red: Option<nat>, green: Option<nat>, blue: Option<nat>)

  datatype Game = Game(num: nat, draws: seq<Draw>)

  function Count(d: Draw, c: Colour): Option<nat>
  {
    match c
    case Red => d.red
    case Green => d.green
    case Blue => d.blue
  }

  /** The bag of part 1: 12 red, 13 green and 14 blue cubes. */
  function Limit(c: Colour): nat
  {
    match c
    case Red => 12
    case Green => 13
    case Blue => 14
  }

  /** No draw shows more of a colour than the bag holds. */
  predicate Possible(g: Game)
  {
    forall i, c :: 0 <= i < |g.draws| && Count(g.draws[i], c).Some? ==>
      Count(g.draws[i], c).value <= Limit(c)
  }

  /** The numbers of the possible games, summed. */
  function PossibleSum(inp: seq<Game>): nat
  {
    if inp == [] then 0
    else PossibleSum(inp[..|inp| - 1]) + (if Possible(inp[|inp| - 1]) then inp[|inp| - 1].num else 0)
  }

  /** Whether some draw of the game exceeds the bag (the inner loops that
      `continue OUTER`). */
  method Exceeds(g: Game) returns (over: bool)
    ensures over <==> !Possible(g)
  {
    over := false;
    var i := 0;
    while i < |g.draws| && !over
      invariant 0 <= i <= |g.draws|
      invariant !over ==> forall j, c :: 0 <= j < i && Count(g.draws[j], c).Some? ==>
        Count(g.draws[j], c).value <= Limit(c)
      invariant over ==> !Possible(g)
    {
      var d := g.draws[i];
      var cs := [Red, Green, Blue];
      var k := 0;
      while k < 3 && !over
        invariant 0 <= k <= 3
        invariant !over ==> forall m :: 0 <= m < k && Count(d, cs[m]).Some? ==> Count(d, cs[m]).value <= Limit(cs[m])
        invariant over ==> !Possible(g)
      {
        var n := Count(d, cs[k]);
        if n.Some? && n.value > Limit(cs[k]) {
          over := true;
        }
        k := k + 1;
      }
      if !over {
        forall c | Count(d, c).Some?
          ensures Count(d, c).value <= Limit(c)
        {
          assert c == cs[0] || c == cs[1] || c == cs[2];
        }
      }
      i := i + 1;
    }
  }

  /** Part 1: the sum of the numbers of the games the bag makes possible. */
  method Part1(inp: seq<Game>) returns (total: nat)
    ensures total == PossibleSum(inp)
  {
    total := 0;
    var i := 0;
    while i < |inp|
      invariant 0 <= i <= |inp|
      invariant total == PossibleSum(inp[..i])
    {
      var over := Exceeds(inp[i]);
      if !over {
        total := total + inp[i].num;
      }
      assert inp[..i + 1][..i] == inp[..i];
      i := i + 1;
    }
    assert inp[..|inp|] == inp;
  }

  /** The largest count of colour c shown in any draw, starting from 0. */
  function MaxShown(draws: seq<Draw>, c: Colour): (m: nat)
    ensures forall i :: 0 <= i < |draws| && Count(draws[i], c).Some? ==> Count(draws[i], c).value <= m
    ensures m == 0 || exists i :: 0 <= i < |draws| && Count(draws[i], c) == Some(m)
  {
    if draws == [] then 0
    else
      var m := MaxShown(draws[..|draws| - 1], c);
      var n := Count(draws[|draws| - 1], c);
      assert forall i :: 0 <= i < |draws| - 1 ==> draws[..|draws| - 1][i] == draws[i];
      if n.Some? && n.value > m then n.value else m
  }

  /** The fewest cubes of each colour that make the game possible. */
  function MinimumSet(g: Game): (r: (nat, nat, nat))
  {
    (MaxShown(g.draws, Red), MaxShown(g.draws, Green), MaxShown(g.draws, Blue))
  }

  /** A bag holds enough for the game exactly when it holds at least the
      minimum set, colour by colour. */
  lemma MinimumSetSuffices(g: Game, red: nat, green: nat, blue: nat)
    ensures (forall i, c :: 0 <= i < |g.draws| && Count(g.draws[i], c).Some? ==>
               Count(g.draws[i], c).value <= (match c case Red => red case Green => green case Blue => blue))
            <==> (MinimumSet(g).0 <= red && MinimumSet(g).1 <= green && MinimumSet(g).2 <= blue)
  {
    var m := MinimumSet(g);
    if m.0 > red {
      var i :| 0 <= i < |g.draws| && Count(g.draws[i], Red) == Some(m.0);
    }
    if m.1 > green {
      var i :| 0 <= i < |g.draws| && Count(g.draws[i], Green) == Some(m.1);
    }
    if m.2 > blue {
      var i :| 0 <= i < |g.draws| && Count(g.draws[i], Blue) == Some(m.2);
    }
  }

  /** The power of the minimum set; a colour the game never shows makes it
      zero. */
  function Power(g: Game): (p: nat)
    ensures p == 0 <==> MinimumSet(g).0 == 0 || MinimumSet(g).1 == 0 || MinimumSet(g).2 == 0
  {
    var m := MinimumSet(g);
    assert m.0 > 0 && m.1 > 0 ==> m.0 * m.1 > 0;
    m.0 * m.1 * m.2
  }

  /** A colour absent from every draw zeroes the power. */
  lemma AbsentColourNoPower(g: Game, c: Colour)
    requires forall i :: 0 <= i < |g.draws| ==> Count(g.draws[i], c).None?
    ensures Power(g) == 0
  {
    assert MaxShown(g.draws, c) == 0;
  }

  /** Part 2: the sum of the powers. */
  function Part2(inp: seq<Game>): (n: nat)
    ensures forall i :: 0 <= i < |inp| ==> Power(inp[i]) <= n
    ensures n == 0 <==> forall i :: 0 <= i < |inp| ==> Power(inp[i]) == 0
  {
    SumByBounds(inp, Power, 0);
    SumBy(inp, Power)
  }
}
