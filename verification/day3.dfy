/** Day 3 (day3.ts): part numbers next to symbols in an engine schematic,
    over the parsed entries (symbols and numbers with their positions). */
module Day3 {
  import opened Outcomes

  datatype Sym = Sym(sym: char, line: int, column: int)

  /** A number of `len` digits whose first digit is at (line, column). */
  datatype Num = Num(num: int, len: nat, line: int, column: int)

  datatype Entry = SymEntry(s: Sym) | NumEntry(n: Num)

  /** `adjacent`: the symbol, on the number's line, touches its first or
      last digit from the side. */
  predicate Adjacent(n: Num, s: Sym)
  {
    s.column == n.column - 1 || s.column == n.column + n.len
  }

  /** `stacked`: the symbol, on a neighbouring line, is within one column of
      the number's digits. */
  predicate Stacked(n: Num, s: Sym)
  {
    n.column - 1 <= s.column <= n.column + n.len
  }

  /** One line's group of `Object.groupBy`; a missing line is empty. */
  function SymsOn(syms: seq<Sym>, line: int): seq<Sym>
  {
    Filter(syms, (s: Sym) => s.line == line)
  }

  function NumsOn(nums: seq<Num>, line: int): seq<Num>
  {
    Filter(nums, (n: Num) => n.line == line)
  }

  /** `near`: some symbol on the number's line is adjacent, or some symbol
      on the line above or below is stacked. */
  predicate Near(n: Num, syms: seq<Sym>)
  {
    (exists s :: s in SymsOn(syms, n.line) && Adjacent(n, s)) ||
    (exists s :: s in SymsOn(syms, n.line - 1) + SymsOn(syms, n.line + 1) && Stacked(n, s))
  }

  /** `near` in terms of the symbols alone: a same-line adjacent symbol or a
      stacked symbol one line away. */
  lemma NearIff(n: Num, syms: seq<Sym>)
    ensures Near(n, syms) <==>
      (exists s :: s in syms && s.line == n.line && Adjacent(n, s)) ||
      (exists s :: s in syms && (s.line == n.line - 1 || s.line == n.line + 1) && Stacked(n, s))
  {
    if exists s :: s in syms && (s.line == n.line - 1 || s.line == n.line + 1) && Stacked(n, s) {
      var s :| s in syms && (s.line == n.line - 1 || s.line == n.line + 1) && Stacked(n, s);
      assert s in SymsOn(syms, n.line - 1) + SymsOn(syms, n.line + 1);
    }
  }

  function Syms(inp: seq<Entry>): (r: seq<Sym>)
    ensures forall s :: s in r <==> SymEntry(s) in inp
  {
    if inp == [] then []
    else
      var last := inp[|inp| - 1];
      Syms(inp[..|inp| - 1]) + (if last.SymEntry? then [last.s] else [])
  }

  function Nums(inp: seq<Entry>): (r: seq<Num>)
    ensures forall n :: n in r <==> NumEntry(n) in inp
  {
    if inp == [] then []
    else
      var last := inp[|inp| - 1];
      Nums(inp[..|inp| - 1]) + (if last.NumEntry? then [last.n] else [])
  }

  /** The numbers near some symbol, each counted once. With no symbols
      nothing counts; with non-negative numbers the total is non-negative and
      takes in every number near a symbol. */
  function NearSum(nums: seq<Num>, syms: seq<Sym>): (t: int)
    ensures syms == [] ==> t == 0
    ensures (forall i :: 0 <= i < |nums| ==> nums[i].num >= 0) ==>
      t >= 0 && forall i :: 0 <= i < |nums| && Near(nums[i], syms) ==> nums[i].num <= t
  {
    if nums == [] then 0
    else
      var init := nums[..|nums| - 1];
      assert forall i :: 0 <= i < |init| ==> init[i] == nums[i];
      NearSum(init, syms) + (if Near(nums[|nums| - 1], syms) then nums[|nums| - 1].num else 0)
  }

  /** Part 1: a schematic without symbols scores 0; with non-negative part
      numbers the score is non-negative and at least every number near a
      symbol. */
  function Part1(inp: seq<Entry>): (r: int)
    ensures (forall s :: SymEntry(s) !in inp) ==> r == 0
    ensures (forall n :: NumEntry(n) in inp ==> n.num >= 0) ==>
      r >= 0 && forall n :: NumEntry(n) in inp && Near(n, Syms(inp)) ==> n.num <= r
  {
    var nums, syms := Nums(inp), Syms(inp);
    assert syms != [] ==> syms[0] in syms && SymEntry(syms[0]) in inp;
    assert forall i :: 0 <= i < |nums| ==> NumEntry(nums[i]) in inp;
    assert forall n :: NumEntry(n) in inp ==> exists i :: 0 <= i < |nums| && nums[i] == n;
    NearSum(nums, syms)
  }

  /** Each number is added at most once however many symbols touch it: with
      non-negative numbers the total never exceeds their plain sum, and it
      depends only on which symbols exist, not how often they are listed. */
  lemma {:induction false} NearSumAtMostOnce(nums: seq<Num>, syms: seq<Sym>, more: seq<Sym>)
    requires forall i :: 0 <= i < |nums| ==> nums[i].num >= 0
    requires forall s :: s in more ==> s in syms
    ensures 0 <= NearSum(nums, syms) <= Sum(seq(|nums|, i requires 0 <= i < |nums| => nums[i].num))
    ensures NearSum(nums, syms + more) == NearSum(nums, syms)
    decreases |nums|
  {
    if nums != [] {
      var init := nums[..|nums| - 1];
      NearSumAtMostOnce(init, syms, more);
      var vals := seq(|nums|, i requires 0 <= i < |nums| => nums[i].num);
      assert vals[..|vals| - 1] == seq(|init|, i requires 0 <= i < |init| => init[i].num);
      var n := nums[|nums| - 1];
      NearIff(n, syms);
      NearIff(n, syms + more);
    }
  }

  /** `numsNear`: the numbers on the gear's line that are adjacent to it,
      then those on the lines above and below that are stacked on it. */
  function NearEntries(gear: Sym, nums: seq<Num>): seq<Num>
  {
    Filter(NumsOn(nums, gear.line), (n: Num) => Adjacent(n, gear)) +
    Filter(NumsOn(nums, gear.line - 1) + NumsOn(nums, gear.line + 1), (n: Num) => Stacked(n, gear))
  }

  function NumsNear(gear: Sym, nums: seq<Num>): (r: seq<int>)
    ensures |r| == |NearEntries(gear, nums)|
  {
    var e := NearEntries(gear, nums);
    seq(|e|, i requires 0 <= i < |e| => e[i].num)
  }

  /** A number is listed by `numsNear(g)` exactly when it is near the one
      symbol g. */
  lemma NearEntriesIff(gear: Sym, nums: seq<Num>, n: Num)
    ensures n in NearEntries(gear, nums) <==> n in nums && Near(n, [gear])
  {
    NearOne(n, gear);
    var a := Filter(NumsOn(nums, gear.line), (m: Num) => Adjacent(m, gear));
    var b := Filter(NumsOn(nums, gear.line - 1) + NumsOn(nums, gear.line + 1), (m: Num) => Stacked(m, gear));
    assert n in a + b <==> n in a || n in b;
    if n in nums && (n.line == gear.line - 1 || n.line == gear.line + 1) && Stacked(n, gear) {
      assert n in NumsOn(nums, gear.line - 1) + NumsOn(nums, gear.line + 1);
    }
  }

  /** Near the one symbol g: adjacent on its line or stacked one line away. */
  lemma NearOne(n: Num, gear: Sym)
    ensures Near(n, [gear]) <==>
      (n.line == gear.line && Adjacent(n, gear)) ||
      ((n.line == gear.line - 1 || n.line == gear.line + 1) && Stacked(n, gear))
  {
    NearIff(n, [gear]);
  }

  /** The gear ratio a '*' contributes: the product of its two numbers when
      it has exactly two, nothing otherwise. */
  function Ratio(gear: Sym, nums: seq<Num>): (r: int)
    ensures |NumsNear(gear, nums)| != 2 ==> r == 0
  {
    var l := NumsNear(gear, nums);
    if |l| == 2 then l[0] * l[1] else 0
  }

  /** The ratios of the gears added up; nothing when no gear has exactly
      two numbers near it. */
  function RatioSum(gears: seq<Sym>, nums: seq<Num>): (t: int)
    ensures (forall i :: 0 <= i < |gears| ==> |NumsNear(gears[i], nums)| != 2) ==> t == 0
  {
    if gears == [] then 0
    else
      var init := gears[..|gears| - 1];
      assert forall i :: 0 <= i < |init| ==> init[i] == gears[i];
      RatioSum(init, nums) + Ratio(gears[|gears| - 1], nums)
  }

  /** Part 2: the gear ratios of every '*'. A schematic in which no '*' has
      exactly two numbers near it scores 0. */
  function Part2(inp: seq<Entry>): (r: int)
    ensures (forall s :: SymEntry(s) in inp && s.sym == '*' ==> |NumsNear(s, Nums(inp))| != 2) ==> r == 0
  {
    var gears := Filter(Syms(inp), (s: Sym) => s.sym == '*');
    assert forall i :: 0 <= i < |gears| ==> gears[i] in gears;
    RatioSum(gears, Nums(inp))
  }

  /** A '*' between two numbers on its own line has ratio their product. */
  lemma RatioExample()
    ensures Ratio(Sym('*', 0, 3), [Num(467, 3, 0, 0), Num(35, 2, 0, 4)]) == 467 * 35
  {
    var g := Sym('*', 0, 3);
    var nums := [Num(467, 3, 0, 0), Num(35, 2, 0, 4)];
    assert NearEntries(g, nums) == nums by {
      assert NumsOn(nums, 0) == nums by { FilterAll(nums, (n: Num) => n.line == 0); }
      assert Filter(nums, (n: Num) => Adjacent(n, g)) == nums by { FilterAll(nums, (n: Num) => Adjacent(n, g)); }
      assert NumsOn(nums, -1) == [] by { FilterNone(nums, (n: Num) => n.line == -1); }
      assert NumsOn(nums, 1) == [] by { FilterNone(nums, (n: Num) => n.line == 1); }
    }
  }
}
