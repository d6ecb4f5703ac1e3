/** Day 11 (day11.ts): cosmic expansion. Every row and column without a
    galaxy grows, and the answer is the sum of the Manhattan distances
    between all pairs of galaxies after the growth. */
module Day11 {
  import opened Outcomes

  /** A 1-based galaxy position. */
  datatype Location = Location(line: int, column: int)

  datatype Input = Input(locs: seq<Location>, height: int, width: int)

  /** `Sequence.range(lo, hi)`: lo, lo + 1, ..., hi. */
  function Range(lo: int, hi: int): (r: seq<int>)
    ensures |r| == if lo <= hi then hi - lo + 1 else 0
    ensures forall i :: 0 <= i < |r| ==> r[i] == lo + i
    decreases hi - lo
  {
    if lo > hi then [] else [lo] + Range(lo + 1, hi)
  }

  /** The rows (or columns) holding some galaxy. */
  function Lines(locs: seq<Location>, columns: bool): set<int>
  {
    set l | l in locs :: if columns then l.column else l.line
  }

  function Absent(present: set<int>): int -> bool
  {
    (x: int) => x !in present
  }

  function Under(v: int): int -> bool
  {
    (x: int) => v > x
  }

  /** The indices 1..n that hold no galaxy, ascending. */
  function EmptyLines(present: set<int>, n: int): seq<int>
  {
    Filter(Range(1, n), Absent(present))
  }

  /** The empty lines are exactly the indices 1..n outside `present`, in
      strictly ascending order. */
  lemma EmptyLinesIff(present: set<int>, n: int)
    ensures forall x :: x in EmptyLines(present, n) <==> 1 <= x <= n && x !in present
    ensures forall i, j :: 0 <= i < j < |EmptyLines(present, n)| ==> EmptyLines(present, n)[i] < EmptyLines(present, n)[j]
  {
    FilterAscending(Range(1, n), Absent(present));
    forall x | 1 <= x <= n
      ensures x in Range(1, n)
    {
      assert Range(1, n)[x - 1] == x;
    }
  }

  lemma {:induction false} FilterAscending(s: seq<int>, p: int -> bool)
    requires forall i, j :: 0 <= i < j < |s| ==> s[i] < s[j]
    ensures forall i, j :: 0 <= i < j < |Filter(s, p)| ==> Filter(s, p)[i] < Filter(s, p)[j]
    decreases |s|
  {
    if s != [] {
      var init := s[..|s| - 1];
      FilterAscending(init, p);
      var f := Filter(init, p);
      forall i | 0 <= i < |f|
        ensures f[i] < s[|s| - 1]
      {
        assert f[i] in init;
      }
    }
  }

  /** The number of empty lines strictly below index v: the filter's
      length. */
  function Before(empties: seq<int>, v: int): nat
  {
    |Filter(empties, Under(v))|
  }

  /** A galaxy after the growth: each empty line below it adds
      `expansion`. */
  function Expand(loc: Location, emptyRows: seq<int>, emptyCols: seq<int>, expansion: int): Location
  {
    Location(loc.line + Before(emptyRows, loc.line) * expansion,
             loc.column + Before(emptyCols, loc.column) * expansion)
  }

  /** The rows without a galaxy, as `expandedDistance` lists them. */
  function EmptyRows(inp: Input): seq<int>
  {
    EmptyLines(Lines(inp.locs, false), inp.height)
  }

  /** The columns without a galaxy. */
  function EmptyCols(inp: Input): seq<int>
  {
    EmptyLines(Lines(inp.locs, true), inp.width)
  }

  /** Every galaxy of a list grown against the same empty lines. */
  function Grown(locs: seq<Location>, emptyRows: seq<int>, emptyCols: seq<int>, expansion: int): (r: seq<Location>)
    ensures |r| == |locs|
  {
    seq(|locs|, i requires 0 <= i < |locs| => Expand(locs[i], emptyRows, emptyCols, expansion))
  }

  /** The `expanded` list of `expandedDistance`. */
  function Expanded(inp: Input, expansion: int): (r: seq<Location>)
    ensures |r| == |inp.locs|
  {
    Grown(inp.locs, EmptyRows(inp), EmptyCols(inp), expansion)
  }

  /** The empty lines in [v, w). */
  function Between(empties: seq<int>, v: int, w: int): nat
  {
    CountIf(empties, (x: int) => v <= x < w)
  }

  lemma {:induction false} CountBelowSplit(s: seq<int>, v: int, w: int)
    requires v <= w
    ensures CountIf(s, Under(w)) == CountIf(s, Under(v)) + Between(s, v, w)
    decreases |s|
  {
    if s != [] {
      CountBelowSplit(s[..|s| - 1], v, w);
    }
  }

  /** Growing keeps the order of lines, and the gap between two lines
      grows by `expansion` for each empty line from the lower one up to
      (not including) the higher one. */
  lemma BeforeGap(empties: seq<int>, v: int, w: int, expansion: int)
    requires v <= w
    ensures (w + Before(empties, w) * expansion) - (v + Before(empties, v) * expansion) ==
      (w - v) + Between(empties, v, w) * expansion
  {
    FilterLength(empties, Under(w));
    FilterLength(empties, Under(v));
    CountBelowSplit(empties, v, w);
    var a, b, c := Before(empties, w), Before(empties, v), Between(empties, v, w);
    assert a == b + c;
    Distribute(b, c, expansion);
  }

  lemma Distribute(b: int, c: int, e: int)
    ensures (b + c) * e == b * e + c * e
  {
  }

  /** For two galaxies i and j with i's row not below j's, the expanded
      rows differ by the original difference plus `expansion` per empty
      row in between; the same holds for columns. */
  lemma ExpandedGap(inp: Input, expansion: int, i: nat, j: nat)
    requires i < |inp.locs| && j < |inp.locs|
    ensures var a, b := inp.locs[i], inp.locs[j];
      var er := EmptyLines(Lines(inp.locs, false), inp.height);
      var ec := EmptyLines(Lines(inp.locs, true), inp.width);
      (a.line <= b.line ==> (Expanded(inp, expansion)[j].line - Expanded(inp, expansion)[i].line ==
        (b.line - a.line) + Between(er, a.line, b.line) * expansion)) &&
      (a.column <= b.column ==> (Expanded(inp, expansion)[j].column - Expanded(inp, expansion)[i].column ==
        (b.column - a.column) + Between(ec, a.column, b.column) * expansion))
  {
    var a, b := inp.locs[i], inp.locs[j];
    var er := EmptyLines(Lines(inp.locs, false), inp.height);
    var ec := EmptyLines(Lines(inp.locs, true), inp.width);
    if a.line <= b.line {
      BeforeGap(er, a.line, b.line, expansion);
    }
    if a.column <= b.column {
      BeforeGap(ec, a.column, b.column, expansion);
    }
  }

  /** The last index of the range never counts: no galaxy lies above row
      `height`, so stopping the range one short gives the same growth. */
  lemma LastLineIrrelevant(present: set<int>, n: int, v: int)
    requires v <= n
    ensures Before(EmptyLines(present, n), v) == Before(EmptyLines(present, n - 1), v)
  {
    if 1 <= n {
      var e, last := EmptyLines(present, n - 1), Filter([n], Absent(present));
      EmptyLinesSnoc(present, n);
      FilterAppend(e, last, Under(v));
      TopNotUnder(present, n, v);
      assert Filter(e + last, Under(v)) == Filter(e, Under(v));
    }
  }

  lemma EmptyLinesSnoc(present: set<int>, n: int)
    requires 1 <= n
    ensures EmptyLines(present, n) == EmptyLines(present, n - 1) + Filter([n], Absent(present))
  {
    assert Range(1, n) == Range(1, n - 1) + [n];
    FilterAppend(Range(1, n - 1), [n], Absent(present));
  }

  lemma TopNotUnder(present: set<int>, n: int, v: int)
    requires v <= n
    ensures Filter(Filter([n], Absent(present)), Under(v)) == []
  {
    var last := Filter([n], Absent(present));
    assert forall i :: 0 <= i < |last| ==> last[i] in [n];
    FilterNone(last, Under(v));
  }

  function Abs(x: int): nat
  {
    if x < 0 then -x else x
  }

  function Dist(a: Location, b: Location): nat
  {
    Abs(a.line - b.line) + Abs(a.column - b.column)
  }

  /** `combinations(2)`: each unordered pair once, as (s[i], s[j]) with
      i < j in lexicographic order. */
  function Pairs<T>(s: seq<T>): (r: seq<(T, T)>)
    ensures 2 * |r| == |s| * (|s| - 1)
    decreases |s|
  {
    if s == [] then []
    else seq(|s| - 1, k requires 0 <= k < |s| - 1 => (s[0], s[k + 1])) + Pairs(s[1..])
  }

  /** The pairs listed are exactly the (s[i], s[j]) with i < j. */
  lemma {:induction false} PairsMembers<T>(s: seq<T>)
    ensures forall i, j :: 0 <= i < j < |s| ==> (s[i], s[j]) in Pairs(s)
    ensures forall p :: p in Pairs(s) ==> exists i, j :: 0 <= i < j < |s| && p == (s[i], s[j])
    decreases |s|
  {
    if s != [] {
      var t := s[1..];
      PairsMembers(t);
      var head := seq(|s| - 1, k requires 0 <= k < |s| - 1 => (s[0], s[k + 1]));
      assert Pairs(s) == head + Pairs(t);
      forall i, j | 0 <= i < j < |s|
        ensures (s[i], s[j]) in Pairs(s)
      {
        if i == 0 {
          assert head[j - 1] == (s[i], s[j]);
        } else {
          assert (t[i - 1], t[j - 1]) in Pairs(t);
        }
      }
      forall p | p in Pairs(s)
        ensures exists i, j :: 0 <= i < j < |s| && p == (s[i], s[j])
      {
        if p in head {
          var k :| 0 <= k < |head| && head[k] == p;
          assert p == (s[0], s[k + 1]);
        } else {
          var i, j :| 0 <= i < j < |t| && p == (t[i], t[j]);
          assert p == (s[i + 1], s[j + 1]);
        }
      }
    }
  }

  function Dists(ps: seq<(Location, Location)>): (r: seq<int>)
    ensures |r| == |ps|
  {
    seq(|ps|, k requires 0 <= k < |ps| => Dist(ps[k].0, ps[k].1))
  }

  /** The total distance over all pairs. */
  function PairTotal(locs: seq<Location>): int
  {
    Sum(Dists(Pairs(locs)))
  }

  /** The grown distance between lines v and w: their difference plus
      `expansion` per empty line between them. */
  function Stretch(v: int, w: int, empties: seq<int>, expansion: int): int
  {
    if v <= w then (w - v) + Between(empties, v, w) * expansion
    else (v - w) + Between(empties, w, v) * expansion
  }

  /** The distance two galaxies have after the growth, reckoned line by
      line: the row gap and the column gap, each stretched by the empty
      lines between. */
  function TwoGalaxies(inp: Input, expansion: int): int
    requires |inp.locs| == 2
  {
    StretchedDist(inp.locs[0], inp.locs[1], EmptyRows(inp), EmptyCols(inp), expansion)
  }

  /** The distance two galaxies have after the growth, reckoned from their
      original positions: the row gap and the column gap, each stretched by
      the empty lines between. */
  function StretchedDist(a: Location, b: Location, emptyRows: seq<int>, emptyCols: seq<int>, expansion: int): int
  {
    Stretch(a.line, b.line, emptyRows, expansion) + Stretch(a.column, b.column, emptyCols, expansion)
  }

  /** The answer reckoned on the original sketch: over every pair i < j of
      galaxies, their stretched distance. */
  function StretchedTotal(locs: seq<Location>, emptyRows: seq<int>, emptyCols: seq<int>, expansion: int): int
  {
    Sum(StretchedDists(Pairs(locs), emptyRows, emptyCols, expansion))
  }

  function StretchedDists(ps: seq<(Location, Location)>, emptyRows: seq<int>, emptyCols: seq<int>, expansion: int): (r: seq<int>)
    ensures |r| == |ps|
  {
    seq(|ps|, k requires 0 <= k < |ps| => StretchedDist(ps[k].0, ps[k].1, emptyRows, emptyCols, expansion))
  }

  /** The stretched distances from one galaxy to each of a list. */
  function StretchedFrom(a: Location, rest: seq<Location>, emptyRows: seq<int>, emptyCols: seq<int>, expansion: int): seq<int>
  {
    seq(|rest|, k requires 0 <= k < |rest| => StretchedDist(a, rest[k], emptyRows, emptyCols, expansion))
  }

  /** The reference total splits like the grown one: the first galaxy's
      stretched distances to the others, then the total of the others. */
  lemma StretchedTotalCons(a: Location, rest: seq<Location>, emptyRows: seq<int>, emptyCols: seq<int>, expansion: int)
    ensures StretchedTotal([a] + rest, emptyRows, emptyCols, expansion) ==
      Sum(StretchedFrom(a, rest, emptyRows, emptyCols, expansion)) + StretchedTotal(rest, emptyRows, emptyCols, expansion)
  {
    var s := [a] + rest;
    assert s[1..] == rest;
    var head := seq(|s| - 1, k requires 0 <= k < |s| - 1 => (s[0], s[k + 1]));
    assert Pairs(s) == head + Pairs(rest);
    var tail := StretchedDists(Pairs(rest), emptyRows, emptyCols, expansion);
    assert StretchedDists(head + Pairs(rest), emptyRows, emptyCols, expansion) ==
      StretchedFrom(a, rest, emptyRows, emptyCols, expansion) + tail;
    SumAppend(StretchedFrom(a, rest, emptyRows, emptyCols, expansion), tail);
  }

  /** Growing two galaxies against the same empty lines makes their
      distance the stretched distance of the originals. */
  lemma ExpandDist(a: Location, b: Location, emptyRows: seq<int>, emptyCols: seq<int>, expansion: int)
    requires expansion >= 0
    ensures Dist(Expand(a, emptyRows, emptyCols, expansion), Expand(b, emptyRows, emptyCols, expansion)) ==
      StretchedDist(a, b, emptyRows, emptyCols, expansion)
  {
    var x, y := Expand(a, emptyRows, emptyCols, expansion), Expand(b, emptyRows, emptyCols, expansion);
    if a.line <= b.line {
      BeforeGap(emptyRows, a.line, b.line, expansion);
    }
    if b.line <= a.line {
      BeforeGap(emptyRows, b.line, a.line, expansion);
    }
    StretchAbs(x.line, y.line, a.line, b.line, emptyRows, expansion);
    if a.column <= b.column {
      BeforeGap(emptyCols, a.column, b.column, expansion);
    }
    if b.column <= a.column {
      BeforeGap(emptyCols, b.column, a.column, expansion);
    }
    StretchAbs(x.column, y.column, a.column, b.column, emptyCols, expansion);
  }

  /** For any list of galaxies and a non-negative expansion, the total over
      the grown galaxies is the reference total over the originals. */
  lemma {:induction false} GrownTotal(locs: seq<Location>, emptyRows: seq<int>, emptyCols: seq<int>, expansion: int)
    requires expansion >= 0
    ensures PairTotal(Grown(locs, emptyRows, emptyCols, expansion)) == StretchedTotal(locs, emptyRows, emptyCols, expansion)
    decreases |locs|
  {
    if locs == [] {
      assert Pairs(Grown(locs, emptyRows, emptyCols, expansion)) == [];
    } else {
      var a, rest := locs[0], locs[1..];
      assert locs == [a] + rest;
      var ga, gr := Expand(a, emptyRows, emptyCols, expansion), Grown(rest, emptyRows, emptyCols, expansion);
      assert Grown(locs, emptyRows, emptyCols, expansion) == [ga] + gr;
      PairTotalCons(ga, gr);
      StretchedTotalCons(a, rest, emptyRows, emptyCols, expansion);
      GrownTotal(rest, emptyRows, emptyCols, expansion);
      forall k | 0 <= k < |rest|
        ensures DistsFrom(ga, gr)[k] == StretchedFrom(a, rest, emptyRows, emptyCols, expansion)[k]
      {
        ExpandDist(a, rest[k], emptyRows, emptyCols, expansion);
      }
      assert DistsFrom(ga, gr) == StretchedFrom(a, rest, emptyRows, emptyCols, expansion);
    }
  }

  /** One axis: the grown gap between two positions is the stretch of
      their original gap. */
  lemma StretchAbs(x: int, y: int, v: int, w: int, empties: seq<int>, expansion: int)
    requires expansion >= 0
    requires v <= w ==> y - x == (w - v) + Between(empties, v, w) * expansion
    requires w <= v ==> x - y == (v - w) + Between(empties, w, v) * expansion
    ensures Abs(x - y) == Stretch(v, w, empties, expansion)
  {
    assert Between(empties, v, w) * expansion >= 0;
    assert Between(empties, w, v) * expansion >= 0;
  }

  /** With two galaxies and a non-negative expansion, the total is the
      stretched distance between them. */
  lemma ExpandedTwo(inp: Input, expansion: int)
    requires |inp.locs| == 2 && expansion >= 0
    ensures PairTotal(Expanded(inp, expansion)) == TwoGalaxies(inp, expansion)
  {
    var g := Expanded(inp, expansion);
    assert g == [g[0], g[1]];
    PairTotalTwo(g[0], g[1]);
    ExpandedGap(inp, expansion, 0, 1);
    ExpandedGap(inp, expansion, 1, 0);
    var a, b := inp.locs[0], inp.locs[1];
    var er := EmptyLines(Lines(inp.locs, false), inp.height);
    var ec := EmptyLines(Lines(inp.locs, true), inp.width);
    StretchAbs(g[0].line, g[1].line, a.line, b.line, er, expansion);
    StretchAbs(g[0].column, g[1].column, a.column, b.column, ec, expansion);
  }

  /** With at most one galaxy there are no pairs. */
  lemma PairTotalFew(locs: seq<Location>)
    requires |locs| <= 1
    ensures PairTotal(locs) == 0
  {
    assert Pairs(locs) == [];
  }

  /** `expandedDistance`: never negative, 0 with fewer than two galaxies,
      and, for a non-negative expansion, the sum over every pair of galaxies
      of their row and column gaps stretched by the empty lines between. */
  function ExpandedDistance(inp: Input, expansion: int): (r: int)
    ensures r >= 0
    ensures |inp.locs| <= 1 ==> r == 0
    ensures expansion >= 0 ==> r == StretchedTotal(inp.locs, EmptyRows(inp), EmptyCols(inp), expansion)
    ensures |inp.locs| == 2 && expansion >= 0 ==> r == TwoGalaxies(inp, expansion)
  {
    var g := Expanded(inp, expansion);
    PairTotalNonNegative(g);
    if |inp.locs| <= 1 then
      PairTotalFew(g);
      PairTotalFew(inp.locs);
      PairTotal(g)
    else if expansion >= 0 then
      GrownTotal(inp.locs, EmptyRows(inp), EmptyCols(inp), expansion);
      if |inp.locs| == 2 then
        ExpandedTwo(inp, expansion);
        PairTotal(g)
      else PairTotal(g)
    else PairTotal(g)
  }

  /** The distances from one galaxy to each of a list. */
  function DistsFrom(a: Location, rest: seq<Location>): seq<int>
  {
    seq(|rest|, k requires 0 <= k < |rest| => Dist(a, rest[k]))
  }

  /** The total splits into the first galaxy's distances to all the others
      and the total of the others. */
  lemma PairTotalCons(a: Location, rest: seq<Location>)
    ensures PairTotal([a] + rest) == Sum(DistsFrom(a, rest)) + PairTotal(rest)
  {
    var s := [a] + rest;
    assert s[1..] == rest;
    var head := seq(|s| - 1, k requires 0 <= k < |s| - 1 => (s[0], s[k + 1]));
    assert Pairs(s) == head + Pairs(rest);
    assert Dists(head + Pairs(rest)) == DistsFrom(a, rest) + Dists(Pairs(rest));
    SumAppend(DistsFrom(a, rest), Dists(Pairs(rest)));
  }

  /** No distance is negative, so neither is the total. */
  lemma PairTotalNonNegative(locs: seq<Location>)
    ensures PairTotal(locs) >= 0
  {
    SumNonNegative(Dists(Pairs(locs)));
  }

  /** Distance is symmetric, so the total of two galaxies does not depend
      on their order. */
  lemma PairTotalTwo(a: Location, b: Location)
    ensures PairTotal([a, b]) == Dist(a, b) == Dist(b, a)
  {
    PairTotalCons(a, [b]);
    assert Pairs([b]) == [];
    assert DistsFrom(a, [b]) == [Dist(a, b)];
  }

  /** Part 1: each empty line becomes two. */
  function Part1(inp: Input): (r: int)
    ensures r >= 0
    ensures |inp.locs| <= 1 ==> r == 0
    ensures r == StretchedTotal(inp.locs, EmptyRows(inp), EmptyCols(inp), 1)
    ensures |inp.locs| == 2 ==> r == TwoGalaxies(inp, 1)
  {
    ExpandedDistance(inp, 1)
  }

  /** Part 2: each empty line becomes a million. */
  function Part2(inp: Input): (r: int)
    ensures r >= 0
    ensures |inp.locs| <= 1 ==> r == 0
    ensures r == StretchedTotal(inp.locs, EmptyRows(inp), EmptyCols(inp), 999999)
    ensures |inp.locs| == 2 ==> r == TwoGalaxies(inp, 999999)
  {
    ExpandedDistance(inp, 999999)
  }
}
