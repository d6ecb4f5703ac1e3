/** Day 5 (day5.ts): an almanac of maps from one category of number to the
    next, each a list of ranges that shift part of the number line. */
module Day5 {
  import opened Outcomes
  import Sorting

  /** Numbers src..src+len-1 map to dest..dest+len-1. */
  datatype Range = Range(dest: int, src: int, len: int)

  datatype Mapping = Mapping(from: string, to: string, ranges: seq<Range>)

  datatype Almanac = Almanac(seeds: seq<int>, mappings: seq<Mapping>)

  predicate InRange(n: int, r: Range)
  {
    r.src <= n < r.src + r.len
  }

  /** `rangeMap`: the first range holding n shifts it; a number no range
      holds maps to itself. */
  function RangeMap(n: int, ranges: seq<Range>): (m: int)
  {
    if ranges == [] then n
    else if InRange(n, ranges[0]) then ranges[0].dest + (n - ranges[0].src)
    else RangeMap(n, ranges[1..])
  }

  lemma {:induction false} RangeMapFirst(n: int, ranges: seq<Range>)
    ensures forall i :: (0 <= i < |ranges| && InRange(n, ranges[i]) &&
                         (forall j :: 0 <= j < i ==> !InRange(n, ranges[j]))) ==>
                        RangeMap(n, ranges) == ranges[i].dest + (n - ranges[i].src)
    ensures (forall i :: 0 <= i < |ranges| ==> !InRange(n, ranges[i])) ==> RangeMap(n, ranges) == n
    decreases |ranges|
  {
    if ranges != [] {
      RangeMapFirst(n, ranges[1..]);
      forall i | 0 < i < |ranges| && InRange(n, ranges[i]) && (forall j :: 0 <= j < i ==> !InRange(n, ranges[j]))
        ensures RangeMap(n, ranges) == ranges[i].dest + (n - ranges[i].src)
      {
        assert !InRange(n, ranges[0]);
        assert ranges[1..][i - 1] == ranges[i];
        assert forall j :: 0 <= j < i - 1 ==> ranges[1..][j] == ranges[j + 1];
      }
    }
  }

  /** `inp[1].find(n => n[0][0] === type)`: the first map out of a
      category. */
  function FindMap(ms: seq<Mapping>, from: string): (r: Option<Mapping>)
    ensures r.Some? ==> r.value in ms && r.value.from == from
    ensures r.None? <==> forall i :: 0 <= i < |ms| ==> ms[i].from != from
  {
    if ms == [] then None
    else if ms[0].from == from then Some(ms[0])
    else
      assert forall i :: 0 < i < |ms| ==> ms[1..][i - 1] == ms[i];
      FindMap(ms[1..], from)
  }

  function MapAll(nums: seq<int>, ranges: seq<Range>): (r: seq<int>)
    ensures |r| == |nums|
    ensures forall i :: 0 <= i < |nums| ==> r[i] == RangeMap(nums[i], ranges)
  {
    seq(|nums|, i requires 0 <= i < |nums| => RangeMap(nums[i], ranges))
  }

  /** The `while (true)` loop of part 1: follow the maps from category
      `from` until none leads out of it. The source loops forever when the
      categories form a cycle; `fuel` bounds the steps, and running out
      gives None. */
  function Chain(nums: seq<int>, from: string, ms: seq<Mapping>, fuel: nat): Option<seq<int>>
    decreases fuel
  {
    match FindMap(ms, from)
    case None => Some(nums)
    case Some(m) => if fuel == 0 then None else Chain(MapAll(nums, m.ranges), m.to, ms, fuel - 1)
  }

  /** More fuel never changes an answer already reached. */
  lemma {:induction false} ChainMoreFuel(nums: seq<int>, from: string, ms: seq<Mapping>, fuel: nat, more: nat)
    requires Chain(nums, from, ms, fuel).Some?
    ensures Chain(nums, from, ms, fuel + more) == Chain(nums, from, ms, fuel)
    decreases fuel
  {
    match FindMap(ms, from)
    case None =>
    case Some(m) =>
      ChainMoreFuel(MapAll(nums, m.ranges), m.to, ms, fuel - 1, more);
  }

  /** Every number that comes out of the chain is the image of a seed under
      a run of maps: the chain keeps one number per seed. */
  lemma {:induction false} ChainLength(nums: seq<int>, from: string, ms: seq<Mapping>, fuel: nat)
    requires Chain(nums, from, ms, fuel).Some?
    ensures |Chain(nums, from, ms, fuel).value| == |nums|
    decreases fuel
  {
    match FindMap(ms, from)
    case None =>
    case Some(m) =>
      ChainLength(MapAll(nums, m.ranges), m.to, ms, fuel - 1);
  }

  /** `Math.min(...nums)`; with no numbers JavaScript gives Infinity, here
      None. */
  function Min(s: seq<int>): (r: Option<int>)
    ensures r.None? <==> s == []
    ensures r.Some? ==> r.value in s && forall i :: 0 <= i < |s| ==> r.value <= s[i]
  {
    if s == [] then None
    else
      var m := Min(s[..|s| - 1]);
      assert forall i :: 0 <= i < |s| - 1 ==> s[..|s| - 1][i] == s[i];
      if m.Some? && m.value <= s[|s| - 1] then m else Some(s[|s| - 1])
  }

  /** Part 1: the lowest location any seed reaches; None when the chain of
      maps does not end within one step per map, or there are no seeds. */
  function Part1(alm: Almanac): (r: Option<int>)
    ensures var c := Chain(alm.seeds, "seed", alm.mappings, |alm.mappings|);
      (r.Some? <==> c.Some? && alm.seeds != []) &&
      (c.Some? ==> |c.value| == |alm.seeds|) &&
      (r.Some? ==> exists i :: 0 <= i < |c.value| && c.value[i] == r.value && forall j :: 0 <= j < |c.value| ==> r.value <= c.value[j])
  {
    match Chain(alm.seeds, "seed", alm.mappings, |alm.mappings|)
    case None => None
    case Some(nums) =>
      ChainLength(alm.seeds, "seed", alm.mappings, |alm.mappings|);
      Min(nums)
  }

  /** `splitRanges` as written. An input interval [start, start+count) is
      cut against the ranges in order. The test for an input that ends
      inside a range it starts before also accepts an input that ends just
      where the range begins, and the piece emitted then has length
      endSrc - endInp (the part of the range past the input) rather than
      endInp - r.src (the part the input covers). The inner test of that
      branch always holds, so its other arm is left out. */
  function SplitAsWritten(start: int, count: int, ranges: seq<Range>): (r: seq<(int, int)>)
    ensures |r| <= |ranges| + 1
    decreases |ranges|
  {
    if ranges == [] then (if count > 0 then [(start, count)] else [])
    else
      var r := ranges[0];
      var endSrc, endInp := r.src + r.len, start + count;
      if start >= r.src && start < endSrc then
        if endInp <= endSrc then [(r.dest + (start - r.src), count)]
        else [(r.dest + (start - r.src), endSrc - start)] + SplitAsWritten(endSrc, endInp - endSrc, ranges[1..])
      else if endInp >= r.src && endInp <= endSrc then
        [(start, r.src - start), (r.dest, endSrc - endInp)]
      else SplitAsWritten(start, count, ranges[1..])
  }

  /** The corrected split: an input ending where a range begins does not
      overlap it, and the end-overlap piece covers r.src..endInp. */
  function Split(start: int, count: int, ranges: seq<Range>): (r: seq<(int, int)>)
    ensures |r| <= |ranges| + 1
    decreases |ranges|
  {
    if ranges == [] then (if count > 0 then [(start, count)] else [])
    else
      var r := ranges[0];
      var endSrc, endInp := r.src + r.len, start + count;
      if start >= r.src && start < endSrc then
        if endInp <= endSrc then [(r.dest + (start - r.src), count)]
        else [(r.dest + (start - r.src), endSrc - start)] + Split(endSrc, endInp - endSrc, ranges[1..])
      else if endInp > r.src && endInp <= endSrc then
        [(start, r.src - start), (r.dest, endInp - r.src)]
      else Split(start, count, ranges[1..])
  }

  /** The numbers a list of pieces covers. */
  function Lengths(pieces: seq<(int, int)>): int
  {
    if pieces == [] then 0 else pieces[0].1 + Lengths(pieces[1..])
  }

  lemma {:induction false} LengthsAppend(a: seq<(int, int)>, b: seq<(int, int)>)
    ensures Lengths(a + b) == Lengths(a) + Lengths(b)
    decreases |a|
  {
    if a != [] {
      assert (a + b)[0] == a[0];
      assert (a + b)[1..] == a[1..] + b;
      LengthsAppend(a[1..], b);
    } else {
      assert a + b == b;
    }
  }

  /** The corrected split hands on exactly as many numbers as it receives. */
  lemma {:induction false} SplitKeepsLength(start: int, count: int, ranges: seq<Range>)
    requires count >= 0
    ensures Lengths(Split(start, count, ranges)) == count
    decreases |ranges|
  {
    if ranges != [] {
      var r := ranges[0];
      var endSrc, endInp := r.src + r.len, start + count;
      if start >= r.src && start < endSrc {
        if endInp > endSrc {
          var rest := Split(endSrc, endInp - endSrc, ranges[1..]);
          SplitKeepsLength(endSrc, endInp - endSrc, ranges[1..]);
          LengthsAppend([(r.dest + (start - r.src), endSrc - start)], rest);
        }
      } else if endInp > r.src && endInp <= endSrc {
        var pieces := [(start, r.src - start), (r.dest, endInp - r.src)];
        assert Split(start, count, ranges) == pieces;
        assert pieces[1..][1..] == [];
        assert Lengths(pieces[1..]) == endInp - r.src;
      } else {
        assert Split(start, count, ranges) == Split(start, count, ranges[1..]);
        SplitKeepsLength(start, count, ranges[1..]);
      }
    }
  }

  /** Given a non-empty input, every piece of the corrected split is
      non-empty. */
  lemma {:induction false} SplitPiecesNonEmpty(start: int, count: int, ranges: seq<Range>)
    requires count > 0
    ensures forall i :: 0 <= i < |Split(start, count, ranges)| ==> Split(start, count, ranges)[i].1 > 0
    decreases |ranges|
  {
    if ranges != [] {
      var r := ranges[0];
      var endSrc, endInp := r.src + r.len, start + count;
      if start >= r.src && start < endSrc {
        if endInp > endSrc {
          SplitPiecesNonEmpty(endSrc, endInp - endSrc, ranges[1..]);
        }
      } else if !(endInp > r.src && endInp <= endSrc) {
        SplitPiecesNonEmpty(start, count, ranges[1..]);
      }
    }
  }

  /** As written, the input [0, 5) against a range of 10 numbers from 3
      comes out as 3 numbers plus 8: more than went in. */
  lemma SplitAsWrittenGrows()
    ensures SplitAsWritten(0, 5, [Range(100, 3, 10)]) == [(0, 3), (100, 8)]
    ensures Lengths(SplitAsWritten(0, 5, [Range(100, 3, 10)])) == 11
    ensures Split(0, 5, [Range(100, 3, 10)]) == [(0, 3), (100, 2)]
  {
  }

  /** As written, the input [0, 3), which stops just before a range from 3,
      also yields a piece at that range's destination, so 100 is offered as
      a location although no seed reaches it. */
  lemma SplitAsWrittenTouching()
    ensures SplitAsWritten(0, 3, [Range(100, 3, 10)]) == [(0, 3), (100, 10)]
    ensures Split(0, 3, [Range(100, 3, 10)]) == [(0, 3)]
  {
  }

  /** Ranges laid end to end, with no gaps between them. */
  predicate Contiguous(ranges: seq<Range>)
  {
    forall i :: 0 <= i < |ranges| - 1 ==> ranges[i + 1].src == ranges[i].src + ranges[i].len
  }

  /** On contiguous ranges, for an input starting at or after the first
      one, the end-overlap branch never runs, so the two splits agree. */
  lemma {:induction false} SplitAgrees(start: int, count: int, ranges: seq<Range>)
    requires Contiguous(ranges) && count > 0
    requires ranges != [] ==> ranges[0].src <= start
    ensures SplitAsWritten(start, count, ranges) == Split(start, count, ranges)
    decreases |ranges|
  {
    if ranges != [] {
      var r := ranges[0];
      var endSrc, endInp := r.src + r.len, start + count;
      var tail := ranges[1..];
      assert Contiguous(tail) by {
        forall i | 0 <= i < |tail| - 1
          ensures tail[i + 1].src == tail[i].src + tail[i].len
        {
          assert tail[i] == ranges[i + 1] && tail[i + 1] == ranges[i + 2];
        }
      }
      if tail != [] {
        assert tail[0].src == endSrc;
      }
      if start >= r.src && start < endSrc {
        if endInp > endSrc {
          SplitAgrees(endSrc, endInp - endSrc, tail);
        }
      } else {
        SplitAgrees(start, count, tail);
      }
    }
  }

  /** An input inside one range comes out as a single shifted piece, which
      starts where the range maps the input's first number; both splits
      take this branch alike. */
  lemma SplitInside(start: int, count: int, r: Range, rest: seq<Range>)
    requires r.src <= start && start + count <= r.src + r.len && count > 0
    ensures Split(start, count, [r] + rest) == [(r.dest + (start - r.src), count)]
    ensures SplitAsWritten(start, count, [r] + rest) == Split(start, count, [r] + rest)
    ensures Split(start, count, [r] + rest)[0].0 == RangeMap(start, [r] + rest)
  {
  }

  /** An input that starts inside a range and runs past it is mapped up to
      the range's end, and the rest carries on from there, in both
      splits. */
  lemma SplitPrefix(start: int, count: int, r: Range, rest: seq<Range>)
    requires r.src <= start < r.src + r.len < start + count
    ensures Split(start, count, [r] + rest) ==
      [(r.dest + (start - r.src), r.src + r.len - start)] + Split(r.src + r.len, start + count - (r.src + r.len), rest)
    ensures SplitAsWritten(start, count, [r] + rest) ==
      [(r.dest + (start - r.src), r.src + r.len - start)] + SplitAsWritten(r.src + r.len, start + count - (r.src + r.len), rest)
  {
    assert ([r] + rest)[1..] == rest;
  }

  /** An input that starts before a range and ends inside it is cut at the
      range's start: the part before keeps its numbers, the rest is moved.
      As written the moved piece counts the numbers of the range past the
      input's end instead of those the input covers. */
  lemma SplitSuffix(start: int, count: int, r: Range, rest: seq<Range>)
    requires start < r.src < start + count <= r.src + r.len
    ensures Split(start, count, [r] + rest) == [(start, r.src - start), (r.dest, start + count - r.src)]
    ensures SplitAsWritten(start, count, [r] + rest) == [(start, r.src - start), (r.dest, r.src + r.len - (start + count))]
  {
  }

  /** Whatever no range touches comes out unmapped. */
  lemma {:induction false} SplitUntouched(start: int, count: int, ranges: seq<Range>)
    requires count > 0
    requires forall i :: 0 <= i < |ranges| ==> start + count <= ranges[i].src || ranges[i].src + ranges[i].len <= start
    ensures Split(start, count, ranges) == [(start, count)]
    decreases |ranges|
  {
    if ranges != [] {
      assert forall i :: 0 <= i < |ranges[1..]| ==> ranges[1..][i] == ranges[i + 1];
      SplitUntouched(start, count, ranges[1..]);
    }
  }

  /** Every map's ranges move numbers to non-negative destinations. */
  predicate DestsNonNegative(ranges: seq<Range>)
  {
    forall i :: 0 <= i < |ranges| ==> ranges[i].dest >= 0
  }

  predicate MapsNonNegative(ms: seq<Mapping>)
  {
    forall i :: 0 <= i < |ms| ==> DestsNonNegative(ms[i].ranges)
  }

  /** Intervals with non-negative starts and positive lengths. */
  predicate Proper(ivs: seq<(int, int)>)
  {
    forall i :: 0 <= i < |ivs| ==> ivs[i].0 >= 0 && ivs[i].1 > 0
  }

  predicate StartsNonNegative(ivs: seq<(int, int)>)
  {
    forall i :: 0 <= i < |ivs| ==> ivs[i].0 >= 0
  }

  /** Both splits keep starts non-negative when the input's start and every
      destination are. */
  lemma {:induction false} SplitStarts(start: int, count: int, ranges: seq<Range>)
    ensures start >= 0 && DestsNonNegative(ranges) ==> StartsNonNegative(Split(start, count, ranges))
    ensures start >= 0 && DestsNonNegative(ranges) ==> StartsNonNegative(SplitAsWritten(start, count, ranges))
    decreases |ranges|
  {
    if ranges != [] && start >= 0 && DestsNonNegative(ranges) {
      var r := ranges[0];
      assert r.dest >= 0;
      assert DestsNonNegative(ranges[1..]) by {
        assert forall i :: 0 <= i < |ranges[1..]| ==> ranges[1..][i] == ranges[i + 1];
      }
      var endSrc, endInp := r.src + r.len, start + count;
      if start >= r.src && start < endSrc {
        if endInp > endSrc {
          SplitStarts(endSrc, endInp - endSrc, ranges[1..]);
        }
      } else {
        SplitStarts(start, count, ranges[1..]);
      }
    }
  }

  lemma MemberDests(ms: seq<Mapping>, m: Mapping)
    requires m in ms
    ensures MapsNonNegative(ms) ==> DestsNonNegative(m.ranges)
  {
    var k :| 0 <= k < |ms| && ms[k] == m;
  }

  /** One category step of part 2 as written: every interval split against
      the map with `splitRanges`, the pieces concatenated in order. */
  function SplitAll(ivs: seq<(int, int)>, ranges: seq<Range>): (r: seq<(int, int)>)
    ensures StartsNonNegative(ivs) && DestsNonNegative(ranges) ==> StartsNonNegative(r)
    decreases |ivs|
  {
    if ivs == [] then []
    else
      var head, tail := SplitAsWritten(ivs[0].0, ivs[0].1, ranges), SplitAll(ivs[1..], ranges);
      assert forall i :: 0 <= i < |ivs[1..]| ==> ivs[1..][i] == ivs[i + 1];
      SplitStarts(ivs[0].0, ivs[0].1, ranges);
      assert forall i :: 0 <= i < |head + tail| ==> (head + tail)[i] == if i < |head| then head[i] else tail[i - |head|];
      head + tail
  }

  /** The same step with the corrected split. */
  function SplitAllFixed(ivs: seq<(int, int)>, ranges: seq<Range>): seq<(int, int)>
  {
    if ivs == [] then [] else Split(ivs[0].0, ivs[0].1, ranges) + SplitAllFixed(ivs[1..], ranges)
  }

  /** The corrected step hands on exactly as many numbers as it receives. */
  lemma {:induction false} SplitAllKeepsLength(ivs: seq<(int, int)>, ranges: seq<Range>)
    requires forall i :: 0 <= i < |ivs| ==> ivs[i].1 >= 0
    ensures Lengths(SplitAllFixed(ivs, ranges)) == Lengths(ivs)
    decreases |ivs|
  {
    if ivs != [] {
      SplitKeepsLength(ivs[0].0, ivs[0].1, ranges);
      SplitAllKeepsLength(ivs[1..], ranges);
      LengthsAppend(Split(ivs[0].0, ivs[0].1, ranges), SplitAllFixed(ivs[1..], ranges));
    }
  }

  /** The corrected step never produces an empty piece. */
  lemma {:induction false} SplitAllNonEmpty(ivs: seq<(int, int)>, ranges: seq<Range>)
    requires forall i :: 0 <= i < |ivs| ==> ivs[i].1 > 0
    ensures forall i :: 0 <= i < |SplitAllFixed(ivs, ranges)| ==> SplitAllFixed(ivs, ranges)[i].1 > 0
    decreases |ivs|
  {
    if ivs != [] {
      SplitPiecesNonEmpty(ivs[0].0, ivs[0].1, ranges);
      SplitAllNonEmpty(ivs[1..], ranges);
    }
  }

  /** A map fit for the two steps to agree: contiguous ranges that start
      at or below 0 and move numbers to non-negative places. */
  predicate Tame(ranges: seq<Range>)
  {
    Contiguous(ranges) && (ranges != [] ==> ranges[0].src <= 0) && DestsNonNegative(ranges)
  }

  /** On a tame map, the step as written and the corrected step agree on
      proper intervals, and hand on proper intervals. */
  lemma {:induction false} SplitAllAgrees(ivs: seq<(int, int)>, ranges: seq<Range>)
    requires Tame(ranges) && Proper(ivs)
    ensures SplitAll(ivs, ranges) == SplitAllFixed(ivs, ranges)
    ensures Proper(SplitAllFixed(ivs, ranges))
    decreases |ivs|
  {
    if ivs != [] {
      var s, c := ivs[0].0, ivs[0].1;
      assert s >= 0 && c > 0;
      assert Proper(ivs[1..]) by {
        assert forall i :: 0 <= i < |ivs[1..]| ==> ivs[1..][i] == ivs[i + 1];
      }
      SplitAgrees(s, c, ranges);
      SplitStarts(s, c, ranges);
      SplitPiecesNonEmpty(s, c, ranges);
      SplitAllAgrees(ivs[1..], ranges);
      var head: seq<(int, int)>, tail: seq<(int, int)> := Split(s, c, ranges), SplitAllFixed(ivs[1..], ranges);
      assert SplitAllFixed(ivs, ranges) == head + tail;
      forall i | 0 <= i < |head + tail|
        ensures (head + tail)[i].0 >= 0 && (head + tail)[i].1 > 0
      {
        if i < |head| {
          assert (head + tail)[i] == head[i];
        } else {
          assert (head + tail)[i] == tail[i - |head|];
        }
      }
    }
  }

  /** `new Sequence(seeds).chunks(2)`: the seeds read as (start, length)
      pairs. */
  function Pairs(seeds: seq<int>): (r: seq<(int, int)>)
    ensures |r| == |seeds| / 2
    ensures forall i :: 0 <= i < |r| ==> r[i] == (seeds[2 * i], seeds[2 * i + 1])
    decreases |seeds|
  {
    if |seeds| < 2 then []
    else
      var rest := Pairs(seeds[2..]);
      assert forall i :: 0 <= i < |rest| ==> seeds[2..][2 * i] == seeds[2 * (i + 1)];
      [(seeds[0], seeds[1])] + rest
  }

  /** The `while (true)` loop of part 2 as written, bounded by fuel as in
      part 1: the intervals split map after map with `splitRanges`. */
  function ChainIntervals(ivs: seq<(int, int)>, from: string, ms: seq<Mapping>, fuel: nat): (r: Option<seq<(int, int)>>)
    ensures r.Some? && StartsNonNegative(ivs) && MapsNonNegative(ms) ==> StartsNonNegative(r.value)
    decreases fuel
  {
    match FindMap(ms, from)
    case None => Some(ivs)
    case Some(m) =>
      if fuel == 0 then None
      else
        MemberDests(ms, m);
        ChainIntervals(SplitAll(ivs, m.ranges), m.to, ms, fuel - 1)
  }

  /** The same loop with the corrected split. */
  function ChainIntervalsFixed(ivs: seq<(int, int)>, from: string, ms: seq<Mapping>, fuel: nat): Option<seq<(int, int)>>
    decreases fuel
  {
    match FindMap(ms, from)
    case None => Some(ivs)
    case Some(m) => if fuel == 0 then None else ChainIntervalsFixed(SplitAllFixed(ivs, m.ranges), m.to, ms, fuel - 1)
  }

  /** Following the maps with the corrected split keeps the count of seeds
      covered, and every interval non-empty, when every seed interval
      starts non-empty. */
  lemma {:induction false} ChainIntervalsKeepsLength(ivs: seq<(int, int)>, from: string, ms: seq<Mapping>, fuel: nat)
    requires forall i :: 0 <= i < |ivs| ==> ivs[i].1 > 0
    requires ChainIntervalsFixed(ivs, from, ms, fuel).Some?
    ensures Lengths(ChainIntervalsFixed(ivs, from, ms, fuel).value) == Lengths(ivs)
    ensures forall i :: 0 <= i < |ChainIntervalsFixed(ivs, from, ms, fuel).value| ==> ChainIntervalsFixed(ivs, from, ms, fuel).value[i].1 > 0
    decreases fuel
  {
    match FindMap(ms, from)
    case None =>
    case Some(m) =>
      var next := SplitAllFixed(ivs, m.ranges);
      SplitAllKeepsLength(ivs, m.ranges);
      SplitAllNonEmpty(ivs, m.ranges);
      ChainIntervalsKeepsLength(next, m.to, ms, fuel - 1);
  }

  /** When every map is tame, the loop as written and the corrected loop
      agree on proper seed intervals. */
  lemma {:induction false} ChainIntervalsAgree(ivs: seq<(int, int)>, from: string, ms: seq<Mapping>, fuel: nat)
    requires forall i :: 0 <= i < |ms| ==> Tame(ms[i].ranges)
    requires Proper(ivs)
    ensures ChainIntervals(ivs, from, ms, fuel) == ChainIntervalsFixed(ivs, from, ms, fuel)
    decreases fuel
  {
    match FindMap(ms, from)
    case None =>
    case Some(m) =>
      if fuel > 0 {
        var k :| 0 <= k < |ms| && ms[k] == m;
        assert Tame(m.ranges);
        SplitAllAgrees(ivs, m.ranges);
        ChainIntervalsAgree(SplitAllFixed(ivs, m.ranges), m.to, ms, fuel - 1);
      }
  }

  function Starts(ivs: seq<(int, int)>): (r: seq<int>)
    ensures |r| == |ivs|
    ensures forall i :: 0 <= i < |ivs| ==> r[i] == ivs[i].0
  {
    seq(|ivs|, i requires 0 <= i < |ivs| => ivs[i].0)
  }

  /** Part 2 as written: the lowest start of any interval the seed ranges
      reach through `splitRanges`. (The source sorts the intervals first,
      which does not change the minimum.) With non-negative seeds and
      destinations the answer is never negative. */
  function Part2(alm: Almanac): (r: Option<int>)
    ensures r.Some? && StartsNonNegative(Pairs(alm.seeds)) && MapsNonNegative(alm.mappings) ==> r.value >= 0
  {
    match ChainIntervals(Pairs(alm.seeds), "seed", alm.mappings, |alm.mappings|)
    case None => None
    case Some(ivs) => Min(Starts(ivs))
  }

  /** Part 2 with the corrected split. */
  function Part2Fixed(alm: Almanac): Option<int>
  {
    match ChainIntervalsFixed(Pairs(alm.seeds), "seed", alm.mappings, |alm.mappings|)
    case None => None
    case Some(ivs) => Min(Starts(ivs))
  }

  /** On tame maps and proper seed pairs, part 2 as written gives the
      corrected answer. */
  lemma Part2Agrees(alm: Almanac)
    requires forall i :: 0 <= i < |alm.mappings| ==> Tame(alm.mappings[i].ranges)
    requires Proper(Pairs(alm.seeds))
    ensures Part2(alm) == Part2Fixed(alm)
  {
    ChainIntervalsAgree(Pairs(alm.seeds), "seed", alm.mappings, |alm.mappings|);
  }

  /** The one seed 9 and the map that sends 10..14 to 0..4, prepared with its
      filler range 0..8. As written, the seed interval [9, 10) ends where
      the second range begins, so `splitRanges` also emits [0, 5) and part 2
      answers 0; corrected, the seed passes through unmapped and part 2
      answers 9, as part 1 does. */
  lemma Part2Diverges()
    ensures var m := Mapping("seed", "location", [Range(0, 10, 5)]);
      Prepare(m) == Ok(Mapping("seed", "location", [Range(0, 0, 9), Range(0, 10, 5)]))
    ensures var alm := Almanac([9, 1], [Mapping("seed", "location", [Range(0, 0, 9), Range(0, 10, 5)])]);
      Part2(alm) == Some(0) && Part2Fixed(alm) == Some(9)
  {
    var m := Mapping("seed", "location", [Range(0, 10, 5)]);
    var sorted := Sorting.Sort(m.ranges, SrcLe);
    assert sorted[0] in multiset(m.ranges);
    assert sorted == m.ranges;
    assert sorted[0].src != 0;
    assert Prepare(m) == Ok(Mapping(m.from, m.to, [Filler(sorted[0].src)] + sorted));
    assert [Filler(sorted[0].src)] + sorted == [Range(0, 0, 9), Range(0, 10, 5)];
    var alm := Almanac([9, 1], [Mapping("seed", "location", [Range(0, 0, 9), Range(0, 10, 5)])]);
    assert Pairs(alm.seeds) == [(9, 1)];
    assert SplitAll([(9, 1)], [Range(0, 0, 9), Range(0, 10, 5)]) == [(9, 1), (0, 5)];
    assert SplitAllFixed([(9, 1)], [Range(0, 0, 9), Range(0, 10, 5)]) == [(9, 1)];
    assert FindMap(alm.mappings, "location") == None;
    assert Starts([(9, 1), (0, 5)]) == [9, 0];
    assert Starts([(9, 1)]) == [9];
  }

  predicate SrcLe(a: Range, b: Range)
  {
    a.src <= b.src
  }

  /** The range put in front of a map whose first range starts at src > 0:
      it maps numbers to themselves and covers 0..src-2, one short of src. */
  function Filler(src: int): Range
  {
    Range(0, 0, src - 1)
  }

  /** The preparation in `main`: each map's ranges sorted by source, and a
      filler range from 0 put in front when the first starts elsewhere. A
      map without ranges makes the source fail reading the first one. */
  function Prepare(m: Mapping): (r: Result<Mapping>)
    ensures r.Err? <==> m.ranges == []
    ensures r.Ok? ==> r.value.from == m.from && r.value.to == m.to
    ensures r.Ok? ==> |r.value.ranges| >= 1 && r.value.ranges[0].src == 0
    ensures r.Ok? ==> multiset(m.ranges) <= multiset(r.value.ranges)
    ensures r.Ok? ==> |r.value.ranges| <= |m.ranges| + 1
  {
    if m.ranges == [] then Err("Cannot read properties of undefined")
    else
      var sorted := Sorting.Sort(m.ranges, SrcLe);
      if sorted[0].src != 0 then
        Ok(Mapping(m.from, m.to, [Filler(sorted[0].src)] + sorted))
      else Ok(Mapping(m.from, m.to, sorted))
  }

  /** With non-negative sources, the prepared ranges are in source order. */
  lemma PrepareSorted(m: Mapping)
    requires forall i :: 0 <= i < |m.ranges| ==> m.ranges[i].src >= 0
    ensures Prepare(m).Ok? ==> Sorting.SortedBy(Prepare(m).value.ranges, SrcLe)
  {
    if m.ranges != [] {
      var sorted := Sorting.Sort(m.ranges, SrcLe);
      Sorting.SortSorted(m.ranges, SrcLe);
      assert sorted[0] in multiset(m.ranges);
      if sorted[0].src != 0 {
        FillerSorted(sorted);
      }
    }
  }

  lemma FillerSorted(sorted: seq<Range>)
    requires sorted != [] && sorted[0].src >= 0
    requires Sorting.SortedBy(sorted, SrcLe)
    ensures Sorting.SortedBy([Filler(sorted[0].src)] + sorted, SrcLe)
  {
    var rs := [Filler(sorted[0].src)] + sorted;
    forall i, j | 0 <= i < j < |rs|
      ensures SrcLe(rs[i], rs[j])
    {
      assert rs[j] == sorted[j - 1];
      if i > 0 {
        assert rs[i] == sorted[i - 1];
      } else if j > 1 {
        assert SrcLe(sorted[0], sorted[j - 1]);
      }
    }
  }

  /** The filler changes no mapping: a number it holds lies below every
      other range, so without it the number would map to itself too. */
  lemma FillerMapsNothing(n: int, rs: seq<Range>)
    requires rs != [] && rs[0].src > 0
    requires forall i :: 0 <= i < |rs| ==> rs[0].src <= rs[i].src
    ensures RangeMap(n, [Filler(rs[0].src)] + rs) == RangeMap(n, rs)
  {
    var all := [Filler(rs[0].src)] + rs;
    assert all[1..] == rs;
    if InRange(n, all[0]) {
      RangeMapFirst(n, rs);
    }
  }
}
