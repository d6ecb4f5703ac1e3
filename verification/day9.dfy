/** Day 9 (day9.ts): extrapolating a history by its tower of differences. */
module Day9 {
  import opened Outcomes

  /** `windows(2).map(([a, b]) => b - a)`: one fewer element than the row. */
  function Diffs(row: seq<int>): (d: seq<int>)
    ensures |d| == if row == [] then 0 else |row| - 1
    ensures forall i :: 0 <= i < |d| ==> d[i] == row[i + 1] - row[i]
  {
    if row == [] then [] else seq(|row| - 1, i requires 0 <= i < |row| - 1 => row[i + 1] - row[i])
  }

  predicate AllZero(row: seq<int>)
  {
    forall i :: 0 <= i < |row| ==> row[i] == 0
  }

  /** The do-while loop: `rows` starts with the history, and each pass pushes
      the differences of the last row, stopping once a pushed row is all
      zeros (an empty row counts). Each row is one shorter than the one
      before, so the loop ends. */
  function Rows(h: seq<int>): (rows: seq<seq<int>>)
    ensures |rows| >= 2 && rows[0] == h
    ensures AllZero(rows[|rows| - 1])
    decreases |h|
  {
    var d := Diffs(h);
    if AllZero(d) then [h, d]
    else
      var rest := Rows(d);
      LastOfCons(h, rest);
      [h] + rest
  }

  lemma LastOfCons<T>(x: T, s: seq<T>)
    requires |s| >= 1
    ensures |[x] + s| >= 2 && ([x] + s)[0] == x && ([x] + s)[|s|] == s[|s| - 1]
  {
  }

  /** Each row holds the differences of the one before, and only the last
      pushed row is all zeros. */
  lemma {:induction false} RowsShape(h: seq<int>, i: nat)
    requires i < |Rows(h)| - 1
    ensures Rows(h)[i + 1] == Diffs(Rows(h)[i])
    ensures i >= 1 ==> !AllZero(Rows(h)[i])
    decreases |h|
  {
    var d := Diffs(h);
    if !AllZero(d) && i >= 1 {
      RowsShape(d, i - 1);
      assert Rows(h)[i] == Rows(d)[i - 1] && Rows(h)[i + 1] == Rows(d)[i];
    }
  }

  /** One call of the reducer: part 1 adds the row's last element, part 2
      subtracts the running value from its first. An empty row has neither
      (JavaScript reads `undefined`), and the result is NaN, here None,
      which every later step keeps. */
  function Step(t: Option<int>, r: seq<int>, back: bool): Option<int>
  {
    if t.None? || r == [] then None
    else if back then Some(r[0] - t.value)
    else Some(t.value + r[|r| - 1])
  }

  /** `rows.reduceRight(fn, 0)`. */
  function ReduceRight(rows: seq<seq<int>>, back: bool): Option<int>
  {
    if rows == [] then Some(0) else Step(ReduceRight(rows[1..], back), rows[0], back)
  }

  /** What `diffs` adds for one history: `rows.reduceRight(fn, 0)`, the
      next value (part 1) or the one before (part 2). */
  function Value(h: seq<int>, back: bool): Option<int>
  {
    ReduceRight(Rows(h), back)
  }

  /** Extrapolation by differences, by recursion on the history: the value
      the rows below supply, combined with the history's own end. */
  function Extrapolate(h: seq<int>, back: bool): Option<int>
    decreases |h|, 0
  {
    if h == [] then None else Step(Below(Diffs(h), back), h, back)
  }

  /** The value the rows below a history supply: the all-zero row gives 0
      (NaN when empty), any other row its own extrapolation. */
  function Below(d: seq<int>, back: bool): Option<int>
    decreases |d|, 1
  {
    if AllZero(d) then Step(Some(0), d, back) else Extrapolate(d, back)
  }

  lemma ExtrapolateUnfold(h: seq<int>, back: bool)
    ensures Extrapolate(h, back) == Step(Below(Diffs(h), back), h, back)
  {
  }

  /** The reduce over the pushed rows is the recursive extrapolation. */
  lemma {:induction false} ValueIsExtrapolate(h: seq<int>, back: bool)
    ensures Value(h, back) == Extrapolate(h, back)
    decreases |h|
  {
    var d := Diffs(h);
    if AllZero(d) {
      assert Rows(h) == [h, d];
      assert Rows(h)[1..] == [d];
      assert [d][1..] == [];
      assert ReduceRight([d], back) == Step(Some(0), d, back);
    } else {
      assert Rows(h) == [h] + Rows(d);
      assert Rows(h)[1..] == Rows(d);
      ValueIsExtrapolate(d, back);
    }
  }

  function Reverse(s: seq<int>): (r: seq<int>)
    ensures |r| == |s|
    ensures forall i :: 0 <= i < |s| ==> r[i] == s[|s| - 1 - i]
  {
    seq(|s|, i requires 0 <= i < |s| => s[|s| - 1 - i])
  }

  function Neg(s: seq<int>): (r: seq<int>)
    ensures |r| == |s|
    ensures forall i :: 0 <= i < |s| ==> r[i] == -s[i]
  {
    seq(|s|, i requires 0 <= i < |s| => -s[i])
  }

  function NegOpt(x: Option<int>): Option<int>
  {
    if x.None? then None else Some(-x.value)
  }

  lemma DiffsReverse(h: seq<int>)
    ensures Diffs(Reverse(h)) == Neg(Reverse(Diffs(h)))
  {
    var a, b := Diffs(Reverse(h)), Neg(Reverse(Diffs(h)));
    forall i | 0 <= i < |a|
      ensures a[i] == b[i]
    {
      DiffsReverseAt(h, i);
    }
  }

  lemma DiffsReverseAt(h: seq<int>, i: nat)
    requires i + 1 < |h|
    ensures Diffs(Reverse(h))[i] == Neg(Reverse(Diffs(h)))[i]
  {
    var r, d, n := Reverse(h), Diffs(h), |h|;
    var j := n - 2 - i;
    var x, y := Diffs(r), Reverse(d);
    assert x[i] == r[i + 1] - r[i];
    assert r[i + 1] == h[j] && r[i] == h[j + 1];
    assert y[i] == d[j];
    assert d[j] == h[j + 1] - h[j];
  }

  lemma DiffsNeg(h: seq<int>)
    ensures Diffs(Neg(h)) == Neg(Diffs(h))
  {
    var a, b := Diffs(Neg(h)), Neg(Diffs(h));
    forall i | 0 <= i < |a|
      ensures a[i] == b[i]
    {
      assert a[i] == Neg(h)[i + 1] - Neg(h)[i];
    }
  }

  lemma ZeroNeg(d: seq<int>)
    ensures AllZero(Neg(d)) <==> AllZero(d)
  {
    if AllZero(Neg(d)) {
      forall i | 0 <= i < |d|
        ensures d[i] == 0
      {
        assert Neg(d)[i] == 0;
      }
    }
  }

  lemma ZeroReverse(d: seq<int>)
    ensures AllZero(Reverse(d)) <==> AllZero(d)
  {
    if AllZero(Reverse(d)) {
      forall i | 0 <= i < |d|
        ensures d[i] == 0
      {
        assert Reverse(d)[|d| - 1 - i] == 0;
      }
    }
  }

  /** The reducer commutes with negation. */
  lemma StepNeg(t: Option<int>, r: seq<int>, back: bool)
    ensures Step(NegOpt(t), Neg(r), back) == NegOpt(Step(t, r, back))
  {
  }

  /** Extrapolation is odd: negating the history negates the answer. */
  lemma {:induction false} ExtrapolateNeg(h: seq<int>, back: bool)
    ensures Extrapolate(Neg(h), back) == NegOpt(Extrapolate(h, back))
    decreases |h|
  {
    var d := Diffs(h);
    ExtrapolateUnfold(h, back);
    ExtrapolateUnfold(Neg(h), back);
    DiffsNeg(h);
    ZeroNeg(d);
    if AllZero(d) {
      StepNeg(Some(0), d, back);
    } else {
      ExtrapolateNeg(d, back);
    }
    assert Below(Neg(d), back) == NegOpt(Below(d, back));
    StepNeg(Below(d, back), h, back);
  }

  /** The reducer of part 2 on a row is the reducer of part 1 on the row
      reversed, fed the negated running value. */
  lemma StepReverse(t: Option<int>, r: seq<int>)
    ensures Step(t, r, true) == Step(NegOpt(t), Reverse(r), false)
  {
  }

  /** Part 2 on a history is part 1 on the history reversed. */
  lemma {:induction false} BackIsReversedForward(h: seq<int>)
    ensures Extrapolate(h, true) == Extrapolate(Reverse(h), false)
    decreases |h|
  {
    var d := Diffs(h);
    var e := Reverse(d);
    ExtrapolateUnfold(h, true);
    ExtrapolateUnfold(Reverse(h), false);
    DiffsReverse(h);
    ZeroNeg(e);
    ZeroReverse(d);
    if AllZero(d) {
      assert Below(Neg(e), false) == NegOpt(Below(d, true));
    } else {
      BackIsReversedForward(d);
      ExtrapolateNeg(e, false);
      assert Below(Neg(e), false) == NegOpt(Below(d, true));
    }
    StepReverse(Below(d, true), h);
  }

  /** A constant row of at least two numbers extrapolates to itself both
      ways. */
  lemma Constant(h: seq<int>, c: int)
    requires |h| >= 2 && forall i :: 0 <= i < |h| ==> h[i] == c
    ensures Extrapolate(h, false) == Some(c) && Extrapolate(h, true) == Some(c)
  {
    var d := Diffs(h);
    assert AllZero(d) && |d| >= 1;
    var f, g := Below(d, false), Below(d, true);
    assert f == Some(0) && g == Some(0);
    ExtrapolateUnfold(h, false);
    ExtrapolateUnfold(h, true);
    assert Step(f, h, false) == Some(c) && Step(g, h, true) == Some(c);
  }

  /** Below a row of constant differences k the rows supply k. */
  lemma BelowConstant(d: seq<int>, k: int, back: bool)
    requires |d| >= 2 && forall i :: 0 <= i < |d| ==> d[i] == k
    ensures Below(d, back) == Some(k)
  {
    Constant(d, k);
    if k == 0 {
      assert AllZero(d);
    } else {
      assert d[0] != 0;
    }
  }

  /** On an arithmetic progression of at least three numbers, each
      difference being k, part 1 gives the next term and part 2 the one
      before the first. */
  lemma Arithmetic(h: seq<int>, k: int, back: bool)
    requires |h| >= 3 && forall i :: 0 <= i < |Diffs(h)| ==> Diffs(h)[i] == k
    ensures Extrapolate(h, back) == if back then Some(h[0] - k) else Some(h[|h| - 1] + k)
  {
    var b := Below(Diffs(h), back);
    assert b == Some(k) by {
      BelowConstant(Diffs(h), k, back);
    }
    assert Extrapolate(h, back) == Step(b, h, back) by {
      ExtrapolateUnfold(h, back);
    }
  }

  /** The extrapolated value of each history. */
  function Values(inp: seq<seq<int>>, back: bool): (r: seq<Option<int>>)
    ensures |r| == |inp|
    ensures forall i :: 0 <= i < |inp| ==> r[i] == Value(inp[i], back)
  {
    seq(|inp|, i requires 0 <= i < |inp| => Value(inp[i], back))
  }

  /** `total +=` over the values; one NaN makes the total NaN. */
  function SumAll(vs: seq<Option<int>>): (r: Option<int>)
    ensures r.None? <==> exists i :: 0 <= i < |vs| && vs[i].None?
    ensures |vs| == 1 ==> r == vs[0]
  {
    if vs == [] then Some(0)
    else
      var t := SumAll(vs[..|vs| - 1]);
      assert forall i :: 0 <= i < |vs| - 1 ==> vs[..|vs| - 1][i] == vs[i];
      if t.None? || vs[|vs| - 1].None? then None else Some(t.value + vs[|vs| - 1].value)
  }

  lemma ValuesExtrapolate(inp: seq<seq<int>>, back: bool)
    ensures forall i :: 0 <= i < |inp| ==> Value(inp[i], back) == Extrapolate(inp[i], back)
  {
    forall i | 0 <= i < |inp|
      ensures Value(inp[i], back) == Extrapolate(inp[i], back)
    {
      ValueIsExtrapolate(inp[i], back);
    }
  }

  /** `diffs(inp, fn)`: part 1 (back = false) or part 2 (back = true). The
      total is NaN exactly when some history extrapolates to NaN, no
      histories total 0, and one history totals its own extrapolation. */
  function Total(inp: seq<seq<int>>, back: bool): (r: Option<int>)
    ensures r.None? <==> exists i :: 0 <= i < |inp| && Extrapolate(inp[i], back).None?
    ensures inp == [] ==> r == Some(0)
    ensures |inp| == 1 ==> r == Extrapolate(inp[0], back)
  {
    var vs := Values(inp, back);
    ValuesExtrapolate(inp, back);
    SumAll(vs)
  }

  function ReverseAll(inp: seq<seq<int>>): (r: seq<seq<int>>)
    ensures |r| == |inp|
    ensures forall i :: 0 <= i < |inp| ==> r[i] == Reverse(inp[i])
  {
    seq(|inp|, i requires 0 <= i < |inp| => Reverse(inp[i]))
  }

  /** Part 2's total is part 1's over the reversed histories. */
  lemma TotalBack(inp: seq<seq<int>>)
    ensures Total(inp, true) == Total(ReverseAll(inp), false)
  {
    var a, b := Values(inp, true), Values(ReverseAll(inp), false);
    forall i | 0 <= i < |inp|
      ensures a[i] == b[i]
    {
      BackIsReversedForward(inp[i]);
      ValueIsExtrapolate(inp[i], true);
      ValueIsExtrapolate(Reverse(inp[i]), false);
    }
    assert a == b;
  }
}
