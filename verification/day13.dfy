/** Day 13 (day13.ts): lines of reflection in patterns of ash (0) and rock
    (1). Rows are compared as numbers read in binary; vertical lines are
    found as horizontal lines of the transposed pattern. */
module Day13 {
  import opened Outcomes

  /** An element of a Uint8Array. */
  type Byte = x: int | 0 <= x < 256

  /** One pattern: rows of cells. */
  type Pattern = seq<seq<Byte>>

  /** A row read as a number; `None` stands for NaN, which equals nothing,
      not even itself. */
  type Num = Option<nat>

  const TypeError := "TypeError: pattern has no row 0 or a row longer than row 0"
  const InvalidPattern := "Invalid pattern"
  const NotFound := "Not found"

  /** `===` on numbers: NaN is never equal. */
  predicate Same(a: Num, b: Num)
  {
    a.Some? && a == b
  }

  // ---------------------------------------------------------------------
  // toNums

  predicate Bits(row: seq<Byte>)
  {
    forall i :: 0 <= i < |row| ==> row[i] <= 1
  }

  /** The value of a row of 0/1 digits in binary, most significant first. */
  function BinaryValue(row: seq<Byte>): nat
  {
    if row == [] then 0 else 2 * BinaryValue(row[..|row| - 1]) + row[|row| - 1]
  }

  /** `Number('0b' + row.join(''))`: NaN for an empty row or a digit other
      than 0 and 1. */
  function ToNum(row: seq<Byte>): Num
  {
    if row != [] && Bits(row) then Some(BinaryValue(row)) else None
  }

  function ToNums(p: Pattern): (r: seq<Num>)
    ensures |r| == |p| && forall i :: 0 <= i < |p| ==> r[i] == ToNum(p[i])
  {
    seq(|p|, i requires 0 <= i < |p| => ToNum(p[i]))
  }

  /** Two 0/1 rows of the same length are equal exactly when their binary
      values are. */
  lemma {:induction false} BinaryInjective(a: seq<Byte>, b: seq<Byte>)
    requires |a| == |b| && Bits(a) && Bits(b)
    ensures BinaryValue(a) == BinaryValue(b) <==> a == b
    decreases |a|
  {
    if a != [] && BinaryValue(a) == BinaryValue(b) {
      var n := |a| - 1;
      var x, y := BinaryValue(a[..n]), BinaryValue(b[..n]);
      assert 2 * x + a[n] == 2 * y + b[n];
      assert a[n] == b[n] && x == y;
      BinaryInjective(a[..n], b[..n]);
      assert a == a[..n] + [a[n]] && b == b[..n] + [b[n]];
    }
  }

  /** So equal numbers mean equal rows, for non-empty 0/1 rows of one
      length. */
  lemma SameIffEqualRows(a: seq<Byte>, b: seq<Byte>)
    requires |a| == |b| && |a| > 0 && Bits(a) && Bits(b)
    ensures Same(ToNum(a), ToNum(b)) <==> a == b
  {
    BinaryInjective(a, b);
  }

  // ---------------------------------------------------------------------
  // checkReflection and findReflection

  /** The loop of `checkReflection` from step i: rows row + i and
      row - i - 1 are compared while both exist. */
  function CheckFrom(r: seq<Num>, row: int, i: nat): bool
    decreases |r| - i
  {
    if !(row + i < |r| && row - i - 1 >= 0) then true
    else if !Same(r[row + i], r[row - i - 1]) then false
    else CheckFrom(r, row, i + 1)
  }

  function CheckReflection(r: seq<Num>, row: int): bool
  {
    CheckFrom(r, row, 0)
  }

  /** Rows row + i and row - i - 1 are equal, or one of them is
      missing. */
  predicate MirrorAt(r: seq<Num>, row: int, i: int)
  {
    0 <= i && row + i < |r| && row - i - 1 >= 0 ==> Same(r[row + i], r[row - i - 1])
  }

  /** A mirror between rows row - 1 and row: every pair of rows at the same
      distance from it, as far as both exist, is equal. */
  ghost predicate Mirrors(r: seq<Num>, row: int)
  {
    forall i :: MirrorAt(r, row, i)
  }

  lemma {:induction false} CheckFromIff(r: seq<Num>, row: int, k: nat)
    ensures CheckFrom(r, row, k) <==> forall i :: k <= i ==> MirrorAt(r, row, i)
    decreases |r| - k
  {
    if row + k < |r| && row - k - 1 >= 0 {
      CheckFromIff(r, row, k + 1);
      assert CheckFrom(r, row, k) == (Same(r[row + k], r[row - k - 1]) && CheckFrom(r, row, k + 1));
      if forall i :: k <= i ==> MirrorAt(r, row, i) {
        assert MirrorAt(r, row, k);
      }
      if CheckFrom(r, row, k) {
        forall i | k <= i
          ensures MirrorAt(r, row, i)
        {
          if i > k {
            assert k + 1 <= i;
          }
        }
      }
    } else {
      forall i | k <= i
        ensures MirrorAt(r, row, i)
      {
      }
    }
  }

  lemma CheckReflectionIff(r: seq<Num>, row: int)
    ensures CheckReflection(r, row) <==> Mirrors(r, row)
  {
    CheckFromIff(r, row, 0);
    if CheckReflection(r, row) {
      forall i
        ensures MirrorAt(r, row, i)
      {
        if i < 0 {
        }
      }
    }
  }

  /** Index i is an answer of `findReflection` with exclusion `not`: it
      equals the row before it, is not excluded, and mirrors. */
  predicate Candidate(r: seq<Num>, not: Option<int>, i: int)
  {
    1 <= i < |r| && Same(r[i], r[i - 1]) && not != Some(i) && CheckReflection(r, i)
  }

  /** The loop of `findReflection` from index i; `prev` is NaN at index 0
      and the previous row after it. */
  function FindFrom(r: seq<Num>, not: Option<int>, i: nat): (f: Option<nat>)
    ensures f.Some? ==> i <= f.value && Candidate(r, not, f.value)
    ensures f.Some? ==> forall j :: i <= j < f.value ==> !Candidate(r, not, j)
    ensures f.None? ==> forall j :: i <= j ==> !Candidate(r, not, j)
    decreases |r| - i
  {
    if i >= |r| then None
    else if i > 0 && Same(r[i], r[i - 1]) && Some(i) != not && CheckReflection(r, i) then Some(i)
    else FindFrom(r, not, i + 1)
  }

  /** `findReflection(r, not)`: the least candidate, or null. `not` is
      `None` when it is NaN, or a fraction no index can equal. */
  function FindReflection(r: seq<Num>, not: Option<int>): Option<nat>
  {
    FindFrom(r, not, 0)
  }

  /** The answer is the least index that equals its predecessor, is not
      excluded and mirrors; there is none exactly when the result is null;
      and it is never 0. */
  lemma FindReflectionLeast(r: seq<Num>, not: Option<int>)
    ensures var f := FindReflection(r, not);
      (f.Some? ==> f.value != 0 && Candidate(r, not, f.value) && Mirrors(r, f.value) &&
                   forall j :: 0 <= j < f.value ==> !Candidate(r, not, j)) &&
      (f.None? <==> forall j :: !Candidate(r, not, j))
  {
    var f := FindReflection(r, not);
    if f.Some? {
      CheckReflectionIff(r, f.value);
    } else {
      forall j
        ensures !Candidate(r, not, j)
      {
        if j < 0 {
        }
      }
    }
  }

  // ---------------------------------------------------------------------
  // transpose and flip

  /** `transpose`: row 0 fixes the width w; each result row x has the
      height of the pattern, holding p[y][x] where row y reaches column x
      and 0 elsewhere. A pattern with no rows, or a row longer than row 0,
      writes into a missing result row and raises a type error. */
  function Transpose(p: Pattern): (res: Result<Pattern>)
    ensures res.Ok? <==> |p| > 0 && forall y :: 0 <= y < |p| ==> |p[y]| <= |p[0]|
    ensures res.Ok? ==> |res.value| == |p[0]|
    ensures res.Ok? ==> forall x :: 0 <= x < |p[0]| ==> |res.value[x]| == |p|
    ensures res.Ok? ==> forall x, y :: 0 <= x < |p[0]| && 0 <= y < |p| ==>
      res.value[x][y] == (if x < |p[y]| then p[y][x] else 0)
  {
    if |p| == 0 || exists y :: 0 <= y < |p| && |p[y]| > |p[0]| then Err(TypeError)
    else
      var w, h := |p[0]|, |p|;
      Ok(seq(w, x requires 0 <= x < w =>
        seq(h, y requires 0 <= y < h => if x < |p[y]| then p[y][x] else 0)))
  }

  /** Every row as long as row 0, and at least one row and column. */
  predicate Rectangular(p: Pattern)
  {
    |p| > 0 && |p[0]| > 0 && forall y :: 0 <= y < |p| ==> |p[y]| == |p[0]|
  }

  /** On a rectangular pattern transposing swaps the dimensions, gives
      res[x][y] = p[y][x], and done twice gives the pattern back. */
  lemma TransposeTwice(p: Pattern)
    requires Rectangular(p)
    ensures Transpose(p).Ok? && Rectangular(Transpose(p).value)
    ensures forall x, y :: 0 <= x < |p[0]| && 0 <= y < |p| ==> Transpose(p).value[x][y] == p[y][x]
    ensures Transpose(Transpose(p).value) == Ok(p)
  {
    var t := Transpose(p).value;
    assert |t| == |p[0]| && |t[0]| == |p|;
    assert Rectangular(t);
    var tt := Transpose(t).value;
    assert |tt| == |p|;
    forall y | 0 <= y < |p|
      ensures tt[y] == p[y]
    {
      assert |tt[y]| == |p[y]|;
      forall x | 0 <= x < |p[y]|
        ensures tt[y][x] == p[y][x]
      {
        assert tt[y][x] == t[x][y];
      }
    }
    assert tt == p;
  }

  /** Bit 0 of a byte flipped: `b ^ 1`. */
  function Xor1(b: Byte): Byte
  {
    if b % 2 == 0 then b + 1 else b - 1
  }

  /** `flip(p, x, y)`: a copy with cell (x, y) flipped; p itself is a value
      and does not change. */
  function Flip(p: Pattern, x: nat, y: nat): Pattern
    requires y < |p| && x < |p[y]|
  {
    var row: seq<Byte> := p[y][x := Xor1(p[y][x])];
    p[y := row]
  }

  /** The copy has the shape of p and differs from it in cell (x, y)
      alone, which it flips between 0 and 1; flipping again undoes it. */
  lemma FlipOnly(p: Pattern, x: nat, y: nat)
    requires y < |p| && x < |p[y]|
    ensures |Flip(p, x, y)| == |p|
    ensures forall j :: 0 <= j < |p| ==> |Flip(p, x, y)[j]| == |p[j]|
    ensures forall j, i :: 0 <= j < |p| && 0 <= i < |p[j]| && (i != x || j != y) ==> Flip(p, x, y)[j][i] == p[j][i]
    ensures Flip(p, x, y)[y][x] != p[y][x]
    ensures p[y][x] <= 1 ==> Flip(p, x, y)[y][x] == 1 - p[y][x]
    ensures Flip(Flip(p, x, y), x, y) == p
  {
    var q := Flip(p, x, y);
    assert q[y][x] == Xor1(p[y][x]);
    assert Xor1(q[y][x]) == p[y][x];
    var back: seq<Byte> := q[y][x := p[y][x]];
    assert back == p[y];
  }

  // ---------------------------------------------------------------------
  // findReflectionExcept and the parts

  /** `not / 100` as an index to exclude: an integer only when `not` is a
      multiple of 100; otherwise a fraction (or NaN) that no index equals. */
  function Div100(not: Option<int>): Option<int>
  {
    match not
    case None => None
    case Some(n) => if n % 100 == 0 then Some(n / 100) else None
  }

  /** `findReflectionExcept(p, not)`: a horizontal line (a truthy row
      index) scores 100 times its index; otherwise the vertical line of
      the transposed pattern, or null. */
  function FindExcept(p: Pattern, not: Option<int>): Result<Option<int>>
  {
    var j := FindReflection(ToNums(p), Div100(not));
    if j.Some? && j.value != 0 then Ok(Some(j.value * 100))
    else
      var t :- Transpose(p);
      var v := FindReflection(ToNums(t), not);
      Ok(if v.Some? then Some(v.value) else None)
  }

  /** The horizontal line wins whenever there is one. */
  lemma FindExceptHorizontal(p: Pattern, not: Option<int>)
    requires FindReflection(ToNums(p), Div100(not)).Some?
    ensures FindExcept(p, not) == Ok(Some(FindReflection(ToNums(p), Div100(not)).value * 100))
  {
  }

  /** Otherwise the answer is the vertical line of the transposed
      pattern, and a pattern without rows raises. */
  lemma FindExceptVertical(p: Pattern, not: Option<int>)
    requires FindReflection(ToNums(p), Div100(not)).None?
    ensures |p| == 0 ==> FindExcept(p, not).Err?
    ensures Transpose(p).Ok? ==> FindExcept(p, not) == Ok(FindReflection(ToNums(Transpose(p).value), not))
  {
  }

  /** No answer is ever 0, and the excluded old answer is never found
      again, whether it was horizontal (`not` = 100 i) or vertical. */
  lemma FindExceptNew(p: Pattern, not: Option<int>)
    requires FindExcept(p, not).Ok? && FindExcept(p, not).value.Some?
    ensures FindExcept(p, not).value.value > 0
    ensures Some(FindExcept(p, not).value.value) != not
  {
    var h := FindReflection(ToNums(p), Div100(not));
    if h.Some? {
      FindExceptHorizontal(p, not);
    } else {
      FindExceptVertical(p, not);
    }
  }

  /** Part 1: every pattern must have a line; the scores add up. */
  function Part1(ps: seq<Pattern>): (r: Result<int>)
    ensures r.Ok? <==> forall i :: 0 <= i < |ps| ==> Hit(FindExcept(ps[i], None))
    ensures r.Ok? ==> r.value >= |ps|
  {
    var find := p => FindExcept(p, None);
    TotalOk(find, ps);
    forall i | 0 <= i < |ps| && Hit(find(ps[i]))
      ensures find(ps[i]).value.value > 0
    {
      FindExceptNew(ps[i], None);
    }
    TotalAtLeast(find, ps);
    Total(find, ps)
  }

  /** The sum of the scores `find` gives the patterns, raising on the first
      pattern whose score is missing or zero. */
  function Total(find: Pattern -> Result<Option<int>>, ps: seq<Pattern>): Result<int>
  {
    if ps == [] then Ok(0)
    else
      var tot :- Total(find, ps[..|ps| - 1]);
      var w :- find(ps[|ps| - 1]);
      if w.None? || w.value == 0 then Err(InvalidPattern) else Ok(tot + w.value)
  }

  /** When every hit is positive, a sum that succeeds is at least one per
      pattern. */
  lemma {:induction false} TotalAtLeast(find: Pattern -> Result<Option<int>>, ps: seq<Pattern>)
    requires forall i :: 0 <= i < |ps| && Hit(find(ps[i])) ==> find(ps[i]).value.value > 0
    ensures Total(find, ps).Ok? ==> Total(find, ps).value >= |ps|
    decreases |ps|
  {
    if ps != [] {
      var init := ps[..|ps| - 1];
      assert forall i :: 0 <= i < |init| ==> init[i] == ps[i];
      TotalAtLeast(find, init);
    }
  }

  /** The sum succeeds exactly when every score is a hit. */
  lemma {:induction false} TotalOk(find: Pattern -> Result<Option<int>>, ps: seq<Pattern>)
    ensures Total(find, ps).Ok? <==> forall i :: 0 <= i < |ps| ==> Hit(find(ps[i]))
    decreases |ps|
  {
    if ps != [] {
      var init := ps[..|ps| - 1];
      TotalOk(find, init);
      assert forall i :: 0 <= i < |init| ==> init[i] == ps[i];
    }
  }

  /** The cells of p, row by row, left to right. */
  function Cells(p: Pattern, y: nat): (cs: seq<(nat, nat)>)
    ensures forall k :: 0 <= k < |cs| ==> y <= cs[k].1 && InPattern(p, cs[k])
    decreases |p| - y
  {
    if y >= |p| then []
    else seq(|p[y]|, x requires 0 <= x < |p[y]| => (x, y)) + Cells(p, y + 1)
  }

  /** Every cell from row y on is visited. */
  lemma {:induction false} CellsCover(p: Pattern, y: nat)
    ensures forall x: nat, y': nat :: y <= y' < |p| && x < |p[y']| ==> (x, y') in Cells(p, y)
    decreases |p| - y
  {
    if y < |p| {
      CellsCover(p, y + 1);
      var row := seq(|p[y]|, x requires 0 <= x < |p[y]| => (x, y));
      forall x: nat | x < |p[y]|
        ensures (x, y) in Cells(p, y)
      {
        assert row[x] == (x, y);
      }
    }
  }

  /** A truthy answer: a line was found. */
  predicate Hit(r: Result<Option<int>>)
  {
    r.Ok? && r.value.Some? && r.value.value != 0
  }

  /** Cell c lies in the pattern. */
  predicate InPattern(p: Pattern, c: (nat, nat))
  {
    c.1 < |p| && c.0 < |p[c.1]|
  }

  /** Flipping cell c gives no new line (and raises nothing). */
  predicate Miss(p: Pattern, o: Option<int>, c: (nat, nat))
    requires InPattern(p, c)
  {
    var r := FindExcept(Flip(p, c.0, c.1), o);
    r.Ok? && !Hit(r)
  }

  /** The first flip, among the cells cs, after which a line other than
      the old answer o is found. */
  function Smudge(p: Pattern, o: Option<int>, cs: seq<(nat, nat)>): (r: Result<Option<int>>)
    requires forall k :: 0 <= k < |cs| ==> InPattern(p, cs[k])
  {
    if cs == [] then Ok(None)
    else
      assert InPattern(p, cs[0]);
      var qo :- FindExcept(Flip(p, cs[0].0, cs[0].1), o);
      if qo.Some? && qo.value != 0 then Ok(qo) else Smudge(p, o, cs[1..])
  }

  /** The smudge found is the first cell whose flip gives a new line; no
      earlier flip gives one. */
  lemma {:induction false} SmudgeFirst(p: Pattern, o: Option<int>, cs: seq<(nat, nat)>) returns (k: nat)
    requires forall k :: 0 <= k < |cs| ==> InPattern(p, cs[k])
    requires Smudge(p, o, cs).Ok? && Smudge(p, o, cs).value.Some?
    ensures k < |cs| && FindExcept(Flip(p, cs[k].0, cs[k].1), o) == Smudge(p, o, cs)
    ensures forall j :: 0 <= j < k ==> Miss(p, o, cs[j])
  {
    var qo := FindExcept(Flip(p, cs[0].0, cs[0].1), o);
    if Hit(qo) {
      k := 0;
    } else {
      var k' := SmudgeFirst(p, o, cs[1..]);
      k := k' + 1;
      assert cs[k] == cs[1..][k'];
      forall j | 0 <= j < k
        ensures Miss(p, o, cs[j])
      {
        if j > 0 {
          assert cs[j] == cs[1..][j - 1];
        }
      }
    }
  }

  /** When no flip among cs gives a new line the search reports none. */
  lemma {:induction false} SmudgeNone(p: Pattern, o: Option<int>, cs: seq<(nat, nat)>)
    requires forall k :: 0 <= k < |cs| ==> InPattern(p, cs[k])
    requires forall k :: 0 <= k < |cs| ==> Miss(p, o, cs[k])
    ensures Smudge(p, o, cs) == Ok(None)
    decreases |cs|
  {
    if cs != [] {
      assert Miss(p, o, cs[0]);
      SmudgeNone(p, o, cs[1..]);
    }
  }

  /** Part 2 for one pattern: the old answer (null allowed), then the
      first smudge. */
  function Repaired(p: Pattern): Result<int>
  {
    var o :- FindExcept(p, None);
    var qo :- Smudge(p, o, Cells(p, 0));
    if qo.None? then Err(NotFound) else Ok(qo.value)
  }

  /** Part 2: the sum of the repaired lines, raising at the first pattern
      that cannot be repaired. It succeeds exactly when every pattern can
      be repaired, and then is at least one per pattern. */
  function Part2(ps: seq<Pattern>): (r: Result<int>)
    ensures r.Ok? <==> forall i :: 0 <= i < |ps| ==> Repaired(ps[i]).Ok?
    ensures r.Ok? ==> r.value >= |ps|
  {
    var rs := seq(|ps|, i requires 0 <= i < |ps| => Repaired(ps[i]));
    forall i | 0 <= i < |rs| && rs[i].Ok?
      ensures rs[i].value > 0
    {
      RepairedIsNew(ps[i]);
    }
    assert forall i :: 0 <= i < |ps| ==> rs[i] == Repaired(ps[i]);
    SumOk(rs)
  }

  /** The sum of a list of results, failing at the first failure. */
  function SumOk(rs: seq<Result<int>>): (r: Result<int>)
    ensures r.Ok? <==> forall i :: 0 <= i < |rs| ==> rs[i].Ok?
    ensures (forall i :: 0 <= i < |rs| && rs[i].Ok? ==> rs[i].value > 0) && r.Ok? ==> r.value >= |rs|
  {
    if rs == [] then Ok(0)
    else
      var init := rs[..|rs| - 1];
      assert forall i :: 0 <= i < |init| ==> init[i] == rs[i];
      var tot :- SumOk(init);
      var w :- rs[|rs| - 1];
      Ok(tot + w)
  }

  /** The repaired line is never the old one and is never 0. */
  lemma RepairedIsNew(p: Pattern)
    requires Repaired(p).Ok?
    ensures Repaired(p).value > 0
    ensures Some(Repaired(p).value) != FindExcept(p, None).value
  {
    var o := FindExcept(p, None).value;
    var cs := Cells(p, 0);
    var k := SmudgeFirst(p, o, cs);
    FindExceptNew(Flip(p, cs[k].0, cs[k].1), o);
  }
}
