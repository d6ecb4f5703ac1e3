/** The two-dimensional container of lib/rect.ts: a sequence of rows
    addressed as (x, y) = (column, row). Rows are not forced to share a
    length; the operations that read `width` take it from row 0. */
module Grid {
  import opened Outcomes

  datatype Rect<T> = Rect(vals: seq<seq<T>>)

  /** One visit of `forEach`: the value and its coordinates. */
  datatype Cell<T> = Cell(val: T, x: nat, y: nat)

  /** The initialiser of `ofSize`: a constant, or a function of (x, y). */
  datatype Init<T> = Value(v: T) | Compute(f: (nat, nat) -> T)

  function InitAt<T>(val: Init<T>, x: nat, y: nat): T
  {
    match val
    case Value(v) => v
    case Compute(f) => f(x, y)
  }

  function Height<T>(r: Rect<T>): nat
  {
    |r.vals|
  }

  /** The length of row 0; the source dereferences row 0, so a rect with no
      rows has no width. */
  function Width<T>(r: Rect<T>): (w: nat)
    requires |r.vals| > 0
    ensures forall x :: Inside(r, x, 0) <==> 0 <= x < w
  {
    |r.vals[0]|
  }

  predicate Inside<T>(r: Rect<T>, x: int, y: int)
  {
    0 <= y < |r.vals| && 0 <= x < |r.vals[y]|
  }

  /** Every row has the length of row 0, and there is a row 0. */
  predicate Uniform<T>(r: Rect<T>)
  {
    |r.vals| > 0 && forall y :: 0 <= y < |r.vals| ==> |r.vals[y]| == |r.vals[0]|
  }

  /** Same number of rows and the same length row by row. */
  predicate SameShape<T, U>(a: Rect<T>, b: Rect<U>)
  {
    |a.vals| == |b.vals| && forall y :: 0 <= y < |a.vals| ==> |a.vals[y]| == |b.vals[y]|
  }

  const RangeError := "RangeError: not inside rect"

  /** `ofSize(width, height, val)`. */
  function OfSize<T>(width: nat, height: nat, val: Init<T>): (r: Rect<T>)
    ensures Uniform(r) <==> height > 0
    ensures Height(r) == height
    ensures height > 0 ==> Width(r) == width
    ensures forall x: int, y: int :: (Get(r, x, y, 0, 0) ==
      if 0 <= x < width && 0 <= y < height then Ok(InitAt(val, x, y)) else Err(RangeError))
  {
    Rect(seq(height, j requires 0 <= j < height =>
      seq(width, i requires 0 <= i < width => InitAt(val, i, j))))
  }

  /** `#check(x, y)`. */
  function Check<T>(r: Rect<T>, x: int, y: int): (c: Result<()>)
    ensures c.Ok? <==> Inside(r, x, y)
  {
    if y < 0 || y >= |r.vals| || x < 0 || x >= |r.vals[y]| then Err(RangeError) else Ok(())
  }

  /** `get(x, y, dx, dy)`: the offsets are added before the bounds check. */
  function Get<T>(r: Rect<T>, x: int, y: int, dx: int, dy: int): (v: Result<T>)
    ensures v.Ok? <==> Inside(r, x + dx, y + dy)
    ensures v.Ok? ==> v.value == r.vals[y + dy][x + dx]
    ensures v.Err? ==> v.msg == RangeError
  {
    var col := x + dx;
    var line := y + dy;
    var _ :- Check(r, col, line);
    Ok(r.vals[line][col])
  }

  /** `set(x, y, val)`, as a function returning the updated rect. */
  function Set<T>(r: Rect<T>, x: int, y: int, val: T): (s: Result<Rect<T>>)
    ensures s.Ok? <==> Inside(r, x, y)
    ensures s.Ok? ==> SameShape(r, s.value)
    ensures s.Ok? ==> Get(s.value, x, y, 0, 0) == Ok(val)
    ensures s.Ok? ==> forall i, j :: (i, j) != (x, y) ==> Get(s.value, i, j, 0, 0) == Get(r, i, j, 0, 0)
  {
    var _ :- Check(r, x, y);
    Ok(Rect(r.vals[y := r.vals[y][x := val]]))
  }

  /** The visits of `forEach`, in order: row by row, left to right, each
      cell once with its own value and coordinates. */
  function ForEach<T>(r: Rect<T>): (cs: seq<Cell<T>>)
    ensures |cs| == CellCount(r.vals)
    ensures forall k :: 0 <= k < |cs| ==>
      Inside(r, cs[k].x, cs[k].y) && Get(r, cs[k].x, cs[k].y, 0, 0) == Ok(cs[k].val)
    ensures forall x, y :: Inside(r, x, y) ==> Cell(r.vals[y][x], x, y) in cs
    ensures forall k, l :: 0 <= k < l < |cs| ==> Before(cs[k], cs[l])
  {
    var cs := RowsFrom(r.vals, 0);
    RowsFromLength(r.vals, 0);
    RowsFromSound(r.vals, 0);
    RowsFromComplete(r.vals, 0);
    RowsFromOrdered(r.vals, 0);
    assert forall k :: 0 <= k < |cs| ==> Sound(r.vals, 0, cs[k]);
    cs
  }

  function RowCells<T>(row: seq<T>, y: nat): seq<Cell<T>>
  {
    seq(|row|, i requires 0 <= i < |row| => Cell(row[i], i, y))
  }

  function RowsFrom<T>(rows: seq<seq<T>>, y: nat): seq<Cell<T>>
    decreases |rows|
  {
    if rows == [] then [] else RowCells(rows[0], y) + RowsFrom(rows[1..], y + 1)
  }

  /** Total number of cells, row lengths summed. */
  function CellCount<T>(rows: seq<seq<T>>): nat
  {
    if rows == [] then 0 else |rows[0]| + CellCount(rows[1..])
  }

  /** Row-major order: (y, x) strictly increases from one visit to a later one. */
  predicate Before<T>(a: Cell<T>, b: Cell<T>)
  {
    a.y < b.y || (a.y == b.y && a.x < b.x)
  }

  lemma {:induction false} RowsFromLength<T>(rows: seq<seq<T>>, y: nat)
    ensures |RowsFrom(rows, y)| == CellCount(rows)
    decreases |rows|
  {
    if rows != [] {
      RowsFromLength(rows[1..], y + 1);
    }
  }

  /** Every visit names a cell of the rows and carries that cell's value. */
  ghost predicate Sound<T>(rows: seq<seq<T>>, y: nat, c: Cell<T>)
  {
    y <= c.y < y + |rows| && c.x < |rows[c.y - y]| && c.val == rows[c.y - y][c.x]
  }

  lemma {:induction false} RowsFromSound<T>(rows: seq<seq<T>>, y: nat)
    ensures forall k :: 0 <= k < |RowsFrom(rows, y)| ==> Sound(rows, y, RowsFrom(rows, y)[k])
    decreases |rows|
  {
    if rows != [] {
      var head := RowCells(rows[0], y);
      var tail := RowsFrom(rows[1..], y + 1);
      RowsFromSound(rows[1..], y + 1);
      assert RowsFrom(rows, y) == head + tail;
      forall k | 0 <= k < |head + tail|
        ensures Sound(rows, y, (head + tail)[k])
      {
        if k >= |head| {
          var c := tail[k - |head|];
          assert Sound(rows[1..], y + 1, c);
          assert rows[1..][c.y - (y + 1)] == rows[c.y - y];
        }
      }
    }
  }

  lemma {:induction false} RowsFromComplete<T>(rows: seq<seq<T>>, y: nat)
    ensures forall j, i :: 0 <= j < |rows| && 0 <= i < |rows[j]| ==>
      Cell(rows[j][i], i, y + j) in RowsFrom(rows, y)
    decreases |rows|
  {
    if rows != [] {
      var head := RowCells(rows[0], y);
      var tail := RowsFrom(rows[1..], y + 1);
      RowsFromComplete(rows[1..], y + 1);
      assert RowsFrom(rows, y) == head + tail;
      forall j, i | 0 <= j < |rows| && 0 <= i < |rows[j]|
        ensures Cell(rows[j][i], i, y + j) in RowsFrom(rows, y)
      {
        if j == 0 {
          assert head[i] == Cell(rows[j][i], i, y + j);
        } else {
          assert rows[1..][j - 1] == rows[j];
          assert Cell(rows[1..][j - 1][i], i, y + 1 + (j - 1)) in tail;
        }
      }
    }
  }

  lemma {:induction false} RowsFromOrdered<T>(rows: seq<seq<T>>, y: nat)
    ensures forall k, l :: 0 <= k < l < |RowsFrom(rows, y)| ==>
      Before(RowsFrom(rows, y)[k], RowsFrom(rows, y)[l])
    decreases |rows|
  {
    if rows != [] {
      var head := RowCells(rows[0], y);
      var tail := RowsFrom(rows[1..], y + 1);
      RowsFromOrdered(rows[1..], y + 1);
      RowsFromSound(rows[1..], y + 1);
      assert RowsFrom(rows, y) == head + tail;
      forall k, l | 0 <= k < l < |head + tail|
        ensures Before((head + tail)[k], (head + tail)[l])
      {
        if k < |head| && l >= |head| {
          assert Sound(rows[1..], y + 1, tail[l - |head|]);
        }
      }
    }
  }

  /** `map(fn)`: the width is read once from row 0, so a shorter row makes
      `get` throw and a longer row is cut to that width. */
  function Map<T, U>(r: Rect<T>, f: (T, nat, nat) -> U): (m: Result<Rect<U>>)
    requires |r.vals| > 0
    ensures m.Ok? <==> forall y :: 0 <= y < |r.vals| ==> |r.vals[y]| >= Width(r)
    ensures m.Ok? ==> Uniform(m.value) && Height(m.value) == Height(r) && Width(m.value) == Width(r)
    ensures m.Ok? ==> forall x, y :: 0 <= y < Height(r) && 0 <= x < Width(r) ==>
      Get(m.value, x, y, 0, 0) == Ok(f(r.vals[y][x], x, y))
    ensures Uniform(r) ==> m.Ok? && SameShape(r, m.value)
  {
    var w := Width(r);
    if exists y :: 0 <= y < |r.vals| && |r.vals[y]| < w then Err(RangeError)
    else Ok(Rect(seq(|r.vals|, y requires 0 <= y < |r.vals| =>
      seq(w, x requires 0 <= x < w && x < |r.vals[y]| => f(r.vals[y][x], x, y)))))
  }

  /** Left fold of a callback over visits. */
  function Fold<T, U>(cs: seq<Cell<T>>, f: (U, T, nat, nat) -> U, acc: U): U
    decreases |cs|
  {
    if cs == [] then acc else Fold(cs[1..], f, f(acc, cs[0].val, cs[0].x, cs[0].y))
  }

  /** `reduce(fn, initial)`: every cell folded into `initial`. */
  function Reduce<T, U>(r: Rect<T>, f: (U, T, nat, nat) -> U, initial: U): (u: U)
    ensures CellCount(r.vals) == 0 ==> u == initial
  {
    Fold(ForEach(r), f, initial)
  }

  /** `reduce(fn)` without an initial value: cell (0, 0) is the seed and is
      skipped by the fold. Needs a non-empty row 0. */
  function ReduceSeeded<T>(r: Rect<T>, f: (T, T, nat, nat) -> T): T
    requires |r.vals| > 0 && |r.vals[0]| > 0
  {
    Fold(ForEach(r)[1..], f, r.vals[0][0])
  }

  /** All cells' strings concatenated in row-major order. */
  function Flatten(rows: seq<seq<string>>): string
  {
    if rows == [] then [] else Concat(rows[0]) + Flatten(rows[1..])
  }

  function Concat(row: seq<string>): string
  {
    if row == [] then [] else row[0] + Concat(row[1..])
  }

  lemma {:induction false} FoldConcat(cs: seq<Cell<string>>, acc: string)
    ensures Fold(cs, (t: string, v: string, x: nat, y: nat) => t + v, acc) == acc + ConcatVals(cs)
    decreases |cs|
  {
    if cs != [] {
      FoldConcat(cs[1..], acc + cs[0].val);
    }
  }

  function ConcatVals(cs: seq<Cell<string>>): string
  {
    if cs == [] then [] else cs[0].val + ConcatVals(cs[1..])
  }

  lemma {:induction false} ConcatValsAppend(a: seq<Cell<string>>, b: seq<Cell<string>>)
    ensures ConcatVals(a + b) == ConcatVals(a) + ConcatVals(b)
    decreases |a|
  {
    if a != [] {
      assert (a + b)[0] == a[0];
      assert (a + b)[1..] == a[1..] + b;
      ConcatValsAppend(a[1..], b);
      calc {
        ConcatVals(a + b);
        a[0].val + ConcatVals(a[1..] + b);
        a[0].val + (ConcatVals(a[1..]) + ConcatVals(b));
        (a[0].val + ConcatVals(a[1..])) + ConcatVals(b);
      }
    } else {
      assert a + b == b;
    }
  }

  lemma {:induction false} ConcatValsRow(row: seq<string>, y: nat)
    ensures ConcatVals(RowCells(row, y)) == Concat(row)
    decreases |row|
  {
    if row != [] {
      var cs := RowCells(row, y);
      assert cs[1..] == seq(|row| - 1, i requires 0 <= i < |row| - 1 => Cell(row[i + 1], i + 1, y));
      ShiftedRow(row[1..], y, 1);
      assert seq(|row| - 1, i requires 0 <= i < |row| - 1 => Cell(row[i + 1], i + 1, y))
        == seq(|row[1..]|, i requires 0 <= i < |row[1..]| => Cell(row[1..][i], i + 1, y));
    }
  }

  lemma {:induction false} ShiftedRow(row: seq<string>, y: nat, off: nat)
    ensures ConcatVals(seq(|row|, i requires 0 <= i < |row| => Cell(row[i], i + off, y))) == Concat(row)
    decreases |row|
  {
    if row != [] {
      var cs := seq(|row|, i requires 0 <= i < |row| => Cell(row[i], i + off, y));
      assert cs[1..] == seq(|row[1..]|, i requires 0 <= i < |row[1..]| => Cell(row[1..][i], i + (off + 1), y));
      ShiftedRow(row[1..], y, off + 1);
    }
  }

  lemma {:induction false} ConcatValsRows(rows: seq<seq<string>>, y: nat)
    ensures ConcatVals(RowsFrom(rows, y)) == Flatten(rows)
    decreases |rows|
  {
    if rows != [] {
      ConcatValsAppend(RowCells(rows[0], y), RowsFrom(rows[1..], y + 1));
      ConcatValsRow(rows[0], y);
      ConcatValsRows(rows[1..], y + 1);
    }
  }

  /** With string concatenation as the callback, `reduce` with an initial
      value prepends it to every cell in row-major order, and `reduce`
      without one starts from cell (0, 0) and appends the rest. */
  lemma ReduceConcat(r: Rect<string>, initial: string)
    ensures Reduce(r, (t: string, v: string, x: nat, y: nat) => t + v, initial) == initial + Flatten(r.vals)
    ensures |r.vals| > 0 && |r.vals[0]| > 0 ==>
      ReduceSeeded(r, (t: string, v: string, x: nat, y: nat) => t + v) == Flatten(r.vals)
  {
    var f := (t: string, v: string, x: nat, y: nat) => t + v;
    FoldConcat(ForEach(r), initial);
    ConcatValsRows(r.vals, 0);
    if |r.vals| > 0 && |r.vals[0]| > 0 {
      var cs := ForEach(r);
      assert cs[0] == Cell(r.vals[0][0], 0, 0);
      FoldConcat(cs[1..], r.vals[0][0]);
      assert cs == [cs[0]] + cs[1..];
      ConcatValsAppend([cs[0]], cs[1..]);
    }
  }

  /** `reduce` with a counting callback counts the cells. */
  lemma {:induction false} ReduceCounts<T>(r: Rect<T>)
    ensures Reduce(r, (t: int, v: T, x: nat, y: nat) => t + 1, 0) == CellCount(r.vals)
  {
    FoldCount(ForEach(r), 0);
    RowsFromLength(r.vals, 0);
  }

  lemma {:induction false} FoldCount<T>(cs: seq<Cell<T>>, acc: int)
    ensures Fold(cs, (t: int, v: T, x: nat, y: nat) => t + 1, acc) == acc + |cs|
    decreases |cs|
  {
    if cs != [] {
      FoldCount(cs[1..], acc + 1);
    }
  }

  /** `columns()`: column i lists row j's cell i, top to bottom. */
  function Columns<T>(r: Rect<T>): (cols: seq<seq<T>>)
    requires Uniform(r)
    ensures |cols| == Width(r)
    ensures forall i :: 0 <= i < |cols| ==> |cols[i]| == Height(r)
  {
    seq(|r.vals[0]|, i requires 0 <= i < |r.vals[0]| =>
      seq(|r.vals|, j requires 0 <= j < |r.vals| => r.vals[j][i]))
  }

  /** `transpose()`. */
  function Transpose<T>(r: Rect<T>): (t: Rect<T>)
    requires Uniform(r)
    ensures Height(t) == Width(r)
    ensures Width(r) > 0 ==> Uniform(t) && Width(t) == Height(r)
    ensures forall x, y :: Get(t, x, y, 0, 0) == Get(r, y, x, 0, 0)
  {
    Rect(Columns(r))
  }

  /** Transposing twice gives back the same rect. */
  lemma TransposeTwice<T>(r: Rect<T>)
    requires Uniform(r) && Width(r) > 0
    ensures Transpose(Transpose(r)) == r
  {
    var t2 := Transpose(Transpose(r));
    assert |t2.vals| == |r.vals|;
    forall y | 0 <= y < |r.vals|
      ensures t2.vals[y] == r.vals[y]
    {
      forall x | 0 <= x < |r.vals[y]|
        ensures t2.vals[y][x] == r.vals[y][x]
      {
        assert Get(t2, x, y, 0, 0) == Get(r, x, y, 0, 0);
      }
    }
  }

  /** `copy()`: a value with the same cells (a deep copy has no identity
      to keep in a value model). */
  function Copy<T>(r: Rect<T>): (c: Rect<T>)
    ensures SameShape(r, c)
    ensures forall x, y :: Get(c, x, y, 0, 0) == Get(r, x, y, 0, 0)
  {
    Rect(r.vals)
  }

  /** `with(x, y, val)`: a changed copy; the receiver is a value and stays
      as it was. */
  function With<T>(r: Rect<T>, x: int, y: int, val: T): (w: Result<Rect<T>>)
    ensures w.Ok? <==> Inside(r, x, y)
    ensures w.Ok? ==> SameShape(r, w.value) && Get(w.value, x, y, 0, 0) == Ok(val)
    ensures w.Ok? ==> forall i, j :: (i, j) != (x, y) ==> Get(w.value, i, j, 0, 0) == Get(r, i, j, 0, 0)
  {
    Set(Copy(r), x, y, val)
  }

  /** `rotateClockwise()`: column c read bottom to top becomes row c. */
  function RotateClockwise<T>(r: Rect<T>): (t: Rect<T>)
    requires Uniform(r)
    ensures Height(t) == Width(r)
    ensures Width(r) > 0 ==> Uniform(t) && Width(t) == Height(r)
    ensures forall k, c :: 0 <= c < Width(r) && 0 <= k < Height(r) ==>
      Get(t, k, c, 0, 0) == Get(r, c, Height(r) - 1 - k, 0, 0)
  {
    var h := |r.vals|;
    Rect(seq(|r.vals[0]|, col requires 0 <= col < |r.vals[0]| =>
      seq(h, k requires 0 <= k < h => r.vals[h - 1 - k][col])))
  }

  /** `rotateCounterClockwise()`: row k's cells read from the right end
      become column k. */
  function RotateCounterClockwise<T>(r: Rect<T>): (t: Rect<T>)
    requires Uniform(r)
    ensures Height(t) == Width(r)
    ensures Width(r) > 0 ==> Uniform(t) && Width(t) == Height(r)
    ensures forall k, c :: 0 <= c < Width(r) && 0 <= k < Height(r) ==>
      Get(t, k, c, 0, 0) == Get(r, Width(r) - 1 - c, k, 0, 0)
  {
    Rect(seq(|r.vals[0]|, col requires 0 <= col < |r.vals[0]| =>
      seq(|r.vals|, k requires 0 <= k < |r.vals| => r.vals[k][|r.vals[k]| - col - 1])))
  }

  /** The two rotations undo each other. */
  lemma RotationsInverse<T>(r: Rect<T>)
    requires Uniform(r) && Width(r) > 0
    ensures RotateCounterClockwise(RotateClockwise(r)) == r
    ensures RotateClockwise(RotateCounterClockwise(r)) == r
  {
    var h := Height(r);
    var w := Width(r);
    var a := RotateCounterClockwise(RotateClockwise(r));
    var b := RotateClockwise(RotateCounterClockwise(r));
    assert |a.vals| == h && |b.vals| == h;
    forall y | 0 <= y < h
      ensures a.vals[y] == r.vals[y] && b.vals[y] == r.vals[y]
    {
      assert |a.vals[y]| == w && |b.vals[y]| == w;
      forall x | 0 <= x < w
        ensures a.vals[y][x] == r.vals[y][x] && b.vals[y][x] == r.vals[y][x]
      {
        assert Get(a, x, y, 0, 0) == Get(RotateClockwise(r), h - 1 - y, x, 0, 0);
        assert Get(b, x, y, 0, 0) == Get(RotateCounterClockwise(r), y, w - 1 - x, 0, 0);
      }
    }
  }

  /** `wrap(val)` on a rect of characters: a new top row of `val`, a new
      bottom row whose interior is the literal '#', and `val` at both ends
      of every row. */
  function Wrap(r: Rect<char>, val: char): (t: Rect<char>)
    requires |r.vals| > 0
    ensures Height(t) == Height(r) + 2
    ensures forall y :: 0 <= y < Height(t) ==> |t.vals[y]| >= 2 && t.vals[y][0] == val && t.vals[y][|t.vals[y]| - 1] == val
    ensures |t.vals[0]| == Width(r) + 2 && forall x :: 0 <= x < |t.vals[0]| ==> t.vals[0][x] == val
    ensures var b := t.vals[Height(r) + 1];
      |b| == Width(r) + 2 && forall x :: 1 <= x <= Width(r) ==> b[x] == '#'
    ensures forall x, y :: Inside(r, x, y) ==> Get(t, x + 1, y + 1, 0, 0) == Get(r, x, y, 0, 0)
    ensures forall y :: 0 <= y < Height(r) ==> |t.vals[y + 1]| == |r.vals[y]| + 2
  {
    var w := Width(r);
    var rows := [seq(w, _ => val)] + r.vals + [seq(w, _ => '#')];
    Rect(seq(|rows|, y requires 0 <= y < |rows| => [val] + rows[y] + [val]))
  }

  /** The fold of `equals`: `t && (val === other.get(x, y))`, which stops
      asking `other` once a difference is found. */
  function EqFold<T(==)>(cs: seq<Cell<T>>, other: Rect<T>, acc: bool): Result<bool>
    decreases |cs|
  {
    if cs == [] then Ok(acc)
    else if !acc then EqFold(cs[1..], other, false)
    else
      var v :- Get(other, cs[0].x, cs[0].y, 0, 0);
      EqFold(cs[1..], other, cs[0].val == v)
  }

  /** `equals(other)`: `None` stands for a null argument. */
  function Equals<T(==)>(r: Rect<T>, other: Option<Rect<T>>): (e: Result<bool>)
    requires |r.vals| > 0
    ensures other.None? ==> e == Ok(false)
    ensures other.Some? && Height(other.value) != Height(r) ==> e == Ok(false)
    ensures other.Some? && Height(other.value) == Height(r) && Width(other.value) != Width(r) ==> e == Ok(false)
    ensures other.Some? && SameShape(r, other.value) ==> e == Ok(r == other.value)
  {
    if other == Some(r) then Ok(true)
    else if other.None? || Height(other.value) != Height(r) || Width(other.value) != Width(r) then Ok(false)
    else
      if SameShape(r, other.value) then EqFoldSameShape(r, other.value); EqFold(ForEach(r), other.value, true)
      else EqFold(ForEach(r), other.value, true)
  }

  lemma {:induction false} EqFoldFalse<T>(cs: seq<Cell<T>>, other: Rect<T>)
    ensures EqFold(cs, other, false) == Ok(false)
    decreases |cs|
  {
    if cs != [] {
      EqFoldFalse(cs[1..], other);
    }
  }

  /** The visit lies inside `other` and agrees with its cell there. */
  ghost predicate Matches<T>(c: Cell<T>, other: Rect<T>)
  {
    Inside(other, c.x, c.y) && c.val == other.vals[c.y][c.x]
  }

  lemma {:induction false} EqFoldInside<T>(cs: seq<Cell<T>>, other: Rect<T>)
    requires forall k :: 0 <= k < |cs| ==> Inside(other, cs[k].x, cs[k].y)
    ensures EqFold(cs, other, true) == Ok(forall k :: 0 <= k < |cs| ==> Matches(cs[k], other))
    decreases |cs|
  {
    if cs != [] {
      EqFoldInside(cs[1..], other);
      if !Matches(cs[0], other) {
        EqFoldFalse(cs[1..], other);
      } else {
        assert (forall k :: 0 <= k < |cs| ==> Matches(cs[k], other)) <==>
          (forall k :: 0 <= k < |cs[1..]| ==> Matches(cs[1..][k], other));
      }
    }
  }

  lemma EqFoldSameShape<T>(r: Rect<T>, o: Rect<T>)
    requires SameShape(r, o)
    ensures EqFold(ForEach(r), o, true) == Ok(r == o)
  {
    var cs := ForEach(r);
    EqFoldInside(cs, o);
    if forall k :: 0 <= k < |cs| ==> Matches(cs[k], o) {
      forall y | 0 <= y < |r.vals|
        ensures r.vals[y] == o.vals[y]
      {
        forall x | 0 <= x < |r.vals[y]|
          ensures r.vals[y][x] == o.vals[y][x]
        {
          assert Cell(r.vals[y][x], x, y) in cs;
          var k :| 0 <= k < |cs| && cs[k] == Cell(r.vals[y][x], x, y);
          assert Matches(cs[k], o);
        }
      }
      assert r.vals == o.vals;
    } else {
      var k :| 0 <= k < |cs| && !Matches(cs[k], o);
      assert Inside(r, cs[k].x, cs[k].y);
    }
  }

  /** `toString(separator)` on a rect of characters. With no separator it
      is undone by splitting at '\n': every row comes back, so there is one
      '\n' between rows and none after the last row. */
  function ToString(r: Rect<char>, separator: string): (s: string)
    ensures separator == [] && |r.vals| > 0 && (forall y :: 0 <= y < |r.vals| ==> '\n' !in r.vals[y]) ==>
      SplitLines(s) == r.vals
  {
    ToStringRoundTrip(r, separator);
    JoinLines(RowStrings(r, separator))
  }

  /** Each row's characters with `separator` between neighbours. */
  function RowStrings(r: Rect<char>, separator: string): (lines: seq<string>)
    ensures |lines| == |r.vals|
  {
    seq(|r.vals|, y requires 0 <= y < |r.vals| => Interleave(r.vals[y], separator))
  }

  /** A row's characters with `separator` between neighbours. */
  function Interleave(row: seq<char>, separator: string): string
  {
    if |row| <= 1 then row else [row[0]] + separator + Interleave(row[1..], separator)
  }

  /** Lines joined with '\n', no newline after the last. */
  function JoinLines(lines: seq<string>): string
  {
    if lines == [] then [] else if |lines| == 1 then lines[0] else lines[0] + "\n" + JoinLines(lines[1..])
  }

  /** Splitting a string at every '\n'. */
  function SplitLines(s: string): (lines: seq<string>)
    ensures |lines| >= 1
    decreases |s|
  {
    if s == [] then [[]]
    else
      var rest := SplitLines(s[1..]);
      if s[0] == '\n' then [[]] + rest else [[s[0]] + rest[0]] + rest[1..]
  }

  lemma {:induction false} SplitNoNewline(s: string, tail: string)
    requires '\n' !in s
    ensures SplitLines(s + tail) == [s + SplitLines(tail)[0]] + SplitLines(tail)[1..]
    decreases |s|
  {
    if s != [] {
      assert (s + tail)[0] == s[0];
      assert (s + tail)[1..] == s[1..] + tail;
      SplitNoNewline(s[1..], tail);
      var rest := SplitLines(s[1..] + tail);
      assert rest[0] == s[1..] + SplitLines(tail)[0];
      assert rest[1..] == SplitLines(tail)[1..];
      assert [s[0]] + (s[1..] + SplitLines(tail)[0]) == s + SplitLines(tail)[0];
    } else {
      assert s + tail == tail;
      var t := SplitLines(tail);
      assert s + t[0] == t[0];
      assert t == [t[0]] + t[1..];
    }
  }

  lemma {:induction false} SplitJoin(lines: seq<string>)
    requires |lines| >= 1
    requires forall i :: 0 <= i < |lines| ==> '\n' !in lines[i]
    ensures SplitLines(JoinLines(lines)) == lines
    decreases |lines|
  {
    if |lines| == 1 {
      SplitNoNewline(lines[0], []);
      assert lines[0] + [] == lines[0];
      assert SplitLines([]) == [[]];
    } else {
      var rest := JoinLines(lines[1..]);
      SplitJoin(lines[1..]);
      assert JoinLines(lines) == lines[0] + ("\n" + rest);
      SplitNoNewline(lines[0], "\n" + rest);
      assert ("\n" + rest)[1..] == rest;
      var t := SplitLines("\n" + rest);
      assert t == [[]] + lines[1..];
      assert t[0] == [] && t[1..] == lines[1..];
      assert lines[0] + t[0] == lines[0];
      assert lines == [lines[0]] + lines[1..];
    }
  }

  /** With no separator the rows' strings are the rows, which joining and
      splitting give back. */
  lemma ToStringRoundTrip(r: Rect<char>, separator: string)
    ensures separator == [] && |r.vals| > 0 && (forall y :: 0 <= y < |r.vals| ==> '\n' !in r.vals[y]) ==>
      SplitLines(JoinLines(RowStrings(r, separator))) == r.vals
  {
    if separator == [] && |r.vals| > 0 && (forall y :: 0 <= y < |r.vals| ==> '\n' !in r.vals[y]) {
      var lines := RowStrings(r, separator);
      forall y | 0 <= y < |r.vals|
        ensures lines[y] == r.vals[y]
      {
        InterleaveEmpty(r.vals[y]);
      }
      assert lines == r.vals;
      SplitJoin(lines);
    }
  }

  lemma {:induction false} InterleaveEmpty(row: seq<char>)
    ensures Interleave(row, "") == row
    decreases |row|
  {
    if |row| > 1 {
      InterleaveEmpty(row[1..]);
      assert [row[0]] + row[1..] == row;
    }
  }
}
