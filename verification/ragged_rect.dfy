/** The older container of rect.ts. Its `#check`, `get` and `set` are the
    same as in lib/rect.ts and are modelled once, by Grid.Check, Grid.Get
    and Grid.Set; what differs is that every row has its own width, which
    `forEach` and `map` follow row by row. */
module RaggedRect {
  import opened Outcomes
  import opened Grid

  const TypeError := "TypeError: row is undefined"

  /** `width(y)`: the length of row y, which is exactly the bound that
      `get` checks x against on that row. */
  function Width<T>(r: Rect<T>, y: int): (w: Result<nat>)
    ensures w.Ok? <==> 0 <= y < Height(r)
    ensures w.Ok? ==> forall x :: Get(r, x, y, 0, 0).Ok? <==> 0 <= x < w.value
    ensures w.Ok? && Uniform(r) ==> w.value == Grid.Width(r)
  {
    if 0 <= y < |r.vals| then Ok(|r.vals[y]|) else Err(TypeError)
  }

  /** `set` never changes the width of any row. */
  lemma SetKeepsWidths<T>(r: Rect<T>, x: int, y: int, val: T)
    requires Set(r, x, y, val).Ok?
    ensures forall j :: Width(Set(r, x, y, val).value, j) == Width(r, j)
  {
  }

  /** `map(fn)`: every row keeps its own length, and cell (x, y) becomes
      `fn(get(x, y), x, y)`. */
  function Map<T, U>(r: Rect<T>, f: (T, nat, nat) -> U): (m: Rect<U>)
    ensures SameShape(r, m)
    ensures forall x, y :: Inside(r, x, y) ==> Get(m, x, y, 0, 0) == Ok(f(r.vals[y][x], x, y))
  {
    MapRowsShape(r.vals, f, 0);
    Rect(MapRows(r.vals, f, 0))
  }

  function MapRow<T, U>(row: seq<T>, f: (T, nat, nat) -> U, y: nat): seq<U>
  {
    seq(|row|, x requires 0 <= x < |row| => f(row[x], x, y))
  }

  function MapRows<T, U>(rows: seq<seq<T>>, f: (T, nat, nat) -> U, y: nat): seq<seq<U>>
    decreases |rows|
  {
    if rows == [] then [] else [MapRow(rows[0], f, y)] + MapRows(rows[1..], f, y + 1)
  }

  lemma {:induction false} MapRowsShape<T, U>(rows: seq<seq<T>>, f: (T, nat, nat) -> U, y: nat)
    ensures |MapRows(rows, f, y)| == |rows|
    ensures forall j :: 0 <= j < |rows| ==> MapRows(rows, f, y)[j] == MapRow(rows[j], f, y + j)
    decreases |rows|
  {
    if rows != [] {
      MapRowsShape(rows[1..], f, y + 1);
    }
  }

  /** The visits with each value passed through the callback. */
  function Apply<T, U>(cs: seq<Cell<T>>, f: (T, nat, nat) -> U): seq<Cell<U>>
  {
    seq(|cs|, k requires 0 <= k < |cs| => Cell(f(cs[k].val, cs[k].x, cs[k].y), cs[k].x, cs[k].y))
  }

  lemma {:induction false} ApplyRows<T, U>(rows: seq<seq<T>>, f: (T, nat, nat) -> U, y: nat)
    ensures RowsFrom(MapRows(rows, f, y), y) == Apply(RowsFrom(rows, y), f)
    decreases |rows|
  {
    if rows != [] {
      ApplyRows(rows[1..], f, y + 1);
      var m := MapRows(rows, f, y);
      assert m[0] == MapRow(rows[0], f, y) && m[1..] == MapRows(rows[1..], f, y + 1);
      assert RowCells(MapRow(rows[0], f, y), y) == Apply(RowCells(rows[0], y), f);
      var a := RowCells(rows[0], y);
      var b := RowsFrom(rows[1..], y + 1);
      assert Apply(a + b, f) == Apply(a, f) + Apply(b, f);
    }
  }

  /** Mapping and then iterating visits the same coordinates, in the same
      order, as iterating the original, with each value passed through
      the callback. */
  lemma MapForEach<T, U>(r: Rect<T>, f: (T, nat, nat) -> U)
    ensures ForEach(Map(r, f)) == Apply(ForEach(r), f)
  {
    ApplyRows(r.vals, f, 0);
  }

  /** `toString()`: the rows' characters with '\n' between rows and none
      after the last, so splitting at '\n' gives the rows back. */
  function ToString(r: Rect<char>): (s: string)
    ensures |r.vals| > 0 && (forall y :: 0 <= y < |r.vals| ==> '\n' !in r.vals[y]) ==>
      SplitLines(s) == r.vals
  {
    Grid.ToString(r, "")
  }
}
