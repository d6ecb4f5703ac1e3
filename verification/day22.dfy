/** Day 22 (day22.ts): bricks of cubes fall onto the ground and onto each
    other. `settle` drops them lowest first and records which bricks each
    one rests on and supports; part 1 counts the bricks that can be removed
    without another brick falling, and part 2 adds up, per brick, how many
    others would fall with it. */
module Day22 {
  import opened Outcomes
  import Sorting

  datatype Point = Point(x: int, y: int, z: int)

  /** The two given end points, and the low and high bound on each axis. */
  datatype Block = Block(begin: Point, end: Point,
                         lowX: int, highX: int, lowY: int, highY: int, lowZ: int, highZ: int)

  /** `[a, b].sort(asc)`. */
  function Ascending(a: int, b: int): (r: (int, int))
    ensures r.0 <= r.1
    ensures (r.0 == a && r.1 == b) || (r.0 == b && r.1 == a)
  {
    if a <= b then (a, b) else (b, a)
  }

  /** The `Block` constructor: the bounds are the end points' coordinates
      in ascending order, whichever end comes first. */
  function MakeBlock(begin: Point, end: Point): (b: Block)
    ensures b.begin == begin && b.end == end
    ensures b.lowX <= b.highX && b.lowY <= b.highY && b.lowZ <= b.highZ
    ensures {b.lowX, b.highX} == {begin.x, end.x}
    ensures {b.lowY, b.highY} == {begin.y, end.y}
    ensures {b.lowZ, b.highZ} == {begin.z, end.z}
  {
    var (lx, hx) := Ascending(begin.x, end.x);
    var (ly, hy) := Ascending(begin.y, end.y);
    var (lz, hz) := Ascending(begin.z, end.z);
    Block(begin, end, lx, hx, ly, hy, lz, hz)
  }

  /** The order of the end points does not matter to the bounds. */
  lemma MakeBlockSymmetric(begin: Point, end: Point)
    ensures var a, b := MakeBlock(begin, end), MakeBlock(end, begin);
            a.lowX == b.lowX && a.highX == b.highX && a.lowY == b.lowY && a.highY == b.highY
            && a.lowZ == b.lowZ && a.highZ == b.highZ
  {
  }

  /** `lower`: one step down. */
  function Lower(b: Block): (r: Block)
    ensures r.lowX == b.lowX && r.highX == b.highX && r.lowY == b.lowY && r.highY == b.highY
    ensures r.begin.x == b.begin.x && r.begin.y == b.begin.y && r.end.x == b.end.x && r.end.y == b.end.y
    ensures r.lowZ == b.lowZ - 1 && r.highZ == b.highZ - 1
    ensures r.begin.z == b.begin.z - 1 && r.end.z == b.end.z - 1
  {
    b.(begin := b.begin.(z := b.begin.z - 1), end := b.end.(z := b.end.z - 1),
       lowZ := b.lowZ - 1, highZ := b.highZ - 1)
  }

  /** `b` is `a` moved straight down by `a.lowZ - b.lowZ >= 0`. */
  predicate Beneath(a: Block, b: Block)
  {
    var d := a.lowZ - b.lowZ;
    && d >= 0
    && b.lowX == a.lowX && b.highX == a.highX && b.lowY == a.lowY && b.highY == a.highY
    && b.highZ == a.highZ - d
    && b.begin == a.begin.(z := a.begin.z - d)
    && b.end == a.end.(z := a.end.z - d)
  }

  // ---------------------------------------------------------------------
  // The cells of a block
  // ---------------------------------------------------------------------

  /** Number of integers from `lo` to `hi`. */
  function Span(lo: int, hi: int): nat
  {
    if hi < lo then 0 else hi - lo + 1
  }

  function Column(x: int, y: int, lz: int, hz: int): seq<Point>
    decreases hz - lz + 1
  {
    if lz > hz then [] else [Point(x, y, lz)] + Column(x, y, lz + 1, hz)
  }

  function Slab(x: int, ly: int, hy: int, lz: int, hz: int): seq<Point>
    decreases hy - ly + 1
  {
    if ly > hy then [] else Column(x, ly, lz, hz) + Slab(x, ly + 1, hy, lz, hz)
  }

  function Cuboid(lx: int, hx: int, ly: int, hy: int, lz: int, hz: int): seq<Point>
    decreases hx - lx + 1
  {
    if lx > hx then [] else Slab(lx, ly, hy, lz, hz) + Cuboid(lx + 1, hx, ly, hy, lz, hz)
  }

  /** The iterator: x outermost, then y, then z. */
  function Cells(b: Block): seq<Point>
  {
    Cuboid(b.lowX, b.highX, b.lowY, b.highY, b.lowZ, b.highZ)
  }

  predicate Within(p: Point, lx: int, hx: int, ly: int, hy: int, lz: int, hz: int)
  {
    lx <= p.x <= hx && ly <= p.y <= hy && lz <= p.z <= hz
  }

  predicate Distinct<T(==)>(s: seq<T>)
  {
    forall i, j :: 0 <= i < j < |s| ==> s[i] != s[j]
  }

  lemma DistinctConcat<T>(a: seq<T>, b: seq<T>)
    requires Distinct(a) && Distinct(b)
    requires forall x :: x in a ==> x !in b
    ensures Distinct(a + b)
  {
    forall i, j | 0 <= i < j < |a + b|
      ensures (a + b)[i] != (a + b)[j]
    {
      if j >= |a| && i < |a| {
        assert (a + b)[i] in a;
        assert (a + b)[j] == b[j - |a|];
      }
    }
  }

  lemma MulSucc(a: int, b: int)
    ensures (a + 1) * b == b + a * b
  {
  }

  lemma {:induction false} ColumnCells(x: int, y: int, lz: int, hz: int)
    ensures forall p :: p in Column(x, y, lz, hz) <==> p.x == x && p.y == y && lz <= p.z <= hz
    ensures Distinct(Column(x, y, lz, hz))
    ensures |Column(x, y, lz, hz)| == Span(lz, hz)
    decreases hz - lz + 1
  {
    if lz <= hz {
      ColumnCells(x, y, lz + 1, hz);
      DistinctConcat([Point(x, y, lz)], Column(x, y, lz + 1, hz));
    }
  }

  lemma {:induction false} SlabCells(x: int, ly: int, hy: int, lz: int, hz: int)
    ensures forall p :: p in Slab(x, ly, hy, lz, hz) <==> p.x == x && ly <= p.y <= hy && lz <= p.z <= hz
    ensures Distinct(Slab(x, ly, hy, lz, hz))
    ensures |Slab(x, ly, hy, lz, hz)| == Span(ly, hy) * Span(lz, hz)
    decreases hy - ly + 1
  {
    if ly <= hy {
      ColumnCells(x, ly, lz, hz);
      SlabCells(x, ly + 1, hy, lz, hz);
      DistinctConcat(Column(x, ly, lz, hz), Slab(x, ly + 1, hy, lz, hz));
      MulSucc(Span(ly + 1, hy), Span(lz, hz));
    }
  }

  lemma {:induction false} CuboidMembers(lx: int, hx: int, ly: int, hy: int, lz: int, hz: int)
    ensures forall p :: p in Cuboid(lx, hx, ly, hy, lz, hz) <==> Within(p, lx, hx, ly, hy, lz, hz)
    decreases hx - lx + 1
  {
    if lx <= hx {
      SlabCells(lx, ly, hy, lz, hz);
      CuboidMembers(lx + 1, hx, ly, hy, lz, hz);
    }
  }

  lemma {:induction false} CuboidDistinct(lx: int, hx: int, ly: int, hy: int, lz: int, hz: int)
    ensures Distinct(Cuboid(lx, hx, ly, hy, lz, hz))
    decreases hx - lx + 1
  {
    if lx <= hx {
      SlabCells(lx, ly, hy, lz, hz);
      CuboidMembers(lx + 1, hx, ly, hy, lz, hz);
      CuboidDistinct(lx + 1, hx, ly, hy, lz, hz);
      DistinctConcat(Slab(lx, ly, hy, lz, hz), Cuboid(lx + 1, hx, ly, hy, lz, hz));
    }
  }

  lemma {:induction false} CuboidLength(lx: int, hx: int, ly: int, hy: int, lz: int, hz: int)
    ensures |Cuboid(lx, hx, ly, hy, lz, hz)| == Span(lx, hx) * (Span(ly, hy) * Span(lz, hz))
    decreases hx - lx + 1
  {
    if lx <= hx {
      SlabCells(lx, ly, hy, lz, hz);
      CuboidLength(lx + 1, hx, ly, hy, lz, hz);
      MulSucc(Span(lx + 1, hx), Span(ly, hy) * Span(lz, hz));
    }
  }

  /** Iterating a block yields every integer cell within its bounds exactly
      once: (hx - lx + 1)(hy - ly + 1)(hz - lz + 1) cells. */
  lemma CellsOfBlock(b: Block)
    requires b.lowX <= b.highX && b.lowY <= b.highY && b.lowZ <= b.highZ
    ensures forall p :: p in Cells(b) <==> Within(p, b.lowX, b.highX, b.lowY, b.highY, b.lowZ, b.highZ)
    ensures Distinct(Cells(b))
    ensures |Cells(b)| == (b.highX - b.lowX + 1) * ((b.highY - b.lowY + 1) * (b.highZ - b.lowZ + 1))
  {
    CuboidMembers(b.lowX, b.highX, b.lowY, b.highY, b.lowZ, b.highZ);
    CuboidDistinct(b.lowX, b.highX, b.lowY, b.highY, b.lowZ, b.highZ);
    CuboidLength(b.lowX, b.highX, b.lowY, b.highY, b.lowZ, b.highZ);
  }

  // ---------------------------------------------------------------------
  // The occupied cells
  // ---------------------------------------------------------------------

  /** The `done` map: which block (by position in the sorted list) holds
      each cell. */
  type Occupied = map<Point, nat>

  function Below(p: Point): Point
  {
    p.(z := p.z - 1)
  }

  /** `intersect`: the block under each cell, in cell order, with
      repetitions. */
  function Intersect(cells: seq<Point>, done: Occupied): (r: seq<nat>)
    ensures forall k :: k in r ==> k in done.Values
    ensures r == [] <==> forall c :: c in cells ==> Below(c) !in done
    decreases |cells|
  {
    if cells == [] then []
    else
      var rest := Intersect(cells[1..], done);
      assert forall c :: c in cells[1..] ==> c in cells;
      assert forall c :: c in cells ==> c == cells[0] || c in cells[1..];
      (if Below(cells[0]) in done then [done[Below(cells[0])]] else []) + rest
  }

  /** `add`: mark every cell as held by block `i`. */
  function Add(cells: seq<Point>, i: nat, done: Occupied): (r: Occupied)
    ensures forall c :: c in r <==> c in done || c in cells
    ensures forall c :: c in cells ==> r[c] == i
    ensures forall c :: c in done && c !in cells ==> r[c] == done[c]
    decreases |cells|
  {
    if cells == [] then done
    else
      assert forall c :: c in cells ==> c == cells[0] || c in cells[1..];
      Add(cells[1..], i, done[cells[0] := i])
  }

  lemma AddValues(cells: seq<Point>, i: nat, done: Occupied, bound: nat)
    requires forall v :: v in done.Values ==> v < bound
    requires i < bound
    ensures forall v :: v in Add(cells, i, done).Values ==> v < bound
  {
    var r := Add(cells, i, done);
    forall v | v in r.Values
      ensures v < bound
    {
      var c :| c in r && r[c] == v;
      if c !in cells {
        assert done[c] in done.Values;
      }
    }
  }

  /** `new Set(int)`: the distinct elements in order of first appearance. */
  function Dedup(s: seq<nat>): (r: seq<nat>)
    ensures forall x :: x in r <==> x in s
    ensures Distinct(r)
    decreases |s|
  {
    if s == [] then []
    else
      var r := Dedup(s[..|s| - 1]);
      assert forall x :: x in s <==> x in s[..|s| - 1] || x == s[|s| - 1];
      if s[|s| - 1] in r then r else r + [s[|s| - 1]]
  }

  /** The `while` loop: lower the block while nothing is under it and it is
      above z = 2. */
  function Drop(b: Block, done: Occupied): (r: Block)
    ensures Beneath(b, r)
    ensures Intersect(Cells(r), done) == [] ==> r.lowZ <= 2
    ensures b.lowZ >= 2 ==> r.lowZ >= 2
    decreases if b.lowZ > 2 then b.lowZ else 0
  {
    if Intersect(Cells(b), done) == [] && b.lowZ > 2 then Drop(Lower(b), done) else b
  }

  // ---------------------------------------------------------------------
  // Settling
  // ---------------------------------------------------------------------

  /** The blocks (in sorted order, some lowered), what each rests on and
      supports (by position), and the occupied cells. */
  datatype Pile = Pile(blocks: seq<Block>, restsOn: seq<seq<nat>>, supports: seq<seq<nat>>, done: Occupied)

  /** `i.supports.push(b)` for every `i` under block `b`. */
  function AddSupport(supports: seq<seq<nat>>, under: seq<nat>, b: nat): (r: seq<seq<nat>>)
    requires forall k :: k in under ==> k < |supports|
    requires Distinct(under)
    ensures |r| == |supports|
    ensures forall k :: 0 <= k < |r| ==> r[k] == supports[k] + (if k in under then [b] else [])
    decreases |under|
  {
    if under == [] then supports
    else
      var k := under[0];
      assert k in under;
      assert forall j :: j in under[1..] ==> j in under && j != k;
      var r := AddSupport(supports[k := supports[k] + [b]], under[1..], b);
      assert forall j :: j in under ==> j == k || j in under[1..];
      r
  }

  /** One turn of the `for` loop over the sorted blocks: block `i` lands.
      A block at z = 1 stays; any other falls until something is under it
      or it reaches z = 1, and if something is under it, it rests on each
      such block once. */
  function Place(p: Pile, i: nat): (r: Pile)
    requires i < |p.blocks| == |p.restsOn| == |p.supports|
    requires forall v :: v in p.done.Values ==> v < |p.supports|
    ensures |r.blocks| == |p.blocks| && |r.restsOn| == |p.restsOn| && |r.supports| == |p.supports|
    ensures forall j :: 0 <= j < |p.blocks| && j != i ==> r.blocks[j] == p.blocks[j] && r.restsOn[j] == p.restsOn[j]
    ensures Beneath(p.blocks[i], r.blocks[i])
    ensures p.blocks[i].lowZ >= 1 ==> r.blocks[i].lowZ == 1 || r.restsOn[i] != p.restsOn[i]
  {
    var b := p.blocks[i];
    if b.lowZ == 1 then p.(done := Add(Cells(b), i, p.done))
    else
      var dropped := Drop(b, p.done);
      var hits := Intersect(Cells(dropped), p.done);
      if hits != [] then
        var under := Dedup(hits);
        assert under != [] by {
          assert hits[0] in under;
        }
        Pile(p.blocks[i := dropped], p.restsOn[i := p.restsOn[i] + under],
             AddSupport(p.supports, under, i), Add(Cells(dropped), i, p.done))
      else
        var landed := Lower(dropped);
        Pile(p.blocks[i := landed], p.restsOn, p.supports, Add(Cells(landed), i, p.done))
  }

  /** Every position refers to a block; `done` holds only blocks placed
      before `i`; nothing after `i` has moved or rests on anything. */
  predicate Shaped(p: Pile, sorted: seq<Block>, i: nat)
  {
    && i <= |sorted|
    && |p.blocks| == |p.restsOn| == |p.supports| == |sorted|
    && (forall v :: v in p.done.Values ==> v < i)
    && (forall j :: i <= j < |sorted| ==> p.blocks[j] == sorted[j] && p.restsOn[j] == [])
    && (forall j :: 0 <= j < |sorted| ==> Beneath(sorted[j], p.blocks[j]))
  }

  /** Rests-on and supports mirror each other, without repetitions, and a
      block rests only on blocks placed before it. */
  predicate Mirrored(p: Pile)
    requires |p.restsOn| == |p.supports|
  {
    && (forall j :: 0 <= j < |p.restsOn| ==> Distinct(p.restsOn[j]) && Distinct(p.supports[j]))
    && (forall j, k :: 0 <= j < |p.restsOn| && k in p.restsOn[j] ==> k < j)
    && (forall j, k :: 0 <= j < |p.supports| && k in p.supports[j] ==> j < k < |p.supports|)
    && (forall j, k :: 0 <= j < |p.restsOn| && 0 <= k < |p.restsOn| ==>
          (k in p.restsOn[j] <==> j in p.supports[k]))
  }

  /** Every placed block is on the ground or rests on something. */
  predicate Grounded(p: Pile, i: nat)
    requires i <= |p.blocks| == |p.restsOn|
  {
    forall j :: 0 <= j < i ==> p.blocks[j].lowZ == 1 || p.restsOn[j] != []
  }

  lemma PlaceShaped(p: Pile, sorted: seq<Block>, i: nat)
    requires i < |sorted| && Shaped(p, sorted, i)
    ensures Shaped(Place(p, i), sorted, i + 1)
  {
    var r := Place(p, i);
    var b := p.blocks[i];
    if b.lowZ == 1 {
      AddValues(Cells(b), i, p.done, i + 1);
    } else {
      var dropped := Drop(b, p.done);
      var hits := Intersect(Cells(dropped), p.done);
      if hits != [] {
        AddValues(Cells(dropped), i, p.done, i + 1);
      } else {
        AddValues(Cells(Lower(dropped)), i, p.done, i + 1);
      }
    }
    assert forall j :: 0 <= j < |sorted| && j != i ==> r.blocks[j] == p.blocks[j];
    BeneathTrans(sorted[i], p.blocks[i], r.blocks[i]);
  }

  lemma BeneathTrans(a: Block, b: Block, c: Block)
    requires Beneath(a, b) && Beneath(b, c)
    ensures Beneath(a, c)
  {
  }

  lemma PlaceMirrored(p: Pile, sorted: seq<Block>, i: nat)
    requires i < |sorted| && Shaped(p, sorted, i) && Mirrored(p)
    ensures Mirrored(Place(p, i))
  {
    var r := Place(p, i);
    if r.restsOn != p.restsOn || r.supports != p.supports {
      var under := PlaceUnder(p, sorted, i);
      MirroredAfter(p, r, i, under);
    }
  }

  /** When block `i` comes to rest on something, what it rests on: earlier
      blocks, each once. */
  lemma PlaceUnder(p: Pile, sorted: seq<Block>, i: nat) returns (under: seq<nat>)
    requires i < |sorted| && Shaped(p, sorted, i)
    requires Place(p, i).restsOn != p.restsOn || Place(p, i).supports != p.supports
    ensures Distinct(under) && forall k :: k in under ==> k < i
    ensures Place(p, i).restsOn == p.restsOn[i := under]
    ensures Place(p, i).supports == AddSupport(p.supports, under, i)
  {
    var b := p.blocks[i];
    var dropped := Drop(b, p.done);
    var hits := Intersect(Cells(dropped), p.done);
    under := Dedup(hits);
    assert p.restsOn[i] + under == under;
  }

  lemma MirroredAfter(p: Pile, r: Pile, i: nat, under: seq<nat>)
    requires |p.restsOn| == |p.supports| == |r.restsOn| == |r.supports|
    requires i < |p.restsOn| && Mirrored(p)
    requires p.restsOn[i] == [] && Distinct(under) && forall k :: k in under ==> k < i
    requires r.restsOn == p.restsOn[i := under]
    requires forall k :: 0 <= k < |r.supports| ==> r.supports[k] == p.supports[k] + (if k in under then [i] else [])
    ensures Mirrored(r)
  {
    forall k | 0 <= k < |r.supports|
      ensures Distinct(r.supports[k])
    {
      if k in under {
        assert i !in p.supports[k];
        DistinctConcat(p.supports[k], [i]);
      }
    }
  }

  /** `settle`'s loop from block `i` on. */
  function PlaceFrom(p: Pile, i: nat): (r: Pile)
    requires i <= |p.blocks| == |p.restsOn| == |p.supports|
    requires forall v :: v in p.done.Values ==> v < |p.supports|
    ensures |r.blocks| == |p.blocks| && |r.restsOn| == |p.restsOn| && |r.supports| == |p.supports|
    decreases |p.blocks| - i
  {
    if i == |p.blocks| then p
    else
      var q := Place(p, i);
      AddBound(p, i);
      PlaceFrom(q, i + 1)
  }

  lemma AddBound(p: Pile, i: nat)
    requires i < |p.blocks| == |p.restsOn| == |p.supports|
    requires forall v :: v in p.done.Values ==> v < |p.supports|
    ensures forall v :: v in Place(p, i).done.Values ==> v < |p.supports|
  {
    var b := p.blocks[i];
    if b.lowZ == 1 {
      AddValues(Cells(b), i, p.done, |p.supports|);
    } else {
      var dropped := Drop(b, p.done);
      if Intersect(Cells(dropped), p.done) != [] {
        AddValues(Cells(dropped), i, p.done, |p.supports|);
      } else {
        AddValues(Cells(Lower(dropped)), i, p.done, |p.supports|);
      }
    }
  }

  lemma {:induction false} PlaceFromMirrors(p: Pile, sorted: seq<Block>, i: nat)
    requires Shaped(p, sorted, i) && Mirrored(p)
    ensures Shaped(PlaceFrom(p, i), sorted, |sorted|) && Mirrored(PlaceFrom(p, i))
    decreases |sorted| - i
  {
    if i < |sorted| {
      var q := Place(p, i);
      assert Shaped(q, sorted, i + 1) && Mirrored(q) by {
        PlaceShaped(p, sorted, i);
        PlaceMirrored(p, sorted, i);
      }
      PlaceFromMirrors(q, sorted, i + 1);
      assert PlaceFrom(p, i) == PlaceFrom(q, i + 1);
    }
  }

  lemma {:induction false} PlaceFromGrounds(p: Pile, sorted: seq<Block>, i: nat)
    requires Shaped(p, sorted, i) && Grounded(p, i)
    requires forall j :: 0 <= j < |sorted| ==> sorted[j].lowZ >= 1
    ensures Grounded(PlaceFrom(p, i), |sorted|)
    decreases |sorted| - i
  {
    if i < |sorted| {
      var q := Place(p, i);
      PlaceShaped(p, sorted, i);
      assert Grounded(q, i + 1);
      PlaceFromGrounds(q, sorted, i + 1);
    }
  }

  /** The sort's comparator `a.lowZ - b.lowZ`, as "may come before". */
  function ByLowZ(a: Block, b: Block): bool
  {
    a.lowZ <= b.lowZ
  }

  /** The blocks as read, then stably sorted by their lower z. */
  function Sorted(inp: seq<(Point, Point)>): (r: seq<Block>)
    ensures |r| == |inp|
  {
    Sorting.Sort(seq(|inp|, k requires 0 <= k < |inp| => MakeBlock(inp[k].0, inp[k].1)), ByLowZ)
  }

  function Unsettled(sorted: seq<Block>): Pile
  {
    Pile(sorted, seq(|sorted|, _ => []), seq(|sorted|, _ => []), map[])
  }

  /** `settle`: place the sorted blocks in order. */
  function Settle(inp: seq<(Point, Point)>): (r: Pile)
    ensures |r.blocks| == |r.restsOn| == |r.supports| == |inp|
  {
    PlaceFrom(Unsettled(Sorted(inp)), 0)
  }

  /** After `settle`, each block is its sorted original moved straight
      down, rests-on and supports mirror each other without repetitions,
      and a block rests only on blocks placed before it. */
  lemma SettledMirrored(inp: seq<(Point, Point)>)
    ensures forall j :: 0 <= j < |inp| ==> Beneath(Sorted(inp)[j], Settle(inp).blocks[j])
    ensures Mirrored(Settle(inp))
  {
    var sorted := Sorted(inp);
    assert forall j :: 0 <= j < |sorted| ==> Beneath(sorted[j], Unsettled(sorted).blocks[j]);
    PlaceFromMirrors(Unsettled(sorted), sorted, 0);
  }

  /** With every input z at least 1 (as the puzzle gives them), after
      `settle` every block is on the ground or rests on something. */
  lemma SettledGrounded(inp: seq<(Point, Point)>)
    requires forall k :: 0 <= k < |inp| ==> inp[k].0.z >= 1 && inp[k].1.z >= 1
    ensures Grounded(Settle(inp), |inp|)
  {
    var sorted := Sorted(inp);
    assert forall j :: 0 <= j < |sorted| ==> sorted[j].lowZ >= 1 by {
      var made := seq(|inp|, k requires 0 <= k < |inp| => MakeBlock(inp[k].0, inp[k].1));
      forall j | 0 <= j < |sorted|
        ensures sorted[j].lowZ >= 1
      {
        assert sorted[j] in multiset(made);
        var k :| 0 <= k < |made| && made[k] == sorted[j];
      }
    }
    var p := Unsettled(sorted);
    assert Shaped(p, sorted, 0) && Grounded(p, 0) by {
      assert forall j :: 0 <= j < |sorted| ==> Beneath(sorted[j], p.blocks[j]);
    }
    PlaceFromGrounds(p, sorted, 0);
  }

  lemma MirroredIndices(p: Pile)
    requires |p.restsOn| == |p.supports| && Mirrored(p)
    ensures Indices(p)
  {
  }

  // ---------------------------------------------------------------------
  // Part 1
  // ---------------------------------------------------------------------

  /** The filter of `part1`: no block that `j` supports rests on exactly
      one block. */
  predicate Removable(p: Pile, j: nat)
    requires Indices(p) && j < |p.supports|
  {
    forall k :: k in p.supports[j] ==> |p.restsOn[k]| != 1
  }

  /** With mirrored relations a block passes the filter exactly when no
      block rests on it alone. */
  lemma RemovableIff(p: Pile, j: nat)
    requires Indices(p) && Mirrored(p) && j < |p.supports|
    ensures Removable(p, j) <==> forall k :: 0 <= k < |p.restsOn| ==> p.restsOn[k] != [j]
  {
    if !Removable(p, j) {
      var k :| k in p.supports[j] && |p.restsOn[k]| == 1;
      assert j in p.restsOn[k];
      assert p.restsOn[k] == [j];
    }
    forall k | 0 <= k < |p.restsOn| && p.restsOn[k] == [j]
      ensures !Removable(p, j)
    {
      assert j in p.restsOn[k];
      assert k in p.supports[j];
    }
  }

  function CountRemovable(p: Pile, n: nat): (r: nat)
    requires Indices(p) && n <= |p.supports|
    ensures r <= n
  {
    if n == 0 then 0 else CountRemovable(p, n - 1) + (if Removable(p, n - 1) then 1 else 0)
  }

  /** `part1`. */
  function Part1(p: Pile): (r: nat)
    requires Indices(p)
    ensures r <= |p.supports|
  {
    CountRemovable(p, |p.supports|)
  }

  /** A block nothing rests on alone is counted; so with no blocks resting
      on a single block, every block is. */
  lemma Part1AllFree(p: Pile)
    requires Indices(p) && Mirrored(p)
    requires forall k :: 0 <= k < |p.restsOn| ==> |p.restsOn[k]| != 1
    ensures Part1(p) == |p.supports|
  {
    CountAll(p, |p.supports|);
  }

  lemma {:induction false} CountAll(p: Pile, n: nat)
    requires Indices(p) && Mirrored(p) && n <= |p.supports|
    requires forall k :: 0 <= k < |p.restsOn| ==> |p.restsOn[k]| != 1
    ensures CountRemovable(p, n) == n
  {
    if n > 0 {
      CountAll(p, n - 1);
      RemovableIff(p, n - 1);
    }
  }

  // ---------------------------------------------------------------------
  // Part 2
  // ---------------------------------------------------------------------

  predicate Indices(p: Pile)
  {
    && |p.restsOn| == |p.supports|
    && (forall j, k :: 0 <= j < |p.restsOn| && k in p.restsOn[j] ==> k < |p.restsOn|)
    && (forall j, k :: 0 <= j < |p.supports| && k in p.supports[j] ==> k < |p.supports|)
  }

  /** The `while` loop of `part2`: take the next pending block; if
      everything it rests on is falling, it falls too and what it supports
      becomes pending. At most `fuel` turns run. */
  function Fall(p: Pile, falling: set<nat>, pending: seq<nat>, fuel: nat): (r: Option<set<nat>>)
    requires Indices(p)
    requires forall k :: k in pending ==> k < |p.supports|
    ensures r.Some? ==> falling <= r.value
    ensures r.Some? && (forall k :: k in falling ==> k < |p.supports|) ==>
              forall k :: k in r.value ==> k < |p.supports|
    decreases fuel
  {
    if pending == [] then Some(falling)
    else if fuel == 0 then None
    else
      var cur := pending[0];
      assert cur in pending;
      assert forall k :: k in pending[1..] ==> k in pending;
      if forall o :: o in p.restsOn[cur] ==> o in falling then
        Fall(p, falling + {cur}, pending[1..] + p.supports[cur], fuel - 1)
      else
        Fall(p, falling, pending[1..], fuel - 1)
  }

  /** What `falling` means once the loop ends for block `b`: `b` falls;
      every other falling block rests on something and everything it rests
      on falls; and every block supported by a falling block whose supports
      all fall, falls too. */
  ghost predicate Closed(p: Pile, b: nat, falling: set<nat>)
    requires Indices(p)
  {
    && b in falling
    && (forall c :: c in falling ==> c < |p.restsOn|)
    && (forall c :: c in falling && c != b ==>
          p.restsOn[c] != [] && forall o :: o in p.restsOn[c] ==> o in falling)
    && (forall f, s :: f in falling && s in p.supports[f] && (forall o :: o in p.restsOn[s] ==> o in falling)
          ==> s in falling)
  }

  /** The loop invariant: `Closed` with the pending blocks still to be
      decided. */
  ghost predicate Falling(p: Pile, b: nat, falling: set<nat>, pending: seq<nat>)
    requires Indices(p)
  {
    && b in falling
    && (forall c :: c in falling ==> c < |p.restsOn|)
    && (forall c :: c in pending ==> c < |p.restsOn| && p.restsOn[c] != [])
    && (forall c :: c in falling && c != b ==>
          p.restsOn[c] != [] && forall o :: o in p.restsOn[c] ==> o in falling)
    && (forall f, s :: f in falling && s in p.supports[f] ==>
          s in falling || s in pending || exists o :: o in p.restsOn[s] && o !in falling)
  }

  lemma {:induction false} FallCloses(p: Pile, b: nat, falling: set<nat>, pending: seq<nat>, fuel: nat, result: set<nat>)
    requires Indices(p) && Mirrored(p)
    requires forall k :: k in pending ==> k < |p.supports|
    requires Falling(p, b, falling, pending)
    requires Fall(p, falling, pending, fuel) == Some(result)
    ensures Closed(p, b, result)
    decreases fuel
  {
    if pending == [] {
      FallingDone(p, b, falling);
    } else {
      var falling', pending' := FallStep(p, b, falling, pending, fuel, result);
      FallCloses(p, b, falling', pending', fuel - 1, result);
    }
  }

  /** One turn of the loop keeps the invariant. */
  lemma FallStep(p: Pile, b: nat, falling: set<nat>, pending: seq<nat>, fuel: nat, result: set<nat>)
      returns (falling': set<nat>, pending': seq<nat>)
    requires Indices(p) && Mirrored(p)
    requires forall k :: k in pending ==> k < |p.supports|
    requires Falling(p, b, falling, pending)
    requires pending != [] && Fall(p, falling, pending, fuel) == Some(result)
    ensures fuel > 0 && forall k :: k in pending' ==> k < |p.supports|
    ensures Falling(p, b, falling', pending')
    ensures Fall(p, falling', pending', fuel - 1) == Some(result)
  {
    var cur := pending[0];
    var rest := pending[1..];
    assert pending == [cur] + rest;
    assert cur in pending;
    if forall o :: o in p.restsOn[cur] ==> o in falling {
      falling', pending' := falling + {cur}, rest + p.supports[cur];
      FallStepIn(p, b, falling, pending, cur, rest);
    } else {
      falling', pending' := falling, rest;
      FallStepOut(p, b, falling, pending, cur, rest);
    }
    assert forall k :: k in rest ==> k in pending;
  }

  /** With nothing pending the invariant is `Closed`. */
  lemma FallingDone(p: Pile, b: nat, falling: set<nat>)
    requires Indices(p) && Falling(p, b, falling, [])
    ensures Closed(p, b, falling)
  {
    forall f, s | f in falling && s in p.supports[f] && (forall o :: o in p.restsOn[s] ==> o in falling)
      ensures s in falling
    {
      if s !in falling {
        assert false;
      }
    }
  }

  lemma FallStepIn(p: Pile, b: nat, falling: set<nat>, pending: seq<nat>, cur: nat, rest: seq<nat>)
    requires Indices(p) && Mirrored(p)
    requires Falling(p, b, falling, pending)
    requires pending == [cur] + rest && cur < |p.restsOn|
    requires forall o :: o in p.restsOn[cur] ==> o in falling
    ensures Falling(p, b, falling + {cur}, rest + p.supports[cur])
  {
    var falling', pending' := falling + {cur}, rest + p.supports[cur];
    assert cur in pending;
    forall c | c in pending'
      ensures c < |p.restsOn| && p.restsOn[c] != []
    {
      if c in p.supports[cur] {
        assert cur in p.restsOn[c];
      } else {
        assert c in pending;
      }
    }
    forall f, s | f in falling' && s in p.supports[f]
      ensures s in falling' || s in pending' || exists o :: o in p.restsOn[s] && o !in falling'
    {
      if f == cur {
        assert s in pending';
      } else if s !in falling && s !in pending {
        var o :| o in p.restsOn[s] && o !in falling;
        if o == cur {
          assert s in p.supports[cur];
        }
      } else if s in pending && s != cur {
        assert s in rest;
      }
    }
  }

  lemma FallStepOut(p: Pile, b: nat, falling: set<nat>, pending: seq<nat>, cur: nat, rest: seq<nat>)
    requires Indices(p)
    requires Falling(p, b, falling, pending)
    requires pending == [cur] + rest && cur < |p.restsOn|
    requires !forall o :: o in p.restsOn[cur] ==> o in falling
    ensures Falling(p, b, falling, rest)
  {
    assert cur in pending;
    assert forall c :: c in rest ==> c in pending;
    forall f, s | f in falling && s in p.supports[f]
      ensures s in falling || s in rest || exists o :: o in p.restsOn[s] && o !in falling
    {
      if s in pending && s != cur {
        assert s in rest;
      }
    }
  }

  /** Part 2 for one block: start it falling with its supports pending. */
  function FallFrom(p: Pile, b: nat, fuel: nat): (r: Option<set<nat>>)
    requires Indices(p) && b < |p.supports|
    ensures r.Some? ==> b in r.value && |r.value| >= 1
  {
    Fall(p, {b}, p.supports[b], fuel)
  }

  /** The set `FallFrom` ends with is closed. */
  lemma FallFromCloses(p: Pile, b: nat, fuel: nat)
    requires Indices(p) && Mirrored(p) && b < |p.supports|
    requires FallFrom(p, b, fuel).Some?
    ensures Closed(p, b, FallFrom(p, b, fuel).value)
  {
    forall c | c in p.supports[b]
      ensures p.restsOn[c] != []
    {
      assert b in p.restsOn[c];
    }
    FallCloses(p, b, {b}, p.supports[b], fuel, FallFrom(p, b, fuel).value);
  }

  /** `part2`: the falling blocks other than the first, added up over every
      first block (from block `n` on). */
  function Part2From(p: Pile, n: nat, fuel: nat): (r: Option<nat>)
    requires Indices(p) && n <= |p.supports|
    ensures r.Some? ==> r.value <= (|p.supports| - n) * |p.supports|
    decreases |p.supports| - n
  {
    if n == |p.supports| then Some(0)
    else
      var falling :- FallFrom(p, n, fuel);
      var rest :- Part2From(p, n + 1, fuel);
      FallingBound(p, n, fuel);
      AddRowBound(|falling|, rest, |p.supports| - n, |p.supports|);
      Some(|falling| - 1 + rest)
  }

  lemma FallingBound(p: Pile, b: nat, fuel: nat)
    requires Indices(p) && b < |p.supports|
    requires FallFrom(p, b, fuel).Some?
    ensures |FallFrom(p, b, fuel).value| <= |p.supports|
  {
    var f := FallFrom(p, b, fuel).value;
    assert b < |p.supports|;
    BelowCard(f, |p.supports|);
  }

  /** A set of naturals below `n` has at most `n` elements. */
  lemma {:induction false} BelowCard(f: set<nat>, n: nat)
    requires forall k :: k in f ==> k < n
    ensures |f| <= n
  {
    if n > 0 {
      var g := f - {n - 1};
      BelowCard(g, n - 1);
      assert f <= g + {n - 1};
    }
  }

  lemma AddRowBound(a: nat, rest: nat, m: nat, n: nat)
    requires 1 <= a <= n && m >= 1 && rest <= (m - 1) * n
    ensures a - 1 + rest <= m * n
  {
    MulSucc(m - 1, n);
  }

  function Part2(p: Pile, fuel: nat): (r: Option<nat>)
    requires Indices(p)
    ensures r.Some? ==> r.value <= |p.supports| * |p.supports|
  {
    Part2From(p, 0, fuel)
  }

  /** When no block supports another, nothing falls with any block. */
  lemma {:induction false} Part2Alone(p: Pile, n: nat, fuel: nat)
    requires Indices(p) && n <= |p.supports|
    requires forall j :: 0 <= j < |p.supports| ==> p.supports[j] == []
    ensures Part2From(p, n, fuel) == Some(0)
    decreases |p.supports| - n
  {
    if n < |p.supports| {
      assert FallFrom(p, n, fuel) == Some({n});
      Part2Alone(p, n + 1, fuel);
    }
  }

  /** When `part2` finishes, the set it counted for every block is
      closed. */
  lemma {:induction false} Part2Closed(p: Pile, n: nat, fuel: nat, b: nat)
    requires Indices(p) && Mirrored(p) && n <= b < |p.supports|
    requires Part2From(p, n, fuel).Some?
    ensures FallFrom(p, b, fuel).Some? && Closed(p, b, FallFrom(p, b, fuel).value)
    decreases b - n
  {
    if b > n {
      Part2Closed(p, n + 1, fuel, b);
    } else {
      FallFromCloses(p, b, fuel);
    }
  }

  /** Both parts on the settled input. */
  function Solve(inp: seq<(Point, Point)>, fuel: nat): (r: (nat, Option<nat>))
    ensures r.0 <= |inp|
    ensures r.1.Some? ==> r.1.value <= |inp| * |inp|
  {
    var p := Settle(inp);
    SettledMirrored(inp);
    MirroredIndices(p);
    (Part1(p), Part2(p, fuel))
  }
}
