/** Day 10 (day10.ts): the pipe maze. The animal's loop is followed from
    the start 'S'; part 1 is half its length and part 2 counts the ground
    cells inside it by casting diagonal rays. */
module Day10 {
  import opened Outcomes
  import Grid

  /** A 1-based position in the sketch. */
  datatype Location = Location(line: int, column: int)

  /** [dx, dy, entrypoint]: the offset to the next cell and the code of the
      direction of travel, which is the entry code at that cell. The codes
      are 1 down, 2 right, 3 left, 4 up. */
  type NextCell = (int, int, int)

  /** Left, right, up, down, in the order the start's exit is searched. */
  const Cardinal: seq<NextCell> := [(-1, 0, 3), (1, 0, 2), (0, -1, 4), (0, 1, 1)]

  const TypeError := "TypeError: no entry for this pipe"
  const LoopBound := "loop bound reached"
  const UnknownState := "Unknown state"

  /** The keys of DIRS. */
  predicate IsPipe(c: char)
  {
    IsShape(c) || c == '.' || c == 'S'
  }

  /** The six pipe shapes. */
  predicate IsShape(c: char)
  {
    c == '|' || c == '-' || c == 'L' || c == 'J' || c == '7' || c == 'F'
  }

  /** The marks a ray may read: ground, a crossing, an outside corner. */
  predicate Known(c: char)
  {
    c == '.' || c == 'P' || c == 'N'
  }

  /** DIRS[p][d]: the way out of pipe p for a walker entering it while
      travelling in direction d, if the pipe has that entry. */
  function Dirs(p: char, d: int): Option<NextCell>
  {
    match p
    case '|' => if d == 1 then Some((0, 1, 1)) else if d == 4 then Some((0, -1, 4)) else None
    case '-' => if d == 2 then Some((1, 0, 2)) else if d == 3 then Some((-1, 0, 3)) else None
    case 'L' => if d == 1 then Some((1, 0, 2)) else if d == 3 then Some((0, -1, 4)) else None
    case 'J' => if d == 1 then Some((-1, 0, 3)) else if d == 2 then Some((0, -1, 4)) else None
    case '7' => if d == 2 then Some((0, 1, 1)) else if d == 4 then Some((-1, 0, 3)) else None
    case 'F' => if d == 3 then Some((0, 1, 1)) else if d == 4 then Some((1, 0, 2)) else None
    case _ => None
  }

  /** The entry codes a pipe accepts. */
  function Entries(p: char): set<int>
  {
    set d | d in {1, 2, 3, 4} && Dirs(p, d).Some?
  }

  /** Every exit of the table is one of the four unit steps, carrying the
      code CARDINAL gives that step; the four steps have distinct codes. */
  lemma DirsAreCardinal(p: char, d: int)
    ensures Dirs(p, d).Some? ==> Dirs(p, d).value in Cardinal
    ensures forall i :: 0 <= i < |Cardinal| ==>
      (var (dx, dy, _) := Cardinal[i]; (dx == 0 || dy == 0) && -1 <= dx + dy <= 1 && dx + dy != 0)
    ensures forall i, j :: 0 <= i < j < |Cardinal| ==> Cardinal[i].2 != Cardinal[j].2
  {
  }

  /** Each of the six pipe shapes has exactly two entries; ground and the
      start have none, and no code outside 1..4 is ever an entry. */
  lemma EntryCount(p: char)
    ensures forall d :: Dirs(p, d).Some? ==> 1 <= d <= 4
    ensures IsShape(p) ==> |Entries(p)| == 2
    ensures !IsShape(p) ==> Entries(p) == {}
  {
    if p == '|' || p == 'L' {
      assert Entries(p) == {1, 4} || Entries(p) == {1, 3};
    } else if p == '-' || p == 'J' {
      assert Entries(p) == {2, 3} || Entries(p) == {1, 2};
    } else if p == '7' || p == 'F' {
      assert Entries(p) == {2, 4} || Entries(p) == {3, 4};
    }
  }

  /** The code of travel in the opposite direction. */
  function Reverse(d: int): int
  {
    5 - d
  }

  /** Pipes are two-way: a walker who left pipe p by step (dx, dy, e),
      having entered it by step (ex, ey, d), can come back by entering p
      against e and then leaves against d. */
  lemma TwoWay(p: char, d: int, ex: int, ey: int)
    requires (ex, ey, d) in Cardinal && Dirs(p, d).Some?
    ensures (-ex, -ey, Reverse(d)) in Cardinal
    ensures var (dx, dy, e) := Dirs(p, d).value;
      Dirs(p, Reverse(e)) == Some((-ex, -ey, Reverse(d)))
  {
  }

  /** The character at (col + dx, line + dy) accepts the step from CARDINAL. */
  predicate Accepts(r: Grid.Rect<char>, col: int, line: int, n: NextCell)
  {
    Grid.Inside(r, col + n.0, line + n.1) && IsPipe(r.vals[line + n.1][col + n.0]) &&
    Dirs(r.vals[line + n.1][col + n.0], n.2).Some?
  }

  /** The `find` over CARDINAL from index i: the first step whose target
      accepts it. A target outside the sketch raises the range error, a
      character that is not a key of the table raises a type error, and
      so does the destructuring when no step is found. */
  function FirstExit(r: Grid.Rect<char>, col: int, line: int, i: nat): (n: Result<NextCell>)
    decreases |Cardinal| - i
  {
    if i >= |Cardinal| then Err(TypeError)
    else
      var (dx, dy, d) := Cardinal[i];
      var c :- Grid.Get(r, col, line, dx, dy);
      if !IsPipe(c) then Err(TypeError)
      else if Dirs(c, d).Some? then Ok(Cardinal[i])
      else FirstExit(r, col, line, i + 1)
  }

  /** When the search succeeds, the step found is one that accepts and
      every step before it, from index i, lands inside without being
      accepted. */
  lemma {:induction false} FirstExitFound(r: Grid.Rect<char>, col: int, line: int, i: nat) returns (j: nat)
    requires FirstExit(r, col, line, i).Ok?
    ensures i <= j < |Cardinal| && FirstExitAt(r, col, line, i, j)
    ensures FirstExit(r, col, line, i) == Ok(Cardinal[j])
    decreases |Cardinal| - i
  {
    if !Accepts(r, col, line, Cardinal[i]) {
      j := FirstExitFound(r, col, line, i + 1);
      assert FirstExitAt(r, col, line, i, j);
    } else {
      j := i;
      assert FirstExitAt(r, col, line, i, i);
    }
  }

  /** Conversely the first accepting step, with every earlier one landing
      inside, is the one found. */
  lemma {:induction false} FirstExitFirst(r: Grid.Rect<char>, col: int, line: int, i: nat, j: nat)
    requires i <= j < |Cardinal| && FirstExitAt(r, col, line, i, j)
    ensures FirstExit(r, col, line, i) == Ok(Cardinal[j])
    decreases j - i
  {
    if i < j {
      assert FirstExitAt(r, col, line, i + 1, j);
      FirstExitFirst(r, col, line, i + 1, j);
    }
  }

  /** Step j accepts, and each step from i up to j lands inside without
      being accepted. */
  predicate FirstExitAt(r: Grid.Rect<char>, col: int, line: int, i: nat, j: nat)
    requires j < |Cardinal|
  {
    Accepts(r, col, line, Cardinal[j]) &&
    forall k :: i <= k < j ==> Grid.Inside(r, col + Cardinal[k].0, line + Cardinal[k].1) && IsPipe(r.vals[line + Cardinal[k].1][col + Cardinal[k].0]) && !Accepts(r, col, line, Cardinal[k])
  }

  /** One call of the callback: the character, its position and the code of
      the step that entered it. */
  datatype Visit = Visit(ch: char, x: int, y: int, d: int)

  /** The do-while loop of `chase`, from the cell (x, y) holding ch, entered
      in direction d: the visits up to the return to 'S'. The loop has no
      bound in the source; `fuel` bounds the number of further steps. */
  function Walk(r: Grid.Rect<char>, x: int, y: int, ch: char, d: int, fuel: nat): Result<seq<Visit>>
    decreases fuel
  {
    var v := Visit(ch, x, y, d);
    if !IsPipe(ch) then Err(TypeError)
    else match Dirs(ch, d)
      case None => Err(TypeError)
      case Some((dx, dy, e)) =>
        var c :- Grid.Get(r, x + dx, y + dy, 0, 0);
        if c == 'S' then Ok([v])
        else if fuel == 0 then Err(LoopBound)
        else
          var rest :- Walk(r, x + dx, y + dy, c, e, fuel - 1);
          Ok([v] + rest)
  }

  /** `chase`: the start is 1-based; the walk begins at the first neighbour
      that accepts the step into it. */
  function Chase(r: Grid.Rect<char>, start: Location, fuel: nat): Result<seq<Visit>>
  {
    var line := start.line - 1;
    var col := start.column - 1;
    var n :- FirstExit(r, col, line, 0);
    var ch :- Grid.Get(r, col + n.0, line + n.1, 0, 0);
    Walk(r, col + n.0, line + n.1, ch, n.2, fuel)
  }

  /** One step of a successful walk: the table's step from (x, y) lands
      inside on c, and the walk either closes on 'S' or goes on from c. */
  lemma WalkUnfold(r: Grid.Rect<char>, x: int, y: int, ch: char, d: int, fuel: nat)
      returns (dx: int, dy: int, e: int, c: char)
    requires Walk(r, x, y, ch, d, fuel).Ok?
    ensures IsPipe(ch) && Dirs(ch, d) == Some((dx, dy, e))
    ensures Grid.Inside(r, x + dx, y + dy) && c == r.vals[y + dy][x + dx]
    ensures c == 'S' ==> Walk(r, x, y, ch, d, fuel).value == [Visit(ch, x, y, d)]
    ensures c != 'S' ==> (fuel > 0 && Walk(r, x + dx, y + dy, c, e, fuel - 1).Ok? &&
      Walk(r, x, y, ch, d, fuel).value == [Visit(ch, x, y, d)] + Walk(r, x + dx, y + dy, c, e, fuel - 1).value)
  {
    var t := Dirs(ch, d).value;
    dx, dy, e := t.0, t.1, t.2;
    c := r.vals[y + dy][x + dx];
  }

  /** A successful chase is the walk from the first exit of the start. */
  lemma ChaseIs(r: Grid.Rect<char>, start: Location, fuel: nat, vs: seq<Visit>) returns (n: NextCell, ch: char)
    requires Chase(r, start, fuel) == Ok(vs)
    ensures FirstExit(r, start.column - 1, start.line - 1, 0) == Ok(n)
    ensures n.0 + n.1 == 1 || n.0 + n.1 == -1
    ensures Grid.Inside(r, start.column - 1 + n.0, start.line - 1 + n.1)
    ensures ch == r.vals[start.line - 1 + n.1][start.column - 1 + n.0]
    ensures Walk(r, start.column - 1 + n.0, start.line - 1 + n.1, ch, n.2, fuel) == Ok(vs)
  {
    var col, line := start.column - 1, start.line - 1;
    var j := FirstExitFound(r, col, line, 0);
    n := Cardinal[j];
    assert Accepts(r, col, line, n);
    ch := r.vals[line + n.1][col + n.0];
    assert Grid.Get(r, col + n.0, line + n.1, 0, 0) == Ok(ch);
  }

  /** A successful walk starts where it was put, meets only the six pipe
      shapes (so the callback of part 2 never throws), every later visit is
      a non-'S' cell of the sketch, and consecutive visits are joined by the
      step the table gives. */
  lemma {:induction false} WalkShape(r: Grid.Rect<char>, x: int, y: int, ch: char, d: int, fuel: nat)
    requires Walk(r, x, y, ch, d, fuel).Ok?
    ensures var vs := Walk(r, x, y, ch, d, fuel).value;
      |vs| >= 1 && vs[0] == Visit(ch, x, y, d) &&
      (forall i :: 0 <= i < |vs| ==> IsShape(vs[i].ch) && Dirs(vs[i].ch, vs[i].d).Some?) &&
      (forall i :: 0 < i < |vs| ==> Grid.Inside(r, vs[i].x, vs[i].y) && r.vals[vs[i].y][vs[i].x] == vs[i].ch != 'S')
    decreases fuel
  {
    var dx, dy, e, c := WalkUnfold(r, x, y, ch, d, fuel);
    if c != 'S' {
      WalkShape(r, x + dx, y + dy, c, e, fuel - 1);
      var rest := Walk(r, x + dx, y + dy, c, e, fuel - 1).value;
      assert forall i :: 0 < i < |rest| + 1 ==> ([Visit(ch, x, y, d)] + rest)[i] == rest[i - 1];
    }
  }

  /** The shape part of WalkShape, for a walk whose visits are named. */
  lemma WalkShapes(r: Grid.Rect<char>, x: int, y: int, ch: char, d: int, fuel: nat, vs: seq<Visit>)
    requires Walk(r, x, y, ch, d, fuel) == Ok(vs)
    ensures forall i :: 0 <= i < |vs| ==> IsShape(vs[i].ch)
  {
    WalkShape(r, x, y, ch, d, fuel);
  }

  /** Visit b follows visit a by the step the table gives for a. */
  predicate Link(a: Visit, b: Visit)
  {
    Dirs(a.ch, a.d) == Some((b.x - a.x, b.y - a.y, b.d))
  }

  predicate Linked(vs: seq<Visit>)
  {
    forall i :: 0 <= i < |vs| - 1 ==> Link(vs[i], vs[i + 1])
  }

  /** The step out of visit v lands on an 'S'. */
  predicate Closes(r: Grid.Rect<char>, v: Visit)
  {
    Dirs(v.ch, v.d).Some? && Grid.Get(r, v.x + Dirs(v.ch, v.d).value.0, v.y + Dirs(v.ch, v.d).value.1, 0, 0) == Ok('S')
  }

  /** Consecutive visits are joined by the step the table gives. */
  lemma {:induction false} WalkLinks(r: Grid.Rect<char>, x: int, y: int, ch: char, d: int, fuel: nat)
    requires Walk(r, x, y, ch, d, fuel).Ok?
    ensures Linked(Walk(r, x, y, ch, d, fuel).value)
    decreases fuel
  {
    var dx, dy, e, c := WalkUnfold(r, x, y, ch, d, fuel);
    if c != 'S' {
      var v := Visit(ch, x, y, d);
      var rest := Walk(r, x + dx, y + dy, c, e, fuel - 1).value;
      WalkLinks(r, x + dx, y + dy, c, e, fuel - 1);
      WalkFirst(r, x + dx, y + dy, c, e, fuel - 1);
      assert Link(v, rest[0]);
      LinkedCons(v, rest);
    }
  }

  /** The step out of the last visit lands on an 'S'. */
  lemma {:induction false} WalkCloses(r: Grid.Rect<char>, x: int, y: int, ch: char, d: int, fuel: nat)
    requires Walk(r, x, y, ch, d, fuel).Ok?
    ensures var vs := Walk(r, x, y, ch, d, fuel).value;
      |vs| >= 1 && Closes(r, vs[|vs| - 1])
    decreases fuel
  {
    var dx, dy, e, c := WalkUnfold(r, x, y, ch, d, fuel);
    if c != 'S' {
      var rest := Walk(r, x + dx, y + dy, c, e, fuel - 1).value;
      WalkCloses(r, x + dx, y + dy, c, e, fuel - 1);
      var vs := [Visit(ch, x, y, d)] + rest;
      assert vs[|vs| - 1] == rest[|rest| - 1];
    }
  }

  lemma LinkedCons(v: Visit, rest: seq<Visit>)
    requires |rest| >= 1 && Linked(rest) && Link(v, rest[0])
    ensures Linked([v] + rest)
  {
    var vs := [v] + rest;
    forall i | 0 <= i < |vs| - 1
      ensures Link(vs[i], vs[i + 1])
    {
      if i > 0 {
        assert vs[i] == rest[i - 1] && vs[i + 1] == rest[i];
      }
    }
  }

  lemma WalkFirst(r: Grid.Rect<char>, x: int, y: int, ch: char, d: int, fuel: nat)
    requires Walk(r, x, y, ch, d, fuel).Ok?
    ensures Walk(r, x, y, ch, d, fuel).value[0] == Visit(ch, x, y, d)
  {
  }

  /** Only one 'S' in the sketch, at (sx, sy). */
  ghost predicate OneStart(r: Grid.Rect<char>, sx: int, sy: int)
  {
    forall x, y :: StartAt(r, x, y) ==> x == sx && y == sy
  }

  predicate StartAt(r: Grid.Rect<char>, x: int, y: int)
  {
    Grid.Inside(r, x, y) && r.vals[y][x] == 'S'
  }

  /** Every step changes x + y by one, so a walk that ends next to the only
      'S' has a length whose parity is fixed by the positions. */
  lemma {:induction false} WalkParity(r: Grid.Rect<char>, x: int, y: int, ch: char, d: int, fuel: nat, sx: int, sy: int)
    requires OneStart(r, sx, sy)
    requires Walk(r, x, y, ch, d, fuel).Ok?
    ensures (sx + sy + x + y + |Walk(r, x, y, ch, d, fuel).value|) % 2 == 0
    decreases fuel
  {
    DirsAreCardinal(ch, d);
    var dx, dy, e, c := WalkUnfold(r, x, y, ch, d, fuel);
    var k := |Walk(r, x, y, ch, d, fuel).value|;
    var t := dx + dy;
    assert t == 1 || t == -1;
    if c != 'S' {
      WalkParity(r, x + dx, y + dy, c, e, fuel - 1, sx, sy);
      var a := sx + sy + x + y + k - 1;
      assert (a + t) % 2 == 0;
      if t == 1 {
        SameParity(a + 1, a + t, 0);
      } else {
        SameParity(a + 1, a + t, 1);
      }
    } else {
      assert StartAt(r, x + dx, y + dy);
      assert x + dx == sx && y + dy == sy && k == 1;
      if t == 1 {
        SameParity(sx + sy + x + y + k, 0, x + y + 1);
      } else {
        SameParity(sx + sy + x + y + k, 0, x + y);
      }
    }
  }

  lemma SameParity(a: int, b: int, m: int)
    requires a == b + 2 * m
    ensures a % 2 == b % 2
  {
  }

  /** Part 1: the loop length is one for 'S' plus one per visit; the answer
      is half of it, a JavaScript number, so an odd length gives a half. */
  function Part1(r: Grid.Rect<char>, start: Location, fuel: nat): (n: Result<real>)
    ensures n.Ok? <==> Chase(r, start, fuel).Ok?
    ensures n.Ok? ==> 2.0 * n.value == (1 + |Chase(r, start, fuel).value|) as real && n.value >= 0.5
  {
    var vs :- Chase(r, start, fuel);
    Ok((1 + |vs|) as real / 2.0)
  }

  /** When the start is the only 'S', the loop has even length, so part 1
      answers a whole number, half the loop cells, 'S' included. */
  lemma Part1Exact(r: Grid.Rect<char>, start: Location, fuel: nat)
    requires OneStart(r, start.column - 1, start.line - 1)
    requires Chase(r, start, fuel).Ok?
    ensures Part1(r, start, fuel).Ok?
    ensures var k := (1 + |Chase(r, start, fuel).value|) / 2;
      Part1(r, start, fuel).value == k as real && 2 * k == 1 + |Chase(r, start, fuel).value|
  {
    LoopEven(r, start, fuel, Chase(r, start, fuel).value);
  }

  lemma LoopEven(r: Grid.Rect<char>, start: Location, fuel: nat, vs: seq<Visit>)
    requires OneStart(r, start.column - 1, start.line - 1)
    requires Chase(r, start, fuel) == Ok(vs)
    ensures (1 + |vs|) % 2 == 0
  {
    var n, ch := ChaseIs(r, start, fuel, vs);
    var sx, sy := start.column - 1, start.line - 1;
    WalkEven(r, sx, sy, sx + n.0, sy + n.1, ch, n.2, fuel, vs);
  }

  /** A walk that starts one cardinal step from the only 'S' and returns
      to it has odd length. */
  lemma WalkEven(r: Grid.Rect<char>, sx: int, sy: int, x: int, y: int, ch: char, d: int, fuel: nat, vs: seq<Visit>)
    requires OneStart(r, sx, sy)
    requires x + y == sx + sy + 1 || x + y == sx + sy - 1
    requires Walk(r, x, y, ch, d, fuel) == Ok(vs)
    ensures (1 + |vs|) % 2 == 0
  {
    WalkParity(r, x, y, ch, d, fuel, sx, sy);
    var k := |vs|;
    var a := sx + sy + x + y + k;
    if x + y == sx + sy + 1 {
      SameParity(a, 1 + k, sx + sy);
    } else {
      SameParity(a, 1 + k, sx + sy - 1);
    }
  }

  /** What the callback of part 2 writes for a character: a crossing 'P',
      an outside corner 'N', or nothing. */
  function Write(c: char): Option<char>
  {
    if c == 'J' || c == 'F' || c == '|' || c == '-' then Some('P')
    else if c == '7' || c == 'L' then Some('N')
    else None
  }

  /** The marks after the walk: 'P' at the start, each visit's write over
      it in order, and '.' elsewhere. */
  datatype Marks = Marks(sx: int, sy: int, visits: seq<Visit>)

  /** The mark at (x, y): the last write there wins. */
  function MarkAt(m: Marks, x: int, y: int): (c: char)
    ensures Known(c)
    decreases |m.visits|
  {
    if m.visits == [] then (if x == m.sx && y == m.sy then 'P' else '.')
    else
      var v := m.visits[|m.visits| - 1];
      if v.x == x && v.y == y && Write(v.ch).Some? then Write(v.ch).value
      else MarkAt(Marks(m.sx, m.sy, m.visits[..|m.visits| - 1]), x, y)
  }

  /** A cell reads '.' exactly when it is not the start and no visit there
      wrote anything. */
  lemma {:induction false} MarkAtDot(m: Marks, x: int, y: int)
    ensures MarkAt(m, x, y) == '.' <==> ((x != m.sx || y != m.sy) &&
      forall i :: 0 <= i < |m.visits| ==> m.visits[i].x != x || m.visits[i].y != y || Write(m.visits[i].ch).None?)
    decreases |m.visits|
  {
    if m.visits != [] {
      var init := m.visits[..|m.visits| - 1];
      MarkAtDot(Marks(m.sx, m.sy, init), x, y);
      assert forall i :: 0 <= i < |init| ==> init[i] == m.visits[i];
    }
  }

  /** The marks a ray meets from (x, y) down and to the right, while inside
      the width w and height h. */
  function Diag(m: Marks, w: nat, h: nat, x: nat, y: nat): (cells: seq<char>)
    decreases w - x
  {
    if x >= w || y >= h then [] else [MarkAt(m, x, y)] + Diag(m, w, h, x + 1, y + 1)
  }

  /** A ray runs to the nearer of the right and bottom edges and reads the
      marks along the diagonal. */
  lemma {:induction false} DiagCells(m: Marks, w: nat, h: nat, x: nat, y: nat)
    ensures var cells := Diag(m, w, h, x, y);
      && |cells| == (if x < w && y < h then (if w - x < h - y then w - x else h - y) else 0)
      && forall k :: 0 <= k < |cells| ==> cells[k] == MarkAt(m, x + k, y + k)
    decreases w - x
  {
    if x < w && y < h {
      DiagCells(m, w, h, x + 1, y + 1);
    }
  }

  /** `ray`: counts the '.' cells met while `cross` is set; 'P' flips it,
      'N' leaves it. Any other mark means the cell was met before. */
  function Scan(cells: seq<char>, cross: bool): Result<nat>
  {
    if cells == [] then Ok(0)
    else if cells[0] == '.' then
      var n :- Scan(cells[1..], cross);
      Ok(n + if cross then 1 else 0)
    else if cells[0] == 'P' then Scan(cells[1..], !cross)
    else if cells[0] == 'N' then Scan(cells[1..], cross)
    else Err(UnknownState)
  }

  function PCount(cells: seq<char>): nat
  {
    CountIf(cells, (c: char) => c == 'P')
  }

  /** The inside cells of a ray, stated without the running flag: a '.'
      counts when the number of 'P' before it, plus one if the ray started
      crossed, is odd. */
  function Inside(cells: seq<char>, cross: bool): nat
  {
    if cells == [] then 0
    else
      var init := cells[..|cells| - 1];
      Inside(init, cross) + (if cells[|cells| - 1] == '.' && cross != (PCount(init) % 2 == 1) then 1 else 0)
  }

  lemma {:induction false} InsideCons(c: char, rest: seq<char>, cross: bool)
    ensures Inside([c] + rest, cross) == (if c == '.' && cross then 1 else 0) + Inside(rest, cross != (c == 'P'))
    decreases |rest|
  {
    var s := [c] + rest;
    if rest == [] {
      assert s[..0] == [];
    } else {
      var init := rest[..|rest| - 1];
      assert s[..|s| - 1] == [c] + init;
      InsideCons(c, init, cross);
      CountIfAppend([c], init, (x: char) => x == 'P');
      assert [c][..0] == [];
    }
  }

  /** The ray's running flag computes exactly the parity count, and the
      ray fails only on a mark other than '.', 'P' and 'N'. */
  lemma {:induction false} ScanIsInside(cells: seq<char>, cross: bool)
    ensures Scan(cells, cross).Ok? <==> forall i :: 0 <= i < |cells| ==> Known(cells[i])
    ensures Scan(cells, cross).Ok? ==> Scan(cells, cross).value == Inside(cells, cross)
    decreases |cells|
  {
    if cells != [] {
      var c := cells[0];
      var rest := cells[1..];
      assert cells == [c] + rest;
      ScanIsInside(rest, cross != (c == 'P'));
      InsideCons(c, rest, cross);
      if Scan(cells, cross).Ok? {
        forall i | 0 <= i < |cells|
          ensures Known(cells[i])
        {
          if i > 0 {
            assert cells[i] == rest[i - 1];
          }
        }
      } else if Known(c) {
        var i :| 0 <= i < |rest| && !Known(rest[i]);
        assert cells[i + 1] == rest[i];
      }
    }
  }

  /** The top-edge rays, from (x, 0) onward. */
  function TopRays(m: Marks, w: nat, h: nat, x: nat): Result<nat>
    decreases w - x
  {
    if x >= w then Ok(0)
    else
      var a :- Scan(Diag(m, w, h, x, 0), false);
      var b :- TopRays(m, w, h, x + 1);
      Ok(a + b)
  }

  /** The left-edge rays, from (0, y) onward. */
  function LeftRays(m: Marks, w: nat, h: nat, y: nat): Result<nat>
    decreases h - y
  {
    if y >= h then Ok(0)
    else
      var a :- Scan(Diag(m, w, h, 0, y), false);
      var b :- LeftRays(m, w, h, y + 1);
      Ok(a + b)
  }

  /** Part 2. The marks have the shape of the sketch; a ray reads a cell of
      a row shorter than row 0 and raises the range error. Part 2 fails when
      the start is off the sketch or the chase fails, and on a sketch whose
      rows are as long as row 0 it fails in no other way: no ray throws. */
  function Part2(r: Grid.Rect<char>, start: Location, fuel: nat): (n: Result<nat>)
    ensures !Grid.Inside(r, start.column - 1, start.line - 1) ==> n == Err(Grid.RangeError)
    ensures n.Ok? ==> Chase(r, start, fuel).Ok?
    ensures Grid.Uniform(r) && Grid.Inside(r, start.column - 1, start.line - 1) && Chase(r, start, fuel).Ok? ==> n.Ok?
  {
    var sx, sy := start.column - 1, start.line - 1;
    var _ :- Grid.Check(r, sx, sy);
    var vs :- Chase(r, start, fuel);
    var w, h := |r.vals[0]|, |r.vals|;
    if exists y :: 0 <= y < h && |r.vals[y]| < w then Err(Grid.RangeError)
    else
      RaysCount(Marks(sx, sy, vs), w, h);
      Rays(Marks(sx, sy, vs), w, h)
  }

  /** Every ray of part 2: the top edge, then the left edge below row 0. */
  function Rays(m: Marks, w: nat, h: nat): Result<nat>
  {
    var top :- TopRays(m, w, h, 0);
    var left :- LeftRays(m, w, h, 1);
    Ok(top + left)
  }

  /** The ray through (x, y): from the top edge when x >= y, else from the
      left edge below row 0. */
  function RayStart(x: nat, y: nat): (nat, nat)
  {
    if x >= y then (x - y, 0) else (0, y - x)
  }

  predicate IsRayStart(w: nat, h: nat, a: nat, b: nat)
  {
    (b == 0 && a < w) || (a == 0 && 1 <= b < h)
  }

  /** The rays of part 2 cover each cell of the w by h box once: every
      cell lies on the ray from RayStart, that start is one the loops use,
      and no other start's ray passes the cell. So no ray meets a cell
      another ray rewrote, and the 'Unknown state' throw is unreachable. */
  lemma RaysPartition(w: nat, h: nat, x: nat, y: nat)
    requires x < w && y < h
    ensures IsRayStart(w, h, RayStart(x, y).0, RayStart(x, y).1)
    ensures var k := if x < y then x else y; RayStart(x, y) == (x - k, y - k)
    ensures forall a: nat, b: nat :: IsRayStart(w, h, a, b) && a - b == x - y ==> (a, b) == RayStart(x, y)
  {
  }

  /** The sums of the parity counts over the top-edge and left-edge rays. */
  function TopInside(m: Marks, w: nat, h: nat, x: nat): nat
    decreases w - x
  {
    if x >= w then 0 else Inside(Diag(m, w, h, x, 0), false) + TopInside(m, w, h, x + 1)
  }

  function LeftInside(m: Marks, w: nat, h: nat, y: nat): nat
    decreases h - y
  {
    if y >= h then 0 else Inside(Diag(m, w, h, 0, y), false) + LeftInside(m, w, h, y + 1)
  }

  lemma {:induction false} DiagKnown(m: Marks, w: nat, h: nat, x: nat, y: nat)
    ensures forall i :: 0 <= i < |Diag(m, w, h, x, y)| ==> Known(Diag(m, w, h, x, y)[i])
    decreases w - x
  {
    if x < w && y < h {
      DiagKnown(m, w, h, x + 1, y + 1);
    }
  }

  /** One ray reads only known marks and counts its parity cells. */
  lemma RayInside(m: Marks, w: nat, h: nat, x: nat, y: nat)
    ensures Scan(Diag(m, w, h, x, y), false) == Ok(Inside(Diag(m, w, h, x, y), false))
  {
    DiagKnown(m, w, h, x, y);
    ScanIsInside(Diag(m, w, h, x, y), false);
  }

  lemma {:induction false} TopRaysCount(m: Marks, w: nat, h: nat, x: nat)
    ensures TopRays(m, w, h, x) == Ok(TopInside(m, w, h, x))
    decreases w - x
  {
    if x < w {
      var d := Diag(m, w, h, x, 0);
      RayInside(m, w, h, x, 0);
      TopRaysCount(m, w, h, x + 1);
      assert TopRays(m, w, h, x) == Ok(Inside(d, false) + TopInside(m, w, h, x + 1));
    }
  }

  lemma {:induction false} LeftRaysCount(m: Marks, w: nat, h: nat, y: nat)
    ensures LeftRays(m, w, h, y) == Ok(LeftInside(m, w, h, y))
    decreases h - y
  {
    if y < h {
      var d := Diag(m, w, h, 0, y);
      RayInside(m, w, h, 0, y);
      LeftRaysCount(m, w, h, y + 1);
      assert LeftRays(m, w, h, y) == Ok(Inside(d, false) + LeftInside(m, w, h, y + 1));
    }
  }

  /** On a sketch whose rows are as long as row 0, once the loop is walked
      part 2 succeeds with the parity count summed over all the rays. */
  lemma Part2Count(r: Grid.Rect<char>, start: Location, fuel: nat)
    requires Grid.Uniform(r) && Grid.Inside(r, start.column - 1, start.line - 1)
    requires Chase(r, start, fuel).Ok?
    ensures var m := Marks(start.column - 1, start.line - 1, Chase(r, start, fuel).value);
      var w, h := |r.vals[0]|, |r.vals|;
      Part2(r, start, fuel) == Ok(TopInside(m, w, h, 0) + LeftInside(m, w, h, 1))
  {
    var vs := Chase(r, start, fuel).value;
    var m := Marks(start.column - 1, start.line - 1, vs);
    var w, h := |r.vals[0]|, |r.vals|;
    RaysCount(m, w, h);
    assert !exists y :: 0 <= y < h && |r.vals[y]| < w;
  }

  /** All the rays together read only known marks and add up the parity
      counts. */
  lemma RaysCount(m: Marks, w: nat, h: nat)
    ensures Rays(m, w, h) == Ok(TopInside(m, w, h, 0) + LeftInside(m, w, h, 1))
  {
    TopRaysCount(m, w, h, 0);
    LeftRaysCount(m, w, h, 1);
  }

  /** A visit marks its cell by the kind of pipe, so ground off the loop
      keeps '.', the start and the crossings read 'P', and the corners '7'
      and 'L' read 'N'. */
  lemma VisitMark(r: Grid.Rect<char>, start: Location, fuel: nat, vs: seq<Visit>, i: nat)
    requires Chase(r, start, fuel) == Ok(vs)
    requires i < |vs|
    ensures MarkAt(Marks(start.column - 1, start.line - 1, vs), vs[i].x, vs[i].y) != '.'
  {
    ChaseShapes(r, start, fuel, vs);
    ShapesMarked(start.column - 1, start.line - 1, vs, i);
  }

  /** Every visit of a successful chase is at one of the six shapes. */
  lemma ChaseShapes(r: Grid.Rect<char>, start: Location, fuel: nat, vs: seq<Visit>)
    requires Chase(r, start, fuel) == Ok(vs)
    ensures forall i :: 0 <= i < |vs| ==> IsShape(vs[i].ch)
  {
    var n, ch := ChaseIs(r, start, fuel, vs);
    WalkShapes(r, start.column - 1 + n.0, start.line - 1 + n.1, ch, n.2, fuel, vs);
  }

  lemma ShapesMarked(sx: int, sy: int, vs: seq<Visit>, i: nat)
    requires i < |vs| && forall j :: 0 <= j < |vs| ==> IsShape(vs[j].ch)
    ensures MarkAt(Marks(sx, sy, vs), vs[i].x, vs[i].y) != '.'
  {
    assert Write(vs[i].ch).Some?;
    MarkAtDot(Marks(sx, sy, vs), vs[i].x, vs[i].y);
  }
}
