/** Day 14 (day14.ts): rolling round rocks 'O' on a platform of empty
    cells '.' and cube rocks '#'. The grid is first wrapped in a ring of
    '#', and `tilt` lets every 'O' roll until it meets anything but '.'. */
module Day14 {
  import opened Outcomes
  import Grid

  type Platform = seq<seq<char>>

  datatype Dir = N | W | S | E

  const EnrobeError := "TypeError: the platform has no row 0"

  /** A cell a tilt may change: a round rock or an empty cell. */
  predicate Mobile(ch: char)
  {
    ch == 'O' || ch == '.'
  }

  /** Every row as long as row 0, with at least one row and column. */
  predicate Rectangular(g: Platform)
  {
    Grid.Uniform(Grid.Rect(g)) && |g[0]| > 0
  }

  // ---------------------------------------------------------------------
  // One line

  /** The `drop` loop: the 'O' at d + 1 swaps with the '.' at d, then the
      search goes on at d - 1, stopping below the floor index f or at any
      cell other than '.'. */
  function Slide(l: seq<char>, d: int, f: nat): (r: seq<char>)
    requires -1 <= d && d + 1 < |l| && l[d + 1] == 'O'
    ensures |r| == |l|
    decreases d + 1
  {
    if d < f || l[d] != '.' then l
    else Slide(l[d := 'O'][d + 1 := '.'], d - 1, f)
  }

  /** The body of the outer loops at index i: an 'O' there slides. */
  function Step(l: seq<char>, i: nat, f: nat): (r: seq<char>)
    requires i < |l|
    ensures |r| == |l|
  {
    if l[i] == 'O' then Slide(l, i - 1, f) else l
  }

  /** Indices f, f + 1, ..., k - 1 stepped in turn, each sliding down to
      index f at the lowest. */
  function RollTo(l: seq<char>, f: nat, k: int): (r: seq<char>)
    requires k <= |l|
    ensures |r| == |l|
    decreases k
  {
    if k <= f then l else Step(RollTo(l, f, k - 1), k - 1, f)
  }

  function Reverse(l: seq<char>): (r: seq<char>)
    ensures |r| == |l| && forall i :: 0 <= i < |l| ==> r[i] == l[|l| - 1 - i]
  {
    seq(|l|, i requires 0 <= i < |l| => l[|l| - 1 - i])
  }

  /** A tilt toward index 0 (north on a column, west on a row): indices
      1.. are stepped, and nothing moves into index 0. */
  function RollFront(l: seq<char>): (r: seq<char>)
    ensures |r| == |l|
  {
    RollTo(l, 1, |l|)
  }

  /** A tilt toward the last index (south, east): the indices from the last
      down to 1 are stepped, and rocks may move into the last index. On the
      reversed line that is indices 0 .. |l| - 2 with floor 0. */
  function RollBack(l: seq<char>): (r: seq<char>)
    ensures |r| == |l|
  {
    Reverse(RollTo(Reverse(l), 0, |l| - 1))
  }

  /** The cells that are not round rocks or empty stay where they are, and
      mobile cells stay mobile. */
  predicate SameWalls(a: seq<char>, b: seq<char>)
  {
    |a| == |b| &&
    forall i :: 0 <= i < |a| ==> Mobile(a[i]) == Mobile(b[i]) && (!Mobile(a[i]) ==> a[i] == b[i])
  }

  /** No 'O' at an index in (f, k) has a '.' just before it. */
  predicate Settled(l: seq<char>, f: nat, k: int)
    requires k <= |l|
  {
    forall j :: f < j < k ==> !(l[j] == 'O' && l[j - 1] == '.')
  }

  /** Sliding only swaps an 'O' with a neighbouring '.': walls stay, and
      the cells are a permutation of the old ones. */
  lemma {:induction false} SlideSwaps(l: seq<char>, d: int, f: nat)
    requires -1 <= d && d + 1 < |l| && l[d + 1] == 'O'
    ensures SameWalls(l, Slide(l, d, f)) && multiset(Slide(l, d, f)) == multiset(l)
    decreases d + 1
  {
    if !(d < f || l[d] != '.') {
      var l' := l[d := 'O'][d + 1 := '.'];
      SlideSwaps(l', d - 1, f);
      assert l' == l[d := l[d + 1]][d + 1 := l[d]];
    }
  }

  lemma {:induction false} RollToSwaps(l: seq<char>, f: nat, k: int)
    requires k <= |l|
    ensures SameWalls(l, RollTo(l, f, k)) && multiset(RollTo(l, f, k)) == multiset(l)
    decreases k
  {
    if k > f {
      var m := RollTo(l, f, k - 1);
      RollToSwaps(l, f, k - 1);
      if m[k - 1] == 'O' {
        SlideSwaps(m, k - 2, f);
      }
    }
  }

  /** The slide of the rock that started at index i leaves indices f .. i
      settled, given that f .. d + 1 was settled, the rock is at d + 1, and
      the cells after it up to i are empty. */
  lemma {:induction false} SlideSettles(l: seq<char>, d: int, f: nat, i: nat)
    requires -1 <= d && d + 1 <= i < |l| && l[d + 1] == 'O'
    requires Settled(l, f, d + 1)
    requires forall j :: d + 1 < j <= i ==> l[j] == '.'
    ensures Settled(Slide(l, d, f), f, i + 1)
    decreases d + 1
  {
    if !(d < f || l[d] != '.') {
      var l' := l[d := 'O'][d + 1 := '.'];
      SlideSettles(l', d - 1, f, i);
    }
  }

  /** After stepping indices f .. k - 1, no rock there can roll further. */
  lemma {:induction false} RollToSettles(l: seq<char>, f: nat, k: int)
    requires k <= |l|
    ensures Settled(RollTo(l, f, k), f, k)
    decreases k
  {
    if k > f {
      var m := RollTo(l, f, k - 1);
      RollToSettles(l, f, k - 1);
      if m[k - 1] == 'O' {
        SlideSettles(m, k - 2, f, k - 1);
      }
    }
  }

  /** Stepping a settled line changes nothing. */
  lemma {:induction false} RollToSettled(l: seq<char>, f: nat, k: int)
    requires k <= |l| && Settled(l, f, k)
    ensures RollTo(l, f, k) == l
    decreases k
  {
    if k > f {
      assert Settled(l, f, k - 1);
      RollToSettled(l, f, k - 1);
    }
  }

  /** Rolling a line toward the front twice is rolling it once. */
  lemma RollFrontTwice(l: seq<char>)
    ensures RollFront(RollFront(l)) == RollFront(l)
  {
    RollToSettles(l, 1, |l|);
    RollToSettled(RollFront(l), 1, |l|);
  }

  /** Rolling a line toward the end twice is rolling it once. */
  lemma RollBackTwice(l: seq<char>)
    ensures RollBack(RollBack(l)) == RollBack(l)
  {
    var m := RollTo(Reverse(l), 0, |l| - 1);
    RollToSettles(Reverse(l), 0, |l| - 1);
    RollBackFixed(m);
  }

  /** A line whose reversal is settled does not move when rolled toward
      the end. */
  lemma RollBackFixed(m: seq<char>)
    requires Settled(m, 0, |m| - 1)
    ensures RollBack(Reverse(m)) == Reverse(m)
  {
    ReverseTwice(m);
    RollToSettled(m, 0, |m| - 1);
  }

  lemma ReverseTwice(l: seq<char>)
    ensures Reverse(Reverse(l)) == l
  {
    var r := Reverse(Reverse(l));
    assert forall i :: 0 <= i < |l| ==> r[i] == l[i];
  }

  /** Rolling toward the front keeps the walls and the number of rocks. */
  lemma RollFrontSwaps(l: seq<char>)
    ensures SameWalls(l, RollFront(l)) && multiset(RollFront(l)) == multiset(l)
  {
    RollToSwaps(l, 1, |l|);
  }

  /** Rolling toward the end keeps the walls and the number of rocks. */
  lemma RollBackSwaps(l: seq<char>)
    ensures SameWalls(l, RollBack(l)) && multiset(RollBack(l)) == multiset(l)
  {
    var m := RollTo(Reverse(l), 0, |l| - 1);
    RollToSwaps(Reverse(l), 0, |l| - 1);
    ReverseMultiset(l);
    ReverseMultiset(m);
  }

  lemma {:induction false} ReverseMultiset(l: seq<char>)
    ensures multiset(Reverse(l)) == multiset(l)
    decreases |l|
  {
    if l != [] {
      var t := l[1..];
      ReverseMultiset(t);
      assert Reverse(l) == Reverse(t) + [l[0]];
      assert l == [l[0]] + t;
    }
  }

  // ---------------------------------------------------------------------
  // The platform

  /** Column c of the platform, top to bottom. */
  function Column(g: Platform, c: nat): (col: seq<char>)
    requires Rectangular(g) && c < |g[0]|
    ensures |col| == |g| && forall r :: 0 <= r < |g| ==> col[r] == g[r][c]
  {
    Grid.Columns(Grid.Rect(g))[c]
  }

  /** The rows of a platform from 1 on rolled toward the front or the back;
      row 0 is never stepped. */
  function TiltRows(g: Platform, back: bool): (t: Platform)
    requires Rectangular(g)
    ensures |t| == |g| && Rectangular(t) && t[0] == g[0]
    ensures forall r :: 1 <= r < |g| ==> t[r] == if back then RollBack(g[r]) else RollFront(g[r])
  {
    seq(|g|, r requires 0 <= r < |g| =>
      if r == 0 then g[0] else if back then RollBack(g[r]) else RollFront(g[r]))
  }

  /** The platform with rows and columns exchanged. */
  function Flip(g: Platform): (t: Platform)
    requires Rectangular(g)
    ensures Rectangular(t) && |t| == |g[0]| && |t[0]| == |g|
    ensures forall c, r :: 0 <= c < |g[0]| && 0 <= r < |g| ==> t[c][r] == g[r][c]
  {
    Grid.Columns(Grid.Rect(g))
  }

  lemma FlipTwice(g: Platform)
    requires Rectangular(g)
    ensures Flip(Flip(g)) == g
  {
    Grid.TransposeTwice(Grid.Rect(g));
  }

  /** `tilt(inp, dir)`: north and south roll the columns from 1 on, west
      and east roll the rows from 1 on. */
  function Tilt(g: Platform, dir: Dir): (t: Platform)
    requires Rectangular(g)
    ensures Rectangular(t) && |t| == |g| && |t[0]| == |g[0]|
  {
    match dir
    case N => Flip(TiltRows(Flip(g), false))
    case W => TiltRows(g, false)
    case S => Flip(TiltRows(Flip(g), true))
    case E => TiltRows(g, true)
  }

  /** The lines a tilt in `dir` rolls: columns for north and south, rows
      otherwise. */
  function Lines(g: Platform, dir: Dir): (ls: seq<seq<char>>)
    requires Rectangular(g)
  {
    if dir == N || dir == S then Flip(g) else g
  }

  /** Each line a tilt rolls is rolled on its own; line 0 stays. */
  lemma TiltLines(g: Platform, dir: Dir)
    requires Rectangular(g)
    ensures var ls, ts := Lines(g, dir), Lines(Tilt(g, dir), dir);
      |ts| == |ls| && ts[0] == ls[0] &&
      forall i :: 1 <= i < |ls| ==> ts[i] == if dir == S || dir == E then RollBack(ls[i]) else RollFront(ls[i])
  {
    if dir == N || dir == S {
      FlipTwice(TiltRows(Flip(g), dir == S));
    }
  }

  /** Tilting twice in the same direction is tilting once. */
  lemma TiltTwice(g: Platform, dir: Dir)
    requires Rectangular(g)
    ensures Tilt(Tilt(g, dir), dir) == Tilt(g, dir)
  {
    var back := dir == S || dir == E;
    var ls := Lines(g, dir);
    var t := Tilt(g, dir);
    TiltLines(g, dir);
    TiltLines(t, dir);
    var ts, tts := Lines(t, dir), Lines(Tilt(t, dir), dir);
    forall i | 1 <= i < |ls|
      ensures tts[i] == ts[i]
    {
      if back {
        RollBackTwice(ls[i]);
      } else {
        RollFrontTwice(ls[i]);
      }
    }
    assert tts == ts;
    if dir == N || dir == S {
      FlipTwice(t);
      FlipTwice(Tilt(t, dir));
    }
  }

  /** A tilt only swaps round rocks with empty cells: each line it rolls
      keeps its walls and its rocks. */
  lemma TiltKeeps(g: Platform, dir: Dir)
    requires Rectangular(g)
    ensures var ls, ts := Lines(g, dir), Lines(Tilt(g, dir), dir);
      |ts| == |ls| &&
      forall i :: 0 <= i < |ls| ==> SameWalls(ls[i], ts[i]) && multiset(ts[i]) == multiset(ls[i])
  {
    var ls, ts := Lines(g, dir), Lines(Tilt(g, dir), dir);
    TiltLines(g, dir);
    forall i | 0 <= i < |ls|
      ensures SameWalls(ls[i], ts[i]) && multiset(ts[i]) == multiset(ls[i])
    {
      if i > 0 {
        RollFrontSwaps(ls[i]);
        RollBackSwaps(ls[i]);
      }
    }
  }

  // ---------------------------------------------------------------------
  // enrobe

  /** `enrobe(inp)`: a ring of '#' around a copy; the rows above and below
      are as long as row 0. A platform with no rows has no row 0. */
  function Enrobe(g: Platform): Result<Platform>
  {
    if |g| == 0 then Err(EnrobeError)
    else
      var ring := seq(|g[0]|, _ => '#');
      var rows := [ring] + g + [ring];
      Ok(seq(|rows|, y requires 0 <= y < |rows| => ['#'] + rows[y] + ['#']))
  }

  /** Every border cell is '#'. */
  predicate Ringed(g: Platform)
    requires Rectangular(g)
  {
    var h, w := |g|, |g[0]|;
    (forall x :: 0 <= x < w ==> g[0][x] == '#' && g[h - 1][x] == '#') &&
    (forall y :: 0 <= y < h ==> g[y][0] == '#' && g[y][w - 1] == '#')
  }

  /** The enrobed platform is (h + 2) by (w + 2), ringed with '#', and
      holds the original at offset (1, 1). */
  lemma EnrobeShape(g: Platform)
    requires |g| > 0 && forall y :: 0 <= y < |g| ==> |g[y]| == |g[0]|
    ensures Enrobe(g).Ok?
    ensures var e := Enrobe(g).value;
      |e| == |g| + 2 && Rectangular(e) && |e[0]| == |g[0]| + 2 && Ringed(e) &&
      forall y, x :: 0 <= y < |g| && 0 <= x < |g[0]| ==> e[y + 1][x + 1] == g[y][x]
  {
    var e := Enrobe(g).value;
    var ring := seq(|g[0]|, _ => '#');
    var rows := [ring] + g + [ring];
    forall y | 0 <= y < |g|
      ensures e[y + 1] == ['#'] + g[y] + ['#']
    {
      assert rows[y + 1] == g[y];
    }
  }

  // ---------------------------------------------------------------------
  // Rocks at rest

  /** The cell at (x, y) is not an 'O' with a '.' next to it in
      direction `dir`. */
  predicate Blocked(t: Platform, y: int, x: int, dir: Dir)
    requires Rectangular(t)
  {
    var h, w := |t|, |t[0]|;
    0 <= y < h && 0 <= x < w && t[y][x] == 'O' ==>
      match dir
      case N => y == 0 || t[y - 1][x] != '.'
      case S => y == h - 1 || t[y + 1][x] != '.'
      case W => x == 0 || t[y][x - 1] != '.'
      case E => x == w - 1 || t[y][x + 1] != '.'
  }

  /** No 'O' has a '.' next to it in direction `dir`. */
  ghost predicate AtRest(t: Platform, dir: Dir)
    requires Rectangular(t)
  {
    forall y, x :: Blocked(t, y, x, dir)
  }

  /** On a ringed platform no rock can roll further after a tilt: a rock
      is blocked by the ring or by a rolled rock. */
  lemma TiltRests(g: Platform, dir: Dir)
    requires Rectangular(g) && Ringed(g)
    ensures AtRest(Tilt(g, dir), dir)
  {
    var t := Tilt(g, dir);
    TiltLines(g, dir);
    TiltKeeps(g, dir);
    if dir == W || dir == E {
      RestsOnRows(g, t, dir);
    } else {
      RestsOnColumns(g, t, dir);
    }
  }

  /** A rolled line has no rock with an empty cell before it, in rolling
      order, past the floor. */
  lemma RolledSettled(l: seq<char>, back: bool)
    ensures back ==> Settled(Reverse(RollBack(l)), 0, |l| - 1)
    ensures !back ==> Settled(RollFront(l), 1, |l|)
  {
    if back {
      var m := RollTo(Reverse(l), 0, |l| - 1);
      assert Settled(m, 0, |l| - 1) by {
        RollToSettles(Reverse(l), 0, |l| - 1);
      }
      assert Reverse(RollBack(l)) == m by {
        ReverseTwice(m);
      }
    } else {
      RollToSettles(l, 1, |l|);
    }
  }

  lemma RestsOnRows(g: Platform, t: Platform, dir: Dir)
    requires Rectangular(g) && Ringed(g) && (dir == W || dir == E) && t == Tilt(g, dir)
    requires forall i :: 0 <= i < |g| ==> SameWalls(g[i], t[i])
    ensures AtRest(t, dir)
  {
    var h, w := |t|, |t[0]|;
    forall y, x
      ensures Blocked(t, y, x, dir)
    {
      if 0 <= y < h && 0 <= x < w && t[y][x] == 'O' {
        assert Mobile(g[y][x]);
        assert y != 0 && x != 0 && x != w - 1;
        RolledSettled(g[y], dir == E);
        if dir == E {
          var rt := Reverse(t[y]);
          assert rt[w - 1 - x] == 'O' && rt[w - 1 - x - 1] == t[y][x + 1];
        } else {
          assert t[y] == RollFront(g[y]);
        }
      }
    }
  }

  lemma RestsOnColumns(g: Platform, t: Platform, dir: Dir)
    requires Rectangular(g) && Ringed(g) && (dir == N || dir == S) && t == Tilt(g, dir)
    requires forall i :: 0 <= i < |g[0]| ==> SameWalls(Flip(g)[i], Flip(t)[i])
    requires forall i :: 1 <= i < |g[0]| ==> Flip(t)[i] == if dir == S then RollBack(Flip(g)[i]) else RollFront(Flip(g)[i])
    ensures AtRest(t, dir)
  {
    var h, w := |t|, |t[0]|;
    var ft, fg := Flip(t), Flip(g);
    forall y, x
      ensures Blocked(t, y, x, dir)
    {
      if 0 <= y < h && 0 <= x < w && t[y][x] == 'O' {
      assert ft[x][y] == 'O';
      assert Mobile(fg[x][y]);
      assert y != 0 && x != 0 && y != h - 1;
      RolledSettled(fg[x], dir == S);
      if dir == S {
        var rt := Reverse(ft[x]);
        assert rt[h - 1 - y] == 'O' && rt[h - 1 - y - 1] == t[y + 1][x];
      } else {
        assert ft[x][y - 1] == t[y - 1][x];
      }
      }
    }
  }

  // ---------------------------------------------------------------------
  // The imperative north tilt

  /** Column c after the outer loops stepped rows 1 .. k - 1. */
  function Partial(g: Platform, c: nat, k: int): seq<char>
    requires Rectangular(g) && c < |g[0]| && k <= |g|
  {
    if c == 0 then Column(g, 0) else RollTo(Column(g, c), 1, k)
  }

  /** The platform with one cell written. */
  function SetCell(g: Platform, y: nat, x: nat, v: char): (t: Platform)
    requires Rectangular(g) && y < |g| && x < |g[0]|
    ensures Rectangular(t) && |t| == |g| && |t[0]| == |g[0]|
    ensures forall c :: 0 <= c < |g[0]| ==> Column(t, c) == if c == x then Column(g, c)[y := v] else Column(g, c)
  {
    var row := g[y][x := v];
    g[y := row]
  }

  /** The loops of `tilt(inp, Dir.N)`, writing one cell at a time; they
      give the north tilt. */
  method TiltNorth(g: Platform) returns (t: Platform)
    requires Rectangular(g)
    ensures t == Tilt(g, N)
  {
    var h, w := |g|, |g[0]|;
    t := g;
    var row := 1;
    while row < h
      invariant 1 <= row <= h
      invariant Rectangular(t) && |t| == h && |t[0]| == w
      invariant forall c :: 0 <= c < w ==> Column(t, c) == Partial(g, c, row)
    {
      t := NorthRow(g, t, row);
      row := row + 1;
    }
    ColumnsMeet(t, Tilt(g, N), g);
  }

  /** One pass of the column loop of the north tilt: the rocks of row
      `row` roll up, each in its own column. */
  method NorthRow(g: Platform, t0: Platform, row: nat) returns (t: Platform)
    requires Rectangular(g) && Rectangular(t0) && |t0| == |g| && |t0[0]| == |g[0]|
    requires 1 <= row < |g|
    requires forall c :: 0 <= c < |g[0]| ==> Column(t0, c) == Partial(g, c, row)
    ensures Rectangular(t) && |t| == |g| && |t[0]| == |g[0]|
    ensures forall c :: 0 <= c < |g[0]| ==> Column(t, c) == Partial(g, c, row + 1)
  {
    var w := |g[0]|;
    t := t0;
    var col := 1;
    while col < |t[row]|
      invariant 1 <= col <= w
      invariant Rectangular(t) && |t| == |g| && |t[0]| == w
      invariant forall c :: 0 <= c < w ==> Column(t, c) == Partial(g, c, if 0 < c < col then row + 1 else row)
    {
      ghost var before := Column(t, col);
      if t[row][col] == 'O' {
        t := DropNorth(t, row, col);
      }
      assert Column(t, col) == Step(before, row, 1);
      col := col + 1;
    }
  }

  /** The `drop` loop of the north tilt: the rock at (col, row) climbs
      while the cell above is '.', but never into row 0. Only column `col`
      changes, and it changes as one step of the rolled column. */
  method DropNorth(t0: Platform, row: nat, col: nat) returns (t: Platform)
    requires Rectangular(t0) && 1 <= row < |t0| && col < |t0[0]| && t0[row][col] == 'O'
    ensures Rectangular(t) && |t| == |t0| && |t[0]| == |t0[0]|
    ensures Column(t, col) == Step(Column(t0, col), row, 1)
    ensures forall c :: 0 <= c < |t0[0]| && c != col ==> Column(t, c) == Column(t0, c)
  {
    t := t0;
    var drop := row - 1;
    while drop > 0
      invariant 0 <= drop < row
      invariant Rectangular(t) && |t| == |t0| && |t[0]| == |t0[0]|
      invariant Column(t, col)[drop + 1] == 'O'
      invariant Slide(Column(t, col), drop, 1) == Slide(Column(t0, col), row - 1, 1)
      invariant forall c :: 0 <= c < |t0[0]| && c != col ==> Column(t, c) == Column(t0, c)
    {
      if t[drop][col] == '.' {
        t := SetCell(t, drop, col, 'O');
        t := SetCell(t, drop + 1, col, '.');
        drop := drop - 1;
      } else {
        break;
      }
    }
  }

  /** Two platforms of one shape whose columns agree are equal; the
      columns of the north tilt are the rolled columns. */
  lemma ColumnsMeet(t: Platform, n: Platform, g: Platform)
    requires Rectangular(g) && n == Tilt(g, N)
    requires Rectangular(t) && |t| == |g| && |t[0]| == |g[0]|
    requires forall c :: 0 <= c < |g[0]| ==> Column(t, c) == Partial(g, c, |g|)
    ensures t == n
  {
    TiltLines(g, N);
    forall y | 0 <= y < |t|
      ensures t[y] == n[y]
    {
      forall x | 0 <= x < |t[y]|
        ensures t[y][x] == n[y][x]
      {
        assert Column(t, x)[y] == t[y][x];
        assert Flip(n)[x] == Partial(g, x, |g|);
      }
    }
  }

  // ---------------------------------------------------------------------
  // load and the parts

  function CountO(row: seq<char>): nat
  {
    multiset(row)['O']
  }

  /** `load(inp)`: the rocks of row i each weigh height - i - 1. */
  function Load(g: Platform): int
  {
    LoadOf(g, |g|)
  }

  function LoadOf(g: Platform, k: nat): int
    requires k <= |g|
  {
    if k == 0 then 0 else LoadOf(g, k - 1) + CountO(g[k - 1]) * (|g| - (k - 1) - 1)
  }

  /** Load depends only on how many rocks each row holds: a tilt west or
      east leaves it alone. */
  lemma {:induction false} LoadByRows(a: Platform, b: Platform, k: nat)
    requires |a| == |b| && k <= |a|
    requires forall i :: 0 <= i < |a| ==> CountO(a[i]) == CountO(b[i])
    ensures LoadOf(a, k) == LoadOf(b, k)
    decreases k
  {
    if k > 0 {
      LoadByRows(a, b, k - 1);
    }
  }

  lemma TiltSidewaysLoad(g: Platform, dir: Dir)
    requires Rectangular(g) && (dir == W || dir == E)
    ensures Load(Tilt(g, dir)) == Load(g)
  {
    TiltKeeps(g, dir);
    LoadByRows(g, Tilt(g, dir), |g|);
  }

  /** Rocks in the bottom row weigh nothing. */
  lemma LoadBottom(g: Platform)
    requires |g| > 0
    ensures Load(g) == LoadOf(g, |g| - 1)
  {
    assert CountO(g[|g| - 1]) * (|g| - (|g| - 1) - 1) == 0;
  }

  /** No load is negative: every weight is a row count times a height. */
  lemma {:induction false} LoadNonNegative(g: Platform, k: nat)
    requires k <= |g|
    ensures LoadOf(g, k) >= 0
    decreases k
  {
    if k > 0 {
      LoadNonNegative(g, k - 1);
      var c, w := CountO(g[k - 1]), |g| - (k - 1) - 1;
      assert c * w >= 0 by {
        MulNat(c, w);
      }
    }
  }

  lemma MulNat(a: nat, b: nat)
    ensures a * b >= 0
  {
  }

  lemma MulSucc(a: int, b: int)
    ensures (a + 1) * b == a * b + b
  {
  }

  /** Part 1: the load after tilting the enrobed platform north. */
  /** Part 1: the load of the ringed platform once tilted north, where
      every rock has come to rest; only a platform without rows fails. */
  function Part1(g: Platform): (r: Result<int>)
    requires forall y :: 0 <= y < |g| ==> |g[y]| == |g[0]|
    ensures r.Err? <==> g == []
    ensures r.Ok? ==> r.value >= 0
    ensures r.Ok? ==> var e := Enrobe(g).value;
      Rectangular(e) && AtRest(Tilt(e, N), N) && r.value == Load(Tilt(e, N))
  {
    var e :- Enrobe(g);
    EnrobeShape(g);
    TiltRests(e, N);
    LoadNonNegative(Tilt(e, N), |Tilt(e, N)|);
    Ok(Load(Tilt(e, N)))
  }

  /** One spin cycle: north, west, south, east. */
  function Cycle(g: Platform): (t: Platform)
    requires Rectangular(g)
    ensures Rectangular(t) && |t| == |g| && |t[0]| == |g[0]|
  {
    Tilt(Tilt(Tilt(Tilt(g, N), W), S), E)
  }

  /** A spin cycle of a platform of any shape; only rectangular platforms
      are ever spun. */
  function Spin1(g: Platform): Platform
  {
    if Rectangular(g) then Cycle(g) else g
  }

  /** x after n applications of f. */
  function Iterate<T>(f: T -> T, x: T, n: nat): T
  {
    if n == 0 then x else f(Iterate(f, x, n - 1))
  }

  /** The platform after n spin cycles. */
  function Spin(g: Platform, n: nat): Platform
  {
    Iterate(Spin1, g, n)
  }

  const Spins := 1000000000

  /** The index of the cached state that stands for state `Spins`, given
      that state i repeats state s. */
  function Projected(s: nat, i: nat): (k: nat)
    requires s < i <= Spins
    ensures s <= k < i
  {
    (Spins - s) % (i - s) + s
  }

  /** The position of the first entry equal to v. */
  function IndexOf<T(==)>(cache: seq<T>, v: T): (k: nat)
    requires v in cache
    ensures k < |cache| && cache[k] == v && forall j :: 0 <= j < k ==> cache[j] != v
  {
    if cache[0] == v then 0 else 1 + IndexOf(cache[1..], v)
  }

  /** The loop of part 2 from iteration i, for any step f and measure
      `value`: `cache` holds the states seen so far and `seen` is their
      index. A repeated state projects the cycle forward to iteration
      `Spins`; a loop that never repeats yields 0. */
  function FindLoop<T(==)>(f: T -> T, value: T -> int, cache: seq<T>, cur: T, i: nat): int
    requires i == |cache|
    decreases Spins - i
  {
    if i >= Spins then 0
    else if cur in cache then
      var s := IndexOf(cache, cur);
      value(cache[Projected(s, i)])
    else FindLoop(f, value, cache + [cur], f(cur), i + 1)
  }

  /** Part 2's loop: spin cycles, measured by the load. */
  function SpinLoop(cache: seq<Platform>, cur: Platform, i: nat): int
    requires i == |cache|
  {
    FindLoop(Spin1, Load, cache, cur, i)
  }

  /** Part 2: the load after a billion spin cycles of the ringed platform
      when some state repeats within them, and 0 otherwise; only a
      platform without rows fails. */
  function Part2(g: Platform): (r: Result<int>)
    requires forall y :: 0 <= y < |g| ==> |g[y]| == |g[0]|
    ensures r.Err? <==> g == []
    ensures r.Ok? ==> var e := Enrobe(g).value;
      ((exists a, b :: 0 <= a < b < Spins && Spin(e, a) == Spin(e, b)) ==> r.value == Load(Spin(e, Spins))) &&
      ((forall a, b :: 0 <= a < b < Spins ==> Spin(e, a) != Spin(e, b)) ==> r.value == 0)
  {
    var e :- Enrobe(g);
    EnrobeShape(g);
    SpinLoopIsLoad(e);
    Ok(SpinLoop([], e, 0))
  }

  /** Once state i repeats state s, every later state repeats the one
      i - s before it. */
  lemma {:induction false} IterateShift<T>(f: T -> T, x: T, s: nat, i: nat, n: nat)
    requires s < i && Iterate(f, x, i) == Iterate(f, x, s) && s <= n
    ensures Iterate(f, x, n + (i - s)) == Iterate(f, x, n)
    decreases n - s
  {
    var p := i - s;
    if n > s {
      IterateShift(f, x, s, i, n - 1);
      assert n - 1 + p + 1 == n + p;
    } else {
      assert n + p == i;
    }
  }

  /** ... and the one any whole number of periods before it. */
  lemma {:induction false} IterateLaps<T>(f: T -> T, x: T, s: nat, i: nat, n: nat, j: nat)
    requires s < i && Iterate(f, x, i) == Iterate(f, x, s) && s <= n
    ensures Iterate(f, x, n + j * (i - s)) == Iterate(f, x, n)
    decreases j
  {
    var p := i - s;
    if j > 0 {
      IterateLaps(f, x, s, i, n, j - 1);
      var m := n + (j - 1) * p;
      MulNat(j - 1, p);
      IterateShift(f, x, s, i, m);
      MulSucc(j - 1, p);
    }
  }

  /** So every state from s on equals the state at its place in the
      first period. */
  lemma IteratePeriodic<T>(f: T -> T, x: T, s: nat, i: nat, n: nat)
    requires s < i && Iterate(f, x, i) == Iterate(f, x, s) && s <= n
    ensures Iterate(f, x, n) == Iterate(f, x, (n - s) % (i - s) + s)
  {
    var p := i - s;
    var k, q := (n - s) % p, (n - s) / p;
    assert n == s + k + q * p;
    IterateLaps(f, x, s, i, s + k, q);
  }

  /** The loop's answer, when it finds a repeat, is the measure of the
      state after `Spins` steps; when no state repeats in `Spins`
      iterations it is 0. */
  lemma {:induction false} FindLoopIsValue<T>(f: T -> T, value: T -> int, x: T, cache: seq<T>, i: nat)
    requires i == |cache| <= Spins
    requires forall k :: 0 <= k < i ==> cache[k] == Iterate(f, x, k)
    requires forall a, b :: 0 <= a < b < i ==> Iterate(f, x, a) != Iterate(f, x, b)
    ensures var r := FindLoop(f, value, cache, Iterate(f, x, i), i);
      (exists a, b :: 0 <= a < b < Spins && Iterate(f, x, a) == Iterate(f, x, b)) ==> r == value(Iterate(f, x, Spins))
    ensures var r := FindLoop(f, value, cache, Iterate(f, x, i), i);
      (forall a, b :: 0 <= a < b < Spins ==> Iterate(f, x, a) != Iterate(f, x, b)) ==> r == 0
    decreases Spins - i
  {
    var cur := Iterate(f, x, i);
    if i < Spins {
      if cur in cache {
        var s := FindLoopRepeat(f, value, x, cache, i);
      } else {
        FindLoopFresh(f, value, x, cache, i);
        FindLoopIsValue(f, value, x, cache + [cur], i + 1);
      }
    }
  }

  /** A state found in the cache repeats state s, and the loop answers
      with the measure of the state after `Spins` steps. */
  lemma FindLoopRepeat<T>(f: T -> T, value: T -> int, x: T, cache: seq<T>, i: nat) returns (s: nat)
    requires i == |cache| < Spins
    requires forall k :: 0 <= k < i ==> cache[k] == Iterate(f, x, k)
    requires Iterate(f, x, i) in cache
    ensures s < i && Iterate(f, x, s) == Iterate(f, x, i)
    ensures FindLoop(f, value, cache, Iterate(f, x, i), i) == value(Iterate(f, x, Spins))
  {
    s := IndexOf(cache, Iterate(f, x, i));
    assert cache[s] == Iterate(f, x, s);
    IteratePeriodic(f, x, s, i, Spins);
  }

  /** A state not in the cache is pushed, and the loop goes on with the
      next state, the cache still holding distinct states in order. */
  lemma FindLoopFresh<T>(f: T -> T, value: T -> int, x: T, cache: seq<T>, i: nat)
    requires i == |cache| < Spins
    requires forall k :: 0 <= k < i ==> cache[k] == Iterate(f, x, k)
    requires forall a, b :: 0 <= a < b < i ==> Iterate(f, x, a) != Iterate(f, x, b)
    requires Iterate(f, x, i) !in cache
    ensures FindLoop(f, value, cache, Iterate(f, x, i), i) ==
      FindLoop(f, value, cache + [Iterate(f, x, i)], Iterate(f, x, i + 1), i + 1)
    ensures forall k :: 0 <= k < i + 1 ==> (cache + [Iterate(f, x, i)])[k] == Iterate(f, x, k)
    ensures forall a, b :: 0 <= a < b < i + 1 ==> Iterate(f, x, a) != Iterate(f, x, b)
  {
    var cur := Iterate(f, x, i);
    forall a, b | 0 <= a < b < i + 1
      ensures Iterate(f, x, a) != Iterate(f, x, b)
    {
      if b == i {
        assert cache[a] == Iterate(f, x, a);
      }
    }
    assert Iterate(f, x, i + 1) == f(cur);
  }

  /** Part 2 is the load after a billion spin cycles whenever a state
      repeats within them, and 0 otherwise. */
  lemma SpinLoopIsLoad(e: Platform)
    ensures (exists a, b :: 0 <= a < b < Spins && Spin(e, a) == Spin(e, b)) ==> SpinLoop([], e, 0) == Load(Spin(e, Spins))
    ensures (forall a, b :: 0 <= a < b < Spins ==> Spin(e, a) != Spin(e, b)) ==> SpinLoop([], e, 0) == 0
  {
    var r := FindLoop(Spin1, Load, [], e, 0);
    assert Iterate(Spin1, e, 0) == e;
    FindLoopIsValue(Spin1, Load, e, [], 0);
    if exists a, b :: 0 <= a < b < Spins && Spin(e, a) == Spin(e, b) {
      var a, b :| 0 <= a < b < Spins && Spin(e, a) == Spin(e, b);
      assert Iterate(Spin1, e, a) == Iterate(Spin1, e, b);
      assert r == Load(Iterate(Spin1, e, Spins));
    } else {
      forall a, b | 0 <= a < b < Spins
        ensures Iterate(Spin1, e, a) != Iterate(Spin1, e, b)
      {
        assert Spin(e, a) != Spin(e, b);
      }
    }
  }
}
