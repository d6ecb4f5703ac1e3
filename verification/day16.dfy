/** Day 16 (day16.ts): beams of light bounce through a grid of mirrors
    ('/' and '\'), splitters ('|' and '-') and empty space ('.'); the answer
    is the number of cells some beam passes through. */
module Day16 {
  import opened Outcomes
  import Grid

  type Layout = Grid.Rect<char>

  datatype Dir = Up | Right | Down | Left

  /** `xlate`: the step a beam takes in each direction (y grows downwards). */
  function Xlate(d: Dir): (int, int)
  {
    match d
    case Up => (0, -1)
    case Right => (1, 0)
    case Down => (0, 1)
    case Left => (-1, 0)
  }

  /** `reflectSlash`. */
  function ReflectSlash(d: Dir): Dir
  {
    match d
    case Up => Right
    case Right => Up
    case Down => Left
    case Left => Down
  }

  /** `reflectBackslash`. */
  function ReflectBackslash(d: Dir): Dir
  {
    match d
    case Up => Left
    case Right => Down
    case Down => Right
    case Left => Up
  }

  predicate Vertical(d: Dir)
  {
    d == Up || d == Down
  }

  function Opposite(d: Dir): Dir
  {
    match d
    case Up => Down
    case Right => Left
    case Down => Up
    case Left => Right
  }

  /** Every step moves exactly one cell along one axis, the vertical
      directions along y, and opposite directions step oppositely. */
  lemma XlateUnit(d: Dir)
    ensures Xlate(d).0 * Xlate(d).0 + Xlate(d).1 * Xlate(d).1 == 1
    ensures (Xlate(d).0 == 0) <==> Vertical(d)
    ensures Xlate(Opposite(d)) == (-Xlate(d).0, -Xlate(d).1)
  {
  }

  /** Each mirror undoes itself, turns a beam through a right angle, and the
      two mirrors send a beam in opposite directions. */
  lemma MirrorsInvolutions(d: Dir)
    ensures ReflectSlash(ReflectSlash(d)) == d
    ensures ReflectBackslash(ReflectBackslash(d)) == d
    ensures Vertical(ReflectSlash(d)) != Vertical(d)
    ensures ReflectBackslash(d) == Opposite(ReflectSlash(d))
  {
  }

  /** A beam: its position and the direction it is moving in. As a value it
      is also the `seen` key `x,y,dir`. */
  datatype Beam = Beam(x: int, y: int, dir: Dir)

  /** `check()`: on the board, measured by the rect's height and the
      length of its row 0. */
  predicate InBounds(r: Layout, b: Beam)
    requires |r.vals| > 0
  {
    b.x >= 0 && b.y >= 0 && b.x < Grid.Width(r) && b.y < Grid.Height(r)
  }

  /** On a rect whose rows all have the same length, `check` agrees with the
      bounds `get` enforces. */
  lemma InBoundsInside(r: Layout, b: Beam)
    requires Grid.Uniform(r)
    ensures InBounds(r, b) <==> Grid.Inside(r, b.x, b.y)
  {
  }

  /** `go()`: one step in the beam's direction. */
  function Go(b: Beam): Beam
  {
    Beam(b.x + Xlate(b.dir).0, b.y + Xlate(b.dir).1, b.dir)
  }

  /** Stepping forward and then back again returns to the start. */
  lemma GoReturns(b: Beam)
    ensures var c := Go(b); Go(Beam(c.x, c.y, Opposite(b.dir))) == Beam(b.x, b.y, Opposite(b.dir))
  {
  }

  /** The cells the switch knows. */
  predicate Known(ch: char)
  {
    ch == '.' || ch == '|' || ch == '-' || ch == '/' || ch == '\\'
  }

  function InvalidCell(ch: char): string
  {
    "Invalid cell: " + [ch]
  }

  /** What a cell does to a beam entering it: the direction the beam leaves
      in and the direction of the beam it splits off, if any. */
  datatype Turned = Turned(dir: Dir, split: Option<Dir>)

  /** The `switch` on the cell's character. */
  function Turn(ch: char, d: Dir): (t: Result<Turned>)
    ensures t.Err? <==> !Known(ch)
    ensures t.Err? ==> t.msg == InvalidCell(ch)
  {
    match ch
    case '.' => Ok(Turned(d, None))
    case '|' => if !Vertical(d) then Ok(Turned(Up, Some(Down))) else Ok(Turned(d, None))
    case '-' => if Vertical(d) then Ok(Turned(Left, Some(Right))) else Ok(Turned(d, None))
    case '/' => Ok(Turned(ReflectSlash(d), None))
    case '\\' => Ok(Turned(ReflectBackslash(d), None))
    case _ => Err(InvalidCell(ch))
  }

  /** Empty space lets a beam through; a splitter hit across its length
      sends the beam one way along it and splits off a second beam the
      other way, and one hit along its length lets the beam through; only a
      splitter ever splits. */
  lemma SplitterOutputs(ch: char, d: Dir)
    requires Known(ch)
    ensures var t := Turn(ch, d).value;
      (ch == '.' ==> t == Turned(d, None)) &&
      (ch == '|' ==> (Vertical(t.dir) && (t.split.Some? <==> !Vertical(d)) &&
        (t.split.Some? ==> t.split.value == Opposite(t.dir)) && (Vertical(d) ==> t.dir == d))) &&
      (ch == '-' ==> (!Vertical(t.dir) && (t.split.Some? <==> Vertical(d)) &&
        (t.split.Some? ==> t.split.value == Opposite(t.dir)) && (!Vertical(d) ==> t.dir == d))) &&
      (t.split.Some? ==> ch == '|' || ch == '-')
  {
  }

  /** The state of one round of the loop: the beams the filter keeps (moved
      one step), the split-off beams, and the `seen` and `energized` sets. */
  datatype Pass = Pass(kept: seq<Beam>, extra: seq<Beam>, seen: set<Beam>, energized: set<(int, int)>)

  /** The `filter` callback on one beam. A beam already seen is dropped;
      otherwise it is recorded, its cell is read (a beam off the board is a
      `RangeError`), it turns, possibly splits, and moves on one step, and
      each resulting beam is kept only if it is still on the board. */
  function Visit(r: Layout, b: Beam, p: Pass): (q: Result<Pass>)
    ensures b in p.seen ==> q == Ok(p)
    ensures b !in p.seen ==> (q.Ok? <==> Grid.Inside(r, b.x, b.y) && Known(r.vals[b.y][b.x]))
    ensures q.Ok? && b !in p.seen ==>
      q.value.seen == p.seen + {b} && q.value.energized == p.energized + {(b.x, b.y)}
    ensures q.Ok? ==> |p.kept| <= |q.value.kept| <= |p.kept| + 1 && q.value.kept[..|p.kept|] == p.kept
    ensures q.Ok? ==> |p.extra| <= |q.value.extra| <= |p.extra| + 1 && q.value.extra[..|p.extra|] == p.extra
  {
    if b in p.seen then Ok(p)
    else
      var ch :- Grid.Get(r, b.x, b.y, 0, 0);
      var t :- Turn(ch, b.dir);
      var extra := match t.split
        case Some(sd) => var c := Go(Beam(b.x, b.y, sd)); if InBounds(r, c) then p.extra + [c] else p.extra
        case None => p.extra;
      var moved := Go(Beam(b.x, b.y, t.dir));
      var kept := if InBounds(r, moved) then p.kept + [moved] else p.kept;
      Ok(Pass(kept, extra, p.seen + {b}, p.energized + {(b.x, b.y)}))
  }

  /** The beam states that can be on the board. */
  ghost function Universe(r: Layout): set<Beam>
  {
    set y, x, d | 0 <= y < |r.vals| && 0 <= x < |r.vals[y]| && d in AllDirs :: Beam(x, y, d)
  }

  const AllDirs: set<Dir> := {Up, Right, Down, Left}

  /** The positions on the board. */
  ghost function Cells(r: Layout): set<(int, int)>
  {
    set y, x | 0 <= y < |r.vals| && 0 <= x < |r.vals[y]| :: (x, y)
  }

  lemma InUniverse(r: Layout, b: Beam)
    ensures b in Universe(r) <==> Grid.Inside(r, b.x, b.y)
  {
    if Grid.Inside(r, b.x, b.y) {
      assert b.dir == Up || b.dir == Right || b.dir == Down || b.dir == Left;
      assert b.dir in AllDirs;
      assert b == Beam(b.x, b.y, b.dir);
    }
  }

  lemma InCells(r: Layout, x: int, y: int)
    ensures (x, y) in Cells(r) <==> Grid.Inside(r, x, y)
  {
  }

  /** One round: the filter over all beams, left to right; the first error
      ends the whole computation. */
  function Round(r: Layout, beams: seq<Beam>, p: Pass): (q: Result<Pass>)
    decreases |beams|
  {
    if beams == [] then Ok(p)
    else
      var p' :- Visit(r, beams[0], p);
      Round(r, beams[1..], p')
  }

  /** The positions of a set of beam states: the cells they energize. */
  function Positions(s: set<Beam>): set<(int, int)>
  {
    set b | b in s :: (b.x, b.y)
  }

  lemma PositionsGrow(s: set<Beam>, t: set<Beam>)
    requires s <= t
    ensures Positions(s) <= Positions(t)
  {
  }

  lemma PositionsInCells(r: Layout, s: set<Beam>)
    requires s <= Universe(r)
    ensures Positions(s) <= Cells(r)
  {
    forall b | b in s
      ensures (b.x, b.y) in Cells(r)
    {
      InUniverse(r, b);
      InCells(r, b.x, b.y);
    }
  }

  /** After a round every beam of it has been seen, and nothing else; the
      new states are on the board; the energized cells are still the
      positions of the seen states; and a round that saw nothing new
      produced no beams. */
  lemma {:induction false} RoundRecords(r: Layout, beams: seq<Beam>, p: Pass)
    requires Round(r, beams, p).Ok?
    ensures var q := Round(r, beams, p).value;
      q.seen == p.seen + set b | b in beams
    ensures var q := Round(r, beams, p).value;
      q.seen - p.seen <= Universe(r)
    ensures var q := Round(r, beams, p).value;
      p.energized == Positions(p.seen) ==> q.energized == Positions(q.seen)
    ensures var q := Round(r, beams, p).value;
      q.seen == p.seen ==> q.kept == p.kept && q.extra == p.extra
    decreases |beams|
  {
    if beams != [] {
      var b := beams[0];
      var p' := Visit(r, b, p).value;
      RoundRecords(r, beams[1..], p');
      assert (set c | c in beams) == {b} + set c | c in beams[1..];
      if b !in p.seen {
        InUniverse(r, b);
        if p.energized == Positions(p.seen) {
          assert Positions(p.seen + {b}) == Positions(p.seen) + {(b.x, b.y)};
        }
      }
    }
  }

  /** A round that saw a new state leaves fewer states unseen. */
  lemma Progress(r: Layout, seen: set<Beam>, seen': set<Beam>)
    requires seen <= seen' <= Universe(r)
    ensures seen' == seen || |Universe(r) - seen'| < |Universe(r) - seen|
  {
    if seen' != seen {
      assert exists c :: c in seen' && c !in seen;
      var b :| b in seen' && b !in seen;
      CardinalityBound(Universe(r) - seen', (Universe(r) - seen) - {b});
    }
  }

  /** The `while` loop: rounds until no beam is left, then the number of
      energized cells. Each state is processed at most once (a seen state is
      dropped), so the loop ends. */
  function Spread(r: Layout, beams: seq<Beam>, seen: set<Beam>, energized: set<(int, int)>): (n: Result<nat>)
    requires seen <= Universe(r) && energized == Positions(seen)
    ensures n.Ok? ==> |energized| <= n.value <= |Cells(r)|
    decreases |Universe(r) - seen|, |beams|
  {
    PositionsInCells(r, seen);
    CardinalityBound(energized, Cells(r));
    if beams == [] then Ok(|energized|)
    else
      var q :- Round(r, beams, Pass([], [], seen, energized));
      RoundRecords(r, beams, Pass([], [], seen, energized));
      Progress(r, seen, q.seen);
      PositionsGrow(seen, q.seen);
      CardinalityBound(energized, q.energized);
      Spread(r, q.kept + q.extra, q.seen, q.energized)
  }

  lemma CardinalityBound<T>(a: set<T>, b: set<T>)
    requires a <= b
    ensures |a| <= |b|
  {
    assert b == a + (b - a);
  }

  /** The beam states that visiting b hands on: the beam moved on one step
      and the split-off beam, each only while `check` keeps it on the board.
      A state whose cell cannot be read, or holds an unknown character,
      hands on nothing (the source raises there). */
  function Next(r: Layout, b: Beam): set<Beam>
  {
    if !Grid.Inside(r, b.x, b.y) || !Known(r.vals[b.y][b.x]) then {}
    else
      var t := Turn(r.vals[b.y][b.x], b.dir).value;
      var moved := Go(Beam(b.x, b.y, t.dir));
      var split: set<Beam> := match t.split
        case Some(sd) => var c := Go(Beam(b.x, b.y, sd)); if InBounds(r, c) then {c} else {}
        case None => {};
      (if InBounds(r, moved) then {moved} else {}) + split
  }

  /** b is reached from init in at most n hand-ons. */
  ghost predicate ReachIn(r: Layout, init: Beam, b: Beam, n: nat)
    decreases n
  {
    if n == 0 then b == init
    else ReachIn(r, init, b, n - 1) || exists c :: ReachIn(r, init, c, n - 1) && b in Next(r, c)
  }

  ghost predicate Reachable(r: Layout, init: Beam, b: Beam)
  {
    exists n: nat :: ReachIn(r, init, b, n)
  }

  /** The beam states on the board reachable from init. */
  ghost function Reach(r: Layout, init: Beam): set<Beam>
  {
    set b | b in Universe(r) && Reachable(r, init, b)
  }

  lemma ReachStep(r: Layout, init: Beam, c: Beam, b: Beam)
    requires Reachable(r, init, c) && b in Next(r, c)
    ensures Reachable(r, init, b)
  {
    var n: nat :| ReachIn(r, init, c, n);
    assert ReachIn(r, init, b, n + 1);
  }

  /** A set that holds init and every state its members hand on holds every
      state reachable from init. */
  lemma {:induction false} ClosedHoldsReach(r: Layout, init: Beam, s: set<Beam>, b: Beam, n: nat)
    requires init in s && Closed(r, s)
    requires ReachIn(r, init, b, n)
    ensures b in s
    decreases n
  {
    if n > 0 {
      var c, stepped := ReachedFrom(r, init, b, n);
      if stepped {
        ClosedHoldsReach(r, init, s, c, n - 1);
        ClosedStep(r, s, c, b);
      } else {
        ClosedHoldsReach(r, init, s, b, n - 1);
      }
    }
  }

  /** Every state a member of s hands on is again in s. */
  ghost predicate Closed(r: Layout, s: set<Beam>)
  {
    forall c, x :: c in s && x in Next(r, c) ==> x in s
  }

  /** A state reached in n > 0 hand-ons was reached in n - 1 already, or is
      handed on by a state c reached in n - 1 (and then stepped holds). */
  lemma ReachedFrom(r: Layout, init: Beam, b: Beam, n: nat) returns (c: Beam, stepped: bool)
    requires n > 0 && ReachIn(r, init, b, n)
    ensures stepped ==> ReachIn(r, init, c, n - 1) && b in Next(r, c)
    ensures !stepped ==> ReachIn(r, init, b, n - 1)
  {
    if ReachIn(r, init, b, n - 1) {
      c, stepped := b, false;
    } else {
      c :| ReachIn(r, init, c, n - 1) && b in Next(r, c);
      stepped := true;
    }
  }

  lemma ClosedStep(r: Layout, s: set<Beam>, c: Beam, b: Beam)
    requires Closed(r, s) && c in s && b in Next(r, c)
    ensures b in s
  {
  }

  /** The beams a pass has collected, kept or split off. */
  function Pending(p: Pass): set<Beam>
  {
    set c | c in p.kept + p.extra
  }

  /** Visiting an unseen beam collects exactly the states it hands on. */
  lemma VisitNext(r: Layout, b: Beam, p: Pass)
    requires Visit(r, b, p).Ok?
    ensures Pending(Visit(r, b, p).value) == Pending(p) + (if b in p.seen then {} else Next(r, b))
  {
    if b !in p.seen {
      var q := Visit(r, b, p).value;
      var t := Turn(r.vals[b.y][b.x], b.dir).value;
      var moved := Go(Beam(b.x, b.y, t.dir));
      assert q.kept == if InBounds(r, moved) then p.kept + [moved] else p.kept;
      assert Pending(q) == Pending(p) + Next(r, b);
    }
  }

  /** A round collects, besides what it started with, exactly the states
      that its beams unseen at the start hand on. */
  lemma {:induction false} RoundNext(r: Layout, beams: seq<Beam>, p: Pass)
    requires Round(r, beams, p).Ok?
    ensures var q := Round(r, beams, p).value;
      forall c :: c in Pending(q) ==> c in Pending(p) || exists b :: b in beams && b !in p.seen && c in Next(r, b)
    ensures var q := Round(r, beams, p).value;
      Pending(p) <= Pending(q) && forall b :: b in beams && b !in p.seen ==> Next(r, b) <= Pending(q)
    decreases |beams|
  {
    if beams != [] {
      var b := beams[0];
      var p' := Visit(r, b, p).value;
      VisitNext(r, b, p);
      RoundNext(r, beams[1..], p');
      var q := Round(r, beams, p).value;
      assert q == Round(r, beams[1..], p').value;
      assert p'.seen == p.seen || p'.seen == p.seen + {b};
      forall c | c in Pending(q)
        ensures c in Pending(p) || exists b :: b in beams && b !in p.seen && c in Next(r, b)
      {
        if c !in Pending(p') {
          var b2 :| b2 in beams[1..] && b2 !in p'.seen && c in Next(r, b2);
          assert b2 in beams;
        } else if c !in Pending(p) {
          assert b in beams;
        }
      }
      forall b2 | b2 in beams && b2 !in p.seen
        ensures Next(r, b2) <= Pending(q)
      {
        if b2 != b {
          assert b2 in beams[1..];
        }
      }
    }
  }

  /** A state of the loop in which everything seen or pending is reachable
      from init, init is seen or pending, and whatever a seen state hands on
      is seen or pending. */
  ghost predicate Explored(r: Layout, init: Beam, beams: seq<Beam>, seen: set<Beam>)
  {
    (forall b :: b in seen ==> Reachable(r, init, b)) &&
    (forall b :: b in beams ==> Reachable(r, init, b)) &&
    (forall b :: b in seen ==> Next(r, b) <= seen + set c | c in beams) &&
    (init in seen || init in beams)
  }

  /** A round keeps the loop's state explored. */
  lemma ExploredStep(r: Layout, init: Beam, beams: seq<Beam>, seen: set<Beam>, energized: set<(int, int)>)
    requires Explored(r, init, beams, seen)
    requires Round(r, beams, Pass([], [], seen, energized)).Ok?
    ensures var q := Round(r, beams, Pass([], [], seen, energized)).value;
      Explored(r, init, q.kept + q.extra, q.seen)
  {
    var p := Pass([], [], seen, energized);
    var q := Round(r, beams, p).value;
    RoundRecords(r, beams, p);
    RoundNext(r, beams, p);
    var next := q.kept + q.extra;
    assert Pending(q) == set c | c in next;
    assert Pending(p) == {};
    forall c | c in next
      ensures Reachable(r, init, c)
    {
      assert c in Pending(q);
      var b :| b in beams && b !in seen && c in Next(r, b);
      ReachStep(r, init, b, c);
    }
    forall b | b in q.seen
      ensures Next(r, b) <= q.seen + set c | c in next
    {
      if b !in seen {
        assert b in beams;
      }
    }
  }

  /** An explored state with nothing pending has seen exactly the states
      reachable from init. */
  lemma ExploredDone(r: Layout, init: Beam, seen: set<Beam>)
    requires seen <= Universe(r) && Explored(r, init, [], seen)
    ensures seen == Reach(r, init)
  {
    assert seen + (set c | c in []) == seen;
    forall b | b in Reach(r, init)
      ensures b in seen
    {
      var n: nat :| ReachIn(r, init, b, n);
      assert Closed(r, seen);
      ClosedHoldsReach(r, init, seen, b, n);
    }
  }

  /** From an explored state of the loop, the loop answers with the number
      of cells of the states reachable from init. */
  lemma {:induction false} SpreadReach(r: Layout, init: Beam, beams: seq<Beam>, seen: set<Beam>, energized: set<(int, int)>)
    requires seen <= Universe(r) && energized == Positions(seen)
    requires Spread(r, beams, seen, energized).Ok?
    requires Explored(r, init, beams, seen)
    ensures Spread(r, beams, seen, energized).value == |Positions(Reach(r, init))|
    decreases |Universe(r) - seen|, |beams|
  {
    if beams == [] {
      ExploredDone(r, init, seen);
    } else {
      var p := Pass([], [], seen, energized);
      var q := Round(r, beams, p).value;
      RoundRecords(r, beams, p);
      Progress(r, seen, q.seen);
      ExploredStep(r, init, beams, seen, energized);
      SpreadReach(r, init, q.kept + q.extra, q.seen, q.energized);
    }
  }

  /** Every cell of the board holds a character the switch knows. */
  predicate AllKnown(r: Layout)
  {
    forall y, x :: 0 <= y < |r.vals| && 0 <= x < |r.vals[y]| ==> Known(r.vals[y][x])
  }

  /** On a board whose rows all have row 0's length and hold only known
      characters, a round over beams on the board never fails and collects
      only beams on the board. */
  lemma {:induction false} RoundOk(r: Layout, beams: seq<Beam>, p: Pass)
    requires Grid.Uniform(r) && AllKnown(r)
    requires forall b :: b in beams ==> Grid.Inside(r, b.x, b.y)
    requires forall c :: c in p.kept + p.extra ==> Grid.Inside(r, c.x, c.y)
    ensures Round(r, beams, p).Ok?
    ensures forall c :: c in Round(r, beams, p).value.kept + Round(r, beams, p).value.extra ==> Grid.Inside(r, c.x, c.y)
    decreases |beams|
  {
    if beams != [] {
      var b := beams[0];
      var p' := Visit(r, b, p).value;
      forall c | c in p'.kept + p'.extra
        ensures Grid.Inside(r, c.x, c.y)
      {
        if c !in p.kept + p.extra {
          InBoundsInside(r, c);
        }
      }
      RoundOk(r, beams[1..], p');
    }
  }

  /** On such a board the loop never fails while its beams are on the
      board. */
  lemma {:induction false} SpreadOk(r: Layout, beams: seq<Beam>, seen: set<Beam>, energized: set<(int, int)>)
    requires Grid.Uniform(r) && AllKnown(r)
    requires seen <= Universe(r) && energized == Positions(seen)
    requires forall b :: b in beams ==> Grid.Inside(r, b.x, b.y)
    ensures Spread(r, beams, seen, energized).Ok?
    decreases |Universe(r) - seen|, |beams|
  {
    if beams != [] {
      var p := Pass([], [], seen, energized);
      RoundOk(r, beams, p);
      var q := Round(r, beams, p).value;
      RoundRecords(r, beams, p);
      Progress(r, seen, q.seen);
      SpreadOk(r, q.kept + q.extra, q.seen, q.energized);
    }
  }

  /** The loop started from init alone. */
  lemma SpreadFromStart(r: Layout, init: Beam)
    ensures Positions({}) == {}
    ensures Grid.Uniform(r) && AllKnown(r) && Grid.Inside(r, init.x, init.y) ==> Spread(r, [init], {}, {}).Ok?
    ensures Spread(r, [init], {}, {}).Ok? ==> Spread(r, [init], {}, {}).value == |Positions(Reach(r, init))|
  {
    assert Positions({}) == {};
    if Grid.Uniform(r) && AllKnown(r) && Grid.Inside(r, init.x, init.y) {
      SpreadOk(r, [init], {}, {});
    }
    if Spread(r, [init], {}, {}).Ok? {
      assert ReachIn(r, init, init, 0);
      SpreadReach(r, init, [init], {}, {});
    }
  }

  /** `energize(init)`: a start off the board is a `RangeError`; on a board
      whose rows have row 0's length and hold only known characters every
      start on the board succeeds; and a successful answer is the number of
      cells covered by the beam states reachable from the start, at least
      the start's cell and at most every cell. */
  function Energize(r: Layout, init: Beam): (n: Result<nat>)
    ensures n.Ok? ==> n.value == |Positions(Reach(r, init))|
    ensures n.Ok? ==> 1 <= n.value <= |Cells(r)|
    ensures !Grid.Inside(r, init.x, init.y) ==> n == Err(Grid.RangeError)
    ensures Grid.Uniform(r) && AllKnown(r) && Grid.Inside(r, init.x, init.y) ==> n.Ok?
  {
    var p := Pass([], [], {}, {});
    var q := Round(r, [init], p);
    SpreadFromStart(r, init);
    if q.Ok? then
      RoundRecords(r, [init], p);
      assert (init.x, init.y) in q.value.energized;
      Spread(r, [init], {}, {})
    else
      Spread(r, [init], {}, {})
  }

  /** The number of cells of a rect whose rows all have row 0's length is
      its width times its height. */
  lemma CellsCount(r: Layout)
    requires Grid.Uniform(r)
    ensures |Cells(r)| == Grid.Width(r) * Grid.Height(r)
  {
    var w, h := Grid.Width(r), Grid.Height(r);
    forall p | p in Cells(r)
      ensures p in Block(w, h)
    {
      BlockMembers(w, h, p);
    }
    forall p | p in Block(w, h)
      ensures p in Cells(r)
    {
      BlockMembers(w, h, p);
      InCells(r, p.0, p.1);
    }
    assert Cells(r) == Block(w, h);
    BlockCount(w, h);
  }

  /** The positions of a w by h rectangle, row by row. */
  ghost function Block(w: nat, h: nat): set<(int, int)>
  {
    if h == 0 then {} else Block(w, h - 1) + RowOf(w, h - 1)
  }

  ghost function RowOf(w: nat, y: int): set<(int, int)>
  {
    if w == 0 then {} else RowOf(w - 1, y) + {(w - 1, y)}
  }

  lemma {:induction false} RowOfMembers(w: nat, y: int, p: (int, int))
    ensures p in RowOf(w, y) <==> 0 <= p.0 < w && p.1 == y
  {
    if w > 0 {
      RowOfMembers(w - 1, y, p);
    }
  }

  lemma {:induction false} BlockMembers(w: nat, h: nat, p: (int, int))
    ensures p in Block(w, h) <==> 0 <= p.0 < w && 0 <= p.1 < h
  {
    if h > 0 {
      BlockMembers(w, h - 1, p);
      RowOfMembers(w, h - 1, p);
    }
  }

  lemma {:induction false} RowOfCount(w: nat, y: int)
    ensures |RowOf(w, y)| == w
  {
    if w > 0 {
      RowOfCount(w - 1, y);
      RowOfMembers(w - 1, y, (w - 1, y));
    }
  }

  lemma {:induction false} BlockCount(w: nat, h: nat)
    ensures |Block(w, h)| == w * h
  {
    if h > 0 {
      var k := h - 1;
      BlockCount(w, k);
      RowOfCount(w, k);
      assert Block(w, k) * RowOf(w, k) == {} by {
        forall p | p in RowOf(w, k)
          ensures p !in Block(w, k)
        {
          RowOfMembers(w, k, p);
          BlockMembers(w, k, p);
        }
      }
      MulSucc(w, k);
    }
  }

  lemma MulSucc(w: int, k: int)
    ensures w * (k + 1) == w * k + w
  {
  }

  /** Part 1: a beam entering the top left corner moving right. */
  function Part1(r: Layout): (n: Result<nat>)
    ensures Grid.Uniform(r) && n.Ok? ==> n.value <= Grid.Width(r) * Grid.Height(r)
    ensures n.Ok? <==> Energize(r, Beam(0, 0, Right)).Ok?
  {
    if Grid.Uniform(r) then
      CellsCount(r);
      Energize(r, Beam(0, 0, Right))
    else
      Energize(r, Beam(0, 0, Right))
  }

  const NoRows := "TypeError: the rect has no row 0"

  /** The first loop of part 2, from column x on: a beam entering each
      column at the top moving down, and one starting on the bottom row
      moving in direction `bottom`. */
  function EdgeColumns(w: nat, h: nat, x: nat, bottom: Dir): seq<Beam>
    decreases w - x
  {
    if x >= w then [] else [Beam(x, 0, Down), Beam(x, h - 1, bottom)] + EdgeColumns(w, h, x + 1, bottom)
  }

  /** The second loop of part 2, from row y on: a beam entering each row
      at the left moving right and one at the right moving left. */
  function EdgeRows(w: nat, h: nat, y: nat): seq<Beam>
    decreases h - y
  {
    if y >= h then [] else [Beam(0, y, Right), Beam(w - 1, y, Left)] + EdgeRows(w, h, y + 1)
  }

  lemma {:induction false} EdgeColumnsMembers(w: nat, h: nat, x: nat, bottom: Dir, b: Beam)
    ensures b in EdgeColumns(w, h, x, bottom) <==>
      x <= b.x < w && ((b.y == 0 && b.dir == Down) || (b.y == h - 1 && b.dir == bottom))
    decreases w - x
  {
    if x < w {
      EdgeColumnsMembers(w, h, x + 1, bottom, b);
    }
  }

  lemma {:induction false} EdgeRowsMembers(w: nat, h: nat, y: nat, b: Beam)
    ensures b in EdgeRows(w, h, y) <==>
      y <= b.y < h && ((b.x == 0 && b.dir == Right) || (b.x == w - 1 && b.dir == Left))
    decreases h - y
  {
    if y < h {
      EdgeRowsMembers(w, h, y + 1, b);
    }
  }

  /** Every start part 2 tries, in the order of its loops. */
  function Starts(r: Layout, bottom: Dir): (s: seq<Beam>)
    requires |r.vals| > 0
    ensures |s| == 2 * Grid.Width(r) + 2 * Grid.Height(r)
  {
    EdgeLength(Grid.Width(r), Grid.Height(r), 0, bottom);
    EdgeColumns(Grid.Width(r), Grid.Height(r), 0, bottom) + EdgeRows(Grid.Width(r), Grid.Height(r), 0)
  }

  lemma {:induction false} EdgeLength(w: nat, h: nat, i: nat, bottom: Dir)
    requires i <= w && i <= h
    ensures |EdgeColumns(w, h, i, bottom)| == 2 * (w - i)
    ensures |EdgeRows(w, h, i)| == 2 * (h - i)
  {
    ColumnsLength(w, h, i, bottom);
    RowsLength(w, h, i);
  }

  lemma {:induction false} ColumnsLength(w: nat, h: nat, x: nat, bottom: Dir)
    ensures |EdgeColumns(w, h, x, bottom)| == if x <= w then 2 * (w - x) else 0
    decreases w - x
  {
    if x < w {
      ColumnsLength(w, h, x + 1, bottom);
    }
  }

  lemma {:induction false} RowsLength(w: nat, h: nat, y: nat)
    ensures |EdgeRows(w, h, y)| == if y <= h then 2 * (h - y) else 0
    decreases h - y
  {
    if y < h {
      RowsLength(w, h, y + 1);
    }
  }

  function Max(a: nat, b: nat): nat
  {
    if a < b then b else a
  }

  /** `Math.max` over the energy of each start, in order: the first error
      ends the computation. */
  function Best(r: Layout, starts: seq<Beam>): (b: Result<nat>)
    requires |starts| > 0
    ensures b.Ok? <==> forall i :: 0 <= i < |starts| ==> Energize(r, starts[i]).Ok?
    decreases |starts|
  {
    var e :- Energize(r, starts[0]);
    if |starts| == 1 then Ok(e)
    else
      var m :- Best(r, starts[1..]);
      Ok(Max(e, m))
  }

  /** The maximum is the energy of some start and no start beats it. */
  lemma {:induction false} BestIsMax(r: Layout, starts: seq<Beam>)
    requires |starts| > 0 && Best(r, starts).Ok?
    ensures forall i :: 0 <= i < |starts| ==> Energize(r, starts[i]).value <= Best(r, starts).value
    ensures exists i :: 0 <= i < |starts| && Energize(r, starts[i]) == Best(r, starts)
    decreases |starts|
  {
    if |starts| > 1 {
      var rest := starts[1..];
      BestIsMax(r, rest);
      forall i | 1 <= i < |starts|
        ensures Energize(r, starts[i]).value <= Best(r, starts).value
      {
        assert starts[i] == rest[i - 1];
      }
      if Energize(r, starts[0]).value < Best(r, rest).value {
        var j :| 0 <= j < |rest| && Energize(r, rest[j]) == Best(r, rest);
        assert starts[j + 1] == rest[j];
      }
    }
  }

  /** An error is the first start's error. */
  lemma {:induction false} BestFirstError(r: Layout, starts: seq<Beam>) returns (i: nat)
    requires |starts| > 0 && Best(r, starts).Err?
    ensures i < |starts| && Energize(r, starts[i]) == Best(r, starts)
    ensures forall j :: 0 <= j < i ==> Energize(r, starts[j]).Ok?
    decreases |starts|
  {
    if Energize(r, starts[0]).Ok? {
      var rest := starts[1..];
      var k := BestFirstError(r, rest);
      i := k + 1;
      assert starts[i] == rest[k];
      forall j | 0 <= j < i
        ensures Energize(r, starts[j]).Ok?
      {
        if j > 0 {
          assert starts[j] == rest[j - 1];
        }
      }
    } else {
      i := 0;
    }
  }

  /** Part 2 as written: the maximum over the edge starts, where the starts
      on the bottom row move down, off the board, rather than up into it. */
  function Part2(r: Layout): (n: Result<nat>)
    ensures |r.vals| == 0 ==> n == Err(NoRows)
    ensures n.Ok? ==> forall b :: b in Starts(r, Down) ==> Energize(r, b).Ok? && Energize(r, b).value <= n.value
    ensures n.Ok? ==> exists b :: b in Starts(r, Down) && Energize(r, b) == n
  {
    if |r.vals| == 0 then Err(NoRows)
    else
      var n := Best(r, Starts(r, Down));
      if n.Ok? then BestIsMax(r, Starts(r, Down)); n else n
  }

  /** Part 2 with every start entering the board: the bottom-row starts
      move up. */
  function Part2Inward(r: Layout): (n: Result<nat>)
    ensures |r.vals| == 0 ==> n == Err(NoRows)
    ensures n.Ok? ==> forall b :: b in Starts(r, Up) ==> Energize(r, b).Ok? && Energize(r, b).value <= n.value
    ensures n.Ok? ==> exists b :: b in Starts(r, Up) && Energize(r, b) == n
  {
    if |r.vals| == 0 then Err(NoRows)
    else
      var n := Best(r, Starts(r, Up));
      if n.Ok? then BestIsMax(r, Starts(r, Up)); n else n
  }

  /** A start enters the board when it is on it and the cell behind it is
      off it. */
  predicate Enters(r: Layout, b: Beam)
    requires |r.vals| > 0
  {
    InBounds(r, b) && !InBounds(r, Go(Beam(b.x, b.y, Opposite(b.dir))))
  }

  /** With the bottom-row starts moving up, part 2 tries exactly the beams
      entering the board from an edge. */
  lemma StartsInward(r: Layout, b: Beam)
    requires |r.vals| > 0 && Grid.Width(r) > 0
    ensures b in Starts(r, Up) <==> Enters(r, b)
  {
    var w, h := Grid.Width(r), Grid.Height(r);
    EdgeColumnsMembers(w, h, 0, Up, b);
    EdgeRowsMembers(w, h, 0, b);
    assert b in Starts(r, Up) <==> b in EdgeColumns(w, h, 0, Up) || b in EdgeRows(w, h, 0);
  }

  /** As written, a board with two or more rows has a start that does not
      enter it: the bottom-left one moves down from inside the board. */
  lemma StartsAsWritten(r: Layout)
    requires |r.vals| > 1 && Grid.Width(r) > 0
    ensures Beam(0, Grid.Height(r) - 1, Down) in Starts(r, Down)
    ensures !Enters(r, Beam(0, Grid.Height(r) - 1, Down))
  {
    EdgeColumnsMembers(Grid.Width(r), Grid.Height(r), 0, Down, Beam(0, Grid.Height(r) - 1, Down));
  }

  /** A one-column board: a splitter '-' above an empty cell. */
  const Tall: Layout := Grid.Rect([['-'], ['.']])

  /** A beam whose first round energizes its own cell and leaves nothing
      to follow energizes one cell. */
  lemma Lone(r: Layout, b: Beam)
    requires Round(r, [b], Pass([], [], {}, {})) == Ok(Pass([], [], {b}, {(b.x, b.y)}))
    ensures Energize(r, b) == Ok(1)
  {
    RoundRecords(r, [b], Pass([], [], {}, {}));
    assert Spread(r, [b], {}, {}) == Spread(r, [], {b}, {(b.x, b.y)});
    assert |{(b.x, b.y)}| == 1;
  }

  /** Visiting an unseen beam whose cell sends it, and any beam split
      off, off the board records it and produces no beam. */
  lemma VisitLeaves(r: Layout, b: Beam, p: Pass, ch: char)
    requires b !in p.seen && Grid.Inside(r, b.x, b.y) && r.vals[b.y][b.x] == ch && Known(ch)
    requires !InBounds(r, Go(Beam(b.x, b.y, Turn(ch, b.dir).value.dir)))
    requires Turn(ch, b.dir).value.split.Some? ==> !InBounds(r, Go(Beam(b.x, b.y, Turn(ch, b.dir).value.split.value)))
    ensures Visit(r, b, p) == Ok(Pass(p.kept, p.extra, p.seen + {b}, p.energized + {(b.x, b.y)}))
  {
  }

  /** Visiting an unseen beam whose cell lets it on, with no split. */
  lemma VisitMoves(r: Layout, b: Beam, p: Pass, ch: char)
    requires b !in p.seen && Grid.Inside(r, b.x, b.y) && r.vals[b.y][b.x] == ch && Known(ch)
    requires Turn(ch, b.dir).value.split.None?
    requires InBounds(r, Go(Beam(b.x, b.y, Turn(ch, b.dir).value.dir)))
    ensures Visit(r, b, p) ==
      Ok(Pass(p.kept + [Go(Beam(b.x, b.y, Turn(ch, b.dir).value.dir))], p.extra, p.seen + {b}, p.energized + {(b.x, b.y)}))
  {
  }

  /** A start whose cell sends it, and any beam split off, straight off
      the board energizes one cell. */
  lemma LeavesAtOnce(r: Layout, b: Beam)
    requires Grid.Inside(r, b.x, b.y) && Known(r.vals[b.y][b.x])
    requires var t := Turn(r.vals[b.y][b.x], b.dir).value;
      !InBounds(r, Go(Beam(b.x, b.y, t.dir))) &&
      (t.split.Some? ==> !InBounds(r, Go(Beam(b.x, b.y, t.split.value))))
    ensures Energize(r, b) == Ok(1)
  {
    var p := Pass([], [], {}, {});
    VisitLeaves(r, b, p, r.vals[b.y][b.x]);
    assert p.seen + {b} == {b};
    assert p.energized + {(b.x, b.y)} == {(b.x, b.y)};
    assert Round(r, [b], p) == Visit(r, b, p);
    Lone(r, b);
  }

  /** On `Tall` every beam but the one entering from the bottom moving up
      leaves the board, or reaches a splitter across its length and loses
      both halves, after one cell. */
  lemma TallLone(r: Layout, b: Beam)
    requires r.vals == [['-'], ['.']]
    requires b.x == 0 && 0 <= b.y <= 1 && b != Beam(0, 1, Up)
    ensures Energize(r, b) == Ok(1)
  {
    assert |r.vals| == 2 && |r.vals[0]| == 1 && |r.vals[1]| == 1;
    assert r.vals[0][0] == '-' && r.vals[1][0] == '.';
    if b.y == 0 {
      TallTop(r, b.dir);
    } else {
      assert Turn('.', b.dir) == Ok(Turned(b.dir, None));
      LeavesAtOnce(r, b);
    }
  }

  /** On `Tall`'s splitter a beam moving along it passes off the board. */
  lemma TallTop(r: Layout, d: Dir)
    requires |r.vals| == 2 && r.vals[0] == ['-'] && |r.vals[1]| == 1
    ensures Energize(r, Beam(0, 0, d)) == Ok(1)
  {
    if Vertical(d) {
      TallSplit(r, d);
    } else {
      TallAlong(r, d);
    }
  }

  /** On `Tall`'s splitter a beam moving along it passes through and
      leaves the board. */
  lemma TallAlong(r: Layout, d: Dir)
    requires |r.vals| == 2 && r.vals[0] == ['-'] && |r.vals[1]| == 1 && !Vertical(d)
    ensures Energize(r, Beam(0, 0, d)) == Ok(1)
  {
    assert Turn('-', d) == Ok(Turned(d, None));
    assert !InBounds(r, Go(Beam(0, 0, d)));
    LeavesAtOnce(r, Beam(0, 0, d));
  }

  /** On `Tall`'s splitter a beam moving across it splits into two halves
      that both leave the board. */
  lemma TallSplit(r: Layout, d: Dir)
    requires |r.vals| == 2 && r.vals[0] == ['-'] && |r.vals[1]| == 1 && Vertical(d)
    ensures Energize(r, Beam(0, 0, d)) == Ok(1)
  {
    var b := Beam(0, 0, d);
    assert Turn('-', d) == Ok(Turned(Left, Some(Right)));
    assert Go(Beam(0, 0, Left)) == Beam(-1, 0, Left);
    assert Go(Beam(0, 0, Right)) == Beam(1, 0, Right);
    LeavesAtOnce(r, b);
  }

  /** A start that moves on to a second state, which then leaves the
      board, energizes two cells when the two positions differ. */
  lemma MovesOnce(r: Layout, b: Beam, c: Beam)
    requires b != c && (b.x, b.y) != (c.x, c.y)
    requires Visit(r, b, Pass([], [], {}, {})) == Ok(Pass([c], [], {b}, {(b.x, b.y)}))
    requires Visit(r, c, Pass([], [], {b}, {(b.x, b.y)})) == Ok(Pass([], [], {b, c}, {(b.x, b.y), (c.x, c.y)}))
    ensures Energize(r, b) == Ok(2)
  {
    var p := Pass([], [], {}, {});
    assert Round(r, [b], p) == Ok(Pass([c], [], {b}, {(b.x, b.y)}));
    RoundRecords(r, [b], p);
    var p1 := Pass([], [], {b}, {(b.x, b.y)});
    assert Round(r, [c], p1) == Ok(Pass([], [], {b, c}, {(b.x, b.y), (c.x, c.y)}));
    RoundRecords(r, [c], p1);
    var seen, en := {b, c}, {(b.x, b.y), (c.x, c.y)};
    assert Spread(r, [], seen, en) == Ok(2);
    assert Spread(r, [c], {b}, {(b.x, b.y)}) == Spread(r, [], seen, en);
    assert Spread(r, [b], {}, {}) == Spread(r, [c], {b}, {(b.x, b.y)});
  }

  /** The beam entering `Tall` from the bottom moving up energizes both
      cells. */
  lemma TallUp(r: Layout)
    requires r.vals == [['-'], ['.']]
    ensures Energize(r, Beam(0, 1, Up)) == Ok(2)
  {
    assert |r.vals| == 2 && |r.vals[0]| == 1 && |r.vals[1]| == 1;
    assert r.vals[0][0] == '-' && r.vals[1][0] == '.';
    var b, top := Beam(0, 1, Up), Beam(0, 0, Up);
    var p := Pass([], [], {}, {});
    assert Turn('.', Up) == Ok(Turned(Up, None));
    VisitMoves(r, b, p, '.');
    assert p.seen + {b} == {b} && p.energized + {(0, 1)} == {(0, 1)};
    var p1 := Pass([], [], {b}, {(0, 1)});
    assert Turn('-', Up) == Ok(Turned(Left, Some(Right)));
    VisitLeaves(r, top, p1, '-');
    assert p1.seen + {top} == {b, top} && p1.energized + {(0, 0)} == {(0, 1), (0, 0)};
    MovesOnce(r, b, top);
  }

  lemma TallStarts(r: Layout)
    requires r.vals == [['-'], ['.']]
    ensures Starts(r, Down) ==
      [Beam(0, 0, Down), Beam(0, 1, Down), Beam(0, 0, Right), Beam(0, 0, Left), Beam(0, 1, Right), Beam(0, 1, Left)]
    ensures Starts(r, Up) ==
      [Beam(0, 0, Down), Beam(0, 1, Up), Beam(0, 0, Right), Beam(0, 0, Left), Beam(0, 1, Right), Beam(0, 1, Left)]
  {
    assert EdgeColumns(1, 2, 1, Down) == [] && EdgeColumns(1, 2, 1, Up) == [];
    assert EdgeRows(1, 2, 2) == [];
    assert EdgeRows(1, 2, 1) == [Beam(0, 1, Right), Beam(0, 1, Left)];
  }

  /** On `Tall`, every start part 2 tries as written energizes one cell,
      while the beam entering from the bottom moving up passes the empty
      cell and reaches the splitter, energizing both: the answer as written
      is 1 where 2 is intended. */
  lemma BottomStartsCounterexample(r: Layout)
    requires r == Tall
    ensures Part2(r) == Ok(1)
    ensures Part2Inward(r) == Ok(2)
  {
    TallAsWritten(r);
    TallInward(r);
  }

  lemma TallAsWritten(r: Layout)
    requires r.vals == [['-'], ['.']]
    ensures Part2(r) == Ok(1)
  {
    TallStarts(r);
    var down := Starts(r, Down);
    forall i | 0 <= i < |down|
      ensures Energize(r, down[i]) == Ok(1)
    {
      TallLone(r, down[i]);
    }
    BestIsMax(r, down);
  }

  lemma TallInward(r: Layout)
    requires r.vals == [['-'], ['.']]
    ensures Part2Inward(r) == Ok(2)
  {
    TallStarts(r);
    var up := Starts(r, Up);
    forall i | 0 <= i < |up| && i != 1
      ensures Energize(r, up[i]) == Ok(1)
    {
      TallLone(r, up[i]);
    }
    TallUp(r);
    BestIsMax(r, up);
  }
}
