/** Day 8 (day8.ts): walking a network of nodes by cycling through a list
    of left/right directions. */
module Day8 {
  import opened Outcomes
  import Utils

  datatype Dir = L | R

  datatype Node = Node(left: string, right: string)

  /** The parsed network: its nodes, and their names in `Object.keys`
      order. */
  datatype Network = Network(names: seq<string>, nodes: map<string, Node>)

  /** How a walk ends: after `steps` steps at an end node, at a node the
      network does not define (where the source throws reading it), or with
      the step bound spent (the source would go on for ever). */
  datatype Walk = Steps(steps: nat) | Missing(at: string) | Unfinished

  function Next(n: Node, d: Dir): string
  {
    if d == L then n.left else n.right
  }

  /** The node reached after k steps from `start`, where step i follows
      direction i mod |dirs|; None once a step leaves from an undefined
      node. */
  function Position(start: string, dirs: seq<Dir>, net: Network, k: nat): Option<string>
    requires dirs != []
  {
    if k == 0 then Some(start)
    else
      match Position(start, dirs, net, k - 1)
      case None => None
      case Some(p) => if p in net.nodes then Some(Next(net.nodes[p], dirs[(k - 1) % |dirs|])) else None
  }

  /** The loop of `pathLength` from its i-th step at node `pos`. */
  function WalkFrom(pos: string, i: nat, dirs: seq<Dir>, net: Network, end: string -> bool, fuel: nat): (w: Walk)
    requires dirs != []
    ensures w.Steps? ==> w.steps >= i
    ensures w.Steps? && w.steps == i ==> end(pos)
    decreases fuel
  {
    if end(pos) then Steps(i)
    else if pos !in net.nodes then Missing(pos)
    else if fuel == 0 then Unfinished
    else WalkFrom(Next(net.nodes[pos], dirs[i % |dirs|]), i + 1, dirs, net, end, fuel - 1)
  }

  /** `pathLength(start, end)`, allowed `fuel` steps. With no directions the
      cycled sequence is empty, the loop body never runs and the answer is
      0. */
  function PathLength(start: string, dirs: seq<Dir>, net: Network, end: string -> bool, fuel: nat): Walk
  {
    if dirs == [] then Steps(0) else WalkFrom(start, 0, dirs, net, end, fuel)
  }

  /** A walk that ends in n steps stops at the first end node: the node
      after n steps is an end and none before it is. */
  lemma {:induction false} WalkFirstEnd(start: string, pos: string, i: nat, dirs: seq<Dir>, net: Network, end: string -> bool, fuel: nat)
    requires dirs != []
    requires Position(start, dirs, net, i) == Some(pos)
    requires forall k :: 0 <= k < i ==> Position(start, dirs, net, k).Some? && !end(Position(start, dirs, net, k).value)
    ensures WalkFrom(pos, i, dirs, net, end, fuel).Steps? ==>
      var n := WalkFrom(pos, i, dirs, net, end, fuel).steps;
      Position(start, dirs, net, n).Some? && end(Position(start, dirs, net, n).value) &&
      forall k :: 0 <= k < n ==> Position(start, dirs, net, k).Some? && !end(Position(start, dirs, net, k).value)
    decreases fuel
  {
    if !end(pos) && pos in net.nodes && fuel > 0 {
      var next := Next(net.nodes[pos], dirs[i % |dirs|]);
      assert Position(start, dirs, net, i + 1) == Some(next);
      WalkFirstEnd(start, next, i + 1, dirs, net, end, fuel - 1);
    }
  }

  /** Conversely, if the node after n steps is the first end and every step
      before it is defined, a walk with at least n steps of fuel finds it. */
  lemma {:induction false} WalkFindsEnd(start: string, pos: string, i: nat, dirs: seq<Dir>, net: Network, end: string -> bool, fuel: nat, n: nat)
    requires dirs != [] && i <= n && n - i <= fuel
    requires Position(start, dirs, net, i) == Some(pos)
    requires Position(start, dirs, net, n).Some? && end(Position(start, dirs, net, n).value)
    requires forall k :: i <= k < n ==> Position(start, dirs, net, k).Some? && !end(Position(start, dirs, net, k).value)
    ensures WalkFrom(pos, i, dirs, net, end, fuel) == Steps(n)
    decreases fuel
  {
    if i < n {
      assert !end(pos);
      assert Position(start, dirs, net, i + 1).Some?;
      var next := Next(net.nodes[pos], dirs[i % |dirs|]);
      WalkFindsEnd(start, next, i + 1, dirs, net, end, fuel - 1, n);
    }
  }

  /** The number of steps `pathLength` returns is the first n whose node is
      an end, in both directions. */
  lemma PathLengthIsFirstEnd(start: string, dirs: seq<Dir>, net: Network, end: string -> bool, fuel: nat, n: nat)
    requires dirs != []
    ensures PathLength(start, dirs, net, end, fuel) == Steps(n) ==>
      Position(start, dirs, net, n).Some? && end(Position(start, dirs, net, n).value) &&
      forall k :: 0 <= k < n ==> Position(start, dirs, net, k).Some? && !end(Position(start, dirs, net, k).value)
    ensures (n <= fuel && Position(start, dirs, net, n).Some? && end(Position(start, dirs, net, n).value) &&
             forall k :: 0 <= k < n ==> Position(start, dirs, net, k).Some? && !end(Position(start, dirs, net, k).value)) ==>
            PathLength(start, dirs, net, end, fuel) == Steps(n)
  {
    WalkFirstEnd(start, start, 0, dirs, net, end, fuel);
    if n <= fuel && Position(start, dirs, net, n).Some? && end(Position(start, dirs, net, n).value) &&
      (forall k :: 0 <= k < n ==> Position(start, dirs, net, k).Some? && !end(Position(start, dirs, net, k).value)) {
      WalkFindsEnd(start, start, 0, dirs, net, end, fuel, n);
    }
  }

  /** A start that is already an end takes 0 steps. */
  lemma StartAtEnd(start: string, dirs: seq<Dir>, net: Network, end: string -> bool, fuel: nat)
    requires end(start)
    ensures PathLength(start, dirs, net, end, fuel) == Steps(0)
  {
  }

  /** More fuel never changes a walk that already ended. */
  lemma {:induction false} WalkMoreFuel(pos: string, i: nat, dirs: seq<Dir>, net: Network, end: string -> bool, fuel: nat, more: nat)
    requires dirs != [] && WalkFrom(pos, i, dirs, net, end, fuel) != Unfinished
    ensures WalkFrom(pos, i, dirs, net, end, fuel + more) == WalkFrom(pos, i, dirs, net, end, fuel)
    decreases fuel
  {
    if !end(pos) && pos in net.nodes {
      WalkMoreFuel(Next(net.nodes[pos], dirs[i % |dirs|]), i + 1, dirs, net, end, fuel - 1, more);
    }
  }

  /** `/^ZZZ$/`. */
  predicate IsZZZ(s: string)
  {
    s == "ZZZ"
  }

  /** `/^..Z$/`: three characters, the last a 'Z'. */
  predicate EndsZ(s: string)
  {
    |s| == 3 && s[2] == 'Z'
  }

  predicate EndsA(s: string)
  {
    |s| > 0 && s[|s| - 1] == 'A'
  }

  /** Part 1: the steps from AAA to ZZZ. With directions, a count n means
      the walk stands on ZZZ after n steps and nowhere on ZZZ before; with
      none the loop never runs. */
  function Part1(dirs: seq<Dir>, net: Network, fuel: nat): (w: Walk)
    ensures dirs == [] ==> w == Steps(0)
    ensures dirs != [] && w.Steps? ==>
      Position("AAA", dirs, net, w.steps) == Some("ZZZ") &&
      forall k :: 0 <= k < w.steps ==> Position("AAA", dirs, net, k).Some? && Position("AAA", dirs, net, k) != Some("ZZZ")
  {
    var w := PathLength("AAA", dirs, net, IsZZZ, fuel);
    if dirs == [] then w
    else
      PathLengthIsFirstEnd("AAA", dirs, net, IsZZZ, fuel, if w.Steps? then w.steps else 0);
      w
  }

  /** The TypeError `inp.map[pos][LR]` raises at a name the network does
      not define. */
  const NoNode := "TypeError: no node of that name"

  /** The index of the first start whose walk does not finish, or the
      number of starts when every walk finishes. */
  function FirstStop(starts: seq<string>, dirs: seq<Dir>, net: Network, fuel: nat): (k: nat)
    ensures k <= |starts|
    ensures forall j :: 0 <= j < k ==> PathLength(starts[j], dirs, net, EndsZ, fuel).Steps?
    ensures k < |starts| ==> !PathLength(starts[k], dirs, net, EndsZ, fuel).Steps?
  {
    if starts == [] then 0
    else if !PathLength(starts[0], dirs, net, EndsZ, fuel).Steps? then 0
    else
      assert forall j :: 0 <= j < |starts| - 1 ==> starts[1..][j] == starts[j + 1];
      1 + FirstStop(starts[1..], dirs, net, fuel)
  }

  /** `pos.map(pathLength)`: the walk lengths from each start, in order.
      The first walk that does not finish decides: one that steps from an
      undefined name raises the TypeError, and one that runs out of steps
      leaves no answer. */
  function Lengths(starts: seq<string>, dirs: seq<Dir>, net: Network, fuel: nat): (r: Option<Result<seq<nat>>>)
    ensures FirstStop(starts, dirs, net, fuel) == |starts| ==>
      r.Some? && r.value.Ok? && |r.value.value| == |starts| &&
      forall i :: 0 <= i < |starts| ==> PathLength(starts[i], dirs, net, EndsZ, fuel) == Steps(r.value.value[i])
    ensures var k := FirstStop(starts, dirs, net, fuel);
      k < |starts| && PathLength(starts[k], dirs, net, EndsZ, fuel).Missing? ==> r == Some(Err(NoNode))
    ensures var k := FirstStop(starts, dirs, net, fuel);
      k < |starts| && PathLength(starts[k], dirs, net, EndsZ, fuel).Unfinished? ==> r.None?
  {
    if starts == [] then Some(Ok([]))
    else
      var w := PathLength(starts[0], dirs, net, EndsZ, fuel);
      assert forall j :: 0 <= j < |starts| - 1 ==> starts[1..][j] == starts[j + 1];
      if w.Missing? then Some(Err(NoNode))
      else if w.Unfinished? then None
      else
        match Lengths(starts[1..], dirs, net, fuel)
        case None => None
        case Some(Err(e)) => Some(Err(e))
        case Some(Ok(rest)) => Some(Ok([w.steps] + rest))
  }

  /** The lengths of part 2's walks are, one for one, the step counts of
      the walks from the names ending in 'A'; with directions each is
      positive. */
  lemma StartsLengths(dirs: seq<Dir>, net: Network, fuel: nat, lens: seq<nat>)
    requires Lengths(Filter(net.names, EndsA), dirs, net, fuel) == Some(Ok(lens))
    ensures dirs != [] ==> forall i :: 0 <= i < |lens| ==> lens[i] > 0
    ensures forall s :: s in net.names && EndsA(s) ==>
      PathLength(s, dirs, net, EndsZ, fuel).Steps? && exists i :: 0 <= i < |lens| && lens[i] == PathLength(s, dirs, net, EndsZ, fuel).steps
    ensures forall i :: 0 <= i < |lens| ==>
      exists s :: s in net.names && EndsA(s) && PathLength(s, dirs, net, EndsZ, fuel) == Steps(lens[i])
  {
    var starts := Filter(net.names, EndsA);
    forall s | s in net.names && EndsA(s)
      ensures PathLength(s, dirs, net, EndsZ, fuel).Steps? && exists i :: 0 <= i < |lens| && lens[i] == PathLength(s, dirs, net, EndsZ, fuel).steps
    {
      assert s in starts;
      var i :| 0 <= i < |starts| && starts[i] == s;
      assert PathLength(starts[i], dirs, net, EndsZ, fuel) == Steps(lens[i]);
    }
    forall i | 0 <= i < |lens|
      ensures exists s :: s in net.names && EndsA(s) && PathLength(s, dirs, net, EndsZ, fuel) == Steps(lens[i])
    {
      assert starts[i] in starts;
      assert PathLength(starts[i], dirs, net, EndsZ, fuel) == Steps(lens[i]);
    }
    if dirs != [] {
      forall i | 0 <= i < |lens|
        ensures lens[i] > 0
      {
        assert starts[i] in starts;
        StartsAreNotEnds(starts[i], dirs, net, fuel);
      }
    }
  }

  /** m is a multiple of the length of every walk from a name ending in
      'A', and every such walk finishes. */
  ghost predicate CommonMultiple(dirs: seq<Dir>, net: Network, fuel: nat, m: int)
  {
    forall s :: s in net.names && EndsA(s) ==>
      PathLength(s, dirs, net, EndsZ, fuel).Steps? && Utils.Divides(PathLength(s, dirs, net, EndsZ, fuel).steps, m)
  }

  /** With directions, the lcm of part 2's lengths is positive, a multiple
      of every walk's length, and a divisor of their common multiples.
      Without directions every length is 0, so the lcm is NaN exactly when
      there are two or more of them. */
  lemma LcmOfWalks(dirs: seq<Dir>, net: Network, fuel: nat, lens: seq<nat>)
    requires Lengths(Filter(net.names, EndsA), dirs, net, fuel) == Some(Ok(lens))
    ensures dirs != [] ==> Utils.Lcm(lens).Some? && Utils.Lcm(lens).value > 0
    ensures dirs != [] ==> CommonMultiple(dirs, net, fuel, Utils.Lcm(lens).value)
    ensures dirs != [] ==> forall m ::
      CommonMultiple(dirs, net, fuel, m) ==>
      Utils.Divides(Utils.Lcm(lens).value, m)
    ensures dirs == [] ==> (Utils.Lcm(lens).None? <==> |lens| >= 2)
  {
    StartsLengths(dirs, net, fuel, lens);
    if dirs == [] {
      var starts := Filter(net.names, EndsA);
      assert forall i :: 0 <= i < |lens| ==> lens[i] == 0 by {
        forall i | 0 <= i < |lens|
          ensures lens[i] == 0
        {
          assert PathLength(starts[i], dirs, net, EndsZ, fuel) == Steps(lens[i]);
        }
      }
      if |lens| >= 2 {
        assert lens[0] == 0 && lens[1] == 0;
      }
    } else {
      var l := Utils.Lcm(lens).value;
      forall s | s in net.names && EndsA(s)
        ensures Utils.Divides(PathLength(s, dirs, net, EndsZ, fuel).steps, l)
      {
        var i :| 0 <= i < |lens| && lens[i] == PathLength(s, dirs, net, EndsZ, fuel).steps;
      }
      forall m | CommonMultiple(dirs, net, fuel, m)
        ensures Utils.Divides(l, m)
      {
        forall i | 0 <= i < |lens|
          ensures Utils.Divides(lens[i], m)
        {
          var s :| s in net.names && EndsA(s) && PathLength(s, dirs, net, EndsZ, fuel) == Steps(lens[i]);
        }
      }
    }
  }

  /** Part 2: every node whose name ends in 'A' walks until a name of the
      form ..Z, and the answer is the lcm of the first-arrival lengths. The
      first walk, in `Object.keys` order, that does not finish decides
      otherwise: a step from an undefined name raises the TypeError, and a
      walk that runs out of steps leaves no answer. With directions, when
      every walk finishes the answer is their least common multiple: a
      positive multiple of every walk's length that divides each of their
      common multiples. Without directions every length is 0, and with two
      or more starts the lcm is NaN, written `Some(Ok(None))`. */
  function Part2(dirs: seq<Dir>, net: Network, fuel: nat): (r: Option<Result<Option<int>>>)
    ensures var starts := Filter(net.names, EndsA);
      var k := FirstStop(starts, dirs, net, fuel);
      (r.None? <==> k < |starts| && PathLength(starts[k], dirs, net, EndsZ, fuel).Unfinished?) &&
      (k < |starts| && PathLength(starts[k], dirs, net, EndsZ, fuel).Missing? ==> r == Some(Err(NoNode)))
    ensures dirs != [] ==>
      ((r.Some? && r.value.Ok?) <==> forall s :: s in net.names && EndsA(s) ==> PathLength(s, dirs, net, EndsZ, fuel).Steps?)
    ensures r.Some? && r.value.Ok? && dirs != [] ==> r.value.value.Some? && r.value.value.value > 0
    ensures r.Some? && r.value.Ok? && dirs != [] ==> CommonMultiple(dirs, net, fuel, r.value.value.value)
    ensures r.Some? && r.value.Ok? && dirs != [] ==> forall m ::
      CommonMultiple(dirs, net, fuel, m) ==>
      Utils.Divides(r.value.value.value, m)
    ensures dirs == [] ==>
      r.Some? && r.value.Ok? && (r.value.value.None? <==> |Filter(net.names, EndsA)| >= 2)
  {
    var starts := Filter(net.names, EndsA);
    var k := FirstStop(starts, dirs, net, fuel);
    if k < |starts| then
      assert starts[k] in starts;
      if PathLength(starts[k], dirs, net, EndsZ, fuel).Missing? then Some(Err(NoNode)) else None
    else
      var lens := Lengths(starts, dirs, net, fuel).value.value;
      StartsLengths(dirs, net, fuel, lens);
      LcmOfWalks(dirs, net, fuel, lens);
      Some(Ok(Utils.Lcm(lens)))
  }

  /** A name ending in 'A' is never a ..Z end, so with directions every
      walk of part 2 that ends takes at least one step. */
  lemma StartsAreNotEnds(s: string, dirs: seq<Dir>, net: Network, fuel: nat)
    requires EndsA(s) && dirs != []
    ensures PathLength(s, dirs, net, EndsZ, fuel).Steps? ==> PathLength(s, dirs, net, EndsZ, fuel).steps > 0
  {
    assert !EndsZ(s);
  }

  /** With no directions, the two starts AAA and BBA both have length 0,
      and `lcm(0, 0)` is NaN. */
  lemma NoDirectionsNaN()
    ensures Part2([], Network(["AAA", "BBA"], map[]), 5) == Some(Ok(None))
  {
    var net := Network(["AAA", "BBA"], map[]);
    assert EndsA("AAA") && EndsA("BBA");
    assert |Filter(net.names, EndsA)| >= 2 by {
      assert "AAA" in Filter(net.names, EndsA) && "BBA" in Filter(net.names, EndsA);
      assert "AAA" != "BBA";
    }
  }
}
