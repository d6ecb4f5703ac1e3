/** Day 19 (day19.ts): parts carry four ratings and are routed through named
    workflows of comparison rules until they reach `A` (accepted) or `R`
    (rejected). Part 1 routes each given part; part 2 routes whole boxes of
    ratings, splitting a box at every comparison, and counts the accepted
    rating combinations. */
module Day19 {
  import opened Outcomes

  /** The four rating categories `x`, `m`, `a` and `s`. */
  datatype Category = Cool | Musical | Aerodynamic | Shiny

  datatype Part = Part(x: int, m: int, a: int, s: int)

  function Rating(p: Part, c: Category): int
  {
    match c
    case Cool => p.x
    case Musical => p.m
    case Aerodynamic => p.a
    case Shiny => p.s
  }

  /** A rule of a workflow: a comparison of one rating with a number that
      sends the part to `dest` when it holds, or a plain jump (the rule
      without an operator). */
  datatype Rule =
    | Less(cat: Category, num: int, dest: string)
    | More(cat: Category, num: int, dest: string)
    | Jump(dest: string)

  type Workflows = map<string, seq<Rule>>

  /** The errors thrown when a named workflow does not exist: iterating
      `undefined` in part 1 and in part 2. */
  const RuleNotIterable := "TypeError: rule is not iterable"
  const WorkflowNotIterable := "TypeError: inp.workflows[state.wf] is not iterable"

  predicate Terminal(wf: string)
  {
    wf == "A" || wf == "R"
  }

  /** Whether a rule fires for a part; a jump always does. */
  predicate Holds(r: Rule, p: Part)
  {
    match r
    case Less(c, n, _) => Rating(p, c) < n
    case More(c, n, _) => Rating(p, c) > n
    case Jump(_) => true
  }

  /** A workflow as the puzzle writes them: comparisons, then one jump. */
  predicate WellFormed(rules: seq<Rule>)
  {
    && |rules| > 0
    && rules[|rules| - 1].Jump?
    && forall i :: 0 <= i < |rules| - 1 ==> !rules[i].Jump?
  }

  // ---------------------------------------------------------------------
  // Part 1: routing single parts
  // ---------------------------------------------------------------------

  /** One pass over a workflow's rules (the labelled `for` loop), starting
      from the current workflow name `wf`: a comparison that holds sends the
      part on and ends the pass; a jump changes the destination but does not
      end the pass. When nothing fires the name is unchanged. */
  function Scan(rules: seq<Rule>, p: Part, wf: string): (r: string)
    ensures r == wf || exists i :: 0 <= i < |rules| && r == rules[i].dest
    ensures (forall i :: 0 <= i < |rules| ==> !rules[i].Jump? && !Holds(rules[i], p))
            ==> r == wf
    decreases |rules|
  {
    if rules == [] then wf
    else
      var rest := Scan(rules[1..], p, if rules[0].Jump? then rules[0].dest else wf);
      assert forall i :: 0 <= i < |rules[1..]| ==> rules[1..][i] == rules[i + 1];
      if rules[0].Jump? then rest
      else if Holds(rules[0], p) then rules[0].dest
      else rest
  }

  /** Index of the first rule that fires; in a well-formed workflow the
      final jump always fires. */
  function FirstFiring(rules: seq<Rule>, p: Part): (i: nat)
    ensures i <= |rules|
    ensures forall j :: 0 <= j < i ==> !Holds(rules[j], p)
    ensures i < |rules| ==> Holds(rules[i], p)
    decreases |rules|
  {
    if rules == [] then 0
    else if Holds(rules[0], p) then 0
    else 1 + FirstFiring(rules[1..], p)
  }

  /** In a well-formed workflow the pass sends the part to the destination
      of the first rule that fires. */
  lemma {:induction false} ScanFirstFiring(rules: seq<Rule>, p: Part, wf: string)
    requires WellFormed(rules)
    ensures FirstFiring(rules, p) < |rules|
    ensures Scan(rules, p, wf) == rules[FirstFiring(rules, p)].dest
    decreases |rules|
  {
    if |rules| > 1 {
      var rest := rules[1..];
      assert rest[|rest| - 1] == rules[|rules| - 1];
      assert forall i :: 0 <= i < |rest| - 1 ==> rest[i] == rules[i + 1];
      assert !rules[0].Jump?;
      ScanFirstFiring(rest, p, wf);
    }
  }

  /** The `while` loop: follow workflows from `wf` until `A` or `R`. The
      loop need not end (a cycle of workflows, or a workflow whose pass
      fires nothing), so it runs at most `fuel` passes; `None` stands for
      the run that has not ended by then. */
  function Verdict(ws: Workflows, p: Part, wf: string, fuel: nat): (r: Result<Option<string>>)
    ensures r.Ok? && r.value.Some? ==> Terminal(r.value.value)
    ensures Terminal(wf) ==> r == Ok(Some(wf))
    ensures !Terminal(wf) && wf !in ws && fuel > 0 ==> r == Err(RuleNotIterable)
    ensures r.Err? ==> r.msg == RuleNotIterable
    decreases fuel
  {
    if Terminal(wf) then Ok(Some(wf))
    else if fuel == 0 then Ok(None)
    else if wf !in ws then Err(RuleNotIterable)
    else Verdict(ws, p, Scan(ws[wf], p, wf), fuel - 1)
  }

  /** More fuel never changes a verdict or an error that was reached. */
  lemma {:induction false} VerdictFuel(ws: Workflows, p: Part, wf: string, fuel: nat, more: nat)
    requires fuel <= more
    requires Verdict(ws, p, wf, fuel) != Ok(None)
    ensures Verdict(ws, p, wf, more) == Verdict(ws, p, wf, fuel)
    decreases fuel
  {
    if !Terminal(wf) && fuel > 0 && wf in ws {
      VerdictFuel(ws, p, Scan(ws[wf], p, wf), fuel - 1, more - 1);
    }
  }

  /** What a part adds to the part 1 total: the sum of its ratings when it
      is accepted, nothing when it is rejected. */
  function Worth(p: Part, verdict: string): int
  {
    if verdict == "A" then p.x + p.m + p.a + p.s else 0
  }

  /** `part1`: route every part from `in` and add up the accepted ones. The
      first part whose routing fails or does not end decides the result. */
  function Part1(ws: Workflows, parts: seq<Part>, fuel: nat): (r: Result<Option<int>>)
    ensures r.Ok? && r.value.Some? ==>
              forall i :: 0 <= i < |parts| ==>
                Verdict(ws, parts[i], "in", fuel).Ok? && Verdict(ws, parts[i], "in", fuel).value.Some?
    ensures "in" !in ws && parts != [] && fuel > 0 ==> r == Err(RuleNotIterable)
    decreases |parts|
  {
    if parts == [] then Ok(Some(0))
    else
      var v :- Verdict(ws, parts[0], "in", fuel);
      if v.None? then Ok(None)
      else
        var rest :- Part1(ws, parts[1..], fuel);
        if rest.None? then Ok(None)
        else
          assert forall i :: 1 <= i < |parts| ==> parts[i] == parts[1..][i - 1];
          Ok(Some(Worth(parts[0], v.value) + rest.value))
  }

  /** The total is additive over the list of parts: routing `a + b` adds the
      totals of `a` and of `b`. */
  lemma {:induction false} Part1Append(ws: Workflows, a: seq<Part>, b: seq<Part>, fuel: nat, ta: int, tb: int)
    requires Part1(ws, a, fuel) == Ok(Some(ta))
    requires Part1(ws, b, fuel) == Ok(Some(tb))
    ensures Part1(ws, a + b, fuel) == Ok(Some(ta + tb))
    decreases |a|
  {
    if a == [] {
      assert a + b == b;
    } else {
      assert (a + b)[1..] == a[1..] + b;
      assert (a + b)[0] == a[0];
      var v := Verdict(ws, a[0], "in", fuel);
      var ra := Part1(ws, a[1..], fuel);
      assert ra.Ok? && ra.value.Some?;
      Part1Append(ws, a[1..], b, fuel, ra.value.value, tb);
    }
  }

  /** A single accepted part adds the sum of its ratings; a single rejected
      part adds nothing. */
  lemma Part1Single(ws: Workflows, p: Part, fuel: nat)
    requires Verdict(ws, p, "in", fuel).Ok? && Verdict(ws, p, "in", fuel).value.Some?
    ensures Verdict(ws, p, "in", fuel).value.value == "A" ==>
              Part1(ws, [p], fuel) == Ok(Some(p.x + p.m + p.a + p.s))
    ensures Verdict(ws, p, "in", fuel).value.value == "R" ==>
              Part1(ws, [p], fuel) == Ok(Some(0))
  {
    assert [p][1..] == [];
  }

  // ---------------------------------------------------------------------
  // Part 2: routing boxes of ratings
  // ---------------------------------------------------------------------

  /** An inclusive range of one rating; `min > max` is possible. */
  datatype Range = Range(min: int, max: int)

  /** One range per category. */
  datatype Box = Box(x: Range, m: Range, a: Range, s: Range)

  function Bounds(b: Box, c: Category): Range
  {
    match c
    case Cool => b.x
    case Musical => b.m
    case Aerodynamic => b.a
    case Shiny => b.s
  }

  /** The box with the range of `c` replaced and the others unchanged. */
  function WithBounds(b: Box, c: Category, r: Range): (b': Box)
    ensures Bounds(b', c) == r
    ensures forall c' :: c' != c ==> Bounds(b', c') == Bounds(b, c')
  {
    match c
    case Cool => b.(x := r)
    case Musical => b.(m := r)
    case Aerodynamic => b.(a := r)
    case Shiny => b.(s := r)
  }

  /** Whether every rating of the part lies in the box. */
  predicate In(p: Part, b: Box)
  {
    forall c :: Bounds(b, c).min <= Rating(p, c) <= Bounds(b, c).max
  }

  /** The number of values of a range: `max - min + 1` as written, which is
      negative for a range with `min > max + 1`; with `clamped`, never below
      zero. */
  function Size(r: Range, clamped: bool): int
  {
    if clamped && r.max < r.min then 0 else r.max - r.min + 1
  }

  /** The product of the four sizes (the `reduce` over `XMAS`). */
  function Volume(b: Box, clamped: bool): int
  {
    Size(b.x, clamped) * Size(b.m, clamped) * Size(b.a, clamped) * Size(b.s, clamped)
  }

  /** A queued state: the workflow to run next and the box of ratings. */
  datatype State = State(wf: string, box: Box)

  /** What a rule pushes onto the queue: a clone of the state taken at that
      point, or the state object itself, which later rules of the same pass
      may still change. */
  datatype Push = Copy(st: State) | Alias

  datatype Cut = Cut(push: Push, rest: State)

  function Min(a: int, b: int): int { if a <= b then a else b }
  function Max(a: int, b: int): int { if a >= b then a else b }

  /** One rule applied to the state (one case of the `switch`). A
      comparison clones the state for its destination with the rating's
      range narrowed to the values that pass, and whittles the state down to
      the values that fail; a jump renames the state's workflow and pushes
      the state itself. As written the new bounds are the rule's number
      whatever the old range was; `fixed` keeps each new range inside the
      old one. */
  function CutBy(r: Rule, st: State, fixed: bool): (cut: Cut)
    ensures r.Jump? <==> cut.push.Alias?
    ensures r.Jump? ==> cut.rest == State(r.dest, st.box)
    ensures !r.Jump? ==>
              var g := Bounds(st.box, r.cat);
              var d := cut.push.st;
              && d.wf == r.dest
              && cut.rest.wf == st.wf
              && Size(Bounds(d.box, r.cat), fixed) + Size(Bounds(cut.rest.box, r.cat), fixed)
                 == Size(g, fixed)
              && (forall c :: c != r.cat ==>
                    Bounds(d.box, c) == Bounds(st.box, c) && Bounds(cut.rest.box, c) == Bounds(st.box, c))
  {
    match r
    case Jump(d) => Cut(Alias, State(d, st.box))
    case Less(c, n, d) =>
      var g := Bounds(st.box, c);
      var pass := if fixed then Range(g.min, Min(g.max, n - 1)) else Range(g.min, n - 1);
      var fail := if fixed then Range(Max(g.min, n), g.max) else Range(n, g.max);
      Cut(Copy(State(d, WithBounds(st.box, c, pass))), State(st.wf, WithBounds(st.box, c, fail)))
    case More(c, n, d) =>
      var g := Bounds(st.box, c);
      var pass := if fixed then Range(Max(g.min, n + 1), g.max) else Range(n + 1, g.max);
      var fail := if fixed then Range(g.min, Min(g.max, n)) else Range(g.min, n);
      Cut(Copy(State(d, WithBounds(st.box, c, pass))), State(st.wf, WithBounds(st.box, c, fail)))
  }

  /** Of the parts in the box, the clone keeps those the comparison holds
      for and the remainder keeps the others. */
  lemma CutParts(r: Rule, st: State, fixed: bool, p: Part)
    requires !r.Jump?
    requires In(p, st.box)
    ensures In(p, CutBy(r, st, fixed).push.st.box) <==> Holds(r, p)
    ensures In(p, CutBy(r, st, fixed).rest.box) <==> !Holds(r, p)
  {
  }

  /** A kept-inside cut leaves both boxes inside the box it cut; as written
      it need not. */
  lemma CutInside(r: Rule, st: State, p: Part)
    requires !r.Jump?
    requires In(p, CutBy(r, st, true).push.st.box) || In(p, CutBy(r, st, true).rest.box)
    ensures In(p, st.box)
  {
  }

  /** The pushes of a whole pass over `rules`, and the state left at the
      end. */
  datatype Pass = Pass(pushes: seq<Push>, last: State)

  function Process(rules: seq<Rule>, st: State, fixed: bool): (r: Pass)
    ensures |r.pushes| == |rules|
    decreases |rules|
  {
    if rules == [] then Pass([], st)
    else
      var cut := CutBy(rules[0], st, fixed);
      var rest := Process(rules[1..], cut.rest, fixed);
      Pass([cut.push] + rest.pushes, rest.last)
  }

  /** The states the queue holds once the pass is over: a clone as it was
      taken, the aliased state as it was left. */
  function Resolve(pushes: seq<Push>, last: State): (r: seq<State>)
    ensures |r| == |pushes|
    ensures forall i :: 0 <= i < |pushes| ==> r[i] == (if pushes[i].Copy? then pushes[i].st else last)
  {
    if pushes == [] then []
    else [if pushes[0].Copy? then pushes[0].st else last] + Resolve(pushes[1..], last)
  }

  function Outcome(rules: seq<Rule>, st: State, fixed: bool): seq<State>
  {
    var pass := Process(rules, st, fixed);
    Resolve(pass.pushes, pass.last)
  }

  /** Expanding a state whose workflow does not exist throws. */
  function Expand(ws: Workflows, st: State, fixed: bool): (r: Result<seq<State>>)
    ensures r.Err? <==> st.wf !in ws
    ensures r.Err? ==> r.msg == WorkflowNotIterable
    ensures r.Ok? ==> |r.value| == |ws[st.wf]|
  {
    if st.wf !in ws then Err(WorkflowNotIterable) else Ok(Outcome(ws[st.wf], st, fixed))
  }

  /** The `while` loop over the FIFO queue: an accepted state adds its
      volume, a rejected one nothing, any other is replaced at the back of
      the queue by what its workflow pushes. It runs at most `fuel`
      iterations; `None` stands for a queue not yet empty by then. */
  function Run(ws: Workflows, pending: seq<State>, tot: int, fuel: nat, fixed: bool)
    : (r: Result<Option<int>>)
    ensures pending == [] ==> r == Ok(Some(tot))
    ensures r.Err? ==> r.msg == WorkflowNotIterable
    decreases fuel
  {
    if pending == [] then Ok(Some(tot))
    else if fuel == 0 then Ok(None)
    else
      var st := pending[0];
      if st.wf == "A" then Run(ws, pending[1..], tot + Volume(st.box, fixed), fuel - 1, fixed)
      else if st.wf == "R" then Run(ws, pending[1..], tot, fuel - 1, fixed)
      else
        var next :- Expand(ws, st, fixed);
        Run(ws, pending[1..] + next, tot, fuel - 1, fixed)
  }

  /** The running total only offsets the result. */
  lemma {:induction false} RunOffset(ws: Workflows, pending: seq<State>, tot: int, fuel: nat, fixed: bool)
    ensures Run(ws, pending, tot, fuel, fixed).Ok? <==> Run(ws, pending, 0, fuel, fixed).Ok?
    ensures Run(ws, pending, tot, fuel, fixed).Err? ==>
              Run(ws, pending, tot, fuel, fixed) == Run(ws, pending, 0, fuel, fixed)
    ensures Run(ws, pending, 0, fuel, fixed) == Ok(None) <==> Run(ws, pending, tot, fuel, fixed) == Ok(None)
    ensures Run(ws, pending, 0, fuel, fixed).Ok? && Run(ws, pending, 0, fuel, fixed).value.Some? ==>
              Run(ws, pending, tot, fuel, fixed)
              == Ok(Some(tot + Run(ws, pending, 0, fuel, fixed).value.value))
    decreases fuel
  {
    if pending != [] && fuel > 0 {
      var st := pending[0];
      if st.wf == "A" {
        var v := Volume(st.box, fixed);
        RunOffset(ws, pending[1..], tot + v, fuel - 1, fixed);
        RunOffset(ws, pending[1..], v, fuel - 1, fixed);
      } else if st.wf == "R" {
        RunOffset(ws, pending[1..], tot, fuel - 1, fixed);
      } else if st.wf in ws {
        RunOffset(ws, pending[1..] + Outcome(ws[st.wf], st, fixed), tot, fuel - 1, fixed);
      }
    }
  }

  /** More fuel never changes a total or an error that was reached. */
  lemma {:induction false} RunFuel(ws: Workflows, pending: seq<State>, tot: int, fuel: nat, more: nat, fixed: bool)
    requires fuel <= more
    requires Run(ws, pending, tot, fuel, fixed) != Ok(None)
    ensures Run(ws, pending, tot, more, fixed) == Run(ws, pending, tot, fuel, fixed)
    decreases fuel
  {
    if pending != [] && fuel > 0 {
      var st := pending[0];
      if st.wf == "A" {
        RunFuel(ws, pending[1..], tot + Volume(st.box, fixed), fuel - 1, more - 1, fixed);
      } else if st.wf == "R" {
        RunFuel(ws, pending[1..], tot, fuel - 1, more - 1, fixed);
      } else if st.wf in ws {
        RunFuel(ws, pending[1..] + Outcome(ws[st.wf], st, fixed), tot, fuel - 1, more - 1, fixed);
      }
    }
  }

  /** The first state: workflow `in`, every rating from 1 to 4000. */
  const Everything := Box(Range(1, 4000), Range(1, 4000), Range(1, 4000), Range(1, 4000))
  const Start := State("in", Everything)

  /** `part2` as written. */
  function Part2(ws: Workflows, fuel: nat): (r: Result<Option<int>>)
    ensures "in" !in ws && fuel > 0 ==> r == Err(WorkflowNotIterable)
  {
    Run(ws, [Start], 0, fuel, false)
  }

  /** `part2` with every cut kept inside the range it cuts and sizes never
      below zero. */
  function Part2Fixed(ws: Workflows, fuel: nat): (r: Result<Option<int>>)
    ensures "in" !in ws && fuel > 0 ==> r == Err(WorkflowNotIterable)
  {
    Run(ws, [Start], 0, fuel, true)
  }

  // ---------------------------------------------------------------------
  // What a pass does to a box
  // ---------------------------------------------------------------------

  /** A comparison at the head of the rules pushes its clone first; the
      rest of the pass works on the whittled-down state. */
  lemma OutcomeCons(rules: seq<Rule>, st: State, fixed: bool)
    requires |rules| > 0 && !rules[0].Jump?
    ensures var cut := CutBy(rules[0], st, fixed);
            Outcome(rules, st, fixed) == [cut.push.st] + Outcome(rules[1..], cut.rest, fixed)
  {
    var cut := CutBy(rules[0], st, fixed);
    var rest := Process(rules[1..], cut.rest, fixed);
    assert ([cut.push] + rest.pushes)[1..] == rest.pushes;
  }

  /** A pass that is a single jump leaves one state: the whole box, renamed. */
  lemma OutcomeJump(rules: seq<Rule>, st: State, fixed: bool)
    requires |rules| == 1 && rules[0].Jump?
    ensures Outcome(rules, st, fixed) == [State(rules[0].dest, st.box)]
  {
    assert rules[1..] == [];
    var cut := CutBy(rules[0], st, fixed);
    assert Process(rules, st, fixed) == Pass([Alias], cut.rest);
    assert [Alias][1..] == [];
  }

  /** With kept-inside cuts every box a well-formed pass queues lies inside
      the box it started from. */
  lemma {:induction false} OutcomeInside(rules: seq<Rule>, st: State, q: Part)
    requires WellFormed(rules)
    ensures forall i :: 0 <= i < |Outcome(rules, st, true)| && In(q, Outcome(rules, st, true)[i].box)
              ==> In(q, st.box)
    decreases |rules|
  {
    if |rules| == 1 {
      OutcomeJump(rules, st, true);
    } else {
      var rest := rules[1..];
      assert rest[|rest| - 1] == rules[|rules| - 1];
      assert forall i :: 0 <= i < |rest| - 1 ==> rest[i] == rules[i + 1];
      assert !rules[0].Jump?;
      var cut := CutBy(rules[0], st, true);
      OutcomeCons(rules, st, true);
      OutcomeInside(rest, cut.rest, q);
      if In(q, cut.push.st.box) || In(q, cut.rest.box) {
        CutInside(rules[0], st, q);
      }
    }
  }

  /** With kept-inside cuts a well-formed pass sends every part of its box
      to a queued box headed for the workflow the part 1 pass sends the part
      to. */
  lemma {:induction false} PartitionCovers(rules: seq<Rule>, st: State, p: Part) returns (k: nat)
    requires WellFormed(rules)
    requires In(p, st.box)
    ensures k < |Outcome(rules, st, true)|
    ensures In(p, Outcome(rules, st, true)[k].box)
    ensures Outcome(rules, st, true)[k].wf == Scan(rules, p, st.wf)
    decreases |rules|
  {
    if |rules| == 1 {
      OutcomeJump(rules, st, true);
      assert rules[1..] == [];
      k := 0;
    } else {
      var rest := rules[1..];
      assert rest[|rest| - 1] == rules[|rules| - 1];
      assert forall i :: 0 <= i < |rest| - 1 ==> rest[i] == rules[i + 1];
      assert !rules[0].Jump?;
      var cut := CutBy(rules[0], st, true);
      OutcomeCons(rules, st, true);
      CutParts(rules[0], st, true, p);
      if Holds(rules[0], p) {
        k := 0;
      } else {
        assert Scan(rules, p, st.wf) == Scan(rest, p, st.wf);
        var j := PartitionCovers(rest, cut.rest, p);
        k := j + 1;
      }
    }
  }

  /** With kept-inside cuts no part of the box lies in two of the boxes a
      well-formed pass queues. */
  lemma {:induction false} PartitionDisjoint(rules: seq<Rule>, st: State, p: Part)
    requires WellFormed(rules)
    requires In(p, st.box)
    ensures var out := Outcome(rules, st, true);
            forall i, j :: 0 <= i < |out| && 0 <= j < |out| && In(p, out[i].box) && In(p, out[j].box)
              ==> i == j
    decreases |rules|
  {
    var out := Outcome(rules, st, true);
    if |rules| == 1 {
      OutcomeJump(rules, st, true);
    } else {
      var rest := rules[1..];
      assert rest[|rest| - 1] == rules[|rules| - 1];
      assert forall i :: 0 <= i < |rest| - 1 ==> rest[i] == rules[i + 1];
      assert !rules[0].Jump?;
      var cut := CutBy(rules[0], st, true);
      var tail := Outcome(rest, cut.rest, true);
      OutcomeCons(rules, st, true);
      CutParts(rules[0], st, true, p);
      assert forall i :: 1 <= i < |out| ==> out[i] == tail[i - 1];
      if Holds(rules[0], p) {
        assert !In(p, cut.rest.box);
        OutcomeInside(rest, cut.rest, p);
        assert forall i :: 1 <= i < |out| ==> !In(p, out[i].box);
      } else {
        assert !In(p, out[0].box);
        PartitionDisjoint(rest, cut.rest, p);
      }
    }
  }

  /** Sum of the volumes of queued states. */
  function TotalVolume(sts: seq<State>, clamped: bool): int
    decreases |sts|
  {
    if sts == [] then 0 else Volume(sts[0].box, clamped) + TotalVolume(sts[1..], clamped)
  }

  lemma Distribute(a: int, b: int, k: int)
    ensures a * k + b * k == (a + b) * k
  {
  }

  /** The product of the sizes of the three categories other than `c`. */
  function Others(b: Box, c: Category, clamped: bool): int
  {
    var x, m, a, s := Size(b.x, clamped), Size(b.m, clamped), Size(b.a, clamped), Size(b.s, clamped);
    match c
    case Cool => m * a * s
    case Musical => x * a * s
    case Aerodynamic => x * m * s
    case Shiny => x * m * a
  }

  lemma MulAssoc(a: int, b: int, c: int)
    ensures a * b * c == a * (b * c)
  {
  }

  lemma MulComm(a: int, b: int)
    ensures a * b == b * a
  {
  }

  /** The volume is the size of one category times the others. */
  lemma VolumeFactor(b: Box, c: Category, clamped: bool)
    ensures Volume(b, clamped) == Size(Bounds(b, c), clamped) * Others(b, c, clamped)
  {
    var x, m, a, s := Size(b.x, clamped), Size(b.m, clamped), Size(b.a, clamped), Size(b.s, clamped);
    match c
    case Cool =>
      MulAssoc(x, m, a);
      MulAssoc(x, m * a, s);
    case Musical =>
      MulComm(x, m);
      MulAssoc(m, x, a);
      MulAssoc(m, x * a, s);
    case Aerodynamic =>
      MulComm(x * m, a);
      MulAssoc(a, x * m, s);
    case Shiny =>
  }

  /** Replacing a category's range leaves the product of the others alone. */
  lemma OthersKept(b: Box, c: Category, r: Range, clamped: bool)
    ensures Others(WithBounds(b, c, r), c, clamped) == Others(b, c, clamped)
  {
  }

  /** Cutting one range into two whose sizes add up cuts the volume the
      same way. */
  lemma VolumeCut(b: Box, c: Category, lo: Range, hi: Range, clamped: bool)
    requires Size(lo, clamped) + Size(hi, clamped) == Size(Bounds(b, c), clamped)
    ensures Volume(WithBounds(b, c, lo), clamped) + Volume(WithBounds(b, c, hi), clamped)
            == Volume(b, clamped)
  {
    VolumeFactor(b, c, clamped);
    VolumeFactor(WithBounds(b, c, lo), c, clamped);
    VolumeFactor(WithBounds(b, c, hi), c, clamped);
    OthersKept(b, c, lo, clamped);
    OthersKept(b, c, hi, clamped);
    Distribute(Size(lo, clamped), Size(hi, clamped), Others(b, c, clamped));
  }

  /** A well-formed pass conserves volume: the queued boxes add up to the
      box it started from (sizes as written or clamped alike). */
  lemma {:induction false} VolumeConserved(rules: seq<Rule>, st: State, fixed: bool)
    requires WellFormed(rules)
    ensures TotalVolume(Outcome(rules, st, fixed), fixed) == Volume(st.box, fixed)
    decreases |rules|
  {
    if |rules| == 1 {
      OutcomeJump(rules, st, fixed);
      assert Outcome(rules, st, fixed)[1..] == [];
    } else {
      var rest := rules[1..];
      assert rest[|rest| - 1] == rules[|rules| - 1];
      assert forall i :: 0 <= i < |rest| - 1 ==> rest[i] == rules[i + 1];
      assert !rules[0].Jump?;
      var cut := CutBy(rules[0], st, fixed);
      var c := rules[0].cat;
      OutcomeCons(rules, st, fixed);
      assert ([cut.push.st] + Outcome(rest, cut.rest, fixed))[1..] == Outcome(rest, cut.rest, fixed);
      VolumeConserved(rest, cut.rest, fixed);
      assert cut.push.st.box == WithBounds(st.box, c, Bounds(cut.push.st.box, c));
      assert cut.rest.box == WithBounds(st.box, c, Bounds(cut.rest.box, c));
      VolumeCut(st.box, c, Bounds(cut.push.st.box, c), Bounds(cut.rest.box, c), fixed);
    }
  }

  /** A clamped size counts the values of the range: none when `max < min`,
      and one more for every step the maximum grows. */
  lemma SizeCounts(r: Range)
    ensures Size(r, true) >= 0
    ensures r.max < r.min ==> Size(r, true) == 0
    ensures r.min <= r.max ==> Size(Range(r.min, r.max + 1), true) == Size(r, true) + 1
  {
  }

  // ---------------------------------------------------------------------
  // A redundant comparison
  // ---------------------------------------------------------------------

  /** The workflows `in{x<100:A,x<50:A,R}`: the second comparison can never
      fire, since every part that reaches it has x >= 100. */
  predicate Redundant(ws: Workflows)
  {
    ws == map["in" := [Less(Cool, 100, "A"), Less(Cool, 50, "A"), Jump("R")]]
  }

  /** Part 1 accepts exactly the parts with x < 100. */
  lemma RedundantPart1(ws: Workflows, p: Part)
    requires Redundant(ws)
    ensures Verdict(ws, p, "in", 1) == Ok(Some(if p.x < 100 then "A" else "R"))
  {
    var rules := ws["in"];
    ScanFirstFiring(rules, p, "in");
  }

  function WithCool(r: Range): Box
  {
    Everything.(x := r)
  }

  /** The three states the pass over `in` queues, as written: the second
      cut sets the remainder's minimum back to 50. */
  lemma RedundantOutcome(ws: Workflows)
    requires Redundant(ws)
    ensures Outcome(ws["in"], Start, false)
            == [State("A", WithCool(Range(1, 99))), State("A", WithCool(Range(100, 49))),
                State("R", WithCool(Range(50, 4000)))]
  {
    var rules := ws["in"];
    var c0 := CutBy(rules[0], Start, false);
    assert c0.rest == State("in", WithCool(Range(100, 4000)));
    OutcomeCons(rules, Start, false);
    var c1 := CutBy(rules[1], c0.rest, false);
    assert c1.rest == State("in", WithCool(Range(50, 4000)));
    assert rules[1..][0] == rules[1];
    OutcomeCons(rules[1..], c0.rest, false);
    assert rules[1..][1..] == [Jump("R")];
    OutcomeJump([Jump("R")], c1.rest, false);
  }

  /** The same pass with kept-inside cuts: the second clone is empty and
      the remainder keeps x >= 100. */
  lemma RedundantOutcomeFixed(ws: Workflows)
    requires Redundant(ws)
    ensures Outcome(ws["in"], Start, true)
            == [State("A", WithCool(Range(1, 99))), State("A", WithCool(Range(100, 49))),
                State("R", WithCool(Range(100, 4000)))]
  {
    var rules := ws["in"];
    var c0 := CutBy(rules[0], Start, true);
    assert c0.rest == State("in", WithCool(Range(100, 4000)));
    OutcomeCons(rules, Start, true);
    var c1 := CutBy(rules[1], c0.rest, true);
    assert c1.rest == State("in", WithCool(Range(100, 4000)));
    assert rules[1..][0] == rules[1];
    OutcomeCons(rules[1..], c0.rest, true);
    assert rules[1..][1..] == [Jump("R")];
    OutcomeJump([Jump("R")], c1.rest, true);
  }

  /** As written, the part (60, 1, 1, 1), which part 1 accepts, lies both
      in a box queued for `A` and in the box queued for `R`, and part 2
      counts 49 * 4000^3 accepted combinations instead of 99 * 4000^3. */
  lemma RedundantCounterexample(ws: Workflows)
    requires Redundant(ws)
    ensures var out := Outcome(ws["in"], Start, false);
            && In(Part(60, 1, 1, 1), out[0].box) && out[0].wf == "A"
            && In(Part(60, 1, 1, 1), out[2].box) && out[2].wf == "R"
    ensures Part2(ws, 4) == Ok(Some(49 * 4000 * 4000 * 4000))
  {
    RedundantOutcome(ws);
    var out := Outcome(ws["in"], Start, false);
    assert Expand(ws, Start, false) == Ok(out);
    assert Run(ws, [Start], 0, 4, false) == Run(ws, out, 0, 3, false);
    assert Volume(out[0].box, false) == 99 * 4000 * 4000 * 4000;
    assert Volume(out[1].box, false) == -50 * 4000 * 4000 * 4000;
    assert Run(ws, out, 0, 3, false) == Run(ws, out[1..], 99 * 4000 * 4000 * 4000, 2, false);
    assert Run(ws, out[1..], 99 * 4000 * 4000 * 4000, 2, false)
        == Run(ws, out[2..], 49 * 4000 * 4000 * 4000, 1, false);
    assert out[2..][1..] == [];
  }

  /** With kept-inside cuts and clamped sizes the same workflows count
      99 * 4000^3 combinations: the parts with x < 100. */
  lemma RedundantFixedCount(ws: Workflows)
    requires Redundant(ws)
    ensures Part2Fixed(ws, 4) == Ok(Some(99 * 4000 * 4000 * 4000))
  {
    RedundantOutcomeFixed(ws);
    var out := Outcome(ws["in"], Start, true);
    assert Expand(ws, Start, true) == Ok(out);
    assert Run(ws, [Start], 0, 4, true) == Run(ws, out, 0, 3, true);
    assert Volume(out[0].box, true) == 99 * 4000 * 4000 * 4000;
    assert Volume(out[1].box, true) == 0;
    assert Run(ws, out, 0, 3, true) == Run(ws, out[1..], 99 * 4000 * 4000 * 4000, 2, true);
    assert Run(ws, out[1..], 99 * 4000 * 4000 * 4000, 2, true)
        == Run(ws, out[2..], 99 * 4000 * 4000 * 4000, 1, true);
    assert out[2..][1..] == [];
  }
}
