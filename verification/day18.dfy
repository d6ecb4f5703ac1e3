/** Day 18 (day18.ts): a dig plan of straight trenches forms a closed loop;
    the lagoon's size is the shoelace area of the loop plus the trench
    cells on its boundary (Pick's theorem). */
module Day18 {
  import opened Outcomes

  /** One instruction: a direction letter, a length and the colour field
      that part 2 decodes. */
  datatype Instr = Instr(dir: string, len: int, color: string)

  type Point = (int, int)

  /** `cardinal`: the unit step of each direction letter; any other string
      has none. */
  function Cardinal(dir: string): Option<Point>
  {
    if dir == "U" then Some((0, -1))
    else if dir == "R" then Some((1, 0))
    else if dir == "D" then Some((0, 1))
    else if dir == "L" then Some((-1, 0))
    else None
  }

  predicate Letter(dir: string)
  {
    dir == "U" || dir == "R" || dir == "D" || dir == "L"
  }

  /** Only the four letters have a step, and each step is one cell along
      one axis. */
  lemma CardinalUnit(dir: string)
    ensures Cardinal(dir).Some? <==> Letter(dir)
    ensures Cardinal(dir).Some? ==>
      var (dx, dy) := Cardinal(dir).value; dx * dx + dy * dy == 1
  {
  }

  /** A lookup of a missing direction destructures `undefined`. */
  const NoDirection := "TypeError: undefined is not iterable"

  /** The corners of the first `k` legs, starting at the origin: `k + 1`
      points, or an error at the first leg with no direction. */
  function Corners(inp: seq<Instr>, k: nat): (r: Result<seq<Point>>)
    requires k <= |inp|
    ensures r.Ok? ==> |r.value| == k + 1 && r.value[0] == (0, 0)
    ensures r.Ok? <==> forall i :: 0 <= i < k ==> Letter(inp[i].dir)
    ensures r.Err? ==> r.msg == NoDirection
  {
    if k == 0 then Ok([(0, 0)])
    else
      var ps :- Corners(inp, k - 1);
      var step := Cardinal(inp[k - 1].dir);
      if step.None? then Err(NoDirection)
      else
        var (x, y) := ps[|ps| - 1];
        var len := inp[k - 1].len;
        Ok(ps + [(x + step.value.0 * len, y + step.value.1 * len)])
  }

  /** The trench length of the first `k` legs. */
  function Lengths(inp: seq<Instr>, k: nat): int
    requires k <= |inp|
  {
    if k == 0 then 0 else Lengths(inp, k - 1) + inp[k - 1].len
  }

  /** The source's shoelace accumulation over consecutive corners:
      (y_i + y_{i+1}) * (x_i - x_{i+1}). */
  function Trapezoids(ps: seq<Point>): int
  {
    if |ps| < 2 then 0
    else
      Trapezoids(ps[..|ps| - 1]) + (ps[|ps| - 2].1 + ps[|ps| - 1].1) * (ps[|ps| - 2].0 - ps[|ps| - 1].0)
  }

  /** The textbook shoelace sum x_i * y_{i+1} - x_{i+1} * y_i. */
  function Cross(ps: seq<Point>): int
  {
    if |ps| < 2 then 0
    else
      Cross(ps[..|ps| - 1]) + (ps[|ps| - 2].0 * ps[|ps| - 1].1 - ps[|ps| - 1].0 * ps[|ps| - 2].1)
  }

  /** The two sums differ by the telescoping x_0 * y_0 - x_n * y_n, so on a
      closed loop the source's sum is twice the signed area. */
  lemma {:induction false} TrapezoidsCross(ps: seq<Point>)
    requires |ps| > 0
    ensures Trapezoids(ps) == Cross(ps) + ps[0].0 * ps[0].1 - ps[|ps| - 1].0 * ps[|ps| - 1].1
  {
    if |ps| >= 2 {
      var init := ps[..|ps| - 1];
      TrapezoidsCross(init);
      assert init[0] == ps[0] && init[|init| - 1] == ps[|ps| - 2];
      var a, b := ps[|ps| - 2], ps[|ps| - 1];
      assert (a.1 + b.1) * (a.0 - b.0) == (a.0 * b.1 - b.0 * a.1) + a.0 * a.1 - b.0 * b.1 by {
        Expand(a.0, a.1, b.0, b.1);
      }
    }
  }

  lemma Expand(ax: int, ay: int, bx: int, bz: int)
    ensures (ay + bz) * (ax - bx) == (ax * bz - bx * ay) + ax * ay - bx * bz
  {
  }

  /** `area` as written: walk the first n - 1 legs, close back to the
      origin with the term y * x, add the closing leg as x + y, and apply
      Pick's theorem with no absolute value. */
  function Area(inp: seq<Instr>): (r: Result<real>)
    ensures r.Ok? <==> forall i :: 0 <= i < |inp| - 1 ==> Letter(inp[i].dir)
  {
    var times := if |inp| == 0 then 0 else |inp| - 1;
    var ps :- Corners(inp, times);
    var (x, y) := ps[|ps| - 1];
    var perim := Lengths(inp, times) + x + y;
    var tot := Trapezoids(ps) + y * x;
    Ok(tot as real / 2.0 + 1.0 - perim as real / 2.0 + perim as real)
  }

  /** `area` as a loop, the way the source computes it. */
  method AreaLoop(inp: seq<Instr>) returns (r: Result<real>)
    ensures r == Area(inp)
  {
    var tot := 0;
    var times := if |inp| == 0 then 0 else |inp| - 1;
    var x, y, prevX, prevY, perim := 0, 0, 0, 0, 0;
    var i := 0;
    while i < times
      invariant 0 <= i <= times
      invariant Corners(inp, i).Ok?
      invariant Corners(inp, i).value[i] == (x, y) && (prevX, prevY) == (x, y)
      invariant perim == Lengths(inp, i)
      invariant tot == Trapezoids(Corners(inp, i).value)
    {
      var step := Cardinal(inp[i].dir);
      if step.None? {
        assert Corners(inp, i + 1).Err?;
        NoCornersAfter(inp, i + 1, times);
        return Err(NoDirection);
      }
      var (dx, dy) := step.value;
      ghost var ps := Corners(inp, i).value;
      perim := perim + inp[i].len;
      x := x + dx * inp[i].len;
      y := y + dy * inp[i].len;
      tot := tot + (prevY + y) * (prevX - x);
      prevX := x;
      prevY := y;
      assert Corners(inp, i + 1).value == ps + [(x, y)];
      assert (ps + [(x, y)])[..|ps|] == ps;
      i := i + 1;
    }
    perim := perim + x + y;
    tot := tot + y * x;
    r := Ok(tot as real / 2.0 + 1.0 - perim as real / 2.0 + perim as real);
  }

  /** Once a leg has no direction, so do all longer walks. */
  lemma {:induction false} NoCornersAfter(inp: seq<Instr>, k: nat, n: nat)
    requires k <= n <= |inp| && Corners(inp, k).Err?
    ensures Corners(inp, n).Err?
    decreases n - k
  {
    if k < n {
      NoCornersAfter(inp, k + 1, n);
    }
  }

  /** Part 1: the plan as given. */
  function Part1(inp: seq<Instr>): (r: Result<real>)
    ensures r.Ok? <==> forall i :: 0 <= i < |inp| - 1 ==> Letter(inp[i].dir)
    ensures r.Ok? ==> var times := if |inp| == 0 then 0 else |inp| - 1;
      var ps := Corners(inp, times).value;
      var last := ps[|ps| - 1];
      r.value == Cross(ps + [(0, 0)]) as real / 2.0 + 1.0 + (Lengths(inp, times) + last.0 + last.1) as real / 2.0
  {
    if Area(inp).Ok? then AreaIsShoelace(inp); Area(inp) else Area(inp)
  }

  /** `DIR`: the last colour digit names the direction; any other character
      looks up `undefined`, which names no direction. */
  function DigitDir(c: char): string
  {
    if c == '0' then "R" else if c == '1' then "D" else if c == '2' then "L"
    else if c == '3' then "U" else "undefined"
  }

  predicate IsHex(c: char)
  {
    '0' <= c <= '9' || 'a' <= c <= 'f' || 'A' <= c <= 'F'
  }

  function HexDigit(c: char): nat
    requires IsHex(c)
  {
    if '0' <= c <= '9' then c as nat - '0' as nat
    else if 'a' <= c <= 'f' then c as nat - 'a' as nat + 10
    else c as nat - 'A' as nat + 10
  }

  /** `parseInt(s, 16)` on a string of hex digits. */
  function HexValue(s: string): (v: nat)
    requires forall i :: 0 <= i < |s| ==> IsHex(s[i])
    ensures v < Pow16(|s|)
  {
    if s == [] then 0
    else HexValue(s[..|s| - 1]) * 16 + HexDigit(s[|s| - 1])
  }

  function Pow16(k: nat): (p: nat)
    ensures p > 0
  {
    if k == 0 then 1 else 16 * Pow16(k - 1)
  }

  /** A colour part 2 can read: six characters, the first five hex digits. */
  predicate Color(c: string)
  {
    |c| >= 6 && forall i :: 0 <= i < 5 ==> IsHex(c[i])
  }

  /** Part 2's reading of one instruction's colour. */
  function Decode(i: Instr): Instr
    requires Color(i.color)
  {
    Instr(DigitDir(i.color[5]), HexValue(i.color[..5]), "")
  }

  /** Part 2: the plan hidden in the colours. */
  function Part2(inp: seq<Instr>): (r: Result<real>)
    requires forall i :: 0 <= i < |inp| ==> Color(inp[i].color)
    ensures r.Ok? <==> forall i :: 0 <= i < |inp| - 1 ==> Letter(Decode(inp[i]).dir)
  {
    var plan := seq(|inp|, i requires 0 <= i < |inp| => Decode(inp[i]));
    assert forall i :: 0 <= i < |inp| ==> plan[i] == Decode(inp[i]);
    Area(plan)
  }

  /** Part 2 on colours written by `Encode` measures the plan they encode. */
  lemma Part2Encoded(plan: seq<Instr>)
    requires forall i :: 0 <= i < |plan| ==> Letter(plan[i].dir) && 0 <= plan[i].len < Pow16(5)
    ensures Part2(seq(|plan|, i requires 0 <= i < |plan| => Encode(plan[i].dir, plan[i].len))) ==
      Area(seq(|plan|, i requires 0 <= i < |plan| => Instr(plan[i].dir, plan[i].len, "")))
  {
    var enc := seq(|plan|, i requires 0 <= i < |plan| => Encode(plan[i].dir, plan[i].len));
    forall i | 0 <= i < |plan|
      ensures Decode(enc[i]) == Instr(plan[i].dir, plan[i].len, "")
    {
      DecodeEncode(plan[i].dir, plan[i].len);
    }
    assert seq(|enc|, i requires 0 <= i < |enc| => Decode(enc[i])) ==
      seq(|plan|, i requires 0 <= i < |plan| => Instr(plan[i].dir, plan[i].len, ""));
  }

  /** The lower-case hex digit of a value below 16. */
  function HexChar(d: nat): (c: char)
    requires d < 16
    ensures IsHex(c) && HexDigit(c) == d
  {
    if d < 10 then ('0' as nat + d) as char else ('a' as nat + d - 10) as char
  }

  /** `n` written in `k` lower-case hex digits. */
  function HexString(n: nat, k: nat): (s: string)
    ensures |s| == k && forall i :: 0 <= i < k ==> IsHex(s[i])
  {
    if k == 0 then [] else HexString(n / 16, k - 1) + [HexChar(n % 16)]
  }

  /** Reading back `k` hex digits recovers any value below 16^k. */
  lemma {:induction false} HexRoundTrip(n: nat, k: nat)
    requires n < Pow16(k)
    ensures HexValue(HexString(n, k)) == n
  {
    if k > 0 {
      var s := HexString(n, k);
      assert s[..|s| - 1] == HexString(n / 16, k - 1);
      HexRoundTrip(n / 16, k - 1);
    }
  }

  /** The colour that encodes a leg: five hex digits of length, then the
      digit of the direction. */
  function Encode(dir: string, len: nat): (i: Instr)
    requires Letter(dir) && len < Pow16(5)
    ensures Color(i.color)
  {
    var d := if dir == "R" then '0' else if dir == "D" then '1' else if dir == "L" then '2' else '3';
    Instr(dir, len, HexString(len, 5) + [d])
  }

  /** Decoding an encoded leg gives back its direction and length. */
  lemma DecodeEncode(dir: string, len: nat)
    requires Letter(dir) && len < Pow16(5)
    ensures Decode(Encode(dir, len)) == Instr(dir, len, "")
  {
    var c := Encode(dir, len).color;
    assert c[..5] == HexString(len, 5);
    HexRoundTrip(len, 5);
  }

  /** On a plan that loops, `area` is the textbook shoelace area of the
      closed loop plus half the trench length plus one, with the closing
      leg counted as x + y. */
  lemma AreaIsShoelace(inp: seq<Instr>)
    requires Area(inp).Ok?
    ensures var times := if |inp| == 0 then 0 else |inp| - 1;
      var ps := Corners(inp, times).value;
      var last := ps[|ps| - 1];
      Area(inp).value ==
        Cross(ps + [(0, 0)]) as real / 2.0 + 1.0 + (Lengths(inp, times) + last.0 + last.1) as real / 2.0
  {
    var times := if |inp| == 0 then 0 else |inp| - 1;
    var ps := Corners(inp, times).value;
    var closed := ps + [(0, 0)];
    assert closed[..|closed| - 1] == ps;
    TrapezoidsCross(closed);
  }

  function Abs(v: int): nat
  {
    if v < 0 then -v else v
  }

  /** `area` with the evident intent: the closing leg is |x| + |y| long and
      the shoelace area is taken without its sign, so neither the last
      leg's direction nor the loop's orientation matters. */
  function AreaFixed(inp: seq<Instr>): (r: Result<real>)
    ensures r.Ok? <==> Area(inp).Ok?
  {
    var times := if |inp| == 0 then 0 else |inp| - 1;
    var ps :- Corners(inp, times);
    var (x, y) := ps[|ps| - 1];
    var perim := Lengths(inp, times) + Abs(x) + Abs(y);
    var tot := Abs(Trapezoids(ps) + y * x);
    Ok(tot as real / 2.0 + 1.0 - perim as real / 2.0 + perim as real)
  }

  /** The two agree on a clockwise loop whose last corner before the origin
      has no negative coordinate, as when the last leg runs left or up. */
  lemma AreaFixedAgrees(inp: seq<Instr>)
    requires Area(inp).Ok?
    requires var times := if |inp| == 0 then 0 else |inp| - 1;
      var ps := Corners(inp, times).value;
      var (x, y) := ps[|ps| - 1];
      x >= 0 && y >= 0 && Trapezoids(ps) + y * x >= 0
    ensures AreaFixed(inp) == Area(inp)
  {
  }

  /** The legs of a rectangle: the first runs `a` long, the second turns
      a right angle either way and runs `b` long, and the third runs back
      along the first; the fourth, never read, closes the loop. */
  predicate Rectangle(p: seq<Instr>, a: nat, b: nat)
  {
    |p| == 4 && Letter(p[0].dir) && Letter(p[1].dir) && Letter(p[2].dir) &&
    p[0].len == a && p[1].len == b && p[2].len == a &&
    var s0, s1, s2 := Cardinal(p[0].dir).value, Cardinal(p[1].dir).value, Cardinal(p[2].dir).value;
    s0.0 * s1.0 + s0.1 * s1.1 == 0 && s2 == (-s0.0, -s0.1)
  }

  /** Each leg adds the corner one leg further on. */
  lemma CornersStep(inp: seq<Instr>, k: nat)
    requires k < |inp| && Corners(inp, k + 1).Ok?
    ensures var ps := Corners(inp, k).value;
      var st := Cardinal(inp[k].dir).value;
      Corners(inp, k + 1).value == ps + [(ps[k].0 + st.0 * inp[k].len, ps[k].1 + st.1 * inp[k].len)]
  {
  }

  /** Every way to dig an a by b rectangle, from any corner, in either
      orientation, gives the (a + 1) * (b + 1) cells it covers. */
  lemma RectFixed(p: seq<Instr>, a: nat, b: nat)
    requires Rectangle(p, a, b)
    ensures AreaFixed(p) == Ok(((a + 1) * (b + 1)) as real)
  {
    var s0, s1 := Cardinal(p[0].dir).value, Cardinal(p[1].dir).value;
    var pa := (s0.0 * a, s0.1 * a);
    var pb := (s1.0 * b, s1.1 * b);
    var ps := RectCorners(p, a, b);
    var t := Trapezoids(ps) + pb.1 * pb.0;
    assert Abs(t) == 2 * (a * b) && Abs(pb.0) + Abs(pb.1) == b by {
      CardinalUnit(p[0].dir);
      CardinalUnit(p[1].dir);
      UnitCross(s0, s1, a, b);
      RectTrapezoids(pa, pb);
    }
    assert Lengths(p, 1) == a && Lengths(p, 2) == a + b && Lengths(p, 3) == a + b + a;
    assert AreaFixed(p) == Ok(Abs(t) as real / 2.0 + 1.0 - (a + b + a + b) as real / 2.0 + (a + b + a + b) as real);
    RectCount(a, b);
  }

  /** The corners of a rectangle plan. */
  lemma RectCorners(p: seq<Instr>, a: nat, b: nat) returns (ps: seq<Point>)
    requires Rectangle(p, a, b)
    ensures var s0, s1 := Cardinal(p[0].dir).value, Cardinal(p[1].dir).value;
      var pa, pb := (s0.0 * a, s0.1 * a), (s1.0 * b, s1.1 * b);
      ps == Corners(p, 3).value && ps == [(0, 0), pa, (pa.0 + pb.0, pa.1 + pb.1), pb]
  {
    CornersStep(p, 0);
    CornersStep(p, 1);
    CornersStep(p, 2);
    ps := Corners(p, 3).value;
  }

  lemma RectCount(a: nat, b: nat)
    ensures (2 * (a * b)) as real / 2.0 + 1.0 - (a + b + a + b) as real / 2.0 + (a + b + a + b) as real ==
      ((a + 1) * (b + 1)) as real
  {
    var ab := a * b;
    assert (a + 1) * (b + 1) == ab + a + b + 1;
  }

  predicate Unit(s: Point)
  {
    s == (0, -1) || s == (1, 0) || s == (0, 1) || s == (-1, 0)
  }

  /** Two perpendicular unit steps scaled by a and b span an a by b
      rectangle, and each scaled step lies along one axis. */
  lemma UnitCross(s0: Point, s1: Point, a: nat, b: nat)
    requires Unit(s0) && Unit(s1) && s0.0 * s1.0 + s0.1 * s1.1 == 0
    ensures var pa, pb := (s0.0 * a, s0.1 * a), (s1.0 * b, s1.1 * b);
      Abs(pa.0 * pb.1 - pa.1 * pb.0) == a * b && pa.0 * pa.1 == 0 && pb.0 * pb.1 == 0 &&
      Abs(pb.0) + Abs(pb.1) == b
  {
  }

  /** The source's sum over an axis-aligned rectangle with corners 0, pa,
      pa + pb, pb, closed with y * x. */
  lemma RectTrapezoids(pa: Point, pb: Point)
    requires pa.0 * pa.1 == 0 && pb.0 * pb.1 == 0
    ensures Trapezoids([(0, 0), pa, (pa.0 + pb.0, pa.1 + pb.1), pb]) + pb.1 * pb.0 ==
      2 * (pa.0 * pb.1 - pa.1 * pb.0)
  {
    var ps := [(0, 0), pa, (pa.0 + pb.0, pa.1 + pb.1), pb];
    assert ps[..3][..2] == ps[..2] && ps[..2][..1] == ps[..1];
    assert Trapezoids(ps[..2]) == (0 + pa.1) * (0 - pa.0);
    assert Trapezoids(ps[..3]) == Trapezoids(ps[..2]) + (pa.1 + pa.1 + pb.1) * (pa.0 - (pa.0 + pb.0));
    assert Trapezoids(ps) == Trapezoids(ps[..3]) + (pa.1 + pb.1 + pb.1) * (pa.0 + pb.0 - pb.0);
  }

  /** A clockwise 2 by 2 square whose last leg runs down. */
  const EndsDown: seq<Instr> := [Instr("L", 2, ""), Instr("U", 2, ""), Instr("R", 2, ""), Instr("D", 2, "")]

  /** A counter-clockwise 2 by 2 square. */
  const CounterClockwise: seq<Instr> := [Instr("D", 2, ""), Instr("R", 2, ""), Instr("U", 2, ""), Instr("L", 2, "")]

  /** Counting the closing leg as x + y loses it when it runs down: the 3 by
      3 lagoon of `EndsDown` comes out as 7. */
  lemma EndsDownCounterexample()
    ensures Area(EndsDown) == Ok(7.0)
    ensures AreaFixed(EndsDown) == Ok(9.0)
  {
    var ps := Corners(EndsDown, 3).value;
    assert ps == [(0, 0), (-2, 0), (-2, -2), (0, -2)];
    assert Trapezoids(ps) == 8;
  }

  /** Without the absolute value a counter-clockwise loop has negative
      area: the 3 by 3 lagoon of `CounterClockwise` comes out as 1. */
  lemma CounterClockwiseCounterexample()
    ensures Area(CounterClockwise) == Ok(1.0)
    ensures AreaFixed(CounterClockwise) == Ok(9.0)
  {
    var ps := Corners(CounterClockwise, 3).value;
    assert ps == [(0, 0), (0, 2), (2, 2), (2, 0)];
    assert Trapezoids(ps) == -8;
  }
}
