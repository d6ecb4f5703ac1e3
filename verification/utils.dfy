/** The integer helpers of utils.ts: a modulo whose result takes the sign of
    the divisor, floor division paired with it, and gcd / lcm over any number
    of arguments. JavaScript's `/` and `%` on integers truncate toward zero;
    they are written out here as Quot and Rem. */
module Utils {
  import opened Outcomes

  const DivisionByZero := "Division by zero"
  const InvalidInput := "Invalid input"

  function Abs(x: int): nat
  {
    if x < 0 then -x else x
  }

  /** The product, named so that divisibility can be stated with a
      witness. */
  function Mul(k: int, d: int): int
  {
    k * d
  }

  /** Dafny's `/` and `%` on int are Euclidean: the remainder lies in
      [0, |y|), and these are the only such quotient and remainder. */
  lemma EuclidUnique(x: int, y: int, q: int, m: int)
    requires y != 0 && x == q * y + m && 0 <= m < Abs(y)
    ensures x / y == q && x % y == m
  {
    var q', m' := x / y, x % y;
    assert x == q' * y + m' && 0 <= m' < Abs(y);
    var k := q - q';
    assert k * y == m' - m by {
      assert q * y - q' * y == (q - q') * y;
    }
    if k != 0 {
      MulAtLeast(k, y);
    }
  }

  lemma MulAtLeast(k: int, y: int)
    requires k != 0 && y != 0
    ensures Abs(k * y) >= Abs(y)
  {
    var a, b := Abs(k), Abs(y);
    assert a >= 1;
    NatProduct(a - 1, b);
    assert a * b == (a - 1) * b + b;
    assert Abs(k * y) == a * b by {
      if (k < 0) != (y < 0) {
        assert k * y + a * b == 0;
      } else {
        assert k * y == a * b;
      }
    }
  }

  lemma {:induction false} NatProduct(a: nat, b: nat)
    ensures a * b >= 0
  {
    if a > 0 {
      NatProduct(a - 1, b);
      assert a * b == (a - 1) * b + b;
    }
  }

  /** JavaScript's `x / y` on bigints: the quotient truncated toward zero. */
  function Quot(x: int, y: int): int
    requires y != 0
  {
    if x < 0 && x % y != 0 then x / y + (if y > 0 then 1 else -1) else x / y
  }

  /** JavaScript's `x % y`: what is left after the truncated quotient, which
      carries the sign of x and is smaller than y in magnitude. */
  function Rem(x: int, y: int): (r: int)
    requires y != 0
    ensures x == Quot(x, y) * y + r
    ensures Abs(r) < Abs(y)
    ensures x >= 0 ==> r >= 0
    ensures x <= 0 ==> r <= 0
  {
    RemFacts(x, y);
    if x < 0 && x % y != 0 then x % y - Abs(y) else x % y
  }

  lemma RemFacts(x: int, y: int)
    requires y != 0
    ensures var r := if x < 0 && x % y != 0 then x % y - Abs(y) else x % y;
      x == Quot(x, y) * y + r && Abs(r) < Abs(y) && (x >= 0 ==> r >= 0) && (x <= 0 ==> r <= 0)
  {
    assert x == (x / y) * y + x % y;
    if x < 0 && x % y != 0 {
      assert Quot(x, y) * y == (x / y) * y + (if y > 0 then y else -y);
    } else if x < 0 {
      assert x % y == 0;
    }
  }

  /** Truncated division is the JavaScript one: with the remainder's sign
      taken from x and its magnitude below |y|, quotient and remainder are
      forced. */
  lemma QuotRemUnique(x: int, y: int, q: int, r: int)
    requires y != 0 && x == q * y + r && Abs(r) < Abs(y)
    requires x >= 0 ==> r >= 0
    requires x <= 0 ==> r <= 0
    ensures Quot(x, y) == q && Rem(x, y) == r
  {
    if r >= 0 {
      EuclidUnique(x, y, q, r);
    } else {
      var q' := q + (if y > 0 then -1 else 1);
      assert x == q' * y + (r + Abs(y)) by {
        assert q' * y == q * y - Abs(y);
      }
      EuclidUnique(x, y, q', r + Abs(y));
    }
  }

  /** `d` divides `n`: `n` is an integer multiple of `d`. */
  ghost predicate Divides(d: int, n: int)
  {
    exists k :: Mul(k, d) == n
  }

  lemma DividesMultiple(d: int, k: int, n: int)
    requires n == k * d
    ensures Divides(d, n)
  {
    assert Mul(k, d) == n;
  }

  /** Divisibility passes through integer combinations. */
  lemma DividesCombination(d: int, a: int, b: int, k: int)
    requires Divides(d, a) && Divides(d, b)
    ensures Divides(d, a - k * b)
  {
    var p :| Mul(p, d) == a;
    var q :| Mul(q, d) == b;
    assert a - k * b == (p - k * q) * d by {
      assert k * b == (k * q) * d;
      assert p * d - (k * q) * d == (p - k * q) * d;
    }
    DividesMultiple(d, p - k * q, a - k * b);
  }

  lemma DividesTransitive(a: int, b: int, c: int)
    requires Divides(a, b) && Divides(b, c)
    ensures Divides(a, c)
  {
    var p :| Mul(p, a) == b;
    var q :| Mul(q, b) == c;
    assert c == (q * p) * a by {
      assert c == q * (p * a);
    }
    DividesMultiple(a, q * p, c);
  }

  /** Floor division: the largest q with q * y <= x (for y > 0), which is
      what `Math.floor(x / y)` gives on numbers. */
  function FloorDiv(x: int, y: int): int
    requires y != 0
  {
    var q := Quot(x, y);
    if Rem(x, y) != 0 && (x < 0) != (y < 0) then q - 1 else q
  }

  /** `mod(x, y)` with y non-zero: `((x % y) + y) % y`. */
  function FloorMod(x: int, y: int): (r: int)
    requires y != 0
    ensures y > 0 ==> 0 <= r < y
    ensures y < 0 ==> y < r <= 0
    ensures x == FloorDiv(x, y) * y + r
  {
    var a := Rem(x, y);
    var r := Rem(a + y, y);
    FloorModIsFloor(x, y);
    r
  }

  lemma FloorModIsFloor(x: int, y: int)
    requires y != 0
    ensures x == FloorDiv(x, y) * y + Rem(Rem(x, y) + y, y)
  {
    var a := Rem(x, y);
    var q := Quot(x, y);
    assert x == q * y + a;
    if (y > 0 && a >= 0) || (y < 0 && a <= 0) {
      QuotRemUnique(a + y, y, 1, a);
    } else {
      QuotRemUnique(a + y, y, 0, a + y);
      assert (q - 1) * y == q * y - y;
    }
  }

  /** `mod(x, y)`: throws on a zero divisor, otherwise the remainder that
      carries the sign of the divisor and leaves x minus it divisible by y. */
  function Mod(x: int, y: int): (r: Result<int>)
    ensures r.Err? <==> y == 0
    ensures r.Err? ==> r.msg == DivisionByZero
    ensures y > 0 && r.Ok? ==> 0 <= r.value < y
    ensures y < 0 && r.Ok? ==> y < r.value <= 0
    ensures r.Ok? ==> Divides(y, x - r.value)
  {
    if y == 0 then Err(DivisionByZero)
    else
      var m := FloorMod(x, y);
      DividesMultiple(y, FloorDiv(x, y), x - m);
      Ok(m)
  }

  /** `divmod` on numbers: `Math.floor(x / y)` and `mod(x, y)`. */
  function DivModNumber(x: int, y: int): (r: Result<(int, int)>)
    ensures r.Err? <==> y == 0
    ensures r.Ok? ==> r.value.0 * y + r.value.1 == x
    ensures r.Ok? && y > 0 ==> r.value.0 * y <= x < (r.value.0 + 1) * y
    ensures r.Ok? && y < 0 ==> (r.value.0 + 1) * y < x <= r.value.0 * y
  {
    if y == 0 then Err(DivisionByZero)
    else Ok((FloorDiv(x, y), FloorMod(x, y)))
  }

  /** `divmod` on bigints as written: the truncated quotient is lowered only
      when it is already negative and the remainder is positive. */
  function DivModBig(x: int, y: int): (r: Result<(int, int)>)
    ensures r.Err? <==> y == 0
    ensures r.Ok? ==> r.value.1 == Mod(x, y).value
  {
    if y == 0 then Err(DivisionByZero)
    else
      var q := Quot(x, y);
      var m := FloorMod(x, y);
      Ok(if q < 0 && m > 0 then (q - 1, m) else (q, m))
  }

  /** The bigint `divmod` agrees with floor division exactly when the
      division is exact, the operands have the same sign, or the divisor is
      positive and the dividend is at most its negation. */
  lemma DivModBigAgrees(x: int, y: int)
    requires y != 0
    ensures DivModBig(x, y) == DivModNumber(x, y) <==>
      (Rem(x, y) == 0 || (x < 0) == (y < 0) || (y > 0 && x <= -y))
  {
    var q := Quot(x, y);
    var a := Rem(x, y);
    if a == 0 {
      QuotRemUnique(y, y, 1, 0);
      assert FloorMod(x, y) == 0;
    } else if (x < 0) != (y < 0) {
      QuotRemUnique(a + y, y, 0, a + y);
      if y > 0 {
        QuotSign(x, y);
      }
    } else if y > 0 {
      QuotSign(x, y);
    }
  }

  /** The sign of the truncated quotient for a positive divisor. */
  lemma QuotSign(x: int, y: int)
    requires y > 0
    ensures x >= 0 ==> Quot(x, y) >= 0
    ensures x <= -y ==> Quot(x, y) <= -1
    ensures -y < x <= 0 ==> Quot(x, y) == 0
  {
    var q, a := Quot(x, y), Rem(x, y);
    assert x == q * y + a;
    if -y < x <= 0 {
      QuotRemUnique(x, y, 0, x);
    }
  }

  /** Two inputs on which the bigint `divmod` breaks `q * y + r == x`. */
  lemma DivModBigCounterexamples()
    ensures DivModBig(-3, 4) == Ok((0, 1)) && 0 * 4 + 1 != -3
    ensures DivModBig(5, -4) == Ok((-1, -3)) && (-1) * (-4) + (-3) != 5
    ensures DivModNumber(-3, 4) == Ok((-1, 1))
    ensures DivModNumber(5, -4) == Ok((-2, -3))
  {
    assert Quot(-3, 4) == 0;
    assert Quot(5, -4) == -1;
    assert Rem(-3, 4) == -3;
    assert Rem(5, -4) == 1;
    assert Rem(1, 4) == 1 by { assert Quot(1, 4) == 0; }
    assert Rem(-3, -4) == -3 by { assert Quot(-3, -4) == 0; }
  }

  /** `divmod` on bigints with the quotient lowered whenever the division
      truncated toward zero across a sign change. */
  function DivModBigFloor(x: int, y: int): (r: Result<(int, int)>)
    ensures r.Err? <==> y == 0
    ensures r.Ok? ==> r.value.0 * y + r.value.1 == x
    ensures r.Ok? ==> r.value.1 == Mod(x, y).value
  {
    if y == 0 then Err(DivisionByZero)
    else
      var q := Quot(x, y);
      var m := FloorMod(x, y);
      Ok(if Rem(x, y) != 0 && (x < 0) != (y < 0) then (q - 1, m) else (q, m))
  }

  /** The corrected bigint `divmod` and the number `divmod` are one
      function. */
  lemma DivModBigFloorIsNumber(x: int, y: int)
    ensures DivModBigFloor(x, y) == DivModNumber(x, y)
  {
  }

  /** Two-argument `gcd`: Euclid's loop on `mod`. Its result divides both
      arguments and is divisible by every common divisor; its sign follows
      the last non-zero divisor, so it can be negative. */
  function Gcd2(a: int, b: int): (g: int)
    ensures Divides(g, a) && Divides(g, b)
    ensures forall d :: Divides(d, a) && Divides(d, b) ==> Divides(d, g)
    decreases Abs(b)
  {
    if b == 0 then
      assert Divides(a, a) by { DividesMultiple(a, 1, a); }
      assert Divides(a, 0) by { DividesMultiple(a, 0, 0); }
      a
    else
      var m := FloorMod(a, b);
      var g := Gcd2(b, m);
      assert Divides(g, a) by {
        DividesCombination(g, m, b, -FloorDiv(a, b));
        assert m - (-FloorDiv(a, b)) * b == a;
      }
      forall d | Divides(d, a) && Divides(d, b)
        ensures Divides(d, g)
      {
        DividesCombination(d, a, b, FloorDiv(a, b));
        assert a - FloorDiv(a, b) * b == m;
      }
      g
  }

  /** Gcd2 of non-negative arguments, not both zero, is positive. */
  lemma Gcd2Positive(a: int, b: int)
    requires a >= 0 && b >= 0 && (a > 0 || b > 0)
    ensures Gcd2(a, b) > 0
    decreases b
  {
    if b != 0 {
      Gcd2Positive(b, FloorMod(a, b));
    }
  }

  /** Left fold of Gcd2 over the remaining arguments. */
  function GcdFold(acc: int, n: seq<int>): int
    decreases |n|
  {
    if n == [] then acc else GcdFold(Gcd2(acc, n[0]), n[1..])
  }

  /** `gcd(...n)`: an error with no arguments, the argument itself with one,
      otherwise a common divisor of all of them that every common divisor
      divides. */
  function Gcd(n: seq<int>): (g: Result<int>)
    ensures g.Err? <==> n == []
    ensures g.Err? ==> g.msg == InvalidInput
    ensures g.Ok? ==> forall i :: 0 <= i < |n| ==> Divides(g.value, n[i])
    ensures g.Ok? ==> forall d :: (forall i :: 0 <= i < |n| ==> Divides(d, n[i])) ==> Divides(d, g.value)
  {
    if n == [] then Err(InvalidInput)
    else if |n| == 1 then
      assert Divides(n[0], n[0]) by { DividesMultiple(n[0], 1, n[0]); }
      Ok(n[0])
    else if |n| == 2 then Ok(Gcd2(n[0], n[1]))
    else
      GcdFoldDivides(n[0], n[1..]);
      Ok(GcdFold(n[0], n[1..]))
  }

  lemma {:induction false} GcdFoldDivides(acc: int, n: seq<int>)
    ensures Divides(GcdFold(acc, n), acc)
    ensures forall i :: 0 <= i < |n| ==> Divides(GcdFold(acc, n), n[i])
    ensures forall d :: Divides(d, acc) && (forall i :: 0 <= i < |n| ==> Divides(d, n[i])) ==>
      Divides(d, GcdFold(acc, n))
    decreases |n|
  {
    if n == [] {
      DividesMultiple(acc, 1, acc);
    } else {
      var h := Gcd2(acc, n[0]);
      GcdFoldDivides(h, n[1..]);
      var g := GcdFold(acc, n);
      assert g == GcdFold(h, n[1..]);
      DividesTransitive(g, h, acc);
      DividesTransitive(g, h, n[0]);
      forall i | 0 <= i < |n|
        ensures Divides(g, n[i])
      {
        if i > 0 {
          assert n[i] == n[1..][i - 1];
        }
      }
      forall d | Divides(d, acc) && (forall i :: 0 <= i < |n| ==> Divides(d, n[i]))
        ensures Divides(d, g)
      {
        assert Divides(d, n[0]);
        assert Divides(d, h);
        forall i | 0 <= i < |n| - 1
          ensures Divides(d, n[1..][i])
        {
          assert n[1..][i] == n[i + 1];
        }
      }
    }
  }

  /** One step of `lcm`'s reduce on numbers: `t * v / gcd(t, v)`. When
      both are zero this is `0 / 0`, which is NaN, written `None`. */
  function LcmStep(t: int, v: int): Option<int>
  {
    var g := Gcd2(t, v);
    if g == 0 then None else Some(Quot(t * v, g))
  }

  /** The reduce itself. A NaN stays NaN: on numbers the next step either
      multiplies it by 0, or spins for ever in `gcd`, whose `mod` of NaN is
      never 0; neither gives a number. */
  function LcmFold(acc: int, n: seq<int>): Option<int>
    decreases |n|
  {
    if n == [] then Some(acc)
    else
      var t :- LcmStep(acc, n[0]);
      LcmFold(t, n[1..])
  }

  /** Two of the arguments, at distinct places, are zero. */
  ghost predicate TwoZeros(n: seq<int>)
  {
    exists i, j :: 0 <= i < j < |n| && n[i] == 0 && n[j] == 0
  }

  /** `lcm(...n)` on numbers: the reduce of LcmStep starting from 1. With no
      arguments it is 1; for positive arguments it is the least common
      multiple: positive, a multiple of each, and a divisor of every common
      multiple. It is NaN exactly when two of the arguments are zero. */
  function Lcm(n: seq<int>): (l: Option<int>)
    ensures n == [] ==> l == Some(1)
    ensures (forall i :: 0 <= i < |n| ==> n[i] > 0) ==>
      l.Some? && l.value > 0 &&
      (forall i :: 0 <= i < |n| ==> Divides(n[i], l.value)) &&
      (forall m :: (forall i :: 0 <= i < |n| ==> Divides(n[i], m)) ==> Divides(l.value, m))
    ensures l.None? <==> TwoZeros(n)
  {
    LcmFoldNaN(1, n);
    if forall i :: 0 <= i < |n| ==> n[i] > 0 then
      LcmFoldMultiple(1, n);
      OneDividesAll();
      LcmFold(1, n)
    else LcmFold(1, n)
  }

  /** The step is NaN exactly when both arguments are zero, and otherwise
      zero exactly when one of them is. */
  lemma LcmStepZero(t: int, v: int)
    ensures LcmStep(t, v).None? <==> t == 0 && v == 0
    ensures LcmStep(t, v).Some? ==> (LcmStep(t, v).value == 0 <==> t == 0 || v == 0)
  {
    var g := Gcd2(t, v);
    var k :| Mul(k, g) == t;
    var k' :| Mul(k', g) == v;
    if g == 0 {
      assert t == 0 && v == 0;
    } else {
      assert t * v == (k * v) * g by {
        assert t == k * g;
      }
      QuotRemUnique(t * v, g, k * v, 0);
      assert LcmStep(t, v).value == k * v;
      ProductZero(k, v);
      ProductZero(k, g);
    }
  }

  lemma ProductZero(a: int, b: int)
    ensures a * b == 0 <==> a == 0 || b == 0
  {
    if a != 0 && b != 0 {
      assert Abs(a * b) == Abs(a) * Abs(b);
      NatProduct(Abs(a), Abs(b));
    }
  }

  /** Folding from acc is NaN exactly when two zeros meet: acc and one
      argument, or two arguments. */
  lemma {:induction false} LcmFoldNaN(acc: int, n: seq<int>)
    ensures LcmFold(acc, n).None? <==>
      (acc == 0 && exists i :: 0 <= i < |n| && n[i] == 0) || TwoZeros(n)
    decreases |n|
  {
    if n != [] {
      LcmStepZero(acc, n[0]);
      var rest := n[1..];
      assert forall i :: 0 <= i < |rest| ==> rest[i] == n[i + 1];
      if LcmStep(acc, n[0]).Some? {
        var t := LcmStep(acc, n[0]).value;
        LcmFoldNaN(t, rest);
        if TwoZeros(n) {
          var i, j :| 0 <= i < j < |n| && n[i] == 0 && n[j] == 0;
          if i == 0 {
            assert rest[j - 1] == 0;
          } else {
            assert rest[i - 1] == 0 && rest[j - 1] == 0;
          }
        }
        if TwoZeros(rest) {
          var i, j :| 0 <= i < j < |rest| && rest[i] == 0 && rest[j] == 0;
          assert n[i + 1] == 0 && n[j + 1] == 0;
        }
        if acc == 0 && exists i :: 0 <= i < |n| && n[i] == 0 {
          var i :| 0 <= i < |n| && n[i] == 0;
          assert rest[i - 1] == 0;
        }
        if t == 0 && exists i :: 0 <= i < |rest| && rest[i] == 0 {
          var i :| 0 <= i < |rest| && rest[i] == 0;
          if acc == 0 {
            assert n[i + 1] == 0;
          } else {
            assert n[0] == 0 && n[i + 1] == 0;
          }
        }
      } else {
        assert n[0] == 0;
      }
    }
  }

  /** For positive t and v, the step is a positive common multiple of both
      that divides every common multiple. */
  lemma LcmStepLeast(t: int, v: int)
    requires t > 0 && v > 0
    ensures LcmStep(t, v).Some?
    ensures LcmStep(t, v).value > 0
    ensures Divides(t, LcmStep(t, v).value) && Divides(v, LcmStep(t, v).value)
    ensures forall m :: Divides(t, m) && Divides(v, m) ==> Divides(LcmStep(t, v).value, m)
  {
    var g := Gcd2(t, v);
    Gcd2Positive(t, v);
    var p :| Mul(p, g) == t;
    var q :| Mul(q, g) == v;
    PositiveFactor(p, g);
    PositiveFactor(q, g);
    var l := LcmShape(t, v, p, q, g);
    QuotRemUnique(t * v, g, l, 0);
    assert LcmStep(t, v) == Some(l);
    DividesMultiple(t, q, l);
    DividesMultiple(v, p, l);
    var s, r := Bezout(t, v);
    forall m | Divides(t, m) && Divides(v, m)
      ensures Divides(l, m)
    {
      var a :| Mul(a, t) == m;
      var b :| Mul(b, v) == m;
      LcmDividesMultiple(t, v, g, l, s, r, a, b, m);
      DividesMultiple(l, s * b + r * a, m);
    }
  }

  /** With t = p * g and v = q * g, the product t * v is (p * q * g) * g. */
  lemma LcmShape(t: int, v: int, p: int, q: int, g: int) returns (l: int)
    requires t == p * g && v == q * g && p > 0 && q > 0 && g > 0
    ensures l == p * q * g && l > 0
    ensures t * v == l * g && l == q * t && l == p * v
  {
    l := p * q * g;
    NatProduct(p * q, g);
    assert t * v == (p * g) * (q * g);
  }

  /** Bezout's identity puts every common multiple m over the lcm. */
  lemma LcmDividesMultiple(t: int, v: int, g: int, l: int, s: int, r: int, a: int, b: int, m: int)
    requires g > 0 && s * t + r * v == g && t * v == l * g
    requires m == a * t && m == b * v
    ensures m == (s * b + r * a) * l
  {
    var c := s * b + r * a;
    assert m * g == s * (t * m) + r * (v * m) by {
      assert m * g == m * (s * t + r * v);
    }
    assert t * m == b * (t * v);
    assert v * m == a * (t * v);
    assert m * g == c * (t * v);
    assert m * g == (c * l) * g;
    MulCancel(m, c * l, g);
  }

  lemma PositiveFactor(p: int, g: int)
    requires g > 0 && p * g > 0
    ensures p > 0
  {
  }

  lemma MulCancel(a: int, b: int, g: int)
    requires g > 0 && a * g == b * g
    ensures a == b
  {
    assert (a - b) * g == 0;
  }

  /** Bezout coefficients for the result of Gcd2. */
  lemma {:induction false} Bezout(a: int, b: int) returns (s: int, r: int)
    ensures s * a + r * b == Gcd2(a, b)
    decreases Abs(b)
  {
    if b == 0 {
      s, r := 1, 0;
    } else {
      var m := FloorMod(a, b);
      var s', r' := Bezout(b, m);
      s, r := r', s' - r' * FloorDiv(a, b);
      BezoutStep(a, b, m, FloorDiv(a, b), s', r', Gcd2(a, b));
    }
  }

  lemma BezoutStep(a: int, b: int, m: int, q: int, s: int, r: int, g: int)
    requires a == q * b + m && s * b + r * m == g
    ensures r * a + (s - r * q) * b == g
  {
    assert r * a == r * (q * b) + r * m;
    assert (s - r * q) * b == s * b - r * (q * b);
  }

  /** For positive arguments, `lcm` is positive and a multiple of every
      argument. */
  lemma {:induction false} LcmFoldMultiple(acc: int, n: seq<int>)
    requires acc > 0
    requires forall i :: 0 <= i < |n| ==> n[i] > 0
    ensures LcmFold(acc, n).Some?
    ensures LcmFold(acc, n).value > 0
    ensures Divides(acc, LcmFold(acc, n).value)
    ensures forall i :: 0 <= i < |n| ==> Divides(n[i], LcmFold(acc, n).value)
    ensures forall m :: Divides(acc, m) && (forall i :: 0 <= i < |n| ==> Divides(n[i], m)) ==>
      Divides(LcmFold(acc, n).value, m)
    decreases |n|
  {
    if n == [] {
      DividesMultiple(acc, 1, acc);
    } else {
      LcmStepLeast(acc, n[0]);
      var t := LcmStep(acc, n[0]).value;
      LcmFoldMultiple(t, n[1..]);
      var l := LcmFold(acc, n).value;
      assert l == LcmFold(t, n[1..]).value;
      DividesTransitive(acc, t, l);
      DividesTransitive(n[0], t, l);
      forall i | 0 <= i < |n|
        ensures Divides(n[i], l)
      {
        if i > 0 {
          assert n[i] == n[1..][i - 1];
        }
      }
      forall m | Divides(acc, m) && (forall i :: 0 <= i < |n| ==> Divides(n[i], m))
        ensures Divides(l, m)
      {
        assert Divides(n[0], m);
        assert Divides(t, m);
        forall i | 0 <= i < |n| - 1
          ensures Divides(n[1..][i], m)
        {
          assert n[1..][i] == n[i + 1];
        }
      }
    }
  }

  lemma OneDividesAll()
    ensures forall m :: Divides(1, m)
  {
    forall m | true
      ensures Divides(1, m)
    {
      DividesMultiple(1, m, m);
    }
  }

  /** The `divmod` and `mod` values the source's tests check. */
  lemma DivModExamples()
    ensures DivModNumber(4, 4) == Ok((1, 0)) && DivModNumber(-5, 4) == Ok((-2, 3))
    ensures DivModBig(-5, 4) == Ok((-2, 3)) && DivModBig(-5, -4) == Ok((1, -1))
    ensures Mod(-5, 4) == Ok(3) && Mod(-5, -4) == Ok(-1) && Mod(4, 0).Err?
  {
    QuotRemUnique(4, 4, 1, 0);
    QuotRemUnique(-5, 4, -1, -1);
    QuotRemUnique(-5, -4, 1, -1);
    QuotRemUnique(3, 4, 0, 3);
    QuotRemUnique(-5, -4, 1, -1);
    QuotRemUnique(-5 + -4, -4, 2, -1);
  }

  lemma {:induction false} Gcd2Steps(a: int, b: int)
    requires b != 0 && 0 <= a < b
    ensures Gcd2(a, b) == Gcd2(b, a)
  {
    QuotRemUnique(a, b, 0, a);
    QuotRemUnique(a + b, b, 1, a);
  }

  /** The `gcd` and `lcm` values the source's tests check. */
  lemma GcdExamples()
    ensures Gcd([]).Err? && Gcd([8]) == Ok(8)
    ensures Gcd([8, 12]) == Ok(4) && Gcd([8, 12, 16]) == Ok(4)
    ensures Lcm([8, 12]) == Some(24)
  {
    Gcd2Steps(8, 12);
    QuotRemUnique(12, 8, 1, 4);
    QuotRemUnique(4, 8, 0, 4);
    QuotRemUnique(8, 4, 2, 0);
    QuotRemUnique(4, 4, 1, 0);
    assert Gcd2(4, 0) == 4;
    assert Gcd2(8, 4) == 4;
    assert Gcd2(12, 8) == 4;
    Gcd2Steps(4, 16);
    QuotRemUnique(16, 4, 4, 0);
    assert Gcd2(16, 4) == 4;
    assert GcdFold(8, [12, 16]) == 4 by {
      assert [12, 16][1..] == [16];
      assert GcdFold(4, [16]) == 4 by {
        assert [16][1..] == [];
      }
    }
    Gcd2Steps(1, 8);
    QuotRemUnique(8, 1, 8, 0);
    QuotRemUnique(1, 1, 1, 0);
    assert Gcd2(8, 1) == 1;
    QuotRemUnique(8, 1, 8, 0);
    QuotRemUnique(96, 4, 24, 0);
    assert LcmStep(1, 8) == Some(8);
    assert LcmStep(8, 12) == Some(24);
    assert [8, 12][1..] == [12];
    assert [12][1..] == [];
  }
}
