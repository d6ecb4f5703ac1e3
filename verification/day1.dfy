/** Day 1 (day1.ts): calibration values from the first and last digit of
    each line, where part 2 first rewrites spelled-out digit words. */
module Day1 {
  import opened Outcomes

  predicate IsDigit(c: char)
  {
    '0' <= c <= '9'
  }

  function DigitValue(c: char): nat
    requires IsDigit(c)
  {
    (c - '0') as nat
  }

  /** The digit characters of a line, in order (the matches of /[0-9]/g). */
  function Digits(s: string): (d: string)
    ensures forall i :: 0 <= i < |d| ==> IsDigit(d[i])
    ensures |d| <= |s|
  {
    if s == [] then []
    else Digits(s[..|s| - 1]) + (if IsDigit(s[|s| - 1]) then [s[|s| - 1]] else [])
  }

  lemma {:induction false} DigitsAppend(a: string, b: string)
    ensures Digits(a + b) == Digits(a) + Digits(b)
    decreases |b|
  {
    if b == [] {
      assert a + b == a;
    } else {
      assert (a + b)[..|a + b| - 1] == a + b[..|b| - 1];
      DigitsAppend(a, b[..|b| - 1]);
    }
  }

  /** The two-digit number written as the first digit then the last. */
  function Calibration(d: string): (n: nat)
    requires |d| > 0 && forall i :: 0 <= i < |d| ==> IsDigit(d[i])
    ensures n <= 99 && n / 10 == DigitValue(d[0]) && n % 10 == DigitValue(d[|d| - 1])
  {
    10 * DigitValue(d[0]) + DigitValue(d[|d| - 1])
  }

  /** A part-1 line: its calibration value when it has more than one digit,
      and nothing otherwise. */
  function Part1Line(s: string): (n: nat)
    ensures n <= 99
    ensures |Digits(s)| <= 1 ==> n == 0
    ensures |Digits(s)| > 1 ==> n / 10 == DigitValue(Digits(s)[0]) && n % 10 == DigitValue(Digits(s)[|Digits(s)| - 1])
  {
    var d := Digits(s);
    if |d| > 1 then Calibration(d) else 0
  }

  /** Part 1: the lines' scores added up. Each line adds at most 99, and
      the total is 0 exactly when no line scores. */
  function Part1(inp: seq<string>): (n: nat)
    ensures n <= 99 * |inp|
    ensures forall i :: 0 <= i < |inp| ==> Part1Line(inp[i]) <= n
    ensures n == 0 <==> forall i :: 0 <= i < |inp| ==> Part1Line(inp[i]) == 0
  {
    if inp == [] then 0
    else
      var init := inp[..|inp| - 1];
      assert forall i :: 0 <= i < |init| ==> init[i] == inp[i];
      Part1(init) + Part1Line(inp[|inp| - 1])
  }

  const Words: seq<string> := ["one", "two", "three", "four", "five", "six", "seven", "eight", "nine"]

  /** The digit that replaces word i (`String(i + 1)`). */
  function WordDigit(i: nat): (c: char)
    requires i < |Words|
    ensures IsDigit(c) && DigitValue(c) == i + 1
  {
    ('1' as int + i) as char
  }

  /** The first word of the alternation, from index i on, that starts s. */
  function WordFrom(s: string, i: nat): (w: Option<nat>)
    requires i <= |Words|
    ensures w.Some? ==> i <= w.value < |Words| && Words[w.value] <= s
    ensures w.None? ==> forall j :: i <= j < |Words| ==> !(Words[j] <= s)
    decreases |Words| - i
  {
    if i == |Words| then None
    else if Words[i] <= s then Some(i)
    else WordFrom(s, i + 1)
  }

  function WordAt(s: string): Option<nat>
  {
    WordFrom(s, 0)
  }

  /** No digit word occurs anywhere in s. */
  predicate NoWord(s: string)
  {
    forall i :: 0 <= i <= |s| ==> WordAt(s[i..]).None?
  }

  predicate IsLetter(c: char)
  {
    'a' <= c <= 'z'
  }

  /** Every digit word is at least three lower-case letters long. */
  lemma WordsAreLetters(i: nat)
    requires i < |Words|
    ensures |Words[i]| >= 3
    ensures forall k :: 0 <= k < |Words[i]| ==> IsLetter(Words[i][k])
  {
  }

  /** Only a line that starts with the first letter of some digit word
      can start with a digit word. */
  lemma NoWordStart(s: string)
    requires |s| > 0 && s[0] !in "otfsen"
    ensures WordAt(s).None?
  {
  }

  /** One `replace` with the global alternation: scanning left to right,
      each word found is replaced by its digit followed by the word's tail,
      and the scan resumes after the word. */
  function ReplacePass(s: string): (t: string)
    ensures |t| == |s|
    decreases |s|
  {
    if s == [] then []
    else match WordAt(s)
      case Some(i) => WordsAreLetters(i); [WordDigit(i)] + Words[i][1..] + ReplacePass(s[|Words[i]|..])
      case None => [s[0]] + ReplacePass(s[1..])
  }

  /** t is s with some letters turned into digits and nothing else
      changed. */
  predicate LettersToDigits(s: string, t: string)
  {
    |t| == |s| && forall k :: 0 <= k < |s| ==> t[k] == s[k] || (IsDigit(t[k]) && IsLetter(s[k]))
  }

  /** A pass only turns letters into digits; everything else is kept in
      place. */
  lemma {:induction false} ReplacePassDigits(s: string)
    ensures LettersToDigits(s, ReplacePass(s))
    decreases |s|
  {
    if s != [] {
      match WordAt(s)
      case Some(i) =>
        var rest := s[|Words[i]|..];
        ReplacePassDigits(rest);
        WordStepDigits(s, i, ReplacePass(rest));
      case None =>
        ReplacePassDigits(s[1..]);
        KeepStepDigits(s, ReplacePass(s[1..]));
    }
  }

  /** A word at the front becomes its digit and its tail. */
  lemma WordStepDigits(s: string, i: nat, u: string)
    requires i < |Words| && Words[i] <= s
    requires LettersToDigits(s[|Words[i]|..], u)
    ensures LettersToDigits(s, [WordDigit(i)] + Words[i][1..] + u)
  {
    var w := Words[i];
    var t := [WordDigit(i)] + w[1..] + u;
    var rest := s[|w|..];
    WordsAreLetters(i);
    forall k | 0 <= k < |s|
      ensures t[k] == s[k] || (IsDigit(t[k]) && IsLetter(s[k]))
    {
      if k == 0 {
        assert s[0] == w[0];
      } else if k < |w| {
        assert t[k] == w[k] && s[k] == w[k];
      } else {
        assert t[k] == u[k - |w|] && s[k] == rest[k - |w|];
      }
    }
  }

  /** A character with no word at it is kept. */
  lemma KeepStepDigits(s: string, u: string)
    requires s != [] && LettersToDigits(s[1..], u)
    ensures LettersToDigits(s, [s[0]] + u)
  {
    var t := [s[0]] + u;
    forall k | 1 <= k < |s|
      ensures t[k] == s[k] || (IsDigit(t[k]) && IsLetter(s[k]))
    {
      assert t[k] == u[k - 1] && s[k] == s[1..][k - 1];
    }
  }

  /** A pass leaves the line unchanged exactly when no digit word occurs in
      it. */
  lemma {:induction false} ReplacePassFixed(s: string)
    ensures ReplacePass(s) == s <==> NoWord(s)
    decreases |s|
  {
    if s == [] {
      assert WordAt(s[0..]) == WordAt([]);
    } else {
      match WordAt(s)
      case Some(i) =>
        WordChanges(s, i);
      case None =>
        ReplacePassFixed(s[1..]);
        NoWordCons(s);
        KeepFixed(s);
    }
  }

  /** Without a word at the front, a pass fixes s exactly when it fixes
      the tail. */
  lemma KeepFixed(s: string)
    requires s != [] && WordAt(s).None?
    ensures ReplacePass(s) == s <==> ReplacePass(s[1..]) == s[1..]
  {
    var u := ReplacePass(s[1..]);
    assert ReplacePass(s) == [s[0]] + u;
    assert s == [s[0]] + s[1..];
    if [s[0]] + u == [s[0]] + s[1..] {
      assert u == ([s[0]] + u)[1..];
    }
  }

  /** A word at the front changes the line, which then has a word. */
  lemma WordChanges(s: string, i: nat)
    requires s != [] && WordAt(s) == Some(i)
    ensures ReplacePass(s) != s && !NoWord(s)
  {
    WordsAreLetters(i);
    assert ReplacePass(s)[0] == WordDigit(i);
    assert s[0] == Words[i][0];
    assert s[0..] == s;
  }

  /** Without a word at the front, s has no word exactly when its tail
      has none. */
  lemma NoWordCons(s: string)
    requires s != [] && WordAt(s).None?
    ensures NoWord(s) <==> NoWord(s[1..])
  {
    if NoWord(s[1..]) {
      forall i | 0 <= i <= |s|
        ensures WordAt(s[i..]).None?
      {
        if i > 0 {
          assert s[i..] == s[1..][i - 1..];
          assert WordAt(s[1..][i - 1..]).None?;
        } else {
          assert s[0..] == s;
        }
      }
    }
    if NoWord(s) {
      forall i | 0 <= i <= |s[1..]|
        ensures WordAt(s[1..][i..]).None?
      {
        assert s[1..][i..] == s[i + 1..];
        assert WordAt(s[i + 1..]).None?;
      }
    }
  }

  /** The number of characters that are not digits. */
  function NonDigits(s: string): nat
  {
    CountIf(s, (c: char) => !IsDigit(c))
  }

  /** Turning some letters into digits, and nothing else, lowers the count
      of non-digits whenever anything changed. */
  lemma {:induction false} FewerNonDigits(s: string, t: string)
    requires LettersToDigits(s, t)
    ensures NonDigits(t) <= NonDigits(s)
    ensures t != s ==> NonDigits(t) < NonDigits(s)
    decreases |s|
  {
    if s != [] {
      var n := |s| - 1;
      FewerNonDigits(s[..n], t[..n]);
      if t != s && t[..n] == s[..n] {
        assert t[n] != s[n] by {
          assert t == t[..n] + [t[n]] && s == s[..n] + [s[n]];
        }
      }
    }
  }

  /** The do/while loop: replace until a pass changes nothing. Every pass
      that changes the line turns a letter into a digit, which bounds the
      number of passes. */
  function Rewrite(s: string): (t: string)
    ensures |t| == |s|
    ensures NoWord(t)
    decreases NonDigits(s)
  {
    var t := ReplacePass(s);
    if t == s then
      ReplacePassFixed(s);
      s
    else
      ReplacePassDigits(s);
      FewerNonDigits(s, t);
      Rewrite(t)
  }

  /** A part-2 line: the calibration value of the rewritten line. */
  function Part2Line(s: string): (n: nat)
    ensures n <= 99
  {
    LineValue(Rewrite(s))
  }

  /** The score of a rewritten line, where a single digit is both first
      and last and a line without digits scores 0. */
  function LineValue(t: string): (n: nat)
    ensures n <= 99
    ensures |Digits(t)| == 0 ==> n == 0
    ensures |Digits(t)| > 0 ==> n / 10 == DigitValue(Digits(t)[0]) && n % 10 == DigitValue(Digits(t)[|Digits(t)| - 1])
  {
    var d := Digits(t);
    if |d| > 0 then Calibration(d) else 0
  }

  /** Part 2: the rewritten lines' scores added up, with the same bounds
      as part 1. */
  function Part2(inp: seq<string>): (n: nat)
    ensures n <= 99 * |inp|
    ensures forall i :: 0 <= i < |inp| ==> Part2Line(inp[i]) <= n
    ensures n == 0 <==> forall i :: 0 <= i < |inp| ==> Part2Line(inp[i]) == 0
  {
    SumByBounds(inp, Part2Line, 99);
    SumBy(inp, Part2Line)
  }

  /** On a line with no digit word and at least two digits, both parts
      score the same; a lone digit d scores 11 * d in part 2 and 0 in
      part 1. */
  lemma PartsAgree(s: string)
    requires NoWord(s)
    ensures |Digits(s)| > 1 ==> Part2Line(s) == Part1Line(s)
    ensures |Digits(s)| == 1 ==> Part1Line(s) == 0 && Part2Line(s) == 11 * DigitValue(Digits(s)[0])
  {
    ReplacePassFixed(s);
    assert Rewrite(s) == s;
  }

  lemma FirstPass()
    ensures ReplacePass("twone") == "2wone"
  {
    assert WordAt("twone") == Some(1);
    assert "twone"[3..] == "ne";
    assert WordAt("ne") == None;
    assert WordAt("e") == None;
    assert ReplacePass("e") == "e";
    assert ReplacePass("ne") == "ne";
  }

  lemma SecondPass()
    ensures ReplacePass("2wone") == "2w1ne"
  {
    NoWordStart("2wone");
    NoWordStart("wone");
    assert WordAt("one") == Some(0);
    assert "one"[3..] == [];
    assert ReplacePass("one") == "1ne";
    assert ReplacePass("wone") == "w1ne";
  }

  lemma ThirdPass()
    ensures ReplacePass("2w1ne") == "2w1ne"
  {
    NoWordStart("2w1ne");
    NoWordStart("w1ne");
    NoWordStart("1ne");
    assert WordAt("ne") == None;
    assert WordAt("e") == None;
    assert ReplacePass("e") == "e";
    assert ReplacePass("ne") == "ne";
    assert ReplacePass("1ne") == "1ne";
    assert ReplacePass("w1ne") == "w1ne";
  }

  /** A word that overlaps a replaced word's tail is found on a later pass:
      "twone" becomes "2w1ne". */
  lemma OverlapExample()
    ensures Rewrite("twone") == "2w1ne"
  {
    FirstPass();
    SecondPass();
    ThirdPass();
    assert Rewrite("2w1ne") == "2w1ne";
    assert Rewrite("2wone") == "2w1ne";
  }

  lemma OverlapScore()
    ensures Part2Line("twone") == 21
  {
    OverlapExample();
    OverlapDigits();
    var d := Digits(Rewrite("twone"));
    assert d == "21";
    assert Calibration(d) == 21;
  }

  lemma OverlapDigits()
    ensures Digits("2w1ne") == "21"
  {
    var a := [] + ['2'];
    var b := a + ['w'];
    var c := b + ['1'];
    var d := c + ['n'];
    var e := d + ['e'];
    DigitsSnoc([], '2');
    DigitsSnoc(a, 'w');
    DigitsSnoc(b, '1');
    DigitsSnoc(c, 'n');
    DigitsSnoc(d, 'e');
    assert e == "2w1ne";
    assert Digits(e) == ['2'] + ['1'];
  }

  /** Appending one character adds it to the digits exactly when it is a
      digit. */
  lemma DigitsSnoc(s: string, c: char)
    ensures Digits(s + [c]) == Digits(s) + if IsDigit(c) then [c] else []
  {
    assert (s + [c])[..|s|] == s;
  }
}
