/** Day 12 (day12.ts): hot springs. A row of springs is '.' (working),
    '#' (damaged) or '?' (unknown), with the lengths of its runs of damaged
    springs; `count` gives the number of ways to fill in the unknowns that
    agree with the lengths. */
module Day12 {
  import opened Outcomes

  datatype Row = Row(springs: string, groups: seq<nat>)

  const InvalidInput := "Invalid input"

  /** Springs s[..n] contain a working one. */
  predicate HasDot(s: string)
  {
    exists i :: 0 <= i < |s| && s[i] == '.'
  }

  predicate HasHash(s: string)
  {
    exists i :: 0 <= i < |s| && s[i] == '#'
  }

  /** `count(springs, groups)`, without the memo table: the recursion the
      table caches. Only the leading character is checked, so a bad
      character raises an error when it comes to the front. */
  function Count(s: string, g: seq<nat>): (r: Result<nat>)
    ensures r.Err? ==> r == Err(InvalidInput)
    ensures Valid(s) ==> r.Ok?
    decreases |s|, if s != [] && s[0] == '?' then 1 else 0
  {
    if s == [] then Ok(if g == [] then 1 else 0)
    else if g == [] then Ok(if HasHash(s) then 0 else 1)
    else if s[0] == '.' then Count(s[1..], g)
    else if s[0] == '?' then
      var a :- Count(s[1..], g);
      assert Valid(s) ==> Valid(['#'] + s[1..]);
      var b :- Count(['#'] + s[1..], g);
      Ok(a + b)
    else if s[0] == '#' then
      var g0 := g[0];
      if |s| < g0 then Ok(0)
      else if HasDot(s[..g0]) then Ok(0)
      else if |s| == g0 then Ok(if |g| == 1 then 1 else 0)
      else if s[g0] == '#' then Ok(0)
      else Count(s[g0 + 1..], g[1..])
    else Err(InvalidInput)
  }

  /** With no springs left, there is one way exactly when no group is left. */
  lemma CountEmpty(g: seq<nat>)
    ensures Count([], g) == Ok(1) <==> g == []
    ensures Count([], g) == Ok(0) <==> g != []
  {
  }

  /** With no groups left, there is one way exactly when no damaged spring
      is left. */
  lemma CountNoGroups(s: string)
    ensures Count(s, []) == Ok(1) <==> !HasHash(s)
    ensures Count(s, []) == Ok(0) <==> HasHash(s)
  {
  }

  /** A leading working spring is skipped. */
  lemma CountDot(rest: string, g: seq<nat>)
    ensures Count(['.'] + rest, g) == Count(rest, g)
  {
    var s := ['.'] + rest;
    assert s[1..] == rest;
    if g == [] && rest != [] {
      assert HasHash(s) <==> HasHash(rest) by {
        if HasHash(rest) {
          var i :| 0 <= i < |rest| && rest[i] == '#';
          assert s[i + 1] == '#';
        }
        if HasHash(s) {
          var i :| 0 <= i < |s| && s[i] == '#';
          assert rest[i - 1] == '#';
        }
      }
    }
  }

  /** A leading unknown is tried both ways and the counts add up. */
  lemma CountUnknown(rest: string, g: seq<nat>)
    requires g != []
    ensures Count(['?'] + rest, g) ==
      (var a := Count(rest, g); var b := Count(['#'] + rest, g);
       if a.Err? then a else if b.Err? then b else Ok(a.value + b.value))
  {
    assert (['?'] + rest)[1..] == rest;
  }

  /** A leading damaged spring must start a run of exactly g[0]: not enough
      springs, a working spring inside the run, or a damaged spring right
      after it give no way; an exact fit is one way if it was the last
      group; otherwise the count continues past the run and the spring
      after it. */
  lemma CountHash(rest: string, g: seq<nat>)
    requires g != []
    ensures var s := ['#'] + rest;
      Count(s, g) ==
        if |s| < g[0] || HasDot(s[..g[0]]) then Ok(0)
        else if |s| == g[0] then Ok(if |g| == 1 then 1 else 0)
        else if s[g[0]] == '#' then Ok(0)
        else Count(s[g[0] + 1..], g[1..])
  {
  }

  /** Any other leading character is an error. */
  lemma CountInvalid(c: char, rest: string, g: seq<nat>)
    requires c != '.' && c != '?' && c != '#' && g != []
    ensures Count([c] + rest, g) == Err(InvalidInput)
  {
  }

  // ---------------------------------------------------------------------
  // The meaning of `count`: the number of completions whose runs of '#'
  // have the lengths of the groups.

  predicate Valid(s: string)
  {
    forall i :: 0 <= i < |s| ==> s[i] == '.' || s[i] == '#' || s[i] == '?'
  }

  /** The length of the run of '#' at the front. */
  function HashRun(t: string): nat
    ensures HashRun(t) <= |t|
  {
    if t == [] || t[0] != '#' then 0 else 1 + HashRun(t[1..])
  }

  /** The lengths of the maximal runs of '#', left to right. */
  function Runs(t: string): seq<nat>
    decreases |t|
  {
    if t == [] then []
    else if t[0] != '#' then Runs(t[1..])
    else
      var k := HashRun(t);
      [k] + Runs(t[k..])
  }

  /** Every way to fill in the unknowns, '.' before '#'. */
  function Completions(s: string): seq<string>
  {
    if s == [] then [[]]
    else
      var rest := Completions(s[1..]);
      if s[0] == '?' then Prepend('.', rest) + Prepend('#', rest)
      else Prepend(s[0], rest)
  }

  function Prepend(c: char, l: seq<string>): (r: seq<string>)
    ensures |r| == |l|
    ensures forall i :: 0 <= i < |l| ==> r[i] == [c] + l[i]
  {
    seq(|l|, i requires 0 <= i < |l| => [c] + l[i])
  }

  /** The number of t in l for which pre + t has runs g. */
  function CountRuns(l: seq<string>, pre: string, g: seq<nat>): nat
  {
    if l == [] then 0
    else CountRuns(l[..|l| - 1], pre, g) + (if Runs(pre + l[|l| - 1]) == g then 1 else 0)
  }

  /** The completions of s whose runs are g. */
  function Ways(s: string, g: seq<nat>): nat
  {
    CountRuns(Completions(s), [], g)
  }

  lemma {:induction false} CountRunsAppend(a: seq<string>, b: seq<string>, pre: string, g: seq<nat>)
    ensures CountRuns(a + b, pre, g) == CountRuns(a, pre, g) + CountRuns(b, pre, g)
    decreases |b|
  {
    if b == [] {
      assert a + b == a;
    } else {
      assert (a + b)[..|a + b| - 1] == a + b[..|b| - 1];
      CountRunsAppend(a, b[..|b| - 1], pre, g);
    }
  }

  lemma {:induction false} CountRunsPrepend(c: char, l: seq<string>, pre: string, g: seq<nat>)
    ensures CountRuns(Prepend(c, l), pre, g) == CountRuns(l, pre + [c], g)
    decreases |l|
  {
    if l != [] {
      assert Prepend(c, l)[..|l| - 1] == Prepend(c, l[..|l| - 1]);
      CountRunsPrepend(c, l[..|l| - 1], pre, g);
      assert pre + Prepend(c, l)[|l| - 1] == (pre + [c]) + l[|l| - 1];
    }
  }

  /** Two prefixes that give every completion the same runs count alike. */
  lemma {:induction false} CountRunsSame(l: seq<string>, p: string, q: string, g: seq<nat>)
    requires forall t :: t in l ==> Runs(p + t) == Runs(q + t)
    ensures CountRuns(l, p, g) == CountRuns(l, q, g)
    decreases |l|
  {
    if l != [] {
      CountRunsSame(l[..|l| - 1], p, q, g);
    }
  }

  /** A prefix that gives no completion the runs g counts nothing. */
  lemma {:induction false} CountRunsNone(l: seq<string>, p: string, g: seq<nat>)
    requires forall t :: t in l ==> Runs(p + t) != g
    ensures CountRuns(l, p, g) == 0
    decreases |l|
  {
    if l != [] {
      CountRunsNone(l[..|l| - 1], p, g);
    }
  }

  /** n damaged springs. */
  function Hashes(n: nat): (h: string)
    ensures |h| == n && forall i :: 0 <= i < n ==> h[i] == '#'
  {
    if n == 0 then [] else ['#'] + Hashes(n - 1)
  }

  lemma {:induction false} HashRunHashes(k: nat, t: string)
    ensures HashRun(Hashes(k) + t) == k + HashRun(t)
    ensures (Hashes(k) + t)[k..] == t
    decreases k
  {
    if k > 0 {
      var u := Hashes(k) + t;
      assert Hashes(k) == ['#'] + Hashes(k - 1);
      assert u[0] == '#';
      assert u[1..] == Hashes(k - 1) + t;
      HashRunHashes(k - 1, t);
      assert u[k..] == (Hashes(k - 1) + t)[k - 1..];
    } else {
      assert Hashes(0) + t == t;
    }
  }

  /** The runs of a string led by k >= 1 damaged springs: the first run is
      at least k long, is exactly k when a working spring or the end
      follows, and then the rest is read on its own. */
  lemma RunsAfterHashes(k: nat, t: string)
    requires k >= 1
    ensures |Runs(Hashes(k) + t)| >= 1 && Runs(Hashes(k) + t)[0] >= k
    ensures t == [] ==> Runs(Hashes(k) + t) == [k]
    ensures t != [] && t[0] == '.' ==> Runs(Hashes(k) + t) == [k] + Runs(t[1..])
    ensures t != [] && t[0] == '#' ==> Runs(Hashes(k) + t)[0] > k
  {
    HashRunHashes(k, t);
    var u := Hashes(k) + t;
    assert u[0] == '#';
    if t != [] && t[0] == '.' {
      assert HashRun(t) == 0;
      assert u[k..] == t;
      assert Runs(t) == Runs(t[1..]);
    }
    if t == [] {
      assert u[k..] == [];
    }
  }

  lemma RunsDot(t: string)
    ensures Runs(['.'] + t) == Runs(t)
  {
    assert (['.'] + t)[1..] == t;
  }

  lemma {:induction false} RunsEmptyIff(t: string)
    ensures Runs(t) == [] <==> !HasHash(t)
    decreases |t|
  {
    if t != [] {
      RunsEmptyIff(t[1..]);
      if t[0] != '#' {
        assert HasHash(t) <==> HasHash(t[1..]) by {
          if HasHash(t) {
            var i :| 0 <= i < |t| && t[i] == '#';
            assert t[1..][i - 1] == '#';
          }
          if HasHash(t[1..]) {
            var i :| 0 <= i < |t[1..]| && t[1..][i] == '#';
            assert t[i + 1] == '#';
          }
        }
      }
    }
  }

  /** The completions of s split on the first spring: those that make it
      working and those that make it damaged. */
  lemma SplitFirst(s: string, pre: string, g: seq<nat>)
    requires Valid(s) && s != []
    ensures CountRuns(Completions(s), pre, g) ==
      (if s[0] != '#' then CountRuns(Completions(s[1..]), pre + ['.'], g) else 0) +
      (if s[0] != '.' then CountRuns(Completions(s[1..]), pre + ['#'], g) else 0)
  {
    var l := Completions(s[1..]);
    CountRunsPrepend('.', l, pre, g);
    CountRunsPrepend('#', l, pre, g);
    if s[0] == '?' {
      CountRunsAppend(Prepend('.', l), Prepend('#', l), pre, g);
    }
  }

  /** A leading working spring changes no runs. */
  lemma DotPrefix(l: seq<string>, g: seq<nat>)
    ensures CountRuns(l, ['.'], g) == CountRuns(l, [], g)
  {
    forall t | t in l
      ensures Runs(['.'] + t) == Runs([] + t)
    {
      RunsDot(t);
      assert [] + t == t;
    }
    CountRunsSame(l, ['.'], [], g);
  }

  /** k >= 1 leading damaged springs always make a run. */
  lemma HashPrefixNoGroups(l: seq<string>, k: nat)
    requires k >= 1
    ensures CountRuns(l, Hashes(k), []) == 0
  {
    forall t | t in l
      ensures Runs(Hashes(k) + t) != []
    {
      RunsAfterHashes(k, t);
    }
    CountRunsNone(l, Hashes(k), []);
  }

  /** With no groups there is one way exactly when no spring is known
      damaged: every unknown must be working. */
  lemma {:induction false} WaysNoGroups(s: string)
    requires Valid(s)
    ensures Ways(s, []) == if HasHash(s) then 0 else 1
    decreases |s|
  {
    if s == [] {
      assert Completions(s) == [[]];
      assert CountRuns([[]], [], []) == CountRuns([], [], []) + 1;
    } else {
      var rest := s[1..];
      var l := Completions(rest);
      WaysNoGroups(rest);
      HasHashCons(s);
      SplitFirst(s, [], []);
      DotPrefix(l, []);
      assert [] + ['#'] == Hashes(1);
      HashPrefixNoGroups(l, 1);
      assert [] + ['.'] == ['.'];
    }
  }

  lemma HasHashCons(s: string)
    requires s != []
    ensures HasHash(s) <==> s[0] == '#' || HasHash(s[1..])
  {
    if HasHash(s) && s[0] != '#' {
      var i :| 0 <= i < |s| && s[i] == '#';
      assert s[1..][i - 1] == '#';
    }
    if HasHash(s[1..]) {
      var i :| 0 <= i < |s[1..]| && s[1..][i] == '#';
      assert s[i + 1] == '#';
    }
  }

  /** Ending the current run at length k: no way when the group wants a
      longer run, and otherwise the remaining groups are matched by the
      rest alone. */
  lemma DotChoice(l: seq<string>, k: nat, g0: nat, gs: seq<nat>)
    requires 1 <= k <= g0
    ensures CountRuns(l, Hashes(k) + ['.'], [g0] + gs) == if k < g0 then 0 else CountRuns(l, [], gs)
  {
    var hk := Hashes(k);
    forall t | t in l
      ensures Runs(hk + ['.'] + t) == [k] + Runs(t)
    {
      RunsAfterHashes(k, ['.'] + t);
      assert hk + ['.'] + t == hk + (['.'] + t);
      assert (['.'] + t)[1..] == t;
    }
    if k < g0 {
      forall t | t in l
        ensures Runs(hk + ['.'] + t) != [g0] + gs
      {
        assert ([k] + Runs(t))[0] == k;
      }
      CountRunsNone(l, hk + ['.'], [g0] + gs);
    } else {
      CountRunsShift(l, hk + ['.'], [], g0, gs);
    }
  }

  /** Going on past a run of exactly the group's length gives no way. */
  lemma HashChoiceDone(l: seq<string>, k: nat, gs: seq<nat>)
    requires 1 <= k
    ensures CountRuns(l, Hashes(k) + ['#'], [k] + gs) == 0
  {
    var hk := Hashes(k);
    forall t | t in l
      ensures Runs(hk + ['#'] + t) != [k] + gs
    {
      RunsAfterHashes(k, ['#'] + t);
      assert hk + ['#'] + t == hk + (['#'] + t);
      assert ([k] + gs)[0] == k;
    }
    CountRunsNone(l, hk + ['#'], [k] + gs);
  }

  /** Inside a run: with k damaged springs already fixed and the current
      group g0 >= k, the completions of s that finish the run at exactly g0
      and then have runs gs are counted the way `count` does it from a
      leading '#'. */
  lemma {:induction false} WaysInRun(s: string, k: nat, g0: nat, gs: seq<nat>)
    requires Valid(s) && 1 <= k <= g0
    ensures CountRuns(Completions(s), Hashes(k), [g0] + gs) == RunTail(s, g0 - k, gs)
    decreases |s|
  {
    if s == [] {
      WaysInRunEmpty(k, g0, gs);
    } else if k < g0 {
      WaysInRun(s[1..], k + 1, g0, gs);
      WaysInRunMore(s, k, g0, gs);
    } else {
      WaysInRunDone(s, k, gs);
    }
  }

  /** What is left of the count once n more cells of the run are due:
      they must all fit and be non-'.', and the run must then end. */
  function RunTail(s: string, n: nat, gs: seq<nat>): nat
  {
    if |s| < n || HasDot(s[..n]) then 0
    else if |s| == n then (if gs == [] then 1 else 0)
    else if s[n] == '#' then 0
    else Ways(s[n + 1..], gs)
  }

  /** No springs left inside a run: it counts when the run is complete and
      no group follows. */
  lemma WaysInRunEmpty(k: nat, g0: nat, gs: seq<nat>)
    requires 1 <= k <= g0
    ensures CountRuns(Completions([]), Hashes(k), [g0] + gs) == RunTail([], g0 - k, gs)
  {
    var g, hk := [g0] + gs, Hashes(k);
    assert Completions([]) == [[]];
    RunsAfterHashes(k, []);
    assert hk + [] == hk;
    assert CountRuns([[]], hk, g) == CountRuns([], hk, g) + (if Runs(hk + []) == g then 1 else 0);
    assert [k] == g <==> k == g0 && gs == [];
  }

  /** Inside a run: the next cell must be damaged. */
  lemma WaysInRunMore(s: string, k: nat, g0: nat, gs: seq<nat>)
    requires Valid(s) && s != [] && 1 <= k < g0
    requires CountRuns(Completions(s[1..]), Hashes(k + 1), [g0] + gs) == RunTail(s[1..], g0 - k - 1, gs)
    ensures CountRuns(Completions(s), Hashes(k), [g0] + gs) == RunTail(s, g0 - k, gs)
  {
    var l := Completions(s[1..]);
    SplitFirst(s, Hashes(k), [g0] + gs);
    DotChoice(l, k, g0, gs);
    HashesSnoc(k);
    SliceFacts(s, g0 - k);
  }

  /** A complete run: the next cell must be working or unknown, read as
      working. */
  lemma WaysInRunDone(s: string, k: nat, gs: seq<nat>)
    requires Valid(s) && s != [] && 1 <= k
    ensures CountRuns(Completions(s), Hashes(k), [k] + gs) == RunTail(s, 0, gs)
  {
    var l := Completions(s[1..]);
    SplitFirst(s, Hashes(k), [k] + gs);
    DotChoice(l, k, k, gs);
    HashChoiceDone(l, k, gs);
    assert s[..0] == [];
  }

  lemma HashesSnoc(k: nat)
    ensures Hashes(k) + ['#'] == Hashes(k + 1)
  {
    assert |Hashes(k) + ['#']| == k + 1;
  }

  /** When pre + t always reads [g0] followed by the runs of t, counting
      runs [g0] + gs after pre is counting runs gs of t. */
  lemma {:induction false} CountRunsShift(l: seq<string>, pre: string, empty: string, g0: nat, gs: seq<nat>)
    requires empty == []
    requires forall t :: t in l ==> Runs(pre + t) == [g0] + Runs(t)
    ensures CountRuns(l, pre, [g0] + gs) == CountRuns(l, empty, gs)
    decreases |l|
  {
    if l != [] {
      CountRunsShift(l[..|l| - 1], pre, empty, g0, gs);
      var t := l[|l| - 1];
      assert empty + t == t;
      assert Runs(pre + t) == [g0] + gs <==> Runs(t) == gs by {
        if Runs(pre + t) == [g0] + gs {
          assert ([g0] + Runs(t))[1..] == Runs(t);
          assert ([g0] + gs)[1..] == gs;
        }
      }
    }
  }

  /** How the conditions on s relate to those on its tail. */
  lemma SliceFacts(s: string, n: int)
    requires s != [] && n >= 1
    ensures n <= |s| ==> (HasDot(s[..n]) <==> s[0] == '.' || HasDot(s[1..][..n - 1]))
    ensures n < |s| ==> s[n] == s[1..][n - 1] && s[n + 1..] == s[1..][n..]
  {
    if n <= |s| {
      var a, b := s[..n], s[1..][..n - 1];
      if HasDot(a) && s[0] != '.' {
        var i :| 0 <= i < |a| && a[i] == '.';
        assert b[i - 1] == '.';
      }
      if HasDot(b) {
        var i :| 0 <= i < |b| && b[i] == '.';
        assert a[i + 1] == '.';
      }
      if s[0] == '.' {
        assert a[0] == '.';
      }
    }
  }

  /** `count` computes the number of completions whose runs of damaged
      springs are the groups, for every row made of '.', '#' and '?'. */
  lemma {:induction false} CountIsWays(s: string, g: seq<nat>)
    requires Valid(s)
    ensures Count(s, g) == Ok(Ways(s, g))
    decreases |s|, if s != [] && s[0] == '?' then 1 else 0, 1
  {
    if s == [] {
      assert Completions(s) == [[]];
      assert CountRuns([[]], [], g) == CountRuns([], [], g) + (if Runs([]) == g then 1 else 0);
    } else if g == [] {
      WaysNoGroups(s);
    } else if s[0] == '.' {
      CountIsWays(s[1..], g);
      CountDotLead(s, g);
    } else if s[0] == '?' {
      var hs := ['#'] + s[1..];
      assert hs[1..] == s[1..];
      CountIsWays(s[1..], g);
      CountIsWays(hs, g);
      WaysQuery(s, g);
      CountQuery(s, g);
    } else {
      CountHashLead(s, g);
    }
  }

  /** The leading '.' case of CountIsWays: the dot is skipped. */
  lemma CountDotLead(s: string, g: seq<nat>)
    requires Valid(s) && s != [] && s[0] == '.' && g != []
    requires Count(s[1..], g) == Ok(Ways(s[1..], g))
    ensures Count(s, g) == Ok(Ways(s, g))
  {
    SplitFirst(s, [], g);
    assert [] + ['.'] == ['.'];
    DotPrefix(Completions(s[1..]), g);
  }

  /** The completions of a row with a leading unknown are those with a '.'
      there and those with a '#' there. */
  lemma WaysQuery(s: string, g: seq<nat>)
    requires Valid(s) && s != [] && s[0] == '?'
    ensures Ways(s, g) == Ways(s[1..], g) + Ways(['#'] + s[1..], g)
  {
    var rest := s[1..];
    var hs := ['#'] + rest;
    var l := Completions(rest);
    var d, h := CountRuns(l, ['.'], g), CountRuns(l, ['#'], g);
    assert Ways(s, g) == d + h by {
      SplitFirst(s, [], g);
      assert [] + ['.'] == ['.'] && [] + ['#'] == ['#'];
    }
    assert d == Ways(rest, g) by {
      DotPrefix(l, g);
    }
    assert Ways(hs, g) == h by {
      assert hs[1..] == rest;
      assert Valid(hs) by {
        forall i | 0 <= i < |hs|
          ensures hs[i] == '.' || hs[i] == '#' || hs[i] == '?'
        {
          if i > 0 {
            assert hs[i] == rest[i - 1];
          }
        }
      }
      SplitFirst(hs, [], g);
      assert [] + ['#'] == ['#'];
    }
  }

  /** A leading unknown adds the counts of its two replacements. */
  lemma CountQuery(s: string, g: seq<nat>)
    requires s != [] && s[0] == '?' && g != []
    requires Count(s[1..], g).Ok? && Count(['#'] + s[1..], g).Ok?
    ensures Count(s, g) == Ok(Count(s[1..], g).value + Count(['#'] + s[1..], g).value)
  {
  }

  /** The leading '#' case of CountIsWays. */
  lemma {:induction false} CountHashLead(s: string, g: seq<nat>)
    requires Valid(s) && s != [] && s[0] == '#' && g != []
    ensures Count(s, g) == Ok(Ways(s, g))
    decreases |s|, 0, 0
  {
    var g0 := g[0];
    if 0 < g0 < |s| && !HasDot(s[..g0]) && s[g0] != '#' {
      CountIsWays(s[g0 + 1..], g[1..]);
    }
    HashLeadStep(s, g);
  }

  /** The step of CountHashLead past the recursive call: the run of g[0]
      at the front is matched the way `count` matches it. */
  lemma HashLeadStep(s: string, g: seq<nat>)
    requires Valid(s) && s != [] && s[0] == '#' && g != []
    requires 0 < g[0] < |s| && !HasDot(s[..g[0]]) && s[g[0]] != '#' ==>
      Count(s[g[0] + 1..], g[1..]) == Ok(Ways(s[g[0] + 1..], g[1..]))
    ensures Count(s, g) == Ok(Ways(s, g))
  {
    var l := Completions(s[1..]);
    assert Ways(s, g) == CountRuns(l, Hashes(1), g) by {
      SplitFirst(s, [], g);
      assert [] + ['#'] == Hashes(1);
    }
    if g[0] == 0 {
      HashLeadEmptyRun(s, g);
    } else {
      HashLeadRun(s, g);
    }
  }

  /** A group of 0 cannot follow a leading '#'. */
  lemma HashLeadEmptyRun(s: string, g: seq<nat>)
    requires s != [] && s[0] == '#' && g != [] && g[0] == 0
    ensures Count(s, g) == Ok(0)
    ensures CountRuns(Completions(s[1..]), Hashes(1), g) == 0
  {
    var l := Completions(s[1..]);
    forall t | t in l
      ensures Runs(Hashes(1) + t) != g
    {
      RunsAfterHashes(1, t);
    }
    CountRunsNone(l, Hashes(1), g);
  }

  /** A group g[0] >= 1 after a leading '#': the completions counted by
      WaysInRun from the first run cell on. */
  lemma HashLeadRun(s: string, g: seq<nat>)
    requires Valid(s) && s != [] && s[0] == '#' && g != [] && g[0] > 0
    requires g[0] < |s| && !HasDot(s[..g[0]]) && s[g[0]] != '#' ==>
      Count(s[g[0] + 1..], g[1..]) == Ok(Ways(s[g[0] + 1..], g[1..]))
    ensures Count(s, g) == Ok(CountRuns(Completions(s[1..]), Hashes(1), g))
  {
    var rest := s[1..];
    var g0, gs := g[0], g[1..];
    assert g == [g0] + gs;
    assert CountRuns(Completions(rest), Hashes(1), g) == RunTail(rest, g0 - 1, gs) by {
      WaysInRun(rest, 1, g0, gs);
    }
    CountHashFront(s, g);
    if |s| >= g0 {
      SliceFacts(s, g0);
      assert s[..g0][0] == '#';
    }
  }

  /** `count` from a leading '#', as its branches read. */
  lemma CountHashFront(s: string, g: seq<nat>)
    requires s != [] && s[0] == '#' && g != []
    ensures Count(s, g) ==
      if |s| < g[0] || HasDot(s[..g[0]]) then Ok(0)
      else if |s| == g[0] then Ok(if |g| == 1 then 1 else 0)
      else if s[g[0]] == '#' then Ok(0)
      else Count(s[g[0] + 1..], g[1..])
  {
  }

  // ---------------------------------------------------------------------
  // The memo table.

  /** The table maps a (springs, groups) key, the pair the source writes
      as one string, to its count; every entry holds the count. */
  predicate Cached(cache: map<(string, seq<nat>), nat>)
  {
    forall k :: k in cache ==> Count(k.0, k.1) == Ok(cache[k])
  }

  /** `count` with its memo table: a key found is answered from the table,
      and a computed count is stored before it is returned. The table never
      changes an answer. */
  method CountMemo(s: string, g: seq<nat>, cache: map<(string, seq<nat>), nat>)
    returns (r: Result<nat>, cache': map<(string, seq<nat>), nat>)
    requires Cached(cache)
    ensures r == Count(s, g)
    ensures Cached(cache')
    ensures r.Ok? ==> (s, g) in cache'
    decreases |s|, if s != [] && s[0] == '?' then 1 else 0
  {
    if (s, g) in cache {
      return Ok(cache[(s, g)]), cache;
    }
    cache' := cache;
    var ret: nat;
    if s == [] {
      ret := if g == [] then 1 else 0;
    } else if g == [] {
      ret := if HasHash(s) then 0 else 1;
    } else if s[0] == '.' {
      r, cache' := CountMemo(s[1..], g, cache');
      if r.Err? {
        return;
      }
      ret := r.value;
    } else if s[0] == '?' {
      var a, b;
      a, cache' := CountMemo(s[1..], g, cache');
      if a.Err? {
        return a, cache';
      }
      b, cache' := CountMemo(['#'] + s[1..], g, cache');
      if b.Err? {
        return b, cache';
      }
      ret := a.value + b.value;
    } else if s[0] == '#' {
      var g0 := g[0];
      if |s| < g0 {
        ret := 0;
      } else if HasDot(s[..g0]) {
        ret := 0;
      } else if |s| == g0 {
        ret := if |g| == 1 then 1 else 0;
      } else if s[g0] == '#' {
        ret := 0;
      } else {
        r, cache' := CountMemo(s[g0 + 1..], g[1..], cache');
        if r.Err? {
          return;
        }
        ret := r.value;
      }
    } else {
      return Err(InvalidInput), cache';
    }
    cache' := cache'[(s, g) := ret];
    r := Ok(ret);
  }

  // ---------------------------------------------------------------------
  // The two parts.

  /** The sum of the rows' counts, failing at the first failing row: it fails only with the invalid-input
      error, never on rows of '.', '#' and '?', and each row's count is at
      most the sum. */
  function Total(rows: seq<Row>): (r: Result<nat>)
    ensures r.Err? ==> r == Err(InvalidInput)
    ensures (forall i :: 0 <= i < |rows| ==> Valid(rows[i].springs)) ==> r.Ok?
    ensures r.Ok? ==> forall i :: 0 <= i < |rows| ==>
      Count(rows[i].springs, rows[i].groups).Ok? && Count(rows[i].springs, rows[i].groups).value <= r.value
  {
    if rows == [] then Ok(0)
    else
      var t :- Total(rows[..|rows| - 1]);
      var c :- Count(rows[|rows| - 1].springs, rows[|rows| - 1].groups);
      Ok(t + c)
  }

  /** Part 1: each row's count as it stands. */
  function Part1(rows: seq<Row>): (r: Result<nat>)
    ensures r.Err? ==> r == Err(InvalidInput)
    ensures (forall i :: 0 <= i < |rows| ==> Valid(rows[i].springs)) ==> r.Ok?
    ensures r.Ok? ==> forall i :: 0 <= i < |rows| ==>
      Count(rows[i].springs, rows[i].groups).Ok? && Count(rows[i].springs, rows[i].groups).value <= r.value
  {
    Total(rows)
  }

  /** Part 2's row: five copies of the springs joined by '?', and five
      copies of the groups. */
  function Unfold(r: Row): Row
  {
    var s := r.springs;
    var g := r.groups;
    Row(s + ['?'] + s + ['?'] + s + ['?'] + s + ['?'] + s, g + g + g + g + g)
  }

  /** n copies of s joined by sep. */
  function Joined(s: string, sep: char, n: nat): (r: string)
    requires n >= 1
    ensures |r| == n * |s| + n - 1
  {
    if n == 1 then s else Joined(s, sep, n - 1) + [sep] + s
  }

  /** n copies of g, one after another. */
  function Copies(g: seq<nat>, n: nat): (r: seq<nat>)
    ensures |r| == n * |g|
  {
    if n == 0 then [] else Copies(g, n - 1) + g
  }

  /** The unfolded row is five copies of the springs joined by '?' and
      five copies of the groups. */
  lemma UnfoldIsFiveCopies(r: Row)
    ensures Unfold(r) == Row(Joined(r.springs, '?', 5), Copies(r.groups, 5))
  {
    var s, g := r.springs, r.groups;
    assert Joined(s, '?', 2) == s + ['?'] + s;
    assert Joined(s, '?', 3) == s + ['?'] + s + ['?'] + s;
    assert Joined(s, '?', 4) == s + ['?'] + s + ['?'] + s + ['?'] + s;
    assert Copies(g, 1) == g;
    assert Copies(g, 2) == g + g;
    assert Copies(g, 3) == g + g + g;
    assert Copies(g, 4) == g + g + g + g;
  }

  function UnfoldAll(rows: seq<Row>): (r: seq<Row>)
    ensures |r| == |rows| && forall i :: 0 <= i < |rows| ==> r[i] == Unfold(rows[i])
  {
    seq(|rows|, i requires 0 <= i < |rows| => Unfold(rows[i]))
  }

  /** Part 2: each row unfolded five times. Unfolding keeps a row of '.',
      '#' and '?' valid, so part 2 fails only where part 1 could. */
  function Part2(rows: seq<Row>): (r: Result<nat>)
    ensures r.Err? ==> r == Err(InvalidInput)
    ensures (forall i :: 0 <= i < |rows| ==> Valid(rows[i].springs)) ==> r.Ok?
    ensures r.Ok? ==> forall i :: 0 <= i < |rows| ==>
      Count(Unfold(rows[i]).springs, Unfold(rows[i]).groups).Ok? &&
      Count(Unfold(rows[i]).springs, Unfold(rows[i]).groups).value <= r.value
  {
    UnfoldAllValid(rows);
    Total(UnfoldAll(rows))
  }

  /** Unfolding keeps every row valid. */
  lemma UnfoldAllValid(rows: seq<Row>)
    ensures (forall i :: 0 <= i < |rows| ==> Valid(rows[i].springs)) ==>
      forall i :: 0 <= i < |rows| ==> Valid(UnfoldAll(rows)[i].springs)
  {
    if forall i :: 0 <= i < |rows| ==> Valid(rows[i].springs) {
      forall i | 0 <= i < |rows|
        ensures Valid(UnfoldAll(rows)[i].springs)
      {
        UnfoldValid(rows[i]);
      }
    }
  }

  /** Unfolding adds only copies of the row and '?' separators. */
  lemma UnfoldValid(r: Row)
    requires Valid(r.springs)
    ensures Valid(Unfold(r).springs)
  {
    var s := r.springs;
    var q := ['?'];
    assert Valid(q);
    ValidConcat(s, q);
    ValidConcat(s + q, s);
    ValidConcat(s + q + s, q);
    ValidConcat(s + q + s + q, s);
    ValidConcat(s + q + s + q + s, q);
    ValidConcat(s + q + s + q + s + q, s);
    ValidConcat(s + q + s + q + s + q + s, q);
    ValidConcat(s + q + s + q + s + q + s + q, s);
  }

  lemma ValidConcat(a: string, b: string)
    requires Valid(a) && Valid(b)
    ensures Valid(a + b)
  {
    forall i | 0 <= i < |a + b|
      ensures (a + b)[i] == '.' || (a + b)[i] == '#' || (a + b)[i] == '?'
    {
      if i >= |a| {
        assert (a + b)[i] == b[i - |a|];
      }
    }
  }
}
