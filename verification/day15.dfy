/** Day 15 (day15.ts): the HASH algorithm, and the HASHMAP procedure that
    files labelled lenses into 256 boxes. */
module Day15 {
  import opened Outcomes

  /** One step: the whole step text, the lens label, the operation
      character and the focal length (given with '='). */
  datatype Op = Op(str: string, lens: string, op: char, focal: int)

  /** A box: (label, focal length) pairs in slot order. */
  type Box = seq<(string, int)>

  const BoxCount := 256

  function BadOp(op: char): string
  {
    "Bad op: " + [op]
  }

  // ---------------------------------------------------------------------
  // hash

  /** The character code `charCodeAt` reads. */
  function Code(c: char): nat
  {
    c as nat
  }

  /** The HASH value defined character by character from the end: the
      empty string hashes to 0 and appending c maps v to
      ((v + code(c)) * 17) mod 256. */
  function HashOf(s: string): (h: nat)
    ensures h < 256
  {
    if s == [] then 0 else ((HashOf(s[..|s| - 1]) + Code(s[|s| - 1])) * 17) % 256
  }

  /** `hash(s)`: the loop adds the code, multiplies by 17 and reduces
      modulo 256 for each character in turn; the value is the HASH value
      and fits a byte. */
  method Hash(s: string) returns (val: int)
    ensures val == HashOf(s)
    ensures 0 <= val < 256
  {
    val := 0;
    var i := 0;
    while i < |s|
      invariant 0 <= i <= |s|
      invariant val == HashOf(s[..i])
    {
      assert s[..i + 1][..i] == s[..i];
      var c := Code(s[i]);
      val := val + c;
      val := val * 17;
      val := val % 256;
      i := i + 1;
    }
    assert s[..i] == s;
  }

  /** The HASH of a concatenation continues from the HASH of the first
      part: the value after a prefix is all the loop remembers. */
  lemma {:induction false} HashAppend(s: string, t: string)
    ensures HashOf(s + t) == HashFrom(HashOf(s), t)
    decreases |t|
  {
    if t != [] {
      var t' := t[..|t| - 1];
      HashAppend(s, t');
      assert (s + t)[..|s + t| - 1] == s + t';
    } else {
      assert s + t == s;
    }
  }

  /** The loop's value after reading t, starting from v. */
  function HashFrom(v: nat, t: string): nat
  {
    if t == [] then v else ((HashFrom(v, t[..|t| - 1]) + Code(t[|t| - 1])) * 17) % 256
  }

  /** Part 1: the sum of the HASH values of the steps. */
  function Part1(inp: seq<Op>): (r: int)
    ensures 0 <= r <= 255 * |inp|
    ensures |inp| == 1 ==> r == HashOf(inp[0].str)
  {
    if inp == [] then 0 else Part1(inp[..|inp| - 1]) + HashOf(inp[|inp| - 1].str)
  }


  // ---------------------------------------------------------------------
  // Box

  /** The first slot holding label s, as `findIndex`; -1 when none does. */
  function FindIndex(b: Box, s: string): (k: int)
    ensures -1 <= k < |b|
    ensures k >= 0 ==> b[k].0 == s && forall j :: 0 <= j < k ==> b[j].0 != s
    ensures k == -1 ==> forall j :: 0 <= j < |b| ==> b[j].0 != s
  {
    if b == [] then -1
    else if b[0].0 == s then 0
    else var k := FindIndex(b[1..], s); if k == -1 then -1 else k + 1
  }

  /** `add(s, len)`: a new label goes in a new last slot; a present label
      has its focal length changed in place. */
  function Add(b: Box, s: string, len: int): Box
  {
    var cur := FindIndex(b, s);
    if cur == -1 then b + [(s, len)] else b[cur := (s, len)]
  }

  /** `remove(s)`: the slot of the label is spliced out; without one,
      nothing happens. */
  function Remove(b: Box, s: string): Box
  {
    var cur := FindIndex(b, s);
    if cur != -1 then b[..cur] + b[cur + 1..] else b
  }

  /** No label fills two slots. */
  predicate Unique(b: Box)
  {
    forall i, j :: 0 <= i < j < |b| ==> b[i].0 != b[j].0
  }

  /** The labels in a box. */
  function Labels(b: Box): set<string>
  {
    set k | 0 <= k < |b| :: b[k].0
  }

  /** The box read as a map from label to focal length. */
  function Contents(b: Box): map<string, int>
  {
    if b == [] then map[] else Contents(b[..|b| - 1])[b[|b| - 1].0 := b[|b| - 1].1]
  }

  lemma {:induction false} ContentsAt(b: Box, k: nat)
    requires Unique(b) && k < |b|
    ensures b[k].0 in Contents(b) && Contents(b)[b[k].0] == b[k].1
    decreases |b|
  {
    if k < |b| - 1 {
      ContentsAt(b[..|b| - 1], k);
    }
  }

  /** The map's keys are the box's labels. */
  lemma {:induction false} ContentsKeys(b: Box)
    ensures Contents(b).Keys == Labels(b)
    decreases |b|
  {
    if b != [] {
      var init := b[..|b| - 1];
      ContentsKeys(init);
      forall t
        ensures t in Labels(b) <==> t in Labels(init) || t == b[|b| - 1].0
      {
        if t in Labels(b) && t != b[|b| - 1].0 {
          var k :| 0 <= k < |b| && b[k].0 == t;
          assert init[k].0 == t;
        }
        if t in Labels(init) {
          var k :| 0 <= k < |init| && init[k].0 == t;
          assert b[k].0 == t;
        }
      }
    }
  }

  /** Two boxes with the same labels, each label with one focal length in
      both, read as the same map. */
  lemma SameContents(b: Box, r: Box, m: map<string, int>)
    requires Unique(b) && Unique(r)
    requires Labels(r) == m.Keys
    requires forall k :: 0 <= k < |r| ==> m[r[k].0] == r[k].1
    ensures Contents(r) == m
  {
    ContentsKeys(r);
    forall t | t in m
      ensures Contents(r)[t] == m[t]
    {
      var k :| 0 <= k < |r| && r[k].0 == t;
      ContentsAt(r, k);
    }
  }

  /** Adding puts the label in a new last slot or updates its own slot,
      keeping every other slot and the order, and labels stay unique. */
  lemma AddShape(b: Box, s: string, len: int)
    requires Unique(b)
    ensures var r := Add(b, s, len);
      Unique(r) && Labels(r) == Labels(b) + {s} &&
      (FindIndex(b, s) == -1 ==> r == b + [(s, len)]) &&
      (FindIndex(b, s) != -1 ==> (|r| == |b| && r[FindIndex(b, s)] == (s, len) &&
        forall j :: 0 <= j < |b| && j != FindIndex(b, s) ==> r[j] == b[j]))
  {
    var r := Add(b, s, len);
    var cur := FindIndex(b, s);
    forall t
      ensures t in Labels(r) <==> t in Labels(b) || t == s
    {
      if t in Labels(r) {
        var k :| 0 <= k < |r| && r[k].0 == t;
        if t != s {
          assert b[k].0 == t;
        }
      }
      if t in Labels(b) {
        var k :| 0 <= k < |b| && b[k].0 == t;
        assert r[k].0 == t;
      }
      if t == s {
        assert r[if cur == -1 then |b| else cur].0 == s;
      }
    }
  }

  /** The box now maps the label to len and every other label as
      before. */
  lemma AddContents(b: Box, s: string, len: int)
    requires Unique(b)
    ensures Contents(Add(b, s, len)) == Contents(b)[s := len]
  {
    var r := Add(b, s, len);
    var m := Contents(b)[s := len];
    assert Unique(r) && Labels(r) == Labels(b) + {s} by {
      AddShape(b, s, len);
    }
    assert Labels(r) == m.Keys by {
      ContentsKeys(b);
    }
    forall k | 0 <= k < |r|
      ensures r[k].0 in m && m[r[k].0] == r[k].1
    {
      AddSlot(b, s, len, k);
    }
    SameContents(b, r, m);
  }

  lemma AddSlot(b: Box, s: string, len: int, k: nat)
    requires Unique(b) && k < |Add(b, s, len)|
    ensures var r := Add(b, s, len);
      r[k].0 in Contents(b)[s := len] && Contents(b)[s := len][r[k].0] == r[k].1
  {
    var r := Add(b, s, len);
    AddShape(b, s, len);
    if r[k].0 != s {
      ContentsAt(b, k);
    }
  }

  /** Removing drops the label's slot and keeps the others in order, or
      does nothing when the label is absent. */
  lemma RemoveSlots(b: Box, s: string)
    ensures var r := Remove(b, s);
      (FindIndex(b, s) == -1 ==> r == b) &&
      (FindIndex(b, s) != -1 ==> (|r| == |b| - 1 &&
        forall j :: 0 <= j < |r| ==> r[j] == if j < FindIndex(b, s) then b[j] else b[j + 1]))
  {
  }

  /** Labels stay unique, and only s leaves. */
  lemma RemoveShape(b: Box, s: string)
    requires Unique(b)
    ensures Unique(Remove(b, s)) && Labels(Remove(b, s)) == Labels(b) - {s}
  {
    var r := Remove(b, s);
    var cur := FindIndex(b, s);
    RemoveSlots(b, s);
    if cur != -1 {
      forall t
        ensures t in Labels(r) <==> t in Labels(b) && t != s
      {
        RemovedLabel(b, s, r, cur, t);
      }
      forall i, j | 0 <= i < j < |r|
        ensures r[i].0 != r[j].0
      {
        var bi, bj := if i < cur then i else i + 1, if j < cur then j else j + 1;
        assert r[i] == b[bi] && r[j] == b[bj] && bi < bj;
      }
    }
  }

  lemma RemovedLabel(b: Box, s: string, r: Box, cur: nat, t: string)
    requires Unique(b) && cur < |b| && b[cur].0 == s && r == b[..cur] + b[cur + 1..]
    ensures t in Labels(r) <==> t in Labels(b) && t != s
  {
    assert forall j :: 0 <= j < |r| ==> r[j] == if j < cur then b[j] else b[j + 1];
    if t in Labels(r) {
      var k :| 0 <= k < |r| && r[k].0 == t;
      assert b[if k < cur then k else k + 1].0 == t;
    }
    if t in Labels(b) && t != s {
      var k :| 0 <= k < |b| && b[k].0 == t;
      assert r[if k < cur then k else k - 1].0 == t;
    }
  }

  /** The box now maps every label but s as before, and s not at all. */
  lemma RemoveContents(b: Box, s: string)
    requires Unique(b)
    ensures Contents(Remove(b, s)) == Contents(b) - {s}
  {
    var r := Remove(b, s);
    var m := Contents(b) - {s};
    var cur := FindIndex(b, s);
    RemoveShape(b, s);
    RemoveSlots(b, s);
    ContentsKeys(b);
    forall k | 0 <= k < |r|
      ensures m[r[k].0] == r[k].1
    {
      var kb := if cur == -1 || k < cur then k else k + 1;
      assert r[k] == b[kb];
      ContentsAt(b, kb);
    }
    SameContents(b, r, m);
  }

  // ---------------------------------------------------------------------
  // The procedure and part 2

  /** One step on the boxes: only box hash(lens) is touched; an operation
      other than '-' and '=' raises. */
  function Apply(boxes: seq<Box>, o: Op): (r: Result<seq<Box>>)
    requires |boxes| == BoxCount
    ensures r.Ok? <==> o.op == '-' || o.op == '='
    ensures r.Err? ==> r == Err(BadOp(o.op))
    ensures r.Ok? ==>
      |r.value| == BoxCount &&
      forall b :: 0 <= b < BoxCount && b != HashOf(o.lens) ==> r.value[b] == boxes[b]
  {
    var h := HashOf(o.lens);
    if o.op == '-' then Ok(boxes[h := Remove(boxes[h], o.lens)])
    else if o.op == '=' then Ok(boxes[h := Add(boxes[h], o.lens, o.focal)])
    else Err(BadOp(o.op))
  }

  /** All the steps in order, from 256 empty boxes. */
  function Run(inp: seq<Op>): (r: Result<seq<Box>>)
    ensures r.Ok? ==> |r.value| == BoxCount
    ensures r.Ok? <==> forall i :: 0 <= i < |inp| ==> inp[i].op == '-' || inp[i].op == '='
  {
    if inp == [] then Ok(seq(BoxCount, _ => []))
    else
      var init := inp[..|inp| - 1];
      assert forall i :: 0 <= i < |init| ==> init[i] == inp[i];
      var boxes :- Run(init);
      Apply(boxes, inp[|inp| - 1])
  }

  /** Box b holds each label at most once, and only labels that hash to
      b. */
  predicate WellFiled(box: Box, b: int)
  {
    Unique(box) && forall t :: t in Labels(box) ==> HashOf(t) == b
  }

  /** A step leaves every box but box hash(lens) as it was, and keeps
      every box well filed. */
  lemma ApplyTouchesOne(boxes: seq<Box>, o: Op)
    requires |boxes| == BoxCount
    requires forall b :: 0 <= b < BoxCount ==> WellFiled(boxes[b], b)
    ensures Apply(boxes, o).Ok? <==> o.op == '-' || o.op == '='
    ensures Apply(boxes, o).Ok? ==> var r := Apply(boxes, o).value;
      |r| == BoxCount &&
      (forall b :: 0 <= b < BoxCount && b != HashOf(o.lens) ==> r[b] == boxes[b]) &&
      (forall b :: 0 <= b < BoxCount ==> WellFiled(r[b], b))
  {
    var h := HashOf(o.lens);
    AddShape(boxes[h], o.lens, o.focal);
    RemoveShape(boxes[h], o.lens);
  }

  /** Whatever the steps, every box stays well filed. */
  lemma {:induction false} RunWellFiled(inp: seq<Op>)
    ensures Run(inp).Ok? ==> forall b :: 0 <= b < BoxCount ==> WellFiled(Run(inp).value[b], b)
    decreases |inp|
  {
    if inp != [] {
      var init := inp[..|inp| - 1];
      RunWellFiled(init);
      var boxes := Run(init);
      if boxes.Ok? {
        ApplyTouchesOne(boxes.value, inp[|inp| - 1]);
      }
    } else {
      var r := Run(inp).value;
      assert forall b :: 0 <= b < BoxCount ==> r[b] == [];
    }
  }

  /** The focusing power of a box's slots 0 .. k - 1, box number bn. */
  function BoxPower(b: Box, bn: int, k: nat): int
    requires k <= |b|
  {
    if k == 0 then 0 else BoxPower(b, bn, k - 1) + (bn + 1) * k * b[k - 1].1
  }

  /** The focusing power of boxes 0 .. n - 1. */
  function Power(boxes: seq<Box>, n: nat): int
    requires n <= |boxes|
  {
    if n == 0 then 0 else Power(boxes, n - 1) + BoxPower(boxes[n - 1], n - 1, |boxes[n - 1]|)
  }

  /** Part 2: the focusing power after all the steps. */
  function Part2(inp: seq<Op>): (r: Result<int>)
    ensures r.Ok? <==> forall i :: 0 <= i < |inp| ==> inp[i].op == '-' || inp[i].op == '='
    ensures inp == [] ==> r == Ok(0)
  {
    var boxes :- Run(inp);
    PowerEmpty(boxes, BoxCount);
    Ok(Power(boxes, BoxCount))
  }

  /** Empty boxes have no focusing power. */
  lemma {:induction false} PowerEmpty(boxes: seq<Box>, n: nat)
    requires n <= |boxes|
    ensures (forall b :: 0 <= b < |boxes| ==> boxes[b] == []) ==> Power(boxes, n) == 0
  {
    if n > 0 {
      PowerEmpty(boxes, n - 1);
    }
  }

  /** Changing one box changes the power by that box's change alone. */
  lemma {:induction false} PowerUpdate(boxes: seq<Box>, h: nat, nb: Box, n: nat)
    requires h < |boxes| && n <= |boxes|
    ensures Power(boxes[h := nb], n) == Power(boxes, n) +
      (if h < n then BoxPower(nb, h, |nb|) - BoxPower(boxes[h], h, |boxes[h]|) else 0)
    decreases n
  {
    if n > 0 {
      PowerUpdate(boxes, h, nb, n - 1);
    }
  }

  /** The power of a box is linear in its box number: lens in slot k
      (counting from 1) with focal length f adds (bn + 1) * k * f. */
  lemma {:induction false} BoxPowerScales(b: Box, bn: int, k: nat)
    requires k <= |b|
    ensures BoxPower(b, bn, k) == (bn + 1) * BoxPower(b, 0, k)
    decreases k
  {
    if k > 0 {
      BoxPowerScales(b, bn, k - 1);
      var x, f := BoxPower(b, 0, k - 1), b[k - 1].1;
      assert (bn + 1) * k * f == (bn + 1) * (k * f);
      assert (bn + 1) * x + (bn + 1) * (k * f) == (bn + 1) * (x + 1 * k * f);
    }
  }
}
