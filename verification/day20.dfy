/** Day 20 (day20.ts): a network of modules passes high and low pulses
    through a FIFO queue. Flip-flops toggle on low pulses, conjunctions
    remember the last pulse from each input, the broadcaster forwards what
    it receives, and outputs nobody declares become terminals. Part 1
    presses the button 1000 times and multiplies the high and low pulse
    counts. */
module Day20 {
  import opened Outcomes

  /** The operator of a declaration: `broadcaster`, `%`, `&` or none. */
  datatype Op = Broadcast | Flip | Conj | Plain

  /** One parsed line: `op name -> rhs`. */
  datatype Decl = Decl(op: Op, name: string, rhs: seq<string>)

  /** A module with its outputs, the senders recorded as its inputs, and
      its own state: a flip-flop is on or off, a conjunction remembers the
      last pulse of each sender (`true` is high), and a terminal records
      whether it has seen a low pulse. */
  datatype Module =
    | Broadcaster(outputs: seq<string>, inputs: seq<string>)
    | FlipFlop(outputs: seq<string>, inputs: seq<string>, on: bool)
    | Conjunction(outputs: seq<string>, inputs: seq<string>, memory: map<string, bool>)
    | Terminal(outputs: seq<string>, inputs: seq<string>, sawLow: bool)

  type Modules = map<string, Module>

  /** A pulse in flight; `pulse` is `true` for high. */
  datatype Event = Event(from: string, to: string, pulse: bool)

  /** The `Queue` object: the modules, the pending events and the three
      counters. */
  datatype Queue = Queue(mods: Modules, events: seq<Event>, count: nat, high: nat, low: nat)

  /** The error `tick` raises when an event is addressed to no module. */
  const MissingModule := "AssertionError"

  // ---------------------------------------------------------------------
  // Loading the network
  // ---------------------------------------------------------------------

  /** `factory`: a new module of the operator's kind, off and with no
      inputs, given its outputs. */
  function Factory(op: Op, outputs: seq<string>): (m: Module)
    ensures m.outputs == outputs && Pristine(m)
    ensures Kind(m) == op
  {
    match op
    case Broadcast => Broadcaster(outputs, [])
    case Flip => FlipFlop(outputs, [], false)
    case Conj => Conjunction(outputs, [], map[])
    case Plain => Terminal(outputs, [], false)
  }

  function Kind(m: Module): Op
  {
    match m
    case Broadcaster(_, _) => Broadcast
    case FlipFlop(_, _, _) => Flip
    case Conjunction(_, _, _) => Conj
    case Terminal(_, _, _) => Plain
  }

  /** A module as `factory` makes it: no inputs, off, and an empty memory. */
  predicate Pristine(m: Module)
  {
    && m.inputs == []
    && (m.FlipFlop? ==> !m.on)
    && (m.Conjunction? ==> m.memory == map[])
    && (m.Terminal? ==> !m.sawLow)
  }

  /** The first loop of `load`: create every declared module, later
      declarations of a name replacing earlier ones. */
  function Declare(mods: Modules, inp: seq<Decl>): Modules
    decreases |inp|
  {
    if inp == [] then mods
    else Declare(mods[inp[0].name := Factory(inp[0].op, inp[0].rhs)], inp[1..])
  }

  /** One output of the second loop of `load`: an undeclared output becomes
      a new terminal, a conjunction starts remembering a low pulse from the
      sender, and the sender is appended to the output's inputs. */
  function Attach(mods: Modules, sender: string, output: string): Modules
  {
    var m := if output in mods then mods[output] else Terminal([], [], false);
    var m' := if m.Conjunction? then m.(memory := m.memory[sender := false]) else m;
    mods[output := m'.(inputs := m'.inputs + [sender])]
  }

  function Wire(mods: Modules, sender: string, outputs: seq<string>): Modules
    decreases |outputs|
  {
    if outputs == [] then mods else Wire(Attach(mods, sender, outputs[0]), sender, outputs[1..])
  }

  function Connect(mods: Modules, inp: seq<Decl>): Modules
    decreases |inp|
  {
    if inp == [] then mods else Connect(Wire(mods, inp[0].name, inp[0].rhs), inp[1..])
  }

  /** `load`: declare every module, then wire every output. */
  function Load(inp: seq<Decl>): (r: Modules)
    ensures Loaded(inp, r)
  {
    LoadModules(inp);
    Connect(Declare(map[], inp), inp)
  }

  // Reference definitions: who sends to whom.

  /** `sender` once for every occurrence of `k` among `outputs`. */
  function Occurrences(sender: string, outputs: seq<string>, k: string): seq<string>
    decreases |outputs|
  {
    if outputs == [] then []
    else (if outputs[0] == k then [sender] else []) + Occurrences(sender, outputs[1..], k)
  }

  /** Every declaration that lists `k` as an output, in input order, once
      per listing. */
  function Senders(inp: seq<Decl>, k: string): seq<string>
    decreases |inp|
  {
    if inp == [] then [] else Occurrences(inp[0].name, inp[0].rhs, k) + Senders(inp[1..], k)
  }

  /** A memory after a low pulse is remembered from each of `senders`. */
  function Remember(memory: map<string, bool>, senders: seq<string>): map<string, bool>
    decreases |senders|
  {
    if senders == [] then memory else Remember(memory[senders[0] := false], senders[1..])
  }

  function InputsOf(mods: Modules, k: string): seq<string>
  {
    if k in mods then mods[k].inputs else []
  }

  /** Same kind, same outputs, same on/off state. */
  predicate Like(a: Module, b: Module)
  {
    && Kind(a) == Kind(b)
    && a.outputs == b.outputs
    && (a.FlipFlop? ==> a.on == b.on)
    && (a.Terminal? ==> a.sawLow == b.sawLow)
  }

  /** Which senders a step of the second loop adds to each name: one
      output, all outputs of one sender, all declarations, or one step after
      another. */
  datatype Wiring =
    | One(sender: string, output: string)
    | Outs(sender: string, outputs: seq<string>)
    | Decls(inp: seq<Decl>)
    | Then(first: Wiring, second: Wiring)

  function Added(w: Wiring, k: string): seq<string>
  {
    match w
    case One(sender, output) => if k == output then [sender] else []
    case Outs(sender, outputs) => Occurrences(sender, outputs, k)
    case Decls(inp) => Senders(inp, k)
    case Then(first, second) => Added(first, k) + Added(second, k)
  }

  /** How wiring changes the modules: the added senders are appended to the
      inputs of each name (and remembered low by a conjunction), a name
      gains a module only when something sends to it, that module is a new
      terminal, and nothing else changes. */
  ghost predicate Grown(before: Modules, after: Modules, w: Wiring)
  {
    && (forall k :: k in after <==> k in before || Added(w, k) != [])
    && (forall k :: k in after ==> after[k].inputs == InputsOf(before, k) + Added(w, k))
    && (forall k :: k in before ==> Like(before[k], after[k]))
    && (forall k :: k in after && k !in before ==>
          after[k].Terminal? && after[k].outputs == [] && !after[k].sawLow)
    && (forall k :: k in before && before[k].Conjunction? ==>
          after[k].memory == Remember(before[k].memory, Added(w, k)))
  }

  lemma {:induction false} RememberAppend(memory: map<string, bool>, a: seq<string>, b: seq<string>)
    ensures Remember(memory, a + b) == Remember(Remember(memory, a), b)
    decreases |a|
  {
    if a == [] {
      assert a + b == b;
    } else {
      assert (a + b)[0] == a[0];
      assert (a + b)[1..] == a[1..] + b;
      RememberAppend(memory[a[0] := false], a[1..], b);
    }
  }

  lemma GrownTrans(a: Modules, b: Modules, c: Modules, x: Wiring, y: Wiring)
    requires Grown(a, b, x) && Grown(b, c, y)
    ensures Grown(a, c, Then(x, y))
  {
    GrownTransKeys(a, b, c, x, y);
    GrownTransLike(a, b, c, x, y);
    GrownTransNew(a, b, c, x, y);
    GrownTransInputs(a, b, c, x, y);
    GrownTransMemory(a, b, c, x, y);
  }

  lemma GrownTransKeys(a: Modules, b: Modules, c: Modules, x: Wiring, y: Wiring)
    requires Grown(a, b, x) && Grown(b, c, y)
    ensures forall k :: k in c <==> k in a || Added(Then(x, y), k) != []
  {
    forall k
      ensures k in c <==> k in a || Added(Then(x, y), k) != []
    {
      assert Added(Then(x, y), k) != [] <==> Added(x, k) != [] || Added(y, k) != [];
    }
  }

  lemma GrownTransLike(a: Modules, b: Modules, c: Modules, x: Wiring, y: Wiring)
    requires Grown(a, b, x) && Grown(b, c, y)
    ensures forall k :: k in a ==> Like(a[k], c[k])
  {
    forall k | k in a
      ensures Like(a[k], c[k])
    {
      assert Like(a[k], b[k]) && Like(b[k], c[k]);
    }
  }

  lemma GrownTransNew(a: Modules, b: Modules, c: Modules, x: Wiring, y: Wiring)
    requires Grown(a, b, x) && Grown(b, c, y)
    ensures forall k :: k in c && k !in a ==> c[k].Terminal? && c[k].outputs == [] && !c[k].sawLow
  {
    forall k | k in c && k !in a
      ensures c[k].Terminal? && c[k].outputs == [] && !c[k].sawLow
    {
      if k in b {
        assert Like(b[k], c[k]);
      }
    }
  }

  lemma GrownTransInputs(a: Modules, b: Modules, c: Modules, x: Wiring, y: Wiring)
    requires Grown(a, b, x) && Grown(b, c, y)
    ensures forall k :: k in c ==> c[k].inputs == InputsOf(a, k) + Added(Then(x, y), k)
  {
    forall k | k in c
      ensures c[k].inputs == InputsOf(a, k) + Added(Then(x, y), k)
    {
      var before, mid, last := InputsOf(a, k), Added(x, k), Added(y, k);
      assert c[k].inputs == InputsOf(b, k) + last;
      assert InputsOf(b, k) == before + mid;
      ConcatAssoc(before, mid, last);
    }
  }

  lemma ConcatAssoc<T>(a: seq<T>, b: seq<T>, c: seq<T>)
    ensures (a + b) + c == a + (b + c)
  {
  }

  lemma GrownTransMemory(a: Modules, b: Modules, c: Modules, x: Wiring, y: Wiring)
    requires Grown(a, b, x) && Grown(b, c, y)
    ensures forall k :: k in a && a[k].Conjunction? ==>
              c[k].memory == Remember(a[k].memory, Added(Then(x, y), k))
  {
    forall k | k in a && a[k].Conjunction?
      ensures c[k].memory == Remember(a[k].memory, Added(Then(x, y), k))
    {
      assert b[k].Conjunction?;
      RememberAppend(a[k].memory, Added(x, k), Added(y, k));
    }
  }

  /** Wirings that add the same senders everywhere grow alike. */
  lemma GrownSame(a: Modules, c: Modules, x: Wiring, y: Wiring)
    requires Grown(a, c, x)
    requires forall k :: Added(x, k) == Added(y, k)
    ensures Grown(a, c, y)
  {
  }

  /** Wiring nothing changes nothing. */
  lemma GrownNone(mods: Modules, w: Wiring)
    requires forall k :: Added(w, k) == []
    ensures Grown(mods, mods, w)
  {
    assert forall k :: InputsOf(mods, k) + Added(w, k) == InputsOf(mods, k);
  }

  lemma AttachGrows(mods: Modules, sender: string, output: string)
    ensures Grown(mods, Attach(mods, sender, output), One(sender, output))
  {
    var after := Attach(mods, sender, output);
    forall k | k in mods && mods[k].Conjunction?
      ensures after[k].memory == Remember(mods[k].memory, Added(One(sender, output), k))
    {
      if k == output {
        assert [sender][1..] == [];
      }
    }
  }

  lemma {:induction false} WireGrows(mods: Modules, sender: string, outputs: seq<string>)
    ensures Grown(mods, Wire(mods, sender, outputs), Outs(sender, outputs))
    decreases |outputs|
  {
    if outputs == [] {
      GrownNone(mods, Outs(sender, outputs));
    } else {
      var mid := Attach(mods, sender, outputs[0]);
      AttachGrows(mods, sender, outputs[0]);
      WireGrows(mid, sender, outputs[1..]);
      GrownTrans(mods, mid, Wire(mid, sender, outputs[1..]), One(sender, outputs[0]), Outs(sender, outputs[1..]));
      GrownSame(mods, Wire(mods, sender, outputs),
                Then(One(sender, outputs[0]), Outs(sender, outputs[1..])), Outs(sender, outputs));
    }
  }

  lemma {:induction false} ConnectGrows(mods: Modules, inp: seq<Decl>)
    ensures Grown(mods, Connect(mods, inp), Decls(inp))
    decreases |inp|
  {
    if inp == [] {
      GrownNone(mods, Decls(inp));
    } else {
      var mid := Wire(mods, inp[0].name, inp[0].rhs);
      WireGrows(mods, inp[0].name, inp[0].rhs);
      ConnectGrows(mid, inp[1..]);
      GrownTrans(mods, mid, Connect(mid, inp[1..]), Outs(inp[0].name, inp[0].rhs), Decls(inp[1..]));
      GrownSame(mods, Connect(mods, inp), Then(Outs(inp[0].name, inp[0].rhs), Decls(inp[1..])), Decls(inp));
    }
  }

  /** A name is listed by some declaration exactly when it has senders. */
  lemma {:induction false} SendersListed(inp: seq<Decl>, k: string)
    ensures Senders(inp, k) != [] <==> exists i :: 0 <= i < |inp| && k in inp[i].rhs
    decreases |inp|
  {
    if inp != [] {
      OccurrencesListed(inp[0].name, inp[0].rhs, k);
      SendersListed(inp[1..], k);
      if exists i :: 0 <= i < |inp| && k in inp[i].rhs {
        var i :| 0 <= i < |inp| && k in inp[i].rhs;
        if i > 0 {
          assert k in inp[1..][i - 1].rhs;
        }
      }
      if exists i :: 0 <= i < |inp[1..]| && k in inp[1..][i].rhs {
        var i :| 0 <= i < |inp[1..]| && k in inp[1..][i].rhs;
        assert k in inp[i + 1].rhs;
      }
    }
  }

  lemma {:induction false} OccurrencesListed(sender: string, outputs: seq<string>, k: string)
    ensures Occurrences(sender, outputs, k) != [] <==> k in outputs
    ensures forall s :: s in Occurrences(sender, outputs, k) ==> s == sender
    decreases |outputs|
  {
    if outputs != [] {
      OccurrencesListed(sender, outputs[1..], k);
      assert outputs == [outputs[0]] + outputs[1..];
    }
  }

  /** The names the declarations define. */
  ghost predicate Declared(inp: seq<Decl>, k: string)
  {
    exists i :: 0 <= i < |inp| && inp[i].name == k
  }

  /** The declaration of `k` that counts: the last one. */
  predicate LastOf(inp: seq<Decl>, i: int)
  {
    0 <= i < |inp| && forall j :: i < j < |inp| ==> inp[j].name != inp[i].name
  }

  /** The first loop defines exactly the declared names (plus what was there
      before), each as its last declaration makes it. */
  lemma {:induction false} DeclareDefines(mods: Modules, inp: seq<Decl>)
    ensures forall k :: k in Declare(mods, inp) <==> k in mods || Declared(inp, k)
    ensures forall i :: LastOf(inp, i) ==>
              && inp[i].name in Declare(mods, inp)
              && Declare(mods, inp)[inp[i].name] == Factory(inp[i].op, inp[i].rhs)
    ensures forall k :: k in Declare(mods, inp) && !Declared(inp, k) ==> Declare(mods, inp)[k] == mods[k]
    ensures forall k :: k in Declare(mods, inp) ==>
              Pristine(Declare(mods, inp)[k]) || (k in mods && Declare(mods, inp)[k] == mods[k])
    decreases |inp|
  {
    if inp != [] {
      var mid := mods[inp[0].name := Factory(inp[0].op, inp[0].rhs)];
      DeclareDefines(mid, inp[1..]);
      var out := Declare(mods, inp);
      assert out == Declare(mid, inp[1..]);
      forall k | Declared(inp, k)
        ensures k in out
      {
        var i :| 0 <= i < |inp| && inp[i].name == k;
        if i > 0 {
          assert inp[1..][i - 1].name == k;
        } else {
          assert k in mid;
        }
      }
      forall k | Declared(inp[1..], k)
        ensures Declared(inp, k)
      {
        var i :| 0 <= i < |inp[1..]| && inp[1..][i].name == k;
        assert inp[i + 1].name == k;
      }
      forall i | LastOf(inp, i)
        ensures out[inp[i].name] == Factory(inp[i].op, inp[i].rhs)
      {
        if i > 0 {
          assert LastOf(inp[1..], i - 1);
        } else {
          assert forall j :: 0 <= j < |inp[1..]| ==> inp[1..][j] == inp[j + 1];
        }
      }
    }
  }

  /** What `load` promises of its result `out`: every output names a
      module, each module's inputs are its senders in input order, each
      conjunction remembers a low pulse from exactly its senders, an
      undeclared name is a terminal, and the last declaration of a name
      gives its module's kind and outputs. */
  ghost predicate Loaded(inp: seq<Decl>, out: Modules)
  {
    && (forall i, o :: 0 <= i < |inp| && o in inp[i].rhs ==> o in out)
    && (forall k :: k in out ==> out[k].inputs == Senders(inp, k))
    && (forall k, s :: k in out && out[k].Conjunction? ==>
          (s in out[k].memory <==> s in Senders(inp, k)))
    && (forall k, s :: k in out && out[k].Conjunction? && s in out[k].memory ==>
          !out[k].memory[s])
    && (forall k :: k in out && !Declared(inp, k) ==>
          out[k] == Terminal([], Senders(inp, k), false))
    && (forall i :: LastOf(inp, i) ==>
          && inp[i].name in out
          && Kind(out[inp[i].name]) == inp[i].op
          && out[inp[i].name].outputs == inp[i].rhs)
  }

  /** The two loops of `load` keep its promise. */
  lemma LoadModules(inp: seq<Decl>)
    ensures Loaded(inp, Connect(Declare(map[], inp), inp))
  {
    var decl := Declare(map[], inp);
    var out := Connect(decl, inp);
    DeclareDefines(map[], inp);
    ConnectGrows(decl, inp);
    forall i, o | 0 <= i < |inp| && o in inp[i].rhs
      ensures o in out
    {
      SendersListed(inp, o);
    }
    forall k | k in out
      ensures out[k].inputs == Senders(inp, k)
    {
      if k in decl {
        assert decl[k].inputs == [];
      }
    }
    forall k | k in out && out[k].Conjunction?
      ensures forall s :: s in out[k].memory <==> s in Senders(inp, k)
      ensures forall s :: s in out[k].memory ==> !out[k].memory[s]
    {
      if k in decl {
        assert decl[k].Conjunction?;
        RememberedLow(decl[k].memory, Senders(inp, k));
      }
    }
    forall k | k in out && !Declared(inp, k)
      ensures out[k] == Terminal([], Senders(inp, k), false)
    {
      assert k !in decl;
    }
  }

  /** Remembering senders in an empty memory gives each of them, and only
      them, a low pulse. */
  lemma {:induction false} RememberedLow(memory: map<string, bool>, senders: seq<string>)
    requires memory == map[]
    ensures forall s :: s in Remember(memory, senders) <==> s in senders
    ensures forall s :: s in Remember(memory, senders) ==> !Remember(memory, senders)[s]
  {
    RememberLow(memory, senders);
  }

  lemma {:induction false} RememberLow(memory: map<string, bool>, senders: seq<string>)
    ensures forall s :: s in Remember(memory, senders) <==> s in memory || s in senders
    ensures forall s :: s in Remember(memory, senders) ==>
              Remember(memory, senders)[s] == (if s in senders then false else memory[s])
    decreases |senders|
  {
    if senders != [] {
      RememberLow(memory[senders[0] := false], senders[1..]);
      assert senders == [senders[0]] + senders[1..];
    }
  }

  // ---------------------------------------------------------------------
  // Pulses
  // ---------------------------------------------------------------------

  /** `send`: one event from `name` to each output, in output order. */
  function Send(name: string, outputs: seq<string>, pulse: bool): (r: seq<Event>)
    ensures |r| == |outputs|
    ensures forall i :: 0 <= i < |r| ==> r[i] == Event(name, outputs[i], pulse)
  {
    seq(|outputs|, i requires 0 <= i < |outputs| => Event(name, outputs[i], pulse))
  }

  /** Whether every remembered pulse is high. */
  predicate AllHigh(memory: map<string, bool>)
  {
    forall s :: s in memory ==> memory[s]
  }

  datatype Reaction = Reaction(m: Module, sent: seq<Event>)

  /** `receive` of each kind of module, named `name`: the module's new state
      and the events it sends. */
  function Receive(m: Module, name: string, ev: Event): (r: Reaction)
    ensures Like(m, r.m) || m.FlipFlop? || m.Terminal?
    ensures Kind(r.m) == Kind(m) && r.m.outputs == m.outputs && r.m.inputs == m.inputs
    ensures r.sent == [] || |r.sent| == |m.outputs|
    ensures forall i :: 0 <= i < |r.sent| ==> r.sent[i].from == name && r.sent[i].to == m.outputs[i]
  {
    match m
    case Broadcaster(_, _) => Reaction(m, Send(name, m.outputs, ev.pulse))
    case FlipFlop(_, _, on) =>
      if ev.pulse then Reaction(m, []) else Reaction(m.(on := !on), Send(name, m.outputs, !on))
    case Conjunction(_, _, memory) =>
      var memory' := memory[ev.from := ev.pulse];
      Reaction(m.(memory := memory'), Send(name, m.outputs, !AllHigh(memory')))
    case Terminal(_, _, _) =>
      if ev.pulse then Reaction(m, []) else Reaction(m.(sawLow := true), [])
  }

  /** The broadcaster forwards the pulse it receives to every output. */
  lemma BroadcasterForwards(m: Module, name: string, ev: Event)
    requires m.Broadcaster?
    ensures Receive(m, name, ev).m == m
    ensures forall e :: e in Receive(m, name, ev).sent ==> e.pulse == ev.pulse
  {
  }

  /** A flip-flop ignores a high pulse; a low pulse flips it and it sends
      its new state to every output. */
  lemma FlipFlopToggles(m: Module, name: string, ev: Event)
    requires m.FlipFlop?
    ensures ev.pulse ==> Receive(m, name, ev) == Reaction(m, [])
    ensures !ev.pulse ==> Receive(m, name, ev).m.on == !m.on
    ensures !ev.pulse ==>
              |Receive(m, name, ev).sent| == |m.outputs|
              && forall e :: e in Receive(m, name, ev).sent ==> e.pulse == !m.on
  {
  }

  /** A conjunction stores the sender's pulse and sends low to every output
      exactly when every stored pulse is high. */
  lemma ConjunctionRemembers(m: Module, name: string, ev: Event)
    requires m.Conjunction?
    ensures Receive(m, name, ev).m.memory[ev.from] == ev.pulse
    ensures forall s :: s in m.memory && s != ev.from ==> Receive(m, name, ev).m.memory[s] == m.memory[s]
    ensures |Receive(m, name, ev).sent| == |m.outputs|
    ensures forall e :: e in Receive(m, name, ev).sent ==>
              (!e.pulse <==> (ev.pulse && forall s :: s in m.memory && s != ev.from ==> m.memory[s]))
  {
  }

  /** A terminal sends nothing; a low pulse marks it, and the mark never
      goes away. */
  lemma TerminalLatches(m: Module, name: string, ev: Event)
    requires m.Terminal?
    ensures Receive(m, name, ev).sent == []
    ensures Receive(m, name, ev).m.sawLow <==> m.sawLow || !ev.pulse
  {
  }

  // ---------------------------------------------------------------------
  // The queue
  // ---------------------------------------------------------------------

  /** The counters agree: every counted pulse was high or low. */
  predicate Balanced(q: Queue)
  {
    q.count == q.high + q.low
  }

  /** `start`: queue one low pulse from the button to `to`. */
  function Start(q: Queue, to: string): (r: Queue)
    ensures r.events == q.events + [Event("button", to, false)]
    ensures r.mods == q.mods && r.count == q.count && r.high == q.high && r.low == q.low
  {
    q.(events := q.events + [Event("button", to, false)])
  }

  /** `tick`: take the oldest event, count it, let its module react and
      queue what it sends. `None` is the `false` of an empty queue. */
  function Tick(q: Queue): (r: Result<Option<Queue>>)
    ensures r == Ok(None) <==> q.events == []
    ensures r.Err? <==> q.events != [] && q.events[0].to !in q.mods
    ensures r.Err? ==> r.msg == MissingModule
    ensures r.Ok? && r.value.Some? ==> |r.value.value.events| >= |q.events| - 1
    ensures r.Ok? && r.value.Some? ==>
              var q' := r.value.value;
              && q'.events[..|q.events| - 1] == q.events[1..]
              && q'.count == q.count + 1
              && q'.high + q'.low == q.high + q.low + 1
              && (q.events[0].pulse ==> q'.high == q.high + 1 && q'.low == q.low)
              && (!q.events[0].pulse ==> q'.low == q.low + 1 && q'.high == q.high)
              && q'.mods.Keys == q.mods.Keys
              && (forall k :: k in q.mods && k != q.events[0].to ==> q'.mods[k] == q.mods[k])
  {
    if q.events == [] then Ok(None)
    else
      var ev := q.events[0];
      if ev.to !in q.mods then Err(MissingModule)
      else
        var reaction := Receive(q.mods[ev.to], ev.to, ev);
        var events := q.events[1..] + reaction.sent;
        assert events[..|q.events| - 1] == q.events[1..];
        Ok(Some(Queue(q.mods[ev.to := reaction.m], events, q.count + 1,
                      if ev.pulse then q.high + 1 else q.high,
                      if ev.pulse then q.low else q.low + 1)))
  }

  /** A terminal that has seen a low pulse keeps that mark through a tick. */
  lemma TickKeepsLatch(q: Queue, k: string)
    requires Tick(q).Ok? && Tick(q).value.Some?
    requires k in q.mods && q.mods[k].Terminal? && q.mods[k].sawLow
    ensures Tick(q).value.value.mods[k].Terminal? && Tick(q).value.value.mods[k].sawLow
  {
  }

  /** `while (q.tick())`: tick until the queue is empty. A press need not
      settle, so at most `fuel` ticks run; `None` stands for a queue that is
      not empty by then. */
  function Drain(q: Queue, fuel: nat): (r: Result<Option<Queue>>)
    ensures r.Ok? && r.value.Some? ==> r.value.value.events == []
    ensures r.Err? ==> r.msg == MissingModule
    decreases fuel
  {
    if q.events == [] then Ok(Some(q))
    else if fuel == 0 then Ok(None)
    else
      var next :- Tick(q);
      Drain(next.value, fuel - 1)
  }

  /** The same loop written as the source writes it, over mutable locals. */
  method DrainLoop(q: Queue, fuel: nat) returns (r: Result<Option<Queue>>)
    ensures r == Drain(q, fuel)
    ensures Balanced(q) && r.Ok? && r.value.Some? ==> Balanced(r.value.value)
  {
    var mods, events, count, high, low := q.mods, q.events, q.count, q.high, q.low;
    var left := fuel;
    while true
      invariant Drain(Queue(mods, events, count, high, low), left) == Drain(q, fuel)
      invariant Balanced(q) ==> count == high + low
      decreases left
    {
      if events == [] {
        return Ok(Some(Queue(mods, events, count, high, low)));
      }
      if left == 0 {
        return Ok(None);
      }
      var ev := events[0];
      events := events[1..];
      if ev.to !in mods {
        return Err(MissingModule);
      }
      count := count + 1;
      if ev.pulse {
        high := high + 1;
      } else {
        low := low + 1;
      }
      var reaction := Receive(mods[ev.to], ev.to, ev);
      mods := mods[ev.to := reaction.m];
      events := events + reaction.sent;
      left := left - 1;
    }
  }

  /** Number of low pulses among some events. */
  function Lows(events: seq<Event>): nat
    decreases |events|
  {
    if events == [] then 0 else (if events[0].pulse then 0 else 1) + Lows(events[1..])
  }

  lemma {:induction false} LowsAppend(a: seq<Event>, b: seq<Event>)
    ensures Lows(a + b) == Lows(a) + Lows(b)
    decreases |a|
  {
    if a == [] {
      assert a + b == b;
    } else {
      assert (a + b)[0] == a[0];
      assert (a + b)[1..] == a[1..] + b;
      LowsAppend(a[1..], b);
    }
  }

  /** Draining counts every queued pulse: at least as many lows as were
      waiting, and the counters stay balanced. */
  lemma {:induction false} DrainCounts(q: Queue, fuel: nat)
    requires Drain(q, fuel).Ok? && Drain(q, fuel).value.Some?
    ensures Drain(q, fuel).value.value.low >= q.low + Lows(q.events)
    ensures Balanced(q) ==> Balanced(Drain(q, fuel).value.value)
    decreases fuel
  {
    if q.events != [] {
      var next := Tick(q).value.value;
      DrainCounts(next, fuel - 1);
      var ev := q.events[0];
      var reaction := Receive(q.mods[ev.to], ev.to, ev);
      assert next.events == q.events[1..] + reaction.sent;
      LowsAppend(q.events[1..], reaction.sent);
    }
  }

  /** `n` button presses, each queueing a low pulse to the broadcaster and
      draining the queue with at most `fuel` ticks. */
  function Presses(q: Queue, n: nat, fuel: nat): (r: Result<Option<Queue>>)
    decreases n
  {
    if n == 0 then Ok(Some(q))
    else
      var after :- Drain(Start(q, "broadcaster"), fuel);
      if after.None? then Ok(None) else Presses(after.value, n - 1, fuel)
  }

  /** Each press counts at least one low pulse (its own), and the counters
      stay balanced. */
  lemma {:induction false} PressesCount(q: Queue, n: nat, fuel: nat)
    requires Presses(q, n, fuel).Ok? && Presses(q, n, fuel).value.Some?
    ensures Presses(q, n, fuel).value.value.low >= q.low + n
    ensures Balanced(q) ==> Balanced(Presses(q, n, fuel).value.value)
    decreases n
  {
    if n > 0 {
      var started := Start(q, "broadcaster");
      var after := Drain(started, fuel).value.value;
      DrainCounts(started, fuel);
      LowsAppend(q.events, [Event("button", "broadcaster", false)]);
      assert Lows([Event("button", "broadcaster", false)]) == 1;
      PressesCount(after, n - 1, fuel);
    }
  }

  /** `part1`: the product of the high and low counts after 1000 presses. */
  function Part1(inp: seq<Decl>, fuel: nat): (r: Result<Option<int>>)
    ensures r.Ok? && r.value.Some? ==>
              Presses(Queue(Load(inp), [], 0, 0, 0), 1000, fuel).Ok?
              && Presses(Queue(Load(inp), [], 0, 0, 0), 1000, fuel).value.Some?
    ensures r.Ok? && r.value.Some? ==>
              var q := Presses(Queue(Load(inp), [], 0, 0, 0), 1000, fuel).value.value;
              && r.value.value == q.high * q.low
              && q.low >= 1000
              && q.count == q.high + q.low
  {
    var done :- Presses(Queue(Load(inp), [], 0, 0, 0), 1000, fuel);
    if done.None? then Ok(None)
    else
      PressesCount(Queue(Load(inp), [], 0, 0, 0), 1000, fuel);
      Ok(Some(done.value.high * done.value.low))
  }
}
