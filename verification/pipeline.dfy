/** Runs of the session: any admissible sequence of events (commands issued,
    lines read, completions of writes and connects, disconnect requests)
    driven through the step functions of `Session`. The theorem of this
    module is the one-command-in-flight discipline of src/CNetwork.cpp:
    commands are completed in the order they were issued, and each is
    written exactly once, at the moment it becomes the front. */
module Pipeline {
  import opened Text
  import opened Session
  import StatusLine

  datatype Input =
    | Exec(text: string, callback: Option<Callback>)
    | Read(line: string)
    | ReadFailed(code: int)
    | WriteDone(code: int)
    | ConnectReq(port: nat, resolution: Resolution)
    | ConnectDone(code: int)
    | DisconnectReq

  /** What the source assumes of each event: commands are non-empty, a write
      completes only for a buffer that was sent, ports are 16-bit. */
  predicate Enabled(s: State, i: Input) {
    match i
    case Exec(text, _) => text != []
    case WriteDone(_) => s.writeBuffers != []
    case ConnectReq(port, _) => port < 0x1_0000
    case _ => true
  }

  /** One event, handled by the matching step of the session. */
  function Step(s: State, rules: seq<Pattern>, i: Input): (o: Outcome)
    requires Valid(s) && Enabled(s, i)
    ensures Valid(o.state)
  {
    match i
    case Exec(text, callback) => Execute(s, text, callback)
    case Read(line) => OnRead(s, rules, line)
    case ReadFailed(code) => OnReadError(s, code)
    case WriteDone(code) => OnWrite(s, code)
    case ConnectReq(port, resolution) => Connect(s, port, resolution).outcome
    case ConnectDone(code) => OnConnect(s, code)
    case DisconnectReq => Disconnect(s).outcome
  }

  /** The commands an event appends to the queue. */
  function Adds(s: State, i: Input): (r: seq<Command>)
    requires Enabled(s, i)
    ensures |r| <= 1
    ensures Sendable(r)
  {
    match i
    case Exec(text, callback) => [Command(text, callback)]
    case ConnectDone(code) => if code == 0 then [Command(UseCommand(s.serverPort), None)] else []
    case DisconnectReq => if s.connected then [Command(QuitCommand, Some(Quit))] else []
    case _ => []
  }

  /** The command in flight, as a sequence of at most one. */
  function Front(q: seq<Command>): (r: seq<Command>)
    ensures |r| <= 1 && (r == [] <==> q == [])
    ensures r != [] ==> r[0] == q[0]
  {
    if q == [] then [] else [q[0]]
  }

  /** The buffers written for a run of commands, one each, in order. */
  function Buffers(commands: seq<Command>): (r: seq<string>)
    ensures |r| == |commands|
  {
    if commands == [] then [] else [WriteBuffer(commands[0].text)] + Buffers(commands[1..])
  }

  lemma {:induction false} BuffersAppend(a: seq<Command>, b: seq<Command>)
    ensures Buffers(a + b) == Buffers(a) + Buffers(b)
    decreases |a|
  {
    if a == [] {
      assert a + b == b;
    } else {
      assert (a + b)[0] == a[0];
      assert (a + b)[1..] == a[1..] + b;
      BuffersAppend(a[1..], b);
    }
  }

  /** The command an event completes: the front, when a status line arrives
      while a command is pending. */
  function Pops(s: State, i: Input): (r: seq<Command>)
    ensures |r| <= 1
  {
    if i.Read? && StatusLine.ContainsStatus(i.line) && s.commands != [] then [s.commands[0]] else []
  }

  /** The queue discipline over a stretch of events, in which the commands
      `adds` were issued and the commands `done` completed: the queue before,
      followed by what was issued, is what was completed followed by the
      queue after; and the writes of the stretch are the buffers of exactly
      the commands that became the front during it, each once, in order. */
  predicate Fifo(before: seq<Command>, adds: seq<Command>, done: seq<Command>,
                 after: seq<Command>, writes: seq<string>) {
    && before + adds == done + after
    && Buffers(Front(before)) + writes == Buffers(done + Front(after))
  }

  /** A step followed by a stretch is a stretch. */
  lemma FifoCompose(q: seq<Command>, adds1: seq<Command>, done1: seq<Command>, q1: seq<Command>, w1: seq<string>,
                    adds2: seq<Command>, done2: seq<Command>, q2: seq<Command>, w2: seq<string>)
    requires Fifo(q, adds1, done1, q1, w1)
    requires Fifo(q1, adds2, done2, q2, w2)
    ensures Fifo(q, adds1 + adds2, done1 + done2, q2, w1 + w2)
  {
    Chain(q, adds1, done1, q1, adds2, done2, q2);
    BuffersAppend(done1, Front(q1));
    BuffersAppend(done2, Front(q2));
    Chain(Buffers(Front(q)), w1, Buffers(done1), Buffers(Front(q1)), w2, Buffers(done2), Buffers(Front(q2)));
    BuffersAppend(done1 + done2, Front(q2));
    BuffersAppend(done1, done2);
  }

  /** Two exchanges at a shared middle compose into one. */
  lemma Chain<T>(x: seq<T>, a1: seq<T>, d1: seq<T>, y: seq<T>, a2: seq<T>, d2: seq<T>, z: seq<T>)
    requires x + a1 == d1 + y
    requires y + a2 == d2 + z
    ensures x + (a1 + a2) == (d1 + d2) + z
  {
    assert x + (a1 + a2) == (x + a1) + a2;
    assert (d1 + y) + a2 == d1 + (y + a2);
    assert d1 + (d2 + z) == (d1 + d2) + z;
  }

  /** An append writes the command exactly when the queue was empty. */
  lemma AppendStep(q: seq<Command>, c: Command)
    ensures Fifo(q, [c], [], q + [c], if q == [] then [WriteBuffer(c.text)] else [])
  {
    assert [] + (q + [c]) == q + [c];
    if q == [] {
      assert Buffers([c]) == [WriteBuffer(c.text)];
    } else {
      assert Front(q + [c]) == Front(q);
    }
  }

  /** A pop writes the new front, if any. */
  lemma PopStep(q: seq<Command>)
    requires q != []
    ensures Fifo(q, [], [q[0]], q[1..], if |q| > 1 then [WriteBuffer(q[1].text)] else [])
  {
    assert q + [] == [q[0]] + q[1..];
    BuffersAppend([q[0]], Front(q[1..]));
    if |q| > 1 {
      assert Buffers(Front(q[1..])) == [WriteBuffer(q[1].text)];
    }
  }

  /** Leaving the queue alone writes nothing. */
  lemma StillStep(q: seq<Command>)
    ensures Fifo(q, [], [], q, [])
  {
    assert q + [] == [] + q;
    assert [] + Front(q) == Front(q);
  }

  /** Every event obeys the queue discipline, completing at most one command:
      it appends one (written exactly when the queue was empty), pops the
      front (writing the next one, if any), or leaves the queue alone and
      writes nothing. */
  lemma StepFifo(s: State, rules: seq<Pattern>, i: Input)
    requires Valid(s) && Enabled(s, i)
    ensures Fifo(s.commands, Adds(s, i), Pops(s, i), Step(s, rules, i).state.commands, Writes(Step(s, rules, i).actions))
  {
    match i
    case Read(line) =>
      if StatusLine.ContainsStatus(line) {
        OnReadStatus(s, rules, line);
        if s.commands != [] {
          PopStep(s.commands);
        } else {
          StillStep(s.commands);
        }
      } else {
        OnReadOther(s, rules, line);
        StillStep(s.commands);
      }
    case Exec(text, callback) =>
      AppendStep(s.commands, Command(text, callback));
    case ConnectDone(code) =>
      if code == 0 {
        AppendStep(s.commands, Command(UseCommand(s.serverPort), None));
      } else {
        StillStep(s.commands);
      }
    case DisconnectReq =>
      if s.connected {
        AppendStep(s.commands, Command(QuitCommand, Some(Quit)));
      } else {
        StillStep(s.commands);
      }
    case ReadFailed(_) =>
      StillStep(s.commands);
    case WriteDone(_) =>
      StillStep(s.commands);
    case ConnectReq(_, _) =>
      StillStep(s.commands);
  }

  /** The events can be fed one after another: each is enabled in the state
      the previous ones led to. */
  predicate Admissible(s: State, rules: seq<Pattern>, inputs: seq<Input>)
    decreases |inputs|
  {
    && Valid(s)
    && (inputs != [] ==>
          && Enabled(s, inputs[0])
          && Admissible(Step(s, rules, inputs[0]).state, rules, inputs[1..]))
  }

  /** The state reached and the actions emitted by a run. */
  function Run(s: State, rules: seq<Pattern>, inputs: seq<Input>): (o: Outcome)
    requires Admissible(s, rules, inputs)
    ensures Valid(o.state)
    decreases |inputs|
  {
    if inputs == [] then Outcome(s, [])
    else
      var first := Step(s, rules, inputs[0]);
      var rest := Run(first.state, rules, inputs[1..]);
      Outcome(rest.state, first.actions + rest.actions)
  }

  /** The commands a run appends to the queue, in order. */
  function Issued(s: State, rules: seq<Pattern>, inputs: seq<Input>): (r: seq<Command>)
    requires Admissible(s, rules, inputs)
    ensures |r| <= |inputs|
    ensures Sendable(r)
    decreases |inputs|
  {
    if inputs == [] then []
    else Adds(s, inputs[0]) + Issued(Step(s, rules, inputs[0]).state, rules, inputs[1..])
  }

  /** The commands a run completes, in order. */
  function Completed(s: State, rules: seq<Pattern>, inputs: seq<Input>): (r: seq<Command>)
    requires Admissible(s, rules, inputs)
    ensures |r| <= |inputs|
    decreases |inputs|
  {
    if inputs == [] then []
    else Pops(s, inputs[0]) + Completed(Step(s, rules, inputs[0]).state, rules, inputs[1..])
  }

  /** Over a whole run the queue obeys the discipline: the commands are
      completed in the order they were queued or issued, the queue at the end
      holds exactly the rest, and every command that became the front during
      the run was written exactly once, in that order. */
  lemma {:induction false} RunFifo(s: State, rules: seq<Pattern>, inputs: seq<Input>)
    requires Admissible(s, rules, inputs)
    ensures Fifo(s.commands, Issued(s, rules, inputs), Completed(s, rules, inputs),
                 Run(s, rules, inputs).state.commands, Writes(Run(s, rules, inputs).actions))
    decreases |inputs|
  {
    if inputs == [] {
      StillStep(s.commands);
    } else {
      var i := inputs[0];
      var first := Step(s, rules, i);
      var rest := Run(first.state, rules, inputs[1..]);
      StepFifo(s, rules, i);
      RunFifo(first.state, rules, inputs[1..]);
      FifoCompose(s.commands, Adds(s, i), Pops(s, i), first.state.commands, Writes(first.actions),
        Issued(first.state, rules, inputs[1..]), Completed(first.state, rules, inputs[1..]),
        rest.state.commands, Writes(rest.actions));
      ObserveAppend(first.actions, rest.actions);
    }
  }

  /** From the initial state: the issued commands are the completed ones
      followed by the queue, and the writes are the buffers of the completed
      commands and of the one in flight, each once, in the order issued. */
  lemma RunFromInitial(rules: seq<Pattern>, inputs: seq<Input>)
    requires Admissible(Initial, rules, inputs)
    ensures var o := Run(Initial, rules, inputs);
      var done := Completed(Initial, rules, inputs);
      && Issued(Initial, rules, inputs) == done + o.state.commands
      && Writes(o.actions) == Buffers(done + Front(o.state.commands))
  {
    RunFifo(Initial, rules, inputs);
    assert Initial.commands + Issued(Initial, rules, inputs) == Issued(Initial, rules, inputs);
    assert Buffers(Front(Initial.commands)) == [];
  }
}
