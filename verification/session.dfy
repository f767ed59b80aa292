/** The ServerQuery session of src/CNetwork.cpp as one immutable state record
    and pure step functions. Every step returns the next state together with
    the actions an observer sees: bytes handed to the socket, a result
    callback run with its rows, an error forwarded to the script host, a
    notification handler dispatched.

    The function-static buffers of the source (`captured_data`, line 150, and
    `last_notify_data`, line 244) are fields of the state. */
module Session {
  import opened Text
  import Decimal
  import Rows
  import StatusLine

  /** What runs when a command's result arrives: the `quit` completion that
      `Disconnect` installs (src/CNetwork.cpp:67-70), or a callback supplied
      by a caller, known here only by an identifier. */
  datatype Callback = Quit | Script(id: nat)

  /** An entry of the pending-command FIFO `m_CmdQueue`. */
  datatype Command = Command(text: string, callback: Option<Callback>)

  datatype Action =
    | Wrote(buffer: string)                                  // async_send of a write buffer
    | CallbackRun(callback: Callback, rows: seq<string>)     // result callback invoked
    | ConnectionError(code: int)                             // CONNECTION_ERROR forwarded
    | ServerError(id: string, msg: string, command: Option<string>)  // TEAMSPEAK_ERROR forwarded
    | HandlerRun(handler: nat, line: string)                 // m_EventList entry dispatched

  datatype State = State(
    commands: seq<Command>,      // m_CmdQueue
    writeBuffers: seq<string>,   // m_CmdWriteBufferQueue
    captured: seq<string>,       // captured_data
    lastNotify: string,          // last_notify_data
    connected: bool,             // m_Connected
    serverPort: nat)             // m_ServerPort

  datatype Outcome = Outcome(state: State, actions: seq<Action>)

  /** `Connect` and `Disconnect` also return a flag. */
  datatype Reply = Reply(ok: bool, outcome: Outcome)

  /** Result of the host name lookup in `Connect`. */
  datatype Resolution = Resolved | ResolveFailed(code: int)

  /** One entry of `m_EventList`, reduced to whether its pattern matches. */
  type Pattern = string -> bool

  const Initial: State := State([], [], [], "", false, 0)

  const QuitCommand: string := "quit"
  const UsePrefix: string := "use port="

  /** The notification kinds subject to duplicate suppression
      (src/CNetwork.cpp:245-249). */
  const DuplicateKinds: seq<string> := ["notifyclientmoved", "notifycliententerview", "notifyclientleftview"]

  /** Every queued command text is non-empty, because each is handed to
      `AsyncWrite`, which reads its last character; every write buffer ends
      in a newline. */
  predicate Valid(s: State) {
    && Sendable(s.commands)
    && (forall i :: 0 <= i < |s.writeBuffers| ==> s.writeBuffers[i] != [] && s.writeBuffers[i][|s.writeBuffers[i]| - 1] == '\n')
  }

  /** Every command text is non-empty. */
  predicate Sendable(commands: seq<Command>) {
    forall i :: 0 <= i < |commands| ==> commands[i].text != []
  }

  // ---------------------------------------------------------------------------
  // Observing the actions of a step

  function Writes(acts: seq<Action>): (r: seq<string>)
    ensures |r| <= |acts|
  {
    if acts == [] then []
    else (if acts[0].Wrote? then [acts[0].buffer] else []) + Writes(acts[1..])
  }

  function Callbacks(acts: seq<Action>): (r: seq<Action>)
    ensures forall i :: 0 <= i < |r| ==> r[i].CallbackRun?
  {
    if acts == [] then []
    else (if acts[0].CallbackRun? then [acts[0]] else []) + Callbacks(acts[1..])
  }

  function Errors(acts: seq<Action>): (r: seq<Action>)
    ensures forall i :: 0 <= i < |r| ==> r[i].ConnectionError? || r[i].ServerError?
  {
    if acts == [] then []
    else (if acts[0].ConnectionError? || acts[0].ServerError? then [acts[0]] else []) + Errors(acts[1..])
  }

  /** The three views of a run of actions distribute over concatenation. */
  lemma ObserveAppend(a: seq<Action>, b: seq<Action>)
    ensures Writes(a + b) == Writes(a) + Writes(b)
    ensures Callbacks(a + b) == Callbacks(a) + Callbacks(b)
    ensures Errors(a + b) == Errors(a) + Errors(b)
  {
    WritesAppend(a, b);
    CallbacksAppend(a, b);
    ErrorsAppend(a, b);
  }

  lemma {:induction false} WritesAppend(a: seq<Action>, b: seq<Action>)
    ensures Writes(a + b) == Writes(a) + Writes(b)
    decreases |a|
  {
    if a == [] {
      assert a + b == b;
    } else {
      assert (a + b)[0] == a[0];
      assert (a + b)[1..] == a[1..] + b;
      WritesAppend(a[1..], b);
    }
  }

  lemma {:induction false} CallbacksAppend(a: seq<Action>, b: seq<Action>)
    ensures Callbacks(a + b) == Callbacks(a) + Callbacks(b)
    decreases |a|
  {
    if a == [] {
      assert a + b == b;
    } else {
      assert (a + b)[0] == a[0];
      assert (a + b)[1..] == a[1..] + b;
      CallbacksAppend(a[1..], b);
    }
  }

  lemma {:induction false} ErrorsAppend(a: seq<Action>, b: seq<Action>)
    ensures Errors(a + b) == Errors(a) + Errors(b)
    decreases |a|
  {
    if a == [] {
      assert a + b == b;
    } else {
      assert (a + b)[0] == a[0];
      assert (a + b)[1..] == a[1..] + b;
      ErrorsAppend(a[1..], b);
    }
  }


  // ---------------------------------------------------------------------------
  // Write queue: AsyncWrite and OnWrite (src/CNetwork.cpp:101-113, 300-313)

  /** The buffer `AsyncWrite` sends for `text`: the text, with a newline
      appended unless it already ends in one. `AsyncWrite` reads the last
      character, so it is only ever given non-empty text (its precondition);
      this function is total only so that lists of buffers need no side
      condition. */
  function WriteBuffer(text: string): (buffer: string)
    ensures |text| <= |buffer| <= |text| + 1
    ensures buffer[..|text|] == text
    ensures buffer != [] && buffer[|buffer| - 1] == '\n'
    ensures buffer == text <==> text != [] && text[|text| - 1] == '\n'
  {
    if text != [] && text[|text| - 1] == '\n' then text else text + "\n"
  }

  /** Terminating a buffer a second time changes nothing. */
  lemma WriteBufferIdempotent(text: string)
    ensures WriteBuffer(WriteBuffer(text)) == WriteBuffer(text)
  {
  }

  /** `AsyncWrite`: push one buffer and hand it to the socket. */
  function AsyncWrite(s: State, text: string): (o: Outcome)
    requires text != []
    ensures o.state == s.(writeBuffers := s.writeBuffers + [WriteBuffer(text)])
    ensures o.actions == [Wrote(WriteBuffer(text))]
    ensures Valid(s) ==> Valid(o.state)
  {
    var buffer := WriteBuffer(text);
    Outcome(s.(writeBuffers := s.writeBuffers + [buffer]), [Wrote(buffer)])
  }

  /** `OnWrite`: one completion pops exactly one buffer, whatever the outcome;
      a failure is forwarded but leaves the connection flag alone. Popping an
      empty `std::queue` is undefined, so a completion needs a buffer. */
  function OnWrite(s: State, code: int): (o: Outcome)
    requires |s.writeBuffers| > 0
    ensures |o.state.writeBuffers| == |s.writeBuffers| - 1
    ensures o.state.writeBuffers == s.writeBuffers[1..]
    ensures o.state.connected == s.connected
    ensures o.state.(writeBuffers := s.writeBuffers) == s
    ensures code == 0 <==> o.actions == []
    ensures code != 0 ==> o.actions == [ConnectionError(code)]
    ensures Valid(s) ==> Valid(o.state)
  {
    var s' := s.(writeBuffers := s.writeBuffers[1..]);
    if code != 0 then Outcome(s', [ConnectionError(code)]) else Outcome(s', [])
  }

  // ---------------------------------------------------------------------------
  // Command pipeline: Execute (src/CNetwork.cpp:315-321)

  /** `Execute`: append to the command FIFO; the command is written at once
      exactly when the FIFO was empty before, otherwise it waits for its
      predecessors' status lines. */
  function Execute(s: State, text: string, callback: Option<Callback>): (o: Outcome)
    requires text != []
    ensures o.state.commands == s.commands + [Command(text, callback)]
    ensures o.actions != [] <==> s.commands == []
    ensures s.commands == [] ==> o.actions == [Wrote(WriteBuffer(text))]
    ensures Writes(o.actions) == (if s.commands == [] then [WriteBuffer(text)] else [])
    ensures o.state.writeBuffers == s.writeBuffers + Writes(o.actions)
    ensures o.state.(commands := s.commands, writeBuffers := s.writeBuffers) == s
    ensures Valid(s) ==> Valid(o.state)
  {
    var s' := s.(commands := s.commands + [Command(text, callback)]);
    if |s'.commands| == 1 then AsyncWrite(s', text) else Outcome(s', [])
  }

  // ---------------------------------------------------------------------------
  // Connection lifecycle (src/CNetwork.cpp:34-93, 115-138, 287-297)

  /** The handshake command `use port=<port>` sent after connecting. */
  function UseCommand(port: nat): (text: string)
    ensures text != []
    ensures StartsWith(text, UsePrefix)
    ensures Decimal.Canonical(text[|UsePrefix|..])
    ensures Decimal.Value(text[|UsePrefix|..]) == port
  {
    var digits := Decimal.FromNat(port);
    Decimal.ValueFromNat(port);
    assert (UsePrefix + digits)[|UsePrefix|..] == digits;
    UsePrefix + digits
  }

  /** Different ports give different handshakes. */
  lemma UseCommandInjective(p: nat, q: nat)
    requires UseCommand(p) == UseCommand(q)
    ensures p == q
  {
  }

  /** `Connect`: refused while connected; a failed lookup is forwarded and
      refused; otherwise the service port is remembered, the flag is cleared
      by `AsyncConnect`, and the connect attempt is started. */
  function Connect(s: State, port: nat, resolution: Resolution): (r: Reply)
    requires port < 0x1_0000
    ensures s.connected ==> r == Reply(false, Outcome(s, []))
    ensures !s.connected && resolution.ResolveFailed? ==>
      r == Reply(false, Outcome(s, [ConnectionError(resolution.code)]))
    ensures r.ok <==> !s.connected && resolution.Resolved?
    ensures r.ok ==> r.outcome == Outcome(s.(serverPort := port, connected := false), [])
    ensures Valid(s) ==> Valid(r.outcome.state)
  {
    if s.connected then Reply(false, Outcome(s, []))
    else
      match resolution
      case ResolveFailed(code) => Reply(false, Outcome(s, [ConnectionError(code)]))
      case Resolved => Reply(true, Outcome(s.(serverPort := port, connected := false), []))
  }

  /** `OnConnect`: on success the session is connected and the handshake is
      issued through `Execute`; a failure is only forwarded. */
  function OnConnect(s: State, code: int): (o: Outcome)
    ensures code == 0 ==> o.state.connected
    ensures code == 0 ==> o.state.commands == s.commands + [Command(UseCommand(s.serverPort), None)]
    ensures code == 0 ==> Writes(o.actions) == (if s.commands == [] then [WriteBuffer(UseCommand(s.serverPort))] else [])
    ensures code == 0 ==> o.actions == (if s.commands == [] then [Wrote(WriteBuffer(UseCommand(s.serverPort)))] else [])
    ensures code == 0 ==> o.state == s.(connected := true, commands := s.commands + [Command(UseCommand(s.serverPort), None)],
                                        writeBuffers := s.writeBuffers + Writes(o.actions))
    ensures code != 0 ==> o == Outcome(s, [ConnectionError(code)])
    ensures Valid(s) ==> Valid(o.state)
  {
    if code == 0 then Execute(s.(connected := true), UseCommand(s.serverPort), None)
    else Outcome(s, [ConnectionError(code)])
  }

  /** `Disconnect`, reduced to its end state: when connected a `quit` command
      whose completion clears the flag is queued; in every case the flag ends
      cleared and the call reports success. */
  function Disconnect(s: State): (r: Reply)
    ensures r.ok
    ensures !r.outcome.state.connected
    ensures r.outcome.state.commands == s.commands + (if s.connected then [Command(QuitCommand, Some(Quit))] else [])
    ensures Writes(r.outcome.actions) == (if s.connected && s.commands == [] then [WriteBuffer(QuitCommand)] else [])
    ensures r.outcome.actions == (if s.connected && s.commands == [] then [Wrote(WriteBuffer(QuitCommand))] else [])
    ensures r.outcome.state == s.(connected := false, commands := s.commands + (if s.connected then [Command(QuitCommand, Some(Quit))] else []),
                                  writeBuffers := s.writeBuffers + Writes(r.outcome.actions))
    ensures Valid(s) ==> Valid(r.outcome.state)
  {
    var o := if s.connected then Execute(s, QuitCommand, Some(Quit)) else Outcome(s, []);
    Reply(true, Outcome(o.state.(connected := false), o.actions))
  }

  /** A failed read is forwarded and the session counts as disconnected. */
  function OnReadError(s: State, code: int): (o: Outcome)
    ensures !o.state.connected
    ensures o.state.(connected := s.connected) == s
    ensures o.actions == [ConnectionError(code)]
    ensures Valid(s) ==> Valid(o.state)
  {
    Outcome(s.(connected := false), [ConnectionError(code)])
  }

  // ---------------------------------------------------------------------------
  // Notifications (src/CNetwork.cpp:241-278)

  /** The line is one of the three high-frequency kinds. */
  predicate IsTrackedKind(line: string) {
    exists i :: 0 <= i < |DuplicateKinds| && StartsWith(line, DuplicateKinds[i])
  }

  /** The line repeats the previous notification and is of a tracked kind. */
  predicate IsDuplicate(last: string, line: string) {
    IsTrackedKind(line) && last == line
  }

  /** First entry of the event list, from `from` on, whose pattern matches. */
  function FirstMatchFrom(rules: seq<Pattern>, line: string, from: nat): (r: Option<nat>)
    requires from <= |rules|
    ensures r.Some? ==> from <= r.value < |rules| && rules[r.value](line)
    ensures r.Some? ==> forall j :: from <= j < r.value ==> !rules[j](line)
    ensures r.None? ==> forall j :: from <= j < |rules| ==> !rules[j](line)
    decreases |rules| - from
  {
    if from == |rules| then None
    else if rules[from](line) then Some(from)
    else FirstMatchFrom(rules, line, from + 1)
  }

  /** First-match dispatch over `m_EventList` (src/CNetwork.cpp:267-274). */
  function FirstMatch(rules: seq<Pattern>, line: string): (r: Option<nat>)
    ensures r.Some? ==> r.value < |rules| && rules[r.value](line)
    ensures r.Some? ==> forall j :: 0 <= j < r.value ==> !rules[j](line)
    ensures r.None? ==> forall j :: 0 <= j < |rules| ==> !rules[j](line)
  {
    FirstMatchFrom(rules, line, 0)
  }

  /** A notification line: a tracked kind repeating the previous notification
      runs nothing; otherwise the first matching entry runs and no other; the
      line becomes the previous notification in every case. */
  function OnNotify(s: State, rules: seq<Pattern>, line: string): (o: Outcome)
    ensures o.state == s.(lastNotify := line)
    ensures |o.actions| <= 1
    ensures o.actions == [] <==> IsDuplicate(s.lastNotify, line) || forall j :: 0 <= j < |rules| ==> !rules[j](line)
    ensures o.actions != [] ==> o.actions[0].HandlerRun? && o.actions[0].line == line
    ensures o.actions != [] ==>
      var i := o.actions[0].handler;
      i < |rules| && rules[i](line) && forall j :: 0 <= j < i ==> !rules[j](line)
    ensures Valid(s) ==> Valid(o.state)
  {
    var s' := s.(lastNotify := line);
    if IsDuplicate(s.lastNotify, line) then Outcome(s', [])
    else
      match FirstMatch(rules, line)
      case Some(i) => Outcome(s', [HandlerRun(i, line)])
      case None => Outcome(s', [])
  }

  // ---------------------------------------------------------------------------
  // Status lines (src/CNetwork.cpp:172-240)

  /** Pop the front command and write the new front, if any. */
  function Advance(s: State): (o: Outcome)
    requires Valid(s) && s.commands != []
    ensures o.state.commands == s.commands[1..]
    ensures Writes(o.actions) == (if |s.commands| > 1 then [WriteBuffer(s.commands[1].text)] else [])
    ensures o.actions == (if |s.commands| > 1 then [Wrote(WriteBuffer(s.commands[1].text))] else [])
    ensures Callbacks(o.actions) == [] && Errors(o.actions) == []
    ensures o.state.writeBuffers == s.writeBuffers + Writes(o.actions)
    ensures o.state.(commands := s.commands, writeBuffers := s.writeBuffers) == s
    ensures Valid(o.state)
  {
    var s' := s.(commands := s.commands[1..]);
    if s'.commands != [] then
      var o := AsyncWrite(s', s'.commands[0].text);
      assert o.actions[1..] == [];
      o
    else Outcome(s', [])
  }

  /** The callback run for a completed command, if it has one. */
  function Ran(c: Command, rows: seq<string>): seq<Action> {
    if c.callback.Some? then [CallbackRun(c.callback.value, rows)] else []
  }

  /** The write of the command that becomes the front once the front of
      `commands` is popped. */
  function WriteNext(commands: seq<Command>): seq<Action> {
    if |commands| > 1 then [Wrote(WriteBuffer(commands[1].text))] else []
  }

  /** Success status with a command pending: run its callback, if it has
      one, with the rows (the `quit` callback clears the connection flag),
      pop it, write the next command and clear the buffer. Nothing else
      happens: the write queue grows by exactly that write, and the last
      notification and the port are kept. */
  function CompleteFront(s: State, rows: seq<string>): (o: Outcome)
    requires Valid(s) && s.commands != []
    ensures o.actions == Ran(s.commands[0], rows) + WriteNext(s.commands)
    ensures o.state == s.(commands := s.commands[1..], writeBuffers := s.writeBuffers + Writes(o.actions),
                          captured := [], connected := s.connected && s.commands[0].callback != Some(Quit))
    ensures Callbacks(o.actions) ==
      if s.commands[0].callback.Some? then [CallbackRun(s.commands[0].callback.value, rows)] else []
    ensures Writes(o.actions) == if |s.commands| > 1 then [WriteBuffer(s.commands[1].text)] else []
    ensures Errors(o.actions) == []
    ensures Valid(o.state)
  {
    var front := s.commands[0];
    var s0 := s.(captured := []);
    var s1 := if front.callback == Some(Quit) then s0.(connected := false) else s0;
    var next := Advance(s1);
    RanThenNext(front, rows, s.commands);
    Outcome(next.state, Ran(front, rows) + next.actions)
  }

  /** A callback run followed by the write of the next command: the
      writes, callbacks and errors it shows. */
  lemma RanThenNext(c: Command, rows: seq<string>, commands: seq<Command>)
    ensures var a := Ran(c, rows) + WriteNext(commands);
      && Writes(a) == (if |commands| > 1 then [WriteBuffer(commands[1].text)] else [])
      && Callbacks(a) == Ran(c, rows)
      && Errors(a) == []
  {
    OnlyCallbacks(Ran(c, rows));
    var w := WriteNext(commands);
    if w != [] {
      assert w[1..] == [];
    }
    ObserveAppend(Ran(c, rows), w);
  }

  /** A run of at most one callback writes nothing and reports no error. */
  lemma OnlyCallbacks(ran: seq<Action>)
    requires |ran| <= 1 && forall i :: 0 <= i < |ran| ==> ran[i].CallbackRun?
    ensures Writes(ran) == [] && Errors(ran) == [] && Callbacks(ran) == ran
  {
    if ran != [] {
      assert ran[1..] == [];
    }
  }

  /** Success status: with no command pending only the buffer is cleared. */
  function Complete(s: State, rows: seq<string>): (o: Outcome)
    requires Valid(s)
    ensures o.state.captured == []
    ensures s.commands == [] ==> o == Outcome(s.(captured := []), [])
    ensures s.commands != [] ==> o == CompleteFront(s, rows)
    ensures Valid(o.state)
  {
    if s.commands == [] then Outcome(s.(captured := []), []) else CompleteFront(s, rows)
  }

  /** Error status as written: the error naming the front command is
      forwarded, the front is popped without running its callback, the next
      command is written and the buffer cleared. `front()` is read without a
      check, so a command must be pending. The session stays connected,
      and the last notification and the port are kept. */
  function FailAsWritten(s: State, status: StatusLine.Status): (o: Outcome)
    requires Valid(s) && s.commands != []
    ensures o.actions == [ServerError(status.id, status.msg, Some(s.commands[0].text))] + WriteNext(s.commands)
    ensures o.state == s.(commands := s.commands[1..], writeBuffers := s.writeBuffers + Writes(o.actions), captured := [])
    ensures o.state.captured == []
    ensures o.state.commands == s.commands[1..]
    ensures Callbacks(o.actions) == []
    ensures Errors(o.actions) == [ServerError(status.id, status.msg, Some(s.commands[0].text))]
    ensures Writes(o.actions) == (if |s.commands| > 1 then [WriteBuffer(s.commands[1].text)] else [])
    ensures Valid(o.state)
  {
    var next := Advance(s.(captured := []));
    var err := ServerError(status.id, status.msg, Some(s.commands[0].text));
    ErrorThenNext(err, s.commands);
    Outcome(next.state, [err] + next.actions)
  }

  /** An error followed by the write of the next command: the writes,
      callbacks and errors it shows. */
  lemma ErrorThenNext(e: Action, commands: seq<Command>)
    requires e.ServerError?
    ensures var a := [e] + WriteNext(commands);
      && Writes(a) == (if |commands| > 1 then [WriteBuffer(commands[1].text)] else [])
      && Callbacks(a) == []
      && Errors(a) == [e]
  {
    var w := WriteNext(commands);
    if w != [] {
      assert w[1..] == [];
    }
    assert [e][1..] == [];
    ObserveAppend([e], w);
  }

  /** Error status, with the missing check added: when no command is pending
      the error is still forwarded, naming no command, and only the buffer is
      cleared. */
  function Fail(s: State, status: StatusLine.Status): (o: Outcome)
    requires Valid(s)
    ensures o.state.captured == []
    ensures s.commands != [] ==> o == FailAsWritten(s, status)
    ensures s.commands == [] ==> o == Outcome(s.(captured := []), [ServerError(status.id, status.msg, None)])
    ensures s.commands == [] ==> o.state.commands == [] && Writes(o.actions) == []
    ensures Callbacks(o.actions) == []
    ensures Errors(o.actions) == [ServerError(status.id, status.msg, if s.commands == [] then None else Some(s.commands[0].text))]
    ensures Valid(o.state)
  {
    if s.commands == [] then
      var err := [ServerError(status.id, status.msg, None)];
      assert Writes(err) == [] && Callbacks(err) == [] && Errors(err) == err by {
        assert err[1..] == [];
        assert Errors(err) == [err[0]] + Errors([]);
      }
      Outcome(s.(captured := []), err)
    else FailAsWritten(s, status)
  }

  /** The source's `OnRead` needs a pending command for an error status. */
  predicate ReadDefinedAsWritten(s: State, line: string) {
    match StatusLine.Classify(line)
    case StatusKind(st) => st.IsSuccess() || s.commands != []
    case _ => true
  }

  /** `OnRead` for one `'\r'`-terminated line, as written: rows of a
      multi-row line come out reversed and an error status with no command
      pending is undefined. */
  function OnReadAsWritten(s: State, rules: seq<Pattern>, line: string): (o: Outcome)
    requires Valid(s) && ReadDefinedAsWritten(s, line)
    ensures StatusLine.ContainsStatus(line) ==> o.state.captured == []
    ensures !StatusLine.ContainsStatus(line) ==> o.state.commands == s.commands
    ensures Valid(o.state)
  {
    match StatusLine.Classify(line)
    case StatusKind(st) =>
      if st.IsSuccess() then Complete(s, Rows.ExpandAsWritten(s.captured)) else FailAsWritten(s, st)
    case NotifyKind => OnNotify(s, rules, line)
    case DataKind => Outcome(s.(captured := s.captured + [line]), [])
  }

  /** `OnRead` for one line, with both corrections: rows in order, and an
      error status with no command pending forwarded without a command.
      `OnReadStatus` and `OnReadOther` state what it does with each kind of
      line. */
  function OnRead(s: State, rules: seq<Pattern>, line: string): (o: Outcome)
    requires Valid(s)
    ensures StatusLine.ContainsStatus(line) ==> o.state.captured == [] && o.state.lastNotify == s.lastNotify
    ensures !StatusLine.ContainsStatus(line) ==> o.state.commands == s.commands
    ensures Valid(o.state)
  {
    var k := StatusLine.Classify(line);
    if k.StatusKind? then
      if k.status.IsSuccess() then Complete(s, Rows.Expand(s.captured)) else Fail(s, k.status)
    else if k.NotifyKind? then OnNotify(s, rules, line)
    else Outcome(s.(captured := s.captured + [line]), [])
  }

  /** A status line completes the front command, if any, writing the next
      one: a success runs the front's callback with the rows gathered so far,
      an error is forwarded naming the front command, or none when nothing
      is pending. `OnReadStatusExact` states that nothing else happens. */
  lemma OnReadStatus(s: State, rules: seq<Pattern>, line: string)
    requires Valid(s) && StatusLine.ContainsStatus(line)
    ensures var o := OnRead(s, rules, line);
      && (s.commands == [] ==> o.state.commands == [] && Writes(o.actions) == [] && Callbacks(o.actions) == [])
      && (s.commands != [] ==>
            && o.state.commands == s.commands[1..]
            && Writes(o.actions) == (if |s.commands| > 1 then [WriteBuffer(s.commands[1].text)] else []))
    ensures var o := OnRead(s, rules, line);
      StatusLine.Classify(line).status.IsSuccess() ==>
      && Errors(o.actions) == []
      && (s.commands != [] ==> (Callbacks(o.actions) ==
            if s.commands[0].callback.Some? then [CallbackRun(s.commands[0].callback.value, Rows.Expand(s.captured))] else []))
    ensures var o := OnRead(s, rules, line);
      var st := StatusLine.Classify(line).status;
      !st.IsSuccess() ==>
      && Callbacks(o.actions) == []
      && Errors(o.actions) == [ServerError(st.id, st.msg, if s.commands == [] then None else Some(s.commands[0].text))]
  {
  }

  /** A status line, exactly: the front is popped, the write queue grows by
      exactly the write of the next command, no handler runs, the session
      stays connected unless the `quit` command completes, and the last
      notification and the port are kept. */
  lemma OnReadStatusExact(s: State, rules: seq<Pattern>, line: string)
    requires Valid(s) && StatusLine.ContainsStatus(line)
    ensures var o := OnRead(s, rules, line);
      var st := StatusLine.Classify(line).status;
      o.state == s.(commands := if s.commands == [] then [] else s.commands[1..],
                    writeBuffers := s.writeBuffers + Writes(o.actions), captured := [],
                    connected := s.connected && !(st.IsSuccess() && s.commands != [] && s.commands[0].callback == Some(Quit)))
    ensures var o := OnRead(s, rules, line);
      var st := StatusLine.Classify(line).status;
      o.actions ==
        if s.commands == [] then (if st.IsSuccess() then [] else [ServerError(st.id, st.msg, None)])
        else if st.IsSuccess() then Ran(s.commands[0], Rows.Expand(s.captured)) + WriteNext(s.commands)
        else [ServerError(st.id, st.msg, Some(s.commands[0].text))] + WriteNext(s.commands)
  {
    var st := StatusLine.Classify(line).status;
    if st.IsSuccess() {
      if s.commands != [] {
        var o := CompleteFront(s, Rows.Expand(s.captured));
        assert OnRead(s, rules, line) == o;
      }
    } else if s.commands != [] {
      var o := FailAsWritten(s, st);
      assert OnRead(s, rules, line) == o;
    }
  }

  /** Any other line leaves the queue alone and writes nothing: a
      notification is dispatched, anything else is kept as a data row. */
  lemma OnReadOther(s: State, rules: seq<Pattern>, line: string)
    requires Valid(s) && !StatusLine.ContainsStatus(line)
    ensures Writes(OnRead(s, rules, line).actions) == []
    ensures !StartsWith(line, StatusLine.NotifyPrefix) ==>
      OnRead(s, rules, line) == Outcome(s.(captured := s.captured + [line]), [])
    ensures StartsWith(line, StatusLine.NotifyPrefix) ==>
      OnRead(s, rules, line) == OnNotify(s, rules, line)
  {
  }

  /** Wherever the source's `OnRead` is defined, it does what the corrected
      step does, except that a success status hands the pending callback the
      as-written (reversed) rows: the same next state, the same writes and
      the same errors. */
  lemma OnReadAsWrittenAgrees(s: State, rules: seq<Pattern>, line: string)
    requires Valid(s) && ReadDefinedAsWritten(s, line)
    ensures OnReadAsWritten(s, rules, line).state == OnRead(s, rules, line).state
    ensures Writes(OnReadAsWritten(s, rules, line).actions) == Writes(OnRead(s, rules, line).actions)
    ensures Errors(OnReadAsWritten(s, rules, line).actions) == Errors(OnRead(s, rules, line).actions)
    ensures !(StatusLine.ContainsStatus(line) && StatusLine.Classify(line).status.IsSuccess() && s.commands != []) ==>
      OnReadAsWritten(s, rules, line) == OnRead(s, rules, line)
    ensures StatusLine.ContainsStatus(line) && StatusLine.Classify(line).status.IsSuccess() && s.commands != [] ==>
      && OnReadAsWritten(s, rules, line).actions == Ran(s.commands[0], Rows.ExpandAsWritten(s.captured)) + WriteNext(s.commands)
      && OnRead(s, rules, line).actions == Ran(s.commands[0], Rows.Expand(s.captured)) + WriteNext(s.commands)
  {
  }

  // ---------------------------------------------------------------------------
  // Properties across steps

  /** A tracked notification repeated back to back dispatches nothing the
      second time; once a different notification intervenes it is dispatched
      again whenever some entry matches it. */
  lemma DuplicateSuppressed(s: State, rules: seq<Pattern>, line: string, other: string)
    requires IsTrackedKind(line) && other != line
    ensures OnNotify(OnNotify(s, rules, line).state, rules, line).actions == []
    ensures var t := OnNotify(OnNotify(s, rules, line).state, rules, other).state;
      OnNotify(t, rules, line).actions != [] <==> exists j :: 0 <= j < |rules| && rules[j](line)
  {
  }

  /** Any other notification is dispatched every time it arrives. */
  lemma UntrackedNeverSuppressed(s: State, rules: seq<Pattern>, line: string)
    requires !IsTrackedKind(line)
    ensures OnNotify(OnNotify(s, rules, line).state, rules, line).actions == OnNotify(s, rules, line).actions
  {
  }

  /** The rows of a `|`-joined result line reach the callback in wire order. */
  lemma RowsReachCallbackInOrder(s: State, rules: seq<Pattern>, line: string, cb: Callback)
    requires Valid(s) && |s.commands| == 1 && s.commands[0].callback == Some(cb) && s.captured == ["row1|row2"]
    requires line == "error id=0 msg=ok"
    ensures OnRead(s, rules, line).actions == [CallbackRun(cb, ["row1", "row2"])]
  {
    StatusLine.ClassifySuccess(line);
    Rows.ExpandAsWrittenSwapsRows();
    OnReadStatusExact(s, rules, line);
  }

  /** The source's expansion hands the same rows over reversed. */
  lemma RowsReversedAsWritten(s: State, rules: seq<Pattern>, line: string, cb: Callback)
    requires Valid(s) && |s.commands| == 1 && s.commands[0].callback == Some(cb) && s.captured == ["row1|row2"]
    requires line == "error id=0 msg=ok"
    ensures OnReadAsWritten(s, rules, line).actions == [CallbackRun(cb, ["row2", "row1"])]
  {
    StatusLine.ClassifySuccess(line);
    Rows.ExpandAsWrittenSwapsRows();
    OnReadAsWrittenAgrees(s, rules, line);
  }

  /** Once the handshake has completed no command is pending, and an error
      status arriving then is outside what the source's `OnRead` handles
      (it reads the front of the empty queue); the corrected step forwards
      the error naming no command. */
  lemma ErrorWithNothingPending(id: string, msg: string)
    requires 0 < |id| && Decimal.AllDigits(id) && id != "0"
    requires 0 < |msg| && forall j :: 0 <= j < |msg| ==> StatusLine.IsMsgChar(msg[j])
    ensures var s := OnRead(OnConnect(Initial, 0).state, [], "error id=0 msg=ok").state;
      var line := StatusLine.ErrorTag + id + StatusLine.MsgTag + msg;
      && s.commands == []
      && !ReadDefinedAsWritten(s, line)
      && OnRead(s, [], line).actions == [ServerError(id, msg, None)]
  {
    StatusLine.ClassifySuccess("error id=0 msg=ok");
    StatusLine.ClassifyStatusText(StatusLine.ErrorTag + id + StatusLine.MsgTag + msg, id, msg);
  }

  /** A failed read leaves the pending commands queued; a reconnect appends
      the handshake behind them, so it is not written until they complete. */
  lemma ReconnectBehindStaleCommands(s: State, code: int, port: nat)
    requires s.commands != [] && code != 0 && port < 0x1_0000
    ensures var r := Connect(OnReadError(s, code).state, port, Resolved);
      var o := OnConnect(r.outcome.state, 0);
      && r.ok
      && o.state.connected
      && o.state.commands == s.commands + [Command(UseCommand(port), None)]
      && Writes(o.actions) == []
  {
  }
}
