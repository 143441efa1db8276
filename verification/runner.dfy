/** The protocol state machine of `runner.go`: the version handshake, the
    command loop of `Run`, and the DIR/LINK loop that `startReplicaMonitor`
    runs while a START command collects directories. One step reads one
    line of input; event batches from the handler goroutines interleave
    between steps. */
module Runner {
  import opened Results
  import opened Strings
  import opened StringSet
  import opened MonitorState
  import opened SendRecv
  import opened Events

  // ---------------------------------------------------------------------
  // Failure
  // ---------------------------------------------------------------------

  /** `m'` is `m` after one ERROR line and the shutdown, nothing else. */
  predicate FailedFrom(m: Monitor, m': Monitor) {
    && m' == m.(shuttingDown := true, out := m'.out)
    && |m'.out| == |m.out| + 1
    && m'.out[..|m.out|] == m.out
    && HasPrefix(m'.out[|m.out|], "ERROR ")
  }

  /** The monitor has stopped, and the last line it wrote is an ERROR. */
  predicate Halted(m: Monitor) {
    m.shuttingDown && |m.out| > 0 && HasPrefix(m.out[|m.out| - 1], "ERROR ")
  }

  /** Whether `m'` wrote everything `m` had written, then possibly more. */
  predicate Extends(m: Monitor, m': Monitor) {
    |m'.out| >= |m.out| && m'.out[..|m.out|] == m.out
  }

  lemma Appended(m: Monitor, m': Monitor, lines: seq<string>)
    requires m'.out == m.out + lines
    ensures Extends(m, m')
  {
    assert m'.out[..|m.out|] == m.out;
  }
  lemma SendErrFails(m: Monitor, msg: string)
    ensures FailedFrom(m, SendErr(m, msg))
    ensures Halted(SendErr(m, msg))
  {
    var m' := SendErr(m, msg);
    assert m'.out[..|m.out|] == m.out;
  }

  // ---------------------------------------------------------------------
  // The commands of the main loop
  // ---------------------------------------------------------------------

  /** `replicaWaiting.Clear()`. */
  function ClearWaiting(m: Monitor): (m': Monitor)
    ensures Elements(m'.waiting) == {}
    ensures m' == m.(waiting := m'.waiting)
  {
    m.(waiting := Clear(m.waiting))
  }

  /** `startReplicaMonitor` up to its `sendOk`: a replica seen for the first
      time gets its root, an empty path set, a running handler and an end
      channel; an active replica keeps all of these. Either way OK is sent
      and DIR/LINK collection starts; `StartReplicaPaths` says how the
      sub-path joins the replica's paths. */
  function StartReplica(m: Monitor, replica: string, fspath: string, path: string): (m': Monitor)
    ensures m'.mode == Collecting(replica) && replica in m'.active
    ensures m'.out == m.out + [FormatCmd("OK", [])]
    ensures replica in m.active ==>
      m'.roots == m.roots && m'.active == m.active && m'.ends == m.ends
    ensures replica !in m.active ==>
      && m'.roots == m.roots[replica := fspath]
      && m'.active == m.active + {replica}
      && m'.ends == m.ends + {replica}
    ensures m'.paths.Keys == m.paths.Keys + (if replica in m.active then {} else {replica})
    ensures m' == m.(mode := m'.mode, roots := m'.roots, paths := m'.paths, active := m'.active,
                     ends := m'.ends, out := m'.out)
  {
    var m1 := Register(m, replica, fspath);
    var m2 := AddPath(m1, replica, path);
    SendOk(m2).(mode := Collecting(replica))
  }

  /** START adds the sub-path to the replica's paths (to an empty set the
      first time) and leaves every other replica's paths alone. */
  lemma StartReplicaPaths(m: Monitor, replica: string, fspath: string, path: string)
    requires replica !in m.active || replica in m.paths
    ensures var m' := StartReplica(m, replica, fspath, path);
      && replica in m'.paths
      && Elements(m'.paths[replica]) == (if replica in m.active then Elements(m.paths[replica]) else {}) + {path}
      && forall q | q != replica && q in m.paths :: m'.paths[q] == m.paths[q]
  {
    var m1 := Register(m, replica, fspath);
    var m2 := AddPath(m1, replica, path);
    assert StartReplica(m, replica, fspath, path).paths == m2.paths;
  }

  /** The first START of a replica: root, empty path set, handler and end
      channel. */
  function Register(m: Monitor, replica: string, fspath: string): (m': Monitor)
    ensures replica in m'.active
    ensures replica in m.active ==> m' == m
    ensures replica !in m.active ==>
      && m'.roots == m.roots[replica := fspath]
      && m'.paths == m.paths[replica := New([])]
      && Elements(m'.paths[replica]) == {}
      && m'.active == m.active + {replica}
      && m'.ends == m.ends + {replica}
    ensures m' == m.(roots := m'.roots, paths := m'.paths, active := m'.active, ends := m'.ends)
  {
    if replica in m.active then m
    else m.(roots := m.roots[replica := fspath], paths := m.paths[replica := New([])],
            active := m.active + {replica}, ends := m.ends + {replica})
  }

  /** `replicaPaths[replica].Add(path)`, when the replica has a path set. */
  function AddPath(m: Monitor, replica: string, path: string): (m': Monitor)
    ensures replica in m.paths ==>
      && replica in m'.paths
      && m'.paths == m.paths[replica := m'.paths[replica]]
      && Elements(m'.paths[replica]) == Elements(m.paths[replica]) + {path}
    ensures replica !in m.paths ==> m' == m
    ensures m' == m.(paths := m'.paths)
  {
    assert ArgSet([path]) == {path};
    if replica in m.paths then m.(paths := m.paths[replica := Add(m.paths[replica], [path])])
    else m
  }

  /** The collection loop of `startReplicaMonitor`: DIR is acknowledged, DONE
      returns to the main loop, LINK and anything else is fatal. */
  function Collect(m: Monitor, cmd: Command): (m': Monitor)
    ensures cmd.name == "DIR" ==> m' == m.(out := m.out + [FormatCmd("OK", [])])
    ensures cmd.name == "DONE" ==> m' == m.(mode := Normal)
    ensures cmd.name != "DIR" && cmd.name != "DONE" ==> FailedFrom(m, m')
    ensures Extends(m, m')
  {
    if cmd.name == "DIR" then
      Appended(m, SendOk(m), [FormatCmd("OK", [])]);
      SendOk(m)
    else if cmd.name == "LINK" then
      SendErrFails(m, LinkMessage);
      SendErr(m, LinkMessage)
    else if cmd.name == "DONE" then
      Appended(m, m.(mode := Normal), []);
      m.(mode := Normal)
    else
      SendErrFails(m, "Unknown command in START mode: " + cmd.name);
      SendErr(m, "Unknown command in START mode: " + cmd.name)
  }

  const LinkMessage := "Link following is not currently supported with unison-fsmonitor. Disable this option with '-links'."

  /** WAIT: an unknown replica is fatal; otherwise the replica waits, and when
      changes are already pending it is told at once and marked reported. */
  function Wait(m: Monitor, args: seq<string>): (m': Monitor)
    ensures |args| != 1 || args[0] !in m.active ==> FailedFrom(m, m')
    ensures |args| == 1 && args[0] in m.active ==>
      && Elements(m'.waiting) == Elements(m.waiting) + {args[0]}
      && m'.out == m.out + (if args[0] in m.changes then [FormatCmd("CHANGES", [args[0]])] else [])
      && Elements(m'.reported) == Elements(m.reported) + (if args[0] in m.changes then {args[0]} else {})
      && m' == m.(waiting := m'.waiting, reported := m'.reported, out := m'.out)
  {
    if |args| != 1 then
      SendErrFails(m, "Incorrect number of arguments for WAIT: " + FormatList(args));
      CheckSingleArgument(m, "WAIT", args)
    else
      var r := args[0];
      if r !in m.active then
        SendErrFails(m, "Unknown replica: " + r);
        SendErr(m, "Unknown replica: " + r)
      else
        assert ArgSet([r]) == {r};
        var m1 := m.(waiting := Add(m.waiting, [r]));
        if r in m1.changes then SendCmd(m1, "CHANGES", [r]).(reported := Add(m1.reported, [r]))
        else m1
  }

  /** The pending changes of replica `r` as CHANGES lists them: each pending
      path once, in ascending byte order. */
  function ChangeList(m: Monitor, r: string): (xs: seq<string>)
    ensures Sorted(xs)
    ensures ArgSet(xs) == Pending(m, r)
    ensures |xs| == |Pending(m, r)|
  {
    if r in m.changes then
      var s := StringSlice(m.changes[r]);
      var xs := SortStrings(s);
      SamePermutation(s, xs);
      xs
    else []
  }

  /** Two orderings of the same multiset have the same members and length. */
  lemma SamePermutation(xs: seq<string>, ys: seq<string>)
    requires multiset(xs) == multiset(ys)
    ensures ArgSet(xs) == ArgSet(ys) && |xs| == |ys|
  {
    assert |multiset(xs)| == |xs| && |multiset(ys)| == |ys|;
    forall x ensures x in xs <==> x in ys {
      assert x in xs <==> x in multiset(xs);
      assert x in ys <==> x in multiset(ys);
    }
  }

  /** The RECURSIVE lines listing `xs`, one per path. */
  function RecursiveLines(xs: seq<string>): (lines: seq<string>)
    ensures |lines| == |xs|
  {
    seq(|xs|, i requires 0 <= i < |xs| => FormatCmd("RECURSIVE", [xs[i]]))
  }

  /** `for _, c := range changes { sendCmd("RECURSIVE", c) }`. */
  function SendRecursive(m: Monitor, xs: seq<string>): (m': Monitor)
    ensures m' == m.(out := m.out + RecursiveLines(xs))
    decreases |xs|
  {
    if |xs| == 0 then m
    else
      var line := FormatCmd("RECURSIVE", [xs[0]]);
      assert RecursiveLines(xs) == [line] + RecursiveLines(xs[1..]);
      var m1 := SendCmd(m, "RECURSIVE", [xs[0]]);
      assert m1.out + RecursiveLines(xs[1..]) == m.out + RecursiveLines(xs);
      SendRecursive(m1, xs[1..])
  }

  /** CHANGES: the pending paths of the replica, sorted, one RECURSIVE line
      each, then DONE. Afterwards no replica has pending changes and none is
      marked reported. */
  function Changes(m: Monitor, args: seq<string>): (m': Monitor)
    ensures |args| != 1 ==> FailedFrom(m, m')
    ensures |args| == 1 ==>
      && m'.out == m.out + RecursiveLines(ChangeList(m, args[0])) + [FormatCmd("DONE", [])]
      && m'.changes == map[]
      && Elements(m'.reported) == {}
      && m' == m.(changes := map[], reported := m'.reported, out := m'.out)
  {
    if |args| != 1 then
      SendErrFails(m, "Incorrect number of arguments for CHANGES: " + FormatList(args));
      CheckSingleArgument(m, "CHANGES", args)
    else
      var m1 := SendDone(SendRecursive(m, ChangeList(m, args[0])));
      m1.(reported := Clear(m1.reported), changes := map[])
  }

  /** The message of the RESET failure: the format has two verbs and Go
      gets one argument, so the second verb prints as `%!v(MISSING)`. */
  function NoEndChannel(r: string): string {
    "end monitoring channel for replica " + r + ": %!v(MISSING)"
  }

  /** RESET as written: signalling the end channel of a replica whose
      handler has already stopped blocks forever, since the channel is
      unbuffered and nobody receives on it any more. `None` is that block. */
  function ResetAsWritten(m: Monitor, args: seq<string>): (r: Option<Monitor>)
    ensures r.None? <==> |args| == 1 && args[0] in m.ends && args[0] !in m.active
    ensures r.Some? ==> r.value == Reset(m, args)
  {
    if |args| == 1 && args[0] in m.ends && args[0] !in m.active then None
    else Some(Reset(m, args))
  }

  /** RESET with the end signal delivered only to a running handler: the
      replica stops being watched, waited for, reported and pending, and its
      root, paths and end channel stay. A replica never started is fatal. */
  function Reset(m: Monitor, args: seq<string>): (m': Monitor)
    ensures |args| != 1 ==> FailedFrom(m, m')
    ensures |args| == 1 && args[0] !in m.ends ==>
      FailedFrom(m, m') && m'.out[|m.out|] == FormatCmd("ERROR", [NoEndChannel(args[0])])
    ensures |args| == 1 && args[0] in m.ends ==>
      && m'.active == m.active - {args[0]}
      && Elements(m'.waiting) == Elements(m.waiting) - {args[0]}
      && Elements(m'.reported) == Elements(m.reported) - {args[0]}
      && args[0] !in m'.changes
      && (forall q | q != args[0] :: Pending(m', q) == Pending(m, q))
      && m'.changes.Keys <= m.changes.Keys
      && m' == m.(waiting := m'.waiting, active := m'.active, reported := m'.reported, changes := m'.changes)
  {
    if |args| != 1 then
      SendErrFails(m, "Incorrect number of arguments for RESET: " + FormatList(args));
      CheckSingleArgument(m, "RESET", args)
    else
      var r := args[0];
      if r !in m.ends then
        SendErrFails(m, NoEndChannel(r));
        SendErr(m, NoEndChannel(r))
      else
        assert ArgSet([r]) == {r};
        m.(waiting := Remove(m.waiting, [r]), active := m.active - {r},
           reported := Remove(m.reported, [r]), changes := m.changes - {r})
  }

  /** START: the replica, its root and an optional sub-path, which is ""
      when left out; any other number of arguments is fatal. */
  function Start(m: Monitor, args: seq<string>): (m': Monitor)
    ensures |args| == 2 ==> m' == StartReplica(m, args[0], args[1], "")
    ensures |args| == 3 ==> m' == StartReplica(m, args[0], args[1], args[2])
    ensures |args| != 2 && |args| != 3 ==> FailedFrom(m, m')
    ensures Extends(m, m')
  {
    if |args| == 2 || |args| == 3 then
      var m' := StartReplica(m, args[0], args[1], if |args| == 3 then args[2] else "");
      Appended(m, m', [FormatCmd("OK", [])]);
      m'
    else
      SendErrFails(m, "Incorrect number of arguments for START: " + FormatList(args));
      SendErr(m, "Incorrect number of arguments for START: " + FormatList(args))
  }

  /** The commands the main loop knows. */
  const Commands := {"DEBUG", "START", "WAIT", "CHANGES", "RESET", "QUIT"}

  /** One command of the main loop. Every command but WAIT first cancels all
      waits. */
  function Dispatch(m: Monitor, cmd: Command): (m': Monitor)
    ensures cmd.name != "WAIT" ==> Elements(m'.waiting) == {}
    ensures cmd.name == "START" && |cmd.args| != 2 && |cmd.args| != 3 ==> FailedFrom(ClearWaiting(m), m')
    ensures cmd.name !in Commands ==> FailedFrom(ClearWaiting(m), m')
    ensures !m.shuttingDown && m'.shuttingDown ==> Halted(m')
    ensures Extends(m, m')
  {
    var m0 := if cmd.name != "WAIT" then ClearWaiting(m) else m;
    var args := cmd.args;
    if cmd.name == "DEBUG" then m0.(debugEnabled := true)
    else if cmd.name == "START" then Start(m0, args)
    else if cmd.name == "WAIT" then Wait(m0, args)
    else if cmd.name == "CHANGES" then Changes(m0, args)
    else if cmd.name == "RESET" then Reset(m0, args)
    else if cmd.name == "QUIT" then m0
    else
      SendErrFails(m0, "Unknown command: " + cmd.name);
      SendErr(m0, "Unknown command: " + cmd.name)
  }

  // ---------------------------------------------------------------------
  // Reading input
  // ---------------------------------------------------------------------

  /** One command, read by whichever loop is reading. */
  function Execute(m: Monitor, cmd: Command): (m': Monitor)
    ensures !m.shuttingDown && m'.shuttingDown ==> Halted(m')
    ensures Extends(m, m')
  {
    match m.mode
    case Normal => Dispatch(m, cmd)
    case Collecting(_) => Collect(m, cmd)
  }

  /** A line that cannot be read or decoded: fatal, and in the main loop
      the waits are cancelled as for any command other than WAIT. */
  function Unreadable(m: Monitor, e: RecvError): (m': Monitor)
    ensures Halted(m') && Extends(m, m')
  {
    var msg := "Unexpected error: " + RecvErrorText(e);
    SendErrFails(m, msg);
    if m.mode.Normal? then ClearWaiting(SendErr(m, msg)) else SendErr(m, msg)
  }

  /** One turn of whichever loop is reading: once the monitor is shutting
      down nothing more is read. Returns the input not yet read; nothing is
      left to read after a failure. */
  function Step(m: Monitor, input: string): (r: (Monitor, string))
    ensures m.shuttingDown ==> r == (m, input)
    ensures |r.1| <= |input|
    ensures !m.shuttingDown && !r.0.shuttingDown ==> |r.1| < |input|
    ensures !m.shuttingDown && r.0.shuttingDown ==> Halted(r.0)
    ensures Extends(m, r.0)
  {
    if m.shuttingDown then (m, input)
    else
      match ReceiveCmd(input)
      case Err(e) => (Unreadable(m, e), "")
      case Ok((cmd, rest)) => (Execute(m, cmd), rest)
  }

  /** `versionHandshake`: send VERSION 1, then expect exactly
      `VERSION <v>` and keep `v`. */
  function Handshake(m: Monitor, input: string): (r: (Monitor, string))
    requires !m.shuttingDown
    ensures |r.0.out| > |m.out| && r.0.out[|m.out|] == "VERSION 1\n"
    ensures !r.0.shuttingDown <==>
      && ReceiveCmd(input).Ok?
      && ReceiveCmd(input).value.0.name == "VERSION"
      && |ReceiveCmd(input).value.0.args| == 1
    ensures !r.0.shuttingDown ==>
      && r.0 == m.(protocolVersion := ReceiveCmd(input).value.0.args[0], out := m.out + ["VERSION 1\n"])
      && r.1 == ReceiveCmd(input).value.1
    ensures r.0.shuttingDown ==> Halted(r.0) && r.0.mode == m.mode && r.0.active == m.active
    ensures |r.1| <= |input|
  {
    VersionLine(m);
    var m1 := SendVersion(m, 1);
    match ReceiveCmd(input)
    case Err(e) =>
      SendErrFails(m1, RecvErrorText(e));
      (SendErr(m1, RecvErrorText(e)), "")
    case Ok((cmd, rest)) =>
      if cmd.name != "VERSION" then
        SendErrFails(m1, "Expected VERSION command: " + cmd.name);
        (SendErr(m1, "Expected VERSION command: " + cmd.name), rest)
      else if |cmd.args| != 1 then
        SendErrFails(m1, "Unexpected arguments for VERSION command: " + FormatList(cmd.args));
        (SendErr(m1, "Unexpected arguments for VERSION command: " + FormatList(cmd.args)), rest)
      else (m1.(protocolVersion := cmd.args[0]), rest)
  }

  /** `Run`'s loop from state `m`: steps until the monitor shuts down. Each
      step either shuts down or consumes input, and running out of input is
      itself fatal, so the loop always ends stopped on an ERROR line. */
  function Loop(m: Monitor, input: string): (m': Monitor)
    ensures m'.shuttingDown
    ensures !m.shuttingDown ==> Halted(m')
    ensures m.shuttingDown ==> m' == m
    decreases |input|, if m.shuttingDown then 0 else 1
  {
    if m.shuttingDown then m
    else
      var (m1, rest) := Step(m, input);
      Loop(m1, rest)
  }

  /** A whole session on standard input `stdin`. */
  function Session(stdin: string): (m: Monitor)
    ensures Halted(m)
    ensures m.out[0] == "VERSION 1\n"
  {
    var (m1, rest) := Handshake(Initial, stdin);
    LoopKeepsOutput(m1, rest);
    Loop(m1, rest)
  }

  /** Output is only ever appended to. */
  lemma {:induction false} LoopKeepsOutput(m: Monitor, input: string)
    ensures Extends(m, Loop(m, input))
    decreases |input|, if m.shuttingDown then 0 else 1
  {
    if !m.shuttingDown {
      var next := Step(m, input);
      assert Loop(m, input) == Loop(next.0, next.1);
      LoopKeepsOutput(next.0, next.1);
      ExtendsTransitive(m, next.0, Loop(next.0, next.1));
    }
  }

  lemma ExtendsTransitive(a: Monitor, b: Monitor, c: Monitor)
    requires Extends(a, b) && Extends(b, c)
    ensures Extends(a, c)
  {
    assert c.out[..|b.out|][..|a.out|] == c.out[..|a.out|];
  }

  // ---------------------------------------------------------------------
  // The state invariant
  // ---------------------------------------------------------------------

  lemma StartInv(m: Monitor, replica: string, fspath: string, path: string)
    requires Inv(m)
    ensures Inv(StartReplica(m, replica, fspath, path))
  {
  }

  lemma WaitInv(m: Monitor, args: seq<string>)
    requires Inv(m)
    ensures Inv(Wait(m, args))
  {
  }

  lemma ChangesInv(m: Monitor, args: seq<string>)
    requires Inv(m)
    ensures Inv(Changes(m, args))
  {
  }

  lemma ResetInv(m: Monitor, args: seq<string>)
    requires Inv(m) && m.mode.Normal?
    ensures Inv(Reset(m, args))
  {
    var m' := Reset(m, args);
    if |args| == 1 && args[0] in m.ends {
      forall q | q in m'.changes ensures Size(m'.changes[q]) > 0 {
        assert Pending(m', q) == Pending(m, q);
      }
    }
  }

  /** Every command of the main loop keeps the invariant. */
  lemma DispatchInv(m: Monitor, cmd: Command)
    requires Inv(m) && m.mode.Normal?
    ensures Inv(Dispatch(m, cmd))
  {
    var m0 := if cmd.name != "WAIT" then ClearWaiting(m) else m;
    var args := cmd.args;
    assert Inv(m0);
    if cmd.name == "START" && (|args| == 2 || |args| == 3) {
      StartInv(m0, args[0], args[1], if |args| == 3 then args[2] else "");
    } else if cmd.name == "WAIT" {
      WaitInv(m0, args);
    } else if cmd.name == "CHANGES" {
      ChangesInv(m0, args);
    } else if cmd.name == "RESET" {
      ResetInv(m0, args);
    }
  }

  /** Every step keeps the invariant, whichever loop reads. */
  lemma StepInv(m: Monitor, input: string)
    requires Inv(m)
    ensures Inv(Step(m, input).0)
  {
    if !m.shuttingDown {
      match ReceiveCmd(input)
      case Err(_) =>
      case Ok((cmd, _)) =>
        if m.mode.Normal? {
          DispatchInv(m, cmd);
        }
    }
  }

  lemma HandshakeInv(m: Monitor, input: string)
    requires Inv(m) && !m.shuttingDown
    ensures Inv(Handshake(m, input).0)
  {
  }

  /** What drives the monitor: the main loop reading its next line, or one
      handler goroutine handling one batch of file-system events. */
  datatype Stimulus = Read | Events(replica: string, paths: seq<string>)

  /** An interleaving of reads and event batches after the handshake. */
  function Replay(m: Monitor, input: string, stims: seq<Stimulus>): (r: (Monitor, string))
    ensures |r.1| <= |input|
    decreases |stims|
  {
    if |stims| == 0 then (m, input)
    else match stims[0]
      case Read =>
        var (m1, rest) := Step(m, input);
        Replay(m1, rest, stims[1..])
      case Events(replica, paths) =>
        Replay(EventBatch(m, replica, paths), input, stims[1..])
  }

  /** However reads and event batches interleave, the invariant holds. */
  lemma {:induction false} ReplayInv(m: Monitor, input: string, stims: seq<Stimulus>)
    requires Inv(m)
    ensures Inv(Replay(m, input, stims).0)
    decreases |stims|
  {
    if |stims| > 0 {
      match stims[0]
      case Read =>
        var (m1, rest) := Step(m, input);
        StepInv(m, input);
        ReplayInv(m1, rest, stims[1..]);
      case Events(replica, paths) =>
        EventBatchInv(m, replica, paths);
        ReplayInv(EventBatch(m, replica, paths), input, stims[1..]);
    }
  }

  /** A whole session keeps the invariant at every point of any interleaving. */
  lemma SessionInv(stdin: string, stims: seq<Stimulus>)
    ensures var (m, rest) := Handshake(Initial, stdin);
      Inv(m) && Inv(Replay(m, rest, stims).0)
  {
    InitialInv();
    HandshakeInv(Initial, stdin);
    var (m, rest) := Handshake(Initial, stdin);
    ReplayInv(m, rest, stims);
  }

  // ---------------------------------------------------------------------
  // Properties of the protocol
  // ---------------------------------------------------------------------

  /** A line the way Unison's side formats it is read back as that command,
      and the step runs it. */
  lemma StepFormatted(m: Monitor, name: string, args: seq<string>, rest: string)
    requires !m.shuttingDown
    requires NoSpace(name)
    requires |args| > 0 ==> |name| > 0 && |args[|args| - 1]| > 0
    ensures Step(m, FormatCmd(name, args) + rest) == (Execute(m, Command(name, args)), rest)
  {
    ReceiveFormatted(name, args, rest);
  }

  /** Unison's `VERSION v` completes the handshake and `v` is kept as sent. */
  lemma HandshakeAccepts(m: Monitor, v: string, rest: string)
    requires !m.shuttingDown && |v| > 0
    ensures Handshake(m, FormatCmd("VERSION", [v]) + rest) ==
      (m.(protocolVersion := v, out := m.out + ["VERSION 1\n"]), rest)
  {
    ReceiveFormatted("VERSION", [v], rest);
  }

  /** QUIT does not stop the loop: it only cancels the waits. */
  lemma QuitOnlyCancelsWaits(m: Monitor, args: seq<string>)
    ensures Dispatch(m, Command("QUIT", args)) == m.(waiting := [])
  {
  }

  /** DEBUG turns on debug output and cancels the waits, nothing else. */
  lemma DebugOnlySetsFlag(m: Monitor, args: seq<string>)
    ensures Dispatch(m, Command("DEBUG", args)) == m.(debugEnabled := true, waiting := [])
  {
  }

  /** WAIT keeps the waits of other replicas; any other command cancels them. */
  lemma WaitKeepsOtherWaits(m: Monitor, r: string)
    requires r in m.active
    ensures Elements(Dispatch(m, Command("WAIT", [r])).waiting) == Elements(m.waiting) + {r}
  {
  }

  /** A second WAIT while changes are pending sends CHANGES again. */
  lemma WaitResends(m: Monitor, r: string)
    requires r in m.active && r in m.changes
    ensures Wait(Wait(m, [r]), [r]).out == m.out + [FormatCmd("CHANGES", [r]), FormatCmd("CHANGES", [r])]
  {
  }

  /** A replica that waits with nothing pending is told as soon as an event
      batch finds a change. */
  lemma WaitThenChange(m: Monitor, r: string, find: string -> Option<string>, evs: seq<string>)
    requires r in m.active && r !in m.changes && !Has(m.reported, [r])
    requires Found(find, evs) != {}
    ensures HandleEvents(Wait(m, [r]), r, find, evs).out == m.out + [FormatCmd("CHANGES", [r])]
  {
    var m1 := Wait(m, [r]);
    assert Has(m1.waiting, [r]) by { assert ArgSet([r]) == {r}; }
    assert !Has(m1.reported, [r]) by { assert ArgSet([r]) == {r}; }
    HandleEventsNotifiesWaiter(m1, r, find, evs);
  }

  /** START with only a replica and a root watches the whole root: the
      sub-path recorded is "". */
  lemma StartDefaultsSubPath(m: Monitor, replica: string, fspath: string)
    requires Inv(m)
    ensures var m' := Dispatch(m, Command("START", [replica, fspath]));
      && m'.mode == Collecting(replica)
      && replica in m'.paths
      && Elements(m'.paths[replica]) == (if replica in m.active then Elements(m.paths[replica]) else {}) + {""}
  {
    var m0 := ClearWaiting(m);
    assert Dispatch(m, Command("START", [replica, fspath])) == StartReplica(m0, replica, fspath, "");
    StartReplicaPaths(m0, replica, fspath, "");
  }

  /** A START of an active replica only adds its sub-path: the root given
      the first time stays. */
  lemma RestartKeepsRoot(m: Monitor, replica: string, fspath: string, path: string)
    requires Inv(m) && replica in m.active
    ensures var m' := StartReplica(m, replica, fspath, path);
      m'.roots[replica] == m.roots[replica]
      && Elements(m'.paths[replica]) == Elements(m.paths[replica]) + {path}
  {
    StartReplicaPaths(m, replica, fspath, path);
  }

  /** After CHANGES, a second CHANGES lists nothing for any replica. */
  lemma ChangesDrains(m: Monitor, r: string, q: string)
    ensures Changes(Changes(m, [r]), [q]).out == Changes(m, [r]).out + [FormatCmd("DONE", [])]
  {
    var m1 := Changes(m, [r]);
    assert Pending(m1, q) == {};
    assert ChangeList(m1, q) == [];
  }

  /** After RESET, WAIT on the replica is fatal: it is no longer known. */
  lemma ResetThenWaitFails(m: Monitor, r: string)
    requires r in m.ends
    ensures Wait(Reset(m, [r]), [r]).shuttingDown
    ensures Wait(Reset(m, [r]), [r]).out[|m.out|] == FormatCmd("ERROR", ["Unknown replica: " + r])
  {
  }

  /** RESET as written: a second RESET of the same replica blocks, once the
      first has stopped the replica's handler. */
  lemma ResetTwiceBlocks(m: Monitor, r: string)
    requires r in m.active && r in m.ends
    ensures ResetAsWritten(m, [r]) == Some(Reset(m, [r]))
    ensures ResetAsWritten(Reset(m, [r]), [r]) == None
  {
  }

  /** The corrected RESET is idempotent: repeating it changes nothing and
      never blocks or fails. */
  lemma ResetIdempotent(m: Monitor, r: string)
    requires r in m.ends
    ensures Reset(Reset(m, [r]), [r]) == Reset(m, [r])
    ensures !Reset(m, [r]).shuttingDown || m.shuttingDown
  {
    var m1 := Reset(m, [r]);
    var m2 := Reset(m1, [r]);
    assert ArgSet([r]) == {r};
    RemoveAbsentIsIdentity(m1.waiting, r);
    RemoveAbsentIsIdentity(m1.reported, r);
    assert m2.changes == m1.changes;
  }
}
