/** Running scripts in src/cmdline/sqlrsh.cpp: scripts that run scripts, the commands that carry on
    past a failure, and the count of failures that decides the exit code. */
module ScriptRunner {
  import opened Characters

  const EXIT_SUCCESS := 0
  const EXIT_SCRIPT := 2
  const EXIT_QUERY := 4

  /** A file that can't be opened, or the commands it holds. */
  datatype Script = Unopenable | Opened(commands: seq<Command>)

  /** A statement or any other command that does its work itself and succeeds or fails, the command
      that turns continueonerror on or off, and the one that runs a script. */
  datatype Command = Statement(succeeds: bool) | ContinueOnError(on: bool) | Run(script: Script)

  /** What a run changes.  log has every command that was executed and isn't the run of a script that
      could be opened, whose own commands stand for it. */
  datatype State = State(continueOnError: bool, errorCount: nat, pinged: nat, log: seq<Command>)

  datatype Outcome = Outcome(state: State, exitcode: int)

  // ------------------------------------------------------------ what a run does

  function Counted(st: State, before: nat): State {
    if st.errorCount > before then st else st.(errorCount := st.errorCount + 1)
  }

  function Logged(st: State, c: Command): State {
    st.(log := st.log + [c])
  }

  /** Whether a command in a log succeeded. */
  predicate Succeeds(c: Command) {
    match c
    case Statement(succeeds) => succeeds
    case ContinueOnError(_) => true
    case Run(_) => false
  }

  /** The state after one command, and EXIT_SUCCESS if it succeeded.  pings(n) is the answer to the
      n-th ping. */
  function AfterCommand(c: Command, st: State, pings: nat -> bool): Outcome
    decreases c, 0
  {
    match c
    case Statement(succeeds) => Outcome(Logged(st, c), if succeeds then EXIT_SUCCESS else EXIT_QUERY)
    case ContinueOnError(on) => Outcome(Logged(st, c).(continueOnError := on), EXIT_SUCCESS)
    case Run(Unopenable) => Outcome(Logged(st, c), EXIT_SCRIPT)
    case Run(Opened(commands)) => AfterCommands(commands, st, EXIT_SUCCESS, pings)
  }

  /** The state after the commands of a script, and the script's exit code. */
  function AfterCommands(commands: seq<Command>, st: State, exitcode: int, pings: nat -> bool): Outcome
    decreases commands, 1
  {
    if commands == [] then Outcome(st, exitcode)
    else
      var first := AfterCommand(commands[0], st, pings);
      if first.exitcode == EXIT_SUCCESS then AfterCommands(commands[1..], first.state, exitcode, pings)
      else
        var counted := Counted(first.state, st.errorCount);
        if !counted.continueOnError then Outcome(counted, EXIT_QUERY)
        else
          var pinged := counted.(pinged := counted.pinged + 1);
          if !pings(counted.pinged) then Outcome(pinged, EXIT_QUERY)
          else AfterCommands(commands[1..], pinged, EXIT_QUERY, pings)
  }

  function AfterScript(script: Script, st: State, pings: nat -> bool): Outcome {
    match script
    case Unopenable => Outcome(st, EXIT_SCRIPT)
    case Opened(commands) => AfterCommands(commands, st, EXIT_SUCCESS, pings)
  }

  // ------------------------------------------------------------ the shell

  /** What sqlrsh is started with, when it isn't to read commands at a prompt. */
  datatype Job = RunScriptFile(script: Script) | RunCommandList(commands: seq<Command>) | OneQuery(query: Command) {
    function AsScript(): Script
      requires !OneQuery?
    {
      if RunScriptFile? then script else Opened(commands)
    }
  }

  /** The environment and the connection, with the log of what was executed. */
  class Shell {
    const pings: nat -> bool
    var continueonerror: bool
    var errorcount: nat
    var pinged: nat
    ghost var log: seq<Command>

    constructor (pings: nat -> bool, continueonerror: bool)
      ensures Now() == State(continueonerror, 0, 0, [])
      ensures this.pings == pings
    {
      this.pings, this.continueonerror, errorcount, pinged, log := pings, continueonerror, 0, 0, [];
    }

    ghost function Now(): State
      reads this
    {
      State(continueonerror, errorcount, pinged, log)
    }

    method CountError(before: nat)
      modifies this
      ensures Now() == Counted(old(Now()), before)
    {
      if errorcount > before {
        return;
      }
      errorcount := errorcount + 1;
    }

    /** ping() reopens the session, so false means the server is gone. */
    method Ping() returns (alive: bool)
      modifies this
      ensures alive == pings(old(pinged))
      ensures Now() == old(Now()).(pinged := old(pinged) + 1)
    {
      alive := pings(pinged);
      pinged := pinged + 1;
    }

    method CarryOn() returns (r: bool)
      modifies this
      ensures if !old(continueonerror) then !r && Now() == old(Now())
              else r == pings(old(pinged)) && Now() == old(Now()).(pinged := old(pinged) + 1)
    {
      if !continueonerror {
        return false;
      }
      r := Ping();
    }

    method RunCommand(c: Command) returns (ok: bool)
      modifies this
      ensures var after := AfterCommand(c, old(Now()), pings);
        Now() == after.state && (ok <==> after.exitcode == EXIT_SUCCESS)
      decreases c, 0
    {
      match c
      case Statement(succeeds) =>
        log := log + [c];
        ok := succeeds;
      case ContinueOnError(on) =>
        continueonerror := on;
        log := log + [c];
        ok := true;
      case Run(script) =>
        if script.Unopenable? {
          log := log + [c];
        }
        var exitcode := RunScript(script);
        ok := exitcode == EXIT_SUCCESS;
    }

    method RunScript(script: Script) returns (exitcode: int)
      modifies this
      ensures var after := AfterScript(script, old(Now()), pings);
        Now() == after.state && exitcode == after.exitcode
      decreases script
    {
      exitcode := EXIT_SUCCESS;
      if script.Opened? {
        var commands := script.commands;
        var i := 0;
        while i < |commands|
          invariant i <= |commands|
          invariant AfterCommands(commands, old(Now()), EXIT_SUCCESS, pings)
                 == AfterCommands(commands[i..], Now(), exitcode, pings)
        {
          var before := errorcount;
          var ok := RunCommand(commands[i]);
          assert commands[i..][1..] == commands[i + 1..];
          i := i + 1;
          if !ok {
            exitcode := EXIT_QUERY;
            CountError(before);
            var more := CarryOn();
            if !more {
              return;
            }
          }
        }
      } else {
        exitcode := EXIT_SCRIPT;
      }
    }

    /** The same loop over a command list, which only answers whether all of it succeeded. */
    method RunCommands(commands: seq<Command>) returns (retval: bool)
      modifies this
      ensures var after := AfterScript(Opened(commands), old(Now()), pings);
        Now() == after.state && (retval <==> after.exitcode == EXIT_SUCCESS)
    {
      retval := true;
      var i := 0;
      while i < |commands|
        invariant i <= |commands|
        invariant AfterCommands(commands, old(Now()), EXIT_SUCCESS, pings)
               == AfterCommands(commands[i..], Now(), if retval then EXIT_SUCCESS else EXIT_QUERY, pings)
      {
        var before := errorcount;
        var ok := RunCommand(commands[i]);
        assert commands[i..][1..] == commands[i + 1..];
        i := i + 1;
        if !ok {
          retval := false;
          CountError(before);
          var more := CarryOn();
          if !more {
            return;
          }
        }
      }
    }

    /** The final exit code, and the count that goes to stderr, if one does. */
    method ReportErrorCount(exitcode: int) returns (r: int, reported: Option<nat>)
      ensures r == if errorcount > 0 then 4 else exitcode
      ensures reported == if errorcount > 0 && (continueonerror || errorcount > 1) then Some(errorcount) else None
    {
      if errorcount == 0 {
        return exitcode, None;
      }
      r := EXIT_QUERY;
      if !continueonerror && errorcount < 2 {
        return r, None;
      }
      reported := Some(errorcount);
    }

    /** The rc file's failures don't count. */
    method UserRcFile(script: Script)
      modifies this
      ensures Now() == AfterScript(script, old(Now()), pings).state.(errorCount := old(errorcount))
    {
      var saved := errorcount;
      var _ := RunScript(script);
      errorcount := saved;
    }

    /** A run of sqlrsh that isn't at a prompt: the rc file, then a script, a command list or one query, and
        the exit code. */
    method RunMain(rcfile: Script, job: Job) returns (exitcode: int, reported: Option<nat>)
      requires errorcount == 0
      modifies this
      ensures
        var start := AfterScript(rcfile, old(Now()), pings).state.(errorCount := 0);
        && start.log <= log
        && Now() == (if job.OneQuery? then AfterCommand(job.query, start, pings).state
                     else AfterScript(job.AsScript(), start, pings).state)
        && (!job.OneQuery? ==> errorcount == Failures(Executed(start, Now())))
        && exitcode == (if job == RunScriptFile(Unopenable) then 2
                        else if Failures(Executed(start, Now())) > 0 then 4 else 0)
        && reported == (if !job.OneQuery? && (errorcount > 1 || (errorcount == 1 && continueonerror)) then Some(errorcount)
                        else None)
    {
      UserRcFile(rcfile);
      exitcode, reported := EXIT_SUCCESS, None;
      match job
      case RunScriptFile(script) =>
        EachFailureCountsOnce(script, Now(), pings);
        exitcode := RunScript(script);
        exitcode, reported := ReportErrorCount(exitcode);
      case RunCommandList(commands) =>
        EachFailureCountsOnce(Opened(commands), Now(), pings);
        var ok := RunCommands(commands);
        if !ok {
          exitcode := EXIT_QUERY;
        }
        exitcode, reported := ReportErrorCount(exitcode);
      case OneQuery(query) =>
        CommandIsCountedOnce(query, Now(), pings);
        var ok := RunCommand(query);
        if !ok {
          exitcode := EXIT_QUERY;
        }
    }
  }

  // ------------------------------------------------------------ every failure counts once

  function Failures(log: seq<Command>): nat {
    if log == [] then 0 else Failures(log[..|log| - 1]) + if Succeeds(log[|log| - 1]) then 0 else 1
  }

  lemma {:induction false} FailuresAdd(a: seq<Command>, b: seq<Command>)
    ensures Failures(a + b) == Failures(a) + Failures(b)
  {
    if b == [] {
      assert a + b == a;
    } else {
      FailuresAdd(a, b[..|b| - 1]);
      assert (a + b)[..|a + b| - 1] == a + b[..|b| - 1];
    }
  }

  /** What has been executed between two states. */
  function Executed(from: State, to: State): seq<Command>
    requires |from.log| <= |to.log|
  {
    to.log[|from.log|..]
  }

  lemma ExecutedSplits(a: State, b: State, c: State)
    requires a.log <= b.log <= c.log
    ensures Executed(a, c) == Executed(a, b) + Executed(b, c)
    ensures Failures(Executed(a, c)) == Failures(Executed(a, b)) + Failures(Executed(b, c))
  {
    FailuresAdd(Executed(a, b), Executed(b, c));
  }

  /** A command's failures, once the loop around it has counted it, are those of the commands that
      were executed for it. */
  lemma {:induction false} CommandIsCountedOnce(c: Command, st: State, pings: nat -> bool)
    ensures
      var after := AfterCommand(c, st, pings);
      && st.log <= after.state.log
      && (after.exitcode == EXIT_SUCCESS <==> Failures(Executed(st, after.state)) == 0)
      && (if after.exitcode == EXIT_SUCCESS then after.state else Counted(after.state, st.errorCount)).errorCount
         == st.errorCount + Failures(Executed(st, after.state))
    decreases c, 0
  {
    match c
    case Run(Opened(commands)) => CommandsAreCountedOnce(commands, st, EXIT_SUCCESS, pings);
    case _ => OneExecuted(st, c);
  }

  lemma OneExecuted(st: State, c: Command)
    ensures Executed(st, Logged(st, c)) == [c]
    ensures Failures([c]) == if Succeeds(c) then 0 else 1
  {
    assert [c][..0] == [];
  }

  lemma {:induction false} CommandsAreCountedOnce(commands: seq<Command>, st: State, exitcode: int, pings: nat -> bool)
    ensures
      var after := AfterCommands(commands, st, exitcode, pings);
      && st.log <= after.state.log
      && after.state.errorCount == st.errorCount + Failures(Executed(st, after.state))
      && after.exitcode == if Failures(Executed(st, after.state)) == 0 then exitcode else EXIT_QUERY
    decreases commands, 1
  {
    if commands != [] {
      CommandIsCountedOnce(commands[0], st, pings);
      var first := AfterCommand(commands[0], st, pings);
      if first.exitcode == EXIT_SUCCESS {
        CommandsAreCountedOnce(commands[1..], first.state, exitcode, pings);
        ExecutedSplits(st, first.state, AfterCommands(commands, st, exitcode, pings).state);
      } else {
        var counted := Counted(first.state, st.errorCount);
        if counted.continueOnError && pings(counted.pinged) {
          var pinged := counted.(pinged := counted.pinged + 1);
          CommandsAreCountedOnce(commands[1..], pinged, EXIT_QUERY, pings);
          ExecutedSplits(st, pinged, AfterCommands(commands, st, exitcode, pings).state);
        }
      }
    } else {
      assert Executed(st, st) == [];
    }
  }

  /** For every tree of scripts, every sequence of ping answers and every change of continueonerror
      on the way: the count rises by exactly the number of executed commands that failed, the run of
      a script that can't be opened being one of them, and a script that could be opened succeeds
      exactly when its own rise is 0. */
  lemma EachFailureCountsOnce(script: Script, st: State, pings: nat -> bool)
    ensures
      var after := AfterScript(script, st, pings);
      && st.log <= after.state.log
      && after.state.errorCount == st.errorCount + Failures(Executed(st, after.state))
      && after.exitcode ==
           if script.Unopenable? then EXIT_SCRIPT
           else if Failures(Executed(st, after.state)) == 0 then EXIT_SUCCESS else EXIT_QUERY
  {
    match script
    case Unopenable => assert Executed(st, st) == [];
    case Opened(commands) => CommandsAreCountedOnce(commands, st, EXIT_SUCCESS, pings);
  }

  // ------------------------------------------------------------ how much of a script is executed

  predicate NeverSets(c: Command, on: bool)
    decreases c, 0
  {
    match c
    case Statement(_) => true
    case ContinueOnError(value) => value != on
    case Run(Unopenable) => true
    case Run(Opened(commands)) => NoneSets(commands, on)
  }

  predicate NoneSets(commands: seq<Command>, on: bool)
    decreases commands, 1
  {
    commands == [] || (NeverSets(commands[0], on) && NoneSets(commands[1..], on))
  }

  /** All the commands there are, in order, those of a script in the place of its run. */
  function Leaves(c: Command): seq<Command>
    decreases c, 0
  {
    match c
    case Run(Opened(commands)) => AllLeaves(commands)
    case _ => [c]
  }

  function AllLeaves(commands: seq<Command>): seq<Command>
    decreases commands, 1
  {
    if commands == [] then [] else Leaves(commands[0]) + AllLeaves(commands[1..])
  }

  /** The leaves up to and including the first that fails. */
  function UpToFailure(leaves: seq<Command>): seq<Command> {
    if leaves == [] then []
    else [leaves[0]] + if Succeeds(leaves[0]) then UpToFailure(leaves[1..]) else []
  }

  lemma FailuresFromTheFront(a: seq<Command>)
    requires a != []
    ensures Failures(a) == (if Succeeds(a[0]) then 0 else 1) + Failures(a[1..])
  {
    assert a == [a[0]] + a[1..];
    FailuresAdd([a[0]], a[1..]);
    assert [a[0]][..0] == [];
    assert Failures([a[0]]) == if Succeeds(a[0]) then 0 else 1;
  }

  lemma UpToFailureFirst(c: Command, rest: seq<Command>)
    ensures UpToFailure([c] + rest) == [c] + if Succeeds(c) then UpToFailure(rest) else []
  {
    assert ([c] + rest)[1..] == rest;
  }

  lemma {:induction false} UpToFailureAppends(a: seq<Command>, b: seq<Command>)
    ensures UpToFailure(a + b) == if Failures(a) == 0 then a + UpToFailure(b) else UpToFailure(a)
    ensures Failures(a) == 0 ==> UpToFailure(a) == a
  {
    assert UpToFailure([]) == [] && Failures([]) == 0;
    hide Failures, Succeeds, UpToFailure;
    if a == [] {
      assert a + b == b;
      assert [] + UpToFailure(b) == UpToFailure(b);
    } else {
      var c, rest := a[0], a[1..];
      HeadAndTail(a);
      FailuresFromTheFront(a);
      UpToFailureFirst(c, rest);
      UpToFailureFirst(c, rest + b);
      UpToFailureAppends(rest, b);
      Regrouped([c], rest, b);
      Regrouped([c], rest, UpToFailure(b));
    }
  }

  lemma {:induction false} CommandStopsAtFailure(c: Command, st: State, pings: nat -> bool)
    requires !st.continueOnError && NeverSets(c, true)
    ensures
      var after := AfterCommand(c, st, pings);
      && !after.state.continueOnError && after.state.pinged == st.pinged
      && st.log <= after.state.log && Executed(st, after.state) == UpToFailure(Leaves(c))
      && (after.exitcode == EXIT_SUCCESS <==> Failures(Leaves(c)) == 0)
    decreases c, 0
  {
    match c
    case Run(Opened(commands)) => CommandsStopAtFailure(commands, st, EXIT_SUCCESS, pings);
    case _ => OneLeaf(st, c);
  }

  lemma OneLeaf(st: State, c: Command)
    ensures Executed(st, Logged(st, c)) == UpToFailure([c]) == [c]
    ensures Failures([c]) == if Succeeds(c) then 0 else 1
  {
    OneExecuted(st, c);
    assert [c][1..] == [];
  }

  /** With continueonerror off and never turned on, exactly the commands up to the first failure are
      executed, through any nesting of scripts. */
  lemma {:induction false} CommandsStopAtFailure(commands: seq<Command>, st: State, exitcode: int, pings: nat -> bool)
    requires !st.continueOnError && NoneSets(commands, true)
    ensures
      var after := AfterCommands(commands, st, exitcode, pings);
      && !after.state.continueOnError && after.state.pinged == st.pinged
      && st.log <= after.state.log && Executed(st, after.state) == UpToFailure(AllLeaves(commands))
      && after.exitcode == if Failures(AllLeaves(commands)) == 0 then exitcode else EXIT_QUERY
    decreases commands, 1
  {
    if commands == [] {
      assert Executed(st, st) == [];
    } else {
      CommandStopsAtFailure(commands[0], st, pings);
      var first := AfterCommand(commands[0], st, pings);
      UpToFailureAppends(Leaves(commands[0]), AllLeaves(commands[1..]));
      FailuresAdd(Leaves(commands[0]), AllLeaves(commands[1..]));
      if first.exitcode == EXIT_SUCCESS {
        CommandsStopAtFailure(commands[1..], first.state, exitcode, pings);
        ExecutedSplits(st, first.state, AfterCommands(commands, st, exitcode, pings).state);
      }
    }
  }

  lemma {:induction false} CommandRunsThrough(c: Command, st: State, pings: nat -> bool)
    requires st.continueOnError && NeverSets(c, false) && forall n :: pings(n)
    ensures
      var after := AfterCommand(c, st, pings);
      && after.state.continueOnError
      && st.log <= after.state.log && Executed(st, after.state) == Leaves(c)
    decreases c, 0
  {
    match c
    case Run(Opened(commands)) => CommandsRunThrough(commands, st, EXIT_SUCCESS, pings);
    case _ => OneLeaf(st, c);
  }

  /** With continueonerror on, never turned off, and a server that stays up, everything is
      executed. */
  lemma {:induction false} CommandsRunThrough(commands: seq<Command>, st: State, exitcode: int, pings: nat -> bool)
    requires st.continueOnError && NoneSets(commands, false) && forall n :: pings(n)
    ensures
      var after := AfterCommands(commands, st, exitcode, pings);
      && after.state.continueOnError
      && st.log <= after.state.log && Executed(st, after.state) == AllLeaves(commands)
    decreases commands, 1
  {
    if commands == [] {
      assert Executed(st, st) == [];
    } else {
      CommandRunsThrough(commands[0], st, pings);
      var first := AfterCommand(commands[0], st, pings);
      var next, code := first.state, exitcode;
      if first.exitcode != EXIT_SUCCESS {
        next, code := Counted(first.state, st.errorCount).(pinged := first.state.pinged + 1), EXIT_QUERY;
      }
      CommandsRunThrough(commands[1..], next, code, pings);
      ExecutedSplits(st, next, AfterCommands(commands, st, exitcode, pings).state);
    }
  }

  // ------------------------------------------------------------ exactly where a run ends

  /** What continueonerror is after some commands that were executed. */
  function OptionAfter(on: bool, executed: seq<Command>): bool {
    if executed == [] then on
    else
      var last := executed[|executed| - 1];
      if last.ContinueOnError? then last.on else OptionAfter(on, executed[..|executed| - 1])
  }

  /** What was executed for a command: the command, or the steps of the script that it ran. */
  datatype Trace = Leaf(command: Command) | Nested(steps: seq<Step>)

  /** One command, and the answer to the ping after it, if there was one. */
  datatype Step = Step(trace: Trace, ping: Option<bool>)

  function ExecutedIn(t: Trace): seq<Command>
    decreases t, 0
  {
    match t
    case Leaf(c) => [c]
    case Nested(steps) => AllExecuted(steps)
  }

  function AllExecuted(steps: seq<Step>): seq<Command>
    decreases steps, 1
  {
    if steps == [] then [] else ExecutedBy(steps[0]) + AllExecuted(steps[1..])
  }

  function ExecutedBy(s: Step): seq<Command>
    decreases s, 0
  {
    ExecutedIn(s.trace)
  }

  /** The answers to all the pings, in order. */
  function PingsIn(t: Trace): seq<bool>
    decreases t, 0
  {
    match t
    case Leaf(_) => []
    case Nested(steps) => AllPings(steps)
  }

  function AllPings(steps: seq<Step>): seq<bool>
    decreases steps, 1
  {
    if steps == [] then [] else PingsOf(steps[0]) + AllPings(steps[1..])
  }

  function PingsOf(s: Step): seq<bool>
    decreases s, 0
  {
    PingsIn(s.trace) + if s.ping.Some? then [s.ping.value] else []
  }

  predicate Failed(s: Step) {
    Failures(ExecutedBy(s)) > 0
  }

  /** The command failed, and there was no ping, or it wasn't answered. */
  predicate Ends(s: Step) {
    Failed(s) && s.ping != Some(true)
  }

  /** What is executed for a command where the option has a value; and there is a ping iff it failed and the
      option, which it may have changed, is on. */
  ghost predicate IsStepOf(c: Command, on: bool, s: Step)
    decreases c, 1
  {
    && IsTraceOf(c, on, s.trace)
    && (s.ping.Some? <==> Failed(s) && OptionAfter(on, ExecutedBy(s)))
  }

  ghost predicate IsTraceOf(c: Command, on: bool, t: Trace)
    decreases c, 0
  {
    match c
    case Run(Opened(commands)) => t.Nested? && AreStepsOf(commands, on, t.steps)
    case _ => t == Leaf(c)
  }

  /** The commands are taken in order, each with the option as all that was executed before it left it.  No
      step but the last ends the run, and if the last one doesn't, every command has been taken. */
  ghost predicate AreStepsOf(commands: seq<Command>, on: bool, steps: seq<Step>)
    decreases commands, 2
  {
    && |steps| <= |commands|
    && (forall i :: 0 <= i < |steps| ==> IsStepOf(commands[i], OptionAfter(on, AllExecuted(steps[..i])), steps[i]))
    && (forall i :: 0 <= i < |steps| - 1 ==> !Ends(steps[i]))
    && (|steps| < |commands| ==> steps != [] && Ends(steps[|steps| - 1]))
  }

  ghost predicate AreAnswers(pings: nat -> bool, n: nat, answers: seq<bool>) {
    forall i :: 0 <= i < |answers| ==> answers[i] == pings(n + i)
  }

  lemma {:induction false} OptionAfterAppends(on: bool, a: seq<Command>, b: seq<Command>)
    ensures OptionAfter(on, a + b) == OptionAfter(OptionAfter(on, a), b)
  {
    if b == [] {
      assert a + b == a;
    } else {
      OptionAfterAppends(on, a, b[..|b| - 1]);
      assert (a + b)[..|a + b| - 1] == a + b[..|b| - 1];
    }
  }

  lemma AllExecutedFirst(s: Step, rest: seq<Step>)
    ensures AllExecuted([s] + rest) == ExecutedBy(s) + AllExecuted(rest)
    ensures AllPings([s] + rest) == PingsOf(s) + AllPings(rest)
  {
    hide ExecutedBy, PingsOf;
    assert ([s] + rest)[1..] == rest;
  }

  /** The steps of a list are a step of its first command, and, unless that one ends the run, steps of the
      others. */
  lemma StepsFirst(commands: seq<Command>, on: bool, s: Step, rest: seq<Step>)
    requires commands != []
    ensures AreStepsOf(commands, on, [s] + rest)
       <==> IsStepOf(commands[0], on, s)
            && if Ends(s) then rest == [] else AreStepsOf(commands[1..], OptionAfter(on, ExecutedBy(s)), rest)
  {
    var steps := [s] + rest;
    var next := OptionAfter(on, ExecutedBy(s));
    hide IsStepOf, Ends, OptionAfter, ExecutedBy;
    assert steps[..0] == [];
    OptionOfNothing(on);
    forall i | 0 <= i < |rest|
      ensures steps[i + 1] == rest[i]
      ensures OptionAfter(on, AllExecuted(steps[..i + 1])) == OptionAfter(next, AllExecuted(rest[..i]))
    {
      assert steps[..i + 1] == [s] + rest[..i];
      AllExecutedFirst(s, rest[..i]);
      OptionAfterAppends(on, ExecutedBy(s), AllExecuted(rest[..i]));
    }
    assert steps[0] == s;
  }

  lemma OptionOfNothing(on: bool)
    ensures OptionAfter(on, []) == on
  {
  }

  lemma AnswersSplit(pings: nat -> bool, n: nat, a: seq<bool>, b: seq<bool>)
    ensures AreAnswers(pings, n, a + b) <==> AreAnswers(pings, n, a) && AreAnswers(pings, n + |a|, b)
  {
    if AreAnswers(pings, n, a + b) {
      forall i | 0 <= i < |a| ensures a[i] == pings(n + i) {
        assert (a + b)[i] == a[i];
      }
      forall i | 0 <= i < |b| ensures b[i] == pings(n + |a| + i) {
        assert (a + b)[|a| + i] == b[i];
      }
    }
  }

  /** What was executed between two states, and the pings, are those of some steps, and continueonerror is
      as what was executed leaves it. */
  ghost predicate Matches(from: State, to: State, executed: seq<Command>, answers: seq<bool>, pings: nat -> bool) {
    && from.log <= to.log && Executed(from, to) == executed
    && to.continueOnError == OptionAfter(from.continueOnError, executed)
    && to.pinged == from.pinged + |answers| && AreAnswers(pings, from.pinged, answers)
  }

  lemma MatchesBoth(a: State, b: State, c: State, first: seq<Command>, firstAnswers: seq<bool>,
                    second: seq<Command>, secondAnswers: seq<bool>, pings: nat -> bool)
    requires Matches(a, b, first, firstAnswers, pings) && Matches(b, c, second, secondAnswers, pings)
    ensures Matches(a, c, first + second, firstAnswers + secondAnswers, pings)
  {
    ExecutedSplits(a, b, c);
    OptionAfterAppends(a.continueOnError, first, second);
    AnswersSplit(pings, a.pinged, firstAnswers, secondAnswers);
    hide OptionAfter, Failures, AreAnswers;
  }

  /** A command of a list, and the ping after it if there is one. */
  function AfterStep(c: Command, st: State, pings: nat -> bool): (State, Option<bool>) {
    var first := AfterCommand(c, st, pings);
    var counted := Counted(first.state, st.errorCount);
    if first.exitcode == EXIT_SUCCESS then (first.state, None)
    else if !counted.continueOnError then (counted, None)
    else (counted.(pinged := counted.pinged + 1), Some(pings(counted.pinged)))
  }

  lemma StepIsTraced(c: Command, st: State, pings: nat -> bool, t: Trace)
    requires IsTraceOf(c, st.continueOnError, t)
    requires Matches(st, AfterCommand(c, st, pings).state, ExecutedIn(t), PingsIn(t), pings)
    ensures
      var (next, ping) := AfterStep(c, st, pings);
      var s := Step(t, ping);
      && IsStepOf(c, st.continueOnError, s)
      && Matches(st, next, ExecutedBy(s), PingsOf(s), pings)
      && (Failed(s) <==> AfterCommand(c, st, pings).exitcode != EXIT_SUCCESS)
  {
    CommandIsCountedOnce(c, st, pings);
    var (next, ping) := AfterStep(c, st, pings);
    hide AfterCommand, IsTraceOf, ExecutedIn, PingsIn, OptionAfter, Failures;
    if ping.Some? {
      AnswersSplit(pings, st.pinged, PingsIn(t), [ping.value]);
    } else {
      assert PingsIn(t) + [] == PingsIn(t);
    }
  }

  lemma {:induction false} CommandIsTraced(c: Command, st: State, pings: nat -> bool) returns (t: Trace)
    ensures IsTraceOf(c, st.continueOnError, t)
    ensures Matches(st, AfterCommand(c, st, pings).state, ExecutedIn(t), PingsIn(t), pings)
    decreases c, 0
  {
    match c
    case Run(Opened(commands)) =>
      var steps := CommandsAreTraced(commands, st, EXIT_SUCCESS, pings);
      t := Nested(steps);
    case _ =>
      t := Leaf(c);
      OneExecuted(st, c);
      assert [c][..0] == [];
  }

  /** Every run is made of such steps: what was executed, what was pinged, and what continueonerror is
      afterwards. */
  lemma {:induction false} CommandsAreTraced(commands: seq<Command>, st: State, exitcode: int, pings: nat -> bool)
      returns (steps: seq<Step>)
    ensures AreStepsOf(commands, st.continueOnError, steps)
    ensures Matches(st, AfterCommands(commands, st, exitcode, pings).state, AllExecuted(steps), AllPings(steps), pings)
    decreases commands, 1
  {
    if commands == [] {
      steps := [];
      NothingExecuted(st, pings);
    } else {
      var t := CommandIsTraced(commands[0], st, pings);
      StepIsTraced(commands[0], st, pings, t);
      var (next, ping) := AfterStep(commands[0], st, pings);
      var s := Step(t, ping);
      var rest := [];
      if Ends(s) {
        NothingExecuted(next, pings);
      } else {
        rest := CommandsAreTraced(commands[1..], next, if Failed(s) then EXIT_QUERY else exitcode, pings);
      }
      var end := AfterCommands(commands, st, exitcode, pings).state;
      assert end == if Ends(s) then next
        else AfterCommands(commands[1..], next, if Failed(s) then EXIT_QUERY else exitcode, pings).state;
      steps := [s] + rest;
      hide AfterCommand, AfterCommands, AfterStep, Matches, AreStepsOf, IsStepOf, AllExecuted, AllPings, ExecutedBy;
      StepsFirst(commands, st.continueOnError, s, rest);
      AllExecutedFirst(s, rest);
      MatchesBoth(st, next, end, ExecutedBy(s), PingsOf(s), AllExecuted(rest), AllPings(rest), pings);
    }
  }

  lemma NothingExecuted(st: State, pings: nat -> bool)
    ensures Matches(st, st, AllExecuted([]), AllPings([]), pings)
  {
  }

  lemma {:induction false} SameTrace(c: Command, on: bool, pings: nat -> bool, n: nat, t: Trace, u: Trace)
    requires IsTraceOf(c, on, t) && AreAnswers(pings, n, PingsIn(t))
    requires IsTraceOf(c, on, u) && AreAnswers(pings, n, PingsIn(u))
    ensures t == u
    decreases c, 0
  {
    match c
    case Run(Opened(commands)) => SameSteps(commands, on, pings, n, t.steps, u.steps);
    case _ =>
  }

  lemma SameStep(c: Command, on: bool, pings: nat -> bool, n: nat, s: Step, r: Step)
    requires IsStepOf(c, on, s) && AreAnswers(pings, n, PingsOf(s))
    requires IsStepOf(c, on, r) && AreAnswers(pings, n, PingsOf(r))
    ensures s == r
    decreases c, 1
  {
    hide IsTraceOf, PingsIn, ExecutedIn, OptionAfter, Failures;
    var a := if s.ping.Some? then [s.ping.value] else [];
    var b := if r.ping.Some? then [r.ping.value] else [];
    AnswersSplit(pings, n, PingsIn(s.trace), a);
    AnswersSplit(pings, n, PingsIn(r.trace), b);
    SameTrace(c, on, pings, n, s.trace, r.trace);
    if s.ping.Some? {
      assert a[0] == pings(n + |PingsIn(s.trace)| + 0) == b[0];
    }
  }

  lemma SomeStepIff(commands: seq<Command>, on: bool, steps: seq<Step>)
    requires AreStepsOf(commands, on, steps)
    ensures steps != [] <==> commands != []
  {
    hide IsStepOf, Ends;
  }

  lemma FirstAnswers(pings: nat -> bool, n: nat, s: Step, rest: seq<Step>)
    requires AreAnswers(pings, n, AllPings([s] + rest))
    ensures AreAnswers(pings, n, PingsOf(s)) && AreAnswers(pings, n + |PingsOf(s)|, AllPings(rest))
  {
    hide AreAnswers, AllPings, PingsOf;
    AllExecutedFirst(s, rest);
    AnswersSplit(pings, n, PingsOf(s), AllPings(rest));
  }

  /** There are no two ways to take them: with the same answers to the pings, the steps are the same.  So
      what is executed, and where a run ends, is just what AreStepsOf says. */
  lemma {:induction false} SameSteps(commands: seq<Command>, on: bool, pings: nat -> bool, n: nat, a: seq<Step>,
                                     b: seq<Step>)
    requires AreStepsOf(commands, on, a) && AreAnswers(pings, n, AllPings(a))
    requires AreStepsOf(commands, on, b) && AreAnswers(pings, n, AllPings(b))
    ensures a == b
    decreases commands, 2
  {
    hide AreStepsOf, IsStepOf, AllPings, PingsOf, ExecutedBy, AreAnswers, OptionAfter, Ends;
    SomeStepIff(commands, on, a);
    SomeStepIff(commands, on, b);
    if commands != [] {
      var s, more, r, others := a[0], a[1..], b[0], b[1..];
      HeadAndTail(a);
      HeadAndTail(b);
      StepsFirst(commands, on, s, more);
      StepsFirst(commands, on, r, others);
      FirstAnswers(pings, n, s, more);
      FirstAnswers(pings, n, r, others);
      SameStep(commands[0], on, pings, n, s, r);
      if !Ends(s) {
        SameSteps(commands[1..], OptionAfter(on, ExecutedBy(s)), pings, n + |PingsOf(s)|, more, others);
      }
    }
  }

  /** For every list of commands, whatever continueonerror was and is set to on the way, and whatever pings
      answer: if these are the steps that the rules allow, then the run executes just what they execute. */
  lemma RunIsItsSteps(commands: seq<Command>, st: State, exitcode: int, pings: nat -> bool, steps: seq<Step>)
    requires AreStepsOf(commands, st.continueOnError, steps) && AreAnswers(pings, st.pinged, AllPings(steps))
    ensures
      var after := AfterCommands(commands, st, exitcode, pings).state;
      && st.log <= after.log && Executed(st, after) == AllExecuted(steps)
      && after.continueOnError == OptionAfter(st.continueOnError, AllExecuted(steps))
      && after.pinged == st.pinged + |AllPings(steps)|
  {
    var taken := CommandsAreTraced(commands, st, exitcode, pings);
    SameSteps(commands, st.continueOnError, pings, st.pinged, taken, steps);
  }

  /** For example, a script that turns continueonerror off stops at its first failure. */
  lemma TurnedOffStops(pings: nat -> bool)
    ensures
      var script := [ContinueOnError(false), Statement(false), Statement(true)];
      AfterCommands(script, State(true, 0, 0, []), EXIT_SUCCESS, pings).state.log == script[..2]
  {
  }
}
