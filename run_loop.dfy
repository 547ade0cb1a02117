/**
 * The server's console loop (echo_dvc_server/src/main.rs, `run` and the way `main` ends on its
 * result). Each line read from the console is parsed on its own; WRITE/PUT sends the argument's
 * bytes on the channel and then reads the echo back; QUIT/EXIT ends the loop; a failed write or
 * read ends it with that error.
 */
module RunLoop {
  import opened Common
  import opened Completion
  import opened CommandLine
  import opened IoDvc

  /**
   * What the environment supplies for one pass of the loop: the text `read_line` appends to the
   * input, what the channel write would report, and what the channel read would return. The write
   * and the read are consulted only when the line is a WRITE/PUT command.
   */
  datatype Turn = Turn(line: string, write: WriteCall, read: Result<seq<byte>, HResult>)

  /** What the loop does that can be observed, in order. */
  datatype Event =
    | Wrote(data: seq<byte>)                      // one `write_dvc` call with these bytes
    | Read(reply: Result<seq<byte>, HResult>)     // one `read_dvc` call and what it returned
    | InvalidCommand                              // the "invalid command" message

  /** Why `run` returns an error: the HRESULT of the failed write or read, which it passes on. */
  datatype RunError = WriteFailed(code: HResult) | ReadFailed(code: HResult)

  /** How the loop ends, if it does: `run` returns, or it is still waiting for a line. */
  datatype RunOutcome = Finished(result: Result<(), RunError>) | AwaitingInput

  datatype Session = Session(outcome: RunOutcome, trace: seq<Event>)

  /** What one line does: the events it causes and, when it ends the loop, `run`'s result. */
  datatype Step = Step(events: seq<Event>, stop: Option<Result<(), RunError>>)

  /**
   * What line `t` does when lines are classified by `parse`. The loop is specified for any
   * classification, so what is proved about it holds whatever the line parsing does; `run` itself
   * classifies with `ParseLine`.
   */
  function TurnStep(parse: string -> Command, t: Turn): Step
  {
    match parse(t.line)
    case NoOp => Step([], None)
    case Quit => Step([], Some(Ok(())))
    case Invalid(_) => Step([InvalidCommand], None)
    case Send(arg) =>
      var data := Utf8(arg);
      match Resolve(t.write)
      case Err(code) => Step([Wrote(data)], Some(Err(WriteFailed(code))))
      case Ok(_) =>
        if t.read.Err? then Step([Wrote(data), Read(t.read)], Some(Err(ReadFailed(t.read.error))))
        else Step([Wrote(data), Read(t.read)], None)
  }

  /** The loop goes on after this line. */
  predicate Proceeds(parse: string -> Command, t: Turn)
  {
    TurnStep(parse, t).stop.None?
  }

  /** The loop from line `i` on: what it does and how it ends. */
  function RunFrom(parse: string -> Command, turns: seq<Turn>, i: nat): Session
    requires i <= |turns|
    decreases |turns| - i
  {
    if i == |turns| then Session(AwaitingInput, [])
    else
      var step := TurnStep(parse, turns[i]);
      if step.stop.Some? then Session(Finished(step.stop.value), step.events)
      else
        var rest := RunFrom(parse, turns, i + 1);
        Session(rest.outcome, step.events + rest.trace)
  }

  /** The whole loop, from the first line, with the lines parsed as `run` parses them. */
  function RunSpec(turns: seq<Turn>): Session
  {
    RunFrom(ParseLine, turns, 0)
  }

  /**
   * `run`: reads each line into a buffer, handles it, and clears the buffer after every line that
   * does not end the loop; QUIT/EXIT (the `break`) and a failed transfer (the `?`) end it.
   */
  method Run(turns: seq<Turn>) returns (outcome: RunOutcome, trace: seq<Event>)
    ensures Session(outcome, trace) == RunSpec(turns)
  {
    var input: string := "";
    trace := [];
    var i := 0;
    assert trace + RunFrom(ParseLine, turns, 0).trace == RunFrom(ParseLine, turns, 0).trace;
    while true
      invariant i <= |turns| && input == ""
      invariant RunSpec(turns) == Session(RunFrom(ParseLine, turns, i).outcome, trace + RunFrom(ParseLine, turns, i).trace)
      decreases |turns| - i
    {
      if i == |turns| {
        return AwaitingInput, trace;
      }
      ghost var before := trace;
      input := input + turns[i].line;
      var events, stop := Dispatch(input, turns[i]);
      trace := trace + events;
      if stop.Some? {
        StopsAt(ParseLine, turns, i, before);
        return Finished(stop.value), trace;
      }
      GoesOnAfter(ParseLine, turns, i, before, trace);
      input := "";
      i := i + 1;
    }
  }

  /**
   * The body of the loop for one line: parse it and act on the command. WRITE/PUT writes the
   * argument's UTF-8 bytes, and only when the write succeeds reads the reply.
   */
  method Dispatch(input: string, t: Turn) returns (events: seq<Event>, stop: Option<Result<(), RunError>>)
    requires input == t.line
    ensures Step(events, stop) == TurnStep(ParseLine, t)
  {
    events := [];
    stop := None;
    match ParseLine(input) {
      case NoOp =>
      case Quit =>
        stop := Some(Ok(()));
      case Send(arg) =>
        var data := Utf8(arg);
        var written, _ := WriteDvc(data, t.write);
        events := events + [Wrote(data)];
        if written.Err? {
          stop := Some(Err(WriteFailed(written.error)));
          return;
        }
        var reply := t.read;
        events := events + [Read(reply)];
        if reply.Err? {
          stop := Some(Err(ReadFailed(reply.error)));
        }
      case Invalid(_) =>
        events := events + [InvalidCommand];
    }
  }

  /** The session so far, when line `i` ends the loop. */
  lemma StopsAt(parse: string -> Command, turns: seq<Turn>, i: nat, before: seq<Event>)
    requires i < |turns| && TurnStep(parse, turns[i]).stop.Some?
    requires RunFrom(parse, turns, 0) == Session(RunFrom(parse, turns, i).outcome, before + RunFrom(parse, turns, i).trace)
    ensures RunFrom(parse, turns, 0) == Session(Finished(TurnStep(parse, turns[i]).stop.value), before + TurnStep(parse, turns[i]).events)
  {
  }

  /** The session so far, when the loop goes on after line `i`. */
  lemma GoesOnAfter(parse: string -> Command, turns: seq<Turn>, i: nat, before: seq<Event>, trace: seq<Event>)
    requires i < |turns| && TurnStep(parse, turns[i]).stop.None?
    requires trace == before + TurnStep(parse, turns[i]).events
    requires RunFrom(parse, turns, 0) == Session(RunFrom(parse, turns, i).outcome, before + RunFrom(parse, turns, i).trace)
    ensures RunFrom(parse, turns, 0) == Session(RunFrom(parse, turns, i + 1).outcome, trace + RunFrom(parse, turns, i + 1).trace)
  {
    AppendAssoc(before, TurnStep(parse, turns[i]).events, RunFrom(parse, turns, i + 1).trace);
  }

  lemma AppendAssoc<T>(a: seq<T>, b: seq<T>, c: seq<T>)
    ensures a + (b + c) == (a + b) + c
  {
  }

  /** The status `main` exits with: 0 when `run` returns Ok, 1 when it returns an error. */
  function ExitStatus(r: Result<(), RunError>): (status: int)
    ensures status == 0 <==> r.Ok?
    ensures status == 1 <==> r.Err?
  {
    if r.Ok? then 0 else 1
  }

  // ---------------------------------------------------------------------------------------------
  // The order of events

  /**
   * The trace of a session: invalid-command messages and write/read pairs in any order, each write
   * immediately followed by its one read; a failed write ends the trace (no read follows), a failed
   * read ends the trace; and the session ends in an error exactly when the trace ends that way,
   * with that error's code.
   */
  predicate Shaped(trace: seq<Event>, outcome: RunOutcome)
    decreases |trace|
  {
    if trace == [] then !(outcome.Finished? && outcome.result.Err?)
    else match trace[0]
      case InvalidCommand => Shaped(trace[1..], outcome)
      case Read(_) => false
      case Wrote(_) =>
        if |trace| == 1 then outcome.Finished? && outcome.result.Err? && outcome.result.error.WriteFailed?
        else
          trace[1].Read? &&
          if trace[1].reply.Err? then
            |trace| == 2 && outcome == Finished(Err(ReadFailed(trace[1].reply.error)))
          else Shaped(trace[2..], outcome)
  }

  /** Every session has that shape: one write then one read per WRITE/PUT line, an error stops it. */
  lemma {:induction false} RunFromShaped(parse: string -> Command, turns: seq<Turn>, i: nat)
    requires i <= |turns|
    ensures Shaped(RunFrom(parse, turns, i).trace, RunFrom(parse, turns, i).outcome)
    decreases |turns| - i
  {
    if i < |turns| {
      var step := TurnStep(parse, turns[i]);
      if step.stop.None? {
        var rest := RunFrom(parse, turns, i + 1);
        RunFromShaped(parse, turns, i + 1);
        var trace := step.events + rest.trace;
        match parse(turns[i].line)
        case NoOp =>
          assert trace == rest.trace;
        case Invalid(_) =>
          assert trace[1..] == rest.trace;
        case Send(arg) =>
          assert trace[2..] == rest.trace;
      }
    }
  }

  // ---------------------------------------------------------------------------------------------
  // How the loop ends

  /** The loop goes on after each line from `i` up to, not including, `k`. */
  predicate ProceedsBetween(parse: string -> Command, turns: seq<Turn>, i: nat, k: nat)
    requires i <= k <= |turns|
  {
    forall j {:trigger Proceeds(parse, turns[j])} | i <= j < k :: Proceeds(parse, turns[j])
  }

  /** The first line from `i` on after which the loop does not go on, or `|turns|` if there is none. */
  function StopFrom(parse: string -> Command, turns: seq<Turn>, i: nat): (k: nat)
    requires i <= |turns|
    ensures i <= k <= |turns|
    ensures ProceedsBetween(parse, turns, i, k)
    ensures k < |turns| ==> !Proceeds(parse, turns[k])
    decreases |turns| - i
  {
    if i == |turns| || !Proceeds(parse, turns[i]) then i else StopFrom(parse, turns, i + 1)
  }

  /**
   * The loop ends at the first line that does not let it go on, with that line's result; if every
   * line lets it go on, it is still waiting for input.
   */
  lemma {:induction false} RunFromOutcome(parse: string -> Command, turns: seq<Turn>, i: nat)
    requires i <= |turns|
    ensures StopFrom(parse, turns, i) == |turns| ==> RunFrom(parse, turns, i).outcome == AwaitingInput
    ensures StopFrom(parse, turns, i) < |turns| ==>
      RunFrom(parse, turns, i).outcome == Finished(TurnStep(parse, turns[StopFrom(parse, turns, i)]).stop.value)
    decreases |turns| - i
  {
    if i < |turns| && Proceeds(parse, turns[i]) {
      RunFromOutcome(parse, turns, i + 1);
    }
  }

  /** A line at which the loop arrives and stops is where it stops. */
  lemma {:induction false} StopFromIs(parse: string -> Command, turns: seq<Turn>, i: nat, k: nat)
    requires i <= k < |turns| && !Proceeds(parse, turns[k])
    requires ProceedsBetween(parse, turns, i, k)
    ensures StopFrom(parse, turns, i) == k
    decreases k - i
  {
    if i < k {
      StopFromIs(parse, turns, i + 1, k);
    }
  }

  /** A QUIT or EXIT line reached by the loop ends it, and `run` returns Ok. */
  lemma QuitEndsRun(parse: string -> Command, turns: seq<Turn>, k: nat)
    requires k < |turns| && parse(turns[k].line).Quit?
    requires ProceedsBetween(parse, turns, 0, k)
    ensures RunFrom(parse, turns, 0).outcome == Finished(Ok(()))
    ensures ExitStatus(RunFrom(parse, turns, 0).outcome.result) == 0
  {
    StopFromIs(parse, turns, 0, k);
    RunFromOutcome(parse, turns, 0);
  }

  /** `run` returns Ok only because a QUIT or EXIT line was reached. */
  lemma OkOnlyAfterQuit(parse: string -> Command, turns: seq<Turn>)
    ensures RunFrom(parse, turns, 0).outcome == Finished(Ok(())) ==>
      StopFrom(parse, turns, 0) < |turns| && parse(turns[StopFrom(parse, turns, 0)].line).Quit?
  {
    RunFromOutcome(parse, turns, 0);
  }

  /**
   * A WRITE/PUT line whose write or read fails ends the loop at once: `run` returns that
   * transfer's error code, and `main` exits with status 1.
   */
  lemma TransferErrorAborts(parse: string -> Command, turns: seq<Turn>, k: nat)
    requires k < |turns| && parse(turns[k].line).Send?
    requires Resolve(turns[k].write).Err? || turns[k].read.Err?
    requires ProceedsBetween(parse, turns, 0, k)
    ensures RunFrom(parse, turns, 0).outcome.Finished? && RunFrom(parse, turns, 0).outcome.result.Err?
    ensures Resolve(turns[k].write).Err? ==>
      RunFrom(parse, turns, 0).outcome.result.error == WriteFailed(Resolve(turns[k].write).error)
    ensures Resolve(turns[k].write).Ok? ==>
      RunFrom(parse, turns, 0).outcome.result.error == ReadFailed(turns[k].read.error)
    ensures ExitStatus(RunFrom(parse, turns, 0).outcome.result) == 1
  {
    StopFromIs(parse, turns, 0, k);
    RunFromOutcome(parse, turns, 0);
  }

  /** A run that returns an error ends on a WRITE/PUT line whose write or read failed. */
  lemma ErrOnlyFromTransfer(parse: string -> Command, turns: seq<Turn>)
    ensures RunFrom(parse, turns, 0).outcome.Finished? && RunFrom(parse, turns, 0).outcome.result.Err? ==>
      var k := StopFrom(parse, turns, 0);
      k < |turns| && parse(turns[k].line).Send? &&
      (Resolve(turns[k].write).Err? || turns[k].read.Err?)
  {
    RunFromOutcome(parse, turns, 0);
  }

  // ---------------------------------------------------------------------------------------------
  // Lines that do not touch the channel

  /** The loop from line `i` on depends only on the lines from `i` on. */
  lemma {:induction false} RunFromSuffix(parse: string -> Command, a: seq<Turn>, i: nat, b: seq<Turn>, j: nat)
    requires i <= |a| && j <= |b| && a[i..] == b[j..]
    ensures RunFrom(parse, a, i) == RunFrom(parse, b, j)
    decreases |a| - i
  {
    if i < |a| {
      assert a[i] == a[i..][0] == b[j..][0] == b[j];
      assert a[i + 1..] == a[i..][1..] == b[j..][1..] == b[j + 1..];
      RunFromSuffix(parse, a, i + 1, b, j + 1);
    }
  }

  /** A blank line anywhere changes nothing: the loop just reads the next one. */
  lemma {:induction false} BlankLineInert(parse: string -> Command, pre: seq<Turn>, t: Turn, post: seq<Turn>, j: nat)
    requires j <= |pre| && parse(t.line).NoOp?
    ensures RunFrom(parse, pre + [t] + post, j) == RunFrom(parse, pre + post, j)
    decreases |pre| - j
  {
    var with, without := pre + [t] + post, pre + post;
    if j == |pre| {
      assert with[j] == t;
      assert with[j + 1..] == post == without[j..];
      RunFromSuffix(parse, with, j + 1, without, j);
    } else {
      assert with[j] == without[j] == pre[j];
      BlankLineInert(parse, pre, t, post, j + 1);
    }
  }

  /** The channel traffic of a trace: its events without the invalid-command messages. */
  function Transfers(trace: seq<Event>): (t: seq<Event>)
    ensures |t| <= |trace|
    ensures forall k | 0 <= k < |t| :: !t[k].InvalidCommand?
  {
    if trace == [] then []
    else if trace[0].InvalidCommand? then Transfers(trace[1..])
    else [trace[0]] + Transfers(trace[1..])
  }

  lemma {:induction false} TransfersAppend(a: seq<Event>, b: seq<Event>)
    ensures Transfers(a + b) == Transfers(a) + Transfers(b)
    decreases |a|
  {
    if a != [] {
      TransfersAppend(a[1..], b);
      assert (a + b)[0] == a[0] && (a + b)[1..] == a[1..] + b;
    } else {
      assert a + b == b;
    }
  }

  /**
   * An unrecognised command anywhere only adds its message: how the loop ends and what goes over
   * the channel are unchanged, and the trace gains one event or, past the end of the loop, none.
   */
  lemma {:induction false} InvalidLineOnlyReports(parse: string -> Command, pre: seq<Turn>, t: Turn, post: seq<Turn>, j: nat)
    requires j <= |pre| && parse(t.line).Invalid?
    ensures RunFrom(parse, pre + [t] + post, j).outcome == RunFrom(parse, pre + post, j).outcome
    ensures Transfers(RunFrom(parse, pre + [t] + post, j).trace) == Transfers(RunFrom(parse, pre + post, j).trace)
    ensures |RunFrom(parse, pre + [t] + post, j).trace| == |RunFrom(parse, pre + post, j).trace| + 1
      || RunFrom(parse, pre + [t] + post, j).trace == RunFrom(parse, pre + post, j).trace
    decreases |pre| - j
  {
    var with, without := pre + [t] + post, pre + post;
    if j == |pre| {
      assert with[j] == t;
      assert with[j + 1..] == post == without[j..];
      RunFromSuffix(parse, with, j + 1, without, j);
      var rest := RunFrom(parse, without, j).trace;
      assert ([InvalidCommand] + rest)[1..] == rest;
    } else {
      assert with[j] == without[j] == pre[j];
      InvalidLineOnlyReports(parse, pre, t, post, j + 1);
      var step := TurnStep(parse, pre[j]);
      if step.stop.None? {
        TransfersAppend(step.events, RunFrom(parse, with, j + 1).trace);
        TransfersAppend(step.events, RunFrom(parse, without, j + 1).trace);
      }
    }
  }
}
