/** The capped reading of one process's two output streams. */
module BoundedStreams {
  import opened Prelude

  type Bytes = seq<bv8>

  const OUTPUT_LIMIT: nat := 65536
  const READ_SIZE: nat := 8192

  datatype Stream = Stdout | Stderr

  /** One stream that the selector reports readable, and how much the system offers of it. */
  datatype Ready = Ready(stream: Stream, offered: nat)

  /** One turn of the outer loop: the deadline has passed, or some streams are readable. */
  datatype Turn = Expired | Poll(ready: seq<Ready>)

  /** What happens to a process that both pipes outlived or left behind. */
  datatype Ending = Exited | DeadlinePassed | ExitedInTime | WaitExpired

  /** What one run of the process writes, and how the system schedules the reads. */
  datatype Execution = Execution(stdout: Bytes, stderr: Bytes, turns: seq<Turn>, ending: Ending, exitCode: int)

  datatype ProcessOutput = ProcessOutput(
    returncode: int, outputBytes: nat, truncated: bool, timedOut: bool, stdout: Bytes, stderr: Bytes)

  /** What `os.read` returns: nothing at the end of the stream, otherwise at least one byte and
      at most the requested number. */
  function Read(rest: Bytes, offered: nat, requested: nat): (chunk: Bytes)
    requires requested > 0
    ensures chunk <= rest && |chunk| <= requested && (chunk == [] <==> rest == [])
  {
    rest[..Min(|rest|, Min(requested, if offered == 0 then 1 else offered))]
  }

  // ----- what a schedule amounts to -----

  /** How many bytes of each stream are kept, which streams are still open, and whether the cap
      was hit. */
  datatype Progress = Progress(out: nat, err: nat, open: set<Stream>, cut: bool)

  const START := Progress(0, 0, {Stdout, Stderr}, false)

  function Kept(p: Progress, stream: Stream): nat { if stream.Stdout? then p.out else p.err }

  function Whole(e: Execution, stream: Stream): nat { if stream.Stdout? then |e.stdout| else |e.stderr| }

  /** One report: the end of the stream closes it; otherwise the system hands over what it
      offers, at most READ_SIZE bytes, and what does not fit under the cap is cut off. */
  function Serve(e: Execution, p: Progress, ready: Ready): Progress {
    var kept, whole := Kept(p, ready.stream), Whole(e, ready.stream);
    if p.cut || ready.stream !in p.open then p
    else if whole <= kept then p.(open := p.open - {ready.stream})
    else
      var chunk := Min(whole - kept, Min(READ_SIZE, if ready.offered == 0 then 1 else ready.offered));
      var room := if p.out + p.err <= OUTPUT_LIMIT then OUTPUT_LIMIT - p.out - p.err else 0;
      var fits := Min(chunk, room);
      Progress(if ready.stream.Stdout? then p.out + fits else p.out,
               if ready.stream.Stderr? then p.err + fits else p.err, p.open, chunk > room)
  }

  function ServeAll(e: Execution, p: Progress, ready: seq<Ready>): Progress {
    if ready == [] then p else Serve(e, ServeAll(e, p, ready[..|ready| - 1]), ready[|ready| - 1])
  }

  predicate Over(p: Progress) {
    p.open == {} || p.cut
  }

  /** Where the select loop stops. */
  function Reached(e: Execution, p: Progress, turns: seq<Turn>): Progress
    decreases |turns|
  {
    if Over(p) || turns == [] || turns[0].Expired? then p
    else Reached(e, ServeAll(e, p, turns[0].ready), turns[1..])
  }

  /** Time runs out before both ends of stream are reported and before the cap is hit. */
  predicate RunsOut(e: Execution) {
    !Over(Reached(e, START, e.turns))
  }

  lemma {:induction false} ServeCut(e: Execution, p: Progress, ready: seq<Ready>, k: nat)
    requires k <= |ready| && ServeAll(e, p, ready[..k]).cut
    ensures ServeAll(e, p, ready) == ServeAll(e, p, ready[..k])
  {
    if k < |ready| {
      assert ready[..|ready| - 1][..k] == ready[..k];
      ServeCut(e, p, ready[..|ready| - 1], k);
    } else {
      assert ready[..k] == ready;
    }
  }

  lemma ServeReads(e: Execution, p: Progress, ready: Ready, rest: Bytes)
    requires !p.cut && ready.stream in p.open && p.out + p.err <= OUTPUT_LIMIT
    requires |rest| == Whole(e, ready.stream) - Kept(p, ready.stream)
    ensures var allowed := OUTPUT_LIMIT - (p.out + p.err);
            var chunk := Read(rest, ready.offered, Min(READ_SIZE, allowed + 1));
            var fits := Min(|chunk|, allowed);
            Serve(e, p, ready) ==
            if chunk == [] then p.(open := p.open - {ready.stream})
            else if ready.stream.Stdout? then Progress(p.out + fits, p.err, p.open, |chunk| > allowed)
            else Progress(p.out, p.err + fits, p.open, |chunk| > allowed)
  {
  }

  lemma ServeNone(e: Execution, p: Progress, ready: seq<Ready>)
    ensures ServeAll(e, p, ready[..0]) == p
  {
  }

  lemma ServeNext(e: Execution, p: Progress, ready: seq<Ready>, k: nat)
    requires k < |ready|
    ensures ServeAll(e, p, ready[..k + 1]) == Serve(e, ServeAll(e, p, ready[..k]), ready[k])
    ensures ready[k].stream !in ServeAll(e, p, ready[..k]).open ==>
              ServeAll(e, p, ready[..k + 1]) == ServeAll(e, p, ready[..k])
  {
    assert ready[..k + 1][..k] == ready[..k];
  }

  // ----- when a schedule serves both streams -----

  ghost predicate InRange(e: Execution, p: Progress) {
    p.out <= |e.stdout| && p.err <= |e.stderr|
  }

  ghost function Ahead(e: Execution, p: Progress): nat
    requires InRange(e, p)
  {
    |e.stdout| - p.out + |e.stderr| - p.err + |p.open|
  }

  /** Serving a stream that is not finished cuts, or leaves less ahead. */
  ghost predicate Advances(e: Execution, p: Progress, q: Progress)
    requires InRange(e, p)
  {
    InRange(e, q) && (q == p || q.cut || Ahead(e, q) < Ahead(e, p))
  }

  lemma ServeAdvances(e: Execution, p: Progress, ready: Ready)
    requires InRange(e, p)
    ensures Advances(e, p, Serve(e, p, ready))
    ensures !p.cut && ready.stream in p.open ==> Serve(e, p, ready) != p
  {
  }

  lemma {:induction false} AllAdvance(e: Execution, p: Progress, ready: seq<Ready>)
    requires InRange(e, p)
    ensures Advances(e, p, ServeAll(e, p, ready))
    ensures ServeAll(e, p, ready) == p && !p.cut ==> forall r | r in ready :: r.stream !in p.open
  {
    hide Serve;
    if ready != [] {
      var init, last := ready[..|ready| - 1], ready[|ready| - 1];
      AllAdvance(e, p, init);
      ServeAdvances(e, ServeAll(e, p, init), last);
      assert ready == init + [last];
      if ServeAll(e, p, init).cut {
        ServeCut(e, p, ready, |init|);
      }
    }
  }

  /** A turn in which both streams are readable. */
  predicate Fair(turn: Turn) {
    && turn.Poll?
    && (exists r | r in turn.ready :: r.stream == Stdout) && exists r | r in turn.ready :: r.stream == Stderr
  }

  /** A schedule that starts with enough turns in which both streams are readable does not run out
      of time, however few bytes each read returns. */
  lemma {:induction false} FairReaches(e: Execution, p: Progress, turns: seq<Turn>, k: nat)
    requires InRange(e, p) && Ahead(e, p) <= k <= |turns| && forall i | 0 <= i < k :: Fair(turns[i])
    ensures Over(Reached(e, p, turns))
    decreases |turns|
  {
    hide ServeAll;
    if !Over(p) {
      var next := ServeAll(e, p, turns[0].ready);
      AllAdvance(e, p, turns[0].ready);
      assert Fair(turns[0]);
      if next == p {
        var s :| s in p.open;
        assert s == Stdout || s == Stderr;
      }
      if !next.cut {
        FairReaches(e, next, turns[1..], k - 1);
      }
    }
  }

  lemma FairFinishes(e: Execution, k: nat)
    requires |e.stdout| + |e.stderr| + 2 <= k <= |e.turns| && forall i | 0 <= i < k :: Fair(e.turns[i])
    ensures !RunsOut(e)
  {
    FairReaches(e, START, e.turns, k);
  }

  // ----- the loop -----

  /** The mutable state of the loop: registered streams, retained buffers and the two flags. */
  class Reader {
    const execution: Execution
    var registered: set<Stream>
    var stdout: Bytes
    var stderr: Bytes
    var truncated: bool
    var timedOut: bool
    var alive: bool

    constructor (execution: Execution)
      ensures this.execution == execution && Valid() && !truncated && !timedOut && Now() == START
    {
      this.execution := execution;
      registered := {Stdout, Stderr};
      stdout, stderr, truncated, timedOut, alive := [], [], false, false, true;
    }

    ghost predicate Valid()
      reads this
    {
      && stdout <= execution.stdout && stderr <= execution.stderr
      && |stdout| + |stderr| <= OUTPUT_LIMIT
      && (Stdout !in registered ==> stdout == execution.stdout)
      && (Stderr !in registered ==> stderr == execution.stderr)
      && (truncated ==> |stdout| + |stderr| == OUTPUT_LIMIT < |execution.stdout| + |execution.stderr|)
      && !(truncated && timedOut)
      && (truncated || timedOut <==> !alive)
    }

    ghost function Now(): Progress
      reads this
    {
      Progress(|stdout|, |stderr|, registered, truncated)
    }

    /** One read of one readable stream. */
    method ReadOne(ready: Ready)
      requires Valid() && alive && ready.stream in registered
      modifies this`registered, this`stdout, this`stderr, this`truncated, this`alive
      ensures Valid() && timedOut == old(timedOut) && Now() == Serve(execution, old(Now()), ready)
    {
      hide Serve, Read;
      ghost var before := Now();
      var total := |stdout| + |stderr|;
      var allowed := OUTPUT_LIMIT - total;
      var rest := if ready.stream.Stdout? then execution.stdout[|stdout|..] else execution.stderr[|stderr|..];
      ServeReads(execution, before, ready, rest);
      var chunk := Read(rest, ready.offered, Min(READ_SIZE, allowed + 1));
      if chunk == [] {
        registered := registered - {ready.stream};
        return;
      }
      var accepted := chunk[..Min(|chunk|, allowed)];
      assert accepted <= rest;
      if ready.stream.Stdout? {
        assert stdout + accepted <= stdout + rest == execution.stdout;
        stdout := stdout + accepted;
      } else {
        assert stderr + accepted <= stderr + rest == execution.stderr;
        stderr := stderr + accepted;
      }
      if |chunk| > allowed {
        truncated := true;
        alive := false;
      }
    }

    /** The select loop; when the schedule is used up, the deadline has passed. */
    method ReadAll()
      requires Valid() && alive
      modifies this`registered, this`stdout, this`stderr, this`truncated, this`timedOut, this`alive
      ensures Valid() && (alive ==> registered == {})
      ensures Now() == Reached(execution, old(Now()), execution.turns)
      ensures timedOut <==> !Over(Now())
    {
      hide ServeAll, Serve;
      var i := 0;
      assert execution.turns[0..] == execution.turns;
      while registered != {} && !truncated
        invariant Valid() && alive == !truncated && !timedOut && i <= |execution.turns|
        invariant Reached(execution, Now(), execution.turns[i..]) == Reached(execution, old(Now()), execution.turns)
        decreases |execution.turns| - i
      {
        assert i < |execution.turns| ==>
          execution.turns[i..][0] == execution.turns[i] && execution.turns[i..][1..] == execution.turns[i + 1..];
        if i >= |execution.turns| || execution.turns[i].Expired? {
          timedOut := true;
          alive := false;
          break;
        }
        var ready := execution.turns[i].ready;
        ghost var before := Now();
        ServeNone(execution, before, ready);
        for k := 0 to |ready|
          invariant Valid() && alive && !truncated && !timedOut
          invariant Now() == ServeAll(execution, before, ready[..k])
        {
          ServeNext(execution, before, ready, k);
          if ready[k].stream in registered {
            ReadOne(ready[k]);
            if truncated {
              ServeCut(execution, before, ready, k + 1);
              assert Now() == ServeAll(execution, before, ready);
              break;
            }
          }
        }
        assert ready[..|ready|] == ready;
        assert Now() == ServeAll(execution, before, ready);
        i := i + 1;
      }
    }

    /** The wait for a process that is still alive after its pipes closed. */
    method AwaitExit()
      requires Valid() && (alive ==> registered == {})
      modifies this`timedOut, this`alive
      ensures Valid() && (timedOut || truncated || registered == {}) && Now() == old(Now())
      ensures timedOut <==>
              old(timedOut) || (old(alive) && (execution.ending.DeadlinePassed? || execution.ending.WaitExpired?))
    {
      if alive && (execution.ending.DeadlinePassed? || execution.ending.WaitExpired?) {
        timedOut := true;
        alive := false;
      }
    }
  }

  /** `stream_process`, without the digests. For every schedule: each buffer is a prefix of its
      stream, the cap is never exceeded, the flags exclude each other, an unflagged run kept
      both streams whole, and unless time ran out the truncation flag is exact. */
  method StreamProcess(execution: Execution) returns (output: ProcessOutput)
    ensures output.stdout <= execution.stdout && output.stderr <= execution.stderr
    ensures output.outputBytes == |output.stdout| + |output.stderr| <= OUTPUT_LIMIT
    ensures !(output.truncated && output.timedOut)
    ensures !output.truncated && !output.timedOut ==>
            output.stdout == execution.stdout && output.stderr == execution.stderr
    ensures output.truncated ==> output.outputBytes == OUTPUT_LIMIT
    ensures !output.timedOut ==> (output.truncated <==> |execution.stdout| + |execution.stderr| > OUTPUT_LIMIT)
    ensures output.returncode ==
            if output.timedOut then 124 else if output.truncated then 125 else execution.exitCode
    ensures output.timedOut <==>
            RunsOut(execution) ||
            (|execution.stdout| + |execution.stderr| <= OUTPUT_LIMIT &&
             (execution.ending.DeadlinePassed? || execution.ending.WaitExpired?))
    ensures output.truncated <==> !RunsOut(execution) && |execution.stdout| + |execution.stderr| > OUTPUT_LIMIT
    ensures var reached := Reached(execution, START, execution.turns);
            |output.stdout| == reached.out && |output.stderr| == reached.err
  {
    hide Reached;
    var reader := new Reader(execution);
    reader.ReadAll();
    reader.AwaitExit();
    output := ProcessOutput(
      if reader.timedOut then 124 else if reader.truncated then 125 else execution.exitCode,
      |reader.stdout| + |reader.stderr|, reader.truncated, reader.timedOut, reader.stdout, reader.stderr);
  }
}
