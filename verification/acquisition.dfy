/** The acquisition loop of `CaptureUSB.run` (capture_usb.py, lines 100-125)
    with the serial port and the clock replaced by a finite list of events.
    One event is one iteration of the `while` loop: the clock reading taken at
    its top, the timestamp string `str(datetime.now())` would give, and what
    `serial.readline().decode("utf-8")` produced. */
module Acquisition {
  import opened Seqs
  import opened Text
  import opened Typing

  /** The clock counts whole milliseconds; `int(time())` is the whole
      second of a reading. */
  function Second(t: nat): nat {
    t / 1000
  }

  /** `now + duration.seconds` with the clock in milliseconds. */
  function DeadlineOf(start: nat, duration: int): int {
    start + 1000 * duration
  }

  /** Result of reading one line: bytes that are not valid UTF-8, or the decoded text. */
  datatype Read = Undecodable | Received(raw: string)

  datatype Event = Event(clock: nat, stamp: string, read: Read)

  /** What one iteration does with the line it read. */
  datatype Handling = Ignored | Accepted(row: string) | Mismatched(got: nat)

  /** The row written for an accepted line: the timestamp, a comma, the
      stripped line exactly as received, and a newline. */
  function DataRow(stamp: string, line: string): string {
    stamp + "," + line + "\n"
  }

  /** The body of the `try` block: an undecodable read or a blank line is
      ignored; a line whose number of values differs from the number of
      columns is a mismatch; any other line becomes one row. */
  function Handle(columns: seq<string>, e: Event): Handling {
    match e.read
    case Undecodable => Ignored
    case Received(raw) =>
      var line := Strip(raw);
      if |line| == 0 then Ignored
      else
        var values := AsListOfStrings(Str(line));
        if |values| != |columns| then Mismatched(|values|)
        else Accepted(DataRow(e.stamp, line))
  }

  /** An iteration ignores exactly the undecodable and the blank reads; it
      accepts a line exactly when its number of values is the number of
      columns, and then writes the stripped line after the timestamp. */
  lemma HandleSpec(columns: seq<string>, e: Event)
    ensures Handle(columns, e).Ignored? <==> e.read.Undecodable? || AllSpace(e.read.raw)
    ensures Handle(columns, e).Accepted? <==>
      e.read.Received? && !AllSpace(e.read.raw) && |AsListOfStrings(Str(Strip(e.read.raw)))| == |columns|
    ensures Handle(columns, e).Accepted? ==> Handle(columns, e).row == DataRow(e.stamp, Strip(e.read.raw))
    ensures Handle(columns, e).Mismatched? ==>
      Handle(columns, e).got == |AsListOfStrings(Str(Strip(e.read.raw)))| != |columns|
  {
    if e.read.Received? {
      StripEmptyIff(e.read.raw);
    }
  }

  function Sum(ds: seq<nat>): nat
    decreases |ds|
  {
    if |ds| == 0 then 0 else ds[0] + Sum(ds[1..])
  }

  /** The progress update at the top of an iteration: when the whole second
      of `now` is past that of `updatedAt`, report the difference and move
      `updatedAt` to `now`. */
  function Tick(updatedAt: nat, now: nat): (r: (seq<nat>, nat))
    ensures |r.0| <= 1
    ensures forall k :: 0 <= k < |r.0| ==> r.0[k] > 0
    ensures Second(r.1) == if Second(now) > Second(updatedAt) then Second(now) else Second(updatedAt)
    ensures Sum(r.0) == Second(r.1) - Second(updatedAt)
  {
    if Second(now) > Second(updatedAt) then ([Second(now) - Second(updatedAt)], now)
    else ([], updatedAt)
  }

  /** One iteration seen by the loop: the clock reading at its top and what
      handling the line read in it came to. */
  datatype Step = Step(clock: nat, handling: Handling)

  /** Each event's line handled against the columns. Handling a line depends
      on nothing but the line and the columns, so handling every event up
      front is the same as handling each when its iteration comes. */
  function Classify(columns: seq<string>, events: seq<Event>): (steps: seq<Step>)
    ensures |steps| == |events|
    decreases |events|
  {
    if |events| == 0 then []
    else [Step(events[0].clock, Handle(columns, events[0]))] + Classify(columns, events[1..])
  }

  /** Iteration `k` sees the clock reading of event `k` and the handling of
      its line. */
  lemma {:induction false} ClassifyAt(columns: seq<string>, events: seq<Event>, k: nat)
    requires k < |events|
    ensures Classify(columns, events)[k] == Step(events[k].clock, Handle(columns, events[k]))
    decreases k
  {
    if k > 0 {
      ClassifyAt(columns, events[1..], k - 1);
    }
  }

  /** Handling a prefix of the events gives the prefix of the steps. */
  lemma ClassifyPrefix(columns: seq<string>, events: seq<Event>, n: nat)
    requires n <= |events|
    ensures Classify(columns, events[..n]) == Classify(columns, events)[..n]
  {
    var x := Classify(columns, events[..n]);
    var y := Classify(columns, events)[..n];
    forall k | 0 <= k < n
      ensures x[k] == y[k]
    {
      ClassifyAt(columns, events[..n], k);
      ClassifyAt(columns, events, k);
    }
  }

  /** Why the loop ended: the deadline was reached, a line had the wrong
      number of values (the size-mismatch assertion of `run`), or the
      events ran out while the loop was still waiting for the deadline. */
  datatype Stop = Deadline | SchemaMismatch(got: nat) | OutOfEvents

  /** What the loop produced: the rows appended in order, the counter, the
      progress deltas, the last progress time, why it stopped, and how many
      iterations it ran. */
  datatype Acquired = Acquired(
    rows: seq<string>,
    count: nat,
    deltas: seq<nat>,
    updatedAt: nat,
    stop: Stop,
    consumed: nat)

  /** The rows a list of iterations yields when every one of them is carried
      out: one per accepted line, in order. */
  function AcceptedRows(steps: seq<Step>): seq<string>
    decreases |steps|
  {
    if |steps| == 0 then []
    else
      var here := if steps[0].handling.Accepted? then [steps[0].handling.row] else [];
      here + AcceptedRows(steps[1..])
  }

  /** Nothing in `steps` ends the loop early: every clock reading is before
      the deadline and no line has the wrong number of values. */
  ghost predicate Uneventful(deadline: int, steps: seq<Step>) {
    forall k :: 0 <= k < |steps| ==> steps[k].clock < deadline && !steps[k].handling.Mismatched?
  }

  lemma SumAppend(x: seq<nat>, y: seq<nat>)
    ensures Sum(x + y) == Sum(x) + Sum(y)
    decreases |x|
  {
    if |x| == 0 {
      assert x + y == y;
    } else {
      assert (x + y)[1..] == x[1..] + y;
    }
  }

  /** `while now < timeout`, as a fold: `now` is the reading that was last
      compared with the deadline. The loop runs an iteration only while
      `now` is before the deadline, so the iteration whose reading reaches
      the deadline still reads and handles its line. */
  function Loop(deadline: int, now: nat, updatedAt: nat, steps: seq<Step>): (a: Acquired)
    ensures a.consumed <= |steps|
    ensures a.count == |a.rows|
    ensures a.consumed > 0 ==> now < deadline
    ensures a.stop.Deadline? ==>
      if a.consumed == 0 then deadline <= now else deadline <= steps[a.consumed - 1].clock
    ensures a.stop.SchemaMismatch? ==>
      a.consumed > 0 && steps[a.consumed - 1].handling == Mismatched(a.stop.got)
    ensures a.stop.OutOfEvents? ==> a.consumed == |steps| && now < deadline
    decreases |steps|
  {
    if deadline <= now then Acquired([], 0, [], updatedAt, Deadline, 0)
    else if |steps| == 0 then Acquired([], 0, [], updatedAt, OutOfEvents, 0)
    else
      var s := steps[0];
      var tick := Tick(updatedAt, s.clock);
      if s.handling.Mismatched? then
        Acquired([], 0, tick.0, tick.1, SchemaMismatch(s.handling.got), 1)
      else
        var a := Loop(deadline, s.clock, tick.1, steps[1..]);
        var here := if s.handling.Accepted? then [s.handling.row] else [];
        Acquired(here + a.rows, |here| + a.count, tick.0 + a.deltas, a.updatedAt, a.stop, a.consumed + 1)
  }

  /** Progress only moves forward: every reported delta is positive, the
      last progress time never falls behind the first, and the deltas add up
      to the whole seconds between them. */
  lemma {:induction false} LoopProgress(deadline: int, now: nat, updatedAt: nat, steps: seq<Step>)
    ensures var a := Loop(deadline, now, updatedAt, steps);
      && (forall k :: 0 <= k < |a.deltas| ==> a.deltas[k] > 0)
      && Second(updatedAt) <= Second(a.updatedAt)
      && Sum(a.deltas) == Second(a.updatedAt) - Second(updatedAt)
    decreases |steps|
  {
    if now < deadline && |steps| > 0 && !steps[0].handling.Mismatched? {
      var s := steps[0];
      var tick := Tick(updatedAt, s.clock);
      LoopProgress(deadline, s.clock, tick.1, steps[1..]);
      var b := Loop(deadline, s.clock, tick.1, steps[1..]);
      SumAppend(tick.0, b.deltas);
      var ds := tick.0 + b.deltas;
      forall k | 0 <= k < |ds|
        ensures ds[k] > 0
      {
        if k >= |tick.0| {
          assert ds[k] == b.deltas[k - |tick.0|];
        }
      }
    }
  }

  /** The rows the loop appends are exactly those of the iterations it ran,
      one per accepted line, in order. */
  lemma {:induction false} LoopRows(deadline: int, now: nat, updatedAt: nat, steps: seq<Step>)
    ensures var a := Loop(deadline, now, updatedAt, steps);
      a.rows == AcceptedRows(steps[..a.consumed])
    decreases |steps|
  {
    if now < deadline && |steps| > 0 {
      var s := steps[0];
      var tick := Tick(updatedAt, s.clock);
      if !s.handling.Mismatched? {
        var rest := steps[1..];
        LoopRows(deadline, s.clock, tick.1, rest);
        var c := Loop(deadline, s.clock, tick.1, rest).consumed;
        var run := steps[..c + 1];
        assert run[0] == s && run[1..] == rest[..c];
      } else {
        assert steps[..1][1..] == [];
      }
    }
  }

  /** A stretch is uneventful when its first step and the rest are. */
  lemma UneventfulCons(deadline: int, steps: seq<Step>)
    requires |steps| > 0
    ensures Uneventful(deadline, steps) <==>
      steps[0].clock < deadline && !steps[0].handling.Mismatched? && Uneventful(deadline, steps[1..])
  {
    if steps[0].clock < deadline && !steps[0].handling.Mismatched? && Uneventful(deadline, steps[1..]) {
      forall k | 1 <= k < |steps|
        ensures steps[k].clock < deadline && !steps[k].handling.Mismatched?
      {
        assert steps[k] == steps[1..][k - 1];
      }
    }
  }

  /** Every iteration before the last one run was harmless: its clock
      reading was before the deadline and its line did not mismatch. */
  lemma {:induction false} LoopUneventful(deadline: int, now: nat, updatedAt: nat, steps: seq<Step>)
    ensures var a := Loop(deadline, now, updatedAt, steps);
      a.consumed > 0 ==> Uneventful(deadline, steps[..a.consumed - 1])
    decreases |steps|
  {
    if now < deadline && |steps| > 0 {
      var s := steps[0];
      var tick := Tick(updatedAt, s.clock);
      if !s.handling.Mismatched? {
        var rest := steps[1..];
        LoopUneventful(deadline, s.clock, tick.1, rest);
        var c := Loop(deadline, s.clock, tick.1, rest).consumed;
        assert Loop(deadline, now, updatedAt, steps).consumed == c + 1;
        if c > 0 {
          var run := steps[..c];
          assert run[0] == s && run[1..] == rest[..c - 1];
          UneventfulCons(deadline, run);
        }
      }
    }
  }

  /** When the events run out, every iteration was harmless. */
  lemma {:induction false} RunOutUneventful(deadline: int, now: nat, updatedAt: nat, steps: seq<Step>)
    ensures Loop(deadline, now, updatedAt, steps).stop.OutOfEvents? ==> Uneventful(deadline, steps)
    decreases |steps|
  {
    if now < deadline && |steps| > 0 {
      var s := steps[0];
      var tick := Tick(updatedAt, s.clock);
      if !s.handling.Mismatched? {
        RunOutUneventful(deadline, s.clock, tick.1, steps[1..]);
        UneventfulCons(deadline, steps);
      }
    }
  }

  /** Rows of consecutive stretches of iterations add up. */
  lemma {:induction false} AcceptedRowsAppend(x: seq<Step>, y: seq<Step>)
    ensures AcceptedRows(x + y) == AcceptedRows(x) + AcceptedRows(y)
    decreases |x|
  {
    if |x| == 0 {
      assert x + y == y;
    } else {
      ConsAppend(x, y);
      AcceptedRowsAppend(x[1..], y);
      var here := if x[0].handling.Accepted? then [x[0].handling.row] else [];
      AppendAssoc(here, AcceptedRows(x[1..]), AcceptedRows(y));
    }
  }

  /** What `Uneventful` says about one position of a prefix. */
  lemma UneventfulAt(deadline: int, steps: seq<Step>, k: nat, j: int)
    requires k <= |steps|
    ensures Uneventful(deadline, steps[..k]) && 0 <= j < k ==>
      steps[j].clock < deadline && !steps[j].handling.Mismatched?
  {
    if Uneventful(deadline, steps[..k]) && 0 <= j < k {
      assert steps[..k][j] == steps[j];
    }
  }

  /** A clock reading at or past the deadline bounds the loop: if iteration
      `k` reads such a value, the loop never runs out of events and runs at
      most `k + 1` iterations. */
  lemma DeadlineBoundsIterations(deadline: int, now: nat, updatedAt: nat, steps: seq<Step>, k: nat)
    requires k < |steps| && deadline <= steps[k].clock
    ensures var a := Loop(deadline, now, updatedAt, steps);
      !a.stop.OutOfEvents? && a.consumed <= k + 1
  {
    var a := Loop(deadline, now, updatedAt, steps);
    LoopUneventful(deadline, now, updatedAt, steps);
    RunOutUneventful(deadline, now, updatedAt, steps);
    if a.consumed > 0 {
      UneventfulAt(deadline, steps, a.consumed - 1, k);
    }
    UneventfulAt(deadline, steps, |steps|, k);
    assert steps[..|steps|] == steps;
  }

  /** The first reading at or past the deadline ends the loop after its own
      line has been handled: when the iterations before `k` are harmless
      and iteration `k` reads the clock at or past the deadline without a
      mismatching line, the loop runs exactly `k + 1` iterations, stops on
      the deadline, and has written the rows of all of them. */
  lemma StopsAtFirstLateReading(deadline: int, now: nat, updatedAt: nat, steps: seq<Step>, k: nat)
    requires now < deadline
    requires k < |steps| && deadline <= steps[k].clock && !steps[k].handling.Mismatched?
    requires Uneventful(deadline, steps[..k])
    ensures var a := Loop(deadline, now, updatedAt, steps);
      a.stop == Deadline && a.consumed == k + 1 && a.rows == AcceptedRows(steps[..k + 1])
  {
    var a := Loop(deadline, now, updatedAt, steps);
    DeadlineBoundsIterations(deadline, now, updatedAt, steps, k);
    LoopRows(deadline, now, updatedAt, steps);
    UneventfulAt(deadline, steps, k, a.consumed - 1);
  }

  /** A stretch of harmless iterations started before the deadline is run
      entirely, and the loop is left waiting for more input. */
  lemma UneventfulRunsOut(deadline: int, now: nat, updatedAt: nat, steps: seq<Step>)
    requires now < deadline && Uneventful(deadline, steps)
    ensures var a := Loop(deadline, now, updatedAt, steps);
      a.stop == OutOfEvents && a.consumed == |steps| && a.rows == AcceptedRows(steps)
  {
    LoopRows(deadline, now, updatedAt, steps);
    assert steps[..|steps|] == steps;
  }

  /** Rows are never taken back: the rows written while the first `n`
      iterations ran are a prefix of the rows written overall. */
  lemma {:induction false} RowsOnlyGrow(deadline: int, now: nat, updatedAt: nat, steps: seq<Step>, n: nat)
    requires n <= |steps|
    ensures Loop(deadline, now, updatedAt, steps[..n]).rows <= Loop(deadline, now, updatedAt, steps).rows
    decreases n
  {
    var prefix := steps[..n];
    if n > 0 && now < deadline {
      var s := steps[0];
      assert prefix[0] == s;
      var rest := steps[1..];
      assert prefix[1..] == rest[..n - 1];
      var tick := Tick(updatedAt, s.clock);
      if !s.handling.Mismatched? {
        RowsOnlyGrow(deadline, s.clock, tick.1, rest, n - 1);
        var here := if s.handling.Accepted? then [s.handling.row] else [];
        var whole := Loop(deadline, s.clock, tick.1, rest).rows;
        var part := Loop(deadline, s.clock, tick.1, rest[..n - 1]).rows;
        assert Loop(deadline, now, updatedAt, steps).rows == here + whole;
        assert Loop(deadline, now, updatedAt, prefix).rows == here + part;
      }
    }
  }

  /** A schema mismatch leaves behind exactly the rows written before the
      offending line: the same rows a loop given only the earlier iterations
      writes; the offending line adds none. */
  lemma MismatchKeepsEarlierRows(deadline: int, now: nat, updatedAt: nat, steps: seq<Step>)
    requires Loop(deadline, now, updatedAt, steps).stop.SchemaMismatch?
    ensures var a := Loop(deadline, now, updatedAt, steps);
      a.rows == AcceptedRows(steps[..a.consumed - 1]) &&
      a.rows == Loop(deadline, now, updatedAt, steps[..a.consumed - 1]).rows
  {
    var c := Loop(deadline, now, updatedAt, steps).consumed;
    MismatchRows(deadline, now, updatedAt, steps);
    LoopUneventful(deadline, now, updatedAt, steps);
    UneventfulRunsOut(deadline, now, updatedAt, steps[..c - 1]);
  }

  /** The offending line of a mismatch adds no row. */
  lemma MismatchRows(deadline: int, now: nat, updatedAt: nat, steps: seq<Step>)
    requires Loop(deadline, now, updatedAt, steps).stop.SchemaMismatch?
    ensures var a := Loop(deadline, now, updatedAt, steps);
      a.consumed > 0 && a.rows == AcceptedRows(steps[..a.consumed - 1])
  {
    var c := Loop(deadline, now, updatedAt, steps).consumed;
    var run := steps[..c];
    assert run[c - 1] == steps[c - 1] && run[..c - 1] == steps[..c - 1];
    LastRowless(run);
    LoopRows(deadline, now, updatedAt, steps);
  }

  /** An iteration that writes no row adds nothing at the end of a stretch. */
  lemma LastRowless(steps: seq<Step>)
    requires |steps| > 0 && !steps[|steps| - 1].handling.Accepted?
    ensures AcceptedRows(steps) == AcceptedRows(steps[..|steps| - 1])
  {
    var n := |steps|;
    assert steps == steps[..n - 1] + [steps[n - 1]];
    AcceptedRowsAppend(steps[..n - 1], [steps[n - 1]]);
    assert [steps[n - 1]][1..] == [];
  }

  /** The clock readings never go backwards and none precedes `t`. */
  ghost predicate ClockFrom(t: nat, steps: seq<Step>)
    decreases |steps|
  {
    |steps| == 0 || (t <= steps[0].clock && ClockFrom(steps[0].clock, steps[1..]))
  }

  /** A clock that never goes backwards from `t` never goes backwards from
      an earlier time either. */
  lemma ClockFromEarlier(t: nat, u: nat, steps: seq<Step>)
    requires t <= u && ClockFrom(u, steps)
    ensures ClockFrom(t, steps)
  {
  }

  /** With a clock that never goes backwards, the progress deltas add up to
      the whole seconds elapsed between the start and the last reading. */
  lemma {:induction false} ProgressTelescopes(deadline: int, now: nat, updatedAt: nat, steps: seq<Step>)
    requires ClockFrom(updatedAt, steps)
    ensures var a := Loop(deadline, now, updatedAt, steps);
      var last := if a.consumed == 0 then updatedAt else steps[a.consumed - 1].clock;
      Sum(a.deltas) == Second(last) - Second(updatedAt)
    decreases |steps|
  {
    if now < deadline && |steps| > 0 {
      var s := steps[0];
      var tick := Tick(updatedAt, s.clock);
      assert updatedAt <= s.clock;
      if !s.handling.Mismatched? {
        ClockFromEarlier(tick.1, s.clock, steps[1..]);
        ProgressTelescopes(deadline, s.clock, tick.1, steps[1..]);
        var a := Loop(deadline, s.clock, tick.1, steps[1..]);
        SumAppend(tick.0, a.deltas);
        if a.consumed > 0 {
          assert steps[1..][a.consumed - 1] == steps[a.consumed];
        }
      }
    }
  }

  /** The rows written and the way the loop ends do not depend on the
      progress bookkeeping: two runs that differ only in the last progress
      time agree on everything but the deltas. */
  lemma {:induction false} LoopIgnoresProgress(deadline: int, now: nat, u1: nat, u2: nat, steps: seq<Step>)
    ensures var a := Loop(deadline, now, u1, steps);
      var b := Loop(deadline, now, u2, steps);
      a.rows == b.rows && a.stop == b.stop && a.consumed == b.consumed
    decreases |steps|
  {
    if now < deadline && |steps| > 0 {
      var s := steps[0];
      LoopIgnoresProgress(deadline, s.clock, Tick(u1, s.clock).1, Tick(u2, s.clock).1, steps[1..]);
    }
  }

  /** Nor do they depend on which reading before the deadline was the last
      one compared with it. */
  lemma LoopSameStart(deadline: int, n1: nat, n2: nat, u1: nat, u2: nat, steps: seq<Step>)
    requires n1 < deadline && n2 < deadline
    ensures var a := Loop(deadline, n1, u1, steps);
      var b := Loop(deadline, n2, u2, steps);
      a.rows == b.rows && a.stop == b.stop && a.consumed == b.consumed
  {
    if |steps| > 0 {
      var s := steps[0];
      LoopIgnoresProgress(deadline, s.clock, Tick(u1, s.clock).1, Tick(u2, s.clock).1, steps[1..]);
    }
  }

  /** An ignored read (undecodable or blank) taken before the deadline is
      invisible: dropping it changes neither the rows written nor why the
      loop stops. */
  lemma {:induction false} DropIgnored(deadline: int, now: nat, updatedAt: nat, steps: seq<Step>, k: nat)
    requires k < |steps| && steps[k].handling.Ignored? && steps[k].clock < deadline
    ensures var a := Loop(deadline, now, updatedAt, steps);
      var b := Loop(deadline, now, updatedAt, steps[..k] + steps[k + 1..]);
      a.rows == b.rows && a.count == b.count && a.stop == b.stop
    decreases k
  {
    var dropped := steps[..k] + steps[k + 1..];
    if now < deadline {
      var s := steps[0];
      var tick := Tick(updatedAt, s.clock);
      if k == 0 {
        assert dropped == steps[1..];
        LoopSameStart(deadline, s.clock, now, tick.1, updatedAt, steps[1..]);
        assert [] + Loop(deadline, s.clock, tick.1, steps[1..]).rows == Loop(deadline, s.clock, tick.1, steps[1..]).rows;
      } else {
        var rest := steps[1..];
        assert dropped[0] == s;
        assert dropped[1..] == rest[..k - 1] + rest[k..];
        if !s.handling.Mismatched? {
          DropIgnored(deadline, s.clock, tick.1, rest, k - 1);
        }
      }
    }
  }

  /** The loop's result once some iterations have already run and produced
      `rows`, `count`, `deltas` and `consumed`: the rest is appended. */
  function Resume(rows: seq<string>, count: nat, deltas: seq<nat>, consumed: nat, a: Acquired): Acquired {
    Acquired(rows + a.rows, count + a.count, deltas + a.deltas, a.updatedAt, a.stop, consumed + a.consumed)
  }

  /** One iteration of the loop from the middle of the events: the reading
      of step `c` is taken, progress is reported, and the line either ends
      the loop on a mismatch or the remaining steps follow. */
  lemma ResumeStep(deadline: int, now: nat, updatedAt: nat, steps: seq<Step>,
                   rows: seq<string>, count: nat, deltas: seq<nat>, c: nat)
    requires now < deadline && c < |steps|
    ensures var s := steps[c];
      var tick := Tick(updatedAt, s.clock);
      var whole := Resume(rows, count, deltas, c, Loop(deadline, now, updatedAt, steps[c..]));
      var rest := Loop(deadline, s.clock, tick.1, steps[c + 1..]);
      match s.handling
      case Ignored => whole == Resume(rows, count, deltas + tick.0, c + 1, rest)
      case Accepted(row) => whole == Resume(rows + [row], count + 1, deltas + tick.0, c + 1, rest)
      case Mismatched(got) => whole == Acquired(rows, count, deltas + tick.0, tick.1, SchemaMismatch(got), c + 1)
  {
    var rest := steps[c..];
    assert rest[0] == steps[c] && rest[1..] == steps[c + 1..];
    var s := steps[c];
    var tick := Tick(updatedAt, s.clock);
    var b := Loop(deadline, s.clock, tick.1, steps[c + 1..]);
    AppendAssoc(deltas, tick.0, b.deltas);
    match s.handling
    case Ignored =>
      assert [] + b.rows == b.rows;
    case Accepted(row) =>
      AppendAssoc(rows, [row], b.rows);
    case Mismatched(_) =>
      assert rows + [] == rows;
  }

  /** `ResumeStep` for the iteration that reads event `c`. */
  lemma ResumeEvent(columns: seq<string>, events: seq<Event>, deadline: int, now: nat, updatedAt: nat,
                    rows: seq<string>, count: nat, deltas: seq<nat>, c: nat, h: Handling)
    requires now < deadline && c < |events| && h == Handle(columns, events[c])
    ensures var steps := Classify(columns, events);
      var tick := Tick(updatedAt, events[c].clock);
      var whole := Resume(rows, count, deltas, c, Loop(deadline, now, updatedAt, steps[c..]));
      var rest := Loop(deadline, events[c].clock, tick.1, steps[c + 1..]);
      match h
      case Ignored => whole == Resume(rows, count, deltas + tick.0, c + 1, rest)
      case Accepted(row) => whole == Resume(rows + [row], count + 1, deltas + tick.0, c + 1, rest)
      case Mismatched(got) => whole == Acquired(rows, count, deltas + tick.0, tick.1, SchemaMismatch(got), c + 1)
  {
    ClassifyAt(columns, events, c);
    ResumeStep(deadline, now, updatedAt, Classify(columns, events), rows, count, deltas, c);
  }

  /** The loop resumed where no iteration is left to run adds nothing. */
  lemma ResumeEnds(deadline: int, now: nat, updatedAt: nat, steps: seq<Step>,
                   rows: seq<string>, count: nat, deltas: seq<nat>, c: nat)
    requires deadline <= now || |steps| == 0
    ensures Resume(rows, count, deltas, c, Loop(deadline, now, updatedAt, steps)) ==
      Acquired(rows, count, deltas, updatedAt, if deadline <= now then Deadline else OutOfEvents, c)
  {
    assert rows + [] == rows && deltas + [] == deltas;
  }

  /** The acquisition loop as the source writes it, reading each event when
      its iteration comes: `deadline` is computed once from the start
      reading, the loop runs while the last reading is before it, and each
      iteration takes a reading, reports progress, and handles one read.
      It produces what the fold `Loop` describes. */
  method Acquire(columns: seq<string>, start: nat, duration: nat, events: seq<Event>) returns (a: Acquired)
    ensures a == Loop(DeadlineOf(start, duration), start, start, Classify(columns, events))
  {
    var deadline := DeadlineOf(start, duration);
    ghost var steps := Classify(columns, events);
    ghost var whole := Loop(deadline, start, start, steps);
    var now: nat := start;
    var updatedAt: nat := start;
    var rows, count, deltas, consumed := [], 0, [], 0;
    assert steps[0..] == steps;
    assert whole == Resume(rows, count, deltas, consumed, whole);
    while now < deadline
      invariant consumed <= |events|
      invariant whole == Resume(rows, count, deltas, consumed, Loop(deadline, now, updatedAt, steps[consumed..]))
      decreases |events| - consumed
    {
      if consumed == |events| {
        ResumeEnds(deadline, now, updatedAt, steps[consumed..], rows, count, deltas, consumed);
        return Acquired(rows, count, deltas, updatedAt, OutOfEvents, consumed);
      }
      var e := events[consumed];
      var h := Handle(columns, e);
      ResumeEvent(columns, events, deadline, now, updatedAt, rows, count, deltas, consumed, h);
      var tick := Tick(updatedAt, e.clock);
      now := e.clock;
      deltas, updatedAt := deltas + tick.0, tick.1;
      consumed := consumed + 1;
      match h
      case Ignored =>
        assert whole == Resume(rows, count, deltas, consumed, Loop(deadline, now, updatedAt, steps[consumed..]));
      case Mismatched(got) =>
        return Acquired(rows, count, deltas, updatedAt, SchemaMismatch(got), consumed);
      case Accepted(row) =>
        rows := rows + [row];
        count := count + 1;
        assert whole == Resume(rows, count, deltas, consumed, Loop(deadline, now, updatedAt, steps[consumed..]));
    }
    ResumeEnds(deadline, now, updatedAt, steps[consumed..], rows, count, deltas, consumed);
    return Acquired(rows, count, deltas, updatedAt, Deadline, consumed);
  }
}
