/** `tinyml4all/utils/capture_usb.py`: the `CaptureUSB` session. Its
    configuration is an immutable record built by the fluent setters, the
    file system is a map from path to contents, and `run` is a function of
    the configuration, the file system, whether the serial port opens, the
    start reading of the clock and the events the port delivers. */
module CaptureUsb {
  import opened Wrappers
  import opened Seqs
  import opened Text
  import opened Typing
  import opened Acquisition

  /** The `open` mode used by `run`: `"a"` appends, `"w"` truncates first. */
  datatype Mode = Append | Write

  /** The `_config` dictionary. The duration is already resolved to whole
      seconds; `None` entries are `Option.None`. */
  datatype Config = Config(
    duration: int,
    port: Option<string>,
    baudrate: Option<int>,
    columns: Option<seq<string>>,
    dest: Option<string>,
    mode: Mode)

  /** Regular files by path, with their text contents. */
  type FileSystem = map<string, string>

  const DefaultBaudrate: int := 115200

  /** `CaptureUSB(duration)` (and the `capture_usb` factory): every setting
      unset and the mode `"a"`. */
  function New(duration: int): Config {
    Config(duration, None, None, None, None, Append)
  }

  /** `from_port`: sets the port and the baudrate, which defaults to 115200. */
  function FromPort(c: Config, port: string, baudrate: int := DefaultBaudrate): (r: Config)
    ensures r.port == Some(port) && r.baudrate == Some(baudrate)
    ensures r.duration == c.duration && r.columns == c.columns && r.dest == c.dest && r.mode == c.mode
  {
    c.(port := Some(port), baudrate := Some(baudrate))
  }

  /** `with_names`: stores the normalised column names. Names given as one
      string become clean tokens; names given as a list are kept as they
      are. */
  function WithNames(c: Config, names: ListOfStrings): (r: Config)
    ensures r.columns == Some(AsListOfStrings(names))
    ensures names.Str? ==> forall i :: 0 <= i < |r.columns.value| ==> IsCleanToken(r.columns.value[i])
    ensures names.List? ==> r.columns.value == names.items
    ensures r.duration == c.duration && r.port == c.port && r.baudrate == c.baudrate
    ensures r.dest == c.dest && r.mode == c.mode
  {
    c.(columns := Some(AsListOfStrings(names)))
  }

  /** The answer to the wipe prompt, stripped, starts with `y`. */
  predicate Confirms(answer: string) {
    "y" <= Strip(answer)
  }

  /** `to_file`: sets the destination. When a file is already there, the
      `answer` to the prompt decides the mode, and a confirmed wipe empties
      the file at once. */
  function ToFile(c: Config, fs: FileSystem, dest: string, answer: string): (r: (Config, FileSystem))
    ensures r.0.dest == Some(dest)
    ensures dest in fs ==> (r.0.mode == Write <==> Confirms(answer))
    ensures dest !in fs ==> r.0.mode == c.mode
    ensures dest in fs && Confirms(answer) ==> r.1 == fs[dest := ""]
    ensures !(dest in fs && Confirms(answer)) ==> r.1 == fs
    ensures r.0.duration == c.duration && r.0.port == c.port && r.0.baudrate == c.baudrate
    ensures r.0.columns == c.columns
  {
    var c' := c.(dest := Some(dest));
    if dest in fs then
      if Confirms(answer) then (c'.(mode := Write), fs[dest := ""])
      else (c'.(mode := Append), fs)
    else (c', fs)
  }

  /** The assertion of `run` that failed, in the order they are checked. */
  datatype ConfigError = BadDuration | NoPort | BadBaudrate | NoColumns | NoDest

  /** A configuration that passed every assertion. */
  datatype Settings = Settings(
    duration: nat,
    port: string,
    baudrate: nat,
    columns: seq<string>,
    dest: string,
    mode: Mode)

  /** The assertions at the top of `run`. */
  function Validate(c: Config): (r: Result<Settings, ConfigError>)
    ensures r.Success? <==>
      c.duration > 0 && c.port.Some? && c.baudrate.Some? && c.baudrate.value > 0 &&
      c.columns.Some? && c.dest.Some?
    ensures r.Success? ==>
      r.value == Settings(c.duration, c.port.value, c.baudrate.value, c.columns.value, c.dest.value, c.mode)
    ensures r == Failure(BadDuration) <==> c.duration <= 0
    ensures r == Failure(NoPort) <==> c.duration > 0 && c.port.None?
    ensures r == Failure(BadBaudrate) <==>
      c.duration > 0 && c.port.Some? && (c.baudrate.None? || c.baudrate.value <= 0)
    ensures r == Failure(NoColumns) <==>
      c.duration > 0 && c.port.Some? && c.baudrate.Some? && c.baudrate.value > 0 && c.columns.None?
    ensures r == Failure(NoDest) <==>
      c.duration > 0 && c.port.Some? && c.baudrate.Some? && c.baudrate.value > 0 &&
      c.columns.Some? && c.dest.None?
  {
    if c.duration <= 0 then Failure(BadDuration)
    else if c.port.None? then Failure(NoPort)
    else if c.baudrate.None? || c.baudrate.value <= 0 then Failure(BadBaudrate)
    else if c.columns.None? then Failure(NoColumns)
    else if c.dest.None? then Failure(NoDest)
    else Success(Settings(c.duration, c.port.value, c.baudrate.value, c.columns.value, c.dest.value, c.mode))
  }

  /** The header line: `timestamp` and the column names, comma-separated. */
  function Header(columns: seq<string>): string {
    Join(["timestamp"] + columns, ",") + "\n"
  }

  /** The header decision as `run` takes it: no file yet, or one smaller
      than two bytes. */
  predicate HeaderWanted(fs: FileSystem, dest: string) {
    dest !in fs || Utf8Size(fs[dest]) < 2
  }

  /** What the file holds before the first write of a run: its old contents
      when appending, nothing when truncating or creating it. */
  function Prior(fs: FileSystem, s: Settings): string {
    if s.mode == Append && s.dest in fs then fs[s.dest] else ""
  }

  /** How a run ended: an assertion on the configuration failed, the
      serial port could not be opened, or the loop ran. */
  datatype Outcome = Rejected(error: ConfigError) | PortUnavailable | Finished(stop: Stop, consumed: nat)

  /** The file system afterwards, whether a header was written, the data
      rows written, the final counter, the progress deltas, and the outcome. */
  datatype Report = Report(
    fs: FileSystem,
    header: bool,
    rows: seq<string>,
    count: nat,
    deltas: seq<nat>,
    outcome: Outcome)

  /** Everything after the port and the file are open: the file is opened
      in the configured mode, the header is written when `header` holds,
      and the loop appends its rows. */
  function Capture(s: Settings, fs: FileSystem, header: bool, start: nat, events: seq<Event>): (r: Report)
    ensures r.outcome.Finished? && r.header == header && r.count == |r.rows|
    ensures r.fs.Keys == fs.Keys + {s.dest}
    ensures forall p :: p in fs && p != s.dest ==> r.fs[p] == fs[p]
    ensures r.fs[s.dest] == Prior(fs, s) + (if header then Header(s.columns) else "") + Concat(r.rows)
  {
    var a := Loop(DeadlineOf(start, s.duration), start, start, Classify(s.columns, events));
    var contents := Prior(fs, s) + (if header then Header(s.columns) else "") + Concat(a.rows);
    Report(fs[s.dest := contents], header, a.rows, a.count, a.deltas, Finished(a.stop, a.consumed))
  }

  /** `run` exactly as written: the assertions, then the serial port, then
      the file. A failed assertion or a port that cannot be opened leaves
      every file as it was; otherwise the destination receives the header
      when the file is missing or below two bytes, whatever the mode it is
      about to be opened with, followed by the rows the loop accepted. */
  function RunAsWritten(c: Config, fs: FileSystem, portOpens: bool, start: nat, events: seq<Event>): (r: Report)
    ensures r.outcome.Rejected? <==> Validate(c).Failure?
    ensures r.outcome.Rejected? ==> r.outcome.error == Validate(c).error
    ensures r.outcome.Finished? <==> Validate(c).Success? && portOpens
    ensures !r.outcome.Finished? ==> r.fs == fs && !r.header && r.rows == [] && r.count == 0 && r.deltas == []
    ensures r.count == |r.rows|
    ensures r.outcome.Finished? ==>
      var s := Validate(c).value;
      && (r.header <==> HeaderWanted(fs, s.dest))
      && r.fs.Keys == fs.Keys + {s.dest}
      && (forall p :: p in fs && p != s.dest ==> r.fs[p] == fs[p])
      && r.fs[s.dest] == Prior(fs, s) + (if r.header then Header(s.columns) else "") + Concat(r.rows)
  {
    match Validate(c)
    case Failure(e) => Report(fs, false, [], 0, [], Rejected(e))
    case Success(s) =>
      if !portOpens then Report(fs, false, [], 0, [], PortUnavailable)
      else Capture(s, fs, HeaderWanted(fs, s.dest), start, events)
  }

  /** The header decision as evidently intended: a file opened with `"w"`
      starts empty, so it always gets a header. */
  predicate HeaderNeeded(fs: FileSystem, s: Settings) {
    s.mode == Write || HeaderWanted(fs, s.dest)
  }

  /** `run` with the header decision corrected: the assertions, then the
      serial port, then the file. A failed assertion or a port that cannot
      be opened leaves every file as it was; otherwise the destination
      receives the header when needed followed by the rows the loop
      accepted, and every other file is untouched. */
  function Run(c: Config, fs: FileSystem, portOpens: bool, start: nat, events: seq<Event>): (r: Report)
    ensures r.outcome.Rejected? <==> Validate(c).Failure?
    ensures r.outcome.Rejected? ==> r.outcome.error == Validate(c).error
    ensures r.outcome.Finished? <==> Validate(c).Success? && portOpens
    ensures !r.outcome.Finished? ==> r.fs == fs && !r.header && r.rows == [] && r.count == 0 && r.deltas == []
    ensures r.count == |r.rows|
    ensures r.outcome.Finished? ==>
      var s := Validate(c).value;
      && (r.header <==> HeaderNeeded(fs, s))
      && r.fs.Keys == fs.Keys + {s.dest}
      && (forall p :: p in fs && p != s.dest ==> r.fs[p] == fs[p])
      && r.fs[s.dest] == Prior(fs, s) + (if r.header then Header(s.columns) else "") + Concat(r.rows)
  {
    match Validate(c)
    case Failure(e) => Report(fs, false, [], 0, [], Rejected(e))
    case Success(s) =>
      if !portOpens then Report(fs, false, [], 0, [], PortUnavailable)
      else Capture(s, fs, HeaderNeeded(fs, s), start, events)
  }

  /** A fresh session is set to append and has nothing else set, so running
      it straight away fails on the duration or, failing that, on the port. */
  lemma FreshSession(duration: int)
    ensures New(duration).mode == Append
    ensures New(duration).port.None? && New(duration).baudrate.None?
    ensures New(duration).columns.None? && New(duration).dest.None?
    ensures Validate(New(duration)) == Failure(if duration <= 0 then BadDuration else NoPort)
  {
  }

  /** The documented set-up `capture_usb(d).from_port(p).with_names(n).to_file(f)`
      passes every assertion of `run` exactly when the duration is positive,
      with the default baudrate and the normalised names. */
  lemma FluentSetup(duration: int, port: string, names: ListOfStrings, fs: FileSystem, dest: string, answer: string)
    ensures var c := ToFile(WithNames(FromPort(New(duration), port), names), fs, dest, answer).0;
      && (Validate(c).Success? <==> duration > 0)
      && (duration > 0 ==>
            Validate(c).value == Settings(duration, port, DefaultBaudrate, AsListOfStrings(names), dest,
                                          if dest in fs && Confirms(answer) then Write else Append))
  {
  }

  /** `from_port` with a baudrate that is not positive is caught by the third
      assertion once the duration is fine. */
  lemma BadBaudrateRejected(c: Config, port: string, baudrate: int)
    requires c.duration > 0 && baudrate <= 0
    ensures Validate(FromPort(c, port, baudrate)) == Failure(BadBaudrate)
  {
  }

  /** Declining the wipe of a file of two bytes or more and then running
      appends the rows after the old contents, with no header. */
  lemma DeclinedRunAppends(c: Config, fs: FileSystem, dest: string, answer: string, start: nat, events: seq<Event>)
    requires dest in fs && Utf8Size(fs[dest]) >= 2 && !Confirms(answer)
    requires Validate(ToFile(c, fs, dest, answer).0).Success?
    ensures var (c', fs') := ToFile(c, fs, dest, answer);
      var r := Run(c', fs', true, start, events);
      && !r.header && r.fs[dest] == fs[dest] + Concat(r.rows)
      && RunAsWritten(c', fs', true, start, events) == r
  {
  }

  /** A file of fewer than two bytes holds nothing or one ASCII character. */
  lemma HeaderWantedIff(fs: FileSystem, dest: string)
    ensures HeaderWanted(fs, dest) <==>
      dest !in fs || |fs[dest]| == 0 || (|fs[dest]| == 1 && (fs[dest][0] as int) < 0x80)
  {
    if dest in fs {
      Utf8SizeBelowTwo(fs[dest]);
    }
  }

  /** Confirming the wipe leaves an empty file opened with `"w"`, so the
      next run writes a header. */
  lemma WipeLeadsToHeader(c: Config, fs: FileSystem, dest: string, answer: string)
    requires dest in fs && Confirms(answer)
    ensures var r := ToFile(c, fs, dest, answer);
      r.0.mode == Write && r.1[dest] == "" && HeaderWanted(r.1, dest)
  {
  }

  /** Declining the wipe keeps the file and appends to it; a header follows
      only when the file is too small to hold one. */
  lemma DeclineKeepsContents(c: Config, fs: FileSystem, dest: string, answer: string)
    requires dest in fs && !Confirms(answer)
    ensures var r := ToFile(c, fs, dest, answer);
      && r.0.mode == Append && r.1 == fs
      && (HeaderWanted(r.1, dest) <==> |fs[dest]| == 0 || (|fs[dest]| == 1 && (fs[dest][0] as int) < 0x80))
  {
    HeaderWantedIff(fs, dest);
  }

  /** `timestamp` is a token like any clean column name. */
  lemma TimestampIsClean()
    ensures IsCleanToken("timestamp")
  {
    assert !IsSpace('t') && !IsSpace('p');
  }

  /** With clean column names, the header line minus its newline parses
      back to `timestamp` followed by the columns. */
  lemma HeaderParses(columns: seq<string>)
    requires forall i :: 0 <= i < |columns| ==> IsCleanToken(columns[i])
    ensures var h := Header(columns);
      |h| > 0 && h[|h| - 1] == '\n' && AsListOfStrings(Str(h[..|h| - 1])) == ["timestamp"] + columns
  {
    var fields := ["timestamp"] + columns;
    TimestampIsClean();
    assert forall i :: 0 <= i < |fields| ==> IsCleanToken(fields[i]) by {
      forall i | 0 <= i < |fields|
        ensures IsCleanToken(fields[i])
      {
        if i > 0 {
          assert fields[i] == columns[i - 1];
        }
      }
    }
    CleanTokensRoundTrip(fields);
    var line := Join(fields, ",");
    assert Header(columns)[..|Header(columns)| - 1] == line;
  }

  /** A clean token parses to itself alone. */
  lemma SingleToken(t: string)
    requires IsCleanToken(t)
    ensures AsListOfStrings(Str(t)) == [t]
  {
    CleanTokensRoundTrip([t]);
  }

  /** An accepted row, read back with `as_list_of_strings` without its
      newline, holds the timestamp followed by the values of the line, one
      more field than there are columns: read that way it lines up with the
      header. */
  lemma RowFields(columns: seq<string>, e: Event)
    requires Handle(columns, e).Accepted? && IsCleanToken(e.stamp)
    ensures var row := Handle(columns, e).row;
      && |row| > 0 && row[|row| - 1] == '\n'
      && AsListOfStrings(Str(row[..|row| - 1])) == [e.stamp] + AsListOfStrings(Str(Strip(e.read.raw)))
      && |AsListOfStrings(Str(row[..|row| - 1]))| == |columns| + 1
  {
    HandleSpec(columns, e);
    var line := Strip(e.read.raw);
    var row := Handle(columns, e).row;
    assert row[..|row| - 1] == e.stamp + "," + line;
    ValuesOfJoined(e.stamp, line);
    SingleToken(e.stamp);
  }

  /** Read back as plain CSV, splitting on every comma and dropping nothing,
      an accepted row has the timestamp followed by every comma-separated
      piece of the line, blank ones included. It has one more field than
      there are columns exactly when no piece of the line is blank: a line
      such as `1,,2` passes the value count against two columns, yet its row
      has four fields against the header's three. */
  lemma RowCsvFields(columns: seq<string>, e: Event)
    requires Handle(columns, e).Accepted? && ',' !in e.stamp
    ensures var row := Handle(columns, e).row;
      var line := Strip(e.read.raw);
      && |row| > 0
      && Split(row[..|row| - 1], ',') == [e.stamp] + Split(line, ',')
      && (|Split(row[..|row| - 1], ',')| == |columns| + 1 <==> multiset(Stripped(Split(line, ',')))[""] == 0)
  {
    HandleSpec(columns, e);
    var line := Strip(e.read.raw);
    var row := Handle(columns, e).row;
    assert row[..|row| - 1] == e.stamp + [','] + line;
    SplitAppend(e.stamp, ',', line);
    SplitNoSep(e.stamp, ',');
    StringOrderKept(line);
  }

  /** A clean value after a comma parses to that value alone: the empty
      piece before the comma is dropped. */
  lemma LeadingCommaValues(b: string)
    requires IsCleanToken(b)
    ensures AsListOfStrings(Str("," + b)) == [b]
  {
    assert AsListOfStrings(Str("" + "," + b)) == [b] by {
      ValuesOfJoined("", b);
      assert AsListOfStrings(Str("")) == [] by {
        assert Split("", ',') == [""];
      }
      SingleToken(b);
    }
    assert "," + b == "" + "," + b;
  }

  /** A plain split keeps the empty piece before a leading comma. */
  lemma LeadingCommaSplit(b: string)
    requires ',' !in b
    ensures Split("," + b, ',') == ["", b]
  {
    SplitStep("," + b, ',');
    assert ("," + b)[1..] == b;
    SplitNoSep(b, ',');
  }

  /** `a,,b` parses to the two values... */
  lemma BlankFieldValues(a: string, b: string)
    requires IsCleanToken(a) && IsCleanToken(b)
    ensures AsListOfStrings(Str(a + "," + ("," + b))) == [a, b]
  {
    ValuesOfJoined(a, "," + b);
    SingleToken(a);
    LeadingCommaValues(b);
  }

  /** ... but splits into three pieces. */
  lemma BlankFieldSplit(a: string, b: string)
    requires ',' !in a && ',' !in b
    ensures Split(a + "," + ("," + b), ',') == [a, "", b]
  {
    var rest := "," + b;
    assert a + "," + rest == a + [','] + rest;
    SplitAppend(a, ',', rest);
    SplitNoSep(a, ',');
    LeadingCommaSplit(b);
  }

  /** A line `a,,b` of two clean values around an empty piece, read
      against two columns, is accepted, yet its row splits into four
      comma-separated fields against the header's three. */
  lemma BlankFieldAccepted(e: Event, a: string, b: string)
    requires IsCleanToken(a) && IsCleanToken(b) && ',' !in e.stamp
    requires e.read == Received(a + "," + ("," + b))
    ensures Handle(["x", "y"], e).Accepted?
    ensures var row := Handle(["x", "y"], e).row;
      |row| > 0 && |Split(row[..|row| - 1], ',')| == 4
  {
    var line := a + "," + ("," + b);
    StripTrimmed(line);
    BlankFieldValues(a, b);
    RowCsvFields(["x", "y"], e);
    BlankFieldSplit(a, b);
  }

  /** The rows of a run are those of the iterations it carried out, one per
      accepted line, in order; the counter is their number. */
  lemma RunRows(c: Config, fs: FileSystem, start: nat, events: seq<Event>)
    requires Validate(c).Success?
    ensures var r := Run(c, fs, true, start, events);
      && r.outcome.Finished?
      && r.rows == AcceptedRows(Classify(Validate(c).value.columns, events)[..r.outcome.consumed])
      && r.count == |r.rows|
  {
    var s := Validate(c).value;
    LoopRows(DeadlineOf(start, s.duration), start, start, Classify(s.columns, events));
  }

  /** A run ended by a line with the wrong number of values leaves the file
      exactly as a run that never saw that line (nor anything after it)
      would have left it: everything written before it stays. */
  lemma RunAbortKeepsPrefix(c: Config, fs: FileSystem, start: nat, events: seq<Event>)
    requires Validate(c).Success?
    requires Run(c, fs, true, start, events).outcome.Finished?
    requires Run(c, fs, true, start, events).outcome.stop.SchemaMismatch?
    ensures var n := Run(c, fs, true, start, events).outcome.consumed;
      0 < n <= |events| &&
      Run(c, fs, true, start, events).fs == Run(c, fs, true, start, events[..n - 1]).fs
  {
    var s := Validate(c).value;
    var deadline := DeadlineOf(start, s.duration);
    var steps := Classify(s.columns, events);
    var n := Loop(deadline, start, start, steps).consumed;
    MismatchKeepsEarlierRows(deadline, start, start, steps);
    ClassifyPrefix(s.columns, events, n - 1);
  }

  /** The same holds of `run` as written: the header decision is taken
      before the loop, so an aborted run keeps what it wrote before the
      offending line. */
  lemma RunAsWrittenAbortKeepsPrefix(c: Config, fs: FileSystem, start: nat, events: seq<Event>)
    requires Validate(c).Success?
    requires RunAsWritten(c, fs, true, start, events).outcome.Finished?
    requires RunAsWritten(c, fs, true, start, events).outcome.stop.SchemaMismatch?
    ensures var n := RunAsWritten(c, fs, true, start, events).outcome.consumed;
      0 < n <= |events| &&
      RunAsWritten(c, fs, true, start, events).fs == RunAsWritten(c, fs, true, start, events[..n - 1]).fs
  {
    var s := Validate(c).value;
    var deadline := DeadlineOf(start, s.duration);
    var steps := Classify(s.columns, events);
    var n := Loop(deadline, start, start, steps).consumed;
    MismatchKeepsEarlierRows(deadline, start, start, steps);
    ClassifyPrefix(s.columns, events, n - 1);
  }

  /** The two runs differ only in the header: they read the same lines,
      write the same rows, count and report progress alike, and end the
      same way. */
  lemma RunsShareLoop(c: Config, fs: FileSystem, portOpens: bool, start: nat, events: seq<Event>)
    ensures var r := Run(c, fs, portOpens, start, events);
      var w := RunAsWritten(c, fs, portOpens, start, events);
      r.rows == w.rows && r.count == w.count && r.deltas == w.deltas && r.outcome == w.outcome
  {
  }

  /** Concatenating a prefix of the parts gives a prefix of the text. */
  lemma ConcatPrefix(a: seq<string>, b: seq<string>)
    requires a <= b
    ensures Concat(a) <= Concat(b)
  {
    assert b == a + b[|a|..];
    ConcatAppend(a, b[|a|..]);
  }

  /** The file only grows while a run goes on: what a run that saw only the
      first `n` events leaves in the destination is a prefix of what the
      whole run leaves there. */
  lemma RunOnlyAppends(c: Config, fs: FileSystem, start: nat, events: seq<Event>, n: nat)
    requires Validate(c).Success? && n <= |events|
    ensures var dest := Validate(c).value.dest;
      Run(c, fs, true, start, events[..n]).fs[dest] <= Run(c, fs, true, start, events).fs[dest]
    ensures var dest := Validate(c).value.dest;
      RunAsWritten(c, fs, true, start, events[..n]).fs[dest] <= RunAsWritten(c, fs, true, start, events).fs[dest]
  {
    var s := Validate(c).value;
    var deadline := DeadlineOf(start, s.duration);
    var steps := Classify(s.columns, events);
    ClassifyPrefix(s.columns, events, n);
    RowsOnlyGrow(deadline, start, start, steps, n);
    ConcatPrefix(Loop(deadline, start, start, steps[..n]).rows, Loop(deadline, start, start, steps).rows);
  }

  /** The two header decisions differ only for a file opened with `"w"`
      that is two bytes or more long. */
  lemma RunMatchesAsWritten(c: Config, fs: FileSystem, portOpens: bool, start: nat, events: seq<Event>)
    requires Validate(c).Success? ==>
      Validate(c).value.mode == Append || HeaderWanted(fs, Validate(c).value.dest)
    ensures Run(c, fs, portOpens, start, events) == RunAsWritten(c, fs, portOpens, start, events)
  {
  }

  /** As written, running a session in mode `"w"` against a file that
      already holds two bytes or more (the same session run a second time)
      skips the header and then truncates the file: only data rows remain. */
  lemma HeaderLostAsWritten(c: Config, fs: FileSystem, start: nat, events: seq<Event>)
    requires Validate(c).Success? && Validate(c).value.mode == Write
    requires !HeaderWanted(fs, Validate(c).value.dest)
    ensures var r := RunAsWritten(c, fs, true, start, events);
      !r.header && r.fs[Validate(c).value.dest] == Concat(r.rows)
  {
  }

  /** One such run: the file held the header of an earlier run, and after a
      run that read no line it is empty. */
  lemma HeaderLostExample()
    ensures var c := Config(1, Some("/dev/ttyUSB0"), Some(DefaultBaudrate), Some(["a"]), Some("data.csv"), Write);
      var fs := map["data.csv" := Header(["a"])];
      RunAsWritten(c, fs, true, 0, []).fs["data.csv"] == ""
  {
    var c := Config(1, Some("/dev/ttyUSB0"), Some(DefaultBaudrate), Some(["a"]), Some("data.csv"), Write);
    var fs := map["data.csv" := Header(["a"])];
    var s := Settings(1, "/dev/ttyUSB0", DefaultBaudrate, ["a"], "data.csv", Write);
    assert Validate(c) == Success(s);
    var fields := ["timestamp"] + ["a"];
    assert fields[1..] == ["a"];
    assert |Header(["a"])| >= 2;
    assert !HeaderWanted(fs, "data.csv") by {
      Utf8SizeBelowTwo(fs["data.csv"]);
    }
    assert Classify(["a"], []) == [];
    assert Loop(DeadlineOf(0, 1), 0, 0, []).rows == [];
  }

  /** With the header decision corrected, a run that creates, empties or
      truncates the file leaves it starting with the header. */
  lemma HeaderFirst(c: Config, fs: FileSystem, start: nat, events: seq<Event>)
    requires Validate(c).Success?
    requires var s := Validate(c).value;
      s.mode == Write || s.dest !in fs || fs[s.dest] == ""
    ensures var s := Validate(c).value;
      var r := Run(c, fs, true, start, events);
      r.header && Header(s.columns) <= r.fs[s.dest]
  {
  }

  /** A line as `readline` delivers it: clean text followed by a newline,
      which stripping removes. */
  lemma StripNewline(x: string)
    requires x != "" && IsTrimmed(x)
    ensures Strip(x + "\n") == x
  {
    var s := x + "\n";
    assert TrimStart(s) == s;
    assert s[..|s| - 1] == x;
    assert TrimEnd(s) == TrimEnd(x);
    assert TrimEnd(x) == x;
  }

  /** Two clean values separated by a comma parse to those two values. */
  lemma TwoValues(a: string, b: string)
    requires IsCleanToken(a) && IsCleanToken(b)
    ensures AsListOfStrings(Str(a + "," + b)) == [a, b]
  {
    ValuesOfJoined(a, b);
    SingleToken(a);
    SingleToken(b);
  }

  /** A line of two clean values followed by a newline, read against two
      columns, is accepted and written as the timestamp and the two values. */
  lemma TwoValueLine(columns: seq<string>, e: Event, a: string, b: string)
    requires |columns| == 2 && IsCleanToken(a) && IsCleanToken(b)
    requires e.read == Received(a + "," + b + "\n")
    ensures Handle(columns, e) == Accepted(DataRow(e.stamp, a + "," + b))
  {
    var line := a + "," + b;
    assert line != "" && IsTrimmed(line) by {
      assert line[0] == a[0] && line[|line| - 1] == b[|b| - 1];
    }
    StripNewline(line);
    TwoValues(a, b);
  }

  /** The events of a capture of two readings one second apart followed by
      an empty read at the deadline. */
  function TwoReadings(a1: string, b1: string, a2: string, b2: string,
                       stamp1: string, stamp2: string, stamp3: string, start: nat): seq<Event> {
    [Event(start, stamp1, Received(a1 + "," + b1 + "\n")),
     Event(start + 1000, stamp2, Received(a2 + "," + b2 + "\n")),
     Event(start + 2000, stamp3, Received(""))]
  }

  /** Two harmless first iterations make an uneventful stretch. */
  lemma FirstTwoUneventful(deadline: int, steps: seq<Step>)
    requires |steps| >= 2
    requires steps[0].clock < deadline && !steps[0].handling.Mismatched?
    requires steps[1].clock < deadline && !steps[1].handling.Mismatched?
    ensures Uneventful(deadline, steps[..2])
  {
    assert steps[..2][0] == steps[0] && steps[..2][1] == steps[1];
  }

  /** In that capture, both readings are accepted and the empty read is
      ignored. */
  lemma TwoReadingsSteps(columns: seq<string>, a1: string, b1: string, a2: string, b2: string,
                         stamp1: string, stamp2: string, stamp3: string, start: nat)
    requires |columns| == 2
    requires IsCleanToken(a1) && IsCleanToken(b1) && IsCleanToken(a2) && IsCleanToken(b2)
    ensures Classify(columns, TwoReadings(a1, b1, a2, b2, stamp1, stamp2, stamp3, start)) ==
      [Step(start, Accepted(DataRow(stamp1, a1 + "," + b1))),
       Step(start + 1000, Accepted(DataRow(stamp2, a2 + "," + b2))),
       Step(start + 2000, Ignored)]
  {
    var events := TwoReadings(a1, b1, a2, b2, stamp1, stamp2, stamp3, start);
    TwoValueLine(columns, events[0], a1, b1);
    TwoValueLine(columns, events[1], a2, b2);
    assert Strip("") == "";
    ClassifyAt(columns, events, 0);
    ClassifyAt(columns, events, 1);
    ClassifyAt(columns, events, 2);
  }

  /** Two accepted lines read before the deadline followed by an ignored
      read at or past it: the loop writes the two rows and stops on the
      deadline after three iterations. */
  lemma TwoAcceptedThenLate(deadline: int, now: nat, updatedAt: nat, steps: seq<Step>)
    requires now < deadline && |steps| == 3
    requires steps[0].clock < deadline && steps[0].handling.Accepted?
    requires steps[1].clock < deadline && steps[1].handling.Accepted?
    requires deadline <= steps[2].clock && steps[2].handling.Ignored?
    ensures var a := Loop(deadline, now, updatedAt, steps);
      a.stop == Deadline && a.consumed == 3 && a.rows == [steps[0].handling.row, steps[1].handling.row]
  {
    FirstTwoUneventful(deadline, steps);
    StopsAtFirstLateReading(deadline, now, updatedAt, steps, 2);
    assert steps[..3] == steps;
    assert AcceptedRows(steps[2..]) == [] by {
      assert steps[2..][1..] == [];
    }
    assert AcceptedRows(steps[1..]) == [steps[1].handling.row] by {
      assert steps[1..][0] == steps[1] && steps[1..][1..] == steps[2..];
    }
  }

  /** ... so the loop writes both rows and stops on the deadline after
      three iterations. */
  lemma TwoReadingsLoop(columns: seq<string>, a1: string, b1: string, a2: string, b2: string,
                        stamp1: string, stamp2: string, stamp3: string, start: nat)
    requires |columns| == 2
    requires IsCleanToken(a1) && IsCleanToken(b1) && IsCleanToken(a2) && IsCleanToken(b2)
    ensures var events := TwoReadings(a1, b1, a2, b2, stamp1, stamp2, stamp3, start);
      var a := Loop(DeadlineOf(start, 2), start, start, Classify(columns, events));
      a.stop == Deadline && a.consumed == 3 &&
      a.rows == [DataRow(stamp1, a1 + "," + b1), DataRow(stamp2, a2 + "," + b2)]
  {
    TwoReadingsSteps(columns, a1, b1, a2, b2, stamp1, stamp2, stamp3, start);
    TwoAcceptedThenLate(DeadlineOf(start, 2), start, start,
      Classify(columns, TwoReadings(a1, b1, a2, b2, stamp1, stamp2, stamp3, start)));
  }

  /** Two rows written one after the other. */
  lemma ConcatPair(x: string, y: string)
    ensures Concat([x, y]) == x + y
  {
    assert [x, y][1..] == [y];
    assert Concat([y]) == y + Concat([]);
  }

  /** A two-second capture of two readings one second apart into a new file
      with two clean columns: the file gets the header and exactly two rows,
      each the timestamp and the line as received, and the counter is two.
      The third reading, taken at the deadline, reads nothing and ends the
      loop. */
  lemma TwoReadingsScenario(columns: seq<string>, a1: string, b1: string, a2: string, b2: string,
                            stamp1: string, stamp2: string, stamp3: string, start: nat)
    requires |columns| == 2
    requires IsCleanToken(a1) && IsCleanToken(b1) && IsCleanToken(a2) && IsCleanToken(b2)
    ensures var c := Config(2, Some("/dev/ttyUSB0"), Some(DefaultBaudrate), Some(columns), Some("data.csv"), Append);
      var r := Run(c, map[], true, start, TwoReadings(a1, b1, a2, b2, stamp1, stamp2, stamp3, start));
      && r.outcome == Finished(Deadline, 3)
      && r.header && r.count == 2
      && r.fs["data.csv"] == Header(columns) + DataRow(stamp1, a1 + "," + b1) + DataRow(stamp2, a2 + "," + b2)
      && RunAsWritten(c, map[], true, start, TwoReadings(a1, b1, a2, b2, stamp1, stamp2, stamp3, start)) == r
  {
    var events := TwoReadings(a1, b1, a2, b2, stamp1, stamp2, stamp3, start);
    var row1, row2 := DataRow(stamp1, a1 + "," + b1), DataRow(stamp2, a2 + "," + b2);
    TwoReadingsLoop(columns, a1, b1, a2, b2, stamp1, stamp2, stamp3, start);
    ConcatPair(row1, row2);
    var c := Config(2, Some("/dev/ttyUSB0"), Some(DefaultBaudrate), Some(columns), Some("data.csv"), Append);
    var s := Settings(2, "/dev/ttyUSB0", DefaultBaudrate, columns, "data.csv", Append);
    assert Validate(c) == Success(s);
    assert HeaderNeeded(map[], s);
    var r := Capture(s, map[], true, start, events);
    assert Run(c, map[], true, start, events) == r;
    assert r.rows == [row1, row2];
    assert "" + Header(columns) == Header(columns);
    AppendAssoc(Header(columns), row1, row2);
  }
}
