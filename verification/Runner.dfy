/** The agent's command runner: dispatch by command type, the shell runner's result shaping, stream truncation. */
module Runner {
  import opened Common
  import opened Utf8
  import Text

  type Stream = seq<CodePoint>

  const MAX_STREAM_BYTES: int := 64 * 1024
  const SERVER_MAX_CHARACTERS: int := 128 * 1024 // the result schema counts characters

  function Points(s: string): (r: Stream)
    ensures |r| == |s| && Scalar(r)
  {
    seq(|s|, i requires 0 <= i < |s| => s[i] as int)
  }

  // ---- Truncation ----------------------------------------------------------------------------

  /** `b[-limit:]`: the last `limit` bytes, but everything for 0 and all but the first few for less. */
  function Tail(b: seq<Byte>, limit: int): seq<Byte> {
    if limit > 0 then b[Max(0, |b| - limit)..] else b[Min(-limit, |b|)..]
  }

  function Truncate(s: Stream, limit: int): Stream {
    if s == [] then []
    else if |Encode(s)| <= limit then s
    else Decode(Tail(Encode(s), limit))
  }

  /**
   Truncation keeps the input, or at most three replacement characters followed by a suffix of the input
   with its surrogates replaced, whose encoding fills the limit exactly.
   */
  lemma TruncateShape(s: Stream, limit: nat) returns (k: nat, j: nat)
    requires limit > 0
    ensures k <= 3 && j <= |s|
    ensures if |Encode(s)| <= limit then k == j == 0 && Truncate(s, limit) == s
            else Truncate(s, limit) == Replacements(k) + Sanitise(s[j..]) && k + |Encode(s[j..])| == limit
  {
    if |Encode(s)| <= limit {
      k, j := 0, 0;
    } else {
      k, j := DecodeOfCut(s, |Encode(s)| - limit);
    }
  }

  /** It fits in characters, and re-encodes to at most six bytes over the limit. */
  lemma TruncateFits(s: Stream, limit: nat)
    requires limit > 0
    ensures |Truncate(s, limit)| <= limit
    ensures |Encode(Truncate(s, limit))| <= limit + 6
  {
    var k, j := TruncateShape(s, limit);
    if |Encode(s)| > limit {
      EncodeAppend(Replacements(k), Sanitise(s[j..]));
      EncodeReplacements(k);
      EncodeSanitised(s[j..]);
    }
  }

  /** The character bound holds for exactly these limits; a limit of 0 keeps the whole stream. */
  lemma {:induction false} TruncateFitsExactly(s: Stream, limit: int)
    ensures |Truncate(s, limit)| <= limit <==> limit > 0 || (limit == 0 && s == [])
  {
    if limit > 0 {
      TruncateFits(s, limit);
    } else if limit == 0 && s != [] {
      DecodeOfEncode(s);
      assert Encode(s)[0..] == Encode(s);
    }
  }

  lemma CutBefore(b: seq<Byte>, last: seq<Byte>, n: nat, k: nat, tail: seq<Byte>)
    requires CutsTo(b, n, k, tail)
    ensures CutsTo(b + last, n, k, tail + last)
  {
  }

  lemma DecodeCut(b: seq<Byte>, n: nat, k: nat, t: Stream)
    requires CutsTo(b, n, k, Encode(t))
    ensures Decode(b[n..]) == Replacements(k) + Sanitise(t)
  {
    DecodeAfterContinuations(b[n..], k);
    assert b[n..][k..] == b[n + k..];
    DecodeOfEncode(t);
  }

  /** A cut before the end of `s` leaves all of `last`. */
  lemma CutKeepsEnd(s: Stream, last: Stream, cut: nat) returns (kept: Stream)
    requires Scalar(last) && cut <= |Encode(s)|
    ensures Encode(s + last) == Encode(s) + Encode(last)
    ensures Decode(Encode(s + last)[cut..]) == kept + last
  {
    EncodeAppend(s, last);
    var k, j := Cut(s, cut);
    CutBefore(Encode(s), Encode(last), cut, k, Encode(s[j..]));
    EncodeAppend(s[j..], last);
    DecodeCut(Encode(s + last), cut, k, s[j..] + last);
    SanitiseAppend(s[j..], last);
    kept := Replacements(k) + Sanitise(s[j..]);
    Regroup(Replacements(k), Sanitise(s[j..]), last);
  }

  lemma TruncateCases(s: Stream, limit: nat)
    requires limit > 0
    ensures |Encode(s)| <= limit ==> Truncate(s, limit) == s
    ensures |Encode(s)| > limit ==> Truncate(s, limit) == Decode(Encode(s)[|Encode(s)| - limit..])
  {
  }

  lemma CutToEnd(s: Stream, last: Stream, limit: nat) returns (kept: Stream)
    requires Scalar(last) && |Encode(last)| <= limit < |Encode(s + last)|
    ensures Decode(Encode(s + last)[|Encode(s + last)| - limit..]) == kept + last
  {
    EncodeAppend(s, last);
    kept := CutKeepsEnd(s, last, |Encode(s + last)| - limit);
  }

  /** The end of a stream survives: what was appended last is still there after truncation. */
  lemma TruncateKeepsEnd(s: Stream, last: Stream, limit: nat) returns (kept: Stream)
    requires Scalar(last) && limit > 0 && |Encode(last)| <= limit
    ensures Truncate(s + last, limit) == kept + last
  {
    TruncateCases(s + last, limit);
    if |Encode(s + last)| <= limit {
      kept := s;
    } else {
      kept := CutToEnd(s, last, limit);
    }
  }

  lemma SanitiseAppend(s: Stream, last: Stream)
    requires Scalar(last)
    ensures Sanitise(s + last) == Sanitise(s) + last
  {
  }

  // ---- The shell runner ----------------------------------------------------------------------

  /** What `int()` makes of the payload's field: it also accepts numeric text and truncates fractions. */
  datatype TimeoutField = Missing | Integer(value: int) | NotInteger | Infinite

  /** `cmd` is `None` when the field is absent or not a string. */
  datatype Payload = Payload(cmd: Option<string>, timeout: TimeoutField)

  /** What the child process did; streams of a timed-out child may be missing or undecoded. */
  datatype Outcome =
    | Exited(code: int, stdout: Stream, stderr: Stream)
    | TimedOut(partialOut: Option<Stream>, partialErr: Option<Stream>)
    | OsError(message: string)
    | Raised(error: Stream)

  datatype CommandResult =
    CommandResult(ack: bool, exitCode: Option<int>, stdout: Option<Stream>, stderr: Option<Stream>,
                  rejectedReason: Option<string>)

  /** The runner returns a result, or an exception reaches the daemon. */
  datatype Ran = Returned(result: CommandResult) | Crashed(error: Stream)

  function Rejection(reason: string): Ran { Returned(CommandResult(false, None, None, None, Some(reason))) }

  function TimeoutNote(seconds: nat): Stream { Points("\ntimeout after ") + Points(Text.Digits(seconds)) + Points("s") }

  /** The payload is refused, or the child is started with this timeout. */
  datatype Checked = Refused(reason: string) | Overflow(error: Stream) | Start(timeout: nat)

  function Check(payload: Payload): (c: Checked)
    ensures c.Start? ==> 1 <= c.timeout <= 3600
    ensures c.Start? ==> payload.cmd.Some? && !Text.Blank(payload.cmd.value)
  {
    if payload.cmd.None? || Text.Blank(payload.cmd.value) then Refused("invalid_payload: missing or empty 'cmd'")
    else if payload.timeout.Infinite? then Overflow(Points("cannot convert float infinity to integer"))
    else if payload.timeout.NotInteger? then Refused("invalid_payload: 'timeout_s' must be int")
    else
      var timeout := if payload.timeout.Missing? then 30 else payload.timeout.value;
      if timeout <= 0 || timeout > 3600 then Refused("invalid_payload: 'timeout_s' out of range (1..3600)")
      else Start(timeout)
  }

  function RunShell(payload: Payload, outcome: Outcome): Ran {
    match Check(payload)
    case Refused(reason) => Rejection(reason)
    case Overflow(error) => Crashed(error)
    case Start(timeout) => Shape(timeout, outcome)
  }

  /** The result of a child that was started. */
  function Shape(timeout: nat, outcome: Outcome): Ran {
    match outcome
    case Exited(code, stdout, stderr) =>
      Returned(CommandResult(true, Some(code), Some(Truncate(stdout, MAX_STREAM_BYTES)),
                             Some(Truncate(stderr, MAX_STREAM_BYTES)), None))
    case TimedOut(stdout, stderr) =>
      Returned(CommandResult(true, None, Some(Truncate(Or(stdout, []), MAX_STREAM_BYTES)),
                             Some(Truncate(Or(stderr, []) + TimeoutNote(timeout), MAX_STREAM_BYTES)), Some("timeout")))
    case OsError(message) => Rejection("exec_error: " + message)
    case Raised(error) => Crashed(error)
  }

  function Execute(commandType: string, payload: Payload, outcome: Outcome): Ran {
    if commandType == "shell" then RunShell(payload, outcome)
    else Rejection("command_type '" + commandType + "' not implemented in v1.0")
  }

  /** Every command type but `shell` is refused without running anything, whatever the child would do. */
  lemma {:induction false} OnlyShellRuns(commandType: string, payload: Payload, a: Outcome, b: Outcome)
    requires Execute(commandType, payload, a) != Execute(commandType, payload, b)
    ensures commandType == "shell" && payload.cmd.Some? && !Text.Blank(payload.cmd.value)
    ensures payload.timeout.Integer? ==> 1 <= payload.timeout.value <= 3600
  {
  }

  lemma NoteSurvives(timeout: nat, stdout: Option<Stream>, stderr: Option<Stream>) returns (kept: Stream)
    requires timeout <= 3600
    ensures var ran := Shape(timeout, TimedOut(stdout, stderr));
            ran.Returned? && ran.result.stderr == Some(kept + TimeoutNote(timeout))
  {
    var note := TimeoutNote(timeout);
    Text.DigitsLength(timeout);
    AsciiLength(note);
    kept := TruncateKeepsEnd(Or(stderr, []), note, MAX_STREAM_BYTES);
  }

  /** The report of every started command that times out ends with the note, however much the child wrote. */
  lemma TimeoutNoteSurvives(payload: Payload, stdout: Option<Stream>, stderr: Option<Stream>) returns (kept: Stream)
    requires Check(payload).Start?
    ensures var ran := RunShell(payload, TimedOut(stdout, stderr));
            ran.Returned? && ran.result.stderr == Some(kept + TimeoutNote(Check(payload).timeout))
  {
    kept := NoteSurvives(Check(payload).timeout, stdout, stderr);
  }

  lemma {:induction false} AsciiLength(s: Stream)
    ensures |Encode(s)| <= 4 * |s|
  {
    if s != [] { AsciiLength(s[1..]); }
  }

  // ---- What the daemon posts -----------------------------------------------------------------

  datatype Report = Report(exitCode: Option<int>, stdout: Stream, stderr: Stream, rejectedReason: Option<string>)

  const CRASH_NOTE := "agent runner crash: "

  function ReportOf(ran: Ran): Report {
    match ran
    case Returned(r) => Report(r.exitCode, Or(r.stdout, []), Or(r.stderr, []), r.rejectedReason)
    case Crashed(error) => Report(None, [], Points(CRASH_NOTE) + error, Some("runner_exception"))
  }

  /** The result schema's length checks. */
  predicate Accepted(r: Report) { |r.stdout| <= SERVER_MAX_CHARACTERS && |r.stderr| <= SERVER_MAX_CHARACTERS }

  predicate Capped(r: CommandResult) {
    |Or(r.stdout, [])| <= MAX_STREAM_BYTES && |Or(r.stderr, [])| <= MAX_STREAM_BYTES
  }

  lemma ShapeCapped(timeout: nat, outcome: Outcome)
    ensures Shape(timeout, outcome).Returned? ==> Capped(Shape(timeout, outcome).result)
  {
    match outcome {
      case Exited(_, stdout, stderr) =>
        TruncateFits(stdout, MAX_STREAM_BYTES);
        TruncateFits(stderr, MAX_STREAM_BYTES);
      case TimedOut(stdout, stderr) =>
        TruncateFits(Or(stdout, []), MAX_STREAM_BYTES);
        TruncateFits(Or(stderr, []) + TimeoutNote(timeout), MAX_STREAM_BYTES);
      case _ =>
    }
  }

  lemma ShellCapped(payload: Payload, outcome: Outcome)
    ensures RunShell(payload, outcome).Returned? ==> Capped(RunShell(payload, outcome).result)
  {
    var checked := Check(payload);
    if checked.Start? { ShapeCapped(checked.timeout, outcome); }
  }

  lemma CrashAccepted(error: Stream)
    ensures Accepted(ReportOf(Crashed(error))) <==> |error| <= SERVER_MAX_CHARACTERS - |CRASH_NOTE|
  {
  }

  /** Only the text of an exception that escapes the runner, which is not truncated, can be refused. */
  lemma {:induction false} ReportAcceptedExactly(commandType: string, payload: Payload, outcome: Outcome)
    ensures
      var ran := Execute(commandType, payload, outcome);
      var report := ReportOf(ran);
      |report.stdout| <= 131072 && |report.stderr| <= 131072 <==> (ran.Crashed? ==> |ran.error| <= 131052)
  {
    ShellCapped(payload, outcome);
    var ran := Execute(commandType, payload, outcome);
    if ran.Crashed? { CrashAccepted(ran.error); }
  }

  // ---- What the report says ------------------------------------------------------------------

  /** `shown` is all of the stream, or at most three replacement characters and its end, filling 64 KiB. */
  ghost predicate Captured(stream: Stream, shown: Stream) {
    if |Encode(stream)| <= 65536 then shown == stream
    else
      exists k: nat, j: nat ::
        k <= 3 && j <= |stream| && shown == Replacements(k) + Sanitise(stream[j..]) && k + |Encode(stream[j..])| == 65536
  }

  lemma CapturedExactly(stream: Stream)
    ensures Captured(stream, Truncate(stream, MAX_STREAM_BYTES))
  {
    var k, j := TruncateShape(stream, MAX_STREAM_BYTES);
  }

  /** The report of a command that was started, from what its child process did. */
  lemma StartedReport(timeout: nat, outcome: Outcome)
    ensures
      var report := ReportOf(Shape(timeout, outcome));
      match outcome
      case Exited(code, stdout, stderr) =>
        && report.exitCode == Some(code) && report.rejectedReason == None
        && Captured(stdout, report.stdout) && Captured(stderr, report.stderr)
      case TimedOut(stdout, stderr) =>
        && report.exitCode == None && report.rejectedReason == Some("timeout")
        && Captured(if stdout.Some? then stdout.value else [], report.stdout)
        && Captured((if stderr.Some? then stderr.value else [])
                    + (Points("\ntimeout after ") + Points(Text.Digits(timeout)) + Points("s")), report.stderr)
      case OsError(message) => report == Report(None, [], [], Some("exec_error: " + message))
      case Raised(error) => report == Report(None, [], Points("agent runner crash: ") + error, Some("runner_exception"))
  {
    match outcome {
      case Exited(_, stdout, stderr) =>
        CapturedExactly(stdout);
        CapturedExactly(stderr);
      case TimedOut(stdout, stderr) =>
        CapturedExactly(Or(stdout, []));
        CapturedExactly(Or(stderr, []) + TimeoutNote(timeout));
      case _ =>
    }
  }

  /** The report of every command: refused with its reason before anything runs, or made from what its child did. */
  lemma {:induction false} ReportExactly(commandType: string, payload: Payload, outcome: Outcome)
    ensures
      var report := ReportOf(Execute(commandType, payload, outcome));
      if commandType != "shell" then
        report == Report(None, [], [], Some("command_type '" + commandType + "' not implemented in v1.0"))
      else if payload.cmd.None? || Text.Blank(payload.cmd.value) then
        report == Report(None, [], [], Some("invalid_payload: missing or empty 'cmd'"))
      else
        match payload.timeout
        case NotInteger => report == Report(None, [], [], Some("invalid_payload: 'timeout_s' must be int"))
        case Infinite => report.exitCode == None && report.stdout == [] && report.rejectedReason == Some("runner_exception")
        case Missing => report == ReportOf(Shape(30, outcome))
        case Integer(value) =>
          if 1 <= value <= 3600 then report == ReportOf(Shape(value, outcome))
          else report == Report(None, [], [], Some("invalid_payload: 'timeout_s' out of range (1..3600)"))
  {
  }
}
