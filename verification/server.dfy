/** The language server around the parser: the workspace root, the command
    it runs, the joined output of that command, the pull-diagnostics handler
    and the debounced push path on content changes.

    The host is a parameter: the URL path decoding, `path.normalize` and
    `path.relative`, whether the platform is win32, whether a Makefile exists
    in the root, and what running a command produced. */
module Server {
  import opened Wrappers
  import opened Text
  import opened Parser
  import opened Debounce

  /** Milliseconds of quiet after the last change before validating. */
  const ValidateDelayMs: nat := 500

  /** The project build, used when the root has a Makefile. */
  const MakefileCommand: string := "make clean -s && make -s"

  /** The single-file assembly, followed by the file's path. */
  const SingleFilePrefix: string := "rgbasm -Weverything -o /dev/null "

  /** The host functions the server calls. `pathname` is
      `decodeURIComponent(new URL(uri).pathname)`. */
  datatype Host = Host(win32: bool, pathname: string -> string, normalize: string -> string,
                       relative: (string, string) -> string)

  predicate IsAsciiLetter(c: char)
  {
    'a' <= c <= 'z' || 'A' <= c <= 'Z'
  }

  /** `/^\/[a-zA-Z]:\//`: a URL path naming a Windows drive, as in "/C:/x". */
  predicate HasDriveSlash(p: string)
  {
    |p| >= 4 && p[0] == '/' && IsAsciiLetter(p[1]) && p[2] == ':' && p[3] == '/'
  }

  /** A Windows path rooted at a drive, as in "C:/x". */
  predicate DriveRooted(p: string)
  {
    |p| >= 3 && IsAsciiLetter(p[0]) && p[1] == ':' && p[2] == '/'
  }

  /** On win32, the slash in front of a drive letter is dropped; nothing else
      is touched, and on other platforms nothing at all. */
  function StripDriveSlash(win32: bool, p: string): (r: string)
    ensures r != p <==> win32 && HasDriveSlash(p)
    ensures r != p ==> "/" + r == p && DriveRooted(r)
    ensures win32 ==> !HasDriveSlash(r)
  {
    if win32 && |p| > 0 && p[0] == '/' && HasDriveSlash(p) then p[1..] else p
  }

  /** `uriToPath`: the decoded URL path, without the slash before a win32
      drive letter, normalized. */
  function UriToPath(host: Host, uri: string): (r: string)
    ensures host.win32 && HasDriveSlash(host.pathname(uri)) ==> r == host.normalize(host.pathname(uri)[1..])
    ensures !(host.win32 && HasDriveSlash(host.pathname(uri))) ==> r == host.normalize(host.pathname(uri))
  {
    host.normalize(StripDriveSlash(host.win32, host.pathname(uri)))
  }

  /** `if (!workspaceRoot)`: a missing root and an empty one both count as unset. */
  predicate RootSet(root: Option<string>)
  {
    root.Some? && root.value != ""
  }

  /** A shell command line and the directory it runs in. */
  datatype Command = Command(line: string, cwd: string)

  /** The command the server runs for the file at `filePath`, if any. */
  function SelectCommand(root: Option<string>, makefileExists: bool, filePath: string): (r: Option<Command>)
    ensures r.Some? <==> RootSet(root)
    ensures r.Some? ==> r.value.cwd == root.value
    ensures r.Some? ==> (r.value.line == MakefileCommand <==> makefileExists)
    ensures r.Some? && !makefileExists ==>
              SingleFilePrefix <= r.value.line && r.value.line[|SingleFilePrefix|..] == filePath
  {
    if !RootSet(root) then None
    else if makefileExists then Some(Command(MakefileCommand, root.value))
    else
      var line := SingleFilePrefix + filePath;
      assert line[0] != MakefileCommand[0];
      Some(Command(line, root.value))
  }

  /** What running a command produced: whether it failed, and its two streams. */
  datatype ExecResult = ExecResult(failed: bool, stdout: string, stderr: string)

  /** The text handed to the parser: both streams, stdout first. */
  function CombinedOutput(exec: ExecResult): (r: string)
    ensures |r| == |exec.stdout| + 1 + |exec.stderr| && exec.stdout <= r && r[|exec.stdout|] == '\n'
    ensures r[|exec.stdout| + 1..] == exec.stderr
  {
    exec.stdout + "\n" + exec.stderr
  }

  /** Joining the streams with a newline never glues two lines together: the
      lines scanned are those of stdout followed by those of stderr. */
  lemma CombinedLines(exec: ExecResult)
    ensures OutputLines(CombinedOutput(exec)) == OutputLines(exec.stdout) + OutputLines(exec.stderr)
  {
    SplitAround(exec.stdout, exec.stderr);
    NonBlankAppend(SplitLines(exec.stdout), SplitLines(exec.stderr));
  }

  /** The diagnostics `runRgbdsDiagnostics` resolves to for the document at
      `uri`, when `run` says what a command produces. */
  function DiagnosticsFor(root: Option<string>, host: Host, makefileExists: bool,
                          run: Command -> ExecResult, uri: string): (r: seq<Diagnostic>)
    ensures !RootSet(root) ==> r == []
    ensures forall d :: d in r ==> d.source == Source && d.message != ""
                                   && d.range.start.character == 0 && d.range.end.character == WholeLine
  {
    if !RootSet(root) then []
    else
      var filePath := UriToPath(host, uri);
      var command := SelectCommand(root, makefileExists, filePath).value;
      var lines := OutputLines(CombinedOutput(run(command)));
      ParseFields(lines, host.relative(root.value, filePath), host.normalize);
      Parse(lines, host.relative(root.value, filePath), host.normalize)
  }

  /** Diagnostics are reported in output order, everything found on stdout
      before anything found on stderr, whether or not the command failed. */
  lemma StreamOrder(root: Option<string>, host: Host, makefileExists: bool, run: Command -> ExecResult, uri: string)
    requires RootSet(root)
    ensures var filePath := UriToPath(host, uri);
            var exec := run(SelectCommand(root, makefileExists, filePath).value);
            DiagnosticsFor(root, host, makefileExists, run, uri)
            == Parse(OutputLines(exec.stdout) + OutputLines(exec.stderr), host.relative(root.value, filePath), host.normalize)
  {
    CombinedLines(run(SelectCommand(root, makefileExists, UriToPath(host, uri)).value));
  }

  /** A command that prints nothing but whitespace yields no diagnostics. */
  lemma SilentCommand(root: Option<string>, host: Host, makefileExists: bool, run: Command -> ExecResult, uri: string)
    requires RootSet(root)
    requires var exec := run(SelectCommand(root, makefileExists, UriToPath(host, uri)).value);
             IsBlank(exec.stdout) && IsBlank(exec.stderr)
    ensures DiagnosticsFor(root, host, makefileExists, run, uri) == []
  {
    var filePath := UriToPath(host, uri);
    var exec := run(SelectCommand(root, makefileExists, filePath).value);
    CombinedLines(exec);
    BlankOutput(exec.stdout, host.relative(root.value, filePath), host.normalize);
    BlankOutput(exec.stderr, host.relative(root.value, filePath), host.normalize);
  }

  /** `runRgbdsDiagnostics(document)`: without a root, nothing; otherwise
      pick the command, run it in the root and parse both streams together,
      ignoring whether it failed. */
  method RunRgbdsDiagnostics(root: Option<string>, host: Host, makefileExists: bool,
                             run: Command -> ExecResult, uri: string)
    returns (command: Option<Command>, diagnostics: seq<Diagnostic>)
    ensures command == SelectCommand(root, makefileExists, UriToPath(host, uri))
    ensures command.None? ==> diagnostics == []
    ensures diagnostics == DiagnosticsFor(root, host, makefileExists, run, uri)
  {
    if !RootSet(root) {
      return None, [];
    }
    var workspaceRoot := root.value;
    var filePath := UriToPath(host, uri);
    var relativeFilePath := host.relative(workspaceRoot, filePath);
    command := SelectCommand(root, makefileExists, filePath);
    var exec := run(command.value);
    var output := exec.stdout + "\n" + exec.stderr;
    diagnostics := ParseRgbdsOutput(output, relativeFilePath, host.normalize);
  }

  /** The LSP document diagnostic report kinds; this server only sends Full. */
  datatype ReportKind = Full | Unchanged

  /** A pull-diagnostics answer. */
  datatype DiagnosticReport = DiagnosticReport(kind: ReportKind, items: seq<Diagnostic>)

  /** The pull-diagnostics handler: a full report, empty for a document the
      server does not have open. */
  method HandleDiagnosticRequest(uri: string, openDocuments: set<string>, root: Option<string>, host: Host,
                                 makefileExists: bool, run: Command -> ExecResult)
    returns (report: DiagnosticReport)
    ensures report.kind == Full
    ensures uri !in openDocuments ==> report.items == []
    ensures uri in openDocuments ==> report.items == DiagnosticsFor(root, host, makefileExists, run, uri)
  {
    if uri !in openDocuments {
      return DiagnosticReport(Full, []);
    }
    var _, diagnostics := RunRgbdsDiagnostics(root, host, makefileExists, run, uri);
    report := DiagnosticReport(Full, diagnostics);
  }

  /** `onDidChangeContent`: every document goes through the one debounced
      validator, whatever document was pending before. */
  method OnDidChangeContent(validator: Debouncer<string>, uri: string, now: int)
    requires validator.wait == ValidateDelayMs
    modifies validator
    ensures validator.slot == Some(Pending(uri, now + ValidateDelayMs))
  {
    validator.Call(uri, now);
  }

  /** The validator's timer at `now`: when the pending validation is due,
      it runs for the document of the latest change and its diagnostics are
      published for that document. */
  method OnValidatorTimer(validator: Debouncer<string>, now: int, root: Option<string>, host: Host,
                          makefileExists: bool, run: Command -> ExecResult)
    returns (published: Option<(string, seq<Diagnostic>)>)
    modifies validator
    ensures Due(old(validator.slot), now) ==>
              validator.slot == None
              && published == Some((old(validator.slot).value.args,
                                    DiagnosticsFor(root, host, makefileExists, run, old(validator.slot).value.args)))
    ensures !Due(old(validator.slot), now) ==> validator.slot == old(validator.slot) && published == None
  {
    var fired := validator.Tick(now);
    if fired.None? {
      return None;
    }
    var _, diagnostics := RunRgbdsDiagnostics(root, host, makefileExists, run, fired.value);
    published := Some((fired.value, diagnostics));
  }

  /** With one validator shared by all documents, a change to document b
      less than the delay after a change to document a cancels the
      validation of a: the timer checks in between (`early`, none later than
      b's change) all come before a's deadline, and only b is ever
      validated. */
  lemma SharedValidatorDropsEarlierDocument(a: string, b: string, t1: int, early: seq<int>, t2: int,
                                            times: seq<int>, t: int)
    requires a != b && t2 < t1 + ValidateDelayMs
    requires forall k :: 0 <= k < |early| ==> early[k] <= t2
    requires forall k :: 0 <= k < |times| ==> times[k] < t2 + ValidateDelayMs
    requires t2 + ValidateDelayMs <= t
    ensures var fired := Run(ValidateDelayMs, [Call(a, t1)] + TicksBefore(early) + [Call(b, t2)]
                                              + TicksBefore(times) + [Tick(t)]).fired;
            fired == [b] && a !in fired
  {
    var first := [Call(a, t1)] + TicksBefore(early);
    QuietUntilDeadline(ValidateDelayMs, [], a, t1, early);
    assert [] + [Call(a, t1)] + TicksBefore(early) == first;
    FiresAfterQuietPeriod(ValidateDelayMs, first, b, t2, times, t);
  }
}
