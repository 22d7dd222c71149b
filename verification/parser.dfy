/** `parseRgbdsOutput`: the text printed by the RGBDS tools, turned into the
    diagnostics for the file being validated.

    The specification is layered: `Scan` lists the primary matches of the
    non-blank lines in order, each with its final message (taken from the
    next line when the two-line form is used); `Accepted` keeps those whose
    reported file the relative path ends with; `Diagnostics` converts them.
    The method `ParseRgbdsOutput` is the source's index loop, proved to
    compute exactly `Parse`. */
module Parser {
  import opened Wrappers
  import opened Text
  import opened Patterns

  /** The two LSP severities the parser produces (DiagnosticSeverity 1 and 2). */
  datatype Severity = Error | Warning

  datatype Position = Position(line: int, character: int)

  datatype Range = Range(start: Position, end: Position)

  datatype Diagnostic = Diagnostic(severity: Severity, range: Range, source: string, message: string)

  /** The tag every diagnostic carries. */
  const Source: string := "rgbasm"

  /** The end column used for "the whole line". */
  const WholeLine: int := 999

  /** The message used when neither line of a report carries one. */
  function FallbackMessage(severity: string): string
  {
    "Unknown " + severity + " reported by rgbasm."
  }

  /** One diagnostic built from the capture groups of a primary match and
      its final message. */
  function ToDiagnostic(raw: RawMatch, message: string): (d: Diagnostic)
    ensures d.message != ""
    ensures message != "" ==> d.message == message
    ensures message == "" ==> d.message == FallbackMessage(raw.severity)
    ensures d.severity == Error <==> raw.severity == "error"
    ensures d.range.start.line == d.range.end.line == DecimalValue(raw.lineNumber) - 1
    ensures d.range.start.character == 0 && d.range.end.character == WholeLine
    ensures d.source == Source
  {
    var lineIndex := DecimalValue(raw.lineNumber) - 1;
    var severity := if raw.severity == "error" then Error else Warning;
    var text := if message == "" then FallbackMessage(raw.severity) else message;
    Diagnostic(severity, Range(Position(lineIndex, 0), Position(lineIndex, WholeLine)), Source, text)
  }

  /** A primary match found on line `index`, with its final message;
      `stitched` records that the message came from line `index + 1`. */
  datatype Entry = Entry(index: int, raw: RawMatch, message: string, stitched: bool)

  /** The lines the parser scans: `output.split("\n")` without blank lines. */
  function OutputLines(output: string): (r: seq<string>)
    ensures forall l :: l in r ==> !IsBlank(l) && '\n' !in l
  {
    NonBlankLinesSpec(SplitLines(output));
    SplitLinesPieces(output);
    NonBlankLines(SplitLines(output))
  }

  /** The primary matches of lines[i..] in order, two-line reports joined. */
  function Scan(lines: seq<string>, i: int): seq<Entry>
    requires 0 <= i <= |lines|
    decreases |lines| - i
  {
    if i == |lines| then []
    else match MatchPrimary(lines[i])
      case None => Scan(lines, i + 1)
      case Some(raw) =>
        var first := Trim(raw.message);
        var next := if first == "" && i + 1 < |lines| then MatchContinuation(lines[i + 1]) else None;
        match next
        case Some(text) => [Entry(i, raw, Trim(text), true)] + Scan(lines, i + 2)
        case None => [Entry(i, raw, first, false)] + Scan(lines, i + 1)
  }

  /** `relativeFilePath.endsWith(path.normalize(file))`. */
  predicate ForFile(e: Entry, relativeFilePath: string, normalize: string -> string)
  {
    EndsWith(relativeFilePath, normalize(e.raw.file))
  }

  /** The entries that pass the current-file filter, in their original order. */
  function Accepted(entries: seq<Entry>, relativeFilePath: string, normalize: string -> string): (r: seq<Entry>)
    ensures |r| <= |entries|
  {
    if entries == [] then []
    else if ForFile(entries[0], relativeFilePath, normalize) then
      [entries[0]] + Accepted(entries[1..], relativeFilePath, normalize)
    else Accepted(entries[1..], relativeFilePath, normalize)
  }

  /** Every entry converted to its diagnostic. */
  function Diagnostics(entries: seq<Entry>): (r: seq<Diagnostic>)
    ensures |r| == |entries|
  {
    if entries == [] then [] else [ToDiagnostic(entries[0].raw, entries[0].message)] + Diagnostics(entries[1..])
  }

  /** The result of `parseRgbdsOutput` on the scanned lines. */
  function Parse(lines: seq<string>, relativeFilePath: string, normalize: string -> string): (r: seq<Diagnostic>)
    ensures |r| <= |lines|
  {
    ScanCount(lines, 0);
    Diagnostics(Accepted(Scan(lines, 0), relativeFilePath, normalize))
  }

  /** What an entry of `Scan` says about the lines it came from. */
  ghost predicate EntryRule(lines: seq<string>, e: Entry)
  {
    0 <= e.index < |lines| && MatchPrimary(lines[e.index]) == Some(e.raw)
    && var first := Trim(e.raw.message);
    if e.stitched then
      first == "" && e.index + 1 < |lines| && MatchContinuation(lines[e.index + 1]).Some?
      && e.message == Trim(MatchContinuation(lines[e.index + 1]).value)
    else
      e.message == first
      && (first == "" ==> e.index + 1 == |lines| || MatchContinuation(lines[e.index + 1]).None?)
  }

  /** The last line an entry occupies: its primary line, or the continuation. */
  function LastLine(e: Entry): int
  {
    if e.stitched then e.index + 1 else e.index
  }

  /** Every entry of `Scan` obeys the matching and stitching rule and comes
      from lines[i..]. */
  lemma {:induction false} ScanEntries(lines: seq<string>, i: int)
    requires 0 <= i <= |lines|
    ensures forall e :: e in Scan(lines, i) ==> EntryRule(lines, e) && i <= e.index
    decreases |lines| - i
  {
    if i < |lines| && MatchPrimary(lines[i]).Some? {
      var j := ScanStep(lines, i);
      ScanEntries(lines, j);
    } else if i < |lines| {
      ScanEntries(lines, i + 1);
    }
  }

  /** The entries of `Scan` are in line order and never overlap, so a
      continuation line consumed by one entry is never the primary line of
      another. */
  lemma {:induction false} ScanOrdered(lines: seq<string>, i: int)
    requires 0 <= i <= |lines|
    ensures forall n, m :: 0 <= n < m < |Scan(lines, i)| ==> LastLine(Scan(lines, i)[n]) < Scan(lines, i)[m].index
    decreases |lines| - i
  {
    if i < |lines| && MatchPrimary(lines[i]).Some? {
      var j := ScanStep(lines, i);
      ScanOrdered(lines, j);
      ScanEntries(lines, j);
      var S, R := Scan(lines, i), Scan(lines, j);
      forall n, m | 0 <= n < m < |S| ensures LastLine(S[n]) < S[m].index {
        assert S[m] == R[m - 1];
        assert S[m] in R;
        if n > 0 {
          assert S[n] == R[n - 1];
        }
      }
    } else if i < |lines| {
      ScanOrdered(lines, i + 1);
    }
  }

  /** One step of `Scan` on a primary line: the entry it produces, and the
      line the scan resumes at. */
  lemma ScanStep(lines: seq<string>, i: int) returns (j: int)
    requires 0 <= i < |lines| && MatchPrimary(lines[i]).Some?
    ensures j == LastLine(Scan(lines, i)[0]) + 1 <= |lines|
    ensures |Scan(lines, i)| >= 1 && Scan(lines, i) == [Scan(lines, i)[0]] + Scan(lines, j)
    ensures Scan(lines, i)[0].index == i && EntryRule(lines, Scan(lines, i)[0])
  {
    var raw := MatchPrimary(lines[i]).value;
    var first := Trim(raw.message);
    var next := if first == "" && i + 1 < |lines| then MatchContinuation(lines[i + 1]) else None;
    j := if next.Some? then i + 2 else i + 1;
  }

  /** A line without a primary match adds no entry. */
  lemma NoEntryStep(lines: seq<string>, i: int)
    requires 0 <= i < |lines| && MatchPrimary(lines[i]).None?
    ensures Scan(lines, i) == Scan(lines, i + 1)
  {
  }

  /** Scanning one more primary line extends a scanned prefix by one entry. */
  lemma ScanAdvance(lines: seq<string>, entries: seq<Entry>, i: int) returns (e: Entry, j: int)
    requires 0 <= i < |lines| && MatchPrimary(lines[i]).Some?
    requires entries + Scan(lines, i) == Scan(lines, 0)
    ensures e.raw == MatchPrimary(lines[i]).value
    ensures var first := Trim(e.raw.message);
            if first == "" && i + 1 < |lines| && MatchContinuation(lines[i + 1]).Some?
            then j == i + 2 && e.message == Trim(MatchContinuation(lines[i + 1]).value)
            else j == i + 1 && e.message == first
    ensures (entries + [e]) + Scan(lines, j) == Scan(lines, 0)
  {
    j := ScanStep(lines, i);
    e := Scan(lines, i)[0];
    AppendAssociates(entries, [e], Scan(lines, j));
  }

  lemma {:induction false} AcceptedSnoc(entries: seq<Entry>, e: Entry, relativeFilePath: string, normalize: string -> string)
    ensures Accepted(entries + [e], relativeFilePath, normalize)
            == Accepted(entries, relativeFilePath, normalize) + (if ForFile(e, relativeFilePath, normalize) then [e] else [])
    decreases |entries|
  {
    if entries == [] {
      assert [] + [e] == [e];
    } else {
      assert (entries + [e])[1..] == entries[1..] + [e];
      AcceptedSnoc(entries[1..], e, relativeFilePath, normalize);
    }
  }

  lemma {:induction false} DiagnosticsAppend(xs: seq<Entry>, ys: seq<Entry>)
    ensures Diagnostics(xs + ys) == Diagnostics(xs) + Diagnostics(ys)
    decreases |xs|
  {
    if xs == [] {
      assert xs + ys == ys;
    } else {
      assert (xs + ys)[1..] == xs[1..] + ys;
      DiagnosticsAppend(xs[1..], ys);
    }
  }

  /** One more entry adds its diagnostic exactly when it passes the filter. */
  lemma DiagnosticsSnoc(entries: seq<Entry>, e: Entry, relativeFilePath: string, normalize: string -> string)
    ensures Diagnostics(Accepted(entries + [e], relativeFilePath, normalize))
            == Diagnostics(Accepted(entries, relativeFilePath, normalize))
               + (if ForFile(e, relativeFilePath, normalize) then [ToDiagnostic(e.raw, e.message)] else [])
  {
    AcceptedSnoc(entries, e, relativeFilePath, normalize);
    var tail := if ForFile(e, relativeFilePath, normalize) then [e] else [];
    DiagnosticsAppend(Accepted(entries, relativeFilePath, normalize), tail);
  }

  lemma AppendAssociates<T>(a: seq<T>, b: seq<T>, c: seq<T>)
    ensures a + (b + c) == (a + b) + c
  {
  }

  /** The n-th diagnostic is the conversion of the n-th entry. */
  lemma {:induction false} DiagnosticsAt(entries: seq<Entry>)
    ensures forall n :: 0 <= n < |entries| ==>
              Diagnostics(entries)[n] == ToDiagnostic(entries[n].raw, entries[n].message)
    decreases |entries|
  {
    if entries != [] {
      DiagnosticsAt(entries[1..]);
      forall n | 0 < n < |entries|
        ensures Diagnostics(entries)[n] == ToDiagnostic(entries[n].raw, entries[n].message)
      {
        assert entries[n] == entries[1..][n - 1];
      }
    }
  }

  /** The filter keeps exactly the entries for the current file. */
  lemma {:induction false} AcceptedMembers(entries: seq<Entry>, relativeFilePath: string, normalize: string -> string)
    ensures forall e :: e in Accepted(entries, relativeFilePath, normalize)
                        <==> e in entries && ForFile(e, relativeFilePath, normalize)
    decreases |entries|
  {
    if entries != [] {
      AcceptedMembers(entries[1..], relativeFilePath, normalize);
      assert entries == [entries[0]] + entries[1..];
    }
  }

  /** Entries that never overlap and come in line order. */
  ghost predicate InLineOrder(entries: seq<Entry>)
  {
    forall n, m :: 0 <= n < m < |entries| ==> LastLine(entries[n]) < entries[m].index
  }

  /** The filter keeps the entries in their original order. */
  lemma {:induction false} AcceptedOrdered(entries: seq<Entry>, relativeFilePath: string, normalize: string -> string)
    requires InLineOrder(entries)
    ensures InLineOrder(Accepted(entries, relativeFilePath, normalize))
    decreases |entries|
  {
    if entries != [] {
      var tail := entries[1..];
      assert InLineOrder(tail) by {
        forall n, m | 0 <= n < m < |tail| ensures LastLine(tail[n]) < tail[m].index {
          assert tail[n] == entries[n + 1] && tail[m] == entries[m + 1];
        }
      }
      AcceptedOrdered(tail, relativeFilePath, normalize);
      AcceptedMembers(tail, relativeFilePath, normalize);
      var rest := Accepted(tail, relativeFilePath, normalize);
      if ForFile(entries[0], relativeFilePath, normalize) {
        var r := [entries[0]] + rest;
        forall n, m | 0 <= n < m < |r| ensures LastLine(r[n]) < r[m].index {
          assert r[m] == rest[m - 1] && rest[m - 1] in tail;
          if n > 0 {
            assert r[n] == rest[n - 1];
          } else {
            var k :| 0 <= k < |tail| && tail[k] == r[m];
            assert entries[k + 1] == r[m];
          }
        }
      }
    }
  }

  /** What `parseRgbdsOutput` returns, diagnostic by diagnostic: the n-th
      diagnostic converts the n-th accepted entry, which is a primary match
      on a line of the input (its message chosen by the stitching rule) whose
      reported file the relative path ends with; the entries come in line
      order and no line serves two of them. */
  lemma ParseSpec(lines: seq<string>, relativeFilePath: string, normalize: string -> string)
    ensures var accepted := Accepted(Scan(lines, 0), relativeFilePath, normalize);
            |Parse(lines, relativeFilePath, normalize)| == |accepted|
            && InLineOrder(accepted)
            && forall n :: 0 <= n < |accepted| ==>
                 Parse(lines, relativeFilePath, normalize)[n] == ToDiagnostic(accepted[n].raw, accepted[n].message)
                 && EntryRule(lines, accepted[n]) && ForFile(accepted[n], relativeFilePath, normalize)
  {
    var accepted := Accepted(Scan(lines, 0), relativeFilePath, normalize);
    ScanEntries(lines, 0);
    ScanOrdered(lines, 0);
    AcceptedMembers(Scan(lines, 0), relativeFilePath, normalize);
    AcceptedOrdered(Scan(lines, 0), relativeFilePath, normalize);
    DiagnosticsAt(accepted);
    forall n | 0 <= n < |accepted|
      ensures EntryRule(lines, accepted[n]) && ForFile(accepted[n], relativeFilePath, normalize)
    {
      assert accepted[n] in accepted;
    }
  }

  /** Every diagnostic covers one whole line (columns 0 to 999) at the
      reported line minus one, is tagged "rgbasm" and has a non-empty
      message. */
  lemma ParseFields(lines: seq<string>, relativeFilePath: string, normalize: string -> string)
    ensures forall d :: d in Parse(lines, relativeFilePath, normalize) ==>
              d.source == Source && d.message != ""
              && d.range.start.character == 0 && d.range.end.character == WholeLine
              && d.range.start.line == d.range.end.line
  {
    ParseSpec(lines, relativeFilePath, normalize);
  }

  /** Every line with a primary match produces an entry, unless it is the
      continuation line of the entry just before it. */
  lemma {:induction false} ScanComplete(lines: seq<string>, i: int)
    requires 0 <= i <= |lines|
    ensures forall k :: i <= k < |lines| && MatchPrimary(lines[k]).Some? ==>
              (exists e :: e in Scan(lines, i) && e.index == k)
              || (exists e :: e in Scan(lines, i) && e.stitched && e.index + 1 == k)
    decreases |lines| - i
  {
    if i < |lines| && MatchPrimary(lines[i]).Some? {
      var j := ScanStep(lines, i);
      ScanComplete(lines, j);
      var e := Scan(lines, i)[0];
      assert e in Scan(lines, i);
      forall e' | e' in Scan(lines, j) ensures e' in Scan(lines, i) {
      }
    } else if i < |lines| {
      ScanComplete(lines, i + 1);
    }
  }

  /** Number of lines in lines[i..] on which the primary pattern matches. */
  function PrimaryCount(lines: seq<string>, i: int): (c: nat)
    requires 0 <= i <= |lines|
    ensures c <= |lines| - i
    decreases |lines| - i
  {
    if i == |lines| then 0
    else (if MatchPrimary(lines[i]).Some? then 1 else 0) + PrimaryCount(lines, i + 1)
  }

  /** Fewer lines never hold more primary matches. */
  lemma {:induction false} PrimaryCountMonotone(lines: seq<string>, i: int, j: int)
    requires 0 <= i <= j <= |lines|
    ensures PrimaryCount(lines, j) <= PrimaryCount(lines, i)
    decreases j - i
  {
    if i < j {
      PrimaryCountMonotone(lines, i + 1, j);
    }
  }

  /** There are no more entries than lines with a primary match. */
  lemma {:induction false} ScanCount(lines: seq<string>, i: int)
    requires 0 <= i <= |lines|
    ensures |Scan(lines, i)| <= PrimaryCount(lines, i)
    decreases |lines| - i
  {
    if i < |lines| && MatchPrimary(lines[i]).Some? {
      var j := ScanStep(lines, i);
      ScanCount(lines, j);
      PrimaryCountMonotone(lines, i + 1, j);
      assert PrimaryCount(lines, i) == 1 + PrimaryCount(lines, i + 1);
      assert |Scan(lines, i)| == 1 + |Scan(lines, j)|;
    } else if i < |lines| {
      NoEntryStep(lines, i);
      ScanCount(lines, i + 1);
      assert PrimaryCount(lines, i) == PrimaryCount(lines, i + 1);
    }
  }

  /** At most one diagnostic per non-blank line that matches the primary
      pattern. */
  lemma ParseCount(lines: seq<string>, relativeFilePath: string, normalize: string -> string)
    ensures |Parse(lines, relativeFilePath, normalize)| <= PrimaryCount(lines, 0) <= |lines|
  {
    ScanCount(lines, 0);
  }

  /** On the parser's own lines (none blank), a stitched message is never
      empty, so the fallback message appears only when the primary line has
      no message and no continuation line follows it. */
  lemma StitchedMessage(output: string)
    ensures forall e :: e in Scan(OutputLines(output), 0) && e.stitched ==> e.message != ""
  {
    var lines := OutputLines(output);
    ScanEntries(lines, 0);
    NonBlankLinesSpec(SplitLines(output));
    forall e | e in Scan(lines, 0) && e.stitched ensures e.message != "" {
      assert lines[e.index + 1] in lines;
      ContinuationHasText(lines[e.index + 1]);
    }
  }

  /** Output made only of whitespace yields no diagnostics. */
  lemma BlankOutput(output: string, relativeFilePath: string, normalize: string -> string)
    requires IsBlank(output)
    ensures OutputLines(output) == []
    ensures Parse(OutputLines(output), relativeFilePath, normalize) == []
  {
    BlankFiltered(output);
  }

  /** A whitespace-only line between two parts of the output changes nothing:
      it is removed before the scan, so it never separates a primary line
      from its continuation. */
  lemma BlankLineIgnored(a: string, blank: string, b: string)
    requires IsBlank(blank) && '\n' !in blank
    ensures OutputLines(a + "\n" + blank + "\n" + b) == OutputLines(a + "\n" + b)
  {
    BlankPieceIgnored(a, blank, b);
  }

  /** The same on the split pieces. */
  lemma BlankPieceIgnored(a: string, blank: string, b: string)
    requires IsBlank(blank) && '\n' !in blank
    ensures NonBlankLines(SplitLines(a + "\n" + blank + "\n" + b)) == NonBlankLines(SplitLines(a + "\n" + b))
  {
    var A, L, B := SplitLines(a), SplitLines(blank), SplitLines(b);
    assert a + "\n" + blank + "\n" + b == a + "\n" + (blank + "\n" + b);
    calc {
      NonBlankLines(SplitLines(a + "\n" + (blank + "\n" + b)));
      { SplitAround(a, blank + "\n" + b); SplitAround(blank, b); }
      NonBlankLines(A + (L + B));
      { NonBlankAppend(A, L + B); NonBlankAppend(L, B); BlankFiltered(blank); }
      NonBlankLines(A) + ([] + NonBlankLines(B));
      { assert [] + NonBlankLines(B) == NonBlankLines(B); NonBlankAppend(A, B); }
      NonBlankLines(A + B);
      { SplitAround(a, b); }
      NonBlankLines(SplitLines(a + "\n" + b));
    }
  }

  /** `parseRgbdsOutput(output, document, relativeFilePath)`: the index loop
      of the source, with the manual skip over a consumed continuation line.
      `normalize` stands for `path.normalize`. */
  method ParseRgbdsOutput(output: string, relativeFilePath: string, normalize: string -> string)
    returns (diagnostics: seq<Diagnostic>)
    ensures diagnostics == Parse(OutputLines(output), relativeFilePath, normalize)
  {
    var lines := OutputLines(output);
    diagnostics := [];
    var i := 0;
    ghost var entries: seq<Entry> := [];
    while i < |lines|
      invariant 0 <= i <= |lines|
      invariant entries + Scan(lines, i) == Scan(lines, 0)
      invariant diagnostics == Diagnostics(Accepted(entries, relativeFilePath, normalize))
    {
      var line := lines[i];
      var m := MatchPrimary(line);
      if m.None? {
        NoEntryStep(lines, i);
        i := i + 1;
      } else {
        ghost var e, j := ScanAdvance(lines, entries, i);
        var raw := m.value;
        var finalMessage := Trim(raw.message);
        if finalMessage == "" && i + 1 < |lines| {
          var nextLineMatch := MatchContinuation(lines[i + 1]);
          if nextLineMatch.Some? {
            finalMessage := Trim(nextLineMatch.value);
            i := i + 1;
          }
        }
        assert i + 1 == j && raw == e.raw && finalMessage == e.message;
        DiagnosticsSnoc(entries, e, relativeFilePath, normalize);
        entries := entries + [e];
        var normalizedFile := normalize(raw.file);
        if EndsWith(relativeFilePath, normalizedFile) {
          diagnostics := diagnostics + [ToDiagnostic(raw, finalMessage)];
        }
        i := i + 1;
      }
    }
    assert entries == Scan(lines, 0);
  }
}
