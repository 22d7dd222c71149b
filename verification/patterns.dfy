/** The two regular expressions of the output parser, and what JavaScript's
    `String.prototype.match` returns for them.

    Primary:       /(error|warning):\s*(.*?)\((\d+)\):\s*(.*)/
    Continuation:  /^\s{4,}(.*)/

    `PrimaryAt` is the reference: which spans of a line the primary pattern
    can cover at all. The functions below compute the one match the
    JavaScript engine reports (leftmost start, greedy `\s*`, lazy file part,
    greedy `\d+`, `\s*` and `.*`), and the `...Spec` lemmas prove that they do. */
module Patterns {
  import opened Wrappers
  import opened Text

  /** "error:" or "warning:" starts at p. */
  predicate KeywordAt(line: string, p: int, w: string)
  {
    (w == "error" || w == "warning") && 0 <= p && p + |w| < |line|
    && line[p..p + |w|] == w && line[p + |w|] == ':'
  }

  /** "(" digits "):" starts at j; the digits are line[j + 1..k]. */
  predicate LineRefAt(line: string, j: int, k: int)
  {
    0 <= j && j + 1 < k && k + 1 < |line|
    && line[j] == '(' && DigitsIn(line, j + 1, k) && line[k] == ')' && line[k + 1] == ':'
  }

  /** The primary pattern covers line[p..k + 2] with keyword w, `\s*` covering
      line[p + |w| + 1..s] and the file part covering line[s..j]. The trailing
      `\s*(.*)` matches at any position, so it adds no condition. */
  predicate PrimaryAt(line: string, p: int, w: string, s: int, j: int, k: int)
  {
    KeywordAt(line, p, w) && p + |w| + 1 <= s
    && WhitespaceIn(line, p + |w| + 1, s) && NoTerminatorIn(line, s, j) && LineRefAt(line, j, k)
  }

  /** Greedy `\s*(.*)` from position `from`: whitespace up to a, then the
      captured text line[a..b] running to the first line terminator. */
  predicate GreedyRest(line: string, from: int, a: int, b: int)
  {
    from <= a && WhitespaceIn(line, from, a) && (a == |line| || !IsWhitespace(line[a]))
    && NoTerminatorIn(line, a, b) && (b == |line| || IsLineTerminator(line[b]))
  }

  /** `\s*(.*)` from `from`, as the engine matches it: the ends computed by
      WhitespaceEnd and RestEnd. */
  lemma GreedyRestEnds(line: string, from: int)
    requires 0 <= from <= |line|
    ensures GreedyRest(line, from, WhitespaceEnd(line, from), RestEnd(line, WhitespaceEnd(line, from)))
  {
    WhitespaceEndSpec(line, from);
    RestEndSpec(line, WhitespaceEnd(line, from));
  }

  /** Positions of a primary match: keyword start, keyword, file part
      [fileStart, fileEnd), closing parenthesis, message [msgStart, msgEnd). */
  datatype Span = Span(start: int, word: string, fileStart: int, fileEnd: int, close: int,
                       msgStart: int, msgEnd: int)

  predicate SpanBounds(line: string, sp: Span)
  {
    0 <= sp.start && 0 <= sp.fileStart <= sp.fileEnd && sp.fileEnd + 1 < sp.close
    && sp.close + 2 <= sp.msgStart <= sp.msgEnd <= |line|
  }

  /** The match the engine reports once it has settled on start position
      sp.start: greedy `\s*` (the file part starts on a non-space), the
      shortest file part, and the greedy message. */
  ghost predicate EngineChoiceAt(line: string, sp: Span)
  {
    PrimaryAt(line, sp.start, sp.word, sp.fileStart, sp.fileEnd, sp.close)
    && !IsWhitespace(line[sp.fileStart])
    && (forall s, j, k :: PrimaryAt(line, sp.start, sp.word, s, j, k) ==> sp.fileEnd <= j)
    && GreedyRest(line, sp.close + 2, sp.msgStart, sp.msgEnd)
  }

  /** The closing parenthesis of a "(digits):" group starting at j, if there is one. */
  function LineRefEnd(line: string, j: int): (r: Option<int>)
    requires 0 <= j <= |line|
    ensures r.Some? ==> j + 1 < r.value && r.value + 1 < |line|
  {
    if j < |line| && line[j] == '(' then
      var k := DigitsEnd(line, j + 1);
      if j + 1 < k && k + 1 < |line| && line[k] == ')' && line[k + 1] == ':' then Some(k) else None
    else None
  }

  /** LineRefEnd finds the group exactly when there is one. */
  lemma LineRefEndSpec(line: string, j: int)
    requires 0 <= j <= |line|
    ensures LineRefEnd(line, j).Some? ==> LineRefAt(line, j, LineRefEnd(line, j).value)
    ensures LineRefEnd(line, j).None? ==> forall k :: !LineRefAt(line, j, k)
  {
    if j < |line| && line[j] == '(' {
      var k := DigitsEnd(line, j + 1);
      DigitsEndSpec(line, j + 1);
    }
  }

  /** The lazy `(.*?)` followed by `\((\d+)\):`: the first j at or after
      `from` where a "(digits):" group starts, unless a line terminator comes
      first. */
  function FileEnd(line: string, from: int): (r: Option<(int, int)>)
    requires 0 <= from <= |line|
    ensures r.Some? ==> from <= r.value.0 && r.value.0 + 1 < r.value.1 && r.value.1 + 1 < |line|
    decreases |line| - from
  {
    if from == |line| then None
    else match LineRefEnd(line, from)
      case Some(k) => Some((from, k))
      case None => if IsLineTerminator(line[from]) then None else FileEnd(line, from + 1)
  }

  /** FileEnd returns the first "(digits):" group reachable from `from`
      without crossing a line terminator, and none when there is no such group. */
  lemma {:induction false} FileEndSpec(line: string, s: int, from: int)
    requires 0 <= s <= from <= |line| && NoTerminatorIn(line, s, from)
    ensures var r := FileEnd(line, from);
            r.Some? ==> NoTerminatorIn(line, s, r.value.0) && LineRefAt(line, r.value.0, r.value.1)
    ensures var r := FileEnd(line, from);
            r.Some? ==> forall j, k :: from <= j < r.value.0 ==> !LineRefAt(line, j, k)
    ensures FileEnd(line, from).None? ==>
              forall j, k :: from <= j && NoTerminatorIn(line, s, j) ==> !LineRefAt(line, j, k)
    decreases |line| - from
  {
    if from < |line| {
      LineRefEndSpec(line, from);
      if LineRefEnd(line, from).None? && !IsLineTerminator(line[from]) {
        FileEndSpec(line, s, from + 1);
      } else if LineRefEnd(line, from).None? {
        assert forall j :: from < j ==> !NoTerminatorIn(line, s, j);
      }
    }
  }

  /** The match the engine reports when it tries start position p with
      keyword w already matched: the whole whitespace run, then the lazy
      file part, then the greedy message. */
  function MatchWith(line: string, p: int, w: string): (r: Option<Span>)
    requires KeywordAt(line, p, w)
    ensures r.Some? ==> r.value.start == p && SpanBounds(line, r.value)
  {
    var s := WhitespaceEnd(line, p + |w| + 1);
    match FileEnd(line, s)
    case None => None
    case Some((j, k)) =>
      var a := WhitespaceEnd(line, k + 2);
      Some(Span(p, w, s, j, k, a, RestEnd(line, a)))
  }

  /** The match the engine reports when it tries start position p, if any.
      The alternation tries "error" first; the two keywords differ in their
      first character, so at most one of them matches. */
  function MatchAt(line: string, p: int): (r: Option<Span>)
    ensures r.Some? ==> r.value.start == p && SpanBounds(line, r.value)
  {
    if KeywordAt(line, p, "error") then MatchWith(line, p, "error")
    else if KeywordAt(line, p, "warning") then MatchWith(line, p, "warning")
    else None
  }

  /** At most one keyword matches at a position. */
  lemma KeywordUnique(line: string, p: int, w: string, w': string)
    requires KeywordAt(line, p, w) && KeywordAt(line, p, w')
    ensures w == w'
  {
    assert line[p] == line[p..p + |w|][0] == w[0];
    assert line[p] == line[p..p + |w'|][0] == w'[0];
  }

  /** Backtracking into the first `\s*` never helps: any match at p also
      works with the whitespace run taken in full. */
  lemma MaximalWhitespace(line: string, p: int, w: string, s: int, s': int, j: int, k: int)
    requires KeywordAt(line, p, w) && s == WhitespaceEnd(line, p + |w| + 1)
    requires PrimaryAt(line, p, w, s', j, k)
    ensures s' <= s <= j && NoTerminatorIn(line, s, j)
  {
    WhitespaceEndSpec(line, p + |w| + 1);
  }

  /** MatchWith reports the engine's match at p with keyword w, and nothing
      exactly when the pattern cannot match there with that keyword. */
  lemma MatchWithSpec(line: string, p: int, w: string)
    requires KeywordAt(line, p, w)
    ensures MatchWith(line, p, w).Some? ==> EngineChoiceAt(line, MatchWith(line, p, w).value)
    ensures MatchWith(line, p, w).None? ==> forall s, j, k :: !PrimaryAt(line, p, w, s, j, k)
  {
    var s := WhitespaceEnd(line, p + |w| + 1);
    match FileEnd(line, s)
    case Some((j, k)) =>
      MatchWithFound(line, p, w, s, j, k);
      GreedyRestEnds(line, k + 2);
    case None =>
      FileEndSpec(line, s, s);
      forall s', j, k | PrimaryAt(line, p, w, s', j, k) ensures false {
        MaximalWhitespace(line, p, w, s, s', j, k);
      }
  }

  /** When the lazy file part ends at j, the pattern matches there, and no
      match at p has a shorter file part. */
  lemma MatchWithFound(line: string, p: int, w: string, s: int, j: int, k: int)
    requires KeywordAt(line, p, w) && s == WhitespaceEnd(line, p + |w| + 1)
    requires FileEnd(line, s) == Some((j, k))
    ensures PrimaryAt(line, p, w, s, j, k) && !IsWhitespace(line[s])
    ensures forall s', j', k' :: PrimaryAt(line, p, w, s', j', k') ==> j <= j'
  {
    WhitespaceEndSpec(line, p + |w| + 1);
    FileEndSpec(line, s, s);
    forall s', j', k' | PrimaryAt(line, p, w, s', j', k') ensures j <= j' {
      MaximalWhitespace(line, p, w, s, s', j', k');
    }
  }

  /** MatchAt reports the engine's match at p, and nothing exactly when the
      pattern cannot match there. */
  lemma MatchAtSpec(line: string, p: int)
    ensures MatchAt(line, p).Some? ==> EngineChoiceAt(line, MatchAt(line, p).value)
    ensures MatchAt(line, p).None? ==> forall w, s, j, k :: !PrimaryAt(line, p, w, s, j, k)
  {
    var w := if KeywordAt(line, p, "error") then "error" else "warning";
    if KeywordAt(line, p, w) {
      MatchWithSpec(line, p, w);
      forall w', s, j, k | PrimaryAt(line, p, w', s, j, k) ensures w' == w {
        KeywordUnique(line, p, w, w');
      }
    }
  }

  /** Scanning start positions from p onwards: the first one that matches. */
  function FindFrom(line: string, p: int): (r: Option<Span>)
    requires 0 <= p <= |line|
    ensures r.Some? ==> p <= r.value.start && SpanBounds(line, r.value)
    decreases |line| - p
  {
    match MatchAt(line, p)
    case Some(sp) => Some(sp)
    case None => if p == |line| then None else FindFrom(line, p + 1)
  }

  /** FindFrom reports the engine's match at some start position from p on. */
  lemma {:induction false} FindFromChoice(line: string, p: int)
    requires 0 <= p <= |line| && FindFrom(line, p).Some?
    ensures EngineChoiceAt(line, FindFrom(line, p).value)
    decreases |line| - p
  {
    MatchAtSpec(line, p);
    if MatchAt(line, p).None? {
      FindFromChoice(line, p + 1);
    }
  }

  /** No start position from p on, before the one FindFrom reports, matches. */
  lemma {:induction false} FindFromLeftmost(line: string, p: int)
    requires 0 <= p <= |line| && FindFrom(line, p).Some?
    ensures forall q, w, s, j, k :: p <= q < FindFrom(line, p).value.start ==> !PrimaryAt(line, q, w, s, j, k)
    decreases |line| - p
  {
    if MatchAt(line, p).None? {
      MatchAtSpec(line, p);
      FindFromLeftmost(line, p + 1);
    }
  }

  /** FindFrom reports nothing only when no start position from p on matches. */
  lemma {:induction false} FindFromNone(line: string, p: int)
    requires 0 <= p <= |line| && FindFrom(line, p).None?
    ensures forall q, w, s, j, k :: p <= q ==> !PrimaryAt(line, q, w, s, j, k)
    decreases |line| - p
  {
    MatchAtSpec(line, p);
    if p < |line| {
      FindFromNone(line, p + 1);
    }
  }

  /** `line.match(singleLineRegex)` as positions: the pattern is unanchored,
      so the engine reports the leftmost start at which it matches. */
  function FindPrimary(line: string): (r: Option<Span>)
    ensures r.Some? ==> SpanBounds(line, r.value)
  {
    FindFrom(line, 0)
  }

  /** FindPrimary finds a match exactly when the pattern matches somewhere,
      and then the engine's match at the leftmost possible start. */
  lemma FindPrimarySpec(line: string)
    ensures FindPrimary(line).None? <==> forall p, w, s, j, k :: !PrimaryAt(line, p, w, s, j, k)
    ensures FindPrimary(line).Some? ==> EngineChoiceAt(line, FindPrimary(line).value)
    ensures FindPrimary(line).Some? ==>
              forall p, w, s, j, k :: PrimaryAt(line, p, w, s, j, k) ==> FindPrimary(line).value.start <= p
  {
    if FindPrimary(line).Some? {
      FindFromChoice(line, 0);
      FindFromLeftmost(line, 0);
      var sp := FindPrimary(line).value;
      assert PrimaryAt(line, sp.start, sp.word, sp.fileStart, sp.fileEnd, sp.close);
    } else {
      FindFromNone(line, 0);
    }
  }

  /** The four capture groups of a primary match. */
  datatype RawMatch = RawMatch(severity: string, file: string, lineNumber: string, message: string)

  /** The capture groups of a match, read off its positions. */
  function Captures(line: string, sp: Span): (r: RawMatch)
    requires SpanBounds(line, sp)
    ensures r.severity == sp.word
  {
    RawMatch(sp.word, line[sp.fileStart..sp.fileEnd], line[sp.fileEnd + 1..sp.close], line[sp.msgStart..sp.msgEnd])
  }

  /** `line.match(singleLineRegex)` destructured into its capture groups. */
  function MatchPrimary(line: string): (r: Option<RawMatch>)
    ensures r.Some? ==> (r.value.severity == "error" || r.value.severity == "warning") && |r.value.lineNumber| >= 1
  {
    match FindPrimary(line)
    case None => None
    case Some(sp) =>
      FindPrimarySpec(line);
      Some(Captures(line, sp))
  }

  /** The capture groups of an engine match: the keyword, a non-empty run of
      digits, a file part that starts on a non-space and a message that does
      not start with one, both within one line. */
  predicate WellFormedCaptures(r: RawMatch)
  {
    (r.severity == "error" || r.severity == "warning")
    && |r.lineNumber| >= 1 && DigitsIn(r.lineNumber, 0, |r.lineNumber|)
    && NoTerminatorIn(r.file, 0, |r.file|) && NoTerminatorIn(r.message, 0, |r.message|)
    && (r.file != "" ==> !IsWhitespace(r.file[0]))
    && (r.message != "" ==> !IsWhitespace(r.message[0]))
  }

  /** The groups read off the engine's match are well formed. */
  lemma CapturesSpec(line: string, sp: Span)
    requires SpanBounds(line, sp) && EngineChoiceAt(line, sp)
    ensures WellFormedCaptures(Captures(line, sp))
  {
    var r := Captures(line, sp);
    assert forall i :: 0 <= i < |r.lineNumber| ==> r.lineNumber[i] == line[sp.fileEnd + 1 + i];
    assert forall i :: 0 <= i < |r.file| ==> r.file[i] == line[sp.fileStart + i];
    assert forall i :: 0 <= i < |r.message| ==> r.message[i] == line[sp.msgStart + i];
  }

  /** A primary match exists exactly when the pattern matches somewhere, and
      its capture groups are well formed. */
  lemma MatchPrimarySpec(line: string)
    ensures MatchPrimary(line).None? <==> forall p, w, s, j, k :: !PrimaryAt(line, p, w, s, j, k)
    ensures MatchPrimary(line).Some? ==> WellFormedCaptures(MatchPrimary(line).value)
  {
    FindPrimarySpec(line);
    if FindPrimary(line).Some? {
      CapturesSpec(line, FindPrimary(line).value);
    }
  }

  /** `line.match(messageOnlyRegex)[1]`: at least four leading whitespace
      characters, all of them consumed, then the text up to the first line
      terminator. */
  function MatchContinuation(line: string): (r: Option<string>)
    ensures r.Some? ==> |r.value| + 4 <= |line|
  {
    ContinuationFrom(line, 0)
  }

  /** The continuation pattern once line[..k] has been matched by `\s`. */
  function ContinuationFrom(line: string, k: int): (r: Option<string>)
    requires 0 <= k <= |line|
    ensures r.Some? ==> |r.value| + 4 <= |line| && |r.value| + k <= |line|
    decreases |line| - k
  {
    if k < |line| && IsWhitespace(line[k]) then ContinuationFrom(line, k + 1)
    else if k >= 4 then Some(line[k..RestEnd(line, k)])
    else None
  }

  /** ContinuationFrom stops at the end of the whitespace run. */
  lemma {:induction false} ContinuationFromEnd(line: string, k: int)
    requires 0 <= k <= |line|
    ensures var a := WhitespaceEnd(line, k);
            ContinuationFrom(line, k) == if a >= 4 then Some(line[a..RestEnd(line, a)]) else None
    decreases |line| - k
  {
    if k < |line| && IsWhitespace(line[k]) {
      ContinuationFromEnd(line, k + 1);
    }
  }

  /** The continuation pattern matches exactly when the line starts with four
      whitespace characters, and captures the greedy rest after the whole
      whitespace run. */
  lemma MatchContinuationSpec(line: string)
    ensures MatchContinuation(line).Some? <==> WhitespaceIn(line, 0, 4)
    ensures MatchContinuation(line).Some? ==>
              exists a, b :: 4 <= a && GreedyRest(line, 0, a, b) && MatchContinuation(line).value == line[a..b]
  {
    var a := WhitespaceEnd(line, 0);
    WhitespaceEndSpec(line, 0);
    RestEndSpec(line, a);
    ContinuationFromEnd(line, 0);
    if a >= 4 {
      assert GreedyRest(line, 0, a, RestEnd(line, a));
    } else if 4 <= |line| {
      assert !IsWhitespace(line[a]);
    }
  }

  /** On a line that is not blank, a continuation match always captures text:
      the capture starts at the first non-whitespace character. */
  lemma ContinuationHasText(line: string)
    requires !IsBlank(line) && MatchContinuation(line).Some?
    ensures Trim(MatchContinuation(line).value) != ""
  {
    var a := WhitespaceEnd(line, 0);
    WhitespaceEndSpec(line, 0);
    ContinuationFromEnd(line, 0);
    var c := MatchContinuation(line).value;
    assert a < |line|;
    assert c[0] == line[a];
    TrimSpec(c);
  }
}
