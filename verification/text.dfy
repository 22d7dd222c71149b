/** The JavaScript string primitives the diagnostic parser relies on:
    the whitespace class shared by `\s` and `String.prototype.trim`,
    `trim`, `split("\n")`, `filter`, `endsWith` and `parseInt(digits, 10)`.

    The functions carry only the bounds their callers need; what they compute
    is stated by the lemmas next to them. */
module Text {

  /** ECMAScript LineTerminator: LF, CR, LINE SEPARATOR, PARAGRAPH SEPARATOR.
      These are the characters the regular-expression `.` does not match. */
  predicate IsLineTerminator(c: char)
  {
    c == '\n' || c == '\r' || c as int == 0x2028 || c as int == 0x2029
  }

  /** ECMAScript WhiteSpace or LineTerminator: the class `\s` matches and the
      set `trim` removes (TAB, VT, FF, ZWNBSP and the Unicode space separators). */
  predicate IsWhitespace(c: char)
  {
    var n := c as int;
    IsLineTerminator(c) || n == 0x09 || n == 0x0B || n == 0x0C || n == 0x20 || n == 0xA0
    || n == 0x1680 || (0x2000 <= n <= 0x200A) || n == 0x202F || n == 0x205F || n == 0x3000
    || n == 0xFEFF
  }

  /** The regular-expression class `\d`: ASCII digits only. */
  predicate IsDigit(c: char)
  {
    '0' <= c <= '9'
  }

  /** `s.trim().length == 0`. */
  predicate IsBlank(s: string)
  {
    forall i :: 0 <= i < |s| ==> IsWhitespace(s[i])
  }

  /** s[lo..hi] is a valid slice made of whitespace only. */
  predicate WhitespaceIn(s: string, lo: int, hi: int)
  {
    0 <= lo <= hi <= |s| && forall i :: lo <= i < hi ==> IsWhitespace(s[i])
  }

  /** s[lo..hi] is a valid slice holding no line terminator. */
  predicate NoTerminatorIn(s: string, lo: int, hi: int)
  {
    0 <= lo <= hi <= |s| && forall i :: lo <= i < hi ==> !IsLineTerminator(s[i])
  }

  /** s[lo..hi] is a valid slice of ASCII digits. */
  predicate DigitsIn(s: string, lo: int, hi: int)
  {
    0 <= lo <= hi <= |s| && forall i :: lo <= i < hi ==> IsDigit(s[i])
  }

  /** End of the run of whitespace starting at i (what a greedy `\s*` consumes). */
  function WhitespaceEnd(s: string, i: int): (j: int)
    requires 0 <= i <= |s|
    ensures i <= j <= |s|
    decreases |s| - i
  {
    if i < |s| && IsWhitespace(s[i]) then WhitespaceEnd(s, i + 1) else i
  }

  /** WhitespaceEnd stops at the first character that is not whitespace. */
  lemma {:induction false} WhitespaceEndSpec(s: string, i: int)
    requires 0 <= i <= |s|
    ensures WhitespaceIn(s, i, WhitespaceEnd(s, i))
    ensures WhitespaceEnd(s, i) == |s| || !IsWhitespace(s[WhitespaceEnd(s, i)])
    decreases |s| - i
  {
    if i < |s| && IsWhitespace(s[i]) {
      WhitespaceEndSpec(s, i + 1);
    }
  }

  /** End of the run of non-terminators starting at i (what a greedy `.*` consumes). */
  function RestEnd(s: string, i: int): (j: int)
    requires 0 <= i <= |s|
    ensures i <= j <= |s|
    decreases |s| - i
  {
    if i < |s| && !IsLineTerminator(s[i]) then RestEnd(s, i + 1) else i
  }

  /** RestEnd stops at the first line terminator. */
  lemma {:induction false} RestEndSpec(s: string, i: int)
    requires 0 <= i <= |s|
    ensures NoTerminatorIn(s, i, RestEnd(s, i))
    ensures RestEnd(s, i) == |s| || IsLineTerminator(s[RestEnd(s, i)])
    decreases |s| - i
  {
    if i < |s| && !IsLineTerminator(s[i]) {
      RestEndSpec(s, i + 1);
    }
  }

  /** End of the run of digits starting at i (what a greedy `\d+` consumes). */
  function DigitsEnd(s: string, i: int): (j: int)
    requires 0 <= i <= |s|
    ensures i <= j <= |s|
    decreases |s| - i
  {
    if i < |s| && IsDigit(s[i]) then DigitsEnd(s, i + 1) else i
  }

  /** DigitsEnd stops at the first character that is not a digit. */
  lemma {:induction false} DigitsEndSpec(s: string, i: int)
    requires 0 <= i <= |s|
    ensures DigitsIn(s, i, DigitsEnd(s, i))
    ensures DigitsEnd(s, i) == |s| || !IsDigit(s[DigitsEnd(s, i)])
    decreases |s| - i
  {
    if i < |s| && IsDigit(s[i]) {
      DigitsEndSpec(s, i + 1);
    }
  }

  /** `String.prototype.trim`: leading whitespace first, then trailing. */
  function Trim(s: string): (r: string)
    ensures |r| <= |s|
  {
    if |s| > 0 && IsWhitespace(s[0]) then Trim(s[1..])
    else if |s| > 0 && IsWhitespace(s[|s| - 1]) then Trim(s[..|s| - 1])
    else s
  }

  /** Where Trim cuts: s[a..b] is the result, only whitespace lies outside
      it, and it neither starts nor ends with whitespace. */
  lemma {:induction false} TrimBounds(s: string) returns (a: int, b: int)
    ensures WhitespaceIn(s, 0, a) && a <= b && WhitespaceIn(s, b, |s|) && Trim(s) == s[a..b]
    ensures a < b ==> !IsWhitespace(s[a]) && !IsWhitespace(s[b - 1])
    decreases |s|
  {
    if |s| > 0 && IsWhitespace(s[0]) {
      var a', b' := TrimBounds(s[1..]);
      a, b := a' + 1, b' + 1;
      assert s[1..][a'..b'] == s[a..b];
      forall i | b <= i < |s| ensures IsWhitespace(s[i]) {
        assert s[i] == s[1..][i - 1];
      }
      forall i | 0 <= i < a ensures IsWhitespace(s[i]) {
        if i > 0 {
          assert s[i] == s[1..][i - 1];
        }
      }
    } else if |s| > 0 && IsWhitespace(s[|s| - 1]) {
      a, b := TrimBounds(s[..|s| - 1]);
      assert s[..|s| - 1][a..b] == s[a..b];
      forall i | b <= i < |s| ensures IsWhitespace(s[i]) {
        if i < |s| - 1 {
          assert s[i] == s[..|s| - 1][i];
        }
      }
    } else {
      a, b := 0, |s|;
    }
  }

  /** Trim removes exactly the leading and trailing whitespace: the result is
      a slice of s with only whitespace outside it, and it neither starts nor
      ends with whitespace; it is empty exactly when s is blank. */
  lemma TrimSpec(s: string)
    ensures Trim(s) == "" <==> IsBlank(s)
    ensures Trim(s) != "" ==> !IsWhitespace(Trim(s)[0]) && !IsWhitespace(Trim(s)[|Trim(s)| - 1])
    ensures exists a, b :: WhitespaceIn(s, 0, a) && a <= b && WhitespaceIn(s, b, |s|) && Trim(s) == s[a..b]
  {
    var a, b := TrimBounds(s);
    if a == b {
      assert WhitespaceIn(s, 0, a) && WhitespaceIn(s, a, |s|);
    } else {
      assert !IsWhitespace(s[a]);
    }
  }

  /** Index of the first '\n' at or after i, or |s| if there is none. */
  function NewlineFrom(s: string, i: int): (j: int)
    requires 0 <= i <= |s|
    ensures i <= j <= |s| && '\n' !in s[i..j]
    ensures j == |s| || s[j] == '\n'
    decreases |s| - i
  {
    if i == |s| || s[i] == '\n' then i else NewlineFrom(s, i + 1)
  }

  /** `s.split("\n")`: the pieces between newline characters, always at least one. */
  function SplitLines(s: string): (r: seq<string>)
    ensures |r| >= 1
    decreases |s|
  {
    var j := NewlineFrom(s, 0);
    if j == |s| then [s] else [s[..j]] + SplitLines(s[j + 1..])
  }

  /** `pieces.join("\n")`. */
  function JoinLines(pieces: seq<string>): string
    requires |pieces| >= 1
  {
    if |pieces| == 1 then pieces[0] else pieces[0] + "\n" + JoinLines(pieces[1..])
  }

  /** No piece of a split holds the separator. */
  lemma {:induction false} SplitLinesPieces(s: string)
    ensures forall p :: p in SplitLines(s) ==> '\n' !in p
    decreases |s|
  {
    var j := NewlineFrom(s, 0);
    if j == |s| {
      assert s[0..j] == s;
    } else {
      assert s[..j] == s[0..j];
      SplitLinesPieces(s[j + 1..]);
    }
  }

  /** Joining the pieces of a split gives the text back. */
  lemma {:induction false} JoinSplit(s: string)
    ensures JoinLines(SplitLines(s)) == s
    decreases |s|
  {
    var j := NewlineFrom(s, 0);
    if j < |s| {
      JoinSplit(s[j + 1..]);
      assert s == s[..j] + "\n" + s[j + 1..];
    }
  }

  /** Splitting a join of newline-free pieces gives the pieces back. */
  lemma {:induction false} SplitJoin(pieces: seq<string>)
    requires |pieces| >= 1
    requires forall p :: p in pieces ==> '\n' !in p
    ensures SplitLines(JoinLines(pieces)) == pieces
    decreases |pieces|
  {
    var s := JoinLines(pieces);
    var h := pieces[0];
    if |pieces| == 1 {
      assert '\n' !in h;
      assert NewlineFrom(s, 0) == |s| by { NoNewlineFrom(s, 0); }
    } else {
      var t := JoinLines(pieces[1..]);
      assert s == h + "\n" + t;
      assert NewlineFrom(s, 0) == |h| by { FirstNewline(h, t); }
      assert s[..|h|] == h;
      assert s[|h| + 1..] == t;
      SplitJoin(pieces[1..]);
      assert pieces == [h] + pieces[1..];
    }
  }

  lemma {:induction false} NoNewlineFrom(s: string, i: int)
    requires 0 <= i <= |s| && '\n' !in s[i..]
    ensures NewlineFrom(s, i) == |s|
    decreases |s| - i
  {
    if i < |s| {
      assert s[i] == s[i..][0];
      assert s[i + 1..] == s[i..][1..];
      NoNewlineFrom(s, i + 1);
    }
  }

  lemma FirstNewline(h: string, t: string)
    requires '\n' !in h
    ensures NewlineFrom(h + "\n" + t, 0) == |h|
  {
    var s := h + "\n" + t;
    var j := NewlineFrom(s, 0);
    assert s[|h|] == '\n';
  }

  lemma {:induction false} JoinAppend(xs: seq<string>, ys: seq<string>)
    requires |xs| >= 1 && |ys| >= 1
    ensures JoinLines(xs + ys) == JoinLines(xs) + "\n" + JoinLines(ys)
    decreases |xs|
  {
    if |xs| == 1 {
      assert (xs + ys)[1..] == ys;
    } else {
      assert (xs + ys)[1..] == xs[1..] + ys;
      JoinAppend(xs[1..], ys);
    }
  }

  /** Splitting `a + "\n" + b` splits a and b separately and concatenates the pieces. */
  lemma SplitAround(a: string, b: string)
    ensures SplitLines(a + "\n" + b) == SplitLines(a) + SplitLines(b)
  {
    var pa, pb := SplitLines(a), SplitLines(b);
    SplitLinesPieces(a);
    SplitLinesPieces(b);
    JoinSplit(a);
    JoinSplit(b);
    JoinAppend(pa, pb);
    SplitJoin(pa + pb);
  }

  /** Every piece of a whitespace-only text is itself whitespace-only. */
  lemma {:induction false} SplitBlank(s: string)
    requires IsBlank(s)
    ensures forall p :: p in SplitLines(s) ==> IsBlank(p)
    decreases |s|
  {
    var j := NewlineFrom(s, 0);
    if j < |s| {
      SplitBlank(s[j + 1..]);
    }
  }

  /** `lines.filter(line => line.trim().length > 0)`. */
  function NonBlankLines(pieces: seq<string>): (r: seq<string>)
    ensures |r| <= |pieces|
  {
    if pieces == [] then []
    else if |Trim(pieces[0])| > 0 then [pieces[0]] + NonBlankLines(pieces[1..])
    else NonBlankLines(pieces[1..])
  }

  /** The filter keeps exactly the pieces that are not blank. */
  lemma {:induction false} NonBlankLinesSpec(pieces: seq<string>)
    ensures forall p :: p in NonBlankLines(pieces) <==> p in pieces && !IsBlank(p)
    decreases |pieces|
  {
    if pieces != [] {
      TrimSpec(pieces[0]);
      NonBlankLinesSpec(pieces[1..]);
      assert forall p :: p in pieces <==> p == pieces[0] || p in pieces[1..];
    }
  }

  /** The filter removes every piece of a whitespace-only text. */
  lemma BlankFiltered(s: string)
    requires IsBlank(s)
    ensures NonBlankLines(SplitLines(s)) == []
  {
    SplitBlank(s);
    AllBlankFiltered(SplitLines(s));
  }

  lemma {:induction false} AllBlankFiltered(pieces: seq<string>)
    requires forall p :: p in pieces ==> IsBlank(p)
    ensures NonBlankLines(pieces) == []
    decreases |pieces|
  {
    if pieces != [] {
      TrimSpec(pieces[0]);
      AllBlankFiltered(pieces[1..]);
    }
  }

  /** The filter distributes over concatenation. */
  lemma {:induction false} NonBlankAppend(xs: seq<string>, ys: seq<string>)
    ensures NonBlankLines(xs + ys) == NonBlankLines(xs) + NonBlankLines(ys)
    decreases |xs|
  {
    if xs != [] {
      assert (xs + ys)[0] == xs[0];
      assert (xs + ys)[1..] == xs[1..] + ys;
      NonBlankAppend(xs[1..], ys);
    } else {
      assert xs + ys == ys;
    }
  }

  /** `s.endsWith(suffix)`; every string ends with the empty string. */
  predicate EndsWith(s: string, suffix: string): (r: bool)
    ensures suffix == "" ==> r
    ensures r ==> |suffix| <= |s|
  {
    |suffix| <= |s| && s[|s| - |suffix|..] == suffix
  }

  /** `s.endsWith(suffix)` holds exactly when s is some text followed by
      suffix, character for character. */
  lemma EndsWithSpec(s: string, suffix: string)
    ensures EndsWith(s, suffix) <==> |suffix| <= |s| && forall i :: 0 <= i < |suffix| ==> s[|s| - |suffix| + i] == suffix[i]
    ensures EndsWith(s, suffix) <==> |suffix| <= |s| && s == s[..|s| - |suffix|] + suffix
  {
    if |suffix| <= |s| && forall i :: 0 <= i < |suffix| ==> s[|s| - |suffix| + i] == suffix[i] {
      assert s[|s| - |suffix|..] == suffix;
    }
  }

  function DigitValue(c: char): (d: nat)
    requires IsDigit(c)
    ensures d <= 9
  {
    (c as int) - ('0' as int)
  }

  /** `parseInt(digits, 10)` on a string of ASCII digits, read most significant
      first. The parser only applies it to a `\d+` capture; a character that is
      not a digit would count as 0. */
  function DecimalValue(digits: string): (n: nat)
    ensures n < Power10(|digits|)
  {
    if digits == [] then 0
    else
      var last := digits[|digits| - 1];
      DecimalValue(digits[..|digits| - 1]) * 10 + (if IsDigit(last) then DigitValue(last) else 0)
  }

  function Power10(k: nat): (p: nat)
    ensures p >= 1
  {
    if k == 0 then 1 else 10 * Power10(k - 1)
  }
}
