/** Python string operations the models need, over sequences of Unicode scalar values. */
module Text {
  import opened Common

  /** Characters `str.splitlines` breaks at. */
  predicate IsLineBreak(c: char) {
    c in {'\n', '\r', '\U{0B}', '\U{0C}', '\U{1C}', '\U{1D}', '\U{1E}', '\U{85}', '\U{2028}', '\U{2029}'}
  }

  /** Characters `str.strip` removes. */
  predicate IsSpace(c: char) {
    || IsLineBreak(c)
    || c in {'\t', '\U{1F}', ' ', '\U{A0}', '\U{1680}', '\U{202F}', '\U{205F}', '\U{3000}'}
    || '\U{2000}' <= c <= '\U{200A}'
  }

  predicate SingleLine(s: string) { forall i :: 0 <= i < |s| ==> !IsLineBreak(s[i]) }

  predicate Blank(s: string) { forall i :: 0 <= i < |s| ==> IsSpace(s[i]) }

  // ---- splitlines ----------------------------------------------------------------------------

  /** Length of the line at the front of `s`, without its break. */
  function LineLength(s: string): (n: nat)
    ensures n <= |s|
    ensures SingleLine(s[..n])
    ensures n < |s| ==> IsLineBreak(s[n])
  {
    if s == "" || IsLineBreak(s[0]) then 0
    else
      var m := LineLength(s[1..]);
      assert s[..1 + m] == [s[0]] + s[1..][..m];
      1 + m
  }

  /** Length of the break at the front of `s`; carriage return and line feed are one break. */
  function BreakLength(s: string): (n: nat)
    ensures n <= |s|
    ensures s != "" ==> n > 0
  {
    if |s| >= 2 && s[0] == '\r' && s[1] == '\n' then 2 else Min(|s|, 1)
  }

  function SplitLines(s: string): (lines: seq<string>)
    ensures forall i :: 0 <= i < |lines| ==> SingleLine(lines[i])
    decreases |s|
  {
    if s == "" then []
    else
      var n := LineLength(s);
      [s[..n]] + SplitLines(s[n + BreakLength(s[n..])..])
  }

  /** `"\n".join(lines)` with a final newline after at least one line, or just the newline. */
  function JoinLines(lines: seq<string>): string {
    if |lines| == 0 then "\n"
    else if |lines| == 1 then lines[0] + "\n"
    else lines[0] + "\n" + JoinLines(lines[1..])
  }

  lemma {:induction false} LineLengthOf(a: string, rest: string)
    requires SingleLine(a) && (rest == "" || IsLineBreak(rest[0]))
    ensures LineLength(a + rest) == |a|
  {
    if a == "" {
      assert a + rest == rest;
    } else {
      assert (a + rest)[1..] == a[1..] + rest;
      LineLengthOf(a[1..], rest);
    }
  }

  predicate StartsWithLineFeed(s: string) { s != "" && s[0] == '\n' }

  /** A whole break: not a carriage return whose line feed comes next. */
  predicate IsBreak(brk: string, beforeLineFeed: bool) {
    || (|brk| == 2 && brk[0] == '\r' && brk[1] == '\n')
    || (|brk| == 1 && IsLineBreak(brk[0]) && !(brk[0] == '\r' && beforeLineFeed))
  }

  lemma SplitFirst(line: string, brk: string, tail: string)
    requires SingleLine(line) && IsBreak(brk, StartsWithLineFeed(tail))
    ensures SplitLines(line + brk + tail) == [line] + SplitLines(tail)
  {
    var s := line + brk + tail;
    assert s == line + (brk + tail);
    LineLengthOf(line, brk + tail);
    assert s[..|line|] == line;
    assert s[|line|..] == brk + tail;
    assert s[|line| + |brk|..] == tail;
  }

  lemma LineThenNewline(a: string, rest: string)
    requires SingleLine(a)
    ensures SplitLines(a + "\n" + rest) == [a] + SplitLines(rest)
  {
    SplitFirst(a, "\n", rest);
  }

  lemma FirstBreak(a: string) returns (line: string, brk: string, tail: string)
    requires !SingleLine(a)
    ensures a == line + brk + tail && SingleLine(line) && brk != ""
    ensures (brk == "\r" && tail == "") || IsBreak(brk, StartsWithLineFeed(tail + "\n"))
  {
    var n := LineLength(a);
    var b := BreakLength(a[n..]);
    line, brk, tail := a[..n], a[n..n + b], a[n + b..];
  }

  ghost predicate SplitsAcross(a: string, rest: string) {
    SplitLines(a + "\n" + rest) == SplitLines(a + "\n") + SplitLines(rest)
  }

  lemma SingleAcrossNewline(a: string, rest: string)
    requires SingleLine(a)
    ensures SplitsAcross(a, rest)
  {
    LineThenNewline(a, rest);
    LineThenNewline(a, "");
    assert a + "\n" + "" == a + "\n";
  }

  lemma ReturnAcrossNewline(a: string, line: string, rest: string)
    requires SingleLine(line) && a == line + "\r"
    ensures SplitsAcross(a, rest)
  {
    CrlfAcrossNewline(line, rest);
    assert a + "\n" == line + "\r\n" && a + "\n" + rest == line + "\r\n" + rest;
  }

  lemma LaterAcrossNewline(a: string, line: string, brk: string, tail: string, rest: string)
    requires SingleLine(line) && IsBreak(brk, StartsWithLineFeed(tail + "\n")) && a == line + brk + tail
    requires SplitsAcross(tail, rest)
    ensures SplitsAcross(a, rest)
  {
    assert a + "\n" == line + brk + (tail + "\n");
    BreakAcrossNewline(a + "\n", line, brk, tail + "\n", rest);
  }

  lemma {:induction false} Across(a: string, rest: string)
    ensures SplitsAcross(a, rest)
    decreases |a|
  {
    if SingleLine(a) {
      SingleAcrossNewline(a, rest);
    } else {
      var line, brk, tail := FirstBreak(a);
      if brk == "\r" && tail == "" {
        ReturnAcrossNewline(a, line, rest);
      } else {
        Across(tail, rest);
        LaterAcrossNewline(a, line, brk, tail, rest);
      }
    }
  }

  /** Nothing merges across a newline, even after a carriage return. */
  lemma SplitAcrossNewline(a: string, rest: string)
    ensures SplitLines(a + "\n" + rest) == SplitLines(a + "\n") + SplitLines(rest)
  {
    Across(a, rest);
  }

  lemma CrlfAcrossNewline(line: string, rest: string)
    requires SingleLine(line)
    ensures SplitLines(line + "\r\n" + rest) == SplitLines(line + "\r\n") + SplitLines(rest)
  {
    SplitFirst(line, "\r\n", rest);
    SplitFirst(line, "\r\n", "");
    assert line + "\r\n" + "" == line + "\r\n";
  }

  lemma SplitFirstOf(s: string, line: string, brk: string, tail: string)
    requires SingleLine(line) && IsBreak(brk, StartsWithLineFeed(tail)) && s == line + brk + tail
    ensures SplitLines(s) == [line] + SplitLines(tail)
  {
    SplitFirst(line, brk, tail);
  }

  lemma BreakAcrossNewline(s: string, line: string, brk: string, u: string, rest: string)
    requires SingleLine(line) && u != "" && IsBreak(brk, StartsWithLineFeed(u))
    requires SplitLines(u + rest) == SplitLines(u) + SplitLines(rest)
    requires s == line + brk + u
    ensures SplitLines(s + rest) == SplitLines(s) + SplitLines(rest)
  {
    Regroup(line + brk, u, rest);
    SplitFirstOf(s + rest, line, brk, u + rest);
    SplitFirstOf(s, line, brk, u);
    Regroup([line], SplitLines(u), SplitLines(rest));
  }

  /** Joining and splitting again gives the lines of each piece, in order. */
  function SplitEach(pieces: seq<string>): seq<string> {
    if pieces == [] then [] else SplitLines(pieces[0] + "\n") + SplitEach(pieces[1..])
  }

  lemma {:induction false} SplitOfJoin(pieces: seq<string>)
    requires pieces != []
    ensures SplitLines(JoinLines(pieces)) == SplitEach(pieces)
  {
    if |pieces| == 1 {
      assert SplitEach(pieces[1..]) == [];
    } else {
      SplitAcrossNewline(pieces[0], JoinLines(pieces[1..]));
      SplitOfJoin(pieces[1..]);
    }
  }

  lemma {:induction false} SplitEachSingle(pieces: seq<string>)
    requires forall i :: 0 <= i < |pieces| ==> SingleLine(pieces[i])
    ensures SplitEach(pieces) == pieces
  {
    if pieces != [] {
      LineThenNewline(pieces[0], "");
      assert pieces[0] + "\n" + "" == pieces[0] + "\n";
      SplitEachSingle(pieces[1..]);
    }
  }

  lemma {:induction false} SplitEachContains(pieces: seq<string>, i: nat)
    requires i < |pieces|
    ensures forall line :: line in SplitLines(pieces[i] + "\n") ==> line in SplitEach(pieces)
  {
    if i > 0 {
      SplitEachContains(pieces[1..], i - 1);
    }
  }

  lemma {:induction false} SplitEachFrom(pieces: seq<string>, line: string)
    requires line in SplitEach(pieces)
    ensures exists i :: 0 <= i < |pieces| && line in SplitLines(pieces[i] + "\n")
  {
    if line in SplitLines(pieces[0] + "\n") {
    } else {
      SplitEachFrom(pieces[1..], line);
      var i :| 0 <= i < |pieces[1..]| && line in SplitLines(pieces[1..][i] + "\n");
      assert pieces[i + 1] == pieces[1..][i];
    }
  }

  // ---- strip and search ----------------------------------------------------------------------

  function LStrip(s: string): (r: string)
    ensures |r| <= |s| && s[|s| - |r|..] == r
    ensures r != "" ==> !IsSpace(r[0])
  {
    if s == "" || !IsSpace(s[0]) then s else LStrip(s[1..])
  }

  function RStrip(s: string): (r: string)
    ensures |r| <= |s| && s[..|r|] == r
    ensures r != "" ==> !IsSpace(r[|r| - 1])
  {
    if s == "" || !IsSpace(s[|s| - 1]) then s else RStrip(s[..|s| - 1])
  }

  function Strip(s: string): string { RStrip(LStrip(s)) }

  predicate StartsWith(s: string, prefix: string) {
    |prefix| <= |s| && s[..|prefix|] == prefix
  }

  predicate Contains(s: string, part: string) {
    exists i :: 0 <= i <= |s| && StartsWith(s[i..], part)
  }

  /** `str.lower` on ASCII letters. */
  function Lower(s: string): (r: string)
    ensures |r| == |s|
  {
    seq(|s|, i requires 0 <= i < |s| => if 'A' <= s[i] <= 'Z' then s[i] - 'A' + 'a' else s[i])
  }

  predicate SameLetter(a: char, b: char) {
    a == b || ('A' <= a <= 'Z' && b as int == a as int + 32) || ('A' <= b <= 'Z' && a as int == b as int + 32)
  }

  lemma SameLetterExactly(a: char, b: char)
    ensures (if 'A' <= a <= 'Z' then a - 'A' + 'a' else a) == (if 'A' <= b <= 'Z' then b - 'A' + 'a' else b)
            <==> SameLetter(a, b)
  {
  }

  /** Two texts have the same lower-case form exactly when they differ at most in the case of letters. */
  lemma {:induction false} LowerExactly(a: string, b: string)
    ensures Lower(a) == Lower(b) <==> |a| == |b| && forall i :: 0 <= i < |a| ==> SameLetter(a[i], b[i])
  {
    if |a| == |b| {
      forall i | 0 <= i < |a| ensures Lower(a)[i] == Lower(b)[i] <==> SameLetter(a[i], b[i]) {
        SameLetterExactly(a[i], b[i]);
      }
      assert Lower(a) == Lower(b) <==> forall i :: 0 <= i < |a| ==> Lower(a)[i] == Lower(b)[i];
    }
  }

  // ---- Code point order ----------------------------------------------------------------------

  /** Lexicographic order by code point. */
  predicate Less(a: string, b: string) {
    if b == "" then false
    else if a == "" then true
    else a[0] < b[0] || (a[0] == b[0] && Less(a[1..], b[1..]))
  }

  lemma {:induction false} LessIrreflexive(a: string)
    ensures !Less(a, a)
  {
    if a != "" { LessIrreflexive(a[1..]); }
  }

  lemma {:induction false} LessTransitive(a: string, b: string, c: string)
    requires Less(a, b) && Less(b, c)
    ensures Less(a, c)
  {
    if a != "" && a[0] == b[0] && b[0] == c[0] { LessTransitive(a[1..], b[1..], c[1..]); }
  }

  lemma {:induction false} LessTotal(a: string, b: string)
    requires a != b
    ensures Less(a, b) || Less(b, a)
  {
    if a != "" && b != "" && a[0] == b[0] {
      assert a == [a[0]] + a[1..] && b == [b[0]] + b[1..];
      LessTotal(a[1..], b[1..]);
    }
  }

  /** The order by code point: a proper prefix comes first, else the first difference decides. */
  lemma {:induction false} LessExactly(a: string, b: string)
    ensures Less(a, b) <==>
              exists n :: 0 <= n <= |a| && n < |b| && a[..n] == b[..n] && (n == |a| || a[n] < b[n])
  {
    forall n | 0 < n <= |a| && n < |b| && a[..n] == b[..n] ensures a[0] == b[0] {
      assert a[..n][0] == b[..n][0];
    }
    if a != "" && b != "" && a[0] == b[0] {
      LessExactly(a[1..], b[1..]);
      if n :| 0 <= n <= |a[1..]| && n < |b[1..]| && a[1..][..n] == b[1..][..n] && (n == |a[1..]| || a[1..][n] < b[1..][n]) {
        assert a[..n + 1] == [a[0]] + a[1..][..n] && b[..n + 1] == [b[0]] + b[1..][..n];
      }
      if n :| 0 <= n <= |a| && n < |b| && a[..n] == b[..n] && (n == |a| || a[n] < b[n]) {
        assert n > 0;
        assert a[1..][..n - 1] == a[..n][1..] && b[1..][..n - 1] == b[..n][1..];
      }
    } else {
      assert a[..0] == b[..0];
    }
  }

  /** `strip` removes a leading and a trailing run of white space. */
  lemma StripExactly(s: string) returns (before: string, after: string)
    ensures s == before + Strip(s) + after && Blank(before) && Blank(after)
  {
    var left := LStrip(s);
    before, after := s[..|s| - |left|], left[|RStrip(left)|..];
    LStripBlank(s);
    RStripBlank(left);
    Rejoin(s, left, RStrip(left));
  }

  /** What it leaves neither starts nor ends with white space. */
  lemma StripEnds(s: string)
    requires Strip(s) != ""
    ensures !IsSpace(Strip(s)[0]) && !IsSpace(Strip(s)[|Strip(s)| - 1])
  {
    RStripHead(LStrip(s));
  }

  lemma Rejoin(s: string, left: string, mid: string)
    requires |left| <= |s| && s[|s| - |left|..] == left && |mid| <= |left| && left[..|mid|] == mid
    ensures s == s[..|s| - |left|] + mid + left[|mid|..]
  {
    assert left == mid + left[|mid|..];
  }

  lemma RStripHead(s: string)
    requires RStrip(s) != ""
    ensures RStrip(s)[0] == s[0]
  {
    assert s[..|RStrip(s)|][0] == s[0];
  }

  lemma {:induction false} LStripBlank(s: string)
    ensures Blank(s[..|s| - |LStrip(s)|])
  {
    if s != "" && IsSpace(s[0]) {
      LStripBlank(s[1..]);
      var n := |s| - |LStrip(s)|;
      assert s[..n] == [s[0]] + s[1..][..n - 1];
    }
  }

  lemma {:induction false} RStripBlank(s: string)
    ensures Blank(s[|RStrip(s)|..])
  {
    if s != "" && IsSpace(s[|s| - 1]) {
      RStripBlank(s[..|s| - 1]);
      var n := |RStrip(s)|;
      assert s[n..] == s[..|s| - 1][n..] + [s[|s| - 1]];
    }
  }

  /** A search finds a part exactly when the text is something before it, the part, and something after it. */
  lemma ContainsExactly(s: string, part: string)
    ensures Contains(s, part) <==> exists before, after :: s == before + part + after
  {
    if Contains(s, part) {
      var i :| 0 <= i <= |s| && StartsWith(s[i..], part);
      assert s == s[..i] + part + s[i + |part|..];
    }
    if before, after :| s == before + part + after {
      assert s[|before|..][..|part|] == part;
    }
  }

  // ---- Decimal numbers -----------------------------------------------------------------------

  function Digits(n: nat): string {
    if n < 10 then ['0' + n as char] else Digits(n / 10) + ['0' + (n % 10) as char]
  }

  lemma {:induction false} DigitsLength(n: nat)
    ensures |Digits(n)| <= n + 1
  {
    if n >= 10 { DigitsLength(n / 10); }
  }

  function NumberOf(digits: string): int {
    if digits == "" then 0 else 10 * NumberOf(digits[..|digits| - 1]) + (digits[|digits| - 1] as int - '0' as int)
  }

  /** The decimal form: digits of that number, without a leading zero. */
  lemma {:induction false} DigitsExactly(n: nat)
    ensures forall i :: 0 <= i < |Digits(n)| ==> '0' <= Digits(n)[i] <= '9'
    ensures |Digits(n)| >= 1 && (n > 0 ==> Digits(n)[0] != '0') && NumberOf(Digits(n)) == n
  {
    if n >= 10 {
      DigitsExactly(n / 10);
      assert Digits(n)[..|Digits(n)| - 1] == Digits(n / 10);
    } else {
      assert Digits(n)[..0] == "";
    }
  }
}
