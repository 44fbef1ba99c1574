/**
 UTF-8 as Python's `str.encode` and `bytes.decode` with `errors="replace"` apply it (section 3 of RFC 3629).
 A Python string may hold surrogate code points; encoding turns each into a question mark. Decoding turns
 each maximal ill-formed piece into one U+FFFD.
 */
module Utf8 {

  type Byte = b: nat | b < 256
  type CodePoint = c: nat | c <= 0x10FFFF

  const REPLACEMENT: CodePoint := 0xFFFD
  const QUESTION_MARK: CodePoint := 0x3F

  predicate Surrogate(c: CodePoint) { 0xD800 <= c <= 0xDFFF }

  predicate Scalar(s: seq<CodePoint>) { forall i :: 0 <= i < |s| ==> !Surrogate(s[i]) }

  predicate Continuation(b: Byte) { 0x80 <= b <= 0xBF }

  // ---- Encoding ------------------------------------------------------------------------------

  function EncodeOne(c: CodePoint): (bytes: seq<Byte>)
    ensures 1 <= |bytes| <= 4
    ensures !Continuation(bytes[0])
    ensures forall i :: 1 <= i < |bytes| ==> Continuation(bytes[i])
  {
    if c < 0x80 then [c]
    else if c < 0x800 then [0xC0 + c / 64, 0x80 + c % 64]
    else if Surrogate(c) then [QUESTION_MARK]
    else if c < 0x10000 then [0xE0 + c / 64 / 64, 0x80 + c / 64 % 64, 0x80 + c % 64]
    else [0xF0 + c / 64 / 64 / 64, 0x80 + c / 64 / 64 % 64, 0x80 + c / 64 % 64, 0x80 + c % 64]
  }

  function Encode(s: seq<CodePoint>): (bytes: seq<Byte>)
    ensures |s| <= |bytes|
    ensures s != [] ==> !Continuation(bytes[0])
  {
    if s == [] then [] else EncodeOne(s[0]) + Encode(s[1..])
  }

  /** What a string becomes when it is encoded and decoded again. */
  function Sanitise(s: seq<CodePoint>): (r: seq<CodePoint>)
    ensures |r| == |s| && Scalar(r)
  {
    seq(|s|, i requires 0 <= i < |s| => if Surrogate(s[i]) then QUESTION_MARK else s[i])
  }

  // ---- Decoding ------------------------------------------------------------------------------

  datatype Step = Step(c: CodePoint, used: nat)

  /** Bytes a sequence starting with `b` takes, or 0 when no sequence starts with it. */
  function SequenceLength(b: Byte): (n: nat)
    ensures n <= 4
  {
    if b < 0x80 then 1
    else if 0xC2 <= b <= 0xDF then 2
    else if 0xE0 <= b <= 0xEF then 3
    else if 0xF0 <= b <= 0xF4 then 4
    else 0
  }

  /** Second bytes that exclude overlong forms, surrogates and values past U+10FFFF. */
  predicate SecondByte(first: Byte, second: Byte) {
    && Continuation(second)
    && (first == 0xE0 ==> second >= 0xA0)
    && (first == 0xED ==> second <= 0x9F)
    && (first == 0xF0 ==> second >= 0x90)
    && (first == 0xF4 ==> second <= 0x8F)
  }

  /** The six payload bits of a continuation byte. */
  function Low(b: Byte): (n: nat)
    requires Continuation(b)
    ensures n < 64
  {
    b as int - 0x80
  }

  /** Decodes the code point at the front, or replaces the longest piece that could have begun one. */
  function DecodeOne(b: seq<Byte>): (r: Step)
    requires b != []
    ensures 1 <= r.used <= |b|
    ensures !Surrogate(r.c)
  {
    var n := SequenceLength(b[0]);
    if n == 0 then Step(REPLACEMENT, 1)
    else if n == 1 then Step(b[0], 1)
    else if |b| < 2 || !SecondByte(b[0], b[1]) then Step(REPLACEMENT, 1)
    else if n == 2 then Step((b[0] as int - 0xC0) * 64 + Low(b[1]), 2)
    else if |b| < 3 || !Continuation(b[2]) then Step(REPLACEMENT, 2)
    else if n == 3 then Step(((b[0] as int - 0xE0) * 64 + Low(b[1])) * 64 + Low(b[2]), 3)
    else if |b| < 4 || !Continuation(b[3]) then Step(REPLACEMENT, 3)
    else Step((((b[0] as int - 0xF0) * 64 + Low(b[1])) * 64 + Low(b[2])) * 64 + Low(b[3]), 4)
  }

  function Decode(b: seq<Byte>): (s: seq<CodePoint>)
    ensures |s| <= |b| && Scalar(s)
  {
    if b == [] then [] else var step := DecodeOne(b); [step.c] + Decode(b[step.used..])
  }

  /**
   The table of section 3 of RFC 3629: a leading byte whose high bits tell the length, then six bits of the
   number in each following byte; a surrogate, which UTF-8 cannot hold, becomes a question mark.
   */
  lemma {:induction false} EncodedForm(c: CodePoint)
    ensures
      var b := EncodeOne(c);
      if c <= 0x7F then b == [c]
      else if c <= 0x7FF then |b| == 2 && 0xC2 <= b[0] <= 0xDF && c == (b[0] as int - 0xC0) * 64 + Low(b[1])
      else if 0xD800 <= c <= 0xDFFF then b == [0x3F]
      else if c <= 0xFFFF then
        |b| == 3 && 0xE0 <= b[0] <= 0xEF && c == (b[0] as int - 0xE0) * 4096 + Low(b[1]) * 64 + Low(b[2])
      else
        && |b| == 4 && 0xF0 <= b[0] <= 0xF4
        && c == (b[0] as int - 0xF0) * 262144 + Low(b[1]) * 4096 + Low(b[2]) * 64 + Low(b[3])
  {
    var h := c / 64;
    var t := h / 64;
    assert c == h * 64 + c % 64 && h == t * 64 + h % 64;
    assert t == t / 64 * 64 + t % 64;
  }

  // ---- Round trips ---------------------------------------------------------------------------

  lemma RoundTwo(c: CodePoint, rest: seq<Byte>)
    requires 0x80 <= c < 0x800
    ensures DecodeOne(EncodeOne(c) + rest) == Step(c, 2)
  {
    var b := EncodeOne(c) + rest;
    assert b[0] == 0xC0 + c / 64 && b[1] == 0x80 + c % 64;
  }

  lemma RoundThree(c: CodePoint, rest: seq<Byte>)
    requires 0x800 <= c < 0x10000 && !Surrogate(c)
    ensures DecodeOne(EncodeOne(c) + rest) == Step(c, 3)
  {
    var b, h := EncodeOne(c) + rest, c / 64;
    assert b[0] == 0xE0 + h / 64 && b[1] == 0x80 + h % 64 && b[2] == 0x80 + c % 64;
    assert SecondByte(b[0], b[1]);
  }

  lemma RoundFour(c: CodePoint, rest: seq<Byte>)
    requires 0x10000 <= c
    ensures DecodeOne(EncodeOne(c) + rest) == Step(c, 4)
  {
    var b, h := EncodeOne(c) + rest, c / 64;
    var t := h / 64;
    assert b[0] == 0xF0 + t / 64 && b[1] == 0x80 + t % 64 && b[2] == 0x80 + h % 64 && b[3] == 0x80 + c % 64;
    assert SecondByte(b[0], b[1]);
  }

  lemma DecodeOneOfEncodeOne(c: CodePoint, rest: seq<Byte>)
    ensures DecodeOne(EncodeOne(c) + rest) == Step(if Surrogate(c) then QUESTION_MARK else c, |EncodeOne(c)|)
  {
    if c < 0x80 || Surrogate(c) {
      assert (EncodeOne(c) + rest)[0] == EncodeOne(c)[0];
    } else if c < 0x800 {
      RoundTwo(c, rest);
    } else if c < 0x10000 {
      RoundThree(c, rest);
    } else {
      RoundFour(c, rest);
    }
  }

  lemma {:induction false} DecodeOfEncode(s: seq<CodePoint>)
    ensures Decode(Encode(s)) == Sanitise(s)
  {
    if s != [] {
      DecodeOneOfEncodeOne(s[0], Encode(s[1..]));
      DecodeOfEncode(s[1..]);
      assert Encode(s)[|EncodeOne(s[0])|..] == Encode(s[1..]);
      assert Sanitise(s) == Sanitise(s[..1]) + Sanitise(s[1..]);
    }
  }

  lemma SanitiseScalar(s: seq<CodePoint>)
    requires Scalar(s)
    ensures Sanitise(s) == s
  {
  }

  ghost predicate WellFormed(b: seq<Byte>) { exists s: seq<CodePoint> :: Scalar(s) && Encode(s) == b }

  /** Decoding loses nothing exactly on well-formed input. */
  lemma EncodeOfDecode(b: seq<Byte>)
    ensures Encode(Decode(b)) == b <==> WellFormed(b)
  {
    if WellFormed(b) {
      var s :| Scalar(s) && Encode(s) == b;
      DecodeOfEncode(s);
      SanitiseScalar(s);
    }
  }

  lemma {:induction false} EncodeAppend(s: seq<CodePoint>, t: seq<CodePoint>)
    ensures Encode(s + t) == Encode(s) + Encode(t)
  {
    if s == [] {
      assert s + t == t;
    } else {
      assert (s + t)[1..] == s[1..] + t;
      EncodeAppend(s[1..], t);
    }
  }

  // ---- Cutting an encoding anywhere ----------------------------------------------------------

  function Replacements(k: nat): (r: seq<CodePoint>)
    ensures |r| == k
  {
    seq(k, _ => REPLACEMENT)
  }

  /** The cut at `n` leaves `k` continuation bytes and then `tail`. */
  ghost predicate CutsTo(b: seq<Byte>, n: nat, k: nat, tail: seq<Byte>) {
    && n + k <= |b| && b[n + k..] == tail
    && forall i :: n <= i < n + k ==> Continuation(b[i])
  }

  lemma CutFirst(first: seq<Byte>, rest: seq<Byte>, n: nat)
    requires 1 <= n < |first| && forall i :: 1 <= i < |first| ==> Continuation(first[i])
    ensures CutsTo(first + rest, n, |first| - n, rest)
  {
  }

  lemma CutLater(first: seq<Byte>, rest: seq<Byte>, n: nat, k: nat, tail: seq<Byte>)
    requires CutsTo(rest, n, k, tail)
    ensures CutsTo(first + rest, |first| + n, k, tail)
  {
    forall i | |first| + n <= i < |first| + n + k ensures Continuation((first + rest)[i]) {
      assert (first + rest)[i] == rest[i - |first|];
    }
  }

  /** A cut falls between two code points or inside one, leaving at most three continuation bytes of it. */
  lemma {:induction false} Cut(s: seq<CodePoint>, n: nat) returns (k: nat, j: nat)
    requires n <= |Encode(s)|
    ensures k <= 3 && j <= |s|
    ensures CutsTo(Encode(s), n, k, Encode(s[j..]))
  {
    if n == 0 {
      k, j := 0, 0;
    } else {
      var first, rest := EncodeOne(s[0]), Encode(s[1..]);
      if n < |first| {
        k, j := |first| - n, 1;
        CutFirst(first, rest, n);
      } else {
        k, j := Cut(s[1..], n - |first|);
        CutLater(first, rest, n - |first|, k, Encode(s[1..][j..]));
        assert s[1..][j..] == s[j + 1..];
        j := j + 1;
      }
    }
  }

  /** A stray continuation byte costs one replacement character and nothing else. */
  lemma DecodeStray(b: seq<Byte>)
    requires b != [] && Continuation(b[0])
    ensures Decode(b) == [REPLACEMENT] + Decode(b[1..])
  {
    assert DecodeOne(b) == Step(REPLACEMENT, 1);
  }

  lemma MoreReplacements(k: nat, t: seq<CodePoint>)
    requires k > 0
    ensures [REPLACEMENT] + (Replacements(k - 1) + t) == Replacements(k) + t
  {
  }

  lemma {:induction false} DecodeAfterContinuations(b: seq<Byte>, k: nat)
    requires k <= |b| && forall i :: 0 <= i < k ==> Continuation(b[i])
    ensures Decode(b) == Replacements(k) + Decode(b[k..])
  {
    if k == 0 {
      assert b[0..] == b;
    } else {
      DecodeStray(b);
      DecodeAfterContinuations(b[1..], k - 1);
      DropAfterFirst(b, k);
      MoreReplacements(k, Decode(b[k..]));
    }
  }

  lemma DropAfterFirst(b: seq<Byte>, k: nat)
    requires 0 < k <= |b|
    ensures b[1..][k - 1..] == b[k..]
  {
  }

  lemma DecodeOfCut(s: seq<CodePoint>, n: nat) returns (k: nat, j: nat)
    requires n <= |Encode(s)|
    ensures k <= 3 && j <= |s|
    ensures Decode(Encode(s)[n..]) == Replacements(k) + Sanitise(s[j..])
    ensures |Encode(s)| - n == k + |Encode(s[j..])|
  {
    k, j := Cut(s, n);
    var b := Encode(s)[n..];
    DecodeAfterContinuations(b, k);
    assert b[k..] == Encode(s)[n + k..];
    DecodeOfEncode(s[j..]);
  }

  lemma {:induction false} EncodeReplacements(k: nat)
    ensures |Encode(Replacements(k))| == 3 * k
  {
    if k > 0 {
      assert Replacements(k)[1..] == Replacements(k - 1);
      EncodeReplacements(k - 1);
    }
  }

  lemma {:induction false} EncodeSanitised(s: seq<CodePoint>)
    ensures Encode(Sanitise(s)) == Encode(s)
  {
    if s != [] {
      assert Sanitise(s)[1..] == Sanitise(s[1..]);
      EncodeSanitised(s[1..]);
    }
  }
}
