/** Well-formed UTF-8 (Unicode, table 3-7; RFC 3629): the test behind Rust's
    `Path::to_str`, which on Unix succeeds exactly when the path's bytes are
    valid UTF-8. */
module Utf8 {
  import opened Bytes

  predicate IsContinuation(b: Byte) {
    0x80 <= b <= 0xBF
  }

  /** The length of the well-formed UTF-8 sequence that starts `s`, or 0 when
      `s` does not start with one (overlong forms, surrogates and scalars past
      U+10FFFF are refused). */
  function SequenceLength(s: seq<Byte>): (n: nat)
    requires |s| > 0
    ensures n <= 4 && n <= |s|
    ensures n == 1 <==> s[0] < 0x80
  {
    var b := s[0];
    if b < 0x80 then 1
    else if 0xC2 <= b <= 0xDF then
      if |s| >= 2 && IsContinuation(s[1]) then 2 else 0
    else if 0xE0 <= b <= 0xEF then
      var lo := if b == 0xE0 then 0xA0 else 0x80;
      var hi := if b == 0xED then 0x9F else 0xBF;
      if |s| >= 3 && lo <= s[1] <= hi && IsContinuation(s[2]) then 3 else 0
    else if 0xF0 <= b <= 0xF4 then
      var lo := if b == 0xF0 then 0x90 else 0x80;
      var hi := if b == 0xF4 then 0x8F else 0xBF;
      if |s| >= 4 && lo <= s[1] <= hi && IsContinuation(s[2]) && IsContinuation(s[3]) then 4 else 0
    else 0
  }

  /** `s` is a concatenation of well-formed UTF-8 sequences. */
  predicate IsUtf8(s: seq<Byte>)
    decreases |s|
  {
    s == [] || (var n := SequenceLength(s); n > 0 && IsUtf8(s[n..]))
  }

  /** Bytes after a well-formed first sequence do not change its length. */
  lemma SequenceLengthExtends(a: seq<Byte>, b: seq<Byte>)
    requires |a| > 0 && SequenceLength(a) > 0
    ensures SequenceLength(a + b) == SequenceLength(a)
  {
  }

  lemma Utf8Step(s: seq<Byte>)
    requires s != []
    ensures IsUtf8(s) <==> SequenceLength(s) > 0 && IsUtf8(s[SequenceLength(s)..])
  {
  }

  /** Every ASCII string is valid UTF-8. */
  lemma {:induction false} AsciiIsUtf8(s: seq<Byte>)
    requires forall i :: 0 <= i < |s| ==> s[i] < 0x80
    ensures IsUtf8(s)
  {
    if s != [] {
      AsciiIsUtf8(s[1..]);
    }
  }

  /** Valid UTF-8 strings are closed under concatenation. */
  lemma {:induction false} Utf8Concat(a: seq<Byte>, b: seq<Byte>)
    requires IsUtf8(a) && IsUtf8(b)
    ensures IsUtf8(a + b)
  {
    if a != [] {
      var n := SequenceLength(a);
      Utf8Step(a);
      Utf8Concat(a[n..], b);
      Utf8ConcatStep(a, b, n);
    } else {
      assert a + b == b;
    }
  }

  /** A well-formed first sequence followed by valid UTF-8 is valid UTF-8. */
  lemma Utf8ConcatStep(a: seq<Byte>, b: seq<Byte>, n: nat)
    requires |a| > 0 && n == SequenceLength(a) > 0 && IsUtf8(a[n..] + b)
    ensures IsUtf8(a + b)
  {
    var ab := a + b;
    SequenceLengthExtends(a, b);
    assert ab[n..] == a[n..] + b;
    Utf8Step(ab);
  }

  /** The bytes C0, C1 and F5 to FF never occur in valid UTF-8, so a path
      holding one of them has no `&str` view. */
  lemma {:induction false} Utf8ExcludesBytes(s: seq<Byte>, i: nat)
    requires IsUtf8(s) && i < |s|
    ensures s[i] != 0xC0 && s[i] != 0xC1 && s[i] < 0xF5
  {
    var n := SequenceLength(s);
    if i >= n {
      Utf8ExcludesBytes(s[n..], i - n);
    }
  }
}
