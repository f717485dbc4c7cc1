/**
 * The JavaScript string built-ins that the registration form relies on:
 * the character classes its regular expressions use (`[A-Z]`, `[a-z]`, `\d`,
 * `\s`), the length of a string as JavaScript counts it (UTF-16 code units)
 * and `String.prototype.trim`.
 *
 * A string is a sequence of Unicode scalar values. Every character that a
 * class or a delimiter below names lies in the Basic Multilingual Plane, so
 * a surrogate pair is never split by any of the operations modelled here.
 */
module JsText {

  /** `\d` without the `u` flag: the ASCII digits. */
  predicate IsDigit(c: char) {
    '0' <= c <= '9'
  }

  /** `[A-Z]` */
  predicate IsUpper(c: char) {
    'A' <= c <= 'Z'
  }

  /** `[a-z]` */
  predicate IsLower(c: char) {
    'a' <= c <= 'z'
  }

  /**
   * ECMAScript WhiteSpace and LineTerminator code points: the set matched by
   * `\s` and stripped by `trim()`. The space separators (category Zs) are
   * U+0020, U+00A0, U+1680, U+2000 to U+200A, U+202F, U+205F and U+3000.
   */
  predicate IsWhitespace(c: char) {
    c == '\t' || c == '\n' || c == '\U{B}' || c == '\U{C}' || c == '\r' ||
    c == ' ' || c == '\U{A0}' || c == '\U{1680}' ||
    ('\U{2000}' <= c <= '\U{200A}') ||
    c == '\U{2028}' || c == '\U{2029}' || c == '\U{202F}' || c == '\U{205F}' ||
    c == '\U{3000}' || c == '\U{FEFF}'
  }

  predicate AllDigits(s: string) {
    forall i :: 0 <= i < |s| ==> IsDigit(s[i])
  }

  /** Number of UTF-16 code units of one scalar value. */
  function Utf16Units(c: char): (n: nat)
    ensures 1 <= n <= 2
    ensures n == 2 <==> c as int >= 0x1_0000
  {
    if c as int < 0x1_0000 then 1 else 2
  }

  /** `s.length` in JavaScript: the number of UTF-16 code units of `s`. */
  function Utf16Length(s: string): (n: nat)
    ensures |s| <= n <= 2 * |s|
    ensures (forall i :: 0 <= i < |s| ==> s[i] as int < 0x1_0000) ==> n == |s|
  {
    if s == [] then 0 else Utf16Units(s[0]) + Utf16Length(s[1..])
  }

  lemma {:induction false} Utf16LengthAppend(a: string, b: string)
    ensures Utf16Length(a + b) == Utf16Length(a) + Utf16Length(b)
  {
    if a != [] {
      assert (a + b)[0] == a[0];
      assert (a + b)[1..] == a[1..] + b;
      Utf16LengthAppend(a[1..], b);
    } else {
      assert a + b == b;
    }
  }

  /** A single character counts as its own number of code units. */
  lemma Utf16LengthOne(c: char)
    ensures Utf16Length([c]) == Utf16Units(c)
  {
    assert [c][1..] == [];
  }

  /** `trimStart()`: drops the leading whitespace and keeps the rest. */
  function TrimStart(s: string): (r: string)
    ensures |r| <= |s| && r == s[|s| - |r|..]
    ensures forall i :: 0 <= i < |s| - |r| ==> IsWhitespace(s[i])
    ensures r == [] || !IsWhitespace(r[0])
  {
    if s != [] && IsWhitespace(s[0]) then TrimStart(s[1..]) else s
  }

  /** `trimEnd()`: drops the trailing whitespace and keeps the rest. */
  function TrimEnd(s: string): (r: string)
    ensures |r| <= |s| && r == s[..|r|]
    ensures forall i :: |r| <= i < |s| ==> IsWhitespace(s[i])
    ensures r == [] || !IsWhitespace(r[|r| - 1])
  {
    if s != [] && IsWhitespace(s[|s| - 1]) then TrimEnd(s[..|s| - 1]) else s
  }

  /** Number of leading whitespace characters that `trim()` removes. */
  function TrimOffset(s: string): (n: nat)
    ensures n <= |s|
    ensures forall i :: 0 <= i < n ==> IsWhitespace(s[i])
    ensures n == |s| || !IsWhitespace(s[n])
  {
    |s| - |TrimStart(s)|
  }

  /**
   * `trim()`: the result neither begins nor ends with whitespace; the lemma
   * `TrimIsPiece` locates it in `s`.
   */
  function Trim(s: string): (r: string)
    ensures |r| <= |s|
    ensures r == [] || (!IsWhitespace(r[0]) && !IsWhitespace(r[|r| - 1]))
  {
    TrimEnd(TrimStart(s))
  }

  /** The trimmed string is the piece of `s` that starts at `TrimOffset(s)`. */
  lemma TrimIsPiece(s: string)
    ensures TrimOffset(s) + |Trim(s)| <= |s|
    ensures Trim(s) == s[TrimOffset(s)..TrimOffset(s) + |Trim(s)|]
  {
    var t := TrimStart(s);
    PrefixOfSuffix(s, t, TrimEnd(t), |s| - |t|);
  }

  /** A prefix of the suffix `s[n..]` is the slice of `s` that starts at `n`. */
  lemma PrefixOfSuffix(s: string, t: string, r: string, n: nat)
    requires n <= |s| && t == s[n..]
    requires |r| <= |t| && r == t[..|r|]
    ensures n + |r| <= |s| && r == s[n..n + |r|]
  {
    assert s[n..][..|r|] == s[n..n + |r|];
  }

  /**
   * Everything `trim()` cuts away after the piece is whitespace, as is
   * everything before it (the contract of `TrimOffset`).
   */
  lemma TrimCutsWhitespace(s: string)
    ensures TrimOffset(s) + |Trim(s)| <= |s|
    ensures forall i :: TrimOffset(s) + |Trim(s)| <= i < |s| ==> IsWhitespace(s[i])
  {
    var t := TrimStart(s);
    TailOfSuffix(s, t, TrimEnd(t), |s| - |t|);
  }

  /** What follows a prefix `r` of `s[n..]` in `s` is what follows it in `s[n..]`. */
  lemma TailOfSuffix(s: string, t: string, r: string, n: nat)
    requires n <= |s| && t == s[n..] && |r| <= |t|
    requires forall j :: |r| <= j < |t| ==> IsWhitespace(t[j])
    ensures forall i :: n + |r| <= i < |s| ==> IsWhitespace(s[i])
  {
    forall i | n + |r| <= i < |s|
      ensures IsWhitespace(s[i])
    {
      assert s[i] == t[i - n];
    }
  }

  /** Trimming leaves the empty string exactly when `s` is all whitespace. */
  lemma TrimEmptyIffBlank(s: string)
    ensures Trim(s) == [] <==> forall i :: 0 <= i < |s| ==> IsWhitespace(s[i])
  {
    TrimCutsWhitespace(s);
  }

  /** Trimming a string twice trims nothing more. */
  lemma TrimIdempotent(s: string)
    ensures Trim(Trim(s)) == Trim(s)
  {
    var r := Trim(s);
    TrimIsPiece(r);
    if r != [] {
      assert TrimOffset(r) == 0;
      assert |Trim(r)| == |r|;
    }
  }
}
