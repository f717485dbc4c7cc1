/**
 * The three field rules of the registration form: password strength, the
 * shape of an e-mail address and a ten-digit phone number. Each is a regular
 * expression test in the form's script; here each is a hand-written matcher
 * whose contract states the language it accepts.
 */
module FieldRules {
  import opened JsText

  /** The single-character classes the password and phone patterns use. */
  datatype CharClass = Upper | Lower | Digit

  predicate InClass(c: char, k: CharClass) {
    match k
    case Upper => IsUpper(c)
    case Lower => IsLower(c)
    case Digit => IsDigit(c)
  }

  /** `/[X]/.test(s)`: an unanchored search for one character of class `k`. */
  function Occurs(s: string, k: CharClass): (r: bool)
    ensures r <==> exists i :: 0 <= i < |s| && InClass(s[i], k)
  {
    if s == [] then false
    else if InClass(s[0], k) then true
    else
      assert forall i :: 1 <= i < |s| ==> s[i] == s[1..][i - 1];
      Occurs(s[1..], k)
  }

  /** `/^[X]{n}$/.test(s)`: exactly `n` characters, all of class `k`. */
  function Repeats(s: string, k: CharClass, n: nat): (r: bool)
    ensures r <==> |s| == n && forall i :: 0 <= i < |s| ==> InClass(s[i], k)
  {
    if n == 0 then s == []
    else if s == [] || !InClass(s[0], k) then false
    else
      assert forall i :: 1 <= i < |s| ==> s[i] == s[1..][i - 1];
      Repeats(s[1..], k, n - 1)
  }

  const MinPasswordLength: nat := 8
  const PhoneLength: nat := 10

  /**
   * `isValidPassword`: at least eight characters as JavaScript counts them
   * (UTF-16 code units), with an upper-case letter, a lower-case letter and
   * a digit somewhere in it.
   */
  function IsValidPassword(p: string): (r: bool)
    ensures r <==>
      Utf16Length(p) >= 8 &&
      (exists i :: 0 <= i < |p| && IsUpper(p[i])) &&
      (exists i :: 0 <= i < |p| && IsLower(p[i])) &&
      (exists i :: 0 <= i < |p| && IsDigit(p[i]))
  {
    Utf16Length(p) >= MinPasswordLength && Occurs(p, Upper) && Occurs(p, Lower) && Occurs(p, Digit)
  }

  /** `isValidPhone`: `/^\d{10}$/`, exactly ten decimal digits. */
  function IsValidPhone(s: string): (r: bool)
    ensures r <==> |s| == 10 && AllDigits(s)
  {
    Repeats(s, Digit, PhoneLength)
  }

  /** `[^\s@]`: a character allowed in every part of an e-mail address. */
  predicate Plain(c: char) {
    !IsWhitespace(c) && c != '@'
  }

  /** Every character of `s` from index `lo` up to (not including) `hi` is plain. */
  predicate PlainBetween(s: string, lo: int, hi: int)
    requires 0 <= lo && hi <= |s|
  {
    forall i :: lo <= i < hi ==> Plain(s[i])
  }

  /**
   * The regular expression `^[^\s@]+@[^\s@]+\.[^\s@]{2,}$` read as a
   * decomposition of `s` at an `@` (index `at`) and a later `.` (index
   * `dot`): a non-empty local part, a non-empty domain, and a final segment
   * of at least two code units, none of them containing whitespace or `@`.
   * The `i` flag does not matter: the pattern names no letter.
   */
  ghost predicate EmailSplit(s: string, at: int, dot: int) {
    0 < at && at + 1 < dot < |s| && s[at] == '@' && s[dot] == '.' &&
    PlainBetween(s, 0, at) && PlainBetween(s, at + 1, dot) && PlainBetween(s, dot + 1, |s|) &&
    Utf16Length(s[dot + 1..]) >= 2
  }

  ghost predicate MatchesEmailPattern(s: string) {
    exists at, dot :: EmailSplit(s, at, dot)
  }

  /** Length of the longest prefix of `s` matched by `[^\s@]*`. */
  function PlainPrefix(s: string): (n: nat)
    ensures n <= |s| && PlainBetween(s, 0, n)
    ensures n == |s| || !Plain(s[n])
  {
    if s == [] || !Plain(s[0]) then 0
    else
      var m := PlainPrefix(s[1..]);
      assert forall i :: 1 <= i < m + 1 ==> s[i] == s[1..][i - 1];
      1 + m
  }

  /** What may follow the `@` at `at`: `[^\s@]+\.[^\s@]{2,}` up to the end. */
  predicate IsDomainAfter(s: string, at: nat)
    requires at < |s|
  {
    PlainBetween(s, at + 1, |s|) &&
    exists dot :: at + 1 < dot < |s| && s[dot] == '.' && Utf16Length(s[dot + 1..]) >= 2
  }

  /**
   * `isValidEmail`: the local part is the plain prefix, which must be
   * non-empty and stop at an `@`; the rest must be a domain.
   */
  predicate IsValidEmail(s: string) {
    var at := PlainPrefix(s);
    0 < at < |s| && s[at] == '@' && IsDomainAfter(s, at)
  }

  /** In any decomposition the `@` is where the plain prefix stops. */
  lemma EmailSplitAtPlainPrefix(s: string, at: int, dot: int)
    requires EmailSplit(s, at, dot)
    ensures PlainPrefix(s) == at
  {
  }

  /** The matcher accepts exactly the strings the regular expression matches. */
  lemma EmailMatcherCorrect(s: string)
    ensures IsValidEmail(s) <==> MatchesEmailPattern(s)
  {
    var at := PlainPrefix(s);
    if IsValidEmail(s) {
      var dot :| at + 1 < dot < |s| && s[dot] == '.' && Utf16Length(s[dot + 1..]) >= 2;
      assert EmailSplit(s, at, dot);
    }
    if MatchesEmailPattern(s) {
      var a, b :| EmailSplit(s, a, b);
      EmailSplitAtPlainPrefix(s, a, b);
      assert IsDomainAfter(s, a);
    }
  }

  /** Number of occurrences of `c` in `s`. */
  function Count(s: string, c: char): (n: nat)
    ensures n <= |s|
    ensures n == 0 <==> forall i :: 0 <= i < |s| ==> s[i] != c
  {
    if s == [] then 0
    else
      assert forall i :: 1 <= i < |s| ==> s[i] == s[1..][i - 1];
      (if s[0] == c then 1 else 0) + Count(s[1..], c)
  }

  lemma {:induction false} CountAppend(a: string, b: string, c: char)
    ensures Count(a + b, c) == Count(a, c) + Count(b, c)
  {
    if a == [] {
      assert a + b == b;
    } else {
      assert (a + b)[0] == a[0];
      assert (a + b)[1..] == a[1..] + b;
      CountAppend(a[1..], b, c);
    }
  }

  /**
   * Every accepted address has exactly one `@`, no whitespace and a
   * non-empty part before the `@`.
   */
  lemma EmailAcceptedShape(s: string)
    requires IsValidEmail(s)
    ensures Count(s, '@') == 1
    ensures forall i :: 0 <= i < |s| ==> !IsWhitespace(s[i])
    ensures 0 < PlainPrefix(s) < |s| && s[PlainPrefix(s)] == '@'
  {
    var at := PlainPrefix(s);
    assert PlainBetween(s, at + 1, |s|);
    SingleAt(s, at);
  }

  /** An `@` at `at` with only plain characters around it is the only `@`. */
  lemma SingleAt(s: string, at: nat)
    requires at < |s| && s[at] == '@'
    requires PlainBetween(s, 0, at) && PlainBetween(s, at + 1, |s|)
    ensures Count(s, '@') == 1
  {
    var pre, post := s[..at], s[at + 1..];
    assert s == pre + [s[at]] + post;
    assert forall i :: 0 <= i < |pre| ==> pre[i] != '@';
    assert forall i :: 0 <= i < |post| ==> post[i] != '@';
    CountAppend(pre + [s[at]], post, '@');
    CountAppend(pre, [s[at]], '@');
  }

  /**
   * After the `@` of an accepted address come a non-empty segment, a `.`
   * and a final segment of at least two code units without whitespace or `@`.
   */
  lemma EmailAcceptedDomain(s: string)
    requires IsValidEmail(s)
    ensures exists dot ::
      (PlainPrefix(s) + 1 < dot < |s| && s[dot] == '.' &&
       Utf16Length(s[dot + 1..]) >= 2 && PlainBetween(s, dot + 1, |s|))
  {
    var at := PlainPrefix(s);
    var dot :| at + 1 < dot < |s| && s[dot] == '.' && Utf16Length(s[dot + 1..]) >= 2;
    assert PlainBetween(s, dot + 1, |s|);
  }

  /** An address without an `@` is rejected. */
  lemma EmailWithoutAtRejected(s: string)
    requires forall i :: 0 <= i < |s| ==> s[i] != '@'
    ensures !IsValidEmail(s)
  {
  }

  /** An address with no `.` after an `@` is rejected. */
  lemma EmailWithoutDotRejected(s: string, at: nat)
    requires at < |s| && s[at] == '@'
    requires forall i :: at < i < |s| ==> s[i] != '.'
    ensures !IsValidEmail(s)
  {
  }

  /** A piece of `s` equal to an all-plain string is all plain. */
  lemma PlainSlice(s: string, lo: nat, hi: nat, t: string)
    requires lo <= hi <= |s| && s[lo..hi] == t && PlainBetween(t, 0, |t|)
    ensures PlainBetween(s, lo, hi)
  {
    forall i | lo <= i < hi ensures Plain(s[i]) {
      assert s[i] == t[i - lo];
    }
  }

  /**
   * Any plain local part, `@`, plain domain label, `.` and plain final
   * segment of at least two code units form an accepted address.
   */
  lemma EmailFromParts(local: string, domain: string, last: string)
    requires local != [] && domain != [] && Utf16Length(last) >= 2
    requires PlainBetween(local, 0, |local|) && PlainBetween(domain, 0, |domain|) && PlainBetween(last, 0, |last|)
    ensures IsValidEmail(local + "@" + domain + "." + last)
  {
    var s := local + "@" + domain + "." + last;
    SplitOfParts(local, domain, last, s);
    EmailMatcherCorrect(s);
  }

  /** Where the parts of an assembled address lie. */
  lemma PartsLayout(local: string, domain: string, last: string, s: string)
    requires s == local + "@" + domain + "." + last
    ensures |s| == |local| + |domain| + |last| + 2
    ensures s[|local|] == '@' && s[|local| + 1 + |domain|] == '.'
    ensures s[0..|local|] == local && s[|local| + 1..|local| + 1 + |domain|] == domain
    ensures s[|local| + 2 + |domain|..|s|] == last
  {
  }

  /** The decomposition of an address assembled from its parts. */
  lemma SplitOfParts(local: string, domain: string, last: string, s: string)
    requires local != [] && domain != [] && Utf16Length(last) >= 2
    requires PlainBetween(local, 0, |local|) && PlainBetween(domain, 0, |domain|) && PlainBetween(last, 0, |last|)
    requires s == local + "@" + domain + "." + last
    ensures MatchesEmailPattern(s)
  {
    var at, dot := |local|, |local| + 1 + |domain|;
    PartsLayout(local, domain, last, s);
    PlainSlice(s, 0, at, local);
    PlainSlice(s, at + 1, dot, domain);
    PlainSlice(s, dot + 1, |s|, last);
    assert EmailSplit(s, at, dot);
  }

  lemma ExampleEmail()
    ensures IsValidEmail("user@example.com")
  {
    var e := "user@example.com";
    ExampleEmailParts(e, "user", "example", "com");
  }

  /** The example address, assembled from its three parts. */
  lemma ExampleEmailParts(e: string, local: string, domain: string, last: string)
    requires local == "user" && domain == "example" && last == "com"
    requires e == local + "@" + domain + "." + last
    ensures IsValidEmail(e)
  {
    assert PlainBetween(local, 0, |local|);
    assert PlainBetween(domain, 0, |domain|);
    assert PlainBetween(last, 0, |last|);
    assert Utf16Length(last) >= 2;
    EmailFromParts(local, domain, last);
  }

  lemma ExampleEmailNoDot()
    ensures !IsValidEmail("user@example")
  {
    EmailWithoutDotRejected("user@example", 4);
  }

  lemma ExampleEmailNoLocalPart()
    ensures !IsValidEmail("@example.com")
  {
  }

  lemma ExamplePhone()
    ensures IsValidPhone("1234567890")
  {
    var p := "1234567890";
    assert forall i :: 0 <= i < |p| ==> '0' <= p[i] <= '9';
  }

  lemma ExamplePhoneShort()
    ensures !IsValidPhone("12345")
  {
  }

  lemma ExamplePhoneLetters()
    ensures !IsValidPhone("12345abcde")
  {
    assert !IsDigit("12345abcde"[5]);
  }

  lemma ExamplePassword()
    ensures IsValidPassword("Abcdefg1")
  {
    assert IsUpper("Abcdefg1"[0]) && IsLower("Abcdefg1"[1]) && IsDigit("Abcdefg1"[7]);
  }

  lemma ExamplePasswordNoUpper()
    ensures !IsValidPassword("abcdefg1")
  {
    var p := "abcdefg1";
    assert forall i :: 0 <= i < |p| ==> p[i] <= '9' || p[i] >= 'a';
  }

  lemma ExamplePasswordNoLower()
    ensures !IsValidPassword("ABCDEFG1")
  {
    var p := "ABCDEFG1";
    assert forall i :: 0 <= i < |p| ==> p[i] <= 'Z';
  }

  lemma ExamplePasswordNoDigit()
    ensures !IsValidPassword("Abcdefgh")
  {
    var p := "Abcdefgh";
    assert forall i :: 0 <= i < |p| ==> p[i] == 'A' || 'a' <= p[i] <= 'z';
  }

  lemma ExamplePasswordShort()
    ensures !IsValidPassword("Ab1")
  {
  }
}
