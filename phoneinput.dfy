/**
 * The phone field's input handler: on every keystroke the field's value is
 * replaced by `value.replace(/\D/g, '').slice(0, 10)`, i.e. its digits, in
 * order, cut to the first ten.
 */
module PhoneInput {
  import opened JsText
  import FieldRules

  /** `s.replace(/\D/g, '')`: the digits of `s` in their original order. */
  function KeepDigits(s: string): (r: string)
    ensures |r| <= |s| && AllDigits(r)
  {
    if s == [] then []
    else (if IsDigit(s[0]) then [s[0]] else []) + KeepDigits(s[1..])
  }

  /** `s.slice(0, n)` for a non-negative `n`: at most the first `n` characters. */
  function SliceTo(s: string, n: nat): (r: string)
    ensures |r| == if |s| <= n then |s| else n
    ensures r == s[..|r|]
  {
    if |s| <= n then s else s[..n]
  }

  /** The value the phone field holds after an input event. */
  function SanitizePhone(s: string): (r: string)
    ensures AllDigits(r) && |r| <= FieldRules.PhoneLength
  {
    SliceTo(KeepDigits(s), FieldRules.PhoneLength)
  }

  /** Stripping non-digits distributes over concatenation. */
  lemma {:induction false} KeepDigitsAppend(a: string, b: string)
    ensures KeepDigits(a + b) == KeepDigits(a) + KeepDigits(b)
  {
    if a == [] {
      assert a + b == b;
    } else {
      assert (a + b)[0] == a[0];
      assert (a + b)[1..] == a[1..] + b;
      KeepDigitsAppend(a[1..], b);
    }
  }

  /** A string of digits only is left as it is by the stripping step. */
  lemma {:induction false} KeepDigitsOfDigits(s: string)
    requires AllDigits(s)
    ensures KeepDigits(s) == s
  {
    if s != [] {
      KeepDigitsOfDigits(s[1..]);
    }
  }

  /** A string without digits is stripped to nothing: every non-digit is dropped. */
  lemma {:induction false} KeepDigitsDropsOthers(s: string)
    requires forall i :: 0 <= i < |s| ==> !IsDigit(s[i])
    ensures KeepDigits(s) == []
  {
    if s != [] {
      KeepDigitsDropsOthers(s[1..]);
    }
  }

  /** Non-digits typed after a short run of digits are removed, not replaced. */
  lemma SanitizeDropsTrailingOthers(digits: string, others: string)
    requires AllDigits(digits) && |digits| <= FieldRules.PhoneLength
    requires forall i :: 0 <= i < |others| ==> !IsDigit(others[i])
    ensures SanitizePhone(digits + others) == digits
  {
    KeepDigitsAppend(digits, others);
    KeepDigitsOfDigits(digits);
    KeepDigitsDropsOthers(others);
    assert KeepDigits(digits + others) == digits;
  }

  lemma ExampleSanitizeLetters()
    ensures SanitizePhone("12345abcde") == "12345"
  {
    var digits, letters := "12345", "abcde";
    assert digits + letters == "12345abcde";
    SanitizeDropsTrailingOthers(digits, letters);
  }

  /** Every digit of the input survives the stripping step: none is lost. */
  lemma {:induction false} KeepDigitsKeepsEveryDigit(s: string, i: nat)
    requires i < |s| && IsDigit(s[i])
    ensures s[i] in KeepDigits(s)
  {
    if i > 0 {
      KeepDigitsKeepsEveryDigit(s[1..], i - 1);
    }
  }

  /** Input that already is at most ten digits comes back unchanged. */
  lemma SanitizeKeepsCleanInput(s: string)
    requires AllDigits(s) && |s| <= 10
    ensures SanitizePhone(s) == s
  {
    KeepDigitsOfDigits(s);
  }

  /** Sanitising twice gives what sanitising once gives. */
  lemma SanitizeIdempotent(s: string)
    ensures SanitizePhone(SanitizePhone(s)) == SanitizePhone(s)
  {
    SanitizeKeepsCleanInput(SanitizePhone(s));
  }

  /**
   * A sanitised value is the first up-to-ten digits of the input, and it
   * passes the phone rule exactly when the input held at least ten digits.
   */
  lemma SanitizedPhoneValid(s: string)
    ensures SanitizePhone(s) == KeepDigits(s)[..|SanitizePhone(s)|]
    ensures FieldRules.IsValidPhone(SanitizePhone(s)) <==> |KeepDigits(s)| >= 10
  {
  }
}
