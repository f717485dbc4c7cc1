/**
 * The submit handler's validation pass: it reads the four fields (e-mail and
 * phone trimmed), and pushes messages onto a list in a fixed order: the
 * four "required" checks, then the three format checks, each only for a
 * non-empty field, then the password-match check.
 */
module SubmitErrors {
  import opened JsText
  import opened FieldRules
  import HtmlEscape

  /** The eight messages the handler can push, in the order it checks them. */
  datatype Error =
    | EmailRequired | PhoneRequired | PasswordRequired | ConfirmRequired
    | EmailInvalid | PhoneInvalid | PasswordWeak
    | PasswordMismatch
  {
    /** The text pushed onto the list. */
    function Text(): string {
      match this
      case EmailRequired => "Email is required."
      case PhoneRequired => "Phone number is required."
      case PasswordRequired => "Password is required."
      case ConfirmRequired => "Confirm password is required."
      case EmailInvalid => "Enter a valid email address (e.g., user@example.com)."
      case PhoneInvalid => "Phone number must contain exactly 10 digits."
      case PasswordWeak => "Password must be at least 8 characters and include uppercase, lowercase and a number."
      case PasswordMismatch => "Passwords do not match."
    }

    predicate IsRequired() {
      EmailRequired? || PhoneRequired? || PasswordRequired? || ConfirmRequired?
    }

    predicate IsFormat() {
      EmailInvalid? || PhoneInvalid? || PasswordWeak?
    }
  }

  /** The values the handler validates. */
  datatype Fields = Fields(email: string, phone: string, password: string, confirm: string)

  /** How the handler reads the form: e-mail and phone trimmed, passwords as typed. */
  function ReadFields(emailInput: string, phoneInput: string, passwordInput: string, confirmInput: string): Fields {
    Fields(Trim(emailInput), Trim(phoneInput), passwordInput, confirmInput)
  }

  /** Whether the handler's check for `e` fires on `f` (an empty string is falsy). */
  predicate Raised(e: Error, f: Fields) {
    match e
    case EmailRequired => f.email == ""
    case PhoneRequired => f.phone == ""
    case PasswordRequired => f.password == ""
    case ConfirmRequired => f.confirm == ""
    case EmailInvalid => f.email != "" && !IsValidEmail(f.email)
    case PhoneInvalid => f.phone != "" && !IsValidPhone(f.phone)
    case PasswordWeak => f.password != "" && !IsValidPassword(f.password)
    case PasswordMismatch => f.password != "" && f.confirm != "" && f.password != f.confirm
  }

  /** The order in which the handler runs its checks. */
  const CheckOrder: seq<Error> := [
    EmailRequired, PhoneRequired, PasswordRequired, ConfirmRequired,
    EmailInvalid, PhoneInvalid, PasswordWeak,
    PasswordMismatch
  ]

  /** Position of `e`'s check in `CheckOrder`. */
  function Rank(e: Error): (n: nat)
    ensures n < |CheckOrder| && CheckOrder[n] == e
  {
    match e
    case EmailRequired => 0
    case PhoneRequired => 1
    case PasswordRequired => 2
    case ConfirmRequired => 3
    case EmailInvalid => 4
    case PhoneInvalid => 5
    case PasswordWeak => 6
    case PasswordMismatch => 7
  }

  /** The elements of `es` that satisfy `keep`, in the order of `es`. */
  function Filter(es: seq<Error>, keep: Error -> bool): seq<Error> {
    if es == [] then [] else Pick(es[0], keep) + Filter(es[1..], keep)
  }

  /** `[e]` when `keep` holds of `e`, else nothing. */
  function Pick(e: Error, keep: Error -> bool): seq<Error> {
    if keep(e) then [e] else []
  }

  /** Reference definition of the list: the checks that fire, in check order. */
  function ExpectedErrors(f: Fields): seq<Error> {
    Filter(CheckOrder, e => Raised(e, f))
  }

  /**
   * The submit handler's list construction on the values it has read: one
   * push per check that fires, checks taken in source order.
   */
  method CollectErrors(f: Fields) returns (errors: seq<Error>)
    ensures errors == ExpectedErrors(f)
  {
    var emailVal, phoneVal, passwordVal, confirmPasswordVal := f.email, f.phone, f.password, f.confirm;
    errors := [];

    if emailVal == "" { errors := errors + [EmailRequired]; }
    assert errors == (if Raised(EmailRequired, f) then [EmailRequired] else []);
    if phoneVal == "" { errors := errors + [PhoneRequired]; }
    ghost var done := errors;
    assert done == (if Raised(EmailRequired, f) then [EmailRequired] else []) + (if Raised(PhoneRequired, f) then [PhoneRequired] else []);
    if passwordVal == "" { errors := errors + [PasswordRequired]; }
    assert errors == done + (if Raised(PasswordRequired, f) then [PasswordRequired] else []);
    done := errors;
    if confirmPasswordVal == "" { errors := errors + [ConfirmRequired]; }
    assert errors == done + (if Raised(ConfirmRequired, f) then [ConfirmRequired] else []);
    done := errors;

    if emailVal != "" && !IsValidEmail(emailVal) { errors := errors + [EmailInvalid]; }
    assert errors == done + (if Raised(EmailInvalid, f) then [EmailInvalid] else []);
    done := errors;
    if phoneVal != "" && !IsValidPhone(phoneVal) { errors := errors + [PhoneInvalid]; }
    assert errors == done + (if Raised(PhoneInvalid, f) then [PhoneInvalid] else []);
    done := errors;
    if passwordVal != "" && !IsValidPassword(passwordVal) { errors := errors + [PasswordWeak]; }
    assert errors == done + (if Raised(PasswordWeak, f) then [PasswordWeak] else []);
    done := errors;

    if passwordVal != "" && confirmPasswordVal != "" && passwordVal != confirmPasswordVal {
      errors := errors + [PasswordMismatch];
    }
    assert errors == done + (if Raised(PasswordMismatch, f) then [PasswordMismatch] else []);

    FilterCheckOrder(f);
  }

  /** The whole validation pass of the handler, from the raw input values. */
  method Validate(emailInput: string, phoneInput: string, passwordInput: string, confirmInput: string)
    returns (errors: seq<Error>)
    ensures errors == ExpectedErrors(ReadFields(emailInput, phoneInput, passwordInput, confirmInput))
  {
    errors := CollectErrors(ReadFields(emailInput, phoneInput, passwordInput, confirmInput));
  }

  /** `ExpectedErrors` unrolled: one optional entry per check, in check order. */
  lemma FilterCheckOrder(f: Fields)
    ensures ExpectedErrors(f) ==
      (if Raised(EmailRequired, f) then [EmailRequired] else []) +
      (if Raised(PhoneRequired, f) then [PhoneRequired] else []) +
      (if Raised(PasswordRequired, f) then [PasswordRequired] else []) +
      (if Raised(ConfirmRequired, f) then [ConfirmRequired] else []) +
      (if Raised(EmailInvalid, f) then [EmailInvalid] else []) +
      (if Raised(PhoneInvalid, f) then [PhoneInvalid] else []) +
      (if Raised(PasswordWeak, f) then [PasswordWeak] else []) +
      (if Raised(PasswordMismatch, f) then [PasswordMismatch] else [])
  {
    var keep := e => Raised(e, f);
    FilterUnrolled(CheckOrder, keep);
    assert Pick(EmailRequired, keep) == (if Raised(EmailRequired, f) then [EmailRequired] else []);
  }

  lemma FilterUnrolled(es: seq<Error>, keep: Error -> bool)
    requires |es| == 8
    ensures Filter(es, keep) ==
      Pick(es[0], keep) + Pick(es[1], keep) + Pick(es[2], keep) + Pick(es[3], keep) +
      Pick(es[4], keep) + Pick(es[5], keep) + Pick(es[6], keep) + Pick(es[7], keep)
  {
    var f0, f1, f2, f3, f4, f5, f6, f7 := es, es[1..], es[2..], es[3..], es[4..], es[5..], es[6..], es[7..];
    assert f1 == f0[1..] && f2 == f1[1..] && f3 == f2[1..] && f4 == f3[1..];
    assert f5 == f4[1..] && f6 == f5[1..] && f7 == f6[1..] && f7[1..] == [];
    assert Filter(f7, keep) == Pick(es[7], keep) + Filter([], keep) == Pick(es[7], keep);
    ConcatChain(
      Filter(f0, keep), Filter(f1, keep), Filter(f2, keep), Filter(f3, keep),
      Filter(f4, keep), Filter(f5, keep), Filter(f6, keep), Filter(f7, keep),
      Pick(es[0], keep), Pick(es[1], keep), Pick(es[2], keep), Pick(es[3], keep),
      Pick(es[4], keep), Pick(es[5], keep), Pick(es[6], keep), Pick(es[7], keep));
  }

  /** Eight prepends in a row build the concatenation of their parts. */
  lemma ConcatChain(f0: seq<Error>, f1: seq<Error>, f2: seq<Error>, f3: seq<Error>,
                    f4: seq<Error>, f5: seq<Error>, f6: seq<Error>, f7: seq<Error>,
                    p0: seq<Error>, p1: seq<Error>, p2: seq<Error>, p3: seq<Error>,
                    p4: seq<Error>, p5: seq<Error>, p6: seq<Error>, p7: seq<Error>)
    requires f0 == p0 + f1 && f1 == p1 + f2 && f2 == p2 + f3 && f3 == p3 + f4
    requires f4 == p4 + f5 && f5 == p5 + f6 && f6 == p6 + f7 && f7 == p7
    ensures f0 == p0 + p1 + p2 + p3 + p4 + p5 + p6 + p7
  {
  }

  /** Membership in a filtered list. */
  lemma {:induction false} FilterMembers(es: seq<Error>, keep: Error -> bool)
    ensures forall e :: e in Filter(es, keep) <==> e in es && keep(e)
  {
    if es != [] {
      FilterMembers(es[1..], keep);
      assert es == [es[0]] + es[1..];
    }
  }

  /** The list is strictly increasing in check order (so it has no repeats). */
  ghost predicate InCheckOrder(es: seq<Error>) {
    forall i, j :: 0 <= i < j < |es| ==> Rank(es[i]) < Rank(es[j])
  }

  /** Filtering keeps the elements in the order they had. */
  lemma {:induction false} FilterKeepsOrder(es: seq<Error>, keep: Error -> bool)
    requires InCheckOrder(es)
    ensures InCheckOrder(Filter(es, keep))
  {
    if es != [] {
      var tail := Filter(es[1..], keep);
      FilterKeepsOrder(es[1..], keep);
      FilterMembers(es[1..], keep);
      assert forall j :: 0 <= j < |tail| ==> Rank(es[0]) < Rank(tail[j]) by {
        forall j | 0 <= j < |tail| ensures Rank(es[0]) < Rank(tail[j]) {
          assert tail[j] in es[1..];
          var k :| 0 <= k < |es[1..]| && es[1..][k] == tail[j];
          assert es[k + 1] == tail[j];
        }
      }
    }
  }

  lemma CheckOrderRanked()
    ensures InCheckOrder(CheckOrder)
    ensures forall e :: e in CheckOrder
  {
    assert forall i :: 0 <= i < |CheckOrder| ==> Rank(CheckOrder[i]) == i;
    forall e ensures e in CheckOrder {
      assert CheckOrder[Rank(e)] == e;
    }
  }

  /** An error is in the list exactly when its check fires. */
  lemma ErrorsReported(f: Fields)
    ensures forall e :: e in ExpectedErrors(f) <==> Raised(e, f)
  {
    FilterMembers(CheckOrder, e => Raised(e, f));
    CheckOrderRanked();
  }

  /**
   * The list follows check order: all "required" errors come before all
   * format errors, which come before the password-mismatch error.
   */
  lemma ErrorsInCheckOrder(f: Fields)
    ensures InCheckOrder(ExpectedErrors(f))
    ensures forall i, j :: 0 <= i < j < |ExpectedErrors(f)| && ExpectedErrors(f)[j].IsRequired() ==>
      ExpectedErrors(f)[i].IsRequired()
    ensures forall i, j :: 0 <= i < j < |ExpectedErrors(f)| && ExpectedErrors(f)[j].IsFormat() ==>
      !ExpectedErrors(f)[i].PasswordMismatch?
  {
    CheckOrderRanked();
    FilterKeepsOrder(CheckOrder, e => Raised(e, f));
  }

  /** No field is reported both as missing and as malformed. */
  lemma NoFieldReportedTwice(f: Fields)
    ensures !(EmailRequired in ExpectedErrors(f) && EmailInvalid in ExpectedErrors(f))
    ensures !(PhoneRequired in ExpectedErrors(f) && PhoneInvalid in ExpectedErrors(f))
    ensures !(PasswordRequired in ExpectedErrors(f) && PasswordWeak in ExpectedErrors(f))
  {
    ErrorsReported(f);
  }

  /**
   * The mismatch error appears exactly when both passwords are non-empty and
   * differ, and then it is the last message.
   */
  lemma MismatchReportedLast(f: Fields)
    ensures PasswordMismatch in ExpectedErrors(f) <==>
      f.password != "" && f.confirm != "" && f.password != f.confirm
    ensures PasswordMismatch in ExpectedErrors(f) ==>
      ExpectedErrors(f)[|ExpectedErrors(f)| - 1] == PasswordMismatch
  {
    ErrorsReported(f);
    ErrorsInCheckOrder(f);
    MismatchIsLast(ExpectedErrors(f));
  }

  /** In a list in check order, the mismatch error can only be the last. */
  lemma MismatchIsLast(r: seq<Error>)
    requires InCheckOrder(r)
    ensures PasswordMismatch in r ==> r[|r| - 1] == PasswordMismatch
  {
    if PasswordMismatch in r {
      var k :| 0 <= k < |r| && r[k] == PasswordMismatch;
      assert Rank(r[k]) <= Rank(r[|r| - 1]);
      assert CheckOrder[Rank(r[|r| - 1])] == r[|r| - 1];
    }
  }

  /** All four fields empty: the four "required" messages, in field order. */
  lemma AllEmptyErrors()
    ensures ExpectedErrors(Fields("", "", "", "")) ==
      [EmailRequired, PhoneRequired, PasswordRequired, ConfirmRequired]
  {
    FilterCheckOrder(Fields("", "", "", ""));
  }

  /**
   * The form is accepted exactly when every field is filled in, each passes
   * its rule and the two passwords are equal.
   */
  lemma NoErrorsIffValid(f: Fields)
    ensures ExpectedErrors(f) == [] <==>
      f.email != "" && f.phone != "" && f.password != "" && f.confirm != "" &&
      IsValidEmail(f.email) && IsValidPhone(f.phone) && IsValidPassword(f.password) &&
      f.password == f.confirm
  {
    ErrorsReported(f);
    if ExpectedErrors(f) != [] {
      assert ExpectedErrors(f)[0] in ExpectedErrors(f);
    }
  }

  /** Valid fields but a different non-empty confirmation: only the mismatch. */
  lemma OnlyMismatch(f: Fields)
    requires IsValidEmail(f.email) && IsValidPhone(f.phone) && IsValidPassword(f.password)
    requires f.confirm != "" && f.confirm != f.password
    ensures ExpectedErrors(f) == [PasswordMismatch]
  {
    FilterCheckOrder(f);
  }

  /** A "required" error for e-mail or phone means the raw input was all whitespace. */
  lemma RequiredAfterTrim(emailInput: string, phoneInput: string, passwordInput: string, confirmInput: string)
    ensures var f := ReadFields(emailInput, phoneInput, passwordInput, confirmInput);
      (EmailRequired in ExpectedErrors(f) <==> forall i :: 0 <= i < |emailInput| ==> IsWhitespace(emailInput[i])) &&
      (PhoneRequired in ExpectedErrors(f) <==> forall i :: 0 <= i < |phoneInput| ==> IsWhitespace(phoneInput[i]))
  {
    ErrorsReported(ReadFields(emailInput, phoneInput, passwordInput, confirmInput));
    TrimEmptyIffBlank(emailInput);
    TrimEmptyIffBlank(phoneInput);
  }

  /** The messages of a list of errors, in order. */
  function Texts(errs: seq<Error>): (r: seq<string>)
    ensures |r| == |errs| && forall i :: 0 <= i < |errs| ==> r[i] == errs[i].Text()
  {
    if errs == [] then [] else [errs[0].Text()] + Texts(errs[1..])
  }

  /** One entry of the list: `<li>${escapeHtml(m)}</li>`. */
  function ListItem(m: string): string {
    "<li>" + HtmlEscape.EscapeHtml(m) + "</li>"
  }

  /** `msgs.map(m => ListItem(m)).join('')` */
  function ListItems(msgs: seq<string>): string {
    if msgs == [] then "" else ListItem(msgs[0]) + ListItems(msgs[1..])
  }

  const ErrorListHeader: string :=
    "<strong>Please fix the following:</strong><ul style=\"margin-top:6px;padding-left:18px;\">"

  /** The HTML the handler shows when the list is not empty. */
  function ErrorListHtml(errs: seq<Error>): string {
    ErrorListHeader + ListItems(Texts(errs)) + "</ul>"
  }

  lemma TagCounts()
    ensures Count("<li>", '<') == 1 && Count("<li>", '>') == 1
    ensures Count("</li>", '<') == 1 && Count("</li>", '>') == 1
    ensures Count("</ul>", '<') == 1 && Count("</ul>", '>') == 1
  {
    assert "<li>"[1..] == "li>" && "li>"[1..] == "i>" && "i>"[1..] == ">";
    assert "</li>"[1..] == "/li>" && "/li>"[1..] == "li>";
    assert "</ul>"[1..] == "/ul>" && "/ul>"[1..] == "ul>" && "ul>"[1..] == "l>" && "l>"[1..] == ">";
  }

  /** Escaped text adds no `<` and no `>` to the markup around it. */
  lemma EscapedCounts(m: string)
    ensures Count(HtmlEscape.EscapeHtml(m), '<') == 0 && Count(HtmlEscape.EscapeHtml(m), '>') == 0
  {
    var body := HtmlEscape.EscapeHtml(m);
    HtmlEscape.EscapeHtmlNoMarkup(m);
    assert forall i :: 0 <= i < |body| ==> body[i] != '<' && body[i] != '>';
  }

  /** Counting `c` in one entry of the list: the tags' own occurrences only. */
  lemma ListItemCount(m: string, c: char)
    requires c == '<' || c == '>'
    ensures Count(ListItem(m), c) == 2
  {
    var body := HtmlEscape.EscapeHtml(m);
    EscapedCounts(m);
    TagCounts();
    CountAppend("<li>" + body, "</li>", c);
    CountAppend("<li>", body, c);
  }

  /**
   * Whatever the messages say, the item part of the error HTML has exactly
   * one `<` and one `>` per tag: two of each per message, none from the text.
   */
  lemma {:induction false} ListItemsTags(msgs: seq<string>)
    ensures Count(ListItems(msgs), '<') == 2 * |msgs|
    ensures Count(ListItems(msgs), '>') == 2 * |msgs|
  {
    if msgs != [] {
      ListItemsTags(msgs[1..]);
      ListItemCount(msgs[0], '<');
      ListItemCount(msgs[0], '>');
      CountAppend(ListItem(msgs[0]), ListItems(msgs[1..]), '<');
      CountAppend(ListItem(msgs[0]), ListItems(msgs[1..]), '>');
    }
  }

  /**
   * The HTML shown for a list of errors holds, besides the header's own, one
   * `<` and one `>` per tag: two per error plus the closing `</ul>`.
   */
  lemma ErrorListHtmlTags(errs: seq<Error>, c: char)
    requires c == '<' || c == '>'
    ensures Count(ErrorListHtml(errs), c) == Count(ErrorListHeader, c) + 2 * |errs| + 1
  {
    ListTags(ErrorListHeader, Texts(errs), c);
  }

  /** Tags of a list of messages between a header and the closing `</ul>`. */
  lemma ListTags(header: string, msgs: seq<string>, c: char)
    requires c == '<' || c == '>'
    ensures Count(header + ListItems(msgs) + "</ul>", c) == Count(header, c) + 2 * |msgs| + 1
  {
    ListItemsTags(msgs);
    TagCounts();
    CountAppend(header + ListItems(msgs), "</ul>", c);
    CountAppend(header, ListItems(msgs), c);
  }
}
