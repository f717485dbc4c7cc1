/**
 * `escapeHtml`: four global replacements applied one after another, `&`
 * first, so that the entities introduced by the later replacements are not
 * escaped again.
 */
module HtmlEscape {

  /** `s.replace(/c/g, rep)`: every occurrence of `c` replaced by `rep`. */
  function ReplaceAll(s: string, c: char, rep: string): string {
    if s == [] then []
    else (if s[0] == c then rep else [s[0]]) + ReplaceAll(s[1..], c, rep)
  }

  function EscapeHtml(s: string): string {
    ReplaceAll(ReplaceAll(ReplaceAll(ReplaceAll(s, '&', "&amp;"), '"', "&quot;"), '<', "&lt;"), '>', "&gt;")
  }

  /** Reference definition: each character escaped on its own. */
  function EscapeChar(c: char): string {
    match c
    case '&' => "&amp;"
    case '"' => "&quot;"
    case '<' => "&lt;"
    case '>' => "&gt;"
    case _ => [c]
  }

  function EscapeEach(s: string): string {
    if s == [] then [] else EscapeChar(s[0]) + EscapeEach(s[1..])
  }

  predicate IsSpecial(c: char) {
    c == '&' || c == '"' || c == '<' || c == '>'
  }

  /** `s` holds the string `e` starting at index `i`. */
  predicate HasAt(s: string, i: nat, e: string) {
    i + |e| <= |s| && s[i..i + |e|] == e
  }

  /** `s` has one of the four entities starting at index `i`. */
  predicate EntityAt(s: string, i: nat) {
    HasAt(s, i, "&amp;") || HasAt(s, i, "&quot;") || HasAt(s, i, "&lt;") || HasAt(s, i, "&gt;")
  }

  /**
   * Decoding the four entities (what a browser shows for the escaped text);
   * an `&` that starts none of them stands for itself.
   */
  function Unescape(s: string): string {
    if s == [] then []
    else if |s| >= 5 && s[..5] == "&amp;" then "&" + Unescape(s[5..])
    else if |s| >= 6 && s[..6] == "&quot;" then "\"" + Unescape(s[6..])
    else if |s| >= 4 && s[..4] == "&lt;" then "<" + Unescape(s[4..])
    else if |s| >= 4 && s[..4] == "&gt;" then ">" + Unescape(s[4..])
    else [s[0]] + Unescape(s[1..])
  }

  lemma {:induction false} ReplaceAllAppend(a: string, b: string, c: char, rep: string)
    ensures ReplaceAll(a + b, c, rep) == ReplaceAll(a, c, rep) + ReplaceAll(b, c, rep)
  {
    if a == [] {
      assert a + b == b;
    } else {
      assert (a + b)[0] == a[0];
      assert (a + b)[1..] == a[1..] + b;
      ReplaceAllAppend(a[1..], b, c, rep);
    }
  }

  lemma {:induction false} EscapeEachAppend(a: string, b: string)
    ensures EscapeEach(a + b) == EscapeEach(a) + EscapeEach(b)
  {
    if a == [] {
      assert a + b == b;
    } else {
      assert (a + b)[0] == a[0];
      assert (a + b)[1..] == a[1..] + b;
      EscapeEachAppend(a[1..], b);
    }
  }

  /** Escaping one character by the four chained replacements. */
  lemma EscapeHtmlChar(c: char)
    ensures EscapeHtml([c]) == EscapeChar(c)
  {
    if c == '&' {
      assert [c] == "&";
      EscapeHtmlAmp();
    } else if c == '"' {
      assert [c] == "\"";
      EscapeHtmlQuot();
    } else if c == '<' {
      assert [c] == "<";
      EscapeHtmlLt();
    } else if c == '>' {
      assert [c] == ">";
      EscapeHtmlGt();
    } else {
      EscapeHtmlOther(c);
    }
  }

  lemma EscapeHtmlAmp()
    ensures EscapeHtml("&") == "&amp;"
  {
    assert ReplaceAll("&", '&', "&amp;") == "&amp;";
    assert ReplaceAll("&amp;", '"', "&quot;") == "&amp;";
    assert ReplaceAll("&amp;", '<', "&lt;") == "&amp;";
    assert ReplaceAll("&amp;", '>', "&gt;") == "&amp;";
  }

  lemma EscapeHtmlQuot()
    ensures EscapeHtml("\"") == "&quot;"
  {
    assert ReplaceAll("\"", '&', "&amp;") == "\"";
    assert ReplaceAll("\"", '"', "&quot;") == "&quot;";
    assert ReplaceAll("&quot;", '<', "&lt;") == "&quot;";
    assert ReplaceAll("&quot;", '>', "&gt;") == "&quot;";
  }

  lemma EscapeHtmlLt()
    ensures EscapeHtml("<") == "&lt;"
  {
    assert ReplaceAll("<", '&', "&amp;") == "<";
    assert ReplaceAll("<", '"', "&quot;") == "<";
    assert ReplaceAll("<", '<', "&lt;") == "&lt;";
    assert ReplaceAll("&lt;", '>', "&gt;") == "&lt;";
  }

  lemma EscapeHtmlGt()
    ensures EscapeHtml(">") == "&gt;"
  {
    assert ReplaceAll(">", '&', "&amp;") == ">";
    assert ReplaceAll(">", '"', "&quot;") == ">";
    assert ReplaceAll(">", '<', "&lt;") == ">";
    assert ReplaceAll(">", '>', "&gt;") == "&gt;";
  }

  lemma EscapeHtmlOther(c: char)
    requires !IsSpecial(c)
    ensures EscapeHtml([c]) == [c]
  {
    ReplaceAllSingle(c, '&', "&amp;");
    ReplaceAllSingle(c, '"', "&quot;");
    ReplaceAllSingle(c, '<', "&lt;");
    ReplaceAllSingle(c, '>', "&gt;");
  }

  lemma ReplaceAllSingle(c: char, x: char, rep: string)
    ensures ReplaceAll([c], x, rep) == if c == x then rep else [c]
  {
    assert [c][1..] == [];
  }

  /**
   * The chained replacements escape each character independently: since
   * `&` goes first, no entity is ever escaped a second time.
   */
  lemma {:induction false} EscapeHtmlIsPerCharacter(s: string)
    ensures EscapeHtml(s) == EscapeEach(s)
  {
    if s != [] {
      var t := s[1..];
      assert s == [s[0]] + t;
      ReplaceAllAppend([s[0]], t, '&', "&amp;");
      var a1, b1 := ReplaceAll([s[0]], '&', "&amp;"), ReplaceAll(t, '&', "&amp;");
      ReplaceAllAppend(a1, b1, '"', "&quot;");
      var a2, b2 := ReplaceAll(a1, '"', "&quot;"), ReplaceAll(b1, '"', "&quot;");
      ReplaceAllAppend(a2, b2, '<', "&lt;");
      var a3, b3 := ReplaceAll(a2, '<', "&lt;"), ReplaceAll(b2, '<', "&lt;");
      ReplaceAllAppend(a3, b3, '>', "&gt;");
      EscapeHtmlChar(s[0]);
      EscapeHtmlIsPerCharacter(t);
    }
  }

  /** The characters that may not appear in escaped text. */
  predicate IsMarkup(c: char) {
    c == '<' || c == '>' || c == '"'
  }

  lemma EscapeCharNoMarkup(c: char)
    ensures forall i :: 0 <= i < |EscapeChar(c)| ==> !IsMarkup(EscapeChar(c)[i])
  {
  }

  lemma {:induction false} EscapeEachNoMarkup(s: string)
    ensures forall i :: 0 <= i < |EscapeEach(s)| ==> !IsMarkup(EscapeEach(s)[i])
  {
    if s != [] {
      var head, tail := EscapeChar(s[0]), EscapeEach(s[1..]);
      EscapeCharNoMarkup(s[0]);
      EscapeEachNoMarkup(s[1..]);
      assert EscapeEach(s) == head + tail;
      forall i | 0 <= i < |head + tail| ensures !IsMarkup((head + tail)[i]) {
        if i >= |head| {
          assert (head + tail)[i] == tail[i - |head|];
        }
      }
    }
  }

  /** The escaped text contains no `<`, `>` or `"`. */
  lemma EscapeHtmlNoMarkup(s: string)
    ensures forall i :: 0 <= i < |EscapeHtml(s)| ==> !IsMarkup(EscapeHtml(s)[i])
  {
    EscapeHtmlIsPerCharacter(s);
    EscapeEachNoMarkup(s);
  }

  lemma {:induction false} EscapeEachPlainText(s: string)
    requires forall i :: 0 <= i < |s| ==> !IsSpecial(s[i])
    ensures EscapeEach(s) == s
  {
    if s != [] {
      EscapeEachPlainText(s[1..]);
      assert s == [s[0]] + s[1..];
    }
  }

  /** Text without any of the four special characters is left unchanged. */
  lemma EscapeHtmlPlainText(s: string)
    requires forall i :: 0 <= i < |s| ==> !IsSpecial(s[i])
    ensures EscapeHtml(s) == s
  {
    EscapeHtmlIsPerCharacter(s);
    EscapeEachPlainText(s);
  }

  lemma EntityAtShift(a: string, b: string, i: nat)
    requires i < |b| && EntityAt(b, i)
    ensures EntityAt(a + b, |a| + i)
  {
    var ab := a + b;
    assert forall j, k :: 0 <= j <= k <= |b| ==> ab[|a| + j..|a| + k] == b[j..k];
  }

  lemma EntityAtPrefix(a: string, b: string)
    requires a in ["&amp;", "&quot;", "&lt;", "&gt;"]
    ensures EntityAt(a + b, 0)
  {
    assert (a + b)[..|a|] == a;
  }

  /** In an escaped character an `&` can only begin its entity. */
  lemma AmpersandInHead(c: char, tail: string, i: nat)
    requires i < |EscapeChar(c)| && EscapeChar(c)[i] == '&'
    ensures EntityAt(EscapeChar(c) + tail, i)
  {
    assert i == 0 && IsSpecial(c);
    EntityAtPrefix(EscapeChar(c), tail);
  }

  /** Every `&` in the per-character escaping begins one of the four entities. */
  lemma {:induction false} EscapeEachAmpersands(s: string)
    ensures forall i :: 0 <= i < |EscapeEach(s)| && EscapeEach(s)[i] == '&' ==> EntityAt(EscapeEach(s), i)
  {
    if s != [] {
      var head, tail := EscapeChar(s[0]), EscapeEach(s[1..]);
      EscapeEachAmpersands(s[1..]);
      assert EscapeEach(s) == head + tail;
      forall i | 0 <= i < |head + tail| && (head + tail)[i] == '&'
        ensures EntityAt(head + tail, i)
      {
        if i < |head| {
          AmpersandInHead(s[0], tail, i);
        } else {
          assert tail[i - |head|] == '&';
          EntityAtShift(head, tail, i - |head|);
        }
      }
    }
  }

  /** Every `&` in the escaped text begins one of the four entities. */
  lemma EscapeHtmlAmpersands(s: string)
    ensures forall i :: 0 <= i < |EscapeHtml(s)| && EscapeHtml(s)[i] == '&' ==> EntityAt(EscapeHtml(s), i)
  {
    EscapeHtmlIsPerCharacter(s);
    EscapeEachAmpersands(s);
  }

  lemma UnescapeAmp(tail: string)
    ensures Unescape("&amp;" + tail) == "&" + Unescape(tail)
  {
    var r := "&amp;" + tail;
    assert r[..5] == "&amp;" && r[5..] == tail;
  }

  lemma UnescapeQuot(tail: string)
    ensures Unescape("&quot;" + tail) == "\"" + Unescape(tail)
  {
    var r := "&quot;" + tail;
    assert r[..6] == "&quot;" && r[6..] == tail;
    assert r[..5] != "&amp;" by { assert r[1] == 'q'; }
  }

  lemma UnescapeLt(tail: string)
    ensures Unescape("&lt;" + tail) == "<" + Unescape(tail)
  {
    var r := "&lt;" + tail;
    assert r[..4] == "&lt;" && r[4..] == tail;
    assert (|r| >= 5 ==> r[..5] != "&amp;") && (|r| >= 6 ==> r[..6] != "&quot;") by {
      assert r[1] == 'l';
    }
  }

  lemma UnescapeGt(tail: string)
    ensures Unescape("&gt;" + tail) == ">" + Unescape(tail)
  {
    var r := "&gt;" + tail;
    assert r[..4] == "&gt;" && r[4..] == tail;
    assert (|r| >= 5 ==> r[..5] != "&amp;") && (|r| >= 6 ==> r[..6] != "&quot;") && r[..4] != "&lt;" by {
      assert r[1] == 'g';
    }
  }

  lemma UnescapeOther(c: char, tail: string)
    requires !IsSpecial(c)
    ensures Unescape([c] + tail) == [c] + Unescape(tail)
  {
    var r := [c] + tail;
    assert r[0] == c && r[1..] == tail;
    assert forall k :: 1 <= k <= |r| ==> r[..k][0] == c;
  }

  /** Decoding an escaped character followed by more text. */
  lemma UnescapeHead(c: char, tail: string)
    ensures Unescape(EscapeChar(c) + tail) == [c] + Unescape(tail)
  {
    match c
    case '&' => UnescapeAmp(tail);
    case '"' => UnescapeQuot(tail);
    case '<' => UnescapeLt(tail);
    case '>' => UnescapeGt(tail);
    case _ => UnescapeOther(c, tail);
  }

  /** Decoding the entities gives back exactly the text that was escaped. */
  lemma {:induction false} UnescapeEscapeEach(s: string)
    ensures Unescape(EscapeEach(s)) == s
  {
    if s != [] {
      UnescapeHead(s[0], EscapeEach(s[1..]));
      UnescapeEscapeEach(s[1..]);
      assert s == [s[0]] + s[1..];
    }
  }

  /** `escapeHtml` loses nothing: decoding its output restores its input. */
  lemma EscapeHtmlRoundTrip(s: string)
    ensures Unescape(EscapeHtml(s)) == s
  {
    EscapeHtmlIsPerCharacter(s);
    UnescapeEscapeEach(s);
  }
}
