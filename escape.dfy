/**
 * `escapeHtml` of the browser client: five `replaceAll` calls in a row,
 * ampersand first. The chain is proved equal to escaping each character on
 * its own, from which follow the properties a caller relies on: no raw
 * markup character survives, every ampersand starts an entity, clean text
 * passes unchanged, and the original text can be read back.
 */
module Escape {

  /** `s.replaceAll(c, with)` for a one-character pattern. */
  function ReplaceAll(s: string, c: char, with: string): string {
    if s == [] then [] else (if s[0] == c then with else [s[0]]) + ReplaceAll(s[1..], c, with)
  }

  /** No `c` is left unless the replacement brings one in. */
  lemma {:induction false} ReplaceAllRemoves(s: string, c: char, with: string)
    requires c !in with
    ensures c !in ReplaceAll(s, c, with)
  {
    if s != [] {
      ReplaceAllRemoves(s[1..], c, with);
    }
  }

  /** A character in neither the text nor the replacement is not in the result. */
  lemma {:induction false} ReplaceAllOmits(s: string, c: char, with: string, x: char)
    requires x !in s && x !in with
    ensures x !in ReplaceAll(s, c, with)
  {
    if s != [] {
      assert s[0] in s;
      ReplaceAllOmits(s[1..], c, with, x);
    }
  }

  /** `escapeHtml`, exactly as the chain is written. */
  function EscapeHtml(s: string): string {
    ReplaceAll(ReplaceAll(ReplaceAll(ReplaceAll(ReplaceAll(s,
      '&', "&amp;"), '<', "&lt;"), '>', "&gt;"), '"', "&quot;"), '\'', "&#039;")
  }

  predicate IsSpecial(c: char) {
    c == '&' || c == '<' || c == '>' || c == '"' || c == '\''
  }

  /** The entity that stands for one character, or the character itself. */
  function EscapeChar(c: char): string {
    match c
    case '&' => "&amp;"
    case '<' => "&lt;"
    case '>' => "&gt;"
    case '"' => "&quot;"
    case '\'' => "&#039;"
    case _ => [c]
  }

  /** Escaping character by character. */
  function EscapeEach(s: string): string {
    if s == [] then [] else EscapeChar(s[0]) + EscapeEach(s[1..])
  }

  // ---------------------------------------------------------------------------
  // The chain is character-wise escaping

  lemma {:induction false} ReplaceAllAppend(a: string, b: string, c: char, with: string)
    ensures ReplaceAll(a + b, c, with) == ReplaceAll(a, c, with) + ReplaceAll(b, c, with)
  {
    if a == [] {
      assert a + b == b;
    } else {
      assert (a + b)[0] == a[0];
      assert (a + b)[1..] == a[1..] + b;
      ReplaceAllAppend(a[1..], b, c, with);
    }
  }

  lemma {:induction false} ReplaceAllAbsent(s: string, c: char, with: string)
    requires c !in s
    ensures ReplaceAll(s, c, with) == s
  {
    if s != [] {
      ReplaceAllAbsent(s[1..], c, with);
    }
  }

  lemma EscapeHtmlAppend(a: string, b: string)
    ensures EscapeHtml(a + b) == EscapeHtml(a) + EscapeHtml(b)
  {
    var a1, b1 := ReplaceAll(a, '&', "&amp;"), ReplaceAll(b, '&', "&amp;");
    ReplaceAllAppend(a, b, '&', "&amp;");
    var a2, b2 := ReplaceAll(a1, '<', "&lt;"), ReplaceAll(b1, '<', "&lt;");
    ReplaceAllAppend(a1, b1, '<', "&lt;");
    var a3, b3 := ReplaceAll(a2, '>', "&gt;"), ReplaceAll(b2, '>', "&gt;");
    ReplaceAllAppend(a2, b2, '>', "&gt;");
    var a4, b4 := ReplaceAll(a3, '"', "&quot;"), ReplaceAll(b3, '"', "&quot;");
    ReplaceAllAppend(a3, b3, '"', "&quot;");
    ReplaceAllAppend(a4, b4, '\'', "&#039;");
  }

  lemma ReplaceAllSingle(c: char, x: char, with: string)
    ensures ReplaceAll([c], x, with) == if c == x then with else [c]
  {
    assert [c][1..] == [];
  }

  lemma EscapeHtmlPlain(c: char)
    requires !IsSpecial(c)
    ensures EscapeHtml([c]) == [c]
  {
    ReplaceAllSingle(c, '&', "&amp;");
    ReplaceAllSingle(c, '<', "&lt;");
    ReplaceAllSingle(c, '>', "&gt;");
    ReplaceAllSingle(c, '"', "&quot;");
    ReplaceAllSingle(c, '\'', "&#039;");
  }

  /** The replacements after the first never meet a character an earlier one introduced. */
  lemma EscapeHtmlSpecial(c: char)
    requires IsSpecial(c)
    ensures EscapeHtml([c]) == EscapeChar(c)
  {
    ReplaceAllSingle(c, '&', "&amp;");
    if c == '&' {
      AmpersandEntityKept("&amp;");
    } else {
      EscapeHtmlSpecialAfterAmpersand(c);
    }
  }

  /** The entity of `&` passes the last four replacements unchanged. */
  lemma AmpersandEntityKept(e: string)
    requires e == "&amp;"
    ensures ReplaceAll(ReplaceAll(ReplaceAll(ReplaceAll(e,
      '<', "&lt;"), '>', "&gt;"), '"', "&quot;"), '\'', "&#039;") == e
  {
    ReplaceAllAbsent(e, '<', "&lt;");
    ReplaceAllAbsent(e, '>', "&gt;");
    ReplaceAllAbsent(e, '"', "&quot;");
    ReplaceAllAbsent(e, '\'', "&#039;");
  }

  /** The last four replacements of the chain, on a special character other than `&`. */
  lemma EscapeHtmlSpecialAfterAmpersand(c: char)
    requires IsSpecial(c) && c != '&'
    ensures ReplaceAll(ReplaceAll(ReplaceAll(ReplaceAll([c],
      '<', "&lt;"), '>', "&gt;"), '"', "&quot;"), '\'', "&#039;") == EscapeChar(c)
  {
    ReplaceAllSingle(c, '<', "&lt;");
    var s2 := ReplaceAll([c], '<', "&lt;");
    if c == '<' {
      ReplaceAllAbsent(s2, '>', "&gt;");
      ReplaceAllAbsent(s2, '"', "&quot;");
      ReplaceAllAbsent(s2, '\'', "&#039;");
    } else {
      ReplaceAllSingle(c, '>', "&gt;");
      var s3 := ReplaceAll(s2, '>', "&gt;");
      if c == '>' {
        ReplaceAllAbsent(s3, '"', "&quot;");
        ReplaceAllAbsent(s3, '\'', "&#039;");
      } else {
        ReplaceAllSingle(c, '"', "&quot;");
        var s4 := ReplaceAll(s3, '"', "&quot;");
        if c == '"' {
          ReplaceAllAbsent(s4, '\'', "&#039;");
        } else {
          ReplaceAllSingle(c, '\'', "&#039;");
        }
      }
    }
  }

  /** On one character the chain gives that character's entity. */
  lemma EscapeHtmlChar(c: char)
    ensures EscapeHtml([c]) == EscapeChar(c)
  {
    if IsSpecial(c) {
      EscapeHtmlSpecial(c);
    } else {
      EscapeHtmlPlain(c);
    }
  }

  /** The five `replaceAll` calls amount to escaping each character on its own. */
  lemma {:induction false} EscapeHtmlIsEscapeEach(s: string)
    ensures EscapeHtml(s) == EscapeEach(s)
  {
    if s == [] {
      assert EscapeHtml(s) == [];
    } else {
      assert s == [s[0]] + s[1..];
      EscapeHtmlAppend([s[0]], s[1..]);
      EscapeHtmlChar(s[0]);
      EscapeHtmlIsEscapeEach(s[1..]);
    }
  }

  // ---------------------------------------------------------------------------
  // What the escaped text looks like

  /**
   * No `<`, `>`, `"` or `'` is left in the output: each replacement removes
   * its character, and no later replacement brings it back.
   */
  lemma NoRawMarkup(s: string)
    ensures '<' !in EscapeHtml(s) && '>' !in EscapeHtml(s) && '"' !in EscapeHtml(s) && '\'' !in EscapeHtml(s)
  {
    var s1 := ReplaceAll(s, '&', "&amp;");
    var s2 := ReplaceAll(s1, '<', "&lt;");
    var s3 := ReplaceAll(s2, '>', "&gt;");
    var s4 := ReplaceAll(s3, '"', "&quot;");
    ReplaceAllRemoves(s1, '<', "&lt;");
    ReplaceAllRemoves(s2, '>', "&gt;");
    ReplaceAllRemoves(s3, '"', "&quot;");
    ReplaceAllRemoves(s4, '\'', "&#039;");
    ReplaceAllOmits(s2, '>', "&gt;", '<');
    ReplaceAllOmits(s3, '"', "&quot;", '<');
    ReplaceAllOmits(s4, '\'', "&#039;", '<');
    ReplaceAllOmits(s3, '"', "&quot;", '>');
    ReplaceAllOmits(s4, '\'', "&#039;", '>');
    ReplaceAllOmits(s4, '\'', "&#039;", '"');
  }

  /** `e` occurs in `r` at position `i`. */
  predicate OccursAt(e: string, r: string, i: nat) {
    i + |e| <= |r| && r[i..i + |e|] == e
  }

  predicate EntityAt(r: string, i: nat) {
    OccursAt("&amp;", r, i) || OccursAt("&lt;", r, i) || OccursAt("&gt;", r, i)
    || OccursAt("&quot;", r, i) || OccursAt("&#039;", r, i)
  }

  lemma EntityAtShift(head: string, tail: string, i: nat)
    requires EntityAt(tail, i)
    ensures EntityAt(head + tail, |head| + i)
  {
    var r := head + tail;
    forall e: string | OccursAt(e, tail, i) ensures OccursAt(e, r, |head| + i) {
      assert r[|head| + i..|head| + i + |e|] == tail[i..i + |e|];
    }
  }

  /**
   * Every `&` in the output starts one of the five entities: because `&` is
   * replaced first, no entity is escaped a second time.
   */
  lemma AmpersandsStartEntities(s: string)
    ensures forall i :: 0 <= i < |EscapeHtml(s)| && EscapeHtml(s)[i] == '&' ==> EntityAt(EscapeHtml(s), i)
  {
    EscapeHtmlIsEscapeEach(s);
    EscapeEachAmpersands(s);
  }

  lemma {:induction false} EscapeEachAmpersands(s: string)
    ensures forall i :: 0 <= i < |EscapeEach(s)| && EscapeEach(s)[i] == '&' ==> EntityAt(EscapeEach(s), i)
  {
    if s != [] {
      EscapeEachAmpersands(s[1..]);
      var head, tail := EscapeChar(s[0]), EscapeEach(s[1..]);
      var r := head + tail;
      assert EscapeEach(s) == r;
      forall i | 0 <= i < |r| && r[i] == '&' ensures EntityAt(r, i) {
        if i < |head| {
          assert i == 0 && IsSpecial(s[0]);
          assert r[..|head|] == head;
        } else {
          assert r[i] == tail[i - |head|];
          EntityAtShift(head, tail, i - |head|);
        }
      }
    }
  }

  /** Text without any of the five special characters is returned unchanged. */
  lemma {:induction false} CleanTextUnchanged(s: string)
    requires forall i :: 0 <= i < |s| ==> !IsSpecial(s[i])
    ensures EscapeHtml(s) == s
  {
    EscapeHtmlIsEscapeEach(s);
    EscapeEachClean(s);
  }

  lemma {:induction false} EscapeEachClean(s: string)
    requires forall i :: 0 <= i < |s| ==> !IsSpecial(s[i])
    ensures EscapeEach(s) == s
  {
    if s != [] {
      EscapeEachClean(s[1..]);
      assert s == [s[0]] + s[1..];
    }
  }

  // ---------------------------------------------------------------------------
  // Reading the text back

  /** A decoder of exactly these five entities: the partner of `EscapeHtml`. */
  function Unescape(r: string): string
    decreases |r|
  {
    if r == [] then []
    else if r[0] == '&' && |r| >= 5 && r[..5] == "&amp;" then "&" + Unescape(r[5..])
    else if r[0] == '&' && |r| >= 4 && r[..4] == "&lt;" then "<" + Unescape(r[4..])
    else if r[0] == '&' && |r| >= 4 && r[..4] == "&gt;" then ">" + Unescape(r[4..])
    else if r[0] == '&' && |r| >= 6 && r[..6] == "&quot;" then "\"" + Unescape(r[6..])
    else if r[0] == '&' && |r| >= 6 && r[..6] == "&#039;" then "'" + Unescape(r[6..])
    else [r[0]] + Unescape(r[1..])
  }

  lemma UnescapeEntity(c: char, rest: string)
    ensures Unescape(EscapeChar(c) + rest) == [c] + Unescape(rest)
  {
    var e := EscapeChar(c);
    var r := e + rest;
    assert r[..|e|] == e;
    assert r[|e|..] == rest;
    assert r[0] == e[0];
    if IsSpecial(c) {
      assert r[1] == e[1];
      assert |r| >= 5 ==> r[..5][1] == r[1];
      assert |r| >= 4 ==> r[..4][1] == r[1];
      assert |r| >= 6 ==> r[..6][1] == r[1];
    } else {
      assert e == [c];
    }
  }

  lemma {:induction false} UnescapeEscapeEach(s: string)
    ensures Unescape(EscapeEach(s)) == s
  {
    if s != [] {
      UnescapeEntity(s[0], EscapeEach(s[1..]));
      UnescapeEscapeEach(s[1..]);
      assert s == [s[0]] + s[1..];
    }
  }

  /** Decoding the output gives back the input. */
  lemma UnescapeEscapeHtml(s: string)
    ensures Unescape(EscapeHtml(s)) == s
  {
    EscapeHtmlIsEscapeEach(s);
    UnescapeEscapeEach(s);
  }

  /** Distinct texts are escaped to distinct outputs. */
  lemma EscapeHtmlInjective(a: string, b: string)
    requires EscapeHtml(a) == EscapeHtml(b)
    ensures a == b
  {
    UnescapeEscapeHtml(a);
    UnescapeEscapeHtml(b);
  }
}
