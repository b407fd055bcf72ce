/** `escapeHtml`: five global single-character replacements, applied in the
    order `&`, `<`, `>`, `"`, `'`, that make arbitrary text safe to splice
    into HTML element content and attribute values. */
module Escape {

  /** `s.replace(/c/g, rep)` for a one-character pattern. */
  function ReplaceChar(s: string, c: char, rep: string): (r: string)
  {
    if s == [] then [] else (if s[0] == c then rep else [s[0]]) + ReplaceChar(s[1..], c, rep)
  }

  /** The five replacements of the source, in the order it applies them. */
  const EscapeRules: seq<(char, string)> :=
    [('&', "&amp;"), ('<', "&lt;"), ('>', "&gt;"), ('"', "&quot;"), ('\'', "&#39;")]

  /** `s.replace(...).replace(...)...`: each rule applied to the result of
      the one before. */
  function ReplaceInTurn(s: string, rules: seq<(char, string)>): string
    decreases rules
  {
    if rules == [] then s else ReplaceInTurn(ReplaceChar(s, rules[0].0, rules[0].1), rules[1..])
  }

  function EscapeHtml(s: string): string {
    ReplaceInTurn(s, EscapeRules)
  }

  /** The entity that replaces one character (the character itself when it
      needs no escaping). */
  function EscapeChar(c: char): string {
    match c
    case '&' => "&amp;"
    case '<' => "&lt;"
    case '>' => "&gt;"
    case '"' => "&quot;"
    case '\'' => "&#39;"
    case _ => [c]
  }

  /** Reference definition: escape each character on its own. */
  function EscapeEach(s: string): string {
    if s == [] then [] else EscapeChar(s[0]) + EscapeEach(s[1..])
  }

  predicate IsRawSpecial(c: char) {
    c == '<' || c == '>' || c == '"' || c == '\''
  }

  /** `rest` begins with one of the five entities that escaping produces. */
  predicate BeginsWithEntity(rest: string) {
    || (|rest| >= 5 && rest[..5] == "&amp;")
    || (|rest| >= 4 && rest[..4] == "&lt;")
    || (|rest| >= 4 && rest[..4] == "&gt;")
    || (|rest| >= 6 && rest[..6] == "&quot;")
    || (|rest| >= 5 && rest[..5] == "&#39;")
  }

  /** Decoding of the five entities, as the HTML parser performs it when it
      reads escaped text back. */
  function Unescape(s: string): string
    decreases |s|
  {
    if s == [] then []
    else if s[0] != '&' then [s[0]] + Unescape(s[1..])
    else if |s| >= 5 && s[..5] == "&amp;" then "&" + Unescape(s[5..])
    else if |s| >= 4 && s[..4] == "&lt;" then "<" + Unescape(s[4..])
    else if |s| >= 4 && s[..4] == "&gt;" then ">" + Unescape(s[4..])
    else if |s| >= 6 && s[..6] == "&quot;" then "\"" + Unescape(s[6..])
    else if |s| >= 5 && s[..5] == "&#39;" then "'" + Unescape(s[5..])
    else "&" + Unescape(s[1..])
  }

  lemma {:induction false} ReplaceCharConcat(a: string, b: string, c: char, rep: string)
    ensures ReplaceChar(a + b, c, rep) == ReplaceChar(a, c, rep) + ReplaceChar(b, c, rep)
  {
    if a == [] {
      assert a + b == b;
    } else {
      assert (a + b)[1..] == a[1..] + b;
      ReplaceCharConcat(a[1..], b, c, rep);
    }
  }

  lemma {:induction false} ReplaceCharAbsent(s: string, c: char, rep: string)
    requires c !in s
    ensures ReplaceChar(s, c, rep) == s
  {
    if s != [] {
      ReplaceCharAbsent(s[1..], c, rep);
    }
  }

  lemma ReplaceCharSingle(c: char, d: char, rep: string)
    ensures ReplaceChar([c], d, rep) == if c == d then rep else [c]
  {
    assert [c][1..] == [];
  }

  lemma {:induction false} ReplaceInTurnAbsent(s: string, rules: seq<(char, string)>)
    requires forall i :: 0 <= i < |rules| ==> rules[i].0 !in s
    ensures ReplaceInTurn(s, rules) == s
    decreases rules
  {
    if rules != [] {
      ReplaceCharAbsent(s, rules[0].0, rules[0].1);
      ReplaceInTurnAbsent(s, rules[1..]);
    }
  }

  lemma {:induction false} ReplaceInTurnConcat(s: string, t: string, rules: seq<(char, string)>)
    ensures ReplaceInTurn(s + t, rules) == ReplaceInTurn(s, rules) + ReplaceInTurn(t, rules)
    decreases rules
  {
    if rules != [] {
      ReplaceCharConcat(s, t, rules[0].0, rules[0].1);
      ReplaceInTurnConcat(ReplaceChar(s, rules[0].0, rules[0].1), ReplaceChar(t, rules[0].0, rules[0].1), rules[1..]);
    }
  }

  /** The chain of replacements applied to one character. */
  lemma EscapeHtmlOneChar(c: char)
    ensures EscapeHtml([c]) == EscapeChar(c)
  {
    var r := EscapeRules;
    ReplaceCharSingle(c, '&', "&amp;");
    if c == '&' {
      ReplaceInTurnAbsent("&amp;", r[1..]);
      return;
    }
    ReplaceCharSingle(c, '<', "&lt;");
    if c == '<' {
      ReplaceInTurnAbsent("&lt;", r[2..]);
      return;
    }
    ReplaceCharSingle(c, '>', "&gt;");
    if c == '>' {
      ReplaceInTurnAbsent("&gt;", r[3..]);
      return;
    }
    ReplaceCharSingle(c, '"', "&quot;");
    if c == '"' {
      ReplaceInTurnAbsent("&quot;", r[4..]);
      return;
    }
    ReplaceCharSingle(c, '\'', "&#39;");
    assert ReplaceInTurn([c], r[5..]) == [c];
  }

  /** Escaping distributes over concatenation. */
  lemma EscapeHtmlConcat(s: string, t: string)
    ensures EscapeHtml(s + t) == EscapeHtml(s) + EscapeHtml(t)
  {
    ReplaceInTurnConcat(s, t, EscapeRules);
  }

  /** The chain of five global replacements escapes each character on its
      own: replacing `&` first means no entity is escaped twice. */
  lemma {:induction false} EscapeHtmlIsPerCharacter(s: string)
    ensures EscapeHtml(s) == EscapeEach(s)
  {
    if s == [] {
    } else {
      assert s == [s[0]] + s[1..];
      EscapeHtmlConcat([s[0]], s[1..]);
      EscapeHtmlOneChar(s[0]);
      EscapeHtmlIsPerCharacter(s[1..]);
    }
  }

  lemma EscapeCharProperties(c: char, t: string)
    ensures var e := EscapeChar(c);
      forall i :: 0 <= i < |e| ==> !IsRawSpecial(e[i]) && (e[i] == '&' ==> i == 0 && BeginsWithEntity(e + t))
  {
    var e := EscapeChar(c);
    assert (e + t)[0..] == e + t;
    if c == '&' {
      assert (e + t)[..5] == e;
    } else if c == '<' || c == '>' {
      assert (e + t)[..4] == e;
    } else if c == '"' {
      assert (e + t)[..6] == e;
    } else if c == '\'' {
      assert (e + t)[..5] == e;
    }
  }

  /** Text that HTML reads back as plain characters: no raw `<`, `>`, `"`
      or `'`, and every `&` begins one of the five entities. */
  predicate SafeHtmlText(r: string) {
    && (forall i :: 0 <= i < |r| ==> !IsRawSpecial(r[i]))
    && (forall i :: 0 <= i < |r| && r[i] == '&' ==> BeginsWithEntity(r[i..]))
  }

  lemma {:induction false} EscapeEachProperties(s: string)
    ensures SafeHtmlText(EscapeEach(s))
  {
    if s != [] {
      EscapeEachProperties(s[1..]);
      SafeAfterEntity(s[0], EscapeEach(s[1..]));
    }
  }

  /** An escaped character in front of safe text leaves it safe. */
  lemma SafeAfterEntity(c: char, t: string)
    requires SafeHtmlText(t)
    ensures SafeHtmlText(EscapeChar(c) + t)
  {
    var h := EscapeChar(c);
    var r := h + t;
    EscapeCharProperties(c, t);
    forall i | 0 <= i < |r|
      ensures !IsRawSpecial(r[i])
      ensures r[i] == '&' ==> BeginsWithEntity(r[i..])
    {
      if i < |h| {
        assert r[i] == h[i];
        assert r[i] == '&' ==> r[i..] == h + t;
      } else {
        SafeInTail(h, t, i);
      }
    }
  }

  lemma SafeInTail(h: string, t: string, i: int)
    requires SafeHtmlText(t) && |h| <= i < |h| + |t|
    ensures !IsRawSpecial((h + t)[i])
    ensures (h + t)[i] == '&' ==> BeginsWithEntity((h + t)[i..])
  {
    var j := i - |h|;
    assert (h + t)[i] == t[j];
    assert (h + t)[i..] == t[j..];
  }

  /** The escaped text contains no raw `<`, `>`, `"` or `'`, and every `&` in
      it begins one of the five entities. */
  lemma EscapeHtmlSafe(s: string)
    ensures SafeHtmlText(EscapeHtml(s))
  {
    EscapeHtmlIsPerCharacter(s);
    EscapeEachProperties(s);
  }

  /** Each of the five entities decodes to the character it replaced. */
  lemma UnescapeRule(i: int, t: string)
    requires 0 <= i < |EscapeRules|
    ensures Unescape(EscapeRules[i].1 + t) == [EscapeRules[i].0] + Unescape(t)
  {
    var s := EscapeRules[i].1 + t;
    if i == 0 {
      assert s[..5] == "&amp;" && s[5..] == t;
    } else if i == 1 {
      assert s[1] == 'l' && s[..4] == "&lt;" && s[4..] == t;
    } else if i == 2 {
      assert s[1] == 'g' && s[..4] == "&gt;" && s[4..] == t;
    } else if i == 3 {
      assert s[..5][1] == 'q' && s[..4][1] == 'q';
      assert s[..6] == "&quot;" && s[6..] == t;
    } else {
      assert s[1] == '#' && s[..5] == "&#39;" && s[5..] == t;
    }
  }

  lemma UnescapePlain(c: char, t: string)
    requires c != '&'
    ensures Unescape([c] + t) == [c] + Unescape(t)
  {
    var s := [c] + t;
    assert s[0] == c && s[1..] == t;
  }

  lemma UnescapeEntity(c: char, t: string)
    ensures Unescape(EscapeChar(c) + t) == [c] + Unescape(t)
  {
    match c
    case '&' => UnescapeRule(0, t);
    case '<' => UnescapeRule(1, t);
    case '>' => UnescapeRule(2, t);
    case '"' => UnescapeRule(3, t);
    case '\'' => UnescapeRule(4, t);
    case _ => UnescapePlain(c, t);
  }

  /** Decoding the escaped text gives back the original text, so the page
      shows exactly the string that was escaped. */
  lemma {:induction false} UnescapeEscapeHtml(s: string)
    ensures Unescape(EscapeHtml(s)) == s
  {
    EscapeHtmlIsPerCharacter(s);
    UnescapeEscapeEach(s);
  }

  lemma {:induction false} UnescapeEscapeEach(s: string)
    ensures Unescape(EscapeEach(s)) == s
  {
    if s != [] {
      var t := EscapeEach(s[1..]);
      assert EscapeEach(s) == EscapeChar(s[0]) + t;
      UnescapeEntity(s[0], t);
      UnescapeEscapeEach(s[1..]);
      assert Unescape(EscapeEach(s)) == [s[0]] + s[1..];
      assert [s[0]] + s[1..] == s;
    }
  }
}
