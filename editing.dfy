/** The two edits the page makes to the study query box: `insertSymbol`
    (the logic toolbar) and `appendTermToQuery` (a click on a related-term
    chip). */
module Editing {
  import opened Wrappers
  import opened Text
  import opened Query

  function Min(a: int, b: int): int {
    if a <= b then a else b
  }

  /** `s.slice(0, n)`: an end past the string is clamped to its length. */
  function Prefix(s: string, n: nat): (r: string)
    ensures r == s[..Min(n, |s|)]
  {
    s[..Min(n, |s|)]
  }

  /** `s.slice(n)`. */
  function Suffix(s: string, n: nat): (r: string)
    ensures r == s[Min(n, |s|)..]
  {
    s[Min(n, |s|)..]
  }

  /** `/^(AND|OR|NOT)$/i`. */
  predicate IsOperatorWord(sym: string) {
    EqualsIgnoreCase(sym, "AND") || EqualsIgnoreCase(sym, "OR") || EqualsIgnoreCase(sym, "NOT")
  }

  /** `before` is not empty and ends in neither whitespace nor `(`. */
  predicate NeedsSpaceBefore(before: string) {
    |before| > 0 && !IsSpace(before[|before| - 1]) && before[|before| - 1] != '('
  }

  /** `after` is empty or starts with neither whitespace nor `)`. */
  predicate NeedsSpaceAfter(after: string) {
    if |after| == 0 then true else !(IsSpace(after[0]) || after[0] == ')')
  }

  /** The text `insertSymbol` puts between `before` and `after`: an operator
      word upper-cased and padded with the spaces it lacks, anything else as
      it is. */
  function InsertedText(sym: string, before: string, after: string): string {
    if IsOperatorWord(sym) then
      (if NeedsSpaceBefore(before) then " " else "") + Upper(sym) + (if NeedsSpaceAfter(after) then " " else "")
    else sym
  }

  /** An operator word in any case upper-cases to one of the three
      operators. */
  lemma OperatorUpper(sym: string)
    requires IsOperatorWord(sym)
    ensures Upper(sym) == "AND" || Upper(sym) == "OR" || Upper(sym) == "NOT"
  {
    if EqualsIgnoreCase(sym, "AND") {
      assert Upper(sym) == "AND";
    } else if EqualsIgnoreCase(sym, "OR") {
      assert Upper(sym) == "OR";
    } else {
      assert Upper(sym) == "NOT";
    }
  }

  /** After `insertSymbol` an operator stands as a token of its own: the
      query reads `a + OP + b` with `OP` upper case, `a` empty or ending in
      whitespace or `(`, and `b` starting with whitespace or `)`. */
  lemma OperatorStandsAlone(sym: string, before: string, after: string)
    requires IsOperatorWord(sym)
    ensures var a := before + (if NeedsSpaceBefore(before) then " " else "");
      var b := (if NeedsSpaceAfter(after) then " " else "") + after;
      && before + InsertedText(sym, before, after) + after == a + Upper(sym) + b
      && (Upper(sym) == "AND" || Upper(sym) == "OR" || Upper(sym) == "NOT")
      && (a == [] || IsSpace(a[|a| - 1]) || a[|a| - 1] == '(')
      && b != [] && (IsSpace(b[0]) || b[0] == ')')
  {
    OperatorUpper(sym);
    var pre := if NeedsSpaceBefore(before) then " " else "";
    var suf := if NeedsSpaceAfter(after) then " " else "";
    assert InsertedText(sym, before, after) == pre + Upper(sym) + suf;
    Regroup(before, pre, Upper(sym), suf, after);
    PaddedBefore(before, pre);
    PaddedAfter(suf, after);
  }

  lemma Regroup(before: string, pre: string, u: string, suf: string, after: string)
    ensures before + (pre + u + suf) + after == (before + pre) + u + (suf + after)
  {
  }

  lemma PaddedBefore(before: string, pre: string)
    requires pre == if NeedsSpaceBefore(before) then " " else ""
    ensures var a := before + pre; a == [] || IsSpace(a[|a| - 1]) || a[|a| - 1] == '('
  {
    if pre == "" {
      assert before + pre == before;
    }
  }

  lemma PaddedAfter(suf: string, after: string)
    requires suf == if NeedsSpaceAfter(after) then " " else ""
    ensures var b := suf + after; b != [] && (IsSpace(b[0]) || b[0] == ')')
  {
    if suf == "" {
      assert suf + after == after;
    }
  }

  /** Inserting an operator at the end of the query (not right after `(`)
      leaves a query the search refuses to run. */
  lemma OperatorAtEndNotRunnable(sym: string, before: string)
    requires IsOperatorWord(sym)
    requires before == [] || before[|before| - 1] != '('
    ensures !RunnableQuery(before + InsertedText(sym, before, ""))
  {
    var prefix := before + (if NeedsSpaceBefore(before) then " " else "");
    InsertedAtEnd(sym, before, prefix);
    UpperOperatorWord(sym);
    TrailingOperatorNotRunnable(prefix, Upper(sym), " ");
  }

  lemma UpperOperatorWord(sym: string)
    requires IsOperatorWord(sym)
    ensures var u := Upper(sym);
      EqualsIgnoreCase(u, "AND") || EqualsIgnoreCase(u, "OR") || EqualsIgnoreCase(u, "NOT")
  {
    UpperIgnoreCase(sym, "AND");
    UpperIgnoreCase(sym, "OR");
    UpperIgnoreCase(sym, "NOT");
  }

  /** At the end of the query an operator is followed by one space and
      preceded by whitespace, or by nothing. */
  lemma InsertedAtEnd(sym: string, before: string, prefix: string)
    requires IsOperatorWord(sym)
    requires before == [] || before[|before| - 1] != '('
    requires prefix == before + (if NeedsSpaceBefore(before) then " " else "")
    ensures before + InsertedText(sym, before, "") == prefix + Upper(sym) + " "
    ensures prefix == [] || IsSpace(prefix[|prefix| - 1])
  {
  }

  /** `/[\s(]$/`. */
  predicate EndsWithSpaceOrParen(s: string) {
    s != [] && (IsSpace(s[|s| - 1]) || s[|s| - 1] == '(')
  }

  /** `s.endsWith(' ')`. */
  predicate EndsWithBlank(s: string) {
    s != [] && s[|s| - 1] == ' '
  }

  /** `s` ends with `w` in any ASCII case. */
  predicate EndsWithIgnoreCase(s: string, w: string) {
    |s| >= |w| && EqualsIgnoreCase(s[|s| - |w|..], w)
  }

  /** `/(AND|OR)\s+$/i`: an operator's letters followed by at least one
      whitespace character up to the end. */
  predicate EndsWithOperatorThenSpace(s: string) {
    var t := TrimEnd(s);
    |t| < |s| && (EndsWithIgnoreCase(t, "AND") || EndsWithIgnoreCase(t, "OR"))
  }

  /** The join of `appendTermToQuery` as the source has it. */
  function AppendedAsWritten(current: string, term: string): string {
    var needsAnd := Trim(current) != [] && !EndsWithSpaceOrParen(current) && !EndsWithOperatorThenSpace(current);
    if Trim(current) == [] then term
    else if needsAnd then current + " AND " + term
    else current + (if EndsWithBlank(current) then "" else " ") + term
  }

  /** The operator test of the source can never decide anything: a query it
      matches ends in whitespace, which the test before it already
      excludes. */
  lemma OperatorTestIsDead(current: string)
    requires EndsWithOperatorThenSpace(current)
    ensures EndsWithSpaceOrParen(current)
  {
    var t := TrimEnd(current);
    assert current[|t|..][|current| - 1 - |t|] == current[|current| - 1];
  }

  /** So as written, a query ending in an operator with nothing after it
      gets a second operator. */
  lemma AsWrittenDoublesOperator(current: string, term: string)
    requires Trim(current) != [] && !EndsWithSpaceOrParen(current)
    requires EndsWithWord(current, "AND")
    ensures AppendedAsWritten(current, term) == current + " AND " + term
  {
    if EndsWithOperatorThenSpace(current) {
      OperatorTestIsDead(current);
    }
  }

  lemma AsWrittenExample()
    ensures AppendedAsWritten("pain AND", "fever") == "pain AND AND fever"
  {
    var c := "pain AND";
    assert !IsSpace(c[0]) && !IsSpace(c[|c| - 1]);
    TrimOfTrimmed(c);
    assert !EndsWithSpaceOrParen(c);
    TrimEndOf(c);
    assert EndsWithWord(c, "AND") by {
      assert TrimEnd(c)[5..] == "AND";
    }
    AsWrittenDoublesOperator(c, "fever");
  }

  /** `current` already ends with a binary operator word that expects the
      term. */
  predicate EndsWithBinaryOperator(current: string) {
    EndsWithWord(current, "AND") || EndsWithWord(current, "OR")
  }

  /** The join with the operator test the source evidently means: no `AND`
      is added after a trailing `AND` or `OR`. */
  function Appended(current: string, term: string): (r: string)
    ensures Trim(current) == [] ==> r == term
    ensures Trim(current) != [] ==>
      r == current + " AND " + term || r == current + " " + term || r == current + term
  {
    if Trim(current) == [] then term
    else
      var sep := Joiner(current);
      current + sep + term
  }

  /** What goes between a nonblank query and the term: `AND` unless the
      query ends in whitespace, `(` or an operator, otherwise a space if
      the query does not end in one already. */
  function Joiner(current: string): (sep: string)
    ensures sep == " AND " || sep == " " || sep == ""
  {
    if !EndsWithSpaceOrParen(current) && !EndsWithBinaryOperator(current) then " AND "
    else if EndsWithBlank(current) then "" else " "
  }

  /** `AND` is added exactly after a word, a quote or `)`; otherwise a space
      is added unless the query ends in one. */
  lemma JoinerCases(current: string)
    ensures var sep := Joiner(current);
      && (sep == " AND " <==> !EndsWithSpaceOrParen(current) && !EndsWithBinaryOperator(current))
      && (sep == "" <==> sep != " AND " && EndsWithBlank(current))
      && (sep == " " <==> sep != " AND " && !EndsWithBlank(current))
  {
  }

  /** A trailing operator is followed by the term alone. */
  lemma AppendedAfterOperator(current: string, term: string)
    requires Trim(current) != [] && EndsWithBinaryOperator(current)
    ensures Appended(current, term) == current + (if EndsWithBlank(current) then "" else " ") + term
  {
  }

  /** A query ending in a word, a quote or `)` is joined to the term by
      `AND`. */
  lemma AppendedAfterWord(current: string, term: string)
    requires Trim(current) != [] && !EndsWithSpaceOrParen(current) && !EndsWithBinaryOperator(current)
    ensures Appended(current, term) == current + " AND " + term
  {
  }

  /** The correction only changes the join after a trailing `AND` or `OR`
      that has nothing after it. */
  lemma AppendedAgreesElsewhere(current: string, term: string)
    requires EndsWithSpaceOrParen(current) || !EndsWithBinaryOperator(current)
    ensures Appended(current, term) == AppendedAsWritten(current, term)
  {
    if EndsWithOperatorThenSpace(current) {
      OperatorTestIsDead(current);
    }
  }

  lemma AppendedExample()
    ensures Appended("pain AND", "fever") == "pain AND fever"
  {
    var c := "pain AND";
    assert !IsSpace(c[0]) && !IsSpace(c[|c| - 1]);
    TrimOfTrimmed(c);
    TrimEndOf(c);
    assert EndsWithWord(c, "AND") by {
      assert TrimEnd(c)[5..] == "AND";
    }
  }

  /** A character that may stand in a bare search word. */
  predicate WordChar(c: char) {
    !IsSpace(c) && c != '(' && c != ')' && c != '"'
  }

  /** A single search word: no whitespace, parenthesis or quote. */
  predicate BareWord(term: string) {
    term != [] && forall i :: 0 <= i < |term| ==> WordChar(term[i])
  }

  /** A bare word that is not an operator, after whitespace or at the start,
      does not leave the query ending in an operator. */
  lemma BareWordEndsNoOperator(prefix: string, term: string, s: string)
    requires s == Trim(prefix + term)
    requires prefix == [] || IsSpace(prefix[|prefix| - 1])
    requires BareWord(term) && !IsOperatorWord(term)
    ensures !EndsWithOperator(s)
  {
    TrimOfWordEnd(prefix, term);
    NoOperatorAtEnd(TrimStart(prefix), term);
  }

  lemma NoOperatorAtEnd(u: string, term: string)
    requires u == [] || IsSpace(u[|u| - 1])
    requires BareWord(term) && !IsOperatorWord(term)
    ensures !EndsWithOperator(u + term)
  {
    NoWordAtEnd(u, term, "AND");
    NoWordAtEnd(u, term, "OR");
    NoWordAtEnd(u, term, "NOT");
  }

  lemma UpperWord(w: string)
    requires w == "AND" || w == "OR" || w == "NOT"
    ensures forall j :: 0 <= j < |w| ==> 'A' <= w[j] <= 'Z'
  {
  }

  /** Trimming `prefix + term` only strips the leading whitespace of
      `prefix`, which then ends in whitespace unless nothing is left. */
  lemma TrimOfWordEnd(prefix: string, term: string)
    requires prefix == [] || IsSpace(prefix[|prefix| - 1])
    requires BareWord(term)
    ensures var u := TrimStart(prefix);
      Trim(prefix + term) == u + term && (u == [] || IsSpace(u[|u| - 1]))
  {
    var q := prefix + term;
    assert q[|q| - 1] == term[|term| - 1] && WordChar(term[|term| - 1]);
    TrimEndOf(q);
    assert WordChar(term[0]);
    TrimStartJoin(prefix, term);
    TrimStartLast(prefix);
  }

  /** A text ending in a bare word that differs from the upper-case word `w`,
      after whitespace or at the start, does not end with `w` as a word. */
  lemma NoWordAtEnd(u: string, term: string, w: string)
    requires u == [] || IsSpace(u[|u| - 1])
    requires BareWord(term) && !EqualsIgnoreCase(term, w)
    requires w == "AND" || w == "OR" || w == "NOT"
    ensures !EndsWithWord(u + term, w)
  {
    var s := u + term;
    var m := |term|;
    assert s[|s| - 1] == term[m - 1] && WordChar(term[m - 1]);
    TrimEndOf(s);
    EndsWithWordOfUntrailed(s, w);
    if |w| < m {
      assert WordChar(term[m - |w| - 1]);
      ShortWordNotAtEnd(u, term, w);
    } else if |w| > m {
      if |s| >= |w| {
        UpperWord(w);
        assert 'A' <= w[|w| - m - 1] <= 'Z';
        LongWordNotAtEnd(u, term, w);
      }
    } else {
      assert s[|s| - |w|..] == term;
    }
  }

  /** A word shorter than the bare word at the end would need whitespace
      inside that bare word. */
  lemma ShortWordNotAtEnd(u: string, term: string, w: string)
    requires |w| < |term| && !IsSpace(term[|term| - |w| - 1])
    ensures !WordAtEndOf(u + term, w)
  {
    var s := u + term;
    assert s[|s| - |w| - 1] == term[|term| - |w| - 1];
  }

  /** A word longer than the bare word at the end would need a letter where
      the whitespace before the bare word stands. */
  lemma LongWordNotAtEnd(u: string, term: string, w: string)
    requires u != [] && IsSpace(u[|u| - 1])
    requires |term| < |w| <= |u| + |term| && 'A' <= w[|w| - |term| - 1] <= 'Z'
    ensures !WordAtEndOf(u + term, w)
  {
    var s := u + term;
    var t := s[|s| - |w|..];
    assert t[|w| - |term| - 1] == u[|u| - 1];
    LetterAgainstSpace(t, w, |w| - |term| - 1);
  }

  /** A whitespace character where `w` has a letter rules out a
      case-insensitive match. */
  lemma LetterAgainstSpace(t: string, w: string, j: int)
    requires |t| == |w| && 0 <= j < |w| && IsSpace(t[j]) && 'A' <= w[j] <= 'Z'
    ensures !EqualsIgnoreCase(t, w)
  {
  }

  /** Appending a bare word that is not an operator to a query whose
      parentheses and quotes are in order gives a query the search runs,
      whatever the query ended with. */
  lemma AppendedRunnable(current: string, term: string)
    requires Count(current, '(') <= Count(current, ')') && Count(current, '"') % 2 == 0
    requires BareWord(term) && !IsOperatorWord(term)
    ensures RunnableQuery(Appended(current, term))
  {
    var prefix := AppendedSplit(current, term);
    JoinedRunnable(prefix, term, Appended(current, term));
  }

  /** The text `Appended` puts before the term: nothing, or the query and a
      separator ending in a space, with the query's parentheses and
      quotes. */
  lemma AppendedSplit(current: string, term: string) returns (prefix: string)
    requires Count(current, '(') <= Count(current, ')') && Count(current, '"') % 2 == 0
    ensures Appended(current, term) == prefix + term
    ensures prefix == [] || IsSpace(prefix[|prefix| - 1])
    ensures Count(prefix, '(') <= Count(prefix, ')') && Count(prefix, '"') % 2 == 0
  {
    if Trim(current) == [] {
      prefix := [];
      assert Appended(current, term) == [] + term;
    } else {
      var sep := Joiner(current);
      prefix := current + sep;
      if sep == "" {
        EmptyJoinerAfterBlank(current);
        assert prefix == current;
      } else {
        assert prefix[|prefix| - 1] == sep[|sep| - 1];
      }
      SeparatorCount(current, sep, '(');
      SeparatorCount(current, sep, ')');
      SeparatorCount(current, sep, '"');
    }
  }

  lemma EmptyJoinerAfterBlank(current: string)
    requires Joiner(current) == ""
    ensures EndsWithBlank(current)
  {
  }

  lemma SeparatorCount(current: string, sep: string, c: char)
    requires sep == " AND " || sep == " " || sep == ""
    requires c == '(' || c == ')' || c == '"'
    ensures Count(current + sep, c) == Count(current, c)
  {
    CountConcat(current, sep, c);
    CountAbsent(sep, c);
  }

  /** A bare word after whitespace, or alone, ends a query the search runs
      once the text before it has its parentheses and quotes in order. */
  lemma JoinedRunnable(prefix: string, term: string, r: string)
    requires r == prefix + term
    requires prefix == [] || IsSpace(prefix[|prefix| - 1])
    requires Count(prefix, '(') <= Count(prefix, ')') && Count(prefix, '"') % 2 == 0
    requires BareWord(term) && !IsOperatorWord(term)
    ensures RunnableQuery(r)
  {
    var s := Trim(r);
    JoinedTrim(prefix, term, r, s);
    RunnableOf(r, s);
  }

  /** What the search checks, read off the trimmed join. */
  lemma JoinedTrim(prefix: string, term: string, r: string, s: string)
    requires r == prefix + term && s == Trim(r)
    requires prefix == [] || IsSpace(prefix[|prefix| - 1])
    requires Count(prefix, '(') <= Count(prefix, ')') && Count(prefix, '"') % 2 == 0
    requires BareWord(term) && !IsOperatorWord(term)
    ensures s != [] && !EndsWithOperator(s) && Balance(s) <= 0 && Count(s, '"') % 2 == 0
  {
    BareWordEndsNoOperator(prefix, term, s);
    JoinedNonEmpty(prefix, term, s);
    JoinedCount(prefix, term, r, s, '(');
    JoinedCount(prefix, term, r, s, ')');
    JoinedCount(prefix, term, r, s, '"');
  }

  lemma JoinedNonEmpty(prefix: string, term: string, s: string)
    requires s == Trim(prefix + term)
    requires prefix == [] || IsSpace(prefix[|prefix| - 1])
    requires BareWord(term)
    ensures s != []
  {
    TrimOfWordEnd(prefix, term);
  }

  lemma JoinedCount(prefix: string, term: string, r: string, s: string, c: char)
    requires r == prefix + term && s == Trim(r)
    requires BareWord(term) && (c == '(' || c == ')' || c == '"')
    ensures Count(s, c) == Count(prefix, c)
  {
    assert !IsSpace(c);
    TrimKeepsCount(r, c);
    assert Count(s, c) == Count(r, c);
    CountConcat(prefix, term, c);
    BareWordCount(term, c);
  }

  /** A bare word holds no parenthesis and no quote. */
  lemma BareWordCount(term: string, c: char)
    requires BareWord(term) && (c == '(' || c == ')' || c == '"')
    ensures Count(term, c) == 0
  {
    forall i | 0 <= i < |term|
      ensures term[i] != c
    {
      assert WordChar(term[i]);
    }
    CountAbsent(term, c);
  }

  /** The verdict of the search on `q`, given its trimmed form. */
  lemma RunnableOf(q: string, s: string)
    requires s == Trim(q) && s != [] && !EndsWithOperator(s)
    requires Balance(s) <= 0 && Count(s, '"') % 2 == 0
    ensures RunnableQuery(q)
  {
  }

  /** The study query box: its text and its selection. `None` is a
      selection the input type does not support. */
  class QueryInput {
    var value: string
    var selectionStart: Option<nat>
    var selectionEnd: Option<nat>

    constructor (initial: string, start: Option<nat>, end: Option<nat>)
      ensures value == initial && selectionStart == start && selectionEnd == end
    {
      value := initial;
      selectionStart := start;
      selectionEnd := end;
    }

    /** `input.value = v`. Setting a different value moves the caret to the
        end of the new text, as the HTML standard's value setter does. */
    method SetValue(v: string)
      modifies this
      ensures value == v
      ensures old(value) != v && old(selectionStart).Some? ==>
        selectionStart == Some(|v|) && selectionEnd == Some(|v|)
      ensures old(value) == v || old(selectionStart).None? ==>
        selectionStart == old(selectionStart) && selectionEnd == old(selectionEnd)
    {
      if value != v && selectionStart.Some? {
        selectionStart, selectionEnd := Some(|v|), Some(|v|);
      }
      value := v;
    }

    /** `insertSymbol`: replaces the selection with the symbol, spaced when
        it is an operator word, and puts the caret right after it. Where
        the input has no selection, `setSelectionRange` fails and is
        ignored. */
    method InsertSymbol(sym: string)
      modifies this
      ensures var start := old(selectionStart).GetOr(|old(value)|);
        var end := old(selectionEnd).GetOr(start);
        var before := Prefix(old(value), start);
        var after := Suffix(old(value), end);
        var text := InsertedText(sym, before, after);
        && value == before + text + after
        && (old(selectionStart).Some? ==>
              selectionStart == Some(|before + text|) && selectionEnd == Some(|before + text|))
        && (old(selectionStart).None? ==> selectionStart.None? && selectionEnd == old(selectionEnd))
    {
      var start := selectionStart.GetOr(|value|);
      var end := selectionEnd.GetOr(start);
      var before := Prefix(value, start);
      var after := Suffix(value, end);
      var text := InsertedText(sym, before, after);
      var hasSelection := selectionStart.Some?;
      SetValue(before + text + after);
      if hasSelection {
        var caret := |before + text|;
        selectionStart, selectionEnd := Some(caret), Some(caret);
      }
    }

    /** `appendTermToQuery`, with the operator test of `Appended`. */
    method AppendTerm(term: string)
      modifies this
      ensures value == Appended(old(value), term)
      ensures old(value) == value || old(selectionStart).None? ==>
        selectionStart == old(selectionStart) && selectionEnd == old(selectionEnd)
      ensures old(value) != value && old(selectionStart).Some? ==>
        selectionStart == Some(|value|) && selectionEnd == Some(|value|)
    {
      SetValue(Appended(value, term));
    }
  }
}
