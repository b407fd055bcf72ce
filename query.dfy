/** `isRunnableQuery`: decides whether a boolean query typed into the study
    search box is complete enough to send. */
module Query {
  import opened Text

  /** After its trailing whitespace, `s` ends with the word `w` (in any
      ASCII case), and the word is at the start of `s` or follows whitespace. */
  predicate EndsWithWord(s: string, w: string) {
    WordAtEndOf(TrimEnd(s), w)
  }

  /** `t` ends with the word `w`, which starts `t` or follows whitespace. */
  predicate WordAtEndOf(t: string, w: string) {
    |t| >= |w| && EqualsIgnoreCase(t[|t| - |w|..], w) && (|t| == |w| || IsSpace(t[|t| - |w| - 1]))
  }

  /** `/(?:^|\s)(AND|OR|NOT)\s*$/i.test(s)`. */
  predicate EndsWithOperator(s: string) {
    EndsWithWord(s, "AND") || EndsWithWord(s, "OR") || EndsWithWord(s, "NOT")
  }

  /** Depth of parentheses at the end of `s`: opened minus closed. */
  function Balance(s: string): int {
    Count(s, '(') - Count(s, ')')
  }

  /** The verdict the source computes, written with whole-string counts. */
  predicate RunnableQuery(q: string) {
    var s := Trim(q);
    && s != []
    && !EndsWithOperator(s)
    && Balance(s) <= 0
    && Count(s, '"') % 2 == 0
  }

  /** The source's check. */
  method IsRunnableQuery(q: string) returns (ok: bool)
    ensures ok == RunnableQuery(q)
  {
    var s := Trim(q);
    if s == [] {
      return false;
    }
    if EndsWithOperator(s) {
      return false;
    }
    var bal := ParenBalance(s);
    if bal > 0 {
      return false;
    }
    var quotes := Count(s, '"');
    if quotes % 2 == 1 {
      return false;
    }
    return true;
  }

  /** The running parenthesis counter of `isRunnableQuery`: one up for each
      `(`, one down for each `)`. */
  method ParenBalance(s: string) returns (bal: int)
    ensures bal == Count(s, '(') - Count(s, ')')
  {
    bal := 0;
    for i := 0 to |s|
      invariant bal == Balance(s[..i])
    {
      assert s[..i + 1] == s[..i] + [s[i]];
      CountConcat(s[..i], [s[i]], '(');
      CountConcat(s[..i], [s[i]], ')');
      if s[i] == '(' {
        bal := bal + 1;
      } else if s[i] == ')' {
        bal := bal - 1;
      }
    }
    assert s[..|s|] == s;
  }

  /** The regular expression's own reading of a match at `k`: the word
      starts `s` or follows whitespace, and only whitespace comes after it. */
  predicate WordEndsAt(s: string, w: string, k: int) {
    && 0 <= k && k + |w| <= |s| && (k == 0 || IsSpace(s[k - 1]))
    && EqualsIgnoreCase(s[k..k + |w|], w) && AllSpace(s[k + |w|..])
  }

  /** For a text without trailing whitespace, `EndsWithWord` reads the text
      itself. */
  lemma EndsWithWordOfUntrailed(s: string, w: string)
    requires TrimEnd(s) == s
    ensures EndsWithWord(s, w) <==> WordAtEndOf(s, w)
  {
  }

  /** A match found by the regular expression means `EndsWithWord`. */
  lemma WordEndsAtEndsWithWord(s: string, w: string, k: int)
    requires w != [] && 'A' <= w[|w| - 1] <= 'Z'
    requires WordEndsAt(s, w, k)
    ensures EndsWithWord(s, w)
  {
    var l := k + |w|;
    // The word's last character is a letter, so the trailing whitespace
    // that TrimEnd removes starts exactly at l.
    assert UpperChar(s[k..l][|w| - 1]) == UpperChar(w[|w| - 1]);
    assert s[l - 1] == s[k..l][|w| - 1];
    TrimEndAt(s, l);
    var t := TrimEnd(s);
    assert t[k..] == s[k..l];
    assert k > 0 ==> t[k - 1] == s[k - 1];
  }

  /** `EndsWithWord` means the regular expression finds a match. */
  lemma EndsWithWordWordEndsAt(s: string, w: string)
    requires EndsWithWord(s, w)
    ensures WordEndsAt(s, w, |TrimEnd(s)| - |w|)
  {
    var t := TrimEnd(s);
    var k := |t| - |w|;
    assert s[k..k + |w|] == t[k..];
    assert s[k + |w|..] == s[|t|..];
    assert k > 0 ==> s[k - 1] == t[k - 1];
  }

  /** `EndsWithWord` holds exactly when the regular expression
      `(?:^|\s)w\s*$` (case-insensitive) finds a match at some position. */
  lemma EndsWithWordIsSplit(s: string, w: string)
    requires w != [] && 'A' <= w[|w| - 1] <= 'Z'
    ensures EndsWithWord(s, w) <==> exists k :: WordEndsAt(s, w, k)
  {
    if EndsWithWord(s, w) {
      EndsWithWordWordEndsAt(s, w);
    }
    if k :| WordEndsAt(s, w, k) {
      WordEndsAtEndsWithWord(s, w, k);
    }
  }

  /** A query whose last token is an operator word, in any case and with any
      trailing whitespace, is not runnable. */
  lemma TrailingOperatorNotRunnable(prefix: string, word: string, tail: string)
    requires prefix == [] || IsSpace(prefix[|prefix| - 1])
    requires EqualsIgnoreCase(word, "AND") || EqualsIgnoreCase(word, "OR") || EqualsIgnoreCase(word, "NOT")
    requires AllSpace(tail)
    ensures !RunnableQuery(prefix + word + tail)
  {
    var s := Trim(prefix + word + tail);
    OperatorWordEnds(word);
    TrimOfJoin(prefix, word, tail, s);
    TrimStartLast(prefix);
    OperatorAtEnd(TrimStart(prefix), word, s);
  }

  /** An operator word neither starts nor ends with whitespace. */
  lemma OperatorWordEnds(word: string)
    requires EqualsIgnoreCase(word, "AND") || EqualsIgnoreCase(word, "OR") || EqualsIgnoreCase(word, "NOT")
    ensures word != [] && !IsSpace(word[0]) && !IsSpace(word[|word| - 1])
  {
    var w := if EqualsIgnoreCase(word, "AND") then "AND" else if EqualsIgnoreCase(word, "OR") then "OR" else "NOT";
    assert UpperChar(word[0]) == UpperChar(w[0]);
    assert UpperChar(word[|word| - 1]) == UpperChar(w[|w| - 1]);
    LetterNotSpace(word[0]);
    LetterNotSpace(word[|word| - 1]);
  }

  /** An operator word after whitespace, or alone, ends the text as an
      operator. */
  lemma OperatorAtEnd(u: string, word: string, s: string)
    requires s == u + word && (u == [] || IsSpace(u[|u| - 1]))
    requires EqualsIgnoreCase(word, "AND") || EqualsIgnoreCase(word, "OR") || EqualsIgnoreCase(word, "NOT")
    requires word != [] && !IsSpace(word[|word| - 1])
    ensures EndsWithOperator(s)
  {
    if EqualsIgnoreCase(word, "AND") {
      WordAtEnd(u, word, "AND");
    } else if EqualsIgnoreCase(word, "OR") {
      WordAtEnd(u, word, "OR");
    } else {
      WordAtEnd(u, word, "NOT");
    }
  }

  /** Trimming `prefix + word + tail`, where the word has no whitespace at
      either end and the tail is all whitespace, leaves the word after what
      is left of `prefix`. */
  lemma TrimOfJoin(prefix: string, word: string, tail: string, s: string)
    requires s == Trim(prefix + word + tail)
    requires word != [] && !IsSpace(word[0]) && !IsSpace(word[|word| - 1]) && AllSpace(tail)
    ensures s == TrimStart(prefix) + word
  {
    var pw := prefix + word;
    assert pw[|pw| - 1] == word[|word| - 1];
    TrimEndOfTail(pw, tail);
    TrimStartJoin(prefix, word);
  }

  /** Leading whitespace is only stripped from `prefix` when `word` does
      not start with whitespace. */
  lemma TrimStartJoin(prefix: string, word: string)
    requires word != [] && !IsSpace(word[0])
    ensures TrimStart(prefix + word) == TrimStart(prefix) + word
  {
    TrimStartConcat(prefix, word);
    if TrimStart(prefix) == [] {
      assert TrimStart(word) == [] + word;
    }
  }

  /** What is left after TrimStart ends as the whole did. */
  lemma TrimStartLast(s: string)
    ensures var r := TrimStart(s); r == [] || r[|r| - 1] == s[|s| - 1]
  {
  }

  /** Whitespace after a non-whitespace character is what TrimEnd strips. */
  lemma TrimEndOfTail(a: string, tail: string)
    requires a != [] && !IsSpace(a[|a| - 1]) && AllSpace(tail)
    ensures TrimEnd(a + tail) == a
  {
    var s := a + tail;
    assert s[..|a|] == a && s[|a|..] == tail && s[|a| - 1] == a[|a| - 1];
    TrimEndAt(s, |a|);
  }

  /** A word after whitespace, or alone, ends the text as a word. */
  lemma WordAtEnd(u: string, word: string, w: string)
    requires u == [] || IsSpace(u[|u| - 1])
    requires EqualsIgnoreCase(word, w) && word != [] && !IsSpace(word[|word| - 1])
    ensures EndsWithWord(u + word, w)
  {
    var s := u + word;
    assert s[|s| - 1] == word[|word| - 1];
    TrimEndOf(s);
    assert s[|s| - |w|..] == word;
    if |s| > |w| {
      assert s[|s| - |w| - 1] == u[|u| - 1];
    }
  }

  /** Stripping leading whitespace from `prefix + word`, where `word` starts
      with a letter, only eats into `prefix`. */
  lemma TrimStartOfWordEnd(prefix: string, word: string)
    requires word != [] && !IsSpace(word[0])
    requires prefix == [] || IsSpace(prefix[|prefix| - 1])
    ensures var s := TrimStart(prefix + word);
      |s| >= |word| && s[|s| - |word|..] == word
      && (|s| > |word| ==> s[|s| - |word| - 1] == prefix[|prefix| - 1])
  {
    TrimStartConcat(prefix, word);
    var t := TrimStart(prefix);
    if t != [] {
      var s := t + word;
      assert s[|s| - |word|..] == word;
      assert s[|s| - |word| - 1] == t[|t| - 1] == prefix[|prefix| - 1];
    }
  }

  /** An unclosed `(` anywhere in the query makes it not runnable: whitespace
      trimming never removes a parenthesis. */
  lemma UnclosedParenNotRunnable(q: string)
    requires Count(q, '(') > Count(q, ')')
    ensures !RunnableQuery(q)
  {
    TrimKeepsCount(q, '(');
    TrimKeepsCount(q, ')');
  }

  /** An odd number of double quotes makes the query not runnable. */
  lemma OddQuotesNotRunnable(q: string)
    requires Count(q, '"') % 2 == 1
    ensures !RunnableQuery(q)
  {
    TrimKeepsCount(q, '"');
  }

  /** A trimmed query whose last character differs from the operator's
      last letter does not end with that operator. */
  lemma NotEndsWithWordByLast(s: string, w: string)
    requires Trimmed(s) && s != [] && w != []
    requires UpperChar(s[|s| - 1]) != UpperChar(w[|w| - 1])
    ensures !EndsWithWord(s, w)
  {
    TrimEndOf(s);
    if |s| >= |w| {
      var e := s[|s| - |w|..];
      assert e[|w| - 1] == s[|s| - 1];
    }
  }

  /** A trimmed query that ends in neither `D`, `R` nor `T` (in any case)
      does not end with an operator. */
  lemma NoOperatorByLast(s: string)
    requires Trimmed(s) && s != []
    requires UpperChar(s[|s| - 1]) !in {'D', 'R', 'T'}
    ensures !EndsWithOperator(s)
  {
    NotEndsWithWordByLast(s, "AND");
    NotEndsWithWordByLast(s, "OR");
    NotEndsWithWordByLast(s, "NOT");
  }

  /** Only a surplus of `(` is rejected: a query with an extra `)` still
      passes the check. */
  lemma ExtraCloseParenRunnable()
    ensures RunnableQuery("a)")
  {
    TrimOfTrimmed("a)");
    NoOperatorByLast("a)");
  }

  /** The check counts parentheses without looking at their order, so `)a(`
      passes even though its `)` closes nothing. */
  lemma MisorderedParensRunnable()
    ensures RunnableQuery(")a(")
  {
    TrimOfTrimmed(")a(");
    NoOperatorByLast(")a(");
  }

  lemma UnclosedParenExample()
    ensures !RunnableQuery("(a")
  {
    assert "(a"[1..] == "a" && "a"[1..] == [];
    UnclosedParenNotRunnable("(a");
  }

  lemma PlainQueryRunnable()
    ensures RunnableQuery("a AND b")
  {
    var s := "a AND b";
    TrimOfTrimmed(s);
    NoOperatorByLast(s);
    LettersAndSpaces(s, '(');
    LettersAndSpaces(s, ')');
    LettersAndSpaces(s, '"');
  }

  /** Text made of letters and spaces holds none of the other characters. */
  lemma LettersAndSpaces(s: string, c: char)
    requires forall i :: 0 <= i < |s| ==> s[i] == ' ' || 'A' <= UpperChar(s[i]) <= 'Z'
    requires c != ' ' && !('A' <= UpperChar(c) <= 'Z')
    ensures Count(s, c) == 0
  {
    CountAbsent(s, c);
  }

  /** A lowercase operator followed by a space still counts as a dangling
      operator. */
  lemma LowercaseTrailingOperator()
    ensures !RunnableQuery("pain and ")
  {
    assert "pain and " == "pain " + "and" + " ";
    TrailingOperatorNotRunnable("pain ", "and", " ");
  }

  /** A word merely ending in an operator's letters is not an operator. */
  lemma WordEndingInAndRunnable()
    ensures RunnableQuery("brand")
  {
    var s := "brand";
    TrimOfTrimmed(s);
    TrimEndOf(s);
    assert !IsSpace(s[1]);
    NotEndsWithWordByLast(s, "OR");
    NotEndsWithWordByLast(s, "NOT");
  }

  lemma BlankNotRunnable()
    ensures !RunnableQuery("   ")
  {
    assert TrimEnd("   ") == [];
  }

  lemma OpenQuoteNotRunnable()
    ensures !RunnableQuery("\"pain")
  {
    OddQuotesNotRunnable("\"pain");
  }
}
