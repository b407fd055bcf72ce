/** `normalizeBooleanQuery`: three global regular-expression replacements
    that collapse whitespace, parenthesise the operands of a bare binary
    `AND`/`OR`, and parenthesise the operand of `NOT`.

    Each replacement is a leftmost, non-overlapping scan, as
    `String.prototype.replace` with a `g` flag performs it: the pattern is
    tried at each position from where the last match ended, and the scan
    continues after each match. The patterns are modelled by `MatchAt`, which
    decides what the regular expression matches when it is tried at one
    position; the greedy groups of these patterns never need to give back
    characters (a term run is followed by whitespace, a whitespace run by a
    letter), so each run is maximal. */
module Rewrite {
  import opened Wrappers
  import opened Text

  /** `[^\s()"']`: a character of a bare term. */
  predicate IsTermChar(c: char) {
    !IsSpace(c) && c != '(' && c != ')' && c != '"' && c != '\''
  }

  /** The three patterns of `normalizeBooleanQuery`, in the order applied:
      `/\s+/g`, the binary-operator pattern and the `NOT` pattern. */
  datatype Pattern = SpaceRun | BinaryOp | NotOp

  /** A match ending at `end`, and the text that replaces it. */
  datatype Match = Match(end: nat, replacement: string)

  /** End of the maximal whitespace run starting at `i`. */
  function SpaceRunEnd(s: string, i: nat): (e: nat)
    requires i <= |s|
    ensures i <= e <= |s|
    ensures forall k :: i <= k < e ==> IsSpace(s[k])
    ensures e == |s| || !IsSpace(s[e])
    decreases |s| - i
  {
    if i < |s| && IsSpace(s[i]) then SpaceRunEnd(s, i + 1) else i
  }

  /** End of the maximal term run starting at `i`. */
  function TermRunEnd(s: string, i: nat): (e: nat)
    requires i <= |s|
    ensures i <= e <= |s|
    ensures forall k :: i <= k < e ==> IsTermChar(s[k])
    ensures e == |s| || !IsTermChar(s[e])
    decreases |s| - i
  {
    if i < |s| && IsTermChar(s[i]) then TermRunEnd(s, i + 1) else i
  }

  /** `(?=[\s)]|$)`: what may follow the last term. */
  predicate TermBoundary(s: string, i: nat)
    requires i <= |s|
  {
    i == |s| || IsSpace(s[i]) || s[i] == ')'
  }

  /** The groups of the binary-operator pattern: the left term
      `s[a0..a1]`, the operator `s[o0..o1]` (written `op` in upper case)
      and the right term `s[b0..b1]`. */
  datatype BinaryGroups = BinaryGroups(a1: nat, o0: nat, o1: nat, b0: nat, b1: nat, op: string)

  /** What the binary-operator pattern demands of its groups when its first
      group starts at `a0`. */
  predicate BinaryShape(s: string, a0: nat, g: BinaryGroups) {
    && a0 < g.a1 < g.o0 < g.o1 < g.b0 < g.b1 <= |s|
    && (forall k :: a0 <= k < g.a1 ==> IsTermChar(s[k]))
    && (forall k :: g.a1 <= k < g.o0 ==> IsSpace(s[k]))
    && (g.op == "OR" || g.op == "AND") && EqualsIgnoreCase(s[g.o0..g.o1], g.op)
    && (forall k :: g.o1 <= k < g.b0 ==> IsSpace(s[k]))
    && (forall k :: g.b0 <= k < g.b1 ==> IsTermChar(s[k]))
    && TermBoundary(s, g.b1)
  }

  /** `([^\s()"']+)\s+(OR|AND)\s+([^\s()"']+)(?=[\s)]|$)` (case-insensitive),
      tried with its first group starting at `a0`. */
  function ParseBinary(s: string, a0: nat): (r: Option<BinaryGroups>)
    requires a0 <= |s|
    ensures r.Some? ==> BinaryShape(s, a0, r.value)
  {
    var a1 := TermRunEnd(s, a0);
    var o0 := SpaceRunEnd(s, a1);
    var op := OperatorAt(s, o0);
    if a1 == a0 || o0 == a1 || |op| == 0 then None
    else
      var o1 := o0 + |op|;
      var b0 := SpaceRunEnd(s, o1);
      var b1 := TermRunEnd(s, b0);
      if b0 == o1 || b1 == b0 || !TermBoundary(s, b1) then None
      else Some(BinaryGroups(a1, o0, o1, b0, b1, op))
  }

  /** `(OR|AND)` (case-insensitive) at `i`: the operator found, in upper
      case, or the empty string. */
  function OperatorAt(s: string, i: nat): (op: string)
    requires i <= |s|
    ensures op == "" || op == "OR" || op == "AND"
    ensures op != "" ==> i + |op| <= |s| && EqualsIgnoreCase(s[i..i + |op|], op)
  {
    if i + 2 <= |s| && EqualsIgnoreCase(s[i..i + 2], "OR") then "OR"
    else if i + 3 <= |s| && EqualsIgnoreCase(s[i..i + 3], "AND") then "AND"
    else ""
  }

  /** The groups of the `NOT` pattern: the operand `s[t0..t1]`. */
  datatype NotGroups = NotGroups(t0: nat, t1: nat)

  /** What the `NOT` pattern demands of its group when `NOT` starts at
      `n0`. */
  predicate NotShape(s: string, n0: nat, g: NotGroups) {
    && n0 + 3 < g.t0 < g.t1 <= |s|
    && EqualsIgnoreCase(s[n0..n0 + 3], "NOT")
    && (forall k :: n0 + 3 <= k < g.t0 ==> IsSpace(s[k]))
    && (forall k :: g.t0 <= k < g.t1 ==> IsTermChar(s[k]))
    && TermBoundary(s, g.t1)
  }

  /** `NOT\s+([^\s()"']+)(?=[\s)]|$)` (case-insensitive), tried with `NOT`
      starting at `n0`. */
  function ParseNot(s: string, n0: nat): (r: Option<NotGroups>)
    requires n0 <= |s|
    ensures r.Some? ==> NotShape(s, n0, r.value)
  {
    if n0 + 3 > |s| || !EqualsIgnoreCase(s[n0..n0 + 3], "NOT") then None
    else
      var t0 := SpaceRunEnd(s, n0 + 3);
      var t1 := TermRunEnd(s, t0);
      if t0 == n0 + 3 || t1 == t0 || !TermBoundary(s, t1) then None
      else Some(NotGroups(t0, t1))
  }

  /** `(^|[\s(])`: the first group starts right at `p` when `p` is the start
      of the string (`^`, tried first), or after one whitespace or `(`
      character at `p`. */
  predicate LeadOk(s: string, p: nat)
    requires p < |s|
  {
    IsSpace(s[p]) || s[p] == '('
  }

  function Parenthesised(a: string): string {
    "(" + a + ")"
  }

  /** `${pre}(${a}) ${OP} (${b})`. */
  function BinaryReplacement(s: string, p: nat, a0: nat, g: BinaryGroups): string
    requires p <= a0 < g.a1 <= g.b0 < g.b1 <= |s|
  {
    s[p..a0] + Parenthesised(s[a0..g.a1]) + (" " + g.op + " ") + Parenthesised(s[g.b0..g.b1])
  }

  /** `${pre}NOT (${a})`. */
  function NotReplacement(s: string, p: nat, n0: nat, g: NotGroups): string
    requires p <= n0 && g.t0 < g.t1 <= |s| && n0 <= g.t0
  {
    s[p..n0] + "NOT " + Parenthesised(s[g.t0..g.t1])
  }

  function BinaryMatchFrom(s: string, p: nat, a0: nat): Option<Match>
    requires p <= a0 <= |s|
  {
    match ParseBinary(s, a0)
    case Some(g) => Some(Match(g.b1, BinaryReplacement(s, p, a0, g)))
    case None => None
  }

  function NotMatchFrom(s: string, p: nat, n0: nat): Option<Match>
    requires p <= n0 <= |s|
  {
    match ParseNot(s, n0)
    case Some(g) => Some(Match(g.t1, NotReplacement(s, p, n0, g)))
    case None => None
  }

  /** What the pattern matches when tried at position `p`, and the text the
      source substitutes for it. */
  function MatchAt(pat: Pattern, s: string, p: nat): (r: Option<Match>)
    requires p < |s|
    ensures r.Some? ==> p < r.value.end <= |s|
  {
    match pat
    case SpaceRun => SpaceMatchAt(s, p)
    case BinaryOp => BinaryMatchAt(s, p)
    case NotOp => NotMatchAt(s, p)
  }

  /** `/\s+/` replaced by one space. */
  function SpaceMatchAt(s: string, p: nat): Option<Match>
    requires p < |s|
  {
    if IsSpace(s[p]) then Some(Match(SpaceRunEnd(s, p), " ")) else None
  }

  function BinaryMatchAt(s: string, p: nat): Option<Match>
    requires p < |s|
  {
    if p == 0 && BinaryMatchFrom(s, 0, 0).Some? then BinaryMatchFrom(s, 0, 0)
    else if LeadOk(s, p) then BinaryMatchFrom(s, p, p + 1)
    else None
  }

  function NotMatchAt(s: string, p: nat): Option<Match>
    requires p < |s|
  {
    if p == 0 && NotMatchFrom(s, 0, 0).Some? then NotMatchFrom(s, 0, 0)
    else if LeadOk(s, p) then NotMatchFrom(s, p, p + 1)
    else None
  }

  /** The global replacement of `pat` in `s[last..]`, where the text from
      `last` to `p` has been scanned without a match. */
  function ReplaceFrom(pat: Pattern, s: string, last: nat, p: nat): string
    requires last <= p <= |s|
    decreases |s| - p
  {
    if p == |s| then s[last..]
    else match MatchAt(pat, s, p)
      case Some(m) => s[last..p] + m.replacement + ReplaceFrom(pat, s, m.end, m.end)
      case None => ReplaceFrom(pat, s, last, p + 1)
  }

  /** `s.replace(/pattern/gi, ...)`. */
  function ReplaceAll(pat: Pattern, s: string): string {
    ReplaceFrom(pat, s, 0, 0)
  }

  /** `normalizeBooleanQuery(q)`. */
  function NormalizeBooleanQuery(q: string): string {
    var s := Trim(q);
    if s == [] then s
    else ReplaceAll(NotOp, ReplaceAll(BinaryOp, ReplaceAll(SpaceRun, s)))
  }

  // ---------------------------------------------------------------------
  // What normalisation keeps: the skeleton of the query.

  /** The query without its whitespace and parentheses, letters in upper
      case. Normalisation may only add parentheses, change whitespace and
      change the case of the operator words, so it keeps the skeleton. */
  function Skeleton(s: string): string {
    if s == [] then []
    else (if IsSpace(s[0]) || s[0] == '(' || s[0] == ')' then [] else [UpperChar(s[0])]) + Skeleton(s[1..])
  }

  lemma {:induction false} SkeletonConcat(a: string, b: string)
    ensures Skeleton(a + b) == Skeleton(a) + Skeleton(b)
  {
    if a == [] {
      assert a + b == b;
    } else {
      assert (a + b)[1..] == a[1..] + b;
      SkeletonConcat(a[1..], b);
    }
  }

  /** Whitespace has an empty skeleton. */
  lemma {:induction false} SkeletonOfSpaces(w: string)
    requires AllSpace(w)
    ensures Skeleton(w) == []
  {
    if w != [] {
      SkeletonOfSpaces(w[1..]);
    }
  }

  predicate IsUpperWord(w: string) {
    forall i :: 0 <= i < |w| ==> 'A' <= w[i] <= 'Z'
  }

  /** An operator word, in whatever case it was typed, has the upper-case
      word as its skeleton. */
  lemma {:induction false} SkeletonOfWord(x: string, w: string)
    requires EqualsIgnoreCase(x, w) && IsUpperWord(w)
    ensures Skeleton(x) == w
  {
    if x != [] {
      assert UpperChar(x[0]) == UpperChar(w[0]) == w[0];
      assert EqualsIgnoreCase(x[1..], w[1..]) by {
        forall i | 0 <= i < |x| - 1
          ensures UpperChar(x[1..][i]) == UpperChar(w[1..][i])
        {
          assert x[1..][i] == x[i + 1] && w[1..][i] == w[i + 1];
        }
      }
      SkeletonOfWord(x[1..], w[1..]);
      assert w == [w[0]] + w[1..];
    }
  }

  /** Trimming keeps the skeleton. */
  lemma SkeletonOfTrim(s: string)
    ensures Skeleton(Trim(s)) == Skeleton(s)
  {
    SkeletonOfTrimEnd(s);
    SkeletonOfTrimStart(TrimEnd(s));
  }

  lemma SkeletonOfTrimEnd(s: string)
    ensures Skeleton(TrimEnd(s)) == Skeleton(s)
  {
    var e := TrimEnd(s);
    assert s == e + s[|e|..];
    SkeletonConcat(e, s[|e|..]);
    SkeletonOfSpaces(s[|e|..]);
  }

  lemma SkeletonOfTrimStart(s: string)
    ensures Skeleton(TrimStart(s)) == Skeleton(s)
  {
    var t := TrimStart(s);
    var w := s[..|s| - |t|];
    assert s == w + t;
    SkeletonConcat(w, t);
    SkeletonOfSpaces(w);
  }

  /** The binary replacement keeps the skeleton of what it replaces. */
  lemma BinaryMatchSkeleton(s: string, p: nat, a0: nat, g: BinaryGroups)
    requires p <= a0 && BinaryShape(s, a0, g)
    ensures Skeleton(BinaryReplacement(s, p, a0, g)) == Skeleton(s[p..g.b1])
  {
    var P, A, W1, O, W2, B := s[p..a0], s[a0..g.a1], s[g.a1..g.o0], s[g.o0..g.o1], s[g.o1..g.b0], s[g.b0..g.b1];
    assert AllSpace(W1) && AllSpace(W2);
    BinaryPiecesSkeleton(P, A, W1, O, W2, B, g.op);
    SliceConcat(s, p, a0, g.a1);
    SliceConcat(s, p, g.a1, g.o0);
    SliceConcat(s, p, g.o0, g.o1);
    SliceConcat(s, p, g.o1, g.b0);
    SliceConcat(s, p, g.b0, g.b1);
  }

  lemma BinaryPiecesSkeleton(P: string, A: string, W1: string, O: string, W2: string, B: string, op: string)
    requires AllSpace(W1) && AllSpace(W2)
    requires (op == "OR" || op == "AND") && EqualsIgnoreCase(O, op)
    ensures Skeleton(P + Parenthesised(A) + (" " + op + " ") + Parenthesised(B)) == Skeleton(P + A + W1 + O + W2 + B)
  {
    BinaryInputSkeleton(P, A, W1, O, W2, B, op);
    BinaryOutputSkeleton(P, A, B, op);
  }

  lemma BinaryInputSkeleton(P: string, A: string, W1: string, O: string, W2: string, B: string, op: string)
    requires AllSpace(W1) && AllSpace(W2)
    requires (op == "OR" || op == "AND") && EqualsIgnoreCase(O, op)
    ensures Skeleton(P + A + W1 + O + W2 + B) == Skeleton(P) + Skeleton(A) + op + Skeleton(B)
  {
    SkeletonOfWord(O, op);
    SkeletonOfSpaces(W1);
    SkeletonOfSpaces(W2);
    SkeletonOf6(P, A, W1, O, W2, B);
  }

  lemma BinaryOutputSkeleton(P: string, A: string, B: string, op: string)
    requires op == "OR" || op == "AND"
    ensures Skeleton(P + Parenthesised(A) + (" " + op + " ") + Parenthesised(B)) == Skeleton(P) + Skeleton(A) + op + Skeleton(B)
  {
    SkeletonOf4(P, Parenthesised(A), " " + op + " ", Parenthesised(B));
    ParenthesisedSkeleton(A);
    ParenthesisedSkeleton(B);
    SpacedOperatorSkeleton(op);
  }

  lemma ParenthesisedSkeleton(a: string)
    ensures Skeleton(Parenthesised(a)) == Skeleton(a)
  {
    SkeletonConcat("(" + a, ")");
    SkeletonConcat("(", a);
    PunctuationSkeleton();
  }

  lemma SpacedOperatorSkeleton(op: string)
    requires op == "OR" || op == "AND"
    ensures Skeleton(" " + op + " ") == op
  {
    SkeletonConcat(" " + op, " ");
    SkeletonConcat(" ", op);
    SkeletonOfWord(op, op);
    PunctuationSkeleton();
  }

  lemma SkeletonOf6(a: string, b: string, c: string, d: string, e: string, f: string)
    ensures Skeleton(a + b + c + d + e + f)
         == Skeleton(a) + Skeleton(b) + Skeleton(c) + Skeleton(d) + Skeleton(e) + Skeleton(f)
  {
    SkeletonConcat(a + b + c + d + e, f);
    SkeletonConcat(a + b + c + d, e);
    SkeletonOf4(a, b, c, d);
  }

  /** The `NOT` replacement keeps the skeleton of what it replaces. */
  lemma NotMatchSkeleton(s: string, p: nat, n0: nat, g: NotGroups)
    requires p <= n0 && NotShape(s, n0, g)
    ensures Skeleton(NotReplacement(s, p, n0, g)) == Skeleton(s[p..g.t1])
  {
    var P, N, W, T := s[p..n0], s[n0..n0 + 3], s[n0 + 3..g.t0], s[g.t0..g.t1];
    assert AllSpace(W);
    NotPiecesSkeleton(P, N, W, T);
    SliceConcat(s, p, n0, n0 + 3);
    SliceConcat(s, p, n0 + 3, g.t0);
    SliceConcat(s, p, g.t0, g.t1);
  }

  lemma NotPiecesSkeleton(P: string, N: string, W: string, T: string)
    requires AllSpace(W) && EqualsIgnoreCase(N, "NOT")
    ensures Skeleton(P + "NOT " + Parenthesised(T)) == Skeleton(P + N + W + T)
  {
    NotInputSkeleton(P, N, W, T);
    NotOutputSkeleton(P, T);
  }

  lemma NotInputSkeleton(P: string, N: string, W: string, T: string)
    requires AllSpace(W) && EqualsIgnoreCase(N, "NOT")
    ensures Skeleton(P + N + W + T) == Skeleton(P) + "NOT" + Skeleton(T)
  {
    SkeletonOfWord(N, "NOT");
    SkeletonOfSpaces(W);
    SkeletonOf4(P, N, W, T);
  }

  lemma NotOutputSkeleton(P: string, T: string)
    ensures Skeleton(P + "NOT " + Parenthesised(T)) == Skeleton(P) + "NOT" + Skeleton(T)
  {
    SkeletonConcat(P + "NOT ", Parenthesised(T));
    SkeletonConcat(P, "NOT ");
    ParenthesisedSkeleton(T);
    PunctuationSkeleton();
  }

  lemma SkeletonOf4(a: string, b: string, c: string, d: string)
    ensures Skeleton(a + b + c + d) == Skeleton(a) + Skeleton(b) + Skeleton(c) + Skeleton(d)
  {
    SkeletonConcat(a + b + c, d);
    SkeletonConcat(a + b, c);
    SkeletonConcat(a, b);
  }

  /** The skeletons of the literal pieces of the two replacements. */
  lemma PunctuationSkeleton()
    ensures Skeleton("(") == [] && Skeleton(")") == [] && Skeleton(" ") == []
    ensures Skeleton("NOT ") == "NOT"
  {
    assert "NOT "[1..] == "OT ";
    assert "OT "[1..] == "T ";
    assert "T "[1..] == " ";
  }

  lemma MatchSkeleton(pat: Pattern, s: string, p: nat)
    requires p < |s| && MatchAt(pat, s, p).Some?
    ensures var m := MatchAt(pat, s, p).value; Skeleton(m.replacement) == Skeleton(s[p..m.end])
  {
    match pat
    case SpaceRun => SpaceMatchSkeleton(s, p);
    case BinaryOp => BinaryMatchAtSkeleton(s, p);
    case NotOp => NotMatchAtSkeleton(s, p);
  }

  lemma SpaceMatchSkeleton(s: string, p: nat)
    requires p < |s| && SpaceMatchAt(s, p).Some?
    ensures var m := SpaceMatchAt(s, p).value; Skeleton(m.replacement) == Skeleton(s[p..m.end])
  {
    SkeletonOfSpaces(s[p..SpaceRunEnd(s, p)]);
    PunctuationSkeleton();
  }

  lemma BinaryMatchAtSkeleton(s: string, p: nat)
    requires p < |s| && BinaryMatchAt(s, p).Some?
    ensures var m := BinaryMatchAt(s, p).value; Skeleton(m.replacement) == Skeleton(s[p..m.end])
  {
    var a0 := if p == 0 && BinaryMatchFrom(s, 0, 0).Some? then 0 else p + 1;
    BinaryMatchSkeleton(s, p, a0, ParseBinary(s, a0).value);
  }

  lemma NotMatchAtSkeleton(s: string, p: nat)
    requires p < |s| && NotMatchAt(s, p).Some?
    ensures var m := NotMatchAt(s, p).value; Skeleton(m.replacement) == Skeleton(s[p..m.end])
  {
    var n0 := if p == 0 && NotMatchFrom(s, 0, 0).Some? then 0 else p + 1;
    NotMatchSkeleton(s, p, n0, ParseNot(s, n0).value);
  }

  lemma {:induction false} ReplaceFromSkeleton(pat: Pattern, s: string, last: nat, p: nat)
    requires last <= p <= |s|
    ensures Skeleton(ReplaceFrom(pat, s, last, p)) == Skeleton(s[last..])
    decreases |s| - p
  {
    if p < |s| {
      match MatchAt(pat, s, p)
      case Some(m) =>
        MatchSkeleton(pat, s, p);
        ReplaceFromSkeleton(pat, s, m.end, m.end);
        StepSkeleton(s, last, p, m.end, m.replacement, ReplaceFrom(pat, s, m.end, m.end));
      case None =>
        ReplaceFromSkeleton(pat, s, last, p + 1);
    }
  }

  /** One step of the scan keeps the skeleton when the replacement and the
      rest of the scan do. */
  lemma StepSkeleton(s: string, last: nat, p: nat, e: nat, rep: string, rest: string)
    requires last <= p <= e <= |s|
    requires Skeleton(rep) == Skeleton(s[p..e]) && Skeleton(rest) == Skeleton(s[e..])
    ensures Skeleton(s[last..p] + rep + rest) == Skeleton(s[last..])
  {
    SkeletonConcat(s[last..p] + rep, rest);
    SkeletonConcat(s[last..p], rep);
    SliceConcat(s, last, p, e);
    SliceConcat(s, last, e, |s|);
    assert s[last..] == s[last..|s|] && s[e..] == s[e..|s|];
    SkeletonConcat(s[last..p], s[p..e]);
    SkeletonConcat(s[last..e], s[e..]);
  }

  /** Every pass keeps the skeleton. */
  lemma ReplaceAllSkeleton(pat: Pattern, s: string)
    ensures Skeleton(ReplaceAll(pat, s)) == Skeleton(s)
  {
    ReplaceFromSkeleton(pat, s, 0, 0);
    assert s[0..] == s;
  }

  /** Normalisation changes only whitespace, parentheses and the case of
      operator words: the skeleton of the query is kept. */
  lemma NormalizeKeepsSkeleton(q: string)
    ensures Skeleton(NormalizeBooleanQuery(q)) == Skeleton(q)
  {
    var s := Trim(q);
    SkeletonOfTrim(q);
    if s != [] {
      var c := ReplaceAll(SpaceRun, s);
      var b := ReplaceAll(BinaryOp, c);
      ReplaceAllSkeleton(SpaceRun, s);
      ReplaceAllSkeleton(BinaryOp, c);
      ReplaceAllSkeleton(NotOp, b);
    }
  }

  // ---------------------------------------------------------------------
  // What normalisation keeps: parenthesis depth and quotes.

  /** The skeleton keeps every double quote. */
  lemma {:induction false} SkeletonKeepsQuotes(s: string)
    ensures Count(Skeleton(s), '"') == Count(s, '"')
  {
    if s != [] {
      var h := if IsSpace(s[0]) || s[0] == '(' || s[0] == ')' then [] else [UpperChar(s[0])];
      CountConcat(h, Skeleton(s[1..]), '"');
      SkeletonKeepsQuotes(s[1..]);
    }
  }

  /** Opened minus closed parentheses, the quantity `isRunnableQuery`
      bounds. */
  function Depth(s: string): int {
    Count(s, '(') - Count(s, ')')
  }

  lemma DepthConcat(a: string, b: string)
    ensures Depth(a + b) == Depth(a) + Depth(b)
  {
    CountConcat(a, b, '(');
    CountConcat(a, b, ')');
  }

  lemma DepthOf4(a: string, b: string, c: string, d: string)
    ensures Depth(a + b + c + d) == Depth(a) + Depth(b) + Depth(c) + Depth(d)
  {
    DepthConcat(a + b + c, d);
    DepthConcat(a + b, c);
    DepthConcat(a, b);
  }

  lemma DepthOf6(a: string, b: string, c: string, d: string, e: string, f: string)
    ensures Depth(a + b + c + d + e + f) == Depth(a) + Depth(b) + Depth(c) + Depth(d) + Depth(e) + Depth(f)
  {
    DepthConcat(a + b + c + d + e, f);
    DepthConcat(a + b + c + d, e);
    DepthOf4(a, b, c, d);
  }

  lemma DepthOfSpaces(w: string)
    requires AllSpace(w)
    ensures Depth(w) == 0
  {
    CountInSpaces(w, '(');
    CountInSpaces(w, ')');
  }

  /** A word that matches an upper-case word holds only letters. */
  lemma DepthOfWord(x: string, w: string)
    requires EqualsIgnoreCase(x, w) && IsUpperWord(w)
    ensures Depth(x) == 0
  {
    forall i | 0 <= i < |x|
      ensures x[i] != '(' && x[i] != ')'
    {
      assert UpperChar(x[i]) == UpperChar(w[i]) == w[i];
    }
    CountAbsent(x, '(');
    CountAbsent(x, ')');
  }

  lemma DepthOfParenthesised(a: string)
    ensures Depth(Parenthesised(a)) == Depth(a)
  {
    DepthConcat("(" + a, ")");
    DepthConcat("(", a);
    assert "("[1..] == [] && ")"[1..] == [];
  }

  lemma DepthOfSpacedOperator(op: string)
    requires op == "OR" || op == "AND"
    ensures Depth(" " + op + " ") == 0
  {
    DepthConcat(" " + op, " ");
    DepthConcat(" ", op);
    DepthOfWord(op, op);
    DepthOfSpaces(" ");
  }

  lemma BinaryMatchDepth(s: string, p: nat, a0: nat, g: BinaryGroups)
    requires p <= a0 && BinaryShape(s, a0, g)
    ensures Depth(BinaryReplacement(s, p, a0, g)) == Depth(s[p..g.b1])
  {
    var P, A, W1, O, W2, B := s[p..a0], s[a0..g.a1], s[g.a1..g.o0], s[g.o0..g.o1], s[g.o1..g.b0], s[g.b0..g.b1];
    assert AllSpace(W1) && AllSpace(W2);
    BinaryPiecesDepth(P, A, W1, O, W2, B, g.op);
    SliceConcat(s, p, a0, g.a1);
    SliceConcat(s, p, g.a1, g.o0);
    SliceConcat(s, p, g.o0, g.o1);
    SliceConcat(s, p, g.o1, g.b0);
    SliceConcat(s, p, g.b0, g.b1);
  }

  lemma BinaryPiecesDepth(P: string, A: string, W1: string, O: string, W2: string, B: string, op: string)
    requires AllSpace(W1) && AllSpace(W2)
    requires (op == "OR" || op == "AND") && EqualsIgnoreCase(O, op)
    ensures Depth(P + Parenthesised(A) + (" " + op + " ") + Parenthesised(B)) == Depth(P + A + W1 + O + W2 + B)
  {
    DepthOf4(P, Parenthesised(A), " " + op + " ", Parenthesised(B));
    DepthOfParenthesised(A);
    DepthOfParenthesised(B);
    DepthOfSpacedOperator(op);
    DepthOf6(P, A, W1, O, W2, B);
    DepthOfSpaces(W1);
    DepthOfSpaces(W2);
    DepthOfWord(O, op);
  }

  lemma NotMatchDepth(s: string, p: nat, n0: nat, g: NotGroups)
    requires p <= n0 && NotShape(s, n0, g)
    ensures Depth(NotReplacement(s, p, n0, g)) == Depth(s[p..g.t1])
  {
    var P, N, W, T := s[p..n0], s[n0..n0 + 3], s[n0 + 3..g.t0], s[g.t0..g.t1];
    assert AllSpace(W);
    NotPiecesDepth(P, N, W, T);
    SliceConcat(s, p, n0, n0 + 3);
    SliceConcat(s, p, n0 + 3, g.t0);
    SliceConcat(s, p, g.t0, g.t1);
  }

  lemma NotPiecesDepth(P: string, N: string, W: string, T: string)
    requires AllSpace(W) && EqualsIgnoreCase(N, "NOT")
    ensures Depth(P + "NOT " + Parenthesised(T)) == Depth(P + N + W + T)
  {
    DepthConcat(P + "NOT ", Parenthesised(T));
    DepthConcat(P, "NOT ");
    DepthOfParenthesised(T);
    DepthConcat("NOT", " ");
    DepthOfWord("NOT", "NOT");
    DepthOfSpaces(" ");
    DepthOf4(P, N, W, T);
    DepthOfWord(N, "NOT");
    DepthOfSpaces(W);
  }

  lemma MatchDepth(pat: Pattern, s: string, p: nat)
    requires p < |s| && MatchAt(pat, s, p).Some?
    ensures var m := MatchAt(pat, s, p).value; Depth(m.replacement) == Depth(s[p..m.end])
  {
    match pat
    case SpaceRun =>
      DepthOfSpaces(s[p..SpaceRunEnd(s, p)]);
      DepthOfSpaces(" ");
    case BinaryOp => BinaryMatchAtDepth(s, p);
    case NotOp => NotMatchAtDepth(s, p);
  }

  lemma BinaryMatchAtDepth(s: string, p: nat)
    requires p < |s| && BinaryMatchAt(s, p).Some?
    ensures var m := BinaryMatchAt(s, p).value; Depth(m.replacement) == Depth(s[p..m.end])
  {
    var a0 := if p == 0 && BinaryMatchFrom(s, 0, 0).Some? then 0 else p + 1;
    BinaryMatchDepth(s, p, a0, ParseBinary(s, a0).value);
  }

  lemma NotMatchAtDepth(s: string, p: nat)
    requires p < |s| && NotMatchAt(s, p).Some?
    ensures var m := NotMatchAt(s, p).value; Depth(m.replacement) == Depth(s[p..m.end])
  {
    var n0 := if p == 0 && NotMatchFrom(s, 0, 0).Some? then 0 else p + 1;
    NotMatchDepth(s, p, n0, ParseNot(s, n0).value);
  }

  lemma {:induction false} ReplaceFromDepth(pat: Pattern, s: string, last: nat, p: nat)
    requires last <= p <= |s|
    ensures Depth(ReplaceFrom(pat, s, last, p)) == Depth(s[last..])
    decreases |s| - p
  {
    if p < |s| {
      match MatchAt(pat, s, p)
      case Some(m) =>
        MatchDepth(pat, s, p);
        ReplaceFromDepth(pat, s, m.end, m.end);
        StepDepth(s, last, p, m.end, m.replacement, ReplaceFrom(pat, s, m.end, m.end));
      case None =>
        ReplaceFromDepth(pat, s, last, p + 1);
    }
  }

  /** One step of the scan keeps the depth when the replacement and the
      rest of the scan do. */
  lemma StepDepth(s: string, last: nat, p: nat, e: nat, rep: string, rest: string)
    requires last <= p <= e <= |s|
    requires Depth(rep) == Depth(s[p..e]) && Depth(rest) == Depth(s[e..])
    ensures Depth(s[last..p] + rep + rest) == Depth(s[last..])
  {
    DepthConcat(s[last..p] + rep, rest);
    DepthConcat(s[last..p], rep);
    SliceConcat(s, last, p, e);
    SliceConcat(s, last, e, |s|);
    assert s[last..] == s[last..|s|] && s[e..] == s[e..|s|];
    DepthConcat(s[last..p], s[p..e]);
    DepthConcat(s[last..e], s[e..]);
  }

  lemma ReplaceAllDepth(pat: Pattern, s: string)
    ensures Depth(ReplaceAll(pat, s)) == Depth(s)
  {
    ReplaceFromDepth(pat, s, 0, 0);
    assert s[0..] == s;
  }

  /** Normalisation keeps the parenthesis depth, so a query that
      `isRunnableQuery` accepts is still balanced when it is sent. */
  lemma NormalizeKeepsDepth(q: string)
    ensures Depth(NormalizeBooleanQuery(q)) == Depth(q)
  {
    var s := Trim(q);
    TrimKeepsCount(q, '(');
    TrimKeepsCount(q, ')');
    if s != [] {
      var c := ReplaceAll(SpaceRun, s);
      var b := ReplaceAll(BinaryOp, c);
      ReplaceAllDepth(SpaceRun, s);
      ReplaceAllDepth(BinaryOp, c);
      ReplaceAllDepth(NotOp, b);
    }
  }

  /** Normalisation keeps every double quote. */
  lemma NormalizeKeepsQuotes(q: string)
    ensures Count(NormalizeBooleanQuery(q), '"') == Count(q, '"')
  {
    NormalizeKeepsSkeleton(q);
    SkeletonKeepsQuotes(q);
    SkeletonKeepsQuotes(NormalizeBooleanQuery(q));
  }

  // ---------------------------------------------------------------------
  // The shape of the output: trimmed, every gap one plain space.

  /** Every whitespace character of `s` is a plain space. */
  predicate PlainSpaces(s: string) {
    forall i :: 0 <= i < |s| && IsSpace(s[i]) ==> s[i] == ' '
  }

  /** `s` holds no whitespace at all. */
  predicate NoSpaceIn(s: string) {
    forall i :: 0 <= i < |s| ==> !IsSpace(s[i])
  }

  /** What `normalizeBooleanQuery` produces: no whitespace at either end,
      and words separated by exactly one plain space. */
  predicate WellSpaced(s: string) {
    Trimmed(s) && NoDoubleSpace(s) && PlainSpaces(s)
  }

  /** `r`, the output of a scan of `s[last..]`, is single-spaced and starts
      and ends with whitespace exactly when `s[last..]` does. */
  predicate SpacedLike(r: string, s: string, last: nat)
    requires last <= |s|
  {
    && NoDoubleSpace(r) && PlainSpaces(r) && (r == [] <==> last == |s|)
    && (r != [] ==> IsSpace(r[0]) == IsSpace(s[last]) && IsSpace(r[|r| - 1]) == IsSpace(s[|s| - 1]))
  }

  lemma NoSpaceSpaced(x: string)
    requires NoSpaceIn(x)
    ensures NoDoubleSpace(x) && PlainSpaces(x)
  {
  }

  lemma ConcatPlainSpaces(a: string, b: string)
    requires PlainSpaces(a) && PlainSpaces(b)
    ensures PlainSpaces(a + b)
  {
    forall i | 0 <= i < |a + b| && IsSpace((a + b)[i])
      ensures (a + b)[i] == ' '
    {
      if i < |a| {
        assert (a + b)[i] == a[i];
      } else {
        assert (a + b)[i] == b[i - |a|];
      }
    }
  }

  /** Joining two single-spaced strings whose seam is not two spaces. */
  lemma JoinSpaced(a: string, b: string)
    requires NoDoubleSpace(a) && PlainSpaces(a) && NoDoubleSpace(b) && PlainSpaces(b)
    requires a == [] || b == [] || !IsSpace(a[|a| - 1]) || !IsSpace(b[0])
    ensures NoDoubleSpace(a + b) && PlainSpaces(a + b)
  {
    ConcatNoDoubleSpace(a, b);
    ConcatPlainSpaces(a, b);
  }

  /** One step of the whitespace pass: the text before the run holds no
      whitespace, the run becomes one space. */
  lemma CollapseStep(s: string, last: nat, p: nat, e: nat, rest: string)
    requires last <= p < e <= |s|
    requires forall k :: last <= k < p ==> !IsSpace(s[k])
    requires forall k :: p <= k < e ==> IsSpace(s[k])
    requires e == |s| || !IsSpace(s[e])
    requires SpacedLike(rest, s, e)
    ensures SpacedLike(s[last..p] + " " + rest, s, last)
  {
    var x := s[last..p];
    assert NoSpaceIn(x);
    NoSpaceSpaced(x);
    JoinSpaced(x, " ");
    JoinSpaced(x + " ", rest);
    var r := x + " " + rest;
    if x != [] {
      assert r[0] == s[last];
    }
    if rest == [] {
      assert r[|r| - 1] == ' ';
      assert IsSpace(s[e - 1]);
    } else {
      assert r[|r| - 1] == rest[|rest| - 1];
    }
  }

  /** The whitespace pass, from a point where the text scanned so far holds
      no whitespace. */
  lemma {:induction false} CollapseFrom(s: string, last: nat, p: nat)
    requires last <= p <= |s|
    requires forall k :: last <= k < p ==> !IsSpace(s[k])
    ensures SpacedLike(ReplaceFrom(SpaceRun, s, last, p), s, last)
    decreases |s| - p
  {
    if p == |s| {
      var r := s[last..];
      assert NoSpaceIn(r);
      NoSpaceSpaced(r);
    } else if IsSpace(s[p]) {
      var e := SpaceRunEnd(s, p);
      assert MatchAt(SpaceRun, s, p) == Some(Match(e, " "));
      CollapseFrom(s, e, e);
      CollapseStep(s, last, p, e, ReplaceFrom(SpaceRun, s, e, e));
    } else {
      assert MatchAt(SpaceRun, s, p) == None;
      CollapseFrom(s, last, p + 1);
    }
  }

  /** What a binary or `NOT` replacement guarantees about spacing. */
  predicate RepSpacing(s: string, p: nat, e: nat, rep: string)
    requires p < e <= |s|
  {
    && rep != [] && NoDoubleSpace(rep) && PlainSpaces(rep)
    && IsSpace(rep[0]) == IsSpace(s[p]) && !IsSpace(rep[|rep| - 1]) && !IsSpace(s[e - 1])
  }

  lemma ParenthesisedSpacing(a: string)
    requires NoSpaceIn(a)
    ensures var r := Parenthesised(a); NoSpaceIn(r) && r[0] == '(' && r[|r| - 1] == ')'
  {
  }

  lemma BinaryPiecesSpacing(pre: string, a: string, op: string, b: string)
    requires |pre| <= 1 && PlainSpaces(pre) && NoSpaceIn(a) && NoSpaceIn(b)
    requires op == "OR" || op == "AND"
    ensures var r := pre + Parenthesised(a) + (" " + op + " ") + Parenthesised(b);
      NoDoubleSpace(r) && PlainSpaces(r) && r[0] == (if pre == [] then '(' else pre[0]) && r[|r| - 1] == ')'
  {
    var pa, pb, o := Parenthesised(a), Parenthesised(b), " " + op + " ";
    ParenthesisedSpacing(a);
    ParenthesisedSpacing(b);
    NoSpaceSpaced(pa);
    NoSpaceSpaced(pb);
    assert NoDoubleSpace(o) && PlainSpaces(o);
    JoinSpaced(pre, pa);
    JoinSpaced(pre + pa, o);
    JoinSpaced(pre + pa + o, pb);
  }

  lemma NotPiecesSpacing(pre: string, t: string)
    requires |pre| <= 1 && PlainSpaces(pre) && NoSpaceIn(t)
    ensures var r := pre + "NOT " + Parenthesised(t);
      NoDoubleSpace(r) && PlainSpaces(r) && r[0] == (if pre == [] then 'N' else pre[0]) && r[|r| - 1] == ')'
  {
    var pt := Parenthesised(t);
    ParenthesisedSpacing(t);
    NoSpaceSpaced(pt);
    assert NoDoubleSpace("NOT ") && PlainSpaces("NOT ");
    JoinSpaced(pre, "NOT ");
    JoinSpaced(pre + "NOT ", pt);
  }

  lemma BinaryMatchSpacing(s: string, p: nat, a0: nat, g: BinaryGroups)
    requires (a0 == p || a0 == p + 1) && BinaryShape(s, a0, g) && PlainSpaces(s)
    requires a0 == p + 1 ==> IsSpace(s[p]) || s[p] == '('
    ensures RepSpacing(s, p, g.b1, BinaryReplacement(s, p, a0, g))
  {
    var pre, a, b := s[p..a0], s[a0..g.a1], s[g.b0..g.b1];
    assert NoSpaceIn(a) && NoSpaceIn(b);
    assert PlainSpaces(pre);
    BinaryPiecesSpacing(pre, a, g.op, b);
    assert IsTermChar(s[g.b1 - 1]);
    if a0 == p {
      assert IsTermChar(s[a0]);
    }
  }

  lemma NotMatchSpacing(s: string, p: nat, n0: nat, g: NotGroups)
    requires (n0 == p || n0 == p + 1) && NotShape(s, n0, g) && PlainSpaces(s)
    requires n0 == p + 1 ==> IsSpace(s[p]) || s[p] == '('
    ensures RepSpacing(s, p, g.t1, NotReplacement(s, p, n0, g))
  {
    var pre, t := s[p..n0], s[g.t0..g.t1];
    assert NoSpaceIn(t);
    assert PlainSpaces(pre);
    NotPiecesSpacing(pre, t);
    assert IsTermChar(s[g.t1 - 1]);
    if n0 == p {
      assert UpperChar(s[n0..n0 + 3][0]) == 'N';
      assert s[p] == s[n0..n0 + 3][0];
    }
  }

  lemma MatchSpacing(pat: Pattern, s: string, p: nat)
    requires pat != SpaceRun && p < |s| && MatchAt(pat, s, p).Some? && PlainSpaces(s)
    ensures var m := MatchAt(pat, s, p).value; RepSpacing(s, p, m.end, m.replacement)
  {
    if pat == BinaryOp {
      var a0 := if p == 0 && BinaryMatchFrom(s, 0, 0).Some? then 0 else p + 1;
      BinaryMatchSpacing(s, p, a0, ParseBinary(s, a0).value);
    } else {
      var n0 := if p == 0 && NotMatchFrom(s, 0, 0).Some? then 0 else p + 1;
      NotMatchSpacing(s, p, n0, ParseNot(s, n0).value);
    }
  }

  /** One step of a binary or `NOT` pass. */
  lemma PassStep(s: string, last: nat, p: nat, e: nat, rep: string, rest: string)
    requires last <= p < e <= |s| && NoDoubleSpace(s) && PlainSpaces(s)
    requires RepSpacing(s, p, e, rep) && SpacedLike(rest, s, e)
    ensures SpacedLike(s[last..p] + rep + rest, s, last)
  {
    var x := s[last..p];
    SliceNoDoubleSpace(s, last, p);
    assert PlainSpaces(x);
    if x != [] {
      assert x[|x| - 1] == s[p - 1];
    }
    JoinSpaced(x, rep);
    JoinSpaced(x + rep, rest);
    var r := x + rep + rest;
    if x != [] {
      assert r[0] == s[last];
    } else {
      assert r[0] == rep[0];
    }
    if rest == [] {
      assert r[|r| - 1] == rep[|rep| - 1];
    } else {
      assert r[|r| - 1] == rest[|rest| - 1];
    }
  }

  /** The unscanned tail of single-spaced text is left as it is. */
  lemma TailSpaced(s: string, last: nat)
    requires last <= |s| && NoDoubleSpace(s) && PlainSpaces(s)
    ensures SpacedLike(s[last..], s, last)
  {
    SliceNoDoubleSpace(s, last, |s|);
    assert s[last..] == s[last..|s|];
    assert PlainSpaces(s[last..]);
  }

  /** A binary or `NOT` pass over single-spaced text. */
  lemma {:induction false} PassFrom(pat: Pattern, s: string, last: nat, p: nat)
    requires pat != SpaceRun
    requires last <= p <= |s| && NoDoubleSpace(s) && PlainSpaces(s)
    ensures SpacedLike(ReplaceFrom(pat, s, last, p), s, last)
    decreases |s| - p
  {
    if p == |s| {
      TailSpaced(s, last);
    } else {
      var m := MatchAt(pat, s, p);
      if m.Some? {
        var e := m.value.end;
        MatchSpacing(pat, s, p);
        PassFrom(pat, s, e, e);
        PassStep(s, last, p, e, m.value.replacement, ReplaceFrom(pat, s, e, e));
      } else {
        PassFrom(pat, s, last, p + 1);
      }
    }
  }

  /** The output of `normalizeBooleanQuery` is trimmed, and its words are
      separated by exactly one plain space; it is empty exactly when the
      query is blank. */
  lemma NormalizeWellSpaced(q: string)
    ensures WellSpaced(NormalizeBooleanQuery(q))
    ensures NormalizeBooleanQuery(q) == [] <==> Trim(q) == []
  {
    var s := Trim(q);
    if s != [] {
      var c := ReplaceAll(SpaceRun, s);
      CollapseFrom(s, 0, 0);
      PassKeepsShape(s, c);
      var b := ReplaceAll(BinaryOp, c);
      PassFrom(BinaryOp, c, 0, 0);
      PassKeepsShape(c, b);
      PassFrom(NotOp, b, 0, 0);
      PassKeepsShape(b, ReplaceAll(NotOp, b));
    }
  }

  /** A pass whose output is spaced like its trimmed, nonempty input leaves
      a nonempty, well-spaced text. */
  lemma PassKeepsShape(s: string, r: string)
    requires s != [] && Trimmed(s) && SpacedLike(r, s, 0)
    ensures r != [] && WellSpaced(r)
  {
  }

  // ---------------------------------------------------------------------
  // How the patterns read particular queries: the parses are complete, the
  // whitespace pass is idempotent, and the outputs for single binary and
  // `NOT` expressions are computed.

  /** A nonempty run of term characters. */
  predicate BareTerm(s: string) {
    s != [] && forall i :: 0 <= i < |s| ==> IsTermChar(s[i])
  }

  lemma {:induction false} TermRunEndAt(s: string, i: nat, e: nat)
    requires i <= e <= |s|
    requires forall k :: i <= k < e ==> IsTermChar(s[k])
    requires e == |s| || !IsTermChar(s[e])
    ensures TermRunEnd(s, i) == e
    decreases e - i
  {
    if i < e {
      TermRunEndAt(s, i + 1, e);
    }
  }

  lemma {:induction false} SpaceRunEndAt(s: string, i: nat, e: nat)
    requires i <= e <= |s|
    requires forall k :: i <= k < e ==> IsSpace(s[k])
    requires e == |s| || !IsSpace(s[e])
    ensures SpaceRunEnd(s, i) == e
    decreases e - i
  {
    if i < e {
      SpaceRunEndAt(s, i + 1, e);
    }
  }

  lemma OperatorAtOf(s: string, i: nat, op: string)
    requires op == "OR" || op == "AND"
    requires i + |op| <= |s| && EqualsIgnoreCase(s[i..i + |op|], op)
    ensures OperatorAt(s, i) == op
  {
    if op == "AND" {
      assert s[i..i + 3][0] == s[i];
      if i + 2 <= |s| {
        assert s[i..i + 2][0] == s[i];
      }
    }
  }

  /** The binary-operator pattern finds exactly the groups its shape
      describes. */
  lemma ParseBinaryComplete(s: string, a0: nat, g: BinaryGroups)
    requires BinaryShape(s, a0, g)
    ensures ParseBinary(s, a0) == Some(g)
  {
    BinaryShapeRuns(s, a0, g);
    ParseBinaryOf(s, a0, g);
  }

  /** The runs that `ParseBinary` measures end where the shape's groups do. */
  lemma BinaryShapeRuns(s: string, a0: nat, g: BinaryGroups)
    requires BinaryShape(s, a0, g)
    ensures TermRunEnd(s, a0) == g.a1 && SpaceRunEnd(s, g.a1) == g.o0 && OperatorAt(s, g.o0) == g.op
    ensures g.o1 == g.o0 + |g.op| && SpaceRunEnd(s, g.o1) == g.b0 && TermRunEnd(s, g.b0) == g.b1
  {
    assert IsSpace(s[g.a1]);
    TermRunEndAt(s, a0, g.a1);
    assert s[g.o0..g.o1][0] == s[g.o0];
    SpaceRunEndAt(s, g.a1, g.o0);
    OperatorAtOf(s, g.o0, g.op);
    SpaceRunEndAt(s, g.o1, g.b0);
    TermRunEndAt(s, g.b0, g.b1);
  }

  lemma ParseBinaryOf(s: string, a0: nat, g: BinaryGroups)
    requires a0 < g.a1 < g.o0 < g.o1 < g.b0 < g.b1 <= |s| && TermBoundary(s, g.b1) && |g.op| > 0
    requires TermRunEnd(s, a0) == g.a1 && SpaceRunEnd(s, g.a1) == g.o0 && OperatorAt(s, g.o0) == g.op
    requires g.o1 == g.o0 + |g.op| && SpaceRunEnd(s, g.o1) == g.b0 && TermRunEnd(s, g.b0) == g.b1
    ensures ParseBinary(s, a0) == Some(g)
  {
  }

  lemma ParseNotComplete(s: string, n0: nat, g: NotGroups)
    requires NotShape(s, n0, g)
    ensures ParseNot(s, n0) == Some(g)
  {
    SpaceRunEndAt(s, n0 + 3, g.t0);
    TermRunEndAt(s, g.t0, g.t1);
  }

  lemma {:induction false} ReplaceFromNoMatch(pat: Pattern, s: string, last: nat, p: nat)
    requires last <= p <= |s|
    requires forall k :: p <= k < |s| ==> MatchAt(pat, s, k).None?
    ensures ReplaceFrom(pat, s, last, p) == s[last..]
    decreases |s| - p
  {
    if p < |s| {
      ReplaceFromNoMatch(pat, s, last, p + 1);
    }
  }

  /** A pass that matches at `p` and nowhere after the match. */
  lemma ReplaceFromOneMatch(pat: Pattern, s: string, p: nat)
    requires p < |s| && MatchAt(pat, s, p).Some?
    requires forall k :: MatchAt(pat, s, p).value.end <= k < |s| ==> MatchAt(pat, s, k).None?
    ensures var m := MatchAt(pat, s, p).value;
      ReplaceFrom(pat, s, p, p) == m.replacement + s[m.end..]
  {
    var m := MatchAt(pat, s, p).value;
    ReplaceFromAtMatch(pat, s, p, p);
    ReplaceFromNoMatch(pat, s, m.end, m.end);
    assert s[p..p] + m.replacement == m.replacement;
  }

  /** One step of the pass at a match. */
  lemma ReplaceFromAtMatch(pat: Pattern, s: string, last: nat, p: nat)
    requires last <= p < |s| && MatchAt(pat, s, p).Some?
    ensures var m := MatchAt(pat, s, p).value;
      ReplaceFrom(pat, s, last, p) == s[last..p] + m.replacement + ReplaceFrom(pat, s, m.end, m.end)
  {
  }

  /** Single-spaced text is left as it is by the whitespace pass. */
  lemma {:induction false} CollapseSingleSpaced(s: string, last: nat, p: nat)
    requires last <= p <= |s| && NoDoubleSpace(s) && PlainSpaces(s)
    ensures ReplaceFrom(SpaceRun, s, last, p) == s[last..]
    decreases |s| - p
  {
    if p < |s| {
      if IsSpace(s[p]) {
        assert SpaceRunEnd(s, p + 1) == p + 1;
        assert MatchAt(SpaceRun, s, p) == Some(Match(p + 1, " "));
        CollapseSingleSpaced(s, p + 1, p + 1);
        assert s[p..p + 1] == " ";
        SliceConcat(s, last, p, p + 1);
        SliceConcat(s, last, p + 1, |s|);
        assert s[last..] == s[last..|s|] && s[p + 1..] == s[p + 1..|s|];
      } else {
        assert MatchAt(SpaceRun, s, p) == None;
        CollapseSingleSpaced(s, last, p + 1);
      }
    }
  }

  /** Collapsing whitespace a second time changes nothing. */
  lemma CollapseIdempotent(s: string)
    ensures ReplaceAll(SpaceRun, ReplaceAll(SpaceRun, s)) == ReplaceAll(SpaceRun, s)
  {
    var c := ReplaceAll(SpaceRun, s);
    CollapseFrom(s, 0, 0);
    CollapseSingleSpaced(c, 0, 0);
    assert c[0..] == c;
  }

  /** No whitespace character of `s` follows a `T` (in either case). */
  predicate NoTBeforeSpace(s: string) {
    forall j :: 0 < j < |s| && IsSpace(s[j]) ==> UpperChar(s[j - 1]) != 'T'
  }

  lemma NoTBeforeSpaceNoNot(s: string, n0: nat)
    requires n0 <= |s| && NoTBeforeSpace(s)
    ensures ParseNot(s, n0).None?
  {
    if n0 + 3 < |s| {
      assert s[n0..n0 + 3][2] == s[n0 + 2];
    }
  }

  /** The `NOT` pattern needs whitespace after a `T`: text without that is
      left as it is by the `NOT` pass. */
  lemma NoTBeforeSpaceUnchanged(s: string)
    requires NoTBeforeSpace(s)
    ensures ReplaceAll(NotOp, s) == s
  {
    forall k | 0 <= k < |s|
      ensures MatchAt(NotOp, s, k).None?
    {
      NoTBeforeSpaceNoNot(s, 0);
      NoTBeforeSpaceNoNot(s, k + 1);
    }
    ReplaceFromNoMatch(NotOp, s, 0, 0);
    assert s[0..] == s;
  }

  lemma JoinNoTBeforeSpace(x: string, y: string)
    requires NoTBeforeSpace(x) && NoTBeforeSpace(y)
    requires x == [] || y == [] || !IsSpace(y[0]) || UpperChar(x[|x| - 1]) != 'T'
    ensures NoTBeforeSpace(x + y)
  {
    var r := x + y;
    forall j | 0 < j < |r| && IsSpace(r[j])
      ensures UpperChar(r[j - 1]) != 'T'
    {
      if j < |x| {
        assert r[j] == x[j] && r[j - 1] == x[j - 1];
      } else if j == |x| {
        assert r[j] == y[0] && r[j - 1] == x[|x| - 1];
      } else {
        assert r[j] == y[j - |x|] && r[j - 1] == y[j - |x| - 1];
      }
    }
  }

  /** The binary pattern needs a whitespace character after its first
      group. */
  lemma NoSpaceNoBinary(s: string, a0: nat)
    requires a0 <= |s| && forall k :: a0 <= k < |s| ==> !IsSpace(s[k])
    ensures ParseBinary(s, a0).None?
  {
  }

  /** An operator word is a bare term. */
  lemma OperatorWordIsTerm(w: string, op: string)
    requires (op == "OR" || op == "AND" || op == "NOT") && EqualsIgnoreCase(w, op)
    ensures BareTerm(w)
  {
    forall i | 0 <= i < |w|
      ensures IsTermChar(w[i])
    {
      assert UpperChar(w[i]) == UpperChar(op[i]);
      assert 'A' <= op[i] <= 'Z';
    }
  }

  lemma BareTermSpacing(t: string)
    requires BareTerm(t)
    ensures NoSpaceIn(t) && NoDoubleSpace(t) && PlainSpaces(t) && NoTBeforeSpace(t)
  {
  }

  /** With whitespace only at `j`, there is no room for the two whitespace
      runs of the binary pattern. */
  lemma OneSpaceNoBinary(s: string, a0: nat, j: nat)
    requires a0 <= |s| && forall k :: 0 <= k < |s| && k != j ==> !IsSpace(s[k])
    ensures ParseBinary(s, a0).None?
  {
  }

  /** `x + " " + y` for strings without whitespace. */
  lemma SpacedPairSpacing(x: string, y: string)
    requires NoSpaceIn(x) && NoSpaceIn(y)
    ensures NoDoubleSpace(x + " " + y) && PlainSpaces(x + " " + y)
  {
    NoSpaceSpaced(x);
    NoSpaceSpaced(y);
    JoinSpaced(x, " ");
    JoinSpaced(x + " ", y);
  }

  lemma SimpleBinarySpacing(a: string, w: string, b: string)
    requires BareTerm(a) && BareTerm(w) && BareTerm(b)
    ensures var s := a + " " + w + " " + b; Trimmed(s) && NoDoubleSpace(s) && PlainSpaces(s)
  {
    var x := a + " " + w;
    SpacedPairSpacing(a, w);
    JoinSpaced(x, " ");
    JoinSpaced(x + " ", b);
    var s := x + " " + b;
    assert s[0] == a[0] && s[|s| - 1] == b[|b| - 1];
  }

  /** The groups of the binary pattern in `a w b tail`. */
  function SimpleGroups(a: string, w: string, b: string, op: string): BinaryGroups {
    BinaryGroups(|a|, |a| + 1, |a| + 1 + |w|, |a| + 2 + |w|, |a| + 2 + |w| + |b|, op)
  }

  lemma SimpleBinaryShape(a: string, w: string, b: string, op: string, tail: string)
    requires BareTerm(a) && BareTerm(w) && BareTerm(b) && (tail == [] || IsSpace(tail[0]))
    requires (op == "OR" || op == "AND") && EqualsIgnoreCase(w, op)
    ensures BinaryShape(a + " " + w + " " + b + tail, 0, SimpleGroups(a, w, b, op))
  {
    var s := a + " " + w + " " + b + tail;
    var g := SimpleGroups(a, w, b, op);
    assert s[g.o0..g.o1] == w;
    assert forall k :: 0 <= k < g.a1 ==> s[k] == a[k];
    assert forall k :: g.b0 <= k < g.b1 ==> s[k] == b[k - g.b0];
    assert g.b1 < |s| ==> s[g.b1] == tail[0];
  }

  lemma SimpleBinaryReplacement(a: string, w: string, b: string, op: string, tail: string)
    requires BareTerm(a) && BareTerm(w) && BareTerm(b)
    ensures BinaryReplacement(a + " " + w + " " + b + tail, 0, 0, SimpleGroups(a, w, b, op))
      == Parenthesised(a) + " " + op + " " + Parenthesised(b)
  {
    var s := a + " " + w + " " + b + tail;
    var g := SimpleGroups(a, w, b, op);
    assert s[0..|a|] == a;
    assert s[g.b0..g.b1] == b;
    assert s[0..0] == [];
  }

  lemma BinaryResultNoNot(a: string, op: string, b: string)
    requires BareTerm(a) && BareTerm(b) && (op == "OR" || op == "AND")
    ensures NoTBeforeSpace(Parenthesised(a) + " " + op + " " + Parenthesised(b))
  {
    var pa, pb := Parenthesised(a), Parenthesised(b);
    assert NoSpaceIn(pa) && NoSpaceIn(pb) && NoSpaceIn(op);
    JoinNoTBeforeSpace(pa, " ");
    JoinNoTBeforeSpace(pa + " ", op);
    JoinNoTBeforeSpace(pa + " " + op, " ");
    JoinNoTBeforeSpace(pa + " " + op + " ", pb);
  }

  /** The three passes, composed. */
  lemma NormalizeByPasses(q: string, c: string, b: string, n: string)
    requires Trim(q) != [] && ReplaceAll(SpaceRun, Trim(q)) == c
    requires ReplaceAll(BinaryOp, c) == b && ReplaceAll(NotOp, b) == n
    ensures NormalizeBooleanQuery(q) == n
  {
  }

  /** Trimmed, single-spaced text passes the trim and the whitespace pass
      unchanged. */
  lemma SingleSpacedFirstPass(s: string)
    requires s != [] && Trimmed(s) && NoDoubleSpace(s) && PlainSpaces(s)
    ensures Trim(s) == s && ReplaceAll(SpaceRun, s) == s
  {
    TrimOfTrimmed(s);
    CollapseSingleSpaced(s, 0, 0);
    assert s[0..] == s;
  }

  /** The binary pass over `a w b tail`: the first match spans `a w b`,
      and `tail` holds no further match. */
  lemma SimpleBinaryPass(a: string, w: string, b: string, op: string, tail: string)
    requires BareTerm(a) && BareTerm(w) && BareTerm(b) && (tail == [] || IsSpace(tail[0]))
    requires (op == "OR" || op == "AND") && EqualsIgnoreCase(w, op)
    requires var s := a + " " + w + " " + b + tail;
      forall k :: |s| - |tail| <= k < |s| ==> MatchAt(BinaryOp, s, k).None?
    ensures ReplaceAll(BinaryOp, a + " " + w + " " + b + tail)
      == Parenthesised(a) + " " + op + " " + Parenthesised(b) + tail
  {
    var s := a + " " + w + " " + b + tail;
    var g := SimpleGroups(a, w, b, op);
    SimpleBinaryShape(a, w, b, op, tail);
    ParseBinaryComplete(s, 0, g);
    SimpleBinaryReplacement(a, w, b, op, tail);
    var r := Parenthesised(a) + " " + op + " " + Parenthesised(b);
    assert MatchAt(BinaryOp, s, 0) == Some(Match(g.b1, r));
    ReplaceFromOneMatch(BinaryOp, s, 0);
    assert s[g.b1..] == tail;
  }

  /** A query made of one bare binary expression: both terms are
      parenthesised and the operator is written in upper case. */
  lemma NormalizeSimpleBinary(a: string, w: string, b: string, op: string)
    requires BareTerm(a) && BareTerm(b)
    requires (op == "OR" || op == "AND") && EqualsIgnoreCase(w, op)
    ensures NormalizeBooleanQuery(a + " " + w + " " + b) == Parenthesised(a) + " " + op + " " + Parenthesised(b)
  {
    var s := a + " " + w + " " + b;
    var r := Parenthesised(a) + " " + op + " " + Parenthesised(b);
    OperatorWordIsTerm(w, op);
    SimpleBinarySpacing(a, w, b);
    SingleSpacedFirstPass(s);
    assert s + [] == s;
    SimpleBinaryPass(a, w, b, op, []);
    BinaryResultNoNot(a, op, b);
    NoTBeforeSpaceUnchanged(r);
    NormalizeByPasses(s, s, r, r);
  }

  /** The binary pass over `w t`, which has one whitespace character only. */
  lemma SimpleNotBinaryPass(w: string, t: string)
    requires |w| == 3 && BareTerm(w) && BareTerm(t)
    ensures ReplaceAll(BinaryOp, w + " " + t) == w + " " + t
  {
    var s := w + " " + t;
    SpacedOnlyAt(w, t);
    OneSpaceNoMatch(s, 3);
    ReplaceFromNoMatch(BinaryOp, s, 0, 0);
    assert s[0..] == s;
  }

  /** `w t` has whitespace only after `w`. */
  lemma SpacedOnlyAt(w: string, t: string)
    requires BareTerm(w) && BareTerm(t)
    ensures var s := w + " " + t;
      forall k :: 0 <= k < |s| && k != |w| ==> !IsSpace(s[k])
  {
    var s := w + " " + t;
    assert forall k :: 0 <= k < |w| ==> s[k] == w[k];
    assert forall k :: |w| < k < |s| ==> s[k] == t[k - |w| - 1];
  }

  /** With a single whitespace character, the binary pattern matches
      nowhere. */
  lemma OneSpaceNoMatch(s: string, j: nat)
    requires forall k :: 0 <= k < |s| && k != j ==> !IsSpace(s[k])
    ensures forall k :: 0 <= k < |s| ==> MatchAt(BinaryOp, s, k).None?
  {
    forall k | 0 <= k < |s|
      ensures MatchAt(BinaryOp, s, k).None?
    {
      OneSpaceNoBinary(s, 0, j);
      OneSpaceNoBinary(s, k + 1, j);
    }
  }

  /** The `NOT` pass over `w t`: the only match is the whole query. */
  lemma SimpleNotPass(w: string, t: string)
    requires EqualsIgnoreCase(w, "NOT") && BareTerm(t)
    ensures ReplaceAll(NotOp, w + " " + t) == "NOT " + Parenthesised(t)
  {
    var s := w + " " + t;
    var g := NotGroups(4, |s|);
    assert s[0..3] == w && s[3] == ' ';
    assert s[4..|s|] == t;
    assert forall k :: 4 <= k < |s| ==> s[k] == t[k - 4];
    assert NotShape(s, 0, g);
    ParseNotComplete(s, 0, g);
    assert s[0..0] == [] && s[g.t0..g.t1] == t;
    assert NotReplacement(s, 0, 0, g) == "NOT " + Parenthesised(t);
    assert ParseNot(s, 0) == Some(g);
    assert NotMatchFrom(s, 0, 0) == Some(Match(|s|, "NOT " + Parenthesised(t)));
    assert MatchAt(NotOp, s, 0) == Some(Match(|s|, "NOT " + Parenthesised(t)));
    ReplaceFromOneMatch(NotOp, s, 0);
    assert s[|s|..] == [];
  }

  /** `NOT` followed by one bare term: the term is parenthesised and `NOT`
      is written in upper case. */
  lemma NormalizeSimpleNot(w: string, t: string)
    requires EqualsIgnoreCase(w, "NOT") && BareTerm(t)
    ensures NormalizeBooleanQuery(w + " " + t) == "NOT " + Parenthesised(t)
  {
    var s := w + " " + t;
    OperatorWordIsTerm(w, "NOT");
    SpacedPairSpacing(w, t);
    assert s[0] == w[0] && s[|s| - 1] == t[|t| - 1];
    SingleSpacedFirstPass(s);
    SimpleNotBinaryPass(w, t);
    SimpleNotPass(w, t);
    NormalizeByPasses(s, s, s, "NOT " + Parenthesised(t));
  }

  /** Past a whitespace character at `j` followed only by term characters,
      the binary pattern matches nowhere. */
  lemma TermTailNoBinary(s: string, j: nat, k: nat)
    requires 0 < j <= k < |s|
    requires forall i :: j < i < |s| ==> IsTermChar(s[i])
    ensures MatchAt(BinaryOp, s, k).None?
  {
    NoSpaceNoBinary(s, k + 1);
  }

  /** After the first match of `a w n t`, the tail ` t` holds no match: its
      only whitespace is its first character. */
  lemma BareTailNoBinary(u: string, t: string)
    requires u != [] && BareTerm(t)
    ensures var s := u + " " + t;
      forall k :: |u| <= k < |s| ==> MatchAt(BinaryOp, s, k).None?
  {
    var s := u + " " + t;
    assert forall k :: |u| < k < |s| ==> s[k] == t[k - |u| - 1];
    forall k | |u| <= k < |s|
      ensures MatchAt(BinaryOp, s, k).None?
    {
      TermTailNoBinary(s, |u|, k);
    }
  }

  lemma OperatorThenNotSpacing(a: string, w: string, n: string, t: string)
    requires BareTerm(a) && BareTerm(w) && BareTerm(n) && BareTerm(t)
    ensures var s := a + " " + w + " " + n + " " + t; Trimmed(s) && NoDoubleSpace(s) && PlainSpaces(s)
  {
    var u := a + " " + w + " " + n;
    SimpleBinarySpacing(a, w, n);
    BareTermSpacing(t);
    JoinSpaced(u, " ");
    JoinSpaced(u + " ", t);
    var s := u + " " + t;
    assert s[0] == a[0] && s[|s| - 1] == t[|t| - 1];
  }

  lemma OperatorThenNotBinaryPass(a: string, w: string, n: string, t: string, op: string)
    requires BareTerm(a) && BareTerm(w) && BareTerm(n) && BareTerm(t)
    requires (op == "OR" || op == "AND") && EqualsIgnoreCase(w, op)
    ensures ReplaceAll(BinaryOp, a + " " + w + " " + n + " " + t)
      == Parenthesised(a) + " " + op + " " + Parenthesised(n) + " " + t
  {
    var u := a + " " + w + " " + n;
    BareTailNoBinary(u, t);
    assert u + (" " + t) == u + " " + t;
    SimpleBinaryPass(a, w, n, op, " " + t);
  }

  lemma OperatorThenNotResult(a: string, op: string, n: string, t: string)
    requires BareTerm(a) && BareTerm(n) && BareTerm(t) && (op == "OR" || op == "AND")
    ensures NoTBeforeSpace(Parenthesised(a) + " " + op + " " + Parenthesised(n) + " " + t)
  {
    var first := Parenthesised(a) + " " + op + " " + Parenthesised(n);
    BinaryResultNoNot(a, op, n);
    BareTermSpacing(t);
    JoinNoTBeforeSpace(first, " ");
    JoinNoTBeforeSpace(first + " ", t);
  }

  /** `NOT` right after a binary operator is taken as the operator's right
      term: `x AND NOT y` becomes `(x) AND (NOT) y`, so the output no longer
      negates `y`. */
  lemma NormalizeOperatorThenNot(a: string, w: string, n: string, t: string, op: string)
    requires BareTerm(a) && BareTerm(t)
    requires (op == "OR" || op == "AND") && EqualsIgnoreCase(w, op) && EqualsIgnoreCase(n, "NOT")
    ensures NormalizeBooleanQuery(a + " " + w + " " + n + " " + t)
      == Parenthesised(a) + " " + op + " " + Parenthesised(n) + " " + t
  {
    var s := a + " " + w + " " + n + " " + t;
    var r := Parenthesised(a) + " " + op + " " + Parenthesised(n) + " " + t;
    OperatorWordIsTerm(w, op);
    OperatorWordIsTerm(n, "NOT");
    OperatorThenNotSpacing(a, w, n, t);
    SingleSpacedFirstPass(s);
    OperatorThenNotBinaryPass(a, w, n, t, op);
    OperatorThenNotResult(a, op, n, t);
    NoTBeforeSpaceUnchanged(r);
    NormalizeByPasses(s, s, r, r);
  }

  /** From `a0` on, whitespace only at `j`: no room for the binary pattern. */
  lemma OneSpaceFromNoBinary(s: string, a0: nat, j: nat)
    requires a0 <= |s| && forall k :: a0 <= k < |s| && k != j ==> !IsSpace(s[k])
    ensures ParseBinary(s, a0).None?
  {
  }

  /** After the first match of `a w b w2 c`, the tail ` w2 c` holds no
      match: from there on it has one whitespace character only. */
  lemma ChainTailNoBinary(u: string, w2: string, c: string)
    requires u != [] && BareTerm(w2) && BareTerm(c)
    ensures var s := u + ChainTail(w2, c);
      forall k :: |u| <= k < |s| ==> MatchAt(BinaryOp, s, k).None?
  {
    var s := u + ChainTail(w2, c);
    var j := |u| + 1 + |w2|;
    ChainTailSpaces(u, w2, c);
    forall k | |u| <= k < |s|
      ensures MatchAt(BinaryOp, s, k).None?
    {
      OneSpaceFromNoBinary(s, k + 1, j);
    }
  }

  /** Past its first character, the tail has whitespace only between `w2`
      and `c`. */
  lemma ChainTailSpaces(u: string, w2: string, c: string)
    requires BareTerm(w2) && BareTerm(c)
    ensures var s := u + ChainTail(w2, c);
      forall k :: |u| < k < |s| && k != |u| + 1 + |w2| ==> !IsSpace(s[k])
  {
    var s := u + ChainTail(w2, c);
    var j := |u| + 1 + |w2|;
    assert forall k :: |u| < k < j ==> s[k] == w2[k - |u| - 1];
    assert forall k :: j < k < |s| ==> s[k] == c[k - j - 1];
  }

  /** The part of `a w b w2 c` after the first binary expression. */
  function ChainTail(w2: string, c: string): string {
    " " + w2 + " " + c
  }

  lemma ChainTailJoin(x: string, w2: string, c: string)
    ensures x + ChainTail(w2, c) == x + " " + w2 + " " + c
  {
  }

  lemma ChainTailSpacing(w2: string, c: string)
    requires BareTerm(w2) && BareTerm(c)
    ensures NoDoubleSpace(ChainTail(w2, c)) && PlainSpaces(ChainTail(w2, c))
  {
    BareTermSpacing(w2);
    BareTermSpacing(c);
    JoinSpaced(" ", w2);
    JoinSpaced(" " + w2, " ");
    JoinSpaced(" " + w2 + " ", c);
  }

  lemma BinaryChainSpacing(a: string, w: string, b: string, w2: string, c: string)
    requires BareTerm(a) && BareTerm(w) && BareTerm(b) && BareTerm(w2) && BareTerm(c)
    ensures var s := a + " " + w + " " + b + ChainTail(w2, c);
      Trimmed(s) && NoDoubleSpace(s) && PlainSpaces(s)
  {
    var u := a + " " + w + " " + b;
    var tail := ChainTail(w2, c);
    SimpleBinarySpacing(a, w, b);
    ChainTailSpacing(w2, c);
    JoinSpaced(u, tail);
    var s := u + tail;
    assert s[0] == a[0] && s[|s| - 1] == c[|c| - 1];
  }

  lemma BinaryChainPass(a: string, w: string, b: string, w2: string, c: string, op: string)
    requires BareTerm(a) && BareTerm(w) && BareTerm(b) && BareTerm(w2) && BareTerm(c)
    requires (op == "OR" || op == "AND") && EqualsIgnoreCase(w, op)
    ensures ReplaceAll(BinaryOp, a + " " + w + " " + b + ChainTail(w2, c))
      == Parenthesised(a) + " " + op + " " + Parenthesised(b) + ChainTail(w2, c)
  {
    ChainTailNoBinary(a + " " + w + " " + b, w2, c);
    SimpleBinaryPass(a, w, b, op, ChainTail(w2, c));
  }

  lemma BinaryChainResult(a: string, op: string, b: string, w2: string, c: string)
    requires BareTerm(a) && BareTerm(b) && BareTerm(c) && (op == "OR" || op == "AND")
    requires BareTerm(w2) && UpperChar(w2[|w2| - 1]) != 'T'
    ensures NoTBeforeSpace(Parenthesised(a) + " " + op + " " + Parenthesised(b) + ChainTail(w2, c))
  {
    var first := Parenthesised(a) + " " + op + " " + Parenthesised(b);
    BinaryResultNoNot(a, op, b);
    BareTermSpacing(w2);
    BareTermSpacing(c);
    JoinNoTBeforeSpace(" ", w2);
    assert (" " + w2)[|" " + w2| - 1] == w2[|w2| - 1];
    JoinNoTBeforeSpace(" " + w2, " ");
    JoinNoTBeforeSpace(" " + w2 + " ", c);
    assert first[|first| - 1] == ')';
    JoinNoTBeforeSpace(first, ChainTail(w2, c));
  }

  /** The binary pass replaces its matches left to right without overlap:
      in `a OR b OR c` the first match takes `b`, so `a` and `b` are
      parenthesised and the second operator and `c` are kept as written. */
  lemma NormalizeBinaryChain(a: string, w: string, b: string, w2: string, c: string, op: string, op2: string)
    requires BareTerm(a) && BareTerm(b) && BareTerm(c)
    requires (op == "OR" || op == "AND") && EqualsIgnoreCase(w, op)
    requires (op2 == "OR" || op2 == "AND") && EqualsIgnoreCase(w2, op2)
    ensures NormalizeBooleanQuery(a + " " + w + " " + b + " " + w2 + " " + c)
      == Parenthesised(a) + " " + op + " " + Parenthesised(b) + " " + w2 + " " + c
  {
    var s := a + " " + w + " " + b + ChainTail(w2, c);
    var r := Parenthesised(a) + " " + op + " " + Parenthesised(b) + ChainTail(w2, c);
    OperatorWordIsTerm(w, op);
    OperatorWordIsTerm(w2, op2);
    assert UpperChar(w2[|w2| - 1]) == UpperChar(op2[|op2| - 1]);
    BinaryChainSpacing(a, w, b, w2, c);
    SingleSpacedFirstPass(s);
    BinaryChainPass(a, w, b, w2, c, op);
    BinaryChainResult(a, op, b, w2, c);
    NoTBeforeSpaceUnchanged(r);
    NormalizeByPasses(s, s, r, r);
    ChainTailJoin(a + " " + w + " " + b, w2, c);
    ChainTailJoin(Parenthesised(a) + " " + op + " " + Parenthesised(b), w2, c);
  }


  /** At `j`: a term character, one whitespace character, and then an `O`
      or `A` (in either case). */
  predicate TermSpaceOperator(s: string, j: nat)
    requires 0 < j < |s| - 1
  {
    IsSpace(s[j]) && IsTermChar(s[j - 1]) && (UpperChar(s[j + 1]) == 'O' || UpperChar(s[j + 1]) == 'A')
  }

  /** In single-spaced text, every binary match starts like that. */
  predicate NoOperatorAfterTerm(s: string) {
    forall j :: 0 < j < |s| - 1 ==> !TermSpaceOperator(s, j)
  }

  lemma BinaryShapeSingleSpaced(s: string, a0: nat, g: BinaryGroups)
    requires BinaryShape(s, a0, g) && NoDoubleSpace(s)
    ensures g.o0 == g.a1 + 1 && IsTermChar(s[g.a1 - 1]) && IsSpace(s[g.a1])
    ensures UpperChar(s[g.o0]) == 'O' || UpperChar(s[g.o0]) == 'A'
    ensures 0 < g.a1 < |s| - 1 && TermSpaceOperator(s, g.a1)
  {
    assert IsSpace(s[g.a1]) && IsTermChar(s[g.a1 - 1]);
    assert !IsSpace(s[g.a1 + 1]);
    assert s[g.o0..g.o1][0] == s[g.o0];
    assert UpperChar(s[g.o0..g.o1][0]) == UpperChar(g.op[0]);
  }

  lemma NoOperatorAfterTermNoBinary(s: string, a0: nat)
    requires a0 <= |s| && NoDoubleSpace(s) && NoOperatorAfterTerm(s)
    ensures ParseBinary(s, a0).None?
  {
    if ParseBinary(s, a0).Some? {
      BinaryShapeSingleSpaced(s, a0, ParseBinary(s, a0).value);
    }
  }

  lemma NormalBinaryNoOperatorAfterTerm(a: string, op: string, b: string)
    requires BareTerm(a) && BareTerm(b) && (op == "OR" || op == "AND")
    ensures NoOperatorAfterTerm(Parenthesised(a) + " " + op + " " + Parenthesised(b))
  {
    var x, y := Parenthesised(a), Parenthesised(b);
    var r := x + " " + op + " " + y;
    var i1, i2 := |x|, |x| + 1 + |op|;
    forall j | 0 < j < |r| - 1
      ensures !TermSpaceOperator(r, j)
    {
      if j < i1 {
        assert r[j] == x[j];
      } else if j == i1 {
        assert r[j - 1] == ')';
      } else if j < i2 {
        assert r[j] == op[j - i1 - 1];
      } else if j == i2 {
        assert r[j + 1] == '(';
      } else {
        assert r[j] == y[j - i2 - 1];
      }
    }
  }

  lemma NormalBinarySpacing(a: string, op: string, b: string)
    requires BareTerm(a) && BareTerm(b) && (op == "OR" || op == "AND")
    ensures var r := Parenthesised(a) + " " + op + " " + Parenthesised(b);
      r != [] && Trimmed(r) && NoDoubleSpace(r) && PlainSpaces(r)
  {
    var x, y := Parenthesised(a), Parenthesised(b);
    assert NoSpaceIn(x) && NoSpaceIn(y) && NoSpaceIn(op);
    SpacedPairSpacing(x, op);
    NoSpaceSpaced(y);
    JoinSpaced(x + " " + op, " ");
    JoinSpaced(x + " " + op + " ", y);
    var r := x + " " + op + " " + y;
    assert r[0] == '(' && r[|r| - 1] == ')';
  }

  lemma SingleSpacedNoBinaryAt(s: string, k: nat)
    requires k < |s| && NoDoubleSpace(s) && NoOperatorAfterTerm(s)
    ensures BinaryMatchAt(s, k).None?
  {
    NoOperatorAfterTermNoBinary(s, 0);
    NoOperatorAfterTermNoBinary(s, k + 1);
    NoParseNoBinaryMatch(s, k);
  }

  lemma NoParseNoBinaryMatch(s: string, k: nat)
    requires k < |s| && ParseBinary(s, 0).None? && ParseBinary(s, k + 1).None?
    ensures BinaryMatchAt(s, k).None?
  {
  }

  lemma SingleSpacedBinaryUnchanged(s: string)
    requires NoDoubleSpace(s) && NoOperatorAfterTerm(s)
    ensures ReplaceAll(BinaryOp, s) == s
  {
    forall k | 0 <= k < |s|
      ensures MatchAt(BinaryOp, s, k).None?
    {
      SingleSpacedNoBinaryAt(s, k);
    }
    ReplaceFromNoMatch(BinaryOp, s, 0, 0);
    assert s[0..] == s;
  }

  /** An already parenthesised binary query is left as it is: term runs
      exclude parentheses, so neither pattern matches. */
  lemma NormalizeKeepsNormalBinary(a: string, op: string, b: string)
    requires BareTerm(a) && BareTerm(b) && (op == "OR" || op == "AND")
    ensures var r := Parenthesised(a) + " " + op + " " + Parenthesised(b);
      NormalizeBooleanQuery(r) == r
  {
    var r := Parenthesised(a) + " " + op + " " + Parenthesised(b);
    NormalBinarySpacing(a, op, b);
    SingleSpacedFirstPass(r);
    NormalBinaryNoOperatorAfterTerm(a, op, b);
    SingleSpacedBinaryUnchanged(r);
    BinaryResultNoNot(a, op, b);
    NoTBeforeSpaceUnchanged(r);
    NormalizeByPasses(r, r, r, r);
  }

  /** Normalising a single binary query twice gives what normalising it
      once does. */
  lemma NormalizeSimpleBinaryIdempotent(a: string, w: string, b: string, op: string)
    requires BareTerm(a) && BareTerm(b)
    requires (op == "OR" || op == "AND") && EqualsIgnoreCase(w, op)
    ensures var n := NormalizeBooleanQuery(a + " " + w + " " + b); NormalizeBooleanQuery(n) == n
  {
    NormalizeSimpleBinary(a, w, b, op);
    NormalizeKeepsNormalBinary(a, op, b);
  }
}
