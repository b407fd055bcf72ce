/** `normalizeRelated`: turns the several response shapes of the
    related-terms endpoint into one list of terms, best match first. */
module Related {
  import opened Wrappers
  import opened Text
  import opened Json
  import opened Sorting

  /** `obj?.related ?? obj?.related_terms ?? obj?.associations ?? obj?.terms
      ?? obj?.data ?? obj`. */
  function Pick(v: Value): (r: Value)
    ensures r == v || exists k :: k in ContainerKeys && Prop(v, k) == Some(r) && r != Null
    ensures forall i | 0 <= i < |ContainerKeys| ::
      Present(Prop(v, ContainerKeys[i])) && (forall j | 0 <= j < i :: !Present(Prop(v, ContainerKeys[j])))
      ==> r == Prop(v, ContainerKeys[i]).value
    ensures (forall k <- ContainerKeys :: !Present(Prop(v, k))) ==> r == v
  {
    assert ContainerKeys[0] == "related" && ContainerKeys[1] == "related_terms"
      && ContainerKeys[2] == "associations" && ContainerKeys[3] == "terms" && ContainerKeys[4] == "data";
    if Present(Prop(v, "related")) then Prop(v, "related").value
    else if Present(Prop(v, "related_terms")) then Prop(v, "related_terms").value
    else if Present(Prop(v, "associations")) then Prop(v, "associations").value
    else if Present(Prop(v, "terms")) then Prop(v, "terms").value
    else if Present(Prop(v, "data")) then Prop(v, "data").value
    else v
  }

  /** The container properties `Pick` looks under, in the order it tries them. */
  const ContainerKeys: seq<string> := ["related", "related_terms", "associations", "terms", "data"]

  /** An array is used as it is; anything else is unwrapped first. */
  function Payload(input: Value): Value {
    if input.Arr? then input else Pick(input)
  }

  /** An array that is empty or whose first element is a string: returned
      as it is. */
  predicate IsTermList(p: Value) {
    p.Arr? && (|p.items| == 0 || p.items[0].Str?)
  }

  /** A nonempty array whose first element has `typeof` "object". */
  predicate IsObjectList(p: Value) {
    p.Arr? && |p.items| > 0 && !p.items[0].Str? && IsObjectLike(p.items[0])
  }

  /** Any other array, or an object: read as a map from term to score. */
  predicate IsTermMap(p: Value) {
    (p.Arr? || p.Obj?) && !IsTermList(p) && !IsObjectList(p)
  }

  /** `typeof x === 'number' ? x : parseFloat(x)`, with `None` for `NaN`.
      `parse` is the reading of `parseFloat` on a string. */
  function Score(x: Option<Value>, parse: string -> Option<real>): Option<real> {
    match x
    case Some(Num(n)) => Some(n)
    case Some(Str(s)) => parse(s)
    case _ => None
  }

  /** The comparator of both sorts: a positive result puts `b` first.
      Two unscored items compare by `tie`, an unscored item goes after a
      scored one, and otherwise the larger score comes first. */
  function CompareScores(av: Option<real>, bv: Option<real>, tie: int): real {
    if av.None? && bv.None? then tie as real
    else if av.None? then 1.0
    else if bv.None? then -1.0
    else bv.value - av.value
  }

  /** The score of an array element: its `jaccard` property. */
  function ItemScore(item: Value, parse: string -> Option<real>): Option<real> {
    Score(Prop(item, "jaccard"), parse)
  }

  /** `compare(a, b) <= 0` for the comparator over array elements. */
  function ItemLe(parse: string -> Option<real>): (Value, Value) -> bool {
    (a: Value, b: Value) => CompareScores(ItemScore(a, parse), ItemScore(b, parse), 0) <= 0.0
  }

  /** `o.term ?? o.name ?? o.id ?? ''`. */
  function TermOf(o: Value): (r: Value)
    ensures r == Str("") || exists k :: k in TermKeys && Prop(o, k) == Some(r) && r != Null
    ensures forall i | 0 <= i < |TermKeys| ::
      Present(Prop(o, TermKeys[i])) && (forall j | 0 <= j < i :: !Present(Prop(o, TermKeys[j])))
      ==> r == Prop(o, TermKeys[i]).value
    ensures (forall k <- TermKeys :: !Present(Prop(o, k))) ==> r == Str("")
  {
    assert TermKeys[0] == "term" && TermKeys[1] == "name" && TermKeys[2] == "id";
    if Present(Prop(o, "term")) then Prop(o, "term").value
    else if Present(Prop(o, "name")) then Prop(o, "name").value
    else if Present(Prop(o, "id")) then Prop(o, "id").value
    else Str("")
  }

  /** The properties `TermOf` reads, in the order it tries them. */
  const TermKeys: seq<string> := ["term", "name", "id"]

  /** `arr.map((o) => o.term ?? o.name ?? o.id ?? '')`. */
  function TermsOf(items: seq<Value>): seq<Value> {
    Map(TermOf, items)
  }

  /** The score of a map entry's value: the value itself, or its `jaccard`
      property when it has `typeof` "object". */
  function EntryScore(value: Value, parse: string -> Option<real>): Option<real> {
    if IsObjectLike(value) then Score(Prop(value, "jaccard"), parse) else Score(Some(value), parse)
  }

  /** `a.localeCompare(b)`, with code point order standing in for the
      locale's collation. */
  function LocaleCompare(a: string, b: string): (c: int)
    ensures c <= 0 <==> LexLe(a, b)
  {
    LexLeReflexive(a);
    if a == b then 0 else if LexLe(a, b) then -1 else 1
  }

  /** `compare(a, b) <= 0` for the comparator over map entries. */
  function EntryLe(parse: string -> Option<real>): ((string, Value), (string, Value)) -> bool {
    (a: (string, Value), b: (string, Value)) =>
      CompareScores(EntryScore(a.1, parse), EntryScore(b.1, parse), LocaleCompare(a.0, b.0)) <= 0.0
  }

  /** `entries.map(([k]) => k)`. */
  function KeysOf(entries: seq<(string, Value)>): seq<Value> {
    Map((e: (string, Value)) => Str(e.0), entries)
  }

  /** The order on scores both comparators share: `ScoreLe(x, y)` holds when
      `x` may come before `y`. */
  predicate ScoreLe(x: Option<real>, y: Option<real>) {
    y.None? || (x.Some? && x.value >= y.value)
  }

  lemma CompareScoresScored(av: Option<real>, bv: Option<real>, tie: int)
    requires av.Some? || bv.Some?
    ensures CompareScores(av, bv, tie) <= 0.0 <==> ScoreLe(av, bv)
  {
  }

  /** The comparator over array elements is a total preorder. */
  lemma ItemLePreorder(parse: string -> Option<real>)
    ensures Total(ItemLe(parse)) && Transitive(ItemLe(parse))
  {
    var le := ItemLe(parse);
    forall x, y ensures le(x, y) || le(y, x) {
      var a, b := ItemScore(x, parse), ItemScore(y, parse);
      assert le(x, y) == (CompareScores(a, b, 0) <= 0.0);
    }
    forall x, y, z | le(x, y) && le(y, z) ensures le(x, z) {
      var a, b, c := ItemScore(x, parse), ItemScore(y, parse), ItemScore(z, parse);
      assert CompareScores(a, b, 0) <= 0.0 && CompareScores(b, c, 0) <= 0.0;
    }
  }

  /** The comparator over map entries is a total preorder. */
  lemma EntryLePreorder(parse: string -> Option<real>)
    ensures Total(EntryLe(parse)) && Transitive(EntryLe(parse))
  {
    var le := EntryLe(parse);
    forall x, y ensures le(x, y) || le(y, x) {
      LexLeTotal(x.0, y.0);
      var a, b := EntryScore(x.1, parse), EntryScore(y.1, parse);
      assert le(x, y) == (CompareScores(a, b, LocaleCompare(x.0, y.0)) <= 0.0);
      assert le(y, x) == (CompareScores(b, a, LocaleCompare(y.0, x.0)) <= 0.0);
    }
    forall x, y, z | le(x, y) && le(y, z) ensures le(x, z) {
      var a, b, c := EntryScore(x.1, parse), EntryScore(y.1, parse), EntryScore(z.1, parse);
      assert CompareScores(a, b, LocaleCompare(x.0, y.0)) <= 0.0;
      assert CompareScores(b, c, LocaleCompare(y.0, z.0)) <= 0.0;
      if a.None? && b.None? && c.None? {
        LexLeTransitive(x.0, y.0, z.0);
      }
    }
  }

  /** `arr.slice()` sorted by the element comparator. */
  method RankItems(items: seq<Value>, parse: string -> Option<real>) returns (ranked: seq<Value>)
    ensures multiset(ranked) == multiset(items)
    ensures SortedBy(ranked, ItemLe(parse))
  {
    var a := new Value[|items|](i requires 0 <= i < |items| => items[i]);
    assert a[..] == items;
    ItemLePreorder(parse);
    SortInPlace(a, ItemLe(parse));
    ranked := a[..];
  }

  /** `Object.entries(payload)` sorted by the entry comparator. */
  method RankEntries(entries: seq<(string, Value)>, parse: string -> Option<real>)
    returns (ranked: seq<(string, Value)>)
    ensures multiset(ranked) == multiset(entries)
    ensures SortedBy(ranked, EntryLe(parse))
  {
    var a := new (string, Value)[|entries|](i requires 0 <= i < |entries| => entries[i]);
    assert a[..] == entries;
    EntryLePreorder(parse);
    SortInPlace(a, EntryLe(parse));
    ranked := a[..];
  }

  /** The source's function. The two ghost results are the sorted array and
      the sorted entries the terms are read from. */
  method NormalizeRelated(input: Value, parse: string -> Option<real>)
    returns (terms: seq<Value>, ghost rankedItems: seq<Value>, ghost rankedEntries: seq<(string, Value)>)
    ensures var p := Payload(input);
      && (IsTermList(p) ==> terms == p.items)
      && (IsObjectList(p) ==>
            && multiset(rankedItems) == multiset(p.items)
            && SortedBy(rankedItems, ItemLe(parse))
            && terms == TermsOf(rankedItems)
            && multiset(terms) == multiset(TermsOf(p.items)))
      && (IsTermMap(p) ==>
            && multiset(rankedEntries) == multiset(Entries(p))
            && SortedBy(rankedEntries, EntryLe(parse))
            && terms == KeysOf(rankedEntries)
            && multiset(terms) == multiset(KeysOf(Entries(p))))
      && (!p.Arr? && !p.Obj? ==> terms == [])
  {
    rankedItems, rankedEntries := [], [];
    var payload := Payload(input);
    if payload.Arr? && (|payload.items| == 0 || payload.items[0].Str?) {
      return payload.items, rankedItems, rankedEntries;
    }
    if payload.Arr? && IsObjectLike(payload.items[0]) {
      var ranked := RankItems(payload.items, parse);
      rankedItems := ranked;
      MapPermutation(TermOf, ranked, payload.items);
      return TermsOf(ranked), rankedItems, rankedEntries;
    }
    if payload.Arr? || payload.Obj? {
      var ranked := RankEntries(Entries(payload), parse);
      rankedEntries := ranked;
      MapPermutation((e: (string, Value)) => Str(e.0), ranked, Entries(payload));
      return KeysOf(ranked), rankedItems, rankedEntries;
    }
    return [], rankedItems, rankedEntries;
  }

  /** In a list sorted by the element comparator, scores never increase and
      unscored elements come after every scored one. */
  lemma RankedItemsOrder(ranked: seq<Value>, parse: string -> Option<real>, i: int, j: int)
    requires SortedBy(ranked, ItemLe(parse)) && 0 <= i < j < |ranked|
    ensures ScoreLe(ItemScore(ranked[i], parse), ItemScore(ranked[j], parse))
  {
    assert ItemLe(parse)(ranked[i], ranked[j]);
  }

  /** In a map sorted by the entry comparator, scores never increase,
      unscored keys come after every scored one, and unscored keys are in
      ascending order. */
  lemma RankedEntriesOrder(ranked: seq<(string, Value)>, parse: string -> Option<real>, i: int, j: int)
    requires SortedBy(ranked, EntryLe(parse)) && 0 <= i < j < |ranked|
    ensures ScoreLe(EntryScore(ranked[i].1, parse), EntryScore(ranked[j].1, parse))
    ensures EntryScore(ranked[i].1, parse).None? ==> LexLe(ranked[i].0, ranked[j].0)
  {
    assert EntryLe(parse)(ranked[i], ranked[j]);
  }
}
