/** The study list: reading fields of a study record (`getField`), finding
    the study array in a response (`toStudiesArray`), and the client-side
    year filter and year sort of `applyStudyFiltersAndRender`. */
module Studies {
  import opened Wrappers
  import opened Text
  import opened Numbers
  import opened Json
  import opened Sorting

  /** One key as `getField` tries it: the key as given, then its upper-case
      form when that is not empty. */
  function FieldOf(obj: Value, k: string): (r: Option<Value>)
    ensures r.Some? <==> obj.Obj? && (k in Keys(obj.entries) || (Upper(k) != [] && Upper(k) in Keys(obj.entries)))
    ensures r.Some? ==> (k, r.value) in obj.entries || (Upper(k), r.value) in obj.entries
    ensures obj.Obj? && k in Keys(obj.entries) ==> r == Lookup(obj.entries, k)
  {
    if Prop(obj, k).Some? then Prop(obj, k)
    else if Upper(k) != [] then Prop(obj, Upper(k))
    else None
  }

  /** What `getField` returns: the value under the first key present, and
      `''` when none is. */
  function FieldLookup(obj: Value, keys: seq<string>): Value {
    if keys == [] then Str("")
    else if FieldOf(obj, keys[0]).Some? then FieldOf(obj, keys[0]).value
    else FieldLookup(obj, keys[1..])
  }

  /** The source's loop over the keys. */
  method GetField(obj: Value, keys: seq<string>) returns (r: Value)
    ensures r == FieldLookup(obj, keys)
  {
    for i := 0 to |keys|
      invariant FieldLookup(obj, keys[i..]) == FieldLookup(obj, keys)
    {
      var k := keys[i];
      assert keys[i..][0] == k && keys[i..][1..] == keys[i + 1..];
      if Prop(obj, k).Some? {
        return Prop(obj, k).value;
      }
      var upper := Upper(k);
      if upper != [] && Prop(obj, upper).Some? {
        return Prop(obj, upper).value;
      }
    }
    assert keys[|keys|..] == [];
    return Str("");
  }

  /** The value under the first key that is present, whatever follows. */
  lemma {:induction false} FieldLookupFirst(obj: Value, keys: seq<string>, i: int)
    requires 0 <= i < |keys| && FieldOf(obj, keys[i]).Some?
    requires forall j :: 0 <= j < i ==> FieldOf(obj, keys[j]).None?
    ensures FieldLookup(obj, keys) == FieldOf(obj, keys[i]).value
  {
    if i > 0 {
      assert FieldOf(obj, keys[0]).None?;
      assert forall j :: 0 <= j < i - 1 ==> keys[1..][j] == keys[j + 1];
      FieldLookupFirst(obj, keys[1..], i - 1);
    }
  }

  /** No key present gives the empty string. */
  lemma {:induction false} FieldLookupMissing(obj: Value, keys: seq<string>)
    requires forall j :: 0 <= j < |keys| ==> FieldOf(obj, keys[j]).None?
    ensures FieldLookup(obj, keys) == Str("")
  {
    if keys != [] {
      assert FieldOf(obj, keys[0]).None?;
      assert forall j :: 0 <= j < |keys| - 1 ==> keys[1..][j] == keys[j + 1];
      FieldLookupMissing(obj, keys[1..]);
    }
  }

  /** `Array.isArray(data?.[k])`: the items of an array under `k`. */
  predicate HasArray(data: Value, k: string) {
    Prop(data, k).Some? && Prop(data, k).value.Arr?
  }

  /** `toStudiesArray`: the input when it is an array, else the array under
      `results`, else the array under `studies`, else `[]`. */
  function ToStudiesArray(data: Value): (r: seq<Value>)
    ensures data.Arr? ==> r == data.items
    ensures !data.Arr? && HasArray(data, "results") ==> Prop(data, "results") == Some(Arr(r))
    ensures !data.Arr? && !HasArray(data, "results") && HasArray(data, "studies")
      ==> Prop(data, "studies") == Some(Arr(r))
    ensures !data.Arr? && !HasArray(data, "results") && !HasArray(data, "studies") ==> r == []
  {
    if data.Arr? then data.items
    else if HasArray(data, "results") then Prop(data, "results").value.items
    else if HasArray(data, "studies") then Prop(data, "studies").value.items
    else []
  }

  /** An array found once is found again: the study array of an array is
      that array. */
  lemma ToStudiesArrayIdempotent(data: Value)
    ensures ToStudiesArray(Arr(ToStudiesArray(data))) == ToStudiesArray(data)
  {
  }

  /** The keys a study's year is read from. */
  const YearKeys: seq<string> := ["year", "publication_year"]

  /** `Number.parseInt(String(v), 10)`. A number's decimal form is read up
      to its fraction, which is rounding toward zero. */
  function YearOfValue(v: Value): Option<int> {
    match v
    case Str(s) => ParseInt(s)
    case Num(n) => Some(Trunc(n))
    case Bool(b) => ParseInt(if b then "true" else "false")
    case Null => ParseInt("null")
    case Obj(_) => ParseInt("[object Object]")
    case Arr(_) => None
  }

  /** The year of a study; `None` stands for `NaN`. */
  function StudyYear(s: Value): Option<int> {
    YearOfValue(FieldLookup(s, YearKeys))
  }

  /** A year stored as a number and a year stored as its decimal text are
      the same year. */
  lemma YearOfInteger(k: int)
    ensures YearOfValue(Num(k as real)) == Some(k)
    ensures YearOfValue(Str(IntToString(k))) == Some(k)
  {
    TruncOfInt(k);
    YearOfDecimal(k);
  }

  lemma YearOfDecimal(k: int)
    ensures YearOfValue(Str(IntToString(k))) == Some(k)
  {
    var s := IntToString(k);
    assert YearOfValue(Str(s)) == ParseInt(s);
    ParseIntIntToString(k);
  }

  /** Year text followed by anything that is not a digit is still read:
      `"2020"`, `"2020-05-01"` and `"2020 AD"` all give 2020. */
  lemma YearOfText(n: nat, rest: string)
    requires rest == [] || !IsDigit(rest[0])
    ensures YearOfValue(Str(NatToString(n) + rest)) == Some(n)
  {
    ParseIntNatToString(n, rest);
  }

  /** Booleans, `null` and objects have no year. */
  lemma YearOfNonNumeric(v: Value)
    requires v.Bool? || v.Null? || v.Obj?
    ensures YearOfValue(v) == None
  {
    match v
    case Bool(b) =>
      if b {
        ParseIntNoDigits("true");
      } else {
        ParseIntNoDigits("false");
      }
    case Null =>
      ParseIntNoDigits("null");
    case Obj(_) =>
      ParseIntNoDigits("[object Object]");
  }

  /** A year bound typed into a filter box: empty is no bound, anything else
      is read by `parseInt`, and text without digits is no bound either. */
  function Bound(text: string): Option<int> {
    if text == [] then None else ParseInt(text)
  }

  /** The predicate the source passes to `filter`. */
  predicate Kept(s: Value, from: Option<int>, to: Option<int>) {
    var y := StudyYear(s);
    if (from.Some? || to.Some?) && y.None? then false
    else if from.Some? && y.Some? && y.value < from.value then false
    else if to.Some? && y.Some? && y.value > to.value then false
    else true
  }

  /** Without bounds every study is kept; with a bound, exactly the studies
      with a valid year inside every bound given. */
  lemma KeptIff(s: Value, from: Option<int>, to: Option<int>)
    ensures Kept(s, from, to) <==>
      (from.None? && to.None?) ||
      (StudyYear(s).Some?
        && (from.None? || from.value <= StudyYear(s).value)
        && (to.None? || StudyYear(s).value <= to.value))
  {
  }

  /** `studies.filter(...)`: every study that passes, as often as it occurs,
      and nothing else. */
  function Filter(studies: seq<Value>, from: Option<int>, to: Option<int>): (r: seq<Value>)
    ensures forall x :: multiset(r)[x] == if Kept(x, from, to) then multiset(studies)[x] else 0
  {
    if studies == [] then []
    else
      var rest := Filter(studies[1..], from, to);
      assert studies == [studies[0]] + studies[1..];
      if Kept(studies[0], from, to) then [studies[0]] + rest else rest
  }

  /** `sortDir === 'asc'`, where `sortDir` is the selected option, `desc`
      when none is, in lower case. */
  function Ascending(sortValue: string): bool {
    Lower(if sortValue == [] then "desc" else sortValue) == "asc"
  }

  /** The year comparator: a positive result puts `b` first. Two studies
      without a year tie, one without a year goes last, and otherwise the
      years are compared in the chosen direction. */
  function YearCompare(asc: bool, ya: Option<int>, yb: Option<int>): int {
    if ya.None? && yb.None? then 0
    else if ya.None? then 1
    else if yb.None? then -1
    else if asc then ya.value - yb.value
    else yb.value - ya.value
  }

  /** `compare(a, b) <= 0` for the year comparator. */
  function YearLe(asc: bool): (Value, Value) -> bool {
    (a: Value, b: Value) => YearCompare(asc, StudyYear(a), StudyYear(b)) <= 0
  }

  lemma YearLePreorder(asc: bool)
    ensures Total(YearLe(asc)) && Transitive(YearLe(asc))
  {
    var le := YearLe(asc);
    forall x, y ensures le(x, y) || le(y, x) {
      YearCompareTotal(asc, StudyYear(x), StudyYear(y));
    }
    forall x, y, z | le(x, y) && le(y, z) ensures le(x, z) {
      YearCompareTransitive(asc, StudyYear(x), StudyYear(y), StudyYear(z));
    }
  }

  lemma YearCompareTotal(asc: bool, a: Option<int>, b: Option<int>)
    ensures YearCompare(asc, a, b) <= 0 || YearCompare(asc, b, a) <= 0
  {
  }

  lemma YearCompareTransitive(asc: bool, a: Option<int>, b: Option<int>, c: Option<int>)
    requires YearCompare(asc, a, b) <= 0 && YearCompare(asc, b, c) <= 0
    ensures YearCompare(asc, a, c) <= 0
  {
  }

  /** The last fetched studies as the source reads them: an array, or
      nothing. */
  function RawStudies(raw: Value): seq<Value> {
    if raw.Arr? then raw.items else []
  }

  /** The list `applyStudyFiltersAndRender` hands to the renderer: the kept
      studies, sorted by year in place. */
  method ApplyStudyFilters(raw: Value, sortValue: string, fromText: string, toText: string)
    returns (shown: seq<Value>)
    ensures multiset(shown) == multiset(Filter(RawStudies(raw), Bound(fromText), Bound(toText)))
    ensures SortedBy(shown, YearLe(Ascending(sortValue)))
    ensures forall i :: 0 <= i < |shown| ==> Kept(shown[i], Bound(fromText), Bound(toText))
    ensures multiset(shown) <= multiset(RawStudies(raw))
  {
    var arr := RawStudies(raw);
    if |arr| == 0 {
      return [];
    }
    var asc := Ascending(sortValue);
    var from, to := Bound(fromText), Bound(toText);
    var filtered := Filter(arr, from, to);
    shown := SortByYear(filtered, asc);
    FilteredKept(shown, arr, from, to);
  }

  /** `filtered.sort(...)` by the year comparator, on a copy in an array. */
  method SortByYear(studies: seq<Value>, asc: bool) returns (sorted: seq<Value>)
    ensures multiset(sorted) == multiset(studies)
    ensures SortedBy(sorted, YearLe(asc))
  {
    var a := new Value[|studies|](i requires 0 <= i < |studies| => studies[i]);
    assert a[..] == studies;
    YearLePreorder(asc);
    SortInPlace(a, YearLe(asc));
    sorted := a[..];
  }

  /** A permutation of the filtered studies holds only kept studies, each
      at most as often as the input does. */
  lemma FilteredKept(shown: seq<Value>, studies: seq<Value>, from: Option<int>, to: Option<int>)
    requires multiset(shown) == multiset(Filter(studies, from, to))
    ensures forall i :: 0 <= i < |shown| ==> Kept(shown[i], from, to)
    ensures multiset(shown) <= multiset(studies)
  {
    forall i | 0 <= i < |shown| ensures Kept(shown[i], from, to) {
      assert shown[i] in multiset(shown);
    }
  }

  /** In a list sorted by the year comparator, studies without a year come
      after every study with one, and the years run in the chosen
      direction. */
  lemma SortedYears(shown: seq<Value>, asc: bool, i: int, j: int)
    requires SortedBy(shown, YearLe(asc)) && 0 <= i < j < |shown|
    ensures StudyYear(shown[i]).None? ==> StudyYear(shown[j]).None?
    ensures StudyYear(shown[i]).Some? && StudyYear(shown[j]).Some? ==>
      if asc then StudyYear(shown[i]).value <= StudyYear(shown[j]).value
      else StudyYear(shown[i]).value >= StudyYear(shown[j]).value
  {
    assert YearLe(asc)(shown[i], shown[j]);
  }

  /** Only the exact text `asc`, in any case, sorts ascending. */
  lemma AscendingExamples()
    ensures Ascending("ASC") && Ascending("asc")
    ensures !Ascending("") && !Ascending("desc")
  {
    assert Lower("ASC") == "asc";
    assert Lower("desc") != "asc";
  }
}
