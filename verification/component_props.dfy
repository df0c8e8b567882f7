/**
 * The `sort-component-props` rule: the destructured first parameter of a
 * function declaration, function expression or arrow function.
 *
 * A rest element is pinned last; an entry whose key has no name ties with
 * every other entry; the remaining entries are ordered: reserved names first,
 * callbacks last, entries without a default value before entries with one,
 * then by name. The fix replaces the whole run of entries with the sorted
 * entries' texts joined by ", ".
 */
module ComponentProps {
  import opened Names
  import opened Sorting
  import opened LexKey
  import opened Fields

  datatype Options = Options(
    callbacksLast: bool,
    noSortAlphabetically: bool,
    reservedFirst: bool,
    reservedPropsNames: seq<string>)

  const DefaultReservedNames: seq<string> := ["id", "key", "ref", "name", "type"]

  /** Reads the options object; `shorthandFirst` is accepted by the schema but
      never read. */
  function Configure(raw: RawOptions): Options {
    Options(
      callbacksLast := raw.callbacksLast != Some(false),
      noSortAlphabetically := raw.noSortAlphabetically == Some(true),
      reservedFirst := raw.reservedFirst != Some(false),
      reservedPropsNames := match raw.reservedPropsNames
                            case Some(names) => names
                            case None => DefaultReservedNames)
  }

  lemma ConfigureDefaults()
    ensures Configure(NoOptions) == Options(true, false, true, ["id", "key", "ref", "name", "type"])
  {
  }

  /** The callback heuristic: `on` or `set` followed by a character that
      upper-casing leaves unchanged, a `Callback` or `Handler` suffix, or any
      name starting with `handle`. */
  predicate IsCallback(n: string) {
    || (|n| > 2 && StartsWith(n, "on") && UnchangedByUpper(n[2]))
    || (|n| > 3 && StartsWith(n, "set") && UnchangedByUpper(n[3]))
    || EndsWith(n, "Callback")
    || EndsWith(n, "Handler")
    || StartsWith(n, "handle")
  }

  predicate IsReserved(o: Options, n: string) {
    n in o.reservedPropsNames
  }

  /** The entry's value is an assignment pattern, `name = default`. */
  predicate HasDefaultValue(f: Field) {
    f.optional
  }

  /** `a.key ? a.key.name : null` is truthy: the key is an identifier. */
  predicate HasKeyName(f: Field) {
    f.name.Some? && f.name.value != ""
  }

  /** The sort's comparator; `nameCmp` stands for `localeCompare`. */
  function Compare(o: Options, nameCmp: (string, string) -> int, a: Field, b: Field): int {
    if a.kind == Rest then 1
    else if b.kind == Rest then -1
    else if !HasKeyName(a) || !HasKeyName(b) then 0
    else
      var an, bn := a.name.value, b.name.value;
      if o.reservedFirst && IsReserved(o, an) && !IsReserved(o, bn) then -1
      else if o.reservedFirst && !IsReserved(o, an) && IsReserved(o, bn) then 1
      else if o.callbacksLast && IsCallback(an) && !IsCallback(bn) then 1
      else if o.callbacksLast && !IsCallback(an) && IsCallback(bn) then -1
      else if !HasDefaultValue(a) && HasDefaultValue(b) then -1
      else if HasDefaultValue(a) && !HasDefaultValue(b) then 1
      else if !o.noSortAlphabetically then nameCmp(an, bn)
      else 0
  }

  function Comparator(o: Options, nameCmp: (string, string) -> int): (Field, Field) -> int {
    (a, b) => Compare(o, nameCmp, a, b)
  }

  /** The bucket key of a named, non-rest entry: (reserved stage, callback
      stage, default-value stage). */
  function Key(o: Options, f: Field): seq<int> {
    [ if o.reservedFirst && !IsReserved(o, Label(f)) then 1 else 0,
      if o.callbacksLast && IsCallback(Label(f)) then 1 else 0,
      if f.optional then 1 else 0 ]
  }

  function Tie(o: Options, nameCmp: (string, string) -> int, a: Field, b: Field): int {
    if o.noSortAlphabetically then 0 else nameCmp(Label(a), Label(b))
  }

  /** Between two named entries that are not rest elements, the comparator is
      the lexicographic order of the bucket keys followed by the name order. */
  lemma CompareIsKeyOrder(o: Options, nameCmp: (string, string) -> int, a: Field, b: Field)
    requires a.kind != Rest && b.kind != Rest && HasKeyName(a) && HasKeyName(b)
    ensures Sign(Compare(o, nameCmp, a, b)) == LexCmp(Key(o, a), Key(o, b), Tie(o, nameCmp, a, b))
  {
    LexCmp3(Key(o, a), Key(o, b), Tie(o, nameCmp, a, b));
  }

  /** A rest element sorts after every other entry; an entry without a key
      name ties with every entry that is not a rest element. */
  lemma RestAndUnnamed(o: Options, nameCmp: (string, string) -> int, a: Field, b: Field)
    ensures a.kind == Rest && b.kind != Rest ==>
              Compare(o, nameCmp, a, b) > 0 && Compare(o, nameCmp, b, a) < 0
    ensures a.kind != Rest && b.kind != Rest && !HasKeyName(a) ==>
              Compare(o, nameCmp, a, b) == 0 && Compare(o, nameCmp, b, a) == 0
  {
  }

  /** `a` and `b` fall in the same bucket of every enabled reserved and
      callback stage. */
  predicate SameBucket(o: Options, a: Field, b: Field) {
    && (o.reservedFirst ==> (IsReserved(o, Label(a)) <==> IsReserved(o, Label(b))))
    && (o.callbacksLast ==> (IsCallback(Label(a)) <==> IsCallback(Label(b))))
  }

  /** Within one bucket, an entry with a default value always follows one
      without, whatever the names. */
  lemma DefaultAfterNonDefault(o: Options, nameCmp: (string, string) -> int, a: Field, b: Field)
    requires a.kind != Rest && b.kind != Rest && HasKeyName(a) && HasKeyName(b)
    requires SameBucket(o, a, b) && !a.optional && b.optional
    ensures Compare(o, nameCmp, a, b) < 0 && Compare(o, nameCmp, b, a) > 0
  {
  }

  /** With `reservedFirst`, a reserved entry precedes every entry that is
      not reserved, whatever else they are. */
  lemma ReservedFirst(o: Options, nameCmp: (string, string) -> int, a: Field, b: Field)
    requires a.kind != Rest && b.kind != Rest && HasKeyName(a) && HasKeyName(b)
    requires o.reservedFirst && IsReserved(o, Label(a)) && !IsReserved(o, Label(b))
    ensures Compare(o, nameCmp, a, b) < 0 && Compare(o, nameCmp, b, a) > 0
  {
  }

  /** With `callbacksLast`, within one reserved bucket a callback follows
      every entry that is not one, defaults and names notwithstanding. */
  lemma CallbacksLast(o: Options, nameCmp: (string, string) -> int, a: Field, b: Field)
    requires a.kind != Rest && b.kind != Rest && HasKeyName(a) && HasKeyName(b)
    requires o.callbacksLast && (o.reservedFirst ==> (IsReserved(o, Label(a)) <==> IsReserved(o, Label(b))))
    requires !IsCallback(Label(a)) && IsCallback(Label(b))
    ensures Compare(o, nameCmp, a, b) < 0 && Compare(o, nameCmp, b, a) > 0
  {
  }

  /** Entries that agree on every bucket are ordered by name alone, or tie
      when alphabetical sorting is off. */
  lemma ByNameWithinBucket(o: Options, nameCmp: (string, string) -> int, a: Field, b: Field)
    requires a.kind != Rest && b.kind != Rest && HasKeyName(a) && HasKeyName(b)
    requires SameBucket(o, a, b) && a.optional == b.optional
    ensures Compare(o, nameCmp, a, b) == (if o.noSortAlphabetically then 0 else nameCmp(Label(a), Label(b)))
  {
  }

  /** Every entry is a rest element or has a key name. */
  predicate AllNamed(props: seq<Field>) {
    forall f | f in props :: f.kind == Rest || HasKeyName(f)
  }

  predicate AtMostOneRest(props: seq<Field>) {
    forall i, j | 0 <= i < j < |props| :: !(props[i].kind == Rest && props[j].kind == Rest)
  }

  lemma OneRest(props: seq<Field>, a: Field, b: Field)
    requires AtMostOneRest(props) && a in props && b in props && a.kind == Rest && b.kind == Rest
    ensures a == b
  {
    var i :| 0 <= i < |props| && props[i] == a;
    var j :| 0 <= j < |props| && props[j] == b;
    assert !(i < j) && !(j < i);
  }

  /** When every entry is named and there is at most one rest element, the
      comparator is a total preorder on the entries, so the stable sort's
      result is determined. */
  lemma ComparatorIsTotalPreorderOn(o: Options, nameCmp: (string, string) -> int, props: seq<Field>)
    requires TotalPreorder(nameCmp) && AllNamed(props) && AtMostOneRest(props)
    ensures TotalPreorderOn(Comparator(o, nameCmp), props)
  {
    var cmp := Comparator(o, nameCmp);
    forall a, b | a in props && b in props && a != b ensures Sign(cmp(a, b)) == -Sign(cmp(b, a)) {
      if a.kind == Rest && b.kind == Rest {
        OneRest(props, a, b);
      } else if a.kind != Rest && b.kind != Rest {
        CompareIsKeyOrder(o, nameCmp, a, b);
        CompareIsKeyOrder(o, nameCmp, b, a);
        LexAntisymmetric(Key(o, a), Key(o, b), Tie(o, nameCmp, a, b), Tie(o, nameCmp, b, a));
      }
    }
    forall a, b, c | a in props && b in props && c in props && cmp(a, b) <= 0 && cmp(b, c) <= 0
      ensures cmp(a, c) <= 0
    {
      if a.kind != Rest && b.kind != Rest && c.kind != Rest {
        CompareIsKeyOrder(o, nameCmp, a, b);
        CompareIsKeyOrder(o, nameCmp, b, c);
        CompareIsKeyOrder(o, nameCmp, a, c);
        LexTransitive(Key(o, a), Key(o, b), Key(o, c), Tie(o, nameCmp, a, b), Tie(o, nameCmp, b, c), Tie(o, nameCmp, a, c));
      }
    }
  }

  /** A function parameter: a destructuring object pattern, or anything else. */
  datatype Param = ObjectPattern(properties: seq<Field>) | OtherParam

  /** A function node: its own name, the name of the variable it initialises
      (when its parent is a declarator with an identifier), whether its body
      returns JSX, and its parameters. */
  datatype FunctionNode = FunctionNode(
    id: Option<string>,
    declaratorName: Option<string>,
    returnsJsx: bool,
    params: seq<Param>)

  /** The component heuristic: the function's or the variable's name starts
      with a character upper-casing leaves unchanged, or, without a name, the
      body returns JSX. */
  predicate IsReactComponent(fn: FunctionNode) {
    if fn.id.Some? && fn.id.value != "" then UnchangedByUpper(fn.id.value[0])
    else if fn.declaratorName.Some? then fn.declaratorName.value != "" && UnchangedByUpper(fn.declaratorName.value[0])
    else fn.returnsJsx
  }

  predicate IsFirstParamPropsDestructuring(fn: FunctionNode) {
    |fn.params| > 0 && fn.params[0].ObjectPattern?
  }

  /** The entries the rule sorts. The component heuristic is only one side of
      an "or" with the parameter test that follows anyway, so it never decides
      the outcome. */
  function Extract(fn: FunctionNode): (r: Option<seq<Field>>)
    ensures r.Some? <==> |fn.params| > 0 && fn.params[0].ObjectPattern? && |fn.params[0].properties| >= 2
    ensures r.Some? ==> r.value == fn.params[0].properties
  {
    if !IsReactComponent(fn) && !IsFirstParamPropsDestructuring(fn) then None
    else if |fn.params| == 0 || !fn.params[0].ObjectPattern? then None
    else
      var properties := fn.params[0].properties;
      if |properties| < 2 then None
      else Some(properties)
  }

  const Message := "React component props should be sorted according to the defined order."
  const Separator := ", "

  /** The single edit: the range from the first entry's start to the last
      entry's end, replaced by the sorted entries' texts joined by ", ". */
  function JoinFix(props: seq<Field>, sorted: seq<Field>): Edit
    requires |props| > 0
  {
    Replace(props[0].start, props[|props| - 1].end, Join(Texts(sorted), Separator))
  }

  function Visit(o: Options, nameCmp: (string, string) -> int, fn: FunctionNode): Option<Report> {
    match Extract(fn)
    case None => None
    case Some(props) =>
      var sorted := Sort(props, Comparator(o, nameCmp));
      if sorted == props then None
      else Some(Report(Message, [JoinFix(props, sorted)]))
  }

  /** With at most one rest element, the rest element ends last, whatever the
      other entries are (named or not). */
  lemma RestEndsLast(o: Options, nameCmp: (string, string) -> int, props: seq<Field>, rest: Field)
    requires WellFormed(props) && AtMostOneRest(props)
    requires rest in props && rest.kind == Rest
    ensures Sort(props, Comparator(o, nameCmp))[|props| - 1] == rest
  {
    var cmp := Comparator(o, nameCmp);
    WellFormedRanks(props);
    DistinctOnce(props, rest);
    forall y | y in props && y != rest ensures cmp(rest, y) > 0 && cmp(y, rest) <= 0 {
      if y.kind == Rest {
        OneRest(props, rest, y);
      }
    }
    SortPutsGreatestLast(props, cmp, rest);
  }

  /** The rule reports exactly when the sort moves some entry. When every
      entry is named and there is at most one rest element, this is the same
      as some adjacent pair comparing greater than zero. */
  lemma ReportedIffSortMoves(o: Options, nameCmp: (string, string) -> int, fn: FunctionNode)
    requires Extract(fn).Some? && WellFormed(Extract(fn).value)
    ensures var props := Extract(fn).value;
            Visit(o, nameCmp, fn).Some? <==> Sort(props, Comparator(o, nameCmp)) != props
    ensures var props := Extract(fn).value;
            TotalPreorder(nameCmp) && AllNamed(props) && AtMostOneRest(props) ==>
              (Visit(o, nameCmp, fn).Some? <==> !AdjacentSorted(Comparator(o, nameCmp), props))
  {
    var props := Extract(fn).value;
    if TotalPreorder(nameCmp) && AllNamed(props) && AtMostOneRest(props) {
      ComparatorIsTotalPreorderOn(o, nameCmp, props);
      WellFormedRanks(props);
      SortFixedIffAdjacentSorted(props, Comparator(o, nameCmp));
    }
  }

  /** When sorting moves an entry, the report is the message and the single
      joined edit. */
  lemma MovedReport(o: Options, nameCmp: (string, string) -> int, fn: FunctionNode)
    requires Extract(fn).Some? && Sort(Extract(fn).value, Comparator(o, nameCmp)) != Extract(fn).value
    ensures Visit(o, nameCmp, fn)
              == Some(Report(Message, [JoinFix(Extract(fn).value, Sort(Extract(fn).value, Comparator(o, nameCmp)))]))
  {
  }

  /** The joined replacement for a permutation of the entries: it spans all
      entries, every original text appears in it as often as its entry does,
      the k-th sorted text sits at its offset, and exactly n - 1 separators
      are added. */
  lemma JoinFixShape(props: seq<Field>, sorted: seq<Field>)
    requires |props| > 0 && multiset(sorted) == multiset(props)
    ensures var fix := JoinFix(props, sorted);
            && fix.start == props[0].start
            && fix.end == props[|props| - 1].end
            && fix.text == Join(Texts(sorted), Separator)
            && multiset(Texts(sorted)) == multiset(Texts(props))
            && |fix.text| == TotalLength(Texts(sorted)) + 2 * (|props| - 1)
            && TextsAtOffsets(fix.text, sorted, Separator)
  {
    assert |sorted| == |multiset(sorted)| == |props|;
    TextsPermute(sorted, props);
    JoinLength(Texts(sorted), Separator);
    JoinHoldsTexts(sorted, Separator);
  }

  /** A report carries the rule's message and one edit. The edit spans the
      entries from the first one's start to the last one's end, and rewrites
      them into their sorted order: every original text is kept as often as
      its entry, the k-th sorted text sits at its offset, and only the n - 1
      separators are added. When the comparator is a total preorder on the
      entries, some adjacent pair of the source order compares above zero. */
  lemma ReportFix(o: Options, nameCmp: (string, string) -> int, fn: FunctionNode)
    requires Visit(o, nameCmp, fn).Some?
    ensures var props := Extract(fn).value;
            var sorted := Sort(props, Comparator(o, nameCmp));
            var report := Visit(o, nameCmp, fn).value;
            && report.message == Message
            && |report.fixes| == 1
            && report.fixes[0].start == props[0].start
            && report.fixes[0].end == props[|props| - 1].end
            && multiset(Texts(sorted)) == multiset(Texts(props))
            && |report.fixes[0].text| == TotalLength(Texts(sorted)) + |Separator| * (|props| - 1)
            && TextsAtOffsets(report.fixes[0].text, sorted, Separator)
    ensures var props := Extract(fn).value;
            TotalPreorder(nameCmp) && WellFormed(props) && AllNamed(props) && AtMostOneRest(props) ==>
              !AdjacentSorted(Comparator(o, nameCmp), props)
  {
    var props := Extract(fn).value;
    var sorted := Sort(props, Comparator(o, nameCmp));
    assert sorted != props;
    MovedReport(o, nameCmp, fn);
    assert Visit(o, nameCmp, fn).value == Report(Message, [JoinFix(props, sorted)]);
    JoinFixShape(props, sorted);
    if TotalPreorder(nameCmp) && WellFormed(props) && AllNamed(props) && AtMostOneRest(props) {
      ReportedIffSortMoves(o, nameCmp, fn);
    }
  }

  /** In the sorted entries, when the comparator is a total preorder, no
      entry with a default value precedes one without in the same bucket. */
  lemma SortedDefaultsLast(o: Options, nameCmp: (string, string) -> int, props: seq<Field>)
    requires TotalPreorder(nameCmp) && WellFormed(props) && AllNamed(props) && AtMostOneRest(props)
    ensures var r := Sort(props, Comparator(o, nameCmp));
            forall i, j | 0 <= i < j < |r| && r[i].kind != Rest && r[j].kind != Rest && SameBucket(o, r[i], r[j]) ::
              !(r[i].optional && !r[j].optional)
  {
    var cmp := Comparator(o, nameCmp);
    var r := Sort(props, cmp);
    ComparatorIsTotalPreorderOn(o, nameCmp, props);
    WellFormedRanks(props);
    SortSorted(props, cmp);
    forall i, j | 0 <= i < j < |r| && r[i].kind != Rest && r[j].kind != Rest && SameBucket(o, r[i], r[j])
      ensures !(r[i].optional && !r[j].optional)
    {
      InMultiset(r[i], r);
      InMultiset(r[j], r);
      if r[i].optional && !r[j].optional {
        DefaultAfterNonDefault(o, nameCmp, r[j], r[i]);
      }
    }
  }

  /** The function after the fix: its first parameter holds the sorted entries. */
  function Fixed(fn: FunctionNode, sorted: seq<Field>): FunctionNode
    requires |fn.params| > 0
  {
    fn.(params := [ObjectPattern(sorted)] + fn.params[1..])
  }

  /** When the comparator is a total preorder on the entries, running the rule
      on the fixed function reports nothing. */
  lemma FixIsIdempotent(o: Options, nameCmp: (string, string) -> int, fn: FunctionNode)
    requires Extract(fn).Some?
    requires var props := Extract(fn).value;
             TotalPreorder(nameCmp) && WellFormed(props) && AllNamed(props) && AtMostOneRest(props)
    ensures var sorted := Sort(Extract(fn).value, Comparator(o, nameCmp));
            Visit(o, nameCmp, Fixed(fn, sorted)).None?
  {
    var props := Extract(fn).value;
    var cmp := Comparator(o, nameCmp);
    var sorted := Sort(props, cmp);
    ComparatorIsTotalPreorderOn(o, nameCmp, props);
    WellFormedRanks(props);
    SortSorted(props, cmp);
    SortedIsFixed(sorted, cmp);
    assert Extract(Fixed(fn, sorted)) == Some(sorted);
  }
}
