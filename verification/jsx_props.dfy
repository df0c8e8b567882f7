/**
 * The `sort-jsx-props` rule: the attributes of a JSX opening element.
 *
 * Spread attributes are not sorted and keep their index; the named
 * attributes are ordered: multiline placement (when enabled), reserved names
 * first, shorthand attributes first, callbacks last, then by name,
 * optionally compared in lower case. The fix rewrites every attribute slot
 * whose attribute changed.
 */
module JsxProps {
  import opened Names
  import opened Sorting
  import opened LexKey
  import opened Fields

  /** Where attributes spanning several lines go. */
  datatype Multiline = First | Last | Ignore

  /** The two shapes of callback pattern: `^prefix[A-Z]` and `suffix$`. */
  datatype Pattern = PrefixThenUpper(prefix: string) | Suffix(suffix: string)

  predicate Matches(p: Pattern, n: string) {
    match p
    case PrefixThenUpper(prefix) => |n| > |prefix| && StartsWith(n, prefix) && IsAsciiUpper(n[|prefix|])
    case Suffix(suffix) => EndsWith(n, suffix)
  }

  const DefaultPatterns: seq<Pattern> := [
    PrefixThenUpper("on"), PrefixThenUpper("set"), Suffix("Callback"), Suffix("Handler"), PrefixThenUpper("handle")
  ]

  const DefaultReservedNames: seq<string> := ["id", "key", "ref", "name", "type", "className", "style"]

  datatype Options = Options(
    callbacksLast: bool,
    shorthandFirst: bool,
    noSortAlphabetically: bool,
    reservedFirst: bool,
    reservedPropsNames: seq<string>,
    ignoreCase: bool,
    multiline: Multiline,
    callbackPatterns: seq<Pattern>)

  /** The options object as written; `locale` only reaches `localeCompare`,
      which is a parameter of the comparator. */
  datatype RawJsxOptions = RawJsxOptions(
    base: RawOptions,
    ignoreCase: Option<bool>,
    multiline: Option<Multiline>,
    callbackPatterns: Option<seq<Pattern>>)

  /** Reads the options object. Unlike the other two rules, `shorthandFirst`
      is on unless set to false. */
  function Configure(raw: RawJsxOptions): Options {
    Options(
      callbacksLast := raw.base.callbacksLast != Some(false),
      shorthandFirst := raw.base.shorthandFirst != Some(false),
      noSortAlphabetically := raw.base.noSortAlphabetically == Some(true),
      reservedFirst := raw.base.reservedFirst != Some(false),
      reservedPropsNames := match raw.base.reservedPropsNames
                            case Some(names) => names
                            case None => DefaultReservedNames,
      ignoreCase := raw.ignoreCase == Some(true),
      multiline := match raw.multiline
                   case Some(m) => m
                   case None => Ignore,
      callbackPatterns := match raw.callbackPatterns
                          case Some(patterns) => patterns
                          case None => DefaultPatterns)
  }

  lemma ConfigureDefaults()
    ensures var o := Configure(RawJsxOptions(NoOptions, None, None, None));
            && o.callbacksLast && o.shorthandFirst && o.reservedFirst
            && !o.noSortAlphabetically && !o.ignoreCase && o.multiline == Ignore
            && o.reservedPropsNames == ["id", "key", "ref", "name", "type", "className", "style"]
            && o.callbackPatterns == DefaultPatterns
  {
  }

  /** Some pattern matches the name. */
  predicate IsCallback(o: Options, n: string) {
    exists p | p in o.callbackPatterns :: Matches(p, n)
  }

  /** The default patterns, unfolded. */
  predicate IsDefaultCallback(n: string) {
    || (|n| > 2 && StartsWith(n, "on") && IsAsciiUpper(n[2]))
    || (|n| > 3 && StartsWith(n, "set") && IsAsciiUpper(n[3]))
    || EndsWith(n, "Callback")
    || EndsWith(n, "Handler")
    || (|n| > 6 && StartsWith(n, "handle") && IsAsciiUpper(n[6]))
  }

  lemma DefaultPatternsMeaning(o: Options, n: string)
    requires o.callbackPatterns == DefaultPatterns
    ensures IsCallback(o, n) <==> IsDefaultCallback(n)
  {
    var ps := DefaultPatterns;
    assert Matches(ps[0], n) <==> |n| > 2 && StartsWith(n, "on") && IsAsciiUpper(n[2]);
    assert Matches(ps[1], n) <==> |n| > 3 && StartsWith(n, "set") && IsAsciiUpper(n[3]);
    assert Matches(ps[2], n) <==> EndsWith(n, "Callback");
    assert Matches(ps[3], n) <==> EndsWith(n, "Handler");
    assert Matches(ps[4], n) <==> |n| > 6 && StartsWith(n, "handle") && IsAsciiUpper(n[6]);
    if IsCallback(o, n) {
      var p :| p in ps && Matches(p, n);
      var i :| 0 <= i < |ps| && ps[i] == p;
    } else {
      assert !Matches(ps[0], n) && !Matches(ps[1], n) && !Matches(ps[2], n) && !Matches(ps[3], n) && !Matches(ps[4], n) by {
        assert ps[0] in ps && ps[1] in ps && ps[2] in ps && ps[3] in ps && ps[4] in ps;
      }
    }
  }

  predicate IsReserved(o: Options, n: string) {
    n in o.reservedPropsNames
  }

  /** A named attribute written without a value. */
  predicate IsShorthand(f: Field) {
    f.kind == Sortable && f.shorthand
  }

  /** The rule's comparator; `nameCmp` stands for `localeCompare`. */
  function Compare(o: Options, nameCmp: (string, string) -> int, a: Field, b: Field): int {
    var an, bn := Label(a), Label(b);
    if o.multiline != Ignore && a.multiline && !b.multiline then (if o.multiline == First then -1 else 1)
    else if o.multiline != Ignore && !a.multiline && b.multiline then (if o.multiline == First then 1 else -1)
    else if o.reservedFirst && IsReserved(o, an) && !IsReserved(o, bn) then -1
    else if o.reservedFirst && !IsReserved(o, an) && IsReserved(o, bn) then 1
    else if o.shorthandFirst && IsShorthand(a) && !IsShorthand(b) then -1
    else if o.shorthandFirst && !IsShorthand(a) && IsShorthand(b) then 1
    else if o.callbacksLast && IsCallback(o, an) && !IsCallback(o, bn) then 1
    else if o.callbacksLast && !IsCallback(o, an) && IsCallback(o, bn) then -1
    else if !o.noSortAlphabetically then
      (if o.ignoreCase then nameCmp(ToLower(an), ToLower(bn)) else nameCmp(an, bn))
    else 0
  }

  function Comparator(o: Options, nameCmp: (string, string) -> int): (Field, Field) -> int {
    (a, b) => Compare(o, nameCmp, a, b)
  }

  /** The bucket key: (multiline stage, reserved stage, shorthand stage,
      callback stage); a disabled stage contributes 0 for every attribute. */
  function Key(o: Options, f: Field): seq<int> {
    [ match o.multiline
      case First => if f.multiline then 0 else 1
      case Last => if f.multiline then 1 else 0
      case Ignore => 0,
      if o.reservedFirst && !IsReserved(o, Label(f)) then 1 else 0,
      if o.shorthandFirst && !IsShorthand(f) then 1 else 0,
      if o.callbacksLast && IsCallback(o, Label(f)) then 1 else 0 ]
  }

  /** The name under which attributes are compared last. */
  function SortName(o: Options, f: Field): string {
    if o.ignoreCase then ToLower(Label(f)) else Label(f)
  }

  function Tie(o: Options, nameCmp: (string, string) -> int, a: Field, b: Field): int {
    if o.noSortAlphabetically then 0 else nameCmp(SortName(o, a), SortName(o, b))
  }

  lemma CompareIsKeyOrder(o: Options, nameCmp: (string, string) -> int, a: Field, b: Field)
    ensures Sign(Compare(o, nameCmp, a, b)) == LexCmp(Key(o, a), Key(o, b), Tie(o, nameCmp, a, b))
  {
    LexCmp4(Key(o, a), Key(o, b), Tie(o, nameCmp, a, b));
  }

  /** The comparator is a total preorder whenever the name order is, with or
      without case folding. */
  lemma ComparatorIsTotalPreorder(o: Options, nameCmp: (string, string) -> int)
    requires TotalPreorder(nameCmp)
    ensures TotalPreorder(Comparator(o, nameCmp))
  {
    var cmp := Comparator(o, nameCmp);
    var key := (f: Field) => Key(o, f);
    var tie := (a: Field, b: Field) => Tie(o, nameCmp, a, b);
    forall a, b ensures Sign(cmp(a, b)) == LexCmp(key(a), key(b), tie(a, b)) {
      CompareIsKeyOrder(o, nameCmp, a, b);
    }
    forall a, b ensures Sign(tie(a, b)) == -Sign(tie(b, a)) {
      var x, y := SortName(o, a), SortName(o, b);
      assert Sign(nameCmp(x, y)) == -Sign(nameCmp(y, x));
    }
    forall a, b, c | tie(a, b) <= 0 && tie(b, c) <= 0 ensures tie(a, c) <= 0 {
      var x, y, z := SortName(o, a), SortName(o, b), SortName(o, c);
      if !o.noSortAlphabetically {
        assert nameCmp(x, y) <= 0 && nameCmp(y, z) <= 0;
      }
    }
    KeyedIsTotalPreorder(cmp, key, tie, 4);
  }

  /** With `multiline` set, a multiline attribute goes before (`first`) or
      after (`last`) a single-line one, whatever the names. */
  lemma MultilinePlacement(o: Options, nameCmp: (string, string) -> int, a: Field, b: Field)
    requires a.multiline && !b.multiline
    ensures o.multiline == First ==> Compare(o, nameCmp, a, b) < 0 && Compare(o, nameCmp, b, a) > 0
    ensures o.multiline == Last ==> Compare(o, nameCmp, a, b) > 0 && Compare(o, nameCmp, b, a) < 0
  {
  }

  /** With `ignoreCase`, two attributes in the same buckets whose names differ
      only in letter case compare equal, so they keep their source order. */
  lemma IgnoreCaseTies(o: Options, nameCmp: (string, string) -> int, a: Field, b: Field)
    requires TotalPreorder(nameCmp) && o.ignoreCase
    requires Key(o, a) == Key(o, b) && ToLower(Label(a)) == ToLower(Label(b))
    ensures Compare(o, nameCmp, a, b) == 0
  {
    CompareIsKeyOrder(o, nameCmp, a, b);
    var x := ToLower(Label(a));
    assert Sign(nameCmp(x, x)) == -Sign(nameCmp(x, x));
  }

  const Message := "JSX props should be sorted according to the defined order."

  /** The fix's new attribute list: the named attributes sorted into the
      named-attribute slots, spread attributes left in place. */
  function Arrange(o: Options, nameCmp: (string, string) -> int, all: seq<Field>): seq<Field> {
    Fill(all, Sort(Slots(all), Comparator(o, nameCmp)))
  }

  /** One opening element: skip fewer than two named attributes; report when
      the sort moves some attribute, with one edit per changed slot. */
  function Visit(o: Options, nameCmp: (string, string) -> int, all: seq<Field>): Option<Report> {
    var attrs := Slots(all);
    if |attrs| < 2 then None
    else
      var sorted := Sort(attrs, Comparator(o, nameCmp));
      if sorted == attrs then None
      else Some(Report(Message, Fixes(all, Fill(all, sorted))))
  }

  /** An element is reported exactly when some adjacent pair of named
      attributes compares greater than zero: the identity check after the sort
      and the adjacent-pair check agree. */
  lemma ReportedIffAdjacentUnsorted(o: Options, nameCmp: (string, string) -> int, all: seq<Field>)
    requires TotalPreorder(nameCmp) && WellFormed(all)
    ensures var attrs := Slots(all);
            Visit(o, nameCmp, all).Some? <==> |attrs| >= 2 && !AdjacentSorted(Comparator(o, nameCmp), attrs)
  {
    ComparatorIsTotalPreorder(o, nameCmp);
    SlotFacts(Comparator(o, nameCmp), all);
    SortFixedIffAdjacentSorted(Slots(all), Comparator(o, nameCmp));
  }

  /** A report carries at least one edit; every edit replaces the range of a
      named attribute with the text of the attribute now in its slot, and no
      edit touches a spread attribute. Every changed attribute gets such an
      edit, and there are as many edits as changed attributes. */
  lemma ReportEdits(o: Options, nameCmp: (string, string) -> int, all: seq<Field>)
    requires TotalPreorder(nameCmp) && WellFormed(all)
    requires Visit(o, nameCmp, all).Some?
    ensures var report := Visit(o, nameCmp, all).value;
            var r := Arrange(o, nameCmp, all);
            && report.message == Message
            && report.fixes != []
            && forall e | e in report.fixes ::
                 exists i | 0 <= i < |all| ::
                   all[i].kind == Sortable && all[i] != r[i] && e == Replace(all[i].start, all[i].end, r[i].text)
    ensures |Arrange(o, nameCmp, all)| == |all|
    ensures forall i | 0 <= i < |all| && all[i] != Arrange(o, nameCmp, all)[i] ::
              Replace(all[i].start, all[i].end, Arrange(o, nameCmp, all)[i].text) in Visit(o, nameCmp, all).value.fixes
    ensures |Visit(o, nameCmp, all).value.fixes| == |Changed(all, Arrange(o, nameCmp, all))|
  {
    var r := Arrange(o, nameCmp, all);
    ComparatorIsTotalPreorder(o, nameCmp);
    ArrangementShape(Comparator(o, nameCmp), all);
    FixesExactlyAtChanges(all, r);
    var fixes := Visit(o, nameCmp, all).value.fixes;
    assert fixes == Fixes(all, r);
    forall e | e in fixes
      ensures exists i | 0 <= i < |all| ::
                all[i].kind == Sortable && all[i] != r[i] && e == Replace(all[i].start, all[i].end, r[i].text)
    {
      var i :| 0 <= i < |all| && all[i] != r[i] && e == EditAt(all, r, i);
      assert all[i].kind == Sortable;
    }
  }

  /** Running the rule on the fixed attribute list reports nothing. */
  lemma FixIsIdempotent(o: Options, nameCmp: (string, string) -> int, all: seq<Field>)
    requires TotalPreorder(nameCmp) && WellFormed(all)
    ensures Visit(o, nameCmp, Arrange(o, nameCmp, all)).None?
  {
    var cmp := Comparator(o, nameCmp);
    ComparatorIsTotalPreorder(o, nameCmp);
    ArrangementShape(cmp, all);
    SortedIsFixed(Slots(Arrange(o, nameCmp, all)), cmp);
  }

  /** With `ignoreCase`, named attributes of one bucket whose names agree in
      lower case compare equal, so the stable sort keeps them in source order. */
  lemma IgnoreCaseKeepsSourceOrder(o: Options, nameCmp: (string, string) -> int, all: seq<Field>)
    requires TotalPreorder(nameCmp) && WellFormed(all) && o.ignoreCase
    ensures var r := Sort(Slots(all), Comparator(o, nameCmp));
            forall i, j | 0 <= i < j < |r| && Key(o, r[i]) == Key(o, r[j]) && ToLower(Label(r[i])) == ToLower(Label(r[j])) ::
              r[i].start < r[j].start
  {
    var cmp := Comparator(o, nameCmp);
    var r := Sort(Slots(all), cmp);
    ComparatorIsTotalPreorder(o, nameCmp);
    SlotFacts(cmp, all);
    SortStable(Slots(all), cmp, StartOf);
    forall i, j | 0 <= i < j < |r| && Key(o, r[i]) == Key(o, r[j]) && ToLower(Label(r[i])) == ToLower(Label(r[j]))
      ensures r[i].start < r[j].start
    {
      IgnoreCaseTies(o, nameCmp, r[i], r[j]);
      assert cmp(r[i], r[j]) == 0;
    }
  }
}
