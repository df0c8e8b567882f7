/**
 * How the three rules' callback heuristics relate, and small worked
 * examples. The examples use the code-point order as the name order.
 */
module Scenarios {
  import opened Names
  import opened Sorting
  import opened Fields
  import TypeProperties
  import ComponentProps
  import JsxProps

  /** Every name the type rule treats as a callback, the component rule
      treats as one too. */
  lemma TypeCallbacksAreComponentCallbacks(n: string)
    ensures TypeProperties.IsCallback(n) ==> ComponentProps.IsCallback(n)
  {
  }

  /** The JSX rule's default patterns are stricter than the other rules'
      tests: every default-pattern match is a callback for the component rule,
      and for the type rule unless it starts with `handle`. */
  lemma JsxDefaultCallbacksAreComponentCallbacks(n: string)
    ensures JsxProps.IsDefaultCallback(n) ==> ComponentProps.IsCallback(n)
    ensures JsxProps.IsDefaultCallback(n) ==> TypeProperties.IsCallback(n) || StartsWith(n, "handle")
  {
  }

  /** `on1`: the character after `on` is unchanged by upper-casing, so the
      type and component rules call it a callback; it is not in `[A-Z]`, so
      the JSX rule's default patterns do not. */
  lemma DigitAfterPrefix()
    ensures TypeProperties.IsCallback("on1") && ComponentProps.IsCallback("on1")
    ensures !JsxProps.IsDefaultCallback("on1")
  {
  }

  /** `handlers` is a callback only for the component rule, which tests the
      bare prefix `handle`. */
  lemma HandlePrefix()
    ensures ComponentProps.IsCallback("handlers")
    ensures !TypeProperties.IsCallback("handlers")
    ensures !JsxProps.IsDefaultCallback("handlers")
  {
  }

  /** Names in the style of the tests are callbacks for the type rule and for
      the JSX rule's default patterns alike. */
  lemma CallbackNames()
    ensures TypeProperties.IsCallback("onClick") && JsxProps.IsDefaultCallback("onClick")
    ensures TypeProperties.IsCallback("setPage") && JsxProps.IsDefaultCallback("setPage")
    ensures TypeProperties.IsCallback("submitHandler") && JsxProps.IsDefaultCallback("submitHandler")
  {
    assert StartsWith("onClick", "on");
    assert StartsWith("setPage", "set");
    assert EndsWith("submitHandler", "Handler");
  }

  /** A lower-case letter after the prefix, or nothing after it, is not a
      callback for any rule. */
  lemma NonCallbackNames()
    ensures !ComponentProps.IsCallback("oncallback") && !JsxProps.IsDefaultCallback("oncallback")
    ensures !ComponentProps.IsCallback("settings") && !JsxProps.IsDefaultCallback("settings")
    ensures !ComponentProps.IsCallback("on") && !JsxProps.IsDefaultCallback("on")
  {
    NoSuffix("oncallback");
    NoSuffix("settings");
    NoSuffix("on");
    assert "oncallback"[..3][0] != "set"[0] && "oncallback"[..6][0] != "handle"[0];
    assert "settings"[..2][0] != "on"[0] && "settings"[..6][0] != "handle"[0];
    assert |"on"| < |"set"| && |"on"| < |"handle"|;
  }

  /** A name without a capital `C` or `H` has neither callback suffix. */
  lemma NoSuffix(n: string)
    requires forall i | 0 <= i < |n| :: n[i] != 'C' && n[i] != 'H'
    ensures !EndsWith(n, "Callback") && !EndsWith(n, "Handler")
  {
    if |n| >= 8 {
      assert n[|n| - 8..][0] != "Callback"[0];
    }
    if |n| >= 7 {
      assert n[|n| - 7..][0] != "Handler"[0];
    }
  }

  /** An entry named `name` at `start..end`, with a default value (or, for a
      type member, optional) when `flag` holds. */
  function Entry(name: string, flag: bool, text: string, start: nat, end: nat): Field {
    Field(Sortable, Some(name), flag, false, false, text, start, end)
  }

  const ComponentOptions := ComponentProps.Configure(NoOptions)

  /** An entry whose key has no name ties with every entry, so the component
      comparator is not transitive on lists that hold one. */
  lemma UnnamedTiesNotTransitive()
    ensures var x, u, a := Entry("x", false, "x", 0, 1), Field(Sortable, None, false, false, false, "[k]", 2, 5), Entry("a", false, "a", 6, 7);
            && ComponentProps.Compare(ComponentOptions, CodePointCompare, x, u) == 0
            && ComponentProps.Compare(ComponentOptions, CodePointCompare, u, a) == 0
            && ComponentProps.Compare(ComponentOptions, CodePointCompare, x, a) > 0
  {
    var x, a := Entry("x", false, "x", 0, 1), Entry("a", false, "a", 6, 7);
    assert !ComponentProps.IsCallback("x") && !ComponentProps.IsCallback("a");
    assert !ComponentProps.IsReserved(ComponentOptions, "x") && !ComponentProps.IsReserved(ComponentOptions, "a");
    ComponentProps.ByNameWithinBucket(ComponentOptions, CodePointCompare, x, a);
    assert CodePointCompare("x", "a") > 0;
  }

  /** `function F({ c = 1, d, "data-x": x, a = 2 })`: the string-literal key
      has no name. */
  const QuotedParams: seq<Field> := [
    Entry("c", true, "c = 1", 13, 18),
    Entry("d", false, "d", 20, 21),
    Field(Sortable, None, false, false, false, "\"data-x\": x", 23, 34),
    Entry("a", true, "a = 2", 36, 41)
  ]

  /** On a list with an unnamed entry the model's fix uses the insertion
      sort's order, `d, c = 1, "data-x": x, a = 2`. The unnamed entry ties
      with both neighbours, so `a = 2` never passes it. A sort that compares
      other pairs, such as a binary insertion sort comparing `a` with `d` and
      `c`, can produce another order from the same comparator. */
  lemma QuotedParamsModelOrder()
    ensures var p := QuotedParams;
            Sort(p, ComponentProps.Comparator(ComponentOptions, CodePointCompare)) == [p[1], p[0], p[2], p[3]]
  {
    var p := QuotedParams;
    var cmp := ComponentProps.Comparator(ComponentOptions, CodePointCompare);
    QuotedParamsPairs();
    SortOfFour(p, cmp);
  }

  lemma QuotedParamsPairs()
    ensures var p, cmp := QuotedParams, ComponentProps.Comparator(ComponentOptions, CodePointCompare);
            cmp(p[0], p[1]) > 0 && cmp(p[0], p[2]) <= 0 && cmp(p[1], p[2]) <= 0 && cmp(p[2], p[3]) <= 0
  {
    var p := QuotedParams;
    assert !ComponentProps.IsCallback("c") && !ComponentProps.IsCallback("d");
    assert !ComponentProps.IsReserved(ComponentOptions, "c") && !ComponentProps.IsReserved(ComponentOptions, "d");
    ComponentProps.DefaultAfterNonDefault(ComponentOptions, CodePointCompare, p[1], p[0]);
  }

  /** Three entries already in order stay as they are. */
  lemma SortOfThreeInOrder<T>(b: T, c: T, d: T, cmp: (T, T) -> int)
    requires cmp(b, c) <= 0 && cmp(c, d) <= 0
    ensures Sort([b, c, d], cmp) == [b, c, d]
  {
    assert [c, d][1..] == [d];
    assert Sort([d], cmp) == [d];
    assert Sort([c, d], cmp) == [c, d];
    assert [b, c, d][1..] == [c, d];
  }

  /** The insertion sort of four entries when only the first two are out of
      order: the first moves behind the second and no further. */
  lemma SortOfFour<T>(p: seq<T>, cmp: (T, T) -> int)
    requires |p| == 4
    requires cmp(p[0], p[1]) > 0 && cmp(p[0], p[2]) <= 0 && cmp(p[1], p[2]) <= 0 && cmp(p[2], p[3]) <= 0
    ensures Sort(p, cmp) == [p[1], p[0], p[2], p[3]]
  {
    var a, b, c, d := p[0], p[1], p[2], p[3];
    assert Sort(p[1..], cmp) == [b, c, d] by {
      assert p[1..] == [b, c, d];
      SortOfThreeInOrder(b, c, d, cmp);
    }
    assert Insert(a, [b, c, d], cmp) == [b, a, c, d] by {
      InsertSecond(a, [b, c, d], cmp);
      assert [b, c, d][1..] == [c, d];
    }
  }

  /** An entry greater than the first entry of `s` but not the second lands
      between them. */
  lemma InsertSecond<T>(x: T, s: seq<T>, cmp: (T, T) -> int)
    requires |s| >= 2 && cmp(x, s[0]) > 0 && cmp(x, s[1]) <= 0
    ensures Insert(x, s, cmp) == [s[0], x] + s[1..]
  {
    assert s[1..][0] == s[1];
    assert Insert(x, s[1..], cmp) == [x] + s[1..];
  }

  /** `function Button({ id, disabled = false, variant, onClick })`. */
  const ButtonParams: seq<Field> := [
    Entry("id", false, "id", 18, 20),
    Entry("disabled", true, "disabled = false", 22, 38),
    Entry("variant", false, "variant", 40, 47),
    Entry("onClick", false, "onClick", 49, 56)
  ]

  const ButtonComponent := ComponentProps.FunctionNode(Some("Button"), None, true, [ComponentProps.ObjectPattern(ButtonParams)])

  lemma ButtonParamsShape()
    ensures WellFormed(ButtonParams)
    ensures ComponentProps.AllNamed(ButtonParams) && ComponentProps.AtMostOneRest(ButtonParams)
    ensures ComponentProps.Extract(ButtonComponent) == Some(ButtonParams)
  {
    var p := ButtonParams;
    assert forall i | 0 <= i < |p| :: p[i].kind == Sortable && ComponentProps.HasKeyName(p[i]);
  }

  lemma PlainNames()
    ensures !ComponentProps.IsReserved(ComponentOptions, "disabled") && !ComponentProps.IsReserved(ComponentOptions, "variant")
    ensures !ComponentProps.IsCallback("disabled") && !ComponentProps.IsCallback("variant")
    ensures !TypeProperties.IsCallback("disabled") && !TypeProperties.IsCallback("variant")
  {
    PlainName("disabled");
    PlainName("variant");
  }

  /** A name that is neither reserved nor a callback for either rule. */
  lemma PlainName(n: string)
    requires |n| > 3 && n[0] != 'o' && n[0] != 's' && n[0] != 'h' && n[0] != 'i' && n[0] != 'k' && n[0] != 'r' && n[0] != 'n' && n[0] != 't'
    requires n[|n| - 1] != 'k' && n[|n| - 1] != 'r'
    ensures !ComponentProps.IsReserved(ComponentOptions, n) && !ComponentProps.IsCallback(n) && !TypeProperties.IsCallback(n)
    ensures !TypeProperties.IsReserved(TypeOptions, n)
  {
    assert !StartsWith(n, "on") && !StartsWith(n, "set") && !StartsWith(n, "handle");
    assert !EndsWith(n, "Callback") && !EndsWith(n, "Handler");
  }

  /** `disabled` and `variant` share every bucket but the default-value one. */
  lemma DisabledVariantBucket(a: Field, b: Field)
    requires a == ButtonParams[1] && b == ButtonParams[2]
    ensures ComponentProps.SameBucket(ComponentOptions, a, b)
    ensures ComponentProps.Compare(ComponentOptions, CodePointCompare, a, b) > 0
  {
    PlainNames();
    ComponentProps.DefaultAfterNonDefault(ComponentOptions, CodePointCompare, b, a);
  }

  /** The component rule reports this parameter list: `disabled = false` has a
      default value and `variant` does not, so the adjacent pair is out of
      order whatever the names. */
  lemma ButtonComponentReported()
    ensures ComponentProps.Visit(ComponentOptions, CodePointCompare, ButtonComponent).Some?
  {
    ButtonParamsShape();
    CodePointIsTotalPreorder();
    DisabledVariantBucket(ButtonParams[1], ButtonParams[2]);
    assert !AdjacentSorted(ComponentProps.Comparator(ComponentOptions, CodePointCompare), ButtonParams);
    ComponentProps.ReportedIffSortMoves(ComponentOptions, CodePointCompare, ButtonComponent);
  }

  /** Hence the list above is never the component rule's sorted output, from
      any well-formed list of named entries. */
  lemma ButtonOrderNeverProduced(props: seq<Field>)
    requires WellFormed(props) && ComponentProps.AllNamed(props) && ComponentProps.AtMostOneRest(props)
    ensures Sort(props, ComponentProps.Comparator(ComponentOptions, CodePointCompare)) != ButtonParams
  {
    CodePointIsTotalPreorder();
    DisabledVariantBucket(ButtonParams[1], ButtonParams[2]);
    ComponentProps.SortedDefaultsLast(ComponentOptions, CodePointCompare, props);
  }

  const TypeOptions := TypeProperties.Configure(NoOptions)

  function TypeCmp(a: Field, b: Field): int {
    TypeProperties.Compare(TypeOptions, CodePointCompare, a, b)
  }

  /** `interface ButtonProps { id: string; disabled?: boolean; variant: string; onClick: () => void; }` */
  const ButtonMembers: seq<Field> := [
    Entry("id", false, "id: string;", 30, 41),
    Entry("disabled", true, "disabled?: boolean;", 48, 67),
    Entry("variant", false, "variant: string;", 74, 90),
    Entry("onClick", false, "onClick: () => void;", 97, 117)
  ]

  lemma ButtonMembersSlots()
    ensures Slots(ButtonMembers) == ButtonMembers
  {
    SlotsAllSortable(ButtonMembers);
  }

  /** The type rule reports this interface: the optional `disabled` precedes
      the required `variant` in the same bucket. */
  lemma ButtonInterfaceReported()
    ensures TypeProperties.Visit(TypeOptions, CodePointCompare, TypeProperties.InterfaceDecl(ButtonMembers)).Some?
  {
    ButtonMembersSlots();
    PlainNames();
    var a, b := ButtonMembers[1], ButtonMembers[2];
    assert TypeProperties.SameBucket(TypeOptions, b, a);
    TypeProperties.RequiredBeforeOptional(TypeOptions, CodePointCompare, b, a);
    assert !AdjacentSorted(TypeProperties.Comparator(TypeOptions, CodePointCompare), ButtonMembers);
  }

  /** A member whose key is a string literal, `"aria-label": string;`: its
      key has no name. */
  function Quoted(start: nat, end: nat): Field {
    Field(Sortable, None, false, false, false, "\"aria-label\": string;", start, end)
  }

  /** `interface P { width: number; "aria-label": string; }`: no reserved
      name decides the pair, so the callback test reads the length of the
      missing name and the rule throws. */
  lemma QuotedKeyCrashes()
    ensures TypeProperties.Run(TypeOptions, CodePointCompare, TypeProperties.InterfaceDecl([Entry("width", false, "width: number;", 14, 28), Quoted(29, 50)]))
              == TypeProperties.Crashes
  {
    PlainName("width");
  }

  /** `interface P { id: string; "aria-label": string; }`: the reserved stage
      orders the pair before the name is read, so the rule is silent. */
  lemma ReservedKeyBeforeQuoted()
    ensures TypeProperties.Run(TypeOptions, CodePointCompare, TypeProperties.InterfaceDecl([Entry("id", false, "id: string;", 14, 25), Quoted(26, 47)]))
              == TypeProperties.Silent
  {
  }

  /** `interface P { "aria-label": string; id: string; }`: the reserved stage
      finds the pair out of order, so the rule reports; the sort inside its
      fix then meets the unnamed key. */
  lemma QuotedKeyBeforeReserved()
    ensures TypeProperties.Run(TypeOptions, CodePointCompare, TypeProperties.InterfaceDecl([Quoted(14, 35), Entry("id", false, "id: string;", 36, 47)]))
              == TypeProperties.ReportedUnsettled(TypeProperties.InterfaceMessage)
  {
  }

  /** The interface input at tests/sort-type-properties.js:56-65. */
  const DataTableMembers: seq<Field> := [
    Entry("onRowClick", false, "onRowClick: () => void;", 35, 58),
    Entry("loading", true, "loading?: boolean;", 67, 85),
    Entry("id", false, "id: string;", 94, 105),
    Entry("data", false, "data: any[];", 114, 126),
    Entry("onPageChange", true, "onPageChange?: () => void;", 135, 161),
    Entry("columns", false, "columns: string[];", 170, 188),
    Entry("className", true, "className?: string;", 197, 216),
    Entry("emptyMessage", true, "emptyMessage?: string;", 225, 247)
  ]

  const DataTableLabels: seq<string> := ["onRowClick", "loading", "id", "data", "onPageChange", "columns", "className", "emptyMessage"]
  const DataTableOptional: seq<bool> := [false, true, false, false, true, false, true, true]

  /** An interface body with the DataTable members, in the order of the
      test, whatever their types and positions. */
  predicate DataTableShaped(m: seq<Field>) {
    && |m| == 8 && WellFormed(m)
    && forall i | 0 <= i < 8 :: m[i].kind == Sortable && m[i].name == Some(DataTableLabels[i]) && m[i].optional == DataTableOptional[i]
  }

  lemma DataTableMembersShaped()
    ensures DataTableShaped(DataTableMembers)
  {
  }

  /* The seven adjacent comparisons of the sorted DataTable order, each
     decided by one stage of the comparator. */

  lemma IdBeforeColumns(m: seq<Field>)
    requires DataTableShaped(m)
    ensures TypeCmp(m[2], m[5]) < 0
  {
    PlainName("columns");
    TypeProperties.ReservedFirst(TypeOptions, CodePointCompare, m[2], m[5]);
  }

  lemma ColumnsBeforeData(m: seq<Field>)
    requires DataTableShaped(m)
    ensures TypeCmp(m[5], m[3]) < 0
  {
    PlainName("columns");
    PlainName("data");
    TypeProperties.ByNameWithinBucket(TypeOptions, CodePointCompare, m[5], m[3]);
    assert CodePointCompare("columns", "data") < 0;
  }

  lemma DataBeforeClassName(m: seq<Field>)
    requires DataTableShaped(m)
    ensures TypeCmp(m[3], m[6]) < 0
  {
    PlainName("data");
    PlainName("className");
    TypeProperties.RequiredBeforeOptional(TypeOptions, CodePointCompare, m[3], m[6]);
  }

  lemma ClassNameBeforeEmptyMessage(m: seq<Field>)
    requires DataTableShaped(m)
    ensures TypeCmp(m[6], m[7]) < 0
  {
    PlainName("className");
    PlainName("emptyMessage");
    TypeProperties.ByNameWithinBucket(TypeOptions, CodePointCompare, m[6], m[7]);
    assert CodePointCompare("className", "emptyMessage") < 0;
  }

  lemma EmptyMessageBeforeLoading(m: seq<Field>)
    requires DataTableShaped(m)
    ensures TypeCmp(m[7], m[1]) < 0
  {
    PlainName("emptyMessage");
    PlainName("loading");
    TypeProperties.ByNameWithinBucket(TypeOptions, CodePointCompare, m[7], m[1]);
    assert CodePointCompare("emptyMessage", "loading") < 0;
  }

  lemma LoadingBeforeOnRowClick(m: seq<Field>)
    requires DataTableShaped(m)
    ensures TypeCmp(m[1], m[0]) < 0
  {
    PlainName("loading");
    assert StartsWith("onRowClick", "on");
    assert !TypeProperties.IsReserved(TypeOptions, "onRowClick");
    TypeProperties.CallbacksLast(TypeOptions, CodePointCompare, m[1], m[0]);
  }

  lemma OnRowClickBeforeOnPageChange(m: seq<Field>)
    requires DataTableShaped(m)
    ensures TypeCmp(m[0], m[4]) < 0
  {
    assert StartsWith("onRowClick", "on") && StartsWith("onPageChange", "on");
    assert !TypeProperties.IsReserved(TypeOptions, "onRowClick");
    assert !TypeProperties.IsReserved(TypeOptions, "onPageChange");
    TypeProperties.RequiredBeforeOptional(TypeOptions, CodePointCompare, m[0], m[4]);
  }

  /** The positions of the sorted DataTable members: `id`, `columns`, `data`,
      `className`, `emptyMessage`, `loading`, `onRowClick`, `onPageChange`. */
  const DataTableOrder: seq<nat> := [2, 5, 3, 6, 7, 1, 0, 4]

  /** Seven comparisons, one per adjacent pair of the order `p` gives. */
  lemma SevenPairs<T>(s: seq<T>, p: seq<nat>, cmp: (T, T) -> int)
    requires |s| == 8 && Positions(p, 8)
    requires cmp(s[p[0]], s[p[1]]) < 0 && cmp(s[p[1]], s[p[2]]) < 0 && cmp(s[p[2]], s[p[3]]) < 0
    requires cmp(s[p[3]], s[p[4]]) < 0 && cmp(s[p[4]], s[p[5]]) < 0 && cmp(s[p[5]], s[p[6]]) < 0
    requires cmp(s[p[6]], s[p[7]]) < 0
    ensures AscendsAlong(cmp, s, p)
  {
    forall k | 0 < k < 8
      ensures StepAscends(cmp, s, p, k)
    {
      if k == 1 {} else if k == 2 {} else if k == 3 {} else if k == 4 {} else if k == 5 {} else if k == 6 {} else {}
    }
  }

  /** The eight positions of the DataTable orders are distinct. */
  lemma DistinctPositions(p: seq<nat>)
    requires p == DataTableOrder || p == DataTableParamsOrder
    ensures Positions(p, 8)
  {
  }

  /** The type rule's comparator ascends strictly along the order above. */
  lemma DataTableMembersAscend(m: seq<Field>)
    requires DataTableShaped(m)
    ensures AscendsAlong(TypeProperties.Comparator(TypeOptions, CodePointCompare), m, DataTableOrder)
  {
    IdBeforeColumns(m);
    ColumnsBeforeData(m);
    DataBeforeClassName(m);
    ClassNameBeforeEmptyMessage(m);
    EmptyMessageBeforeLoading(m);
    LoadingBeforeOnRowClick(m);
    OnRowClickBeforeOnPageChange(m);
    DistinctPositions(DataTableOrder);
    SevenPairs(m, DataTableOrder, TypeProperties.Comparator(TypeOptions, CodePointCompare));
  }

  /** The type rule sorts the DataTable members into the order above. */
  lemma DataTableMembersSort(m: seq<Field>)
    requires DataTableShaped(m)
    ensures Sort(m, TypeProperties.Comparator(TypeOptions, CodePointCompare)) == Pick(m, DataTableOrder)
  {
    SlotsAllSortable(m);
    CodePointIsTotalPreorder();
    TypeProperties.ComparatorIsTotalPreorder(TypeOptions, CodePointCompare);
    SlotFacts(TypeProperties.Comparator(TypeOptions, CodePointCompare), m);
    DistinctPositions(DataTableOrder);
    DataTableMembersAscend(m);
    PickIsSort(m, DataTableOrder, TypeProperties.Comparator(TypeOptions, CodePointCompare), StartOf);
  }

  /** Sorting moves `id` to the front. */
  lemma DataTableMembersMove(m: seq<Field>)
    requires DataTableShaped(m)
    ensures Pick(m, DataTableOrder) != m
  {
    assert Pick(m, DataTableOrder)[0] == m[2] != m[0];
  }

  /** The type rule reports the DataTable interface, and its fix rewrites the
      members into the order above: required members precede optional ones
      within each bucket, unlike the order the tests expect. */
  lemma DataTableInterfaceFix(m: seq<Field>)
    requires DataTableShaped(m)
    ensures TypeProperties.Visit(TypeOptions, CodePointCompare, TypeProperties.InterfaceDecl(m))
              == Some(Report(TypeProperties.InterfaceMessage, Fixes(m, Pick(m, DataTableOrder))))
  {
    SlotsAllSortable(m);
    DataTableMembersSort(m);
    DataTableMembersMove(m);
    CodePointIsTotalPreorder();
    TypeProperties.AllPropertiesReport(TypeOptions, CodePointCompare, m);
  }

  /** `function DataTable({ onRowClick, loading = false, id, data, onPageChange, columns, className, emptyMessage = "No data" })`,
      the input at tests/sort-component-props.js:43. */
  const DataTableParams: seq<Field> := [
    Entry("onRowClick", false, "onRowClick", 21, 31),
    Entry("loading", true, "loading = false", 33, 48),
    Entry("id", false, "id", 50, 52),
    Entry("data", false, "data", 54, 58),
    Entry("onPageChange", false, "onPageChange", 60, 72),
    Entry("columns", false, "columns", 74, 81),
    Entry("className", false, "className", 83, 92),
    Entry("emptyMessage", true, "emptyMessage = \"No data\"", 94, 118)
  ]

  const DataTableComponent := ComponentProps.FunctionNode(Some("DataTable"), None, true, [ComponentProps.ObjectPattern(DataTableParams)])

  /** A destructuring pattern with the DataTable parameters, in the order of
      the test, whatever their texts and positions. */
  predicate DataTableParamsShaped(m: seq<Field>) {
    && |m| == 8 && WellFormed(m)
    && forall i | 0 <= i < 8 :: m[i].kind == Sortable && m[i].name == Some(DataTableLabels[i]) && m[i].optional == (i == 1 || i == 7)
  }

  lemma DataTableParamsAreShaped()
    ensures DataTableParamsShaped(DataTableParams)
    ensures ComponentProps.Extract(DataTableComponent) == Some(DataTableParams)
  {
  }

  function ComponentCmp(a: Field, b: Field): int {
    ComponentProps.Compare(ComponentOptions, CodePointCompare, a, b)
  }

  /* The seven adjacent comparisons of the component rule's sorted order. */

  lemma IdBeforeClassName(m: seq<Field>)
    requires DataTableParamsShaped(m)
    ensures ComponentCmp(m[2], m[6]) < 0
  {
    PlainName("className");
    ComponentProps.ReservedFirst(ComponentOptions, CodePointCompare, m[2], m[6]);
  }

  lemma ClassNameBeforeColumns(m: seq<Field>)
    requires DataTableParamsShaped(m)
    ensures ComponentCmp(m[6], m[5]) < 0
  {
    PlainName("className");
    PlainName("columns");
    ComponentProps.ByNameWithinBucket(ComponentOptions, CodePointCompare, m[6], m[5]);
    assert CodePointCompare("className", "columns") < 0;
  }

  lemma ColumnsBeforeDataParam(m: seq<Field>)
    requires DataTableParamsShaped(m)
    ensures ComponentCmp(m[5], m[3]) < 0
  {
    PlainName("columns");
    PlainName("data");
    ComponentProps.ByNameWithinBucket(ComponentOptions, CodePointCompare, m[5], m[3]);
    assert CodePointCompare("columns", "data") < 0;
  }

  lemma DataBeforeEmptyMessage(m: seq<Field>)
    requires DataTableParamsShaped(m)
    ensures ComponentCmp(m[3], m[7]) < 0
  {
    PlainName("data");
    PlainName("emptyMessage");
    assert ComponentProps.SameBucket(ComponentOptions, m[3], m[7]);
    ComponentProps.DefaultAfterNonDefault(ComponentOptions, CodePointCompare, m[3], m[7]);
  }

  lemma EmptyMessageBeforeLoadingParam(m: seq<Field>)
    requires DataTableParamsShaped(m)
    ensures ComponentCmp(m[7], m[1]) < 0
  {
    PlainName("emptyMessage");
    PlainName("loading");
    ComponentProps.ByNameWithinBucket(ComponentOptions, CodePointCompare, m[7], m[1]);
    assert CodePointCompare("emptyMessage", "loading") < 0;
  }

  lemma LoadingBeforeOnPageChange(m: seq<Field>)
    requires DataTableParamsShaped(m)
    ensures ComponentCmp(m[1], m[4]) < 0
  {
    PlainName("loading");
    assert StartsWith("onPageChange", "on");
    assert !ComponentProps.IsReserved(ComponentOptions, "onPageChange");
    ComponentProps.CallbacksLast(ComponentOptions, CodePointCompare, m[1], m[4]);
  }

  lemma OnPageChangeBeforeOnRowClick(m: seq<Field>)
    requires DataTableParamsShaped(m)
    ensures ComponentCmp(m[4], m[0]) < 0
  {
    assert StartsWith("onRowClick", "on") && StartsWith("onPageChange", "on");
    assert !ComponentProps.IsReserved(ComponentOptions, "onRowClick");
    assert !ComponentProps.IsReserved(ComponentOptions, "onPageChange");
    ComponentProps.ByNameWithinBucket(ComponentOptions, CodePointCompare, m[4], m[0]);
    assert CodePointCompare("onPageChange", "onRowClick") < 0;
  }

  /** The positions of the sorted DataTable parameters: `id`, `className`,
      `columns`, `data`, `emptyMessage`, `loading`, `onPageChange`,
      `onRowClick`, the order of tests/sort-component-props.js:52. */
  const DataTableParamsOrder: seq<nat> := [2, 6, 5, 3, 7, 1, 4, 0]

  /** The component rule's comparator ascends strictly along that order. */
  lemma DataTableParamsAscend(m: seq<Field>)
    requires DataTableParamsShaped(m)
    ensures AscendsAlong(ComponentProps.Comparator(ComponentOptions, CodePointCompare), m, DataTableParamsOrder)
  {
    IdBeforeClassName(m);
    ClassNameBeforeColumns(m);
    ColumnsBeforeDataParam(m);
    DataBeforeEmptyMessage(m);
    EmptyMessageBeforeLoadingParam(m);
    LoadingBeforeOnPageChange(m);
    OnPageChangeBeforeOnRowClick(m);
    DistinctPositions(DataTableParamsOrder);
    SevenPairs(m, DataTableParamsOrder, ComponentProps.Comparator(ComponentOptions, CodePointCompare));
  }

  /** The component rule sorts the DataTable parameters into the order the
      test expects: both entries with a default value come after every plain
      entry, and the callbacks come last. */
  lemma DataTableParamsSort(m: seq<Field>)
    requires DataTableParamsShaped(m)
    ensures Sort(m, ComponentProps.Comparator(ComponentOptions, CodePointCompare)) == Pick(m, DataTableParamsOrder)
  {
    CodePointIsTotalPreorder();
    assert ComponentProps.AllNamed(m) && ComponentProps.AtMostOneRest(m);
    ComponentProps.ComparatorIsTotalPreorderOn(ComponentOptions, CodePointCompare, m);
    WellFormedRanks(m);
    DistinctPositions(DataTableParamsOrder);
    DataTableParamsAscend(m);
    PickIsSort(m, DataTableParamsOrder, ComponentProps.Comparator(ComponentOptions, CodePointCompare), StartOf);
  }

  /** Sorting moves `id` to the front of the DataTable parameters. */
  lemma DataTableParamsMove(m: seq<Field>)
    requires DataTableParamsShaped(m)
    ensures Sort(m, ComponentProps.Comparator(ComponentOptions, CodePointCompare)) == Pick(m, DataTableParamsOrder) != m
  {
    DataTableParamsSort(m);
    DataTableParamsPickMoves(m);
  }

  lemma DataTableParamsPickMoves(m: seq<Field>)
    requires DataTableParamsShaped(m)
    ensures Pick(m, DataTableParamsOrder) != m
  {
    assert Pick(m, DataTableParamsOrder)[0] == m[2] != m[0];
  }

  /** The component rule reports any function whose first parameter
      destructures the DataTable parameters in the test's order, and its fix
      writes them out in the sorted order. */
  lemma DataTableParamsReported(fn: ComponentProps.FunctionNode, m: seq<Field>)
    requires DataTableParamsShaped(m) && ComponentProps.Extract(fn) == Some(m)
    ensures ComponentProps.Visit(ComponentOptions, CodePointCompare, fn)
              == Some(Report(ComponentProps.Message, [ComponentProps.JoinFix(m, Pick(m, DataTableParamsOrder))]))
  {
    DataTableParamsMove(m);
    ComponentProps.MovedReport(ComponentOptions, CodePointCompare, fn);
  }

  /** The texts of the DataTable parameters in the order of
      tests/sort-component-props.js:52. */
  const DataTableSortedTexts: seq<string> :=
    ["id", "className", "columns", "data", "emptyMessage = \"No data\"", "loading = false", "onPageChange", "onRowClick"]

  /** The component rule reports the DataTable component, and its fix
      rewrites the parameters from `onRowClick` to the end of
      `emptyMessage = "No data"` into the texts above joined by ", ": the
      output of tests/sort-component-props.js:52. */
  lemma DataTableComponentFix()
    ensures ComponentProps.Visit(ComponentOptions, CodePointCompare, DataTableComponent)
              == Some(Report(ComponentProps.Message, [Replace(21, 118, Join(DataTableSortedTexts, ", "))]))
  {
    DataTableParamsAreShaped();
    DataTableParamsReported(DataTableComponent, DataTableParams);
    DataTableParamsTexts();
  }

  lemma DataTableParamsTexts()
    ensures Texts(Pick(DataTableParams, DataTableParamsOrder)) == DataTableSortedTexts
    ensures DataTableParams[0].start == 21 && DataTableParams[|DataTableParams| - 1].end == 118
  {
  }
}
