# Prop ordering rules, modelled in Dafny

This project models the ordering engine of three ESLint rules from
`eslint-plugin-prop-ordering`:

- `sort-type-properties` orders the property signatures of a TypeScript
  interface or object type literal. Reserved names come first, callbacks
  last, required members before optional ones, then members are sorted by
  name.
- `sort-component-props` orders the entries of a React component's
  destructured props parameter. A rest element goes last, reserved names
  first, callbacks last, entries without a default value before those with
  one, then entries are sorted by name.
- `sort-jsx-props` orders the attributes of a JSX opening element. The stages
  are optional multiline placement, reserved names first, shorthand
  attributes first, callbacks last, then the name, optionally compared in
  lower case.

Each rule decides whether a list is out of order, reports it with a fixed
message, and builds a fix. The type and JSX rules replace every slot whose
entry changed. The component rule replaces the whole parameter list with the
sorted texts joined by `", "`.

Layout:

- `sorting.dfy` (`Sorting`) holds:
  - a stable insertion sort;
  - its ordering, permutation and stability properties;
  - a uniqueness theorem: every sorted, stable permutation of a list equals
    that sort, so the model stands for the engine's stable
    `Array.prototype.sort`;
  - the adjacent-pair check and the "did anything move" check, as methods.
- `names.dfy` (`Names`) holds name predicates (prefix, suffix, ASCII case)
  and a code-point string order. That order is one concrete instance of the
  name comparison.
- `lexkey.dfy` (`LexKey`) holds lexicographic comparison of bucket keys
  followed by a tie-break. It proves that such a comparator is a total
  preorder.
- `fields.dfy` (`Fields`) holds the shared vocabulary: entries (name, flags,
  source text and range), options, edits and reports. It also holds:
  - how sorted entries are written back into their slots;
  - which edits a fix produces;
  - how texts are joined.
- `type_properties.dfy`, `component_props.dfy` and `jsx_props.dfy` hold one
  module per rule. Each has the options, the comparator, the visitor and its
  properties.
- `scenarios.dfy` (`Scenarios`) compares the three callback heuristics and
  works through the examples of the repository's tests.

The name comparison `localeCompare` is a parameter `nameCmp` of every
comparator. The model requires it to be a total preorder and nothing more.
Each comparator is proved equal to a lexicographic comparison of a bucket
key, then the name (`CompareIsKeyOrder`). The type and JSX comparators are
therefore total preorders whenever `nameCmp` is one. The component
comparator is one only on lists where every entry is named and there is at
most one rest element. An unnamed entry ties with every other entry, so
there transitivity fails.

## Model

| member | source | states |
|---|---|---|
| Sorting.Sort | lib/rules/sort-type-properties.js:182 | The sorted list is a permutation of its input: same multiset, same length. |
| Sorting.SortSorted | lib/rules/sort-type-properties.js:182 | Under a comparator that is a total preorder on the list, no later entry of the sorted list compares below an earlier one. |
| Sorting.SortStable | lib/rules/sort-jsx-props.js:165 | Entries the comparator finds equal keep their source order in the sorted list. |
| Sorting.StableSortUnique | lib/rules/sort-component-props.js:179 | Any sorted, stable permutation of the list is exactly this sort's output, so the model agrees with the engine's stable sort. |
| Sorting.StrictlyAscendingIsSort | lib/rules/sort-type-properties.js:182 | A permutation whose adjacent pairs all compare strictly below zero is the sort's output. |
| Sorting.SortFixedIffAdjacentSorted | lib/rules/sort-type-properties.js:159-166 | Under a total preorder, sorting leaves a list unchanged exactly when no adjacent pair compares above zero. So the type rule's adjacent check and the JSX rule's identity check agree. |
| Sorting.SortPutsGreatestLast | lib/rules/sort-component-props.js:180-182 | An entry that occurs once and compares above every other entry ends last. |
| Sorting.CheckAdjacent | lib/rules/sort-type-properties.js:159-166 | The loop returns true exactly when every adjacent pair compares at most zero. |
| Sorting.AnyMoved | lib/rules/sort-component-props.js:230-238 | The loop returns true exactly when the sorted list differs from the original at some index. |
| Names.ToLower | lib/rules/sort-jsx-props.js:147-148 | Lower-casing keeps the length and maps each character on its own. |
| Names.CodePointIsTotalPreorder | lib/rules/sort-jsx-props.js:150 | The code-point order, a concrete stand-in for the name comparison, is a total preorder. |
| LexKey.KeyedIsTotalPreorder | lib/rules/sort-type-properties.js:94-138 | A comparator that is a lexicographic comparison of equal-length keys, then a total-preorder tie-break, is a total preorder. |
| Fields.SlotsMembers | lib/rules/sort-type-properties.js:150-152 | The filtered list holds exactly the sortable entries of the input. |
| Fields.FillPermutes | lib/rules/sort-type-properties.js:185-190 | Writing a permutation of the sortable entries into their slots gives a permutation of the whole list. |
| Fields.FillSlots | lib/rules/sort-type-properties.js:185-190 | After write-back, the sortable entries read in order are exactly the sorted list. |
| Fields.FillOthers | lib/rules/sort-jsx-props.js:193-199 | Write-back leaves the non-sortable entries, in order, as they were. |
| Fields.ArrangementShape | lib/rules/sort-type-properties.js:174-190 | For any total preorder, sorting the sortable entries back into their slots gives a permutation of the list. Other entries keep their index, every slot stays a slot, and the slots hold the sorted entries, ascending. The type rule and the JSX rule (sort-jsx-props.js:185-199) both build their fixed list this way. |
| Fields.FillWithOwnSlots | lib/rules/sort-type-properties.js:185-190 | Writing back the list's own sortable entries gives the list back. |
| Fields.FixesExactlyAtChanges | lib/rules/sort-type-properties.js:196-205 | There are no fixes exactly when nothing changed. Every fix replaces one changed slot with the new entry's text, every changed slot gets a fix, and there are as many fixes as changed slots. |
| Fields.FixesCount | lib/rules/sort-type-properties.js:196-205 | The fix list has as many edits as there are changed indices. |
| Fields.BuildFixes | lib/rules/sort-type-properties.js:196-205 | The loop's edits are exactly the declarative list of fixes. |
| Fields.JoinLength | lib/rules/sort-component-props.js:246-249 | Joining n texts adds exactly n - 1 separators to their total length. |
| Fields.JoinHoldsTexts | lib/rules/sort-component-props.js:246-249 | The k-th entry's text sits at the k-th offset of the joined string. |
| Fields.JoinSeparators | lib/rules/sort-component-props.js:249 | Each text but the last is followed by the separator in the joined string. |
| Fields.TextsPermute | lib/rules/sort-component-props.js:246-248 | Permuting the entries permutes their texts, each as often as its entry. |
| TypeProperties.ConfigureDefaults | lib/rules/sort-type-properties.js:42-53 | With no options: callbacks last, alphabetical sort, reserved names first, reserved names id, key, ref, name and type. |
| TypeProperties.CompareIsKeyOrder | lib/rules/sort-type-properties.js:94-138 | The comparator's sign is the lexicographic order of (reserved, callback, optional) buckets, then the name comparison. |
| TypeProperties.ComparatorIsTotalPreorder | lib/rules/sort-type-properties.js:94-138 | For every option setting, the comparator is a total preorder when the name comparison is one. |
| TypeProperties.ReservedFirst | lib/rules/sort-type-properties.js:98-106 | With reserved-first on, a reserved member precedes a non-reserved one, in both argument orders. |
| TypeProperties.CallbacksLast | lib/rules/sort-type-properties.js:108-119 | With callbacks-last on, and the reserved stage undecided, a non-callback precedes a callback. |
| TypeProperties.RequiredBeforeOptional | lib/rules/sort-type-properties.js:121-130 | In the same reserved/callback bucket, a required member precedes an optional one, whatever their names. |
| TypeProperties.ByNameWithinBucket | lib/rules/sort-type-properties.js:132-137 | Members that tie on every stage compare by name, or equal when alphabetical sorting is off. |
| TypeProperties.ShorthandFirstIgnored | lib/rules/sort-type-properties.js:44 | The shorthandFirst option is read but never changes the comparison. |
| TypeProperties.CompareProps | lib/rules/sort-type-properties.js:94-138 | For two members whose keys have names, the comparison returns the value of the named-key comparator. |
| TypeProperties.ScanOfNamed | lib/rules/sort-type-properties.js:159-166 | On property signatures that all have names, the check loop never throws and finds the list in order exactly when no adjacent pair compares above zero. |
| TypeProperties.ScanThrowsAtFirstFailure | lib/rules/sort-type-properties.js:159-166 | The check loop throws exactly when some adjacent comparison throws and every pair before it compares at most zero. |
| TypeProperties.RunOfNamed | lib/rules/sort-type-properties.js:141-207 | When every property signature has a name, the rule never throws and reports exactly what the named-key visitor reports. |
| TypeProperties.CrashNeedsUnnamedKey | lib/rules/sort-type-properties.js:96-110 | If the rule throws, some adjacent pair holds a member whose key has no name, and the reserved stage does not decide that pair. |
| TypeProperties.ReportedIffSortMoves | lib/rules/sort-type-properties.js:141-172 | A declaration is reported exactly when it has two or more property signatures and sorting them moves one. |
| TypeProperties.AllPropertiesReport | lib/rules/sort-type-properties.js:141-207 | For a member list of property signatures only, the rule reports exactly when sorting moves a member, with the interface message and the fixes that rewrite it into sorted order. |
| TypeProperties.ReportFixes | lib/rules/sort-type-properties.js:168-207 | A report carries the given message and a non-empty list of edits. Each edit replaces one changed member's range with the text of the member now at that index, every changed member gets one, and there are as many edits as changed members. |
| TypeProperties.FixIsIdempotent | lib/rules/sort-type-properties.js:159-207 | Re-running the rule on the fixed list reports nothing, and arranging it again changes nothing. |
| TypeProperties.SortedRequiredFirst | lib/rules/sort-type-properties.js:121-130 | In the sorted output, no optional member precedes a required member of the same bucket. |
| TypeProperties.NoAlphabeticalKeepsSourceOrder | lib/rules/sort-type-properties.js:132-137 | With alphabetical sorting off, members with equal bucket keys stay in source order. |
| ComponentProps.ConfigureDefaults | lib/rules/sort-component-props.js:42-52 | With no options: callbacks last, alphabetical sort, reserved names first, the same five reserved names. |
| ComponentProps.CompareIsKeyOrder | lib/rules/sort-component-props.js:192-227 | For named non-rest entries, the comparator's sign is the order of (reserved, callback, default-value) buckets, then the name comparison. |
| ComponentProps.RestAndUnnamed | lib/rules/sort-component-props.js:180-190 | A rest element compares above any other entry; an unnamed entry compares equal to any non-rest entry. |
| ComponentProps.ReservedFirst | lib/rules/sort-component-props.js:193-200 | With reserved-first on, a reserved entry precedes a non-reserved one, in both argument orders. |
| ComponentProps.CallbacksLast | lib/rules/sort-component-props.js:202-210 | With callbacks-last on, and the reserved stage undecided, a non-callback entry precedes a callback. |
| ComponentProps.ByNameWithinBucket | lib/rules/sort-component-props.js:222-227 | Entries that tie on every stage compare by name, or equal when alphabetical sorting is off. |
| ComponentProps.DefaultAfterNonDefault | lib/rules/sort-component-props.js:212-220 | In the same bucket, an entry without a default precedes one with a default. |
| ComponentProps.OneRest | lib/rules/sort-component-props.js:180-182 | With at most one rest element in the list, two rest elements of the list are the same entry. |
| ComponentProps.ComparatorIsTotalPreorderOn | lib/rules/sort-component-props.js:179-228 | With every entry named and at most one rest element, the comparator is a total preorder on the entries. |
| ComponentProps.Extract | lib/rules/sort-component-props.js:154-176 | Entries are taken exactly when the first parameter is an object pattern with two or more properties; the component test never decides. |
| ComponentProps.RestEndsLast | lib/rules/sort-component-props.js:180-182 | A single rest element ends last in the sorted list, even beside unnamed entries. |
| ComponentProps.ReportedIffSortMoves | lib/rules/sort-component-props.js:230-240 | A function is reported exactly when sorting moves an entry. With all entries named and one rest at most, that is exactly when some adjacent pair is out of order. |
| ComponentProps.JoinFixShape | lib/rules/sort-component-props.js:245-258 | The single edit spans the first entry's start to the last entry's end. Its text is the sorted texts joined by ", ": each at its offset, the multiset of texts kept, n - 1 separators added. |
| ComponentProps.ReportFix | lib/rules/sort-component-props.js:240-258 | A report carries the rule's message and exactly one edit. The edit spans the first entry's start to the last entry's end. Its text holds the sorted texts, the same multiset as the source texts, each at its offset, with n - 1 separators. When every entry is named and there is one rest element at most, some adjacent pair of the source order is out of order. |
| ComponentProps.SortedDefaultsLast | lib/rules/sort-component-props.js:212-220 | In the sorted output, no entry with a default precedes one without in the same bucket. |
| ComponentProps.FixIsIdempotent | lib/rules/sort-component-props.js:179-258 | The function after the fix is not reported again. |
| JsxProps.ConfigureDefaults | lib/rules/sort-jsx-props.js:57-83 | With no options: callbacks last, shorthand first, reserved first, no ignoreCase, multiline ignored. The seven reserved names include className and style; the five default callback patterns apply. |
| JsxProps.DefaultPatternsMeaning | lib/rules/sort-jsx-props.js:74-80 | Under the default patterns, a name is a callback exactly when it is on/set/handle then an upper-case ASCII letter, or ends in Callback or Handler. |
| JsxProps.CompareIsKeyOrder | lib/rules/sort-jsx-props.js:109-154 | The comparator's sign is the order of (multiline, reserved, shorthand, callback) buckets, then the name, lower-cased when ignoreCase is on. |
| JsxProps.ComparatorIsTotalPreorder | lib/rules/sort-jsx-props.js:109-154 | For every option setting, the comparator is a total preorder when the name comparison is one. |
| JsxProps.MultilinePlacement | lib/rules/sort-jsx-props.js:114-125 | With multiline "first", a multiline attribute precedes a single-line one; with "last" it follows. |
| JsxProps.IgnoreCaseTies | lib/rules/sort-jsx-props.js:145-151 | With ignoreCase, attributes in the same bucket whose names agree in lower case compare equal. |
| JsxProps.IgnoreCaseKeepsSourceOrder | lib/rules/sort-jsx-props.js:146-149 | With ignoreCase, sorted attributes in the same bucket whose names agree in lower case keep their source order. |
| JsxProps.ReportedIffAdjacentUnsorted | lib/rules/sort-jsx-props.js:157-177 | An element is reported exactly when it has two or more named attributes and some adjacent pair compares above zero. |
| JsxProps.ReportEdits | lib/rules/sort-jsx-props.js:176-214 | A report carries the rule's message and at least one edit. Every edit rewrites a changed named attribute with its new text and never touches a spread attribute. Every changed attribute gets that edit, and there are exactly as many edits as changed attributes. |
| JsxProps.FixIsIdempotent | lib/rules/sort-jsx-props.js:157-214 | Re-running the rule on the fixed attribute list reports nothing. |
| Scenarios.TypeCallbacksAreComponentCallbacks | lib/rules/sort-component-props.js:56-85 | Every name the type rule treats as a callback, the component rule does too. |
| Scenarios.JsxDefaultCallbacksAreComponentCallbacks | lib/rules/sort-jsx-props.js:74-80 | Every default-pattern callback is a component-rule callback, and a type-rule callback unless it starts with handle. |
| Scenarios.DigitAfterPrefix | lib/rules/sort-type-properties.js:56-81 | "on1" is a callback for the type and component rules but not for the JSX default patterns. |
| Scenarios.HandlePrefix | lib/rules/sort-component-props.js:79 | "handlers" is a callback only for the component rule. |
| Scenarios.CallbackNames | lib/rules/sort-type-properties.js:56-81 | "onClick", "setPage" and "submitHandler" are callbacks for the type rule and for the JSX default patterns. |
| Scenarios.NonCallbackNames | lib/rules/sort-component-props.js:56-85 | "oncallback", "settings" and "on" are callbacks for neither the component rule nor the JSX default patterns. |
| Scenarios.UnnamedTiesNotTransitive | lib/rules/sort-component-props.js:184-224 | With `x`, an unnamed entry and `a`, the component comparator ties `x` with the unnamed entry and the unnamed entry with `a`, yet puts `a` before `x`. |
| Scenarios.QuotedParamsModelOrder | lib/rules/sort-component-props.js:245-258 | For `function F({ c = 1, d, "data-x": x, a = 2 })` the model sorts the entries into `d, c = 1, "data-x": x, a = 2`, the insertion sort's order, which the fix text then uses. |
| Scenarios.ButtonComponentReported | tests/sort-component-props.js:18 | The component rule reports the Button parameters listed as valid, because `disabled = false` precedes `variant`. |
| Scenarios.ButtonOrderNeverProduced | tests/sort-component-props.js:18 | That parameter order is never the component rule's sorted output, from any list of named entries. |
| Scenarios.ButtonInterfaceReported | tests/sort-type-properties.js:15-20 | The type rule reports the Button interface listed as valid, because the optional `disabled` precedes the required `variant`. |
| Scenarios.QuotedKeyCrashes | lib/rules/sort-type-properties.js:108-110 | `interface P { width: number; "aria-label": string; }` makes the type rule throw: no reserved name decides the pair, so the callback test reads the missing name. |
| Scenarios.ReservedKeyBeforeQuoted | lib/rules/sort-type-properties.js:98-106 | `interface P { id: string; "aria-label": string; }` is silent: the reserved stage orders the pair before the name is read. |
| Scenarios.QuotedKeyBeforeReserved | lib/rules/sort-type-properties.js:98-106 | `interface P { "aria-label": string; id: string; }` is reported, with the fix's order left undetermined. |
| Scenarios.DataTableMembersShaped | tests/sort-type-properties.js:56-65 | The DataTable interface input is a well-formed list of eight property signatures with the listed names and optional flags. |
| Scenarios.DataTableMembersSort | tests/sort-type-properties.js:56-65 | The DataTable members sort to id, columns, data, className?, emptyMessage?, loading?, onRowClick, onPageChange?. |
| Scenarios.DataTableInterfaceFix | tests/sort-type-properties.js:56-81 | The rule reports the DataTable interface, with the fixes that rewrite it into that order. |
| Scenarios.DataTableParamsAreShaped | tests/sort-component-props.js:43 | The DataTable component's first parameter is a well-formed pattern of eight named entries, with defaults on loading and emptyMessage. |
| Scenarios.DataTableParamsSort | tests/sort-component-props.js:43-52 | The component rule sorts the DataTable parameters to id, className, columns, data, emptyMessage, loading, onPageChange, onRowClick. |
| Scenarios.DataTableParamsReported | tests/sort-component-props.js:43-52 | Any function whose first parameter has that shape is reported, with the single edit that writes the entries in that order. |
| Scenarios.DataTableComponentFix | tests/sort-component-props.js:43-55 | The rule reports the DataTable component, and its edit replaces offsets 21 to 118 with the sorted texts joined by ", ", which is the expected output. |

## Where the tests and the code disagree

The model follows the code.

- The tests expect the messages "… should be sorted: reserved first,
  alphabetical, callbacks last." The code reports "… should be sorted
  according to the defined order." (`tests/sort-type-properties.js:44`,
  `tests/sort-component-props.js:34`).
- Both rules' comparators put required members (type rule) or entries
  without a default (component rule) before the others within a bucket. The
  tests' expected orders ignore that stage.
  - The Button lists at `tests/sort-type-properties.js:15-20` and
    `tests/sort-component-props.js:18` are listed as valid, yet the code
    reports them (`Scenarios.ButtonInterfaceReported`,
    `Scenarios.ButtonComponentReported`).
  - The DataTable fix expected at `tests/sort-type-properties.js:72-81` is
    not what the code produces (`Scenarios.DataTableInterfaceFix`).
  - In the component rule's DataTable example at
    `tests/sort-component-props.js:43-52`, both entries with a default
    (`emptyMessage`, `loading`) come after every plain entry of their bucket
    by name too. So there the expected output is the code's
    (`Scenarios.DataTableComponentFix`).

## Left out

- ESLint plumbing: rule metadata, option schemas, `context`, the AST walk
  and node types. Entries arrive already classified as sortable, rest or
  other, with their name, flags, source text and range.
- `localeCompare` and the `locale` option. The name comparison is the
  parameter `nameCmp`, required to be a total preorder; the worked examples
  use code-point order.
- Upper- and lower-casing work on ASCII letters only; other characters are
  left unchanged.
- JSX callback patterns: only the two shapes the defaults use are modelled,
  `^prefix[A-Z]` and `suffix$`. Arbitrary user regular expressions are not.
- Whether a JSX attribute spans several lines (`isMultiline`) is a flag of
  the entry, not computed from source locations.
- Whether an unnamed function's body returns JSX is a flag of the function
  node. The AST search is not modelled; it never decides the outcome anyway.
- `lib/index.js` is not modelled. It registers only two of the three rules,
  and its recommended configuration passes a `callbackPrefixes` option that
  the rules' schemas do not accept.
- Which keys have a name is part of the input. An identifier key has one,
  computed keys that are identifiers included. String-literal keys,
  number-literal keys and computed keys that are not identifiers have none.
  The component rule ties an entry without a name with every other entry,
  and the model does the same.
- TypeProperties.Compare: defined for members whose keys have names only.
  For a key without a name, the source's comparator throws at the callback
  test unless the reserved stage decides the pair. `TypeProperties.Run`
  models that outcome, and `TypeProperties.RunOfNamed` shows it agrees with
  `TypeProperties.Visit` when every key has a name.
- TypeProperties.Run: when a list with a key without a name is reported, the
  outcome is `ReportedUnsettled`. Whether the fix's sort throws, and which
  order it produces, depend on which pairs the engine's sort compares.
- JsxProps.Compare: a namespaced attribute name such as `xlink:href` is
  compared as the empty name. In the source its name is an identifier
  object. The callback test sees the text "[object Object]". The name stage
  throws when that attribute is on the left or when ignoreCase is on.
  Otherwise it compares the left name with "[object Object]".
- Applying the edits to a source buffer is not modelled; the model stops at
  the list of edits.
- The engine's sort algorithm is replaced by the stable insertion sort.
  `Sorting.StableSortUnique` shows the two agree whenever the comparator is
  a total preorder on the list.
- ComponentProps.ComparatorIsTotalPreorderOn: proved only when every entry
  is named and there is at most one rest element. An unnamed entry compares
  equal to everything, which is not transitive, so the engine's order for
  such lists is implementation-defined. The model still writes the
  insertion sort's order into the fix (`ComponentProps.Visit`,
  `ComponentProps.ReportFix`), and the engine's sort can give another order.
  For `function F({ c = 1, d, "data-x": x, a = 2 })` the model's fix text is
  `d, c = 1, "data-x": x, a = 2` (`Scenarios.QuotedParamsModelOrder`). A
  binary insertion sort, which compares `a` with `d` and `c` directly, gives
  `d, a = 2, c = 1, "data-x": x`. For such lists the model promises only
  that the report is made when its insertion sort moves an entry and that
  the fix holds the same entries with the rest element last
  (`ComponentProps.RestEndsLast`); it does not claim the engine's text.
- ComponentProps.FixIsIdempotent: stated under the same restriction, for the
  same reason.
- ComponentProps.SortedDefaultsLast: stated under the same restriction, for
  the same reason.
- Type alias declarations whose annotation is not a type literal are never
  reported (`TypeAliasDecl(None)`).
