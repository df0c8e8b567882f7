/**
 * The `sort-type-properties` rule: the members of an interface body, or of an
 * object type literal on the right-hand side of a type alias.
 *
 * Only property signatures are sorted; every other member (method, call and
 * index signatures) keeps its index. The order is: reserved names first,
 * callbacks last, required before optional, then by name.
 */
module TypeProperties {
  import opened Names
  import opened Sorting
  import opened LexKey
  import opened Fields

  datatype Options = Options(
    callbacksLast: bool,
    shorthandFirst: bool,  // accepted by the schema, read by no comparison
    noSortAlphabetically: bool,
    reservedFirst: bool,
    reservedPropsNames: seq<string>)

  const DefaultReservedNames: seq<string> := ["id", "key", "ref", "name", "type"]

  /** Reads the options object: `callbacksLast` and `reservedFirst` are on
      unless set to false, the other flags are off unless set to true, and an
      explicit list of reserved names (even an empty one) replaces the default. */
  function Configure(raw: RawOptions): Options {
    Options(
      callbacksLast := raw.callbacksLast != Some(false),
      shorthandFirst := raw.shorthandFirst == Some(true),
      noSortAlphabetically := raw.noSortAlphabetically == Some(true),
      reservedFirst := raw.reservedFirst != Some(false),
      reservedPropsNames := match raw.reservedPropsNames
                            case Some(names) => names
                            case None => DefaultReservedNames)
  }

  lemma ConfigureDefaults()
    ensures Configure(NoOptions) == Options(true, false, false, true, ["id", "key", "ref", "name", "type"])
  {
  }

  /** The callback heuristic: `on` or `set` followed by a character that
      upper-casing leaves unchanged, or a `Callback` or `Handler` suffix. */
  predicate IsCallback(n: string) {
    || (|n| > 2 && StartsWith(n, "on") && UnchangedByUpper(n[2]))
    || (|n| > 3 && StartsWith(n, "set") && UnchangedByUpper(n[3]))
    || EndsWith(n, "Callback")
    || EndsWith(n, "Handler")
  }

  predicate IsReserved(o: Options, n: string) {
    n in o.reservedPropsNames
  }

  /** For type members, "shorthand" means declared optional. */
  predicate IsShorthand(f: Field) {
    f.optional
  }

  /** The rule's comparator; `nameCmp` stands for `localeCompare`. */
  function Compare(o: Options, nameCmp: (string, string) -> int, a: Field, b: Field): int {
    var an, bn := Label(a), Label(b);
    if o.reservedFirst && IsReserved(o, an) && !IsReserved(o, bn) then -1
    else if o.reservedFirst && !IsReserved(o, an) && IsReserved(o, bn) then 1
    else if o.callbacksLast && !IsCallback(an) && IsCallback(bn) then -1
    else if o.callbacksLast && IsCallback(an) && !IsCallback(bn) then 1
    else if !IsShorthand(a) && IsShorthand(b) then -1
    else if IsShorthand(a) && !IsShorthand(b) then 1
    else if !o.noSortAlphabetically then nameCmp(an, bn)
    else 0
  }

  function Comparator(o: Options, nameCmp: (string, string) -> int): (Field, Field) -> int {
    (a, b) => Compare(o, nameCmp, a, b)
  }

  /** The bucket key: (reserved stage, callback stage, optional stage); a
      disabled stage contributes 0 for every member. */
  function Key(o: Options, f: Field): seq<int> {
    [ if o.reservedFirst && !IsReserved(o, Label(f)) then 1 else 0,
      if o.callbacksLast && IsCallback(Label(f)) then 1 else 0,
      if f.optional then 1 else 0 ]
  }

  /** The last tie-break: the name order, or a tie when alphabetical sorting is off. */
  function Tie(o: Options, nameCmp: (string, string) -> int, a: Field, b: Field): int {
    if o.noSortAlphabetically then 0 else nameCmp(Label(a), Label(b))
  }

  /** The comparator is the lexicographic order of the bucket keys followed by
      the name order. */
  lemma CompareIsKeyOrder(o: Options, nameCmp: (string, string) -> int, a: Field, b: Field)
    ensures Sign(Compare(o, nameCmp, a, b)) == LexCmp(Key(o, a), Key(o, b), Tie(o, nameCmp, a, b))
  {
    LexCmp3(Key(o, a), Key(o, b), Tie(o, nameCmp, a, b));
  }

  /** Hence the comparator is a total preorder whenever the name order is:
      swapping the arguments flips the sign, and it is transitive. */
  lemma ComparatorIsTotalPreorder(o: Options, nameCmp: (string, string) -> int)
    requires TotalPreorder(nameCmp)
    ensures TotalPreorder(Comparator(o, nameCmp))
  {
    var cmp := Comparator(o, nameCmp);
    var key := (f: Field) => Key(o, f);
    var tie := (a: Field, b: Field) => Tie(o, nameCmp, a, b);
    forall a, b ensures Sign(cmp(a, b)) == LexCmp(key(a), key(b), tie(a, b)) {
      CompareIsKeyOrder(o, nameCmp, a, b);
    }
    KeyedIsTotalPreorder(cmp, key, tie, 3);
  }

  /** `a` and `b` fall in the same bucket of every enabled reserved and
      callback stage. */
  predicate SameBucket(o: Options, a: Field, b: Field) {
    && (o.reservedFirst ==> (IsReserved(o, Label(a)) <==> IsReserved(o, Label(b))))
    && (o.callbacksLast ==> (IsCallback(Label(a)) <==> IsCallback(Label(b))))
  }

  /** Within one reserved/callback bucket a required member always precedes
      an optional one, whatever the names. */
  lemma RequiredBeforeOptional(o: Options, nameCmp: (string, string) -> int, a: Field, b: Field)
    requires SameBucket(o, a, b)
    requires !a.optional && b.optional
    ensures Compare(o, nameCmp, a, b) < 0 && Compare(o, nameCmp, b, a) > 0
  {
  }

  /** With `reservedFirst`, a reserved member precedes every member that is
      not reserved, whatever the other stages say. */
  lemma ReservedFirst(o: Options, nameCmp: (string, string) -> int, a: Field, b: Field)
    requires o.reservedFirst && IsReserved(o, Label(a)) && !IsReserved(o, Label(b))
    ensures Compare(o, nameCmp, a, b) < 0 && Compare(o, nameCmp, b, a) > 0
  {
  }

  /** With `callbacksLast`, within one reserved bucket a callback follows
      every member that is not a callback, whatever the later stages say. */
  lemma CallbacksLast(o: Options, nameCmp: (string, string) -> int, a: Field, b: Field)
    requires o.callbacksLast && (o.reservedFirst ==> (IsReserved(o, Label(a)) <==> IsReserved(o, Label(b))))
    requires !IsCallback(Label(a)) && IsCallback(Label(b))
    ensures Compare(o, nameCmp, a, b) < 0 && Compare(o, nameCmp, b, a) > 0
  {
  }

  /** Members in the same buckets are ordered by name, unless alphabetical
      sorting is off. */
  lemma ByNameWithinBucket(o: Options, nameCmp: (string, string) -> int, a: Field, b: Field)
    requires SameBucket(o, a, b) && a.optional == b.optional
    ensures Compare(o, nameCmp, a, b) == (if o.noSortAlphabetically then 0 else nameCmp(Label(a), Label(b)))
  {
  }

  /** `shorthandFirst` never changes a comparison. */
  lemma ShorthandFirstIgnored(o: Options, nameCmp: (string, string) -> int, a: Field, b: Field, flag: bool)
    ensures Compare(o.(shorthandFirst := flag), nameCmp, a, b) == Compare(o, nameCmp, a, b)
  {
  }

  /** The declarations the rule visits. */
  datatype Declaration =
    | InterfaceDecl(body: seq<Field>)
    | TypeAliasDecl(literal: Option<seq<Field>>)  // the members when the aliased type is an object type literal

  const InterfaceMessage := "Interface properties should be sorted according to the defined order."
  const TypeMessage := "Type properties should be sorted according to the defined order."

  /** The fix's new member list: the property signatures sorted into the
      property-signature slots, every other member left in place. */
  function Arrange(o: Options, nameCmp: (string, string) -> int, members: seq<Field>): seq<Field> {
    Fill(members, Sort(Slots(members), Comparator(o, nameCmp)))
  }

  /** One member list: skip lists with fewer than two members or fewer than two
      property signatures; report when some adjacent pair of property
      signatures compares greater than zero. */
  function CheckMembers(o: Options, nameCmp: (string, string) -> int, members: seq<Field>, message: string): Option<Report> {
    if |members| < 2 then None
    else
      var props := Slots(members);
      if |props| < 2 then None
      else if AdjacentSorted(Comparator(o, nameCmp), props) then None
      else Some(Report(message, Fixes(members, Arrange(o, nameCmp, members))))
  }

  function Visit(o: Options, nameCmp: (string, string) -> int, d: Declaration): Option<Report> {
    match d
    case InterfaceDecl(body) => CheckMembers(o, nameCmp, body, InterfaceMessage)
    case TypeAliasDecl(None) => None
    case TypeAliasDecl(Some(members)) => CheckMembers(o, nameCmp, members, TypeMessage)
  }

  /** The members of the declaration that the rule inspects. */
  function MembersOf(d: Declaration): seq<Field> {
    match d
    case InterfaceDecl(body) => body
    case TypeAliasDecl(None) => []
    case TypeAliasDecl(Some(members)) => members
  }

  /** A declaration is reported exactly when it has at least two property
      signatures and sorting them would move one: the adjacent-pair check
      agrees with "the stable sort is not the identity". */
  lemma ReportedIffSortMoves(o: Options, nameCmp: (string, string) -> int, d: Declaration)
    requires TotalPreorder(nameCmp) && WellFormed(MembersOf(d))
    ensures var props := Slots(MembersOf(d));
            Visit(o, nameCmp, d).Some? <==> |props| >= 2 && Sort(props, Comparator(o, nameCmp)) != props
  {
    var members := MembersOf(d);
    ComparatorIsTotalPreorder(o, nameCmp);
    SlotFacts(Comparator(o, nameCmp), members);
    SortFixedIffAdjacentSorted(Slots(members), Comparator(o, nameCmp));
  }

  /** A member list made only of property signatures is reported exactly when
      it has two or more members and sorting moves one of them; the report's
      fixes then rewrite it into its sorted order. */
  lemma AllPropertiesReport(o: Options, nameCmp: (string, string) -> int, members: seq<Field>)
    requires TotalPreorder(nameCmp) && WellFormed(members)
    requires forall i | 0 <= i < |members| :: members[i].kind == Sortable
    ensures var sorted := Sort(members, Comparator(o, nameCmp));
            Visit(o, nameCmp, InterfaceDecl(members))
              == if |members| >= 2 && sorted != members then Some(Report(InterfaceMessage, Fixes(members, sorted))) else None
  {
    var cmp := Comparator(o, nameCmp);
    SlotsAllSortable(members);
    ComparatorIsTotalPreorder(o, nameCmp);
    SlotFacts(cmp, members);
    SortFixedIffAdjacentSorted(members, cmp);
    FillAllSortable(members, Sort(members, cmp));
  }

  /** A report carries the declaration's message and at least one edit. Each
      edit replaces the range of one member that the arrangement changed with
      the text of the member now at that index, every changed member gets
      such an edit, and there are as many edits as changed members. */
  lemma ReportFixes(o: Options, nameCmp: (string, string) -> int, members: seq<Field>, message: string)
    requires TotalPreorder(nameCmp) && WellFormed(members)
    requires CheckMembers(o, nameCmp, members, message).Some?
    ensures var report := CheckMembers(o, nameCmp, members, message).value;
            && report.message == message
            && report.fixes == Fixes(members, Arrange(o, nameCmp, members))
            && report.fixes != []
    ensures |Arrange(o, nameCmp, members)| == |members|
    ensures forall e | e in CheckMembers(o, nameCmp, members, message).value.fixes ::
              exists i | 0 <= i < |members| ::
                && members[i] != Arrange(o, nameCmp, members)[i]
                && e == Replace(members[i].start, members[i].end, Arrange(o, nameCmp, members)[i].text)
    ensures forall i | 0 <= i < |members| && members[i] != Arrange(o, nameCmp, members)[i] ::
              Replace(members[i].start, members[i].end, Arrange(o, nameCmp, members)[i].text)
                in CheckMembers(o, nameCmp, members, message).value.fixes
    ensures |CheckMembers(o, nameCmp, members, message).value.fixes| == |Changed(members, Arrange(o, nameCmp, members))|
  {
    var cmp := Comparator(o, nameCmp);
    var props := Slots(members);
    var r := Arrange(o, nameCmp, members);
    assert !AdjacentSorted(cmp, props);
    ComparatorIsTotalPreorder(o, nameCmp);
    SlotFacts(cmp, members);
    SortFixedIffAdjacentSorted(props, cmp);
    ArrangementShape(cmp, members);
    assert Slots(r) != props;
    FixesExactlyAtChanges(members, r);
  }

  /** Running the rule on the fixed member list reports nothing, and
      arranging it again changes nothing. */
  lemma FixIsIdempotent(o: Options, nameCmp: (string, string) -> int, members: seq<Field>, message: string)
    requires TotalPreorder(nameCmp) && WellFormed(members)
    ensures CheckMembers(o, nameCmp, Arrange(o, nameCmp, members), message).None?
    ensures Arrange(o, nameCmp, Arrange(o, nameCmp, members)) == Arrange(o, nameCmp, members)
  {
    var cmp := Comparator(o, nameCmp);
    var r := Arrange(o, nameCmp, members);
    ComparatorIsTotalPreorder(o, nameCmp);
    ArrangementShape(cmp, members);
    var props := Slots(r);
    SortedIsFixed(props, cmp);
    FillWithOwnSlots(r);
    forall i | 0 < i < |props| ensures cmp(props[i - 1], props[i]) <= 0 {
    }
  }

  /** In the sorted property signatures, no optional member precedes a
      required member of the same reserved/callback bucket. */
  lemma SortedRequiredFirst(o: Options, nameCmp: (string, string) -> int, members: seq<Field>)
    requires TotalPreorder(nameCmp) && WellFormed(members)
    ensures var r := Sort(Slots(members), Comparator(o, nameCmp));
            forall i, j | 0 <= i < j < |r| && SameBucket(o, r[i], r[j]) ::
              !(r[i].optional && !r[j].optional)
  {
    var r := Sort(Slots(members), Comparator(o, nameCmp));
    ComparatorIsTotalPreorder(o, nameCmp);
    SlotFacts(Comparator(o, nameCmp), members);
    SortSorted(Slots(members), Comparator(o, nameCmp));
    forall i, j | 0 <= i < j < |r| && SameBucket(o, r[i], r[j])
      ensures !(r[i].optional && !r[j].optional)
    {
      if r[i].optional && !r[j].optional {
        RequiredBeforeOptional(o, nameCmp, r[j], r[i]);
      }
    }
  }

  /** With `noSortAlphabetically`, members in identical buckets compare equal,
      so the sort keeps them in source order. */
  lemma NoAlphabeticalKeepsSourceOrder(o: Options, nameCmp: (string, string) -> int, members: seq<Field>)
    requires TotalPreorder(nameCmp) && WellFormed(members) && o.noSortAlphabetically
    ensures var r := Sort(Slots(members), Comparator(o, nameCmp));
            forall i, j | 0 <= i < j < |r| && Key(o, r[i]) == Key(o, r[j]) :: r[i].start < r[j].start
  {
    var cmp := Comparator(o, nameCmp);
    var r := Sort(Slots(members), cmp);
    ComparatorIsTotalPreorder(o, nameCmp);
    SlotFacts(cmp, members);
    SortStable(Slots(members), cmp, StartOf);
    forall i, j | 0 <= i < j < |r| && Key(o, r[i]) == Key(o, r[j]) ensures r[i].start < r[j].start {
      CompareIsKeyOrder(o, nameCmp, r[i], r[j]);
      assert cmp(r[i], r[j]) == 0;
    }
  }

  /* The whole rule, members whose key has no name included. A string or
     number literal key, or a computed key that is not an identifier, has no
     `name`; `compareProps` then throws as soon as it gets past the reserved
     stage, because `isCallback` reads the length of the name. */

  /** `isReserved(a.key.name)`: a key without a name is never reserved. */
  predicate KeyReserved(o: Options, f: Field) {
    f.name.Some? && IsReserved(o, f.name.value)
  }

  /** Every entry's key has a name. */
  predicate Named(props: seq<Field>) {
    forall i | 0 <= i < |props| :: props[i].name.Some?
  }

  /** One call of `compareProps`: it returns a value or throws. */
  datatype Comparison = Throws | Returns(value: int)

  /** `compareProps` on any two property signatures. The reserved stage
      decides first; after it, `isCallback` is asked of both names whatever
      the options, which throws when either name is missing. */
  function CompareProps(o: Options, nameCmp: (string, string) -> int, a: Field, b: Field): (r: Comparison)
    ensures a.name.Some? && b.name.Some? ==> r == Returns(Compare(o, nameCmp, a, b))
  {
    if o.reservedFirst && KeyReserved(o, a) && !KeyReserved(o, b) then Returns(-1)
    else if o.reservedFirst && !KeyReserved(o, a) && KeyReserved(o, b) then Returns(1)
    else if a.name.None? || b.name.None? then Throws
    else Returns(Compare(o, nameCmp, a, b))
  }

  /** What the check loop finds. */
  datatype Scan = InOrder | OutOfOrder | ScanThrows

  /** The check loop: adjacent property signatures from left to right,
      stopping at the first pair that compares above zero or throws. */
  function ScanAdjacent(o: Options, nameCmp: (string, string) -> int, props: seq<Field>): Scan
    decreases |props|
  {
    if |props| < 2 then InOrder
    else
      var c := CompareProps(o, nameCmp, props[0], props[1]);
      if c.Throws? then ScanThrows
      else if c.value > 0 then OutOfOrder
      else ScanAdjacent(o, nameCmp, props[1..])
  }

  /** The adjacent pair at `k` returns a value of at most zero. */
  predicate PairInOrder(o: Options, nameCmp: (string, string) -> int, props: seq<Field>, k: nat)
    requires k + 1 < |props|
  {
    var c := CompareProps(o, nameCmp, props[k], props[k + 1]);
    c.Returns? && c.value <= 0
  }

  /** What running the rule on one declaration does. */
  datatype Outcome =
    | Silent
    | Reported(report: Report)
    | Crashes
      /** Reported with this message; the fix's sort meets a member without a
          name, and whether it throws depends on which pairs the engine's
          sort compares. */
    | ReportedUnsettled(message: string)

  function RunMembers(o: Options, nameCmp: (string, string) -> int, members: seq<Field>, message: string): Outcome {
    if |members| < 2 then Silent
    else
      var props := Slots(members);
      if |props| < 2 then Silent
      else match ScanAdjacent(o, nameCmp, props)
        case ScanThrows => Crashes
        case InOrder => Silent
        case OutOfOrder =>
          if Named(props) then Reported(Report(message, Fixes(members, Arrange(o, nameCmp, members))))
          else ReportedUnsettled(message)
  }

  function Run(o: Options, nameCmp: (string, string) -> int, d: Declaration): Outcome {
    match d
    case InterfaceDecl(body) => RunMembers(o, nameCmp, body, InterfaceMessage)
    case TypeAliasDecl(None) => Silent
    case TypeAliasDecl(Some(members)) => RunMembers(o, nameCmp, members, TypeMessage)
  }

  /** On named entries the check loop never throws, and it finds them out of
      order exactly when some adjacent pair compares above zero. */
  lemma {:induction false} ScanOfNamed(o: Options, nameCmp: (string, string) -> int, props: seq<Field>)
    requires Named(props)
    ensures ScanAdjacent(o, nameCmp, props) == if AdjacentSorted(Comparator(o, nameCmp), props) then InOrder else OutOfOrder
    decreases |props|
  {
    var cmp := Comparator(o, nameCmp);
    if |props| >= 2 {
      var t := props[1..];
      assert Named(t) by {
        forall i | 0 <= i < |t| ensures t[i].name.Some? {
          assert t[i] == props[i + 1];
        }
      }
      ScanOfNamed(o, nameCmp, t);
      assert AdjacentSorted(cmp, props) <==> cmp(props[0], props[1]) <= 0 && AdjacentSorted(cmp, t) by {
        if cmp(props[0], props[1]) <= 0 && AdjacentSorted(cmp, t) {
          forall i | 0 < i < |props| ensures cmp(props[i - 1], props[i]) <= 0 {
            if i > 1 {
              assert props[i - 1] == t[i - 2] && props[i] == t[i - 1];
            }
          }
        }
        if AdjacentSorted(cmp, props) {
          forall i | 0 < i < |t| ensures cmp(t[i - 1], t[i]) <= 0 {
            assert t[i - 1] == props[i] && t[i] == props[i + 1];
          }
        }
      }
    }
  }

  /** The pair at `k` throws and every pair before it is in order: the
      check loop gets to `k` and throws there. */
  predicate FirstFailureThrows(o: Options, nameCmp: (string, string) -> int, props: seq<Field>, k: nat)
    requires k + 1 < |props|
  {
    && CompareProps(o, nameCmp, props[k], props[k + 1]).Throws?
    && forall j | 0 <= j < k :: PairInOrder(o, nameCmp, props, j)
  }

  /** The check loop throws exactly when some adjacent pair throws and every
      pair before it is in order. */
  lemma {:induction false} ScanThrowsAtFirstFailure(o: Options, nameCmp: (string, string) -> int, props: seq<Field>)
    ensures ScanAdjacent(o, nameCmp, props) == ScanThrows <==>
              exists k: nat | k + 1 < |props| :: FirstFailureThrows(o, nameCmp, props, k)
    decreases |props|
  {
    if |props| >= 2 {
      var t := props[1..];
      ScanThrowsAtFirstFailure(o, nameCmp, t);
      var c := CompareProps(o, nameCmp, props[0], props[1]);
      if c.Throws? {
        assert FirstFailureThrows(o, nameCmp, props, 0);
      } else if c.value > 0 {
        forall k: nat | k + 1 < |props| ensures !FirstFailureThrows(o, nameCmp, props, k) {
          assert !PairInOrder(o, nameCmp, props, 0);
        }
      } else {
        assert PairInOrder(o, nameCmp, props, 0);
        forall j: nat | j + 1 < |t| ensures PairInOrder(o, nameCmp, t, j) == PairInOrder(o, nameCmp, props, j + 1) {
          assert t[j] == props[j + 1] && t[j + 1] == props[j + 2];
        }
        forall k: nat | k + 1 < |t| ensures FirstFailureThrows(o, nameCmp, t, k) == FirstFailureThrows(o, nameCmp, props, k + 1) {
          assert t[k] == props[k + 1] && t[k + 1] == props[k + 2];
          if FirstFailureThrows(o, nameCmp, t, k) {
            forall j | 0 <= j < k + 1 ensures PairInOrder(o, nameCmp, props, j) {
              if j > 0 {
                assert PairInOrder(o, nameCmp, t, j - 1);
              }
            }
          }
          if FirstFailureThrows(o, nameCmp, props, k + 1) {
            forall j | 0 <= j < k ensures PairInOrder(o, nameCmp, t, j) {
              assert PairInOrder(o, nameCmp, props, j + 1);
            }
          }
        }
        assert !FirstFailureThrows(o, nameCmp, props, 0);
        if ScanAdjacent(o, nameCmp, t) == ScanThrows {
          var k: nat :| k + 1 < |t| && FirstFailureThrows(o, nameCmp, t, k);
          assert FirstFailureThrows(o, nameCmp, props, k + 1);
        } else {
          forall k: nat | k + 1 < |props| ensures !FirstFailureThrows(o, nameCmp, props, k) {
            if k > 0 {
              assert !FirstFailureThrows(o, nameCmp, t, k - 1);
            }
          }
        }
      }
    }
  }

  /** When every property signature has a name, running the rule is exactly
      `Visit`: it never throws, and it reports what `Visit` reports. */
  lemma RunOfNamed(o: Options, nameCmp: (string, string) -> int, d: Declaration)
    requires Named(Slots(MembersOf(d)))
    ensures Run(o, nameCmp, d) == if Visit(o, nameCmp, d).Some? then Reported(Visit(o, nameCmp, d).value) else Silent
  {
    ScanOfNamed(o, nameCmp, Slots(MembersOf(d)));
  }

  /** One of the two keys has no name and the reserved stage does not
      decide between them. */
  predicate UnnamedUndecided(o: Options, a: Field, b: Field) {
    && (a.name.None? || b.name.None?)
    && !(o.reservedFirst && KeyReserved(o, a) != KeyReserved(o, b))
  }

  /** The rule throws only on a declaration with a property signature whose
      key has no name, and only after the reserved stage failed to decide a
      pair holding it. */
  lemma CrashNeedsUnnamedKey(o: Options, nameCmp: (string, string) -> int, d: Declaration)
    requires Run(o, nameCmp, d) == Crashes
    ensures exists k: nat | k + 1 < |Slots(MembersOf(d))| ::
              UnnamedUndecided(o, Slots(MembersOf(d))[k], Slots(MembersOf(d))[k + 1])
  {
    var props := Slots(MembersOf(d));
    assert ScanAdjacent(o, nameCmp, props) == ScanThrows;
    ScanThrowsAtFirstFailure(o, nameCmp, props);
    var k: nat :| k + 1 < |props| && FirstFailureThrows(o, nameCmp, props, k);
    assert CompareProps(o, nameCmp, props[k], props[k + 1]).Throws?;
    assert UnnamedUndecided(o, props[k], props[k + 1]);
  }
}
