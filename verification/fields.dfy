/**
 * The entries the three rules reorder, and the machinery they share to turn a
 * sorted order back into text edits.
 *
 * An entry is a syntax node of a member list: a type member, a JSX attribute,
 * or an entry of a destructuring pattern. The model keeps only what the rules
 * read from the node: its kind, its key name, its flags, its source text and
 * its source range. Entries of one list occupy disjoint, increasing ranges
 * (`WellFormed`), so two distinct nodes are never equal values and the
 * source's identity comparisons (`!==`) become value comparisons here.
 */
module Fields {
  import opened Names
  import opened Sorting

  /** Which kind of node an entry is. */
  datatype Kind =
    | Sortable  // TSPropertySignature, JSXAttribute, or a Property of an object pattern
    | Rest      // RestElement of an object pattern
    | Fixed     // any other member: method, call or index signature; JSXSpreadAttribute

  datatype Field = Field(
    kind: Kind,
    name: Option<string>,  // the key's name, absent for rest elements and non-identifier keys
    optional: bool,        // declared with `?` (type member) or given a default value (pattern entry)
    shorthand: bool,       // a JSX attribute written without a value
    multiline: bool,       // the node starts and ends on different lines
    text: string,          // the node's source text
    start: nat,            // the node's source range
    end: nat)

  /** A replacement of the source text in [start, end). */
  datatype Edit = Replace(start: nat, end: nat, text: string)

  /** One report per node: its message and the edits of its fix. */
  datatype Report = Report(message: string, fixes: seq<Edit>)

  /** The options object shared by the three rules' schemas, as written in a
      configuration: an absent key is `None`. */
  datatype RawOptions = RawOptions(
    callbacksLast: Option<bool>,
    shorthandFirst: Option<bool>,
    noSortAlphabetically: Option<bool>,
    reservedFirst: Option<bool>,
    reservedPropsNames: Option<seq<string>>)

  const NoOptions := RawOptions(None, None, None, None, None)

  /** The name a comparator reads from an entry. */
  function Label(f: Field): string {
    match f.name
    case Some(n) => n
    case None => ""
  }

  function StartOf(f: Field): int {
    f.start
  }

  /** The entries of a list occupy non-empty, disjoint ranges in source order. */
  predicate WellFormed(fs: seq<Field>) {
    && (forall i | 0 <= i < |fs| :: fs[i].start < fs[i].end)
    && (forall i, j | 0 <= i < j < |fs| :: fs[i].end <= fs[j].start)
  }

  lemma WellFormedRanks(fs: seq<Field>)
    requires WellFormed(fs)
    ensures RankIncreasing(StartOf, fs) && Distinct(fs)
  {
    forall i, j | 0 <= i < j < |fs| ensures StartOf(fs[i]) < StartOf(fs[j]) && fs[i] != fs[j] {
      assert fs[i].start < fs[i].end <= fs[j].start;
    }
  }

  /** The entries that take part in sorting, in source order. */
  function Slots(fs: seq<Field>): (r: seq<Field>)
    ensures |r| <= |fs|
  {
    if fs == [] then []
    else if fs[0].kind == Sortable then [fs[0]] + Slots(fs[1..])
    else Slots(fs[1..])
  }

  /** The slots are exactly the sortable entries. */
  lemma {:induction false} SlotsMembers(fs: seq<Field>)
    ensures forall f :: f in Slots(fs) <==> f in fs && f.kind == Sortable
  {
    if fs != [] {
      SlotsMembers(fs[1..]);
      assert fs == [fs[0]] + fs[1..];
    }
  }

  /** The entries that never move, in source order. */
  function Others(fs: seq<Field>): seq<Field> {
    if fs == [] then []
    else if fs[0].kind == Sortable then Others(fs[1..])
    else [fs[0]] + Others(fs[1..])
  }

  lemma {:induction false} SplitMultiset(fs: seq<Field>)
    ensures multiset(fs) == multiset(Slots(fs)) + multiset(Others(fs))
  {
    if fs != [] {
      SplitMultiset(fs[1..]);
      assert fs == [fs[0]] + fs[1..];
    }
  }

  /** The sortable entries keep the source order of the whole list. */
  lemma {:induction false} SlotsRanked(fs: seq<Field>)
    requires RankIncreasing(StartOf, fs)
    ensures RankIncreasing(StartOf, Slots(fs))
  {
    if fs != [] {
      RankTail(StartOf, fs);
      SlotsRanked(fs[1..]);
      SlotsMembers(fs[1..]);
      if fs[0].kind == Sortable {
        ConsRank(StartOf, fs[0], Slots(fs[1..]));
      }
    }
  }

  /** Writes `sorted` into the sortable slots of `fs`, in slot order, and
      leaves every other entry at its index. */
  function Fill(fs: seq<Field>, sorted: seq<Field>): (r: seq<Field>)
    requires |sorted| == |Slots(fs)|
    ensures |r| == |fs|
    ensures forall i | 0 <= i < |fs| && fs[i].kind != Sortable :: r[i] == fs[i]
  {
    if fs == [] then []
    else if fs[0].kind == Sortable then [sorted[0]] + Fill(fs[1..], sorted[1..])
    else [fs[0]] + Fill(fs[1..], sorted)
  }

  /** Filling with sortable entries keeps every slot a slot and every other
      entry where it was. */
  lemma FillKinds(fs: seq<Field>, sorted: seq<Field>)
    requires |sorted| == |Slots(fs)|
    requires forall f | f in sorted :: f.kind == Sortable
    ensures var r := Fill(fs, sorted);
            forall i | 0 <= i < |fs| :: r[i].kind == Sortable <==> fs[i].kind == Sortable
  {
    var r := Fill(fs, sorted);
    forall i | 0 <= i < |fs| ensures r[i].kind == Sortable <==> fs[i].kind == Sortable {
      if fs[i].kind == Sortable {
        FillSlotAt(fs, sorted, i);
      }
    }
  }

  /** A slot of the filled list holds an entry of `sorted`. */
  lemma {:induction false} FillSlotAt(fs: seq<Field>, sorted: seq<Field>, i: nat)
    requires |sorted| == |Slots(fs)|
    requires i < |fs| && fs[i].kind == Sortable
    ensures Fill(fs, sorted)[i] in sorted
  {
    if i > 0 {
      if fs[0].kind == Sortable {
        FillSlotAt(fs[1..], sorted[1..], i - 1);
        assert Fill(fs, sorted)[i] == Fill(fs[1..], sorted[1..])[i - 1];
      } else {
        FillSlotAt(fs[1..], sorted, i - 1);
        assert Fill(fs, sorted)[i] == Fill(fs[1..], sorted)[i - 1];
      }
    }
  }

  /** Filling with sortable entries puts `sorted` in the slots, in order. */
  lemma {:induction false} FillSlots(fs: seq<Field>, sorted: seq<Field>)
    requires |sorted| == |Slots(fs)|
    requires forall f | f in sorted :: f.kind == Sortable
    ensures Slots(Fill(fs, sorted)) == sorted
  {
    if fs != [] {
      if fs[0].kind == Sortable {
        var tail := Fill(fs[1..], sorted[1..]);
        assert forall f | f in sorted[1..] :: f in sorted;
        FillSlots(fs[1..], sorted[1..]);
        assert Fill(fs, sorted) == [sorted[0]] + tail;
        assert sorted[0] in sorted;
        assert Slots([sorted[0]] + tail) == [sorted[0]] + Slots(tail) by {
          assert ([sorted[0]] + tail)[1..] == tail;
        }
        assert sorted == [sorted[0]] + sorted[1..];
      } else {
        var tail := Fill(fs[1..], sorted);
        FillSlots(fs[1..], sorted);
        assert Fill(fs, sorted) == [fs[0]] + tail;
        assert Slots([fs[0]] + tail) == Slots(tail) by {
          assert ([fs[0]] + tail)[1..] == tail;
        }
      }
    }
  }

  /** Filling with sortable entries leaves the other entries, in order. */
  lemma {:induction false} FillOthers(fs: seq<Field>, sorted: seq<Field>)
    requires |sorted| == |Slots(fs)|
    requires forall f | f in sorted :: f.kind == Sortable
    ensures Others(Fill(fs, sorted)) == Others(fs)
  {
    if fs != [] {
      if fs[0].kind == Sortable {
        var tail := Fill(fs[1..], sorted[1..]);
        assert forall f | f in sorted[1..] :: f in sorted;
        FillOthers(fs[1..], sorted[1..]);
        assert Fill(fs, sorted) == [sorted[0]] + tail;
        assert sorted[0] in sorted;
        assert Others([sorted[0]] + tail) == Others(tail) by {
          assert ([sorted[0]] + tail)[1..] == tail;
        }
      } else {
        var tail := Fill(fs[1..], sorted);
        FillOthers(fs[1..], sorted);
        assert Fill(fs, sorted) == [fs[0]] + tail;
        assert Others([fs[0]] + tail) == [fs[0]] + Others(tail) by {
          assert ([fs[0]] + tail)[1..] == tail;
        }
      }
    }
  }

  /** In a list of sortable entries every entry is a slot... */
  lemma {:induction false} SlotsAllSortable(fs: seq<Field>)
    requires forall i | 0 <= i < |fs| :: fs[i].kind == Sortable
    ensures Slots(fs) == fs
  {
    if fs != [] {
      SlotsAllSortable(fs[1..]);
      assert fs == [fs[0]] + fs[1..];
    }
  }

  /** ...so filling it writes the new entries over all of it. */
  lemma {:induction false} FillAllSortable(fs: seq<Field>, sorted: seq<Field>)
    requires forall i | 0 <= i < |fs| :: fs[i].kind == Sortable
    requires |sorted| == |fs|
    ensures |sorted| == |Slots(fs)| && Fill(fs, sorted) == sorted
  {
    SlotsAllSortable(fs);
    if fs != [] {
      FillAllSortable(fs[1..], sorted[1..]);
      assert sorted == [sorted[0]] + sorted[1..];
    }
  }

  /** Filling the slots with a permutation of the sortable entries permutes the
      whole list. */
  lemma FillPermutes(fs: seq<Field>, sorted: seq<Field>)
    requires multiset(sorted) == multiset(Slots(fs))
    ensures |sorted| == |Slots(fs)|
    ensures multiset(Fill(fs, sorted)) == multiset(fs)
  {
    assert |sorted| == |multiset(sorted)| == |Slots(fs)|;
    SlotsMembers(fs);
    forall f | f in sorted ensures f.kind == Sortable {
      InMultiset(f, sorted);
      InMultiset(f, Slots(fs));
    }
    FillSlots(fs, sorted);
    FillOthers(fs, sorted);
    SplitMultiset(fs);
    SplitMultiset(Fill(fs, sorted));
  }

  /** Filling the slots with the sortable entries in their own order changes
      nothing. */
  lemma {:induction false} FillWithOwnSlots(fs: seq<Field>)
    ensures Fill(fs, Slots(fs)) == fs
  {
    if fs != [] {
      FillWithOwnSlots(fs[1..]);
      assert fs == [fs[0]] + fs[1..];
    }
  }

  /** The facts a sort of the sortable entries needs: the comparator is a
      total preorder on them, and their starts increase, so they are distinct. */
  lemma SlotFacts(cmp: (Field, Field) -> int, fs: seq<Field>)
    requires TotalPreorder(cmp) && WellFormed(fs)
    ensures TotalPreorderOn(cmp, Slots(fs))
    ensures RankIncreasing(StartOf, Slots(fs)) && Distinct(Slots(fs))
  {
    TotalPreorderOnEvery(cmp, Slots(fs));
    WellFormedRanks(fs);
    SlotsRanked(fs);
    RankDistinct(StartOf, Slots(fs));
  }

  /** Sorting the sortable entries back into their slots gives a permutation
      of the list in which every other entry keeps its index, every slot stays
      a slot, and the slots hold the sorted entries, in order. */
  lemma ArrangementShape(cmp: (Field, Field) -> int, fs: seq<Field>)
    requires TotalPreorder(cmp) && WellFormed(fs)
    ensures var r := Fill(fs, Sort(Slots(fs), cmp));
            && |r| == |fs|
            && multiset(r) == multiset(fs)
            && (forall i | 0 <= i < |fs| && fs[i].kind != Sortable :: r[i] == fs[i])
            && (forall i | 0 <= i < |fs| :: r[i].kind == Sortable <==> fs[i].kind == Sortable)
            && Slots(r) == Sort(Slots(fs), cmp)
            && SortedBy(cmp, Slots(r))
  {
    var sorted := Sort(Slots(fs), cmp);
    SlotFacts(cmp, fs);
    SortSorted(Slots(fs), cmp);
    FillPermutes(fs, sorted);
    SlotsMembers(fs);
    forall f | f in sorted ensures f.kind == Sortable {
      InMultiset(f, sorted);
      InMultiset(f, Slots(fs));
    }
    FillKinds(fs, sorted);
    FillSlots(fs, sorted);
  }

  /** The edit that writes `after[i]`'s text over `before[i]`'s range. */
  function EditAt(before: seq<Field>, after: seq<Field>, i: nat): Edit
    requires i < |before| == |after|
  {
    Replace(before[i].start, before[i].end, after[i].text)
  }

  /** One replacement per index whose entry changed, in index order. */
  function Fixes(before: seq<Field>, after: seq<Field>): (r: seq<Edit>)
    requires |before| == |after|
    ensures |r| <= |before|
    decreases |before|
  {
    if before == [] then []
    else
      var n := |before| - 1;
      Fixes(before[..n], after[..n]) + (if before[n] != after[n] then [EditAt(before, after, n)] else [])
  }

  lemma {:induction false} FixesEmptyIffSame(before: seq<Field>, after: seq<Field>)
    requires |before| == |after|
    ensures Fixes(before, after) == [] <==> before == after
    decreases |before|
  {
    if before != [] {
      var n := |before| - 1;
      FixesEmptyIffSame(before[..n], after[..n]);
      assert before == before[..n] + [before[n]] && after == after[..n] + [after[n]];
    }
  }

  lemma {:induction false} FixesSound(before: seq<Field>, after: seq<Field>)
    requires |before| == |after|
    ensures forall e | e in Fixes(before, after) ::
              exists i | 0 <= i < |before| :: before[i] != after[i] && e == EditAt(before, after, i)
    decreases |before|
  {
    if before != [] {
      var n := |before| - 1;
      var b, a := before[..n], after[..n];
      FixesSound(b, a);
      forall e | e in Fixes(b, a)
        ensures exists i | 0 <= i < |before| :: before[i] != after[i] && e == EditAt(before, after, i)
      {
        var i :| 0 <= i < n && b[i] != a[i] && e == EditAt(b, a, i);
        assert EditAt(b, a, i) == EditAt(before, after, i);
      }
    }
  }

  lemma {:induction false} FixesComplete(before: seq<Field>, after: seq<Field>)
    requires |before| == |after|
    ensures forall i | 0 <= i < |before| && before[i] != after[i] :: EditAt(before, after, i) in Fixes(before, after)
    decreases |before|
  {
    if before != [] {
      var n := |before| - 1;
      var b, a := before[..n], after[..n];
      FixesComplete(b, a);
      forall i | 0 <= i < n && before[i] != after[i] ensures EditAt(before, after, i) in Fixes(before, after) {
        assert b[i] != a[i] && EditAt(b, a, i) == EditAt(before, after, i);
      }
    }
  }

  /** The indices whose entry changed. */
  function Changed(before: seq<Field>, after: seq<Field>): set<nat>
    requires |before| == |after|
  {
    set i: nat | i < |before| && before[i] != after[i]
  }

  /** There are as many edits as changed indices. */
  lemma {:induction false} FixesCount(before: seq<Field>, after: seq<Field>)
    requires |before| == |after|
    ensures |Fixes(before, after)| == |Changed(before, after)|
    decreases |before|
  {
    if before != [] {
      var n := |before| - 1;
      var b, a := before[..n], after[..n];
      FixesCount(b, a);
      var c := Changed(b, a);
      assert forall i: nat | i < n :: (b[i] != a[i] <==> before[i] != after[i]);
      if before[n] != after[n] {
        assert Changed(before, after) == c + {n};
        assert n !in c;
      } else {
        assert Changed(before, after) == c;
      }
    }
  }

  /** Edits are emitted exactly at the indices whose entry changed, and none
      at all when nothing changed. */
  lemma FixesExactlyAtChanges(before: seq<Field>, after: seq<Field>)
    requires |before| == |after|
    ensures Fixes(before, after) == [] <==> before == after
    ensures forall e | e in Fixes(before, after) ::
              exists i | 0 <= i < |before| :: before[i] != after[i] && e == EditAt(before, after, i)
    ensures forall i | 0 <= i < |before| && before[i] != after[i] :: EditAt(before, after, i) in Fixes(before, after)
    ensures |Fixes(before, after)| == |Changed(before, after)|
  {
    FixesEmptyIffSame(before, after);
    FixesSound(before, after);
    FixesComplete(before, after);
    FixesCount(before, after);
  }

  lemma FixesStep(before: seq<Field>, after: seq<Field>, i: nat)
    requires i < |before| == |after|
    ensures Fixes(before[..i + 1], after[..i + 1]) ==
            Fixes(before[..i], after[..i]) +
            (if before[i] != after[i] then [Replace(before[i].start, before[i].end, after[i].text)] else [])
  {
    var b, a := before[..i + 1], after[..i + 1];
    assert b[..i] == before[..i] && a[..i] == after[..i];
    assert b[i] == before[i] && a[i] == after[i];
  }

  /** The source's loop over all indices, pushing a replacement wherever the
      new arrangement holds a different node. */
  method BuildFixes(before: seq<Field>, after: seq<Field>) returns (fixes: seq<Edit>)
    requires |before| == |after|
    ensures fixes == Fixes(before, after)
  {
    fixes := [];
    var i := 0;
    while i < |before|
      invariant 0 <= i <= |before|
      invariant fixes == Fixes(before[..i], after[..i])
    {
      FixesStep(before, after, i);
      if before[i] != after[i] {
        fixes := fixes + [Replace(before[i].start, before[i].end, after[i].text)];
      }
      i := i + 1;
    }
    assert before[..i] == before && after[..i] == after;
  }

  /** `texts.join(sep)`. */
  function Join(texts: seq<string>, sep: string): string {
    if |texts| == 0 then ""
    else if |texts| == 1 then texts[0]
    else texts[0] + sep + Join(texts[1..], sep)
  }

  function TotalLength(texts: seq<string>): nat {
    if texts == [] then 0 else |texts[0]| + TotalLength(texts[1..])
  }

  /** Joining n texts adds exactly n - 1 separators. */
  lemma {:induction false} JoinLength(texts: seq<string>, sep: string)
    requires |texts| >= 1
    ensures |Join(texts, sep)| == TotalLength(texts) + (|texts| - 1) * |sep|
  {
    if |texts| > 1 {
      JoinLength(texts[1..], sep);
      assert (|texts| - 1) * |sep| == |sep| + (|texts| - 2) * |sep|;
    }
  }

  /** Where the k-th text starts in the joined string. */
  function Offset(texts: seq<string>, sep: string, k: nat): nat
    requires k < |texts|
  {
    if k == 0 then 0 else |texts[0]| + |sep| + Offset(texts[1..], sep, k - 1)
  }

  lemma {:induction false} OffsetStep(texts: seq<string>, sep: string, k: nat)
    requires k + 1 < |texts|
    ensures Offset(texts, sep, k + 1) == Offset(texts, sep, k) + |texts[k]| + |sep|
  {
    if k > 0 {
      OffsetStep(texts[1..], sep, k - 1);
    }
  }

  lemma SliceOfSuffix(x: string, y: string, p: nat, q: nat)
    requires p <= q <= |y|
    ensures (x + y)[|x| + p..|x| + q] == y[p..q]
  {
  }

  lemma SliceOfPrefix(x: string, y: string, p: nat, q: nat)
    requires p <= q <= |x|
    ensures (x + y)[p..q] == x[p..q]
  {
  }

  /** The joined string starts with the first text. */
  lemma JoinFirst(texts: seq<string>, sep: string)
    requires |texts| > 0
    ensures |texts[0]| <= |Join(texts, sep)|
    ensures Join(texts, sep)[..|texts[0]|] == texts[0]
  {
    if |texts| > 1 {
      var x := texts[0] + sep;
      var rest := Join(texts[1..], sep);
      assert Join(texts, sep) == x + rest;
      SliceOfPrefix(x, rest, 0, |texts[0]|);
      SliceOfPrefix(texts[0], sep, 0, |texts[0]|);
    }
  }

  /** Past the first text and separator, the joined string is the join of
      the rest. */
  lemma JoinRest(texts: seq<string>, sep: string)
    requires |texts| > 1
    ensures Join(texts, sep) == (texts[0] + sep) + Join(texts[1..], sep)
  {
  }

  /** The joined string holds every text at its offset. */
  lemma {:induction false} JoinPieces(texts: seq<string>, sep: string, k: nat)
    requires k < |texts|
    ensures Offset(texts, sep, k) + |texts[k]| <= |Join(texts, sep)|
    ensures Join(texts, sep)[Offset(texts, sep, k)..Offset(texts, sep, k) + |texts[k]|] == texts[k]
  {
    if k == 0 {
      JoinFirst(texts, sep);
    } else {
      var x, rest := texts[0] + sep, Join(texts[1..], sep);
      JoinRest(texts, sep);
      JoinPieces(texts[1..], sep, k - 1);
      var o := Offset(texts[1..], sep, k - 1);
      assert Offset(texts, sep, k) == |x| + o;
      assert texts[1..][k - 1] == texts[k];
      SliceOfSuffix(x, rest, o, o + |texts[k]|);
    }
  }

  /** In `text`, the k-th entry's text sits at the k-th offset of the texts
      joined by `sep`. */
  predicate TextsAtOffsets(text: string, fs: seq<Field>, sep: string) {
    forall k | 0 <= k < |fs| ::
      var at := Offset(Texts(fs), sep, k);
      at + |fs[k].text| <= |text| && text[at..at + |fs[k].text|] == fs[k].text
  }

  /** In the joined texts of a list of entries, the k-th entry's text sits at
      the k-th offset. */
  lemma JoinHoldsTexts(fs: seq<Field>, sep: string)
    ensures TextsAtOffsets(Join(Texts(fs), sep), fs, sep)
  {
    TextsAt(fs);
    forall k | 0 <= k < |fs|
      ensures var at := Offset(Texts(fs), sep, k);
              at + |fs[k].text| <= |Join(Texts(fs), sep)| &&
              Join(Texts(fs), sep)[at..at + |fs[k].text|] == fs[k].text
    {
      JoinPieces(Texts(fs), sep, k);
    }
  }

  /** The first text is followed by the separator. */
  lemma JoinFirstSeparator(texts: seq<string>, sep: string)
    requires 1 < |texts|
    ensures |texts[0]| + |sep| <= |Join(texts, sep)|
    ensures Join(texts, sep)[|texts[0]|..|texts[0]| + |sep|] == sep
  {
    var x, rest := texts[0] + sep, Join(texts[1..], sep);
    JoinRest(texts, sep);
    SliceOfPrefix(x, rest, |texts[0]|, |x|);
    SliceOfSuffix(texts[0], sep, 0, |sep|);
  }

  /** Each text but the last is followed by the separator. */
  lemma {:induction false} JoinSeparators(texts: seq<string>, sep: string, k: nat)
    requires k + 1 < |texts|
    ensures Offset(texts, sep, k) + |texts[k]| + |sep| <= |Join(texts, sep)|
    ensures Join(texts, sep)[Offset(texts, sep, k) + |texts[k]|..Offset(texts, sep, k) + |texts[k]| + |sep|] == sep
  {
    if k == 0 {
      JoinFirstSeparator(texts, sep);
    } else {
      var x, rest := texts[0] + sep, Join(texts[1..], sep);
      var j := Join(texts, sep);
      JoinRest(texts, sep);
      JoinSeparators(texts[1..], sep, k - 1);
      var o := Offset(texts[1..], sep, k - 1);
      var l := |texts[k]|;
      assert texts[1..][k - 1] == texts[k];
      assert o + l + |sep| <= |rest|;
      assert rest[o + l..o + l + |sep|] == sep;
      assert Offset(texts, sep, k) == |x| + o;
      SliceOfSuffix(x, rest, o + l, o + l + |sep|);
      assert j[|x| + o + l..|x| + o + l + |sep|] == sep;
    }
  }

  /** The source texts of a list of entries. */
  function Texts(fs: seq<Field>): (r: seq<string>)
    ensures |r| == |fs|
  {
    seq(|fs|, i requires 0 <= i < |fs| => fs[i].text)
  }

  lemma TextsAt(fs: seq<Field>)
    ensures forall i | 0 <= i < |fs| :: Texts(fs)[i] == fs[i].text
  {
  }

  lemma TextsAppend(a: seq<Field>, b: seq<Field>)
    ensures Texts(a + b) == Texts(a) + Texts(b)
  {
    forall i | 0 <= i < |a + b| ensures Texts(a + b)[i] == (Texts(a) + Texts(b))[i] {
      if i < |a| {
        assert (a + b)[i] == a[i];
      } else {
        assert (a + b)[i] == b[i - |a|];
      }
    }
  }

  /** Dropping an entry drops its text. */
  lemma TextsRemove(b: seq<Field>, k: nat)
    requires k < |b|
    ensures Texts(b[..k] + b[k + 1..]) == Texts(b)[..k] + Texts(b)[k + 1..]
  {
    var c := b[..k] + b[k + 1..];
    forall i | 0 <= i < |c| ensures Texts(c)[i] == (Texts(b)[..k] + Texts(b)[k + 1..])[i] {
      if i < k {
        assert c[i] == b[i];
      } else {
        assert c[i] == b[i + 1];
      }
    }
  }

  lemma RemoveText(b: seq<Field>, k: nat)
    requires k < |b|
    ensures multiset(Texts(b)) == multiset{b[k].text} + multiset(Texts(b[..k] + b[k + 1..]))
  {
    var t := Texts(b);
    TextsRemove(b, k);
    RemoveEntry(t, k);
    assert t[k] == b[k].text;
    assert t[k] in multiset(t);
  }

  lemma RemoveEntry<T>(b: seq<T>, k: nat)
    requires k < |b|
    ensures multiset(b[..k] + b[k + 1..]) == multiset(b) - multiset{b[k]}
  {
    assert b == b[..k] + [b[k]] + b[k + 1..];
  }

  /** The texts of a list with `x` in front. */
  lemma TextsCons(x: Field, t: seq<Field>)
    ensures multiset(Texts([x] + t)) == multiset{x.text} + multiset(Texts(t))
  {
    TextsAppend([x], t);
    assert Texts([x]) == [x.text];
  }

  lemma TailMultiset<T>(a: seq<T>)
    requires a != []
    ensures multiset(a[1..]) == multiset(a) - multiset{a[0]}
  {
    assert a == [a[0]] + a[1..];
  }

  /** Permuting the entries permutes their texts: each text survives exactly
      as often as its entry. */
  lemma {:induction false} TextsPermute(a: seq<Field>, b: seq<Field>)
    requires multiset(a) == multiset(b)
    ensures multiset(Texts(a)) == multiset(Texts(b))
    decreases |a|
  {
    if a == [] {
      assert |b| == |multiset(b)| == 0;
    } else {
      var x, tail := a[0], a[1..];
      InMultiset(x, b);
      var k :| 0 <= k < |b| && b[k] == x;
      var rest := b[..k] + b[k + 1..];
      RemoveEntry(b, k);
      TailMultiset(a);
      assert multiset(tail) == multiset(rest);
      TextsPermute(tail, rest);
      RemoveText(b, k);
      assert a == [x] + tail;
      TextsCons(x, tail);
    }
  }
}
