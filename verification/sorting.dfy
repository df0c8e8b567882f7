/**
 * A stable sort parameterised by a three-way comparator, and the two ways the
 * rules decide that a list is already in order: comparing adjacent pairs, or
 * sorting and comparing position by position.
 *
 * The rules hand their comparator to `Array.prototype.sort`, which is stable.
 * `Sort` below is one stable sort (insertion sort). `StableSortUnique` shows
 * that when the comparator is a total preorder on the input, every sorted and
 * stable permutation of the input equals `Sort`'s result, so the model does not
 * depend on which stable algorithm the engine runs.
 */
module Sorting {

  /** The sign of a three-way comparison result. */
  function Sign(x: int): int {
    if x < 0 then -1 else if x > 0 then 1 else 0
  }

  /** `cmp` is a total preorder on all values: swapping the arguments flips the
      sign, and "compares <= 0" is transitive. */
  ghost predicate TotalPreorder<T(!new)>(cmp: (T, T) -> int) {
    && (forall a, b :: Sign(cmp(a, b)) == -Sign(cmp(b, a)))
    && (forall a, b, c :: cmp(a, b) <= 0 && cmp(b, c) <= 0 ==> cmp(a, c) <= 0)
  }

  /** Swapping two distinct values of `xs` flips the sign of `cmp`. Only
      distinct values are constrained, because a sort never compares an entry
      with itself. */
  ghost predicate AntisymmetricOn<T>(cmp: (T, T) -> int, xs: seq<T>) {
    forall a, b | a in xs && b in xs && a != b :: Sign(cmp(a, b)) == -Sign(cmp(b, a))
  }

  ghost predicate TransitiveOn<T>(cmp: (T, T) -> int, xs: seq<T>) {
    forall a, b, c | a in xs && b in xs && c in xs && cmp(a, b) <= 0 && cmp(b, c) <= 0 ::
      cmp(a, c) <= 0
  }

  /** `cmp` is a total preorder on the values that occur in `xs`. */
  ghost predicate TotalPreorderOn<T>(cmp: (T, T) -> int, xs: seq<T>) {
    AntisymmetricOn(cmp, xs) && TransitiveOn(cmp, xs)
  }

  lemma TotalPreorderOnEvery<T(!new)>(cmp: (T, T) -> int, xs: seq<T>)
    requires TotalPreorder(cmp)
    ensures TotalPreorderOn(cmp, xs)
  {
  }

  predicate SortedBy<T>(cmp: (T, T) -> int, s: seq<T>) {
    forall i, j | 0 <= i < j < |s| :: cmp(s[i], s[j]) <= 0
  }

  /** No adjacent pair compares greater than zero. */
  predicate AdjacentSorted<T>(cmp: (T, T) -> int, s: seq<T>) {
    forall i | 0 < i < |s| :: cmp(s[i - 1], s[i]) <= 0
  }

  predicate Distinct<T(==)>(s: seq<T>) {
    forall i, j | 0 <= i < j < |s| :: s[i] != s[j]
  }

  /** `rank` (a source position) strictly increases along `s`. */
  predicate RankIncreasing<T>(rank: T -> int, s: seq<T>) {
    forall i, j | 0 <= i < j < |s| :: rank(s[i]) < rank(s[j])
  }

  /** Every pair that `cmp` does not strictly order keeps its source order. */
  predicate StableBy<T>(cmp: (T, T) -> int, rank: T -> int, r: seq<T>) {
    forall i, j | 0 <= i < j < |r| :: cmp(r[i], r[j]) >= 0 ==> rank(r[i]) < rank(r[j])
  }

  lemma RankTail<T>(rank: T -> int, s: seq<T>)
    requires s != [] && RankIncreasing(rank, s)
    ensures RankIncreasing(rank, s[1..])
    ensures forall z | z in s[1..] :: rank(s[0]) < rank(z)
  {
    forall i, j | 0 <= i < j < |s[1..]| ensures rank(s[1..][i]) < rank(s[1..][j]) {
      assert s[1..][i] == s[i + 1] && s[1..][j] == s[j + 1];
    }
    forall z | z in s[1..] ensures rank(s[0]) < rank(z) {
      var k :| 0 <= k < |s[1..]| && s[1..][k] == z;
      assert s[k + 1] == z;
    }
  }

  lemma ConsRank<T>(rank: T -> int, h: T, t: seq<T>)
    requires RankIncreasing(rank, t) && forall z | z in t :: rank(h) < rank(z)
    ensures RankIncreasing(rank, [h] + t)
  {
    var r := [h] + t;
    forall i, j | 0 <= i < j < |r| ensures rank(r[i]) < rank(r[j]) {
      if i == 0 {
        assert r[j] == t[j - 1] && r[j] in t;
      } else {
        assert r[i] == t[i - 1] && r[j] == t[j - 1];
      }
    }
  }

  lemma RankDistinct<T>(rank: T -> int, s: seq<T>)
    requires RankIncreasing(rank, s)
    ensures Distinct(s)
  {
    forall i, j | 0 <= i < j < |s| ensures s[i] != s[j] {
      assert rank(s[i]) < rank(s[j]);
    }
  }

  /** In a list without repeats, an entry that occurs occurs once. */
  lemma {:induction false} DistinctOnce<T>(s: seq<T>, m: T)
    requires Distinct(s) && m in s
    ensures multiset(s)[m] == 1
  {
    assert s == [s[0]] + s[1..];
    assert Distinct(s[1..]) by {
      forall i, j | 0 <= i < j < |s[1..]| ensures s[1..][i] != s[1..][j] {
        assert s[1..][i] == s[i + 1] && s[1..][j] == s[j + 1];
      }
    }
    if s[0] == m {
      forall k | 0 <= k < |s[1..]| ensures s[1..][k] != m {
        assert s[1..][k] == s[k + 1];
      }
      InMultiset(m, s[1..]);
    } else {
      DistinctOnce(s[1..], m);
    }
  }

  /** Inserts `x` in front of the first entry it does not compare greater than. */
  function Insert<T>(x: T, s: seq<T>, cmp: (T, T) -> int): (r: seq<T>)
    ensures multiset(r) == multiset(s) + multiset{x}
    ensures |r| == |s| + 1
  {
    if s == [] then [x]
    else if cmp(x, s[0]) <= 0 then [x] + s
    else
      assert s == [s[0]] + s[1..];
      [s[0]] + Insert(x, s[1..], cmp)
  }

  /** Stable insertion sort. */
  function Sort<T>(s: seq<T>, cmp: (T, T) -> int): (r: seq<T>)
    ensures multiset(r) == multiset(s)
    ensures |r| == |s|
  {
    if s == [] then []
    else
      assert s == [s[0]] + s[1..];
      Insert(s[0], Sort(s[1..], cmp), cmp)
  }

  lemma InMultiset<T>(x: T, s: seq<T>)
    ensures x in s <==> x in multiset(s)
  {
  }

  /** Every entry of `Insert(x, s)` is `x` or an entry of `s`. */
  lemma InsertMembers<T>(x: T, s: seq<T>, cmp: (T, T) -> int)
    ensures forall z | z in Insert(x, s, cmp) :: z == x || z in s
  {
    forall z | z in Insert(x, s, cmp) ensures z == x || z in s {
      InMultiset(z, Insert(x, s, cmp));
      InMultiset(z, s);
    }
  }

  lemma TailMembers<T>(s: seq<T>)
    requires s != []
    ensures forall z | z in s :: z == s[0] || z in s[1..]
    ensures forall z | z in s[1..] :: z in s
  {
    assert s == [s[0]] + s[1..];
  }

  lemma SortedHeadLeast<T>(s: seq<T>, cmp: (T, T) -> int)
    requires s != [] && SortedBy(cmp, s)
    ensures forall z | z in s[1..] :: cmp(s[0], z) <= 0
  {
    forall z | z in s[1..] ensures cmp(s[0], z) <= 0 {
      var k :| 0 <= k < |s[1..]| && s[1..][k] == z;
      assert s[k + 1] == z;
    }
  }

  lemma ConsSorted<T>(h: T, t: seq<T>, cmp: (T, T) -> int)
    requires SortedBy(cmp, t) && forall z | z in t :: cmp(h, z) <= 0
    ensures SortedBy(cmp, [h] + t)
  {
    var r := [h] + t;
    forall i, j | 0 <= i < j < |r| ensures cmp(r[i], r[j]) <= 0 {
      if i == 0 {
        assert r[j] == t[j - 1] && r[j] in t;
      } else {
        assert r[i] == t[i - 1] && r[j] == t[j - 1];
      }
    }
  }

  lemma StableHead<T>(s: seq<T>, cmp: (T, T) -> int, rank: T -> int)
    requires s != [] && StableBy(cmp, rank, s)
    ensures forall z | z in s[1..] :: cmp(s[0], z) >= 0 ==> rank(s[0]) < rank(z)
  {
    forall z | z in s[1..] ensures cmp(s[0], z) >= 0 ==> rank(s[0]) < rank(z) {
      var k :| 0 <= k < |s[1..]| && s[1..][k] == z;
      assert s[k + 1] == z;
    }
  }

  lemma ConsStable<T>(h: T, t: seq<T>, cmp: (T, T) -> int, rank: T -> int)
    requires StableBy(cmp, rank, t)
    requires forall z | z in t :: cmp(h, z) >= 0 ==> rank(h) < rank(z)
    ensures StableBy(cmp, rank, [h] + t)
  {
    var r := [h] + t;
    forall i, j | 0 <= i < j < |r| && cmp(r[i], r[j]) >= 0 ensures rank(r[i]) < rank(r[j]) {
      if i == 0 {
        assert r[j] == t[j - 1] && r[j] in t;
      } else {
        assert r[i] == t[i - 1] && r[j] == t[j - 1];
      }
    }
  }

  lemma {:induction false} InsertSorted<T>(x: T, s: seq<T>, cmp: (T, T) -> int, xs: seq<T>)
    requires TotalPreorderOn(cmp, xs)
    requires x in xs && x !in s && forall y | y in s :: y in xs
    requires SortedBy(cmp, s)
    ensures SortedBy(cmp, Insert(x, s, cmp))
  {
    if s == [] {
    } else if cmp(x, s[0]) <= 0 {
      TailMembers(s);
      SortedHeadLeast(s, cmp);
      forall z | z in s ensures cmp(x, z) <= 0 {
        if z != s[0] {
          assert s[0] in xs && z in xs;
        }
      }
      ConsSorted(x, s, cmp);
    } else {
      TailMembers(s);
      InsertSorted(x, s[1..], cmp, xs);
      var t := Insert(x, s[1..], cmp);
      InsertMembers(x, s[1..], cmp);
      SortedHeadLeast(s, cmp);
      assert s[0] in xs && s[0] != x;
      assert Sign(cmp(s[0], x)) == -Sign(cmp(x, s[0]));
      ConsSorted(s[0], t, cmp);
    }
  }

  lemma {:induction false} SortSorted<T>(s: seq<T>, cmp: (T, T) -> int)
    requires TotalPreorderOn(cmp, s) && Distinct(s)
    ensures SortedBy(cmp, Sort(s, cmp))
  {
    if s != [] {
      TailMembers(s);
      var t := Sort(s[1..], cmp);
      assert TotalPreorderOn(cmp, s[1..]);
      SortSorted(s[1..], cmp);
      forall y | y in t ensures y in s[1..] {
        InMultiset(y, t);
        InMultiset(y, s[1..]);
      }
      forall k | 0 <= k < |s[1..]| ensures s[1..][k] != s[0] {
        assert s[1..][k] == s[k + 1];
      }
      InsertSorted(s[0], t, cmp, s);
    }
  }

  lemma {:induction false} InsertStable<T>(x: T, s: seq<T>, cmp: (T, T) -> int, rank: T -> int, xs: seq<T>)
    requires TotalPreorderOn(cmp, xs)
    requires x in xs && forall y | y in s :: y in xs && rank(x) < rank(y)
    requires StableBy(cmp, rank, s)
    ensures StableBy(cmp, rank, Insert(x, s, cmp))
  {
    if s == [] {
    } else if cmp(x, s[0]) <= 0 {
      ConsStable(x, s, cmp, rank);
    } else {
      TailMembers(s);
      InsertStable(x, s[1..], cmp, rank, xs);
      var t := Insert(x, s[1..], cmp);
      InsertMembers(x, s[1..], cmp);
      StableHead(s, cmp, rank);
      assert s[0] in xs && s[0] != x;
      assert Sign(cmp(s[0], x)) == -Sign(cmp(x, s[0]));
      ConsStable(s[0], t, cmp, rank);
    }
  }

  lemma {:induction false} SortStable<T>(s: seq<T>, cmp: (T, T) -> int, rank: T -> int)
    requires TotalPreorderOn(cmp, s) && RankIncreasing(rank, s)
    ensures StableBy(cmp, rank, Sort(s, cmp))
  {
    if s != [] {
      TailMembers(s);
      var t := Sort(s[1..], cmp);
      assert TotalPreorderOn(cmp, s[1..]);
      SortStable(s[1..], cmp, rank);
      forall y | y in t ensures y in s && rank(s[0]) < rank(y) {
        InMultiset(y, t);
        InMultiset(y, s[1..]);
        var k :| 0 <= k < |s[1..]| && s[1..][k] == y;
        assert s[k + 1] == y;
      }
      InsertStable(s[0], t, cmp, rank, s);
    }
  }

  /** A list that is already sorted is returned unchanged. */
  lemma {:induction false} SortedIsFixed<T>(s: seq<T>, cmp: (T, T) -> int)
    requires SortedBy(cmp, s)
    ensures Sort(s, cmp) == s
  {
    if s != [] {
      SortedIsFixed(s[1..], cmp);
      assert s == [s[0]] + s[1..];
    }
  }

  /** Along a chain whose adjacent pairs compare <= 0, every earlier entry
      compares <= 0 to every later one. */
  lemma {:induction false} AdjacentChain<T>(s: seq<T>, cmp: (T, T) -> int, i: nat, j: nat)
    requires TransitiveOn(cmp, s) && AdjacentSorted(cmp, s)
    requires i < j < |s|
    ensures cmp(s[i], s[j]) <= 0
    decreases j - i
  {
    if i + 1 < j {
      AdjacentChain(s, cmp, i, j - 1);
      assert s[i] in s && s[j - 1] in s && s[j] in s;
    }
  }

  lemma AdjacentToSorted<T>(s: seq<T>, cmp: (T, T) -> int)
    requires TotalPreorderOn(cmp, s) && AdjacentSorted(cmp, s)
    ensures SortedBy(cmp, s)
  {
    forall i, j | 0 <= i < j < |s| ensures cmp(s[i], s[j]) <= 0 {
      AdjacentChain(s, cmp, i, j);
    }
  }

  /** The two ways of detecting "out of order" agree: for a total preorder,
      the stable sort leaves a list unchanged exactly when no adjacent pair
      compares greater than zero. */
  lemma SortFixedIffAdjacentSorted<T>(s: seq<T>, cmp: (T, T) -> int)
    requires TotalPreorderOn(cmp, s) && Distinct(s)
    ensures Sort(s, cmp) == s <==> AdjacentSorted(cmp, s)
  {
    if AdjacentSorted(cmp, s) {
      AdjacentToSorted(s, cmp);
      SortedIsFixed(s, cmp);
    }
    if Sort(s, cmp) == s {
      SortSorted(s, cmp);
    }
  }

  /** Two sorted, stable arrangements of the same entries start with the same entry. */
  lemma SameHead<T>(r: seq<T>, t: seq<T>, cmp: (T, T) -> int, rank: T -> int, xs: seq<T>)
    requires AntisymmetricOn(cmp, xs)
    requires r != [] && forall y | y in r :: y in xs
    requires multiset(r) == multiset(t)
    requires SortedBy(cmp, r) && SortedBy(cmp, t)
    requires StableBy(cmp, rank, r) && StableBy(cmp, rank, t)
    ensures t != [] && r[0] == t[0]
  {
    InMultiset(r[0], r);
    InMultiset(r[0], t);
    InMultiset(t[0], t);
    InMultiset(t[0], r);
    TailMembers(r);
    TailMembers(t);
    SortedHeadLeast(r, cmp);
    SortedHeadLeast(t, cmp);
    StableHead(r, cmp, rank);
    StableHead(t, cmp, rank);
  }

  lemma SortedStableTail<T>(r: seq<T>, cmp: (T, T) -> int, rank: T -> int)
    requires r != [] && SortedBy(cmp, r) && StableBy(cmp, rank, r)
    ensures SortedBy(cmp, r[1..]) && StableBy(cmp, rank, r[1..])
  {
    forall i, j | 0 <= i < j < |r[1..]| ensures cmp(r[1..][i], r[1..][j]) <= 0 {
      assert r[1..][i] == r[i + 1] && r[1..][j] == r[j + 1];
    }
    forall i, j | 0 <= i < j < |r[1..]| && cmp(r[1..][i], r[1..][j]) >= 0
      ensures rank(r[1..][i]) < rank(r[1..][j])
    {
      assert r[1..][i] == r[i + 1] && r[1..][j] == r[j + 1];
    }
  }

  lemma SameTailMultiset<T>(r: seq<T>, t: seq<T>)
    requires r != [] && t != [] && r[0] == t[0] && multiset(r) == multiset(t)
    ensures multiset(r[1..]) == multiset(t[1..])
  {
    assert r == [r[0]] + r[1..];
    assert t == [t[0]] + t[1..];
    assert multiset(r[1..]) == multiset(r) - multiset{r[0]};
    assert multiset(t[1..]) == multiset(t) - multiset{t[0]};
  }

  lemma {:induction false} SortedStableEqual<T>(r: seq<T>, t: seq<T>, cmp: (T, T) -> int, rank: T -> int, xs: seq<T>)
    requires AntisymmetricOn(cmp, xs)
    requires forall y | y in r :: y in xs
    requires multiset(r) == multiset(t)
    requires SortedBy(cmp, r) && SortedBy(cmp, t)
    requires StableBy(cmp, rank, r) && StableBy(cmp, rank, t)
    ensures r == t
  {
    if r == [] {
      assert |t| == |multiset(t)| == 0;
    } else {
      SameHead(r, t, cmp, rank, xs);
      SameTailMultiset(r, t);
      SortedStableTail(r, cmp, rank);
      SortedStableTail(t, cmp, rank);
      TailMembers(r);
      SortedStableEqual(r[1..], t[1..], cmp, rank, xs);
      assert r == [r[0]] + r[1..];
      assert t == [t[0]] + t[1..];
    }
  }

  /** Any stable sort yields the same order: a sorted, stable permutation of
      the input is exactly `Sort`'s result. */
  lemma StableSortUnique<T>(s: seq<T>, r: seq<T>, cmp: (T, T) -> int, rank: T -> int)
    requires TotalPreorderOn(cmp, s) && RankIncreasing(rank, s)
    requires multiset(r) == multiset(s) && SortedBy(cmp, r) && StableBy(cmp, rank, r)
    ensures r == Sort(s, cmp)
  {
    assert Distinct(s);
    SortSorted(s, cmp);
    SortStable(s, cmp, rank);
    forall y | y in r ensures y in s {
      InMultiset(y, r);
      InMultiset(y, s);
    }
    SortedStableEqual(r, Sort(s, cmp), cmp, rank, s);
  }

  /** Along a chain whose adjacent pairs compare < 0, every earlier entry
      compares < 0 to every later one. */
  lemma {:induction false} StrictChain<T>(r: seq<T>, cmp: (T, T) -> int, xs: seq<T>, i: nat, j: nat)
    requires TotalPreorderOn(cmp, xs) && (forall y | y in r :: y in xs)
    requires forall k | 0 < k < |r| :: cmp(r[k - 1], r[k]) < 0
    requires i < j < |r|
    ensures cmp(r[i], r[j]) < 0
    decreases j - i
  {
    if i + 1 < j {
      StrictChain(r, cmp, xs, i, j - 1);
      var x, y, z := r[i], r[j - 1], r[j];
      assert x in xs && y in xs && z in xs;
    }
  }

  /** A permutation whose adjacent pairs all compare < 0 is the sort's result:
      a worked example only has to check n - 1 comparisons. */
  lemma StrictlyAscendingIsSort<T>(s: seq<T>, r: seq<T>, cmp: (T, T) -> int, rank: T -> int)
    requires TotalPreorderOn(cmp, s) && RankIncreasing(rank, s)
    requires multiset(r) == multiset(s)
    requires forall k | 0 < k < |r| :: cmp(r[k - 1], r[k]) < 0
    ensures r == Sort(s, cmp)
  {
    forall y | y in r ensures y in s {
      InMultiset(y, r);
      InMultiset(y, s);
    }
    forall i, j | 0 <= i < j < |r| ensures cmp(r[i], r[j]) < 0 {
      StrictChain(r, cmp, s, i, j);
    }
    StableSortUnique(s, r, cmp, rank);
  }

  /** `r` lists the entries of `s` at the pairwise distinct positions `p`. */
  predicate Reindexes<T(==)>(r: seq<T>, s: seq<T>, p: seq<nat>) {
    && |p| == |r| == |s|
    && (forall i | 0 <= i < |p| :: p[i] < |s| && r[i] == s[p[i]])
    && (forall i, j | 0 <= i < j < |p| :: p[i] != p[j])
  }

  /** The positions `p` once position `j` has been taken out of the sequence. */
  function CloseGap(p: seq<nat>, j: nat): (q: seq<nat>)
    ensures |q| == |p|
    ensures forall i | 0 <= i < |p| :: q[i] == if p[i] <= j then p[i] else p[i] - 1
  {
    seq(|p|, i requires 0 <= i < |p| => if p[i] <= j then p[i] else p[i] - 1)
  }

  /** Picking every position exactly once is a permutation. */
  lemma {:induction false} ReindexPermutes<T>(r: seq<T>, s: seq<T>, p: seq<nat>)
    requires Reindexes(r, s, p)
    ensures multiset(r) == multiset(s)
    decreases |s|
  {
    if |s| > 0 {
      var n := |s| - 1;
      var j := p[n];
      var s' := s[..j] + s[j + 1..];
      var r' := r[..n];
      var p' := CloseGap(p[..n], j);
      forall i | 0 <= i < n
        ensures p'[i] < |s'| && r'[i] == s'[p'[i]]
      {
        assert p[i] != j;
      }
      assert Reindexes(r', s', p');
      ReindexPermutes(r', s', p');
      assert r == r' + [r[n]];
      assert s == s[..j] + [s[j]] + s[j + 1..];
    }
  }

  /** The entries of `s` at the positions `p`, in the order of `p`. */
  function Pick<T>(s: seq<T>, p: seq<nat>): (r: seq<T>)
    requires forall i | 0 <= i < |p| :: p[i] < |s|
    ensures |r| == |p|
  {
    seq(|p|, i requires 0 <= i < |p| => s[p[i]])
  }

  /** The comparator puts the entry at position `p[k - 1]` strictly before
      the entry at position `p[k]`. */
  predicate StepAscends<T>(cmp: (T, T) -> int, s: seq<T>, p: seq<nat>, k: int) {
    0 < k < |p| && p[k - 1] < |s| && p[k] < |s| && cmp(s[p[k - 1]], s[p[k]]) < 0
  }

  /** The comparator ascends strictly along the positions `p` of `s`. */
  predicate AscendsAlong<T>(cmp: (T, T) -> int, s: seq<T>, p: seq<nat>) {
    forall k | 0 < k < |p| :: StepAscends(cmp, s, p, k)
  }

  /** `p` lists every position below `n` exactly once. */
  predicate Positions(p: seq<nat>, n: nat) {
    && |p| == n
    && (forall i | 0 <= i < |p| :: p[i] < n)
    && (forall i, j | 0 <= i < j < |p| :: p[i] != p[j])
  }

  /** Taking every position once, in an order along which the comparator
      ascends strictly, gives the sort's result. */
  lemma PickIsSort<T>(s: seq<T>, p: seq<nat>, cmp: (T, T) -> int, rank: T -> int)
    requires Positions(p, |s|)
    requires TotalPreorderOn(cmp, s) && RankIncreasing(rank, s)
    requires AscendsAlong(cmp, s, p)
    ensures Sort(s, cmp) == Pick(s, p)
  {
    var r := Pick(s, p);
    assert Reindexes(r, s, p);
    ReindexPermutes(r, s, p);
    forall k | 0 < k < |r|
      ensures cmp(r[k - 1], r[k]) < 0
    {
      assert StepAscends(cmp, s, p, k);
    }
    StrictlyAscendingIsSort(s, r, cmp, rank);
  }

  lemma {:induction false} InsertGreatestAtEnd<T>(x: T, s: seq<T>, cmp: (T, T) -> int)
    requires forall y | y in s :: cmp(x, y) > 0
    ensures Insert(x, s, cmp) == s + [x]
  {
    if s != [] {
      assert s[0] in s;
      assert forall y | y in s[1..] :: y in s;
      InsertGreatestAtEnd(x, s[1..], cmp);
      assert s == [s[0]] + s[1..];
    }
  }

  lemma {:induction false} InsertKeepsLast<T>(x: T, s: seq<T>, cmp: (T, T) -> int)
    requires s != [] && cmp(x, s[|s| - 1]) <= 0
    ensures Insert(x, s, cmp)[|s|] == s[|s| - 1]
  {
    if cmp(x, s[0]) > 0 {
      assert |s| > 1;
      assert s[1..][|s[1..]| - 1] == s[|s| - 1];
      InsertKeepsLast(x, s[1..], cmp);
    }
  }

  /** An entry that compares greater than every other entry, and that every
      other entry compares at most equal to, ends up last, whatever the
      comparator does on the remaining pairs. */
  lemma {:induction false} SortPutsGreatestLast<T>(s: seq<T>, cmp: (T, T) -> int, m: T)
    requires m in s && multiset(s)[m] == 1
    requires forall y | y in s && y != m :: cmp(m, y) > 0 && cmp(y, m) <= 0
    ensures Sort(s, cmp)[|s| - 1] == m
  {
    assert s == [s[0]] + s[1..];
    var t := Sort(s[1..], cmp);
    if s[0] == m {
      assert multiset(s)[m] == multiset(s[1..])[m] + 1;
      InMultiset(m, s[1..]);
      forall y | y in t ensures cmp(m, y) > 0 {
        InMultiset(y, t);
        InMultiset(y, s[1..]);
        assert y in s && y != m;
      }
      InsertGreatestAtEnd(m, t, cmp);
    } else {
      assert m in s[1..];
      assert multiset(s[1..])[m] == 1;
      forall y | y in s[1..] && y != m ensures cmp(m, y) > 0 && cmp(y, m) <= 0 {
        assert y in s;
      }
      SortPutsGreatestLast(s[1..], cmp, m);
      InsertKeepsLast(s[0], t, cmp);
    }
  }

  /** The adjacent-pair check of the interface rule, written as the source's
      loop that stops at the first out-of-order pair. */
  method CheckAdjacent<T>(s: seq<T>, cmp: (T, T) -> int) returns (isSorted: bool)
    ensures isSorted <==> AdjacentSorted(cmp, s)
  {
    isSorted := true;
    var i := 1;
    while i < |s|
      invariant 1 <= i
      invariant isSorted ==> forall k | 0 < k < i && k < |s| :: cmp(s[k - 1], s[k]) <= 0
      invariant !isSorted ==> !AdjacentSorted(cmp, s)
    {
      if cmp(s[i - 1], s[i]) > 0 {
        isSorted := false;
        break;
      }
      i := i + 1;
    }
  }

  /** The position-by-position identity check of the component and JSX rules:
      true as soon as some position holds a different entry. */
  method AnyMoved<T(==)>(original: seq<T>, sorted: seq<T>) returns (moved: bool)
    requires |original| == |sorted|
    ensures moved <==> original != sorted
  {
    moved := false;
    var i := 0;
    while i < |original|
      invariant 0 <= i <= |original|
      invariant !moved ==> original[..i] == sorted[..i]
      invariant moved ==> original != sorted
    {
      if original[i] != sorted[i] {
        moved := true;
        break;
      }
      assert original[..i + 1] == original[..i] + [original[i]];
      assert sorted[..i + 1] == sorted[..i] + [sorted[i]];
      i := i + 1;
    }
    if !moved {
      assert original == original[..i] && sorted == sorted[..i];
    }
  }
}
