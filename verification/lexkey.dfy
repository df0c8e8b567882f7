/**
 * Lexicographic comparison of bucket keys.
 *
 * Each rule's comparator is a chain of two-sided stage tests that falls
 * through to a name comparison. Such a chain is the lexicographic comparison
 * of a tuple of small integers (one per enabled stage) followed by the name
 * comparison as the last tie-break; the lemmas here show that this shape is a
 * total preorder whenever the tie-break is.
 */
module LexKey {
  import opened Sorting

  /** Compares `ka` and `kb` position by position; equal keys fall through to
      the sign of `tie`. */
  function LexCmp(ka: seq<int>, kb: seq<int>, tie: int): (r: int)
    requires |ka| == |kb|
    ensures -1 <= r <= 1
    ensures ka == kb ==> r == Sign(tie)
  {
    if ka == [] then Sign(tie)
    else if ka[0] < kb[0] then -1
    else if ka[0] > kb[0] then 1
    else LexCmp(ka[1..], kb[1..], tie)
  }

  /** One step of the comparison: the first key position decides unless it ties. */
  lemma LexCmpCons(x: int, ka: seq<int>, y: int, kb: seq<int>, tie: int)
    requires |ka| == |kb|
    ensures LexCmp([x] + ka, [y] + kb, tie) ==
            if x < y then -1 else if x > y then 1 else LexCmp(ka, kb, tie)
  {
    assert ([x] + ka)[1..] == ka && ([y] + kb)[1..] == kb;
  }

  /** A three-position key, unfolded. */
  lemma LexCmp3(ka: seq<int>, kb: seq<int>, tie: int)
    requires |ka| == |kb| == 3
    ensures LexCmp(ka, kb, tie) ==
            if ka[0] != kb[0] then (if ka[0] < kb[0] then -1 else 1)
            else if ka[1] != kb[1] then (if ka[1] < kb[1] then -1 else 1)
            else if ka[2] != kb[2] then (if ka[2] < kb[2] then -1 else 1)
            else Sign(tie)
  {
    LexCmpCons(ka[2], [], kb[2], [], tie);
    LexCmpCons(ka[1], ka[2..], kb[1], kb[2..], tie);
    LexCmpCons(ka[0], ka[1..], kb[0], kb[1..], tie);
    assert ka[2..] == [ka[2]] + [] && kb[2..] == [kb[2]] + [];
    assert ka[1..] == [ka[1]] + ka[2..] && kb[1..] == [kb[1]] + kb[2..];
    assert ka == [ka[0]] + ka[1..] && kb == [kb[0]] + kb[1..];
  }

  /** A four-position key, unfolded. */
  lemma LexCmp4(ka: seq<int>, kb: seq<int>, tie: int)
    requires |ka| == |kb| == 4
    ensures LexCmp(ka, kb, tie) ==
            if ka[0] != kb[0] then (if ka[0] < kb[0] then -1 else 1)
            else LexCmp(ka[1..], kb[1..], tie)
    ensures LexCmp(ka[1..], kb[1..], tie) ==
            if ka[1] != kb[1] then (if ka[1] < kb[1] then -1 else 1)
            else if ka[2] != kb[2] then (if ka[2] < kb[2] then -1 else 1)
            else if ka[3] != kb[3] then (if ka[3] < kb[3] then -1 else 1)
            else Sign(tie)
  {
    LexCmpCons(ka[0], ka[1..], kb[0], kb[1..], tie);
    assert ka == [ka[0]] + ka[1..] && kb == [kb[0]] + kb[1..];
    LexCmp3(ka[1..], kb[1..], tie);
  }

  lemma {:induction false} LexAntisymmetric(ka: seq<int>, kb: seq<int>, tab: int, tba: int)
    requires |ka| == |kb| && Sign(tba) == -Sign(tab)
    ensures LexCmp(kb, ka, tba) == -LexCmp(ka, kb, tab)
  {
    if ka != [] && ka[0] == kb[0] {
      LexAntisymmetric(ka[1..], kb[1..], tab, tba);
    }
  }

  lemma {:induction false} LexTransitive(ka: seq<int>, kb: seq<int>, kc: seq<int>, tab: int, tbc: int, tac: int)
    requires |ka| == |kb| == |kc|
    requires tab <= 0 && tbc <= 0 ==> tac <= 0
    requires LexCmp(ka, kb, tab) <= 0 && LexCmp(kb, kc, tbc) <= 0
    ensures LexCmp(ka, kc, tac) <= 0
  {
    if ka != [] && ka[0] == kb[0] && kb[0] == kc[0] {
      LexTransitive(ka[1..], kb[1..], kc[1..], tab, tbc, tac);
    }
  }

  /** A comparator whose sign is the lexicographic comparison of a fixed-length
      key followed by a total-preorder tie-break is itself a total preorder. */
  lemma KeyedIsTotalPreorder<T(!new)>(cmp: (T, T) -> int, key: T -> seq<int>, tie: (T, T) -> int, n: nat)
    requires forall a :: |key(a)| == n
    requires TotalPreorder(tie)
    requires forall a, b :: Sign(cmp(a, b)) == LexCmp(key(a), key(b), tie(a, b))
    ensures TotalPreorder(cmp)
  {
    forall a, b ensures Sign(cmp(a, b)) == -Sign(cmp(b, a)) {
      LexAntisymmetric(key(a), key(b), tie(a, b), tie(b, a));
    }
    forall a, b, c | cmp(a, b) <= 0 && cmp(b, c) <= 0 ensures cmp(a, c) <= 0 {
      LexTransitive(key(a), key(b), key(c), tie(a, b), tie(b, c), tie(a, c));
    }
  }
}
