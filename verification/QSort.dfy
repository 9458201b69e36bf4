/** Quicksort (lib9/qsort.c), on an array of elements instead of bytes.  Nothing is asked of the
    comparator unless the result is to be sorted: it may answer differently about the same two
    elements each time, and still every scan stays within the array, every sort ends, and the
    elements are only exchanged. */
module QSort {

  /** cmp says of a total preorder whether x comes before, with or after y. */
  ghost predicate Preorder<T(!new)>(cmp: (T, T) -> int) {
    && (forall x, y :: cmp(x, y) <= 0 <==> cmp(y, x) >= 0)
    && (forall x, y, z :: cmp(x, y) <= 0 && cmp(y, z) <= 0 ==> cmp(x, z) <= 0)
  }

  /** The comparator that the caller hands over: its answer may depend on how often it has been
      called. */
  class Comparator<T(!new)> {
    const answer: (nat, T, T) -> int
    var calls: nat

    constructor (answer: (nat, T, T) -> int)
      ensures this.answer == answer && calls == 0
    {
      this.answer, calls := answer, 0;
    }

    method Cmp(x: T, y: T) returns (c: int)
      modifies this`calls
      ensures c == answer(old(calls), x, y) && calls == old(calls) + 1
    {
      c := answer(calls, x, y);
      calls := calls + 1;
    }

    /** Every answer depends on the two elements only. */
    ghost predicate Follows(cmp: (T, T) -> int) {
      forall k, x, y :: answer(k, x, y) == cmp(x, y)
    }

    ghost predicate Orders(cmp: (T, T) -> int) {
      Follows(cmp) && Preorder(cmp)
    }
  }

  ghost predicate Sorted<T>(s: seq<T>, lo: int, hi: int, cmp: (T, T) -> int) {
    0 <= lo && hi <= |s| && forall i, j :: lo <= i < j < hi ==> cmp(s[i], s[j]) <= 0
  }

  // -------------------------------------------------------------------- rearrangements

  /** t is s with the elements from lo to hi rearranged. */
  ghost predicate Rearranged<T>(s: seq<T>, t: seq<T>, lo: int, hi: int) {
    && |s| == |t| && 0 <= lo <= hi <= |s|
    && (forall i :: 0 <= i < |s| && (i < lo || hi <= i) ==> t[i] == s[i])
    && multiset(s[lo..hi]) == multiset(t[lo..hi])
  }

  lemma Split<T>(s: seq<T>, lo: int, m: int, hi: int)
    requires 0 <= lo <= m <= hi <= |s|
    ensures multiset(s[lo..hi]) == multiset(s[lo..m]) + multiset(s[m..hi])
  {
    assert s[lo..hi] == s[lo..m] + s[m..hi];
  }

  /** Rearranging a part is rearranging the whole. */
  lemma Widen<T>(s: seq<T>, t: seq<T>, lo: int, hi: int, lo': int, hi': int)
    requires Rearranged(s, t, lo, hi) && 0 <= lo' <= lo && hi <= hi' <= |s|
    ensures Rearranged(s, t, lo', hi')
  {
    Split(s, lo', lo, hi');
    Split(t, lo', lo, hi');
    Split(s, lo, hi, hi');
    Split(t, lo, hi, hi');
    assert s[lo'..lo] == t[lo'..lo] && s[hi..hi'] == t[hi..hi'];
  }

  lemma Compose<T>(s: seq<T>, t: seq<T>, u: seq<T>, lo: int, hi: int)
    requires Rearranged(s, t, lo, hi) && Rearranged(t, u, lo, hi)
    ensures Rearranged(s, u, lo, hi)
  {
  }

  lemma Swapped<T>(s: seq<T>, i: int, j: int, lo: int, hi: int)
    requires 0 <= lo <= i < hi <= |s| && lo <= j < hi
    ensures Rearranged(s, s[i := s[j]][j := s[i]], lo, hi)
  {
    var t := s[i := s[j]][j := s[i]];
    assert t[lo..hi] == s[lo..hi][i - lo := s[j]][j - lo := s[i]];
  }

  /** Every element of a rearranged part was there before. */
  lemma Comes<T>(s: seq<T>, t: seq<T>, lo: int, hi: int, j: int) returns (i: int)
    requires Rearranged(s, t, lo, hi) && lo <= j < hi
    ensures lo <= i < hi && s[i] == t[j]
  {
    assert t[lo..hi][j - lo] in multiset(t[lo..hi]);
    assert t[j] in s[lo..hi];
    var part := s[lo..hi];
    var k :| 0 <= k < |part| && part[k] == t[j];
    i := lo + k;
  }

  // ------------------------------------------------------------------------------ pivot

  /** x lies between y and z. */
  ghost predicate Between<T>(x: T, y: T, z: T, cmp: (T, T) -> int) {
    (cmp(y, x) <= 0 && cmp(x, z) <= 0) || (cmp(z, x) <= 0 && cmp(x, y) <= 0)
  }

  /** pivot: one of the elements at a sixth, a half and five sixths, and their median. */
  method Pivot<T(!new)>(a: array<T>, lo: nat, n: nat, judge: Comparator<T>, ghost cmp: (T, T) -> int)
    returns (m: nat)
    requires lo + n <= a.Length && n >= 6
    modifies judge`calls
    ensures lo <= m < lo + n
    ensures m == lo + n / 6 || m == lo + 3 * (n / 6) || m == lo + 5 * (n / 6)
    ensures judge.Orders(cmp) ==>
      var x, y, z := a[lo + n / 6], a[lo + 3 * (n / 6)], a[lo + 5 * (n / 6)];
      if m == lo + n / 6 then Between(x, y, z, cmp)
      else if m == lo + 3 * (n / 6) then Between(y, x, z, cmp)
      else Between(z, x, y, cmp)
  {
    var j := n / 6;
    var pi := lo + j;
    j := j + j;
    var pj := pi + j;
    var pk := pj + j;
    var ij := judge.Cmp(a[pi], a[pj]);
    if ij < 0 {
      var ik := judge.Cmp(a[pi], a[pk]);
      if ik < 0 {
        var jk := judge.Cmp(a[pj], a[pk]);
        return if jk < 0 then pj else pk;
      }
      return pi;
    }
    var jk := judge.Cmp(a[pj], a[pk]);
    if jk < 0 {
      var ik := judge.Cmp(a[pi], a[pk]);
      return if ik < 0 then pi else pk;
    }
    return pj;
  }

  // --------------------------------------------------------------------------- partition

  /** The inner loops have come to i from the left and to j from the right. */
  ghost predicate Halves<T>(s: seq<T>, lo: int, hi: int, i: int, j: int, cmp: (T, T) -> int) {
    && 0 <= lo < i <= hi <= |s| && lo <= j <= hi
    && (forall x :: lo < x < i ==> cmp(s[x], s[lo]) <= 0)
    && (forall x :: j < x < hi ==> cmp(s[x], s[lo]) >= 0)
  }

  method Swap<T>(a: array<T>, i: nat, j: nat, ghost lo: nat, ghost hi: nat)
    requires lo <= i < hi <= a.Length && lo <= j < hi
    modifies a
    ensures a[..] == old(a[..])[i := old(a[j])][j := old(a[i])]
    ensures Rearranged(old(a[..]), a[..], lo, hi)
  {
    Swapped(a[..], i, j, lo, hi);
    a[i], a[j] := a[j], a[i];
  }

  /** Moves i0 to the right, by at least one, to an element that does not come before the pivot
      at lo, or to the end. */
  method ScanRight<T(!new)>(a: array<T>, lo: nat, hi: nat, i0: nat, ghost j: int,
                            judge: Comparator<T>, ghost cmp: (T, T) -> int) returns (i: nat)
    requires lo <= i0 < hi <= a.Length
    requires judge.Follows(cmp) ==> Halves(a[..], lo, hi, i0 + 1, j, cmp)
    modifies judge`calls
    ensures i0 < i <= hi
    ensures judge.Follows(cmp) ==> Halves(a[..], lo, hi, i, j, cmp) && (i < hi ==> cmp(a[i], a[lo]) >= 0)
  {
    i := i0 + 1;
    while i < hi
      invariant i0 < i <= hi
      invariant judge.Follows(cmp) ==> Halves(a[..], lo, hi, i, j, cmp)
    {
      var c := judge.Cmp(a[i], a[lo]);
      if c >= 0 {
        return;
      }
      i := i + 1;
    }
  }

  /** Moves j0 to the left, by at least one, to an element that does not come after the pivot at
      lo, or to the pivot. */
  method ScanLeft<T(!new)>(a: array<T>, lo: nat, hi: nat, ghost i: int, j0: nat,
                           judge: Comparator<T>, ghost cmp: (T, T) -> int) returns (j: nat)
    requires lo < j0 <= hi <= a.Length
    requires judge.Follows(cmp) ==> Halves(a[..], lo, hi, i, j0 - 1, cmp)
    modifies judge`calls
    ensures lo <= j < j0
    ensures judge.Follows(cmp) ==> Halves(a[..], lo, hi, i, j, cmp) && (lo < j ==> cmp(a[j], a[lo]) <= 0)
  {
    j := j0 - 1;
    while j > lo
      invariant lo <= j < j0
      invariant judge.Follows(cmp) ==> Halves(a[..], lo, hi, i, j, cmp)
    {
      var c := judge.Cmp(a[j], a[lo]);
      if c <= 0 {
        return;
      }
      j := j - 1;
    }
  }

  /** The scans have passed each other: j is where the element at lo belongs. */
  ghost predicate Crossed<T>(s: seq<T>, lo: int, hi: int, i: int, j: int, cmp: (T, T) -> int) {
    Halves(s, lo, hi, i, j, cmp) && j < i && (lo < j ==> cmp(s[j], s[lo]) <= 0)
  }

  /** One turn of the loop: scan from both sides, and exchange what is on the wrong side. */
  method Exchange<T(!new)>(a: array<T>, lo: nat, hi: nat, i0: nat, j0: nat,
                           judge: Comparator<T>, ghost cmp: (T, T) -> int)
    returns (going: bool, i: nat, j: nat)
    requires lo <= i0 < hi <= a.Length && i0 <= j0 <= hi && lo < j0
    requires judge.Follows(cmp) ==> Halves(a[..], lo, hi, i0 + 1, j0 - 1, cmp)
    modifies a, judge`calls
    ensures i0 < i <= hi && lo <= j < j0 && Rearranged(old(a[..]), a[..], lo, hi)
    ensures going <==> i <= j
    ensures judge.Follows(cmp) ==>
      if going then Halves(a[..], lo, hi, i + 1, j - 1, cmp) else Crossed(a[..], lo, hi, i, j, cmp)
  {
    i := ScanRight(a, lo, hi, i0, j0 - 1, judge, cmp);
    j := ScanLeft(a, lo, hi, i, j0, judge, cmp);
    going := j >= i;
    if going {
      Swap(a, i, j, lo, hi);
    }
  }

  /** p is where it belongs: nothing before it is greater, nothing after it is less. */
  ghost predicate Parted<T>(s: seq<T>, lo: int, hi: int, p: int, cmp: (T, T) -> int) {
    && 0 <= lo <= p < hi <= |s|
    && (forall x :: lo <= x < p ==> cmp(s[x], s[p]) <= 0)
    && (forall x :: p < x < hi ==> cmp(s[x], s[p]) >= 0)
  }

  lemma InPlace<T>(s: seq<T>, lo: int, hi: int, i: int, j: int, cmp: (T, T) -> int)
    requires Crossed(s, lo, hi, i, j, cmp) && j < |s|
    ensures Parted(s[lo := s[j]][j := s[lo]], lo, hi, j, cmp)
  {
  }

  /** The partition of qsorts around the element at m. */
  method Partition<T(!new)>(a: array<T>, lo: nat, hi: nat, m: nat, judge: Comparator<T>, ghost cmp: (T, T) -> int)
    returns (p: nat)
    requires lo <= m < hi <= a.Length && lo + 1 < hi
    modifies a, judge`calls
    ensures lo <= p < hi && Rearranged(old(a[..]), a[..], lo, hi)
    ensures judge.Follows(cmp) ==> Parted(a[..], lo, hi, p, cmp)
  {
    ghost var was := a[..];
    Swap(a, lo, m, lo, hi);
    var i, j := lo, hi;
    var going := true;
    while going
      invariant lo <= i && lo <= j <= hi && (if going then i <= j && i < hi && lo < j else j < i <= hi && j < hi)
      invariant Rearranged(was, a[..], lo, hi)
      invariant judge.Follows(cmp) ==>
        if going then Halves(a[..], lo, hi, i + 1, j - 1, cmp) else Crossed(a[..], lo, hi, i, j, cmp)
      decreases going, j - i
    {
      ghost var s := a[..];
      going, i, j := Exchange(a, lo, hi, i, j, judge, cmp);
      Compose(was, s, a[..], lo, hi);
    }
    ghost var s := a[..];
    Swap(a, lo, j, lo, hi);
    Compose(was, s, a[..], lo, hi);
    if judge.Follows(cmp) { InPlace(s, lo, hi, i, j, cmp); }
    p := j;
  }

  // ------------------------------------------------------------------------------ sorting

  /** Outside lo..hi the elements of lo0..hi0 are where they belong. */
  ghost predicate Placed<T>(s: seq<T>, lo0: int, hi0: int, lo: int, hi: int, cmp: (T, T) -> int) {
    && 0 <= lo0 <= lo <= hi <= hi0 <= |s|
    && forall i, j :: lo0 <= i < j < hi0 && (i < lo || hi <= j) ==> cmp(s[i], s[j]) <= 0
  }

  /** Rearranging a part keeps what is known of all its elements. */
  lemma PlacedStays<T>(s: seq<T>, t: seq<T>, lo0: int, hi0: int, lo: int, hi: int, cmp: (T, T) -> int)
    requires Placed(s, lo0, hi0, lo, hi, cmp) && Rearranged(s, t, lo, hi)
    ensures Placed(t, lo0, hi0, lo, hi, cmp)
  {
    forall i, j | lo0 <= i < j < hi0 && (i < lo || hi <= j) ensures cmp(t[i], t[j]) <= 0 {
      var i', j' := i, j;
      if lo <= i < hi { i' := Comes(s, t, lo, hi, i); }
      if lo <= j < hi { j' := Comes(s, t, lo, hi, j); }
      assert cmp(s[i'], s[j']) <= 0;
    }
  }

  lemma PartedStays<T>(s: seq<T>, t: seq<T>, lo: int, hi: int, p: int, l: int, h: int, cmp: (T, T) -> int)
    requires Parted(s, lo, hi, p, cmp) && Rearranged(s, t, l, h) && ((l == lo && h == p) || (l == p + 1 && h == hi))
    ensures Parted(t, lo, hi, p, cmp)
  {
    forall x | lo <= x < hi && x != p ensures if x < p then cmp(t[x], t[p]) <= 0 else cmp(t[x], t[p]) >= 0 {
      if l <= x < h { var y := Comes(s, t, l, h, x); }
    }
  }

  /** When one side of p is sorted, only the other is left. */
  lemma PlacedMore<T(!new)>(t: seq<T>, lo0: int, hi0: int, lo: int, hi: int, p: int, cmp: (T, T) -> int)
    requires Preorder(cmp) && Placed(t, lo0, hi0, lo, hi, cmp) && Parted(t, lo, hi, p, cmp)
    ensures Sorted(t, lo, p, cmp) ==> Placed(t, lo0, hi0, p + 1, hi, cmp)
    ensures Sorted(t, p + 1, hi, cmp) ==> Placed(t, lo0, hi0, lo, p, cmp)
  {
    if Sorted(t, lo, p, cmp) {
      forall i, j | lo0 <= i < j < hi0 && (i < p + 1 || hi <= j) ensures cmp(t[i], t[j]) <= 0 {
        if lo <= i <= p < j < hi { Through(t, i, p, j, cmp); }
      }
    }
    if Sorted(t, p + 1, hi, cmp) {
      forall i, j | lo0 <= i < j < hi0 && (i < lo || p <= j) ensures cmp(t[i], t[j]) <= 0 {
        if lo <= i < p <= j < hi { Through(t, i, p, j, cmp); }
      }
    }
  }

  lemma Through<T(!new)>(t: seq<T>, i: int, p: int, j: int, cmp: (T, T) -> int)
    requires Preorder(cmp) && 0 <= i < |t| && 0 <= p < |t| && 0 <= j < |t|
    requires (i == p || cmp(t[i], t[p]) <= 0) && (j == p || cmp(t[j], t[p]) >= 0) && i != j
    ensures cmp(t[i], t[j]) <= 0
  {
  }

  /** qsorts: n elements from lo on. */
  method QSorts<T(!new)>(a: array<T>, lo0: nat, n0: nat, judge: Comparator<T>, ghost cmp: (T, T) -> int)
    requires lo0 + n0 <= a.Length
    modifies a, judge`calls
    ensures Rearranged(old(a[..]), a[..], lo0, lo0 + n0)
    ensures judge.Orders(cmp) ==> Sorted(a[..], lo0, lo0 + n0, cmp)
    decreases n0, 2
  {
    ghost var was, hi0 := a[..], lo0 + n0;
    var lo, n := lo0, n0;
    while n > 1
      invariant lo0 <= lo && lo + n <= hi0 && n <= n0 && Rearranged(was, a[..], lo0, hi0)
      invariant judge.Orders(cmp) ==> Placed(a[..], lo0, hi0, lo, lo + n, cmp)
    {
      ghost var s := a[..];
      lo, n := Halve(a, lo, n, judge, cmp, lo0, hi0);
      Compose(was, s, a[..], lo0, hi0);
    }
  }

  /** One turn of qsorts: partition, sort the larger part, and go on with the smaller. */
  method Halve<T(!new)>(a: array<T>, lo0: nat, n0: nat, judge: Comparator<T>, ghost cmp: (T, T) -> int,
                        ghost min: nat, ghost max: nat)
    returns (lo: nat, n: nat)
    requires min <= lo0 && lo0 + n0 <= max <= a.Length && n0 > 1
    requires judge.Orders(cmp) ==> Placed(a[..], min, max, lo0, lo0 + n0, cmp)
    modifies a, judge`calls
    ensures min <= lo && lo + n <= max && n < n0 && Rearranged(old(a[..]), a[..], min, max)
    ensures judge.Orders(cmp) ==> Placed(a[..], min, max, lo, lo + n, cmp)
    decreases n0, 1
  {
    var m := lo0 + n0 / 2;
    if n0 > 10 {
      m := Pivot(a, lo0, n0, judge, cmp);
    }
    var p := Part(a, lo0, lo0 + n0, m, judge, cmp, min, max);
    ghost var t := a[..];
    var j := p - lo0;
    lo, n := lo0, n0 - j - 1;
    if j >= n {
      SortSide(a, lo, j, judge, cmp, min, max, lo0, lo0 + n0, p);
      lo := lo + (j + 1);
    } else {
      SortSide(a, lo + (j + 1), n, judge, cmp, min, max, lo0, lo0 + n0, p);
      n := j;
    }
    Compose(old(a[..]), t, a[..], min, max);
  }

  method Part<T(!new)>(a: array<T>, lo: nat, hi: nat, m: nat, judge: Comparator<T>, ghost cmp: (T, T) -> int,
                       ghost min: nat, ghost max: nat)
    returns (p: nat)
    requires min <= lo <= m < hi <= max <= a.Length && lo + 1 < hi
    requires judge.Orders(cmp) ==> Placed(a[..], min, max, lo, hi, cmp)
    modifies a, judge`calls
    ensures lo <= p < hi && Rearranged(old(a[..]), a[..], min, max)
    ensures judge.Orders(cmp) ==> Placed(a[..], min, max, lo, hi, cmp) && Parted(a[..], lo, hi, p, cmp)
  {
    ghost var s := a[..];
    p := Partition(a, lo, hi, m, judge, cmp);
    Widen(s, a[..], lo, hi, min, max);
    if judge.Orders(cmp) { PlacedStays(s, a[..], min, max, lo, hi, cmp); }
  }

  /** The sorting of one of the two parts. */
  method SortSide<T(!new)>(a: array<T>, l: nat, k: nat, judge: Comparator<T>, ghost cmp: (T, T) -> int,
                           ghost min: nat, ghost max: nat, ghost lo: nat, ghost hi: nat, ghost p: nat)
    requires min <= lo <= p < hi <= max <= a.Length && ((l == lo && l + k == p) || (l == p + 1 && l + k == hi))
    requires judge.Orders(cmp) ==> Placed(a[..], min, max, lo, hi, cmp) && Parted(a[..], lo, hi, p, cmp)
    modifies a, judge`calls
    ensures Rearranged(old(a[..]), a[..], min, max)
    ensures judge.Orders(cmp) ==>
      if l == p + 1 then Placed(a[..], min, max, lo, p, cmp) else Placed(a[..], min, max, p + 1, hi, cmp)
    decreases k + 1, 0
  {
    ghost var t := a[..];
    QSorts(a, l, k, judge, cmp);
    Widen(t, a[..], l, l + k, min, max);
    if judge.Orders(cmp) { Settled(t, a[..], min, max, lo, hi, p, l, l + k, cmp); }
  }

  lemma Settled<T(!new)>(t: seq<T>, u: seq<T>, min: int, max: int, lo: int, hi: int, p: int,
                         l: int, h: int, cmp: (T, T) -> int)
    requires Preorder(cmp) && Placed(t, min, max, lo, hi, cmp) && Parted(t, lo, hi, p, cmp)
    requires Rearranged(t, u, l, h) && ((l == lo && h == p) || (l == p + 1 && h == hi)) && Sorted(u, l, h, cmp)
    ensures if l == p + 1 then Placed(u, min, max, lo, p, cmp) else Placed(u, min, max, p + 1, hi, cmp)
  {
    Widen(t, u, l, h, lo, hi);
    PlacedStays(t, u, min, max, lo, hi, cmp);
    PartedStays(t, u, lo, hi, p, l, h, cmp);
    PlacedMore(u, min, max, lo, hi, p, cmp);
  }

  /** qsort: a permutation for every comparator, and sorted if the answers of the comparator are
      those of a total preorder. */
  method QuickSort<T(!new)>(a: array<T>, n: nat, judge: Comparator<T>, ghost cmp: (T, T) -> int)
    requires n <= a.Length
    modifies a, judge`calls
    ensures multiset(a[..n]) == multiset(old(a[..n])) && a[n..] == old(a[n..])
    ensures judge.Orders(cmp) ==> Sorted(a[..], 0, n, cmp)
  {
    QSorts(a, 0, n, judge, cmp);
    assert a[0..n] == a[..n] && old(a[0..n]) == old(a[..n]);
  }
}
