/**
 * The interleaved slice-timing order shared by edit_bold_json.py and
 * edit_json_side_cars.py. The slice start times 0, step, 2*step, ... are
 * cut into a first and a second half, the two halves are set side by
 * side as columns (second half on the left), and the table is read row
 * by row. At the level of slice indices this is a permutation: position
 * 2k holds slice k + n/2 and position 2k+1 holds slice k.
 */
module SliceTiming {
  import opened Base

  /** The slice indices 0, 1, ..., n-1. */
  function Range(n: nat): (r: seq<nat>)
    ensures |r| == n && forall i :: 0 <= i < n ==> r[i] == i
  {
    seq(n, i => i)
  }

  /** Two equally long columns joined side by side and read row by row: a[0], b[0], a[1], b[1], ... */
  function Pairs<T>(a: seq<T>, b: seq<T>): (r: seq<T>)
    requires |a| == |b|
    ensures |r| == 2 * |a|
    decreases |a|
  {
    if a == [] then [] else [a[0], b[0]] + Pairs(a[1..], b[1..])
  }

  lemma {:induction false} PairsAt<T>(a: seq<T>, b: seq<T>, k: nat)
    requires |a| == |b| && k < |a|
    ensures Pairs(a, b)[2 * k] == a[k] && Pairs(a, b)[2 * k + 1] == b[k]
    decreases k
  {
    if k > 0 {
      PairsAt(a[1..], b[1..], k - 1);
    }
  }

  lemma {:induction false} PairsMultiset<T>(a: seq<T>, b: seq<T>)
    requires |a| == |b|
    ensures multiset(Pairs(a, b)) == multiset(a) + multiset(b)
    decreases |a|
  {
    if a != [] {
      PairsMultiset(a[1..], b[1..]);
      assert Pairs(a, b) == [a[0], b[0]] + Pairs(a[1..], b[1..]);
      assert multiset(a) == multiset{a[0]} + multiset(a[1..]) by { assert a == [a[0]] + a[1..]; }
      assert multiset(b) == multiset{b[0]} + multiset(b[1..]) by { assert b == [b[0]] + b[1..]; }
    }
  }

  /**
   * The interleave of the two halves of s. It exists only when s has even
   * length: for odd length the halves differ in length and numpy refuses
   * to join them side by side (the script would raise ValueError).
   */
  function Interleave<T>(s: seq<T>): (r: Option<seq<T>>)
    ensures r.Some? <==> |s| % 2 == 0
    ensures r.Some? ==> |r.value| == |s|
  {
    var h := |s| / 2;
    if |s| % 2 == 0 then Some(Pairs(s[h..], s[..h])) else None
  }

  /** Position 2k holds element k + n/2, position 2k+1 holds element k. */
  lemma InterleaveAt<T>(s: seq<T>, k: nat)
    requires |s| % 2 == 0 && k < |s| / 2
    ensures Interleave(s).value[2 * k] == s[k + |s| / 2]
    ensures Interleave(s).value[2 * k + 1] == s[k]
  {
    var h := |s| / 2;
    PairsAt(s[h..], s[..h], k);
  }

  /** The interleave reorders s and neither drops nor repeats an element. */
  lemma InterleavePermutes<T>(s: seq<T>)
    requires |s| % 2 == 0
    ensures multiset(Interleave(s).value) == multiset(s)
  {
    var h := |s| / 2;
    PairsMultiset(s[h..], s[..h]);
    assert s == s[..h] + s[h..];
  }

  /** The position at which slice j ends up: the inverse of the interleave on indices. */
  function SlotOf(j: nat, n: nat): nat {
    if j < n / 2 then 2 * j + 1 else 2 * (j - n / 2)
  }

  /**
   * On slice indices the interleave is a bijection of 0..n-1: every entry
   * is a slice index, every slice j sits at SlotOf(j, n), and no two
   * positions hold the same slice.
   */
  lemma InterleaveIndicesBijective(n: nat)
    requires n % 2 == 0
    ensures forall p :: 0 <= p < n ==> Interleave<nat>(Range(n)).value[p] < n
    ensures forall p :: 0 <= p < n ==> SlotOf(Interleave<nat>(Range(n)).value[p], n) == p
    ensures forall j :: 0 <= j < n ==> SlotOf(j, n) < n && Interleave<nat>(Range(n)).value[SlotOf(j, n)] == j
    ensures forall p, q :: 0 <= p < q < n ==> Interleave<nat>(Range(n)).value[p] != Interleave<nat>(Range(n)).value[q]
  {
    var r := Interleave<nat>(Range(n)).value;
    var h := n / 2;
    forall p | 0 <= p < n
      ensures r[p] < n && SlotOf(r[p], n) == p
    {
      InterleaveAt<nat>(Range(n), p / 2);
      assert p == 2 * (p / 2) + p % 2;
    }
    forall j | 0 <= j < n
      ensures SlotOf(j, n) < n && r[SlotOf(j, n)] == j
    {
      if j < h {
        InterleaveAt<nat>(Range(n), j);
      } else {
        InterleaveAt<nat>(Range(n), j - h);
      }
    }
  }

  /** Every slice index below n appears exactly once. */
  lemma EverySliceOnce(n: nat, j: nat)
    requires n % 2 == 0 && j < n
    ensures multiset(Interleave<nat>(Range(n)).value)[j] == 1
  {
    InterleavePermutes<nat>(Range(n));
    RangeCount(n, j);
  }

  lemma {:induction false} RangeCount(n: nat, j: nat)
    ensures multiset(Range(n))[j] == if j < n then 1 else 0
    decreases n
  {
    if n > 0 {
      RangeCount(n - 1, j);
      assert Range(n) == Range(n - 1) + [n - 1];
    }
  }

  /** `np.arange(0, tr, step=tr / n)` in exact arithmetic: slice i starts at i * tr / n. */
  function SliceTimes(tr: real, n: nat): (r: seq<real>)
    requires n > 0
    ensures |r| == n
  {
    seq(n, i => i as real * (tr / n as real))
  }

  /** Every slice starts inside the repetition time: 0 <= time < tr. */
  lemma SliceTimesWithinTR(tr: real, n: nat)
    requires tr > 0.0 && n > 0
    ensures forall i :: 0 <= i < n ==> 0.0 <= SliceTimes(tr, n)[i] < tr
  {
    var step := tr / n as real;
    assert step > 0.0;
    assert n as real * step == tr;
    forall i | 0 <= i < n
      ensures 0.0 <= SliceTimes(tr, n)[i] < tr
    {
      assert SliceTimes(tr, n)[i] == i as real * step;
      assert (n as real - i as real) * step > 0.0;
    }
  }

  /** The interleaved times are the times of the interleaved slice indices. */
  lemma InterleavedTimesFollowIndices(tr: real, n: nat)
    requires n > 0 && n % 2 == 0
    ensures forall p :: 0 <= p < n ==>
      Interleave(SliceTimes(tr, n)).value[p] == Interleave<nat>(Range(n)).value[p] as real * (tr / n as real)
  {
    forall p | 0 <= p < n
      ensures Interleave(SliceTimes(tr, n)).value[p] == Interleave<nat>(Range(n)).value[p] as real * (tr / n as real)
    {
      InterleaveAt(SliceTimes(tr, n), p / 2);
      InterleaveAt<nat>(Range(n), p / 2);
      assert p == 2 * (p / 2) + p % 2;
    }
  }

  /** All interleaved times lie in [0, tr). */
  lemma InterleavedTimesWithinTR(tr: real, n: nat)
    requires tr > 0.0 && n > 0 && n % 2 == 0
    ensures forall p :: 0 <= p < n ==> 0.0 <= Interleave(SliceTimes(tr, n)).value[p] < tr
  {
    var times := SliceTimes(tr, n);
    SliceTimesWithinTR(tr, n);
    forall p | 0 <= p < n
      ensures 0.0 <= Interleave(times).value[p] < tr
    {
      InterleaveAt(times, p / 2);
      assert p == 2 * (p / 2) + p % 2;
    }
  }
}
