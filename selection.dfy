/** The `median` routine: selection of the order statistic at index len/2
    of a mutable buffer, with a hand-written quickselect standing in for
    std::nth_element. */
module Selection {
  import opened Orders

  /** The one failure the core raises: the median of an empty buffer. */
  datatype Error = EmptyVector

  datatype Result<T> = Ok(value: T) | Err(error: Error)

  /** What `median` returns for a buffer with contents s: the element at
      0-based index |s| / 2 of the ascending arrangement (for an even
      length the upper of the two middle elements, with no averaging), or
      the empty-vector error. */
  function MedianOf(s: seq<real>): (r: Result<real>)
    ensures r.Err? <==> |s| == 0
    ensures r.Ok? ==> r.value in s
    ensures r.Ok? ==> CountBelow(s, r.value) <= |s| / 2 < CountAtMost(s, r.value)
  {
    if |s| == 0 then
      Err(EmptyVector)
    else
      SortedElementsComeFromInput(s);
      OrderStatisticByCounts(s, |s| / 2, Sort(s)[|s| / 2]);
      Ok(Sort(s)[|s| / 2])
  }

  /** Reordering the buffer never changes the median. */
  lemma MedianIgnoresOrder(s: seq<real>, t: seq<real>)
    requires multiset(s) == multiset(t)
    ensures MedianOf(s) == MedianOf(t)
  {
    SortDependsOnlyOnMultiset(s, t);
    assert |s| == |multiset(s)| == |multiset(t)| == |t|;
  }

  /** The counts characterise the median exactly: a value v is the median
      of a non-empty buffer iff at most |s| / 2 elements lie strictly below
      it and more than |s| / 2 lie at or below it. */
  lemma MedianByCounts(s: seq<real>, v: real)
    requires |s| > 0
    ensures MedianOf(s) == Ok(v) <==> CountBelow(s, v) <= |s| / 2 < CountAtMost(s, v)
  {
    OrderStatisticByCounts(s, |s| / 2, v);
  }

  /** For an even length the result is the upper middle element, not the
      mean of the two middle elements. */
  lemma MedianOfEvenLengthIsUpperMiddle()
    ensures MedianOf([3.0, 1.0]) == Ok(3.0)
  {
    var s := [3.0, 1.0];
    MedianByCounts(s, 3.0);
    assert s[1..] == [1.0] && s[1..][1..] == [];
    assert CountBelow(s, 3.0) == 1;
    assert CountAtMost(s, 3.0) == 2;
  }

  /** Exchanges two elements of the array. */
  method Swap(a: array<real>, i: int, j: int)
    requires 0 <= i < a.Length && 0 <= j < a.Length
    modifies a
    ensures a[i] == old(a[j]) && a[j] == old(a[i])
    ensures forall m :: 0 <= m < a.Length && m != i && m != j ==> a[m] == old(a[m])
    ensures multiset(a[..]) == multiset(old(a[..]))
  {
    a[i], a[j] := a[j], a[i];
  }

  /** Lomuto partition of a[lo..hi) around the value that was at a[hi - 1]:
      afterwards that value sits at index p, smaller values before it and
      the others after it; nothing outside the range moves. */
  method Partition(a: array<real>, lo: int, hi: int) returns (p: int)
    requires 0 <= lo < hi <= a.Length
    modifies a
    ensures lo <= p < hi
    ensures forall i :: lo <= i < p ==> a[i] <= a[p]
    ensures forall j :: p < j < hi ==> a[p] <= a[j]
    ensures forall i :: 0 <= i < lo || hi <= i < a.Length ==> a[i] == old(a[i])
    ensures multiset(a[..]) == multiset(old(a[..]))
  {
    var pivot := a[hi - 1];
    var store := lo;
    for scan := lo to hi - 1
      invariant lo <= store <= scan
      invariant forall i :: lo <= i < store ==> a[i] < pivot
      invariant forall i :: store <= i < scan ==> pivot <= a[i]
      invariant a[hi - 1] == pivot
      invariant forall i :: 0 <= i < lo || hi <= i < a.Length ==> a[i] == old(a[i])
      invariant multiset(a[..]) == multiset(old(a[..]))
    {
      if a[scan] < pivot {
        Swap(a, store, scan);
        store := store + 1;
      }
    }
    Swap(a, store, hi - 1);
    p := store;
  }

  lemma SameOutsideSameInside(s: seq<real>, t: seq<real>, lo: int, hi: int)
    requires 0 <= lo <= hi <= |s| == |t|
    requires forall i :: 0 <= i < lo || hi <= i < |s| ==> s[i] == t[i]
    requires multiset(s) == multiset(t)
    ensures multiset(s[lo..hi]) == multiset(t[lo..hi])
  {
    assert s == s[..lo] + s[lo..hi] + s[hi..];
    assert t == t[..lo] + t[lo..hi] + t[hi..];
    assert s[..lo] == t[..lo] && s[hi..] == t[hi..];
    assert multiset(s[lo..hi]) == multiset(s) - (multiset(s[..lo]) + multiset(s[hi..]));
    assert multiset(t[lo..hi]) == multiset(t) - (multiset(t[..lo]) + multiset(t[hi..]));
  }

  /** Reordering only inside [lo, hi) keeps a split at any m outside
      (lo, hi). */
  lemma ShuffleInsideKeepsSplit(s: seq<real>, t: seq<real>, lo: int, hi: int, m: int)
    requires 0 <= lo <= hi <= |s| == |t|
    requires forall i :: 0 <= i < lo || hi <= i < |s| ==> s[i] == t[i]
    requires multiset(s) == multiset(t)
    requires m <= lo || hi <= m
    requires 0 <= m <= |s| && SplitAt(s, m)
    ensures SplitAt(t, m)
  {
    SameOutsideSameInside(s, t, lo, hi);
    forall i, j | 0 <= i < m <= j < |t| ensures t[i] <= t[j] {
      if lo <= i < hi {
        var i' := InPrefixOrSuffix(s, lo, hi, t[i]);
        assert s[i'] <= s[j];
      } else if lo <= j < hi {
        var j' := InPrefixOrSuffix(s, lo, hi, t[j]);
        assert s[i] <= s[j'];
      } else {
        assert s[i] <= s[j];
      }
    }
  }

  /** A partition step inside an already split range [lo, hi) leaves the
      array split on both sides of the pivot. */
  lemma PivotSplits(t: seq<real>, lo: int, p: int, hi: int)
    requires 0 <= lo <= p < hi <= |t|
    requires SplitAt(t, lo) && SplitAt(t, hi)
    requires forall i :: lo <= i < p ==> t[i] <= t[p]
    requires forall j :: p < j < hi ==> t[p] <= t[j]
    ensures SplitAt(t, p) && SplitAt(t, p + 1)
  {
    forall i, j | 0 <= i <= p < j < |t| ensures t[i] <= t[j] {
      if i < lo {
      } else if hi <= j {
      } else {
        assert t[i] <= t[p] <= t[j];
      }
    }
    forall i, j | 0 <= i < p <= j < |t| ensures t[i] <= t[j] {
      if i < lo {
      } else if hi <= j {
      } else {
        assert t[i] <= t[p] <= t[j];
      }
    }
  }

  /** Quickselect: the contract of std::nth_element(first, first + k, last).
      The array is permuted, everything before k is <= everything from k
      on, and a[k] is the element at index k of the ascending arrangement
      of the original contents. */
  method Select(a: array<real>, k: int)
    requires 0 <= k < a.Length
    modifies a
    ensures multiset(a[..]) == multiset(old(a[..]))
    ensures SplitAt(a[..], k) && SplitAt(a[..], k + 1)
    ensures a[k] == Sort(old(a[..]))[k]
  {
    var lo, hi := 0, a.Length;
    while true
      invariant 0 <= lo <= k < hi <= a.Length
      invariant multiset(a[..]) == multiset(old(a[..]))
      invariant SplitAt(a[..], lo) && SplitAt(a[..], hi)
      decreases hi - lo
    {
      ghost var before := a[..];
      var p := Partition(a, lo, hi);
      ShuffleInsideKeepsSplit(before, a[..], lo, hi, lo);
      ShuffleInsideKeepsSplit(before, a[..], lo, hi, hi);
      PivotSplits(a[..], lo, p, hi);
      if p == k {
        SplitAtIsOrderStatistic(old(a[..]), a[..], k);
        return;
      } else if k < p {
        hi := p;
      } else {
        lo := p + 1;
      }
    }
  }

  /** `median`: fails on an empty buffer and selects nothing; otherwise
      selects index len / 2 in place and returns the element there. */
  method Median(a: array<real>) returns (r: Result<real>)
    modifies a
    ensures r == MedianOf(old(a[..]))
    ensures multiset(a[..]) == multiset(old(a[..]))
    ensures r.Ok? ==> r.value == a[a.Length / 2]
    ensures r.Ok? ==> SplitAt(a[..], a.Length / 2) && SplitAt(a[..], a.Length / 2 + 1)
  {
    var len := a.Length;
    if len == 0 {
      return Err(EmptyVector);
    }
    var middle := len / 2;
    Select(a, middle);
    r := Ok(a[middle]);
  }
}
