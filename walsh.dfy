/** `cpp_hle1`: the one-sample Hodges-Lehmann estimator. The Walsh
    averages (x[i] + x[j]) / 2 of all pairs i < j (self-pairs excluded) are
    written into a buffer of n(n-1)/2 slots through the triangular index
    map i + j(j-1)/2, and the median of that buffer is returned. */
module Walsh {
  import opened Orders
  import opened Selection

  /** Number of pairs i < j among n observations: the length of the buffer,
      0 + 1 + ... + (n - 1). */
  function PairCount(n: nat): nat {
    if n == 0 then 0 else PairCount(n - 1) + (n - 1)
  }

  /** The closed form the source uses for the buffer size and the row
      offset: n(n-1)/2. */
  lemma {:induction false} PairCountClosedForm(n: nat)
    ensures PairCount(n) == n * (n - 1) / 2
  {
    if n > 0 {
      PairCountClosedForm(n - 1);
      assert n * (n - 1) == (n - 1) * (n - 2) + 2 * (n - 1);
    }
  }

  /** The slot the source writes the pair (i, j) to. */
  function Slot(i: nat, j: nat): nat {
    i + PairCount(j)
  }

  lemma PairCountStep(j: nat)
    ensures PairCount(j + 1) == PairCount(j) + j
  {
  }

  lemma {:induction false} PairCountMonotone(m: nat, n: nat)
    requires m <= n
    ensures PairCount(m) <= PairCount(n)
  {
    if m < n {
      PairCountStep(n - 1);
      PairCountMonotone(m, n - 1);
    }
  }

  /** The buffer is empty exactly when there are fewer than two observations. */
  lemma PairCountIsZero(n: nat)
    ensures PairCount(n) == 0 <==> n <= 1
  {
    if n >= 2 {
      PairCountStep(1);
      PairCountMonotone(2, n);
    }
  }

  /** Row j of the triangle occupies the slots [PairCount(j), PairCount(j + 1)). */
  lemma SlotWithinRow(i: nat, j: nat)
    requires i < j
    ensures PairCount(j) <= Slot(i, j) < PairCount(j + 1)
  {
    PairCountStep(j);
  }

  /** Every pair i < j < n lands inside the buffer of PairCount(n) slots. */
  lemma SlotInRange(i: nat, j: nat, n: nat)
    requires i < j < n
    ensures Slot(i, j) < PairCount(n)
  {
    SlotWithinRow(i, j);
    PairCountMonotone(j + 1, n);
  }

  /** No two pairs share a slot. */
  lemma SlotInjective(i1: nat, j1: nat, i2: nat, j2: nat)
    requires i1 < j1 && i2 < j2
    requires Slot(i1, j1) == Slot(i2, j2)
    ensures i1 == i2 && j1 == j2
  {
    SlotWithinRow(i1, j1);
    SlotWithinRow(i2, j2);
    if j1 < j2 {
      PairCountMonotone(j1 + 1, j2);
    } else if j2 < j1 {
      PairCountMonotone(j2 + 1, j1);
    }
  }

  /** The row whose slots contain k, searching upwards from row j. */
  function RowOf(k: nat, j: nat): (r: nat)
    requires 1 <= j && PairCount(j) <= k
    ensures j <= r && PairCount(r) <= k < PairCount(r + 1)
    decreases k - PairCount(j)
  {
    PairCountStep(j);
    if k < PairCount(j + 1) then j else RowOf(k, j + 1)
  }

  /** The inverse of the slot map: the pair written to slot k. */
  function PairAt(k: nat): (p: (nat, nat))
    ensures p.0 < p.1 && Slot(p.0, p.1) == k
  {
    var j := RowOf(k, 1);
    PairCountStep(j);
    (k - PairCount(j), j)
  }

  /** The slot map is a bijection from the pairs i < j < n onto the slots
      [0, PairCount(n)): PairAt undoes Slot on every pair, and Slot undoes
      PairAt on every slot, whose pair lies within the n observations. */
  lemma SlotBijection(n: nat)
    ensures forall i: nat, j: nat :: i < j < n ==> Slot(i, j) < PairCount(n) && PairAt(Slot(i, j)) == (i, j)
    ensures forall k: nat :: k < PairCount(n) ==> PairAt(k).1 < n && Slot(PairAt(k).0, PairAt(k).1) == k
  {
    forall i: nat, j: nat | i < j < n
      ensures Slot(i, j) < PairCount(n) && PairAt(Slot(i, j)) == (i, j)
    {
      SlotInRange(i, j, n);
      var p := PairAt(Slot(i, j));
      SlotInjective(i, j, p.0, p.1);
    }
    forall k: nat | k < PairCount(n) ensures PairAt(k).1 < n {
      var j := PairAt(k).1;
      if n <= j {
        SlotWithinRow(PairAt(k).0, j);
        PairCountMonotone(n, j);
      }
    }
  }

  /** The averages of x[j] with every earlier observation, in the order the
      inner loop writes them. */
  function Row(x: seq<real>, j: nat): (row: seq<real>)
    requires j < |x|
  {
    seq(j, i requires 0 <= i < j => (x[i] + x[j]) / 2.0)
  }

  /** The Walsh averages of the pairs i < j < n, row j after row j - 1. */
  function AveragesUpTo(x: seq<real>, n: nat): (w: seq<real>)
    requires n <= |x|
  {
    if n == 0 then [] else AveragesUpTo(x, n - 1) + Row(x, n - 1)
  }

  /** The reference contents of the buffer: all Walsh averages with i < j. */
  function WalshAverages(x: seq<real>): (w: seq<real>) {
    AveragesUpTo(x, |x|)
  }

  /** The reference list has one entry per pair. */
  lemma {:induction false} AveragesUpToLength(x: seq<real>, n: nat)
    requires n <= |x|
    ensures |AveragesUpTo(x, n)| == PairCount(n)
  {
    if n > 0 {
      AveragesUpToLength(x, n - 1);
    }
  }

  /** The entry for the pair (i, j) sits in the slot the triangular index
      map gives it. */
  lemma {:induction false} AveragesUpToAt(x: seq<real>, n: nat, i: nat, j: nat)
    requires i < j < n <= |x|
    ensures Slot(i, j) < |AveragesUpTo(x, n)| && AveragesUpTo(x, n)[Slot(i, j)] == (x[i] + x[j]) / 2.0
  {
    AveragesUpToLength(x, n);
    AveragesUpToLength(x, n - 1);
    SlotWithinRow(i, j);
    if j < n - 1 {
      AveragesUpToAt(x, n - 1, i, j);
      SlotInRange(i, j, n - 1);
    }
  }

  /** One entry of the reference list, with no quantifier in sight. */
  lemma AverageAtSlot(x: seq<real>, i: nat, j: nat)
    requires i < j < |x|
    ensures Slot(i, j) < |WalshAverages(x)| && WalshAverages(x)[Slot(i, j)] == (x[i] + x[j]) / 2.0
  {
    AveragesUpToAt(x, |x|, i, j);
  }

  /** The buffer holds exactly the Walsh averages of the distinct pairs:
      slot k holds the average of the pair PairAt(k), which has i < j, and
      each pair i < j appears in exactly one slot. */
  lemma WalshAveragesAreThePairs(x: seq<real>)
    ensures |WalshAverages(x)| == PairCount(|x|)
    ensures forall k :: 0 <= k < |WalshAverages(x)| ==>
      PairAt(k).0 < PairAt(k).1 < |x| && WalshAverages(x)[k] == (x[PairAt(k).0] + x[PairAt(k).1]) / 2.0
    ensures forall i: nat, j: nat :: i < j < |x| ==>
      Slot(i, j) < |WalshAverages(x)| && WalshAverages(x)[Slot(i, j)] == (x[i] + x[j]) / 2.0
  {
    AveragesUpToLength(x, |x|);
    SlotBijection(|x|);
    forall i: nat, j: nat | i < j < |x| ensures Slot(i, j) < |WalshAverages(x)| && WalshAverages(x)[Slot(i, j)] == (x[i] + x[j]) / 2.0 {
      AverageAtSlot(x, i, j);
    }
    forall k | 0 <= k < |WalshAverages(x)|
      ensures PairAt(k).0 < PairAt(k).1 < |x| && WalshAverages(x)[k] == (x[PairAt(k).0] + x[PairAt(k).1]) / 2.0
    {
      AverageAtSlot(x, PairAt(k).0, PairAt(k).1);
    }
  }

  /** A single observation has no pair, so the estimator fails rather than
      returning the observation itself. */
  lemma SingleObservationFails(v: real)
    ensures MedianOf(WalshAverages([v])) == Err(EmptyVector)
  {
    AveragesUpToLength([v], 1);
  }

  /** Two observations give a single pair, so the estimate is their
      average: for 1.0 and 3.0 the buffer is [2.0] and the estimate 2.0. */
  lemma TwoObservationsGiveTheirAverage()
    ensures WalshAverages([1.0, 3.0]) == [2.0]
    ensures MedianOf(WalshAverages([1.0, 3.0])) == Ok(2.0)
  {
    var x := [1.0, 3.0];
    assert AveragesUpTo(x, 1) == [] by {
      assert AveragesUpTo(x, 0) == [] && Row(x, 0) == [];
    }
    assert Row(x, 1) == [2.0];
    MedianByCounts([2.0], 2.0);
    assert [2.0][1..] == [];
  }

  /** The expansion step of `cpp_hle1`: allocate n(n-1)/2 slots and fill
      slot i + j(j-1)/2 with (x[i] + x[j]) / 2 for every i < j. The loops
      visit the pairs in slot order, so each slot is written exactly once. */
  method WalshBuffer(x: seq<real>) returns (avg: array<real>)
    ensures fresh(avg)
    ensures avg[..] == WalshAverages(x)
  {
    var len := |x|;
    PairCountClosedForm(len);
    avg := new real[len * (len - 1) / 2];
    ghost var w := WalshAverages(x);
    assert |w| == PairCount(len) by { AveragesUpToLength(x, len); }
    var j := 1;
    while j < len
      invariant 1 <= j && (j <= len || len == 0)
      invariant PairCount(j) <= avg.Length
      invariant forall k :: 0 <= k < PairCount(j) ==> avg[k] == w[k]
    {
      PairCountClosedForm(j);
      PairCountMonotone(j + 1, len);
      var rowStart := (j * (j - 1)) / 2;
      var i := 0;
      while i < j
        invariant 0 <= i <= j
        invariant PairCount(j) + j <= avg.Length
        invariant forall k :: 0 <= k < Slot(i, j) ==> avg[k] == w[k]
      {
        AverageAtSlot(x, i, j);
        avg[i + rowStart] := (x[i] + x[j]) / 2.0;
        assert Slot(i + 1, j) == Slot(i, j) + 1;
        i := i + 1;
      }
      j := j + 1;
    }
    assert PairCount(j) == PairCount(len) == avg.Length == |w|;
  }

  /** `cpp_hle1`: the median of the Walsh averages of all pairs i < j. It
      fails with the empty-vector error exactly when there are fewer than
      two observations, because the buffer is then empty. */
  method Hle1(x: seq<real>) returns (r: Result<real>)
    ensures r == MedianOf(WalshAverages(x))
    ensures r.Err? <==> |x| <= 1
  {
    var avg := WalshBuffer(x);
    r := Median(avg);
    AveragesUpToLength(x, |x|);
    PairCountIsZero(|x|);
  }
}
