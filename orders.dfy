/** Ascending order over samples of reals, and the order statistics the
    selection routine is specified against: the element at index k of the
    ascending arrangement of a sample. */
module Orders {

  /** Every element is <= every element that comes after it. */
  ghost predicate Ascending(s: seq<real>) {
    forall i, j :: 0 <= i < j < |s| ==> s[i] <= s[j]
  }

  /** Every element before index k is <= every element from index k on:
      the shape a range has after selecting position k (section 25.8.3
      [alg.nth.element] of ISO/IEC 14882:2020). */
  ghost predicate SplitAt(s: seq<real>, k: int)
    requires 0 <= k <= |s|
  {
    forall i, j :: 0 <= i < k <= j < |s| ==> s[i] <= s[j]
  }

  /** Places x in front of the first element of s that is not smaller. */
  function Insert(x: real, s: seq<real>): (r: seq<real>)
    ensures |r| == |s| + 1
    ensures multiset(r) == multiset(s) + multiset{x}
  {
    if s == [] || x <= s[0] then
      [x] + s
    else
      assert s == [s[0]] + s[1..];
      [s[0]] + Insert(x, s[1..])
  }

  /** Prepending an element no larger than the head keeps a sequence ascending. */
  lemma ConsAscending(h: real, t: seq<real>)
    requires Ascending(t)
    requires t == [] || h <= t[0]
    ensures Ascending([h] + t)
  {
    forall i, j | 0 <= i < j < |t| + 1 ensures ([h] + t)[i] <= ([h] + t)[j] {
      if i == 0 {
        assert t[0] <= t[j - 1];
      } else {
        assert t[i - 1] <= t[j - 1];
      }
    }
  }

  /** Inserting into an ascending sequence keeps it ascending. */
  lemma {:induction false} InsertKeepsAscending(x: real, s: seq<real>)
    requires Ascending(s)
    ensures Ascending(Insert(x, s))
  {
    if s == [] || x <= s[0] {
      ConsAscending(x, s);
    } else {
      var rest := Insert(x, s[1..]);
      assert Ascending(s[1..]) by {
        forall i, j | 0 <= i < j < |s| - 1 ensures s[1..][i] <= s[1..][j] {
          assert s[i + 1] <= s[j + 1];
        }
      }
      InsertKeepsAscending(x, s[1..]);
      assert rest[0] == x || rest[0] == s[1] by {
        assert |s| == 1 || x <= s[1] ==> rest == [x] + s[1..];
      }
      assert |s| > 1 ==> s[0] <= s[1];
      ConsAscending(s[0], rest);
    }
  }

  /** The ascending arrangement of a sample (insertion sort). */
  function Sort(s: seq<real>): (r: seq<real>)
    ensures |r| == |s|
    ensures Ascending(r)
    ensures multiset(r) == multiset(s)
  {
    if s == [] then
      []
    else
      assert s == [s[0]] + s[1..];
      InsertKeepsAscending(s[0], Sort(s[1..]));
      Insert(s[0], Sort(s[1..]))
  }

  lemma MemberOfAscendingIsAtLeastHead(s: seq<real>, x: real)
    requires Ascending(s) && x in s
    ensures s[0] <= x
  {
    var m :| 0 <= m < |s| && s[m] == x;
    assert m == 0 || s[0] <= s[m];
  }

  /** Two ascending sequences with the same elements are the same sequence. */
  lemma {:induction false} AscendingUnique(a: seq<real>, b: seq<real>)
    requires Ascending(a) && Ascending(b)
    requires multiset(a) == multiset(b)
    ensures a == b
  {
    if a == [] {
      assert |multiset(b)| == 0;
    } else {
      assert |b| == |multiset(b)| == |multiset(a)| == |a| > 0;
      assert a[0] in multiset(b) && b[0] in multiset(a);
      MemberOfAscendingIsAtLeastHead(b, a[0]);
      MemberOfAscendingIsAtLeastHead(a, b[0]);
      assert a[0] == b[0];
      assert a == [a[0]] + a[1..] && b == [b[0]] + b[1..];
      assert multiset(a[1..]) == multiset(a) - multiset{a[0]};
      assert multiset(b[1..]) == multiset(b) - multiset{b[0]};
      AscendingUnique(a[1..], b[1..]);
    }
  }

  /** The ascending arrangement depends only on the multiset of the sample:
      reordering the input never changes it. */
  lemma SortDependsOnlyOnMultiset(s: seq<real>, t: seq<real>)
    requires multiset(s) == multiset(t)
    ensures Sort(s) == Sort(t)
  {
    AscendingUnique(Sort(s), Sort(t));
  }

  /** Every ascending permutation of s is Sort(s). */
  lemma AscendingPermutationIsSort(s: seq<real>, t: seq<real>)
    requires Ascending(t) && multiset(t) == multiset(s)
    ensures t == Sort(s)
  {
    AscendingUnique(t, Sort(s));
  }

  lemma InPrefixOrSuffix(t: seq<real>, lo: int, hi: int, x: real) returns (m: int)
    requires 0 <= lo <= hi <= |t|
    requires x in multiset(t[lo..hi])
    ensures lo <= m < hi && t[m] == x
  {
    assert x in t[lo..hi];
    var d :| 0 <= d < hi - lo && t[lo..hi][d] == x;
    m := lo + d;
  }

  /** Two ascending runs joined by a middle element that separates them. */
  lemma AscendingAroundPivot(a: seq<real>, m: real, b: seq<real>)
    requires Ascending(a) && Ascending(b)
    requires forall i :: 0 <= i < |a| ==> a[i] <= m
    requires forall j :: 0 <= j < |b| ==> m <= b[j]
    ensures Ascending(a + [m] + b)
  {
    var u := a + [m] + b;
    forall i, j | 0 <= i < j < |u| ensures u[i] <= u[j] {
      if j < |a| {
      } else if i < |a| {
        assert u[i] <= m;
      } else if i > |a| {
      }
    }
  }

  /** Sorting introduces no new elements. */
  lemma SortedElementsComeFromInput(a: seq<real>)
    ensures forall i :: 0 <= i < |Sort(a)| ==> Sort(a)[i] in a
  {
    forall i | 0 <= i < |Sort(a)| ensures Sort(a)[i] in a {
      assert Sort(a)[i] in multiset(Sort(a));
    }
  }

  /** Sorting both sides of a split position k, around t[k], gives an
      ascending sequence. */
  lemma SortAroundSplit(t: seq<real>, k: int)
    requires 0 <= k < |t|
    requires SplitAt(t, k) && SplitAt(t, k + 1)
    ensures Ascending(Sort(t[..k]) + [t[k]] + Sort(t[k + 1..]))
  {
    var below, above := t[..k], t[k + 1..];
    forall x | x in below ensures x <= t[k] {
      var i :| 0 <= i < k && t[i] == x;
    }
    forall x | x in above ensures t[k] <= x {
      var j :| 0 <= j < |above| && above[j] == x;
      assert t[k] <= t[k + 1 + j];
    }
    SortedElementsComeFromInput(below);
    SortedElementsComeFromInput(above);
    AscendingAroundPivot(Sort(below), t[k], Sort(above));
  }

  /** Sorting the two sides of position k keeps the elements of t. */
  lemma SortAroundKeepsElements(t: seq<real>, k: int)
    requires 0 <= k < |t|
    ensures multiset(Sort(t[..k]) + [t[k]] + Sort(t[k + 1..])) == multiset(t)
  {
    MultisetWithout(t, k);
  }

  /** The post-state of selection pins down an order statistic: if t is a
      permutation of s and t is split both before and after position k,
      then t[k] is the element at index k of the ascending arrangement of s. */
  lemma SplitAtIsOrderStatistic(s: seq<real>, t: seq<real>, k: int)
    requires multiset(t) == multiset(s)
    requires 0 <= k < |t|
    requires SplitAt(t, k) && SplitAt(t, k + 1)
    ensures |s| == |t| && Sort(s)[k] == t[k]
  {
    assert |s| == |multiset(s)| == |multiset(t)| == |t|;
    var u := Sort(t[..k]) + [t[k]] + Sort(t[k + 1..]);
    SortAroundSplit(t, k);
    SortAroundKeepsElements(t, k);
    AscendingPermutationIsSort(s, u);
    assert u[k] == t[k];
  }

  lemma MultisetWithout(t: seq<real>, m: int)
    requires 0 <= m < |t|
    ensures t == t[..m] + [t[m]] + t[m + 1..]
    ensures multiset(t[..m] + t[m + 1..]) == multiset(t) - multiset{t[m]}
  {
    assert t == t[..m] + [t[m]] + t[m + 1..];
  }

  /** Removing the element y[0] from a sample with the same elements as z. */
  lemma SameElementsWithout(y: seq<real>, z: seq<real>) returns (m: int)
    requires multiset(y) == multiset(z) && y != []
    ensures 0 <= m < |z| && z[m] == y[0]
    ensures multiset(y[1..]) == multiset(z[..m] + z[m + 1..])
  {
    assert z[0..|z|] == z;
    m := InPrefixOrSuffix(z, 0, |z|, y[0]);
    MultisetWithout(z, m);
    MultisetWithout(y, 0);
    assert y[..0] + y[1..] == y[1..];
  }

  /** Number of elements strictly below v. */
  function CountBelow(s: seq<real>, v: real): nat {
    if s == [] then 0 else (if s[0] < v then 1 else 0) + CountBelow(s[1..], v)
  }

  /** Number of elements at most v. */
  function CountAtMost(s: seq<real>, v: real): nat {
    if s == [] then 0 else (if s[0] <= v then 1 else 0) + CountAtMost(s[1..], v)
  }

  lemma {:induction false} CountsOfConcat(a: seq<real>, b: seq<real>, v: real)
    ensures CountBelow(a + b, v) == CountBelow(a, v) + CountBelow(b, v)
    ensures CountAtMost(a + b, v) == CountAtMost(a, v) + CountAtMost(b, v)
  {
    if a == [] {
      assert a + b == b;
    } else {
      assert (a + b)[0] == a[0];
      assert (a + b)[1..] == a[1..] + b;
      CountsOfConcat(a[1..], b, v);
    }
  }

  /** The counts depend only on the multiset of the sample. */
  lemma {:induction false} CountsDependOnlyOnMultiset(s: seq<real>, t: seq<real>, v: real)
    requires multiset(s) == multiset(t)
    ensures CountBelow(s, v) == CountBelow(t, v)
    ensures CountAtMost(s, v) == CountAtMost(t, v)
  {
    if s == [] {
      assert |multiset(t)| == 0;
    } else {
      var m := SameElementsWithout(s, t);
      CountsDependOnlyOnMultiset(s[1..], t[..m] + t[m + 1..], v);
      CountsWithout(t, m, v);
    }
  }

  lemma CountsWithout(t: seq<real>, m: int, v: real)
    requires 0 <= m < |t|
    ensures CountBelow(t, v) == CountBelow(t[..m] + t[m + 1..], v) + (if t[m] < v then 1 else 0)
    ensures CountAtMost(t, v) == CountAtMost(t[..m] + t[m + 1..], v) + (if t[m] <= v then 1 else 0)
  {
    MultisetWithout(t, m);
    CountsOfConcat(t[..m], [t[m]] + t[m + 1..], v);
    CountsOfConcat([t[m]], t[m + 1..], v);
    CountsOfConcat(t[..m], t[m + 1..], v);
    assert t[..m] + ([t[m]] + t[m + 1..]) == t;
  }

  lemma {:induction false} CountsOfAscending(t: seq<real>, k: int, v: real)
    requires Ascending(t) && 0 <= k < |t|
    ensures t[k] < v ==> CountBelow(t, v) > k
    ensures v < t[k] ==> CountAtMost(t, v) <= k
    ensures t[k] == v ==> CountBelow(t, v) <= k < CountAtMost(t, v)
  {
    if k > 0 {
      assert t[0] <= t[k];
      CountsOfAscending(t[1..], k - 1, v);
    } else {
      // every element after the head is >= t[0]
      CountsAtLeastHead(t, v);
    }
  }

  lemma {:induction false} CountsAtLeastHead(t: seq<real>, v: real)
    requires Ascending(t) && t != []
    ensures v <= t[0] ==> CountBelow(t, v) == 0
    ensures v < t[0] ==> CountAtMost(t, v) == 0
    ensures t[0] <= v ==> CountAtMost(t, v) >= 1
  {
    if |t| > 1 {
      assert t[0] <= t[1];
      CountsAtLeastHead(t[1..], v);
    }
  }

  /** An independent characterisation of the order statistic: v is the
      element at index k of the ascending arrangement of s exactly when
      at most k elements of s lie strictly below v and more than k lie
      at or below v. */
  lemma OrderStatisticByCounts(s: seq<real>, k: int, v: real)
    requires 0 <= k < |s|
    ensures |Sort(s)| == |s|
    ensures Sort(s)[k] == v <==> CountBelow(s, v) <= k < CountAtMost(s, v)
  {
    var t := Sort(s);
    assert |t| == |multiset(t)| == |multiset(s)| == |s|;
    CountsDependOnlyOnMultiset(s, t, v);
    CountsOfAscending(t, k, v);
  }
}
