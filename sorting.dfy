/**
 * Sorting of (value, weight) records by value: the comparison sort used for
 * small inputs, the LSD radix sort over the 8 bytes of a double's bit
 * pattern, the counting sort for small integer ranges, and the dispatch
 * between them.
 *
 * The bit pattern of a double is a parameter `bitsOf`; the radix sort is
 * correct exactly when that pattern, read as sign-magnitude, orders the
 * values present (`EncodesOrder`), which IEEE 754 guarantees for finite
 * doubles.
 */
module Sorting {
  import opened Pairs
  import opened Bucketing
  import opened RadixKeys

  // ---------------------------------------------------------------------
  // Comparison sort: `qsort` with the value comparator.
  // ---------------------------------------------------------------------

  /**
   * Sorts a[0..n) by value. `qsort` promises an ordered permutation and
   * nothing about the order of equal values; an insertion sort stands in
   * for it and is specified by no more than that promise.
   */
  method ComparisonSort(a: array<ValueWeight>, n: nat)
    requires n <= a.Length
    modifies a
    ensures SortedByValue(a[..n])
    ensures multiset(a[..n]) == multiset(old(a[..n]))
    ensures a[n..] == old(a[n..])
  {
    if n == 0 {
      return;
    }
    var i := 1;
    while i < n
      invariant 1 <= i <= n
      invariant SortedByValue(a[..i])
      invariant multiset(a[..n]) == multiset(old(a[..n]))
      invariant a[n..] == old(a[n..])
    {
      Insert(a, n, i);
      i := i + 1;
    }
  }

  /**
   * Insertion in progress at position j: a[0..i] is ordered apart from the
   * record at j, which is smaller than everything after it up to i.
   */
  ghost predicate Hole(s: seq<ValueWeight>, i: nat, j: nat)
  {
    j <= i < |s|
    && (forall p, q :: 0 <= p < q <= i && p != j && q != j ==> s[p].value <= s[q].value)
    && (forall q :: j < q <= i ==> s[j].value < s[q].value)
  }

  lemma HoleStart(s: seq<ValueWeight>, i: nat)
    requires i < |s| && SortedByValue(s[..i])
    ensures Hole(s, i, i)
  {
    forall p, q | 0 <= p < q <= i && p != i && q != i ensures s[p].value <= s[q].value {
      assert s[..i][p] == s[p] && s[..i][q] == s[q];
    }
  }

  lemma HoleStep(s: seq<ValueWeight>, i: nat, j: nat)
    requires Hole(s, i, j) && 0 < j && s[j - 1].value > s[j].value
    ensures Hole(s[j - 1 := s[j]][j := s[j - 1]], i, j - 1)
  {
  }

  lemma HoleDone(s: seq<ValueWeight>, i: nat, j: nat)
    requires Hole(s, i, j) && (j == 0 || s[j - 1].value <= s[j].value)
    ensures SortedByValue(s[..i + 1])
  {
  }

  lemma SwapPermutes(s: seq<ValueWeight>, t: seq<ValueWeight>, j: nat, n: nat)
    requires 0 < j < n <= |s| && t == s[j - 1 := s[j]][j := s[j - 1]]
    ensures multiset(t[..n]) == multiset(s[..n])
    ensures t[n..] == s[n..]
  {
    assert t[..n] == s[..n][j - 1 := s[j]][j := s[j - 1]];
  }

  /** Moves a[i] left past every larger value, keeping a[0..i] ordered. */
  method Insert(a: array<ValueWeight>, n: nat, i: nat)
    requires i < n <= a.Length && SortedByValue(a[..i])
    modifies a
    ensures SortedByValue(a[..i + 1])
    ensures multiset(a[..n]) == multiset(old(a[..n]))
    ensures a[n..] == old(a[n..])
  {
    HoleStart(a[..], i);
    var j: nat := i;
    while j > 0 && a[j - 1].value > a[j].value
      invariant j <= i && Hole(a[..], i, j)
      invariant multiset(a[..n]) == multiset(old(a[..n]))
      invariant a[n..] == old(a[n..])
    {
      ghost var s := a[..];
      HoleStep(s, i, j);
      a[j - 1], a[j] := a[j], a[j - 1];
      assert a[..] == s[j - 1 := s[j]][j := s[j - 1]];
      SwapPermutes(s, a[..], j, n);
      j := j - 1;
    }
    HoleDone(a[..], i, j);
    assert a[..][..i + 1] == a[..i + 1];
  }

  // ---------------------------------------------------------------------
  // Radix sort.
  // ---------------------------------------------------------------------

  /** The transformed 64-bit key of a record. */
  function RadixKeyOf(bitsOf: real -> U64, x: ValueWeight): U64
  {
    Key(bitsOf(x.value))
  }

  /** The bucket of a record in the pass over byte b: `(key >> 8 * b) & 0xFF`. */
  function ByteKey(bitsOf: real -> U64, b: nat): ValueWeight -> nat
  {
    x => Digit(RadixKeyOf(bitsOf, x), b)
  }

  /** The rank that the passes `ps` give a record. */
  function RankOf(bitsOf: real -> U64, ps: seq<nat>): ValueWeight -> int
  {
    x => Rank(RadixKeyOf(bitsOf, x), ps)
  }

  /** The records after stable passes over the bytes `ps`, in that order. */
  function Passes(s: seq<ValueWeight>, bitsOf: real -> U64, ps: seq<nat>): seq<ValueWeight>
  {
    if ps == [] then s
    else Bucketed(Passes(s, bitsOf, ps[..|ps| - 1]), ByteKey(bitsOf, ps[|ps| - 1]), 256)
  }

  /**
   * The bit patterns of the values present, read as sign-magnitude, are in
   * the order of the values.
   */
  ghost predicate EncodesOrder(s: seq<ValueWeight>, bitsOf: real -> U64)
  {
    forall x, y :: x in s && y in s && x.value < y.value ==>
      SignMagnitude(bitsOf(x.value)) < SignMagnitude(bitsOf(y.value))
  }

  /** The bit patterns of a set of values, read as sign-magnitude, are in the order of the values. */
  ghost predicate EncodesValues(bitsOf: real -> U64, xs: set<real>)
  {
    forall x, y :: x in xs && y in xs && x < y ==> SignMagnitude(bitsOf(x)) < SignMagnitude(bitsOf(y))
  }

  /** Records whose values all lie in an encoded set are encoded in order. */
  lemma EncodesValuesOrder(s: seq<ValueWeight>, bitsOf: real -> U64, xs: set<real>)
    requires EncodesValues(bitsOf, xs)
    requires forall x :: x in s ==> x.value in xs
    ensures EncodesOrder(s, bitsOf)
  {
  }

  lemma PassesSnoc(s: seq<ValueWeight>, bitsOf: real -> U64, ps: seq<nat>, b: nat)
    ensures Passes(s, bitsOf, ps + [b]) == Bucketed(Passes(s, bitsOf, ps), ByteKey(bitsOf, b), 256)
  {
    assert (ps + [b])[..|ps|] == ps;
  }

  lemma ByteKeysBelow(s: seq<ValueWeight>, bitsOf: real -> U64, b: nat)
    ensures KeysBelow(s, ByteKey(bitsOf, b), 256)
  {
  }

  /** Every pass only reorders: the records are a permutation of the input. */
  lemma {:induction false} PassesPermutes(s: seq<ValueWeight>, bitsOf: real -> U64, ps: seq<nat>)
    ensures multiset(Passes(s, bitsOf, ps)) == multiset(s)
    ensures |Passes(s, bitsOf, ps)| == |s|
    decreases |ps|
  {
    if ps != [] {
      var t := Passes(s, bitsOf, ps[..|ps| - 1]);
      PassesPermutes(s, bitsOf, ps[..|ps| - 1]);
      ByteKeysBelow(t, bitsOf, ps[|ps| - 1]);
      BucketedPermutes(t, ByteKey(bitsOf, ps[|ps| - 1]), 256);
    }
  }

  /**
   * Stable passes over the bytes `ps` leave the records ordered by the rank
   * those passes define: the last pass's byte decides first.
   */
  lemma {:induction false} PassesRanked(s: seq<ValueWeight>, bitsOf: real -> U64, ps: seq<nat>)
    ensures SortedBy(Passes(s, bitsOf, ps), RankOf(bitsOf, ps))
    decreases |ps|
  {
    if ps != [] {
      var init := ps[..|ps| - 1];
      var b := ps[|ps| - 1];
      assert init + [b] == ps;
      var t := Passes(s, bitsOf, init);
      PassesRanked(s, bitsOf, init);
      var out := Passes(s, bitsOf, ps);
      forall i, j | 0 <= i < j < |out| ensures RankOf(bitsOf, ps)(out[i]) <= RankOf(bitsOf, ps)(out[j]) {
        BucketedSortsLex(t, ByteKey(bitsOf, b), 256, RankOf(bitsOf, init), i, j);
        RankStep(RadixKeyOf(bitsOf, out[i]), RadixKeyOf(bitsOf, out[j]), init, b);
      }
    }
  }

  /**
   * Passes over bytes 0, 1, ..., 7 sort by value: the byte order the radix
   * sort needs.
   */
  lemma RadixAscendingSorts(s: seq<ValueWeight>, bitsOf: real -> U64)
    requires EncodesOrder(s, bitsOf)
    ensures SortedByValue(Passes(s, bitsOf, Ascending(8)))
  {
    var out := Passes(s, bitsOf, Ascending(8));
    PassesRanked(s, bitsOf, Ascending(8));
    PassesPermutes(s, bitsOf, Ascending(8));
    forall i, j | 0 <= i < j < |out| ensures out[i].value <= out[j].value {
      RankAscendingIsKey(RadixKeyOf(bitsOf, out[i]));
      RankAscendingIsKey(RadixKeyOf(bitsOf, out[j]));
      assert out[i] in multiset(out) && out[j] in multiset(out);
      KeyedValueOrder(out[i], out[j], bitsOf);
    }
  }

  /** Records whose keys are ordered have ordered values when the patterns encode the value order. */
  lemma KeyedValueOrder(x: ValueWeight, y: ValueWeight, bitsOf: real -> U64)
    requires RadixKeyOf(bitsOf, x) <= RadixKeyOf(bitsOf, y)
    requires y.value < x.value ==> SignMagnitude(bitsOf(y.value)) < SignMagnitude(bitsOf(x.value))
    ensures x.value <= y.value
  {
    KeyOrder(bitsOf(y.value), bitsOf(x.value));
  }

  /**
   * Passes over bytes 7, 6, ..., 0 (the order the radix sort runs them)
   * make byte 0 the most significant: with the IEEE 754 patterns of 1.0 and
   * 2.0, no record of value 1.0 comes before a record of value 2.0.
   */
  lemma RadixDescendingMisorders(s: seq<ValueWeight>, bitsOf: real -> U64, i: nat, j: nat)
    requires bitsOf(1.0) == 0x3FF0_0000_0000_0000 && bitsOf(2.0) == 0x4000_0000_0000_0000
    requires i < j < |Passes(s, bitsOf, Descending(8))|
    ensures Passes(s, bitsOf, Descending(8))[i].value == 1.0 ==> Passes(s, bitsOf, Descending(8))[j].value != 2.0
  {
    var out := Passes(s, bitsOf, Descending(8));
    PassesRanked(s, bitsOf, Descending(8));
    var ps := Descending(8);
    assert ps == [7, 6, 5, 4, 3, 2, 1, 0];
    RankDescendingOneTwo();
    assert RankOf(bitsOf, ps)(out[i]) <= RankOf(bitsOf, ps)(out[j]);
  }

  lemma IndexOf(s: seq<ValueWeight>, x: ValueWeight) returns (i: nat)
    requires x in multiset(s)
    ensures i < |s| && s[i] == x
  {
    i :| i < |s| && s[i] == x;
  }

  /**
   * The finding about the radix sort as written: when the input holds both
   * a 2.0 and a 1.0, passes over bytes 7, 6, ..., 0 do not sort it, even
   * though the IEEE 754 patterns encode the order of the values.
   */
  lemma RadixDescendingUnsorted(s: seq<ValueWeight>, bitsOf: real -> U64, x: ValueWeight, y: ValueWeight)
    requires bitsOf(1.0) == 0x3FF0_0000_0000_0000 && bitsOf(2.0) == 0x4000_0000_0000_0000
    requires EncodesOrder(s, bitsOf)
    requires x in s && y in s && x.value == 2.0 && y.value == 1.0
    ensures !SortedByValue(Passes(s, bitsOf, Descending(8)))
  {
    var out := Passes(s, bitsOf, Descending(8));
    PassesPermutes(s, bitsOf, Descending(8));
    var i := IndexOf(out, x);
    var j := IndexOf(out, y);
    if j < i {
      RadixDescendingMisorders(s, bitsOf, j, i);
    }
    assert i < j && out[i].value > out[j].value;
  }

  /** The passes the radix sort as written has run when it reaches byte b: 7, 6, ..., b + 1. */
  function PassesAbove(b: int): seq<nat>
    requires -1 <= b <= 7
    decreases 7 - b
  {
    if b == 7 then [] else PassesAbove(b + 1) + [b + 1]
  }

  lemma PassesAboveAll()
    ensures PassesAbove(-1) == Descending(8)
  {
    assert PassesAbove(-1) == [7, 6, 5, 4, 3, 2, 1, 0];
    assert Descending(8) == [7, 6, 5, 4, 3, 2, 1, 0];
  }

  /**
   * The radix sort as the utility file writes it: the comparison sort below
   * 256 records, otherwise stable byte passes from byte 7 down to byte 0.
   */
  method RadixSortAsWritten(a: array<ValueWeight>, n: nat, bitsOf: real -> U64)
    requires n <= a.Length
    modifies a
    ensures multiset(a[..n]) == multiset(old(a[..n]))
    ensures a[n..] == old(a[n..])
    ensures n < 256 ==> SortedByValue(a[..n])
    ensures n >= 256 ==> a[..n] == Passes(old(a[..n]), bitsOf, Descending(8))
  {
    if n <= 1 {
      return;
    }
    if n < 256 {
      ComparisonSort(a, n);
      return;
    }
    ghost var s := a[..n];
    BytePassesDownward(a, n, bitsOf);
    PassesPermutes(s, bitsOf, Descending(8));
  }

  /** The byte loop of the radix sort as written: passes over bytes 7, 6, ..., 0. */
  method BytePassesDownward(a: array<ValueWeight>, n: nat, bitsOf: real -> U64)
    requires n <= a.Length
    modifies a
    ensures a[..n] == Passes(old(a[..n]), bitsOf, Descending(8))
    ensures a[n..] == old(a[n..])
  {
    ghost var s := a[..n];
    var b: int := 7;
    while b >= 0
      invariant -1 <= b <= 7
      invariant a[..n] == Passes(s, bitsOf, PassesAbove(b))
      invariant a[n..] == old(a[n..])
    {
      var byte: nat := b;
      CountingPass(a, n, ByteKey(bitsOf, byte), 256);
      PassesSnoc(s, bitsOf, PassesAbove(b), byte);
      assert PassesAbove(b - 1) == PassesAbove(b) + [byte];
      b := b - 1;
    }
    PassesAboveAll();
  }

  /**
   * The radix sort with its passes in the order an LSD radix sort needs:
   * byte 0 first, byte 7 last.
   */
  method RadixSort(a: array<ValueWeight>, n: nat, bitsOf: real -> U64)
    requires n <= a.Length && EncodesOrder(a[..n], bitsOf)
    modifies a
    ensures multiset(a[..n]) == multiset(old(a[..n]))
    ensures a[n..] == old(a[n..])
    ensures SortedByValue(a[..n])
    ensures n >= 256 ==> a[..n] == Passes(old(a[..n]), bitsOf, Ascending(8))
  {
    if n <= 1 {
      return;
    }
    if n < 256 {
      ComparisonSort(a, n);
      return;
    }
    ghost var s := a[..n];
    BytePassesUpward(a, n, bitsOf);
    PassesPermutes(s, bitsOf, Ascending(8));
    RadixAscendingSorts(s, bitsOf);
  }

  /** The byte loop of the corrected radix sort: passes over bytes 0, 1, ..., 7. */
  method BytePassesUpward(a: array<ValueWeight>, n: nat, bitsOf: real -> U64)
    requires n <= a.Length
    modifies a
    ensures a[..n] == Passes(old(a[..n]), bitsOf, Ascending(8))
    ensures a[n..] == old(a[n..])
  {
    ghost var s := a[..n];
    var b := 0;
    while b < 8
      invariant 0 <= b <= 8
      invariant a[..n] == Passes(s, bitsOf, Ascending(b))
      invariant a[n..] == old(a[n..])
    {
      CountingPass(a, n, ByteKey(bitsOf, b), 256);
      PassesSnoc(s, bitsOf, Ascending(b), b);
      b := b + 1;
    }
  }

  // ---------------------------------------------------------------------
  // Counting sort and the dispatch.
  // ---------------------------------------------------------------------

  /** The smallest value, as the scan that keeps the running minimum finds it. */
  function MinValue(s: seq<ValueWeight>): real
    requires |s| > 0
  {
    if |s| == 1 then s[0].value
    else
      var m := MinValue(s[..|s| - 1]);
      if s[|s| - 1].value < m then s[|s| - 1].value else m
  }

  /** The largest value, as the scan that keeps the running maximum finds it. */
  function MaxValue(s: seq<ValueWeight>): real
    requires |s| > 0
  {
    if |s| == 1 then s[0].value
    else
      var m := MaxValue(s[..|s| - 1]);
      if s[|s| - 1].value > m then s[|s| - 1].value else m
  }

  /** MinValue and MaxValue bound every value and are values of the input. */
  lemma {:induction false} ValueBounds(s: seq<ValueWeight>)
    requires |s| > 0
    ensures forall i :: 0 <= i < |s| ==> MinValue(s) <= s[i].value <= MaxValue(s)
    ensures exists i :: 0 <= i < |s| && s[i].value == MinValue(s)
    ensures exists i :: 0 <= i < |s| && s[i].value == MaxValue(s)
    decreases |s|
  {
    if |s| > 1 {
      var init := s[..|s| - 1];
      ValueBounds(init);
      var k :| 0 <= k < |init| && init[k].value == MinValue(init);
      var l :| 0 <= l < |init| && init[l].value == MaxValue(init);
      assert s[k] == init[k] && s[l] == init[l];
      forall i | 0 <= i < |s| - 1 ensures MinValue(s) <= s[i].value <= MaxValue(s) {
        assert s[i] == init[i];
      }
    }
  }

  /** Every value is a whole number. */
  ghost predicate AllIntegral(s: seq<ValueWeight>)
  {
    forall i :: 0 <= i < |s| ==> s[i].value == s[i].value.Floor as real
  }

  /**
   * The counting sort's own test: at least two records and a whole-number
   * range max - min in (0, 10000]; otherwise it falls back to the radix sort.
   */
  ghost predicate CountingApplies(s: seq<ValueWeight>)
  {
    |s| >= 2 &&
    var range := MaxValue(s) - MinValue(s);
    0.0 < range <= 10000.0 && range == range.Floor as real
  }

  /** `range_int`: one bucket per whole number from min to max. */
  function CountingBuckets(s: seq<ValueWeight>): nat
    requires |s| > 0 && MaxValue(s) >= MinValue(s)
  {
    (MaxValue(s) - MinValue(s)).Floor + 1
  }

  /** `(int)(value - min_val)`, which is the floor since the difference is never negative. */
  function CountBucket(lo: real): ValueWeight -> nat
  {
    (x: ValueWeight) => if x.value >= lo then (x.value - lo).Floor else 0
  }

  /**
   * Every bucket lies in [0, range_int): the guard in the counting loop that
   * falls back to the radix sort can never fire.
   */
  lemma BucketInRange(s: seq<ValueWeight>)
    requires CountingApplies(s)
    ensures forall i :: 0 <= i < |s| ==> s[i].value >= MinValue(s) && CountBucket(MinValue(s))(s[i]) < CountingBuckets(s)
  {
    ValueBounds(s);
  }

  /** With whole-number values, bucket order is value order, so the counting sort sorts. */
  lemma CountingSortOrders(s: seq<ValueWeight>)
    requires CountingApplies(s) && AllIntegral(s)
    ensures SortedByValue(Bucketed(s, CountBucket(MinValue(s)), CountingBuckets(s)))
  {
    var lo := MinValue(s);
    var key := CountBucket(lo);
    var out := Bucketed(s, key, CountingBuckets(s));
    ValueBounds(s);
    BucketInRange(s);
    BucketedPermutes(s, key, CountingBuckets(s));
    var k :| 0 <= k < |s| && s[k].value == lo;
    forall i, j | 0 <= i < j < |out| ensures out[i].value <= out[j].value {
      BucketedOrdered(s, key, CountingBuckets(s), i, j);
      var p := IndexOf(s, out[i]);
      var q := IndexOf(s, out[j]);
      BucketOrderIsValueOrder(s[p], s[q], lo);
    }
  }

  lemma BucketOrderIsValueOrder(x: ValueWeight, y: ValueWeight, lo: real)
    requires x.value == x.value.Floor as real && y.value == y.value.Floor as real && lo == lo.Floor as real
    requires x.value >= lo && y.value >= lo && CountBucket(lo)(x) <= CountBucket(lo)(y)
    ensures x.value <= y.value
  {
    assert x.value - lo == (x.value.Floor - lo.Floor) as real;
    assert y.value - lo == (y.value.Floor - lo.Floor) as real;
  }

  /**
   * The counting sort: scans for min and max, falls back to the radix sort
   * unless `CountingApplies`, and otherwise runs one stable counting pass
   * with a bucket per whole number of the range.
   */
  method CountingSort(a: array<ValueWeight>, n: nat, bitsOf: real -> U64)
    requires n <= a.Length && EncodesOrder(a[..n], bitsOf)
    modifies a
    ensures multiset(a[..n]) == multiset(old(a[..n]))
    ensures a[n..] == old(a[n..])
    ensures CountingApplies(old(a[..n])) ==>
      a[..n] == Bucketed(old(a[..n]), CountBucket(MinValue(old(a[..n]))), CountingBuckets(old(a[..n])))
    ensures !CountingApplies(old(a[..n])) ==> SortedByValue(a[..n])
    ensures AllIntegral(old(a[..n])) ==> SortedByValue(a[..n])
  {
    if n <= 1 {
      return;
    }
    ghost var s := a[..n];
    var lo, hi := ScanRange(a, n);
    var range := hi - lo;
    if range <= 0.0 || range > 10000.0 || range != range.Floor as real {
      assert !CountingApplies(s);
      RadixSort(a, n, bitsOf);
      return;
    }
    assert CountingApplies(s);
    CountingPlace(a, n, lo, range.Floor + 1);
    if AllIntegral(s) {
      CountingSortOrders(s);
    }
  }

  /** The counting and placing loops of the counting sort: one pass with a bucket per whole number. */
  method CountingPlace(a: array<ValueWeight>, n: nat, lo: real, rangeInt: nat)
    requires n <= a.Length && CountingApplies(a[..n])
    requires lo == MinValue(a[..n]) && rangeInt == CountingBuckets(a[..n])
    modifies a
    ensures a[..n] == Bucketed(old(a[..n]), CountBucket(lo), rangeInt)
    ensures multiset(a[..n]) == multiset(old(a[..n]))
    ensures a[n..] == old(a[n..])
  {
    ghost var s := a[..n];
    BucketInRange(s);
    assert forall i :: 0 <= i < n ==> a[i] == s[i];
    CountingPass(a, n, CountBucket(lo), rangeInt);
    BucketedPermutes(s, CountBucket(lo), rangeInt);
  }

  /** The min/max scan of the counting sort. */
  method ScanRange(a: array<ValueWeight>, n: nat) returns (lo: real, hi: real)
    requires 0 < n <= a.Length
    ensures lo == MinValue(a[..n]) && hi == MaxValue(a[..n])
  {
    lo, hi := a[0].value, a[0].value;
    assert a[..1] == [a[0]];
    var i := 1;
    while i < n
      invariant 1 <= i <= n
      invariant lo == MinValue(a[..i]) && hi == MaxValue(a[..i])
    {
      if a[i].value < lo {
        lo := a[i].value;
      }
      if a[i].value > hi {
        hi := a[i].value;
      }
      assert a[..i + 1][..i] == a[..i];
      i := i + 1;
    }
  }

  /**
   * The dispatch takes the counting sort for more than 100 whole-number
   * values spanning a range in (0, 1000].
   */
  ghost predicate UsesCounting(s: seq<ValueWeight>)
  {
    |s| > 100 && AllIntegral(s) &&
    var range := MaxValue(s) - MinValue(s);
    0.0 < range <= 1000.0
  }

  /** Whenever the dispatch picks the counting sort, the counting sort's own test passes. */
  lemma DispatchCountingApplies(s: seq<ValueWeight>)
    requires UsesCounting(s)
    ensures CountingApplies(s)
  {
    ValueBounds(s);
    var k :| 0 <= k < |s| && s[k].value == MinValue(s);
    var l :| 0 <= l < |s| && s[l].value == MaxValue(s);
    assert MaxValue(s) - MinValue(s) == (s[l].value.Floor - s[k].value.Floor) as real;
  }

  /**
   * Sorts a[0..n) by value: the comparison sort below 32 records, the
   * counting sort for small whole-number ranges, the radix sort otherwise.
   */
  method OptimizedSort(a: array<ValueWeight>, n: nat, bitsOf: real -> U64)
    requires n <= a.Length && EncodesOrder(a[..n], bitsOf)
    modifies a
    ensures SortedByValue(a[..n])
    ensures multiset(a[..n]) == multiset(old(a[..n]))
    ensures a[n..] == old(a[n..])
    ensures UsesCounting(old(a[..n])) ==>
      a[..n] == Bucketed(old(a[..n]), CountBucket(MinValue(old(a[..n]))), CountingBuckets(old(a[..n])))
    ensures n >= 256 && !UsesCounting(old(a[..n])) ==> a[..n] == Passes(old(a[..n]), bitsOf, Ascending(8))
  {
    if n <= 1 {
      return;
    }
    if n < 32 {
      ComparisonSort(a, n);
      return;
    }
    ghost var s := a[..n];
    var lo, hi, allIntegers := ScanValues(a, n);
    var range := hi - lo;
    if allIntegers && range > 0.0 && range <= 1000.0 && n > 100 {
      assert UsesCounting(s);
      DispatchCountingApplies(s);
      CountingSort(a, n, bitsOf);
    } else {
      assert !UsesCounting(s);
      RadixSort(a, n, bitsOf);
    }
  }

  /** The scan of the dispatch: min, max, and whether every value is whole. */
  method ScanValues(a: array<ValueWeight>, n: nat) returns (lo: real, hi: real, allIntegers: bool)
    requires 0 < n <= a.Length
    ensures lo == MinValue(a[..n]) && hi == MaxValue(a[..n])
    ensures allIntegers == AllIntegral(a[..n])
  {
    lo, hi := a[0].value, a[0].value;
    allIntegers := true;
    assert a[..1] == [a[0]];
    var i := 0;
    while i < n
      invariant 0 <= i <= n
      invariant i == 0 ==> lo == a[0].value && hi == a[0].value
      invariant i > 0 ==> lo == MinValue(a[..i]) && hi == MaxValue(a[..i])
      invariant allIntegers == AllIntegral(a[..i])
    {
      if a[i].value < lo {
        lo := a[i].value;
      }
      if a[i].value > hi {
        hi := a[i].value;
      }
      if a[i].value != a[i].value.Floor as real {
        allIntegers := false;
      }
      assert a[..i + 1][..i] == a[..i];
      i := i + 1;
    }
  }
}
