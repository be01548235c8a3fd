/**
 * The stable counting pass shared by the counting sort and by every byte pass
 * of the radix sort: count the keys, turn the counts into bucket ends, place
 * the records from the last one backwards at `--count[bucket]`, and copy the
 * buffer back.
 */
module Bucketing {

  /** The entries of `s` whose key is `d`, in their order in `s`. */
  function Select<T>(s: seq<T>, key: T -> nat, d: nat): seq<T>
  {
    if s == [] then []
    else Select(s[..|s| - 1], key, d) + (if key(s[|s| - 1]) == d then [s[|s| - 1]] else [])
  }

  /** The entries of `s` whose key is below `d`, in their order in `s`. */
  function Below<T>(s: seq<T>, key: T -> nat, d: nat): seq<T>
  {
    if s == [] then []
    else Below(s[..|s| - 1], key, d) + (if key(s[|s| - 1]) < d then [s[|s| - 1]] else [])
  }

  /** Bucket 0, then bucket 1, ..., then bucket d - 1: the output of one stable pass. */
  function Bucketed<T>(s: seq<T>, key: T -> nat, d: nat): seq<T>
  {
    if d == 0 then [] else Bucketed(s, key, d - 1) + Select(s, key, d - 1)
  }

  ghost predicate KeysBelow<T>(s: seq<T>, key: T -> nat, bound: nat)
  {
    forall i :: 0 <= i < |s| ==> key(s[i]) < bound
  }

  // ---------------------------------------------------------------------
  // Facts about Select.
  // ---------------------------------------------------------------------

  lemma SelectStep<T>(s: seq<T>, key: T -> nat, i: nat, d: nat)
    requires i < |s|
    ensures Select(s[..i + 1], key, d) == Select(s[..i], key, d) + (if key(s[i]) == d then [s[i]] else [])
  {
    assert s[..i + 1][..i] == s[..i];
  }

  lemma {:induction false} SelectKeys<T>(s: seq<T>, key: T -> nat, d: nat)
    ensures forall k :: 0 <= k < |Select(s, key, d)| ==> key(Select(s, key, d)[k]) == d
    ensures multiset(Select(s, key, d)) <= multiset(s)
    decreases |s|
  {
    if s != [] {
      SelectKeys(s[..|s| - 1], key, d);
      assert s == s[..|s| - 1] + [s[|s| - 1]];
    }
  }

  lemma {:induction false} SelectAppend<T>(a: seq<T>, b: seq<T>, key: T -> nat, d: nat)
    ensures Select(a + b, key, d) == Select(a, key, d) + Select(b, key, d)
    decreases |b|
  {
    if b == [] {
      assert a + b == a;
    } else {
      assert (a + b)[..|a + b| - 1] == a + b[..|b| - 1];
      SelectAppend(a, b[..|b| - 1], key, d);
    }
  }

  /** Selecting twice: keeps the bucket when the keys agree, empties it otherwise. */
  lemma {:induction false} SelectSelect<T>(s: seq<T>, key: T -> nat, e: nat, d: nat)
    ensures Select(Select(s, key, e), key, d) == if e == d then Select(s, key, d) else []
    decreases |s|
  {
    if s != [] {
      var x := s[|s| - 1];
      var tail := if key(x) == e then [x] else [];
      SelectSelect(s[..|s| - 1], key, e, d);
      SelectAppend(Select(s[..|s| - 1], key, e), tail, key, d);
      assert Select(tail, key, d) == if e == d then (if key(x) == d then [x] else []) else [] by {
        if tail != [] { assert tail[..0] == []; }
      }
    }
  }

  /** The entry at index j is the next one of its bucket after those of s[..j]. */
  lemma SelectNext<T>(s: seq<T>, key: T -> nat, j: nat)
    requires j < |s|
    ensures |Select(s[..j], key, key(s[j]))| < |Select(s, key, key(s[j]))|
    ensures Select(s, key, key(s[j]))[|Select(s[..j], key, key(s[j]))|] == s[j]
  {
    var b := key(s[j]);
    assert s == s[..j] + ([s[j]] + s[j + 1..]);
    SelectAppend(s[..j], [s[j]] + s[j + 1..], key, b);
    SelectAppend([s[j]], s[j + 1..], key, b);
    assert [s[j]][..0] == [];
    assert Select([s[j]], key, b) == [s[j]];
  }

  // ---------------------------------------------------------------------
  // Facts about Bucketed.
  // ---------------------------------------------------------------------

  lemma {:induction false} BucketedPrefix<T>(s: seq<T>, key: T -> nat, d: nat, e: nat)
    requires d <= e
    ensures |Bucketed(s, key, d)| <= |Bucketed(s, key, e)|
    ensures Bucketed(s, key, e)[..|Bucketed(s, key, d)|] == Bucketed(s, key, d)
    decreases e
  {
    if d < e {
      BucketedPrefix(s, key, d, e - 1);
    }
  }

  /** Bucket b of the output starts at |Bucketed(s, key, b)| and holds Select(s, key, b). */
  lemma BucketedAt<T>(s: seq<T>, key: T -> nat, b: nat, m: nat, bound: nat, k: int)
    requires b < bound && m < |Select(s, key, b)| && k == |Bucketed(s, key, b)| + m
    ensures 0 <= k < |Bucketed(s, key, bound)|
    ensures Bucketed(s, key, bound)[k] == Select(s, key, b)[m]
  {
    BucketedNext(s, key, b);
    AppendIndex(Bucketed(s, key, b), Select(s, key, b), m, k);
    BucketedPrefix(s, key, b + 1, bound);
    PrefixIndex(Bucketed(s, key, bound), Bucketed(s, key, b + 1), k);
  }

  lemma BucketedNext<T>(s: seq<T>, key: T -> nat, d: nat)
    ensures Bucketed(s, key, d + 1) == Bucketed(s, key, d) + Select(s, key, d)
  {
  }

  lemma AppendIndex<T>(u: seq<T>, v: seq<T>, m: nat, k: int)
    requires m < |v| && k == |u| + m
    ensures 0 <= k < |u + v| && (u + v)[k] == v[m]
  {
  }

  lemma PrefixIndex<T>(all: seq<T>, part: seq<T>, k: int)
    requires |part| <= |all| && all[..|part|] == part && 0 <= k < |part|
    ensures all[k] == part[k]
  {
    assert all[..|part|][k] == all[k];
  }

  /** Every output position lies inside the bucket of the entry placed there. */
  lemma {:induction false} BucketOfPosition<T>(s: seq<T>, key: T -> nat, d: nat, k: nat)
    requires k < |Bucketed(s, key, d)|
    ensures key(Bucketed(s, key, d)[k]) < d
    ensures |Bucketed(s, key, key(Bucketed(s, key, d)[k]))| <= k < |Bucketed(s, key, key(Bucketed(s, key, d)[k]) + 1)|
    decreases d
  {
    var prev := Bucketed(s, key, d - 1);
    if k < |prev| {
      BucketOfPosition(s, key, d - 1, k);
      assert Bucketed(s, key, d)[k] == prev[k];
    } else {
      SelectKeys(s, key, d - 1);
      assert Bucketed(s, key, d)[k] == Select(s, key, d - 1)[k - |prev|];
    }
  }

  lemma {:induction false} BelowStep<T>(s: seq<T>, key: T -> nat, d: nat)
    requires d > 0
    ensures multiset(Below(s, key, d)) == multiset(Below(s, key, d - 1)) + multiset(Select(s, key, d - 1))
    decreases |s|
  {
    if s != [] {
      BelowStep(s[..|s| - 1], key, d);
    }
  }

  lemma {:induction false} BelowAll<T>(s: seq<T>, key: T -> nat, bound: nat)
    requires KeysBelow(s, key, bound)
    ensures Below(s, key, bound) == s
    decreases |s|
  {
    if s != [] {
      BelowAll(s[..|s| - 1], key, bound);
      assert s == s[..|s| - 1] + [s[|s| - 1]];
    }
  }

  lemma BucketedGrows<T>(s: seq<T>, key: T -> nat, d: nat, m: multiset<T>)
    requires d > 0 && multiset(Bucketed(s, key, d - 1)) == m
    ensures multiset(Bucketed(s, key, d)) == m + multiset(Select(s, key, d - 1))
  {
  }

  lemma {:induction false} BucketedBelow<T>(s: seq<T>, key: T -> nat, d: nat)
    ensures multiset(Bucketed(s, key, d)) == multiset(Below(s, key, d))
    decreases d
  {
    if d == 0 {
      BelowNone(s, key);
    } else {
      BucketedBelow(s, key, d - 1);
      BucketedGrows(s, key, d, multiset(Below(s, key, d - 1)));
      BelowStep(s, key, d);
    }
  }

  lemma {:induction false} BucketedEmpty<T>(key: T -> nat, d: nat)
    ensures Bucketed([], key, d) == []
    decreases d
  {
    if d > 0 {
      BucketedEmpty(key, d - 1);
    }
  }

  lemma {:induction false} BelowNone<T>(s: seq<T>, key: T -> nat)
    ensures Below(s, key, 0) == []
    decreases |s|
  {
    if s != [] {
      BelowNone(s[..|s| - 1], key);
    }
  }

  /** A pass only rearranges: the output is a permutation of the input. */
  lemma BucketedPermutes<T>(s: seq<T>, key: T -> nat, bound: nat)
    requires KeysBelow(s, key, bound)
    ensures multiset(Bucketed(s, key, bound)) == multiset(s)
    ensures |Bucketed(s, key, bound)| == |s|
  {
    BucketedBelow(s, key, bound);
    BelowAll(s, key, bound);
    assert |multiset(Bucketed(s, key, bound))| == |multiset(s)|;
  }

  /** Stability: the entries of each bucket keep their input order. */
  lemma BucketedUnfold<T>(s: seq<T>, key: T -> nat, bound: nat)
    requires bound > 0
    ensures Bucketed(s, key, bound) == Bucketed(s, key, bound - 1) + Select(s, key, bound - 1)
  {
  }

  lemma {:induction false} BucketedStable<T>(s: seq<T>, key: T -> nat, bound: nat, d: nat)
    ensures Select(Bucketed(s, key, bound), key, d) == if d < bound then Select(s, key, d) else []
    decreases bound
  {
    if bound == 0 {
      assert Bucketed(s, key, bound) == [];
    } else {
      var prev := Bucketed(s, key, bound - 1);
      var sel := Select(s, key, bound - 1);
      BucketedUnfold(s, key, bound);
      BucketedStable(s, key, bound - 1, d);
      SelectAppend(prev, sel, key, d);
      SelectSelect(s, key, bound - 1, d);
    }
  }

  /** Bucket numbers never decrease along the output. */
  lemma BucketedOrdered<T>(s: seq<T>, key: T -> nat, bound: nat, i: nat, j: nat)
    requires i <= j < |Bucketed(s, key, bound)|
    ensures key(Bucketed(s, key, bound)[i]) <= key(Bucketed(s, key, bound)[j])
  {
    var t := Bucketed(s, key, bound);
    BucketOfPosition(s, key, bound, i);
    BucketOfPosition(s, key, bound, j);
    if key(t[j]) < key(t[i]) {
      BucketedPrefix(s, key, key(t[j]) + 1, key(t[i]));
    }
  }

  /** `s` is in non-decreasing order of `f`. */
  ghost predicate SortedBy<T>(s: seq<T>, f: T -> int)
  {
    forall i, j :: 0 <= i < j < |s| ==> f(s[i]) <= f(s[j])
  }

  /** A bucket of a sequence sorted by f is itself sorted by f. */
  lemma {:induction false} SelectSorted<T>(s: seq<T>, key: T -> nat, d: nat, f: T -> int)
    requires SortedBy(s, f)
    ensures SortedBy(Select(s, key, d), f)
    decreases |s|
  {
    if s != [] {
      var init := s[..|s| - 1];
      var x := s[|s| - 1];
      assert SortedBy(init, f) by {
        forall i, j | 0 <= i < j < |init| ensures f(init[i]) <= f(init[j]) {
          assert init[i] == s[i] && init[j] == s[j];
        }
      }
      SelectSorted(init, key, d, f);
      var sel := Select(init, key, d);
      SelectKeys(init, key, d);
      forall k | 0 <= k < |sel| ensures f(sel[k]) <= f(x) {
        assert sel[k] in multiset(init);
        var idx :| 0 <= idx < |init| && init[idx] == sel[k];
        assert s[idx] == sel[k];
      }
    }
  }

  /** An entry at index i makes its bucket's prefix count strictly bigger by any later index. */
  lemma SelectGrows<T>(s: seq<T>, key: T -> nat, i: nat, j: nat)
    requires i < j <= |s|
    ensures |Select(s[..i], key, key(s[i]))| < |Select(s[..j], key, key(s[i]))|
  {
    var u := s[..j];
    assert u[..i] == s[..i] && u[i] == s[i];
    SelectNext(u, key, i);
  }

  /**
   * A stable pass by `key` over a sequence sorted by f leaves it sorted by
   * key first and, within each bucket, by f.
   */
  lemma BucketedSortsLex<T>(s: seq<T>, key: T -> nat, bound: nat, f: T -> int, i: nat, j: nat)
    requires SortedBy(s, f) && i < j < |Bucketed(s, key, bound)|
    ensures key(Bucketed(s, key, bound)[i]) < key(Bucketed(s, key, bound)[j]) ||
            (key(Bucketed(s, key, bound)[i]) == key(Bucketed(s, key, bound)[j]) &&
             f(Bucketed(s, key, bound)[i]) <= f(Bucketed(s, key, bound)[j]))
  {
    var t := Bucketed(s, key, bound);
    BucketedOrdered(s, key, bound, i, j);
    var d := key(t[i]);
    if key(t[j]) == d {
      BucketOfPosition(s, key, bound, i);
      BucketedStable(s, key, bound, d);
      SelectSorted(s, key, d, f);
      SelectNext(t, key, i);
      SelectNext(t, key, j);
      SelectGrows(t, key, i, j);
      var sel := Select(t, key, d);
      assert sel[|Select(t[..i], key, d)|] == t[i];
      assert sel[|Select(t[..j], key, d)|] == t[j];
    }
  }

  // ---------------------------------------------------------------------
  // The pass itself.
  // ---------------------------------------------------------------------

  /** Counting step: count[d] is the number of entries of a[0..n) in bucket d. */
  method CountKeys<T>(a: array<T>, n: nat, key: T -> nat, bound: nat) returns (count: array<int>)
    requires n <= a.Length
    requires forall i :: 0 <= i < n ==> key(a[i]) < bound
    ensures fresh(count) && count.Length == bound
    ensures forall d :: 0 <= d < bound ==> count[d] == |Select(a[..n], key, d)|
  {
    ghost var s := a[..n];
    count := new int[bound](_ => 0);
    var i := 0;
    while i < n
      invariant 0 <= i <= n
      invariant forall d :: 0 <= d < bound ==> count[d] == |Select(s[..i], key, d)|
    {
      var b := key(a[i]);
      forall d | 0 <= d < bound ensures |Select(s[..i + 1], key, d)| == |Select(s[..i], key, d)| + (if b == d then 1 else 0) {
        SelectStep(s, key, i, d);
      }
      count[b] := count[b] + 1;
      i := i + 1;
    }
    assert s[..n] == s;
  }

  /** Prefix step: count[d] becomes the end of bucket d in the output. */
  method BucketEnds<T>(count: array<int>, ghost s: seq<T>, key: T -> nat)
    requires forall d :: 0 <= d < count.Length ==> count[d] == |Select(s, key, d)|
    modifies count
    ensures forall d {:trigger count[d]} :: 0 <= d < count.Length ==> count[d] == |Bucketed(s, key, d + 1)|
  {
    if count.Length == 0 {
      return;
    }
    var i := 1;
    while i < count.Length
      invariant 1 <= i <= count.Length
      invariant forall d {:trigger count[d]} :: 0 <= d < i ==> count[d] == |Bucketed(s, key, d + 1)|
      invariant forall d :: i <= d < count.Length ==> count[d] == |Select(s, key, d)|
    {
      count[i] := count[i] + count[i - 1];
      i := i + 1;
    }
  }

  lemma BucketedLength<T>(s: seq<T>, key: T -> nat, bound: nat)
    requires KeysBelow(s, key, bound)
    ensures |Bucketed(s, key, bound)| == |s|
  {
    BucketedPermutes(s, key, bound);
  }

  /**
   * The output slots of a pass: starts[d] is where bucket d begins and tk[k]
   * is the bucket of output slot k, which holds t[k].
   */
  ghost predicate Shape<T>(key: T -> nat, bound: nat, starts: seq<nat>, tk: seq<nat>, t: seq<T>)
  {
    |starts| == bound + 1 && |tk| == |t| &&
    forall k :: 0 <= k < |t| ==> tk[k] == key(t[k]) && tk[k] < bound && starts[tk[k]] <= k < starts[tk[k] + 1]
  }

  /** starts[d] is the length of the first d buckets of the pass over s. */
  ghost predicate StartsOf<T>(s: seq<T>, key: T -> nat, starts: seq<nat>)
  {
    forall d :: 0 <= d < |starts| ==> starts[d] == |Bucketed(s, key, d)|
  }

  /** count[d] is the cursor of bucket d while the entries of `prefix` are still to be placed. */
  ghost predicate Cursors<T>(count: seq<int>, starts: seq<nat>, prefix: seq<T>, key: T -> nat)
  {
    |starts| == |count| + 1 &&
    forall d :: 0 <= d < |count| ==> count[d] == starts[d] + |Select(prefix, key, d)|
  }

  /** Every slot at or after its bucket's cursor already holds its final entry. */
  ghost predicate Settled<T>(temp: seq<T>, count: seq<int>, tk: seq<nat>, t: seq<T>)
  {
    |temp| == |t| && |tk| == |t| &&
    (forall k :: 0 <= k < |t| ==> tk[k] < |count|) &&
    forall k :: 0 <= k < |t| && count[tk[k]] <= k ==> temp[k] == t[k]
  }

  lemma LayoutOf<T>(s: seq<T>, key: T -> nat, bound: nat) returns (starts: seq<nat>, tk: seq<nat>, t: seq<T>)
    requires KeysBelow(s, key, bound)
    ensures t == Bucketed(s, key, bound) && |t| == |s|
    ensures Shape(key, bound, starts, tk, t) && StartsOf(s, key, starts)
  {
    t := Bucketed(s, key, bound);
    BucketedLength(s, key, bound);
    starts := seq(bound + 1, d requires 0 <= d <= bound => |Bucketed(s, key, d)|);
    tk := seq(|s|, k requires 0 <= k < |s| => key(t[k]));
    forall k | 0 <= k < |s|
      ensures tk[k] < bound && starts[tk[k]] <= k < starts[tk[k] + 1]
    {
      BucketOfPosition(s, key, bound, k);
    }
  }

  /** Before the first placement, every cursor sits at its bucket's end and nothing is settled. */
  lemma PlaceStart<T>(s: seq<T>, key: T -> nat, bound: nat, starts: seq<nat>, tk: seq<nat>, t: seq<T>, count: seq<int>)
    requires Shape(key, bound, starts, tk, t) && StartsOf(s, key, starts) && |t| == |s| && |count| == bound
    requires forall d {:trigger count[d]} :: 0 <= d < bound ==> count[d] == |Bucketed(s, key, d + 1)|
    ensures Cursors(count, starts, s, key) && Settled(s, count, tk, t)
  {
  }

  /** Entry i goes to its bucket's start plus the number of earlier entries of that bucket. */
  lemma LaidOut<T>(s: seq<T>, key: T -> nat, bound: nat, t: seq<T>, start: nat, i: nat, p: int)
    requires KeysBelow(s, key, bound) && i < |s|
    requires t == Bucketed(s, key, bound) && start == |Bucketed(s, key, key(s[i]))|
    requires p == start + |Select(s[..i], key, key(s[i]))|
    ensures 0 <= p < |t| && t[p] == s[i]
  {
    var b := key(s[i]);
    var m := |Select(s[..i], key, b)|;
    SelectNext(s, key, i);
    BucketedAt(s, key, b, m, bound, p);
  }

  /** Writing x into the slot just below its bucket's cursor, and moving the cursor there, keeps the settled slots right. */
  lemma PlaceStep<T>(key: T -> nat, starts: seq<nat>, tk: seq<nat>, t: seq<T>, temp: seq<T>, count: seq<int>, x: T, p: int)
    requires key(x) < |count| && Shape(key, |count|, starts, tk, t) && Settled(temp, count, tk, t)
    requires p == count[key(x)] - 1 && 0 <= p < |t| && t[p] == x
    ensures Settled(temp[p := x], count[key(x) := p], tk, t)
  {
    var b := key(x);
    assert tk[p] == key(t[p]);
    PlacementKeeps(t, tk, temp, temp[p := x], count, count[b := p], p, b);
  }

  /** One placement keeps "every slot at or after its bucket's cursor holds its final entry". */
  lemma PlacementKeeps<T>(t: seq<T>, tk: seq<nat>, before: seq<T>, after: seq<T>,
                          counted: seq<int>, count: seq<int>, p: nat, b: nat)
    requires |tk| == |t| && |before| == |t| && |after| == |t|
    requires p < |t| && tk[p] == b && after[p] == t[p]
    requires forall k :: 0 <= k < |t| && k != p ==> after[k] == before[k]
    requires |counted| == |count| && b < |count| && count[b] == p && counted[b] == p + 1
    requires forall d :: 0 <= d < |count| && d != b ==> count[d] == counted[d]
    requires forall k :: 0 <= k < |t| ==> tk[k] < |count|
    requires forall k :: 0 <= k < |t| && counted[tk[k]] <= k ==> before[k] == t[k]
    ensures forall k :: 0 <= k < |t| && count[tk[k]] <= k ==> after[k] == t[k]
  {
  }

  /** Taking entry i off the end of the prefix moves its bucket's cursor back onto its slot. */
  lemma CursorStep<T>(count: seq<int>, starts: seq<nat>, s: seq<T>, key: T -> nat, i: nat)
    requires i < |s| && key(s[i]) < |count| && Cursors(count, starts, s[..i + 1], key)
    ensures count[key(s[i])] - 1 == starts[key(s[i])] + |Select(s[..i], key, key(s[i]))|
    ensures Cursors(count[key(s[i]) := count[key(s[i])] - 1], starts, s[..i], key)
  {
    forall d | 0 <= d < |count|
      ensures |Select(s[..i + 1], key, d)| == |Select(s[..i], key, d)| + (if d == key(s[i]) then 1 else 0)
    {
      SelectStep(s, key, i, d);
    }
  }

  /**
   * The loop invariant of the placement: the entries s[i..] are placed, the
   * cursors stand before them, and every slot at or after its cursor is final.
   */
  ghost predicate Placing<T>(s: seq<T>, key: T -> nat, starts: seq<nat>, tk: seq<nat>, t: seq<T>,
                             temp: seq<T>, count: seq<int>, i: nat)
  {
    i <= |s| && |t| == |s| && Shape(key, |count|, starts, tk, t) &&
    Cursors(count, starts, s[..i], key) && Settled(temp, count, tk, t)
  }

  /** One step of the placement loop: entry i goes to slot p, just below its bucket's cursor. */
  lemma PlaceNext<T>(s: seq<T>, key: T -> nat, starts: seq<nat>, tk: seq<nat>, t: seq<T>,
                     temp: seq<T>, count: seq<int>, i: nat) returns (p: int)
    requires i < |s| && KeysBelow(s, key, |count|) && t == Bucketed(s, key, |count|) && StartsOf(s, key, starts)
    requires Placing(s, key, starts, tk, t, temp, count, i + 1)
    ensures p == count[key(s[i])] - 1 && 0 <= p < |temp|
    ensures Placing(s, key, starts, tk, t, temp[p := s[i]], count[key(s[i]) := p], i)
  {
    var b := key(s[i]);
    CursorStep(count, starts, s, key, i);
    p := count[b] - 1;
    assert starts[b] == |Bucketed(s, key, b)|;
    LaidOut(s, key, |count|, t, starts[b], i, p);
    PlaceStep(key, starts, tk, t, temp, count, s[i], p);
  }

  /** Once every cursor sits at its bucket's start, every slot is settled. */
  lemma PlaceEnd<T>(s: seq<T>, key: T -> nat, starts: seq<nat>, tk: seq<nat>, t: seq<T>, temp: seq<T>, count: seq<int>)
    requires Placing(s, key, starts, tk, t, temp, count, 0)
    ensures temp == t
  {
    assert s[..0] == [];
  }

  /**
   * The second half of a counting pass: place the records of a[0..n) from the
   * last one backwards, each at its bucket's pre-decremented end, into a fresh
   * buffer. On entry count[d] is the end of bucket d in the output.
   */
  method PlaceBackwards<T>(a: array<T>, n: nat, key: T -> nat, count: array<int>) returns (temp: array<T>)
    requires 0 < n <= a.Length && a as object != count as object
    requires forall i :: 0 <= i < n ==> key(a[i]) < count.Length
    requires forall d {:trigger count[d]} :: 0 <= d < count.Length ==> count[d] == |Bucketed(a[..n], key, d + 1)|
    modifies count
    ensures fresh(temp) && temp.Length == n
    ensures temp[..] == Bucketed(a[..n], key, count.Length)
  {
    ghost var s := a[..n];
    ghost var starts, tk, t := LayoutOf(s, key, count.Length);
    temp := new T[n](j requires 0 <= j < n reads a => a[j]);
    assert temp[..] == s && s[..n] == s;
    PlaceStart(s, key, count.Length, starts, tk, t, count[..]);
    PlaceAll(a, n, key, count, temp, s, starts, tk, t);
    PlaceEnd(s, key, starts, tk, t, temp[..], count[..]);
  }

  /** The placement loop of PlaceBackwards, from "nothing placed" to "everything placed". */
  method PlaceAll<T>(a: array<T>, n: nat, key: T -> nat, count: array<int>, temp: array<T>,
                     ghost s: seq<T>, ghost starts: seq<nat>, ghost tk: seq<nat>, ghost t: seq<T>)
    requires n <= a.Length && a[..n] == s && temp.Length == n
    requires a as object != count as object && a != temp && temp as object != count as object
    requires KeysBelow(s, key, count.Length) && t == Bucketed(s, key, count.Length) && StartsOf(s, key, starts)
    requires Placing(s, key, starts, tk, t, temp[..], count[..], n)
    modifies temp, count
    ensures Placing(s, key, starts, tk, t, temp[..], count[..], 0)
  {
    var i: nat := n;
    while i > 0
      invariant i <= n
      invariant Placing(s, key, starts, tk, t, temp[..], count[..], i)
    {
      i := i - 1;
      var b := key(a[i]);
      assert a[i] == s[i];
      ghost var before := temp[..];
      ghost var counted := count[..];
      ghost var p := PlaceNext(s, key, starts, tk, t, before, counted, i);
      count[b] := count[b] - 1;
      temp[count[b]] := a[i];
      assert count[..] == counted[b := p];
      assert temp[..] == before[p := s[i]];
    }
  }

  /**
   * One stable counting pass over a[0..n) with bucket function `key` and
   * `bound` buckets; the entries from n on are not touched.
   */
  method CountingPass<T>(a: array<T>, n: nat, key: T -> nat, bound: nat)
    requires n <= a.Length
    requires forall i :: 0 <= i < n ==> key(a[i]) < bound
    modifies a
    ensures a[..n] == Bucketed(old(a[..n]), key, bound)
    ensures a[n..] == old(a[n..])
  {
    if n == 0 {
      assert a[..n] == [];
      BucketedEmpty(key, bound);
      return;
    }
    var count := CountKeys(a, n, key, bound);
    BucketEnds(count, a[..n], key);
    var temp := PlaceBackwards(a, n, key, count);
    // Copy back.
    forall k | 0 <= k < n {
      a[k] := temp[k];
    }
    assert a[..n] == temp[..];
  }
}
