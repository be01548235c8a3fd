/**
 * The 64-bit radix key of a double and its bytes.
 *
 * A 64-bit pattern is an integer in [0, 2^64); `~k`, `k ^ SIGN` and
 * `k | SIGN` are written out arithmetically. The radix sort reads the
 * pattern of a double as sign-magnitude (`SignMagnitude`), transforms it
 * with `Key`, and sorts the keys byte by byte.
 */
module RadixKeys {

  const TWO64: int := 0x1_0000_0000_0000_0000
  const SIGN: int := 0x8000_0000_0000_0000

  /** A `uint64_t`. */
  type U64 = k: int | 0 <= k < 0x1_0000_0000_0000_0000

  /** `k ^ SIGN`: toggles the sign bit. */
  function XorSign(k: U64): (r: U64)
    ensures (k >= SIGN) != (r >= SIGN) && r % SIGN == k % SIGN
  {
    if k >= SIGN then k - SIGN else k + SIGN
  }

  /** `k | SIGN`: sets the sign bit. */
  function OrSign(k: U64): (r: U64)
    ensures r >= SIGN && r % SIGN == k % SIGN
  {
    if k >= SIGN then k else k + SIGN
  }

  /** `~k`: flips every bit. */
  function Not(k: U64): (r: U64)
    ensures r + k == TWO64 - 1
  {
    TWO64 - 1 - k
  }

  /** The radix key: a set sign bit flips all bits, a clear one gets the sign bit toggled. */
  function Key(k: U64): U64
  {
    if k >= SIGN then Not(k) else XorSign(k)
  }

  /** The key of the older copy of the sort, which sets the sign bit with `|=` instead of `^=`. */
  function LegacyKey(k: U64): U64
  {
    if k >= SIGN then Not(k) else OrSign(k)
  }

  /** The number a sign-magnitude pattern stands for; both zeros read 0. */
  function SignMagnitude(k: U64): int
  {
    if k >= SIGN then -(k - SIGN) else k
  }

  /** `|=` and `^=` agree on that branch because the sign bit is clear there. */
  lemma LegacyKeySame(k: U64)
    ensures LegacyKey(k) == Key(k)
  {
  }

  /**
   * Key order is sign-magnitude order, except that the negative zero
   * (only the sign bit set) gets the key just below the positive zero.
   */
  lemma KeyOrder(k: U64, l: U64)
    ensures Key(k) < Key(l) <==> SignMagnitude(k) < SignMagnitude(l) || (k == SIGN && l == 0)
  {
  }

  /** Distinct patterns get distinct keys, so -0 and +0 stay apart. */
  lemma KeyInjective(k: U64, l: U64)
    ensures Key(k) == Key(l) ==> k == l
  {
  }

  /** 256^b. */
  function Pow256(b: nat): (r: nat)
    ensures r > 0
  {
    if b == 0 then 1 else 256 * Pow256(b - 1)
  }

  /** `(k >> (8 * b)) & 0xFF`: byte b of k, byte 0 the least significant. */
  function Digit(k: nat, b: nat): (r: nat)
    ensures r < 256
  {
    if b == 0 then k % 256 else Digit(k / 256, b - 1)
  }

  /** The number formed by the low m bytes of k. */
  function Low(k: nat, m: nat): nat
  {
    if m == 0 then 0 else k % 256 + 256 * Low(k / 256, m - 1)
  }

  /** Ascending(m) == [0, 1, ..., m - 1]. */
  function Ascending(m: nat): (ps: seq<nat>)
    ensures |ps| == m && forall i :: 0 <= i < m ==> ps[i] == i
  {
    if m == 0 then [] else Ascending(m - 1) + [m - 1]
  }

  /** Descending(m) == [m - 1, ..., 1, 0]. */
  function Descending(m: nat): (ps: seq<nat>)
    ensures |ps| == m && forall i :: 0 <= i < m ==> ps[i] == m - 1 - i
  {
    if m == 0 then [] else [m - 1] + Descending(m - 1)
  }

  /**
   * The rank that stable byte passes in the order `ps` give key k: the byte
   * of the last pass is the most significant digit, the byte of the first
   * pass the least significant one.
   */
  function Rank(k: nat, ps: seq<nat>): (r: nat)
    ensures r < Pow256(|ps|)
  {
    if ps == [] then 0
    else
      var m := |ps| - 1;
      PlaceValue(Pow256(m), Digit(k, ps[m]), Rank(k, ps[..m]));
      Rank(k, ps[..m]) + Pow256(m) * Digit(k, ps[m])
  }

  /** A digit d < 256 in place p above a remainder below p stays below 256 * p. */
  lemma PlaceValue(p: nat, d: nat, r: nat)
    requires r < p && d < 256
    ensures r + p * d < p * (d + 1) <= 256 * p
  {
    assert p * (d + 1) == p * d + p;
    MulMono(p, d + 1, 256);
  }

  lemma MulMono(p: nat, a: nat, b: nat)
    requires a <= b
    ensures p * a <= p * b
  {
    assert p * b == p * a + p * (b - a);
  }

  /**
   * One more pass over byte b orders keys by that byte first and by their
   * rank under the earlier passes second.
   */
  lemma RankStep(k: nat, l: nat, ps: seq<nat>, b: nat)
    requires Digit(k, b) < Digit(l, b) || (Digit(k, b) == Digit(l, b) && Rank(k, ps) <= Rank(l, ps))
    ensures Rank(k, ps + [b]) <= Rank(l, ps + [b])
  {
    var p := Pow256(|ps|);
    assert (ps + [b])[..|ps|] == ps;
    assert Rank(k, ps + [b]) == Rank(k, ps) + p * Digit(k, b);
    assert Rank(l, ps + [b]) == Rank(l, ps) + p * Digit(l, b);
    if Digit(k, b) < Digit(l, b) {
      PlaceValue(p, Digit(k, b), Rank(k, ps));
      MulMono(p, Digit(k, b) + 1, Digit(l, b));
    }
  }

  /** Low(k, m + 1) adds byte m on top of Low(k, m). */
  lemma {:induction false} LowNext(k: nat, m: nat)
    ensures Low(k, m + 1) == Low(k, m) + Pow256(m) * Digit(k, m)
    decreases m
  {
    if m > 0 {
      var q := k / 256;
      LowNext(q, m - 1);
      Regroup(k % 256, Low(q, m - 1), Pow256(m - 1), Digit(q, m - 1));
    }
  }

  lemma Regroup(a: int, x: int, p: int, d: int)
    ensures a + 256 * (x + p * d) == (a + 256 * x) + (256 * p) * d
  {
    assert 256 * (p * d) == (256 * p) * d;
  }

  /** Passes over bytes 0, 1, ..., m - 1 in that order rank a key by its low m bytes. */
  lemma {:induction false} RankAscendingLow(k: nat, m: nat)
    ensures Rank(k, Ascending(m)) == Low(k, m)
    decreases m
  {
    if m > 0 {
      RankAscendingLow(k, m - 1);
      LowNext(k, m - 1);
      assert Ascending(m)[..m - 1] == Ascending(m - 1);
    }
  }

  lemma {:induction false} LowAll(k: nat, m: nat)
    requires k < Pow256(m)
    ensures Low(k, m) == k
    decreases m
  {
    if m > 0 {
      LowAll(k / 256, m - 1);
    }
  }

  /** Passes over bytes 0, 1, ..., 7, in that order, rank a 64-bit key by its own value. */
  lemma RankAscendingIsKey(k: U64)
    ensures Rank(k, Ascending(8)) == k
  {
    assert Pow256(8) == TWO64;
    LowAll(k, 8);
    RankAscendingLow(k, 8);
  }

  lemma RankSnoc(k: nat, ps: seq<nat>, b: nat)
    ensures Rank(k, ps + [b]) == Rank(k, ps) + Pow256(|ps|) * Digit(k, b)
  {
    assert (ps + [b])[..|ps|] == ps;
  }

  /**
   * Under passes 7, 6, ..., 0 a key whose low six bytes are zero ranks by
   * byte 6 first and byte 7 second.
   */
  lemma RankDescendingHigh(k: nat)
    requires Digit(k, 0) == 0 && Digit(k, 1) == 0 && Digit(k, 2) == 0
    requires Digit(k, 3) == 0 && Digit(k, 4) == 0 && Digit(k, 5) == 0
    ensures Rank(k, [7, 6, 5, 4, 3, 2, 1, 0]) == Digit(k, 7) + 256 * Digit(k, 6)
  {
    assert [] + [7] == [7] && [7] + [6] == [7, 6] && [7, 6] + [5] == [7, 6, 5];
    assert [7, 6, 5] + [4] == [7, 6, 5, 4] && [7, 6, 5, 4] + [3] == [7, 6, 5, 4, 3];
    assert [7, 6, 5, 4, 3] + [2] == [7, 6, 5, 4, 3, 2] && [7, 6, 5, 4, 3, 2] + [1] == [7, 6, 5, 4, 3, 2, 1];
    assert [7, 6, 5, 4, 3, 2, 1] + [0] == [7, 6, 5, 4, 3, 2, 1, 0];
    assert Pow256(0) == 1 && Pow256(1) == 256;
    RankSnoc(k, [], 7);
    RankSnoc(k, [7], 6);
    RankSnoc(k, [7, 6], 5);
    RankSnoc(k, [7, 6, 5], 4);
    RankSnoc(k, [7, 6, 5, 4], 3);
    RankSnoc(k, [7, 6, 5, 4, 3], 2);
    RankSnoc(k, [7, 6, 5, 4, 3, 2], 1);
    RankSnoc(k, [7, 6, 5, 4, 3, 2, 1], 0);
  }

  /**
   * The keys of 1.0 (pattern 0x3FF0_0000_0000_0000) and 2.0 (pattern
   * 0x4000_0000_0000_0000) under passes 7, 6, ..., 0: byte 6 decides, and
   * there 1.0 has 0xF0 and 2.0 has 0x00.
   */
  lemma RankDescendingOneTwo()
    ensures Rank(Key(0x3FF0_0000_0000_0000), [7, 6, 5, 4, 3, 2, 1, 0]) == 0xF0BF
    ensures Rank(Key(0x4000_0000_0000_0000), [7, 6, 5, 4, 3, 2, 1, 0]) == 0xC0
  {
    assert Key(0x3FF0_0000_0000_0000) == 0xBFF0_0000_0000_0000;
    assert Key(0x4000_0000_0000_0000) == 0xC000_0000_0000_0000;
    RankDescendingHigh(0xBFF0_0000_0000_0000);
    RankDescendingHigh(0xC000_0000_0000_0000);
  }
}
