/** The sharding codec: a value splits into a shard prefix (its low `bits` bits)
    and a member (the remaining high bits). */
module Codec {

  /** `1 << bits`. */
  function Pow2(bits: nat): (r: nat)
    ensures r >= 1
  {
    if bits == 0 then 1 else 2 * Pow2(bits - 1)
  }

  /** The two halves of a sharded value. */
  datatype Shard = Shard(prefix: nat, member: nat)

  /** `value % (1 << bits)` and `value >> bits` for a non-negative value. */
  function Split(bits: nat, value: nat): (s: Shard)
    ensures s.prefix < Pow2(bits)
    ensures s.member <= value
    ensures s.prefix + s.member * Pow2(bits) == value
  {
    var p := Pow2(bits);
    DivMod(value, p);
    Shard(value % p, value / p)
  }

  /** Reassembles a value from its two halves: `prefix + (member << bits)`. */
  function Combine(bits: nat, s: Shard): (value: nat) {
    s.prefix + s.member * Pow2(bits)
  }

  /** Euclidean division by a positive divisor. */
  lemma DivMod(n: nat, p: nat)
    requires p >= 1
    ensures 0 <= n % p < p
    ensures 0 <= n / p <= n
    ensures n == n % p + (n / p) * p
  {
  }

  /** A positive multiple of `p` is at least `p`. */
  lemma {:induction false} MultipleAtLeast(k: nat, p: nat)
    requires k >= 1
    ensures k * p >= p
  {
    if k > 1 {
      MultipleAtLeast(k - 1, p);
      assert k * p == (k - 1) * p + p;
    }
  }

  /** Quotient and remainder are unique, so a (prefix, member) pair with an
      in-range prefix names exactly one value. */
  lemma {:induction false} DivModUnique(p: nat, q1: nat, r1: nat, q2: nat, r2: nat)
    requires p >= 1 && r1 < p && r2 < p
    requires r1 + q1 * p == r2 + q2 * p
    ensures q1 == q2 && r1 == r2
  {
    if q1 < q2 {
      MultipleAtLeast(q2 - q1, p);
    } else if q2 < q1 {
      MultipleAtLeast(q1 - q2, p);
    }
  }

  /** Splitting then recombining gives the value back. */
  lemma CombineSplit(bits: nat, value: nat)
    ensures Combine(bits, Split(bits, value)) == value
  {
  }

  /** Recombining then splitting gives the halves back, so for fixed `bits`
      `Split` is a bijection between naturals and in-range shards. */
  lemma SplitCombine(bits: nat, s: Shard)
    requires s.prefix < Pow2(bits)
    ensures Split(bits, Combine(bits, s)) == s
  {
    var t := Split(bits, Combine(bits, s));
    DivModUnique(Pow2(bits), t.member, t.prefix, s.member, s.prefix);
  }

  /** Distinct values land on distinct (prefix, member) pairs. */
  lemma SplitInjective(bits: nat, v: nat, w: nat)
    requires Split(bits, v) == Split(bits, w)
    ensures v == w
  {
  }

  /** With zero sharding bits there is one shard, prefix 0, and the member is the whole value. */
  lemma SplitZeroBits(value: nat)
    ensures Split(0, value) == Shard(0, value)
  {
  }
}
