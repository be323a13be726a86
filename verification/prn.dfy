/** The pseudo-random sequence shared by the embedder and the detector.
    Both sides call `gen_prn(f"{key}_{i}", seglen)`: the seed string is the key,
    an underscore and the decimal segment index, and the generator returns
    `seglen` values, each +1.0 or -1.0. The hashing and the seeded random
    stream behind it are not modelled: a `Generator` is any function with that
    contract, and every theorem of the model holds for all of them. */
module Prn {

  /** One chip of a spreading sequence. */
  predicate IsSign(v: real) {
    v == 1.0 || v == -1.0
  }

  /** Every output has the requested length and holds only +1.0 and -1.0. */
  ghost predicate SignSequences(g: (string, nat) -> seq<real>) {
    forall seed: string, n: nat ::
      |g(seed, n)| == n && forall j :: 0 <= j < n ==> IsSign(g(seed, n)[j])
  }

  function AllPlus(seed: string, n: nat): seq<real> {
    seq(n, _ => 1.0)
  }

  /** The contract of `gen_prn`. Being a function, a generator returns the
      same sequence whenever it is given the same seed string and length. */
  type Generator = g: (string, nat) -> seq<real> | SignSequences(g) witness AllPlus

  /** Chip `j` of any generated sequence is a sign, so it squares to 1. */
  lemma GeneratorChip(gen: Generator, seed: string, n: nat, j: nat)
    requires j < n
    ensures |gen(seed, n)| == n && IsSign(gen(seed, n)[j])
    ensures gen(seed, n)[j] * gen(seed, n)[j] == 1.0
  {
  }

  /** The decimal digit for `d`. */
  function Digit(d: nat): (c: char)
    requires d < 10
    ensures '0' <= c <= '9' && c as int - '0' as int == d
  {
    ('0' as int + d) as char
  }

  /** Python's `str(n)` for a non-negative integer: decimal, no leading zeros. */
  function Decimal(n: nat): (s: string)
    ensures 1 <= |s|
    ensures forall k :: 0 <= k < |s| ==> '0' <= s[k] <= '9'
    ensures (|s| == 1) == (n < 10)
  {
    if n < 10 then [Digit(n)] else Decimal(n / 10) + [Digit(n % 10)]
  }

  /** The seed string `f"{key}_{i}"` for segment `i`. */
  function SegmentKey(key: string, i: nat): (s: string)
    ensures |s| == |key| + 1 + |Decimal(i)|
    ensures s[..|key|] == key && s[|key|] == '_' && s[|key| + 1..] == Decimal(i)
  {
    key + "_" + Decimal(i)
  }

  /** Distinct indices are written as distinct decimal strings. */
  lemma {:induction false} DecimalInjective(n: nat, m: nat)
    requires Decimal(n) == Decimal(m)
    ensures n == m
  {
    var s := Decimal(n);
    if n >= 10 && m >= 10 {
      assert s[|s| - 1] == Digit(n % 10) && s[|s| - 1] == Digit(m % 10);
      assert Decimal(n / 10) == s[..|s| - 1] == Decimal(m / 10);
      DecimalInjective(n / 10, m / 10);
    } else if n < 10 && m < 10 {
      assert s[0] == Digit(n) && s[0] == Digit(m);
    }
  }

  /** Each segment of one key is seeded with its own string, so no two
      segments of one key share a seed string; whether their sequences
      differ is up to the generator. */
  lemma SegmentKeyInjective(key: string, i: nat, j: nat)
    requires SegmentKey(key, i) == SegmentKey(key, j)
    ensures i == j
  {
    DecimalInjective(i, j);
  }
}
