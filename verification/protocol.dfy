/** What the embedder and the detector must agree on besides the key: the
    bit alphabet, the terminator byte and the segment length in samples. */
module Protocol {

  /** The payload travels as a string of '0' and '1' characters. */
  predicate IsBitString(s: string) {
    forall k :: 0 <= k < |s| ==> s[k] == '0' || s[k] == '1'
  }

  /** The all-zero byte that ends every payload. */
  const Terminator: string := "00000000"

  function Pow2(n: nat): (p: nat)
    ensures p >= 1
  {
    if n == 0 then 1 else 2 * Pow2(n - 1)
  }

  /** `int(segsecs * rate)`: the product truncated to an integer, which for a
      non-negative duration is the largest whole number of samples that fits
      in the segment's duration. */
  function SegmentLength(segsecs: real, rate: nat): (n: nat)
    requires segsecs >= 0.0
    ensures n as real <= segsecs * rate as real < n as real + 1.0
  {
    (segsecs * rate as real).Floor
  }

  lemma MulMonotone(a: nat, b: nat, c: nat)
    requires a <= b
    ensures a * c <= b * c
  {
  }

  /** The first sample of segment `i`, `i * seglen`, written as a sum of
      segment lengths so that reasoning about segment bounds stays linear. */
  function Start(i: nat, seglen: nat): nat {
    if i == 0 then 0 else Start(i - 1, seglen) + seglen
  }

  lemma {:induction false} StartIsProduct(i: nat, seglen: nat)
    ensures Start(i, seglen) == i * seglen
  {
    if i > 0 {
      StartIsProduct(i - 1, seglen);
      assert (i - 1) * seglen + seglen == i * seglen;
    }
  }

  /** Later segments start later: segment `i < n` ends where segment `n`
      starts or earlier. */
  lemma {:induction false} StartMonotone(i: nat, n: nat, seglen: nat)
    requires i <= n
    ensures Start(i, seglen) <= Start(n, seglen)
  {
    if i < n {
      StartMonotone(i, n - 1, seglen);
    }
  }

  /** Segment `i` of a signal of `len` samples cut into `len / seglen` whole
      segments lies inside the signal. */
  lemma SegmentFits(i: nat, len: nat, seglen: nat)
    requires seglen >= 1 && i < len / seglen
    ensures Start(i + 1, seglen) <= len
  {
    StartIsProduct(i + 1, seglen);
    MulMonotone(i + 1, len / seglen, seglen);
  }

  /** When the first `n` segments fit in the signal, the signal has at
      least `n` whole segments. */
  lemma SegmentCount(n: nat, len: nat, seglen: nat)
    requires seglen >= 1 && Start(n, seglen) <= len
    ensures n <= len / seglen
  {
    StartIsProduct(n, seglen);
    var q := len / seglen;
    assert len == q * seglen + len % seglen;
    if n > q {
      MulMonotone(q + 1, n, seglen);
    }
  }

  /** Sample `j` of the first `n` segments lies in segment `j / seglen`. */
  lemma SegmentIndex(j: nat, n: nat, seglen: nat)
    requires seglen >= 1 && j < Start(n, seglen)
    ensures j / seglen < n
    ensures Start(j / seglen, seglen) <= j < Start(j / seglen, seglen) + seglen
  {
    var q := j / seglen;
    StartIsProduct(n, seglen);
    StartIsProduct(q, seglen);
    assert j == q * seglen + j % seglen;
    if q >= n {
      MulMonotone(n, q, seglen);
    }
  }
}
