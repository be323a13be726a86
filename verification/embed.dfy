/** The embedding side: the payload bit string and the additive spreading of
    each bit over its own segment of samples (embed_dsss_repeat.py). */
module DsssEmbed {
  import opened Protocol
  import opened Prn

  /** Every character has a code point that fits in one byte. */
  predicate ByteText(t: string) {
    forall k :: 0 <= k < |t| ==> t[k] as int < 256
  }

  /** `f"{v:0{width}b}"` for `v < 2^width`: `width` binary digits, most
      significant first. */
  function Binary(v: nat, width: nat): (r: string)
    ensures |r| == width && IsBitString(r)
  {
    if width == 0 then [] else Binary(v / 2, width - 1) + [if v % 2 == 1 then '1' else '0']
  }

  /** `f"{ord(c):08b}"` for a one-byte character. */
  function ByteBits(c: char): (r: string)
    requires c as int < 256
    ensures |r| == 8 && IsBitString(r)
  {
    Binary(c as int, 8)
  }

  /** The bytes of `t` one after another, before the terminator. */
  function CharBits(t: string): (r: string)
    requires ByteText(t)
    ensures |r| == 8 * |t| && IsBitString(r)
    ensures forall k :: 0 <= k < |t| ==> r[8 * k..8 * k + 8] == ByteBits(t[k])
  {
    if t == [] then []
    else
      var r := ByteBits(t[0]) + CharBits(t[1..]);
      assert forall k :: 1 <= k < |t| ==> r[8 * k..8 * k + 8] == CharBits(t[1..])[8 * (k - 1)..8 * (k - 1) + 8];
      r
  }

  /** `text_to_bits`: eight bits per character, most significant bit first,
      then the all-zero terminator byte. */
  function TextToBits(t: string): (r: string)
    requires ByteText(t)
    ensures |r| == 8 * |t| + 8 && IsBitString(r)
    ensures r[8 * |t|..] == Terminator
    ensures forall k :: 0 <= k < |t| ==> r[8 * k..8 * k + 8] == ByteBits(t[k])
  {
    var c := CharBits(t);
    assert forall k :: 0 <= k < |t| ==> (c + Terminator)[8 * k..8 * k + 8] == c[8 * k..8 * k + 8];
    c + Terminator
  }

  /** The sign a bit gives its segment: `1 if b == '1' else -1`. */
  function Polarity(b: char): (p: real)
    ensures IsSign(p) && (p == 1.0 <==> b == '1')
  {
    if b == '1' then 1.0 else -1.0
  }

  /** `alpha * prn * (1 if b == '1' else -1)`: the perturbation of one
      segment, every chip scaled by the strength and the bit's sign. */
  function Delta(prn: seq<real>, alpha: real, b: char): (d: seq<real>)
    ensures |d| == |prn|
  {
    seq(|prn|, k requires 0 <= k < |prn| => alpha * Polarity(b) * prn[k])
  }

  lemma DeltaAt(prn: seq<real>, alpha: real, b: char, k: nat)
    requires k < |prn|
    ensures Delta(prn, alpha, b)[k] == if b == '1' then alpha * prn[k] else -(alpha * prn[k])
  {
    assert Delta(prn, alpha, b)[k] == alpha * Polarity(b) * prn[k];
  }

  /** `y[start:start+len(d)] += d`: the samples of `y` with `d` added from
      offset `start` on, every other sample as it was. */
  function AddAt(y: seq<real>, start: nat, d: seq<real>): (r: seq<real>)
    ensures |r| == |y|
  {
    seq(|y|, j requires 0 <= j < |y| => if start <= j < start + |d| then y[j] + d[j - start] else y[j])
  }

  /** The perturbation for bit `i` of `bits`, spread with the sequence seeded
      by segment `i`'s key. */
  function SegmentDelta(bits: string, i: nat, key: string, alpha: real, seglen: nat, gen: Generator): (d: seq<real>)
    requires i < |bits|
    ensures |d| == seglen
  {
    Delta(gen(SegmentKey(key, i), seglen), alpha, bits[i])
  }

  /** What the additions for bits `[0, n)` have added to sample `j`: bit
      `m`'s perturbation when `j` lies in segment `m`, summed over `m < n`.
      Samples from segment `n` on have gained nothing. */
  function Added(bits: string, n: nat, key: string, alpha: real, seglen: nat, gen: Generator, j: nat): (r: real)
    requires n <= |bits|
    ensures Start(n, seglen) <= j ==> r == 0.0
  {
    if n == 0 then 0.0
    else
      var start := Start(n - 1, seglen);
      Added(bits, n - 1, key, alpha, seglen, gen, j)
        + (if start <= j < start + seglen then SegmentDelta(bits, n - 1, key, alpha, seglen, gen)[j - start] else 0.0)
  }

  /** The signal once bits `[0, n)` have each been added into their segment. */
  function Embedded(x: seq<real>, bits: string, n: nat, key: string, alpha: real, seglen: nat, gen: Generator): (y: seq<real>)
    requires n <= |bits|
    ensures |y| == |x|
  {
    seq(|x|, j requires 0 <= j < |x| => x[j] + Added(bits, n, key, alpha, seglen, gen, j))
  }

  /** The signal with every payload bit embedded. */
  function Watermark(x: seq<real>, bits: string, key: string, alpha: real, seglen: nat, gen: Generator): (y: seq<real>)
    ensures |y| == |x|
  {
    Embedded(x, bits, |bits|, key, alpha, seglen, gen)
  }

  datatype EmbedResult =
    | Watermarked(samples: seq<real>)
    /** "Audio too short for watermark": raised before any sample is copied. */
    | AudioTooShort

  /** What `embed` produces from the normalised mono samples `x`. */
  function Embedding(x: seq<real>, text: string, key: string, alpha: real, seglen: nat, gen: Generator): (r: EmbedResult)
    requires ByteText(text)
    ensures r.AudioTooShort? <==> seglen * (8 * |text| + 8) > |x|
    ensures r.Watermarked? ==> |r.samples| == |x|
  {
    var bits := TextToBits(text);
    if seglen * |bits| > |x| then AudioTooShort else Watermarked(Watermark(x, bits, key, alpha, seglen, gen))
  }

  /** One more step of the embedding loop: adding bit `i`'s perturbation
      into segment `i`. */
  lemma EmbeddedSucc(x: seq<real>, bits: string, i: nat, key: string, alpha: real, seglen: nat, gen: Generator)
    requires i < |bits|
    ensures Embedded(x, bits, i + 1, key, alpha, seglen, gen)
         == AddAt(Embedded(x, bits, i, key, alpha, seglen, gen), Start(i, seglen), SegmentDelta(bits, i, key, alpha, seglen, gen))
  {
    var prev := Embedded(x, bits, i, key, alpha, seglen, gen);
    var next := Embedded(x, bits, i + 1, key, alpha, seglen, gen);
    var d := SegmentDelta(bits, i, key, alpha, seglen, gen);
    forall j | 0 <= j < |x|
      ensures next[j] == AddAt(prev, Start(i, seglen), d)[j]
    {
      assert Added(bits, i + 1, key, alpha, seglen, gen, j)
          == Added(bits, i, key, alpha, seglen, gen, j) + (if Start(i, seglen) <= j < Start(i, seglen) + seglen then d[j - Start(i, seglen)] else 0.0);
    }
  }

  /** Sample `k` of segment `i < n` has gained bit `i`'s perturbation at
      offset `k`, and nothing from any other segment. */
  lemma {:induction false} AddedInSegment(bits: string, n: nat, key: string, alpha: real, seglen: nat, gen: Generator, i: nat, k: nat)
    requires n <= |bits| && i < n && k < seglen
    ensures Added(bits, n, key, alpha, seglen, gen, Start(i, seglen) + k) == SegmentDelta(bits, i, key, alpha, seglen, gen)[k]
  {
    var j := Start(i, seglen) + k;
    if i == n - 1 {
      assert j - Start(n - 1, seglen) == k;
    } else {
      StartMonotone(i + 1, n - 1, seglen);
      AddedInSegment(bits, n - 1, key, alpha, seglen, gen, i, k);
    }
  }

  /** Writing bit `n - 1` changes no sample outside segment `n - 1`. */
  lemma EmbedStepLocal(x: seq<real>, bits: string, n: nat, key: string, alpha: real, seglen: nat, gen: Generator, j: nat)
    requires 1 <= n <= |bits| && j < |x|
    requires j < Start(n - 1, seglen) || Start(n, seglen) <= j
    ensures Embedded(x, bits, n, key, alpha, seglen, gen)[j] == Embedded(x, bits, n - 1, key, alpha, seglen, gen)[j]
  {
  }

  /** Sample `k` of payload segment `i` is the input sample plus bit `i`'s
      perturbation at offset `k`. */
  lemma WatermarkInSegment(x: seq<real>, bits: string, key: string, alpha: real, seglen: nat, gen: Generator, i: nat, k: nat)
    requires i < |bits| && k < seglen && Start(i, seglen) + k < |x|
    ensures Watermark(x, bits, key, alpha, seglen, gen)[Start(i, seglen) + k]
         == x[Start(i, seglen) + k] + SegmentDelta(bits, i, key, alpha, seglen, gen)[k]
  {
    AddedInSegment(bits, |bits|, key, alpha, seglen, gen, i, k);
  }

  /** Sample `k` of payload segment `i` is the input sample plus
      `alpha * prn_i[k]`, negated for a '0' bit. */
  lemma WatermarkChip(x: seq<real>, bits: string, key: string, alpha: real, seglen: nat, gen: Generator, i: nat, k: nat)
    requires i < |bits| && k < seglen && Start(i, seglen) + k < |x|
    ensures Watermark(x, bits, key, alpha, seglen, gen)[Start(i, seglen) + k]
         == x[Start(i, seglen) + k] + alpha * Polarity(bits[i]) * gen(SegmentKey(key, i), seglen)[k]
  {
    WatermarkInSegment(x, bits, key, alpha, seglen, gen, i, k);
    DeltaAt(gen(SegmentKey(key, i), seglen), alpha, bits[i], k);
  }

  /** Samples after the payload's last segment are the input samples. */
  lemma WatermarkTail(x: seq<real>, bits: string, key: string, alpha: real, seglen: nat, gen: Generator, j: nat)
    requires Start(|bits|, seglen) <= j < |x|
    ensures Watermark(x, bits, key, alpha, seglen, gen)[j] == x[j]
  {
  }

  /** Segments are independent: payloads that differ only in bit `i` give
      outputs that differ only inside segment `i`. */
  lemma NonInterference(x: seq<real>, bits: string, bits': string, i: nat, key: string, alpha: real, seglen: nat, gen: Generator, j: nat)
    requires seglen >= 1 && |bits| == |bits'|
    requires forall k :: 0 <= k < |bits| && k != i ==> bits[k] == bits'[k]
    requires j < |x| && (j < Start(i, seglen) || Start(i + 1, seglen) <= j)
    ensures Watermark(x, bits, key, alpha, seglen, gen)[j] == Watermark(x, bits', key, alpha, seglen, gen)[j]
  {
    if j < Start(|bits|, seglen) {
      var k := j / seglen;
      SegmentIndex(j, |bits|, seglen);
      var off := j - Start(k, seglen);
      assert k != i && Start(k, seglen) + off == j;
      assert bits[k] == bits'[k];
      AddedInSegment(bits, |bits|, key, alpha, seglen, gen, k, off);
      AddedInSegment(bits', |bits|, key, alpha, seglen, gen, k, off);
    } else {
      assert Added(bits, |bits|, key, alpha, seglen, gen, j) == 0.0;
      assert Added(bits', |bits|, key, alpha, seglen, gen, j) == 0.0;
    }
  }

  /** `y[start:start+len(d)] += d` on the copy `y`: the slice gains `d`,
      every other sample keeps its value. */
  method AddInto(y: array<real>, start: nat, d: seq<real>)
    requires start + |d| <= y.Length
    modifies y
    ensures y[..] == AddAt(old(y[..]), start, d)
  {
    forall j | start <= j < start + |d| {
      y[j] := y[j] + d[j - start];
    }
  }

  /** The loop of `embed`: add each bit's perturbation into its segment of
      `y`, which starts as a copy of `x`. */
  method SpreadPayload(y: array<real>, x: seq<real>, bits: string, key: string, alpha: real, seglen: nat, gen: Generator)
    requires y[..] == x && Start(|bits|, seglen) <= |x|
    modifies y
    ensures y[..] == Watermark(x, bits, key, alpha, seglen, gen)
  {
    var i := 0;
    while i < |bits|
      invariant 0 <= i <= |bits|
      invariant Start(i, seglen) <= |x|
      invariant y[..] == Embedded(x, bits, i, key, alpha, seglen, gen)
    {
      StartMonotone(i + 1, |bits|, seglen);
      var prn := gen(SegmentKey(key, i), seglen);
      var delta := Delta(prn, alpha, bits[i]);
      var start := i * seglen;
      StartIsProduct(i, seglen);
      AddInto(y, start, delta);
      EmbeddedSucc(x, bits, i, key, alpha, seglen, gen);
      i := i + 1;
    }
  }

  /** `embed` on the normalised samples `x`: check the capacity, copy the
      signal, then add each bit's perturbation into its segment in turn. */
  method Embed(x: seq<real>, rate: nat, text: string, key: string, alpha: real, segsecs: real, gen: Generator) returns (r: EmbedResult)
    requires ByteText(text) && segsecs >= 0.0
    ensures r == Embedding(x, text, key, alpha, SegmentLength(segsecs, rate), gen)
  {
    var bits := TextToBits(text);
    var seglen := SegmentLength(segsecs, rate);
    if seglen * |bits| > |x| {
      return AudioTooShort;
    }
    StartIsProduct(|bits|, seglen);
    var y := new real[|x|](j requires 0 <= j < |x| => x[j]);
    SpreadPayload(y, x, bits, key, alpha, seglen, gen);
    return Watermarked(y[..]);
  }
}
