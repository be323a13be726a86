/** How the two sides fit together: the bit codec inverts itself, and the
    detector reads back every bit the embedder spread into a signal whose own
    correlation with the spreading sequences is small, silence in
    particular. All arithmetic is exact. */
module Codec {
  import opened Protocol
  import opened Prn
  import opened DsssEmbed
  import opened DsssExtract

  /** Every character has a code point in 1..255: a byte, and not the
      terminator. */
  predicate NonZeroBytes(t: string) {
    forall k :: 0 <= k < |t| ==> 1 <= t[k] as int <= 255
  }

  /** `int(f"{v:0{width}b}", 2) == v` for every value that fits the width. */
  lemma {:induction false} ParseBinaryOfBinary(v: nat, width: nat)
    requires v < Pow2(width)
    ensures ParseBinary(Binary(v, width)) == v
  {
    if width > 0 {
      var s := Binary(v, width);
      assert s[..|s| - 1] == Binary(v / 2, width - 1);
      ParseBinaryOfBinary(v / 2, width - 1);
    }
  }

  /** A byte's eight bits read back to the byte, and they are the terminator
      exactly for the zero byte. */
  lemma ByteBitsRoundTrip(c: char)
    requires c as int < 256
    ensures ParseBinary(ByteBits(c)) == c as int
    ensures ByteBits(c) == Terminator <==> c as int == 0
  {
    assert Pow2(8) == 256;
    ParseBinaryOfBinary(c as int, 8);
    var b := ByteBits(c);
    if c as int == 0 {
      assert forall k :: 0 <= k < 8 ==> b[k] == '0';
      assert b == Terminator;
    }
  }

  /** Decoding the encoded characters returns them, whatever bits follow the
      terminator. */
  lemma {:induction false} DecodeEncoded(t: string, rest: string)
    requires NonZeroBytes(t) && IsBitString(rest)
    ensures IsBitString(CharBits(t) + Terminator + rest)
    ensures DecodeText(CharBits(t) + Terminator + rest) == t
  {
    var bits := CharBits(t) + Terminator + rest;
    if t == [] {
      assert bits[..8] == Terminator;
    } else {
      var head := ByteBits(t[0]);
      var tail := CharBits(t[1..]) + Terminator + rest;
      assert bits == head + tail;
      assert bits[..8] == head && bits[8..] == tail;
      ByteBitsRoundTrip(t[0]);
      DecodeEncoded(t[1..], rest);
      assert DecodeText(bits) == [ByteChar(head)] + DecodeText(tail);
      assert ByteChar(head) == t[0];
      assert t == [t[0]] + t[1..];
    }
  }

  /** `bits_to_text(text_to_bits(t)) == t`. */
  lemma BitsRoundTrip(t: string)
    requires NonZeroBytes(t)
    ensures DecodeText(TextToBits(t)) == t
  {
    DecodeEncoded(t, []);
    assert CharBits(t) + Terminator + [] == TextToBits(t);
  }

  /** The detector still stops after the payload when more bits follow. */
  lemma PayloadPrefixDecodes(t: string, bits: string)
    requires NonZeroBytes(t) && IsBitString(bits)
    requires |TextToBits(t)| <= |bits| && bits[..|TextToBits(t)|] == TextToBits(t)
    ensures DecodeText(bits) == t
  {
    var n := |TextToBits(t)|;
    var rest := bits[n..];
    assert bits == CharBits(t) + Terminator + rest;
    DecodeEncoded(t, rest);
  }

  /** `alpha * n` written as the sum of `n` chips that each contribute
      `alpha`, which keeps the correlation proofs linear. */
  function Margin(alpha: real, n: nat): real {
    if n == 0 then 0.0 else alpha + Margin(alpha, n - 1)
  }

  lemma {:induction false} MarginIsProduct(alpha: real, n: nat)
    ensures Margin(alpha, n) == alpha * n as real
  {
    if n > 0 {
      MarginIsProduct(alpha, n - 1);
    }
  }

  lemma {:induction false} MarginPositive(alpha: real, n: nat)
    requires alpha > 0.0 && n >= 1
    ensures Margin(alpha, n) > 0.0
  {
    if n > 1 {
      MarginPositive(alpha, n - 1);
    }
  }

  lemma {:induction false} MarginNegated(alpha: real, n: nat)
    ensures Margin(-alpha, n) == -Margin(alpha, n)
  {
    if n > 0 {
      MarginNegated(alpha, n - 1);
    }
  }

  /** Correlating with a sequence of signs: adding `c` times the sequence to
      `a` adds `c` per chip to the correlation, since every chip squared is 1. */
  lemma {:induction false} DotPerturbed(a: seq<real>, s: seq<real>, p: seq<real>, c: real)
    requires |a| == |p| == |s|
    requires forall k :: 0 <= k < |p| ==> IsSign(p[k])
    requires forall k :: 0 <= k < |s| ==> s[k] == a[k] + c * p[k]
    ensures Dot(s, p) == Dot(a, p) + Margin(c, |p|)
  {
    if p != [] {
      DotPerturbed(a[1..], s[1..], p[1..], c);
      assert s[0] * p[0] == a[0] * p[0] + c by {
        assert p[0] * p[0] == 1.0;
      }
    }
  }

  /** Adding `alpha` times the signed sequence `p` to `a` moves the
      correlation with `p` by the margin, up for a '1' bit and down for a '0'
      bit. */
  lemma DotShift(a: seq<real>, s: seq<real>, p: seq<real>, alpha: real, b: char)
    requires |a| == |p| == |s|
    requires forall k :: 0 <= k < |p| ==> IsSign(p[k])
    requires forall k :: 0 <= k < |s| ==> s[k] == a[k] + Delta(p, alpha, b)[k]
    ensures Dot(s, p) == Dot(a, p) + (if b == '1' then Margin(alpha, |p|) else -Margin(alpha, |p|))
  {
    if b == '1' {
      forall k | 0 <= k < |s|
        ensures s[k] == a[k] + alpha * p[k]
      {
        DeltaAt(p, alpha, b, k);
      }
      DotPerturbed(a, s, p, alpha);
    } else {
      forall k | 0 <= k < |s|
        ensures s[k] == a[k] + (-alpha) * p[k]
      {
        DeltaAt(p, alpha, b, k);
      }
      DotPerturbed(a, s, p, -alpha);
      MarginNegated(alpha, |p|);
    }
  }

  /** Segment `i` of the embedded signal is segment `i` of the input plus
      bit `i`'s perturbation. */
  lemma SegmentOfWatermark(x: seq<real>, bits: string, key: string, alpha: real, seglen: nat, gen: Generator, i: nat)
    requires seglen >= 1 && i < |bits| && i < |x| / seglen
    ensures var s, a := Segment(Watermark(x, bits, key, alpha, seglen, gen), seglen, i), Segment(x, seglen, i);
      forall k :: 0 <= k < seglen ==> s[k] == a[k] + SegmentDelta(bits, i, key, alpha, seglen, gen)[k]
  {
    var y := Watermark(x, bits, key, alpha, seglen, gen);
    var s, a := Segment(y, seglen, i), Segment(x, seglen, i);
    forall k | 0 <= k < seglen
      ensures s[k] == a[k] + SegmentDelta(bits, i, key, alpha, seglen, gen)[k]
    {
      SegmentAt(x, seglen, i, k);
      SegmentAt(y, seglen, i, k);
      WatermarkInSegment(x, bits, key, alpha, seglen, gen, i, k);
    }
  }

  /** The correlation of an embedded segment is the input's correlation plus
      the margin for a '1' bit and minus it for a '0' bit. */
  lemma SegmentCorrelation(x: seq<real>, bits: string, key: string, alpha: real, seglen: nat, gen: Generator, i: nat)
    requires seglen >= 1 && i < |bits| && i < |x| / seglen
    ensures Correlation(Watermark(x, bits, key, alpha, seglen, gen), key, seglen, gen, i)
         == Correlation(x, key, seglen, gen, i) + (if bits[i] == '1' then Margin(alpha, seglen) else -Margin(alpha, seglen))
  {
    SegmentOfWatermark(x, bits, key, alpha, seglen, gen, i);
    DotShift(Segment(x, seglen, i), Segment(Watermark(x, bits, key, alpha, seglen, gen), seglen, i),
             gen(SegmentKey(key, i), seglen), alpha, bits[i]);
  }

  /** On silence, the correlation of embedded segment `i` is exactly
      `alpha * seglen` for a '1' bit and `-(alpha * seglen)` for a '0' bit. */
  lemma SilentSegmentCorrelation(x: seq<real>, bits: string, key: string, alpha: real, seglen: nat, gen: Generator, i: nat)
    requires seglen >= 1 && i < |bits| && i < |x| / seglen && Silent(x)
    ensures Correlation(Watermark(x, bits, key, alpha, seglen, gen), key, seglen, gen, i)
         == if bits[i] == '1' then alpha * seglen as real else -(alpha * seglen as real)
  {
    forall k | 0 <= k < seglen
      ensures Segment(x, seglen, i)[k] == 0.0
    {
      SegmentAt(x, seglen, i, k);
    }
    assert Silent(Segment(x, seglen, i));
    SegmentCorrelation(x, bits, key, alpha, seglen, gen, i);
    MarginIsProduct(alpha, seglen);
  }

  /** Bit `i` survives when the input's own correlation in segment `i` stays
      below the embedding margin `alpha * seglen`. */
  lemma DetectsSegment(x: seq<real>, bits: string, key: string, alpha: real, seglen: nat, gen: Generator, i: nat)
    requires seglen >= 1 && alpha > 0.0 && IsBitString(bits)
    requires i < |bits| && i < |x| / seglen
    requires -Margin(alpha, seglen) < Correlation(x, key, seglen, gen, i) < Margin(alpha, seglen)
    ensures Detected(Watermark(x, bits, key, alpha, seglen, gen), key, seglen, gen)[i] == bits[i]
  {
    SegmentCorrelation(x, bits, key, alpha, seglen, gen, i);
  }

  /** The input's correlation with each payload segment's sequence is below
      the margin `alpha * seglen`. */
  ghost predicate Quiet(x: seq<real>, n: nat, key: string, alpha: real, seglen: nat, gen: Generator)
    requires seglen >= 1
  {
    forall i :: 0 <= i < n && i < |x| / seglen ==>
      -Margin(alpha, seglen) < Correlation(x, key, seglen, gen, i) < Margin(alpha, seglen)
  }

  /** The detector's first `|bits|` decisions on the embedded signal are the
      embedded bits. */
  lemma DetectsEmbedded(x: seq<real>, bits: string, key: string, alpha: real, seglen: nat, gen: Generator)
    requires seglen >= 1 && alpha > 0.0 && IsBitString(bits) && Start(|bits|, seglen) <= |x|
    requires Quiet(x, |bits|, key, alpha, seglen, gen)
    ensures var d := Detected(Watermark(x, bits, key, alpha, seglen, gen), key, seglen, gen);
      |bits| <= |d| && d[..|bits|] == bits
  {
    var d := Detected(Watermark(x, bits, key, alpha, seglen, gen), key, seglen, gen);
    SegmentCount(|bits|, |x|, seglen);
    forall i | 0 <= i < |bits|
      ensures d[i] == bits[i]
    {
      DetectsSegment(x, bits, key, alpha, seglen, gen, i);
    }
  }

  /** Embedding then extracting with the same key and segment length returns
      the text, provided the host signal is quiet under the payload. */
  lemma RoundTripQuiet(x: seq<real>, t: string, key: string, alpha: real, seglen: nat, gen: Generator)
    requires seglen >= 1 && alpha > 0.0 && NonZeroBytes(t)
    requires seglen * (8 * |t| + 8) <= |x|
    requires Quiet(x, 8 * |t| + 8, key, alpha, seglen, gen)
    ensures var r := Embedding(x, t, key, alpha, seglen, gen);
      r.Watermarked? &&
      DecodeText(Detected(r.samples, key, seglen, gen)) == t &&
      Extraction(r.samples, key, seglen, gen) == if t == [] then NoWatermarkFound else Extracted(t)
  {
    var bits := TextToBits(t);
    StartIsProduct(|bits|, seglen);
    DetectsEmbedded(x, bits, key, alpha, seglen, gen);
    var y := Watermark(x, bits, key, alpha, seglen, gen);
    PayloadPrefixDecodes(t, Detected(y, key, seglen, gen));
  }

  /** Silence is quiet: its correlation with every segment's sequence is
      zero, below any positive margin. */
  lemma SilentIsQuiet(x: seq<real>, n: nat, key: string, alpha: real, seglen: nat, gen: Generator)
    requires seglen >= 1 && alpha > 0.0
    requires Silent(x)
    ensures Quiet(x, n, key, alpha, seglen, gen)
  {
    forall i | 0 <= i < n && i < |x| / seglen
      ensures Correlation(x, key, seglen, gen, i) == 0.0
    {
      forall k | 0 <= k < seglen
        ensures Segment(x, seglen, i)[k] == 0.0
      {
        SegmentAt(x, seglen, i, k);
      }
      assert Silent(Segment(x, seglen, i));
    }
    MarginPositive(alpha, seglen);
  }

  /** On silence, the detector's first `|bits|` decisions on the embedded
      signal are the embedded bits. */
  lemma DetectsOnSilence(x: seq<real>, bits: string, key: string, alpha: real, seglen: nat, gen: Generator)
    requires seglen >= 1 && alpha > 0.0 && IsBitString(bits) && Start(|bits|, seglen) <= |x|
    requires Silent(x)
    ensures var d := Detected(Watermark(x, bits, key, alpha, seglen, gen), key, seglen, gen);
      |bits| <= |d| && d[..|bits|] == bits
  {
    SilentIsQuiet(x, |bits|, key, alpha, seglen, gen);
    DetectsEmbedded(x, bits, key, alpha, seglen, gen);
  }

  /** The whole codec on silence: every payload of non-zero bytes that fits
      comes back from the embedded signal. */
  lemma RoundTripSilent(x: seq<real>, t: string, key: string, alpha: real, seglen: nat, gen: Generator)
    requires seglen >= 1 && alpha > 0.0 && NonZeroBytes(t)
    requires seglen * (8 * |t| + 8) <= |x|
    requires Silent(x)
    ensures var r := Embedding(x, t, key, alpha, seglen, gen);
      r.Watermarked? &&
      DecodeText(Detected(r.samples, key, seglen, gen)) == t &&
      Extraction(r.samples, key, seglen, gen) == if t == [] then NoWatermarkFound else Extracted(t)
  {
    SilentIsQuiet(x, 8 * |t| + 8, key, alpha, seglen, gen);
    RoundTripQuiet(x, t, key, alpha, seglen, gen);
  }
}
