/** The detecting side: per-segment correlation against the regenerated
    spreading sequence, and the decoding of the recovered bit string back to
    text (extract_dsss_repeat.py). */
module DsssExtract {
  import opened Protocol
  import opened Prn

  /** `int(s, 2)`: the value of a string of binary digits. */
  function ParseBinary(s: string): (v: nat)
    requires IsBitString(s)
    ensures v < Pow2(|s|)
    ensures v == 0 <==> forall k :: 0 <= k < |s| ==> s[k] == '0'
  {
    if s == [] then 0
    else
      var v := 2 * ParseBinary(s[..|s| - 1]) + (if s[|s| - 1] == '1' then 1 else 0);
      assert forall k :: 0 <= k < |s| - 1 ==> s[..|s| - 1][k] == s[k];
      v
  }

  /** `chr(int(byte, 2))` for a full byte that is not the terminator. */
  function ByteChar(byte: string): (c: char)
    requires |byte| == 8 && IsBitString(byte) && byte != Terminator
    ensures 1 <= c as int <= 255 && c as int == ParseBinary(byte)
  {
    var v := ParseBinary(byte);
    assert Pow2(8) == 256;
    v as char
  }

  /** Chunk `k` of a bit string: bits `[8k, 8k+8)`. */
  function Chunk(bits: string, k: nat): (byte: string)
    requires 8 * k + 8 <= |bits|
    ensures |byte| == 8
  {
    bits[8 * k..][..8]
  }

  /** `bits_to_text`: one character per full 8-bit chunk, up to the first
      chunk that is the terminator or shorter than 8 bits. */
  function DecodeText(bits: string): (r: string)
    requires IsBitString(bits)
    ensures |r| <= |bits| / 8
    decreases |bits|
  {
    if |bits| < 8 || bits[..8] == Terminator then []
    else [ByteChar(bits[..8])] + DecodeText(bits[8..])
  }

  lemma ChunkShift(bits: string, k: nat)
    requires 8 * k + 16 <= |bits|
    ensures Chunk(bits[8..], k) == Chunk(bits, k + 1)
  {
  }

  /** Character `k` of the text is decoded from chunk `k`, which is a full
      chunk other than the terminator; its code point lies in 1..255. */
  lemma {:induction false} DecodeTextChar(bits: string, k: nat)
    requires IsBitString(bits) && k < |DecodeText(bits)|
    ensures 8 * k + 8 <= |bits| && Chunk(bits, k) != Terminator
    ensures 1 <= DecodeText(bits)[k] as int <= 255
    ensures DecodeText(bits)[k] as int == ParseBinary(Chunk(bits, k))
  {
    if k > 0 {
      DecodeTextChar(bits[8..], k - 1);
      ChunkShift(bits, k - 1);
    }
  }

  /** Decoding stops only at the terminator or at a short trailing chunk. */
  lemma {:induction false} DecodeTextStop(bits: string)
    requires IsBitString(bits)
    ensures var n := |DecodeText(bits)|;
      |bits| < 8 * n + 8 || Chunk(bits, n) == Terminator
  {
    if !(|bits| < 8 || bits[..8] == Terminator) {
      DecodeTextStop(bits[8..]);
      var n := |DecodeText(bits[8..])|;
      if 8 * n + 16 <= |bits| {
        ChunkShift(bits, n);
      }
    }
  }

  /** No character comes from a terminator chunk or from anything after it. */
  lemma StopsAtTerminator(bits: string, k: nat)
    requires IsBitString(bits) && 8 * k + 8 <= |bits| && Chunk(bits, k) == Terminator
    ensures |DecodeText(bits)| <= k
  {
    if k < |DecodeText(bits)| {
      DecodeTextChar(bits, k);
    }
  }

  /** The chunk at offset `i`, cut short at the end of the bits. */
  function ChunkAt(bits: string, i: nat): (byte: string)
    requires i <= |bits|
    ensures |byte| <= 8
  {
    bits[i..if i + 8 <= |bits| then i + 8 else |bits|]
  }

  /** Decoding from offset `i` stops at a short or terminator chunk and
      otherwise yields that chunk's character, then the decoding from `i + 8`. */
  lemma DecodeFrom(bits: string, i: nat)
    requires IsBitString(bits) && i <= |bits|
    ensures var byte := ChunkAt(bits, i);
      if byte == Terminator || |byte| < 8 then DecodeText(bits[i..]) == []
      else i + 8 <= |bits| && DecodeText(bits[i..]) == [ByteChar(byte)] + DecodeText(bits[i + 8..])
  {
    if i + 8 <= |bits| {
      assert bits[i..][..8] == bits[i..i + 8];
      assert bits[i..][8..] == bits[i + 8..];
    }
  }

  /** The loop of `bits_to_text`, stepping through the bits eight at a time
      and leaving it early at the terminator or a short chunk. */
  method BitsToText(bits: string) returns (text: string)
    requires IsBitString(bits)
    ensures text == DecodeText(bits)
  {
    var chars: string := [];
    var i := 0;
    while i < |bits|
      invariant 0 <= i <= |bits|
      invariant chars + DecodeText(bits[i..]) == DecodeText(bits)
    {
      var byte := ChunkAt(bits, i);
      DecodeFrom(bits, i);
      if byte == Terminator || |byte| < 8 {
        break;
      }
      var c := ByteChar(byte);
      assert (chars + [c]) + DecodeText(bits[i + 8..]) == chars + ([c] + DecodeText(bits[i + 8..]));
      chars := chars + [c];
      i := i + 8;
    }
    text := chars;
  }

  /** Every sample is zero. */
  predicate Silent(a: seq<real>) {
    forall k :: 0 <= k < |a| ==> a[k] == 0.0
  }

  /** `np.dot(a, b)`: the sum of the element-wise products. Silence
      correlates to zero with any sequence. */
  function Dot(a: seq<real>, b: seq<real>): (r: real)
    requires |a| == |b|
    ensures Silent(a) ==> r == 0.0
  {
    if a == [] then 0.0 else a[0] * b[0] + Dot(a[1..], b[1..])
  }

  /** Samples `[i*seglen, (i+1)*seglen)`: segment `i` of `x`. */
  function Segment(x: seq<real>, seglen: nat, i: nat): (seg: seq<real>)
    requires seglen >= 1 && i < |x| / seglen
    ensures |seg| == seglen
  {
    SegmentFits(i, |x|, seglen);
    x[Start(i, seglen)..Start(i, seglen) + seglen]
  }

  lemma SegmentAt(x: seq<real>, seglen: nat, i: nat, k: nat)
    requires seglen >= 1 && i < |x| / seglen && k < seglen
    ensures Start(i, seglen) + k < |x| && Segment(x, seglen, i)[k] == x[Start(i, seglen) + k]
  {
    SegmentFits(i, |x|, seglen);
  }

  /** The correlation of segment `i` with the sequence seeded by its key;
      it is zero when the segment is silent. */
  function Correlation(x: seq<real>, key: string, seglen: nat, gen: Generator, i: nat): (corr: real)
    requires seglen >= 1 && i < |x| / seglen
    ensures Silent(Segment(x, seglen, i)) ==> corr == 0.0
  {
    Dot(Segment(x, seglen, i), gen(SegmentKey(key, i), seglen))
  }

  /** The bit decision: '1' only for a strictly positive correlation. */
  function Decide(corr: real): (b: char)
    ensures b == '0' || b == '1'
    ensures b == '1' <==> corr > 0.0
  {
    if corr > 0.0 then '1' else '0'
  }

  /** The bits the detector reads from `x`, one per whole segment. */
  function Detected(x: seq<real>, key: string, seglen: nat, gen: Generator): (bits: string)
    requires seglen >= 1
    ensures |bits| == |x| / seglen && IsBitString(bits)
    ensures forall i :: 0 <= i < |bits| ==> (bits[i] == '1' <==> Correlation(x, key, seglen, gen, i) > 0.0)
  {
    seq(|x| / seglen, i requires 0 <= i < |x| / seglen => Decide(Correlation(x, key, seglen, gen, i)))
  }

  /** Bit `i` depends only on segment `i` of the signal. */
  lemma DetectedLocal(x: seq<real>, x': seq<real>, key: string, seglen: nat, gen: Generator, i: nat)
    requires seglen >= 1 && i < |x| / seglen && i < |x'| / seglen
    requires Segment(x, seglen, i) == Segment(x', seglen, i)
    ensures Detected(x, key, seglen, gen)[i] == Detected(x', key, seglen, gen)[i]
  {
  }

  datatype Outcome =
    | Extracted(text: string)
    /** The recovered text is empty. */
    | NoWatermarkFound

  /** What `extract` reports for the normalised mono samples `x`. */
  function Extraction(x: seq<real>, key: string, seglen: nat, gen: Generator): (o: Outcome)
    requires seglen >= 1
    ensures o.Extracted? ==> 1 <= |o.text| <= |x| / seglen / 8
    ensures |x| < seglen ==> o == NoWatermarkFound
  {
    var bits := Detected(x, key, seglen, gen);
    var wm := DecodeText(bits);
    assert |x| < seglen ==> |bits| == 0 by {
      if |x| < seglen {
        assert |x| / seglen == 0;
      }
    }
    if wm != [] then Extracted(wm) else NoWatermarkFound
  }

  /** `extract` on the normalised samples `x`: correlate each whole segment,
      decide its bit, then decode the bit string. */
  method Extract(x: seq<real>, rate: nat, key: string, segsecs: real, gen: Generator) returns (o: Outcome)
    requires segsecs >= 0.0 && SegmentLength(segsecs, rate) >= 1
    ensures o == Extraction(x, key, SegmentLength(segsecs, rate), gen)
  {
    var seglen := SegmentLength(segsecs, rate);
    var nsegs := |x| / seglen;
    var bits: string := [];
    var i := 0;
    while i < nsegs
      invariant 0 <= i <= nsegs
      invariant bits == Detected(x, key, seglen, gen)[..i]
    {
      SegmentFits(i, |x|, seglen);
      StartIsProduct(i, seglen);
      StartIsProduct(i + 1, seglen);
      var seg := x[i * seglen..(i + 1) * seglen];
      var prn := gen(SegmentKey(key, i), seglen);
      var corr := Dot(seg, prn);
      assert corr == Correlation(x, key, seglen, gen, i);
      bits := bits + [if corr > 0.0 then '1' else '0'];
      i := i + 1;
    }
    assert bits == Detected(x, key, seglen, gen);
    var wm := BitsToText(bits);
    if wm != [] {
      o := Extracted(wm);
    } else {
      o := NoWatermarkFound;
    }
  }
}
