# DSSS audio watermark codec

This project models the two scripts of a direct-sequence spread-spectrum (DSSS)
audio watermark:

- `embed_dsss_repeat.py` turns a text into a bit string: eight bits per
  character, most significant first, then an all-zero terminator byte. It
  cuts the mono signal into segments of `seglen = int(segsecs * rate)`
  samples. Bit `i` is spread over segment `i`: the embedder adds
  `+alpha * prn_i` for a `'1'` and `-alpha * prn_i` for a `'0'`, where
  `prn_i` is a pseudo-random sequence of ±1 chips seeded by `f"{key}_{i}"`.
- `extract_dsss_repeat.py` cuts the signal into `len(x) // seglen` whole
  segments. It correlates each segment with the same `prn_i` and reads a
  `'1'` only when the correlation is strictly positive. It then decodes the
  bits back to text, eight at a time, up to the first terminator byte or a
  short trailing chunk.

The modules follow the program's structure:

- `Prn` (`prn.dfy`) holds the shared spreading-sequence generator.
  `gen_prn` is a parameter of type `Generator`: any function that returns
  `n` values, each `+1.0` or `-1.0`. Embedder and detector are handed the
  same generator, which is how the model captures that both files define
  `gen_prn` identically. The seed string `key + "_" + str(i)` is modelled
  exactly, and distinct segment indices give distinct seed strings.
- `Protocol` (`protocol.dfy`) holds what both sides agree on: the bit
  alphabet, the terminator, the segment length and segment boundaries.
  `Start(i, seglen)` is the first sample of segment `i`. It is written as a
  sum of segment lengths and proved equal to `i * seglen`.
- `DsssEmbed` (`embed.dfy`) holds `text_to_bits` as functions and `embed`
  as a method. The method copies the samples into an array and adds each
  bit's perturbation into its slice in place.
- `DsssExtract` (`extract.dfy`) holds `bits_to_text` and `extract` as
  methods with loops, each proved equal to a specification function.
- `Codec` (`codec.dfy`) connects the two sides:
  - the bit codec inverts itself;
  - each embedded segment's correlation moves by exactly `±alpha * seglen`;
  - the whole codec round-trips on any host signal whose own correlations
    stay below that margin, and on silence in particular.

Samples are exact `real` numbers, so every arithmetic result is proved in
exact arithmetic.

Two behaviours of the code are worth stating:

- An empty recovered text is reported as "No watermark found", even when
  the embedded message was the empty string.
- A bit string that runs out without a terminator still yields the
  characters decoded so far; it is not a "not found" outcome.

## Model

| member | source | states |
|---|---|---|
| `Prn.GeneratorChip` | embed_dsss_repeat.py:7-11 | `gen_prn(seed, n)` returns `n` values; every chip is `+1.0` or `-1.0`, so it squares to 1 (the generator is a parameter shared by both sides; extract_dsss_repeat.py:20-26 defines it identically) |
| `Prn.Decimal` | embed_dsss_repeat.py:30 | `str(i)` for a segment index is a non-empty string of decimal digits, one digit exactly for indices below ten |
| `Prn.DecimalInjective` | embed_dsss_repeat.py:30 | different indices are written as different decimal strings |
| `Prn.SegmentKey` | embed_dsss_repeat.py:30 | the seed `f"{key}_{i}"` is the key, then `_`, then the decimal digits of `i`, and nothing else |
| `Prn.SegmentKeyInjective` | extract_dsss_repeat.py:49 | the seed strings `f"{key}_{i}"` of two segments of one key are equal only when the segment indices are equal |
| `Protocol.SegmentLength` | embed_dsss_repeat.py:23 | `int(segsecs * rate)` for a non-negative duration is, in exact arithmetic, the largest whole number of samples not exceeding `segsecs * rate` |
| `Protocol.StartIsProduct` | embed_dsss_repeat.py:32 | the first sample of segment `i` is `i * seglen` |
| `Protocol.StartMonotone` | embed_dsss_repeat.py:32-33 | a segment with a smaller index starts no later, so segment `i` ends before any later segment begins |
| `Protocol.SegmentFits` | extract_dsss_repeat.py:43-48 | each of the `len(x) // seglen` segments the detector reads lies inside the signal |
| `Protocol.SegmentCount` | embed_dsss_repeat.py:25 | when the first `n` segments fit in the signal, the detector reads at least `n` segments |
| `Protocol.SegmentIndex` | embed_dsss_repeat.py:32-33 | a sample inside the first `n` segments lies in segment `j // seglen`, which is one of them |
| `DsssEmbed.Binary` | embed_dsss_repeat.py:5 | the binary rendering has exactly the requested width and only `'0'`/`'1'` |
| `DsssEmbed.ByteBits` | embed_dsss_repeat.py:5 | a one-byte character becomes exactly eight binary digits |
| `DsssEmbed.CharBits` | embed_dsss_repeat.py:5 | the character bits have length `8 * len(t)`, and chunk `k` is the eight-bit form of character `k` |
| `DsssEmbed.TextToBits` | embed_dsss_repeat.py:4-5 | `text_to_bits(t)` has length `8 * len(t) + 8`, holds only `'0'`/`'1'`, chunk `k` is the eight-bit form of `t[k]`, and the last eight bits are `00000000`, so `text_to_bits("")` is exactly the terminator |
| `DsssEmbed.Polarity` | embed_dsss_repeat.py:31 | the factor `1 if b == '1' else -1` is a sign, and it is `+1` exactly for a `'1'` bit |
| `DsssEmbed.Delta` | embed_dsss_repeat.py:31 | a segment's perturbation has as many samples as its spreading sequence |
| `DsssEmbed.AddAt` | embed_dsss_repeat.py:33 | adding a slice keeps the signal length |
| `DsssEmbed.SegmentDelta` | embed_dsss_repeat.py:30-31 | bit `i`'s perturbation, spread with the sequence seeded by segment `i`'s key, has `seglen` samples |
| `DsssEmbed.Added` | embed_dsss_repeat.py:29-33 | what the first `n` iterations have added to a sample is zero from segment `n` on (`AddedInSegment` gives its value inside the segments) |
| `DsssEmbed.Embedded` | embed_dsss_repeat.py:28-33 | the signal after any number of loop iterations has the length of the input |
| `DsssEmbed.Watermark` | embed_dsss_repeat.py:28-33 | the watermarked signal has the length of the input |
| `DsssEmbed.Embedding` | embed_dsss_repeat.py:22-26 | `embed` fails with "Audio too short" exactly when `seglen * (8 * len(t) + 8) > len(x)`; otherwise its output has the input's length |
| `DsssEmbed.EmbeddedSucc` | embed_dsss_repeat.py:29-33 | one more iteration of the loop adds bit `i`'s perturbation into the slice `[i*seglen, i*seglen + seglen)` of the current signal |
| `DsssEmbed.AddedInSegment` | embed_dsss_repeat.py:29-33 | after the first `n` iterations, sample `k` of segment `i < n` carries exactly bit `i`'s perturbation, and nothing from any other bit |
| `DsssEmbed.EmbedStepLocal` | embed_dsss_repeat.py:32-33 | writing bit `n - 1` leaves every sample outside segment `n - 1` unchanged |
| `DsssEmbed.WatermarkInSegment` | embed_dsss_repeat.py:29-33 | sample `k` of payload segment `i` is the input sample plus bit `i`'s perturbation at offset `k` |
| `DsssEmbed.WatermarkChip` | embed_dsss_repeat.py:29-33 | for `i*seglen <= j < (i+1)*seglen`, `y[j] = x[j] + alpha * (±1) * prn_i[j - i*seglen]`, with `+1` for a `'1'` bit and `-1` for a `'0'` bit |
| `DsssEmbed.WatermarkTail` | embed_dsss_repeat.py:28-33 | every sample from index `len(bits) * seglen` on equals the input sample |
| `DsssEmbed.NonInterference` | embed_dsss_repeat.py:32-33 | two payloads that differ only in bit `i` give outputs that agree at every sample outside segment `i` |
| `DsssEmbed.AddInto` | embed_dsss_repeat.py:33 | `y[start:start+len(d)] += d` on the array: the slice gains `d`, every other sample keeps its value |
| `DsssEmbed.SpreadPayload` | embed_dsss_repeat.py:29-33 | the loop turns the copy of `x` into the watermarked signal |
| `DsssEmbed.Embed` | embed_dsss_repeat.py:22-33 | `embed` returns the "Audio too short" error before touching any sample when the payload does not fit, and the watermarked signal otherwise |
| `DsssExtract.ParseBinary` | extract_dsss_repeat.py:16 | `int(s, 2)` is below `2^len(s)` and is zero exactly when every digit is `'0'` |
| `DsssExtract.ByteChar` | extract_dsss_repeat.py:16 | `chr(int(byte, 2))` for a full byte other than the terminator has a code point in 1..255 equal to the byte's value |
| `DsssExtract.Chunk` | extract_dsss_repeat.py:11 | a full chunk has eight bits |
| `DsssExtract.DecodeText` | extract_dsss_repeat.py:7-17 | `bits_to_text` returns at most `len(bits) // 8` characters |
| `DsssExtract.DecodeTextChar` | extract_dsss_repeat.py:15-16 | output character `k` comes from chunk `k`, a full chunk other than `00000000`; its code point is `int(chunk_k, 2)` and lies in 1..255 |
| `DsssExtract.DecodeTextStop` | extract_dsss_repeat.py:13-14 | decoding ends only where the next chunk is short or is the terminator |
| `DsssExtract.StopsAtTerminator` | extract_dsss_repeat.py:13-14 | when chunk `k` is `00000000`, no character from that chunk or any later one appears in the output |
| `DsssExtract.ChunkAt` | extract_dsss_repeat.py:11 | `bits[i:i+8]` has at most eight bits |
| `DsssExtract.DecodeFrom` | extract_dsss_repeat.py:10-16 | from offset `i`, decoding stops at a short or terminator chunk, and otherwise yields that chunk's character followed by the decoding from `i + 8` |
| `DsssExtract.BitsToText` | extract_dsss_repeat.py:7-17 | the loop with its early `break` returns exactly the decoded text |
| `DsssExtract.Dot` | extract_dsss_repeat.py:50 | `np.dot` of a silent segment with any sequence is zero (`Codec.DotPerturbed` gives how a perturbation moves it) |
| `DsssExtract.Segment` | extract_dsss_repeat.py:48 | `x[i*seglen:(i+1)*seglen]` for a whole segment has `seglen` samples |
| `DsssExtract.SegmentAt` | extract_dsss_repeat.py:48 | sample `k` of segment `i` is sample `i*seglen + k` of the signal, which exists |
| `DsssExtract.Correlation` | extract_dsss_repeat.py:48-50 | the correlation of segment `i` with its regenerated sequence is zero when that segment is silent |
| `DsssExtract.Decide` | extract_dsss_repeat.py:51 | the decision is `'0'` or `'1'`, and `'1'` exactly when the correlation is strictly positive, so zero gives `'0'` |
| `DsssExtract.Detected` | extract_dsss_repeat.py:43-51 | the detector produces exactly `len(x) // seglen` bits, and bit `i` is `'1'` exactly when `dot(segment_i, prn_i) > 0`, so a zero correlation gives `'0'` |
| `DsssExtract.DetectedLocal` | extract_dsss_repeat.py:47-51 | bit `i` depends only on samples `[i*seglen, (i+1)*seglen)` |
| `DsssExtract.Extraction` | extract_dsss_repeat.py:54-58 | a reported watermark has between 1 and `len(x) // seglen // 8` characters, and a signal shorter than one segment gives "No watermark found" |
| `DsssExtract.Extract` | extract_dsss_repeat.py:41-58 | the correlation loop followed by `bits_to_text` gives the outcome of `Extraction` |
| `Codec.ParseBinaryOfBinary` | extract_dsss_repeat.py:16 | `int(f"{v:0{w}b}", 2) == v` for every `v < 2^w` |
| `Codec.ByteBitsRoundTrip` | embed_dsss_repeat.py:5 | a byte's eight bits read back to the byte, and they are `00000000` exactly for the zero byte |
| `Codec.DecodeEncoded` | extract_dsss_repeat.py:7-17 | decoding the encoded characters and the terminator returns the characters, whatever bits follow |
| `Codec.BitsRoundTrip` | extract_dsss_repeat.py:7-17 | `bits_to_text(text_to_bits(t)) == t` for every `t` whose code points lie in 1..255 |
| `Codec.PayloadPrefixDecodes` | extract_dsss_repeat.py:54 | any bit string that starts with `text_to_bits(t)` decodes to `t` |
| `Codec.MarginIsProduct` | embed_dsss_repeat.py:31 | the margin added up chip by chip is `alpha * seglen` |
| `Codec.MarginPositive` | embed_dsss_repeat.py:31 | the margin is positive for `alpha > 0` and `seglen >= 1` |
| `Codec.MarginNegated` | embed_dsss_repeat.py:31 | the margin of `-alpha` is the negated margin of `alpha` |
| `Codec.DotPerturbed` | extract_dsss_repeat.py:50 | adding `c` times a ±1 sequence to a segment adds `c` per chip to its correlation with that sequence |
| `Codec.DotShift` | extract_dsss_repeat.py:50 | adding a bit's perturbation moves the correlation with its sequence by `+alpha * seglen` for a `'1'` and by `-alpha * seglen` for a `'0'` |
| `Codec.SegmentOfWatermark` | embed_dsss_repeat.py:29-33 | segment `i` of the embedded signal is segment `i` of the input plus bit `i`'s perturbation |
| `Codec.SegmentCorrelation` | extract_dsss_repeat.py:47-50 | the detector's correlation for an embedded segment is the input's correlation moved by the margin, up for `'1'` and down for `'0'` |
| `Codec.SilentSegmentCorrelation` | extract_dsss_repeat.py:48-50 | on an all-zero signal, the detector's correlation for embedded segment `i` is exactly `alpha * seglen` for a `'1'` bit and `-(alpha * seglen)` for a `'0'` bit |
| `Codec.DetectsSegment` | extract_dsss_repeat.py:49-51 | bit `i` is read back correctly when the input's own correlation in segment `i` is smaller in size than `alpha * seglen` |
| `Codec.DetectsEmbedded` | extract_dsss_repeat.py:47-51 | on a host signal quiet under every payload segment, the detector's first `len(bits)` decisions are the embedded bits |
| `Codec.SilentIsQuiet` | extract_dsss_repeat.py:47-50 | on an all-zero signal every segment's correlation is zero, so it stays below any positive margin |
| `Codec.DetectsOnSilence` | extract_dsss_repeat.py:47-51 | on an all-zero signal with `alpha > 0` and `seglen >= 1`, the detector's first `len(bits)` decisions on the embedded signal are the embedded bits |
| `Codec.RoundTripQuiet` | extract_dsss_repeat.py:41-58 | embedding then extracting with the same key, generator and segment length returns the text on a quiet host signal, or "No watermark found" for the empty text |
| `Codec.RoundTripSilent` | extract_dsss_repeat.py:41-58 | on an all-zero signal with `alpha > 0` and `seglen >= 1`, every text with code points in 1..255 that fits is recovered exactly |

## Left out

- WAV reading and writing, the choice of the first channel of a stereo file and its re-assembly are file I/O. The model starts from the mono samples and returns them.
- Integer-to-float normalisation, float32 rounding and the `np.int16(np.clip(...))` re-quantisation are left out. Samples are exact reals, so the round trip is proved in exact arithmetic, not in float32 with clipping.
- `gen_prn`'s SHA-256 hashing and numpy `RandomState.choice` are foreign library code. Only their contract is kept: `n` values, each `+1.0` or `-1.0`, the same for the same seed string.
- The probabilistic behaviour under a wrong key, and robustness to resampling or compression, are not deterministic properties of the code.
- The command-line parsing and the `print` calls are plumbing. `extract` returns an `Outcome` (`Extracted(text)` or `NoWatermarkFound`) in place of the two messages. The `alpha` option of `extract` is unused by the code and is not a parameter of `Extract`.
- `Protocol.SegmentLength`: takes the floor of the exact product `segsecs * rate`. Python rounds the product to a float64 before `int()` truncates it, so a product just below a whole number can round up to it (the double nearest 0.7 times 1000 gives 700 in Python and 699 here). That rounding is not modelled. Embed and extract compute `seglen` the same way, so the round trip is unaffected.
- `DsssEmbed.TextToBits`: requires every code point to be at most 255. For larger code points `f"{ord(c):08b}"` emits more than eight bits and desynchronises the stream; that behaviour is not modelled.
- `DsssExtract.DecodeText`: requires the input to hold only `'0'` and `'1'`. On other characters `int(byte, 2)` either raises or, for surrounding whitespace, a leading sign or `_` between digits, parses leniently; neither case is modelled. The only caller passes the detector's bits.
- `DsssEmbed.Embed`: requires `segsecs >= 0`. Python's `int()` truncates a negative product towards zero, and that case is not modelled.
- `DsssExtract.Extract`: requires `segsecs >= 0` and a segment length of at least one sample. With `seglen == 0`, `len(x) // seglen` raises `ZeroDivisionError`. When `segsecs * rate <= -1`, `seglen` is negative, `len(x) // seglen` is at most zero, the loop does not run and "No watermark found" is printed. Neither path is modelled.
