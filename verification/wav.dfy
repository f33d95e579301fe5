/** The canonical 44-byte header of a RIFF WAVE file holding mono 16-bit
    PCM, as the conversion worker writes it through a DataView, followed by
    the samples as little-endian 16-bit words. */
module Wav {
  import opened Options

  type Byte = b: int | 0 <= b < 256
  type Int16 = x: int | -0x8000 <= x < 0x8000

  const Two16: nat := 0x1_0000
  const Two32: nat := 0x1_0000_0000

  /** Length of the header that precedes the sample data. */
  const HeaderSize: nat := 44

  // ---------------------------------------------------------------------
  // Little-endian integers
  // ---------------------------------------------------------------------

  /** Reads two bytes, low byte first. */
  function DecodeLe16(b: seq<Byte>): (v: nat)
    requires |b| == 2
    ensures v < Two16
  {
    b[0] as int + 256 * (b[1] as int)
  }

  /** `setUint16(off, x, true)` (and `setInt16`): the value is reduced
      modulo 2^16, then stored low byte first. */
  function Le16(x: int): (r: seq<Byte>)
    ensures |r| == 2
    ensures DecodeLe16(r) == x % Two16
  {
    var v := x % Two16;
    [v % 256, v / 256]
  }

  /** Encoding the value two bytes decode to gives back those bytes. */
  lemma Le16OfDecode(b: seq<Byte>)
    requires |b| == 2
    ensures Le16(DecodeLe16(b)) == b
  {
  }

  /** Reads four bytes, low byte first. */
  function DecodeLe32(b: seq<Byte>): (v: nat)
    requires |b| == 4
    ensures v < Two32
  {
    DecodeLe16(b[..2]) + Two16 * DecodeLe16(b[2..])
  }

  /** `setUint32(off, x, true)`: the value is reduced modulo 2^32, then
      stored low byte first. */
  function Le32(x: int): (r: seq<Byte>)
    ensures |r| == 4
    ensures DecodeLe32(r) == x % Two32
  {
    var v := x % Two32;
    var r := Le16(v % Two16) + Le16(v / Two16);
    assert r[..2] == Le16(v % Two16) && r[2..] == Le16(v / Two16);
    r
  }

  lemma Le32OfDecode(b: seq<Byte>)
    requires |b| == 4
    ensures Le32(DecodeLe32(b)) == b
  {
    var lo := DecodeLe16(b[..2]);
    var hi := DecodeLe16(b[2..]);
    var v := lo + Two16 * hi;
    assert v % Two32 == v;
    assert v % Two16 == lo && v / Two16 == hi;
    Le16OfDecode(b[..2]);
    Le16OfDecode(b[2..]);
    assert b == b[..2] + b[2..];
  }

  /** Reads a 16-bit two's-complement sample. */
  function DecodeInt16(b: seq<Byte>): (x: Int16)
    requires |b| == 2
    ensures Le16(x) == b
  {
    Le16OfDecode(b);
    var u := DecodeLe16(b);
    if u < 0x8000 then u
    else
      Le16Wraps(u);
      u - Two16
  }

  /** A 16-bit write cannot tell `x` from `x - 2^16`. */
  lemma Le16Wraps(x: int)
    ensures Le16(x - Two16) == Le16(x)
  {
    assert (x - Two16) % Two16 == x % Two16;
  }

  lemma DecodeInt16OfLe16(x: Int16)
    ensures DecodeInt16(Le16(x)) == x
  {
  }

  // ---------------------------------------------------------------------
  // The file
  // ---------------------------------------------------------------------

  /** `writeString`: one byte per UTF-16 code unit, `setUint8` keeping the
      low eight bits of `charCodeAt`. */
  function Ascii(s: string): (r: seq<Byte>)
    ensures |r| == |s|
    ensures forall k :: 0 <= k < |s| ==> r[k] == s[k] as int % 256
  {
    if |s| == 0 then [] else [s[0] as int % 256] + Ascii(s[1..])
  }

  /** The bytes after the header: each sample as a little-endian word. */
  function PcmBytes(pcm: seq<Int16>): (r: seq<Byte>)
    ensures |r| == 2 * |pcm|
    ensures forall k :: 0 <= k < |pcm| ==> r[2 * k .. 2 * k + 2] == Le16(pcm[k])
  {
    if |pcm| == 0 then []
    else
      var rest := PcmBytes(pcm[1..]);
      var r := Le16(pcm[0]) + rest;
      assert forall k :: 1 <= k < |pcm| ==> r[2 * k .. 2 * k + 2] == rest[2 * (k - 1) .. 2 * (k - 1) + 2];
      r
  }

  /** The RIFF chunk header: tag, size of everything after the size
      field, and the WAVE form type. */
  function RiffHeader(numSamples: nat): seq<Byte>
  {
    Ascii("RIFF") + Le32(36 + 2 * numSamples) + Ascii("WAVE")
  }

  /** The `fmt ` chunk: its tag and size, then 16 bytes of PCM format for
      one 16-bit channel. */
  function FmtChunk(sampleRate: nat): seq<Byte>
  {
    FmtTagAndLayout() + FmtRates(sampleRate)
  }

  /** Tag, chunk size 16, format tag 1 (PCM), one channel. */
  function FmtTagAndLayout(): seq<Byte>
  {
    Ascii("fmt ") + Le32(16) + Le16(1) + Le16(1)
  }

  /** Sample rate, byte rate, block align 2, 16 bits per sample. */
  function FmtRates(sampleRate: nat): seq<Byte>
  {
    Le32(sampleRate) + Le32(sampleRate * 2) + Le16(2) + Le16(16)
  }

  /** The header of the `data` chunk: tag and size of the samples. */
  function DataHeader(numSamples: nat): seq<Byte>
  {
    Ascii("data") + Le32(2 * numSamples)
  }

  /** The header for `numSamples` mono 16-bit samples at `sampleRate` Hz. */
  function Header(numSamples: nat, sampleRate: nat): seq<Byte>
  {
    RiffHeader(numSamples) + FmtChunk(sampleRate) + DataHeader(numSamples)
  }

  lemma RiffHeaderFields(numSamples: nat)
    ensures var h := RiffHeader(numSamples);
      && |h| == 12
      && h[0..4] == Ascii("RIFF")
      && h[4..8] == Le32(36 + 2 * numSamples)
      && h[8..12] == Ascii("WAVE")
  {
    var a, b, c := Ascii("RIFF"), Le32(36 + 2 * numSamples), Ascii("WAVE");
    SlicesOfThree(a, b, c);
  }

  lemma FmtChunkFields(sampleRate: nat)
    ensures var f := FmtChunk(sampleRate);
      && |f| == 24
      && f[0..4] == Ascii("fmt ")
      && f[4..8] == Le32(16)
      && f[8..10] == Le16(1)
      && f[10..12] == Le16(1)
      && f[12..16] == Le32(sampleRate)
      && f[16..20] == Le32(sampleRate * 2)
      && f[20..22] == Le16(2)
      && f[22..24] == Le16(16)
  {
    var p, q := FmtTagAndLayout(), FmtRates(sampleRate);
    FourParts(Ascii("fmt "), Le32(16), Le16(1), Le16(1));
    FourParts(Le32(sampleRate), Le32(sampleRate * 2), Le16(2), Le16(16));
    SliceOfLeft(p, q, 0, 4);
    SliceOfLeft(p, q, 4, 8);
    SliceOfLeft(p, q, 8, 10);
    SliceOfLeft(p, q, 10, 12);
    SliceOfRight(p, q, 0, 4);
    SliceOfRight(p, q, 4, 8);
    SliceOfRight(p, q, 8, 10);
    SliceOfRight(p, q, 10, 12);
  }

  /** The four operands of `a + b + c + d` sit side by side. */
  lemma FourParts<T>(a: seq<T>, b: seq<T>, c: seq<T>, d: seq<T>)
    ensures var s := a + b + c + d;
      && s[..|a|] == a
      && s[|a| .. |a| + |b|] == b
      && s[|a| + |b| .. |a| + |b| + |c|] == c
      && s[|a| + |b| + |c| ..] == d
  {
  }

  /** A slice of the left operand is the same slice of the concatenation. */
  lemma SliceOfLeft<T>(p: seq<T>, q: seq<T>, lo: nat, hi: nat)
    requires lo <= hi <= |p|
    ensures (p + q)[lo..hi] == p[lo..hi]
  {
  }

  lemma DataHeaderFields(numSamples: nat)
    ensures var d := DataHeader(numSamples);
      && |d| == 8
      && d[0..4] == Ascii("data")
      && d[4..8] == Le32(2 * numSamples)
  {
  }

  /** A slice of the right operand is a shifted slice of the concatenation. */
  lemma SliceOfRight<T>(p: seq<T>, q: seq<T>, lo: nat, hi: nat)
    requires lo <= hi <= |q|
    ensures (p + q)[|p| + lo .. |p| + hi] == q[lo..hi]
  {
  }

  lemma SlicesOfLeft<T>(p: seq<T>, q: seq<T>)
    ensures forall lo, hi :: 0 <= lo <= hi <= |p| ==> (p + q)[lo..hi] == p[lo..hi]
  {
    forall lo, hi | 0 <= lo <= hi <= |p|
      ensures (p + q)[lo..hi] == p[lo..hi]
    {
      assert (p + q)[lo..hi] == (p + q)[..|p|][lo..hi];
    }
  }

  lemma SlicesOfThree<T>(a: seq<T>, b: seq<T>, c: seq<T>)
    ensures (a + b + c)[..|a|] == a
    ensures (a + b + c)[|a| .. |a| + |b|] == b
    ensures (a + b + c)[|a| + |b| ..] == c
  {
  }

  /** Where each header field sits. */
  lemma InFirst<T>(a: seq<T>, b: seq<T>, c: seq<T>, lo: nat, hi: nat)
    requires lo <= hi <= |a|
    ensures (a + b + c)[lo..hi] == a[lo..hi]
  {
    SliceOfLeft(a + b, c, lo, hi);
    SliceOfLeft(a, b, lo, hi);
  }

  lemma InSecond<T>(a: seq<T>, b: seq<T>, c: seq<T>, lo: nat, hi: nat)
    requires lo <= hi <= |b|
    ensures (a + b + c)[|a| + lo .. |a| + hi] == b[lo..hi]
  {
    SliceOfLeft(a + b, c, |a| + lo, |a| + hi);
    SliceOfRight(a, b, lo, hi);
  }

  lemma InThird<T>(a: seq<T>, b: seq<T>, c: seq<T>, lo: nat, hi: nat)
    requires lo <= hi <= |c|
    ensures (a + b + c)[|a| + |b| + lo .. |a| + |b| + hi] == c[lo..hi]
  {
    SliceOfRight(a + b, c, lo, hi);
  }

  /** The RIFF chunk opens the header. */
  lemma HeaderRiffFields(numSamples: nat, sampleRate: nat)
    ensures |Header(numSamples, sampleRate)| == HeaderSize
    ensures var h := Header(numSamples, sampleRate);
      && h[0..4] == Ascii("RIFF")
      && h[4..8] == Le32(36 + 2 * numSamples)
      && h[8..12] == Ascii("WAVE")
  {
    var r, f, d := RiffHeader(numSamples), FmtChunk(sampleRate), DataHeader(numSamples);
    RiffHeaderFields(numSamples);
    assert |f| == 24 && |d| == 8;
    InFirst(r, f, d, 0, 4);
    InFirst(r, f, d, 4, 8);
    InFirst(r, f, d, 8, 12);
  }

  /** The `fmt ` chunk follows at offset 12. */
  lemma HeaderFmtFields(numSamples: nat, sampleRate: nat)
    ensures |Header(numSamples, sampleRate)| == HeaderSize
    ensures var h := Header(numSamples, sampleRate);
      && h[12..16] == Ascii("fmt ")
      && h[16..20] == Le32(16)
      && h[20..22] == Le16(1)
      && h[22..24] == Le16(1)
      && h[24..28] == Le32(sampleRate)
      && h[28..32] == Le32(sampleRate * 2)
      && h[32..34] == Le16(2)
      && h[34..36] == Le16(16)
  {
    var r, f, d := RiffHeader(numSamples), FmtChunk(sampleRate), DataHeader(numSamples);
    FmtChunkFields(sampleRate);
    assert |r| == 12 && |d| == 8;
    InSecond(r, f, d, 0, 4);
    InSecond(r, f, d, 4, 8);
    InSecond(r, f, d, 8, 10);
    InSecond(r, f, d, 10, 12);
    InSecond(r, f, d, 12, 16);
    InSecond(r, f, d, 16, 20);
    InSecond(r, f, d, 20, 22);
    InSecond(r, f, d, 22, 24);
  }

  /** The `data` chunk header closes it at offset 36. */
  lemma HeaderDataFields(numSamples: nat, sampleRate: nat)
    ensures |Header(numSamples, sampleRate)| == HeaderSize
    ensures var h := Header(numSamples, sampleRate);
      && h[36..40] == Ascii("data")
      && h[40..44] == Le32(2 * numSamples)
  {
    var r, f, d := RiffHeader(numSamples), FmtChunk(sampleRate), DataHeader(numSamples);
    DataHeaderFields(numSamples);
    assert |r| == 12 && |f| == 24;
    InThird(r, f, d, 0, 4);
    InThird(r, f, d, 4, 8);
  }

  /** The four bytes at `off`. */
  function Tag(buf: seq<Byte>, off: nat): seq<Byte>
    requires off + 4 <= |buf|
  {
    buf[off..off + 4]
  }

  /** The little-endian 16-bit field at `off`. */
  function Field16(buf: seq<Byte>, off: nat): nat
    requires off + 2 <= |buf|
  {
    DecodeLe16(buf[off..off + 2])
  }

  /** The little-endian 32-bit field at `off`. */
  function Field32(buf: seq<Byte>, off: nat): nat
    requires off + 4 <= |buf|
  {
    DecodeLe32(buf[off..off + 4])
  }

  /** The header's fields, read back through the field accessors. */
  lemma HeaderFieldValues(numSamples: nat, sampleRate: nat)
    ensures var h := Header(numSamples, sampleRate);
      && |h| == HeaderSize
      && Tag(h, 0) == Ascii("RIFF")
      && Field32(h, 4) == (36 + 2 * numSamples) % Two32
      && Tag(h, 8) == Ascii("WAVE")
      && Tag(h, 12) == Ascii("fmt ")
      && Field32(h, 16) == 16
      && Field16(h, 20) == 1
      && Field16(h, 22) == 1
      && Field32(h, 24) == sampleRate % Two32
      && Field32(h, 28) == (sampleRate * 2) % Two32
      && Field16(h, 32) == 2
      && Field16(h, 34) == 16
      && Tag(h, 36) == Ascii("data")
      && Field32(h, 40) == (2 * numSamples) % Two32
  {
    HeaderRiffFields(numSamples, sampleRate);
    HeaderFmtFields(numSamples, sampleRate);
    HeaderDataFields(numSamples, sampleRate);
  }

  /** Appending bytes does not change the fields of the part before. */
  lemma PrefixFields(p: seq<Byte>, q: seq<Byte>)
    ensures forall off: nat :: off + 4 <= |p| ==> Tag(p + q, off) == Tag(p, off) && Field32(p + q, off) == Field32(p, off)
    ensures forall off: nat :: off + 2 <= |p| ==> Field16(p + q, off) == Field16(p, off)
  {
    SlicesOfLeft(p, q);
  }

  /** Behind a header, sample `k` decodes back from bytes 44 + 2k and
      45 + 2k. */
  lemma SampleAt(h: seq<Byte>, pcm: seq<Int16>, k: nat)
    requires |h| == HeaderSize && k < |pcm|
    ensures DecodeInt16((h + PcmBytes(pcm))[HeaderSize + 2 * k .. HeaderSize + 2 * k + 2]) == pcm[k]
  {
    var body := PcmBytes(pcm);
    SliceOfRight(h, body, 2 * k, 2 * k + 2);
    DecodeInt16OfLe16(pcm[k]);
  }

  lemma SamplesAfter(h: seq<Byte>, pcm: seq<Int16>)
    requires |h| == HeaderSize
    ensures var buf := h + PcmBytes(pcm);
      forall k :: 0 <= k < |pcm| ==> DecodeInt16(buf[HeaderSize + 2 * k .. HeaderSize + 2 * k + 2]) == pcm[k]
  {
    forall k | 0 <= k < |pcm|
      ensures DecodeInt16((h + PcmBytes(pcm))[HeaderSize + 2 * k .. HeaderSize + 2 * k + 2]) == pcm[k]
    {
      SampleAt(h, pcm, k);
    }
  }

  /** `encodeWAV`: the header followed by the samples. */
  function EncodeWav(pcm: seq<Int16>, sampleRate: nat): (buf: seq<Byte>)
    ensures |buf| == HeaderSize + 2 * |pcm|
    ensures Tag(buf, 0) == Ascii("RIFF")
    ensures Field32(buf, 4) == (36 + 2 * |pcm|) % Two32
    ensures Tag(buf, 8) == Ascii("WAVE")
    ensures Tag(buf, 12) == Ascii("fmt ")
    ensures Field32(buf, 16) == 16
    ensures Field16(buf, 20) == 1   // PCM format tag
    ensures Field16(buf, 22) == 1   // one channel
    ensures Field32(buf, 24) == sampleRate % Two32
    ensures Field32(buf, 28) == (sampleRate * 2) % Two32  // byte rate: rate times block align
    ensures Field16(buf, 32) == 2   // block align: one 16-bit sample per frame
    ensures Field16(buf, 34) == 16  // bits per sample
    ensures Tag(buf, 36) == Ascii("data")
    ensures Field32(buf, 40) == (2 * |pcm|) % Two32
    ensures forall k :: 0 <= k < |pcm| ==> DecodeInt16(buf[HeaderSize + 2 * k .. HeaderSize + 2 * k + 2]) == pcm[k]
  {
    var h := Header(|pcm|, sampleRate);
    var body := PcmBytes(pcm);
    HeaderFieldValues(|pcm|, sampleRate);
    PrefixFields(h, body);
    SamplesAfter(h, pcm);
    h + body
  }

  /** What a reader learns from a header. */
  datatype WavInfo = WavInfo(numSamples: nat, sampleRate: nat)

  /** Reads back a header of the shape `encodeWAV` writes: the four tags,
      a 16-byte PCM format chunk for one 16-bit channel, a byte rate that
      matches the sample rate, and sizes that agree with the buffer. */
  function ParseHeader(buf: seq<Byte>): (r: Option<WavInfo>)
    ensures r.Some? ==> |buf| == HeaderSize + 2 * r.value.numSamples
  {
    if |buf| < HeaderSize then None
    else if Tag(buf, 0) != Ascii("RIFF") || Tag(buf, 8) != Ascii("WAVE")
         || Tag(buf, 12) != Ascii("fmt ") || Tag(buf, 36) != Ascii("data") then None
    else if Field32(buf, 16) != 16 || Field16(buf, 20) != 1 || Field16(buf, 22) != 1
         || Field16(buf, 32) != 2 || Field16(buf, 34) != 16 then None
    else if Field32(buf, 28) != (Field32(buf, 24) * Field16(buf, 32)) % Two32 then None
    else if Field32(buf, 4) != |buf| - 8 || Field32(buf, 40) != |buf| - HeaderSize
         || Field32(buf, 40) % 2 != 0 then None
    else Some(WavInfo(Field32(buf, 40) / 2, Field32(buf, 24)))
  }

  /** A file written by `encodeWAV` reads back with its sample count and
      rate, as long as the sizes and the rate fit the 32-bit fields. */
  lemma ParseEncodeWav(pcm: seq<Int16>, sampleRate: nat)
    requires 36 + 2 * |pcm| < Two32
    requires sampleRate < Two32
    ensures ParseHeader(EncodeWav(pcm, sampleRate)) == Some(WavInfo(|pcm|, sampleRate))
  {
    var buf := EncodeWav(pcm, sampleRate);
    SizeFields(pcm, sampleRate);
    ModOfSmall(sampleRate, Two32);
    assert Field32(buf, 24) == sampleRate;
    assert Field32(buf, 28) == (Field32(buf, 24) * Field16(buf, 32)) % Two32;
    HalfOfDouble(|pcm|);
  }

  /** In a buffer of realistic size the RIFF size field is the buffer
      length less the eight bytes of the RIFF chunk header, and the data
      size field is the length of the sample data. */
  lemma SizeFields(pcm: seq<Int16>, sampleRate: nat)
    requires 36 + 2 * |pcm| < Two32
    ensures var buf := EncodeWav(pcm, sampleRate);
      Field32(buf, 4) == |buf| - 8 && Field32(buf, 40) == |buf| - HeaderSize
  {
    ModOfSmall(36 + 2 * |pcm|, Two32);
    ModOfSmall(2 * |pcm|, Two32);
  }

  lemma HalfOfDouble(n: nat)
    ensures (2 * n) % 2 == 0 && (2 * n) / 2 == n
  {
  }

  lemma ModOfSmall(x: nat, m: nat)
    requires x < m
    ensures x % m == x
  {
  }
}
