/**
 The cache's stand-in for compression (compress and decompress in src/uao_qtcam_cache.rs): a 16-byte
 header and every stride-th byte. Reading back repeats samples, so the codec is lossy; this file says
 what it keeps. The ratio is the truncation to an integer of the configured one, which is at least 1.
 */
module CacheCodec {
  import opened MachineIntegers
  import opened NumberTheory

  type Bytes = seq<byte>

  const HEADER := 16

  function Max(a: int, b: int): int {
    if a < b then b else a
  }

  function TargetSize(n: nat, ratio: int): (t: int)
    requires ratio >= 1
    ensures 1 <= t <= Max(1, n)
  {
    QuotientAtMost(n, ratio);
    Max(1, n / ratio)
  }

  /** The distance between two samples. */
  function Stride(n: nat, ratio: int): (s: int)
    requires ratio >= 1
    ensures 1 <= s <= Max(1, n)
  {
    QuotientAtMost(n, TargetSize(n, ratio));
    Max(1, n / TargetSize(n, ratio))
  }

  function CeilDiv(n: nat, d: int): nat
    requires d > 0
  {
    (n + d - 1) / d
  }

  /** The low k bytes of a number, least significant first. */
  function LittleEndian(v: nat, k: nat): (b: Bytes)
    ensures |b| == k
  {
    if k == 0 then [] else [v % 256] + LittleEndian(v / 256, k - 1)
  }

  ghost function FromLittleEndian(b: Bytes): nat {
    if b == [] then 0 else b[0] + 256 * FromLittleEndian(b[1..])
  }

  lemma {:induction false} LittleEndianReadBack(v: nat, k: nat)
    requires v < Pow(256, k)
    ensures FromLittleEndian(LittleEndian(v, k)) == v
  {
    if k > 0 {
      LittleEndianReadBack(v / 256, k - 1);
    }
  }

  ghost function ByteSum(d: Bytes): nat {
    if d == [] then 0 else ByteSum(d[..|d| - 1]) + d[|d| - 1]
  }

  // ----- compress -----

  /** A multiple of the stride lies inside the data. */
  lemma SampleInRange(n: nat, stride: int, k: int)
    requires stride > 0 && 0 <= k < CeilDiv(n, stride)
    ensures 0 <= k * stride < n
  {
    var c := CeilDiv(n, stride);
    DivisionIdentity(n + stride - 1, stride);
    assert c * stride == stride * c;
    MulOrder(0, k, stride);
    MulOrder(k, c - 1, stride);
    assert (c - 1) * stride == c * stride - stride;
  }

  ghost function Samples(d: Bytes, stride: int): (s: Bytes)
    requires stride > 0
    ensures |s| == CeilDiv(|d|, stride)
    ensures d == [] ==> s == []
  {
    NextSample(0, stride);
    seq(CeilDiv(|d|, stride), k requires 0 <= k < CeilDiv(|d|, stride) =>
      SampleInRange(|d|, stride, k);
      d[k * stride])
  }

  ghost function Compressed(d: Bytes, ratio: int): Bytes
    requires ratio >= 1
  {
    LittleEndian(|d|, 8) + LittleEndian(Wrap64(ByteSum(d)), 8) + Samples(d, Stride(|d|, ratio))
  }

  /** How the number of samples due and the sample in use move from one position to the next. */
  lemma NextSample(i: nat, rate: int)
    requires rate > 0
    ensures i % rate == 0 ==> CeilDiv(i, rate) == i / rate
    ensures i % rate != 0 ==> CeilDiv(i, rate) == i / rate + 1
    ensures CeilDiv(i + 1, rate) == i / rate + 1
    ensures i > 0 ==> (i - 1) / rate == if i % rate == 0 then i / rate - 1 else i / rate
  {
    var q, r := i / rate, i % rate;
    assert i == q * rate + r;
    if r == 0 {
      RaisedQuotient(i, rate, q, r, rate - 1);
    } else {
      RaisedQuotient(i, rate, q, r, rate - 1);
      DivModUnique(i - 1, rate, q, r - 1);
    }
    RaisedQuotient(i, rate, q, r, rate);
    if i > 0 && r == 0 {
      assert (q - 1) * rate == q * rate - rate;
      DivModUnique(i - 1, rate, q - 1, rate - 1);
    }
  }

  lemma RaisedQuotient(i: nat, rate: int, q: int, r: int, raise: int)
    requires rate > 0 && 0 <= r < rate && i == q * rate + r && 0 <= raise <= rate
    ensures (i + raise) / rate == if r + raise < rate then q else q + 1
  {
    if r + raise < rate {
      DivModUnique(i + raise, rate, q, r + raise);
    } else {
      assert (q + 1) * rate == q * rate + rate;
      DivModUnique(i + raise, rate, q + 1, r + raise - rate);
    }
  }

  /** At position i a sample is taken exactly when one more is due. */
  lemma SampleDue(d: Bytes, stride: int, i: nat)
    requires stride > 0 && i < |d|
    ensures if i % stride == 0 then Samples(d[..i + 1], stride) == Samples(d[..i], stride) + [d[i]]
            else Samples(d[..i + 1], stride) == Samples(d[..i], stride)
  {
    NextSample(i, stride);
    hide Samples, CeilDiv;
    SamplesKept(d, stride, i);
    if i % stride == 0 {
      MultipleBack(i, stride);
      SampleAt(d[..i + 1], stride, i / stride);
    }
  }

  lemma MultipleBack(i: nat, stride: int)
    requires stride > 0 && i % stride == 0
    ensures i / stride * stride == i
  {
    DivisionIdentity(i, stride);
  }

  /** More data keep the samples so far. */
  lemma SamplesKept(d: Bytes, stride: int, i: nat)
    requires stride > 0 && i < |d|
    ensures Samples(d[..i], stride) <= Samples(d[..i + 1], stride)
  {
    NextSample(i, stride);
    hide Samples, CeilDiv;
    forall k | 0 <= k < |Samples(d[..i], stride)|
      ensures k < |Samples(d[..i + 1], stride)| && Samples(d[..i + 1], stride)[k] == Samples(d[..i], stride)[k]
    {
      SampleAt(d[..i], stride, k);
      SampleAt(d[..i + 1], stride, k);
    }
  }

  lemma SampleAt(d: Bytes, stride: int, k: int)
    requires stride > 0 && 0 <= k < CeilDiv(|d|, stride)
    ensures 0 <= k * stride < |d| && Samples(d, stride)[k] == d[k * stride]
  {
    SampleInRange(|d|, stride, k);
  }

  lemma ByteSumNext(data: Bytes, i: nat)
    requires i < |data|
    ensures Wrap64(ByteSum(data[..i + 1])) == Wrap64(Wrap64(ByteSum(data[..i])) + data[i])
  {
    assert data[..i + 1][..i] == data[..i];
    Wrap64Adds(ByteSum(data[..i]), data[i]);
    hide Wrap64;
  }

  /** The sum of all bytes, wrapped to 64 bits. */
  method Checksum(data: Bytes) returns (checksum: u64)
    ensures checksum == Wrap64(ByteSum(data))
  {
    checksum := 0;
    Wrap64Small(0);
    hide Wrap64;
    for i := 0 to |data|
      invariant checksum == Wrap64(ByteSum(data[..i]))
    {
      ByteSumNext(data, i);
      checksum := Wrap64(checksum + data[i]);
    }
    assert data[..|data|] == data;
  }

  method Compress(data: Bytes, ratio: int) returns (compressed: Bytes)
    requires ratio >= 1
    ensures compressed == Compressed(data, ratio)
  {
    hide Samples, CeilDiv, LittleEndian, Wrap64, ByteSum;
    var targetSize := Max(1, |data| / ratio);
    compressed := LittleEndian(|data|, 8);
    var checksum := Checksum(data);
    compressed := compressed + LittleEndian(checksum, 8);
    var sampleRate := Max(1, |data| / targetSize);
    ghost var header := compressed;
    assert data[..0] == [];
    for i := 0 to |data|
      invariant compressed == header + Samples(data[..i], sampleRate)
    {
      SampleDue(data, sampleRate, i);
      if i % sampleRate == 0 {
        compressed := compressed + [data[i]];
      }
    }
    assert data[..|data|] == data;
  }

  // ----- decompress -----

  function ReadRate(n: nat, samples: nat): (rate: int)
    ensures rate >= 1
  {
    Max(1, n / Max(1, samples))
  }

  /** Which sample an output byte repeats. */
  function SampleFor(i: nat, rate: int, samples: nat): nat
    requires rate > 0 && samples > 0
  {
    if i / rate < samples then i / rate else samples - 1
  }

  /** Output byte i; without samples it is zero. */
  function Sample(samples: Bytes, i: nat, rate: int): byte
    requires rate > 0
  {
    if samples == [] then 0 else samples[SampleFor(i, rate, |samples|)]
  }

  ghost function Decompressed(c: Bytes, n: nat): (d: Bytes)
    ensures |d| == n
  {
    if |c| < HEADER then seq(n, _ => 0)
    else
      var samples := c[HEADER..];
      seq(n, i requires 0 <= i < n => Sample(samples, i, ReadRate(n, |samples|)))
  }

  /** How many samples the first i positions have used. */
  function SamplesUsed(samples: Bytes, i: nat, rate: int): nat
    requires rate > 0
  {
    if 0 <= CeilDiv(i, rate) < |samples| then CeilDiv(i, rate) else |samples|
  }

  /** One turn takes the next sample, or repeats the byte before. */
  lemma NextByte(samples: Bytes, i: nat, rate: int)
    requires rate > 0
    ensures var used := SamplesUsed(samples, i, rate);
            if i % rate == 0 && used < |samples| then
              Sample(samples, i, rate) == samples[used] && SamplesUsed(samples, i + 1, rate) == used + 1
            else
              && SamplesUsed(samples, i + 1, rate) == used
              && Sample(samples, i, rate) == if i > 0 then Sample(samples, i - 1, rate) else 0
  {
    NextSample(i, rate);
    QuotientAtLeast(i, rate, 0);
    hide CeilDiv;
  }

  lemma NothingUsed(samples: Bytes, rate: int)
    requires rate > 0
    ensures SamplesUsed(samples, 0, rate) == 0
  {
    DivModUnique(rate - 1, rate, 0, rate - 1);
  }

  lemma DecompressedBytes(c: Bytes, result: Bytes)
    requires |c| >= HEADER
    requires var rate := ReadRate(|result|, |c[HEADER..]|);
             forall j | 0 <= j < |result| :: result[j] == Sample(c[HEADER..], j, rate)
    ensures result == Decompressed(c, |result|)
  {
    hide SampleFor, ReadRate;
  }

  method Decompress(compressed: Bytes, originalSize: nat) returns (result: Bytes)
    ensures result == Decompressed(compressed, originalSize)
  {
    if |compressed| < HEADER {
      return seq(originalSize, _ => 0);
    }
    result := [];
    var samples := compressed[HEADER..];
    var sampleRate := Max(1, originalSize / Max(1, |samples|));
    var sampleIdx := 0;
    NothingUsed(samples, sampleRate);
    hide Sample, SamplesUsed, Decompressed;
    for i := 0 to originalSize
      invariant |result| == i && sampleIdx == SamplesUsed(samples, i, sampleRate)
      invariant forall j | 0 <= j < i :: result[j] == Sample(samples, j, sampleRate)
    {
      NextByte(samples, i, sampleRate);
      if i % sampleRate == 0 && sampleIdx < |samples| {
        result := result + [samples[sampleIdx]];
        sampleIdx := sampleIdx + 1;
      } else if result != [] {
        result := result + [result[|result| - 1]];
      } else {
        result := result + [0];
      }
    }
    DecompressedBytes(compressed, result);
  }

  // ----- what the codec keeps -----

  /** The compressed length, and the bound it stays below. */
  lemma CompressedLength(d: Bytes, ratio: int)
    requires ratio >= 1
    ensures |Compressed(d, ratio)| == HEADER + CeilDiv(|d|, Stride(|d|, ratio))
    ensures |Compressed(d, ratio)| < HEADER + 2 * Max(1, |d| / ratio)
  {
    var n, t, s := |d|, TargetSize(|d|, ratio), Stride(|d|, ratio);
    if n > 0 {
      DivisionIdentity(n, t);
      QuotientAtLeast(n, t, 1);
      CeilBelowDouble(n, t, s, n % t);
    } else {
      assert CeilDiv(n, s) == 0;
    }
  }

  lemma CeilBelowDouble(n: nat, t: int, s: int, m: int)
    requires n == t * s + m && 0 <= m < t && s >= 1
    ensures CeilDiv(n, s) < 2 * t
  {
    assert (t - 1) * (s - 1) == t * s - t - s + 1;
    MulOrder(0, t - 1, s - 1);
    assert 2 * t * s == t * s + t * s;
    QuotientBelow(n + s - 1, s, 2 * t);
  }

  /** The header gives back the length, whatever the data. */
  lemma HeaderHoldsLength(d: Bytes, ratio: int)
    requires ratio >= 1 && |d| < TWO_64
    ensures FromLittleEndian(Compressed(d, ratio)[..8]) == |d|
  {
    assert Compressed(d, ratio)[..8] == LittleEndian(|d|, 8);
    Powers256();
    LittleEndianReadBack(|d|, 8);
  }

  lemma Powers256()
    ensures Pow(256, 8) == TWO_64
  {
    assert Pow(256, 1) == 256 * Pow(256, 0) == 256;
    PowAdd(256, 1, 1);
    PowAdd(256, 2, 2);
    PowAdd(256, 4, 4);
  }

  /** Every output byte is an input byte at a multiple of the stride. */
  lemma ReadBack(d: Bytes, ratio: int, i: nat)
    requires ratio >= 1 && i < |d|
    ensures var stride := Stride(|d|, ratio);
            var count := CeilDiv(|d|, stride);
            var k := SampleFor(i, ReadRate(|d|, count), count) * stride;
            count > 0 && 0 <= k < |d| && Decompressed(Compressed(d, ratio), |d|)[i] == d[k]
  {
    var stride, n := Stride(|d|, ratio), |d|;
    var samples, count := Samples(d, stride), CeilDiv(n, stride);
    CountPositive(n, stride);
    assert Compressed(d, ratio)[HEADER..] == samples;
    assert Decompressed(Compressed(d, ratio), n)[i] == samples[SampleFor(i, ReadRate(n, count), count)];
    hide Compressed, Decompressed, Stride, Samples, CeilDiv, ReadRate;
    SampleAt(d, stride, SampleFor(i, ReadRate(n, count), count));
  }

  lemma CountPositive(n: nat, stride: int)
    requires n > 0 && stride > 0
    ensures CeilDiv(n, stride) > 0
  {
    QuotientAtLeast(n + stride - 1, stride, 1);
  }

  /** The rate of reading is the stride when it divides the length. */
  lemma EvenRate(n: nat, stride: int, i: nat)
    requires stride > 0 && n % stride == 0 && i < n
    ensures CeilDiv(n, stride) == n / stride > 0
    ensures ReadRate(n, n / stride) == stride && i / stride < n / stride
  {
    NextSample(n, stride);
    var count := n / stride;
    assert n == count * stride;
    assert count > 0;
    DivModUnique(n, count, stride, 0);
    QuotientBelow(i, stride, count);
  }

  /** When the stride divides the length, each run of stride bytes becomes copies of its first byte. */
  lemma EvenReadBack(d: Bytes, ratio: int, i: nat)
    requires ratio >= 1 && i < |d| && |d| % Stride(|d|, ratio) == 0
    ensures var stride := Stride(|d|, ratio);
            0 <= i / stride * stride < |d| && Decompressed(Compressed(d, ratio), |d|)[i] == d[i / stride * stride]
  {
    hide Compressed, Decompressed, Stride, CeilDiv, ReadRate;
    ReadBack(d, ratio, i);
    EvenRate(|d|, Stride(|d|, ratio), i);
  }

  ghost predicate Lossless(n: nat, ratio: int)
    requires ratio >= 1
  {
    forall d: Bytes | |d| == n :: Decompressed(Compressed(d, ratio), n) == d
  }

  lemma LosslessAtUnitStride(d: Bytes, ratio: int)
    requires ratio >= 1 && Stride(|d|, ratio) == 1
    ensures Decompressed(Compressed(d, ratio), |d|) == d
  {
    forall i | 0 <= i < |d| ensures Decompressed(Compressed(d, ratio), |d|)[i] == d[i] {
      EvenReadBack(d, ratio, i);
    }
  }

  /** Beyond a stride of 1, a byte that stands out at position 1 is not among the samples. */
  lemma LossyBeyond(n: nat, ratio: int)
    requires ratio >= 2 && n >= 2
    ensures !Lossless(n, ratio)
  {
    hide Compressed, Decompressed, Stride, CeilDiv, ReadRate, SampleFor;
    var d: Bytes := seq(n, i => if i == 1 then 1 else 0);
    var k := SampledIndex(d, ratio);
    assert Decompressed(Compressed(d, ratio), n)[1] == 0 != d[1];
  }

  /** Beyond a stride of 1, position 1 repeats another position. */
  lemma SampledIndex(d: Bytes, ratio: int) returns (k: nat)
    requires ratio >= 2 && |d| >= 2
    ensures k < |d| && k != 1 && Decompressed(Compressed(d, ratio), |d|)[1] == d[k]
  {
    WideStride(|d|, ratio);
    ReadBack(d, ratio, 1);
    hide Compressed, Decompressed, ReadRate, CeilDiv, Stride;
    var stride := Stride(|d|, ratio);
    var count := CeilDiv(|d|, stride);
    NotAMultiple(stride);
    k := SampleFor(1, ReadRate(|d|, count), count) * stride;
  }

  /** Nothing is lost on data of a length exactly when the ratio is 1 or there is at most one byte. */
  lemma LosslessIff(n: nat, ratio: int)
    requires ratio >= 1
    ensures Lossless(n, ratio) <==> ratio == 1 || n <= 1
  {
    if ratio == 1 || n <= 1 {
      UnitStride(n, ratio);
      hide Compressed, Decompressed, Stride;
      forall d: Bytes | |d| == n ensures Decompressed(Compressed(d, ratio), n) == d {
        LosslessAtUnitStride(d, ratio);
      }
    } else {
      LossyBeyond(n, ratio);
    }
  }

  lemma UnitStride(n: nat, ratio: int)
    requires ratio == 1 || (ratio > 1 && n <= 1)
    ensures Stride(n, ratio) == 1
  {
    if ratio == 1 && n > 0 {
      assert n / 1 == n;
      DivModUnique(n, n, 1, 0);
    }
  }

  lemma WideStride(n: nat, ratio: int)
    requires ratio >= 2 && n >= 2
    ensures Stride(n, ratio) >= 2
  {
    var t, q := TargetSize(n, ratio), n / ratio;
    DivisionIdentity(n, ratio);
    QuotientAtLeast(n, ratio, 0);
    MulOrder(2, ratio, q);
    assert 2 * t <= n;
    QuotientAtLeast(n, t, 2);
  }

  lemma NotAMultiple(stride: int)
    requires stride >= 2
    ensures forall k: nat :: k * stride != 1
  {
    forall k: nat ensures k * stride != 1 {
      if k > 0 {
        assert (k - 1) * stride >= 0;
      }
    }
  }

  /** The text of the number 10 reads back as 11, at every ratio above 1. */
  lemma TenReadsBackAsEleven(ratio: int)
    requires ratio >= 2
    ensures Decompressed(Compressed([49, 48], ratio), 2) == [49, 49]
  {
    var d: Bytes := [49, 48];
    WideStride(2, ratio);
    assert Stride(2, ratio) == 2;
    EvenReadBack(d, ratio, 0);
    EvenReadBack(d, ratio, 1);
  }
}
