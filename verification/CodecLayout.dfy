/**
 Where every byte of the cache's compressed form (src/uao_qtcam_cache.rs) comes from, and every byte
 read back, told by inequalities instead of quotients.
 */
module CodecLayout {
  import opened CacheCodec
  import opened MachineIntegers
  import opened NumberTheory

  lemma QuotientIs(n: int, d: int, q: int)
    requires d > 0 && q * d <= n < (q + 1) * d
    ensures n / d == q
  {
    assert q * d == d * q && (q + 1) * d == d * q + d;
    DivModUnique(n, d, q, n - d * q);
  }

  lemma QuotientBounds(n: int, d: int)
    requires d > 0
    ensures n / d * d <= n < (n / d + 1) * d
  {
    DivisionIdentity(n, d);
    var q := n / d;
    assert q * d == d * q && (q + 1) * d == d * q + d;
  }

  // ----- the compressed form -----

  /** t samples are aimed at: a ratio-th of the length, but at least one. */
  predicate Aimed(n: nat, ratio: int, t: int) {
    t >= 1 && (if n < ratio then t == 1 else t * ratio <= n < (t + 1) * ratio)
  }

  lemma AimedIsTarget(n: nat, ratio: int, t: int)
    requires ratio >= 1 && Aimed(n, ratio, t)
    ensures t == TargetSize(n, ratio) == Max(1, n / ratio)
  {
    if n < ratio {
      QuotientIs(n, ratio, 0);
    } else {
      QuotientIs(n, ratio, t);
    }
  }

  /** The stride is the largest at which t samples lie inside the data. */
  lemma StrideIsLargest(n: nat, ratio: int, t: int)
    requires ratio >= 1 && n > 0 && Aimed(n, ratio, t)
    ensures Stride(n, ratio) * t <= n < (Stride(n, ratio) + 1) * t
  {
    AimedIsTarget(n, ratio, t);
    QuotientAtLeast(n, t, 1);
    QuotientBounds(n, t);
  }

  /** At least the samples aimed at are kept. */
  lemma KeepsAtLeast(d: Bytes, ratio: int, t: int)
    requires ratio >= 1 && |d| > 0 && Aimed(|d|, ratio, t)
    ensures 16 + t <= |Compressed(d, ratio)| < 16 + 2 * t
  {
    StrideIsLargest(|d|, ratio, t);
    CompressedLength(d, ratio);
    AimedIsTarget(|d|, ratio, t);
    CeilAtLeast(|d|, Stride(|d|, ratio), t);
    hide Compressed, Stride, CeilDiv, Aimed;
  }

  lemma CeilAtLeast(n: nat, s: int, t: int)
    requires s >= 1 && s * t <= n
    ensures CeilDiv(n, s) >= t
  {
    assert t * s == s * t;
    QuotientAtLeast(n + s - 1, s, t);
  }

  /** The samples are the bytes at all multiples of the stride. */
  lemma SampleByte(d: Bytes, ratio: int, k: nat)
    requires ratio >= 1
    ensures k < |Compressed(d, ratio)| - 16 <==> k * Stride(|d|, ratio) < |d|
    ensures k * Stride(|d|, ratio) < |d| ==> Compressed(d, ratio)[16 + k] == d[k * Stride(|d|, ratio)]
  {
    var n, s := |d|, Stride(|d|, ratio);
    CompressedLength(d, ratio);
    MulOrder(0, k, s);
    if k < CeilDiv(n, s) {
      SampleAt(d, s, k);
    } else {
      QuotientBounds(n + s - 1, s);
      MulOrder(CeilDiv(n, s), k, s);
      assert (CeilDiv(n, s) + 1) * s == CeilDiv(n, s) * s + s;
    }
  }

  lemma {:induction false} Digit(v: nat, k: nat, i: nat)
    requires i < k
    ensures Pow(256, i) > 0 && LittleEndian(v, k)[i] == v / Pow(256, i) % 256
  {
    PowPositive(256, i);
    if i == 0 {
      assert Pow(256, 0) == 1;
    } else {
      Digit(v / 256, k - 1, i - 1);
      PowPositive(256, i - 1);
      assert Pow(256, i) == 256 * Pow(256, i - 1);
      QuotientOfQuotient(v, Pow(256, i - 1));
    }
  }

  lemma QuotientOfQuotient(v: nat, p: nat)
    requires p > 0
    ensures v / 256 / p == v / (256 * p)
  {
    var q, r := v / 256, v % 256;
    var q', r' := q / p, q % p;
    DivisionIdentity(v, 256);
    DivisionIdentity(q, p);
    assert 256 * (p * q' + r') == 256 * p * q' + 256 * r';
    DivModUnique(v, 256 * p, q', 256 * r' + r);
  }

  lemma LowDigit(v: nat, i: nat)
    requires i < 8
    ensures Pow(256, i) > 0 && Wrap64(v) / Pow(256, i) % 256 == v / Pow(256, i) % 256
  {
    var p, q := Pow(256, i), Pow(256, 7 - i);
    PowPositive(256, i);
    PowPositive(256, 7 - i);
    Powers256();
    PowAdd(256, i, 8 - i);
    assert Pow(256, 8 - i) == 256 * q;
    hide Pow;
    var low, wraps := v % TWO_64, v / TWO_64;
    DivisionIdentity(v, TWO_64);
    var k := q * wraps;
    assert TWO_64 * wraps == p * (256 * k) by {
      Associate(p, 256 * q, wraps);
      Associate(256, q, wraps);
    }
    DivisionIdentity(low, p);
    assert p * (256 * k) + p * (low / p) == p * (256 * k + low / p);
    DivModUnique(v, p, 256 * k + low / p, low % p);
    assert 256 * k == k * 256;
    ModOfMultiple(low / p, k, 256);
  }

  /** The first eight bytes are the length, lowest byte first, and the next eight the sum of all bytes. */
  lemma HeaderByte(d: Bytes, ratio: int, i: nat)
    requires ratio >= 1 && i < 8
    ensures Pow(256, i) > 0
    ensures Compressed(d, ratio)[i] == |d| / Pow(256, i) % 256
    ensures Compressed(d, ratio)[8 + i] == ByteSum(d) / Pow(256, i) % 256
  {
    Digit(|d|, 8, i);
    Digit(Wrap64(ByteSum(d)), 8, i);
    LowDigit(ByteSum(d), i);
    hide LittleEndian, Samples, Stride, Wrap64, Pow;
  }

  /** The sum of all bytes is additive. */
  lemma {:induction false} SumsAdd(a: Bytes, b: Bytes)
    ensures ByteSum(a + b) == ByteSum(a) + ByteSum(b)
    ensures forall x: byte :: ByteSum([x]) == x as int
  {
    forall x: byte ensures ByteSum([x]) == x as int {
      assert [x][..0] == [] && ByteSum([]) == 0;
    }
    if b == [] {
      assert a + b == a;
    } else {
      SumsAdd(a, b[..|b| - 1]);
      assert (a + b)[..|a + b| - 1] == a + b[..|b| - 1];
    }
  }

  // ----- reading back -----

  /** Output byte i is sample i / rate, or the last one, where rate is n divided by the number of samples. */
  lemma ByteReadBack(c: Bytes, n: nat, i: nat, rate: int, k: int)
    requires |c| > 16 && i < n && rate >= 1 && k >= 0
    requires var count := |c| - 16; if n < count then rate == 1 else rate * count <= n < (rate + 1) * count
    requires k * rate <= i < (k + 1) * rate
    ensures Decompressed(c, n)[i] == c[16 + if k < |c| - 16 then k else |c| - 17]
  {
    var count := |c| - 16;
    if n < count {
      QuotientIs(n, count, 0);
    } else {
      QuotientIs(n, count, rate);
    }
    QuotientIs(i, rate, k);
  }

  /** Without samples everything reads back as zero. */
  lemma NothingReadBack(c: Bytes, n: nat, i: nat)
    requires |c| <= 16 && i < n
    ensures Decompressed(c, n)[i] == 0
  {
  }
}
