/**
 The packet store of the tensor engine (qanban/src/qanban_tensor_decomposition.rs): reshaping and
 flattening, the flat form of rank-1 factors, and storing and retrieving packets, over exact numbers.
 The sine and cosine tables of the decomposition are parameters.
 */
module TensorEngine {
  import NumberTheory
  import opened TensorLayout
  import opened Wrappers

  // ----- layout -----

  ghost predicate HasDims(t: array3<real>, d: Dims) {
    t.Length0 == d.d0 && t.Length1 == d.d1 && t.Length2 == d.d2
  }

  /** The value belongs at the cell's row-major position. */
  ghost predicate CellHolds(d: Dims, s: seq<real>, i: int, j: int, k: int, v: real)
    requires d.InRange(i, j, k)
  {
    0 <= d.Position(i, j, k) < |s| && v == s[d.Position(i, j, k)]
  }

  /** The tensor holds the features in row-major order. */
  ghost predicate Holds(t: array3<real>, d: Dims, s: seq<real>)
    requires HasDims(t, d)
    reads t
  {
    |s| == d.Total() && forall i, j, k | d.InRange(i, j, k) :: CellHolds(d, s, i, j, k, t[i, j, k])
  }

  /** Cut off, or filled up with zeros, to a length. */
  ghost function Padded(s: seq<real>, n: nat): (padded: seq<real>)
    ensures |padded| == n && forall p | 0 <= p < n :: padded[p] == if p < |s| then s[p] else 0.0
  {
    if |s| >= n then s[..n] else s + seq(n - |s|, _ => 0.0)
  }

  lemma DifferentCells(d: Dims, i: int, j: int, k: int, i': int, j': int, k': int)
    requires d.InRange(i, j, k) && d.InRange(i', j', k')
    ensures 0 <= d.Position(i, j, k) < d.Total() && 0 <= d.Position(i', j', k') < d.Total()
    ensures d.Position(i, j, k) == d.Position(i', j', k') <==> i == i' && j == j' && k == k'
  {
    PositionUnique(d, i, j, k);
    PositionUnique(d, i', j', k');
  }

  method ReshapeToTensor(d: Dims, features: seq<real>) returns (tensor: array3<real>)
    ensures fresh(tensor) && HasDims(tensor, d) && Holds(tensor, d, Padded(features, d.Total()))
  {
    hide Holds, Padded;
    var totalSize := d.Total();
    tensor := new real[d.d0, d.d1, d.d2]((_, _, _) => 0.0);
    ZeroHolds(tensor, d, features);
    for idx := 0 to if |features| < totalSize then |features| else totalSize
      invariant Holds(tensor, d, Padded(features[..idx], totalSize))
    {
      PositionReached(d, idx);
      var i, j, k := idx / (d.d1 * d.d2), idx / d.d2 % d.d1, idx % d.d2;
      PaddedStep(features, idx, totalSize);
      SetCell(tensor, d, i, j, k, features[idx], Padded(features[..idx], totalSize));
    }
    PaddedEnd(features, totalSize);
  }

  lemma ZeroHolds(t: array3<real>, d: Dims, features: seq<real>)
    requires HasDims(t, d) && forall i, j, k | d.InRange(i, j, k) :: t[i, j, k] == 0.0
    ensures Holds(t, d, Padded(features[..0], d.Total()))
  {
    forall i, j, k | d.InRange(i, j, k) ensures CellHolds(d, Padded(features[..0], d.Total()), i, j, k, t[i, j, k]) {
      PositionUnique(d, i, j, k);
    }
  }

  lemma PaddedStep(s: seq<real>, i: nat, n: nat)
    requires i < |s| && i < n
    ensures Padded(s[..i], n)[i := s[i]] == Padded(s[..i + 1], n)
  {
  }

  lemma PaddedEnd(s: seq<real>, n: nat)
    ensures Padded(s[..if |s| < n then |s| else n], n) == Padded(s, n)
  {
    assert s[..|s|] == s;
  }

  /** One assignment of the loop. */
  method SetCell(t: array3<real>, d: Dims, i: nat, j: nat, k: nat, v: real, ghost s: seq<real>)
    requires HasDims(t, d) && Holds(t, d, s) && d.InRange(i, j, k)
    modifies t
    ensures 0 <= d.Position(i, j, k) < |s| && Holds(t, d, s[d.Position(i, j, k) := v])
  {
    PositionUnique(d, i, j, k);
    ghost var after := s[d.Position(i, j, k) := v];
    t[i, j, k] := v;
    forall i', j', k' | d.InRange(i', j', k') ensures CellHolds(d, after, i', j', k', t[i', j', k']) {
      assert CellHolds(d, s, i', j', k', old(t[i', j', k']));
      DifferentCells(d, i, j, k, i', j', k');
    }
  }

  /** The first positions of the flat form are filled. */
  ghost predicate Copied(t: array3<real>, d: Dims, s: seq<real>)
    requires HasDims(t, d)
    reads t
  {
    forall i, j, k | d.InRange(i, j, k) && d.Position(i, j, k) < |s| :: CellHolds(d, s, i, j, k, t[i, j, k])
  }

  lemma PushCell(t: array3<real>, d: Dims, s: seq<real>, i: int, j: int, k: int)
    requires HasDims(t, d) && d.InRange(i, j, k) && Copied(t, d, s) && |s| == d.Position(i, j, k)
    ensures Copied(t, d, s + [t[i, j, k]])
  {
    var after := s + [t[i, j, k]];
    forall i', j', k' | d.InRange(i', j', k') && d.Position(i', j', k') < |after|
      ensures CellHolds(d, after, i', j', k', t[i', j', k'])
    {
      DifferentCells(d, i, j, k, i', j', k');
      assert d.Position(i', j', k') < |s| ==> CellHolds(d, s, i', j', k', t[i', j', k']);
    }
  }

  lemma AllCopied(t: array3<real>, d: Dims, s: seq<real>)
    requires HasDims(t, d) && Copied(t, d, s) && |s| == d.Total()
    ensures Holds(t, d, s)
  {
    forall i, j, k | d.InRange(i, j, k) ensures CellHolds(d, s, i, j, k, t[i, j, k]) {
      PositionUnique(d, i, j, k);
    }
  }

  /** Where the loops stand: at the ends of rows and planes the position is that of the next row or plane. */
  lemma RowEnds(d: Dims, i: int, j: int)
    ensures d.Position(i, j, d.d2) == d.Position(i, j + 1, 0) && d.Position(i, d.d1, 0) == d.Position(i + 1, 0, 0)
    ensures d.Position(0, 0, 0) == 0 && d.Position(d.d0, 0, 0) == d.Total()
  {
  }

  method FlattenTensor(d: Dims, tensor: array3<real>) returns (features: seq<real>)
    requires HasDims(tensor, d)
    ensures Holds(tensor, d, features)
  {
    hide Holds;
    features := [];
    RowEnds(d, 0, 0);
    StartCopying(tensor, d);
    for i := 0 to d.d0
      invariant |features| == d.Position(i, 0, 0) && Copied(tensor, d, features)
    {
      features := FlattenPlane(d, tensor, i, features);
    }
    AllCopied(tensor, d, features);
  }

  lemma StartCopying(t: array3<real>, d: Dims)
    requires HasDims(t, d)
    ensures Copied(t, d, [])
  {
    forall i, j, k | d.InRange(i, j, k) ensures 0 <= d.Position(i, j, k) {
      PositionUnique(d, i, j, k);
    }
  }

  /** The two inner loops. */
  method FlattenPlane(d: Dims, tensor: array3<real>, i: nat, before: seq<real>) returns (features: seq<real>)
    requires HasDims(tensor, d) && i < d.d0 && Copied(tensor, d, before) && |before| == d.Position(i, 0, 0)
    ensures |features| == d.Position(i + 1, 0, 0) && Copied(tensor, d, features)
  {
    hide Copied;
    features := before;
    for j := 0 to d.d1
      invariant |features| == d.Position(i, j, 0) && Copied(tensor, d, features)
    {
      for k := 0 to d.d2
        invariant |features| == d.Position(i, j, k) && Copied(tensor, d, features)
      {
        PushCell(tensor, d, features, i, j, k);
        features := features + [tensor[i, j, k]];
      }
      RowEnds(d, i, j);
    }
    RowEnds(d, i, 0);
  }

  /** A tensor has one flat form, so flattening a reshaped tensor gives the features, cut off or filled up. */
  lemma FlattenUndoesReshape(d: Dims, features: seq<real>, t: array3<real>, flat: seq<real>)
    requires HasDims(t, d) && Holds(t, d, Padded(features, d.Total())) && Holds(t, d, flat)
    ensures flat == Padded(features, d.Total())
    ensures |features| == d.Total() ==> flat == features
  {
    forall p | 0 <= p < d.Total() ensures flat[p] == Padded(features, d.Total())[p] {
      PositionReached(d, p);
      var i, j, k := p / (d.d1 * d.d2), p / d.d2 % d.d1, p % d.d2;
      assert CellHolds(d, flat, i, j, k, t[i, j, k]) && CellHolds(d, Padded(features, d.Total()), i, j, k, t[i, j, k]);
    }
  }

  // ----- the factor codec -----

  /** One rank-1 component. */
  datatype Factor = Factor(weight: real, a: seq<real>, b: seq<real>, c: seq<real>)

  ghost predicate Shaped(d: Dims, f: Factor) {
    |f.a| == d.d0 && |f.b| == d.d1 && |f.c| == d.d2
  }

  ghost predicate AllShaped(d: Dims, fs: seq<Factor>) {
    forall i | 0 <= i < |fs| :: Shaped(d, fs[i])
  }

  function FactorSize(d: Dims): nat {
    1 + d.d0 + d.d1 + d.d2
  }

  function Packed(f: Factor): seq<real> {
    [f.weight] + f.a + f.b + f.c
  }

  /** The length a chunk must have for the source's first slices. */
  function HeadSize(d: Dims): nat {
    1 + d.d0 + d.d1
  }

  /** The last slice takes what there is, so a short chunk gives a short third vector. */
  function Unpacked(d: Dims, chunk: seq<real>): (f: Factor)
    requires |chunk| >= HeadSize(d)
    ensures |chunk| == FactorSize(d) ==> Shaped(d, f)
  {
    Factor(chunk[0], chunk[1..1 + d.d0], chunk[1 + d.d0..HeadSize(d)], chunk[HeadSize(d)..])
  }

  ghost function Compressed(fs: seq<Factor>): seq<real> {
    if fs == [] then [] else Packed(fs[0]) + Compressed(fs[1..])
  }

  function Prepend(f: Factor, fs: Option<seq<Factor>>): Option<seq<Factor>> {
    if fs.None? then None else Some([f] + fs.value)
  }

  /** The next chunk's length. */
  function ChunkSize(d: Dims, c: seq<real>): nat {
    if |c| < FactorSize(d) then |c| else FactorSize(d)
  }

  /** The factors of a flat form; the source panics on a chunk that is too short. */
  ghost function Decompressed(d: Dims, c: seq<real>): (fs: Option<seq<Factor>>)
    decreases |c|
  {
    var n := ChunkSize(d, c);
    if c == [] then Some([])
    else if n < HeadSize(d) then None
    else Prepend(Unpacked(d, c[..n]), Decompressed(d, c[n..]))
  }

  /** Exactly the flat forms whose last chunk is whole or long enough for its first two vectors can be read. */
  lemma {:induction false} ReadableIff(d: Dims, c: seq<real>)
    ensures Decompressed(d, c).Some? <==> |c| % FactorSize(d) == 0 || |c| % FactorSize(d) >= HeadSize(d)
    decreases |c|
  {
    var n := FactorSize(d);
    if |c| >= n {
      ReadableIff(d, c[n..]);
      NumberTheory.ModOfMultiple(|c| - n, 1, n);
    } else {
      NumberTheory.ModSmall(|c|, n);
    }
  }

  lemma PackUnpack(d: Dims, f: Factor, chunk: seq<real>)
    ensures Shaped(d, f) ==> |Packed(f)| == FactorSize(d) && Unpacked(d, Packed(f)) == f
    ensures |chunk| >= HeadSize(d) ==> Packed(Unpacked(d, chunk)) == chunk
  {
  }

  /** Factors of the engine's shape come back. */
  lemma {:induction false} DecompressUndoesCompress(d: Dims, fs: seq<Factor>)
    requires AllShaped(d, fs)
    ensures Decompressed(d, Compressed(fs)) == Some(fs)
  {
    if fs != [] {
      DecompressUndoesCompress(d, fs[1..]);
      assert Shaped(d, fs[0]);
      PackUnpack(d, fs[0], []);
      hide Packed, Unpacked;
      var c, n := Compressed(fs), FactorSize(d);
      assert c[..n] == Packed(fs[0]) && c[n..] == Compressed(fs[1..]);
      assert [fs[0]] + fs[1..] == fs;
    }
  }

  /** Any flat form that can be read is that of its factors. */
  lemma {:induction false} CompressUndoesDecompress(d: Dims, c: seq<real>)
    requires Decompressed(d, c).Some?
    ensures Compressed(Decompressed(d, c).value) == c
    decreases |c|
  {
    if c != [] {
      var n := ChunkSize(d, c);
      var f := Unpacked(d, c[..n]);
      CompressUndoesDecompress(d, c[n..]);
      PackUnpack(d, f, c[..n]);
      hide Packed, Unpacked;
      var rest := Decompressed(d, c[n..]).value;
      assert ([f] + rest)[1..] == rest;
      assert c[..n] + c[n..] == c;
    }
  }

  method CompressFactors(factors: seq<Factor>) returns (compressed: seq<real>)
    ensures compressed == Compressed(factors)
  {
    compressed := [];
    for i := 0 to |factors|
      invariant compressed + Compressed(factors[i..]) == Compressed(factors)
    {
      var factor := factors[i];
      assert factors[i..][1..] == factors[i + 1..];
      compressed := compressed + ([factor.weight] + factor.a + factor.b + factor.c);
    }
  }

  lemma CompressedParts(fs: seq<Factor>)
    requires fs != []
    ensures Compressed(fs) == Packed(fs[0]) + Compressed(fs[1..])
  {
  }

  lemma NextBase(m: nat, size: nat)
    requires m > 0
    ensures m * size == (m - 1) * size + size && (m - 1) * size >= 0
  {
  }

  lemma SliceBehind(first: seq<real>, rest: seq<real>, lo: nat, hi: nat)
    requires lo <= hi <= |rest|
    ensures (first + rest)[|first| + lo..|first| + hi] == rest[lo..hi]
  {
  }

  /** Factor m is the m-th piece of the flat form: its weight, then its three vectors in order. */
  lemma {:induction false} FlatForm(d: Dims, fs: seq<Factor>, m: nat, size: nat, base: nat)
    requires AllShaped(d, fs) && m < |fs| && size == 1 + d.d0 + d.d1 + d.d2 && base == m * size
    ensures base + size <= |Compressed(fs)|
    ensures Compressed(fs)[base..base + size] == [fs[m].weight] + fs[m].a + fs[m].b + fs[m].c
    decreases m
  {
    assert Shaped(d, fs[0]);
    PackUnpack(d, fs[0], []);
    CompressedParts(fs);
    var first, rest := Packed(fs[0]), Compressed(fs[1..]);
    if m == 0 {
      assert base == 0;
      hide Compressed;
      assert (first + rest)[..size] == first;
    } else {
      NextBase(m, size);
      FlatForm(d, fs[1..], m - 1, size, base - size);
      hide Compressed, Packed;
      SliceBehind(first, rest, base - size, base);
    }
  }

  /** The factors read so far, followed by what is still to come. */
  ghost function Following(done: seq<Factor>, rest: Option<seq<Factor>>): Option<seq<Factor>> {
    if rest.None? then None else Some(done + rest.value)
  }

  /** One turn of the loop: the next chunk. */
  lemma NextChunk(d: Dims, c: seq<real>, done: seq<Factor>)
    requires c != []
    ensures var n := ChunkSize(d, c);
            if n < HeadSize(d) then Following(done, Decompressed(d, c)) == None
            else Following(done, Decompressed(d, c)) == Following(done + [Unpacked(d, c[..n])], Decompressed(d, c[n..]))
  {
    var n := ChunkSize(d, c);
    if n >= HeadSize(d) {
      PrependFollows(done, Unpacked(d, c[..n]), Decompressed(d, c[n..]));
    }
  }

  lemma PrependFollows(done: seq<Factor>, f: Factor, rest: Option<seq<Factor>>)
    ensures Following(done, Prepend(f, rest)) == Following(done + [f], rest)
  {
    if rest.Some? {
      assert done + ([f] + rest.value) == (done + [f]) + rest.value;
    }
  }

  /** None stands for the source's panic. */
  method DecompressFactors(d: Dims, compressed: seq<real>) returns (factors: Option<seq<Factor>>)
    ensures factors == Decompressed(d, compressed)
  {
    hide Decompressed;
    var read: seq<Factor> := [];
    StartReading(Decompressed(d, compressed));
    assert compressed[0..] == compressed;
    var size := 1 + d.d0 + d.d1 + d.d2;
    var start := 0;
    while start < |compressed|
      invariant start <= |compressed|
      invariant Following(read, Decompressed(d, compressed[start..])) == Decompressed(d, compressed)
    {
      var end := if start + size < |compressed| then start + size else |compressed|;
      NextChunk(d, compressed[start..], read);
      var chunk := compressed[start..end];
      assert compressed[start..][..end - start] == chunk && compressed[start..][end - start..] == compressed[end..];
      if |chunk| < 1 + d.d0 + d.d1 {
        return None;
      }
      read := read + [Factor(chunk[0], chunk[1..1 + d.d0], chunk[1 + d.d0..1 + d.d0 + d.d1], chunk[1 + d.d0 + d.d1..])];
      start := end;
    }
    NothingToRead(d, compressed[start..]);
    assert read + [] == read;
    factors := Some(read);
  }

  lemma StartReading(all: Option<seq<Factor>>)
    ensures Following([], all) == all
  {
    if all.Some? {
      assert [] + all.value == all.value;
    }
  }

  lemma NothingToRead(d: Dims, c: seq<real>)
    requires c == []
    ensures Decompressed(d, c) == Some([])
  {
  }

  // ----- reconstruction -----

  ghost function Term(d: Dims, f: Factor, i: int, j: int, k: int): real
    requires Shaped(d, f) && d.InRange(i, j, k)
  {
    f.weight * f.a[i] * f.b[j] * f.c[k]
  }

  /** The cell's sum over all factors. */
  ghost function SumOfTerms(d: Dims, fs: seq<Factor>, i: int, j: int, k: int): real
    requires AllShaped(d, fs) && d.InRange(i, j, k)
  {
    if fs == [] then 0.0
    else SumOfTerms(d, fs[..|fs| - 1], i, j, k) + Term(d, fs[|fs| - 1], i, j, k)
  }

  /** The features that the factors stand for. */
  ghost function Rebuilt(d: Dims, fs: seq<Factor>): (s: seq<real>)
    requires AllShaped(d, fs)
    ensures |s| == d.Total()
  {
    seq(d.Total(), p requires 0 <= p < d.Total() =>
      PositionReached(d, p);
      SumOfTerms(d, fs, p / (d.d1 * d.d2), p / d.d2 % d.d1, p % d.d2))
  }

  lemma RebuiltAt(d: Dims, fs: seq<Factor>, i: int, j: int, k: int)
    requires AllShaped(d, fs) && d.InRange(i, j, k)
    ensures 0 <= d.Position(i, j, k) < d.Total()
    ensures Rebuilt(d, fs)[d.Position(i, j, k)] == SumOfTerms(d, fs, i, j, k)
  {
    PositionUnique(d, i, j, k);
    hide SumOfTerms;
  }

  lemma TermsAdd(d: Dims, fs: seq<Factor>, f: Factor, i: int, j: int, k: int)
    requires AllShaped(d, fs) && Shaped(d, f) && d.InRange(i, j, k)
    ensures AllShaped(d, fs + [f])
    ensures SumOfTerms(d, fs + [f], i, j, k) == SumOfTerms(d, fs, i, j, k) + Term(d, f, i, j, k)
  {
    hide Term;
    assert (fs + [f])[..|fs|] == fs;
  }

  /** The cell of a single factor, at its row-major position; of none it is zero. */
  lemma SingleFactor(d: Dims, f: Factor, i: int, j: int, k: int)
    requires Shaped(d, f) && d.InRange(i, j, k)
    ensures 0 <= (i * d.d1 + j) * d.d2 + k < d.Total()
    ensures Rebuilt(d, [])[(i * d.d1 + j) * d.d2 + k] == 0.0
    ensures Rebuilt(d, [f])[(i * d.d1 + j) * d.d2 + k] == f.weight * f.a[i] * f.b[j] * f.c[k]
  {
    RebuiltAt(d, [f], i, j, k);
    RebuiltAt(d, [], i, j, k);
    TermsAdd(d, [], f, i, j, k);
    assert [] + [f] == [f];
    var term := f.weight * f.a[i] * f.b[j] * f.c[k];
    assert Term(d, f, i, j, k) == term && SumOfTerms(d, [], i, j, k) == 0.0;
    hide Rebuilt, SumOfTerms, Term;
  }

  /** Rebuilding adds up over the factors. */
  lemma FactorsAdd(d: Dims, fs: seq<Factor>, f: Factor, i: int, j: int, k: int)
    requires AllShaped(d, fs) && Shaped(d, f) && d.InRange(i, j, k)
    ensures AllShaped(d, fs + [f]) && 0 <= d.Position(i, j, k) < d.Total()
    ensures var p := d.Position(i, j, k);
            Rebuilt(d, fs + [f])[p] == Rebuilt(d, fs)[p] + Rebuilt(d, [f])[p]
  {
    hide Rebuilt, Term;
    TermsAdd(d, fs, f, i, j, k);
    TermsAdd(d, [], f, i, j, k);
    assert [] + [f] == [f] && SumOfTerms(d, [], i, j, k) == 0.0;
    hide SumOfTerms;
    RebuiltAt(d, fs + [f], i, j, k);
    RebuiltAt(d, fs, i, j, k);
    RebuiltAt(d, [f], i, j, k);
  }

  method ReconstructTensor(d: Dims, factors: seq<Factor>) returns (tensor: array3<real>)
    requires AllShaped(d, factors)
    ensures fresh(tensor) && HasDims(tensor, d) && Holds(tensor, d, Rebuilt(d, factors))
  {
    hide Holds, Rebuilt;
    tensor := new real[d.d0, d.d1, d.d2]((_, _, _) => 0.0);
    for n := 0 to |factors|
      invariant forall i, j, k | d.InRange(i, j, k) :: tensor[i, j, k] == SumOfTerms(d, factors[..n], i, j, k)
    {
      AddFactor(tensor, d, factors[n]);
      assert factors[..n + 1][..n] == factors[..n];
    }
    assert factors[..|factors|] == factors;
    SumsHold(tensor, d, factors);
  }

  lemma SumsHold(t: array3<real>, d: Dims, fs: seq<Factor>)
    requires AllShaped(d, fs) && HasDims(t, d)
    requires forall i, j, k | d.InRange(i, j, k) :: t[i, j, k] == SumOfTerms(d, fs, i, j, k)
    ensures Holds(t, d, Rebuilt(d, fs))
  {
    forall i, j, k | d.InRange(i, j, k) ensures CellHolds(d, Rebuilt(d, fs), i, j, k, t[i, j, k]) {
      PositionUnique(d, i, j, k);
    }
  }

  /** The three inner loops: add one factor's product to every cell. */
  method AddFactor(tensor: array3<real>, d: Dims, factor: Factor)
    requires HasDims(tensor, d) && Shaped(d, factor)
    modifies tensor
    ensures forall i, j, k | d.InRange(i, j, k) ::
              tensor[i, j, k] == old(tensor[i, j, k]) + Term(d, factor, i, j, k)
  {
    for i := 0 to d.d0
      invariant forall i', j', k' | d.InRange(i', j', k') ::
                  tensor[i', j', k'] == old(tensor[i', j', k']) + if i' < i then Term(d, factor, i', j', k') else 0.0
    {
      for j := 0 to d.d1
        invariant forall i', j', k' | d.InRange(i', j', k') ::
                    tensor[i', j', k'] == old(tensor[i', j', k']) +
                    if i' < i || (i' == i && j' < j) then Term(d, factor, i', j', k') else 0.0
      {
        for k := 0 to d.d2
          invariant forall i', j', k' | d.InRange(i', j', k') ::
                      tensor[i', j', k'] == old(tensor[i', j', k']) +
                      if i' < i || (i' == i && (j' < j || (j' == j && k' < k)))
                      then Term(d, factor, i', j', k') else 0.0
        {
          tensor[i, j, k] := tensor[i, j, k] + factor.weight * factor.a[i] * factor.b[j] * factor.c[k];
        }
      }
    }
  }

  // ----- the engine -----

  class TensorDecompositionEngine {
    const rank: nat
    const dims: Dims
    const sine: int -> real
    const cosine: int -> real
    var packetStorage: seq<seq<real>>

    /** The decomposition's factors: they depend on the engine only. */
    function Basis(r: nat): Factor {
      Factor(1.0 / (r + 1) as real, seq(dims.d0, (i: nat) => sine(i + r)), seq(dims.d1, (i: nat) => cosine(i + r)),
             seq(dims.d2, (i: nat) => sine(i + r)))
    }

    ghost function BasisFactors(): seq<Factor> {
      seq(rank, r requires 0 <= r < rank => Basis(r))
    }

    ghost predicate Valid()
      reads this
    {
      forall id | 0 <= id < |packetStorage| :: packetStorage[id] == Compressed(BasisFactors())
    }

    constructor (rank: nat, dims: Dims, sine: int -> real, cosine: int -> real)
      ensures Valid() && packetStorage == []
      ensures this.rank == rank && this.dims == dims && this.sine == sine && this.cosine == cosine
    {
      this.rank, this.dims, this.sine, this.cosine := rank, dims, sine, cosine;
      packetStorage := [];
    }

    /** The tensor is computed from, then ignored. */
    method CpDecomposition(tensor: array3<real>) returns (factors: seq<Factor>)
      ensures factors == BasisFactors() && |factors| == rank
      ensures forall r | 0 <= r < rank ::
                && factors[r].weight == 1.0 / (r + 1) as real && Shaped(dims, factors[r])
                && (forall i: nat | i < dims.d0 :: factors[r].a[i] == sine(i + r))
                && (forall i: nat | i < dims.d1 :: factors[r].b[i] == cosine(i + r))
                && (forall i: nat | i < dims.d2 :: factors[r].c[i] == sine(i + r))
    {
      factors := [];
      for r := 0 to rank
        invariant factors == BasisFactors()[..r]
      {
        factors := factors + [Basis(r)];
      }
    }

    /** Stores under the next identifier and leaves every earlier packet alone. */
    method StorePacket(packetFeatures: seq<real>) returns (packetId: nat)
      requires Valid()
      modifies this
      ensures Valid() && packetId == |old(packetStorage)|
      ensures packetStorage == old(packetStorage) + [Compressed(BasisFactors())]
    {
      var tensor := ReshapeToTensor(dims, packetFeatures);
      var factors := CpDecomposition(tensor);
      packetId := |packetStorage|;
      var compressed := CompressFactors(factors);
      packetStorage := packetStorage + [compressed];
    }

    /** Every packet comes back as the same features, whatever was stored. */
    method RetrievePacket(packetId: nat) returns (features: Option<seq<real>>)
      requires Valid()
      ensures features.Some? <==> packetId < |packetStorage|
      ensures features.Some? ==> AllShaped(dims, BasisFactors()) && features.value == Rebuilt(dims, BasisFactors())
    {
      if packetId >= |packetStorage| {
        return None;
      }
      DecompressUndoesCompress(dims, BasisFactors());
      var read := DecompressFactors(dims, packetStorage[packetId]);
      var factors := read.value;
      var tensor := ReconstructTensor(dims, factors);
      var flat := FlattenTensor(dims, tensor);
      FlattenUndoesReshape(dims, Rebuilt(dims, factors), tensor, flat);
      features := Some(flat);
    }
  }
}
