/** Extraction of one attribute's vertex data: the byte range to read and
    the in-place removal of the gaps between strided vectors. */
module VertexStreams {
  import opened Results
  import opened GlesState
  import opened MeshTypes

  /** The byte layout of an attribute's vectors: the size of one vector,
      the distance between vector starts, the unused bytes between two
      vectors, and the byte range [start, start + length) to read. */
  datatype Layout = Layout(vectorSize: nat, stride: nat, gap: int, start: nat, length: nat)

  /** The layout of `vectorCount` vectors of `vaa` bound through `vbb`, where
      one element of the attribute's type is `typeSize` bytes long. A stride
      of zero means the vectors are tightly packed. */
  function StreamLayout(vaa: VertexAttributeArray, vbb: VertexBufferBinding, vectorCount: nat, typeSize: nat): (l: Layout)
    requires vaa.size >= 0 && vectorCount >= 1
    ensures l.gap == l.stride - l.vectorSize
    ensures l.gap > 0 ==> vaa.stride == l.stride > l.vectorSize
    ensures vaa.stride == 0 ==> l.gap == 0
    ensures l.start == vaa.relativeOffset + vbb.offset
  {
    var elementsPerVector: nat := vaa.size;
    var vectorSize: nat := elementsPerVector * typeSize;
    var vectorStride: nat := if vaa.stride == 0 then vectorSize else vaa.stride;
    var gap := vectorStride - vectorSize;
    var length := vectorSize * vectorCount + gap * (vectorCount - 1);
    assert length == (vectorCount - 1) * vectorStride + vectorSize;
    Layout(vectorSize, vectorStride, gap, vaa.relativeOffset + vbb.offset, length)
  }

  /** The read range starts at the attribute's relative offset plus the
      binding's offset, ends exactly where the last vector ends, and so
      holds every one of the vectors. */
  lemma {:induction false} ReadRangeCoversVectors(
    vaa: VertexAttributeArray, vbb: VertexBufferBinding, vectorCount: nat, typeSize: nat, v: nat)
    requires vaa.size >= 0 && vectorCount >= 1 && v < vectorCount
    ensures var l := StreamLayout(vaa, vbb, vectorCount, typeSize);
      && l.vectorSize == vaa.size * typeSize
      && l.stride == (if vaa.stride == 0 then l.vectorSize else vaa.stride)
      && l.gap == l.stride - l.vectorSize
      && l.start == vaa.relativeOffset + vbb.offset
      && l.length == (vectorCount - 1) * l.stride + l.vectorSize
      && v * l.stride + l.vectorSize <= l.length
  {
    var l := StreamLayout(vaa, vbb, vectorCount, typeSize);
    MulMonotone(v, vectorCount - 1, l.stride);
  }

  lemma {:induction false} MulMonotone(a: nat, b: nat, c: nat)
    requires a <= b
    ensures a * c <= b * c
  {
    if a < b {
      MulMonotone(a, b - 1, c);
    }
  }

  /** Vector v of s, when vectors are `size` bytes long and start `stride`
      bytes apart. */
  function VectorAt(s: seq<byte>, v: nat, size: nat, stride: nat): seq<byte>
    requires v * stride + size <= |s|
  {
    s[v * stride .. v * stride + size]
  }

  /** The first n vectors of s laid end to end, without the gaps. */
  function Packed(s: seq<byte>, size: nat, stride: nat, n: nat): (r: seq<byte>)
    requires n == 0 || (n - 1) * stride + size <= |s|
    ensures |r| == n * size
    decreases n
  {
    if n == 0 then []
    else
      PackedStep(n, size, stride);
      Packed(s, size, stride, n - 1) + VectorAt(s, n - 1, size, stride)
  }

  /** The products that change when one more vector is packed. */
  lemma PackedStep(n: nat, size: nat, stride: nat)
    requires n >= 1
    ensures (n - 1) * size + size == n * size
    ensures n >= 2 ==> (n - 2) * stride + stride == (n - 1) * stride
  {
  }

  /** Vector v of the packed bytes is vector v of the strided input. */
  lemma {:induction false} PackedVector(s: seq<byte>, size: nat, stride: nat, n: nat, v: nat)
    requires v < n && (n - 1) * stride + size <= |s|
    ensures v * stride + size <= |s| && v * size + size <= n * size
    ensures VectorAt(Packed(s, size, stride, n), v, size, size) == VectorAt(s, v, size, stride)
  {
    VectorBounds(v, n, size, stride);
    if v < n - 1 {
      PackedKeepsPrefix(s, size, stride, n, v);
      PackedVector(s, size, stride, n - 1, v);
    } else {
      PackedEndsWithLast(s, size, stride, n);
    }
  }

  /** Packing one more vector leaves the earlier packed vectors in place. */
  lemma PackedKeepsPrefix(s: seq<byte>, size: nat, stride: nat, n: nat, v: nat)
    requires v + 1 < n && (n - 1) * stride + size <= |s|
    ensures (n - 2) * stride + size <= |s| && v * size + size <= (n - 1) * size
    ensures VectorAt(Packed(s, size, stride, n), v, size, size)
         == VectorAt(Packed(s, size, stride, n - 1), v, size, size)
  {
    PackedStep(n, size, stride);
    VectorBounds(v, n - 1, size, stride);
    var p := Packed(s, size, stride, n - 1);
    assert Packed(s, size, stride, n) == p + VectorAt(s, n - 1, size, stride);
  }

  /** The last packed vector is the last strided vector. */
  lemma PackedEndsWithLast(s: seq<byte>, size: nat, stride: nat, n: nat)
    requires n >= 1 && (n - 1) * stride + size <= |s|
    ensures (n - 1) * size + size == n * size
    ensures VectorAt(Packed(s, size, stride, n), n - 1, size, size) == VectorAt(s, n - 1, size, stride)
  {
    PackedStep(n, size, stride);
    var p := Packed(s, size, stride, n - 1);
    assert Packed(s, size, stride, n) == p + VectorAt(s, n - 1, size, stride);
  }

  /** Vector v < n starts early enough in both layouts to end inside the
      first n vectors. */
  lemma VectorBounds(v: nat, n: nat, size: nat, stride: nat)
    requires v < n
    ensures v * stride + size <= (n - 1) * stride + size
    ensures v * size + size <= n * size
  {
    MulMonotone(v, n - 1, stride);
    MulMonotone(v + 1, n, size);
  }

  /** The bytes of an attribute's stream: instanced bindings are refused;
      otherwise the read range is fetched and, when vectors are separated by
      a gap, compacted; without a gap the bytes are kept as read. */
  function StreamData(
    vaa: VertexAttributeArray, vbb: VertexBufferBinding, vectorCount: nat, typeSize: nat,
    source: MemorySource, read: MemoryReader): (r: Result<seq<byte>, MeshError>)
    requires ReadsExactly(read) && vaa.size >= 0 && vectorCount >= 1
    ensures r.Err? <==> vbb.divisor != 0
    ensures r.Err? ==> r.error == InstancedDrawUnsupported
  {
    if vbb.divisor != 0 then Err(InstancedDrawUnsupported)
    else
      var l := StreamLayout(vaa, vbb, vectorCount, typeSize);
      var data := read(source, l.start, l.start + l.length);
      if l.gap > 0 then
        ReadRangeCoversVectors(vaa, vbb, vectorCount, typeSize, vectorCount - 1);
        Ok(Packed(data, l.vectorSize, l.stride, vectorCount))
      else Ok(data)
  }

  /** With a gap, output vector i is the input bytes starting at i times the
      stride, and the output is exactly vectorCount vectors long; without a
      gap the bytes read are returned unchanged. */
  lemma {:induction false} StreamDataPacksVectors(
    vaa: VertexAttributeArray, vbb: VertexBufferBinding, vectorCount: nat, typeSize: nat,
    source: MemorySource, read: MemoryReader)
    requires ReadsExactly(read) && vaa.size >= 0 && vectorCount >= 1 && vbb.divisor == 0
    ensures var l := StreamLayout(vaa, vbb, vectorCount, typeSize);
      var data := read(source, l.start, l.start + l.length);
      var r := StreamData(vaa, vbb, vectorCount, typeSize, source, read);
      && |data| == l.length
      && (l.gap <= 0 ==> r == Ok(data))
      && (l.gap > 0 ==>
            && r.Ok? && |r.value| == vectorCount * l.vectorSize
            && forall v | 0 <= v < vectorCount ::
                 && v * l.stride + l.vectorSize <= |data|
                 && v * l.vectorSize + l.vectorSize <= |r.value|
                 && VectorAt(r.value, v, l.vectorSize, l.vectorSize) == VectorAt(data, v, l.vectorSize, l.stride))
  {
    var l := StreamLayout(vaa, vbb, vectorCount, typeSize);
    var data := read(source, l.start, l.start + l.length);
    ReadRangeCoversVectors(vaa, vbb, vectorCount, typeSize, vectorCount - 1);
    if l.gap > 0 {
      forall v | 0 <= v < vectorCount
        ensures v * l.stride + l.vectorSize <= |data|
        ensures v * l.vectorSize + l.vectorSize <= vectorCount * l.vectorSize
        ensures VectorAt(Packed(data, l.vectorSize, l.stride, vectorCount), v, l.vectorSize, l.vectorSize)
             == VectorAt(data, v, l.vectorSize, l.stride)
      {
        PackedVector(data, l.vectorSize, l.stride, vectorCount, v);
      }
    }
  }

  /** Vector i (0 < i < n) is read from at or after the position it is
      written to, and it ends inside the bytes read. */
  lemma CopyBounds(i: nat, n: nat, size: nat, stride: nat)
    requires 1 <= i < n && size < stride
    ensures i * size <= i * stride
    ensures i * stride + size <= (n - 1) * stride + size
  {
    MulMonotone(i, n - 1, stride);
    assert i * size <= i * stride by {
      MulMonotone(size, stride, i);
    }
  }

  /** One step of the compaction: after vector i is copied down to the end
      of the packed prefix, the prefix holds i + 1 packed vectors and the
      bytes after it are still those read. */
  lemma PackedExtend(
    s: seq<byte>, size: nat, stride: nat, i: nat, dst: nat, src: nat, before: seq<byte>, after: seq<byte>)
    requires 1 <= i && dst == i * size && src == i * stride
    requires dst <= src && src + size <= |s| && |before| == |s|
    requires before[..dst] == Packed(s, size, stride, i)
    requires before[dst..] == s[dst..]
    requires after == before[..dst] + before[src .. src + size] + before[dst + size..]
    ensures dst + size == (i + 1) * size && (i + 1) * size <= |s|
    ensures after[..dst + size] == Packed(s, size, stride, i + 1)
    ensures after[dst + size..] == s[dst + size..]
  {
    assert Packed(s, size, stride, i + 1) == Packed(s, size, stride, i) + s[src .. src + size];
    forall k | src <= k < src + size
      ensures before[k] == s[k]
    {
      assert before[dst..][k - dst] == s[dst..][k - dst];
    }
    assert before[src .. src + size] == s[src .. src + size];
    assert after[..dst + size] == before[..dst] + before[src .. src + size];
    assert after[dst + size..] == before[dst + size..];
  }

  /** When the stride is shorter than a vector (the vectors overlap), the
      bytes are returned as read, which is fewer than vectorCount whole
      vectors once there are two or more. */
  lemma {:induction false} OverlappingVectorsKeepReadLength(
    vaa: VertexAttributeArray, vbb: VertexBufferBinding, vectorCount: nat, typeSize: nat,
    source: MemorySource, read: MemoryReader)
    requires ReadsExactly(read) && vaa.size >= 0 && vectorCount >= 2 && vbb.divisor == 0
    requires StreamLayout(vaa, vbb, vectorCount, typeSize).gap < 0
    ensures var l := StreamLayout(vaa, vbb, vectorCount, typeSize);
      var r := StreamData(vaa, vbb, vectorCount, typeSize, source, read);
      r.Ok? && |r.value| == l.length < vectorCount * l.vectorSize
  {
    var l := StreamLayout(vaa, vbb, vectorCount, typeSize);
    ReadRangeCoversVectors(vaa, vbb, vectorCount, typeSize, 0);
    MulStrict(vectorCount - 1, l.stride, l.vectorSize);
    assert vectorCount * l.vectorSize == (vectorCount - 1) * l.vectorSize + l.vectorSize;
  }

  lemma {:induction false} MulStrict(a: nat, b: nat, c: nat)
    requires a >= 1 && b < c
    ensures a * b < a * c
  {
    if a > 1 {
      MulStrict(a - 1, b, c);
    }
  }

  /** Go's `copy(a[dst:dst+n], a[src:])` within one buffer when the source
      does not precede the destination: a front-to-back byte copy never
      overwrites a source byte before reading it. */
  method CopyWithin(a: array<byte>, dst: nat, src: nat, n: nat)
    requires dst <= src && src + n <= a.Length
    modifies a
    ensures a[..] == old(a[..dst]) + old(a[src .. src + n]) + old(a[dst + n..])
  {
    ghost var s := a[..];
    var j := 0;
    while j < n
      invariant 0 <= j <= n
      invariant forall i | 0 <= i < dst :: a[i] == s[i]
      invariant forall i | dst <= i < dst + j :: a[i] == s[src + (i - dst)]
      invariant forall i | dst + j <= i < a.Length :: a[i] == s[i]
    {
      // The source byte lies at or after the write position, so it still
      // holds its original value.
      a[dst + j] := a[src + j];
      j := j + 1;
    }
    Spliced(a[..], s, dst, src, n);
  }

  /** A sequence that agrees with s outside [dst, dst + n) and holds
      s[src .. src + n] inside it is that splice of s. */
  lemma Spliced(t: seq<byte>, s: seq<byte>, dst: nat, src: nat, n: nat)
    requires |t| == |s| && dst <= src && src + n <= |s|
    requires forall i | 0 <= i < dst :: t[i] == s[i]
    requires forall i | dst <= i < dst + n :: t[i] == s[src + (i - dst)]
    requires forall i | dst + n <= i < |t| :: t[i] == s[i]
    ensures t == s[..dst] + s[src .. src + n] + s[dst + n..]
  {
    var u := s[..dst] + s[src .. src + n] + s[dst + n..];
    forall i | 0 <= i < |t| ensures t[i] == u[i] {
      if i < dst {
        assert u[i] == s[..dst][i];
      } else if i < dst + n {
        assert u[i] == s[src .. src + n][i - dst];
      } else {
        assert u[i] == s[dst + n..][i - dst - n];
      }
    }
  }

  /** The gap-removal loop: vector i (i >= 1) is copied down to offset
      i * vectorSize, front to back, so that the first vectorCount * vectorSize
      bytes of `data` end up holding the packed vectors. */
  method RemoveGaps(data: array<byte>, vectorSize: nat, vectorStride: nat, vectorCount: nat)
    requires vectorCount >= 1 && vectorSize < vectorStride
    requires data.Length == (vectorCount - 1) * vectorStride + vectorSize
    modifies data
    ensures vectorCount * vectorSize <= data.Length
    ensures data[..vectorCount * vectorSize] == Packed(old(data[..]), vectorSize, vectorStride, vectorCount)
  {
    ghost var bytes := data[..];
    var i := 1;
    while i < vectorCount
      invariant 1 <= i <= vectorCount
      invariant i * vectorSize <= |bytes|
      invariant (i - 1) * vectorStride + vectorSize <= |bytes|
      invariant data[..i * vectorSize] == Packed(bytes, vectorSize, vectorStride, i)
      invariant data[i * vectorSize..] == bytes[i * vectorSize..]
    {
      // Vector i still ends inside the buffer, so the copy moves exactly
      // vectorSize bytes.
      var dst, src := i * vectorSize, i * vectorStride;
      CopyBounds(i, vectorCount, vectorSize, vectorStride);
      ghost var before := data[..];
      CopyWithin(data, dst, src, vectorSize);
      PackedExtend(bytes, vectorSize, vectorStride, i, dst, src, before, data[..]);
      i := i + 1;
    }
  }

  /** Reads an attribute's vectors and, when they are separated by a gap,
      compacts them in place and truncates to the packed length. */
  method VertexStreamData(
    vaa: VertexAttributeArray, vbb: VertexBufferBinding, vectorCount: nat, typeSize: nat,
    source: MemorySource, read: MemoryReader) returns (r: Result<seq<byte>, MeshError>)
    requires ReadsExactly(read) && vaa.size >= 0 && vectorCount >= 1
    ensures r == StreamData(vaa, vbb, vectorCount, typeSize, source, read)
  {
    if vbb.divisor != 0 {
      return Err(InstancedDrawUnsupported);
    }
    var l := StreamLayout(vaa, vbb, vectorCount, typeSize);
    ReadRangeCoversVectors(vaa, vbb, vectorCount, typeSize, vectorCount - 1);
    var bytes := read(source, l.start, l.start + l.length);
    var data := new byte[|bytes|](k requires 0 <= k < |bytes| => bytes[k]);
    assert data[..] == bytes;
    if l.gap > 0 {
      RemoveGaps(data, l.vectorSize, l.stride, vectorCount);
      r := Ok(data[..vectorCount * l.vectorSize]);
    } else {
      r := Ok(data[..]);
    }
  }
}
