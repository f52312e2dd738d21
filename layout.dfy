/**
 * The fixed data the sample uploads and the byte arithmetic around it: the quad's
 * vertex and index arrays, the staging buffer that holds both, the per-slot
 * constant buffers and the row and slice pitches of the RGBA texture. Floating
 * point values are not modelled; vertices are opaque 20-byte records.
 */
module Layout {

  newtype byte = x: int | 0 <= x < 256

  const FLOAT_SIZE: nat := 4
  /** struct Vertex { float position[3]; float uv[2]; } */
  const VERTEX_SIZE: nat := (3 + 2) * FLOAT_SIZE
  const VERTEX_COUNT: nat := 4
  /** The two triangles of the quad; the array is of C `int`, drawn as R32_UINT. */
  const INDICES: seq<int> := [0, 1, 2, 2, 3, 0]
  const INDEX_SIZE: nat := 4
  /** sizeof(vertices) and sizeof(indices). */
  const VERTICES_SIZE: nat := VERTEX_COUNT * VERTEX_SIZE
  const INDICES_SIZE: nat := |INDICES| * INDEX_SIZE
  /** The staging buffer holds the vertices followed by the indices. */
  const UPLOAD_BUFFER_SIZE: nat := VERTICES_SIZE + INDICES_SIZE
  /** The index count of DrawIndexedInstanced. */
  const DRAW_INDEX_COUNT: nat := 6
  /** R8G8B8A8: four bytes per texel. */
  const TEXEL_SIZE: nat := 4

  /** A byte range [offset, offset + size) of a buffer. */
  datatype Region = Region(offset: nat, size: nat)
  {
    function End(): nat { offset + size }
  }

  /** The source of the vertex copy and of the index copy in the staging buffer. */
  const VERTEX_REGION: Region := Region(0, VERTICES_SIZE)
  const INDEX_REGION: Region := Region(VERTICES_SIZE, INDICES_SIZE)

  predicate Disjoint(a: Region, b: Region)
  {
    a.End() <= b.offset || b.End() <= a.offset
  }

  predicate Inside(a: Region, size: nat)
  {
    a.End() <= size
  }

  /**
   * The staging buffer is exactly large enough for both copies, the copies do not
   * overlap, the vertex view's stride is one vertex, and the draw reads every index
   * once, each naming one of the four vertices.
   */
  lemma MeshLayout()
    ensures UPLOAD_BUFFER_SIZE == VERTICES_SIZE + INDICES_SIZE == 104
    ensures Inside(VERTEX_REGION, UPLOAD_BUFFER_SIZE) && Inside(INDEX_REGION, UPLOAD_BUFFER_SIZE)
    ensures Disjoint(VERTEX_REGION, INDEX_REGION)
    ensures INDEX_REGION.End() == UPLOAD_BUFFER_SIZE
    ensures VERTICES_SIZE == VERTEX_COUNT * VERTEX_SIZE
    ensures DRAW_INDEX_COUNT == |INDICES| && INDICES_SIZE == DRAW_INDEX_COUNT * INDEX_SIZE
    ensures forall i :: 0 <= i < |INDICES| ==> 0 <= INDICES[i] < VERTEX_COUNT
  {
  }

  /** memcpy(dst + offset, src, |src|) */
  function Memcpy(dst: seq<byte>, offset: nat, src: seq<byte>): (r: seq<byte>)
    requires offset + |src| <= |dst|
    ensures |r| == |dst|
    ensures r[offset..offset + |src|] == src
    ensures forall k :: 0 <= k < |dst| && !(offset <= k < offset + |src|) ==> r[k] == dst[k]
  {
    dst[..offset] + src + dst[offset + |src|..]
  }

  /** The bytes a CopyBufferRegion of region `r` reads from `buffer`. */
  function CopySource(buffer: seq<byte>, r: Region): seq<byte>
    requires Inside(r, |buffer|)
  {
    buffer[r.offset..r.End()]
  }

  /** The two memcpy calls into the mapped staging buffer. */
  function StageMesh(mapped: seq<byte>, vertexBytes: seq<byte>, indexBytes: seq<byte>): seq<byte>
    requires |mapped| == UPLOAD_BUFFER_SIZE
    requires |vertexBytes| == VERTICES_SIZE && |indexBytes| == INDICES_SIZE
  {
    Memcpy(Memcpy(mapped, 0, vertexBytes), VERTICES_SIZE, indexBytes)
  }

  /**
   * Staging overwrites the whole buffer, and the two copies out of it deliver
   * exactly the vertex bytes and the index bytes.
   */
  lemma StagedCopiesRoundTrip(mapped: seq<byte>, vertexBytes: seq<byte>, indexBytes: seq<byte>)
    requires |mapped| == UPLOAD_BUFFER_SIZE
    requires |vertexBytes| == VERTICES_SIZE && |indexBytes| == INDICES_SIZE
    ensures StageMesh(mapped, vertexBytes, indexBytes) == vertexBytes + indexBytes
    ensures CopySource(StageMesh(mapped, vertexBytes, indexBytes), VERTEX_REGION) == vertexBytes
    ensures CopySource(StageMesh(mapped, vertexBytes, indexBytes), INDEX_REGION) == indexBytes
  {
    var once := Memcpy(mapped, 0, vertexBytes);
    var staged := Memcpy(once, VERTICES_SIZE, indexBytes);
    assert staged[..VERTICES_SIZE] == once[..VERTICES_SIZE] == vertexBytes;
    assert staged[VERTICES_SIZE..] == indexBytes;
    assert staged == staged[..VERTICES_SIZE] + staged[VERTICES_SIZE..];
  }

  const TWO_32: int := 0x1_0000_0000

  /** The four little-endian bytes of a 32-bit two's-complement C `int`. */
  function EncodeInt32(x: int): (b: seq<byte>)
    requires -0x8000_0000 <= x < 0x8000_0000
    ensures |b| == INDEX_SIZE
  {
    var u := if x < 0 then x + TWO_32 else x;
    [(u % 256) as byte, (u / 256 % 256) as byte, (u / 65536 % 256) as byte, (u / 16777216) as byte]
  }

  /** How the GPU reads four bytes as R32_UINT. */
  function DecodeUint32(b: seq<byte>): (x: nat)
    requires |b| == INDEX_SIZE
    ensures x < TWO_32
  {
    b[0] as nat + 256 * (b[1] as nat + 256 * (b[2] as nat + 256 * b[3] as nat))
  }

  /** Reading a C int as R32_UINT gives it back when it is not negative, and x + 2^32 otherwise. */
  lemma DecodeEncode(x: int)
    requires -0x8000_0000 <= x < 0x8000_0000
    ensures DecodeUint32(EncodeInt32(x)) == if x < 0 then x + TWO_32 else x
  {
  }

  predicate Int32s(xs: seq<int>)
  {
    forall i :: 0 <= i < |xs| ==> -0x8000_0000 <= xs[i] < 0x8000_0000
  }

  /** memcpy of an `int` array. */
  function EncodeIndices(xs: seq<int>): (b: seq<byte>)
    requires Int32s(xs)
    ensures |b| == |xs| * INDEX_SIZE
  {
    if xs == [] then [] else EncodeInt32(xs[0]) + EncodeIndices(xs[1..])
  }

  /** The index buffer as the input assembler reads it with format R32_UINT. */
  function DecodeIndices(b: seq<byte>): (xs: seq<nat>)
    requires |b| % INDEX_SIZE == 0
    ensures |xs| == |b| / INDEX_SIZE
  {
    if b == [] then [] else [DecodeUint32(b[..INDEX_SIZE])] + DecodeIndices(b[INDEX_SIZE..])
  }

  /** Non-negative C ints survive the trip through an R32_UINT index buffer unchanged. */
  lemma {:induction false} IndicesRoundTrip(xs: seq<int>)
    requires forall i :: 0 <= i < |xs| ==> 0 <= xs[i] < 0x8000_0000
    ensures DecodeIndices(EncodeIndices(xs)) == xs
  {
    if xs != [] {
      var b := EncodeIndices(xs);
      assert b[..INDEX_SIZE] == EncodeInt32(xs[0]);
      assert b[INDEX_SIZE..] == EncodeIndices(xs[1..]);
      DecodeEncode(xs[0]);
      IndicesRoundTrip(xs[1..]);
    }
  }

  /** The index buffer is sized for the indices and the GPU reads back exactly INDICES. */
  lemma IndexBufferHoldsIndices()
    ensures |EncodeIndices(INDICES)| == INDICES_SIZE
    ensures DecodeIndices(EncodeIndices(INDICES)) == INDICES
  {
    IndicesRoundTrip(INDICES);
  }

  /** A decoded image: LoadImageFromMemory with row alignment 1 packs rows tightly. */
  datatype Image = Image(width: int, height: int, pixels: seq<byte>)

  /** srcData.RowPitch = width * 4 */
  function RowPitch(width: int): int
  {
    width * TEXEL_SIZE
  }

  /** srcData.SlicePitch = width * height * 4 */
  function SlicePitch(width: int, height: int): int
  {
    width * height * TEXEL_SIZE
  }

  /** Byte offset of channel `c` of texel (x, y) in the tightly packed source image. */
  function TexelOffset(width: int, x: int, y: int, c: int): int
  {
    y * RowPitch(width) + x * TEXEL_SIZE + c
  }

  /**
   * The slice is `height` rows of one pitch each, and every channel of every texel
   * of a width x height image lies inside the slice.
   */
  lemma TexturePitches(width: nat, height: nat)
    ensures SlicePitch(width, height) == RowPitch(width) * height
    ensures forall x, y, c :: 0 <= x < width && 0 <= y < height && 0 <= c < TEXEL_SIZE ==>
              0 <= TexelOffset(width, x, y, c) < SlicePitch(width, height)
  {
    forall x, y, c | 0 <= x < width && 0 <= y < height && 0 <= c < TEXEL_SIZE
      ensures 0 <= TexelOffset(width, x, y, c) < SlicePitch(width, height)
    {
      TexelInside(width, height, x, y, c);
    }
  }

  lemma TexelInside(width: nat, height: nat, x: nat, y: nat, c: nat)
    requires x < width && y < height && c < TEXEL_SIZE
    ensures TexelOffset(width, x, y, c) < SlicePitch(width, height)
  {
    calc {
      TexelOffset(width, x, y, c);
      < y * (width * TEXEL_SIZE) + width * TEXEL_SIZE;
      == (y + 1) * (width * TEXEL_SIZE);
      <= { assert y + 1 <= height; MulMono(y + 1, height, width * TEXEL_SIZE); }
         height * (width * TEXEL_SIZE);
      == SlicePitch(width, height);
    }
  }

  lemma MulMono(a: nat, b: nat, k: nat)
    requires a <= b
    ensures a * k <= b * k
  {
  }
}
