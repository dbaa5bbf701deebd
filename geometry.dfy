/**
 * The geometry half of `generateModelEntity`: a mesh anchor's geometry
 * becomes a `MeshDescriptor` whose positions and normals are the anchor's
 * vertex and normal vectors and whose primitives are triangles read out of
 * the raw face-index buffer.
 *
 * The index buffer is a byte sequence. Index `i` is read as a little-endian
 * 32-bit word at byte offset `i * bytesPerIndex`, whatever `bytesPerIndex`
 * says the width of an index is, and it is not compared with the number of
 * vertices.
 */
module Geometry {
  import opened Bytes

  type UInt32 = x: int | 0 <= x < 0x1_0000_0000

  /** A `SIMD3<Float>`; its components are only copied, never computed with. */
  datatype Vec3 = Vec3(x: real, y: real, z: real)

  /** `MeshAnchor.Geometry.faces`: `count` triangles whose indices lie in `buffer`. */
  datatype GeometryElement = GeometryElement(buffer: seq<byte>, count: nat, bytesPerIndex: nat)

  /** `MeshAnchor.Geometry`, with the vertex and normal sources already read as vectors. */
  datatype MeshGeometry = MeshGeometry(vertices: seq<Vec3>, normals: seq<Vec3>, faces: GeometryElement)

  /** `MeshDescriptor.Primitives.polygons`: vertex count of each polygon, then all indices. */
  datatype Primitives = Polygons(vertexCounts: seq<byte>, indices: seq<UInt32>)

  datatype MeshDescriptor = MeshDescriptor(positions: seq<Vec3>, normals: seq<Vec3>, primitives: Primitives)

  /** The `UInt32` at `offset`, little-endian. */
  function ReadUInt32(buf: seq<byte>, offset: nat): (r: UInt32)
    requires offset + 4 <= |buf|
    ensures r == ReadUInt16(buf, offset) + 0x1_0000 * ReadUInt16(buf, offset + 2)
  {
    buf[offset] as int + 0x100 * buf[offset + 1] as int
    + 0x1_0000 * buf[offset + 2] as int + 0x100_0000 * buf[offset + 3] as int
  }

  /**
   * Every one of the `3 * count` reads stays inside the buffer: the last one
   * starts at `(3 * count - 1) * bytesPerIndex` and takes four bytes.
   */
  predicate CoversIndexReads(f: GeometryElement)
  {
    f.count == 0 || (3 * f.count - 1) * f.bytesPerIndex + 4 <= |f.buffer|
  }

  lemma {:induction false} MulMonotonic(a: nat, b: nat, c: nat)
    requires a <= b
    ensures a * c <= b * c
  {
    if c > 0 {
      MulMonotonic(a, b, c - 1);
      assert a * c == a * (c - 1) + a && b * c == b * (c - 1) + b;
    }
  }

  lemma IndexReadInBounds(f: GeometryElement, i: nat)
    requires CoversIndexReads(f) && i < 3 * f.count
    ensures i * f.bytesPerIndex + 4 <= |f.buffer|
  {
    MulMonotonic(i, 3 * f.count - 1, f.bytesPerIndex);
  }

  /** `(0..<faces.count).map { _ in UInt8(3) }`: every face is taken to be a triangle. */
  function FaceVertexCounts(f: GeometryElement): (r: seq<byte>)
    ensures |r| == f.count && forall k :: 0 <= k < |r| ==> r[k] == 3
  {
    seq(f.count, _ => 3)
  }

  /** `(0..<faces.count * 3).map { ... }`: one 32-bit read per index slot. */
  function FaceIndices(f: GeometryElement): (r: seq<UInt32>)
    requires CoversIndexReads(f)
    ensures |r| == 3 * f.count
  {
    seq(3 * f.count, i requires 0 <= i < 3 * f.count =>
      IndexReadInBounds(f, i); ReadUInt32(f.buffer, i * f.bytesPerIndex))
  }

  /** The descriptor `generateModelEntity` fills in before generating a mesh resource. */
  function MeshDescriptorOf(g: MeshGeometry): (d: MeshDescriptor)
    requires CoversIndexReads(g.faces)
    ensures d.positions == g.vertices && d.normals == g.normals
    ensures |d.primitives.vertexCounts| == g.faces.count && |d.primitives.indices| == 3 * g.faces.count
  {
    MeshDescriptor(g.vertices, g.normals, Polygons(FaceVertexCounts(g.faces), FaceIndices(g.faces)))
  }

  /**
   * What the descriptor's primitives hold beyond their lengths: a polygon
   * count of 3 per face, and index `i` being the word at byte offset
   * `i * bytesPerIndex`. Nothing relates the indices to the vertices.
   */
  lemma MeshDescriptorContents(g: MeshGeometry)
    requires CoversIndexReads(g.faces)
    ensures var d := MeshDescriptorOf(g);
      && (forall k :: 0 <= k < g.faces.count ==> d.primitives.vertexCounts[k] == 3)
      && (forall i :: 0 <= i < 3 * g.faces.count ==>
            i * g.faces.bytesPerIndex + 4 <= |g.faces.buffer| &&
            d.primitives.indices[i] == ReadUInt32(g.faces.buffer, i * g.faces.bytesPerIndex))
  {
    var d := MeshDescriptorOf(g);
    forall i | 0 <= i < 3 * g.faces.count
      ensures i * g.faces.bytesPerIndex + 4 <= |g.faces.buffer|
      ensures d.primitives.indices[i] == ReadUInt32(g.faces.buffer, i * g.faces.bytesPerIndex)
    {
      IndexReadInBounds(g.faces, i);
    }
  }

  /** With no faces, the index buffer is not read and both lists are empty. */
  lemma NoFacesNoPrimitives(g: MeshGeometry)
    requires g.faces.count == 0
    ensures CoversIndexReads(g.faces)
    ensures MeshDescriptorOf(g).primitives == Polygons([], [])
  {
  }

  /** Little-endian bytes of a 32-bit word, by repeated division by 256. */
  function EncodeUInt32(v: UInt32): (r: seq<byte>)
    ensures |r| == 4
  {
    var q1 := v / 0x100;
    var q2 := q1 / 0x100;
    [(v % 0x100), (q1 % 0x100), (q2 % 0x100), (q2 / 0x100)]
  }

  /** A tightly packed buffer of 32-bit indices, as a 4-byte index buffer is laid out. */
  function EncodeIndices(xs: seq<UInt32>): (r: seq<byte>)
    ensures |r| == 4 * |xs|
  {
    if xs == [] then [] else EncodeUInt32(xs[0]) + EncodeIndices(xs[1..])
  }

  lemma ReadEncodedUInt32(v: UInt32, rest: seq<byte>)
    ensures ReadUInt32(EncodeUInt32(v) + rest, 0) == v
  {
    var q1 := v / 0x100;
    var q2 := q1 / 0x100;
    var b0, b1, b2, b3 := v % 0x100, q1 % 0x100, q2 % 0x100, q2 / 0x100;
    var buf := EncodeUInt32(v) + rest;
    assert buf[0] == b0 && buf[1] == b1 && buf[2] == b2 && buf[3] == b3;
    assert v == b0 + 0x100 * q1;
    assert q1 == b1 + 0x100 * q2;
    assert q2 == b2 + 0x100 * b3;
  }

  lemma {:induction false} ReadEncodedIndex(xs: seq<UInt32>, i: nat)
    requires i < |xs|
    ensures 4 * i + 4 <= |EncodeIndices(xs)|
    ensures ReadUInt32(EncodeIndices(xs), 4 * i) == xs[i]
  {
    var head, tail := EncodeUInt32(xs[0]), EncodeIndices(xs[1..]);
    assert EncodeIndices(xs) == head + tail;
    if i == 0 {
      ReadEncodedUInt32(xs[0], tail);
    } else {
      ReadEncodedIndex(xs[1..], i - 1);
      var buf, j := head + tail, 4 * (i - 1);
      assert buf[j + 4] == tail[j] && buf[j + 5] == tail[j + 1];
      assert buf[j + 6] == tail[j + 2] && buf[j + 7] == tail[j + 3];
    }
  }

  /**
   * With 4-byte indices the decoding is exact: a buffer holding the words of
   * `xs`, read as `|xs| / 3` faces, gives back `xs`.
   */
  lemma FaceIndicesRoundTrip(xs: seq<UInt32>)
    requires |xs| % 3 == 0
    ensures CoversIndexReads(GeometryElement(EncodeIndices(xs), |xs| / 3, 4))
    ensures FaceIndices(GeometryElement(EncodeIndices(xs), |xs| / 3, 4)) == xs
  {
    var f := GeometryElement(EncodeIndices(xs), |xs| / 3, 4);
    assert 3 * f.count == |xs| && |f.buffer| == 4 * |xs|;
    assert CoversIndexReads(f);
    var r := FaceIndices(f);
    forall i | 0 <= i < |xs|
      ensures r[i] == xs[i]
    {
      ReadEncodedIndex(xs, i);
      assert r[i] == ReadUInt32(f.buffer, 4 * i);
    }
  }

  /** The `UInt16` at `offset`, little-endian. */
  function ReadUInt16(buf: seq<byte>, offset: nat): (r: nat)
    requires offset + 2 <= |buf|
    ensures r < 0x1_0000
  {
    buf[offset] as int + 0x100 * buf[offset + 1] as int
  }

  /**
   * With 2-byte indices, each 32-bit read takes in the next index as well:
   * entry `i` is index `i` plus 65536 times index `i + 1`.
   */
  lemma SixteenBitIndicesMerge(f: GeometryElement, i: nat)
    requires f.bytesPerIndex == 2 && CoversIndexReads(f) && i < 3 * f.count
    ensures 2 * i + 4 <= |f.buffer|
    ensures FaceIndices(f)[i] == ReadUInt16(f.buffer, 2 * i) + 0x1_0000 * ReadUInt16(f.buffer, 2 * i + 2)
  {
  }

  /**
   * A tightly packed 2-byte index buffer (`6 * count` bytes) is two bytes too
   * short for the last 32-bit read.
   */
  lemma PackedSixteenBitBufferOverread(f: GeometryElement)
    requires f.bytesPerIndex == 2 && f.count > 0 && |f.buffer| == 6 * f.count
    ensures !CoversIndexReads(f)
  {
  }

  /**
   * No range check: the primitives depend on the face element alone, so any
   * vertex and normal lists, of any length, give the same triangles.
   */
  lemma PrimitivesIndependentOfVertices(g: MeshGeometry, vs: seq<Vec3>, ns: seq<Vec3>)
    requires CoversIndexReads(g.faces)
    ensures MeshDescriptorOf(g.(vertices := vs, normals := ns)).primitives == MeshDescriptorOf(g).primitives
  {
  }

  /**
   * An illustration of the above: a face whose indices name vertices that do
   * not exist still yields a descriptor, indices included.
   */
  lemma OutOfRangeIndicesAccepted()
    ensures var g := MeshGeometry([], [], GeometryElement(EncodeIndices([5, 6, 7]), 1, 4));
      && CoversIndexReads(g.faces)
      && MeshDescriptorOf(g).primitives.indices == [5, 6, 7]
      && forall i :: 0 <= i < 3 ==> MeshDescriptorOf(g).primitives.indices[i] >= |g.vertices|
  {
  }
}
