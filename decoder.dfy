/** The whole decoder (index.js `decode`): header, vertex block, index
    block and extensions in turn, each stage starting where the previous
    one ended. */
module QuantizedMesh {
  import opened Bytes
  import Header
  import VertexData
  import IndexData
  import Extensions

  /** The decoded tile. */
  datatype Tile = Tile(
    header: seq<Header.Field>,
    vertexData: seq<u16>,
    triangleIndices: seq<nat>,
    westIndices: seq<nat>,
    northIndices: seq<nat>,
    eastIndices: seq<nat>,
    southIndices: seq<nat>,
    extensions: Extensions.ExtensionSet)

  /** What `decode(data)` returns, or the first RangeError it raises,
      together with the buffer afterwards: the index block is decoded in
      place, so a failure after it leaves the buffer rewritten. The index
      block is given the length of the vertex array, three times the
      vertex count, as its count argument. */
  function DecodeSpec(s: seq<u8>): (Result<Tile>, seq<u8>)
  {
    match Header.HeaderSpec(s)
    case Err(e) => (Err(e), s)
    case Ok(header) =>
      match VertexData.VertexSpec(s, header.endPosition)
      case Err(e) => (Err(e), s)
      case Ok(vertices) =>
        var (indices, t) := IndexData.IndicesSpec(s, |vertices.vertexData|, vertices.endPosition);
        if indices.Err? then (Err(indices.error), t)
        else
          var ib := indices.value;
          match Extensions.ExtensionsSpec(t, ib.endPosition)
          case Err(e) => (Err(e), t)
          case Ok(eb) =>
            (Ok(Tile(header.fields, vertices.vertexData, ib.triangleIndices, ib.westIndices,
                     ib.northIndices, ib.eastIndices, ib.southIndices, eb.extensions)), t)
  }

  /** `decode`: runs the stages over one view of the buffer. */
  method Decode(buf: array<u8>) returns (r: Result<Tile>)
    modifies buf
    ensures (r, buf[..]) == DecodeSpec(old(buf[..]))
  {
    var header := Header.DecodeHeader(buf);
    if header.Err? {
      return Err(header.error);
    }
    var vertices := VertexData.DecodeVertexData(buf, header.value.endPosition);
    if vertices.Err? {
      return Err(vertices.error);
    }
    var indices := IndexData.DecodeIndices(buf, |vertices.value.vertexData|, vertices.value.endPosition);
    if indices.Err? {
      return Err(indices.error);
    }
    var extensions := Extensions.DecodeExtensions(buf, indices.value.endPosition);
    if extensions.Err? {
      return Err(extensions.error);
    }
    var ib := indices.value;
    return Ok(Tile(header.value.fields, vertices.value.vertexData, ib.triangleIndices, ib.westIndices,
                   ib.northIndices, ib.eastIndices, ib.southIndices, extensions.value.extensions));
  }

  /** A buffer too short for the header and the vertex count is a
      RangeError and is left as it was. */
  lemma TooShort(s: seq<u8>)
    requires |s| < Header.HeaderSize + 4
    ensures DecodeSpec(s) == (Err(OutOfBounds), s)
  {
    Header.HeaderFields(s, 0);
  }

  /** The index width `decode` ends up with: since the index block is given
      three times the vertex count, 32-bit indices are used from 21846
      vertices on, not only above 65536 vertices. */
  lemma IndexWidthOfVertexCount(n: nat)
    ensures IndexData.BytesPerIndex(3 * n) == 4 <==> n >= 21846
    ensures n == 21846 ==> IndexData.BytesPerIndex(3 * n) == 4 && IndexData.BytesPerIndex(n) == 2
  {
  }

  /** A decoded tile: the header is the twelve fields, the vertex array
      holds three values per vertex of the count n at byte 88, and the index
      block starts at the end of the vertex block padded to the index width
      chosen for 3n (with 16-bit indices it starts right there, unpadded);
      its triangle list holds three indices per triangle, each fitting in
      that width. */
  lemma DecodeLayout(s: seq<u8>, n: nat, tile: Tile, t: seq<u8>)
    requires GetUint32(s, 88) == Ok(n) && DecodeSpec(s) == (Ok(tile), t)
    ensures |tile.header| == 12 && |tile.vertexData| == 3 * n
    ensures var w := IndexData.BytesPerIndex(3 * n);
      var p := IndexData.AlignedPosition(92 + 6 * n, w);
      92 + 6 * n <= p < 92 + 6 * n + w &&
      GetUint32(s, p).Ok? && |tile.triangleIndices| == 3 * GetUint32(s, p).value &&
      (forall i :: 0 <= i < |tile.triangleIndices| ==> tile.triangleIndices[i] < Pow256(w))
    ensures IndexData.BytesPerIndex(3 * n) == 2 ==> IndexData.AlignedPosition(92 + 6 * n, 2) == 92 + 6 * n
  {
    var header, vertices, indices := DecodeStages(s, tile, t);
    Header.HeaderFields(s, 0);
    Header.LayoutOffsets();
    VertexData.VertexLayout(s, 88, n, vertices, 0);
    IndexData.IndicesResult(s, 3 * n, 92 + 6 * n, indices, t);
    IndexData.AlignedStart(92 + 6 * n, IndexData.BytesPerIndex(3 * n));
    EvenVertexEnd(n);
  }

  /** The vertex block after the header ends on an even offset, so 16-bit
      indices follow it without padding. */
  lemma EvenVertexEnd(n: nat)
    ensures IndexData.AlignedPosition(92 + 6 * n, 2) == 92 + 6 * n
  {
    var k := 46 + 3 * n;
    assert 92 + 6 * n == 2 * k;
    IndexData.AlignedStart(92 + 6 * n, 2);
  }

  /** The sample tile: with 189 vertices, 16-bit indices are used and the
      triangle count is read right at the end of the vertex block, byte
      1226, with the indices following from 1230; the triangle list holds
      three indices per triangle of that count. */
  lemma SampleTile(s: seq<u8>, tile: Tile, t: seq<u8>)
    requires GetUint32(s, 88) == Ok(189) && DecodeSpec(s) == (Ok(tile), t)
    ensures IndexData.BytesPerIndex(3 * 189) == 2
    ensures GetUint32(s, 1226).Ok? && |tile.triangleIndices| == 3 * GetUint32(s, 1226).value
    ensures 1230 + 2 * |tile.triangleIndices| <= |s|
  {
    DecodeLayout(s, 189, tile, t);
    var header, vertices, indices := DecodeStages(s, tile, t);
    Header.HeaderFields(s, 0);
    var e1, e2, e3, e4 := IndexData.IndicesCounts(s, 567, 1226, indices, t);
    IndexData.IndicesResult(s, 567, 1226, indices, t);
  }

  /** The stage results a successful decoding is assembled from: each of
      the five index lists lands in the tile field of its own name, and the
      extensions are those read from the buffer the index block leaves,
      starting where the block ends. */
  lemma DecodeStages(s: seq<u8>, tile: Tile, t: seq<u8>)
    returns (header: Header.HeaderBlock, vertices: VertexData.VertexBlock, indices: IndexData.IndexBlock)
    requires DecodeSpec(s) == (Ok(tile), t)
    ensures Header.HeaderSpec(s) == Ok(header) && tile.header == header.fields
    ensures VertexData.VertexSpec(s, header.endPosition) == Ok(vertices) && tile.vertexData == vertices.vertexData
    ensures IndexData.IndicesSpec(s, |vertices.vertexData|, vertices.endPosition) == (Ok(indices), t)
    ensures tile.triangleIndices == indices.triangleIndices && tile.westIndices == indices.westIndices
    ensures tile.southIndices == indices.southIndices && tile.eastIndices == indices.eastIndices
    ensures tile.northIndices == indices.northIndices
    ensures Extensions.ExtensionsSpec(t, indices.endPosition).Ok?
    ensures tile.extensions == Extensions.ExtensionsSpec(t, indices.endPosition).value.extensions
  {
    header := Header.HeaderSpec(s).value;
    vertices := VertexData.VertexSpec(s, header.endPosition).value;
    indices := IndexData.IndicesSpec(s, |vertices.vertexData|, vertices.endPosition).0.value;
  }

  /** Decoding rewrites only the index lists: every byte of the header, the
      vertex block, the padding and the triangle count is as it was, whether
      the decoding succeeds or fails. */
  lemma DecodeFrame(s: seq<u8>, j: nat)
    requires GetUint32(s, 88).Ok? && j < |s|
    requires var n := GetUint32(s, 88).value;
      j < IndexData.AlignedPosition(92 + 6 * n, IndexData.BytesPerIndex(3 * n)) + 4
    ensures |DecodeSpec(s).1| == |s| && DecodeSpec(s).1[j] == s[j]
  {
    DecodeBuffer(s);
    StagesFrame(s, j);
  }

  /** The same, stated over the buffer the index block leaves. */
  lemma StagesFrame(s: seq<u8>, j: nat)
    requires GetUint32(s, 88).Ok? && j < |s|
    requires var n := GetUint32(s, 88).value;
      j < IndexData.AlignedPosition(92 + 6 * n, IndexData.BytesPerIndex(3 * n)) + 4
    ensures var t :=
      if Header.HeaderSpec(s).Ok? && VertexData.VertexSpec(s, 88).Ok? then
        var vertices := VertexData.VertexSpec(s, 88).value;
        IndexData.IndicesSpec(s, |vertices.vertexData|, vertices.endPosition).1
      else s;
      |t| == |s| && t[j] == s[j]
  {
    if Header.HeaderSpec(s).Ok? && VertexData.VertexSpec(s, 88).Ok? {
      var n := GetUint32(s, 88).value;
      var vertices := VertexData.VertexSpec(s, 88).value;
      VertexData.VertexLayout(s, 88, n, vertices, 0);
      IndexData.IndicesFrame(s, |vertices.vertexData|, vertices.endPosition, j);
    }
  }

  /** The buffer after decoding is the one the index block leaves, or the
      input when an earlier stage fails. */
  lemma DecodeBuffer(s: seq<u8>)
    ensures Header.HeaderSpec(s).Ok? ==> Header.HeaderSpec(s).value.endPosition == 88
    ensures DecodeSpec(s).1 ==
      if Header.HeaderSpec(s).Ok? && VertexData.VertexSpec(s, 88).Ok? then
        var vertices := VertexData.VertexSpec(s, 88).value;
        IndexData.IndicesSpec(s, |vertices.vertexData|, vertices.endPosition).1
      else s
  {
    Header.HeaderFields(s, 0);
  }
}
