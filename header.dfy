/** The fixed 88-byte header (index.js QUANTIZED_MESH_HEADER and
    `decodeHeader`): twelve fields read in table order from offset 0. */
module Header {
  import opened Bytes

  /** The header's field names (the keys of the decoded header object). */
  datatype FieldName =
    | CenterX | CenterY | CenterZ
    | MinHeight | MaxHeight
    | BoundingSphereCenterX | BoundingSphereCenterY | BoundingSphereCenterZ | BoundingSphereRadius
    | HorizonOcclusionPointX | HorizonOcclusionPointY | HorizonOcclusionPointZ

  /** The header layout: field name and width in bytes, in file order. */
  const Layout: seq<(FieldName, nat)> := [
    (CenterX, 8), (CenterY, 8), (CenterZ, 8),
    (MinHeight, 4), (MaxHeight, 4),
    (BoundingSphereCenterX, 8), (BoundingSphereCenterY, 8),
    (BoundingSphereCenterZ, 8), (BoundingSphereRadius, 8),
    (HorizonOcclusionPointX, 8), (HorizonOcclusionPointY, 8),
    (HorizonOcclusionPointZ, 8)
  ]

  /** Bytes the header occupies; the vertex block starts here. */
  const HeaderSize: nat := 88

  /** One decoded field; `raw` holds the IEEE-754 bytes the float is read from. */
  datatype Field = Field(name: FieldName, offset: nat, raw: seq<u8>)

  datatype HeaderBlock = HeaderBlock(fields: seq<Field>, endPosition: nat)

  /** The offset of field k: the sum of the widths of the fields before it. */
  function FieldOffset(k: nat): (r: nat)
    requires k <= |Layout|
  {
    if k == 0 then 0 else FieldOffset(k - 1) + Layout[k - 1].1
  }

  /** Ten fields are 8-byte doubles and minHeight, maxHeight are 4-byte floats;
      each offset is the sum of the widths before it, and the header ends at 88. */
  lemma {:induction false} LayoutOffsets()
    ensures |Layout| == 12
    ensures forall k :: 0 <= k < 12 ==> (Layout[k].1 == 4 <==> k == 3 || k == 4)
    ensures forall k :: 0 <= k < 12 ==> Layout[k].1 == 4 || Layout[k].1 == 8
    ensures Layout[3].0 == MinHeight && Layout[4].0 == MaxHeight
    ensures FieldOffset(3) == 24 && FieldOffset(4) == 28 && FieldOffset(5) == 32
    ensures FieldOffset(12) == HeaderSize
  {
    assert FieldOffset(1) == 8 && FieldOffset(2) == 16 && FieldOffset(3) == 24;
    assert FieldOffset(4) == 28 && FieldOffset(5) == 32 && FieldOffset(6) == 40;
    assert FieldOffset(7) == 48 && FieldOffset(8) == 56 && FieldOffset(9) == 64;
    assert FieldOffset(10) == 72 && FieldOffset(11) == 80 && FieldOffset(12) == 88;
  }

  /** Every field ends inside the 88-byte header. */
  lemma {:induction false} FieldFits(k: nat)
    requires k < |Layout|
    ensures FieldOffset(k) + Layout[k].1 <= HeaderSize
    decreases |Layout| - k
  {
    if k == |Layout| - 1 {
      LayoutOffsets();
    } else {
      FieldFits(k + 1);
    }
  }

  /** Field k as read from a buffer long enough to hold it. */
  function FieldAt(s: seq<u8>, k: nat): (f: Field)
    requires k < |Layout| && FieldOffset(k) + Layout[k].1 <= |s|
    ensures f.name == Layout[k].0 && f.offset == FieldOffset(k) && |f.raw| == Layout[k].1
    ensures forall i :: 0 <= i < |f.raw| ==> f.raw[i] == s[f.offset + i]
  {
    Field(Layout[k].0, FieldOffset(k), s[FieldOffset(k)..FieldOffset(k) + Layout[k].1])
  }

  /** The first k fields read from a buffer that holds them. */
  function Fields(s: seq<u8>, k: nat): (r: seq<Field>)
    requires k <= |Layout| && FieldOffset(k) <= |s|
    ensures |r| == k
  {
    if k == 0 then [] else Fields(s, k - 1) + [FieldAt(s, k - 1)]
  }

  lemma {:induction false} FieldsIndex(s: seq<u8>, k: nat, j: nat)
    requires k <= |Layout| && FieldOffset(k) <= |s| && j < k
    ensures FieldOffset(j) + Layout[j].1 <= |s|
    ensures Fields(s, k)[j] == FieldAt(s, j)
  {
    if j < k - 1 {
      FieldsIndex(s, k - 1, j);
    }
  }

  /** The header a buffer decodes to, or the RangeError of a buffer shorter
      than the header. */
  function HeaderSpec(s: seq<u8>): (r: Result<HeaderBlock>)
  {
    if |s| < HeaderSize then Err(OutOfBounds)
    else LayoutOffsets(); Ok(HeaderBlock(Fields(s, |Layout|), HeaderSize))
  }

  /** `decodeHeader`: walks the layout accumulating the read position; the
      first getter that runs past the buffer end raises. */
  method DecodeHeader(buf: array<u8>) returns (r: Result<HeaderBlock>)
    ensures r == HeaderSpec(buf[..])
  {
    ghost var s := buf[..];
    var position := 0;
    var fields: seq<Field> := [];
    for k := 0 to |Layout|
      invariant position == FieldOffset(k) <= |s|
      invariant fields == Fields(s, k)
    {
      var key, bytesCount := Layout[k].0, Layout[k].1;
      var value := GetFloatBits(buf[..], position, bytesCount);
      if value.Err? {
        HeaderTooShort(s, k);
        return Err(value.error);
      }
      assert value.value == s[position..position + bytesCount];
      fields := fields + [Field(key, position, value.value)];
      position := position + bytesCount;
    }
    LayoutOffsets();
    return Ok(HeaderBlock(fields, position));
  }

  lemma HeaderTooShort(s: seq<u8>, k: nat)
    requires k < |Layout| && FieldOffset(k) + Layout[k].1 > |s|
    ensures HeaderSpec(s) == Err(OutOfBounds)
  {
    FieldFits(k);
  }

  /** A buffer of at least 88 bytes decodes to the twelve fields in layout
      order, each holding the bytes at its offset; a shorter one fails. */
  lemma HeaderFields(s: seq<u8>, k: nat)
    requires k < |Layout|
    ensures HeaderSpec(s).Ok? <==> |s| >= HeaderSize
    ensures FieldOffset(k) + Layout[k].1 <= HeaderSize && HeaderSpec(s).Ok? ==>
      var h := HeaderSpec(s).value;
      h.endPosition == 88 && |h.fields| == 12 &&
      h.fields[k].name == Layout[k].0 && h.fields[k].offset == FieldOffset(k) &&
      |h.fields[k].raw| == Layout[k].1 &&
      forall i :: 0 <= i < |h.fields[k].raw| ==> h.fields[k].raw[i] == s[h.fields[k].offset + i]
  {
    LayoutOffsets();
    FieldFits(k);
    if HeaderSpec(s).Ok? {
      FieldsIndex(s, |Layout|, k);
    }
  }
}
