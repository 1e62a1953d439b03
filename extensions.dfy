/** The extension records after the index block (index.js
    `decodeExtensions`, `decodeVertexNormalsExtension` and
    `decodeWaterMaskExtension`): each record is a 1-byte tag, a 32-bit
    little-endian payload length and the payload. */
module Extensions {
  import opened Bytes

  /** Tag of the oct-encoded per-vertex normals extension. */
  const VertexNormalsTag: u8 := 1
  /** Tag of the water mask extension. */
  const WaterMaskTag: u8 := 2

  /** One oct-encoded normal: the two bytes `decodeOct` turns into a unit
      vector. The vector itself is not part of this model. */
  datatype OctPair = OctPair(x: u8, y: u8)

  /** The decoded `extensions` object: each key is present or absent. The
      tags of unrecognised records, which the decoder reports with a
      warning, are collected in order. */
  datatype ExtensionSet = ExtensionSet(
    vertexNormals: Option<seq<OctPair>>,
    waterMask: Option<seq<u8>>,
    unknownTags: seq<u8>)

  /** The empty `extensions` object. */
  const NoExtensions := ExtensionSet(None, None, [])

  datatype ExtensionsBlock = ExtensionsBlock(extensions: ExtensionSet, endPosition: nat)

  /** The first k pairs of a normals payload. */
  function Normals(v: seq<u8>, k: nat): (r: seq<OctPair>)
    requires 2 * k <= |v|
    ensures |r| == k
  {
    if k == 0 then [] else Normals(v, k - 1) + [OctPair(v[2 * k - 2], v[2 * k - 1])]
  }

  /** `decodeVertexNormalsExtension`: one normal per 2-byte pair; a payload
      of odd length makes the last pair's second read run past the
      extension's view, a RangeError. */
  function NormalsSpec(v: seq<u8>): (r: Result<seq<OctPair>>)
    ensures r.Ok? <==> |v| % 2 == 0
    ensures r.Ok? ==> |r.value| == |v| / 2
  {
    if |v| % 2 == 0 then Ok(Normals(v, |v| / 2)) else Err(OutOfBounds)
  }

  /** `decodeVertexNormalsExtension`: steps through the view two bytes at a
      time while the position is inside it. */
  method DecodeVertexNormals(view: seq<u8>) returns (r: Result<seq<OctPair>>)
    ensures r == NormalsSpec(view)
  {
    var normals: seq<OctPair> := [];
    var position := 0;
    while position < |view|
      invariant position <= |view| && position % 2 == 0
      invariant normals == Normals(view, position / 2)
      decreases |view| - position
    {
      var x := GetUint8(view, position);
      var y := GetUint8(view, position + 1);
      if y.Err? {
        return Err(y.error);
      }
      normals := normals + [OctPair(x.value, y.value)];
      position := position + 2;
    }
    return Ok(normals);
  }

  /** The payload a list of normals is read from. */
  function EncodeNormals(n: seq<OctPair>): (v: seq<u8>)
    ensures |v| == 2 * |n|
  {
    if n == [] then [] else EncodeNormals(n[..|n| - 1]) + [n[|n| - 1].x, n[|n| - 1].y]
  }

  /** The normals read from the encoding of a list are that list. */
  lemma {:induction false} NormalsRoundTrip(n: seq<OctPair>)
    ensures NormalsSpec(EncodeNormals(n)) == Ok(n)
  {
    NormalsPrefix(n, |n|);
    assert n[..|n|] == n;
  }

  lemma {:induction false} NormalsPrefix(n: seq<OctPair>, k: nat)
    requires k <= |n|
    ensures Normals(EncodeNormals(n), k) == n[..k]
  {
    if k > 0 {
      NormalsPrefix(n, k - 1);
      EncodePairAt(n, k - 1);
      assert n[..k] == n[..k - 1] + [n[k - 1]];
    }
  }

  /** Pair i of the encoding sits at bytes 2i and 2i + 1. */
  lemma {:induction false} EncodePairAt(n: seq<OctPair>, i: nat)
    requires i < |n|
    ensures EncodeNormals(n)[2 * i] == n[i].x && EncodeNormals(n)[2 * i + 1] == n[i].y
  {
    if i < |n| - 1 {
      EncodePairAt(n[..|n| - 1], i);
    }
  }

  /** The effect of one record on the `extensions` object: tag 1 sets
      `vertexNormals`, failing as the normals decoding does, tag 2 sets
      `waterMask` to a copy of the payload, any other tag only warns. */
  function ApplyRecord(ext: ExtensionSet, tag: u8, payload: seq<u8>): Result<ExtensionSet>
  {
    if tag == VertexNormalsTag then
      var normals :- NormalsSpec(payload);
      Ok(ext.(vertexNormals := Some(normals)))
    else if tag == WaterMaskTag then
      Ok(ext.(waterMask := Some(payload)))
    else
      Ok(ext.(unknownTags := ext.unknownTags + [tag]))
  }

  /** The record loop from position p with the object built so far: stops
      at the first position at or past the buffer end; a length field or a
      payload view reaching past the end is a RangeError. */
  function ExtLoop(s: seq<u8>, p: nat, ext: ExtensionSet): Result<ExtensionsBlock>
    decreases |s| - p
  {
    if p >= |s| then Ok(ExtensionsBlock(ext, p))
    else
      var length :- GetUint32(s, p + 1);
      if p + 5 + length > |s| then Err(OutOfBounds)
      else
        var ext' :- ApplyRecord(ext, s[p], s[p + 5..p + 5 + length]);
        ExtLoop(s, p + 5 + length, ext')
  }

  /** `decodeExtensions(view, indicesEndPosition)`: nothing to read when
      the index block ends the buffer, otherwise the record loop. */
  function ExtensionsSpec(s: seq<u8>, start: nat): Result<ExtensionsBlock>
  {
    if |s| <= start then Ok(ExtensionsBlock(NoExtensions, start))
    else ExtLoop(s, start, NoExtensions)
  }

  /** `decodeExtensions`: the record loop, advancing past each record's
      tag, length field and payload. */
  method DecodeExtensions(buf: array<u8>, indicesEndPosition: nat) returns (r: Result<ExtensionsBlock>)
    ensures r == ExtensionsSpec(buf[..], indicesEndPosition)
  {
    var extensions := NoExtensions;
    if buf.Length <= indicesEndPosition {
      return Ok(ExtensionsBlock(extensions, indicesEndPosition));
    }
    var position := indicesEndPosition;
    while position < buf.Length
      invariant ExtLoop(buf[..], position, extensions) == ExtensionsSpec(buf[..], indicesEndPosition)
      decreases buf.Length - position
    {
      var next := DecodeRecord(buf, position, extensions);
      RecordLoop(buf[..], position, extensions);
      if next.Err? {
        return Err(next.error);
      }
      extensions, position := next.value.0, next.value.1;
    }
    return Ok(ExtensionsBlock(extensions, position));
  }

  /** One pass of the record loop at `position`: reads the tag and the
      length, views the payload, applies the record and advances past it. */
  method DecodeRecord(buf: array<u8>, position: nat, extensions: ExtensionSet)
    returns (r: Result<(ExtensionSet, nat)>)
    requires position < buf.Length
    ensures r == RecordSpec(buf[..], position, extensions)
  {
    var p := position;
    var extensionId := GetUint8(buf[..], p);
    p := p + 1;
    var extensionLength := GetUint32(buf[..], p);
    if extensionLength.Err? {
      return Err(extensionLength.error);
    }
    p := p + 4;
    if p + extensionLength.value > buf.Length {
      return Err(OutOfBounds);
    }
    var extensionView := buf[p..p + extensionLength.value];
    var ext := extensions;
    if extensionId.value == VertexNormalsTag {
      var normals := DecodeVertexNormals(extensionView);
      if normals.Err? {
        return Err(normals.error);
      }
      ext := ext.(vertexNormals := Some(normals.value));
    } else if extensionId.value == WaterMaskTag {
      ext := ext.(waterMask := Some(extensionView));
    } else {
      ext := ext.(unknownTags := ext.unknownTags + [extensionId.value]);
    }
    p := p + extensionLength.value;
    return Ok((ext, p));
  }

  /** The record at p: it fails exactly when its length field or its
      payload view runs past the buffer end, or the record itself fails
      (an odd normals payload); otherwise it yields the object with that one
      record applied and the position 5 + length further on. */
  function RecordSpec(s: seq<u8>, p: nat, ext: ExtensionSet): (r: Result<(ExtensionSet, nat)>)
    requires p < |s|
    ensures r.Err? <==>
      GetUint32(s, p + 1).Err? || p + 5 + GetUint32(s, p + 1).value > |s| ||
      ApplyRecord(ext, s[p], s[p + 5..p + 5 + GetUint32(s, p + 1).value]).Err?
    ensures r.Ok? ==>
      r.value.1 == p + 5 + GetUint32(s, p + 1).value <= |s| &&
      ApplyRecord(ext, s[p], s[p + 5..r.value.1]) == Ok(r.value.0)
  {
    var length :- GetUint32(s, p + 1);
    if p + 5 + length > |s| then Err(OutOfBounds)
    else
      var ext' :- ApplyRecord(ext, s[p], s[p + 5..p + 5 + length]);
      Ok((ext', p + 5 + length))
  }

  /** The walk from p is the record at p followed by the walk after it. */
  lemma RecordLoop(s: seq<u8>, p: nat, ext: ExtensionSet)
    requires p < |s|
    ensures RecordSpec(s, p, ext).Err? ==> ExtLoop(s, p, ext) == Err(RecordSpec(s, p, ext).error)
    ensures RecordSpec(s, p, ext).Ok? ==>
      p < RecordSpec(s, p, ext).value.1 &&
      ExtLoop(s, p, ext) == ExtLoop(s, RecordSpec(s, p, ext).value.1, RecordSpec(s, p, ext).value.0)
  {
  }

  /** One record moves the loop to the position after its payload. */
  lemma ExtStep(s: seq<u8>, p: nat, ext: ExtensionSet, length: nat, ext': ExtensionSet, p': nat)
    requires p < |s| && GetUint32(s, p + 1) == Ok(length) && p' == p + 5 + length <= |s|
    requires ApplyRecord(ext, s[p], s[p + 5..p']) == Ok(ext')
    ensures ExtLoop(s, p, ext) == ExtLoop(s, p', ext')
  {
  }

  /** A walk that succeeds stops exactly at the buffer end: every record
      advances the position by 5 plus its length and never past the end;
      with nothing to read the position is returned as it was. */
  lemma {:induction false} ExtLoopEnd(s: seq<u8>, p: nat, ext: ExtensionSet)
    ensures ExtLoop(s, p, ext).Ok? ==> ExtLoop(s, p, ext).value.endPosition == if p >= |s| then p else |s|
    decreases |s| - p
  {
    if p < |s| && GetUint32(s, p + 1).Ok? {
      var length := GetUint32(s, p + 1).value;
      if p + 5 + length <= |s| {
        var r := ApplyRecord(ext, s[p], s[p + 5..p + 5 + length]);
        if r.Ok? {
          ExtLoopEnd(s, p + 5 + length, r.value);
        }
      }
    }
  }

  /** `decodeExtensions` on a buffer that ends at or before the index block
      yields no extensions and the position unchanged; otherwise a
      successful walk ends at the buffer end. */
  lemma ExtensionsEnd(s: seq<u8>, start: nat)
    ensures |s| <= start ==> ExtensionsSpec(s, start) == Ok(ExtensionsBlock(NoExtensions, start))
    ensures |s| > start && ExtensionsSpec(s, start).Ok? ==> ExtensionsSpec(s, start).value.endPosition == |s|
  {
    ExtLoopEnd(s, start, NoExtensions);
  }

  /** One extension record: tag, 32-bit little-endian length, payload. */
  datatype Record = Record(tag: u8, payload: seq<u8>)

  predicate Encodable(records: seq<Record>)
  {
    forall i :: 0 <= i < |records| ==> |records[i].payload| < 0x1_0000_0000
  }

  /** The bytes of a sequence of records, as the format lays them out. */
  function EncodeRecords(records: seq<Record>): (b: seq<u8>)
    requires Encodable(records)
  {
    if records == [] then []
    else
      var r := records[0];
      Pow256Widths();
      [r.tag] + LittleEndian(|r.payload|, 4) + r.payload + EncodeRecords(records[1..])
  }

  /** The `extensions` object after applying the records in order, or the
      error of the first one that fails. */
  function ApplyAll(ext: ExtensionSet, records: seq<Record>): Result<ExtensionSet>
    decreases |records|
  {
    if records == [] then Ok(ext)
    else
      var ext' :- ApplyRecord(ext, records[0].tag, records[0].payload);
      ApplyAll(ext', records[1..])
  }

  /** The block a walk yields once the records have been applied. */
  function Finish(r: Result<ExtensionSet>, endPosition: nat): Result<ExtensionsBlock>
  {
    match r
    case Ok(e) => Ok(ExtensionsBlock(e, endPosition))
    case Err(x) => Err(x)
  }

  /** The walk over encoded records applies each record in turn and ends at
      the buffer end. */
  lemma {:induction false} ExtLoopRecords(s: seq<u8>, p: nat, ext: ExtensionSet, records: seq<Record>)
    requires Encodable(records) && p <= |s| && s[p..] == EncodeRecords(records)
    ensures ExtLoop(s, p, ext) == Finish(ApplyAll(ext, records), |s|)
    decreases |records|
  {
    if records != [] {
      var r := records[0];
      var p' := p + 5 + |r.payload|;
      var rest := EncodeRecords(records[1..]);
      assert s[p..] == [r.tag] + LittleEndian(|r.payload|, 4) + r.payload + rest;
      RecordAt(s, p, r.tag, r.payload, rest);
      var a := ApplyRecord(ext, r.tag, r.payload);
      RecordStep(s, p, ext, |r.payload|, p', a);
      ApplyFirst(ext, records, a);
      if a.Ok? {
        ExtLoopRecords(s, p', a.value, records[1..]);
      }
    }
  }

  /** The walk over one record that fits in the buffer: the record's effect,
      then the walk from the position after it. */
  lemma RecordStep(s: seq<u8>, p: nat, ext: ExtensionSet, length: nat, p': nat, a: Result<ExtensionSet>)
    requires p < |s| && GetUint32(s, p + 1) == Ok(length) && p' == p + 5 + length <= |s|
    requires a == ApplyRecord(ext, s[p], s[p + 5..p'])
    ensures a.Err? ==> ExtLoop(s, p, ext) == Err(a.error)
    ensures a.Ok? ==> ExtLoop(s, p, ext) == ExtLoop(s, p', a.value)
  {
  }

  lemma ApplyFirst(ext: ExtensionSet, records: seq<Record>, a: Result<ExtensionSet>)
    requires records != [] && a == ApplyRecord(ext, records[0].tag, records[0].payload)
    ensures a.Err? ==> ApplyAll(ext, records) == Err(a.error)
    ensures a.Ok? ==> ApplyAll(ext, records) == ApplyAll(a.value, records[1..])
  {
  }

  /** The fields of an encoded record, read back from the buffer. */
  lemma RecordAt(s: seq<u8>, p: nat, tag: u8, payload: seq<u8>, rest: seq<u8>)
    requires |payload| < 0x1_0000_0000 && p <= |s|
    requires s[p..] == [tag] + LittleEndian(|payload|, 4) + payload + rest
    ensures p < |s| && s[p] == tag
    ensures p + 5 + |payload| <= |s|
    ensures GetUint32(s, p + 1) == Ok(|payload|)
    ensures s[p + 5..p + 5 + |payload|] == payload
    ensures s[p + 5 + |payload|..] == rest
  {
    var le := LittleEndian(|payload|, 4);
    RecordSlices(s, p, tag, le, payload, rest);
    RecordLength(s, p + 1, |payload|);
  }

  lemma RecordSlices(s: seq<u8>, p: nat, tag: u8, le: seq<u8>, payload: seq<u8>, rest: seq<u8>)
    requires |le| == 4 && p <= |s| && s[p..] == [tag] + le + payload + rest
    ensures p + 5 + |payload| <= |s|
    ensures s[p] == tag && s[p + 1..p + 5] == le
    ensures s[p + 5..p + 5 + |payload|] == payload && s[p + 5 + |payload|..] == rest
  {
    var e := [tag] + le + payload + rest;
    RecordParts(tag, le, payload, rest);
    SubSlice(s, p, e, 1, 5);
    SubSlice(s, p, e, 5, 5 + |payload|);
    SuffixSlice(s, p, e, 5 + |payload|);
    assert s[p] == e[0];
  }

  /** The length field holding the encoding of n reads back as n. */
  lemma RecordLength(s: seq<u8>, q: nat, n: nat)
    requires n < 0x1_0000_0000 && q + 4 <= |s| && s[q..q + 4] == LittleEndian(n, 4)
    ensures GetUint32(s, q) == Ok(n)
  {
    Pow256Widths();
    WordOfLittleEndian(s, q, n, 4);
    Uint32Word(s, q);
  }

  /** The parts of an encoded record, recovered by slicing. */
  lemma RecordParts(tag: u8, le: seq<u8>, payload: seq<u8>, rest: seq<u8>)
    requires |le| == 4
    ensures ([tag] + le + payload + rest)[0] == tag
    ensures ([tag] + le + payload + rest)[1..5] == le
    ensures ([tag] + le + payload + rest)[5..5 + |payload|] == payload
    ensures ([tag] + le + payload + rest)[5 + |payload|..] == rest
  {
  }

  lemma SubSlice<T>(s: seq<T>, p: nat, e: seq<T>, i: nat, j: nat)
    requires p <= |s| && s[p..] == e && i <= j <= |e|
    ensures p + j <= |s| && s[p + i..p + j] == e[i..j]
  {
    forall k | 0 <= k < j - i
      ensures s[p + i..p + j][k] == e[i..j][k]
    {
      assert s[p..][i + k] == s[p + i + k];
    }
  }

  lemma SuffixSlice<T>(s: seq<T>, p: nat, e: seq<T>, i: nat)
    requires p <= |s| && s[p..] == e && i <= |e|
    ensures s[p + i..] == e[i..]
  {
  }

  /** Decoding the extension block of encoded records gives the object the
      records build in order, or the error of the first failing record;
      a successful walk ends at the buffer end. */
  lemma ExtensionsRoundTrip(s: seq<u8>, start: nat, records: seq<Record>)
    requires Encodable(records) && start <= |s| && s[start..] == EncodeRecords(records)
    ensures ExtensionsSpec(s, start) == Finish(ApplyAll(NoExtensions, records), |s|)
  {
    ExtLoopRecords(s, start, NoExtensions, records);
  }

  /** The payload of the last record with the given tag, if any. */
  function LastPayload(records: seq<Record>, tag: u8): Option<seq<u8>>
  {
    if records == [] then None
    else match LastPayload(records[1..], tag)
      case Some(v) => Some(v)
      case None => if records[0].tag == tag then Some(records[0].payload) else None
  }

  /** The tags other than 1 and 2, in record order. */
  function UnknownTags(records: seq<Record>): seq<u8>
  {
    if records == [] then []
    else
      (if records[0].tag == VertexNormalsTag || records[0].tag == WaterMaskTag then [] else [records[0].tag])
      + UnknownTags(records[1..])
  }

  /** The last record of each known tag wins: `vertexNormals` holds the
      normals of the last tag-1 payload and `waterMask` the last tag-2
      payload, each absent (or as before) when no such record occurs;
      other tags add no key and are only reported, in order. */
  lemma {:induction false} LastRecordWins(ext: ExtensionSet, records: seq<Record>)
    requires ApplyAll(ext, records).Ok?
    ensures var e := ApplyAll(ext, records).value;
      match LastPayload(records, VertexNormalsTag)
        case Some(v) => NormalsSpec(v).Ok? && e.vertexNormals == Some(NormalsSpec(v).value)
        case None => e.vertexNormals == ext.vertexNormals
    ensures var e := ApplyAll(ext, records).value;
      match LastPayload(records, WaterMaskTag)
        case Some(v) => e.waterMask == Some(v)
        case None => e.waterMask == ext.waterMask
    ensures ApplyAll(ext, records).value.unknownTags == ext.unknownTags + UnknownTags(records)
    decreases |records|
  {
    if records != [] {
      var a := ApplyRecord(ext, records[0].tag, records[0].payload);
      LastRecordWins(a.value, records[1..]);
      assert ext.unknownTags + UnknownTags(records) ==
        (ext.unknownTags + (if records[0].tag == VertexNormalsTag || records[0].tag == WaterMaskTag then [] else [records[0].tag]))
        + UnknownTags(records[1..]);
    }
  }
}
