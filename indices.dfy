/** The index block (index.js `decodeIndex` and `decodeIndices`): the
    triangle list and the four edge lists, each a 32-bit count followed by
    high-water-mark coded 16- or 32-bit words, decoded in place over the
    tile buffer itself. */
module IndexData {
  import opened Bytes

  /** The bytes spanned by k words of w bytes: w * k, written as a running
      sum so that the offset arithmetic stays linear. */
  function Span(w: nat, k: nat): (r: nat)
  {
    if k == 0 then 0 else Span(w, k - 1) + w
  }

  lemma {:induction false} SpanIsProduct(w: nat, k: nat)
    ensures Span(w, k) == w * k
  {
    if k > 0 {
      SpanIsProduct(w, k - 1);
      assert w * k == w * (k - 1) + w;
    }
  }

  /** The k words of w bytes starting at offset p. */
  function Words(s: seq<u8>, p: nat, k: nat, w: nat): (r: seq<nat>)
    requires p + Span(w, k) <= |s|
    ensures |r| == k
  {
    if k == 0 then [] else Words(s, p, k - 1, w) + [Word(s, p + Span(w, k - 1), w)]
  }

  /** The number of zero codes in c. */
  function ZeroCount(c: seq<nat>): (r: nat)
    ensures r <= |c|
  {
    if c == [] then 0 else ZeroCount(c[..|c| - 1]) + (if c[|c| - 1] == 0 then 1 else 0)
  }

  /** x stored into a Uint16Array element (w = 2) or a Uint32Array element
      (w = 4): x modulo 2^16 or 2^32. */
  function WrapIndex(x: int, w: nat): nat
  {
    if w == 2 then Wrap16(x) else x % 0x1_0000_0000
  }

  /** High-water-mark decoding: each code is subtracted from the number of
      zero codes before it, the difference stored modulo 256^w. */
  function HighWaterDecode(c: seq<nat>, w: nat): (r: seq<nat>)
    ensures |r| == |c|
  {
    if c == [] then []
    else
      var prefix := c[..|c| - 1];
      HighWaterDecode(prefix, w) + [WrapIndex(ZeroCount(prefix) - c[|c| - 1], w)]
  }

  /** Every decoded index fits in w bytes. */
  lemma {:induction false} HighWaterBound(c: seq<nat>, w: nat)
    requires w == 2 || w == 4
    ensures forall i :: 0 <= i < |c| ==> HighWaterDecode(c, w)[i] < Pow256(w)
  {
    Pow256Widths();
    if c != [] {
      HighWaterBound(c[..|c| - 1], w);
    }
  }

  /** The buffer after the values `out` are stored, one w-byte word each, from
      offset p on. */
  function Overwrite(s: seq<u8>, p: nat, out: seq<nat>, w: nat): (r: seq<u8>)
    requires p + Span(w, |out|) <= |s|
    ensures |r| == |s|
  {
    if out == [] then s
    else
      var prefix := out[..|out| - 1];
      Put(Overwrite(s, p, prefix, w), p + Span(w, |prefix|), out[|out| - 1], w)
  }

  /** `decodeIndex(buffer, position, indicesCount, bytesPerIndex)`: the
      result and the buffer afterwards. Constructing the typed-array view
      raises a RangeError for a misaligned offset, then for a view reaching
      past the end; otherwise the codes are replaced by their decoding. */
  function DecodeIndexSpec(s: seq<u8>, p: nat, count: nat, w: nat): (Result<seq<nat>>, seq<u8>)
  {
    if w == 0 || p % w != 0 then (Err(Misaligned), s)
    else if p + w * count > |s| then (Err(OutOfBounds), s)
    else
      SpanIsProduct(w, count);
      var out := HighWaterDecode(Words(s, p, count, w), w);
      (Ok(out), Overwrite(s, p, out, w))
  }

  /** `decodeIndex`: views the count words at `position` as a Uint16Array or
      Uint32Array over the buffer, failing as the view constructor does, and
      rewrites the view in place. The returned indices are the view's
      contents, that is the rewritten words. */
  method DecodeIndex(buf: array<u8>, position: nat, count: nat, w: nat) returns (r: Result<seq<nat>>)
    requires w == 2 || w == 4
    modifies buf
    ensures (r, buf[..]) == DecodeIndexSpec(old(buf[..]), position, count, w)
  {
    if position % w != 0 {
      return Err(Misaligned);
    }
    if position + w * count > buf.Length {
      return Err(OutOfBounds);
    }
    ghost var s := buf[..];
    SpanIsProduct(w, count);
    RewriteIndices(buf, position, count, w);
    IndexComplete(s, position, count, w, HighWaterDecode(Words(s, position, count, w), w));
    return Ok(Words(buf[..], position, count, w));
  }

  /** The `decodeIndex` loop: each word is replaced by `highest - code`,
      counting the zero codes in `highest`. */
  method RewriteIndices(buf: array<u8>, position: nat, count: nat, w: nat)
    requires w == 2 || w == 4
    requires position + Span(w, count) <= buf.Length
    modifies buf
    ensures buf[..] == Overwrite(old(buf[..]), position, HighWaterDecode(Words(old(buf[..]), position, count, w), w), w)
  {
    ghost var s := buf[..];
    ghost var out: seq<nat> := [];
    var highest: int := 0;
    for i := 0 to count
      invariant buf.Length == |s|
      invariant IndexDecoded(s, position, w, i, out, highest)
      invariant buf[..] == Overwrite(s, position, out, w)
    {
      SpanMono(w, i + 1, count);
      out, highest := RewriteIndex(buf, s, position, w, i, out, highest);
    }
  }

  /** One iteration of the `decodeIndex` loop: element i of the view, at
      byte offset position + w * i, is read as a code and overwritten with
      its decoding. */
  method RewriteIndex(buf: array<u8>, ghost s: seq<u8>, position: nat, w: nat, i: nat, ghost out: seq<nat>, highest: int)
    returns (ghost out': seq<nat>, highest': int)
    requires w == 2 || w == 4
    requires buf.Length == |s| && position + Span(w, i + 1) <= |s|
    requires IndexDecoded(s, position, w, i, out, highest)
    requires buf[..] == Overwrite(s, position, out, w)
    modifies buf
    ensures IndexDecoded(s, position, w, i + 1, out', highest')
    ensures buf[..] == Overwrite(s, position, out', w)
  {
    ghost var t := buf[..];
    var q := position + Span(w, i);
    var code := Word(buf[..], q, w);
    var value := WrapIndex(highest - code, w);
    StoreWord(buf, q, value, w);
    highest' := highest;
    if code == 0 {
      highest' := highest + 1;
    }
    out' := out + [value];
    RewriteStep(s, position, w, i, out, highest, t, q, code, value, buf[..], out', highest');
  }

  /** The effect of one iteration on the ghost state: the loop invariant
      and the buffer-as-overwritten invariant both advance by one element. */
  lemma RewriteStep(s: seq<u8>, p: nat, w: nat, i: nat, out: seq<nat>, highest: int, t: seq<u8>,
                    q: nat, code: nat, value: nat, t': seq<u8>, out': seq<nat>, highest': int)
    requires p + Span(w, i + 1) <= |s| && IndexDecoded(s, p, w, i, out, highest)
    requires t == Overwrite(s, p, out, w) && q == p + Span(w, i)
    requires code == Word(t, q, w) && value == WrapIndex(highest - code, w)
    requires t' == Put(t, q, value, w)
    requires out' == out + [value] && highest' == highest + (if code == 0 then 1 else 0)
    ensures IndexDecoded(s, p, w, i + 1, out', highest')
    ensures t' == Overwrite(s, p, out', w)
  {
    OverwriteBeyond(s, p, out, w, q);
    OverwriteSnoc(s, p, out, value, w);
    IndexStep(s, p, w, i, i + 1, out, highest, code, value, out', highest');
  }

  /** The loop's final state is the one DecodeIndexSpec describes. */
  lemma IndexComplete(s: seq<u8>, p: nat, count: nat, w: nat, out: seq<nat>)
    requires (w == 2 || w == 4) && p % w == 0 && p + w * count <= |s| && p + Span(w, count) <= |s|
    requires out == HighWaterDecode(Words(s, p, count, w), w)
    ensures DecodeIndexSpec(s, p, count, w) == (Ok(Words(Overwrite(s, p, out, w), p, count, w)), Overwrite(s, p, out, w))
  {
    HighWaterBound(Words(s, p, count, w), w);
    OverwriteWords(s, p, out, w);
  }

  /** The `decodeIndex` loop after i iterations: the decoded prefix and
      the running high-water mark, the count of zero codes so far. */
  ghost predicate IndexDecoded(s: seq<u8>, p: nat, w: nat, i: nat, out: seq<nat>, highest: int)
  {
    p + Span(w, i) <= |s| &&
    out == HighWaterDecode(Words(s, p, i, w), w) &&
    highest == ZeroCount(Words(s, p, i, w))
  }

  /** One iteration keeps the loop's invariant. */
  lemma IndexStep(s: seq<u8>, p: nat, w: nat, i: nat, j: nat, out: seq<nat>, highest: int,
                  code: nat, value: nat, out': seq<nat>, highest': int)
    requires IndexDecoded(s, p, w, i, out, highest) && j == i + 1 && p + Span(w, j) <= |s|
    requires code == Word(s, p + Span(w, i), w) && value == WrapIndex(highest - code, w)
    requires out' == out + [value] && highest' == highest + (if code == 0 then 1 else 0)
    ensures IndexDecoded(s, p, w, j, out', highest')
  {
    WordsSnoc(s, p, i, w);
    HighWaterSnoc(Words(s, p, i, w), code, w);
  }

  lemma WordsSnoc(s: seq<u8>, p: nat, k: nat, w: nat)
    requires p + Span(w, k + 1) <= |s|
    ensures p + Span(w, k) + w <= |s|
    ensures Words(s, p, k + 1, w) == Words(s, p, k, w) + [Word(s, p + Span(w, k), w)]
  {
  }

  lemma HighWaterSnoc(c: seq<nat>, x: nat, w: nat)
    ensures ZeroCount(c + [x]) == ZeroCount(c) + (if x == 0 then 1 else 0)
    ensures HighWaterDecode(c + [x], w) == HighWaterDecode(c, w) + [WrapIndex(ZeroCount(c) - x, w)]
  {
    assert (c + [x])[..|c|] == c;
  }

  lemma OverwriteSnoc(s: seq<u8>, p: nat, out: seq<nat>, x: nat, w: nat)
    requires p + Span(w, |out| + 1) <= |s|
    ensures p + Span(w, |out|) + w <= |s|
    ensures Overwrite(s, p, out + [x], w) == Put(Overwrite(s, p, out, w), p + Span(w, |out|), x, w)
  {
    assert (out + [x])[..|out|] == out;
  }

  /** Assigning x to the typed-array element at byte offset p: its w bytes
      become the little-endian encoding of x. */
  method StoreWord(buf: array<u8>, p: nat, x: nat, w: nat)
    requires p + w <= buf.Length
    modifies buf
    ensures buf[..] == Put(old(buf[..]), p, x, w)
  {
    var rest := x;
    for j := 0 to w
      invariant Put(buf[..], p + j, rest, w - j) == Put(old(buf[..]), p, x, w)
    {
      buf[p + j] := rest % 0x100;
      rest := rest / 0x100;
    }
  }

  lemma {:induction false} SpanMono(w: nat, i: nat, k: nat)
    requires i <= k
    ensures Span(w, i) <= Span(w, k)
    decreases k
  {
    if i < k {
      SpanMono(w, i, k - 1);
    }
  }

  /** Overwriting leaves every byte outside the rewritten words alone. */
  lemma {:induction false} OverwriteFrame(s: seq<u8>, p: nat, out: seq<nat>, w: nat, j: nat)
    requires p + Span(w, |out|) <= |s| && j < |s|
    requires j < p || p + Span(w, |out|) <= j
    ensures Overwrite(s, p, out, w)[j] == s[j]
  {
    if out != [] {
      var prefix := out[..|out| - 1];
      OverwriteFrame(s, p, prefix, w, j);
      PutFrame(Overwrite(s, p, prefix, w), p + Span(w, |prefix|), out[|out| - 1], w, j);
    }
  }

  /** The words after the rewritten ones still hold their original codes. */
  lemma OverwriteBeyond(s: seq<u8>, p: nat, out: seq<nat>, w: nat, q: nat)
    requires q == p + Span(w, |out|) && q + w <= |s|
    ensures Word(Overwrite(s, p, out, w), q, w) == Word(s, q, w)
  {
    var r := Overwrite(s, p, out, w);
    forall j | q <= j < q + w ensures r[j] == s[j] {
      OverwriteFrame(s, p, out, w, j);
    }
    WordAgree(r, s, q, w);
  }

  /** Words read only the bytes they span. */
  lemma {:induction false} WordsAgree(s: seq<u8>, t: seq<u8>, p: nat, k: nat, w: nat)
    requires p + Span(w, k) <= |s| && p + Span(w, k) <= |t|
    requires forall j :: p <= j < p + Span(w, k) ==> s[j] == t[j]
    ensures Words(s, p, k, w) == Words(t, p, k, w)
  {
    if k > 0 {
      WordsAgree(s, t, p, k - 1, w);
      WordAgree(s, t, p + Span(w, k - 1), w);
    }
  }

  /** Reading back the rewritten words gives the stored values. */
  lemma {:induction false} OverwriteWords(s: seq<u8>, p: nat, out: seq<nat>, w: nat)
    requires p + Span(w, |out|) <= |s|
    requires forall i :: 0 <= i < |out| ==> out[i] < Pow256(w)
    ensures Words(Overwrite(s, p, out, w), p, |out|, w) == out
  {
    if out != [] {
      var prefix := out[..|out| - 1];
      var q := p + Span(w, |prefix|);
      var before := Overwrite(s, p, prefix, w);
      OverwriteWords(s, p, prefix, w);
      forall j | p <= j < q ensures before[j] == Put(before, q, out[|out| - 1], w)[j] {
        PutFrame(before, q, out[|out| - 1], w, j);
      }
      WordsAgree(before, Put(before, q, out[|out| - 1], w), p, |prefix|, w);
      PutWord(before, q, out[|out| - 1], w);
      assert prefix + [out[|out| - 1]] == out;
    }
  }

  /** Entry i of the decoding is the number of zero codes before it minus
      code i, modulo 256^w; in particular the zero codes decode to 0, 1, 2, ...
      in order. */
  lemma {:induction false} HighWaterAt(c: seq<nat>, w: nat, i: nat)
    requires i < |c|
    ensures HighWaterDecode(c, w)[i] == WrapIndex(ZeroCount(c[..i]) - c[i], w)
    ensures c[i] == 0 ==> HighWaterDecode(c, w)[i] == WrapIndex(ZeroCount(c[..i]), w)
  {
    if i < |c| - 1 {
      HighWaterAt(c[..|c| - 1], w, i);
      assert c[..|c| - 1][..i] == c[..i];
    }
  }

  /** The high-water mark after a list of indices: it rises by one each
      time an index equals it. */
  function Highest(idx: seq<nat>): (r: nat)
    ensures r <= |idx|
  {
    if idx == [] then 0
    else
      var h := Highest(idx[..|idx| - 1]);
      if idx[|idx| - 1] == h then h + 1 else h
  }

  /** Index lists the encoding can represent: no index exceeds the
      high-water mark of the indices before it. */
  ghost predicate HighWaterOrdered(idx: seq<nat>)
  {
    idx == [] || (HighWaterOrdered(idx[..|idx| - 1]) && idx[|idx| - 1] <= Highest(idx[..|idx| - 1]))
  }

  /** The encoder: each index becomes the high-water mark before it minus
      the index. */
  function HighWaterEncode(idx: seq<nat>): (c: seq<nat>)
    requires HighWaterOrdered(idx)
    ensures |c| == |idx|
  {
    if idx == [] then []
    else
      var prefix := idx[..|idx| - 1];
      HighWaterEncode(prefix) + [Highest(prefix) - idx[|idx| - 1]]
  }

  /** Decoding undoes encoding for every representable index list whose
      indices fit in w bytes. */
  lemma {:induction false} HighWaterRoundTrip(idx: seq<nat>, w: nat)
    requires HighWaterOrdered(idx) && (w == 2 || w == 4)
    requires forall i :: 0 <= i < |idx| ==> idx[i] < Pow256(w)
    ensures HighWaterDecode(HighWaterEncode(idx), w) == idx
  {
    if idx != [] {
      var prefix, x := idx[..|idx| - 1], idx[|idx| - 1];
      HighWaterRoundTrip(prefix, w);
      EncodeZeroCount(prefix);
      WrapSmall(x, w);
      var c := HighWaterEncode(prefix);
      var code := Highest(prefix) - x;
      assert HighWaterEncode(idx) == c + [code];
      RoundTripStep(prefix, x, w, c, code);
      LastSplit(idx);
    }
  }

  lemma RoundTripStep(prefix: seq<nat>, x: nat, w: nat, c: seq<nat>, code: nat)
    requires HighWaterDecode(c, w) == prefix && ZeroCount(c) == Highest(prefix)
    requires code == Highest(prefix) - x && WrapIndex(x, w) == x
    ensures HighWaterDecode(c + [code], w) == prefix + [x]
  {
    assert ZeroCount(c) - code == x;
    HighWaterSnocValue(c, code, w, x);
  }

  lemma HighWaterSnocValue(c: seq<nat>, code: nat, w: nat, v: nat)
    requires v == WrapIndex(ZeroCount(c) - code, w)
    ensures HighWaterDecode(c + [code], w) == HighWaterDecode(c, w) + [v]
  {
    HighWaterSnoc(c, code, w);
  }

  /** The zero codes of an encoding are the indices that raise the
      high-water mark, so counting them gives the mark. */
  lemma {:induction false} EncodeZeroCount(idx: seq<nat>)
    requires HighWaterOrdered(idx)
    ensures ZeroCount(HighWaterEncode(idx)) == Highest(idx)
  {
    if idx != [] {
      var prefix, x := idx[..|idx| - 1], idx[|idx| - 1];
      EncodeZeroCount(prefix);
      var c := HighWaterEncode(prefix);
      assert HighWaterEncode(idx) == c + [Highest(prefix) - x];
      HighWaterSnoc(c, Highest(prefix) - x, 2);
    }
  }

  lemma WrapSmall(x: nat, w: nat)
    requires (w == 2 || w == 4) && x < Pow256(w)
    ensures WrapIndex(x, w) == x
  {
    Pow256Widths();
  }

  /** `decodeIndex` fails exactly on a misaligned view or one reaching past
      the buffer end, in that order, and then leaves the buffer as it was. */
  lemma DecodeIndexErrors(s: seq<u8>, p: nat, count: nat, w: nat)
    requires w == 2 || w == 4
    ensures DecodeIndexSpec(s, p, count, w).0 == Err(Misaligned) <==> p % w != 0
    ensures DecodeIndexSpec(s, p, count, w).0 == Err(OutOfBounds) <==> p % w == 0 && p + w * count > |s|
    ensures DecodeIndexSpec(s, p, count, w).0.Err? ==> DecodeIndexSpec(s, p, count, w).1 == s
  {
  }

  /** A successful `decodeIndex` returns `count` indices, the high-water
      decoding of the codes, and the view over the rewritten buffer reads
      back as exactly those indices. */
  lemma DecodeIndexResult(s: seq<u8>, p: nat, count: nat, w: nat, out: seq<nat>, t: seq<u8>)
    requires w == 2 || w == 4
    requires DecodeIndexSpec(s, p, count, w) == (Ok(out), t)
    ensures Span(w, count) == w * count && p + w * count <= |s| == |t|
    ensures |out| == count && out == HighWaterDecode(Words(s, p, count, w), w)
    ensures Words(t, p, count, w) == out
  {
    SpanIsProduct(w, count);
    HighWaterBound(Words(s, p, count, w), w);
    OverwriteWords(s, p, out, w);
  }

  /** A successful `decodeIndex` changes no byte outside its view. */
  lemma DecodeIndexFrame(s: seq<u8>, p: nat, count: nat, w: nat, out: seq<nat>, t: seq<u8>, j: nat)
    requires DecodeIndexSpec(s, p, count, w) == (Ok(out), t)
    requires j < |s| && (j < p || p + w * count <= j)
    ensures t[j] == s[j]
  {
    SpanIsProduct(w, count);
    OverwriteFrame(s, p, out, w, j);
  }

  /** The decoded index block: the triangle list, the four edge lists and
      the position after the block. */
  datatype IndexBlock = IndexBlock(
    triangleIndices: seq<nat>,
    westIndices: seq<nat>,
    southIndices: seq<nat>,
    eastIndices: seq<nat>,
    northIndices: seq<nat>,
    endPosition: nat)

  /** The index width `decodeIndices` picks from its count argument: 32-bit
      indices above 65536, 16-bit ones otherwise. */
  function BytesPerIndex(vertexCount: nat): (w: nat)
  {
    if vertexCount > 65536 then 4 else 2
  }

  /** The position padded up to the next multiple of the index width. */
  function AlignedPosition(p: nat, w: nat): (r: nat)
    requires w > 0
  {
    if p % w != 0 then p + (w - p % w) else p
  }

  /** The number of indices a list with the given 32-bit count holds: three
      per triangle for the triangle list, one per vertex for an edge list. */
  function ListLength(count: nat, triangles: bool): nat
  {
    if triangles then count * 3 else count
  }

  /** One list of the index block at position p: the 32-bit count, then the
      indices decoded in place. Yields the indices, the position after them
      and the buffer afterwards. */
  function ListSpec(s: seq<u8>, p: nat, triangles: bool, w: nat): (Result<(seq<nat>, nat)>, seq<u8>)
  {
    match GetUint32(s, p)
    case Err(e) => (Err(e), s)
    case Ok(count) =>
      var n := ListLength(count, triangles);
      var (r, t) := DecodeIndexSpec(s, p + 4, n, w);
      if r.Err? then (Err(r.error), t) else (Ok((r.value, p + 4 + n * w)), t)
  }

  /** What `decodeIndices(view, vertexCount, start)` returns, or its first
      RangeError, together with the buffer afterwards: lists decoded before
      the failing one stay rewritten. */
  function IndicesSpec(s: seq<u8>, vertexCount: nat, start: nat): (Result<IndexBlock>, seq<u8>)
  {
    var w := BytesPerIndex(vertexCount);
    var (tri, s1) := ListSpec(s, AlignedPosition(start, w), true, w);
    if tri.Err? then (Err(tri.error), s1) else
    var (west, s2) := ListSpec(s1, tri.value.1, false, w);
    if west.Err? then (Err(west.error), s2) else
    var (south, s3) := ListSpec(s2, west.value.1, false, w);
    if south.Err? then (Err(south.error), s3) else
    var (east, s4) := ListSpec(s3, south.value.1, false, w);
    if east.Err? then (Err(east.error), s4) else
    var (north, s5) := ListSpec(s4, east.value.1, false, w);
    if north.Err? then (Err(north.error), s5) else
    (Ok(IndexBlock(tri.value.0, west.value.0, south.value.0, east.value.0, north.value.0, north.value.1)), s5)
  }

  /** One count-prefixed list of `decodeIndices`: reads the count, advances
      past it, decodes the indices and advances past them. */
  method DecodeList(buf: array<u8>, position: nat, triangles: bool, w: nat) returns (r: Result<(seq<nat>, nat)>)
    requires w == 2 || w == 4
    modifies buf
    ensures (r, buf[..]) == ListSpec(old(buf[..]), position, triangles, w)
  {
    ghost var s := buf[..];
    var count := GetUint32(buf[..], position);
    if count.Err? {
      return Err(count.error);
    }
    var n := ListLength(count.value, triangles);
    var indices := DecodeIndex(buf, position + 4, n, w);
    ListOfIndices(s, position, triangles, w, count.value, indices, buf[..]);
    if indices.Err? {
      return Err(indices.error);
    }
    return Ok((indices.value, position + 4 + n * w));
  }

  /** ListSpec in terms of the count and the outcome of `decodeIndex`. */
  lemma ListOfIndices(s: seq<u8>, p: nat, triangles: bool, w: nat, count: nat, r: Result<seq<nat>>, t: seq<u8>)
    requires GetUint32(s, p) == Ok(count)
    requires (r, t) == DecodeIndexSpec(s, p + 4, ListLength(count, triangles), w)
    ensures ListSpec(s, p, triangles, w) ==
      if r.Err? then (Err(r.error), t) else (Ok((r.value, p + 4 + ListLength(count, triangles) * w)), t)
  {
  }

  /** `decodeIndices`: picks the index width, pads the position to it, then
      decodes the triangle list and the west, south, east and north edge
      lists in turn, each list rewriting its codes in the buffer. */
  method DecodeIndices(buf: array<u8>, vertexCount: nat, start: nat) returns (r: Result<IndexBlock>)
    modifies buf
    ensures (r, buf[..]) == IndicesSpec(old(buf[..]), vertexCount, start)
  {
    ghost var s := buf[..];
    var bytesPerIndex := BytesPerIndex(vertexCount);
    var position := start;
    if position % bytesPerIndex != 0 {
      position := position + (bytesPerIndex - position % bytesPerIndex);
    }
    var tri := DecodeList(buf, position, true, bytesPerIndex);
    ghost var s1 := buf[..];
    if tri.Err? {
      TrianglesFail(s, vertexCount, start, tri, s1);
      return Err(tri.error);
    }
    var west := DecodeList(buf, tri.value.1, false, bytesPerIndex);
    ghost var s2 := buf[..];
    if west.Err? {
      WestFails(s, vertexCount, start, tri, s1, west, s2);
      return Err(west.error);
    }
    var south := DecodeList(buf, west.value.1, false, bytesPerIndex);
    ghost var s3 := buf[..];
    if south.Err? {
      SouthFails(s, vertexCount, start, tri, s1, west, s2, south, s3);
      return Err(south.error);
    }
    var east := DecodeList(buf, south.value.1, false, bytesPerIndex);
    ghost var s4 := buf[..];
    if east.Err? {
      EastFails(s, vertexCount, start, tri, s1, west, s2, south, s3, east, s4);
      return Err(east.error);
    }
    var north := DecodeList(buf, east.value.1, false, bytesPerIndex);
    IndicesOutcome(s, vertexCount, start, tri, s1, west, s2, south, s3, east, s4, north, buf[..]);
    if north.Err? {
      return Err(north.error);
    }
    return Ok(IndexBlock(tri.value.0, west.value.0, south.value.0, east.value.0, north.value.0, north.value.1));
  }

  /** A failing triangle list fails the block, leaving the buffer it leaves. */
  lemma TrianglesFail(s: seq<u8>, vertexCount: nat, start: nat, r1: Result<(seq<nat>, nat)>, s1: seq<u8>)
    requires ListSpec(s, AlignedPosition(start, BytesPerIndex(vertexCount)), true, BytesPerIndex(vertexCount)) == (r1, s1) && r1.Err?
    ensures IndicesSpec(s, vertexCount, start) == (Err(r1.error), s1)
  {
  }

  /** A failing west list, after the triangle list, fails the block. */
  lemma WestFails(s: seq<u8>, vertexCount: nat, start: nat,
                  r1: Result<(seq<nat>, nat)>, s1: seq<u8>, r2: Result<(seq<nat>, nat)>, s2: seq<u8>)
    requires ListSpec(s, AlignedPosition(start, BytesPerIndex(vertexCount)), true, BytesPerIndex(vertexCount)) == (r1, s1) && r1.Ok?
    requires ListSpec(s1, r1.value.1, false, BytesPerIndex(vertexCount)) == (r2, s2) && r2.Err?
    ensures IndicesSpec(s, vertexCount, start) == (Err(r2.error), s2)
  {
  }

  /** A failing south list, after the triangle and west lists, fails the block. */
  lemma SouthFails(s: seq<u8>, vertexCount: nat, start: nat,
                   r1: Result<(seq<nat>, nat)>, s1: seq<u8>, r2: Result<(seq<nat>, nat)>, s2: seq<u8>,
                   r3: Result<(seq<nat>, nat)>, s3: seq<u8>)
    requires ListSpec(s, AlignedPosition(start, BytesPerIndex(vertexCount)), true, BytesPerIndex(vertexCount)) == (r1, s1) && r1.Ok?
    requires ListSpec(s1, r1.value.1, false, BytesPerIndex(vertexCount)) == (r2, s2) && r2.Ok?
    requires ListSpec(s2, r2.value.1, false, BytesPerIndex(vertexCount)) == (r3, s3) && r3.Err?
    ensures IndicesSpec(s, vertexCount, start) == (Err(r3.error), s3)
  {
  }

  /** A failing east list, after the triangle, west and south lists, fails
      the block. */
  lemma EastFails(s: seq<u8>, vertexCount: nat, start: nat,
                  r1: Result<(seq<nat>, nat)>, s1: seq<u8>, r2: Result<(seq<nat>, nat)>, s2: seq<u8>,
                  r3: Result<(seq<nat>, nat)>, s3: seq<u8>, r4: Result<(seq<nat>, nat)>, s4: seq<u8>)
    requires ListSpec(s, AlignedPosition(start, BytesPerIndex(vertexCount)), true, BytesPerIndex(vertexCount)) == (r1, s1) && r1.Ok?
    requires ListSpec(s1, r1.value.1, false, BytesPerIndex(vertexCount)) == (r2, s2) && r2.Ok?
    requires ListSpec(s2, r2.value.1, false, BytesPerIndex(vertexCount)) == (r3, s3) && r3.Ok?
    requires ListSpec(s3, r3.value.1, false, BytesPerIndex(vertexCount)) == (r4, s4) && r4.Err?
    ensures IndicesSpec(s, vertexCount, start) == (Err(r4.error), s4)
  {
  }

  /** Once the first four lists succeed, the north list decides: its error
      fails the block, otherwise the five lists make up the block, which
      ends where the north list ends. */
  lemma IndicesOutcome(s: seq<u8>, vertexCount: nat, start: nat,
                       r1: Result<(seq<nat>, nat)>, s1: seq<u8>, r2: Result<(seq<nat>, nat)>, s2: seq<u8>,
                       r3: Result<(seq<nat>, nat)>, s3: seq<u8>, r4: Result<(seq<nat>, nat)>, s4: seq<u8>,
                       r5: Result<(seq<nat>, nat)>, s5: seq<u8>)
    requires ListSpec(s, AlignedPosition(start, BytesPerIndex(vertexCount)), true, BytesPerIndex(vertexCount)) == (r1, s1) && r1.Ok?
    requires ListSpec(s1, r1.value.1, false, BytesPerIndex(vertexCount)) == (r2, s2) && r2.Ok?
    requires ListSpec(s2, r2.value.1, false, BytesPerIndex(vertexCount)) == (r3, s3) && r3.Ok?
    requires ListSpec(s3, r3.value.1, false, BytesPerIndex(vertexCount)) == (r4, s4) && r4.Ok?
    requires ListSpec(s4, r4.value.1, false, BytesPerIndex(vertexCount)) == (r5, s5)
    ensures IndicesSpec(s, vertexCount, start) ==
      if r5.Err? then (Err(r5.error), s5)
      else (Ok(IndexBlock(r1.value.0, r2.value.0, r3.value.0, r4.value.0, r5.value.0, r5.value.1)), s5)
  {
  }

  /** The padding lands on the next multiple of the width, less than one
      width further; with 16-bit indices an even start needs none. */
  lemma AlignedStart(p: nat, w: nat)
    requires w == 2 || w == 4
    ensures AlignedPosition(p, w) % w == 0
    ensures p <= AlignedPosition(p, w) < p + w
    ensures p % w == 0 ==> AlignedPosition(p, w) == p
  {
  }

  /** 32-bit indices are chosen exactly when the count argument exceeds 65536. */
  lemma IndexWidth(vertexCount: nat)
    ensures BytesPerIndex(vertexCount) == 4 <==> vertexCount > 65536
    ensures BytesPerIndex(vertexCount) == 2 <==> vertexCount <= 65536
  {
  }

  /** A list starting on a multiple of the width never meets a misaligned
      view. */
  lemma ListAligned(s: seq<u8>, p: nat, triangles: bool, w: nat)
    requires (w == 2 || w == 4) && p % w == 0
    ensures ListSpec(s, p, triangles, w).0 != Err(Misaligned)
  {
    if GetUint32(s, p).Ok? {
      MultipleStep(p, 0, w);
      DecodeIndexErrors(s, p + 4, ListLength(GetUint32(s, p).value, triangles), w);
    }
  }

  /** A successful list holds as many indices as its count says (three per
      triangle for the triangle list) and ends 4 + w per index further, again
      on a multiple of the width. */
  lemma ListResult(s: seq<u8>, p: nat, triangles: bool, w: nat, count: nat, indices: seq<nat>, e: nat, t: seq<u8>)
    requires (w == 2 || w == 4) && p % w == 0
    requires GetUint32(s, p) == Ok(count)
    requires ListSpec(s, p, triangles, w) == (Ok((indices, e)), t)
    ensures |indices| == ListLength(count, triangles)
    ensures forall i :: 0 <= i < |indices| ==> indices[i] < Pow256(w)
    ensures e == p + 4 + w * ListLength(count, triangles) && e % w == 0
  {
    var n := ListLength(count, triangles);
    DecodeIndexResult(s, p + 4, n, w, indices, t);
    HighWaterBound(Words(s, p + 4, n, w), w);
    MultipleStep(p, n, w);
  }

  /** A list starting on a multiple of the width is never misaligned, keeps
      the buffer length, and when it succeeds ends inside the buffer on a
      multiple of the width, so the next list is aligned too. */
  lemma ListEnd(s: seq<u8>, p: nat, triangles: bool, w: nat)
    requires (w == 2 || w == 4) && p % w == 0
    ensures ListSpec(s, p, triangles, w).0 != Err(Misaligned)
    ensures |ListSpec(s, p, triangles, w).1| == |s|
    ensures ListSpec(s, p, triangles, w).0.Ok? ==>
      p + 4 <= ListSpec(s, p, triangles, w).0.value.1 <= |s| && ListSpec(s, p, triangles, w).0.value.1 % w == 0
  {
    ListAligned(s, p, triangles, w);
    var (r, t) := ListSpec(s, p, triangles, w);
    if r.Ok? {
      var count := GetUint32(s, p).value;
      ListResult(s, p, triangles, w, count, r.value.0, r.value.1, t);
      DecodeIndexResult(s, p + 4, ListLength(count, triangles), w, r.value.0, t);
    } else if GetUint32(s, p).Ok? {
      DecodeIndexErrors(s, p + 4, ListLength(GetUint32(s, p).value, triangles), w);
    }
  }

  /** `decodeIndices` never meets a misaligned view: the padding aligns the
      first list and every list ends aligned. */
  lemma IndicesAligned(s: seq<u8>, vertexCount: nat, start: nat)
    ensures IndicesSpec(s, vertexCount, start).0 != Err(Misaligned)
  {
    var w := BytesPerIndex(vertexCount);
    var p := AlignedPosition(start, w);
    AlignedStart(start, w);
    ListEnd(s, p, true, w);
    var (tri, s1) := ListSpec(s, p, true, w);
    if tri.Ok? {
      ListEnd(s1, tri.value.1, false, w);
      var (west, s2) := ListSpec(s1, tri.value.1, false, w);
      if west.Ok? {
        ListEnd(s2, west.value.1, false, w);
        var (south, s3) := ListSpec(s2, west.value.1, false, w);
        if south.Ok? {
          ListEnd(s3, south.value.1, false, w);
          var (east, s4) := ListSpec(s3, south.value.1, false, w);
          if east.Ok? {
            ListEnd(s4, east.value.1, false, w);
          }
        }
      }
    }
  }

  /** A successful index block keeps the buffer length and ends inside the
      buffer on a multiple of the width; its triangle list holds three
      indices per triangle of the count at the padded start, each one
      fitting in the index width. */
  lemma IndicesResult(s: seq<u8>, vertexCount: nat, start: nat, block: IndexBlock, t: seq<u8>)
    requires IndicesSpec(s, vertexCount, start) == (Ok(block), t)
    ensures var w := BytesPerIndex(vertexCount);
      var p := AlignedPosition(start, w);
      GetUint32(s, p).Ok? && |block.triangleIndices| == 3 * GetUint32(s, p).value &&
      (forall i :: 0 <= i < |block.triangleIndices| ==> block.triangleIndices[i] < Pow256(w)) &&
      start < block.endPosition <= |s| == |t| && block.endPosition % w == 0
  {
    var w := BytesPerIndex(vertexCount);
    var p := AlignedPosition(start, w);
    AlignedStart(start, w);
    ListEnd(s, p, true, w);
    var (tri, s1) := ListSpec(s, p, true, w);
    var count := GetUint32(s, p).value;
    ListResult(s, p, true, w, count, tri.value.0, tri.value.1, s1);
    ListEnd(s1, tri.value.1, false, w);
    var (west, s2) := ListSpec(s1, tri.value.1, false, w);
    ListEnd(s2, west.value.1, false, w);
    var (south, s3) := ListSpec(s2, west.value.1, false, w);
    ListEnd(s3, south.value.1, false, w);
    var (east, s4) := ListSpec(s3, south.value.1, false, w);
    ListEnd(s4, east.value.1, false, w);
  }

  /** A list leaves every byte before its view alone, whether it succeeds
      or fails. */
  lemma ListFrame(s: seq<u8>, p: nat, triangles: bool, w: nat, j: nat)
    requires (w == 2 || w == 4) && j < p + 4 && j < |s|
    ensures |ListSpec(s, p, triangles, w).1| == |s| && ListSpec(s, p, triangles, w).1[j] == s[j]
  {
    if GetUint32(s, p).Ok? {
      var n := ListLength(GetUint32(s, p).value, triangles);
      var (r, t) := DecodeIndexSpec(s, p + 4, n, w);
      DecodeIndexErrors(s, p + 4, n, w);
      if r.Ok? {
        DecodeIndexResult(s, p + 4, n, w, r.value, t);
        DecodeIndexFrame(s, p + 4, n, w, r.value, t, j);
      }
    }
  }

  /** `decodeIndices` changes no byte before the first list's indices: the
      header, the vertex block, the padding and the triangle count stay as
      they were. */
  lemma IndicesFrame(s: seq<u8>, vertexCount: nat, start: nat, j: nat)
    requires j < AlignedPosition(start, BytesPerIndex(vertexCount)) + 4 && j < |s|
    ensures |IndicesSpec(s, vertexCount, start).1| == |s|
    ensures IndicesSpec(s, vertexCount, start).1[j] == s[j]
  {
    var w := BytesPerIndex(vertexCount);
    var p := AlignedPosition(start, w);
    AlignedStart(start, w);
    ListEnd(s, p, true, w);
    ListFrame(s, p, true, w, j);
    var (tri, s1) := ListSpec(s, p, true, w);
    if tri.Ok? {
      ListEnd(s1, tri.value.1, false, w);
      ListFrame(s1, tri.value.1, false, w, j);
      var (west, s2) := ListSpec(s1, tri.value.1, false, w);
      if west.Ok? {
        ListEnd(s2, west.value.1, false, w);
        ListFrame(s2, west.value.1, false, w, j);
        var (south, s3) := ListSpec(s2, west.value.1, false, w);
        if south.Ok? {
          ListEnd(s3, south.value.1, false, w);
          ListFrame(s3, south.value.1, false, w, j);
          var (east, s4) := ListSpec(s3, south.value.1, false, w);
          if east.Ok? {
            ListEnd(s4, east.value.1, false, w);
            ListFrame(s4, east.value.1, false, w, j);
          }
        }
      }
    }
  }

  /** t agrees with s from offset e on. */
  ghost predicate SameFrom(s: seq<u8>, t: seq<u8>, e: nat)
  {
    |t| == |s| && forall j :: e <= j < |s| ==> t[j] == s[j]
  }

  /** A successful list changes nothing from its end on. */
  lemma ListKeepsAfter(s: seq<u8>, p: nat, triangles: bool, w: nat, indices: seq<nat>, e: nat, t: seq<u8>)
    requires (w == 2 || w == 4) && p % w == 0
    requires ListSpec(s, p, triangles, w) == (Ok((indices, e)), t)
    ensures SameFrom(s, t, e)
  {
    var n := ListLength(GetUint32(s, p).value, triangles);
    ListResult(s, p, triangles, w, GetUint32(s, p).value, indices, e, t);
    DecodeIndexResult(s, p + 4, n, w, indices, t);
    forall j | e <= j < |s|
      ensures t[j] == s[j]
    {
      DecodeIndexFrame(s, p + 4, n, w, indices, t, j);
    }
  }

  lemma SameFromUint32(s: seq<u8>, t: seq<u8>, e: nat, q: nat)
    requires SameFrom(s, t, e) && e <= q
    ensures GetUint32(t, q) == GetUint32(s, q)
  {
    if q + 4 <= |s| {
      assert t[q] == s[q] && t[q + 1] == s[q + 1] && t[q + 2] == s[q + 2] && t[q + 3] == s[q + 3];
    }
  }

  /** One edge list over a buffer that agrees with the original from its
      start on: its length is the count read from the original buffer, it
      ends 4 + w per index further, aligned, and the buffer after it still
      agrees with the original from that end on. */
  lemma EdgeStep(s: seq<u8>, sk: seq<u8>, p: nat, w: nat, indices: seq<nat>, e: nat, t: seq<u8>)
    requires (w == 2 || w == 4) && p % w == 0 && SameFrom(s, sk, p)
    requires ListSpec(sk, p, false, w) == (Ok((indices, e)), t)
    ensures GetUint32(s, p) == Ok(|indices|)
    ensures e == p + 4 + w * |indices| && e % w == 0 && SameFrom(s, t, e)
  {
    SameFromUint32(s, sk, p, p);
    ListResult(sk, p, false, w, GetUint32(sk, p).value, indices, e, t);
    ListKeepsAfter(sk, p, false, w, indices, e, t);
  }

  /** The layout of a successful index block: the triangle list holds three
      indices per triangle of the count at the padded start, each edge list
      as many indices as the 32-bit count in front of it, every count being
      read from the buffer as it was before decoding, and the block ends
      4 + w * (list length) after each list start, summed over the five
      lists. */
  lemma IndicesCounts(s: seq<u8>, vertexCount: nat, start: nat, block: IndexBlock, t: seq<u8>)
    returns (e1: nat, e2: nat, e3: nat, e4: nat)
    requires IndicesSpec(s, vertexCount, start) == (Ok(block), t)
    ensures var w := BytesPerIndex(vertexCount);
      GetUint32(s, AlignedPosition(start, w)).Ok? &&
      |block.triangleIndices| == 3 * GetUint32(s, AlignedPosition(start, w)).value &&
      e1 == AlignedPosition(start, w) + 4 + w * |block.triangleIndices| &&
      GetUint32(s, e1) == Ok(|block.westIndices|) && e2 == e1 + 4 + w * |block.westIndices| &&
      GetUint32(s, e2) == Ok(|block.southIndices|) && e3 == e2 + 4 + w * |block.southIndices| &&
      GetUint32(s, e3) == Ok(|block.eastIndices|) && e4 == e3 + 4 + w * |block.eastIndices| &&
      GetUint32(s, e4) == Ok(|block.northIndices|) && block.endPosition == e4 + 4 + w * |block.northIndices|
  {
    var s1, s2, s3, s4;
    s1, s2, s3, s4, e1, e2, e3, e4 := IndicesStages(s, vertexCount, start, block, t);
    ListCounts(s, BytesPerIndex(vertexCount), start, block, s1, s2, s3, s4, e1, e2, e3, e4, t);
  }

  lemma ListCounts(s: seq<u8>, w: nat, start: nat, block: IndexBlock,
                   s1: seq<u8>, s2: seq<u8>, s3: seq<u8>, s4: seq<u8>, e1: nat, e2: nat, e3: nat, e4: nat, t: seq<u8>)
    requires w == 2 || w == 4
    requires ListSpec(s, AlignedPosition(start, w), true, w) == (Ok((block.triangleIndices, e1)), s1)
    requires ListSpec(s1, e1, false, w) == (Ok((block.westIndices, e2)), s2)
    requires ListSpec(s2, e2, false, w) == (Ok((block.southIndices, e3)), s3)
    requires ListSpec(s3, e3, false, w) == (Ok((block.eastIndices, e4)), s4)
    requires ListSpec(s4, e4, false, w) == (Ok((block.northIndices, block.endPosition)), t)
    ensures GetUint32(s, AlignedPosition(start, w)).Ok?
    ensures |block.triangleIndices| == 3 * GetUint32(s, AlignedPosition(start, w)).value
    ensures e1 == AlignedPosition(start, w) + 4 + w * |block.triangleIndices|
    ensures GetUint32(s, e1) == Ok(|block.westIndices|) && e2 == e1 + 4 + w * |block.westIndices|
    ensures GetUint32(s, e2) == Ok(|block.southIndices|) && e3 == e2 + 4 + w * |block.southIndices|
    ensures GetUint32(s, e3) == Ok(|block.eastIndices|) && e4 == e3 + 4 + w * |block.eastIndices|
    ensures GetUint32(s, e4) == Ok(|block.northIndices|) && block.endPosition == e4 + 4 + w * |block.northIndices|
  {
    var p := AlignedPosition(start, w);
    AlignedStart(start, w);
    ListResult(s, p, true, w, GetUint32(s, p).value, block.triangleIndices, e1, s1);
    ListKeepsAfter(s, p, true, w, block.triangleIndices, e1, s1);
    EdgeStep(s, s1, e1, w, block.westIndices, e2, s2);
    EdgeStep(s, s2, e2, w, block.southIndices, e3, s3);
    EdgeStep(s, s3, e3, w, block.eastIndices, e4, s4);
    EdgeStep(s, s4, e4, w, block.northIndices, block.endPosition, t);
  }

  /** The five list results a successful index block is assembled from. */
  lemma IndicesStages(s: seq<u8>, vertexCount: nat, start: nat, block: IndexBlock, t: seq<u8>)
    returns (s1: seq<u8>, s2: seq<u8>, s3: seq<u8>, s4: seq<u8>, e1: nat, e2: nat, e3: nat, e4: nat)
    requires IndicesSpec(s, vertexCount, start) == (Ok(block), t)
    ensures var w := BytesPerIndex(vertexCount);
      ListSpec(s, AlignedPosition(start, w), true, w) == (Ok((block.triangleIndices, e1)), s1) &&
      ListSpec(s1, e1, false, w) == (Ok((block.westIndices, e2)), s2) &&
      ListSpec(s2, e2, false, w) == (Ok((block.southIndices, e3)), s3) &&
      ListSpec(s3, e3, false, w) == (Ok((block.eastIndices, e4)), s4) &&
      ListSpec(s4, e4, false, w) == (Ok((block.northIndices, block.endPosition)), t)
  {
    var w := BytesPerIndex(vertexCount);
    var r1, r2, r3, r4: Result<(seq<nat>, nat)>;
    r1, s1 := ListSpec(s, AlignedPosition(start, w), true, w).0, ListSpec(s, AlignedPosition(start, w), true, w).1;
    e1 := r1.value.1;
    r2, s2 := ListSpec(s1, e1, false, w).0, ListSpec(s1, e1, false, w).1;
    e2 := r2.value.1;
    r3, s3 := ListSpec(s2, e2, false, w).0, ListSpec(s2, e2, false, w).1;
    e3 := r3.value.1;
    r4, s4 := ListSpec(s3, e3, false, w).0, ListSpec(s3, e3, false, w).1;
    e4 := r4.value.1;
  }

  lemma MultipleStep(p: nat, n: nat, w: nat)
    requires (w == 2 || w == 4) && p % w == 0
    ensures (p + 4 + n * w) % w == 0 && n * w == w * n
  {
    if w == 2 {
      EvenStep(p, n);
    } else {
      QuadStep(p, n);
    }
  }

  lemma EvenStep(p: nat, n: nat)
    requires p % 2 == 0
    ensures (p + 4 + n * 2) % 2 == 0
  {
  }

  lemma QuadStep(p: nat, n: nat)
    requires p % 4 == 0
    ensures (p + 4 + n * 4) % 4 == 0
  {
  }
}
