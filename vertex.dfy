/** The vertex block (index.js `decodeVertexData`): a 32-bit vertex count n,
    then three channels of n zigzag-coded 16-bit deltas (u, v, height), decoded
    by prefix sums into one Uint16Array laid out [u...][v...][height...]. */
module VertexData {
  import opened Bytes
  import opened ZigZag

  datatype VertexBlock = VertexBlock(vertexData: seq<u16>, endPosition: nat)

  /** The n 16-bit code words of one channel starting at `base`. */
  function Codes(s: seq<u8>, base: nat, n: nat): (c: seq<u16>)
    requires n == 0 || base + 2 * n <= |s|
    ensures |c| == n
  {
    if n == 0 then [] else Codes(s, base, n - 1) + [GetUint16(s, base + 2 * (n - 1)).value]
  }

  /** The running sum of the decoded deltas of a code sequence. */
  function DeltaSum(c: seq<u16>): int
  {
    if c == [] then 0 else DeltaSum(c[..|c| - 1]) + DecodeZigZag(c[|c| - 1])
  }

  /** Delta decoding of one channel: entry i is the prefix sum of the first
      i+1 deltas, stored modulo 2^16. */
  function DeltaDecode(c: seq<u16>): (r: seq<u16>)
    ensures |r| == |c|
  {
    if c == [] then [] else DeltaDecode(c[..|c| - 1]) + [Wrap16(DeltaSum(c))]
  }

  /** What `decodeVertexData(view, start)` returns, or the RangeError of its
      first read past the buffer end. */
  function VertexSpec(s: seq<u8>, start: nat): Result<VertexBlock>
  {
    match GetUint32(s, start)
    case Err(e) => Err(e)
    case Ok(n) =>
      var uStart := start + 4;
      var vStart := uStart + 2 * n;
      var heightStart := vStart + 2 * n;
      if heightStart + 2 * n > |s| then Err(OutOfBounds)
      else Ok(VertexBlock(
        DeltaDecode(Codes(s, uStart, n)) + DeltaDecode(Codes(s, vStart, n)) + DeltaDecode(Codes(s, heightStart, n)),
        heightStart + 2 * n))
  }

  lemma {:induction false} DeltaSnoc(c: seq<u16>, x: u16)
    ensures DeltaSum(c + [x]) == DeltaSum(c) + DecodeZigZag(x)
    ensures DeltaDecode(c + [x]) == DeltaDecode(c) + [Wrap16(DeltaSum(c + [x]))]
  {
    assert (c + [x])[..|c|] == c;
  }

  /** Entry i of a decoded channel is the sum of the first i+1 decoded
      deltas, modulo 2^16. */
  lemma {:induction false} DeltaDecodeAt(c: seq<u16>, i: nat)
    requires i < |c|
    ensures DeltaDecode(c)[i] == Wrap16(DeltaSum(c[..i + 1]))
  {
    if i < |c| - 1 {
      DeltaDecodeAt(c[..|c| - 1], i);
      assert c[..|c| - 1][..i + 1] == c[..i + 1];
    } else {
      assert c[..i + 1] == c;
    }
  }

  /** The layout of a decoded vertex block: channels at start+4, start+4+2n
      and start+4+4n, the block ending at start+4+6n, and entries i, i+n and
      i+2n holding the prefix sums of the u, v and height deltas. */
  lemma VertexLayout(s: seq<u8>, start: nat, n: nat, block: VertexBlock, i: nat)
    requires GetUint32(s, start) == Ok(n) && VertexSpec(s, start) == Ok(block)
    ensures |block.vertexData| == 3 * n && block.endPosition == start + 4 + 6 * n <= |s|
    ensures i < n ==> block.vertexData[i] == Wrap16(DeltaSum(Codes(s, start + 4, n)[..i + 1]))
    ensures i < n ==> block.vertexData[i + n] == Wrap16(DeltaSum(Codes(s, start + 4 + 2 * n, n)[..i + 1]))
    ensures i < n ==> block.vertexData[i + 2 * n] == Wrap16(DeltaSum(Codes(s, start + 4 + 4 * n, n)[..i + 1]))
  {
    var cu, cv, ch := Codes(s, start + 4, n), Codes(s, start + 4 + 2 * n, n), Codes(s, start + 4 + 4 * n, n);
    assert block.vertexData == DeltaDecode(cu) + DeltaDecode(cv) + DeltaDecode(ch);
    if i < n {
      DeltaDecodeAt(cu, i);
      DeltaDecodeAt(cv, i);
      DeltaDecodeAt(ch, i);
      ConcatAt(DeltaDecode(cu), DeltaDecode(cv), DeltaDecode(ch), n, i);
    }
  }

  lemma ConcatAt(a: seq<u16>, b: seq<u16>, c: seq<u16>, n: nat, i: nat)
    requires |a| == |b| == |c| == n && i < n
    ensures (a + b + c)[i] == a[i] && (a + b + c)[i + n] == b[i] && (a + b + c)[i + 2 * n] == c[i]
  {
  }

  /** The block the sample tile's vertex section decodes to: with 189
      vertices right after the 88-byte header, the u, v and height channels
      are read from 92, 470 and 848 (the first entry of each segment is the
      first code there, decoded) and the block ends at 1226. */
  lemma SampleTileOffsets(s: seq<u8>)
    requires GetUint32(s, 88) == Ok(189) && VertexSpec(s, 88).Ok?
    ensures VertexSpec(s, 88).value.endPosition == 1226
    ensures |VertexSpec(s, 88).value.vertexData| == 567
    ensures VertexSpec(s, 88).value.vertexData[0] == Wrap16(DecodeZigZag(GetUint16(s, 92).value))
    ensures VertexSpec(s, 88).value.vertexData[189] == Wrap16(DecodeZigZag(GetUint16(s, 470).value))
    ensures VertexSpec(s, 88).value.vertexData[378] == Wrap16(DecodeZigZag(GetUint16(s, 848).value))
  {
    var block := VertexSpec(s, 88).value;
    VertexLayout(s, 88, 189, block, 0);
    FirstCode(s, 92, 189);
    FirstCode(s, 470, 189);
    FirstCode(s, 848, 189);
  }

  /** The sum of a channel's first decoded delta is that delta. */
  lemma FirstCode(s: seq<u8>, base: nat, n: nat)
    requires 0 < n && base + 2 * n <= |s|
    ensures DeltaSum(Codes(s, base, n)[..1]) == DecodeZigZag(GetUint16(s, base).value)
  {
    CodesAt(s, base, n, 0);
    var c := Codes(s, base, n)[..1];
    assert c[..0] == [];
  }

  /** Code i of a channel is the 16-bit word at base + 2i. */
  lemma {:induction false} CodesAt(s: seq<u8>, base: nat, n: nat, i: nat)
    requires i < n && base + 2 * n <= |s|
    ensures Codes(s, base, n)[i] == GetUint16(s, base + 2 * i).value
  {
    if i < n - 1 {
      CodesAt(s, base, n - 1, i);
    }
  }

  /** A delta in [-32768, 32767] congruent to x modulo 2^16: the step an
      encoder takes between two stored values. */
  function Centered(x: int): (r: int)
    ensures -0x8000 <= r < 0x8000 && (r - x) % 0x1_0000 == 0
  {
    (x + 0x8000) % 0x1_0000 - 0x8000
  }

  /** The last value of a channel, or 0, the accumulators' start, when it is empty. */
  function LastOr0(vals: seq<u16>): u16
  {
    if vals == [] then 0 else vals[|vals| - 1]
  }

  /** The encoder of one channel: each value becomes the ZigZag code of its
      difference from the previous value, taken modulo 2^16. */
  function DeltaEncode(vals: seq<u16>): (c: seq<u16>)
    ensures |c| == |vals|
  {
    if vals == [] then []
    else
      var prev := vals[..|vals| - 1];
      DeltaEncode(prev) + [EncodeZigZag(Centered(vals[|vals| - 1] - LastOr0(prev)))]
  }

  /** Delta decoding undoes delta encoding for every channel of 16-bit values,
      whatever the wrap-around between consecutive values. */
  lemma {:induction false} DeltaRoundTrip(vals: seq<u16>)
    ensures Wrap16(DeltaSum(DeltaEncode(vals))) == LastOr0(vals)
    ensures DeltaDecode(DeltaEncode(vals)) == vals
  {
    if vals != [] {
      var prev, x := vals[..|vals| - 1], vals[|vals| - 1];
      LastSplit(vals);
      DeltaRoundTrip(prev);
      DeltaRoundTripStep(prev, x);
    }
  }

  /** Appending a value keeps the round trip. */
  lemma DeltaRoundTripStep(prev: seq<u16>, x: u16)
    requires Wrap16(DeltaSum(DeltaEncode(prev))) == LastOr0(prev)
    requires DeltaDecode(DeltaEncode(prev)) == prev
    ensures Wrap16(DeltaSum(DeltaEncode(prev + [x]))) == LastOr0(prev + [x])
    ensures DeltaDecode(DeltaEncode(prev + [x])) == prev + [x]
  {
    var d := Centered(x - LastOr0(prev));
    var e, c := DeltaEncode(prev), EncodeZigZag(d);
    assert (prev + [x])[..|prev|] == prev;
    assert DeltaEncode(prev + [x]) == e + [c];
    DecodeEncode(d);
    DeltaSnoc(e, c);
    WrapStep(DeltaSum(e), LastOr0(prev), x, d);
    assert Wrap16(DeltaSum(e + [c])) == x;
    assert LastOr0(prev + [x]) == x;
  }

  lemma WrapStep(sum: int, p: u16, x: u16, d: int)
    requires Wrap16(sum) == p && (d - (x - p)) % 0x1_0000 == 0
    ensures Wrap16(sum + d) == x
  {
    var k := sum / 0x1_0000;
    var m := (d - (x - p)) / 0x1_0000;
    assert sum == 0x1_0000 * k + p;
    assert d == 0x1_0000 * m + x - p;
    assert sum + d == 0x1_0000 * (k + m) + x;
  }

  /** `decodeVertexData`: reads the count, allocates a Uint16Array of 3n
      entries, runs the decoding loop over the three channels and returns the
      array with the position after the last channel. */
  method DecodeVertexData(buf: array<u8>, start: nat) returns (r: Result<VertexBlock>)
    ensures r == VertexSpec(buf[..], start)
  {
    var position := start;
    var count := GetUint32(buf[..], position);
    if count.Err? { return Err(count.error); }
    var vertexCount := count.value;
    var vertexData := new u16[3 * vertexCount](_ => 0);
    position := position + 4;

    var elementArrayLength := 2 * vertexCount;
    var uStart := position;
    var vStart := uStart + elementArrayLength;
    var heightStart := vStart + elementArrayLength;

    var ok, u, v, height := DecodeChannels(buf, vertexData, vertexCount, uStart, vStart, heightStart);
    if !ok {
      ChannelTooShort(buf[..], start, vertexCount);
      return Err(OutOfBounds);
    }
    position := position + elementArrayLength * 3;
    VertexComplete(buf[..], start, vertexCount, uStart, vStart, heightStart, vertexData[..], u, v, height, position);
    return Ok(VertexBlock(vertexData[..], position));
  }

  /** The loop of `decodeVertexData` over the vertices. It stops at the first
      read past the buffer end, which happens exactly when the three channels
      do not fit. */
  method DecodeChannels(buf: array<u8>, vertexData: array<u16>, vertexCount: nat,
                        uStart: nat, vStart: nat, heightStart: nat)
    returns (ok: bool, u: int, v: int, height: int)
    requires vertexData.Length == 3 * vertexCount
    requires vStart == uStart + 2 * vertexCount && heightStart == vStart + 2 * vertexCount
    modifies vertexData
    ensures !ok ==> 0 < vertexCount && buf.Length < heightStart + 2 * vertexCount
    ensures ok ==> heightStart + 2 * vertexCount <= buf.Length || vertexCount == 0
    ensures ok ==> VerticesDecoded(buf[..], uStart, vStart, heightStart, vertexCount, vertexCount, u, v, height, vertexData[..])
  {
    ghost var s := buf[..];
    u, v, height := 0, 0, 0;
    for i := 0 to vertexCount
      invariant VerticesDecoded(s, uStart, vStart, heightStart, vertexCount, i, u, v, height, vertexData[..])
    {
      ok, u, v, height := DecodeVertex(buf, s, vertexData, vertexCount, uStart, vStart, heightStart, i, u, v, height);
      if !ok { return; }
    }
    return true, u, v, height;
  }

  /** One iteration of the vertex loop: reads code i of each channel, adds its
      decoded delta to the running u, v, height and stores the sums at entries
      i, i+n and i+2n, leaving every other entry alone; fails when a read
      runs past the buffer end, leaving the array as it was. */
  method DecodeVertex(buf: array<u8>, ghost s: seq<u8>, vertexData: array<u16>, vertexCount: nat,
                      uStart: nat, vStart: nat, heightStart: nat,
                      i: nat, u: int, v: int, height: int)
    returns (ok: bool, u': int, v': int, height': int)
    requires buf[..] == s
    requires uStart <= vStart <= heightStart && i < vertexCount
    requires VerticesDecoded(s, uStart, vStart, heightStart, vertexCount, i, u, v, height, vertexData[..])
    modifies vertexData
    ensures !ok ==> |s| < heightStart + 2 * (i + 1)
    ensures !ok ==> vertexData[..] == old(vertexData[..])
    ensures ok ==> VerticesDecoded(s, uStart, vStart, heightStart, vertexCount, i + 1, u', v', height', vertexData[..])
    ensures ok ==> forall k :: 0 <= k < vertexData.Length && k != i && k != i + vertexCount && k != i + 2 * vertexCount ==>
      vertexData[k] == old(vertexData[k])
  {
    var codes := ReadCodes(buf, uStart, vStart, heightStart, i);
    if codes.Err? { return false, u, v, height; }
    var (du, dv, dh) := codes.value;
    ghost var data: seq<u16> := vertexData[..];
    u' := u + DecodeZigZag(du);
    v' := v + DecodeZigZag(dv);
    height' := height + DecodeZigZag(dh);
    StoreVertex(vertexData, vertexCount, i, Wrap16(u'), Wrap16(v'), Wrap16(height'));
    VertexStep(s, uStart, vStart, heightStart, vertexCount, i, i + 1, u, v, height, data, du, dv, dh,
               u', v', height', vertexData[..]);
    return true, u', v', height';
  }

  /** The three stores of iteration i (`vertexData[i] = u` and so on): only
      entries i, i+n and i+2n change. */
  method StoreVertex(vertexData: array<u16>, n: nat, i: nat, x: u16, y: u16, z: u16)
    requires vertexData.Length == 3 * n && i < n
    modifies vertexData
    ensures vertexData[..] == old(vertexData[..])[i := x][i + n := y][i + n * 2 := z]
    ensures forall k :: 0 <= k < vertexData.Length && k != i && k != i + n && k != i + 2 * n ==>
      vertexData[k] == old(vertexData[k])
  {
    vertexData[i] := x;
    vertexData[i + n] := y;
    vertexData[i + n * 2] := z;
  }

  /** The three reads of iteration i (`getUint16` at the u, v and height
      positions); they all succeed exactly when the height read fits. */
  method ReadCodes(buf: array<u8>, uStart: nat, vStart: nat, heightStart: nat, i: nat)
    returns (r: Result<(u16, u16, u16)>)
    requires uStart <= vStart <= heightStart
    ensures r.Ok? <==> heightStart + 2 * (i + 1) <= buf.Length
    ensures r.Err? ==> r.error == OutOfBounds
    ensures r.Ok? ==> r.value == (GetUint16(buf[..], uStart + 2 * i).value,
                                  GetUint16(buf[..], vStart + 2 * i).value,
                                  GetUint16(buf[..], heightStart + 2 * i).value)
  {
    var du := GetUint16(buf[..], uStart + 2 * i);
    if du.Err? { return Err(du.error); }
    var dv := GetUint16(buf[..], vStart + 2 * i);
    if dv.Err? { return Err(dv.error); }
    var dh := GetUint16(buf[..], heightStart + 2 * i);
    if dh.Err? { return Err(dh.error); }
    return Ok((du.value, dv.value, dh.value));
  }

  /** After i iterations over the channel at `base`: the running sum is the
      sum of the first i decoded deltas and the stored segment their decoding. */
  ghost predicate ChannelDecoded(s: seq<u8>, base: nat, i: nat, acc: int, segment: seq<u16>)
  {
    (i == 0 || base + 2 * i <= |s|) &&
    acc == DeltaSum(Codes(s, base, i)) &&
    segment == DeltaDecode(Codes(s, base, i))
  }

  /** The state of the vertex loop after i iterations: each channel's running
      sum and the first i entries of its segment of `data` are decoded. */
  ghost predicate VerticesDecoded(s: seq<u8>, uStart: nat, vStart: nat, heightStart: nat, n: nat,
                                  i: nat, u: int, v: int, height: int, data: seq<u16>)
  {
    |data| == 3 * n && i <= n &&
    ChannelDecoded(s, uStart, i, u, data[..i]) &&
    ChannelDecoded(s, vStart, i, v, data[n..n + i]) &&
    ChannelDecoded(s, heightStart, i, height, data[2 * n..2 * n + i])
  }

  /** One more code read extends the running sum by its decoded delta and the
      segment by the wrapped sum. */
  lemma ChannelStep(s: seq<u8>, base: nat, i: nat, acc: int, segment: seq<u16>, code: u16)
    requires ChannelDecoded(s, base, i, acc, segment)
    requires base + 2 * (i + 1) <= |s| && code == GetUint16(s, base + 2 * i).value
    ensures ChannelDecoded(s, base, i + 1, acc + DecodeZigZag(code), segment + [Wrap16(acc + DecodeZigZag(code))])
  {
    var c := Codes(s, base, i);
    assert Codes(s, base, i + 1) == c + [code];
    DeltaSnoc(c, code);
  }

  /** The three stores of iteration i extend each of the three segments of
      the 3n-entry array by one entry and leave their earlier entries alone. */
  lemma StoreStep(data: seq<u16>, n: nat, i: nat, x: u16, y: u16, z: u16)
    requires |data| == 3 * n && i < n
    ensures data[i := x][i + n := y][i + n * 2 := z][..i + 1] == data[..i] + [x]
    ensures data[i := x][i + n := y][i + n * 2 := z][n..n + i + 1] == data[n..n + i] + [y]
    ensures data[i := x][i + n := y][i + n * 2 := z][2 * n..2 * n + i + 1] == data[2 * n..2 * n + i] + [z]
  {
    var data' := data[i := x][i + n := y][i + n * 2 := z];
    assert data'[..i + 1] == data[..i] + [x];
    assert data'[n..n + i + 1] == data[n..n + i] + [y];
    assert data'[2 * n..2 * n + i + 1] == data[2 * n..2 * n + i] + [z];
  }

  /** One iteration of the vertex loop keeps its invariant: the three reads
      extend the sums and the three stores extend the segments. */
  lemma VertexStep(s: seq<u8>, uStart: nat, vStart: nat, heightStart: nat, n: nat, i: nat, j: nat,
                   u: int, v: int, height: int, data: seq<u16>, du: u16, dv: u16, dh: u16,
                   u': int, v': int, height': int, data': seq<u16>)
    requires VerticesDecoded(s, uStart, vStart, heightStart, n, i, u, v, height, data) && i < n && j == i + 1
    requires uStart <= vStart <= heightStart && heightStart + 2 * j <= |s|
    requires du == GetUint16(s, uStart + 2 * i).value
    requires dv == GetUint16(s, vStart + 2 * i).value
    requires dh == GetUint16(s, heightStart + 2 * i).value
    requires u' == u + DecodeZigZag(du) && v' == v + DecodeZigZag(dv) && height' == height + DecodeZigZag(dh)
    requires data' == data[i := Wrap16(u')][i + n := Wrap16(v')][i + n * 2 := Wrap16(height')]
    ensures VerticesDecoded(s, uStart, vStart, heightStart, n, j, u', v', height', data')
  {
    StoreStep(data, n, i, Wrap16(u'), Wrap16(v'), Wrap16(height'));
    ChannelStep(s, uStart, i, u, data[..i], du);
    ChannelStep(s, vStart, i, v, data[n..n + i], dv);
    ChannelStep(s, heightStart, i, height, data[2 * n..2 * n + i], dh);
  }

  /** A failing code read means the three channels do not fit in the buffer. */
  lemma ChannelTooShort(s: seq<u8>, start: nat, n: nat)
    requires GetUint32(s, start) == Ok(n)
    requires |s| < start + 4 + 6 * n
    ensures VertexSpec(s, start) == Err(OutOfBounds)
  {
  }

  /** The loop's final state is the block VertexSpec describes. */
  lemma VertexComplete(s: seq<u8>, start: nat, n: nat, uStart: nat, vStart: nat, heightStart: nat,
                       data: seq<u16>, u: int, v: int, height: int, end: nat)
    requires GetUint32(s, start) == Ok(n)
    requires uStart == start + 4 && vStart == uStart + 2 * n && heightStart == vStart + 2 * n
    requires end == heightStart + 2 * n
    requires VerticesDecoded(s, uStart, vStart, heightStart, n, n, u, v, height, data)
    ensures VertexSpec(s, start) == Ok(VertexBlock(data, end))
  {
    ThreeSegments(data, n, DeltaDecode(Codes(s, uStart, n)), DeltaDecode(Codes(s, vStart, n)), DeltaDecode(Codes(s, heightStart, n)));
  }

  lemma ThreeSegments(data: seq<u16>, n: nat, a: seq<u16>, b: seq<u16>, c: seq<u16>)
    requires |data| == 3 * n
    requires data[..n] == a && data[n..n + n] == b && data[2 * n..2 * n + n] == c
    ensures data == a + b + c
  {
    assert data == data[..n] + data[n..n + n] + data[2 * n..2 * n + n];
  }
}
