/** Little-endian byte access over the tile buffer: the DataView reads
    (getUint8, getUint16, getUint32, getFloat32, getFloat64) and the
    RangeErrors they raise when a read runs past the end of the buffer. */
module Bytes {

  type u8 = x: int | 0 <= x < 0x100
  type u16 = x: int | 0 <= x < 0x1_0000

  /** The two ways a typed view over the buffer fails (both are RangeErrors). */
  datatype DecodeError =
    | OutOfBounds   // a read, a typed-array view or a DataView reaching past the buffer end
    | Misaligned    // a typed-array view whose byte offset is not a multiple of its element size

  datatype Option<+T> = None | Some(value: T)

  datatype Result<+T> = Ok(value: T) | Err(error: DecodeError) {
    predicate IsFailure() { Err? }
    function PropagateFailure<U>(): Result<U> requires Err? { Err(error) }
    function Extract(): T requires Ok? { value }
  }

  /** A non-empty sequence is its prefix followed by its last element. */
  lemma LastSplit<T>(s: seq<T>)
    requires |s| > 0
    ensures s[..|s| - 1] + [s[|s| - 1]] == s
  {
  }

  /** 256 to the power w: one more than the largest w-byte unsigned value. */
  function Pow256(w: nat): (r: nat)
    ensures r > 0
  {
    if w == 0 then 1 else 0x100 * Pow256(w - 1)
  }

  lemma Pow256Widths()
    ensures Pow256(1) == 0x100 && Pow256(2) == 0x1_0000 && Pow256(4) == 0x1_0000_0000
  {
    assert Pow256(2) == 0x100 * Pow256(1);
    assert Pow256(4) == 0x100 * Pow256(3);
  }

  /** Assignment into a Uint16Array element: the value modulo 2^16. */
  function Wrap16(x: int): u16
  {
    x % 0x1_0000
  }

  /** The w-byte little-endian encoding of x modulo 256^w (what a typed array
      stores when it is assigned x). */
  function LittleEndian(x: nat, w: nat): (r: seq<u8>)
    ensures |r| == w
  {
    if w == 0 then [] else [x % 0x100] + LittleEndian(x / 0x100, w - 1)
  }

  /** The low byte and the remaining high part of a + 256 b. */
  lemma ByteDivMod(a: u8, b: nat)
    ensures (a + 0x100 * b) % 0x100 == a && (a + 0x100 * b) / 0x100 == b
  {
  }

  /** `DataView.getUint8(p)`: the byte at offset p, or a RangeError past the end. */
  function GetUint8(s: seq<u8>, p: nat): (r: Result<u8>)
    ensures r.Ok? <==> p < |s|
    ensures r.Ok? ==> r.value == s[p]
  {
    if p < |s| then Ok(s[p]) else Err(OutOfBounds)
  }

  /** `DataView.getUint16(p, true)`: the little-endian 16-bit value at offset
      p, or a RangeError when the read runs past the end. */
  function GetUint16(s: seq<u8>, p: nat): (r: Result<u16>)
    ensures r.Ok? <==> p + 2 <= |s|
    ensures r.Ok? ==> r.value == s[p] as int + 0x100 * (s[p + 1] as int)
  {
    if p + 2 <= |s| then Ok(s[p] as int + 0x100 * (s[p + 1] as int)) else Err(OutOfBounds)
  }

  /** `DataView.getUint32(p, true)`: the little-endian 32-bit value at offset
      p, or a RangeError when the read runs past the end. */
  function GetUint32(s: seq<u8>, p: nat): (r: Result<nat>)
    ensures r.Ok? <==> p + 4 <= |s|
    ensures r.Ok? ==> r.value < 0x1_0000_0000
    ensures r.Ok? ==> r.value == s[p] as int + 0x100 * (s[p + 1] as int) + 0x1_0000 * (s[p + 2] as int) + 0x100_0000 * (s[p + 3] as int)
  {
    if p + 4 <= |s| then Ok(s[p] as int + 0x100 * (s[p + 1] as int) + 0x1_0000 * (s[p + 2] as int) + 0x100_0000 * (s[p + 3] as int))
    else Err(OutOfBounds)
  }

  /** The unsigned value of the w-byte little-endian word at offset p. */
  function Word(s: seq<u8>, p: nat, w: nat): (r: nat)
    requires p + w <= |s|
    decreases w
  {
    if w == 0 then 0 else s[p] + 0x100 * Word(s, p + 1, w - 1)
  }

  lemma {:induction false} WordBound(s: seq<u8>, p: nat, w: nat)
    requires p + w <= |s|
    ensures Word(s, p, w) < Pow256(w)
    decreases w
  {
    if w > 0 {
      WordBound(s, p + 1, w - 1);
    }
  }

  /** A word depends only on its own w bytes. */
  lemma {:induction false} WordAgree(s: seq<u8>, t: seq<u8>, p: nat, w: nat)
    requires p + w <= |s| && p + w <= |t|
    requires forall j :: p <= j < p + w ==> s[j] == t[j]
    ensures Word(s, p, w) == Word(t, p, w)
    decreases w
  {
    if w > 0 {
      WordAgree(s, t, p + 1, w - 1);
    }
  }

  /** A word is the number whose w-byte little-endian encoding is its bytes. */
  lemma {:induction false} WordEncoding(s: seq<u8>, p: nat, w: nat)
    requires p + w <= |s|
    ensures LittleEndian(Word(s, p, w), w) == s[p..p + w]
    decreases w
  {
    if w > 0 {
      WordEncoding(s, p + 1, w - 1);
      ByteDivMod(s[p], Word(s, p + 1, w - 1));
      assert s[p..p + w] == [s[p]] + s[p + 1..p + w];
    }
  }

  /** `getUint16` reads the 2-byte little-endian word. */
  lemma Uint16Word(s: seq<u8>, p: nat)
    requires p + 2 <= |s|
    ensures GetUint16(s, p) == Ok(Word(s, p, 2))
  {
    assert Word(s, p + 1, 1) == s[p + 1];
  }

  /** `getUint32` reads the 4-byte little-endian word. */
  lemma Uint32Word(s: seq<u8>, p: nat)
    requires p + 4 <= |s|
    ensures GetUint32(s, p) == Ok(Word(s, p, 4))
  {
    assert Word(s, p + 3, 1) == s[p + 3];
  }

  /** Bytes holding the w-byte little-endian encoding of x read back as x. */
  lemma {:induction false} WordOfLittleEndian(s: seq<u8>, p: nat, x: nat, w: nat)
    requires p + w <= |s| && x < Pow256(w)
    requires s[p..p + w] == LittleEndian(x, w)
    ensures Word(s, p, w) == x
    decreases w
  {
    if w > 0 {
      assert s[p] == s[p..p + w][0];
      assert s[p + 1..p + w] == s[p..p + w][1..];
      WordOfLittleEndian(s, p + 1, x / 0x100, w - 1);
    }
  }

  /** `getFloat32`/`getFloat64`: the IEEE-754 value is left uninterpreted; the
      model keeps the raw bytes it is decoded from. */
  function GetFloatBits(s: seq<u8>, p: nat, w: nat): (r: Result<seq<u8>>)
    ensures r.Ok? <==> p + w <= |s|
    ensures r.Ok? ==> |r.value| == w && forall i :: 0 <= i < w ==> r.value[i] == s[p + i]
  {
    if p + w <= |s| then Ok(s[p..p + w]) else Err(OutOfBounds)
  }

  /** The buffer after a typed-array element at offset p is assigned x:
      its w bytes become the little-endian bytes of x modulo 256^w, lowest
      byte first. */
  function Put(s: seq<u8>, p: nat, x: nat, w: nat): (r: seq<u8>)
    requires p + w <= |s|
    ensures |r| == |s|
    decreases w
  {
    if w == 0 then s else Put(s[p := x % 0x100], p + 1, x / 0x100, w - 1)
  }

  /** Every byte outside the assigned element stays. */
  lemma {:induction false} PutFrame(s: seq<u8>, p: nat, x: nat, w: nat, j: nat)
    requires p + w <= |s| && j < |s| && (j < p || p + w <= j)
    ensures Put(s, p, x, w)[j] == s[j]
    decreases w
  {
    if w > 0 {
      PutFrame(s[p := x % 0x100], p + 1, x / 0x100, w - 1, j);
    }
  }

  /** The assigned element reads back as x when x fits in w bytes. */
  lemma {:induction false} PutWord(s: seq<u8>, p: nat, x: nat, w: nat)
    requires p + w <= |s| && x < Pow256(w)
    ensures Word(Put(s, p, x, w), p, w) == x
    decreases w
  {
    if w > 0 {
      var s' := s[p := x % 0x100];
      PutWord(s', p + 1, x / 0x100, w - 1);
      PutFrame(s', p + 1, x / 0x100, w - 1, p);
    }
  }

  /** The bytes Put writes are the little-endian encoding of x. */
  lemma {:induction false} PutEncoding(s: seq<u8>, p: nat, x: nat, w: nat)
    requires p + w <= |s|
    ensures Put(s, p, x, w) == s[..p] + LittleEndian(x, w) + s[p + w..]
    decreases w
  {
    if w > 0 {
      var s' := s[p := x % 0x100];
      PutEncoding(s', p + 1, x / 0x100, w - 1);
      assert s'[..p + 1] == s[..p] + [x % 0x100];
      assert s'[p + 1 + (w - 1)..] == s[p + w..];
    }
  }
}
