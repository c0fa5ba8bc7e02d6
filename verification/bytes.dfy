/** Byte-level vocabulary: JavaScript typed-array conversions and the
    sequence helpers used by the encoder, the virtual machine and the patcher. */
module Bytes {
  import opened Wrappers

  /** One element of a `Uint8Array` or a C `uint8_t`. */
  type Byte = b: int | 0 <= b < 0x100

  /** One UTF-16 code unit, the element of a JavaScript string. */
  type CodeUnit = c: int | 0 <= c < 0x1_0000

  /** One element of an `Int32Array`. */
  type Int32 = x: int | -0x8000_0000 <= x < 0x8000_0000

  /** A JavaScript string, as the sequence `charCodeAt` walks. */
  type JsString = seq<CodeUnit>

  /** ECMAScript ToUint8: what a store into a `Uint8Array` keeps of an integer. */
  function ToUint8(x: int): (r: Byte)
    ensures 0 <= x < 0x100 ==> r == x
    ensures (r - x) % 0x100 == 0
  {
    x % 0x100
  }

  /** ECMAScript ToUint16, as applied by `String.fromCharCode`. */
  function ToUint16(x: int): (r: CodeUnit)
    ensures 0 <= x < 0x1_0000 ==> r == x
    ensures (r - x) % 0x1_0000 == 0
  {
    x % 0x1_0000
  }

  /** ECMAScript ToInt32: what a store into an `Int32Array` keeps of an integer. */
  function ToInt32(x: int): (r: Int32)
    ensures -0x8000_0000 <= x < 0x8000_0000 ==> r == x
    ensures (r - x) % 0x1_0000_0000 == 0
  {
    (x + 0x8000_0000) % 0x1_0000_0000 - 0x8000_0000
  }

  /** Indexing a typed array: out of range yields `undefined`. */
  function Read(p: seq<Byte>, i: int): (r: Option<Byte>)
    ensures r.Some? <==> 0 <= i < |p|
    ensures r.Some? ==> r.value == p[i]
  {
    if 0 <= i < |p| then Some(p[i]) else None
  }

  /** `Uint8Array.prototype.slice(start, end)` for non-negative bounds:
      both bounds are clamped to the length, and an inverted range is empty. */
  function Slice(p: seq<Byte>, start: nat, end: nat): (r: seq<Byte>)
    ensures start <= end <= |p| ==> r == p[start..end]
    ensures start <= end && start <= |p| ==> r == p[start..if end < |p| then end else |p|]
    ensures |r| <= |p|
    ensures |r| == if end <= start || |p| <= start then 0
                   else (if end < |p| then end else |p|) - start
  {
    var s := if start < |p| then start else |p|;
    var e := if end < |p| then end else |p|;
    if e <= s then [] else p[s..e]
  }

  /** Indexing a slice is indexing the original at the shifted position,
      up to the slice's clamped end; past it there is nothing. */
  lemma {:induction false} ReadSlice(p: seq<Byte>, start: nat, end: nat, k: int)
    requires start <= end
    ensures var e := if end < |p| then end else |p|;
            Read(Slice(p, start, end), k) == if 0 <= k && start + k < e then Read(p, start + k) else None
  {
  }

  /** The bytes a `Uint8Array` keeps when a string's char codes are stored into it. */
  function StringBytes(s: JsString): (r: seq<Byte>)
    ensures |r| == |s|
    ensures forall i :: 0 <= i < |s| ==> r[i] == ToUint8(s[i])
  {
    seq(|s|, i requires 0 <= i < |s| => ToUint8(s[i]))
  }

  /** True when every code unit survives a store into a `Uint8Array`. */
  predicate IsByteString(s: JsString) {
    forall i :: 0 <= i < |s| ==> s[i] < 0x100
  }

  /** `String.fromCharCode(...bytes)`: every byte becomes one code unit. */
  function BytesString(b: seq<Byte>): (r: JsString)
    ensures |r| == |b|
    ensures forall i :: 0 <= i < |b| ==> r[i] == b[i]
  {
    seq(|b|, i requires 0 <= i < |b| => b[i] as CodeUnit)
  }

  /** In-order concatenation of byte chunks. */
  function Flatten(chunks: seq<seq<Byte>>): seq<Byte> {
    if chunks == [] then [] else Flatten(chunks[..|chunks| - 1]) + chunks[|chunks| - 1]
  }

  /** Sum of the chunk lengths. */
  function SumLengths(chunks: seq<seq<Byte>>): nat {
    if chunks == [] then 0 else SumLengths(chunks[..|chunks| - 1]) + |chunks[|chunks| - 1]|
  }

  lemma {:induction false} FlattenLength(chunks: seq<seq<Byte>>)
    ensures |Flatten(chunks)| == SumLengths(chunks)
  {
    if chunks != [] {
      FlattenLength(chunks[..|chunks| - 1]);
    }
  }

  lemma {:induction false} FlattenAppend(a: seq<seq<Byte>>, b: seq<seq<Byte>>)
    ensures Flatten(a + b) == Flatten(a) + Flatten(b)
    decreases |b|
  {
    if b == [] {
      assert a + b == a;
    } else {
      var b' := b[..|b| - 1];
      assert (a + b)[..|a + b| - 1] == a + b';
      FlattenAppend(a, b');
    }
  }

  lemma {:induction false} FlattenSingle(chunk: seq<Byte>)
    ensures Flatten([chunk]) == chunk
  {
    assert [chunk][..0] == [];
  }

  /** Chunk `i` sits, unmodified, right after the chunks before it. */
  lemma {:induction false} FlattenChunk(chunks: seq<seq<Byte>>, i: nat)
    requires i < |chunks|
    ensures SumLengths(chunks[..i]) + |chunks[i]| <= |Flatten(chunks)|
    ensures Flatten(chunks)[SumLengths(chunks[..i])..SumLengths(chunks[..i]) + |chunks[i]|] == chunks[i]
  {
    var pre, rest := chunks[..i], chunks[i..];
    assert chunks == pre + rest;
    FlattenAppend(pre, rest);
    assert rest == [chunks[i]] + rest[1..];
    FlattenAppend([chunks[i]], rest[1..]);
    FlattenSingle(chunks[i]);
    FlattenLength(pre);
  }
}
