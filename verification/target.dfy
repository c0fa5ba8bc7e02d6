/** The native bytecode buffer of `src/target.h` and its generated Rust twin
    `src/target.rs`: a growable byte buffer with a lock flag and emitters
    for each instruction.

    A `librender_bytecode_buffer` is modelled by value: `contents` is
    `buffer[0 .. size)`, `capacity` the allocated byte count and `locked`
    the `is_locked` flag. Every mutator returns the buffer it leaves behind.
    A `NULL` data pointer is `None`; `NULL` buffer pointers appear only
    where a function returns or collects them (merge, clone, is_locked). */
module Target {
  import opened Wrappers
  import opened Bytes

  // The native opcode table: NOP is 0x00 here, and 0x0B is APPEND_SIBLING.
  const OPCODE_NOP: Byte := 0x00
  const OPCODE_CREATE_ELEMENT: Byte := 0x01
  const OPCODE_SET_ATTRIBUTE: Byte := 0x02
  const OPCODE_APPEND_CHILD: Byte := 0x03
  const OPCODE_REMOVE_CHILD: Byte := 0x04
  const OPCODE_REPLACE_CHILD: Byte := 0x05
  const OPCODE_TEXT_NODE: Byte := 0x06
  const OPCODE_SET_TEXT: Byte := 0x07
  const OPCODE_REMOVE_ATTRIBUTE: Byte := 0x08
  const OPCODE_STYLE: Byte := 0x09
  const OPCODE_EVENT_LISTENER: Byte := 0x0A
  const OPCODE_APPEND_SIBLING: Byte := 0x0B

  /** The capacity `librender_create_buffer(0)` substitutes. */
  const DEFAULT_CAPACITY: nat := 1024

  datatype Buffer = Buffer(contents: seq<Byte>, capacity: nat, locked: bool)

  /** What every operation keeps: the contents fit in the allocation, and the
      allocation is never empty (so doubling always makes room). */
  predicate Valid(b: Buffer) {
    1 <= b.capacity && |b.contents| <= b.capacity
  }

  // ---------------------------------------------------------------------
  // Creation, lock flag, single-byte append
  // ---------------------------------------------------------------------

  /** `librender_create_buffer(initial_capacity)`. */
  function CreateBuffer(initialCapacity: nat): (r: Buffer)
    ensures r.contents == [] && !r.locked && Valid(r)
    ensures initialCapacity == 0 ==> r.capacity == DEFAULT_CAPACITY
    ensures initialCapacity != 0 ==> r.capacity == initialCapacity
  {
    Buffer([], if initialCapacity == 0 then DEFAULT_CAPACITY else initialCapacity, false)
  }

  /** `librender_lock_buffer`. */
  function Lock(b: Buffer): (r: Buffer)
    ensures r.locked && r.contents == b.contents && r.capacity == b.capacity
  {
    b.(locked := true)
  }

  /** `librender_unlock_buffer`. */
  function Unlock(b: Buffer): (r: Buffer)
    ensures !r.locked && r.contents == b.contents && r.capacity == b.capacity
  {
    b.(locked := false)
  }

  /** `librender_is_buffer_locked`: a `NULL` buffer reports unlocked. */
  function IsLocked(b: Option<Buffer>): (r: bool)
    ensures r <==> b.Some? && b.value.locked
  {
    b.Some? && b.value.locked
  }

  /** The flag `is_buffer_locked` reports is the one `lock_buffer` sets and
      `unlock_buffer` clears, and it decides whether `append_byte` writes. */
  lemma {:induction false} IsLockedReportsLock(b: Buffer, byte: Byte)
    ensures IsLocked(Some(Lock(b))) && !IsLocked(Some(Unlock(b))) && !IsLocked(None)
    ensures IsLocked(Some(b)) <==> AppendByte(b, byte) == b
  {
    if !b.locked {
      assert |AppendByte(b, byte).contents| == |b.contents| + 1;
    }
  }

  /** `librender_append_byte`: on a full buffer the capacity doubles first. */
  function AppendByte(b: Buffer, byte: Byte): (r: Buffer)
    ensures b.locked ==> r == b
    ensures !b.locked ==> r.contents == b.contents + [byte] && !r.locked
    ensures r.capacity >= b.capacity
    ensures |b.contents| < b.capacity ==> r.capacity == b.capacity
    ensures !b.locked && |b.contents| >= b.capacity ==> r.capacity == 2 * b.capacity
    ensures Valid(b) ==> Valid(r)
  {
    if b.locked then b
    else
      var capacity := if |b.contents| >= b.capacity then b.capacity * 2 else b.capacity;
      Buffer(b.contents + [byte], capacity, false)
  }

  /** `count` successive `librender_append_byte` calls. */
  function AppendAll(b: Buffer, s: seq<Byte>): (r: Buffer)
    ensures b.locked ==> r == b
    ensures !b.locked ==> r.contents == b.contents + s && !r.locked
    ensures r.capacity >= b.capacity
    ensures |b.contents| + |s| <= b.capacity ==> r.capacity == b.capacity
    ensures Valid(b) ==> Valid(r)
    decreases |s|
  {
    if s == [] then b else AppendByte(AppendAll(b, s[..|s| - 1]), s[|s| - 1])
  }

  /** `librender_append_bytes(buf, bytes, count)`: a `NULL` source is ignored. */
  function AppendBytes(b: Buffer, bytes: Option<seq<Byte>>, count: nat): (r: Buffer)
    requires bytes.Some? ==> count <= |bytes.value|
    ensures b.locked || bytes.None? ==> r == b
    ensures !b.locked && bytes.Some? ==> r.contents == b.contents + bytes.value[..count]
    ensures r.locked == b.locked
    ensures Valid(b) ==> Valid(r)
  {
    if b.locked || bytes.None? then b else AppendAll(b, bytes.value[..count])
  }

  /** The loop of `librender_append_bytes`, one `append_byte` per index. */
  method AppendBytesLoop(b: Buffer, bytes: Option<seq<Byte>>, count: nat) returns (r: Buffer)
    requires bytes.Some? ==> count <= |bytes.value|
    ensures r == AppendBytes(b, bytes, count)
    ensures !b.locked && bytes.Some? ==> r.contents[..|b.contents|] == b.contents
  {
    if b.locked || bytes.None? {
      return b;
    }
    var s := bytes.value;
    r := b;
    var i := 0;
    while i < count
      invariant 0 <= i <= count
      invariant r == AppendAll(b, s[..i])
    {
      assert s[..i + 1][..i] == s[..i];
      r := AppendByte(r, s[i]);
      i := i + 1;
    }
  }

  // ---------------------------------------------------------------------
  // Instruction emitters
  // ---------------------------------------------------------------------

  /** The single-length layout: `r` is `b` followed by `[opcode, len,
      text[0 .. len)]`, or `b` itself when `b` is locked, the text is `NULL`
      or `len == 0`. */
  predicate SingleLayout(b: Buffer, r: Buffer, opcode: Byte, text: Option<seq<Byte>>, len: Byte)
    requires text.Some? ==> len <= |text.value|
  {
    if b.locked || text.None? || len == 0 then r == b
    else r.contents == b.contents + [opcode, len] + text.value[..len] && !r.locked
  }

  /** The two-length layout: `[opcode, nameLen, name[0 .. nameLen), valueLen,
      value[0 .. valueLen)]` with no delimiter between name and value, or
      nothing when `b` is locked, either text is `NULL` or either length is 0. */
  predicate PairLayout(b: Buffer, r: Buffer, opcode: Byte, name: Option<seq<Byte>>, nameLen: Byte,
                       value: Option<seq<Byte>>, valueLen: Byte)
    requires name.Some? ==> nameLen <= |name.value|
    requires value.Some? ==> valueLen <= |value.value|
  {
    if b.locked || name.None? || value.None? || nameLen == 0 || valueLen == 0 then r == b
    else r.contents == b.contents + [opcode, nameLen] + name.value[..nameLen] + [valueLen] + value.value[..valueLen]
         && !r.locked
  }

  /** The one-byte layout: `[opcode]`, or nothing when `b` is locked. */
  predicate OpLayout(b: Buffer, r: Buffer, opcode: Byte) {
    if b.locked then r == b else r.contents == b.contents + [opcode] && !r.locked
  }

  function EmitSingle(b: Buffer, opcode: Byte, text: Option<seq<Byte>>, len: Byte): (r: Buffer)
    requires text.Some? ==> len <= |text.value|
    ensures SingleLayout(b, r, opcode, text, len)
    ensures Valid(b) ==> Valid(r)
  {
    if b.locked || text.None? || len == 0 then b
    else AppendBytes(AppendByte(AppendByte(b, opcode), len), text, len)
  }

  function EmitPair(b: Buffer, opcode: Byte, name: Option<seq<Byte>>, nameLen: Byte,
                    value: Option<seq<Byte>>, valueLen: Byte): (r: Buffer)
    requires name.Some? ==> nameLen <= |name.value|
    requires value.Some? ==> valueLen <= |value.value|
    ensures PairLayout(b, r, opcode, name, nameLen, value, valueLen)
    ensures Valid(b) ==> Valid(r)
  {
    if b.locked || name.None? || value.None? || nameLen == 0 || valueLen == 0 then b
    else
      var withName := AppendBytes(AppendByte(AppendByte(b, opcode), nameLen), name, nameLen);
      AppendBytes(AppendByte(withName, valueLen), value, valueLen)
  }

  function EmitOp(b: Buffer, opcode: Byte): (r: Buffer)
    ensures OpLayout(b, r, opcode)
    ensures Valid(b) ==> Valid(r)
  {
    if b.locked then b else AppendByte(b, opcode)
  }

  function CreateElement(b: Buffer, tagName: Option<seq<Byte>>, tagLength: Byte): (r: Buffer)
    requires tagName.Some? ==> tagLength <= |tagName.value|
    ensures SingleLayout(b, r, OPCODE_CREATE_ELEMENT, tagName, tagLength)
  {
    EmitSingle(b, OPCODE_CREATE_ELEMENT, tagName, tagLength)
  }

  function SetAttribute(b: Buffer, name: Option<seq<Byte>>, nameLength: Byte,
                        value: Option<seq<Byte>>, valueLength: Byte): (r: Buffer)
    requires name.Some? ==> nameLength <= |name.value|
    requires value.Some? ==> valueLength <= |value.value|
    ensures PairLayout(b, r, OPCODE_SET_ATTRIBUTE, name, nameLength, value, valueLength)
  {
    EmitPair(b, OPCODE_SET_ATTRIBUTE, name, nameLength, value, valueLength)
  }

  function AppendChild(b: Buffer): (r: Buffer)
    ensures OpLayout(b, r, OPCODE_APPEND_CHILD)
  {
    EmitOp(b, OPCODE_APPEND_CHILD)
  }

  function AppendSibling(b: Buffer): (r: Buffer)
    ensures OpLayout(b, r, OPCODE_APPEND_SIBLING)
  {
    EmitOp(b, OPCODE_APPEND_SIBLING)
  }

  function RemoveChild(b: Buffer): (r: Buffer)
    ensures OpLayout(b, r, OPCODE_REMOVE_CHILD)
  {
    EmitOp(b, OPCODE_REMOVE_CHILD)
  }

  function ReplaceChild(b: Buffer): (r: Buffer)
    ensures OpLayout(b, r, OPCODE_REPLACE_CHILD)
  {
    EmitOp(b, OPCODE_REPLACE_CHILD)
  }

  function TextNode(b: Buffer, text: Option<seq<Byte>>, textLength: Byte): (r: Buffer)
    requires text.Some? ==> textLength <= |text.value|
    ensures SingleLayout(b, r, OPCODE_TEXT_NODE, text, textLength)
  {
    EmitSingle(b, OPCODE_TEXT_NODE, text, textLength)
  }

  function SetText(b: Buffer, text: Option<seq<Byte>>, textLength: Byte): (r: Buffer)
    requires text.Some? ==> textLength <= |text.value|
    ensures SingleLayout(b, r, OPCODE_SET_TEXT, text, textLength)
  {
    EmitSingle(b, OPCODE_SET_TEXT, text, textLength)
  }

  function RemoveAttribute(b: Buffer, name: Option<seq<Byte>>, nameLength: Byte): (r: Buffer)
    requires name.Some? ==> nameLength <= |name.value|
    ensures SingleLayout(b, r, OPCODE_REMOVE_ATTRIBUTE, name, nameLength)
  {
    EmitSingle(b, OPCODE_REMOVE_ATTRIBUTE, name, nameLength)
  }

  function SetStyle(b: Buffer, name: Option<seq<Byte>>, nameLength: Byte,
                    value: Option<seq<Byte>>, valueLength: Byte): (r: Buffer)
    requires name.Some? ==> nameLength <= |name.value|
    requires value.Some? ==> valueLength <= |value.value|
    ensures PairLayout(b, r, OPCODE_STYLE, name, nameLength, value, valueLength)
  {
    EmitPair(b, OPCODE_STYLE, name, nameLength, value, valueLength)
  }

  /** No callback index is written: only the event type. */
  function AddEventListener(b: Buffer, eventType: Option<seq<Byte>>, eventTypeLength: Byte): (r: Buffer)
    requires eventType.Some? ==> eventTypeLength <= |eventType.value|
    ensures SingleLayout(b, r, OPCODE_EVENT_LISTENER, eventType, eventTypeLength)
  {
    EmitSingle(b, OPCODE_EVENT_LISTENER, eventType, eventTypeLength)
  }

  function Nop(b: Buffer): (r: Buffer)
    ensures OpLayout(b, r, OPCODE_NOP)
  {
    EmitOp(b, OPCODE_NOP)
  }

  // ---------------------------------------------------------------------
  // Whole-buffer operations
  // ---------------------------------------------------------------------

  /** `librender_clear_buffer`: the size drops to 0, the allocation stays. */
  function Clear(b: Buffer): (r: Buffer)
    ensures b.locked ==> r == b
    ensures !b.locked ==> r.contents == [] && r.capacity == b.capacity && !r.locked
    ensures Valid(b) ==> Valid(r)
  {
    if b.locked then b else b.(contents := [])
  }

  /** The contents of the non-`NULL` buffers, in order. */
  function JoinPresent(buffers: seq<Option<Buffer>>): seq<Byte> {
    if buffers == [] then []
    else
      var last := buffers[|buffers| - 1];
      JoinPresent(buffers[..|buffers| - 1]) + (if last.Some? then last.value.contents else [])
  }

  /** The first loop of `librender_merge_bytecode`: the summed sizes. */
  function TotalSize(buffers: seq<Option<Buffer>>): (r: nat)
    ensures r == |JoinPresent(buffers)|
  {
    if buffers == [] then 0
    else
      var last := buffers[|buffers| - 1];
      TotalSize(buffers[..|buffers| - 1]) + (if last.Some? then |last.value.contents| else 0)
  }

  /** `librender_merge_bytecode(buffers, num_buffers)`: `NULL` for a `NULL`
      or empty array; otherwise a fresh unlocked buffer sized to the total
      (or 1024 when the total is 0) holding the non-`NULL` buffers' bytes. */
  function Merge(buffers: Option<seq<Option<Buffer>>>): (r: Option<Buffer>)
    ensures r.Some? <==> buffers.Some? && |buffers.value| > 0
    ensures r.Some? ==> r.value.contents == JoinPresent(buffers.value)
    ensures r.Some? ==> !r.value.locked && Valid(r.value)
    ensures r.Some? ==> r.value.capacity == if TotalSize(buffers.value) == 0 then DEFAULT_CAPACITY else TotalSize(buffers.value)
  {
    if buffers.None? || |buffers.value| == 0 then None
    else Some(AppendAll(CreateBuffer(TotalSize(buffers.value)), JoinPresent(buffers.value)))
  }

  /** `librender_merge_bytecode` with its two loops: sum the sizes, create
      the buffer, then append each non-`NULL` buffer in turn. */
  method MergeBytecode(buffers: Option<seq<Option<Buffer>>>) returns (r: Option<Buffer>)
    ensures r == Merge(buffers)
  {
    if buffers.None? || |buffers.value| == 0 {
      return None;
    }
    var bs := buffers.value;
    var totalSize := 0;
    var i := 0;
    while i < |bs|
      invariant 0 <= i <= |bs|
      invariant totalSize == TotalSize(bs[..i])
    {
      assert bs[..i + 1][..i] == bs[..i];
      if bs[i].Some? {
        totalSize := totalSize + |bs[i].value.contents|;
      }
      i := i + 1;
    }
    assert bs[..|bs|] == bs;
    var merged := CreateBuffer(totalSize);
    i := 0;
    while i < |bs|
      invariant 0 <= i <= |bs|
      invariant merged == AppendAll(CreateBuffer(totalSize), JoinPresent(bs[..i]))
    {
      assert bs[..i + 1][..i] == bs[..i];
      if bs[i].Some? {
        AppendAllAppend(CreateBuffer(totalSize), JoinPresent(bs[..i]), bs[i].value.contents);
        merged := AppendAll(merged, bs[i].value.contents);
      } else {
        assert JoinPresent(bs[..i + 1]) == JoinPresent(bs[..i]);
      }
      i := i + 1;
    }
    r := Some(merged);
  }

  /** Appending in two steps is appending once. */
  lemma {:induction false} AppendAllAppend(b: Buffer, s: seq<Byte>, t: seq<Byte>)
    ensures AppendAll(AppendAll(b, s), t) == AppendAll(b, s + t)
    decreases |t|
  {
    if t == [] {
      assert s + t == s;
    } else {
      var t' := t[..|t| - 1];
      assert (s + t)[..|s + t| - 1] == s + t';
      AppendAllAppend(b, s, t');
    }
  }

  /** `librender_copy_buffer(dst, src)`: nothing when either is `NULL`, the
      destination is locked or the source is empty. */
  function CopyBuffer(dst: Buffer, src: Option<Buffer>): (r: Buffer)
    ensures dst.locked || src.None? || |src.value.contents| == 0 ==> r == dst
    ensures !(dst.locked || src.None?) ==> r.contents == dst.contents + src.value.contents
    ensures Valid(dst) ==> Valid(r)
  {
    if dst.locked || src.None? || |src.value.contents| == 0 then dst
    else AppendAll(dst, src.value.contents)
  }

  /** `librender_resize_buffer`: only ever grows the allocation. */
  function Resize(b: Buffer, newCapacity: nat): (r: Buffer)
    ensures r.contents == b.contents && r.locked == b.locked
    ensures r.capacity == if b.locked || newCapacity <= b.capacity then b.capacity else newCapacity
    ensures Valid(b) ==> Valid(r)
  {
    if b.locked || newCapacity <= b.capacity then b else b.(capacity := newCapacity)
  }

  /** `librender_append_bytecode`: `append_bytes` unless the size is 0. */
  function AppendBytecode(b: Buffer, bytecode: Option<seq<Byte>>, size: nat): (r: Buffer)
    requires bytecode.Some? ==> size <= |bytecode.value|
    ensures b.locked || bytecode.None? || size == 0 ==> r == b
    ensures !(b.locked || bytecode.None?) ==> r.contents == b.contents + bytecode.value[..size]
    ensures Valid(b) ==> Valid(r)
  {
    if b.locked || bytecode.None? || size == 0 then b else AppendBytes(b, bytecode, size)
  }

  /** `librender_get_byte(buf, index, out)`: the value `*out` holds
      afterwards, given the value it held before. */
  function GetByte(b: Buffer, index: nat, out: Byte): (r: Byte)
    ensures index < |b.contents| ==> r == b.contents[index]
    ensures index >= |b.contents| ==> r == out
  {
    if index < |b.contents| then b.contents[index] else out
  }

  /** `get_byte` reads back what `insert_byte` and `append_byte` wrote: the
      inserted byte at its index, the bytes below it where they were, the
      bytes above it one place further up, and an appended byte at the old
      size. */
  lemma {:induction false} GetByteAfterInsert(b: Buffer, index: nat, byte: Byte, out: Byte, k: nat)
    requires !b.locked && index <= |b.contents|
    ensures GetByte(InsertByte(b, index, byte), index, out) == byte
    ensures k < index ==> GetByte(InsertByte(b, index, byte), k, out) == GetByte(b, k, out)
    ensures index < k ==> GetByte(InsertByte(b, index, byte), k, out) == GetByte(b, k - 1, out)
    ensures GetByte(AppendByte(b, byte), |b.contents|, out) == byte
  {
    var c := InsertByte(b, index, byte).contents;
    assert c == b.contents[..index] + [byte] + b.contents[index..];
    if index < k && k <= |b.contents| {
      assert c[k] == b.contents[k - 1];
    }
  }

  /** `librender_clone_buffer`: `NULL` for a `NULL` or empty source;
      otherwise a fresh unlocked buffer of the source's capacity holding
      its bytes. */
  function Clone(src: Option<Buffer>): (r: Option<Buffer>)
    ensures r.Some? <==> src.Some? && |src.value.contents| > 0
    ensures r.Some? ==> r.value.contents == src.value.contents && !r.value.locked
    ensures r.Some? && Valid(src.value) ==> r.value.capacity == src.value.capacity && Valid(r.value)
  {
    if src.None? || |src.value.contents| == 0 then None
    else Some(AppendAll(CreateBuffer(src.value.capacity), src.value.contents))
  }

  // ---------------------------------------------------------------------
  // Insertion and removal with shifting
  // ---------------------------------------------------------------------

  /** `librender_insert_byte(buf, index, byte)`: `index == size` appends;
      `index > size` is ignored. */
  function InsertByte(b: Buffer, index: nat, byte: Byte): (r: Buffer)
    ensures b.locked || index > |b.contents| ==> r == b
    ensures !(b.locked || index > |b.contents|) ==>
      r.contents == b.contents[..index] + [byte] + b.contents[index..] && !r.locked
    ensures Valid(b) ==> Valid(r)
  {
    if b.locked || index > |b.contents| then b
    else
      var capacity := if |b.contents| >= b.capacity then b.capacity * 2 else b.capacity;
      Buffer(b.contents[..index] + [byte] + b.contents[index..], capacity, false)
  }

  /** `librender_remove_byte(buf, index)`: `index >= size` is ignored. */
  function RemoveByte(b: Buffer, index: nat): (r: Buffer)
    ensures b.locked || index >= |b.contents| ==> r == b
    ensures !(b.locked || index >= |b.contents|) ==>
      r.contents == b.contents[..index] + b.contents[index + 1..] && r.capacity == b.capacity && !r.locked
    ensures Valid(b) ==> Valid(r)
  {
    if b.locked || index >= |b.contents| then b
    else b.(contents := b.contents[..index] + b.contents[index + 1..])
  }

  /** Removing the byte just inserted gives the old contents back. */
  lemma {:induction false} RemoveInsertInverse(b: Buffer, index: nat, byte: Byte)
    requires !b.locked && index <= |b.contents|
    ensures RemoveByte(InsertByte(b, index, byte), index).contents == b.contents
  {
    var c := b.contents[..index] + [byte] + b.contents[index..];
    assert c[..index] == b.contents[..index];
    assert c[index + 1..] == b.contents[index..];
  }

  /** The shift loop of `librender_insert_byte` on the allocated bytes
      `memory` (of length `capacity`, `size` of them in use): copy
      `memory[i - 1]` to `memory[i]` from `i = size` down to `index + 1`,
      then store the byte at `index`. */
  method InsertShift(memory: seq<Byte>, size: nat, index: nat, byte: Byte) returns (r: seq<Byte>)
    requires index <= size < |memory|
    ensures |r| == |memory|
    ensures r[..size + 1] == memory[..index] + [byte] + memory[index..size]
    ensures r[size + 1..] == memory[size + 1..]
  {
    r := memory;
    var i := size;
    while i > index
      invariant index <= i <= size
      invariant |r| == |memory|
      invariant forall k :: 0 <= k <= i ==> r[k] == memory[k]
      invariant forall k :: i < k <= size ==> r[k] == memory[k - 1]
      invariant forall k :: size < k < |memory| ==> r[k] == memory[k]
    {
      r := r[i := r[i - 1]];
      i := i - 1;
    }
    r := r[index := byte];
    assert r[..size + 1] == memory[..index] + [byte] + memory[index..size] by {
      forall k | 0 <= k <= size
        ensures r[..size + 1][k] == (memory[..index] + [byte] + memory[index..size])[k]
      {
        if k > index {
          assert (memory[..index] + [byte] + memory[index..size])[k] == memory[k - 1];
        }
      }
    }
  }

  /** The shift loop of `librender_remove_byte`: copy `memory[i + 1]` to
      `memory[i]` from `i = index` up to `size - 2`. */
  method RemoveShift(memory: seq<Byte>, size: nat, index: nat) returns (r: seq<Byte>)
    requires index < size <= |memory|
    ensures |r| == |memory|
    ensures r[..size - 1] == memory[..index] + memory[index + 1..size]
    ensures r[size - 1..] == memory[size - 1..]
  {
    r := memory;
    var i := index;
    while i < size - 1
      invariant index <= i <= size - 1
      invariant |r| == |memory|
      invariant forall k :: 0 <= k < index ==> r[k] == memory[k]
      invariant forall k :: index <= k < i ==> r[k] == memory[k + 1]
      invariant forall k :: i <= k < |memory| ==> r[k] == memory[k]
    {
      r := r[i := r[i + 1]];
      i := i + 1;
    }
    var expected := memory[..index] + memory[index + 1..size];
    assert |expected| == size - 1;
    forall k | 0 <= k < |expected|
      ensures r[k] == expected[k]
    {
      if k >= index {
        assert expected[k] == memory[k + 1];
      }
    }
    assert r[..size - 1] == expected;
  }

  /** Run on the buffer's own bytes, the insertion loop produces exactly
      the contents `InsertByte` describes. */
  lemma {:induction false} InsertShiftAgrees(b: Buffer, memory: seq<Byte>, index: nat, byte: Byte, shifted: seq<Byte>)
    requires !b.locked && index <= |b.contents| < |memory| && memory[..|b.contents|] == b.contents
    requires |shifted| == |memory|
    requires shifted[..|b.contents| + 1] == memory[..index] + [byte] + memory[index..|b.contents|]
    ensures shifted[..|InsertByte(b, index, byte).contents|] == InsertByte(b, index, byte).contents
  {
    assert memory[..index] == b.contents[..index];
    assert memory[index..|b.contents|] == b.contents[index..];
  }

  // ---------------------------------------------------------------------
  // Locking
  // ---------------------------------------------------------------------

  /** A locked buffer is left exactly as it was by every mutator, and only
      `unlock` clears the flag. */
  lemma {:induction false} LockedRejectsMutators(b: Buffer, byte: Byte, index: nat, newCapacity: nat,
                              s: Option<seq<Byte>>, len: Byte, src: Option<Buffer>)
    requires b.locked
    requires s.Some? ==> len <= |s.value|
    ensures AppendByte(b, byte) == b && AppendBytes(b, s, len) == b
    ensures CreateElement(b, s, len) == b && SetAttribute(b, s, len, s, len) == b
    ensures TextNode(b, s, len) == b && SetText(b, s, len) == b
    ensures RemoveAttribute(b, s, len) == b && SetStyle(b, s, len, s, len) == b
    ensures AddEventListener(b, s, len) == b
    ensures AppendChild(b) == b && AppendSibling(b) == b && RemoveChild(b) == b
    ensures ReplaceChild(b) == b && Nop(b) == b
    ensures Clear(b) == b && CopyBuffer(b, src) == b && Resize(b, newCapacity) == b
    ensures AppendBytecode(b, s, len) == b
    ensures InsertByte(b, index, byte) == b && RemoveByte(b, index) == b
    ensures Unlock(b) == b.(locked := false) && Lock(Unlock(b)) == b
  {
  }

  /** A fresh buffer takes appends until it is full, without reallocating. */
  lemma {:induction false} FreshBufferAppendsInPlace(initialCapacity: nat, s: seq<Byte>)
    requires |s| <= if initialCapacity == 0 then DEFAULT_CAPACITY else initialCapacity
    ensures AppendAll(CreateBuffer(initialCapacity), s).contents == s
    ensures AppendAll(CreateBuffer(initialCapacity), s).capacity == CreateBuffer(initialCapacity).capacity
  {
  }
}
