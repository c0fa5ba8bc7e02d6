# render: bytecode encoder, virtual machine, patcher and native buffer

This project models the byte-level core of `render` in Dafny. `render` is a UI library that compiles views into a compact bytecode and replays that bytecode against the DOM.

- **`Bytes`** (`bytes.dfy`). The shared vocabulary:
  - `Byte`, `CodeUnit` and `Int32`;
  - the ECMAScript conversions a typed-array store applies (`ToUint8`, `ToUint16`, `ToInt32`);
  - `Read`, where an out-of-range index of a typed array yields `undefined`;
  - `Slice`, which clamps both bounds as `Uint8Array.prototype.slice` does;
  - `Flatten` of byte chunks.
- **`Views`** (`views.dfy`). The encoder of `src/views.ts`:
  - `Text`, `Button`, `Container` and `View` as one `Node` datatype;
  - `attr()` as `Attr`, whose attribute buffer carries the class invariant `attributeLength == Σ segment lengths` in its type;
  - `render()` as `Render`.
- **`Placeholder`** (`view_placeholder.dfy`). The placeholder components of `src/view.ts`: a `View` renders `[1, 2, 1]` and a `Container` concatenates its children. Both loops of `Container.render()` are modelled as methods.
- **`Utils`** (`utils.dfy`). `increment`, `charCodes` and `decodeString` of `src/utils.ts`:
  - the counter is an explicit state;
  - `decodeString` pops from the machine's operand stack.
- **`Vm`** (`vm.dfy`). `VirtualMachine` of `src/vm.ts`:
  - the machine state is a `pc` (which can become `NaN`), the 1024-slot `Int32Array` stack with its pointer in slot 0, the program, and the element table;
  - each handler is a function returning `Result<Machine, VmError>`;
  - `Step` is one iteration of `run()`; `Run` is the loop, terminating on the bytes left before the end;
  - the DOM is an append-only log of host calls, and a node handle is the log position of the call that created it.
- **`Patch`** (`patch.dfy`). `patch(prev, next)` of `src/patch.ts`, the two-cursor merge:
  - an `undefined` length makes its cursor `NaN`;
  - pushing `undefined` stores 0.
- **`Target`** (`target.dfy`). The native bytecode buffer of `src/target.h`:
  - a buffer is a value: its contents (`buffer[0 .. size)`), its capacity and its lock flag;
  - every mutator is a function from buffer to buffer;
  - the insert/remove shift loops and the loops of `append_bytes` and `merge_bytecode` are methods proved equal to the functional definitions.

  `src/target.rs` is generated from `src/target.h` (stated at `src/target.rs:8`). Its functions take the same branches in the same order:
  - `librender_create_buffer` 127-165;
  - lock/unlock 181-207;
  - `append_byte` 210-240 and `append_bytes` 243-259;
  - the emitters 262-465;
  - `clear` 498-504 and `merge_bytecode` 507-549;
  - `copy` 552-565, `resize` 568-590 and `append_bytecode` 593-607;
  - `insert_byte` 610-651 and `remove_byte` 654-673;
  - `get_byte` 676-686 and `clone_buffer` 689-705.

  The same `Target` members therefore model both files. The only differences are the Rust `wrapping_*` operations, which matter only at `size_t` overflow (see "Left out").
- **`Interop`** (`interop.dfy`). How the encoders' output meets the machine:
  - the `attr()` segment decodes back to exactly its key and value;
  - the native `create_element` segment decodes;
  - the native `set_attribute` segment and a rendered `Text` do not.

## Model

| member | source | states |
|---|---|---|
| Bytes.ReadSlice | src/vm.ts:96-101 | indexing the result of `slice(start, end)` at `k` reads the original at `start + k` while that is below the clamped end, and yields `undefined` past it; `Read` is the typed-array index, `Slice` the clamping `slice` |
| Bytes.Slice | src/vm.ts:98-101 | `slice` clamps both bounds to the length: from a start within the array it is the subsequence up to the clamped end (so a program cut short yields the bytes that remain), and its length is given in closed form |
| Bytes.ToInt32 | src/vm.ts:38 | a store into the `Int32Array` keeps the value when it is in range, and otherwise a value congruent to it modulo 2^32 |
| Bytes.FlattenChunk | src/views.ts:86-92 | chunk `i` sits in the concatenation right after the chunks before it |
| Views.AddAttr | src/views.ts:119-142 | `attr` appends exactly one segment to the buffer list and adds `|key| + |value| + 4` to `attributeLength` |
| Views.Attr | src/views.ts:39-62 | `attr` on a `Button` or a `Container` changes only its attribute list, appending the one segment |
| Views.NewButton | src/views.ts:33-37 | a new `Button` carries the given label and no attribute segments |
| Views.NewContainer | src/views.ts:108-112 | a new `Container` has the `DIV` tag, the given children and no attributes |
| Views.TagName | src/views.ts:114-117 | `tagName` replaces the tag and keeps the attributes and children of the same container |
| Views.TagBytesRoundTrip | src/views.ts:157 | the tag numbers `buffer.set(tag, 2)` stores (`TagBytes`) read back as the same character codes whenever they are in byte range |
| Views.Render | src/views.ts:144-181 | every `render()` fills exactly the `totalLength` it allocates, computed the way the source computes it before any byte is written |
| Views.TextLayout | src/views.ts:18-30 | `Text.render` is `|t| + 2` bytes: TEXT_NODE, the length reduced to a byte, then each code unit reduced to a byte |
| Views.AttrSegmentLayout | src/views.ts:119-141 | an attribute segment is `[0x02, |k|+1, k…, NOP 0x0b, |v|, v…]`, `|k| + |v| + 4` bytes long |
| Views.AttributeLengthMatchesBuffers | src/views.ts:138-139 | after any sequence of `attr` calls, `attributeLength` equals the number of bytes the buffered segments contribute |
| Views.AttrAppendsSegment | src/views.ts:58-59 | each `attr` call adds its own segment at the end of the attribute bytes and changes nothing before it |
| Views.ButtonLayout | src/views.ts:64-97 | `Button.render` is `[0x01, 6, "button", 0x06, labelLen]`, the label, the attribute bytes and a final APPEND_CHILD; length `label.length + 11 + attributeLength` |
| Views.ButtonAttributesInOrder | src/views.ts:84-92 | the `i`-th attribute segment of a `Button` appears unmodified in the output, after the label and every earlier segment |
| Views.ContainerAttributesInOrder | src/views.ts:159-167 | the `i`-th attribute segment of a `Container` appears unmodified in the output, after the tag and every earlier segment |
| Views.ContainerLayout | src/views.ts:144-181 | `Container.render` is the element header, the attributes, then each child's rendering followed by one APPEND_CHILD; length `tagLen + 2 + attributeLength + Σ(|child| + 1)` |
| Views.ViewConcatenates | src/views.ts:187-206 | `View.render` of a split child list is the two renders concatenated, its length is the sum of the children's lengths, and it is empty for no children |
| Views.HelloExample | src/views.ts:144-181 | `Container([Text("hello")])` with the default tag encodes to `[1, 3, d, i, v, 6, 5, h, e, l, l, o, 3]` |
| Placeholder.Render | src/view.ts:2-35 | `View.render()` gives three bytes and `Container.render()` the concatenation of its children's renders, so any component renders three bytes per `View` leaf |
| Placeholder.TotalLength | src/view.ts:17-22 | the first loop sums the children's render lengths, giving the length of their concatenation |
| Placeholder.SetAt | src/view.ts:30 | `buffer.set(child, offset)` writes the child at the offset and keeps the bytes before it |
| Placeholder.RenderContainer | src/view.ts:16-35 | the two loops of `Container.render` produce the in-order concatenation of the children's renders |
| Placeholder.ContainerPlacesChild | src/view.ts:27-32 | child `i` appears unmodified where the children before it end |
| Placeholder.RenderIsViewCopies | src/view.ts:3-5 | however containers nest, a render is one `[1, 2, 1]` per `View` leaf |
| Placeholder.FlatContainerLength | src/view.ts:16-35 | a container of `n` views renders `3 * n` bytes, and nothing for no children |
| Utils.Increment | src/utils.ts:7-11 | one call returns the previous count plus one and stores it |
| Utils.IncrementReturnsCallNumber | src/utils.ts:4-12 | the `k`-th call returns the initial count plus `k + 1`, so from a fresh counter the values are 1, 2, 3, … |
| Utils.IncrementIsUnique | src/utils.ts:4-12 | calls from a fresh counter return strictly increasing, hence distinct, values |
| Utils.CharCodes | src/utils.ts:14-28 | the nested loops push the code units of every argument, one argument after the other |
| Utils.CharCodesAppend | src/utils.ts:18-25 | `charCodes(a…, b…) == charCodes(a…) + charCodes(b…)` |
| Utils.CharCodesLength | src/utils.ts:14-28 | the result's length is the sum of the arguments' lengths |
| Utils.CharCodesPlacesArgument | src/utils.ts:18-25 | argument `i` appears unchanged right after the arguments before it |
| Utils.DecodeString | src/utils.ts:30-39 | the loop pops `length` times and returns one code unit per pop (none for a non-positive length) |
| Utils.PopCodeMovesPointer | src/vm.ts:41-43 | a pop raises the pointer by one, changes no other slot, and yields the slot the old pointer names |
| Utils.DecodeStringReadsUpward | src/utils.ts:30-39 | unless the pointer wraps, `decodeString` yields the slots from the pointer upward and leaves the pointer `length` higher |
| Utils.PushAllStoresDownward | src/vm.ts:37-39 | successive pushes from pointer `p` fill the slots below `p` downward and leave the pointer at `p - n` |
| Utils.PushThenDecode | src/utils.ts:30-39 | code units pushed and then decoded come back in reverse order, reduced to 16 bits, with the pointer restored |
| Vm.Push | src/vm.ts:37-39 | the pointer drops by one first and the value is stored at the new pointer; at pointer 1 it overwrites the pointer itself |
| Vm.Pop | src/vm.ts:41-43 | the pointer rises by one and the slot the old pointer named is returned, or `undefined` outside the stack |
| Vm.PushThenPop | src/vm.ts:37-43 | a push then a pop restore the pointer and return the pushed value, except for a push at pointer 1 |
| Vm.DecodeUtf16 | src/vm.ts:45-49 | `decodeUTF16String` fails only with `RangeError`, exactly when the view falls outside the 1024-byte memory, and otherwise returns NUL code units |
| Vm.CreateElementOp | src/vm.ts:94-117 | fails with "Invalid tag name" exactly when the tag is missing or blank; otherwise it stores a new element under the old `elementCount`, increments it by one and moves `pc` past the tag |
| Vm.CreateElementPushes | src/vm.ts:113-116 | a successful CREATE_ELEMENT leaves the operand stack as pushing the old `elementCount` would |
| Vm.SetAttributeOp | src/vm.ts:119-156 | on success id `elementCount - 1` holds an element, the one new host entry is a `setAttribute` call on that element, `pc` ends right after the value whose length byte follows the delimiter (or is `NaN` when that byte is missing), and the table, the stack and the program are left alone |
| Vm.SetAttributeFailures | src/vm.ts:119-156 | fails with the missing-NOP error exactly when the byte after the key is not NOP 0x0b, a missing length byte included; past that check it fails with "Invalid element ID" exactly when id `elementCount - 1` is absent, and with a `TypeError` exactly when that id holds a text node, succeeding exactly when it holds an element |
| Vm.PairOp | src/vm.ts:158-172 | APPEND_CHILD and REMOVE_CHILD read no inline bytes, keep `pc` and the table, and append one host call |
| Vm.PairOpPopsPushedIds | src/vm.ts:158-172 | with the parent id pushed before the child id, APPEND_CHILD (or REMOVE_CHILD) pops them in reverse, applies the call to those two nodes and restores the pointer |
| Vm.ReplaceChildOp | src/vm.ts:174-182 | REPLACE_CHILD reads no inline bytes, keeps `pc` and the table, and appends one host call |
| Vm.CreateTextNodeOp | src/vm.ts:184-191 | TEXT_NODE reads no inline bytes and stores a new text node under the old `elementCount`, incremented by one |
| Vm.SetTextOp | src/vm.ts:193-199 | SET_TEXT reads no inline bytes and keeps `pc` and the table |
| Vm.RemoveAttributeOp | src/vm.ts:201-207 | REMOVE_ATTRIBUTE reads no inline bytes and keeps `pc` and the table |
| Vm.SetStyleOp | src/vm.ts:209-217 | STYLE reads no inline bytes and keeps `pc` and the table |
| Vm.EventListenerOp | src/vm.ts:219-226 | EVENT_LISTENER reads no inline bytes and keeps `pc` and the table |
| Vm.Step | src/vm.ts:52-90 | one iteration advances `pc` and never shrinks `elementCount` or the host log; only CREATE_ELEMENT and TEXT_NODE change the table or the count; a byte outside 0x01..0x0a jumps to the end, the stack-driven opcodes leave `pc` just past the opcode, and CREATE_ELEMENT runs its handler from just past the opcode |
| Vm.Run | src/vm.ts:51-92 | `run()` terminates; on success `pc` is at or past the end, the program is unchanged and the log only grew |
| Vm.StepKeepsTable | src/vm.ts:113-115 | one iteration preserves "the table holds exactly the ids `0 .. elementCount - 1`": the two creating opcodes store under the next free id (also src/vm.ts:188-189) |
| Vm.RunKeepsTable | src/vm.ts:51-92 | a successful `run()` ends with the table invariant if it started with it |
| Vm.RunHaltsOnUnknownOpcode | src/vm.ts:88-89 | a byte outside 0x01..0x0a, the NOP 0x0b included, ends `run()` immediately without error |
| Patch.PatchStep | src/patch.ts:25-107 | every iteration emits the new opcode first and advances the new cursor by at least one (or makes it `NaN`), so the loop terminates |
| Patch.Copy | src/patch.ts:40-42 | the copy loops push `count` bytes, exactly the subsequence when it lies inside the program |
| Patch.PatchFrom | src/patch.ts:16-115 | the merge from a pair of cursors is empty exactly when the new cursor is past the end or `NaN`, and otherwise begins with the new program's byte at that cursor |
| Patch.Patch | src/patch.ts:16-115 | `patch(prev, next)` is empty exactly when `next` is, and begins with `next`'s first byte |
| Patch.PatchFixed | src/patch.ts:16-115 | the corrected merge keeps the same emptiness and first-byte guarantee |
| Patch.TailIsRemainder | src/patch.ts:110-112 | once the main loop's condition fails the merge is the final copy loop (`Tail`), which pushes exactly the bytes of `next` the loop left unconsumed |
| Patch.ResumeAt | src/patch.ts:25-112 | the merge from cursors `i`, `j` equals the merge of the suffixes from 0 |
| Patch.PatchEmptyPrev | src/patch.ts:25-112 | `patch([], next) == next` |
| Patch.PatchEmptyNext | src/patch.ts:25-112 | `patch(prev, []) == []` |
| Patch.PatchOpcodeMismatch | src/patch.ts:102-106 | differing opcodes: only the new byte is emitted, and only the new cursor moves, by one |
| Patch.PatchPlainOpcode | src/patch.ts:96-99 | a matching opcode other than 0x01, 0x02 and 0x06 is emitted once and both cursors move by one |
| Patch.PatchCreateElementNewLength | src/patch.ts:43-53 | matching CREATE_ELEMENT with different lengths emits `[0x01, newLen, newTag…]` and each cursor skips its own segment |
| Patch.PatchCreateElementSameLength | src/patch.ts:39-53 | matching CREATE_ELEMENT with equal lengths emits the opcode and then `next[0 .. len]`, starting at the opcode itself |
| Patch.PatchMatchedOperand | src/patch.ts:29-94 | when both opcodes agree and carry an in-range length byte, the output is that segment's bytes followed by the patch of the two remainders after each segment |
| Patch.PatchSetAttribute | src/patch.ts:57-72 | matching SET_ATTRIBUTE emits the opcode, the new length `L` and the `L` bytes after it; each cursor skips its own `length + 2` |
| Patch.PatchTextNode | src/patch.ts:74-94 | matching TEXT_NODE emits the opcode and the new text, with the new length byte only when the lengths differ |
| Patch.PatchTagExample | src/patch.ts:43-53 | `patch([1,3,'d','i','v'], [1,4,'s','p','a','n']) == [1,4,'s','p','a','n']` |
| Patch.PatchSelfPlain | src/patch.ts:29-31 | `patch(P, P) == P` for programs without 0x01, 0x02 and 0x06 bytes |
| Patch.PatchFixedSelf | src/patch.ts:25-112 | with the two equal-length paths corrected, `patch(P, P) == P` whenever every length field of `P` stays inside it |
| Patch.PatchSelfCreateElementAsWritten | src/patch.ts:39-42 | as written, `patch([1,3,'d','i','v'], same) == [1,1,3,'d','i']` |
| Patch.PatchSelfTextAsWritten | src/patch.ts:79-82 | as written, `patch([6,2,'h','i'], same) == [6,'h','i']` |
| Target.CreateBuffer | src/target.h:53-81 | a new buffer is empty and unlocked, with capacity 1024 when 0 is requested and the requested capacity otherwise |
| Target.Lock | src/target.h:95-101 | `lock` sets the flag and changes nothing else |
| Target.Unlock | src/target.h:103-109 | `unlock` clears the flag and changes nothing else |
| Target.IsLockedReportsLock | src/target.h:95-136 | `is_buffer_locked` reports true after `lock_buffer`, false after `unlock_buffer` and for `NULL`, and it is true exactly when `append_byte` leaves the buffer unchanged |
| Target.AppendByte | src/target.h:119-136 | on an unlocked buffer it appends exactly one byte and keeps the rest; the capacity doubles only when full, so size ≤ capacity is kept; locked, it is a no-op |
| Target.AppendBytes | src/target.h:138-147 | appends the first `count` source bytes in order; a no-op when locked or when the source is `NULL` |
| Target.AppendBytesLoop | src/target.h:144-146 | the per-byte loop computes `AppendBytes` and keeps the earlier contents |
| Target.CreateElement | src/target.h:149-158 | appends `[0x01, len, tag…]`; unchanged when locked, `NULL` or `len == 0` |
| Target.SetAttribute | src/target.h:160-174 | appends `[0x02, nameLen, name…, valueLen, value…]` with no NOP delimiter; unchanged if either length is 0 |
| Target.AppendChild | src/target.h:176-182 | appends the single byte 0x03 unless locked |
| Target.AppendSibling | src/target.h:184-190 | appends the single byte 0x0B unless locked |
| Target.RemoveChild | src/target.h:192-198 | appends the single byte 0x04 unless locked |
| Target.ReplaceChild | src/target.h:200-206 | appends the single byte 0x05 unless locked |
| Target.TextNode | src/target.h:208-217 | appends `[0x06, len, text…]`; unchanged when locked, `NULL` or `len == 0` |
| Target.SetText | src/target.h:219-228 | appends `[0x07, len, text…]`; unchanged when locked, `NULL` or `len == 0` |
| Target.RemoveAttribute | src/target.h:230-240 | appends `[0x08, len, name…]`; unchanged when locked, `NULL` or `len == 0` |
| Target.SetStyle | src/target.h:242-255 | appends `[0x09, nameLen, name…, valueLen, value…]` with no delimiter; unchanged if either length is 0 |
| Target.AddEventListener | src/target.h:257-267 | appends `[0x0A, len, type…]` with no callback index; unchanged when locked, `NULL` or `len == 0` |
| Target.Nop | src/target.h:269-275 | appends the single byte 0x00 unless locked |
| Target.Clear | src/target.h:294-300 | an unlocked buffer becomes empty and keeps its capacity |
| Target.Merge | src/target.h:302-331 | `NULL` exactly for a `NULL` or empty array; otherwise an unlocked buffer holding the non-`NULL` buffers' bytes in order, with capacity equal to the total size (1024 for a total of 0) |
| Target.MergeBytecode | src/target.h:308-330 | the two loops compute `Merge` |
| Target.AppendAllAppend | src/target.h:323-328 | appending two byte runs one after the other is appending their concatenation |
| Target.CopyBuffer | src/target.h:333-340 | appends the source's bytes to an unlocked destination; no-op for `NULL`, locked or empty |
| Target.Resize | src/target.h:342-356 | only ever grows the capacity, and never touches the contents |
| Target.AppendBytecode | src/target.h:358-365 | appends the first `size` bytes unless locked, `NULL` or empty |
| Target.GetByteAfterInsert | src/target.h:367-412 | `get_byte` reads back the byte `insert_byte` put at its index, the bytes below it unchanged and the bytes above it one place higher, and the byte `append_byte` put at the old size |
| Target.Clone | src/target.h:414-430 | `NULL` exactly for a `NULL` or empty source; otherwise an unlocked buffer with identical contents and the source's capacity |
| Target.InsertByte | src/target.h:367-390 | with `index ≤ size` the contents become `old[..index] + [byte] + old[index..]`; a larger index is a no-op |
| Target.RemoveByte | src/target.h:392-403 | with `index < size` the contents become `old[..index] + old[index+1..]`; a larger index is a no-op |
| Target.RemoveInsertInverse | src/target.h:367-403 | removing at the index just inserted at restores the contents |
| Target.InsertShift | src/target.h:384-389 | the right-shift loop places the byte at `index`, moves the tail up by one and leaves the bytes past the tail alone |
| Target.RemoveShift | src/target.h:398-402 | the left-shift loop closes the gap at `index` and leaves the last slot and the bytes past it alone |
| Target.InsertShiftAgrees | src/target.h:367-390 | on the buffer's own memory the shift loop yields exactly the contents `InsertByte` describes |
| Target.LockedRejectsMutators | src/target.h:121 | every mutator, from `append_byte` to `remove_byte`, leaves a locked buffer exactly as it was |
| Target.FreshBufferAppendsInPlace | src/target.h:53-136 | a fresh buffer takes appends up to its capacity without reallocating |
| Interop.AttrSegmentReads | src/views.ts:119-141 | on an `attr(k, v)` segment inside any program, SET_ATTRIBUTE's reads return the opcode, `|k| + 1`, the key, the NOP, `|v|` and the value |
| Interop.SetAttributeFromReads | src/vm.ts:119-156 | when the reads at `pc` return a key length, the key, the NOP, a value length and the value, SET_ATTRIBUTE sets exactly that pair on element `elementCount - 1` and resumes after the value |
| Interop.AttrSegmentDecodes | src/vm.ts:119-144 | wherever an `attr(k, v)` segment sits in a program, its first byte reads as SET_ATTRIBUTE's opcode and the bytes after it read back, through SET_ATTRIBUTE's own reads, as `|k| + 1`, `k`, the NOP, `|v|` and `v`, for byte-range strings with `|k| + 1 < 256` and `|v| < 256` |
| Interop.AttrSegmentRoundTrip | src/vm.ts:119-156 | wherever an `attr(k, v)` segment sits in a program, its first byte is SET_ATTRIBUTE's opcode, and SET_ATTRIBUTE entered after it sets exactly `(k, v)` on the last element and resumes right after the segment, for byte-range strings with `|k| + 1 < 256` and `|v| < 256` |
| Vm.StepSetAttribute | src/vm.ts:61-63 | `run()` hands a SET_ATTRIBUTE byte to its handler with `pc` just past it |
| Vm.StepCreateElement | src/vm.ts:58-60 | `run()` hands a CREATE_ELEMENT byte to its handler with `pc` just past it |
| Interop.CreateElementSegmentDecodes | src/vm.ts:94-117 | a `[0x01, len, tag…]` segment with a non-blank tag creates an element with that tag, adds one id and resumes right after it |
| Interop.NativeCreateElementDecodes | src/target.h:149-158 | the native `create_element` output decodes back to an element with that tag |
| Interop.NativeSetAttributeBytes | src/target.h:160-174 | an unlocked buffer gains `[0x02, nameLen, name…, valueLen, value…]`, with no NOP and no `+ 1` |
| Interop.NativeCreateElementBytes | src/target.h:149-158 | an unlocked buffer gains `[0x01, len, tag…]` |
| Interop.NativeSetAttributeRejected | src/target.h:169-173 | the machine rejects the native `set_attribute` output with the missing-NOP error exactly when the name's last byte is not 0x0b |
| Interop.NativeOnlyOpcodesHalt | src/target.h:32-43 | the native NOP 0x00 and APPEND_SIBLING 0x0B are bytes the machine treats as the end of the program |
| Interop.TextIsNotRoundTrip | src/vm.ts:184-191 | running a rendered `Text` on a fresh machine creates a text node holding one NUL and leaves `pc` on the length byte: encode-then-run is not a round trip for text |

## Left out

- `src/render.ts` is not part of this model. It uses `requestAnimationFrame`, `requestIdleCallback` and `performance.now` for time slicing, all of which are host scheduling.
- `src/stream.ts` is not part of this model: it is async `ReadableStream` I/O.
- `src/preset/*`, `src/main.tsx`, `src/index.ts` and `vite.config.ts` are not part of this model. They are a Babel plugin, a DOM demo script, re-exports and build configuration.
- The `view` decorators (`src/views.ts:209-234`, `src/view.ts:38-63`) are left out. They only rewire prototypes, and the final assignment `updatedConstructor.prototype = initialConstructor.prototype` leaves `render` as the class defines it.
- Real DOM effects are left out. The host is an append-only log of calls, and a text node is told apart from an element only where a handler calls a method a text node lacks (`TypeError`).
- `console.log` is left out.
- `runCallback` and event dispatch (`src/vm.ts:225-231`) are left out. The listener closure re-enters `run()` from the host event loop; the model records the registration and the popped callback id.
- Exceptions the DOM itself raises (an invalid tag name for `document.createElement`, `appendChild` cycles) are left out.
- Vm.DecodeUtf16: the scratch memory is never written, so the model yields NUL code units. `String.fromCharCode` on the `undefined`-length branch is modelled only as "the rest of the memory", and `ToInt32` of `NaN` as 0.
- Vm.PairOp, Vm.ReplaceChildOp, Vm.SetTextOp, Vm.RemoveAttributeOp, Vm.SetStyleOp and Vm.EventListenerOp model a missing node as `TypeError`. They do not model which DOM exception (for example `NotFoundError` from `removeChild`) a present but unrelated node would raise.
- `malloc`/`realloc` failure paths that call `exit`, `librender_free_buffer`, `librender_destroy_bytecode` and `librender_output_bytecode` (file I/O) are left out.
- `NULL` buffer pointers are left out except where a function returns or collects them (`merge_bytecode`, `clone_buffer`, `is_buffer_locked`).
- Target.GetByte does not model a `NULL` `out_byte` pointer, which the source ignores.
- Target.AppendByte does not model `size_t` wrap-around of `capacity * 2` (the Rust twin's `wrapping_mul`), because it needs a buffer of half the address space.
- Target.InsertByte does not model `size_t` wrap-around either, for the same reason.
- TEXT_NODE takes its length from the operand stack and decodes its text from the scratch memory (`src/vm.ts:184-191`); it reads no inline bytes, and the model does the same.
- APPEND_CHILD and REMOVE_CHILD pop both node ids from the operand stack; they do not look at the most recently created element.
- No handler raises an encoding error: over-long lengths and code units above 0xFF are reduced by `ToUint8` when they are stored.
- `src/vm.ts` exports no APPEND_SIBLING, although `src/views.ts:4` imports one. The import is unused, so it has no effect on the encoder.
- Aliasing is not modelled. Buffers are values, so a source that aliases the destination's storage is not modelled: `librender_copy_buffer(b, b)`, or `librender_append_bytes(b, b->buffer, n)`. In C such a call reads through a pointer that the `realloc` at `src/target.h:127-128` may already have freed once the size reaches the capacity, which is undefined behaviour. Target.CopyBuffer and Target.AppendBytes instead give the contents followed by themselves.
- The machine's state after an exception is not modelled. A handler that throws returns only `Failure`, which discards the machine. In `src/vm.ts` the `pc` and stack-pointer moves made before the throw persist on the `VirtualMachine` object, and a later `run()` resumes from them. For example:
  - SET_ATTRIBUTE has moved `pc` past the value before it throws "Invalid element ID" (`src/vm.ts:128-155`);
  - the pair operations have popped both ids before their `TypeError`.
- Views.Render models strings of any code units: stores reduce each code unit and each length with `ToUint8`. Interop.AttrSegmentRoundTrip therefore assumes byte-range strings and lengths below 256, which is where the round trip holds.

## Findings

| source | as written | input that shows it | evidently intended | confidence | as-written member | corrected member |
|---|---|---|---|---|---|---|
| src/patch.ts:39-42 | the equal-length CREATE_ELEMENT copy loop starts at offset 0 (the opcode) and runs `len + 1` times, so it re-emits the opcode and drops the last tag byte | `patch([1,3,'d','i','v'], [1,3,'d','i','v'])` gives `[1,1,3,'d','i']` | copy the length byte and the tag: `[1,3,'d','i','v']` | not executed | Patch.PatchSelfCreateElementAsWritten | Patch.PatchFixedSelf |
| src/patch.ts:79-82 | the equal-length TEXT_NODE path pushes the text but not the length byte | `patch([6,2,'h','i'], [6,2,'h','i'])` gives `[6,'h','i']` | keep the length byte: `[6,2,'h','i']` | not executed | Patch.PatchSelfTextAsWritten | Patch.PatchFixedSelf |
