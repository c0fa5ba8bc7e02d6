/** The two-cursor bytecode merge of `src/patch.ts`. Reads past the end of a
    `Uint8Array` give `undefined`; an `undefined` that is pushed becomes 0
    when the result is converted to a `Uint8Array`, and one that is added
    to a cursor makes it `NaN`, which ends the loop that tests it.

    `fixed` selects between the code as written (`false`) and the corrected
    equal-length paths (`true`) described under the findings: the corrected
    CREATE_ELEMENT copy starts at the length byte instead of the opcode, and
    the corrected TEXT_NODE copy keeps the length byte. */
module Patch {
  import opened Wrappers
  import opened Bytes
  import Vm

  /** A cursor: a JavaScript number that is `NaN` once `undefined` was added. */
  datatype Cursor = At(i: nat) | NaN

  /** What one loop iteration pushes, and where it leaves both cursors. */
  datatype StepOut = StepOut(emitted: seq<Byte>, prev: Cursor, next: Cursor)

  /** `p[i]`, with `undefined` converted to 0 as the final `Uint8Array` does. */
  function ByteAt(p: seq<Byte>, i: int): (r: Byte)
    ensures 0 <= i < |p| ==> r == p[i]
  {
    if 0 <= i < |p| then p[i] else 0
  }

  /** `count` pushes of `p[from]`, `p[from + 1]`, … */
  function Copy(p: seq<Byte>, from: nat, count: nat): (r: seq<Byte>)
    ensures |r| == count
    ensures from + count <= |p| ==> r == p[from..from + count]
  {
    var r := seq<Byte>(count, i => ByteAt(p, from + i));
    assert from + count <= |p| ==> r == p[from..from + count] by {
      if from + count <= |p| {
        forall k | 0 <= k < count
          ensures r[k] == p[from..from + count][k]
        {
          assert r[k] == ByteAt(p, from + k);
        }
      }
    }
    r
  }

  /** `index += length + 2`, where an `undefined` length gives `NaN`. */
  function Skip(index: nat, length: Option<Byte>): Cursor {
    match length
    case None => NaN
    case Some(l) => At(index + l + 2)
  }

  /** `for (i = 0; i < length; i++)` over a length that may be `undefined`. */
  function Count(length: Option<Byte>): nat {
    length.GetOr(0)
  }

  /** The three opcodes whose matching case reads a length byte. */
  predicate HasOperand(op: Byte) {
    op == Vm.OPCODE_CREATE_ELEMENT || op == Vm.OPCODE_SET_ATTRIBUTE || op == Vm.OPCODE_TEXT_NODE
  }

  /** What a matching CREATE_ELEMENT, SET_ATTRIBUTE or TEXT_NODE pushes. */
  function OperandBytes(prev: seq<Byte>, next: seq<Byte>, pi: nat, ni: nat, fixed: bool): (r: seq<Byte>)
    requires ni < |next| && HasOperand(next[ni])
    ensures |r| >= 1 && r[0] == next[ni]
  {
    var op := next[ni];
    var pl, nl := Read(prev, pi + 1), Read(next, ni + 1);
    var n := Count(nl);
    if op == Vm.OPCODE_CREATE_ELEMENT then
      if pl != nl then [op, nl.GetOr(0)] + Copy(next, ni + 2, n)
      else if nl.None? then [op]
      else if fixed then [op] + Copy(next, ni + 1, n + 1)
      else [op] + Copy(next, ni, n + 1)
    else if op == Vm.OPCODE_SET_ATTRIBUTE then [op, nl.GetOr(0)] + Copy(next, ni + 2, n)
    else if pl == nl && !fixed then [op] + Copy(next, ni + 2, n)
    else [op, nl.GetOr(0)] + Copy(next, ni + 2, n)
  }

  /** One iteration of the main loop. */
  function PatchStep(prev: seq<Byte>, next: seq<Byte>, pi: nat, ni: nat, fixed: bool): (r: StepOut)
    requires pi < |prev| && ni < |next|
    ensures r.next.NaN? || r.next.i > ni
    ensures |r.emitted| >= 1 && r.emitted[0] == next[ni]
    ensures prev[pi] != next[ni] ==> r == StepOut([next[ni]], At(pi), At(ni + 1))
    ensures prev[pi] == next[ni] && !HasOperand(next[ni]) ==> r == StepOut([next[ni]], At(pi + 1), At(ni + 1))
    ensures prev[pi] == next[ni] && HasOperand(next[ni])
      ==> r.prev == Skip(pi, Read(prev, pi + 1)) && r.next == Skip(ni, Read(next, ni + 1))
  {
    var op := next[ni];
    if prev[pi] != op then StepOut([op], At(pi), At(ni + 1))
    else if HasOperand(op) then
      StepOut(OperandBytes(prev, next, pi, ni, fixed), Skip(pi, Read(prev, pi + 1)), Skip(ni, Read(next, ni + 1)))
    else StepOut([op], At(pi + 1), At(ni + 1))
  }

  /** `while (nextIndex < nextBytecode.length) push(nextBytecode[nextIndex++])`. */
  function Tail(next: seq<Byte>, ni: Cursor): (r: seq<Byte>)
    ensures ni.At? && ni.i <= |next| ==> r == next[ni.i..]
    ensures ni.NaN? || ni.i >= |next| ==> r == []
  {
    if ni.At? && ni.i < |next| then next[ni.i..] else []
  }

  /** Bytes of `next` the main loop has not consumed. */
  function Pending(next: seq<Byte>, ni: Cursor): nat {
    if ni.At? && ni.i < |next| then |next| - ni.i else 0
  }

  /** The main loop from the given cursors, then the tail copy. */
  function PatchFrom(prev: seq<Byte>, next: seq<Byte>, pi: Cursor, ni: Cursor, fixed: bool): (r: seq<Byte>)
    ensures |r| > 0 <==> ni.At? && ni.i < |next|
    ensures |r| > 0 ==> r[0] == next[ni.i]
    decreases Pending(next, ni)
  {
    if pi.At? && ni.At? && pi.i < |prev| && ni.i < |next| then
      var s := PatchStep(prev, next, pi.i, ni.i, fixed);
      s.emitted + PatchFrom(prev, next, s.prev, s.next, fixed)
    else Tail(next, ni)
  }

  /** `patch(prevBytecode, nextBytecode)` as written. */
  function Patch(prev: seq<Byte>, next: seq<Byte>): (r: seq<Byte>)
    ensures |r| > 0 <==> |next| > 0
    ensures |r| > 0 ==> r[0] == next[0]
  {
    PatchFrom(prev, next, At(0), At(0), false)
  }

  /** `patch` with the two equal-length paths corrected. */
  function PatchFixed(prev: seq<Byte>, next: seq<Byte>): (r: seq<Byte>)
    ensures |r| > 0 <==> |next| > 0
    ensures |r| > 0 ==> r[0] == next[0]
  {
    PatchFrom(prev, next, At(0), At(0), true)
  }

  /** Once the main loop's condition fails, the merge is the tail copy,
      which pushes exactly the unconsumed bytes of `next`. */
  lemma {:induction false} TailIsRemainder(prev: seq<Byte>, next: seq<Byte>, pi: Cursor, ni: Cursor, fixed: bool)
    requires !(pi.At? && ni.At? && pi.i < |prev| && ni.i < |next|)
    ensures PatchFrom(prev, next, pi, ni, fixed) == Tail(next, ni)
    ensures |Tail(next, ni)| == Pending(next, ni)
    ensures Tail(next, ni) == next[|next| - Pending(next, ni)..]
  {
  }

  // ---------------------------------------------------------------------
  // Shifting: the merge only looks at the bytes after its cursors
  // ---------------------------------------------------------------------

  function Shift(c: Cursor, k: nat): Cursor {
    match c
    case NaN => NaN
    case At(i) => At(i + k)
  }

  lemma {:induction false} ReadSuffix(p: seq<Byte>, i: nat, x: nat)
    requires i <= |p|
    ensures Read(p, i + x) == Read(p[i..], x)
  {
  }

  lemma {:induction false} CopySuffix(p: seq<Byte>, i: nat, from: nat, count: nat)
    requires i <= |p|
    ensures Copy(p, i + from, count) == Copy(p[i..], from, count)
  {
    var a, b := Copy(p, i + from, count), Copy(p[i..], from, count);
    forall k | 0 <= k < count
      ensures a[k] == b[k]
    {
      assert a[k] == ByteAt(p, i + from + k);
      assert b[k] == ByteAt(p[i..], from + k);
    }
  }

  lemma {:induction false} StepShift(prev: seq<Byte>, next: seq<Byte>, i: nat, j: nat, pi: nat, ni: nat, fixed: bool)
    requires i + pi < |prev| && j + ni < |next|
    ensures var a := PatchStep(prev, next, i + pi, j + ni, fixed);
            var b := PatchStep(prev[i..], next[j..], pi, ni, fixed);
            a.emitted == b.emitted && a.prev == Shift(b.prev, i) && a.next == Shift(b.next, j)
  {
    ReadSuffix(prev, i, pi + 1);
    ReadSuffix(next, j, ni + 1);
    var n := Count(Read(next, j + ni + 1));
    CopySuffix(next, j, ni, n + 1);
    CopySuffix(next, j, ni + 1, n + 1);
    CopySuffix(next, j, ni + 2, n);
    assert next[j..][ni] == next[j + ni];
    assert prev[i..][pi] == prev[i + pi];
  }

  /** One iteration of the main loop, unfolded. */
  lemma {:induction false} UnfoldFrom(prev: seq<Byte>, next: seq<Byte>, pi: nat, ni: nat, fixed: bool)
    requires pi < |prev| && ni < |next|
    ensures var s := PatchStep(prev, next, pi, ni, fixed);
            PatchFrom(prev, next, At(pi), At(ni), fixed) == s.emitted + PatchFrom(prev, next, s.prev, s.next, fixed)
  {
  }

  /** The same, for cursors known to be in range. */
  lemma {:induction false} UnfoldCursor(prev: seq<Byte>, next: seq<Byte>, pc: Cursor, nc: Cursor, fixed: bool)
    requires pc.At? && nc.At? && pc.i < |prev| && nc.i < |next|
    ensures var s := PatchStep(prev, next, pc.i, nc.i, fixed);
            PatchFrom(prev, next, pc, nc, fixed) == s.emitted + PatchFrom(prev, next, s.prev, s.next, fixed)
  {
  }

  /** Once either cursor is past its end or `NaN`, both sides are the tail copy. */
  lemma {:induction false} ShiftTail(prev: seq<Byte>, next: seq<Byte>, i: nat, j: nat, pc: Cursor, nc: Cursor, fixed: bool)
    requires i <= |prev| && j <= |next|
    requires !(pc.At? && nc.At? && pc.i < |prev| - i && nc.i < |next| - j)
    ensures PatchFrom(prev, next, Shift(pc, i), Shift(nc, j), fixed) == Tail(next, Shift(nc, j))
    ensures PatchFrom(prev[i..], next[j..], pc, nc, fixed) == Tail(next[j..], nc)
    ensures Tail(next, Shift(nc, j)) == Tail(next[j..], nc)
  {
    if nc.At? && nc.i < |next| - j {
      assert next[j + nc.i..] == next[j..][nc.i..];
    }
  }

  /** `ShiftStep` once the two iterations are known to agree. */
  lemma {:induction false} ShiftGlue(prev: seq<Byte>, next: seq<Byte>, i: nat, j: nat, pc: Cursor, nc: Cursor,
                                     fixed: bool, a: StepOut, b: StepOut)
    requires pc.At? && nc.At?
    requires PatchFrom(prev, next, At(i + pc.i), At(j + nc.i), fixed) == a.emitted + PatchFrom(prev, next, a.prev, a.next, fixed)
    requires a.emitted == b.emitted && a.prev == Shift(b.prev, i) && a.next == Shift(b.next, j)
    ensures PatchFrom(prev, next, Shift(pc, i), Shift(nc, j), fixed)
         == b.emitted + PatchFrom(prev, next, Shift(b.prev, i), Shift(b.next, j), fixed)
  {
    assert Shift(pc, i) == At(i + pc.i) && Shift(nc, j) == At(j + nc.i);
  }

  /** One iteration on the whole programs, from cursors shifted by `i` and
      `j`, emits what the iteration on the suffixes emits and leaves the
      cursors shifted by the same amounts. */
  lemma {:induction false} ShiftStep(prev: seq<Byte>, next: seq<Byte>, i: nat, j: nat, pc: Cursor, nc: Cursor, fixed: bool)
    requires pc.At? && nc.At? && i + pc.i < |prev| && j + nc.i < |next|
    ensures var b := PatchStep(prev[i..], next[j..], pc.i, nc.i, fixed);
      PatchFrom(prev, next, Shift(pc, i), Shift(nc, j), fixed)
      == b.emitted + PatchFrom(prev, next, Shift(b.prev, i), Shift(b.next, j), fixed)
  {
    var a := PatchStep(prev, next, i + pc.i, j + nc.i, fixed);
    var b := PatchStep(prev[i..], next[j..], pc.i, nc.i, fixed);
    StepShift(prev, next, i, j, pc.i, nc.i, fixed);
    UnfoldFrom(prev, next, i + pc.i, j + nc.i, fixed);
    ShiftGlue(prev, next, i, j, pc, nc, fixed, a, b);
  }

  /** Running the merge from cursors `i + pc` and `j + nc` is running it on
      the suffixes `prev[i..]` and `next[j..]` from `pc` and `nc`. */
  lemma {:induction false} PatchFromShift(prev: seq<Byte>, next: seq<Byte>, i: nat, j: nat,
                                          pc: Cursor, nc: Cursor, fixed: bool)
    requires i <= |prev| && j <= |next|
    ensures PatchFrom(prev, next, Shift(pc, i), Shift(nc, j), fixed)
         == PatchFrom(prev[i..], next[j..], pc, nc, fixed)
    decreases Pending(next[j..], nc)
  {
    if pc.At? && nc.At? && pc.i < |prev| - i && nc.i < |next| - j {
      var b := PatchStep(prev[i..], next[j..], pc.i, nc.i, fixed);
      assert Pending(next[j..], b.next) < Pending(next[j..], nc);
      ShiftStep(prev, next, i, j, pc, nc, fixed);
      UnfoldCursor(prev[i..], next[j..], pc, nc, fixed);
      PatchFromShift(prev, next, i, j, b.prev, b.next, fixed);
    } else {
      ShiftTail(prev, next, i, j, pc, nc, fixed);
    }
  }

  /** The merge restarted on the unconsumed suffixes. */
  lemma {:induction false} ResumeAt(prev: seq<Byte>, next: seq<Byte>, i: nat, j: nat, fixed: bool)
    requires i <= |prev| && j <= |next|
    ensures PatchFrom(prev, next, At(i), At(j), fixed) == PatchFrom(prev[i..], next[j..], At(0), At(0), fixed)
  {
    PatchFromShift(prev, next, i, j, At(0), At(0), fixed);
  }

  // ---------------------------------------------------------------------
  // The per-opcode rules, stated on `Patch` itself
  // ---------------------------------------------------------------------

  /** An empty old program: the loop is skipped and `next` is copied. */
  lemma {:induction false} PatchEmptyPrev(next: seq<Byte>)
    ensures Patch([], next) == next
  {
  }

  /** An empty new program: the result is empty whatever the old one was. */
  lemma {:induction false} PatchEmptyNext(prev: seq<Byte>)
    ensures Patch(prev, []) == []
  {
  }

  /** Different opcodes: only the new byte is emitted and only the new
      cursor moves, by one. */
  lemma {:induction false} PatchOpcodeMismatch(prev: seq<Byte>, next: seq<Byte>)
    requires |prev| > 0 && |next| > 0 && prev[0] != next[0]
    ensures Patch(prev, next) == [next[0]] + Patch(prev, next[1..])
  {
    ResumeAt(prev, next, 0, 1, false);
  }

  /** An opcode other than CREATE_ELEMENT, SET_ATTRIBUTE and TEXT_NODE that
      matches is emitted once and both cursors move by one. */
  lemma {:induction false} PatchPlainOpcode(prev: seq<Byte>, next: seq<Byte>)
    requires |prev| > 0 && |next| > 0 && prev[0] == next[0]
    requires !HasOperand(next[0])
    ensures Patch(prev, next) == [next[0]] + Patch(prev[1..], next[1..])
  {
    ResumeAt(prev, next, 1, 1, false);
  }

  /** A matching CREATE_ELEMENT, SET_ATTRIBUTE or TEXT_NODE whose length
      bytes lie inside both programs: the iteration emits `OperandBytes`,
      and the merge resumes after each program's own segment. */
  lemma {:induction false} PatchMatchedOperand(prev: seq<Byte>, next: seq<Byte>)
    requires |prev| >= 2 && |next| >= 2 && prev[0] == next[0] && HasOperand(next[0])
    requires prev[1] + 2 <= |prev| && next[1] + 2 <= |next|
    ensures Patch(prev, next) == OperandBytes(prev, next, 0, 0, false)
                                 + Patch(prev[prev[1] + 2..], next[next[1] + 2..])
  {
    var i, j := prev[1] as int + 2, next[1] as int + 2;
    var s := PatchStep(prev, next, 0, 0, false);
    assert s == StepOut(OperandBytes(prev, next, 0, 0, false), At(i), At(j));
    UnfoldFrom(prev, next, 0, 0, false);
    ResumeAt(prev, next, i, j, false);
  }

  /** Matching CREATE_ELEMENT with different tag lengths: the new segment
      `[0x01, newLen, newTag…]` is emitted verbatim and each cursor skips its
      own segment. */
  lemma {:induction false} PatchCreateElementNewLength(prev: seq<Byte>, next: seq<Byte>)
    requires |prev| >= 2 && |next| >= 2
    requires prev[0] == next[0] == Vm.OPCODE_CREATE_ELEMENT && prev[1] != next[1]
    requires prev[1] + 2 <= |prev| && next[1] + 2 <= |next|
    ensures Patch(prev, next) == next[..next[1] + 2] + Patch(prev[prev[1] + 2..], next[next[1] + 2..])
  {
    PatchMatchedOperand(prev, next);
    assert next[..next[1] + 2] == [next[0], next[1]] + next[2..next[1] + 2];
  }

  /** Matching CREATE_ELEMENT with equal tag lengths, as written: the copy
      loop starts at the opcode, so the output holds the opcode twice and
      loses the last tag byte. */
  lemma {:induction false} PatchCreateElementSameLength(prev: seq<Byte>, next: seq<Byte>)
    requires |prev| >= 2 && |next| >= 2
    requires prev[0] == next[0] == Vm.OPCODE_CREATE_ELEMENT && prev[1] == next[1]
    requires next[1] + 2 <= |prev| && next[1] + 2 <= |next|
    ensures Patch(prev, next) == [Vm.OPCODE_CREATE_ELEMENT] + next[..next[1] + 1]
                                 + Patch(prev[next[1] + 2..], next[next[1] + 2..])
  {
    PatchMatchedOperand(prev, next);
  }

  /** Matching SET_ATTRIBUTE: always the new length byte `L` and the `L`
      bytes after it; each cursor skips its own `length + 2`. */
  lemma {:induction false} PatchSetAttribute(prev: seq<Byte>, next: seq<Byte>)
    requires |prev| >= 2 && |next| >= 2
    requires prev[0] == next[0] == Vm.OPCODE_SET_ATTRIBUTE
    requires prev[1] + 2 <= |prev| && next[1] + 2 <= |next|
    ensures Patch(prev, next) == next[..next[1] + 2] + Patch(prev[prev[1] + 2..], next[next[1] + 2..])
  {
    PatchMatchedOperand(prev, next);
    assert next[..next[1] + 2] == [next[0], next[1]] + next[2..next[1] + 2];
  }

  /** Matching TEXT_NODE: the opcode and the new text; the new length byte
      only when the two lengths differ. */
  lemma {:induction false} PatchTextNode(prev: seq<Byte>, next: seq<Byte>)
    requires |prev| >= 2 && |next| >= 2
    requires prev[0] == next[0] == Vm.OPCODE_TEXT_NODE
    requires prev[1] + 2 <= |prev| && next[1] + 2 <= |next|
    ensures prev[1] == next[1] ==>
      Patch(prev, next) == [Vm.OPCODE_TEXT_NODE] + next[2..next[1] + 2]
                           + Patch(prev[prev[1] + 2..], next[next[1] + 2..])
    ensures prev[1] != next[1] ==>
      Patch(prev, next) == next[..next[1] + 2] + Patch(prev[prev[1] + 2..], next[next[1] + 2..])
  {
    PatchMatchedOperand(prev, next);
    assert next[..next[1] + 2] == [next[0], next[1]] + next[2..next[1] + 2];
  }

  /** The worked example: `div` replaced by `span` takes the length-mismatch path. */
  lemma {:induction false} PatchTagExample()
    ensures Patch([0x01, 3, 0x64, 0x69, 0x76], [0x01, 4, 0x73, 0x70, 0x61, 0x6e])
         == [0x01, 4, 0x73, 0x70, 0x61, 0x6e]
  {
    PatchCreateElementNewLength([0x01, 3, 0x64, 0x69, 0x76], [0x01, 4, 0x73, 0x70, 0x61, 0x6e]);
  }

  // ---------------------------------------------------------------------
  // Patching a program with itself
  // ---------------------------------------------------------------------

  /** No byte of `p` from `i` on is CREATE_ELEMENT, SET_ATTRIBUTE or TEXT_NODE. */
  predicate PlainFrom(p: seq<Byte>, i: nat) {
    forall k :: i <= k < |p| ==> !HasOperand(p[k])
  }

  lemma {:induction false} PatchSelfPlainFrom(p: seq<Byte>, i: nat)
    requires i <= |p| && PlainFrom(p, i)
    ensures PatchFrom(p, p, At(i), At(i), false) == p[i..]
    decreases |p| - i
  {
    if i < |p| {
      PatchSelfPlainFrom(p, i + 1);
      assert p[i..] == [p[i]] + p[i + 1..];
    }
  }

  /** `patch(P, P) == P` for programs built only from the other opcodes. */
  lemma {:induction false} PatchSelfPlain(p: seq<Byte>)
    requires PlainFrom(p, 0)
    ensures Patch(p, p) == p
  {
    PatchSelfPlainFrom(p, 0);
  }

  /** Walking `p` from `i` the way the merge walks a program, every length
      byte and the bytes it counts lie inside `p`. */
  predicate SegmentsFit(p: seq<Byte>, i: nat)
    decreases if i <= |p| then |p| - i else 0
  {
    i <= |p| &&
    (i == |p| ||
     if HasOperand(p[i]) then
       i + 1 < |p| && i + 2 + p[i + 1] <= |p| && SegmentsFit(p, i + 2 + p[i + 1])
     else SegmentsFit(p, i + 1))
  }

  /** One corrected step on a segment that fits copies the segment. */
  lemma {:induction false} FixedStepSelf(p: seq<Byte>, i: nat)
    requires i + 1 < |p| && i + 2 + p[i + 1] <= |p|
    requires HasOperand(p[i])
    ensures var k := i + 2 + p[i + 1];
      PatchStep(p, p, i, i, true) == StepOut(p[i..k], At(k), At(k))
  {
    var k := i + 2 + p[i + 1];
    var s := PatchStep(p, p, i, i, true);
    assert p[i..k] == [p[i], p[i + 1]] + p[i + 2..k];
    if p[i] == Vm.OPCODE_CREATE_ELEMENT {
      assert p[i + 1..k] == [p[i + 1]] + p[i + 2..k];
      assert s.emitted == [p[i]] + Copy(p, i + 1, p[i + 1] as int + 1);
    }
  }

  lemma {:induction false} PatchFixedSelfFrom(p: seq<Byte>, i: nat)
    requires SegmentsFit(p, i)
    ensures PatchFrom(p, p, At(i), At(i), true) == p[i..]
    decreases |p| - i
  {
    if i < |p| {
      UnfoldFrom(p, p, i, i, true);
      var s := PatchStep(p, p, i, i, true);
      if HasOperand(p[i]) {
        var k := i + 2 + p[i + 1];
        FixedStepSelf(p, i);
        assert s.emitted == p[i..k] && s.prev == At(k) && s.next == At(k);
        PatchFixedSelfFrom(p, k);
        assert p[i..] == p[i..k] + p[k..];
      } else {
        assert s.emitted == [p[i]] && s.prev == At(i + 1) && s.next == At(i + 1);
        PatchFixedSelfFrom(p, i + 1);
        assert p[i..] == [p[i]] + p[i + 1..];
      }
    }
  }

  /** With the equal-length paths corrected, patching a program with itself
      gives it back whenever its length fields stay inside it. */
  lemma {:induction false} PatchFixedSelf(p: seq<Byte>)
    requires SegmentsFit(p, 0)
    ensures PatchFixed(p, p) == p
  {
    PatchFixedSelfFrom(p, 0);
  }

  /** As written, a CREATE_ELEMENT patched with itself comes out wrong:
      `[1, 3, 'd', 'i', 'v']` becomes `[1, 1, 3, 'd', 'i']`. */
  lemma {:induction false} PatchSelfCreateElementAsWritten()
    ensures Patch([0x01, 3, 0x64, 0x69, 0x76], [0x01, 3, 0x64, 0x69, 0x76])
         == [0x01, 0x01, 3, 0x64, 0x69]
  {
    PatchCreateElementSameLength([0x01, 3, 0x64, 0x69, 0x76], [0x01, 3, 0x64, 0x69, 0x76]);
  }

  /** As written, a TEXT_NODE patched with itself loses its length byte:
      `[6, 2, 'h', 'i']` becomes `[6, 'h', 'i']`. */
  lemma {:induction false} PatchSelfTextAsWritten()
    ensures Patch([0x06, 2, 0x68, 0x69], [0x06, 2, 0x68, 0x69]) == [0x06, 0x68, 0x69]
  {
    PatchTextNode([0x06, 2, 0x68, 0x69], [0x06, 2, 0x68, 0x69]);
  }
}
