/** How the encoders' output meets the virtual machine: which segments the
    machine decodes back into what was encoded, and which it does not. */
module Interop {
  import opened Wrappers
  import opened Bytes
  import Vm
  import Views
  import Target

  /** Storing a byte-range string into a `Uint8Array` and reading it back
      with `String.fromCharCode` gives the string back. */
  lemma {:induction false} ByteStringRoundTrip(s: JsString)
    requires IsByteString(s)
    ensures BytesString(StringBytes(s)) == s
  {
  }

  /** Bytes `from .. from + |seg|` of `prefix + seg + suffix` are `seg`. */
  lemma {:induction false} SliceOfMiddle(prefix: seq<Byte>, seg: seq<Byte>, suffix: seq<Byte>, a: nat, b: nat)
    requires a <= b <= |seg|
    ensures Slice(prefix + seg + suffix, |prefix| + a, |prefix| + b) == seg[a..b]
  {
    assert (prefix + seg + suffix)[|prefix| + a..|prefix| + b] == seg[a..b];
  }

  /** The program bytes of an embedded segment. */
  lemma {:induction false} ByteOfMiddle(prefix: seq<Byte>, seg: seq<Byte>, suffix: seq<Byte>, i: nat)
    requires i < |seg|
    ensures Read(prefix + seg + suffix, |prefix| + i) == Some(seg[i])
  {
  }

  /** What SET_ATTRIBUTE's reads return when it decodes `key` and `value`
      from the operands starting at `p`. */
  predicate AttrOperandsAt(program: seq<Byte>, p: nat, key: JsString, value: JsString)
  {
    && Read(program, p) == Some(|key| + 1)
    && BytesString(Slice(program, p + 1, p + |key| + 1)) == key
    && Read(program, p + |key| + 1) == Some(Vm.OPCODE_NOP)
    && Read(program, p + |key| + 2) == Some(|value|)
    && BytesString(Slice(program, p + |key| + 3, p + |key| + 3 + |value|)) == value
  }

  /** SET_ATTRIBUTE's result, given what its reads return: it continues at
      `end`, right after the value. */
  lemma {:induction false} SetAttributeFromReads(m: Vm.Machine, p: nat, key: JsString, value: JsString, end: nat)
    requires m.pc == Vm.At(p) && AttrOperandsAt(m.program, p, key, value)
    requires end == p + |key| + |value| + 3
    requires m.elementCount - 1 in m.elementMap && m.elementMap[m.elementCount - 1].ElementNode?
    ensures Vm.SetAttributeOp(m) == Success(m.(pc := Vm.At(end),
                                               host := m.host + [Vm.SetAttribute(m.elementMap[m.elementCount - 1], key, value)]))
  {
    var nameEnd, vp := p + |key| + 1, p + |key| + 2;
    assert Read(m.program, p) == Some(|key| + 1);
    assert Read(m.program, nameEnd) == Some(Vm.OPCODE_NOP);
    assert Read(m.program, vp) == Some(|value|);
    assert BytesString(Slice(m.program, p + 1, nameEnd)) == key;
    assert BytesString(Slice(m.program, vp + 1, vp + 1 + |value|)) == value;
    assert Vm.Lookup(m, Some(m.elementCount - 1)) == Some(m.elementMap[m.elementCount - 1]);
  }

  /** The opcode, the key-length byte and the key of an `attr(key, value)`
      segment, read back from a program that embeds it. */
  lemma {:induction false} AttrKeyReads(program: seq<Byte>, prefix: seq<Byte>, key: JsString, value: JsString, suffix: seq<Byte>)
    requires IsByteString(key) && |key| + 1 < 0x100 && |value| < 0x100
    requires program == prefix + Views.AttrSegment(key, value) + suffix
    ensures Read(program, |prefix|) == Some(Vm.OPCODE_SET_ATTRIBUTE)
    ensures Read(program, |prefix| + 1) == Some(|key| + 1)
    ensures BytesString(Slice(program, |prefix| + 2, |prefix| + |key| + 2)) == key
  {
    var seg := Views.AttrSegment(key, value);
    Views.AttrSegmentLayout(key, value);
    ByteOfMiddle(prefix, seg, suffix, 0);
    ByteOfMiddle(prefix, seg, suffix, 1);
    SliceOfMiddle(prefix, seg, suffix, 2, |key| + 2);
    ByteStringRoundTrip(key);
  }

  /** The delimiter, the value-length byte and the value of an
      `attr(key, value)` segment, read back from a program that embeds it. */
  lemma {:induction false} AttrValueReads(program: seq<Byte>, prefix: seq<Byte>, key: JsString, value: JsString, suffix: seq<Byte>)
    requires IsByteString(value) && |key| + 1 < 0x100 && |value| < 0x100
    requires program == prefix + Views.AttrSegment(key, value) + suffix
    ensures Read(program, |prefix| + |key| + 2) == Some(Vm.OPCODE_NOP)
    ensures Read(program, |prefix| + |key| + 3) == Some(|value|)
    ensures BytesString(Slice(program, |prefix| + |key| + 4, |prefix| + |key| + 4 + |value|)) == value
  {
    var seg, k, v := Views.AttrSegment(key, value), |key|, |value|;
    Views.AttrSegmentLayout(key, value);
    ByteOfMiddle(prefix, seg, suffix, k + 2);
    ByteOfMiddle(prefix, seg, suffix, k + 3);
    SliceOfMiddle(prefix, seg, suffix, k + 4, k + v + 4);
    ByteStringRoundTrip(value);
  }

  /** What SET_ATTRIBUTE's reads return on an `attr(key, value)` segment. */
  lemma {:induction false} AttrSegmentReads(program: seq<Byte>, prefix: seq<Byte>, key: JsString, value: JsString, suffix: seq<Byte>)
    requires IsByteString(key) && IsByteString(value)
    requires |key| + 1 < 0x100 && |value| < 0x100
    requires program == prefix + Views.AttrSegment(key, value) + suffix
    ensures Read(program, |prefix|) == Some(Vm.OPCODE_SET_ATTRIBUTE)
    ensures AttrOperandsAt(program, |prefix| + 1, key, value)
  {
    AttrKeyReads(program, prefix, key, value, suffix);
    AttrValueReads(program, prefix, key, value, suffix);
  }

  /** `seg` sits in `program` starting at byte `at`. */
  predicate SegmentAt(program: seq<Byte>, at: nat, seg: seq<Byte>)
  {
    at + |seg| <= |program| && program[at..at + |seg|] == seg
  }

  /** Wherever an `attr(key, value)` segment sits in a program, its first
      byte is SET_ATTRIBUTE's opcode and the bytes after it read back as
      `key` and `value`. */
  lemma {:induction false} AttrSegmentDecodes(program: seq<Byte>, at: nat, key: JsString, value: JsString)
    requires IsByteString(key) && IsByteString(value)
    requires |key| + 1 < 0x100 && |value| < 0x100
    requires SegmentAt(program, at, Views.AttrSegment(key, value))
    ensures Read(program, at) == Some(Vm.OPCODE_SET_ATTRIBUTE)
    ensures AttrOperandsAt(program, at + 1, key, value)
  {
    var seg := Views.AttrSegment(key, value);
    var prefix, suffix := program[..at], program[at + |seg|..];
    assert program == prefix + seg + suffix;
    AttrSegmentReads(program, prefix, key, value, suffix);
  }

  /** The round trip the attribute encoding supports: wherever an
      `attr(key, value)` segment sits in the program, its first byte is
      SET_ATTRIBUTE's opcode, and once the machine has fetched it (`run()`
      then hands over to SET_ATTRIBUTE, see `Vm.StepSetAttribute`) with the
      last created node an element, it sets exactly that attribute on it and
      continues right after the segment. */
  lemma {:induction false} AttrSegmentRoundTrip(m: Vm.Machine, at: nat, key: JsString, value: JsString)
    requires IsByteString(key) && IsByteString(value)
    requires |key| + 1 < 0x100 && |value| < 0x100
    requires SegmentAt(m.program, at, Views.AttrSegment(key, value))
    requires m.pc == Vm.At(at + 1)
    requires m.elementCount - 1 in m.elementMap && m.elementMap[m.elementCount - 1].ElementNode?
    ensures Read(m.program, at) == Some(Vm.OPCODE_SET_ATTRIBUTE)
    ensures Vm.SetAttributeOp(m) == Success(m.(pc := Vm.At(at + |key| + |value| + 4),
                                               host := m.host + [Vm.SetAttribute(m.elementMap[m.elementCount - 1], key, value)]))
  {
    AttrSegmentDecodes(m.program, at, key, value);
    SetAttributeFromReads(m, at + 1, key, value, at + |key| + |value| + 4);
  }

  /** What the native `set_attribute` appends to an unlocked buffer. */
  lemma {:induction false} NativeSetAttributeBytes(b: Target.Buffer, name: seq<Byte>, nameLen: Byte,
                                                   value: seq<Byte>, valueLen: Byte)
    requires !b.locked && 0 < nameLen <= |name| && 0 < valueLen <= |value|
    ensures Target.SetAttribute(b, Some(name), nameLen, Some(value), valueLen).contents
         == b.contents + [Target.OPCODE_SET_ATTRIBUTE, nameLen] + name[..nameLen] + [valueLen] + value[..valueLen]
  {
  }

  /** The native `set_attribute` writes no NOP delimiter and no `+ 1` on the
      name length, so the machine reads the name's last byte where it
      expects the delimiter: it rejects the segment exactly when that byte
      is not 0x0b. */
  lemma {:induction false} NativeSetAttributeRejected(b: Target.Buffer, name: seq<Byte>, nameLen: Byte,
                                                      value: seq<Byte>, valueLen: Byte, m: Vm.Machine)
    requires !b.locked && 0 < nameLen <= |name| && 0 < valueLen <= |value|
    requires m.program == Target.SetAttribute(b, Some(name), nameLen, Some(value), valueLen).contents
    requires m.pc == Vm.At(|b.contents| + 1)
    ensures Vm.SetAttributeOp(m) == Failure(Vm.MissingNopDelimiter) <==> name[nameLen - 1] != Vm.OPCODE_NOP
  {
    var p := |b.contents| + 1;
    NativeSetAttributeBytes(b, name, nameLen, value, valueLen);
    var head := b.contents + [Target.OPCODE_SET_ATTRIBUTE, nameLen];
    var rest := name[..nameLen] + [valueLen] + value[..valueLen];
    assert m.program == head + rest;
    assert p < |m.program| && m.program[p] == nameLen;
    assert m.program[p + nameLen] == rest[nameLen - 1] == name[nameLen - 1];
    assert Read(m.program, p + m.program[p]) == Some(name[nameLen - 1]);
    Vm.SetAttributeFailures(m);
  }

  /** What the native `create_element` appends to an unlocked buffer. */
  lemma {:induction false} NativeCreateElementBytes(b: Target.Buffer, tag: seq<Byte>, len: Byte)
    requires !b.locked && 0 < len <= |tag|
    ensures Target.CreateElement(b, Some(tag), len).contents
         == b.contents + [Target.OPCODE_CREATE_ELEMENT, len] + tag[..len]
  {
  }

  /** CREATE_ELEMENT entered just past the opcode of a `[0x01, len, tag…]`
      segment creates an element with that tag and continues right after it. */
  lemma {:induction false} CreateElementSegmentDecodes(m: Vm.Machine, prefix: seq<Byte>, tag: seq<Byte>, len: Byte, suffix: seq<Byte>)
    requires |tag| == len
    requires m.program == prefix + ([Vm.OPCODE_CREATE_ELEMENT, len] + tag) + suffix
    requires m.pc == Vm.At(|prefix| + 1)
    requires !Vm.IsBlank(BytesString(tag))
    ensures Vm.CreateElementOp(m).Success?
    ensures Vm.CreateElementOp(m).value.pc == Vm.At(|prefix| + 2 + len)
    ensures Vm.CreateElementOp(m).value.host == m.host + [Vm.CreateElement(BytesString(tag))]
    ensures Vm.CreateElementOp(m).value.elementCount == m.elementCount + 1
  {
    var seg := [Vm.OPCODE_CREATE_ELEMENT, len] + tag;
    ByteOfMiddle(prefix, seg, suffix, 1);
    SliceOfMiddle(prefix, seg, suffix, 2, len + 2);
    assert seg[2..len + 2] == tag;
    assert Vm.TagAt(m.program, |prefix| + 1) == BytesString(tag);
  }

  /** The native `create_element` segment is one the machine decodes: once
      `run()` has fetched its opcode (see `Vm.StepCreateElement`), it creates
      an element with that tag and continues right after the segment. */
  lemma {:induction false} NativeCreateElementDecodes(b: Target.Buffer, tag: seq<Byte>, len: Byte, suffix: seq<Byte>, m: Vm.Machine)
    requires !b.locked && 0 < len <= |tag|
    requires m.program == Target.CreateElement(b, Some(tag), len).contents + suffix
    requires m.pc == Vm.At(|b.contents| + 1)
    requires !Vm.IsBlank(BytesString(tag[..len]))
    ensures m.program[|b.contents|] == Vm.OPCODE_CREATE_ELEMENT
    ensures Vm.CreateElementOp(m).Success?
    ensures Vm.CreateElementOp(m).value.pc == Vm.At(|b.contents| + 2 + len)
    ensures Vm.CreateElementOp(m).value.host == m.host + [Vm.CreateElement(BytesString(tag[..len]))]
    ensures Vm.CreateElementOp(m).value.elementCount == m.elementCount + 1
  {
    NativeCreateElementBytes(b, tag, len);
    assert m.program == b.contents + ([Target.OPCODE_CREATE_ELEMENT, len] + tag[..len]) + suffix;
    CreateElementSegmentDecodes(m, b.contents, tag[..len], len, suffix);
  }

  /** The native NOP (0x00) and APPEND_SIBLING (0x0B) are bytes the machine
      treats as the end of the program. */
  lemma {:induction false} NativeOnlyOpcodesHalt(m: Vm.Machine)
    requires Vm.Running(m)
    requires m.program[m.pc.n] == Target.OPCODE_NOP || m.program[m.pc.n] == Target.OPCODE_APPEND_SIBLING
    ensures Vm.Step(m) == Success(m.(pc := Vm.At(|m.program|)))
    ensures !Vm.Running(Vm.Step(m).value)
  {
  }

  /** Encoding a `Text` and running it is not a round trip: on a fresh
      machine TEXT_NODE takes its length from the operand stack (where the
      pointer slot reads back as 1), creates a text node holding one NUL,
      and leaves `pc` on the encoded length byte, which is then fetched as
      an opcode. The encoded characters are never read. */
  lemma {:induction false} TextIsNotRoundTrip(t: JsString)
    ensures var m := Vm.NewMachine(Views.Render(Views.Text(t)));
            && Vm.Running(m)
            && Vm.Step(m).Success?
            && Vm.Step(m).value.pc == Vm.At(1)
            && Vm.Step(m).value.host == [Vm.CreateTextNode([0])]
  {
    var m := Vm.NewMachine(Views.Render(Views.Text(t)));
    assert m.program[0] == Vm.OPCODE_TEXT_NODE;
    var m1 := m.(pc := Vm.At(1));
    var (m2, length) := Vm.Pop(m1);
    assert length == Some(1);
    assert m2.stack[0] == 1;
    assert Vm.DecodeUtf16(m2, length).Success?;
    assert Vm.DecodeUtf16(m2, length).value.1 == Vm.Zeros(1) == [0];
  }
}
