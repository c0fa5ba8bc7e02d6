/** The bytecode virtual machine of `src/vm.ts`: a program counter, an
    `Int32Array` operand stack whose slot 0 holds the stack pointer, a
    never-written scratch memory, and a table from element id to host node.
    The DOM is an abstract host: every call the machine makes on it is
    appended to a log, and a node handle is the log position of the call
    that created it. */
module Vm {
  import opened Wrappers
  import opened Bytes

  const OPCODE_CREATE_ELEMENT: Byte := 0x01
  const OPCODE_SET_ATTRIBUTE: Byte := 0x02
  const OPCODE_APPEND_CHILD: Byte := 0x03
  const OPCODE_REMOVE_CHILD: Byte := 0x04
  const OPCODE_REPLACE_CHILD: Byte := 0x05
  const OPCODE_TEXT_NODE: Byte := 0x06
  const OPCODE_SET_TEXT: Byte := 0x07
  const OPCODE_REMOVE_ATTRIBUTE: Byte := 0x08
  const OPCODE_STYLE: Byte := 0x09
  const OPCODE_EVENT_LISTENER: Byte := 0x0a
  const OPCODE_NOP: Byte := 0x0b

  const STACK_SIZE: nat := 1024
  const MEMORY_SIZE: nat := 1024

  /** The `Int32Array(1024)` operand stack; slot 0 is the stack pointer. */
  type Stack = s: seq<Int32> | |s| == STACK_SIZE witness seq(STACK_SIZE, i => 0)

  /** A JavaScript number used as a position: `NaN` once `undefined` was added to it. */
  datatype Pc = At(n: nat) | NaN

  /** An opaque host node; only its kind matters to the machine, because
      text nodes have no `setAttribute`, `removeAttribute` or `style`. */
  datatype HostNode = ElementNode(handle: nat) | TextNode(handle: nat)

  /** One call the machine makes on the host document. */
  datatype HostCall =
    | CreateElement(tagName: JsString)
    | CreateTextNode(text: JsString)
    | SetAttribute(element: HostNode, name: JsString, value: JsString)
    | AppendChild(parent: HostNode, child: HostNode)
    | RemoveChild(parent: HostNode, child: HostNode)
    | ReplaceChild(parent: HostNode, newChild: HostNode, oldChild: HostNode)
    | SetNodeValue(node: HostNode, text: JsString)
    | RemoveAttribute(element: HostNode, name: JsString)
    | SetStyle(element: HostNode, name: JsString, value: JsString)
    | AddEventListener(target: HostNode, eventType: JsString, callbackId: Option<Int32>)

  /** The exceptions `run()` can propagate. `TypeError` is JavaScript's own,
      raised when a handler calls a method on `undefined` (an absent table
      entry) or a method a text node lacks; `RangeError` is raised by the
      `Uint8Array` view in `decodeUTF16String`. */
  datatype VmError = InvalidTagName | MissingNopDelimiter | InvalidElementId | TypeError | RangeError

  datatype Machine = Machine(
    pc: Pc,
    stack: Stack,
    program: seq<Byte>,
    elementMap: map<int, HostNode>,
    elementCount: nat,
    host: seq<HostCall>)

  /** The constructor: `pc = 0`, a zeroed stack (so the pointer is 0), an
      empty element table. */
  function NewMachine(program: seq<Byte>): Machine {
    Machine(At(0), seq(STACK_SIZE, i => 0), program, map[], 0, [])
  }

  /** The element table holds exactly the ids `0 .. elementCount - 1`. */
  predicate TableInvariant(m: Machine) {
    && (forall id :: id in m.elementMap ==> 0 <= id < m.elementCount)
    && (forall id :: 0 <= id < m.elementCount ==> id in m.elementMap)
  }

  /** True while `run()` keeps looping. */
  predicate Running(m: Machine) {
    m.pc.At? && m.pc.n < |m.program|
  }

  // ---------------------------------------------------------------------
  // Operand stack
  // ---------------------------------------------------------------------

  /** `this.stack[--this.stack[0]] = value`: the pointer slot is decremented
      first, then the value is stored at the decremented index, which a
      typed array silently drops when it is out of range. */
  function PushStack(stack: Stack, value: int): (r: Stack)
    ensures forall i :: 0 < i < STACK_SIZE ==>
      r[i] == if i == stack[0] as int - 1 then ToInt32(value) else stack[i]
    ensures r[0] == if stack[0] == 1 then ToInt32(value) else ToInt32(stack[0] as int - 1)
  {
    var key := stack[0] as int - 1;
    var s: Stack := stack[0 := ToInt32(key)];
    if 0 <= key < STACK_SIZE then s[key := ToInt32(value)] else s
  }

  /** The same push on a machine: nothing but the stack changes. */
  function Push(m: Machine, value: int): (r: Machine)
    ensures r == m.(stack := r.stack)
    ensures forall i :: 0 < i < STACK_SIZE ==>
      r.stack[i] == if i == m.stack[0] as int - 1 then ToInt32(value) else m.stack[i]
    ensures r.stack[0] == if m.stack[0] == 1 then ToInt32(value) else ToInt32(m.stack[0] as int - 1)
  {
    m.(stack := PushStack(m.stack, value))
  }

  /** `this.stack[this.stack[0]++]`: the pointer slot is incremented first,
      then the old pointer is used as the index; out of range reads
      `undefined`. */
  function Pop(m: Machine): (r: (Machine, Option<Int32>))
    ensures r.0 == m.(stack := r.0.stack)
    ensures r.0.stack[0] == ToInt32(m.stack[0] as int + 1)
    ensures forall i :: 0 < i < STACK_SIZE ==> r.0.stack[i] == m.stack[i]
    ensures r.1.Some? <==> 0 <= m.stack[0] < STACK_SIZE
    ensures r.1.Some? ==> r.1.value == r.0.stack[m.stack[0]]
  {
    var key := m.stack[0];
    var s: Stack := m.stack[0 := ToInt32(key + 1)];
    (m.(stack := s), if 0 <= key < STACK_SIZE then Some(s[key]) else None)
  }

  /** A push followed by a pop leaves the pointer where it was, and the pop
      returns the pushed value (as stored in an `Int32Array`) when it was
      stored in one of the slots `1 .. 1023`. Only a push at pointer 1
      breaks this: it stores into slot 0 and overwrites the pointer. */
  lemma {:induction false} PushThenPop(m: Machine, value: int)
    requires m.stack[0] != 1
    ensures var (m2, v) := Pop(Push(m, value));
            && m2.stack[0] == m.stack[0]
            && (v.Some? <==> 1 < m.stack[0] <= STACK_SIZE)
            && (v.Some? ==> v.value == ToInt32(value))
  {
    var p := m.stack[0] as int;
    var m1 := Push(m, value);
    assert m1.stack[0] == ToInt32(p - 1);
    if p == -0x8000_0000 {
      assert m1.stack[0] == 0x7FFF_FFFF;
    } else {
      assert m1.stack[0] == p - 1;
    }
  }

  /** `this.elementMap.get(id)`, where `get(undefined)` is `undefined`. */
  function Lookup(m: Machine, id: Option<int>): (r: Option<HostNode>)
    ensures r.Some? <==> id.Some? && id.value in m.elementMap
    ensures r.Some? ==> r.value == m.elementMap[id.value]
  {
    if id.Some? && id.value in m.elementMap then Some(m.elementMap[id.value]) else None
  }

  /** `Math.ceil(n / 4)` for a non-negative `n`. */
  function CeilQuarter(n: nat): (r: nat)
    ensures 4 * r >= n && 4 * (r - 1) < n
  {
    (n + 3) / 4
  }

  function Zeros(n: nat): (r: JsString)
    ensures |r| == n && forall i :: 0 <= i < n ==> r[i] == 0
  {
    seq(n, i => 0)
  }

  /** `decodeUTF16String(length)`: a `Uint8Array` view of the scratch memory
      at offset `stack[0]`. The memory is never written, so the string is
      all NUL code units. A negative offset or length, or a view past the
      1024 bytes, raises `RangeError`; an `undefined` length views the rest
      of the memory and then turns the pointer into `NaN`, stored as 0. */
  function DecodeUtf16(m: Machine, length: Option<Int32>): (r: Result<(Machine, JsString), VmError>)
    ensures r.Failure? ==> r.error == RangeError
    ensures r.Success? ==> r.value.0 == m.(stack := r.value.0.stack)
    ensures r.Success? ==> forall i :: 0 < i < STACK_SIZE ==> r.value.0.stack[i] == m.stack[i]
    ensures r.Success? <==> 0 <= m.stack[0] && match length
      case None => m.stack[0] <= MEMORY_SIZE
      case Some(n) => 0 <= n && m.stack[0] + n <= MEMORY_SIZE
    ensures r.Success? ==> r.value.1 == Zeros(|r.value.1|)
    ensures r.Success? && length.Some? ==> |r.value.1| == length.value
  {
    var offset := m.stack[0];
    if offset < 0 then Failure(RangeError)
    else match length
      case None =>
        if offset > MEMORY_SIZE then Failure(RangeError)
        else Success((m.(stack := m.stack[0 := 0]), Zeros(MEMORY_SIZE - offset)))
      case Some(n) =>
        if n < 0 || offset + n > MEMORY_SIZE then Failure(RangeError)
        else Success((m.(stack := m.stack[0 := ToInt32(offset + CeilQuarter(n))]), Zeros(n)))
  }

  // ---------------------------------------------------------------------
  // Inline-operand handlers
  // ---------------------------------------------------------------------

  /** Code units that `String.prototype.trim` removes. */
  predicate IsJsWhiteSpace(c: CodeUnit) {
    c in {0x09, 0x0A, 0x0B, 0x0C, 0x0D, 0x20, 0xA0, 0x1680, 0x2028, 0x2029,
          0x202F, 0x205F, 0x3000, 0xFEFF}
    || 0x2000 <= c <= 0x200A
  }

  /** `s.trim() === ""`. */
  predicate IsBlank(s: JsString) {
    forall i :: 0 <= i < |s| ==> IsJsWhiteSpace(s[i])
  }

  /** The tag name CREATE_ELEMENT decodes when its length byte is at `p`. */
  function TagAt(program: seq<Byte>, p: nat): JsString
    requires p < |program|
  {
    BytesString(Slice(program, p + 1, p + 1 + program[p]))
  }

  /** CREATE_ELEMENT, entered with `pc` just past the opcode: one length
      byte, that many tag bytes (clamped at the end of the program), then
      a new element stored under id `elementCount` and pushed. A missing
      length byte decodes as the empty tag. */
  function CreateElementOp(m: Machine): (r: Result<Machine, VmError>)
    requires m.pc.At?
    ensures r.Failure? <==> m.pc.n >= |m.program| || IsBlank(TagAt(m.program, m.pc.n))
    ensures r.Failure? ==> r.error == InvalidTagName
    ensures r.Success? ==>
      var p := m.pc.n;
      && r.value.pc == At(p + 1 + m.program[p])
      && r.value.elementCount == m.elementCount + 1
      && r.value.elementMap == m.elementMap[m.elementCount := ElementNode(|m.host|)]
      && r.value.host == m.host + [CreateElement(TagAt(m.program, p))]
      && r.value.program == m.program
  {
    var p := m.pc.n;
    match Read(m.program, p)
    case None => Failure(InvalidTagName)
    case Some(len) =>
      var tag := BytesString(Slice(m.program, p + 1, p + 1 + len));
      if IsBlank(tag) then Failure(InvalidTagName)
      else
        var id := m.elementCount;
        var m' := m.(pc := At(p + 1 + len),
                     elementMap := m.elementMap[id := ElementNode(|m.host|)],
                     elementCount := id + 1,
                     host := m.host + [CreateElement(tag)]);
        Success(m'.(stack := PushStack(m'.stack, id)))
  }

  /** CREATE_ELEMENT leaves the new id on top of the operand stack. */
  lemma {:induction false} CreateElementPushes(m: Machine)
    requires m.pc.At?
    ensures CreateElementOp(m).Success? ==> CreateElementOp(m).value.stack == Push(m, m.elementCount).stack
  {
  }

  /** SET_ATTRIBUTE, entered with `pc` just past the opcode: a byte holding
      the key length plus one, the key, a mandatory NOP byte, a value-length
      byte and the value. The target is the most recently created id,
      `elementCount - 1`. */
  function SetAttributeOp(m: Machine): (r: Result<Machine, VmError>)
    requires m.pc.At?
    ensures r.Success? ==> r.value.elementMap == m.elementMap && r.value.elementCount == m.elementCount
    ensures r.Success? ==> r.value.program == m.program && r.value.stack == m.stack
    ensures r.Success? ==> |r.value.host| == |m.host| + 1 && r.value.host[..|m.host|] == m.host
    ensures r.Success? ==> r.value.pc.NaN? || r.value.pc.n >= m.pc.n + 3
    ensures r.Success? ==> m.pc.n < |m.program|
    ensures r.Success? ==> var vp := m.pc.n + m.program[m.pc.n] + 1;
              r.value.pc == if vp < |m.program| then At(vp + 1 + m.program[vp]) else NaN
    ensures r.Success? ==> m.elementCount - 1 in m.elementMap && m.elementMap[m.elementCount - 1].ElementNode?
    ensures r.Success? ==>
              r.value.host[|m.host|].SetAttribute? && r.value.host[|m.host|].element == m.elementMap[m.elementCount - 1]
  {
    var p := m.pc.n;
    match Read(m.program, p)
    case None => Failure(MissingNopDelimiter)
    case Some(b) =>
      var nameEnd := p + b;
      var name := BytesString(Slice(m.program, p + 1, nameEnd));
      if Read(m.program, nameEnd) != Some(OPCODE_NOP) then Failure(MissingNopDelimiter)
      else
        var vp := nameEnd + 1;
        var value := match Read(m.program, vp)
          case None => []
          case Some(vl) => BytesString(Slice(m.program, vp + 1, vp + 1 + vl));
        var pc := match Read(m.program, vp)
          case None => NaN
          case Some(vl) => At(vp + 1 + vl);
        match Lookup(m, Some(m.elementCount - 1))
        case None => Failure(InvalidElementId)
        case Some(node) =>
          if node.TextNode? then Failure(TypeError)
          else Success(m.(pc := pc, host := m.host + [SetAttribute(node, name, value)]))
  }

  /** SET_ATTRIBUTE's errors: it reports the missing delimiter exactly
      when the byte right after the key is not NOP 0x0b (a missing length
      byte included); past that check it reports "Invalid element ID"
      exactly when id `elementCount - 1` is absent; and when that id holds a
      text node, which has no `setAttribute`, the call is a `TypeError`. */
  lemma {:induction false} SetAttributeFailures(m: Machine)
    requires m.pc.At?
    ensures (m.pc.n >= |m.program|
             || Read(m.program, m.pc.n + m.program[m.pc.n]) != Some(OPCODE_NOP))
            <==> SetAttributeOp(m) == Failure(MissingNopDelimiter)
    ensures m.pc.n < |m.program| && Read(m.program, m.pc.n + m.program[m.pc.n]) == Some(OPCODE_NOP) ==>
      (SetAttributeOp(m) == Failure(InvalidElementId) <==> m.elementCount - 1 !in m.elementMap)
    ensures m.pc.n < |m.program| && Read(m.program, m.pc.n + m.program[m.pc.n]) == Some(OPCODE_NOP)
            && m.elementCount - 1 in m.elementMap ==>
      (SetAttributeOp(m) == Failure(TypeError) <==> m.elementMap[m.elementCount - 1].TextNode?)
      && (SetAttributeOp(m).Success? <==> m.elementMap[m.elementCount - 1].ElementNode?)
  {
  }

  // ---------------------------------------------------------------------
  // Stack-driven handlers: none of them reads inline bytes
  // ---------------------------------------------------------------------

  /** APPEND_CHILD (and REMOVE_CHILD): pop the child id, then the parent id. */
  function PairOp(m: Machine, remove: bool): (r: Result<Machine, VmError>)
    ensures r.Failure? ==> r.error == TypeError
    ensures r.Success? ==> r.value.pc == m.pc && r.value.elementMap == m.elementMap
    ensures r.Success? ==> r.value.elementCount == m.elementCount && r.value.program == m.program
    ensures r.Success? ==> |r.value.host| == |m.host| + 1 && r.value.host[..|m.host|] == m.host
  {
    var (m1, childId) := Pop(m);
    var (m2, parentId) := Pop(m1);
    match (Lookup(m2, parentId), Lookup(m2, childId))
    case (Some(parent), Some(child)) =>
      Success(m2.(host := m2.host + [if remove then RemoveChild(parent, child) else AppendChild(parent, child)]))
    case _ => Failure(TypeError)
  }

  /** REPLACE_CHILD: pop the new child, the old child, then the parent. */
  function ReplaceChildOp(m: Machine): (r: Result<Machine, VmError>)
    ensures r.Failure? ==> r.error == TypeError
    ensures r.Success? ==> r.value.pc == m.pc && r.value.elementMap == m.elementMap
    ensures r.Success? ==> r.value.elementCount == m.elementCount && r.value.program == m.program
    ensures r.Success? ==> |r.value.host| == |m.host| + 1 && r.value.host[..|m.host|] == m.host
  {
    var (m1, newId) := Pop(m);
    var (m2, oldId) := Pop(m1);
    var (m3, parentId) := Pop(m2);
    match (Lookup(m3, parentId), Lookup(m3, newId), Lookup(m3, oldId))
    case (Some(parent), Some(newChild), Some(oldChild)) =>
      Success(m3.(host := m3.host + [ReplaceChild(parent, newChild, oldChild)]))
    case _ => Failure(TypeError)
  }

  /** TEXT_NODE as written: the length comes from a pop and the text from
      the scratch memory, not from the program. */
  function CreateTextNodeOp(m: Machine): (r: Result<Machine, VmError>)
    ensures r.Failure? ==> r.error == RangeError
    ensures r.Success? ==>
      && r.value.pc == m.pc && r.value.program == m.program
      && r.value.elementCount == m.elementCount + 1
      && r.value.elementMap == m.elementMap[m.elementCount := TextNode(|m.host|)]
      && |r.value.host| == |m.host| + 1 && r.value.host[..|m.host|] == m.host
      && r.value.host[|m.host|].CreateTextNode?
  {
    var (m1, length) := Pop(m);
    match DecodeUtf16(m1, length)
    case Failure(e) => Failure(e)
    case Success((m2, text)) =>
      var id := m2.elementCount;
      var m3 := m2.(elementMap := m2.elementMap[id := TextNode(|m2.host|)],
                    elementCount := id + 1,
                    host := m2.host + [CreateTextNode(text)]);
      Success(m3.(stack := PushStack(m3.stack, id)))
  }

  /** SET_TEXT: pop a length, decode the text, pop the node id, set `nodeValue`. */
  function SetTextOp(m: Machine): (r: Result<Machine, VmError>)
    ensures r.Success? ==> r.value.pc == m.pc && r.value.elementMap == m.elementMap
    ensures r.Success? ==> r.value.elementCount == m.elementCount && r.value.program == m.program
    ensures r.Success? ==> |r.value.host| == |m.host| + 1 && r.value.host[..|m.host|] == m.host
  {
    var (m1, length) := Pop(m);
    match DecodeUtf16(m1, length)
    case Failure(e) => Failure(e)
    case Success((m2, text)) =>
      var (m3, id) := Pop(m2);
      match Lookup(m3, id)
      case None => Failure(TypeError)
      case Some(node) => Success(m3.(host := m3.host + [SetNodeValue(node, text)]))
  }

  /** REMOVE_ATTRIBUTE: pop a length, decode the name, pop the element id. */
  function RemoveAttributeOp(m: Machine): (r: Result<Machine, VmError>)
    ensures r.Success? ==> r.value.pc == m.pc && r.value.elementMap == m.elementMap
    ensures r.Success? ==> r.value.elementCount == m.elementCount && r.value.program == m.program
    ensures r.Success? ==> |r.value.host| == |m.host| + 1 && r.value.host[..|m.host|] == m.host
  {
    var (m1, length) := Pop(m);
    match DecodeUtf16(m1, length)
    case Failure(e) => Failure(e)
    case Success((m2, name)) =>
      var (m3, id) := Pop(m2);
      match Lookup(m3, id)
      case None => Failure(TypeError)
      case Some(node) =>
        if node.TextNode? then Failure(TypeError)
        else Success(m3.(host := m3.host + [RemoveAttribute(node, name)]))
  }

  /** STYLE: pop and decode the property name, then the value, then pop the element id. */
  function SetStyleOp(m: Machine): (r: Result<Machine, VmError>)
    ensures r.Success? ==> r.value.pc == m.pc && r.value.elementMap == m.elementMap
    ensures r.Success? ==> r.value.elementCount == m.elementCount && r.value.program == m.program
    ensures r.Success? ==> |r.value.host| == |m.host| + 1 && r.value.host[..|m.host|] == m.host
  {
    var (m1, nameLength) := Pop(m);
    match DecodeUtf16(m1, nameLength)
    case Failure(e) => Failure(e)
    case Success((m2, name)) =>
      var (m3, valueLength) := Pop(m2);
      match DecodeUtf16(m3, valueLength)
      case Failure(e) => Failure(e)
      case Success((m4, value)) =>
        var (m5, id) := Pop(m4);
        match Lookup(m5, id)
        case None => Failure(TypeError)
        case Some(node) =>
          if node.TextNode? then Failure(TypeError)
          else Success(m5.(host := m5.host + [SetStyle(node, name, value)]))
  }

  /** EVENT_LISTENER: pop and decode the event type, pop the target id, pop
      the callback id, register the listener. */
  function EventListenerOp(m: Machine): (r: Result<Machine, VmError>)
    ensures r.Success? ==> r.value.pc == m.pc && r.value.elementMap == m.elementMap
    ensures r.Success? ==> r.value.elementCount == m.elementCount && r.value.program == m.program
    ensures r.Success? ==> |r.value.host| == |m.host| + 1 && r.value.host[..|m.host|] == m.host
  {
    var (m1, length) := Pop(m);
    match DecodeUtf16(m1, length)
    case Failure(e) => Failure(e)
    case Success((m2, eventType)) =>
      var (m3, id) := Pop(m2);
      var (m4, callbackId) := Pop(m3);
      match Lookup(m4, id)
      case None => Failure(TypeError)
      case Some(node) => Success(m4.(host := m4.host + [AddEventListener(node, eventType, callbackId)]))
  }

  /** The stack discipline APPEND_CHILD and REMOVE_CHILD rely on: with the
      parent id pushed first and the child id second, the handler pops them
      back in reverse, applies the host call to those two nodes and leaves
      the pointer where it was before the pushes. */
  lemma {:induction false} PairOpPopsPushedIds(m: Machine, parentId: nat, childId: nat, remove: bool)
    requires 2 < m.stack[0] as int <= STACK_SIZE
    requires parentId < 0x8000_0000 && childId < 0x8000_0000
    requires parentId in m.elementMap && childId in m.elementMap
    ensures var r := PairOp(Push(Push(m, parentId), childId), remove);
            && r.Success?
            && r.value.stack[0] == m.stack[0]
            && r.value.host == m.host + [if remove then RemoveChild(m.elementMap[parentId], m.elementMap[childId])
                                         else AppendChild(m.elementMap[parentId], m.elementMap[childId])]
  {
    var p := m.stack[0] as int;
    var m1 := Push(m, parentId);
    assert m1.stack[0] == p - 1 && m1.stack[p - 1] == parentId;
    var m2 := Push(m1, childId);
    assert m2.stack[0] == p - 2 && m2.stack[p - 2] == childId && m2.stack[p - 1] == parentId;
    var (m3, c) := Pop(m2);
    assert c == Some(childId) && m3.stack[0] == p - 1;
    var (m4, q) := Pop(m3);
    assert q == Some(parentId) && m4.stack[0] == p;
  }

  // ---------------------------------------------------------------------
  // The fetch-dispatch loop
  // ---------------------------------------------------------------------

  /** One iteration of `run()`: fetch the opcode at `pc`, advance past it and
      dispatch. Any byte outside 0x01..0x0a, NOP included, moves `pc` to the
      end of the program. */
  function Step(m: Machine): (r: Result<Machine, VmError>)
    requires Running(m)
    ensures r.Success? ==> r.value.program == m.program
    ensures r.Success? ==> r.value.pc.NaN? || r.value.pc.n > m.pc.n
    ensures r.Success? ==> r.value.elementCount >= m.elementCount
    ensures r.Success? ==> |r.value.host| >= |m.host| && r.value.host[..|m.host|] == m.host
    ensures !(OPCODE_CREATE_ELEMENT <= m.program[m.pc.n] <= OPCODE_EVENT_LISTENER) ==>
      r == Success(m.(pc := At(|m.program|)))
    ensures r.Success? && OPCODE_APPEND_CHILD <= m.program[m.pc.n] <= OPCODE_EVENT_LISTENER ==>
      r.value.pc == At(m.pc.n + 1)
    ensures r.Success? && m.program[m.pc.n] != OPCODE_CREATE_ELEMENT && m.program[m.pc.n] != OPCODE_TEXT_NODE ==>
      r.value.elementMap == m.elementMap && r.value.elementCount == m.elementCount
    ensures m.program[m.pc.n] == OPCODE_CREATE_ELEMENT ==> r == CreateElementOp(m.(pc := At(m.pc.n + 1)))
  {
    var op := m.program[m.pc.n];
    var m1 := m.(pc := At(m.pc.n + 1));
    if op == OPCODE_CREATE_ELEMENT then CreateElementOp(m1) else StepOther(m)
  }

  /** The rest of `run()`'s switch, past the CREATE_ELEMENT case. */
  function StepOther(m: Machine): Result<Machine, VmError>
    requires Running(m) && m.program[m.pc.n] != OPCODE_CREATE_ELEMENT
  {
    var op := m.program[m.pc.n];
    var m1 := m.(pc := At(m.pc.n + 1));
    if op == OPCODE_SET_ATTRIBUTE then SetAttributeOp(m1)
    else if op == OPCODE_APPEND_CHILD then PairOp(m1, false)
    else if op == OPCODE_REMOVE_CHILD then PairOp(m1, true)
    else if op == OPCODE_REPLACE_CHILD then ReplaceChildOp(m1)
    else if op == OPCODE_TEXT_NODE then CreateTextNodeOp(m1)
    else if op == OPCODE_SET_TEXT then SetTextOp(m1)
    else if op == OPCODE_REMOVE_ATTRIBUTE then RemoveAttributeOp(m1)
    else if op == OPCODE_STYLE then SetStyleOp(m1)
    else if op == OPCODE_EVENT_LISTENER then EventListenerOp(m1)
    else Success(m.(pc := At(|m.program|)))
  }

  /** `run()` hands a SET_ATTRIBUTE to its handler with `pc` past the opcode. */
  lemma {:induction false} StepSetAttribute(m: Machine)
    requires Running(m) && m.program[m.pc.n] == OPCODE_SET_ATTRIBUTE
    ensures Step(m) == SetAttributeOp(m.(pc := At(m.pc.n + 1)))
  {
  }

  /** `run()` hands a CREATE_ELEMENT to its handler with `pc` past the opcode. */
  lemma {:induction false} StepCreateElement(m: Machine)
    requires Running(m) && m.program[m.pc.n] == OPCODE_CREATE_ELEMENT
    ensures Step(m) == CreateElementOp(m.(pc := At(m.pc.n + 1)))
  {
  }

  /** A byte outside 0x01..0x0a at `pc` ends `run()` at once: the machine
      halts without error and without touching the host or the table. */
  lemma {:induction false} RunHaltsOnUnknownOpcode(m: Machine)
    requires Running(m)
    requires !(OPCODE_CREATE_ELEMENT <= m.program[m.pc.n] <= OPCODE_EVENT_LISTENER)
    ensures Run(m) == Success(m.(pc := At(|m.program|)))
  {
    assert Step(m) == Success(m.(pc := At(|m.program|)));
    assert !Running(m.(pc := At(|m.program|)));
  }

  /** Bytes left before the loop condition `pc < program.length` fails. */
  function Remaining(m: Machine): nat {
    if Running(m) then |m.program| - m.pc.n else 0
  }

  /** `run()`: step until `pc` reaches the end of the program (or becomes
      `NaN`), propagating the first exception. */
  function Run(m: Machine): (r: Result<Machine, VmError>)
    ensures r.Success? ==> !Running(r.value)
    ensures r.Success? ==> r.value.program == m.program
    ensures r.Success? ==> r.value.elementCount >= m.elementCount
    ensures r.Success? ==> |r.value.host| >= |m.host| && r.value.host[..|m.host|] == m.host
    decreases Remaining(m)
  {
    if Running(m) then
      match Step(m)
      case Failure(e) => Failure(e)
      case Success(m') => Run(m')
    else Success(m)
  }

  // ---------------------------------------------------------------------
  // The element table invariant
  // ---------------------------------------------------------------------

  /** Storing a node under the next free id and incrementing the count
      keeps the table holding exactly the ids below the count. */
  lemma {:induction false} TableGrows(m: Machine, r: Machine, node: HostNode)
    requires TableInvariant(m)
    requires r.elementCount == m.elementCount + 1
    requires r.elementMap == m.elementMap[m.elementCount := node]
    ensures TableInvariant(r)
  {
    forall id | id in r.elementMap
      ensures 0 <= id < r.elementCount
    {
      if id != m.elementCount {
        assert id in m.elementMap;
      }
    }
    forall id | 0 <= id < r.elementCount
      ensures id in r.elementMap
    {
      if id < m.elementCount {
        assert id in m.elementMap;
      }
    }
  }

  /** One iteration of `run()` keeps "the table holds exactly the ids
      `0 .. elementCount - 1`": the two creating opcodes take the next free
      id, and every other opcode leaves the table and the count alone. */
  lemma {:induction false} StepKeepsTable(m: Machine)
    requires Running(m) && TableInvariant(m)
    ensures Step(m).Success? ==> TableInvariant(Step(m).value)
  {
    var op := m.program[m.pc.n];
    var m1 := m.(pc := At(m.pc.n + 1));
    if op == OPCODE_CREATE_ELEMENT {
      StepCreateElement(m);
      var r := CreateElementOp(m1);
      if r.Success? {
        TableGrows(m, r.value, ElementNode(|m.host|));
      }
    } else if op == OPCODE_TEXT_NODE {
      var r := CreateTextNodeOp(m1);
      assert Step(m) == r;
      if r.Success? {
        TableGrows(m, r.value, TextNode(|m.host|));
      }
    }
  }

  /** `run()` keeps the table invariant from start to finish. */
  lemma {:induction false} RunKeepsTable(m: Machine)
    requires TableInvariant(m)
    ensures Run(m).Success? ==> TableInvariant(Run(m).value)
    decreases Remaining(m)
  {
    if Running(m) {
      StepKeepsTable(m);
      if Step(m).Success? {
        RunKeepsTable(Step(m).value);
      }
    }
  }
}
