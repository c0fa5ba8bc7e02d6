/** The helpers of `src/utils.ts`: a global call counter, the flattening of
    strings into their UTF-16 code units, and the string decoder that pops
    code units off the virtual machine's operand stack. */
module Utils {
  import opened Wrappers
  import opened Bytes
  import Vm

  // ---------------------------------------------------------------------
  // increment
  // ---------------------------------------------------------------------

  /** The closure's captured `count`. */
  datatype Counter = Counter(count: nat)

  /** The counter before the first call. */
  const FreshCounter := Counter(0)

  /** One call of `increment()`: bump the captured count and return it. */
  function Increment(c: Counter): (r: (Counter, nat))
    ensures r.1 == c.count + 1
    ensures r.0.count == r.1
  {
    var count := c.count + 1;
    (Counter(count), count)
  }

  /** `n` successive calls: the counter afterwards and the values returned. */
  function IncrementTimes(c: Counter, n: nat): (Counter, seq<nat>)
    decreases n
  {
    if n == 0 then (c, [])
    else
      var (c1, v) := Increment(c);
      var (c2, vs) := IncrementTimes(c1, n - 1);
      (c2, [v] + vs)
  }

  /** The `k`-th call (counting from 0) returns `c.count + k + 1`: every call
      returns a value no earlier call returned, and from a fresh counter the
      values are 1, 2, 3, … */
  lemma {:induction false} IncrementReturnsCallNumber(c: Counter, n: nat)
    ensures |IncrementTimes(c, n).1| == n
    ensures IncrementTimes(c, n).0.count == c.count + n
    ensures forall k :: 0 <= k < n ==> IncrementTimes(c, n).1[k] == c.count + k + 1
    decreases n
  {
    if n > 0 {
      var (c1, v) := Increment(c);
      IncrementReturnsCallNumber(c1, n - 1);
    }
  }

  /** From a fresh counter, two different calls never return the same value. */
  lemma {:induction false} IncrementIsUnique(n: nat)
    ensures |IncrementTimes(FreshCounter, n).1| == n
    ensures forall a, b :: 0 <= a < b < n ==> IncrementTimes(FreshCounter, n).1[a] < IncrementTimes(FreshCounter, n).1[b]
  {
    IncrementReturnsCallNumber(FreshCounter, n);
  }

  // ---------------------------------------------------------------------
  // charCodes
  // ---------------------------------------------------------------------

  /** The code units of all arguments, one argument after the other. */
  function Concat(args: seq<JsString>): JsString {
    if |args| == 0 then [] else Concat(args[..|args| - 1]) + args[|args| - 1]
  }

  /** `charCodes(...args)`: the two nested loops that push `charCodeAt(j)`. */
  method CharCodes(args: seq<JsString>) returns (acc: seq<CodeUnit>)
    ensures acc == Concat(args)
  {
    acc := [];
    var i := 0;
    while i < |args|
      invariant 0 <= i <= |args|
      invariant acc == Concat(args[..i])
    {
      var str := args[i];
      var j := 0;
      while j < |str|
        invariant 0 <= j <= |str|
        invariant acc == Concat(args[..i]) + str[..j]
      {
        acc := acc + [str[j]];
        j := j + 1;
      }
      assert args[..i + 1][..i] == args[..i];
      i := i + 1;
    }
    assert args[..|args|] == args;
  }

  /** Splitting the argument list splits the result. */
  lemma {:induction false} CharCodesAppend(a: seq<JsString>, b: seq<JsString>)
    ensures Concat(a + b) == Concat(a) + Concat(b)
    decreases |b|
  {
    if |b| > 0 {
      var b' := b[..|b| - 1];
      assert (a + b)[..|a + b| - 1] == a + b';
      CharCodesAppend(a, b');
    } else {
      assert a + b == a;
    }
  }

  /** The number of code units pushed is the sum of the arguments' lengths. */
  function TotalLength(args: seq<JsString>): nat {
    if |args| == 0 then 0 else TotalLength(args[..|args| - 1]) + |args[|args| - 1]|
  }

  lemma {:induction false} CharCodesLength(args: seq<JsString>)
    ensures |Concat(args)| == TotalLength(args)
  {
    if |args| > 0 {
      CharCodesLength(args[..|args| - 1]);
    }
  }

  /** Argument `i` appears unchanged right after the arguments before it. */
  lemma {:induction false} CharCodesPlacesArgument(args: seq<JsString>, i: nat)
    requires i < |args|
    ensures |Concat(args[..i])| + |args[i]| <= |Concat(args)|
    ensures Concat(args)[|Concat(args[..i])|..|Concat(args[..i])| + |args[i]|] == args[i]
  {
    assert args == args[..i] + [args[i]] + args[i + 1..];
    CharCodesAppend(args[..i] + [args[i]], args[i + 1..]);
    CharCodesAppend(args[..i], [args[i]]);
    assert Concat([args[i]]) == Concat([]) + args[i];
  }

  // ---------------------------------------------------------------------
  // decodeString
  // ---------------------------------------------------------------------

  /** `String.fromCharCode(vm.pop())`: one pop, with an `undefined` read
      converted to the code unit 0. */
  function PopCode(m: Vm.Machine): (r: (Vm.Machine, CodeUnit))
  {
    var (m', v) := Vm.Pop(m);
    (m', match v case None => 0 case Some(x) => ToUint16(x))
  }

  /** The code unit a pop at pointer `k` yields: the pointer slot itself
      holds `k + 1 == 1` once it is read at `k == 0`, the slots `1 .. 1023`
      hold the stored values, and everything else reads `undefined`. Only
      slots other than the pointer slot are consulted. */
  function PoppedCode(stack: Vm.Stack, k: int): CodeUnit {
    if k == 0 then 1
    else if 0 < k < Vm.STACK_SIZE then ToUint16(stack[k])
    else 0
  }

  /** `decodeString(vm, length)` as a recursion over the pops. */
  function DecodeStringOf(m: Vm.Machine, length: int): (Vm.Machine, JsString)
    decreases length
  {
    if length <= 0 then (m, [])
    else
      var (m1, c) := PopCode(m);
      var (m2, s) := DecodeStringOf(m1, length - 1);
      (m2, [c] + s)
  }

  /** `decodeString(vm, length)`: `length` pops appended in order. */
  method DecodeString(m: Vm.Machine, length: int) returns (m': Vm.Machine, acc: JsString)
    ensures (m', acc) == DecodeStringOf(m, length)
    ensures |acc| == if length < 0 then 0 else length
  {
    acc := [];
    m' := m;
    var i := 0;
    assert acc + DecodeStringOf(m', length - i).1 == DecodeStringOf(m, length).1;
    while i < length
      invariant length <= 0 ==> i == 0
      invariant 0 <= i && (length > 0 ==> i <= length)
      invariant |acc| == i
      invariant DecodeStringOf(m, length) == (DecodeStringOf(m', length - i).0, acc + DecodeStringOf(m', length - i).1)
    {
      var (m1, c) := PopCode(m');
      assert acc + DecodeStringOf(m', length - i).1 == (acc + [c]) + DecodeStringOf(m1, length - i - 1).1;
      acc := acc + [c];
      m' := m1;
      i := i + 1;
    }
    assert DecodeStringOf(m', length - i) == (m', []);
    assert acc + [] == acc;
  }

  /** A pop changes only the pointer slot, moving it up by one. */
  lemma {:induction false} PopCodeMovesPointer(m: Vm.Machine)
    requires m.stack[0] as int + 1 < 0x8000_0000
    ensures var (m1, c) := PopCode(m);
            && m1 == m.(stack := m1.stack)
            && m1.stack[0] == m.stack[0] as int + 1
            && (forall k :: 0 < k < Vm.STACK_SIZE ==> m1.stack[k] == m.stack[k])
            && c == PoppedCode(m.stack, m.stack[0])
  {
  }

  /** Unless the pointer wraps around, `decodeString` yields the code units
      of the slots from the pointer upward, in order, and leaves the pointer
      `length` higher. */
  lemma {:induction false} DecodeStringReadsUpward(m: Vm.Machine, length: nat)
    requires m.stack[0] as int + length < 0x8000_0000
    ensures var (m', s) := DecodeStringOf(m, length);
            && |s| == length
            && m' == m.(stack := m'.stack)
            && m'.stack[0] == m.stack[0] as int + length
            && (forall k :: 0 < k < Vm.STACK_SIZE ==> m'.stack[k] == m.stack[k])
            && (forall k :: 0 <= k < length ==> s[k] == PoppedCode(m.stack, m.stack[0] as int + k))
    decreases length
  {
    if length > 0 {
      var (m1, c) := PopCode(m);
      PopCodeMovesPointer(m);
      DecodeStringReadsUpward(m1, length - 1);
      var (m2, s) := DecodeStringOf(m1, length - 1);
      forall k | 0 <= k < length
        ensures ([c] + s)[k] == PoppedCode(m.stack, m.stack[0] as int + k)
      {
        if k > 0 {
          assert ([c] + s)[k] == s[k - 1];
        }
      }
    }
  }

  /** `n` successive `push` calls, in order. */
  function PushAll(m: Vm.Machine, values: seq<int>): Vm.Machine
    decreases |values|
  {
    if |values| == 0 then m else PushAll(Vm.Push(m, values[0]), values[1..])
  }

  /** One push from a pointer in `2 .. 1024`: the pointer drops by one and
      the value lands in the slot it now names. */
  lemma {:induction false} PushStoresBelow(m: Vm.Machine, value: int)
    requires 1 < m.stack[0] as int <= Vm.STACK_SIZE
    ensures var m1 := Vm.Push(m, value);
            && m1 == m.(stack := m1.stack)
            && m1.stack[0] == m.stack[0] as int - 1
            && m1.stack[m.stack[0] as int - 1] == ToInt32(value)
            && (forall k :: m.stack[0] as int <= k < Vm.STACK_SIZE ==> m1.stack[k] == m.stack[k])
  {
  }

  /** Pushing `values` from pointer `p` stores them downward: afterwards the
      pointer is `p - n` and the slot `k` below `p` holds the value pushed
      `p - 1 - k` calls in. */
  lemma {:induction false} PushAllStoresDownward(m: Vm.Machine, values: seq<int>)
    requires |values| < m.stack[0] as int <= Vm.STACK_SIZE
    ensures var m' := PushAll(m, values);
            && m' == m.(stack := m'.stack)
            && m'.stack[0] == m.stack[0] as int - |values|
            && (forall k :: m.stack[0] as int - |values| <= k < m.stack[0] as int ==>
                  m'.stack[k] == ToInt32(values[m.stack[0] as int - 1 - k]))
            && (forall k :: m.stack[0] as int <= k < Vm.STACK_SIZE ==> m'.stack[k] == m.stack[k])
    decreases |values|
  {
    if |values| > 0 {
      var p, n := m.stack[0] as int, |values|;
      var m1 := Vm.Push(m, values[0]);
      PushStoresBelow(m, values[0]);
      PushAllStoresDownward(m1, values[1..]);
      var m' := PushAll(m1, values[1..]);
      assert m' == PushAll(m, values);
      forall k | p - n <= k < p
        ensures m'.stack[k] == ToInt32(values[p - 1 - k])
      {
        if k < p - 1 {
          assert values[1..][p - 2 - k] == values[p - 1 - k];
        }
      }
    }
  }

  /** ToUint16 of the stored Int32 equals ToUint16 of the value pushed. */
  lemma {:induction false} Uint16OfInt32(x: int)
    ensures ToUint16(ToInt32(x)) == ToUint16(x)
  {
    var y := ToInt32(x);
    assert (y - x) % 0x1_0000_0000 == 0;
    var q := (y - x) / 0x1_0000_0000;
    assert y == x + q * 0x1_0000_0000;
    assert q * 0x1_0000_0000 == (q * 0x1_0000) * 0x1_0000;
  }

  /** The round trip the stack is used for: code units pushed one after the
      other, then decoded with `decodeString`, come back in reverse order
      (last pushed first), reduced to 16 bits, as long as the pushes stay
      clear of the pointer slot. */
  lemma {:induction false} PushThenDecode(m: Vm.Machine, values: seq<int>)
    requires |values| < m.stack[0] as int <= Vm.STACK_SIZE
    ensures var (m', s) := DecodeStringOf(PushAll(m, values), |values|);
            && m'.stack[0] == m.stack[0]
            && |s| == |values|
            && forall k :: 0 <= k < |values| ==> s[k] == ToUint16(values[|values| - 1 - k])
  {
    var n, p := |values|, m.stack[0] as int;
    PushAllStoresDownward(m, values);
    var pushed := PushAll(m, values);
    assert pushed.stack[0] == p - n;
    DecodeStringReadsUpward(pushed, n);
    var r := DecodeStringOf(pushed, n);
    var s := r.1;
    assert r.0.stack[0] == p;
    forall k | 0 <= k < n
      ensures s[k] == ToUint16(values[n - 1 - k])
    {
      assert s[k] == PoppedCode(pushed.stack, p - n + k);
      assert pushed.stack[p - n + k] == ToInt32(values[n - 1 - k]);
      Uint16OfInt32(values[n - 1 - k]);
    }
  }
}
