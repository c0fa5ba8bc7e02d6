/** The encoder of `src/views.ts`: `Text`, `Button`, `Container` and `View`
    each render a byte program. Stores into a `Uint8Array` keep only the low
    byte (`ToUint8`), so lengths and code units above 255 are truncated. */
module Views {
  import opened Bytes
  import Vm

  /** One `attr(key, value)` segment:
      `[SET_ATTRIBUTE, |key| + 1, key…, NOP, |value|, value…]`. */
  function AttrSegment(key: JsString, value: JsString): seq<Byte> {
    [Vm.OPCODE_SET_ATTRIBUTE, ToUint8(|key| + 1)] + StringBytes(key)
      + [Vm.OPCODE_NOP, ToUint8(|value|)] + StringBytes(value)
  }

  /** The private `attributeBuffer` / `attributeLength` pair of `Button` and
      `Container`. */
  datatype AttrState = AttrState(buffers: seq<seq<Byte>>, length: int)

  /** The class invariant: `attributeLength` is the total length of the
      buffered segments. Only `attr` writes either field. */
  type AttrList = a: AttrState | a.length == SumLengths(a.buffers) witness AttrState([], 0)

  const NoAttributes: AttrList := AttrState([], 0)

  /** `attr(key, value)`: append one segment and add its length. */
  function AddAttr(a: AttrList, key: JsString, value: JsString): (r: AttrList)
    ensures r.buffers == a.buffers + [AttrSegment(key, value)]
    ensures r.length == a.length + |key| + |value| + 4
  {
    var segment := AttrSegment(key, value);
    assert (a.buffers + [segment])[..|a.buffers|] == a.buffers;
    AttrState(a.buffers + [segment], a.length + |segment|)
  }

  /** The tag names `Container` offers; `DIV` is its default. */
  const DIV: seq<int> := [0x64, 0x69, 0x76]
  const SECTION: seq<int> := [0x73, 0x65, 0x63, 0x74, 0x69, 0x6f, 0x6e]
  const HEADER: seq<int> := [0x68, 0x65, 0x61, 0x64, 0x65, 0x72]
  const FOOTER: seq<int> := [0x66, 0x6f, 0x6f, 0x74, 0x65, 0x72]
  const ARTICLE: seq<int> := [0x61, 0x72, 0x74, 0x69, 0x63, 0x6c, 0x65]
  const ASIDE: seq<int> := [0x61, 0x73, 0x69, 0x64, 0x65]

  /** `"button"` as `Button.render` writes it. */
  const BUTTON: seq<Byte> := [0x62, 0x75, 0x74, 0x74, 0x6f, 0x6e]

  /** A renderable node. `Container` and `View` children are any renderable
      nodes; `tag` holds the numbers given to `tagName`. */
  datatype Node =
    | Text(text: JsString)
    | Button(labelText: JsString, attributes: AttrList)
    | Container(tag: seq<int>, attributes: AttrList, children: seq<Node>)
    | View(children: seq<Node>)

  function NewButton(labelText: JsString): (r: Node)
    ensures r.Button? && r.labelText == labelText && r.attributes.buffers == []
  {
    Button(labelText, NoAttributes)
  }

  /** `new Container(children)`: the tag starts as `DIV`. */
  function NewContainer(children: seq<Node>): (r: Node)
    ensures r.Container? && r.tag == DIV && r.children == children
    ensures r.attributes.buffers == [] && r.attributes.length == 0
  {
    Container(DIV, NoAttributes, children)
  }

  /** `tagName(tag)`: replaces the tag and returns the same container. */
  function TagName(c: Node, tag: seq<int>): (r: Node)
    requires c.Container?
    ensures r.Container? && r.tag == tag
    ensures r.attributes == c.attributes && r.children == c.children
  {
    c.(tag := tag)
  }

  /** `attr(key, value)` on a `Button` or a `Container`: one segment is
      appended, nothing else changes. */
  function Attr(n: Node, key: JsString, value: JsString): (r: Node)
    requires n.Button? || n.Container?
    ensures r.Button? == n.Button? && r.Container? == n.Container?
    ensures r == n.(attributes := r.attributes)
    ensures r.attributes.buffers == n.attributes.buffers + [AttrSegment(key, value)]
    ensures r.attributes.length == n.attributes.length + |key| + |value| + 4
  {
    n.(attributes := AddAttr(n.attributes, key, value))
  }

  /** Tag numbers stored with `buffer.set(tag, 2)`. */
  function TagBytes(tag: seq<int>): (r: seq<Byte>)
    ensures |r| == |tag| && forall i :: 0 <= i < |tag| ==> r[i] == ToUint8(tag[i])
  {
    seq(|tag|, i requires 0 <= i < |tag| => ToUint8(tag[i]))
  }

  /** Tag numbers in byte range come back unchanged when the stored bytes
      are read as character codes. */
  lemma {:induction false} TagBytesRoundTrip(tag: seq<int>)
    requires forall i :: 0 <= i < |tag| ==> 0 <= tag[i] < 0x100
    ensures BytesString(TagBytes(tag)) == tag
  {
    var s := BytesString(TagBytes(tag));
    forall i | 0 <= i < |tag|
      ensures s[i] == tag[i]
    {
      assert TagBytes(tag)[i] == ToUint8(tag[i]);
    }
  }

  /** The length each `render` allocates, computed the way the source
      computes `totalLength`, before any byte is written. */
  function AllocatedLength(n: Node): nat
    decreases n
  {
    match n
    case Text(t) => |t| + 2
    case Button(labelText, attrs) => |labelText| + 6 + 5 + attrs.length
    case Container(tag, attrs, cs) => |tag| + 2 + attrs.length + ChildrenAllocated(cs)
    case View(cs) => ViewAllocated(cs)
  }

  function ChildrenAllocated(cs: seq<Node>): nat
    decreases cs
  {
    if cs == [] then 0 else AllocatedLength(cs[0]) + 1 + ChildrenAllocated(cs[1..])
  }

  function ViewAllocated(cs: seq<Node>): nat
    decreases cs
  {
    if cs == [] then 0 else AllocatedLength(cs[0]) + ViewAllocated(cs[1..])
  }

  /** `render()`: the bytes written into the allocated buffer. */
  function Render(n: Node): (r: seq<Byte>)
    ensures |r| == AllocatedLength(n)
    decreases n
  {
    match n
    case Text(t) => [Vm.OPCODE_TEXT_NODE, ToUint8(|t|)] + StringBytes(t)
    case Button(labelText, attrs) =>
      FlattenLength(attrs.buffers);
      [Vm.OPCODE_CREATE_ELEMENT, 6] + BUTTON
        + [Vm.OPCODE_TEXT_NODE, ToUint8(|labelText|)] + StringBytes(labelText)
        + Flatten(attrs.buffers) + [Vm.OPCODE_APPEND_CHILD]
    case Container(tag, attrs, cs) =>
      FlattenLength(attrs.buffers);
      [Vm.OPCODE_CREATE_ELEMENT, ToUint8(|tag|)] + TagBytes(tag)
        + Flatten(attrs.buffers) + RenderChildren(cs)
    case View(cs) => RenderAll(cs)
  }

  /** Each child's rendering followed by one APPEND_CHILD byte (the guard
      `i < children.length` inside the loop always holds). */
  function RenderChildren(cs: seq<Node>): (r: seq<Byte>)
    ensures |r| == ChildrenAllocated(cs)
    decreases cs
  {
    if cs == [] then [] else Render(cs[0]) + [Vm.OPCODE_APPEND_CHILD] + RenderChildren(cs[1..])
  }

  /** `View.render`: the children's renderings back to back. */
  function RenderAll(cs: seq<Node>): (r: seq<Byte>)
    ensures |r| == ViewAllocated(cs)
    decreases cs
  {
    if cs == [] then [] else Render(cs[0]) + RenderAll(cs[1..])
  }

  // ---------------------------------------------------------------------
  // Properties of the encoder
  // ---------------------------------------------------------------------

  /** A text segment: TEXT_NODE, the truncated length, the truncated code units. */
  lemma {:induction false} TextLayout(t: JsString)
    ensures var r := Render(Text(t));
      && |r| == |t| + 2
      && r[0] == Vm.OPCODE_TEXT_NODE && r[1] == ToUint8(|t|)
      && forall i :: 0 <= i < |t| ==> r[i + 2] == ToUint8(t[i])
  {
  }

  /** Every `attr` segment is `|key| + |value| + 4` bytes, with the key
      length stored plus one and a NOP between key and value. */
  lemma {:induction false} AttrSegmentLayout(key: JsString, value: JsString)
    ensures var s := AttrSegment(key, value);
      && |s| == |key| + |value| + 4
      && s[0] == Vm.OPCODE_SET_ATTRIBUTE && s[1] == ToUint8(|key| + 1)
      && s[2..|key| + 2] == StringBytes(key)
      && s[|key| + 2] == Vm.OPCODE_NOP && s[|key| + 3] == ToUint8(|value|)
      && s[|key| + 4..] == StringBytes(value)
  {
  }

  /** After any sequence of `attr` calls, `attributeLength` is the length of
      the bytes the buffered segments contribute to `render()`. */
  lemma {:induction false} AttributeLengthMatchesBuffers(a: AttrList)
    ensures a.length == |Flatten(a.buffers)|
  {
    FlattenLength(a.buffers);
  }

  /** Each `attr` call adds exactly its own segment at the end of the
      attribute bytes. */
  lemma {:induction false} AttrAppendsSegment(n: Node, key: JsString, value: JsString)
    requires n.Button? || n.Container?
    ensures Flatten(Attr(n, key, value).attributes.buffers)
         == Flatten(n.attributes.buffers) + AttrSegment(key, value)
  {
    var b := n.attributes.buffers + [AttrSegment(key, value)];
    assert b[..|b| - 1] == n.attributes.buffers;
  }

  /** `Button.render` is the `button` element, its label text, the attribute
      segments, then one APPEND_CHILD; `label.length + 11 + attributeLength`
      bytes long. */
  lemma {:induction false} ButtonLayout(n: Node)
    requires n.Button?
    ensures var r := Render(n);
      && |r| == |n.labelText| + 11 + n.attributes.length
      && r[..10] == [Vm.OPCODE_CREATE_ELEMENT, 6, 0x62, 0x75, 0x74, 0x74, 0x6f, 0x6e,
                     Vm.OPCODE_TEXT_NODE, ToUint8(|n.labelText|)]
      && r[10..10 + |n.labelText|] == StringBytes(n.labelText)
      && r[10 + |n.labelText|..|r| - 1] == Flatten(n.attributes.buffers)
      && r[|r| - 1] == Vm.OPCODE_APPEND_CHILD
  {
    AttributeLengthMatchesBuffers(n.attributes);
  }

  /** A slice of a slice that sits at offset `a` of `s` is a slice of `s`. */
  lemma {:induction false} SliceWithin(s: seq<Byte>, t: seq<Byte>, a: nat, lo: nat, len: nat)
    requires a + |t| <= |s| && s[a..a + |t|] == t && lo + len <= |t|
    ensures s[a + lo..a + lo + len] == t[lo..lo + len]
  {
    var x, y := s[a + lo..a + lo + len], t[lo..lo + len];
    forall k | 0 <= k < len
      ensures x[k] == y[k]
    {
      assert s[a..a + |t|][lo + k] == s[a + lo + k];
    }
  }

  /** The `i`-th `attr` segment of a `Button` appears unmodified in
      `render()`, after the label and after every earlier segment. */
  lemma {:induction false} ButtonAttributesInOrder(n: Node, i: nat)
    requires n.Button? && i < |n.attributes.buffers|
    ensures var off := |n.labelText| + 10 + SumLengths(n.attributes.buffers[..i]);
      && off + |n.attributes.buffers[i]| <= |Render(n)|
      && Render(n)[off..off + |n.attributes.buffers[i]|] == n.attributes.buffers[i]
  {
    var b := n.attributes.buffers;
    ButtonLayout(n);
    FlattenChunk(b, i);
    var off := |n.labelText| + 10;
    var r := Render(n);
    assert r[off..|r| - 1] == Flatten(b);
    var lo := SumLengths(b[..i]);
    SliceWithin(r, Flatten(b), off, lo, |b[i]|);
  }

  /** The `i`-th `attr` segment of a `Container` appears unmodified in
      `render()`, after the tag and after every earlier segment. */
  lemma {:induction false} ContainerAttributesInOrder(n: Node, i: nat)
    requires n.Container? && i < |n.attributes.buffers|
    ensures var off := |n.tag| + 2 + SumLengths(n.attributes.buffers[..i]);
      && off + |n.attributes.buffers[i]| <= |Render(n)|
      && Render(n)[off..off + |n.attributes.buffers[i]|] == n.attributes.buffers[i]
  {
    var b := n.attributes.buffers;
    FlattenChunk(b, i);
    FlattenLength(b);
    var off := |n.tag| + 2;
    var r := Render(n);
    var head := [Vm.OPCODE_CREATE_ELEMENT, ToUint8(|n.tag|)] + TagBytes(n.tag);
    assert r == head + Flatten(b) + RenderChildren(n.children);
    assert r[off..off + |Flatten(b)|] == Flatten(b);
    var lo := SumLengths(b[..i]);
    SliceWithin(r, Flatten(b), off, lo, |b[i]|);
  }

  /** Sum over the children of their rendered length plus one APPEND_CHILD. */
  function AppendedLengths(cs: seq<Node>): nat {
    if cs == [] then 0 else |Render(cs[0])| + 1 + AppendedLengths(cs[1..])
  }

  /** `Container.render` is the element, its attributes, then each child's
      rendering followed by APPEND_CHILD; its length is
      `tagLen + 2 + attributeLength + Σ(|child| + 1)`. */
  lemma {:induction false} ContainerLayout(n: Node)
    requires n.Container?
    ensures |Render(n)| == |n.tag| + 2 + n.attributes.length + AppendedLengths(n.children)
    ensures Render(n) == [Vm.OPCODE_CREATE_ELEMENT, ToUint8(|n.tag|)] + TagBytes(n.tag)
                         + Flatten(n.attributes.buffers) + RenderChildren(n.children)
  {
    ChildrenLength(n.children);
  }

  lemma {:induction false} ChildrenLength(cs: seq<Node>)
    ensures |RenderChildren(cs)| == AppendedLengths(cs)
  {
    if cs != [] {
      ChildrenLength(cs[1..]);
    }
  }

  /** Sum of the children's rendered lengths. */
  function RenderedLengths(cs: seq<Node>): nat {
    if cs == [] then 0 else |Render(cs[0])| + RenderedLengths(cs[1..])
  }

  /** `View.render` concatenates in order: rendering a split list is
      rendering each part, and its length is the sum of the children's. */
  lemma {:induction false} ViewConcatenates(a: seq<Node>, b: seq<Node>)
    ensures Render(View(a + b)) == Render(View(a)) + Render(View(b))
    ensures |Render(View(a))| == RenderedLengths(a)
    ensures Render(View([])) == []
  {
    if a == [] {
      assert a + b == b;
    } else {
      assert (a + b)[1..] == a[1..] + b;
      ViewConcatenates(a[1..], b);
    }
  }

  /** The encoding of `Container([Text("hello")])` with the default tag. */
  lemma {:induction false} HelloExample()
    ensures Render(NewContainer([Text([0x68, 0x65, 0x6c, 0x6c, 0x6f])]))
         == [0x01, 3, 0x64, 0x69, 0x76, 0x06, 5, 0x68, 0x65, 0x6c, 0x6c, 0x6f, 0x03]
  {
  }
}
