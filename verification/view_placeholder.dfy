/** The placeholder components of `src/view.ts`: a `View` renders the fixed
    bytes `[1, 2, 1]`, and a `Container` renders the concatenation of its
    children's renders. The `children` field is typed `View[]`, but any
    object with a `render` method fits, so containers may nest. */
module Placeholder {
  import opened Bytes

  datatype Component = View | Container(children: seq<Component>)

  /** What `View.render()` returns. */
  const VIEW_BYTES: seq<Byte> := [1, 2, 1]

  /** `render()` of either class: three bytes per `View` leaf. */
  function Render(c: Component): (r: seq<Byte>)
    ensures |r| == 3 * CountViews(c)
    decreases c
  {
    match c
    case View => VIEW_BYTES
    case Container(cs) => Flatten(RenderEach(cs))
  }

  /** The children's renders, in order. */
  function RenderEach(cs: seq<Component>): (r: seq<seq<Byte>>)
    ensures |r| == |cs|
    ensures |Flatten(r)| == 3 * CountEach(cs)
    decreases cs
  {
    if cs == [] then []
    else
      var init := RenderEach(cs[..|cs| - 1]);
      var r := init + [Render(cs[|cs| - 1])];
      assert r[..|r| - 1] == init;
      r
  }

  lemma {:induction false} RenderEachAt(cs: seq<Component>, i: nat)
    requires i < |cs|
    ensures RenderEach(cs)[i] == Render(cs[i])
    decreases |cs|
  {
    if i < |cs| - 1 {
      RenderEachAt(cs[..|cs| - 1], i);
    }
  }

  lemma {:induction false} RenderEachPrefix(cs: seq<Component>, i: nat)
    requires i <= |cs|
    ensures RenderEach(cs)[..i] == RenderEach(cs[..i])
    decreases |cs|
  {
    if i < |cs| {
      RenderEachPrefix(cs[..|cs| - 1], i);
      assert cs[..|cs| - 1][..i] == cs[..i];
    } else {
      assert cs[..i] == cs;
    }
  }

  /** The first loop of `Container.render()`: the sum of the children's
      render lengths. */
  method TotalLength(renders: seq<seq<Byte>>) returns (total: nat)
    ensures total == SumLengths(renders)
    ensures total == |Flatten(renders)|
  {
    total := 0;
    var i := 0;
    while i < |renders|
      invariant 0 <= i <= |renders|
      invariant total == SumLengths(renders[..i])
    {
      assert renders[..i + 1][..i] == renders[..i];
      total := total + |renders[i]|;
      i := i + 1;
    }
    assert renders[..|renders|] == renders;
    FlattenLength(renders);
  }

  /** `buffer.set(child, offset)`. */
  method SetAt(buffer: array<Byte>, offset: nat, child: seq<Byte>)
    requires offset + |child| <= buffer.Length
    modifies buffer
    ensures buffer[..offset + |child|] == old(buffer[..offset]) + child
  {
    var j := 0;
    while j < |child|
      invariant 0 <= j <= |child|
      invariant buffer[..offset + j] == old(buffer[..offset]) + child[..j]
    {
      buffer[offset + j] := child[j];
      assert buffer[..offset + j + 1] == buffer[..offset + j] + [child[j]];
      assert child[..j + 1] == child[..j] + [child[j]];
      j := j + 1;
    }
    assert child[..|child|] == child;
  }

  /** `Container.render()`: the first loop sums the children's lengths, the
      second copies each child's bytes into the buffer at the running offset. */
  method RenderContainer(children: seq<Component>) returns (r: seq<Byte>)
    ensures r == Render(Container(children))
  {
    var renders := RenderEach(children);
    var totalLength := TotalLength(renders);
    var buffer := new Byte[totalLength];
    var offset := 0;
    var i := 0;
    while i < |children|
      invariant 0 <= i <= |children|
      invariant offset == |Flatten(renders[..i])| <= totalLength
      invariant buffer[..offset] == Flatten(renders[..i])
    {
      var child := Render(children[i]);
      NextPrefix(children, renders, i);
      SetAt(buffer, offset, child);
      offset := offset + |child|;
      i := i + 1;
    }
    assert renders[..|children|] == renders;
    assert buffer[..] == buffer[..offset];
    r := buffer[..];
  }

  /** One more child extends the flattened prefix by that child's render,
      and the prefix still fits in the total. */
  lemma {:induction false} NextPrefix(children: seq<Component>, renders: seq<seq<Byte>>, i: nat)
    requires renders == RenderEach(children) && i < |children|
    ensures Flatten(renders[..i + 1]) == Flatten(renders[..i]) + Render(children[i])
    ensures |Flatten(renders[..i + 1])| <= |Flatten(renders)|
  {
    RenderEachAt(children, i);
    FlattenAppend(renders[..i], [Render(children[i])]);
    FlattenSingle(Render(children[i]));
    assert renders[..i + 1] == renders[..i] + [Render(children[i])];
    FlattenLength(renders[..i + 1]);
    FlattenLength(renders);
    SumPrefixBound(renders, i + 1);
  }

  /** The prefix sums never exceed the total. */
  lemma {:induction false} SumPrefixBound(chunks: seq<seq<Byte>>, i: nat)
    requires i <= |chunks|
    ensures SumLengths(chunks[..i]) <= SumLengths(chunks)
    decreases |chunks|
  {
    if i < |chunks| {
      SumPrefixBound(chunks[..|chunks| - 1], i);
      assert chunks[..|chunks| - 1][..i] == chunks[..i];
    } else {
      assert chunks[..i] == chunks;
    }
  }

  /** The number of `View` leaves under a component. */
  function CountViews(c: Component): nat
    decreases c
  {
    match c
    case View => 1
    case Container(cs) => CountEach(cs)
  }

  function CountEach(cs: seq<Component>): nat
    decreases cs
  {
    if cs == [] then 0 else CountEach(cs[..|cs| - 1]) + CountViews(cs[|cs| - 1])
  }

  /** `n` copies of `s`, one after the other. */
  function Repeat(s: seq<Byte>, n: nat): (r: seq<Byte>)
    ensures |r| == n * |s|
  {
    if n == 0 then [] else Repeat(s, n - 1) + s
  }

  lemma {:induction false} RepeatAdd(s: seq<Byte>, a: nat, b: nat)
    ensures Repeat(s, a + b) == Repeat(s, a) + Repeat(s, b)
    decreases b
  {
    if b > 0 {
      RepeatAdd(s, a, b - 1);
    }
  }

  /** Whatever the nesting, a render is one `[1, 2, 1]` per `View` leaf. */
  lemma {:induction false} RenderIsViewCopies(c: Component)
    ensures Render(c) == Repeat(VIEW_BYTES, CountViews(c))
    decreases c
  {
    match c
    case View =>
    case Container(cs) => RenderEachIsViewCopies(cs);
  }

  lemma {:induction false} RenderEachIsViewCopies(cs: seq<Component>)
    ensures Flatten(RenderEach(cs)) == Repeat(VIEW_BYTES, CountEach(cs))
    decreases cs
  {
    if cs != [] {
      var init, last := cs[..|cs| - 1], cs[|cs| - 1];
      RenderEachIsViewCopies(init);
      RenderIsViewCopies(last);
      assert RenderEach(cs)[..|cs| - 1] == RenderEach(init);
      RepeatAdd(VIEW_BYTES, CountEach(init), CountViews(last));
    }
  }

  /** A container's bytes are its children's bytes back to back: child `i`
      starts where the children before it end. */
  lemma {:induction false} ContainerPlacesChild(cs: seq<Component>, i: nat)
    requires i < |cs|
    ensures var start := |Render(Container(cs[..i]))|;
            start + |Render(cs[i])| <= |Render(Container(cs))|
            && Render(Container(cs))[start..start + |Render(cs[i])|] == Render(cs[i])
  {
    FlattenChunk(RenderEach(cs), i);
    RenderEachAt(cs, i);
    RenderEachPrefix(cs, i);
    FlattenLength(RenderEach(cs[..i]));
  }

  /** A container of `n` plain views renders `3 * n` bytes; with none it
      renders nothing. */
  lemma {:induction false} FlatContainerLength(cs: seq<Component>)
    requires forall k :: 0 <= k < |cs| ==> cs[k] == View
    ensures |Render(Container(cs))| == 3 * |cs|
  {
    RenderIsViewCopies(Container(cs));
    FlatCount(cs);
  }

  lemma {:induction false} FlatCount(cs: seq<Component>)
    requires forall k :: 0 <= k < |cs| ==> cs[k] == View
    ensures CountEach(cs) == |cs|
    decreases |cs|
  {
    if cs != [] {
      FlatCount(cs[..|cs| - 1]);
    }
  }
}
