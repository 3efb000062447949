/**
 * The renderer's arena and string buffer (math-core/src/mathml_renderer/arena.rs).
 *
 * The arena only ever allocates: nodes, slices of node references, strings,
 * column specifications and array specifications, each handed back as a
 * reference that stays valid as long as the arena. It is modelled as one
 * growing pool per kind of value, a reference being a position in its pool.
 * Empty slices and strings are never allocated: the allocator of the source
 * cannot allocate them, so the arena hands out a shared empty value instead.
 *
 * The `Buffer` is a reusable string; a `StringBuilder` clears it, collects
 * pieces in it and finally copies the result into the arena.
 */
module RendererArena {
  import Utf8
  import Table

  /** A reference to an allocated slice: the shared empty slice, or a position in a pool. */
  datatype SliceRef = EmptySlice | Allocated(index: nat)

  class Arena<N> {
    var nodes: seq<N>
    var nodeSlices: seq<seq<nat>>
    var strs: seq<string>
    var columnSpecs: seq<seq<Table.ColumnSpec>>
    var arraySpecs: seq<Table.ArraySpec>

    /** `Arena::new` (and `Default`). */
    constructor ()
      ensures nodes == [] && nodeSlices == [] && strs == [] && columnSpecs == [] && arraySpecs == []
    {
      nodes, nodeSlices, strs, columnSpecs, arraySpecs := [], [], [], [], [];
    }

    /** The node references a slice reference names. */
    function NodeSlice(r: SliceRef): seq<nat>
      reads this
      requires r.Allocated? ==> r.index < |nodeSlices|
    {
      if r.EmptySlice? then [] else nodeSlices[r.index]
    }

    /** The column specifications a slice reference names. */
    function ColumnSpecSlice(r: SliceRef): seq<Table.ColumnSpec>
      reads this
      requires r.Allocated? ==> r.index < |columnSpecs|
    {
      if r.EmptySlice? then [] else columnSpecs[r.index]
    }

    /** `push`: allocates the node; the reference returned leads to an equal node. */
    method Push(node: N) returns (r: nat)
      modifies this
      ensures r < |nodes| && nodes[r] == node
      ensures nodes == old(nodes) + [node]
      ensures nodeSlices == old(nodeSlices) && strs == old(strs)
      ensures columnSpecs == old(columnSpecs) && arraySpecs == old(arraySpecs)
    {
      r := |nodes|;
      nodes := nodes + [node];
    }

    /**
     * `push_slice`: copies the references into the arena; an empty slice is
     * answered with the shared empty slice, and nothing is allocated.
     */
    method PushSlice(refs: seq<nat>) returns (r: SliceRef)
      modifies this
      ensures r.Allocated? ==> r.index < |nodeSlices|
      ensures NodeSlice(r) == refs
      ensures refs == [] <==> r.EmptySlice?
      ensures nodeSlices == if refs == [] then old(nodeSlices) else old(nodeSlices) + [refs]
      ensures nodes == old(nodes) && strs == old(strs)
      ensures columnSpecs == old(columnSpecs) && arraySpecs == old(arraySpecs)
    {
      if refs == [] {
        r := EmptySlice;
      } else {
        r := Allocated(|nodeSlices|);
        nodeSlices := nodeSlices + [refs];
      }
    }

    /** `alloc_str`: copies the string into the arena, except the empty string, which is not allocated. */
    method AllocStr(src: string) returns (s: string)
      modifies this
      ensures s == src
      ensures strs == if src == [] then old(strs) else old(strs) + [src]
      ensures nodes == old(nodes) && nodeSlices == old(nodeSlices)
      ensures columnSpecs == old(columnSpecs) && arraySpecs == old(arraySpecs)
    {
      if src == [] {
        s := [];
      } else {
        strs := strs + [src];
        s := strs[|strs| - 1];
      }
    }

    /** `alloc_column_specs`: as `push_slice`, for column specifications. */
    method AllocColumnSpecs(specs: seq<Table.ColumnSpec>) returns (r: SliceRef)
      modifies this
      ensures r.Allocated? ==> r.index < |columnSpecs|
      ensures ColumnSpecSlice(r) == specs
      ensures specs == [] <==> r.EmptySlice?
      ensures columnSpecs == if specs == [] then old(columnSpecs) else old(columnSpecs) + [specs]
      ensures nodes == old(nodes) && nodeSlices == old(nodeSlices)
      ensures strs == old(strs) && arraySpecs == old(arraySpecs)
    {
      if specs == [] {
        r := EmptySlice;
      } else {
        r := Allocated(|columnSpecs|);
        columnSpecs := columnSpecs + [specs];
      }
    }

    /** `alloc_array_spec`: allocates the array specification. */
    method AllocArraySpec(spec: Table.ArraySpec) returns (r: nat)
      modifies this
      ensures r < |arraySpecs| && arraySpecs[r] == spec
      ensures arraySpecs == old(arraySpecs) + [spec]
      ensures nodes == old(nodes) && nodeSlices == old(nodeSlices)
      ensures strs == old(strs) && columnSpecs == old(columnSpecs)
    {
      r := |arraySpecs|;
      arraySpecs := arraySpecs + [spec];
    }

    /** `freeze`: the arena without the ability to allocate. */
    method Freeze() returns (f: FrozenArena)
      ensures f == FrozenArena(|nodeSlices|)
    {
      f := FrozenArena(|nodeSlices|);
    }
  }

  /** `FrozenArena`: what is left of an arena once it stops allocating: how many node slices it holds. */
  datatype FrozenArena = FrozenArena(sliceCount: nat)

  /**
   * `contains_slice`: the empty slice counts as contained; another slice is
   * contained when this arena allocated it.
   */
  function ContainsSlice(f: FrozenArena, r: SliceRef): (b: bool)
    ensures r.EmptySlice? ==> b
    ensures r.Allocated? ==> (b <==> r.index < f.sliceCount)
  {
    match r
    case EmptySlice => true
    case Allocated(i) => i < f.sliceCount
  }

  /** Every slice `push_slice` hands out is contained in the arena once it is frozen. */
  method PushedSliceIsContained<N>(arena: Arena<N>, refs: seq<nat>) returns (contained: bool)
    modifies arena
    ensures contained
  {
    var r := arena.PushSlice(refs);
    var frozen := arena.Freeze();
    contained := ContainsSlice(frozen, r);
  }

  /** `Buffer`: a string reused from one builder to the next. */
  class Buffer {
    var text: string

    /** `Buffer::new`: empty; the size hint only reserves capacity. */
    constructor (sizeHint: nat)
      ensures text == []
    {
      text := [];
    }
  }

  /** `StringBuilder`: the buffer it has exclusive use of. */
  class StringBuilder {
    const buffer: Buffer

    /** `StringBuilder::new` (and `get_builder`): clears the buffer. */
    constructor (buffer: Buffer)
      modifies buffer
      ensures this.buffer == buffer && buffer.text == []
    {
      this.buffer := buffer;
      buffer.text := [];
    }

    /** `push_str`. */
    method PushStr(src: string)
      modifies buffer
      ensures buffer.text == old(buffer.text) + src
    {
      buffer.text := buffer.text + src;
    }

    /** `push_char`. */
    method PushChar(c: char)
      modifies buffer
      ensures buffer.text == old(buffer.text) + [c]
    {
      buffer.text := buffer.text + [c];
    }

    /** `finish`: copies what was built into the arena (`alloc_str`) and returns it. */
    method Finish<N>(arena: Arena<N>) returns (s: string)
      modifies arena
      ensures s == buffer.text
      ensures arena.strs == if s == [] then old(arena.strs) else old(arena.strs) + [s]
    {
      s := arena.AllocStr(buffer.text);
    }
  }

  /**
   * A builder yields exactly the chars pushed through it, whatever the
   * buffer held before, and the byte length of the result is the sum of the
   * UTF-8 lengths of those chars.
   */
  method BuildFromChars<N>(arena: Arena<N>, buffer: Buffer, chars: string) returns (s: string)
    modifies arena, buffer
    ensures s == chars
    ensures Utf8.Utf8Len(s) == CharLengths(chars)
  {
    var builder := new StringBuilder(buffer);
    var i := 0;
    while i < |chars|
      invariant 0 <= i <= |chars| && buffer.text == chars[..i]
    {
      builder.PushChar(chars[i]);
      assert chars[..i + 1] == chars[..i] + [chars[i]];
      i := i + 1;
    }
    assert chars[..i] == chars;
    s := builder.Finish(arena);
    Utf8LenIsSum(chars);
  }

  /** The sum of `len_utf8` over the chars, counted from the front. */
  function CharLengths(s: string): nat {
    if s == [] then 0 else Utf8.CharLen(s[0]) + CharLengths(s[1..])
  }

  /** The byte length of a string is the sum of the byte lengths of its chars. */
  lemma {:induction false} Utf8LenIsSum(s: string)
    ensures Utf8.Utf8Len(s) == CharLengths(s)
  {
    if s != [] {
      Utf8LenIsSum(s[1..]);
      Utf8.Utf8LenAppend([s[0]], s[1..]);
      assert [s[0]] + s[1..] == s;
      assert [s[0]][..0] == [];
    }
  }

  /**
   * The test `buffer_manual_reference`: `H`, `i` and a three-byte arrow make
   * the five-byte string `Hi↩`.
   */
  method ManualReference() returns (s: string)
    ensures s == "Hi↩" && Utf8.Utf8Len(s) == 5
  {
    var arena := new Arena<()>();
    var buffer := new Buffer(0);
    s := BuildFromChars(arena, buffer, "Hi↩");
    assert "Hi↩"[1..] == "i↩" && "i↩"[1..] == "↩" && "↩"[1..] == [];
  }
}
