/**
 * The string arena of latex2mmlc/src/str_arena.rs: one append-only string
 * buffer that the parser writes all its text into, handing out ranges of it;
 * a `StringBuilder` remembers where the string under construction starts, so
 * that when it is finished its range covers exactly what was pushed since.
 *
 * Ranges count chars; the source counts bytes of the UTF-8 encoding, and
 * `ByteBound` converts one to the other.
 */
module StrArena {
  import Utf8

  /** `StrReference`: the bounds of a range of the buffer. */
  datatype StrReference = StrReference(start: nat, end: nat)

  /** The append-only part of the contract: `b` is `a` with something after it. */
  predicate Extends(a: string, b: string) {
    |a| <= |b| && b[..|a|] == a
  }

  /** A range with ordered bounds inside `text`. */
  predicate ValidIn(r: StrReference, text: string) {
    r.start <= r.end <= |text|
  }

  /** `StrReference::as_str`: the text between the bounds. */
  function AsStr(r: StrReference, text: string): (s: string)
    requires ValidIn(r, text)
    ensures |s| == r.end - r.start
    ensures forall i | 0 <= i < |s| :: s[i] == text[r.start + i]
  {
    text[r.start..r.end]
  }

  /** The byte offset in the UTF-8 encoding of `text` that char bound `n` stands for. */
  function ByteBound(text: string, n: nat): nat
    requires n <= |text|
  {
    Utf8.Utf8Len(text[..n])
  }

  /**
   * Because the buffer only grows, every range handed out earlier still
   * names the same text afterwards.
   */
  lemma {:induction false} EarlierReferencesStay(r: StrReference, a: string, b: string)
    requires ValidIn(r, a) && Extends(a, b)
    ensures ValidIn(r, b) && AsStr(r, b) == AsStr(r, a)
  {
    forall i | r.start <= i < r.end ensures b[i] == a[i] {
      assert b[..|a|][i] == b[i];
    }
  }

  /** `Buffer`. */
  class Buffer {
    var text: string

    /** `Buffer::new`: empty; the size hint only reserves capacity. */
    constructor (sizeHint: nat)
      ensures text == []
    {
      text := [];
    }

    /** `end`: the bound just past the text. */
    function End(): (n: nat)
      reads this
      ensures n == |text|
    {
      |text|
    }

    /** `extend`: appends the chars; the range returned covers exactly them. */
    method Extend(chars: string) returns (r: StrReference)
      modifies this
      ensures text == old(text) + chars
      ensures r == StrReference(|old(text)|, |text|)
      ensures ValidIn(r, text) && AsStr(r, text) == chars
    {
      var start := End();
      text := text + chars;
      r := StrReference(start, End());
    }

    /**
     * `extend_from_within`: appends a copy of the text of a range of the
     * buffer itself. The source asserts (and panics otherwise) that the
     * range is ordered and inside the buffer; its inner guard, which skips
     * the copy for a range starting at the very end, only skips copying
     * nothing.
     */
    method ExtendFromWithin(reference: StrReference) returns (r: StrReference)
      requires ValidIn(reference, text)
      modifies this
      ensures text == old(text) + AsStr(reference, old(text))
      ensures r == StrReference(|old(text)|, |text|)
      ensures ValidIn(r, text) && AsStr(r, text) == AsStr(reference, old(text))
    {
      var start := End();
      var begin, end := reference.start, reference.end;
      if begin <= end && begin < |text| && end <= |text| {
        text := text + text[begin..end];
      } else {
        assert text[begin..end] == [];
      }
      r := StrReference(start, End());
    }

    /** `transform_and_push`: appends the input with every char transformed. */
    method TransformAndPush(input: string, transform: char -> char) returns (r: StrReference)
      modifies this
      ensures |text| == |old(text)| + |input|
      ensures text[..|old(text)|] == old(text)
      ensures forall i | 0 <= i < |input| :: text[|old(text)| + i] == transform(input[i])
      ensures r == StrReference(|old(text)|, |text|)
    {
      var mapped := seq(|input|, i requires 0 <= i < |input| => transform(input[i]));
      r := Extend(mapped);
    }

    /** `push_str`: appends the string; the range returned is `[old length, new length)`. */
    method PushStr(s: string) returns (r: StrReference)
      modifies this
      ensures text == old(text) + s
      ensures r == StrReference(|old(text)|, |text|)
      ensures ValidIn(r, text) && AsStr(r, text) == s
    {
      var start := End();
      text := text + s;
      r := StrReference(start, End());
    }
  }

  /**
   * `StringBuilder`: the buffer and the bound where the string being built
   * starts. `pushed` is what was appended since.
   */
  class StringBuilder {
    const buffer: Buffer
    const start: nat
    ghost var pushed: string

    ghost predicate Valid()
      reads this, buffer
    {
      start + |pushed| == |buffer.text| && buffer.text[start..] == pushed
    }

    /** `StringBuilder::new` (and `get_builder`): starts at the end of the buffer. */
    constructor (buffer: Buffer)
      ensures Valid() && this.buffer == buffer && start == |buffer.text| && pushed == []
    {
      this.buffer := buffer;
      start := buffer.End();
      pushed := [];
    }

    /** `push_str`. */
    method PushStr(s: string) returns (r: StrReference)
      requires Valid()
      modifies this, buffer
      ensures Valid() && pushed == old(pushed) + s
      ensures buffer.text == old(buffer.text) + s
      ensures ValidIn(r, buffer.text) && AsStr(r, buffer.text) == s
    {
      r := buffer.PushStr(s);
      pushed := pushed + s;
    }

    /** `push_char`. */
    method PushChar(c: char)
      requires Valid()
      modifies this, buffer
      ensures Valid() && pushed == old(pushed) + [c]
      ensures buffer.text == old(buffer.text) + [c]
    {
      buffer.text := buffer.text + [c];
      pushed := pushed + [c];
    }

    /** `extend_from_within`. */
    method ExtendFromWithin(reference: StrReference) returns (r: StrReference)
      requires Valid() && ValidIn(reference, buffer.text)
      modifies this, buffer
      ensures Valid() && pushed == old(pushed) + AsStr(reference, old(buffer.text))
      ensures buffer.text == old(buffer.text) + AsStr(reference, old(buffer.text))
      ensures ValidIn(r, buffer.text) && AsStr(r, buffer.text) == AsStr(reference, old(buffer.text))
    {
      ghost var copied := AsStr(reference, buffer.text);
      r := buffer.ExtendFromWithin(reference);
      pushed := pushed + copied;
    }

    /** `transform_and_push`. */
    method TransformAndPush(input: string, transform: char -> char) returns (r: StrReference)
      requires Valid()
      modifies this, buffer
      ensures Valid() && |pushed| == |old(pushed)| + |input|
      ensures pushed[..|old(pushed)|] == old(pushed)
      ensures forall i | 0 <= i < |input| :: pushed[|old(pushed)| + i] == transform(input[i])
      ensures buffer.text[..|old(buffer.text)|] == old(buffer.text)
      ensures r == StrReference(|old(buffer.text)|, |buffer.text|)
      ensures ValidIn(r, buffer.text) && AsStr(r, buffer.text) == pushed[|old(pushed)|..]
    {
      ghost var n := |buffer.text|;
      r := buffer.TransformAndPush(input, transform);
      pushed := buffer.text[start..];
      assert pushed[..|old(pushed)|] == buffer.text[..n][start..];
      assert pushed[|old(pushed)|..] == buffer.text[n..];
      forall i | 0 <= i < |input| ensures pushed[|old(pushed)| + i] == transform(input[i]) {
        assert pushed[|old(pushed)| + i] == buffer.text[n + i];
      }
    }

    /**
     * `finish`: the range from the start to the current end of the buffer,
     * which names exactly the text pushed through the builder.
     */
    method Finish() returns (r: StrReference)
      requires Valid()
      ensures r == StrReference(start, |buffer.text|)
      ensures ValidIn(r, buffer.text) && AsStr(r, buffer.text) == pushed
    {
      r := StrReference(start, buffer.End());
    }
  }

  /**
   * The test `buffer_manual_reference`: pushing `H`, `i` and a three-byte
   * arrow into an empty buffer gives a range whose text is `Hi↩` and whose
   * end is byte 5.
   */
  method ManualReference() returns (r: StrReference, s: string, byteEnd: nat)
    ensures s == "Hi↩" && byteEnd == 5
  {
    var buffer := new Buffer(0);
    var builder := new StringBuilder(buffer);
    builder.PushChar('H');
    builder.PushChar('i');
    builder.PushChar('↩');
    r := builder.Finish();
    s := AsStr(r, buffer.text);
    byteEnd := ByteBound(buffer.text, r.end);
    assert buffer.text == "Hi↩" && buffer.text[..3] == buffer.text && buffer.text[..0] == [];
    Utf8.Utf8LenPrefixStep(buffer.text, 0);
    Utf8.Utf8LenPrefixStep(buffer.text, 1);
    Utf8.Utf8LenPrefixStep(buffer.text, 2);
  }
}
