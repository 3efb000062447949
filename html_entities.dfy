/**
 * HTML-entity decoding for the command-line tool
 * (latex2mmlc_cli/src/html_entities.rs): the reserved entities `&quot;`,
 * `&amp;`, `&apos;`, `&lt;`, `&gt;` and their decimal forms become one
 * character; every other `&...;`, and an `&` with no `;` after it, is
 * copied as it is.
 *
 * The source works on UTF-8 bytes; `&` and `;` are ASCII and every
 * replacement is one ASCII byte, so working on characters gives the same
 * text.
 */
module HtmlEntities {
  import opened Wrappers
  import opened Seqs
  import HtmlUtils

  /**
   * `HTML_RESERVED_MAP`: the character a reserved entity name stands for.
   * The ten names are `#34` and `quot` (double quote), `#38` and `amp`,
   * `#39` and `apos`, `#60` and `lt`, `#62` and `gt`; the lookup is
   * written character by character.
   */
  function Reserved(name: string): Option<char> {
    if |name| == 2 && name[1] == 't' then
      if name[0] == 'l' then Some('<') else if name[0] == 'g' then Some('>') else None
    else if |name| == 3 && name[0] == '#' then
      if name[1] == '3' && name[2] == '4' then Some('"')
      else if name[1] == '3' && name[2] == '8' then Some('&')
      else if name[1] == '3' && name[2] == '9' then Some('\'')
      else if name[1] == '6' && name[2] == '0' then Some('<')
      else if name[1] == '6' && name[2] == '2' then Some('>')
      else None
    else if |name| == 3 && name[0] == 'a' && name[1] == 'm' && name[2] == 'p' then Some('&')
    else if |name| == 4 && name[0] == 'q' && name[1] == 'u' && name[2] == 'o' && name[3] == 't' then Some('"')
    else if |name| == 4 && name[0] == 'a' && name[1] == 'p' && name[2] == 'o' && name[3] == 's' then Some('\'')
    else None
  }

  /** What `&name;` becomes: the reserved character, or the entity text unchanged. */
  function EntityText(name: string): string {
    match Reserved(name)
    case Some(c) => [c]
    case None => "&" + name + ";"
  }

  /**
   * The text decoded from position `from` on: characters other than `&`
   * are copied, and an `&` starts an entity.
   */
  function DecodeFrom(s: string, from: nat): string
    requires from <= |s|
    decreases |s| - from
  {
    if from == |s| then []
    else if s[from] != '&' then [s[from]] + DecodeFrom(s, from + 1)
    else EntityScan(s, from, from + 1)
  }

  /**
   * Inside an entity that starts with the `&` at `start`, looking at
   * position `k`: at the first `;` the entity becomes `EntityText` and
   * decoding goes on after it; with no `;` up to the end, the text from the
   * `&` on is copied as it is.
   */
  function EntityScan(s: string, start: nat, k: nat): string
    requires start < k <= |s|
    decreases |s| - k
  {
    if k == |s| then s[start..]
    else if s[k] == ';' then EntityText(s[start + 1..k]) + DecodeFrom(s, k + 1)
    else EntityScan(s, start, k + 1)
  }

  /** The decoded text. */
  function Decode(s: string): string {
    DecodeFrom(s, 0)
  }

  /**
   * `replace_html_entities`: with no `&` in the input, the input itself and
   * the buffer untouched; otherwise the buffer is cleared, receives the
   * decoded text and is the result.
   */
  method ReplaceHtmlEntities(buffer: string, input: string) returns (result: string, buffer': string)
    ensures result == Decode(input)
    ensures '&' !in input ==> result == input && buffer' == buffer
    ensures '&' in input ==> buffer' == result
  {
    var firstAmpersand := FindFrom('&', input, 0);
    if firstAmpersand.None? {
      DecodeRest([], input, 0);
      assert [] + input[0..] == input;
      return input, buffer;
    }
    var r := [];
    var lastEnd := 0;
    var nextStart := firstAmpersand.value;
    EmptyLeft(Decode(input));
    while true
      invariant lastEnd <= nextStart < |input|
      invariant FindFrom('&', input, lastEnd) == Some(nextStart - lastEnd)
      invariant r + DecodeFrom(input, lastEnd) == Decode(input)
      decreases |input| - lastEnd
    {
      var next;
      r, lastEnd, next := ScanEntity(input, r, lastEnd, nextStart);
      if next.None? {
        break;
      }
      nextStart := next.value;
    }
    r := r + input[lastEnd..];
    return r, r;
  }

  /**
   * One round of the loop of `replace_html_entities`, at the `&` at
   * `nextStart`: copies the plain text before it and, when a `;` follows,
   * the entity's text, then looks for the next `&`. With no `;` left, or no
   * `&` after the entity, what remains from `lastEnd'` on is to be copied as
   * it is.
   */
  method ScanEntity(input: string, r: string, lastEnd: nat, nextStart: nat) returns (r': string, lastEnd': nat, next: Option<nat>)
    requires lastEnd <= nextStart < |input|
    requires FindFrom('&', input, lastEnd) == Some(nextStart - lastEnd)
    requires r + DecodeFrom(input, lastEnd) == Decode(input)
    ensures lastEnd' <= |input|
    ensures next.None? ==> r' + input[lastEnd'..] == Decode(input)
    ensures next.Some? ==> lastEnd < lastEnd' <= next.value < |input|
    ensures next.Some? ==> FindFrom('&', input, lastEnd') == Some(next.value - lastEnd')
    ensures next.Some? ==> r' + DecodeFrom(input, lastEnd') == Decode(input)
  {
    var entityStart := nextStart + 1;
    var semicolon := FindFrom(';', input, entityStart);
    if semicolon.None? {
      UnterminatedAdvance(r, input, lastEnd, nextStart);
      return r + input[lastEnd..nextStart], nextStart, None;
    }
    var end := entityStart + semicolon.value;
    r', lastEnd', next := ScanPastEntity(input, r, lastEnd, nextStart, end);
  }

  /**
   * The rest of the round when the entity at `nextStart` ends at the `;` at
   * `end`: the plain text and the entity are copied, and the next `&` is
   * looked for after the `;`.
   */
  method ScanPastEntity(input: string, r: string, lastEnd: nat, nextStart: nat, end: nat)
      returns (r': string, lastEnd': nat, next: Option<nat>)
    requires lastEnd <= nextStart < end < |input| && input[nextStart] == '&' && input[end] == ';'
    requires forall i | lastEnd <= i < nextStart :: input[i] != '&'
    requires forall i | nextStart + 1 <= i < end :: input[i] != ';'
    requires r + DecodeFrom(input, lastEnd) == Decode(input)
    ensures lastEnd' <= |input|
    ensures next.None? ==> r' + input[lastEnd'..] == Decode(input)
    ensures next.Some? ==> lastEnd < lastEnd' <= next.value < |input|
    ensures next.Some? ==> FindFrom('&', input, lastEnd') == Some(next.value - lastEnd')
    ensures next.Some? ==> r' + DecodeFrom(input, lastEnd') == Decode(input)
  {
    r' := CopyEntity(input, r, lastEnd, nextStart, end);
    EntityAdvance(r, r', input, lastEnd, nextStart, end);
    var ampersand := FindFrom('&', input, end + 1);
    if ampersand.None? {
      RestAdvance(r', input, end + 1);
      return r', end + 1, None;
    }
    lastEnd' := end + 1;
    next := Some(lastEnd' + ampersand.value);
  }

  /**
   * Copies the plain text before the `&` at `nextStart`, then the entity
   * that ends at the `;` at `end`: its character when it is one of the
   * reserved ones, and its text as it is otherwise.
   */
  method CopyEntity(input: string, r: string, lastEnd: nat, nextStart: nat, end: nat) returns (r': string)
    requires lastEnd <= nextStart < end < |input| && input[nextStart] == '&' && input[end] == ';'
    ensures r' == r + input[lastEnd..nextStart] + EntityText(input[nextStart + 1..end])
  {
    r' := r + input[lastEnd..nextStart];
    match Reserved(input[nextStart + 1..end]) {
      case Some(c) => r' := r' + [c];
      case None =>
        EntityBrackets(input, nextStart, end);
        r' := r' + input[nextStart..end + 1];
    }
  }

  /**
   * The next `&` is at `nextStart` and no `;` follows it: the plain text
   * before it and everything from it on are copied.
   */
  lemma DecodeUnterminatedAt(done: string, input: string, lastEnd: nat, nextStart: nat)
    requires lastEnd <= nextStart < |input| && input[nextStart] == '&'
    requires forall i | lastEnd <= i < nextStart :: input[i] != '&'
    requires forall i | nextStart + 1 <= i < |input| :: input[i] != ';'
    ensures done + DecodeFrom(input, lastEnd) == done + input[lastEnd..nextStart] + input[nextStart..]
  {
    DecodePlainRun(input, lastEnd, nextStart);
    DecodeFromAmpersand(input, nextStart);
    EntityScanUnterminated(input, nextStart, nextStart + 1);
    Regroup(done, DecodeFrom(input, lastEnd), input[lastEnd..nextStart], DecodeFrom(input, nextStart), input[nextStart..], []);
  }

  /**
   * The next `&` is at `nextStart` and the first `;` after it at `end`: the
   * plain text before it is copied, the entity becomes its `EntityText`, and
   * decoding goes on after the `;`.
   */
  lemma DecodeEntityAt(done: string, input: string, lastEnd: nat, nextStart: nat, end: nat)
    requires lastEnd <= nextStart < end < |input| && input[nextStart] == '&' && input[end] == ';'
    requires forall i | lastEnd <= i < nextStart :: input[i] != '&'
    requires forall i | nextStart + 1 <= i < end :: input[i] != ';'
    ensures input[nextStart..end + 1] == "&" + input[nextStart + 1..end] + ";"
    ensures done + DecodeFrom(input, lastEnd) == done + input[lastEnd..nextStart]
      + EntityText(input[nextStart + 1..end]) + DecodeFrom(input, end + 1)
  {
    DecodePlainRun(input, lastEnd, nextStart);
    DecodeFromAmpersand(input, nextStart);
    EntityScanTo(input, nextStart, nextStart + 1, end);
    EntitySlice(input, nextStart, end);
    Regroup(done, DecodeFrom(input, lastEnd), input[lastEnd..nextStart], DecodeFrom(input, nextStart),
      EntityText(input[nextStart + 1..end]), DecodeFrom(input, end + 1));
  }

  /** The decoded text so far, extended by the plain run and the entity, is followed by the decoding after the `;`. */
  lemma EntityAdvance(done: string, done': string, input: string, lastEnd: nat, nextStart: nat, end: nat)
    requires lastEnd <= nextStart < end < |input| && input[nextStart] == '&' && input[end] == ';'
    requires forall i | lastEnd <= i < nextStart :: input[i] != '&'
    requires forall i | nextStart + 1 <= i < end :: input[i] != ';'
    requires done + DecodeFrom(input, lastEnd) == Decode(input)
    requires done' == done + input[lastEnd..nextStart] + EntityText(input[nextStart + 1..end])
    ensures done' + DecodeFrom(input, end + 1) == Decode(input)
  {
    DecodeEntityAt(done, input, lastEnd, nextStart, end);
  }

  /** The text from an `&` to the next `;` is the name between them, bracketed. */
  lemma EntityBrackets(input: string, nextStart: nat, end: nat)
    requires nextStart < end < |input| && input[nextStart] == '&' && input[end] == ';'
    ensures input[nextStart..end + 1] == "&" + input[nextStart + 1..end] + ";"
  {
  }

  /** With no `;` after the `&` at `nextStart`, the decoding ends with everything from there on. */
  lemma UnterminatedAdvance(done: string, input: string, lastEnd: nat, nextStart: nat)
    requires lastEnd <= nextStart < |input|
    requires FindFrom('&', input, lastEnd) == Some(nextStart - lastEnd)
    requires FindFrom(';', input, nextStart + 1).None?
    requires done + DecodeFrom(input, lastEnd) == Decode(input)
    ensures done + input[lastEnd..nextStart] + input[nextStart..] == Decode(input)
  {
    DecodeUnterminatedAt(done, input, lastEnd, nextStart);
  }

  /** With no `&` from `lastEnd` on, the decoding ends with the rest of the input. */
  lemma RestAdvance(done: string, input: string, lastEnd: nat)
    requires lastEnd <= |input| && FindFrom('&', input, lastEnd).None?
    requires done + DecodeFrom(input, lastEnd) == Decode(input)
    ensures done + input[lastEnd..] == Decode(input)
  {
    DecodeRest(done, input, lastEnd);
  }

  /** An `&` starts the scan of an entity. */
  lemma DecodeFromAmpersand(s: string, i: nat)
    requires i < |s| && s[i] == '&'
    ensures DecodeFrom(s, i) == EntityScan(s, i, i + 1)
  {
  }

  /** The scan of an entity ends at the first `;` at or after `k`. */
  lemma {:induction false} EntityScanTo(s: string, start: nat, k: nat, end: nat)
    requires start < k <= end < |s| && s[end] == ';'
    requires forall i | k <= i < end :: s[i] != ';'
    ensures EntityScan(s, start, k) == EntityText(s[start + 1..end]) + DecodeFrom(s, end + 1)
    decreases end - k
  {
    if k < end {
      assert s[k] != ';';
      EntityScanTo(s, start, k + 1, end);
    }
  }

  /** With no `;` at or after `k`, the scan copies the text from the `&` on. */
  lemma {:induction false} EntityScanUnterminated(s: string, start: nat, k: nat)
    requires start < k <= |s|
    requires forall i | k <= i < |s| :: s[i] != ';'
    ensures EntityScan(s, start, k) == s[start..]
    decreases |s| - k
  {
    if k < |s| {
      EntityScanUnterminated(s, start, k + 1);
    }
  }

  /** `&name;` between `nextStart` and `end`, as a slice of the whole input. */
  lemma EntitySlice(input: string, nextStart: nat, end: nat)
    requires nextStart < end < |input| && input[nextStart] == '&' && input[end] == ';'
    ensures input[nextStart..end + 1] == "&" + input[nextStart + 1..end] + ";"
  {
    assert input[nextStart..end + 1] == [input[nextStart]] + input[nextStart + 1..end] + [input[end]];
  }

  /** With no `&` left from `lastEnd` on, the rest is copied as it is. */
  lemma DecodeRest(done: string, input: string, lastEnd: nat)
    requires lastEnd <= |input| && FindFrom('&', input, lastEnd).None?
    ensures done + DecodeFrom(input, lastEnd) == done + input[lastEnd..]
  {
    DecodePlainRun(input, lastEnd, |input|);
    assert input[lastEnd..|input|] == input[lastEnd..];
    assert input[lastEnd..] + [] == input[lastEnd..];
  }

  /** A run without `&` is copied ahead of whatever follows it. */
  lemma {:induction false} DecodePlainRun(s: string, a: nat, b: nat)
    requires a <= b <= |s|
    requires forall k | a <= k < b :: s[k] != '&'
    ensures DecodeFrom(s, a) == s[a..b] + DecodeFrom(s, b)
    decreases b - a
  {
    if a < b {
      DecodePlainRun(s, a + 1, b);
      AppendAssoc([s[a]], s[a + 1..b], DecodeFrom(s, b));
      assert [s[a]] + s[a + 1..b] == s[a..b];
    } else {
      assert s[a..b] + DecodeFrom(s, b) == DecodeFrom(s, b);
    }
  }

  // Properties of the decoding

  /** The ten reserved names, and nothing else, stand for one character. */
  lemma ReservedNames(name: string)
    ensures Reserved(name).Some? <==>
      name in {"#34", "quot", "#38", "amp", "#39", "apos", "#60", "lt", "#62", "gt"}
  {
    if Reserved(name).Some? {
      if |name| == 2 {
        assert name == [name[0], 't'];
      } else if |name| == 3 {
        assert name == [name[0], name[1], name[2]];
      } else {
        assert name == [name[0], name[1], name[2], name[3]];
      }
    }
  }

  /** What each reserved entity becomes; any other name is copied. */
  lemma ReservedEntities()
    ensures EntityText("quot") == "\"" && EntityText("#34") == "\""
    ensures EntityText("amp") == "&" && EntityText("#38") == "&"
    ensures EntityText("apos") == "'" && EntityText("#39") == "'"
    ensures EntityText("lt") == "<" && EntityText("#60") == "<"
    ensures EntityText("gt") == ">" && EntityText("#62") == ">"
    ensures EntityText("nbsp") == "&nbsp;" && EntityText("&amp") == "&&amp;"
  {
  }

  /** An entity becomes at most as long as its `&name;` text. */
  lemma EntityTextLength(name: string)
    ensures |EntityText(name)| <= |name| + 2
    ensures Reserved(name).None? ==> EntityText(name) == "&" + name + ";"
  {
  }

  /** Decoding looks only at the text from its starting position on. */
  lemma {:induction false} DecodeShift(a: string, b: string, i: nat)
    requires i <= |b|
    ensures DecodeFrom(a + b, |a| + i) == DecodeFrom(b, i)
    decreases |b| - i, 1
  {
    if i < |b| {
      assert (a + b)[|a| + i] == b[i];
      if b[i] == '&' {
        EntityScanShift(a, b, i, i + 1);
      } else {
        DecodeShift(a, b, i + 1);
      }
    }
  }

  lemma {:induction false} EntityScanShift(a: string, b: string, start: nat, k: nat)
    requires start < k <= |b|
    ensures EntityScan(a + b, |a| + start, |a| + k) == EntityScan(b, start, k)
    decreases |b| - k, 0
  {
    ShiftSlice(a, b, start, k);
    if k < |b| {
      assert (a + b)[|a| + k] == b[k];
      if b[k] == ';' {
        DecodeShift(a, b, k + 1);
        assert DecodeFrom(a + b, |a| + k + 1) == DecodeFrom(b, k + 1);
      } else {
        EntityScanShift(a, b, start, k + 1);
      }
    }
  }

  lemma ShiftSlice(a: string, b: string, i: nat, j: nat)
    requires i < j <= |b|
    ensures (a + b)[|a| + i + 1..|a| + j] == b[i + 1..j]
    ensures (a + b)[|a| + i..] == b[i..]
  {
  }

  /** Decoding never lengthens the text. */
  lemma DecodeShorter(s: string)
    ensures |Decode(s)| <= |s|
  {
    DecodeFromShorter(s, 0);
  }

  lemma {:induction false} DecodeFromShorter(s: string, from: nat)
    requires from <= |s|
    ensures |DecodeFrom(s, from)| <= |s| - from
    decreases |s| - from, 1
  {
    if from < |s| {
      if s[from] == '&' {
        EntityScanShorter(s, from, from + 1);
      } else {
        DecodeFromShorter(s, from + 1);
      }
    }
  }

  lemma {:induction false} EntityScanShorter(s: string, start: nat, k: nat)
    requires start < k <= |s|
    ensures |EntityScan(s, start, k)| <= |s| - start
    decreases |s| - k, 0
  {
    if k < |s| {
      if s[k] == ';' {
        EntityTextLength(s[start + 1..k]);
        DecodeFromShorter(s, k + 1);
      } else {
        EntityScanShorter(s, start, k + 1);
      }
    }
  }

  /** Text without `&` decodes to itself. */
  lemma DecodePlain(s: string)
    requires '&' !in s
    ensures Decode(s) == s
  {
    DecodePlainRun(s, 0, |s|);
    assert s[0..|s|] == s;
  }

  /** A character other than `&` is copied ahead of the decoded rest. */
  lemma DecodeCons(c: char, rest: string)
    requires c != '&'
    ensures Decode([c] + rest) == [c] + Decode(rest)
  {
    DecodeShift([c], rest, 0);
  }

  /**
   * `&name;` after plain text (no `&` in it) and with no `;` in the name
   * becomes the plain text, then the name's `EntityText`, then the decoded
   * rest.
   */
  lemma DecodeEntity(plain: string, name: string, rest: string)
    requires '&' !in plain && ';' !in name
    ensures Decode(plain + "&" + name + ";" + rest) == plain + EntityText(name) + Decode(rest)
  {
    var head := plain + "&" + name + ";";
    var input := head + rest;
    var nextStart, end := |plain|, |plain| + 1 + |name|;
    EntityLayout(plain, name, rest);
    DecodeEntityAt([], input, 0, nextStart, end);
    DecodeShift(head, rest, 0);
    EntityDecoded(DecodeFrom(input, 0), input[0..nextStart], plain, input[nextStart + 1..end], name,
      DecodeFrom(input, end + 1), Decode(rest));
  }

  /** The decoding found by position, restated with the parts it was built from. */
  lemma EntityDecoded(d: string, before: string, plain: string, n: string, name: string, after: string, rest: string)
    requires [] + d == [] + before + EntityText(n) + after
    requires before == plain && n == name && after == rest
    ensures d == plain + EntityText(name) + rest
  {
    EmptyLeft(d);
    EmptyLeft(before);
  }

  /** Where the parts of `plain&name;rest` sit. */
  lemma EntityLayout(plain: string, name: string, rest: string)
    requires '&' !in plain && ';' !in name
    ensures var input := plain + "&" + name + ";" + rest;
      var end := |plain| + 1 + |name|;
      && end < |input| && input[|plain|] == '&' && input[end] == ';'
      && input[0..|plain|] == plain && input[|plain| + 1..end] == name
      && |plain + "&" + name + ";"| + 0 == end + 1 && input == (plain + "&" + name + ";") + rest
      && (forall i | 0 <= i < |plain| :: input[i] != '&')
      && (forall i | |plain| + 1 <= i < end :: input[i] != ';')
  {
    var input := plain + "&" + name + ";" + rest;
    var end := |plain| + 1 + |name|;
    forall i | 0 <= i < |plain|
      ensures input[i] != '&'
    {
      assert input[i] == plain[i];
    }
    forall i | |plain| + 1 <= i < end
      ensures input[i] != ';'
    {
      assert input[i] == name[i - |plain| - 1];
    }
  }

  /** An `&` with no `;` after it is copied together with everything after it. */
  lemma DecodeUnterminated(plain: string, tail: string)
    requires '&' !in plain && ';' !in tail
    ensures Decode(plain + "&" + tail) == plain + "&" + tail
  {
    var input := plain + "&" + tail;
    var nextStart := |plain|;
    assert input[nextStart] == '&';
    assert input[0..nextStart] == plain && input[nextStart..] == "&" + tail;
    DecodeUnterminatedAt([], input, 0, nextStart);
    assert [] + Decode(input) == Decode(input);
    assert [] + plain + ("&" + tail) == input;
  }

  /** One character escaped by the renderer's HTML escaping decodes back to itself. */
  lemma DecodeEscapedChar(c: char, esc: string, rest: string)
    requires esc == HtmlUtils.EscapeContentChar(c) || esc == HtmlUtils.EscapeAttributeChar(c)
    ensures Decode(esc + rest) == [c] + Decode(rest)
  {
    if c == '&' {
      DecodeReservedEntity("amp", '&', rest);
      assert "&" + "amp" + ";" == esc;
    } else if c == '<' && esc == "&lt;" {
      DecodeReservedEntity("lt", '<', rest);
      assert "&" + "lt" + ";" == esc;
    } else if c == '>' && esc == "&gt;" {
      DecodeReservedEntity("gt", '>', rest);
      assert "&" + "gt" + ";" == esc;
    } else if c == '"' && esc == "&quot;" {
      DecodeReservedEntity("quot", '"', rest);
      assert "&" + "quot" + ";" == esc;
    } else {
      DecodeCons(c, rest);
    }
  }

  lemma DecodeReservedEntity(name: string, c: char, rest: string)
    requires ';' !in name && Reserved(name) == Some(c)
    ensures Decode("&" + name + ";" + rest) == [c] + Decode(rest)
  {
    DecodeEntity([], name, rest);
    assert [] + "&" + name + ";" + rest == "&" + name + ";" + rest;
  }

  /** Decoding the escaped text content of `escape_html_content` gives back the text. */
  lemma {:induction false} DecodeEscapedContent(s: string)
    ensures Decode(HtmlUtils.EscapeContent(s)) == s
    decreases |s|
  {
    if s != [] {
      DecodeEscapedChar(s[0], HtmlUtils.EscapeContentChar(s[0]), HtmlUtils.EscapeContent(s[1..]));
      DecodeEscapedContent(s[1..]);
    }
  }

  /** Decoding an attribute value escaped by `escape_double_quoted_html_attribute` gives back the value. */
  lemma {:induction false} DecodeEscapedAttribute(s: string)
    ensures Decode(HtmlUtils.EscapeAttribute(s)) == s
    decreases |s|
  {
    if s != [] {
      DecodeEscapedChar(s[0], HtmlUtils.EscapeAttributeChar(s[0]), HtmlUtils.EscapeAttribute(s[1..]));
      DecodeEscapedAttribute(s[1..]);
    }
  }
}
