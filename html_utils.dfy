/**
 * HTML escaping (math-core/src/html_utils.rs): text content escapes `&`,
 * `<` and `>`; double-quoted attribute values escape `&` and `"`. Both
 * append to an existing output.
 *
 * The source works on UTF-8 bytes; every character it looks at is ASCII,
 * so working on characters gives the same text.
 */
module HtmlUtils {
  import opened Wrappers
  import opened Seqs

  predicate IsContentSpecial(c: char) {
    c == '&' || c == '<' || c == '>'
  }

  /** The entity that replaces one character of text content. */
  function EscapeContentChar(c: char): string {
    match c
    case '&' => "&amp;"
    case '<' => "&lt;"
    case '>' => "&gt;"
    case _ => [c]
  }

  /** Text content with every `&`, `<` and `>` replaced by its entity. */
  function EscapeContent(s: string): string {
    if s == [] then [] else EscapeContentChar(s[0]) + EscapeContent(s[1..])
  }

  /** The entity that replaces one character of an attribute value. */
  function EscapeAttributeChar(c: char): string {
    match c
    case '&' => "&amp;"
    case '"' => "&quot;"
    case _ => [c]
  }

  function EscapeAttribute(s: string): string {
    if s == [] then [] else EscapeAttributeChar(s[0]) + EscapeAttribute(s[1..])
  }

  /**
   * `memchr3(b'&', b'<', b'>', haystack)`: the position of the first
   * special character, if any.
   */
  function FindContentSpecial(s: string): (r: Option<nat>)
    ensures r.Some? ==> (r.value < |s| && IsContentSpecial(s[r.value])
                         && forall k | 0 <= k < r.value :: !IsContentSpecial(s[k]))
    ensures r.None? ==> forall k | 0 <= k < |s| :: !IsContentSpecial(s[k])
  {
    if s == [] then None
    else if IsContentSpecial(s[0]) then Some(0)
    else match FindContentSpecial(s[1..])
      case None => None
      case Some(i) => Some(i + 1)
  }

  /** Escaping a concatenation escapes each part. */
  lemma {:induction false} EscapeContentAppend(a: string, b: string)
    ensures EscapeContent(a + b) == EscapeContent(a) + EscapeContent(b)
    decreases |a|
  {
    if a == [] {
      assert a + b == b;
    } else {
      assert (a + b)[0] == a[0] && (a + b)[1..] == a[1..] + b;
      EscapeContentAppend(a[1..], b);
    }
  }

  /** A text without special characters is its own escape. */
  lemma {:induction false} EscapeContentPlain(s: string)
    requires forall k | 0 <= k < |s| :: !IsContentSpecial(s[k])
    ensures EscapeContent(s) == s
    decreases |s|
  {
    if s != [] {
      EscapeContentPlain(s[1..]);
    }
  }

  /**
   * `escape_html_content`: copies the text before each special character,
   * then its entity, and finally the rest.
   */
  method EscapeHtmlContent(output: string, input: string) returns (r: string)
    ensures r == output + EscapeContent(input)
  {
    r := output;
    var pos := 0;
    var found := FindContentSpecial(input);
    while found.Some?
      invariant pos <= |input| && found == FindContentSpecial(input[pos..])
      invariant r == output + EscapeContent(input[..pos])
      decreases |input| - pos
    {
      var index := found.value;
      EscapeContentAdvance(output, input, pos, index);
      r := r + input[pos..][..index] + EscapeContentChar(input[pos..][index]);
      pos := pos + index + 1;
      found := FindContentSpecial(input[pos..]);
    }
    EscapeContentFinish(output, input, pos);
    r := r + input[pos..];
  }

  /** Cutting `input` at `pos` and again `index` characters later. */
  lemma SliceAt(input: string, pos: nat, index: nat)
    requires pos + index <= |input|
    ensures input[..pos] + input[pos..] == input
    ensures pos + index < |input| ==>
      input[..pos + index + 1] == input[..pos] + input[pos..][..index] + [input[pos..][index]]
  {
  }

  /** The text before the next special character is copied, and the character escaped. */
  lemma EscapeContentAdvance(output: string, input: string, pos: nat, index: nat)
    requires pos <= |input| && FindContentSpecial(input[pos..]) == Some(index)
    ensures pos + index < |input|
    ensures output + EscapeContent(input[..pos + index + 1])
      == output + EscapeContent(input[..pos]) + input[pos..][..index] + EscapeContentChar(input[pos..][index])
  {
    var plain, special := input[pos..][..index], input[pos..][index];
    EscapeContentStep(input[..pos], plain, special);
    SliceAt(input, pos, index);
    var e := EscapeContent(input[..pos]);
    AppendAssoc(output, e + plain, EscapeContentChar(special));
    AppendAssoc(output, e, plain);
  }

  /** With no special character left, the rest is copied as it is. */
  lemma EscapeContentFinish(output: string, input: string, pos: nat)
    requires pos <= |input| && FindContentSpecial(input[pos..]).None?
    ensures output + EscapeContent(input) == output + EscapeContent(input[..pos]) + input[pos..]
  {
    EscapeContentRest(input[..pos], input[pos..]);
    SliceAt(input, pos, |input| - pos);
    AppendAssoc(output, EscapeContent(input[..pos]), input[pos..]);
  }

  /** Plain text followed by one character escapes as the text itself, then that character's escape. */
  lemma EscapeContentStep(done: string, plain: string, c: char)
    requires forall k | 0 <= k < |plain| :: !IsContentSpecial(plain[k])
    ensures EscapeContent(done + plain + [c]) == EscapeContent(done) + plain + EscapeContentChar(c)
  {
    EscapeContentPlain(plain);
    EscapeContentAppend(done, plain);
    EscapeContentAppend(done + plain, [c]);
  }

  /** Plain text appended to any text escapes as itself. */
  lemma EscapeContentRest(done: string, plain: string)
    requires forall k | 0 <= k < |plain| :: !IsContentSpecial(plain[k])
    ensures EscapeContent(done + plain) == EscapeContent(done) + plain
  {
    EscapeContentPlain(plain);
    EscapeContentAppend(done, plain);
  }

  /** `escape_double_quoted_html_attribute`: each byte in turn, `&` and `"` as entities. */
  method EscapeDoubleQuotedHtmlAttribute(output: string, input: string) returns (r: string)
    ensures r == output + EscapeAttribute(input)
  {
    r := output;
    for i := 0 to |input|
      invariant r == output + EscapeAttribute(input[..i])
    {
      EscapeAttributeSnoc(output, input, i);
      match input[i] {
        case '&' => r := r + "&amp;";
        case '"' => r := r + "&quot;";
        case _ => r := r + [input[i]];
      }
    }
    assert input[..|input|] == input;
  }

  /** One more character of the input adds its escape to the output. */
  lemma EscapeAttributeSnoc(output: string, input: string, i: nat)
    requires i < |input|
    ensures output + EscapeAttribute(input[..i + 1]) == output + EscapeAttribute(input[..i]) + EscapeAttributeChar(input[i])
  {
    EscapeAttributeAppend(input[..i], [input[i]]);
    assert input[..i + 1] == input[..i] + [input[i]];
    AppendAssoc(output, EscapeAttribute(input[..i]), EscapeAttributeChar(input[i]));
  }

  lemma {:induction false} EscapeAttributeAppend(a: string, b: string)
    ensures EscapeAttribute(a + b) == EscapeAttribute(a) + EscapeAttribute(b)
    decreases |a|
  {
    if a == [] {
      assert a + b == b;
    } else {
      assert (a + b)[0] == a[0] && (a + b)[1..] == a[1..] + b;
      EscapeAttributeAppend(a[1..], b);
    }
  }

  /** Reads the entities `&amp;`, `&lt;`, `&gt;` and `&quot;` back as characters. */
  function Unescape(t: string): string {
    if t == [] then []
    else if |t| >= 5 && t[..5] == "&amp;" then "&" + Unescape(t[5..])
    else if |t| >= 4 && t[..4] == "&lt;" then "<" + Unescape(t[4..])
    else if |t| >= 4 && t[..4] == "&gt;" then ">" + Unescape(t[4..])
    else if |t| >= 6 && t[..6] == "&quot;" then "\"" + Unescape(t[6..])
    else [t[0]] + Unescape(t[1..])
  }

  /** One escaped character followed by more text reads back as that character. */
  lemma UnescapeStep(c: char, esc: string, rest: string)
    requires esc == EscapeContentChar(c) || esc == EscapeAttributeChar(c)
    ensures Unescape(esc + rest) == [c] + Unescape(rest)
  {
    if esc == "&amp;" {
      UnescapeAmp(rest);
    } else if esc == "&lt;" {
      UnescapeLt(rest);
    } else if esc == "&gt;" {
      UnescapeGt(rest);
    } else if esc == "&quot;" {
      UnescapeQuot(rest);
    } else {
      UnescapePlain(c, rest);
    }
  }

  lemma UnescapeAmp(rest: string)
    ensures Unescape("&amp;" + rest) == "&" + Unescape(rest)
  {
    var t := "&amp;" + rest;
    assert t[..5] == "&amp;" && t[5..] == rest;
  }

  lemma UnescapeLt(rest: string)
    ensures Unescape("&lt;" + rest) == "<" + Unescape(rest)
  {
    var t := "&lt;" + rest;
    assert t[1] == 'l';
    assert t[..4] == "&lt;" && t[4..] == rest;
  }

  lemma UnescapeGt(rest: string)
    ensures Unescape("&gt;" + rest) == ">" + Unescape(rest)
  {
    var t := "&gt;" + rest;
    assert t[1] == 'g' && t[2] == 't';
    assert t[..4] == "&gt;" && t[4..] == rest;
  }

  lemma UnescapeQuot(rest: string)
    ensures Unescape("&quot;" + rest) == "\"" + Unescape(rest)
  {
    var t := "&quot;" + rest;
    assert t[1] == 'q';
    assert t[..6] == "&quot;" && t[6..] == rest;
  }

  lemma UnescapePlain(c: char, rest: string)
    requires c != '&'
    ensures Unescape([c] + rest) == [c] + Unescape(rest)
  {
    var t := [c] + rest;
    assert t[0] == c && t[1..] == rest;
  }

  /** Un-escaping the escaped text content gives back the input. */
  lemma {:induction false} ContentRoundTrip(s: string)
    ensures Unescape(EscapeContent(s)) == s
    decreases |s|
  {
    if s != [] {
      UnescapeStep(s[0], EscapeContentChar(s[0]), EscapeContent(s[1..]));
      ContentRoundTrip(s[1..]);
    }
  }

  /** Un-escaping the escaped attribute value gives back the input. */
  lemma {:induction false} AttributeRoundTrip(s: string)
    ensures Unescape(EscapeAttribute(s)) == s
    decreases |s|
  {
    if s != [] {
      UnescapeStep(s[0], EscapeAttributeChar(s[0]), EscapeAttribute(s[1..]));
      AttributeRoundTrip(s[1..]);
    }
  }

  /** Escaped content holds no `<` or `>` at all. */
  lemma {:induction false} ContentIsSafe(s: string)
    ensures forall k | 0 <= k < |EscapeContent(s)| :: EscapeContent(s)[k] != '<' && EscapeContent(s)[k] != '>'
    decreases |s|
  {
    if s != [] {
      ContentIsSafe(s[1..]);
      var e := EscapeContent(s);
      var head := EscapeContentChar(s[0]);
      forall k | 0 <= k < |e|
        ensures e[k] != '<' && e[k] != '>'
      {
        if k >= |head| {
          assert e[k] == EscapeContent(s[1..])[k - |head|];
        }
      }
    }
  }

  /** An escaped attribute value holds no `"`, so it cannot end the attribute early. */
  lemma {:induction false} AttributeIsSafe(s: string)
    ensures forall k | 0 <= k < |EscapeAttribute(s)| :: EscapeAttribute(s)[k] != '"'
    decreases |s|
  {
    if s != [] {
      AttributeIsSafe(s[1..]);
      var e := EscapeAttribute(s);
      var head := EscapeAttributeChar(s[0]);
      forall k | 0 <= k < |e|
        ensures e[k] != '"'
      {
        if k >= |head| {
          assert e[k] == EscapeAttribute(s[1..])[k - |head|];
        }
      }
    }
  }
}
