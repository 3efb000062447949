/**
 * The document replacer of the command-line tool (math-core-cli/src/replace.rs):
 * finds inline and block math between delimiters in a text, hands the
 * content (with HTML entities decoded) to a conversion function, and writes
 * the text outside the delimiters through unchanged.
 */
module Replace {
  import opened Wrappers
  import opened Seqs
  import opened Converter
  import HtmlEntities

  /** The delimiters and the two switches a `Replacer` is built with. */
  datatype Config = Config(
    inlineDelim: (string, string),
    blockDelim: (string, string),
    ignoreEscapedDelim: bool,
    continueOnError: bool)

  function Opening(c: Config, typ: MathDisplay): string {
    match typ
    case Inline => c.inlineDelim.0
    case Block => c.blockDelim.0
  }

  function Closing(c: Config, typ: MathDisplay): string {
    match typ
    case Inline => c.inlineDelim.1
    case Block => c.blockDelim.1
  }

  /** Both kinds of math end with the same delimiter. */
  predicate ClosingIdentical(c: Config) {
    c.inlineDelim.1 == c.blockDelim.1
  }

  datatype ConvErrKind = UnclosedDelimiter | NestedDelimiters | MismatchedDelimiters(close: nat) | LatexError(content: string)

  /** An error and the position in the input it refers to. */
  datatype ConversionError = ConversionError(pos: nat, kind: ConvErrKind)

  /**
   * What the conversion function does with one piece of math: its new
   * state, the text it appended to the output, and whether it failed.
   */
  datatype Conversion<S> = Conversion(state: S, written: string, failed: bool)

  predicate OccursAt(s: string, needle: string, p: nat) {
    p + |needle| <= |s| && s[p..p + |needle|] == needle
  }

  /** A substring search (`Finder::find` on `s[from..]`): the first occurrence of `needle` at or after `from`. */
  function FirstFrom(s: string, needle: string, from: nat): Option<nat>
    decreases |s| - from
  {
    if from + |needle| > |s| then None
    else if s[from..from + |needle|] == needle then Some(from)
    else FirstFrom(s, needle, from + 1)
  }

  /** The search finds an occurrence at or after `from` with none before it, and fails only when there is none. */
  lemma {:induction false} FirstFromIsFirst(s: string, needle: string, from: nat)
    ensures var r := FirstFrom(s, needle, from);
      && (r.Some? ==> from <= r.value && OccursAt(s, needle, r.value))
      && (r.Some? ==> forall q | from <= q < r.value :: !OccursAt(s, needle, q))
      && (r.None? ==> forall q | from <= q :: !OccursAt(s, needle, q))
    decreases |s| - from
  {
    if from + |needle| <= |s| && s[from..from + |needle|] != needle {
      FirstFromIsFirst(s, needle, from + 1);
    }
  }

  /** The empty delimiter is found wherever the search starts. */
  lemma EmptyFoundAtOnce(s: string, from: nat)
    requires from <= |s|
    ensures FirstFrom(s, [], from) == Some(from)
  {
  }

  /** A delimiter directly after a backslash is escaped. */
  predicate Escaped(s: string, p: nat) {
    0 < p <= |s| && s[p - 1] == '\\'
  }

  /**
   * The loop of `find_delimiter_position` that skips escaped delimiters:
   * after an escaped occurrence the search goes on past its end.
   */
  function UnescapedFrom(s: string, needle: string, offset: nat): Option<nat>
    requires offset <= |s| && (|needle| > 0 || offset == 0)
    decreases |s| - offset
  {
    match FirstFrom(s, needle, offset)
    case None => None
    case Some(p) =>
      if Escaped(s, p) then
        UnescapedSkips(s, needle, offset, p);
        UnescapedFrom(s, needle, p + |needle|)
      else Some(p)
  }

  /** An escaped occurrence is skipped, and the search can go on after it. */
  lemma UnescapedSkips(s: string, needle: string, offset: nat, p: nat)
    requires offset <= |s| && (|needle| > 0 || offset == 0)
    requires FirstFrom(s, needle, offset) == Some(p) && Escaped(s, p)
    ensures |needle| > 0 && offset <= p && p + |needle| <= |s|
  {
    FirstFromIsFirst(s, needle, offset);
    if |needle| == 0 {
      EmptyFoundAtOnce(s, offset);
    }
  }

  /**
   * One round of the search: an escaped occurrence is skipped and the search
   * goes on after it; an occurrence that is not escaped is the answer.
   */
  lemma UnescapedStep(s: string, needle: string, offset: nat)
    requires offset <= |s| && (|needle| > 0 || offset == 0)
    requires FirstFrom(s, needle, offset).Some?
    ensures var p := FirstFrom(s, needle, offset).value;
      offset <= p && p + |needle| <= |s|
      && (Escaped(s, p) ==> |needle| > 0 && UnescapedFrom(s, needle, offset) == UnescapedFrom(s, needle, p + |needle|))
      && (!Escaped(s, p) ==> UnescapedFrom(s, needle, offset) == Some(p))
  {
    FirstFromIsFirst(s, needle, offset);
    var p := FirstFrom(s, needle, offset).value;
    if Escaped(s, p) {
      UnescapedSkips(s, needle, offset, p);
    }
  }

  /** Skipping escaped occurrences gives an occurrence that is not escaped. */
  lemma {:induction false} UnescapedIsUnescaped(s: string, needle: string, offset: nat)
    requires offset <= |s| && (|needle| > 0 || offset == 0)
    ensures var r := UnescapedFrom(s, needle, offset);
      r.Some? ==> offset <= r.value && OccursAt(s, needle, r.value) && !Escaped(s, r.value)
    decreases |s| - offset
  {
    var f := FirstFrom(s, needle, offset);
    if f.Some? {
      FirstFromIsFirst(s, needle, offset);
      UnescapedStep(s, needle, offset);
      if Escaped(s, f.value) {
        UnescapedIsUnescaped(s, needle, f.value + |needle|);
      }
    }
  }

  /** `find_delimiter_position`: the first occurrence, or the first one not escaped when escapes are ignored. */
  function DelimiterPosition(c: Config, s: string, needle: string): Option<nat> {
    if !c.ignoreEscapedDelim then FirstFrom(s, needle, 0) else UnescapedFrom(s, needle, 0)
  }

  /** The position found is an occurrence of the delimiter, and not an escaped one when escapes are ignored. */
  lemma DelimiterPositionOccurs(c: Config, s: string, needle: string)
    ensures var r := DelimiterPosition(c, s, needle);
      && (r.Some? ==> OccursAt(s, needle, r.value))
      && (r.Some? && c.ignoreEscapedDelim ==> !Escaped(s, r.value))
  {
    FirstFromIsFirst(s, needle, 0);
    UnescapedIsUnescaped(s, needle, 0);
  }

  /** A delimiter search: where a delimiter first occurs in a text, if anywhere. */
  type Finder = (string, string) -> Option<nat>

  /** What a delimiter search must do here: report only occurrences, and find an empty delimiter at the start. */
  ghost predicate FindsOccurrences(find: Finder) {
    forall s: string, needle: string ::
      && (find(s, needle).Some? ==> OccursAt(s, needle, find(s, needle).value))
      && (needle == [] ==> find(s, needle) == Some(0))
  }

  /** The search of a `Replacer` with configuration `c` (`find_delimiter_position`). */
  function Find(c: Config): Finder {
    (s: string, needle: string) => DelimiterPosition(c, s, needle)
  }

  /** The replacer's search finds occurrences only, and the empty delimiter at the start. */
  lemma FindFindsOccurrences(c: Config)
    ensures FindsOccurrences(Find(c))
  {
    forall s: string, needle: string
      ensures && (Find(c)(s, needle).Some? ==> OccursAt(s, needle, Find(c)(s, needle).value))
              && (needle == [] ==> Find(c)(s, needle) == Some(0))
    {
      DelimiterPositionOccurs(c, s, needle);
      if needle == [] {
        EmptyFoundAtOnce(s, 0);
      }
    }
  }

  function Delimiter(c: Config, typ: MathDisplay, opening: bool): string {
    if opening then Opening(c, typ) else Closing(c, typ)
  }

  /** `find_next_delimiter`: the nearer of the inline and the block delimiter; on a tie, block. */
  function NextDelimiter(c: Config, find: Finder, s: string, opening: bool): (r: Option<(MathDisplay, nat)>)
    requires FindsOccurrences(find)
    ensures r.Some? ==> OccursAt(s, Delimiter(c, r.value.0, opening), r.value.1)
  {
    var inlinePos := find(s, Delimiter(c, Inline, opening));
    var blockPos := find(s, Delimiter(c, Block, opening));
    match (inlinePos, blockPos)
    case (Some(i), Some(b)) => if b <= i then Some((Block, b)) else Some((Inline, i))
    case (Some(i), None) => Some((Inline, i))
    case (None, Some(b)) => Some((Block, b))
    case (None, None) => None
  }

  /**
   * The delimiter found is the nearer one: found iff either kind is found,
   * at the position its own search gives, and not after the other kind.
   */
  lemma NextDelimiterIsNearest(c: Config, find: Finder, s: string, opening: bool)
    requires FindsOccurrences(find)
    ensures var r := NextDelimiter(c, find, s, opening);
      var i := find(s, Delimiter(c, Inline, opening));
      var b := find(s, Delimiter(c, Block, opening));
      && (r.None? <==> i.None? && b.None?)
      && (r.Some? ==> find(s, Delimiter(c, r.value.0, opening)) == Some(r.value.1))
      && (r.Some? && r.value.0 == Block ==> i.None? || r.value.1 <= i.value)
      && (r.Some? && r.value.0 == Inline ==> b.None? || r.value.1 < b.value)
  {
  }

  /** Block and inline delimiters found at the same place: the block one is taken. */
  lemma TieGoesToBlock(c: Config, find: Finder, s: string, opening: bool, p: nat)
    requires FindsOccurrences(find)
    requires find(s, Delimiter(c, Inline, opening)) == Some(p)
    requires find(s, Delimiter(c, Block, opening)) == Some(p)
    ensures NextDelimiter(c, find, s, opening) == Some((Block, p))
  {
  }

  /** Without escapes in the way, ignoring escaped delimiters finds the plain first occurrence. */
  lemma UnescapedIsFirstWhenNoEscape(s: string, needle: string)
    requires |needle| > 0
    requires forall p | OccursAt(s, needle, p) :: !Escaped(s, p)
    ensures UnescapedFrom(s, needle, 0) == FirstFrom(s, needle, 0)
  {
    FirstFromIsFirst(s, needle, 0);
  }

  /** An empty opening delimiter is found at the start of any text. */
  lemma EmptyOpeningFound(c: Config, find: Finder, s: string, typ: MathDisplay)
    requires FindsOccurrences(find) && Opening(c, typ) == []
    ensures NextDelimiter(c, find, s, true).Some?
  {
    assert find(s, Delimiter(c, typ, true)) == Some(0);
  }

  /** The outcome of one pass of the loop of `replace`: finished, or going on from `next` with the output so far. */
  datatype Step<S> = Finished(r: Result<string, ConversionError>, state: S) | Continue(state: S, next: nat, result: string)

  /**
   * One pass from `pos`, with `result` the output so far: copies the text
   * up to the next opening delimiter, or the rest of the input when there
   * is none.
   */
  function ReplaceStep<S>(c: Config, find: Finder, input: string, convert: (S, string, MathDisplay) -> Conversion<S>,
                          state: S, pos: nat, result: string): Step<S>
    requires FindsOccurrences(find) && pos < |input|
  {
    var remaining := input[pos..];
    var opening := NextDelimiter(c, find, remaining, true);
    if opening.None? then Finished(Ok(result + remaining), state)
    else
      var openPos := pos + opening.value.1;
      AtOpening(c, find, input, convert, state, openPos, opening.value.0, result + input[pos..openPos])
  }

  /**
   * The rest of a pass once an opening delimiter is found at `openPos`,
   * with `before` the output up to it: finds the closing delimiter and
   * rejects one of the other kind, unless both kinds close alike.
   */
  function AtOpening<S>(c: Config, find: Finder, input: string, convert: (S, string, MathDisplay) -> Conversion<S>,
                        state: S, openPos: nat, openTyp: MathDisplay, before: string): Step<S>
    requires FindsOccurrences(find) && openPos + |Opening(c, openTyp)| <= |input|
  {
    var start := openPos + |Opening(c, openTyp)|;
    var closing := NextDelimiter(c, find, input[start..], false);
    if closing.None? then Finished(Err(ConversionError(openPos, UnclosedDelimiter)), state)
    else if !ClosingIdentical(c) && openTyp != closing.value.0 then
      Finished(Err(ConversionError(openPos, MismatchedDelimiters(start + closing.value.1))), state)
    else AtClosing(c, find, input, convert, state, openPos, openTyp, start + closing.value.1, closing.value.0, before)
  }

  /**
   * The rest of a pass once the content is known to end at `end`: rejects
   * content holding an opening delimiter, and converts the content with its
   * HTML entities decoded. On failure the span is copied through as it
   * stands with `continue_on_error`, and otherwise the conversion is run
   * once more for its error.
   */
  function AtClosing<S>(c: Config, find: Finder, input: string, convert: (S, string, MathDisplay) -> Conversion<S>,
                        state: S, openPos: nat, openTyp: MathDisplay, end: nat, closeTyp: MathDisplay, before: string): Step<S>
    requires FindsOccurrences(find)
    requires openPos + |Opening(c, openTyp)| <= end && end + |Closing(c, closeTyp)| <= |input|
  {
    var start := openPos + |Opening(c, openTyp)|;
    var content := input[start..end];
    var nested := NextDelimiter(c, find, content, true);
    if nested.Some? then Finished(Err(ConversionError(start + nested.value.1, NestedDelimiters)), state)
    else
      var replaced := HtmlEntities.Decode(content);
      AtConverted(c, input, convert, openPos, openTyp, end, closeTyp, before, replaced, convert(state, replaced, openTyp))
  }

  /** The end of a pass, once the conversion of the decoded content `replaced` has given `out`. */
  function AtConverted<S>(c: Config, input: string, convert: (S, string, MathDisplay) -> Conversion<S>,
                          openPos: nat, openTyp: MathDisplay, end: nat, closeTyp: MathDisplay, before: string,
                          replaced: string, out: Conversion<S>): Step<S>
    requires openPos + |Opening(c, openTyp)| <= end && end + |Closing(c, closeTyp)| <= |input|
  {
    var next := end + |Closing(c, closeTyp)|;
    if !out.failed then Continue(out.state, next, before + out.written)
    else if c.continueOnError then Continue(out.state, next, before + out.written + input[openPos..next])
    else Finished(Err(ConversionError(openPos + |Opening(c, openTyp)|, LatexError(replaced))), convert(out.state, replaced, openTyp).state)
  }

  /** A pass that goes on moves forward and only appends; one that finishes gives the output or an error inside the input. */
  lemma ReplaceStepProperties<S>(c: Config, find: Finder, input: string, convert: (S, string, MathDisplay) -> Conversion<S>,
                                 state: S, pos: nat, result: string)
    requires FindsOccurrences(find) && pos < |input|
    ensures var st := ReplaceStep(c, find, input, convert, state, pos, result);
      && (st.Continue? ==> pos < st.next <= |input| && |result| <= |st.result| && st.result[..|result|] == result)
      && (st.Finished? && st.r.Ok? ==> st.r.value == result + input[pos..])
      && (st.Finished? && st.r.Err? ==> pos <= st.r.error.pos <= |input|)
      && (st.Finished? && st.r.Err? && ClosingIdentical(c) ==> !st.r.error.kind.MismatchedDelimiters?)
  {
    ReplaceStepContinues(c, find, input, convert, state, pos, result);
    ReplaceStepFinishes(c, find, input, convert, state, pos, result);
  }

  /** A pass that goes on moves strictly forward and only appends to the output. */
  lemma ReplaceStepContinues<S>(c: Config, find: Finder, input: string, convert: (S, string, MathDisplay) -> Conversion<S>,
                                state: S, pos: nat, result: string)
    requires FindsOccurrences(find) && pos < |input|
    ensures var st := ReplaceStep(c, find, input, convert, state, pos, result);
      st.Continue? ==> pos < st.next <= |input| && |result| <= |st.result| && st.result[..|result|] == result
  {
    var opening := NextDelimiter(c, find, input[pos..], true);
    if opening.Some? {
      var openPos := pos + opening.value.1;
      var before := result + input[pos..openPos];
      assert before[..|result|] == result;
      AtOpeningContinues(c, find, input, convert, state, openPos, opening.value.0, before);
      var st := AtOpening(c, find, input, convert, state, openPos, opening.value.0, before);
      assert ReplaceStep(c, find, input, convert, state, pos, result) == st;
      if st.Continue? {
        PrefixOfPrefix(result, before, Ok(st.result));
      }
    }
  }

  /** A pass that finishes gives the output with the rest of the input copied, or an error inside the input. */
  lemma ReplaceStepFinishes<S>(c: Config, find: Finder, input: string, convert: (S, string, MathDisplay) -> Conversion<S>,
                               state: S, pos: nat, result: string)
    requires FindsOccurrences(find) && pos < |input|
    ensures var st := ReplaceStep(c, find, input, convert, state, pos, result);
      && (st.Finished? && st.r.Ok? ==> st.r.value == result + input[pos..])
      && (st.Finished? && st.r.Err? ==> pos <= st.r.error.pos <= |input|)
      && (st.Finished? && st.r.Err? && ClosingIdentical(c) ==> !st.r.error.kind.MismatchedDelimiters?)
  {
    var opening := NextDelimiter(c, find, input[pos..], true);
    if opening.Some? {
      var openPos := pos + opening.value.1;
      var before := result + input[pos..openPos];
      AtOpeningFinishes(c, find, input, convert, state, openPos, opening.value.0, before);
      assert ReplaceStep(c, find, input, convert, state, pos, result)
          == AtOpening(c, find, input, convert, state, openPos, opening.value.0, before);
    }
  }

  /** After an opening delimiter, a pass that goes on moves past it and only appends; otherwise it fails with an error inside the input. */
  lemma AtOpeningProperties<S>(c: Config, find: Finder, input: string, convert: (S, string, MathDisplay) -> Conversion<S>,
                               state: S, openPos: nat, openTyp: MathDisplay, before: string)
    requires FindsOccurrences(find) && openPos + |Opening(c, openTyp)| <= |input|
    ensures var st := AtOpening(c, find, input, convert, state, openPos, openTyp, before);
      && (st.Continue? ==> openPos < st.next <= |input| && |before| <= |st.result| && st.result[..|before|] == before)
      && (st.Finished? ==> st.r.Err? && openPos <= st.r.error.pos <= |input|)
      && (st.Finished? && ClosingIdentical(c) ==> !st.r.error.kind.MismatchedDelimiters?)
  {
    AtOpeningContinues(c, find, input, convert, state, openPos, openTyp, before);
    AtOpeningFinishes(c, find, input, convert, state, openPos, openTyp, before);
  }

  /** After an opening delimiter, a pass that goes on moves past it and only appends. */
  lemma AtOpeningContinues<S>(c: Config, find: Finder, input: string, convert: (S, string, MathDisplay) -> Conversion<S>,
                              state: S, openPos: nat, openTyp: MathDisplay, before: string)
    requires FindsOccurrences(find) && openPos + |Opening(c, openTyp)| <= |input|
    ensures var st := AtOpening(c, find, input, convert, state, openPos, openTyp, before);
      st.Continue? ==> openPos < st.next <= |input| && |before| <= |st.result| && st.result[..|before|] == before
  {
    var start := openPos + |Opening(c, openTyp)|;
    var closing := NextDelimiter(c, find, input[start..], false);
    AtOpeningOutcome(c, find, input, convert, state, openPos, openTyp, before, closing);
    if closing.Some? && (ClosingIdentical(c) || openTyp == closing.value.0) {
      AtClosingContinues(c, find, input, convert, state, openPos, openTyp, start + closing.value.1, closing.value.0, before);
    }
  }

  /**
   * After an opening delimiter, a pass that stops fails with an error
   * inside the input, and never with a mismatch when the closing delimiters
   * are the same.
   */
  lemma AtOpeningFinishes<S>(c: Config, find: Finder, input: string, convert: (S, string, MathDisplay) -> Conversion<S>,
                             state: S, openPos: nat, openTyp: MathDisplay, before: string)
    requires FindsOccurrences(find) && openPos + |Opening(c, openTyp)| <= |input|
    ensures var st := AtOpening(c, find, input, convert, state, openPos, openTyp, before);
      && (st.Finished? ==> st.r.Err? && openPos <= st.r.error.pos <= |input|)
      && (st.Finished? && ClosingIdentical(c) ==> !st.r.error.kind.MismatchedDelimiters?)
  {
    var start := openPos + |Opening(c, openTyp)|;
    var closing := NextDelimiter(c, find, input[start..], false);
    AtOpeningOutcome(c, find, input, convert, state, openPos, openTyp, before, closing);
    if closing.Some? && (ClosingIdentical(c) || openTyp == closing.value.0) {
      AtClosingFails(c, find, input, convert, state, openPos, openTyp, start + closing.value.1, closing.value.0, before);
    }
  }

  /** Once the content is converted, the pass moves past the closing delimiter and only appends. */
  lemma AtClosingContinues<S>(c: Config, find: Finder, input: string, convert: (S, string, MathDisplay) -> Conversion<S>,
                              state: S, openPos: nat, openTyp: MathDisplay, end: nat, closeTyp: MathDisplay, before: string)
    requires FindsOccurrences(find)
    requires openPos + |Opening(c, openTyp)| <= end && end + |Closing(c, closeTyp)| <= |input|
    ensures var st := AtClosing(c, find, input, convert, state, openPos, openTyp, end, closeTyp, before);
      st.Continue? ==> openPos < st.next <= |input| && |before| <= |st.result| && st.result[..|before|] == before
  {
    var start := openPos + |Opening(c, openTyp)|;
    var content := input[start..end];
    if NextDelimiter(c, find, content, true).None? {
      if |Opening(c, openTyp)| == 0 {
        EmptyOpeningFound(c, find, content, openTyp);
      }
      var out := convert(state, HtmlEntities.Decode(content), openTyp);
      var next := end + |Closing(c, closeTyp)|;
      var written := before + out.written;
      assert written[..|before|] == before;
      assert (written + input[openPos..next])[..|before|] == before;
    }
  }

  /** A pass that stops after the closing delimiter is found stops with an error inside the input, never a mismatch. */
  lemma AtClosingFails<S>(c: Config, find: Finder, input: string, convert: (S, string, MathDisplay) -> Conversion<S>,
                          state: S, openPos: nat, openTyp: MathDisplay, end: nat, closeTyp: MathDisplay, before: string)
    requires FindsOccurrences(find)
    requires openPos + |Opening(c, openTyp)| <= end && end + |Closing(c, closeTyp)| <= |input|
    ensures var st := AtClosing(c, find, input, convert, state, openPos, openTyp, end, closeTyp, before);
      st.Finished? ==> st.r.Err? && openPos <= st.r.error.pos <= |input| && !st.r.error.kind.MismatchedDelimiters?
  {
  }

  /** `replace` from `pos` on, with `result` the output so far: the output or the first error, and the conversion state. */
  function ReplaceFrom<S>(c: Config, find: Finder, input: string, convert: (S, string, MathDisplay) -> Conversion<S>,
                          state: S, pos: nat, result: string): (Result<string, ConversionError>, S)
    requires FindsOccurrences(find) && pos <= |input|
    decreases |input| - pos
  {
    if pos == |input| then (Ok(result), state)
    else
      match ReplaceStep(c, find, input, convert, state, pos, result)
      case Finished(r, state') => (r, state')
      case Continue(state', next, result') =>
        ReplaceStepProperties(c, find, input, convert, state, pos, result);
        ReplaceFrom(c, find, input, convert, state', next, result')
  }

  /** A text without any opening delimiter comes back unchanged, and nothing is converted. */
  lemma NoOpeningUnchanged<S>(c: Config, find: Finder, input: string, convert: (S, string, MathDisplay) -> Conversion<S>, state: S)
    requires FindsOccurrences(find) && NextDelimiter(c, find, input, true).None?
    ensures ReplaceFrom(c, find, input, convert, state, 0, []) == (Ok(input), state)
  {
    assert input[0..] == input;
    EmptyLeft(input);
  }

  /** A pass that finds an opening delimiter goes on from there, with the text before it copied. */
  lemma StepAtOpening<S>(c: Config, find: Finder, input: string, convert: (S, string, MathDisplay) -> Conversion<S>,
                         state: S, pos: nat, result: string, typ: MathDisplay, idx: nat)
    requires FindsOccurrences(find)
    requires pos < |input| && NextDelimiter(c, find, input[pos..], true) == Some((typ, idx))
    ensures pos + idx + |Opening(c, typ)| <= |input|
    ensures ReplaceStep(c, find, input, convert, state, pos, result)
      == AtOpening(c, find, input, convert, state, pos + idx, typ, result + input[pos..pos + idx])
  {
  }

  /** A pass that finishes ends the replacement with its outcome. */
  lemma FinishedStepEnds<S>(c: Config, find: Finder, input: string, convert: (S, string, MathDisplay) -> Conversion<S>,
                            state: S, pos: nat, result: string, r: Result<string, ConversionError>, state': S)
    requires FindsOccurrences(find) && pos < |input|
    requires ReplaceStep(c, find, input, convert, state, pos, result) == Finished(r, state')
    ensures ReplaceFrom(c, find, input, convert, state, pos, result) == (r, state')
  {
  }

  /** A pass that finds no opening delimiter copies the rest of the input and ends the replacement. */
  lemma NoOpeningStep<S>(c: Config, find: Finder, input: string, convert: (S, string, MathDisplay) -> Conversion<S>,
                         state: S, pos: nat, result: string)
    requires FindsOccurrences(find)
    requires pos < |input| && NextDelimiter(c, find, input[pos..], true).None?
    ensures ReplaceStep(c, find, input, convert, state, pos, result) == Finished(Ok(result + input[pos..]), state)
  {
  }

  /**
   * The three ways a pass ends after its opening delimiter, by what the
   * search for the closing delimiter finds: none, one of the other kind
   * (when the kinds close differently), or a fitting one.
   */
  lemma AtOpeningOutcome<S>(c: Config, find: Finder, input: string, convert: (S, string, MathDisplay) -> Conversion<S>,
                            state: S, openPos: nat, typ: MathDisplay, before: string, closing: Option<(MathDisplay, nat)>)
    requires FindsOccurrences(find) && openPos + |Opening(c, typ)| <= |input|
    requires closing == NextDelimiter(c, find, input[openPos + |Opening(c, typ)|..], false)
    ensures closing.None? ==>
      AtOpening(c, find, input, convert, state, openPos, typ, before) == Finished(Err(ConversionError(openPos, UnclosedDelimiter)), state)
    ensures closing.Some? && !ClosingIdentical(c) && typ != closing.value.0 ==>
      AtOpening(c, find, input, convert, state, openPos, typ, before)
      == Finished(Err(ConversionError(openPos, MismatchedDelimiters(openPos + |Opening(c, typ)| + closing.value.1))), state)
    ensures closing.Some? && (ClosingIdentical(c) || typ == closing.value.0) ==>
      && openPos + |Opening(c, typ)| + closing.value.1 + |Closing(c, closing.value.0)| <= |input|
      && AtOpening(c, find, input, convert, state, openPos, typ, before)
         == AtClosing(c, find, input, convert, state, openPos, typ, openPos + |Opening(c, typ)| + closing.value.1, closing.value.0, before)
  {
    OpeningUnclosed(c, find, input, convert, state, openPos, typ, before, closing);
    OpeningMismatched(c, find, input, convert, state, openPos, typ, before, closing);
    OpeningClosed(c, find, input, convert, state, openPos, typ, before, closing);
  }

  /** Without a closing delimiter the pass stops with `UnclosedDelimiter` at the opening one. */
  lemma OpeningUnclosed<S>(c: Config, find: Finder, input: string, convert: (S, string, MathDisplay) -> Conversion<S>,
                           state: S, openPos: nat, typ: MathDisplay, before: string, closing: Option<(MathDisplay, nat)>)
    requires FindsOccurrences(find) && openPos + |Opening(c, typ)| <= |input|
    requires closing == NextDelimiter(c, find, input[openPos + |Opening(c, typ)|..], false)
    ensures closing.None? ==>
      AtOpening(c, find, input, convert, state, openPos, typ, before) == Finished(Err(ConversionError(openPos, UnclosedDelimiter)), state)
  {
  }

  /** A closing delimiter of the other kind stops the pass with `MismatchedDelimiters`, unless both kinds close alike. */
  lemma OpeningMismatched<S>(c: Config, find: Finder, input: string, convert: (S, string, MathDisplay) -> Conversion<S>,
                             state: S, openPos: nat, typ: MathDisplay, before: string, closing: Option<(MathDisplay, nat)>)
    requires FindsOccurrences(find) && openPos + |Opening(c, typ)| <= |input|
    requires closing == NextDelimiter(c, find, input[openPos + |Opening(c, typ)|..], false)
    ensures closing.Some? && !ClosingIdentical(c) && typ != closing.value.0 ==>
      AtOpening(c, find, input, convert, state, openPos, typ, before)
      == Finished(Err(ConversionError(openPos, MismatchedDelimiters(openPos + |Opening(c, typ)| + closing.value.1))), state)
  {
  }

  /** A matching closing delimiter lies inside the input, and the pass goes on at it. */
  lemma OpeningClosed<S>(c: Config, find: Finder, input: string, convert: (S, string, MathDisplay) -> Conversion<S>,
                         state: S, openPos: nat, typ: MathDisplay, before: string, closing: Option<(MathDisplay, nat)>)
    requires FindsOccurrences(find) && openPos + |Opening(c, typ)| <= |input|
    requires closing == NextDelimiter(c, find, input[openPos + |Opening(c, typ)|..], false)
    ensures closing.Some? && (ClosingIdentical(c) || typ == closing.value.0) ==>
      && openPos + |Opening(c, typ)| + closing.value.1 + |Closing(c, closing.value.0)| <= |input|
      && AtOpening(c, find, input, convert, state, openPos, typ, before)
         == AtClosing(c, find, input, convert, state, openPos, typ, openPos + |Opening(c, typ)| + closing.value.1, closing.value.0, before)
  {
  }

  /** An opening delimiter without a closing one after it: `UnclosedDelimiter` at the opening delimiter. */
  lemma UnclosedAtOpening<S>(c: Config, find: Finder, input: string, convert: (S, string, MathDisplay) -> Conversion<S>,
                             state: S, pos: nat, result: string, typ: MathDisplay, idx: nat)
    requires FindsOccurrences(find)
    requires pos < |input| && NextDelimiter(c, find, input[pos..], true) == Some((typ, idx))
    requires NextDelimiter(c, find, input[pos + idx + |Opening(c, typ)|..], false).None?
    ensures ReplaceFrom(c, find, input, convert, state, pos, result) == (Err(ConversionError(pos + idx, UnclosedDelimiter)), state)
  {
    StepAtOpening(c, find, input, convert, state, pos, result, typ, idx);
    OpeningUnclosed(c, find, input, convert, state, pos + idx, typ, result + input[pos..pos + idx],
      NextDelimiter(c, find, input[pos + idx + |Opening(c, typ)|..], false));
    FinishedStepEnds(c, find, input, convert, state, pos, result, Err(ConversionError(pos + idx, UnclosedDelimiter)), state);
  }

  /**
   * A closing delimiter of the other kind, when the two kinds close
   * differently: `MismatchedDelimiters` at the opening one, naming where the
   * closing one is.
   */
  lemma MismatchRejected<S>(c: Config, find: Finder, input: string, convert: (S, string, MathDisplay) -> Conversion<S>,
                            state: S, pos: nat, result: string, typ: MathDisplay, idx: nat, idx': nat)
    requires FindsOccurrences(find) && !ClosingIdentical(c)
    requires pos < |input| && NextDelimiter(c, find, input[pos..], true) == Some((typ, idx))
    requires var start := pos + idx + |Opening(c, typ)|;
      start <= |input| && NextDelimiter(c, find, input[start..], false) == Some((if typ == Inline then Block else Inline, idx'))
    ensures ReplaceFrom(c, find, input, convert, state, pos, result)
      == (Err(ConversionError(pos + idx, MismatchedDelimiters(pos + idx + |Opening(c, typ)| + idx'))), state)
  {
    StepAtOpening(c, find, input, convert, state, pos, result, typ, idx);
    OpeningMismatched(c, find, input, convert, state, pos + idx, typ, result + input[pos..pos + idx],
      NextDelimiter(c, find, input[pos + idx + |Opening(c, typ)|..], false));
    FinishedStepEnds(c, find, input, convert, state, pos, result,
      Err(ConversionError(pos + idx, MismatchedDelimiters(pos + idx + |Opening(c, typ)| + idx'))), state);
  }

  /** Content that holds an opening delimiter: `NestedDelimiters` where that delimiter is. */
  lemma NestedRejected<S>(c: Config, find: Finder, input: string, convert: (S, string, MathDisplay) -> Conversion<S>,
                          state: S, openPos: nat, typ: MathDisplay, end: nat, closeTyp: MathDisplay, before: string, nested: nat)
    requires FindsOccurrences(find)
    requires openPos + |Opening(c, typ)| <= end && end + |Closing(c, closeTyp)| <= |input|
    requires var content := input[openPos + |Opening(c, typ)|..end];
      && NextDelimiter(c, find, content, true).Some?
      && NextDelimiter(c, find, content, true).value.1 == nested
    ensures AtClosing(c, find, input, convert, state, openPos, typ, end, closeTyp, before)
      == Finished(Err(ConversionError(openPos + |Opening(c, typ)| + nested, NestedDelimiters)), state)
  {
  }

  /**
   * With `continue_on_error`, math that fails to convert is copied through
   * as it stands, delimiters included, after whatever the conversion wrote.
   */
  lemma FailedSpanCopied<S>(c: Config, find: Finder, input: string, convert: (S, string, MathDisplay) -> Conversion<S>,
                            state: S, openPos: nat, typ: MathDisplay, end: nat, closeTyp: MathDisplay, before: string)
    requires FindsOccurrences(find) && c.continueOnError
    requires openPos + |Opening(c, typ)| <= end && end + |Closing(c, closeTyp)| <= |input|
    requires var content := input[openPos + |Opening(c, typ)|..end];
      && NextDelimiter(c, find, content, true).None?
      && convert(state, HtmlEntities.Decode(content), typ).failed
    ensures var out := convert(state, HtmlEntities.Decode(input[openPos + |Opening(c, typ)|..end]), typ);
      var next := end + |Closing(c, closeTyp)|;
      AtClosing(c, find, input, convert, state, openPos, typ, end, closeTyp, before)
      == Continue(out.state, next, before + out.written + input[openPos..next])
  {
  }

  /** Without `continue_on_error`, a failed conversion ends the replacement with its error, at the start of the content. */
  lemma FailureStops<S>(c: Config, find: Finder, input: string, convert: (S, string, MathDisplay) -> Conversion<S>,
                        state: S, openPos: nat, typ: MathDisplay, end: nat, closeTyp: MathDisplay, before: string)
    requires FindsOccurrences(find) && !c.continueOnError
    requires openPos + |Opening(c, typ)| <= end && end + |Closing(c, closeTyp)| <= |input|
    requires var content := input[openPos + |Opening(c, typ)|..end];
      && NextDelimiter(c, find, content, true).None?
      && convert(state, HtmlEntities.Decode(content), typ).failed
    ensures var st := AtClosing(c, find, input, convert, state, openPos, typ, end, closeTyp, before);
      && st.Finished?
      && st.r == Err(ConversionError(openPos + |Opening(c, typ)|, LatexError(HtmlEntities.Decode(input[openPos + |Opening(c, typ)|..end]))))
  {
  }

  /** Converted math: what the conversion wrote follows the text before it, and the pass goes on after the closing delimiter. */
  lemma ConvertedSpan<S>(c: Config, find: Finder, input: string, convert: (S, string, MathDisplay) -> Conversion<S>,
                         state: S, openPos: nat, typ: MathDisplay, end: nat, closeTyp: MathDisplay, before: string)
    requires FindsOccurrences(find)
    requires openPos + |Opening(c, typ)| <= end && end + |Closing(c, closeTyp)| <= |input|
    requires var content := input[openPos + |Opening(c, typ)|..end];
      && NextDelimiter(c, find, content, true).None?
      && !convert(state, HtmlEntities.Decode(content), typ).failed
    ensures var out := convert(state, HtmlEntities.Decode(input[openPos + |Opening(c, typ)|..end]), typ);
      AtClosing(c, find, input, convert, state, openPos, typ, end, closeTyp, before)
      == Continue(out.state, end + |Closing(c, closeTyp)|, before + out.written)
  {
  }

  /** When both kinds close alike, delimiters are never reported as mismatched. */
  lemma {:induction false} IdenticalClosingNeverMismatched<S>(c: Config, find: Finder, input: string,
      convert: (S, string, MathDisplay) -> Conversion<S>, state: S, pos: nat, result: string)
    requires FindsOccurrences(find) && ClosingIdentical(c) && pos <= |input|
    ensures var r := ReplaceFrom(c, find, input, convert, state, pos, result).0;
      r.Err? ==> !r.error.kind.MismatchedDelimiters?
    decreases |input| - pos
  {
    if pos < |input| {
      var st := ReplaceStep(c, find, input, convert, state, pos, result);
      ReplaceStepProperties(c, find, input, convert, state, pos, result);
      if st.Continue? {
        IdenticalClosingNeverMismatched(c, find, input, convert, st.state, st.next, st.result);
      }
    }
  }

  /**
   * The output only grows: what was written before is a prefix of the
   * final output, and every error points into the input.
   */
  lemma {:induction false} OutputExtendsResult<S>(c: Config, find: Finder, input: string,
      convert: (S, string, MathDisplay) -> Conversion<S>, state: S, pos: nat, result: string)
    requires FindsOccurrences(find) && pos <= |input|
    ensures var r := ReplaceFrom(c, find, input, convert, state, pos, result).0;
      && (r.Ok? ==> |result| <= |r.value| && r.value[..|result|] == result)
      && (r.Err? ==> pos <= r.error.pos <= |input|)
    decreases |input| - pos
  {
    if pos < |input| {
      var st := ReplaceStep(c, find, input, convert, state, pos, result);
      ReplaceStepProperties(c, find, input, convert, state, pos, result);
      if st.Continue? {
        OutputExtendsResult(c, find, input, convert, st.state, st.next, st.result);
        PrefixOfPrefix(result, st.result, ReplaceFrom(c, find, input, convert, st.state, st.next, st.result).0);
      }
    }
  }

  lemma PrefixOfPrefix(a: string, b: string, r: Result<string, ConversionError>)
    requires |a| <= |b| && b[..|a|] == a
    requires r.Ok? ==> |b| <= |r.value| && r.value[..|b|] == b
    ensures r.Ok? ==> |a| <= |r.value| && r.value[..|a|] == a
  {
    if r.Ok? {
      assert r.value[..|a|] == r.value[..|b|][..|a|];
    }
  }

  /** The line of a position: one more than the line breaks before it; the column: one more than the characters since the last one. */
  function LineCol(s: string): (nat, nat) {
    if s == [] then (1, 1)
    else
      var (line, col) := LineCol(s[..|s| - 1]);
      if s[|s| - 1] == '\n' then (line + 1, 1) else (line, col + 1)
  }

  function NewlineCount(s: string): nat {
    if s == [] then 0 else NewlineCount(s[..|s| - 1]) + (if s[|s| - 1] == '\n' then 1 else 0)
  }

  /**
   * The line is one more than the number of line breaks; the column is one
   * more than the length of the run without line breaks at the end.
   */
  lemma {:induction false} LineColCounts(s: string)
    ensures LineCol(s).0 == 1 + NewlineCount(s)
    ensures 1 <= LineCol(s).1 <= |s| + 1
    ensures forall i | |s| + 1 - LineCol(s).1 <= i < |s| :: s[i] != '\n'
    ensures LineCol(s).1 <= |s| ==> s[|s| - LineCol(s).1] == '\n'
  {
    if s != [] {
      var p := s[..|s| - 1];
      LineColCounts(p);
      forall i | |s| + 1 - LineCol(s).1 <= i < |s|
        ensures s[i] != '\n'
      {
        if i < |s| - 1 {
          assert s[i] == p[i];
        }
      }
      if LineCol(s).1 <= |s| && s[|s| - 1] != '\n' {
        assert s[|s| - LineCol(s).1] == p[|p| - LineCol(p).1];
      }
    }
  }

  function Min(a: nat, b: nat): nat {
    if a <= b then a else b
  }

  /** `line_and_col`: walks the characters before `loc`, counting lines and columns. */
  method LineAndCol(loc: nat, input: string) returns (line: nat, col: nat)
    ensures (line, col) == LineCol(input[..Min(loc, |input|)])
  {
    line, col := 1, 1;
    var i := 0;
    while i < |input|
      invariant i <= Min(loc, |input|)
      invariant (line, col) == LineCol(input[..i])
    {
      if i >= loc {
        break;
      }
      assert input[..i + 1][..i] == input[..i];
      if input[i] == '\n' {
        line := line + 1;
        col := 1;
      } else {
        col := col + 1;
      }
      i := i + 1;
    }
  }

  /** A replacer built once and used on many documents (`Replacer`). */
  class Replacer {
    const config: Config
    /** The delimiter search this replacer performs, as a function of the text and the delimiter. */
    ghost const find: Finder
    /** The scratch buffer HTML entities are decoded into. */
    var entityBuffer: string

    /** `find` is `find_delimiter_position` under this configuration. */
    ghost predicate Valid() {
      && FindsOccurrences(find)
      && forall s: string, needle: string {:trigger DelimiterPosition(config, s, needle)} :: find(s, needle) == DelimiterPosition(config, s, needle)
    }

    /** `Replacer::new`. */
    constructor New(inlineDelim: (string, string), blockDelim: (string, string), ignoreEscapedDelim: bool, continueOnError: bool)
      ensures config == Config(inlineDelim, blockDelim, ignoreEscapedDelim, continueOnError)
      ensures ClosingIdentical(config) == (inlineDelim.1 == blockDelim.1)
      ensures entityBuffer == []
      ensures Valid()
    {
      config := Config(inlineDelim, blockDelim, ignoreEscapedDelim, continueOnError);
      find := Find(Config(inlineDelim, blockDelim, ignoreEscapedDelim, continueOnError));
      entityBuffer := [];
      FindFindsOccurrences(Config(inlineDelim, blockDelim, ignoreEscapedDelim, continueOnError));
    }

    /** `find_delimiter_position`. */
    method FindDelimiterPosition(input: string, needle: string) returns (r: Option<nat>)
      ensures r == DelimiterPosition(config, input, needle)
    {
      if !config.ignoreEscapedDelim {
        return FirstFrom(input, needle, 0);
      }
      var offset := 0;
      while true
        invariant offset <= |input| && (|needle| > 0 || offset == 0)
        invariant UnescapedFrom(input, needle, offset) == UnescapedFrom(input, needle, 0)
        decreases |input| - offset
      {
        var found := FirstFrom(input, needle, offset);
        if found.None? {
          return None;
        }
        var absolutePos := found.value;
        UnescapedStep(input, needle, offset);
        if absolutePos > 0 && input[absolutePos - 1] == '\\' {
          offset := absolutePos + |needle|;
          continue;
        }
        return Some(absolutePos);
      }
    }

    /** `find_next_delimiter`. */
    method FindNextDelimiter(input: string, opening: bool) returns (r: Option<(MathDisplay, nat)>)
      requires Valid()
      ensures r == NextDelimiter(config, find, input, opening)
    {
      var inlineResult := FindDelimiterPosition(input, Delimiter(config, Inline, opening));
      var blockResult := FindDelimiterPosition(input, Delimiter(config, Block, opening));
      match (inlineResult, blockResult) {
        case (Some(inlinePos), Some(blockPos)) =>
          if blockPos <= inlinePos {
            r := Some((Block, blockPos));
          } else {
            r := Some((Inline, inlinePos));
          }
        case (Some(pos), None) => r := Some((Inline, pos));
        case (None, Some(pos)) => r := Some((Block, pos));
        case (None, None) => r := None;
      }
    }

    /**
     * `replace`: the output, or the first error, and the state the
     * conversion function leaves behind.
     */
    method Replace<S>(input: string, state: S, convert: (S, string, MathDisplay) -> Conversion<S>)
      returns (r: Result<string, ConversionError>, state': S)
      requires Valid()
      modifies this
      ensures (r, state') == ReplaceFrom(config, find, input, convert, state, 0, [])
    {
      var result := [];
      var currentPos := 0;
      state' := state;
      while currentPos < |input|
        invariant currentPos <= |input|
        invariant ReplaceFrom(config, find, input, convert, state', currentPos, result) == ReplaceFrom(config, find, input, convert, state, 0, [])
        decreases |input| - currentPos
      {
        var step := Pass(input, convert, state', currentPos, result);
        ReplaceStepProperties(config, find, input, convert, state', currentPos, result);
        match step {
          case Finished(r', s') => return r', s';
          case Continue(s', next, result') =>
            state', currentPos, result := s', next, result';
        }
      }
      return Ok(result), state';
    }

    /** One pass of the loop of `replace`, from `currentPos` with the output `result` so far. */
    method Pass<S>(input: string, convert: (S, string, MathDisplay) -> Conversion<S>, state: S, currentPos: nat, result: string)
      returns (step: Step<S>)
      requires Valid() && currentPos < |input|
      modifies this
      ensures step == ReplaceStep(config, find, input, convert, state, currentPos, result)
    {
      var remaining := input[currentPos..];
      var opening := FindNextDelimiter(remaining, true);
      if opening.None? {
        NoOpeningStep(config, find, input, convert, state, currentPos, result);
        return Finished(Ok(result + remaining), state);
      }
      var openTyp, idx := opening.value.0, opening.value.1;
      StepAtOpening(config, find, input, convert, state, currentPos, result, openTyp, idx);
      var openPos := currentPos + idx;
      step := FindClosing(input, convert, state, openPos, openTyp, result + input[currentPos..openPos]);
    }

    /** The part of a pass after an opening delimiter is found at `openPos`: the search for the closing one. */
    method FindClosing<S>(input: string, convert: (S, string, MathDisplay) -> Conversion<S>, state: S,
                          openPos: nat, openTyp: MathDisplay, before: string)
      returns (step: Step<S>)
      requires Valid() && openPos + |Opening(config, openTyp)| <= |input|
      modifies this
      ensures step == AtOpening(config, find, input, convert, state, openPos, openTyp, before)
    {
      var start := openPos + |Opening(config, openTyp)|;
      var closing := FindNextDelimiter(input[start..], false);
      if closing.None? {
        OpeningUnclosed(config, find, input, convert, state, openPos, openTyp, before, closing);
        return Finished(Err(ConversionError(openPos, UnclosedDelimiter)), state);
      }
      if !ClosingIdentical(config) && openTyp != closing.value.0 {
        OpeningMismatched(config, find, input, convert, state, openPos, openTyp, before, closing);
        return Finished(Err(ConversionError(openPos, MismatchedDelimiters(start + closing.value.1))), state);
      }
      step := ConvertClosed(input, convert, state, openPos, openTyp, before, closing);
    }

    /** The part of a pass once a closing delimiter of the right kind is found after the opening one. */
    method ConvertClosed<S>(input: string, convert: (S, string, MathDisplay) -> Conversion<S>, state: S,
                            openPos: nat, openTyp: MathDisplay, before: string, closing: Option<(MathDisplay, nat)>)
      returns (step: Step<S>)
      requires Valid() && openPos + |Opening(config, openTyp)| <= |input|
      requires closing == NextDelimiter(config, find, input[openPos + |Opening(config, openTyp)|..], false)
      requires closing.Some? && (ClosingIdentical(config) || openTyp == closing.value.0)
      modifies this
      ensures step == AtOpening(config, find, input, convert, state, openPos, openTyp, before)
    {
      OpeningClosed(config, find, input, convert, state, openPos, openTyp, before, closing);
      var end := openPos + |Opening(config, openTyp)| + closing.value.1;
      step := ConvertContent(input, convert, state, openPos, openTyp, end, closing.value.0, before);
    }

    /** The part of a pass after the closing delimiter is found: the nesting check and the conversion. */
    method ConvertContent<S>(input: string, convert: (S, string, MathDisplay) -> Conversion<S>, state: S,
                             openPos: nat, openTyp: MathDisplay, end: nat, closeTyp: MathDisplay, before: string)
      returns (step: Step<S>)
      requires Valid()
      requires openPos + |Opening(config, openTyp)| <= end && end + |Closing(config, closeTyp)| <= |input|
      modifies this
      ensures step == AtClosing(config, find, input, convert, state, openPos, openTyp, end, closeTyp, before)
    {
      var start := openPos + |Opening(config, openTyp)|;
      var closingDelimLen := if closeTyp == Inline then |config.inlineDelim.1| else |config.blockDelim.1|;
      var content := input[start..end];
      ghost var expected := AtClosing(config, find, input, convert, state, openPos, openTyp, end, closeTyp, before);
      var nested := FindNextDelimiter(content, true);
      if nested.Some? {
        return Finished(Err(ConversionError(start + nested.value.1, NestedDelimiters)), state);
      }
      var replaced, buffer' := HtmlEntities.ReplaceHtmlEntities(entityBuffer, content);
      entityBuffer := buffer';
      var out := convert(state, replaced, openTyp);
      assert expected == AtConverted(config, input, convert, openPos, openTyp, end, closeTyp, before, replaced, out);
      var result := before + out.written;
      if out.failed {
        if config.continueOnError {
          result := result + input[openPos..end + closingDelimLen];
        } else {
          replaced, buffer' := HtmlEntities.ReplaceHtmlEntities(entityBuffer, content);
          entityBuffer := buffer';
          var again := convert(out.state, replaced, openTyp);
          return Finished(Err(ConversionError(start, LatexError(replaced))), again.state);
        }
      }
      return Continue(out.state, end + closingDelimLen, result);
    }
  }
}
