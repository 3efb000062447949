/**
 * Tokens, spans and token classes (crates/math-core/src/token.rs), and the
 * LaTeX error kinds the modelled code raises (crates/math-core/src/error.rs).
 * Payloads that only select rendering details (fraction attributes, sizes,
 * styles, notations) are dropped; payloads that the modelled code inspects
 * are kept.
 */
module Tokens {
  import opened Wrappers
  import opened Integers
  import Symbol
  import Attribute
  import Environments

  /** `ParenType` of a `\big` delimiter. */
  datatype ParenType = Open | Close

  datatype Token =
    | Eoi
    | Begin(env: Environments.Env)
    | End(env: Environments.Env)
    | NewColumn
    | NewLine
    | NoNumber
    | Tag
    | Left
    | Right
    | Middle
    | SquareBracketOpen
    | SquareBracketClose
    | GroupBegin
    | GroupEnd
    | Frac
    | Genfrac
    | Underscore
    | Circumflex
    | Binom
    | Overset
    | Underset
    | OverUnderBrace(brace: Symbol.OrdLike, isOver: bool)
    | Sqrt
    | Limits
    | Space(length: int)
    | CustomSpace
    | NonBreakingSpace
    | Whitespace
    | Transform(variant: Attribute.MathVariant)
    | TransformSwitch(variant: Attribute.MathVariant)
    | Big(paren: Option<ParenType>)
    | Accent(accent: Symbol.Rel, isOver: bool)
    | Ord(ord: Symbol.OrdLike)
    | Op(op: Symbol.Op)
    | BinaryOp(bin: Symbol.Bin)
    | Relation(rel: Symbol.Rel)
    | OpenTok(open: Symbol.OrdLike)
    | CloseTok(close: Symbol.OrdLike)
    | Punctuation(punct: Symbol.Punct)
    | Inner(inner: Symbol.Op)
    | Prime
    | OpGreaterThan
    | OpLessThan
    | OpAmpersand
    | ForceRelation(forced: Symbol.MathMLOperator)
    | ForceClose(forced: Symbol.MathMLOperator)
    | ForceBinaryOp(forced: Symbol.MathMLOperator)
    | Mathbin
    | StretchyRel(rel: Symbol.Rel)
    | Letter(ch: char)
    | UprightLetter(ch: char)
    | Digit(ch: char)
    | PseudoOperator(name: string)
    | PseudoOperatorLimits(name: string)
    | Enclose
    | OperatorName(star: bool)
    | Slashed
    | Not
    | Text
    | Style
    | Color
    | CustomCmdArg(arg: u8)
    | CustomCmd(numArgs: u8, body: seq<Token>)
    | HardcodedMathML(mathml: string)
    | TextModeAccent(combining: char)
    | UnknownCommand(command: string)
    | InternalStringLiteral(literal: string)

  /** LaTeX's character classes (character_class.rs, extended by `Inner`). */
  datatype Class = Default | Operator | BinaryOp | Relation | Open | Close | Punctuation | Inner

  /** `Token::class`. */
  function ClassOf(t: Token, inSequence: bool, ignoreEndTokens: bool): (c: Class)
    ensures !inSequence ==> c == Class.Default
    ensures inSequence && (t.End? || t.Right? || t.GroupEnd? || t.Eoi?) ==>
      (c == Class.Close <==> !ignoreEndTokens) && (ignoreEndTokens ==> c == Class.Default)
  {
    if !inSequence then Class.Default
    else match t
      case Relation(_) | ForceRelation(_) => Class.Relation
      case Punctuation(_) => Class.Punctuation
      case OpenTok(_) | Left | SquareBracketOpen => Class.Open
      case CloseTok(_) | SquareBracketClose | NewColumn | ForceClose(_) => Class.Close
      case BinaryOp(_) | ForceBinaryOp(_) | Mathbin => Class.BinaryOp
      case Op(_) => Class.Operator
      case End(_) | Right | GroupEnd | Eoi => if !ignoreEndTokens then Class.Close else Class.Default
      case Inner(_) => Class.Inner
      case Big(Some(p)) => if p == ParenType.Open then Class.Open else Class.Close
      case CustomCmd(_, body) => if |body| > 0 then ClassOf(body[0], inSequence, ignoreEndTokens) else Class.Default
      case _ => Class.Default
  }

  /** The token a custom command starts with, following nested custom commands. */
  function FirstLeaf(t: Token): (leaf: Token)
    ensures !(leaf.CustomCmd? && |leaf.body| > 0)
  {
    if t.CustomCmd? && |t.body| > 0 then FirstLeaf(t.body[0]) else t
  }

  /** A custom command has the class of the first token of its expansion. */
  lemma {:induction false} ClassOfFirstLeaf(t: Token, inSequence: bool, ignoreEndTokens: bool)
    ensures ClassOf(t, inSequence, ignoreEndTokens) == ClassOf(FirstLeaf(t), inSequence, ignoreEndTokens)
  {
    if t.CustomCmd? && |t.body| > 0 {
      ClassOfFirstLeaf(t.body[0], inSequence, ignoreEndTokens);
    }
  }

  /** The tokens that close something (or are closed delimiters) in a sequence. */
  predicate ClosesInSequence(t: Token, ignoreEndTokens: bool) {
    t.CloseTok? || t.SquareBracketClose? || t.NewColumn? || t.ForceClose?
    || (t.Big? && t.paren == Some(ParenType.Close))
    || (!ignoreEndTokens && (t.End? || t.Right? || t.GroupEnd? || t.Eoi?))
  }

  /** Inside a sequence, a token is of class Close exactly when its first leaf closes. */
  lemma CloseClassCharacterized(t: Token, ignoreEndTokens: bool)
    ensures ClassOf(t, true, ignoreEndTokens) == Class.Close <==> ClosesInSequence(FirstLeaf(t), ignoreEndTokens)
  {
    ClassOfFirstLeaf(t, true, ignoreEndTokens);
  }

  /** A byte range of the input. */
  datatype Span = Span(start: nat, end: nat) {
    /** `Span::with_length`: same start, `length` bytes long. */
    function WithLength(length: nat): (s: Span)
      ensures s.start == start && s.end - s.start == length
    {
      Span(start, start + length)
    }
  }

  /** `Span::zero_width`: the empty span at `at`. */
  function ZeroWidth(at: nat): (s: Span)
    ensures s.start == s.end == at
  {
    Span(at, at)
  }

  lemma WithLengthOfZeroWidth(at: nat, length: nat)
    ensures ZeroWidth(at).WithLength(length) == Span(at, at + length)
  {
  }

  datatype TokSpan = TokSpan(token: Token, span: Span)

  /** What a construct waits for to be closed. */
  datatype EndToken = End | GroupClose | Right | SquareBracketClose | Eoi

  /** `EndToken::matches`. */
  predicate Matches(e: EndToken, t: Token) {
    match e
    case End => t.End?
    case GroupClose => t.GroupEnd?
    case Right => t.Right?
    case SquareBracketClose => t.SquareBracketClose?
    case Eoi => t.Eoi?
  }

  /** The end kind a token closes, if any: the pairing written as a table. */
  function ClosedKind(t: Token): Option<EndToken> {
    if t.End? then Some(EndToken.End)
    else if t.GroupEnd? then Some(GroupClose)
    else if t.Right? then Some(EndToken.Right)
    else if t.SquareBracketClose? then Some(EndToken.SquareBracketClose)
    else if t.Eoi? then Some(EndToken.Eoi)
    else None
  }

  /** Every end kind matches exactly the token kind paired with it, so at most one kind matches. */
  lemma MatchesOnlyPairedKind(e: EndToken, t: Token)
    ensures Matches(e, t) <==> ClosedKind(t) == Some(e)
  {
  }

  /** Where a token of limited usability belongs, and the error kinds the modelled code raises. */
  datatype Place = AfterBigOp | TableEnv | NumberedEnv

  datatype LimitedUsabilityToken = Ampersand | TagTok | Limits

  datatype LatexErrKind =
    | UnclosedGroup(expected: EndToken)
    | UnmatchedClose(got: EndToken)
    | DisallowedChar(ch: char)
    | UnknownEnvironment(name: string)
    | UnknownCommandErr(command: string)
    | MismatchedEnvironment(expectedEnv: Environments.Env, gotEnv: Environments.Env)
    | CannotBeUsedHere(usedToken: LimitedUsabilityToken, correctPlace: Place)
    | DuplicateSubOrSup
    | ExpectedNumber(text: string)
    | InvalidMacroName(name: string)
    | InvalidParameterNumber
    | MacroParameterOutsideCustomCommand
    | ExpectedParamNumberGotEOI
    | HardLimitExceeded
    | RenderError

  /** `LatexError`: a byte range and what went wrong there. */
  datatype LatexError = LatexError(span: Span, kind: LatexErrKind)
}
