/**
 * The LaTeX lexer (crates/math-core/src/lexer.rs): a cursor over the input
 * characters with a mode (math or text), a brace nesting level and, while
 * custom commands are being read, the highest macro parameter seen.
 *
 * The behaviour is first given as pure functions over the lexer state
 * (`LexState`); the `Lexer` class of module `Lexer` implements it step by
 * step as the source does and is proved to agree with those functions.
 * Locations are byte offsets of the UTF-8 input, as in the source.
 */
module LexerSpec {
  import opened Wrappers
  import opened Integers
  import opened Utf8
  import opened Tokens
  import Symbol
  import Environments

  predicate IsAsciiWhitespace(c: char) {
    c == ' ' || c == '\t' || c == '\n' || c == '\U{000C}' || c == '\r'
  }

  predicate IsAsciiAlphabetic(c: char) {
    'A' <= c <= 'Z' || 'a' <= c <= 'z'
  }

  predicate IsAsciiDigit(c: char) {
    '0' <= c <= '9'
  }

  predicate IsAsciiAlphanumeric(c: char) {
    IsAsciiAlphabetic(c) || IsAsciiDigit(c)
  }

  /** Characters allowed in an environment name besides letters and digits. */
  predicate IsEnvNamePunct(c: char) {
    c == '|' || c == '.' || c == '-' || c == ',' || c == '*' || c == ':'
  }

  predicate IsEnvNameChar(c: char) {
    IsAsciiAlphanumeric(c) || IsAsciiWhitespace(c) || IsEnvNamePunct(c)
  }

  datatype Mode = Math | TextStart | TextGroup(nesting: nat)

  /**
   * What the lexer reads and consults: the input, the command tables
   * (the custom commands of the configuration, the built-in math commands
   * and the text-mode commands) and the `ignore_unknown_commands` flag.
   */
  datatype LexConfig = LexConfig(
    input: string,
    customCommands: map<string, Token>,
    commands: map<string, Token>,
    textCommands: map<string, Token>,
    ignoreUnknownCommands: bool)

  /** The changing part of the lexer: `cur` is the index of the peeked char. */
  datatype LexState = LexState(cur: nat, mode: Mode, braceNestingLevel: nat, parseCmdArgs: Option<u8>)

  /** What `next_token_internal` produces. */
  datatype LexerResult = Tok(ts: TokSpan) | UnknownCmd(command: string, span: Span) | LexErr(err: LatexError)

  /** The byte offset of char `i`. */
  function Loc(s: string, i: nat): nat
    requires i <= |s|
  {
    Utf8Len(s[..i])
  }

  /** The cursor after one `read_char`: at the end of the input it stays put. */
  function After(s: string, i: nat): nat {
    if i < |s| then i + 1 else i
  }

  function WhitespaceEnd(s: string, i: nat): (j: nat)
    requires i <= |s|
    ensures i <= j <= |s|
    decreases |s| - i
  {
    if i < |s| && IsAsciiWhitespace(s[i]) then WhitespaceEnd(s, i + 1) else i
  }

  function LetterRunEnd(s: string, i: nat): (j: nat)
    requires i <= |s|
    ensures i <= j <= |s|
    decreases |s| - i
  {
    if i < |s| && IsAsciiAlphabetic(s[i]) then LetterRunEnd(s, i + 1) else i
  }

  /** The end of a command name starting at `i` (after the backslash). */
  function CommandEnd(s: string, i: nat): (j: nat)
    requires i <= |s|
    ensures i <= j <= |s|
  {
    var letters := LetterRunEnd(s, i);
    var star := if letters < |s| && s[letters] == '*' then letters + 1 else letters;
    if star == i then After(s, i) else star
  }

  function LineEnd(s: string, i: nat): (j: nat)
    requires i <= |s|
    ensures i <= j <= |s|
    decreases |s| - i
  {
    if i < |s| && s[i] != '\n' then LineEnd(s, i + 1) else i
  }

  function EnvNameEnd(s: string, i: nat): (j: nat)
    requires i <= |s|
    ensures i <= j <= |s|
    ensures forall k | i <= k < j :: IsEnvNameChar(s[k])
    ensures j < |s| ==> !IsEnvNameChar(s[j])
    decreases |s| - i
  {
    if i < |s| && IsEnvNameChar(s[i]) then EnvNameEnd(s, i + 1) else i
  }

  /** The tokens of the single characters with a fixed meaning. */
  function SingleCharToken(ch: char, textMode: bool): Option<Token> {
    match ch
    case '!' => Some(if textMode then Letter(ch) else ForceClose(Symbol.EXCLAMATION_MARK))
    case '"' => Some(Letter('”'))
    case '&' => Some(NewColumn)
    case '\'' => Some(Prime)
    case '(' => Some(OpenTok(Symbol.LEFT_PARENTHESIS))
    case ')' => Some(CloseTok(Symbol.RIGHT_PARENTHESIS))
    case '*' => Some(if textMode then Letter(ch) else ForceBinaryOp(Symbol.ASTERISK_OPERATOR.AsOp()))
    case '+' => Some(Token.BinaryOp(Symbol.PLUS_SIGN))
    case ',' => Some(Token.Punctuation(Symbol.COMMA))
    case '-' => Some(if textMode then Letter(ch) else Token.BinaryOp(Symbol.MINUS_SIGN))
    case '/' => Some(Ord(Symbol.SOLIDUS))
    case ':' => Some(ForceRelation(Symbol.COLON.AsOp()))
    case ';' => Some(Token.Punctuation(Symbol.SEMICOLON))
    case '<' => Some(OpLessThan)
    case '=' => Some(Token.Relation(Symbol.EQUALS_SIGN))
    case '>' => Some(OpGreaterThan)
    case '[' => Some(SquareBracketOpen)
    case ']' => Some(Token.SquareBracketClose)
    case '^' => Some(Circumflex)
    case '_' => Some(Underscore)
    case '`' => Some(Letter('‘'))
    case '|' => Some(Ord(Symbol.VERTICAL_LINE))
    case '~' => Some(NonBreakingSpace)
    case _ => None
  }

  /** A token has been read: a `TextStart` that did not open a group falls back to math. */
  function FinishToken(tok: Token, span: Span, st: LexState): (LexerResult, LexState) {
    (Tok(TokSpan(tok, span)), if st.mode.TextStart? then st.(mode := Math) else st)
  }

  /** `#` inside a custom command definition; `st.cur` is just after the `#`. */
  function LexHash(s: string, st: LexState, loc: nat): (res: (LexerResult, LexState))
    requires st.cur <= |s|
    ensures st.cur <= res.1.cur <= |s|
  {
    match st.parseCmdArgs
    case None => (LexErr(LatexError(Span(loc, loc + 1), MacroParameterOutsideCustomCommand)), st)
    case Some(num) =>
      var j := st.cur;
      if j < |s| && IsAsciiDigit(s[j]) then
        // `wrapping_sub`: the digit 0 wraps around and is rejected like any number above 8.
        var param := s[j] as int - '1' as int;
        if !(0 <= param <= 8) then
          (LexErr(LatexError(Span(loc + 1, loc + 2), InvalidParameterNumber)), st)
        else
          FinishToken(CustomCmdArg(param), Span(loc, loc + 2),
            st.(cur := j + 1, parseCmdArgs := Some(if param + 1 > num then param + 1 else num)))
      else if j < |s| then
        (LexErr(LatexError(Span(Loc(s, j), Loc(s, j) + CharLen(s[j])), InvalidParameterNumber)), st.(cur := j + 1))
      else
        (LexErr(LatexError(ZeroWidth(Loc(s, j)), ExpectedParamNumberGotEOI)), st)
  }

  /** A character that is neither whitespace, `%` nor `\`; `st.cur` is just after it. */
  function LexChar(s: string, st: LexState, ch: char, loc: nat, textMode: bool): (res: (LexerResult, LexState))
    requires st.cur <= |s|
    ensures res.1.cur >= st.cur && res.1.cur <= |s|
  {
    if ch == '\0' then
      (LexErr(LatexError(Span(loc, loc + 1), DisallowedChar(ch))), st)
    else if ch == '#' then
      LexHash(s, st, loc)
    else if ch == '{' then
      FinishToken(GroupBegin, Span(loc, loc + 1),
        st.(mode := if st.mode.TextStart? then TextGroup(st.braceNestingLevel) else st.mode,
            braceNestingLevel := st.braceNestingLevel + 1))
    else if ch == '}' then
      if st.braceNestingLevel == 0 then
        (LexErr(LatexError(Span(loc, loc + 1), UnmatchedClose(GroupClose))), st)
      else
        var level := st.braceNestingLevel - 1;
        FinishToken(GroupEnd, Span(loc, loc + 1),
          st.(braceNestingLevel := level,
              mode := if st.mode.TextGroup? && st.mode.nesting == level then Math else st.mode))
    else
      match SingleCharToken(ch, textMode)
      case Some(tok) => FinishToken(tok, Span(loc, loc + 1), st)
      case None =>
        if IsAsciiDigit(ch) then FinishToken(Digit(ch), Span(loc, loc + 1), st)
        else FinishToken(Letter(ch), Span(loc, loc + CharLen(ch)), st)
  }

  /** `read_env_name` from `st.cur`: the name and the offset after `}`, or the offending char. */
  function ReadEnvName(s: string, st: LexState): (res: (Result<(string, nat), (Span, Option<char>)>, LexState))
    requires st.cur <= |s|
    ensures st.cur <= res.1.cur <= |s|
    ensures res.1 == st.(cur := res.1.cur)
    ensures res.0.Ok? ==> forall k | 0 <= k < |res.0.value.0| :: IsEnvNameChar(res.0.value.0[k])
  {
    var j := st.cur;
    var loc := Loc(s, j);
    if !(j < |s| && s[j] == '{') then
      var st1 := st.(cur := After(s, j));
      if j < |s| && (IsAsciiAlphanumeric(s[j]) || IsEnvNamePunct(s[j])) then
        (Ok((s[j..j + 1], Loc(s, j + 1))), st1)
      else
        (Err((Span(loc, loc + (if j < |s| then CharLen(s[j]) else 0)), if j < |s| then Some(s[j]) else None)), st1)
    else
      var k := EnvNameEnd(s, j + 1);
      var st2 := st.(cur := After(s, k));
      if k < |s| && s[k] == '}' then
        (Ok((s[j + 1..k], Loc(s, k) + 1)), st2)
      else
        (Err((Span(Loc(s, k), Loc(s, k) + (if k < |s| then CharLen(s[k]) else 0)), if k < |s| then Some(s[k]) else None)), st2)
  }

  /** The end of `parse_command`: mode bookkeeping, and `\text` starts text mode. */
  function FinishCommand(st: LexState, tok: Result<TokSpan, LatexError>): (res: (LexerResult, LexState))
    ensures res.1.cur == st.cur
  {
    var st1 := if st.mode.TextStart? then st.(mode := Math) else st;
    var st2 := if tok.Ok? && tok.value.token.Text? then st1.(mode := TextStart) else st1;
    (if tok.Ok? then Tok(tok.value) else LexErr(tok.error), st2)
  }

  /** `parse_command`: `st.cur` is after the command and the whitespace following it. */
  function ParseCommand(cfg: LexConfig, st: LexState, span: Span, cmd: string): (res: (LexerResult, LexState))
    requires st.cur <= |cfg.input|
    ensures st.cur <= res.1.cur <= |cfg.input|
  {
    var s := cfg.input;
    if !st.mode.Math? then
      if cmd in cfg.textCommands then FinishCommand(st, Ok(TokSpan(cfg.textCommands[cmd], span)))
      else (UnknownCmd(cmd, span), st)
    else if cmd in cfg.customCommands then FinishCommand(st, Ok(TokSpan(cfg.customCommands[cmd], span)))
    else if cmd in cfg.commands then FinishCommand(st, Ok(TokSpan(cfg.commands[cmd], span)))
    else if cmd == "begin" || cmd == "end" then
      var j := WhitespaceEnd(s, st.cur);
      var groupLoc := Loc(s, j);
      var (name, st1) := ReadEnvName(s, st.(cur := j));
      match name
      case Err((errSpan, None)) => FinishCommand(st1, Err(LatexError(errSpan, UnclosedGroup(GroupClose))))
      case Err((errSpan, Some(c))) => FinishCommand(st1, Err(LatexError(errSpan, DisallowedChar(c))))
      case Ok((envName, end)) =>
        match Environments.FromStr(envName)
        case None => FinishCommand(st1, Err(LatexError(Span(groupLoc, end), UnknownEnvironment(envName))))
        case Some(env) =>
          FinishCommand(st1, Ok(TokSpan(if cmd == "begin" then Begin(env) else Token.End(env), Span(span.start, end))))
    else (UnknownCmd(cmd, span), st)
  }

  /**
   * `next_token_internal`. Every call consumes input, except at the end of
   * the input, where it returns the end-of-input token and changes nothing.
   */
  function NextTokenInternal(cfg: LexConfig, st: LexState): (res: (LexerResult, LexState))
    requires st.cur <= |cfg.input|
    ensures st.cur <= res.1.cur <= |cfg.input|
    ensures res.1.cur == st.cur ==>
      st.cur == |cfg.input| && res == (Tok(TokSpan(Token.Eoi, ZeroWidth(Loc(cfg.input, st.cur)))), st)
    decreases |cfg.input| - st.cur
  {
    var s := cfg.input;
    var i := st.cur;
    var w := WhitespaceEnd(s, i);
    if w > i then
      (Tok(TokSpan(Whitespace, Span(Loc(s, i), Loc(s, i) + CharLen(s[i])))), st.(cur := w))
    else if i == |s| then
      (Tok(TokSpan(Token.Eoi, ZeroWidth(Loc(s, i)))), st)
    else
      var ch := s[i];
      var loc := Loc(s, i);
      if ch == '%' then
        NextTokenInternal(cfg, st.(cur := After(s, LineEnd(s, i + 1))))
      else if ch == '\\' then
        var end := CommandEnd(s, i + 1);
        ParseCommand(cfg, st.(cur := WhitespaceEnd(s, end)), Span(loc, Loc(s, end)), s[i + 1..end])
      else
        LexChar(s, st.(cur := i + 1), ch, loc, !st.mode.Math?)
  }

  /** `next_token`: unknown commands become tokens only when the configuration says so. */
  function NextToken(cfg: LexConfig, st: LexState): (res: (Result<TokSpan, LatexError>, LexState))
    requires st.cur <= |cfg.input|
    ensures st.cur <= res.1.cur <= |cfg.input|
    ensures res.1.cur == st.cur ==> res.0.Ok? && res.0.value.token.Eoi? && res.1 == st
  {
    var (r, st') := NextTokenInternal(cfg, st);
    match r
    case Tok(ts) => (Ok(ts), st')
    case UnknownCmd(cmd, span) =>
      if cfg.ignoreUnknownCommands then (Ok(TokSpan(UnknownCommand(cmd), span)), st')
      else (Err(LatexError(span, UnknownCommandErr(cmd))), st')
    case LexErr(e) => (Err(e), st')
  }

  /**
   * A lexer as its clients see it: the next-token step as a function of
   * the lexer state, and the length of its input.
   */
  datatype TokenSource = TokenSource(next: LexState -> (Result<TokSpan, LatexError>, LexState), end: nat)

  /**
   * Every step stays within the input, and a step that consumes nothing
   * yields the end of input and leaves the state as it was.
   */
  ghost predicate Advancing(src: TokenSource) {
    forall st: LexState | st.cur <= src.end ::
      var (r, st') := src.next(st);
      st.cur <= st'.cur <= src.end && (st'.cur == st.cur ==> r.Ok? && r.value.token.Eoi? && st' == st)
  }

  /** The token source of this lexer (states past the end of the input do not occur). */
  function SourceOf(cfg: LexConfig): TokenSource {
    TokenSource(
      (st: LexState) => if st.cur <= |cfg.input| then NextToken(cfg, st) else (Ok(TokSpan(Token.Eoi, ZeroWidth(0))), st),
      |cfg.input|)
  }

  /**
   * The lexer's own step: it advances, and agrees with `NextToken` on every
   * state within the input.
   */
  lemma SourceOfIsNextToken(cfg: LexConfig) returns (src: TokenSource)
    ensures Advancing(src) && src.end == |cfg.input|
    ensures forall st: LexState {:trigger NextToken(cfg, st)} | st.cur <= |cfg.input| ::
      src.next(st) == NextToken(cfg, st)
  {
    src := SourceOf(cfg);
  }

  /** The lexer's own step advances, within its input. */
  lemma SourceOfAdvances(cfg: LexConfig)
    ensures Advancing(SourceOf(cfg)) && SourceOf(cfg).end == |cfg.input|
  {
  }

  /** `{` opens a group; right after `\text` it opens a text group at the current nesting. */
  lemma OpenBraceRule(cfg: LexConfig, st: LexState)
    requires st.cur < |cfg.input| && cfg.input[st.cur] == '{'
    ensures var loc := Loc(cfg.input, st.cur);
      NextTokenInternal(cfg, st) == (Tok(TokSpan(GroupBegin, Span(loc, loc + 1))),
        st.(cur := st.cur + 1,
            braceNestingLevel := st.braceNestingLevel + 1,
            mode := if st.mode.TextStart? then TextGroup(st.braceNestingLevel) else st.mode))
  {
  }

  /**
   * `}` with nothing open is an error; otherwise it closes a group, and it
   * ends the text group whose opening brace it matches.
   */
  lemma CloseBraceRule(cfg: LexConfig, st: LexState)
    requires st.cur < |cfg.input| && cfg.input[st.cur] == '}'
    ensures var loc := Loc(cfg.input, st.cur);
      var res := NextTokenInternal(cfg, st);
      if st.braceNestingLevel == 0 then
        res == (LexErr(LatexError(Span(loc, loc + 1), UnmatchedClose(GroupClose))), st.(cur := st.cur + 1))
      else
        var level := st.braceNestingLevel - 1;
        res.0 == Tok(TokSpan(GroupEnd, Span(loc, loc + 1)))
        && res.1.cur == st.cur + 1
        && res.1.braceNestingLevel == level
        && (res.1.mode == Math <==> (st.mode == TextGroup(level) || st.mode.TextStart? || st.mode.Math?))
        && (st.mode.TextGroup? && st.mode.nesting != level ==> res.1.mode == st.mode)
  {
  }

  /** A text group always sits inside the braces that are currently open. */
  predicate ModeConsistent(st: LexState) {
    st.mode.TextGroup? ==> st.mode.nesting < st.braceNestingLevel
  }

  lemma {:induction false} NextTokenKeepsModeConsistent(cfg: LexConfig, st: LexState)
    requires st.cur <= |cfg.input| && ModeConsistent(st)
    ensures ModeConsistent(NextTokenInternal(cfg, st).1)
    decreases |cfg.input| - st.cur
  {
    var s := cfg.input;
    var i := st.cur;
    if WhitespaceEnd(s, i) == i && i < |s| {
      if s[i] == '%' {
        NextTokenKeepsModeConsistent(cfg, st.(cur := After(s, LineEnd(s, i + 1))));
      } else if s[i] == '\\' {
        var end := CommandEnd(s, i + 1);
        ParseCommandKeepsModeConsistent(cfg, st.(cur := WhitespaceEnd(s, end)), Span(Loc(s, i), Loc(s, end)), s[i + 1..end]);
      } else {
        LexCharKeepsModeConsistent(s, st.(cur := i + 1), s[i], Loc(s, i), !st.mode.Math?);
      }
    }
  }

  lemma LexCharKeepsModeConsistent(s: string, st: LexState, ch: char, loc: nat, textMode: bool)
    requires st.cur <= |s| && ModeConsistent(st)
    ensures ModeConsistent(LexChar(s, st, ch, loc, textMode).1)
  {
  }

  lemma ParseCommandKeepsModeConsistent(cfg: LexConfig, st: LexState, span: Span, cmd: string)
    requires st.cur <= |cfg.input| && ModeConsistent(st)
    ensures ModeConsistent(ParseCommand(cfg, st, span, cmd).1)
  {
  }

  /** A `%` comment is skipped through the end of its line, newline included. */
  lemma CommentSkipped(cfg: LexConfig, st: LexState)
    requires st.cur < |cfg.input| && cfg.input[st.cur] == '%'
    ensures var e := LineEnd(cfg.input, st.cur + 1);
      (e < |cfg.input| ==> cfg.input[e] == '\n')
      && (forall k | st.cur < k < e :: cfg.input[k] != '\n')
      && NextTokenInternal(cfg, st) == NextTokenInternal(cfg, st.(cur := After(cfg.input, e)))
  {
    LineEndSpec(cfg.input, st.cur + 1);
  }

  lemma {:induction false} LineEndSpec(s: string, i: nat)
    requires i <= |s|
    ensures LineEnd(s, i) < |s| ==> s[LineEnd(s, i)] == '\n'
    ensures forall k | i <= k < LineEnd(s, i) :: s[k] != '\n'
    decreases |s| - i
  {
    if i < |s| && s[i] != '\n' {
      LineEndSpec(s, i + 1);
    }
  }

  /** A macro parameter `#1` .. `#9` is argument 0 .. 8 and raises the argument count. */
  lemma HashParameterRule(cfg: LexConfig, st: LexState, num: u8)
    requires st.cur + 1 < |cfg.input| && cfg.input[st.cur] == '#'
    requires st.parseCmdArgs == Some(num)
    requires '1' <= cfg.input[st.cur + 1] <= '9'
    ensures var d := cfg.input[st.cur + 1] as int - '1' as int;
      var loc := Loc(cfg.input, st.cur);
      var res := NextTokenInternal(cfg, st);
      res.0 == Tok(TokSpan(CustomCmdArg(d), Span(loc, loc + 2)))
      && res.1.cur == st.cur + 2
      && res.1.parseCmdArgs == Some(if d + 1 > num then d + 1 else num)
  {
    HashStartsLexHash(cfg, st);
  }

  /** At a `#`, `next_token_internal` is `lex_hash` just after it. */
  lemma HashStartsLexHash(cfg: LexConfig, st: LexState)
    requires st.cur < |cfg.input| && cfg.input[st.cur] == '#'
    ensures NextTokenInternal(cfg, st) == LexHash(cfg.input, st.(cur := st.cur + 1), Loc(cfg.input, st.cur))
  {
    var s := cfg.input;
    var i := st.cur;
    assert WhitespaceEnd(s, i) == i;
    assert NextTokenInternal(cfg, st) == LexChar(s, st.(cur := i + 1), '#', Loc(s, i), !st.mode.Math?);
  }

  /** `#` outside a custom command, or not followed by 1 .. 9, is an error. */
  lemma HashErrorRule(cfg: LexConfig, st: LexState)
    requires st.cur < |cfg.input| && cfg.input[st.cur] == '#'
    requires st.parseCmdArgs.None? || !(st.cur + 1 < |cfg.input| && '1' <= cfg.input[st.cur + 1] <= '9')
    ensures var res := NextTokenInternal(cfg, st);
      res.0.LexErr?
      && (st.parseCmdArgs.None? ==> res.0.err.kind == MacroParameterOutsideCustomCommand)
      && (st.parseCmdArgs.Some? && st.cur + 1 == |cfg.input| ==> res.0.err.kind == ExpectedParamNumberGotEOI)
      && (st.parseCmdArgs.Some? && st.cur + 1 < |cfg.input| ==> res.0.err.kind == InvalidParameterNumber)
      && res.1.parseCmdArgs == st.parseCmdArgs
  {
    HashStartsLexHash(cfg, st);
  }

  lemma {:induction false} LetterRunEndSpec(s: string, i: nat)
    requires i <= |s|
    ensures forall k | i <= k < LetterRunEnd(s, i) :: IsAsciiAlphabetic(s[k])
    ensures LetterRunEnd(s, i) < |s| ==> !IsAsciiAlphabetic(s[LetterRunEnd(s, i)])
    decreases |s| - i
  {
    if i < |s| && IsAsciiAlphabetic(s[i]) {
      LetterRunEndSpec(s, i + 1);
    }
  }

  /**
   * A command name is the longest run of ASCII letters, then an optional
   * `*`; if that is empty, it is the single next character.
   */
  lemma CommandEndSpec(s: string, i: nat)
    requires i <= |s|
    ensures var j := CommandEnd(s, i);
      var run := LetterRunEnd(s, i);
      (i < |s| ==> i < j)
      && (forall k | i <= k < run :: IsAsciiAlphabetic(s[k]))
      && (run < |s| ==> !IsAsciiAlphabetic(s[run]))
      && (run > i ==> j == (if run < |s| && s[run] == '*' then run + 1 else run))
      && (run == i && i < |s| ==> j == i + 1)
  {
    LetterRunEndSpec(s, i);
  }

  /** `recover_limited_ascii`: the ASCII character a token was lexed from, for a few kinds. */
  function RecoverLimitedAscii(t: Token): Option<char> {
    match t
    case Letter(ch) => if IsAsciiAlphabetic(ch) || ch == '.' then Some(ch) else None
    case Whitespace => Some(' ')
    case Ord(o) => if o == Symbol.VERTICAL_LINE then Some('|') else None
    case Punctuation(p) => if p == Symbol.COMMA then Some(',') else None
    case BinaryOp(b) => if b == Symbol.MINUS_SIGN then Some('-') else None
    case ForceBinaryOp(op) => if op == Symbol.ASTERISK_OPERATOR.AsOp() then Some('*') else None
    case ForceRelation(op) => if op == Symbol.COLON.AsOp() then Some(':') else None
    case Digit(ch) => Some(ch)
    case _ => None
  }

  predicate IsLimitedAscii(c: char) {
    IsAsciiAlphanumeric(c) || c == '.' || c == ',' || c == '-' || c == '*' || c == ':' || c == '|'
  }

  /** The tokens of the input from `st` on, up to and including end of input or up to an error. */
  function LexAll(cfg: LexConfig, st: LexState): seq<TokSpan>
    requires st.cur <= |cfg.input|
    decreases |cfg.input| - st.cur
  {
    var (r, st') := NextToken(cfg, st);
    if r.Err? then []
    else if r.value.token.Eoi? then [r.value]
    else [r.value] + LexAll(cfg, st')
  }

  /** The characters recovered from a token sequence. */
  function Recovered(ts: seq<TokSpan>): string {
    if ts == [] then ""
    else
      var rest := Recovered(ts[1..]);
      match RecoverLimitedAscii(ts[0].token)
      case Some(c) => [c] + rest
      case None => rest
  }

  /** In math mode a limited-ASCII character lexes to one token it can be recovered from. */
  lemma LimitedAsciiChar(s: string, st: LexState, c: char, loc: nat)
    requires st.cur <= |s| && st.mode == Math && IsLimitedAscii(c)
    ensures var (r, st') := LexChar(s, st, c, loc, false);
      r.Tok? && st' == st && RecoverLimitedAscii(r.ts.token) == Some(c)
  {
    if IsAsciiAlphanumeric(c) {
      AlphanumericChar(s, st, c, loc);
    } else {
      LimitedPunctuationChar(s, st, c, loc);
    }
  }

  /** A letter or digit is none of the single-char tokens: it lexes to `Letter` or `Digit`. */
  lemma AlphanumericChar(s: string, st: LexState, c: char, loc: nat)
    requires st.cur <= |s| && st.mode == Math && IsAsciiAlphanumeric(c)
    ensures var (r, st') := LexChar(s, st, c, loc, false);
      r.Tok? && st' == st && RecoverLimitedAscii(r.ts.token) == Some(c)
  {
    assert SingleCharToken(c, false).None?;
  }

  /** The punctuation of limited ASCII lexes to the token it is recovered from. */
  lemma LimitedPunctuationChar(s: string, st: LexState, c: char, loc: nat)
    requires st.cur <= |s| && st.mode == Math
    requires c == '.' || c == ',' || c == '-' || c == '*' || c == ':' || c == '|'
    ensures var (r, st') := LexChar(s, st, c, loc, false);
      r.Tok? && st' == st && RecoverLimitedAscii(r.ts.token) == Some(c)
  {
    var tok := if c == '.' then Letter('.')
      else if c == ',' then Token.Punctuation(Symbol.COMMA)
      else if c == '-' then Token.BinaryOp(Symbol.MINUS_SIGN)
      else if c == '*' then ForceBinaryOp(Symbol.ASTERISK_OPERATOR.AsOp())
      else if c == ':' then ForceRelation(Symbol.COLON.AsOp())
      else Ord(Symbol.VERTICAL_LINE);
    assert RecoverLimitedAscii(tok) == Some(c);
    assert LexChar(s, st, c, loc, false) == (Tok(TokSpan(tok, Span(loc, loc + 1))), st);
  }

  /** In math mode, at a limited-ASCII character, `next_token` reads just that character. */
  lemma NextTokenOnLimitedAscii(cfg: LexConfig, st: LexState)
    requires st.cur < |cfg.input| && st.mode == Math && IsLimitedAscii(cfg.input[st.cur])
    ensures var (r, st') := NextToken(cfg, st);
      r.Ok? && !r.value.token.Eoi? && st' == st.(cur := st.cur + 1)
      && RecoverLimitedAscii(r.value.token) == Some(cfg.input[st.cur])
  {
    var s := cfg.input;
    var i := st.cur;
    assert WhitespaceEnd(s, i) == i;
    LimitedAsciiChar(s, st.(cur := i + 1), s[i], Loc(s, i));
  }

  /** Lexing a limited-ASCII input in math mode and recovering each token gives the input back. */
  lemma {:induction false} RecoverRoundTrip(cfg: LexConfig, st: LexState)
    requires st.cur <= |cfg.input| && st.mode == Math
    requires forall k | st.cur <= k < |cfg.input| :: IsLimitedAscii(cfg.input[k])
    ensures Recovered(LexAll(cfg, st)) == cfg.input[st.cur..]
    decreases |cfg.input| - st.cur
  {
    var s := cfg.input;
    var i := st.cur;
    if i < |s| {
      var c := s[i];
      NextTokenOnLimitedAscii(cfg, st);
      var (r, st') := NextToken(cfg, st);
      RecoverRoundTrip(cfg, st');
      assert s[i..] == [c] + s[i + 1..];
    }
  }

  /** The peeked location and character when the cursor is at char `i`. */
  function PeekAt(s: string, i: nat): (nat, Option<char>)
    requires i <= |s|
  {
    if i < |s| then (Loc(s, i), Some(s[i])) else (Loc(s, i), None)
  }
}

/** The lexer as the source writes it: a class whose methods advance a cursor. */
module Lexer {
  import opened Wrappers
  import opened Integers
  import opened Utf8
  import opened Tokens
  import opened LexerSpec
  import Environments

  /**
   * `Lexer`: `pos` is the index of the peeked character, so the underlying
   * character iterator stands just after it; `peek` holds its byte offset
   * and the character (`None` at the end, with the input's byte length).
   * Substrings are taken by character index.
   */
  class Lexer {
    const input: string
    const inputLength: nat
    const customCommands: map<string, Token>
    const commands: map<string, Token>
    const textCommands: map<string, Token>
    const ignoreUnknownCommands: bool
    var pos: nat
    var peek: (nat, Option<char>)
    var mode: Mode
    var braceNestingLevel: nat
    var parseCmdArgs: Option<u8>
    /** The next-token step of this lexer, for the token queue that owns it. */
    ghost const source: TokenSource

    ghost predicate Valid()
      reads this
    {
      pos <= |input| && inputLength == Utf8Len(input) && peek == PeekAt(input, pos)
      && SourceAgrees()
    }

    /**
     * `source` is this lexer's step. The link is only used where the step
     * of the specification is already in view, so that clients of the
     * lexer reason about `source` alone.
     */
    ghost predicate SourceAgrees() {
      source.end == |input| && Advancing(source)
      && forall st: LexState {:trigger LexerSpec.NextToken(Config(), st)} | st.cur <= |input| ::
           source.next(st) == LexerSpec.NextToken(Config(), st)
    }

    function Config(): LexConfig {
      LexConfig(input, customCommands, commands, textCommands, ignoreUnknownCommands)
    }

    function State(): LexState
      reads this
    {
      LexState(pos, mode, braceNestingLevel, parseCmdArgs)
    }

    /** `Lexer::new`: reading custom commands starts counting macro parameters at 0. */
    constructor (input: string, parsingCustomCmds: bool, customCommands: map<string, Token>,
                 commands: map<string, Token>, textCommands: map<string, Token>, ignoreUnknownCommands: bool)
      ensures Valid()
      ensures Config() == LexConfig(input, customCommands, commands, textCommands, ignoreUnknownCommands)
      ensures State() == LexState(0, Math, 0, if parsingCustomCmds then Some(0) else None)
    {
      this.input := input;
      this.inputLength := Utf8Len(input);
      this.customCommands := customCommands;
      this.commands := commands;
      this.textCommands := textCommands;
      this.ignoreUnknownCommands := ignoreUnknownCommands;
      pos := 0;
      mode := Math;
      braceNestingLevel := 0;
      parseCmdArgs := if parsingCustomCmds then Some(0) else None;
      ghost var cfg := LexConfig(input, customCommands, commands, textCommands, ignoreUnknownCommands);
      ghost var src := SourceOfIsNextToken(cfg);
      source := src;
      new;
      assert input[..0] == [];
      peek := PeekAt(input, 0);
    }

    /** `read_char`: returns the peeked character and advances by one (not past the end). */
    method ReadChar() returns (r: (nat, Option<char>))
      requires Valid()
      modifies this
      ensures Valid() && r == old(peek)
      ensures State() == old(State()).(cur := After(input, old(pos)))
    {
      r := peek;
      if pos < |input| {
        Utf8LenPrefixStep(input, pos);
        pos := pos + 1;
        if pos < |input| {
          peek := (r.0 + CharLen(r.1.value), Some(input[pos]));
        } else {
          assert input[..pos] == input;
          peek := (inputLength, None);
        }
      }
    }

    /** `skip_whitespace`: the span of the first skipped character, if any was skipped. */
    method SkipWhitespace() returns (span: Option<Span>)
      requires Valid()
      modifies this
      ensures Valid()
      ensures State() == old(State()).(cur := WhitespaceEnd(input, old(pos)))
      ensures span == if pos > old(pos) then Some(Span(Loc(input, old(pos)), Loc(input, old(pos)) + CharLen(input[old(pos)])))
                      else None
    {
      span := None;
      ghost var i0 := pos;
      while peek.1.Some? && IsAsciiWhitespace(peek.1.value)
        invariant Valid() && i0 <= pos
        invariant WhitespaceEnd(input, pos) == WhitespaceEnd(input, i0)
        invariant State() == old(State()).(cur := pos)
        invariant span == if pos > i0 then Some(Span(Loc(input, i0), Loc(input, i0) + CharLen(input[i0]))) else None
        decreases |input| - pos
      {
        var r := ReadChar();
        if span.None? {
          span := Some(Span(r.0, r.0 + CharLen(r.1.value)));
        }
      }
    }

    /** `read_command`: the command name after a backslash and the byte offset of its end. */
    method ReadCommand() returns (cmd: string, end: nat)
      requires Valid()
      modifies this
      ensures Valid()
      ensures State() == old(State()).(cur := CommandEnd(input, old(pos)))
      ensures cmd == input[old(pos)..pos] && end == Loc(input, pos)
    {
      var start := pos;
      while peek.1.Some? && IsAsciiAlphabetic(peek.1.value)
        invariant Valid() && start <= pos
        invariant LetterRunEnd(input, pos) == LetterRunEnd(input, start)
        invariant State() == old(State()).(cur := pos)
        decreases |input| - pos
      {
        var _ := ReadChar();
      }
      if peek.1 == Some('*') {
        var _ := ReadChar();
      }
      if pos == start {
        var _ := ReadChar();
      }
      end := peek.0;
      cmd := input[start..pos];
    }

    /** `read_env_name`, as `ReadEnvName`. */
    method ReadEnvName() returns (r: Result<(string, nat), (Span, Option<char>)>)
      requires Valid()
      modifies this
      ensures Valid()
      ensures (r, State()) == LexerSpec.ReadEnvName(input, old(State()))
    {
      var j := pos;
      var first := ReadChar();
      var loc := first.0;
      if first.1 != Some('{') {
        if first.1.Some? && (IsAsciiAlphanumeric(first.1.value) || IsEnvNamePunct(first.1.value)) {
          return Ok((input[j..pos], peek.0));
        } else {
          return Err((Span(loc, loc + if first.1.Some? then CharLen(first.1.value) else 0), first.1));
        }
      }
      var start := pos;
      while peek.1.Some? && IsEnvNameChar(peek.1.value)
        invariant Valid() && start <= pos
        invariant EnvNameEnd(input, pos) == EnvNameEnd(input, start)
        invariant State() == old(State()).(cur := pos)
        decreases |input| - pos
      {
        var _ := ReadChar();
      }
      var k := pos;
      var closing := ReadChar();
      if closing.1 == Some('}') {
        return Ok((input[start..k], closing.0 + 1));
      } else {
        return Err((Span(closing.0, closing.0 + if closing.1.Some? then CharLen(closing.1.value) else 0), closing.1));
      }
    }

    /** The bookkeeping at the end of `parse_command`. */
    method FinishCommand(tok: Result<TokSpan, LatexError>) returns (r: LexerResult)
      modifies this
      ensures (r, State()) == LexerSpec.FinishCommand(old(State()), tok)
      ensures peek == old(peek)
    {
      if mode.TextStart? {
        mode := Math;
      }
      if tok.Ok? && tok.value.token.Text? {
        mode := TextStart;
      }
      r := if tok.Ok? then Tok(tok.value) else LexErr(tok.error);
    }

    /** `parse_command`, as `ParseCommand`. */
    method ParseCommand(span: Span, cmd: string) returns (r: LexerResult)
      requires Valid()
      modifies this
      ensures Valid()
      ensures (r, State()) == LexerSpec.ParseCommand(Config(), old(State()), span, cmd)
    {
      if !mode.Math? {
        if cmd in textCommands {
          r := FinishCommand(Ok(TokSpan(textCommands[cmd], span)));
        } else {
          r := UnknownCmd(cmd, span);
        }
      } else if cmd in customCommands {
        r := FinishCommand(Ok(TokSpan(customCommands[cmd], span)));
      } else if cmd in commands {
        r := FinishCommand(Ok(TokSpan(commands[cmd], span)));
      } else if cmd == "begin" || cmd == "end" {
        var _ := SkipWhitespace();
        var groupLoc := peek.0;
        var name := ReadEnvName();
        var tok: Result<TokSpan, LatexError>;
        match name {
          case Err((errSpan, None)) =>
            tok := Err(LatexError(errSpan, UnclosedGroup(GroupClose)));
          case Err((errSpan, Some(c))) =>
            tok := Err(LatexError(errSpan, DisallowedChar(c)));
          case Ok((envName, end)) =>
            match Environments.FromStr(envName) {
              case None =>
                tok := Err(LatexError(Span(groupLoc, end), UnknownEnvironment(envName)));
              case Some(env) =>
                tok := Ok(TokSpan(if cmd == "begin" then Begin(env) else Token.End(env), Span(span.start, end)));
            }
        }
        r := FinishCommand(tok);
      } else {
        r := UnknownCmd(cmd, span);
      }
    }

    /** The `#` branch of `next_token_internal`; the `#` at byte offset `loc` has been read. */
    method LexHash(loc: nat) returns (r: LexerResult)
      requires Valid()
      modifies this
      ensures Valid()
      ensures (r, State()) == LexerSpec.LexHash(input, old(State()), loc)
    {
      match parseCmdArgs {
        case None =>
          return LexErr(LatexError(Span(loc, loc + 1), MacroParameterOutsideCustomCommand));
        case Some(num) =>
          if peek.1.Some? && IsAsciiDigit(peek.1.value) {
            var param := peek.1.value as int - '1' as int;
            if !(0 <= param <= 8) {
              return LexErr(LatexError(Span(loc + 1, loc + 2), InvalidParameterNumber));
            }
            if param + 1 > num {
              parseCmdArgs := Some(param + 1);
            }
            var _ := ReadChar();
            r := Tok(TokSpan(CustomCmdArg(param), Span(loc, loc).WithLength(2)));
            if mode.TextStart? {
              mode := Math;
            }
          } else {
            var next := ReadChar();
            if next.1.Some? {
              return LexErr(LatexError(Span(next.0, next.0 + CharLen(next.1.value)), InvalidParameterNumber));
            } else {
              return LexErr(LatexError(Span(next.0, next.0), ExpectedParamNumberGotEOI));
            }
          }
      }
    }

    /** The single-character branches of `next_token_internal`; `ch` at byte offset `loc` has been read. */
    method LexChar(ch: char, loc: nat, textMode: bool) returns (r: LexerResult)
      requires Valid() && ch != '%' && ch != '\\' && !IsAsciiWhitespace(ch)
      modifies this
      ensures Valid()
      ensures (r, State()) == LexerSpec.LexChar(input, old(State()), ch, loc, textMode)
    {
      if ch == '\0' {
        return LexErr(LatexError(Span(loc, loc + 1), DisallowedChar(ch)));
      }
      if ch == '#' {
        r := LexHash(loc);
        return;
      }
      var span := Span(loc, loc + 1);
      var tok: Token;
      if ch == '{' {
        if mode.TextStart? {
          mode := TextGroup(braceNestingLevel);
        }
        braceNestingLevel := braceNestingLevel + 1;
        tok := GroupBegin;
      } else if ch == '}' {
        if braceNestingLevel == 0 {
          return LexErr(LatexError(Span(loc, loc + 1), UnmatchedClose(GroupClose)));
        }
        braceNestingLevel := braceNestingLevel - 1;
        if mode.TextGroup? && mode.nesting == braceNestingLevel {
          mode := Math;
        }
        tok := GroupEnd;
      } else if SingleCharToken(ch, textMode).Some? {
        tok := SingleCharToken(ch, textMode).value;
      } else if IsAsciiDigit(ch) {
        tok := Digit(ch);
      } else {
        span := span.WithLength(CharLen(ch));
        tok := Letter(ch);
      }
      if mode.TextStart? {
        mode := Math;
      }
      r := Tok(TokSpan(tok, span));
    }

    /** The comment branch of `next_token_internal`: skips through the end of the line. */
    method SkipComment()
      requires Valid()
      modifies this
      ensures Valid()
      ensures State() == old(State()).(cur := After(input, LineEnd(input, old(pos))))
    {
      while peek.1 != Some('\n') && peek.1.Some?
        invariant Valid() && old(pos) <= pos
        invariant LineEnd(input, pos) == LineEnd(input, old(pos))
        invariant State() == old(State()).(cur := pos)
        decreases |input| - pos
      {
        var _ := ReadChar();
      }
      var _ := ReadChar();
    }

    /** `next_token_internal`, as `NextTokenInternal`. */
    method NextTokenInternal() returns (r: LexerResult)
      requires Valid()
      modifies this
      ensures Valid()
      ensures (r, State()) == LexerSpec.NextTokenInternal(Config(), old(State()))
      decreases |input| - pos, 1
    {
      var ws := SkipWhitespace();
      if ws.Some? {
        return Tok(TokSpan(Whitespace, ws.value));
      }
      r := LexAfterWhitespace();
    }

    /** The rest of `next_token_internal`, once no whitespace is ahead. */
    method LexAfterWhitespace() returns (r: LexerResult)
      requires Valid() && WhitespaceEnd(input, pos) == pos
      modifies this
      ensures Valid()
      ensures (r, State()) == LexerSpec.NextTokenInternal(Config(), old(State()))
      decreases |input| - pos, 0
    {
      var textMode := !mode.Math?;
      var next := ReadChar();
      var loc := next.0;
      if next.1.None? {
        return Tok(TokSpan(Token.Eoi, ZeroWidth(loc)));
      }
      var ch := next.1.value;
      if ch == '%' {
        SkipComment();
        r := NextTokenInternal();
        return;
      }
      if ch == '\\' {
        var cmd, end := ReadCommand();
        var _ := SkipWhitespace();
        r := ParseCommand(Span(loc, end), cmd);
        return;
      }
      r := LexChar(ch, loc, textMode);
    }

    /** `next_token`, as `NextToken`. */
    method NextToken() returns (r: Result<TokSpan, LatexError>)
      requires Valid()
      modifies this
      ensures Valid()
      ensures (r, State()) == source.next(old(State()))
    {
      var internal := NextTokenInternal();
      match internal {
        case Tok(ts) => r := Ok(ts);
        case UnknownCmd(cmd, span) =>
          if ignoreUnknownCommands {
            r := Ok(TokSpan(UnknownCommand(cmd), span));
          } else {
            r := Err(LatexError(span, UnknownCommandErr(cmd)));
          }
        case LexErr(e) => r := Err(e);
      }
      assert (r, State()) == LexerSpec.NextToken(Config(), old(State()));
    }
  }
}
