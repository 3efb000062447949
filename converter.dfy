/**
 * The converter front end (crates/math-core/src/lib.rs): the configuration
 * flags, the equation counter kept across calls, the `<math>` wrapper
 * around the rendered nodes, and the reading of the configured macros
 * into one shared token buffer.
 *
 * Parsing a formula into nodes and emitting a node as MathML are outside
 * this model: they are parameters (`parse`, `emit`) of the operations
 * that use them.
 */
module Converter {
  import opened Wrappers
  import opened Integers
  import opened Tokens
  import opened LexerSpec
  import Lexer

  /** `MathDisplay`: inline (`$...$`) or block (`$$...$$`) equations. */
  datatype MathDisplay = Inline | Block

  /** `PrettyPrint`: when to add newlines and indentation to the output. */
  datatype PrettyPrint = Never | Always | Auto

  /** `MathCoreConfig`. */
  datatype MathCoreConfig = MathCoreConfig(prettyPrint: PrettyPrint, macros: seq<(string, string)>, xmlNamespace: bool)

  /** `Flags`: the simple flags of the configuration. */
  datatype Flags = Flags(prettyPrint: PrettyPrint, xmlNamespace: bool)

  function FlagsOf(config: MathCoreConfig): Flags {
    Flags(config.prettyPrint, config.xmlNamespace)
  }

  const XMLNS_ATTR: string := " xmlns=\"http://www.w3.org/1998/Math/MathML\""
  const BLOCK_ATTR: string := " display=\"block\""
  const MATH_OPEN: string := "<math"
  const MATH_CLOSE: string := "</math>"

  predicate StartsWith<T(==)>(s: seq<T>, prefix: seq<T>) {
    |prefix| <= |s| && s[..|prefix|] == prefix
  }

  predicate EndsWith<T(==)>(s: seq<T>, suffix: seq<T>) {
    |suffix| <= |s| && s[|s| - |suffix|..] == suffix
  }

  /** Pretty printing applies when it is always on, or automatic and the equation is a block. */
  predicate PrettyPrints(flags: Flags, display: MathDisplay) {
    flags.prettyPrint.Always? || (flags.prettyPrint.Auto? && display == Block)
  }

  /** The opening `<math>` tag. */
  function Header(flags: Flags, display: MathDisplay): string {
    MATH_OPEN + (if flags.xmlNamespace then XMLNS_ATTR else "") + (if display == Block then BLOCK_ATTR else "") + ">"
  }

  /**
   * The opening tag carries the namespace attribute exactly when the flag
   * asks for it, right after the tag name, and `display="block"` exactly
   * for block equations, right before the closing `>`.
   */
  lemma HeaderAttributes(flags: Flags, display: MathDisplay)
    ensures var h := Header(flags, display);
      StartsWith(h, MATH_OPEN) && EndsWith(h, ">")
      && (flags.xmlNamespace <==> StartsWith(h[|MATH_OPEN|..], XMLNS_ATTR))
      && (display == Block <==> EndsWith(h, BLOCK_ATTR + ">"))
  {
    var h := Header(flags, display);
    var attrs := (if flags.xmlNamespace then XMLNS_ATTR else "") + (if display == Block then BLOCK_ATTR else "");
    assert h == MATH_OPEN + (attrs + ">");
    Split(MATH_OPEN, attrs + ">");
    Split(attrs, ">");
    if flags.xmlNamespace {
      Split(XMLNS_ATTR, (if display == Block then BLOCK_ATTR else "") + ">");
    } else if |attrs| > 0 {
      assert (attrs + ">")[1] == 'd' != XMLNS_ATTR[1];
    }
    if display == Block {
      Split(MATH_OPEN + (if flags.xmlNamespace then XMLNS_ATTR else ""), BLOCK_ATTR + ">");
    } else if flags.xmlNamespace {
      assert h[|h| - |BLOCK_ATTR + ">"|] == XMLNS_ATTR[|XMLNS_ATTR| - |BLOCK_ATTR|] != ' ';
    }
  }

  /** The two halves of a concatenation. */
  lemma Split<T>(a: seq<T>, b: seq<T>)
    ensures (a + b)[..|a|] == a && (a + b)[|a|..] == b
  {
  }

  /** Emits the nodes from index `i` on, appending to `out`; `None` when one of them fails to render. */
  function EmitFrom<N>(nodes: seq<N>, i: nat, indent: nat, emit: (N, nat) -> Option<string>, out: string): (r: Option<string>)
    requires i <= |nodes|
    ensures r.Some? ==> StartsWith(r.value, out)
    decreases |nodes| - i
  {
    if i == |nodes| then Some(out)
    else match emit(nodes[i], indent)
      case None => None
      case Some(s) =>
        var r := EmitFrom(nodes, i + 1, indent, emit, out + s);
        assert r.Some? ==> r.value[..|out|] == (out + s)[..|out|];
        r
  }

  /**
   * `convert`: parse the formula (which may advance the equation counter,
   * whether or not it succeeds), then write the opening tag, the nodes at
   * indentation 1 when pretty printing and 0 otherwise, a final newline
   * when pretty printing, and the closing tag. A node that fails to render
   * is a render error at offset 0.
   */
  function ConvertSpec<N>(latex: string, display: MathDisplay, customCmds: Option<CustomCmds>, count: u16, flags: Flags,
                          parse: (string, Option<CustomCmds>, u16) -> (Result<seq<N>, LatexError>, u16),
                          emit: (N, nat) -> Option<string>): (Result<string, LatexError>, u16)
  {
    var (ast, count1) := parse(latex, customCmds, count);
    if ast.Err? then (Err(ast.error), count1)
    else
      var pretty := PrettyPrints(flags, display);
      match EmitFrom(ast.value, 0, if pretty then 1 else 0, emit, Header(flags, display))
      case None => (Err(LatexError(Span(0, 0), RenderError)), count1)
      case Some(out) => (Ok(out + (if pretty then "\n" else "") + MATH_CLOSE), count1)
  }

  /**
   * The output of a successful conversion starts with the opening tag and
   * ends with the closing one, on a line of its own when pretty printing;
   * a parse error is passed on unchanged; and the counter is the one the
   * parser leaves, whatever the outcome.
   */
  lemma ConvertOutput<N>(latex: string, display: MathDisplay, customCmds: Option<CustomCmds>, count: u16, flags: Flags,
                         parse: (string, Option<CustomCmds>, u16) -> (Result<seq<N>, LatexError>, u16),
                         emit: (N, nat) -> Option<string>)
    ensures var (r, count1) := ConvertSpec(latex, display, customCmds, count, flags, parse, emit);
      var (ast, parsedCount) := parse(latex, customCmds, count);
      count1 == parsedCount
      && (ast.Err? ==> r == Err(ast.error))
      && (r.Err? && ast.Ok? ==> r.error == LatexError(Span(0, 0), RenderError))
      && (r.Ok? ==>
            StartsWith(r.value, Header(flags, display)) && EndsWith(r.value, MATH_CLOSE)
            && (PrettyPrints(flags, display) ==> EndsWith(r.value, "\n" + MATH_CLOSE)))
  {
    var (r, count1) := ConvertSpec(latex, display, customCmds, count, flags, parse, emit);
    var (ast, parsedCount) := parse(latex, customCmds, count);
    if r.Ok? {
      var pretty := PrettyPrints(flags, display);
      var h := Header(flags, display);
      var out := EmitFrom(ast.value, 0, if pretty then 1 else 0, emit, h).value;
      var tail := (if pretty then "\n" else "") + MATH_CLOSE;
      assert r.value == out + tail;
      assert r.value[..|h|] == out[..|h|];
      assert r.value[|r.value| - |tail|..] == tail;
    }
  }

  /**
   * `is_valid_macro_name`: a name of one character may be any character;
   * a longer one must consist of ASCII letters only.
   */
  function IsValidMacroName(s: string): bool {
    if |s| == 0 then false
    else if |s| == 1 then true
    else AllAsciiAlphabetic(s)
  }

  /** `s.bytes().all(|b| b.is_ascii_alphabetic())`, for a string of chars. */
  function AllAsciiAlphabetic(s: string): bool {
    if s == [] then true else IsAsciiAlphabetic(s[0]) && AllAsciiAlphabetic(s[1..])
  }

  /** A name is valid exactly when it is one character, or two or more ASCII letters. */
  lemma ValidMacroNameChars(s: string)
    ensures IsValidMacroName(s) <==> |s| == 1 || (|s| >= 2 && forall k | 0 <= k < |s| :: IsAsciiAlphabetic(s[k]))
  {
    AllAsciiAlphabeticIff(s);
  }

  /** The check runs over every char. */
  lemma {:induction false} AllAsciiAlphabeticIff(s: string)
    ensures AllAsciiAlphabetic(s) <==> forall k | 0 <= k < |s| :: IsAsciiAlphabetic(s[k])
  {
    if s != [] {
      AllAsciiAlphabeticIff(s[1..]);
      assert forall k | 1 <= k < |s| :: s[k] == s[1..][k - 1];
    }
  }

  /**
   * `CustomCmds`: the tokens of every macro definition, one after the
   * other, and for each macro name its number of arguments and the range
   * of its tokens.
   */
  datatype CustomCmds = CustomCmds(tokens: seq<Token>, cmds: map<string, (u8, (nat, nat))>)

  /** `get_command`: the macro as a token holding its definition, if the name and its range exist. */
  function GetCommand(cc: CustomCmds, command: string): Option<Token> {
    if command !in cc.cmds then None
    else
      var (numArgs, (start, end)) := cc.cmds[command];
      if start <= end <= |cc.tokens| then Some(CustomCmd(numArgs, cc.tokens[start..end])) else None
  }

  /** Every range in the map lies within the token buffer. */
  predicate RangesValid(cc: CustomCmds) {
    forall name | name in cc.cmds :: cc.cmds[name].1.0 <= cc.cmds[name].1.1 <= |cc.tokens|
  }

  /** The lexer configuration for a macro definition: no custom commands, unknown commands are errors. */
  function DefinitionConfig(definition: string, commands: map<string, Token>, textCommands: map<string, Token>): LexConfig {
    LexConfig(definition, map[], commands, textCommands, false)
  }

  /** A fresh lexer that counts macro parameters. */
  const DEFINITION_START: LexState := LexState(0, Math, 0, Some(0))

  /**
   * The tokens of a definition from `st` up to the end of input, appended
   * to `acc`, with the final lexer state; or the first lexer error.
   */
  function LexDefinition(src: TokenSource, st: LexState, acc: seq<Token>): (r: Result<(seq<Token>, LexState), LatexError>)
    requires Advancing(src) && st.cur <= src.end
    ensures r.Ok? ==> StartsWith(r.value.0, acc)
    decreases src.end - st.cur
  {
    var (t, st1) := src.next(st);
    if t.Err? then Err(t.error)
    else if t.value.token.Eoi? then Ok((acc, st1))
    else
      var r := LexDefinition(src, st1, acc + [t.value.token]);
      assert r.Ok? ==> r.value.0[..|acc|] == (acc + [t.value.token])[..|acc|];
      r
  }

  /**
   * A lexer for each definition: the step of a fresh lexer over that
   * definition. `DefinitionSources` is the one the converter uses; the
   * properties below hold for any lexer that advances.
   */
  ghost predicate SourcesAdvance(sources: string -> TokenSource) {
    forall d :: Advancing(sources(d)) && sources(d).end == |d|
  }

  /**
   * `sources` lexes each definition as a fresh lexer over it does: it
   * agrees with `NextToken` on every state within the definition.
   */
  ghost predicate DefinitionLexers(sources: string -> TokenSource, commands: map<string, Token>,
                                   textCommands: map<string, Token>)
  {
    SourcesAdvance(sources)
    && forall d: string, st: LexState {:trigger NextToken(DefinitionConfig(d, commands, textCommands), st)}
         | st.cur <= |d| :: sources(d).next(st) == NextToken(DefinitionConfig(d, commands, textCommands), st)
  }

  /** The lexers of the definitions, built from the lexer's own step. */
  function DefinitionSources(commands: map<string, Token>, textCommands: map<string, Token>): string -> TokenSource {
    d => SourceOf(DefinitionConfig(d, commands, textCommands))
  }

  lemma DefinitionSourcesAreLexers(commands: map<string, Token>, textCommands: map<string, Token>)
    ensures DefinitionLexers(DefinitionSources(commands, textCommands), commands, textCommands)
  {
    var sources := DefinitionSources(commands, textCommands);
    forall d
      ensures Advancing(sources(d)) && sources(d).end == |d|
    {
      SourceOfAdvances(DefinitionConfig(d, commands, textCommands));
    }
  }

  /** Lexes a macro definition with a fresh lexer, appending its tokens to `tokens`. */
  function LexMacro(sources: string -> TokenSource, definition: string, tokens: seq<Token>): Result<(seq<Token>, LexState), LatexError>
    requires SourcesAdvance(sources)
  {
    LexDefinition(sources(definition), DEFINITION_START, tokens)
  }

  /** The number of parameters a definition uses. */
  function NumArgs(st: LexState): u8 {
    match st.parseCmdArgs
    case Some(n) => n
    case None => 0
  }

  /** Lexing onto a buffer gives the buffer followed by what lexing onto an empty one gives. */
  lemma {:induction false} LexDefinitionAppends(src: TokenSource, st: LexState, acc: seq<Token>)
    requires Advancing(src) && st.cur <= src.end
    ensures var r := LexDefinition(src, st, acc);
      var r0 := LexDefinition(src, st, []);
      r.Ok? == r0.Ok?
      && (r.Err? ==> r.error == r0.error)
      && (r.Ok? ==> r.value.0 == acc + r0.value.0 && r.value.1 == r0.value.1)
    decreases src.end - st.cur
  {
    var (t, st1) := src.next(st);
    if t.Ok? && !t.value.token.Eoi? {
      var tok := t.value.token;
      LexDefinitionAppends(src, st1, acc + [tok]);
      LexDefinitionAppends(src, st1, [tok]);
      assert [] + [tok] == [tok];
      var r1 := LexDefinition(src, st1, []);
      if r1.Ok? {
        assert acc + [tok] + r1.value.0 == acc + ([tok] + r1.value.0);
      }
    } else if t.Ok? {
      assert acc + [] == acc;
    }
  }

  /**
   * `parse_custom_commands` from the buffer and map built so far, `lex`
   * giving the tokens and final state a fresh lexer makes of a definition:
   * the macros in order, up to the first error. Each name is checked, the
   * definition's tokens appended to the buffer, and the name mapped to its
   * parameter count and token range, replacing an earlier entry of the same
   * name. Errors carry the definition.
   */
  function ParseCustomCommandsSpec(lex: string -> Result<(seq<Token>, LexState), LatexError>, macros: seq<(string, string)>, cc: CustomCmds)
    : Result<CustomCmds, (LatexError, string)>
    decreases |macros|
  {
    if macros == [] then Ok(cc)
    else if !IsValidMacroName(macros[0].0) then Err((LatexError(Span(0, 0), InvalidMacroName(macros[0].0)), macros[0].1))
    else match lex(macros[0].1)
      case Err(e) => Err((e, macros[0].1))
      case Ok(lexed) => ParseCustomCommandsSpec(lex, macros[1..], AddDefinition(cc, macros[0].0, lexed.0, lexed.1))
  }

  /**
   * One macro's entry: its tokens appended to the buffer, and its name
   * mapped to its parameter count and their range, replacing an earlier
   * entry of the same name.
   */
  function AddDefinition(cc: CustomCmds, name: string, tokens: seq<Token>, st: LexState): CustomCmds {
    CustomCmds(cc.tokens + tokens, cc.cmds[name := (NumArgs(st), (|cc.tokens|, |cc.tokens| + |tokens|))])
  }

  /** Each definition lexed by a fresh lexer onto an empty buffer. */
  ghost function DefinitionsLexed(sources: string -> TokenSource): string -> Result<(seq<Token>, LexState), LatexError>
    requires SourcesAdvance(sources)
  {
    d => LexMacro(sources, d, [])
  }

  /**
   * Reading more macros only appends to the buffer, keeps every range
   * valid, and leaves the entry of a name that is not defined again as it
   * was, whatever lexes the definitions.
   */
  lemma {:induction false} ParseKeepsEntries(lex: string -> Result<(seq<Token>, LexState), LatexError>,
                                                 macros: seq<(string, string)>, cc: CustomCmds, name: string)
    requires RangesValid(cc) && ParseCustomCommandsSpec(lex, macros, cc).Ok?
    requires forall j | 0 <= j < |macros| :: macros[j].0 != name
    ensures var out := ParseCustomCommandsSpec(lex, macros, cc).value;
      StartsWith(out.tokens, cc.tokens) && RangesValid(out)
      && (name in out.cmds <==> name in cc.cmds) && (name in cc.cmds ==> out.cmds[name] == cc.cmds[name])
    decreases |macros|
  {
    if macros != [] {
      var cc1 := ParseFirst(lex, macros, cc);
      var rest := macros[1..];
      assert macros[0].0 != name;
      forall j | 0 <= j < |rest|
        ensures rest[j].0 != name
      {
        assert rest[j] == macros[j + 1];
      }
      ParseKeepsEntries(lex, rest, cc1, name);
      var out := ParseCustomCommandsSpec(lex, rest, cc1).value;
      assert out.tokens[..|cc.tokens|] == out.tokens[..|cc1.tokens|][..|cc.tokens|];
    }
  }

  /** Reading macros that succeeds reads the first one, which appends its tokens and keeps ranges valid, then the rest. */
  lemma ParseFirst(lex: string -> Result<(seq<Token>, LexState), LatexError>, macros: seq<(string, string)>, cc: CustomCmds)
    returns (cc1: CustomCmds)
    requires RangesValid(cc) && 0 < |macros| && ParseCustomCommandsSpec(lex, macros, cc).Ok?
    ensures IsValidMacroName(macros[0].0) && lex(macros[0].1).Ok?
    ensures cc1.tokens == cc.tokens + lex(macros[0].1).value.0
    ensures cc1.cmds == cc.cmds[macros[0].0 := (NumArgs(lex(macros[0].1).value.1), (|cc.tokens|, |cc1.tokens|))]
    ensures RangesValid(cc1)
    ensures ParseCustomCommandsSpec(lex, macros, cc) == ParseCustomCommandsSpec(lex, macros[1..], cc1)
  {
    var d := lex(macros[0].1).value;
    cc1 := AddDefinition(cc, macros[0].0, d.0, d.1);
  }

  /** The entry of the first macro, when no later macro has its name. */
  lemma FirstMacroLookup(lex: string -> Result<(seq<Token>, LexState), LatexError>, macros: seq<(string, string)>,
                         cc: CustomCmds)
    requires RangesValid(cc)
    requires 0 < |macros| && forall j | 0 < j < |macros| :: macros[j].0 != macros[0].0
    requires ParseCustomCommandsSpec(lex, macros, cc).Ok?
    ensures lex(macros[0].1).Ok?
    ensures GetCommand(ParseCustomCommandsSpec(lex, macros, cc).value, macros[0].0)
      == Some(CustomCmd(NumArgs(lex(macros[0].1).value.1), lex(macros[0].1).value.0))
  {
    var name := macros[0].0;
    var cc1 := ParseFirst(lex, macros, cc);
    var rest := macros[1..];
    forall j | 0 <= j < |rest|
      ensures rest[j].0 != name
    {
      assert rest[j] == macros[j + 1];
    }
    ParseKeepsEntries(lex, rest, cc1, name);
    var out := ParseCustomCommandsSpec(lex, rest, cc1).value;
    var d := lex(macros[0].1).value;
    assert out.cmds[name] == cc1.cmds[name] == (NumArgs(d.1), (|cc.tokens|, |cc1.tokens|));
    assert out.tokens[|cc.tokens|..|cc1.tokens|] == cc1.tokens[|cc.tokens|..] == d.0;
  }

  /**
   * After reading the macros, looking up a name gives a command with the
   * parameter count and the tokens of its last definition, whatever lexes
   * the definitions.
   */
  lemma {:induction false} ParsedMacroLookup(lex: string -> Result<(seq<Token>, LexState), LatexError>,
                                           macros: seq<(string, string)>, cc: CustomCmds, i: nat)
    requires RangesValid(cc)
    requires i < |macros| && forall j | i < j < |macros| :: macros[j].0 != macros[i].0
    requires ParseCustomCommandsSpec(lex, macros, cc).Ok?
    ensures lex(macros[i].1).Ok?
    ensures GetCommand(ParseCustomCommandsSpec(lex, macros, cc).value, macros[i].0)
      == Some(CustomCmd(NumArgs(lex(macros[i].1).value.1), lex(macros[i].1).value.0))
    decreases |macros|
  {
    if i == 0 {
      FirstMacroLookup(lex, macros, cc);
    } else {
      var cc1 := ParseFirst(lex, macros, cc);
      LastDefinitionInRest(macros, i);
      ParsedMacroLookup(lex, macros[1..], cc1, i - 1);
    }
  }

  /** A definition that no later one overrides stays so after the first macro is dropped. */
  lemma LastDefinitionInRest(macros: seq<(string, string)>, i: nat)
    requires 0 < i < |macros| && forall j | i < j < |macros| :: macros[j].0 != macros[i].0
    ensures macros[1..][i - 1] == macros[i]
    ensures forall j | i - 1 < j < |macros[1..]| :: macros[1..][j].0 != macros[1..][i - 1].0
  {
    forall j | i - 1 < j < |macros[1..]|
      ensures macros[1..][j].0 != macros[1..][i - 1].0
    {
      assert macros[1..][j] == macros[j + 1];
    }
  }

  /** `convert`, writing the output piece by piece as the source does. */
  method Convert<N>(latex: string, display: MathDisplay, customCmds: Option<CustomCmds>, count: u16, flags: Flags,
                    parse: (string, Option<CustomCmds>, u16) -> (Result<seq<N>, LatexError>, u16),
                    emit: (N, nat) -> Option<string>)
    returns (r: Result<string, LatexError>, countOut: u16)
    ensures (r, countOut) == ConvertSpec(latex, display, customCmds, count, flags, parse, emit)
  {
    var (ast, count1) := parse(latex, customCmds, count);
    countOut := count1;
    if ast.Err? {
      return Err(ast.error), countOut;
    }
    var nodes := ast.value;
    var output := MATH_OPEN;
    if flags.xmlNamespace {
      output := output + XMLNS_ATTR;
    }
    if display == Block {
      output := output + BLOCK_ATTR;
    }
    output := output + ">";
    assert output == Header(flags, display);
    var pretty := flags.prettyPrint.Always? || (flags.prettyPrint.Auto? && display == Block);
    assert pretty == PrettyPrints(flags, display);
    var baseIndent: nat := if pretty then 1 else 0;
    for i := 0 to |nodes|
      invariant EmitFrom(nodes, i, baseIndent, emit, output) == EmitFrom(nodes, 0, baseIndent, emit, Header(flags, display))
    {
      var emitted := emit(nodes[i], baseIndent);
      if emitted.None? {
        assert EmitFrom(nodes, i, baseIndent, emit, output) == None;
        return Err(LatexError(Span(0, 0), RenderError)), countOut;
      }
      output := output + emitted.value;
    }
    assert EmitFrom(nodes, 0, baseIndent, emit, Header(flags, display)) == Some(output);
    ghost var body := output;
    assert body + "" == body;
    if pretty {
      output := output + "\n";
    }
    output := output + MATH_CLOSE;
    r := Ok(output);
  }

  /**
   * The block of `parse_custom_commands` that lexes one definition with a
   * fresh lexer, appending its tokens to `tokens`, and reads the number of
   * parameters the lexer saw.
   */
  method LexMacroDefinition(definition: string, commands: map<string, Token>, textCommands: map<string, Token>,
                            tokens: seq<Token>, ghost sources: string -> TokenSource)
    returns (r: Result<(seq<Token>, u8), LatexError>)
    requires DefinitionLexers(sources, commands, textCommands)
    ensures var lexed := LexMacro(sources, definition, tokens);
      r == (if lexed.Ok? then Ok((lexed.value.0, NumArgs(lexed.value.1))) else Err(lexed.error))
  {
    var lexer := new Lexer.Lexer(definition, true, map[], commands, textCommands, false);
    ghost var src := sources(definition);
    ghost var cfg := DefinitionConfig(definition, commands, textCommands);
    ghost var lexed := LexDefinition(src, DEFINITION_START, tokens);
    var out := tokens;
    while true
      invariant lexer.Valid() && lexer.Config() == cfg
      invariant lexer.State().cur <= src.end
      invariant LexDefinition(src, lexer.State(), out) == lexed
      decreases src.end - lexer.State().cur
    {
      ghost var st := lexer.State();
      assert lexer.source.next(st) == NextToken(cfg, st) == src.next(st);
      var tok := lexer.NextToken();
      if tok.Err? {
        return Err(tok.error);
      }
      if tok.value.token.Eoi? {
        break;
      }
      out := out + [tok.value.token];
    }
    var numArgs := match lexer.parseCmdArgs case Some(n) => n case None => 0;
    r := Ok((out, numArgs));
  }

  /**
   * `parse_custom_commands`: each macro in order, stopping at the first
   * error. `sources` stands for the fresh lexer the source creates for
   * each definition.
   */
  method ParseCustomCommands(macros: seq<(string, string)>, commands: map<string, Token>, textCommands: map<string, Token>,
                             ghost sources: string -> TokenSource)
    returns (r: Result<CustomCmds, (LatexError, string)>)
    requires DefinitionLexers(sources, commands, textCommands)
    ensures r == ParseCustomCommandsSpec(DefinitionsLexed(sources), macros, CustomCmds([], map[]))
  {
    ghost var lex := DefinitionsLexed(sources);
    var cmds: map<string, (u8, (nat, nat))> := map[];
    var tokens: seq<Token> := [];
    for i := 0 to |macros|
      invariant ParseCustomCommandsSpec(lex, macros[i..], CustomCmds(tokens, cmds))
                == ParseCustomCommandsSpec(lex, macros, CustomCmds([], map[]))
    {
      ParseStep(lex, macros, i, CustomCmds(tokens, cmds));
      var read := ReadMacro(macros[i].0, macros[i].1, CustomCmds(tokens, cmds), commands, textCommands, sources);
      if read.Err? {
        return Err(read.error);
      }
      tokens, cmds := read.value.tokens, read.value.cmds;
    }
    r := Ok(CustomCmds(tokens, cmds));
  }

  /**
   * One iteration of `parse_custom_commands`: checks the name, lexes the
   * definition onto the buffer and maps the name to its parameter count
   * and token range; an invalid name or a lexer error is returned with
   * the definition.
   */
  method ReadMacro(name: string, definition: string, cc: CustomCmds, commands: map<string, Token>,
                   textCommands: map<string, Token>, ghost sources: string -> TokenSource)
    returns (r: Result<CustomCmds, (LatexError, string)>)
    requires DefinitionLexers(sources, commands, textCommands)
    ensures var lexed := DefinitionsLexed(sources)(definition);
      r == if !IsValidMacroName(name) then Err((LatexError(Span(0, 0), InvalidMacroName(name)), definition))
           else if lexed.Err? then Err((lexed.error, definition))
           else Ok(AddDefinition(cc, name, lexed.value.0, lexed.value.1))
  {
    if !IsValidMacroName(name) {
      return Err((LatexError(Span(0, 0), InvalidMacroName(name)), definition));
    }
    var start := |cc.tokens|;
    var value := LexMacroDefinition(definition, commands, textCommands, cc.tokens, sources);
    LexOntoBuffer(sources, cc.tokens, definition, value);
    if value.Err? {
      return Err((value.error, definition));
    }
    var (tokens, numArgs) := value.value;
    EntryAdded(cc, name, DefinitionsLexed(sources)(definition).value, tokens, numArgs);
    var end := |tokens|;
    r := Ok(CustomCmds(tokens, cc.cmds[name := (numArgs, (start, end))]));
  }

  /** The buffer and map the loop builds from a lexed definition are the ones `AddDefinition` gives. */
  lemma EntryAdded(cc: CustomCmds, name: string, lexed: (seq<Token>, LexState), tokens: seq<Token>, numArgs: u8)
    requires tokens == cc.tokens + lexed.0 && numArgs == NumArgs(lexed.1)
    ensures CustomCmds(tokens, cc.cmds[name := (numArgs, (|cc.tokens|, |tokens|))]) == AddDefinition(cc, name, lexed.0, lexed.1)
  {
  }

  /**
   * A definition lexed onto the buffer, with its parameter count, is the
   * buffer followed by the definition's own tokens, or the same error.
   */
  lemma LexOntoBuffer(sources: string -> TokenSource, tokens: seq<Token>, definition: string,
                      value: Result<(seq<Token>, u8), LatexError>)
    requires SourcesAdvance(sources)
    requires var lexed := LexMacro(sources, definition, tokens);
      value == (if lexed.Ok? then Ok((lexed.value.0, NumArgs(lexed.value.1))) else Err(lexed.error))
    ensures var d := DefinitionsLexed(sources)(definition);
      (value.Ok? <==> d.Ok?) && (value.Err? ==> value.error == d.error)
      && (value.Ok? ==> value.value == (tokens + d.value.0, NumArgs(d.value.1)))
  {
    LexDefinitionAppends(sources(definition), DEFINITION_START, tokens);
    assert DefinitionsLexed(sources)(definition) == LexDefinition(sources(definition), DEFINITION_START, []);
  }

  /** The macros from `i` on: the one at `i`, then the rest from what it leaves. */
  lemma ParseStep(lex: string -> Result<(seq<Token>, LexState), LatexError>, macros: seq<(string, string)>, i: nat,
                  cc: CustomCmds)
    requires i < |macros|
    ensures ParseCustomCommandsSpec(lex, macros[i..], cc)
      == if !IsValidMacroName(macros[i].0) then Err((LatexError(Span(0, 0), InvalidMacroName(macros[i].0)), macros[i].1))
         else if lex(macros[i].1).Err? then Err((lex(macros[i].1).error, macros[i].1))
         else ParseCustomCommandsSpec(lex, macros[i + 1..], AddDefinition(cc, macros[i].0, lex(macros[i].1).value.0, lex(macros[i].1).value.1))
  {
    assert macros[i..][0] == macros[i] && macros[i..][1..] == macros[i + 1..];
  }

  /**
   * `LatexToMathML`: the flags, the equation counter kept across
   * conversions, and the custom commands.
   */
  class LatexToMathML {
    const flags: Flags
    var equationCount: u16
    const customCmds: Option<CustomCmds>

    constructor (flags: Flags, customCmds: Option<CustomCmds>)
      ensures this.flags == flags && this.customCmds == customCmds && equationCount == 0
    {
      this.flags := flags;
      this.customCmds := customCmds;
      equationCount := 0;
    }

    /** `LatexToMathML::new`: fails with the error and the definition of the first bad macro. */
    static method New(config: MathCoreConfig, commands: map<string, Token>, textCommands: map<string, Token>,
                      ghost sources: string -> TokenSource)
      returns (r: Result<LatexToMathML, (LatexError, string)>)
      requires DefinitionLexers(sources, commands, textCommands)
      ensures var cc := ParseCustomCommandsSpec(DefinitionsLexed(sources), config.macros, CustomCmds([], map[]));
        (r.Ok? <==> cc.Ok?)
        && (r.Ok? ==> fresh(r.value) && r.value.flags == FlagsOf(config) && r.value.equationCount == 0
                      && r.value.customCmds == Some(cc.value))
        && (r.Err? ==> r.error == cc.error)
    {
      var cc := ParseCustomCommands(config.macros, commands, textCommands, sources);
      if cc.Err? {
        return Err(cc.error);
      }
      var converter := new LatexToMathML(FlagsOf(config), Some(cc.value));
      r := Ok(converter);
    }

    /** `convert_with_global_counter`: numbering continues from the stored counter, which keeps the result. */
    method ConvertWithGlobalCounter<N>(latex: string, display: MathDisplay,
                                       parse: (string, Option<CustomCmds>, u16) -> (Result<seq<N>, LatexError>, u16),
                                       emit: (N, nat) -> Option<string>)
      returns (r: Result<string, LatexError>)
      modifies this
      ensures (r, equationCount) == ConvertSpec(latex, display, customCmds, old(equationCount), flags, parse, emit)
    {
      r, equationCount := Convert(latex, display, customCmds, equationCount, flags, parse, emit);
    }

    /** `convert_with_local_counter`: numbering starts from 0 and the stored counter is not touched. */
    method ConvertWithLocalCounter<N>(latex: string, display: MathDisplay,
                                      parse: (string, Option<CustomCmds>, u16) -> (Result<seq<N>, LatexError>, u16),
                                      emit: (N, nat) -> Option<string>)
      returns (r: Result<string, LatexError>)
      ensures r == ConvertSpec(latex, display, customCmds, 0, flags, parse, emit).0
    {
      var equationCount := 0;
      r, equationCount := Convert(latex, display, customCmds, equationCount, flags, parse, emit);
    }

    /** `reset_global_counter`. */
    method ResetGlobalCounter()
      modifies this
      ensures equationCount == 0
    {
      equationCount := 0;
    }
  }
}
