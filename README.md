# math-core in Dafny

A model of the core of math-core, a converter from LaTeX mathematics to
MathML Core markup, with proofs of what its parts promise. Each Rust source
file of the core is one Dafny module:

- `Tokens` (token.rs): tokens, their spans and operator classes, and the
  closing tokens a construct waits for.
- `LexerSpec` and `Lexer` (lexer.rs): the lexer as functions over a lexer
  state, and as a class with the source's fields (`peek`, `mode`,
  `brace_nesting_level`, the macro-parameter count) whose methods are proved
  against those functions. This covers braces and the `\text` modes,
  `#` parameters, comments, command and environment names, and the recovery
  of the original characters.
- `TokenQueue` (token_queue.rs): the queue of look-ahead tokens over a lexer.
  It covers `peek`, `next`, `next_with_whitespace`, `queue_in_front` and
  `read_group`, with the index of the first token that is not whitespace
  kept as an invariant.
- `Environments` (environments.rs): the environment names and equation
  numbering.
- `Converter` (lib.rs): the `<math>` wrapper, the equation counters kept per
  call or across calls, and reading the configured macros into one token
  buffer.
- `ParseRules` (parse.rs): operator spacing, primes and scripts, the row
  numbering commands `\\`, `\nonumber` and `\tag`, and matching `\end`.
- `Specifications` (latex_parser/specifications.rs): the column
  specification of an array.
- `Table` (mathml_renderer/table.rs): the column generator that writes the
  table cells.
- `HtmlUtils`, `HtmlEntities` and `Replace`: HTML escaping, entity decoding,
  and replacing delimited math in a document.
- `Length`, `Decimal`, `Attribute`, `Itoa` and `Symbol`: lengths, decimal
  numbers, math-variant transforms, hex bytes and operator symbols.
- `NodeArena`, `StrArena` and `RendererArena`: the arenas and string buffers
  that the parser and renderer allocate into.

Code that changes state step by step is modelled as classes and methods
with loops. Each such method is proved equal to a specification function.
The properties the source promises are then proved about those functions as
lemmas: round trips, invariants the operations keep, and the error cases.

Offsets count chars, where the source counts bytes of the UTF-8 encoding.
`Utf8.Utf8Len` and `StrArena.ByteBound` convert one to the other, and the
lexer reports its locations in bytes through them.

## Model

| member | source | states |
|---|---|---|
| `Tokens.ClassOf` | crates/math-core/src/token.rs:186-215 | outside a sequence every token has class Default; inside one, `\end`, `\right`, `}` and end of input are Close unless end tokens are ignored, and then Default |
| `Tokens.ClassOfFirstLeaf` | crates/math-core/src/token.rs:212 | a custom command has the class of the first token of its expansion, followed through nested custom commands |
| `Tokens.CloseClassCharacterized` | crates/math-core/src/token.rs:186-215 | inside a sequence a token is of class Close exactly when its first leaf is a closing token (or an end token that is not ignored) |
| `Tokens.Span.WithLength` | crates/math-core/src/token.rs:249-254 | keeps the start and makes the span exactly `length` long |
| `Tokens.ZeroWidth` | crates/math-core/src/token.rs:232-235 | the span starts and ends at the given offset |
| `Tokens.MatchesOnlyPairedKind` | crates/math-core/src/token.rs:330-339 | an end kind matches a token exactly when that token's kind is the one paired with it, so no token matches two kinds |
| `LexerSpec.LexHash` | crates/math-core/src/lexer.rs:223-267 | keeps the cursor within the input after a `#` |
| `LexerSpec.NextTokenInternal` | crates/math-core/src/lexer.rs:191-349 | stays within the input, and consumes nothing only at the end of the input, where it yields the end-of-input token at the input's byte length |
| `LexerSpec.NextToken` | crates/math-core/src/lexer.rs:161-176 | stays within the input; a step that consumes nothing yields end of input and leaves the lexer state unchanged |
| `LexerSpec.ReadEnvName` | crates/math-core/src/lexer.rs:127-159 | changes only the cursor, and a name it returns consists only of letters, digits, whitespace and the allowed punctuation |
| `LexerSpec.EnvNameEnd` | crates/math-core/src/lexer.rs:141-146 | the run of environment-name characters is maximal: every char before the end is allowed, the char at the end is not |
| `LexerSpec.SourceOfIsNextToken` | crates/math-core/src/lexer.rs:161-176 | the lexer's step never moves backwards or past the input, and agrees with `next_token` on every state within the input |
| `LexerSpec.OpenBraceRule` | crates/math-core/src/lexer.rs:300-308 | `{` yields a group-begin token, increments the brace nesting level and, right after `\text`, enters a text group at the current nesting |
| `LexerSpec.CloseBraceRule` | crates/math-core/src/lexer.rs:310-325 | `}` at nesting 0 is an unmatched-close error; otherwise it decrements the nesting and returns to math mode exactly when it closes the text group opened at the new level |
| `LexerSpec.NextTokenKeepsModeConsistent` | crates/math-core/src/lexer.rs:191-349 | a text group always sits inside the braces currently open: every token keeps that invariant |
| `LexerSpec.CommentSkipped` | crates/math-core/src/lexer.rs:202-210 | a `%` comment is skipped through the end of its line, newline included, and lexing resumes after it |
| `LexerSpec.LineEndSpec` | crates/math-core/src/lexer.rs:204-206 | the end of a line is the first newline at or after the start, or the end of the input |
| `LexerSpec.HashParameterRule` | crates/math-core/src/lexer.rs:228-247 | in macro mode `#d` with d in 1..9 yields argument d-1, spans two bytes, consumes both chars and raises the parameter count to the largest seen |
| `LexerSpec.HashErrorRule` | crates/math-core/src/lexer.rs:248-267 | `#` outside macro mode, or not followed by 1..9, is an error (outside a custom command, expected number at end of input, or invalid parameter number) and does not change the parameter count |
| `LexerSpec.HashStartsLexHash` | crates/math-core/src/lexer.rs:227-228 | at a `#`, the next token is what reading a macro parameter just after it gives |
| `LexerSpec.LetterRunEndSpec` | crates/math-core/src/lexer.rs:96-103 | the letter run is maximal: ASCII letters up to its end, and no letter at its end |
| `LexerSpec.CommandEndSpec` | crates/math-core/src/lexer.rs:93-115 | a command name is the longest run of ASCII letters plus an optional `*`, and otherwise the single next char, so it is never empty unless the input ends |
| `LexerSpec.LimitedAsciiChar` | crates/math-core/src/lexer.rs:451-465 | in math mode a letter, digit or one of `. , - * : \|` lexes to one token that recovers to that char |
| `LexerSpec.AlphanumericChar` | crates/math-core/src/lexer.rs:334-341 | in math mode an ASCII letter or digit lexes to a `Letter` or `Digit` token that recovers to it, and nothing else changes |
| `LexerSpec.LimitedPunctuationChar` | crates/math-core/src/lexer.rs:273-341 | in math mode each of `. , - * : \|` lexes to the one token that recovers to it, and nothing else changes |
| `LexerSpec.NextTokenOnLimitedAscii` | crates/math-core/src/lexer.rs:451-465 | in math mode the lexer reads exactly one such char and yields a token that recovers to it |
| `LexerSpec.RecoverRoundTrip` | crates/math-core/src/lexer.rs:592-608 | lexing an input of such chars in math mode and recovering each token reproduces the input |
| `Lexer.Lexer.constructor` | crates/math-core/src/lexer.rs:30-51 | starts at the first char in math mode at nesting 0, counting macro parameters from 0 only when reading custom commands |
| `Lexer.Lexer.ReadChar` | crates/math-core/src/lexer.rs:64-72 | returns the peeked byte offset and char and advances by one char, never past the end |
| `Lexer.Lexer.SkipWhitespace` | crates/math-core/src/lexer.rs:78-89 | moves past the whitespace run and returns the span of its first char, or nothing when there was none |
| `Lexer.Lexer.ReadCommand` | crates/math-core/src/lexer.rs:93-115 | consumes exactly the command name of `CommandEnd` and returns it with its end offset |
| `Lexer.Lexer.ReadEnvName` | crates/math-core/src/lexer.rs:127-159 | agrees with `ReadEnvName` on result and state |
| `Lexer.Lexer.ParseCommand` | crates/math-core/src/lexer.rs:351-430 | agrees with `ParseCommand`: text commands in text mode, then custom, then built-in commands, then `\begin`/`\end` with their environment name, otherwise an unknown command |
| `Lexer.Lexer.LexHash` | crates/math-core/src/lexer.rs:223-267 | agrees with `LexHash` on result and state |
| `Lexer.Lexer.LexChar` | crates/math-core/src/lexer.rs:211-344 | agrees with `LexChar`, including the brace bookkeeping and the return from `\text` start mode |
| `Lexer.Lexer.SkipComment` | crates/math-core/src/lexer.rs:202-207 | moves past the end of the line |
| `Lexer.Lexer.NextTokenInternal` | crates/math-core/src/lexer.rs:191-349 | agrees with `NextTokenInternal` on result and state |
| `Lexer.Lexer.NextToken` | crates/math-core/src/lexer.rs:161-176 | agrees with `NextToken`: an unknown command is a token only when unknown commands are ignored, and an error otherwise |
| `TokenQueue.FirstNonWhitespace` | crates/math-core/src/token_queue.rs:66-68 | the position of the first token that is not whitespace, with only whitespace before it; none when all are whitespace |
| `TokenQueue.Load` | crates/math-core/src/token_queue.rs:35-63 | keeps the old queue as a prefix, appends skipped tokens and then one kept token (or stops at a lexer error with only skipped ones), and never adds more non-end tokens than input consumed |
| `TokenQueue.EoiIsNeverSkipped` | crates/math-core/src/token_queue.rs:46-60 | an end-of-input token is kept in both skip modes, so `lexer_is_eoi` is never set |
| `TokenQueue.EnsureSpecProperties` | crates/math-core/src/token_queue.rs:70-84 | keeps the queue as a prefix and the lexer in its input, never adds to what is left to read, and on success indexes a token that is not whitespace |
| `TokenQueue.EnsureFound` | crates/math-core/src/token_queue.rs:71-77 | with a non-whitespace token already queued, only the index moves to it |
| `TokenQueue.EnsureLoads` | crates/math-core/src/token_queue.rs:79-82 | otherwise tokens are loaded and the index is the starting length plus the loaded offset; a lexer error leaves the index as it was |
| `TokenQueue.NextSpec` | crates/math-core/src/token_queue.rs:175-190 | keeps the lexer within its input |
| `TokenQueue.NextWithWhitespaceSpec` | crates/math-core/src/token_queue.rs:193-211 | keeps the lexer within its input, and popping any token but end of input strictly decreases what is left to read |
| `TokenQueue.NextWithWhitespacePopsFront` | crates/math-core/src/token_queue.rs:193-211 | returns the front token, keeps the rest as a prefix, decrements a positive index and changes nothing else, and keeps the index valid |
| `TokenQueue.PeekIsFirstNonWhitespace` | crates/math-core/src/token_queue.rs:93-102 | peek yields the first token that is not whitespace, or the end-of-input token when the index is past the end |
| `TokenQueue.NextReturnsPeek` | crates/math-core/src/token_queue.rs:175-190 | next pops the whitespace before the peeked token and returns that token, keeps the rest of the queue in order and re-establishes the index |
| `TokenQueue.QueueInFrontOrder` | crates/math-core/src/token_queue.rs:213-228 | the tokens go in front in their original order, the lexer is untouched, and the index points at a non-whitespace token or equals the queue length |
| `TokenQueue.ReadGroupContinues` | crates/math-core/src/token_queue.rs:240-263 | a token that neither closes the group nor ends the input is appended and reading goes on at the adjusted nesting |
| `TokenQueue.ReadGroupStops` | crates/math-core/src/token_queue.rs:246-260 | success stops at the unmatched `}` and returns its span end; meeting end of input is an unclosed-group error at its span |
| `TokenQueue.ReadGroupAppends` | crates/math-core/src/token_queue.rs:235-266 | keeps the existing tokens and appends no end of input and never more `}` than `{`, balanced on success; the closing `}` is not appended |
| `TokenQueue.ReadGroupStep` | crates/math-core/src/token_queue.rs:240-263 | one loop step: either a token is appended and what is left to read decreases, or reading stops without appending |
| `TokenQueue.ReadGroupHalts` | crates/math-core/src/token_queue.rs:240-263 | when the next token is an error, an end of input or the `}` that closes the group, nothing more is appended, and success only happens at nesting 0 |
| `TokenQueue.ReadGroupBalanced` | crates/math-core/src/token_queue.rs:235-266 | a group read from nesting 0 appends tokens whose braces balance |
| `TokenQueue.TokenQueue.New` | crates/math-core/src/token_queue.rs:20-31 | loads up to the first non-whitespace token and indexes it, or returns the lexer's error |
| `TokenQueue.TokenQueue.LoadToken` | crates/math-core/src/token_queue.rs:35-63 | the queue and lexer state are those of `Load`, and the result is the number of skipped tokens |
| `TokenQueue.TokenQueue.EnsureNextNonWhitespace` | crates/math-core/src/token_queue.rs:70-84 | agrees with `EnsureSpec` on result and state |
| `TokenQueue.TokenQueue.Peek` | crates/math-core/src/token_queue.rs:93-102 | the indexed non-whitespace token, or the end-of-input token past the end |
| `TokenQueue.TokenQueue.Next` | crates/math-core/src/token_queue.rs:175-190 | agrees with `NextSpec` on result and state |
| `TokenQueue.TokenQueue.NextWithWhitespace` | crates/math-core/src/token_queue.rs:193-211 | agrees with `NextWithWhitespaceSpec` on result and state |
| `TokenQueue.TokenQueue.QueueInFront` | crates/math-core/src/token_queue.rs:213-229 | agrees with `QueueInFrontSpec` |
| `TokenQueue.TokenQueue.ReadGroup` | crates/math-core/src/token_queue.rs:235-266 | result, token vector and state are those of `ReadGroupSpec` from nesting 0 |
| `Environments.LookupFindsEntry` | math-core/src/environments.rs:11-30 | in a table with distinct names, looking up an entry's name finds that entry's environment |
| `Environments.KeyOfFindsEntry` | math-core/src/environments.rs:59-64 | in a table with distinct environments, the name found for an entry's environment is that entry's name |
| `Environments.LookupSomeIsEntry` | math-core/src/environments.rs:55-57 | a name that looks something up is the name of a table entry holding that environment |
| `Environments.TableIsInjective` | math-core/src/environments.rs:11-30 | the environment table has no repeated name and no repeated environment |
| `Environments.IndexOf` | math-core/src/environments.rs:11-52 | every environment is held by some entry of the table |
| `Environments.FromStrAsStr` | math-core/src/environments.rs:55-64 | every environment has a name other than "unknown", and `from_str` of that name gives the environment back |
| `Environments.TableEntryRoundTrip` | math-core/src/environments.rs:55-64 | each table entry's name and environment find each other through `from_str` and `as_str` |
| `Environments.EntryRoundTrip` | math-core/src/environments.rs:55-64 | in any table with distinct names and distinct environments, `as_str` then `from_str` gives back each entry |
| `Environments.AsStrFromStr` | math-core/src/environments.rs:55-64 | every name `from_str` accepts is the name `as_str` returns for its environment |
| `Environments.GetNumberedEnvState` | math-core/src/environments.rs:89-117 | exactly the numbered environments get a state, with nothing suppressed and no custom number; align, equation and gather number every row, multline only the last (with one row), the starred ones none |
| `Environments.NumberedColumns` | math-core/src/environments.rs:71-87 | among numbered environments only align and align* allow columns, and those without meaningful newlines start with no row count |
| `Environments.OnlyLastSkipsEarlyRows` | math-core/src/environments.rs:265-268 | in multline a row that is not the last gets no number and changes neither the state nor the counter |
| `Environments.CustomNumberFirst` | math-core/src/environments.rs:269-272 | a pending custom number is returned and consumed before suppression is considered, and the counter does not move |
| `Environments.SuppressedGetsNone` | math-core/src/environments.rs:273-276 | a suppressed row, or any row of an unnumbered environment, gets no number and clears the suppression flag |
| `Environments.CounterStep` | math-core/src/environments.rs:277-282 | otherwise the counter rises by one and its new value is the number; at 65535 the step fails and changes nothing |
| `Environments.CounterMonotone` | math-core/src/environments.rs:260-283 | the counter never decreases and rises by at most one, only when it supplies the row's number; a failure happens only at 65535 |
| `Environments.NumberedEnvState.NextEquationNumber` | math-core/src/environments.rs:260-283 | the result, the new state and the new counter are those of `NextNumber` on the old state |
| `Converter.HeaderAttributes` | crates/math-core/src/lib.rs:248-256 | the opening tag is `<math` ... `>`, with the MathML namespace attribute right after the name exactly when the flag is set, and `display="block"` right before `>` exactly for block equations |
| `Converter.EmitFrom` | crates/math-core/src/lib.rs:262-265 | emitting the nodes only appends to the output written so far |
| `Converter.ConvertOutput` | crates/math-core/src/lib.rs:238-271 | a parse error is passed on unchanged, a failed node is a render error at offset 0, a successful output starts with the opening tag and ends with `</math>` (after a newline when pretty printing), and the counter is the one the parser leaves |
| `Converter.Convert` | crates/math-core/src/lib.rs:238-271 | writes the output piece by piece and agrees with `ConvertSpec` on the result and the counter |
| `Converter.ValidMacroNameChars` | crates/math-core/src/lib.rs:337-348 | a name is valid exactly when it is one character, or at least two characters that are all ASCII letters |
| `Converter.LexDefinition` | crates/math-core/src/lib.rs:304-316 | lexing a definition until end of input only appends to the token buffer |
| `Converter.DefinitionSourcesAreLexers` | crates/math-core/src/lib.rs:302 | the lexer of each definition moves forward within the definition, so lexing every definition terminates |
| `Converter.LexDefinitionAppends` | crates/math-core/src/lib.rs:301-320 | lexing a definition onto a buffer gives the buffer followed by the definition's own tokens, with the same final state and the same error |
| `Converter.ParseKeepsEntries` | crates/math-core/src/lib.rs:285-335 | reading further macros, whatever lexes their definitions, keeps the buffer as a prefix, keeps every range valid, and leaves the entry of a name that is not defined again unchanged |
| `Converter.FirstMacroLookup` | crates/math-core/src/lib.rs:127-131 | a macro that no later macro redefines is found by `get_command` with its own parameter count and tokens |
| `Converter.ParsedMacroLookup` | crates/math-core/src/lib.rs:127-131 | after reading all macros, `get_command` of a name gives the parameter count and tokens the lexer makes of the name's last definition |
| `Converter.LastDefinitionInRest` | crates/math-core/src/lib.rs:290 | a last definition stays the last one once an earlier macro is dropped |
| `Converter.ParseFirst` | crates/math-core/src/lib.rs:290-329 | reading macros that succeeds checks the first name, appends the first definition's tokens to the buffer, maps the name to their range and parameter count, keeps every range inside the buffer, and reads the rest from there |
| `Converter.LexMacroDefinition` | crates/math-core/src/lib.rs:301-320 | a fresh lexer over the definition yields the tokens of `LexMacro` and the parameter count it saw (0 when none), or its first error |
| `Converter.ParseCustomCommands` | crates/math-core/src/lib.rs:285-335 | agrees with `ParseCustomCommandsSpec` with each definition lexed by a fresh lexer: macros in order, an invalid name or a lexer error stops reading with the error and the definition |
| `Converter.ReadMacro` | crates/math-core/src/lib.rs:290-329 | one macro: an invalid name is an error carrying the definition, a lexer error is returned with the definition, and otherwise the definition's tokens follow the buffer and the name maps to its parameter count and their range |
| `Converter.LexOntoBuffer` | crates/math-core/src/lib.rs:301-320 | lexing onto the buffer succeeds exactly when lexing the definition alone does, with the same error, or the buffer followed by the definition's own tokens and its parameter count |
| `Converter.ParseStep` | crates/math-core/src/lib.rs:290-330 | one loop iteration: the macro at the index, then the rest from what it leaves |
| `Converter.LatexToMathML.constructor` | crates/math-core/src/lib.rs:166-172 | the converter keeps the flags and custom commands and starts its counter at 0 |
| `Converter.LatexToMathML.New` | crates/math-core/src/lib.rs:166-172 | succeeds exactly when reading the macros succeeds, with the configuration's flags, counter 0 and the commands read; otherwise returns the macro error |
| `Converter.LatexToMathML.ConvertWithGlobalCounter` | crates/math-core/src/lib.rs:182-194 | numbering continues from the stored counter, which keeps the counter the conversion leaves |
| `Converter.LatexToMathML.ConvertWithLocalCounter` | crates/math-core/src/lib.rs:215-228 | numbering starts from 0 and the stored counter is left alone |
| `Converter.LatexToMathML.ResetGlobalCounter` | crates/math-core/src/lib.rs:233-235 | the stored counter is 0 afterwards |
| `ParseRules.RelationSpacing` | math-core/src/parse.rs:1514-1539 | each side of a relation is either left alone or zeroed, never given another space |
| `ParseRules.RelationSpacingZero` | math-core/src/parse.rs:1514-1539 | the left side is zeroed exactly after a relation, an opening delimiter or punctuation, the right side exactly before a relation, punctuation or a closing delimiter, and both in script style |
| `ParseRules.RelationChain` | math-core/src/parse.rs:1514-1539 | between two neighbouring relations both facing sides are zeroed |
| `ParseRules.BigOperatorSpacing` | math-core/src/parse.rs:1328-1362 | a big operator's sides only ever get no space, zero space or a thin space |
| `ParseRules.BigOperatorThinSpace` | math-core/src/parse.rs:1340-1360 | a side that is not zeroed gets a thin space exactly when the operator is explicit, and is left alone exactly when it is implicit |
| `ParseRules.BigOperatorTighterThanRelation` | math-core/src/parse.rs:1340-1360 | wherever a relation's side is zeroed outside script style, a big operator's side is zeroed too |
| `ParseRules.BigOperatorOutsideSequence` | math-core/src/parse.rs:1334-1339 | outside a sequence the next token counts as ordinary, so the right side is a thin space for an explicit operator and nothing otherwise |
| `ParseRules.WithoutSpacing` | math-core/src/parse.rs:1553-1565 | an operator with its spacing cleared keeps its symbol and attribute; any other node is unchanged |
| `ParseRules.NodeVecToNodeKeepsNodes` | math-core/src/parse.rs:1546-1576 | any number of nodes but one becomes a row of exactly those nodes in order; a single node is returned as is, or with its operator spacing reset when asked |
| `ParseRules.NodeVecToNodeIdempotent` | math-core/src/parse.rs:1546-1576 | resetting the spacing of a single node twice gives what resetting it once gives |
| `ParseRules.LeadingPrimes` | math-core/src/parse.rs:1263-1266 | counts the run of prime tokens at the front, which is maximal |
| `ParseRules.PrimeNodesShowCount` | math-core/src/parse.rs:1267-1293 | the prime nodes show exactly as many primes as were typed: one combined prime for one to four, that many single primes beyond |
| `ParseRules.SinglePrimesWeight` | math-core/src/parse.rs:1283-1290 | a run of single primes shows as many primes as it has nodes |
| `ParseRules.ParseArg` | math-core/src/parse.rs:1311 | a bound that parses is the node of its token |
| `ParseRules.SubThenSup` | math-core/src/parse.rs:1199-1257 | `_a^b` reads `a` as the subscript and `b` as the superscript and consumes the four tokens |
| `ParseRules.SupThenSub` | math-core/src/parse.rs:1229-1237 | `^b_a` reads `a` as the subscript and `b` as the superscript, swapping the bounds |
| `ParseRules.BoundsOrderIrrelevant` | math-core/src/parse.rs:1229-1237 | `_a^b` and `^b_a` give the same bounds and leave the same tokens |
| `ParseRules.DoubleScriptRejected` | math-core/src/parse.rs:1218-1227 | a second subscript after a subscript, or a second superscript after a superscript, is an error at the second script |
| `ParseRules.NoBounds` | math-core/src/parse.rs:1243-1245 | with no prime and no script in front there are no bounds and nothing is consumed |
| `ParseRules.PrimesBeforeSuperscript` | math-core/src/parse.rs:1247-1254 | primes in front of a superscript become one row with the superscript after them |
| `ParseRules.BoundsReader.constructor` | math-core/src/parse.rs:97-120 | the reader starts at the given tokens and end-of-input offset |
| `ParseRules.BoundsReader.PrimeCheck` | math-core/src/parse.rs:1260-1294 | consumes exactly the leading primes and returns their nodes, as `ReadPrimes` |
| `ParseRules.BoundsReader.GetSubOrSup` | math-core/src/parse.rs:1297-1326 | agrees with `ReadSubOrSup`: another script or a prime as the bound is an error, and so is a prime right after a superscript even when the bound failed |
| `ParseRules.BoundsReader.GetBounds` | math-core/src/parse.rs:1199-1257 | result and remaining tokens are those of `ReadBounds` |
| `ParseRules.NewLineNumbersRow` | math-core/src/parse.rs:986-1010 | in an environment that numbers every row, each `\\` takes the next counter value |
| `ParseRules.NoNumberThenNewLine` | math-core/src/parse.rs:1011-1017 | `\nonumber\\` gives the row no number, uses none up and leaves nothing pending |
| `ParseRules.TagSetsNumber` | math-core/src/parse.rs:1018-1030 | `\tag{k}` with k written in decimal sets k as the pending number and changes nothing else |
| `ParseRules.NewLineUsesTag` | math-core/src/parse.rs:1003-1006 | a pending number goes to the next row and is used up, and the counter is left alone |
| `ParseRules.TagThenNewLine` | math-core/src/parse.rs:1018-1030 | `\tag{k}\\` numbers the row k and leaves the counter alone |
| `ParseRules.TrimDigits` | math-core/src/parse.rs:1024 | trimming a string of digits leaves it unchanged |
| `ParseRules.TagErrors` | math-core/src/parse.rs:1018-1042 | `\tag` outside a numbered environment is an error at the tag, a number that is zero or not a `u16` an error at the literal, and a tag never moves the counter |
| `ParseRules.NewLineCountsRows` | math-core/src/parse.rs:990-1002 | where rows are counted, every `\\` counts one more |
| `ParseRules.ParserState.constructor` | math-core/src/parse.rs:97-120 | the state holds the given row state |
| `ParseRules.ParserState.NewLineToken` | math-core/src/parse.rs:986-1010 | the new state and the node are those of `NewLine` |
| `ParseRules.ParserState.NoNumberToken` | math-core/src/parse.rs:1011-1017 | the new state is that of `NoNumber` |
| `ParseRules.ParserState.TagToken` | math-core/src/parse.rs:1018-1042 | the new state and the node are those of `Tag` |
| `ParseRules.CheckEndMatches` | math-core/src/parse.rs:887-904 | `\end` is accepted exactly when it names the environment `\begin` opened, and a different name is a mismatch error at the `\end` name |
| `ParseRules.EndEnvironmentNumbers` | math-core/src/parse.rs:887-915 | a mismatched `\end` leaves the counter alone, and an environment without numbering has no number and no row count |
| `ParseRules.EndMultlineNumbersLastRow` | math-core/src/parse.rs:906-912 | multline numbers its last row from the counter and hands on its row count |
| `ParseRules.MultlineRowsUnnumbered` | math-core/src/parse.rs:986-1006 | in multline a `\\` numbers nothing and leaves the counter alone, but counts the row |
| `ParseRules.AnyEndTokenIsUnion` | math-core/src/parse.rs:56-67 | `AnyEndToken` accepts exactly what some single end kind other than `]` accepts |
| `Specifications.ParseColumnSpecification` | math-core/src/latex_parser/specifications.rs:75-142 | the loop over the characters gives the specification of `ColumnSpecOf`, stopping at the first invalid character |
| `Specifications.ScanFailureSticks` | math-core/src/latex_parser/specifications.rs:126-129 | once a prefix has failed, the whole specification fails |
| `Specifications.ScanSnoc` | math-core/src/latex_parser/specifications.rs:85-131 | scanning one more character is one more loop step |
| `Specifications.ScanSucceedsIffValid` | math-core/src/latex_parser/specifications.rs:85-131 | the scan succeeds exactly when every character is `l`, `c`, `r`, `\|`, `:` or ASCII whitespace |
| `Specifications.InvalidCharRejected` | math-core/src/latex_parser/specifications.rs:126-129 | any other character makes the whole specification invalid |
| `Specifications.ColumnCountsSnoc` | math-core/src/latex_parser/specifications.rs:96-119 | appending an entry adds one content column for a content entry and one line for a line entry or a content entry with a line |
| `Specifications.ColumnCountsSetLine` | math-core/src/latex_parser/specifications.rs:105-110 | giving the last content column its line adds one line and no column |
| `Specifications.ScanCounts` | math-core/src/latex_parser/specifications.rs:85-131 | an accepted scan has one content column per `l`, `c`, `r` and one line (the leading one included) per `\|` and `:` |
| `Specifications.NoContentRejected` | math-core/src/latex_parser/specifications.rs:133-160 | the empty specification, and any without `l`, `c` or `r`, is rejected |
| `Specifications.AcceptedCounts` | math-core/src/latex_parser/specifications.rs:88-141 | an accepted specification is not a subarray, has one content column per `l`, `c`, `r` (at least one), and accounts for every line character |
| `Specifications.ScanEntry` | math-core/src/latex_parser/specifications.rs:88-121 | scanning the text of one more entry appends that entry, provided a line entry is not one the scan would merge |
| `Specifications.ScanColumns` | math-core/src/latex_parser/specifications.rs:85-131 | the text of columns whose lines are kept apart scans back to exactly those columns and leading line |
| `Specifications.SeparatePrefix` | math-core/src/latex_parser/specifications.rs:105-121 | dropping the last entry keeps the lines apart |
| `Specifications.SpecTextRoundTrip` | math-core/src/latex_parser/specifications.rs:75-142 | writing a producible specification out as text and parsing it again gives it back |
| `Specifications.SeparateSnoc` | math-core/src/latex_parser/specifications.rs:105-121 | appending an entry that the scan would not have merged keeps the lines apart |
| `Specifications.SeparateSetLine` | math-core/src/latex_parser/specifications.rs:105-110 | giving the last content column a line keeps the lines apart |
| `Specifications.ScanCharSeparates` | math-core/src/latex_parser/specifications.rs:99-121 | one step of the scan keeps the lines apart: a line goes to a column without one, or before any column, whenever it can |
| `Specifications.ScanProducible` | math-core/src/latex_parser/specifications.rs:85-131 | every accepted scan keeps its lines apart |
| `Specifications.AcceptedIsProducible` | math-core/src/latex_parser/specifications.rs:75-142 | every accepted specification is producible, so parsing its text gives it back |
| `Table.NewLineAndIndent` | mathml_renderer/src/ast.rs:581-588 | writes nothing at level 0, and otherwise a line break followed by four spaces per level |
| `Table.CustomWalk` | math-core/src/mathml_renderer/table.rs:119-181 | a custom layout moves past at least one column: past the line entries it writes cells for, and past the content column that ends the output |
| `Table.CenteredWritesSimpleCell` | math-core/src/mathml_renderer/table.rs:105-107 | a layout with centered cells writes exactly `<mtd>` after the indentation, whatever the column, and moves one column on |
| `Table.PredefinedParity` | math-core/src/mathml_renderer/table.rs:95-117 | cases and alternating layouts depend only on the parity of the column: columns two apart get the same cell, neighbours different ones |
| `Table.AlternatingAlignment` | math-core/src/mathml_renderer/table.rs:108-116 | in the alternating layout even columns are right-aligned and odd ones left-aligned |
| `Table.CasesPadding` | math-core/src/mathml_renderer/table.rs:98-104 | in the cases layout only odd columns get the extra left padding |
| `Table.LineEntrySkipped` | math-core/src/mathml_renderer/table.rs:124-145 | a line entry writes an empty bordered cell and a new line, then the next column is written |
| `Table.PastEndIsCentered` | math-core/src/mathml_renderer/table.rs:120-154 | an index past the specification is a centered column without a line: plain `<mtd>` outside a subarray |
| `Table.ColumnGenerator.NewPredefined` | math-core/src/mathml_renderer/table.rs:68-73 | a predefined layout starting at column 0 |
| `Table.ColumnGenerator.NewCustom` | math-core/src/mathml_renderer/table.rs:75-80 | a custom layout starting at column 0 |
| `Table.ColumnGenerator.ResetColumns` | math-core/src/mathml_renderer/table.rs:82-84 | the column index is 0 and the layout unchanged |
| `Table.ColumnGenerator.WriteNextMtd` | math-core/src/mathml_renderer/table.rs:86-184 | appends the text of `NextMtd` to the output, moves the index to the one it gives, which is past at least one column, and keeps the layout |
| `Table.WalkCells` | math-core/src/mathml_renderer/table.rs:119-181 | the loop over line entries writes the text and reaches the index of `CustomWalk` |
| `HtmlUtils.FindContentSpecial` | math-core/src/html_utils.rs:12 | the position found holds `&`, `<` or `>` and none comes before it; none is found only when there is none |
| `HtmlUtils.EscapeContentAppend` | math-core/src/html_utils.rs:8-36 | escaping a concatenation escapes each part in turn |
| `HtmlUtils.EscapeContentPlain` | math-core/src/html_utils.rs:34-35 | a text without `&`, `<` or `>` is copied unchanged |
| `HtmlUtils.EscapeHtmlContent` | math-core/src/html_utils.rs:8-36 | the output keeps what it held and gains the escaped input: every `&`, `<`, `>` as its entity, every other character copied in order |
| `HtmlUtils.SliceAt` | math-core/src/html_utils.rs:13-21 | splitting the rest of the input at the special character and after it covers the input |
| `HtmlUtils.EscapeContentAdvance` | math-core/src/html_utils.rs:12-31 | one loop step copies the text before the next special character and then the character's entity |
| `HtmlUtils.EscapeContentFinish` | math-core/src/html_utils.rs:34-35 | with no special character left, the rest of the input is copied as it is |
| `HtmlUtils.EscapeContentStep` | math-core/src/html_utils.rs:17-29 | plain text followed by one character escapes as the text, then that character's escape |
| `HtmlUtils.EscapeContentRest` | math-core/src/html_utils.rs:34-35 | plain text after escaped text escapes as itself |
| `HtmlUtils.EscapeDoubleQuotedHtmlAttribute` | math-core/src/html_utils.rs:47-56 | the output keeps what it held and gains the input with `&` as `&amp;` and `"` as `&quot;`, every other character copied |
| `HtmlUtils.EscapeAttributeSnoc` | math-core/src/html_utils.rs:49-55 | each character of the input adds its own escape to the output |
| `HtmlUtils.EscapeAttributeAppend` | math-core/src/html_utils.rs:47-56 | escaping a concatenation escapes each part in turn |
| `HtmlUtils.UnescapeStep` | math-core/src/html_utils.rs:24-53 | each character's escape reads back as that character, whatever follows |
| `HtmlUtils.UnescapeAmp` | math-core/src/html_utils.rs:25 | `&amp;` reads back as `&` |
| `HtmlUtils.UnescapeLt` | math-core/src/html_utils.rs:26 | `&lt;` reads back as `<` |
| `HtmlUtils.UnescapeGt` | math-core/src/html_utils.rs:27 | `&gt;` reads back as `>` |
| `HtmlUtils.UnescapeQuot` | math-core/src/html_utils.rs:52 | `&quot;` reads back as `"` |
| `HtmlUtils.UnescapePlain` | math-core/src/html_utils.rs:53 | a character other than `&` reads back as itself |
| `HtmlUtils.ContentRoundTrip` | math-core/src/html_utils.rs:8-36 | un-escaping the escaped content gives back the input |
| `HtmlUtils.AttributeRoundTrip` | math-core/src/html_utils.rs:47-56 | un-escaping the escaped attribute value gives back the input |
| `HtmlUtils.ContentIsSafe` | math-core/src/html_utils.rs:24-28 | escaped content holds no `<` and no `>` |
| `HtmlUtils.AttributeIsSafe` | math-core/src/html_utils.rs:51-53 | an escaped attribute value holds no `"` |
| `HtmlEntities.ReplaceHtmlEntities` | latex2mmlc_cli/src/html_entities.rs:19-74 | the result is the decoded input; input without `&` is returned itself with the buffer untouched, otherwise the buffer is cleared and holds the result |
| `HtmlEntities.ScanEntity` | latex2mmlc_cli/src/html_entities.rs:41-69 | one loop round copies the text before the `&` and the entity's text, and either finds the next `&` strictly further on or leaves a rest that completes the decoding |
| `HtmlEntities.ScanPastEntity` | latex2mmlc_cli/src/html_entities.rs:42-66 | once the `;` that ends the entity is known, the round copies the text and the entity and either finds the next `&` strictly further on or leaves a rest that completes the decoding |
| `HtmlEntities.CopyEntity` | latex2mmlc_cli/src/html_entities.rs:42-58 | the text before the `&` is copied, then the entity's character or, for an unknown name, its `&name;` text |
| `HtmlEntities.DecodeUnterminatedAt` | latex2mmlc_cli/src/html_entities.rs:46-72 | with no `;` after the next `&`, the text before it and everything from it on are copied |
| `HtmlEntities.DecodeEntityAt` | latex2mmlc_cli/src/html_entities.rs:43-62 | the text before the next `&` is copied, the entity up to the first `;` becomes its replacement, and decoding resumes after the `;` |
| `HtmlEntities.EntityAdvance` | latex2mmlc_cli/src/html_entities.rs:43-62 | the loop invariant survives a copied plain run followed by an entity |
| `HtmlEntities.UnterminatedAdvance` | latex2mmlc_cli/src/html_entities.rs:46-72 | after the last `&` without a `;`, copying the rest completes the decoding |
| `HtmlEntities.RestAdvance` | latex2mmlc_cli/src/html_entities.rs:65-72 | with no `&` left, copying the rest completes the decoding |
| `HtmlEntities.DecodeFromAmpersand` | latex2mmlc_cli/src/html_entities.rs:45 | an `&` starts the scan of an entity name |
| `HtmlEntities.EntityScanTo` | latex2mmlc_cli/src/html_entities.rs:46-62 | the entity name ends at the first `;`, is replaced or copied, and decoding goes on after it |
| `HtmlEntities.EntityScanUnterminated` | latex2mmlc_cli/src/html_entities.rs:46-50 | with no `;` up to the end, the text from the `&` on is copied as it is |
| `HtmlEntities.EntitySlice` | latex2mmlc_cli/src/html_entities.rs:58 | the copied text of an unknown entity is `&`, its name, and `;` |
| `HtmlEntities.DecodeRest` | latex2mmlc_cli/src/html_entities.rs:65-72 | with no `&` left the rest is copied unchanged |
| `HtmlEntities.DecodePlainRun` | latex2mmlc_cli/src/html_entities.rs:43 | a run without `&` is copied ahead of what follows it |
| `HtmlEntities.ReservedNames` | latex2mmlc_cli/src/html_entities.rs:3-14 | exactly the ten names `#34`, `quot`, `#38`, `amp`, `#39`, `apos`, `#60`, `lt`, `#62`, `gt` stand for one character |
| `HtmlEntities.ReservedEntities` | latex2mmlc_cli/src/html_entities.rs:3-101 | each reserved entity becomes its character, and an unknown name such as `nbsp` or `&amp` is copied with its `&` and `;` |
| `HtmlEntities.EntityTextLength` | latex2mmlc_cli/src/html_entities.rs:54-59 | an entity's replacement is never longer than its `&name;` text |
| `HtmlEntities.DecodeShift` | latex2mmlc_cli/src/html_entities.rs:41-72 | decoding from a position depends only on the text from there on |
| `HtmlEntities.EntityScanShift` | latex2mmlc_cli/src/html_entities.rs:46-62 | scanning an entity depends only on the text from its `&` on |
| `HtmlEntities.ShiftSlice` | latex2mmlc_cli/src/html_entities.rs:54-58 | slices of the later part of a concatenation are slices of that part |
| `HtmlEntities.DecodeShorter` | latex2mmlc_cli/src/html_entities.rs:19-74 | the output is never longer than the input |
| `HtmlEntities.DecodeFromShorter` | latex2mmlc_cli/src/html_entities.rs:41-72 | what is decoded from a position is never longer than the input left from there |
| `HtmlEntities.EntityScanShorter` | latex2mmlc_cli/src/html_entities.rs:46-62 | what an entity scan yields is never longer than the input left from its `&` |
| `HtmlEntities.DecodePlain` | latex2mmlc_cli/src/html_entities.rs:28-31 | input without `&` decodes to itself |
| `HtmlEntities.DecodeCons` | latex2mmlc_cli/src/html_entities.rs:43 | a character other than `&` is copied ahead of the decoded rest |
| `HtmlEntities.DecodeEntity` | latex2mmlc_cli/src/html_entities.rs:43-62 | `plain&name;rest` decodes to the plain text, the entity's replacement and the decoded rest |
| `HtmlEntities.EntityDecoded` | latex2mmlc_cli/src/html_entities.rs:43-62 | the decoding found by positions is the decoding of the parts |
| `HtmlEntities.EntityLayout` | latex2mmlc_cli/src/html_entities.rs:28-51 | in `plain&name;rest` the first `&` follows the plain text and the first `;` after it ends the name |
| `HtmlEntities.DecodeUnterminated` | latex2mmlc_cli/src/html_entities.rs:46-100 | an `&` with no `;` after it is copied together with everything after it |
| `HtmlEntities.DecodeEscapedChar` | latex2mmlc_cli/src/html_entities.rs:3-14 | each character escaped by the renderer's escaping decodes back to itself |
| `HtmlEntities.DecodeReservedEntity` | latex2mmlc_cli/src/html_entities.rs:54-55 | a reserved entity decodes to its character ahead of the decoded rest |
| `HtmlEntities.DecodeEscapedContent` | latex2mmlc_cli/src/html_entities.rs:19-74 | decoding text escaped by `escape_html_content` gives the text back |
| `HtmlEntities.DecodeEscapedAttribute` | latex2mmlc_cli/src/html_entities.rs:19-74 | decoding a value escaped by `escape_double_quoted_html_attribute` gives the value back |
| `Replace.FirstFromIsFirst` | math-core-cli/src/replace.rs:277 | the substring search finds an occurrence at or after the start with none before it, and fails only when there is none |
| `Replace.EmptyFoundAtOnce` | math-core-cli/src/replace.rs:277 | an empty delimiter is found right where the search starts |
| `Replace.UnescapedSkips` | math-core-cli/src/replace.rs:285-289 | an escaped occurrence is skipped past its end, which is further on, so the loop moves forward |
| `Replace.UnescapedIsUnescaped` | math-core-cli/src/replace.rs:280-295 | with escapes ignored, the position found is an occurrence not preceded by a backslash |
| `Replace.DelimiterPositionOccurs` | math-core-cli/src/replace.rs:270-296 | the position found is an occurrence of the delimiter, and not an escaped one when escapes are ignored |
| `Replace.FindFindsOccurrences` | math-core-cli/src/replace.rs:270-296 | the replacer's search reports only occurrences, and finds an empty delimiter at the start |
| `Replace.NextDelimiter` | math-core-cli/src/replace.rs:222-267 | the delimiter found occurs at the position reported |
| `Replace.NextDelimiterIsNearest` | math-core-cli/src/replace.rs:254-266 | a delimiter is found exactly when either kind is, at its own search's position, and never after the other kind |
| `Replace.TieGoesToBlock` | math-core-cli/src/replace.rs:256-259 | when both kinds are found at the same place, the block delimiter wins |
| `Replace.UnescapedIsFirstWhenNoEscape` | math-core-cli/src/replace.rs:276-295 | without escaped occurrences, ignoring escapes finds the plain first occurrence |
| `Replace.EmptyOpeningFound` | math-core-cli/src/replace.rs:222-267 | an empty opening delimiter is found in any text |
| `Replace.ReplaceStepProperties` | math-core-cli/src/replace.rs:126-216 | a pass that goes on moves strictly forward and only appends; one that finishes gives the output with the rest of the input copied, or an error inside the input, never a mismatch when both kinds close alike |
| `Replace.AtOpeningProperties` | math-core-cli/src/replace.rs:143-216 | after an opening delimiter, a pass goes on past it only appending, or fails with an error between the opening delimiter and the end of the input |
| `Replace.AtClosingContinues` | math-core-cli/src/replace.rs:176-216 | once the content is converted, the pass goes on past the opening delimiter and only appends |
| `Replace.AtClosingFails` | math-core-cli/src/replace.rs:176-213 | a pass that stops after the closing delimiter is found stops with an error inside the input that is not a mismatch |
| `Replace.NoOpeningUnchanged` | math-core-cli/src/replace.rs:126-136 | a text without any opening delimiter comes back unchanged and nothing is converted |
| `Replace.StepAtOpening` | math-core-cli/src/replace.rs:130-148 | a pass that finds an opening delimiter copies the text before it and continues after the delimiter |
| `Replace.FinishedStepEnds` | math-core-cli/src/replace.rs:126-218 | a pass that finishes ends the replacement with its outcome |
| `Replace.NoOpeningStep` | math-core-cli/src/replace.rs:132-136 | a pass that finds no opening delimiter copies the rest of the input and ends |
| `Replace.AtOpeningOutcome` | math-core-cli/src/replace.rs:151-178 | with no closing delimiter the pass fails as unclosed at the opening one; a closing delimiter of the other kind is a mismatch naming its position unless both kinds close alike; otherwise the content runs to the closing delimiter |
| `Replace.UnclosedAtOpening` | math-core-cli/src/replace.rs:153-159 | an opening delimiter with no closing one after it ends the replacement with `UnclosedDelimiter` at the opening delimiter |
| `Replace.MismatchRejected` | math-core-cli/src/replace.rs:167-174 | a closing delimiter of the other kind, when the kinds close differently, ends the replacement with `MismatchedDelimiters` at the opening delimiter naming where the closing one is |
| `Replace.NestedRejected` | math-core-cli/src/replace.rs:180-186 | content holding an opening delimiter fails with `NestedDelimiters` where that delimiter is |
| `Replace.FailedSpanCopied` | math-core-cli/src/replace.rs:191-195 | with `continue_on_error`, math that fails is copied through as it stands, delimiters included, and the pass goes on after it |
| `Replace.FailureStops` | math-core-cli/src/replace.rs:196-212 | without `continue_on_error`, a failed conversion ends the replacement with a LaTeX error at the start of the content, carrying the decoded content |
| `Replace.ConvertedSpan` | math-core-cli/src/replace.rs:187-215 | converted math: what the conversion of the decoded content wrote follows the text before it, and the pass goes on after the closing delimiter |
| `Replace.IdenticalClosingNeverMismatched` | math-core-cli/src/replace.rs:102-167 | when both kinds close alike, the replacement never reports mismatched delimiters |
| `Replace.OutputExtendsResult` | math-core-cli/src/replace.rs:113-219 | the output only grows, and every error points into the input |
| `Replace.PrefixOfPrefix` | math-core-cli/src/replace.rs:123-218 | a prefix of the output so far stays a prefix of the final output |
| `Replace.LineColCounts` | math-core-cli/src/replace.rs:54-71 | the line is one more than the line breaks before the location, and the column one more than the characters since the last line break |
| `Replace.LineAndCol` | math-core-cli/src/replace.rs:54-71 | the loop over the characters before the location gives the line and column of `LineCol`, stopping at the end of the input |
| `Replace.Replacer.New` | math-core-cli/src/replace.rs:86-107 | keeps the delimiters and switches, starts with an empty entity buffer, and notes whether both kinds close alike |
| `Replace.Replacer.FindDelimiterPosition` | math-core-cli/src/replace.rs:270-296 | agrees with `DelimiterPosition`: the first occurrence, or the first one not escaped when escapes are ignored |
| `Replace.Replacer.FindNextDelimiter` | math-core-cli/src/replace.rs:222-267 | agrees with `NextDelimiter` |
| `Replace.Replacer.Replace` | math-core-cli/src/replace.rs:113-219 | the output or first error, and the conversion state, are those of `ReplaceFrom` from the start |
| `Replace.Replacer.Pass` | math-core-cli/src/replace.rs:126-216 | one pass of the loop agrees with `ReplaceStep` |
| `Replace.Replacer.FindClosing` | math-core-cli/src/replace.rs:147-178 | the search for the closing delimiter agrees with `AtOpening` |
| `Replace.Replacer.ConvertContent` | math-core-cli/src/replace.rs:176-215 | the nesting check and the conversion agree with `AtClosing` |
| `Decimal.DecimalRoundTrip` | math-core/src/parse.rs:1024 | reading back the decimal digits of a number gives the number |
| `Decimal.DecimalValueConcat` | mathml_renderer/src/length.rs:91-108 | the digits of two strings read together are the first value shifted by the length of the second, plus the second |
| `Decimal.ParseU16RoundTrip` | math-core/src/parse.rs:1024 | every 16-bit number written in decimal, with or without a `+`, parses back to itself |
| `Decimal.ParseU16Rejects` | math-core/src/parse.rs:1024 | the empty text, a lone `+` and any text starting with `-` do not parse as a 16-bit number |
| `Decimal.Trim` | math-core/src/parse.rs:1024 | neither end of the trimmed text is whitespace, and everything removed was whitespace |
| `Length.FromStr` | mathml_renderer/src/length.rs:80-110 | the loops of `from_str` agree with `Parse`: the unit, then the digits before and after the first dot |
| `Length.ReadNumber` | mathml_renderer/src/length.rs:88-109 | the two digit loops agree with `ParseNumber`, with an error at the first character that is neither a digit nor the first dot |
| `Length.ReadWholeDigits` | mathml_renderer/src/length.rs:91-100 | the first loop succeeds exactly when every char before the first dot is a digit, and then holds their decimal value and the position where the rest after the dot starts |
| `Length.ReadFractionDigits` | mathml_renderer/src/length.rs:101-108 | the second loop succeeds exactly when every char after the dot is a digit, and then holds the value of all the digits read and ten to the power of the number of fraction digits |
| `Length.ParseOkIff` | mathml_renderer/src/length.rs:80-110 | a text parses exactly when it ends in `pt` or `px` and everything before is a digit or the first dot |
| `Length.ParseWhole` | mathml_renderer/src/length.rs:88-109 | a whole number of points or pixels parses as that number times the unit |
| `Length.ParseFraction` | mathml_renderer/src/length.rs:88-109 | a number with a fraction parses as all its digits times the unit over the power of ten of the fraction |
| `Length.WriteImplDigits` | mathml_renderer/src/length.rs:42-55 | for a length that is not negative, the writer prints the whole units, then the first and second decimals of the exact quotient, each only when something is left |
| `Length.WriteParseRoundTrip` | mathml_renderer/src/length.rs:42-110 | what the writer prints in a unit parses back to the length whenever the length is a whole number of hundredths of that unit |
| `Length.WholeDigitsRead` | mathml_renderer/src/length.rs:42-110 | the text of a whole number of units parses back to the length |
| `Length.TenthDigitsRead` | mathml_renderer/src/length.rs:42-110 | the text of a whole number of tenths of a unit parses back to the length |
| `Length.HundredthDigitsValue` | mathml_renderer/src/length.rs:43-51 | the whole part and both decimals read as one number are the hundredths of the unit |
| `Length.HundredthDigitsRead` | mathml_renderer/src/length.rs:42-110 | the text of a whole number of hundredths of a unit parses back to the length |
| `Length.DisplayParseRoundTrip` | mathml_renderer/src/length.rs:113-128 | `Display` of a positive whole number of hundredths of a point parses back to the same length |
| `Length.DisplayZeroIff` | mathml_renderer/src/length.rs:114-127 | only the zero length is displayed as `0`; every other ends in `pt` or `px` |
| `Length.WriteWhole` | mathml_renderer/src/length.rs:42-55 | a whole number of units is written as its digits and the unit |
| `Length.WholeUnitsDisplay` | mathml_renderer/src/length.rs:32-75 | whole points and whole pixels, negative ones included, are written by `write_impl` as the number and the unit, and `Display` writes whole points in points |
| `Length.WholeRoundTrip` | mathml_renderer/src/length.rs:156-205 | a whole number of points or pixels parses and is written back as the same text |
| `Length.TenthsRoundTripPt` | mathml_renderer/src/length.rs:156-205 | in points, `n.d` parses as `n` points and `d` tenths, and both `display_pt` and `Display` write the same text back |
| `Length.TenthsRoundTripPx` | mathml_renderer/src/length.rs:173-188 | in pixels, `n.d` parses as `n` pixels and `d` tenths and `display_px` writes the same text back |
| `Length.HalfTenthsRoundTripPt` | mathml_renderer/src/length.rs:156-205 | in points, `n.d5` (such as `1.25pt`) parses as the hundredths it stands for and both writers give the same text back |
| `Length.HalfTenthsRoundTripPx` | mathml_renderer/src/length.rs:173-188 | in pixels, `n.d5` parses as the hundredths it stands for and `display_px` gives the same text back |
| `Length.TenthsText` | mathml_renderer/src/length.rs:42-110 | a length with one decimal is written as that decimal and parses back |
| `Length.TenthsWrite` | mathml_renderer/src/length.rs:42-55 | the writer prints the one decimal it computes |
| `Length.TenthsParse` | mathml_renderer/src/length.rs:88-109 | a text with one decimal parses as the tenths it stands for |
| `Length.HalfTenthsText` | mathml_renderer/src/length.rs:42-110 | a length with the decimals `d` and 5 is written as them and parses back |
| `Length.HalfTenthsWrite` | mathml_renderer/src/length.rs:42-55 | the writer prints the two decimals `d` and 5 it computes |
| `Length.HalfTenthsParse` | mathml_renderer/src/length.rs:88-109 | a text with the decimals `d` and 5 parses as the hundredths it stands for |
| `Length.DisplayInPoints` | mathml_renderer/src/length.rs:118-124 | whole tenths of a point and odd twentieths of a point are displayed in points |
| `Length.TwentyTwipsPerPoint` | mathml_renderer/src/length.rs:35-37 | twenty twips make one point |
| `Length.NegativeFractionMisplacesSign` | mathml_renderer/src/length.rs:43-127 | as written, half a point below zero is printed `0.-5pt` by `write_impl`, `display_pt` and `Display`, and that text does not parse |
| `Length.SignedWriteRoundTrip` | mathml_renderer/src/length.rs:42-55 | the corrected writer prints a negative length as a minus sign and its magnitude, so every whole number of hundredths of the unit reads back |
| `Attribute.DiffersOnlyForBoldItalic` | math-core/src/mathml_renderer/attribute.rs:17-22 | a variant is sensitive to upright letters exactly when it is the bold-italic transform |
| `Attribute.AddOffset` | math-core/src/mathml_renderer/attribute.rs:153-157 | the char `offset` code points after `c` |
| `Attribute.UprightBoldItalicIsBold` | math-core/src/mathml_renderer/attribute.rs:161-167 | an upright letter in bold italic comes out as in bold; for every other variant uprightness changes nothing |
| `Attribute.ApplyMovesExactlyDomain` | math-core/src/mathml_renderer/attribute.rs:161-319 | a character is changed by a variant exactly when it lies in that variant's ranges, stated separately |
| `Attribute.GreekVariantMovesExactlyDomain` | math-core/src/mathml_renderer/attribute.rs:173-318 | for the variants with Greek forms, a character other than the theta-like symbols is changed exactly when it is in the variant's ranges |
| `Attribute.LatinVariantMovesExactlyDomain` | math-core/src/mathml_renderer/attribute.rs:168-297 | for the variants with Latin letters and digits only, a character is changed exactly when it is in the variant's ranges |
| `Attribute.GreekSymbolMoves` | math-core/src/mathml_renderer/attribute.rs:173-318 | a Greek symbol in a variant's ranges is always changed |
| `Attribute.ApplyInjective` | math-core/src/mathml_renderer/attribute.rs:161-319 | two different characters of a variant's ranges never get the same form, U+03A2 aside |
| `Attribute.ApplyInjectiveBold` | math-core/src/mathml_renderer/attribute.rs:189-206 | bold gives different characters of its ranges different forms, U+03A2 aside |
| `Attribute.BoldSymbolInjective` | math-core/src/mathml_renderer/attribute.rs:189-206 | in bold no other character of the ranges shares the form of one of the nine Greek symbols |
| `Attribute.ApplyInjectiveBoldItalic` | math-core/src/mathml_renderer/attribute.rs:173-188 | bold italic gives different characters of its ranges different forms, U+03A2 aside |
| `Attribute.BoldItalicSymbolInjective` | math-core/src/mathml_renderer/attribute.rs:173-188 | in bold italic no other character of the ranges shares the form of one of the nine Greek symbols |
| `Attribute.ApplyInjectiveSansSerifBoldItalic` | math-core/src/mathml_renderer/attribute.rs:248-263 | sans-serif bold italic gives different characters of its ranges different forms, U+03A2 aside |
| `Attribute.SansSerifBoldItalicSymbolInjective` | math-core/src/mathml_renderer/attribute.rs:248-263 | in sans-serif bold italic no other character of the ranges shares the form of one of the nine Greek symbols |
| `Attribute.ApplyInjectiveBoldSansSerif` | math-core/src/mathml_renderer/attribute.rs:269-285 | bold sans-serif gives different characters of its ranges different forms, U+03A2 aside |
| `Attribute.BoldSansSerifSymbolInjective` | math-core/src/mathml_renderer/attribute.rs:269-285 | in bold sans-serif no other character of the ranges shares the form of one of the nine Greek symbols |
| `Attribute.ApplyInjectiveItalic` | math-core/src/mathml_renderer/attribute.rs:298-318 | italic gives different characters of its ranges different forms, U+03A2 aside |
| `Attribute.ItalicSymbolInjective` | math-core/src/mathml_renderer/attribute.rs:298-318 | in italic no other character of the ranges shares the form of one of the nine Greek symbols |
| `Attribute.ApplyInjectiveFraktur` | math-core/src/mathml_renderer/attribute.rs:207-215 | Fraktur gives different letters different forms, the exceptions placed outside the block included |
| `Attribute.ApplyInjectiveDoubleStruck` | math-core/src/mathml_renderer/attribute.rs:286-297 | double-struck gives different characters different forms, the exceptions placed outside the block included |
| `Attribute.ApplyInjectiveScript` | math-core/src/mathml_renderer/attribute.rs:216-230 | the script variants give different letters different forms |
| `Attribute.ScriptLowerInjective` | math-core/src/mathml_renderer/attribute.rs:216-230 | different lower-case letters get different script forms |
| `Attribute.ScriptInjectiveFromUpper` | math-core/src/mathml_renderer/attribute.rs:216-230 | the script form of a capital is the form of no other letter |
| `Attribute.ScriptUpperInjective` | math-core/src/mathml_renderer/attribute.rs:216-230 | different capitals get different script forms |
| `Attribute.ApplyInjectiveLatin` | math-core/src/mathml_renderer/attribute.rs:168-268 | bold script, bold Fraktur, sans-serif italic, monospace and sans-serif give different characters different forms |
| `Attribute.TransformThetaCollision` | math-core/src/mathml_renderer/attribute.rs:189-206 | bold sends the unassigned U+03A2 and the capital theta symbol to the same character |
| `Attribute.TransformSamples` | math-core/src/mathml_renderer/attribute.rs:325-362 | the letter, digit and Greek samples of `transform_test` map to the characters the test expects |
| `Itoa.DigitToHexAscii` | mathml_renderer/src/itoa.rs:7-14 | a digit below ten becomes `0`..`9`, and one from ten to fifteen `A`..`F` |
| `Itoa.AppendU8AsHex` | mathml_renderer/src/itoa.rs:1-5 | the output gets the high and then the low hex digit of the byte appended |
| `Itoa.HexByteRoundTrip` | mathml_renderer/src/itoa.rs:1-14 | exactly two upper-case hex digits are written, and read back as high and low nibble they give the byte |
| `Itoa.HexByteInjective` | mathml_renderer/src/itoa.rs:1-14 | different bytes are written as different digit pairs |
| `Itoa.HexByteExamples` | mathml_renderer/src/itoa.rs:20-26 | 0 is written `00` and 255 `FF` |
| `Symbol.BMPChar.AsChar` | crates/mathml-renderer/src/symbol.rs:52-56 | the char has the stored code |
| `Symbol.NewBMPChar` | crates/mathml-renderer/src/symbol.rs:47-50 | a character of the BMP is stored so that it reads back unchanged |
| `Symbol.OrdLike.AsOp` | crates/mathml-renderer/src/symbol.rs:83-86 | the operator has the stored character |
| `Symbol.OrdLike.AsStretchableOp` | crates/mathml-renderer/src/symbol.rs:128-146 | categories D, E and I do not stretch; the others give a stretchable operator of the same character, never asymmetric, with spacing exactly for the categories forced to default or formerly B |
| `Symbol.Op.AsOp` | crates/mathml-renderer/src/symbol.rs:83-162 | the operator has the stored character |
| `Symbol.Bin.AsOp` | crates/mathml-renderer/src/symbol.rs:83-175 | the operator has the stored character |
| `Symbol.Rel.AsOp` | crates/mathml-renderer/src/symbol.rs:83-188 | the operator has the stored character |
| `Symbol.Rel.AsStretchableOp` | crates/mathml-renderer/src/symbol.rs:190-202 | only category A relations stretch, asymmetrically and with spacing, with the same character |
| `Symbol.Punct.AsOp` | crates/mathml-renderer/src/symbol.rs:209-214 | the operator is the punctuation character |
| `Symbol.StretchModeSeparatesClasses` | crates/mathml-renderer/src/symbol.rs:130-200 | a stretchable ordinary and a stretchable relation are never the same stretchable operator |
| `NodeArena.NodesAt` | latex2mmlc/src/arena.rs:201-219 | the nodes at a chain's indices, one per index and in order |
| `NodeArena.LinkedTail` | latex2mmlc/src/arena.rs:209-218 | following the first element's link leaves a chain of the rest |
| `NodeArena.LinkedSnoc` | latex2mmlc/src/arena.rs:141-156 | linking the old tail to a new unlinked element gives a chain whose nodes are the old ones and the new node |
| `NodeArena.Arena.constructor` | latex2mmlc/src/arena.rs:41-43 | a new arena holds no elements |
| `NodeArena.Arena.Push` | latex2mmlc/src/arena.rs:45-55 | the node is appended unlinked, and its reference is its position |
| `NodeArena.Arena.Lookup` | latex2mmlc/src/arena.rs:57-59 | the node at the reference |
| `NodeArena.Arena.LookupMut` | latex2mmlc/src/arena.rs:74-79 | writing through the mutable reference replaces only that node, keeping its link |
| `NodeArena.PushThenLookup` | latex2mmlc/src/arena.rs:245-254 | looking up the reference `push` returns gives the pushed node |
| `NodeArena.NodeList.constructor` | latex2mmlc/src/arena.rs:131-133 | a new list is empty |
| `NodeArena.NodeList.PushRef` | latex2mmlc/src/arena.rs:141-156 | the element becomes the tail: head and tail for an empty list, otherwise only the old tail's link changes; the list's nodes gain the element's node at the end |
| `NodeArena.NodeList.Push` | latex2mmlc/src/arena.rs:135-139 | the node is added to the arena and the list's nodes gain it at the end |
| `NodeArena.NodeList.IsEmpty` | latex2mmlc/src/arena.rs:158-160 | true exactly when the list holds no nodes |
| `NodeArena.NodeList.IsSingleton` | latex2mmlc/src/arena.rs:162-173 | the reference of the only element exactly when the list has one element |
| `NodeArena.NodeList.GetHead` | latex2mmlc/src/arena.rs:196-198 | the first element, or nothing for an empty list |
| `NodeArena.NodeList.Iter` | latex2mmlc/src/arena.rs:175-188 | an iterator over the arena that will visit the list's elements |
| `NodeArena.NodeList.IterManually` | latex2mmlc/src/arena.rs:190-194 | a manual iterator that will visit the list's elements |
| `NodeArena.NodeList.Collect` | latex2mmlc/src/arena.rs:201-219 | running the iterator to its end yields the list's nodes in the order they were pushed |
| `NodeArena.Drain` | latex2mmlc/src/arena.rs:206-219 | calling `next` until it yields nothing collects, in order, the nodes the iterator had left to visit |
| `NodeArena.NodeListIterator.constructor` | latex2mmlc/src/arena.rs:175-188 | the iterator starts at the head of the chain to visit |
| `NodeArena.NodeListIterator.Next` | latex2mmlc/src/arena.rs:206-219 | the node at the current element and a move along its link, or nothing at the end |
| `NodeArena.ManualIterator.constructor` | latex2mmlc/src/arena.rs:190-194 | the iterator starts at the head of the chain to visit |
| `NodeArena.ManualIterator.Next` | latex2mmlc/src/arena.rs:225-239 | the current reference with its node and a move along the link, or nothing at the end |
| `NodeArena.EmptyListYieldsNothing` | latex2mmlc/src/arena.rs:283-289 | a new list is empty and its iterator yields nothing |
| `NodeArena.SingletonYieldsNode` | latex2mmlc/src/arena.rs:272-280 | after one push the list is a singleton and yields that node |
| `NodeArena.PushedNodesInOrder` | latex2mmlc/src/arena.rs:257-269 | after two pushes the list is not a singleton and yields both nodes in the order they were pushed |
| `NodeArena.Buffer.constructor` | latex2mmlc/src/arena.rs:87-89 | a new buffer is empty |
| `NodeArena.Buffer.GetStr` | latex2mmlc/src/arena.rs:109-113 | the text between the reference's bounds |
| `NodeArena.Buffer.Extend` | latex2mmlc/src/arena.rs:91-96 | appends the chars; the reference returned names exactly them |
| `NodeArena.Buffer.PushStr` | latex2mmlc/src/arena.rs:98-103 | appends the string; the reference returned names exactly it |
| `NodeArena.Buffer.Push` | latex2mmlc/src/arena.rs:105-107 | appends one char |
| `NodeArena.Buffer.Len` | latex2mmlc/src/arena.rs:115-117 | the length of the text |
| `NodeArena.PushStrThenGet` | latex2mmlc/src/arena.rs:291-303 | a string pushed into a new buffer is what its reference names |
| `StrArena.AsStr` | latex2mmlc/src/str_arena.rs:12-17 | the text between the reference's bounds |
| `StrArena.EarlierReferencesStay` | latex2mmlc/src/str_arena.rs:20-76 | as the buffer only grows, every reference made earlier names the same text afterwards |
| `StrArena.Buffer.constructor` | latex2mmlc/src/str_arena.rs:25-30 | a new buffer is empty |
| `StrArena.Buffer.End` | latex2mmlc/src/str_arena.rs:79-81 | the bound just past the text |
| `StrArena.Buffer.Extend` | latex2mmlc/src/str_arena.rs:32-41 | appends the chars; the reference returned names exactly them |
| `StrArena.Buffer.ExtendFromWithin` | latex2mmlc/src/str_arena.rs:43-65 | appends a copy of the text the reference names; the new reference names that copy |
| `StrArena.Buffer.TransformAndPush` | latex2mmlc/src/str_arena.rs:67-69 | appends every char of the input transformed, keeping the old text |
| `StrArena.Buffer.PushStr` | latex2mmlc/src/str_arena.rs:71-76 | appends the string; the reference returned names exactly it |
| `StrArena.StringBuilder.constructor` | latex2mmlc/src/str_arena.rs:83-102 | a builder starts at the end of the buffer with nothing pushed |
| `StrArena.StringBuilder.PushStr` | latex2mmlc/src/str_arena.rs:108-110 | the string is appended to the buffer and to what the builder has pushed |
| `StrArena.StringBuilder.PushChar` | latex2mmlc/src/str_arena.rs:112-114 | the char is appended to the buffer and to what the builder has pushed |
| `StrArena.StringBuilder.ExtendFromWithin` | latex2mmlc/src/str_arena.rs:104-106 | a copy of the referenced text is appended to the buffer and to what the builder has pushed |
| `StrArena.StringBuilder.TransformAndPush` | latex2mmlc/src/str_arena.rs:116-118 | the transformed input is appended to what the builder has pushed, and the reference returned is its range `[old length, new length)` in the buffer, naming exactly the transformed text |
| `StrArena.StringBuilder.Finish` | latex2mmlc/src/str_arena.rs:120-123 | the reference from the builder's start to the end of the buffer names exactly what was pushed through it |
| `StrArena.ManualReference` | latex2mmlc/src/str_arena.rs:143-154 | pushing `H`, `i` and an arrow gives a reference to `Hi↩` that ends at byte 5 |
| `RendererArena.Arena.constructor` | math-core/src/mathml_renderer/arena.rs:15-75 | a new arena holds nothing |
| `RendererArena.Arena.Push` | math-core/src/mathml_renderer/arena.rs:21-23 | the reference returned leads to the node pushed; nothing else is allocated |
| `RendererArena.Arena.PushSlice` | math-core/src/mathml_renderer/arena.rs:25-35 | the slice reference names exactly the references given; an empty slice is the shared empty one and allocates nothing |
| `RendererArena.Arena.AllocStr` | math-core/src/mathml_renderer/arena.rs:37-44 | the string is copied unchanged; the empty string is not allocated |
| `RendererArena.Arena.AllocColumnSpecs` | math-core/src/mathml_renderer/arena.rs:46-56 | as for node slices, for column specifications |
| `RendererArena.Arena.AllocArraySpec` | math-core/src/mathml_renderer/arena.rs:58-63 | the reference returned leads to the array specification allocated |
| `RendererArena.Arena.Freeze` | math-core/src/mathml_renderer/arena.rs:66-68 | the frozen arena knows how many slices were allocated |
| `RendererArena.ContainsSlice` | math-core/src/mathml_renderer/arena.rs:83-90 | the empty slice is always contained; another slice exactly when the arena allocated it |
| `RendererArena.PushedSliceIsContained` | math-core/src/mathml_renderer/arena.rs:25-90 | every slice `push_slice` hands out is contained in the frozen arena |
| `RendererArena.Buffer.constructor` | math-core/src/mathml_renderer/arena.rs:108-110 | a new buffer is empty |
| `RendererArena.StringBuilder.constructor` | math-core/src/mathml_renderer/arena.rs:112-132 | a builder clears the buffer |
| `RendererArena.StringBuilder.PushStr` | math-core/src/mathml_renderer/arena.rs:134-136 | the string is appended to the buffer |
| `RendererArena.StringBuilder.PushChar` | math-core/src/mathml_renderer/arena.rs:138-140 | the char is appended to the buffer |
| `RendererArena.StringBuilder.Finish` | math-core/src/mathml_renderer/arena.rs:142-145 | the text built is copied into the arena and returned |
| `RendererArena.BuildFromChars` | math-core/src/mathml_renderer/arena.rs:159-168 | a builder yields exactly the chars pushed through it, whatever the buffer held, and its byte length is the sum of their UTF-8 lengths |
| `RendererArena.Utf8LenIsSum` | math-core/src/mathml_renderer/arena.rs:177-181 | the byte length of a string is the sum of its chars' UTF-8 lengths |
| `RendererArena.ManualReference` | math-core/src/mathml_renderer/arena.rs:170-182 | pushing `H`, `i` and an arrow yields `Hi↩`, five bytes long |
| `LexerSpec.WhitespaceEnd` | crates/math-core/src/lexer.rs:78-89 | the whitespace run ends within the input, not before its start |
| `LexerSpec.LetterRunEnd` | crates/math-core/src/lexer.rs:96-103 | the letter run ends within the input, not before its start |
| `LexerSpec.CommandEnd` | crates/math-core/src/lexer.rs:93-115 | the command name ends within the input, not before its start |
| `LexerSpec.LineEnd` | crates/math-core/src/lexer.rs:204-206 | the line ends within the input, not before its start |
| `LexerSpec.LexChar` | crates/math-core/src/lexer.rs:211-344 | lexing one char never moves the cursor backwards or past the input |
| `LexerSpec.ParseCommand` | crates/math-core/src/lexer.rs:351-430 | lexing a command never moves the cursor backwards or past the input |
| `LexerSpec.FinishCommand` | crates/math-core/src/lexer.rs:418-429 | the bookkeeping after a command leaves the cursor where it is |
| `LexerSpec.LexCharKeepsModeConsistent` | crates/math-core/src/lexer.rs:211-344 | lexing one char keeps every text group inside the braces open |
| `LexerSpec.ParseCommandKeepsModeConsistent` | crates/math-core/src/lexer.rs:351-430 | lexing a command keeps every text group inside the braces open |
| `LexerSpec.SourceOfAdvances` | crates/math-core/src/lexer.rs:161-176 | the lexer's step never moves backwards and stops at the end of the input |
| `Lexer.Lexer.FinishCommand` | crates/math-core/src/lexer.rs:418-429 | agrees with `FinishCommand`: a pending `\text` start ends, a `\text` token starts one, and the token or error is returned |
| `Tokens.FirstLeaf` | crates/math-core/src/token.rs:212 | following nested custom commands ends at a token that is not a non-empty custom command |
| `TokenQueue.ReadGroupSpec` | crates/math-core/src/token_queue.rs:235-266 | the queue stays well formed after reading a group |
| `TokenQueue.BalanceCons` | crates/math-core/src/token_queue.rs:246-258 | the brace nesting after a token and the rest is the nesting after the rest, starting from the token's own |
| `TokenQueue.TokenQueue.Empty` | crates/math-core/src/token_queue.rs:20-31 | a queue starts empty over its lexer |
| `Environments.NumberedEnvState.constructor` | math-core/src/environments.rs:252-257 | the state holds the numbering mode, suppression, custom number and row count given |
| `Converter.AllAsciiAlphabeticIff` | crates/math-core/src/lib.rs:346 | the check is true exactly when every char is an ASCII letter |
| `Decimal.ParseU16` | math-core/src/parse.rs:1024 | a number is only read from text starting with `+` or a digit |
| `Decimal.TrimDropsWhitespace` | math-core/src/parse.rs:1024 | trimming removes only whitespace, at both ends |
| `Length.UnitOf` | mathml_renderer/src/length.rs:81-87 | a unit is only found in a text of at least two chars |

## Left out

- Building the syntax tree (`construct_node` in math-core/src/environments.rs and the node-building parts of parse.rs) and emitting MathML are not modelled. The converter takes the parser and the node emitter as parameters (`parse`, `emit`), and `ParseRules` states the rules on tokens and node values.
- `ParseRules.ParseArg`: the argument of a sub- or superscript is taken to be one token. Parsing a whole argument belongs to the recursive parser, which is not part of this model.
- Lengths written with units other than `pt` and `px`, and `parse_length_specification`, use floating point and are not modelled.
- The MathML emitters, the text parsers, the error-message tables and the constant tables of operator symbols are not modelled. `Symbol` declares only the constants the lexer and parser use.
- Integers are unbounded. `Length.FromStr`, `Length.ReadNumber`, `Length.FromPt`, `Length.FromTwip` and `Length.FromPx` do not model the wrap-around of `i32` arithmetic, which the source reaches on lengths above about six million points or on long digit strings.
- Positions in `Replace` and `HtmlEntities` count chars where the source counts bytes. The two agree on ASCII text. On text with multi-byte chars the error positions differ, but the text copied and converted is the same.
- `NodeArena.Buffer`: `Len` and the bounds of its string references count chars, where the `Buffer` of latex2mmlc/src/arena.rs counts bytes of its `String`. The two agree on ASCII text. On text with multi-byte chars the numbers differ, but each reference still names the text that was pushed.
- `Specifications.ParseColumnSpecification` and `Converter.IsValidMacroName` look at chars where the source looks at bytes. No byte of a multi-byte char is an ASCII letter or a column-specification char, so both give the same answers.
- `HtmlUtils` writes chars into a string where the source pushes bytes into a byte buffer. Only ASCII bytes are ever inspected or replaced, so the output text is the same.
- `Replace.Replacer.Replace`: the conversion callback and the state it threads are parameters. The entity buffer is scratch space for `replace_html_entities` and is not part of any result.
- `Replace.Replacer`: the delimiter search (`memchr::memmem::find`) is a ghost function `find`. Its contract states that it reports only occurrences of the needle. `Replace.FindFindsOccurrences` shows that the model's own search keeps that contract.
- `StrArena.Buffer.ExtendFromWithin` requires a reference inside the buffer, because the source panics on any other reference. On WebAssembly the source skips those checks and copies nothing, and that path is not modelled.
- `StrArena.Buffer.TransformAndPush` takes the char transform as a parameter. The source passes a `TextTransform`, whose transform is `Attribute.TransformChar`.
- `NodeArena.NodeList.PushRef` requires an element that is not linked and not already in the list. The source does not check this, and any other element would make the list cyclic. `NodeArena.NodeList.Push` always meets the requirement.
- `NodeArena.Arena.Lookup` and `NodeArena.Arena.LookupMut` require a reference inside the arena. The source only makes references through `push`, and indexing outside panics.
- `RendererArena.Arena` keeps one pool per kind of value instead of one untyped dropless arena. References are positions in their pool, and the node returned by `push` is addressed by index rather than by a mutable reference.
- `Itoa.DigitToHexAscii` requires a digit below 16, because the source panics on larger digits.
- `Symbol.NewBMPChar` requires a char of the Basic Multilingual Plane, because the source asserts it.
- The `lexer_is_eoi` flag of crates/math-core/src/token_queue.rs is not modelled. It is only set after a skipped end-of-input token, and `TokenQueue.EoiIsNeverSkipped` shows that no such token is ever skipped.
- crates/math-core/src/lib.rs checks `Token::Eof`, and math-core/src/parse.rs reads an environment name as a separate token after `\end`. The model uses `Tokens.Eoi` and `Tokens.End(env)` from token.rs for both.
- `Table.NewLineAndIndent` follows mathml_renderer/src/ast.rs:581-588, because the math-core `fmt.rs` is not part of this model.
- `Attribute.Apply` gives each target as a code point of the Unicode Mathematical Alphanumeric Symbols block. The nine Greek symbols are placed as offsets from the variant's capital theta symbol (`GreekSymbolTarget`).
- I/O, clocks and the command-line and configuration front ends are not modelled.

## Findings

| source | as written | input that shows it | evidently intended | confidence | as-written member | corrected member |
|---|---|---|---|---|---|---|
| mathml_renderer/src/length.rs:42-55 | `write_impl` divides with Rust's truncating `/` and `%`, so the fractional digits of a negative length that is not a whole number of units come out with their own minus sign after the dot | `Length(-180)`, half a point below zero, is written `0.-5pt`, which `from_str` rejects | the sign in front and the digits of the magnitude (`-0.5pt`) | not executed; the arithmetic is exact, but whether a negative fractional length reaches the writer depends on the parser | `Length.NegativeFractionMisplacesSign` | `Length.SignedWriteRoundTrip` |
