/**
 * The self-contained rules of the LaTeX parser (math-core/src/parse.rs):
 * operator spacing next to relations and big operators, turning a list of
 * nodes into one node, primes and the bounds of a big operator, the
 * equation numbers that `\\`, `\nonumber` and `\tag` control, and the
 * checks on `\end` and on the token that ends a sequence.
 *
 * The parser itself is not part of this model: the bound of a `_` or `^`
 * is one token here, which becomes an `Arg` node, and the token stream is
 * a sequence that has already been lexed.
 */
module ParseRules {
  import opened Wrappers
  import opened Integers
  import opened Attribute
  import Symbol
  import Tokens
  import Environments
  import Decimal

  type Class = Tokens.Class

  /** `OpAttr`. */
  datatype OpAttr = StretchyFalse | NoMovableLimits | ForceMovableLimits | FormPrefix

  /** The nodes these rules build. */
  datatype Node =
    | Operator(op: Symbol.MathMLOperator, attr: Option<OpAttr>, left: Option<MathSpacing>, right: Option<MathSpacing>)
    | Row(nodes: seq<Node>)
    | Arg(token: Tokens.Token)
    | RowSeparator(number: Option<NonZeroU16>)
    | Dummy

  /*
   * The error kinds and places of math-core/src/parse.rs. They are kept apart
   * from `Tokens.Place` and `Tokens.LatexErrKind`, which follow the newer
   * crates/math-core sources: this parser has the place `AfterOpOrIdent` and
   * the kinds `ExpectedNumber` (without the text found), `UnexpectedEOF` and
   * `UnexpectedClose`, which the newer error type does not share.
   */

  /** Where a token that is not allowed here belongs. */
  datatype Place = AfterOpOrIdent | AfterBigOp | NumberedEnv | TableEnv

  datatype ErrKind =
    | CannotBeUsedHere(got: Tokens.Token, correctPlace: Place)
    | UnexpectedEOF
    | UnexpectedClose(closing: Tokens.Token)
    | ExpectedNumber
    | MismatchedEnvironment(expectedEnv: Environments.Env, gotEnv: Environments.Env)
    | HardLimitExceeded
    | Internal

  /** `LatexError`: the byte offset of the token at fault, and what went wrong. */
  datatype ParseError = ParseError(loc: nat, kind: ErrKind)

  // Spacing

  /**
   * `ParserState::relation_spacing`: a relation gets no space on a side
   * whose neighbour is a relation, an opening delimiter (left) or a closing
   * one (right), or punctuation, and none at all in script style.
   */
  function RelationSpacing(prev: Class, next: Class, scriptStyle: bool): (r: (Option<MathSpacing>, Option<MathSpacing>))
    ensures r.0.None? || r.0 == Some(Zero)
    ensures r.1.None? || r.1 == Some(Zero)
  {
    (if prev in {Tokens.Class.Relation, Tokens.Class.Open, Tokens.Class.Punctuation} || scriptStyle then Some(Zero) else None,
     if next in {Tokens.Class.Relation, Tokens.Class.Punctuation, Tokens.Class.Close} || scriptStyle then Some(Zero) else None)
  }

  /** Each side is zeroed exactly when its neighbour or the script style calls for it. */
  lemma RelationSpacingZero(prev: Class, next: Class, scriptStyle: bool)
    ensures RelationSpacing(prev, next, scriptStyle).0 == Some(Zero)
      <==> prev == Tokens.Class.Relation || prev == Tokens.Class.Open || prev == Tokens.Class.Punctuation || scriptStyle
    ensures RelationSpacing(prev, next, scriptStyle).1 == Some(Zero)
      <==> next == Tokens.Class.Relation || next == Tokens.Class.Punctuation || next == Tokens.Class.Close || scriptStyle
  {
  }

  /** In a chain of relations the space between two neighbours is dropped on both sides. */
  lemma RelationChain(a: Class, c: Class, scriptStyle: bool)
    ensures RelationSpacing(a, Tokens.Class.Relation, scriptStyle).1 == Some(Zero)
    ensures RelationSpacing(Tokens.Class.Relation, c, scriptStyle).0 == Some(Zero)
  {
  }

  /**
   * `Parser::big_operator_spacing`: the class of the next token is
   * recomputed from the token itself; a side next to a relation,
   * punctuation, an operator or an opening delimiter (left), or
   * punctuation, a relation or a delimiter (right) gets no space;
   * otherwise an explicit operator gets a thin space and any other none.
   */
  function BigOperatorSpacing(prev: Class, next: Tokens.Token, inSequence: bool, rightBoundaryHack: bool, explicit: bool)
    : (r: (Option<MathSpacing>, Option<MathSpacing>))
    ensures r.0 != Some(FourMu) && r.0 != Some(FiveMu) && r.1 != Some(FourMu) && r.1 != Some(FiveMu)
  {
    var nextClass := Tokens.ClassOf(next, inSequence, rightBoundaryHack);
    (if prev in {Tokens.Class.Relation, Tokens.Class.Punctuation, Tokens.Class.Operator, Tokens.Class.Open} then Some(Zero)
     else if explicit then Some(ThreeMu)
     else None,
     if nextClass in {Tokens.Class.Punctuation, Tokens.Class.Relation, Tokens.Class.Open, Tokens.Class.Close} then Some(Zero)
     else if explicit then Some(ThreeMu)
     else None)
  }

  /** A thin space appears only for an explicit operator, and an implicit one never gets a space. */
  lemma BigOperatorThinSpace(prev: Class, next: Tokens.Token, inSequence: bool, hack: bool, explicit: bool)
    ensures var r := BigOperatorSpacing(prev, next, inSequence, hack, explicit);
      && (r.0 == Some(ThreeMu) <==> explicit && r.0 != Some(Zero))
      && (r.1 == Some(ThreeMu) <==> explicit && r.1 != Some(Zero))
      && (r.0.None? <==> !explicit && r.0 != Some(Zero))
      && (r.1.None? <==> !explicit && r.1 != Some(Zero))
  {
  }

  /**
   * Wherever a relation's spacing is dropped (outside script style), a big
   * operator's is dropped too: the big operator's list of tight neighbours
   * contains the relation's.
   */
  lemma BigOperatorTighterThanRelation(prev: Class, next: Tokens.Token, inSequence: bool, hack: bool, explicit: bool)
    ensures var nextClass := Tokens.ClassOf(next, inSequence, hack);
      var rel := RelationSpacing(prev, nextClass, false);
      var big := BigOperatorSpacing(prev, next, inSequence, hack, explicit);
      (rel.0 == Some(Zero) ==> big.0 == Some(Zero)) && (rel.1 == Some(Zero) ==> big.1 == Some(Zero))
  {
  }

  /** Outside a sequence the next token counts as ordinary, so the right side is never zeroed. */
  lemma BigOperatorOutsideSequence(prev: Class, next: Tokens.Token, hack: bool, explicit: bool)
    ensures BigOperatorSpacing(prev, next, false, hack, explicit).1 == (if explicit then Some(ThreeMu) else None)
  {
  }

  // Nodes

  /** An operator node with its spacing cleared; any other node as it is. */
  function WithoutSpacing(n: Node): (r: Node)
    ensures r.Operator? <==> n.Operator?
    ensures r.Operator? ==> r.left.None? && r.right.None? && r.op == n.op && r.attr == n.attr
    ensures !n.Operator? ==> r == n
  {
    if n.Operator? then n.(left := None, right := None) else n
  }

  /**
   * `node_vec_to_node`: a single node is returned as it is (an operator
   * with its spacing reset when `resetSpacing` is set); any other number of
   * nodes, none included, becomes a row of all of them in order.
   */
  function NodeVecToNode(nodes: seq<Node>, resetSpacing: bool): (r: Node)
  {
    if |nodes| == 1 then (if resetSpacing then WithoutSpacing(nodes[0]) else nodes[0])
    else Row(nodes)
  }

  /**
   * The result holds exactly the given nodes: a row of all of them, or the
   * one node, equal to it up to its spacing (exactly equal without a reset).
   */
  lemma NodeVecToNodeKeepsNodes(nodes: seq<Node>, resetSpacing: bool)
    ensures var r := NodeVecToNode(nodes, resetSpacing);
      && (|nodes| != 1 ==> r.Row? && r.nodes == nodes)
      && (|nodes| == 1 ==> WithoutSpacing(r) == WithoutSpacing(nodes[0]))
      && (|nodes| == 1 && !resetSpacing ==> r == nodes[0])
      && (|nodes| == 1 && !nodes[0].Operator? ==> r == nodes[0])
  {
  }

  /** Resetting the spacing twice is the same as once. */
  lemma NodeVecToNodeIdempotent(n: Node)
    ensures NodeVecToNode([NodeVecToNode([n], true)], true) == NodeVecToNode([n], true)
  {
  }

  // Primes

  /** The tokens still to be parsed, each with its byte offset; at the end the stream yields `Eoi` at `eoiLoc`. */
  datatype TokLoc = TokLoc(loc: nat, token: Tokens.Token)

  function Peek(ts: seq<TokLoc>, eoiLoc: nat): TokLoc {
    if ts == [] then TokLoc(eoiLoc, Tokens.Token.Eoi) else ts[0]
  }

  /** What is left after `next_token`: the end of input is never consumed. */
  function Advance(ts: seq<TokLoc>): seq<TokLoc> {
    if ts == [] then [] else ts[1..]
  }

  /** The number of `'` tokens at the front of the stream. */
  function LeadingPrimes(ts: seq<TokLoc>): (k: nat)
    ensures k <= |ts|
    ensures forall i | 0 <= i < k :: ts[i].token.Prime?
    ensures k < |ts| ==> !ts[k].token.Prime?
  {
    if ts != [] && ts[0].token.Prime? then 1 + LeadingPrimes(ts[1..]) else 0
  }

  /** `PRIME`, `DOUBLE_PRIME`, `TRIPLE_PRIME` and `QUADRUPLE_PRIME`. */
  function PrimeChar(k: nat): char
    requires 1 <= k <= 4
  {
    match k
    case 1 => '\U{2032}'
    case 2 => '\U{2033}'
    case 3 => '\U{2034}'
    case 4 => '\U{2057}'
  }

  function PrimeOperator(k: nat): Node
    requires 1 <= k <= 4
  {
    Operator(Symbol.MathMLOperator(PrimeChar(k)), None, None, None)
  }

  /**
   * The nodes `prime_check` makes for `count` primes: one combined prime
   * for one to four, otherwise `count` single primes.
   */
  function PrimeNodes(count: nat): seq<Node> {
    if count == 0 then []
    else if count <= 4 then [PrimeOperator(count)]
    else seq(count, _ => PrimeOperator(1))
  }

  /** How many primes an operator node shows. */
  function PrimeWeight(n: Node): nat {
    if !n.Operator? then 0
    else if n.op.ch == PrimeChar(1) then 1
    else if n.op.ch == PrimeChar(2) then 2
    else if n.op.ch == PrimeChar(3) then 3
    else if n.op.ch == PrimeChar(4) then 4
    else 0
  }

  function TotalPrimeWeight(ns: seq<Node>): nat {
    if ns == [] then 0 else PrimeWeight(ns[0]) + TotalPrimeWeight(ns[1..])
  }

  /** The nodes show exactly as many primes as were typed. */
  lemma PrimeNodesShowCount(count: nat)
    ensures TotalPrimeWeight(PrimeNodes(count)) == count
    ensures 1 <= count <= 4 ==> |PrimeNodes(count)| == 1
    ensures count > 4 ==> |PrimeNodes(count)| == count
  {
    if count > 4 {
      SinglePrimesWeight(PrimeNodes(count));
    } else if count > 0 {
      assert TotalPrimeWeight(PrimeNodes(count)) == PrimeWeight(PrimeOperator(count)) + TotalPrimeWeight([]);
    }
  }

  lemma {:induction false} SinglePrimesWeight(ns: seq<Node>)
    requires forall i | 0 <= i < |ns| :: ns[i] == PrimeOperator(1)
    ensures TotalPrimeWeight(ns) == |ns|
  {
    if ns != [] {
      SinglePrimesWeight(ns[1..]);
    }
  }

  // Bounds

  /** `Bounds(sub, sup)`. */
  datatype Bounds = Bounds(sub: Option<Node>, sup: Option<Node>)

  /**
   * What parsing the bound token yields: an error at the end of input, at a
   * closing token and at `\limits`; a node otherwise.
   */
  function ParseArg(t: TokLoc): (r: Result<Node, ParseError>)
    ensures r.Ok? ==> r.value == Arg(t.token)
  {
    match t.token
    case Eoi => Err(ParseError(t.loc, UnexpectedEOF))
    case End(_) => Err(ParseError(t.loc, UnexpectedClose(t.token)))
    case Right => Err(ParseError(t.loc, UnexpectedClose(t.token)))
    case GroupEnd => Err(ParseError(t.loc, UnexpectedClose(t.token)))
    case Limits => Err(ParseError(t.loc, CannotBeUsedHere(t.token, AfterBigOp)))
    case _ => Ok(Arg(t.token))
  }

  predicate IsScriptOrPrime(t: Tokens.Token) {
    t.Underscore? || t.Circumflex? || t.Prime?
  }

  /** The result of a step that reads tokens: its outcome and the tokens left. */
  datatype Step<T> = Step(result: Result<T, ParseError>, rest: seq<TokLoc>)

  /**
   * `get_sub_or_sup`: drops the `_` or `^`, then reads the bound; another
   * script or a prime there is an error, and so is a prime right after a
   * superscript, whether or not the bound itself parsed.
   */
  function ReadSubOrSup(ts: seq<TokLoc>, eoiLoc: nat, isSup: bool): Step<Node> {
    var ts1 := Advance(ts);
    var next := Peek(ts1, eoiLoc);
    var ts2 := Advance(ts1);
    if IsScriptOrPrime(next.token) then
      Step(Err(ParseError(next.loc, CannotBeUsedHere(next.token, AfterOpOrIdent))), ts2)
    else if isSup && Peek(ts2, eoiLoc).token.Prime? then
      Step(Err(ParseError(Peek(ts2, eoiLoc).loc, CannotBeUsedHere(Tokens.Prime, AfterOpOrIdent))), ts2)
    else Step(ParseArg(next), ts2)
  }

  /** The primes at the front, as nodes, and the tokens after them. */
  function ReadPrimes(ts: seq<TokLoc>): (seq<Node>, seq<TokLoc>) {
    (PrimeNodes(LeadingPrimes(ts)), ts[LeadingPrimes(ts)..])
  }

  /** The primes joined in front of the superscript, as `get_bounds` finishes. */
  function WithPrimes(primes: seq<Node>, sup: Option<Node>): Option<Node> {
    if primes == [] then sup
    else Some(NodeVecToNode(if sup.Some? then primes + [sup.value] else primes, false))
  }

  /**
   * `get_bounds`: primes, then up to one subscript and one superscript in
   * either order (after a subscript with no primes before it, primes are
   * looked for once more); a second script of the same kind is an error
   * at that token. Primes become the front of the superscript.
   */
  function ReadBounds(ts: seq<TokLoc>, eoiLoc: nat): Step<Bounds> {
    var (primes, ts1) := ReadPrimes(ts);
    var first := Peek(ts1, eoiLoc).token;
    var firstUnderscore, firstCircumflex := first.Underscore?, first.Circumflex?;
    if !(firstUnderscore || firstCircumflex) then
      Step(Ok(Bounds(None, WithPrimes(primes, None))), ts1)
    else
      var b1 := ReadSubOrSup(ts1, eoiLoc, firstCircumflex);
      if b1.result.Err? then Step(Err(b1.result.error), b1.rest)
      else
        var (primes2, ts3) := if firstUnderscore && primes == [] then ReadPrimes(b1.rest) else (primes, b1.rest);
        var second := Peek(ts3, eoiLoc);
        var secondUnderscore, secondCircumflex := second.token.Underscore?, second.token.Circumflex?;
        if (firstCircumflex && secondCircumflex) || (firstUnderscore && secondUnderscore) then
          Step(Err(ParseError(second.loc, CannotBeUsedHere(second.token, AfterOpOrIdent))), Advance(ts3))
        else if secondUnderscore || secondCircumflex then
          var b2 := ReadSubOrSup(ts3, eoiLoc, secondCircumflex);
          if b2.result.Err? then Step(Err(b2.result.error), b2.rest)
          else
            var (sub, sup) := if firstUnderscore then (b1.result.value, b2.result.value) else (b2.result.value, b1.result.value);
            Step(Ok(Bounds(Some(sub), WithPrimes(primes2, Some(sup)))), b2.rest)
        else if firstUnderscore then
          Step(Ok(Bounds(Some(b1.result.value), WithPrimes(primes2, None))), ts3)
        else
          Step(Ok(Bounds(None, WithPrimes(primes2, Some(b1.result.value)))), ts3)
  }

  /** A bound token that parses to a node and is not itself a script or a prime. */
  predicate PlainArg(t: TokLoc) {
    !IsScriptOrPrime(t.token) && ParseArg(t).Ok?
  }

  /** `_a^b` reads `a` as the subscript and `b` as the superscript. */
  lemma SubThenSup(u: nat, c: nat, a: TokLoc, b: TokLoc, rest: seq<TokLoc>, eoiLoc: nat)
    requires PlainArg(a) && PlainArg(b)
    requires rest == [] || !rest[0].token.Prime?
    ensures ReadBounds([TokLoc(u, Tokens.Underscore), a, TokLoc(c, Tokens.Circumflex), b] + rest, eoiLoc)
      == Step(Ok(Bounds(Some(Arg(a.token)), Some(Arg(b.token)))), rest)
  {
    var ts := [TokLoc(u, Tokens.Underscore), a, TokLoc(c, Tokens.Circumflex), b] + rest;
    assert LeadingPrimes(ts) == 0;
    assert ts[2..] == [TokLoc(c, Tokens.Circumflex), b] + rest;
    assert LeadingPrimes(ts[2..]) == 0;
    assert ts[4..] == rest;
  }

  /** `^b_a` reads `a` as the subscript and `b` as the superscript. */
  lemma SupThenSub(u: nat, c: nat, a: TokLoc, b: TokLoc, rest: seq<TokLoc>, eoiLoc: nat)
    requires PlainArg(a) && PlainArg(b)
    requires rest == [] || !rest[0].token.Prime?
    ensures ReadBounds([TokLoc(c, Tokens.Circumflex), b, TokLoc(u, Tokens.Underscore), a] + rest, eoiLoc)
      == Step(Ok(Bounds(Some(Arg(a.token)), Some(Arg(b.token)))), rest)
  {
    var ts := [TokLoc(c, Tokens.Circumflex), b, TokLoc(u, Tokens.Underscore), a] + rest;
    assert LeadingPrimes(ts) == 0;
    assert ts[2..] == [TokLoc(u, Tokens.Underscore), a] + rest;
    assert ts[4..] == rest;
  }

  /** `_a^b` and `^b_a` give the same bounds and leave the same tokens. */
  lemma BoundsOrderIrrelevant(u: nat, c: nat, a: TokLoc, b: TokLoc, rest: seq<TokLoc>, eoiLoc: nat)
    requires PlainArg(a) && PlainArg(b)
    requires rest == [] || !rest[0].token.Prime?
    ensures ReadBounds([TokLoc(u, Tokens.Underscore), a, TokLoc(c, Tokens.Circumflex), b] + rest, eoiLoc)
      == ReadBounds([TokLoc(c, Tokens.Circumflex), b, TokLoc(u, Tokens.Underscore), a] + rest, eoiLoc)
  {
    SubThenSup(u, c, a, b, rest, eoiLoc);
    SupThenSub(u, c, a, b, rest, eoiLoc);
  }

  /** A second superscript, or a second subscript, is an error at that token. */
  lemma DoubleScriptRejected(p: nat, q: nat, a: TokLoc, b: TokLoc, rest: seq<TokLoc>, eoiLoc: nat, sup: bool)
    requires PlainArg(a)
    ensures var script := if sup then Tokens.Circumflex else Tokens.Underscore;
      ReadBounds([TokLoc(p, script), a, TokLoc(q, script), b] + rest, eoiLoc).result
        == Err(ParseError(q, CannotBeUsedHere(script, AfterOpOrIdent)))
  {
    var script := if sup then Tokens.Circumflex else Tokens.Underscore;
    var ts := [TokLoc(p, script), a, TokLoc(q, script), b] + rest;
    assert LeadingPrimes(ts) == 0;
    assert ts[2..] == [TokLoc(q, script), b] + rest;
    assert LeadingPrimes(ts[2..]) == 0;
  }

  /** With no primes and no script in front, there are no bounds and nothing is consumed. */
  lemma NoBounds(ts: seq<TokLoc>, eoiLoc: nat)
    requires !IsScriptOrPrime(Peek(ts, eoiLoc).token)
    ensures ReadBounds(ts, eoiLoc) == Step(Ok(Bounds(None, None)), ts)
  {
    assert LeadingPrimes(ts) == 0;
  }

  /** Primes in front of a superscript become one row with the superscript after them. */
  lemma PrimesBeforeSuperscript(p: nat, c: nat, b: TokLoc, rest: seq<TokLoc>, eoiLoc: nat)
    requires PlainArg(b)
    requires rest == [] || !IsScriptOrPrime(rest[0].token)
    ensures ReadBounds([TokLoc(p, Tokens.Prime), TokLoc(c, Tokens.Circumflex), b] + rest, eoiLoc)
      == Step(Ok(Bounds(None, Some(Row([PrimeOperator(1), Arg(b.token)])))), rest)
  {
    var ts := [TokLoc(p, Tokens.Prime), TokLoc(c, Tokens.Circumflex), b] + rest;
    assert ts[1..] == [TokLoc(c, Tokens.Circumflex), b] + rest;
    assert LeadingPrimes(ts[1..]) == 0;
    assert LeadingPrimes(ts) == 1;
    assert ts[1..][2..] == rest;
    assert PrimeNodes(1) + [Arg(b.token)] == [PrimeOperator(1), Arg(b.token)];
  }

  /**
   * The parser's token stream, as far as primes and bounds read it: the
   * tokens still to come, and where the input ends.
   */
  class BoundsReader {
    var tokens: seq<TokLoc>
    var eoiLoc: nat

    constructor (tokens: seq<TokLoc>, eoiLoc: nat)
      ensures this.tokens == tokens && this.eoiLoc == eoiLoc
    {
      this.tokens := tokens;
      this.eoiLoc := eoiLoc;
    }

    /** `prime_check`: counts and drops the primes at the front, then makes their nodes. */
    method PrimeCheck() returns (primes: seq<Node>)
      modifies this
      ensures (primes, tokens) == ReadPrimes(old(tokens))
      ensures eoiLoc == old(eoiLoc)
    {
      var count := 0;
      while tokens != [] && tokens[0].token.Prime?
        invariant count + LeadingPrimes(tokens) == LeadingPrimes(old(tokens))
        invariant count <= |old(tokens)| && tokens == old(tokens)[count..]
        invariant eoiLoc == old(eoiLoc)
        decreases |tokens|
      {
        tokens := tokens[1..];
        count := count + 1;
      }
      primes := [];
      if count > 0 {
        if count <= 4 {
          primes := [PrimeOperator(count)];
        } else {
          for i := 0 to count
            invariant primes == seq(i, _ => PrimeOperator(1))
          {
            primes := primes + [PrimeOperator(1)];
          }
        }
      }
    }

    /** `get_sub_or_sup`. */
    method GetSubOrSup(isSup: bool) returns (r: Result<Node, ParseError>)
      modifies this
      ensures Step(r, tokens) == ReadSubOrSup(old(tokens), old(eoiLoc), isSup)
      ensures eoiLoc == old(eoiLoc)
    {
      tokens := Advance(tokens);
      var next := Peek(tokens, eoiLoc);
      tokens := Advance(tokens);
      if next.token.Underscore? || next.token.Circumflex? || next.token.Prime? {
        return Err(ParseError(next.loc, CannotBeUsedHere(next.token, AfterOpOrIdent)));
      }
      r := ParseArg(next);
      if isSup && Peek(tokens, eoiLoc).token.Prime? {
        r := Err(ParseError(Peek(tokens, eoiLoc).loc, CannotBeUsedHere(Tokens.Prime, AfterOpOrIdent)));
      }
    }

    /** `get_bounds`. */
    method GetBounds() returns (r: Result<Bounds, ParseError>)
      modifies this
      ensures Step(r, tokens) == ReadBounds(old(tokens), old(eoiLoc))
      ensures eoiLoc == old(eoiLoc)
    {
      var primes := PrimeCheck();
      var first := Peek(tokens, eoiLoc).token;
      var firstUnderscore, firstCircumflex := first.Underscore?, first.Circumflex?;
      var sub, sup := None, None;
      if firstUnderscore || firstCircumflex {
        var b1 := GetSubOrSup(firstCircumflex);
        if b1.Err? {
          return Err(b1.error);
        }
        if firstUnderscore && primes == [] {
          primes := PrimeCheck();
        }
        var second := Peek(tokens, eoiLoc);
        var secondUnderscore, secondCircumflex := second.token.Underscore?, second.token.Circumflex?;
        if (firstCircumflex && secondCircumflex) || (firstUnderscore && secondUnderscore) {
          tokens := Advance(tokens);
          return Err(ParseError(second.loc, CannotBeUsedHere(second.token, AfterOpOrIdent)));
        }
        if secondUnderscore || secondCircumflex {
          var b2 := GetSubOrSup(secondCircumflex);
          if b2.Err? {
            return Err(b2.error);
          }
          if firstUnderscore {
            sub, sup := Some(b1.value), Some(b2.value);
          } else {
            sub, sup := Some(b2.value), Some(b1.value);
          }
        } else if firstUnderscore {
          sub := Some(b1.value);
        } else {
          sup := Some(b1.value);
        }
      }
      if primes != [] {
        var nodes := if sup.Some? then primes + [sup.value] else primes;
        sup := Some(NodeVecToNode(nodes, false));
      }
      return Ok(Bounds(sub, sup));
    }
  }

  // Equation numbers

  /**
   * What `\\`, `\nonumber` and `\tag` read and change: whether line breaks
   * separate rows here, the numbering state of the innermost numbered
   * environment, and the shared equation counter.
   */
  datatype RowState = RowState(meaningfulNewlines: bool, numbered: Option<Environments.NumberingState>, counter: u16)

  /**
   * `\\`: ignored where line breaks mean nothing; in a numbered
   * environment the row count (if kept) goes up by one, then the row gets
   * the next equation number; elsewhere a plain row separator. A row count
   * or an equation counter at its limit is an error.
   */
  function NewLine(s: RowState, loc: nat): (RowState, Result<Node, ParseError>) {
    if !s.meaningfulNewlines then (s, Ok(Dummy))
    else match s.numbered
      case None => (s, Ok(RowSeparator(None)))
      case Some(n) =>
        var rows := if n.numRows.Some? then CheckedAddU16(n.numRows.value, 1) else None;
        if n.numRows.Some? && rows.None? then (s, Err(ParseError(loc, HardLimitExceeded)))
        else
          var n1 := if n.numRows.Some? then n.(numRows := Some(rows.value)) else n;
          var step := Environments.NextNumber(n1, s.counter, false);
          var s1 := s.(numbered := Some(step.state), counter := step.counter);
          match step.result
          case Ok(num) => (s1, Ok(RowSeparator(num)))
          case Err(_) => (s1, Err(ParseError(loc, HardLimitExceeded)))
  }

  /** `\nonumber`: the next row of a numbered environment gets no number. */
  function NoNumber(s: RowState): RowState {
    match s.numbered
    case None => s
    case Some(n) => s.(numbered := Some(n.(suppressNextNumber := true)))
  }

  /**
   * `\tag{...}`: inside a numbered environment, the trimmed literal must be
   * a nonzero `u16`, which the next row gets as its number; anywhere else
   * `\tag` is an error.
   */
  function Tag(s: RowState, loc: nat, literalLoc: nat, literal: string): (RowState, Result<Node, ParseError>) {
    match s.numbered
    case None => (s, Err(ParseError(loc, CannotBeUsedHere(Tokens.Tag, NumberedEnv))))
    case Some(n) =>
      match Decimal.ParseU16(Decimal.Trim(literal))
      case Some(k) =>
        if k != 0 then (s.(numbered := Some(n.(customNextNumber := Some(k)))), Ok(Dummy))
        else (s, Err(ParseError(literalLoc, ExpectedNumber)))
      case None => (s, Err(ParseError(literalLoc, ExpectedNumber)))
  }

  /** A numbered environment that numbers every row, with nothing pending. */
  predicate Fresh(s: RowState) {
    && s.meaningfulNewlines && s.numbered.Some?
    && s.numbered.value.mode == Environments.AllByDefault
    && !s.numbered.value.suppressNextNumber && s.numbered.value.customNextNumber.None?
  }

  /** Each row of such an environment takes the next value of the counter. */
  lemma NewLineNumbersRow(s: RowState, loc: nat)
    requires Fresh(s) && s.numbered.value.numRows.None? && s.counter < U16_MAX
    ensures NewLine(s, loc).1 == Ok(RowSeparator(Some(s.counter + 1)))
    ensures NewLine(s, loc).0 == s.(counter := s.counter + 1)
  {
  }

  /** `\nonumber\\` gives the row no number, uses up no number, and leaves nothing pending. */
  lemma NoNumberThenNewLine(s: RowState, loc: nat)
    requires Fresh(s) && s.numbered.value.numRows.None?
    ensures NewLine(NoNumber(s), loc) == (s, Ok(RowSeparator(None)))
  {
  }

  /** `\tag{k}` with `k` written in decimal sets `k` as the pending number and changes nothing else. */
  lemma TagSetsNumber(s: RowState, loc: nat, literalLoc: nat, k: u16)
    requires s.numbered.Some? && k != 0
    ensures Tag(s, loc, literalLoc, Decimal.DecimalString(k))
      == (s.(numbered := Some(s.numbered.value.(customNextNumber := Some(k)))), Ok(Dummy))
  {
    Decimal.ParseU16RoundTrip(k);
    TrimDigits(Decimal.DecimalString(k));
  }

  /** A pending number goes to the next row and is used up; the counter is left alone, even after `\nonumber`. */
  lemma NewLineUsesTag(s: RowState, loc: nat, k: NonZeroU16)
    requires s.meaningfulNewlines && s.numbered.Some? && s.numbered.value.numRows.None?
    requires s.numbered.value.mode != Environments.OnlyLast
    requires s.numbered.value.customNextNumber == Some(k)
    ensures NewLine(s, loc).1 == Ok(RowSeparator(Some(k)))
    ensures NewLine(s, loc).0.counter == s.counter
    ensures NewLine(s, loc).0.numbered.value.customNextNumber.None?
  {
    Environments.CustomNumberFirst(s.numbered.value, s.counter, false, k);
  }

  /** `\tag{k}\\` gives the row the number `k` and leaves the counter alone. */
  lemma TagThenNewLine(s: RowState, loc: nat, literalLoc: nat, k: u16)
    requires s.meaningfulNewlines && s.numbered.Some? && s.numbered.value.numRows.None?
    requires s.numbered.value.mode != Environments.OnlyLast
    requires k != 0
    ensures var s1 := Tag(s, loc, literalLoc, Decimal.DecimalString(k)).0;
      && NewLine(s1, loc).1 == Ok(RowSeparator(Some(k)))
      && NewLine(s1, loc).0.counter == s.counter
  {
    TagSetsNumber(s, loc, literalLoc, k);
    NewLineUsesTag(Tag(s, loc, literalLoc, Decimal.DecimalString(k)).0, loc, k);
  }

  lemma TrimDigits(d: string)
    requires |d| >= 1 && Decimal.AllDigits(d)
    ensures Decimal.Trim(d) == d
  {
    assert !Decimal.IsWhitespace(d[0]) && !Decimal.IsWhitespace(d[|d| - 1]);
  }

  /** `\tag` outside a numbered environment, or with a number that is zero or not a `u16`, is an error. */
  lemma TagErrors(s: RowState, loc: nat, literalLoc: nat, literal: string)
    ensures s.numbered.None? ==>
      Tag(s, loc, literalLoc, literal) == (s, Err(ParseError(loc, CannotBeUsedHere(Tokens.Tag, NumberedEnv))))
    ensures s.numbered.Some? && Decimal.ParseU16(Decimal.Trim(literal)) in {None, Some(0)} ==>
      Tag(s, loc, literalLoc, literal) == (s, Err(ParseError(literalLoc, ExpectedNumber)))
    ensures Tag(s, loc, literalLoc, literal).1.Ok? ==> Tag(s, loc, literalLoc, literal).0.counter == s.counter
  {
  }

  /** In multline, every `\\` counts one more row. */
  lemma NewLineCountsRows(s: RowState, loc: nat)
    requires s.meaningfulNewlines && s.numbered.Some? && s.numbered.value.numRows.Some?
    requires s.numbered.value.numRows.value < U16_MAX
    ensures NewLine(s, loc).0.numbered.Some?
    ensures NewLine(s, loc).0.numbered.value.numRows == Some(s.numbered.value.numRows.value + 1)
  {
  }

  /** The parser state that the rules above update in place. */
  class ParserState {
    var meaningfulNewlines: bool
    var numbered: Option<Environments.NumberingState>
    var counter: u16

    function State(): RowState
      reads this
    {
      RowState(meaningfulNewlines, numbered, counter)
    }

    constructor (s: RowState)
      ensures State() == s
    {
      meaningfulNewlines := s.meaningfulNewlines;
      numbered := s.numbered;
      counter := s.counter;
    }

    /** The `Token::NewLine` arm of `parse_token`. */
    method NewLineToken(loc: nat) returns (r: Result<Node, ParseError>)
      modifies this
      ensures (State(), r) == NewLine(old(State()), loc)
    {
      if !meaningfulNewlines {
        return Ok(Dummy);
      }
      if numbered.None? {
        return Ok(RowSeparator(None));
      }
      var n := numbered.value;
      if n.numRows.Some? {
        var rows := CheckedAddU16(n.numRows.value, 1);
        if rows.None? {
          return Err(ParseError(loc, HardLimitExceeded));
        }
        n := n.(numRows := Some(rows.value));
      }
      var step := Environments.NextNumber(n, counter, false);
      numbered := Some(step.state);
      counter := step.counter;
      match step.result {
        case Ok(num) => r := Ok(RowSeparator(num));
        case Err(_) => r := Err(ParseError(loc, HardLimitExceeded));
      }
    }

    /** The `Token::NoNumber` arm of `parse_token`. */
    method NoNumberToken()
      modifies this
      ensures State() == NoNumber(old(State()))
    {
      if numbered.Some? {
        numbered := Some(numbered.value.(suppressNextNumber := true));
      }
    }

    /** The `Token::Tag` arm of `parse_token`, after the string literal has been read. */
    method TagToken(loc: nat, literalLoc: nat, literal: string) returns (r: Result<Node, ParseError>)
      modifies this
      ensures (State(), r) == Tag(old(State()), loc, literalLoc, literal)
    {
      if numbered.None? {
        return Err(ParseError(loc, CannotBeUsedHere(Tokens.Tag, NumberedEnv)));
      }
      var k := Decimal.ParseU16(Decimal.Trim(literal));
      if k.Some? && k.value != 0 {
        numbered := Some(numbered.value.(customNextNumber := Some(k.value)));
        return Ok(Dummy);
      }
      return Err(ParseError(literalLoc, ExpectedNumber));
    }
  }

  // Ends of environments and sequences

  /**
   * After `\end`, the lexer gives the name of the environment being closed
   * (`Tokens.End(env)` in this model); any other token is an internal
   * error, and a different name is a mismatch.
   */
  function CheckEnd(begin: Environments.Env, endToken: Tokens.Token, endLoc: nat): (r: Result<(), ParseError>)
  {
    if !endToken.End? then Err(ParseError(endLoc, Internal))
    else if endToken.env != begin then Err(ParseError(endLoc, MismatchedEnvironment(begin, endToken.env)))
    else Ok(())
  }

  /** `\end` is accepted exactly when it names the environment that `\begin` opened. */
  lemma CheckEndMatches(begin: Environments.Env, endToken: Tokens.Token, endLoc: nat)
    ensures CheckEnd(begin, endToken, endLoc).Ok? <==> endToken == Tokens.Token.End(begin)
    ensures endToken.End? && endToken.env != begin ==>
      CheckEnd(begin, endToken, endLoc) == Err(ParseError(endLoc, MismatchedEnvironment(begin, endToken.env)))
  {
  }

  /**
   * The end of a `\begin ... \end` block: after the name check, a numbered
   * environment numbers its last row (as the last row), and hands on that
   * number and its row count; a counter at its limit is an error at the
   * `\begin`. Returns the new counter with the outcome.
   */
  function EndEnvironment(begin: Environments.Env, beginLoc: nat, endToken: Tokens.Token, endLoc: nat,
                          numbered: Option<Environments.NumberingState>, counter: u16)
    : (u16, Result<(Option<NonZeroU16>, Option<NonZeroU16>), ParseError>)
  {
    match CheckEnd(begin, endToken, endLoc)
    case Err(e) => (counter, Err(e))
    case Ok(_) =>
      match numbered
      case None => (counter, Ok((None, None)))
      case Some(n) =>
        var step := Environments.NextNumber(n, counter, true);
        match step.result
        case Ok(num) => (step.counter, Ok((num, n.numRows)))
        case Err(_) => (step.counter, Err(ParseError(beginLoc, HardLimitExceeded)))
  }

  /**
   * A mismatched `\end` leaves the counter alone, and an unnumbered
   * environment has no number.
   */
  lemma EndEnvironmentNumbers(begin: Environments.Env, beginLoc: nat, endToken: Tokens.Token, endLoc: nat,
                              numbered: Option<Environments.NumberingState>, counter: u16)
    ensures CheckEnd(begin, endToken, endLoc).Err? ==>
      EndEnvironment(begin, beginLoc, endToken, endLoc, numbered, counter) == (counter, Err(CheckEnd(begin, endToken, endLoc).error))
    ensures endToken == Tokens.Token.End(begin) && numbered.None? ==>
      EndEnvironment(begin, beginLoc, endToken, endLoc, numbered, counter) == (counter, Ok((None, None)))
  {
  }

  /** Multline, which numbers no earlier row, numbers its last one from the counter. */
  lemma EndMultlineNumbersLastRow(begin: Environments.Env, beginLoc: nat, endLoc: nat,
                                  n: Environments.NumberingState, counter: u16)
    requires n.mode == Environments.OnlyLast && !n.suppressNextNumber && n.customNextNumber.None?
    requires counter < U16_MAX
    ensures EndEnvironment(begin, beginLoc, Tokens.Token.End(begin), endLoc, Some(n), counter)
      == (counter + 1, Ok((Some(counter + 1), n.numRows)))
  {
  }

  /** In multline a `\\` numbers nothing and leaves the counter alone, but counts the row. */
  lemma MultlineRowsUnnumbered(s: RowState, loc: nat)
    requires s.meaningfulNewlines && s.numbered.Some? && s.numbered.value.mode == Environments.OnlyLast
    requires s.numbered.value.numRows.Some? && s.numbered.value.numRows.value < U16_MAX
    ensures NewLine(s, loc).1 == Ok(RowSeparator(None))
    ensures NewLine(s, loc).0.counter == s.counter
    ensures NewLine(s, loc).0.numbered == Some(s.numbered.value.(numRows := Some(s.numbered.value.numRows.value + 1)))
  {
  }

  /** `SequenceEnd`: one kind of end token, or any of them. */
  datatype SequenceEnd = EndsAt(kind: Tokens.EndToken) | AnyEndToken

  /**
   * `SequenceEnd::matches`: a token of the same kind, or for
   * `AnyEndToken` the end of input, `}`, `\end` or `\right`.
   */
  predicate SequenceEndMatches(e: SequenceEnd, t: Tokens.Token) {
    match e
    case EndsAt(kind) => Tokens.Matches(kind, t)
    case AnyEndToken => t.Eoi? || t.GroupEnd? || t.End? || t.Right?
  }

  /** `AnyEndToken` accepts exactly what some single end kind other than `]` accepts. */
  lemma AnyEndTokenIsUnion(t: Tokens.Token)
    ensures SequenceEndMatches(AnyEndToken, t) <==>
      exists k: Tokens.EndToken | k != Tokens.EndToken.SquareBracketClose :: SequenceEndMatches(EndsAt(k), t)
  {
    if SequenceEndMatches(AnyEndToken, t) {
      var k := Tokens.ClosedKind(t).value;
      Tokens.MatchesOnlyPairedKind(k, t);
      assert k != Tokens.EndToken.SquareBracketClose && SequenceEndMatches(EndsAt(k), t);
    }
  }
}
