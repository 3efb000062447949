/**
 * The token queue (crates/math-core/src/token_queue.rs): a double-ended
 * queue of tokens in front of the lexer, with the index of the next token
 * that is not whitespace, so that the parser can peek past whitespace.
 *
 * The operations are first given as functions over an abstract state
 * (`QueueState`: the queue, `next_non_whitespace` and the lexer state), and
 * the `TokenQueue` class implements them as the source does, over a real
 * `Lexer` object.
 */
module TokenQueue {
  import opened Wrappers
  import opened Tokens
  import opened LexerSpec
  import Lexer

  /** The stand-in returned when nothing is left to read: `EOI_TOK`. */
  const EOI_TOK: TokSpan := TokSpan(Token.Eoi, Span(0, 0))

  /** Which tokens `load_token` skips over. */
  datatype SkipMode = SkipWhitespace | NoClass

  predicate IsNotWhitespace(t: TokSpan) {
    !t.token.Whitespace?
  }

  /** `has_class`: whitespace, explicit spaces and `\not` have no character class. */
  predicate HasClass(t: TokSpan) {
    !(t.token.Whitespace? || t.token.Space? || t.token.Not?)
  }

  predicate NotSkipped(mode: SkipMode, t: TokSpan) {
    match mode
    case SkipWhitespace => IsNotWhitespace(t)
    case NoClass => HasClass(t)
  }

  /** `find_next_non_whitespace`: the position of the first token that is not whitespace. */
  function FirstNonWhitespace(q: seq<TokSpan>): (r: Option<nat>)
    ensures r.Some? ==> r.value < |q| && IsNotWhitespace(q[r.value])
                        && forall k | 0 <= k < r.value :: !IsNotWhitespace(q[k])
    ensures r.None? ==> forall k | 0 <= k < |q| :: !IsNotWhitespace(q[k])
  {
    if q == [] then None
    else if IsNotWhitespace(q[0]) then Some(0)
    else match FirstNonWhitespace(q[1..])
      case Some(i) => Some(i + 1)
      case None => None
  }

  /** The tokens that are not an end of input. */
  function NonEoiCount(q: seq<TokSpan>): nat {
    if q == [] then 0 else (if q[0].token.Eoi? then 0 else 1) + NonEoiCount(q[1..])
  }

  lemma {:induction false} NonEoiCountAppend(a: seq<TokSpan>, b: seq<TokSpan>)
    ensures NonEoiCount(a + b) == NonEoiCount(a) + NonEoiCount(b)
  {
    if a != [] {
      assert (a + b)[0] == a[0] && (a + b)[1..] == a[1..] + b;
      NonEoiCountAppend(a[1..], b);
    } else {
      assert a + b == b;
    }
  }

  /** The queue after one `load_token` call, the error that stopped it, and the lexer state after it. */
  datatype Loaded = Loaded(queue: seq<TokSpan>, err: Option<LatexError>, st: LexState)

  /**
   * `load_token`: reads tokens until one that is not skipped, pushing each
   * onto the back of `q`. Only an end of input can be read without
   * consuming input, and it is never skipped, so the lexer advances at
   * least as far as the number of other tokens pushed.
   */
  function Load(src: TokenSource, st: LexState, mode: SkipMode, q: seq<TokSpan>): (res: Loaded)
    requires Advancing(src) && st.cur <= src.end
    ensures st.cur <= res.st.cur <= src.end
    ensures |q| <= |res.queue| && res.queue[..|q|] == q
    ensures NonEoiCount(res.queue) <= NonEoiCount(q) + (res.st.cur - st.cur)
    ensures res.err.None? ==>
      |res.queue| > |q| && NotSkipped(mode, res.queue[|res.queue| - 1])
      && forall k | |q| <= k < |res.queue| - 1 :: !NotSkipped(mode, res.queue[k])
    ensures res.err.Some? ==> forall k | |q| <= k < |res.queue| :: !NotSkipped(mode, res.queue[k])
    decreases src.end - st.cur
  {
    var (r, st1) := src.next(st);
    if r.Err? then Loaded(q, Some(r.error), st1)
    else
      NonEoiCountAppend(q, [r.value]);
      if NotSkipped(mode, r.value) then Loaded(q + [r.value], None, st1)
      else
        var res := Load(src, st1, mode, q + [r.value]);
        assert res.queue[..|q|] == (q + [r.value])[..|q|];
        res
  }

  /** An end-of-input token is never skipped, whatever the mode. */
  lemma EoiIsNeverSkipped(mode: SkipMode, t: TokSpan)
    requires t.token.Eoi?
    ensures NotSkipped(mode, t)
  {
  }

  /** The queue, `next_non_whitespace` and the state of the lexer behind them. */
  datatype QueueState = QueueState(queue: seq<TokSpan>, nextNonWhitespace: nat, lex: LexState)

  /** The lexer state the queue works with is within its input. */
  ghost predicate WellFormed(src: TokenSource, qs: QueueState) {
    Advancing(src) && qs.lex.cur <= src.end
  }

  /** The input left to the lexer plus the queued tokens that are not an end of input. */
  function Potential(src: TokenSource, qs: QueueState): nat
    requires WellFormed(src, qs)
  {
    src.end - qs.lex.cur + NonEoiCount(qs.queue)
  }

  /**
   * `next_non_whitespace` indexes a token that is not whitespace, and
   * everything before it is whitespace.
   */
  predicate Indexed(q: seq<TokSpan>, n: nat) {
    n < |q| && IsNotWhitespace(q[n]) && forall k | 0 <= k < n :: !IsNotWhitespace(q[k])
  }

  /** As `Indexed`, or one past the end of a queue of whitespace only. */
  predicate IndexedOrPastEnd(q: seq<TokSpan>, n: nat) {
    Indexed(q, n) || (n == |q| && forall k | 0 <= k < |q| :: !IsNotWhitespace(q[k]))
  }

  /** `ensure_next_non_whitespace`. On error, `next_non_whitespace` is left as it was. */
  function EnsureSpec(src: TokenSource, qs: QueueState): (res: (Result<(), LatexError>, QueueState))
    requires WellFormed(src, qs)
  {
    var found := FirstNonWhitespace(qs.queue);
    if |qs.queue| > 0 && found.Some? then
      (Ok(()), qs.(nextNonWhitespace := found.value))
    else
      var l := Load(src, qs.lex, SkipWhitespace, qs.queue);
      if l.err.Some? then (Err(l.err.value), qs.(queue := l.queue, lex := l.st))
      else (Ok(()), QueueState(l.queue, |l.queue| - 1, l.st))
  }

  /**
   * `ensure_next_non_whitespace` keeps the lexer within its input, keeps the
   * queued tokens as a prefix, does not add to what is left to read, and on
   * success indexes a token that is not whitespace.
   */
  lemma EnsureSpecProperties(src: TokenSource, qs: QueueState)
    requires WellFormed(src, qs)
    ensures var res := EnsureSpec(src, qs);
      && WellFormed(src, res.1)
      && Potential(src, res.1) <= Potential(src, qs)
      && (res.0.Ok? ==> Indexed(res.1.queue, res.1.nextNonWhitespace))
      && qs.queue <= res.1.queue
  {
  }

  /** When the queue already holds a token that is not whitespace, `ensure_next_non_whitespace` only indexes it. */
  lemma EnsureFound(src: TokenSource, qs: QueueState, pos: nat)
    requires WellFormed(src, qs) && |qs.queue| > 0 && FirstNonWhitespace(qs.queue) == Some(pos)
    ensures EnsureSpec(src, qs) == (Ok(()), qs.(nextNonWhitespace := pos))
  {
  }

  /** Otherwise it loads tokens up to one that is not whitespace, and indexes that one. */
  lemma EnsureLoads(src: TokenSource, qs: QueueState)
    requires WellFormed(src, qs) && !(|qs.queue| > 0 && FirstNonWhitespace(qs.queue).Some?)
    ensures var l := Load(src, qs.lex, SkipWhitespace, qs.queue);
      EnsureSpec(src, qs) == if l.err.Some? then (Err(l.err.value), qs.(queue := l.queue, lex := l.st))
        else (Ok(()), QueueState(l.queue, |l.queue| - 1, l.st))
  {
  }

  /** `peek`. */
  function PeekSpec(qs: QueueState): TokSpan {
    if qs.nextNonWhitespace < |qs.queue| then qs.queue[qs.nextNonWhitespace] else EOI_TOK
  }

  /** `next`: drop the whitespace before `next_non_whitespace`, then pop the token there. */
  function NextSpec(src: TokenSource, qs: QueueState): (res: (Result<TokSpan, LatexError>, QueueState))
    requires WellFormed(src, qs)
    ensures WellFormed(src, res.1)
  {
    var q := if qs.nextNonWhitespace <= |qs.queue| then qs.queue[qs.nextNonWhitespace..] else [];
    if |q| > 0 then
      var (e, qs1) := EnsureSpec(src, qs.(queue := q[1..]));
      (if e.Ok? then Ok(q[0]) else Err(e.error), qs1)
    else
      (Ok(EOI_TOK), qs.(queue := q))
  }

  /** `next_with_whitespace`: pop the front token, whitespace or not. */
  function NextWithWhitespaceSpec(src: TokenSource, qs: QueueState): (res: (Result<TokSpan, LatexError>, QueueState))
    requires WellFormed(src, qs)
    ensures WellFormed(src, res.1)
    ensures res.0.Ok? && !res.0.value.token.Eoi? ==> Potential(src, res.1) < Potential(src, qs)
  {
    if |qs.queue| > 0 then
      var front := qs.queue[0];
      var rest := qs.queue[1..];
      assert qs.queue == [front] + rest;
      NonEoiCountAppend([front], rest);
      if qs.nextNonWhitespace > 0 then
        (Ok(front), qs.(queue := rest, nextNonWhitespace := qs.nextNonWhitespace - 1))
      else
        var (e, qs1) := EnsureSpec(src, qs.(queue := rest));
        (if e.Ok? then Ok(front) else Err(e.error), qs1)
    else
      (Ok(EOI_TOK), qs)
  }

  /** `queue_in_front`: the tokens go in front, in their order, and the index is recomputed. */
  function QueueInFrontSpec(qs: QueueState, tokens: seq<TokSpan>): QueueState {
    var q := tokens + qs.queue;
    qs.(queue := q,
        nextNonWhitespace := match FirstNonWhitespace(q) case Some(p) => p case None => |q|)
  }

  /**
   * What `read_group` leaves: its result, the token vector it appends to,
   * the token that stopped it (the closing `}` or the end of input; none
   * after a lexer error), and the final state.
   */
  datatype GroupRead = GroupRead(result: Result<nat, LatexError>, tokens: seq<TokSpan>,
                                 last: Option<TokSpan>, qs: QueueState)

  /** `read_group` at brace nesting `nesting` (0 when called), appending to `tokens`. */
  function ReadGroupSpec(src: TokenSource, qs: QueueState, nesting: nat, tokens: seq<TokSpan>): (g: GroupRead)
    requires WellFormed(src, qs)
    ensures WellFormed(src, g.qs)
    decreases Potential(src, qs)
  {
    var (r, qs1) := NextWithWhitespaceSpec(src, qs);
    if r.Err? then GroupRead(Err(r.error), tokens, None, qs1)
    else
      var t := r.value;
      if t.token.GroupBegin? then ReadGroupSpec(src, qs1, nesting + 1, tokens + [t])
      else if t.token.GroupEnd? then
        if nesting == 0 then GroupRead(Ok(t.span.end), tokens, Some(t), qs1)
        else ReadGroupSpec(src, qs1, nesting - 1, tokens + [t])
      else if t.token.Eoi? then GroupRead(Err(LatexError(t.span, UnclosedGroup(GroupClose))), tokens, Some(t), qs1)
      else ReadGroupSpec(src, qs1, nesting, tokens + [t])
  }

  /** The change in brace nesting a token makes. */
  function Delta(t: TokSpan): int {
    if t.token.GroupBegin? then 1 else if t.token.GroupEnd? then -1 else 0
  }

  /** The nesting after the tokens, from nesting `n`. */
  function Depth(ts: seq<TokSpan>, n: int): int {
    if ts == [] then n else Depth(ts[1..], n + Delta(ts[0]))
  }

  /** From nesting `n`, no prefix of the tokens closes more groups than are open. */
  predicate NeverBelowZero(ts: seq<TokSpan>, n: int) {
    n >= 0 && (ts != [] ==> NeverBelowZero(ts[1..], n + Delta(ts[0])))
  }

  /** The front token of the queue, popped by `next_with_whitespace`. */
  lemma NextWithWhitespacePopsFront(src: TokenSource, qs: QueueState)
    requires WellFormed(src, qs) && |qs.queue| > 0
    ensures var (r, qs1) := NextWithWhitespaceSpec(src, qs);
      (r.Ok? ==> r.value == qs.queue[0])
      && qs.queue[1..] <= qs1.queue
      && (qs.nextNonWhitespace > 0 ==> qs1 == qs.(queue := qs.queue[1..], nextNonWhitespace := qs.nextNonWhitespace - 1))
      && (r.Ok? && Indexed(qs.queue, qs.nextNonWhitespace) ==> Indexed(qs1.queue, qs1.nextNonWhitespace))
  {
  }

  /** `peek` is the first token that is not whitespace, or `EOI_TOK` past the end. */
  lemma PeekIsFirstNonWhitespace(qs: QueueState)
    requires IndexedOrPastEnd(qs.queue, qs.nextNonWhitespace)
    ensures FirstNonWhitespace(qs.queue).Some? ==>
      PeekSpec(qs) == qs.queue[FirstNonWhitespace(qs.queue).value] && IsNotWhitespace(PeekSpec(qs))
    ensures FirstNonWhitespace(qs.queue).None? ==> PeekSpec(qs) == EOI_TOK
  {
  }

  /**
   * `next` returns what `peek` showed, drops the whitespace before it, keeps
   * the rest of the queue in order, and re-establishes the index.
   */
  lemma NextReturnsPeek(src: TokenSource, qs: QueueState)
    requires WellFormed(src, qs) && Indexed(qs.queue, qs.nextNonWhitespace)
    ensures var (r, qs1) := NextSpec(src, qs);
      (r.Ok? ==> r.value == PeekSpec(qs) && Indexed(qs1.queue, qs1.nextNonWhitespace))
      && qs.queue[qs.nextNonWhitespace + 1..] <= qs1.queue
  {
  }

  /** After `queue_in_front` the queue is the tokens, then the old queue, and the index is right. */
  lemma QueueInFrontOrder(qs: QueueState, tokens: seq<TokSpan>)
    ensures var qs1 := QueueInFrontSpec(qs, tokens);
      qs1.queue == tokens + qs.queue
      && qs1.lex == qs.lex
      && IndexedOrPastEnd(qs1.queue, qs1.nextNonWhitespace)
      && (Indexed(qs.queue, qs.nextNonWhitespace) ==> Indexed(qs1.queue, qs1.nextNonWhitespace))
  {
    var q := tokens + qs.queue;
    if Indexed(qs.queue, qs.nextNonWhitespace) {
      assert q[|tokens| + qs.nextNonWhitespace] == qs.queue[qs.nextNonWhitespace];
    }
  }

  /** A token that neither closes the group nor ends the input is appended, and reading goes on. */
  lemma ReadGroupContinues(src: TokenSource, qs: QueueState, nesting: nat, acc: seq<TokSpan>,
                           t: TokSpan, qs1: QueueState, n1: nat)
    requires WellFormed(src, qs) && NextWithWhitespaceSpec(src, qs) == (Ok(t), qs1)
    requires !t.token.Eoi? && !(t.token.GroupEnd? && nesting == 0)
    requires n1 == nesting + Delta(t)
    ensures ReadGroupSpec(src, qs, nesting, acc) == ReadGroupSpec(src, qs1, n1, acc + [t])
  {
  }

  /**
   * `read_group` stops at the `}` that closes the group, which it pops but
   * does not append, returning that token's end; meeting the end of input
   * is an unclosed-group error at the end-of-input token.
   */
  lemma {:induction false} ReadGroupStops(src: TokenSource, qs: QueueState, nesting: nat, acc: seq<TokSpan>)
    requires WellFormed(src, qs)
    ensures var g := ReadGroupSpec(src, qs, nesting, acc);
      (g.result.Ok? ==>
         g.last.Some? && g.last.value.token.GroupEnd? && g.result.value == g.last.value.span.end)
      && (g.result.Err? && g.last.Some? ==>
            g.last.value.token.Eoi?
            && g.result.error == LatexError(g.last.value.span, UnclosedGroup(GroupClose)))
    decreases Potential(src, qs)
  {
    var (r, qs1) := NextWithWhitespaceSpec(src, qs);
    if r.Ok? {
      var t := r.value;
      if t.token.GroupBegin? || (t.token.GroupEnd? && nesting > 0) || !(t.token.GroupEnd? || t.token.Eoi?) {
        var n1: nat := nesting + Delta(t);
        ReadGroupStops(src, qs1, n1, acc + [t]);
      }
    }
  }

  /**
   * What `read_group` promises about a token vector that started as `acc`
   * at nesting `nesting`: it keeps what was there and appends tokens that
   * are not an end of input and whose braces never close more groups than
   * are open; when it succeeds they leave every group closed.
   */
  ghost predicate AppendsBalanced(g: GroupRead, acc: seq<TokSpan>, nesting: nat) {
    |acc| <= |g.tokens| && g.tokens[..|acc|] == acc
    && NeverBelowZero(g.tokens[|acc|..], nesting)
    && (forall k | |acc| <= k < |g.tokens| :: !g.tokens[k].token.Eoi?)
    && (g.result.Ok? ==> Depth(g.tokens[|acc|..], nesting) == 0)
  }

  /** `read_group` appends balanced tokens. */
  lemma {:induction false} ReadGroupAppends(src: TokenSource, qs: QueueState, nesting: nat, acc: seq<TokSpan>)
    requires WellFormed(src, qs)
    ensures AppendsBalanced(ReadGroupSpec(src, qs, nesting, acc), acc, nesting)
    decreases Potential(src, qs)
  {
    var g := ReadGroupSpec(src, qs, nesting, acc);
    var more, t, qs1 := ReadGroupStep(src, qs, nesting, acc);
    if more {
      var n1: nat := nesting + Delta(t);
      ReadGroupAppends(src, qs1, n1, acc + [t]);
      assert g == ReadGroupSpec(src, qs1, n1, acc + [t]);
      AppendsBalancedCons(g, acc, t, nesting);
    } else {
      assert g.tokens[|acc|..] == [];
    }
  }

  /** A token `read_group` goes on after, followed by balanced tokens, is balanced tokens. */
  lemma AppendsBalancedCons(g: GroupRead, acc: seq<TokSpan>, t: TokSpan, nesting: nat)
    requires Continues(t, nesting) && nesting + Delta(t) >= 0
    requires AppendsBalanced(g, acc + [t], nesting + Delta(t))
    ensures AppendsBalanced(g, acc, nesting)
  {
    AppendedAfter(g.tokens, acc, t);
    BalanceCons(t, g.tokens[|acc| + 1..], nesting);
  }

  /** Whether `read_group` pushes `t` and goes on, at brace nesting `nesting`. */
  predicate Continues(t: TokSpan, nesting: nat) {
    t.token.GroupBegin? || (t.token.GroupEnd? && nesting > 0) || !(t.token.GroupEnd? || t.token.Eoi?)
  }

  /** One step of `read_group`: a token it goes on after is appended, and otherwise nothing is. */
  lemma ReadGroupStep(src: TokenSource, qs: QueueState, nesting: nat, acc: seq<TokSpan>)
      returns (more: bool, t: TokSpan, qs1: QueueState)
    requires WellFormed(src, qs)
    ensures more ==>
      && WellFormed(src, qs1) && Continues(t, nesting) && nesting + Delta(t) >= 0
      && Potential(src, qs1) < Potential(src, qs)
      && ReadGroupSpec(src, qs, nesting, acc) == ReadGroupSpec(src, qs1, nesting + Delta(t), acc + [t])
    ensures !more ==>
      ReadGroupSpec(src, qs, nesting, acc).tokens == acc
      && (ReadGroupSpec(src, qs, nesting, acc).result.Ok? ==> nesting == 0)
  {
    var next := NextWithWhitespaceSpec(src, qs);
    more := next.0.Ok? && Continues(next.0.value, nesting);
    t := if next.0.Ok? then next.0.value else EOI_TOK;
    qs1 := next.1;
    if !more {
      ReadGroupHalts(src, qs, nesting, acc);
    }
  }

  /** When `read_group` does not go on after the next token, it appends nothing more. */
  lemma ReadGroupHalts(src: TokenSource, qs: QueueState, nesting: nat, acc: seq<TokSpan>)
    requires WellFormed(src, qs)
    requires var r := NextWithWhitespaceSpec(src, qs).0; !(r.Ok? && Continues(r.value, nesting))
    ensures ReadGroupSpec(src, qs, nesting, acc).tokens == acc
    ensures ReadGroupSpec(src, qs, nesting, acc).result.Ok? ==> nesting == 0
  {
  }

  /** The nesting after a token and the rest is the nesting after the rest, from the token's own. */
  lemma BalanceCons(t: TokSpan, rest: seq<TokSpan>, n: int)
    ensures Depth([t] + rest, n) == Depth(rest, n + Delta(t))
    ensures NeverBelowZero([t] + rest, n) == (n >= 0 && NeverBelowZero(rest, n + Delta(t)))
  {
    assert ([t] + rest)[1..] == rest;
  }

  /** Tokens that extend `acc + [t]` extend `acc` with `t` then the rest. */
  lemma AppendedAfter(tokens: seq<TokSpan>, acc: seq<TokSpan>, t: TokSpan)
    requires |acc + [t]| <= |tokens| && tokens[..|acc + [t]|] == acc + [t]
    ensures |acc| < |tokens| && tokens[..|acc|] == acc && tokens[|acc|] == t
    ensures tokens[|acc|..] == [t] + tokens[|acc| + 1..]
  {
    assert tokens[..|acc|] == (acc + [t])[..|acc|];
    assert tokens[|acc|] == (acc + [t])[|acc|];
  }

  /** Reading a group from nesting 0 appends tokens whose braces balance. */
  lemma ReadGroupBalanced(src: TokenSource, qs: QueueState)
    requires WellFormed(src, qs)
    ensures var g := ReadGroupSpec(src, qs, 0, []);
      g.result.Ok? ==> NeverBelowZero(g.tokens, 0) && Depth(g.tokens, 0) == 0
  {
    ReadGroupAppends(src, qs, 0, []);
    var g := ReadGroupSpec(src, qs, 0, []);
    assert g.tokens[0..] == g.tokens;
  }

  /**
   * `TokenQueue`: the lexer it owns, the queue, and `next_non_whitespace`.
   * The `lexer_is_eoi` flag of the source is left out: it is only set after
   * a skipped end-of-input token, and an end-of-input token is never
   * skipped (`EoiIsNeverSkipped`), so it stays false.
   */
  class TokenQueue {
    const lexer: Lexer.Lexer
    var queue: seq<TokSpan>
    var nextNonWhitespace: nat

    ghost predicate Valid()
      reads this, lexer
    {
      lexer.Valid()
    }

    function QState(): QueueState
      reads this, lexer
    {
      QueueState(queue, nextNonWhitespace, lexer.State())
    }

    constructor Empty(lexer: Lexer.Lexer)
      ensures this.lexer == lexer && queue == [] && nextNonWhitespace == 0
    {
      this.lexer := lexer;
      queue := [];
      nextNonWhitespace := 0;
    }

    /** `TokenQueue::new`: loads up to the first token that is not whitespace. */
    static method New(lexer: Lexer.Lexer) returns (r: Result<TokenQueue, LatexError>)
      requires lexer.Valid()
      modifies lexer
      ensures lexer.Valid()
      ensures var (e, qs) := EnsureSpec(lexer.source, QueueState([], 0, old(lexer.State())));
        (r.Ok? <==> e.Ok?)
        && (r.Ok? ==> fresh(r.value) && r.value.lexer == lexer && r.value.QState() == qs)
        && (r.Err? ==> r.error == e.error && lexer.State() == qs.lex)
    {
      var tm := new TokenQueue.Empty(lexer);
      var offset := tm.LoadToken(SkipWhitespace);
      if offset.Err? {
        return Err(offset.error);
      }
      tm.nextNonWhitespace := offset.value;
      return Ok(tm);
    }

    /** `load_token`: the number of skipped tokens before the one that is kept. */
    method LoadToken(mode: SkipMode) returns (r: Result<nat, LatexError>)
      requires Valid()
      modifies this, lexer
      ensures Valid()
      ensures var l := Load(lexer.source, old(lexer.State()), mode, old(queue));
        queue == l.queue && lexer.State() == l.st && nextNonWhitespace == old(nextNonWhitespace)
        && r == (if l.err.Some? then Err(l.err.value) else Ok(|l.queue| - |old(queue)| - 1))
    {
      ghost var src := lexer.source;
      ghost var l0 := Load(src, lexer.State(), mode, queue);
      ghost var len0 := |queue|;
      var offset := 0;
      while true
        invariant Valid() && lexer.source == src && nextNonWhitespace == old(nextNonWhitespace)
        invariant Load(src, lexer.State(), mode, queue) == l0
        invariant offset == |queue| - len0
        decreases |lexer.input| - lexer.pos
      {
        var err, kept := LoadNext(mode);
        if err.Some? {
          return Err(err.value);
        }
        if kept {
          return Ok(offset);
        }
        offset := offset + 1;
      }
    }

    /**
     * One round of `load_token`: lexes a token and pushes it, unless the
     * lexer fails; `kept` says whether the token ends the loading.
     */
    method LoadNext(mode: SkipMode) returns (err: Option<LatexError>, kept: bool)
      requires Valid()
      modifies this, lexer
      ensures Valid() && nextNonWhitespace == old(nextNonWhitespace)
      ensures err.Some? ==> queue == old(queue)
      ensures err.None? ==> |queue| == |old(queue)| + 1
      ensures err.None? && !kept ==> lexer.pos > old(lexer.pos)
      ensures var l := Load(lexer.source, old(lexer.State()), mode, old(queue));
        if err.Some? then l == Loaded(queue, err, lexer.State())
        else if kept then l == Loaded(queue, None, lexer.State())
        else l == Load(lexer.source, lexer.State(), mode, queue)
    {
      var tok := lexer.NextToken();
      if tok.Err? {
        return Some(tok.error), false;
      }
      kept := NotSkipped(mode, tok.value);
      queue := queue + [tok.value];
      err := None;
    }

    /** `ensure_next_non_whitespace`. */
    method EnsureNextNonWhitespace() returns (r: Result<(), LatexError>)
      requires Valid()
      modifies this, lexer
      ensures Valid()
      ensures (r, QState()) == EnsureSpec(lexer.source, old(QState()))
    {
      ghost var qs := QState();
      var found := FirstNonWhitespace(queue);
      if |queue| > 0 && found.Some? {
        EnsureFound(lexer.source, qs, found.value);
        nextNonWhitespace := found.value;
        return Ok(());
      }
      EnsureLoads(lexer.source, qs);
      ghost var l := Load(lexer.source, qs.lex, SkipWhitespace, qs.queue);
      var startingLen := |queue|;
      var offset := LoadToken(SkipWhitespace);
      assert queue == l.queue && lexer.State() == l.st;
      if offset.Err? {
        assert QState() == qs.(queue := l.queue, lex := l.st);
        return Err(offset.error);
      }
      assert l.err.None? && offset.value == |l.queue| - startingLen - 1;
      nextNonWhitespace := startingLen + offset.value;
      r := Ok(());
    }

    /** `peek`. */
    function Peek(): (t: TokSpan)
      reads this
      ensures Indexed(queue, nextNonWhitespace) ==> t == queue[nextNonWhitespace] && IsNotWhitespace(t)
      ensures nextNonWhitespace >= |queue| ==> t == EOI_TOK
    {
      if nextNonWhitespace < |queue| then queue[nextNonWhitespace] else EOI_TOK
    }

    /** `next`. */
    method Next() returns (r: Result<TokSpan, LatexError>)
      requires Valid()
      modifies this, lexer
      ensures Valid()
      ensures (r, QState()) == NextSpec(lexer.source, old(QState()))
    {
      for i := 0 to nextNonWhitespace
        invariant Valid() && lexer.State() == old(lexer.State()) && nextNonWhitespace == old(nextNonWhitespace)
        invariant queue == if i <= |old(queue)| then old(queue)[i..] else []
      {
        if |queue| > 0 {
          queue := queue[1..];
        }
      }
      if |queue| > 0 {
        var ret := queue[0];
        queue := queue[1..];
        var e := EnsureNextNonWhitespace();
        if e.Err? {
          return Err(e.error);
        }
        r := Ok(ret);
      } else {
        r := Ok(EOI_TOK);
      }
    }

    /** `next_with_whitespace`. */
    method NextWithWhitespace() returns (r: Result<TokSpan, LatexError>)
      requires Valid()
      modifies this, lexer
      ensures Valid()
      ensures (r, QState()) == NextWithWhitespaceSpec(lexer.source, old(QState()))
    {
      if |queue| > 0 {
        var ret := queue[0];
        queue := queue[1..];
        if nextNonWhitespace > 0 {
          nextNonWhitespace := nextNonWhitespace - 1;
        } else {
          var e := EnsureNextNonWhitespace();
          if e.Err? {
            return Err(e.error);
          }
        }
        r := Ok(ret);
      } else {
        r := Ok(EOI_TOK);
      }
    }

    /** `queue_in_front`: pushes the tokens to the front, last one first. */
    method QueueInFront(tokens: seq<TokSpan>)
      requires Valid()
      modifies this
      ensures Valid()
      ensures QState() == QueueInFrontSpec(old(QState()), tokens)
    {
      var i := |tokens|;
      while i > 0
        invariant 0 <= i <= |tokens|
        invariant queue == tokens[i..] + old(queue)
      {
        i := i - 1;
        queue := [tokens[i]] + queue;
      }
      match FirstNonWhitespace(queue) {
        case Some(pos) => nextNonWhitespace := pos;
        case None => nextNonWhitespace := |queue|;
      }
    }

    /**
     * `read_group`: appends to `tokens` everything up to the `}` that closes
     * the group whose `{` was already read, and returns that `}`'s end.
     */
    method ReadGroup(tokens: seq<TokSpan>) returns (r: Result<nat, LatexError>, tokensOut: seq<TokSpan>)
      requires Valid()
      modifies this, lexer
      ensures Valid()
      ensures var g := ReadGroupSpec(lexer.source, old(QState()), 0, tokens);
        r == g.result && tokensOut == g.tokens && QState() == g.qs
    {
      ghost var src := lexer.source;
      ghost var g0 := ReadGroupSpec(src, QState(), 0, tokens);
      var nestingLevel: nat := 0;
      tokensOut := tokens;
      while true
        invariant Valid() && lexer.source == src
        invariant ReadGroupSpec(src, QState(), nestingLevel, tokensOut) == g0
        decreases Potential(src, QState())
      {
        ghost var before := QState();
        ghost var nestingLevel0 := nestingLevel;
        var tokloc := NextWithWhitespace();
        if tokloc.Err? {
          return Err(tokloc.error), tokensOut;
        }
        var t := tokloc.value;
        if t.token.GroupBegin? {
          nestingLevel := nestingLevel + 1;
        } else if t.token.GroupEnd? {
          if nestingLevel == 0 {
            return Ok(t.span.end), tokensOut;
          }
          nestingLevel := nestingLevel - 1;
        } else if t.token.Eoi? {
          return Err(LatexError(t.span, UnclosedGroup(GroupClose))), tokensOut;
        }
        ReadGroupContinues(src, before, nestingLevel0, tokensOut, t, QState(), nestingLevel);
        tokensOut := tokensOut + [t];
      }
    }
  }
}
