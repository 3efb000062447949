/**
 * LaTeX environments (math-core/src/environments.rs): the name table, the
 * per-environment rules, and the equation-numbering state of numbered
 * environments.
 */
module Environments {
  import opened Wrappers
  import opened Integers

  datatype Env =
    | Array | Subarray | Align | AlignStar | Aligned | Equation | EquationStar
    | Gather | GatherStar | Gathered | MultLine | Cases | Matrix | BMatrix
    | Bmatrix | PMatrix | VMatrix | Vmatrix

  /** The `ENVIRONMENTS` map, as a list of entries. */
  function Table(): seq<(string, Env)> {
    [
      ("array", Array), ("subarray", Subarray), ("align", Align), ("align*", AlignStar),
      ("aligned", Aligned), ("equation", Equation), ("equation*", EquationStar),
      ("gather", Gather), ("gather*", GatherStar), ("gathered", Gathered),
      ("multline", MultLine), ("bmatrix", BMatrix), ("Bmatrix", Bmatrix), ("cases", Cases),
      ("matrix", Matrix), ("pmatrix", PMatrix), ("vmatrix", VMatrix), ("Vmatrix", Vmatrix)
    ]
  }

  /** The value stored under `key`, if any. */
  function Lookup(table: seq<(string, Env)>, key: string): Option<Env> {
    if table == [] then None
    else if table[0].0 == key then Some(table[0].1)
    else Lookup(table[1..], key)
  }

  /** The first key whose value is `e`, or "unknown". */
  function KeyOf(table: seq<(string, Env)>, e: Env): string {
    if table == [] then "unknown"
    else if table[0].1 == e then table[0].0
    else KeyOf(table[1..], e)
  }

  /** `Env::from_str`. */
  function FromStr(s: string): Option<Env> {
    Lookup(Table(), s)
  }

  /** `Env::as_str`: the name of the table entry holding `e`. */
  function AsStr(e: Env): string {
    KeyOf(Table(), e)
  }

  predicate DistinctKeys(table: seq<(string, Env)>) {
    forall i, j | 0 <= i < j < |table| :: table[i].0 != table[j].0
  }

  predicate DistinctValues(table: seq<(string, Env)>) {
    forall i, j | 0 <= i < j < |table| :: table[i].1 != table[j].1
  }

  lemma {:induction false} LookupFindsEntry(table: seq<(string, Env)>, i: nat)
    requires DistinctKeys(table)
    requires i < |table|
    ensures Lookup(table, table[i].0) == Some(table[i].1)
  {
    if i > 0 {
      assert table[0].0 != table[i].0;
      assert table[1..][i - 1] == table[i];
      LookupFindsEntry(table[1..], i - 1);
    }
  }

  lemma {:induction false} KeyOfFindsEntry(table: seq<(string, Env)>, i: nat)
    requires DistinctValues(table)
    requires i < |table|
    ensures KeyOf(table, table[i].1) == table[i].0
  {
    if i > 0 {
      assert table[0].1 != table[i].1;
      assert table[1..][i - 1] == table[i];
      KeyOfFindsEntry(table[1..], i - 1);
    }
  }

  lemma {:induction false} LookupSomeIsEntry(table: seq<(string, Env)>, key: string)
    requires Lookup(table, key).Some?
    ensures exists i :: 0 <= i < |table| && table[i] == (key, Lookup(table, key).value)
  {
    if table[0].0 != key {
      LookupSomeIsEntry(table[1..], key);
      var i :| 0 <= i < |table[1..]| && table[1..][i] == (key, Lookup(table, key).value);
      assert table[i + 1] == table[1..][i];
    } else {
      assert table[0] == (key, Lookup(table, key).value);
    }
  }

  /**
   * A proof device: the table position of a name, told apart by its
   * length and its first and last characters.
   */
  function NameIndex(s: string): int {
    if |s| == 0 then -1
    else
      var n, first, last := |s|, s[0], s[|s| - 1];
      if n == 5 && first == 'a' && last == 'y' then 0
      else if n == 8 && first == 's' then 1
      else if n == 5 && first == 'a' && last == 'n' then 2
      else if n == 6 && first == 'a' then 3
      else if n == 7 && first == 'a' then 4
      else if n == 8 && first == 'e' then 5
      else if n == 9 && first == 'e' then 6
      else if n == 6 && first == 'g' then 7
      else if n == 7 && first == 'g' then 8
      else if n == 8 && first == 'g' then 9
      else if n == 8 && first == 'm' then 10
      else if n == 7 && first == 'b' then 11
      else if n == 7 && first == 'B' then 12
      else if n == 5 && first == 'c' then 13
      else if n == 6 && first == 'm' then 14
      else if n == 7 && first == 'p' then 15
      else if n == 7 && first == 'v' then 16
      else if n == 7 && first == 'V' then 17
      else -1
  }

  lemma TableIsInjective()
    ensures DistinctKeys(Table()) && DistinctValues(Table())
    ensures forall i | 0 <= i < |Table()| :: NameIndex(Table()[i].0) == i
  {
    assert forall i | 0 <= i < |Table()| :: NameIndex(Table()[i].0) == i && IndexOf(Table()[i].1) == i;
  }

  /** The table position of every environment. */
  function IndexOf(e: Env): (i: nat)
    ensures i < |Table()| && Table()[i].1 == e
  {
    match e
    case Array => 0
    case Subarray => 1
    case Align => 2
    case AlignStar => 3
    case Aligned => 4
    case Equation => 5
    case EquationStar => 6
    case Gather => 7
    case GatherStar => 8
    case Gathered => 9
    case MultLine => 10
    case BMatrix => 11
    case Bmatrix => 12
    case Cases => 13
    case Matrix => 14
    case PMatrix => 15
    case VMatrix => 16
    case Vmatrix => 17
  }

  /** Every environment has a name in the table, and the name parses back to it. */
  lemma FromStrAsStr(e: Env)
    ensures AsStr(e) != "unknown"
    ensures FromStr(AsStr(e)) == Some(e)
  {
    TableEntryRoundTrip(IndexOf(e));
  }

  /** The name and the environment of each table entry find each other. */
  lemma TableEntryRoundTrip(i: nat)
    requires i < |Table()|
    ensures KeyOf(Table(), Table()[i].1) == Table()[i].0
    ensures Lookup(Table(), Table()[i].0) == Some(Table()[i].1)
    ensures Table()[i].0 != "unknown"
  {
    TableIsInjective();
    EntryRoundTrip(Table(), i);
    assert NameIndex("unknown") == -1;
  }

  lemma EntryRoundTrip(table: seq<(string, Env)>, i: nat)
    requires DistinctKeys(table) && DistinctValues(table)
    requires i < |table|
    ensures KeyOf(table, table[i].1) == table[i].0
    ensures Lookup(table, KeyOf(table, table[i].1)) == Some(table[i].1)
  {
    KeyOfFindsEntry(table, i);
    LookupFindsEntry(table, i);
  }

  /** Every name that parses is the name `as_str` gives back. */
  lemma AsStrFromStr(s: string)
    requires FromStr(s).Some?
    ensures AsStr(FromStr(s).value) == s
  {
    LookupSomeIsEntry(Table(), s);
    var i :| 0 <= i < |Table()| && Table()[i] == (s, FromStr(s).value);
    TableIsInjective();
    KeyOfFindsEntry(Table(), i);
  }

  predicate NeedsStringLiteral(e: Env) {
    e == Array || e == Subarray
  }

  predicate AllowsColumns(e: Env) {
    !(e in {Equation, EquationStar, Gather, GatherStar, Gathered, MultLine})
  }

  predicate MeaningfulNewlines(e: Env) {
    !(e in {Equation, EquationStar})
  }

  datatype NumberingMode = NoneByDefault | AllByDefault | OnlyLast

  /** The fields of `NumberedEnvState`. */
  datatype NumberingState = NumberingState(
    mode: NumberingMode,
    suppressNextNumber: bool,
    customNextNumber: Option<NonZeroU16>,
    numRows: Option<NonZeroU16>)

  predicate IsNumbered(e: Env) {
    e in {Align, AlignStar, Equation, EquationStar, Gather, GatherStar, MultLine}
  }

  /** `Env::get_numbered_env_state`. */
  function GetNumberedEnvState(e: Env): (r: Option<NumberingState>)
    ensures r.Some? <==> IsNumbered(e)
    ensures r.Some? ==> !r.value.suppressNextNumber && r.value.customNextNumber.None?
    ensures r.Some? ==> (r.value.mode == AllByDefault <==> e in {Align, Equation, Gather})
    ensures r.Some? ==> (r.value.mode == OnlyLast <==> e == MultLine)
    ensures r.Some? ==> (r.value.numRows == Some(1) <==> e == MultLine)
    ensures r.Some? ==> (r.value.numRows.None? <==> e != MultLine)
  {
    if IsNumbered(e) then
      Some(NumberingState(
        if e in {Align, Equation, Gather} then AllByDefault
        else if e == MultLine then OnlyLast
        else NoneByDefault,
        false,
        None,
        if e == MultLine then Some(1) else None))
    else
      None
  }

  /**
   * Equation and gather environments hold a single column, and so does
   * multline; the numbered environments that do allow columns are align
   * and align*.
   */
  lemma NumberedColumns(e: Env)
    requires IsNumbered(e)
    ensures AllowsColumns(e) <==> e in {Align, AlignStar}
    ensures !MeaningfulNewlines(e) ==> GetNumberedEnvState(e).value.numRows.None?
  {
  }

  /** The outcome of one `next_equation_number` call. */
  datatype NumberingStep = NumberingStep(
    state: NumberingState,
    counter: u16,
    result: Result<Option<NonZeroU16>, ()>)

  /** `NumberedEnvState::next_equation_number` as a function of the old state and counter. */
  function NextNumber(s: NumberingState, counter: u16, isLast: bool): NumberingStep {
    if s.mode == OnlyLast && !isLast then
      NumberingStep(s, counter, Ok(None))
    else if s.customNextNumber.Some? then
      NumberingStep(s.(customNextNumber := None), counter, Ok(Some(s.customNextNumber.value)))
    else if s.suppressNextNumber || s.mode == NoneByDefault then
      NumberingStep(s.(suppressNextNumber := false), counter, Ok(None))
    else
      match CheckedAddU16(counter, 1)
      case None => NumberingStep(s, counter, Err(()))
      case Some(c) => NumberingStep(s, c, Ok(Some(c)))
  }

  /** In multline, a row that is not the last one leaves everything unchanged. */
  lemma OnlyLastSkipsEarlyRows(s: NumberingState, counter: u16)
    requires s.mode == OnlyLast
    ensures NextNumber(s, counter, false) == NumberingStep(s, counter, Ok(None))
  {
  }

  /** A pending `\tag` number is returned and consumed, even if the row was suppressed. */
  lemma CustomNumberFirst(s: NumberingState, counter: u16, isLast: bool, n: NonZeroU16)
    requires !(s.mode == OnlyLast && !isLast)
    requires s.customNextNumber == Some(n)
    ensures NextNumber(s, counter, isLast).result == Ok(Some(n))
    ensures NextNumber(s, counter, isLast).state.customNextNumber.None?
    ensures NextNumber(s, counter, isLast).counter == counter
  {
  }

  /** A suppressed row, or any row of an unnumbered mode, gets no number and clears the flag. */
  lemma SuppressedGetsNone(s: NumberingState, counter: u16, isLast: bool)
    requires !(s.mode == OnlyLast && !isLast)
    requires s.customNextNumber.None?
    requires s.suppressNextNumber || s.mode == NoneByDefault
    ensures NextNumber(s, counter, isLast) == NumberingStep(s.(suppressNextNumber := false), counter, Ok(None))
  {
  }

  /** Otherwise the counter goes up by exactly one, and its new value is the number. */
  lemma CounterStep(s: NumberingState, counter: u16, isLast: bool)
    requires !(s.mode == OnlyLast && !isLast)
    requires s.customNextNumber.None? && !s.suppressNextNumber && s.mode != NoneByDefault
    ensures counter < U16_MAX ==> NextNumber(s, counter, isLast) == NumberingStep(s, counter + 1, Ok(Some(counter + 1)))
    ensures counter == U16_MAX ==> NextNumber(s, counter, isLast) == NumberingStep(s, counter, Err(()))
  {
  }

  /** The counter never decreases, rises by at most one, and only when it supplies the number. */
  lemma CounterMonotone(s: NumberingState, counter: u16, isLast: bool)
    ensures var step := NextNumber(s, counter, isLast);
      counter <= step.counter <= counter + 1
      && (step.counter != counter ==> step.result == Ok(Some(step.counter)))
      && (step.result.Err? ==> counter == U16_MAX && step.state == s)
  {
  }

  /** The numbering state of one numbered environment (`NumberedEnvState`). */
  class NumberedEnvState {
    var mode: NumberingMode
    var suppressNextNumber: bool
    var customNextNumber: Option<NonZeroU16>
    var numRows: Option<NonZeroU16>

    function State(): NumberingState
      reads this
    {
      NumberingState(mode, suppressNextNumber, customNextNumber, numRows)
    }

    constructor (s: NumberingState)
      ensures State() == s
    {
      mode := s.mode;
      suppressNextNumber := s.suppressNextNumber;
      customNextNumber := s.customNextNumber;
      numRows := s.numRows;
    }

    /** `next_equation_number`: `counter` is the shared `&mut u16` equation counter. */
    method NextEquationNumber(counter: u16, isLast: bool)
      returns (r: Result<Option<NonZeroU16>, ()>, counter': u16)
      modifies this
      ensures NextNumber(old(State()), counter, isLast) == NumberingStep(State(), counter', r)
    {
      counter' := counter;
      if mode == OnlyLast && !isLast {
        return Ok(None), counter';
      }
      if customNextNumber.Some? {
        var n := customNextNumber.value;
        customNextNumber := None;
        return Ok(Some(n)), counter';
      } else if suppressNextNumber || mode == NoneByDefault {
        suppressNextNumber := false;
        return Ok(None), counter';
      }
      var next := CheckedAddU16(counter, 1);
      if next.None? {
        return Err(()), counter';
      }
      counter' := next.value;
      return Ok(Some(counter')), counter';
    }
  }
}
