/**
 * The column specification of an `array` environment
 * (`parse_column_specification`, math-core/src/latex_parser/specifications.rs):
 * `l`, `c` and `r` add a content column, `|` and `:` a solid or dashed line,
 * ASCII whitespace is skipped, and anything else makes the specification
 * invalid.
 */
module Specifications {
  import opened Wrappers
  import opened Seqs
  import opened Table

  /** `u8::is_ascii_whitespace`: space, tab, line feed, form feed and carriage return. */
  predicate IsAsciiWhitespace(c: char) {
    c == ' ' || c == '\t' || c == '\n' || c == '\U{C}' || c == '\r'
  }

  predicate IsAlignmentChar(c: char) {
    c == 'l' || c == 'c' || c == 'r'
  }

  predicate IsLineChar(c: char) {
    c == '|' || c == ':'
  }

  /** The characters a column specification may hold. */
  predicate IsSpecChar(c: char) {
    IsAlignmentChar(c) || IsLineChar(c) || IsAsciiWhitespace(c)
  }

  function AlignmentOf(c: char): ColumnAlignment
    requires IsAlignmentChar(c)
  {
    if c == 'l' then LeftJustified else if c == 'c' then Centered else RightJustified
  }

  function LineTypeOf(c: char): LineType
    requires IsLineChar(c)
  {
    if c == '|' then Solid else Dashed
  }

  /** The local variables of the loop: the columns so far, the leading line, and whether a content column was seen. */
  datatype ScanState = ScanState(columnSpec: seq<ColumnSpec>, beginningLine: Option<LineType>, hasContentColumn: bool)

  function InitialScan(): ScanState {
    ScanState([], None, false)
  }

  /**
   * One character: an alignment adds a content column; a line goes to the
   * last column if that is a content column without a line, and is a column
   * of its own otherwise, except that the first line before any column is
   * the leading line; whitespace changes nothing; any other character fails.
   */
  function ScanChar(st: ScanState, c: char): Option<ScanState> {
    var cs := st.columnSpec;
    if IsAlignmentChar(c) then
      Some(st.(columnSpec := cs + [WithContent(AlignmentOf(c), None)], hasContentColumn := true))
    else if IsLineChar(c) then
      var line := LineTypeOf(c);
      if cs != [] then
        if cs[|cs| - 1].WithContent? && cs[|cs| - 1].line.None? then
          Some(st.(columnSpec := cs[..|cs| - 1] + [WithContent(cs[|cs| - 1].alignment, Some(line))]))
        else
          Some(st.(columnSpec := cs + [OnlyLine(line)]))
      else if st.beginningLine.None? then
        Some(st.(beginningLine := Some(line)))
      else
        Some(st.(columnSpec := cs + [OnlyLine(line)]))
    else if IsAsciiWhitespace(c) then Some(st)
    else None
  }

  /** The loop over all characters, from the first to the last. */
  function Scan(s: string): Option<ScanState> {
    if s == [] then Some(InitialScan())
    else match Scan(s[..|s| - 1])
      case None => None
      case Some(st) => ScanChar(st, s[|s| - 1])
  }

  /** `parse_column_specification`: no columns at all, or none with content, is no specification. */
  function ColumnSpecOf(s: string): Option<ArraySpec> {
    match Scan(s)
    case None => None
    case Some(st) =>
      if st.columnSpec == [] || !st.hasContentColumn then None
      else Some(ArraySpec(st.beginningLine, false, st.columnSpec))
  }

  /** `parse_column_specification`, one character at a time, stopping at the first invalid one. */
  method ParseColumnSpecification(s: string) returns (r: Option<ArraySpec>)
    ensures r == ColumnSpecOf(s)
  {
    var columnSpec: seq<ColumnSpec> := [];
    var beginningLine: Option<LineType> := None;
    var hasContentColumn := false;
    for i := 0 to |s|
      invariant Scan(s[..i]) == Some(ScanState(columnSpec, beginningLine, hasContentColumn))
    {
      var ch := s[i];
      assert s[..i + 1][..i] == s[..i];
      if ch == 'l' || ch == 'c' || ch == 'r' {
        var alignment := if ch == 'l' then LeftJustified else if ch == 'c' then Centered else RightJustified;
        columnSpec := columnSpec + [WithContent(alignment, None)];
        hasContentColumn := true;
      } else if ch == '|' || ch == ':' {
        var lineType := if ch == '|' then Solid else Dashed;
        if columnSpec != [] {
          var last := columnSpec[|columnSpec| - 1];
          if last.WithContent? && last.line.None? {
            columnSpec := columnSpec[..|columnSpec| - 1] + [WithContent(last.alignment, Some(lineType))];
          } else {
            columnSpec := columnSpec + [OnlyLine(lineType)];
          }
        } else if beginningLine.None? {
          beginningLine := Some(lineType);
        } else {
          columnSpec := columnSpec + [OnlyLine(lineType)];
        }
      } else if IsAsciiWhitespace(ch) {
      } else {
        ScanFailureSticks(s, i + 1);
        return None;
      }
    }
    assert s[..|s|] == s;
    if columnSpec == [] || !hasContentColumn {
      return None;
    }
    return Some(ArraySpec(beginningLine, false, columnSpec));
  }

  /** Once a prefix has failed, every longer prefix fails. */
  lemma {:induction false} ScanFailureSticks(s: string, i: nat)
    requires i <= |s| && Scan(s[..i]).None?
    ensures Scan(s).None?
    decreases |s| - i
  {
    if i < |s| {
      assert s[..i + 1][..i] == s[..i];
      ScanFailureSticks(s, i + 1);
    } else {
      assert s[..i] == s;
    }
  }

  /** Scanning one more character is one more step. */
  lemma ScanSnoc(t: string, c: char)
    ensures Scan(t + [c]) == (match Scan(t) case None => None case Some(st) => ScanChar(st, c))
  {
    assert (t + [c])[..|t|] == t;
  }

  /** A specification is accepted by the scan exactly when every character is allowed. */
  lemma {:induction false} ScanSucceedsIffValid(s: string)
    ensures Scan(s).Some? <==> forall i | 0 <= i < |s| :: IsSpecChar(s[i])
  {
    if s != [] {
      var p := s[..|s| - 1];
      ScanSucceedsIffValid(p);
      assert forall i | 0 <= i < |p| :: p[i] == s[i];
    }
  }

  /** Any character other than `l`, `c`, `r`, `|`, `:` and ASCII whitespace makes the specification invalid. */
  lemma InvalidCharRejected(s: string, i: nat)
    requires i < |s| && !IsSpecChar(s[i])
    ensures ColumnSpecOf(s).None?
  {
    ScanSucceedsIffValid(s);
  }

  function CountAlignmentChars(s: string): nat {
    if s == [] then 0 else CountAlignmentChars(s[..|s| - 1]) + (if IsAlignmentChar(s[|s| - 1]) then 1 else 0)
  }

  function CountLineChars(s: string): nat {
    if s == [] then 0 else CountLineChars(s[..|s| - 1]) + (if IsLineChar(s[|s| - 1]) then 1 else 0)
  }

  function ContentColumns(cs: seq<ColumnSpec>): nat {
    if cs == [] then 0 else ContentColumns(cs[..|cs| - 1]) + (if cs[|cs| - 1].WithContent? then 1 else 0)
  }

  /** The lines a column list draws: one per line entry and one per content column with a line. */
  function LinesDrawn(cs: seq<ColumnSpec>): nat {
    if cs == [] then 0
    else LinesDrawn(cs[..|cs| - 1]) + (if cs[|cs| - 1].OnlyLine? || cs[|cs| - 1].line.Some? then 1 else 0)
  }

  function OptionCount<T>(o: Option<T>): nat {
    if o.Some? then 1 else 0
  }

  lemma ColumnCountsSnoc(cs: seq<ColumnSpec>, e: ColumnSpec)
    ensures ContentColumns(cs + [e]) == ContentColumns(cs) + (if e.WithContent? then 1 else 0)
    ensures LinesDrawn(cs + [e]) == LinesDrawn(cs) + (if e.OnlyLine? || e.line.Some? then 1 else 0)
  {
    assert (cs + [e])[..|cs|] == cs;
  }

  /** Giving the last content column its line adds one line and no column. */
  lemma ColumnCountsSetLine(cs: seq<ColumnSpec>, line: LineType)
    requires cs != [] && cs[|cs| - 1].WithContent? && cs[|cs| - 1].line.None?
    ensures var cs' := cs[..|cs| - 1] + [WithContent(cs[|cs| - 1].alignment, Some(line))];
      ContentColumns(cs') == ContentColumns(cs) && LinesDrawn(cs') == LinesDrawn(cs) + 1
  {
    ColumnCountsSnoc(cs[..|cs| - 1], WithContent(cs[|cs| - 1].alignment, Some(line)));
  }

  /**
   * Every character of an accepted specification is accounted for: there
   * are as many content columns as alignment characters, and as many lines
   * (the leading one included) as line characters.
   */
  lemma {:induction false} ScanCounts(s: string)
    requires Scan(s).Some?
    ensures var st := Scan(s).value;
      && ContentColumns(st.columnSpec) == CountAlignmentChars(s)
      && OptionCount(st.beginningLine) + LinesDrawn(st.columnSpec) == CountLineChars(s)
      && (st.hasContentColumn <==> CountAlignmentChars(s) > 0)
  {
    if s != [] {
      var p, c := s[..|s| - 1], s[|s| - 1];
      ScanCounts(p);
      var st := Scan(p).value;
      var cs := st.columnSpec;
      if IsAlignmentChar(c) {
        ColumnCountsSnoc(cs, WithContent(AlignmentOf(c), None));
      } else if IsLineChar(c) {
        if cs != [] && cs[|cs| - 1].WithContent? && cs[|cs| - 1].line.None? {
          ColumnCountsSetLine(cs, LineTypeOf(c));
        } else if cs != [] || st.beginningLine.Some? {
          ColumnCountsSnoc(cs, OnlyLine(LineTypeOf(c)));
        }
      }
    }
  }

  /** The empty specification, and one without `l`, `c` or `r`, is no specification. */
  lemma NoContentRejected(s: string)
    requires CountAlignmentChars(s) == 0
    ensures ColumnSpecOf(s).None?
  {
    if Scan(s).Some? {
      ScanCounts(s);
    }
  }

  /** An accepted specification has one content column per `l`, `c` and `r`. */
  lemma AcceptedCounts(s: string)
    requires ColumnSpecOf(s).Some?
    ensures ContentColumns(ColumnSpecOf(s).value.columnSpec) == CountAlignmentChars(s) > 0
    ensures OptionCount(ColumnSpecOf(s).value.beginningLine) + LinesDrawn(ColumnSpecOf(s).value.columnSpec) == CountLineChars(s)
    ensures !ColumnSpecOf(s).value.isSub
  {
    ScanCounts(s);
  }

  // Writing a specification back

  function AlignmentChar(a: ColumnAlignment): char {
    match a
    case LeftJustified => 'l'
    case Centered => 'c'
    case RightJustified => 'r'
  }

  function LineChar(l: LineType): char {
    match l
    case Solid => '|'
    case Dashed => ':'
  }

  function EntryText(e: ColumnSpec): string {
    match e
    case WithContent(a, line) => [AlignmentChar(a)] + (if line.Some? then [LineChar(line.value)] else [])
    case OnlyLine(l) => [LineChar(l)]
  }

  function ColumnsText(cs: seq<ColumnSpec>): string {
    if cs == [] then [] else ColumnsText(cs[..|cs| - 1]) + EntryText(cs[|cs| - 1])
  }

  /** The shortest specification text of an array specification. */
  function SpecText(a: ArraySpec): string {
    LeadText(a.beginningLine) + ColumnsText(a.columnSpec)
  }

  /**
   * No line entry sits where scanning would have merged its line into the
   * content column before it, or taken it as the leading line.
   */
  predicate LinesSeparate(beginningLine: Option<LineType>, cs: seq<ColumnSpec>) {
    && (cs != [] && cs[0].OnlyLine? ==> beginningLine.Some?)
    && forall i | 1 <= i < |cs| && cs[i].OnlyLine? :: !Mergeable(cs[i - 1])
  }

  /** A content column without a line, which takes the next line given. */
  predicate Mergeable(e: ColumnSpec) {
    e.WithContent? && e.line.None?
  }

  /** A specification that parsing can produce: not a subarray, with some content column, and lines kept apart. */
  predicate Producible(a: ArraySpec) {
    !a.isSub && ContentColumns(a.columnSpec) > 0 && LinesSeparate(a.beginningLine, a.columnSpec)
  }

  function LeadText(beginningLine: Option<LineType>): string {
    if beginningLine.Some? then [LineChar(beginningLine.value)] else []
  }

  /** Scanning the text of one more entry appends that entry. */
  lemma ScanEntry(t: string, st: ScanState, e: ColumnSpec)
    requires Scan(t) == Some(st)
    requires e.OnlyLine? ==>
      (if st.columnSpec == [] then st.beginningLine.Some? else !Mergeable(st.columnSpec[|st.columnSpec| - 1]))
    ensures Scan(t + EntryText(e)) == Some(st.(columnSpec := st.columnSpec + [e], hasContentColumn := st.hasContentColumn || e.WithContent?))
  {
    match e
    case OnlyLine(l) =>
      ScanLineEntry(t, st, l);
    case WithContent(al, line) =>
      ScanContentEntry(t, st, al, line);
  }

  /** Scanning a line that is not merged appends a line entry. */
  lemma ScanLineEntry(t: string, st: ScanState, l: LineType)
    requires Scan(t) == Some(st)
    requires if st.columnSpec == [] then st.beginningLine.Some? else !Mergeable(st.columnSpec[|st.columnSpec| - 1])
    ensures Scan(t + [LineChar(l)]) == Some(st.(columnSpec := st.columnSpec + [OnlyLine(l)]))
  {
    ScanSnoc(t, LineChar(l));
    assert LineTypeOf(LineChar(l)) == l;
  }

  /** Scanning an alignment, and the line after it if any, appends a content column with that line. */
  lemma ScanContentEntry(t: string, st: ScanState, al: ColumnAlignment, line: Option<LineType>)
    requires Scan(t) == Some(st)
    ensures Scan(t + EntryText(WithContent(al, line)))
      == Some(st.(columnSpec := st.columnSpec + [WithContent(al, line)], hasContentColumn := true))
  {
    var c := AlignmentChar(al);
    ScanAlignment(t, st, al);
    var st1 := st.(columnSpec := st.columnSpec + [WithContent(al, None)], hasContentColumn := true);
    if line.Some? {
      ScanMergedLine(t + [c], st1, al, line.value);
      assert st1.columnSpec[..|st1.columnSpec| - 1] == st.columnSpec;
      assert t + [c] + [LineChar(line.value)] == t + EntryText(WithContent(al, line));
    } else {
      assert t + [c] == t + EntryText(WithContent(al, line));
    }
  }

  /** Scanning an alignment appends a content column without a line. */
  lemma ScanAlignment(t: string, st: ScanState, al: ColumnAlignment)
    requires Scan(t) == Some(st)
    ensures Scan(t + [AlignmentChar(al)])
      == Some(st.(columnSpec := st.columnSpec + [WithContent(al, None)], hasContentColumn := true))
  {
    ScanSnoc(t, AlignmentChar(al));
    assert AlignmentOf(AlignmentChar(al)) == al;
  }

  /** Scanning a line right after a content column without a line gives that column the line. */
  lemma ScanMergedLine(t: string, st: ScanState, al: ColumnAlignment, l: LineType)
    requires Scan(t) == Some(st) && st.columnSpec != [] && st.columnSpec[|st.columnSpec| - 1] == WithContent(al, None)
    ensures Scan(t + [LineChar(l)])
      == Some(st.(columnSpec := st.columnSpec[..|st.columnSpec| - 1] + [WithContent(al, Some(l))]))
  {
    ScanSnoc(t, LineChar(l));
    assert LineTypeOf(LineChar(l)) == l;
  }

  /** The text of columns whose lines are kept apart scans back to those columns. */
  lemma {:induction false} ScanColumns(bl: Option<LineType>, cs: seq<ColumnSpec>)
    requires LinesSeparate(bl, cs)
    ensures Scan(LeadText(bl) + ColumnsText(cs)) == Some(ScanState(cs, bl, ContentColumns(cs) > 0))
  {
    if cs == [] {
      if bl.Some? {
        ScanSnoc([], LineChar(bl.value));
        assert LeadText(bl) + ColumnsText(cs) == [] + [LineChar(bl.value)];
      } else {
        assert LeadText(bl) + ColumnsText(cs) == [];
      }
    } else {
      var p, e := cs[..|cs| - 1], cs[|cs| - 1];
      SeparatePrefix(bl, cs);
      ScanColumns(bl, p);
      ScanEntry(LeadText(bl) + ColumnsText(p), ScanState(p, bl, ContentColumns(p) > 0), e);
      ColumnsTextLast(bl, cs);
      ContentColumnsLast(cs);
      LastSplit(cs);
    }
  }

  /** The text of all columns is the text of all but the last, then the last entry's. */
  lemma ColumnsTextLast(bl: Option<LineType>, cs: seq<ColumnSpec>)
    requires cs != []
    ensures LeadText(bl) + ColumnsText(cs) == LeadText(bl) + ColumnsText(cs[..|cs| - 1]) + EntryText(cs[|cs| - 1])
  {
    AppendAssoc(LeadText(bl), ColumnsText(cs[..|cs| - 1]), EntryText(cs[|cs| - 1]));
  }

  /** There is a content column when there is one before the last entry, or the last entry is one. */
  lemma ContentColumnsLast(cs: seq<ColumnSpec>)
    requires cs != []
    ensures (ContentColumns(cs[..|cs| - 1]) > 0 || cs[|cs| - 1].WithContent?) == (ContentColumns(cs) > 0)
  {
  }

  /** A non-empty sequence is all but its last element, then that element. */
  lemma LastSplit<T>(s: seq<T>)
    requires s != []
    ensures s[..|s| - 1] + [s[|s| - 1]] == s
  {
  }

  /** Dropping the last entry keeps lines apart. */
  lemma SeparatePrefix(bl: Option<LineType>, cs: seq<ColumnSpec>)
    requires LinesSeparate(bl, cs) && cs != []
    ensures LinesSeparate(bl, cs[..|cs| - 1])
  {
    var p := cs[..|cs| - 1];
    forall i | 1 <= i < |p| && p[i].OnlyLine?
      ensures !Mergeable(p[i - 1])
    {
      assert p[i] == cs[i] && p[i - 1] == cs[i - 1];
    }
  }

  /** Writing a producible specification out and parsing it again gives it back. */
  lemma SpecTextRoundTrip(a: ArraySpec)
    requires Producible(a)
    ensures ColumnSpecOf(SpecText(a)) == Some(a)
  {
    ScanColumns(a.beginningLine, a.columnSpec);
  }

  /** Appending an entry keeps lines apart when the entry is not a line that should have been merged. */
  lemma SeparateSnoc(bl: Option<LineType>, cs: seq<ColumnSpec>, e: ColumnSpec)
    requires LinesSeparate(bl, cs)
    requires e.OnlyLine? ==> (if cs == [] then bl.Some? else !Mergeable(cs[|cs| - 1]))
    ensures LinesSeparate(bl, cs + [e])
  {
    var cs' := cs + [e];
    forall i | 1 <= i < |cs'| && cs'[i].OnlyLine?
      ensures !Mergeable(cs'[i - 1])
    {
      assert cs'[i - 1] == cs[i - 1];
      if i < |cs| {
        assert cs'[i] == cs[i];
      }
    }
  }

  /** Giving the last content column a line keeps lines apart. */
  lemma SeparateSetLine(bl: Option<LineType>, cs: seq<ColumnSpec>, e: ColumnSpec)
    requires LinesSeparate(bl, cs) && cs != [] && e.WithContent?
    ensures LinesSeparate(bl, cs[..|cs| - 1] + [e])
  {
    var cs' := cs[..|cs| - 1] + [e];
    forall i | 1 <= i < |cs'| && cs'[i].OnlyLine?
      ensures !Mergeable(cs'[i - 1])
    {
      assert cs'[i] == cs[i] && cs'[i - 1] == cs[i - 1];
    }
  }

  /** One scanning step keeps lines apart. */
  lemma ScanCharSeparates(st: ScanState, c: char)
    requires LinesSeparate(st.beginningLine, st.columnSpec) && ScanChar(st, c).Some?
    ensures LinesSeparate(ScanChar(st, c).value.beginningLine, ScanChar(st, c).value.columnSpec)
  {
    var cs := st.columnSpec;
    if IsAlignmentChar(c) {
      SeparateSnoc(st.beginningLine, cs, WithContent(AlignmentOf(c), None));
    } else if IsLineChar(c) {
      if cs != [] && Mergeable(cs[|cs| - 1]) {
        SeparateSetLine(st.beginningLine, cs, WithContent(cs[|cs| - 1].alignment, Some(LineTypeOf(c))));
      } else if cs != [] || st.beginningLine.Some? {
        SeparateSnoc(st.beginningLine, cs, OnlyLine(LineTypeOf(c)));
      }
    }
  }

  /** Every specification that parsing accepts keeps its lines apart. */
  lemma {:induction false} ScanProducible(s: string)
    requires Scan(s).Some?
    ensures LinesSeparate(Scan(s).value.beginningLine, Scan(s).value.columnSpec)
  {
    if s != [] {
      ScanProducible(s[..|s| - 1]);
      ScanCharSeparates(Scan(s[..|s| - 1]).value, s[|s| - 1]);
    }
  }

  /** Every specification that parsing accepts is producible, so it is written back to a text that parses to it. */
  lemma AcceptedIsProducible(s: string)
    requires ColumnSpecOf(s).Some?
    ensures Producible(ColumnSpecOf(s).value)
    ensures ColumnSpecOf(SpecText(ColumnSpecOf(s).value)) == ColumnSpecOf(s)
  {
    ScanProducible(s);
    ScanCounts(s);
    SpecTextRoundTrip(ColumnSpecOf(s).value);
  }
}
