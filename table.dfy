/**
 * Table columns (math-core/src/mathml_renderer/table.rs): the column
 * specification of an array, and the generator that writes the opening
 * `<mtd>` of each cell of a row, with its alignment, borders and padding.
 */
module Table {
  import opened Wrappers
  import opened Seqs

  datatype ColumnAlignment = LeftJustified | Centered | RightJustified

  datatype LineType = Solid | Dashed

  /** A content column (with the line to its right, if any), or a line on its own. */
  datatype ColumnSpec = WithContent(alignment: ColumnAlignment, line: Option<LineType>) | OnlyLine(lineType: LineType)

  datatype ArraySpec = ArraySpec(beginningLine: Option<LineType>, isSub: bool, columnSpec: seq<ColumnSpec>)

  /** The fixed layouts of environments without a column specification. */
  datatype Alignment = CenteredCells | Cases | Alternating

  datatype AlignmentType = Predefined(align: Alignment) | Custom(spec: ArraySpec)

  function MtdOpenStyle(): string { "<mtd style=\"" }
  function MtdCloseStyle(): string { "\">" }
  function LeftAlign(): string { "text-align: -webkit-left;text-align: -moz-left;" }
  function RightAlign(): string { "text-align: -webkit-right;text-align: -moz-right;" }
  function PaddingRightZero(): string { "padding-right: 0;" }
  function PaddingLeftZero(): string { "padding-left: 0;" }
  function PaddingTopBottomZero(): string { "padding-top: 0;padding-bottom: 0;" }
  function BorderRightSolid(): string { "border-right: 0.05em solid currentcolor;" }
  function BorderRightDashed(): string { "border-right: 0.05em dashed currentcolor;" }
  function SimpleCentered(): string { "<mtd>" }

  function Indent(): string { "    " }

  /** `new_line_and_indent`: a line break, then `indent` indentation steps; nothing at level 0. */
  function NewLineAndIndent(indent: nat): (r: string)
    ensures indent == 0 ==> r == []
    ensures indent > 0 ==> |r| == 1 + 4 * indent && r[0] == '\n'
  {
    if indent == 0 then [] else NewLineAndIndent(indent - 1) + (if indent == 1 then "\n" else []) + Indent()
  }

  /** The opening cell of column `idx` in a predefined layout. */
  function PredefinedMtd(align: Alignment, idx: nat): string {
    var isEven := idx % 2 == 0;
    match align
    case Cases =>
      MtdOpenStyle() + LeftAlign() + PaddingRightZero() + (if isEven then "" else "padding-left:1em;") + MtdCloseStyle()
    case CenteredCells => SimpleCentered()
    case Alternating =>
      MtdOpenStyle() + (if isEven then RightAlign() + PaddingRightZero() else LeftAlign() + PaddingLeftZero()) + MtdCloseStyle()
  }

  function Border(line: LineType): string {
    match line
    case Solid => BorderRightSolid()
    case Dashed => BorderRightDashed()
  }

  /** The empty cell that draws a line of its own. */
  function LineMtd(spec: ArraySpec, line: LineType): string {
    MtdOpenStyle() + Border(line) + (if spec.isSub then PaddingTopBottomZero() else "")
    + "padding-left: 0.1em;padding-right: 0.1em;" + "\"></mtd>"
  }

  /** The opening cell of a content column. */
  function ContentMtd(spec: ArraySpec, alignment: ColumnAlignment, line: Option<LineType>): string {
    if alignment == Centered && line.None? && !spec.isSub then SimpleCentered()
    else
      MtdOpenStyle()
      + (match alignment case LeftJustified => LeftAlign() case Centered => "" case RightJustified => RightAlign())
      + (if line.Some? then Border(line.value) else "")
      + (if spec.isSub then PaddingTopBottomZero() else "")
      + MtdCloseStyle()
  }

  /** The entry for column `i`; past the end, a centered column without a line. */
  function SpecAt(spec: ArraySpec, i: nat): ColumnSpec {
    if i < |spec.columnSpec| then spec.columnSpec[i] else WithContent(Centered, None)
  }

  /** The cell column `k` of a custom layout writes: an empty bordered cell for a line entry, else its opening content cell. */
  function CellAt(spec: ArraySpec, k: nat): string {
    match SpecAt(spec, k)
    case OnlyLine(line) => LineMtd(spec, line)
    case WithContent(alignment, line) => ContentMtd(spec, alignment, line)
  }

  /**
   * What a custom layout writes from column `i` on, `cells` giving the cell
   * of each column: the cell of each line entry followed by `sep`, until a
   * content column, whose cell ends the output. Also returns the index
   * after that column, which is past every line entry skipped and the
   * content column itself.
   */
  function CustomWalk(spec: ArraySpec, i: nat, sep: string, cells: nat -> string): (r: (string, nat))
    ensures r.1 > i
    ensures forall k | i <= k < r.1 - 1 :: SpecAt(spec, k).OnlyLine?
    ensures SpecAt(spec, r.1 - 1).WithContent?
    decreases |spec.columnSpec| - i
  {
    if SpecAt(spec, i).OnlyLine? then
      var rest := CustomWalk(spec, i + 1, sep, cells);
      (cells(i) + sep + rest.0, rest.1)
    else (cells(i), i + 1)
  }

  /** The custom-layout part of `write_next_mtd`: the walk with the layout's own cells and a new line after each line cell. */
  function CustomMtd(spec: ArraySpec, i: nat, indent: nat): (string, nat) {
    CustomWalk(spec, i, NewLineAndIndent(indent), (k: nat) => CellAt(spec, k))
  }

  /** `write_next_mtd` as a function of the layout and the column index: the text appended, and the new index. */
  function NextMtd(typ: AlignmentType, idx: nat, indent: nat): (string, nat) {
    match typ
    case Predefined(align) =>
      var next: nat := idx + 1;
      (NewLineAndIndent(indent) + PredefinedMtd(align, idx), next)
    case Custom(spec) =>
      var rest := CustomMtd(spec, idx, indent);
      var next: nat := rest.1;
      (NewLineAndIndent(indent) + rest.0, next)
  }

  /** A layout with centered cells writes exactly `<mtd>`, whatever the column. */
  lemma CenteredWritesSimpleCell(idx: nat, indent: nat)
    ensures NextMtd(Predefined(CenteredCells), idx, indent) == (NewLineAndIndent(indent) + "<mtd>", idx + 1)
  {
  }

  /**
   * Cases and alternating layouts look only at the parity of the column:
   * columns two apart get the same cell, neighbouring ones different cells.
   */
  lemma PredefinedParity(align: Alignment, idx: nat)
    ensures PredefinedMtd(align, idx) == PredefinedMtd(align, idx + 2)
    ensures align != CenteredCells ==> PredefinedMtd(align, idx) != PredefinedMtd(align, idx + 1)
  {
    if align == Cases {
      CasesPadding(idx);
      CasesPadding(idx + 1);
    } else if align == Alternating {
      AlternatingAlignment(idx);
      AlternatingAlignment(idx + 1);
    }
  }

  /**
   * An even column of the alternating layout is right-aligned and an odd
   * one left-aligned: the character after `text-align: -webkit-`.
   */
  lemma AlternatingAlignment(idx: nat)
    ensures PredefinedMtd(Alternating, idx)[32] == (if idx % 2 == 0 then 'r' else 'l')
  {
    OpenStyleLength();
    if idx % 2 == 0 {
      RightAlignLetter();
      CharAfter(MtdOpenStyle(), RightAlign(), PaddingRightZero(), MtdCloseStyle(), PredefinedMtd(Alternating, idx), 20);
    } else {
      LeftAlignLetter();
      CharAfter(MtdOpenStyle(), LeftAlign(), PaddingLeftZero(), MtdCloseStyle(), PredefinedMtd(Alternating, idx), 20);
    }
  }

  lemma OpenStyleLength()
    ensures |MtdOpenStyle()| == 12
  {
  }

  lemma RightAlignLetter()
    ensures |RightAlign()| > 20 && RightAlign()[20] == 'r'
  {
  }

  lemma LeftAlignLetter()
    ensures |LeftAlign()| > 20 && LeftAlign()[20] == 'l'
  {
  }

  /** The chars of the aligned part of a cell, counted from its start. */
  lemma CharAfter(a: string, b: string, c: string, d: string, s: string, k: nat)
    requires s == a + (b + c) + d && k < |b|
    ensures |a| + k < |s| && s[|a| + k] == b[k]
  {
  }

  /** Cases add a left padding to odd columns only. */
  lemma CasesPadding(idx: nat)
    ensures |PredefinedMtd(Cases, idx)| == (if idx % 2 == 0 then 78 else 95)
  {
  }

  /** A line entry writes its empty bordered cell and a new line, then goes on with the next column. */
  lemma LineEntrySkipped(spec: ArraySpec, i: nat, indent: nat)
    requires SpecAt(spec, i).OnlyLine?
    ensures CustomMtd(spec, i, indent).0
      == LineMtd(spec, SpecAt(spec, i).lineType) + NewLineAndIndent(indent) + CustomMtd(spec, i + 1, indent).0
    ensures CustomMtd(spec, i, indent).1 == CustomMtd(spec, i + 1, indent).1
  {
    assert CellAt(spec, i) == LineMtd(spec, SpecAt(spec, i).lineType);
  }

  /** Past the end of the specification, a column is a plain centered cell (with padding in a subarray). */
  lemma PastEndIsCentered(spec: ArraySpec, i: nat, indent: nat)
    requires i >= |spec.columnSpec|
    ensures CustomMtd(spec, i, indent).1 == i + 1
    ensures !spec.isSub ==> CustomMtd(spec, i, indent).0 == "<mtd>"
  {
    assert SpecAt(spec, i) == WithContent(Centered, None);
    assert CustomMtd(spec, i, indent) == (CellAt(spec, i), i + 1);
  }

  /** The generator of the cells of one row after another (`ColumnGenerator`). */
  class ColumnGenerator {
    var typ: AlignmentType
    var columnIdx: nat

    /** `new_predefined`. */
    constructor NewPredefined(align: Alignment)
      ensures typ == Predefined(align) && columnIdx == 0
    {
      typ := Predefined(align);
      columnIdx := 0;
    }

    /** `new_custom`. */
    constructor NewCustom(spec: ArraySpec)
      ensures typ == Custom(spec) && columnIdx == 0
    {
      typ := Custom(spec);
      columnIdx := 0;
    }

    /** `reset_columns`: the next cell is the first of a row. */
    method ResetColumns()
      modifies this
      ensures columnIdx == 0 && typ == old(typ)
    {
      columnIdx := 0;
    }

    /**
     * `write_next_mtd`: appends the next cell to `s` and moves past it,
     * past at least one column.
     */
    method WriteNextMtd(s: string, indent: nat) returns (s': string)
      modifies this
      ensures typ == old(typ)
      ensures (s', columnIdx) == (s + NextMtd(typ, old(columnIdx), indent).0, NextMtd(typ, old(columnIdx), indent).1)
      ensures columnIdx > old(columnIdx)
    {
      s' := s + NewLineAndIndent(indent);
      var idx := columnIdx;
      columnIdx := columnIdx + 1;
      match typ {
        case Predefined(align) =>
          s' := s' + PredefinedMtd(align, idx);
          AppendAssoc(s, NewLineAndIndent(indent), PredefinedMtd(align, idx));
        case Custom(spec) =>
          var text, next := WalkCells(spec, idx, NewLineAndIndent(indent), (k: nat) => CellAt(spec, k));
          s' := s' + text;
          columnIdx := next;
          AppendAssoc(s, NewLineAndIndent(indent), text);
      }
    }
  }

  /**
   * The custom-layout loop of `write_next_mtd`: while the entry at the
   * current column is a line, writes its cell and `sep` and moves on; then
   * writes the content cell. Returns the text and the next column index.
   */
  method WalkCells(spec: ArraySpec, idx: nat, sep: string, cells: nat -> string) returns (text: string, next: nat)
    ensures (text, next) == CustomWalk(spec, idx, sep, cells)
  {
    var column := SpecAt(spec, idx);
    var current := idx;
    text := [];
    ghost var target := CustomWalk(spec, idx, sep, cells);
    EmptyLeft(target.0);
    while column.OnlyLine?
      invariant idx <= current && column == SpecAt(spec, current)
      invariant target.0 == text + CustomWalk(spec, current, sep, cells).0
      invariant target.1 == CustomWalk(spec, current, sep, cells).1
      decreases |spec.columnSpec| - current
    {
      AppendAssoc(text, cells(current) + sep, CustomWalk(spec, current + 1, sep, cells).0);
      text := text + (cells(current) + sep);
      column := SpecAt(spec, current + 1);
      current := current + 1;
    }
    next := current + 1;
    text := text + cells(current);
  }
}
