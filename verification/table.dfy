/** The result table and its file form: every row is written as its cells
    joined with tabs (`Array#join` prints a number in decimal and `NaN` as
    "NaN"), and the rows are joined with line breaks.
 */
module ResultTable {
  import opened Js
  import opened Answers

  type Table = seq<seq<Cell>>

  /** What `Array#join` prints for a cell. */
  function CellText(c: Cell): string
  {
    match c
    case Str(t) => t
    case Num(n) => Decimal(n)
    case NaN => "NaN"
  }

  function Texts(row: seq<Cell>): seq<string>
  {
    seq(|row|, j requires 0 <= j < |row| => CellText(row[j]))
  }

  /** `line.join('\t')`. */
  function RowText(row: seq<Cell>): string
  {
    Join(Texts(row), '\t')
  }

  function RowTexts(t: Table): seq<string>
  {
    seq(|t|, i requires 0 <= i < |t| => RowText(t[i]))
  }

  /** `table.map(line => line.join('\t')).join('\n')`. */
  function Serialize(t: Table): string
  {
    Join(RowTexts(t), '\n')
  }

  /** No cell prints a tab or a line break, and every row has a cell. */
  predicate Clean(t: Table) {
    && (forall i :: 0 <= i < |t| ==> |t[i]| >= 1)
    && (forall i, j :: 0 <= i < |t| && 0 <= j < |t[i]| ==> '\t' !in CellText(t[i][j]) && '\n' !in CellText(t[i][j]))
  }

  lemma CleanAppend(a: Table, b: Table)
    requires Clean(a) && Clean(b)
    ensures Clean(a + b)
  {
    forall i | 0 <= i < |a + b|
      ensures (a + b)[i] == if i < |a| then a[i] else b[i - |a|]
    {
    }
  }

  /** A table file read back: split into lines, each line into tab-separated
      fields. */
  function ReadTable(content: string): (r: seq<seq<string>>)
    ensures |r| == multiset(content)['\n'] + 1
  {
    var lines := Split(content, '\n');
    SplitCount(content, '\n');
    seq(|lines|, i requires 0 <= i < |lines| => Split(lines[i], '\t'))
  }

  /** A clean, non-empty table reads back as its cells' texts, one line per
      row and one field per cell. */
  lemma ReadSerialize(t: Table)
    requires |t| >= 1 && Clean(t)
    ensures ReadTable(Serialize(t)) == seq(|t|, i requires 0 <= i < |t| => Texts(t[i]))
  {
    var lines := RowTexts(t);
    forall i | 0 <= i < |t|
      ensures '\n' !in lines[i] && Split(lines[i], '\t') == Texts(t[i])
    {
      var ts := Texts(t[i]);
      JoinAvoids(ts, '\t', '\n');
      SplitJoin(ts, '\t');
    }
    SplitJoin(lines, '\n');
  }

  /** The file of a clean table has exactly one line per row. */
  lemma LineCount(t: Table)
    requires |t| >= 1 && Clean(t)
    ensures multiset(Serialize(t))['\n'] + 1 == |t|
  {
    ReadSerialize(t);
  }

  /** Adding a row to the table appends a line break and the row's line to the
      file: every rewrite extends the previous one. */
  lemma SerializeSnoc(t: Table, row: seq<Cell>)
    requires |t| >= 1
    ensures Serialize(t + [row]) == Serialize(t) + "\n" + RowText(row)
  {
    assert RowTexts(t + [row]) == RowTexts(t) + [RowText(row)];
    JoinSnoc(RowTexts(t), RowText(row), '\n');
  }

  /** Reading a written numeric or `NaN` cell with the same extraction gives
      the cell back. */
  lemma Reextract(c: Cell)
    requires !c.Str?
    ensures Extract(CellText(c)) == c
  {
    if c.Num? {
      ExtractDecimal("", "", c.value, "");
      assert "" + "" + Decimal(c.value) + "" == Decimal(c.value);
    } else {
      assert !IsDigit("NaN"[0]) && !IsDigit("NaN"[1]) && !IsDigit("NaN"[2]);
    }
  }
}
