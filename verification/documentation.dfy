/** `DocumentationGenerator`: the Markdown tables of the generated documentation (columns
    padded to a common width) and the turning of a camel-case name into words. */
module DocumentationGenerator {
  import opened Wrappers
  import opened JavaLang
  import opened Platform

  // ---------------------------------------------------------------- padding

  /** `n` copies of `c`. */
  function Repeat(c: char, n: nat): (r: string)
    ensures |r| == n && forall i :: 0 <= i < n ==> r[i] == c
  {
    seq(n, _ => c)
  }

  /** `complete`: the value, then as many copies of the complement as make it `size` long;
      a value already that long is returned as it is. */
  function Complete(originalValue: string, size: int, complement: char): (r: string)
    ensures size <= |originalValue| ==> r == originalValue
    ensures size > |originalValue| ==> |r| == size && r[..|originalValue|] == originalValue
  {
    var remaining := size - |originalValue|;
    if remaining <= 0 then originalValue else originalValue + Repeat(complement, remaining)
  }

  /** What `complete` adds is the complement only. */
  lemma CompletePads(originalValue: string, size: int, complement: char)
    ensures forall i :: |originalValue| <= i < |Complete(originalValue, size, complement)| ==>
              Complete(originalValue, size, complement)[i] == complement
  {
  }

  // ---------------------------------------------------------------- column widths

  /** The longest value a column has among the records that hold it, 0 when none does. */
  function MaxLength(records: seq<map<string, string>>, key: string): (m: nat)
    ensures forall k :: 0 <= k < |records| && key in records[k] ==> |records[k][key]| <= m
    ensures m == 0 || exists k :: 0 <= k < |records| && key in records[k] && |records[k][key]| == m
    decreases |records|
  {
    if records == [] then 0
    else
      var last := records[|records| - 1];
      var front := MaxLength(records[..|records| - 1], key);
      if key in last && |last[key]| > front then |last[key]| else front
  }

  /** The width `writeTable` gives a column: one more than its header or its longest value. */
  function Width(header: string, records: seq<map<string, string>>): (w: nat)
    ensures |header| < w
    ensures forall k :: 0 <= k < |records| && header in records[k] ==> |records[k][header]| < w
  {
    (if |header| > MaxLength(records, header) then |header| else MaxLength(records, header)) + 1
  }

  function Widths(columns: seq<string>, records: seq<map<string, string>>): (ws: seq<nat>)
    ensures |ws| == |columns|
    ensures forall i :: 0 <= i < |columns| ==> ws[i] == Width(columns[i], records)
  {
    seq(|columns|, i requires 0 <= i < |columns| => Width(columns[i], records))
  }

  // ---------------------------------------------------------------- lines

  /** One cell: the lead (`"| "`, or `"|-"` on the separator line), then the value padded. */
  function Cell(lead: string, value: string, width: nat, fill: char): string
  {
    lead + Complete(value, width, fill)
  }

  /** The cells of a line, appended left to right. */
  function Cells(lead: string, values: seq<string>, widths: seq<nat>, fill: char): string
    requires |values| == |widths|
    decreases |values|
  {
    if values == [] then ""
    else
      var n := |values| - 1;
      Cells(lead, values[..n], widths[..n], fill) + Cell(lead, values[n], widths[n], fill)
  }

  /** A whole line: its cells and the closing bar. */
  function Line(lead: string, values: seq<string>, widths: seq<nat>, fill: char): string
    requires |values| == |widths|
  {
    Cells(lead, values, widths, fill) + "|"
  }

  function HeaderLine(columns: seq<string>, widths: seq<nat>): string
    requires |columns| == |widths|
  {
    Line("| ", columns, widths, ' ')
  }

  function Dashes(n: nat): (r: seq<string>)
    ensures |r| == n && forall i :: 0 <= i < n ==> r[i] == "-"
  {
    seq(n, _ => "-")
  }

  function SeparatorLine(widths: seq<nat>): string
  {
    Line("|-", Dashes(|widths|), widths, '-')
  }

  /** A record that holds a value for every column. */
  predicate HoldsAll(columns: seq<string>, record: map<string, string>)
  {
    forall i :: 0 <= i < |columns| ==> columns[i] in record
  }

  function Values(columns: seq<string>, record: map<string, string>): (r: seq<string>)
    requires HoldsAll(columns, record)
    ensures |r| == |columns| && forall i :: 0 <= i < |columns| ==> r[i] == record[columns[i]]
  {
    seq(|columns|, i requires 0 <= i < |columns| => record[columns[i]])
  }

  function RecordLine(columns: seq<string>, widths: seq<nat>, record: map<string, string>): string
    requires |columns| == |widths| && HoldsAll(columns, record)
  {
    Line("| ", Values(columns, record), widths, ' ')
  }

  /** The first record missing a column (`complete` then dereferences null and throws), or
      the number of records when none does. */
  function FirstIncomplete(columns: seq<string>, records: seq<map<string, string>>): (k: nat)
    ensures k <= |records|
    ensures forall j :: 0 <= j < k ==> HoldsAll(columns, records[j])
    ensures k < |records| ==> !HoldsAll(columns, records[k])
    decreases |records|
  {
    if records == [] then 0
    else if !HoldsAll(columns, records[0]) then 0
    else FirstIncomplete(columns, records[1..]) + 1
  }

  /** The lines of records `0..k`, each record holding every column. */
  function RecordLines(columns: seq<string>, widths: seq<nat>, records: seq<map<string, string>>, k: nat): (r: seq<string>)
    requires |columns| == |widths|
    requires k <= |records| && forall j :: 0 <= j < k ==> HoldsAll(columns, records[j])
    ensures |r| == k
  {
    seq(k, j requires 0 <= j < k => RecordLine(columns, widths, records[j]))
  }

  /** What `writeTable` writes: the header line, the separator line, then a line per record
      up to the first record that lacks a column. */
  function TableLines(columns: seq<string>, records: seq<map<string, string>>): (r: seq<string>)
  {
    var widths := Widths(columns, records);
    [HeaderLine(columns, widths), SeparatorLine(widths)] + RecordLines(columns, widths, records, FirstIncomplete(columns, records))
  }

  // ---------------------------------------------------------------- table properties

  /** Where the cell of column `i` starts in a line. */
  function Offset(widths: seq<nat>, i: nat, leadLength: nat): nat
    requires i <= |widths|
    decreases i
  {
    if i == 0 then 0 else Offset(widths, i - 1, leadLength) + leadLength + widths[i - 1]
  }

  /** Values no longer than their column make a line of the column widths, each widened by
      the lead. */
  lemma {:induction false} CellsLength(lead: string, values: seq<string>, widths: seq<nat>, fill: char)
    requires |values| == |widths|
    requires forall i :: 0 <= i < |values| ==> |values[i]| <= widths[i]
    ensures |Cells(lead, values, widths, fill)| == Offset(widths, |widths|, |lead|)
    decreases |values|
  {
    if values != [] {
      var n := |values| - 1;
      CellsLength(lead, values[..n], widths[..n], fill);
      OffsetPrefix(widths, n, n, |lead|);
    }
  }

  /** Offsets depend only on the widths before them. */
  lemma {:induction false} OffsetPrefix(widths: seq<nat>, n: nat, i: nat, leadLength: nat)
    requires i <= n <= |widths|
    ensures Offset(widths[..n], i, leadLength) == Offset(widths, i, leadLength)
    decreases i
  {
    if i > 0 {
      OffsetPrefix(widths, n, i - 1, leadLength);
    }
  }

  /** `s` has `c` at position `p`. */
  predicate CharIs<T(==)>(s: seq<T>, p: nat, c: T)
  {
    p < |s| && s[p] == c
  }

  /** Character `k` of the cell of column `i` (its lead, then its value) sits at the cell's
      offset plus `k`. */
  lemma {:induction false} CharAt(lead: string, values: seq<string>, widths: seq<nat>, fill: char, i: nat, k: nat)
    requires |values| == |widths| && i < |values|
    requires forall j :: 0 <= j < |values| ==> |values[j]| <= widths[j]
    requires k < |lead| + |values[i]|
    ensures CharIs(Cells(lead, values, widths, fill), Offset(widths, i, |lead|) + k, (lead + values[i])[k])
    decreases |values|
  {
    var n := |values| - 1;
    var front := Cells(lead, values[..n], widths[..n], fill);
    var last := Cell(lead, values[n], widths[n], fill);
    assert Cells(lead, values, widths, fill) == front + last;
    assert forall j :: 0 <= j < n ==> |values[..n][j]| <= widths[..n][j];
    if i == n {
      CellsLength(lead, values[..n], widths[..n], fill);
      OffsetPrefix(widths, n, n, |lead|);
      CellChar(lead, values[n], widths[n], fill, k);
      CharInBack(front, last, k, (lead + values[n])[k]);
    } else {
      assert widths[..n][i] == widths[i] && values[..n][i] == values[i];
      CharAt(lead, values[..n], widths[..n], fill, i, k);
      OffsetPrefix(widths, n, i, |lead|);
      CharInFront(front, last, Offset(widths, i, |lead|) + k, (lead + values[i])[k]);
    }
  }

  lemma CharInFront<T>(front: seq<T>, back: seq<T>, p: nat, c: T)
    requires CharIs(front, p, c)
    ensures CharIs(front + back, p, c)
  {
  }

  lemma CharInBack<T>(front: seq<T>, back: seq<T>, p: nat, c: T)
    requires CharIs(back, p, c)
    ensures CharIs(front + back, |front| + p, c)
  {
  }

  /** A cell holds its lead, then its value. */
  lemma CellChar(lead: string, value: string, width: nat, fill: char, k: nat)
    requires |value| <= width && k < |lead| + |value|
    ensures CharIs(Cell(lead, value, width, fill), k, (lead + value)[k])
  {
    var padded := Complete(value, width, fill);
    if k >= |lead| {
      assert padded[..|value|][k - |lead|] == value[k - |lead|];
    }
  }

  lemma {:induction false} OffsetMonotone(widths: seq<nat>, i: nat, j: nat, leadLength: nat)
    requires i <= j <= |widths|
    ensures Offset(widths, i, leadLength) <= Offset(widths, j, leadLength)
    decreases j
  {
    if i < j {
      OffsetMonotone(widths, i, j - 1, leadLength);
    }
  }

  /** Every line of `lines` is `n` long. */
  predicate SameLength(lines: seq<string>, n: nat)
  {
    forall j :: 0 <= j < |lines| ==> |lines[j]| == n
  }

  /** Every line of a table has the same length: the widths, each plus two, and the closing bar. */
  lemma AllLinesSameLength(columns: seq<string>, records: seq<map<string, string>>)
    ensures SameLength(TableLines(columns, records), Offset(Widths(columns, records), |columns|, 2) + 1)
  {
    var widths := Widths(columns, records);
    var total := Offset(widths, |columns|, 2) + 1;
    HeaderLength(columns, records);
    SeparatorLength(widths);
    SameLengthPair(HeaderLine(columns, widths), SeparatorLine(widths), total);
    RecordLinesSameLength(columns, records);
    SameLengthAppend([HeaderLine(columns, widths), SeparatorLine(widths)],
                     RecordLines(columns, widths, records, FirstIncomplete(columns, records)), total);
  }

  lemma SameLengthPair(a: string, b: string, n: nat)
    requires |a| == n && |b| == n
    ensures SameLength([a, b], n)
  {
  }

  lemma RecordLinesSameLength(columns: seq<string>, records: seq<map<string, string>>)
    ensures var widths := Widths(columns, records);
            SameLength(RecordLines(columns, widths, records, FirstIncomplete(columns, records)),
                       Offset(widths, |columns|, 2) + 1)
  {
    var widths := Widths(columns, records);
    var lines := RecordLines(columns, widths, records, FirstIncomplete(columns, records));
    forall j | 0 <= j < |lines|
      ensures |lines[j]| == Offset(widths, |columns|, 2) + 1
    {
      RecordLineLength(columns, records, j);
    }
  }

  lemma SameLengthAppend(a: seq<string>, b: seq<string>, n: nat)
    requires SameLength(a, n) && SameLength(b, n)
    ensures SameLength(a + b, n)
  {
    forall j | 0 <= j < |a + b|
      ensures |(a + b)[j]| == n
    {
      if j >= |a| {
        assert (a + b)[j] == b[j - |a|];
      }
    }
  }

  lemma HeaderLength(columns: seq<string>, records: seq<map<string, string>>)
    ensures |HeaderLine(columns, Widths(columns, records))| == Offset(Widths(columns, records), |columns|, 2) + 1
  {
    var widths := Widths(columns, records);
    assert forall i :: 0 <= i < |columns| ==> |columns[i]| <= widths[i];
    CellsLength("| ", columns, widths, ' ');
  }

  lemma SeparatorLength(widths: seq<nat>)
    requires forall i :: 0 <= i < |widths| ==> widths[i] >= 1
    ensures |SeparatorLine(widths)| == Offset(widths, |widths|, 2) + 1
  {
    DashesFit(widths);
    CellsLength("|-", Dashes(|widths|), widths, '-');
  }

  lemma DashesFit(widths: seq<nat>)
    requires forall i :: 0 <= i < |widths| ==> widths[i] >= 1
    ensures forall i :: 0 <= i < |widths| ==> |Dashes(|widths|)[i]| <= widths[i]
  {
  }

  lemma RecordLineLength(columns: seq<string>, records: seq<map<string, string>>, k: nat)
    requires k < |records| && HoldsAll(columns, records[k])
    ensures |RecordLine(columns, Widths(columns, records), records[k])| == Offset(Widths(columns, records), |columns|, 2) + 1
  {
    RecordFits(columns, records, k);
    LineLength("| ", Values(columns, records[k]), Widths(columns, records), ' ');
  }

  /** The values of a record fit the widths computed over all records. */
  lemma RecordFits(columns: seq<string>, records: seq<map<string, string>>, k: nat)
    requires k < |records| && HoldsAll(columns, records[k])
    ensures forall i :: 0 <= i < |columns| ==> |Values(columns, records[k])[i]| <= Widths(columns, records)[i]
  {
    var values := Values(columns, records[k]);
    forall i | 0 <= i < |columns|
      ensures |values[i]| <= Widths(columns, records)[i]
    {
      assert values[i] == records[k][columns[i]];
    }
  }

  lemma LineLength(lead: string, values: seq<string>, widths: seq<nat>, fill: char)
    requires |values| == |widths|
    requires forall i :: 0 <= i < |values| ==> |values[i]| <= widths[i]
    ensures |Line(lead, values, widths, fill)| == Offset(widths, |widths|, |lead|) + 1
  {
    CellsLength(lead, values, widths, fill);
  }

  /** `piece` sits in `s` at `off`, character by character. */
  predicate HoldsAt<T(==)>(s: seq<T>, off: nat, piece: seq<T>)
  {
    off + |piece| <= |s| && forall k :: 0 <= k < |piece| ==> s[off + k] == piece[k]
  }

  /** In a record line, the cell of column `i` holds the bar and a space, then the record's
      value. */
  lemma ValueReadsBack(columns: seq<string>, widths: seq<nat>, record: map<string, string>, i: nat)
    requires |columns| == |widths| && HoldsAll(columns, record) && i < |columns|
    requires forall j :: 0 <= j < |columns| ==> |record[columns[j]]| <= widths[j]
    ensures HoldsAt(RecordLine(columns, widths, record), Offset(widths, i, 2), "| " + record[columns[i]])
  {
    var values := Values(columns, record);
    LineReadsBack("| ", values, widths, ' ', i);
  }

  /** In any line, the cell of column `i` holds the lead, then the value of column `i`. */
  lemma LineReadsBack(lead: string, values: seq<string>, widths: seq<nat>, fill: char, i: nat)
    requires |values| == |widths| && i < |values|
    requires forall j :: 0 <= j < |values| ==> |values[j]| <= widths[j]
    ensures HoldsAt(Line(lead, values, widths, fill), Offset(widths, i, |lead|), lead + values[i])
  {
    CellsReadBack(lead, values, widths, fill, i);
    KeptInFront(Cells(lead, values, widths, fill), "|", Offset(widths, i, |lead|), lead + values[i]);
  }

  /** The same, in the cells before the closing bar. */
  lemma CellsReadBack(lead: string, values: seq<string>, widths: seq<nat>, fill: char, i: nat)
    requires |values| == |widths| && i < |values|
    requires forall j :: 0 <= j < |values| ==> |values[j]| <= widths[j]
    ensures HoldsAt(Cells(lead, values, widths, fill), Offset(widths, i, |lead|), lead + values[i])
  {
    CellEnd(lead, values, widths, fill, i);
    forall k | 0 <= k < |lead| + |values[i]|
      ensures CharIs(Cells(lead, values, widths, fill), Offset(widths, i, |lead|) + k, (lead + values[i])[k])
    {
      CharAt(lead, values, widths, fill, i, k);
    }
  }

  /** The cell of column `i` ends within the cells. */
  lemma CellEnd(lead: string, values: seq<string>, widths: seq<nat>, fill: char, i: nat)
    requires |values| == |widths| && i < |values|
    requires forall j :: 0 <= j < |values| ==> |values[j]| <= widths[j]
    ensures Offset(widths, i, |lead|) + |lead| + widths[i] <= |Cells(lead, values, widths, fill)|
  {
    CellsLength(lead, values, widths, fill);
    OffsetMonotone(widths, i + 1, |widths|, |lead|);
  }

  /** A piece found at `off` in the front of a sequence is still there once something is
      appended. */
  lemma KeptInFront<T>(front: seq<T>, back: seq<T>, off: nat, piece: seq<T>)
    requires HoldsAt(front, off, piece)
    ensures HoldsAt(front + back, off, piece)
  {
  }

  /** The separator line holds nothing but bars and dashes. */
  lemma {:induction false} SeparatorBarsAndDashes(widths: seq<nat>)
    ensures forall c :: c in SeparatorLine(widths) ==> c == '|' || c == '-'
  {
    DashCells(Dashes(|widths|), widths);
  }

  lemma {:induction false} DashCells(dashes: seq<string>, widths: seq<nat>)
    requires |dashes| == |widths| && forall i :: 0 <= i < |dashes| ==> dashes[i] == "-"
    ensures forall c :: c in Cells("|-", dashes, widths, '-') ==> c == '|' || c == '-'
    decreases |dashes|
  {
    if dashes != [] {
      var n := |dashes| - 1;
      DashCells(dashes[..n], widths[..n]);
      var cell := Cell("|-", dashes[n], widths[n], '-');
      assert forall c :: c in cell ==> c == '|' || c == '-' by {
        forall c | c in cell ensures c == '|' || c == '-' {
          var p :| 0 <= p < |cell| && cell[p] == c;
          if p >= 2 {
            assert cell[p] == Complete("-", widths[n], '-')[p - 2];
          }
        }
      }
    }
  }

  // ---------------------------------------------------------------- writing

  /** The file the documentation is written to, as the lines written so far. */
  class MarkdownFile {
    var lines: seq<string>

    constructor ()
      ensures lines == []
    {
      lines := [];
    }

    /** `writeLine`. */
    method WriteLine(line: string)
      modifies this
      ensures lines == old(lines) + [line]
    {
      lines := lines + [line];
    }
  }

  /** `writeTable`: the widths are computed per column header, then the header and separator
      lines are built cell by cell, then one line per record; a record lacking a column
      makes `complete` throw after the lines before it are written. */
  method WriteTable(writer: MarkdownFile, columns: seq<string>, records: seq<map<string, string>>)
    returns (r: Result<(), Thrown>)
    modifies writer
    ensures writer.lines == old(writer.lines) + TableLines(columns, records)
    ensures r.Failure? <==> FirstIncomplete(columns, records) < |records|
    ensures r.Failure? ==> r.error == OtherException
  {
    var sizeColumns := SizeColumns(columns, records);
    var lineHeader, lineSeparator := HeaderAndSeparator(columns, Widths(columns, records), sizeColumns);
    writer.WriteLine(lineHeader);
    writer.WriteLine(lineSeparator);
    ghost var top := writer.lines;
    r := WriteRecords(writer, columns, records, sizeColumns);
    TableLinesSplit(columns, records, old(writer.lines), top, writer.lines);
  }

  lemma TableLinesSplit(columns: seq<string>, records: seq<map<string, string>>,
                        before: seq<string>, top: seq<string>, after: seq<string>)
    requires top == before + [HeaderLine(columns, Widths(columns, records))] + [SeparatorLine(Widths(columns, records))]
    requires after == top + RecordLines(columns, Widths(columns, records), records, FirstIncomplete(columns, records))
    ensures after == before + TableLines(columns, records)
  {
    var widths := Widths(columns, records);
    AppendTwo(before, HeaderLine(columns, widths), SeparatorLine(widths),
              RecordLines(columns, widths, records, FirstIncomplete(columns, records)));
  }

  lemma AppendTwo<T>(before: seq<T>, a: T, b: T, rest: seq<T>)
    ensures before + [a] + [b] + rest == before + ([a, b] + rest)
  {
    assert [a] + [b] == [a, b];
  }

  /** The record lines, up to the first record lacking a column. */
  method WriteRecords(writer: MarkdownFile, columns: seq<string>, records: seq<map<string, string>>,
                      sizeColumns: map<string, nat>) returns (r: Result<(), Thrown>)
    requires forall j :: 0 <= j < |columns| ==> columns[j] in sizeColumns && sizeColumns[columns[j]] == Width(columns[j], records)
    modifies writer
    ensures writer.lines == old(writer.lines) + RecordLines(columns, Widths(columns, records), records, FirstIncomplete(columns, records))
    ensures r.Failure? <==> FirstIncomplete(columns, records) < |records|
    ensures r.Failure? ==> r.error == OtherException
  {
    ghost var widths := Widths(columns, records);
    for k := 0 to |records|
      invariant forall j :: 0 <= j < k ==> HoldsAll(columns, records[j])
      invariant writer.lines == old(writer.lines) + RecordLines(columns, widths, records, k)
    {
      var lineRecord := WriteRecordLine(columns, widths, sizeColumns, records[k]);
      if lineRecord.None? {
        FirstIncompleteAt(columns, records, k);
        return Failure(OtherException);
      }
      RecordLinesStep(columns, widths, records, k);
      writer.WriteLine(lineRecord.value);
    }
    FirstIncompleteAt(columns, records, |records|);
    r := Success(());
  }

  /** The width of each column, keyed by its header. */
  method SizeColumns(columns: seq<string>, records: seq<map<string, string>>) returns (sizeColumns: map<string, nat>)
    ensures forall j :: 0 <= j < |columns| ==> columns[j] in sizeColumns && sizeColumns[columns[j]] == Width(columns[j], records)
  {
    sizeColumns := map[];
    for i := 0 to |columns|
      invariant forall j :: 0 <= j < i ==> columns[j] in sizeColumns && sizeColumns[columns[j]] == Width(columns[j], records)
    {
      var header := columns[i];
      var size := |header|;
      var maxLength := MaxLength(records, header);
      sizeColumns := sizeColumns[header := (if size > maxLength then size else maxLength) + 1];
    }
  }

  /** The header line and the separator line, built cell by cell. */
  method HeaderAndSeparator(columns: seq<string>, ghost widths: seq<nat>, sizeColumns: map<string, nat>)
    returns (lineHeader: string, lineSeparator: string)
    requires |widths| == |columns|
    requires forall j :: 0 <= j < |columns| ==> columns[j] in sizeColumns && sizeColumns[columns[j]] == widths[j]
    ensures lineHeader == HeaderLine(columns, widths)
    ensures lineSeparator == SeparatorLine(widths)
  {
    ghost var dashes := Dashes(|widths|);
    lineHeader := "";
    lineSeparator := "";
    for i := 0 to |columns|
      invariant lineHeader == Cells("| ", columns[..i], widths[..i], ' ')
      invariant lineSeparator == Cells("|-", dashes[..i], widths[..i], '-')
    {
      var header := columns[i];
      CellsStep("| ", columns, widths, ' ', i);
      CellsStep("|-", dashes, widths, '-', i);
      lineHeader := lineHeader + Cell("| ", header, sizeColumns[header], ' ');
      lineSeparator := lineSeparator + Cell("|-", "-", sizeColumns[header], '-');
    }
    assert columns[..|columns|] == columns && widths[..|columns|] == widths && dashes[..|columns|] == dashes;
    lineHeader := lineHeader + "|";
    lineSeparator := lineSeparator + "|";
  }

  /** One more cell on the right. */
  lemma CellsStep(lead: string, values: seq<string>, widths: seq<nat>, fill: char, i: nat)
    requires |values| == |widths| && i < |values|
    ensures Cells(lead, values[..i + 1], widths[..i + 1], fill)
            == Cells(lead, values[..i], widths[..i], fill) + Cell(lead, values[i], widths[i], fill)
  {
    assert values[..i + 1][..i] == values[..i] && widths[..i + 1][..i] == widths[..i];
  }

  /** The line of one record, built cell by cell; none when the record lacks a column. */
  method WriteRecordLine(columns: seq<string>, ghost widths: seq<nat>, sizeColumns: map<string, nat>,
                         record: map<string, string>) returns (r: Option<string>)
    requires |widths| == |columns|
    requires forall j :: 0 <= j < |columns| ==> columns[j] in sizeColumns && sizeColumns[columns[j]] == widths[j]
    ensures r.Some? <==> HoldsAll(columns, record)
    ensures r.Some? ==> r.value == RecordLine(columns, widths, record)
  {
    var lineRecord := "";
    for i := 0 to |columns|
      invariant HoldsAll(columns[..i], record)
      invariant lineRecord == Cells("| ", Values(columns[..i], record), widths[..i], ' ')
    {
      var header := columns[i];
      if header !in record {
        return None;
      }
      RecordCellsStep(columns, widths, record, i);
      lineRecord := lineRecord + Cell("| ", record[header], sizeColumns[header], ' ');
    }
    assert columns[..|columns|] == columns && widths[..|columns|] == widths;
    r := Some(lineRecord + "|");
  }

  lemma RecordCellsStep(columns: seq<string>, widths: seq<nat>, record: map<string, string>, i: nat)
    requires |widths| == |columns| && i < |columns|
    requires HoldsAll(columns[..i], record) && columns[i] in record
    ensures HoldsAll(columns[..i + 1], record)
    ensures Cells("| ", Values(columns[..i + 1], record), widths[..i + 1], ' ')
            == Cells("| ", Values(columns[..i], record), widths[..i], ' ') + Cell("| ", record[columns[i]], widths[i], ' ')
  {
    var longer := Values(columns[..i + 1], record);
    assert longer[..i] == Values(columns[..i], record);
    CellsStep("| ", longer, widths[..i + 1], ' ', i);
    assert widths[..i + 1][..i] == widths[..i] && longer[..i + 1] == longer && widths[..i + 1][..i + 1] == widths[..i + 1];
  }

  lemma FirstIncompleteAt(columns: seq<string>, records: seq<map<string, string>>, k: nat)
    requires k <= |records| && forall j :: 0 <= j < k ==> HoldsAll(columns, records[j])
    requires k < |records| ==> !HoldsAll(columns, records[k])
    ensures FirstIncomplete(columns, records) == k
  {
  }

  lemma RecordLinesStep(columns: seq<string>, widths: seq<nat>, records: seq<map<string, string>>, k: nat)
    requires |columns| == |widths|
    requires k < |records| && forall j :: 0 <= j <= k ==> HoldsAll(columns, records[j])
    ensures RecordLines(columns, widths, records, k + 1)
            == RecordLines(columns, widths, records, k) + [RecordLine(columns, widths, records[k])]
  {
  }

  // ---------------------------------------------------------------- camel case

  predicate IsLowerAscii(c: char) { 'a' <= c <= 'z' }

  predicate IsUpperAscii(c: char) { 'A' <= c <= 'Z' }

  /** Whether a space goes in before position `i`: an upper-case letter right after a
      lower-case one. */
  predicate Boundary(t: string, i: int)
  {
    1 <= i < |t| && IsLowerAscii(t[i - 1]) && IsUpperAscii(t[i])
  }

  /** `replaceAll("(?<=[a-z])([A-Z])", " $1")`: a space before every boundary. The look-behind
      reads the original text, so the first two characters decide the first gap and the rest
      is spaced on its own. */
  function Spaced(t: string): (r: string)
    ensures t == [] <==> r == []
    ensures t != [] ==> r[0] == t[0]
    decreases |t|
  {
    if |t| <= 1 then t
    else [t[0]] + (if Boundary(t, 1) then " " else "") + Spaced(t[1..])
  }

  /** `addSpace`: null and empty text come back as they are; otherwise the spaced text in
      lower case with its first character put back. That character is the replacement text
      of `replaceFirst`, where a `$` or a backslash alone is malformed and throws. */
  function AddSpace(text: Option<string>): (r: Result<Option<string>, Thrown>)
    ensures text.None? || text == Some("") ==> r == Success(text)
    ensures text.Some? && text.value != "" ==> (r.Failure? <==> text.value[0] == '$' || text.value[0] == '\\')
    ensures r.Success? && text.Some? && text.value != "" ==>
              r.value.Some? && |r.value.value| >= |text.value| && r.value.value[0] == text.value[0]
    ensures r.Success? && r.value.Some? ==> forall i :: 1 <= i < |r.value.value| ==> !IsUpperAscii(r.value.value[i])
  {
    if text.None? || text.value == "" then Success(text)
    else if text.value[0] == '$' || text.value[0] == '\\' then Failure(OtherException)
    else
      SpacedLength(text.value);
      var lowered := LowerAscii(Spaced(text.value));
      Success(Some([text.value[0]] + lowered[1..]))
  }

  lemma {:induction false} SpacedLength(t: string)
    ensures |Spaced(t)| >= |t|
    decreases |t|
  {
    if |t| > 1 {
      SpacedLength(t[1..]);
    }
  }

  /** The text with its spaces removed. */
  function Unspaced(s: string): (r: string)
    ensures ' ' !in r
    decreases |s|
  {
    if s == [] then []
    else (if s[0] == ' ' then "" else [s[0]]) + Unspaced(s[1..])
  }

  /** The spaces are the only thing inserted: without its spaces, the spaced text is the
      text without its spaces. */
  lemma {:induction false} SpacedInsertsOnlySpaces(t: string)
    ensures Unspaced(Spaced(t)) == Unspaced(t)
    decreases |t|
  {
    if |t| > 1 {
      SpacedInsertsOnlySpaces(t[1..]);
      var gap: string := if Boundary(t, 1) then " " else "";
      var head := [t[0]] + gap;
      assert Spaced(t) == head + Spaced(t[1..]);
      UnspacedAppend(head, Spaced(t[1..]));
      assert Unspaced(gap) == "";
      UnspacedAppend([t[0]], gap);
      UnspacedAppend([t[0]], t[1..]);
      assert [t[0]] + t[1..] == t;
    }
  }

  lemma {:induction false} UnspacedAppend(a: string, b: string)
    ensures Unspaced(a + b) == Unspaced(a) + Unspaced(b)
    decreases |a|
  {
    if a != [] {
      assert (a + b)[1..] == a[1..] + b;
      UnspacedAppend(a[1..], b);
    } else {
      assert a + b == b;
    }
  }

  /** Applied to its own result, `addSpace` changes nothing: no upper-case letter is left
      after the first character, so there is no boundary left to space. */
  lemma AddSpaceIdempotent(text: string)
    requires AddSpace(Some(text)).Success?
    ensures AddSpace(AddSpace(Some(text)).value) == AddSpace(Some(text))
  {
    var once := AddSpace(Some(text)).value.value;
    if once != [] {
      NoBoundaryNoSpace(once);
      var lowered := LowerAscii(once);
      forall i | 1 <= i < |once| ensures lowered[i] == once[i] {
        assert !IsUpperAscii(once[i]);
      }
      assert [once[0]] + lowered[1..] == once;
    }
  }

  /** A text whose characters after the first are none of them upper case is left as it is
      by the spacing. */
  lemma {:induction false} NoBoundaryNoSpace(t: string)
    requires forall i :: 1 <= i < |t| ==> !IsUpperAscii(t[i])
    ensures Spaced(t) == t
    decreases |t|
  {
    if |t| > 1 {
      var rest := t[1..];
      assert forall i :: 1 <= i < |rest| ==> !IsUpperAscii(rest[i]) by {
        forall i | 1 <= i < |rest| ensures !IsUpperAscii(rest[i]) {
          assert rest[i] == t[i + 1];
        }
      }
      NoBoundaryNoSpace(rest);
      assert !Boundary(t, 1);
      assert [t[0]] + rest == t;
    }
  }

  /** A character, a run of lower-case letters and an upper-case letter after them: the
      spacing keeps the run and puts one space before the upper-case letter. */
  lemma {:induction false} SpacedWord(a: char, w: string, rest: string)
    requires w != [] && forall i :: 0 <= i < |w| ==> IsLowerAscii(w[i])
    requires rest != [] && IsUpperAscii(rest[0])
    ensures Spaced([a] + w + rest) == [a] + w + " " + Spaced(rest)
    decreases |w|
  {
    var t := [a] + w + rest;
    var u := w + rest;
    assert t[0] == a && t[1] == w[0] && t[1..] == u;
    SpacedStep(t);
    var tail := Spaced(rest);
    if |w| == 1 {
      assert u[0] == w[0] && u[1] == rest[0] && u[1..] == rest;
      SpacedStep(u);
      assert w == [w[0]];
    } else {
      SpacedWord(w[0], w[1..], rest);
      assert [w[0]] + w[1..] == w;
      assert [w[0]] + w[1..] + rest == u;
    }
    Regroup([a], w, " ", tail);
  }

  /** One step of the spacing: the first character, a space when a boundary follows it, then
      the rest spaced. */
  lemma SpacedStep(t: string)
    requires |t| >= 2
    ensures Spaced(t) == [t[0]] + (if Boundary(t, 1) then " " else "") + Spaced(t[1..])
  {
  }

  lemma Regroup<T>(a: seq<T>, b: seq<T>, c: seq<T>, d: seq<T>)
    ensures a + (b + c + d) == a + b + c + d
  {
  }

  /** A boundary gets its space and loses its capital; a capital at the start stays. */
  lemma CamelCaseExample()
    ensures AddSpace(Some("ToTest")) == Success(Some("To test"))
  {
    ExampleSpaced();
    ExampleLowered();
    AddSpaceOfWord("ToTest", "To Test", "to test");
    PutBack('T', "to test", "To test");
  }

  /** Putting a first element back in front of the tail of `s` gives `t` when `t` starts with
      it and agrees with `s` after it. */
  lemma PutBack<T>(c: T, s: seq<T>, t: seq<T>)
    requires |s| == |t| > 0 && t[0] == c
    requires forall i :: 1 <= i < |s| ==> s[i] == t[i]
    ensures [c] + s[1..] == t
  {
    assert forall i :: 1 <= i < |s| ==> ([c] + s[1..])[i] == s[i];
  }

  lemma AddSpaceOfWord(text: string, spaced: string, lowered: string)
    requires text != [] && text[0] != '$' && text[0] != '\\'
    requires Spaced(text) == spaced && LowerAscii(spaced) == lowered
    ensures AddSpace(Some(text)) == Success(Some([text[0]] + lowered[1..]))
  {
  }

  lemma ExampleSpaced()
    ensures Spaced("ToTest") == "To Test"
  {
    var rest := "Test";
    assert forall i :: 1 <= i < |rest| ==> !IsUpperAscii(rest[i]);
    NoBoundaryNoSpace(rest);
    var word := "o";
    assert forall i :: 0 <= i < |word| ==> IsLowerAscii(word[i]);
    SpacedWord('T', word, rest);
    assert "ToTest" == ['T'] + word + rest;
  }
  lemma ExampleLowered()
    ensures LowerAscii("To Test") == "to test"
  {
    var lowered := LowerAscii("To Test");
    forall i | 0 <= i < 7 ensures lowered[i] == "to test"[i] {
      assert lowered[i] == ToLowerAscii("To Test"[i]);
    }
  }
}
