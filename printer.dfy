/** `ColumnPrinter` (listmycmds.py lines 62-95): collects entries into a row and writes
    the row to standard output once it holds `cols_in_row` entries, or when flushed.
    Standard output is modelled as the sequence of lines written; each line stands for
    its text followed by a newline. */
module Printer {
  import opened Wrappers

  /** `'{0:N}'.format(e)` for a string: `e` padded on the right with spaces to `N`
      characters, never truncated. */
  function Pad(e: string, width: int): (r: string)
    ensures |r| == if width > |e| then width else |e|
    ensures r[..|e|] == e
    ensures forall i :: |e| <= i < |r| ==> r[i] == ' '
  {
    if width > |e| then e + Spaces(width - |e|) else e
  }

  function Spaces(n: nat): (r: string)
    ensures |r| == n && forall i :: 0 <= i < n ==> r[i] == ' '
  {
    if n == 0 then "" else " " + Spaces(n - 1)
  }

  /** The text of an emitted row: every entry, the last one included, padded to `width`. */
  function FormatRow(row: seq<string>, width: int): string
    decreases |row|
  {
    if row == [] then "" else Pad(row[0], width) + FormatRow(row[1..], width)
  }

  lemma {:induction false} FormatRowAppend(row: seq<string>, e: string, width: int)
    ensures FormatRow(row + [e], width) == FormatRow(row, width) + Pad(e, width)
    decreases |row|
  {
    if row == [] {
      assert [e][1..] == [];
    } else {
      assert (row + [e])[1..] == row[1..] + [e];
      FormatRowAppend(row[1..], e, width);
    }
  }

  /** When no entry is wider than the column, a row is `width` characters per entry. */
  lemma {:induction false} RowLength(row: seq<string>, width: int)
    requires forall i :: 0 <= i < |row| ==> |row[i]| <= width
    ensures |FormatRow(row, width)| == |row| * width
    decreases |row|
  {
    if row != [] {
      RowLength(row[1..], width);
      assert |row| * width == width + (|row| - 1) * width;
    }
  }

  lemma {:induction false} FormatRowConcat(a: seq<string>, b: seq<string>, width: int)
    ensures FormatRow(a + b, width) == FormatRow(a, width) + FormatRow(b, width)
    decreases |a|
  {
    if a == [] {
      assert a + b == b;
    } else {
      assert (a + b)[1..] == a[1..] + b;
      FormatRowConcat(a[1..], b, width);
    }
  }

  /** When no entry is wider than the column, entry `k` of a row fills the `width`
      columns that follow the `k * width` columns of the entries before it: the columns
      line up from row to row. */
  lemma RowColumns(row: seq<string>, width: int, k: nat)
    requires forall i :: 0 <= i < |row| ==> |row[i]| <= width
    requires k < |row|
    ensures |FormatRow(row[..k], width)| == k * width && |Pad(row[k], width)| == width
    ensures FormatRow(row, width) == FormatRow(row[..k], width) + Pad(row[k], width) + FormatRow(row[k + 1..], width)
  {
    var before, after := row[..k], row[k + 1..];
    assert |before| == k;
    assert forall i :: 0 <= i < k ==> before[i] == row[i];
    RowLength(before, width);
    var rest := [row[k]] + after;
    assert row == before + rest;
    assert rest[0] == row[k] && rest[1..] == after;
    FormatRowConcat(before, rest, width);
  }

  /** The entries a call adds: the entry itself, or none for `print(None)`. */
  function Fed(entry: Option<string>): seq<string> {
    if entry.Some? then [entry.value] else []
  }

  /** The row buffer after a call to `print`, and the row the call writes (empty when it
      writes no line). */
  datatype StepResult = StepResult(row: seq<string>, emitted: seq<string>)

  /** One call `print(entry, flush)` on a printer with `cols` columns whose buffer holds
      `buf`: the entry is added, and the buffer is written out and cleared when it is full
      or `flush` is set. A line is written exactly when that buffer is not empty. */
  function Step(cols: int, buf: seq<string>, entry: Option<string>, flush: bool): (r: StepResult)
    ensures r.emitted + r.row == buf + Fed(entry)
    ensures r.row == [] || r.emitted == []
    ensures r.emitted != [] <==> buf + Fed(entry) != [] && (flush || |buf + Fed(entry)| >= cols)
    ensures 1 <= cols && |buf| < cols ==> |r.row| < cols && |r.emitted| <= cols
  {
    var added := buf + Fed(entry);
    if flush || |added| >= cols then StepResult([], added) else StepResult(added, [])
  }

  function Concat(rows: seq<seq<string>>): seq<string>
    decreases |rows|
  {
    if rows == [] then [] else rows[0] + Concat(rows[1..])
  }

  lemma {:induction false} ConcatAppend(rows: seq<seq<string>>, row: seq<string>)
    ensures Concat(rows + [row]) == Concat(rows) + row
    decreases |rows|
  {
    if rows == [] {
      assert [row][1..] == [];
    } else {
      assert (rows + [row])[1..] == rows[1..] + [row];
      ConcatAppend(rows[1..], row);
    }
  }

  /** The entries fed in, in order, cut into rows of `cols`; the last row may be shorter. */
  function Chunks(es: seq<string>, cols: nat): seq<seq<string>>
    requires cols >= 1
    decreases |es|
  {
    if es == [] then []
    else if |es| <= cols then [es]
    else [es[..cols]] + Chunks(es[cols..], cols)
  }

  /** The rows of `Chunks` hold the entries in order, none of them empty, all of them
      full but the last. */
  lemma {:induction false} ChunksShape(es: seq<string>, cols: nat)
    requires cols >= 1
    ensures Concat(Chunks(es, cols)) == es
    ensures forall i :: 0 <= i < |Chunks(es, cols)| ==> 1 <= |Chunks(es, cols)[i]| <= cols
    ensures forall i :: 0 <= i < |Chunks(es, cols)| - 1 ==> |Chunks(es, cols)[i]| == cols
    decreases |es|
  {
    if es != [] {
      if |es| <= cols {
        assert Chunks(es, cols) == [es];
        assert Concat([es]) == es + Concat([]);
      } else {
        var rest := Chunks(es[cols..], cols);
        ChunksShape(es[cols..], cols);
        assert Chunks(es, cols) == [es[..cols]] + rest;
        assert ([es[..cols]] + rest)[1..] == rest;
        assert es == es[..cols] + es[cols..];
      }
    }
  }

  /** A printer's history: the buffer it holds and the rows it has written. */
  datatype Run = Run(row: seq<string>, rows: seq<seq<string>>)

  /** Feeding `es` one `print(e)` at a time to a printer whose buffer holds `buf`. */
  function Feed(cols: int, buf: seq<string>, es: seq<string>): Run
    decreases |es|
  {
    if es == [] then Run(buf, [])
    else
      var s := Step(cols, buf, Some(es[0]), false);
      var rest := Feed(cols, s.row, es[1..]);
      Run(rest.row, (if s.emitted == [] then [] else [s.emitted]) + rest.rows)
  }

  /** The rows a fresh printer writes when fed `es` and then flushed with `print(flush=True)`,
      as the program does after its scan. */
  function Session(cols: int, es: seq<string>): seq<seq<string>> {
    var fed := Feed(cols, [], es);
    var last := Step(cols, fed.row, None, true);
    fed.rows + (if last.emitted == [] then [] else [last.emitted])
  }

  /** A full first row is cut off whole, whether or not entries follow it. */
  lemma ChunksFirstRow(es: seq<string>, cols: nat)
    requires 1 <= cols <= |es|
    ensures Chunks(es, cols) == [es[..cols]] + Chunks(es[cols..], cols)
  {
    if |es| == cols {
      assert es[..cols] == es && es[cols..] == [];
    }
  }

  /** What the printer holds and has written after being fed `es`, measured against
      cutting everything it was given into rows. */
  predicate FeedAgrees(cols: int, buf: seq<string>, es: seq<string>)
    requires cols >= 1
  {
    var r := Feed(cols, buf, es);
    |r.row| < cols && r.rows + (if r.row == [] then [] else [r.row]) == Chunks(buf + es, cols)
  }

  lemma {:induction false} FeedChunks(cols: int, buf: seq<string>, es: seq<string>)
    requires 1 <= cols && |buf| < cols
    ensures FeedAgrees(cols, buf, es)
    decreases |es|
  {
    if es == [] {
      assert buf + es == buf;
    } else if |buf| + 1 == cols {
      FeedChunks(cols, [], es[1..]);
      FeedChunksFullRow(cols, buf, es);
    } else {
      FeedChunks(cols, buf + [es[0]], es[1..]);
      FeedChunksPartialRow(cols, buf, es);
    }
  }

  /** The step of `FeedChunks` in which the first entry leaves the row unfilled. */
  lemma FeedChunksPartialRow(cols: int, buf: seq<string>, es: seq<string>)
    requires 1 <= cols && |buf| + 1 < cols && es != []
    requires FeedAgrees(cols, buf + [es[0]], es[1..])
    ensures FeedAgrees(cols, buf, es)
  {
    var row := buf + [es[0]];
    var all := buf + es;
    assert all == row + es[1..];
    assert Step(cols, buf, Some(es[0]), false).row == row;
    var next := Feed(cols, row, es[1..]);
    assert Feed(cols, buf, es).row == next.row && Feed(cols, buf, es).rows == next.rows;
  }

  /** The step of `FeedChunks` in which the first entry fills the row. */
  lemma FeedChunksFullRow(cols: int, buf: seq<string>, es: seq<string>)
    requires 1 <= cols && |buf| + 1 == cols && es != []
    requires FeedAgrees(cols, [], es[1..])
    ensures FeedAgrees(cols, buf, es)
  {
    var row := buf + [es[0]];
    var all := buf + es;
    assert all[..cols] == row && all[cols..] == es[1..];
    ChunksFirstRow(all, cols);
    assert [] + es[1..] == es[1..];
    assert Step(cols, buf, Some(es[0]), false).row == [];
    assert Step(cols, buf, Some(es[0]), false).emitted == row;
    var next := Feed(cols, [], es[1..]);
    assert Feed(cols, buf, es).row == next.row && Feed(cols, buf, es).rows == [row] + next.rows;
  }

  /** A session writes the entries fed in, in order, as rows of `cols` entries with a
      shorter last row; feeding nothing writes nothing. */
  lemma SessionIsChunks(cols: int, es: seq<string>)
    requires cols >= 1
    ensures Session(cols, es) == Chunks(es, cols)
  {
    FeedChunks(cols, [], es);
    var fed := Feed(cols, [], es);
    assert Step(cols, fed.row, None, true).emitted == fed.row;
    assert [] + es == es;
  }

  /** The loop of `print` that writes a row: each entry padded to the column width, and
      whether anything was written (after which `print` ends the line). */
  method RowText(row: seq<string>, width: int) returns (line: string, printed: bool)
    ensures line == FormatRow(row, width)
    ensures printed <==> row != []
  {
    printed := false;
    line := "";
    for i := 0 to |row|
      invariant line == FormatRow(row[..i], width)
      invariant printed <==> i > 0
    {
      FormatRowAppend(row[..i], row[i], width);
      assert row[..i + 1] == row[..i] + [row[i]];
      line := line + Pad(row[i], width);
      printed := true;
    }
    assert row[..|row|] == row;
  }

  /** The rows behind the lines a call writes: none, or the one row it emitted. */
  function RowsOf(emitted: seq<string>): seq<seq<string>> {
    if emitted == [] then [] else [emitted]
  }

  /** Two columns fed "ab", "cdefgh" and "ij", then flushed: a full row and a row of one. */
  lemma TwoColumnExampleRows()
    ensures Session(2, ["ab", "cdefgh", "ij"]) == [["ab", "cdefgh"], ["ij"]]
  {
    var es := ["ab", "cdefgh", "ij"];
    SessionIsChunks(2, es);
    assert es[..2] == ["ab", "cdefgh"] && es[2..] == ["ij"];
    assert Chunks(es, 2) == [["ab", "cdefgh"]] + Chunks(["ij"], 2);
  }

  /** The lines of that example at width 10: every entry padded, the last of each row
      included. */
  lemma TwoColumnExampleText()
    ensures FormatRow(["ab", "cdefgh"], 10) == "ab        cdefgh    "
    ensures FormatRow(["ij"], 10) == "ij        "
  {
    var four := Spaces(4);
    assert four == "    ";
    var eight := Spaces(8);
    assert eight == "    " + four;
    assert FormatRow(["ij"], 10) == Pad("ij", 10) + FormatRow([], 10);
    assert Pad("ij", 10) == "ij" + eight;
    assert ["ab", "cdefgh"][1..] == ["cdefgh"];
    assert FormatRow(["ab", "cdefgh"], 10) == Pad("ab", 10) + (Pad("cdefgh", 10) + FormatRow([], 10));
    assert Pad("ab", 10) == "ab" + eight;
    assert Pad("cdefgh", 10) == "cdefgh" + four;
  }

  /** A printer's state between calls: the row buffer is never full, every line written
      is a non-empty row of at most `cols` padded entries, and the rows written followed
      by the buffer are exactly the entries fed in, in order. */
  ghost predicate Consistent(cols: int, width: int, buf: seq<string>, lines: seq<string>,
                             rows: seq<seq<string>>, fed: seq<string>)
  {
    && cols >= 1
    && |buf| < cols
    && |lines| == |rows|
    && (forall i :: 0 <= i < |rows| ==> rows[i] != [] && |rows[i]| <= cols && lines[i] == FormatRow(rows[i], width))
    && Concat(rows) + buf == fed
  }

  /** Every call to `print` keeps a printer consistent. */
  lemma StepKeepsConsistent(cols: int, width: int, buf: seq<string>, lines: seq<string>,
                            rows: seq<seq<string>>, fed: seq<string>, entry: Option<string>, flush: bool)
    requires Consistent(cols, width, buf, lines, rows, fed)
    ensures var s := Step(cols, buf, entry, flush);
      Consistent(cols, width, s.row, lines + (if s.emitted == [] then [] else [FormatRow(s.emitted, width)]),
                 rows + RowsOf(s.emitted), fed + Fed(entry))
  {
    var added := buf + Fed(entry);
    assert Concat(rows) + added == fed + Fed(entry);
    var s := Step(cols, buf, entry, flush);
    if s.emitted != [] {
      assert s.row == [] && s.emitted == added;
      EmitKeepsConsistent(cols, width, lines, rows, added);
    } else {
      assert RowsOf(s.emitted) == [] && rows + [] == rows && lines + [] == lines;
      assert s.row == added;
    }
  }

  /** Writing out a non-empty buffer of at most `cols` entries keeps a printer consistent. */
  lemma EmitKeepsConsistent(cols: int, width: int, lines: seq<string>, rows: seq<seq<string>>, row: seq<string>)
    requires cols >= 1 && |lines| == |rows|
    requires forall i :: 0 <= i < |rows| ==> rows[i] != [] && |rows[i]| <= cols && lines[i] == FormatRow(rows[i], width)
    requires row != [] && |row| <= cols
    ensures forall i :: 0 <= i < |rows| + 1 ==>
      (rows + [row])[i] != [] && |(rows + [row])[i]| <= cols && (lines + [FormatRow(row, width)])[i] == FormatRow((rows + [row])[i], width)
    ensures Concat(rows + [row]) == Concat(rows) + row
  {
    ConcatAppend(rows, row);
    forall i | 0 <= i < |rows| + 1
      ensures (rows + [row])[i] != [] && |(rows + [row])[i]| <= cols && (lines + [FormatRow(row, width)])[i] == FormatRow((rows + [row])[i], width)
    {
      if i < |rows| {
        assert (rows + [row])[i] == rows[i] && (lines + [FormatRow(row, width)])[i] == lines[i];
      }
    }
  }

  /** The printer object. `lines` is what it has written to standard output; the ghost
      fields `rows` and `fed` record the rows behind those lines and every entry it has
      been given. */
  class ColumnPrinter {
    const colsInRow: int
    const colWidth: int
    var entriesInRow: seq<string>
    var lines: seq<string>
    ghost var rows: seq<seq<string>>
    ghost var fed: seq<string>

    ghost predicate Valid()
      reads this
    {
      Consistent(colsInRow, colWidth, entriesInRow, lines, rows, fed)
    }

    /** `ColumnPrinter(col_num, full_width)`: `col_width = full_width // col_num`. */
    constructor (colNum: int, fullWidth: int)
      requires colNum >= 1
      ensures Valid()
      ensures colsInRow == colNum
      ensures colWidth * colNum <= fullWidth < colWidth * colNum + colNum
      ensures entriesInRow == [] && lines == [] && fed == []
    {
      colsInRow := colNum;
      colWidth := fullWidth / colNum;
      entriesInRow := [];
      lines := [];
      rows := [];
      fed := [];
    }

    /** `print(entry, flush)`: adds a non-`None` entry to the row, then writes and clears
        the row when it is full or `flush` is set; an empty row writes nothing. */
    method Print(entry: Option<string>, flush: bool)
      requires Valid()
      modifies this
      ensures Valid()
      ensures var s := Step(colsInRow, old(entriesInRow), entry, flush);
        && entriesInRow == s.row
        && lines == old(lines) + (if s.emitted == [] then [] else [FormatRow(s.emitted, colWidth)])
        && rows == old(rows) + RowsOf(s.emitted)
      ensures fed == old(fed) + Fed(entry)
    {
      ghost var s := Step(colsInRow, entriesInRow, entry, flush);
      ghost var newLines := lines + (if s.emitted == [] then [] else [FormatRow(s.emitted, colWidth)]);
      ghost var newRows := rows + RowsOf(s.emitted);
      ghost var newFed := fed + Fed(entry);
      StepKeepsConsistent(colsInRow, colWidth, entriesInRow, lines, rows, fed, entry, flush);
      if entry.Some? {
        entriesInRow := entriesInRow + [entry.value];
      }
      fed := fed + Fed(entry);
      if flush || |entriesInRow| >= colsInRow {
        assert s.row == [] && s.emitted == entriesInRow;
        var line, printed := RowText(entriesInRow, colWidth);
        if printed {
          lines := lines + [line];
          rows := rows + [entriesInRow];
        }
        entriesInRow := [];
      } else {
        assert s.row == entriesInRow && s.emitted == [];
      }
      assert lines == newLines && rows == newRows && fed == newFed && entriesInRow == s.row;
    }
  }
}
