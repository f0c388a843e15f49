/**
 * The grid file reader (loadGrid in controller/GraphicalInterface.java).
 *
 * A grid file is a list of lines: a theme line that is skipped, a "rows,cols" line,
 * then one line of comma-separated integers per grid row. The reader appends one
 * square per integer to the grid's list of squares, in row-major order. When it
 * meets a problem it stops and reports it, and the squares it appended before the
 * problem stay in the list.
 */
module GridParser {
  import opened Options
  import opened JavaText
  import opened Cells

  datatype GridError =
    | EmptyFile                      // no "rows,cols" line
    | InvalidDimensions              // the "rows,cols" line has fewer than two fields
    | NotAnInteger(token: string)    // Integer.parseInt refused a (trimmed) field
    | ColumnCountMismatch(row: int)  // a data line (counted from 1) has the wrong number of fields
    | RowCountMismatch               // the number of data lines is not the declared row count

  /** The squares the reader leaves in the list, and the problem it reported, if any. */
  datatype GridLoad = GridLoad(cells: seq<CellInfo>, error: Option<GridError>)

  function Prepend(pre: seq<CellInfo>, g: GridLoad): GridLoad
  {
    GridLoad(pre + g.cells, g.error)
  }

  /** The square made for a grid value: -1 is blocked, 0 is open, any other value is open and numbered. */
  function CellFor(row: int, col: int, v: int): CellInfo
  {
    var blank := CellInfo(row, col, ' ', false, -1);
    if v == -1 then blank.(isPartOfWord := false, wordNumber := -1)
    else if v == 0 then blank.(isPartOfWord := true, wordNumber := -1)
    else blank.(isPartOfWord := true, wordNumber := v)
  }

  /** The grid value a square was made from. */
  function ValueOf(c: CellInfo): int
  {
    if !c.isPartOfWord then -1 else if c.wordNumber == -1 then 0 else c.wordNumber
  }

  /** The value of a square can be read back from it, so no two grid values give the same square. */
  lemma CellValueRoundTrip(row: int, col: int, v: int)
    ensures ValueOf(CellFor(row, col, v)) == v
    ensures CellFor(row, col, v).row == row && CellFor(row, col, v).col == col
  {
  }

  /** No square is ever numbered 0: an open, unnumbered square carries -1. */
  lemma CellNumberNeverZero(row: int, col: int, v: int)
    ensures CellFor(row, col, v).wordNumber != 0
    ensures CellFor(row, col, v).wordNumber > 0 <==> v > 0
    ensures CellFor(row, col, v).wordNumber > 0 ==> CellFor(row, col, v).isPartOfWord
  {
  }

  /** A square as the reader makes it: the square for its own grid value at its own place. */
  predicate Made(c: CellInfo) {
    c == CellFor(c.row, c.col, ValueOf(c))
  }

  /** A square the reader made is blank, and carries a positive number only if it is open; never the number 0. */
  lemma MadeShape(c: CellInfo)
    requires Made(c)
    ensures c.currentChar == ' ' && c.wordNumber != 0
    ensures c.wordNumber > 0 ==> c.isPartOfWord
  {
    CellNumberNeverZero(c.row, c.col, ValueOf(c));
  }

  /** One square per parsed field of a data line, stopping at the first field that is not an integer. */
  function ParseTokens(tokens: seq<string>, row: int, col: int): (g: GridLoad)
    ensures |g.cells| <= |tokens|
    ensures g.error.Some? ==> g.error.value.NotAnInteger?
  {
    if tokens == [] then GridLoad([], None)
    else match ParseInt(Trim(tokens[0]))
      case None => GridLoad([], Some(NotAnInteger(Trim(tokens[0]))))
      case Some(v) => Prepend([CellFor(row, col, v)], ParseTokens(tokens[1..], row, col + 1))
  }

  predicate AllIntegers(tokens: seq<string>) {
    forall j :: 0 <= j < |tokens| ==> ParseInt(Trim(tokens[j])).Some?
  }

  /** A data line's fields give no problem exactly when each is an integer, and then one square each. */
  lemma {:induction false} ParseTokensOk(tokens: seq<string>, row: int, col: int)
    ensures ParseTokens(tokens, row, col).error.None? <==> AllIntegers(tokens)
    ensures AllIntegers(tokens) ==> |ParseTokens(tokens, row, col).cells| == |tokens|
    decreases |tokens|
  {
    if tokens != [] {
      var rest := tokens[1..];
      ParseTokensOk(rest, row, col + 1);
      if ParseInt(Trim(tokens[0])).Some? {
        assert AllIntegers(tokens) <==> AllIntegers(rest) by {
          if AllIntegers(rest) {
            forall j | 0 <= j < |tokens| ensures ParseInt(Trim(tokens[j])).Some? {
              if j > 0 {
                assert tokens[j] == rest[j - 1];
              }
            }
          }
          if AllIntegers(tokens) {
            forall j | 0 <= j < |rest| ensures ParseInt(Trim(rest[j])).Some? {
              assert rest[j] == tokens[j + 1];
            }
          }
        }
      } else {
        assert !AllIntegers(tokens) by {
          assert !ParseInt(Trim(tokens[0])).Some?;
        }
      }
    }
  }

  /** The j-th square of a data line comes from its j-th field, which is an integer, and sits in column col + j. */
  lemma {:induction false} ParseTokensAt(tokens: seq<string>, row: int, col: int, j: nat)
    requires j < |ParseTokens(tokens, row, col).cells|
    ensures ParseInt(Trim(tokens[j])).Some?
    ensures ParseTokens(tokens, row, col).cells[j] == CellFor(row, col + j, ParseInt(Trim(tokens[j])).value)
    decreases j
  {
    if j > 0 {
      ParseTokensAt(tokens[1..], row, col + 1, j - 1);
      assert tokens[1..][j - 1] == tokens[j];
    }
  }

  /**
   * Every square a data line gives (all of them, or those before a bad field) comes from
   * the field at its position and sits in column col + j.
   */
  lemma ParseTokensPlaces(tokens: seq<string>, row: int, col: int)
    ensures forall j :: 0 <= j < |ParseTokens(tokens, row, col).cells| ==>
              ParseInt(Trim(tokens[j])).Some? &&
              ParseTokens(tokens, row, col).cells[j] == CellFor(row, col + j, ParseInt(Trim(tokens[j])).value)
  {
    forall j | 0 <= j < |ParseTokens(tokens, row, col).cells|
      ensures ParseInt(Trim(tokens[j])).Some? &&
              ParseTokens(tokens, row, col).cells[j] == CellFor(row, col + j, ParseInt(Trim(tokens[j])).value)
    {
      ParseTokensAt(tokens, row, col, j);
    }
  }

  /** The j-th square of a data line sits in row `row` and column col + j, whatever the outcome. */
  lemma {:induction false} ParseTokensCoords(tokens: seq<string>, row: int, col: int)
    ensures forall j :: 0 <= j < |ParseTokens(tokens, row, col).cells| ==>
              ParseTokens(tokens, row, col).cells[j].row == row && ParseTokens(tokens, row, col).cells[j].col == col + j
    decreases |tokens|
  {
    if tokens != [] {
      ParseTokensCoords(tokens[1..], row, col + 1);
    }
  }

  /** A data line is split on commas; it must have exactly `cols` fields. */
  function ParseRow(line: string, row: int, cols: int): GridLoad
  {
    var tokens := JavaSplit(line, ',');
    if |tokens| != cols then GridLoad([], Some(ColumnCountMismatch(row + 1)))
    else ParseTokens(tokens, row, 0)
  }

  /**
   * The outcomes of the data lines read one after the other: their squares in order,
   * up to and including those of the first line that reports a problem.
   */
  function Chain(parts: seq<GridLoad>): GridLoad
  {
    if parts == [] then GridLoad([], None)
    else if parts[0].error.Some? then parts[0]
    else Prepend(parts[0].cells, Chain(parts[1..]))
  }

  /** The outcome of each data line on its own, the first one being grid row `row`. */
  function RowLoads(data: seq<string>, cols: int, row: int): seq<GridLoad>
  {
    seq(|data|, k requires 0 <= k < |data| => ParseRow(data[k], row + k, cols))
  }

  /** The data lines in order, the first one being grid row `row`. */
  function ParseRows(data: seq<string>, cols: int, row: int): GridLoad
  {
    Chain(RowLoads(data, cols, row))
  }

  /** loadGrid: the whole file. */
  function ParseGrid(lines: seq<string>): GridLoad
  {
    if |lines| < 2 then GridLoad([], Some(EmptyFile))
    else
      var dims := JavaSplit(lines[1], ',');
      if |dims| < 2 then GridLoad([], Some(InvalidDimensions))
      else match (ParseInt(Trim(dims[0])), ParseInt(Trim(dims[1])))
        case (None, _) => GridLoad([], Some(NotAnInteger(Trim(dims[0]))))
        case (Some(_), None) => GridLoad([], Some(NotAnInteger(Trim(dims[1]))))
        case (Some(rows), Some(cols)) =>
          var body := ParseRows(lines[2..], cols, 0);
          if body.error.Some? then body
          else if |lines| - 2 != rows then GridLoad(body.cells, Some(RowCountMismatch))
          else body
  }

  // ---------------------------------------------------------------------------
  // What a well-formed grid file is, said without the parser
  // ---------------------------------------------------------------------------

  predicate RowWellFormed(line: string, cols: int) {
    |JavaSplit(line, ',')| == cols && AllIntegers(JavaSplit(line, ','))
  }

  function DeclaredRows(lines: seq<string>): int
    requires |lines| >= 2 && |JavaSplit(lines[1], ',')| >= 2 && ParseInt(Trim(JavaSplit(lines[1], ',')[0])).Some?
  {
    ParseInt(Trim(JavaSplit(lines[1], ',')[0])).value
  }

  function DeclaredCols(lines: seq<string>): int
    requires |lines| >= 2 && |JavaSplit(lines[1], ',')| >= 2 && ParseInt(Trim(JavaSplit(lines[1], ',')[1])).Some?
  {
    ParseInt(Trim(JavaSplit(lines[1], ',')[1])).value
  }

  predicate HeaderWellFormed(lines: seq<string>) {
    && |lines| >= 2
    && |JavaSplit(lines[1], ',')| >= 2
    && ParseInt(Trim(JavaSplit(lines[1], ',')[0])).Some?
    && ParseInt(Trim(JavaSplit(lines[1], ',')[1])).Some?
  }

  /**
   * A grid file the reader accepts: a "rows,cols" line of two integers, exactly `rows`
   * data lines, and exactly `cols` integer fields on each of them.
   */
  predicate GridWellFormed(lines: seq<string>) {
    && HeaderWellFormed(lines)
    && |lines| - 2 == DeclaredRows(lines)
    && forall k {:trigger RowWellFormed(lines[2..][k], DeclaredCols(lines))} :: 0 <= k < |lines[2..]| ==> RowWellFormed(lines[2..][k], DeclaredCols(lines))
  }

  // ---------------------------------------------------------------------------
  // Reading line after line
  // ---------------------------------------------------------------------------

  /** A chain of outcomes reports no problem exactly when none of its parts does. */
  lemma {:induction false} ChainOk(parts: seq<GridLoad>)
    ensures Chain(parts).error.None? <==> forall k :: 0 <= k < |parts| ==> parts[k].error.None?
    decreases |parts|
  {
    if parts != [] {
      ChainOk(parts[1..]);
      assert forall k :: 1 <= k < |parts| ==> parts[1..][k - 1] == parts[k];
    }
  }

  /** A property every square of every part has, every square of the chain has. */
  lemma {:induction false} ChainAll(parts: seq<GridLoad>, p: CellInfo -> bool)
    requires forall k, i :: 0 <= k < |parts| && 0 <= i < |parts[k].cells| ==> p(parts[k].cells[i])
    ensures forall i :: 0 <= i < |Chain(parts).cells| ==> p(Chain(parts).cells[i])
    decreases |parts|
  {
    if parts != [] && parts[0].error.None? {
      assert forall k :: 0 <= k < |parts| - 1 ==> parts[1..][k] == parts[k + 1];
      ChainAll(parts[1..], p);
      var rest := Chain(parts[1..]).cells;
      forall i | 0 <= i < |Chain(parts).cells|
        ensures p(Chain(parts).cells[i])
      {
        if i >= |parts[0].cells| {
          assert Chain(parts).cells[i] == rest[i - |parts[0].cells|];
        } else {
          assert Chain(parts).cells[i] == parts[0].cells[i];
        }
      }
    }
  }

  /** Where row k of a grid `cols` wide starts in the row-major list of squares. */
  function Offset(k: nat, cols: nat): nat
  {
    if k == 0 then 0 else Offset(k - 1, cols) + cols
  }

  /** Row k starts after k whole rows. */
  lemma {:induction false} OffsetIsProduct(k: nat, cols: nat)
    ensures Offset(k, cols) == k * cols
  {
    if k > 0 {
      OffsetIsProduct(k - 1, cols);
      assert (k - 1) * cols + cols == k * cols;
    }
  }

  /** Rows lie one after the other: row k starts no later than row m, for k <= m. */
  lemma {:induction false} OffsetMonotone(k: nat, m: nat, cols: nat)
    requires k <= m
    ensures Offset(k, cols) <= Offset(m, cols)
    decreases m
  {
    if k < m {
      OffsetMonotone(k, m - 1, cols);
    }
  }

  /** A slice past a prefix of known length is a slice of what follows the prefix. */
  lemma SliceAfter(pre: seq<CellInfo>, post: seq<CellInfo>, a: nat, b: nat)
    requires a <= b <= |post|
    ensures (pre + post)[|pre| + a..|pre| + b] == post[a..b]
  {
  }

  /** Every part succeeds with exactly `cols` squares. */
  predicate Uniform(parts: seq<GridLoad>, cols: nat) {
    forall k :: 0 <= k < |parts| ==> parts[k].error.None? && |parts[k].cells| == cols
  }

  /** When every part succeeds with `cols` squares, the chain succeeds with Offset(n, cols) squares. */
  lemma {:induction false} ChainUniformLength(parts: seq<GridLoad>, cols: nat)
    requires Uniform(parts, cols)
    ensures Chain(parts).error.None? && |Chain(parts).cells| == Offset(|parts|, cols)
    decreases |parts|
  {
    if parts != [] {
      var rest := parts[1..];
      assert Uniform(rest, cols) by {
        forall k | 0 <= k < |rest| ensures rest[k].error.None? && |rest[k].cells| == cols {
          assert rest[k] == parts[k + 1];
        }
      }
      ChainUniformLength(rest, cols);
      assert parts[0].error.None? && |parts[0].cells| == cols;
    }
  }

  /** ... and its k-th run of `cols` squares is part k. */
  lemma {:induction false} ChainUniformAt(parts: seq<GridLoad>, cols: nat, k: nat)
    requires Uniform(parts, cols) && k < |parts|
    ensures Offset(k, cols) + cols <= |Chain(parts).cells|
    ensures Chain(parts).cells[Offset(k, cols)..Offset(k, cols) + cols] == parts[k].cells
    decreases k
  {
    ChainUniformLength(parts, cols);
    OffsetMonotone(k + 1, |parts|, cols);
    var rest := parts[1..];
    assert parts[0].error.None? && |parts[0].cells| == cols;
    var all := Chain(parts).cells;
    assert all == parts[0].cells + Chain(rest).cells;
    if k > 0 {
      assert Uniform(rest, cols) by {
        forall i | 0 <= i < |rest| ensures rest[i].error.None? && |rest[i].cells| == cols {
          assert rest[i] == parts[i + 1];
        }
      }
      ChainUniformAt(rest, cols, k - 1);
      SliceAfter(parts[0].cells, Chain(rest).cells, Offset(k - 1, cols), Offset(k - 1, cols) + cols);
      assert rest[k - 1] == parts[k];
    } else {
      assert all[..cols] == parts[0].cells;
    }
  }

  /** ... so square j of part k is square Offset(k, cols) + j of the chain. */
  lemma ChainPlaced(parts: seq<GridLoad>, cols: nat)
    requires Uniform(parts, cols)
    ensures forall k: nat :: k < |parts| ==> Offset(k, cols) + cols <= |Chain(parts).cells|
    ensures forall k: nat, j: nat :: k < |parts| && j < cols ==> Chain(parts).cells[Offset(k, cols) + j] == parts[k].cells[j]
  {
    forall k: nat | k < |parts|
      ensures Offset(k, cols) + cols <= |Chain(parts).cells|
    {
      ChainUniformAt(parts, cols, k);
    }
    forall k: nat, j: nat | k < |parts| && j < cols
      ensures Chain(parts).cells[Offset(k, cols) + j] == parts[k].cells[j]
    {
      ChainCellAt(parts, cols, k, j);
    }
  }

  /** One square of ChainPlaced. */
  lemma ChainCellAt(parts: seq<GridLoad>, cols: nat, k: nat, j: nat)
    requires Uniform(parts, cols) && k < |parts| && j < cols
    ensures Offset(k, cols) + j < |Chain(parts).cells|
    ensures Chain(parts).cells[Offset(k, cols) + j] == parts[k].cells[j]
  {
    ChainUniformAt(parts, cols, k);
    var all := Chain(parts).cells;
    assert all[Offset(k, cols) + j] == all[Offset(k, cols)..Offset(k, cols) + cols][j];
  }

  /**
   * When parts 0 .. k - 1 succeed with `cols` squares each and part k reports a problem,
   * the chain reports that problem and holds the squares of parts 0 .. k.
   */
  lemma {:induction false} ChainFirstError(parts: seq<GridLoad>, cols: nat, k: nat)
    requires k < |parts| && parts[k].error.Some?
    requires forall i :: 0 <= i < k ==> parts[i].error.None? && |parts[i].cells| == cols
    ensures Chain(parts).error == parts[k].error
    ensures |Chain(parts).cells| == Offset(k, cols) + |parts[k].cells|
    ensures Chain(parts).cells[Offset(k, cols)..] == parts[k].cells
    ensures Chain(parts).cells[..Offset(k, cols)] == Chain(parts[..k]).cells
    decreases k
  {
    if k > 0 {
      var rest := parts[1..];
      assert forall i :: 0 <= i < |rest| ==> rest[i] == parts[i + 1];
      ChainFirstError(rest, cols, k - 1);
      var all := Chain(parts).cells;
      assert all == parts[0].cells + Chain(rest).cells;
      assert all[Offset(k, cols)..] == Chain(rest).cells[Offset(k - 1, cols)..];
      assert parts[..k][1..] == rest[..k - 1];
      assert Chain(parts[..k]).cells == parts[0].cells + Chain(rest[..k - 1]).cells;
      assert all[..Offset(k, cols)] == parts[0].cells + Chain(rest).cells[..Offset(k - 1, cols)];
    }
  }

  // ---------------------------------------------------------------------------
  // What the reader accepts and where the squares go
  // ---------------------------------------------------------------------------

  /** A data line gives no problem exactly when it is well formed, and then one square per column. */
  lemma ParseRowOk(line: string, row: int, cols: int)
    ensures ParseRow(line, row, cols).error.None? <==> RowWellFormed(line, cols)
    ensures RowWellFormed(line, cols) ==> |ParseRow(line, row, cols).cells| == cols
  {
    var tokens := JavaSplit(line, ',');
    if |tokens| == cols {
      ParseTokensOk(tokens, row, 0);
    }
  }

  /** Data line k on its own: a column-count problem, or the squares of its fields. */
  lemma RowLoadIs(data: seq<string>, cols: int, row: int, k: nat)
    requires k < |data|
    ensures RowLoads(data, cols, row)[k]
              == if |JavaSplit(data[k], ',')| != cols then GridLoad([], Some(ColumnCountMismatch(row + k + 1)))
                 else ParseTokens(JavaSplit(data[k], ','), row + k, 0)
  {
  }

  /** Field j of a well-formed data line k becomes the square at column j of grid row row + k. */
  lemma RowLoadCell(data: seq<string>, cols: int, row: int, k: nat, j: nat)
    requires k < |data| && RowWellFormed(data[k], cols) && j < cols
    ensures |RowLoads(data, cols, row)[k].cells| == cols
    ensures RowLoads(data, cols, row)[k].cells[j] == CellFor(row + k, j, ParseInt(Trim(JavaSplit(data[k], ',')[j])).value)
  {
    var tokens := JavaSplit(data[k], ',');
    assert RowLoads(data, cols, row)[k] == ParseTokens(tokens, row + k, 0) by {
      RowLoadIs(data, cols, row, k);
    }
    TokenCell(tokens, row + k, j);
  }

  /** Field j of a data line of integers becomes its j-th square. */
  lemma TokenCell(tokens: seq<string>, row: int, j: nat)
    requires AllIntegers(tokens) && j < |tokens|
    ensures |ParseTokens(tokens, row, 0).cells| == |tokens|
    ensures ParseTokens(tokens, row, 0).cells[j] == CellFor(row, j, ParseInt(Trim(tokens[j])).value)
  {
    ParseTokensOk(tokens, row, 0);
    ParseTokensAt(tokens, row, 0, j);
  }

  /** Data line k on its own gives no problem exactly when it is well formed, and then one square per column. */
  lemma RowLoadOk(data: seq<string>, cols: int, row: int, k: nat)
    requires k < |data|
    ensures RowLoads(data, cols, row)[k].error.None? <==> RowWellFormed(data[k], cols)
    ensures RowWellFormed(data[k], cols) ==> |RowLoads(data, cols, row)[k].cells| == cols
  {
    ParseRowOk(data[k], row + k, cols);
  }

  /** The data lines parse without a problem exactly when each of them is well formed. */
  lemma ParseRowsOk(data: seq<string>, cols: int, row: int)
    ensures ParseRows(data, cols, row).error.None? <==> forall k :: 0 <= k < |data| ==> RowWellFormed(data[k], cols)
  {
    var parts := RowLoads(data, cols, row);
    ChainOk(parts);
    forall k | 0 <= k < |data|
      ensures parts[k].error.None? <==> RowWellFormed(data[k], cols)
    {
      RowLoadOk(data, cols, row, k);
    }
  }

  /** The grid reader reports no problem exactly when the file is well formed. */
  lemma GridOkIffWellFormed(lines: seq<string>)
    ensures ParseGrid(lines).error.None? <==> GridWellFormed(lines)
  {
    if HeaderWellFormed(lines) {
      var data := lines[2..];
      ParseRowsOk(data, DeclaredCols(lines), 0);
    }
  }

  /** Whatever the outcome, every square appended lies in a data line that was read and in a declared column. */
  lemma ParseRowsBounds(data: seq<string>, cols: int, row: int)
    ensures forall i :: 0 <= i < |ParseRows(data, cols, row).cells| ==>
              row <= ParseRows(data, cols, row).cells[i].row < row + |data| &&
              0 <= ParseRows(data, cols, row).cells[i].col < cols
  {
    var parts := RowLoads(data, cols, row);
    var inBounds := (c: CellInfo) => row <= c.row < row + |data| && 0 <= c.col < cols;
    forall k, i | 0 <= k < |parts| && 0 <= i < |parts[k].cells|
      ensures inBounds(parts[k].cells[i])
    {
      var tokens := JavaSplit(data[k], ',');
      ParseTokensCoords(tokens, row + k, 0);
    }
    ChainAll(parts, inBounds);
  }

  /** Every square a data line gives is one made from a grid value. */
  lemma RowLoadMade(data: seq<string>, cols: int, row: int, k: nat, i: nat)
    requires k < |data| && i < |RowLoads(data, cols, row)[k].cells|
    ensures Made(RowLoads(data, cols, row)[k].cells[i])
  {
    RowLoadIs(data, cols, row, k);
    ParseTokensMade(JavaSplit(data[k], ','), row + k, 0);
  }

  /** Every square of a data line is made from a grid value. */
  lemma {:induction false} ParseTokensMade(tokens: seq<string>, row: int, col: int)
    ensures forall j :: 0 <= j < |ParseTokens(tokens, row, col).cells| ==> Made(ParseTokens(tokens, row, col).cells[j])
    decreases |tokens|
  {
    if tokens != [] && ParseInt(Trim(tokens[0])).Some? {
      CellValueRoundTrip(row, col, ParseInt(Trim(tokens[0])).value);
      ParseTokensMade(tokens[1..], row, col + 1);
    }
  }

  /** Every square the data lines give is one made from a grid value. */
  lemma ParseRowsMade(data: seq<string>, cols: int, row: int)
    ensures forall i :: 0 <= i < |ParseRows(data, cols, row).cells| ==> Made(ParseRows(data, cols, row).cells[i])
  {
    var parts := RowLoads(data, cols, row);
    forall k, i | 0 <= k < |parts| && 0 <= i < |parts[k].cells|
      ensures Made(parts[k].cells[i])
    {
      RowLoadMade(data, cols, row, k, i);
    }
    ChainAll(parts, Made);
  }

  /** Whatever the outcome, every square the grid reader leaves is one it made from a grid value. */
  lemma GridSquaresMade(lines: seq<string>)
    ensures forall i :: 0 <= i < |ParseGrid(lines).cells| ==> Made(ParseGrid(lines).cells[i])
  {
    if HeaderWellFormed(lines) {
      ParseRowsMade(lines[2..], DeclaredCols(lines), 0);
    }
  }

  /** The integer in field j of a well-formed data line. */
  function FieldValue(line: string, cols: int, j: nat): int
    requires RowWellFormed(line, cols) && j < cols
  {
    ParseInt(Trim(JavaSplit(line, ',')[j])).value
  }

  /** A successful read is well formed, and it is the read of its data lines. */
  lemma GridLayout(lines: seq<string>)
    requires ParseGrid(lines).error.None?
    ensures GridWellFormed(lines) && DeclaredRows(lines) == |lines| - 2
    ensures ParseGrid(lines) == ParseRows(lines[2..], DeclaredCols(lines), 0)
  {
    GridOkIffWellFormed(lines);
  }

  /** Well-formed data lines each give their `cols` squares without a problem. */
  lemma RowsUniform(data: seq<string>, cols: nat)
    requires forall k {:trigger RowWellFormed(data[k], cols)} :: 0 <= k < |data| ==> RowWellFormed(data[k], cols)
    ensures Uniform(RowLoads(data, cols, 0), cols)
  {
    var parts := RowLoads(data, cols, 0);
    forall k | 0 <= k < |parts|
      ensures parts[k].error.None? && |parts[k].cells| == cols
    {
      RowLoadOk(data, cols, 0, k);
    }
  }

  /** Well-formed data lines read without a problem into `cols` squares each. */
  lemma RowsSize(data: seq<string>, cols: nat)
    requires forall k {:trigger RowWellFormed(data[k], cols)} :: 0 <= k < |data| ==> RowWellFormed(data[k], cols)
    ensures ParseRows(data, cols, 0).error.None?
    ensures |ParseRows(data, cols, 0).cells| == |data| * cols
  {
    RowsUniform(data, cols);
    ChainUniformLength(RowLoads(data, cols, 0), cols);
    OffsetIsProduct(|data|, cols);
  }

  /**
   * Field j of well-formed data line k becomes the square at index Offset(k, cols) + j
   * (that is, k * cols + j) of the read, placed at (k, j). By GridLayout, the read of
   * the data lines is the whole file's, and they are all well formed.
   */
  lemma RowsPlaced(data: seq<string>, cols: nat)
    requires forall k {:trigger RowWellFormed(data[k], cols)} :: 0 <= k < |data| ==> RowWellFormed(data[k], cols)
    ensures forall k: nat :: k < |data| ==> Offset(k, cols) + cols <= |ParseRows(data, cols, 0).cells|
    ensures forall k: nat, j: nat :: k < |data| && j < cols ==>
              ParseRows(data, cols, 0).cells[Offset(k, cols) + j] == CellFor(k, j, FieldValue(data[k], cols, j))
  {
    var parts := RowLoads(data, cols, 0);
    RowsUniform(data, cols);
    ChainPlaced(parts, cols);
    forall k: nat, j: nat | k < |data| && j < cols
      ensures ParseRows(data, cols, 0).cells[Offset(k, cols) + j] == CellFor(k, j, FieldValue(data[k], cols, j))
    {
      RowLoadCell(data, cols, 0, k, j);
    }
  }

  /** A successful read leaves exactly rows * cols squares. */
  lemma GridSize(lines: seq<string>)
    requires ParseGrid(lines).error.None?
    ensures GridWellFormed(lines) && DeclaredRows(lines) >= 0
    ensures DeclaredRows(lines) > 0 ==> DeclaredCols(lines) >= 0
    ensures |ParseGrid(lines).cells| == DeclaredRows(lines) * DeclaredCols(lines)
  {
    GridLayout(lines);
    var data, cols := lines[2..], DeclaredCols(lines);
    if data != [] {
      assert RowWellFormed(data[0], cols);
      RowsSize(data, cols);
    }
  }

  /**
   * The reader stops at the first data line with the wrong number of fields and names
   * it (counting from 1); the squares of the lines before it stay: they are exactly the
   * squares those lines give on their own. A negative column count, which parseInt
   * accepts, makes the first line the one that fails.
   */
  lemma ColumnMismatchReported(data: seq<string>, cols: int, row: int, k: nat)
    requires k < |data| && |JavaSplit(data[k], ',')| != cols
    requires forall i :: 0 <= i < k ==> RowWellFormed(data[i], cols)
    ensures ParseRows(data, cols, row).error == Some(ColumnCountMismatch(row + k + 1))
    ensures |ParseRows(data, cols, row).cells| == k * cols
    ensures ParseRows(data, cols, row).cells == ParseRows(data[..k], cols, row).cells
  {
    if cols < 0 {
      // No split has a negative length, so the first line is already the one that fails.
      assert k > 0 ==> RowWellFormed(data[0], cols);
      RowLoadIs(data, cols, row, 0);
      ChainFirstError(RowLoads(data, cols, row), 0, 0);
      assert data[..k] == [];
    } else {
      ColumnMismatchKeeps(data, cols, row, k);
      OffsetIsProduct(k, cols);
    }
  }

  /** ColumnMismatchReported for a column count that is not negative. */
  lemma ColumnMismatchKeeps(data: seq<string>, cols: nat, row: int, k: nat)
    requires k < |data| && |JavaSplit(data[k], ',')| != cols
    requires forall i :: 0 <= i < k ==> RowWellFormed(data[i], cols)
    ensures ParseRows(data, cols, row).error == Some(ColumnCountMismatch(row + k + 1))
    ensures |ParseRows(data, cols, row).cells| == Offset(k, cols)
    ensures ParseRows(data, cols, row).cells == ParseRows(data[..k], cols, row).cells
  {
    var parts := RowLoads(data, cols, row);
    forall i | 0 <= i < k
      ensures parts[i].error.None? && |parts[i].cells| == cols
    {
      RowLoadOk(data, cols, row, i);
    }
    RowLoadIs(data, cols, row, k);
    ChainFirstError(parts, cols, k);
    assert RowLoads(data[..k], cols, row) == parts[..k];
  }

  // ---------------------------------------------------------------------------
  // The reader itself
  // ---------------------------------------------------------------------------

  lemma PrependAssoc(a: seq<CellInfo>, b: seq<CellInfo>, g: GridLoad)
    ensures Prepend(a, Prepend(b, g)) == Prepend(a + b, g)
  {
    assert a + (b + g.cells) == (a + b) + g.cells;
  }

  /** The chain from part i on: part i, then, if it succeeds, the chain from part i + 1 on. */
  lemma ChainAt(parts: seq<GridLoad>, i: nat)
    requires i < |parts|
    ensures Chain(parts[i..]) == if parts[i].error.Some? then parts[i] else Prepend(parts[i].cells, Chain(parts[i + 1..]))
  {
    assert parts[i..][0] == parts[i] && parts[i..][1..] == parts[i + 1..];
  }

  /** One step of ParseTokens: the first field is refused, or gives the first square. */
  lemma ParseTokensStep(tokens: seq<string>, row: int, col: int)
    requires tokens != []
    ensures ParseInt(Trim(tokens[0])).None? ==>
              ParseTokens(tokens, row, col) == GridLoad([], Some(NotAnInteger(Trim(tokens[0]))))
    ensures ParseInt(Trim(tokens[0])).Some? ==>
              ParseTokens(tokens, row, col)
                == Prepend([CellFor(row, col, ParseInt(Trim(tokens[0])).value)], ParseTokens(tokens[1..], row, col + 1))
  {
  }

  /** The body of the inner loop of loadGrid: a new square at (row, col) for the grid value v. */
  method NewCell(row: int, col: int, v: int) returns (cell: Case)
    ensures fresh(cell) && cell.View() == CellFor(row, col, v)
  {
    cell := new Case(row, col);
    if v == -1 {
      cell.SetPartOfWord(false, -1);
    } else if v == 0 {
      cell.SetPartOfWord(true, -1);
    } else {
      cell.SetPartOfWord(true, v);
    }
  }

  /** The inner loop of loadGrid: one fresh square per field of a data line, left to right. */
  method LoadRow(lineValues: seq<string>, row: int) returns (rowCells: seq<Case>, error: Option<GridError>)
    ensures CellViews(rowCells) == ParseTokens(lineValues, row, 0).cells && error == ParseTokens(lineValues, row, 0).error
    ensures forall i :: 0 <= i < |rowCells| ==> fresh(rowCells[i])
  {
    rowCells := [];
    ghost var acc: seq<CellInfo> := [];
    var j := 0;
    while j < |lineValues|
      invariant 0 <= j <= |lineValues|
      invariant forall i :: 0 <= i < |rowCells| ==> fresh(rowCells[i])
      invariant CellViews(rowCells) == acc
      invariant ParseTokens(lineValues, row, 0) == Prepend(acc, ParseTokens(lineValues[j..], row, j))
    {
      assert lineValues[j..][0] == lineValues[j] && lineValues[j..][1..] == lineValues[j + 1..];
      var cellValue := ParseInt(Trim(lineValues[j]));
      if cellValue.None? {
        return rowCells, Some(NotAnInteger(Trim(lineValues[j])));
      }
      ParseTokensStep(lineValues[j..], row, j);
      PrependAssoc(acc, [CellFor(row, j, cellValue.value)], ParseTokens(lineValues[j + 1..], row, j + 1));
      var cell := NewCell(row, j, cellValue.value);
      CellViewsAppend(rowCells, [cell]);
      rowCells := rowCells + [cell];
      acc := acc + [CellFor(row, j, cellValue.value)];
      j := j + 1;
    }
    assert lineValues[j..] == [];
    return rowCells, None;
  }

  /** The data-line loop of loadGrid: the squares of each line in turn, stopping at the first problem. */
  method LoadRows(data: seq<string>, cols: int) returns (cells: seq<Case>, error: Option<GridError>)
    ensures GridLoad(CellViews(cells), error) == ParseRows(data, cols, 0)
    ensures forall i :: 0 <= i < |cells| ==> fresh(cells[i])
  {
    cells, error := [], None;
    ghost var parts := RowLoads(data, cols, 0);
    var rowCount := 0;
    while rowCount < |data| && error.None?
      invariant 0 <= rowCount <= |data|
      invariant forall i :: 0 <= i < |cells| ==> fresh(cells[i])
      invariant error.None? ==> Chain(parts) == Prepend(CellViews(cells), Chain(parts[rowCount..]))
      invariant error.Some? ==> Chain(parts) == GridLoad(CellViews(cells), error)
    {
      ChainAt(parts, rowCount);
      RowLoadIs(data, cols, 0, rowCount);
      var lineValues := JavaSplit(data[rowCount], ',');
      rowCount := rowCount + 1;
      if |lineValues| != cols {
        error := Some(ColumnCountMismatch(rowCount));
      } else {
        var rowCells, rowError := LoadRow(lineValues, rowCount - 1);
        ghost var viewsBefore := CellViews(cells);
        CellViewsAppend(cells, rowCells);
        cells, error := cells + rowCells, rowError;
        PrependAssoc(viewsBefore, CellViews(rowCells), Chain(parts[rowCount..]));
      }
    }
    if error.None? {
      assert parts[rowCount..] == [];
    }
  }

  /** loadGrid: fills a fresh list of squares from the lines of a grid file. */
  method LoadGrid(lines: seq<string>) returns (cells: seq<Case>, error: Option<GridError>)
    ensures CellViews(cells) == ParseGrid(lines).cells && error == ParseGrid(lines).error
    ensures forall i :: 0 <= i < |cells| ==> fresh(cells[i])
  {
    cells := [];
    if |lines| < 2 {
      return cells, Some(EmptyFile);
    }
    var gridSize := JavaSplit(lines[1], ',');
    if |gridSize| < 2 {
      return cells, Some(InvalidDimensions);
    }
    var rowsField, colsField := ParseInt(Trim(gridSize[0])), ParseInt(Trim(gridSize[1]));
    if rowsField.None? {
      return cells, Some(NotAnInteger(Trim(gridSize[0])));
    }
    if colsField.None? {
      return cells, Some(NotAnInteger(Trim(gridSize[1])));
    }
    var rows, cols := rowsField.value, colsField.value;
    cells, error := LoadRows(lines[2..], cols);
    if error.None? && |lines| - 2 != rows {
      error := Some(RowCountMismatch);
    }
  }
}
