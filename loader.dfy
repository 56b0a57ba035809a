/** The parsing pass of carregarAntenasDeFicheiro: the grid is read line by
    line, and every character of a line before its end that is not '.' is
    inserted as an antenna of that frequency at (row + 1, column + 1).
    Opening and reading the file are not modelled: the lines are given. */
module Loader {
  import opened Antennas

  /** Where the column loop stops: the first '\n' or '\0', or the end of the
      characters the line holds. */
  function LineEnd(line: string): (n: nat)
    ensures n <= |line|
    ensures forall c :: 0 <= c < n ==> line[c] != '\n' && line[c] != '\0'
    ensures n < |line| ==> line[n] == '\n' || line[n] == '\0'
  {
    if line == [] || line[0] == '\n' || line[0] == '\0' then 0 else 1 + LineEnd(line[1..])
  }

  /** The antennas that row `row` yields from its first `c` columns, left to right. */
  function RowCells(line: string, row: nat, c: nat): seq<Antenna>
    requires c <= |line|
  {
    if c == 0 then []
    else RowCells(line, row, c - 1) +
         (if line[c - 1] != '.' then [Antenna(line[c - 1], row + 1, c)] else [])
  }

  /** The antennas that the first `rows` lines yield, in row-major order. */
  function GridCells(lines: seq<string>, rows: nat): seq<Antenna>
    requires rows <= |lines|
  {
    if rows == 0 then []
    else GridCells(lines, rows - 1) + RowCells(lines[rows - 1], rows - 1, LineEnd(lines[rows - 1]))
  }

  /** The inserts the parsing pass performs, in the order it performs them. */
  function Cells(lines: seq<string>): seq<Antenna>
  {
    GridCells(lines, |lines|)
  }

  /** `a` is the antenna of one of the first `c` columns of row `row`: a
      character other than '.', placed at (row + 1, column + 1). */
  predicate RowCell(line: string, row: nat, c: nat, a: Antenna)
    requires c <= |line|
  {
    exists k :: 0 <= k < c && line[k] != '.' && a == Antenna(line[k], row + 1, k + 1)
  }

  /** `a` is the antenna of some grid cell: a character other than '.' before
      the end of its line, placed at (row + 1, column + 1). */
  predicate IsCell(lines: seq<string>, a: Antenna)
  {
    exists r :: 0 <= r < |lines| && RowCell(lines[r], r, LineEnd(lines[r]), a)
  }

  lemma IncreasingConcat(s: seq<Antenna>, t: seq<Antenna>)
    requires Increasing(s) && Increasing(t)
    requires forall i, j :: 0 <= i < |s| && 0 <= j < |t| ==> LessXY(s[i], t[j])
    ensures Increasing(s + t)
  {
  }

  /** One row yields exactly its non-'.' cells, all on row `row + 1`, with
      strictly increasing columns. */
  lemma {:induction false} RowCellsSpec(line: string, row: nat, c: nat)
    requires c <= |line|
    ensures Increasing(RowCells(line, row, c))
    ensures forall j :: 0 <= j < |RowCells(line, row, c)| ==>
              RowCells(line, row, c)[j].x == row + 1 && 1 <= RowCells(line, row, c)[j].y <= c
    ensures forall a :: a in RowCells(line, row, c) <==> RowCell(line, row, c, a)
  {
    if c > 0 {
      RowCellsSpec(line, row, c - 1);
      var prev := RowCells(line, row, c - 1);
      var last: seq<Antenna> := if line[c - 1] != '.' then [Antenna(line[c - 1], row + 1, c)] else [];
      var cells := prev + last;
      assert RowCells(line, row, c) == cells;
      assert forall i, j :: 0 <= i < |prev| && 0 <= j < |last| ==> LessXY(prev[i], last[j]);
      IncreasingConcat(prev, last);
      forall j | 0 <= j < |cells|
        ensures cells[j].x == row + 1 && 1 <= cells[j].y <= c
      {
        if j < |prev| {
          assert cells[j] == prev[j];
        } else {
          assert cells[j] == last[j - |prev|];
        }
      }
      forall a
        ensures a in RowCells(line, row, c) <==> RowCell(line, row, c, a)
      {
        if a in last {
          assert 0 <= c - 1 < c && line[c - 1] != '.' && a == Antenna(line[c - 1], row + 1, c);
        }
      }
    }
  }

  /** The first `rows` lines yield antennas strictly increasing in (x, y),
      all on rows 1 to `rows`. */
  lemma {:induction false} GridCellsIncreasing(lines: seq<string>, rows: nat)
    requires rows <= |lines|
    ensures Increasing(GridCells(lines, rows))
    ensures forall j :: 0 <= j < |GridCells(lines, rows)| ==> 1 <= GridCells(lines, rows)[j].x <= rows
  {
    if rows > 0 {
      GridCellsIncreasing(lines, rows - 1);
      var line := lines[rows - 1];
      RowCellsSpec(line, rows - 1, LineEnd(line));
      var prev, row := GridCells(lines, rows - 1), RowCells(line, rows - 1, LineEnd(line));
      assert forall i, j :: 0 <= i < |prev| && 0 <= j < |row| ==> LessXY(prev[i], row[j]);
      IncreasingConcat(prev, row);
      var cells := prev + row;
      assert GridCells(lines, rows) == cells;
      forall j | 0 <= j < |cells|
        ensures 1 <= cells[j].x <= rows
      {
        if j < |prev| {
          assert cells[j] == prev[j];
        } else {
          assert cells[j] == row[j - |prev|];
        }
      }
    }
  }

  /** The first `rows` lines yield exactly the cells of those lines. */
  lemma {:induction false} GridCellsMembers(lines: seq<string>, rows: nat, a: Antenna)
    requires rows <= |lines|
    ensures a in GridCells(lines, rows) <==>
            exists r :: 0 <= r < rows && RowCell(lines[r], r, LineEnd(lines[r]), a)
  {
    if rows > 0 {
      GridCellsMembers(lines, rows - 1, a);
      var line := lines[rows - 1];
      RowCellsSpec(line, rows - 1, LineEnd(line));
      var prev, row := GridCells(lines, rows - 1), RowCells(line, rows - 1, LineEnd(line));
      assert GridCells(lines, rows) == prev + row;
      if a in row {
        assert 0 <= rows - 1 < rows && RowCell(lines[rows - 1], rows - 1, LineEnd(lines[rows - 1]), a);
      }
      if exists r :: 0 <= r < rows && RowCell(lines[r], r, LineEnd(lines[r]), a) {
        var r :| 0 <= r < rows && RowCell(lines[r], r, LineEnd(lines[r]), a);
        if r == rows - 1 {
          assert RowCell(line, rows - 1, LineEnd(line), a);
        } else {
          assert 0 <= r < rows - 1 && RowCell(lines[r], r, LineEnd(lines[r]), a);
        }
      }
    }
  }

  /** The parsing pass performs its inserts in strictly increasing (x, y)
      order, one for each cell and nothing else. */
  lemma CellsSpec(lines: seq<string>)
    ensures Increasing(Cells(lines))
    ensures forall a :: a in Cells(lines) <==> IsCell(lines, a)
  {
    GridCellsIncreasing(lines, |lines|);
    forall a
      ensures a in Cells(lines) <==> IsCell(lines, a)
    {
      GridCellsMembers(lines, |lines|, a);
    }
  }

  /** One column of the parsing pass. Every record inserted so far lies on an
      earlier row or on an earlier column of this row, so a cell other than
      '.' lands at the tail of the list: the list stays the cells read so
      far, in the order they were read. */
  lemma LoadStep(prev: seq<Antenna>, line: string, row: nat, c: nat)
    requires c < |line| && line[c] != '.'
    requires forall j :: 0 <= j < |prev| ==> prev[j].x <= row
    ensures var done, a := prev + RowCells(line, row, c), Antenna(line[c], row + 1, c + 1);
            Inserted(done, a) == done + [a] == prev + RowCells(line, row, c + 1)
  {
    var done, a := prev + RowCells(line, row, c), Antenna(line[c], row + 1, c + 1);
    RowCellsSpec(line, row, c);
    var cells := RowCells(line, row, c);
    forall j | 0 <= j < |done|
      ensures LessXY(done[j], a)
    {
      if j < |prev| {
        assert done[j] == prev[j];
      } else {
        assert done[j] == cells[j - |prev|];
      }
    }
    InsertedAtEnd(done, a);
    assert prev + RowCells(line, row, c + 1) == done + [a];
  }

  /** The column loop of carregarAntenasDeFicheiro on one line: every cell
      before the line's end that is not '.' is inserted, left to right, and
      lands at the tail of a list that holds only earlier rows. */
  method LoadLine(list: AntennaList, line: string, linha: nat)
    requires forall j :: 0 <= j < |list.nodes| ==> list.nodes[j].x <= linha
    modifies list
    ensures list.nodes == old(list.nodes) + RowCells(line, linha, LineEnd(line))
  {
    ghost var prev, end := list.nodes, LineEnd(line);
    var coluna := 0;
    assert prev + RowCells(line, linha, 0) == prev;
    while coluna < |line| && line[coluna] != '\n' && line[coluna] != '\0'
      invariant 0 <= coluna <= end
      invariant list.nodes == prev + RowCells(line, linha, coluna)
    {
      assert coluna < end;
      if line[coluna] != '.' && line[coluna] != '\n' {
        LoadStep(prev, line, linha, coluna);
        list.Insert(line[coluna], linha + 1, coluna + 1);
      } else {
        assert prev + RowCells(line, linha, coluna + 1) == prev + RowCells(line, linha, coluna);
      }
      coluna := coluna + 1;
    }
    assert coluna == end;
  }

  /** carregarAntenasDeFicheiro, on the lines the file holds: start from an
      empty list and insert every cell, row by row, column by column. The
      resulting list is exactly the cells in row-major order. */
  method Load(lines: seq<string>) returns (list: AntennaList)
    ensures list.nodes == Cells(lines)
    ensures list.Valid()
  {
    list := new AntennaList();
    var linha := 0;
    while linha < |lines|
      invariant 0 <= linha <= |lines|
      invariant list.nodes == GridCells(lines, linha)
    {
      GridCellsIncreasing(lines, linha);
      LoadLine(list, lines[linha], linha);
      linha := linha + 1;
    }
    GridCellsIncreasing(lines, |lines|);
  }
}
