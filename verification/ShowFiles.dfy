/** The layout of showfiles in src/ls.c: which file is listed where. */
module ShowFiles {
  import opened Arith

  datatype Style = Auto | Long | Single | Columns

  /** The index into the array that is shown in a row and a column. */
  function Index(nrows: nat, ncols: nat, byRows: bool, row: nat, nc: nat): nat {
    if byRows then row * ncols + nc else nc * nrows + row
  }

  /** File i is shown in a row and a column. */
  ghost predicate ShownAt(rows: seq<seq<nat>>, row: nat, nc: nat, i: nat) {
    row < |rows| && nc < |rows[row]| && rows[row][nc] == i
  }

  ghost predicate Shown(rows: seq<seq<nat>>, i: nat) {
    exists row: nat, nc: nat :: ShownAt(rows, row, nc, i)
  }

  /** File i and file j are shown at these places. */
  ghost predicate BothShown(rows: seq<seq<nat>>, row: nat, nc: nat, i: nat, r: nat, c: nat, j: nat) {
    ShownAt(rows, row, nc, i) && ShownAt(rows, r, c, j)
  }

  /** The layout by columns: file 0 stands first, below each file stands the next one, and each
    * column begins with the file after the last one of a full column to its left. */
  ghost predicate GoesDown(rows: seq<seq<nat>>) {
    && (forall i: nat :: ShownAt(rows, 0, 0, i) ==> i == 0)
    && forall row: nat, nc: nat, i: nat, r: nat, c: nat, j: nat :: BothShown(rows, row, nc, i, r, c, j) ==>
         (r == row + 1 && c == nc) || (row == |rows| - 1 && r == 0 && c == nc + 1) ==> j == i + 1
  }

  /** The layout by rows: file 0 stands first, to the right of each file stands the next one, and
    * each row begins with the file after the last one of the row above. */
  ghost predicate GoesRight(rows: seq<seq<nat>>) {
    && (forall i: nat :: ShownAt(rows, 0, 0, i) ==> i == 0)
    && forall row: nat, nc: nat, i: nat, r: nat, c: nat, j: nat :: BothShown(rows, row, nc, i, r, c, j) ==>
         (r == row && c == nc + 1) || (r == row + 1 && c == 0 && nc == |rows[row]| - 1) ==> j == i + 1
  }

  /** showfiles, with the rows of files that it lists. There is one file in a row in the long and in
    * the single style, and when no two columns fit; otherwise there are at most fit, in as few
    * rows as that allows. The files go down the columns or along the rows, and each of them is
    * listed in exactly one place. */
  method ShowFiles(nfiles: int, fit: int, style: Style, byRows: bool) returns (rows: seq<seq<nat>>)
    ensures nfiles < 1 ==> rows == []
    ensures nfiles >= 1 && (style == Long || style == Single || fit <= 1) ==> |rows| == nfiles && forall row :: 0 <= row < |rows| ==> |rows[row]| == 1
    ensures nfiles >= 1 && style != Long && style != Single && fit > 1 ==> (|rows| - 1) * fit < nfiles <= |rows| * fit
    ensures forall row :: 0 <= row < |rows| ==> 1 <= |rows[row]| <= (if fit > 1 then fit else 1)
    ensures if byRows then GoesRight(rows) else GoesDown(rows)
    ensures forall row, nc :: 0 <= row < |rows| && 0 <= nc < |rows[row]| ==> rows[row][nc] < nfiles
    ensures forall i: nat :: i < nfiles ==> Shown(rows, i)
    ensures forall i: nat, row, nc, r, c :: ShownAt(rows, row, nc, i) && ShownAt(rows, r, c, i) ==> row == r && nc == c
  {
    rows := [];
    if nfiles < 1 {
      return;
    }
    var ncols := if style == Long || style == Single then 1 else fit;
    var nrows;
    if ncols > 1 {
      nrows := nfiles / ncols;
    } else {
      nrows := nfiles;
      ncols := 1;
    }
    if nrows * ncols < nfiles {
      nrows := nrows + 1;
    }
    if nrows > nfiles {
      nrows := nfiles;
    }
    RowsAreFewest(nfiles, ncols, nrows);
    for row := 0 to nrows
      invariant |rows| == row
      invariant forall r :: 0 <= r < row ==> IsRow(rows[r], nfiles, nrows, ncols, byRows, r)
    {
      var line := ShowRow(nfiles, nrows, ncols, byRows, row);
      rows := rows + [line];
    }
    EachOnce(rows, nfiles, ncols, byRows);
    Layout(rows, nfiles, ncols, byRows);
  }

  /** The files of one row: those at its first places, up to the last file or the last
    * column. */
  ghost predicate IsRow(line: seq<nat>, nfiles: nat, nrows: nat, ncols: nat, byRows: bool, row: nat) {
    && |line| <= ncols
    && (forall nc :: 0 <= nc < |line| ==> line[nc] == Index(nrows, ncols, byRows, row, nc) < nfiles)
    && (|line| < ncols ==> Index(nrows, ncols, byRows, row, |line|) >= nfiles)
  }

  method ShowRow(nfiles: nat, nrows: nat, ncols: nat, byRows: bool, row: nat) returns (line: seq<nat>)
    ensures IsRow(line, nfiles, nrows, ncols, byRows, row)
  {
    hide Index;
    line := [];
    for nc := 0 to ncols
      invariant |line| <= nc
      invariant forall c :: 0 <= c < |line| ==> line[c] == Index(nrows, ncols, byRows, row, c) < nfiles
      invariant |line| < nc ==> Index(nrows, ncols, byRows, row, |line|) >= nfiles
    {
      var i := Index(nrows, ncols, byRows, row, nc);
      IndexRises(nrows, ncols, byRows, row, |line|, nc);
      if i < nfiles {
        line := line + [i];
      }
    }
  }

  lemma IndexRises(nrows: nat, ncols: nat, byRows: bool, row: nat, c: nat, d: nat)
    requires c <= d
    ensures Index(nrows, ncols, byRows, row, c) <= Index(nrows, ncols, byRows, row, d)
  {
    assert c * nrows <= d * nrows;
  }

  /** Rounding up gives the least number of rows that is enough. */
  lemma RowsAreFewest(nfiles: int, ncols: int, nrows: int)
    requires nfiles >= 1 && ncols >= 1
    requires var q := if ncols > 1 then nfiles / ncols else nfiles;
      var up := if q * ncols < nfiles then q + 1 else q;
      nrows == if up > nfiles then nfiles else up
    ensures 1 <= nrows <= nfiles && (nrows - 1) * ncols < nfiles <= nrows * ncols
  {
    var q := if ncols > 1 then nfiles / ncols else nfiles;
    if ncols > 1 {
      assert q * ncols <= nfiles < q * ncols + ncols;
      AtLeastTwice(q, ncols);
    }
    Difference(q, 1, ncols);
    Difference(q, -1, ncols);
  }

  lemma AtLeastTwice(q: nat, ncols: nat)
    requires ncols >= 2
    ensures q * ncols >= 2 * q
  {
  }

  /** The place of file i. */
  function Place(nrows: nat, ncols: nat, byRows: bool, i: nat): (nat, nat)
    requires nrows > 0 && ncols > 0
  {
    if byRows then (i / ncols, i % ncols) else (i % nrows, i / nrows)
  }

  lemma PlaceHasIndex(nrows: nat, ncols: nat, byRows: bool, i: nat)
    requires nrows > 0 && ncols > 0 && i < nrows * ncols
    ensures var (row, nc) := Place(nrows, ncols, byRows, i);
      row < nrows && nc < ncols && Index(nrows, ncols, byRows, row, nc) == i
  {
    if byRows {
      Quotient(i, ncols, nrows);
    } else {
      Quotient(i, nrows, ncols);
    }
  }

  lemma Quotient(i: nat, d: nat, n: nat)
    requires d > 0 && i < n * d
    ensures i / d < n && i / d * d + i % d == i
  {
    var q := i / d;
    assert q * d + i % d == i;
    if n <= q {
      NotMore(n, q, d);
    }
  }

  lemma OnlyPlace(nrows: nat, ncols: nat, byRows: bool, row: nat, nc: nat)
    requires row < nrows && nc < ncols
    ensures Place(nrows, ncols, byRows, Index(nrows, ncols, byRows, row, nc)) == (row, nc)
  {
    if byRows {
      UniqueQuotient(row * ncols + nc, ncols, row, nc);
    } else {
      UniqueQuotient(nc * nrows + row, nrows, nc, row);
    }
  }

  lemma EachOnce(rows: seq<seq<nat>>, nfiles: nat, ncols: nat, byRows: bool)
    requires ncols > 0 && nfiles <= |rows| * ncols
    requires forall r :: 0 <= r < |rows| ==> IsRow(rows[r], nfiles, |rows|, ncols, byRows, r)
    ensures forall i: nat :: i < nfiles ==> Shown(rows, i)
    ensures forall i: nat, row, nc, r, c :: ShownAt(rows, row, nc, i) && ShownAt(rows, r, c, i) ==> row == r && nc == c
  {
    hide Index, Place;
    var nrows := |rows|;
    forall i: nat | i < nfiles
      ensures Shown(rows, i)
    {
      PlaceHasIndex(nrows, ncols, byRows, i);
      var (row, nc) := Place(nrows, ncols, byRows, i);
      assert IsRow(rows[row], nfiles, nrows, ncols, byRows, row);
      if |rows[row]| <= nc {
        IndexRises(nrows, ncols, byRows, row, |rows[row]|, nc);
      }
      assert ShownAt(rows, row, nc, i);
    }
    forall i: nat, row, nc, r, c | ShownAt(rows, row, nc, i) && ShownAt(rows, r, c, i)
      ensures row == r && nc == c
    {
      OnlyPlace(nrows, ncols, byRows, row, nc);
      OnlyPlace(nrows, ncols, byRows, r, c);
    }
  }

  /** No row is empty, and where the next file stands. */
  lemma Layout(rows: seq<seq<nat>>, nfiles: nat, ncols: nat, byRows: bool)
    requires ncols > 0 && |rows| > 0 && (|rows| - 1) * ncols < nfiles <= |rows| * ncols
    requires forall r :: 0 <= r < |rows| ==> IsRow(rows[r], nfiles, |rows|, ncols, byRows, r)
    ensures forall r :: 0 <= r < |rows| ==> 1 <= |rows[r]| <= ncols
    ensures if byRows then GoesRight(rows) else GoesDown(rows)
  {
    hide IsRow;
    forall r | 0 <= r < |rows|
      ensures 1 <= |rows[r]| <= ncols
    {
      RowBegins(rows[r], nfiles, |rows|, ncols, byRows, r);
    }
    forall row: nat, nc: nat, i: nat, r: nat, c: nat, j: nat | BothShown(rows, row, nc, i, r, c, j)
      ensures byRows ==> (r == row && c == nc + 1) || (r == row + 1 && c == 0 && nc == |rows[row]| - 1) ==> j == i + 1
      ensures !byRows ==> (r == row + 1 && c == nc) || (row == |rows| - 1 && r == 0 && c == nc + 1) ==> j == i + 1
    {
      NextPlace(rows[row], nfiles, |rows|, ncols, byRows, row, nc, rows[r], r, c);
    }
    forall i: nat | ShownAt(rows, 0, 0, i)
      ensures i == 0
    {
      FirstFile(rows[0], nfiles, |rows|, ncols, byRows);
    }
  }

  lemma FirstFile(line: seq<nat>, nfiles: nat, nrows: nat, ncols: nat, byRows: bool)
    requires IsRow(line, nfiles, nrows, ncols, byRows, 0) && line != []
    ensures line[0] == 0
  {
  }

  lemma RowBegins(line: seq<nat>, nfiles: nat, nrows: nat, ncols: nat, byRows: bool, row: nat)
    requires ncols > 0 && row < nrows && (nrows - 1) * ncols < nfiles && IsRow(line, nfiles, nrows, ncols, byRows, row)
    ensures 1 <= |line| <= ncols
  {
    NotMore(row, nrows - 1, ncols);
    NotMore(1, ncols, nrows - 1);
  }

  lemma NotMore(i: nat, j: nat, d: nat)
    requires i <= j
    ensures i * d <= j * d
  {
  }

  /** The file at (r, c) comes after that at (row, nc). */
  lemma NextPlace(line: seq<nat>, nfiles: nat, nrows: nat, ncols: nat, byRows: bool, row: nat, nc: nat, other: seq<nat>, r: nat, c: nat)
    requires IsRow(line, nfiles, nrows, ncols, byRows, row) && nc < |line| && row < nrows
    requires IsRow(other, nfiles, nrows, ncols, byRows, r) && c < |other|
    ensures byRows ==> (r == row && c == nc + 1) || (r == row + 1 && c == 0 && nc == |line| - 1) ==> other[c] == line[nc] + 1
    ensures !byRows ==> (r == row + 1 && c == nc) || (row == nrows - 1 && r == 0 && c == nc + 1) ==> other[c] == line[nc] + 1
  {
    Next(row, ncols);
    Next(nc, nrows);
  }

  lemma Next(i: nat, d: nat)
    ensures (i + 1) * d == i * d + d
  {
  }
}
