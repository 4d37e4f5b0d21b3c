/** `transposeArray` of index.js: the columns of a table of rows, as rows. The width is
    taken from the first row; a shorter row reads as undefined (None) where it has no
    entry, and a table without rows has no first row to read (None). */
module Tables {
  import opened Options

  function Transpose<T>(rows: seq<seq<T>>): (columns: Option<seq<seq<Option<T>>>>)
    ensures columns.None? <==> |rows| == 0
    ensures columns.Some? ==> |columns.value| == |rows[0]|
    ensures columns.Some? ==> forall c :: 0 <= c < |columns.value| ==> |columns.value[c]| == |rows|
  {
    if |rows| == 0 then None
    else Some(seq(|rows[0]|, c requires 0 <= c < |rows[0]| => seq(|rows|, r requires 0 <= r < |rows| => if c < |rows[r]| then Some(rows[r][c]) else None)))
  }

  /** Every row has as many entries as the first. */
  predicate Rectangular<T>(rows: seq<seq<T>>)
  {
    forall r :: 0 <= r < |rows| ==> |rows[r]| == |rows[0]|
  }

  /** Every entry of every row, wrapped in Some. */
  function Present<T>(rows: seq<seq<T>>): (wrapped: seq<seq<Option<T>>>)
    ensures |wrapped| == |rows|
    ensures forall r :: 0 <= r < |rows| ==> |wrapped[r]| == |rows[r]|
    ensures forall r, c :: 0 <= r < |rows| && 0 <= c < |rows[r]| ==> wrapped[r][c] == Some(rows[r][c])
  {
    seq(|rows|, r requires 0 <= r < |rows| => seq(|rows[r]|, c requires 0 <= c < |rows[r]| => Some(rows[r][c])))
  }

  /** Entry c of column r of the transpose is entry r of row c. */
  lemma TransposeEntries<T>(rows: seq<seq<T>>, c: int, r: int)
    requires |rows| > 0 && 0 <= c < |rows[0]| && 0 <= r < |rows|
    ensures Transpose(rows).value[c][r] == if c < |rows[r]| then Some(rows[r][c]) else None
  {
  }

  /** For a rectangular table with at least one column, every entry of the transpose is
      present, and transposing the transpose gives the table back. */
  lemma TransposeTwice<T>(rows: seq<seq<T>>)
    requires |rows| > 0 && |rows[0]| > 0 && Rectangular(rows)
    ensures Transpose(rows) == Some(Present(Columns(rows)))
    ensures Transpose(Columns(rows)) == Some(Present(rows))
  {
    var t := Columns(rows);
    var there := Transpose(rows).value;
    forall c | 0 <= c < |there|
      ensures there[c] == Present(t)[c]
    {
      forall r | 0 <= r < |rows|
        ensures there[c][r] == Present(t)[c][r]
      {
        TransposeEntries(rows, c, r);
      }
    }
    assert there == Present(t);
    var back := Transpose(t).value;
    forall r | 0 <= r < |rows|
      ensures back[r] == Present(rows)[r]
    {
      forall c | 0 <= c < |rows[r]|
        ensures back[r][c] == Present(rows)[r][c]
      {
        TransposeEntries(t, r, c);
      }
    }
    assert back == Present(rows);
  }

  /** The columns of a rectangular table. */
  function Columns<T>(rows: seq<seq<T>>): (columns: seq<seq<T>>)
    requires |rows| > 0 && Rectangular(rows)
    ensures |columns| == |rows[0]|
    ensures forall c :: 0 <= c < |columns| ==> |columns[c]| == |rows|
    ensures forall c, r :: 0 <= c < |columns| && 0 <= r < |rows| ==> columns[c][r] == rows[r][c]
  {
    seq(|rows[0]|, c requires 0 <= c < |rows[0]| => seq(|rows|, r requires 0 <= r < |rows| => rows[r][c]))
  }
}
