/** Step 2 of the script: turning the spreadsheet cells B2:B44 into the
    ordered list of registration numbers (`to_clean_str` and the filtering
    list comprehension). */
module Registration {
  import opened Options
  import opened Text
  import opened Seqs

  /** A spreadsheet cell as pandas hands it over. A float whose
      `is_integer()` holds is carried by its integer value; any other float
      by its `str()` rendering; every value that is neither missing, a bool,
      an int nor a float by its `str()` rendering. */
  datatype Cell =
    | Missing                        // what `pd.isna` recognises: empty, NaN, None
    | BoolCell(flag: bool)           // `bool` is a subclass of `int` in Python
    | IntCell(n: int)
    | IntegralFloat(n: int)          // e.g. 27900124001.0, carried as 27900124001
    | FractionalFloat(repr: string)  // e.g. 2.5, carried as "2.5"
    | TextCell(text: string)

  /** Excel rows 2..44 are row indices 1..43 of the column (`iloc[1:44]`). */
  const FirstRow: nat := 1
  const EndRow: nat := 44

  /** `to_clean_str`: no string for a missing cell, the decimal digits for
      an integer or integral float, the stripped rendering otherwise. */
  function CleanStr(c: Cell): (r: Option<string>)
    ensures r.None? <==> c.Missing?
    ensures c.BoolCell? ==> r == Some(if c.flag then "True" else "False")
    ensures (c.IntCell? || c.IntegralFloat?) ==> r.Some? && RendersInt(r.value, c.n)
    ensures c.FractionalFloat? ==> r.Some? && IsStripOf(r.value, c.repr)
    ensures c.TextCell? ==> r.Some? && IsStripOf(r.value, c.text)
  {
    match c
    case Missing => None
    case BoolCell(b) => Some(if b then "True" else "False")
    case IntCell(n) => Some(IntToDecimal(n))
    case IntegralFloat(n) => Some(IntToDecimal(n))
    case FractionalFloat(repr) => Some(Strip(repr))
    case TextCell(t) => Some(Strip(t))
  }

  /** The comprehension's guard `if to_clean_str(x)`: `None` and the empty
      string are falsy, every other string is truthy. */
  function KeptValue(c: Cell): (r: Option<string>)
    ensures r.Some? ==> r == CleanStr(c) && r.value != []
    ensures r.None? ==> CleanStr(c).None? || CleanStr(c).value == []
  {
    match CleanStr(c)
    case Some(s) => if s != [] then Some(s) else None
    case None => None
  }

  /** `[to_clean_str(x) for x in cells if to_clean_str(x)]`: no entry is
      empty. */
  function CleanColumn(cells: seq<Cell>): (r: seq<string>)
    ensures |r| <= |cells|
    ensures forall k :: 0 <= k < |r| ==> r[k] != []
  {
    var r := FilterMap(KeptValue, cells);
    FilterMapSelects(KeptValue, cells);
    r
  }

  /** The registration list is exactly the cleaned non-empty cells, in row
      order: its k-th entry is the cleaned k-th kept cell, the kept cells
      are all the cells whose cleaned string is non-empty, and their rows
      increase. */
  lemma CleanColumnSelects(cells: seq<Cell>)
    ensures var rows := Selected(KeptValue, cells);
      && |CleanColumn(cells)| == |rows|
      && (forall k :: 0 <= k < |rows| ==>
            rows[k] < |cells| && CleanStr(cells[rows[k]]) == Some(CleanColumn(cells)[k]))
      && (forall k, l :: 0 <= k < l < |rows| ==> rows[k] < rows[l])
      && (forall i :: 0 <= i < |cells| && CleanStr(cells[i]).Some? && CleanStr(cells[i]).value != [] ==> i in rows)
  {
    FilterMapSelects(KeptValue, cells);
    var rows := Selected(KeptValue, cells);
    forall i | 0 <= i < |cells| && CleanStr(cells[i]).Some? && CleanStr(cells[i]).value != []
      ensures i in rows
    {
      assert KeptValue(cells[i]).Some?;
    }
  }

  /** Cleaning a column piecewise and concatenating gives the same list. */
  lemma CleanColumnAppend(a: seq<Cell>, b: seq<Cell>)
    ensures CleanColumn(a + b) == CleanColumn(a) + CleanColumn(b)
  {
    FilterMapAppend(KeptValue, a, b);
  }

  /** `df.iloc[1:44, 0]`: the cells of Excel rows 2..44, as many of them as
      the column has (slicing past the end is not an error). */
  function RowWindow(column: seq<Cell>): (r: seq<Cell>)
    ensures |r| <= EndRow - FirstRow
    ensures |r| > 0 ==> FirstRow + |r| <= |column|
    ensures forall k :: 0 <= k < |r| ==> r[k] == column[FirstRow + k]
    ensures |column| >= EndRow ==> |r| == EndRow - FirstRow
    ensures FirstRow <= |column| <= EndRow ==> |r| == |column| - FirstRow
  {
    if |column| <= FirstRow then []
    else if |column| < EndRow then column[FirstRow..]
    else column[FirstRow..EndRow]
  }

  /** `registration_numbers`: at most 43 identifiers, none of them empty. */
  function RegistrationNumbers(column: seq<Cell>): (r: seq<string>)
    ensures |r| <= EndRow - FirstRow
    ensures forall k :: 0 <= k < |r| ==> r[k] != []
  {
    CleanColumn(RowWindow(column))
  }

  /** An integral float such as 27900124001.0 reads exactly like the
      integer 27900124001, without the `.0`. */
  lemma IntegralFloatReadsAsInt(n: int)
    ensures CleanStr(IntegralFloat(n)) == CleanStr(IntCell(n))
    ensures '.' !in CleanStr(IntegralFloat(n)).value
  {
    var r := CleanStr(IntegralFloat(n)).value;
    forall k | 0 <= k < |r| ensures r[k] != '.' {
      if n < 0 && k > 0 {
        assert r[k] == r[1..][k - 1];
      }
    }
  }
}
