/** The values `parse_data` works with: output cells, the identity carried
    from an identity row to the next score row, its errors and the final table. */
module Records {
  import opened Results
  import opened Text

  /** An output cell: a string (names, e-mails, sections, `'-'`, free text),
      a number, or the missing value a table puts past the end of a short row. */
  datatype Cell = Str(text: string) | Num(value: real) | Missing

  /** What an identity row leaves for the score row after it. */
  datatype Identity = Identity(name: string, email: string, comment: Option<string>, documentation: Option<string>)

  /** The exceptions `parse_data` can raise: `IndexError` for a missing field,
      a missing point total or an overwrite index past the row, `ValueError`
      for a cell `float` rejects or a table whose rows do not fit the column
      header, and the failure of the roster lookup when no roster is loaded. */
  datatype ParseError =
    | MissingField(column: nat)
    | CellNotNumeric(column: nat)
    | NoPoints(question: nat)
    | IndexOutOfRange(index: nat)
    | ColumnCountMismatch(columns: nat, cells: nat)
    | NoRoster

  /** The result table: the column header and the emitted rows. */
  datatype Table = Table(columns: seq<string>, rows: seq<seq<Cell>>)

  /** Python truthiness of an optional index: `None` and `0` are both false. */
  predicate Truthy(idx: Option<nat>) {
    idx.Some? && idx.value != 0
  }

  /** `text if text else ''`. */
  function TextOrEmpty(text: Option<string>): (r: string)
    ensures r == if text.Some? then text.value else ""
  {
    if text.Some? && text.value != "" then text.value else ""
  }

  /** How many tail cells the last-two-cells overwrite of the scored variant
      (and the column renaming of both variants) touches. */
  function TailWidth(commentIdx: Option<nat>, lastIdx: Option<nat>): nat {
    (if Truthy(commentIdx) then 1 else 0) + (if Truthy(lastIdx) then 1 else 0)
  }

  /** `s[-1] = last` when the last index is truthy, then
      `s[-2 if last index else -1] = comment` when the comment index is
      truthy. Only the tail changes, and the length does not. */
  function TailOverwrite<T>(s: seq<T>, commentIdx: Option<nat>, lastIdx: Option<nat>, comment: T, last: T): (r: seq<T>)
    requires |s| >= 2
    ensures |r| == |s|
    ensures Truthy(lastIdx) ==> r[|r| - 1] == last
    ensures Truthy(commentIdx) ==> r[if Truthy(lastIdx) then |r| - 2 else |r| - 1] == comment
    ensures forall k :: 0 <= k < |s| - TailWidth(commentIdx, lastIdx) ==> r[k] == s[k]
  {
    var s1 := if Truthy(lastIdx) then s[|s| - 1 := last] else s;
    if Truthy(commentIdx) then s1[(if Truthy(lastIdx) then |s1| - 2 else |s1| - 1) := comment] else s1
  }

  /** Without truthy indices nothing is overwritten. */
  lemma TailOverwriteNoIndices<T>(s: seq<T>, commentIdx: Option<nat>, lastIdx: Option<nat>, comment: T, last: T)
    requires |s| >= 2 && !Truthy(commentIdx) && !Truthy(lastIdx)
    ensures TailOverwrite(s, commentIdx, lastIdx, comment, last) == s
  {
  }

  /** `[f'Q{x + 1}' for x in range(n)]`. */
  function QNames(n: nat): (r: seq<string>)
    ensures |r| == n
    ensures forall k :: 0 <= k < n ==> r[k] == "Q" + NatToString(k + 1)
  {
    seq(n, k requires 0 <= k < n => "Q" + NatToString(k + 1))
  }

  /** No two question names are equal, so the column names are unique. */
  lemma QNamesDistinct(n: nat)
    ensures forall k, l :: 0 <= k < l < n ==> QNames(n)[k] != QNames(n)[l]
  {
    forall k, l | 0 <= k < l < n ensures QNames(n)[k] != QNames(n)[l] {
      if QNames(n)[k] == QNames(n)[l] {
        QNameInjective(k + 1, l + 1);
      }
    }
  }

  /** Two question names are equal only for equal question numbers. */
  lemma QNameInjective(a: nat, b: nat)
    requires "Q" + NatToString(a) == "Q" + NatToString(b)
    ensures a == b
  {
    assert NatToString(a) == ("Q" + NatToString(a))[1..];
    assert NatToString(b) == ("Q" + NatToString(b))[1..];
  }

  /** Width of the row `parse_data` builds from a score row: three identity
      cells, then one cell per score-row field from column 3 on. */
  function Width(row: seq<string>): nat {
    if |row| <= 3 then 3 else |row|
  }

  /** `result` prefixed to a later result, or the later error. */
  function Prefixed<T, E>(pre: seq<T>, r: Result<seq<T>, E>): Result<seq<T>, E> {
    match r
    case Ok(xs) => Ok(pre + xs)
    case Err(e) => Err(e)
  }

  lemma PrefixedNothing<T, E>(r: Result<seq<T>, E>)
    ensures Prefixed([], r) == r
  {
    if r.Ok? { assert [] + r.value == r.value; }
  }

  lemma PrefixedTwice<T, E>(pre: seq<T>, mid: seq<T>, r: Result<seq<T>, E>)
    ensures Prefixed(pre, Prefixed(mid, r)) == Prefixed(pre + mid, r)
  {
    if r.Ok? { assert pre + (mid + r.value) == (pre + mid) + r.value; }
  }

  /** The width of the widest row, 0 when there are none. */
  function MaxWidth(rows: seq<seq<Cell>>): (w: nat)
    ensures forall k :: 0 <= k < |rows| ==> |rows[k]| <= w
    ensures rows != [] ==> exists k :: 0 <= k < |rows| && |rows[k]| == w
    ensures rows == [] ==> w == 0
  {
    if rows == [] then 0
    else
      var w := MaxWidth(rows[1..]);
      assert forall k :: 0 < k < |rows| ==> rows[k] == rows[1..][k - 1];
      if |rows[0]| >= w then |rows[0]| else w
  }

  /** `row` followed by missing values up to `width` cells. */
  function Pad(row: seq<Cell>, width: nat): (r: seq<Cell>)
    requires |row| <= width
    ensures |r| == width && r[..|row|] == row
    ensures forall c :: |row| <= c < width ==> r[c] == Missing
  {
    row + seq(width - |row|, _ => Missing)
  }

  /** `pd.DataFrame(result, columns=header)` on a list of lists: the rows are
      padded with missing values to the widest row, and the widest row must
      have exactly one cell per column name. No rows always fit. */
  function BuildTable(columns: seq<string>, rows: seq<seq<Cell>>): (r: Result<Table, ParseError>)
    ensures r.Ok? <==> rows == [] || MaxWidth(rows) == |columns|
    ensures r.Err? ==> r.error == ColumnCountMismatch(|columns|, MaxWidth(rows))
    ensures r.Ok? ==>
      && r.value.columns == columns
      && |r.value.rows| == |rows|
      && forall k :: 0 <= k < |rows| ==>
           |r.value.rows[k]| == |columns| && r.value.rows[k][..|rows[k]|] == rows[k]
           && forall c :: |rows[k]| <= c < |columns| ==> r.value.rows[k][c] == Missing
  {
    if rows != [] && MaxWidth(rows) != |columns| then Err(ColumnCountMismatch(|columns|, MaxWidth(rows)))
    else Ok(Table(columns, seq(|rows|, k requires 0 <= k < |rows| => Pad(rows[k], |columns|))))
  }

  /** Rows that are all as wide as the column header go into the table as
      they are. */
  lemma BuildTableExact(columns: seq<string>, rows: seq<seq<Cell>>)
    requires forall k :: 0 <= k < |rows| ==> |rows[k]| == |columns|
    ensures BuildTable(columns, rows) == Ok(Table(columns, rows))
  {
    if rows != [] {
      var k :| 0 <= k < |rows| && |rows[k]| == MaxWidth(rows);
    }
    var t := BuildTable(columns, rows).value;
    forall k | 0 <= k < |rows| ensures t.rows[k] == rows[k] {
      assert t.rows[k][..|rows[k]|] == t.rows[k];
    }
    assert t.rows == rows;
  }
}
