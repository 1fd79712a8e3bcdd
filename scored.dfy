/** The row and column layout of the scoring variant (main.py): the total at
    column 3, every later score bucketed into `'-'`, `1.0` or `0.5`, and the
    comment and documentation texts written over the last one or two cells. */
module Scored {
  import opened Results
  import opened Text
  import opened Header
  import opened Records

  /** The cell for a question that was not attempted or earned nothing. */
  const DASH: Cell := Str("-")

  /** The three-bucket score of a raw answer `x` against question `q`'s points.
      The zero test comes first, so a zero answer needs no point total. */
  function Bucket(x: real, points: seq<real>, q: nat): (r: Result<Cell, ParseError>)
    ensures r == Ok(DASH) <==> x == 0.0
    ensures r == Ok(Num(1.0)) <==> x != 0.0 && q < |points| && x == points[q]
    ensures r == Ok(Num(0.5)) <==> x != 0.0 && q < |points| && x != points[q]
    ensures r.Err? <==> x != 0.0 && q >= |points|
  {
    if x == 0.0 then Ok(DASH)
    else if q >= |points| then Err(NoPoints(q))
    else if x == points[q] then Ok(Num(1.0))
    else Ok(Num(0.5))
  }

  /** The output cell for score-row column `j >= 3`: the total itself at column
      3, the bucket of question `j - 4` after it. */
  function CellAt(row: seq<string>, j: nat, points: seq<real>, toFloat: string -> Option<real>): (r: Result<Cell, ParseError>)
    requires 3 <= j < |row|
    ensures toFloat(row[j]).None? ==> r == Err(CellNotNumeric(j))
    ensures j == 3 && toFloat(row[j]).Some? ==> r == Ok(Num(toFloat(row[j]).value))
    ensures j >= 4 && toFloat(row[j]).Some? ==> r == Bucket(toFloat(row[j]).value, points, j - 4)
  {
    match toFloat(row[j])
    case None => Err(CellNotNumeric(j))
    case Some(x) => if j == 3 then Ok(Num(x)) else Bucket(x, points, j - 4)
  }

  /** The cells appended for columns `from` onwards, left to right; the first
      column that fails decides the error. */
  function ScoredFrom(row: seq<string>, from: nat, points: seq<real>, toFloat: string -> Option<real>): (r: Result<seq<Cell>, ParseError>)
    requires 3 <= from
    ensures r.Ok? <==> forall j :: from <= j < |row| ==> CellAt(row, j, points, toFloat).Ok?
    ensures r.Ok? ==>
      |r.value| == (if from <= |row| then |row| - from else 0)
      && forall j :: from <= j < |row| ==> CellAt(row, j, points, toFloat) == Ok(r.value[j - from])
    ensures r.Err? ==> exists j ::
      (from <= j < |row| && CellAt(row, j, points, toFloat) == Err(r.error)
       && forall i :: from <= i < j ==> CellAt(row, i, points, toFloat).Ok?)
    decreases |row| - from
  {
    if from >= |row| then Ok([])
    else
      var c :- CellAt(row, from, points, toFloat);
      var rest :- ScoredFrom(row, from + 1, points, toFloat);
      Ok([c] + rest)
  }

  /** One pass of the inner loop for a column `j >= 3`: the total is
      appended as it is, and a later score as `'-'`, `1.0` or `0.5`. */
  method ScoreCell(row: seq<string>, j: nat, points: seq<real>, toFloat: string -> Option<real>)
    returns (r: Result<Cell, ParseError>)
    requires 3 <= j < |row|
    ensures r == CellAt(row, j, points, toFloat)
  {
    var x := toFloat(row[j]);
    if x.None? {
      return Err(CellNotNumeric(j));
    }
    if j == 3 {
      return Ok(Num(x.value));
    }
    if x.value == 0.0 {
      r := Ok(DASH);
    } else if j - 4 >= |points| {
      r := Err(NoPoints(j - 4));
    } else if x.value == points[j - 4] {
      r := Ok(Num(1.0));
    } else {
      r := Ok(Num(0.5));
    }
  }

  /** A column that scores moves the cells on by one. */
  lemma ScoredStep(row: seq<string>, j: nat, points: seq<real>, toFloat: string -> Option<real>, cells: seq<Cell>, c: Cell)
    requires 3 <= j < |row| && CellAt(row, j, points, toFloat) == Ok(c)
    ensures Prefixed(cells, ScoredFrom(row, j, points, toFloat)) == Prefixed(cells + [c], ScoredFrom(row, j + 1, points, toFloat))
  {
    PrefixedTwice(cells, [c], ScoredFrom(row, j + 1, points, toFloat));
  }

  /** A column that fails fails the cells. */
  lemma ScoredStops(row: seq<string>, j: nat, points: seq<real>, toFloat: string -> Option<real>, cells: seq<Cell>)
    requires 3 <= j < |row| && CellAt(row, j, points, toFloat).Err?
    ensures Prefixed(cells, ScoredFrom(row, j, points, toFloat)) == Err(CellAt(row, j, points, toFloat).error)
  {
  }

  /** The inner loop of `parse_data`: enumerate the score row, append the
      total at column 3 and a bucket for every later column. */
  method ScoreCells(row: seq<string>, points: seq<real>, toFloat: string -> Option<real>)
    returns (r: Result<seq<Cell>, ParseError>)
    ensures r == ScoredFrom(row, 3, points, toFloat)
  {
    ghost var whole := ScoredFrom(row, 3, points, toFloat);
    var cells: seq<Cell> := [];
    var j := 0;
    ghost var from := 3;  // the first column not yet appended
    PrefixedNothing(whole);
    while j < |row|
      invariant 0 <= j <= |row|
      invariant from == if j < 3 then 3 else j
      invariant whole == Prefixed(cells, ScoredFrom(row, from, points, toFloat))
    {
      if j >= 3 {
        var c := ScoreCell(row, j, points, toFloat);
        if c.Err? {
          ScoredStops(row, j, points, toFloat, cells);
          return Err(c.error);
        }
        ScoredStep(row, j, points, toFloat, cells, c.value);
        cells := cells + [c.value];
        from := j + 1;
      }
      j := j + 1;
    }
    assert cells + [] == cells;
    return Ok(cells);
  }

  /** The row emitted for a score row whose identity matched the roster with
      `section`: name, e-mail, section, the scored cells, then the
      documentation text in the last cell and the comment text in the last
      cell or the one before it. Every cell not overwritten stays aligned with
      its score-row column. */
  function Row(hdr: AssignmentHeader, toFloat: string -> Option<real>, id: Identity, section: string, row: seq<string>)
    : (r: Result<seq<Cell>, ParseError>)
    ensures r.Ok? <==> ScoredFrom(row, 3, hdr.points, toFloat).Ok?
    ensures r.Ok? ==>
      var keep := |r.value| - TailWidth(hdr.commentIdx, hdr.documentationIdx);
      && |r.value| == Width(row)
      && (Truthy(hdr.documentationIdx) ==> r.value[|r.value| - 1] == Str(TextOrEmpty(id.documentation)))
      && (Truthy(hdr.commentIdx) ==>
            r.value[if Truthy(hdr.documentationIdx) then |r.value| - 2 else |r.value| - 1] == Str(TextOrEmpty(id.comment)))
      && (0 < keep ==> r.value[0] == Str(id.name))
      && (1 < keep ==> r.value[1] == Str(id.email))
      && (2 < keep ==> r.value[2] == Str(section))
      && forall j :: 3 <= j < keep ==> CellAt(row, j, hdr.points, toFloat) == Ok(r.value[j])
  {
    var cells :- ScoredFrom(row, 3, hdr.points, toFloat);
    var nRow := [Str(id.name), Str(id.email), Str(section)] + cells;
    Ok(TailOverwrite(nRow, hdr.commentIdx, hdr.documentationIdx,
                     Str(TextOrEmpty(id.comment)), Str(TextOrEmpty(id.documentation))))
  }

  /** The branch of `parse_data` for a matched score row, as statements. */
  method BuildRow(hdr: AssignmentHeader, toFloat: string -> Option<real>, id: Identity, section: string, row: seq<string>)
    returns (r: Result<seq<Cell>, ParseError>)
    ensures r == Row(hdr, toFloat, id, section, row)
  {
    var nRow := [Str(id.name), Str(id.email), Str(section)];
    var cells := ScoreCells(row, hdr.points, toFloat);
    if cells.Err? {
      return Err(cells.error);
    }
    nRow := nRow + cells.value;
    if Truthy(hdr.documentationIdx) {
      nRow := nRow[|nRow| - 1 := Str(TextOrEmpty(id.documentation))];
    }
    if Truthy(hdr.commentIdx) {
      nRow := nRow[(if Truthy(hdr.documentationIdx) then |nRow| - 2 else |nRow| - 1) := Str(TextOrEmpty(id.comment))];
    }
    return Ok(nRow);
  }

  /** `['Name', 'Email', 'Section', 'Total'] + [Q1 .. Qn]`, the last one or two
      names renamed `Documentation` and `Comment` by the same rule as the
      row cells. */
  function Columns(nQuestions: nat, commentIdx: Option<nat>, documentationIdx: Option<nat>): (r: seq<string>)
    ensures |r| == 4 + nQuestions
    ensures forall k :: 0 <= k < |r| - TailWidth(commentIdx, documentationIdx) ==>
      r[k] == (["Name", "Email", "Section", "Total"] + QNames(nQuestions))[k]
    ensures Truthy(documentationIdx) ==> r[|r| - 1] == "Documentation"
    ensures Truthy(commentIdx) ==> r[if Truthy(documentationIdx) then |r| - 2 else |r| - 1] == "Comment"
  {
    TailOverwrite(["Name", "Email", "Section", "Total"] + QNames(nQuestions), commentIdx, documentationIdx,
                  "Comment", "Documentation")
  }

  /** In a row as wide as the column header, the column named `Comment` holds
      the comment text and the column named `Documentation` the documentation
      text. */
  lemma LabelsMatchCells(hdr: AssignmentHeader, toFloat: string -> Option<real>, id: Identity, section: string, row: seq<string>, k: nat)
    requires Row(hdr, toFloat, id, section, row).Ok?
    requires |row| == 4 + hdr.nQuestions && k < |row|
    ensures var cols := Columns(hdr.nQuestions, hdr.commentIdx, hdr.documentationIdx);
      var cells := Row(hdr, toFloat, id, section, row).value;
      && (cols[k] == "Comment" ==> cells[k] == Str(TextOrEmpty(id.comment)))
      && (cols[k] == "Documentation" ==> cells[k] == Str(TextOrEmpty(id.documentation)))
  {
    var cols := Columns(hdr.nQuestions, hdr.commentIdx, hdr.documentationIdx);
    var base := ["Name", "Email", "Section", "Total"] + QNames(hdr.nQuestions);
    if k < |cols| - TailWidth(hdr.commentIdx, hdr.documentationIdx) {
      assert cols[k] == base[k];
      if k >= 4 {
        assert base[k] == QNames(hdr.nQuestions)[k - 4];
        assert base[k][0] == 'Q';
      }
    }
  }
}
