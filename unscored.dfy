/** The row and column layout of the refactored variant (main_refactor.py):
    every score-row field from column 3 on is copied as a number, and the
    comment and statement texts are written at their absolute column index. */
module Unscored {
  import opened Results
  import opened Text
  import opened Header
  import opened Records

  /** `float(entry)` for score-row column `j`. */
  function NumberAt(row: seq<string>, j: nat, toFloat: string -> Option<real>): (r: Result<Cell, ParseError>)
    requires j < |row|
    ensures r.Ok? <==> toFloat(row[j]).Some?
    ensures r.Ok? ==> r.value == Num(toFloat(row[j]).value)
    ensures r.Err? ==> r.error == CellNotNumeric(j)
  {
    match toFloat(row[j])
    case None => Err(CellNotNumeric(j))
    case Some(x) => Ok(Num(x))
  }

  /** The numbers of columns `from` onwards, left to right; the first field
      `float` rejects decides the error. */
  function CopiedFrom(row: seq<string>, from: nat, toFloat: string -> Option<real>): (r: Result<seq<Cell>, ParseError>)
    ensures r.Ok? <==> forall j :: from <= j < |row| ==> toFloat(row[j]).Some?
    ensures r.Ok? ==>
      |r.value| == (if from <= |row| then |row| - from else 0)
      && forall j :: from <= j < |row| ==> r.value[j - from] == Num(toFloat(row[j]).value)
    ensures r.Err? ==> exists j ::
      (from <= j < |row| && r.error == CellNotNumeric(j) && toFloat(row[j]).None?
       && forall i :: from <= i < j ==> toFloat(row[i]).Some?)
    decreases |row| - from
  {
    if from >= |row| then Ok([])
    else
      var c :- NumberAt(row, from, toFloat);
      var rest :- CopiedFrom(row, from + 1, toFloat);
      Ok([c] + rest)
  }

  /** A numeric column moves the copy on by one. */
  lemma CopiedStep(row: seq<string>, j: nat, toFloat: string -> Option<real>, cells: seq<Cell>, x: real)
    requires j < |row| && toFloat(row[j]) == Some(x)
    ensures Prefixed(cells, CopiedFrom(row, j, toFloat)) == Prefixed(cells + [Num(x)], CopiedFrom(row, j + 1, toFloat))
  {
    PrefixedTwice(cells, [Num(x)], CopiedFrom(row, j + 1, toFloat));
  }

  /** The inner loop of `parse_data`: enumerate the score row and append
      `float(entry)` for every column from 3 on. */
  method CopyCells(row: seq<string>, toFloat: string -> Option<real>) returns (r: Result<seq<Cell>, ParseError>)
    ensures r == CopiedFrom(row, 3, toFloat)
  {
    ghost var whole := CopiedFrom(row, 3, toFloat);
    var cells: seq<Cell> := [];
    var j := 0;
    ghost var from := 3;  // the first column not yet appended
    PrefixedNothing(whole);
    while j < |row|
      invariant 0 <= j <= |row|
      invariant from == if j < 3 then 3 else j
      invariant whole == Prefixed(cells, CopiedFrom(row, from, toFloat))
    {
      if j >= 3 {
        var x := toFloat(row[j]);
        if x.None? {
          return Err(CellNotNumeric(j));
        }
        CopiedStep(row, j, toFloat, cells, x.value);
        cells := cells + [Num(x.value)];
        from := j + 1;
      }
      j := j + 1;
    }
    assert cells + [] == cells;
    return Ok(cells);
  }

  /** `nRow[comment_idx] = comment` and then `nRow[statement_idx] = statement`,
      each only when its index is truthy; an index past the row raises. The
      statement is written second, so it wins when the indices coincide. */
  function PlaceText(nRow: seq<Cell>, commentIdx: Option<nat>, statementIdx: Option<nat>, comment: Option<string>, statement: Option<string>)
    : (r: Result<seq<Cell>, ParseError>)
    ensures r.Ok? <==> (Truthy(commentIdx) ==> commentIdx.value < |nRow|) && (Truthy(statementIdx) ==> statementIdx.value < |nRow|)
    ensures r.Err? ==>
      r.error == IndexOutOfRange(if Truthy(commentIdx) && commentIdx.value >= |nRow| then commentIdx.value else statementIdx.value)
    ensures r.Ok? ==> |r.value| == |nRow|
    ensures r.Ok? && Truthy(statementIdx) ==> r.value[statementIdx.value] == Str(TextOrEmpty(statement))
    ensures r.Ok? && Truthy(commentIdx) && !(Truthy(statementIdx) && statementIdx.value == commentIdx.value) ==>
      r.value[commentIdx.value] == Str(TextOrEmpty(comment))
    ensures r.Ok? ==> forall k ::
      (0 <= k < |nRow| && !(Truthy(commentIdx) && k == commentIdx.value) && !(Truthy(statementIdx) && k == statementIdx.value)
       ==> r.value[k] == nRow[k])
  {
    if Truthy(commentIdx) && commentIdx.value >= |nRow| then Err(IndexOutOfRange(commentIdx.value))
    else
      var nRow1 := if Truthy(commentIdx) then nRow[commentIdx.value := Str(TextOrEmpty(comment))] else nRow;
      if Truthy(statementIdx) && statementIdx.value >= |nRow1| then Err(IndexOutOfRange(statementIdx.value))
      else Ok(if Truthy(statementIdx) then nRow1[statementIdx.value := Str(TextOrEmpty(statement))] else nRow1)
  }

  /** With neither index truthy (unset, or 0) nothing is written. */
  lemma PlaceTextNoIndices(nRow: seq<Cell>, commentIdx: Option<nat>, statementIdx: Option<nat>, comment: Option<string>, statement: Option<string>)
    requires !Truthy(commentIdx) && !Truthy(statementIdx)
    ensures PlaceText(nRow, commentIdx, statementIdx, comment, statement) == Ok(nRow)
  {
  }

  /** The row emitted for a score row whose identity matched the roster with
      `section`: name, e-mail, section, then the numbers of columns 3
      onwards, so that every cell not overwritten by the free text holds the
      number of the same score-row column. An index is truthy only when it
      is not 0, so the name is never overwritten. */
  function Row(hdr: AssignmentHeader, toFloat: string -> Option<real>, id: Identity, section: string, row: seq<string>)
    : (r: Result<seq<Cell>, ParseError>)
    ensures r.Ok? <==>
      (forall j :: 3 <= j < |row| ==> toFloat(row[j]).Some?)
      && (Truthy(hdr.commentIdx) ==> hdr.commentIdx.value < Width(row))
      && (Truthy(hdr.documentationIdx) ==> hdr.documentationIdx.value < Width(row))
    ensures r.Ok? ==>
      && |r.value| == Width(row)
      && r.value[0] == Str(id.name)
      && (!(Truthy(hdr.commentIdx) && hdr.commentIdx.value == 1) && !(Truthy(hdr.documentationIdx) && hdr.documentationIdx.value == 1)
          ==> r.value[1] == Str(id.email))
      && (!(Truthy(hdr.commentIdx) && hdr.commentIdx.value == 2) && !(Truthy(hdr.documentationIdx) && hdr.documentationIdx.value == 2)
          ==> r.value[2] == Str(section))
      && (Truthy(hdr.documentationIdx) ==> r.value[hdr.documentationIdx.value] == Str(TextOrEmpty(id.documentation)))
      && (Truthy(hdr.commentIdx) && !(Truthy(hdr.documentationIdx) && hdr.documentationIdx.value == hdr.commentIdx.value) ==>
            r.value[hdr.commentIdx.value] == Str(TextOrEmpty(id.comment)))
      && forall j ::
           (3 <= j < |row| && !(Truthy(hdr.commentIdx) && j == hdr.commentIdx.value)
            && !(Truthy(hdr.documentationIdx) && j == hdr.documentationIdx.value)
            ==> r.value[j] == Num(toFloat(row[j]).value))
  {
    var cells :- CopiedFrom(row, 3, toFloat);
    var nRow := [Str(id.name), Str(id.email), Str(section)] + cells;
    PlaceText(nRow, hdr.commentIdx, hdr.documentationIdx, id.comment, id.documentation)
  }

  /** The branch of `parse_data` for a matched score row, as statements. */
  method BuildRow(hdr: AssignmentHeader, toFloat: string -> Option<real>, id: Identity, section: string, row: seq<string>)
    returns (r: Result<seq<Cell>, ParseError>)
    ensures r == Row(hdr, toFloat, id, section, row)
  {
    var nRow := [Str(id.name), Str(id.email), Str(section)];
    var cells := CopyCells(row, toFloat);
    if cells.Err? {
      return Err(cells.error);
    }
    nRow := nRow + cells.value;
    if Truthy(hdr.commentIdx) {
      if hdr.commentIdx.value >= |nRow| {
        return Err(IndexOutOfRange(hdr.commentIdx.value));
      }
      nRow := nRow[hdr.commentIdx.value := Str(TextOrEmpty(id.comment))];
    }
    if Truthy(hdr.documentationIdx) {
      if hdr.documentationIdx.value >= |nRow| {
        return Err(IndexOutOfRange(hdr.documentationIdx.value));
      }
      nRow := nRow[hdr.documentationIdx.value := Str(TextOrEmpty(id.documentation))];
    }
    return Ok(nRow);
  }

  /** `['Name', 'Email', 'Section'] + [Q1 .. Q(n+1)]`, the last name renamed
      `Statement` when there is a statement index and `Comment` going into the
      last or second-to-last name. */
  function Columns(nQuestions: nat, commentIdx: Option<nat>, statementIdx: Option<nat>): (r: seq<string>)
    ensures |r| == 4 + nQuestions
    ensures forall k :: 0 <= k < |r| - TailWidth(commentIdx, statementIdx) ==>
      r[k] == (["Name", "Email", "Section"] + QNames(nQuestions + 1))[k]
    ensures Truthy(statementIdx) ==> r[|r| - 1] == "Statement"
    ensures Truthy(commentIdx) ==> r[if Truthy(statementIdx) then |r| - 2 else |r| - 1] == "Comment"
  {
    TailOverwrite(["Name", "Email", "Section"] + QNames(nQuestions + 1), commentIdx, statementIdx,
                  "Comment", "Statement")
  }

  /** The names and the cells are placed by different rules: in a row as wide
      as the column header, the column named `Statement` holds the statement
      text exactly when the statement index is the last column. */
  lemma StatementLabelAgreement(hdr: AssignmentHeader, toFloat: string -> Option<real>, id: Identity, section: string, row: seq<string>)
    requires Row(hdr, toFloat, id, section, row).Ok?
    requires |row| == 4 + hdr.nQuestions && Truthy(hdr.documentationIdx)
    ensures var cols := Columns(hdr.nQuestions, hdr.commentIdx, hdr.documentationIdx);
      var cells := Row(hdr, toFloat, id, section, row).value;
      && cols[|row| - 1] == "Statement"
      && (hdr.documentationIdx.value == |row| - 1 ==> cells[|row| - 1] == Str(TextOrEmpty(id.documentation)))
      && (hdr.documentationIdx.value != |row| - 1 && !(Truthy(hdr.commentIdx) && hdr.commentIdx.value == |row| - 1)
          ==> cells[|row| - 1].Num?)
  {
  }
}
