/** `parse_data`: body rows alternate between identity rows (even positions)
    and score rows (odd positions); each score row is joined to the roster by
    the e-mail of the identity row before it and, when it matches, becomes one
    output row. Both programs share this loop; they differ only in how the
    output row is built (`Variant`). */
module Pairing {
  import opened Results
  import opened Text
  import opened Roster
  import opened Header
  import opened Records
  import Scored
  import Unscored

  /** main.py buckets the scores; main_refactor.py copies the raw numbers. */
  datatype Variant = Bucketed | Raw

  // ---------------------------------------------------------------------------
  // Identity rows
  // ---------------------------------------------------------------------------

  /** `row[idx] if idx else None`. */
  function TextField(row: seq<string>, idx: Option<nat>): (r: Result<Option<string>, ParseError>)
    ensures !Truthy(idx) ==> r == Ok(None)
    ensures Truthy(idx) ==> (r.Ok? <==> idx.value < |row|)
    ensures Truthy(idx) && r.Ok? ==> r.value == Some(row[idx.value])
    ensures r.Err? ==> r.error == MissingField(idx.value)
  {
    if !Truthy(idx) then Ok(None)
    else if idx.value < |row| then Ok(Some(row[idx.value]))
    else Err(MissingField(idx.value))
  }

  /** What an identity row leaves behind: the e-mail cut before `@usafa`, the
      normalised name, and the comment and documentation texts at the
      configured columns (none when the index is unset or 0). */
  function IdentityOf(row: seq<string>, hdr: AssignmentHeader): (r: Result<Identity, ParseError>)
    ensures r.Ok? <==>
      2 <= |row|
      && (Truthy(hdr.commentIdx) ==> hdr.commentIdx.value < |row|)
      && (Truthy(hdr.documentationIdx) ==> hdr.documentationIdx.value < |row|)
    ensures |row| < 2 ==> r == Err(MissingField(1))
    ensures r.Ok? ==>
      && r.value.email == BeforeMarker(row[1], EMAIL_MARKER)
      && r.value.name == ProcessNames(row[0])
      && r.value.comment == (if Truthy(hdr.commentIdx) then Some(row[hdr.commentIdx.value]) else None)
      && r.value.documentation == (if Truthy(hdr.documentationIdx) then Some(row[hdr.documentationIdx.value]) else None)
  {
    if |row| < 2 then Err(MissingField(1))
    else
      var comment :- TextField(row, hdr.commentIdx);
      var documentation :- TextField(row, hdr.documentationIdx);
      Ok(Identity(ProcessNames(row[0]), BeforeMarker(row[1], EMAIL_MARKER), comment, documentation))
  }

  // ---------------------------------------------------------------------------
  // Score rows
  // ---------------------------------------------------------------------------

  function RowOf(v: Variant, hdr: AssignmentHeader, toFloat: string -> Option<real>, id: Identity, section: string, row: seq<string>)
    : Result<seq<Cell>, ParseError>
  {
    match v
    case Bucketed => Scored.Row(hdr, toFloat, id, section, row)
    case Raw => Unscored.Row(hdr, toFloat, id, section, row)
  }

  /** The rows a score row contributes: none when its identity's e-mail is in
      no roster entry, otherwise the row built with the section of the first
      roster entry with that e-mail. Looking up a roster that was never loaded
      fails. */
  function Emit(v: Variant, hdr: AssignmentHeader, toFloat: string -> Option<real>, roster: Option<seq<RosterEntry>>,
                id: Identity, row: seq<string>): (r: Result<seq<seq<Cell>>, ParseError>)
    ensures roster.None? ==> r == Err(NoRoster)
    ensures roster.Some? && !HasEmail(roster.value, id.email) ==> r == Ok([])
    ensures r.Ok? ==> |r.value| <= 1 && (|r.value| == 1 <==> HasEmail(roster.value, id.email))
    ensures roster.Some? && HasEmail(roster.value, id.email) ==>
      var built := RowOf(v, hdr, toFloat, id, FirstSection(roster.value, id.email).value, row);
      && (r.Ok? <==> built.Ok?)
      && (r.Ok? ==> r.value == [built.value])
      && (r.Err? ==> r.error == built.error)
  {
    match roster
    case None => Err(NoRoster)
    case Some(entries) =>
      match FirstSection(entries, id.email)
      case None => Ok([])
      case Some(section) =>
        var cells :- RowOf(v, hdr, toFloat, id, section, row);
        Ok([cells])
  }

  /** The matched-row branch of the loop, as statements. */
  method ScoreRow(v: Variant, hdr: AssignmentHeader, toFloat: string -> Option<real>, roster: Option<seq<RosterEntry>>,
                  id: Identity, row: seq<string>) returns (r: Result<seq<seq<Cell>>, ParseError>)
    ensures r == Emit(v, hdr, toFloat, roster, id, row)
  {
    if roster.None? {
      return Err(NoRoster);
    }
    var section := FirstSection(roster.value, id.email);
    if section.None? {
      return Ok([]);
    }
    var nRow: Result<seq<Cell>, ParseError>;
    if v == Bucketed {
      nRow := Scored.BuildRow(hdr, toFloat, id, section.value, row);
    } else {
      nRow := Unscored.BuildRow(hdr, toFloat, id, section.value, row);
    }
    if nRow.Err? {
      return Err(nRow.error);
    }
    return Ok([nRow.value]);
  }

  // ---------------------------------------------------------------------------
  // The pairing specification
  // ---------------------------------------------------------------------------

  /** The output rows of a body, pair by pair in input order: the identity row
      is read first (and can fail even when it is the last, unpaired row), then
      the score row after it. */
  function Paired(v: Variant, rows: seq<seq<string>>, hdr: AssignmentHeader, roster: Option<seq<RosterEntry>>,
                  toFloat: string -> Option<real>): Result<seq<seq<Cell>>, ParseError>
    decreases |rows|
  {
    if rows == [] then Ok([])
    else
      var id :- IdentityOf(rows[0], hdr);
      if |rows| == 1 then Ok([])
      else
        var out :- Emit(v, hdr, toFloat, roster, id, rows[1]);
        var rest :- Paired(v, rows[2..], hdr, roster, toFloat);
        Ok(out + rest)
  }

  /** Sequential composition of two results: the first error wins. */
  function Chain<T, E>(a: Result<seq<T>, E>, b: Result<seq<T>, E>): Result<seq<T>, E> {
    match a
    case Err(e) => Err(e)
    case Ok(xs) => Prefixed(xs, b)
  }

  /** There are at most half as many output rows as body rows. */
  lemma {:induction false} PairedBound(v: Variant, rows: seq<seq<string>>, hdr: AssignmentHeader,
                                       roster: Option<seq<RosterEntry>>, toFloat: string -> Option<real>)
    requires Paired(v, rows, hdr, roster, toFloat).Ok?
    ensures |Paired(v, rows, hdr, roster, toFloat).value| <= |rows| / 2
    decreases |rows|
  {
    if |rows| >= 2 {
      PairedBound(v, rows[2..], hdr, roster, toFloat);
    }
  }

  /** Pairing a body split after an even number of rows is pairing the two
      parts one after the other: rows are paired only with their neighbour,
      output keeps input order, and the first error wins. */
  lemma {:induction false} PairedAppend(v: Variant, a: seq<seq<string>>, b: seq<seq<string>>, hdr: AssignmentHeader,
                                        roster: Option<seq<RosterEntry>>, toFloat: string -> Option<real>)
    requires |a| % 2 == 0
    ensures Paired(v, a + b, hdr, roster, toFloat) == Chain(Paired(v, a, hdr, roster, toFloat), Paired(v, b, hdr, roster, toFloat))
    decreases |a|
  {
    if a == [] {
      assert a + b == b;
      PrefixedNothing(Paired(v, b, hdr, roster, toFloat));
    } else {
      var ab := a + b;
      assert ab[0] == a[0] && ab[1] == a[1] && ab[2..] == a[2..] + b;
      PairedAppend(v, a[2..], b, hdr, roster, toFloat);
      var id := IdentityOf(a[0], hdr);
      if id.Ok? {
        var out := Emit(v, hdr, toFloat, roster, id.value, a[1]);
        if out.Ok? {
          var pa := Paired(v, a[2..], hdr, roster, toFloat);
          if pa.Ok? {
            PrefixedTwice(out.value, pa.value, Paired(v, b, hdr, roster, toFloat));
          }
        }
      }
    }
  }

  /** One identity row and its score row give one output row exactly when the
      identity's e-mail equals some roster e-mail, and no row otherwise. */
  lemma PairedOnePair(v: Variant, idRow: seq<string>, scoreRow: seq<string>, hdr: AssignmentHeader,
                      roster: seq<RosterEntry>, toFloat: string -> Option<real>)
    requires Paired(v, [idRow, scoreRow], hdr, Some(roster), toFloat).Ok?
    ensures IdentityOf(idRow, hdr).Ok?
    ensures var out := Paired(v, [idRow, scoreRow], hdr, Some(roster), toFloat).value;
      var id := IdentityOf(idRow, hdr).value;
      && |out| <= 1
      && (|out| == 1 <==> HasEmail(roster, id.email))
      && (|out| == 1 ==> Ok(out[0]) == RowOf(v, hdr, toFloat, id, FirstSection(roster, id.email).value, scoreRow))
  {
    var rows := [idRow, scoreRow];
    assert rows[0] == idRow && rows[1] == scoreRow && rows[2..] == [];
    var id := IdentityOf(idRow, hdr).value;
    var out := Emit(v, hdr, toFloat, Some(roster), id, scoreRow).value;
    assert Paired(v, rows, hdr, Some(roster), toFloat).value == out + [];
  }

  /** A trailing unpaired identity row produces no output row; it only fails
      when its own fields are missing. */
  lemma PairedTrailing(v: Variant, rows: seq<seq<string>>, last: seq<string>, hdr: AssignmentHeader,
                       roster: Option<seq<RosterEntry>>, toFloat: string -> Option<real>)
    requires |rows| % 2 == 0
    ensures Paired(v, rows + [last], hdr, roster, toFloat)
      == Chain(Paired(v, rows, hdr, roster, toFloat),
               match IdentityOf(last, hdr) case Ok(_) => Ok([]) case Err(e) => Err(e))
  {
    PairedAppend(v, rows, [last], hdr, roster, toFloat);
  }

  /** The join is by e-mail only: two rosters with the same e-mails and
      sections, in the same order, give the same output whatever their names. */
  lemma {:induction false} PairedIgnoresNames(v: Variant, rows: seq<seq<string>>, hdr: AssignmentHeader,
                                              r1: seq<RosterEntry>, r2: seq<RosterEntry>, toFloat: string -> Option<real>)
    requires JoinKeys(r1) == JoinKeys(r2)
    ensures Paired(v, rows, hdr, Some(r1), toFloat) == Paired(v, rows, hdr, Some(r2), toFloat)
    decreases |rows|
  {
    if |rows| >= 2 {
      var id := IdentityOf(rows[0], hdr);
      if id.Ok? {
        FirstSectionIgnoresNames(r1, r2, id.value.email);
        assert HasEmail(r1, id.value.email) == HasEmail(r2, id.value.email);
      }
      PairedIgnoresNames(v, rows[2..], hdr, r1, r2, toFloat);
    }
  }

  /** Every output row is as wide as the score row it came from (three
      identity cells, then one cell per score-row column from 3 on). */
  lemma {:induction false} PairedWidths(v: Variant, rows: seq<seq<string>>, hdr: AssignmentHeader,
                                        roster: Option<seq<RosterEntry>>, toFloat: string -> Option<real>)
    requires Paired(v, rows, hdr, roster, toFloat).Ok?
    ensures var out := Paired(v, rows, hdr, roster, toFloat).value;
      forall k :: 0 <= k < |out| ==> exists i :: 0 <= i < |rows| && i % 2 == 1 && |out[k]| == Width(rows[i])
    decreases |rows|
  {
    if |rows| >= 2 {
      var id := IdentityOf(rows[0], hdr).value;
      var first := Emit(v, hdr, toFloat, roster, id, rows[1]).value;
      var rest := Paired(v, rows[2..], hdr, roster, toFloat).value;
      PairedWidths(v, rows[2..], hdr, roster, toFloat);
      var out := first + rest;
      forall k | 0 <= k < |out| ensures exists i :: 0 <= i < |rows| && i % 2 == 1 && |out[k]| == Width(rows[i]) {
        if k < |first| {
          assert |out[k]| == Width(rows[1]);
        } else {
          var i :| 0 <= i < |rows[2..]| && i % 2 == 1 && |rest[k - |first|]| == Width(rows[2..][i]);
          assert rows[2..][i] == rows[i + 2];
        }
      }
    }
  }

  /** `Paired` on the rows from an identity row at position `i` on. */
  lemma PairedAt(v: Variant, rows: seq<seq<string>>, i: nat, hdr: AssignmentHeader,
                 roster: Option<seq<RosterEntry>>, toFloat: string -> Option<real>)
    requires i < |rows|
    ensures IdentityOf(rows[i], hdr).Err? ==>
      Paired(v, rows[i..], hdr, roster, toFloat) == Err(IdentityOf(rows[i], hdr).error)
    ensures IdentityOf(rows[i], hdr).Ok? && i + 1 == |rows| ==>
      Paired(v, rows[i..], hdr, roster, toFloat) == Ok([])
    ensures IdentityOf(rows[i], hdr).Ok? && i + 1 < |rows| ==>
      Paired(v, rows[i..], hdr, roster, toFloat)
      == Chain(Emit(v, hdr, toFloat, roster, IdentityOf(rows[i], hdr).value, rows[i + 1]),
               Paired(v, rows[i + 2..], hdr, roster, toFloat))
  {
    var tail := rows[i..];
    assert tail[0] == rows[i];
    if i + 1 < |rows| {
      assert tail[1] == rows[i + 1] && tail[2..] == rows[i + 2..];
    }
  }

  /** The identity branch of the loop, as statements. */
  method ReadIdentity(row: seq<string>, hdr: AssignmentHeader) returns (r: Result<Identity, ParseError>)
    ensures r == IdentityOf(row, hdr)
  {
    if |row| < 2 {
      return Err(MissingField(1));
    }
    var email := BeforeMarker(row[1], EMAIL_MARKER);
    var name := ProcessNames(row[0]);
    var comment := TextField(row, hdr.commentIdx);
    if comment.Err? {
      return Err(comment.error);
    }
    var documentation := TextField(row, hdr.documentationIdx);
    if documentation.Err? {
      return Err(documentation.error);
    }
    return Ok(Identity(name, email, comment.value, documentation.value));
  }

  // ---------------------------------------------------------------------------
  // The loop
  // ---------------------------------------------------------------------------

  lemma Parity(i: nat)
    ensures i % 2 == 0 || i % 2 == 1
    ensures (i + 1) % 2 == 1 - i % 2
  {
  }

  /** A pair that is read completely moves the pairing on by two rows. */
  lemma PairStep(v: Variant, rows: seq<seq<string>>, start: nat, hdr: AssignmentHeader,
                 roster: Option<seq<RosterEntry>>, toFloat: string -> Option<real>,
                 result: seq<seq<Cell>>, id: Identity, emitted: seq<seq<Cell>>)
    requires start + 1 < |rows|
    requires IdentityOf(rows[start], hdr) == Ok(id)
    requires Emit(v, hdr, toFloat, roster, id, rows[start + 1]) == Ok(emitted)
    ensures Prefixed(result, Paired(v, rows[start..], hdr, roster, toFloat))
         == Prefixed(result + emitted, Paired(v, rows[start + 2..], hdr, roster, toFloat))
  {
    PairedAt(v, rows, start, hdr, roster, toFloat);
    PrefixedTwice(result, emitted, Paired(v, rows[start + 2..], hdr, roster, toFloat));
  }

  /** A pair whose score row fails fails the whole pairing. */
  lemma PairFails(v: Variant, rows: seq<seq<string>>, start: nat, hdr: AssignmentHeader,
                  roster: Option<seq<RosterEntry>>, toFloat: string -> Option<real>,
                  result: seq<seq<Cell>>, id: Identity)
    requires start + 1 < |rows|
    requires IdentityOf(rows[start], hdr) == Ok(id)
    requires Emit(v, hdr, toFloat, roster, id, rows[start + 1]).Err?
    ensures Prefixed(result, Paired(v, rows[start..], hdr, roster, toFloat))
         == Err(Emit(v, hdr, toFloat, roster, id, rows[start + 1]).error)
  {
    PairedAt(v, rows, start, hdr, roster, toFloat);
  }

  /** An identity row that fails fails the whole pairing. */
  lemma IdentityFails(v: Variant, rows: seq<seq<string>>, start: nat, hdr: AssignmentHeader,
                      roster: Option<seq<RosterEntry>>, toFloat: string -> Option<real>, result: seq<seq<Cell>>)
    requires start < |rows|
    requires IdentityOf(rows[start], hdr).Err?
    ensures Prefixed(result, Paired(v, rows[start..], hdr, roster, toFloat)) == Err(IdentityOf(rows[start], hdr).error)
  {
    PairedAt(v, rows, start, hdr, roster, toFloat);
  }

  /** The rows left over when the loop ends contribute nothing. */
  lemma PairsDone(v: Variant, rows: seq<seq<string>>, start: nat, hdr: AssignmentHeader,
                  roster: Option<seq<RosterEntry>>, toFloat: string -> Option<real>, result: seq<seq<Cell>>)
    requires start == |rows| || (start + 1 == |rows| && IdentityOf(rows[start], hdr).Ok?)
    ensures Prefixed(result, Paired(v, rows[start..], hdr, roster, toFloat)) == Ok(result)
  {
    if start < |rows| {
      PairedAt(v, rows, start, hdr, roster, toFloat);
    }
    assert result + [] == result;
  }

  /** The loop of `parse_data`: the identity read from each even row is
      carried to the score row after it, and the rows built are appended to
      `result`. */
  method ParseRows(v: Variant, rows: seq<seq<string>>, hdr: AssignmentHeader, roster: Option<seq<RosterEntry>>,
                   toFloat: string -> Option<real>) returns (r: Result<seq<seq<Cell>>, ParseError>)
    ensures r == Paired(v, rows, hdr, roster, toFloat)
  {
    ghost var whole := Paired(v, rows, hdr, roster, toFloat);
    var result: seq<seq<Cell>> := [];
    var id := Identity("", "", None, None);
    var i := 0;
    ghost var start := 0;  // where the pair being read begins
    PrefixedNothing(whole);
    while i < |rows|
      invariant 0 <= start <= i <= |rows|
      invariant start == i - i % 2
      invariant i % 2 == 1 ==> IdentityOf(rows[start], hdr) == Ok(id)
      invariant whole == Prefixed(result, Paired(v, rows[start..], hdr, roster, toFloat))
    {
      Parity(i);
      if i % 2 == 1 {
        var emitted := ScoreRow(v, hdr, toFloat, roster, id, rows[i]);
        if emitted.Err? {
          PairFails(v, rows, start, hdr, roster, toFloat, result, id);
          return Err(emitted.error);
        }
        PairStep(v, rows, start, hdr, roster, toFloat, result, id, emitted.value);
        result := result + emitted.value;
        start := i + 1;
      } else {
        assert start == i;
        var read := ReadIdentity(rows[i], hdr);
        if read.Err? {
          IdentityFails(v, rows, start, hdr, roster, toFloat, result);
          return Err(read.error);
        }
        id := read.value;
      }
      i := i + 1;
    }
    PairsDone(v, rows, start, hdr, roster, toFloat, result);
    return Ok(result);
  }

  // ---------------------------------------------------------------------------
  // The table
  // ---------------------------------------------------------------------------

  function ColumnsOf(v: Variant, hdr: AssignmentHeader): (cols: seq<string>)
    ensures |cols| == 4 + hdr.nQuestions
  {
    match v
    case Bucketed => Scored.Columns(hdr.nQuestions, hdr.commentIdx, hdr.documentationIdx)
    case Raw => Unscored.Columns(hdr.nQuestions, hdr.commentIdx, hdr.documentationIdx)
  }

  /** What `parse_data` stores in `final_data`: the paired rows under the
      column header of the variant, padded as `BuildTable` pads them. */
  function ParseSpec(v: Variant, rows: seq<seq<string>>, hdr: AssignmentHeader, roster: Option<seq<RosterEntry>>,
                     toFloat: string -> Option<real>): (r: Result<Table, ParseError>)
    ensures Paired(v, rows, hdr, roster, toFloat).Err? ==> r == Err(Paired(v, rows, hdr, roster, toFloat).error)
    ensures r.Ok? <==>
      Paired(v, rows, hdr, roster, toFloat).Ok?
      && (Paired(v, rows, hdr, roster, toFloat).value == []
          || MaxWidth(Paired(v, rows, hdr, roster, toFloat).value) == 4 + hdr.nQuestions)
    ensures r.Ok? ==>
      && r.value.columns == ColumnsOf(v, hdr)
      && |r.value.rows| == |Paired(v, rows, hdr, roster, toFloat).value|
    ensures Paired(v, rows, hdr, roster, toFloat).Ok? ==>
      r == BuildTable(ColumnsOf(v, hdr), Paired(v, rows, hdr, roster, toFloat).value)
  {
    var out :- Paired(v, rows, hdr, roster, toFloat);
    BuildTable(ColumnsOf(v, hdr), out)
  }

  /** The header-body coupling: when every score row has one column per
      column name (4 + the number of point values), the table can be built. */
  lemma TableFits(v: Variant, rows: seq<seq<string>>, hdr: AssignmentHeader, roster: Option<seq<RosterEntry>>,
                  toFloat: string -> Option<real>)
    requires Paired(v, rows, hdr, roster, toFloat).Ok?
    requires forall i :: 0 <= i < |rows| && i % 2 == 1 ==> |rows[i]| == 4 + hdr.nQuestions
    ensures ParseSpec(v, rows, hdr, roster, toFloat)
         == Ok(Table(ColumnsOf(v, hdr), Paired(v, rows, hdr, roster, toFloat).value))
  {
    PairedWidths(v, rows, hdr, roster, toFloat);
    var out := Paired(v, rows, hdr, roster, toFloat).value;
    forall k | 0 <= k < |out| ensures |out[k]| == |ColumnsOf(v, hdr)| {
      var i :| 0 <= i < |rows| && i % 2 == 1 && |out[k]| == Width(rows[i]);
    }
    BuildTableExact(ColumnsOf(v, hdr), out);
  }

  /** `parse_data`. */
  method ParseData(v: Variant, rows: seq<seq<string>>, hdr: AssignmentHeader, roster: Option<seq<RosterEntry>>,
                   toFloat: string -> Option<real>) returns (r: Result<Table, ParseError>)
    ensures r == ParseSpec(v, rows, hdr, roster, toFloat)
  {
    var result := ParseRows(v, rows, hdr, roster, toFloat);
    if result.Err? {
      return Err(result.error);
    }
    var columns := ColumnsOf(v, hdr);
    r := BuildTable(columns, result.value);
  }
}
