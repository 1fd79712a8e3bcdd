/** The header half of a data load: the split of the file into header block
    and body, and `process_header`, which reads the points line, the
    assignment name and the question codes of the hard-coded code line. */
module Header {
  import opened Results
  import opened Text

  /** The settings the core reads. `documentationCode` is called
      `statementCode` in the refactored variant; both play the same role. */
  datatype Settings = Settings(
    commentCode: Option<string>,
    documentationCode: Option<string>,
    courseNumber: Option<string>,
    headerLength: nat,
    asstNameIdx: nat,
    asstPointsIdx: nat)

  /** `Settings()`: no codes, no course, a nine-line header with the name on
      line 4 and the points on line 7. */
  const DEFAULT_SETTINGS: Settings := Settings(None, None, None, 9, 4, 7)

  /** The header line holding the question codes (hard-coded, not a setting). */
  const CODE_LINE: nat := 6

  /** The fields of `Data` that `process_header` fills in. */
  datatype AssignmentHeader = AssignmentHeader(
    name: string,
    points: seq<real>,
    nQuestions: nat,
    qCodes: seq<(string, nat)>,
    commentIdx: Option<nat>,
    documentationIdx: Option<nat>)

  /** The exceptions `process_header` can raise: an `IndexError` for a missing
      line or name field, a `ValueError` for a points field `float` rejects. */
  datatype HeaderError = LineMissing(line: nat) | NotNumeric(field: string) | NameFieldMissing

  // ---------------------------------------------------------------------------
  // Header block and body
  // ---------------------------------------------------------------------------

  /** Every line stripped, as `[x.strip() for x in data]`. */
  function StripAll(lines: seq<string>): (r: seq<string>)
    ensures |r| == |lines| && forall k :: 0 <= k < |lines| ==> r[k] == Strip(lines[k])
  {
    seq(|lines|, k requires 0 <= k < |lines| => Strip(lines[k]))
  }

  /** `data[:header_length]` and `data[header_length:]` of the stripped lines:
      together they are the whole file, and the header block has
      `header_length` lines unless the file is shorter. */
  function SplitHeaderBody(lines: seq<string>, headerLength: nat): (r: (seq<string>, seq<string>))
    ensures r.0 + r.1 == StripAll(lines)
    ensures |r.0| == if headerLength <= |lines| then headerLength else |lines|
  {
    var data := StripAll(lines);
    var cut := if headerLength <= |data| then headerLength else |data|;
    assert data[..cut] + data[cut..] == data;
    (data[..cut], data[cut..])
  }

  // ---------------------------------------------------------------------------
  // Points line
  // ---------------------------------------------------------------------------

  /** A field of the points line that carries a point value. */
  predicate IsPointField(f: string) {
    f != "" && f != "Points"
  }

  /** The fields of the points line that are neither empty nor `Points`, in
      order. */
  function PointFields(fields: seq<string>): (r: seq<string>)
    ensures |r| <= |fields|
    ensures forall k :: 0 <= k < |r| ==> IsPointField(r[k]) && r[k] in fields
    ensures forall k :: 0 <= k < |fields| && IsPointField(fields[k]) ==> fields[k] in r
  {
    if fields == [] then []
    else
      var rest := PointFields(fields[1..]);
      assert forall k :: 0 < k < |fields| ==> fields[k] == fields[1..][k - 1];
      (if IsPointField(fields[0]) then [fields[0]] else []) + rest
  }

  /** Filtering keeps the left-to-right order of the fields. */
  lemma {:induction false} PointFieldsAppend(a: seq<string>, b: seq<string>)
    ensures PointFields(a + b) == PointFields(a) + PointFields(b)
  {
    if a == [] {
      assert a + b == b;
    } else {
      assert (a + b)[0] == a[0] && (a + b)[1..] == a[1..] + b;
      PointFieldsAppend(a[1..], b);
    }
  }

  /** `[float(x) for x in fields]`: every field converted, left to right; the
      first field `float` rejects raises. */
  function ParsePoints(fields: seq<string>, toFloat: string -> Option<real>): (r: Result<seq<real>, HeaderError>)
    ensures r.Ok? <==> forall k :: 0 <= k < |fields| ==> toFloat(fields[k]).Some?
    ensures r.Ok? ==> |r.value| == |fields| && forall k :: 0 <= k < |fields| ==> toFloat(fields[k]) == Some(r.value[k])
    ensures r.Err? ==> exists k ::
      (0 <= k < |fields| && r.error == NotNumeric(fields[k]) && toFloat(fields[k]).None?
       && forall j :: 0 <= j < k ==> toFloat(fields[j]).Some?)
  {
    if fields == [] then Ok([])
    else match toFloat(fields[0])
      case None => Err(NotNumeric(fields[0]))
      case Some(x) =>
        var rest := ParsePoints(fields[1..], toFloat);
        assert forall k :: 0 < k < |fields| ==> fields[k] == fields[1..][k - 1];
        match rest
        case Err(e) =>
          var k :| 0 <= k < |fields[1..]| && e == NotNumeric(fields[1..][k]) && toFloat(fields[1..][k]).None?
            && forall j :: 0 <= j < k ==> toFloat(fields[1..][j]).Some?;
          assert forall j :: 0 <= j < k + 1 ==> toFloat(fields[j]).Some? by {
            forall j | 0 < j < k + 1 ensures toFloat(fields[j]).Some? { assert fields[j] == fields[1..][j - 1]; }
          }
          Err(e)
        case Ok(xs) => Ok([x] + xs)
  }

  // ---------------------------------------------------------------------------
  // Question codes and code indices
  // ---------------------------------------------------------------------------

  /** `[(x, j) for j, x in enumerate(fields) if x.isdecimal()]`, from position
      `from` on: every all-decimal field with its own position, in increasing
      position order. */
  function QCodesFrom(fields: seq<string>, from: nat): (r: seq<(string, nat)>)
    requires from <= |fields|
    ensures forall k :: 0 <= k < |r| ==> from <= r[k].1 < |fields| && fields[r[k].1] == r[k].0 && IsDecimal(r[k].0)
    ensures forall k, l :: 0 <= k < l < |r| ==> r[k].1 < r[l].1
    ensures forall p :: from <= p < |fields| && IsDecimal(fields[p]) ==> (fields[p], p) in r
    decreases |fields| - from
  {
    if from == |fields| then []
    else (if IsDecimal(fields[from]) then [(fields[from], from)] else []) + QCodesFrom(fields, from + 1)
  }

  /** The question codes of a code line: exactly its all-decimal fields, each
      with its own position, in increasing position order. */
  function QCodes(fields: seq<string>): (r: seq<(string, nat)>)
    ensures forall k :: 0 <= k < |r| ==> r[k].1 < |fields| && fields[r[k].1] == r[k].0 && IsDecimal(r[k].0)
    ensures forall k, l :: 0 <= k < l < |r| ==> r[k].1 < r[l].1
    ensures forall p :: 0 <= p < |fields| && IsDecimal(fields[p]) ==> (fields[p], p) in r
  {
    QCodesFrom(fields, 0)
  }

  /** The value a loop `if code == configured: idx = j` leaves behind: the
      position of the last code equal to the configured one, unset when none
      is (and always unset when no code is configured). */
  function LastPosition(qCodes: seq<(string, nat)>, code: Option<string>): (r: Option<nat>)
    ensures r.None? <==> forall k :: 0 <= k < |qCodes| ==> code != Some(qCodes[k].0)
    ensures r.Some? ==> exists k ::
      (0 <= k < |qCodes| && code == Some(qCodes[k].0) && r.value == qCodes[k].1
       && forall j :: k < j < |qCodes| ==> code != Some(qCodes[j].0))
  {
    if |qCodes| == 0 then None
    else if code == Some(qCodes[|qCodes| - 1].0) then Some(qCodes[|qCodes| - 1].1)
    else
      var r := LastPosition(qCodes[..|qCodes| - 1], code);
      assert forall k :: 0 <= k < |qCodes| - 1 ==> qCodes[..|qCodes| - 1][k] == qCodes[k];
      r
  }

  /** The field at position `q` of the code line is an all-decimal code equal
      to the configured one. */
  predicate CodeAt(fields: seq<string>, code: Option<string>, q: nat) {
    q < |fields| && IsDecimal(fields[q]) && code == Some(fields[q])
  }

  /** On the code line itself: the index found is the last position holding
      the configured code; none is found exactly when no position holds it. */
  lemma LastPositionOnLine(fields: seq<string>, code: Option<string>)
    ensures LastPosition(QCodes(fields), code).None? <==> forall q: nat :: !CodeAt(fields, code, q)
    ensures LastPosition(QCodes(fields), code).Some? ==>
      CodeAt(fields, code, LastPosition(QCodes(fields), code).value)
      && forall q: nat :: LastPosition(QCodes(fields), code).value < q ==> !CodeAt(fields, code, q)
  {
    var qc := QCodes(fields);
    var r := LastPosition(qc, code);
    if r.None? {
      forall q: nat ensures !CodeAt(fields, code, q) {
        if q < |fields| && IsDecimal(fields[q]) {
          NotLaterCode(fields, code, q, -1);
        }
      }
    } else {
      var k :| 0 <= k < |qc| && code == Some(qc[k].0) && r.value == qc[k].1
        && forall j :: k < j < |qc| ==> code != Some(qc[j].0);
      assert CodeAt(fields, code, r.value);
      forall q: nat | r.value < q ensures !CodeAt(fields, code, q) {
        if q < |fields| && IsDecimal(fields[q]) {
          NotLaterCode(fields, code, q, k);
        }
      }
    }
  }

  /** A decimal field at a position later than that of code `k` of the code
      line, with no matching code after `k`, does not hold the code. */
  lemma NotLaterCode(fields: seq<string>, code: Option<string>, q: nat, k: int)
    requires q < |fields| && IsDecimal(fields[q])
    requires -1 <= k < |QCodes(fields)|
    requires k >= 0 ==> QCodes(fields)[k].1 < q
    requires forall j :: k < j < |QCodes(fields)| ==> code != Some(QCodes(fields)[j].0)
    ensures !CodeAt(fields, code, q)
  {
    var qc := QCodes(fields);
    assert (fields[q], q) in qc;
    var k' :| 0 <= k' < |qc| && qc[k'] == (fields[q], q);
    assert k < k';
  }

  // ---------------------------------------------------------------------------
  // process_header
  // ---------------------------------------------------------------------------

  /** What `process_header` computes. The points line is read first, then the
      name line, then the code line; the first of them that fails decides the
      error. */
  function HeaderOf(header: seq<string>, settings: Settings, toFloat: string -> Option<real>): (r: Result<AssignmentHeader, HeaderError>)
    ensures settings.asstPointsIdx >= |header| ==> r == Err(LineMissing(settings.asstPointsIdx))
    ensures r.Ok? ==> settings.asstPointsIdx < |header| && settings.asstNameIdx < |header| && CODE_LINE < |header|
    ensures r.Ok? ==>
      r.value.nQuestions == |r.value.points| == |PointFields(Split(header[settings.asstPointsIdx], ','))|
  {
    if settings.asstPointsIdx >= |header| then Err(LineMissing(settings.asstPointsIdx))
    else
      var points :- ParsePoints(PointFields(Split(header[settings.asstPointsIdx], ',')), toFloat);
      if settings.asstNameIdx >= |header| then Err(LineMissing(settings.asstNameIdx))
      else
        var nameFields := Split(header[settings.asstNameIdx], ',');
        if |nameFields| < 2 then Err(NameFieldMissing)
        else if CODE_LINE >= |header| then Err(LineMissing(CODE_LINE))
        else
          var qCodes := QCodes(Split(header[CODE_LINE], ','));
          Ok(AssignmentHeader(nameFields[1], points, |points|, qCodes,
                              LastPosition(qCodes, settings.commentCode),
                              LastPosition(qCodes, settings.documentationCode)))
  }

  /** When the header block processes, and which error it raises otherwise.
      It processes exactly when the points line is there and every kept
      field of it is numeric, the name line is there and holds a comma (so
      that it has a field 1), and the code line is there. The points line
      is checked first, then the name line, then the code line. */
  lemma HeaderOutcome(header: seq<string>, settings: Settings, toFloat: string -> Option<real>)
    ensures HeaderOf(header, settings, toFloat).Ok? <==>
      && settings.asstPointsIdx < |header|
      && (var kept := PointFields(Split(header[settings.asstPointsIdx], ','));
          forall k :: 0 <= k < |kept| ==> toFloat(kept[k]).Some?)
      && settings.asstNameIdx < |header| && ',' in header[settings.asstNameIdx]
      && CODE_LINE < |header|
    ensures settings.asstPointsIdx < |header| ==>
      var parsed := ParsePoints(PointFields(Split(header[settings.asstPointsIdx], ',')), toFloat);
      && (parsed.Err? ==> HeaderOf(header, settings, toFloat) == Err(parsed.error))
      && (parsed.Ok? && settings.asstNameIdx >= |header| ==>
            HeaderOf(header, settings, toFloat) == Err(LineMissing(settings.asstNameIdx)))
      && (parsed.Ok? && settings.asstNameIdx < |header| && ',' !in header[settings.asstNameIdx] ==>
            HeaderOf(header, settings, toFloat) == Err(NameFieldMissing))
      && (parsed.Ok? && settings.asstNameIdx < |header| && ',' in header[settings.asstNameIdx] && CODE_LINE >= |header| ==>
            HeaderOf(header, settings, toFloat) == Err(LineMissing(CODE_LINE)))
  {
    if settings.asstNameIdx < |header| {
      SplitCount(header[settings.asstNameIdx], ',');
      assert ',' in header[settings.asstNameIdx] <==> multiset(header[settings.asstNameIdx])[','] > 0;
    }
  }

  /** The points are exactly the numeric values of the kept fields of the
      points line; a kept field that is not numeric makes parsing fail. */
  lemma HeaderPoints(header: seq<string>, settings: Settings, toFloat: string -> Option<real>)
    requires settings.asstPointsIdx < |header|
    ensures var kept := PointFields(Split(header[settings.asstPointsIdx], ','));
      && ((exists k :: 0 <= k < |kept| && toFloat(kept[k]).None?) ==> HeaderOf(header, settings, toFloat).Err?)
      && (HeaderOf(header, settings, toFloat).Ok? ==>
            forall k :: 0 <= k < |kept| ==> toFloat(kept[k]) == Some(HeaderOf(header, settings, toFloat).value.points[k]))
  {
  }

  /** The assignment name is field 1 of the name line, and the code indices
      are the last positions on the code line whose decimal code equals the
      configured comment and documentation codes. */
  lemma HeaderCodes(header: seq<string>, settings: Settings, toFloat: string -> Option<real>)
    requires HeaderOf(header, settings, toFloat).Ok?
    ensures var h := HeaderOf(header, settings, toFloat).value;
      var line := Split(header[CODE_LINE], ',');
      && h.name == Split(header[settings.asstNameIdx], ',')[1]
      && h.qCodes == QCodes(line)
      && (h.commentIdx.Some? ==>
            CodeAt(line, settings.commentCode, h.commentIdx.value)
            && forall q: nat :: h.commentIdx.value < q ==> !CodeAt(line, settings.commentCode, q))
      && (h.commentIdx.None? <==> forall q: nat :: !CodeAt(line, settings.commentCode, q))
      && (h.documentationIdx.Some? ==>
            CodeAt(line, settings.documentationCode, h.documentationIdx.value)
            && forall q: nat :: h.documentationIdx.value < q ==> !CodeAt(line, settings.documentationCode, q))
      && (h.documentationIdx.None? <==> forall q: nat :: !CodeAt(line, settings.documentationCode, q))
  {
    var line := Split(header[CODE_LINE], ',');
    LastPositionOnLine(line, settings.commentCode);
    LastPositionOnLine(line, settings.documentationCode);
  }

  /** `process_header`: the points, name and codes by comprehension, then a
      loop over the codes in which the last match of each configured code wins. */
  method ProcessHeader(header: seq<string>, settings: Settings, toFloat: string -> Option<real>)
    returns (r: Result<AssignmentHeader, HeaderError>)
    ensures r == HeaderOf(header, settings, toFloat)
  {
    if settings.asstPointsIdx >= |header| {
      return Err(LineMissing(settings.asstPointsIdx));
    }
    var parsed := ParsePoints(PointFields(Split(header[settings.asstPointsIdx], ',')), toFloat);
    if parsed.Err? {
      return Err(parsed.error);
    }
    var points := parsed.value;
    if settings.asstNameIdx >= |header| {
      return Err(LineMissing(settings.asstNameIdx));
    }
    var nameFields := Split(header[settings.asstNameIdx], ',');
    if |nameFields| < 2 {
      return Err(NameFieldMissing);
    }
    if CODE_LINE >= |header| {
      return Err(LineMissing(CODE_LINE));
    }
    var qCodes := QCodes(Split(header[CODE_LINE], ','));
    var commentIdx, documentationIdx := CodeIndices(qCodes, settings.commentCode, settings.documentationCode);
    r := Ok(AssignmentHeader(nameFields[1], points, |points|, qCodes, commentIdx, documentationIdx));
  }

  /** The loop of `process_header`: walk the codes in order and remember the
      position of every code equal to a configured one, so the last match
      wins. */
  method CodeIndices(qCodes: seq<(string, nat)>, commentCode: Option<string>, documentationCode: Option<string>)
    returns (commentIdx: Option<nat>, documentationIdx: Option<nat>)
    ensures commentIdx == LastPosition(qCodes, commentCode)
    ensures documentationIdx == LastPosition(qCodes, documentationCode)
  {
    commentIdx, documentationIdx := None, None;
    var i := 0;
    while i < |qCodes|
      invariant 0 <= i <= |qCodes|
      invariant commentIdx == LastPosition(qCodes[..i], commentCode)
      invariant documentationIdx == LastPosition(qCodes[..i], documentationCode)
    {
      var (code, j) := qCodes[i];
      assert qCodes[..i + 1][..i] == qCodes[..i];
      if Some(code) == commentCode {
        commentIdx := Some(j);
      }
      if Some(code) == documentationCode {
        documentationIdx := Some(j);
      }
      i := i + 1;
    }
    assert qCodes[..i] == qCodes;
  }
}
