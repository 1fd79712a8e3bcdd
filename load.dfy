/** `load_data_file`, after the file has been read into lines: the lines are
    stripped and split into header and body, the header is processed, and the
    body is read as CSV and paired with the roster. */
module Load {
  import opened Results
  import opened Roster
  import opened Header
  import opened Records
  import opened Pairing

  /** Which stage raised. */
  datatype LoadError = BadHeader(headerError: HeaderError) | BadBody(bodyError: ParseError)

  /** The table a data file gives: the header error, or the table or error
      `parse_data` gives for the body. `readCsv` stands for `csv.reader` and
      `toFloat` for Python's `float`. */
  function LoadSpec(v: Variant, lines: seq<string>, settings: Settings, roster: Option<seq<RosterEntry>>,
                    readCsv: seq<string> -> seq<seq<string>>, toFloat: string -> Option<real>): (r: Result<Table, LoadError>)
    ensures var split := SplitHeaderBody(lines, settings.headerLength);
      var hdr := HeaderOf(split.0, settings, toFloat);
      && (hdr.Err? ==> r == Err(BadHeader(hdr.error)))
      && (hdr.Ok? ==> (r.Ok? <==> ParseSpec(v, readCsv(split.1), hdr.value, roster, toFloat).Ok?))
      && (r.Ok? ==>
            hdr.Ok?
            && |r.value.columns| == 4 + |hdr.value.points|
            && |r.value.rows| == |Paired(v, readCsv(split.1), hdr.value, roster, toFloat).value|)
      && (hdr.Ok? ==>
            var body := ParseSpec(v, readCsv(split.1), hdr.value, roster, toFloat);
            && (body.Ok? ==> r == Ok(body.value))
            && (body.Err? ==> r == Err(BadBody(body.error))))
  {
    var split := SplitHeaderBody(lines, settings.headerLength);
    match HeaderOf(split.0, settings, toFloat)
    case Err(e) => Err(BadHeader(e))
    case Ok(hdr) =>
      match ParseSpec(v, readCsv(split.1), hdr, roster, toFloat)
      case Err(e) => Err(BadBody(e))
      case Ok(table) => Ok(table)
  }

  method LoadDataFile(v: Variant, lines: seq<string>, settings: Settings, roster: Option<seq<RosterEntry>>,
                      readCsv: seq<string> -> seq<seq<string>>, toFloat: string -> Option<real>)
    returns (r: Result<Table, LoadError>)
    ensures r == LoadSpec(v, lines, settings, roster, readCsv, toFloat)
  {
    var split := SplitHeaderBody(lines, settings.headerLength);
    var hdr := ProcessHeader(split.0, settings, toFloat);
    if hdr.Err? {
      return Err(BadHeader(hdr.error));
    }
    var table := ParseData(v, readCsv(split.1), hdr.value, roster, toFloat);
    if table.Err? {
      return Err(BadBody(table.error));
    }
    return Ok(table.value);
  }

  /** A file whose header parses, whose body pairs, and whose score rows all
      have one column per point value plus four loads into a table. */
  lemma LoadFits(v: Variant, lines: seq<string>, settings: Settings, roster: Option<seq<RosterEntry>>,
                 readCsv: seq<string> -> seq<seq<string>>, toFloat: string -> Option<real>)
    requires HeaderOf(SplitHeaderBody(lines, settings.headerLength).0, settings, toFloat).Ok?
    requires var hdr := HeaderOf(SplitHeaderBody(lines, settings.headerLength).0, settings, toFloat).value;
      var rows := readCsv(SplitHeaderBody(lines, settings.headerLength).1);
      && Paired(v, rows, hdr, roster, toFloat).Ok?
      && forall i :: 0 <= i < |rows| && i % 2 == 1 ==> |rows[i]| == 4 + |hdr.points|
    ensures LoadSpec(v, lines, settings, roster, readCsv, toFloat).Ok?
    ensures LoadSpec(v, lines, settings, roster, readCsv, toFloat).value.rows
         == Paired(v, readCsv(SplitHeaderBody(lines, settings.headerLength).1),
                   HeaderOf(SplitHeaderBody(lines, settings.headerLength).0, settings, toFloat).value, roster, toFloat).value
  {
    var split := SplitHeaderBody(lines, settings.headerLength);
    var hdr := HeaderOf(split.0, settings, toFloat).value;
    TableFits(v, readCsv(split.1), hdr, roster, toFloat);
  }
}
