/** The roster: the record-level part of `setup_roster` (filter the rows of
    the configured course, project them, normalise the names) and the e-mail
    lookup `parse_data` performs against it. */
module Roster {
  import opened Results
  import opened Text
  import opened Header

  /** One row of the roster spreadsheet, restricted to the columns used. */
  datatype RosterRow = RosterRow(courseNumber: string, section: string, email: string, cadetName: string)

  /** One row of the prepared roster: the columns Section, Email, Cadet Name. */
  datatype RosterEntry = RosterEntry(section: string, email: string, cadetName: string)

  /** The row belongs to the configured course: its stripped Course Number
      equals the configured course number. */
  predicate InCourse(row: RosterRow, courseNumber: string) {
    Strip(row.courseNumber) == courseNumber
  }

  /** Projection to (Section, Email, Cadet Name), the name stripped and then
      normalised by `process_names`. */
  function Project(row: RosterRow): (e: RosterEntry)
    ensures e.section == row.section && e.email == row.email
    ensures e.cadetName == ProcessNames(Strip(row.cadetName))
  {
    RosterEntry(row.section, row.email, ProcessNames(Strip(row.cadetName)))
  }

  /** `df[mask]` followed by a projection of each kept row: the projections
      of the rows `keep` accepts, in their original order. */
  function FilterMap<A, B>(rows: seq<A>, keep: A -> bool, proj: A -> B): (r: seq<B>)
    ensures |r| <= |rows|
  {
    if rows == [] then [] else (if keep(rows[0]) then [proj(rows[0])] else []) + FilterMap(rows[1..], keep, proj)
  }

  /** Every element of a filtered projection projects a kept row: `i` is that
      row's index. */
  lemma {:induction false} FilterMapSound<A, B>(rows: seq<A>, keep: A -> bool, proj: A -> B, k: nat) returns (i: nat)
    requires k < |FilterMap(rows, keep, proj)|
    ensures i < |rows| && keep(rows[i]) && FilterMap(rows, keep, proj)[k] == proj(rows[i])
  {
    var head := if keep(rows[0]) then [proj(rows[0])] else [];
    var rest := FilterMap(rows[1..], keep, proj);
    assert FilterMap(rows, keep, proj) == head + rest;
    if k < |head| {
      i := 0;
    } else {
      var j := FilterMapSound(rows[1..], keep, proj, k - |head|);
      assert (head + rest)[k] == rest[k - |head|];
      i := j + 1;
      assert rows[i] == rows[1..][j];
    }
  }

  /** Every kept row is projected into the result. */
  lemma {:induction false} FilterMapKeeps<A, B>(rows: seq<A>, keep: A -> bool, proj: A -> B, row: A)
    requires row in rows && keep(row)
    ensures proj(row) in FilterMap(rows, keep, proj)
  {
    if rows[0] != row {
      assert row in rows[1..];
      FilterMapKeeps(rows[1..], keep, proj, row);
    }
  }

  /** Filtering a concatenation is concatenating the filtered parts. */
  lemma {:induction false} FilterMapAppend<A, B>(a: seq<A>, b: seq<A>, keep: A -> bool, proj: A -> B)
    ensures FilterMap(a + b, keep, proj) == FilterMap(a, keep, proj) + FilterMap(b, keep, proj)
  {
    if a == [] {
      assert a + b == b;
    } else {
      var head := if keep(a[0]) then [proj(a[0])] else [];
      assert (a + b)[0] == a[0] && (a + b)[1..] == a[1..] + b;
      calc {
        FilterMap(a + b, keep, proj);
        head + FilterMap(a[1..] + b, keep, proj);
        { FilterMapAppend(a[1..], b, keep, proj); }
        head + (FilterMap(a[1..], keep, proj) + FilterMap(b, keep, proj));
        (head + FilterMap(a[1..], keep, proj)) + FilterMap(b, keep, proj);
      }
    }
  }

  /** The row filter of a course. */
  function CourseFilter(courseNumber: string): RosterRow -> bool {
    row => InCourse(row, courseNumber)
  }

  /** The roster kept for a course: the projections of the rows of that
      course, in their original order. */
  function PrepareRoster(rows: seq<RosterRow>, courseNumber: string): (r: seq<RosterEntry>)
    ensures |r| <= |rows|
  {
    FilterMap(rows, CourseFilter(courseNumber), Project)
  }

  /** Every roster entry is the projection of a row of the configured
      course: `i` is that row's index. */
  lemma PrepareRosterSound(rows: seq<RosterRow>, courseNumber: string, k: nat) returns (i: nat)
    requires k < |PrepareRoster(rows, courseNumber)|
    ensures i < |rows| && InCourse(rows[i], courseNumber)
    ensures PrepareRoster(rows, courseNumber)[k] == Project(rows[i])
  {
    i := FilterMapSound(rows, CourseFilter(courseNumber), Project, k);
  }

  /** Every row of the course is kept. */
  lemma PrepareRosterKeeps(rows: seq<RosterRow>, courseNumber: string, row: RosterRow)
    requires row in rows && InCourse(row, courseNumber)
    ensures Project(row) in PrepareRoster(rows, courseNumber)
  {
    FilterMapKeeps(rows, CourseFilter(courseNumber), Project, row);
  }

  /** The roster of a concatenation is the concatenation of the rosters: the
      original order of the rows is kept. */
  lemma PrepareRosterAppend(a: seq<RosterRow>, b: seq<RosterRow>, courseNumber: string)
    ensures PrepareRoster(a + b, courseNumber) == PrepareRoster(a, courseNumber) + PrepareRoster(b, courseNumber)
  {
    FilterMapAppend(a, b, CourseFilter(courseNumber), Project);
  }

  /** `setup_roster` with its guard: the roster in force after the step.
      Without a configured course number nothing is built and the roster
      already in force (`current`, none when no roster was ever loaded) stays;
      with one, the roster is the prepared one. */
  function SetupRoster(settings: Settings, current: Option<seq<RosterEntry>>, rows: seq<RosterRow>)
    : (r: Option<seq<RosterEntry>>)
    ensures settings.courseNumber.None? ==> r == current
    ensures settings.courseNumber.Some? ==> r == Some(PrepareRoster(rows, settings.courseNumber.value))
  {
    match settings.courseNumber
    case None => current
    case Some(c) => Some(PrepareRoster(rows, c))
  }

  /** Fresh settings configure no course, so the roster step builds nothing
      and a program started without saved settings has no roster until a
      course number is entered. */
  lemma SetupRosterDefault(current: Option<seq<RosterEntry>>, rows: seq<RosterRow>)
    ensures SetupRoster(DEFAULT_SETTINGS, current, rows) == current
  {
  }

  /** The roster matches a data e-mail: `students['Email'].isin([email]).any()`. */
  predicate HasEmail(roster: seq<RosterEntry>, email: string) {
    exists k :: 0 <= k < |roster| && roster[k].email == email
  }

  /** `students[filter]['Section'].iloc[0]`: the section of the first roster
      entry whose Email equals `email` exactly. */
  function FirstSection(roster: seq<RosterEntry>, email: string): (r: Option<string>)
    ensures r.Some? <==> HasEmail(roster, email)
    ensures r.Some? ==> exists k ::
      (0 <= k < |roster| && roster[k].email == email && r.value == roster[k].section
       && forall j :: 0 <= j < k ==> roster[j].email != email)
  {
    if roster == [] then None
    else if roster[0].email == email then Some(roster[0].section)
    else
      var r := FirstSection(roster[1..], email);
      assert HasEmail(roster, email) <==> HasEmail(roster[1..], email) by {
        if HasEmail(roster, email) {
          var k :| 0 <= k < |roster| && roster[k].email == email;
          assert roster[1..][k - 1].email == email;
        }
      }
      if r.Some? then
        var k :| 0 <= k < |roster[1..]| && roster[1..][k].email == email && r.value == roster[1..][k].section
          && forall j :: 0 <= j < k ==> roster[1..][j].email != email;
        assert forall j :: 0 <= j < k + 1 ==> roster[j].email != email by {
          forall j | 0 < j < k + 1 ensures roster[j].email != email { assert roster[j] == roster[1..][j - 1]; }
        }
        r
      else r
  }

  /** The join key a roster contributes: its (Email, Section) pairs in order.
      Names play no part in the join. */
  function JoinKeys(roster: seq<RosterEntry>): (keys: seq<(string, string)>)
    ensures |keys| == |roster|
    ensures forall k :: 0 <= k < |roster| ==> keys[k] == (roster[k].email, roster[k].section)
  {
    seq(|roster|, k requires 0 <= k < |roster| => (roster[k].email, roster[k].section))
  }

  /** The lookup depends on the roster only through its e-mails and sections:
      two rosters that differ only in the names give the same answer, so a
      name-only match never resolves a record. */
  lemma {:induction false} FirstSectionIgnoresNames(r1: seq<RosterEntry>, r2: seq<RosterEntry>, email: string)
    requires JoinKeys(r1) == JoinKeys(r2)
    ensures FirstSection(r1, email) == FirstSection(r2, email)
  {
    if r1 != [] {
      assert r1[0].email == r2[0].email && r1[0].section == r2[0].section by {
        assert JoinKeys(r1)[0] == JoinKeys(r2)[0];
      }
      assert JoinKeys(r1[1..]) == JoinKeys(r2[1..]) by {
        forall k | 0 <= k < |r1| - 1 ensures JoinKeys(r1[1..])[k] == JoinKeys(r2[1..])[k] {
          assert JoinKeys(r1)[k + 1] == JoinKeys(r2)[k + 1];
        }
      }
      FirstSectionIgnoresNames(r1[1..], r2[1..], email);
    }
  }
}
