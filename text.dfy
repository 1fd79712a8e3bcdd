/** String functions the ingestion pipeline relies on: Python's `str.strip()`,
    the naive `str.split(',')`, `str.split('@usafa')[0]`, `str.isdecimal()`,
    the name normaliser `process_names` and decimal rendering of a number. */
module Text {
  import opened Results

  // ---------------------------------------------------------------------------
  // Whitespace and strip
  // ---------------------------------------------------------------------------

  /** The characters for which Python's `str.isspace()` holds; these are the
      characters `str.strip()` removes. */
  predicate IsSpace(c: char) {
    c == ' ' || ('\t' <= c <= '\r') || ('\U{1C}' <= c <= '\U{1F}')
    || c == '\U{85}' || c == '\U{A0}' || c == '\U{1680}'
    || ('\U{2000}' <= c <= '\U{200A}') || c == '\U{2028}' || c == '\U{2029}'
    || c == '\U{202F}' || c == '\U{205F}' || c == '\U{3000}'
  }

  /** Drops leading whitespace: the result is the suffix that starts at the
      first non-space character. */
  function StripLeft(s: string): (r: string)
    ensures |r| <= |s| && r == s[|s| - |r|..]
    ensures forall k :: 0 <= k < |s| - |r| ==> IsSpace(s[k])
    ensures r != [] ==> !IsSpace(r[0])
  {
    if |s| > 0 && IsSpace(s[0]) then StripLeft(s[1..]) else s
  }

  /** Drops trailing whitespace: the result is the prefix that ends at the
      last non-space character. */
  function StripRight(s: string): (r: string)
    ensures |r| <= |s| && r == s[..|r|]
    ensures forall k :: |r| <= k < |s| ==> IsSpace(s[k])
    ensures r != [] ==> !IsSpace(r[|r| - 1])
  {
    if |s| > 0 && IsSpace(s[|s| - 1]) then StripRight(s[..|s| - 1]) else s
  }

  /** Python's `s.strip()`: never longer than `s`, and neither starting nor
      ending with whitespace. */
  function Strip(s: string): (r: string)
    ensures |r| <= |s|
    ensures r != [] ==> !IsSpace(r[0]) && !IsSpace(r[|r| - 1])
  {
    var l := StripLeft(s);
    var t := StripRight(l);
    assert t != [] ==> t[0] == l[0];
    t
  }

  // ---------------------------------------------------------------------------
  // Naive split on one separator character, and its inverse
  // ---------------------------------------------------------------------------

  /** Index of the first occurrence of `c` in `s`. */
  function IndexOf(s: string, c: char): (r: Option<nat>)
    ensures r.None? <==> c !in s
    ensures r.Some? ==> r.value < |s| && s[r.value] == c && c !in s[..r.value]
  {
    if |s| == 0 then None
    else if s[0] == c then Some(0)
    else match IndexOf(s[1..], c)
      case None => None
      case Some(i) => assert s[..i + 1] == [s[0]] + s[1..][..i]; Some(i + 1)
  }

  /** Python's `s.split(sep)` for a one-character separator: never empty, and
      no field contains the separator. */
  function Split(s: string, sep: char): (fields: seq<string>)
    ensures |fields| >= 1
    ensures forall k :: 0 <= k < |fields| ==> sep !in fields[k]
    decreases |s|
  {
    match IndexOf(s, sep)
    case None => [s]
    case Some(i) => [s[..i]] + Split(s[i + 1..], sep)
  }

  /** Python's `sep.join(fields)`. */
  function Join(fields: seq<string>, sep: char): string
    requires |fields| >= 1
  {
    if |fields| == 1 then fields[0] else fields[0] + [sep] + Join(fields[1..], sep)
  }

  /** Joining the fields of a split gives back the line. */
  lemma {:induction false} JoinSplit(s: string, sep: char)
    ensures Join(Split(s, sep), sep) == s
    decreases |s|
  {
    match IndexOf(s, sep)
    case None =>
    case Some(i) =>
      var fields := Split(s, sep);
      var rest := Split(s[i + 1..], sep);
      assert fields == [s[..i]] + rest;
      assert |fields| >= 2 && fields[1..] == rest;
      assert Join(fields, sep) == s[..i] + [sep] + Join(rest, sep);
      JoinSplit(s[i + 1..], sep);
      assert s == s[..i] + [sep] + s[i + 1..];
  }

  /** Splitting a join of separator-free fields gives back the fields. */
  lemma {:induction false} SplitJoin(fields: seq<string>, sep: char)
    requires |fields| >= 1
    requires forall k :: 0 <= k < |fields| ==> sep !in fields[k]
    ensures Split(Join(fields, sep), sep) == fields
  {
    var s := Join(fields, sep);
    if |fields| == 1 {
    } else {
      var f := fields[0];
      var rest := Join(fields[1..], sep);
      assert s == f + [sep] + rest;
      assert s[|f|] == sep && s[..|f|] == f;
      assert IndexOf(s, sep) == Some(|f|);
      assert s[|f| + 1..] == rest;
      SplitJoin(fields[1..], sep);
    }
  }

  /** The number of fields is one more than the number of separators. */
  lemma {:induction false} SplitCount(s: string, sep: char)
    ensures |Split(s, sep)| == multiset(s)[sep] + 1
    decreases |s|
  {
    match IndexOf(s, sep)
    case None =>
    case Some(i) =>
      SplitCount(s[i + 1..], sep);
      assert s == s[..i] + [sep] + s[i + 1..];
      assert multiset(s) == multiset(s[..i]) + multiset([sep]) + multiset(s[i + 1..]);
  }

  // ---------------------------------------------------------------------------
  // Prefix before a marker: `s.split(marker)[0]`
  // ---------------------------------------------------------------------------

  /** The institutional e-mail domain marker cut off data e-mails. */
  const EMAIL_MARKER: string := "@usafa"

  predicate OccursAt(s: string, m: string, k: nat) {
    k + |m| <= |s| && s[k..k + |m|] == m
  }

  /** Position of the first occurrence of a non-empty `m` in `s`. */
  function FirstOccurrence(s: string, m: string): (r: Option<nat>)
    requires |m| > 0
    ensures r.None? ==> forall k: nat :: !OccursAt(s, m, k)
    ensures r.Some? ==> OccursAt(s, m, r.value) && forall k: nat :: k < r.value ==> !OccursAt(s, m, k)
    decreases |s|
  {
    if |s| < |m| then None
    else if s[..|m|] == m then Some(0)
    else
      assert !OccursAt(s, m, 0);
      match FirstOccurrence(s[1..], m)
      case None =>
        assert forall k: nat :: !OccursAt(s, m, k) by {
          forall k: nat | 0 < k ensures !OccursAt(s, m, k) { OccursShift(s, m, k - 1); }
        }
        None
      case Some(i) =>
        OccursShift(s, m, i);
        assert forall k: nat :: k < i + 1 ==> !OccursAt(s, m, k) by {
          forall k: nat | 0 < k < i + 1 ensures !OccursAt(s, m, k) { OccursShift(s, m, k - 1); }
        }
        Some(i + 1)
  }

  lemma OccursShift(s: string, m: string, k: nat)
    requires |s| > 0
    ensures OccursAt(s, m, k + 1) <==> OccursAt(s[1..], m, k)
  {
    if k + 1 + |m| <= |s| {
      assert s[k + 1..k + 1 + |m|] == s[1..][k..k + |m|];
    }
  }

  /** Python's `s.split(marker)[0]`: the text before the first occurrence of
      the marker, or all of `s` when the marker does not occur. */
  function BeforeMarker(s: string, m: string): (r: string)
    requires |m| > 0
    ensures |r| <= |s| && r == s[..|r|]
    ensures r == s <==> forall k: nat :: !OccursAt(s, m, k)
    ensures r != s ==> OccursAt(s, m, |r|)
    ensures forall k: nat :: k < |r| ==> !OccursAt(s, m, k)
    ensures forall k: nat :: !OccursAt(r, m, k)
  {
    match FirstOccurrence(s, m)
    case None => s
    case Some(i) =>
      var r := s[..i];
      assert forall k: nat :: OccursAt(r, m, k) ==> OccursAt(s, m, k) by {
        forall k: nat | OccursAt(r, m, k) ensures OccursAt(s, m, k) {
          assert s[k..k + |m|] == r[k..k + |m|];
        }
      }
      r
  }

  // ---------------------------------------------------------------------------
  // str.isdecimal()
  // ---------------------------------------------------------------------------

  /** `s.isdecimal()`, restricted to the ASCII digits. */
  predicate IsDecimal(s: string) {
    |s| > 0 && forall k :: 0 <= k < |s| ==> '0' <= s[k] <= '9'
  }

  // ---------------------------------------------------------------------------
  // process_names: the regular expression `,[^ ]+`
  // ---------------------------------------------------------------------------

  /** A match of `,[^ ]+` can start at `i`: a comma followed by a non-space. */
  predicate CommaRunAt(s: string, i: nat) {
    i + 1 < |s| && s[i] == ',' && s[i + 1] != ' '
  }

  /** The leftmost position, at or after `from`, where `,[^ ]+` can start. */
  function FirstCommaRun(s: string, from: nat): (r: Option<nat>)
    requires from <= |s|
    ensures r.None? <==> forall i: nat :: from <= i ==> !CommaRunAt(s, i)
    ensures r.Some? ==>
      (from <= r.value && CommaRunAt(s, r.value)
       && forall i: nat :: from <= i < r.value ==> !CommaRunAt(s, i))
    decreases |s| - from
  {
    if from + 1 >= |s| then None
    else if CommaRunAt(s, from) then Some(from)
    else FirstCommaRun(s, from + 1)
  }

  /** End of the greedy `[^ ]+` run that starts at `k`: the first space at or
      after `k`, or the end of the string. */
  function RunEnd(s: string, k: nat): (e: nat)
    requires k <= |s|
    ensures k <= e <= |s|
    ensures forall m :: k <= m < e ==> s[m] != ' '
    ensures e == |s| || s[e] == ' '
    decreases |s| - k
  {
    if k == |s| || s[k] == ' ' then k else RunEnd(s, k + 1)
  }

  /** `process_names`: cut the text where the first match of `,[^ ]+` ends,
      keeping "Last, First" style names and "Last,First Middle" up to the
      first space after the comma. */
  function ProcessNames(text: string): (r: string)
    ensures |r| <= |text| && r == text[..|r|]
    ensures FirstCommaRun(text, 0).None? ==> r == text
    ensures FirstCommaRun(text, 0).Some? ==>
      var i := FirstCommaRun(text, 0).value;
      i + 2 <= |r| && (forall m :: i + 1 <= m < |r| ==> text[m] != ' ')
      && (|r| == |text| || text[|r|] == ' ')
  {
    match FirstCommaRun(text, 0)
    case None => text
    case Some(i) => text[..RunEnd(text, i + 1)]
  }

  /** When no comma is immediately followed by a non-space character, the
      name comes back unchanged: "Doe, John" stays as it is. */
  lemma ProcessNamesUnchanged(text: string)
    requires forall i :: 0 <= i < |text| - 1 && text[i] == ',' ==> text[i + 1] == ' '
    ensures ProcessNames(text) == text
  {
    assert forall i: nat :: !CommaRunAt(text, i);
  }

  /** Normalising a normalised name changes nothing. */
  lemma ProcessNamesIdempotent(text: string)
    ensures ProcessNames(ProcessNames(text)) == ProcessNames(text)
  {
    var r := ProcessNames(text);
    match FirstCommaRun(text, 0)
    case None =>
    case Some(i) =>
      assert CommaRunAt(r, i);
      assert forall j: nat :: j < i ==> !CommaRunAt(r, j) by {
        forall j: nat | j < i ensures !CommaRunAt(r, j) {
          assert !CommaRunAt(text, j);
        }
      }
      assert FirstCommaRun(r, 0) == Some(i);
      assert RunEnd(r, i + 1) == |r|;
  }

  // ---------------------------------------------------------------------------
  // Decimal rendering, for the `Q{x + 1}` column names
  // ---------------------------------------------------------------------------

  function DigitChar(d: nat): (c: char)
    requires d < 10
    ensures '0' <= c <= '9' && c as int - '0' as int == d
  {
    ('0' as int + d) as char
  }

  /** The number a string of decimal digits denotes, most significant digit
      first. */
  function DecimalValue(s: string): nat
    requires forall k :: 0 <= k < |s| ==> '0' <= s[k] <= '9'
  {
    if s == [] then 0 else DecimalValue(s[..|s| - 1]) * 10 + (s[|s| - 1] as int - '0' as int)
  }

  /** `str(n)` for a natural number: the digits of `n`, with no leading zero
      unless `n` is 0. */
  function NatToString(n: nat): (r: string)
    ensures |r| >= 1
    ensures forall k :: 0 <= k < |r| ==> '0' <= r[k] <= '9'
    ensures DecimalValue(r) == n
    ensures r[0] == '0' ==> n == 0
  {
    if n < 10 then [DigitChar(n)]
    else
      var prefix := NatToString(n / 10);
      var r := prefix + [DigitChar(n % 10)];
      assert r[..|r| - 1] == prefix;
      r
  }
}
