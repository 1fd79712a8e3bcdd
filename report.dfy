/** The two string helpers the spreadsheet export uses to fit comment and
    documentation texts into fixed-width cells. */
module Report {
  const ELLIPSIS := "..."

  /** The default `max_length` of `_truncate_string`. */
  const TRUNCATE_LENGTH: nat := 20

  /** The default `max_length` of `_truncate_or_pad_string`. */
  const PAD_LENGTH: nat := 70

  /** Python's `s[:k]` for any integer `k`: a negative `k` counts from the
      end, and both ends are clamped to the string. */
  function PyPrefix(s: string, k: int): (r: string)
    ensures |r| <= |s| && r == s[..|r|]
    ensures 0 <= k <= |s| ==> |r| == k
    ensures |s| <= k ==> r == s
    ensures k < 0 ==> |r| == (if |s| + k < 0 then 0 else |s| + k)
  {
    if |s| <= k then s
    else if 0 <= k then s[..k]
    else if 0 <= |s| + k then s[..|s| + k]
    else []
  }

  /** `n` spaces. */
  function Spaces(n: nat): (r: string)
    ensures |r| == n && forall k :: 0 <= k < n ==> r[k] == ' '
  {
    if n == 0 then [] else Spaces(n - 1) + " "
  }

  /** `s.ljust(width)`: `s` followed by spaces up to `width` characters. */
  function LeftJustify(s: string, width: nat): (r: string)
    ensures |r| == if |s| < width then width else |s|
    ensures r[..|s|] == s
    ensures forall k :: |s| <= k < |r| ==> r[k] == ' '
  {
    if |s| < width then s + Spaces(width - |s|) else s
  }

  /** `_truncate_string`: a string no longer than the limit is kept; a longer
      one is cut to the limit and marked with an ellipsis. */
  function TruncateString(s: string, maxLength: nat := TRUNCATE_LENGTH): (r: string)
    ensures |s| <= maxLength ==> r == s
    ensures maxLength < |s| ==>
      (|r| == maxLength + 3 && r[..maxLength] == s[..maxLength] && r[maxLength..] == ELLIPSIS)
    ensures |r| <= maxLength + 3
  {
    if |s| <= maxLength then s else s[..maxLength] + ELLIPSIS
  }

  /** Truncating twice is truncating once: the cut string keeps its first
      `maxLength` characters and its ellipsis. */
  lemma TruncateStringIdempotent(s: string, maxLength: nat)
    ensures TruncateString(TruncateString(s, maxLength), maxLength) == TruncateString(s, maxLength)
  {
    if maxLength < |s| {
      var r := TruncateString(s, maxLength);
      assert r[..maxLength] == s[..maxLength];
    }
  }

  /** `_truncate_or_pad_string`: a string longer than the width is cut to
      three less and marked with an ellipsis; any other is padded with spaces
      to the width. */
  function TruncateOrPad(s: string, maxLength: nat := PAD_LENGTH): (r: string)
    ensures |s| <= maxLength ==>
      (|r| == maxLength && r[..|s|] == s && forall k :: |s| <= k < maxLength ==> r[k] == ' ')
    ensures maxLength < |s| ==>
      (|r| >= 3 && r[|r| - 3..] == ELLIPSIS && r[..|r| - 3] == PyPrefix(s, maxLength - 3))
  {
    if maxLength < |s| then PyPrefix(s, maxLength - 3) + ELLIPSIS else LeftJustify(s, maxLength)
  }

  /** For a width of at least three the cell text has exactly that width
      and starts with as much of `s` as fits. */
  lemma TruncateOrPadWidth(s: string, maxLength: nat)
    requires 3 <= maxLength
    ensures |TruncateOrPad(s, maxLength)| == maxLength
    ensures maxLength < |s| ==> TruncateOrPad(s, maxLength)[..maxLength - 3] == s[..maxLength - 3]
  {
    if maxLength < |s| {
      var r := TruncateOrPad(s, maxLength);
      assert r[..|r| - 3] == PyPrefix(s, maxLength - 3);
    }
  }

  /** Fitting a text that already fits changes nothing. */
  lemma TruncateOrPadIdempotent(s: string, maxLength: nat)
    requires 3 <= maxLength
    ensures TruncateOrPad(TruncateOrPad(s, maxLength), maxLength) == TruncateOrPad(s, maxLength)
  {
    TruncateOrPadWidth(s, maxLength);
    var r := TruncateOrPad(s, maxLength);
    assert r[..|r|] == r;
  }

  /** Over the width, fitting is truncating to three less. */
  lemma TruncateOrPadTruncates(s: string, maxLength: nat)
    requires 3 <= maxLength < |s|
    ensures TruncateOrPad(s, maxLength) == TruncateString(s, maxLength - 3)
  {
  }

  /** Below a width of three the length law fails: the ellipsis alone is
      wider than the cell, so the text comes out longer than the width. */
  lemma TruncateOrPadNarrow(s: string, maxLength: nat)
    requires maxLength < 3 && maxLength < |s|
    ensures |TruncateOrPad(s, maxLength)| > maxLength
    ensures |s| <= 3 - maxLength ==> TruncateOrPad(s, maxLength) == ELLIPSIS
  {
  }

  /** With their default widths, a truncated text is at most 23 characters
      and a fitted text exactly 70. */
  lemma DefaultWidths(s: string)
    ensures |TruncateString(s)| <= TRUNCATE_LENGTH + |ELLIPSIS|
    ensures |TruncateOrPad(s)| == PAD_LENGTH
  {
    TruncateOrPadWidth(s, PAD_LENGTH);
  }
}
