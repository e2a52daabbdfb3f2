/** The text conversions the pipelines' summary lines use: C#'s decimal rendering of an
    integer, `bool.ToString()` and `string.Join(',', values)`; and .NET's whitespace test. */
module Formatting {

  /** .NET `char.IsWhiteSpace`: the Unicode space separators, the line and paragraph
      separators, and the control characters U+0009 to U+000D, U+0085 and U+00A0. */
  predicate IsWhiteSpace(c: char) {
    || c == ' ' || ('\t' <= c <= '\r') || c == '\U{0085}' || c == '\U{00A0}' || c == '\U{1680}'
    || ('\U{2000}' <= c <= '\U{200A}') || c == '\U{2028}' || c == '\U{2029}'
    || c == '\U{202F}' || c == '\U{205F}' || c == '\U{3000}'
  }

  function NatToString(v: nat): (s: string)
    ensures |s| >= 1 && forall k :: 0 <= k < |s| ==> '0' <= s[k] <= '9'
  {
    if v < 10 then ["0123456789"[v]] else NatToString(v / 10) + ["0123456789"[v % 10]]
  }

  /** Decimal text of an integer, with a leading '-' when negative. */
  function IntToString(v: int): (s: string)
    ensures |s| >= 1 && (s[0] == '-' <==> v < 0)
  {
    if v < 0 then "-" + NatToString(-v) else NatToString(v)
  }

  /** `string.Join(',', values)`. */
  function JoinInts(values: seq<int>): string {
    if |values| == 0 then ""
    else if |values| == 1 then IntToString(values[0])
    else JoinInts(values[..|values| - 1]) + "," + IntToString(values[|values| - 1])
  }

  /** C#'s bool.ToString. */
  function BoolText(b: bool): string {
    if b then "True" else "False"
  }
}
