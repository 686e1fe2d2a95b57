/** String helpers shared by the script emitter and the statement splitter. */
module Text {

  /** `sep.join(parts)` in Python, `implode(sep, parts)` in PHP. */
  function Join(sep: string, parts: seq<string>): string
  {
    if |parts| == 0 then ""
    else if |parts| == 1 then parts[0]
    else parts[0] + sep + Join(sep, parts[1..])
  }

  /** Python's substring test `sub in s`. */
  predicate Contains(s: string, sub: string)
  {
    |sub| <= |s| && (sub <= s || Contains(s[1..], sub))
  }
}
