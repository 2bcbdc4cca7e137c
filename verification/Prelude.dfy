/** Shared value types, text trimming and text search. */
module Prelude {

  datatype Option<+T> = None | Some(value: T)

  /** The error kinds the in-memory stores answer with; messages are not modelled. */
  datatype Error = Forbidden | Conflict | NotFound | Validation | Storage

  datatype Result<+T> = Ok(value: T) | Err(error: Error)

  /** White space in the sense of Unicode. */
  predicate IsWhite(c: char) {
    var n := c as int;
    || 9 <= n <= 13 || n == 0x20 || n == 0x85 || n == 0xA0 || n == 0x1680 || 0x2000 <= n <= 0x200A
    || n == 0x2028 || n == 0x2029 || n == 0x202F || n == 0x205F || n == 0x3000
  }

  function TrimStart(s: string): string {
    if s != "" && IsWhite(s[0]) then TrimStart(s[1..]) else s
  }

  function TrimEnd(s: string): string {
    if s != "" && IsWhite(s[|s| - 1]) then TrimEnd(s[..|s| - 1]) else s
  }

  function Trim(s: string): string {
    TrimEnd(TrimStart(s))
  }

  function Lower(c: char): char {
    if 'A' <= c <= 'Z' then c + ('a' - 'A') else c
  }

  /** `w` occurs in `m` at `i`, up to ASCII case. */
  predicate Occurs(m: string, i: nat, w: string) {
    i + |w| <= |m| && forall k :: 0 <= k < |w| ==> Lower(m[i + k]) == Lower(w[k])
  }

  /** The same character, up to the case of an ASCII letter. */
  predicate SameLetter(c: char, d: char) {
    || c == d
    || ('A' <= c <= 'Z' && d as int == c as int + 32)
    || ('A' <= d <= 'Z' && c as int == d as int + 32)
  }

  lemma LowerIs(c: char, d: char)
    ensures Lower(c) == Lower(d) <==> SameLetter(c, d)
  {
  }
}
