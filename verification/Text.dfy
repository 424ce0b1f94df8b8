/** Python's string notions used by the scripts. */
module Text {

  /** `str.isspace` for one character. */
  predicate Space(c: char) {
    || '\t' <= c <= '\r' || '\U{1C}' <= c <= ' ' || c == '\U{85}' || c == '\U{A0}' || c == '\U{1680}'
    || '\U{2000}' <= c <= '\U{200A}' || c == '\U{2028}' || c == '\U{2029}' || c == '\U{202F}'
    || c == '\U{205F}' || c == '\U{3000}'
  }

  function StripLeft(s: string): string {
    if s != [] && Space(s[0]) then StripLeft(s[1..]) else s
  }

  function StripRight(s: string): string {
    if s != [] && Space(s[|s| - 1]) then StripRight(s[..|s| - 1]) else s
  }

  function Strip(s: string): string { StripRight(StripLeft(s)) }

  /** The first index of `c`, or the length. */
  function Find(s: string, c: char): (i: nat)
    ensures i <= |s| && (i < |s| ==> s[i] == c) && forall j :: 0 <= j < i ==> s[j] != c
  {
    if s == [] || s[0] == c then 0 else 1 + Find(s[1..], c)
  }

  /** `s.split(c)` */
  function Split(s: string, c: char): seq<string>
    decreases |s|
  {
    var i := Find(s, c);
    if i == |s| then [s] else [s[..i]] + Split(s[i + 1..], c)
  }
}
