/** Character classes used by the pipeline, in their ASCII approximation:
    Rust's `char::is_alphanumeric` and `str::to_lowercase` follow Unicode,
    and this model restricts both to the ASCII range. */
module Chars {
  import Seqs

  /** ASCII letters and digits. */
  function IsAlphanumeric(c: char): (b: bool)
    ensures b ==> IsUpper(c) || ('a' <= c <= 'z') || ('0' <= c <= '9')
    ensures IsUpper(c) || ('a' <= c <= 'z') || ('0' <= c <= '9') ==> b
  {
    ('a' <= c <= 'z') || ('A' <= c <= 'Z') || ('0' <= c <= '9')
  }

  predicate IsUpper(c: char) {
    'A' <= c <= 'Z'
  }

  /** ASCII lower-casing of one character. */
  function ToLower(c: char): (r: char)
    ensures !IsUpper(r)
    ensures IsUpper(c) ==> r as int == c as int + 32
    ensures !IsUpper(c) ==> r == c
  {
    if IsUpper(c) then (c as int + 32) as char else c
  }

  /** Lower-casing of a whole string; it never changes the length. */
  function Lower(s: string): (r: string)
    ensures |r| == |s|
    ensures forall i :: 0 <= i < |s| ==> r[i] == ToLower(s[i])
  {
    Seqs.Map(s, ToLower)
  }
}
