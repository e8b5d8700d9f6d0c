/** Lower-casing of submitted guesses.

    The game lower-cases every guess before scoring it, and never the target.
    The library's case tables are not part of this model: `Lower` maps the
    upper-case letters of Basic Latin (A-Z) and of the basic Cyrillic block
    (U+0400..U+042F, which holds every letter of the Russian alphabet,
    including Ё) to their lower-case forms, one character to one character,
    and leaves every other character alone. */
module Casing {

  /** The characters `Lower` changes. */
  predicate IsUpper(c: char) {
    ('A' <= c <= 'Z') || ('\U{0400}' <= c <= '\U{042F}')
  }

  /** A word none of whose characters is upper case. */
  predicate IsLowerWord(w: string) {
    forall k :: 0 <= k < |w| ==> !IsUpper(w[k])
  }

  /** Lower case of one character: A-Z and А-Я move up by 32 code points,
      Ѐ-Џ (U+0400..U+040F, e.g. Ё) move up by 80, everything else is kept. */
  function Lower(c: char): (r: char)
    ensures !IsUpper(r)
    ensures IsUpper(c) <==> r != c
  {
    if 'A' <= c <= 'Z' then (c as int + 32) as char
    else if '\U{0410}' <= c <= '\U{042F}' then (c as int + 32) as char
    else if '\U{0400}' <= c <= '\U{040F}' then (c as int + 80) as char
    else c
  }

  /** `toLowerCase` on a whole word, character by character. */
  function LowerWord(s: string): (r: string)
    ensures |r| == |s|
    ensures IsLowerWord(r)
    ensures IsLowerWord(s) ==> r == s
  {
    seq(|s|, k requires 0 <= k < |s| => Lower(s[k]))
  }

  /** Lower-casing twice is lower-casing once. */
  lemma LowerWordIdempotent(s: string)
    ensures LowerWord(LowerWord(s)) == LowerWord(s)
  {
  }
}
