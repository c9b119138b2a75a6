/** Trimming of names read from the mapping table.

    Rust's `str::trim` removes every leading and trailing character for which
    `char::is_whitespace` holds, that is, every code point with the Unicode
    `White_Space` property. */
module Text {

  /** The Unicode `White_Space` code points. */
  predicate IsWhitespace(c: char)
  {
    || c == ' '
    || ('\t' <= c <= '\r')      // tab, line feed, vertical tab, form feed, carriage return
    || c == '\U{0085}'           // next line
    || c == '\U{00A0}'           // no-break space
    || c == '\U{1680}'           // ogham space mark
    || ('\U{2000}' <= c <= '\U{200A}')
    || c == '\U{2028}'           // line separator
    || c == '\U{2029}'           // paragraph separator
    || c == '\U{202F}'           // narrow no-break space
    || c == '\U{205F}'           // medium mathematical space
    || c == '\U{3000}'           // ideographic space
  }

  /** The index of the first character of `s` at or after `i` that is not whitespace. */
  function SkipLeading(s: string, i: nat): (j: nat)
    requires i <= |s|
    ensures i <= j <= |s|
    ensures forall k :: i <= k < j ==> IsWhitespace(s[k])
    ensures j < |s| ==> !IsWhitespace(s[j])
    decreases |s| - i
  {
    if i < |s| && IsWhitespace(s[i]) then SkipLeading(s, i + 1) else i
  }

  /** The index just past the last character of `s[lo..j]` that is not whitespace. */
  function SkipTrailing(s: string, lo: nat, j: nat): (e: nat)
    requires lo <= j <= |s|
    ensures lo <= e <= j
    ensures forall k :: e <= k < j ==> IsWhitespace(s[k])
    ensures lo < e ==> !IsWhitespace(s[e - 1])
  {
    if lo < j && IsWhitespace(s[j - 1]) then SkipTrailing(s, lo, j - 1) else j
  }

  /** `s` without its leading and trailing whitespace: a contiguous slice of
      `s` that neither starts nor ends with whitespace, everything cut away
      being whitespace. */
  function Trim(s: string): (r: string)
    ensures r == [] || (!IsWhitespace(r[0]) && !IsWhitespace(r[|r| - 1]))
    ensures exists i, j :: 0 <= i <= j <= |s| && r == s[i..j]
                           && (forall k :: 0 <= k < i ==> IsWhitespace(s[k]))
                           && (forall k :: j <= k < |s| ==> IsWhitespace(s[k]))
  {
    var i := SkipLeading(s, 0);
    var j := SkipTrailing(s, i, |s|);
    assert forall k :: i <= k < |s| && k >= j ==> IsWhitespace(s[k]);
    s[i..j]
  }

  /** A name that neither starts nor ends with whitespace is kept as it is. */
  lemma TrimUnchanged(s: string)
    requires s == [] || (!IsWhitespace(s[0]) && !IsWhitespace(s[|s| - 1]))
    ensures Trim(s) == s
  {
    if s != [] {
      assert SkipLeading(s, 0) == 0;
      assert SkipTrailing(s, 0, |s|) == |s|;
    }
  }

  /** Trimming twice is trimming once. */
  lemma TrimIdempotent(s: string)
    ensures Trim(Trim(s)) == Trim(s)
  {
    TrimUnchanged(Trim(s));
  }
}
