/** The two string tests the search filter relies on: Spring's `StringUtils.hasText`
    (used to gate the text criteria) and the substring test behind QueryDSL's `contains`. */
module Text {
  import opened Wrappers

  /** `Character.isWhitespace` of the Java platform: the ASCII blanks and separators
      U+0009..U+000D and U+001C..U+001F, and the Unicode space, line and paragraph
      separators except the non-breaking ones (U+00A0, U+2007, U+202F).
      A Dafny `char` is a Unicode scalar value, whereas Java tests one UTF-16 unit at a
      time. The two agree here: no character outside the Basic Multilingual Plane is
      whitespace, so neither of the two surrogate halves of such a character counts as
      text-free, and equality and substring tests on scalar values agree with those on
      well-formed UTF-16. Java strings holding a lone surrogate have no counterpart in the
      model. */
  predicate IsWhitespace(ch: char) {
    || ch == ' '
    || ('\t' <= ch <= '\r')
    || ('\U{1C}' <= ch <= '\U{1F}')
    || ch == '\U{1680}'
    || ('\U{2000}' <= ch <= '\U{2006}')
    || ('\U{2008}' <= ch <= '\U{200A}')
    || ch == '\U{2028}' || ch == '\U{2029}' || ch == '\U{205F}' || ch == '\U{3000}'
  }

  /** Scans for a character that is not whitespace (Spring's `containsText`). */
  function ContainsText(s: string): (r: bool)
    ensures r <==> exists i :: 0 <= i < |s| && !IsWhitespace(s[i])
  {
    if |s| == 0 then false
    else if !IsWhitespace(s[0]) then true
    else
      var r := ContainsText(s[1..]);
      assert r ==> exists i :: 0 <= i < |s[1..]| && !IsWhitespace(s[1..][i]);
      assert (exists i :: 0 <= i < |s| && !IsWhitespace(s[i])) ==>
        exists i :: 0 <= i < |s[1..]| && !IsWhitespace(s[1..][i]);
      r
  }

  /** `StringUtils.hasText`: the text is present (non-null), non-empty and holds at
      least one character that is not whitespace. */
  function HasText(s: Option<string>): (r: bool)
    ensures r <==> s.Some? && exists i :: 0 <= i < |s.value| && !IsWhitespace(s.value[i])
    ensures r ==> s.Some? && |s.value| > 0
  {
    match s
    case None => false
    case Some(str) => |str| > 0 && ContainsText(str)
  }

  /** True iff `needle` occurs as a contiguous piece of `hay` (case-sensitive), which is
      what `name like '%needle%'` selects once the pattern is escaped. */
  function IsSubstring(needle: string, hay: string): (r: bool)
    ensures r <==> exists i :: 0 <= i <= |hay| && needle <= hay[i..]
  {
    if needle <= hay then
      assert needle <= hay[0..];
      true
    else if |hay| == 0 then
      assert forall i :: 0 <= i <= |hay| ==> hay[i..] == hay;
      false
    else
      var r := IsSubstring(needle, hay[1..]);
      assert forall i :: 1 <= i <= |hay| ==> hay[1..][i - 1..] == hay[i..];
      r
  }
}
