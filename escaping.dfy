/** `escapeHtml` (src/index.js): the six characters `& < > " ' /` replaced by HTML entities,
    with an unescaping partner that shows no information is lost. */
module Escaping {
  import opened Text

  /** The characters the pattern `/[&<>"'\/]/g` finds. */
  predicate IsSpecial(c: char) {
    c == '&' || c == '<' || c == '>' || c == '"' || c == '\'' || c == '/'
  }

  /** The special characters other than `&`: after escaping none of them is left. */
  predicate IsMarkup(c: char) {
    IsSpecial(c) && c != '&'
  }

  /** The entity `entityMap` assigns to a special character. */
  function Entity(c: char): (e: string)
    requires IsSpecial(c)
    ensures 4 <= |e| && e[0] == '&' && e[|e| - 1] == ';'
    ensures forall k :: 0 <= k < |e| ==> !IsMarkup(e[k]) && !IsSpace(e[k])
  {
    if c == '&' then "&amp;"
    else if c == '<' then "&lt;"
    else if c == '>' then "&gt;"
    else if c == '"' then "&quot;"
    else if c == '\'' then "&#39;"
    else "&#x2F;"
  }

  /** `escapeHtml(s)`: every special character replaced by its entity, everything else kept.
      The result holds no markup character and a whitespace character only where `s` has
      one. */
  function EscapeHtml(s: string): (r: string)
    ensures |r| >= |s|
    ensures forall k :: 0 <= k < |r| ==> !IsMarkup(r[k])
    ensures (forall k :: 0 <= k < |s| ==> !IsSpace(s[k])) ==> forall k :: 0 <= k < |r| ==> !IsSpace(r[k])
    decreases |s|
  {
    if s == [] then ""
    else (if IsSpecial(s[0]) then Entity(s[0]) else [s[0]]) + EscapeHtml(s[1..])
  }

  /** The inverse reading: each of the six entities becomes its character again, anything
      else is kept. */
  function UnescapeHtml(s: string): string
    decreases |s|
  {
    if s == [] then ""
    else if "&amp;" <= s then "&" + UnescapeHtml(s[5..])
    else if "&lt;" <= s then "<" + UnescapeHtml(s[4..])
    else if "&gt;" <= s then ">" + UnescapeHtml(s[4..])
    else if "&quot;" <= s then "\"" + UnescapeHtml(s[6..])
    else if "&#39;" <= s then "'" + UnescapeHtml(s[5..])
    else if "&#x2F;" <= s then "/" + UnescapeHtml(s[6..])
    else [s[0]] + UnescapeHtml(s[1..])
  }

  lemma EntityRoundTrip(c: char, t: string)
    requires IsSpecial(c)
    ensures UnescapeHtml(Entity(c) + t) == [c] + UnescapeHtml(t)
  {
    var e := Entity(c);
    var s := e + t;
    assert s[|e|..] == t;
    assert s[..|e|] == e;
    // the second character tells the entities apart, the third the two numeric ones
    assert s[1] == e[1];
    if c == '&' {
      assert s[..5] == "&amp;";
    } else if c == '<' {
      assert s[..4] == "&lt;";
    } else if c == '>' {
      assert s[..4] == "&gt;";
    } else if c == '"' {
      assert s[..6] == "&quot;";
    } else if c == '\'' {
      assert s[2] == '3';
      assert s[..5] == "&#39;";
    } else {
      assert s[2] == 'x';
      assert s[..6] == "&#x2F;";
    }
  }

  /** Escaping loses nothing: unescaping the escaped text gives the text back. */
  lemma {:induction false} EscapeRoundTrip(s: string)
    ensures UnescapeHtml(EscapeHtml(s)) == s
    decreases |s|
  {
    if s != [] {
      EscapeRoundTrip(s[1..]);
      var t := EscapeHtml(s[1..]);
      if IsSpecial(s[0]) {
        EntityRoundTrip(s[0], t);
      } else {
        assert ([s[0]] + t)[1..] == t;
      }
      assert [s[0]] + s[1..] == s;
    }
  }

  /** Text without special characters is left exactly as it is. */
  lemma {:induction false} EscapePlain(s: string)
    requires forall k :: 0 <= k < |s| ==> !IsSpecial(s[k])
    ensures EscapeHtml(s) == s
    decreases |s|
  {
    if s != [] {
      EscapePlain(s[1..]);
      assert [s[0]] + s[1..] == s;
    }
  }

  /** An escaped word is still a word: non-empty and without whitespace. */
  lemma EscapeSolid(w: string)
    requires Solid(w)
    ensures Solid(EscapeHtml(w))
  {
  }
}
