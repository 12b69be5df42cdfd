/**
  Python's `html.escape(s, quote=True)` (the default): `&`, `<`, `>`, `"` and
  `'` become `&amp;`, `&lt;`, `&gt;`, `&quot;` and `&#x27;`. Because `&` is
  replaced first, the `&` the later replacements add is never rescanned, and
  they introduce no `<`, `>`, `"` or `'`; so the chain of replacements is the
  same as escaping each character on its own, which is how it is written here.
 */
module HtmlEscape {

  /** The characters `html.escape` rewrites. */
  predicate IsSpecial(c: char) {
    c == '&' || c == '<' || c == '>' || c == '"' || c == '\''
  }

  /** No character that could close an attribute or start or end a tag. */
  predicate NoMarkup(s: string) {
    forall i :: 0 <= i < |s| ==> s[i] != '<' && s[i] != '>' && s[i] != '"' && s[i] != '\''
  }

  function EscapeChar(c: char): (r: string)
    ensures NoMarkup(r)
    ensures !IsSpecial(c) ==> r == [c]
  {
    if c == '&' then "&amp;"
    else if c == '<' then "&lt;"
    else if c == '>' then "&gt;"
    else if c == '"' then "&quot;"
    else if c == '\'' then "&#x27;"
    else [c]
  }

  /** `html.escape(s)`. */
  function Escape(s: string): (r: string)
    ensures NoMarkup(r)
    ensures |r| >= |s|
    ensures (forall i :: 0 <= i < |s| ==> !IsSpecial(s[i])) ==> r == s
    decreases |s|
  {
    if |s| == 0 then "" else EscapeChar(s[0]) + Escape(s[1..])
  }

  /** The character an entity at the front of `s` stands for, and the entity's length. */
  function EntityAt(s: string): (r: (char, nat))
    requires |s| > 0 && s[0] == '&'
    ensures 1 <= r.1 <= |s|
  {
    if |s| >= 5 && s[..5] == "&amp;" then ('&', 5)
    else if |s| >= 4 && s[..4] == "&lt;" then ('<', 4)
    else if |s| >= 4 && s[..4] == "&gt;" then ('>', 4)
    else if |s| >= 6 && s[..6] == "&quot;" then ('"', 6)
    else if |s| >= 6 && s[..6] == "&#x27;" then ('\'', 6)
    else ('&', 1)
  }

  /** Decoding of the five entities `Escape` produces; every other character stands for itself. */
  function Unescape(s: string): string
    decreases |s|
  {
    if |s| == 0 then ""
    else if s[0] != '&' then [s[0]] + Unescape(s[1..])
    else
      var (c, n) := EntityAt(s);
      [c] + Unescape(s[n..])
  }

  /** Decoding one escaped character in front of any text gives that character back. */
  lemma UnescapeEscapeChar(c: char, t: string)
    ensures Unescape(EscapeChar(c) + t) == [c] + Unescape(t)
  {
    var s := EscapeChar(c) + t;
    if IsSpecial(c) {
      var e := EscapeChar(c);
      assert s[..|e|] == e && s[|e|..] == t;
      assert s[1] == e[1];
      assert EntityAt(s) == (c, |e|);
    } else {
      assert s[0] == c && s[1..] == t;
    }
  }

  /** Escaping loses nothing: decoding gives the original text back. */
  lemma {:induction false} UnescapeEscape(s: string)
    ensures Unescape(Escape(s)) == s
    decreases |s|
  {
    if |s| > 0 {
      UnescapeEscapeChar(s[0], Escape(s[1..]));
      UnescapeEscape(s[1..]);
      assert [s[0]] + s[1..] == s;
    }
  }

  /** So different texts escape differently. */
  lemma EscapeInjective(s: string, t: string)
    requires Escape(s) == Escape(t)
    ensures s == t
  {
    UnescapeEscape(s);
    UnescapeEscape(t);
  }
}
