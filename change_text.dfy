/**
 * cleanText, the whitespace normalisation both parsers apply to every change:
 * `text.trim().replaceAll("\\s+", " ")`.
 *
 * String.trim strips characters up to U+0020 from both ends; the regular
 * expression `\s` matches only space, tab, line feed, vertical tab, form feed
 * and carriage return. Both sets are modelled as Java defines them.
 */
module ChangeText {

  /** A character String.trim removes from the ends. */
  predicate IsTrimmable(c: char) {
    c <= ' '
  }

  /** A character the regular expression `\s` matches. */
  predicate IsSpace(c: char) {
    c == ' ' || c == '\t' || c == '\n' || c == '\U{000B}' || c == '\U{000C}' || c == '\r'
  }

  /** The text without its leading trimmable characters. */
  function TrimStart(s: string): string {
    if s != [] && IsTrimmable(s[0]) then TrimStart(s[1..]) else s
  }

  /** The text without its trailing trimmable characters. */
  function TrimEnd(s: string): string {
    if s != [] && IsTrimmable(s[|s| - 1]) then TrimEnd(s[..|s| - 1]) else s
  }

  lemma {:induction false} TrimStartShape(s: string)
    ensures var r := TrimStart(s);
            |r| <= |s| && r == s[|s| - |r|..] && (r == [] || !IsTrimmable(r[0]))
  {
    if s != [] && IsTrimmable(s[0]) {
      TrimStartShape(s[1..]);
    }
  }

  lemma {:induction false} TrimEndShape(s: string)
    ensures var r := TrimEnd(s);
            |r| <= |s| && r == s[..|r|] && (r == [] || !IsTrimmable(r[|r| - 1]))
  {
    if s != [] && IsTrimmable(s[|s| - 1]) {
      TrimEndShape(s[..|s| - 1]);
    }
  }

  /** String.trim. */
  function Trim(s: string): string {
    TrimEnd(TrimStart(s))
  }

  /** The trimmed text has no trimmable character at either end. */
  lemma TrimShape(s: string)
    ensures var r := Trim(s);
            r == [] || (!IsTrimmable(r[0]) && !IsTrimmable(r[|r| - 1]))
  {
    var t := TrimStart(s);
    var r := TrimEnd(t);
    TrimStartShape(s);
    TrimEndShape(t);
    if r != [] {
      assert r[0] == t[0];
    }
  }

  /**
   * replaceAll("\\s+", " "): every maximal run of `\s` characters becomes one
   * space. A `\s` character followed by another is dropped; the last one of a
   * run becomes the space.
   */
  function Collapse(s: string): string {
    if s == [] then []
    else if IsSpace(s[0]) && |s| > 1 && IsSpace(s[1]) then Collapse(s[1..])
    else [if IsSpace(s[0]) then ' ' else s[0]] + Collapse(s[1..])
  }

  /** cleanText. */
  function CleanText(s: string): string {
    Collapse(Trim(s))
  }

  /** No two neighbouring characters are both `\s` characters. */
  predicate NoDoubleSpace(s: string) {
    forall i :: 0 <= i < |s| - 1 ==> !(IsSpace(s[i]) && IsSpace(s[i + 1]))
  }

  /** Every `\s` character is a plain space. */
  predicate OnlyPlainSpaces(s: string) {
    forall i :: 0 <= i < |s| ==> IsSpace(s[i]) ==> s[i] == ' '
  }

  /** Collapse(s) is empty exactly when `s` is, and begins with a space exactly when `s` does. */
  lemma {:induction false} CollapseHead(s: string)
    ensures Collapse(s) == [] <==> s == []
    ensures s != [] ==> Collapse(s)[0] == (if IsSpace(s[0]) then ' ' else s[0])
  {
    if s != [] && IsSpace(s[0]) && |s| > 1 && IsSpace(s[1]) {
      CollapseHead(s[1..]);
    }
  }

  lemma {:induction false} CollapseShape(s: string)
    ensures NoDoubleSpace(Collapse(s)) && OnlyPlainSpaces(Collapse(s))
  {
    if s != [] {
      CollapseShape(s[1..]);
      if !(IsSpace(s[0]) && |s| > 1 && IsSpace(s[1])) {
        CollapseHead(s[1..]);
        var h := if IsSpace(s[0]) then ' ' else s[0];
        var cr := Collapse(s[1..]);
        var c := Collapse(s);
        assert c == [h] + cr;
        forall i | 0 <= i < |c| - 1 ensures !(IsSpace(c[i]) && IsSpace(c[i + 1])) {
          if i > 0 {
            assert c[i] == cr[i - 1] && c[i + 1] == cr[i];
          } else {
            assert c[1] == cr[0];
          }
        }
        forall i | 0 <= i < |c| && IsSpace(c[i]) ensures c[i] == ' ' {
          if i > 0 {
            assert c[i] == cr[i - 1];
          }
        }
      }
    }
  }

  /** Collapse keeps a first and a last character that are not `\s` characters. */
  lemma {:induction false} CollapseKeepsEnds(s: string)
    requires s != [] && !IsSpace(s[|s| - 1])
    ensures Collapse(s) != [] && Collapse(s)[|Collapse(s)| - 1] == s[|s| - 1]
    ensures !IsSpace(s[0]) ==> Collapse(s)[0] == s[0]
  {
    CollapseHead(s);
    if |s| > 1 {
      CollapseKeepsEnds(s[1..]);
    }
  }

  lemma {:induction false} CollapseFixedPoint(s: string)
    requires NoDoubleSpace(s) && OnlyPlainSpaces(s)
    ensures Collapse(s) == s
  {
    if s != [] {
      CollapseFixedPoint(s[1..]);
      assert s == [s[0]] + s[1..];
    }
  }

  lemma TrimFixedPoint(s: string)
    requires s == [] || (!IsTrimmable(s[0]) && !IsTrimmable(s[|s| - 1]))
    ensures Trim(s) == s
  {
  }

  /** What cleanText produces: no trimmable character at either end, no two `\s` characters side by side, only plain spaces. */
  predicate IsClean(s: string) {
    (s == [] || (!IsTrimmable(s[0]) && !IsTrimmable(s[|s| - 1])))
    && NoDoubleSpace(s) && OnlyPlainSpaces(s)
  }

  /** Every cleaned text is clean. */
  lemma CleanTextShape(s: string)
    ensures IsClean(CleanText(s))
  {
    var t := Trim(s);
    TrimShape(s);
    CollapseShape(t);
    if t != [] {
      CollapseKeepsEnds(t);
    }
  }

  /** A clean text is left as it is. */
  lemma CleanTextKeepsClean(s: string)
    requires IsClean(s)
    ensures CleanText(s) == s
  {
    TrimFixedPoint(s);
    CollapseFixedPoint(s);
  }

  /** Cleaning twice is cleaning once. */
  lemma CleanTextIdempotent(s: string)
    ensures CleanText(CleanText(s)) == CleanText(s)
  {
    CleanTextShape(s);
    CleanTextKeepsClean(CleanText(s));
  }

  lemma ExTrimStart()
    ensures TrimStart(" a\t\n b ") == "a\t\n b "
  {
    assert TrimStart("a\t\n b ") == "a\t\n b ";
  }

  lemma ExTrimEnd()
    ensures TrimEnd("a\t\n b ") == "a\t\n b"
  {
    assert TrimEnd("a\t\n b") == "a\t\n b";
  }

  lemma ExCollapse()
    ensures Collapse("a\t\n b") == "a b"
  {
    assert Collapse("b") == "b";
    assert Collapse(" b") == " b";
    assert Collapse("\n b") == " b";
    assert Collapse("\t\n b") == " b";
  }

  /** The whitespace of a change written over several lines is normalised. */
  lemma CleanTextExample()
    ensures CleanText(" a\t\n b ") == "a b"
  {
    ExTrimStart();
    ExTrimEnd();
    ExCollapse();
  }
}
