/** Character classes and string tests that the KPI classifier's regular
    expressions are built from. */
module Text {

  /** The class `\d` of a JavaScript regular expression (ASCII digits only). */
  predicate IsDigit(c: char) {
    '0' <= c <= '9'
  }

  /** The class `\s` of a JavaScript regular expression: the ECMAScript
      WhiteSpace characters (tab, vertical tab, form feed, the byte-order mark
      and the Unicode space separators) and the LineTerminator characters. */
  predicate IsSpace(c: char) {
    || c == '\t' || c == '\n' || c == '\U{B}' || c == '\U{C}' || c == '\r'
    || c == ' ' || c == '\U{A0}' || c == '\U{1680}'
    || ('\U{2000}' <= c <= '\U{200A}')
    || c == '\U{2028}' || c == '\U{2029}' || c == '\U{202F}' || c == '\U{205F}'
    || c == '\U{3000}' || c == '\U{FEFF}'
  }

  /** Every character of t in [i, j) is white space. */
  predicate SpacesBetween(t: string, i: nat, j: nat)
    requires i <= j <= |t|
  {
    forall k | i <= k < j :: IsSpace(t[k])
  }

  predicate IsUpper(c: char) {
    'A' <= c <= 'Z'
  }

  /** `toLowerCase` restricted to ASCII: upper-case ASCII letters become
      lower-case, every other character is left as it is. */
  function LowerChar(c: char): (r: char)
    ensures !IsUpper(r)
    ensures IsUpper(c) ==> r as int == c as int + 32
    ensures !IsUpper(c) ==> r == c
  {
    if IsUpper(c) then (c as int + 32) as char else c
  }

  function Lower(s: string): (r: string)
    ensures |r| == |s|
  {
    if s == [] then [] else [LowerChar(s[0])] + Lower(s[1..])
  }

  /** Lower-casing works character by character. */
  lemma {:induction false} LowerChars(s: string)
    ensures forall i | 0 <= i < |s| :: Lower(s)[i] == LowerChar(s[i])
  {
    if s != [] {
      LowerChars(s[1..]);
    }
  }

  /** Lower-casing leaves no upper-case ASCII letter, so a case-insensitive
      match of a lower-case pattern against Lower(s) is an exact match. */
  lemma LowerIsIdempotent(s: string)
    ensures forall i | 0 <= i < |s| :: !IsUpper(Lower(s)[i])
    ensures Lower(Lower(s)) == Lower(s)
  {
    LowerChars(s);
    LowerChars(Lower(s));
  }

  /** w occurs in t starting at position k. */
  predicate OccursAt(t: string, w: string, k: nat) {
    k + |w| <= |t| && t[k..k + |w|] == w
  }

  /** A left-to-right search for w in t from position i: what
      `RegExp.prototype.test` does for a pattern that is a plain word. */
  function ContainsFrom(t: string, w: string, i: nat): (b: bool)
    decreases |t| - i
    ensures b <==> exists k :: i <= k && OccursAt(t, w, k)
  {
    if i + |w| > |t| then false
    else OccursAt(t, w, i) || ContainsFrom(t, w, i + 1)
  }

  function Contains(t: string, w: string): (b: bool)
    ensures b <==> exists k :: OccursAt(t, w, k)
  {
    ContainsFrom(t, w, 0)
  }
}
