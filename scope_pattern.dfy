/** The scope pattern `/scope\s*(\d{1,2}(?:\.\d{1,2})?)/i` of the classifier,
    applied to text that is already lower-cased: a search from the left for
    "scope", then any white space, then one or two digits, then optionally a
    dot and one or two digits. Both digit runs are greedy and nothing follows
    the group, so the capture is the longest number the text offers there. */
module ScopePattern {
  import opened Wrappers
  import opened Text

  /** `\d{1,2}`. */
  predicate DigitRun(s: string) {
    1 <= |s| <= 2 && forall i | 0 <= i < |s| :: IsDigit(s[i])
  }

  /** The text of the captured group `\d{1,2}(?:\.\d{1,2})?`. */
  predicate IsNumeral(c: string) {
    || DigitRun(c)
    || exists p | 1 <= p <= 2 && p < |c| :: c[p] == '.' && DigitRun(c[..p]) && DigitRun(c[p + 1..])
  }

  /** `\s*` taken as far as it goes: the first position at or after i that
      does not hold white space. */
  function SkipSpaces(t: string, i: nat): (j: nat)
    requires i <= |t|
    decreases |t| - i
    ensures i <= j <= |t|
    ensures SpacesBetween(t, i, j)
    ensures j < |t| ==> !IsSpace(t[j])
  {
    if i < |t| && IsSpace(t[i]) then SkipSpaces(t, i + 1) else i
  }

  /** Where the greedy group `\d{1,2}(?:\.\d{1,2})?` ends when it starts at j. */
  function NumeralEnd(t: string, j: nat): (e: nat)
    requires j < |t| && IsDigit(t[j])
    ensures j < e <= |t|
  {
    var e1 := if j + 1 < |t| && IsDigit(t[j + 1]) then j + 2 else j + 1;
    if e1 + 1 < |t| && t[e1] == '.' && IsDigit(t[e1 + 1]) then
      (if e1 + 2 < |t| && IsDigit(t[e1 + 2]) then e1 + 3 else e1 + 2)
    else e1
  }

  /** A numeral spelled out character by character: "d", "dd", "d.d",
      "d.dd", "dd.d" or "dd.dd". */
  lemma NumeralByChars(u: string)
    ensures IsNumeral(u) <==>
      && 1 <= |u| <= 5 && IsDigit(u[0])
      && (|u| == 2 ==> IsDigit(u[1]))
      && (|u| == 3 ==> u[1] == '.' && IsDigit(u[2]))
      && (|u| == 4 ==> ((u[1] == '.' && IsDigit(u[2])) || (IsDigit(u[1]) && u[2] == '.')) && IsDigit(u[3]))
      && (|u| == 5 ==> IsDigit(u[1]) && u[2] == '.' && IsDigit(u[3]) && IsDigit(u[4]))
  {
    if 3 <= |u| && u[1] == '.' {
      assert u[..1][0] == u[0];
      assert forall k | 0 <= k < |u| - 2 :: u[2..][k] == u[2 + k];
    }
    if 4 <= |u| && u[2] == '.' {
      assert u[..2][0] == u[0] && u[..2][1] == u[1];
      assert forall k | 0 <= k < |u| - 3 :: u[3..][k] == u[3 + k];
    }
  }

  /** The greedy group captures a numeral, and no longer prefix of t[j..] is
      one: the quantifiers' preference for more digits and for taking the
      optional fraction yields the longest capture. */
  lemma NumeralEndIsLongest(t: string, j: nat)
    requires j < |t| && IsDigit(t[j])
    ensures IsNumeral(t[j..NumeralEnd(t, j)])
    ensures forall e | NumeralEnd(t, j) < e <= |t| :: !IsNumeral(t[j..e])
  {
    NumeralByChars(t[j..NumeralEnd(t, j)]);
    forall e | NumeralEnd(t, j) < e <= |t| ensures !IsNumeral(t[j..e]) {
      NumeralByChars(t[j..e]);
    }
  }

  /** The match of the scope pattern that starts at position i, if any, as
      its captured number. */
  function MatchAt(t: string, i: nat): (r: Option<string>)
    ensures r.Some? ==> IsNumeral(r.value)
  {
    if i + 5 <= |t| && t[i..i + 5] == "scope" then
      var j := SkipSpaces(t, i + 5);
      if j < |t| && IsDigit(t[j]) then
        NumeralEndIsLongest(t, j);
        Some(t[j..NumeralEnd(t, j)])
      else None
    else None
  }

  /** What the pattern means, stated without the search: at position i the
      text reads "scope", positions [i+5, j) are white space, c is written at
      j, c is a numeral, and no longer numeral is written at j. */
  ghost predicate CapturesAt(t: string, i: nat, j: nat, c: string) {
    && i + 5 <= j && j + |c| <= |t|
    && t[i..i + 5] == "scope"
    && SpacesBetween(t, i + 5, j)
    && t[j..j + |c|] == c
    && IsNumeral(c)
    && forall e | j + |c| < e <= |t| :: !IsNumeral(t[j..e])
  }

  /** Every match MatchAt finds is a match of the pattern. */
  lemma MatchAtSound(t: string, i: nat)
    requires MatchAt(t, i).Some?
    ensures i + 5 <= |t| && CapturesAt(t, i, SkipSpaces(t, i + 5), MatchAt(t, i).value)
  {
    var j := SkipSpaces(t, i + 5);
    NumeralEndIsLongest(t, j);
  }

  /** Every match of the pattern is the one MatchAt finds. */
  lemma MatchAtComplete(t: string, i: nat, j: nat, c: string)
    requires CapturesAt(t, i, j, c)
    ensures MatchAt(t, i) == Some(c)
  {
    assert c[0] == t[j];
    assert IsDigit(c[0]) by {
      if !DigitRun(c) {
        var q :| 1 <= q <= 2 && q < |c| && c[q] == '.' && DigitRun(c[..q]) && DigitRun(c[q + 1..]);
        assert c[..q][0] == c[0];
      }
    }
    SkipSpacesStopsAt(t, i + 5, j);
    NumeralEndIsLongest(t, j);
    var e := NumeralEnd(t, j);
    assert IsNumeral(t[j..j + |c|]);
    assert IsNumeral(t[j..e]);
    assert e == j + |c|;
  }

  /** `\s*` stops at the first character that is not white space. */
  lemma {:induction false} SkipSpacesStopsAt(t: string, i: nat, j: nat)
    requires i <= j < |t| && SpacesBetween(t, i, j) && !IsSpace(t[j])
    ensures SkipSpaces(t, i) == j
    decreases j - i
  {
    if i < j {
      SkipSpacesStopsAt(t, i + 1, j);
    }
  }

  /** The result of `String.prototype.match` for the scope pattern: where
      the match starts and the captured number (`scopeMatch[1]`). */
  datatype ScopeMatch = ScopeMatch(index: nat, number: string)

  function SearchFrom(t: string, i: nat): (m: Option<ScopeMatch>)
    requires i <= |t|
    decreases |t| - i
    ensures m.Some? ==> i <= m.value.index && MatchAt(t, m.value.index) == Some(m.value.number)
  {
    if i == |t| then None
    else match MatchAt(t, i)
      case Some(c) => Some(ScopeMatch(i, c))
      case None => SearchFrom(t, i + 1)
  }

  /** Positions are tried from left to right: nothing matches between i and
      the match found, and nothing from i on when none is found. */
  lemma {:induction false} SearchFromIsLeftmost(t: string, i: nat)
    requires i <= |t|
    decreases |t| - i
    ensures SearchFrom(t, i).Some? ==> forall k: nat | i <= k < SearchFrom(t, i).value.index :: MatchAt(t, k).None?
    ensures SearchFrom(t, i).None? ==> forall k: nat | i <= k :: MatchAt(t, k).None?
  {
    if i < |t| && MatchAt(t, i).None? {
      SearchFromIsLeftmost(t, i + 1);
    }
  }

  /** The first match of the scope pattern in t; the number it captures is
      a numeral. */
  function Search(t: string): (m: Option<ScopeMatch>)
    ensures m.Some? ==> MatchAt(t, m.value.index) == Some(m.value.number) && IsNumeral(m.value.number)
  {
    SearchFrom(t, 0)
  }

  /** The match found is the leftmost one: no match starts earlier, and
      there is no match at all when the search finds none. */
  lemma SearchIsLeftmost(t: string)
    ensures Search(t).Some? ==> forall k: nat | k < Search(t).value.index :: MatchAt(t, k).None?
    ensures Search(t).None? ==> forall k: nat :: MatchAt(t, k).None?
  {
    SearchFromIsLeftmost(t, 0);
  }

  /** The search finds nothing exactly when the pattern matches nowhere. */
  lemma SearchNoneIffNoMatch(t: string)
    ensures Search(t).None? <==> forall i: nat, j: nat, c ::  !CapturesAt(t, i, j, c)
  {
    SearchIsLeftmost(t);
    if Search(t).None? {
      forall i: nat, j: nat, c ensures !CapturesAt(t, i, j, c) {
        if CapturesAt(t, i, j, c) {
          MatchAtComplete(t, i, j, c);
        }
      }
    } else {
      var m := Search(t).value;
      MatchAtSound(t, m.index);
    }
  }
}
