/** Scope keys ("Scope " followed by the captured number) and the order the
    classifier puts them in: by the numeric value of the number, which the
    source computes with `parseFloat(key.replace('Scope ', ''))` and compares
    with `numA - numB`. The number has at most two fractional digits, so the
    value is kept exactly, in hundredths. */
module ScopeOrder {
  import opened Text
  import opened Lists
  import opened ScopePattern

  /** The bucket label `Scope ${scopeMatch[1]}`. */
  function ScopeKey(number: string): (key: string)
    ensures |key| == 6 + |number| && key[..6] == "Scope " && key[6..] == number
  {
    "Scope " + number
  }

  /** A label the classifier can create. */
  predicate IsScopeKey(key: string) {
    |key| >= 6 && key[..6] == "Scope " && IsNumeral(key[6..])
  }

  /** A label made from a numeral is a scope key. */
  lemma ScopeKeyOfNumeral(a: string)
    requires IsNumeral(a)
    ensures IsScopeKey(ScopeKey(a))
  {
  }

  /** Distinct captured numbers give distinct labels. */
  lemma ScopeKeyInjective(a: string, b: string)
    ensures ScopeKey(a) == ScopeKey(b) <==> a == b
  {
    if ScopeKey(a) == ScopeKey(b) {
      assert a == ScopeKey(a)[6..];
    }
  }

  function DigitValue(c: char): (d: nat)
    requires IsDigit(c)
    ensures d <= 9
  {
    c as int - '0' as int
  }

  /** The value of `\d{1,2}` as written in decimal. */
  function WholeValue(s: string): (v: nat)
    requires DigitRun(s)
    ensures v <= 99
  {
    if |s| == 1 then DigitValue(s[0]) else 10 * DigitValue(s[0]) + DigitValue(s[1])
  }

  /** The value in hundredths of the fractional digits after the dot. */
  function FractionValue(s: string): (v: nat)
    requires DigitRun(s)
    ensures v <= 99
  {
    if |s| == 1 then 10 * DigitValue(s[0]) else 10 * DigitValue(s[0]) + DigitValue(s[1])
  }

  /** Where the dot of a numeral that has one stands. */
  lemma NumeralDot(c: string)
    requires IsNumeral(c) && !DigitRun(c)
    ensures var p := if c[1] == '.' then 1 else 2;
      p < |c| && c[p] == '.' && DigitRun(c[..p]) && DigitRun(c[p + 1..])
  {
    var q :| 1 <= q <= 2 && q < |c| && c[q] == '.' && DigitRun(c[..q]) && DigitRun(c[q + 1..]);
    assert q == 2 ==> c[1] == c[..q][1];
  }

  /** `parseFloat` of a numeral, exactly, in hundredths: 12.5 is 1250. */
  function NumeralValue(c: string): (v: nat)
    requires IsNumeral(c)
    ensures v < 10000
  {
    if DigitRun(c) then 100 * WholeValue(c)
    else
      NumeralDot(c);
      var p := if c[1] == '.' then 1 else 2;
      100 * WholeValue(c[..p]) + FractionValue(c[p + 1..])
  }

  /** The sort key of a label: the value of the number after "Scope ".
      Only labels made by the classifier are ever compared; any other string
      is given the value 0 here. */
  function KeyValue(key: string): (v: nat)
    ensures IsScopeKey(key) ==> v == NumeralValue(key[6..])
  {
    if IsScopeKey(key) then NumeralValue(key[6..]) else 0
  }

  /** The comparator of the key sort: negative, zero or positive as a's
      value is below, equal to or above b's. */
  function CompareKeys(a: string, b: string): (r: int)
    ensures r < 0 <==> KeyValue(a) < KeyValue(b)
    ensures r == 0 <==> KeyValue(a) == KeyValue(b)
  {
    KeyValue(a) - KeyValue(b)
  }

  predicate AllScopeKeys(s: seq<string>) {
    forall i | 0 <= i < |s| :: IsScopeKey(s[i])
  }

  ghost predicate SortedByValue(s: seq<string>) {
    forall i, j | 0 <= i < j < |s| :: KeyValue(s[i]) <= KeyValue(s[j])
  }

  /** Inserts k before the first key whose value is not below k's. */
  function Insert(k: string, s: seq<string>): (r: seq<string>)
    ensures multiset(r) == multiset(s) + multiset{k}
  {
    if s == [] || CompareKeys(k, s[0]) <= 0 then [k] + s
    else
      assert s == [s[0]] + s[1..];
      [s[0]] + Insert(k, s[1..])
  }

  lemma {:induction false} InsertSorted(k: string, s: seq<string>)
    requires SortedByValue(s)
    ensures SortedByValue(Insert(k, s))
  {
    if s != [] && CompareKeys(k, s[0]) > 0 {
      var rest := Insert(k, s[1..]);
      InsertSorted(k, s[1..]);
      forall x | x in rest ensures KeyValue(s[0]) <= KeyValue(x) {
        assert x in multiset(rest);
      }
      SortedCons(s[0], rest);
    }
  }

  /** A key no greater than any key of a sorted list can go in front. */
  lemma SortedCons(a: string, rest: seq<string>)
    requires SortedByValue(rest)
    requires forall x | x in rest :: KeyValue(a) <= KeyValue(x)
    ensures SortedByValue([a] + rest)
  {
    var r := [a] + rest;
    forall i, j | 0 <= i < j < |r| ensures KeyValue(r[i]) <= KeyValue(r[j]) {
      if i > 0 {
        assert r[i] == rest[i - 1] && r[j] == rest[j - 1];
      } else {
        assert r[j] in rest;
      }
    }
  }

  /** The keys sorted by value, as `sort` with the comparator orders them.
      Keys of equal value keep their relative order, which the ECMAScript
      specification has required of `Array.prototype.sort` since 2019. */
  function SortKeys(s: seq<string>): (r: seq<string>)
    ensures multiset(r) == multiset(s)
  {
    if s == [] then []
    else
      assert s == [s[0]] + s[1..];
      Insert(s[0], SortKeys(s[1..]))
  }

  /** The sorted keys are in non-decreasing order of value, are the same keys
      with the same multiplicities, and stay distinct when they were. */
  lemma {:induction false} SortKeysSorted(s: seq<string>)
    ensures SortedByValue(SortKeys(s))
    ensures multiset(SortKeys(s)) == multiset(s)
    ensures forall x :: x in SortKeys(s) <==> x in s
    ensures Distinct(s) ==> Distinct(SortKeys(s))
  {
    if s != [] {
      SortKeysSorted(s[1..]);
      InsertSorted(s[0], SortKeys(s[1..]));
    }
    forall x ensures x in SortKeys(s) <==> x in s {
      assert x in SortKeys(s) <==> x in multiset(SortKeys(s));
    }
    DistinctByMultiplicity(s);
    DistinctByMultiplicity(SortKeys(s));
  }

  /** The keys of s whose value is v, in their order in s. */
  function WithValue(s: seq<string>, v: nat): (r: seq<string>)
  {
    if s == [] then []
    else (if KeyValue(s[0]) == v then [s[0]] else []) + WithValue(s[1..], v)
  }

  lemma {:induction false} InsertStable(k: string, s: seq<string>, v: nat)
    ensures WithValue(Insert(k, s), v) == (if KeyValue(k) == v then [k] else []) + WithValue(s, v)
  {
    if s == [] || CompareKeys(k, s[0]) <= 0 {
      assert ([k] + s)[1..] == s;
    } else {
      InsertStable(k, s[1..], v);
      assert ([s[0]] + Insert(k, s[1..]))[1..] == Insert(k, s[1..]);
    }
  }

  /** Sorting is stable: the keys of each value come out in their input
      order. */
  lemma {:induction false} SortKeysStable(s: seq<string>, v: nat)
    ensures WithValue(SortKeys(s), v) == WithValue(s, v)
  {
    if s != [] {
      SortKeysStable(s[1..], v);
      InsertStable(s[0], SortKeys(s[1..]), v);
    }
  }

  /** The value of a label whose number has no fraction. */
  lemma WholeKeyValue(key: string, whole: string)
    requires DigitRun(whole) && key == ScopeKey(whole)
    ensures IsScopeKey(key) && KeyValue(key) == 100 * WholeValue(whole)
  {
    assert key[6..] == whole;
  }

  /** The value of a label whose number has a fraction: the whole part in
      hundreds plus the fraction in hundredths, for each of the four shapes
      d.d, d.dd, dd.d and dd.dd. */
  lemma FractionKeyValue(key: string, whole: string, fraction: string)
    requires DigitRun(whole) && DigitRun(fraction)
    requires key == ScopeKey(whole + "." + fraction)
    ensures IsScopeKey(key) && KeyValue(key) == 100 * WholeValue(whole) + FractionValue(fraction)
  {
    var c := whole + "." + fraction;
    var p := |whole|;
    assert key[6..] == c;
    assert c[..p] == whole && c[p] == '.' && c[p + 1..] == fraction;
    assert IsNumeral(c);
    assert !DigitRun(c);
    assert p == 2 ==> c[1] != '.';
  }

  /** Ordering by value is not ordering by text: "Scope 10" comes after
      "Scope 2", and "Scope 3" before "Scope 3.1". */
  lemma OrderExamples()
    ensures KeyValue("Scope 2") < KeyValue("Scope 10")
    ensures KeyValue("Scope 3") < KeyValue("Scope 3.1") < KeyValue("Scope 10")
  {
    WholeKeyValue("Scope 2", "2");
    WholeKeyValue("Scope 3", "3");
    WholeKeyValue("Scope 10", "10");
    FractionKeyValue("Scope 3.1", "3", "1");
  }

  /** The sort puts "Scope 2" before "Scope 10". */
  lemma SortExample()
    ensures SortKeys(["Scope 10", "Scope 2"]) == ["Scope 2", "Scope 10"]
  {
    OrderExamples();
  }

  /** A two-digit whole part: "Scope 12.5" is worth 12.50. */
  lemma TwoDigitWholeExample()
    ensures KeyValue("Scope 12.5") == 1250
  {
    FractionKeyValue("Scope 12.5", "12", "5");
    assert WholeValue("12") == 12 && FractionValue("5") == 50;
  }

  /** Two digits on each side of the dot: "Scope 12.05" is worth 12.05. */
  lemma TwoDigitFractionExample()
    ensures KeyValue("Scope 12.05") == 1205
  {
    FractionKeyValue("Scope 12.05", "12", "05");
    assert WholeValue("12") == 12 && FractionValue("05") == 5;
  }

  /** A trailing zero in the fraction changes the label but not its value:
      "Scope 1.10" and "Scope 1.1" are both worth 1.10. */
  lemma TrailingZeroExample()
    ensures KeyValue("Scope 1.10") == KeyValue("Scope 1.1") == 110
  {
    FractionKeyValue("Scope 1.10", "1", "10");
    FractionKeyValue("Scope 1.1", "1", "1");
  }

  /** "Scope 1", "Scope 01" and "Scope 1.0" are three labels of one value. */
  lemma EqualValueExamples()
    ensures KeyValue("Scope 1") == KeyValue("Scope 01") == KeyValue("Scope 1.0") == 100
  {
    assert KeyValue("Scope 1") == 100 by {
      WholeKeyValue("Scope 1", "1");
    }
    assert KeyValue("Scope 01") == 100 by {
      WholeKeyValue("Scope 01", "01");
      assert WholeValue("01") == 1;
    }
    assert KeyValue("Scope 1.0") == 100 by {
      FractionKeyValue("Scope 1.0", "1", "0");
    }
  }
}
