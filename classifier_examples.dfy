/** Worked classifications of single KPIs: the greedy capture, the space the
    combined text puts between name and category, and the precedence of the
    scope pattern over the keyword tests. */
module ClassifierExamples {
  import opened Wrappers
  import opened Text
  import opened ScopePattern
  import opened Grouping
  import opened Classifier

  /** "scope 123" captures "12": a digit run stops after two digits. */
  lemma ThirdDigitIsDropped()
    ensures Search("scope 123") == Some(ScopeMatch(0, "12"))
  {
    var t := "scope 123";
    assert t[0..5] == "scope";
    assert IsSpace(t[5]) && !IsSpace(t[6]);
    assert SkipSpaces(t, 5) == 6;
    assert NumeralEnd(t, 6) == 8;
    assert t[6..8] == "12";
  }

  /** "scope 3." captures "3": a dot with no digit after it is not taken. */
  lemma TrailingDotIsDropped()
    ensures Search("scope 3.") == Some(ScopeMatch(0, "3"))
  {
    var t := "scope 3.";
    assert t[0..5] == "scope";
    assert IsSpace(t[5]) && !IsSpace(t[6]);
    assert SkipSpaces(t, 5) == 6;
    assert NumeralEnd(t, 6) == 7;
    assert t[6..7] == "3";
  }

  /** "scope3.25" captures "3.25" without any white space. */
  lemma FractionIsTaken()
    ensures Search("scope3.25") == Some(ScopeMatch(0, "3.25"))
  {
    var t := "scope3.25";
    assert t[0..5] == "scope";
    assert !IsSpace(t[5]);
    assert SkipSpaces(t, 5) == 5;
    assert NumeralEnd(t, 5) == 9;
    assert t[5..9] == "3.25";
  }

  /** A name ending in "Scope" and a category "2" together match: the
      combined text is "scope 2". */
  lemma MatchSpansNameAndCategory(id: string, payload: string)
    ensures Classify(Kpi(id, "Scope", Some("2"), payload)) == ScopeBucket("Scope 2")
  {
    var t := CombinedText(Kpi(id, "Scope", Some("2"), payload));
    assert t == "scope 2" by {
      LowerChars("Scope");
      LowerChars("2");
      assert Lower("Scope") == "scope";
      assert Lower("2") == "2";
    }
    OneDigitAtStart(t);
    assert t[6..7] == "2";
  }

  /** A text that starts with "scope ", a digit, and then neither a digit
      nor a dot captures that one digit at position 0. */
  lemma OneDigitAtStart(t: string)
    requires |t| >= 7 && t[..6] == "scope " && IsDigit(t[6])
    requires |t| > 7 ==> !IsDigit(t[7]) && t[7] != '.'
    ensures Search(t) == Some(ScopeMatch(0, t[6..7]))
  {
    assert t[0..5] == t[..6][..5];
    assert IsSpace(t[5]) && !IsSpace(t[6]);
    assert SkipSpaces(t, 5) == 6;
    assert NumeralEnd(t, 6) == 7;
  }

  /** The scope test wins over the keywords: a KPI named "Scope 1" with the
      category "GHG" is a scope KPI, not a greenhouse-gas metric. */
  lemma ScopeBeatsKeyword(id: string, payload: string)
    ensures Classify(Kpi(id, "Scope 1", Some("GHG"), payload)) == ScopeBucket("Scope 1")
  {
    ScopeOneGhgText(id, payload);
    OneDigitAtStart("scope 1 ghg");
    assert "scope 1 ghg"[6..7] == "1";
  }

  /** The combined text of the KPI named "Scope 1" with the category "GHG". */
  lemma ScopeOneGhgText(id: string, payload: string)
    ensures CombinedText(Kpi(id, "Scope 1", Some("GHG"), payload)) == "scope 1 ghg"
  {
    LowerChars("Scope 1");
    LowerChars("GHG");
    assert Lower("Scope 1") == "scope 1";
    assert Lower("GHG") == "ghg";
  }

  /** Without a scope match, "Carbon" makes a greenhouse-gas metric. */
  lemma CarbonIsGhg(id: string, payload: string)
    ensures Classify(Kpi(id, "Carbon", None, payload)) == GhgBucket
  {
    var t := CombinedText(Kpi(id, "Carbon", None, payload));
    assert t == "carbon " by {
      LowerChars("Carbon");
      assert Lower("Carbon") == "carbon";
    }
    assert OccursAt(t, "carbon", 0);
    assert Search(t).None? by {
      forall k: nat ensures MatchAt(t, k).None? {
        if k + 5 <= |t| {
          assert t[k..k + 5] != "scope" by {
            assert t[k] != 's';
          }
        }
      }
    }
  }

  /** A text with neither a scope match nor a keyword goes to the other
      metrics. */
  lemma PlainNameIsOther(id: string, payload: string)
    ensures Classify(Kpi(id, "Water", None, payload)) == OtherBucket
  {
    var t := CombinedText(Kpi(id, "Water", None, payload));
    assert t == "water " by {
      LowerChars("Water");
      assert Lower("Water") == "water";
    }
    assert forall k | 0 <= k < |t| :: t[k] !in {'s', 'i', 'g', 'c'};
    assert Search(t).None? by {
      forall k: nat ensures MatchAt(t, k).None? {
        if k + 5 <= |t| {
          assert t[k..k + 5][0] == t[k];
        }
      }
    }
    forall k: nat | k + 3 <= |t| ensures !OccursAt(t, "ghg", k) {
      assert t[k..k + 3][0] == t[k];
    }
    assert t[0..6] != "carbon" by {
      assert t[0..6][0] == t[0] == 'w' && "carbon"[0] == 'c';
    }
  }
}
