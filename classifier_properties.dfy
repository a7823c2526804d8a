/** What the classification promises: every KPI lands in exactly one group,
    groups keep input order, the scope test takes precedence, scope labels
    are sorted by value, and no group that is shown is empty. */
module ClassifierProperties {
  import opened Text
  import opened ScopePattern
  import opened ScopeOrder
  import opened Records
  import opened Grouping
  import opened Classifier

  // ---------------------------------------------------------------------
  // Exactly one place per KPI

  /** A KPI goes to the group its category names and to no other. */
  lemma EachKpiInExactlyOnePlace(kpis: seq<Kpi>, x: Kpi)
    requires x in kpis
    ensures var g := Grouped(kpis); var entries := g.scopeEmissions.entries;
      match Classify(x)
      case ScopeBucket(k) =>
        && k in g.scopeEmissions.keys && k in entries && x in entries[k]
        && x !in g.ghgMetrics && x !in g.otherMetrics
        && forall k' | k' in entries && k' != k :: x !in entries[k']
      case GhgBucket =>
        && x in g.ghgMetrics && x !in g.otherMetrics
        && forall k' | k' in entries :: x !in entries[k']
      case OtherBucket =>
        && x in g.otherMetrics && x !in g.ghgMetrics
        && forall k' | k' in entries :: x !in entries[k']
  {
    var g := Grouped(kpis);
    BucketMembers(kpis, Classify, GhgBucket);
    BucketMembers(kpis, Classify, OtherBucket);
    ScopeKeysMembers(kpis, Classify);
    SortKeysSorted(ScopeKeys(kpis, Classify));
    forall k' | k' in g.scopeEmissions.entries ensures x in g.scopeEmissions.entries[k'] <==> Classify(x) == ScopeBucket(k') {
      BucketMembers(kpis, Classify, ScopeBucket(k'));
    }
    if Classify(x).ScopeBucket? {
      BucketMembers(kpis, Classify, Classify(x));
    }
  }

  /** The scope test comes first: a KPI whose text matches the scope pattern
      is in the bucket of the captured number, whatever else its text says. */
  lemma ScopeMatchTakesPrecedence(kpis: seq<Kpi>, i: nat)
    requires i < |kpis| && Search(CombinedText(kpis[i])).Some?
    ensures var g := Grouped(kpis);
      var key := ScopeKey(Search(CombinedText(kpis[i])).value.number);
      && key in g.scopeEmissions.keys && key in g.scopeEmissions.entries
      && kpis[i] in g.scopeEmissions.entries[key]
      && kpis[i] !in g.ghgMetrics && kpis[i] !in g.otherMetrics
  {
    EachKpiInExactlyOnePlace(kpis, kpis[i]);
  }

  /** Without a scope match, a KPI is a greenhouse-gas metric exactly when its
      text contains "intensity", "ghg" or "carbon", and otherwise it is one of
      the other metrics; it is in no scope bucket either way. */
  lemma NoScopeMatchGoesByKeyword(kpis: seq<Kpi>, i: nat)
    requires i < |kpis| && Search(CombinedText(kpis[i])).None?
    ensures var g := Grouped(kpis); var t := CombinedText(kpis[i]);
      && (kpis[i] in g.ghgMetrics <==> Contains(t, "intensity") || Contains(t, "ghg") || Contains(t, "carbon"))
      && (kpis[i] in g.otherMetrics <==> !(Contains(t, "intensity") || Contains(t, "ghg") || Contains(t, "carbon")))
      && forall k | k in g.scopeEmissions.entries :: kpis[i] !in g.scopeEmissions.entries[k]
  {
    EachKpiInExactlyOnePlace(kpis, kpis[i]);
  }

  // ---------------------------------------------------------------------
  // Partition: the groups hold the input, each KPI as often as it occurs

  /** Everything the classification outputs. */
  function Collected(g: Groups): multiset<Kpi> {
    multiset(g.ghgMetrics) + multiset(g.otherMetrics) + RecordContents(g.scopeEmissions, g.scopeEmissions.keys)
  }

  /** How many KPIs the view lists. */
  function OutputCount(g: Groups): nat {
    |g.ghgMetrics| + |g.otherMetrics| + RecordCount(g.scopeEmissions, g.scopeEmissions.keys)
  }

  /** The groups hold exactly the input KPIs, each as often as it occurs, so
      the view lists as many KPIs as there are: none is lost, none is shown
      twice. */
  lemma GroupsPartitionInput(kpis: seq<Kpi>)
    ensures Collected(Grouped(kpis)) == multiset(kpis)
    ensures OutputCount(Grouped(kpis)) == |kpis|
  {
    var g := Grouped(kpis);
    var keys := ScopeKeys(kpis, Classify);
    var r := g.scopeEmissions;
    assert RecordContents(r, r.keys) == ScopeSum(kpis, Classify, keys) by {
      SortKeysSorted(keys);
      assert forall k | k in r.keys :: k in r.entries && r.entries[k] == Bucket(kpis, Classify, ScopeBucket(k));
      RecordContentsIsScopeSum(r, kpis, Classify, r.keys);
      ScopeSumPermutation(kpis, Classify, r.keys, keys);
    }
    BucketsPartition(kpis, Classify);
    assert Collected(g) == multiset(kpis);
    RecordCountIsSize(r, r.keys);
    assert |Collected(g)| == |g.ghgMetrics| + |g.otherMetrics| + |RecordContents(r, r.keys)|;
  }

  // ---------------------------------------------------------------------
  // Input order

  /** Every bucket of the result, and both lists, list the input KPIs of
      their category at increasing positions, and those positions are all
      the positions of that category. */
  lemma GroupsKeepInputOrder(kpis: seq<Kpi>)
    ensures var g := Grouped(kpis);
      && (forall k | k in g.scopeEmissions.entries ::
            InInputOrder(kpis, g.scopeEmissions.entries[k], Positions(kpis, Classify, ScopeBucket(k))))
      && InInputOrder(kpis, g.ghgMetrics, Positions(kpis, Classify, GhgBucket))
      && InInputOrder(kpis, g.otherMetrics, Positions(kpis, Classify, OtherBucket))
      && forall c, i | 0 <= i < |kpis| :: i in Positions(kpis, Classify, c) <==> Classify(kpis[i]) == c
  {
    var g := Grouped(kpis);
    forall c ensures forall i | 0 <= i < |kpis| :: i in Positions(kpis, Classify, c) <==> Classify(kpis[i]) == c {
      PositionsMembers(kpis, Classify, c);
    }
    forall k | k in g.scopeEmissions.entries
      ensures InInputOrder(kpis, g.scopeEmissions.entries[k], Positions(kpis, Classify, ScopeBucket(k)))
    {
      BucketKeepsInputOrder(kpis, Classify, ScopeBucket(k));
    }
    BucketKeepsInputOrder(kpis, Classify, GhgBucket);
    BucketKeepsInputOrder(kpis, Classify, OtherBucket);
  }

  // ---------------------------------------------------------------------
  // Label order

  /** The labels come out in non-decreasing order of value, each label once;
      they are the labels the loop created, labels of equal value keep the
      order in which they first appeared, and sorting changes no bucket. */
  lemma ScopeLabelsSorted(kpis: seq<Kpi>)
    ensures var r := Grouped(kpis).scopeEmissions;
      && r.Valid()
      && SortedByValue(r.keys)
      && AllScopeKeys(r.keys)
      && multiset(r.keys) == multiset(ScopeKeys(kpis, Classify))
      && (forall v :: WithValue(r.keys, v) == WithValue(ScopeKeys(kpis, Classify), v))
      && forall k | k in r.entries :: r.entries[k] == Bucket(kpis, Classify, ScopeBucket(k))
  {
    var keys := ScopeKeys(kpis, Classify);
    ScopeKeysMembers(kpis, Classify);
    SortKeysSorted(keys);
    forall v ensures WithValue(SortKeys(keys), v) == WithValue(keys, v) {
      SortKeysStable(keys, v);
    }
    forall i | 0 <= i < |SortKeys(keys)| ensures IsScopeKey(SortKeys(keys)[i]) {
      var k := SortKeys(keys)[i];
      assert k in keys;
      BucketMembers(kpis, Classify, ScopeBucket(k));
      var x := Bucket(kpis, Classify, ScopeBucket(k))[0];
      assert Classify(x) == ScopeBucket(k);
      ClassifyLabelIsScopeKey(x);
    }
  }

  // ---------------------------------------------------------------------
  // Emptiness

  /** Every scope bucket that exists holds a KPI, so the table of a scope
      section never shows its empty-state message. */
  lemma ScopeBucketsNonEmpty(kpis: seq<Kpi>)
    ensures var g := Grouped(kpis);
      forall k | k in g.scopeEmissions.entries ::
        g.scopeEmissions.entries[k] != [] && !TableShowsEmptyState(g.scopeEmissions.entries[k])
  {
    ScopeKeysMembers(kpis, Classify);
  }

  /** There is scope data exactly when some KPI's text matches the scope
      pattern. */
  lemma HasScopeDataIffSomeMatch(kpis: seq<Kpi>)
    ensures HasScopeData(Grouped(kpis)) <==>
      exists i | 0 <= i < |kpis| :: Search(CombinedText(kpis[i])).Some?
  {
    var keys := ScopeKeys(kpis, Classify);
    SortKeysSorted(keys);
    ScopeKeysMembers(kpis, Classify);
    if HasScopeData(Grouped(kpis)) {
      var k := SortKeys(keys)[0];
      assert k in keys;
      BucketMembers(kpis, Classify, ScopeBucket(k));
      var x := Bucket(kpis, Classify, ScopeBucket(k))[0];
      assert x in kpis && Classify(x) == ScopeBucket(k);
      var i :| 0 <= i < |kpis| && kpis[i] == x;
      assert Search(CombinedText(kpis[i])).Some?;
    }
    if exists i | 0 <= i < |kpis| :: Search(CombinedText(kpis[i])).Some? {
      var i :| 0 <= i < |kpis| && Search(CombinedText(kpis[i])).Some?;
      EachKpiInExactlyOnePlace(kpis, kpis[i]);
    }
  }

  /** The view has something to show exactly when there is at least one KPI:
      the "nothing found" message appears for an empty or missing list and
      only then. */
  lemma HasAnyDataIffSomeKpi(kpis: seq<Kpi>)
    ensures HasAnyData(Grouped(kpis)) <==> |kpis| > 0
  {
    var g := Grouped(kpis);
    GroupsPartitionInput(kpis);
    if |kpis| > 0 && !HasGhgData(g) && !HasOtherData(g) {
      assert RecordCount(g.scopeEmissions, g.scopeEmissions.keys) > 0;
      assert g.scopeEmissions.keys != [];
    }
  }
}
