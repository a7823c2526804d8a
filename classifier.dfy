/** The KPI classifier of the results view: it splits the extracted KPIs
    into scope buckets ("Scope 1", "Scope 2", ...), greenhouse-gas and
    intensity metrics, and the rest. */
module Classifier {
  import opened Wrappers
  import opened Text
  import opened Lists
  import opened ScopePattern
  import opened ScopeOrder
  import opened Records
  import opened Grouping

  /** One extracted KPI. The classifier reads only the name and the optional
      category hint; the id and the rest of the record (value, metric type,
      year, notes, ...) are carried along untouched. */
  datatype Kpi = Kpi(id: string, name: string, categoryDetail: Option<string>, payload: string)

  /** The extraction result; its `carbon_metrics` list may be missing. */
  datatype ExtractedCarbonData = ExtractedCarbonData(carbonMetrics: Option<seq<Kpi>>)

  /** The KPIs to classify: none when there is no data or no metric list. */
  function Metrics(data: Option<ExtractedCarbonData>): seq<Kpi> {
    if data.Some? && data.value.carbonMetrics.Some? then data.value.carbonMetrics.value else []
  }

  /** The text the patterns are tried on: the lower-cased name, one space,
      and the lower-cased category hint (empty when there is none). */
  function CombinedText(kpi: Kpi): string {
    var category := match kpi.categoryDetail case Some(c) => c case None => "";
    Lower(kpi.name) + " " + Lower(category)
  }

  /** `intensityRegex.test(text)`. */
  predicate MatchesIntensity(t: string) {
    Contains(t, "intensity")
  }

  /** `ghgRegex.test(text)` for the pattern `ghg|carbon`. */
  predicate MatchesGhg(t: string) {
    Contains(t, "ghg") || Contains(t, "carbon")
  }

  /** The decision the loop body takes for one KPI: the scope pattern first,
      then the intensity and greenhouse-gas patterns. */
  function Classify(kpi: Kpi): Category
  {
    var text := CombinedText(kpi);
    match Search(text)
    case Some(m) => ScopeBucket(ScopeKey(m.number))
    case None =>
      if MatchesIntensity(text) || MatchesGhg(text) then GhgBucket else OtherBucket
  }

  /** Every label the classifier makes is "Scope " and a numeral. */
  lemma ClassifyLabelIsScopeKey(kpi: Kpi)
    ensures Classify(kpi).ScopeBucket? ==> IsScopeKey(Classify(kpi).key)
  {
    var m := Search(CombinedText(kpi));
    if m.Some? {
      ScopeKeyOfNumeral(m.value.number);
    }
  }

  /** The three outputs of the classification. */
  datatype Groups = Groups(scopeEmissions: Record<seq<Kpi>>, ghgMetrics: seq<Kpi>, otherMetrics: seq<Kpi>)

  /** What the classification computes, stated without loops: each scope
      label maps to its bucket, the labels are sorted by value, and the two
      lists hold the KPIs of their category. */
  function Grouped(kpis: seq<Kpi>): Groups {
    var keys := ScopeKeys(kpis, Classify);
    Groups(
      Record(SortKeys(keys), map k | k in keys :: Bucket(kpis, Classify, ScopeBucket(k))),
      Bucket(kpis, Classify, GhgBucket),
      Bucket(kpis, Classify, OtherBucket))
  }

  function NoGroups(): Groups {
    Groups(EmptyRecord(), [], [])
  }

  /** No KPIs give no groups. */
  lemma GroupedEmpty()
    ensures Grouped([]) == NoGroups()
  {
    assert (map k | k in ScopeKeys([], Classify) :: Bucket([], Classify, ScopeBucket(k))) == map[];
  }

  /** The `useMemo` body of the results view: no groups without data,
      otherwise the partitioning pass followed by the copy of the buckets in
      label order. */
  method ClassifyKpis(data: Option<ExtractedCarbonData>) returns (g: Groups)
    ensures g == Grouped(Metrics(data))
    ensures Metrics(data) == [] ==> g == NoGroups()
  {
    GroupedEmpty();
    if data.None? || data.value.carbonMetrics.None? {
      return NoGroups();
    }
    var allKpis := data.value.carbonMetrics.value;
    var scopeEmissions, ghgMetrics, otherMetrics := Partition(allKpis);
    var sortedScopeKeys := SortKeys(scopeEmissions.keys);
    SortKeysSorted(scopeEmissions.keys);
    var sortedScopeEmissions := CopyInOrder(scopeEmissions, sortedScopeKeys);
    CopiedBuckets(allKpis, Classify, scopeEmissions, sortedScopeKeys);
    g := Groups(sortedScopeEmissions, ghgMetrics, otherMetrics);
  }

  /** The `forEach` pass: each KPI is appended to its bucket, and a scope
      bucket is created the first time its label turns up. */
  method Partition(allKpis: seq<Kpi>)
    returns (scopeEmissions: Record<seq<Kpi>>, ghgMetrics: seq<Kpi>, otherMetrics: seq<Kpi>)
    ensures scopeEmissions.Valid()
    ensures scopeEmissions.keys == ScopeKeys(allKpis, Classify)
    ensures forall k | k in scopeEmissions.entries ::
      scopeEmissions.entries[k] == Bucket(allKpis, Classify, ScopeBucket(k))
    ensures ghgMetrics == Bucket(allKpis, Classify, GhgBucket)
    ensures otherMetrics == Bucket(allKpis, Classify, OtherBucket)
  {
    scopeEmissions := EmptyRecord();
    ghgMetrics := [];
    otherMetrics := [];
    var i := 0;
    while i < |allKpis|
      invariant i <= |allKpis|
      invariant Partitioned(allKpis[..i], Classify, scopeEmissions, ghgMetrics, otherMetrics)
    {
      var scopeEmissions', ghgMetrics', otherMetrics' := PlaceKpi(scopeEmissions, ghgMetrics, otherMetrics, allKpis[i]);
      PlaceExtends(allKpis, i, Classify, scopeEmissions, ghgMetrics, otherMetrics, scopeEmissions', ghgMetrics', otherMetrics');
      scopeEmissions, ghgMetrics, otherMetrics := scopeEmissions', ghgMetrics', otherMetrics';
      i := i + 1;
    }
    assert allKpis[..i] == allKpis;
  }

  /** The body of the `forEach` callback for one KPI: the scope pattern is
      tried on the combined text first, and a scope bucket is created the
      first time its label turns up; otherwise the keyword patterns choose
      between the two lists. */
  method PlaceKpi(scopeEmissions: Record<seq<Kpi>>, ghgMetrics: seq<Kpi>, otherMetrics: seq<Kpi>, kpi: Kpi)
    returns (scopeEmissions': Record<seq<Kpi>>, ghgMetrics': seq<Kpi>, otherMetrics': seq<Kpi>)
    ensures (scopeEmissions', ghgMetrics', otherMetrics') == Place(scopeEmissions, ghgMetrics, otherMetrics, kpi, Classify(kpi))
  {
    scopeEmissions', ghgMetrics', otherMetrics' := scopeEmissions, ghgMetrics, otherMetrics;
    var combinedText := CombinedText(kpi);
    var scopeMatch := Search(combinedText);
    if scopeMatch.Some? {
      var scopeKey := ScopeKey(scopeMatch.value.number);
      assert Classify(kpi) == ScopeBucket(scopeKey);
      if scopeKey !in scopeEmissions'.entries {
        scopeEmissions' := scopeEmissions'.Set(scopeKey, []);
      }
      scopeEmissions' := scopeEmissions'.Set(scopeKey, scopeEmissions'.entries[scopeKey] + [kpi]);
    } else if MatchesIntensity(combinedText) || MatchesGhg(combinedText) {
      assert Classify(kpi) == GhgBucket;
      ghgMetrics' := ghgMetrics' + [kpi];
    } else {
      assert Classify(kpi) == OtherBucket;
      otherMetrics' := otherMetrics' + [kpi];
    }
  }

  /** The second `forEach` pass: a new record that receives the buckets in
      the order of the sorted labels. */
  method CopyInOrder(scopeEmissions: Record<seq<Kpi>>, sortedScopeKeys: seq<string>)
    returns (sortedScopeEmissions: Record<seq<Kpi>>)
    requires Distinct(sortedScopeKeys)
    requires forall k | k in sortedScopeKeys :: k in scopeEmissions.entries
    ensures sortedScopeEmissions.Valid()
    ensures sortedScopeEmissions.keys == sortedScopeKeys
    ensures sortedScopeEmissions.entries == map k | k in sortedScopeKeys :: scopeEmissions.entries[k]
  {
    sortedScopeEmissions := EmptyRecord();
    for j := 0 to |sortedScopeKeys|
      invariant sortedScopeEmissions.Valid()
      invariant sortedScopeEmissions.keys == sortedScopeKeys[..j]
      invariant sortedScopeEmissions.entries == map k | k in sortedScopeKeys[..j] :: scopeEmissions.entries[k]
    {
      var key := sortedScopeKeys[j];
      assert sortedScopeKeys[..j + 1] == sortedScopeKeys[..j] + [key];
      assert key !in sortedScopeKeys[..j];
      sortedScopeEmissions := sortedScopeEmissions.Set(key, scopeEmissions.entries[key]);
    }
    assert sortedScopeKeys[..|sortedScopeKeys|] == sortedScopeKeys;
  }

  /** `hasScopeData`: the scope record has a key. */
  predicate HasScopeData(g: Groups) {
    |g.scopeEmissions.keys| > 0
  }

  predicate HasGhgData(g: Groups) {
    |g.ghgMetrics| > 0
  }

  predicate HasOtherData(g: Groups) {
    |g.otherMetrics| > 0
  }

  /** `hasAnyData`: when it is false the view shows its "nothing found"
      message instead of the sections. */
  predicate HasAnyData(g: Groups) {
    HasScopeData(g) || HasGhgData(g) || HasOtherData(g)
  }

  /** The table of one group shows its empty-state message instead of rows. */
  predicate TableShowsEmptyState(kpis: seq<Kpi>) {
    |kpis| == 0
  }
}
