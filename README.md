# KPI classification of the carbon-metrics results view

The results view of the decarbonisation-metrics extractor receives the KPI
records extracted from a report. It sorts them into three groups:

- scope buckets, labelled `"Scope " + n`, where `n` is the number the scope
  pattern captures from the KPI's lower-cased name and category hint;
- greenhouse-gas and carbon-intensity metrics;
- all other metrics.

The scope labels are then re-ordered by the numeric value of `n`. The view
shows a section for each non-empty group and a "nothing found" message when
every group is empty. The sections sit in collapsible accordions. A click on
a section header toggles the list of open section ids, either in "multiple"
mode or in "single" mode.

Some of the classifier's behaviour is surprising, and each case is proved
below:

- a third digit is dropped ("scope 123" gives "Scope 12");
- "Scope 1", "Scope 01" and "Scope 1.0" become separate buckets of equal
  value;
- a match may span the space the classifier puts between name and category.

This project models that classification and the accordion's selection
toggle in Dafny and proves what they promise:

- every KPI lands in exactly one place, and the groups together hold the
  input exactly (as a multiset), so the count is kept;
- each group keeps the input order;
- the scope test takes precedence over the keyword tests;
- the greenhouse-gas group holds exactly the non-scope KPIs whose text
  contains "intensity", "ghg" or "carbon";
- the labels come out in non-decreasing order of value, with a stable sort,
  and re-keying changes neither the label set nor any bucket;
- no scope bucket is ever empty, so "has scope data" holds exactly when some
  KPI matched the scope pattern, and "has any data" holds exactly when there
  was at least one KPI;
- in multiple mode the toggle flips only the clicked id, and toggling a
  closed id twice restores the list; in single mode it gives `[]` or
  `[value]`.

Files (each holds one module):

| file | module | contents |
|---|---|---|
| wrappers.dfy | Wrappers | `Option` |
| text.dfy | Text | `\d`, `\s`, ASCII lower-casing, substring search |
| lists.dfy | Lists | lists of names without repeats (record keys, scope labels, open section ids) |
| scope_pattern.dfy | ScopePattern | the scope regular expression, both as a search function and as a declarative predicate, and proofs that they agree |
| scope_order.dfy | ScopeOrder | scope labels, their exact numeric value, the comparator and the (stable) key sort |
| records.dfy | Records | a JavaScript object used as a dictionary: the map plus the insertion order of its keys |
| grouping.dfy | Grouping | the three categories, the buckets and labels a category function gives a list, the state of the partitioning pass and its step, and the partition and order lemmas, stated for any category function |
| classifier.dfy | Classifier | the KPI record, the per-KPI decision, the specification `Grouped`, and the imperative `ClassifyKpis` with its two loops |
| classifier_properties.dfy | ClassifierProperties | partition, order, precedence, sortedness and emptiness lemmas |
| classifier_examples.dfy | ClassifierExamples | worked classifications of concrete KPIs |
| accordion.dfy | Accordion | the accordion's initial selection and its toggle |

The classifier is imperative in the source: one `forEach` loop fills the
buckets and a second copies them in sorted key order. The model's
`Classifier.ClassifyKpis` keeps both loops (`Partition` and `CopyInOrder`),
and the body of the first loop's callback is the method `PlaceKpi`. Each
loop is proved against the loop-free function `Classifier.Grouped`, and the
properties are proved about `Grouped`. The lemmas about buckets are stated in
`Grouping` for any function from KPIs to categories and are applied to the
classifier's decision `Classifier.Classify`. The toggle is a pure function in
the source and is modelled as one.

## Model

| member | source | states |
|---|---|---|
| Text.LowerChar | components/KpiDisplay.tsx:171-172 | lower-casing a character yields no upper-case ASCII letter; an upper-case letter moves by 32 code points, every other character is unchanged |
| Text.LowerChars | components/KpiDisplay.tsx:171-172 | `toLowerCase` works character by character and keeps the length |
| Text.LowerIsIdempotent | components/KpiDisplay.tsx:166-173 | the lower-cased text has no upper-case letter and lower-casing it again changes nothing, so the `/i` flag adds nothing on that text |
| Text.ContainsFrom | components/KpiDisplay.tsx:167-168 | the scan from position i succeeds exactly when the word occurs at some position at or after i |
| Text.Contains | components/KpiDisplay.tsx:167-168 | `test` of a plain-word pattern is true exactly when the word occurs somewhere in the text |
| Lists.DistinctByMultiplicity | components/KpiDisplay.tsx:179-182 | a list of labels or ids has no repeats exactly when each occurs at most once in its multiset |
| ScopePattern.SkipSpaces | components/KpiDisplay.tsx:166 | `\s*` consumes only white space and stops at the first character that is not white space |
| ScopePattern.SkipSpacesStopsAt | components/KpiDisplay.tsx:166 | if [i, j) is white space and position j is not, `\s*` ends exactly at j |
| ScopePattern.NumeralByChars | components/KpiDisplay.tsx:166 | a capture of `\d{1,2}(?:\.\d{1,2})?` is exactly one of d, dd, d.d, d.dd, dd.d, dd.dd |
| ScopePattern.NumeralEndIsLongest | components/KpiDisplay.tsx:166 | the greedy group ends at a numeral, and no longer prefix of the rest of the text is a numeral |
| ScopePattern.MatchAt | components/KpiDisplay.tsx:166 | whatever a match at a given position captures is a numeral |
| ScopePattern.MatchAtSound | components/KpiDisplay.tsx:166 | every capture the matcher returns satisfies the declarative pattern: "scope", white space, then a longest numeral |
| ScopePattern.MatchAtComplete | components/KpiDisplay.tsx:166 | every capture allowed by the declarative pattern at a position is the one the matcher returns there |
| ScopePattern.SearchFrom | components/KpiDisplay.tsx:175 | a match the search from i reports starts at or after i, and the pattern does match there with the reported capture |
| ScopePattern.SearchFromIsLeftmost | components/KpiDisplay.tsx:175 | positions are tried from left to right: nothing matches between i and the reported match, and nothing from i on when none is reported |
| ScopePattern.Search | components/KpiDisplay.tsx:175 | `match` reports a position where the pattern matches, with its captured numeral |
| ScopePattern.SearchIsLeftmost | components/KpiDisplay.tsx:175 | the reported match is the leftmost one, and `null` means the pattern matches at no position |
| ScopePattern.SearchNoneIffNoMatch | components/KpiDisplay.tsx:175-177 | the search finds nothing exactly when no position, white-space run and capture satisfy the declarative pattern |
| ScopeOrder.ScopeKey | components/KpiDisplay.tsx:178 | the label is "Scope " followed by the captured number, and nothing else |
| ScopeOrder.ScopeKeyInjective | components/KpiDisplay.tsx:178 | distinct captures give distinct labels |
| ScopeOrder.ScopeKeyOfNumeral | components/KpiDisplay.tsx:178 | a label made from a numeral is a scope key |
| ScopeOrder.NumeralValue | components/KpiDisplay.tsx:192-193 | `parseFloat` of a capture, exactly in hundredths, is below 100.00 |
| ScopeOrder.KeyValue | components/KpiDisplay.tsx:192-193 | the sort value of a scope label is the value of the number after "Scope " |
| ScopeOrder.CompareKeys | components/KpiDisplay.tsx:191-195 | the comparator is negative, zero or positive exactly as the first label's value is below, equal to or above the second's |
| ScopeOrder.Insert | components/KpiDisplay.tsx:191-195 | an insertion step adds the key once and keeps every other key |
| ScopeOrder.InsertSorted | components/KpiDisplay.tsx:191-195 | inserting into a value-sorted list keeps it sorted |
| ScopeOrder.SortedCons | components/KpiDisplay.tsx:191-195 | a label whose value is no greater than any value of a sorted list can be put in front of it |
| ScopeOrder.SortKeys | components/KpiDisplay.tsx:191-195 | the sort is a permutation of the labels |
| ScopeOrder.SortKeysSorted | components/KpiDisplay.tsx:191-195 | the sorted labels are in non-decreasing order of value, are a permutation with the same members, and stay distinct |
| ScopeOrder.InsertStable | components/KpiDisplay.tsx:191-195 | among keys of one value, the inserted key comes before those already there |
| ScopeOrder.SortKeysStable | components/KpiDisplay.tsx:191-195 | the sort is stable: the labels of each value keep their input order |
| ScopeOrder.WholeKeyValue | components/KpiDisplay.tsx:192-193 | a label with a whole number has 100 times that number as its value |
| ScopeOrder.FractionKeyValue | components/KpiDisplay.tsx:192-193 | a label whose number has a fraction (d.d, d.dd, dd.d or dd.dd) has the value of that decimal, in hundredths; with `WholeKeyValue` every shape of capture is covered |
| ScopeOrder.OrderExamples | components/KpiDisplay.tsx:192-194 | "Scope 2" has a smaller value than "Scope 10", and "Scope 3" a smaller one than "Scope 3.1", which is below "Scope 10": values are compared, not text |
| ScopeOrder.SortExample | components/KpiDisplay.tsx:190-195 | the sort puts "Scope 2" before "Scope 10" |
| ScopeOrder.TwoDigitWholeExample | components/KpiDisplay.tsx:192-193 | "Scope 12.5" is worth 12.50 |
| ScopeOrder.TwoDigitFractionExample | components/KpiDisplay.tsx:192-193 | "Scope 12.05" is worth 12.05 |
| ScopeOrder.TrailingZeroExample | components/KpiDisplay.tsx:192-193 | "Scope 1.10" and "Scope 1.1" are different labels worth the same 1.10 |
| ScopeOrder.EqualValueExamples | components/KpiDisplay.tsx:192-193 | "Scope 1", "Scope 01" and "Scope 1.0" are different labels of equal value |
| Records.Record.Set | components/KpiDisplay.tsx:179-182 | assigning a property sets that key, keeps every other key and value, and puts a new key at the end of the key order |
| Records.EmptyRecord | components/KpiDisplay.tsx:162 | `{}` has no keys |
| Classifier.ClassifyLabelIsScopeKey | components/KpiDisplay.tsx:175-178 | every label the classifier makes is "Scope " followed by a numeral |
| Grouping.BucketSnoc | components/KpiDisplay.tsx:170-188 | one more KPI is appended to the group of its own category and to no other |
| Grouping.BucketMembers | components/KpiDisplay.tsx:170-188 | a group holds exactly the input KPIs of its category |
| Grouping.BucketMultiplicity | components/KpiDisplay.tsx:170-188 | a group holds each KPI of its category as often as the input does, and no other KPI |
| Grouping.GroupingSnoc | components/KpiDisplay.tsx:170-188 | one more KPI joins the end of the group of its category, and its label is appended to the labels when it is new |
| Grouping.ScopeKeysMembers | components/KpiDisplay.tsx:179-182 | each label is created once, and a label exists exactly when its bucket is non-empty |
| Grouping.PlaceExtends | components/KpiDisplay.tsx:170-188 | one step of the first loop turns the grouping of the KPIs read so far into the grouping of those KPIs and the next one |
| Grouping.CopiedBuckets | components/KpiDisplay.tsx:197-200 | copying every label's bucket into a new record, in any order of the labels, gives each label its own bucket and adds no other key |
| Grouping.ScopeSumRemove | components/KpiDisplay.tsx:191-200 | taking one label out of the list takes exactly its bucket out of the collected KPIs |
| Grouping.ScopeSumPermutation | components/KpiDisplay.tsx:191-200 | re-ordering the labels does not change the collected KPIs |
| Grouping.ScopeSumMultiplicity | components/KpiDisplay.tsx:177-182 | over distinct labels, a KPI is counted once per input occurrence when its own label is listed, and not at all otherwise |
| Grouping.BucketsPartitionAt | components/KpiDisplay.tsx:170-188 | each KPI occurs in the two lists and the scope buckets together exactly as often as in the input |
| Grouping.BucketsPartition | components/KpiDisplay.tsx:170-188 | the first loop's buckets and lists together are exactly the input, as a multiset |
| Grouping.RecordCountIsSize | components/KpiDisplay.tsx:170-188 | the number of KPIs in the buckets is the size of their multiset |
| Grouping.RecordContentsIsScopeSum | components/KpiDisplay.tsx:197-200 | a record whose buckets are the classifier's buckets holds those buckets' KPIs |
| Grouping.PositionsBelow | components/KpiDisplay.tsx:170 | the recorded positions lie inside the input |
| Grouping.PositionsMembers | components/KpiDisplay.tsx:170-188 | the positions of a category are exactly those of the input KPIs of that category |
| Grouping.BucketKeepsInputOrder | components/KpiDisplay.tsx:170-188 | a group lists the input KPIs at the positions of its category, in increasing order of position |
| Classifier.GroupedEmpty | components/KpiDisplay.tsx:159 | no KPIs give an empty scope record and two empty lists |
| Classifier.ClassifyKpis | components/KpiDisplay.tsx:158-203 | the `useMemo` body computes `Grouped` of the KPI list, and gives empty groups when the data or its metric list is missing |
| Classifier.Partition | components/KpiDisplay.tsx:170-188 | the first loop puts, for every label in order of first appearance, that label's KPIs in its bucket in input order, and fills both lists with their categories' KPIs |
| Classifier.PlaceKpi | components/KpiDisplay.tsx:171-187 | the callback tries the scope pattern first, creates a bucket for a new label, and otherwise chooses a list by the keywords: it takes the step `Place` for the KPI's category |
| Classifier.CopyInOrder | components/KpiDisplay.tsx:197-200 | the second loop builds a record whose keys are the sorted labels, in that order, and whose buckets are the original ones |
| ClassifierProperties.EachKpiInExactlyOnePlace | components/KpiDisplay.tsx:170-188 | every input KPI is in the group its category names and in no other group or bucket |
| ClassifierProperties.ScopeMatchTakesPrecedence | components/KpiDisplay.tsx:175-182 | a KPI that matches the scope pattern is in the bucket of its capture and in neither list, whatever keywords it contains |
| ClassifierProperties.NoScopeMatchGoesByKeyword | components/KpiDisplay.tsx:183-187 | without a scope match, a KPI is a greenhouse-gas metric exactly when its text contains "intensity", "ghg" or "carbon", and otherwise another metric |
| ClassifierProperties.GroupsPartitionInput | components/KpiDisplay.tsx:170-202 | the returned groups hold exactly the input KPIs, each as often as it occurs, so the output count equals the input length |
| ClassifierProperties.GroupsKeepInputOrder | components/KpiDisplay.tsx:170-202 | every scope bucket of the result and both lists keep the input order |
| ClassifierProperties.ScopeLabelsSorted | components/KpiDisplay.tsx:190-200 | the result's labels are distinct scope keys in non-decreasing order of value, are a permutation of the created labels, keep the order of labels of equal value, and each maps to its unchanged bucket |
| ClassifierProperties.ScopeBucketsNonEmpty | components/KpiDisplay.tsx:179-182 | every scope bucket in the result is non-empty, so its table never shows the empty-state message |
| ClassifierProperties.HasScopeDataIffSomeMatch | components/KpiDisplay.tsx:209 | `hasScopeData` holds exactly when some KPI's text matches the scope pattern |
| ClassifierProperties.HasAnyDataIffSomeKpi | components/KpiDisplay.tsx:212 | `hasAnyData` is false exactly when there are no KPIs |
| ClassifierExamples.ThirdDigitIsDropped | components/KpiDisplay.tsx:166 | "scope 123" captures "12" |
| ClassifierExamples.TrailingDotIsDropped | components/KpiDisplay.tsx:166 | "scope 3." captures "3" |
| ClassifierExamples.FractionIsTaken | components/KpiDisplay.tsx:166 | "scope3.25" captures "3.25" |
| ClassifierExamples.MatchSpansNameAndCategory | components/KpiDisplay.tsx:171-178 | name "Scope" with category "2" goes to the "Scope 2" bucket, because the match spans the joining space |
| ClassifierExamples.OneDigitAtStart | components/KpiDisplay.tsx:166 | a text starting with "scope ", a digit and then neither a digit nor a dot matches at position 0 and captures that digit |
| ClassifierExamples.ScopeOneGhgText | components/KpiDisplay.tsx:171-173 | name "Scope 1" with category "GHG" gives the text "scope 1 ghg" |
| ClassifierExamples.ScopeBeatsKeyword | components/KpiDisplay.tsx:175-183 | name "Scope 1" with category "GHG" goes to the "Scope 1" bucket and not to the greenhouse-gas list |
| ClassifierExamples.CarbonIsGhg | components/KpiDisplay.tsx:183-184 | a KPI named "Carbon" is a greenhouse-gas metric |
| ClassifierExamples.PlainNameIsOther | components/KpiDisplay.tsx:185-186 | a KPI named "Water" is another metric |
| Accordion.InitialSelection | components/KpiDisplay.tsx:46 | a list default opens exactly its ids; a single non-empty id opens just that id; the empty string or no default opens nothing |
| Accordion.Without | components/KpiDisplay.tsx:50 | `filter(item => item !== value)` removes every copy of the value and keeps every other id as often as before |
| Accordion.WithoutAbsent | components/KpiDisplay.tsx:50 | filtering out an absent id changes nothing |
| Accordion.WithoutAppend | components/KpiDisplay.tsx:50 | the filter acts on each part of a concatenated list separately |
| Accordion.Toggle | components/KpiDisplay.tsx:47-54 | the clicked section is open afterwards exactly when it was closed; in multiple mode every other id keeps its multiplicity and an opened id occurs once; in single mode no other section is open and at most one id remains |
| Accordion.ToggleMultipleOthersUnchanged | components/KpiDisplay.tsx:49-50 | in multiple mode every other section is open afterwards exactly when it was open before |
| Accordion.ToggleMultipleTwice | components/KpiDisplay.tsx:49-50 | in multiple mode, opening a closed section and closing it again restores the list exactly |
| Accordion.ToggleMultipleClose | components/KpiDisplay.tsx:50 | in multiple mode, closing an open section filters its id out and shortens the list |
| Accordion.ToggleKeepsDistinct | components/KpiDisplay.tsx:47-54 | a selection without repeated ids keeps that property through any click, in either mode |
| Accordion.ToggleSingleResult | components/KpiDisplay.tsx:52 | in single mode the result is `[]` when the section was open and `[value]` when it was closed |

## Left out

- JSX rendering, Tailwind classes, icons, the card, table and accordion view wrappers, and the per-row details toggle: these are presentation. The open/closed test of a section is the predicate `Accordion.IsOpen`.
- React hooks, state and context (`useState`, `useMemo`, `AccordionContext`): `toggle` is modelled as a function from the old selection to the new one. The view's later re-renders and memoisation are not modelled.
- The CSV download (`exportCarbonMetricsToCsv`): it lives in `utils/csvExporter`, which is not part of this model, and it triggers a browser download.
- The KPI type from `../types` is not part of this model. A KPI here has an id, a name, an optional category hint and an opaque payload, which is all the classifier reads or carries.
- Text.LowerChar: `toLowerCase` is modelled for ASCII letters only. Non-ASCII characters are left unchanged, so a character whose lower case is ASCII (the Kelvin sign, for example) is not turned into an ASCII letter as the source would turn it. Lower-casing also keeps the length here (`Text.LowerChars`), which is true of the ASCII model only: the source turns U+0130 (capital I with dot above) into two code points, "i" followed by U+0307. No match changes because of that, since every pattern needs an ASCII letter or digit after each "i" ("intensity" needs "n" or "t").
- Strings are modelled as sequences of Unicode code points, not of UTF-16 code units. Every character the patterns look for lies in the Basic Multilingual Plane, so a match is not affected.
- ScopeOrder.NumeralValue: `parseFloat` is modelled as the exact decimal value in hundredths, not as a double. Every capture is a decimal below 100 with at most two fractional digits. Distinct such values give distinct doubles in the same order, and their difference has the same sign, so the comparator's outcome is the same.
- ScopeOrder.KeyValue: a string that is not a scope label is given the value 0 rather than `NaN`. The sort only ever sees labels the classifier created (`ClassifierProperties.ScopeLabelsSorted` proves that they are all scope keys).
- `Array.prototype.sort` is modelled as a stable insertion sort. ECMAScript has required sort stability since 2019. The model proves sortedness, permutation and stability; the engine's actual algorithm and number of comparisons are not modelled.
- The white-space class `\s` is modelled as the full ECMAScript set of WhiteSpace and LineTerminator characters, not as ASCII white space only.
- Accordion: the `type` prop defaults to single mode, and the model's `AccordionType` has the two values without an absent case. The `defaultValue` is read only when the accordion is first rendered; later changes of the prop are not modelled.
