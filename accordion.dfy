/** The selection state of the collapsible sections: the list of the ids of
    the open sections, and the transition a click on a section header makes. */
module Accordion {
  import opened Text
  import opened Lists

  /** Whether one or several sections may be open at once; the default is
      Single. */
  datatype AccordionType = Single | Multiple

  /** The optional initial selection: absent, one id, or a list of ids. */
  datatype DefaultValue = NoDefault | OneId(id: string) | ManyIds(ids: seq<string>)

  /** The initial list of open sections. A list is taken as it is, one id
      becomes a one-element list unless it is the empty string (which is
      falsy), and no default gives no open section. */
  function InitialSelection(d: DefaultValue): (r: seq<string>)
    ensures forall w :: IsOpen(r, w) <==>
      || (d.ManyIds? && w in d.ids)
      || (d.OneId? && d.id != "" && w == d.id)
    ensures d.ManyIds? ==> r == d.ids
    ensures !d.ManyIds? ==> Distinct(r)
  {
    match d
    case ManyIds(ids) => ids
    case OneId(id) => if id != "" then [id] else []
    case NoDefault => []
  }

  /** A section is open when its id is in the list. */
  predicate IsOpen(selected: seq<string>, value: string) {
    value in selected
  }

  /** The ids of s other than v, in their order: `filter(item => item !== v)`. */
  function Without(s: seq<string>, v: string): (r: seq<string>)
    ensures v !in r
    ensures forall w | w != v :: multiset(r)[w] == multiset(s)[w]
    ensures |r| <= |s|
  {
    if s == [] then []
    else
      var n := |s| - 1;
      var front := Without(s[..n], v);
      assert s == s[..n] + [s[n]];
      if s[n] == v then front else front + [s[n]]
  }

  /** Removing an id that is not there changes nothing. */
  lemma {:induction false} WithoutAbsent(s: seq<string>, v: string)
    requires v !in s
    ensures Without(s, v) == s
  {
    if s != [] {
      var n := |s| - 1;
      WithoutAbsent(s[..n], v);
      assert s == s[..n] + [s[n]];
    }
  }

  /** Removing drops the id from each part of a list separately. */
  lemma {:induction false} WithoutAppend(a: seq<string>, b: seq<string>, v: string)
    ensures Without(a + b, v) == Without(a, v) + Without(b, v)
    decreases |b|
  {
    if b != [] {
      var n := |b| - 1;
      assert (a + b)[..|a + b| - 1] == a + b[..n];
      WithoutAppend(a, b[..n], v);
    } else {
      assert a + b == a;
    }
  }

  /** A click on the header of section v. In Multiple mode the id is taken
      out of the list when the section is open and appended when it is
      closed; in Single mode the list becomes empty or just v. */
  function Toggle(kind: AccordionType, selected: seq<string>, value: string): (r: seq<string>)
    ensures IsOpen(r, value) <==> !IsOpen(selected, value)
    ensures kind.Multiple? ==>
      forall w | w != value :: multiset(r)[w] == multiset(selected)[w]
    ensures kind.Multiple? && !IsOpen(selected, value) ==> multiset(r)[value] == 1
    ensures kind.Single? ==> forall w | w != value :: !IsOpen(r, w)
    ensures kind.Single? ==> |r| <= 1
  {
    match kind
    case Multiple =>
      if value in selected then Without(selected, value) else selected + [value]
    case Single =>
      if value in selected then [] else [value]
  }

  /** In Multiple mode exactly the clicked section changes: every other
      section is open afterwards exactly when it was open before. */
  lemma ToggleMultipleOthersUnchanged(selected: seq<string>, value: string, w: string)
    requires w != value
    ensures IsOpen(Toggle(Multiple, selected, value), w) <==> IsOpen(selected, w)
  {
    var r := Toggle(Multiple, selected, value);
    assert w in r <==> multiset(r)[w] > 0;
    assert w in selected <==> multiset(selected)[w] > 0;
  }

  /** In Multiple mode a closed section opened and closed again restores
      the list exactly, order included. */
  lemma ToggleMultipleTwice(selected: seq<string>, value: string)
    requires !IsOpen(selected, value)
    ensures Toggle(Multiple, Toggle(Multiple, selected, value), value) == selected
  {
    WithoutAppend(selected, [value], value);
    WithoutAbsent(selected, value);
    assert Without([value], value) == [];
  }

  /** An open section in Multiple mode closes by losing every copy of its
      id, so the list gets shorter. */
  lemma ToggleMultipleClose(selected: seq<string>, value: string)
    requires IsOpen(selected, value)
    ensures Toggle(Multiple, selected, value) == Without(selected, value)
    ensures |Toggle(Multiple, selected, value)| < |selected|
  {
    var r := Without(selected, value);
    assert multiset(selected)[value] > 0;
    assert |multiset(r)| < |multiset(selected)| by {
      assert multiset(r) == multiset(selected)[value := 0];
    }
  }

  /** Starting from a list without repeated ids, no click creates one. */
  lemma ToggleKeepsDistinct(kind: AccordionType, selected: seq<string>, value: string)
    requires Distinct(selected)
    ensures Distinct(Toggle(kind, selected, value))
  {
    var r := Toggle(kind, selected, value);
    DistinctByMultiplicity(selected);
    DistinctByMultiplicity(r);
    if kind.Multiple? && IsOpen(selected, value) {
      assert value !in r;
    }
  }

  /** In Single mode at most one section is open, and clicking an open
      section closes everything, clicking a closed one opens only it. */
  lemma ToggleSingleResult(selected: seq<string>, value: string)
    ensures IsOpen(selected, value) ==> Toggle(Single, selected, value) == []
    ensures !IsOpen(selected, value) ==> Toggle(Single, selected, value) == [value]
  {
    var r := Toggle(Single, selected, value);
    if !IsOpen(selected, value) {
      assert |r| == 1 && r[0] == value;
    } else {
      assert |r| <= 1 && value !in r;
    }
  }
}
