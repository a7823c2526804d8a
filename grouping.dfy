/** The bookkeeping of the classification loop, stated for any way f of
    assigning categories to elements: the bucket of each category in input
    order, the scope labels in order of first appearance, and the positions
    each bucket draws from. The classifier uses it with f its own decision;
    keeping f abstract here lets the structural proofs ignore how the
    decision is made. */
module Grouping {
  import opened Text
  import opened Lists
  import opened Records

  /** Where an element goes: the bucket of a scope label, or one of the two
      lists. */
  datatype Category = ScopeBucket(key: string) | GhgBucket | OtherBucket

  // ---------------------------------------------------------------------
  // Buckets

  /** The elements of xs that f puts in category c, in their order in xs. */
  function Bucket<T>(xs: seq<T>, f: T -> Category, c: Category): (r: seq<T>)
    ensures |r| <= |xs|
  {
    if xs == [] then []
    else
      var n := |xs| - 1;
      Bucket(xs[..n], f, c) + (if f(xs[n]) == c then [xs[n]] else [])
  }

  /** Appending an element appends it to its own bucket and to no other. */
  lemma BucketSnoc<T>(s: seq<T>, x: T, f: T -> Category, c: Category)
    ensures Bucket(s + [x], f, c) == Bucket(s, f, c) + (if f(x) == c then [x] else [])
  {
    assert (s + [x])[..|s|] == s;
  }

  /** A bucket holds exactly the elements of its category. */
  lemma {:induction false} BucketMembers<T>(xs: seq<T>, f: T -> Category, c: Category)
    ensures forall x :: x in Bucket(xs, f, c) <==> x in xs && f(x) == c
  {
    if xs != [] {
      var n := |xs| - 1;
      BucketMembers(xs[..n], f, c);
      assert xs == xs[..n] + [xs[n]];
    }
  }

  /** A bucket holds each element of its category as often as xs does, and
      no other element. */
  lemma {:induction false} BucketMultiplicity<T>(xs: seq<T>, f: T -> Category, c: Category, x: T)
    ensures multiset(Bucket(xs, f, c))[x] == if f(x) == c then multiset(xs)[x] else 0
  {
    if xs != [] {
      var n := |xs| - 1;
      BucketMultiplicity(xs[..n], f, c, x);
      assert xs == xs[..n] + [xs[n]];
      assert multiset(xs) == multiset(xs[..n]) + multiset{xs[n]};
    }
  }

  // ---------------------------------------------------------------------
  // Scope labels

  /** The scope labels in the order in which their buckets are first
      created. */
  function ScopeKeys<T>(xs: seq<T>, f: T -> Category): seq<string> {
    if xs == [] then []
    else
      var n := |xs| - 1;
      var keys := ScopeKeys(xs[..n], f);
      match f(xs[n])
      case ScopeBucket(k) => if k in keys then keys else keys + [k]
      case _ => keys
  }

  /** One more element: it joins the bucket of its category, and a scope
      label seen for the first time is appended to the labels. */
  lemma GroupingSnoc<T>(s: seq<T>, x: T, f: T -> Category)
    ensures forall c :: Bucket(s + [x], f, c) == Bucket(s, f, c) + (if f(x) == c then [x] else [])
    ensures ScopeKeys(s + [x], f) ==
      if f(x).ScopeBucket? && f(x).key !in ScopeKeys(s, f) then ScopeKeys(s, f) + [f(x).key]
      else ScopeKeys(s, f)
  {
    assert (s + [x])[..|s|] == s;
    forall c ensures Bucket(s + [x], f, c) == Bucket(s, f, c) + (if f(x) == c then [x] else []) {
      BucketSnoc(s, x, f, c);
    }
  }

  /** Each label is listed once, and a label is listed exactly when its
      bucket is not empty. */
  lemma {:induction false} ScopeKeysMembers<T>(xs: seq<T>, f: T -> Category)
    ensures Distinct(ScopeKeys(xs, f))
    ensures forall k :: k in ScopeKeys(xs, f) <==> Bucket(xs, f, ScopeBucket(k)) != []
  {
    if xs != [] {
      var n := |xs| - 1;
      ScopeKeysMembers(xs[..n], f);
      forall k ensures k in ScopeKeys(xs, f) <==> Bucket(xs, f, ScopeBucket(k)) != [] {
        BucketMembers(xs[..n], f, ScopeBucket(k));
      }
    }
  }

  /** The state of the partitioning pass after the prefix s: one bucket per
      scope label, the labels in order of first appearance, and the other
      two buckets as lists. */
  ghost predicate Partitioned<T>(s: seq<T>, f: T -> Category, r: Record<seq<T>>, ghg: seq<T>, other: seq<T>) {
    && r.Valid()
    && r.keys == ScopeKeys(s, f)
    && (forall k | k in r.entries :: r.entries[k] == Bucket(s, f, ScopeBucket(k)))
    && ghg == Bucket(s, f, GhgBucket)
    && other == Bucket(s, f, OtherBucket)
  }

  /** One step of the pass for an element x of category c: a scope bucket
      is created empty when its label is new, then x is appended to the
      bucket of c. */
  function Place<T>(r: Record<seq<T>>, ghg: seq<T>, other: seq<T>, x: T, c: Category): (Record<seq<T>>, seq<T>, seq<T>)
  {
    match c
    case ScopeBucket(k) =>
      var r1 := if k in r.entries then r else r.Set(k, []);
      (r1.Set(k, r1.entries[k] + [x]), ghg, other)
    case GhgBucket => (r, ghg + [x], other)
    case OtherBucket => (r, ghg, other + [x])
  }

  /** The step keeps the state equal to the grouping of the prefix read so
      far. */
  lemma PlaceExtends<T>(xs: seq<T>, i: nat, f: T -> Category,
                        r: Record<seq<T>>, ghg: seq<T>, other: seq<T>,
                        r': Record<seq<T>>, ghg': seq<T>, other': seq<T>)
    requires i < |xs| && Partitioned(xs[..i], f, r, ghg, other)
    requires (r', ghg', other') == Place(r, ghg, other, xs[i], f(xs[i]))
    ensures Partitioned(xs[..i + 1], f, r', ghg', other')
  {
    var s, x := xs[..i], xs[i];
    assert xs[..i + 1] == s + [x];
    GroupingSnoc(s, x, f);
    if f(x).ScopeBucket? && f(x).key !in r.entries {
      ScopeKeysMembers(s, f);
    }
  }

  /** Copying the bucket of every label into a new record, in any order of
      the labels, gives each label its bucket and no other key. */
  lemma CopiedBuckets<T>(xs: seq<T>, f: T -> Category, r: Record<seq<T>>, ks: seq<string>)
    requires forall k :: k in ks <==> k in ScopeKeys(xs, f)
    requires forall k | k in ScopeKeys(xs, f) :: k in r.entries && r.entries[k] == Bucket(xs, f, ScopeBucket(k))
    ensures (map k | k in ks :: r.entries[k]) == map k | k in ScopeKeys(xs, f) :: Bucket(xs, f, ScopeBucket(k))
  {
  }

  // ---------------------------------------------------------------------
  // The scope buckets together

  /** The elements in the scope buckets of the labels ks. */
  function ScopeSum<T>(xs: seq<T>, f: T -> Category, ks: seq<string>): multiset<T> {
    if ks == [] then multiset{}
    else ScopeSum(xs, f, ks[..|ks| - 1]) + multiset(Bucket(xs, f, ScopeBucket(ks[|ks| - 1])))
  }

  /** Taking one label out of the list takes its bucket out of the sum. */
  lemma {:induction false} ScopeSumRemove<T>(xs: seq<T>, f: T -> Category, ks: seq<string>, j: nat)
    requires j < |ks|
    ensures ScopeSum(xs, f, ks) == ScopeSum(xs, f, ks[..j] + ks[j + 1..]) + multiset(Bucket(xs, f, ScopeBucket(ks[j])))
  {
    var n := |ks| - 1;
    if j == n {
      assert ks[..j] + ks[j + 1..] == ks[..n];
    } else {
      var front := ks[..n];
      ScopeSumRemove(xs, f, front, j);
      var rest := ks[..j] + ks[j + 1..];
      assert |rest| == n && front[j] == ks[j];
      assert rest[..n - 1] == front[..j] + front[j + 1..];
      assert rest[n - 1] == ks[n];
      assert ScopeSum(xs, f, rest) == ScopeSum(xs, f, rest[..n - 1]) + multiset(Bucket(xs, f, ScopeBucket(ks[n])));
      assert ScopeSum(xs, f, ks) == ScopeSum(xs, f, front) + multiset(Bucket(xs, f, ScopeBucket(ks[n])));
    }
  }

  /** The sum does not depend on the order of the labels. */
  lemma {:induction false} ScopeSumPermutation<T>(xs: seq<T>, f: T -> Category, a: seq<string>, b: seq<string>)
    requires multiset(a) == multiset(b)
    ensures ScopeSum(xs, f, a) == ScopeSum(xs, f, b)
    decreases |a|
  {
    if a == [] {
      assert |b| == |multiset(b)| == 0;
    } else {
      var n := |a| - 1;
      var x := a[n];
      assert a == a[..n] + [x];
      assert x in multiset(b);
      var j :| 0 <= j < |b| && b[j] == x;
      var b' := b[..j] + b[j + 1..];
      assert b == b[..j] + [b[j]] + b[j + 1..];
      assert multiset(b) == multiset(b[..j]) + multiset{x} + multiset(b[j + 1..]);
      assert multiset(b') == multiset(b[..j]) + multiset(b[j + 1..]);
      assert multiset(a) == multiset(a[..n]) + multiset{x};
      assert multiset(a[..n]) == multiset(a) - multiset{x};
      assert multiset(b') == multiset(b) - multiset{x};
      ScopeSumPermutation(xs, f, a[..n], b');
      ScopeSumRemove(xs, f, b, j);
    }
  }

  /** Over distinct labels, an element is counted in the bucket of its own
      label when that label is listed, and nowhere else. */
  lemma {:induction false} ScopeSumMultiplicity<T>(xs: seq<T>, f: T -> Category, ks: seq<string>, x: T)
    requires Distinct(ks)
    ensures ScopeSum(xs, f, ks)[x]
      == if f(x).ScopeBucket? && f(x).key in ks then multiset(xs)[x] else 0
  {
    if ks != [] {
      var n := |ks| - 1;
      assert Distinct(ks[..n]);
      ScopeSumMultiplicity(xs, f, ks[..n], x);
      BucketMultiplicity(xs, f, ScopeBucket(ks[n]), x);
      assert ks == ks[..n] + [ks[n]];
    }
  }

  /** One element is counted, over the two lists and the buckets of all
      scope labels, as often as it occurs in xs. */
  lemma BucketsPartitionAt<T>(xs: seq<T>, f: T -> Category, x: T)
    ensures multiset(Bucket(xs, f, GhgBucket))[x] + multiset(Bucket(xs, f, OtherBucket))[x]
          + ScopeSum(xs, f, ScopeKeys(xs, f))[x] == multiset(xs)[x]
  {
    var keys := ScopeKeys(xs, f);
    ScopeKeysMembers(xs, f);
    BucketMultiplicity(xs, f, GhgBucket, x);
    BucketMultiplicity(xs, f, OtherBucket, x);
    ScopeSumMultiplicity(xs, f, keys, x);
    if x in xs && f(x).ScopeBucket? {
      BucketMembers(xs, f, f(x));
      assert f(x).key in keys;
    }
  }

  /** The two lists and the buckets of all scope labels together hold xs
      exactly, each element as often as it occurs. */
  lemma BucketsPartition<T>(xs: seq<T>, f: T -> Category)
    ensures multiset(Bucket(xs, f, GhgBucket)) + multiset(Bucket(xs, f, OtherBucket))
          + ScopeSum(xs, f, ScopeKeys(xs, f)) == multiset(xs)
  {
    var all := multiset(Bucket(xs, f, GhgBucket)) + multiset(Bucket(xs, f, OtherBucket))
             + ScopeSum(xs, f, ScopeKeys(xs, f));
    forall x: T ensures all[x] == multiset(xs)[x] {
      BucketsPartitionAt(xs, f, x);
    }
    MultisetExt(all, multiset(xs));
  }

  /** Multisets with the same count for every element are equal. */
  lemma MultisetExt<T>(a: multiset<T>, b: multiset<T>)
    requires forall x :: a[x] == b[x]
    ensures a == b
  {
  }

  // ---------------------------------------------------------------------
  // Records of buckets

  /** All elements of a record's buckets, taken in the order of ks. */
  function RecordContents<T>(r: Record<seq<T>>, ks: seq<string>): multiset<T> {
    if ks == [] then multiset{}
    else RecordContents(r, ks[..|ks| - 1]) + (if ks[|ks| - 1] in r.entries then multiset(r.entries[ks[|ks| - 1]]) else multiset{})
  }

  /** The number of elements in a record's buckets. */
  function RecordCount<T>(r: Record<seq<T>>, ks: seq<string>): nat {
    if ks == [] then 0
    else RecordCount(r, ks[..|ks| - 1]) + (if ks[|ks| - 1] in r.entries then |r.entries[ks[|ks| - 1]]| else 0)
  }

  lemma {:induction false} RecordCountIsSize<T>(r: Record<seq<T>>, ks: seq<string>)
    ensures |RecordContents(r, ks)| == RecordCount(r, ks)
  {
    if ks != [] {
      RecordCountIsSize(r, ks[..|ks| - 1]);
    }
  }

  /** A record whose buckets are those of f holds what the scope buckets
      hold. */
  lemma {:induction false} RecordContentsIsScopeSum<T>(r: Record<seq<T>>, xs: seq<T>, f: T -> Category, ks: seq<string>)
    requires forall k | k in ks :: k in r.entries && r.entries[k] == Bucket(xs, f, ScopeBucket(k))
    ensures RecordContents(r, ks) == ScopeSum(xs, f, ks)
  {
    if ks != [] {
      var n := |ks| - 1;
      assert forall k | k in ks[..n] :: k in ks;
      RecordContentsIsScopeSum(r, xs, f, ks[..n]);
    }
  }

  // ---------------------------------------------------------------------
  // Input order

  /** The positions in xs of the elements of category c, in increasing
      order. */
  function Positions<T>(xs: seq<T>, f: T -> Category, c: Category): seq<nat> {
    if xs == [] then []
    else
      var n := |xs| - 1;
      Positions(xs[..n], f, c) + (if f(xs[n]) == c then [n] else [])
  }

  /** out lists the elements of xs at positions idx, and idx increases. */
  ghost predicate InInputOrder<T>(xs: seq<T>, out: seq<T>, idx: seq<nat>) {
    && |out| == |idx|
    && (forall j | 0 <= j < |idx| :: idx[j] < |xs| && out[j] == xs[idx[j]])
    && (forall j, j' | 0 <= j < j' < |idx| :: idx[j] < idx[j'])
  }

  /** Every position lies inside xs. */
  lemma {:induction false} PositionsBelow<T>(xs: seq<T>, f: T -> Category, c: Category)
    ensures forall j | 0 <= j < |Positions(xs, f, c)| :: Positions(xs, f, c)[j] < |xs|
  {
    if xs != [] {
      PositionsBelow(xs[..|xs| - 1], f, c);
    }
  }

  /** The positions are those of the elements of category c, and all of
      them. */
  lemma {:induction false} PositionsMembers<T>(xs: seq<T>, f: T -> Category, c: Category)
    ensures forall i | 0 <= i < |xs| :: i in Positions(xs, f, c) <==> f(xs[i]) == c
  {
    if xs != [] {
      var n := |xs| - 1;
      var pre := xs[..n];
      var p := Positions(pre, f, c);
      var last := if f(xs[n]) == c then [n] else [];
      assert Positions(xs, f, c) == p + last;
      PositionsMembers(pre, f, c);
      PositionsBelow(pre, f, c);
      assert n !in p;
      forall i | 0 <= i < |xs| ensures i in p + last <==> f(xs[i]) == c {
        if i < n {
          assert pre[i] == xs[i];
        }
      }
    }
  }

  /** A bucket is xs restricted to the positions of its category, taken in
      increasing order. */
  lemma {:induction false} BucketKeepsInputOrder<T>(xs: seq<T>, f: T -> Category, c: Category)
    ensures InInputOrder(xs, Bucket(xs, f, c), Positions(xs, f, c))
  {
    if xs != [] {
      var n := |xs| - 1;
      var pre := xs[..n];
      BucketKeepsInputOrder(pre, f, c);
      var b := Bucket(pre, f, c);
      var p := Positions(pre, f, c);
      assert forall j | 0 <= j < |p| :: p[j] < n && b[j] == xs[p[j]] by {
        forall j | 0 <= j < |p| ensures p[j] < n && b[j] == xs[p[j]] {
          assert pre[p[j]] == xs[p[j]];
        }
      }
    }
  }
}
