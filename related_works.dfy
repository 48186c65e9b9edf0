/**
 * Selection of the "related works" shown under a work's detail page
 * (works/detail.js:86-97).
 *
 * The page first keeps up to three records of the target's category other than the
 * target, then, when fewer than three were found, appends records from the whole
 * catalog that are neither the target nor already chosen. The source tests "already
 * chosen" with `related.includes(w)`, which compares objects by identity; the model
 * therefore selects catalog POSITIONS, so two records with equal fields are still two
 * distinct candidates, exactly as two distinct objects are in the page.
 */
module RelatedWorks {
  import opened Catalog

  /** How many related works the page shows at most. */
  const RelatedLimit: nat := 3

  /** Position `i` passes the first filter: same category as the target, other id. */
  predicate SameCategoryAs(catalog: seq<Work>, target: Work, i: nat)
    requires i < |catalog|
  {
    catalog[i].category == target.category && catalog[i].id != target.id
  }

  /** Position `i` passes the backfill filter: not the target, not already taken. */
  predicate BackfillCandidate(catalog: seq<Work>, target: Work, taken: seq<nat>, i: nat)
    requires i < |catalog|
  {
    catalog[i].id != target.id && i !in taken
  }

  /** Strictly increasing positions: catalog order, each record at most once. */
  ghost predicate InCatalogOrder(s: seq<nat>) {
    forall k1, k2 :: 0 <= k1 < k2 < |s| ==> s[k1] < s[k2]
  }

  /** Appending a position above every earlier one keeps catalog order. */
  lemma AppendInCatalogOrder(s: seq<nat>, x: nat)
    requires InCatalogOrder(s) && forall k :: 0 <= k < |s| ==> s[k] < x
    ensures InCatalogOrder(s + [x])
  {
  }

  /**
   * The positions among the first `n` records that pass the same-category filter
   * (the `filter` of works/detail.js:87-88).
   */
  function SameCategoryPool(catalog: seq<Work>, target: Work, n: nat): (r: seq<nat>)
    requires n <= |catalog|
  {
    if n == 0 then []
    else
      SameCategoryPool(catalog, target, n - 1)
      + (if SameCategoryAs(catalog, target, n - 1) then [n - 1] else [])
  }

  /**
   * The same-category filter keeps exactly the positions that pass it, in catalog
   * order.
   */
  lemma {:induction false} SameCategoryPoolSpec(catalog: seq<Work>, target: Work, n: nat)
    requires n <= |catalog|
    ensures var r := SameCategoryPool(catalog, target, n);
      && (forall k :: 0 <= k < |r| ==> r[k] < n && SameCategoryAs(catalog, target, r[k]))
      && (forall i :: 0 <= i < n && SameCategoryAs(catalog, target, i) ==> i in r)
      && InCatalogOrder(r)
  {
    if n > 0 {
      var prev := SameCategoryPool(catalog, target, n - 1);
      SameCategoryPoolSpec(catalog, target, n - 1);
      if SameCategoryAs(catalog, target, n - 1) {
        assert SameCategoryPool(catalog, target, n) == prev + [n - 1];
        AppendInCatalogOrder(prev, n - 1);
      } else {
        assert SameCategoryPool(catalog, target, n) == prev;
      }
    }
  }

  /**
   * The positions among the first `n` records that are neither the target nor in
   * `taken` (the `filter` of works/detail.js:93-94).
   */
  function BackfillPool(catalog: seq<Work>, target: Work, taken: seq<nat>, n: nat): (r: seq<nat>)
    requires n <= |catalog|
  {
    if n == 0 then []
    else
      BackfillPool(catalog, target, taken, n - 1)
      + (if BackfillCandidate(catalog, target, taken, n - 1) then [n - 1] else [])
  }

  /** The backfill filter keeps exactly the positions that pass it, in catalog order. */
  lemma {:induction false} BackfillPoolSpec(catalog: seq<Work>, target: Work, taken: seq<nat>, n: nat)
    requires n <= |catalog|
    ensures var r := BackfillPool(catalog, target, taken, n);
      && (forall k :: 0 <= k < |r| ==> r[k] < n && BackfillCandidate(catalog, target, taken, r[k]))
      && (forall i :: 0 <= i < n && BackfillCandidate(catalog, target, taken, i) ==> i in r)
      && InCatalogOrder(r)
  {
    if n > 0 {
      var prev := BackfillPool(catalog, target, taken, n - 1);
      BackfillPoolSpec(catalog, target, taken, n - 1);
      if BackfillCandidate(catalog, target, taken, n - 1) {
        assert BackfillPool(catalog, target, taken, n) == prev + [n - 1];
        AppendInCatalogOrder(prev, n - 1);
      } else {
        assert BackfillPool(catalog, target, taken, n) == prev;
      }
    }
  }

  /** `s.slice(0, k)`. */
  function Take(s: seq<nat>, k: nat): (r: seq<nat>)
    ensures |r| == Min(k, |s|)
    ensures r == s[..|r|]
  {
    if |s| <= k then s else s[..k]
  }

  /** The same-category part of the related list (works/detail.js:87-89). */
  function SameCategoryPicks(catalog: seq<Work>, target: Work): (r: seq<nat>) {
    Take(SameCategoryPool(catalog, target, |catalog|), RelatedLimit)
  }

  /**
   * The related list as positions: the same-category picks, then, only when there are
   * fewer than three, as many backfill positions as are still missing
   * (works/detail.js:92-97).
   */
  function RelatedPicks(catalog: seq<Work>, target: Work): (r: seq<nat>) {
    var related := SameCategoryPicks(catalog, target);
    if |related| < RelatedLimit then
      related + Take(BackfillPool(catalog, target, related, |catalog|), RelatedLimit - |related|)
    else
      related
  }

  /** A prefix of an ordered run is an ordered run. */
  lemma TakeInCatalogOrder(s: seq<nat>, k: nat)
    requires InCatalogOrder(s)
    ensures InCatalogOrder(Take(s, k))
  {
  }

  /** The same-category picks are same-category positions, in catalog order. */
  lemma SameCategoryPicksSpec(catalog: seq<Work>, target: Work)
    ensures var picks := SameCategoryPicks(catalog, target);
      && InCatalogOrder(picks)
      && forall k :: 0 <= k < |picks| ==> picks[k] < |catalog| && SameCategoryAs(catalog, target, picks[k])
  {
    var pool := SameCategoryPool(catalog, target, |catalog|);
    SameCategoryPoolSpec(catalog, target, |catalog|);
    TakeInCatalogOrder(pool, RelatedLimit);
    assert forall k :: 0 <= k < |SameCategoryPicks(catalog, target)| ==> SameCategoryPicks(catalog, target)[k] == pool[k];
  }

  /** Number of records among the first `n` whose id differs from the target's. */
  function OthersCount(catalog: seq<Work>, target: Work, n: nat): (r: nat)
    requires n <= |catalog|
  {
    if n == 0 then 0
    else OthersCount(catalog, target, n - 1) + (if catalog[n - 1].id != target.id then 1 else 0)
  }

  /**
   * When the same-category pool is taken whole, it and the backfill pool split the
   * non-target records between them.
   */
  lemma {:induction false} PoolsSplitOthers(catalog: seq<Work>, target: Work, n: nat)
    requires n <= |catalog|
    ensures var pool := SameCategoryPool(catalog, target, |catalog|);
      |SameCategoryPool(catalog, target, n)| + |BackfillPool(catalog, target, pool, n)|
      == OthersCount(catalog, target, n)
  {
    if n > 0 {
      var pool := SameCategoryPool(catalog, target, |catalog|);
      PoolsSplitOthers(catalog, target, n - 1);
      SameCategoryPoolSpec(catalog, target, |catalog|);
      if SameCategoryAs(catalog, target, n - 1) {
        assert n - 1 in pool;
      } else {
        assert forall k :: 0 <= k < |pool| ==> pool[k] != n - 1;
      }
    }
  }

  /** The related list has `min(3, number of non-target records)` entries. */
  lemma RelatedLength(catalog: seq<Work>, target: Work)
    ensures |RelatedPicks(catalog, target)| == Min(RelatedLimit, OthersCount(catalog, target, |catalog|))
  {
    var pool := SameCategoryPool(catalog, target, |catalog|);
    PoolsSplitOthers(catalog, target, |catalog|);
    if |pool| < RelatedLimit {
      assert SameCategoryPicks(catalog, target) == pool;
    } else {
      assert OthersCount(catalog, target, |catalog|) >= RelatedLimit;
    }
  }

  /** Every related position is a catalog position whose id is not the target's. */
  lemma RelatedExcludesTarget(catalog: seq<Work>, target: Work)
    ensures forall k :: 0 <= k < |RelatedPicks(catalog, target)| ==>
      RelatedPicks(catalog, target)[k] < |catalog|
      && catalog[RelatedPicks(catalog, target)[k]].id != target.id
  {
    var related := SameCategoryPicks(catalog, target);
    var pool := SameCategoryPool(catalog, target, |catalog|);
    SameCategoryPoolSpec(catalog, target, |catalog|);
    assert forall k :: 0 <= k < |related| ==> related[k] == pool[k];
    if |related| < RelatedLimit {
      var backfill := BackfillPool(catalog, target, related, |catalog|);
      BackfillPoolSpec(catalog, target, related, |catalog|);
      var extra := Take(backfill, RelatedLimit - |related|);
      assert forall k :: 0 <= k < |extra| ==> extra[k] == backfill[k];
    }
  }

  /** No position occurs twice. */
  ghost predicate Distinct(s: seq<nat>) {
    forall k1, k2 :: 0 <= k1 < k2 < |s| ==> s[k1] != s[k2]
  }

  /** Two ordered runs with nothing in common concatenate to a repetition-free list. */
  lemma OrderedRunsDistinct(a: seq<nat>, b: seq<nat>)
    requires InCatalogOrder(a) && InCatalogOrder(b)
    requires forall k :: 0 <= k < |b| ==> b[k] !in a
    ensures Distinct(a + b)
  {
  }

  /**
   * The first `m` backfill positions are in catalog order, and each is a catalog
   * position whose id is not the target's and that is not in `taken`.
   */
  lemma BackfillPrefixSpec(catalog: seq<Work>, target: Work, taken: seq<nat>, m: nat)
    ensures var extra := Take(BackfillPool(catalog, target, taken, |catalog|), m);
      && InCatalogOrder(extra)
      && forall k :: 0 <= k < |extra| ==>
           extra[k] < |catalog| && catalog[extra[k]].id != target.id && extra[k] !in taken
  {
    var backfill := BackfillPool(catalog, target, taken, |catalog|);
    BackfillPoolSpec(catalog, target, taken, |catalog|);
    TakeInCatalogOrder(backfill, m);
    assert forall k :: 0 <= k < |Take(backfill, m)| ==> Take(backfill, m)[k] == backfill[k];
  }

  /** No record is chosen twice. */
  lemma RelatedDistinct(catalog: seq<Work>, target: Work)
    ensures Distinct(RelatedPicks(catalog, target))
  {
    var related := SameCategoryPicks(catalog, target);
    SameCategoryPicksSpec(catalog, target);
    if |related| < RelatedLimit {
      var extra := Take(BackfillPool(catalog, target, related, |catalog|), RelatedLimit - |related|);
      BackfillPrefixSpec(catalog, target, related, RelatedLimit - |related|);
      assert RelatedPicks(catalog, target) == related + extra;
      OrderedRunsDistinct(related, extra);
    } else {
      OrderedRunsDistinct(related, []);
      assert related + [] == related;
    }
  }

  /** Same-category records come first, the earliest ones, in catalog order. */
  lemma RelatedSameCategoryFirst(catalog: seq<Work>, target: Work)
    ensures var r := RelatedPicks(catalog, target);
      var m := |SameCategoryPicks(catalog, target)|;
      && m <= |r|
      && r[..m] == SameCategoryPicks(catalog, target)
      && InCatalogOrder(r[..m])
      && forall k :: 0 <= k < m ==> r[k] < |catalog| && SameCategoryAs(catalog, target, r[k])
  {
    var related := SameCategoryPicks(catalog, target);
    var pool := SameCategoryPool(catalog, target, |catalog|);
    SameCategoryPoolSpec(catalog, target, |catalog|);
    TakeInCatalogOrder(pool, RelatedLimit);
    assert forall k :: 0 <= k < |related| ==> related[k] == pool[k];
    assert RelatedPicks(catalog, target)[..|related|] == related;
  }

  /**
   * Every entry after the same-category ones is a backfilled record of another
   * category whose id is not the target's, and these entries are in catalog order.
   */
  lemma RelatedBackfillAfter(catalog: seq<Work>, target: Work)
    ensures var r := RelatedPicks(catalog, target);
      var m := |SameCategoryPicks(catalog, target)|;
      && m <= |r|
      && InCatalogOrder(r[m..])
      && forall k :: m <= k < |r| ==>
           r[k] < |catalog| && catalog[r[k]].id != target.id && catalog[r[k]].category != target.category
  {
    var related := SameCategoryPicks(catalog, target);
    if |related| < RelatedLimit {
      var pool := SameCategoryPool(catalog, target, |catalog|);
      SameCategoryPoolSpec(catalog, target, |catalog|);
      assert related == pool;
      var backfill := BackfillPool(catalog, target, related, |catalog|);
      BackfillPoolSpec(catalog, target, related, |catalog|);
      var extra := Take(backfill, RelatedLimit - |related|);
      TakeInCatalogOrder(backfill, RelatedLimit - |related|);
      var r := related + extra;
      assert r[|related|..] == extra;
      forall k | |related| <= k < |r|
        ensures r[k] < |catalog| && catalog[r[k]].id != target.id && catalog[r[k]].category != target.category
      {
        assert r[k] == extra[k - |related|] == backfill[k - |related|];
        assert r[k] !in pool;
      }
    } else {
      assert RelatedPicks(catalog, target)[|related|..] == [];
    }
  }

  /** With three or more same-category records, nothing is backfilled. */
  lemma NoBackfillWhenCategoryFull(catalog: seq<Work>, target: Work)
    requires |SameCategoryPool(catalog, target, |catalog|)| >= RelatedLimit
    ensures RelatedPicks(catalog, target) == SameCategoryPool(catalog, target, |catalog|)[..RelatedLimit]
    ensures forall k :: 0 <= k < |RelatedPicks(catalog, target)| ==>
      RelatedPicks(catalog, target)[k] < |catalog|
      && SameCategoryAs(catalog, target, RelatedPicks(catalog, target)[k])
  {
    SameCategoryPoolSpec(catalog, target, |catalog|);
  }

  /**
   * Each chosen same-category record is one of the EARLIEST ones: a same-category
   * record is left out only when three earlier ones were chosen.
   */
  lemma SameCategoryPicksAreEarliest(catalog: seq<Work>, target: Work, i: nat)
    requires i < |catalog| && SameCategoryAs(catalog, target, i)
    requires i !in SameCategoryPicks(catalog, target)
    ensures |SameCategoryPicks(catalog, target)| == RelatedLimit
    ensures forall k :: 0 <= k < RelatedLimit ==> SameCategoryPicks(catalog, target)[k] < i
  {
    var pool := SameCategoryPool(catalog, target, |catalog|);
    SameCategoryPoolSpec(catalog, target, |catalog|);
    var picks := SameCategoryPicks(catalog, target);
    var j :| 0 <= j < |pool| && pool[j] == i;
    assert forall k :: 0 <= k < |picks| ==> picks[k] == pool[k];
    assert j >= |picks|;
    assert picks == pool[..RelatedLimit];
    forall k | 0 <= k < RelatedLimit ensures picks[k] < i {
      assert picks[k] == pool[k];
    }
  }

  /**
   * The backfilled records are the EARLIEST candidates too: a record that the backfill
   * filter admits is left out only when the list is full and every backfilled record
   * comes before it.
   */
  lemma BackfillPicksAreEarliest(catalog: seq<Work>, target: Work, i: nat)
    requires |SameCategoryPicks(catalog, target)| < RelatedLimit
    requires i < |catalog| && BackfillCandidate(catalog, target, SameCategoryPicks(catalog, target), i)
    requires i !in RelatedPicks(catalog, target)
    ensures |RelatedPicks(catalog, target)| == RelatedLimit
    ensures forall k :: |SameCategoryPicks(catalog, target)| <= k < RelatedLimit ==> RelatedPicks(catalog, target)[k] < i
  {
    var related := SameCategoryPicks(catalog, target);
    var backfill := BackfillPool(catalog, target, related, |catalog|);
    BackfillPoolSpec(catalog, target, related, |catalog|);
    var extra := Take(backfill, RelatedLimit - |related|);
    assert RelatedPicks(catalog, target) == related + extra;
    PrefixBeforeMissing(backfill, extra, i);
  }

  /** A prefix of an ordered run that misses one of the run's members stops before it. */
  lemma PrefixBeforeMissing(run: seq<nat>, prefix: seq<nat>, x: nat)
    requires InCatalogOrder(run) && |prefix| <= |run| && prefix == run[..|prefix|]
    requires x in run && x !in prefix
    ensures |prefix| < |run|
    ensures forall k :: 0 <= k < |prefix| ==> prefix[k] < x
  {
    var j :| 0 <= j < |run| && run[j] == x;
    assert forall k :: 0 <= k < |prefix| ==> prefix[k] == run[k] && prefix[k] != x;
    assert j >= |prefix|;
  }

  /** With unique ids, the records other than the one at position `i` among the first `n`. */
  lemma {:induction false} OthersCountUnique(catalog: seq<Work>, i: nat, n: nat)
    requires UniqueIds(catalog) && i < |catalog| && n <= |catalog|
    ensures OthersCount(catalog, catalog[i], n) == if i < n then n - 1 else n
  {
    if n > 0 {
      OthersCountUnique(catalog, i, n - 1);
      assert n - 1 != i ==> catalog[n - 1].id != catalog[i].id;
    }
  }

  /**
   * With unique ids, a record's related list has `min(3, number of records - 1)`
   * entries, and no two of them share an id.
   */
  lemma RelatedOfUniqueCatalog(catalog: seq<Work>, i: nat)
    requires UniqueIds(catalog) && i < |catalog|
    ensures OthersCount(catalog, catalog[i], |catalog|) == |catalog| - 1
    ensures |RelatedPicks(catalog, catalog[i])| == Min(RelatedLimit, |catalog| - 1)
    ensures var r := RelatedPicks(catalog, catalog[i]);
      forall k1, k2 :: 0 <= k1 < k2 < |r| ==> r[k1] < |catalog| && r[k2] < |catalog| && catalog[r[k1]].id != catalog[r[k2]].id
  {
    var r := RelatedPicks(catalog, catalog[i]);
    OthersCountUnique(catalog, i, |catalog|);
    RelatedLength(catalog, catalog[i]);
    RelatedExcludesTarget(catalog, catalog[i]);
    RelatedDistinct(catalog, catalog[i]);
    forall k1, k2 | 0 <= k1 < k2 < |r|
      ensures catalog[r[k1]].id != catalog[r[k2]].id
    {
      assert r[k1] != r[k2];
      if r[k1] < r[k2] {
        assert catalog[r[k1]].id != catalog[r[k2]].id;
      } else {
        assert catalog[r[k2]].id != catalog[r[k1]].id;
      }
    }
  }

  /** The two pools of the worked example below. */
  lemma ExamplePools(a: Work, b: Work, c: Work, d: Work)
    requires a.id == "a" && b.id == "b" && c.id == "c" && d.id == "d"
    requires a.category == "web" && b.category == "art" && c.category == "web" && d.category == "art"
    ensures SameCategoryPool([a, b, c, d], a, 4) == [2]
    ensures BackfillPool([a, b, c, d], a, [2], 4) == [1, 3]
  {
    var cat := [a, b, c, d];
    assert !SameCategoryAs(cat, a, 0) && !SameCategoryAs(cat, a, 1);
    assert SameCategoryAs(cat, a, 2) && !SameCategoryAs(cat, a, 3);
    assert SameCategoryPool(cat, a, 1) == [];
    assert SameCategoryPool(cat, a, 2) == [];
    assert SameCategoryPool(cat, a, 3) == [2];
    assert !BackfillCandidate(cat, a, [2], 0) && BackfillCandidate(cat, a, [2], 1);
    assert !BackfillCandidate(cat, a, [2], 2) && BackfillCandidate(cat, a, [2], 3);
    assert BackfillPool(cat, a, [2], 1) == [];
    assert BackfillPool(cat, a, [2], 2) == [1];
    assert BackfillPool(cat, a, [2], 3) == [1];
  }

  /**
   * The worked example: records a (web), b (art), c (web), d (art); the related
   * list of "a" is c, then b and d backfilled in catalog order.
   */
  lemma ExampleRelatedOfA(a: Work, b: Work, c: Work, d: Work)
    requires a.id == "a" && b.id == "b" && c.id == "c" && d.id == "d"
    requires a.category == "web" && b.category == "art" && c.category == "web" && d.category == "art"
    ensures RelatedPicks([a, b, c, d], a) == [2, 1, 3]
  {
    ExamplePools(a, b, c, d);
    assert SameCategoryPicks([a, b, c, d], a) == [2];
  }
}
