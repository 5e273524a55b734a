/** `process_connected_realms`: turn the realms of the status reply into the
    groups of slugs that share an auction house. Each realm's
    `connectedRealms` list is a candidate group; the lists are stable-sorted
    by their first slug and consecutive equal lists are dropped. Lists are
    compared position by position, so two members of one group that list
    the same slugs in different orders give two groups. */
module ConnectedRealms {
  import opened ApiTypes
  import opened StringOrder
  import opened SeqFacts

  type Group = seq<string>

  predicate AllNonEmpty(gs: seq<Group>)
  {
    forall i :: 0 <= i < |gs| ==> |gs[i]| > 0
  }

  /** Group `a` may come before group `b`: both have a first slug, and
      `a`'s is not greater. */
  predicate FirstSlugLe(a: Group, b: Group)
  {
    |a| > 0 && |b| > 0 && LexLe(a[0], b[0])
  }

  /** Non-decreasing by first slug. */
  predicate SortedByFirstSlug(gs: seq<Group>)
  {
    forall i, j :: 0 <= i < j < |gs| ==> FirstSlugLe(gs[i], gs[j])
  }

  /** `[g]` when `g` has first slug `slug`, nothing otherwise. */
  function Picked(g: Group, slug: string): seq<Group>
  {
    if |g| > 0 && g[0] == slug then [g] else []
  }

  /** The groups of `gs` whose first slug is `slug`, in their order in `gs`. */
  function WithFirstSlug(gs: seq<Group>, slug: string): seq<Group>
  {
    if |gs| == 0 then [] else WithFirstSlug(gs[..|gs| - 1], slug) + Picked(gs[|gs| - 1], slug)
  }

  lemma WithFirstSlugAppend(gs: seq<Group>, g: Group, slug: string)
    ensures WithFirstSlug(gs + [g], slug) == WithFirstSlug(gs, slug) + Picked(g, slug)
  {
    AppendParts(gs, g);
  }

  /** Inserts `g` behind every group whose first slug is not greater than its
      own: one step of a stable insertion sort. Comparing needs first slugs,
      so once there is something to compare with, every group must have one. */
  function InsertByFirstSlug(sorted: seq<Group>, g: Group): (r: seq<Group>)
    requires |sorted| == 0 || (|g| > 0 && AllNonEmpty(sorted))
    ensures |r| == |sorted| + 1
    ensures |g| > 0 && AllNonEmpty(sorted) ==> AllNonEmpty(r)
    decreases |sorted|
  {
    if |sorted| == 0 then [g]
    else
      var last := sorted[|sorted| - 1];
      if LexLe(last[0], g[0]) then sorted + [g]
      else InsertByFirstSlug(sorted[..|sorted| - 1], g) + [last]
  }

  /** The insertion adds `g` and keeps every other group. */
  lemma {:induction false} InsertByFirstSlugPermutes(sorted: seq<Group>, g: Group)
    requires |sorted| == 0 || (|g| > 0 && AllNonEmpty(sorted))
    ensures multiset(InsertByFirstSlug(sorted, g)) == multiset(sorted) + multiset{g}
    decreases |sorted|
  {
    if |sorted| > 0 && !LexLe(sorted[|sorted| - 1][0], g[0]) {
      InsertByFirstSlugPermutes(sorted[..|sorted| - 1], g);
      FrontLast(sorted);
    }
  }

  /** Inserting into groups sorted by first slug keeps them sorted. */
  lemma {:induction false} InsertByFirstSlugSorted(sorted: seq<Group>, g: Group)
    requires |g| > 0 && AllNonEmpty(sorted) && SortedByFirstSlug(sorted)
    ensures SortedByFirstSlug(InsertByFirstSlug(sorted, g))
    decreases |sorted|
  {
    if |sorted| > 0 {
      if LexLe(sorted[|sorted| - 1][0], g[0]) {
        SortedAppend(sorted, g);
      } else {
        var front := sorted[..|sorted| - 1];
        SortedFront(sorted);
        InsertByFirstSlugSorted(front, g);
        InsertByFirstSlugPermutes(front, g);
        InsertBeforeGreaterSorted(sorted, g, InsertByFirstSlug(front, g));
      }
    }
  }

  /** The insertion is stable: among the groups with any one first slug, `g`
      comes after those that were already there. */
  lemma {:induction false} InsertByFirstSlugSelects(sorted: seq<Group>, g: Group, slug: string)
    requires |sorted| == 0 || (|g| > 0 && AllNonEmpty(sorted))
    ensures WithFirstSlug(InsertByFirstSlug(sorted, g), slug) == WithFirstSlug(sorted, slug) + Picked(g, slug)
    decreases |sorted|
  {
    if |sorted| == 0 {
      WithFirstSlugAppend([], g, slug);
      AppendNothing([g]);
    } else {
      var last := sorted[|sorted| - 1];
      if LexLe(last[0], g[0]) {
        WithFirstSlugAppend(sorted, g, slug);
      } else {
        var front := sorted[..|sorted| - 1];
        var inserted := InsertByFirstSlug(front, g);
        InsertByFirstSlugSelects(front, g, slug);
        WithFirstSlugAppend(inserted, last, slug);
        FrontLast(sorted);
        WithFirstSlugAppend(front, last, slug);
        if last[0] == g[0] {
          LexLeReflexive(g[0]);
        }
        // At most one of `g` and `last` has first slug `slug`.
        AppendNothing(WithFirstSlug(front, slug));
        AppendNothing(WithFirstSlug(front, slug) + Picked(g, slug));
        AppendNothing(WithFirstSlug(front, slug) + Picked(last, slug));
      }
    }
  }

  /** Appending a group whose first slug is not less than the last one's keeps the order. */
  lemma SortedAppend(sorted: seq<Group>, g: Group)
    requires |sorted| > 0 && |g| > 0 && AllNonEmpty(sorted) && SortedByFirstSlug(sorted)
    requires LexLe(sorted[|sorted| - 1][0], g[0])
    ensures SortedByFirstSlug(sorted + [g])
  {
    var r := sorted + [g];
    forall i, j | 0 <= i < j < |r|
      ensures FirstSlugLe(r[i], r[j])
    {
      if j == |sorted| && i < |sorted| - 1 {
        assert FirstSlugLe(sorted[i], sorted[|sorted| - 1]);
        LexLeTransitive(r[i][0], sorted[|sorted| - 1][0], g[0]);
      }
    }
  }

  /** The recursive case of the insertion keeps the order: `inserted` holds
      the groups before the last one and `g`, all with first slugs not
      greater than the last one's. */
  lemma InsertBeforeGreaterSorted(sorted: seq<Group>, g: Group, inserted: seq<Group>)
    requires |sorted| > 0 && |g| > 0 && AllNonEmpty(sorted)
    requires SortedByFirstSlug(sorted)
    requires !LexLe(sorted[|sorted| - 1][0], g[0])
    requires multiset(inserted) == multiset(sorted[..|sorted| - 1]) + multiset{g}
    requires SortedByFirstSlug(inserted)
    ensures SortedByFirstSlug(inserted + [sorted[|sorted| - 1]])
  {
    var front := sorted[..|sorted| - 1];
    var last := sorted[|sorted| - 1];
    var r := inserted + [last];
    LexLeTotal(last[0], g[0]);
    forall i | 0 <= i < |inserted|
      ensures |inserted[i]| > 0 && LexLe(inserted[i][0], last[0])
    {
      assert inserted[i] in multiset(inserted);
      if inserted[i] != g {
        assert inserted[i] in multiset(front);
        var k :| 0 <= k < |front| && front[k] == inserted[i];
        assert sorted[k] == inserted[i];
      }
    }
    forall i, j | 0 <= i < j < |r|
      ensures FirstSlugLe(r[i], r[j])
    {
      if j < |inserted| {
        assert r[i] == inserted[i] && r[j] == inserted[j];
      } else {
        assert r[i] == inserted[i] && r[j] == last;
      }
    }
  }

  /** Rust's stable `sort_by` on the first slug, as an insertion sort. With
      fewer than two groups nothing is compared, so an empty group is
      allowed only then. */
  function SortByFirstSlug(gs: seq<Group>): (r: seq<Group>)
    requires |gs| < 2 || AllNonEmpty(gs)
    ensures |r| == |gs|
    ensures AllNonEmpty(gs) ==> AllNonEmpty(r)
  {
    if |gs| == 0 then [] else InsertByFirstSlug(SortByFirstSlug(gs[..|gs| - 1]), gs[|gs| - 1])
  }

  /** The sort rearranges the groups and nothing else. */
  lemma {:induction false} SortByFirstSlugPermutes(gs: seq<Group>)
    requires |gs| < 2 || AllNonEmpty(gs)
    ensures multiset(SortByFirstSlug(gs)) == multiset(gs)
  {
    if |gs| > 0 {
      var front := gs[..|gs| - 1];
      SortByFirstSlugPermutes(front);
      InsertByFirstSlugPermutes(SortByFirstSlug(front), gs[|gs| - 1]);
      FrontLast(gs);
    }
  }

  /** The sort's result is non-decreasing by first slug. */
  lemma {:induction false} SortByFirstSlugSorted(gs: seq<Group>)
    requires |gs| < 2 || AllNonEmpty(gs)
    ensures SortedByFirstSlug(SortByFirstSlug(gs))
  {
    if |gs| > 1 {
      var front := gs[..|gs| - 1];
      SortByFirstSlugSorted(front);
      InsertByFirstSlugSorted(SortByFirstSlug(front), gs[|gs| - 1]);
    }
  }

  /** The sort is stable: the groups with any one first slug keep their order. */
  lemma {:induction false} SortByFirstSlugSelects(gs: seq<Group>, slug: string)
    requires |gs| < 2 || AllNonEmpty(gs)
    ensures WithFirstSlug(SortByFirstSlug(gs), slug) == WithFirstSlug(gs, slug)
  {
    if |gs| > 0 {
      var front := gs[..|gs| - 1];
      var g := gs[|gs| - 1];
      SortByFirstSlugSelects(front, slug);
      InsertByFirstSlugSelects(SortByFirstSlug(front), g, slug);
      FrontLast(gs);
      WithFirstSlugAppend(front, g, slug);
    }
  }

  /** No group equals the one right after it. */
  predicate NoAdjacentRepeats(gs: seq<Group>)
  {
    forall i :: 0 <= i < |gs| - 1 ==> gs[i] != gs[i + 1]
  }

  /** Rust's `Vec::dedup`: of every run of equal consecutive groups, the first is kept. */
  function Dedup(gs: seq<Group>): (r: seq<Group>)
    ensures |r| <= |gs|
    ensures |gs| > 0 ==> |r| > 0 && r[|r| - 1] == gs[|gs| - 1]
  {
    if |gs| <= 1 then gs
    else
      var front := gs[..|gs| - 1];
      var last := gs[|gs| - 1];
      var d := Dedup(front);
      if front[|front| - 1] == last then d else d + [last]
  }

  /** Dropping repeats keeps exactly the groups there were. */
  lemma {:induction false} DedupMembers(gs: seq<Group>)
    ensures forall g :: g in Dedup(gs) <==> g in gs
  {
    if |gs| > 1 {
      var front := gs[..|gs| - 1];
      FrontLast(gs);
      DedupMembers(front);
    }
  }

  /** The positions where a run of equal groups begins, in increasing order. */
  function RunStarts(gs: seq<Group>): seq<nat>
  {
    if |gs| == 0 then []
    else
      var n := |gs| - 1;
      RunStarts(gs[..n]) + (if n == 0 || gs[n - 1] != gs[n] then [n] else [])
  }

  /** Run starts are positions of `gs`, listed in increasing order. */
  lemma {:induction false} RunStartsIncreasing(gs: seq<Group>)
    ensures forall j :: 0 <= j < |RunStarts(gs)| ==> RunStarts(gs)[j] < |gs|
    ensures forall j, k :: 0 <= j < k < |RunStarts(gs)| ==> RunStarts(gs)[j] < RunStarts(gs)[k]
  {
    if |gs| > 0 {
      RunStartsIncreasing(gs[..|gs| - 1]);
    }
  }

  /** Position `i` is a run start exactly when it is the first position or
      holds a group unlike the one before it. */
  lemma {:induction false} RunStartsMembers(gs: seq<Group>)
    ensures forall i :: 0 <= i < |gs| ==> (i in RunStarts(gs) <==> i == 0 || gs[i - 1] != gs[i])
  {
    if |gs| > 0 {
      var n := |gs| - 1;
      var front := gs[..n];
      var idx := RunStarts(front);
      var tail: seq<nat> := if n == 0 || gs[n - 1] != gs[n] then [n] else [];
      assert RunStarts(gs) == idx + tail;
      RunStartsMembers(front);
      RunStartsIncreasing(front);
      forall i | 0 <= i < |gs|
        ensures i in RunStarts(gs) <==> i == 0 || gs[i - 1] != gs[i]
      {
        assert i in RunStarts(gs) <==> i in idx || i in tail;
        if i < n {
          assert i !in tail;
          assert i in idx <==> i == 0 || front[i - 1] != front[i];
          assert front[i] == gs[i];
          if i > 0 {
            assert front[i - 1] == gs[i - 1];
          }
        } else {
          assert i !in idx;
          assert i in tail <==> n == 0 || gs[n - 1] != gs[n];
        }
      }
    }
  }

  /** Dedup keeps the groups at the run starts, in order. */
  lemma {:induction false} DedupPicksRunStarts(gs: seq<Group>)
    ensures |Dedup(gs)| == |RunStarts(gs)|
    ensures forall j :: 0 <= j < |RunStarts(gs)| ==>
      RunStarts(gs)[j] < |gs| && Dedup(gs)[j] == gs[RunStarts(gs)[j]]
  {
    RunStartsIncreasing(gs);
    if |gs| > 1 {
      var n := |gs| - 1;
      var front := gs[..n];
      DedupPicksRunStarts(front);
      forall j | 0 <= j < |RunStarts(front)|
        ensures front[RunStarts(front)[j]] == gs[RunStarts(front)[j]]
      {
      }
    }
  }

  /** Dedup keeps exactly the groups at run starts (position 0, or a group
      unlike the one before it), in their original order: within a run it is
      always the first copy that survives. */
  lemma DedupKeepsFirstOfEachRun(gs: seq<Group>)
    ensures |Dedup(gs)| == |RunStarts(gs)|
    ensures forall j :: 0 <= j < |RunStarts(gs)| ==>
      RunStarts(gs)[j] < |gs| && Dedup(gs)[j] == gs[RunStarts(gs)[j]]
    ensures forall j, k :: 0 <= j < k < |RunStarts(gs)| ==> RunStarts(gs)[j] < RunStarts(gs)[k]
    ensures forall i :: 0 <= i < |gs| ==> (i in RunStarts(gs) <==> i == 0 || gs[i - 1] != gs[i])
  {
    DedupPicksRunStarts(gs);
    RunStartsIncreasing(gs);
    RunStartsMembers(gs);
  }

  /** After dropping repeats no group equals its successor. */
  lemma {:induction false} DedupNoAdjacentRepeats(gs: seq<Group>)
    ensures NoAdjacentRepeats(Dedup(gs))
  {
    if |gs| > 1 {
      DedupNoAdjacentRepeats(gs[..|gs| - 1]);
    }
  }

  /** Groups without repeats next to each other are left as they are. */
  lemma {:induction false} DedupWithoutRepeats(gs: seq<Group>)
    requires NoAdjacentRepeats(gs)
    ensures Dedup(gs) == gs
  {
    if |gs| > 1 {
      FrontLast(gs);
      DedupWithoutRepeats(gs[..|gs| - 1]);
    }
  }

  /** Dropping repeats keeps the order by first slug. */
  lemma {:induction false} DedupKeepsOrder(gs: seq<Group>)
    requires SortedByFirstSlug(gs)
    ensures SortedByFirstSlug(Dedup(gs))
  {
    if |gs| > 1 {
      var front := gs[..|gs| - 1];
      var last := gs[|gs| - 1];
      var d := Dedup(front);
      SortedFront(gs);
      DedupKeepsOrder(front);
      DedupMembers(front);
      if front[|front| - 1] != last {
        var r := d + [last];
        forall i, j | 0 <= i < j < |r|
          ensures FirstSlugLe(r[i], r[j])
        {
          if j == |d| {
            assert r[i] in front;
            var k :| 0 <= k < |front| && front[k] == r[i];
            assert gs[k] == r[i];
          } else {
            assert r[i] == d[i] && r[j] == d[j];
          }
        }
      }
    }
  }

  lemma DedupAppendRepeat(t: seq<Group>, x: Group)
    requires |t| > 0 && t[|t| - 1] == x
    ensures Dedup(t + [x]) == Dedup(t)
  {
    AppendParts(t, x);
  }

  lemma DedupAppendNew(t: seq<Group>, x: Group)
    requires |t| == 0 || t[|t| - 1] != x
    ensures Dedup(t + [x]) == Dedup(t) + [x]
  {
    AppendParts(t, x);
    AppendNothing([x]);
  }

  /** On groups sorted by first slug, the groups with one first slug are
      consecutive, so dropping repeats and selecting by first slug commute. */
  lemma {:induction false} DedupSelectsBySlug(gs: seq<Group>, slug: string)
    requires SortedByFirstSlug(gs)
    ensures WithFirstSlug(Dedup(gs), slug) == Dedup(WithFirstSlug(gs, slug))
  {
    if |gs| > 1 {
      var front := gs[..|gs| - 1];
      var last := gs[|gs| - 1];
      FrontLast(gs);
      SortedFront(gs);
      DedupSelectsBySlug(front, slug);
      if front[|front| - 1] == last {
        DedupSelectsBySlugRepeat(front, last, slug);
      } else {
        DedupSelectsBySlugNew(front, last, slug);
      }
    } else if |gs| == 1 {
      WithFirstSlugAppend([], gs[0], slug);
      AppendNothing([gs[0]]);
      AppendNothing(Picked(gs[0], slug));
    }
  }

  lemma SortedFront(gs: seq<Group>)
    requires |gs| > 0 && SortedByFirstSlug(gs)
    ensures SortedByFirstSlug(gs[..|gs| - 1])
  {
    var front := gs[..|gs| - 1];
    assert forall i :: 0 <= i < |front| ==> front[i] == gs[i];
  }

  /** The two neighbours at the end of `front + [last]`, both with a first slug. */
  lemma LastTwo(front: seq<Group>, last: Group)
    requires |front| > 0 && SortedByFirstSlug(front + [last])
    ensures |front[|front| - 1]| > 0 && |last| > 0
  {
    var gs := front + [last];
    AppendParts(front, last);
    assert FirstSlugLe(gs[|gs| - 2], gs[|gs| - 1]);
  }

  /** The step of `DedupSelectsBySlug` where the new group repeats the last one. */
  lemma DedupSelectsBySlugRepeat(front: seq<Group>, last: Group, slug: string)
    requires |front| > 0 && front[|front| - 1] == last
    requires SortedByFirstSlug(front + [last])
    requires WithFirstSlug(Dedup(front), slug) == Dedup(WithFirstSlug(front, slug))
    ensures WithFirstSlug(Dedup(front + [last]), slug) == Dedup(WithFirstSlug(front + [last], slug))
  {
    var sel := WithFirstSlug(front, slug);
    LastTwo(front, last);
    DedupAppendRepeat(front, last);
    WithFirstSlugAppend(front, last, slug);
    if last[0] == slug {
      FrontLast(front);
      WithFirstSlugAppend(front[..|front| - 1], last, slug);
      DedupAppendRepeat(sel, last);
    } else {
      AppendNothing(sel);
    }
  }

  /** The step of `DedupSelectsBySlug` where the new group differs from the last one. */
  lemma DedupSelectsBySlugNew(front: seq<Group>, last: Group, slug: string)
    requires |front| > 0 && front[|front| - 1] != last
    requires SortedByFirstSlug(front + [last])
    requires WithFirstSlug(Dedup(front), slug) == Dedup(WithFirstSlug(front, slug))
    ensures WithFirstSlug(Dedup(front + [last]), slug) == Dedup(WithFirstSlug(front + [last], slug))
  {
    var prev := front[|front| - 1];
    var sel := WithFirstSlug(front, slug);
    var kept := WithFirstSlug(Dedup(front), slug);
    LastTwo(front, last);
    DedupAppendNew(front, last);
    WithFirstSlugAppend(front, last, slug);
    WithFirstSlugAppend(Dedup(front), last, slug);
    if last[0] == slug {
      assert |sel| == 0 || sel[|sel| - 1] != last by {
        if prev[0] == slug {
          FrontLast(front);
          WithFirstSlugAppend(front[..|front| - 1], prev, slug);
        } else {
          AppendParts(front, last);
          NothingBeforeWithSlug(front + [last], slug);
        }
      }
      DedupAppendNew(sel, last);
    } else {
      AppendNothing(sel);
      AppendNothing(kept);
    }
  }

  /** In groups sorted by first slug, when the last group has first slug
      `slug` and the one before it does not, no earlier group has it. */
  lemma NothingBeforeWithSlug(gs: seq<Group>, slug: string)
    requires |gs| > 1 && SortedByFirstSlug(gs)
    requires |gs[|gs| - 1]| > 0 && |gs[|gs| - 2]| > 0
    requires gs[|gs| - 1][0] == slug && gs[|gs| - 2][0] != slug
    ensures WithFirstSlug(gs[..|gs| - 1], slug) == []
  {
    var front := gs[..|gs| - 1];
    forall k | 0 <= k < |front|
      ensures |front[k]| > 0 && front[k][0] != slug
    {
      assert FirstSlugLe(gs[k], gs[|gs| - 1]);
      if front[k][0] == slug && k < |front| - 1 {
        assert FirstSlugLe(gs[k], gs[|gs| - 2]) && FirstSlugLe(gs[|gs| - 2], gs[|gs| - 1]);
        LexLeAntisymmetric(gs[k][0], gs[|gs| - 2][0]);
      }
    }
    NoneWithSlug(front, slug);
  }

  lemma {:induction false} NoneWithSlug(gs: seq<Group>, slug: string)
    requires forall k :: 0 <= k < |gs| ==> |gs[k]| > 0 && gs[k][0] != slug
    ensures WithFirstSlug(gs, slug) == []
  {
    if |gs| > 0 {
      NoneWithSlug(gs[..|gs| - 1], slug);
    }
  }

  /** Every group selected by first slug `slug` is a group of `gs` with that first slug. */
  lemma {:induction false} WithFirstSlugMembers(gs: seq<Group>, slug: string)
    ensures forall g :: g in WithFirstSlug(gs, slug) ==> g in gs && |g| > 0 && g[0] == slug
  {
    if |gs| > 0 {
      WithFirstSlugMembers(gs[..|gs| - 1], slug);
    }
  }

  /** The last group of `gs` is among those selected by its own first slug. */
  lemma LastIsSelected(gs: seq<Group>)
    ensures |gs| > 0 && |gs[|gs| - 1]| > 0 ==> WithFirstSlug(gs, gs[|gs| - 1][0]) != []
  {
  }

  /** In a sequence non-decreasing by first slug, a first slug that occurs
      is not greater than the last group's. */
  lemma LastHasGreatestFirstSlug(gs: seq<Group>, slug: string)
    requires |gs| > 0 && AllNonEmpty(gs) && SortedByFirstSlug(gs)
    requires WithFirstSlug(gs, slug) != []
    ensures LexLe(slug, gs[|gs| - 1][0])
  {
    var sel := WithFirstSlug(gs, slug);
    WithFirstSlugMembers(gs, slug);
    assert sel[0] in gs;
    var k :| 0 <= k < |gs| && gs[k] == sel[0];
    if k < |gs| - 1 {
      assert FirstSlugLe(gs[k], gs[|gs| - 1]);
    } else {
      LexLeReflexive(slug);
    }
  }

  /** Two sequences of groups whose last groups are equal and whose
      selections by `slug` are equal have equal selections without the last group. */
  lemma SelectionsOfFronts(a: seq<Group>, b: seq<Group>, slug: string)
    requires |a| > 0 && |b| > 0 && a[|a| - 1] == b[|b| - 1]
    requires WithFirstSlug(a, slug) == WithFirstSlug(b, slug)
    ensures WithFirstSlug(a[..|a| - 1], slug) == WithFirstSlug(b[..|b| - 1], slug)
  {
    var x := a[|a| - 1];
    var selA, selB := WithFirstSlug(a[..|a| - 1], slug), WithFirstSlug(b[..|b| - 1], slug);
    if |x| > 0 && x[0] == slug {
      AppendCancel(selA, selB, x, x);
    } else {
      AppendNothing(selA);
      AppendNothing(selB);
    }
  }

  /** Two sequences whose selections by the first slug of their last groups
      agree, and whose last groups share that slug, end in the same group. */
  lemma SameLastGroup(a: seq<Group>, b: seq<Group>)
    requires |a| > 0 && |b| > 0
    requires |a[|a| - 1]| > 0 && |b[|b| - 1]| > 0 && a[|a| - 1][0] == b[|b| - 1][0]
    requires WithFirstSlug(a, a[|a| - 1][0]) == WithFirstSlug(b, a[|a| - 1][0])
    ensures a[|a| - 1] == b[|b| - 1]
  {
    var slug := a[|a| - 1][0];
    AppendCancel(WithFirstSlug(a[..|a| - 1], slug), WithFirstSlug(b[..|b| - 1], slug), a[|a| - 1], b[|b| - 1]);
  }

  /** Two sequences of groups, each non-decreasing by first slug, that hold
      the same groups for every first slug in the same order, are equal: the
      order by first slug together with the selections pins the sequence down. */
  lemma {:induction false} SelectionsDetermineSorted(a: seq<Group>, b: seq<Group>)
    requires AllNonEmpty(a) && AllNonEmpty(b)
    requires SortedByFirstSlug(a) && SortedByFirstSlug(b)
    requires forall slug :: WithFirstSlug(a, slug) == WithFirstSlug(b, slug)
    ensures a == b
    decreases |a| + |b|
  {
    LastIsSelected(a);
    LastIsSelected(b);
    if |a| == 0 || |b| == 0 {
      return;
    }
    var x, y := a[|a| - 1], b[|b| - 1];
    LastHasGreatestFirstSlug(a, y[0]);
    LastHasGreatestFirstSlug(b, x[0]);
    LexLeAntisymmetric(x[0], y[0]);
    SameLastGroup(a, b);
    var a', b' := a[..|a| - 1], b[..|b| - 1];
    forall slug
      ensures WithFirstSlug(a', slug) == WithFirstSlug(b', slug)
    {
      SelectionsOfFronts(a, b, slug);
    }
    SortedFront(a);
    SortedFront(b);
    SelectionsDetermineSorted(a', b');
    FrontLast(a);
    FrontLast(b);
  }

  /** Each realm's connected-realms list, in the order of the realms. */
  function ConnectedLists(realms: seq<RealmInfo>): (lists: seq<Group>)
    ensures |lists| == |realms|
    ensures forall i :: 0 <= i < |realms| ==> lists[i] == realms[i].connectedRealms
  {
    seq(|realms|, i requires 0 <= i < |realms| => realms[i].connectedRealms)
  }

  /** What the sort demands: comparing two lists takes their first slugs and
      panics on an empty list. With fewer than two realms nothing is compared. */
  predicate Comparable(realms: seq<RealmInfo>)
  {
    |realms| < 2 || forall i :: 0 <= i < |realms| ==> |realms[i].connectedRealms| > 0
  }

  /** The connected-realm groups: the realms' lists stable-sorted by first
      slug, with consecutive equal lists dropped. */
  function ProcessConnectedRealms(realms: seq<RealmInfo>): (groups: seq<Group>)
    requires Comparable(realms)
    ensures |groups| <= |realms|
    ensures |realms| > 0 ==> |groups| > 0
  {
    Dedup(SortByFirstSlug(ConnectedLists(realms)))
  }

  /** The groups are non-decreasing by first slug, and no group equals its
      successor. */
  lemma ProcessConnectedRealmsOrdered(realms: seq<RealmInfo>)
    requires Comparable(realms)
    ensures SortedByFirstSlug(ProcessConnectedRealms(realms))
    ensures NoAdjacentRepeats(ProcessConnectedRealms(realms))
  {
    var sorted := SortByFirstSlug(ConnectedLists(realms));
    SortByFirstSlugSorted(ConnectedLists(realms));
    DedupKeepsOrder(sorted);
    DedupNoAdjacentRepeats(sorted);
  }

  /** Every realm's list is a group, and every group is some realm's list. */
  lemma ProcessConnectedRealmsMembers(realms: seq<RealmInfo>)
    requires Comparable(realms)
    ensures forall i :: 0 <= i < |realms| ==> realms[i].connectedRealms in ProcessConnectedRealms(realms)
    ensures forall g :: g in ProcessConnectedRealms(realms) ==>
              exists i :: 0 <= i < |realms| && realms[i].connectedRealms == g
  {
    var lists := ConnectedLists(realms);
    var sorted := SortByFirstSlug(lists);
    SortByFirstSlugPermutes(lists);
    DedupMembers(sorted);
    SameMembers(sorted, lists);
  }

  /** For every first slug, the groups with it are the realms' lists with
      it, in realm order, less consecutive repeats. */
  lemma ProcessConnectedRealmsSelects(realms: seq<RealmInfo>, slug: string)
    requires Comparable(realms)
    ensures WithFirstSlug(ProcessConnectedRealms(realms), slug)
            == Dedup(WithFirstSlug(ConnectedLists(realms), slug))
  {
    var lists := ConnectedLists(realms);
    SortByFirstSlugSorted(lists);
    DedupSelectsBySlug(SortByFirstSlug(lists), slug);
    SortByFirstSlugSelects(lists, slug);
  }

  /** The lemmas above determine the result: any sequence of groups
      non-decreasing by first slug whose groups for each first slug are the
      realms' lists with that slug, less consecutive repeats, is the result. */
  lemma GroupsAreDeterminedBySlugSelections(realms: seq<RealmInfo>, groups: seq<Group>)
    requires forall i :: 0 <= i < |realms| ==> |realms[i].connectedRealms| > 0
    requires AllNonEmpty(groups) && SortedByFirstSlug(groups)
    requires forall slug :: WithFirstSlug(groups, slug) == Dedup(WithFirstSlug(ConnectedLists(realms), slug))
    ensures groups == ProcessConnectedRealms(realms)
  {
    var result := ProcessConnectedRealms(realms);
    ProcessConnectedRealmsOrdered(realms);
    DedupMembers(SortByFirstSlug(ConnectedLists(realms)));
    forall slug
      ensures WithFirstSlug(groups, slug) == WithFirstSlug(result, slug)
    {
      ProcessConnectedRealmsSelects(realms, slug);
    }
    SelectionsDetermineSorted(groups, result);
  }

  /** Members of one connected group list their realms in the same order:
      two lists with the same first slug are the same list. */
  predicate SameOrderEverywhere(realms: seq<RealmInfo>)
  {
    forall i, j :: 0 <= i < |realms| && 0 <= j < |realms|
                   && |realms[i].connectedRealms| > 0 && |realms[j].connectedRealms| > 0
                   && realms[i].connectedRealms[0] == realms[j].connectedRealms[0]
                   ==> realms[i].connectedRealms == realms[j].connectedRealms
  }

  /** Under the assumption the deduplication relies on, no group occurs
      twice, so every realm's list is exactly one group. */
  lemma GroupsDistinctWhenOrderAgrees(realms: seq<RealmInfo>)
    requires Comparable(realms)
    requires SameOrderEverywhere(realms)
    ensures var groups := ProcessConnectedRealms(realms);
            forall i, j :: 0 <= i < j < |groups| ==> groups[i] != groups[j]
  {
    var groups := ProcessConnectedRealms(realms);
    ProcessConnectedRealmsOrdered(realms);
    ProcessConnectedRealmsMembers(realms);
    forall i, j | 0 <= i < j < |groups|
      ensures groups[i] != groups[j]
    {
      if i + 1 < j {
        var gi, gn, gj := groups[i], groups[i + 1], groups[j];
        assert gi in groups && gn in groups;
        var p :| 0 <= p < |realms| && realms[p].connectedRealms == gi;
        var q :| 0 <= q < |realms| && realms[q].connectedRealms == gn;
        // Equal first slugs would make the neighbours equal lists.
        assert gi[0] != gn[0];
        assert FirstSlugLe(gi, gn) && FirstSlugLe(gn, gj);
        if gi == gj {
          LexLeAntisymmetric(gi[0], gn[0]);
        }
      }
    }
  }

  /** The known defect: two realms whose lists differ, even only in order,
      give two groups. */
  lemma DifferentOrderGivesTwoGroups(a: RealmInfo, b: RealmInfo)
    requires |a.connectedRealms| > 0 && |b.connectedRealms| > 0
    requires a.connectedRealms != b.connectedRealms
    ensures |ProcessConnectedRealms([a, b])| == 2
  {
    var groups := ProcessConnectedRealms([a, b]);
    ProcessConnectedRealmsMembers([a, b]);
    assert [a, b][0] == a && [a, b][1] == b;
    assert a.connectedRealms in groups && b.connectedRealms in groups;
  }

  /** Two realms listing their group in the same order give one group. */
  lemma SameOrderGivesOneGroup(a: RealmInfo, b: RealmInfo)
    requires |a.connectedRealms| > 0
    requires a.connectedRealms == b.connectedRealms
    ensures ProcessConnectedRealms([a, b]) == [a.connectedRealms]
  {
    var x := a.connectedRealms;
    assert ConnectedLists([a, b]) == [x, x];
    assert Dedup([x, x]) == [x];
    forall slug
      ensures WithFirstSlug([x], slug) == Dedup(WithFirstSlug(ConnectedLists([a, b]), slug))
    {
      assert [x, x][..1] == [x] && [x][..0] == [];
    }
    GroupsAreDeterminedBySlugSelections([a, b], [x]);
  }

  /** Realms A and B listing `[A, B]` and `[B, A]`: the same auction house,
      yet two groups. */
  lemma ReversedListsStaySeparate()
    ensures |ProcessConnectedRealms([RealmInfo("A", "a", ["a", "b"]), RealmInfo("B", "b", ["b", "a"])])| == 2
  {
  }

  /** Realms A and B both listing `[A, B]`: one group. */
  lemma MatchingListsMerge()
    ensures ProcessConnectedRealms([RealmInfo("A", "a", ["a", "b"]), RealmInfo("B", "b", ["a", "b"])]) == [["a", "b"]]
  {
  }

  /** Realms A, B and C listing `[a, b, c]`, `[a, c, b]` and `[a, b, c]`: all
      three lists share first slug `a`, so the stable sort keeps them in
      place, and the two equal lists are not adjacent, so three groups
      remain, the first and last alike. */
  lemma InterleavedListsStaySeparate()
    ensures ProcessConnectedRealms([RealmInfo("A", "a", ["a", "b", "c"]), RealmInfo("B", "b", ["a", "c", "b"]),
                                    RealmInfo("C", "c", ["a", "b", "c"])])
         == [["a", "b", "c"], ["a", "c", "b"], ["a", "b", "c"]]
  {
    var g1: Group := ["a", "b", "c"];
    var g2: Group := ["a", "c", "b"];
    var realms := [RealmInfo("A", "a", g1), RealmInfo("B", "b", g2), RealmInfo("C", "c", g1)];
    assert ConnectedLists(realms) == [g1, g2, g1];
    LexLeReflexive("a");
    assert [g1, g2][..1] == [g1];
    assert [g1, g2, g1][..2] == [g1, g2];
    assert SortByFirstSlug([g1, g2]) == [g1, g2];
    assert SortByFirstSlug([g1, g2, g1]) == [g1, g2, g1];
    assert g1[1] != g2[1];
    DedupAppendNew([g1], g2);
    assert [g1] + [g2] == [g1, g2];
    DedupAppendNew([g1, g2], g1);
    assert [g1, g2] + [g1] == [g1, g2, g1];
  }
}
