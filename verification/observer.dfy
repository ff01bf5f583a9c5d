/**
 * The fire-once bookkeeping shared by the page's three IntersectionObservers
 * (script.js, lines 34-50, 84-104 and 150-181): each callback walks the batch
 * of entries it is given and, for every entry that is intersecting, handles
 * the target and unobserves it. Whether an element intersects is an input.
 */
module Observers {

  /** A DOM element, by identity. */
  type ElementId = nat

  /** One `IntersectionObserverEntry`: its target and `isIntersecting`. */
  datatype Entry = Entry(target: ElementId, isIntersecting: bool)

  /** A target handled by a callback, with the position of its entry in the batch (`forEach` index). */
  datatype Hit = Hit(target: ElementId, index: nat)

  function TargetsOf(hits: seq<Hit>): (r: set<ElementId>) {
    set h | h in hits :: h.target
  }

  lemma TargetsOfAppend(hits: seq<Hit>, h: Hit)
    ensures TargetsOf(hits + [h]) == TargetsOf(hits) + {h.target}
  {
    assert forall x :: x in hits + [h] <==> x in hits || x == h;
  }

  /**
   * The targets handled in one pass over `entries`: every intersecting entry whose
   * target was observed when the batch was delivered, in batch order. The host
   * delivers entries only for observed targets; entries of other targets are dropped.
   * A target with two intersecting entries in one batch is handled twice, as
   * `forEach` does not look at whether it has already been unobserved.
   */
  function Hits(watched: set<ElementId>, entries: seq<Entry>): (hits: seq<Hit>)
    ensures |hits| <= |entries|
    decreases |entries|
  {
    if entries == [] then []
    else
      var n := |entries| - 1;
      var before := Hits(watched, entries[..n]);
      var e := entries[n];
      if e.isIntersecting && e.target in watched then before + [Hit(e.target, n)] else before
  }

  /**
   * Every hit stands for an intersecting entry of a watched target at its own
   * batch position, and hits come in batch order.
   */
  ghost predicate SoundHits(watched: set<ElementId>, entries: seq<Entry>, hits: seq<Hit>) {
    (forall j :: 0 <= j < |hits| ==>
       hits[j].index < |entries| && hits[j].target in watched &&
       entries[hits[j].index] == Entry(hits[j].target, true)) &&
    (forall j, k :: 0 <= j < k < |hits| ==> hits[j].index < hits[k].index)
  }

  lemma {:induction false} HitsSound(watched: set<ElementId>, entries: seq<Entry>)
    ensures SoundHits(watched, entries, Hits(watched, entries))
    decreases |entries|
  {
    if entries != [] {
      var n := |entries| - 1;
      var before := Hits(watched, entries[..n]);
      var hits := Hits(watched, entries);
      HitsSound(watched, entries[..n]);
      forall j | 0 <= j < |before|
        ensures before[j].index < n && entries[before[j].index] == entries[..n][before[j].index]
      {
      }
      if hits != before {
        assert hits == before + [Hit(entries[n].target, n)];
        forall j | 0 <= j < |hits|
          ensures hits[j].index < |entries| && hits[j].target in watched
          ensures entries[hits[j].index] == Entry(hits[j].target, true)
        {
          if j < |before| {
            assert hits[j] == before[j];
          }
        }
        forall j, k | 0 <= j < k < |hits| ensures hits[j].index < hits[k].index {
          assert hits[j] == before[j];
          if k < |before| {
            assert hits[k] == before[k];
          }
        }
      }
    }
  }

  /** Every intersecting entry of a watched target is handled, at its own batch position. */
  ghost predicate CompleteHits(watched: set<ElementId>, entries: seq<Entry>, hits: seq<Hit>) {
    forall k :: 0 <= k < |entries| && entries[k].isIntersecting && entries[k].target in watched ==>
      Hit(entries[k].target, k) in hits
  }

  lemma {:induction false} HitsComplete(watched: set<ElementId>, entries: seq<Entry>)
    ensures CompleteHits(watched, entries, Hits(watched, entries))
    decreases |entries|
  {
    if entries != [] {
      var n := |entries| - 1;
      var before := Hits(watched, entries[..n]);
      var hits := Hits(watched, entries);
      HitsComplete(watched, entries[..n]);
      assert forall h :: h in before ==> h in hits;
      forall k | 0 <= k < |entries| && entries[k].isIntersecting && entries[k].target in watched
        ensures Hit(entries[k].target, k) in hits
      {
        if k < n {
          assert entries[..n][k] == entries[k];
        } else {
          assert hits[|hits| - 1] == Hit(entries[k].target, k);
        }
      }
    }
  }

  /** The targets handled by each of a run of callbacks, the watch set shrinking after each. */
  function RunPasses(watched: set<ElementId>, batches: seq<seq<Entry>>): (r: seq<seq<Hit>>)
    ensures |r| == |batches|
    decreases |batches|
  {
    if batches == [] then []
    else
      var hits := Hits(watched, batches[0]);
      [hits] + RunPasses(watched - TargetsOf(hits), batches[1..])
  }

  /** Fire-once: a target handled by one callback is never handled by a later one. */
  ghost predicate OncePerTarget(passes: seq<seq<Hit>>) {
    forall i, j :: 0 <= i < j < |passes| ==> TargetsOf(passes[i]) !! TargetsOf(passes[j])
  }

  lemma {:induction false} FireOnce(watched: set<ElementId>, batches: seq<seq<Entry>>)
    ensures forall i :: 0 <= i < |batches| ==> TargetsOf(RunPasses(watched, batches)[i]) <= watched
    ensures OncePerTarget(RunPasses(watched, batches))
    decreases |batches|
  {
    if batches != [] {
      var hits := Hits(watched, batches[0]);
      var later := watched - TargetsOf(hits);
      var rest := RunPasses(later, batches[1..]);
      var all := RunPasses(watched, batches);
      HitsSound(watched, batches[0]);
      FireOnce(later, batches[1..]);
      assert all == [hits] + rest;
      assert TargetsOf(hits) <= watched;
      forall i | 0 <= i < |batches| ensures TargetsOf(all[i]) <= watched {
        if i > 0 {
          assert all[i] == rest[i - 1];
        }
      }
      forall i, j | 0 <= i < j < |all| ensures TargetsOf(all[i]) !! TargetsOf(all[j]) {
        assert all[j] == rest[j - 1];
        assert TargetsOf(rest[j - 1]) <= later;
        if i > 0 {
          assert all[i] == rest[i - 1];
        }
      }
    }
  }

  /** An IntersectionObserver: the set of elements it observes. */
  class Observer {
    var watched: set<ElementId>
    /** Every target this observer has handled so far. */
    ghost var handled: set<ElementId>

    ghost predicate Valid()
      reads this
    {
      watched !! handled
    }

    /** `new IntersectionObserver(...)` followed by `observe` on each of `targets`. */
    constructor(targets: seq<ElementId>)
      ensures Valid() && handled == {}
      ensures watched == set t | t in targets
    {
      var observed: set<ElementId> := {};
      var i := 0;
      while i < |targets|
        invariant 0 <= i <= |targets|
        invariant observed == set t | t in targets[..i]
      {
        observed := observed + {targets[i]};
        i := i + 1;
        assert targets[..i] == targets[..i - 1] + [targets[i - 1]];
      }
      assert targets[..i] == targets;
      watched := observed;
      handled := {};
    }

    /**
     * One callback: `entries.forEach`, handling each intersecting entry and
     * unobserving its target at once. The host delivers entries only for
     * targets observed when the batch was queued.
     */
    method Pass(entries: seq<Entry>) returns (hits: seq<Hit>)
      requires Valid()
      requires forall k :: 0 <= k < |entries| ==> entries[k].target in watched
      modifies this
      ensures Valid()
      ensures hits == Hits(old(watched), entries)
      ensures watched == old(watched) - TargetsOf(hits)
      ensures handled == old(handled) + TargetsOf(hits)
      ensures forall h :: h in hits ==> h.target !in old(handled)
    {
      hits := [];
      var i := 0;
      while i < |entries|
        invariant 0 <= i <= |entries|
        invariant hits == Hits(old(watched), entries[..i])
        invariant TargetsOf(hits) <= old(watched)
        invariant watched == old(watched) - TargetsOf(hits)
        invariant handled == old(handled) + TargetsOf(hits)
      {
        var e := entries[i];
        assert entries[..i + 1][..i] == entries[..i];
        if e.isIntersecting {
          TargetsOfAppend(hits, Hit(e.target, i));
          hits := hits + [Hit(e.target, i)];
          watched := watched - {e.target};
          handled := handled + {e.target};
        }
        i := i + 1;
      }
      assert entries[..|entries|] == entries;
      forall h | h in hits ensures h.target !in old(handled) {
        assert h.target in TargetsOf(hits);
      }
    }
  }
}
