/**
 * The three observer callbacks of the page (script.js, lines 34-50, 83-104 and
 * 148-182), each built on the fire-once pass of `Observers.Observer`: the stat
 * observer starts a counter, the card observer sets a staggered timer, and the
 * quote observer sets the two-stage reveal of the quotation.
 */
module Page {
  import opened Observers
  import opened Reveals
  import opened Counter

  /** Lines 99-104: every card is hidden, then observed. */
  method SetUpCards(cards: seq<ElementId>) returns (observer: Observer, poses: map<ElementId, Pose>)
    ensures fresh(observer) && observer.Valid() && observer.handled == {}
    ensures observer.watched == set c | c in cards
    ensures poses.Keys == observer.watched
    ensures forall c :: c in poses ==> poses[c] == CardHidden
  {
    poses := map[];
    var i := 0;
    while i < |cards|
      invariant 0 <= i <= |cards|
      invariant poses.Keys == set c | c in cards[..i]
      invariant forall c :: c in poses ==> poses[c] == CardHidden
    {
      poses := poses[cards[i] := CardHidden];
      i := i + 1;
      assert cards[..i] == cards[..i - 1] + [cards[i - 1]];
    }
    assert cards[..i] == cards;
    observer := new Observer(cards);
  }

  /**
   * The stat observer's callback (lines 34-46): every stat hit starts the
   * counter its current text describes, and is unobserved.
   */
  method StatCallback(observer: Observer, entries: seq<Entry>, textOf: map<ElementId, string>)
    returns (started: seq<(ElementId, CounterSpec)>)
    requires observer.Valid() && observer.watched <= textOf.Keys
    requires forall k :: 0 <= k < |entries| ==> entries[k].target in observer.watched
    modifies observer
    ensures observer.Valid()
    ensures var hits := Hits(old(observer.watched), entries);
      observer.watched == old(observer.watched) - TargetsOf(hits) &&
      observer.handled == old(observer.handled) + TargetsOf(hits) &&
      |started| == |hits| &&
      forall j :: 0 <= j < |hits| ==>
        hits[j].target in textOf && started[j] == (hits[j].target, CounterFor(textOf[hits[j].target]))
  {
    var hits := observer.Pass(entries);
    HitsSound(old(observer.watched), entries);
    started := seq(|hits|, j requires 0 <= j < |hits| && hits[j].target in textOf =>
      (hits[j].target, CounterFor(textOf[hits[j].target])));
  }

  /** The card observer's callback (lines 84-93): staggered timers, each card unobserved. */
  method CardCallback(observer: Observer, entries: seq<Entry>) returns (commits: seq<Commit>)
    requires observer.Valid()
    requires forall k :: 0 <= k < |entries| ==> entries[k].target in observer.watched
    modifies observer
    ensures observer.Valid()
    ensures var hits := Hits(old(observer.watched), entries);
      observer.watched == old(observer.watched) - TargetsOf(hits) &&
      observer.handled == old(observer.handled) + TargetsOf(hits) &&
      commits == CardCommits(hits)
    ensures CardSchedule(entries, commits)
  {
    var hits := observer.Pass(entries);
    commits := CardCommits(hits);
    CardsStaggerByBatchPosition(old(observer.watched), entries);
  }

  /**
   * The quote observer's callback (lines 150-176) for an observer that watches
   * only the quote section: on each hit, the quotation and its attribution are
   * hidden and their two timers are set, and the section is unobserved.
   */
  method QuoteCallback(observer: Observer, entries: seq<Entry>, section: ElementId,
                       blockquote: ElementId, cite: ElementId)
    returns (hidden: seq<(ElementId, Pose)>, commits: seq<Commit>)
    requires observer.Valid() && observer.watched <= {section}
    requires forall k :: 0 <= k < |entries| ==> entries[k].target in observer.watched
    modifies observer
    ensures observer.Valid()
    ensures var hits := Hits(old(observer.watched), entries);
      |hidden| == |commits| == 2 * |hits| &&
      observer.handled == old(observer.handled) + TargetsOf(hits) &&
      (hits == [] ==> observer.watched == old(observer.watched)) &&
      (hits != [] ==> observer.watched == {})
    ensures forall k :: 0 <= k < |commits| ==>
      hidden[k] == QuoteHides(blockquote, cite)[k % 2] && commits[k] == QuoteCommits(blockquote, cite)[k % 2]
    ensures Hits(old(observer.watched), entries) != [] ==> QuoteSchedule(commits, blockquote, cite)
  {
    ghost var watched := observer.watched;
    var hits := observer.Pass(entries);
    HitsSound(watched, entries);
    if hits != [] {
      assert hits[0].target in TargetsOf(hits);
    }
    hidden, commits := [], [];
    var j := 0;
    while j < |hits|
      invariant 0 <= j <= |hits|
      invariant |hidden| == |commits| == 2 * j
      invariant forall k :: 0 <= k < |commits| ==>
        hidden[k] == QuoteHides(blockquote, cite)[k % 2] && commits[k] == QuoteCommits(blockquote, cite)[k % 2]
    {
      hidden := hidden + QuoteHides(blockquote, cite);
      commits := commits + QuoteCommits(blockquote, cite);
      j := j + 1;
    }
  }
}
