/**
 * The entrance schedules (script.js, lines 83-104, 150-181 and 184-202): the
 * inline poses the script gives elements before they appear, and the timers
 * (`setTimeout`) that later commit the shown pose, as delays in milliseconds
 * from the moment each timer is set.
 */
module Reveals {
  import opened Observers

  /** The inline style the script writes: opacity, then a translation in px. */
  datatype Pose = Pose(opacity: nat, dx: int, dy: int)

  /** opacity 1, `translateY(0)` / `translateX(0)` */
  const Shown := Pose(1, 0, 0)
  /** opacity 0, `translateY(20px)` (lines 100-101) */
  const CardHidden := Pose(0, 0, 20)
  /** opacity 0, `translateY(30px)` (lines 156-157) */
  const BlockquoteHidden := Pose(0, 0, 30)
  /** opacity 0, `translateY(20px)` (lines 158-159) */
  const CiteHidden := Pose(0, 0, 20)
  /** opacity 0, `translateX(-20px)` (lines 192-193) */
  const LineHidden := Pose(0, -20, 0)

  /** A timer that, `delay` ms after it is set, gives `target` the pose `pose`. */
  datatype Commit = Commit(target: ElementId, delay: nat, pose: Pose)

  /** Whether `target` has been given the shown pose `t` ms after the timers were set. */
  ghost predicate Revealed(commits: seq<Commit>, target: ElementId, t: int) {
    exists k :: 0 <= k < |commits| && commits[k].target == target &&
      commits[k].pose == Shown && commits[k].delay <= t
  }

  // ---------------------------------------------------------------- cards

  /** The card observer's timers (lines 85-90): a card hit at batch position i is shown after i * 100 ms. */
  function CardCommits(hits: seq<Hit>): (r: seq<Commit>)
    ensures |r| == |hits|
    ensures forall j :: 0 <= j < |r| ==> r[j].target == hits[j].target && r[j].pose == Shown
  {
    seq(|hits|, j requires 0 <= j < |hits| => Commit(hits[j].target, 100 * hits[j].index, Shown))
  }

  ghost predicate CardSchedule(entries: seq<Entry>, commits: seq<Commit>) {
    (forall j :: 0 <= j < |commits| ==>
       commits[j].pose == Shown && commits[j].delay % 100 == 0 &&
       commits[j].delay / 100 < |entries| &&
       entries[commits[j].delay / 100] == Entry(commits[j].target, true)) &&
    (forall j, k :: 0 <= j < k < |commits| ==> commits[j].delay + 100 <= commits[k].delay)
  }

  /**
   * The card delays follow the batch: each card is delayed 100 ms per entry
   * before its own intersecting entry in the batch, and later entries' cards
   * strictly later.
   */
  lemma CardsStaggerByBatchPosition(watched: set<ElementId>, entries: seq<Entry>)
    ensures CardSchedule(entries, CardCommits(Hits(watched, entries)))
  {
    var hits := Hits(watched, entries);
    var r := CardCommits(hits);
    HitsSound(watched, entries);
    forall j | 0 <= j < |r|
      ensures r[j].delay / 100 == hits[j].index && r[j].delay % 100 == 0
    {
      assert r[j].delay == 100 * hits[j].index;
    }
  }

  // ---------------------------------------------------------------- quote

  /** The poses the quote observer gives the quotation and its attribution before showing them (lines 156-159). */
  function QuoteHides(blockquote: ElementId, cite: ElementId): (r: seq<(ElementId, Pose)>)
    ensures |r| == 2 && r[0].0 == blockquote && r[1].0 == cite
    ensures forall k :: 0 <= k < |r| ==> r[k].1.opacity == 0
  {
    [(blockquote, BlockquoteHidden), (cite, CiteHidden)]
  }

  /** The quote observer's two timers (lines 164-172). */
  function QuoteCommits(blockquote: ElementId, cite: ElementId): (r: seq<Commit>)
    ensures |r| == 2 && r[0].target == blockquote && r[1].target == cite
    ensures r[0].pose == Shown && r[1].pose == Shown && r[0].delay < r[1].delay
  {
    [Commit(blockquote, 200, Shown), Commit(cite, 600, Shown)]
  }

  /** The timers of one or more quote hits, set in the same callback: the pair, repeated. */
  ghost predicate QuoteSchedule(commits: seq<Commit>, blockquote: ElementId, cite: ElementId) {
    |commits| >= 2 &&
    forall k :: 0 <= k < |commits| ==> commits[k] == QuoteCommits(blockquote, cite)[k % 2]
  }

  /** The quotation shows from 200 ms and its attribution from 600 ms, so never the attribution alone. */
  lemma QuoteRevealOrder(commits: seq<Commit>, blockquote: ElementId, cite: ElementId, t: int)
    requires blockquote != cite && QuoteSchedule(commits, blockquote, cite)
    ensures Revealed(commits, blockquote, t) <==> t >= 200
    ensures Revealed(commits, cite, t) <==> t >= 600
    ensures Revealed(commits, cite, t) ==> Revealed(commits, blockquote, t)
  {
    var q := QuoteCommits(blockquote, cite);
    assert commits[0] == q[0] && commits[1] == q[1];
    if Revealed(commits, blockquote, t) {
      var k :| 0 <= k < |commits| && commits[k].target == blockquote && commits[k].pose == Shown && commits[k].delay <= t;
      assert commits[k] == q[k % 2];
    }
    if Revealed(commits, cite, t) {
      var k :| 0 <= k < |commits| && commits[k].target == cite && commits[k].pose == Shown && commits[k].delay <= t;
      assert commits[k] == q[k % 2];
    }
  }

  // ---------------------------------------------------------------- hero code

  /** `s.split('\n')`: the pieces between line breaks, always at least one. */
  function Split(s: string): (r: seq<string>)
    ensures |r| >= 1
    ensures forall k :: 0 <= k < |r| ==> '\n' !in r[k]
    decreases |s|
  {
    if s == [] then [""]
    else
      var rest := Split(s[1..]);
      if s[0] == '\n' then [""] + rest
      else [[s[0]] + rest[0]] + rest[1..]
  }

  /** `pieces.join('\n')` */
  function Join(pieces: seq<string>): (s: string)
    requires |pieces| >= 1
    decreases |pieces|
  {
    if |pieces| == 1 then pieces[0] else pieces[0] + "\n" + Join(pieces[1..])
  }

  /** Splitting loses nothing: joining the lines again gives the text back. */
  lemma {:induction false} JoinSplit(s: string)
    ensures Join(Split(s)) == s
    decreases |s|
  {
    if s != [] {
      var rest := Split(s[1..]);
      JoinSplit(s[1..]);
      if s[0] == '\n' {
        assert ([""] + rest)[1..] == rest;
        assert s == "\n" + s[1..];
      } else {
        var r := [[s[0]] + rest[0]] + rest[1..];
        if |rest| == 1 {
          assert s == [s[0]] + s[1..];
        } else {
          assert r[1..] == rest[1..];
          assert s == [s[0]] + s[1..];
        }
      }
    }
  }

  ghost predicate NoBreaks(pieces: seq<string>) {
    forall k :: 0 <= k < |pieces| ==> '\n' !in pieces[k]
  }

  /** A break-free prefix joins the first piece of whatever follows it. */
  lemma {:induction false} SplitPrefix(p: string, rest: string)
    requires '\n' !in p
    ensures Split(p + rest) == [p + Split(rest)[0]] + Split(rest)[1..]
    decreases |p|
  {
    if p == [] {
      assert p + rest == rest;
      assert p + Split(rest)[0] == Split(rest)[0];
      assert Split(rest) == [Split(rest)[0]] + Split(rest)[1..];
    } else {
      assert (p + rest)[1..] == p[1..] + rest;
      SplitPrefix(p[1..], rest);
      assert [p[0]] + (p[1..] + Split(rest)[0]) == p + Split(rest)[0];
    }
  }

  /** Lines without breaks come back unchanged from a join and a split. */
  lemma {:induction false} SplitJoin(pieces: seq<string>)
    requires |pieces| >= 1 && NoBreaks(pieces)
    ensures Split(Join(pieces)) == pieces
    decreases |pieces|
  {
    var p := pieces[0];
    if |pieces| == 1 {
      SplitPrefix(p, "");
      assert p + "" == p;
    } else {
      SplitJoin(pieces[1..]);
      assert Join(pieces) == p + ("\n" + Join(pieces[1..]));
      SplitPrefix(p, "\n" + Join(pieces[1..]));
      assert ("\n" + Join(pieces[1..]))[1..] == Join(pieces[1..]);
      assert Split("\n" + Join(pieces[1..])) == [""] + pieces[1..];
      assert p + "" == p;
    }
  }

  /** A `<div>` made for one line of the hero code. */
  datatype LineElement = LineElement(text: string, pose: Pose)

  function TextsOf(lines: seq<LineElement>): (r: seq<string>)
    ensures |r| == |lines|
  {
    seq(|lines|, i requires 0 <= i < |lines| => lines[i].text)
  }

  /** Line i of the hero code is shown 1000 + 100 * i ms after the page is set up (line 200). */
  function LineDelay(i: nat): (delay: nat)
    ensures delay >= 1000 && delay % 100 == 0
  {
    1000 + 100 * i
  }

  /**
   * The hero-code cascade (lines 186-201): one hidden line element per piece of
   * the text split at line breaks, appended in order, and one timer per line.
   * The line element at position i is identified by i.
   */
  method CascadeLines(content: string) returns (lines: seq<LineElement>, commits: seq<Commit>)
    ensures |lines| == |commits| == |Split(content)|
    ensures forall i :: 0 <= i < |lines| ==> lines[i] == LineElement(Split(content)[i], LineHidden)
    ensures forall i :: 0 <= i < |commits| ==> commits[i] == Commit(i, LineDelay(i), Shown)
    ensures Join(TextsOf(lines)) == content
  {
    var pieces := Split(content);
    lines, commits := [], [];
    var i := 0;
    while i < |pieces|
      invariant 0 <= i <= |pieces|
      invariant |lines| == |commits| == i
      invariant forall k :: 0 <= k < i ==> lines[k] == LineElement(pieces[k], LineHidden)
      invariant forall k :: 0 <= k < i ==> commits[k] == Commit(k, LineDelay(k), Shown)
    {
      lines := lines + [LineElement(pieces[i], LineHidden)];
      commits := commits + [Commit(i, LineDelay(i), Shown)];
      i := i + 1;
    }
    assert TextsOf(lines) == pieces;
    JoinSplit(content);
  }

  /** Hero lines appear one by one in order: a line is shown only once every earlier line is. */
  lemma LinesRevealInOrder(commits: seq<Commit>, i: nat, j: nat, t: int)
    requires forall k :: 0 <= k < |commits| ==> commits[k] == Commit(k, LineDelay(k), Shown)
    requires i < j < |commits|
    ensures Revealed(commits, j, t) <==> t >= LineDelay(j)
    ensures Revealed(commits, j, t) ==> Revealed(commits, i, t)
    ensures LineDelay(i) < LineDelay(j)
  {
    if Revealed(commits, j, t) {
      var k :| 0 <= k < |commits| && commits[k].target == j && commits[k].pose == Shown && commits[k].delay <= t;
      assert commits[i].delay <= t;
    }
    if t >= LineDelay(j) {
      assert commits[j].target == j;
    }
  }
}
