/** The event detector's polling loop: which block ranges it broadcasts, and what survives a crash. */
module BlockScanner {
  import opened Common

  const CATCH_UP := 10

  /** How a poll ends once a new head was seen: the range was broadcast and the marker saved; the
      events could not be fetched; or the process died before or after it noted the head in memory.
      A graceful death saves the position held in memory, a hard one saves nothing. */
  datatype Outcome = Completed | FetchFailed | DiedSending(graceful: bool) | DiedSent(graceful: bool)

  // NoHead: the current block could not be fetched. Stopped: the process died between polls.
  datatype Poll = NoHead | Head(current: nat, outcome: Outcome) | Stopped(graceful: bool)

  // A broadcast block range: finished unless the process died on the way, kept when the marker
  // was moved past it.
  datatype Sent = Sent(from: int, to: int, finished: bool, kept: bool)

  /** last: the processed block held in memory, 0 when unknown; marker: the persisted one, 0 when
      absent. The rest is the record of the run: what was broadcast, what the catch-up rule gave
      up, the block after which it has to account for every block, and how often the process died.
      A poll without a position starts over at its own head, so it moves origin up. */
  datatype Scan = Scan(last: nat, marker: nat, sent: seq<Sent>, skipped: set<int>, origin: int, deaths: nat)

  // The position a poll starts from: memory, or else the marker.
  function Position(s: Scan): nat {
    if s.last == 0 then s.marker else s.last
  }

  // The catch-up rule.
  function Base(position: nat, current: nat): nat {
    if position != 0 && current - position >= CATCH_UP then current - CATCH_UP else position
  }

  function From(position: nat, current: nat): nat {
    if position != 0 then Base(position, current) + 1 else current
  }

  // What redis_cleanup leaves behind.
  function SavedMarker(marker: nat, last: nat, graceful: bool): nat {
    if graceful && last != 0 then last else marker
  }

  ghost function Step(s: Scan, p: Poll): Scan {
    match p
    case NoHead => s
    case Stopped(graceful) => s.(last := 0, marker := SavedMarker(s.marker, s.last, graceful), deaths := s.deaths + 1)
    case Head(current, outcome) =>
      var position := Position(s);
      if position == current then s.(last := position) else
      var base, from := Base(position, current), From(position, current);
      var t := s.(skipped := s.skipped + Elems(Range(position + 1, base + 1)),
                  origin := if position == 0 then current - 1 else s.origin);
      match outcome
      case FetchFailed => t.(last := base)
      case Completed => t.(last := current, marker := current, sent := s.sent + [Sent(from, current, true, true)])
      case DiedSending(graceful) =>
        t.(last := 0, marker := SavedMarker(s.marker, base, graceful), deaths := s.deaths + 1,
           sent := s.sent + [Sent(from, current, false, false)])
      case DiedSent(graceful) =>
        t.(last := 0, marker := SavedMarker(s.marker, current, graceful), deaths := s.deaths + 1,
           sent := s.sent + [Sent(from, current, true, graceful)])
  }

  ghost function Run(s: Scan, polls: seq<Poll>): Scan {
    if polls == [] then s else Step(Run(s, polls[..|polls| - 1]), polls[|polls| - 1])
  }

  class EventDetector {
    var last: nat
    var marker: nat
    var broadcast: seq<Sent>

    constructor (marker: nat)
      ensures this.marker == marker && last == 0 && broadcast == []
    {
      this.marker, this.last, this.broadcast := marker, 0, [];
    }

    // The process is gone: redis_cleanup may save the position, and memory is lost.
    method Die(graceful: bool)
      modifies this
      ensures marker == SavedMarker(old(marker), old(last), graceful) && last == 0 && broadcast == old(broadcast)
    {
      if graceful && last != 0 {
        marker := last;
      }
      last := 0;
    }

    ghost predicate Matches(s: Scan)
      reads this
    {
      s.last == last && s.marker == marker && s.sent == broadcast
    }

    // One turn of the loop, or one death.
    method PollOnce(p: Poll, ghost s: Scan)
      requires Matches(s)
      modifies this
      ensures Matches(Step(s, p))
    {
      hide Elems;
      match p
      case NoHead =>
      case Stopped(graceful) => Die(graceful);
      case Head(current, outcome) =>
        if last == 0 {
          last := marker;
        }
        if last == current {
          return;
        }
        var from := current;
        if last != 0 {
          if current - last >= 10 {
            last := current - 10;
          }
          from := last + 1;
        }
        match outcome {
          case FetchFailed =>
          case Completed =>
            broadcast := broadcast + [Sent(from, current, true, true)];
            last := current;
            marker := current;
          case DiedSending(graceful) =>
            broadcast := broadcast + [Sent(from, current, false, false)];
            Die(graceful);
          case DiedSent(graceful) =>
            broadcast := broadcast + [Sent(from, current, true, graceful)];
            last := current;
            Die(graceful);
        }
    }

    // _detect_events, over the polls it makes, including those of restarted processes.
    method DetectEvents(polls: seq<Poll>, ghost s: Scan)
      requires Matches(s)
      modifies this
      ensures Matches(Run(s, polls))
    {
      hide Step;
      for i := 0 to |polls|
        invariant Matches(Run(s, polls[..i]))
      {
        assert polls[..i + 1][..i] == polls[..i];
        PollOnce(polls[i], Run(s, polls[..i]));
      }
      assert polls[..|polls|] == polls;
    }
  }

  // ----- whole runs -----

  // Heads never fall, neither below an earlier head nor below the marker a process starts from.
  ghost predicate Rising(polls: seq<Poll>, start: nat) {
    && (forall i :: 0 <= i < |polls| && polls[i].Head? ==> 1 <= polls[i].current && start <= polls[i].current)
    && (forall i, j :: 0 <= i < j < |polls| && polls[i].Head? && polls[j].Head? ==>
                         polls[i].current <= polls[j].current)
  }

  ghost function Times(sent: seq<Sent>, b: int): nat {
    if sent == [] then 0
    else Times(sent[..|sent| - 1], b) + if sent[|sent| - 1].from <= b <= sent[|sent| - 1].to then 1 else 0
  }

  // Broadcasts of b that no marker accounts for: those of the ranges a process died with.
  ghost function Lost(sent: seq<Sent>, b: int): nat {
    if sent == [] then 0
    else
      var x := sent[|sent| - 1];
      Lost(sent[..|sent| - 1], b) + if !x.kept && x.from <= b <= x.to then 1 else 0
  }

  ghost function LostRanges(sent: seq<Sent>): nat {
    if sent == [] then 0 else LostRanges(sent[..|sent| - 1]) + if sent[|sent| - 1].kept then 0 else 1
  }

  ghost predicate Delivered(sent: seq<Sent>, b: int) {
    exists i :: 0 <= i < |sent| && sent[i].finished && sent[i].from <= b <= sent[i].to
  }

  ghost predicate Short(sent: seq<Sent>) {
    forall i :: 0 <= i < |sent| ==> sent[i].from <= sent[i].to < sent[i].from + 10
  }

  // Later ranges lie above earlier ones.
  ghost predicate Ordered(sent: seq<Sent>) {
    forall i, j :: 0 <= i < j < |sent| ==> sent[i].to < sent[j].from
  }

  // Every block from the origin to the position was broadcast in full or given up.
  ghost predicate Covered(s: Scan) {
    Position(s) != 0 ==> forall b :: s.origin < b <= Position(s) ==> Delivered(s.sent, b) || b in s.skipped
  }

  // A block was broadcast at most once, plus once per range a process died with that holds it, and
  // a process dies with one range at most.
  ghost predicate Rare(s: Scan) {
    && LostRanges(s.sent) <= s.deaths
    && forall b :: Times(s.sent, b) <= Lost(s.sent, b) + if b <= s.marker then 1 else 0
  }

  // While nothing died: ranges in order and behind the position, given-up blocks never broadcast.
  ghost predicate Calm(s: Scan) {
    s.deaths == 0 ==>
      && Ordered(s.sent) && (forall i :: 0 <= i < |s.sent| ==> s.sent[i].to <= Position(s))
      && forall b :: b in s.skipped ==> b <= Position(s) && Times(s.sent, b) == 0
  }

  /** What holds after every poll, with top the highest head so far. */
  ghost predicate Inv(s: Scan, top: nat) {
    s.marker <= Position(s) <= top && Covered(s) && Rare(s) && Calm(s) && Short(s.sent)
  }

  lemma TimesSnoc(sent: seq<Sent>, x: Sent, b: int)
    ensures Times(sent + [x], b) == Times(sent, b) + if x.from <= b <= x.to then 1 else 0
    ensures Lost(sent + [x], b) == Lost(sent, b) + if !x.kept && x.from <= b <= x.to then 1 else 0
    ensures LostRanges(sent + [x]) == LostRanges(sent) + if x.kept then 0 else 1
  {
    assert (sent + [x])[..|sent|] == sent;
  }

  lemma DeliveredSnoc(sent: seq<Sent>, x: Sent, b: int)
    ensures Delivered(sent + [x], b) <==> Delivered(sent, b) || (x.finished && x.from <= b <= x.to)
  {
    if Delivered(sent, b) {
      var i :| 0 <= i < |sent| && sent[i].finished && sent[i].from <= b <= sent[i].to;
      assert (sent + [x])[i] == sent[i];
    }
    if x.finished && x.from <= b <= x.to {
      assert (sent + [x])[|sent|] == x;
    }
  }

  lemma NeverBelow(sent: seq<Sent>, p: int, b: int)
    requires forall i :: 0 <= i < |sent| ==> sent[i].to <= p
    requires p < b
    ensures Times(sent, b) == 0
  {
  }

  // One poll's step: what it appends and where it leaves the scanner.
  lemma StepShape(s: Scan, current: nat, outcome: Outcome)
    requires s.marker <= Position(s) < current
    ensures var t, position := Step(s, Head(current, outcome)), Position(s);
            var base, from := Base(position, current), From(position, current);
            && t.marker <= Position(t) <= current
            && from <= current < from + CATCH_UP && position <= base < from
            && s.marker <= t.marker
            && (|| t.sent == s.sent
                || (t.sent == s.sent + [Sent(from, current, true, true)] && t.marker == current)
                || (t.sent == s.sent + [Sent(from, current, true, false)] && t.deaths == s.deaths + 1)
                || (t.sent == s.sent + [Sent(from, current, false, false)] && t.deaths == s.deaths + 1))
            && (t.sent == s.sent || Position(t) == current || t.deaths == s.deaths + 1)
            && s.deaths <= t.deaths <= s.deaths + 1
            && (Position(t) == current ==> t.sent == s.sent + [Sent(from, current, true, true)])
            && (Position(t) != current ==> Position(t) <= base)
            && (t.deaths == s.deaths ==> position <= Position(t) && base <= Position(t))
            && (t.origin == s.origin || (position == 0 && t.origin == current - 1))
            && (position == 0 ==> from == current && t.origin == current - 1)
            && (forall b :: b in t.skipped <==> b in s.skipped || position < b <= base)
  {
  }

  lemma StepCovered(s: Scan, p: Poll)
    requires p.Head? && s.marker <= Position(s) < p.current && Covered(s)
    ensures Covered(Step(s, p))
  {
    StepShape(s, p.current, p.outcome);
    hide Step;
    hide Base;
    var t, from := Step(s, p), From(Position(s), p.current);
    forall b | Position(t) != 0 && t.origin < b <= Position(t) ensures Delivered(t.sent, b) || b in t.skipped {
      DeliveredSnoc(s.sent, Sent(from, p.current, true, true), b);
      DeliveredSnoc(s.sent, Sent(from, p.current, true, false), b);
      DeliveredSnoc(s.sent, Sent(from, p.current, false, false), b);
    }
  }

  lemma StepRare(s: Scan, p: Poll)
    requires p.Head? && s.marker <= Position(s) < p.current && Rare(s)
    ensures Rare(Step(s, p))
  {
    StepShape(s, p.current, p.outcome);
    hide Step;
    hide Base;
    var t, from := Step(s, p), From(Position(s), p.current);
    forall b
      ensures Times(t.sent, b) <= Lost(t.sent, b) + if b <= t.marker then 1 else 0
      ensures LostRanges(t.sent) <= t.deaths
    {
      TimesSnoc(s.sent, Sent(from, p.current, true, true), b);
      TimesSnoc(s.sent, Sent(from, p.current, true, false), b);
      TimesSnoc(s.sent, Sent(from, p.current, false, false), b);
      assert Times(s.sent, b) <= Lost(s.sent, b) + if b <= s.marker then 1 else 0;
    }
  }

  lemma StepCalm(s: Scan, p: Poll)
    requires p.Head? && s.marker <= Position(s) < p.current && Calm(s)
    ensures Calm(Step(s, p))
  {
    StepShape(s, p.current, p.outcome);
    hide Step;
    hide Base;
    var t, from := Step(s, p), From(Position(s), p.current);
    if t.deaths == 0 {
      forall b | b in t.skipped ensures b <= Position(t) && Times(t.sent, b) == 0 {
        TimesSnoc(s.sent, Sent(from, p.current, true, true), b);
        if b !in s.skipped {
          NeverBelow(s.sent, Position(s), b);
        }
      }
    }
  }

  lemma StepKeepsInv(s: Scan, p: Poll, top: nat)
    requires Inv(s, top) && (p.Head? ==> 1 <= p.current && top <= p.current)
    ensures Inv(Step(s, p), if p.Head? then p.current else top)
  {
    if p.Head? && Position(s) != p.current {
      StepCovered(s, p);
      StepRare(s, p);
      StepCalm(s, p);
      StepShape(s, p.current, p.outcome);
      hide Step;
      hide Covered;
      hide Rare;
      hide Calm;
    } else {
      SamePlace(s, p);
    }
  }

  lemma SamePlace(s: Scan, p: Poll)
    requires s.marker <= Position(s) && Covered(s) && Rare(s) && Calm(s)
    requires p.Head? ==> Position(s) == p.current
    ensures var t := Step(s, p);
            t.marker <= Position(t) <= Position(s) && Covered(t) && Rare(t) && Calm(t) && t.sent == s.sent
  {
  }

  // A scanner that starts with the given marker and nothing else.
  function Start(marker: nat): Scan {
    Scan(0, marker, [], {}, marker, 0)
  }

  ghost function Top(polls: seq<Poll>, start: nat): nat {
    if polls == [] then start
    else
      var last := polls[|polls| - 1];
      if last.Head? then last.current else Top(polls[..|polls| - 1], start)
  }

  lemma {:induction false} TopIsHighest(polls: seq<Poll>, start: nat, p: Poll)
    requires Rising(polls + [p], start)
    ensures p.Head? ==> Top(polls, start) <= p.current
  {
    if polls != [] {
      var front, q := polls[..|polls| - 1], polls[|polls| - 1];
      assert (polls + [p])[|polls|] == p && (polls + [p])[|polls| - 1] == q;
      if !q.Head? {
        forall i | 0 <= i < |front| ensures (front + [p])[i] == (polls + [p])[i] {
        }
        assert (front + [p])[|front|] == p;
        assert Rising(front + [p], start) by {
          forall i, j | 0 <= i < j < |front + [p]| && (front + [p])[i].Head? && (front + [p])[j].Head?
            ensures (front + [p])[i].current <= (front + [p])[j].current {
            assert (front + [p])[i] == (polls + [p])[i];
            if j < |front| {
              assert (front + [p])[j] == (polls + [p])[j];
            }
          }
        }
        TopIsHighest(front, start, p);
      }
    } else {
      assert (polls + [p])[0] == p;
    }
  }

  lemma {:induction false} RunKeepsInv(polls: seq<Poll>, marker: nat)
    requires Rising(polls, marker)
    ensures Inv(Run(Start(marker), polls), Top(polls, marker))
  {
    if polls != [] {
      var front, p := polls[..|polls| - 1], polls[|polls| - 1];
      assert polls == front + [p];
      RunKeepsInv(front, marker);
      TopIsHighest(front, marker, p);
      StepKeepsInv(Run(Start(marker), front), p, Top(front, marker));
    }
  }

  // A poll that leaves a position behind even where none was known before.
  predicate Anchors(p: Poll) {
    p.Head? && (p.outcome == Completed || p.outcome == DiedSent(true))
  }

  // The first such poll, |polls| if there is none.
  function FirstAnchor(polls: seq<Poll>): (a: nat)
    ensures a <= |polls| && (a < |polls| ==> Anchors(polls[a]))
  {
    if polls == [] then 0
    else
      var a := FirstAnchor(polls[..|polls| - 1]);
      if a < |polls| - 1 || Anchors(polls[|polls| - 1]) then a else |polls|
  }

  /** Coverage starts after the saved marker, or without one at the head of the first poll that
      leaves a position behind. */
  function StartBlock(polls: seq<Poll>, marker: nat): int {
    if marker != 0 then marker
    else
      var a := FirstAnchor(polls);
      if a < |polls| then polls[a].current - 1 else 0
  }

  // Before that poll, only a process that died right after sending delivers a block: its head.
  ghost predicate SentUnmarked(polls: seq<Poll>, b: int) {
    exists i :: 0 <= i < FirstAnchor(polls) && DiedAt(polls[i], b)
  }

  predicate DiedAt(p: Poll, b: int) {
    p.Head? && p.current == b && p.outcome == DiedSent(false)
  }

  ghost predicate Accounted(s: Scan, b: int) {
    Delivered(s.sent, b) || b in s.skipped
  }

  // What a run knows of the blocks up to its start.
  ghost predicate Early(polls: seq<Poll>, marker: nat, t: Scan, b: int) {
    && (t.marker == 0 <==> marker == 0 && FirstAnchor(polls) == |polls|)
    && (t.marker == 0 ==> t.last == 0)
    && (t.marker != 0 ==> t.origin == StartBlock(polls, marker) && StartBlock(polls, marker) <= t.marker)
    && (t.marker == 0 || b <= StartBlock(polls, marker) ==>
          && (Accounted(t, b) <==> marker == 0 && SentUnmarked(polls, b))
          && (t.deaths == 0 ==> Times(t.sent, b) == 0))
  }

  lemma UnmarkedSnoc(front: seq<Poll>, p: Poll, b: int)
    ensures var a := FirstAnchor(front);
            FirstAnchor(front + [p]) == if a < |front| || Anchors(p) then a else |front| + 1
    ensures SentUnmarked(front + [p], b) <==>
            SentUnmarked(front, b) || (FirstAnchor(front) == |front| && DiedAt(p, b))
    ensures forall marker ::
              FirstAnchor(front) < |front| ==> StartBlock(front + [p], marker) == StartBlock(front, marker)
  {
    var polls := front + [p];
    assert polls[..|polls| - 1] == front;
    assert forall i :: 0 <= i < |front| ==> polls[i] == front[i];
    assert polls[|front|] == p;
    if DiedAt(p, b) && FirstAnchor(front) == |front| {
      assert SentUnmarked(polls, b);
    }
  }

  lemma EarlyStep(front: seq<Poll>, p: Poll, marker: nat, s: Scan, b: int)
    requires Early(front, marker, s, b) && s.marker <= Position(s)
    requires p.Head? ==> 1 <= p.current && Position(s) <= p.current
    ensures Early(front + [p], marker, Step(s, p), b)
  {
    UnmarkedSnoc(front, p, b);
    hide SentUnmarked;
    hide FirstAnchor;
    if p.Head? && Position(s) < p.current {
      StepShape(s, p.current, p.outcome);
      var from := From(Position(s), p.current);
      DeliveredSnoc(s.sent, Sent(from, p.current, true, true), b);
      DeliveredSnoc(s.sent, Sent(from, p.current, true, false), b);
      DeliveredSnoc(s.sent, Sent(from, p.current, false, false), b);
      TimesSnoc(s.sent, Sent(from, p.current, true, true), b);
      hide Delivered;
      hide Times;
    }
  }

  lemma {:induction false} RunIsEarly(polls: seq<Poll>, marker: nat, b: int)
    requires Rising(polls, marker)
    ensures Early(polls, marker, Run(Start(marker), polls), b)
  {
    if polls == [] {
      assert !SentUnmarked(polls, b);
    } else {
      var front, p := polls[..|polls| - 1], polls[|polls| - 1];
      assert polls == front + [p];
      RunIsEarly(front, marker, b);
      RunKeepsInv(front, marker);
      TopIsHighest(front, marker, p);
      hide Early;
      hide Step;
      EarlyStep(front, p, marker, Run(Start(marker), front), b);
    }
  }

  /** Without deaths, over every run of polls with rising heads: the broadcast ranges are disjoint,
      increasing and at most ten blocks long, and of the blocks up to the marker exactly those above
      the start were broadcast, once each, except the ones the catch-up rule gave up. */
  lemma UndisturbedRun(polls: seq<Poll>, marker: nat, b: int)
    requires Rising(polls, marker) && Run(Start(marker), polls).deaths == 0
    ensures var t := Run(Start(marker), polls);
            && Ordered(t.sent) && Short(t.sent)
            && (t.marker != 0 && b <= t.marker ==>
                  Times(t.sent, b) == if StartBlock(polls, marker) < b && b !in t.skipped then 1 else 0)
  {
    RunKeepsInv(polls, marker);
    RunIsEarly(polls, marker, b);
    var t := Run(Start(marker), polls);
    if t.marker != 0 && t.origin < b <= t.marker && b !in t.skipped {
      var i :| 0 <= i < |t.sent| && t.sent[i].finished && t.sent[i].from <= b <= t.sent[i].to;
      SentCounts(t.sent, i, b);
    }
    NothingLost(t.sent, b);
  }

  lemma {:induction false} NothingLost(sent: seq<Sent>, b: int)
    ensures LostRanges(sent) == 0 ==> Lost(sent, b) == 0
  {
    if sent != [] {
      NothingLost(sent[..|sent| - 1], b);
    }
  }

  lemma {:induction false} SentCounts(sent: seq<Sent>, i: nat, b: int)
    requires i < |sent| && sent[i].from <= b <= sent[i].to
    ensures Times(sent, b) >= 1
  {
    if i < |sent| - 1 {
      SentCounts(sent[..|sent| - 1], i, b);
    }
  }

  /** Whatever dies and restarts: of the blocks up to the persisted marker, those that were broadcast
      in full or given up by the catch-up rule are exactly the ones above the start, and without a
      saved marker also the heads sent by processes that died before any position was kept. A block
      is broadcast at most once, plus once for each range holding it that a process died with, of
      which there is at most one per death. */
  lemma CrashesLoseNothing(polls: seq<Poll>, marker: nat, b: int)
    requires Rising(polls, marker)
    ensures var t := Run(Start(marker), polls);
            && (t.marker != 0 && b <= t.marker ==>
                  (Accounted(t, b) <==> StartBlock(polls, marker) < b || (marker == 0 && SentUnmarked(polls, b))))
            && Times(t.sent, b) <= 1 + Lost(t.sent, b) && LostRanges(t.sent) <= t.deaths && Short(t.sent)
  {
    RunKeepsInv(polls, marker);
    RunIsEarly(polls, marker, b);
    var t := Run(Start(marker), polls);
    assert Times(t.sent, b) <= Lost(t.sent, b) + if b <= t.marker then 1 else 0;
  }

  /** So a scanner without a saved marker does lose blocks: when its first fetch fails, every block
      from that head up to the next one is neither broadcast nor given up, and the marker passes it. */
  lemma FirstFetchFails(c: nat, d: nat, b: int)
    requires 1 <= c <= b < d
    ensures var t := Run(Start(0), [Head(c, FetchFailed), Head(d, Completed)]);
            t.marker == d && t.deaths == 0 && !Accounted(t, b)
  {
    var p, q := Head(c, FetchFailed), Head(d, Completed);
    assert [p, q][..1] == [p] && [p][..0] == [];
    assert Run(Start(0), []) == Start(0);
    var s := Run(Start(0), [p]);
    assert s == Step(Start(0), p);
    assert Run(Start(0), [p, q]) == Step(s, q);
    assert s.sent == [] && s.skipped == {} && s.last == 0 && s.marker == 0;
    DeliveredSnoc([], Sent(d, d, true, true), b);
    assert [] + [Sent(d, d, true, true)] == [Sent(d, d, true, true)];
  }

  /** After a restart only blocks above the persisted marker are sent: whatever range a poll
      broadcasts starts above the marker and above the position held in memory. */
  lemma ResendsStartAboveMarker(polls: seq<Poll>, marker: nat, p: Poll)
    requires Rising(polls + [p], marker)
    ensures var s, t := Run(Start(marker), polls), Run(Start(marker), polls + [p]);
            && s.sent <= t.sent && |t.sent| <= |s.sent| + 1
            && (t.sent != s.sent ==>
                  var x := t.sent[|s.sent|]; x.from > s.marker && x.from > s.last && x.to == p.current)
  {
    hide Step;
    RisingFront(polls, p, marker);
    RunKeepsInv(polls, marker);
    TopIsHighest(polls, marker, p);
    var s := Run(Start(marker), polls);
    assert (polls + [p])[..|polls|] == polls && Run(Start(marker), polls + [p]) == Step(s, p);
    if p.Head? && Position(s) < p.current {
      StepShape(s, p.current, p.outcome);
    } else {
      SamePlace(s, p);
    }
  }

  lemma RisingFront(polls: seq<Poll>, p: Poll, start: nat)
    requires Rising(polls + [p], start)
    ensures Rising(polls, start)
  {
    assert forall i :: 0 <= i < |polls| ==> polls[i] == (polls + [p])[i];
  }

  /** A completed poll makes progress: the marker is at the head, and every block above the old
      position and less than ten below the head has been broadcast in full. */
  lemma CompletedPollCatchesUp(s: Scan, current: nat, b: int)
    requires Position(s) < current && Max(Position(s), current - 10) < b <= current
    requires Position(s) == 0 ==> b == current
    ensures var t := Step(s, Head(current, Completed));
            t.marker == current && Position(t) == current && Delivered(t.sent, b)
  {
    DeliveredSnoc(s.sent, Sent(From(Position(s), current), current, true, true), b);
  }

  // A poll from this state finds b in the part of its lag that the catch-up rule gives up.
  ghost predicate GivesUp(s: Scan, p: Poll, b: int) {
    p.Head? && Position(s) != 0 && p.current - Position(s) > 10 && Position(s) < b <= p.current - 10
  }

  // Poll i of the run gives b up.
  ghost predicate GaveUp(polls: seq<Poll>, marker: nat, i: nat, b: int)
    requires i < |polls|
  {
    GivesUp(Run(Start(marker), polls[..i]), polls[i], b)
  }

  /** Over a whole run, a block is given up if and only if some poll whose lag exceeded ten found it
      between its position and ten below its head. */
  lemma {:induction false} SkippedExactly(polls: seq<Poll>, marker: nat, b: int)
    ensures b in Run(Start(marker), polls).skipped <==> exists i :: 0 <= i < |polls| && GaveUp(polls, marker, i, b)
  {
    if polls != [] {
      var n := |polls| - 1;
      SkippedExactly(polls[..n], marker, b);
      SkipStep(Run(Start(marker), polls[..n]), polls[n], b);
      forall i | 0 <= i < n ensures GaveUp(polls[..n], marker, i, b) == GaveUp(polls, marker, i, b) {
        assert polls[..n][..i] == polls[..i];
      }
      assert GaveUp(polls, marker, n, b) == GivesUp(Run(Start(marker), polls[..n]), polls[n], b);
      hide GaveUp;
      hide GivesUp;
      hide Step;
      assert forall i :: 0 <= i < n ==> (GaveUp(polls[..n], marker, i, b) <==> GaveUp(polls, marker, i, b));
    }
  }

  lemma SkipStep(s: Scan, p: Poll, b: int)
    ensures b in Step(s, p).skipped <==> b in s.skipped || GivesUp(s, p, b)
  {
  }

  /** What each poll that completes nothing leaves behind: a failed one sends nothing and keeps the
      marker; a hard death keeps the marker and forgets the position; a graceful one saves it. */
  lemma DeathOutcomes(s: Scan, p: Poll)
    requires s.marker <= Position(s) && (p.Head? ==> Position(s) < p.current)
    ensures p.NoHead? ==> Step(s, p) == s
    ensures p.Stopped? ==>
      var t := Step(s, p); t.sent == s.sent && t.marker == Position(t) == if p.graceful then Position(s) else s.marker
    ensures p.Head? && p.outcome == FetchFailed ==>
      var t := Step(s, p);
      && t.sent == s.sent && t.marker == s.marker && t.deaths == s.deaths
      && (Position(s) != 0 ==> Position(t) == Max(Position(s), p.current - 10))
    ensures p.Head? && p.outcome.DiedSent? ==>
      var t := Step(s, p); t.marker == Position(t) == if p.outcome.graceful then p.current else s.marker
    ensures p.Head? && p.outcome.DiedSending? ==>
      var t := Step(s, p);
      t.marker == Position(t) ==
        if p.outcome.graceful && Position(s) != 0 then Max(Position(s), p.current - 10) else s.marker
  {
  }
}
