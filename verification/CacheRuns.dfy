/** Whole runs over one project's cache: handler writes, resolver writes and expiry cleanups. */
module CacheRuns {
  import opened Common
  import opened Text
  import opened History
  import opened CacheModel
  import opened Resolver

  /** Handled: one of the three event handlers writes the epoch's CID. Walked, Fetched and Batched
      are the resolvers. Cleaned is one pass of the expiry loop. */
  datatype Event =
    | Handled(epoch: int, status: int, now: int)
    | Walked(ipfs: Ipfs, epoch: int, depth: nat, now: int)
    | Fetched(world: World, epoch: int, now: int)
    | Batched(world: World, ids: seq<int>, now: int)
    | Cleaned(now: int)

  // Events that one history produces.
  ghost predicate From(h: Hist, ev: Event) {
    match ev
    case Handled(e, _, _) => e in h
    case Walked(ipfs, e, _, _) => e in h && Consistent(h, ipfs)
    case Fetched(w, _, _) => Consistent(h, w.ipfs) && Faithful(h, w)
    case Batched(w, _, _) => Faithful(h, w)
    case Cleaned(_) => true
  }

  ghost predicate Expired(s: Cache, e: int, now: int) {
    e in s.expiry && 0 <= s.expiry[e] <= now
  }

  // _cleanup_expired_project_data, for the members of one project
  ghost function Cleanup(s: Cache, now: int): Cache {
    Cache(map e | e in s.hash && !Expired(s, e, now) :: s.hash[e],
          s.blank,
          map e | e in s.expiry && !Expired(s, e, now) :: s.expiry[e])
  }

  ghost function Apply(cfg: Config, h: Hist, s: Cache, ev: Event): Cache
    requires From(h, ev)
  {
    match ev
    case Handled(e, status, now) =>
      s.(hash := s.hash[e := Entry(h[e], status)], expiry := s.expiry[e := now + ENTRY_EXPIRY])
    case Walked(ipfs, e, depth, now) => Walk(cfg, ipfs, s, h[e], e, now, depth)
    case Fetched(w, e, now) => Fetch(cfg, w, s, e, now).0
    case Batched(w, ids, now) => Batch(cfg, w, s, ids, now)
    case Cleaned(now) => Cleanup(s, now)
  }

  ghost function Run(cfg: Config, h: Hist, s: Cache, evs: seq<Event>): Cache
    requires forall i :: 0 <= i < |evs| ==> From(h, evs[i])
  {
    if evs == [] then s else Apply(cfg, h, Run(cfg, h, s, evs[..|evs| - 1]), evs[|evs| - 1])
  }

  // A reader's blank answer: no CID in the hash, but the blank bit set.
  ghost predicate ReadsBlank(s: Cache, e: int) {
    e !in s.hash && e in s.blank
  }

  lemma ApplyKeepsSound(cfg: Config, h: Hist, s: Cache, ev: Event)
    requires From(h, ev) && !ev.Cleaned? && Sound(h, s)
    ensures Sound(h, Apply(cfg, h, s, ev))
  {
    hide Walk;
    hide Fetch;
    hide Batch;
    match ev
    case Handled(e, status, now) =>
    case Walked(ipfs, e, depth, now) => WalkImproves(cfg, h, ipfs, s, e, now, depth, {});
    case Fetched(w, e, now) => FetchImproves(cfg, h, w, s, e, now);
    case Batched(w, ids, now) => BatchImproves(cfg, h, w, s, ids, now, {});
    case Cleaned(now) =>
  }

  /** After any run of cache writes without cleanups, a hash hit returns the history's CID and a
      blank answer comes only for epochs outside the history, although fetches mark their own
      epoch as blank. */
  lemma {:induction false} ReadsAreSound(cfg: Config, h: Hist, s: Cache, evs: seq<Event>, e: int)
    requires Sound(h, s) && forall i :: 0 <= i < |evs| ==> From(h, evs[i]) && !evs[i].Cleaned?
    ensures var t := Run(cfg, h, s, evs);
            && Sound(h, t)
            && (e in t.hash ==> e in h && t.hash[e].cid == h[e])
            && (ReadsBlank(t, e) ==> e !in h)
  {
    if evs != [] {
      hide Apply;
      ReadsAreSound(cfg, h, s, evs[..|evs| - 1], e);
      ApplyKeepsSound(cfg, h, Run(cfg, h, s, evs[..|evs| - 1]), evs[|evs| - 1]);
    }
  }

  // The epochs some event of a run fetched from the contract.
  ghost function FetchedEpochs(evs: seq<Event>): set<int> {
    if evs == [] then {}
    else
      var last := evs[|evs| - 1];
      FetchedEpochs(evs[..|evs| - 1]) + if last.Fetched? then {last.epoch} else {}
  }

  lemma ApplyKeepsHits(cfg: Config, h: Hist, s: Cache, ev: Event, fetched: set<int>)
    requires From(h, ev) && SoundBut(h, s, fetched) && Marked(s) <= fetched
    requires ev.Fetched? ==> ev.epoch in fetched
    ensures SoundBut(h, Apply(cfg, h, s, ev), fetched) && Marked(Apply(cfg, h, s, ev)) <= fetched
  {
    hide Walk;
    hide Fetch;
    hide Batch;
    match ev
    case Handled(e, status, now) =>
    case Walked(ipfs, e, depth, now) => WalkImproves(cfg, h, ipfs, s, e, now, depth, fetched);
    case Fetched(w, e, now) => FetchImprovesFrom(cfg, h, w, s, e, now, fetched);
    case Batched(w, ids, now) => BatchImproves(cfg, h, w, s, ids, now, fetched);
    case Cleaned(now) =>
  }

  /** After any run at all, cleanups included, a hash hit returns the history's CID; and an epoch of
      the history reads as blank only if the run fetched it from the contract or the cache held it
      with both a CID and a blank mark from the start. */
  lemma {:induction false} HitsSurviveCleanups(cfg: Config, h: Hist, s: Cache, evs: seq<Event>, e: int)
    requires Sound(h, s) && forall i :: 0 <= i < |evs| ==> From(h, evs[i])
    ensures var t, fetched := Run(cfg, h, s, evs), Marked(s) + FetchedEpochs(evs);
            && SoundBut(h, t, fetched) && Marked(t) <= fetched
            && (e in t.hash ==> e in h && t.hash[e].cid == h[e])
            && (ReadsBlank(t, e) && e in h ==> e in fetched)
  {
    if evs != [] {
      hide Apply;
      hide Marked;
      var front := evs[..|evs| - 1];
      HitsSurviveCleanups(cfg, h, s, front, e);
      var fetched := Marked(s) + FetchedEpochs(evs);
      assert SoundBut(h, Run(cfg, h, s, front), fetched);
      ApplyKeepsHits(cfg, h, Run(cfg, h, s, front), evs[|evs| - 1], fetched);
    }
  }

  /** A cleanup keeps a sound cache sound exactly when no expiring cached epoch also carries its
      blank bit. */
  lemma CleanupKeepsSoundIff(h: Hist, s: Cache, now: int)
    requires Sound(h, s)
    ensures Sound(h, Cleanup(s, now)) <==> forall e :: e in Marked(s) ==> !Expired(s, e, now)
  {
  }

  /** And fetches do set that bit: once its entry expires, an epoch whose snapshot was fetched with
      its predecessors reads as blank, although the history has it. */
  lemma FetchedEpochTurnsBlank(cfg: Config, h: Hist, w: World, s: Cache, e: int, now: int, later: int)
    requires Consistent(h, w.ipfs) && Faithful(h, w) && Sound(h, s) && 0 <= now && now + ENTRY_EXPIRY <= later
    requires e in h && Settled(h, w, e) && h[e] in w.ipfs
    requires var prev := w.ipfs[h[e]].prev;
             prev != [] && prev[0].epoch <= e && !Lists(prev, e) && cfg.Accepts(Gaps(prev, prev[0].epoch, e + 1))
    ensures var t := Fetch(cfg, w, s, e, now).0;
            e in t.hash && ReadsBlank(Cleanup(t, later), e)
  {
    hide Walk;
    hide Gaps;
    hide HasNull;
    hide EntriesForward;
    hide Scores;
    var prev := w.ipfs[h[e]].prev;
    GapsElems(prev, prev[0].epoch, e + 1);
    FetchImproves(cfg, h, w, s, e, now);
    var marked := s.(blank := s.blank + Elems(Gaps(prev, prev[0].epoch, e + 1)));
    MarkGaps(h, s, prev, e, e + 1, {e});
    WalkImproves(cfg, h, w.ipfs, marked, e, now, 0, {e});
    var t := Fetch(cfg, w, s, e, now).0;
    assert e in marked.blank;
    assert t.expiry[e] == now + ENTRY_EXPIRY;
    assert e in t.hash;
  }

  // ----- the expiry index -----

  // Every cached epoch has an expiry member.
  ghost predicate Agree(s: Cache) {
    s.hash.Keys <= s.expiry.Keys
  }

  // The contract fetch takes its error path: the bitmap rejects the blank candidates.
  ghost predicate Fails(cfg: Config, ev: Event) {
    && ev.Fetched?
    && var st := ev.world.statusOf(ev.epoch);
       var prev := PrevOf(ev.world.ipfs, st.cid);
       && !(ev.epoch > ev.world.current - 10 && st.timestamp == 0) && st.cid != "" && !HasNull(st.cid)
       && prev != [] && !cfg.Accepts(Gaps(prev, prev[0].epoch, ev.epoch + 1))
  }

  lemma {:induction false} WalkAgrees(cfg: Config, ipfs: Ipfs, s: Cache, cid: string, e: int, now: int, depth: nat)
    requires Agree(s)
    ensures Agree(Walk(cfg, ipfs, s, cid, e, now, depth))
    decreases if depth < MAX_RECURSION_DEPTH then MAX_RECURSION_DEPTH - depth else 0
  {
    hide Walk;
    hide Gaps;
    WalkOnce(cfg, ipfs, s, cid, e, now, depth);
    var t := Walk(cfg, ipfs, s, cid, e, now, depth);
    if t != s {
      var prev := ipfs[cid].prev;
      var s1 := s.(blank := s.blank + Elems(Gaps(prev, prev[0].epoch, e)));
      if depth < MAX_RECURSION_DEPTH && prev[0].epoch !in s.hash {
        WalkAgrees(cfg, ipfs, s1, prev[0].cid, prev[0].epoch, now, depth + 1);
      }
      EntriesOf(prev, SUBMITTED, now + ENTRY_EXPIRY);
    }
  }

  lemma ForwardKeys(prev: seq<Link>, status: int, score: int)
    ensures EntriesForward(prev, status).Keys == Epochs(prev) == Scores(prev, score).Keys
  {
    hide EntriesForward;
    hide Scores;
    hide Entries;
    ForwardEpochs(prev, status);
    EntriesOf(prev, status, score);
    forall e ensures e in Scores(prev, score) <==> e in Epochs(prev) {
      assert e in Scores(prev, score).Keys <==> e in Entries(prev, status);
    }
  }

  lemma ApplyAgrees(cfg: Config, h: Hist, s: Cache, ev: Event)
    requires From(h, ev) && Agree(s) && !Fails(cfg, ev)
    ensures Agree(Apply(cfg, h, s, ev))
  {
    hide Walk;
    hide Gaps;
    hide HasNull;
    hide EntriesForward;
    hide Scores;
    match ev
    case Handled(e, status, now) =>
    case Walked(ipfs, e, depth, now) => WalkAgrees(cfg, ipfs, s, h[e], e, now, depth);
    case Fetched(w, e, now) =>
      var st := w.statusOf(e);
      var prev := PrevOf(w.ipfs, st.cid);
      var gaps := if prev == [] then [] else Gaps(prev, prev[0].epoch, e + 1);
      WalkAgrees(cfg, w.ipfs, s.(blank := s.blank + Elems(gaps)), st.cid, e, now, 0);
      ForwardKeys(prev, st.status + 1, now + ENTRY_EXPIRY);
    case Batched(w, ids, now) =>
    case Cleaned(now) =>
  }

  /** Over every run of handler writes, resolver writes and cleanups in which no contract fetch
      takes its error path, every cached epoch has an expiry member. */
  lemma {:induction false} ExpiryAgreement(cfg: Config, h: Hist, s: Cache, evs: seq<Event>)
    requires Agree(s) && forall i :: 0 <= i < |evs| ==> From(h, evs[i]) && !Fails(cfg, evs[i])
    ensures Agree(Run(cfg, h, s, evs))
  {
    if evs != [] {
      hide Apply;
      hide Fails;
      ExpiryAgreement(cfg, h, s, evs[..|evs| - 1]);
      ApplyAgrees(cfg, h, Run(cfg, h, s, evs[..|evs| - 1]), evs[|evs| - 1]);
    }
  }

  /** The error path writes the hash without the expiry set: agreement then survives exactly when
      every epoch it writes had an expiry member already. */
  lemma FailedFetchAgreesIff(cfg: Config, h: Hist, s: Cache, ev: Event)
    requires From(h, ev) && Agree(s) && Fails(cfg, ev)
    ensures Agree(Apply(cfg, h, s, ev)) <==>
            ev.epoch in s.expiry && Epochs(PrevOf(ev.world.ipfs, ev.world.statusOf(ev.epoch).cid)) <= s.expiry.Keys
  {
    hide Gaps;
    hide HasNull;
    hide EntriesForward;
    hide Scores;
    var st := ev.world.statusOf(ev.epoch);
    var prev := PrevOf(ev.world.ipfs, st.cid);
    FinalizeKeys(s.hash, prev, st, ev.epoch);
    hide Finalize;
    hide Epochs;
    var t := Apply(cfg, h, s, ev);
    assert t.hash.Keys == s.hash.Keys + {ev.epoch} + Epochs(prev) && t.expiry == s.expiry;
  }

  lemma FinalizeKeys(hash: map<int, Entry>, prev: seq<Link>, st: Consensus, e: int)
    ensures Finalize(hash, prev, st, e).Keys == hash.Keys + {e} + Epochs(prev)
  {
    hide EntriesForward;
    ForwardEpochs(prev, st.status + 1);
  }

  // ----- how long entries live -----

  ghost predicate AliveUntil(s: Cache, e: int, until: int) {
    e in s.hash && e in s.expiry && s.expiry[e] >= until
  }

  lemma FetchRescores(cfg: Config, w: World, s: Cache, e: int, now: int)
    ensures Rescored(s.expiry, Fetch(cfg, w, s, e, now).0.expiry, now)
    ensures s.hash.Keys <= Fetch(cfg, w, s, e, now).0.hash.Keys
  {
    hide Walk;
    hide Gaps;
    hide HasNull;
    hide Scores;
    hide Entries;
    hide EntriesForward;
    var st := w.statusOf(e);
    var prev := PrevOf(w.ipfs, st.cid);
    var gaps := if prev == [] then [] else Gaps(prev, prev[0].epoch, e + 1);
    WalkGrows(cfg, w.ipfs, s.(blank := s.blank + Elems(gaps)), st.cid, e, now, 0);
    EntriesOf(prev, SUBMITTED, now + ENTRY_EXPIRY);
  }

  // Later events only put the expiry off, and a cleanup before it does not remove the entry.
  lemma ApplyKeepsAlive(cfg: Config, h: Hist, s: Cache, ev: Event, e: int, until: int)
    requires From(h, ev) && AliveUntil(s, e, until)
    requires if ev.Cleaned? then ev.now < until else until <= ev.now + 604800
    ensures AliveUntil(Apply(cfg, h, s, ev), e, until)
  {
    hide Walk;
    hide Fetch;
    hide BatchData;
    hide BatchBlanks;
    match ev
    case Handled(f, status, now) =>
    case Walked(ipfs, f, depth, now) => WalkGrows(cfg, ipfs, s, h[f], f, now, depth);
    case Fetched(w, f, now) => FetchRescores(cfg, w, s, f, now);
    case Batched(w, ids, now) =>
    case Cleaned(now) =>
  }

  /** An entry that expires at time until is there after every run of later events and of cleanups
      before that time. */
  lemma {:induction false} EntriesLive(cfg: Config, h: Hist, s: Cache, evs: seq<Event>, e: int, until: int)
    requires AliveUntil(s, e, until)
    requires forall i :: 0 <= i < |evs| ==>
      From(h, evs[i]) && if evs[i].Cleaned? then evs[i].now < until else until <= evs[i].now + 604800
    ensures AliveUntil(Run(cfg, h, s, evs), e, until)
  {
    if evs != [] {
      hide Apply;
      EntriesLive(cfg, h, s, evs[..|evs| - 1], e, until);
      ApplyKeepsAlive(cfg, h, Run(cfg, h, s, evs[..|evs| - 1]), evs[|evs| - 1], e, until);
    }
  }

  /** What a contract fetch at time now cached, the epoch itself and every link its snapshot lists,
      survives every cleanup earlier than seven days later. */
  lemma FetchedEntriesLive(
      cfg: Config, h: Hist, w: World, s: Cache, e: int, now: int, evs: seq<Event>, x: int)
    requires Reports(w, e) && cfg.Accepts(FetchGaps(w, e))
    requires x == e || Lists(PrevOf(w.ipfs, w.statusOf(e).cid), x)
    requires forall i :: 0 <= i < |evs| ==>
      From(h, evs[i]) && if evs[i].Cleaned? then evs[i].now < now + 604800 else now <= evs[i].now
    ensures x in Run(cfg, h, Fetch(cfg, w, s, e, now).0, evs).hash
  {
    hide Fetch;
    hide Walk;
    FetchSucceeds(cfg, w, s, e, now, x);
    EntriesLive(cfg, h, Fetch(cfg, w, s, e, now).0, evs, x, now + 604800);
  }

  /** A cleanup at time now removes from the hash and from the expiry set exactly the epochs whose
      score lies between 0 and now. */
  lemma CleanupIsExact(s: Cache, now: int, e: int)
    requires Agree(s)
    ensures var t := Cleanup(s, now);
            && (e in s.hash && e !in t.hash <==> e in s.hash && 0 <= s.expiry[e] <= now)
            && (e in s.expiry && e !in t.expiry <==> e in s.expiry && 0 <= s.expiry[e] <= now)
            && Agree(t)
  {
    assert forall x :: x in Cleanup(s, now).hash ==> x in s.hash && x in s.expiry && !Expired(s, x, now);
  }
}
