/** Fetching one epoch's CID from the contract, and why the cache never answers wrongly. */
module Resolver {
  import opened Common
  import opened Text
  import opened History
  import opened CacheModel

  // The contract's answer for one epoch; cid is "" when nothing was finalized.
  datatype Consensus = Consensus(status: int, cid: string, timestamp: int)

  // What the node can see: the content store, the contract, and the project's known epochs.
  datatype World = World(
    ipfs: Ipfs, statusOf: int -> Consensus, current: int,
    first: int, lastSubmitted: int, lastFinalized: int)

  function PrevOf(ipfs: Ipfs, cid: string): seq<Link> {
    if HasNull(cid) || cid !in ipfs then [] else ipfs[cid].prev
  }

  // data_to_cache built from the oldest link to the newest.
  function EntriesForward(links: seq<Link>, status: int): map<int, Entry> {
    if links == [] then map[]
    else
      var last := links[|links| - 1];
      EntriesForward(links[..|links| - 1], status)[last.epoch := Entry(last.cid, status)]
  }

  /** w3_get_and_cache_finalized_cid. The epoch's own bit is among the ones set, because the
      range of blank candidates includes it. */
  ghost function Fetch(cfg: Config, w: World, s: Cache, e: int, now: int): (r: (Cache, Result<string>)) {
    var st := w.statusOf(e);
    if e > w.current - 10 && st.timestamp == 0 then
      (s, Ok(NullCid(e)))
    else if st.cid != "" && !HasNull(st.cid) then
      var prev := PrevOf(w.ipfs, st.cid);
      var gaps := if prev == [] then [] else Gaps(prev, prev[0].epoch, e + 1);
      if !cfg.Accepts(gaps) then
        (s.(hash := Finalize(s.hash, prev, st, e)), Ok(NullCid(e)))
      else
        var t := Walk(cfg, w.ipfs, s.(blank := s.blank + Elems(gaps)), st.cid, e, now, 0);
        (t.(hash := Finalize(t.hash, prev, st, e),
            expiry := t.expiry + Scores(prev, now + ENTRY_EXPIRY)[e := now + ENTRY_EXPIRY]),
         Ok(st.cid))
    else if cfg.ValidId(e) then
      (s.(blank := s.blank + {e}), Ok(NullCid(e)))
    else
      (s, Err(ValueError))
  }

  function Finalize(hash: map<int, Entry>, prev: seq<Link>, st: Consensus, e: int): map<int, Entry> {
    hash[e := Entry(st.cid, st.status + 1)] + EntriesForward(prev, st.status + 1)
  }

  // What one batch of contract answers adds: CIDs, their expiry scores, and blank epochs.
  function BatchData(w: World, ids: seq<int>): map<int, Entry> {
    if ids == [] then map[] else
    var front, e := ids[..|ids| - 1], ids[|ids| - 1];
    var st := w.statusOf(e);
    if st.timestamp != 0 && st.cid != "" then BatchData(w, front)[e := Entry(st.cid, st.status)]
    else BatchData(w, front)
  }

  function BatchScores(w: World, ids: seq<int>, score: int): map<int, int> {
    map e | e in BatchData(w, ids) :: score
  }

  function BatchBlanks(w: World, ids: seq<int>): seq<int> {
    if ids == [] then [] else
    var front, e := ids[..|ids| - 1], ids[|ids| - 1];
    var st := w.statusOf(e);
    if st.timestamp != 0 && st.cid == "" then BatchBlanks(w, front) + [e] else BatchBlanks(w, front)
  }

  /** w3_get_and_cache_finalized_cid_bulk: nothing is written when the bitmap rejects the blanks. */
  ghost function Batch(cfg: Config, w: World, s: Cache, ids: seq<int>, now: int): Cache {
    var blanks := BatchBlanks(w, ids);
    if !cfg.Accepts(blanks) then s
    else Cache(s.hash + BatchData(w, ids), s.blank + Elems(blanks), s.expiry + BatchScores(w, ids, now + ENTRY_EXPIRY))
  }

  // ----- one history -----

  type Hist = map<int, string>

  // Each reachable snapshot of the history lists links of the history, with none missing between
  // its oldest link and itself.
  ghost predicate Consistent(h: Hist, ipfs: Ipfs) {
    forall e :: e in h ==>
      h[e] != "" && !HasNull(h[e]) && (h[e] in ipfs ==> ListsHistory(h, ipfs[h[e]].prev, e))
  }

  ghost predicate ListsHistory(h: Hist, prev: seq<Link>, e: int) {
    && (forall i :: 0 <= i < |prev| ==> prev[i].epoch in h && h[prev[i].epoch] == prev[i].cid)
    && (prev != [] ==> forall x :: x in h && prev[0].epoch <= x < e ==> Lists(prev, x))
  }

  // The contract reports only CIDs of the history, and "nothing" only with a pending status for
  // a recent epoch or for an epoch outside the history.
  ghost predicate Faithful(h: Hist, w: World) {
    forall e :: var st := w.statusOf(e);
      && (st.cid != "" ==> e in h && h[e] == st.cid)
      && (st.cid == "" && (st.timestamp != 0 || e <= w.current - 10) ==> e !in h)
  }

  /** Every cached CID is the history's, and a blank mark on an epoch of the history is hidden by
      a cached CID, except perhaps for the epochs in self. */
  ghost predicate SoundBut(h: Hist, s: Cache, self: set<int>) {
    && (forall e :: e in s.hash ==> e in h && s.hash[e].cid == h[e])
    && (forall e :: e in s.blank && e in h ==> e in s.hash || e in self)
  }

  ghost predicate Sound(h: Hist, s: Cache) {
    SoundBut(h, s, {})
  }

  ghost function Marked(s: Cache): set<int> {
    set e | e in s.hash && e in s.blank
  }

  // What resolving may do to a cache: stay sound but for self, forget nothing, and leave both a
  // CID and a blank mark only on the epochs in self.
  ghost predicate Improves(h: Hist, s: Cache, t: Cache, self: set<int>) {
    && SoundBut(h, t, self)
    && s.hash.Keys <= t.hash.Keys && s.blank <= t.blank
    && Marked(t) <= Marked(s) + self
  }

  /** A chain written by the snapshot writer is such a history, whatever part of it is reachable. */
  lemma ChainedIsConsistent(c: seq<Link>, ipfs: Ipfs, part: Ipfs)
    requires Increasing(c) && Chained(c, ipfs)
    requires forall cid :: cid in part ==> cid in ipfs && part[cid] == ipfs[cid]
    ensures Consistent(HistoryMap(c), part)
  {
    var h := HistoryMap(c);
    HistoryMapRecords(c);
    hide HistoryMap;
    forall e | e in h ensures h[e] != "" && !HasNull(h[e]) && (h[e] in part ==> ListsHistory(h, part[h[e]].prev, e)) {
      var n :| 0 <= n < |c| && c[n] == Link(e, h[e]);
      if h[e] in part {
        forall i | 0 <= i < |c| ensures c[i].epoch in h && h[c[i].epoch] == c[i].cid {
          assert c[i] in c;
        }
        forall x | x in h ensures exists i :: 0 <= i < |c| && c[i].epoch == x {
          var i :| 0 <= i < |c| && c[i] == Link(x, h[x]);
        }
        RecentListsHistory(c, n, h);
      }
    }
  }

  lemma RecentListsHistory(c: seq<Link>, n: nat, h: Hist)
    requires n < |c| && Increasing(c)
    requires forall i :: 0 <= i < |c| ==> c[i].epoch in h && h[c[i].epoch] == c[i].cid
    requires forall e :: e in h ==> exists i :: 0 <= i < |c| && c[i].epoch == e
    ensures ListsHistory(h, Recent(c[..n]), c[n].epoch)
  {
  }

  // Marking the gaps between listed links keeps a cache sound.
  lemma MarkGaps(h: Hist, s: Cache, prev: seq<Link>, e: int, hi: int, self: set<int>)
    requires SoundBut(h, s, self) && ListsHistory(h, prev, e) && prev != []
    requires hi == e || (hi == e + 1 && e in self)
    ensures Improves(h, s, s.(blank := s.blank + Elems(Gaps(prev, prev[0].epoch, hi))), self)
  {
    GapsElems(prev, prev[0].epoch, hi);
  }

  // Caching CIDs of the history keeps a cache sound.
  lemma CacheLinks(h: Hist, s: Cache, add: map<int, Entry>, self: set<int>)
    requires SoundBut(h, s, self)
    requires forall e :: e in add ==> e in h && add[e].cid == h[e]
    ensures Improves(h, s, s.(hash := s.hash + add), self)
  {
    var t := s.(hash := s.hash + add);
    forall e | e in Marked(t) ensures e in Marked(s) + self {
    }
  }

  lemma ImprovesTrans(h: Hist, s: Cache, t: Cache, u: Cache, self: set<int>)
    requires Improves(h, s, t, self) && Improves(h, t, u, self)
    ensures Improves(h, s, u, self)
  {
  }

  lemma EntriesAreHistory(h: Hist, prev: seq<Link>, e: int, status: int)
    requires ListsHistory(h, prev, e)
    ensures forall x :: x in Entries(prev, status) ==> x in h && Entries(prev, status)[x].cid == h[x]
  {
    EntriesOf(prev, status, 0);
    hide Entries;
    forall x | x in Entries(prev, status) ensures x in h && Entries(prev, status)[x].cid == h[x] {
      var i :| 0 <= i < |prev| && prev[i] == Link(x, Entries(prev, status)[x].cid);
    }
  }

  lemma {:induction false} ForwardEpochs(prev: seq<Link>, status: int)
    ensures EntriesForward(prev, status).Keys == Epochs(prev)
    ensures forall e :: e in EntriesForward(prev, status) ==>
              Link(e, EntriesForward(prev, status)[e].cid) in prev && EntriesForward(prev, status)[e].status == status
  {
    if prev != [] {
      ForwardEpochs(prev[..|prev| - 1], status);
      assert prev == prev[..|prev| - 1] + [prev[|prev| - 1]];
    }
  }

  // Of several links for one epoch the newest listed counts.
  lemma {:induction false} ForwardAt(prev: seq<Link>, status: int, i: nat)
    requires i < |prev| && forall j :: i < j < |prev| ==> prev[j].epoch != prev[i].epoch
    ensures var e := prev[i].epoch;
            e in EntriesForward(prev, status) && EntriesForward(prev, status)[e] == Entry(prev[i].cid, status)
  {
    if i < |prev| - 1 {
      ForwardAt(prev[..|prev| - 1], status, i);
    }
  }

  lemma EpochsAreListed(prev: seq<Link>, e: int)
    ensures e in Epochs(prev) <==> Lists(prev, e)
  {
    if e in Epochs(prev) {
      var l :| l in prev && l.epoch == e;
      var i :| 0 <= i < |prev| && prev[i] == l;
    }
  }

  lemma {:induction false} ForwardAreHistory(h: Hist, prev: seq<Link>, status: int)
    requires forall i :: 0 <= i < |prev| ==> prev[i].epoch in h && h[prev[i].epoch] == prev[i].cid
    ensures forall x :: x in EntriesForward(prev, status) ==> x in h && EntriesForward(prev, status)[x].cid == h[x]
  {
    if prev != [] {
      ForwardAreHistory(h, prev[..|prev| - 1], status);
    }
  }

  // One level of a walk: it does nothing, or marks the gaps, maybe goes deeper, and absorbs the links.
  lemma WalkOnce(cfg: Config, ipfs: Ipfs, s: Cache, cid: string, e: int, now: int, depth: nat)
    ensures var t := Walk(cfg, ipfs, s, cid, e, now, depth);
            || t == s
            || (&& cid in ipfs && ipfs[cid].prev != [] && cfg.keep
                && var prev := ipfs[cid].prev;
                   var s1 := s.(blank := s.blank + Elems(Gaps(prev, prev[0].epoch, e)));
                   t == Absorb(if depth < MAX_RECURSION_DEPTH && prev[0].epoch !in s.hash
                               then Walk(cfg, ipfs, s1, prev[0].cid, prev[0].epoch, now, depth + 1) else s1, prev, now))
  {
  }

  lemma AbsorbImproves(h: Hist, s: Cache, prev: seq<Link>, e: int, now: int, self: set<int>)
    requires SoundBut(h, s, self) && ListsHistory(h, prev, e)
    ensures Improves(h, s, Absorb(s, prev, now), self)
  {
    hide Entries;
    hide Scores;
    EntriesAreHistory(h, prev, e, SUBMITTED);
    CacheLinks(h, s, Entries(prev, SUBMITTED), self);
  }

  /** process_snapshot_cid keeps the cache sound, wherever in the history it starts, whatever part
      of the chain can be fetched, and whether or not the bitmap rejects a range. */
  lemma {:induction false} WalkImproves(
      cfg: Config, h: Hist, ipfs: Ipfs, s: Cache, e: int, now: int, depth: nat, self: set<int>)
    requires Consistent(h, ipfs) && SoundBut(h, s, self) && e in h
    ensures Improves(h, s, Walk(cfg, ipfs, s, h[e], e, now, depth), self)
    decreases if depth < MAX_RECURSION_DEPTH then MAX_RECURSION_DEPTH - depth else 0
  {
    hide Walk;
    hide Gaps;
    hide HasNull;
    hide Absorb;
    var cid := h[e];
    WalkOnce(cfg, ipfs, s, cid, e, now, depth);
    var t := Walk(cfg, ipfs, s, cid, e, now, depth);
    if t != s {
      var prev := ipfs[cid].prev;
      var s1 := s.(blank := s.blank + Elems(Gaps(prev, prev[0].epoch, e)));
      MarkGaps(h, s, prev, e, e, self);
      var s2 := s1;
      if depth < MAX_RECURSION_DEPTH && prev[0].epoch !in s.hash {
        WalkImproves(cfg, h, ipfs, s1, prev[0].epoch, now, depth + 1, self);
        s2 := Walk(cfg, ipfs, s1, prev[0].cid, prev[0].epoch, now, depth + 1);
        ImprovesTrans(h, s, s1, s2, self);
      }
      AbsorbImproves(h, s2, prev, e, now, self);
      ImprovesTrans(h, s, s2, t, self);
    }
  }

  // The bitmap accepts every range of blank candidates the contract fetch may mark.
  ghost predicate GapsFit(cfg: Config, h: Hist, ipfs: Ipfs) {
    forall e :: e in h ==>
      var prev := PrevOf(ipfs, h[e]);
      prev != [] ==> cfg.Accepts(Gaps(prev, prev[0].epoch, e + 1))
  }

  // The contract has settled epoch e: it reports the history's CID, with a timestamp.
  ghost predicate Settled(h: Hist, w: World, e: int) {
    e in h ==> w.statusOf(e).cid == h[e] && w.statusOf(e).timestamp != 0
  }

  ghost function Expected(h: Hist, e: int): string {
    if e in h then h[e] else NullCid(e)
  }

  // The entries a successful contract fetch of e adds last, its own among them.
  lemma FinalizeImproves(h: Hist, t: Cache, prev: seq<Link>, st: Consensus, e: int, self: set<int>)
    requires SoundBut(h, t, self + {e}) && e in h && h[e] == st.cid && ListsHistory(h, prev, e)
    ensures var u := t.(hash := Finalize(t.hash, prev, st, e));
            Improves(h, t, u, self + {e}) && SoundBut(h, u, self) && e in u.hash
  {
    hide EntriesForward;
    ForwardAreHistory(h, prev, st.status + 1);
    var add := map[e := Entry(st.cid, st.status + 1)] + EntriesForward(prev, st.status + 1);
    assert Finalize(t.hash, prev, st, e) == t.hash + add;
    CacheLinks(h, t, add, self + {e});
    hide Finalize;
  }

  lemma Unchanged(h: Hist, s: Cache, e: int, self: set<int>)
    requires SoundBut(h, s, self)
    ensures Improves(h, s, s, self + {e}) && SoundBut(h, s, self + {e})
    ensures e !in h ==> var t := s.(blank := s.blank + {e}); Improves(h, s, t, self + {e}) && SoundBut(h, t, self)
  {
  }

  // The successful branch of a contract fetch.
  lemma CachedFetch(cfg: Config, h: Hist, w: World, s: Cache, e: int, now: int, self: set<int>)
    requires Consistent(h, w.ipfs) && SoundBut(h, s, self) && e in h && w.statusOf(e).cid == h[e]
    ensures var st := w.statusOf(e);
            var prev := PrevOf(w.ipfs, st.cid);
            var gaps := if prev == [] then [] else Gaps(prev, prev[0].epoch, e + 1);
            var t := Walk(cfg, w.ipfs, s.(blank := s.blank + Elems(gaps)), st.cid, e, now, 0);
            forall u: Cache :: u.blank == t.blank && u.hash == Finalize(t.hash, prev, st, e) ==>
              Improves(h, s, u, self + {e}) && SoundBut(h, u, self)
    ensures var st := w.statusOf(e);
            var u := s.(hash := Finalize(s.hash, PrevOf(w.ipfs, st.cid), st, e));
            Improves(h, s, u, self + {e}) && SoundBut(h, u, self)
  {
    hide Walk;
    hide Gaps;
    hide HasNull;
    hide Finalize;
    var st := w.statusOf(e);
    var prev := PrevOf(w.ipfs, st.cid);
    var gaps := if prev == [] then [] else Gaps(prev, prev[0].epoch, e + 1);
    Unchanged(h, s, e, self);
    FinalizeImproves(h, s, prev, st, e, self);
    var marked := s.(blank := s.blank + Elems(gaps));
    if prev != [] {
      MarkGaps(h, s, prev, e, e + 1, self + {e});
    } else {
      assert marked.blank == s.blank;
    }
    WalkImproves(cfg, h, w.ipfs, marked, e, now, 0, self + {e});
    var t := Walk(cfg, w.ipfs, marked, st.cid, e, now, 0);
    ImprovesTrans(h, s, marked, t, self + {e});
    FinalizeImproves(h, t, prev, st, e, self);
    ImprovesTrans(h, s, t, t.(hash := Finalize(t.hash, prev, st, e)), self + {e});
  }

  // A contract fetch from a cache that is sound but for some epochs.
  lemma FetchImprovesFrom(cfg: Config, h: Hist, w: World, s: Cache, e: int, now: int, self: set<int>)
    requires Consistent(h, w.ipfs) && Faithful(h, w) && SoundBut(h, s, self)
    ensures Improves(h, s, Fetch(cfg, w, s, e, now).0, self + {e}) && SoundBut(h, Fetch(cfg, w, s, e, now).0, self)
  {
    hide Walk;
    hide Gaps;
    hide HasNull;
    hide Finalize;
    hide Scores;
    hide SoundBut;
    hide Improves;
    hide PrevOf;
    var st := w.statusOf(e);
    Unchanged(h, s, e, self);
    if st.cid != "" {
      assert e in h && h[e] == st.cid && !HasNull(st.cid);
      CachedFetch(cfg, h, w, s, e, now, self);
    }
  }

  /** w3_get_and_cache_finalized_cid keeps the cache sound although it marks the epoch it fetches
      as blank before caching its CID, and answers with the history's CID or with null. */
  lemma FetchImproves(cfg: Config, h: Hist, w: World, s: Cache, e: int, now: int)
    requires Consistent(h, w.ipfs) && Faithful(h, w) && Sound(h, s)
    ensures Improves(h, s, Fetch(cfg, w, s, e, now).0, {e}) && Sound(h, Fetch(cfg, w, s, e, now).0)
    ensures var r := Fetch(cfg, w, s, e, now).1;
            r.Ok? ==> r.value == NullCid(e) || (e in h && r.value == h[e])
    ensures cfg.ValidId(e) ==> Fetch(cfg, w, s, e, now).1.Ok?
  {
    hide Walk;
    hide Gaps;
    hide HasNull;
    hide Finalize;
    hide Scores;
    hide SoundBut;
    hide Improves;
    hide PrevOf;
    FetchImprovesFrom(cfg, h, w, s, e, now, {});
    assert {} + {e} == {e};
  }

  // The contract reports a usable CID for e.
  ghost predicate Reports(w: World, e: int) {
    var st := w.statusOf(e);
    !(e > w.current - 10 && st.timestamp == 0) && st.cid != "" && !HasNull(st.cid)
  }

  ghost function FetchGaps(w: World, e: int): seq<int> {
    var prev := PrevOf(w.ipfs, w.statusOf(e).cid);
    if prev == [] then [] else Gaps(prev, prev[0].epoch, e + 1)
  }

  // What the hash holds for epoch x after e was fetched, on top of an earlier hash.
  ghost predicate Written(w: World, e: int, before: map<int, Entry>, after: map<int, Entry>, x: int) {
    var st := w.statusOf(e);
    var prev := PrevOf(w.ipfs, st.cid);
    if Lists(prev, x) then x in after && Link(x, after[x].cid) in prev && after[x].status == st.status + 1
    else if x == e then x in after && after[x] == Entry(st.cid, st.status + 1)
    else if x in before then x in after && after[x] == before[x]
    else x !in after
  }

  lemma FinalizeWrites(w: World, e: int, hash: map<int, Entry>, x: int)
    ensures Written(w, e, hash, Finalize(hash, PrevOf(w.ipfs, w.statusOf(e).cid), w.statusOf(e), e), x)
  {
    hide EntriesForward;
    hide Lists;
    var prev := PrevOf(w.ipfs, w.statusOf(e).cid);
    ForwardEpochs(prev, w.statusOf(e).status + 1);
    EpochsAreListed(prev, x);
  }

  /** A successful contract fetch of e: e and every link its snapshot lists have the contract's status
      and expire seven days from now, the gaps up to e, e itself among them, are blank, and every
      other entry, score and mark is what the walk left. */
  lemma FetchSucceeds(cfg: Config, w: World, s: Cache, e: int, now: int, x: int)
    requires Reports(w, e) && cfg.Accepts(FetchGaps(w, e))
    ensures var st := w.statusOf(e);
            var prev := PrevOf(w.ipfs, st.cid);
            var u := Walk(cfg, w.ipfs, s.(blank := s.blank + Elems(FetchGaps(w, e))), st.cid, e, now, 0);
            var (t, r) := Fetch(cfg, w, s, e, now);
            && r == Ok(st.cid) && Written(w, e, u.hash, t.hash, x)
            && (if x == e || Lists(prev, x) then x in t.expiry && t.expiry[x] == now + 604800
                else (x in t.expiry <==> x in u.expiry) && (x in u.expiry ==> t.expiry[x] == u.expiry[x]))
            && t.blank == u.blank && s.blank <= t.blank
            && (prev != [] && prev[0].epoch <= x <= e && !Lists(prev, x) ==> x in t.blank)
  {
    hide Walk;
    hide Gaps;
    hide HasNull;
    hide Finalize;
    hide Scores;
    hide Entries;
    hide Lists;
    var st := w.statusOf(e);
    var prev := PrevOf(w.ipfs, st.cid);
    var s1 := s.(blank := s.blank + Elems(FetchGaps(w, e)));
    var u := Walk(cfg, w.ipfs, s1, st.cid, e, now, 0);
    WalkGrows(cfg, w.ipfs, s1, st.cid, e, now, 0);
    FinalizeWrites(w, e, u.hash, x);
    EntriesOf(prev, SUBMITTED, now + ENTRY_EXPIRY);
    assert x in Scores(prev, now + ENTRY_EXPIRY).Keys <==> x in Entries(prev, SUBMITTED).Keys;
    if prev != [] {
      GapsElems(prev, prev[0].epoch, e + 1);
    }
  }

  /** The other outcomes: the rejected gaps leave hash entries without scores or marks and answer
      null; a pending epoch changes nothing; an epoch without a CID is marked blank, or rejected. */
  lemma FetchOtherwise(cfg: Config, w: World, s: Cache, e: int, now: int, x: int)
    ensures var (t, r) := Fetch(cfg, w, s, e, now);
            if Reports(w, e) then
              !cfg.Accepts(FetchGaps(w, e)) ==>
                Written(w, e, s.hash, t.hash, x) && t.expiry == s.expiry && t.blank == s.blank && r == Ok(NullCid(e))
            else if e > w.current - 10 && w.statusOf(e).timestamp == 0 then t == s && r == Ok(NullCid(e))
            else if cfg.ValidId(e) then t == s.(blank := s.blank + {e}) && r == Ok(NullCid(e))
            else t == s && r == Err(ValueError)
  {
    hide Walk;
    hide Gaps;
    hide HasNull;
    hide Finalize;
    hide Scores;
    FinalizeWrites(w, e, s.hash, x);
  }

  /** When the contract has settled e and the bitmap accepts the gaps, the answer is exact, and the
      cache will give it again: with the CID of e and of every link its snapshot lists, or with the
      blank mark once e can no longer be pending. */
  lemma FetchIsExact(cfg: Config, h: Hist, w: World, s: Cache, e: int, now: int)
    requires Consistent(h, w.ipfs) && Faithful(h, w)
    requires Settled(h, w, e) && GapsFit(cfg, h, w.ipfs) && cfg.ValidId(e)
    ensures var (t, r) := Fetch(cfg, w, s, e, now);
            && r == Ok(Expected(h, e))
            && (e in h ==> e in t.hash && Epochs(PrevOf(w.ipfs, h[e])) <= t.hash.Keys)
            && (e !in h && (e <= w.current - 10 || w.statusOf(e).timestamp != 0) ==> e in t.blank)
  {
    hide Walk;
    hide Gaps;
    hide HasNull;
    hide EntriesForward;
    hide Scores;
    if e in h {
      ForwardEpochs(PrevOf(w.ipfs, h[e]), w.statusOf(e).status + 1);
    }
  }

  lemma {:induction false} BatchMembers(h: Hist, w: World, ids: seq<int>)
    requires Faithful(h, w)
    ensures forall e :: e in BatchData(w, ids) ==> e in h && BatchData(w, ids)[e].cid == h[e]
    ensures forall e :: e in BatchBlanks(w, ids) ==> e in ids && e !in h
    ensures |BatchBlanks(w, ids)| <= |ids|
  {
    if ids != [] {
      var front, e := ids[..|ids| - 1], ids[|ids| - 1];
      BatchMembers(h, w, front);
      assert ids == front + [e];
      assert w.statusOf(e) == w.statusOf(e);
    }
  }

  // Every answered epoch of a batch is remembered, with its CID or as blank.
  lemma BatchRemembers(cfg: Config, w: World, s: Cache, ids: seq<int>, now: int, e: int)
    requires cfg.Accepts(BatchBlanks(w, ids)) && e in ids && w.statusOf(e).timestamp != 0
    ensures var t, st := Batch(cfg, w, s, ids, now), w.statusOf(e);
            if st.cid == "" then e in t.blank
            else
              && e in t.hash && t.hash[e] == Entry(st.cid, st.status)
              && e in t.expiry && t.expiry[e] == now + 604800
  {
    Remembered(w, ids, e);
  }

  lemma {:induction false} Remembered(w: World, ids: seq<int>, e: int)
    requires e in ids && w.statusOf(e).timestamp != 0
    ensures var st := w.statusOf(e);
            if st.cid == "" then e in BatchBlanks(w, ids)
            else e in BatchData(w, ids) && BatchData(w, ids)[e] == Entry(st.cid, st.status)
  {
    var front, last := ids[..|ids| - 1], ids[|ids| - 1];
    assert ids == front + [last];
    if e in front {
      Remembered(w, front, e);
    }
  }

  // A batch touches no other epoch.
  lemma BatchFrame(cfg: Config, w: World, s: Cache, ids: seq<int>, now: int, x: int)
    requires x !in ids
    ensures var t := Batch(cfg, w, s, ids, now);
            && (x in t.hash <==> x in s.hash) && (x in s.hash ==> t.hash[x] == s.hash[x])
            && (x in t.expiry <==> x in s.expiry) && (x in s.expiry ==> t.expiry[x] == s.expiry[x])
            && (x in t.blank <==> x in s.blank)
  {
    BatchKeys(w, ids, x);
  }

  lemma {:induction false} BatchKeys(w: World, ids: seq<int>, x: int)
    ensures x in BatchData(w, ids) || x in BatchBlanks(w, ids) ==> x in ids
  {
    if ids != [] {
      BatchKeys(w, ids[..|ids| - 1], x);
      assert ids == ids[..|ids| - 1] + [ids[|ids| - 1]];
    }
  }

  lemma MarkBlanks(h: Hist, s: Cache, blanks: seq<int>, self: set<int>)
    requires SoundBut(h, s, self) && forall e :: e in blanks ==> e !in h
    ensures Improves(h, s, s.(blank := s.blank + Elems(blanks)), self)
  {
    var t := s.(blank := s.blank + Elems(blanks));
    forall x | x in t.blank && x in h ensures x in s.blank && (x in s.hash || x in self) {
      assert x !in blanks;
    }
    forall x | x in Marked(t) ensures x in Marked(s) {
    }
  }

  lemma BatchSnoc(w: World, ids: seq<int>, k: nat, score: int)
    requires k < |ids|
    ensures var e, st := ids[k], w.statusOf(ids[k]);
            var cached, blank := st.timestamp != 0 && st.cid != "", st.timestamp != 0 && st.cid == "";
            var data, scores := BatchData(w, ids[..k]), BatchScores(w, ids[..k], score);
            var blanks := BatchBlanks(w, ids[..k]);
            && BatchData(w, ids[..k + 1]) == (if cached then data[e := Entry(st.cid, st.status)] else data)
            && BatchScores(w, ids[..k + 1], score) == (if cached then scores[e := score] else scores)
            && BatchBlanks(w, ids[..k + 1]) == if blank then blanks + [e] else blanks
    ensures BatchData(w, ids[..0]) == map[] && BatchScores(w, ids[..0], score) == map[]
    ensures BatchBlanks(w, ids[..0]) == []
  {
    assert ids[..k + 1][..k] == ids[..k];
  }

  lemma BatchImproves(cfg: Config, h: Hist, w: World, s: Cache, ids: seq<int>, now: int, self: set<int>)
    requires Faithful(h, w) && SoundBut(h, s, self)
    ensures Improves(h, s, Batch(cfg, w, s, ids, now), self)
  {
    hide BatchData;
    hide BatchBlanks;
    BatchMembers(h, w, ids);
    var t := s.(blank := s.blank + Elems(BatchBlanks(w, ids)));
    MarkBlanks(h, s, BatchBlanks(w, ids), self);
    CacheLinks(h, t, BatchData(w, ids), self);
  }
}
