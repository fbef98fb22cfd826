/** One project's cached view of its history, and what walking a snapshot chain does to it. */
module CacheModel {
  import opened Common
  import opened Text
  import opened History

  const MAX_RECURSION_DEPTH := 50
  const ENTRY_EXPIRY := 604800
  const SUBMITTED := 0

  // A project data hash value: {"snapshot_cid": ..., "status": ...}
  datatype Entry = Entry(cid: string, status: int)

  // hash: the project data hash; blank: the blank-epoch bitmap; expiry: this project's members
  // of the expiry set.
  datatype Cache = Cache(hash: map<int, Entry>, blank: set<int>, expiry: map<int, int>)

  // The bitmap's bounds and the project's keep_previous_snapshot_data flag.
  datatype Config = Config(offset: int, maxBatch: int, keep: bool) {
    predicate ValidId(id: int) {
      0 <= id - offset < MAX_BIT
    }

    // What set_bits_in_range accepts without raising.
    predicate Accepts(ids: seq<int>) {
      ids == [] || (|ids| <= maxBatch && forall k :: 0 <= k < |ids| ==> ValidId(ids[k]))
    }
  }

  ghost function Epochs(links: seq<Link>): set<int> {
    set l | l in links :: l.epoch
  }

  // data_to_cache, built from the newest link to the oldest.
  function Entries(links: seq<Link>, status: int): map<int, Entry> {
    if links == [] then map[]
    else Entries(links[1..], status)[links[0].epoch := Entry(links[0].cid, status)]
  }

  function Scores(links: seq<Link>, score: int): map<int, int> {
    if links == [] then map[] else Scores(links[1..], score)[links[0].epoch := score]
  }

  // sorted(set(range(lo, hi)) - epochs of links)
  function Gaps(links: seq<Link>, lo: int, hi: int): seq<int> {
    Absent(links, Range(lo, hi))
  }

  predicate Lists(links: seq<Link>, e: int) {
    exists i :: 0 <= i < |links| && links[i].epoch == e
  }

  lemma ListsSplit(a: seq<Link>, b: seq<Link>, e: int)
    ensures Lists(a + b, e) <==> Lists(a, e) || Lists(b, e)
  {
    if i :| 0 <= i < |a| && a[i].epoch == e {
      assert (a + b)[i].epoch == e;
    }
    if i :| 0 <= i < |b| && b[i].epoch == e {
      assert (a + b)[|a| + i].epoch == e;
    }
  }

  lemma ListsSnoc(links: seq<Link>, k: nat, e: int)
    requires k < |links|
    ensures Lists(links[..k + 1], e) <==> Lists(links[..k], e) || links[k].epoch == e
  {
  }

  function Absent(links: seq<Link>, es: seq<int>): seq<int> {
    if es == [] then [] else
    var front, e := es[..|es| - 1], es[|es| - 1];
    if Lists(links, e) then Absent(links, front) else Absent(links, front) + [e]
  }

  lemma {:induction false} AbsentElems(links: seq<Link>, es: seq<int>)
    ensures forall e :: e in Absent(links, es) <==> e in es && !Lists(links, e)
    ensures |Absent(links, es)| <= |es|
  {
    if es != [] {
      AbsentElems(links, es[..|es| - 1]);
      assert es == es[..|es| - 1] + [es[|es| - 1]];
    }
  }

  ghost function GapSet(links: seq<Link>, lo: int, hi: int): set<int> {
    set e | lo <= e < hi && !Lists(links, e)
  }

  lemma GapsElems(links: seq<Link>, lo: int, hi: int)
    ensures Elems(Gaps(links, lo, hi)) == GapSet(links, lo, hi)
    ensures |Gaps(links, lo, hi)| <= Max(0, hi - lo)
  {
    AbsentElems(links, Range(lo, hi));
  }

  lemma {:induction false} EntriesOf(links: seq<Link>, status: int, score: int)
    ensures forall e :: e in Entries(links, status) <==> Lists(links, e)
    ensures Scores(links, score).Keys == Entries(links, status).Keys
    ensures forall e :: e in Entries(links, status) ==>
              Link(e, Entries(links, status)[e].cid) in links && Entries(links, status)[e].status == status
    ensures forall e :: e in Scores(links, score) ==> Scores(links, score)[e] == score
  {
    if links != [] {
      EntriesOf(links[1..], status, score);
      assert links == [links[0]] + links[1..];
      forall e ensures Lists(links, e) <==> links[0].epoch == e || Lists(links[1..], e) {
        if i :| 0 <= i < |links[1..]| && links[1..][i].epoch == e {
          assert links[i + 1].epoch == e;
        }
        if i :| 0 <= i < |links| && links[i].epoch == e {
          assert i == 0 || links[1..][i - 1].epoch == e;
        }
      }
    }
  }

  // Of several links for one epoch the oldest listed counts.
  lemma {:induction false} EntriesAt(links: seq<Link>, status: int, i: nat)
    requires i < |links| && forall j :: 0 <= j < i ==> links[j].epoch != links[i].epoch
    ensures var e := links[i].epoch;
            e in Entries(links, status) && Entries(links, status)[e] == Entry(links[i].cid, status)
  {
    if i > 0 {
      EntriesAt(links[1..], status, i - 1);
    }
  }

  /** process_snapshot_cid: cache every link the snapshot lists, mark the epochs between them
      blank, and go on from the oldest link while it is unknown and the depth allows. The hash
      writes of a level wait in a pipeline until the levels below it are done. */
  ghost function Walk(cfg: Config, ipfs: Ipfs, s: Cache, cid: string, epoch: int, now: int, depth: nat): Cache
    decreases if depth < MAX_RECURSION_DEPTH then MAX_RECURSION_DEPTH - depth else 0
  {
    if HasNull(cid) || !cfg.keep || cid !in ipfs || ipfs[cid].prev == [] then s else
    var prev := ipfs[cid].prev;
    var gaps := Gaps(prev, prev[0].epoch, epoch);
    if !cfg.Accepts(gaps) then s else
    var s1 := s.(blank := s.blank + Elems(gaps));
    var s2 := if depth < MAX_RECURSION_DEPTH && prev[0].epoch !in s.hash
              then Walk(cfg, ipfs, s1, prev[0].cid, prev[0].epoch, now, depth + 1) else s1;
    Absorb(s2, prev, now)
  }

  function Absorb(s: Cache, prev: seq<Link>, now: int): Cache {
    s.(hash := s.hash + Entries(prev, SUBMITTED), expiry := s.expiry + Scores(prev, now + ENTRY_EXPIRY))
  }

  /** The walk does not need the snapshots below: whatever is stored, a snapshot that can be fetched
      and whose gaps the bitmap accepts leaves every epoch it lists cached, with a CID it lists and a
      fresh score, and every epoch between its oldest link and itself that it does not list blank. */
  lemma WalkCachesItsLinks(
      cfg: Config, ipfs: Ipfs, s: Cache, cid: string, epoch: int, now: int, depth: nat, e: int)
    requires cfg.keep && cid in ipfs && !HasNull(cid) && ipfs[cid].prev != []
    requires cfg.Accepts(Gaps(ipfs[cid].prev, ipfs[cid].prev[0].epoch, epoch))
    ensures var t, prev := Walk(cfg, ipfs, s, cid, epoch, now, depth), ipfs[cid].prev;
            && (Lists(prev, e) ==>
                  && e in t.hash && Link(e, t.hash[e].cid) in prev && t.hash[e].status == 0
                  && e in t.expiry && t.expiry[e] == now + 604800)
            && (prev[0].epoch <= e < epoch && !Lists(prev, e) ==> e in t.blank)
  {
    hide HasNull;
    hide Lists;
    hide Entries;
    hide Scores;
    hide Gaps;
    var prev := ipfs[cid].prev;
    var s1 := s.(blank := s.blank + Elems(Gaps(prev, prev[0].epoch, epoch)));
    GapsElems(prev, prev[0].epoch, epoch);
    EntriesOf(prev, SUBMITTED, now + ENTRY_EXPIRY);
    WalkGrows(cfg, ipfs, s1, prev[0].cid, prev[0].epoch, now, depth + 1);
    assert e in Scores(prev, now + ENTRY_EXPIRY).Keys <==> e in Entries(prev, SUBMITTED).Keys;
  }

  ghost predicate Rescored(before: map<int, int>, after: map<int, int>, now: int) {
    forall x :: x in before ==> x in after && (after[x] == before[x] || after[x] == now + 604800)
  }

  // A walk forgets nothing, and every score it changes is fresh.
  lemma {:induction false} WalkGrows(cfg: Config, ipfs: Ipfs, s: Cache, cid: string, epoch: int, now: int, depth: nat)
    ensures var t := Walk(cfg, ipfs, s, cid, epoch, now, depth);
            && s.hash.Keys <= t.hash.Keys && s.expiry.Keys <= t.expiry.Keys && s.blank <= t.blank
            && Rescored(s.expiry, t.expiry, now)
    decreases if depth < MAX_RECURSION_DEPTH then MAX_RECURSION_DEPTH - depth else 0
  {
    hide HasNull;
    hide Entries;
    hide Scores;
    hide Gaps;
    if cid in ipfs && ipfs[cid].prev != [] {
      var prev := ipfs[cid].prev;
      EntriesOf(prev, SUBMITTED, now + ENTRY_EXPIRY);
      if depth < MAX_RECURSION_DEPTH {
        var s1 := s.(blank := s.blank + Elems(Gaps(prev, prev[0].epoch, epoch)));
        WalkGrows(cfg, ipfs, s1, prev[0].cid, prev[0].epoch, now, depth + 1);
      }
    }
  }

  // The last level changes nothing but its own links and gaps.
  lemma LastLevelOnly(cfg: Config, ipfs: Ipfs, s: Cache, cid: string, epoch: int, now: int, depth: nat, e: int)
    requires depth >= 50 && cid in ipfs && !Lists(ipfs[cid].prev, e)
    ensures var t, prev := Walk(cfg, ipfs, s, cid, epoch, now, depth), ipfs[cid].prev;
            && (e in t.hash <==> e in s.hash) && (e in s.hash ==> t.hash[e] == s.hash[e])
            && (e in t.expiry <==> e in s.expiry) && (e in s.expiry ==> t.expiry[e] == s.expiry[e])
            && (e in t.blank ==> e in s.blank || (prev != [] && prev[0].epoch <= e < epoch))
  {
    hide HasNull;
    hide Entries;
    hide Scores;
    hide Gaps;
    hide Lists;
    var prev := ipfs[cid].prev;
    EntriesOf(prev, SUBMITTED, now + ENTRY_EXPIRY);
    assert e in Scores(prev, now + ENTRY_EXPIRY).Keys <==> e in Entries(prev, SUBMITTED).Keys;
    if prev != [] {
      GapsElems(prev, prev[0].epoch, epoch);
    }
  }
}
