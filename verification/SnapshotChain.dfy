/** Reading back what the snapshot writer recorded. */
module SnapshotChain {
  import opened Common
  import opened Text
  import opened History
  import opened CacheModel
  import opened SnapshotWriter

  // How many levels one walk has, and how many commits they can cover at 200 links each.
  const LEVELS := 51
  const REACH := 10200

  // Commit n's snapshot can be fetched, and the bitmap accepts the blank epochs between it and the
  // oldest link it lists.
  ghost predicate LevelFits(cfg: Config, ipfs: Ipfs, c: seq<Link>, n: nat)
    requires n < |c|
  {
    c[n].cid in ipfs && cfg.Accepts(Gaps(c[WindowStart(n)..n], c[WindowStart(n)].epoch, c[n].epoch))
  }

  // The oldest commit a walk from commit n caches: known epochs, the depth bound, snapshots that
  // cannot be fetched and gaps that the bitmap rejects stop it.
  ghost function Oldest(cfg: Config, ipfs: Ipfs, c: seq<Link>, known: set<int>, n: nat, depth: nat): (r: nat)
    requires n < |c|
    ensures r <= n
    decreases n
  {
    if n == 0 then 0 else
    var lo := WindowStart(n);
    if !LevelFits(cfg, ipfs, c, n) then n
    else if depth < MAX_RECURSION_DEPTH && c[lo].epoch !in known then Oldest(cfg, ipfs, c, known, lo, depth + 1)
    else lo
  }

  // The first levels of a walk from commit n, at commits n, n - 200, ..., all fit.
  ghost predicate Fits(cfg: Config, ipfs: Ipfs, c: seq<Link>, n: nat, levels: nat)
    requires n < |c|
  {
    forall k :: 0 <= k < levels && CHAIN_LIMIT * k < n ==> LevelFits(cfg, ipfs, c, n - CHAIN_LIMIT * k)
  }

  lemma FitsBelow(cfg: Config, ipfs: Ipfs, c: seq<Link>, n: nat, levels: nat)
    requires CHAIN_LIMIT < n < |c| && levels > 0
    ensures Fits(cfg, ipfs, c, n, levels) <==>
            LevelFits(cfg, ipfs, c, n) && Fits(cfg, ipfs, c, n - CHAIN_LIMIT, levels - 1)
  {
    hide LevelFits;
    var lo := n - CHAIN_LIMIT;
    if Fits(cfg, ipfs, c, n, levels) {
      assert LevelFits(cfg, ipfs, c, n - CHAIN_LIMIT * 0);
      forall k | 0 <= k < levels - 1 && CHAIN_LIMIT * k < lo ensures LevelFits(cfg, ipfs, c, lo - CHAIN_LIMIT * k) {
        assert LevelFits(cfg, ipfs, c, n - CHAIN_LIMIT * (k + 1));
      }
    }
    if LevelFits(cfg, ipfs, c, n) && Fits(cfg, ipfs, c, lo, levels - 1) {
      forall k | 0 <= k < levels && CHAIN_LIMIT * k < n ensures LevelFits(cfg, ipfs, c, n - CHAIN_LIMIT * k) {
        if k > 0 {
          assert LevelFits(cfg, ipfs, c, lo - CHAIN_LIMIT * (k - 1));
        }
      }
    }
  }

  lemma {:induction false} OldestFromNothing(cfg: Config, ipfs: Ipfs, c: seq<Link>, n: nat, depth: nat)
    requires n < |c| && depth <= MAX_RECURSION_DEPTH
    ensures var levels := MAX_RECURSION_DEPTH + 1 - depth;
            && (Fits(cfg, ipfs, c, n, levels) ==>
                  Oldest(cfg, ipfs, c, {}, n, depth) == Max(0, n - CHAIN_LIMIT * levels))
            && (Oldest(cfg, ipfs, c, {}, n, depth) == 0 <==> n <= CHAIN_LIMIT * levels && Fits(cfg, ipfs, c, n, levels))
    decreases n
  {
    hide LevelFits;
    var levels := MAX_RECURSION_DEPTH + 1 - depth;
    if n > CHAIN_LIMIT {
      FitsBelow(cfg, ipfs, c, n, levels);
      if depth < MAX_RECURSION_DEPTH {
        OldestFromNothing(cfg, ipfs, c, n - CHAIN_LIMIT, depth + 1);
      }
    } else if n > 0 {
      if LevelFits(cfg, ipfs, c, n) {
        forall k | 0 <= k < levels && CHAIN_LIMIT * k < n ensures LevelFits(cfg, ipfs, c, n - CHAIN_LIMIT * k) {
          assert k == 0;
        }
      } else {
        assert !LevelFits(cfg, ipfs, c, n - CHAIN_LIMIT * 0);
      }
    }
  }

  // The cache after every commit in [r, n) was recorded and every other epoch from commit r up
  // to commit n was marked blank.
  ghost function Recovered(s: Cache, c: seq<Link>, r: nat, n: nat, now: int): Cache
    requires r <= n < |c|
  {
    Cache(s.hash + Entries(c[r..n], SUBMITTED),
          s.blank + GapSet(c[r..n], c[r].epoch, c[n].epoch),
          s.expiry + Scores(c[r..n], now + ENTRY_EXPIRY))
  }

  lemma MapInsert<K, V>(m: map<K, V>, a: map<K, V>, k: K, v: V)
    ensures (m + a)[k := v] == m + a[k := v]
  {
  }

  lemma MapSwap<K, V>(m: map<K, V>, a: map<K, V>, b: map<K, V>)
    requires a.Keys !! b.Keys
    ensures m + a + b == m + (b + a)
  {
  }

  lemma {:induction false} EntriesConcat(a: seq<Link>, b: seq<Link>, status: int)
    ensures Entries(a + b, status) == Entries(b, status) + Entries(a, status)
  {
    if a == [] {
      assert a + b == b;
    } else {
      assert (a + b)[1..] == a[1..] + b;
      EntriesConcat(a[1..], b, status);
      MapInsert(Entries(b, status), Entries(a[1..], status), a[0].epoch, Entry(a[0].cid, status));
    }
  }

  lemma {:induction false} ScoresConcat(a: seq<Link>, b: seq<Link>, score: int)
    ensures Scores(a + b, score) == Scores(b, score) + Scores(a, score)
  {
    if a == [] {
      assert a + b == b;
    } else {
      assert (a + b)[1..] == a[1..] + b;
      ScoresConcat(a[1..], b, score);
      MapInsert(Scores(b, score), Scores(a[1..], score), a[0].epoch, score);
    }
  }

  lemma SliceBounds(c: seq<Link>, r: nat, m: nat, e: int)
    requires r <= m < |c| && Increasing(c) && Lists(c[r..m], e)
    ensures c[r].epoch <= e < c[m].epoch
  {
    var i :| 0 <= i < m - r && c[r..m][i].epoch == e;
    assert c[r + i].epoch == e;
  }

  lemma GapJoin(c: seq<Link>, r: nat, m: nat, n: nat)
    requires r <= m <= n < |c| && Increasing(c)
    ensures GapSet(c[r..n], c[r].epoch, c[n].epoch)
         == GapSet(c[r..m], c[r].epoch, c[m].epoch) + GapSet(c[m..n], c[m].epoch, c[n].epoch)
  {
    assert c[r].epoch <= c[m].epoch <= c[n].epoch;
    hide Lists;
    forall e ensures e in GapSet(c[r..n], c[r].epoch, c[n].epoch) <==>
                     e in GapSet(c[r..m], c[r].epoch, c[m].epoch) + GapSet(c[m..n], c[m].epoch, c[n].epoch) {
      assert c[r..n] == c[r..m] + c[m..n];
      ListsSplit(c[r..m], c[m..n], e);
      if Lists(c[r..m], e) {
        SliceBounds(c, r, m, e);
      }
      if Lists(c[m..n], e) {
        SliceBounds(c, m, n, e);
      }
    }
  }

  // Recovering the older stretch first and the newer one on top is recovering both.
  lemma RecoveredJoin(s: Cache, c: seq<Link>, r: nat, m: nat, n: nat, now: int)
    requires r <= m <= n < |c| && Increasing(c)
    ensures s.hash + Entries(c[r..m], SUBMITTED) + Entries(c[m..n], SUBMITTED) == Recovered(s, c, r, n, now).hash
    ensures s.expiry + Scores(c[r..m], now + ENTRY_EXPIRY) + Scores(c[m..n], now + ENTRY_EXPIRY)
         == Recovered(s, c, r, n, now).expiry
  {
    hide Entries;
    hide Scores;
    hide Lists;
    var a, b, score := c[r..m], c[m..n], now + ENTRY_EXPIRY;
    assert c[r..n] == a + b;
    EntriesConcat(a, b, SUBMITTED);
    ScoresConcat(a, b, score);
    EntriesOf(a, SUBMITTED, score);
    EntriesOf(b, SUBMITTED, score);
    assert Entries(a, SUBMITTED).Keys !! Entries(b, SUBMITTED).Keys by {
      forall e | e in Entries(a, SUBMITTED) && e in Entries(b, SUBMITTED) ensures false {
        SliceBounds(c, r, m, e);
        SliceBounds(c, m, n, e);
      }
    }
    MapSwap(s.hash, Entries(a, SUBMITTED), Entries(b, SUBMITTED));
    MapSwap(s.expiry, Scores(a, score), Scores(b, score));
  }

  lemma RecoveredNothing(s: Cache, c: seq<Link>, n: nat, now: int)
    requires n < |c|
    ensures Recovered(s, c, n, n, now) == s
  {
    assert c[n..n] == [];
  }

  // One level of the walk, on whatever part of a chain can be fetched.
  lemma WalkLevel(cfg: Config, ipfs: Ipfs, s: Cache, c: seq<Link>, n: nat, now: int, depth: nat)
    requires n < |c| && Increasing(c) && ChainedPart(c, ipfs) && cfg.keep
    ensures n == 0 || !LevelFits(cfg, ipfs, c, n) ==> Walk(cfg, ipfs, s, c[n].cid, c[n].epoch, now, depth) == s
    ensures n > 0 && LevelFits(cfg, ipfs, c, n) ==>
      var lo := WindowStart(n);
      var s1 := s.(blank := s.blank + GapSet(c[lo..n], c[lo].epoch, c[n].epoch));
      var s2 := if depth < MAX_RECURSION_DEPTH && c[lo].epoch !in s.hash
                then Walk(cfg, ipfs, s1, c[lo].cid, c[lo].epoch, now, depth + 1) else s1;
      Walk(cfg, ipfs, s, c[n].cid, c[n].epoch, now, depth)
        == Absorb(s2, c[lo..n], now)
  {
    hide Entries;
    hide Scores;
    hide GapSet;
    hide HasNull;
    hide Gaps;
    if n > 0 {
      var lo := WindowStart(n);
      var prev := c[lo..n];
      assert prev == Recent(c[..n]) && prev[0] == c[lo];
      GapsElems(prev, c[lo].epoch, c[n].epoch);
    }
  }

  // Absorbing a level on top of what the levels below it recovered.
  lemma AbsorbLevel(s: Cache, c: seq<Link>, r: nat, n: nat, now: int)
    requires n < |c| && Increasing(c) && r <= WindowStart(n)
    ensures var lo := WindowStart(n);
            var s1 := s.(blank := s.blank + GapSet(c[lo..n], c[lo].epoch, c[n].epoch));
            && Absorb(Recovered(s1, c, r, lo, now), c[lo..n], now) == Recovered(s, c, r, n, now)
            && Absorb(s1, c[lo..n], now) == Recovered(s, c, lo, n, now)
  {
    hide Entries;
    hide Scores;
    hide GapSet;
    RecoveredJoin(s, c, r, WindowStart(n), n, now);
    GapJoin(c, r, WindowStart(n), n);
  }

  /** What one walk from commit n recovers, from any cache and whatever part of the chain can be
      fetched: exactly the commits from Oldest up to n, and exactly the commit-free epochs between. */
  lemma {:induction false} WalkRecovers(
      cfg: Config, ipfs: Ipfs, s: Cache, c: seq<Link>, n: nat, now: int, depth: nat)
    requires n < |c| && Increasing(c) && ChainedPart(c, ipfs) && cfg.keep
    ensures Walk(cfg, ipfs, s, c[n].cid, c[n].epoch, now, depth)
         == Recovered(s, c, Oldest(cfg, ipfs, c, s.hash.Keys, n, depth), n, now)
    decreases n
  {
    hide Entries;
    hide Scores;
    hide GapSet;
    hide Walk;
    hide Absorb;
    hide Recovered;
    hide ChainedPart;
    hide LevelFits;
    WalkLevel(cfg, ipfs, s, c, n, now, depth);
    if n == 0 || !LevelFits(cfg, ipfs, c, n) {
      RecoveredNothing(s, c, n, now);
    } else {
      var lo := WindowStart(n);
      var s1 := s.(blank := s.blank + GapSet(c[lo..n], c[lo].epoch, c[n].epoch));
      if depth < MAX_RECURSION_DEPTH && c[lo].epoch !in s.hash {
        var r := Oldest(cfg, ipfs, c, s.hash.Keys, lo, depth + 1);
        WalkRecovers(cfg, ipfs, s1, c, lo, now, depth + 1);
        AbsorbLevel(s, c, r, n, now);
      } else {
        AbsorbLevel(s, c, lo, n, now);
      }
    }
  }

  const EMPTY := Cache(map[], {}, map[])

  ghost predicate HasCommit(c: seq<Link>, r: nat, n: nat, e: int)
    requires r <= n <= |c|
  {
    exists i :: r <= i < n && c[i].epoch == e
  }

  lemma SliceLists(c: seq<Link>, r: nat, n: nat, e: int)
    requires r <= n <= |c|
    ensures Lists(c[r..n], e) <==> HasCommit(c, r, n, e)
  {
  }

  // s is exactly the record, made at time now, of commits r..n-1 of the history and of the gaps
  // between them.
  ghost predicate IsRecord(s: Cache, c: seq<Link>, r: nat, n: nat, now: int)
    requires r <= n < |c|
  {
    && (forall e :: e in s.hash <==> HasCommit(c, r, n, e))
    && (forall e :: e in s.hash ==> Link(e, s.hash[e].cid) in c && s.hash[e].status == SUBMITTED)
    && (forall e :: e in s.blank <==> c[r].epoch <= e < c[n].epoch && !HasCommit(c, 0, |c|, e))
    && s.expiry.Keys == s.hash.Keys && forall e :: e in s.expiry ==> s.expiry[e] == now + 604800
  }

  lemma RecoveredIsRecord(c: seq<Link>, r: nat, n: nat, now: int)
    requires r <= n < |c| && Increasing(c)
    ensures IsRecord(Recovered(EMPTY, c, r, n, now), c, r, n, now)
  {
    hide Entries;
    hide Scores;
    hide Lists;
    hide GapSet;
    hide HasCommit;
    hide Increasing;
    EntriesOf(c[r..n], SUBMITTED, now + ENTRY_EXPIRY);
    forall e ensures Lists(c[r..n], e) <==> HasCommit(c, r, n, e) {
      SliceLists(c, r, n, e);
    }
    forall e
      ensures e in GapSet(c[r..n], c[r].epoch, c[n].epoch)
         <==> c[r].epoch <= e < c[n].epoch && !HasCommit(c, 0, |c|, e)
    {
      GapRecord(c, r, n, e);
    }
  }

  lemma GapRecord(c: seq<Link>, r: nat, n: nat, e: int)
    requires r <= n < |c| && Increasing(c)
    ensures e in GapSet(c[r..n], c[r].epoch, c[n].epoch)
       <==> c[r].epoch <= e < c[n].epoch && !HasCommit(c, 0, |c|, e)
  {
    hide Lists;
    hide HasCommit;
    SliceLists(c, r, n, e);
    if c[r].epoch <= e < c[n].epoch {
      CommitBetween(c, r, n, e);
    }
  }

  lemma CommitBetween(c: seq<Link>, r: nat, n: nat, e: int)
    requires r <= n < |c| && Increasing(c) && c[r].epoch <= e < c[n].epoch
    ensures HasCommit(c, 0, |c|, e) <==> HasCommit(c, r, n, e)
  {
  }

  /** Chain recovery: from an empty cache, one walk from commit n caches exactly the at most 10200
      commits before it, with their CIDs, and marks blank exactly the epochs between them that
      have no commit in the whole history. */
  lemma ChainRecovery(cfg: Config, ipfs: Ipfs, c: seq<Link>, n: nat, now: int)
    requires n < |c| && Increasing(c) && ChainedPart(c, ipfs) && cfg.keep && Fits(cfg, ipfs, c, n, LEVELS)
    ensures IsRecord(Walk(cfg, ipfs, EMPTY, c[n].cid, c[n].epoch, now, 0), c, Max(0, n - 10200), n, now)
  {
    hide Walk;
    hide Oldest;
    WalkRecovers(cfg, ipfs, EMPTY, c, n, now, 0);
    OldestFromNothing(cfg, ipfs, c, n, 0);
    assert EMPTY.hash.Keys == {};
    RecoveredIsRecord(c, Max(0, n - REACH), n, now);
  }

  /** The whole history before the head is recovered exactly when at most 10200 commits precede it
      and on every level the snapshot can be fetched and the bitmap accepts the gaps. */
  lemma RecoveryIsCompleteIff(cfg: Config, ipfs: Ipfs, c: seq<Link>, n: nat, now: int)
    requires n < |c| && Increasing(c) && ChainedPart(c, ipfs) && cfg.keep
    ensures (forall i :: 0 <= i < n ==> c[i].epoch in Walk(cfg, ipfs, EMPTY, c[n].cid, c[n].epoch, now, 0).hash)
        <==> n <= 10200 && Fits(cfg, ipfs, c, n, LEVELS)
  {
    hide Walk;
    hide Oldest;
    hide Fits;
    WalkRecovers(cfg, ipfs, EMPTY, c, n, now, 0);
    OldestFromNothing(cfg, ipfs, c, n, 0);
    assert EMPTY.hash.Keys == {};
    var s, r := Walk(cfg, ipfs, EMPTY, c[n].cid, c[n].epoch, now, 0), Oldest(cfg, ipfs, c, {}, n, 0);
    RecoveredIsRecord(c, r, n, now);
    if r > 0 {
      assert !HasCommit(c, r, n, c[0].epoch);
    } else {
      forall i | 0 <= i < n ensures c[i].epoch in s.hash {
        assert HasCommit(c, r, n, c[i].epoch);
      }
    }
  }

  /** For instance, with only the head's own snapshot at hand. */
  lemma UnreachableOldest(cfg: Config, now: int)
    requires cfg.keep && cfg.maxBatch >= 3 && cfg.ValidId(3)
    ensures var ipfs := map["c4" := Snapshot([Link(1, "c1"), Link(2, "c2")], None, map[])];
            var t := Walk(cfg, ipfs, EMPTY, "c4", 4, now, 0);
            && 1 in t.hash && t.hash[1].cid == "c1" && 2 in t.hash && t.hash[2].cid == "c2" && 3 in t.blank
  {
    hide HasNull;
    hide Walk;
    hide Gaps;
    hide Lists;
    var prev := [Link(1, "c1"), Link(2, "c2")];
    var ipfs := map["c4" := Snapshot(prev, None, map[])];
    ShortHasNoNull("c4");
    TwoLinks(prev);
    GapsElems(prev, 1, 4);
    var gaps := Gaps(prev, 1, 4);
    forall k | 0 <= k < |gaps| ensures gaps[k] == 3 {
      var e := gaps[k];
      assert e in Elems(gaps);
    }
    WalkCachesItsLinks(cfg, ipfs, EMPTY, "c4", 4, now, 0, 1);
    WalkCachesItsLinks(cfg, ipfs, EMPTY, "c4", 4, now, 0, 2);
    WalkCachesItsLinks(cfg, ipfs, EMPTY, "c4", 4, now, 0, 3);
  }

  lemma TwoLinks(prev: seq<Link>)
    requires |prev| == 2 && prev[0].epoch == 1 && prev[1].epoch == 2
    ensures Lists(prev, 1) && Lists(prev, 2) && !Lists(prev, 3)
  {
  }

  // No link 200, 400, ... commits before commit n is known yet, nor beyond the depth bound.
  ghost predicate PathClear(c: seq<Link>, known: set<int>, n: nat, depth: nat)
    requires n < |c|
  {
    forall k :: 1 <= k && CHAIN_LIMIT * k < n ==>
      depth + k <= MAX_RECURSION_DEPTH && c[n - CHAIN_LIMIT * k].epoch !in known
  }

  /** From a cache that is not empty, the walk reaches the first commit exactly when every link
      200, 400, ... commits back is still unknown and within the depth bound and on every level the
      snapshot can be fetched and the gaps fit: one cached or unreachable oldest link stops it, however
      much is missing below. */
  lemma {:induction false} FullWalkIff(cfg: Config, ipfs: Ipfs, c: seq<Link>, known: set<int>, n: nat, depth: nat)
    requires n < |c| && depth <= MAX_RECURSION_DEPTH
    ensures Oldest(cfg, ipfs, c, known, n, depth) == 0 <==>
            PathClear(c, known, n, depth) && Fits(cfg, ipfs, c, n, MAX_RECURSION_DEPTH + 1 - depth)
    decreases n
  {
    hide LevelFits;
    var levels := MAX_RECURSION_DEPTH + 1 - depth;
    if n > CHAIN_LIMIT {
      var lo := n - CHAIN_LIMIT;
      FitsBelow(cfg, ipfs, c, n, levels);
      PathBelow(c, known, n, depth);
      if depth < MAX_RECURSION_DEPTH {
        FullWalkIff(cfg, ipfs, c, known, lo, depth + 1);
      }
    } else if n > 0 {
      if LevelFits(cfg, ipfs, c, n) {
        forall k | 0 <= k < levels && CHAIN_LIMIT * k < n ensures LevelFits(cfg, ipfs, c, n - CHAIN_LIMIT * k) {
          assert k == 0;
        }
      } else {
        assert !LevelFits(cfg, ipfs, c, n - CHAIN_LIMIT * 0);
      }
    }
  }

  /** Which is when it caches the first commit. */
  lemma WalkReachesFirstIff(cfg: Config, ipfs: Ipfs, s: Cache, c: seq<Link>, n: nat, now: int, depth: nat)
    requires 0 < n < |c| && Increasing(c) && ChainedPart(c, ipfs) && cfg.keep && depth <= MAX_RECURSION_DEPTH
    requires c[0].epoch !in s.hash
    ensures c[0].epoch in Walk(cfg, ipfs, s, c[n].cid, c[n].epoch, now, depth).hash <==>
            PathClear(c, s.hash.Keys, n, depth) && Fits(cfg, ipfs, c, n, 51 - depth)
  {
    hide Walk;
    hide Oldest;
    hide Fits;
    hide PathClear;
    hide Lists;
    hide Entries;
    var r := Oldest(cfg, ipfs, c, s.hash.Keys, n, depth);
    WalkRecovers(cfg, ipfs, s, c, n, now, depth);
    FullWalkIff(cfg, ipfs, c, s.hash.Keys, n, depth);
    EntriesOf(c[r..n], SUBMITTED, now);
    SliceLists(c, r, n, c[0].epoch);
    if r > 0 {
      assert !HasCommit(c, r, n, c[0].epoch);
    } else {
      assert HasCommit(c, r, n, c[0].epoch);
    }
  }

  lemma PathBelow(c: seq<Link>, known: set<int>, n: nat, depth: nat)
    requires CHAIN_LIMIT < n < |c| && depth <= MAX_RECURSION_DEPTH
    ensures PathClear(c, known, n, depth) <==>
            && depth < MAX_RECURSION_DEPTH && c[n - CHAIN_LIMIT].epoch !in known
            && PathClear(c, known, n - CHAIN_LIMIT, depth + 1)
  {
    var lo := n - CHAIN_LIMIT;
    if PathClear(c, known, n, depth) {
      assert c[n - CHAIN_LIMIT * 1].epoch !in known;
      forall k | 1 <= k && CHAIN_LIMIT * k < lo
        ensures depth + 1 + k <= MAX_RECURSION_DEPTH && c[lo - CHAIN_LIMIT * k].epoch !in known {
        assert c[n - CHAIN_LIMIT * (k + 1)].epoch !in known;
      }
    }
    if depth < MAX_RECURSION_DEPTH && c[lo].epoch !in known && PathClear(c, known, lo, depth + 1) {
      forall k | 1 <= k && CHAIN_LIMIT * k < n
        ensures depth + k <= MAX_RECURSION_DEPTH && c[n - CHAIN_LIMIT * k].epoch !in known {
        if k > 1 {
          assert c[lo - CHAIN_LIMIT * (k - 1)].epoch !in known;
        }
      }
    }
  }

  // The links of c before its last one, and the epochs no link of c has, are what s records.
  ghost predicate Restores(s: Cache, c: seq<Link>)
    requires c != []
  {
    && (forall e, cid :: e in s.hash && s.hash[e].cid == cid <==> Link(e, cid) in c[..|c| - 1])
    && (forall e :: e in s.blank <==> c[0].epoch <= e < c[|c| - 1].epoch && !HasCommit(c, 0, |c|, e))
  }

  lemma WalkRestores(cfg: Config, ipfs: Ipfs, c: seq<Link>, now: int)
    requires 0 < |c| <= 10201 && Increasing(c) && ChainedPart(c, ipfs) && cfg.keep
    requires Fits(cfg, ipfs, c, |c| - 1, LEVELS)
    ensures var head := c[|c| - 1];
            Restores(Walk(cfg, ipfs, EMPTY, head.cid, head.epoch, now, 0), c)
  {
    hide Walk;
    var n := |c| - 1;
    var s := Walk(cfg, ipfs, EMPTY, c[n].cid, c[n].epoch, now, 0);
    ChainRecovery(cfg, ipfs, c, n, now);
    forall e, cid ensures e in s.hash && s.hash[e].cid == cid <==> Link(e, cid) in c[..n] {
      RecordedLink(s, c, n, now, e, cid);
    }
  }

  /** Writer and reader undo each other: walking from any uploaded snapshot of any run of commits,
      through whatever part of the store can be fetched, restores exactly the (epoch, cid) record of
      the commits it goes back to, when the snapshots 0, 200, 400, ... commits back are in that part. */
  lemma WriterReaderRoundTrip(
      cfg: Config, address: Snapshot -> string, base: Ipfs, attempts: seq<Attempt>, n: nat, part: Ipfs,
      now: int)
    requires Addressing(address) && NamedByContent(address, base) && Orderly(address, base, attempts)
    requires n < |attempts| && attempts[n].uploaded && cfg.keep
    requires Within(part, Run(address, base, attempts).store)
    requires var c := TrailOf(address, base, attempts, n); |c| <= 10201 && Fits(cfg, part, c, |c| - 1, LEVELS)
    ensures var c := TrailOf(address, base, attempts, n);
            var head := c[|c| - 1];
            Restores(Walk(cfg, part, EMPTY, head.cid, head.epoch, now, 0), c)
  {
    hide Walk;
    hide TrailOf;
    hide Run;
    assert |TrailOf(address, base, attempts, n)| > 0 by {
      TrailEnds(address, base, attempts, n);
    }
    TrailIsBacked(address, base, attempts, n);
    PartOfChain(TrailOf(address, base, attempts, n), Run(address, base, attempts).store, part);
    WalkRestores(cfg, part, TrailOf(address, base, attempts, n), now);
  }

  lemma TrailEnds(address: Snapshot -> string, base: Ipfs, attempts: seq<Attempt>, n: nat)
    requires n < |attempts|
    ensures TrailOf(address, base, attempts, n) != []
  {
  }

  lemma FirstLink(a: seq<Link>, b: seq<Link>)
    requires a != [] && b != [] && Increasing(a + b)
    ensures a[0] in (a + b)[..|a + b| - 1] && a[0] !in b[..|b| - 1]
  {
    assert (a + b)[..|a + b| - 1][0] == a[0];
    forall i | 0 <= i < |b| ensures b[i].epoch > a[0].epoch {
      assert b[i] == (a + b)[|a| + i];
    }
  }

  lemma RestoresSuffix(s: Cache, a: seq<Link>, b: seq<Link>)
    requires b != [] && Increasing(a + b) && Restores(s, a + b)
    ensures Restores(s, b) <==> a == []
  {
    if a == [] {
      assert a + b == b;
    } else {
      FirstLink(a, b);
      assert Link(a[0].epoch, a[0].cid) == a[0];
    }
  }

  /** From an accepted snapshot, what the walk restores are the accepted commits alone if and only if
      the first accepted attempt found no earlier snapshot; otherwise the announced or finalized
      commits it found come back as well. */
  lemma AcceptedRoundTripIff(
      cfg: Config, address: Snapshot -> string, base: Ipfs, attempts: seq<Attempt>, n: nat, part: Ipfs,
      now: int)
    requires Addressing(address) && NamedByContent(address, base) && Orderly(address, base, attempts)
    requires n < |attempts| && Accepted(attempts[n]) && cfg.keep
    requires Within(part, Run(address, base, attempts).store)
    requires var c := TrailOf(address, base, attempts, n); |c| <= 10201 && Fits(cfg, part, c, |c| - 1, LEVELS)
    ensures var log := Submitted(address, base, attempts[..n + 1]);
            var f := FirstAccepted(attempts[..n + 1]);
            && log != []
            && var head := log[|log| - 1];
               (Restores(Walk(cfg, part, EMPTY, head.cid, head.epoch, now, 0), log)
                <==> LaterLookups(Run(address, base, attempts[..f]), attempts[f]) == None)
  {
    hide Walk;
    hide Restores;
    hide TrailOf;
    hide Run;
    hide Past;
    hide Submitted;
    hide Prepared;
    hide Lineage;
    hide LaterLookups;
    hide FirstAccepted;
    hide Fits;
    hide Chained;
    hide Increasing;
    WriterReaderRoundTrip(cfg, address, base, attempts, n, part, now);
    TrailIsBacked(address, base, attempts, n);
    AcceptedTrailOf(address, base, attempts, n);
    AcceptedLast(address, base, attempts, n);
    OriginIff(address, base, attempts, n);
    var log, f := Submitted(address, base, attempts[..n + 1]), FirstAccepted(attempts[..n + 1]);
    var head := log[|log| - 1];
    var s := Walk(cfg, part, EMPTY, head.cid, head.epoch, now, 0);
    RestoresSuffix(s, Lineage(Past(address, base, attempts[..f]), attempts[f]), log);
  }

  lemma RecordedLink(s: Cache, c: seq<Link>, n: nat, now: int, e: int, cid: string)
    requires n < |c| && Increasing(c) && IsRecord(s, c, 0, n, now)
    ensures e in s.hash && s.hash[e].cid == cid <==> Link(e, cid) in c[..n]
  {
  }
}
