/** The Redis-backed cache of one project: data hash, blank bitmap and expiry members. */
module ProjectStore {
  import opened Common
  import opened Text
  import opened History
  import opened CacheModel
  import opened Resolver
  import opened Sorting
  import BM = RedisBitmap
  import RS = RedisString
  import BitmapSpec

  // A resolved CID is the history's, or says null.
  ghost predicate Answer(h: Hist, p: Pair) {
    p.0 == NullCid(p.1) || (p.1 in h && p.0 == h[p.1])
  }

  ghost predicate Answers(h: Hist, ps: seq<Pair>) {
    forall p :: p in ps ==> Answer(h, p)
  }

  ghost predicate Exact(h: Hist, ps: seq<Pair>) {
    forall p :: p in ps ==> p.0 == Expected(h, p.1)
  }

  // ... at least for the epochs in sure.
  ghost predicate ExactOn(h: Hist, ps: seq<Pair>, sure: set<int>) {
    forall p :: p in ps && p.1 in sure ==> p.0 == Expected(h, p.1)
  }

  lemma Gathered(h: Hist, acc: seq<Pair>, more: seq<Pair>)
    requires Answers(h, acc)
    ensures Answers(h, more) ==> Answers(h, acc + more)
    ensures Exact(h, more) ==> Answers(h, acc + more)
    ensures Exact(h, acc) && Exact(h, more) ==> Exact(h, acc + more)
    ensures forall sure: set<int> :: ExactOn(h, acc, sure) && ExactOn(h, more, sure) ==> ExactOn(h, acc + more, sure)
    ensures forall sure: set<int> :: Exact(h, acc) ==> ExactOn(h, acc, sure)
    ensures forall sure: set<int> :: Exact(h, more) ==> ExactOn(h, more, sure)
  {
  }

  lemma NothingYet(h: Hist)
    ensures Answers(h, []) && Exact(h, [])
  {
  }

  lemma Single(h: Hist, cid: string, e: int)
    ensures Answer(h, (cid, e)) ==> Answers(h, [(cid, e)])
    ensures cid == Expected(h, e) ==> Exact(h, [(cid, e)])
    ensures forall sure: set<int> :: e !in sure ==> ExactOn(h, [(cid, e)], sure)
  {
  }

  // Pairs already resolved by the caller: the history's CIDs or null markers.
  ghost predicate Known(h: Hist, ps: seq<Pair>) {
    forall p :: p in ps ==> HasNull(p.0) || (p.1 in h && p.0 == h[p.1])
  }

  // The snapshot of a known pair can be walked: it lists predecessors and the gaps are accepted.
  ghost predicate Usable(cfg: Config, ipfs: Ipfs, p: Pair) {
    && cfg.keep && !HasNull(p.0) && p.0 in ipfs && ipfs[p.0].prev != []
    && cfg.Accepts(Gaps(ipfs[p.0].prev, ipfs[p.0].prev[0].epoch, p.1))
  }

  // The oldest link it lists.
  ghost function Floor(ipfs: Ipfs, p: Pair): int {
    if p.0 in ipfs && ipfs[p.0].prev != [] then ipfs[p.0].prev[0].epoch else p.1
  }

  // p is the only closest pair above e among the known ones and the null epochs.
  ghost predicate ClosestAbove(known: seq<Pair>, nulls: set<int>, e: int, p: Pair) {
    && p in known && e < p.1
    && (forall q :: q in known && e < q.1 ==> q == p || p.1 < q.1)
    && (forall x :: x in nulls && e < x ==> p.1 < x)
  }

  ghost predicate Largest(pending: set<int>, m: int) {
    m in pending && forall x :: x in pending ==> x <= m
  }

  /** A previous snapshot answers: the closest known pair above the largest pending epoch can be
      walked. Then only that epoch, and those below the oldest link, are left to the contract. */
  ghost predicate PreviousHelps(
      cfg: Config, ipfs: Ipfs, known: seq<Pair>, nulls: set<int>, pending: set<int>, m: int, p: Pair) {
    Largest(pending, m) && ClosestAbove(known, nulls, m, p) && Usable(cfg, ipfs, p)
  }

  ghost predicate Helped(
      cfg: Config, ipfs: Ipfs, known: seq<Pair>, nulls: set<int>, pending: set<int>, e: int) {
    exists m, p :: PreviousHelps(cfg, ipfs, known, nulls, pending, m, p) && Floor(ipfs, p) <= e && e != m
  }

  ghost predicate ReachesAll(ipfs: Ipfs, p: Pair, ids: seq<int>, blank: set<int>) {
    forall x :: x in ids && x !in blank ==> Floor(ipfs, p) <= x
  }

  // The requested epochs of ids, none of them cached, that are answered exactly.
  ghost function SureIds(
      cfg: Config, h: Hist, w: World, known: seq<Pair>, nulls: set<int>, ids: seq<int>, blank: set<int>): set<int> {
    set e | e in ids && (|| e in blank
                         || (GapsFit(cfg, h, w.ipfs) && Settled(h, w, e))
                         || Helped(cfg, w.ipfs, known, nulls, Elems(ids) - blank, e))
  }

  ghost function SettledIds(cfg: Config, h: Hist, w: World, ids: seq<int>): set<int> {
    set e | e in ids && GapsFit(cfg, h, w.ipfs) && Settled(h, w, e)
  }

  // The snapshot can be walked under every epoch its CID is known for.
  ghost predicate AllUsable(cfg: Config, ipfs: Ipfs, known: seq<Pair>, cid: string) {
    forall q :: q in known && q.0 == cid ==> Usable(cfg, ipfs, q)
  }

  // p is the closest known pair above e, and its snapshot reaches down to e.
  ghost predicate Reaches(cfg: Config, ipfs: Ipfs, known: seq<Pair>, nulls: set<int>, p: Pair, e: int) {
    ClosestAbove(known, nulls, e, p) && Floor(ipfs, p) <= e && AllUsable(cfg, ipfs, known, p.0)
  }

  /** Of the epochs that one known snapshot reaches, at most one is not answered exactly: the one
      that was fetched when the snapshot was walked. */
  ghost predicate OneLeft(cfg: Config, h: Hist, ipfs: Ipfs, known: seq<Pair>, nulls: set<int>, ps: seq<Pair>) {
    forall p, q, r :: q in ps && r in ps
                      && Reaches(cfg, ipfs, known, nulls, p, q.1) && Reaches(cfg, ipfs, known, nulls, p, r.1) ==>
      q.1 == r.1 || q.0 == Expected(h, q.1) || r.0 == Expected(h, r.1)
  }

  ghost predicate Served(s: Cache, lo: int, hi: int) {
    forall x :: lo <= x < hi ==> x in s.hash || x in s.blank
  }

  // The contract has answered for e, and the bitmap accepts what a fetch may mark.
  ghost predicate Reported(cfg: Config, h: Hist, w: World, e: int) {
    GapsFit(cfg, h, w.ipfs) && Settled(h, w, e) && w.statusOf(e).timestamp != 0
  }

  // The cache will answer for e without asking the contract.
  ghost predicate Kept(h: Hist, s: Cache, e: int) {
    if e in h then e in s.hash else e in s.blank
  }

  ghost predicate KeepsAll(s: Cache, t: Cache) {
    s.hash.Keys <= t.hash.Keys && s.blank <= t.blank
  }

  // Everything requested that the contract has answered for is kept.
  ghost predicate KeptAll(cfg: Config, h: Hist, w: World, s: Cache, ids: seq<int>) {
    forall e :: e in ids && Reported(cfg, h, w, e) ==> Kept(h, s, e)
  }

  ghost predicate KeptPairs(cfg: Config, h: Hist, w: World, s: Cache, ps: seq<Pair>) {
    forall p :: p in ps && Reported(cfg, h, w, p.1) ==> Kept(h, s, p.1)
  }

  lemma KeptStays(cfg: Config, h: Hist, w: World, s: Cache, t: Cache, ps: seq<Pair>, more: seq<Pair>)
    requires KeptPairs(cfg, h, w, s, ps) && KeepsAll(s, t) && KeptPairs(cfg, h, w, t, more)
    ensures KeptPairs(cfg, h, w, t, ps + more)
  {
    hide Reported;
  }

  lemma KeptAnswers(cfg: Config, h: Hist, w: World, s: Cache, ps: seq<Pair>, ids: seq<int>)
    requires KeptPairs(cfg, h, w, s, ps) && multiset(EpochsOf(ps)) == multiset(ids)
    ensures KeptAll(cfg, h, w, s, ids)
  {
    hide Reported;
    hide Kept;
    forall e | e in ids && Reported(cfg, h, w, e) ensures Kept(h, s, e) {
      assert e in multiset(ids) && e in multiset(EpochsOf(ps));
      assert e in EpochsOf(ps);
      var i :| 0 <= i < |ps| && EpochsOf(ps)[i] == e;
      assert ps[i] in ps;
    }
  }

  // cids answers the epochs lo, lo + 1, ... one by one.
  ghost predicate Aligned(h: Hist, cids: seq<string>, lo: int) {
    forall i :: 0 <= i < |cids| ==> Answer(h, (cids[i], lo + i))
  }

  // ... with the history's own CID up to epoch hi and null after it.
  ghost predicate AlignedExact(h: Hist, cids: seq<string>, lo: int, hi: int) {
    forall i :: 0 <= i < |cids| ==> cids[i] == if lo + i <= hi then Expected(h, lo + i) else NullCid(lo + i)
  }

  // The same for the epochs in sure, and for all epochs above hi.
  ghost predicate AlignedOn(h: Hist, cids: seq<string>, lo: int, hi: int, sure: set<int>) {
    forall i :: 0 <= i < |cids| ==>
      && (lo + i <= hi && lo + i in sure ==> cids[i] == Expected(h, lo + i))
      && (lo + i > hi ==> cids[i] == NullCid(lo + i))
  }

  lemma SureIsExact(h: Hist, cids: seq<string>, lo: int, hi: int, sure: set<int>)
    requires AlignedOn(h, cids, lo, hi, sure) && forall e :: lo <= e <= hi ==> e in sure
    ensures AlignedExact(h, cids, lo, hi)
  {
    hide Expected;
    hide NullCid;
  }

  // Neither cached nor blank.
  ghost predicate Open(s: Cache, e: int) {
    e !in s.hash && e !in s.blank
  }

  ghost predicate LargestOpen(s: Cache, lo: int, hi: int, m: int) {
    lo <= m <= hi && Open(s, m) && forall x :: m < x <= hi ==> !Open(s, x)
  }

  /** In a range, a previous snapshot answers for e if the epoch right above the largest open one is
      cached and its snapshot can be walked and reaches down to e. */
  ghost predicate NeighbourHelps(cfg: Config, h: Hist, ipfs: Ipfs, s: Cache, lo: int, hi: int, m: int, e: int) {
    && LargestOpen(s, lo, hi, m) && m < hi && m + 1 in s.hash && m + 1 in h
    && Usable(cfg, ipfs, (h[m + 1], m + 1)) && Floor(ipfs, (h[m + 1], m + 1)) <= e && e != m
  }

  /** The epochs of a range that are answered exactly: cached or blank ones, those the contract has
      settled, and those a previous snapshot answers for. */
  ghost predicate SureAt(cfg: Config, h: Hist, w: World, s: Cache, lo: int, hi: int, e: int) {
    || e in s.hash || e in s.blank
    || (GapsFit(cfg, h, w.ipfs) && Settled(h, w, e))
    || exists m :: NeighbourHelps(cfg, h, w.ipfs, s, lo, hi, m, e)
  }

  ghost function SureRange(cfg: Config, h: Hist, w: World, s: Cache, lo: int, hi: int): set<int> {
    set e | lo <= e <= hi && SureAt(cfg, h, w, s, lo, hi, e)
  }

  // A cached epoch's snapshot can be walked, wherever in the range its CID is cached.
  ghost predicate Walkable(cfg: Config, h: Hist, ipfs: Ipfs, s: Cache, lo: int, hi: int, cid: string) {
    forall x :: lo <= x <= hi && x in s.hash && x in h && h[x] == cid ==> Usable(cfg, ipfs, (cid, x))
  }

  // c is cached, every epoch from e up to it is open, and its snapshot reaches down to e.
  ghost predicate Below(cfg: Config, h: Hist, ipfs: Ipfs, s: Cache, lo: int, hi: int, c: int, e: int) {
    && lo <= e < c <= hi && c in s.hash && c in h && (forall x :: e <= x < c ==> Open(s, x))
    && Walkable(cfg, h, ipfs, s, lo, hi, h[c]) && Floor(ipfs, (h[c], c)) <= e
  }

  /** Of the open epochs right below a cached one that its snapshot reaches, at most one is not
      answered exactly. This holds for every cached epoch of the range at once. */
  ghost predicate HolesFilled(
      cfg: Config, h: Hist, ipfs: Ipfs, s: Cache, cids: seq<string>, lo: int, hi: int) {
    forall c, e, f :: lo <= e < f < lo + |cids|
                      && Below(cfg, h, ipfs, s, lo, hi, c, e) && Below(cfg, h, ipfs, s, lo, hi, c, f) ==>
      cids[e - lo] == Expected(h, e) || cids[f - lo] == Expected(h, f)
  }

  // The epochs that have no cached CID.
  function Missing(cached: set<int>, es: seq<int>): (r: seq<int>)
    ensures |r| <= |es| && forall x :: x in r ==> x in es
  {
    if es == [] then [] else
    var front, last := es[..|es| - 1], es[|es| - 1];
    assert es == front + [last];
    if last in cached then Missing(cached, front) else Missing(cached, front) + [last]
  }

  // The bitmap accepts whatever epochs of a range the bulk resolver has to look up in it.
  ghost predicate Accepted(cfg: Config, w: World, cached: set<int>, min: int, max: int) {
    var lo, hi := Max(min, w.first), Min(max, Max(w.lastSubmitted, w.lastFinalized));
    w.first == 0 || lo > hi || cfg.Accepts(Missing(cached, Range(lo, hi + 1)))
  }

  /** What the bulk resolver promises about a range min..max: it fails exactly when the bitmap
      rejects the epochs without a cached CID; the answer is empty exactly when the project has no
      first epoch or no epoch of the range can have data; otherwise it has one CID per epoch from
      max(min, first) to max, each for its own epoch; it is null above the last epoch with data, and
      exact at every epoch that is sure; and in each hole below a cached epoch its snapshot answers
      for all but one of the epochs it reaches. */
  ghost predicate BulkAnswer(
      cfg: Config, h: Hist, w: World, s: Cache, min: int, max: int, r: Result<(seq<string>, int)>) {
    var lo, hi := Max(min, w.first), Min(max, Max(w.lastSubmitted, w.lastFinalized));
    && (r.Ok? <==> Accepted(cfg, w, s.hash.Keys, min, max))
    && (r.Ok? ==>
          && r.value.1 == w.first
          && (r.value.0 == [] <==> w.first == 0 || lo > hi)
          && (r.value.0 != [] ==> |r.value.0| == max - lo + 1)
          && Aligned(h, r.value.0, lo)
          && AlignedOn(h, r.value.0, lo, hi, SureRange(cfg, h, w, s, lo, hi))
          && HolesFilled(cfg, h, w.ipfs, s, r.value.0, lo, hi))
  }

  function CidsOf(ps: seq<Pair>): (r: seq<string>)
    ensures |r| == |ps| && forall i :: 0 <= i < |ps| ==> r[i] == ps[i].0
  {
    seq(|ps|, i requires 0 <= i < |ps| => ps[i].0)
  }

  ghost predicate ExactUpTo(h: Hist, ps: seq<Pair>, hi: int, sure: set<int>) {
    forall p :: p in ps ==>
      && (p.1 <= hi && p.1 in sure ==> p.0 == Expected(h, p.1))
      && (p.1 > hi ==> p.0 == NullCid(p.1))
  }

  // Pairs that answer every epoch of lo..max once, sorted, answer them in order.
  lemma LineUp(h: Hist, ps: seq<Pair>, lo: int, max: int, hi: int, sure: set<int>)
    requires multiset(EpochsOf(ps)) == multiset(Range(lo, max + 1)) && lo <= max && Answers(h, ps)
    ensures |CidsOf(SortByEpoch(ps))| == max - lo + 1 && Aligned(h, CidsOf(SortByEpoch(ps)), lo)
    ensures ExactUpTo(h, ps, hi, sure) ==> AlignedOn(h, CidsOf(SortByEpoch(ps)), lo, hi, sure)
  {
    hide SortByEpoch;
    hide Answer;
    hide Expected;
    hide NullCid;
    InTheirPlaces(ps, lo, max);
    var cids := CidsOf(SortByEpoch(ps));
    forall i | 0 <= i < |cids|
      ensures Answer(h, (cids[i], lo + i))
      ensures ExactUpTo(h, ps, hi, sure) ==>
        && (lo + i <= hi && lo + i in sure ==> cids[i] == Expected(h, lo + i))
        && (lo + i > hi ==> cids[i] == NullCid(lo + i))
    {
      var p := (cids[i], lo + i);
      assert p in ps;
    }
  }

  lemma InTheirPlaces(ps: seq<Pair>, lo: int, max: int)
    requires multiset(EpochsOf(ps)) == multiset(Range(lo, max + 1)) && lo <= max
    ensures |CidsOf(SortByEpoch(ps))| == max - lo + 1
    ensures forall i :: 0 <= i < max - lo + 1 ==> (CidsOf(SortByEpoch(ps))[i], lo + i) in ps
  {
    hide SortByEpoch;
    var sorted := SortByEpoch(ps);
    SortedIsRange(ps, lo, max + 1);
    assert |sorted| == |EpochsOf(sorted)| == max - lo + 1;
    forall i | 0 <= i < |sorted| ensures (sorted[i].0, lo + i) in ps {
      var p := sorted[i];
      assert p in sorted;
      SortMembers(ps, p);
      assert p.1 == EpochsOf(sorted)[i] == lo + i;
      assert p == (p.0, lo + i);
    }
  }

  class ProjectStore {
    const bitmap: BM.RedisBitmap
    const blank: RS.RedisString
    const keep: bool
    var hash: map<int, Entry>
    var expiry: map<int, int>

    constructor (bitmap: BM.RedisBitmap, keep: bool)
      ensures fresh(blank) && this.bitmap == bitmap && this.keep == keep
      ensures State() == Cache(map[], {}, map[])
    {
      this.bitmap, this.keep := bitmap, keep;
      blank := new RS.RedisString();
      hash, expiry := map[], map[];
      new;
      assert bitmap.Stored(blank) == {};
    }

    function Cfg(): Config {
      Config(bitmap.offset, bitmap.maxBatchSize, keep)
    }

    ghost function State(): Cache
      reads this, blank
    {
      Cache(hash, bitmap.Stored(blank), expiry)
    }

    static method BuildEntries(links: seq<Link>, status: int, score: int)
      returns (entries: map<int, Entry>, scores: map<int, int>)
      ensures entries == Entries(links, status) && scores == Scores(links, score)
    {
      entries, scores := map[], map[];
      for k := |links| downto 0
        invariant entries == Entries(links[k..], status) && scores == Scores(links[k..], score)
      {
        entries := entries[links[k].epoch := Entry(links[k].cid, status)];
        scores := scores[links[k].epoch := score];
      }
    }

    static method BuildEntriesForward(links: seq<Link>, status: int) returns (entries: map<int, Entry>)
      ensures entries == EntriesForward(links, status)
    {
      entries := map[];
      for k := 0 to |links|
        invariant entries == EntriesForward(links[..k], status)
      {
        assert links[..k + 1][..k] == links[..k];
        entries := entries[links[k].epoch := Entry(links[k].cid, status)];
      }
      assert links[..|links|] == links;
    }

    // set(range(lo, hi)) with every listed epoch discarded, sorted.
    static method GapList(links: seq<Link>, lo: int, hi: int) returns (ids: seq<int>)
      ensures ids == Gaps(links, lo, hi)
    {
      var keys := set x | x in Range(lo, hi);
      for k := 0 to |links|
        invariant forall x :: x in keys <==> x in Range(lo, hi) && !Lists(links[..k], x)
      {
        forall x ensures Lists(links[..k + 1], x) <==> Lists(links[..k], x) || links[k].epoch == x {
          ListsSnoc(links, k, x);
        }
        keys := keys - {links[k].epoch};
      }
      assert links[..|links|] == links;
      var candidates := Range(lo, hi);
      ids := [];
      for k := 0 to |candidates|
        invariant ids == Absent(links, candidates[..k])
      {
        assert candidates[..k + 1][..k] == candidates[..k];
        if candidates[k] in keys {
          ids := ids + [candidates[k]];
        }
      }
      assert candidates[..|candidates|] == candidates;
    }

    // process_snapshot_cid
    method ProcessSnapshotCid(ipfs: Ipfs, cid: string, epoch: int, now: int, depth: nat)
      modifies this, blank
      ensures State() == Walk(Cfg(), ipfs, old(State()), cid, epoch, now, depth)
      decreases if depth < MAX_RECURSION_DEPTH then MAX_RECURSION_DEPTH - depth else 0
    {
      hide Entries;
      hide Scores;
      hide Gaps;
      hide HasNull;
      hide BitmapSpec.SetInRange;
      hide BitmapSpec.MembersBelow;
      hide BitmapSpec.Fast;
      if HasNull(cid) || !keep || cid !in ipfs {
        return;
      }
      var prev := ipfs[cid].prev;
      if prev == [] {
        return;
      }
      var entries, scores := BuildEntries(prev, SUBMITTED, now + ENTRY_EXPIRY);
      var gaps := GapList(prev, prev[0].epoch, epoch);
      var written := bitmap.SetBitsInRange(blank, gaps);
      if written.Err? {
        return;  // the exception is logged and swallowed; nothing was executed
      }
      if depth < MAX_RECURSION_DEPTH && prev[0].epoch !in hash {
        ProcessSnapshotCid(ipfs, prev[0].cid, prev[0].epoch, now, depth + 1);
      }
      hash, expiry := hash + entries, expiry + scores;
    }

    // w3_get_and_cache_finalized_cid
    method FetchAndCache(w: World, e: int, now: int) returns (r: Result<string>)
      modifies this, blank
      ensures (State(), r) == Fetch(Cfg(), w, old(State()), e, now)
    {
      hide Entries;
      hide EntriesForward;
      hide Scores;
      hide Gaps;
      hide HasNull;
      hide Walk;
      hide BitmapSpec.SetInRange;
      hide BitmapSpec.MembersBelow;
      hide BitmapSpec.Fast;
      var st := w.statusOf(e);
      if e > w.current - 10 && st.timestamp == 0 {
        return Ok(NullCid(e));
      }
      if st.cid != "" && !HasNull(st.cid) {
        var prev := PrevOf(w.ipfs, st.cid);
        var entries := BuildEntriesForward(prev, st.status + 1);
        var _, scores := BuildEntries(prev, 0, now + ENTRY_EXPIRY);
        scores := scores[e := now + ENTRY_EXPIRY];
        var gaps := [];
        if prev != [] {
          gaps := GapList(prev, prev[0].epoch, e + 1);
        }
        var written := bitmap.SetBitsInRange(blank, gaps);
        if written.Err? {
          // the error path still executes the queued hash writes, but not the expiry ones
          hash := hash[e := Entry(st.cid, st.status + 1)] + entries;
          return Ok(NullCid(e));
        }
        ProcessSnapshotCid(w.ipfs, st.cid, e, now, 0);
        hash, expiry := hash[e := Entry(st.cid, st.status + 1)] + entries, expiry + scores;
        return Ok(st.cid);
      }
      var marked := bitmap.SetBit(blank, e);
      if marked.Err? {
        return Err(marked.error);
      }
      r := Ok(NullCid(e));
    }

    // Split ids into those whose blank bit is set, answered null, and those still to be resolved.
    method SplitBlank(ids: seq<int>, ghost h: Hist) returns (r: Result<(seq<Pair>, seq<int>)>)
      requires Sound(h, State()) && forall e :: e in ids ==> e !in hash
      ensures r.Ok? <==> Cfg().Accepts(ids)
      ensures r.Ok? ==> Splits(multiset(ids), r.value.0, r.value.1) && Exact(h, r.value.0)
      ensures r.Ok? ==> forall e :: e in r.value.1 <==> e in ids && e !in State().blank
      ensures r.Ok? ==> forall p :: p in r.value.0 ==> p.1 in State().blank
    {
      hide BitmapSpec.MembersBelow;
      hide Splits;
      hide NullCid;
      var bits := bitmap.GetBitsInRange(blank, ids);
      if bits.Err? {
        return Err(bits.error);
      }
      var acc: seq<Pair>, missing := [], [];
      SplitsNothing([]);
      assert ids[..0] == [];
      for k := 0 to |ids|
        invariant Splits(multiset(ids[..k]), acc, missing) && Exact(h, acc)
        invariant forall e :: e in missing <==> e in ids[..k] && e !in State().blank
        invariant forall p :: p in acc ==> p.1 in State().blank
      {
        var e := ids[k];
        assert ids[..k + 1] == ids[..k] + [e];
        SplitsSnoc(ids, k, acc, missing, NullCid(e));
        if bits.value[k].1 {
          acc := acc + [(NullCid(e), e)];
        } else {
          missing := missing + [e];
        }
      }
      assert ids[..|ids|] == ids;
      r := Ok((acc, missing));
    }

    // Answer null for the listed epochs whose blank bit is set, and drop them from missing.
    static method TakeBlank(
        list: seq<int>, bits: seq<(int, bool)>, missing: seq<int>, ghost marks: set<int>, ghost h: Hist)
      returns (found: seq<Pair>, rest: seq<int>)
      requires OnceEach(list) && OnceEach(missing) && forall x :: x in list <==> x in missing
      requires |bits| == |list| && forall k :: 0 <= k < |list| ==> bits[k] == (list[k], list[k] in marks)
      requires forall e :: e in missing && e in marks ==> e !in h
      ensures Splits(multiset(missing), found, rest) && Exact(h, found) && OnceEach(rest)
      ensures forall x :: x in rest <==> x in missing && x !in marks
    {
      hide RemoveFirst;
      hide Splits;
      found, rest := [], missing;
      ghost var seen: set<int> := {};
      SplitsNothing(missing);
      for k := 0 to |list|
        invariant Splits(multiset(missing), found, rest) && Exact(h, found) && OnceEach(rest)
        invariant forall x :: x in rest <==> x in missing && !(x in marks && x in seen)
        invariant forall j :: 0 <= j < |list| ==> (list[j] in seen <==> j < k)
      {
        var e := list[k];
        if bits[k].1 {
          SplitsMove(multiset(missing), found, rest, NullCid(e), e);
          RemoveOnce(rest, e);
          found, rest := found + [(NullCid(e), e)], RemoveFirst(rest, e);
        }
        forall j | 0 <= j < |list| && j != k ensures list[j] != e {
          OnceDistinct(list, Min(j, k), Max(j, k));
        }
        seen := seen + {e};
      }
    }

    // Answer the listed epochs the hash read found, and drop them from missing.
    static method TakeCached(list: seq<int>, cached: map<int, Entry>, missing: seq<int>, ghost h: Hist)
      returns (found: seq<Pair>, rest: seq<int>)
      requires OnceEach(list) && OnceEach(missing)
      requires forall x :: x in missing ==> x in list
      requires forall x :: x in list && x in cached ==> x in missing
      requires forall x :: x in cached ==> x in h && cached[x].cid == h[x]
      ensures Splits(multiset(missing), found, rest) && Exact(h, found)
      ensures forall x :: x in rest <==> x in missing && x !in cached
    {
      hide RemoveFirst;
      hide Splits;
      found, rest := [], missing;
      ghost var seen: set<int> := {};
      SplitsNothing(missing);
      for k := 0 to |list|
        invariant Splits(multiset(missing), found, rest) && Exact(h, found) && OnceEach(rest)
        invariant forall x :: x in rest <==> x in missing && !(x in cached && x in seen)
        invariant forall j :: 0 <= j < |list| ==> (list[j] in seen <==> j < k)
      {
        var e := list[k];
        if e in cached {
          SplitsMove(multiset(missing), found, rest, cached[e].cid, e);
          RemoveOnce(rest, e);
          found := found + [(cached[e].cid, e)];
          if e in rest {
            rest := RemoveFirst(rest, e);
          }
        }
        forall j | 0 <= j < |list| && j != k ensures list[j] != e {
          OnceDistinct(list, Min(j, k), Max(j, k));
        }
        seen := seen + {e};
      }
    }

    static lemma SplitsNothing(missing: seq<int>)
      ensures Splits(multiset(missing), [], missing)
    {
    }

    // After a fetch, take out of missing exactly the epochs that meanwhile are marked blank or cached.
    method TakeResolved(missing: seq<int>, ghost h: Hist) returns (found: seq<Pair>, rest: seq<int>)
      requires Sound(h, State()) && Cfg().Accepts(missing) && OnceEach(missing)
      requires Unmarked(missing, State())
      ensures Splits(multiset(missing), found, rest) && Exact(h, found)
      ensures forall x :: x in rest <==> x in missing && x !in State().blank && x !in hash
    {
      hide BitmapSpec.MembersBelow;
      hide SortInts;
      hide Splits;
      hide OnceEach;
      var list := SortInts(missing);
      SortIntsSorts(missing);
      SortIntsOnce(missing);
      AcceptsSame(missing, list);
      var cached := hash;
      var bits := bitmap.GetBitsInRange(blank, list);
      var blanks, left := TakeBlank(list, bits.value, missing, State().blank, h);
      var hits, rest' := TakeCached(list, cached, left, h);
      SplitsRefine(multiset(missing), blanks, left, hits, rest');
      found, rest := blanks + hits, rest';
    }

    lemma AcceptsSame(ids: seq<int>, other: seq<int>)
      requires Cfg().Accepts(ids) && |other| <= |ids| && forall x :: x in other ==> x in ids
      ensures Cfg().Accepts(other)
    {
      forall k | 0 <= k < |other| ensures Cfg().ValidId(other[k]) {
        var x := other[k];
        assert x in other && x in ids;
      }
    }

    static ghost predicate Unmarked(missing: seq<int>, s: Cache) {
      forall e :: e in missing ==> e !in Marked(s)
    }

    static lemma UnmarkedStart(missing: seq<int>, s: Cache)
      requires forall e :: e in missing ==> e !in s.blank
      ensures Unmarked(missing, s)
    {
    }

    static lemma UnmarkedStays(h: Hist, s: Cache, t: Cache, missing: seq<int>, part: seq<int>, self: set<int>)
      requires Improves(h, s, t, self) && Unmarked(missing, s)
      requires forall x :: x in part ==> x in missing && x !in self
      ensures Unmarked(part, t)
    {
    }

    // Everything the bulk loop relies on between two fetches.
    ghost predicate Pending(h: Hist, ids: seq<int>, acc: seq<Pair>, missing: seq<int>, sure: set<int>)
      reads this, blank
    {
      && Sound(h, State())
      && Splits(multiset(ids), acc, missing)
      && Answers(h, acc) && ExactOn(h, acc, sure)
      && Unmarked(missing, State())
    }

    /** Walk the snapshot of the closest known epoch above e, one level, unless that was done before:
        afterwards every epoch from its oldest link up to it has a CID or a blank mark. */
    method ProcessClosest(w: World, e: int, known: seq<Pair>, processed: seq<string>, now: int, ghost h: Hist)
      returns (after: seq<string>, ghost closest: Option<Pair>)
      requires Consistent(h, w.ipfs) && Sound(h, State()) && Known(h, known)
      modifies this, blank
      ensures Improves(h, old(State()), State(), {}) && Sound(h, State()) && old(hash.Keys) <= hash.Keys
      ensures closest == None <==> forall p :: p in known ==> p.1 <= e
      ensures closest.Some? ==> closest.value in known && e < closest.value.1
      ensures closest.Some? ==> forall p :: p in known && e < p.1 ==> closest.value.1 <= p.1
      ensures State() ==
        if closest.Some? && closest.value.0 !in processed
        then Walk(Cfg(), w.ipfs, old(State()), closest.value.0, closest.value.1, now, 51) else old(State())
      ensures forall p :: ClosestAbove(known, {}, e, p) && Usable(Cfg(), w.ipfs, p) && p.0 !in processed ==>
                Served(State(), Floor(w.ipfs, p), p.1)
      ensures closest.Some? && Usable(Cfg(), w.ipfs, closest.value) && closest.value.0 !in processed ==>
                Served(State(), Floor(w.ipfs, closest.value), closest.value.1)
      ensures after ==
        if closest.Some? && closest.value.0 !in processed then processed + [closest.value.0] else processed
      ensures forall p :: ClosestAbove(known, {}, e, p) ==> closest == Some(p)
    {
      hide Usable;
      hide Floor;
      hide Served;
      hide Walk;
      after := processed;
      var found := FindClosestLarger(e, known);
      closest := found;
      if found.Some? {
        var cid, epoch := found.value.0, found.value.1;
        if cid !in processed {
          if !HasNull(cid) {
            WalkImproves(Cfg(), h, w.ipfs, State(), epoch, now, MAX_RECURSION_DEPTH + 1, {});
          } else {
            NullWalk(Cfg(), w.ipfs, State(), cid, epoch, now, MAX_RECURSION_DEPTH + 1);
          }
          ghost var s0 := State();
          ProcessSnapshotCid(w.ipfs, cid, epoch, now, MAX_RECURSION_DEPTH + 1);
          after := processed + [cid];
          if Usable(Cfg(), w.ipfs, closest.value) {
            WalkServes(Cfg(), w.ipfs, s0, closest.value, now, MAX_RECURSION_DEPTH + 1);
          }
        }
      }
    }

    static lemma NullWalk(cfg: Config, ipfs: Ipfs, s: Cache, cid: string, epoch: int, now: int, depth: nat)
      requires HasNull(cid)
      ensures Walk(cfg, ipfs, s, cid, epoch, now, depth) == s
    {
    }

    static lemma WalkServes(cfg: Config, ipfs: Ipfs, s: Cache, p: Pair, now: int, depth: nat)
      requires Usable(cfg, ipfs, p)
      ensures Served(Walk(cfg, ipfs, s, p.0, p.1, now, depth), Floor(ipfs, p), p.1)
    {
      hide Walk;
      forall x | Floor(ipfs, p) <= x < p.1
        ensures var t := Walk(cfg, ipfs, s, p.0, p.1, now, depth); x in t.hash || x in t.blank
      {
        WalkCachesItsLinks(cfg, ipfs, s, p.0, p.1, now, depth, x);
      }
    }

    static lemma ServedStays(h: Hist, s: Cache, t: Cache, self: set<int>, lo: int, hi: int)
      requires Improves(h, s, t, self) && Served(s, lo, hi)
      ensures Served(t, lo, hi)
    {
      hide SoundBut;
    }

    // What one turn of the bulk loop leaves behind: new answers for pending epochs, exact but for e,
    // and nothing pending that the closest snapshot above e serves.
    static ghost predicate Turned(
        cfg: Config, h: Hist, w: World, known: seq<Pair>, processed: seq<string>, acc: seq<Pair>, missing: seq<int>,
        after: seq<string>, acc': seq<Pair>, missing': seq<int>, e: int)
    {
      && e in missing && (forall x :: x in missing ==> x <= e)
      && acc <= acc'
      && (forall q :: q in acc'[|acc|..] ==> q.1 in missing && (q.1 == e || q.0 == Expected(h, q.1)))
      && (forall x :: x in missing' ==> x in missing)
      && (forall p :: ClosestAbove(known, {}, e, p) && Usable(cfg, w.ipfs, p) && p.0 !in processed ==>
            forall x :: x in missing' ==> x < Floor(w.ipfs, p))
      && (forall p :: ClosestAbove(known, {}, e, p) ==> p.0 in after)
      && (forall p, x :: p in known && p.0 in after && p.0 !in processed
                         && AllUsable(cfg, w.ipfs, known, p.0) && x in missing' ==>
            x < Floor(w.ipfs, p))
    }

    // One turn: the closest snapshot, the largest pending epoch, and what is known by then.
    method FetchLargest(
        w: World, ids: seq<int>, known: seq<Pair>, processed: seq<string>, acc: seq<Pair>, missing: seq<int>, now: int,
        ghost h: Hist, ghost sure: set<int>)
      returns (after: seq<string>, acc': seq<Pair>, missing': seq<int>, ghost e: int)
      requires Consistent(h, w.ipfs) && Faithful(h, w) && Known(h, known)
      requires OnceEach(ids) && Cfg().Accepts(ids) && Pending(h, ids, acc, missing, sure) && missing != []
      requires sure == SettledIds(Cfg(), h, w, ids)
      modifies this, blank
      ensures Pending(h, ids, acc', missing', sure) && |missing'| < |missing| && old(hash.Keys) <= hash.Keys
      ensures Turned(Cfg(), h, w, known, processed, acc, missing, after, acc', missing', e)
      ensures KeepsAll(old(State()), State()) && KeptPairs(Cfg(), h, w, State(), acc'[|acc|..])
    {
      hide Reported;
      hide Kept;
      hide SortInts;
      hide Splits;
      hide OnceEach;
      hide RemoveFirst;
      hide Fetch;
      hide Exact;
      hide ExactOn;
      hide Answers;
      hide Answer;
      hide Unmarked;
      hide SoundBut;
      hide Usable;
      hide Floor;
      hide Served;
      hide ClosestAbove;
      hide Turned;
      hide GapsFit;
      hide KeptPairs;
      hide Consistent;
      hide Known;
      var sorted := SortInts(missing);
      SortIntsSorts(missing);
      SplitsSize(ids, acc, missing);
      SortIntsOnce(missing);
      var largest := sorted[|sorted| - 1];
      e := largest;
      LargestOf(missing, sorted);
      AcceptsSame(ids, [largest]);
      ghost var s0 := State();
      ghost var closest;
      after, closest := ProcessClosest(w, largest, known, processed, now, h);
      ghost var s1 := State();
      UnmarkedStays(h, s0, s1, missing, missing, {});
      var cid := FetchOne(w, largest, now, h);
      ghost var s2 := State();
      SplitsMove(multiset(ids), acc, missing, cid, largest);
      RemoveOnce(missing, largest);
      UnmarkedStays(h, s1, s2, missing, RemoveFirst(missing, largest), {largest});
      Single(h, cid, largest);
      ExactSingle(h, cid, largest, sure);
      Gathered(h, acc, [(cid, largest)]);
      acc', missing' := acc + [(cid, largest)], RemoveFirst(missing, largest);
      KeptFetched(Cfg(), h, w, s2, cid, largest);
      if missing' == [] {
        Dropped(acc, [(cid, largest)], []);
        TurnedLast(Cfg(), h, w, known, processed, acc, missing, after, cid, largest);
        return;
      }
      SplitsSize(ids, acc', missing');
      AcceptsSame(ids, missing');
      var found, rest := TakeResolved(missing', h);
      SplitsRefine(multiset(ids), acc', missing', found, rest);
      SplitsSize(missing', found, rest);
      UnmarkedStays(h, s2, s2, missing', rest, {});
      Gathered(h, acc', found);
      TurnedMore(
        Cfg(), h, w, known, processed, acc, missing, closest, after, cid, largest, missing', found, rest, s1, s2);
      KeptFound(Cfg(), h, w, s2, missing', found, rest);
      KeptStays(Cfg(), h, w, s2, s2, [(cid, largest)], found);
      Dropped(acc, [(cid, largest)], found);
      acc', missing' := acc' + found, rest;
    }

    static lemma Dropped(acc: seq<Pair>, one: seq<Pair>, more: seq<Pair>)
      ensures (acc + one)[|acc|..] == one && (acc + one + more)[|acc|..] == one + more
    {
    }

    static lemma KeptFetched(cfg: Config, h: Hist, w: World, s: Cache, cid: string, e: int)
      requires Reported(cfg, h, w, e) ==> Kept(h, s, e)
      ensures KeptPairs(cfg, h, w, s, [(cid, e)])
    {
    }

    static lemma KeptFound(
        cfg: Config, h: Hist, w: World, s: Cache, missing: seq<int>, found: seq<Pair>, rest: seq<int>)
      requires Sound(h, s) && OnceEach(missing) && Splits(multiset(missing), found, rest)
      requires forall x :: x in rest <==> x in missing && x !in s.blank && x !in s.hash
      ensures KeptPairs(cfg, h, w, s, found)
    {
      hide Reported;
      SplitsFound(missing, found, rest);
      forall p | p in found ensures Kept(h, s, p.1) {
        var i :| 0 <= i < |found| && found[i] == p;
        var e := EpochsOf(found)[i];
        assert e in multiset(EpochsOf(found));
        assert multiset(missing)[e] == multiset(EpochsOf(found))[e] + multiset(rest)[e] <= 1;
        assert e !in multiset(rest);
        assert e !in rest;
      }
    }

    static lemma LargestOf(missing: seq<int>, sorted: seq<int>)
      requires missing != [] && Ascending(sorted) && |sorted| == |missing| && forall x :: x in sorted <==> x in missing
      ensures sorted[|sorted| - 1] in missing && forall x :: x in missing ==> x <= sorted[|sorted| - 1]
    {
      var last := sorted[|sorted| - 1];
      assert last in sorted;
      forall x | x in missing ensures x <= last {
        var i :| 0 <= i < |sorted| && sorted[i] == x;
      }
    }

    static lemma ExactSingle(h: Hist, cid: string, e: int, sure: set<int>)
      requires e in sure ==> cid == Expected(h, e)
      ensures ExactOn(h, [(cid, e)], sure)
    {
    }

    static lemma TurnedLast(
        cfg: Config, h: Hist, w: World, known: seq<Pair>, processed: seq<string>, acc: seq<Pair>, missing: seq<int>,
        after: seq<string>, cid: string, e: int)
      requires e in missing && forall x :: x in missing ==> x <= e
      requires forall p :: ClosestAbove(known, {}, e, p) ==> p.0 in after
      ensures Turned(cfg, h, w, known, processed, acc, missing, after, acc + [(cid, e)], [], e)
    {
      hide ClosestAbove;
    }

    static lemma TurnedMore(
        cfg: Config, h: Hist, w: World, known: seq<Pair>, processed: seq<string>, acc: seq<Pair>, missing: seq<int>,
        closest: Option<Pair>, after: seq<string>, cid: string, e: int, left: seq<int>, found: seq<Pair>,
        rest: seq<int>, s1: Cache, s2: Cache)
      requires e in missing && forall x :: x in missing ==> x <= e
      requires forall x :: x in left ==> x in missing
      requires Splits(multiset(left), found, rest) && Exact(h, found)
      requires forall x :: x in rest <==> x in left && x !in s2.blank && x !in s2.hash
      requires Improves(h, s1, s2, {e})
      requires forall p :: ClosestAbove(known, {}, e, p) && Usable(cfg, w.ipfs, p) && p.0 !in processed ==>
                 Served(s1, Floor(w.ipfs, p), p.1)
      requires forall p :: ClosestAbove(known, {}, e, p) ==> p.0 in after
      requires closest.Some? ==> closest.value in known && e < closest.value.1
      requires closest.Some? && Usable(cfg, w.ipfs, closest.value) && closest.value.0 !in processed ==>
                 Served(s1, Floor(w.ipfs, closest.value), closest.value.1)
      requires after == if closest.Some? && closest.value.0 !in processed then processed + [closest.value.0]
                        else processed
      ensures Turned(cfg, h, w, known, processed, acc, missing, after, acc + [(cid, e)] + found, rest, e)
    {
      hide Usable;
      hide Floor;
      hide ClosestAbove;
      hide SoundBut;
      hide Splits;
      SplitsFound(left, found, rest);
      var acc' := acc + [(cid, e)] + found;
      assert acc'[|acc|..] == [(cid, e)] + found;
      forall p | ClosestAbove(known, {}, e, p) && Usable(cfg, w.ipfs, p) && p.0 !in processed
        ensures forall x :: x in rest ==> x < Floor(w.ipfs, p)
      {
        ClosestIs(known, {}, e, p);
        ServedStays(h, s1, s2, {e}, Floor(w.ipfs, p), p.1);
      }
      forall p, x | p in known && p.0 in after && p.0 !in processed && AllUsable(cfg, w.ipfs, known, p.0) && x in rest
        ensures x < Floor(w.ipfs, p)
      {
        var c := closest.value;
        assert c.0 == p.0 && Usable(cfg, w.ipfs, c) && Usable(cfg, w.ipfs, p);
        SameFloor(cfg, w.ipfs, p, c);
        ServedStays(h, s1, s2, {e}, Floor(w.ipfs, c), c.1);
      }
    }

    static lemma ClosestIs(known: seq<Pair>, nulls: set<int>, e: int, p: Pair)
      requires ClosestAbove(known, nulls, e, p)
      ensures p in known && e < p.1
    {
    }

    static lemma SameFloor(cfg: Config, ipfs: Ipfs, p: Pair, q: Pair)
      requires Usable(cfg, ipfs, p) && p.0 == q.0
      ensures Floor(ipfs, p) == Floor(ipfs, q)
    {
    }

    // A walked snapshot reaches no pending epoch any more.
    static ghost predicate Walked(
        cfg: Config, ipfs: Ipfs, known: seq<Pair>, processed: seq<string>, missing: seq<int>)
    {
      forall p, x :: p in known && p.0 in processed && AllUsable(cfg, ipfs, known, p.0) && x in missing ==>
        x < Floor(ipfs, p)
    }

    // A snapshot that reaches a pending epoch reaches none that was answered inexactly.
    static ghost predicate Unspent(
        cfg: Config, h: Hist, ipfs: Ipfs, known: seq<Pair>, acc: seq<Pair>, missing: seq<int>)
    {
      forall p, q, x :: q in acc && x in missing
                        && Reaches(cfg, ipfs, known, {}, p, q.1) && Reaches(cfg, ipfs, known, {}, p, x) ==>
        q.0 == Expected(h, q.1)
    }

    static lemma NoneLeft(
        cfg: Config, h: Hist, ipfs: Ipfs, known: seq<Pair>, nulls: set<int>, acc: seq<Pair>, missing: seq<int>)
      requires Exact(h, acc)
      ensures OneLeft(cfg, h, ipfs, known, nulls, acc)
      ensures Walked(cfg, ipfs, known, [], missing) && Unspent(cfg, h, ipfs, known, acc, missing)
    {
      hide Expected;
      hide Reaches;
      hide AllUsable;
      hide Floor;
    }

    // A turn leaves at most its own epoch to the contract, and only if no earlier turn walked the
    // snapshot that reaches it.
    static lemma OneLeftNext(
        cfg: Config, h: Hist, w: World, known: seq<Pair>, processed: seq<string>, acc: seq<Pair>, missing: seq<int>,
        after: seq<string>, acc': seq<Pair>, missing': seq<int>, e: int)
      requires Turned(cfg, h, w, known, processed, acc, missing, after, acc', missing', e)
      requires Walked(cfg, w.ipfs, known, processed, missing) && Unspent(cfg, h, w.ipfs, known, acc, missing)
      requires OneLeft(cfg, h, w.ipfs, known, {}, acc)
      ensures Walked(cfg, w.ipfs, known, after, missing') && Unspent(cfg, h, w.ipfs, known, acc', missing')
      ensures OneLeft(cfg, h, w.ipfs, known, {}, acc')
    {
      hide Expected;
      hide ClosestAbove;
      hide Usable;
      hide AllUsable;
      hide Floor;
      Appended(acc, acc');
      forall p, q, x | q in acc' && x in missing'
                       && Reaches(cfg, w.ipfs, known, {}, p, q.1) && Reaches(cfg, w.ipfs, known, {}, p, x)
        ensures q.0 == Expected(h, q.1)
      {
        ClosestIs(known, {}, q.1, p);
      }
      forall p, q, r | q in acc' && r in acc'
                       && Reaches(cfg, w.ipfs, known, {}, p, q.1) && Reaches(cfg, w.ipfs, known, {}, p, r.1)
        ensures q.1 == r.1 || q.0 == Expected(h, q.1) || r.0 == Expected(h, r.1)
      {
      }
    }

    // From the first turn on: what the closest snapshot above m serves is answered, except m.
    static ghost predicate Helping(
        cfg: Config, h: Hist, w: World, known: seq<Pair>, start: seq<int>, m: int, acc: seq<Pair>, missing: seq<int>,
        fetches: nat)
    {
      forall p :: ClosestAbove(known, {}, m, p) && Usable(cfg, w.ipfs, p) ==>
        var floor := Floor(w.ipfs, p);
        && (forall x :: x in missing ==> x < floor)
        && (forall q :: q in acc ==> q.1 == m || q.1 < floor || q.0 == Expected(h, q.1))
        && ((forall x :: x in start ==> floor <= x) ==> fetches <= 1)
    }

    static lemma HelpingFirst(
        cfg: Config, h: Hist, w: World, known: seq<Pair>, start: seq<int>, acc: seq<Pair>,
        after: seq<string>, acc': seq<Pair>, missing': seq<int>, e: int)
      requires Exact(h, acc) && Turned(cfg, h, w, known, [], acc, start, after, acc', missing', e)
      ensures Helping(cfg, h, w, known, start, e, acc', missing', 1)
    {
      hide ClosestAbove;
      hide Usable;
      hide Floor;
      Appended(acc, acc');
    }

    static lemma HelpingNext(
        cfg: Config, h: Hist, w: World, known: seq<Pair>, processed: seq<string>, start: seq<int>, m: int,
        acc: seq<Pair>, missing: seq<int>, after: seq<string>, acc': seq<Pair>, missing': seq<int>, e: int,
        fetches: nat)
      requires Helping(cfg, h, w, known, start, m, acc, missing, fetches)
      requires Turned(cfg, h, w, known, processed, acc, missing, after, acc', missing', e)
      requires forall x :: x in missing ==> x in start
      ensures Helping(cfg, h, w, known, start, m, acc', missing', fetches + 1)
    {
      hide ClosestAbove;
      hide Usable;
      hide Floor;
      Appended(acc, acc');
    }

    static lemma Appended(acc: seq<Pair>, acc': seq<Pair>)
      requires acc <= acc'
      ensures forall q :: q in acc' <==> q in acc || q in acc'[|acc|..]
    {
      assert acc' == acc + acc'[|acc|..];
    }

    // Answers are exact, or answer an epoch that was pending at first.
    static ghost predicate Rest(h: Hist, start: seq<int>, acc: seq<Pair>) {
      forall q :: q in acc ==> q.1 in start || q.0 == Expected(h, q.1)
    }

    static lemma RestNext(
        cfg: Config, h: Hist, w: World, known: seq<Pair>, processed: seq<string>, start: seq<int>,
        acc: seq<Pair>, missing: seq<int>, after: seq<string>, acc': seq<Pair>, missing': seq<int>, e: int)
      requires Rest(h, start, acc) && Turned(cfg, h, w, known, processed, acc, missing, after, acc', missing', e)
      requires forall x :: x in missing ==> x in start
      ensures Rest(h, start, acc')
    {
      Appended(acc, acc');
    }

    static lemma AllSure(
        cfg: Config, h: Hist, w: World, known: seq<Pair>, ids: seq<int>, blank: set<int>, start: seq<int>, m: int,
        acc: seq<Pair>, missing: seq<int>, fetches: nat)
      requires forall x :: x in start <==> x in ids && x !in blank
      requires ExactOn(h, acc, SettledIds(cfg, h, w, ids)) && Rest(h, start, acc)
      requires start == [] ||
               (Largest(Elems(ids) - blank, m) && Helping(cfg, h, w, known, start, m, acc, missing, fetches))
      ensures ExactOn(h, acc, SureIds(cfg, h, w, known, {}, ids, blank))
      ensures forall n, p ::
                PreviousHelps(cfg, w.ipfs, known, {}, Elems(ids) - blank, n, p) && ReachesAll(w.ipfs, p, ids, blank)
                ==> fetches <= 1
    {
      hide Usable;
      hide Floor;
      hide ClosestAbove;
      hide GapsFit;
      hide Expected;
      forall q | q in acc && q.1 in SureIds(cfg, h, w, known, {}, ids, blank) ensures q.0 == Expected(h, q.1) {
        if q.1 in start && q.1 !in SettledIds(cfg, h, w, ids) {
          var n, p :| PreviousHelps(cfg, w.ipfs, known, {}, Elems(ids) - blank, n, p)
            && Floor(w.ipfs, p) <= q.1 && q.1 != n;
          assert n == m;
        }
      }
      forall n, p | PreviousHelps(cfg, w.ipfs, known, {}, Elems(ids) - blank, n, p)
        && ReachesAll(w.ipfs, p, ids, blank)
        ensures fetches <= 1
      {
        assert n in start && n == m;
      }
    }

    /** w3_get_and_cache_finalized_cid_bulk_using_previous_snapshots: every requested epoch is
        answered exactly once, after at most one contract fetch per epoch. An epoch is answered
        exactly if it is blank, or the contract has settled it, or the closest known snapshot above
        the largest pending epoch reaches down to it; one fetch is enough if it reaches them all. Of
        the epochs that any one known snapshot reaches, at most one is not answered exactly. */
    method FetchBulkUsingPrevious(w: World, ids: seq<int>, known: seq<Pair>, now: int, ghost h: Hist)
      returns (r: Result<seq<Pair>>, fetches: nat)
      requires Consistent(h, w.ipfs) && Faithful(h, w) && Sound(h, State()) && Known(h, known)
      requires OnceEach(ids) && forall e :: e in ids ==> e !in hash
      modifies this, blank
      ensures Sound(h, State()) && old(hash.Keys) <= hash.Keys
      ensures r.Ok? <==> Cfg().Accepts(ids)
      ensures r.Ok? ==> multiset(EpochsOf(r.value)) == multiset(ids) && Answers(h, r.value)
      ensures r.Ok? ==> ExactOn(h, r.value, SureIds(Cfg(), h, w, known, {}, ids, old(State().blank)))
      ensures r.Ok? ==> OneLeft(Cfg(), h, w.ipfs, known, {}, r.value)
      ensures fetches <= |ids|
      ensures forall m, p ::
                PreviousHelps(Cfg(), w.ipfs, known, {}, Elems(ids) - old(State().blank), m, p)
                && ReachesAll(w.ipfs, p, ids, old(State().blank))
                ==> fetches <= 1
      ensures r.Ok? ==> KeptAll(Cfg(), h, w, State(), ids)
      ensures KeepsAll(old(State()), State())
    {
      hide KeptPairs;
      hide KeptAll;
      hide Splits;
      hide OnceEach;
      hide Exact;
      hide ExactOn;
      hide Answers;
      hide Unmarked;
      hide SoundBut;
      hide Turned;
      hide Helping;
      hide Rest;
      hide OneLeft;
      hide Walked;
      hide Unspent;
      hide SureIds;
      hide SettledIds;
      hide PreviousHelps;
      hide Consistent;
      hide Faithful;
      hide Known;
      fetches := 0;
      var split := SplitBlank(ids, h);
      if split.Err? {
        return Err(split.error), 0;
      }
      var acc, missing := split.value.0, split.value.1;
      var processed: seq<string> := [];
      ghost var blank0, start, m, sure := State().blank, missing, 0, SettledIds(Cfg(), h, w, ids);
      SplitsSize(ids, acc, missing);
      NothingYet(h);
      Gathered(h, [], acc);
      assert [] + acc == acc;
      UnmarkedStart(missing, State());
      RestFirst(h, start, acc);
      NoneLeft(Cfg(), h, w.ipfs, known, {}, acc, missing);
      SplitsFound(ids, acc, missing);
      KeptBlank(Cfg(), h, w, State(), acc);
      while missing != []
        invariant Pending(h, ids, acc, missing, sure)
        invariant fetches + |missing| <= |ids|
        invariant old(hash.Keys) <= hash.Keys
        invariant KeepsAll(old(State()), State()) && KeptPairs(Cfg(), h, w, State(), acc)
        invariant Rest(h, start, acc) && forall x :: x in missing ==> x in start
        invariant Walked(Cfg(), w.ipfs, known, processed, missing)
        invariant Unspent(Cfg(), h, w.ipfs, known, acc, missing) && OneLeft(Cfg(), h, w.ipfs, known, {}, acc)
        invariant if fetches == 0 then missing == start && processed == [] && Exact(h, acc)
                  else m in start && (forall x :: x in start ==> x <= m)
                       && Helping(Cfg(), h, w, known, start, m, acc, missing, fetches)
        decreases |missing|
      {
        var after, acc', missing';
        ghost var e, s0 := 0, State();
        after, acc', missing', e := FetchLargest(w, ids, known, processed, acc, missing, now, h, sure);
        RestNext(Cfg(), h, w, known, processed, start, acc, missing, after, acc', missing', e);
        OneLeftNext(Cfg(), h, w, known, processed, acc, missing, after, acc', missing', e);
        TurnedFrame(Cfg(), h, w, known, processed, acc, missing, after, acc', missing', e);
        if fetches == 0 {
          HelpingFirst(Cfg(), h, w, known, start, acc, after, acc', missing', e);
          m := e;
        } else {
          HelpingNext(Cfg(), h, w, known, processed, start, m, acc, missing, after, acc', missing', e, fetches);
        }
        KeptStays(Cfg(), h, w, s0, State(), acc, acc'[|acc|..]);
        processed, acc, missing, fetches := after, acc', missing', fetches + 1;
      }
      LargestPending(ids, blank0, start, m);
      AllSure(Cfg(), h, w, known, ids, blank0, start, m, acc, missing, fetches);
      SplitsDone(multiset(ids), acc);
      KeptAnswers(Cfg(), h, w, State(), acc, ids);
      r := Ok(acc);
    }

    // Blank epochs that are not cached are kept as they are.
    static lemma KeptBlank(cfg: Config, h: Hist, w: World, s: Cache, acc: seq<Pair>)
      requires Sound(h, s) && forall p :: p in acc ==> p.1 in s.blank && p.1 !in s.hash
      ensures KeptPairs(cfg, h, w, s, acc)
    {
      hide Reported;
    }

    static lemma RestFirst(h: Hist, start: seq<int>, acc: seq<Pair>)
      requires Exact(h, acc)
      ensures Rest(h, start, acc)
    {
    }

    static lemma LargestPending(ids: seq<int>, blank: set<int>, start: seq<int>, m: int)
      requires forall x :: x in start <==> x in ids && x !in blank
      ensures m in start && (forall x :: x in start ==> x <= m) ==> Largest(Elems(ids) - blank, m)
    {
    }

    static lemma TurnedFrame(
        cfg: Config, h: Hist, w: World, known: seq<Pair>, processed: seq<string>, acc: seq<Pair>, missing: seq<int>,
        after: seq<string>, acc': seq<Pair>, missing': seq<int>, e: int)
      requires Turned(cfg, h, w, known, processed, acc, missing, after, acc', missing', e)
      ensures e in missing && (forall x :: x in missing ==> x <= e) && forall x :: x in missing' ==> x in missing
      ensures acc <= acc' && acc + acc'[|acc|..] == acc'
    {
    }

    // One contract fetch, with what it means for the history.
    method FetchOne(w: World, e: int, now: int, ghost h: Hist) returns (cid: string)
      requires Consistent(h, w.ipfs) && Faithful(h, w) && Sound(h, State()) && Cfg().ValidId(e)
      modifies this, blank
      ensures Sound(h, State()) && Improves(h, old(State()), State(), {e}) && old(hash.Keys) <= hash.Keys
      ensures Answer(h, (cid, e))
      ensures GapsFit(Cfg(), h, w.ipfs) && Settled(h, w, e) ==> cid == Expected(h, e)
      ensures (State(), Ok(cid)) == Fetch(Cfg(), w, old(State()), e, now)
      ensures Reported(Cfg(), h, w, e) ==> Kept(h, State(), e)
    {
      hide Fetch;
      FetchImproves(Cfg(), h, w, State(), e, now);
      if GapsFit(Cfg(), h, w.ipfs) && Settled(h, w, e) {
        FetchIsExact(Cfg(), h, w, State(), e, now);
      }
      var fetched := FetchAndCache(w, e, now);
      cid := fetched.value;
    }

    // The contract's answers, fetched in batches of 50.
    static method BatchStatus(w: World, ids: seq<int>) returns (all: seq<Consensus>)
      ensures |all| == |ids| && forall i :: 0 <= i < |ids| ==> all[i] == w.statusOf(ids[i])
    {
      all := [];
      var i := 0;
      while i < |ids|
        invariant 0 <= i && |all| == Min(i, |ids|)
        invariant forall j :: 0 <= j < |all| ==> all[j] == w.statusOf(ids[j])
      {
        var batch := ids[i..Min(i + 50, |ids|)];
        all := all + seq(|batch|, j requires 0 <= j < |batch| => w.statusOf(batch[j]));
        i := i + 50;
      }
    }

    // Turn the contract's answers into pairs, hash writes and blank marks.
    static method Classify(w: World, ids: seq<int>, now: int, ghost h: Hist)
      returns (acc: seq<Pair>, data: map<int, Entry>, scores: map<int, int>, blanks: seq<int>)
      requires Faithful(h, w)
      ensures EpochsOf(acc) == ids && Answers(h, acc)
      ensures ExactOn(h, acc, set e | e in ids && Settled(h, w, e))
      ensures data == BatchData(w, ids) && scores == BatchScores(w, ids, now + ENTRY_EXPIRY)
      ensures blanks == BatchBlanks(w, ids)
    {
      hide NullCid;
      hide BatchData;
      hide BatchScores;
      hide BatchBlanks;
      var all := BatchStatus(w, ids);
      acc, blanks, data, scores := [], [], map[], map[];
      if ids == [] {
        BatchSnoc(w, [0], 0, now + ENTRY_EXPIRY);
        assert [0][..0] == ids;
      } else {
        BatchSnoc(w, ids, 0, now + ENTRY_EXPIRY);
      }
      ghost var sure := set e | e in ids && Settled(h, w, e);
      for k := 0 to |ids|
        invariant EpochsOf(acc) == ids[..k] && Answers(h, acc) && ExactOn(h, acc, sure)
        invariant data == BatchData(w, ids[..k]) && blanks == BatchBlanks(w, ids[..k])
        invariant scores == BatchScores(w, ids[..k], now + ENTRY_EXPIRY)
      {
        var e, st := ids[k], all[k];
        assert e in ids && st == w.statusOf(e);
        BatchSnoc(w, ids, k, now + ENTRY_EXPIRY);
        var cid := NullCid(e);
        if st.timestamp != 0 {
          if st.cid != "" {
            data, scores, cid := data[e := Entry(st.cid, st.status)], scores[e := now + ENTRY_EXPIRY], st.cid;
          } else {
            blanks := blanks + [e];
          }
        }
        Single(h, cid, e);
        ExactSingle(h, cid, e, sure);
        Gathered(h, acc, [(cid, e)]);
        EpochsConcat(acc, [(cid, e)]);
        assert ids[..k + 1] == ids[..k] + [e];
        acc := acc + [(cid, e)];
      }
      assert ids[..|ids|] == ids;
    }

    /** w3_get_and_cache_finalized_cid_bulk: one answer per requested epoch, in order. */
    method FetchBulk(w: World, ids: seq<int>, now: int, ghost h: Hist) returns (r: Result<seq<Pair>>)
      requires Faithful(h, w) && Sound(h, State())
      modifies this, blank
      ensures State() == Batch(Cfg(), w, old(State()), ids, now)
      ensures Sound(h, State()) && old(hash.Keys) <= hash.Keys
      ensures r.Ok? <==> Cfg().Accepts(BatchBlanks(w, ids))
      ensures Cfg().Accepts(ids) ==> r.Ok?
      ensures r.Ok? ==> EpochsOf(r.value) == ids && Answers(h, r.value)
      ensures r.Ok? ==> ExactOn(h, r.value, set e | e in ids && Settled(h, w, e))
      ensures r.Ok? ==> KeptAll(Cfg(), h, w, State(), ids)
      ensures KeepsAll(old(State()), State())
    {
      hide KeptAll;
      hide BitmapSpec.MembersBelow;
      hide BitmapSpec.SetInRange;
      hide BitmapSpec.Fast;
      hide Answers;
      hide Exact;
      hide ExactOn;
      hide BatchData;
      hide BatchScores;
      hide BatchBlanks;
      var acc, data, scores, blanks := Classify(w, ids, now, h);
      BatchMembers(h, w, ids);
      BatchImproves(Cfg(), h, w, State(), ids, now, {});
      if Cfg().Accepts(ids) {
        AcceptsSame(ids, blanks);
      }
      var written := bitmap.SetBitsInRange(blank, blanks);
      if written.Err? {
        return Err(written.error);
      }
      KeptBatch(Cfg(), h, w, State(), ids, now);
      hash, expiry := hash + data, expiry + scores;
      r := Ok(acc);
    }

    static lemma KeptBatch(cfg: Config, h: Hist, w: World, s: Cache, ids: seq<int>, now: int)
      requires Faithful(h, w) && cfg.Accepts(BatchBlanks(w, ids))
      ensures KeptAll(cfg, h, w, Batch(cfg, w, s, ids, now), ids)
    {
      hide Batch;
      hide GapsFit;
      forall e | e in ids && Reported(cfg, h, w, e) ensures Kept(h, Batch(cfg, w, s, ids, now), e) {
        BatchRemembers(cfg, w, s, ids, now, e);
      }
    }

    static method NullsFor(lo: int, hi: int) returns (nulls: seq<Pair>)
      ensures EpochsOf(nulls) == Range(lo, hi)
      ensures forall p :: p in nulls ==> p.0 == NullCid(p.1)
    {
      var epochs := Range(lo, hi);
      nulls := seq(|epochs|, i requires 0 <= i < |epochs| => (NullCid(epochs[i]), epochs[i]));
    }

    // The epochs the hash has a CID for, and those it has none for.
    method SplitCached(ids: seq<int>, ghost h: Hist) returns (hits: seq<Pair>, missing: seq<int>)
      requires Sound(h, State()) && OnceEach(ids)
      ensures Splits(multiset(ids), hits, missing) && Exact(h, hits) && OnceEach(missing)
      ensures forall p :: p in hits ==> p.1 in h && p.0 == h[p.1] && p.1 in hash
      ensures missing == Missing(hash.Keys, ids) && forall e :: e in missing ==> e !in hash
    {
      hide Splits;
      hits, missing := [], [];
      SplitsNothing([]);
      assert ids[..0] == [];
      for k := 0 to |ids|
        invariant Splits(multiset(ids[..k]), hits, missing) && Exact(h, hits)
        invariant forall p :: p in hits ==> p.1 in h && p.0 == h[p.1] && p.1 in hash
        invariant missing == Missing(hash.Keys, ids[..k]) && forall e :: e in missing ==> e !in hash
      {
        var e := ids[k];
        assert ids[..k + 1][..k] == ids[..k];
        if e in hash {
          SplitsSnoc(ids, k, hits, missing, hash[e].cid);
          hits := hits + [(hash[e].cid, e)];
        } else {
          SplitsSnoc(ids, k, hits, missing, "");
          missing := missing + [e];
        }
      }
      assert ids[..|ids|] == ids;
      SplitsSize(ids, hits, missing);
    }

    // Resolve epochs the hash has no CID for: by their blank bits, then from the contract.
    method ResolveMissing(w: World, missing: seq<int>, known: seq<Pair>, now: int, ghost h: Hist)
      returns (r: Result<seq<Pair>>)
      requires Consistent(h, w.ipfs) && Faithful(h, w) && Sound(h, State()) && Known(h, known)
      requires OnceEach(missing) && forall e :: e in missing ==> e !in hash
      modifies this, blank
      ensures Sound(h, State()) && old(hash.Keys) <= hash.Keys
      ensures r.Ok? <==> Cfg().Accepts(missing)
      ensures r.Ok? ==> multiset(EpochsOf(r.value)) == multiset(missing) && Answers(h, r.value)
      ensures r.Ok? ==>
        var blank0 := old(State().blank);
        && ExactOn(h, r.value, SureIds(Cfg(), h, w, known, Elems(missing) * blank0, missing, blank0))
        && OneLeft(Cfg(), h, w.ipfs, known, Elems(missing) * blank0, r.value)
      ensures r.Ok? ==> KeptAll(Cfg(), h, w, State(), missing)
      ensures KeepsAll(old(State()), State())
    {
      hide KeptAll;
      ghost var s0 := State();
      hide Splits;
      hide Exact;
      hide ExactOn;
      hide Answers;
      hide SoundBut;
      hide SureIds;
      hide OneLeft;
      ghost var blank0 := State().blank;
      ghost var marked := Elems(missing) * blank0;
      ghost var sure := SureIds(Cfg(), h, w, known, Elems(missing) * blank0, missing, blank0);
      var split := SplitBlank(missing, h);
      if split.Err? {
        return Err(split.error);
      }
      var nulls, unresolved := split.value.0, split.value.1;
      SplitsSize(missing, nulls, unresolved);
      AcceptsSame(missing, unresolved);
      NothingYet(h);
      Gathered(h, [], nulls);
      assert [] + nulls == nulls;
      if unresolved == [] {
        SplitsDone(multiset(missing), nulls);
        KeptRest(Cfg(), h, w, s0, s0, missing, []);
        NoneLeft(Cfg(), h, w.ipfs, known, marked, nulls, []);
        return Ok(nulls);
      }
      var fetched: seq<Pair>;
      if keep {
        KnownMore(h, known, nulls);
        var got, _ := FetchBulkUsingPrevious(w, unresolved, known + nulls, now, h);
        fetched := got.value;
        SplitsFound(missing, nulls, unresolved);
        SureStays(Cfg(), h, w, known, nulls, missing, unresolved, blank0, fetched);
        NullsAreNull(h, s0, missing, nulls);
        OneLeftStays(Cfg(), h, w, known, nulls, marked, fetched);
      } else {
        var got := FetchBulk(w, unresolved, now, h);
        fetched := got.value;
        SureSettled(Cfg(), h, w, known, missing, unresolved, blank0, fetched);
        NothingReaches(Cfg(), h, w, known, marked, nulls + fetched);
      }
      KeptRest(Cfg(), h, w, s0, State(), missing, unresolved);
      Gathered(h, nulls, fetched);
      SplitsJoin(multiset(missing), nulls, unresolved, fetched);
      r := Ok(nulls + fetched);
    }

    // What was blank stays so, and the rest was resolved.
    static lemma KeptRest(
        cfg: Config, h: Hist, w: World, s: Cache, t: Cache, missing: seq<int>, unresolved: seq<int>)
      requires Sound(h, s) && KeepsAll(s, t) && (forall e :: e in missing ==> e !in s.hash)
      requires forall e :: e in missing && e !in s.blank ==> e in unresolved
      requires unresolved == [] || KeptAll(cfg, h, w, t, unresolved)
      ensures KeptAll(cfg, h, w, t, missing)
    {
      hide Reported;
    }

    static lemma KeptRange(cfg: Config, h: Hist, w: World, s: Cache, t: Cache, ids: seq<int>, missing: seq<int>)
      requires Sound(h, s) && KeepsAll(s, t) && KeptAll(cfg, h, w, t, missing)
      requires forall e :: e in missing <==> e in ids && e !in s.hash
      ensures KeptAll(cfg, h, w, t, ids)
    {
      hide Reported;
    }

    // The blank epochs' null pairs are known by then, so they may hide a snapshot above them.
    static lemma SureStays(
        cfg: Config, h: Hist, w: World, known: seq<Pair>, nulls: seq<Pair>, missing: seq<int>, unresolved: seq<int>,
        blank: set<int>, fetched: seq<Pair>)
      requires forall e :: e in unresolved <==> e in missing && e !in blank
      requires forall p :: p in nulls ==> p.1 in missing && p.1 in blank
      requires multiset(EpochsOf(fetched)) == multiset(unresolved)
      requires ExactOn(h, fetched, SureIds(cfg, h, w, known + nulls, {}, unresolved, blank))
      ensures ExactOn(h, fetched, SureIds(cfg, h, w, known, Elems(missing) * blank, missing, blank))
    {
      hide Usable;
      hide Floor;
      hide GapsFit;
      hide Expected;
      FetchedIn(fetched, unresolved);
      SamePending(missing, unresolved, blank);
      forall e | e in unresolved && Helped(cfg, w.ipfs, known, Elems(missing) * blank, Elems(missing) - blank, e)
        ensures Helped(cfg, w.ipfs, known + nulls, {}, Elems(unresolved) - blank, e)
      {
        var m, p :| PreviousHelps(cfg, w.ipfs, known, Elems(missing) * blank, Elems(missing) - blank, m, p)
          && Floor(w.ipfs, p) <= e && e != m;
        forall q | q in known + nulls && m < q.1 ensures q == p || p.1 < q.1 {
          if q in nulls {
            var x := q.1;
            assert x in Elems(missing) * blank;
          }
        }
        assert ClosestAbove(known + nulls, {}, m, p);
        assert PreviousHelps(cfg, w.ipfs, known + nulls, {}, Elems(unresolved) - blank, m, p);
      }
    }

    static lemma OneLeftStays(
        cfg: Config, h: Hist, w: World, known: seq<Pair>, nulls: seq<Pair>, marked: set<int>, fetched: seq<Pair>)
      requires Exact(h, nulls) && forall p :: p in nulls ==> p.1 in marked && HasNull(p.0)
      requires OneLeft(cfg, h, w.ipfs, known + nulls, {}, fetched)
      ensures OneLeft(cfg, h, w.ipfs, known, marked, nulls + fetched)
    {
      hide Floor;
      hide Expected;
      forall p, e | Reaches(cfg, w.ipfs, known, marked, p, e)
        ensures Reaches(cfg, w.ipfs, known + nulls, {}, p, e)
      {
        assert Usable(cfg, w.ipfs, p);
      }
    }

    static lemma NullsAreNull(h: Hist, s: Cache, missing: seq<int>, nulls: seq<Pair>)
      requires Sound(h, s) && Exact(h, nulls) && forall e :: e in missing ==> e !in s.hash
      requires forall p :: p in nulls ==> p.1 in missing && p.1 in s.blank
      ensures forall p :: p in nulls ==> p.1 in Elems(missing) * s.blank && HasNull(p.0)
    {
      forall p | p in nulls ensures HasNull(p.0) {
        NullCidIsNull(p.1);
      }
    }

    static lemma NothingReaches(
        cfg: Config, h: Hist, w: World, known: seq<Pair>, marked: set<int>, ps: seq<Pair>)
      requires !cfg.keep
      ensures OneLeft(cfg, h, w.ipfs, known, marked, ps)
    {
      hide Floor;
      hide Expected;
      forall p, e ensures !Reaches(cfg, w.ipfs, known, marked, p, e) {
        assert p in known ==> (AllUsable(cfg, w.ipfs, known, p.0) ==> Usable(cfg, w.ipfs, p));
      }
    }

    static lemma SamePending(missing: seq<int>, unresolved: seq<int>, blank: set<int>)
      requires forall e :: e in unresolved <==> e in missing && e !in blank
      ensures Elems(missing) - blank == Elems(unresolved) - blank
    {
      forall e ensures e in Elems(missing) - blank <==> e in Elems(unresolved) - blank {
        assert e in Elems(missing) <==> e in missing;
        assert e in Elems(unresolved) <==> e in unresolved;
      }
    }

    static lemma SureSettled(
        cfg: Config, h: Hist, w: World, known: seq<Pair>, missing: seq<int>, unresolved: seq<int>, blank: set<int>,
        fetched: seq<Pair>)
      requires forall e :: e in unresolved <==> e in missing && e !in blank
      requires EpochsOf(fetched) == unresolved && !cfg.keep
      requires ExactOn(h, fetched, set e | e in unresolved && Settled(h, w, e))
      ensures ExactOn(h, fetched, SureIds(cfg, h, w, known, Elems(missing) * blank, missing, blank))
    {
      hide Settled;
      hide GapsFit;
      hide Expected;
      FetchedIn(fetched, unresolved);
    }

    static lemma FetchedIn(fetched: seq<Pair>, ids: seq<int>)
      requires multiset(EpochsOf(fetched)) == multiset(ids)
      ensures forall q :: q in fetched ==> q.1 in ids
    {
      assert Splits(multiset(ids), fetched, []);
      SplitsFound(ids, fetched, []);
    }

    static lemma KnownMore(h: Hist, known: seq<Pair>, more: seq<Pair>)
      requires Known(h, known) && Exact(h, more)
      ensures Known(h, known + more)
    {
      forall p | p in more ensures HasNull(p.0) || (p.1 in h && p.0 == h[p.1]) {
        NullCidIsNull(p.1);
      }
    }

    // Hash hits, then blanks and contract fetches for the rest, merged with beyond and sorted.
    method ResolveRange(w: World, beyond: seq<Pair>, lo: int, hi: int, max: int, now: int, ghost h: Hist)
      returns (r: Result<seq<string>>)
      requires Consistent(h, w.ipfs) && Faithful(h, w) && Sound(h, State())
      requires lo <= hi <= max && EpochsOf(beyond) == Range(hi + 1, max + 1)
      requires forall p :: p in beyond ==> p.0 == NullCid(p.1)
      modifies this, blank
      ensures Sound(h, State()) && old(hash.Keys) <= hash.Keys
      ensures r.Ok? <==> Cfg().Accepts(Missing(old(hash.Keys), Range(lo, hi + 1)))
      ensures r.Ok? ==> |r.value| == max - lo + 1 && Aligned(h, r.value, lo)
      ensures r.Ok? ==> AlignedOn(h, r.value, lo, hi, SureRange(Cfg(), h, w, old(State()), lo, hi))
      ensures r.Ok? ==> HolesFilled(Cfg(), h, w.ipfs, old(State()), r.value, lo, hi)
      ensures r.Ok? ==> KeptAll(Cfg(), h, w, State(), Range(lo, hi + 1))
      ensures KeepsAll(old(State()), State())
    {
      hide KeptAll;
      hide Splits;
      hide Exact;
      hide ExactOn;
      hide SureIds;
      hide SureRange;
      hide AlignedOn;
      hide Answers;
      hide SoundBut;
      hide OnceEach;
      hide Settled;
      hide NullCid;
      hide Aligned;
      hide AlignedExact;
      hide ExactUpTo;
      hide SortByEpoch;
      hide OneLeft;
      hide HolesFilled;
      var wanted := Range(lo, hi + 1);
      ghost var s0 := State();
      ghost var sure := SureRange(Cfg(), h, w, s0, lo, hi);
      RangeOnce(lo, hi + 1);
      var hits, missing := SplitCached(wanted, h);
      SplitsSize(wanted, hits, missing);
      KnownStart(h, beyond, hits);
      var resolved := ResolveMissing(w, missing, beyond + hits, now, h);
      if resolved.Err? {
        return Err(resolved.error);
      }
      SplitsJoin(multiset(wanted), hits, missing, resolved.value);
      FetchedIn(resolved.value, missing);
      MissingElems(s0.hash.Keys, wanted);
      KeptRange(Cfg(), h, w, s0, State(), wanted, missing);
      RangeSure(Cfg(), h, w, s0, beyond, hits, missing, lo, hi, max, resolved.value);
      Together(h, beyond, hits, resolved.value, lo, hi, max, sure);
      var pairs := beyond + (hits + resolved.value);
      LineUp(h, pairs, lo, max, hi, sure);
      InTheirPlaces(pairs, lo, max);
      HolesOf(
        Cfg(), h, w, s0, beyond, hits, missing, lo, hi, max, resolved.value, CidsOf(SortByEpoch(pairs)));
      r := Ok(CidsOf(SortByEpoch(pairs)));
    }

    /** get_project_finalized_cids_bulk: a non-empty answer has exactly one CID per epoch from
        max(min, first) to max, in epoch order, so that zipping it with that range pairs every CID
        with its own epoch; and every epoch of it that the contract has answered for is cached. */
    method GetFinalizedCidsBulk(w: World, epochMin: int, epochMax: int, now: int, ghost h: Hist)
      returns (r: Result<(seq<string>, int)>)
      requires Consistent(h, w.ipfs) && Faithful(h, w) && Sound(h, State())
      modifies this, blank
      ensures Sound(h, State()) && old(hash.Keys) <= hash.Keys
      ensures BulkAnswer(Cfg(), h, w, old(State()), epochMin, epochMax, r)
      ensures r.Ok? && r.value.0 != [] ==>
        var lo, hi := Max(epochMin, w.first), Min(epochMax, Max(w.lastSubmitted, w.lastFinalized));
        KeptAll(Cfg(), h, w, State(), Range(lo, hi + 1))
      ensures KeepsAll(old(State()), State())
    {
      hide KeptAll;
      hide SoundBut;
      hide Settled;
      hide Consistent;
      hide Faithful;
      hide Answer;
      hide GapsFit;
      hide Missing;
      hide Aligned;
      hide AlignedOn;
      hide HolesFilled;
      hide SureRange;
      ghost var lo0, hi0 := Max(epochMin, w.first), Min(epochMax, Max(w.lastSubmitted, w.lastFinalized));
      NothingAligned(h, lo0, hi0, SureRange(Cfg(), h, w, State(), lo0, hi0));
      NoHoles(Cfg(), h, w.ipfs, State(), lo0, hi0);
      if w.first == 0 {
        return Ok(([], 0));
      }
      var maxWithData := Max(w.lastSubmitted, w.lastFinalized);
      if epochMin > maxWithData {
        return Ok(([], w.first));
      }
      var beyond: seq<Pair> := [];
      if maxWithData < epochMax {
        beyond := NullsFor(maxWithData + 1, epochMax + 1);
      }
      var lo := epochMin;
      if lo < w.first {
        lo := w.first;
      }
      var hi := Min(epochMax, maxWithData);
      if lo > hi {
        return Ok(([], w.first));
      }
      var cids := ResolveRange(w, beyond, lo, hi, epochMax, now, h);
      if cids.Err? {
        return Err(cids.error);
      }
      r := Ok((cids.value, w.first));
    }

    static lemma NoHoles(cfg: Config, h: Hist, ipfs: Ipfs, s: Cache, lo: int, hi: int)
      ensures HolesFilled(cfg, h, ipfs, s, [], lo, hi)
    {
    }

    static lemma NothingAligned(h: Hist, lo: int, hi: int, sure: set<int>)
      ensures Aligned(h, [], lo) && AlignedOn(h, [], lo, hi, sure)
    {
    }

    static lemma KnownStart(h: Hist, beyond: seq<Pair>, hits: seq<Pair>)
      requires forall p :: p in beyond ==> p.0 == NullCid(p.1)
      requires forall p :: p in hits ==> p.1 in h && p.0 == h[p.1]
      ensures Known(h, beyond + hits)
    {
      forall p | p in beyond ensures HasNull(p.0) {
        NullCidIsNull(p.1);
      }
    }

    // What is sure in the range is sure among the epochs that still have to be resolved.
    static lemma RangeSure(
        cfg: Config, h: Hist, w: World, s: Cache, beyond: seq<Pair>, hits: seq<Pair>, missing: seq<int>,
        lo: int, hi: int, max: int, resolved: seq<Pair>)
      requires Sound(h, s) && missing == Missing(s.hash.Keys, Range(lo, hi + 1))
      requires EpochsOf(beyond) == Range(hi + 1, max + 1)
      requires forall p :: p in hits ==> p.1 in h && p.0 == h[p.1]
      requires Splits(multiset(Range(lo, hi + 1)), hits, missing) && forall e :: e in missing ==> e !in s.hash
      requires forall q :: q in resolved ==> q.1 in missing
      requires ExactOn(h, resolved, SureIds(cfg, h, w, beyond + hits, Elems(missing) * s.blank, missing, s.blank))
      ensures ExactOn(h, resolved, SureRange(cfg, h, w, s, lo, hi))
    {
      hide Usable;
      hide Floor;
      hide GapsFit;
      hide Expected;
      hide Splits;
      hide Settled;
      hide Missing;
      BeyondAbove(beyond, hi, max);
      HitsCover(s, hits, missing, lo, hi);
      forall e | e in missing && exists m :: NeighbourHelps(cfg, h, w.ipfs, s, lo, hi, m, e)
        ensures Helped(cfg, w.ipfs, beyond + hits, Elems(missing) * s.blank, Elems(missing) - s.blank, e)
      {
        var m :| NeighbourHelps(cfg, h, w.ipfs, s, lo, hi, m, e);
        var p := (h[m + 1], m + 1);
        NeighbourIsLargest(s, missing, lo, hi, m);
        forall q | q in beyond + hits && m < q.1 ensures q == p || p.1 < q.1 {
        }
        assert p in hits;
        assert ClosestAbove(beyond + hits, Elems(missing) * s.blank, m, p);
        assert PreviousHelps(cfg, w.ipfs, beyond + hits, Elems(missing) * s.blank, Elems(missing) - s.blank, m, p);
      }
    }

    // A cached epoch with a hole below it is the closest known pair above the hole's epochs.
    static lemma HolesOf(
        cfg: Config, h: Hist, w: World, s: Cache, beyond: seq<Pair>, hits: seq<Pair>, missing: seq<int>,
        lo: int, hi: int, max: int, resolved: seq<Pair>, cids: seq<string>)
      requires Sound(h, s) && missing == Missing(s.hash.Keys, Range(lo, hi + 1))
      requires EpochsOf(beyond) == Range(hi + 1, max + 1) && (forall p :: p in beyond ==> p.0 == NullCid(p.1))
      requires forall p :: p in hits ==> p.1 in h && p.0 == h[p.1] && p.1 in s.hash
      requires Splits(multiset(Range(lo, hi + 1)), hits, missing) && forall e :: e in missing ==> e !in s.hash
      requires |cids| == max - lo + 1
      requires forall i :: 0 <= i < max - lo + 1 ==> (cids[i], lo + i) in beyond + (hits + resolved)
      requires OneLeft(cfg, h, w.ipfs, beyond + hits, Elems(missing) * s.blank, resolved)
      ensures HolesFilled(cfg, h, w.ipfs, s, cids, lo, hi)
    {
      hide Expected;
      hide Splits;
      hide Missing;
      hide Below;
      BeyondAbove(beyond, hi, max);
      HitsCover(s, hits, missing, lo, hi);
      SplitsFound(Range(lo, hi + 1), hits, missing);
      forall c, e, f | lo <= e < f < lo + |cids|
                       && Below(cfg, h, w.ipfs, s, lo, hi, c, e) && Below(cfg, h, w.ipfs, s, lo, hi, c, f)
        ensures cids[e - lo] == Expected(h, e) || cids[f - lo] == Expected(h, f)
      {
        BelowReaches(cfg, h, w.ipfs, s, beyond, hits, missing, lo, hi, c, e);
        BelowReaches(cfg, h, w.ipfs, s, beyond, hits, missing, lo, hi, c, f);
        assert (cids[e - lo], lo + (e - lo)) in beyond + (hits + resolved);
        assert (cids[f - lo], lo + (f - lo)) in beyond + (hits + resolved);
        assert (cids[e - lo], e) in resolved && (cids[f - lo], f) in resolved;
      }
    }

    static lemma BelowReaches(
        cfg: Config, h: Hist, ipfs: Ipfs, s: Cache, beyond: seq<Pair>, hits: seq<Pair>, missing: seq<int>,
        lo: int, hi: int, c: int, e: int)
      requires Below(cfg, h, ipfs, s, lo, hi, c, e)
      requires forall p :: p in beyond ==> p.1 > hi && p.0 == NullCid(p.1)
      requires forall p :: p in hits ==> p.1 in h && p.0 == h[p.1] && lo <= p.1 <= hi && p.1 in s.hash
      requires forall x :: lo <= x <= hi && x in s.hash ==> exists p :: p in hits && p.1 == x
      requires forall x :: x in missing ==> x !in s.hash
      ensures lo <= e <= hi && e !in s.hash
      ensures Reaches(cfg, ipfs, beyond + hits, Elems(missing) * s.blank, (h[c], c), e)
    {
      hide Usable;
      hide Floor;
      hide NullCid;
      var p := (h[c], c);
      assert p in hits;
      forall x | e <= x < c ensures x !in s.hash && x !in s.blank {
        assert Open(s, x);
      }
      forall q | q in beyond + hits && e < q.1 ensures q == p || p.1 < q.1 {
        assert q in hits ==> q.1 in s.hash;
      }
      forall x | x in Elems(missing) * s.blank && e < x ensures p.1 < x {
        assert x in missing && x in s.blank;
      }
      UsableIsNotNull(cfg, ipfs, p);
      forall q | q in beyond + hits && q.0 == p.0 ensures Usable(cfg, ipfs, q) {
        if q in beyond {
          NullCidIsNull(q.1);
        } else {
          assert q == (h[c], q.1);
        }
      }
    }

    static lemma UsableIsNotNull(cfg: Config, ipfs: Ipfs, p: Pair)
      ensures Usable(cfg, ipfs, p) ==> !HasNull(p.0)
    {
    }

    static lemma NeighbourIsLargest(s: Cache, missing: seq<int>, lo: int, hi: int, m: int)
      requires forall x :: x in missing <==> lo <= x <= hi && x !in s.hash
      requires LargestOpen(s, lo, hi, m) && m < hi && m + 1 in s.hash
      ensures Largest(Elems(missing) - s.blank, m)
      ensures forall x :: x in Elems(missing) * s.blank && m < x ==> m + 1 < x
    {
      assert m in missing;
      forall x | x in Elems(missing) - s.blank ensures x <= m {
        assert x in missing;
        assert Open(s, x);
      }
      forall x | x in Elems(missing) * s.blank && m < x ensures m + 1 < x {
        assert x in missing;
      }
    }

    static lemma BeyondAbove(beyond: seq<Pair>, hi: int, max: int)
      requires EpochsOf(beyond) == Range(hi + 1, max + 1)
      ensures forall p :: p in beyond ==> p.1 > hi
    {
      forall p | p in beyond ensures p.1 > hi {
        var i :| 0 <= i < |beyond| && beyond[i] == p;
        assert EpochsOf(beyond)[i] == p.1;
      }
    }

    static lemma HitsCover(s: Cache, hits: seq<Pair>, missing: seq<int>, lo: int, hi: int)
      requires Splits(multiset(Range(lo, hi + 1)), hits, missing) && forall e :: e in missing ==> e !in s.hash
      requires missing == Missing(s.hash.Keys, Range(lo, hi + 1))
      ensures forall x :: x in missing <==> lo <= x <= hi && x !in s.hash
      ensures forall x :: lo <= x <= hi && x in s.hash ==> exists p :: p in hits && p.1 == x
    {
      MissingElems(s.hash.Keys, Range(lo, hi + 1));
      forall x | lo <= x <= hi && x in s.hash ensures exists p :: p in hits && p.1 == x {
        assert x in Range(lo, hi + 1);
        assert x in multiset(Range(lo, hi + 1));
        assert x !in multiset(missing);
        assert x in multiset(EpochsOf(hits));
        assert x in EpochsOf(hits);
        var i :| 0 <= i < |hits| && EpochsOf(hits)[i] == x;
        assert hits[i] in hits && hits[i].1 == x;
      }
    }

    static lemma {:induction false} MissingElems(cached: set<int>, es: seq<int>)
      ensures forall x :: x in Missing(cached, es) <==> x in es && x !in cached
    {
      if es != [] {
        MissingElems(cached, es[..|es| - 1]);
        assert es == es[..|es| - 1] + [es[|es| - 1]];
      }
    }

    static lemma Together(
        h: Hist, beyond: seq<Pair>, hits: seq<Pair>, resolved: seq<Pair>, lo: int, hi: int, max: int, sure: set<int>)
      requires lo <= hi <= max && EpochsOf(beyond) == Range(hi + 1, max + 1)
      requires forall p :: p in beyond ==> p.0 == NullCid(p.1)
      requires multiset(EpochsOf(hits + resolved)) == multiset(Range(lo, hi + 1))
      requires Exact(h, hits) && Answers(h, resolved)
      ensures multiset(EpochsOf(beyond + (hits + resolved))) == multiset(Range(lo, max + 1))
      ensures Answers(h, beyond + (hits + resolved))
      ensures ExactOn(h, resolved, sure) ==> ExactUpTo(h, beyond + (hits + resolved), hi, sure)
    {
      hide NullCid;
      EpochsConcat(beyond, hits + resolved);
      RangeJoin(lo, hi + 1, max + 1);
      forall p | p in beyond ensures p.1 > hi {
        var i :| 0 <= i < |beyond| && beyond[i] == p;
        assert EpochsOf(beyond)[i] == p.1;
      }
      forall p | p in hits + resolved ensures p.1 <= hi {
        var i :| 0 <= i < |hits + resolved| && (hits + resolved)[i] == p;
        var e := EpochsOf(hits + resolved)[i];
        assert e in multiset(EpochsOf(hits + resolved));
        assert e in multiset(Range(lo, hi + 1));
        assert e in Range(lo, hi + 1);
      }
    }

    /** get_project_finalized_cid: a present answer is the history's CID; for an epoch the cache
        or a settled contract knows, the answer is exact. */
    method GetFinalizedCid(w: World, e: int, now: int, ghost h: Hist) returns (r: Result<Option<string>>)
      requires Consistent(h, w.ipfs) && Faithful(h, w) && Sound(h, State())
      modifies this, blank
      ensures Sound(h, State()) && old(hash.Keys) <= hash.Keys
      ensures r.Ok? <==> w.first == 0 || e < w.first || e in old(hash) || Cfg().ValidId(e)
      ensures r.Ok? && r.value.Some? ==> e in h && r.value.value == h[e]
      ensures r.Ok? && w.first != 0 && w.first <= e && GapsFit(Cfg(), h, w.ipfs) && (e in old(hash) || Settled(h, w, e))
              ==> r.value == if e in h then Some(h[e]) else None
      ensures State() ==
        if w.first == 0 || e < w.first || !Open(old(State()), e) || !Cfg().ValidId(e) then old(State())
        else Fetch(Cfg(), w, old(State()), e, now).0
    {
      hide BitmapSpec.MembersBelow;
      hide Fetch;
      if w.first == 0 || e < w.first {
        return Ok(None);
      }
      var cid := "";
      if e in hash {
        cid := hash[e].cid;
      } else {
        var blankBit := bitmap.GetBit(blank, e);
        if blankBit.Err? {
          return Err(blankBit.error);
        }
        if blankBit.value {
          cid := NullCid(e);
        } else {
          cid := FetchOne(w, e, now, h);
        }
      }
      NullCidIsNull(e);
      hide HasNull;
      if HasNull(cid) {
        return Ok(None);
      }
      r := Ok(Some(cid));
    }
  }
}
