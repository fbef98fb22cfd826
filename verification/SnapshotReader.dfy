/** get_project_epoch_snapshot_bulk: the snapshots of a range of epochs, in epoch order. */
module SnapshotReader {
  import opened Common
  import opened Text
  import opened History
  import opened CacheModel
  import opened Resolver
  import opened Sorting
  import opened ProjectStore
  import opened Submissions

  /** The snapshots of the history from epoch lo to epoch hi, one per finalized epoch. */
  ghost function WindowData(h: Hist, ipfs: Ipfs, lo: int, hi: int): seq<Data>
    decreases hi - lo
  {
    if hi < lo then []
    else WindowData(h, ipfs, lo, hi - 1) + if hi in h then [FetchData(ipfs, h[hi])] else []
  }

  // A window's lower end does not matter below the first finalized epoch.
  lemma {:induction false} WindowTrim(h: Hist, ipfs: Ipfs, lo: int, mid: int, hi: int)
    requires lo <= mid && forall e :: e in h ==> mid <= e
    ensures WindowData(h, ipfs, lo, hi) == WindowData(h, ipfs, mid, hi)
    decreases hi - lo
  {
    if lo <= hi {
      WindowTrim(h, ipfs, lo, mid, hi - 1);
    }
  }

  lemma {:induction false} WindowEmpty(h: Hist, ipfs: Ipfs, lo: int, hi: int)
    requires forall e :: lo <= e <= hi ==> e !in h
    ensures WindowData(h, ipfs, lo, hi) == []
    decreases hi - lo
  {
    if lo <= hi {
      WindowEmpty(h, ipfs, lo, hi - 1);
    }
  }

  lemma {:induction false} WindowSplit(h: Hist, ipfs: Ipfs, lo: int, mid: int, hi: int)
    requires lo <= mid + 1 <= hi + 1
    ensures WindowData(h, ipfs, lo, hi) == WindowData(h, ipfs, lo, mid) + WindowData(h, ipfs, mid + 1, hi)
    decreases hi - mid
  {
    hide FetchData;
    if mid < hi {
      WindowSplit(h, ipfs, lo, mid, hi - 1);
    }
  }

  // get_tail_epoch_id: the window's first epoch, clamped at the project's first one.
  function Tail(first: int, window: nat, epoch: int): int {
    if epoch - window < first then first else epoch - window
  }

  // The window reaches back window epochs, or to the first one if that is closer.
  lemma TailIs(first: int, window: nat, epoch: int)
    ensures var tail := Tail(first, window, epoch);
            tail >= first && tail >= epoch - window && (tail == first || epoch - tail == window)
  {
  }

  ghost predicate FromFirst(h: Hist, first: int) {
    forall e :: e in h ==> first <= e
  }

  // The pairs left after zipping CIDs with their epochs and dropping the null ones.
  function ValidPairs(cids: seq<string>, lo: int): seq<Pair> {
    if cids == [] then [] else
    var front, last := cids[..|cids| - 1], cids[|cids| - 1];
    if last != "" && !HasNull(last) then ValidPairs(front, lo) + [(last, lo + |front|)] else ValidPairs(front, lo)
  }

  // Every surviving pair is an epoch of the history with its own CID, in increasing epoch order.
  ghost predicate OwnPairs(h: Hist, ps: seq<Pair>, lo: int, hi: int) {
    && (forall i :: 0 <= i < |ps| ==> lo <= ps[i].1 <= hi && ps[i].1 in h && ps[i].0 == h[ps[i].1])
    && (forall i, j :: 0 <= i < j < |ps| ==> ps[i].1 < ps[j].1)
  }

  lemma AlignedFront(h: Hist, cids: seq<string>, lo: int)
    requires Aligned(h, cids, lo) && cids != []
    ensures Aligned(h, cids[..|cids| - 1], lo) && Answer(h, (cids[|cids| - 1], lo + |cids| - 1))
  {
    hide Answer;
    var front := cids[..|cids| - 1];
    forall i | 0 <= i < |front| ensures Answer(h, (front[i], lo + i)) {
      assert Answer(h, (cids[i], lo + i));
    }
    assert Answer(h, (cids[|cids| - 1], lo + (|cids| - 1)));
  }

  lemma OwnSnoc(h: Hist, ps: seq<Pair>, lo: int, hi: int, cid: string)
    requires OwnPairs(h, ps, lo, hi - 1) && lo <= hi
    ensures OwnPairs(h, ps, lo, hi)
    ensures Answer(h, (cid, hi)) && !HasNull(cid) ==> OwnPairs(h, ps + [(cid, hi)], lo, hi)
  {
    NullCidIsNull(hi);
    hide HasNull;
    hide NullCid;
  }

  lemma {:induction false} AlignedPairs(h: Hist, cids: seq<string>, lo: int)
    requires Aligned(h, cids, lo)
    ensures OwnPairs(h, ValidPairs(cids, lo), lo, lo + |cids| - 1) && |ValidPairs(cids, lo)| <= |cids|
  {
    hide HasNull;
    hide Answer;
    hide Aligned;
    hide OwnPairs;
    if cids == [] {
      NoOwnPairs(h, lo, lo - 1);
    } else {
      var n := |cids| - 1;
      AlignedFront(h, cids, lo);
      AlignedPairs(h, cids[..n], lo);
      OwnSnoc(h, ValidPairs(cids[..n], lo), lo, lo + n, cids[n]);
    }
  }

  function Datas(ps: seq<Pair>, ipfs: Ipfs): seq<Data> {
    seq(|ps|, i requires 0 <= i < |ps| => FetchData(ipfs, ps[i].0))
  }

  lemma DatasSnoc(ps: seq<Pair>, p: Pair, ipfs: Ipfs)
    ensures Datas(ps + [p], ipfs) == Datas(ps, ipfs) + [FetchData(ipfs, p.0)]
  {
    hide FetchData;
  }

  lemma ExactFront(h: Hist, ipfs: Ipfs, cids: seq<string>, lo: int, hi: int)
    requires Consistent(h, ipfs) && AlignedExact(h, cids, lo, hi) && cids != []
    requires forall e :: e in h && e < lo + |cids| ==> e <= hi
    ensures var n := |cids| - 1;
            && AlignedExact(h, cids[..n], lo, hi)
            && if lo + n in h then cids[n] == h[lo + n] && cids[n] != "" && !HasNull(cids[n]) else HasNull(cids[n])
  {
    hide HasNull;
    hide NullCid;
    NullCidIsNull(lo + |cids| - 1);
  }

  lemma {:induction false} ExactPairs(h: Hist, ipfs: Ipfs, cids: seq<string>, lo: int, hi: int)
    requires Consistent(h, ipfs) && AlignedExact(h, cids, lo, hi)
    requires forall e :: e in h && e < lo + |cids| ==> e <= hi
    ensures Datas(ValidPairs(cids, lo), ipfs) == WindowData(h, ipfs, lo, lo + |cids| - 1)
  {
    hide HasNull;
    hide FetchData;
    hide Consistent;
    hide AlignedExact;
    hide Datas;
    if cids == [] {
      NoPairs(lo, ipfs);
    } else {
      var n := |cids| - 1;
      ExactFront(h, ipfs, cids, lo, hi);
      ExactPairs(h, ipfs, cids[..n], lo, hi);
      DatasSnoc(ValidPairs(cids[..n], lo), (cids[n], lo + n), ipfs);
    }
  }

  // As many increasing epochs as the range has are all of them.
  lemma {:induction false} FullPairs(h: Hist, ps: seq<Pair>, lo: int, hi: int)
    requires OwnPairs(h, ps, lo, hi) && |ps| == hi - lo + 1
    ensures forall i :: 0 <= i < |ps| ==> ps[i].1 == lo + i
    decreases |ps|
  {
    if ps != [] {
      LeastIndex(h, ps, lo, hi, |ps| - 1);
      FullPairs(h, ps[..|ps| - 1], lo, hi - 1);
    }
  }

  lemma {:induction false} LeastIndex(h: Hist, ps: seq<Pair>, lo: int, hi: int, i: nat)
    requires OwnPairs(h, ps, lo, hi) && i < |ps|
    ensures ps[i].1 >= lo + i
  {
    if i > 0 {
      LeastIndex(h, ps, lo, hi, i - 1);
    }
  }

  // A bulk answer for a range that can be answered carries the history's window.
  lemma CoveredWindow(
      cfg: Config, h: Hist, w: World, s: Cache, lite: map<string, Data>, min: int, max: int,
      r: Result<(seq<string>, int)>)
    requires Consistent(h, w.ipfs) && CanAnswer(cfg, h, w, s.hash.Keys, lite, min, max)
    requires BulkAnswer(cfg, h, w, s, min, max, r)
    ensures r.Ok? && Datas(ValidPairs(r.value.0, Max(min, w.first)), w.ipfs) == WindowData(h, w.ipfs, min, max)
  {
    hide WindowData;
    hide ValidPairs;
    hide Consistent;
    hide AlignedExact;
    hide AlignedOn;
    hide HolesFilled;
    hide Aligned;
    hide Datas;
    hide GapsFit;
    hide Settled;
    var cached := s.hash.Keys;
    var lo, hi := Max(min, w.first), Min(max, Max(w.lastSubmitted, w.lastFinalized));
    var wanted := Range(lo, hi + 1);
    assert cfg.Accepts(Missing(cached, wanted)) by {
      forall k | 0 <= k < |Missing(cached, wanted)| ensures cfg.ValidId(Missing(cached, wanted)[k]) {
        var x := Missing(cached, wanted)[k];
        assert x in Missing(cached, wanted) && x in wanted;
        var i :| 0 <= i < |wanted| && wanted[i] == x;
      }
    }
    var list := r.value.0;
    if list == [] {
      WindowEmpty(h, w.ipfs, min, max);
      NoPairs(lo, w.ipfs);
    } else {
      SureIsExact(h, list, lo, hi, SureRange(cfg, h, w, s, lo, hi));
      ExactPairs(h, w.ipfs, list, lo, hi);
      if min < w.first {
        WindowTrim(h, w.ipfs, min, w.first, max);
      }
    }
  }

  // The surviving pairs of any bulk answer.
  lemma BulkPairs(
      cfg: Config, h: Hist, w: World, s: Cache, min: int, max: int, r: Result<(seq<string>, int)>)
    requires BulkAnswer(cfg, h, w, s, min, max, r) && r.Ok?
    ensures var lo, ps := Max(min, w.first), ValidPairs(r.value.0, Max(min, w.first));
            && OwnPairs(h, ps, lo, max)
            && (|ps| == max - lo + 1 ==> forall i :: 0 <= i < |ps| ==> ps[i].1 == lo + i)
  {
    hide ValidPairs;
    hide AlignedOn;
    hide HolesFilled;
    hide Aligned;
    var lo, ps := Max(min, w.first), ValidPairs(r.value.0, Max(min, w.first));
    AlignedPairs(h, r.value.0, lo);
    if r.value.0 == [] {
      NoPairs(lo, w.ipfs);
      assert |Datas(ps, w.ipfs)| == |ps|;
    }
    if |ps| == max - lo + 1 {
      FullPairs(h, ps, lo, max);
    }
  }

  lemma NoPairs(lo: int, ipfs: Ipfs)
    ensures Datas(ValidPairs([], lo), ipfs) == []
  {
  }

  lemma NoOwnPairs(h: Hist, lo: int, hi: int)
    ensures OwnPairs(h, [], lo, hi)
  {
  }

  lemma BulkShape(
      cfg: Config, h: Hist, w: World, s: Cache, min: int, max: int, r: Result<(seq<string>, int)>)
    requires BulkAnswer(cfg, h, w, s, min, max, r)
    ensures r.Ok? <==> Accepted(cfg, w, s.hash.Keys, min, max)
    ensures r.Ok? ==> r.value.1 == w.first && (r.value.0 == [] || |r.value.0| == max - Max(min, w.first) + 1)
  {
  }

  lemma LiteOfCanAnswer(
      cfg: Config, h: Hist, w: World, cached: set<int>, lite: map<string, Data>, lo: int, hi: int)
    requires CanAnswer(cfg, h, w, cached, lite, lo, hi)
    ensures forall c :: c in lite ==> lite[c] == FetchData(w.ipfs, c)
  {
  }

  lemma SameDatas(ps: seq<Pair>, lite: map<string, Data>, ipfs: Ipfs, r: seq<Data>)
    requires |r| == |ps| && forall i :: 0 <= i < |ps| ==> r[i] == Lookup(lite, ipfs, ps[i].0)
    requires forall c :: c in lite ==> lite[c] == FetchData(ipfs, c)
    ensures r == Datas(ps, ipfs)
  {
  }

  // The cached epochs, the lite cache, the contract and the content store together can answer for
  // every epoch of lo..hi.
  ghost predicate CanAnswer(
      cfg: Config, h: Hist, w: World, cached: set<int>, lite: map<string, Data>, lo: int, hi: int) {
    var data := Max(w.lastSubmitted, w.lastFinalized);
    && GapsFit(cfg, h, w.ipfs)
    && cfg.Accepts(Range(Max(lo, w.first), Min(hi, data) + 1))
    && (forall e :: e in h ==> w.first != 0 && w.first <= e)
    && (forall e :: e in h && e <= hi ==> e <= data)
    && (forall e :: lo <= e <= hi ==> e in cached || Settled(h, w, e))
    && (forall c :: c in lite ==> lite[c] == FetchData(w.ipfs, c))
  }

  // What answers for a range answers for its parts, and goes on doing so while the caches grow.
  lemma CanAnswerPart(
      cfg: Config, h: Hist, w: World, cached: set<int>, lite: map<string, Data>, lo: int, hi: int, from: int, to: int)
    requires CanAnswer(cfg, h, w, cached, lite, lo, hi) && lo <= from && to <= hi
    ensures CanAnswer(cfg, h, w, cached, lite, from, to)
  {
    var data := Max(w.lastSubmitted, w.lastFinalized);
    var all, part := Range(Max(lo, w.first), Min(hi, data) + 1), Range(Max(from, w.first), Min(to, data) + 1);
    forall k | 0 <= k < |part| ensures cfg.ValidId(part[k]) {
      var x := part[k];
      assert x in part && x in all;
    }
  }

  lemma CanAnswerStill(
      cfg: Config, h: Hist, w: World, cached: set<int>, lite: map<string, Data>, more: set<int>,
      grown: map<string, Data>, cacheCids: bool, lo: int, hi: int)
    requires CanAnswer(cfg, h, w, cached, lite, lo, hi) && cached <= more && Grew(lite, grown, w.ipfs, cacheCids)
    ensures CanAnswer(cfg, h, w, more, grown, lo, hi)
  {
  }

  /** ds are snapshots of epochs of the history from max(lo, first) to hi, each read under its own
      epoch's CID, in increasing epoch order; some may be missing. */
  ghost predicate ReadFrom(h: Hist, w: World, lite: map<string, Data>, lo: int, hi: int, ds: seq<Data>) {
    exists pairs :: OwnPairs(h, pairs, Max(lo, w.first), hi) && ReadsOf(lite, w.ipfs, pairs, ds)
  }

  ghost predicate ReadsOf(lite: map<string, Data>, ipfs: Ipfs, pairs: seq<Pair>, ds: seq<Data>) {
    |ds| == |pairs| && forall i :: 0 <= i < |pairs| ==> ds[i] == Lookup(lite, ipfs, pairs[i].0)
  }

  // A growing lite cache reads the same.
  lemma ReadBefore(
      h: Hist, w: World, lite: map<string, Data>, grown: map<string, Data>, cacheCids: bool, lo: int, hi: int,
      ds: seq<Data>)
    requires Grew(lite, grown, w.ipfs, cacheCids) && ReadFrom(h, w, grown, lo, hi, ds)
    ensures ReadFrom(h, w, lite, lo, hi, ds)
  {
    var pairs :| OwnPairs(h, pairs, Max(lo, w.first), hi) && ReadsOf(grown, w.ipfs, pairs, ds);
    assert ReadsOf(lite, w.ipfs, pairs, ds);
  }

  lemma ReadNothing(h: Hist, w: World, lite: map<string, Data>, lo: int, hi: int)
    ensures ReadFrom(h, w, lite, lo, hi, [])
  {
    NoOwnPairs(h, Max(lo, w.first), hi);
    assert ReadsOf(lite, w.ipfs, [], []);
  }

  class SnapshotReader {
    const store: ProjectStore
    const cids: CidCache

    constructor (store: ProjectStore, cids: CidCache)
      ensures this.store == store && this.cids == cids
    {
      this.store, this.cids := store, cids;
    }

    ghost predicate Covers(h: Hist, w: World, lo: int, hi: int)
      reads store, store.blank, cids
    {
      CanAnswer(store.Cfg(), h, w, store.hash.Keys, cids.lite, lo, hi)
    }

    static method Zip(cids: seq<string>, lo: int, hi: int) returns (pairs: seq<Pair>)
      requires cids == [] || |cids| == hi - lo + 1
      ensures pairs == ValidPairs(cids, lo)
    {
      pairs := [];
      for k := 0 to |cids|
        invariant pairs == ValidPairs(cids[..k], lo)
      {
        assert cids[..k + 1][..k] == cids[..k];
        if cids[k] != "" && !HasNull(cids[k]) {
          pairs := pairs + [(cids[k], lo + k)];
        }
      }
      assert cids[..|cids|] == cids;
    }

    // One pair for every epoch of the clamped range.
    static predicate Full(w: World, pairs: seq<Pair>, epochMin: int, epochMax: int) {
      |pairs| == epochMax - Max(epochMin, w.first) + 1
    }

    /** Whatever the cache holds, every returned snapshot belongs to an epoch of the history in the
        range, read under that epoch's own CID, in epoch order. It fails when the bulk resolver does;
        with ensure_complete also when the pairs are full but some CID is left unread. With
        ensure_complete it is empty unless the pairs are full and the first batch can be read. When
        cache and contract cover the range, what is returned is exactly the history's window. */
    method GetEpochSnapshotBulk(w: World, epochMin: int, epochMax: int, ensureComplete: bool, now: int, ghost h: Hist)
      returns (r: Result<seq<Data>>, ghost pairs: seq<Pair>)
      requires Consistent(h, w.ipfs) && Faithful(h, w) && Sound(h, store.State())
      modifies store, store.blank, cids
      ensures Sound(h, store.State()) && old(store.hash.Keys) <= store.hash.Keys
      ensures Grew(old(cids.lite), cids.lite, w.ipfs, cids.cacheCids)
      ensures OwnPairs(h, pairs, Max(epochMin, w.first), epochMax)
      ensures r.Err? <==>
        || !Accepted(store.Cfg(), w, old(store.hash.Keys), epochMin, epochMax)
        || (ensureComplete && Full(w, pairs, epochMin, epochMax) && LeavesUnread(old(cids.lite), w.ipfs, CidsOf(pairs)))
      ensures r.Ok? ==>
        if ensureComplete && !(Full(w, pairs, epochMin, epochMax) && Readable(old(cids.lite), w.ipfs, CidsOf(pairs)))
        then r.value == []
        else |r.value| == |pairs|
             && forall i :: 0 <= i < |pairs| ==> r.value[i] == Lookup(old(cids.lite), w.ipfs, pairs[i].0)
      ensures Full(w, pairs, epochMin, epochMax) ==>
        forall i :: 0 <= i < |pairs| ==> pairs[i].1 == Max(epochMin, w.first) + i
      ensures old(Covers(h, w, epochMin, epochMax)) ==>
        && Accepted(store.Cfg(), w, old(store.hash.Keys), epochMin, epochMax)
        && Datas(pairs, w.ipfs) == WindowData(h, w.ipfs, epochMin, epochMax)
        && (!ensureComplete ==> r.Ok?)
        && (r.Ok? && (!ensureComplete || r.value != []) ==> r.value == WindowData(h, w.ipfs, epochMin, epochMax))
    {
      hide SoundBut;
      hide Consistent;
      hide Faithful;
      hide HasNull;
      hide BulkAnswer;
      hide Accepted;
      hide CanAnswer;
      hide ValidPairs;
      hide WindowData;
      hide Grew;
      hide LeavesUnread;
      hide Readable;
      pairs := [];
      NoOwnPairs(h, Max(epochMin, w.first), epochMax);
      GrewNothing(cids.lite, w.ipfs, cids.cacheCids);
      ghost var covered := Covers(h, w, epochMin, epochMax);
      ghost var s0, cached, lite := store.State(), store.hash.Keys, cids.lite;
      var got := store.GetFinalizedCidsBulk(w, epochMin, epochMax, now, h);
      if covered {
        CoveredWindow(store.Cfg(), h, w, s0, lite, epochMin, epochMax, got);
      }
      BulkShape(store.Cfg(), h, w, s0, epochMin, epochMax, got);
      if got.Err? {
        return Err(got.error), [];
      }
      BulkPairs(store.Cfg(), h, w, s0, epochMin, epochMax, got);
      var list, first := got.value.0, got.value.1;
      var lo := Max(epochMin, first);
      var valid := Zip(list, lo, epochMax);
      pairs := valid;
      if ensureComplete && |valid| != epochMax - lo + 1 {
        return Ok([]), valid;
      }
      r := cids.GetSubmissionDataBulk(w.ipfs, CidsOf(valid), ensureComplete);
      if covered && r.Ok? && |r.value| == |valid| {
        LiteOfCanAnswer(store.Cfg(), h, w, cached, lite, epochMin, epochMax);
        SameDatas(valid, lite, w.ipfs, r.value);
      }
    }

    // The snapshots of lo..hi: the history's window when the node can answer for a larger range.
    method Window(w: World, lo: int, hi: int, ghost from: int, ghost to: int, now: int, ghost h: Hist)
      returns (r: Result<seq<Data>>)
      requires Consistent(h, w.ipfs) && Faithful(h, w) && Sound(h, store.State())
      requires from <= lo && hi <= to
      modifies store, store.blank, cids
      ensures Sound(h, store.State()) && Grew(old(cids.lite), cids.lite, w.ipfs, cids.cacheCids)
      ensures r.Ok? ==> ReadFrom(h, w, old(cids.lite), lo, hi, r.value)
      ensures old(Covers(h, w, from, to)) ==> Covers(h, w, from, to) && r == Ok(WindowData(h, w.ipfs, lo, hi))
    {
      hide CanAnswer;
      hide SoundBut;
      hide Consistent;
      hide Faithful;
      hide WindowData;
      hide OwnPairs;
      hide Grew;
      hide Accepted;
      hide LeavesUnread;
      ghost var covered := Covers(h, w, from, to);
      ghost var keys, lite := store.hash.Keys, cids.lite;
      if covered {
        CanAnswerPart(store.Cfg(), h, w, keys, lite, from, to, lo, hi);
      }
      ghost var pairs;
      r, pairs := GetEpochSnapshotBulk(w, lo, hi, false, now, h);
      if r.Ok? {
        assert ReadsOf(lite, w.ipfs, pairs, r.value);
      }
      if covered {
        CanAnswerStill(store.Cfg(), h, w, keys, lite, store.hash.Keys, cids.lite, cids.cacheCids, from, to);
      }
    }
  }
}
