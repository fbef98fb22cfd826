/** get_project_time_series_data: snapshots of equally spaced epochs, counted back from the last
    step boundary before the end time and stopping at the project's first epoch. */
module TimeSeries {
  import opened Common
  import opened Text
  import opened History
  import opened CacheModel
  import opened Resolver
  import opened ProjectStore
  import opened Submissions
  import opened SnapshotReader

  // int(seconds / (epoch size * block time)), over exact reals
  function EpochsIn(seconds: nat, epochSeconds: real): (n: nat)
    requires epochSeconds > 0.0
    ensures n as real * epochSeconds <= seconds as real < n as real * epochSeconds + epochSeconds
  {
    WholeEpochs(seconds as real / epochSeconds, seconds as real, epochSeconds);
    (seconds as real / epochSeconds).Floor
  }

  lemma Fraction(r: real, d: real)
    requires 0.0 <= r < 1.0 && d > 0.0
    ensures 0.0 <= r * d < d
  {
    assert (1.0 - r) * d > 0.0;
    assert (1.0 - r) * d == d - r * d;
  }

  lemma Distribute(n: real, r: real, q: real, d: real)
    requires q == n + r
    ensures q * d == n * d + r * d
  {
  }

  lemma WholeEpochs(q: real, s: real, d: real)
    requires d > 0.0 && s >= 0.0 && q == s / d
    ensures q >= 0.0
    ensures q.Floor as real * d <= s
    ensures s < q.Floor as real * d + d
  {
    var n := q.Floor as real;
    var r := q - n;
    Fraction(r, d);
    Distribute(n, r, q, d);
    assert q * d == s;
    var whole, part := n * d, r * d;
    assert s == whole + part < whole + d;
  }

  // int(a / b), truncating toward zero
  function Truncated(a: int, b: int): (q: int)
    requires b > 0
    ensures if a >= 0 then 0 <= a - q * b < b else -b < a - q * b <= 0
  {
    var n := if a >= 0 then a else -a;
    assert n == (n / b) * b + n % b;
    if a >= 0 then n / b else -(n / b)
  }

  function Sampled(first: int, start: int, step: nat, k: nat): int {
    Max(first, start - k * step)
  }

  /** The epochs start, start - step, start - 2 step, ... cut off at first: as many as asked for,
      fewer only when first was reached, and never past it. */
  ghost predicate Spaced(epochs: seq<int>, first: int, start: int, step: nat, steps: int) {
    && 1 <= |epochs| <= 1 + Max(0, steps)
    && (forall k :: 0 <= k < |epochs| ==> epochs[k] == Sampled(first, start, step, k))
    && (forall k :: 0 <= k < |epochs| - 1 ==> epochs[k] > first)
    && (|epochs| == 1 + Max(0, steps) || epochs[|epochs| - 1] == first)
  }

  // Those conditions leave no choice.
  lemma SpacedIsUnique(a: seq<int>, b: seq<int>, first: int, start: int, step: nat, steps: int)
    requires Spaced(a, first, start, step, steps) && Spaced(b, first, start, step, steps)
    ensures a == b
  {
    hide Sampled;
  }

  // And no epoch is looked at twice unless the step is zero, which makes all of them the same.
  lemma {:induction false} SpacedDescends(
      epochs: seq<int>, first: int, start: int, step: nat, steps: int, i: nat, j: nat)
    requires Spaced(epochs, first, start, step, steps) && i < j < |epochs|
    ensures if step > 0 then epochs[i] > epochs[j] >= first else epochs[i] == epochs[j]
  {
    NextSample(first, start, step, j - 1);
    hide Sampled;
    if i < j - 1 {
      SpacedDescends(epochs, first, start, step, steps, i, j - 1);
    }
  }

  lemma NextSample(first: int, start: int, step: nat, k: nat)
    ensures Sampled(first, start, step, k + 1) == Max(first, Sampled(first, start, step, k) - step)
    ensures Sampled(first, start, step, 0) == Max(first, start)
  {
    assert (k + 1) * step == k * step + step;
  }

  method Epochs(first: int, startTime: int, endTime: int, stepSeconds: nat, endEpoch: int, epochSeconds: real)
    returns (epochs: seq<int>)
    requires stepSeconds > 0 && epochSeconds > 0.0
    ensures var gap := endTime % stepSeconds;
            Spaced(epochs, first, endEpoch - EpochsIn(gap, epochSeconds), EpochsIn(stepSeconds, epochSeconds),
                   Truncated(endTime - gap - startTime, stepSeconds))
  {
    hide EpochsIn;
    hide Truncated;
    hide Sampled;
    var stop := false;
    var gap := endTime % stepSeconds;
    var head := endEpoch - EpochsIn(gap, epochSeconds);
    ghost var start := head;
    if head <= first {
      head, stop := first, true;
    }
    epochs := [head];
    var remaining := Truncated(endTime - gap - startTime, stepSeconds);
    var step := EpochsIn(stepSeconds, epochSeconds);
    NextSample(first, start, step, 0);
    var count := 0;
    while !stop && count < remaining
      invariant 0 <= count <= Max(0, remaining) && |epochs| == count + 1
      invariant epochs[count] == head == Sampled(first, start, step, count)
      invariant first <= head && (stop <==> head == first)
      invariant forall k :: 0 <= k < count ==> epochs[k] == Sampled(first, start, step, k) && epochs[k] > first
      decreases remaining - count
    {
      var tail := head - step;
      NextSample(first, start, step, count);
      if tail <= first {
        tail, stop := first, true;
      }
      epochs := epochs + [tail];
      head := tail;
      count := count + 1;
    }
  }

  // cids[k] is empty, or the history's CID for epochs[k].
  ghost predicate OwnCids(h: Hist, epochs: seq<int>, cids: seq<string>) {
    |cids| == |epochs| && forall k :: 0 <= k < |cids| ==> cids[k] == "" || (epochs[k] in h && cids[k] == h[epochs[k]])
  }

  ghost function CidOf(h: Hist, e: int): string {
    if e in h then h[e] else ""
  }

  // What a sampled epoch should read as: its snapshot, or nothing.
  ghost function Sample(h: Hist, ipfs: Ipfs, e: int): Data {
    if e in h then FetchData(ipfs, h[e]) else None
  }

  // Cached epochs, contract, lite cache and bitmap together settle every sampled epoch.
  ghost predicate Settles(
      cfg: Config, h: Hist, w: World, cached: set<int>, lite: map<string, Data>, epochs: seq<int>) {
    && w.first != 0 && GapsFit(cfg, h, w.ipfs)
    && (forall k :: 0 <= k < |epochs| ==> cfg.ValidId(epochs[k]) && (epochs[k] in cached || Settled(h, w, epochs[k])))
    && (forall c :: c in lite ==> lite[c] == FetchData(w.ipfs, c))
  }

  // The CIDs of the sampled epochs; "" stands for the None of a null epoch.
  method Cids(store: ProjectStore, w: World, epochs: seq<int>, now: int, ghost h: Hist, ghost lite: map<string, Data>)
    returns (r: Result<seq<string>>)
    requires Consistent(h, w.ipfs) && Faithful(h, w) && Sound(h, store.State())
    requires forall k :: 0 <= k < |epochs| ==> w.first <= epochs[k]
    modifies store, store.blank
    ensures Sound(h, store.State()) && old(store.hash.Keys) <= store.hash.Keys
    ensures (forall k :: 0 <= k < |epochs| ==> store.Cfg().ValidId(epochs[k])) ==> r.Ok?
    ensures r.Ok? ==> OwnCids(h, epochs, r.value)
    ensures r.Ok? && Settles(store.Cfg(), h, w, old(store.hash.Keys), lite, epochs) ==>
              forall k :: 0 <= k < |epochs| ==> r.value[k] == CidOf(h, epochs[k])
  {
    hide SoundBut;
    hide Settled;
    hide GapsFit;
    hide Consistent;
    hide Faithful;
    var cids: seq<string> := [];
    ghost var sure := Settles(store.Cfg(), h, w, store.hash.Keys, lite, epochs);
    for k := 0 to |epochs|
      invariant Sound(h, store.State()) && old(store.hash.Keys) <= store.hash.Keys
      invariant OwnCids(h, epochs[..k], cids)
      invariant sure ==> forall i :: 0 <= i < k ==> cids[i] == CidOf(h, epochs[i])
    {
      var got := store.GetFinalizedCid(w, epochs[k], now, h);
      if got.Err? {
        return Err(got.error);
      }
      cids := cids + [if got.value.Some? then got.value.value else ""];
    }
    assert epochs[..|epochs|] == epochs;
    r := Ok(cids);
  }

  /** The sampled epochs are equally spaced back from the last step boundary; every returned snapshot
      was read under the history's CID of its own epoch, or is empty; and when all sampled epochs
      are settled, the result is exactly the history's sample, one entry per epoch. */
  method GetTimeSeries(
      reader: SnapshotReader, w: World, startTime: int, endTime: int, stepSeconds: nat, endEpoch: int,
      epochSeconds: real, now: int, ghost h: Hist)
    returns (r: Result<seq<Data>>, epochs: seq<int>, ghost cids: seq<string>)
    requires stepSeconds > 0 && epochSeconds > 0.0
    requires Consistent(h, w.ipfs) && Faithful(h, w) && Sound(h, reader.store.State())
    modifies reader.store, reader.store.blank, reader.cids
    ensures Sound(h, reader.store.State())
    ensures var gap := endTime % stepSeconds;
            Spaced(epochs, w.first, endEpoch - EpochsIn(gap, epochSeconds), EpochsIn(stepSeconds, epochSeconds),
                   Truncated(endTime - gap - startTime, stepSeconds))
    ensures r.Ok? ==> OwnCids(h, epochs, cids) && |r.value| == |epochs|
                      && forall k :: 0 <= k < |epochs| ==> r.value[k] == Lookup(old(reader.cids.lite), w.ipfs, cids[k])
    ensures Settles(reader.store.Cfg(), h, w, old(reader.store.hash.Keys), old(reader.cids.lite), epochs) ==>
              r == Ok(seq(|epochs|, k requires 0 <= k < |epochs| => Sample(h, w.ipfs, epochs[k])))
  {
    hide SoundBut;
    hide EpochsIn;
    hide Truncated;
    hide Settled;
    hide GapsFit;
    hide HasNull;
    hide Grew;
    hide FirstBatch;
    hide Resolves;
    cids := [];
    epochs := Epochs(w.first, startTime, endTime, stepSeconds, endEpoch, epochSeconds);
    ghost var lite, sure := reader.cids.lite,
      Settles(reader.store.Cfg(), h, w, reader.store.hash.Keys, reader.cids.lite, epochs);
    var got := Cids(reader.store, w, epochs, now, h, lite);
    if got.Err? {
      return Err(got.error), epochs, [];
    }
    cids := got.value;
    r := reader.cids.GetSubmissionDataBulk(w.ipfs, got.value, false);
    if sure {
      forall k | 0 <= k < |epochs| ensures r.value[k] == Sample(h, w.ipfs, epochs[k]) {
        assert r.value[k] == Lookup(lite, w.ipfs, cids[k]) == FetchData(w.ipfs, cids[k]);
      }
      assert r.value == seq(|epochs|, k requires 0 <= k < |epochs| => Sample(h, w.ipfs, epochs[k]));
    }
  }
}
