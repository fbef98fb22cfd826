/** The cached trade volume of a sliding window of epochs, updated message by message. */
module VolumeWindow {
  import opened Common
  import opened History
  import opened Text
  import opened CacheModel
  import opened Resolver
  import opened Submissions
  import opened SnapshotReader

  // What one snapshot adds: a positive totalTrade, or nothing.
  function Contribution(d: Data): int {
    if d.Some? && d.value.trade.Some? && d.value.trade.value > 0 then d.value.trade.value else 0
  }

  function SumOf(ds: seq<Data>): (s: int)
    ensures s >= 0
  {
    if ds == [] then 0 else SumOf(ds[..|ds| - 1]) + Contribution(ds[|ds| - 1])
  }

  /** The traded volume of the epochs lo..hi of the history. */
  ghost function Volume(h: Hist, ipfs: Ipfs, lo: int, hi: int): int {
    SumOf(WindowData(h, ipfs, lo, hi))
  }

  lemma {:induction false} SumConcat(a: seq<Data>, b: seq<Data>)
    ensures SumOf(a + b) == SumOf(a) + SumOf(b)
  {
    if b == [] {
      assert a + b == a;
    } else {
      assert (a + b)[..|a + b| - 1] == a + b[..|b| - 1];
      SumConcat(a, b[..|b| - 1]);
    }
  }

  lemma VolumeSplit(h: Hist, ipfs: Ipfs, lo: int, mid: int, hi: int)
    requires lo <= mid + 1 <= hi + 1
    ensures Volume(h, ipfs, lo, hi) == Volume(h, ipfs, lo, mid) + Volume(h, ipfs, mid + 1, hi)
  {
    WindowSplit(h, ipfs, lo, mid, hi);
    SumConcat(WindowData(h, ipfs, lo, mid), WindowData(h, ipfs, mid + 1, hi));
  }

  // values: the trade_volume_data keys by epoch; latest: the latest:epoch marker, 0 if absent.
  datatype Index = Index(values: map<int, int>, latest: int)

  // A cached value inside the new window is corrected, otherwise the window is summed anew; newer
  // and older are the snapshots read for that.
  predicate Corrects(v: Index, tail: int) {
    v.latest > tail && v.latest in v.values
  }

  function Combined(v: Index, tail: int, epoch: int, newer: seq<Data>, older: seq<Data>): int {
    if !Corrects(v, tail) then SumOf(newer)
    else if epoch > v.latest then Max(0, v.values[v.latest] + SumOf(newer) - SumOf(older))
    else v.values[v.latest]
  }

  // The old value is dropped after the new one was set, so a message that repeats the marker's epoch
  // leaves no value at all.
  function Stored(v: Index, epoch: int, total: int): Index {
    var values := v.values[epoch := total];
    Index(if v.latest > 0 then values - {v.latest} else values, epoch)
  }

  ghost function Total(h: Hist, ipfs: Ipfs, first: int, window: nat, v: Index, epoch: int): int {
    var tail := Tail(first, window, epoch);
    var newer := WindowData(h, ipfs, if Corrects(v, tail) then v.latest + 1 else tail, epoch);
    Combined(v, tail, epoch, newer, WindowData(h, ipfs, tail - (epoch - v.latest), tail - 1))
  }

  /** One handled message, when every snapshot of the windows involved is there. */
  ghost function Handle(h: Hist, ipfs: Ipfs, first: int, window: nat, v: Index, epoch: int): Index {
    Stored(v, epoch, Total(h, ipfs, first, window, v, epoch))
  }

  // What was read for a message.
  ghost predicate Read(
      h: Hist, w: World, lite: map<string, Data>, v: Index, tail: int, epoch: int, newer: seq<Data>, older: seq<Data>) {
    && ReadFrom(h, w, lite, if Corrects(v, tail) then v.latest + 1 else tail, epoch, newer)
    && ReadFrom(h, w, lite, tail - (epoch - v.latest), tail - 1, older)
  }

  class VolumeIndexer {
    const reader: SnapshotReader
    const window: nat
    var values: map<int, int>
    var latest: int

    constructor (reader: SnapshotReader, window: nat)
      ensures this.reader == reader && this.window == window && values == map[] && latest == 0
    {
      this.reader, this.window := reader, window;
      values, latest := map[], 0;
    }

    ghost function State(): Index
      reads this
    {
      Index(values, latest)
    }

    static method Add(ds: seq<Data>, start: int) returns (total: int)
      ensures total == start + SumOf(ds)
    {
      total := start;
      for k := 0 to |ds|
        invariant total == start + SumOf(ds[..k])
      {
        assert ds[..k + 1][..k] == ds[..k];
        if ds[k].Some? && ds[k].value.trade.Some? {
          var volume := ds[k].value.trade.value;
          if volume > 0 {
            total := total + volume;
          }
        }
      }
      assert ds[..|ds|] == ds;
    }

    static method Subtract(ds: seq<Data>, start: int) returns (total: int)
      ensures total == start - SumOf(ds)
    {
      total := start;
      for k := 0 to |ds|
        invariant total == start - SumOf(ds[..k])
      {
        assert ds[..k + 1][..k] == ds[..k];
        if ds[k].Some? && ds[k].value.trade.Some? {
          var volume := ds[k].value.trade.value;
          if volume > 0 {
            total := total - volume;
          }
        }
      }
      assert ds[..|ds|] == ds;
    }

    // The volume of the message's window, corrected from the marker's value or summed anew.
    method WindowTotal(w: World, epoch: int, now: int, ghost h: Hist)
      returns (r: Result<int>, ghost newer: seq<Data>, ghost older: seq<Data>)
      requires Consistent(h, w.ipfs) && Faithful(h, w) && Sound(h, reader.store.State())
      modifies reader.store, reader.store.blank, reader.cids
      ensures Sound(h, reader.store.State())
      ensures r.Ok? ==> r.value == Combined(State(), Tail(w.first, window, epoch), epoch, newer, older)
      ensures r.Ok? ==> Read(h, w, old(reader.cids.lite), State(), Tail(w.first, window, epoch), epoch, newer, older)
      ensures var tail := Tail(w.first, window, epoch);
              old(reader.Covers(h, w, Min(tail, tail - (epoch - latest)), epoch)) ==>
                r == Ok(Total(h, w.ipfs, w.first, window, State(), epoch))
    {
      hide CanAnswer;
      hide SoundBut;
      hide Consistent;
      hide Faithful;
      hide WindowData;
      hide SumOf;
      hide ReadFrom;
      hide Grew;
      newer, older := [], [];
      var tail := Tail(w.first, window, epoch);
      ghost var from, lite := Min(tail, tail - (epoch - latest)), reader.cids.lite;
      ReadNothing(h, w, lite, latest + 1, epoch);
      ReadNothing(h, w, lite, tail - (epoch - latest), tail - 1);
      if latest > tail && latest in values {
        var correct := epoch - latest;
        if correct <= 0 {
          return Ok(values[latest]), newer, older;
        }
        var entering := reader.Window(w, latest + 1, epoch, from, epoch, now, h);
        if entering.Err? {
          return Err(entering.error), newer, older;
        }
        ghost var grown := reader.cids.lite;
        var leaving := reader.Window(w, tail - correct, tail - 1, from, epoch, now, h);
        if leaving.Err? {
          return Err(leaving.error), newer, older;
        }
        ReadBefore(h, w, lite, grown, reader.cids.cacheCids, tail - correct, tail - 1, leaving.value);
        var total := Add(entering.value, values[latest]);
        total := Subtract(leaving.value, total);
        return Ok(Max(0, total)), entering.value, leaving.value;
      }
      var all := reader.Window(w, tail, epoch, from, epoch, now, h);
      if all.Err? {
        return Err(all.error), newer, older;
      }
      var total := Add(all.value, 0);
      r, newer := Ok(total), all.value;
    }

    /** _process_trade_volume_from_base_snapshot_message. The new state is the combination of what was
        read, each snapshot under its own epoch's CID; when cache and contract cover every epoch that
        the window and its correction reach, it is the one Handle describes; a failed fetch leaves
        the state alone. */
    method Process(w: World, epoch: int, now: int, ghost h: Hist)
      returns (r: Result<int>, ghost newer: seq<Data>, ghost older: seq<Data>)
      requires Consistent(h, w.ipfs) && Faithful(h, w) && Sound(h, reader.store.State())
      modifies this, reader.store, reader.store.blank, reader.cids
      ensures Sound(h, reader.store.State())
      ensures var tail := Tail(w.first, window, epoch);
              r.Ok? ==>
                && State() == Stored(old(State()), epoch, r.value)
                && r.value == Combined(old(State()), tail, epoch, newer, older)
                && Read(h, w, old(reader.cids.lite), old(State()), tail, epoch, newer, older)
      ensures var tail := Tail(w.first, window, epoch);
              old(reader.Covers(h, w, Min(tail, tail - (epoch - latest)), epoch)) ==>
                r.Ok? && State() == Handle(h, w.ipfs, w.first, window, old(State()), epoch)
      ensures r.Err? ==> State() == old(State())
    {
      hide CanAnswer;
      hide SoundBut;
      hide Consistent;
      hide Faithful;
      hide Total;
      hide Combined;
      hide ReadFrom;
      r, newer, older := WindowTotal(w, epoch, now, h);
      if r.Err? {
        return;
      }
      values := values[epoch := r.value];
      if latest > 0 {
        values := values - {latest};
      }
      latest := epoch;
    }
  }

  // ----- what the handler keeps -----

  // Only the marker's epoch may have a value, and that value is the window's exact volume.
  ghost predicate Fresh(h: Hist, ipfs: Ipfs, first: int, window: nat, v: Index) {
    && v.latest >= 0 && v.values.Keys <= {v.latest} && 0 !in v.values
    && (v.latest in v.values ==> v.values[v.latest] == Volume(h, ipfs, Tail(first, window, v.latest), v.latest))
  }

  // The incremental correction, also when the old window was clamped at the first epoch.
  lemma CorrectionIsExact(h: Hist, ipfs: Ipfs, first: int, window: nat, last: int, epoch: int)
    requires FromFirst(h, first) && Tail(first, window, epoch) < last < epoch
    ensures var tail := Tail(first, window, epoch);
            Volume(h, ipfs, Tail(first, window, last), last) + Volume(h, ipfs, last + 1, epoch)
              - Volume(h, ipfs, tail - (epoch - last), tail - 1)
            == Volume(h, ipfs, tail, epoch)
  {
    hide WindowData;
    hide SumOf;
    var tail, oldTail := Tail(first, window, epoch), Tail(first, window, last);
    var from := tail - (epoch - last);
    VolumeSplit(h, ipfs, oldTail, tail - 1, last);
    VolumeSplit(h, ipfs, tail, last, epoch);
    if epoch - window < first {
      WindowEmpty(h, ipfs, from, tail - 1);
      WindowEmpty(h, ipfs, oldTail, tail - 1);
    } else {
      assert from == last - window;
      if last - window < first {
        WindowTrim(h, ipfs, from, first, tail - 1);
      }
    }
  }

  /** A message that is not older than the marker stores the exact volume of its window, and the
      value is present unless the message repeats the marker's epoch. */
  lemma HandleStaysFresh(h: Hist, ipfs: Ipfs, first: int, window: nat, v: Index, epoch: int)
    requires FromFirst(h, first) && Fresh(h, ipfs, first, window, v)
    requires 0 < epoch && v.latest <= epoch
    ensures var t := Handle(h, ipfs, first, window, v, epoch);
            Fresh(h, ipfs, first, window, t) && t.latest == epoch && (epoch in t.values <==> epoch != v.latest)
  {
    hide WindowData;
    if v.latest > Tail(first, window, epoch) && v.latest in v.values && v.latest < epoch {
      CorrectionIsExact(h, ipfs, first, window, v.latest, epoch);
    }
  }

  ghost function Run(h: Hist, ipfs: Ipfs, first: int, window: nat, epochs: seq<int>): Index {
    if epochs == [] then Index(map[], 0)
    else Handle(h, ipfs, first, window, Run(h, ipfs, first, window, epochs[..|epochs| - 1]), epochs[|epochs| - 1])
  }

  /** Incremental equals fresh: over every run of messages with nondecreasing epochs, the value at
      the marker, when there is one, is the exact volume of the marker's window; it is missing
      exactly when the last message repeated the epoch before it. */
  lemma {:induction false} IncrementalEqualsFresh(h: Hist, ipfs: Ipfs, first: int, window: nat, epochs: seq<int>)
    requires FromFirst(h, first)
    requires forall i :: 0 <= i < |epochs| ==> 0 < epochs[i]
    requires forall i, j :: 0 <= i < j < |epochs| ==> epochs[i] <= epochs[j]
    ensures var v := Run(h, ipfs, first, window, epochs);
            && Fresh(h, ipfs, first, window, v)
            && v.latest == (if epochs == [] then 0 else epochs[|epochs| - 1])
            && (epochs != [] ==> (v.latest in v.values <==> |epochs| == 1 || epochs[|epochs| - 2] != v.latest))
  {
    if epochs != [] {
      hide Handle;
      var front, last := epochs[..|epochs| - 1], epochs[|epochs| - 1];
      IncrementalEqualsFresh(h, ipfs, first, window, front);
      HandleStaysFresh(h, ipfs, first, window, Run(h, ipfs, first, window, front), last);
    }
  }

  ghost predicate ExactAt(h: Hist, ipfs: Ipfs, first: int, window: nat, v: Index, epoch: int) {
    epoch in v.values ==> v.values[epoch] == Volume(h, ipfs, Tail(first, window, epoch), epoch)
  }

  ghost predicate CachedAt(h: Hist, ipfs: Ipfs, first: int, window: nat, v: Index, last: int) {
    FromFirst(h, first) && Fresh(h, ipfs, first, window, v) && v.latest == last && last in v.values
  }

  /** Message order matters: with a cached value at marker last, handling a message is exact for
      every history if and only if the message is not older than the marker, or the marker lies at
      or below the message's own tail. */
  lemma LateMessagesAreStale(first: int, window: nat, last: int, epoch: int)
    requires 0 < epoch
    ensures (forall h, ipfs, v :: CachedAt(h, ipfs, first, window, v, last) ==>
               ExactAt(h, ipfs, first, window, Handle(h, ipfs, first, window, v, epoch), epoch))
        <==> last <= epoch || last <= Tail(first, window, epoch)
  {
    if last <= epoch || last <= Tail(first, window, epoch) {
      forall h, ipfs, v | CachedAt(h, ipfs, first, window, v, last)
        ensures ExactAt(h, ipfs, first, window, Handle(h, ipfs, first, window, v, epoch), epoch)
      {
        if last <= epoch {
          HandleStaysFresh(h, ipfs, first, window, v, epoch);
        }
      }
    } else {
      var h: Hist := map[last := "c"];
      var ipfs: Ipfs := map["c" := Snapshot([], Some(1), map[])];
      var v := Index(map[last := 1], last);
      var tail := Tail(first, window, last);
      WindowEmpty(h, ipfs, tail, last - 1);
      WindowSplit(h, ipfs, tail, last - 1, last);
      WindowEmpty(h, ipfs, Tail(first, window, epoch), epoch);
      OneTrade(h, ipfs, last);
      assert CachedAt(h, ipfs, first, window, v, last);
      assert !ExactAt(h, ipfs, first, window, Handle(h, ipfs, first, window, v, epoch), epoch);
    }
  }

  lemma OneTrade(h: Hist, ipfs: Ipfs, e: int)
    requires e in h && h[e] == "c" && ipfs == map["c" := Snapshot([], Some(1), map[])]
    ensures SumOf(WindowData(h, ipfs, e, e)) == 1
  {
    hide WindowData;
    hide SumOf;
    hide FetchData;
    OneFetch(ipfs);
    OneEpoch(h, ipfs, e);
    SumOfOne(FetchData(ipfs, "c"));
  }

  lemma OneEpoch(h: Hist, ipfs: Ipfs, e: int)
    requires e in h
    ensures WindowData(h, ipfs, e, e) == [FetchData(ipfs, h[e])]
  {
    hide FetchData;
    assert WindowData(h, ipfs, e, e - 1) == [];
  }

  lemma SumOfOne(d: Data)
    ensures SumOf([d]) == Contribution(d)
  {
    assert [d][..0] == [];
  }

  lemma OneFetch(ipfs: Ipfs)
    requires ipfs == map["c" := Snapshot([], Some(1), map[])]
    ensures FetchData(ipfs, "c") == Some(Snapshot([], Some(1), map[]))
  {
    hide HasNull;
    ShortHasNoNull("c");
  }

  /** Volume counts what is stored: one epoch's volume is the totalTrade of its snapshot, when that can
      be fetched and is positive, and 0 otherwise. */
  lemma VolumeOfEpoch(h: Hist, ipfs: Ipfs, e: int)
    ensures Volume(h, ipfs, e, e) ==
            if e in h && h[e] != "" && !HasNull(h[e]) && h[e] in ipfs
               && ipfs[h[e]].trade.Some? && ipfs[h[e]].trade.value > 0
            then ipfs[h[e]].trade.value else 0
  {
    hide HasNull;
    if e in h {
      OneEpoch(h, ipfs, e);
      SumOfOne(FetchData(ipfs, h[e]));
    } else {
      WindowEmpty(h, ipfs, e, e);
    }
  }

  // So a window's volume is the sum over its epochs.
  lemma VolumeSteps(h: Hist, ipfs: Ipfs, lo: int, hi: int)
    ensures hi < lo ==> Volume(h, ipfs, lo, hi) == 0
    ensures lo <= hi ==> Volume(h, ipfs, lo, hi) == Volume(h, ipfs, lo, hi - 1) + Volume(h, ipfs, hi, hi)
  {
    if lo <= hi {
      VolumeSplit(h, ipfs, lo, hi - 1, hi);
    }
  }

  /** A value cached inside the new window is what a message builds on: it reads only the epochs after
      the marker and those leaving the window, and stores the old value plus the former minus the
      latter, or 0 if that is negative; a repeated or older epoch takes the old value over. */
  lemma CacheIsUsed(
      h: Hist, w: World, lite: map<string, Data>, v: Index, tail: int, epoch: int, newer: seq<Data>, older: seq<Data>)
    requires tail < v.latest && v.latest in v.values && Read(h, w, lite, v, tail, epoch, newer, older)
    ensures ReadFrom(h, w, lite, v.latest + 1, epoch, newer)
    ensures ReadFrom(h, w, lite, tail - (epoch - v.latest), tail - 1, older)
    ensures var total := Combined(v, tail, epoch, newer, older);
            var exact := v.values[v.latest] + SumOf(newer) - SumOf(older);
            if epoch <= v.latest then total == v.values[v.latest]
            else total == if exact < 0 then 0 else exact
  {
    hide ReadFrom;
  }
}
