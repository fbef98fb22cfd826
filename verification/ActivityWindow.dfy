/** The cached per-address counts of a sliding window: the active-pools and the active-tokens
    handlers, which differ only in the dictionary they read. */
module ActivityWindow {
  import opened Common
  import opened History
  import opened Text
  import opened CacheModel
  import opened Resolver
  import opened Submissions
  import opened SnapshotReader

  type Counts = map<string, int>

  // A missing address counts 0.
  function Get(m: Counts, k: string): int {
    if k in m then m[k] else 0
  }

  function CountIn(d: Data, k: string): nat {
    if d.Some? && k in d.value.counts then d.value.counts[k] else 0
  }

  function TotalIn(ds: seq<Data>, k: string): nat {
    if ds == [] then 0 else TotalIn(ds[..|ds| - 1], k) + CountIn(ds[|ds| - 1], k)
  }

  function Addresses(ds: seq<Data>): set<string> {
    if ds == [] then {} else
    Addresses(ds[..|ds| - 1]) + if ds[|ds| - 1].Some? then ds[|ds| - 1].value.counts.Keys else {}
  }

  lemma {:induction false} TotalConcat(a: seq<Data>, b: seq<Data>, k: string)
    ensures TotalIn(a + b, k) == TotalIn(a, k) + TotalIn(b, k)
  {
    if b == [] {
      assert a + b == a;
    } else {
      assert (a + b)[..|a + b| - 1] == a + b[..|b| - 1];
      TotalConcat(a, b[..|b| - 1], k);
    }
  }

  lemma {:induction false} TotalOfUnlisted(ds: seq<Data>, k: string)
    requires k !in Addresses(ds)
    ensures TotalIn(ds, k) == 0
  {
    if ds != [] {
      TotalOfUnlisted(ds[..|ds| - 1], k);
    }
  }

  /** How often address k occurs in the epochs lo..hi of the history. */
  ghost function Activity(h: Hist, ipfs: Ipfs, lo: int, hi: int, k: string): nat {
    TotalIn(WindowData(h, ipfs, lo, hi), k)
  }

  // tables: the active_pool_data keys by epoch; latest: the latest:epoch marker, 0 if absent.
  datatype Tables = Tables(tables: map<int, Counts>, latest: int)

  // Additions create missing addresses; subtractions touch only present ones.
  function Corrected(m: Counts, newer: seq<Data>, older: seq<Data>): Counts {
    map k | k in m.Keys + Addresses(newer) :: Get(m, k) + TotalIn(newer, k) - TotalIn(older, k)
  }

  // Nothing happens unless the marker lies inside the new window and its table is still there; newer
  // and older are the snapshots read for the correction.
  function Moved(v: Tables, tail: int, epoch: int, newer: seq<Data>, older: seq<Data>): Tables {
    if v.latest > tail && v.latest in v.tables then
      Tables(v.tables[epoch := Corrected(v.tables[v.latest], newer, older)], epoch)
    else v
  }

  /** One handled message, when every snapshot of the windows involved is there. */
  ghost function Handle(h: Hist, ipfs: Ipfs, first: int, window: nat, v: Tables, epoch: int): Tables {
    var tail := Tail(first, window, epoch);
    var newer := WindowData(h, ipfs, v.latest + 1, epoch);
    Moved(v, tail, epoch, newer, WindowData(h, ipfs, tail - (epoch - v.latest), tail - 1))
  }

  class ActivityIndexer {
    const reader: SnapshotReader
    const window: nat
    var tables: map<int, Counts>
    var latest: int

    // The tables are seeded elsewhere; the handlers only move them forward.
    constructor (reader: SnapshotReader, window: nat, tables: map<int, Counts>, latest: int)
      ensures this.reader == reader && this.window == window && State() == Tables(tables, latest)
    {
      this.reader, this.window := reader, window;
      this.tables, this.latest := tables, latest;
    }

    ghost function State(): Tables
      reads this
    {
      Tables(tables, latest)
    }

    static method Add(m: Counts, ds: seq<Data>) returns (r: Counts)
      ensures r.Keys == m.Keys + Addresses(ds)
      ensures forall k :: Get(r, k) == Get(m, k) + TotalIn(ds, k)
    {
      r := m;
      for i := 0 to |ds|
        invariant r.Keys == m.Keys + Addresses(ds[..i])
        invariant forall k :: Get(r, k) == Get(m, k) + TotalIn(ds[..i], k)
      {
        assert ds[..i + 1][..i] == ds[..i];
        if ds[i].Some? {
          r := AddOne(r, ds[i].value.counts);
        }
      }
      assert ds[..|ds|] == ds;
    }

    static method AddOne(m: Counts, counts: map<string, nat>) returns (r: Counts)
      ensures r.Keys == m.Keys + counts.Keys
      ensures forall k :: Get(r, k) == Get(m, k) + if k in counts then counts[k] else 0
    {
      r := m;
      var rest := counts.Keys;
      while rest != {}
        invariant rest <= counts.Keys && r.Keys == m.Keys + (counts.Keys - rest)
        invariant forall k :: Get(r, k) == Get(m, k) + if k in counts && k !in rest then counts[k] else 0
        decreases rest
      {
        var k := Pick(rest);
        if k !in r {
          r := r[k := 0];
        }
        r := r[k := r[k] + counts[k]];
        rest := rest - {k};
      }
    }

    static method Subtract(m: Counts, ds: seq<Data>) returns (r: Counts)
      ensures r.Keys == m.Keys
      ensures forall k :: k in m ==> r[k] == m[k] - TotalIn(ds, k)
    {
      r := m;
      for i := 0 to |ds|
        invariant r.Keys == m.Keys
        invariant forall k :: k in m ==> r[k] == m[k] - TotalIn(ds[..i], k)
      {
        assert ds[..i + 1][..i] == ds[..i];
        if ds[i].Some? {
          r := SubtractOne(r, ds[i].value.counts);
        }
      }
      assert ds[..|ds|] == ds;
    }

    static method SubtractOne(m: Counts, counts: map<string, nat>) returns (r: Counts)
      ensures r.Keys == m.Keys
      ensures forall k :: k in m ==> r[k] == m[k] - if k in counts then counts[k] else 0
    {
      r := m;
      var rest := counts.Keys;
      while rest != {}
        invariant rest <= counts.Keys && r.Keys == m.Keys
        invariant forall k :: k in m ==> r[k] == m[k] - if k in counts && k !in rest then counts[k] else 0
        decreases rest
      {
        var k := Pick(rest);
        if k in r {
          r := r[k := r[k] - counts[k]];
        }
        rest := rest - {k};
      }
    }

    static method Correct(m: Counts, newer: seq<Data>, older: seq<Data>) returns (r: Counts)
      ensures r == Corrected(m, newer, older)
    {
      hide TotalIn;
      hide Addresses;
      var added := Add(m, newer);
      r := Subtract(added, older);
      assert forall k :: k in r ==> r[k] == Get(added, k) - TotalIn(older, k);
    }

    /** _process_active_pools_message and _process_active_tokens_message. The new tables come from what
        was read, each snapshot under its own epoch's CID; when cache and contract cover every epoch
        involved, they are those of Handle; a failed fetch leaves them alone. */
    method Process(w: World, epoch: int, now: int, ghost h: Hist)
      returns (r: Result<bool>, ghost newer: seq<Data>, ghost older: seq<Data>)
      requires Consistent(h, w.ipfs) && Faithful(h, w) && Sound(h, reader.store.State())
      modifies this, reader.store, reader.store.blank, reader.cids
      ensures Sound(h, reader.store.State())
      ensures var tail := Tail(w.first, window, epoch);
              r.Ok? ==>
                && State() == Moved(old(State()), tail, epoch, newer, older)
                && ReadFrom(h, w, old(reader.cids.lite), old(latest) + 1, epoch, newer)
                && ReadFrom(h, w, old(reader.cids.lite), tail - (epoch - old(latest)), tail - 1, older)
      ensures var tail := Tail(w.first, window, epoch);
              old(reader.Covers(h, w, Min(latest + 1, tail - (epoch - latest)), Max(epoch, tail - 1))) ==>
                r.Ok? && State() == Handle(h, w.ipfs, w.first, window, old(State()), epoch)
      ensures r.Err? ==> State() == old(State())
    {
      hide CanAnswer;
      hide SoundBut;
      hide Consistent;
      hide Faithful;
      hide WindowData;
      hide Corrected;
      hide ReadFrom;
      hide Grew;
      newer, older := [], [];
      var tail := Tail(w.first, window, epoch);
      var correct := epoch - latest;
      ghost var lite := reader.cids.lite;
      ReadNothing(h, w, lite, latest + 1, epoch);
      ReadNothing(h, w, lite, tail - correct, tail - 1);
      if latest > tail && latest in tables {
        ghost var from, to := Min(latest + 1, tail - correct), Max(epoch, tail - 1);
        var entering := reader.Window(w, latest + 1, epoch, from, to, now, h);
        if entering.Err? {
          return Err(entering.error), newer, older;
        }
        ghost var grown := reader.cids.lite;
        var leaving := reader.Window(w, tail - correct, tail - 1, from, to, now, h);
        if leaving.Err? {
          return Err(leaving.error), newer, older;
        }
        ReadBefore(h, w, lite, grown, reader.cids.cacheCids, tail - correct, tail - 1, leaving.value);
        newer, older := entering.value, leaving.value;
        var counts := Correct(tables[latest], entering.value, leaving.value);
        tables, latest := tables[epoch := counts], epoch;
      }
      r := Ok(true);
    }
  }

  // ----- what the handler keeps -----

  /** The table at the marker gives every address its exact count over the marker's window. */
  ghost predicate Pointwise(h: Hist, ipfs: Ipfs, first: int, window: nat, v: Tables) {
    v.latest in v.tables ==>
      forall k :: Get(v.tables[v.latest], k) == Activity(h, ipfs, Tail(first, window, v.latest), v.latest, k)
  }

  lemma ActivitySplit(h: Hist, ipfs: Ipfs, lo: int, mid: int, hi: int, k: string)
    requires lo <= mid + 1 <= hi + 1
    ensures Activity(h, ipfs, lo, hi, k) == Activity(h, ipfs, lo, mid, k) + Activity(h, ipfs, mid + 1, hi, k)
  {
    WindowSplit(h, ipfs, lo, mid, hi);
    TotalConcat(WindowData(h, ipfs, lo, mid), WindowData(h, ipfs, mid + 1, hi), k);
  }

  // What leaves the window is exactly what the old window had below the new tail.
  lemma LeavingEpochs(h: Hist, ipfs: Ipfs, first: int, window: nat, last: int, epoch: int)
    requires FromFirst(h, first) && Tail(first, window, epoch) < last <= epoch
    ensures var tail := Tail(first, window, epoch);
            WindowData(h, ipfs, tail - (epoch - last), tail - 1)
              == WindowData(h, ipfs, Tail(first, window, last), tail - 1)
  {
    var tail, oldTail := Tail(first, window, epoch), Tail(first, window, last);
    var from := tail - (epoch - last);
    if epoch - window < first {
      WindowEmpty(h, ipfs, from, tail - 1);
      WindowEmpty(h, ipfs, oldTail, tail - 1);
    } else if last - window < first {
      WindowTrim(h, ipfs, from, first, tail - 1);
    }
  }

  lemma CorrectedCount(
      h: Hist, ipfs: Ipfs, first: int, window: nat, m: Counts, last: int, epoch: int, k: string)
    requires FromFirst(h, first) && Tail(first, window, epoch) < last <= epoch
    requires Get(m, k) == Activity(h, ipfs, Tail(first, window, last), last, k)
    ensures var tail := Tail(first, window, epoch);
            var newer := WindowData(h, ipfs, last + 1, epoch);
            var older := WindowData(h, ipfs, tail - (epoch - last), tail - 1);
            Get(Corrected(m, newer, older), k) == Activity(h, ipfs, tail, epoch, k)
  {
    hide WindowData;
    hide TotalIn;
    hide Addresses;
    var tail, oldTail := Tail(first, window, epoch), Tail(first, window, last);
    LeavingEpochs(h, ipfs, first, window, last, epoch);
    ActivitySplit(h, ipfs, oldTail, tail - 1, last, k);
    ActivitySplit(h, ipfs, tail, last, epoch, k);
    var newer := WindowData(h, ipfs, last + 1, epoch);
    if k !in m && k !in Addresses(newer) {
      TotalOfUnlisted(newer, k);
    }
  }

  /** From a correct table, a message not older than the marker leaves a correct table at the new
      marker, and no count in it is negative. */
  lemma HandleStaysPointwise(h: Hist, ipfs: Ipfs, first: int, window: nat, v: Tables, epoch: int)
    requires FromFirst(h, first) && Pointwise(h, ipfs, first, window, v) && v.latest <= epoch
    ensures var t := Handle(h, ipfs, first, window, v, epoch);
            && Pointwise(h, ipfs, first, window, t) && v.latest <= t.latest <= epoch
            && (v.latest in v.tables && v.latest > Tail(first, window, epoch) ==>
                  t.latest == epoch && epoch in t.tables)
            && (v.latest in v.tables ==> t.latest in t.tables)
            && (t.latest in t.tables ==> forall k :: k in t.tables[t.latest] ==> t.tables[t.latest][k] >= 0)
  {
    hide WindowData;
    hide TotalIn;
    hide Corrected;
    var tail := Tail(first, window, epoch);
    if v.latest > tail && v.latest in v.tables {
      forall k
        ensures Get(Handle(h, ipfs, first, window, v, epoch).tables[epoch], k) == Activity(h, ipfs, tail, epoch, k)
      {
        CorrectedCount(h, ipfs, first, window, v.tables[v.latest], v.latest, epoch, k);
      }
    }
    var t := Handle(h, ipfs, first, window, v, epoch);
    if t.latest in t.tables {
      NotNegative(h, ipfs, first, window, t);
    }
  }

  lemma NotNegative(h: Hist, ipfs: Ipfs, first: int, window: nat, v: Tables)
    requires Pointwise(h, ipfs, first, window, v) && v.latest in v.tables
    ensures forall k :: k in v.tables[v.latest] ==> v.tables[v.latest][k] >= 0
  {
    hide Activity;
    forall k | k in v.tables[v.latest] ensures v.tables[v.latest][k] >= 0 {
      assert Get(v.tables[v.latest], k) == Activity(h, ipfs, Tail(first, window, v.latest), v.latest, k);
    }
  }

  ghost function Run(h: Hist, ipfs: Ipfs, first: int, window: nat, v: Tables, epochs: seq<int>): Tables {
    if epochs == [] then v
    else Handle(h, ipfs, first, window, Run(h, ipfs, first, window, v, epochs[..|epochs| - 1]), epochs[|epochs| - 1])
  }

  /** Over every run of messages with nondecreasing epochs, a correct seed stays correct: the table
      at the marker gives every address its exact count over the marker's window. */
  lemma {:induction false} EveryTableIsExact(
      h: Hist, ipfs: Ipfs, first: int, window: nat, v: Tables, epochs: seq<int>)
    requires FromFirst(h, first) && Pointwise(h, ipfs, first, window, v)
    requires forall i :: 0 <= i < |epochs| ==> v.latest <= epochs[i]
    requires forall i, j :: 0 <= i < j < |epochs| ==> epochs[i] <= epochs[j]
    ensures var t := Run(h, ipfs, first, window, v, epochs);
            && Pointwise(h, ipfs, first, window, t) && v.latest <= t.latest
            && t.latest <= (if epochs == [] then v.latest else epochs[|epochs| - 1])
            && (v.latest in v.tables ==> t.latest in t.tables)
            && (t.latest in t.tables ==> forall k :: k in t.tables[t.latest] ==> t.tables[t.latest][k] >= 0)
  {
    if epochs == [] {
      if v.latest in v.tables {
        NotNegative(h, ipfs, first, window, v);
      }
    } else {
      hide Handle;
      hide Pointwise;
      var front := epochs[..|epochs| - 1];
      EveryTableIsExact(h, ipfs, first, window, v, front);
      HandleStaysPointwise(h, ipfs, first, window, Run(h, ipfs, first, window, v, front), epochs[|epochs| - 1]);
    }
  }

  ghost predicate CachedAt(h: Hist, ipfs: Ipfs, first: int, window: nat, v: Tables, last: int) {
    FromFirst(h, first) && Pointwise(h, ipfs, first, window, v) && v.latest == last && last in v.tables
  }

  /** Message order matters here too: with a correct table at marker last, handling a message leaves
      a correct table for every history if and only if the message is not older than the marker, or
      is ignored because the marker lies at or below its tail. */
  lemma LateMessagesAreStale(first: int, window: nat, last: int, epoch: int)
    ensures (forall h, ipfs, v :: CachedAt(h, ipfs, first, window, v, last) ==>
               Pointwise(h, ipfs, first, window, Handle(h, ipfs, first, window, v, epoch)))
        <==> last <= epoch || last <= Tail(first, window, epoch)
  {
    if last <= epoch || last <= Tail(first, window, epoch) {
      forall h, ipfs, v | CachedAt(h, ipfs, first, window, v, last)
        ensures Pointwise(h, ipfs, first, window, Handle(h, ipfs, first, window, v, epoch))
      {
        if last <= epoch {
          HandleStaysPointwise(h, ipfs, first, window, v, epoch);
        }
      }
    } else {
      StaleTable(first, window, last, epoch);
    }
  }

  lemma StaleTable(first: int, window: nat, last: int, epoch: int)
    requires epoch < last && Tail(first, window, epoch) < last
    ensures exists h, ipfs, v ::
              CachedAt(h, ipfs, first, window, v, last)
              && !Pointwise(h, ipfs, first, window, Handle(h, ipfs, first, window, v, epoch))
  {
    var h: Hist := map[last := "c"];
    var ipfs: Ipfs := map["c" := Snapshot([], None, map["k" := 1])];
    var v := Tables(map[last := map["k" := 1]], last);
    var tail := Tail(first, window, last);
    OneCount(h, ipfs, tail, last);
    WindowEmpty(h, ipfs, Tail(first, window, epoch), epoch);
    var t := Handle(h, ipfs, first, window, v, epoch);
    assert Get(t.tables[epoch], "k") == 1;
    assert Activity(h, ipfs, Tail(first, window, epoch), epoch, "k") == 0;
    assert CachedAt(h, ipfs, first, window, v, last);
  }

  lemma OneCount(h: Hist, ipfs: Ipfs, tail: int, e: int)
    requires tail <= e && h == map[e := "c"] && ipfs == map["c" := Snapshot([], None, map["k" := 1])]
    ensures forall k :: Activity(h, ipfs, tail, e, k) == if k == "k" then 1 else 0
  {
    hide HasNull;
    WindowEmpty(h, ipfs, tail, e - 1);
    var d := FetchData(ipfs, "c");
    ShortHasNoNull("c");
    assert d == Some(Snapshot([], None, map["k" := 1]));
    assert WindowData(h, ipfs, tail, e) == [d];
    forall k ensures TotalIn([d], k) == if k == "k" then 1 else 0 {
      assert [d][..0] == [];
    }
  }

  /** Activity counts what is stored: in one epoch an address occurs as often as the dictionary of its
      snapshot says, when that can be fetched, and 0 times otherwise. */
  lemma ActivityOfEpoch(h: Hist, ipfs: Ipfs, e: int, k: string)
    ensures Activity(h, ipfs, e, e, k) ==
            if e in h && h[e] != "" && !HasNull(h[e]) && h[e] in ipfs && k in ipfs[h[e]].counts
            then ipfs[h[e]].counts[k] else 0
  {
    hide HasNull;
    if e in h {
      var d := FetchData(ipfs, h[e]);
      assert WindowData(h, ipfs, e, e - 1) == [];
      assert WindowData(h, ipfs, e, e) == [d];
      TotalOfOne(d, k);
    } else {
      WindowEmpty(h, ipfs, e, e);
    }
  }

  lemma TotalOfOne(d: Data, k: string)
    ensures TotalIn([d], k) == CountIn(d, k)
  {
    assert [d][..0] == [];
  }

  // And the activity of a window is the sum over its epochs.
  lemma ActivitySteps(h: Hist, ipfs: Ipfs, lo: int, hi: int, k: string)
    ensures hi < lo ==> Activity(h, ipfs, lo, hi, k) == 0
    ensures lo <= hi ==> Activity(h, ipfs, lo, hi, k) == Activity(h, ipfs, lo, hi - 1, k) + Activity(h, ipfs, hi, hi, k)
  {
    if lo <= hi {
      ActivitySplit(h, ipfs, lo, hi - 1, hi, k);
    }
  }

  // The addresses a correction adds are exactly those listed by a snapshot that was read.
  lemma {:induction false} AddressesListed(ds: seq<Data>, k: string)
    ensures k in Addresses(ds) <==> exists i :: 0 <= i < |ds| && ds[i].Some? && k in ds[i].value.counts
  {
    if ds != [] {
      var front := ds[..|ds| - 1];
      AddressesListed(front, k);
      assert forall i :: 0 <= i < |front| ==> front[i] == ds[i];
      if i :| 0 <= i < |front| && front[i].Some? && k in front[i].value.counts {
        assert ds[i].Some? && k in ds[i].value.counts;
      }
    }
  }

  // A corrected table lists exactly its old addresses and those of the snapshots that entered.
  lemma CorrectedAddresses(m: Counts, newer: seq<Data>, older: seq<Data>, k: string)
    ensures k in Corrected(m, newer, older) <==>
            k in m || exists i :: 0 <= i < |newer| && newer[i].Some? && k in newer[i].value.counts
  {
    hide Addresses;
    AddressesListed(newer, k);
  }
}
