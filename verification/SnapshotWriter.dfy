/** _commit_payload: every new snapshot lists the last 200 (epoch, cid) pairs of the chain it builds on. */
module SnapshotWriter {
  import opened Common
  import opened Text
  import opened History

  // A submitted snapshot as a lookup returns it.
  datatype Record = Record(cid: string, epoch: int, snapshot: Snapshot)

  // A finalized snapshot found through the contract. Only the proofs look at trail: the commits its
  // chain goes back to, its own included.
  datatype Found = Found(record: Record, trail: seq<Link>)

  /** One call of _commit_payload. snapshot.prev is what the snapshot object starts out with. seen is
      the announcement that the second lookup finds and can read, if any: the cacher stores
      announcements as it gets to them. finalized is what the third lookup would return. */
  datatype Attempt = Attempt(
    epoch: int, snapshot: Snapshot, seen: Option<nat>, finalized: Option<Found>, uploaded: bool, submitted: bool)

  // raw: lastSubmittedSnapshotRawData; announced: the SnapshotSubmitted messages, sent before the
  // collector accepts the snapshot.
  datatype Writer = Writer(raw: Option<Record>, announced: seq<Link>, store: Ipfs)

  // IPFS names content by its hash; distinct snapshots get distinct, usable names.
  ghost predicate Addressing(address: Snapshot -> string) {
    && (forall s, t :: address(s) == address(t) ==> s == t)
    && (forall s :: address(s) != "" && !HasNull(address(s)))
  }

  predicate Sees(w: Writer, a: Attempt) {
    a.seen.Some? && a.seen.value < |w.announced| && w.announced[a.seen.value].cid in w.store
  }

  // The second and third lookup.
  function LaterLookups(w: Writer, a: Attempt): Option<Record> {
    if Sees(w, a) then
      var l := w.announced[a.seen.value];
      Some(Record(l.cid, l.epoch, w.store[l.cid]))
    else if a.finalized.Some? then Some(a.finalized.value.record)
    else None
  }

  function LastSnapshot(w: Writer, a: Attempt): Option<Record> {
    if w.raw.Some? && w.raw.value.epoch != 0 && w.raw.value.cid != "" then w.raw else LaterLookups(w, a)
  }

  function Rolled(prev: seq<Link>): seq<Link> {
    if |prev| >= CHAIN_LIMIT then prev[1..] else prev
  }

  function Prepared(keep: bool, w: Writer, a: Attempt): Snapshot {
    var last := LastSnapshot(w, a);
    if keep && last.Some? then
      a.snapshot.(prev := Rolled(last.value.snapshot.prev) + [Link(last.value.epoch, last.value.cid)])
    else a.snapshot
  }

  function Commit(address: Snapshot -> string, keep: bool, w: Writer, a: Attempt): Writer {
    var snapshot := Prepared(keep, w, a);
    var cid := address(snapshot);
    if !a.uploaded then w
    else
      var raw := if a.submitted then Some(Record(cid, a.epoch, snapshot)) else w.raw;
      Writer(raw, w.announced + [Link(a.epoch, cid)], w.store[cid := snapshot])
  }

  class SnapshotCommitter {
    const address: Snapshot -> string
    const keepPreviousSnapshotData: bool
    var raw: Option<Record>
    var announced: seq<Link>
    var store: Ipfs

    constructor (address: Snapshot -> string, keep: bool, store: Ipfs)
      ensures State() == Writer(None, [], store) && keepPreviousSnapshotData == keep && this.address == address
    {
      this.address, this.keepPreviousSnapshotData := address, keep;
      this.raw, this.announced, this.store := None, [], store;
    }

    function State(): Writer
      reads this
    {
      Writer(raw, announced, store)
    }

    // The CID when the snapshot was both uploaded and accepted by the collector.
    method CommitPayload(a: Attempt) returns (submitted: Option<string>)
      modifies this
      ensures State() == Commit(address, keepPreviousSnapshotData, old(State()), a)
      ensures submitted == if a.uploaded && a.submitted
                           then Some(address(Prepared(keepPreviousSnapshotData, old(State()), a))) else None
    {
      var snapshot := a.snapshot;
      if keepPreviousSnapshotData {
        var last := LastSnapshot(State(), a);
        if last.Some? {
          var previous := last.value.snapshot.prev;
          if |previous| >= 200 {
            previous := previous[1..];
          }
          previous := previous + [Link(last.value.epoch, last.value.cid)];
          snapshot := snapshot.(prev := previous);
        }
      }
      if !a.uploaded {
        return None;
      }
      var cid := address(snapshot);
      store := store[cid := snapshot];
      announced := announced + [Link(a.epoch, cid)];
      if !a.submitted {
        return None;
      }
      raw := Some(Record(cid, a.epoch, snapshot));
      submitted := Some(cid);
    }
  }

  // ----- runs -----

  // base is the content other nodes have stored.
  function Run(address: Snapshot -> string, base: Ipfs, attempts: seq<Attempt>): Writer {
    if attempts == [] then Writer(None, [], base)
    else Commit(address, true, Run(address, base, attempts[..|attempts| - 1]), attempts[|attempts| - 1])
  }

  // The link of the snapshot that the next attempt builds.
  function Built(address: Snapshot -> string, w: Writer, a: Attempt): Link {
    Link(a.epoch, address(Prepared(true, w, a)))
  }

  // The commits that the collector accepted, in order.
  function Submitted(address: Snapshot -> string, base: Ipfs, attempts: seq<Attempt>): seq<Link> {
    if attempts == [] then []
    else
      var front, a := attempts[..|attempts| - 1], attempts[|attempts| - 1];
      var log := Submitted(address, base, front);
      if a.uploaded && a.submitted then log + [Built(address, Run(address, base, front), a)] else log
  }

  /** Where commits come from: accepted is the trail of the raw record, empty while there is none;
      announced has the trail of every announced commit. A trail ends with the commit itself. */
  datatype Trails = Trails(accepted: seq<Link>, announced: seq<seq<Link>>)

  // The trail of the snapshot that the lookups of an attempt return, empty when they find none.
  function Lineage(t: Trails, a: Attempt): seq<Link> {
    if t.accepted != [] then t.accepted
    else if a.seen.Some? && a.seen.value < |t.announced| then t.announced[a.seen.value]
    else if a.finalized.Some? then a.finalized.value.trail
    else []
  }

  function Followed(t: Trails, a: Attempt, link: Link): Trails {
    var trail := Lineage(t, a) + [link];
    if !a.uploaded then t
    else Trails(if a.submitted then trail else t.accepted, t.announced + [trail])
  }

  function Past(address: Snapshot -> string, base: Ipfs, attempts: seq<Attempt>): Trails {
    if attempts == [] then Trails([], [])
    else
      var front, a := attempts[..|attempts| - 1], attempts[|attempts| - 1];
      Followed(Past(address, base, front), a, Built(address, Run(address, base, front), a))
  }

  // A trail that ends with l, every snapshot of which lists the most recent links before it.
  ghost predicate Backed(store: Ipfs, l: Link, trail: seq<Link>) {
    trail != [] && trail[|trail| - 1] == l && Increasing(trail) && Chained(trail, store)
  }

  ghost predicate Genuine(store: Ipfs, f: Found, below: int) {
    && Backed(store, Link(f.record.epoch, f.record.cid), f.trail)
    && store[f.record.cid] == f.record.snapshot && f.record.epoch < below
  }

  // Where the third lookup is consulted and finds a snapshot the network finalized, that one is older
  // and its chain was built by the same rule.
  ghost predicate Ready(w: Writer, a: Attempt) {
    && a.epoch > 0 && a.snapshot.prev == []
    && (w.raw == None && !Sees(w, a) && a.finalized.Some? ==> Genuine(w.store, a.finalized.value, a.epoch))
  }

  /** Attempts at strictly increasing epochs. */
  ghost predicate Orderly(address: Snapshot -> string, base: Ipfs, attempts: seq<Attempt>) {
    attempts == [] ||
    var front, a := attempts[..|attempts| - 1], attempts[|attempts| - 1];
    Orderly(address, base, front) && EpochAfter(front) <= a.epoch && Ready(Run(address, base, front), a)
  }

  // The least epoch the next attempt may have.
  function EpochAfter(attempts: seq<Attempt>): int {
    if attempts == [] then 1 else attempts[|attempts| - 1].epoch + 1
  }

  lemma RecentSnoc(c: seq<Link>, l: Link)
    ensures Recent(c + [l]) == Rolled(Recent(c)) + [l]
  {
  }

  ghost predicate NamedByContent(address: Snapshot -> string, store: Ipfs) {
    forall c :: c in store ==> address(store[c]) == c
  }

  ghost predicate RawIsLast(w: Writer, accepted: seq<Link>, below: int) {
    if accepted == [] then w.raw == None else
    var l := accepted[|accepted| - 1];
    && Backed(w.store, l, accepted) && 0 < l.epoch < below
    && w.raw == Some(Record(l.cid, l.epoch, w.store[l.cid]))
  }

  ghost predicate AnnouncedBacked(w: Writer, trails: seq<seq<Link>>, below: int) {
    && |w.announced| == |trails|
    && forall k :: 0 <= k < |trails| ==> Backed(w.store, w.announced[k], trails[k]) && w.announced[k].epoch < below
  }

  ghost predicate WriterInv(address: Snapshot -> string, w: Writer, t: Trails, below: int) {
    NamedByContent(address, w.store) && RawIsLast(w, t.accepted, below) && AnnouncedBacked(w, t.announced, below)
  }

  // What the lookups return has the lineage as its trail.
  lemma FoundIsBacked(address: Snapshot -> string, w: Writer, t: Trails, a: Attempt)
    requires WriterInv(address, w, t, a.epoch) && Ready(w, a)
    ensures var c, last := Lineage(t, a), LastSnapshot(w, a);
            if c == [] then last == None else
            var l := c[|c| - 1];
            && Backed(w.store, l, c) && l.epoch < a.epoch
            && last == Some(Record(l.cid, l.epoch, w.store[l.cid]))
  {
    hide HasNull;
    if a.seen.Some? && a.seen.value < |t.announced| {
      assert Backed(w.store, w.announced[a.seen.value], t.announced[a.seen.value]);
    }
  }

  // Whatever comes of a commit, the snapshot it builds lists the most recent links of its lineage.
  lemma PreparedIsRecent(address: Snapshot -> string, w: Writer, t: Trails, a: Attempt)
    requires WriterInv(address, w, t, a.epoch) && Ready(w, a)
    ensures Prepared(true, w, a).prev == Recent(Lineage(t, a))
  {
    FoundIsBacked(address, w, t, a);
    var c := Lineage(t, a);
    hide LastSnapshot;
    hide Lineage;
    if c != [] {
      assert c[..|c| - 1] + [c[|c| - 1]] == c;
      RecentSnoc(c[..|c| - 1], c[|c| - 1]);
    }
  }

  // The trail of the new commit.
  lemma BackedSnoc(store: Ipfs, larger: Ipfs, c: seq<Link>, l: Link)
    requires c != [] ==> Backed(store, c[|c| - 1], c) && c[|c| - 1].epoch < l.epoch
    requires forall cid :: cid in store ==> cid in larger && larger[cid] == store[cid]
    requires l.cid in larger && larger[l.cid].prev == Recent(c) && l.cid != "" && !HasNull(l.cid)
    ensures Backed(larger, l, c + [l])
  {
    hide Recent;
    hide HasNull;
    hide Chained;
    hide Increasing;
    if c == [] {
      IncreasingSnoc([], l);
      ChainedSnoc([], store, larger, l);
    } else {
      IncreasingSnoc(c, l);
      ChainedSnoc(c, store, larger, l);
    }
  }

  lemma IncreasingSnoc(c: seq<Link>, l: Link)
    requires c != [] ==> Increasing(c) && c[|c| - 1].epoch < l.epoch
    ensures Increasing(c + [l])
  {
  }

  lemma ChainedSnoc(c: seq<Link>, store: Ipfs, larger: Ipfs, l: Link)
    requires c != [] ==> Chained(c, store)
    requires forall cid :: cid in store ==> cid in larger && larger[cid] == store[cid]
    requires l.cid in larger && larger[l.cid].prev == Recent(c) && l.cid != "" && !HasNull(l.cid)
    ensures Chained(c + [l], larger)
  {
    hide Recent;
    hide HasNull;
    forall i | 0 <= i < |c + [l]|
      ensures var m := (c + [l])[i];
              m.cid in larger && larger[m.cid].prev == Recent((c + [l])[..i]) && m.cid != "" && !HasNull(m.cid)
    {
      assert (c + [l])[..i] == c[..i];
      if i < |c| {
        assert c[i].cid in store;
      } else {
        assert c[..i] == c;
      }
    }
  }

  lemma BackedStill(store: Ipfs, larger: Ipfs, l: Link, trail: seq<Link>)
    requires Backed(store, l, trail)
    requires forall cid :: cid in store ==> cid in larger && larger[cid] == store[cid]
    ensures Backed(larger, l, trail) && larger[l.cid] == store[l.cid]
  {
    hide Recent;
    hide HasNull;
  }

  lemma CommitKeepsInv(address: Snapshot -> string, w: Writer, t: Trails, a: Attempt)
    requires Addressing(address) && WriterInv(address, w, t, a.epoch) && Ready(w, a)
    ensures WriterInv(address, Commit(address, true, w, a), Followed(t, a, Built(address, w, a)), a.epoch + 1)
  {
    hide Backed;
    hide HasNull;
    if a.uploaded {
      FoundIsBacked(address, w, t, a);
      PreparedIsRecent(address, w, t, a);
      hide Prepared;
      hide Lineage;
      hide LastSnapshot;
      var l, larger := Built(address, w, a), Commit(address, true, w, a).store;
      BackedSnoc(w.store, larger, Lineage(t, a), l);
      forall k | 0 <= k < |t.announced| ensures Backed(larger, w.announced[k], t.announced[k]) {
        BackedStill(w.store, larger, w.announced[k], t.announced[k]);
      }
      if t.accepted != [] {
        BackedStill(w.store, larger, t.accepted[|t.accepted| - 1], t.accepted);
      }
    }
  }

  /** Over every run of commits, including uploads and submissions that fail, announcements seen late
      or never, and snapshots other nodes finalized: the trails of the raw record and of every
      announced commit are chains in the store, in which each snapshot lists exactly the last
      min(n, 200) links before it, in increasing epoch order. */
  lemma {:induction false} RollingChain(address: Snapshot -> string, base: Ipfs, attempts: seq<Attempt>)
    requires Addressing(address) && NamedByContent(address, base) && Orderly(address, base, attempts)
    ensures WriterInv(address, Run(address, base, attempts), Past(address, base, attempts), EpochAfter(attempts))
    ensures EpochAfter(attempts) >= 1
  {
    if attempts != [] {
      var front, a := attempts[..|attempts| - 1], attempts[|attempts| - 1];
      RollingChain(address, base, front);
      Later(address, Run(address, base, front), Past(address, base, front), EpochAfter(front), a.epoch);
      CommitKeepsInv(address, Run(address, base, front), Past(address, base, front), a);
    }
  }

  lemma Later(address: Snapshot -> string, w: Writer, t: Trails, below: int, epoch: int)
    requires WriterInv(address, w, t, below) && below <= epoch
    ensures WriterInv(address, w, t, epoch)
  {
    hide Backed;
  }

  lemma {:induction false} OrderlyPrefix(address: Snapshot -> string, base: Ipfs, attempts: seq<Attempt>, n: nat)
    requires Orderly(address, base, attempts) && n <= |attempts|
    ensures Orderly(address, base, attempts[..n])
    ensures n < |attempts| ==>
              EpochAfter(attempts[..n]) <= attempts[n].epoch && Ready(Run(address, base, attempts[..n]), attempts[n])
  {
    if n < |attempts| {
      var front := attempts[..|attempts| - 1];
      assert attempts[..n] == front[..n];
      if n < |front| {
        OrderlyPrefix(address, base, front, n);
      } else {
        FirstEpoch(address, base, front);
      }
    } else {
      assert attempts[..n] == attempts;
    }
  }

  lemma FirstEpoch(address: Snapshot -> string, base: Ipfs, attempts: seq<Attempt>)
    requires Orderly(address, base, attempts)
    ensures EpochAfter(attempts) >= 1
  {
  }

  /** Every snapshot that is built, submitted or not, lists the most recent links of its lineage: at
      most 200 of them, in increasing epoch order, and the lineage is a chain in the store. */
  lemma EverySnapshotIsRecent(address: Snapshot -> string, base: Ipfs, attempts: seq<Attempt>, n: nat)
    requires Addressing(address) && NamedByContent(address, base) && Orderly(address, base, attempts)
    requires n < |attempts|
    ensures var w, c := Run(address, base, attempts[..n]), Lineage(Past(address, base, attempts[..n]), attempts[n]);
            var built := Prepared(true, w, attempts[n]);
            && built.prev == Recent(c) && |built.prev| <= 200 && Increasing(built.prev)
            && (c != [] ==> Backed(w.store, c[|c| - 1], c))
            && (c == [] <==> LastSnapshot(w, attempts[n]) == None)
  {
    Reached(address, base, attempts, n);
    var w, t := Run(address, base, attempts[..n]), Past(address, base, attempts[..n]);
    PreparedIsRecent(address, w, t, attempts[n]);
    FoundIsBacked(address, w, t, attempts[n]);
    hide Prepared;
    hide LastSnapshot;
    hide Lineage;
  }

  lemma Reached(address: Snapshot -> string, base: Ipfs, attempts: seq<Attempt>, n: nat)
    requires Addressing(address) && NamedByContent(address, base) && Orderly(address, base, attempts)
    requires n < |attempts|
    ensures var w, t := Run(address, base, attempts[..n]), Past(address, base, attempts[..n]);
            WriterInv(address, w, t, attempts[n].epoch) && Ready(w, attempts[n])
  {
    OrderlyPrefix(address, base, attempts, n);
    RollingChain(address, base, attempts[..n]);
    var w, t := Run(address, base, attempts[..n]), Past(address, base, attempts[..n]);
    Later(address, w, t, EpochAfter(attempts[..n]), attempts[n].epoch);
  }

  // The commits that the snapshot of attempt n goes back to, and its own.
  function TrailOf(address: Snapshot -> string, base: Ipfs, attempts: seq<Attempt>, n: nat): seq<Link>
    requires n < |attempts|
  {
    Lineage(Past(address, base, attempts[..n]), attempts[n])
      + [Built(address, Run(address, base, attempts[..n]), attempts[n])]
  }

  lemma {:induction false} StoreGrows(address: Snapshot -> string, base: Ipfs, attempts: seq<Attempt>, n: nat)
    requires Addressing(address) && NamedByContent(address, base) && n <= |attempts|
    ensures NamedByContent(address, Run(address, base, attempts).store)
    ensures var before, after := Run(address, base, attempts[..n]).store, Run(address, base, attempts).store;
            forall cid :: cid in before ==> cid in after && after[cid] == before[cid]
  {
    hide Prepared;
    hide HasNull;
    if n == |attempts| {
      assert attempts[..n] == attempts;
      if attempts != [] {
        StoreGrows(address, base, attempts[..|attempts| - 1], 0);
      }
    } else {
      assert attempts[..n] == attempts[..|attempts| - 1][..n];
      StoreGrows(address, base, attempts[..|attempts| - 1], n);
    }
  }

  /** The trail of every uploaded snapshot is a chain that the store goes on holding. */
  lemma TrailIsBacked(address: Snapshot -> string, base: Ipfs, attempts: seq<Attempt>, n: nat)
    requires Addressing(address) && NamedByContent(address, base) && Orderly(address, base, attempts)
    requires n < |attempts| && attempts[n].uploaded
    ensures var c := TrailOf(address, base, attempts, n);
            Backed(Run(address, base, attempts).store, c[|c| - 1], c)
  {
    var p, l := attempts[..n + 1], Built(address, Run(address, base, attempts[..n]), attempts[n]);
    assert p[..n] == attempts[..n];
    OrderlyPrefix(address, base, attempts, n + 1);
    RollingChain(address, base, p);
    StoreGrows(address, base, attempts, n + 1);
    var w, t := Run(address, base, p), Past(address, base, p);
    assert t == Followed(Past(address, base, p[..n]), attempts[n], l);
    assert w == Commit(address, true, Run(address, base, p[..n]), attempts[n]);
    var k := |t.announced| - 1;
    assert t.announced[k] == TrailOf(address, base, attempts, n) && w.announced[k] == l;
    hide Backed;
    hide Lineage;
    hide Built;
    hide Run;
    hide Past;
    BackedStill(w.store, Run(address, base, attempts).store, l, t.announced[k]);
  }

  // ----- accepted commits only -----

  predicate Accepted(a: Attempt) {
    a.uploaded && a.submitted
  }

  // The first attempt the collector accepted, |attempts| if there is none.
  function FirstAccepted(attempts: seq<Attempt>): (f: nat)
    ensures f <= |attempts| && (f < |attempts| ==> Accepted(attempts[f]))
    ensures forall i :: 0 <= i < f ==> !Accepted(attempts[i])
  {
    if attempts == [] then 0
    else
      var front := attempts[..|attempts| - 1];
      var f := FirstAccepted(front);
      if f < |front| || Accepted(attempts[|attempts| - 1]) then f else |attempts|
  }

  lemma {:induction false} AcceptedTrail(address: Snapshot -> string, base: Ipfs, attempts: seq<Attempt>)
    ensures var f, log := FirstAccepted(attempts), Submitted(address, base, attempts);
            && (log == [] <==> f == |attempts|)
            && Past(address, base, attempts).accepted ==
                 if f == |attempts| then []
                 else Lineage(Past(address, base, attempts[..f]), attempts[f]) + log
  {
    if attempts != [] {
      var front := attempts[..|attempts| - 1];
      var f := FirstAccepted(front);
      AcceptedTrail(address, base, front);
      assert f <= |front| && attempts[..f] == front[..f];
      hide Built;
      hide Run;
    }
  }

  // The lineage of attempt n: what the first accepted attempt before it found, or else what it finds
  // itself, and then the accepted commits before it.
  lemma LineageSplits(address: Snapshot -> string, base: Ipfs, attempts: seq<Attempt>, n: nat)
    requires n < |attempts|
    ensures var f := FirstAccepted(attempts[..n]);
            Lineage(Past(address, base, attempts[..n]), attempts[n])
              == Lineage(Past(address, base, attempts[..f]), attempts[f]) + Submitted(address, base, attempts[..n])
  {
    hide Past;
    hide Submitted;
    hide FirstAccepted;
    var p, f := attempts[..n], FirstAccepted(attempts[..n]);
    AcceptedTrail(address, base, p);
    assert p[..f] == attempts[..f];
    if f == n {
      assert p[..f] == p;
    } else {
      assert p[f] == attempts[f];
    }
  }

  lemma RecentSuffix(a: seq<Link>, b: seq<Link>)
    ensures Recent(a + b) == Recent(b) <==> a == [] || |b| >= CHAIN_LIMIT
  {
    if a == [] {
      assert a + b == b;
    } else if |b| < CHAIN_LIMIT {
      assert |Recent(a + b)| > |Recent(b)|;
    }
  }

  /** A snapshot lists exactly the last min(n, 200) accepted commits if and only if there are at
      least 200, or nothing was found by the later lookups of the first accepted attempt, or of this
      attempt when none was accepted before it. */
  lemma ListsAcceptedIff(address: Snapshot -> string, base: Ipfs, attempts: seq<Attempt>, n: nat)
    requires Addressing(address) && NamedByContent(address, base) && Orderly(address, base, attempts)
    requires n < |attempts|
    ensures var log, f := Submitted(address, base, attempts[..n]), FirstAccepted(attempts[..n]);
            Prepared(true, Run(address, base, attempts[..n]), attempts[n]).prev == Recent(log) <==>
            |log| >= 200 || LaterLookups(Run(address, base, attempts[..f]), attempts[f]) == None
  {
    var log, f := Submitted(address, base, attempts[..n]), FirstAccepted(attempts[..n]);
    hide Run;
    hide Past;
    hide Submitted;
    hide Prepared;
    hide Lineage;
    hide LaterLookups;
    hide FirstAccepted;
    hide Backed;
    EverySnapshotIsRecent(address, base, attempts, n);
    LineageSplits(address, base, attempts, n);
    OriginIff(address, base, attempts, n);
    RecentSuffix(Lineage(Past(address, base, attempts[..f]), attempts[f]), log);
  }

  lemma OriginIff(address: Snapshot -> string, base: Ipfs, attempts: seq<Attempt>, n: nat)
    requires Addressing(address) && NamedByContent(address, base) && Orderly(address, base, attempts)
    requires n < |attempts|
    ensures var f := FirstAccepted(attempts[..n]);
            Lineage(Past(address, base, attempts[..f]), attempts[f]) == [] <==>
            LaterLookups(Run(address, base, attempts[..f]), attempts[f]) == None
  {
    var p, f := attempts[..n], FirstAccepted(attempts[..n]);
    hide Run;
    hide Past;
    hide Submitted;
    hide Prepared;
    hide Lineage;
    hide Backed;
    hide LaterLookups;
    EverySnapshotIsRecent(address, base, attempts, f);
    Reached(address, base, attempts, f);
    AcceptedTrail(address, base, attempts[..f]);
    assert forall i :: 0 <= i < f ==> attempts[..f][i] == p[i];
    NoneAccepted(attempts[..f]);
  }

  lemma NoneAccepted(attempts: seq<Attempt>)
    requires forall i :: 0 <= i < |attempts| ==> !Accepted(attempts[i])
    ensures FirstAccepted(attempts) == |attempts|
  {
  }

  lemma AttemptSnoc(address: Snapshot -> string, base: Ipfs, front: seq<Attempt>, a: Attempt)
    ensures Run(address, base, front + [a]) == Commit(address, true, Run(address, base, front), a)
    ensures Orderly(address, base, front) && EpochAfter(front) <= a.epoch && Ready(Run(address, base, front), a)
            ==> Orderly(address, base, front + [a])
  {
    assert (front + [a])[..|front + [a]| - 1] == front;
  }

  /** It does happen: a snapshot that was announced and then rejected by the collector is listed by
      the next one, although nothing was accepted. */
  lemma RejectedSnapshotIsListed(address: Snapshot -> string, s: Snapshot)
    requires Addressing(address) && s.prev == []
    ensures var attempts := [Attempt(1, s, None, None, true, false), Attempt(2, s, Some(0), None, true, true)];
            && Orderly(address, map[], attempts)
            && Submitted(address, map[], attempts[..1]) == []
            && Prepared(true, Run(address, map[], attempts[..1]), attempts[1]).prev == [Link(1, address(s))]
  {
    var a, b := Attempt(1, s, None, None, true, false), Attempt(2, s, Some(0), None, true, true);
    AttemptSnoc(address, map[], [], a);
    AttemptSnoc(address, map[], [a], b);
    assert [] + [a] == [a] && [a] + [b] == [a, b] && [a, b][..1] == [a];
  }

  // The trail of an accepted commit: what the first accepted attempt found, and the accepted commits.
  lemma AcceptedTrailOf(address: Snapshot -> string, base: Ipfs, attempts: seq<Attempt>, n: nat)
    requires n < |attempts| && Accepted(attempts[n])
    ensures var f := FirstAccepted(attempts[..n + 1]);
            && f == FirstAccepted(attempts[..n])
            && TrailOf(address, base, attempts, n) ==
                 Lineage(Past(address, base, attempts[..f]), attempts[f]) + Submitted(address, base, attempts[..n + 1])
  {
    LineageSplits(address, base, attempts, n);
    var p := attempts[..n + 1];
    assert p[..n] == attempts[..n];
    hide Past;
    hide Run;
    hide Built;
    hide Lineage;
  }

  lemma AcceptedLast(address: Snapshot -> string, base: Ipfs, attempts: seq<Attempt>, n: nat)
    requires n < |attempts| && Accepted(attempts[n])
    ensures Submitted(address, base, attempts[..n + 1]) != []
  {
  }

  /** What is built apart from the list: the payload stays, and so does the list itself when previous
      snapshots are not kept or none was found. Otherwise it ends with the snapshot found first: the
      raw record, the announcement the cacher stored, the finalized one. */
  lemma PreparedPayload(keep: bool, w: Writer, a: Attempt)
    ensures var built, n := Prepared(keep, w, a), |Prepared(keep, w, a).prev|;
            && built.trade == a.snapshot.trade && built.counts == a.snapshot.counts
            && (!keep ==> built == a.snapshot)
            && (w.raw == None && !Sees(w, a) && a.finalized == None ==> built == a.snapshot)
            && (keep && w.raw.Some? && w.raw.value.epoch > 0 && w.raw.value.cid != "" ==>
                  n > 0 && built.prev[n - 1] == Link(w.raw.value.epoch, w.raw.value.cid))
            && (keep && w.raw == None && Sees(w, a) ==> n > 0 && built.prev[n - 1] == w.announced[a.seen.value])
            && (keep && w.raw == None && !Sees(w, a) && a.finalized.Some? ==>
                  var r := a.finalized.value.record; n > 0 && built.prev[n - 1] == Link(r.epoch, r.cid))
  {
  }
}
