/** A project's finalized history and the chain of snapshots that records it. */
module History {
  import opened Common
  import opened Text

  // Snapshots list at most this many predecessors.
  const CHAIN_LIMIT := 200

  datatype Link = Link(epoch: int, cid: string)

  // prev is previousSnapshots; trade (totalTrade, in exact units) and counts (the pools or tokens
  // dictionary) stand for the payload that aggregates read.
  datatype Snapshot = Snapshot(prev: seq<Link>, trade: Option<int>, counts: map<string, nat>)

  // The reachable part of the content store.
  type Ipfs = map<string, Snapshot>

  ghost predicate Increasing(c: seq<Link>) {
    forall i, j :: 0 <= i < j < |c| ==> c[i].epoch < c[j].epoch
  }

  function WindowStart(n: nat): nat {
    Max(0, n - CHAIN_LIMIT)
  }

  // The last min(|c|, 200) links.
  function Recent(c: seq<Link>): seq<Link> {
    c[WindowStart(|c|)..]
  }

  lemma RecentIs(c: seq<Link>)
    ensures Recent(c) == if |c| <= 200 then c else c[|c| - 200..]
  {
  }

  // Every commit's snapshot is stored and lists exactly the most recent commits before it.
  ghost predicate Chained(c: seq<Link>, ipfs: Ipfs) {
    forall i :: 0 <= i < |c| ==>
      c[i].cid in ipfs && ipfs[c[i].cid].prev == Recent(c[..i]) && c[i].cid != "" && !HasNull(c[i].cid)
  }

  // The same as far as snapshots can be fetched.
  ghost predicate ChainedPart(c: seq<Link>, part: Ipfs) {
    forall i :: 0 <= i < |c| ==>
      && c[i].cid != "" && !HasNull(c[i].cid)
      && (c[i].cid in part ==> part[c[i].cid].prev == Recent(c[..i]))
  }

  ghost predicate Within(part: Ipfs, store: Ipfs) {
    forall cid :: cid in part ==> cid in store && part[cid] == store[cid]
  }

  lemma PartOfChain(c: seq<Link>, store: Ipfs, part: Ipfs)
    requires Chained(c, store) && Within(part, store)
    ensures ChainedPart(c, part)
  {
    hide Recent;
    hide HasNull;
  }

  // The history as a function from epochs to CIDs.
  ghost function HistoryMap(c: seq<Link>): map<int, string> {
    if c == [] then map[] else HistoryMap(c[..|c| - 1])[c[|c| - 1].epoch := c[|c| - 1].cid]
  }

  lemma {:induction false} HistoryMapRecords(c: seq<Link>)
    requires Increasing(c)
    ensures forall e :: e in HistoryMap(c) ==> Link(e, HistoryMap(c)[e]) in c
    ensures forall l :: l in c ==> l.epoch in HistoryMap(c) && HistoryMap(c)[l.epoch] == l.cid
  {
    if c != [] {
      var front, last := c[..|c| - 1], c[|c| - 1];
      var m, t := HistoryMap(front), HistoryMap(c);
      HistoryMapRecords(front);
      hide HistoryMap;
      assert c == front + [last];
      forall e | e in t ensures Link(e, t[e]) in c {
        assert if e == last.epoch then Link(e, t[e]) == last else Link(e, m[e]) in front;
      }
      forall l | l in c ensures l.epoch in t && t[l.epoch] == l.cid {
        var i :| 0 <= i < |c| && c[i] == l;
        if i < |c| - 1 {
          assert front[i] == l;
        }
      }
    }
  }
}
