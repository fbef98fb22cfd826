/** Snapshot contents by CID: the lite cache in front of the content store. */
module Submissions {
  import opened Common
  import opened Text
  import opened History

  const BATCH_SIZE := 1000

  // A snapshot as readers get it, without its list of predecessors; None is the empty dictionary.
  type Data = Option<Snapshot>

  // get_submission_data with the predecessors removed
  function FetchData(ipfs: Ipfs, cid: string): Data {
    if cid == "" || HasNull(cid) || cid !in ipfs then None else Some(ipfs[cid].(prev := []))
  }

  // What a CID reads as: its cached value, empty ones included, or else the fetched one.
  function Lookup(lite: map<string, Data>, ipfs: Ipfs, cid: string): Data {
    if cid in lite then lite[cid] else FetchData(ipfs, cid)
  }

  function Uncached(lite: map<string, Data>, cids: seq<string>): seq<string> {
    if cids == [] then [] else
    var front, last := cids[..|cids| - 1], cids[|cids| - 1];
    if last in lite then Uncached(lite, front) else Uncached(lite, front) + [last]
  }

  lemma {:induction false} UncachedElems(lite: map<string, Data>, cids: seq<string>)
    ensures forall c :: c in Uncached(lite, cids) <==> c in cids && c !in lite
  {
    if cids != [] {
      UncachedElems(lite, cids[..|cids| - 1]);
      assert cids == cids[..|cids| - 1] + [cids[|cids| - 1]];
    }
  }

  function FirstBatch(lite: map<string, Data>, cids: seq<string>): seq<string> {
    var u := Uncached(lite, cids);
    u[..Min(BATCH_SIZE, |u|)]
  }

  // The first batch are the first thousand uncached CIDs.
  lemma FirstBatchIs(lite: map<string, Data>, cids: seq<string>)
    ensures |FirstBatch(lite, cids)| == Min(1000, |Uncached(lite, cids)|)
    ensures FirstBatch(lite, cids) <= Uncached(lite, cids)
  {
  }

  // A CID reads as the payload that is stored under it, or as nothing.
  lemma FetchDataIs(ipfs: Ipfs, cid: string)
    ensures var d := FetchData(ipfs, cid);
            if cid != "" && !HasNull(cid) && cid in ipfs
            then d.Some? && d.value.trade == ipfs[cid].trade && d.value.counts == ipfs[cid].counts && d.value.prev == []
            else d == None
  {
    hide HasNull;
  }

  /** Once read into the lite cache, a CID goes on reading the same, whatever can still be fetched. */
  lemma CachedReadsStay(
      before: map<string, Data>, after: map<string, Data>, ipfs: Ipfs, later: Ipfs, cacheCids: bool, cid: string)
    requires Grew(before, after, ipfs, cacheCids) && cid in after
    ensures Lookup(after, later, cid) == Lookup(before, ipfs, cid) == after[cid]
  {
    hide FetchData;
  }

  ghost predicate Resolves(ipfs: Ipfs, cids: seq<string>) {
    forall c :: c in cids ==> FetchData(ipfs, c).Some?
  }

  // The first batch of uncached CIDs comes back without an empty one.
  ghost predicate Readable(lite: map<string, Data>, ipfs: Ipfs, cids: seq<string>) {
    Resolves(ipfs, FirstBatch(lite, cids))
  }

  // ... and some uncached CID lies beyond it.
  ghost predicate LeavesUnread(lite: map<string, Data>, ipfs: Ipfs, cids: seq<string>) {
    Readable(lite, ipfs, cids) && exists c :: c in cids && c !in lite && c !in FirstBatch(lite, cids)
  }

  // That takes more than a thousand uncached ones.
  lemma UnreadBeyondThousand(lite: map<string, Data>, ipfs: Ipfs, cids: seq<string>)
    requires LeavesUnread(lite, ipfs, cids)
    ensures |Uncached(lite, cids)| > 1000
  {
    UncachedElems(lite, cids);
    hide Uncached;
    hide Readable;
  }

  // all holds the reading of exactly the given CIDs.
  ghost predicate Reads(all: map<string, Data>, lite: map<string, Data>, ipfs: Ipfs, keys: set<string>) {
    all.Keys == keys && forall c :: c in all ==> all[c] == Lookup(lite, ipfs, c)
  }

  // Fetching may add entries to the lite cache, never change one.
  ghost predicate Grew(before: map<string, Data>, after: map<string, Data>, ipfs: Ipfs, cacheCids: bool) {
    && (forall c :: c in before ==> c in after && after[c] == before[c])
    && (forall c :: c in after && c !in before ==> cacheCids && after[c] == FetchData(ipfs, c))
  }

  lemma ReadOne(all: map<string, Data>, lite: map<string, Data>, ipfs: Ipfs, keys: set<string>, cid: string)
    requires Reads(all, lite, ipfs, keys) && cid !in lite
    ensures Reads(all[cid := FetchData(ipfs, cid)], lite, ipfs, keys + {cid})
  {
  }

  lemma GrewOne(before: map<string, Data>, after: map<string, Data>, ipfs: Ipfs, cid: string)
    requires Grew(before, after, ipfs, true) && cid !in before
    ensures Grew(before, after[cid := FetchData(ipfs, cid)], ipfs, true)
  {
  }

  lemma GrewNothing(lite: map<string, Data>, ipfs: Ipfs, cacheCids: bool)
    ensures Grew(lite, lite, ipfs, cacheCids)
  {
  }

  class CidCache {
    const cacheCids: bool
    var lite: map<string, Data>

    constructor (cacheCids: bool)
      ensures this.cacheCids == cacheCids && lite == map[]
    {
      this.cacheCids, lite := cacheCids, map[];
    }

    method ReadCached(ghost ipfs: Ipfs, cids: seq<string>) returns (all: map<string, Data>, missing: seq<string>)
      ensures missing == Uncached(lite, cids)
      ensures Reads(all, lite, ipfs, Elems(cids) * lite.Keys)
    {
      all, missing := map[], [];
      for k := 0 to |cids|
        invariant missing == Uncached(lite, cids[..k])
        invariant Reads(all, lite, ipfs, Elems(cids[..k]) * lite.Keys)
      {
        ElemsSnoc(cids, k);
        if cids[k] in lite {
          all := all[cids[k] := lite[cids[k]]];
        } else {
          missing := missing + [cids[k]];
        }
      }
      assert cids[..|cids|] == cids;
    }

    // One batch of concurrent fetches; failed tells whether any came back empty.
    method FetchBatch(ipfs: Ipfs, batch: seq<string>, all: map<string, Data>, ghost lite0: map<string, Data>)
      returns (more: map<string, Data>, failed: bool)
      requires Grew(lite0, lite, ipfs, cacheCids) && Reads(all, lite0, ipfs, all.Keys)
      requires forall c :: c in batch ==> c !in lite0
      modifies this
      ensures Grew(lite0, lite, ipfs, cacheCids) && Reads(more, lite0, ipfs, all.Keys + Elems(batch))
      ensures failed <==> !Resolves(ipfs, batch)
      ensures old(lite.Keys) <= lite.Keys && (cacheCids ==> Elems(batch) <= lite.Keys)
    {
      hide FetchData;
      hide Reads;
      hide Grew;
      hide Elems;
      more, failed := all, false;
      NoElems();
      assert batch[..0] == [];
      for k := 0 to |batch|
        invariant Grew(lite0, lite, ipfs, cacheCids) && Reads(more, lite0, ipfs, all.Keys + Elems(batch[..k]))
        invariant failed <==> !Resolves(ipfs, batch[..k])
        invariant old(lite.Keys) <= lite.Keys && (cacheCids ==> Elems(batch[..k]) <= lite.Keys)
      {
        ElemsSnoc(batch, k);
        var cid := batch[k];
        assert cid in batch;
        assert Resolves(ipfs, batch[..k + 1]) <==> Resolves(ipfs, batch[..k]) && FetchData(ipfs, cid).Some? by {
          assert batch[..k + 1] == batch[..k] + [cid];
        }
        var data := FetchData(ipfs, cid);
        ReadOne(more, lite0, ipfs, all.Keys + Elems(batch[..k]), cid);
        assert all.Keys + Elems(batch[..k]) + {cid} == all.Keys + Elems(batch[..k + 1]);
        more := more[cid := data];
        if cacheCids {
          GrewOne(lite0, lite, ipfs, cid);
          lite := lite[cid := data];
        }
        if data == None {
          failed := true;
        }
      }
      assert batch[..|batch|] == batch;
    }

    static lemma NoElems()
      ensures Elems<string>([]) == {} && forall s: set<string> :: s + {} == s
    {
    }

    // The final list; a CID that was never read is a KeyError.
    static method Assemble(cids: seq<string>, all: map<string, Data>) returns (r: Result<seq<Data>>)
      ensures r.Ok? <==> forall c :: c in cids ==> c in all
      ensures r.Ok? ==>
        |r.value| == |cids| && forall i :: 0 <= i < |cids| ==> cids[i] in all && r.value[i] == all[cids[i]]
      ensures r.Err? ==> r.error == KeyError
    {
      var result: seq<Data> := [];
      for k := 0 to |cids|
        invariant |result| == k && forall i :: 0 <= i < k ==> cids[i] in all && result[i] == all[cids[i]]
      {
        if cids[k] !in all {
          return Err(KeyError);
        }
        result := result + [all[cids[k]]];
      }
      r := Ok(result);
    }

    /** get_submission_data_bulk. Without ensure_complete every CID reads as Lookup says, in order.
        With it, an unresolved CID in the first batch of uncached ones gives an empty list; but a
        complete first batch also ends the fetching, so any further uncached CID is a KeyError. */
    method GetSubmissionDataBulk(ipfs: Ipfs, cids: seq<string>, ensureComplete: bool) returns (r: Result<seq<Data>>)
      modifies this
      ensures r == Err(KeyError) <==> ensureComplete && LeavesUnread(old(lite), ipfs, cids)
      ensures r.Err? ==> r.error == KeyError
      ensures r.Ok? && (!ensureComplete || Readable(old(lite), ipfs, cids)) ==>
        |r.value| == |cids| && forall i :: 0 <= i < |cids| ==> r.value[i] == Lookup(old(lite), ipfs, cids[i])
      ensures ensureComplete && !Readable(old(lite), ipfs, cids) ==> r == Ok([])
      ensures Grew(old(lite), lite, ipfs, cacheCids)
      ensures cacheCids ==>
        Elems(if ensureComplete then FirstBatch(old(lite), cids) else Uncached(old(lite), cids)) <= lite.Keys
    {
      hide FetchData;
      hide Elems;
      hide Grew;
      ghost var lite0 := lite;
      NoElems();
      GrewNothing(lite, ipfs, cacheCids);
      UncachedElems(lite, cids);
      var all, missing := ReadCached(ipfs, cids);
      ghost var u, known := missing, all.Keys;
      var i, n := 0, |missing|;
      ghost var read := 0;  // how many of u have been read
      while i < n
        invariant 0 <= read <= |u|
        invariant if ensureComplete && i > 0
                  then missing == [] && read == Min(BATCH_SIZE, |u|) && Resolves(ipfs, u[..read])
                  else missing == u && read == Min(i, |u|)
        invariant Reads(all, lite0, ipfs, known + Elems(u[..read]))
        invariant Grew(lite0, lite, ipfs, cacheCids) && (cacheCids ==> Elems(u[..read]) <= lite.Keys)
        decreases n - i
      {
        var batch := Slice(missing, i, i + BATCH_SIZE);
        forall c | c in batch ensures c in u {
        }
        var failed;
        all, failed := FetchBatch(ipfs, batch, all, lite0);
        if missing == u {
          ghost var next := Min(i + BATCH_SIZE, |u|);
          assert u[..next] == u[..read] + batch;
          ElemsJoin(u[..read], batch);
          read := next;
        } else {
          assert batch == [];
        }
        if ensureComplete {
          if failed {
            assert i == 0 && batch == FirstBatch(lite0, cids);
            return Ok([]);
          }
          missing := [];
        }
        i := i + BATCH_SIZE;
      }
      assert u[..|u|] == u;
      WhatWasRead(cids, lite0, u, read, all.Keys);
      r := Assemble(cids, all);
    }

    static lemma ElemsJoin(a: seq<string>, b: seq<string>)
      ensures Elems(a + b) == Elems(a) + Elems(b)
    {
    }

    static lemma WhatWasRead(cids: seq<string>, lite: map<string, Data>, u: seq<string>, read: nat, keys: set<string>)
      requires u == Uncached(lite, cids) && read <= |u|
      requires keys == Elems(cids) * lite.Keys + Elems(u[..read])
      ensures (forall c :: c in cids ==> c in keys) <==> forall c :: c in cids && c !in lite ==> c in u[..read]
    {
    }

    // s[lo:hi] with Python's clamping
    static function Slice(s: seq<string>, lo: nat, hi: nat): seq<string>
      requires lo <= hi
    {
      s[Min(lo, |s|)..Min(hi, |s|)]
    }
  }
}
