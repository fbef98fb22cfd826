/** The cacher's event handlers and expiry loop over all projects, with the string keys Redis sees. */
module Expiry {
  import opened Common
  import opened Text
  import opened CacheModel
  import CacheRuns

  const SEQUENCER_FINALIZED := 1
  const FINALIZED := 2

  // f"{project_id}|{epoch_id}"
  function Member(project: string, key: string): string {
    project + "|" + key
  }

  function FirstBar(s: string, i: nat): (r: nat)
    requires i <= |s|
    ensures i <= r <= |s|
    ensures forall j :: i <= j < r ==> s[j] != '|'
    ensures r < |s| ==> s[r] == '|'
    decreases |s| - i
  {
    if i == |s| || s[i] == '|' then i else FirstBar(s, i + 1)
  }

  // project_id, key = entry.split('|'): None when there are not exactly two parts.
  function Split(s: string): Option<(string, string)> {
    var i := FirstBar(s, 0);
    if i == |s| || '|' in s[i + 1..] then None else Some((s[..i], s[i + 1..]))
  }

  /** Splitting undoes joining exactly for parts without a bar. */
  lemma SplitMember(project: string, key: string)
    ensures Split(Member(project, key)) == if '|' in project || '|' in key then None else Some((project, key))
  {
    var s, n := Member(project, key), |project|;
    var i := FirstBar(s, 0);
    assert s[n] == '|' && s[n + 1..] == key && s[..n] == project;
    if i < n {
      assert s[i] == project[i];
      assert s[i + 1..][n - i - 1] == '|';
    } else {
      assert i == n;
      assert forall j :: 0 <= j < n ==> project[j] == s[j];
    }
  }

  lemma SplitJoins(s: string)
    requires Split(s).Some?
    ensures s == Member(Split(s).value.0, Split(s).value.1)
  {
  }

  lemma DecimalHasNoBar(e: int)
    ensures '|' !in Decimal(e)
  {
    var digits := DecimalNat(if e < 0 then -e else e);
    assert '|' !in digits;
  }

  /** Members of projects without a bar in their id never collide. */
  lemma MembersAreUnique(p: string, e: int, q: string, f: int)
    requires '|' !in p && '|' !in q && Member(p, Decimal(e)) == Member(q, Decimal(f))
    ensures p == q && e == f
  {
    DecimalHasNoBar(e);
    DecimalHasNoBar(f);
    SplitMember(p, Decimal(e));
    SplitMember(q, Decimal(f));
    ParseDecimal(e);
    ParseDecimal(f);
  }

  type Hashes = map<string, map<string, Entry>>

  predicate Has(hashes: Hashes, p: string, k: string) {
    p in hashes && k in hashes[p]
  }

  function Put(hashes: Hashes, p: string, k: string, v: Entry): Hashes {
    hashes[p := (if p in hashes then hashes[p] else map[])[k := v]]
  }

  // One field of every batch project set to its finalized CID.
  function PutAll(hashes: Hashes, batch: seq<(string, string)>, k: string, status: int): Hashes {
    if batch == [] then hashes
    else
      var last := batch[|batch| - 1];
      Put(PutAll(hashes, batch[..|batch| - 1], k, status), last.0, k, Entry(last.1, status))
  }

  function ScoreAll(zset: map<string, int>, batch: seq<(string, string)>, k: string, score: int): map<string, int> {
    if batch == [] then zset
    else ScoreAll(zset, batch[..|batch| - 1], k, score)[Member(batch[|batch| - 1].0, k) := score]
  }

  // The CID a batch finalizes for project p: its last entry for p counts.
  function LastOf(batch: seq<(string, string)>, p: string): Option<string> {
    if batch == [] then None
    else if batch[|batch| - 1].0 == p then Some(batch[|batch| - 1].1)
    else LastOf(batch[..|batch| - 1], p)
  }

  function Field(hashes: Hashes, p: string, k: string): Option<Entry> {
    if Has(hashes, p, k) then Some(hashes[p][k]) else None
  }

  // A batch sets exactly the one field of exactly the projects it names, each with an expiry member.
  lemma {:induction false} BatchFields(
      hashes: Hashes, zset: map<string, int>, batch: seq<(string, string)>, key: string, status: int, score: int,
      p: string, k: string)
    ensures Field(PutAll(hashes, batch, key, status), p, k) ==
            if k == key && LastOf(batch, p).Some? then Some(Entry(LastOf(batch, p).value, status))
            else Field(hashes, p, k)
    ensures LastOf(batch, p).Some? ==>
              var t := ScoreAll(zset, batch, key, score); Member(p, key) in t && t[Member(p, key)] == score
  {
    hide Member;
    if batch != [] {
      BatchFields(hashes, zset, batch[..|batch| - 1], key, status, score, p, k);
    }
  }

  // A batch scores the members it names and touches no other.
  lemma {:induction false} BatchScores(
      zset: map<string, int>, batch: seq<(string, string)>, key: string, score: int, m: string)
    ensures var t := ScoreAll(zset, batch, key, score);
            if exists i :: 0 <= i < |batch| && Member(batch[i].0, key) == m then m in t && t[m] == score
            else (m in t <==> m in zset) && (m in zset ==> t[m] == zset[m])
  {
    hide Member;
    if batch != [] {
      var front, last := batch[..|batch| - 1], batch[|batch| - 1];
      BatchScores(zset, front, key, score, m);
      assert forall i :: 0 <= i < |front| ==> front[i] == batch[i];
      if i :| 0 <= i < |front| && Member(front[i].0, key) == m {
        assert Member(batch[i].0, key) == m;
      }
      if i :| 0 <= i < |batch| && Member(batch[i].0, key) == m {
        assert i == |front| || Member(front[i].0, key) == m;
      }
    }
  }

  // The members a cleanup at time now is about: ZRANGEBYSCORE from 0 to now.
  function Due(zset: map<string, int>, now: int): set<string> {
    set m | m in zset && 0 <= zset[m] <= now
  }

  ghost predicate AllSplit(ms: set<string>) {
    forall m :: m in ms ==> Split(m).Some?
  }

  // Exactly the due members are gone, from the hashes and from the expiry set alike.
  ghost predicate Swept(hashes: Hashes, zset: map<string, int>, hashes': Hashes, zset': map<string, int>, now: int) {
    && zset'.Keys == zset.Keys - Due(zset, now)
    && (forall m :: m in zset' ==> zset'[m] == zset[m])
    && (forall p, k :: Has(hashes', p, k) <==> Has(hashes, p, k) && Member(p, k) !in Due(zset, now))
    && (forall p, k :: Has(hashes', p, k) ==> hashes'[p][k] == hashes[p][k])
  }

  class Cacher {
    const expiry: int
    var hashes: Hashes
    var zset: map<string, int>
    var lastFinalized: map<string, int>

    constructor (expiry: int)
      ensures hashes == map[] && zset == map[] && lastFinalized == map[] && this.expiry == expiry
    {
      this.expiry := expiry;
      hashes, zset, lastFinalized := map[], map[], map[];
    }

    // Every cached field has an expiry member.
    ghost predicate Agree()
      reads this
    {
      forall p, k :: Has(hashes, p, k) ==> Member(p, k) in zset
    }

    // The hash and expiry writes common to the three handlers.
    method WriteEntry(p: string, e: int, cid: string, status: int, now: int)
      modifies `hashes, `zset
      ensures hashes == Put(old(hashes), p, Decimal(e), Entry(cid, status))
      ensures zset == old(zset)[Member(p, Decimal(e)) := now + expiry]
      ensures old(Agree()) ==> Agree()
    {
      hide Decimal;
      ghost var hashes0, zset0 := hashes, zset;
      hashes := Put(hashes, p, Decimal(e), Entry(cid, status));
      zset := zset[Member(p, Decimal(e)) := now + expiry];
      forall q, k | Has(hashes, q, k) && (forall p, k :: Has(hashes0, p, k) ==> Member(p, k) in zset0)
        ensures Member(q, k) in zset
      {
        assert Has(hashes0, q, k) || (q == p && k == Decimal(e));
      }
    }

    method HandleSubmitted(p: string, e: int, cid: string, now: int)
      modifies this
      ensures hashes == Put(old(hashes), p, Decimal(e), Entry(cid, 0))
      ensures zset == old(zset)[Member(p, Decimal(e)) := now + expiry]
      ensures lastFinalized == old(lastFinalized)
      ensures old(Agree()) ==> Agree()
    {
      WriteEntry(p, e, cid, SUBMITTED, now);
    }

    method HandleFinalized(p: string, e: int, cid: string, now: int)
      modifies this
      ensures hashes == Put(old(hashes), p, Decimal(e), Entry(cid, 2))
      ensures zset == old(zset)[Member(p, Decimal(e)) := now + expiry]
      ensures lastFinalized == Finalized(old(lastFinalized), p, e)
      ensures old(Agree()) ==> Agree()
    {
      if p in lastFinalized {
        lastFinalized := lastFinalized[p := Max(lastFinalized[p], e)];
      } else {
        lastFinalized := lastFinalized[p := e];
      }
      WriteEntry(p, e, cid, FINALIZED, now);
    }

    // One transaction finalizes one epoch of several projects. The last-finalized values are read
    // before any of the queued writes is executed.
    method HandleBatch(batch: seq<(string, string)>, e: int, now: int)
      modifies this
      ensures hashes == PutAll(old(hashes), batch, Decimal(e), 1)
      ensures zset == ScoreAll(old(zset), batch, Decimal(e), now + expiry)
      ensures lastFinalized == AllFinalized(old(lastFinalized), batch, e)
      ensures old(Agree()) ==> Agree()
    {
      hide Decimal;
      ghost var agreed := Agree();
      var before := lastFinalized;
      for i := 0 to |batch|
        invariant agreed ==> Agree()
        invariant hashes == PutAll(old(hashes), batch[..i], Decimal(e), SEQUENCER_FINALIZED)
        invariant zset == ScoreAll(old(zset), batch[..i], Decimal(e), now + expiry)
        invariant lastFinalized == AllFinalized(before, batch[..i], e)
      {
        var p, cid := batch[i].0, batch[i].1;
        assert batch[..i + 1][..i] == batch[..i];
        AllFinalizedAt(before, batch[..i], e, p);
        lastFinalized := lastFinalized[p := if p in before then Max(before[p], e) else e];
        WriteEntry(p, e, cid, SEQUENCER_FINALIZED, now);
      }
      assert batch[..|batch|] == batch;
    }

    /** One pass of _cleanup_expired_project_data. When every due member splits into two parts, the
        grouped deletes remove exactly the due members, from the hashes and from the expiry set
        alike; when one does not, the exception leaves everything in place. */
    method Cleanup(now: int)
      modifies `hashes, `zset
      ensures if AllSplit(old(Due(zset, now))) then Swept(old(hashes), old(zset), hashes, zset, now)
              else hashes == old(hashes) && zset == old(zset)
      ensures old(Agree()) ==> Agree()
    {
      var due := Due(zset, now);
      var groups, ok := Group(due);
      if !ok {
        return;
      }
      ghost var before, zset0 := hashes, zset;
      hashes := DeleteGroups(hashes, groups);
      zset := map m | m in zset && m !in due :: zset[m];
      forall p, k ensures (p in groups && k in groups[p]) <==> Member(p, k) in due {
        SplitMember(p, k);
        if p in groups && k in groups[p] {
          var m :| m in due && Split(m) == Some((p, k));
          SplitJoins(m);
        }
      }
    }

    // entries_by_hmap: the due keys of every project.
    static method Group(due: set<string>) returns (groups: map<string, set<string>>, ok: bool)
      ensures ok <==> AllSplit(due)
      ensures ok ==>
                forall p, k :: (p in groups && k in groups[p]) <==> exists m :: m in due && Split(m) == Some((p, k))
    {
      hide Split;
      groups := map[];
      var rest := due;
      while rest != {}
        invariant rest <= due && AllSplit(due - rest)
        invariant forall p, k ::
                    (p in groups && k in groups[p]) <==> exists m :: m in due - rest && Split(m) == Some((p, k))
        decreases rest
      {
        var m := Pick(rest);
        var parts := Split(m);
        if parts == None {
          ok := false;
          return;
        }
        var p, k := parts.value.0, parts.value.1;
        if p !in groups {
          groups := groups[p := {}];
        }
        groups := groups[p := groups[p] + {k}];
        assert due - (rest - {m}) == (due - rest) + {m};
        rest := rest - {m};
      }
      assert due - rest == due;
      ok := true;
    }

    // One HDEL per project.
    static method DeleteGroups(hashes: Hashes, groups: map<string, set<string>>) returns (r: Hashes)
      ensures forall p, k :: Has(r, p, k) <==> Has(hashes, p, k) && !(p in groups && k in groups[p])
      ensures forall p, k :: Has(r, p, k) && Has(hashes, p, k) ==> r[p][k] == hashes[p][k]
    {
      r := hashes;
      var rest := groups.Keys;
      while rest != {}
        invariant rest <= groups.Keys
        invariant forall p, k :: Has(r, p, k) <==> Has(hashes, p, k) && !(p in groups && p !in rest && k in groups[p])
        invariant forall p, k :: Has(r, p, k) && Has(hashes, p, k) ==> r[p][k] == hashes[p][k]
        decreases rest
      {
        var p := Pick(rest);
        if p in r {
          r := r[p := map k | k in r[p] && k !in groups[p] :: r[p][k]];
        }
        rest := rest - {p};
      }
    }
  }

  function Finalized(last: map<string, int>, p: string, e: int): map<string, int> {
    last[p := if p in last then Max(last[p], e) else e]
  }

  function AllFinalized(last: map<string, int>, batch: seq<(string, string)>, e: int): map<string, int> {
    if batch == [] then last else Finalized(AllFinalized(last, batch[..|batch| - 1], e), batch[|batch| - 1].0, e)
  }

  // Reading the old value and reading the value of earlier batch entries come to the same.
  lemma {:induction false} AllFinalizedAt(last: map<string, int>, batch: seq<(string, string)>, e: int, p: string)
    ensures Finalized(AllFinalized(last, batch, e), p, e)
              == AllFinalized(last, batch, e)[p := if p in last then Max(last[p], e) else e]
    ensures p in last ==> p in AllFinalized(last, batch, e)
    ensures var t := AllFinalized(last, batch, e);
            p in t ==> (p in last && t[p] == last[p]) || t[p] == if p in last then Max(last[p], e) else e
  {
    if batch != [] {
      AllFinalizedAt(last, batch[..|batch| - 1], e, p);
    }
  }

  // A batch raises the last finalized epoch of exactly the projects it names.
  lemma {:induction false} AllFinalizedIs(
      last: map<string, int>, batch: seq<(string, string)>, e: int, q: string)
    ensures var t := AllFinalized(last, batch, e);
            if LastOf(batch, q).Some? then q in t && t[q] == if q in last then Max(last[q], e) else e
            else (q in t <==> q in last) && (q in last ==> t[q] == last[q])
  {
    if batch != [] {
      AllFinalizedIs(last, batch[..|batch| - 1], e, q);
    }
  }

  function FinalizedRun(events: seq<(string, int)>): map<string, int> {
    if events == [] then map[]
    else Finalized(FinalizedRun(events[..|events| - 1]), events[|events| - 1].0, events[|events| - 1].1)
  }

  /** In whatever order finalizations arrive, the last finalized epoch of a project is the largest
      one that arrived. */
  lemma {:induction false} LastFinalizedIsMax(events: seq<(string, int)>, p: string)
    ensures p in FinalizedRun(events) <==> exists i :: 0 <= i < |events| && events[i].0 == p
    ensures p in FinalizedRun(events) ==>
      && (exists i :: 0 <= i < |events| && events[i] == (p, FinalizedRun(events)[p]))
      && (forall i :: 0 <= i < |events| && events[i].0 == p ==> events[i].1 <= FinalizedRun(events)[p])
  {
    if events != [] {
      var front, last := events[..|events| - 1], events[|events| - 1];
      LastFinalizedIsMax(front, p);
      assert forall i :: 0 <= i < |front| ==> events[i] == front[i];
      if p in FinalizedRun(front) {
        var i :| 0 <= i < |front| && front[i] == (p, FinalizedRun(front)[p]);
        assert events[i] == front[i];
      }
      assert events[|events| - 1] == last;
    }
  }

  datatype Keys = Keys(hashes: Hashes, zset: map<string, int>)

  // A handler's write of one entry, or a pass of the cleanup.
  datatype Act = Write(project: string, epoch: int, entry: Entry, score: int) | Sweep(now: int)

  ghost predicate Acts(s: Keys, t: Keys, act: Act) {
    match act
    case Write(p, e, v, score) => t == Keys(Put(s.hashes, p, Decimal(e), v), s.zset[Member(p, Decimal(e)) := score])
    case Sweep(now) =>
      if AllSplit(Due(s.zset, now)) then Swept(s.hashes, s.zset, t.hashes, t.zset, now) else t == s
  }

  // Acts that leave the member alone, with passes no earlier than now.
  ghost predicate LeaveAlone(acts: seq<Act>, m: string, now: int) {
    forall i :: 0 <= i < |acts| ==>
      match acts[i]
      case Write(p, e, _, _) => Member(p, Decimal(e)) != m
      case Sweep(later) => now <= later
  }

  /** A project id with a bar stops the cleanup: once one of its members is due, no later pass
      removes anything of any project, whatever is written in between, until a handler writes that
      member again. */
  lemma {:induction false} BarBlocksCleanup(trace: seq<Keys>, acts: seq<Act>, p: string, e: int, now: int, n: nat)
    requires |trace| == |acts| + 1 && forall i :: 0 <= i < |acts| ==> Acts(trace[i], trace[i + 1], acts[i])
    requires '|' in p && Member(p, Decimal(e)) in Due(trace[0].zset, now)
    requires LeaveAlone(acts, Member(p, Decimal(e)), now) && n <= |acts|
    ensures Member(p, Decimal(e)) in Due(trace[n].zset, now)
    ensures n > 0 && acts[n - 1].Sweep? ==> trace[n] == trace[n - 1]
  {
    hide Decimal;
    hide Member;
    hide Split;
    if n > 0 {
      BarBlocksCleanup(trace, acts, p, e, now, n - 1);
      assert Acts(trace[n - 1], trace[n], acts[n - 1]);
      SplitMember(p, Decimal(e));
    }
  }

  // ----- one project's view -----

  /** s is what the string keys say about project p. */
  ghost predicate Shows(hashes: Hashes, zset: map<string, int>, p: string, s: Cache) {
    && (forall e :: e in s.hash <==> Has(hashes, p, Decimal(e)))
    && (forall e :: e in s.hash ==> s.hash[e] == hashes[p][Decimal(e)])
    && (forall e :: e in s.expiry <==> Member(p, Decimal(e)) in zset)
    && (forall e :: e in s.expiry ==> s.expiry[e] == zset[Member(p, Decimal(e))])
  }

  /** Writing one entry changes that epoch of that project and no other project's view. */
  lemma WriteShows(
      hashes: Hashes, zset: map<string, int>, p: string, e: int, v: Entry, score: int, q: string, s: Cache)
    requires '|' !in p && '|' !in q && Shows(hashes, zset, q, s)
    ensures Shows(Put(hashes, p, Decimal(e), v), zset[Member(p, Decimal(e)) := score], q,
                  if q == p then s.(hash := s.hash[e := v], expiry := s.expiry[e := score]) else s)
  {
    hide Decimal;
    hide Member;
    forall f
      ensures Decimal(e) == Decimal(f) ==> e == f
      ensures Member(p, Decimal(e)) == Member(q, Decimal(f)) ==> p == q && e == f
    {
      ParseDecimal(e);
      ParseDecimal(f);
      if Member(p, Decimal(e)) == Member(q, Decimal(f)) {
        MembersAreUnique(p, e, q, f);
      }
    }
  }

  /** A batch changes one epoch of each project it names and no other project's view. */
  lemma {:induction false} BatchShows(
      hashes: Hashes, zset: map<string, int>, batch: seq<(string, string)>, e: int, status: int, score: int, q: string,
      s: Cache)
    requires '|' !in q && (forall i :: 0 <= i < |batch| ==> '|' !in batch[i].0) && Shows(hashes, zset, q, s)
    ensures Shows(PutAll(hashes, batch, Decimal(e), status), ScoreAll(zset, batch, Decimal(e), score), q,
                  if LastOf(batch, q).Some?
                  then s.(hash := s.hash[e := Entry(LastOf(batch, q).value, status)], expiry := s.expiry[e := score])
                  else s)
  {
    hide Decimal;
    hide Member;
    hide Shows;
    if batch != [] {
      var front, last := batch[..|batch| - 1], batch[|batch| - 1];
      assert forall i :: 0 <= i < |front| ==> front[i] == batch[i];
      BatchShows(hashes, zset, front, e, status, score, q, s);
      var s1 := if LastOf(front, q).Some?
                then s.(hash := s.hash[e := Entry(LastOf(front, q).value, status)], expiry := s.expiry[e := score])
                else s;
      WriteShows(PutAll(hashes, front, Decimal(e), status), ScoreAll(zset, front, Decimal(e), score), last.0, e,
                 Entry(last.1, status), score, q, s1);
      var v := Entry(last.1, status);
      assert s1.hash[e := v] == s.hash[e := v] && s1.expiry[e := score] == s.expiry[e := score];
    }
  }

  /** On every project's view, a successful pass over all projects is that project's own cleanup. */
  lemma SweepShows(
      hashes: Hashes, zset: map<string, int>, hashes': Hashes, zset': map<string, int>, now: int, p: string, s: Cache)
    requires Shows(hashes, zset, p, s) && Swept(hashes, zset, hashes', zset', now)
    ensures Shows(hashes', zset', p, CacheRuns.Cleanup(s, now))
  {
  }
}
