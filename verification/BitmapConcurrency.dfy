/** Several set_bits_in_range calls on one key, interleaved between their GETRANGE and their
    SETRANGE. Every Redis command, and every SETBIT pipeline, is one atomic step. */
module BitmapConcurrency {
  import opened Common
  import opened RedisString
  import opened BitmapSpec

  datatype Phase = Ready | Holding(window: Bytes) | Finished

  datatype State = State(data: Bytes, phases: seq<Phase>)

  datatype Config = Config(offset: int, maxRange: int, calls: seq<seq<int>>) {
    ghost predicate Valid() {
      forall k :: 0 <= k < |calls| ==> calls[k] != [] && AtLeast(calls[k], offset)
    }

    ghost function Lo(k: nat): int
      requires k < |calls| && Valid()
    {
      LowByte(offset, calls[k])
    }

    ghost function Hi(k: nat): int
      requires k < |calls| && Valid()
    {
      HighByte(offset, calls[k])
    }

    ghost predicate Apart(i: nat, j: nat)
      requires i < |calls| && j < |calls| && Valid()
    {
      Hi(i) < Lo(j) || Hi(j) < Lo(i)
    }

    ghost predicate WindowsDisjoint()
      requires Valid()
    {
      forall i, j :: 0 <= i < |calls| && 0 <= j < |calls| && i != j ==> Apart(i, j)
    }

    ghost predicate Step(s: State, t: State, k: nat)
      requires Valid()
    {
      && k < |calls| == |s.phases|
      && var ids := calls[k];
         match s.phases[k]
         case Ready =>
           if Fast(offset, maxRange, ids) then
             0 <= Lo(k) <= Hi(k) && t == s.(phases := s.phases[k := Holding(ReadWindow(s.data, Lo(k), Hi(k)))])
           else
             t == State(SetAll(s.data, offset, ids), s.phases[k := Finished])
         case Holding(w) =>
           0 <= Lo(k) && t == State(SetRangeSpec(s.data, Lo(k), Merge(offset, ids, Lo(k), w)), s.phases[k := Finished])
         case Finished => false
    }

    // trace is a run in which call schedule[i] takes step i.
    ghost predicate Run(trace: seq<State>, schedule: seq<nat>)
      requires Valid()
    {
      && |trace| == |schedule| + 1
      && trace[0].phases == seq(|calls|, _ => Ready)
      && forall i :: 0 <= i < |schedule| ==> Step(trace[i], trace[i + 1], schedule[i])
    }

    ghost predicate Done(s: State, e: int)
      requires |s.phases| == |calls|
    {
      exists k :: 0 <= k < |calls| && s.phases[k].Finished? && e in calls[k]
    }

    ghost predicate AllFinished(s: State) {
      |s.phases| == |calls| && forall k :: 0 <= k < |calls| ==> s.phases[k].Finished?
    }

    // A stale write of call j cannot erase what call i stored.
    ghost predicate Spares(start: Bytes, i: nat, j: nat)
      requires i < |calls| && j < |calls| && Valid()
    {
      Fast(offset, maxRange, calls[j]) ==>
        forall e :: e in calls[i] && Lo(j) <= ByteOf(e, offset) <= Hi(j) ==>
                      e in calls[j] || e in Members(start, offset)
    }

    ghost predicate AllSpare(start: Bytes)
      requires Valid()
    {
      forall i, j :: 0 <= i < |calls| && 0 <= j < |calls| && i != j ==> Spares(start, i, j)
    }

    // What holds between any two steps: the string stores the starting set and the ids of every
    // finished call, and a held window has the starting bits and no bit that is not stored.
    ghost predicate Inv(start: Bytes, s: State)
      requires Valid()
    {
      && |s.phases| == |calls|
      && (forall k :: 0 <= k < |calls| && s.phases[k].Holding? ==> Usable(start, s, k))
      && (forall e :: e in Members(s.data, offset) <==> e in Members(start, offset) || Done(s, e))
    }

    ghost predicate Usable(start: Bytes, s: State, k: nat)
      requires k < |calls| == |s.phases| && s.phases[k].Holding? && Valid()
    {
      var w := s.phases[k].window;
      && Fast(offset, maxRange, calls[k]) && 0 <= Lo(k) && |w| == Hi(k) - Lo(k) + 1
      && forall e :: offset <= e && Lo(k) <= ByteOf(e, offset) <= Hi(k) ==>
           && (e in Members(start, offset) ==> InWindow(w, Lo(k), e))
           && (InWindow(w, Lo(k), e) ==> e in Members(s.data, offset))
    }

    predicate InWindow(w: Bytes, lo: int, e: int)
      requires lo <= ByteOf(e, offset) < lo + |w|
    {
      TestBit(w[ByteOf(e, offset) - lo], (e - offset) % 8)
    }

    lemma {:induction false} SetAllElsewhere(s: Bytes, ids: seq<int>, p: int)
      requires AtLeast(ids, offset) && p !in BytesOf(offset, ids)
      ensures ByteAt(SetAll(s, offset, ids), p) == ByteAt(s, p)
    {
      hide SetBitSpec;
      if ids != [] {
        var front, last := ids[..|ids| - 1], ids[|ids| - 1];
        assert ids == front + [last];
        assert ByteOf(last, offset) in BytesOf(offset, ids);
        SetAllElsewhere(s, front, p);
        SetBitBytes(SetAll(s, offset, front), last - offset, p);
      }
    }

    lemma StartIsKept(start: Bytes, s: State)
      requires Valid() && Inv(start, s)
      ensures Members(start, offset) <= Members(s.data, offset)
    {
      hide MembersBelow;
      hide Usable;
      forall e | e in Members(start, offset) ensures e in Members(s.data, offset) {
        assert Done(s, e) || e in Members(start, offset);
      }
    }

    // A freshly read window is usable.
    lemma ReadIsUsable(start: Bytes, s: State, k: nat)
      requires Valid() && k < |calls| == |s.phases| && Fast(offset, maxRange, calls[k])
      requires Members(start, offset) <= Members(s.data, offset)
      requires 0 <= Lo(k) <= Hi(k) && s.phases[k] == Holding(ReadWindow(s.data, Lo(k), Hi(k)))
      ensures Usable(start, s, k)
    {
      hide ReadWindow;
      hide Fast;
      hide MembersBelow;
      hide TestBit;
      WindowCovers(offset, calls[k]);
      var w := s.phases[k].window;
      forall e | offset <= e && Lo(k) <= ByteOf(e, offset) <= Hi(k)
        ensures InWindow(w, Lo(k), e) <==> e in Members(s.data, offset)
      {
        MemberByte(s.data, offset, e);
      }
    }

    // Writing a usable window adds exactly the call's ids, when the other calls spare them.
    lemma UsableWrite(start: Bytes, s: State, k: nat, e: int)
      requires Valid() && Inv(start, s) && AllSpare(start) && k < |calls| && s.phases[k].Holding?
      ensures var w := s.phases[k].window;
              e in Members(SetRangeSpec(s.data, Lo(k), Merge(offset, calls[k], Lo(k), w)), offset) <==>
              e in Members(s.data, offset) || e in calls[k]
    {
      hide SetRangeSpec;
      hide MembersBelow;
      hide Merge;
      hide TestBit;
      hide Fast;
      var w, ids := s.phases[k].window, calls[k];
      assert Usable(start, s, k);
      WindowCovers(offset, ids);
      if offset <= e {
        MergedWrite(s.data, offset, ids, Lo(k), w, e);
        if e in Members(s.data, offset) && e !in Members(start, offset) {
          var i :| 0 <= i < |calls| && s.phases[i].Finished? && e in calls[i];
          assert Spares(start, i, k);
        }
      } else {
        MemberBit(s.data, offset, e);
        MemberBit(SetRangeSpec(s.data, Lo(k), Merge(offset, ids, Lo(k), w)), offset, e);
      }
    }

    // A step of call k adds either nothing or exactly its ids, and touches only its own window.
    lemma StepEffect(start: Bytes, s: State, t: State, k: nat)
      requires Valid() && AllSpare(start) && Inv(start, s) && Step(s, t, k)
      ensures Members(t.data, offset) == Members(s.data, offset) + if t.phases[k].Finished? then Elems(calls[k]) else {}
      ensures forall p :: !(Lo(k) <= p <= Hi(k)) ==> ByteAt(t.data, p) == ByteAt(s.data, p)
      ensures t.phases[k].Holding? ==> Usable(start, t, k)
    {
      hide SetBitSpec;
      hide MembersBelow;
      hide Merge;
      hide Usable;
      hide Spares;
      var ids := calls[k];
      WindowCovers(offset, ids);
      StartIsKept(start, s);
      match s.phases[k]
      case Ready =>
        if Fast(offset, maxRange, ids) {
          ReadIsUsable(start, t, k);
        } else {
          SetAllMembers(s.data, offset, ids);
          forall p | !(Lo(k) <= p <= Hi(k)) ensures ByteAt(t.data, p) == ByteAt(s.data, p) {
            SetAllElsewhere(s.data, ids, p);
          }
        }
      case Holding(w) =>
        forall e ensures e in Members(t.data, offset) <==> e in Members(s.data, offset) || e in ids {
          UsableWrite(start, s, k, e);
        }
        assert |w| > 0 by {
          assert Usable(start, s, k);
          UsableSize(start, s, k);
        }
        forall p | !(Lo(k) <= p <= Hi(k)) ensures ByteAt(t.data, p) == ByteAt(s.data, p) {
          UsableSize(start, s, k);
          MergeLength(ids, Lo(k), w);
          SetRangeBytes(s.data, Lo(k), Merge(offset, ids, Lo(k), w), p);
        }
    }

    lemma UsableSize(start: Bytes, s: State, k: nat)
      requires Valid() && k < |calls| == |s.phases| && s.phases[k].Holding? && Usable(start, s, k)
      ensures 0 <= Lo(k) && |s.phases[k].window| == Hi(k) - Lo(k) + 1
    {
    }

    lemma MergeLength(ids: seq<int>, lo: int, w: Bytes)
      ensures |Merge(offset, ids, lo, w)| == |w|
    {
    }

    lemma StepKeepsInv(start: Bytes, s: State, t: State, k: nat)
      requires Valid() && AllSpare(start) && Inv(start, s) && Step(s, t, k)
      ensures Inv(start, t)
    {
      hide Step;
      hide MembersBelow;
      StepPhases(s, t, k);
      StepEffect(start, s, t, k);
      forall j | 0 <= j < |calls| && t.phases[j].Holding? ensures Usable(start, t, j) {
        if j != k {
          assert Usable(start, s, j);
        }
      }
      forall e ensures e in Members(t.data, offset) <==> e in Members(start, offset) || Done(t, e) {
        DoneStep(s, t, k, e);
      }
    }

    lemma StepPhases(s: State, t: State, k: nat)
      requires Valid() && Step(s, t, k)
      ensures k < |calls| == |s.phases| == |t.phases|
      ensures t.phases == s.phases[k := t.phases[k]] && !s.phases[k].Finished?
    {
    }

    lemma DoneStep(s: State, t: State, k: nat, e: int)
      requires Valid() && Step(s, t, k) && |s.phases| == |calls|
      ensures Done(t, e) <==> Done(s, e) || (t.phases[k].Finished? && e in calls[k])
    {
    }

    lemma {:induction false} RunKeepsInv(trace: seq<State>, schedule: seq<nat>, n: nat)
      requires Valid() && Run(trace, schedule) && AllSpare(trace[0].data) && n < |trace|
      ensures Inv(trace[0].data, trace[n])
    {
      if n == 0 {
        assert forall e :: !Done(trace[0], e);
      } else {
        RunKeepsInv(trace, schedule, n - 1);
        StepKeepsInv(trace[0].data, trace[n - 1], trace[n], schedule[n - 1]);
      }
    }

    ghost predicate FinishedRun(start: Bytes, trace: seq<State>, schedule: seq<nat>)
      requires Valid()
    {
      Run(trace, schedule) && trace[0].data == start && AllFinished(trace[|trace| - 1])
    }

    // The string stores the starting set and all ids, and nothing else.
    ghost predicate Complete(start: Bytes, data: Bytes) {
      forall e :: e in Members(data, offset) <==>
                  e in Members(start, offset) || exists k :: 0 <= k < |calls| && e in calls[k]
    }

    lemma RunIsComplete(start: Bytes, trace: seq<State>, schedule: seq<nat>)
      requires Valid() && AllSpare(start) && FinishedRun(start, trace, schedule)
      ensures Complete(start, trace[|trace| - 1].data)
    {
      RunKeepsInv(trace, schedule, |trace| - 1);
    }

    /** However calls with pairwise disjoint byte windows interleave, once all have returned the
        string stores the starting set and all their ids, and nothing else. */
    lemma DisjointCallsAllSurvive(trace: seq<State>, schedule: seq<nat>, e: int)
      requires Valid() && WindowsDisjoint() && Run(trace, schedule)
      requires AllFinished(trace[|trace| - 1])
      ensures e in Members(trace[|trace| - 1].data, offset) <==>
              e in Members(trace[0].data, offset) || exists k :: 0 <= k < |calls| && e in calls[k]
    {
      hide LowByte;
      hide HighByte;
      hide Fast;
      forall i, j | 0 <= i < |calls| && 0 <= j < |calls| && i != j ensures Spares(trace[0].data, i, j) {
        assert Apart(i, j);
        WindowCovers(offset, calls[i]);
      }
      RunIsComplete(trace[0].data, trace, schedule);
    }

    // ----- losing runs -----

    ghost function Next(s: State, k: nat): State
      requires Valid() && k < |calls| == |s.phases| && !s.phases[k].Finished?
    {
      WindowCovers(offset, calls[k]);
      var ids := calls[k];
      if s.phases[k].Holding? then
        State(SetRangeSpec(s.data, Lo(k), Merge(offset, ids, Lo(k), s.phases[k].window)), s.phases[k := Finished])
      else if Fast(offset, maxRange, ids) then
        s.(phases := s.phases[k := Holding(ReadWindow(s.data, Lo(k), Hi(k)))])
      else State(SetAll(s.data, offset, ids), s.phases[k := Finished])
    }

    lemma NextIsStep(s: State, k: nat)
      requires Valid() && k < |calls| == |s.phases| && !s.phases[k].Finished?
      ensures Step(s, Next(s, k), k)
      ensures Next(s, k).phases == s.phases[k := Next(s, k).phases[k]] && !Next(s, k).phases[k].Ready?
      ensures s.phases[k].Holding? ==> Next(s, k).phases[k] == Finished
    {
      hide LowByte;
      hide HighByte;
      WindowCovers(offset, calls[k]);
    }

    lemma RunSnoc(trace: seq<State>, schedule: seq<nat>, k: nat)
      requires Valid() && Run(trace, schedule)
      requires var s := trace[|trace| - 1]; k < |calls| == |s.phases| && !s.phases[k].Finished?
      ensures Run(trace + [Next(trace[|trace| - 1], k)], schedule + [k])
    {
      var s := trace[|trace| - 1];
      NextIsStep(s, k);
      hide Step;
      hide Next;
      var longer, steps := trace + [Next(s, k)], schedule + [k];
      forall i | 0 <= i < |steps| ensures Step(longer[i], longer[i + 1], steps[i]) {
        if i < |schedule| {
          assert longer[i] == trace[i] && longer[i + 1] == trace[i + 1];
        }
      }
    }

    // Let call k run to its end.
    lemma Finish(trace: seq<State>, schedule: seq<nat>, k: nat) returns (longer: seq<State>, steps: seq<nat>)
      requires Valid() && Run(trace, schedule) && k < |calls| == |trace[|trace| - 1].phases|
      requires !trace[|trace| - 1].phases[k].Finished?
      ensures Run(longer, steps) && longer[0] == trace[0]
      ensures longer[|longer| - 1].phases == trace[|trace| - 1].phases[k := Finished]
    {
      hide Next;
      hide Step;
      var s := trace[|trace| - 1];
      NextIsStep(s, k);
      RunSnoc(trace, schedule, k);
      longer, steps := trace + [Next(s, k)], schedule + [k];
      if !Next(s, k).phases[k].Finished? {
        NextIsStep(Next(s, k), k);
        RunSnoc(longer, steps, k);
        longer, steps := longer + [Next(Next(s, k), k)], steps + [k];
      }
    }

    function FinishedBelow(k: nat, j: nat, phase: Phase): seq<Phase> {
      seq(|calls|, n => if n == j then phase else if n < k then Finished else Ready)
    }

    /** If a stale write of j can erase an id of i, there is a run that loses it: j reads first and
        writes last. */
    lemma LosingRun(start: Bytes, i: nat, j: nat, e: int) returns (trace: seq<State>, schedule: seq<nat>)
      requires Valid() && i < |calls| && j < |calls| && i != j && Fast(offset, maxRange, calls[j])
      requires e in calls[i] && Lo(j) <= ByteOf(e, offset) <= Hi(j)
      requires e !in calls[j] && e !in Members(start, offset)
      ensures FinishedRun(start, trace, schedule) && e !in Members(trace[|trace| - 1].data, offset)
    {
      hide LowByte;
      hide HighByte;
      hide Fast;
      hide ReadWindow;
      hide MembersBelow;
      hide Step;
      var s := State(start, seq(|calls|, _ => Ready));
      WindowCovers(offset, calls[j]);
      trace, schedule := [s], [];
      RunSnoc(trace, schedule, j);
      var w := ReadWindow(start, Lo(j), Hi(j));
      assert Next(s, j) == s.(phases := s.phases[j := Holding(w)]);
      trace, schedule := trace + [Next(s, j)], schedule + [j];
      hide Next;
      for k := 0 to |calls|
        invariant Run(trace, schedule) && trace[0] == s && |trace[|trace| - 1].phases| == |calls|
        invariant trace[|trace| - 1].phases == FinishedBelow(k, j, Holding(w))
      {
        if k != j {
          trace, schedule := Finish(trace, schedule, k);
        }
        assert trace[|trace| - 1].phases == FinishedBelow(k + 1, j, Holding(w));
      }
      var last := trace[|trace| - 1];
      RunSnoc(trace, schedule, j);
      NextIsStep(last, j);
      trace, schedule := trace + [Next(last, j)], schedule + [j];
      StaleNext(start, last, j);
      StaleWriteMembers(start, last.data, offset, calls[j], e);
    }

    lemma StaleNext(read: Bytes, s: State, j: nat)
      requires Valid() && j < |calls| == |s.phases| && Lo(j) <= Hi(j) && 0 <= Lo(j)
      requires s.phases[j] == Holding(ReadWindow(read, Lo(j), Hi(j)))
      ensures Next(s, j).data == StaleWrite(read, s.data, offset, calls[j])
    {
    }

    /** Whatever windows the calls have: every finished run stores the starting set and all ids if
        and only if, for every call that takes the merge path, the ids of the other calls inside its
        window are ids of its own or were stored from the start. */
    lemma AllSurviveIff(start: Bytes)
      requires Valid()
      ensures (forall trace: seq<State>, schedule ::
                 FinishedRun(start, trace, schedule) ==> Complete(start, trace[|trace| - 1].data))
          <==> AllSpare(start)
    {
      hide Step;
      hide LowByte;
      hide HighByte;
      hide Fast;
      hide MembersBelow;
      if AllSpare(start) {
        forall trace: seq<State>, schedule | FinishedRun(start, trace, schedule)
          ensures Complete(start, trace[|trace| - 1].data)
        {
          RunIsComplete(start, trace, schedule);
        }
      } else {
        var i, j :| 0 <= i < |calls| && 0 <= j < |calls| && i != j && !Spares(start, i, j);
        var e :| e in calls[i] && Lo(j) <= ByteOf(e, offset) <= Hi(j) && e !in calls[j] && e !in Members(start, offset);
        var trace, schedule := LosingRun(start, i, j, e);
        assert FinishedRun(start, trace, schedule) && !Complete(start, trace[|trace| - 1].data);
      }
    }
  }

  lemma SingleWindow(offset: int, id: int)
    ensures LowByte(offset, [id]) == HighByte(offset, [id]) == ByteOf(id, offset) && |BytesOf(offset, [id])| == 1
  {
    assert BytesOf(offset, [id]) == {ByteOf(id, offset)};
  }

  /** For instance, two calls that set neighbouring bits of an empty string can lose one. */
  lemma NeighboursCollide(maxRange: int) returns (trace: seq<State>, schedule: seq<nat>)
    requires maxRange >= 1
    ensures var cfg := Config(0, maxRange, [[0], [1]]);
            cfg.Valid() && cfg.FinishedRun([], trace, schedule) && 0 !in Members(trace[|trace| - 1].data, 0)
  {
    hide LowByte;
    hide HighByte;
    hide BytesOf;
    var cfg := Config(0, maxRange, [[0], [1]]);
    SingleWindow(0, 0);
    SingleWindow(0, 1);
    trace, schedule := cfg.LosingRun([], 0, 1, 0);
  }
}
