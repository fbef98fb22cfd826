/** Python's sorted() on (cid, epoch) pairs by epoch, and the search for the closest larger epoch. */
module Sorting {
  import opened Common

  // A CID with the epoch it answers for.
  type Pair = (string, int)

  function EpochsOf(ps: seq<Pair>): (r: seq<int>)
    ensures |r| == |ps|
    ensures forall i :: 0 <= i < |ps| ==> r[i] == ps[i].1
  {
    seq(|ps|, i requires 0 <= i < |ps| => ps[i].1)
  }

  lemma EpochsConcat(a: seq<Pair>, b: seq<Pair>)
    ensures EpochsOf(a + b) == EpochsOf(a) + EpochsOf(b)
  {
  }

  ghost predicate Ascending(s: seq<int>) {
    forall i, j :: 0 <= i < j < |s| ==> s[i] <= s[j]
  }

  ghost predicate ByEpoch(ps: seq<Pair>) {
    forall i, j :: 0 <= i < j < |ps| ==> ps[i].1 <= ps[j].1
  }

  function Insert(p: Pair, ps: seq<Pair>): seq<Pair> {
    if ps == [] || p.1 < ps[0].1 then [p] + ps else [ps[0]] + Insert(p, ps[1..])
  }

  // sorted(ps, key=lambda x: x[1]): stable, so equal epochs keep their order.
  function SortByEpoch(ps: seq<Pair>): seq<Pair> {
    if ps == [] then [] else Insert(ps[|ps| - 1], SortByEpoch(ps[..|ps| - 1]))
  }

  lemma {:induction false} InsertPermutes(p: Pair, ps: seq<Pair>)
    ensures multiset(Insert(p, ps)) == multiset(ps) + multiset{p}
    ensures multiset(EpochsOf(Insert(p, ps))) == multiset(EpochsOf(ps)) + multiset{p.1}
  {
    if ps == [] || p.1 < ps[0].1 {
      EpochsConcat([p], ps);
      assert EpochsOf([p]) == [p.1];
    } else {
      assert ps == [ps[0]] + ps[1..];
      EpochsConcat([ps[0]], ps[1..]);
      EpochsConcat([ps[0]], Insert(p, ps[1..]));
      InsertPermutes(p, ps[1..]);
    }
  }

  lemma {:induction false} InsertSorts(p: Pair, ps: seq<Pair>)
    requires ByEpoch(ps)
    ensures ByEpoch(Insert(p, ps))
    ensures Insert(p, ps) != [] && Insert(p, ps)[0].1 == if ps == [] then p.1 else Min(p.1, ps[0].1)
  {
    if ps != [] && ps[0].1 <= p.1 {
      InsertSorts(p, ps[1..]);
    }
  }

  lemma {:induction false} SortSorts(ps: seq<Pair>)
    ensures ByEpoch(SortByEpoch(ps))
    ensures multiset(SortByEpoch(ps)) == multiset(ps)
    ensures multiset(EpochsOf(SortByEpoch(ps))) == multiset(EpochsOf(ps))
  {
    hide Insert;
    hide EpochsOf;
    if ps != [] {
      var front, last := ps[..|ps| - 1], ps[|ps| - 1];
      assert SortByEpoch(ps) == Insert(last, SortByEpoch(front));
      SortSorts(front);
      InsertSorts(last, SortByEpoch(front));
      InsertPermutes(last, SortByEpoch(front));
      Snoc(front, last);
      assert ps == front + [last];
    }
  }

  lemma Snoc(ps: seq<Pair>, p: Pair)
    ensures multiset(ps + [p]) == multiset(ps) + multiset{p}
    ensures multiset(EpochsOf(ps + [p])) == multiset(EpochsOf(ps)) + multiset{p.1}
  {
    EpochsConcat(ps, [p]);
    assert EpochsOf([p]) == [p.1];
  }

  lemma SortMembers(ps: seq<Pair>, p: Pair)
    ensures p in SortByEpoch(ps) <==> p in ps
  {
    SortSorts(ps);
    assert p in SortByEpoch(ps) <==> p in multiset(SortByEpoch(ps));
    assert p in ps <==> p in multiset(ps);
  }

  lemma AscendingLast(a: seq<int>)
    requires a != [] && Ascending(a)
    ensures var front, x := a[..|a| - 1], a[|a| - 1];
            && multiset(front) == multiset(a) - multiset{x} && Ascending(front)
            && x in multiset(a) && forall y :: y in multiset(a) ==> y <= x
  {
    assert a == a[..|a| - 1] + [a[|a| - 1]];
  }

  lemma SameLast(a: seq<int>, b: seq<int>)
    requires Ascending(a) && Ascending(b) && multiset(a) == multiset(b) && a != [] && b != []
    ensures a[|a| - 1] == b[|b| - 1] && multiset(a[..|a| - 1]) == multiset(b[..|b| - 1])
    ensures Ascending(a[..|a| - 1]) && Ascending(b[..|b| - 1])
  {
    hide Ascending;
    AscendingLast(a);
    AscendingLast(b);
    assert a[|a| - 1] in multiset(b) && b[|b| - 1] in multiset(a);
  }

  lemma SameLength(a: seq<int>, b: seq<int>)
    requires multiset(a) == multiset(b)
    ensures |a| == |b|
  {
    assert |a| == |multiset(a)| && |b| == |multiset(b)|;
  }

  // Two ascending sequences with the same elements are equal.
  lemma {:induction false} AscendingUnique(a: seq<int>, b: seq<int>)
    requires Ascending(a) && Ascending(b) && multiset(a) == multiset(b)
    ensures a == b
  {
    hide Ascending;
    SameLength(a, b);
    if a != [] {
      SameLast(a, b);
      AscendingUnique(a[..|a| - 1], b[..|b| - 1]);
      assert a == a[..|a| - 1] + [a[|a| - 1]];
      assert b == b[..|b| - 1] + [b[|b| - 1]];
    }
  }

  // The pairs of one epoch, in list order.
  function At(ps: seq<Pair>, e: int): seq<Pair> {
    if ps == [] then [] else (if ps[0].1 == e then [ps[0]] else []) + At(ps[1..], e)
  }

  lemma {:induction false} AtSnoc(ps: seq<Pair>, p: Pair, e: int)
    ensures At(ps + [p], e) == At(ps, e) + if p.1 == e then [p] else []
  {
    if ps == [] {
      assert [p][1..] == [];
    } else {
      AtSnoc(ps[1..], p, e);
      assert (ps + [p])[1..] == ps[1..] + [p];
    }
  }

  lemma {:induction false} AtAbove(ps: seq<Pair>, e: int)
    requires forall i :: 0 <= i < |ps| ==> e < ps[i].1
    ensures At(ps, e) == []
  {
    if ps != [] {
      AtAbove(ps[1..], e);
    }
  }

  lemma {:induction false} InsertStable(p: Pair, ps: seq<Pair>, e: int)
    requires ByEpoch(ps)
    ensures At(Insert(p, ps), e) == At(ps, e) + if p.1 == e then [p] else []
  {
    if ps == [] || p.1 < ps[0].1 {
      assert ([p] + ps)[1..] == ps;
      if p.1 == e {
        AtAbove(ps, e);
      }
    } else {
      InsertStable(p, ps[1..], e);
      assert ([ps[0]] + Insert(p, ps[1..]))[1..] == Insert(p, ps[1..]);
    }
  }

  // Sorting keeps pairs of the same epoch in list order.
  lemma {:induction false} SortStable(ps: seq<Pair>, e: int)
    ensures At(SortByEpoch(ps), e) == At(ps, e)
  {
    hide Insert;
    if ps != [] {
      var front, last := ps[..|ps| - 1], ps[|ps| - 1];
      SortStable(front, e);
      SortSorts(front);
      InsertStable(last, SortByEpoch(front), e);
      AtSnoc(front, last, e);
      assert ps == front + [last];
      hide At;
    }
  }

  lemma {:induction false} FirstAt(ps: seq<Pair>, i: nat)
    requires i < |ps| && forall j :: 0 <= j < i ==> ps[j].1 != ps[i].1
    ensures At(ps, ps[i].1) != [] && At(ps, ps[i].1)[0] == ps[i]
  {
    if i > 0 {
      FirstAt(ps[1..], i - 1);
    }
  }

  // The binary search: how many of the sorted pairs are at or below the epoch.
  method UpperBound(epoch: int, sorted: seq<Pair>) returns (left: nat)
    requires ByEpoch(sorted)
    ensures left <= |sorted|
    ensures forall i :: 0 <= i < left ==> sorted[i].1 <= epoch
    ensures forall i :: left <= i < |sorted| ==> epoch < sorted[i].1
  {
    left := 0;
    var right := |sorted|;
    while left < right
      invariant 0 <= left <= right <= |sorted|
      invariant forall i :: 0 <= i < left ==> sorted[i].1 <= epoch
      invariant forall i :: right <= i < |sorted| ==> epoch < sorted[i].1
    {
      var mid := (left + right) / 2;
      if sorted[mid].1 <= epoch {
        left := mid + 1;
      } else {
        right := mid;
      }
    }
  }

  lemma AboveBound(epoch: int, sorted: seq<Pair>, left: nat, p: Pair)
    requires ByEpoch(sorted) && left <= |sorted| && p in sorted && epoch < p.1
    requires forall i :: 0 <= i < left ==> sorted[i].1 <= epoch
    ensures left < |sorted| && sorted[left].1 <= p.1
  {
    var i :| 0 <= i < |sorted| && sorted[i] == p;
  }

  /** The pair of the list with the least epoch above the given one, the first listed one if that
      epoch repeats; None exactly when the list has no larger epoch. */
  method FindClosestLarger(epoch: int, pairs: seq<Pair>) returns (r: Option<Pair>)
    ensures r == None <==> forall p :: p in pairs ==> p.1 <= epoch
    ensures r.Some? ==> r.value in pairs && epoch < r.value.1
    ensures r.Some? ==> forall p :: p in pairs && epoch < p.1 ==> r.value.1 <= p.1
    ensures r.Some? ==> At(pairs, r.value.1) != [] && r.value == At(pairs, r.value.1)[0]
  {
    hide SortByEpoch;
    hide At;
    hide ByEpoch;
    var sorted := SortByEpoch(pairs);
    SortSorts(pairs);
    if sorted == [] {
      assert |multiset(pairs)| == |multiset(sorted)| == 0;
      return None;
    }
    var left := UpperBound(epoch, sorted);
    forall p | p in pairs && epoch < p.1 ensures left < |sorted| && sorted[left].1 <= p.1 {
      SortMembers(pairs, p);
      AboveBound(epoch, sorted, left, p);
    }
    if left < |sorted| {
      assert sorted[left] in sorted;
      SortMembers(pairs, sorted[left]);
      FirstAt(sorted, left);
      SortStable(pairs, sorted[left].1);
      return Some(sorted[left]);
    }
    r := None;
  }

  // missing.remove(x)
  function RemoveFirst(s: seq<int>, x: int): (r: seq<int>)
    requires x in s
    ensures |r| == |s| - 1 && multiset(r) == multiset(s) - multiset{x}
  {
    if s[0] == x then
      assert s == [x] + s[1..];
      s[1..]
    else
      assert s == [s[0]] + s[1..];
      [s[0]] + RemoveFirst(s[1..], x)
  }

  // sorted(s), by way of the pair sort.
  function SortInts(s: seq<int>): seq<int> {
    EpochsOf(SortByEpoch(seq(|s|, i requires 0 <= i < |s| => ("", s[i]))))
  }

  lemma SortIntsSorts(s: seq<int>)
    ensures Ascending(SortInts(s)) && multiset(SortInts(s)) == multiset(s) && |SortInts(s)| == |s|
  {
    var ps := seq(|s|, i requires 0 <= i < |s| => ("", s[i]));
    SortSorts(ps);
    assert EpochsOf(ps) == s;
    assert |multiset(SortInts(s))| == |multiset(s)|;
  }

  // ----- answered and pending epochs -----

  ghost predicate OnceEach(s: seq<int>) {
    forall x :: multiset(s)[x] <= 1
  }

  lemma OnceDistinct(s: seq<int>, i: nat, j: nat)
    requires OnceEach(s) && i < j < |s|
    ensures s[i] != s[j]
  {
    assert s == s[..j] + [s[j]] + s[j + 1..];
    assert s[i] in s[..j];
    assert multiset(s)[s[j]] >= multiset(s[..j])[s[j]] + 1;
  }

  lemma RemoveOnce(s: seq<int>, x: int)
    requires OnceEach(s) && x in s
    ensures OnceEach(RemoveFirst(s, x)) && forall y :: y in RemoveFirst(s, x) <==> y in s && y != x
  {
    var r := RemoveFirst(s, x);
    hide RemoveFirst;
    forall y ensures y in r <==> y in s && y != x {
      assert y in r <==> y in multiset(r);
      assert y in s <==> y in multiset(s);
      assert multiset(s)[y] <= 1;
    }
  }

  lemma SortIntsOnce(s: seq<int>)
    requires OnceEach(s)
    ensures OnceEach(SortInts(s)) && forall x :: x in SortInts(s) <==> x in s
  {
    SortIntsSorts(s);
    forall x ensures x in SortInts(s) <==> x in s {
      assert x in s <==> x in multiset(s);
      assert x in SortInts(s) <==> x in multiset(SortInts(s));
    }
  }

  /** The answered pairs and the pending epochs together are the requested epochs, each as often
      as it was requested. */
  ghost predicate Splits(total: multiset<int>, acc: seq<Pair>, rest: seq<int>) {
    multiset(EpochsOf(acc)) + multiset(rest) == total
  }

  // One more requested epoch, answered at once or left pending.
  lemma SplitsSnoc(ids: seq<int>, k: nat, acc: seq<Pair>, rest: seq<int>, cid: string)
    requires k < |ids| && Splits(multiset(ids[..k]), acc, rest)
    ensures Splits(multiset(ids[..k + 1]), acc + [(cid, ids[k])], rest)
    ensures Splits(multiset(ids[..k + 1]), acc, rest + [ids[k]])
  {
    assert ids[..k + 1] == ids[..k] + [ids[k]];
    EpochsConcat(acc, [(cid, ids[k])]);
    assert EpochsOf([(cid, ids[k])]) == [ids[k]];
  }

  lemma SplitsMove(total: multiset<int>, acc: seq<Pair>, rest: seq<int>, cid: string, e: int)
    requires Splits(total, acc, rest) && e in rest
    ensures Splits(total, acc + [(cid, e)], RemoveFirst(rest, e))
  {
    EpochsConcat(acc, [(cid, e)]);
    assert EpochsOf([(cid, e)]) == [e];
  }

  lemma SplitsRefine(total: multiset<int>, acc: seq<Pair>, rest: seq<int>, more: seq<Pair>, left: seq<int>)
    requires Splits(total, acc, rest) && Splits(multiset(rest), more, left)
    ensures Splits(total, acc + more, left)
  {
    EpochsConcat(acc, more);
  }

  lemma SplitsSize(total: seq<int>, acc: seq<Pair>, rest: seq<int>)
    requires Splits(multiset(total), acc, rest)
    ensures |acc| + |rest| == |total|
    ensures forall x :: x in rest ==> x in total
    ensures OnceEach(total) ==> OnceEach(rest)
  {
    assert |multiset(total)| == |multiset(EpochsOf(acc))| + |multiset(rest)|;
    forall x ensures multiset(rest)[x] <= multiset(total)[x] {
      assert multiset(total)[x] == multiset(EpochsOf(acc))[x] + multiset(rest)[x];
    }
    forall x | x in rest ensures x in total {
      assert x in multiset(rest);
      assert x in multiset(total);
    }
  }

  lemma SplitsFound(total: seq<int>, acc: seq<Pair>, rest: seq<int>)
    requires Splits(multiset(total), acc, rest)
    ensures forall p :: p in acc ==> p.1 in total
  {
    forall p | p in acc ensures p.1 in total {
      var i :| 0 <= i < |acc| && acc[i] == p;
      var e := EpochsOf(acc)[i];
      assert e in multiset(EpochsOf(acc));
      assert e in multiset(total);
    }
  }

  // Answering everything that was pending answers everything.
  lemma SplitsJoin(total: multiset<int>, acc: seq<Pair>, rest: seq<int>, more: seq<Pair>)
    requires Splits(total, acc, rest) && multiset(EpochsOf(more)) == multiset(rest)
    ensures multiset(EpochsOf(acc + more)) == total
  {
    EpochsConcat(acc, more);
  }

  lemma SplitsDone(total: multiset<int>, acc: seq<Pair>)
    requires Splits(total, acc, [])
    ensures multiset(EpochsOf(acc)) == total
  {
  }

  lemma RangeOnce(lo: int, hi: int)
    ensures OnceEach(Range(lo, hi)) && Ascending(Range(lo, hi))
    decreases hi - lo
  {
    if lo < hi {
      RangeOnce(lo, hi - 1);
      assert Range(lo, hi) == Range(lo, hi - 1) + [hi - 1];
      assert hi - 1 !in Range(lo, hi - 1);
    }
  }

  lemma RangeJoin(lo: int, mid: int, hi: int)
    requires lo <= mid <= hi
    ensures multiset(Range(lo, hi)) == multiset(Range(lo, mid)) + multiset(Range(mid, hi))
  {
    assert Range(lo, hi) == Range(lo, mid) + Range(mid, hi);
  }

  // Sorting pairs that answer every epoch of a range once lines them up with the range.
  lemma SortedIsRange(ps: seq<Pair>, lo: int, hi: int)
    requires multiset(EpochsOf(ps)) == multiset(Range(lo, hi))
    ensures EpochsOf(SortByEpoch(ps)) == Range(lo, hi)
  {
    SortSorts(ps);
    RangeOnce(lo, hi);
    AscendingUnique(EpochsOf(SortByEpoch(ps)), Range(lo, hi));
  }
}
