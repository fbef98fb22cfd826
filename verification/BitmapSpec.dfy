/** What a bitmap string means as a set of integers, and what the two write paths of
    RedisBitmap do to it. */
module BitmapSpec {
  import opened Common
  import opened RedisString

  predicate IdAt(s: Bytes, offset: int, e: int) {
    BitAt(s, e - offset)
  }

  ghost function MembersBelow(s: Bytes, offset: int, n: nat): set<int> {
    set e | offset <= e < offset + n && IdAt(s, offset, e)
  }

  // The integers a string stores when bit i stands for offset + i.
  ghost function Members(s: Bytes, offset: int): set<int> {
    MembersBelow(s, offset, 8 * |s|)
  }

  lemma MemberBit(s: Bytes, offset: int, e: int)
    ensures e in Members(s, offset) <==> BitAt(s, e - offset)
  {
  }

  lemma MemberByte(s: Bytes, offset: int, e: int)
    requires offset <= e
    ensures e in Members(s, offset) <==> TestBit(ByteAt(s, (e - offset) / 8), (e - offset) % 8)
  {
    BitFromByte(s, e - offset);
  }

  predicate AtLeast(ids: seq<int>, offset: int) {
    forall k :: 0 <= k < |ids| ==> offset <= ids[k]
  }

  function ByteOf(id: int, offset: int): int {
    (id - offset) / 8
  }

  // ----- one SETBIT per id -----

  function SetAll(s: Bytes, offset: int, ids: seq<int>): Bytes
    requires AtLeast(ids, offset)
  {
    if ids == [] then s
    else SetBitSpec(SetAll(s, offset, ids[..|ids| - 1]), ids[|ids| - 1] - offset)
  }

  lemma SetOneMembers(s: Bytes, offset: int, id: int)
    requires offset <= id
    ensures Members(SetBitSpec(s, id - offset), offset) == Members(s, offset) + {id}
  {
    hide BitAt;
    hide SetBitSpec;
    hide MembersBelow;
    var t := SetBitSpec(s, id - offset);
    forall e ensures e in Members(t, offset) <==> e in Members(s, offset) + {id} {
      SetBitBits(s, id - offset, e - offset);
      MemberBit(s, offset, e);
      MemberBit(t, offset, e);
    }
  }

  lemma {:induction false} SetAllMembers(s: Bytes, offset: int, ids: seq<int>)
    requires AtLeast(ids, offset)
    ensures Members(SetAll(s, offset, ids), offset) == Members(s, offset) + Elems(ids)
  {
    hide IdAt;
    hide SetBitSpec;
    if ids != [] {
      var front, last := ids[..|ids| - 1], ids[|ids| - 1];
      SetAllMembers(s, offset, front);
      SetOneMembers(SetAll(s, offset, front), offset, last);
      assert ids == front + [last];
    }
  }

  // ----- grouping ids by byte -----

  function ByteMask(offset: int, ids: seq<int>, p: int): bv8 {
    if ids == [] then 0 else
    var front, last := ids[..|ids| - 1], ids[|ids| - 1];
    if ByteOf(last, offset) == p then ByteMask(offset, front, p) | Mask((last - offset) % 8)
    else ByteMask(offset, front, p)
  }

  lemma {:induction false} ByteMaskBits(offset: int, ids: seq<int>, e: int)
    ensures TestBit(ByteMask(offset, ids, ByteOf(e, offset)), (e - offset) % 8) <==> e in ids
  {
    hide TestBit;
    hide Mask;
    var p, b := ByteOf(e, offset), (e - offset) % 8;
    if ids == [] {
      TestOr(0, 0, b);
    } else {
      var front, last := ids[..|ids| - 1], ids[|ids| - 1];
      ByteMaskBits(offset, front, e);
      assert ids == front + [last];
      MergedBit(ByteMask(offset, front, p), last - offset, e - offset);
    }
  }

  // byteMap holds, for every touched byte, the bits that ids put into it.
  ghost predicate Groups(byteMap: map<int, bv8>, offset: int, ids: seq<int>) {
    forall p :: ByteMask(offset, ids, p) == if p in byteMap then byteMap[p] else 0
  }

  function Ored(byteMap: map<int, bv8>, p: int, bits: bv8): map<int, bv8> {
    byteMap[p := (if p in byteMap then byteMap[p] else 0) | bits]
  }

  lemma GroupsSnoc(byteMap: map<int, bv8>, offset: int, ids: seq<int>, k: nat)
    requires k < |ids| && Groups(byteMap, offset, ids[..k])
    ensures Groups(Ored(byteMap, ByteOf(ids[k], offset), Mask((ids[k] - offset) % 8)), offset, ids[..k + 1])
  {
    hide Mask;
    hide ByteMask;
    var p, bits := ByteOf(ids[k], offset), Mask((ids[k] - offset) % 8);
    var next := Ored(byteMap, p, bits);
    forall q ensures ByteMask(offset, ids[..k + 1], q) == if q in next then next[q] else 0 {
      ByteMaskSnoc(offset, ids, k, q);
      var prior := if q in byteMap then byteMap[q] else 0;
      assert ByteMask(offset, ids[..k], q) == prior;
      if q == p {
        assert next[q] == prior | bits;
      } else {
        assert q in next <==> q in byteMap;
      }
    }
  }

  lemma ByteMaskSnoc(offset: int, ids: seq<int>, k: nat, q: int)
    requires k < |ids|
    ensures ByteMask(offset, ids[..k + 1], q) ==
            if q == ByteOf(ids[k], offset) then ByteMask(offset, ids[..k], q) | Mask((ids[k] - offset) % 8)
            else ByteMask(offset, ids[..k], q)
  {
    hide Mask;
    assert ids[..k + 1][..k] == ids[..k];
  }

  ghost function BytesOf(offset: int, ids: seq<int>): set<int> {
    set id | id in ids :: ByteOf(id, offset)
  }

  // The bytes of a window with the bits of ids merged in; lo is the window's first byte.
  function Merge(offset: int, ids: seq<int>, lo: int, window: Bytes): Bytes {
    seq(|window|, i requires 0 <= i < |window| => window[i] | ByteMask(offset, ids, lo + i))
  }

  ghost predicate Covers(offset: int, ids: seq<int>, lo: int, n: int) {
    forall id :: id in ids ==> lo <= ByteOf(id, offset) < lo + n
  }

  // Whatever bytes were read before, writing the merged window yields the ids, the bits read
  // inside the window, and the string's own bits outside it.
  lemma MergedWrite(s: Bytes, offset: int, ids: seq<int>, lo: nat, window: Bytes, e: int)
    requires window != [] && Covers(offset, ids, lo, |window|) && AtLeast(ids, offset) && offset <= e
    ensures e in Members(SetRangeSpec(s, lo, Merge(offset, ids, lo, window)), offset) <==>
            if lo <= ByteOf(e, offset) < lo + |window|
            then e in ids || TestBit(window[ByteOf(e, offset) - lo], (e - offset) % 8)
            else e in Members(s, offset)
  {
    var v := Merge(offset, ids, lo, window);
    var p, b := ByteOf(e, offset), (e - offset) % 8;
    SetRangeBytes(s, lo, v, p);
    MemberByte(s, offset, e);
    MemberByte(SetRangeSpec(s, lo, v), offset, e);
    if lo <= p < lo + |window| {
      ByteMaskBits(offset, ids, e);
      TestOr(window[p - lo], ByteMask(offset, ids, p), b);
    }
  }

  ghost predicate Agrees(window: Bytes, s: Bytes, lo: nat) {
    forall i :: 0 <= i < |window| ==> window[i] == ByteAt(s, lo + i)
  }

  lemma MergedWriteMembers(s: Bytes, offset: int, ids: seq<int>, lo: nat, window: Bytes)
    requires window != [] && Covers(offset, ids, lo, |window|) && AtLeast(ids, offset)
    requires Agrees(window, s, lo)
    ensures Members(SetRangeSpec(s, lo, Merge(offset, ids, lo, window)), offset) == Members(s, offset) + Elems(ids)
  {
    var t := SetRangeSpec(s, lo, Merge(offset, ids, lo, window));
    forall e ensures e in Members(t, offset) <==> e in Members(s, offset) + Elems(ids) {
      if offset <= e {
        MergedWrite(s, offset, ids, lo, window, e);
        MemberByte(s, offset, e);
      }
    }
  }

  // ----- the GETRANGE / merge / SETRANGE path -----

  function LowByte(offset: int, ids: seq<int>): int
    requires ids != []
  {
    var last := ByteOf(ids[|ids| - 1], offset);
    if |ids| == 1 then last else Min(LowByte(offset, ids[..|ids| - 1]), last)
  }

  function HighByte(offset: int, ids: seq<int>): int
    requires ids != []
  {
    var last := ByteOf(ids[|ids| - 1], offset);
    if |ids| == 1 then last else Max(HighByte(offset, ids[..|ids| - 1]), last)
  }

  lemma {:induction false} WindowCovers(offset: int, ids: seq<int>)
    requires ids != []
    ensures Covers(offset, ids, LowByte(offset, ids), HighByte(offset, ids) - LowByte(offset, ids) + 1)
    ensures LowByte(offset, ids) in BytesOf(offset, ids) && HighByte(offset, ids) in BytesOf(offset, ids)
    ensures LowByte(offset, ids) <= HighByte(offset, ids)
    ensures AtLeast(ids, offset) ==> 0 <= LowByte(offset, ids)
  {
    var front, last := ids[..|ids| - 1], ids[|ids| - 1];
    assert ids == front + [last];
    if front != [] {
      WindowCovers(offset, front);
    }
  }

  ghost predicate Fast(offset: int, maxRange: int, ids: seq<int>)
    requires ids != []
  {
    var n := HighByte(offset, ids) - LowByte(offset, ids) + 1;
    n <= maxRange && n <= 4 * |BytesOf(offset, ids)|
  }

  function ReadWindow(s: Bytes, lo: nat, hi: nat): (w: Bytes)
    requires lo <= hi
    ensures |w| == hi - lo + 1 && Agrees(w, s, lo)
  {
    var w := Padded(GetRangeSpec(s, lo, hi), hi - lo + 1);
    assert Agrees(w, s, lo) by {
      forall i | 0 <= i < |w| ensures w[i] == ByteAt(s, lo + i) {
        GetRangeBytes(s, lo, hi, i);
      }
    }
    w
  }

  ghost function StaleWrite(read: Bytes, s: Bytes, offset: int, ids: seq<int>): Bytes
    requires ids != [] && AtLeast(ids, offset)
  {
    WindowCovers(offset, ids);
    var lo, hi := LowByte(offset, ids), HighByte(offset, ids);
    SetRangeSpec(s, lo, Merge(offset, ids, lo, ReadWindow(read, lo, hi)))
  }

  // The write of a window that was read when the string still was `read`.
  lemma StaleWriteMembers(read: Bytes, s: Bytes, offset: int, ids: seq<int>, e: int)
    requires ids != [] && AtLeast(ids, offset)
    ensures e in Members(StaleWrite(read, s, offset, ids), offset) <==>
            e in ids || if LowByte(offset, ids) <= ByteOf(e, offset) <= HighByte(offset, ids)
                        then e in Members(read, offset) else e in Members(s, offset)
  {
    hide SetRangeSpec;
    hide MembersBelow;
    hide Merge;
    hide TestBit;
    hide LowByte;
    hide HighByte;
    WindowCovers(offset, ids);
    var lo, hi := LowByte(offset, ids), HighByte(offset, ids);
    if offset <= e {
      MergedWrite(s, offset, ids, lo, ReadWindow(read, lo, hi), e);
      MemberByte(read, offset, e);
    } else {
      MemberBit(s, offset, e);
      MemberBit(read, offset, e);
      MemberBit(StaleWrite(read, s, offset, ids), offset, e);
    }
  }

  ghost function SetInRange(s: Bytes, offset: int, maxRange: int, ids: seq<int>): Bytes
    requires AtLeast(ids, offset)
  {
    if ids == [] then s
    else if !Fast(offset, maxRange, ids) then SetAll(s, offset, ids)
    else StaleWrite(s, s, offset, ids)
  }

  // Both paths of set_bits_in_range add exactly the given ids, so they agree with SETBIT by SETBIT.
  lemma SetInRangeMembers(s: Bytes, offset: int, maxRange: int, ids: seq<int>)
    requires AtLeast(ids, offset)
    ensures Members(SetInRange(s, offset, maxRange, ids), offset) == Members(s, offset) + Elems(ids)
    ensures Members(SetInRange(s, offset, maxRange, ids), offset) == Members(SetAll(s, offset, ids), offset)
  {
    SetAllMembers(s, offset, ids);
    if ids == [] {
      assert Elems(ids) == {};
    } else if Fast(offset, maxRange, ids) {
      hide StaleWrite;
      forall e ensures e in Members(StaleWrite(s, s, offset, ids), offset) <==> e in Members(s, offset) + Elems(ids) {
        StaleWriteMembers(s, s, offset, ids, e);
      }
    }
  }

  // BITCOUNT counts the stored integers.
  lemma CountMembers(s: Bytes, offset: int)
    ensures |SetBitsBelow(s, 8 * |s|)| == |Members(s, offset)|
  {
    CountBelow(s, offset, 8 * |s|);
  }

  lemma {:induction false} CountBelow(s: Bytes, offset: int, n: nat)
    ensures |SetBitsBelow(s, n)| == |MembersBelow(s, offset, n)|
  {
    if n == 0 {
      assert SetBitsBelow(s, 0) == {} && MembersBelow(s, offset, 0) == {};
    } else {
      CountBelow(s, offset, n - 1);
      CountStep(s, n - 1);
      BelowStep(s, offset, n - 1);
      hide MembersBelow;
      hide SetBitsBelow;
    }
  }

  lemma BelowStep(s: Bytes, offset: int, n: nat)
    ensures |MembersBelow(s, offset, n + 1)| == |MembersBelow(s, offset, n)| + if BitAt(s, n) then 1 else 0
  {
    hide BitAt;
    assert MembersBelow(s, offset, n + 1) == MembersBelow(s, offset, n) + if BitAt(s, n) then {offset + n} else {};
  }
}
