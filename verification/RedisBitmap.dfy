/** The RedisBitmap class: a set of integers kept in one Redis string. */
module RedisBitmap {
  import opened Common
  import opened RedisString
  import opened BitmapSpec

  class RedisBitmap {
    const offset: int
    const maxRangeSize: int
    const maxBatchSize: int

    constructor (epochOffset: int, maxRangeSize: int, maxBatchSize: int)
      requires maxRangeSize > 0 && maxBatchSize > 0
      ensures this.offset == epochOffset && this.maxRangeSize == maxRangeSize && this.maxBatchSize == maxBatchSize
    {
      this.offset, this.maxRangeSize, this.maxBatchSize := epochOffset, maxRangeSize, maxBatchSize;
    }

    ghost function Stored(conn: RedisString): set<int>
      reads conn
    {
      Members(conn.data, offset)
    }

    predicate ValidId(id: int) {
      0 <= id - offset < MAX_BIT
    }

    predicate ValidIds(ids: seq<int>) {
      |ids| <= maxBatchSize && forall k :: 0 <= k < |ids| ==> ValidId(ids[k])
    }

    // True when the bit was newly set.
    method SetBit(conn: RedisString, id: int) returns (r: Result<bool>)
      modifies conn
      ensures r.Ok? <==> offset <= id < offset + 4294967296
      ensures r.Ok? ==> Stored(conn) == old(Stored(conn)) + {id} && (r.value <==> id !in old(Stored(conn)))
      ensures r.Err? ==> conn.data == old(conn.data) && r.error == ValueError
    {
      if !ValidId(id) {
        return Err(ValueError);
      }
      SetOneMembers(conn.data, offset, id);
      MemberBit(conn.data, offset, id);
      var previous := conn.SetBit(id - offset);
      r := Ok(previous == 0);
    }

    // The number of bits that changed: a pipeline of SETBIT replies counted where they are 0.
    method SetBits(conn: RedisString, ids: seq<int>) returns (r: Result<nat>)
      modifies conn
      ensures r.Ok? <==> ids == [] || ValidIds(ids)
      ensures r.Ok? ==> Stored(conn) == old(Stored(conn)) + Elems(ids)
      ensures r.Ok? ==> r.value == |Stored(conn)| - |old(Stored(conn))|
      ensures r.Err? ==> conn.data == old(conn.data) && r.error == ValueError
    {
      hide BitAt;
      hide MembersBelow;
      hide SetBitSpec;
      hide Elems;
      if ids == [] {
        assert Elems<int>([]) == {} by {
          ElemsSnoc([0], 0);
          assert [0][..0] == [];
        }
        return Ok(0);
      }
      if !ValidIds(ids) {
        return Err(ValueError);
      }
      var changed := 0;
      ElemsSnoc(ids, 0);
      ghost var start := Stored(conn);
      for k := 0 to |ids|
        invariant Stored(conn) == start + Elems(ids[..k])
        invariant changed == |Stored(conn)| - |start|
      {
        SetOneMembers(conn.data, offset, ids[k]);
        MemberBit(conn.data, offset, ids[k]);
        Grown(Stored(conn), ids[k]);
        ElemsSnoc(ids, k);
        var previous := conn.SetBit(ids[k] - offset);
        if previous == 0 {
          changed := changed + 1;
        }
      }
      assert ids[..|ids|] == ids;
      r := Ok(changed);
    }

    method FallbackToSetbit(conn: RedisString, ids: seq<int>) returns (written: nat)
      requires AtLeast(ids, offset)
      modifies conn
      ensures conn.data == SetAll(old(conn.data), offset, ids)
      ensures written == |ids|
    {
      hide SetBitSpec;
      for k := 0 to |ids|
        invariant conn.data == SetAll(old(conn.data), offset, ids[..k])
      {
        assert ids[..k + 1][..k] == ids[..k];
        var _ := conn.SetBit(ids[k] - offset);
      }
      assert ids[..|ids|] == ids;
      written := |ids|;
    }

    // The byte_map dictionary: for every touched byte, the bits to OR into it.
    method GroupByByte(ids: seq<int>) returns (byteMap: map<int, bv8>)
      ensures byteMap.Keys == BytesOf(offset, ids)
      ensures Groups(byteMap, offset, ids)
      ensures |byteMap| <= |ids|
    {
      hide Mask;
      hide BytesOf;
      hide Groups;
      hide Ored;
      byteMap := map[];
      NoGroups(ids);
      for k := 0 to |ids|
        invariant byteMap.Keys == BytesOf(offset, ids[..k])
        invariant Groups(byteMap, offset, ids[..k])
      {
        var adjusted := ids[k] - offset;
        BytesSnoc(ids, k);
        GroupsSnoc(byteMap, offset, ids, k);
        byteMap := OrInto(byteMap, adjusted / 8, adjusted % 8);
      }
      assert ids[..|ids|] == ids;
      BytesCount(ids);
      assert |byteMap| == |byteMap.Keys|;
    }

    // byte_map[p] |= 1 << (7 - b), from 0 where p is new.
    static method OrInto(byteMap: map<int, bv8>, p: int, b: nat) returns (r: map<int, bv8>)
      requires b < 8
      ensures r == Ored(byteMap, p, Mask(b)) && r.Keys == byteMap.Keys + {p}
    {
      hide Mask;
      r := byteMap;
      if p !in r {
        r := r[p := 0];
      }
      MaskShift(b);
      var prior, bits := r[p], (1 as bv8) << (7 - b);
      assert prior == if p in byteMap then byteMap[p] else 0;
      r := r[p := prior | bits];
      assert r == byteMap[p := prior | bits];
    }

    lemma {:induction false} BytesCount(ids: seq<int>)
      ensures |BytesOf(offset, ids)| <= |ids|
    {
      if ids == [] {
        assert BytesOf(offset, ids) == {};
      } else {
        var n := |ids| - 1;
        BytesCount(ids[..n]);
        BytesSnoc(ids, n);
        assert ids[..n + 1] == ids;
        Grown(BytesOf(offset, ids[..n]), ByteOf(ids[n], offset));
      }
    }

    lemma NoGroups(ids: seq<int>)
      ensures BytesOf(offset, ids[..0]) == {} && Groups(map[], offset, ids[..0])
    {
    }

    lemma BytesSnoc(ids: seq<int>, k: nat)
      requires k < |ids|
      ensures BytesOf(offset, ids[..k + 1]) == BytesOf(offset, ids[..k]) + {ByteOf(ids[k], offset)}
    {
      assert ids[..k + 1] == ids[..k] + [ids[k]];
    }

    static method MinOf(s: set<int>) returns (m: int)
      requires s != {}
      ensures m in s && forall x :: x in s ==> m <= x
    {
      m := Pick(s);
      var rest := s - {m};
      while rest != {}
        invariant rest <= s && m in s && forall x :: x in s ==> x in rest || m <= x
        decreases rest
      {
        var x := Pick(rest);
        m, rest := Min(m, x), rest - {x};
      }
    }

    static method MaxOf(s: set<int>) returns (m: int)
      requires s != {}
      ensures m in s && forall x :: x in s ==> x <= m
    {
      m := Pick(s);
      var rest := s - {m};
      while rest != {}
        invariant rest <= s && m in s && forall x :: x in s ==> x in rest || x <= m
        decreases rest
      {
        var x := Pick(rest);
        m, rest := Max(m, x), rest - {x};
      }
    }

    // byte_data[byte_pos - min_byte] |= new_bits, for every entry of byte_map.
    method MergeInto(window: array<bv8>, lo: int, byteMap: map<int, bv8>)
      requires forall p :: p in byteMap ==> lo <= p < lo + window.Length
      modifies window
      ensures forall i :: 0 <= i < window.Length ==>
                window[i] == old(window[i]) | if lo + i in byteMap then byteMap[lo + i] else 0
    {
      var rest := byteMap.Keys;
      while rest != {}
        invariant rest <= byteMap.Keys
        invariant forall i :: 0 <= i < window.Length ==>
                    window[i] == old(window[i]) | if lo + i in byteMap && lo + i !in rest then byteMap[lo + i] else 0
        decreases rest
      {
        var p := Pick(rest);
        window[p - lo] := window[p - lo] | byteMap[p];
        rest := rest - {p};
      }
    }

    // The number of bytes written by SETRANGE, or of SETBIT commands on the fallback.
    method SetBitsInRange(conn: RedisString, ids: seq<int>) returns (r: Result<nat>)
      modifies conn
      ensures r.Ok? <==> ids == [] || ValidIds(ids)
      ensures r.Ok? ==> conn.data == SetInRange(old(conn.data), offset, maxRangeSize, ids)
      ensures r.Ok? ==> Stored(conn) == old(Stored(conn)) + Elems(ids)
      ensures r.Ok? ==> r.value <= 4 * |ids|
      ensures r.Ok? && ids != [] ==>
                var range := HighByte(offset, ids) - LowByte(offset, ids) + 1;
                r.value == if range <= maxRangeSize && range <= 4 * |BytesOf(offset, ids)| then range else |ids|
      ensures r.Err? ==> conn.data == old(conn.data) && r.error == ValueError
    {
      hide MembersBelow;
      hide SetAll;
      hide ByteMask;
      hide LowByte;
      hide HighByte;
      hide SetRangeSpec;
      if ids == [] {
        return Ok(0);
      }
      if !ValidIds(ids) {
        return Err(ValueError);
      }
      SetInRangeMembers(conn.data, offset, maxRangeSize, ids);
      WindowCovers(offset, ids);
      var byteMap := GroupByByte(ids);
      var lo := MinOf(byteMap.Keys);
      var hi := MaxOf(byteMap.Keys);
      WindowIsTight(ids, lo, hi);
      var rangeSize := hi - lo + 1;
      assert |byteMap| == |BytesOf(offset, ids)|;
      if rangeSize > maxRangeSize {
        var n := FallbackToSetbit(conn, ids);
        return Ok(n);
      }
      if rangeSize > |byteMap| * 4 {
        var n := FallbackToSetbit(conn, ids);
        return Ok(n);
      }
      r := MergeRange(conn, ids, lo, hi, byteMap);
    }

    // The GETRANGE / merge / SETRANGE path over the bytes lo..hi.
    method MergeRange(conn: RedisString, ids: seq<int>, lo: int, hi: int, byteMap: map<int, bv8>)
      returns (r: Result<nat>)
      requires ids != [] && AtLeast(ids, offset) && lo == LowByte(offset, ids) && hi == HighByte(offset, ids)
      requires byteMap.Keys == BytesOf(offset, ids) && Groups(byteMap, offset, ids)
      modifies conn
      ensures conn.data == StaleWrite(old(conn.data), old(conn.data), offset, ids)
      ensures r == Ok(hi - lo + 1)
    {
      hide BytesOf;
      hide ByteMask;
      hide Groups;
      hide LowByte;
      hide HighByte;
      hide SetRangeSpec;
      hide GetRangeSpec;
      hide Merge;
      TouchedInside(ids);
      var rangeSize := hi - lo + 1;
      var reply := conn.GetRange(lo, hi);
      var existing := match reply
        case None => Zeros(rangeSize)
        case Some(bytes) => Padded(bytes, rangeSize);
      if reply.None? {
        EmptyReply(conn.data, lo, hi);
      }
      assert existing == ReadWindow(conn.data, lo, hi);
      var window := new bv8[rangeSize](i requires 0 <= i < |existing| => existing[i]);
      MergeInto(window, lo, byteMap);
      MergedWindow(window[..], existing, lo, ids, byteMap);
      conn.SetRange(lo, window[..]);
      r := Ok(rangeSize);
    }

    lemma TouchedInside(ids: seq<int>)
      requires ids != [] && AtLeast(ids, offset)
      ensures 0 <= LowByte(offset, ids) <= HighByte(offset, ids)
      ensures forall p :: p in BytesOf(offset, ids) ==> LowByte(offset, ids) <= p <= HighByte(offset, ids)
    {
      WindowCovers(offset, ids);
    }

    lemma EmptyReply(s: Bytes, lo: nat, hi: nat)
      requires lo <= hi && s == []
      ensures Zeros(hi - lo + 1) == ReadWindow(s, lo, hi)
    {
    }

    lemma MergedWindow(window: Bytes, existing: Bytes, lo: int, ids: seq<int>, byteMap: map<int, bv8>)
      requires |window| == |existing| && Groups(byteMap, offset, ids)
      requires forall i :: 0 <= i < |window| ==>
                 window[i] == existing[i] | if lo + i in byteMap then byteMap[lo + i] else 0
      ensures window == Merge(offset, ids, lo, existing)
    {
      hide ByteMask;
      forall i | 0 <= i < |window| ensures window[i] == existing[i] | ByteMask(offset, ids, lo + i) {
      }
    }

    lemma WindowIsTight(ids: seq<int>, lo: int, hi: int)
      requires ids != [] && lo in BytesOf(offset, ids) && hi in BytesOf(offset, ids)
      requires forall p :: p in BytesOf(offset, ids) ==> lo <= p <= hi
      ensures lo == LowByte(offset, ids) && hi == HighByte(offset, ids)
    {
      WindowCovers(offset, ids);
    }

    method GetBit(conn: RedisString, id: int) returns (r: Result<bool>)
      ensures r == if offset <= id < offset + 4294967296 then Ok(id in Stored(conn)) else Err(ValueError)
    {
      if !ValidId(id) {
        return Err(ValueError);
      }
      MemberBit(conn.data, offset, id);
      var bit := conn.GetBit(id - offset);
      r := Ok(bit == 1);
    }

    ghost predicate Answers(conn: RedisString, ids: seq<int>, pairs: seq<(int, bool)>)
      reads conn
    {
      |pairs| == |ids| && forall k :: 0 <= k < |ids| ==> pairs[k] == (ids[k], ids[k] in Stored(conn))
    }

    method GetBits(conn: RedisString, ids: seq<int>) returns (r: Result<seq<(int, bool)>>)
      ensures r.Ok? <==> ids == [] || ValidIds(ids)
      ensures if r.Ok? then Answers(conn, ids, r.value) else r.error == ValueError
    {
      if ids == [] {
        return Ok([]);
      }
      if !ValidIds(ids) {
        return Err(ValueError);
      }
      var pairs := [];
      for k := 0 to |ids|
        invariant Answers(conn, ids[..k], pairs)
      {
        MemberBit(conn.data, offset, ids[k]);
        var bit := conn.GetBit(ids[k] - offset);
        pairs := pairs + [(ids[k], bit == 1)];
      }
      assert ids[..|ids|] == ids;
      r := Ok(pairs);
    }

    static method MinMax(ids: seq<int>) returns (lo: int, hi: int)
      requires ids != []
      ensures lo in ids && hi in ids && forall k :: 0 <= k < |ids| ==> lo <= ids[k] <= hi
    {
      lo, hi := ids[0], ids[0];
      for k := 1 to |ids|
        invariant lo in ids && hi in ids && forall j :: 0 <= j < k ==> lo <= ids[j] <= hi
      {
        lo, hi := Min(lo, ids[k]), Max(hi, ids[k]);
      }
    }

    // One GETRANGE instead of a GETBIT per id; the same pairs in the same order as GetBits.
    method GetBitsInRange(conn: RedisString, ids: seq<int>) returns (r: Result<seq<(int, bool)>>)
      ensures r.Ok? <==> ids == [] || ValidIds(ids)
      ensures if r.Ok? then Answers(conn, ids, r.value) else r.error == ValueError
    {
      hide MembersBelow;
      hide TestBit;
      hide GetRangeSpec;
      if ids == [] {
        return Ok([]);
      }
      if !ValidIds(ids) {
        return Err(ValueError);
      }
      var lowest, highest := MinMax(ids);
      var startByte, endByte := (lowest - offset) / 8, (highest - offset) / 8;
      var rangeSize := endByte - startByte + 1;
      if rangeSize > maxRangeSize {
        r := GetBits(conn, ids);
        return;
      }
      var reply := conn.GetRange(startByte, endByte);
      var byteData := match reply
        case None => Zeros(rangeSize)
        case Some(bytes) => bytes;
      var pairs := [];
      for k := 0 to |ids|
        invariant Answers(conn, ids[..k], pairs)
      {
        var bytePos := (ids[k] - offset) / 8 - startByte;
        var bitPos := (ids[k] - offset) % 8;
        GetRangeBytes(conn.data, startByte, endByte, bytePos);
        MemberByte(conn.data, offset, ids[k]);
        TestOr(0, 0, bitPos);
        var bit := if 0 <= bytePos < |byteData| then (byteData[bytePos] >> (7 - bitPos)) & 1 else 0;
        if 0 <= bytePos < |byteData| {
          TestShift(byteData[bytePos], bitPos);
        }
        pairs := pairs + [(ids[k], bit == 1)];
      }
      assert ids[..|ids|] == ids;
      r := Ok(pairs);
    }

    method GetBitCount(conn: RedisString) returns (count: nat)
      ensures count == |Stored(conn)|
    {
      CountMembers(conn.data, offset);
      count := conn.BitCount();
    }
  }
}
