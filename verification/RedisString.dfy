/** Redis strings as the bitmap commands see them: bytes, with bit 0 the most significant
    bit of byte 0, zero-extended on writes. */
module RedisString {
  import opened Common

  type Bytes = seq<bv8>

  // Bit p of a byte, counted from the most significant end.
  function Mask(p: nat): bv8
    requires p < 8
  {
    match p
    case 0 => 0x80
    case 1 => 0x40
    case 2 => 0x20
    case 3 => 0x10
    case 4 => 0x08
    case 5 => 0x04
    case 6 => 0x02
    case _ => 0x01
  }

  predicate TestBit(b: bv8, p: nat)
    requires p < 8
  {
    b & Mask(p) != 0
  }

  // The shifts the bitmap code writes: 1 << (7 - p) sets bit p, (b >> (7 - p)) & 1 reads it.
  lemma MaskShift(p: nat)
    requires p < 8
    ensures Mask(p) == (1 as bv8) << (7 - p)
  {
    assert p == 0 || p == 1 || p == 2 || p == 3 || p == 4 || p == 5 || p == 6 || p == 7;
  }

  lemma TestShift(b: bv8, p: nat)
    requires p < 8
    ensures TestBit(b, p) <==> ((b >> (7 - p)) & 1) == 1
  {
    assert p == 0 || p == 1 || p == 2 || p == 3 || p == 4 || p == 5 || p == 6 || p == 7;
  }

  lemma TestOr(a: bv8, b: bv8, p: nat)
    requires p < 8
    ensures TestBit(a | b, p) <==> TestBit(a, p) || TestBit(b, p)
    ensures !TestBit(0, p)
  {
    OrAnd(a, b, Mask(p));
  }

  lemma OrAnd(a: bv8, b: bv8, m: bv8)
    ensures (a | b) & m == (a & m) | (b & m)
  {
  }

  predicate BitAt(s: Bytes, i: int) {
    0 <= i < 8 * |s| && TestBit(s[i / 8], i % 8)
  }

  function ByteAt(s: Bytes, p: int): bv8 {
    if 0 <= p < |s| then s[p] else 0
  }

  function Zeros(n: nat): Bytes {
    seq(n, _ => 0)
  }

  // Redis grows a string with zero bytes before writing past its end.
  function Padded(s: Bytes, n: nat): (r: Bytes)
    ensures |r| == if |s| < n then n else |s|
    ensures forall p :: 0 <= p < |r| ==> r[p] == ByteAt(s, p)
  {
    if |s| < n then s + Zeros(n - |s|) else s
  }

  function SetBitSpec(s: Bytes, i: nat): Bytes {
    var t := Padded(s, i / 8 + 1);
    t[i / 8 := t[i / 8] | Mask(i % 8)]
  }

  // GETRANGE with both ends inclusive and clamped to the string.
  function GetRangeSpec(s: Bytes, lo: nat, hi: nat): Bytes {
    if hi < lo || |s| <= lo then [] else s[lo..Min(hi + 1, |s|)]
  }

  function SetRangeSpec(s: Bytes, off: nat, v: Bytes): Bytes {
    if v == [] then s else
    var t := Padded(s, off + |v|);
    t[..off] + v + t[off + |v|..]
  }

  lemma SetBitBytes(s: Bytes, i: nat, p: int)
    ensures ByteAt(SetBitSpec(s, i), p) == if p == i / 8 then ByteAt(s, p) | Mask(i % 8) else ByteAt(s, p)
  {
  }

  lemma SetBitBits(s: Bytes, i: nat, j: int)
    ensures BitAt(SetBitSpec(s, i), j) <==> BitAt(s, j) || j == i
  {
  }

  lemma MergedBit(b: bv8, i: int, j: int)
    ensures TestBit(if j / 8 == i / 8 then b | Mask(i % 8) else b, j % 8) <==> TestBit(b, j % 8) || j == i
  {
  }

  lemma SetRangeBytes(s: Bytes, off: nat, v: Bytes, p: int)
    requires v != []
    ensures ByteAt(SetRangeSpec(s, off, v), p) == if off <= p < off + |v| then v[p - off] else ByteAt(s, p)
  {
  }

  lemma GetRangeBytes(s: Bytes, lo: nat, hi: nat, p: int)
    requires lo <= hi
    ensures ByteAt(GetRangeSpec(s, lo, hi), p) == if 0 <= p <= hi - lo then ByteAt(s, lo + p) else 0
    ensures |GetRangeSpec(s, lo, hi)| <= hi - lo + 1
  {
  }

  lemma BitFromByte(s: Bytes, i: int)
    requires 0 <= i
    ensures BitAt(s, i) <==> TestBit(ByteAt(s, i / 8), i % 8)
  {
    TestOr(0, 0, i % 8);
  }

  // ----- BITCOUNT -----

  // Set bits among the first n of a byte.
  function PopCount(b: bv8, n: nat): nat
    requires n <= 8
  {
    if n == 0 then 0 else PopCount(b, n - 1) + if TestBit(b, n - 1) then 1 else 0
  }

  function BitCountSpec(s: Bytes): nat {
    if s == [] then 0 else BitCountSpec(s[..|s| - 1]) + PopCount(s[|s| - 1], 8)
  }

  ghost function SetBitsBelow(s: Bytes, n: nat): set<int> {
    set i | 0 <= i < n && BitAt(s, i)
  }

  lemma CountStep(s: Bytes, n: nat)
    ensures |SetBitsBelow(s, n + 1)| == |SetBitsBelow(s, n)| + if BitAt(s, n) then 1 else 0
  {
    assert SetBitsBelow(s, n + 1) == SetBitsBelow(s, n) + if BitAt(s, n) then {n} else {};
  }

  lemma BitInByte(s: Bytes, p: nat, j: nat)
    requires p < |s| && j < 8
    ensures BitAt(s, 8 * p + j) == TestBit(s[p], j)
  {
    var n := 8 * p + j;
    assert n / 8 == p && n % 8 == j;
  }

  lemma {:induction false} CountByte(s: Bytes, p: nat, j: nat)
    requires p < |s| && j <= 8
    ensures |SetBitsBelow(s, 8 * p + j)| == |SetBitsBelow(s, 8 * p)| + PopCount(s[p], j)
  {
    if j > 0 {
      CountByte(s, p, j - 1);
      CountStep(s, 8 * p + j - 1);
      BitInByte(s, p, j - 1);
    }
  }

  // BITCOUNT over the first n bytes is the number of set bit positions below 8n.
  lemma {:induction false} CountIsCardinality(s: Bytes, n: nat)
    requires n <= |s|
    ensures BitCountSpec(s[..n]) == |SetBitsBelow(s, 8 * n)|
  {
    if n == 0 {
      assert SetBitsBelow(s, 0) == {};
    } else {
      CountIsCardinality(s, n - 1);
      CountByte(s, n - 1, 8);
      assert s[..n][..n - 1] == s[..n - 1];
    }
  }

  /** One Redis key holding a string; a missing key and an empty string read alike. */
  class RedisString {
    var data: Bytes

    constructor ()
      ensures data == []
    {
      data := [];
    }

    // SETBIT key i 1, returning the previous bit.
    method SetBit(i: nat) returns (previous: nat)
      modifies this
      ensures data == SetBitSpec(old(data), i)
      ensures previous == if BitAt(old(data), i) then 1 else 0
    {
      previous := if BitAt(data, i) then 1 else 0;
      data := SetBitSpec(data, i);
    }

    method GetBit(i: nat) returns (bit: nat)
      ensures bit == if BitAt(data, i) then 1 else 0
    {
      bit := if BitAt(data, i) then 1 else 0;
    }

    // A client library may report a missing key as None rather than as no bytes.
    method GetRange(lo: nat, hi: nat) returns (reply: Option<Bytes>)
      ensures reply == Some(GetRangeSpec(data, lo, hi)) || (reply == None && data == [])
    {
      if data == [] {
        if * {
          return None;
        }
      }
      reply := Some(GetRangeSpec(data, lo, hi));
    }

    method SetRange(off: nat, v: Bytes)
      modifies this
      ensures data == SetRangeSpec(old(data), off, v)
    {
      data := SetRangeSpec(data, off, v);
    }

    method BitCount() returns (count: nat)
      ensures count == |SetBitsBelow(data, 8 * |data|)|
    {
      count := 0;
      for k := 0 to |data|
        invariant count == BitCountSpec(data[..k])
      {
        assert data[..k + 1][..k] == data[..k];
        count := count + PopCount(data[k], 8);
      }
      assert data[..|data|] == data;
      CountIsCardinality(data, |data|);
    }
  }
}
