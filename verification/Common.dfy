/** Small shared vocabulary: results that may carry the errors the Python code raises. */
module Common {

  datatype Option<+T> = None | Some(value: T)

  // ValueError comes from the bitmap's bound checks, KeyError from a missing dictionary key.
  datatype Error = ValueError | KeyError

  datatype Result<+T> = Ok(value: T) | Err(error: Error)

  const MAX_BIT := 0x1_0000_0000  // Redis strings stop at 2^32 bits

  function Min(a: int, b: int): int {
    if a <= b then a else b
  }

  function Max(a: int, b: int): int {
    if a >= b then a else b
  }

  ghost function AnyOf<T>(s: set<T>): (x: T)
    requires s != {}
    ensures x in s
  {
    var x :| x in s;
    x
  }

  method Pick<T>(s: set<T>) returns (x: T)
    requires s != {}
    ensures x in s
  {
    x :| x in s;
  }

  ghost function Elems<T>(s: seq<T>): set<T> {
    set x | x in s
  }

  lemma ElemsSnoc<T>(s: seq<T>, k: nat)
    requires k < |s|
    ensures Elems(s[..0]) == {}
    ensures Elems(s[..k + 1]) == Elems(s[..k]) + {s[k]}
    ensures s[..k + 1][..k] == s[..k]
  {
    assert s[..k + 1] == s[..k] + [s[k]];
  }

  lemma Grown<T>(s: set<T>, x: T)
    ensures |s + {x}| == |s| + if x in s then 0 else 1
  {
    if x in s {
      assert s + {x} == s;
    }
  }

  // Python's range(lo, hi): the integers lo, lo + 1, ..., hi - 1.
  function Range(lo: int, hi: int): (r: seq<int>)
    ensures |r| == if lo < hi then hi - lo else 0
    ensures forall i :: 0 <= i < |r| ==> r[i] == lo + i
    ensures forall x :: x in r <==> lo <= x < hi
  {
    if lo < hi then
      var s := seq(hi - lo, i => lo + i);
      assert forall x | lo <= x < hi :: x in s by {
        forall x | lo <= x < hi ensures x in s {
          assert s[x - lo] == x;
        }
      }
      s
    else []
  }
}
