/** The few string operations the cache keys and null CIDs rely on. */
module Text {

  function Digit(d: nat): char
    requires d < 10
  {
    ('0' as int + d) as char
  }

  function DecimalNat(n: nat): (s: string)
    ensures s != [] && forall i :: 0 <= i < |s| ==> '0' <= s[i] <= '9'
  {
    if n < 10 then [Digit(n)] else DecimalNat(n / 10) + [Digit(n % 10)]
  }

  // str(n)
  function Decimal(n: int): string {
    if n < 0 then "-" + DecimalNat(-n) else DecimalNat(n)
  }

  function ParseNat(s: string): int {
    if s == [] then 0 else ParseNat(s[..|s| - 1]) * 10 + (s[|s| - 1] as int - '0' as int)
  }

  lemma {:induction false} ParseDecimalNat(n: nat)
    ensures ParseNat(DecimalNat(n)) == n
  {
    if n < 10 {
      assert DecimalNat(n)[..0] == [];
    } else {
      ParseDecimalNat(n / 10);
      assert DecimalNat(n)[..|DecimalNat(n)| - 1] == DecimalNat(n / 10);
    }
  }

  // int(s)
  function ParseInt(s: string): int {
    if s != [] && s[0] == '-' then -ParseNat(s[1..]) else ParseNat(s)
  }

  lemma ParseDecimal(n: int)
    ensures ParseInt(Decimal(n)) == n
  {
    hide DecimalNat;
    hide ParseNat;
    if n < 0 {
      ParseDecimalNat(-n);
      assert Decimal(n)[1..] == DecimalNat(-n);
    } else {
      ParseDecimalNat(n);
    }
  }

  predicate NullAt(s: string, i: int) {
    0 <= i && i + 4 <= |s| && s[i..i + 4] == "null"
  }

  // 'null' in s
  predicate HasNull(s: string) {
    exists i :: 0 <= i < |s| && NullAt(s, i)
  }

  lemma ShortHasNoNull(s: string)
    requires |s| < 4
    ensures !HasNull(s)
  {
  }

  // f'null_{epoch_id}'
  function NullCid(epoch: int): string {
    "null_" + Decimal(epoch)
  }

  lemma NullCidIsNull(epoch: int)
    ensures HasNull(NullCid(epoch))
  {
    assert NullAt(NullCid(epoch), 0);
  }

  // A string is null exactly when "null" occurs in it.
  lemma HasNullIff(s: string)
    ensures HasNull(s) <==> exists a: string, b: string :: s == a + ['n', 'u', 'l', 'l'] + b
  {
    if i :| 0 <= i < |s| && NullAt(s, i) {
      assert s == s[..i] + ['n', 'u', 'l', 'l'] + s[i + 4..];
    }
    if a: string, b: string :| s == a + ['n', 'u', 'l', 'l'] + b {
      assert NullAt(s, |a|);
    }
  }

  // A base58 CID, which has no letter l, is not null.
  lemma NoLetterNoNull(s: string)
    requires 'l' !in s
    ensures !HasNull(s)
  {
    forall i | 0 <= i < |s| ensures !NullAt(s, i) {
      if i + 4 <= |s| {
        assert s[i..i + 4][2] == s[i + 2] && s[i + 2] in s;
      }
    }
  }

  // Null CIDs name their epoch.
  lemma NullCidNames(a: int, b: int)
    requires NullCid(a) == NullCid(b)
    ensures a == b
  {
    ParseDecimal(a);
    ParseDecimal(b);
    assert NullCid(a)[5..] == Decimal(a) && NullCid(b)[5..] == Decimal(b);
  }
}
