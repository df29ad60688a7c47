/** Byte strings, the abstract hash primitive, decimal formatting and byte-slice
    comparison shared by the ledger engine (blocktrain/blocktrain.go). */
module Primitives {

  newtype Byte = x: int | 0 <= x < 256

  /** Go's []byte; also Go's string, which is an immutable byte string. */
  type Bytes = seq<Byte>

  datatype Option<T> = None | Some(value: T)

  function ZeroDigest(): Bytes { seq(32, _ => 0) }

  /** Every total function that always yields a 32-byte digest; nothing else
      (in particular no collision resistance) is known about the hash. */
  type Hasher = f: Bytes -> Bytes | forall x :: |f(x)| == 32 witness (x: Bytes) => ZeroDigest()

  /** SHA-256, left uninterpreted: the model only knows its output length. */
  const Hash: Hasher

  /** The ASCII code of '-'. */
  const Minus: Byte := 45

  predicate IsDigit(b: Byte) { 48 <= b <= 57 }

  /** Base-10 digits of n, most significant first, without leading zeros. */
  function NatDigits(n: nat): (r: Bytes)
    ensures |r| >= 1
    ensures forall i :: 0 <= i < |r| ==> IsDigit(r[i])
    ensures n > 0 ==> r[0] != 48
    decreases n
  {
    if n < 10 then [(48 + n) as Byte] else NatDigits(n / 10) + [(48 + n % 10) as Byte]
  }

  /** strconv.FormatInt(n, 10): a leading '-' for negative values, then the digits. */
  function FormatInt(n: int): (r: Bytes)
    ensures |r| >= 1
    ensures (r[0] == Minus) <==> n < 0
    ensures forall i :: (if n < 0 then 1 else 0) <= i < |r| ==> IsDigit(r[i])
  {
    if n < 0 then [Minus] + NatDigits(-n) else NatDigits(n)
  }

  /** Reads back a string of digits (the inverse of NatDigits). */
  function ParseNat(s: Bytes): nat
    decreases |s|
  {
    if s == [] then 0
    else ParseNat(s[..|s| - 1]) * 10 + (if IsDigit(s[|s| - 1]) then s[|s| - 1] as int - 48 else 0)
  }

  /** Reads back the output of FormatInt. */
  function ParseInt(s: Bytes): int {
    if s != [] && s[0] == Minus then -(ParseNat(s[1..]) as int) else ParseNat(s)
  }

  lemma {:induction false} ParseNatDigits(n: nat)
    ensures ParseNat(NatDigits(n)) == n
    decreases n
  {
    var r := NatDigits(n);
    if n >= 10 {
      ParseNatDigits(n / 10);
      assert r[..|r| - 1] == NatDigits(n / 10);
    }
  }

  /** Decimal formatting can be read back, so it is injective. */
  lemma FormatIntRoundTrip(n: int)
    ensures ParseInt(FormatInt(n)) == n
  {
    if n < 0 {
      ParseNatDigits(-n);
      assert FormatInt(n)[1..] == NatDigits(-n);
    } else {
      ParseNatDigits(n);
    }
  }

  lemma FormatIntInjective(a: int, b: int)
    ensures FormatInt(a) == FormatInt(b) ==> a == b
  {
    FormatIntRoundTrip(a);
    FormatIntRoundTrip(b);
  }

  /** byteSliceEqual: equal lengths and equal bytes at every index. */
  method ByteSliceEqual(s1: Bytes, s2: Bytes) returns (eq: bool)
    ensures eq <==> |s1| == |s2| && forall i :: 0 <= i < |s1| ==> s1[i] == s2[i]
    ensures eq <==> s1 == s2
  {
    if |s1| != |s2| {
      return false;
    }
    for i := 0 to |s1|
      invariant forall k :: 0 <= k < i ==> s1[k] == s2[k]
    {
      if s1[i] != s2[i] {
        return false;
      }
    }
    return true;
  }
}
