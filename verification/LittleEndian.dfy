/** Little-endian words inside byte strings. */
module LittleEndian {

  type Byte = x: int | 0 <= x < 0x100

  function Pow256(n: nat): (p: nat)
    ensures p >= 1
  {
    if n == 0 then 1 else 0x100 * Pow256(n - 1)
  }

  function Decode(b: seq<Byte>): nat {
    if b == [] then 0 else b[0] + 0x100 * Decode(b[1..])
  }

  function Encode(n: nat, x: nat): (b: seq<Byte>)
    ensures |b| == n
  {
    if n == 0 then [] else [x % 0x100] + Encode(n - 1, x / 0x100)
  }

  /** The `n`-byte word at offset `at`. */
  function WordAt(c: seq<Byte>, at: nat, n: nat): nat
    requires at + n <= |c|
  {
    Decode(c[at..at + n])
  }

  /** `c` with the `n` bytes at offset `at` replaced by `x`, truncated to `n` bytes. */
  function Patch(c: seq<Byte>, at: nat, n: nat, x: int): (d: seq<Byte>)
    requires at + n <= |c|
    ensures |d| == |c|
  {
    c[..at] + Encode(n, x % Pow256(n)) + c[at + n..]
  }

  lemma {:induction false} DecodeEncode(n: nat, x: nat)
    requires x < Pow256(n)
    ensures Decode(Encode(n, x)) == x
  {
    if n > 0 {
      DecodeEncode(n - 1, x / 0x100);
      assert Encode(n, x)[1..] == Encode(n - 1, x / 0x100);
    }
  }

  lemma {:induction false} DecodeBound(b: seq<Byte>)
    ensures Decode(b) < Pow256(|b|)
  {
    if b != [] {
      DecodeBound(b[1..]);
    }
  }

  lemma PatchedWord(c: seq<Byte>, at: nat, n: nat, x: int)
    requires at + n <= |c|
    ensures WordAt(Patch(c, at, n, x), at, n) == x % Pow256(n)
  {
    var e := Encode(n, x % Pow256(n));
    assert Patch(c, at, n, x)[at..at + n] == e;
    DecodeEncode(n, x % Pow256(n));
  }

  lemma PatchedElsewhere(c: seq<Byte>, at: nat, n: nat, x: int)
    requires at + n <= |c|
    ensures forall k :: 0 <= k < |c| && !(at <= k < at + n) ==> Patch(c, at, n, x)[k] == c[k]
  {
  }

  lemma SameBytesSameWord(c: seq<Byte>, d: seq<Byte>, at: nat, n: nat)
    requires at + n <= |c| && at + n <= |d|
    requires forall k :: at <= k < at + n ==> c[k] == d[k]
    ensures WordAt(c, at, n) == WordAt(d, at, n)
  {
    assert c[at..at + n] == d[at..at + n];
  }

  lemma Pow4()
    ensures Pow256(4) == 0x1_0000_0000
  {
    assert Pow256(2) == 0x1_0000;
  }

  // ----- 32-bit numbers

  const TWO_31: int := 0x8000_0000
  const TWO_32: int := 0x1_0000_0000

  predicate FitsInt32(x: int) { -TWO_31 <= x < TWO_31 }

  /** The signed value of a 32-bit field. */
  function Signed32(x: nat): int { if x < TWO_31 then x else x - TWO_32 }

  /** Truncating to 32 bits and reading the result as signed gives back a number exactly when it
      fits. */
  lemma SignedIff(x: int)
    ensures Signed32(x % TWO_32) == x <==> FitsInt32(x)
    ensures -TWO_31 <= Signed32(x % TWO_32) < TWO_31 && Signed32(x % TWO_32) % TWO_32 == x % TWO_32
  {
  }
}
