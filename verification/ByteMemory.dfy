/** Memory as bytes at addresses that wrap around at the width of an address. */
module ByteMemory {
  import opened LittleEndian

  /** Width of an address in bytes: 4 or 8. */
  type Mode = w: nat | w == 4 || w == 8 witness 4

  function Modulus(w: Mode): (m: nat)
    ensures m > 0
  {
    if w == 4 then 0x1_0000_0000 else 0x1_0000_0000_0000_0000
  }

  function Wrap(w: Mode, a: int): nat { a % Modulus(w) }

  type Memory = map<int, Byte>

  function At(m: Memory, w: Mode, a: int): Byte { if Wrap(w, a) in m then m[Wrap(w, a)] else 0 }

  function LoadBytes(m: Memory, w: Mode, a: int, n: nat): (b: seq<Byte>)
    ensures |b| == n
    decreases n
  {
    if n == 0 then [] else [At(m, w, a)] + LoadBytes(m, w, a + 1, n - 1)
  }

  function StoreBytes(m: Memory, w: Mode, a: int, b: seq<Byte>): Memory
    decreases |b|
  {
    if b == [] then m else StoreBytes(m[Wrap(w, a) := b[0]], w, a + 1, b[1..])
  }

  lemma {:induction false} AtStored(m: Memory, w: Mode, a: int, b: seq<Byte>, x: int)
    requires |b| <= Modulus(w)
    ensures At(StoreBytes(m, w, a, b), w, x) == if Wrap(w, x - a) < |b| then b[Wrap(w, x - a)] else At(m, w, x)
    decreases |b|
  {
    if b != [] {
      AtStored(m[Wrap(w, a) := b[0]], w, a + 1, b[1..], x);
      WrapNext(w, x - a);
      SameWrap(w, x, a);
    }
  }

  lemma WrapNext(w: Mode, d: int)
    ensures Wrap(w, d) == 0 ==> Wrap(w, d - 1) == Modulus(w) - 1
    ensures Wrap(w, d) != 0 ==> Wrap(w, d - 1) == Wrap(w, d) - 1
  {
  }

  lemma SameWrap(w: Mode, x: int, a: int)
    ensures Wrap(w, x - a) == 0 <==> Wrap(w, x) == Wrap(w, a)
  {
  }

  lemma {:induction false} LoadBytesAt(m: Memory, w: Mode, a: int, n: nat, k: nat)
    requires k < n
    ensures LoadBytes(m, w, a, n)[k] == At(m, w, a + k)
    decreases n
  {
    if k > 0 { LoadBytesAt(m, w, a + 1, n - 1, k - 1); }
  }

  /** None of the `n` bytes at `a` is among the `size` at `slot`. */
  ghost predicate Clear(w: Mode, slot: int, size: nat, a: int, n: nat) {
    forall x :: a <= x < a + n ==> Beyond(w, slot, size, x)
  }

  predicate Beyond(w: Mode, slot: int, size: nat, x: int) { Wrap(w, x - slot) >= size }

  /** A store does not disturb bytes elsewhere. */
  lemma LoadElsewhere(m: Memory, w: Mode, slot: int, b: seq<Byte>, a: int, n: nat)
    requires Clear(w, slot, |b|, a, n) && |b| <= w
    ensures LoadBytes(StoreBytes(m, w, slot, b), w, a, n) == LoadBytes(m, w, a, n)
  {
    hide Wrap, At, StoreBytes, LoadBytes;
    var x, y := LoadBytes(StoreBytes(m, w, slot, b), w, a, n), LoadBytes(m, w, a, n);
    ModulusIsLarge(w);
    forall k: nat | k < n ensures x[k] == y[k] {
      LoadBytesAt(StoreBytes(m, w, slot, b), w, a, n, k);
      LoadBytesAt(m, w, a, n, k);
      assert Beyond(w, slot, |b|, a + k);
      AtStored(m, w, slot, b, a + k);
    }
    assert x == y;
  }

  /** What was stored is what is loaded. */
  lemma LoadStored(m: Memory, w: Mode, slot: int, b: seq<Byte>)
    requires |b| <= w
    ensures LoadBytes(StoreBytes(m, w, slot, b), w, slot, |b|) == b
  {
    hide At, StoreBytes, LoadBytes;
    var x := LoadBytes(StoreBytes(m, w, slot, b), w, slot, |b|);
    ModulusIsLarge(w);
    forall k: nat | k < |b| ensures x[k] == b[k] {
      LoadBytesAt(StoreBytes(m, w, slot, b), w, slot, |b|, k);
      AtStored(m, w, slot, b, slot + k);
      SmallWrap(w, k);
    }
    assert x == b;
  }

  lemma ModulusIsLarge(w: Mode)
    ensures w <= Modulus(w)
  {
  }

  lemma SmallWrap(w: Mode, k: nat)
    requires k < w
    ensures Wrap(w, k) == k
  {
  }

  lemma ModulusIsPower(w: Mode)
    ensures Modulus(w) == Pow256(w)
  {
    assert Pow256(2) == 0x1_0000;
    assert Pow256(4) == 0x1_0000_0000;
    assert Pow256(6) == 0x1_0000_0000_0000;
  }
}
