/** Sharing call frame programs: a cache looked up by value, with an order that compares hash codes
    first; and the frame description remembered from one instruction to the next. */
module EhProgramCache {
  import opened Common
  import opened LittleEndian

  // ----- strict total orders

  /** Equivalence under the order, which is all that an ordered set ever asks, is equality. */
  ghost predicate StrictTotal<T(!new)>(less: (T, T) -> bool) {
    && (forall a, b :: !less(a, b) && !less(b, a) <==> a == b)
    && (forall a, b, c :: less(a, b) && less(b, c) ==> less(a, c))
  }

  predicate Lex<T>(less: (T, T) -> bool, a: seq<T>, b: seq<T>) {
    b != [] && (a == [] || less(a[0], b[0]) || (!less(b[0], a[0]) && Lex(less, a[1..], b[1..])))
  }

  lemma {:induction false} LexTrichotomy<T(!new)>(less: (T, T) -> bool, a: seq<T>, b: seq<T>)
    requires StrictTotal(less)
    ensures !Lex(less, a, b) && !Lex(less, b, a) <==> a == b
  {
    if a != [] && b != [] {
      LexTrichotomy(less, a[1..], b[1..]);
      assert a == [a[0]] + a[1..] && b == [b[0]] + b[1..];
    }
  }

  lemma {:induction false} LexTransitive<T(!new)>(less: (T, T) -> bool, a: seq<T>, b: seq<T>, c: seq<T>)
    requires StrictTotal(less) && Lex(less, a, b) && Lex(less, b, c)
    ensures Lex(less, a, c)
  {
    if a != [] {
      if !less(a[0], b[0]) && !less(b[0], c[0]) {
        assert a[0] == b[0] && b[0] == c[0];
        LexTransitive(less, a[1..], b[1..], c[1..]);
      } else {
        HeadsLess(less, a[0], b[0], c[0]);
      }
    }
  }

  lemma HeadsLess<T(!new)>(less: (T, T) -> bool, a: T, b: T, c: T)
    requires StrictTotal(less) && (less(a, b) || less(b, c)) && (less(a, b) || a == b) && (less(b, c) || b == c)
    ensures less(a, c)
  {
  }

  function LexOf<T>(less: (T, T) -> bool): (seq<T>, seq<T>) -> bool { (a, b) => Lex(less, a, b) }

  lemma LexStrictTotal<T(!new)>(less: (T, T) -> bool)
    requires StrictTotal(less)
    ensures StrictTotal(LexOf(less))
  {
    hide Lex;
    var f := LexOf(less);
    forall a, b ensures !f(a, b) && !f(b, a) <==> a == b { LexTrichotomy(less, a, b); }
    forall a, b, c | f(a, b) && f(b, c) ensures f(a, c) { LexTransitive(less, a, b, c); }
  }

  const BYTE_LESS: (Byte, Byte) -> bool := (a, b) => a < b
  const INT_LESS: (int, int) -> bool := (a, b) => a < b
  const STRING_LESS: (seq<Byte>, seq<Byte>) -> bool := LexOf(BYTE_LESS)
  const PROGRAM_LESS: (seq<seq<Byte>>, seq<seq<Byte>>) -> bool := LexOf(STRING_LESS)
  const NUMBERS_LESS: (seq<int>, seq<int>) -> bool := LexOf(INT_LESS)

  lemma ComponentsStrictTotal()
    ensures StrictTotal(PROGRAM_LESS) && StrictTotal(NUMBERS_LESS)
  {
    LexStrictTotal(BYTE_LESS);
    LexStrictTotal(STRING_LESS);
    LexStrictTotal(INT_LESS);
  }

  // ----- keys

  /** A program as the cache sees it.  `numbers` are the two alignment factors, the return register,
      the pointer size and the personality routine. */
  datatype Key = Key(cie: seq<seq<Byte>>, fde: seq<seq<Byte>>, numbers: seq<int>)

  type Hash = (seq<seq<Byte>>, seq<seq<Byte>>) -> int

  predicate TupleLess(a: Key, b: Key) {
    || PROGRAM_LESS(a.cie, b.cie)
    || (!PROGRAM_LESS(b.cie, a.cie)
        && (PROGRAM_LESS(a.fde, b.fde) || (!PROGRAM_LESS(b.fde, a.fde) && NUMBERS_LESS(a.numbers, b.numbers))))
  }

  predicate KeyLess(hash: Hash, a: Key, b: Key) {
    if hash(a.cie, a.fde) == hash(b.cie, b.fde) then TupleLess(a, b) else hash(a.cie, a.fde) < hash(b.cie, b.fde)
  }

  lemma KeyTrichotomy(hash: Hash, a: Key, b: Key)
    ensures !KeyLess(hash, a, b) && !KeyLess(hash, b, a) <==> a == b
  {
    hide LexOf;
    ComponentsStrictTotal();
    assert !NUMBERS_LESS(a.numbers, b.numbers) && !NUMBERS_LESS(b.numbers, a.numbers) <==> a.numbers == b.numbers;
    assert !PROGRAM_LESS(a.cie, b.cie) && !PROGRAM_LESS(b.cie, a.cie) <==> a.cie == b.cie;
    assert !PROGRAM_LESS(a.fde, b.fde) && !PROGRAM_LESS(b.fde, a.fde) <==> a.fde == b.fde;
  }

  lemma TupleTransitive(a: Key, b: Key, c: Key)
    requires TupleLess(a, b) && TupleLess(b, c)
    ensures TupleLess(a, c)
  {
    hide LexOf;
    ComponentsStrictTotal();
    if a.cie == b.cie == c.cie {
      if a.fde == b.fde == c.fde {
        assert NUMBERS_LESS(a.numbers, b.numbers) && NUMBERS_LESS(b.numbers, c.numbers);
      } else {
        HeadsLess(PROGRAM_LESS, a.fde, b.fde, c.fde);
      }
    } else {
      HeadsLess(PROGRAM_LESS, a.cie, b.cie, c.cie);
    }
  }

  /** Comparing hash codes first, whatever the hash function, keeps the order one that an ordered
      set can use, and one for which equivalent keys are equal. */
  lemma KeyStrictTotal(hash: Hash)
    ensures StrictTotal((a, b) => KeyLess(hash, a, b))
  {
    hide TupleLess, KeyLess;
    forall a, b ensures !KeyLess(hash, a, b) && !KeyLess(hash, b, a) <==> a == b { KeyTrichotomy(hash, a, b); }
    forall a, b, c | KeyLess(hash, a, b) && KeyLess(hash, b, c) ensures KeyLess(hash, a, c) {
      KeyTransitive(hash, a, b, c);
    }
  }

  lemma KeyTransitive(hash: Hash, a: Key, b: Key, c: Key)
    requires KeyLess(hash, a, b) && KeyLess(hash, b, c)
    ensures KeyLess(hash, a, c)
  {
    hide TupleLess;
    if hash(a.cie, a.fde) == hash(b.cie, b.fde) == hash(c.cie, c.fde) {
      TupleTransitive(a, b, c);
    }
  }

  // ----- the cache

  class Programs {
    const hash: Hash
    var cache: seq<(Key, nat)>
    var programs: seq<Key>
    var given: map<nat, nat>

    constructor (hash: Hash)
      ensures Valid() && programs == [] && given == map[]
    {
      this.hash, cache, programs, given := hash, [], [], map[];
    }

    ghost predicate Valid()
      reads this
    {
      && |cache| == |programs|
      && (forall i :: 0 <= i < |cache| ==> cache[i] == (programs[i], i))
      && (forall p, q :: 0 <= p < q < |programs| ==> programs[p] != programs[q])
      && (forall i | i in given :: given[i] < |programs|)
    }

    /** The first cached program that the order cannot tell from `key`. */
    method Find(key: Key) returns (found: nat)
      requires Valid()
      ensures found <= |cache|
      ensures found < |cache| <==> exists p :: 0 <= p < |programs| && programs[p] == key
      ensures found < |cache| ==> programs[found] == key
    {
      hide KeyLess;
      found := 0;
      while found < |cache|
        invariant found <= |cache| && forall i :: 0 <= i < found ==> programs[i] != key
      {
        KeyTrichotomy(hash, cache[found].0, key);
        if !KeyLess(hash, cache[found].0, key) && !KeyLess(hash, key, cache[found].0) { return; }
        found := found + 1;
      }
    }

    /** Gives instruction `insn` its program, a shared one if there is one with the same value.
        Programs given out before stay as they are. */
    method SetEhProgram(insn: nat, key: Key)
      requires Valid()
      modifies this
      ensures Valid() && old(programs) <= programs && |programs| <= |old(programs)| + 1
      ensures insn in given && given == old(given)[insn := given[insn]] && programs[given[insn]] == key
    {
      var it := Find(key);
      if it < |cache| {
        given := given[insn := cache[it].1];
      } else {
        programs := programs + [key];
        given := given[insn := |programs| - 1];
        cache := cache + [(key, |programs| - 1)];
      }
    }

    /** Over any run, two instructions share a program exactly when their programs have the same
        value. */
    lemma SharedIffEqual(i: nat, j: nat)
      requires Valid() && i in given && j in given
      ensures given[i] == given[j] <==> programs[given[i]] == programs[given[j]]
    {
      var p, q := given[i], given[j];
      if p < q { assert programs[p] != programs[q]; }
      if q < p { assert programs[q] != programs[p]; }
    }

    /** A whole run over any instructions. */
    method BuildAll(keys: seq<Key>)
      requires Valid()
      modifies this
      ensures Valid()
      ensures forall i :: 0 <= i < |keys| ==> i in given && programs[given[i]] == keys[i]
      ensures forall i, j :: 0 <= i < |keys| && 0 <= j < |keys| ==> (given[i] == given[j] <==> keys[i] == keys[j])
    {
      var n := 0;
      while n < |keys|
        invariant 0 <= n <= |keys| && Valid()
        invariant forall i :: 0 <= i < n ==> i in given && programs[given[i]] == keys[i]
      {
        SetEhProgram(n, keys[n]);
        n := n + 1;
      }
      forall i: nat, j: nat | i < |keys| && j < |keys| ensures given[i] == given[j] <==> keys[i] == keys[j] {
        SharedIffEqual(i, j);
      }
    }
  }

  // ----- the remembered frame description

  datatype Fde = Fde(start: int, end: int, id: nat)

  predicate Applies(f: Fde, addr: int) { f.start <= addr < f.end }

  ghost predicate Disjoint(fdes: set<Fde>) {
    forall f, g, addr: int | f in fdes && g in fdes && Applies(f, addr) && Applies(g, addr) :: f == g
  }

  ghost predicate Answers(fdes: set<Fde>, addr: int, r: Option<Fde>) {
    match r
    case None => forall f | f in fdes :: !Applies(f, addr)
    case Some(f) => f in fdes && Applies(f, addr)
  }

  lemma AnswerIsUnique(fdes: set<Fde>, addr: int, r: Option<Fde>, s: Option<Fde>)
    requires Disjoint(fdes) && Answers(fdes, addr, r) && Answers(fdes, addr, s)
    ensures r == s
  {
  }

  class FdeMemo {
    const fdes: set<Fde>
    var last: Option<Fde>

    constructor (fdes: set<Fde>)
      ensures this.fdes == fdes && last == None
    {
      this.fdes, last := fdes, None;
    }

    method FindFDE(addr: int) returns (r: Option<Fde>)
      ensures Answers(fdes, addr, r)
    {
      var rest := fdes;
      while rest != {}
        invariant rest <= fdes && forall f | f in fdes - rest :: !Applies(f, addr)
        decreases rest
      {
        var f :| f in rest;
        if Applies(f, addr) { return Some(f); }
        rest := rest - {f};
      }
      return None;
    }

    /** Looks only if the description used last does not apply; the answer is the one a fresh
        search would give. */
    method Lookup(addr: int) returns (r: Option<Fde>)
      requires last.Some? ==> last.value in fdes
      modifies this`last
      ensures last == r && Answers(fdes, addr, r)
      ensures if r.Some? then r.value in fdes && r.value.start <= addr < r.value.end
              else forall f | f in fdes :: !(f.start <= addr < f.end)
      ensures forall s | Answers(fdes, addr, s) && Disjoint(fdes) :: s == r
    {
      if !(last.Some? && last.value.start <= addr && addr < last.value.end) {
        last := FindFDE(addr);
      }
      forall s | Answers(fdes, addr, s) && Disjoint(fdes) ensures s == last { AnswerIsUnique(fdes, addr, last, s); }
      return last;
    }
  }
}
