/** Byte-addressed memory with little-endian 8-byte words. */
module ByteMemory {

  type Byte = b: int | 0 <= b < 256
  type Memory = map<int, Byte>

  const TWO64: int := 0x1_0000_0000_0000_0000

  function ByteAt(m: Memory, a: int): Byte
  {
    if a in m then m[a] else 0
  }

  /** The little-endian number in the `n` bytes from `a`. */
  function LoadN(m: Memory, a: int, n: nat): nat
    decreases n
  {
    if n == 0 then 0 else ByteAt(m, a) + 256 * LoadN(m, a + 1, n - 1)
  }

  function StoreN(m: Memory, a: int, v: nat, n: nat): Memory
    decreases n
  {
    if n == 0 then m else StoreN(m[a := v % 256], a + 1, v / 256, n - 1)
  }

  function Load(m: Memory, a: int): nat
  {
    LoadN(m, a, 8)
  }

  function Store(m: Memory, a: int, v: nat): Memory
  {
    StoreN(m, a, v, 8)
  }

  function Pow256(n: nat): nat
  {
    if n == 0 then 1 else 256 * Pow256(n - 1)
  }

  lemma {:induction false} StoreElsewhere(m: Memory, a: int, v: nat, n: nat, b: int)
    requires !(a <= b < a + n)
    ensures ByteAt(StoreN(m, a, v, n), b) == ByteAt(m, b)
    decreases n
  {
    if n > 0 {
      StoreElsewhere(m[a := v % 256], a + 1, v / 256, n - 1, b);
    }
  }

  lemma {:induction false} LoadSame(m: Memory, m': Memory, a: int, n: nat)
    requires forall b :: a <= b < a + n ==> ByteAt(m', b) == ByteAt(m, b)
    ensures LoadN(m', a, n) == LoadN(m, a, n)
    decreases n
  {
    if n > 0 {
      LoadSame(m, m', a + 1, n - 1);
    }
  }

  lemma SameWord(m: Memory, m': Memory, a: int)
    requires forall b :: a <= b < a + 8 ==> ByteAt(m', b) == ByteAt(m, b)
    ensures Load(m', a) == Load(m, a)
  {
    LoadSame(m, m', a, 8);
  }

  lemma {:induction false} LoadStored(m: Memory, a: int, v: nat, n: nat)
    requires v < Pow256(n)
    ensures LoadN(StoreN(m, a, v, n), a, n) == v
    decreases n
  {
    if n > 0 {
      var m1 := m[a := v % 256];
      LoadStored(m1, a + 1, v / 256, n - 1);
      StoreElsewhere(m1, a + 1, v / 256, n - 1, a);
    }
  }

  /** A stored word is read back. */
  lemma StoredWord(m: Memory, a: int, v: nat)
    requires v < TWO64
    ensures Load(Store(m, a, v), a) == v
  {
    assert Pow256(4) == 0x1_0000_0000;
    assert Pow256(8) == TWO64;
    LoadStored(m, a, v, 8);
  }

  /** A store changes only its own eight bytes. */
  lemma OtherBytes(m: Memory, a: int, v: nat)
    ensures forall b :: !(a <= b < a + 8) ==> ByteAt(Store(m, a, v), b) == ByteAt(m, b)
  {
    forall b | !(a <= b < a + 8) ensures ByteAt(Store(m, a, v), b) == ByteAt(m, b) {
      StoreElsewhere(m, a, v, 8, b);
    }
  }

  lemma OtherWord(m: Memory, a: int, v: nat, b: int)
    requires b + 8 <= a || a + 8 <= b
    ensures Load(Store(m, a, v), b) == Load(m, b)
  {
    OtherBytes(m, a, v);
    LoadSame(m, Store(m, a, v), b, 8);
  }

  /** The three facts about words and bytes that all other proofs use. */
  lemma Laws()
    ensures forall m: Memory, a: int, v: nat {:trigger Store(m, a, v)} :: v < TWO64 ==> Load(Store(m, a, v), a) == v
    ensures forall m: Memory, a: int, v: nat, b: int {:trigger Load(Store(m, a, v), b)} ::
      b + 8 <= a || a + 8 <= b ==> Load(Store(m, a, v), b) == Load(m, b)
    ensures forall m: Memory, a: int, v: nat, b: int {:trigger ByteAt(Store(m, a, v), b)} ::
      b < a || a + 8 <= b ==> ByteAt(Store(m, a, v), b) == ByteAt(m, b)
  {
    hide Load, Store;
    forall m: Memory, a: int, v: nat | v < TWO64 ensures Load(Store(m, a, v), a) == v {
      StoredWord(m, a, v);
    }
    forall m: Memory, a: int, v: nat, b: int | b + 8 <= a || a + 8 <= b
      ensures Load(Store(m, a, v), b) == Load(m, b)
    {
      OtherWord(m, a, v, b);
    }
    forall m: Memory, a: int, v: nat, b: int | b < a || a + 8 <= b
      ensures ByteAt(Store(m, a, v), b) == ByteAt(m, b)
    {
      OtherBytes(m, a, v);
    }
  }

  /** memcpy of `n` bytes between areas that do not overlap. */
  function Copy(m: Memory, dst: int, src: int, n: nat): Memory
    decreases n
  {
    if n == 0 then m else Copy(m, dst, src, n - 1)[dst + n - 1 := ByteAt(m, src + n - 1)]
  }

  lemma {:induction false} CopyBytes(m: Memory, dst: int, src: int, n: nat)
    ensures forall b :: !(dst <= b < dst + n) ==> ByteAt(Copy(m, dst, src, n), b) == ByteAt(m, b)
    ensures forall b :: dst <= b < dst + n ==> ByteAt(Copy(m, dst, src, n), b) == ByteAt(m, src + (b - dst))
    decreases n
  {
    if n > 0 {
      CopyBytes(m, dst, src, n - 1);
      var c := Copy(m, dst, src, n);
      assert c == Copy(m, dst, src, n - 1)[dst + n - 1 := ByteAt(m, src + n - 1)];
      forall b | dst <= b < dst + n ensures ByteAt(c, b) == ByteAt(m, src + (b - dst)) {
        if b == dst + n - 1 {
          assert ByteAt(c, b) == ByteAt(m, src + n - 1);
        } else {
          assert ByteAt(c, b) == ByteAt(Copy(m, dst, src, n - 1), b);
        }
      }
    }
  }
}
