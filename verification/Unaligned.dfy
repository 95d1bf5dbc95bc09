/**
 * 32-bit accesses at any byte address of word-addressed memory, least significant byte first. The tags of the heap are
 * aligned; what its code takes for a block before the first one need not be.
 */
module Unaligned {
  import opened Words
  import opened HeapMemory

  /** The word that starts `r` bytes into the word `lo` and ends in the word `hi` after it. */
  function Join(lo: uint32, hi: uint32, r: int): (v: uint32)
    requires 1 <= r <= 3
  {
    if r == 1 then lo / 0x100 + hi % 0x100 * 0x100_0000
    else if r == 2 then lo / 0x1_0000 + hi % 0x1_0000 * 0x1_0000
    else lo / 0x100_0000 + hi % 0x100_0000 * 0x100
  }

  /** `lo` with its upper bytes replaced by the first ones of `v`. */
  function PutLow(lo: uint32, v: uint32, r: int): uint32
    requires 1 <= r <= 3
  {
    if r == 1 then lo % 0x100 + v % 0x100_0000 * 0x100
    else if r == 2 then lo % 0x1_0000 + v % 0x1_0000 * 0x1_0000
    else lo % 0x100_0000 + v % 0x100 * 0x100_0000
  }

  /** `hi` with its lower bytes replaced by the last ones of `v`. */
  function PutHigh(hi: uint32, v: uint32, r: int): uint32
    requires 1 <= r <= 3
  {
    if r == 1 then hi - hi % 0x100 + v / 0x100_0000
    else if r == 2 then hi - hi % 0x1_0000 + v / 0x1_0000
    else hi - hi % 0x100_0000 + v / 0x100
  }

  lemma JoinPut(lo: uint32, hi: uint32, v: uint32, r: int)
    requires 1 <= r <= 3
    ensures Join(PutLow(lo, v, r), PutHigh(hi, v, r), r) == v
  {
    if r == 1 {
      DivModUnique(PutLow(lo, v, 1), 0x100, v % 0x100_0000, lo % 0x100);
      DivModUnique(PutHigh(hi, v, 1), 0x100, hi / 0x100, v / 0x100_0000);
    } else if r == 2 {
      DivModUnique(PutLow(lo, v, 2), 0x1_0000, v % 0x1_0000, lo % 0x1_0000);
      DivModUnique(PutHigh(hi, v, 2), 0x1_0000, hi / 0x1_0000, v / 0x1_0000);
    } else {
      DivModUnique(PutLow(lo, v, 3), 0x100_0000, v % 0x100, lo % 0x100_0000);
      DivModUnique(PutHigh(hi, v, 3), 0x100_0000, hi / 0x100_0000, v / 0x100);
    }
  }

  /** Load 32 bits from any address. */
  function Peek(m: Memory, a: int): uint32 {
    var r := a % 4;
    if r == 0 then Load(m, a) else Join(Load(m, a - r), Load(m, a - r + 4), r)
  }

  /** Store 32 bits at any address. */
  function Poke(m: Memory, a: int, v: uint32): Memory {
    var r := a % 4;
    if r == 0 then m[a := v]
    else m[a - r := PutLow(Load(m, a - r), v, r)][a - r + 4 := PutHigh(Load(m, a - r + 4), v, r)]
  }

  /** What is stored is read back, and words the access does not touch keep their value. */
  lemma PeekPoke(m: Memory, a: int, v: uint32)
    ensures Peek(Poke(m, a, v), a) == v
    ensures forall x {:trigger Load(Poke(m, a, v), x)} :: x % 4 == 0 && (x + 4 <= a || a + 4 <= x) ==>
              Load(Poke(m, a, v), x) == Load(m, x)
  {
    var r := a % 4;
    if r != 0 {
      JoinPut(Load(m, a - r), Load(m, a - r + 4), v, r);
    }
  }

  /** An access reads only the words it overlaps. */
  lemma PeekFrame(m: Memory, m': Memory, a: int)
    requires forall x {:trigger Load(m', x)} :: x % 4 == 0 && a - 4 < x < a + 4 ==> Load(m', x) == Load(m, x)
    ensures Peek(m', a) == Peek(m, a)
  {
    var r := a % 4;
    assert Load(m', a - r) == Load(m, a - r);
    if r != 0 {
      assert Load(m', a - r + 4) == Load(m, a - r + 4);
    }
  }

  /** A store at `a` touches no word that a load at `b` reads. */
  predicate Beside(a: int, b: int) {
    a + 8 <= b || b + 8 <= a || (a % 4 == 0 && (a + 4 <= b || b + 4 <= a))
  }

  /** A load beside a store is not affected by it. */
  lemma PeekPokeBeside(m: Memory, a: int, v: uint32, b: int)
    requires Beside(a, b)
    ensures Peek(Poke(m, a, v), b) == Peek(m, b)
  {
    PeekPoke(m, a, v);
    PeekFrame(m, Poke(m, a, v), b);
  }

  /** What is stored first is still there after three stores beside it. */
  lemma PeekFirst(m: Memory, b: int, v: uint32, a1: int, v1: uint32, a2: int, v2: uint32, a3: int, v3: uint32)
    requires Beside(a1, b) && Beside(a2, b) && Beside(a3, b)
    ensures Peek(Poke(Poke(Poke(Poke(m, b, v), a1, v1), a2, v2), a3, v3), b) == v
  {
    PeekPoke(m, b, v);
    PeekPokeBeside(Poke(m, b, v), a1, v1, b);
    PeekPokeBeside(Poke(Poke(m, b, v), a1, v1), a2, v2, b);
    PeekPokeBeside(Poke(Poke(Poke(m, b, v), a1, v1), a2, v2), a3, v3, b);
  }
}
