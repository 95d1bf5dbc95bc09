/**
 * Unsigned machine words as bounded integers, and the C operators on them whose behaviour is not plain arithmetic:
 * sums and differences that wrap, and the bitwise operators, defined one bit at a time, with what the masks of the
 * kernel's macros need to know about them.
 */
module Words {

  const TWO32: int := 0x1_0000_0000
  const TWO64: int := 0x1_0000_0000_0000_0000

  type uint32 = x: int | 0 <= x < 0x1_0000_0000
  type uint64 = x: int | 0 <= x < 0x1_0000_0000_0000_0000

  /** Numbers of 4 KB pages, virtual or physical, of a 32-bit address space. */
  const PAGES: int := 0x10_0000

  type Frame = f: int | 0 <= f < 0x10_0000

  datatype Option<+T> = None | Some(value: T)

  /** Unsigned addition drops the carry out of bit 31. */
  function Add(x: uint32, y: uint32): uint32 {
    if x as int + y as int < 0x1_0000_0000 then x + y else x as int + y as int - 0x1_0000_0000
  }

  /** Unsigned subtraction borrows from bit 32. */
  function Sub(x: uint32, y: uint32): uint32 {
    if y <= x then x - y else x - y + 0x1_0000_0000
  }

  // ------------------------------------------------------------------
  // Bitwise operators, defined one bit at a time
  // ------------------------------------------------------------------

  function Pow2(n: nat): (p: nat)
    ensures 0 < p
  {
    if n == 0 then 1 else 2 * Pow2(n - 1)
  }

  function Or(x: nat, y: nat): nat {
    if x == 0 then y
    else 2 * Or(x / 2, y / 2) + (if x % 2 == 1 || y % 2 == 1 then 1 else 0)
  }

  function And(x: nat, y: nat): nat {
    if x == 0 then 0
    else 2 * And(x / 2, y / 2) + (if x % 2 == 1 && y % 2 == 1 then 1 else 0)
  }

  /** `~x` in a word of `width` bits. */
  function Not(x: nat, width: nat): nat {
    if width == 0 then 0 else 2 * Not(x / 2, width - 1) + (1 - x % 2)
  }

  predicate Bit(x: nat, i: nat) {
    if i == 0 then x % 2 == 1 else Bit(x / 2, i - 1)
  }

  lemma {:induction false} BitOfZero(i: nat)
    ensures !Bit(0, i)
  {
    if i > 0 {
      BitOfZero(i - 1);
    }
  }

  lemma {:induction false} BitOfPow2(k: nat, i: nat)
    ensures Bit(Pow2(k), i) <==> i == k
  {
    if k == 0 {
      if i > 0 {
        BitOfZero(i - 1);
      }
    } else if i > 0 {
      BitOfPow2(k - 1, i - 1);
    }
  }

  lemma {:induction false} BitOfOr(x: nat, y: nat, i: nat)
    ensures Bit(Or(x, y), i) <==> Bit(x, i) || Bit(y, i)
  {
    if x == 0 {
      BitOfZero(i);
    } else if i > 0 {
      BitOfOr(x / 2, y / 2, i - 1);
    }
  }

  lemma {:induction false} BitOfAnd(x: nat, y: nat, i: nat)
    ensures Bit(And(x, y), i) <==> Bit(x, i) && Bit(y, i)
  {
    if x == 0 {
      BitOfZero(i);
    } else if i > 0 {
      BitOfAnd(x / 2, y / 2, i - 1);
    }
  }

  lemma {:induction false} BitOfNot(x: nat, width: nat, i: nat)
    requires i < width
    ensures Bit(Not(x, width), i) <==> !Bit(x, i)
  {
    if i > 0 {
      BitOfNot(x / 2, width - 1, i - 1);
    }
  }

  /** `w & (1 << i)` tests bit `i`. */
  lemma {:induction false} AndPow2Tests(x: nat, i: nat)
    ensures And(x, Pow2(i)) != 0 <==> Bit(x, i)
  {
    if x == 0 {
      BitOfZero(i);
    } else if i > 0 {
      AndPow2Tests(x / 2, i - 1);
    } else {
      assert And(x, 1) == 2 * And(x / 2, 0) + (if x % 2 == 1 then 1 else 0);
      AndZero(x / 2);
    }
  }

  lemma {:induction false} AndZero(x: nat)
    ensures And(x, 0) == 0
  {
    if x != 0 {
      AndZero(x / 2);
    }
  }

  lemma {:induction false} OrBounded(x: nat, y: nat, n: nat)
    requires x < Pow2(n) && y < Pow2(n)
    ensures Or(x, y) < Pow2(n)
  {
    if x != 0 {
      OrBounded(x / 2, y / 2, n - 1);
    }
  }

  lemma {:induction false} AndBounded(x: nat, y: nat)
    ensures And(x, y) <= x
  {
    if x != 0 {
      AndBounded(x / 2, y / 2);
    }
  }

  lemma OrStep(x: nat, y: nat, h: nat)
    requires h == Or(x / 2, y / 2)
    ensures Or(x, y) == 2 * h + (if x % 2 == 1 || y % 2 == 1 then 1 else 0)
  {
  }

  /** Setting a bit that is clear is an addition. */
  lemma {:induction false} OrOfClearBit(x: nat, i: nat)
    requires !Bit(x, i)
    ensures Or(x, Pow2(i)) == x + Pow2(i)
  {
    if i == 0 {
      OrZero(x / 2);
      OrStep(x, 1, x / 2);
    } else {
      OrOfClearBit(x / 2, i - 1);
      OrStep(x, Pow2(i), x / 2 + Pow2(i - 1));
    }
  }

  lemma {:induction false} OrZero(x: nat)
    ensures Or(x, 0) == x
  {
    if x != 0 {
      OrZero(x / 2);
    }
  }

  lemma TwoTo32()
    ensures Pow2(32) == TWO32
  {
    assert Pow2(8) == 0x100;
    assert Pow2(16) == 0x1_0000;
    assert Pow2(24) == 0x100_0000;
  }

  lemma TwoTo12()
    ensures Pow2(12) == 0x1000
  {
    assert Pow2(6) == 0x40;
  }

  lemma {:induction false} Pow2Monotone(m: nat, n: nat)
    requires m <= n
    ensures Pow2(m) <= Pow2(n)
  {
    if m < n {
      Pow2Monotone(m, n - 1);
    }
  }

  lemma AndStep(x: nat, y: nat, h: nat)
    requires h == And(x / 2, y / 2)
    ensures And(x, y) == 2 * h + (if x % 2 == 1 && y % 2 == 1 then 1 else 0)
  {
  }

  lemma LowMask(n: nat, low: nat)
    requires 0 < n && low == Pow2(n) - 1
    ensures low / 2 == Pow2(n - 1) - 1 && low % 2 == 1
  {
  }

  /** `x & (2^n - 1)` keeps the low bits. */
  lemma {:induction false} AndLowBits(x: nat, n: nat, low: nat)
    requires low == Pow2(n) - 1
    ensures And(x, low) == x % Pow2(n)
  {
    if n == 0 {
      AndZero(x);
    } else {
      LowMask(n, low);
      AndLowBits(x / 2, n - 1, low / 2);
      AndStep(x, low, x / 2 % Pow2(n - 1));
      HalvedRemainder(x, n);
    }
  }

  lemma HalvedRemainder(x: nat, n: nat)
    requires 0 < n
    ensures x % Pow2(n) == 2 * (x / 2 % Pow2(n - 1)) + x % 2
  {
    var p, h := Pow2(n - 1), x / 2;
    var q, r := h / p, h % p;
    assert x == 2 * h + x % 2 && h == q * p + r;
    assert x == q * (2 * p) + (2 * r + x % 2);
    DivModUnique(x, 2 * p, q, 2 * r + x % 2);
  }

  lemma MultipleAtLeast(k: int, d: int)
    requires 1 <= k && 0 < d
    ensures d <= k * d
  {
  }

  lemma DivModUnique(x: int, d: int, q: int, r: int)
    requires 0 <= r < d && x == q * d + r
    ensures x / d == q && x % d == r
  {
    var p, s := x / d, x % d;
    assert x == p * d + s && 0 <= s < d;
    assert (p - q) * d == p * d - q * d;
    assert (q - p) * d == q * d - p * d;
    if q < p {
      MultipleAtLeast(p - q, d);
    } else if p < q {
      MultipleAtLeast(q - p, d);
    }
  }

  /** `x & ~(2^n - 1)` clears the low bits. */
  lemma {:induction false} AndNotLowBits(x: nat, n: nat, width: nat, low: nat)
    requires n <= width && x < Pow2(width) && low == Pow2(n) - 1
    ensures And(x, Not(low, width)) == x - x % Pow2(n)
    decreases width
  {
    if n == 0 {
      AndAllOnes(x, width);
    } else {
      LowMask(n, low);
      AndNotLowBits(x / 2, n - 1, width - 1, low / 2);
      NotStep(low, width, Not(low / 2, width - 1));
      AndStep(x, Not(low, width), x / 2 - x / 2 % Pow2(n - 1));
      HalvedRemainder(x, n);
    }
  }

  lemma NotStep(x: nat, width: nat, h: nat)
    requires 0 < width && h == Not(x / 2, width - 1)
    ensures Not(x, width) / 2 == h && Not(x, width) % 2 == 1 - x % 2
  {
  }

  lemma {:induction false} AndAllOnes(x: nat, width: nat)
    requires x < Pow2(width)
    ensures And(x, Not(0, width)) == x
  {
    if x != 0 {
      AndAllOnes(x / 2, width - 1);
    }
  }
}
