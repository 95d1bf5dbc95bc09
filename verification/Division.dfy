/**
 * The 64-bit division of kernel/multiboot.c, one bit of the dividend at a time: quotient and remainder after each turn
 * of the loop, in 64-bit arithmetic whose shift must not lose a bit, and what they are at its end.
 */
module Division {
  import opened Words

  /** `x >> i` */
  function Shr(x: nat, i: nat): nat {
    if i == 0 then x else Shr(x / 2, i - 1)
  }

  /** `x << i`, without a word to fall out of. */
  function Shl(x: nat, i: nat): nat {
    if i == 0 then x else 2 * Shl(x, i - 1)
  }

  datatype State = State(q: nat, r: nat)

  /** One turn of the loop of `udivmod64`, at bit `i`, in 64-bit arithmetic: the shift drops the carry out of bit 63. */
  function Turn(dividend: uint64, divisor: uint64, i: nat, s: State): State {
    var r := Or(2 * s.r % TWO64, Shr(dividend, i) % 2);
    if r >= divisor then State(Or(s.q, Pow2(i)), r - divisor) else State(s.q, r)
  }

  /** The loop after `n` turns, from bit 63 down. */
  function Turns(dividend: uint64, divisor: uint64, n: nat): State
    requires n <= 64
  {
    if n == 0 then State(0, 0) else Turn(dividend, divisor, 64 - n, Turns(dividend, divisor, n - 1))
  }

  // ------------------------------------------------------------------
  // Shifts
  // ------------------------------------------------------------------

  lemma {:induction false} ShrStep(x: nat, i: nat)
    ensures Shr(x, i) == 2 * Shr(x, i + 1) + Shr(x, i) % 2
    ensures Shr(x, i) <= x
  {
    if i > 0 {
      ShrStep(x / 2, i - 1);
    }
  }

  lemma {:induction false} ShrOut(x: nat, n: nat)
    requires x < Pow2(n)
    ensures Shr(x, n) == 0
  {
    if n > 0 {
      ShrOut(x / 2, n - 1);
    }
  }

  lemma {:induction false} ShlStep(k: nat, i: nat)
    ensures Shl(2 * k, i) == Shl(k, i + 1)
    ensures Shl(2 * k + 1, i) == Shl(k, i + 1) + Pow2(i)
  {
    if i > 0 {
      ShlStep(k, i - 1);
    }
  }

  lemma {:induction false} ShlClear(k: nat, i: nat)
    ensures !Bit(Shl(k, i + 1), i)
  {
    if i > 0 {
      ShlClear(k, i - 1);
      assert Shl(k, i + 1) / 2 == Shl(k, i);
    }
  }

  /** Shifting back what was shifted out to the right, or less, gives no more than there was. */
  lemma {:induction false} ShlBound(x: nat, k: nat, i: nat)
    requires k <= Shr(x, i)
    ensures Shl(k, i) <= x
  {
    if i > 0 {
      ShlBound(x / 2, k, i - 1);
    }
  }

  lemma {:induction false} ShlOnes(k: nat, n: nat, i: nat)
    requires k + 1 == Pow2(n)
    ensures Shl(k, i) + Pow2(i) == Pow2(n + i)
  {
    if i > 0 {
      ShlOnes(k, n, i - 1);
    }
  }

  lemma Pow2Four(n: nat)
    ensures Pow2(n + 4) == 16 * Pow2(n)
  {
    assert Pow2(n + 2) == 4 * Pow2(n);
  }

  lemma TwoTo64()
    ensures Pow2(64) == TWO64
  {
    TwoTo32();
    Pow2Four(32);
    Pow2Four(36);
    Pow2Four(40);
    Pow2Four(44);
    Pow2Four(48);
    Pow2Four(52);
    Pow2Four(56);
    Pow2Four(60);
  }

  lemma OrBit(x: nat, b: nat)
    requires x % 2 == 0 && b <= 1
    ensures Or(x, b) == x + b
  {
    OrStep(x, b, Or(x / 2, b / 2));
    OrZero(x / 2);
  }

  // ------------------------------------------------------------------
  // The loop
  // ------------------------------------------------------------------

  /** The product, by repeated addition. */
  function Times(k: nat, d: nat): nat {
    if k == 0 then 0 else d + Times(k - 1, d)
  }

  lemma {:induction false} TimesIsProduct(k: nat, d: nat)
    ensures Times(k, d) == k * d
  {
    if k > 0 {
      TimesIsProduct(k - 1, d);
    }
  }

  lemma {:induction false} TimesDouble(k: nat, d: nat)
    ensures Times(2 * k, d) == 2 * Times(k, d)
    ensures Times(2 * k + 1, d) == 2 * Times(k, d) + d
  {
    if k > 0 {
      TimesDouble(k - 1, d);
      assert Times(2 * k, d) == d + Times(2 * k - 1, d);
    }
  }

  lemma {:induction false} TimesAtLeast(k: nat, d: nat)
    requires 0 < d
    ensures k <= Times(k, d)
  {
    if k > 0 {
      TimesAtLeast(k - 1, d);
    }
  }

  /** How the loop stands after `n` turns: the quotient so far is `k`, to be shifted into place. */
  ghost predicate Stands(dividend: uint64, divisor: uint64, n: nat, s: State, k: nat)
    requires n <= 64
  {
    && s.q == Shl(k, 64 - n)
    && Shr(dividend, 64 - n) == Times(k, divisor) + s.r
    && (if divisor == 0 then k + 1 == Pow2(n) else s.r < divisor)
  }

  /** One turn in plain arithmetic, while the shift loses no bit and bit `i` of the quotient is clear. */
  lemma TurnValue(dividend: uint64, divisor: uint64, i: nat, s: State, r: nat)
    requires 2 * s.r < TWO64 && !Bit(s.q, i) && r == 2 * s.r + Shr(dividend, i) % 2
    ensures Turn(dividend, divisor, i, s) == if r >= divisor then State(s.q + Pow2(i), r - divisor) else State(s.q, r)
  {
    assert Or(2 * s.r % TWO64, Shr(dividend, i) % 2) == r by {
      NoCarry(2 * s.r);
      OrBit(2 * s.r, Shr(dividend, i) % 2);
    }
    assert Or(s.q, Pow2(i)) == s.q + Pow2(i) by {
      OrOfClearBit(s.q, i);
    }
  }

  lemma NoCarry(x: nat)
    requires x < TWO64
    ensures x % TWO64 == x
  {
  }

  /** One turn; the remainder never exceeds the part of the dividend seen, so the shift loses no bit. */
  lemma TurnStands(dividend: uint64, divisor: uint64, n: nat, s: State, k: nat) returns (k': nat)
    requires n < 64 && Stands(dividend, divisor, n, s, k)
    ensures 2 * s.r < TWO64
    ensures Stands(dividend, divisor, n + 1, Turn(dividend, divisor, 63 - n, s), k')
  {
    var i := 63 - n;
    var r := 2 * s.r + Shr(dividend, i) % 2;
    assert Shr(dividend, i) == 2 * Times(k, divisor) + r && Shr(dividend, i) <= dividend by {
      ShrStep(dividend, i);
    }
    assert Turn(dividend, divisor, i, s) ==
           if r >= divisor then State(s.q + Pow2(i), r - divisor) else State(s.q, r) by {
      ShlClear(k, i);
      TurnValue(dividend, divisor, i, s, r);
    }
    ShlStep(k, i);
    TimesDouble(k, divisor);
    k' := if r >= divisor then 2 * k + 1 else 2 * k;
    TurnedStands(dividend, divisor, n, s, k, r, k');
  }

  lemma TurnedStands(dividend: uint64, divisor: uint64, n: nat, s: State, k: nat, r: nat, k': nat)
    requires n < 64 && Stands(dividend, divisor, n, s, k) && (divisor > 0 ==> s.r < divisor)
    requires Shr(dividend, 63 - n) == 2 * Times(k, divisor) + r && r <= 2 * s.r + 1
    requires k' == if r >= divisor then 2 * k + 1 else 2 * k
    requires Shl(k', 63 - n) == if r >= divisor then s.q + Pow2(63 - n) else s.q
    requires Times(k', divisor) == if r >= divisor then 2 * Times(k, divisor) + divisor else 2 * Times(k, divisor)
    ensures Stands(dividend, divisor, n + 1,
                   if r >= divisor then State(s.q + Pow2(63 - n), r - divisor) else State(s.q, r), k')
  {
  }

  lemma {:induction false} TurnsStand(dividend: uint64, divisor: uint64, n: nat) returns (k: nat)
    requires n <= 64
    ensures Stands(dividend, divisor, n, Turns(dividend, divisor, n), k)
  {
    if n == 0 {
      k := 0;
      TwoTo64();
      ShrOut(dividend, 64);
      ShlBound(0, 0, 64);
    } else {
      var j := TurnsStand(dividend, divisor, n - 1);
      k := TurnStands(dividend, divisor, n - 1, Turns(dividend, divisor, n - 1), j);
    }
  }

  /** At no turn does the shift push a bit out of the 64-bit remainder, however large the divisor. */
  lemma NoBitLost(dividend: uint64, divisor: uint64, n: nat)
    requires n < 64
    ensures 2 * Turns(dividend, divisor, n).r < TWO64
  {
    var k := TurnsStand(dividend, divisor, n);
    var _ := TurnStands(dividend, divisor, n, Turns(dividend, divisor, n), k);
  }

  /** The loop divides exactly; dividing by zero gives the largest quotient and the dividend back. */
  lemma DivisionExact(dividend: uint64, divisor: uint64)
    ensures var s := Turns(dividend, divisor, 64);
            if divisor == 0 then s == State(TWO64 - 1, dividend)
            else s == State(dividend / divisor, dividend % divisor)
  {
    var s := Turns(dividend, divisor, 64);
    var k := TurnsStand(dividend, divisor, 64);
    assert Shl(k, 0) == k && Shr(dividend, 0) == dividend;
    if divisor == 0 {
      TwoTo64();
      TimesIsProduct(k, 0);
    } else {
      TimesIsProduct(k, divisor);
      DivModUnique(dividend, divisor, k, s.r);
    }
  }

  /** The quotient and remainder fit their 64-bit variables after every turn. */
  lemma TurnsFit(dividend: uint64, divisor: uint64, n: nat)
    requires n <= 64
    ensures Turns(dividend, divisor, n).q < TWO64 && Turns(dividend, divisor, n).r < TWO64
  {
    var s := Turns(dividend, divisor, n);
    var k := TurnsStand(dividend, divisor, n);
    ShrStep(dividend, 64 - n);
    if divisor == 0 {
      TwoTo64();
      ShlOnes(k, n, 64 - n);
    } else {
      TimesAtLeast(k, divisor);
      ShlBound(dividend, k, 64 - n);
    }
  }

  /** `udivmod64` */
  method Udivmod64(dividend: uint64, divisor: uint64) returns (quotient: uint64, remainder: uint64)
    ensures divisor > 0 ==> quotient == dividend / divisor && remainder == dividend % divisor
    ensures divisor == 0 ==> quotient == TWO64 - 1 && remainder == dividend
  {
    var q: uint64 := 0;
    var r: uint64 := 0;
    var i := 63;
    while i >= 0
      invariant -1 <= i <= 63
      invariant State(q, r) == Turns(dividend, divisor, 63 - i)
    {
      TurnsFit(dividend, divisor, 64 - i);
      NoBitLost(dividend, divisor, 63 - i);
      q, r := LoopBody(dividend, divisor, i, q, r);
      i := i - 1;
    }
    DivisionExact(dividend, divisor);
    return q, r;
  }

  /** One turn of the loop, which the 64-bit variables can hold. */
  method LoopBody(dividend: uint64, divisor: uint64, i: nat, q: uint64, r: uint64) returns (q': uint64, r': uint64)
    requires 2 * r < TWO64
    requires Turn(dividend, divisor, i, State(q, r)).q < TWO64
    ensures State(q', r') == Turn(dividend, divisor, i, State(q, r))
  {
    q' := q;
    NoCarry(2 * r);
    OrBit(2 * r, Shr(dividend, i) % 2);
    r' := Or(2 * r % TWO64, Shr(dividend, i) % 2);
    if r' >= divisor {
      r' := r' - divisor;
      q' := Or(q', Pow2(i));
    }
  }
}
