/**
 * Numbers as text: the printers and the reader of kernel/string.c and the 64-bit printer of kernel/multiboot.c, the
 * numerals they stand for, and the way back from a numeral to its value.
 */
module Numerals {
  import opened Words
  import opened Division

  const HEX_DIGITS := "0123456789abcdef"

  /** Digit `d` of a base up to 16. */
  function Digit(d: nat): char
    requires d < 16
  {
    if d < 10 then '0' + d as char else 'a' + (d - 10) as char
  }

  lemma HexTable(d: nat)
    requires d < 16
    ensures HEX_DIGITS[d] == Digit(d)
  {
  }

  /** `n / b` and `n % b`, by repeated subtraction. */
  function Quotient(n: nat, b: nat): (q: nat)
    requires 2 <= b
    ensures n < b ==> q == 0
    ensures n >= b ==> 0 < q < n
  {
    if n < b then 0 else 1 + Quotient(n - b, b)
  }

  function Remainder(n: nat, b: nat): (r: nat)
    requires 2 <= b
    ensures r < b
  {
    if n < b then n else Remainder(n - b, b)
  }

  lemma {:induction false} DivisionParts(n: nat, b: nat)
    requires 2 <= b
    ensures Times(Quotient(n, b), b) + Remainder(n, b) == n
  {
    if n >= b {
      DivisionParts(n - b, b);
    }
  }

  lemma QuotientIsDivision(n: nat, b: nat)
    requires 2 <= b
    ensures n / b == Quotient(n, b) && n % b == Remainder(n, b)
  {
    DivisionParts(n, b);
    TimesIsProduct(Quotient(n, b), b);
    DivModUnique(n, b, Quotient(n, b), Remainder(n, b));
  }

  /** The numeral of `n`, most significant digit first. */
  function Numeral(n: nat, base: nat): (s: string)
    requires 2 <= base <= 16
    ensures s != []
  {
    if n < base then [Digit(n)] else Numeral(Quotient(n, base), base) + [Digit(Remainder(n, base))]
  }

  /** The value of a digit in bases up to 16, and 16 for any other character. */
  function Value(c: char): nat {
    if '0' <= c <= '9' then c as int - '0' as int
    else if 'a' <= c <= 'f' then c as int - 'a' as int + 10
    else 16
  }

  function Parse(s: string, base: nat): nat {
    if s == "" then 0 else Times(Parse(s[..|s| - 1], base), base) + Value(s[|s| - 1])
  }

  lemma {:induction false} NumeralParses(n: nat, base: nat)
    requires 2 <= base <= 16
    ensures Parse(Numeral(n, base), base) == n
  {
    var s := Numeral(n, base);
    if n >= base {
      assert s[..|s| - 1] == Numeral(Quotient(n, base), base);
      NumeralParses(Quotient(n, base), base);
      DivisionParts(n, base);
    } else {
      assert s[..|s| - 1] == "";
    }
  }

  /** A numeral starts with a zero only when it is zero, and has only digits of its base. */
  lemma {:induction false} NumeralDigits(n: nat, base: nat)
    requires 2 <= base <= 16
    ensures Numeral(n, base)[0] == '0' <==> n == 0
    ensures forall i :: 0 <= i < |Numeral(n, base)| ==> Value(Numeral(n, base)[i]) < base
  {
    if n >= base {
      NumeralDigits(Quotient(n, base), base);
    }
  }

  function Power(base: nat, k: nat): nat {
    if k == 0 then 1 else Times(Power(base, k - 1), base)
  }

  lemma {:induction false} TimesMonotone(a: nat, b: nat, c: nat, d: nat)
    requires a <= b && c <= d
    ensures Times(a, c) <= Times(b, d)
    ensures a < b && 0 < d ==> Times(a, c) + d <= Times(b, d)
    decreases b
  {
    if a > 0 {
      TimesMonotone(a - 1, b - 1, c, d);
    } else if b > 1 {
      TimesMonotone(0, b - 1, c, d);
    }
  }

  lemma {:induction false} NumeralLength(n: nat, base: nat, k: nat)
    requires 2 <= base <= 16 && n < Power(base, k) && 0 < k
    ensures |Numeral(n, base)| <= k
  {
    if n >= base {
      var q, p := Quotient(n, base), Power(base, k - 1);
      DivisionParts(n, base);
      if q >= p {
        TimesMonotone(p, q, base, base);
      }
      assert q < p && 1 < k;
      NumeralLength(q, base, k - 1);
    }
  }

  /** Sixty-four digits always suffice, and sixteen in base 16, so a 32-byte buffer holds those. */
  lemma NumeralFits(n: uint64, base: nat)
    requires 2 <= base <= 16
    ensures |Numeral(n, base)| <= 64
    ensures base == 16 ==> |Numeral(n, base)| <= 16
  {
    TwoTo64();
    PowerTwo(64);
    PowerMonotone(2, base, 64);
    NumeralLength(n, base, 64);
    if base == 16 {
      PowerSixteen(16);
      NumeralLength(n, 16, 16);
    }
  }

  lemma {:induction false} PowerTwo(k: nat)
    ensures Power(2, k) == Pow2(k)
  {
    if k > 0 {
      PowerTwo(k - 1);
      TimesIsProduct(Pow2(k - 1), 2);
    }
  }

  lemma {:induction false} PowerSixteen(k: nat)
    ensures Power(16, k) == Pow2(4 * k)
  {
    if k > 0 {
      PowerSixteen(k - 1);
      Pow2Four(4 * (k - 1));
      TimesIsProduct(Power(16, k - 1), 16);
    }
  }

  lemma {:induction false} PowerMonotone(a: nat, b: nat, k: nat)
    requires a <= b
    ensures Power(a, k) <= Power(b, k)
  {
    if k > 0 {
      PowerMonotone(a, b, k - 1);
      TimesMonotone(Power(a, k - 1), Power(b, k - 1), a, b);
    }
  }

  // ------------------------------------------------------------------
  // Buffers
  // ------------------------------------------------------------------

  const NUL: char := '\0'

  function Reversed(s: string): (r: string)
    ensures |r| == |s|
    ensures forall i :: 0 <= i < |s| ==> r[i] == s[|s| - 1 - i]
  {
    if s == "" then "" else Reversed(s[1..]) + [s[0]]
  }

  /** The digits of `n`, least significant first, as the loops produce them. */
  function Digits(n: nat, base: nat): string
    requires 2 <= base <= 16
  {
    if n < base then [Digit(n)] else [Digit(Remainder(n, base))] + Digits(Quotient(n, base), base)
  }

  lemma {:induction false} DigitsReversed(n: nat, base: nat)
    requires 2 <= base <= 16
    ensures Digits(n, base) == Reversed(Numeral(n, base))
  {
    if n >= base {
      DigitsReversed(Quotient(n, base), base);
      ReversedAppend(Numeral(Quotient(n, base), base), Digit(Remainder(n, base)));
    }
  }

  lemma {:induction false} ReversedAppend(s: string, c: char)
    ensures Reversed(s + [c]) == [c] + Reversed(s)
  {
    if s != "" {
      assert (s + [c])[1..] == s[1..] + [c];
      ReversedAppend(s[1..], c);
    } else {
      assert s + [c] == [c];
    }
  }

  /** The loops that turn the digits round: swap from both ends of the first `n` characters. */
  method ReverseInPlace(dest: array<char>, n: nat)
    requires n <= dest.Length
    modifies dest
    ensures dest[..n] == Reversed(old(dest[..n]))
    ensures dest[n..] == old(dest[n..])
  {
    var j, k := 0, n - 1;
    while j < k
      invariant 0 <= j <= n && k == n - 1 - j && j <= k + 1
      invariant forall i :: 0 <= i < j ==> dest[i] == old(dest[n - 1 - i]) && dest[n - 1 - i] == old(dest[i])
      invariant forall i :: j <= i <= k ==> dest[i] == old(dest[i])
      invariant forall i :: n <= i < dest.Length ==> dest[i] == old(dest[i])
    {
      var temp := dest[j];
      dest[j] := dest[k];
      dest[k] := temp;
      j := j + 1;
      k := k - 1;
    }
    IsReversed(dest[..n], old(dest[..n]));
  }

  lemma IsReversed(s: string, t: string)
    requires |s| == |t| && forall i :: 0 <= i < |s| ==> s[i] == t[|t| - 1 - i]
    ensures s == Reversed(t)
  {
  }

  // ------------------------------------------------------------------
  // Printing
  // ------------------------------------------------------------------

  /** The buffer starts with the text and a NUL, and is otherwise as it was. */
  predicate Holds(buffer: seq<char>, before: seq<char>, text: string) {
    && |buffer| == |before| && |text| < |buffer|
    && buffer[..|text|] == text && buffer[|text|] == NUL && buffer[|text| + 1..] == before[|text| + 1..]
  }

  /** `n` without its last `i` digits. */
  function Dropped(n: nat, i: nat, base: nat): nat
    requires 2 <= base
    decreases i
  {
    if i == 0 then n else Dropped(Quotient(n, base), i - 1, base)
  }

  lemma {:induction false} DroppedStep(n: nat, i: nat, base: nat)
    requires 2 <= base
    ensures Dropped(n, i + 1, base) == Quotient(Dropped(n, i, base), base)
    decreases i
  {
    if i > 0 {
      DroppedStep(Quotient(n, base), i - 1, base);
    }
  }

  /** The `i`-th turn of a printing loop writes the `i`-th digit, and is the last one when nothing is left. */
  lemma {:induction false} DigitsAt(n: nat, i: nat, base: nat)
    requires 2 <= base <= 16 && (i == 0 || Dropped(n, i, base) != 0)
    ensures i < |Digits(n, base)| && Digits(n, base)[i] == Digit(Remainder(Dropped(n, i, base), base))
    ensures Dropped(n, i + 1, base) == 0 <==> |Digits(n, base)| == i + 1
    decreases i
  {
    if i == 0 {
      assert Dropped(n, 1, base) == Quotient(n, base);
    } else {
      if n < base {
        DroppedZero(i - 1, base);
      }
      DigitsAt(Quotient(n, base), i - 1, base);
    }
  }

  lemma {:induction false} DroppedZero(i: nat, base: nat)
    requires 2 <= base
    ensures Dropped(0, i, base) == 0
    decreases i
  {
    if i > 0 {
      DroppedZero(i - 1, base);
    }
  }

  /** One turn of a printing loop, with the code's division. */
  lemma PrintStep(n: nat, i: nat, base: nat, rest: nat)
    requires 2 <= base <= 16 && rest == Dropped(n, i, base) && (i == 0 || rest != 0)
    ensures 0 <= rest / base && (rest != 0 ==> rest / base < rest) && rest / base == Dropped(n, i + 1, base)
    ensures i < |Digits(n, base)| && Digits(n, base)[i] == Digit(rest % base)
    ensures rest / base == 0 <==> |Digits(n, base)| == i + 1
  {
    QuotientIsDivision(rest, base);
    DroppedStep(n, i, base);
    DigitsAt(n, i, base);
  }

  /** Terminating and reversing digits that have been written in order. */
  method Finish(dest: array<char>, i: nat, ghost before: seq<char>, ghost n: nat, ghost base: nat)
    requires 2 <= base <= 16 && i < dest.Length && |before| == dest.Length
    requires dest[..i] == Digits(n, base) && dest[i..] == before[i..]
    modifies dest
    ensures Holds(dest[..], before, Numeral(n, base))
  {
    dest[i] := NUL;
    ReverseInPlace(dest, i);
    DigitsReversed(n, base);
    ReversedTwice(Numeral(n, base));
    assert dest[i..][1..] == before[i + 1..];
  }

  lemma ReversedTwice(s: string)
    ensures Reversed(Reversed(s)) == s
  {
    assert forall i :: 0 <= i < |s| ==> Reversed(Reversed(s))[i] == s[i];
  }

  /** `int_to_str` */
  method IntToStr(num: uint32, dest: array<char>)
    requires |Numeral(num, 10)| < dest.Length
    modifies dest
    ensures Holds(dest[..], old(dest[..]), Numeral(num, 10))
  {
    ghost var before, digits := dest[..], Digits(num, 10);
    DigitsReversed(num, 10);
    var n: nat := num;
    var i := 0;
    PrintStep(num, i, 10, n);
    dest[i] := '0' + (n % 10) as char;
    i := i + 1;
    n := n / 10;
    while n != 0
      invariant 1 <= i <= |digits| && n == Dropped(num, i, 10) && (n == 0 <==> i == |digits|)
      invariant forall j :: 0 <= j < i ==> dest[j] == digits[j]
      invariant forall j :: i <= j < dest.Length ==> dest[j] == before[j]
      decreases n
    {
      PrintStep(num, i, 10, n);
      dest[i] := '0' + (n % 10) as char;
      i := i + 1;
      n := n / 10;
    }
    assert dest[..i] == digits && dest[i..] == before[i..];
    Finish(dest, i, before, num, 10);
  }

  /** `uint64_to_str` */
  method Uint64ToStr(value: uint64, str: array<char>, base: nat)
    requires 2 <= base <= 16 && |Numeral(value, base)| < str.Length
    modifies str
    ensures Holds(str[..], old(str[..]), Numeral(value, base))
  {
    ghost var before, digits := str[..], Digits(value, base);
    DigitsReversed(value, base);
    var rest: uint64 := value;
    var ptr := 0;
    PrintStep(value, ptr, base, rest);
    var quotient, remainder := Udivmod64(rest, base);
    rest := quotient;
    HexTable(remainder);
    str[ptr] := HEX_DIGITS[remainder];
    ptr := ptr + 1;
    while rest != 0
      invariant 1 <= ptr <= |digits| && rest == Dropped(value, ptr, base) && (rest == 0 <==> ptr == |digits|)
      invariant forall j :: 0 <= j < ptr ==> str[j] == digits[j]
      invariant forall j :: ptr <= j < str.Length ==> str[j] == before[j]
      decreases rest
    {
      PrintStep(value, ptr, base, rest);
      quotient, remainder := Udivmod64(rest, base);
      rest := quotient;
      HexTable(remainder);
      str[ptr] := HEX_DIGITS[remainder];
      ptr := ptr + 1;
    }
    assert str[..ptr] == digits && str[ptr..] == before[ptr..];
    Finish(str, ptr, before, value, base);
  }

  /** The last `k` hexadecimal digits of `n`. */
  function Hex(n: nat, k: nat): (s: string)
    ensures |s| == k
  {
    if k == 0 then "" else Hex(Quotient(n, 16), k - 1) + [Digit(Remainder(n, 16))]
  }

  function Fill(c: char, k: nat): (s: string)
    ensures |s| == k
  {
    if k == 0 then "" else [c] + Fill(c, k - 1)
  }

  function Zeros(k: nat): (s: string)
    ensures |s| == k
  {
    Fill('0', k)
  }

  lemma {:induction false} FillHas(c: char, k: nat, i: nat)
    requires i < k
    ensures Fill(c, k)[i] == c
  {
    if i > 0 {
      FillHas(c, k - 1, i - 1);
    }
  }

  /** Leading zeros do not count. */
  lemma {:induction false} ParseZeros(k: nat, s: string, base: nat)
    ensures Parse(Zeros(k) + s, base) == Parse(s, base)
    decreases |s|, k
  {
    if s != "" {
      var n := |s| - 1;
      assert (Zeros(k) + s)[..k + n] == Zeros(k) + s[..n];
      ParseZeros(k, s[..n], base);
    } else if k > 0 {
      FillAppend('0', k - 1);
      assert Zeros(k) + s == Zeros(k - 1) + ['0'] && (Zeros(k - 1) + ['0'])[..k - 1] == Zeros(k - 1) + "";
      ParseZeros(k - 1, "", base);
      TimesIsProduct(0, base);
    }
  }

  /** The digits `int_to_hex_str` writes stand for the number in base 16. */
  lemma HexParses(n: uint32)
    ensures Parse(Hex(n, 8), 16) == n
    ensures forall i :: 0 <= i < 8 ==> Value(Hex(n, 8)[i]) < 16
  {
    HexWord(n);
    NumeralParses(n, 16);
    NumeralDigits(n, 16);
    var k := 8 - |Numeral(n, 16)|;
    ParseZeros(k, Numeral(n, 16), 16);
    forall i | 0 <= i < 8
      ensures Value(Hex(n, 8)[i]) < 16
    {
      if i < k {
        FillHas('0', k, i);
      }
    }
  }

  lemma {:induction false} HexOfZero(k: nat)
    ensures Hex(0, k) == Zeros(k)
  {
    if k > 0 {
      HexOfZero(k - 1);
      FillAppend('0', k - 1);
    }
  }

  lemma {:induction false} FillAppend(c: char, k: nat)
    ensures Fill(c, k) + [c] == [c] + Fill(c, k)
  {
    if k > 0 {
      FillAppend(c, k - 1);
      assert Fill(c, k) + [c] == [c] + (Fill(c, k - 1) + [c]);
    }
  }

  /** Eight hexadecimal digits are the base-16 numeral behind leading zeros. */
  lemma {:induction false} HexIsPaddedNumeral(n: nat, k: nat)
    requires n < Power(16, k) && 0 < k
    ensures |Numeral(n, 16)| <= k
    ensures Hex(n, k) == Zeros(k - |Numeral(n, 16)|) + Numeral(n, 16)
  {
    NumeralLength(n, 16, k);
    if n < 16 {
      HexOfZero(k - 1);
    } else {
      var q := Quotient(n, 16);
      DivisionParts(n, 16);
      if q >= Power(16, k - 1) {
        TimesMonotone(Power(16, k - 1), q, 16, 16);
      }
      assert 1 < k;
      HexIsPaddedNumeral(q, k - 1);
      assert k - |Numeral(n, 16)| == k - 1 - |Numeral(q, 16)|;
    }
  }

  lemma HexWord(n: uint32)
    ensures |Numeral(n, 16)| <= 8 && Hex(n, 8) == Zeros(8 - |Numeral(n, 16)|) + Numeral(n, 16)
  {
    TwoTo32();
    PowerSixteen(8);
    HexIsPaddedNumeral(n, 8);
  }

  /** The digits from position `8 - i` on are those the loop has written after `i` turns. */
  lemma {:induction false} HexTail(n: nat, i: nat, k: nat)
    requires i < k
    ensures Hex(n, k)[k - 1 - i] == Digit(Remainder(Dropped(n, i, 16), 16))
  {
    if i > 0 {
      HexTail(Quotient(n, 16), i - 1, k - 1);
    }
  }

  /** `int_to_hex_str` */
  method IntToHexStr(num: uint32, dest: array<char>)
    requires 8 < dest.Length
    modifies dest
    ensures Holds(dest[..], old(dest[..]), Hex(num, 8))
  {
    ghost var before := dest[..];
    var n: nat := num;
    for i := 0 to 8
      invariant n == Dropped(num, i, 16)
      invariant forall j :: 8 - i <= j < 8 ==> dest[j] == Hex(num, 8)[j]
      invariant forall j :: 8 <= j < dest.Length ==> dest[j] == before[j]
    {
      QuotientIsDivision(n, 16);
      DroppedStep(num, i, 16);
      HexTail(num, i, 8);
      HexTable(n % 16);
      dest[7 - i] := HEX_DIGITS[n % 16];
      n := n / 16;
    }
    dest[8] := NUL;
    assert dest[..8] == Hex(num, 8);
  }

  // ------------------------------------------------------------------
  // Reading
  // ------------------------------------------------------------------

  const MAX_STRING_LEN := 512

  /** The characters of a C string: those of `s`, then a NUL. */
  function CharAt(s: string, i: nat): char {
    if i < |s| then s[i] else NUL
  }

  /** A C string cannot hold a NUL. */
  predicate CString(s: string) {
    NUL !in s
  }

  /** The C string a buffer holds: what comes before its first NUL. */
  function TextOf(s: seq<char>): (t: string)
    ensures |t| <= |s| && t == s[..|t|] && CString(t) && CharAt(s, |t|) == NUL
  {
    if s == [] || s[0] == NUL then "" else [s[0]] + TextOf(s[1..])
  }

  lemma {:induction false} TextOfPrefix(s: seq<char>, n: nat)
    requires n <= |s| && CString(s[..n]) && CharAt(s, n) == NUL
    ensures TextOf(s) == s[..n]
    decreases n
  {
    if n > 0 {
      assert s[0] == s[..n][0] && s[1..][..n - 1] == s[..n][1..];
      TextOfPrefix(s[1..], n - 1);
    }
  }

  /** `strlen`: the length, or all ones for a string it does not find the end of in time. */
  function Length(s: seq<char>): uint32 {
    if |TextOf(s)| < MAX_STRING_LEN then |TextOf(s)| else 0xFFFF_FFFF
  }

  method Strlen(s: seq<char>) returns (r: uint32)
    ensures r == Length(s)
  {
    var i := 0;
    while i < MAX_STRING_LEN
      invariant 0 <= i <= MAX_STRING_LEN && i <= |TextOf(s)|
    {
      if CharAt(s, i) == NUL {
        return i;
      }
      i := i + 1;
    }
    return 0xFFFF_FFFF;
  }

  const INT_MAX := 0x7FFF_FFFF

  /** `res * 10 + c` and then `- '0'`, over the whole string. */
  function Read(s: string): int {
    if s == "" then 0 else Read(s[..|s| - 1]) * 10 + s[|s| - 1] as int - '0' as int
  }

  /** No step of `atoi` leaves the range of an `int`. */
  predicate InRange(s: string) {
    s == "" || (
      var n := |s| - 1;
      && InRange(s[..n])
      && -INT_MAX - 1 <= Read(s[..n]) * 10 && Read(s[..n]) * 10 + s[n] as int <= INT_MAX
      && -INT_MAX - 1 <= Read(s))
  }

  lemma {:induction false} InRangePrefix(s: string, i: nat)
    requires InRange(s) && i <= |s|
    ensures InRange(s[..i])
    decreases |s|
  {
    if i < |s| {
      InRangePrefix(s[..|s| - 1], i);
      assert s[..|s| - 1][..i] == s[..i];
    } else {
      assert s[..i] == s;
    }
  }

  /** `atoi` */
  method Atoi(str: string) returns (res: int)
    requires CString(str) && InRange(str)
    ensures res == Read(str)
  {
    res := 0;
    var i := 0;
    while CharAt(str, i) != NUL
      invariant 0 <= i <= |str| && res == Read(str[..i])
      decreases |str| - i
    {
      InRangePrefix(str, i + 1);
      assert str[..i + 1][..i] == str[..i];
      res := res * 10 + str[i] as int - '0' as int;
      i := i + 1;
    }
    assert str[..i] == str;
  }

  /** Reading on by one character, whatever it is. */
  lemma ReadNext(s: string, c: char)
    ensures Read("") == 0 && Read(s + [c]) == Read(s) * 10 + c as int - 48
  {
    assert (s + [c])[..|s|] == s;
  }

  /** A string of decimal digits, leading zeros or not, is read as the number it is the numeral of. */
  lemma {:induction false} ReadDigits(s: string)
    requires forall i :: 0 <= i < |s| ==> '0' <= s[i] <= '9'
    ensures Read(s) == Parse(s, 10)
    decreases |s|
  {
    if s != "" {
      ReadDigits(s[..|s| - 1]);
      TimesIsProduct(Parse(s[..|s| - 1], 10), 10);
    }
  }

  /** `atoi` undoes `int_to_str`. */
  lemma {:induction false} ReadNumeral(n: nat)
    ensures Read(Numeral(n, 10)) == n
  {
    var s := Numeral(n, 10);
    if n >= 10 {
      assert s[..|s| - 1] == Numeral(Quotient(n, 10), 10);
      ReadNumeral(Quotient(n, 10));
      DivisionParts(n, 10);
      TimesIsProduct(Quotient(n, 10), 10);
    } else {
      assert s[..|s| - 1] == "";
    }
  }

  /**
   * ... for the numbers `atoi` can read at all: the last digit is added with the code of '0' still in it, so the top
   * forty-eight values of an `int` overflow on the way.
   */
  lemma {:induction false} ReadableNumerals(n: nat)
    ensures InRange(Numeral(n, 10)) <==> n + 48 <= INT_MAX
  {
    var s := Numeral(n, 10);
    ReadNumeral(n);
    if n >= 10 {
      var q := Quotient(n, 10);
      assert s[..|s| - 1] == Numeral(q, 10);
      ReadNumeral(q);
      ReadableNumerals(q);
      DivisionParts(n, 10);
      TimesIsProduct(q, 10);
    } else {
      assert s[..|s| - 1] == "";
    }
  }
}
