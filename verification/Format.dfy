/**
 * The formatter of kernel/string.c: two cursors over the format, what they write, and the rendering of a format and its
 * arguments that this amounts to, with the widths of the fields padded on the way.
 */
module Format {
  import opened Words
  import opened Division
  import opened Numerals

  /** A variadic argument. */
  datatype Arg = Text(text: string) | Number(value: uint32) | Character(c: char)

  // ------------------------------------------------------------------
  // What a format means
  // ------------------------------------------------------------------

  predicate IsDigit(c: char) {
    '0' <= c <= '9'
  }

  /** How many digits a string starts with. */
  function DigitRun(f: string): (n: nat)
    ensures n <= |f|
    ensures forall i :: 0 <= i < n ==> IsDigit(f[i])
    ensures n < |f| ==> !IsDigit(f[n])
  {
    if f == "" || !IsDigit(f[0]) then 0 else 1 + DigitRun(f[1..])
  }

  /** The zeros that bring `length` characters up to the padding. */
  function Padding(padding: int, length: int): nat {
    if padding > length then padding - length else 0
  }

  /** `strlen` as a signed number: -1 for a string whose end it does not find. */
  function SignedLength(s: string): int {
    if |s| < MAX_STRING_LEN then |s| else -1
  }

  /** What a directive writes: zeros, then its argument; unknown directives write nothing. */
  function Field(directive: char, padding: int, arg: Arg): string {
    match arg
    case Text(text) => if directive == 's' then Zeros(Padding(padding, SignedLength(text))) + text else ""
    case Number(value) =>
      if directive == 'd' then Zeros(Padding(padding, |Numeral(value, 10)|)) + Numeral(value, 10)
      else if directive == 'x' then Zeros(Padding(padding, 8)) + Hex(value, 8)
      else ""
    case Character(c) => if directive == 'c' then Zeros(Padding(padding, 1)) + [c] else ""
  }

  predicate TakesArgument(directive: char) {
    directive == 's' || directive == 'd' || directive == 'x' || directive == 'c'
  }

  /** The argument is of the kind the directive reads. */
  predicate Suits(directive: char, arg: Arg) {
    match arg
    case Text(text) => directive == 's' && CString(text)
    case Number(_) => directive == 'd' || directive == 'x'
    case Character(_) => directive == 'c'
  }

  /**
   * No directive is cut short, no padding overflows an `int`, and every argument read is there and of the right kind.
   */
  predicate WellFormed(f: string, args: seq<Arg>)
    decreases |f|
  {
    if f == "" then true
    else if f[0] != '%' then WellFormed(f[1..], args)
    else
      var n := DigitRun(f[1..]);
      && n + 1 < |f| && Read(f[1..n + 1]) <= INT_MAX
      && (if TakesArgument(f[n + 1]) then args != [] && Suits(f[n + 1], args[0]) && WellFormed(f[n + 2..], args[1..])
          else WellFormed(f[n + 2..], args))
  }

  function Render(f: string, args: seq<Arg>): string
    requires WellFormed(f, args)
    decreases |f|
  {
    if f == "" then ""
    else if f[0] != '%' then [f[0]] + Render(f[1..], args)
    else
      var n := DigitRun(f[1..]);
      if TakesArgument(f[n + 1]) then Field(f[n + 1], Read(f[1..n + 1]), args[0]) + Render(f[n + 2..], args[1..])
      else Render(f[n + 2..], args)
  }

  /** A field is padded to exactly the width asked for, unless it holds a string `strlen` cannot measure. */
  lemma FieldWidth(directive: char, padding: nat, arg: Arg)
    requires Suits(directive, arg)
    ensures var width := match arg
              case Text(text) => |text|
              case Number(v) => if directive == 'd' then |Numeral(v, 10)| else 8
              case Character(_) => 1;
            |Field(directive, padding, arg)| == (if padding > width then padding else width)
            <==> !(arg.Text? && |arg.text| >= MAX_STRING_LEN)
  {
  }

  /** The argument a directive reads is there. */
  predicate CanRead(directive: char, list: seq<Arg>) {
    TakesArgument(directive) ==> list != [] && Suits(directive, list[0])
  }

  /** What a directive writes, given the arguments not read yet, and the arguments it leaves. */
  function Written(directive: char, padding: int, list: seq<Arg>): string
    requires CanRead(directive, list)
  {
    if TakesArgument(directive) then Field(directive, padding, list[0]) else ""
  }

  function Left(directive: char, list: seq<Arg>): seq<Arg>
    requires CanRead(directive, list)
  {
    if TakesArgument(directive) then list[1..] else list
  }

  // ------------------------------------------------------------------
  // What is written
  // ------------------------------------------------------------------

  predicate AllDigits(s: string) {
    forall i :: 0 <= i < |s| ==> IsDigit(s[i])
  }

  /** A format that is one directive. */
  function Directing(digits: string, letter: char): string {
    ['%'] + digits + [letter]
  }

  lemma {:induction false} DigitRunOf(digits: string, rest: string)
    requires AllDigits(digits) && rest != "" && !IsDigit(rest[0])
    ensures DigitRun(digits + rest) == |digits|
    decreases digits
  {
    if digits != "" {
      assert (digits + rest)[1..] == digits[1..] + rest;
      DigitRunOf(digits[1..], rest);
    } else {
      assert digits + rest == rest;
    }
  }

  /** The cuts a directive's format is read in. */
  lemma DirectingParts(digits: string, letter: char)
    requires AllDigits(digits) && !IsDigit(letter)
    ensures var f, n := Directing(digits, letter), |digits|;
            && |f| == n + 2 && f[0] == '%' && DigitRun(f[1..]) == n && f[1..n + 1] == digits && f[n + 1] == letter
            && f[n + 2..] == ""
  {
    assert Directing(digits, letter)[1..] == digits + [letter];
    DigitRunOf(digits, [letter]);
  }

  lemma OneField(digits: string, letter: char, arg: Arg)
    requires AllDigits(digits) && Read(digits) <= INT_MAX && TakesArgument(letter) && Suits(letter, arg)
    ensures WellFormed(Directing(digits, letter), [arg])
    ensures Render(Directing(digits, letter), [arg]) == Field(letter, Read(digits), arg)
  {
    DirectingParts(digits, letter);
    assert [arg][1..] == [];
  }

  /** Zeros up to position `k`. */
  predicate ZerosTo(r: string, k: nat) {
    k <= |r| && forall i :: 0 <= i < k ==> r[i] == '0'
  }

  lemma PaddedParts(k: nat, s: string)
    ensures ZerosTo(Zeros(k) + s, k) && (Zeros(k) + s)[k..] == s
  {
    forall i | 0 <= i < k
      ensures (Zeros(k) + s)[i] == '0'
    {
      FillHas('0', k, i);
    }
  }

  /** `%s` writes the text, character for character, behind zeros: one too many of those when it is too long. */
  lemma TextWritten(digits: string, text: string)
    requires AllDigits(digits) && Read(digits) <= INT_MAX && CString(text)
    ensures WellFormed(Directing(digits, 's'), [Text(text)])
    ensures var r, p := Render(Directing(digits, 's'), [Text(text)]), Read(digits);
            var k := if |text| >= MAX_STRING_LEN then p + 1 else if p > |text| then p - |text| else 0;
            0 <= k && ZerosTo(r, k) && r[k..] == text
  {
    OneField(digits, 's', Text(text));
    ReadGrows(digits, 0);
    PaddedParts(Padding(Read(digits), SignedLength(text)), text);
  }

  /** From position `k` on a numeral without leading zeros that stands for the value in base 10. */
  predicate NumeralFrom(r: string, k: nat, value: nat) {
    && k < |r| && Parse(r[k..], 10) == value && (r[k] == '0' <==> value == 0)
    && forall i :: k <= i < |r| ==> '0' <= r[i] <= '9'
  }

  lemma NumeralBehind(zeros: string, value: nat)
    ensures NumeralFrom(zeros + Numeral(value, 10), |zeros|, value)
  {
    var s := Numeral(value, 10);
    NumeralParses(value, 10);
    NumeralDigits(value, 10);
    assert (zeros + s)[|zeros|..] == s;
    forall i | |zeros| <= i < |zeros + s|
      ensures '0' <= (zeros + s)[i] <= '9'
    {
      assert Value(s[i - |zeros|]) < 10;
    }
  }

  /** `%d` writes such a numeral behind the zeros of the padding. */
  lemma NumberWritten(digits: string, value: uint32)
    requires AllDigits(digits) && Read(digits) <= INT_MAX
    ensures WellFormed(Directing(digits, 'd'), [Number(value)])
    ensures var r, p := Render(Directing(digits, 'd'), [Number(value)]), Read(digits);
            exists k: nat :: NumeralFrom(r, k, value) && ZerosTo(r, k) && (if k > 0 then |r| == p else |r| >= p)
  {
    OneField(digits, 'd', Number(value));
    var k := Padding(Read(digits), |Numeral(value, 10)|);
    PaddedParts(k, Numeral(value, 10));
    NumeralBehind(Zeros(k), value);
  }

  /** `%x` writes eight digits that stand for the value in base 16, behind the zeros of the padding. */
  lemma HexWritten(digits: string, value: uint32)
    requires AllDigits(digits) && Read(digits) <= INT_MAX
    ensures WellFormed(Directing(digits, 'x'), [Number(value)])
    ensures var r, p := Render(Directing(digits, 'x'), [Number(value)]), Read(digits);
            && |r| == (if p > 8 then p else 8) && ZerosTo(r, |r| - 8) && Parse(r[|r| - 8..], 16) == value
            && forall i :: |r| - 8 <= i < |r| ==> Value(r[i]) < 16
  {
    OneField(digits, 'x', Number(value));
    PaddedParts(Padding(Read(digits), 8), Hex(value, 8));
    HexParses(value);
  }

  /** `%c` writes the character, behind zeros. */
  lemma CharacterWritten(digits: string, c: char)
    requires AllDigits(digits) && Read(digits) <= INT_MAX
    ensures WellFormed(Directing(digits, 'c'), [Character(c)])
    ensures var r, p := Render(Directing(digits, 'c'), [Character(c)]), Read(digits);
            |r| == (if p > 1 then p else 1) && ZerosTo(r, |r| - 1) && r[|r| - 1] == c
  {
    OneField(digits, 'c', Character(c));
    PaddedParts(Padding(Read(digits), 1), [c]);
  }

  /** Any other letter, a second '%' among them, writes nothing and reads nothing. */
  lemma UnknownWritten(digits: string, letter: char)
    requires AllDigits(digits) && Read(digits) <= INT_MAX && !IsDigit(letter)
    requires letter != 's' && letter != 'd' && letter != 'x' && letter != 'c'
    ensures WellFormed(Directing(digits, letter), []) && Render(Directing(digits, letter), []) == ""
  {
    DirectingParts(digits, letter);
  }

  /** A format without '%' is written as it stands. */
  lemma {:induction false} PlainWritten(f: string, args: seq<Arg>)
    requires '%' !in f
    ensures WellFormed(f, args) && Render(f, args) == f
    decreases |f|
  {
    if f != "" {
      PlainWritten(f[1..], args);
    }
  }

  /** How many arguments a format reads. */
  function Reads(f: string): nat
    decreases |f|
  {
    if f == "" then 0
    else if f[0] != '%' then Reads(f[1..])
    else
      var n := DigitRun(f[1..]);
      if n + 1 >= |f| then 0 else (if TakesArgument(f[n + 1]) then 1 else 0) + Reads(f[n + 2..])
  }

  lemma {:induction false} DigitRunPrefix(f: string, g: string)
    requires DigitRun(f) < |f|
    ensures DigitRun(f + g) == DigitRun(f)
    decreases |f|
  {
    if IsDigit(f[0]) {
      assert (f + g)[1..] == f[1..] + g;
      DigitRunPrefix(f[1..], g);
    }
  }

  /** The directive a format starts with, and what comes after it. */
  predicate StartsWith(f: string, digits: string, letter: char, rest: string) {
    var n := |digits|;
    && n + 1 < |f| && f[0] == '%' && DigitRun(f[1..]) == n && f[1..n + 1] == digits && f[n + 1] == letter
    && f[n + 2..] == rest
  }

  lemma StartDecides(f: string, digits: string, letter: char, rest: string, a: seq<Arg>)
    requires StartsWith(f, digits, letter, rest)
    ensures WellFormed(f, a) <==>
            Read(digits) <= INT_MAX && CanRead(letter, a) && WellFormed(rest, Left(letter, a))
    ensures WellFormed(f, a) ==> Render(f, a) == Written(letter, Read(digits), a) + Render(rest, Left(letter, a))
    ensures Reads(f) == (if TakesArgument(letter) then 1 else 0) + Reads(rest)
  {
  }

  lemma StartOf(f: string, a: seq<Arg>) returns (digits: string, letter: char, rest: string)
    requires f != "" && f[0] == '%' && WellFormed(f, a)
    ensures StartsWith(f, digits, letter, rest)
  {
    var n := DigitRun(f[1..]);
    digits, letter, rest := f[1..n + 1], f[n + 1], f[n + 2..];
  }

  lemma StartStays(f: string, digits: string, letter: char, rest: string, g: string)
    requires StartsWith(f, digits, letter, rest)
    ensures StartsWith(f + g, digits, letter, rest + g)
  {
    var n := |digits|;
    assert (f + g)[1..] == f[1..] + g && (f + g)[n + 2..] == f[n + 2..] + g && (f + g)[1..n + 1] == f[1..n + 1];
    DigitRunPrefix(f[1..], g);
  }

  /** Formats one after the other, with the arguments of the one and of the other, are written one after the other. */
  lemma {:induction false} WrittenInTurn(f: string, a: seq<Arg>, g: string, b: seq<Arg>)
    requires WellFormed(f, a) && |a| == Reads(f) && WellFormed(g, b)
    ensures WellFormed(f + g, a + b) && Render(f + g, a + b) == Render(f, a) + Render(g, b)
    decreases |f|
  {
    if f == "" {
      assert f + g == g && a + b == b;
    } else if f[0] != '%' {
      assert (f + g)[1..] == f[1..] + g;
      WrittenInTurn(f[1..], a, g, b);
    } else {
      var digits, letter, rest := StartOf(f, a);
      StartDecides(f, digits, letter, rest, a);
      WrittenInTurn(rest, Left(letter, a), g, b);
      DirectiveInTurn(f, a, g, b, digits, letter, rest, Left(letter, a));
    }
  }

  lemma DirectiveInTurn(f: string, a: seq<Arg>, g: string, b: seq<Arg>, digits: string, letter: char, rest: string,
                        left: seq<Arg>)
    requires StartsWith(f, digits, letter, rest) && WellFormed(f, a) && CanRead(letter, a) && left == Left(letter, a)
    requires WellFormed(rest, left) && WellFormed(g, b) && WellFormed(rest + g, left + b)
    requires Render(rest + g, left + b) == Render(rest, left) + Render(g, b)
    ensures WellFormed(f + g, a + b) && Render(f + g, a + b) == Render(f, a) + Render(g, b)
  {
    StartStays(f, digits, letter, rest, g);
    LeftInTurn(letter, Read(digits), a, b);
    SameStart(f, a, f + g, a + b, digits, letter, rest, left, rest + g, left + b, Render(g, b));
  }

  /** Two formats that start with the same directive, and go on in ways of which one is the longer by `tail`. */
  lemma SameStart(f: string, a: seq<Arg>, h: string, c: seq<Arg>, digits: string, letter: char, rest: string,
                  left: seq<Arg>, rest': string, left': seq<Arg>, tail: string)
    requires StartsWith(f, digits, letter, rest) && WellFormed(f, a) && StartsWith(h, digits, letter, rest')
    requires CanRead(letter, a) && left == Left(letter, a) && CanRead(letter, c) && left' == Left(letter, c)
    requires WellFormed(rest, left) && WellFormed(rest', left')
    requires Written(letter, Read(digits), c) == Written(letter, Read(digits), a)
    requires Render(rest', left') == Render(rest, left) + tail
    ensures WellFormed(h, c) && Render(h, c) == Render(f, a) + tail
  {
    StartDecides(f, digits, letter, rest, a);
    StartDecides(h, digits, letter, rest', c);
    JoinedTail(Written(letter, Read(digits), a), Render(rest, left), tail);
  }

  lemma JoinedTail(w: string, x: string, tail: string)
    ensures w + (x + tail) == w + x + tail
  {
  }

  lemma LeftInTurn(letter: char, padding: int, a: seq<Arg>, b: seq<Arg>)
    requires CanRead(letter, a)
    ensures CanRead(letter, a + b) && Left(letter, a + b) == Left(letter, a) + b
    ensures Written(letter, padding, a + b) == Written(letter, padding, a)
  {
  }

  // ------------------------------------------------------------------
  // Steps of the interpreter
  // ------------------------------------------------------------------

  lemma RenderPlain(f: string, i: nat, args: seq<Arg>)
    requires i < |f| && f[i] != '%' && WellFormed(f[i..], args)
    ensures WellFormed(f[i + 1..], args) && Render(f[i..], args) == [f[i]] + Render(f[i + 1..], args)
  {
    assert f[i..][1..] == f[i + 1..];
  }

  /** What the directive that starts at `i` and ends at `j` writes, and the arguments it leaves. */
  lemma RenderDirective(f: string, i: nat, j: nat, args: seq<Arg>)
    requires i < |f| && f[i] == '%' && WellFormed(f[i..], args) && j == i + 1 + DigitRun(f[i + 1..])
    ensures j < |f| && Read(f[i + 1..j]) <= INT_MAX && CanRead(f[j], args) && WellFormed(f[j + 1..], Left(f[j], args))
    ensures Render(f[i..], args) == Written(f[j], Read(f[i + 1..j]), args) + Render(f[j + 1..], Left(f[j], args))
  {
    var g := f[i..];
    var n := DigitRun(f[i + 1..]);
    assert g[1..] == f[i + 1..] && g[1..n + 1] == f[i + 1..j] && g[n + 2..] == f[j + 1..];
  }

  /** Digits only make a number larger. */
  lemma {:induction false} ReadGrows(s: string, k: nat)
    requires k <= |s| && forall i :: 0 <= i < |s| ==> IsDigit(s[i])
    ensures 0 <= Read(s[..k]) <= Read(s)
    decreases |s|
  {
    if k < |s| {
      var t := s[..|s| - 1];
      ReadGrows(t, k);
      assert t[..k] == s[..k];
    } else {
      assert s[..k] == s;
      if s != "" {
        ReadGrows(s[..|s| - 1], |s| - 1);
        assert s[..|s| - 1][..|s| - 1] == s[..|s| - 1];
      }
    }
  }

  // ------------------------------------------------------------------
  // The code
  // ------------------------------------------------------------------

  /** The buffer holds `out` and, after it, what it held before. */
  ghost predicate Wrote(buffer: seq<char>, before: seq<char>, out: string) {
    && |buffer| == |before| && |out| <= |buffer|
    && (forall i {:trigger buffer[i]} :: 0 <= i < |out| ==> buffer[i] == out[i])
    && (forall i {:trigger buffer[i]} :: |out| <= i < |buffer| ==> buffer[i] == before[i])
  }

  /** `fill_buffer` */
  method FillBuffer(dest: array<char>, destIndex: nat, c: char, count: int, ghost before: seq<char>, ghost out: string)
    returns (index: nat)
    requires Wrote(dest[..], before, out) && destIndex == |out|
    requires |out| + (if count > 0 then count else 0) <= dest.Length
    modifies dest
    ensures Wrote(dest[..], before, out + Fill(c, if count > 0 then count else 0))
    ensures index == destIndex + if count > 0 then count else 0
  {
    index := destIndex;
    var i := 0;
    while i < count
      invariant 0 <= i && (i <= count || i == 0) && index == destIndex + i
      invariant Wrote(dest[..], before, out + Fill(c, i))
    {
      dest[index] := c;
      index := index + 1;
      FillAppend(c, i);
      i := i + 1;
    }
  }

  /** The loops that append a C string. */
  method Append(dest: array<char>, destIndex: nat, s: seq<char>, ghost before: seq<char>, ghost out: string)
    returns (index: nat)
    requires Wrote(dest[..], before, out) && destIndex == |out| && |out| + |TextOf(s)| <= dest.Length
    modifies dest
    ensures Wrote(dest[..], before, out + TextOf(s))
    ensures index == destIndex + |TextOf(s)|
  {
    index := destIndex;
    var i := 0;
    while CharAt(s, i) != NUL
      invariant 0 <= i <= |TextOf(s)| && index == destIndex + i
      invariant Wrote(dest[..], before, out + TextOf(s)[..i])
      decreases |TextOf(s)| - i
    {
      dest[index] := s[i];
      index := index + 1;
      i := i + 1;
    }
    assert TextOf(s)[..i] == TextOf(s);
  }

  /** The padding and the text of one field. */
  method AppendPadded(dest: array<char>, destIndex: nat, padding: int, s: seq<char>, ghost before: seq<char>,
                      ghost out: string)
    returns (index: nat)
    requires Wrote(dest[..], before, out) && destIndex == |out|
    requires |out| + Padding(padding, SignedLength(TextOf(s))) + |TextOf(s)| <= dest.Length
    modifies dest
    ensures Wrote(dest[..], before, out + (Zeros(Padding(padding, SignedLength(TextOf(s)))) + TextOf(s)))
    ensures index == destIndex + Padding(padding, SignedLength(TextOf(s))) + |TextOf(s)|
  {
    index := destIndex;
    var word := Strlen(s);
    var length: int := if word <= INT_MAX then word else word as int - TWO32;
    ghost var zeros := "";
    if padding > length {
      index := FillBuffer(dest, index, '0', padding - length, before, out);
      zeros := Zeros(padding - length);
    }
    assert out + zeros == out + Zeros(Padding(padding, length));
    index := Append(dest, index, s, before, out + zeros);
    assert out + zeros + TextOf(s) == out + (zeros + TextOf(s));
  }

  lemma PowerTen(k: nat, p: nat)
    requires Power(10, k) == p
    ensures Power(10, k + 1) == 10 * p
  {
    TimesIsProduct(p, 10);
  }

  /** Ten digits are enough for a 32-bit number, so the formatter's 32-byte buffer is. */
  lemma DecimalWord(n: uint32)
    ensures |Numeral(n, 10)| <= 10
  {
    PowerTen(0, 1);
    PowerTen(1, 10);
    PowerTen(2, 100);
    PowerTen(3, 1000);
    PowerTen(4, 10000);
    PowerTen(5, 100000);
    PowerTen(6, 1000000);
    PowerTen(7, 10000000);
    PowerTen(8, 100000000);
    PowerTen(9, 1000000000);
    NumeralLength(n, 10, 10);
  }

  lemma HeldText(buffer: seq<char>, before: seq<char>, text: string)
    requires Holds(buffer, before, text) && CString(text)
    ensures TextOf(buffer) == text
  {
    TextOfPrefix(buffer, |text|);
  }

  lemma {:induction false} NumeralIsText(n: nat, base: nat)
    requires 2 <= base <= 16
    ensures CString(Numeral(n, base))
  {
    if n >= base {
      NumeralIsText(Quotient(n, base), base);
    }
  }

  lemma {:induction false} HexIsText(n: nat, k: nat)
    ensures CString(Hex(n, k))
  {
    if k > 0 {
      HexIsText(Quotient(n, 16), k - 1);
    }
  }

  /** The switch over the directive character, with the argument list it reads from. */
  method Directive(dest: array<char>, destIndex: nat, directive: char, padding: int, list: seq<Arg>,
                   ghost before: seq<char>, ghost out: string)
    returns (index: nat, rest: seq<Arg>)
    requires Wrote(dest[..], before, out) && destIndex == |out|
    requires CanRead(directive, list) && |out| + |Written(directive, padding, list)| <= dest.Length
    modifies dest
    ensures Wrote(dest[..], before, out + Written(directive, padding, list))
    ensures index == |out| + |Written(directive, padding, list)| && rest == Left(directive, list)
  {
    index, rest := destIndex, list;
    var num := new char[32](_ => NUL);
    match directive
    case 's' =>
      TextOfPrefix(list[0].text, |list[0].text|);
      assert list[0].text[..|list[0].text|] == list[0].text;
      index := AppendPadded(dest, index, padding, list[0].text, before, out);
      rest := list[1..];
    case 'd' =>
      ghost var empty := num[..];
      DecimalWord(list[0].value);
      NumeralIsText(list[0].value, 10);
      IntToStr(list[0].value, num);
      HeldText(num[..], empty, Numeral(list[0].value, 10));
      index := AppendPadded(dest, index, padding, num[..], before, out);
      rest := list[1..];
    case 'x' =>
      ghost var empty := num[..];
      HexIsText(list[0].value, 8);
      IntToHexStr(list[0].value, num);
      HeldText(num[..], empty, Hex(list[0].value, 8));
      index := AppendPadded(dest, index, padding, num[..], before, out);
      rest := list[1..];
    case 'c' =>
      ghost var zeros := "";
      if padding > 1 {
        index := FillBuffer(dest, index, '0', padding - 1, before, out);
        zeros := Zeros(padding - 1);
      }
      assert out + zeros == out + Zeros(Padding(padding, 1));
      dest[index] := list[0].c;
      index := index + 1;
      assert out + (zeros + [list[0].c]) == out + zeros + [list[0].c];
      rest := list[1..];
    case _ =>
      assert out + "" == out;
  }

  /** The loops that copy what lies between directives. */
  method CopyPending(dest: array<char>, destIndex: nat, format: string, from: nat, to: nat, ghost before: seq<char>,
                     ghost out: string)
    returns (index: nat, processed: nat)
    requires Wrote(dest[..], before, out) && destIndex == |out| && from <= to <= |format|
    requires |out| + to - from <= dest.Length
    modifies dest
    ensures Wrote(dest[..], before, out + format[from..to])
    ensures index == |out| + to - from && processed == to
  {
    index, processed := destIndex, from;
    while processed < to
      invariant from <= processed <= to && index == |out| + processed - from
      invariant Wrote(dest[..], before, out + format[from..processed])
    {
      dest[index] := format[processed];
      index := index + 1;
      processed := processed + 1;
    }
  }

  lemma PaddingStep(format: string, from: nat, n: nat, index: nat)
    requires from <= |format| && n == DigitRun(format[from..]) && from + n < |format| && from <= index <= from + n
    requires Read(format[from..from + n]) <= INT_MAX
    ensures IsDigit(format[index]) <==> index < from + n
    ensures 0 <= Read(format[from..index]) <= INT_MAX
    ensures Read(format[from..index + 1]) == Read(format[from..index]) * 10 + format[index] as int - '0' as int
  {
    var digits := format[from..from + n];
    var g := format[from..index + 1];
    assert g[..|g| - 1] == format[from..index] && g[|g| - 1] == format[index];
    assert forall i :: 0 <= i < n ==> digits[i] == format[from..][i];
    ReadGrows(digits, index - from);
    assert digits[..index - from] == format[from..index];
    assert format[index] == format[from..][index - from];
  }

  /** The loop over the padding's digits. */
  method ReadPadding(format: string, from: nat) returns (padding: int, index: nat)
    requires CString(format) && from <= |format| && from + DigitRun(format[from..]) < |format|
    requires Read(format[from..from + DigitRun(format[from..])]) <= INT_MAX
    ensures index == from + DigitRun(format[from..]) && padding == Read(format[from..index])
  {
    ghost var n := DigitRun(format[from..]);
    padding, index := 0, from;
    PaddingStep(format, from, n, index);
    while '0' <= CharAt(format, index) <= '9'
      invariant from <= index <= from + n && padding == Read(format[from..index])
      invariant IsDigit(CharAt(format, index)) <==> index < from + n
      decreases |format| - index
    {
      PaddingStep(format, from, n, index);
      padding := padding * 10 + (format[index] as int - '0' as int);
      index := index + 1;
      PaddingStep(format, from, n, index);
    }
  }

  /** Where the interpreter stands: `out` is written, `format[processed..index]` is pending, `rest` is still to read. */
  ghost predicate Stands(format: string, args: seq<Arg>, processed: nat, index: nat, rest: seq<Arg>, out: string) {
    && processed <= index <= |format| && WellFormed(format, args) && WellFormed(format[index..], rest)
    && out + format[processed..index] + Render(format[index..], rest) == Render(format, args)
  }

  lemma StandsPlain(format: string, args: seq<Arg>, processed: nat, index: nat, rest: seq<Arg>, out: string)
    requires Stands(format, args, processed, index, rest, out) && index < |format| && format[index] != '%'
    ensures Stands(format, args, processed, index + 1, rest, out)
  {
    RenderPlain(format, index, rest);
    assert format[processed..index + 1] == format[processed..index] + [format[index]];
    assert out + (format[processed..index] + [format[index]]) + Render(format[index + 1..], rest)
        == out + format[processed..index] + ([format[index]] + Render(format[index + 1..], rest));
  }

  /** The directive that starts at `index` has its padding up to `j` and its letter there. */
  ghost predicate DirectiveAt(format: string, index: nat, j: nat, padding: int) {
    && index < |format| && j == index + 1 + DigitRun(format[index + 1..]) && j < |format|
    && padding == Read(format[index + 1..j]) <= INT_MAX
  }

  /** A directive that starts at `index` and ends at `j`, once what was pending and the field are written. */
  lemma StandsDirective(format: string, args: seq<Arg>, processed: nat, index: nat, rest: seq<Arg>, out: string)
    returns (j: nat, padding: int, rest': seq<Arg>, out': string)
    requires Stands(format, args, processed, index, rest, out) && index < |format| && format[index] == '%'
    ensures DirectiveAt(format, index, j, padding) && CanRead(format[j], rest) && rest' == Left(format[j], rest)
    ensures out' == out + format[processed..index] + Written(format[j], padding, rest)
    ensures |out'| <= |Render(format, args)|
    ensures Stands(format, args, j + 1, j + 1, rest', out')
  {
    j := index + 1 + DigitRun(format[index + 1..]);
    RenderDirective(format, index, j, rest);
    padding := Read(format[index + 1..j]);
    var field := Written(format[j], padding, rest);
    rest', out' := Left(format[j], rest), out + format[processed..index] + field;
    Regroup(out, format[processed..index], field, Render(format[j + 1..], rest'));
    assert format[j + 1..j + 1] == [];
  }

  lemma Regroup(out: string, pending: string, field: string, tail: string)
    ensures out + pending + (field + tail) == out + pending + field + [] + tail
  {
  }

  /** One turn of the loop at a '%': copy what is pending, read the padding, write the field. */
  method Percent(dest: array<char>, destIndex: nat, format: string, processed: nat, index: nat, list: seq<Arg>,
                 ghost args: seq<Arg>, ghost before: seq<char>, ghost out: string)
    returns (destIndex': nat, index': nat, list': seq<Arg>, ghost out': string)
    requires CString(format) && Stands(format, args, processed, index, list, out)
    requires index < |format| && format[index] == '%' && |Render(format, args)| < dest.Length
    requires Wrote(dest[..], before, out) && destIndex == |out|
    modifies dest
    ensures index < index' < |format| && Stands(format, args, index' + 1, index' + 1, list', out')
    ensures exists padding :: DirectiveAt(format, index, index', padding) && CanRead(format[index'], list)
              && out' == out + format[processed..index] + Written(format[index'], padding, list)
    ensures Wrote(dest[..], before, out') && destIndex' == |out'|
  {
    ghost var j, width, rest;
    j, width, rest, out' := StandsDirective(format, args, processed, index, list, out);
    var copied: nat;
    destIndex', copied := CopyPending(dest, destIndex, format, processed, index, before, out);
    var padding: int;
    padding, index' := ReadPadding(format, index + 1);
    assert index' == j && padding == width;
    destIndex', list' :=
      Directive(dest, destIndex', format[index'], padding, list, before, out + format[processed..index]);
    assert list' == rest;
  }

  /** The body of the loop of `sprintf`. */
  method Turn(dest: array<char>, destIndex: nat, format: string, processed: nat, index: nat, list: seq<Arg>,
              ghost args: seq<Arg>, ghost before: seq<char>, ghost out: string)
    returns (destIndex': nat, processed': nat, index': nat, list': seq<Arg>, ghost out': string)
    requires CString(format) && Stands(format, args, processed, index, list, out)
    requires index < |format| && |Render(format, args)| < dest.Length
    requires Wrote(dest[..], before, out) && destIndex == |out|
    modifies dest
    ensures index < index' && Stands(format, args, processed', index', list', out')
    ensures Wrote(dest[..], before, out') && destIndex' == |out'|
  {
    destIndex', processed', index', list', out' := destIndex, processed, index, list, out;
    if format[index] == '%' {
      destIndex', index', list', out' :=
        Percent(dest, destIndex, format, processed, index, list, args, before, out);
      processed' := index' + 1;
    } else {
      StandsPlain(format, args, processed, index, list, out);
    }
    index' := index' + 1;
  }

  /** `sprintf` writes the rendering of its format and arguments, a NUL, and nothing else. */
  method Sprintf(dest: array<char>, format: string, args: seq<Arg>)
    requires CString(format) && WellFormed(format, args) && |Render(format, args)| < dest.Length
    modifies dest
    ensures Holds(dest[..], old(dest[..]), Render(format, args))
  {
    ghost var before, out := dest[..], "";
    var list := args;
    var index: nat, processed: nat, destIndex: nat := 0, 0, 0;
    assert format[0..] == format;
    while CharAt(format, index) != NUL
      invariant Stands(format, args, processed, index, list, out)
      invariant Wrote(dest[..], before, out) && destIndex == |out|
      decreases |format| - index
    {
      destIndex, processed, index, list, out :=
        Turn(dest, destIndex, format, processed, index, list, args, before, out);
    }
    assert Render(format[index..], list) == "";
    destIndex, processed := CopyPending(dest, destIndex, format, processed, index, before, out);
    dest[destIndex] := NUL;
  }
}
