/** The conversion of a decimal string into the grouped binary text of a C `char`
    or `int`: the type names, the byte sizes, the validation of the decimal input
    and the two's-complement bit string written in nibbles.

    `Formatted` is the specification of the conversion as a function;
    `DecimalToBinary` is the conversion as the program performs it, a scan over the
    characters followed by a loop over the bit positions, and is proved equal to it. */
module Visualise {

  /** Type codes, in the order of the enumeration of the program. */
  const Char: int := 0
  const Int: int := 1
  const Long: int := 2
  const UnsignedChar: int := 3
  const UnsignedInt: int := 4
  const Double: int := 5

  const ErrorMessage: string := "Input error."

  const SCharMin: int := -128
  const SCharMax: int := 127
  const IntMin: int := -0x8000_0000
  const IntMax: int := 0x7FFF_FFFF

  /** The result of a conversion: the error, or the formatted bits. */
  datatype Output = Error | Ok(bits: string)
  {
    /** The text the program returns. */
    function Text(): string {
      match this
      case Error => ErrorMessage
      case Ok(b) => b
    }
  }

  /** The size in bytes of a supported type, and 0 for any other type code. */
  function MySizeOf(t: int): (size: nat)
    ensures size > 0 <==> t == Char || t == Int
    ensures t == Char ==> size == 1
    ensures t == Int ==> size == 4
  {
    if t == Char then 1 else if t == Int then 4 else 0
  }

  /** The type code named by a string, or -1 if it names no supported type. */
  function StringToType(s: string): (t: int)
    ensures t == Char <==> s == "char"
    ensures t == Int <==> s == "int"
    ensures t == -1 <==> s != "char" && s != "int"
  {
    if s == "char" then Char else if s == "int" then Int else -1
  }

  function CheckType(s: string): (ok: bool)
    ensures ok <==> s == "char" || s == "int"
    ensures ok <==> MySizeOf(StringToType(s)) > 0
  {
    StringToType(s) != -1
  }

  // ------------------------------------------------------------------
  // Validation of the decimal input
  // ------------------------------------------------------------------

  /** The ASCII decimal digits. */
  predicate IsDigit(c: char) {
    '0' <= c <= '9'
  }

  /** Where the digit scan starts: after a leading minus sign, if there is one. */
  function ScanStart(s: string): (i: nat)
    ensures i <= 1 && (i == 1 <==> |s| > 0 && s[0] == '-')
  {
    if |s| > 0 && s[0] == '-' then 1 else 0
  }

  /** The length check: at most 4 characters for a char and at most 11 for either
      type (a char is subject to both, since its case falls through). */
  predicate LengthOk(t: int, s: string): (ok: bool)
    ensures ok <==> |s| <= (if t == Char then 4 else 11)
  {
    (t == Char ==> |s| <= 4) && |s| <= 11
  }

  /** The digit check: after an optional leading minus, only digits, and only zeros
      when the string starts with a zero. */
  predicate Numeral(s: string): (ok: bool)
    ensures ok ==> forall i | ScanStart(s) <= i < |s| :: IsDigit(s[i])
    ensures ok && |s| > 0 && s[0] == '0' ==> forall i | 0 <= i < |s| :: s[i] == '0'
  {
    forall i | ScanStart(s) <= i < |s| ::
      IsDigit(s[i]) && (s[0] == '0' ==> s[i] == '0')
  }

  function DigitValue(c: char): (d: nat)
    requires IsDigit(c)
    ensures d < 10
  {
    (c as int) - ('0' as int)
  }

  /** The value of a string of decimal digits, most significant first. */
  function NaturalValue(d: string): nat
    requires forall i | 0 <= i < |d| :: IsDigit(d[i])
  {
    if d == [] then 0 else NaturalValue(d[..|d| - 1]) * 10 + DigitValue(d[|d| - 1])
  }

  /** A string of n decimal digits has a value below 2^(4n), since 10 < 16. */
  lemma {:induction false} NaturalBound(d: string)
    requires forall i | 0 <= i < |d| :: IsDigit(d[i])
    ensures NaturalValue(d) < Pow2(4 * |d|)
    decreases |d|
  {
    if d != [] {
      var n := |d| - 1;
      NaturalBound(d[..n]);
      var p := Pow2(4 * n);
      assert Pow2(4 * n + 4) == 16 * p by {
        assert Pow2(4 * n + 4) == 2 * Pow2(4 * n + 3);
        assert Pow2(4 * n + 3) == 2 * Pow2(4 * n + 2);
        assert Pow2(4 * n + 2) == 2 * Pow2(4 * n + 1);
      }
      assert 4 * |d| == 4 * n + 4;
      assert NaturalValue(d[..n]) * 10 <= (p - 1) * 10;
    }
  }

  /** A string of zeros has the value 0. */
  lemma {:induction false} ZerosValue(d: string)
    requires forall i | 0 <= i < |d| :: d[i] == '0'
    ensures NaturalValue(d) == 0
    decreases |d|
  {
    if d != [] {
      ZerosValue(d[..|d| - 1]);
    }
  }

  /** What the C library's atoi returns for a string that passed the digit check;
      a string with no digits ("" or "-") reads as 0. The value has the sign of the
      input and is 0 for an input that starts with a zero. */
  function Atoi(s: string): (x: int)
    requires Numeral(s)
    ensures ScanStart(s) == 0 ==> x >= 0
    ensures ScanStart(s) == 1 ==> x <= 0
    ensures |s| > 0 && s[0] == '0' ==> x == 0
  {
    if |s| > 0 && s[0] == '0' then ZerosValue(s); 0
    else
      var magnitude: int := if ScanStart(s) == 1 then NaturalValue(s[1..]) else NaturalValue(s);
      if ScanStart(s) == 1 then -magnitude else magnitude
  }

  /** An input with k digits reads as a value below 2^(4k) in magnitude. */
  lemma AtoiBound(s: string)
    requires Numeral(s)
    ensures -Atoi(s) < Pow2(4 * (|s| - ScanStart(s))) && Atoi(s) < Pow2(4 * (|s| - ScanStart(s)))
  {
    if ScanStart(s) == 1 {
      NaturalBound(s[1..]);
    } else {
      NaturalBound(s);
    }
  }

  /** A char input that passes the length and digit checks always reads as a value
      of the 32-bit int type, so only int inputs need the assumption below. */
  lemma CharInputFits(s: string)
    requires LengthOk(Char, s) && Numeral(s)
    ensures IntMin <= Atoi(s) <= IntMax
  {
    AtoiBound(s);
    Pow2Table();
    var k := |s| - ScanStart(s);
    assert k <= 4;
    assert Pow2(4 * k) <= 65536;
  }

  /** The inputs whose atoi value is defined: an int input that passes the length
      and digit checks reads as a value of the 32-bit int type. (A char input always
      does, by CharInputFits.) */
  predicate DefinedInput(t: int, s: string) {
    t == Int && LengthOk(t, s) && Numeral(s) ==> IntMin <= Atoi(s) <= IntMax
  }

  /** The inputs that are converted rather than rejected. */
  predicate Accepted(t: int, s: string) {
    LengthOk(t, s) && Numeral(s) && (t == Char ==> SCharMin <= Atoi(s) <= SCharMax)
  }

  // ------------------------------------------------------------------
  // The bit string
  // ------------------------------------------------------------------

  function Pow2(n: nat): (p: nat)
    ensures p > 0
  {
    if n == 0 then 1 else 2 * Pow2(n - 1)
  }

  /** The conversion of an int to unsigned int, for testing its bits with `1u << i`. */
  function Unsigned32(x: int): (u: nat)
    ensures u < 0x1_0000_0000
    ensures (x - u) % 0x1_0000_0000 == 0
    ensures 0 <= x < 0x1_0000_0000 ==> u == x
  {
    x % 0x1_0000_0000
  }

  /** The character for bit i of u: '1' when the bit is set. */
  function BitChar(u: nat, i: nat): char {
    if u / Pow2(i) % 2 == 1 then '1' else '0'
  }

  /** The text written for bits n-1 down to 0 of u: one character per bit, and a
      space after every bit whose position is a positive multiple of 4. */
  function Render(u: nat, n: nat): (r: string)
    ensures forall j | 0 <= j < |r| :: r[j] == '0' || r[j] == '1' || r[j] == ' '
    decreases n
  {
    if n == 0 then []
    else [BitChar(u, n - 1)] + (if n - 1 > 0 && (n - 1) % 4 == 0 then " " else "") + Render(u, n - 1)
  }

  /** Helper for the bit loop: concatenation regrouped. */
  lemma Regroup(a: string, b: string, c: string)
    ensures a + (b + c) == (a + b) + c
  {
  }

  /** Helper for the bit loop: one step of Render, bit n, then a space if n is a
      positive multiple of 4. */
  lemma RenderStep(u: nat, n: nat)
    ensures Render(u, n + 1) == [BitChar(u, n)] + (if n > 0 && n % 4 == 0 then " " else "") + Render(u, n)
  {
  }

  /** The converted text of a decimal input, as the program returns it. */
  function Formatted(t: int, s: string): (o: Output)
    requires t == Char || t == Int
    requires DefinedInput(t, s)
    ensures o.Ok? <==> Accepted(t, s)
  {
    if !LengthOk(t, s) then Error
    else if !Numeral(s) then Error
    else if t == Char && !(SCharMin <= Atoi(s) <= SCharMax) then Error
    else Ok(Render(Unsigned32(Atoi(s)), 8 * MySizeOf(t)))
  }

  /** The loop of decimalToBinary that writes the bits of u from position width-1
      down to 0, each followed by a space when its position is a positive multiple
      of 4. */
  method WriteBits(u: nat, width: nat) returns (text: string)
    ensures text == Render(u, width)
  {
    text := "";
    var b := width - 1;
    while b >= 0
      invariant -1 <= b < width
      invariant text + Render(u, b + 1) == Render(u, width)
    {
      var n: nat := b;
      var written := [BitChar(u, n)] + (if n > 0 && n % 4 == 0 then " " else "");
      RenderStep(u, n);
      Regroup(text, written, Render(u, n));
      text := text + written;
      b := b - 1;
    }
    assert text + Render(u, 0) == text;
  }

  /** decimalToBinary: check the length, scan the characters, read the value, check
      the char range, then write the bits from the most significant down. */
  method DecimalToBinary(t: int, input: string) returns (out: Output)
    requires t == Char || t == Int
    requires DefinedInput(t, input)
    ensures out == Formatted(t, input)
  {
    var length := |input|;
    if t == Char && length > 4 {
      return Error;
    }
    if length > 11 {
      return Error;
    }
    var i := 0;
    if length > 0 && input[0] == '-' {
      i := i + 1;
    }
    var startingZero := length > 0 && input[0] == '0';
    while i < length
      invariant ScanStart(input) <= i <= length
      invariant forall j | ScanStart(input) <= j < i ::
                  IsDigit(input[j]) && (input[0] == '0' ==> input[j] == '0')
    {
      if !IsDigit(input[i]) {
        assert !Numeral(input);
        return Error;
      }
      if startingZero && input[i] != '0' {
        assert !Numeral(input);
        return Error;
      }
      i := i + 1;
    }
    var x := Atoi(input);
    if t == Char && (x < SCharMin || x > SCharMax) {
      return Error;
    }
    var text := WriteBits(Unsigned32(x), MySizeOf(t) * 8);
    return Ok(text);
  }

  // ------------------------------------------------------------------
  // The output as nibbles
  // ------------------------------------------------------------------

  /** The four characters of nibble g of u (bits 4g+3 down to 4g). */
  function Nibble(u: nat, g: nat): (r: string)
    ensures |r| == 4 && forall j | 0 <= j < 4 :: r[j] == '0' || r[j] == '1'
  {
    [BitChar(u, 4 * g + 3), BitChar(u, 4 * g + 2), BitChar(u, 4 * g + 1), BitChar(u, 4 * g)]
  }

  /** The nibbles m-1 down to 0 of u, separated by single spaces. */
  function Grouped(u: nat, m: nat): string
    requires m > 0
  {
    if m == 1 then Nibble(u, 0) else Nibble(u, m - 1) + " " + Grouped(u, m - 1)
  }

  lemma RenderPlain(u: nat, n: nat)
    requires n > 0 && (n == 1 || (n - 1) % 4 != 0)
    ensures Render(u, n) == [BitChar(u, n - 1)] + Render(u, n - 1)
  {
  }

  lemma RenderSpaced(u: nat, n: nat)
    requires n > 1 && (n - 1) % 4 == 0
    ensures Render(u, n) == [BitChar(u, n - 1)] + " " + Render(u, n - 1)
  {
  }

  lemma Residues(g: nat)
    ensures (4 * g + 3) % 4 == 3 && (4 * g + 2) % 4 == 2 && (4 * g + 1) % 4 == 1 && (4 * g) % 4 == 0
  {
  }

  lemma Assemble(c3: char, c2: char, c1: char, c0: char, space: string,
                 r0: string, r1: string, r2: string, r3: string, r4: string)
    requires r4 == [c3] + r3 && r3 == [c2] + r2 && r2 == [c1] + r1 && r1 == [c0] + space + r0
    ensures r4 == [c3, c2, c1, c0] + space + r0
  {
  }

  /** The four bits written after position 4g + 4 form nibble g, followed by a space
      unless g is the lowest nibble. */
  lemma RenderNibble(u: nat, g: nat)
    ensures Render(u, 4 * g + 4) == Nibble(u, g) + (if g > 0 then " " else "") + Render(u, 4 * g)
  {
    Residues(g);
    RenderPlain(u, 4 * g + 4);
    RenderPlain(u, 4 * g + 3);
    RenderPlain(u, 4 * g + 2);
    if g > 0 {
      RenderSpaced(u, 4 * g + 1);
    } else {
      RenderPlain(u, 1);
    }
    Assemble(BitChar(u, 4 * g + 3), BitChar(u, 4 * g + 2), BitChar(u, 4 * g + 1), BitChar(u, 4 * g),
             if g > 0 then " " else "", Render(u, 4 * g),
             Render(u, 4 * g + 1), Render(u, 4 * g + 2), Render(u, 4 * g + 3), Render(u, 4 * g + 4));
  }

  /** Writing 4m bits one at a time, with a space after every positive multiple of 4,
      is the same as writing m nibbles separated by single spaces. */
  lemma {:induction false} RenderIsGrouped(u: nat, m: nat)
    requires m > 0
    ensures Render(u, 4 * m) == Grouped(u, m)
  {
    var g := m - 1;
    assert 4 * m == 4 * g + 4;
    RenderNibble(u, g);
    if g > 0 {
      RenderIsGrouped(u, g);
    }
  }

  /** The layout of m nibbles: 5m - 1 characters, a space exactly at the positions
      4, 9, 14, ..., and a bit character everywhere else. */
  lemma {:induction false} GroupedLayout(u: nat, m: nat)
    requires m > 0
    ensures |Grouped(u, m)| == 5 * m - 1
    ensures forall j | 0 <= j < 5 * m - 1 ::
              (Grouped(u, m)[j] == ' ' <==> j % 5 == 4) &&
              (Grouped(u, m)[j] == ' ' || Grouped(u, m)[j] == '0' || Grouped(u, m)[j] == '1')
  {
    if m > 1 {
      GroupedLayout(u, m - 1);
      var g := Grouped(u, m);
      assert g == Nibble(u, m - 1) + " " + Grouped(u, m - 1);
      forall j | 5 <= j < 5 * m - 1
        ensures g[j] == Grouped(u, m - 1)[j - 5] && (j - 5) % 5 == j % 5
      {
      }
    }
  }

  // ------------------------------------------------------------------
  // Reading the output back
  // ------------------------------------------------------------------

  /** The string with its spaces removed. */
  function Strip(s: string): (r: string)
    ensures |r| <= |s|
  {
    if s == [] then [] else (if s[0] == ' ' then [] else [s[0]]) + Strip(s[1..])
  }

  lemma {:induction false} StripConcat(a: string, b: string)
    ensures Strip(a + b) == Strip(a) + Strip(b)
  {
    if a != [] {
      assert (a + b)[0] == a[0] && (a + b)[1..] == a[1..] + b;
      StripConcat(a[1..], b);
      var head := if a[0] == ' ' then [] else [a[0]];
      assert Strip(a) == head + Strip(a[1..]);
      assert Strip(a + b) == head + (Strip(a[1..]) + Strip(b));
    } else {
      assert a + b == b;
    }
  }

  /** The bit characters of bits n-1 down to 0 of u. */
  function Bits(u: nat, n: nat): (r: string)
    ensures |r| == n
  {
    if n == 0 then [] else [BitChar(u, n - 1)] + Bits(u, n - 1)
  }

  /** The unsigned value of a string of '0' and '1', most significant bit first. */
  function BinaryValue(b: string): nat {
    if b == [] then 0 else (if b[0] == '1' then Pow2(|b| - 1) else 0) + BinaryValue(b[1..])
  }

  /** The signed value of a w-bit two's-complement pattern. */
  function Signed(v: nat, w: nat): int
    requires w > 0
  {
    if v >= Pow2(w - 1) then v - Pow2(w) else v
  }

  /** Removing the spaces from the output leaves exactly the bit characters. */
  lemma {:induction false} StripRender(u: nat, n: nat)
    ensures Strip(Render(u, n)) == Bits(u, n)
  {
    if n > 0 {
      var space := if n - 1 > 0 && (n - 1) % 4 == 0 then " " else "";
      assert Render(u, n) == ([BitChar(u, n - 1)] + space) + Render(u, n - 1);
      StripConcat([BitChar(u, n - 1)] + space, Render(u, n - 1));
      StripConcat([BitChar(u, n - 1)], space);
      StripRender(u, n - 1);
    }
  }

  lemma DivModUnique(a: int, m: int, q: int, r: int)
    requires m > 0 && 0 <= r < m && a == q * m + r
    ensures a / m == q && a % m == r
  {
    var q', r' := a / m, a % m;
    assert a == q' * m + r';
    assert (q - q') * m == r' - r;
    if q - q' >= 1 {
      assert false;
    } else if q - q' <= -1 {
      assert false;
    }
  }

  /** The residue modulo 2^(n+1) is bit n added to the residue modulo 2^n. */
  lemma ModPow2Step(u: nat, n: nat)
    ensures u % Pow2(n + 1) == (u / Pow2(n) % 2) * Pow2(n) + u % Pow2(n)
  {
    var p := Pow2(n);
    assert Pow2(n + 1) == 2 * p;
    var q, r := u / p, u % p;
    var h, c := q / 2, q % 2;
    assert u == q * p + r;
    assert q == 2 * h + c;
    assert q * p == h * (2 * p) + c * p;
    var s := c * p + r;
    assert 0 <= s < 2 * p by {
      if c == 0 { assert s == r; } else { assert s == p + r; }
    }
    DivModUnique(u, 2 * p, h, s);
  }

  /** The bit characters read as a binary number give u modulo 2^n. */
  lemma {:induction false} BitsValue(u: nat, n: nat)
    ensures BinaryValue(Bits(u, n)) == u % Pow2(n)
  {
    if n > 0 {
      var b, p := Bits(u, n), Pow2(n - 1);
      BitsValue(u, n - 1);
      ModPow2Step(u, n - 1);
      assert b[1..] == Bits(u, n - 1);
      assert BinaryValue(b) == (if b[0] == '1' then p else 0) + u % p;
      if u / p % 2 == 1 {
        assert b[0] == '1';
      } else {
        assert b[0] == '0';
      }
    } else {
      assert Pow2(0) == 1;
    }
  }

  /** A value in the range of a w-bit signed type is recovered from its w-bit
      two's-complement pattern. */
  lemma TwosComplement(x: int, w: nat)
    requires w > 0 && 0 <= x + Pow2(w - 1) && x < Pow2(w - 1)
    ensures 0 <= x % Pow2(w) < Pow2(w)
    ensures Signed(x % Pow2(w), w) == x
  {
    assert Pow2(w) == 2 * Pow2(w - 1);
    if x >= 0 {
      DivModUnique(x, Pow2(w), 0, x);
    } else {
      DivModUnique(x, Pow2(w), -1, x + Pow2(w));
    }
  }

  lemma Pow2Values()
    ensures Pow2(7) == 128 && Pow2(8) == 256
    ensures Pow2(31) == 0x8000_0000 && Pow2(32) == 0x1_0000_0000
  {
    assert Pow2(8) == 256;
    Pow2Eight(8);
    Pow2Eight(16);
    Pow2Eight(23);
    Pow2Eight(24);
  }

  lemma Pow2Eight(n: nat)
    ensures Pow2(n + 8) == 256 * Pow2(n)
  {
    assert Pow2(n + 8) == 2 * Pow2(n + 7);
    assert Pow2(n + 7) == 2 * Pow2(n + 6);
    assert Pow2(n + 6) == 2 * Pow2(n + 5);
    assert Pow2(n + 5) == 2 * Pow2(n + 4);
    assert Pow2(n + 4) == 2 * Pow2(n + 3);
    assert Pow2(n + 3) == 2 * Pow2(n + 2);
    assert Pow2(n + 2) == 2 * Pow2(n + 1);
  }

  /** Reducing the unsigned int conversion modulo 2^w, for w at most 32, is reducing
      the value itself. */
  lemma Unsigned32Low(x: int, w: nat)
    requires w == 8 || w == 32
    ensures Unsigned32(x) % Pow2(w) == x % Pow2(w)
  {
    Pow2Values();
    if w == 8 {
      var q := x / 0x1_0000_0000;
      assert Unsigned32(x) == x - q * 0x1_0000_0000;
      assert Unsigned32(x) == (x / 256 - q * 0x100_0000) * 256 + x % 256;
      DivModUnique(Unsigned32(x), 256, x / 256 - q * 0x100_0000, x % 256);
    } else {
      DivModUnique(Unsigned32(x), 0x1_0000_0000, 0, Unsigned32(x));
    }
  }

  // ------------------------------------------------------------------
  // Properties of the conversion
  // ------------------------------------------------------------------

  /** A successful output has 8 bits per byte of the type, in nibbles separated by
      single spaces and with no trailing space: 10 * size - 1 characters in all. */
  lemma OutputShape(t: int, s: string)
    requires t == Char || t == Int
    requires DefinedInput(t, s) && Accepted(t, s)
    ensures var r := Formatted(t, s).bits;
      && r == Grouped(Unsigned32(Atoi(s)), 2 * MySizeOf(t))
      && |r| == 10 * MySizeOf(t) - 1
      && |Strip(r)| == 8 * MySizeOf(t)
      && (forall j | 0 <= j < |r| :: (r[j] == ' ' <==> j % 5 == 4))
      && (forall j | 0 <= j < |r| :: r[j] == ' ' || r[j] == '0' || r[j] == '1')
  {
    var u, m := Unsigned32(Atoi(s)), 2 * MySizeOf(t);
    RenderIsGrouped(u, m);
    GroupedLayout(u, m);
    StripRender(u, 4 * m);
  }

  /** Reading the bits of a successful output as an unsigned number gives the input
      value modulo 2^(8 * size), and reading them as two's complement gives the input
      value itself. */
  lemma OutputRoundTrip(t: int, s: string)
    requires t == Char || t == Int
    requires DefinedInput(t, s) && Accepted(t, s)
    ensures var w := 8 * MySizeOf(t);
      && BinaryValue(Strip(Formatted(t, s).bits)) == Atoi(s) % Pow2(w)
      && Signed(BinaryValue(Strip(Formatted(t, s).bits)), w) == Atoi(s)
  {
    var x, w := Atoi(s), 8 * MySizeOf(t);
    StripRender(Unsigned32(x), w);
    BitsValue(Unsigned32(x), w);
    Unsigned32Low(x, w);
    Pow2Values();
    TwosComplement(x, w);
  }

  /** Each of the checks, on its own, rejects an input. */
  lemma Rejections(t: int, s: string)
    requires t == Char || t == Int
    requires DefinedInput(t, s)
    ensures t == Char && |s| > 4 ==> Formatted(t, s) == Error
    ensures |s| > 11 ==> Formatted(t, s) == Error
    ensures (exists i | ScanStart(s) <= i < |s| :: !IsDigit(s[i])) ==> Formatted(t, s) == Error
    ensures |s| > 0 && s[0] == '0' && (exists i | 0 <= i < |s| :: s[i] != '0') ==>
              Formatted(t, s) == Error
    ensures t == Char && Numeral(s) && !(SCharMin <= Atoi(s) <= SCharMax) ==>
              Formatted(t, s) == Error
  {
  }

  // ------------------------------------------------------------------
  // The conversions the program's own tests expect
  // ------------------------------------------------------------------
  //
  // Each expected output is derived in small steps rather than by evaluating
  // Formatted on the literal input in one go, which the verifier cannot afford:
  // decimal values digit by digit (Value...), a table of the powers of two used
  // (Pow2Table), each nibble of a 32-bit value on its own (Nibble...At...), and
  // the nibbles put together by GroupedCons (Grouped...). The 32-bit outputs are
  // stated as the Join of their nibbles, as the tests list them.

  /** Strings joined by single spaces: the expected outputs are written this way, one
      nibble per element, most significant first. */
  function Join(gs: seq<string>): string
    requires |gs| > 0
  {
    if |gs| == 1 then gs[0] else gs[0] + " " + Join(gs[1..])
  }
  lemma Render7()
    ensures Render(7, 8) == "0000 0111"
  {
  }
  /** char "7" is 0000 0111. */
  lemma CharSeven()
    ensures Formatted(Char, "7").Text() == "0000 0111"
  {
    assert "7"[..0] == "" && "7"[0] == '7';
    assert NaturalValue("7") == 7;
    assert Atoi("7") == 7;
    assert Unsigned32(7) == 7;
    Render7();
  }
  lemma Value128()
    ensures NaturalValue("128") == 128
  {
    assert "128"[..2] == "12" && "128"[2] == '8';
    assert "12"[..1] == "1" && "12"[1] == '2';
    assert "1"[..0] == "" && "1"[0] == '1';
  }
  lemma RenderMinus128()
    ensures Render(0xFFFF_FF80, 8) == "1000 0000"
  {
  }
  /** char "-128" is 1000 0000. */
  lemma CharMinus128()
    ensures Formatted(Char, "-128").Text() == "1000 0000"
  {
    assert "-128"[1..] == "128";
    Value128();
    assert Unsigned32(-128) == 0xFFFF_FF80;
    RenderMinus128();
  }
  lemma Value255()
    ensures NaturalValue("255") == 255
  {
    assert "255"[..2] == "25" && "255"[2] == '5';
    assert "25"[..1] == "2" && "25"[1] == '5';
    assert "2"[..0] == "" && "2"[0] == '2';
  }
  /** char "255" is out of range. */
  lemma Char255Rejected()
    ensures Formatted(Char, "255").Text() == "Input error."
  {
    Value255();
  }
  /** char "08" has a leading zero. */
  lemma CharLeadingZeroRejected()
    ensures Formatted(Char, "08").Text() == "Input error."
  {
    assert "08"[1] == '8';
  }
  /** char "-x0" has a non-digit. */
  lemma CharNonDigitRejected()
    ensures Formatted(Char, "-x0").Text() == "Input error."
  {
    assert "-x0"[1] == 'x';
  }
  /** int "-100000000000" is too long, "0x64" has a non-digit and "000005" a
      leading zero. */
  lemma IntRejected()
    ensures Formatted(Int, "-100000000000").Text() == "Input error."
    ensures Formatted(Int, "0x64").Text() == "Input error."
    ensures Formatted(Int, "000005").Text() == "Input error."
  {
    assert "0x64"[1] == 'x' && !IsDigit("0x64"[1]);
    assert !Numeral("0x64");
    assert "000005"[0] == '0' && "000005"[5] == '5';
    assert !Numeral("000005");
    Rejections(Int, "-100000000000");
    Rejections(Int, "0x64");
    Rejections(Int, "000005");
  }

  lemma Value10000000()
    ensures NaturalValue("10000000") == 10000000
  {
    assert "10000000"[..7] == "1000000" && "10000000"[7] == '0';
    assert "1000000"[..6] == "100000" && "1000000"[6] == '0';
    assert "100000"[..5] == "10000" && "100000"[5] == '0';
    assert "10000"[..4] == "1000" && "10000"[4] == '0';
    assert "1000"[..3] == "100" && "1000"[3] == '0';
    assert "100"[..2] == "10" && "100"[2] == '0';
    assert "10"[..1] == "1" && "10"[1] == '0';
    assert "1"[..0] == "" && "1"[0] == '1';
  }
  lemma Pow2Table()
    ensures Pow2(0) == 1 && Pow2(1) == 2 && Pow2(2) == 4 && Pow2(3) == 8
    ensures Pow2(4) == 16 && Pow2(5) == 32 && Pow2(6) == 64 && Pow2(7) == 128
    ensures Pow2(8) == 256 && Pow2(9) == 512 && Pow2(10) == 1024 && Pow2(11) == 2048
    ensures Pow2(12) == 4096 && Pow2(13) == 8192 && Pow2(14) == 16384 && Pow2(15) == 32768
    ensures Pow2(16) == 65536 && Pow2(17) == 131072 && Pow2(18) == 262144 && Pow2(19) == 524288
    ensures Pow2(20) == 1048576 && Pow2(21) == 2097152 && Pow2(22) == 4194304 && Pow2(23) == 8388608
    ensures Pow2(24) == 16777216 && Pow2(25) == 33554432 && Pow2(26) == 67108864 && Pow2(27) == 134217728
    ensures Pow2(28) == 268435456 && Pow2(29) == 536870912 && Pow2(30) == 1073741824 && Pow2(31) == 2147483648
    ensures Pow2(32) == 4294967296
  {
    assert Pow2(1) == 2;
    assert Pow2(2) == 4;
    assert Pow2(3) == 8;
    assert Pow2(4) == 16;
    assert Pow2(5) == 32;
    assert Pow2(6) == 64;
    assert Pow2(7) == 128;
    assert Pow2(8) == 256;
    assert Pow2(9) == 512;
    assert Pow2(10) == 1024;
    assert Pow2(11) == 2048;
    assert Pow2(12) == 4096;
    assert Pow2(13) == 8192;
    assert Pow2(14) == 16384;
    assert Pow2(15) == 32768;
    assert Pow2(16) == 65536;
    assert Pow2(17) == 131072;
    assert Pow2(18) == 262144;
    assert Pow2(19) == 524288;
    assert Pow2(20) == 1048576;
    assert Pow2(21) == 2097152;
    assert Pow2(22) == 4194304;
    assert Pow2(23) == 8388608;
    assert Pow2(24) == 16777216;
    assert Pow2(25) == 33554432;
    assert Pow2(26) == 67108864;
    assert Pow2(27) == 134217728;
    assert Pow2(28) == 268435456;
    assert Pow2(29) == 536870912;
    assert Pow2(30) == 1073741824;
    assert Pow2(31) == 2147483648;
    assert Pow2(32) == 4294967296;
  }

  lemma GroupedCons(u: nat, m: nat, a: string, b: string)
    requires m > 0 && Nibble(u, m) == a && Grouped(u, m) == b
    ensures Grouped(u, m + 1) == a + " " + b
  {
  }
  lemma Nibble10000000At0()
    ensures Nibble(10000000, 0) == "0000"
  {
    Pow2Table();
  }
  lemma Nibble10000000At1()
    ensures Nibble(10000000, 1) == "1000"
  {
    Pow2Table();
  }
  lemma Nibble10000000At2()
    ensures Nibble(10000000, 2) == "0110"
  {
    Pow2Table();
  }
  lemma Nibble10000000At3()
    ensures Nibble(10000000, 3) == "1001"
  {
    Pow2Table();
  }
  lemma Nibble10000000At4()
    ensures Nibble(10000000, 4) == "1000"
  {
    Pow2Table();
  }
  lemma Nibble10000000At5()
    ensures Nibble(10000000, 5) == "1001"
  {
    Pow2Table();
  }
  lemma Nibble10000000At6()
    ensures Nibble(10000000, 6) == "0000"
  {
    Pow2Table();
  }
  lemma Nibble10000000At7()
    ensures Nibble(10000000, 7) == "0000"
  {
    Pow2Table();
  }
  lemma Grouped10000000(u: nat)
    requires u == 10000000
    ensures Grouped(u, 8) == Join(["0000", "0000", "1001", "1000", "1001", "0110", "1000", "0000"])
  {
    Nibble10000000At7();
    Nibble10000000At6();
    Nibble10000000At5();
    Nibble10000000At4();
    Nibble10000000At3();
    Nibble10000000At2();
    Nibble10000000At1();
    Nibble10000000At0();
    var g1 := "0000";
    var g2 := "1000" + " " + g1;
    var g3 := "0110" + " " + g2;
    var g4 := "1001" + " " + g3;
    var g5 := "1000" + " " + g4;
    var g6 := "1001" + " " + g5;
    var g7 := "0000" + " " + g6;
    GroupedCons(u, 1, "1000", g1);
    GroupedCons(u, 2, "0110", g2);
    GroupedCons(u, 3, "1001", g3);
    GroupedCons(u, 4, "1000", g4);
    GroupedCons(u, 5, "1001", g5);
    GroupedCons(u, 6, "0000", g6);
    GroupedCons(u, 7, "0000", g7);
    assert Join(["0000"]) == g1;
    assert Join(["1000", "0000"]) == g2;
  }
  /** An int input that passes the checks, fits in 32 bits and has the given nibbles
      converts to them. */
  lemma IntConversion(s: string, u: nat, expected: string)
    requires LengthOk(Int, s) && Numeral(s) && IntMin <= Atoi(s) <= IntMax
    requires Unsigned32(Atoi(s)) == u && Grouped(u, 8) == expected
    ensures DefinedInput(Int, s) && Formatted(Int, s).Text() == expected
  {
    OutputShape(Int, s);
  }

  /** The input "10000000" passes the length and digit checks and reads as 10000000. */
  lemma InputIntTenMillion()
    ensures LengthOk(Int, "10000000") && Numeral("10000000") && Atoi("10000000") == 10000000
  {
    Value10000000();
  }
  /** int "10000000" is 0x00989680. */
  lemma IntTenMillion()
    ensures DefinedInput(Int, "10000000")
    ensures Formatted(Int, "10000000").Text() == Join(["0000", "0000", "1001", "1000", "1001", "0110", "1000", "0000"])
  {
    InputIntTenMillion();
    assert Unsigned32(10000000) == 10000000;
    Grouped10000000(10000000);
    IntConversion("10000000", 10000000, Join(["0000", "0000", "1001", "1000", "1001", "0110", "1000", "0000"]));
  }
  lemma Value50()
    ensures NaturalValue("50") == 50
  {
    assert "50"[..1] == "5" && "50"[1] == '0';
    assert "5"[..0] == "" && "5"[0] == '5';
  }
  lemma RenderMinus50()
    ensures Render(0xFFFF_FFCE, 8) == "1100 1110"
  {
  }
  /** char "-50" is 1100 1110. */
  lemma CharMinus50()
    ensures Formatted(Char, "-50").Text() == "1100 1110"
  {
    assert "-50"[1..] == "50";
    Value50();
    assert Unsigned32(-50) == 0xFFFF_FFCE;
    RenderMinus50();
  }
  lemma Value101()
    ensures NaturalValue("101") == 101
  {
    assert "101"[..2] == "10" && "101"[2] == '1';
    assert "10"[..1] == "1" && "10"[1] == '0';
    assert "1"[..0] == "" && "1"[0] == '1';
  }
  lemma Render101()
    ensures Render(101, 8) == "0110 0101"
  {
  }
  /** char "101" is 0110 0101. */
  lemma Char101()
    ensures Formatted(Char, "101").Text() == "0110 0101"
  {
    Value101();
    assert Atoi("101") == 101;
    assert Unsigned32(101) == 101;
    Render101();
  }
  lemma Value1000000000()
    ensures NaturalValue("1000000000") == 1000000000
  {
    assert "1000000000"[..9] == "100000000" && "1000000000"[9] == '0';
    assert "100000000"[..8] == "10000000" && "100000000"[8] == '0';
    assert "10000000"[..7] == "1000000" && "10000000"[7] == '0';
    assert "1000000"[..6] == "100000" && "1000000"[6] == '0';
    assert "100000"[..5] == "10000" && "100000"[5] == '0';
    assert "10000"[..4] == "1000" && "10000"[4] == '0';
    assert "1000"[..3] == "100" && "1000"[3] == '0';
    assert "100"[..2] == "10" && "100"[2] == '0';
    assert "10"[..1] == "1" && "10"[1] == '0';
    assert "1"[..0] == "" && "1"[0] == '1';
  }
  lemma NibbleMinus1000000000At0()
    ensures Nibble(3294967296, 0) == "0000"
  {
    Pow2Table();
  }
  lemma NibbleMinus1000000000At1()
    ensures Nibble(3294967296, 1) == "0000"
  {
    Pow2Table();
  }
  lemma NibbleMinus1000000000At2()
    ensures Nibble(3294967296, 2) == "0110"
  {
    Pow2Table();
  }
  lemma NibbleMinus1000000000At3()
    ensures Nibble(3294967296, 3) == "0011"
  {
    Pow2Table();
  }
  lemma NibbleMinus1000000000At4()
    ensures Nibble(3294967296, 4) == "0101"
  {
    Pow2Table();
  }
  lemma NibbleMinus1000000000At5()
    ensures Nibble(3294967296, 5) == "0110"
  {
    Pow2Table();
  }
  lemma NibbleMinus1000000000At6()
    ensures Nibble(3294967296, 6) == "0100"
  {
    Pow2Table();
  }
  lemma NibbleMinus1000000000At7()
    ensures Nibble(3294967296, 7) == "1100"
  {
    Pow2Table();
  }
  lemma GroupedMinus1000000000(u: nat)
    requires u == 3294967296
    ensures Grouped(u, 8) == Join(["1100", "0100", "0110", "0101", "0011", "0110", "0000", "0000"])
  {
    NibbleMinus1000000000At7();
    NibbleMinus1000000000At6();
    NibbleMinus1000000000At5();
    NibbleMinus1000000000At4();
    NibbleMinus1000000000At3();
    NibbleMinus1000000000At2();
    NibbleMinus1000000000At1();
    NibbleMinus1000000000At0();
    var g1 := "0000";
    var g2 := "0000" + " " + g1;
    var g3 := "0110" + " " + g2;
    var g4 := "0011" + " " + g3;
    var g5 := "0101" + " " + g4;
    var g6 := "0110" + " " + g5;
    var g7 := "0100" + " " + g6;
    GroupedCons(u, 1, "0000", g1);
    GroupedCons(u, 2, "0110", g2);
    GroupedCons(u, 3, "0011", g3);
    GroupedCons(u, 4, "0101", g4);
    GroupedCons(u, 5, "0110", g5);
    GroupedCons(u, 6, "0100", g6);
    GroupedCons(u, 7, "1100", g7);
    assert Join(["0000"]) == g1;
    assert Join(["0000", "0000"]) == g2;
  }
  /** The input "-1000000000" passes the length and digit checks and reads as -1000000000. */
  lemma InputIntMinusBillion()
    ensures LengthOk(Int, "-1000000000") && Numeral("-1000000000") && Atoi("-1000000000") == -1000000000
  {
    assert "-1000000000"[1..] == "1000000000";
    Value1000000000();
  }
  /** int "-1000000000" is 0xC4653600. */
  lemma IntMinusBillion()
    ensures DefinedInput(Int, "-1000000000")
    ensures Formatted(Int, "-1000000000").Text() == Join(["1100", "0100", "0110", "0101", "0011", "0110", "0000", "0000"])
  {
    InputIntMinusBillion();
    assert Unsigned32(-1000000000) == 3294967296;
    GroupedMinus1000000000(3294967296);
    IntConversion("-1000000000", 3294967296, Join(["1100", "0100", "0110", "0101", "0011", "0110", "0000", "0000"]));
  }
  lemma Value10055()
    ensures NaturalValue("10055") == 10055
  {
    assert "10055"[..4] == "1005" && "10055"[4] == '5';
    assert "1005"[..3] == "100" && "1005"[3] == '5';
    assert "100"[..2] == "10" && "100"[2] == '0';
    assert "10"[..1] == "1" && "10"[1] == '0';
    assert "1"[..0] == "" && "1"[0] == '1';
  }
  lemma Nibble10055At0()
    ensures Nibble(10055, 0) == "0111"
  {
    Pow2Table();
  }
  lemma Nibble10055At1()
    ensures Nibble(10055, 1) == "0100"
  {
    Pow2Table();
  }
  lemma Nibble10055At2()
    ensures Nibble(10055, 2) == "0111"
  {
    Pow2Table();
  }
  lemma Nibble10055At3()
    ensures Nibble(10055, 3) == "0010"
  {
    Pow2Table();
  }
  lemma Nibble10055At4()
    ensures Nibble(10055, 4) == "0000"
  {
    Pow2Table();
  }
  lemma Nibble10055At5()
    ensures Nibble(10055, 5) == "0000"
  {
    Pow2Table();
  }
  lemma Nibble10055At6()
    ensures Nibble(10055, 6) == "0000"
  {
    Pow2Table();
  }
  lemma Nibble10055At7()
    ensures Nibble(10055, 7) == "0000"
  {
    Pow2Table();
  }
  lemma Grouped10055(u: nat)
    requires u == 10055
    ensures Grouped(u, 8) == Join(["0000", "0000", "0000", "0000", "0010", "0111", "0100", "0111"])
  {
    Nibble10055At7();
    Nibble10055At6();
    Nibble10055At5();
    Nibble10055At4();
    Nibble10055At3();
    Nibble10055At2();
    Nibble10055At1();
    Nibble10055At0();
    var g1 := "0111";
    var g2 := "0100" + " " + g1;
    var g3 := "0111" + " " + g2;
    var g4 := "0010" + " " + g3;
    var g5 := "0000" + " " + g4;
    var g6 := "0000" + " " + g5;
    var g7 := "0000" + " " + g6;
    GroupedCons(u, 1, "0100", g1);
    GroupedCons(u, 2, "0111", g2);
    GroupedCons(u, 3, "0010", g3);
    GroupedCons(u, 4, "0000", g4);
    GroupedCons(u, 5, "0000", g5);
    GroupedCons(u, 6, "0000", g6);
    GroupedCons(u, 7, "0000", g7);
    assert Join(["0111"]) == g1;
    assert Join(["0100", "0111"]) == g2;
  }
  /** The input "10055" passes the length and digit checks and reads as 10055. */
  lemma InputInt10055()
    ensures LengthOk(Int, "10055") && Numeral("10055") && Atoi("10055") == 10055
  {
    Value10055();
  }
  /** int "10055" is 0x00002747. */
  lemma Int10055()
    ensures DefinedInput(Int, "10055")
    ensures Formatted(Int, "10055").Text() == Join(["0000", "0000", "0000", "0000", "0010", "0111", "0100", "0111"])
  {
    InputInt10055();
    assert Unsigned32(10055) == 10055;
    Grouped10055(10055);
    IntConversion("10055", 10055, Join(["0000", "0000", "0000", "0000", "0010", "0111", "0100", "0111"]));
  }
}
