/**
  What a format string with arguments prints: the format is parsed into pieces and the
  pieces are rendered one after the other.
*/
module Formats {
  import opened Words
  import opened Numerals
  import opened HexWord

  /** A string in memory; the address space has 31 bits. */
  type Text = s: string | |s| < 0x8000_0000

  /** The argument words in order, and the memory that string arguments point into. */
  datatype Args = Args(word: nat -> bv32, str: bv32 -> Text)

  /** A literal character, or a conversion with its zero flag, its width (-1 for none) and
      its letter. */
  datatype Piece = Lit(c: char) | Conv(zero: bool, width: int, letter: char)

  /** The format ends at its terminating NUL. */
  predicate End(fmt: string, i: nat) { i >= |fmt| || fmt[i] == '\0' }

  predicate IsDigit(c: char) { '0' <= c <= '9' }

  // ---------------------------------------------------------------- parsing

  function Parse(fmt: string, i: nat): seq<Piece>
    decreases |fmt| - i, 0
  {
    if End(fmt, i) then []
    else if fmt[i] != '%' then [Lit(fmt[i])] + Parse(fmt, i + 1)
    else ParseConv(fmt, i + 1)
  }

  /** After a percent sign. */
  function ParseConv(fmt: string, i: nat): seq<Piece>
    decreases |fmt| - i, 1
  {
    if End(fmt, i) then []
    else if fmt[i] == '%' then [Lit('%')] + Parse(fmt, i + 1)
    else if fmt[i] == '0' then ParseWidth(fmt, i + 1, true, -1, -1)
    else ParseWidth(fmt, i, false, -1, -1)
  }

  /** Digits before a point are the width; digits after it are counted without effect, and the
      letter l is skipped. Both numbers are signed 32-bit values, negative while there is none. */
  function ParseWidth(fmt: string, i: nat, zero: bool, width: int, after: int): seq<Piece>
    decreases |fmt| - i, 0
  {
    if End(fmt, i) then []
    else if fmt[i] == '.' then ParseWidth(fmt, i + 1, zero, width, 0)
    else if IsDigit(fmt[i]) then
      if after < 0 then ParseWidth(fmt, i + 1, zero, WidthWith(width, fmt[i]), after)
      else ParseWidth(fmt, i + 1, zero, width, WidthWith(after, fmt[i]))
    else if fmt[i] == 'l' then ParseWidth(fmt, i + 1, zero, width, after)
    else [Conv(zero, width, fmt[i])] + Parse(fmt, i + 1)
  }

  function WidthWith(width: int, c: char): int
    requires IsDigit(c)
  {
    Signed((if width < 0 then 0 else width * 10) + (c as int - '0' as int))
  }

  // ---------------------------------------------------------------- rendering

  function Spaces(n: int): string { if n > 0 then Repeat(' ', n) else [] }

  function Zeros(n: int): string { if n > 0 then Repeat('0', n) else [] }

  /** A word as a number: its sign bit is bit 31 when it is signed. */
  function Number(v: Word, signed: bool): int {
    if signed && v >= 0x8000_0000 then v - U32 else v
  }

  function Abs(n: int): nat { if n < 0 then -n else n }

  /** A number with padding: zeros go between sign and digits, spaces before both. */
  function Padded(n: int, base: nat, upper: bool, zero: bool, pad: int): string
    requires 2 <= base <= 16
  {
    var sign := if n < 0 then "-" else "";
    var digits := Digits(Abs(n), base, upper);
    if zero then sign + Zeros(pad) + digits else Spaces(pad) + sign + digits
  }

  /** A number in a field: the padding is what sign and digits leave of the width. */
  function IntField(n: int, base: nat, upper: bool, zero: bool, width: int): string
    requires 2 <= base <= 16
  {
    Padded(n, base, upper, zero, Signed(width - |Digits(Abs(n), base, upper)| - if n < 0 then 1 else 0))
  }

  predicate IsInt(letter: char) { IsSigned(letter) || letter == 'u' || letter == 'o' || letter == 'x' || letter == 'X' }

  predicate TakesArg(letter: char) { IsInt(letter) || letter == 'c' || letter == 's' }

  predicate IsSigned(letter: char) { letter == 'd' || letter == 'i' }

  function Base(letter: char): nat {
    if letter == 'o' then 8 else if letter == 'x' || letter == 'X' then 16 else 10
  }

  /** The character in the low byte of a word. */
  function LowChar(v: bv32): char { LowByte(ToNat(v)) }

  function LowByte(n: nat): char { (n % 256) as char }

  /** One conversion of the argument word v; other letters print nothing. */
  function Field(zero: bool, width: int, letter: char, v: bv32, str: bv32 -> Text): string {
    if IsInt(letter) then IntField(Number(ToNat(v), IsSigned(letter)), Base(letter), letter == 'X', zero, width)
    else if letter == 'c' then Spaces(Signed(width - 1)) + [LowChar(v)]
    else if letter == 's' then Spaces(Signed(width - |str(v)|)) + str(v)
    else []
  }

  /** The pieces, with the arguments from the k-th on. */
  function Render(ps: seq<Piece>, args: Args, k: nat): string {
    if ps == [] then []
    else
      match ps[0]
      case Lit(c) => [c] + Render(ps[1..], args, k)
      case Conv(zero, width, letter) =>
        Field(zero, width, letter, args.word(k), args.str)
        + Render(ps[1..], args, if TakesArg(letter) then k + 1 else k)
  }

  // ---------------------------------------------------------------- laws of integer fields

  /** The characters an integer field needs at least: its digits and its sign. */
  function Needed(n: int, base: nat): nat
    requires 2 <= base <= 16
  {
    |Digits(Abs(n), base, false)| + (if n < 0 then 1 else 0)
  }

  lemma {:induction false} DigitsBound(m: nat, base: nat, upper: bool, k: nat)
    requires 2 <= base <= 16 && m < Pow(2, k) && k > 0
    ensures |Digits(m, base, upper)| <= k && |Digits(m, base, upper)| == |Digits(m, base, false)|
    decreases k
  {
    if m >= base {
      DivMod(m, base);
      MulAtMost(2, base, m / base);
      assert Pow(2, k) == 2 * Pow(2, k - 1);
      assert k > 1;
      DigitsBound(m / base, base, upper, k - 1);
    }
  }

  lemma Pow32()
    ensures Pow(2, 32) == U32
  {
    assert Pow(2, 8) == 256;
    assert Pow(2, 16) == 256 * Pow(2, 8) by { PowEight(8); }
    assert Pow(2, 24) == 256 * Pow(2, 16) by { PowEight(16); }
    assert Pow(2, 32) == 256 * Pow(2, 24) by { PowEight(24); }
  }

  lemma PowEight(n: nat)
    ensures Pow(2, n + 8) == 256 * Pow(2, n)
  {
    assert Pow(2, n + 8) == 2 * Pow(2, n + 7) && Pow(2, n + 7) == 2 * Pow(2, n + 6);
    assert Pow(2, n + 6) == 2 * Pow(2, n + 5) && Pow(2, n + 5) == 2 * Pow(2, n + 4);
    assert Pow(2, n + 4) == 2 * Pow(2, n + 3) && Pow(2, n + 3) == 2 * Pow(2, n + 2);
    assert Pow(2, n + 2) == 2 * Pow(2, n + 1) && Pow(2, n + 1) == 2 * Pow(2, n);
  }

  /** The digits of a 32-bit number, whatever the case of its letters. */
  lemma NeededBound(n: int, base: nat, upper: bool)
    requires 2 <= base <= 16 && Abs(n) < U32
    ensures |Digits(Abs(n), base, upper)| + (if n < 0 then 1 else 0) == Needed(n, base) <= 33
  {
    Pow32();
    DigitsBound(Abs(n), base, upper, 32);
  }

  /** A field is as long as its width, or as its sign and digits where they are longer, if and
      only if subtracting them from the width does not wrap. */
  lemma FieldLength(n: int, base: nat, upper: bool, zero: bool, width: int)
    requires 2 <= base <= 16 && Abs(n) < U32 && -0x8000_0000 <= width < 0x8000_0000
    ensures var need := Needed(n, base);
            |IntField(n, base, upper, zero, width)| == (if width > need then width else need) <==>
                width - need >= -0x8000_0000
  {
    NeededBound(n, base, upper);
  }

  /** Reads a field back: spaces, a sign, then a numeral. */
  function Decode(s: string, base: nat): int {
    if s == [] then 0
    else if s[0] == ' ' then Decode(s[1..], base)
    else if s[0] == '-' then 0 - Value(s[1..], base)
    else Value(s, base)
  }

  lemma {:induction false} DecodeSpaces(n: nat, s: string, base: nat)
    ensures Decode(Repeat(' ', n) + s, base) == Decode(s, base)
  {
    if n == 0 {
      assert Repeat(' ', 0) + s == s;
    } else {
      assert (Repeat(' ', n) + s)[1..] == Repeat(' ', n - 1) + s;
      DecodeSpaces(n - 1, s, base);
    }
  }

  lemma DecodeNumeral(n: int, zeros: nat, base: nat, upper: bool)
    requires 2 <= base <= 16
    ensures Decode((if n < 0 then "-" else "") + Repeat('0', zeros) + Digits(Abs(n), base, upper), base) == n
  {
    var digits := Digits(Abs(n), base, upper);
    var body := Repeat('0', zeros) + digits;
    DigitsRoundTrip(Abs(n), base, upper);
    DigitsShape(Abs(n), base, upper);
    ZerosRoundTrip(zeros, digits, base);
    if n < 0 {
      assert "-" + Repeat('0', zeros) + digits == "-" + body;
      assert ("-" + body)[1..] == body;
    } else {
      assert "" + Repeat('0', zeros) + digits == body;
      assert body[0] == if zeros > 0 then '0' else digits[0];
    }
  }

  lemma DecodeSpaced(n: int, spaces: nat, base: nat, upper: bool)
    requires 2 <= base <= 16
    ensures Decode(Repeat(' ', spaces) + (if n < 0 then "-" else "") + Digits(Abs(n), base, upper), base) == n
  {
    var sign, digits := if n < 0 then "-" else "", Digits(Abs(n), base, upper);
    DecodeNumeral(n, 0, base, upper);
    assert sign + Repeat('0', 0) + digits == sign + digits;
    DecodeSpaces(spaces, sign + digits, base);
    assert Repeat(' ', spaces) + sign + digits == Repeat(' ', spaces) + (sign + digits);
  }

  lemma PaddedRoundTrip(n: int, base: nat, upper: bool, zero: bool, pad: int)
    requires 2 <= base <= 16
    ensures Decode(Padded(n, base, upper, zero, pad), base) == n
  {
    var k := if pad > 0 then pad else 0;
    if zero {
      DecodeNumeral(n, k, base, upper);
      assert Zeros(pad) == Repeat('0', k);
    } else {
      DecodeSpaced(n, k, base, upper);
      assert Spaces(pad) == Repeat(' ', k);
    }
  }

  /** Print and parse: an integer field denotes exactly the number that was printed. */
  lemma IntFieldRoundTrip(n: int, base: nat, upper: bool, zero: bool, width: int)
    requires 2 <= base <= 16
    ensures Decode(IntField(n, base, upper, zero, width), base) == n
  {
    var pad := Signed(width - |Digits(Abs(n), base, upper)| - if n < 0 then 1 else 0);
    assert IntField(n, base, upper, zero, width) == Padded(n, base, upper, zero, pad);
    PaddedRoundTrip(n, base, upper, zero, pad);
  }

  lemma Unpadded(n: int, base: nat, upper: bool, zero: bool, pad: int)
    requires 2 <= base <= 16 && pad <= 0
    ensures Padded(n, base, upper, zero, pad) == (if n < 0 then "-" else "") + Digits(Abs(n), base, upper)
  {
  }

  /** Without a width there is no padding. */
  lemma NoWidthNoPad(n: int, base: nat, upper: bool, zero: bool)
    requires 2 <= base <= 16 && Abs(n) < U32
    ensures IntField(n, base, upper, zero, -1) == (if n < 0 then "-" else "") + Digits(Abs(n), base, upper)
  {
    NeededBound(n, base, upper);
    var pad := -1 - |Digits(Abs(n), base, upper)| - if n < 0 then 1 else 0;
    Rewrap(pad, 0);
    Unpadded(n, base, upper, zero, pad);
  }

  /** Without a width nothing is added: no redundant zero and no space. */
  lemma NoRedundantZero(n: int, base: nat, upper: bool, zero: bool)
    requires 2 <= base <= 16 && Abs(n) < U32
    ensures var s := IntField(n, base, upper, zero, -1);
            if n < 0 then |s| > 1 && s[0] == '-' && s[1] != '0'
                else s != [] && s[0] != ' ' && (s[0] == '0' ==> s == "0")
  {
    DigitsShape(Abs(n), base, upper);
    NoWidthNoPad(n, base, upper, zero);
  }
}
