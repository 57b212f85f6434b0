/**
  What the fields of a format mean, in plain terms: which number, base and letter case each
  conversion letter stands for, how fields are padded, and which argument each one takes.
*/
module FormatLaws {
  import opened Words
  import opened Numerals
  import opened HexWord
  import opened Formats
  import opened FormatParsing

  // ---------------------------------------------------------------- words and digits

  lemma NibbleIs(d: bv32)
    ensures Nibble(d) == (d & 0xF) as nat
  {
  }

  lemma PlacesStep(v: bv32, k: nat)
    requires k > 0
    ensures Places(v, k) == 16 * Places(v >> 4, k - 1) + (v & 0xF) as nat
  {
    NibbleIs(v);
  }

  /** The value of the low sixteen bits, by groups of four. */
  function LowHalf(v: bv32): nat {
    (v & 0xF) as nat + 0x10 * ((v >> 4) & 0xF) as nat
    + 0x100 * ((v >> 8) & 0xF) as nat + 0x1000 * ((v >> 12) & 0xF) as nat
  }

  lemma Shifts(v: bv32)
    ensures v >> 4 >> 4 == v >> 8 && v >> 8 >> 4 == v >> 12 && v >> 12 >> 4 == v >> 16
  {
  }

  lemma TwoPlaces(v: bv32, k: nat)
    requires k >= 2
    ensures Places(v, k) == 0x100 * Places(v >> 8, k - 2) + 0x10 * ((v >> 4) & 0xF) as nat + (v & 0xF) as nat
  {
    PlacesStep(v, k);
    PlacesStep(v >> 4, k - 1);
    Shifts(v);
  }

  lemma FourPlaces(v: bv32, k: nat)
    requires k >= 4
    ensures Places(v, k) == 0x1_0000 * Places(v >> 16, k - 4) + LowHalf(v)
  {
    TwoPlaces(v, k);
    TwoPlaces(v >> 8, k - 2);
    Shifts(v);
    assert v >> 8 >> 8 == v >> 16;
  }

  /** The value of a word, from its bits. */
  lemma ToNatIs(v: bv32)
    ensures ToNat(v) == 0x1_0000 * LowHalf(v >> 16) + LowHalf(v)
  {
    FourPlaces(v, 8);
    FourPlaces(v >> 16, 4);
    assert Places(v >> 16 >> 16, 0) == 0;
  }

  const LOWER := "0123456789abcdef"
  const UPPER := "0123456789ABCDEF"

  lemma DigitCharIs(d: nat, upper: bool)
    requires d < 16
    ensures DigitChar(d, upper) == if upper then UPPER[d] else LOWER[d]
  {
  }

  lemma DigitsAreAlphabet(m: nat, base: nat, upper: bool, i: nat)
    requires 2 <= base <= 16 && i < |Digits(m, base, upper)|
    ensures Digits(m, base, upper)[i] in if upper then UPPER else LOWER
  {
    DigitsAreNumeral(m, base, upper);
    var c := Digits(m, base, upper)[i];
    DigitCharIs(DigitValue(c), upper);
  }

  // ---------------------------------------------------------------- numbers

  /** %d and %i print the word as a signed number, in base 10. */
  lemma SignedDecimal(letter: char, zero: bool, width: int, v: bv32, str: bv32 -> Text)
    requires letter == 'd' || letter == 'i'
    ensures Decode(Field(zero, width, letter, v, str), 10) ==
            if ToNat(v) < 0x8000_0000 then ToNat(v) else ToNat(v) - 0x1_0000_0000
  {
    var n := Number(ToNat(v), true);
    assert Field(zero, width, letter, v, str) == IntField(n, 10, false, zero, width);
    IntFieldRoundTrip(n, 10, false, zero, width);
  }

  function BaseOf(letter: char): nat { if letter == 'u' then 10 else if letter == 'o' then 8 else 16 }

  lemma UnsignedIsIntField(letter: char, zero: bool, width: int, v: bv32, str: bv32 -> Text)
    requires letter in "uoxX"
    ensures Field(zero, width, letter, v, str) == IntField(ToNat(v), BaseOf(letter), letter == 'X', zero, width)
  {
  }

  /** %u prints it as an unsigned number in base 10, %o in base 8, %x and %X in base 16. */
  lemma UnsignedField(letter: char, zero: bool, width: int, v: bv32, str: bv32 -> Text)
    requires letter in "uoxX"
    ensures var base := if letter == 'u' then 10 else if letter == 'o' then 8 else 16;
            Decode(Field(zero, width, letter, v, str), base) == ToNat(v)
  {
    UnsignedIsIntField(letter, zero, width, v, str);
    IntFieldRoundTrip(ToNat(v), BaseOf(letter), letter == 'X', zero, width);
  }

  /** The digits of a numeral are all of one case. */
  lemma FieldAlphabet(n: int, base: nat, upper: bool, zero: bool, width: int, i: nat)
    requires 2 <= base <= 16 && i < |IntField(n, base, upper, zero, width)|
    ensures var c := IntField(n, base, upper, zero, width)[i];
            c == ' ' || c == '-' || c in if upper then UPPER else LOWER
  {
    var field, digits := IntField(n, base, upper, zero, width), Digits(Abs(n), base, upper);
    assert field[|field| - |digits|..] == digits;
    if i >= |field| - |digits| {
      DigitsAreAlphabet(Abs(n), base, upper, i - (|field| - |digits|));
      assert field[i] == digits[i - (|field| - |digits|)];
    }
  }

  lemma NoOtherCase(c: char, upper: bool)
    requires c == ' ' || c == '-' || c in if upper then UPPER else LOWER
    ensures if upper then !('a' <= c <= 'z') else !('A' <= c <= 'Z')
  {
  }

  /** Letters in digits are upper-case for %X and lower-case for %x. */
  lemma LetterCase(upper: bool, zero: bool, width: int, v: bv32, str: bv32 -> Text, i: nat)
    requires i < |Field(zero, width, if upper then 'X' else 'x', v, str)|
    ensures var c := Field(zero, width, if upper then 'X' else 'x', v, str)[i];
            if upper then !('a' <= c <= 'z') else !('A' <= c <= 'Z')
  {
    var field := Field(zero, width, if upper then 'X' else 'x', v, str);
    assert field == IntField(ToNat(v), 16, upper, zero, width);
    FieldAlphabet(ToNat(v), 16, upper, zero, width, i);
    NoOtherCase(field[i], upper);
  }

  // ---------------------------------------------------------------- padding

  predicate AllSpaces(s: string) { forall i :: 0 <= i < |s| ==> s[i] == ' ' }

  /** A field that is padded with spaces is spaces and then the field without a width. */
  lemma SpacePadded(n: int, base: nat, upper: bool, width: int)
    requires 2 <= base <= 16 && Abs(n) < U32
    ensures var s, bare := IntField(n, base, upper, false, width), IntField(n, base, upper, false, -1);
            |bare| <= |s| && AllSpaces(s[..|s| - |bare|]) && s[|s| - |bare|..] == bare
  {
    NoWidthNoPad(n, base, upper, false);
  }

  /** A field that is padded with zeros starts with the sign and has no space. */
  lemma ZeroPadded(n: int, base: nat, upper: bool, width: int, i: nat)
    requires 2 <= base <= 16 && i < |IntField(n, base, upper, true, width)|
    ensures var c := IntField(n, base, upper, true, width)[i]; c != ' ' && (c == '-' <==> n < 0 && i == 0)
  {
    var field, digits := IntField(n, base, upper, true, width), Digits(Abs(n), base, upper);
    DigitsShape(Abs(n), base, upper);
    assert field[|field| - |digits|..] == digits;
    if i >= |field| - |digits| {
      assert field[i] == digits[i - (|field| - |digits|)];
    }
  }

  lemma SpacesThen(n: int, t: string)
    ensures var s := Spaces(n) + t;
            |s| == (if n > 0 then n else 0) + |t| && AllSpaces(s[..|s| - |t|]) && s[|s| - |t|..] == t
  {
  }

  lemma LowByteIs(n: nat)
    requires n < 256
    ensures LowByte(n) == n as char
  {
  }

  /** %c prints the character of an argument below 256, after spaces up to the width. */
  lemma CharField(zero: bool, width: int, v: bv32, str: bv32 -> Text, c: char)
    requires ToNat(v) < 256 && -0x8000_0000 < width < 0x8000_0000 && c == ToNat(v) as char
    ensures var s := Field(zero, width, 'c', v, str);
            |s| == (if width > 1 then width else 1) && AllSpaces(s[..|s| - 1]) && s[|s| - 1..] == [c]
  {
    Rewrap(width - 1, 0);
    LowByteIs(ToNat(v));
    assert LowChar(v) == c;
    assert Field(zero, width, 'c', v, str) == Spaces(width - 1) + [c];
    SpacesThen(width - 1, [c]);
  }

  /** %s prints the string, after spaces up to the width. */
  lemma StringField(zero: bool, width: int, v: bv32, str: bv32 -> Text)
    requires |str(v)| - 0x8000_0000 <= width < 0x8000_0000
    ensures var s, n := Field(zero, width, 's', v, str), |str(v)|;
            |s| == (if width > n then width else n) && AllSpaces(s[..|s| - n]) && s[|s| - n..] == str(v)
  {
    Rewrap(width - |str(v)|, 0);
    assert Field(zero, width, 's', v, str) == Spaces(width - |str(v)|) + str(v);
    SpacesThen(width - |str(v)|, str(v));
  }

  // ---------------------------------------------------------------- arguments

  const TAKERS := "diuoxXcs"

  /** Any other letter prints nothing. */
  lemma OtherLetters(zero: bool, width: int, letter: char, v: bv32, str: bv32 -> Text)
    requires letter !in TAKERS
    ensures Field(zero, width, letter, v, str) == ""
  {
  }

  function TakenBy(p: Piece): nat { if p.Conv? && p.letter in TAKERS then 1 else 0 }

  /** The arguments that a list of pieces takes. */
  function Taken(ps: seq<Piece>): nat {
    if ps == [] then 0 else TakenBy(ps[0]) + Taken(ps[1..])
  }

  function Printed(p: Piece, args: Args, k: nat): string {
    if p.Lit? then [p.c] else Field(p.zero, p.width, p.letter, args.word(k), args.str)
  }

  lemma RenderFirst(p: Piece, rest: seq<Piece>, args: Args, k: nat)
    ensures Render([p] + rest, args, k) == Printed(p, args, k) + Render(rest, args, k + TakenBy(p))
    ensures Taken([p] + rest) == TakenBy(p) + Taken(rest)
  {
    assert ([p] + rest)[1..] == rest;
  }

  lemma Join(all: string, first: string, tail: string, left: string, mine: string, other: string)
    requires all == first + tail && tail == mine + other && left == first + mine
    ensures all == left + other
  {
  }

  /** Pieces are printed one after the other, each with the next argument if it takes one. */
  lemma {:induction false} RenderAppend(ps: seq<Piece>, qs: seq<Piece>, args: Args, k: nat)
    ensures Render(ps + qs, args, k) == Render(ps, args, k) + Render(qs, args, k + Taken(ps))
    decreases |ps|
  {
    if ps == [] {
      assert ps + qs == qs;
    } else {
      var p, rest := ps[0], ps[1..];
      var next := k + TakenBy(p);
      assert ps == [p] + rest && ps + qs == [p] + (rest + qs);
      RenderFirst(p, rest, args, k);
      RenderFirst(p, rest + qs, args, k);
      RenderAppend(rest, qs, args, next);
      Join(Render(ps + qs, args, k), Printed(p, args, k), Render(rest + qs, args, next),
           Render(ps, args, k), Render(rest, args, next), Render(qs, args, k + Taken(ps)));
    }
  }

  lemma RenderOne(p: Piece, args: Args, k: nat)
    ensures Render([p], args, k) == Printed(p, args, k) && Taken([p]) == TakenBy(p)
  {
    assert [p][1..] == [];
  }

  /** The j-th piece is printed with the argument that follows those taken before it. */
  lemma PieceInPlace(before: seq<Piece>, p: Piece, after: seq<Piece>, args: Args)
    ensures Render(before + [p] + after, args, 0) ==
            Render(before, args, 0)
            + Printed(p, args, Taken(before))
            + Render(after, args, Taken(before + [p]))
  {
    RenderAppend(before + [p], after, args, 0);
    RenderAppend(before, [p], args, 0);
    RenderOne(p, args, Taken(before));
  }

  /** From the format to the number: what "%d" prints for a word is its signed value. */
  lemma PrintsSigned(args: Args)
    ensures Decode(Render(Parse("%d", 0), args, 0), 10) ==
            var n := ToNat(args.word(0)); if n < 0x8000_0000 then n else n - 0x1_0000_0000
  {
    var p, plain := Conv(false, -1, 'd'), Frill(false, "", 0);
    assert Format([p], [plain]) + "" == "%d" by {
      assert [p][1..] == [] && FrillText(plain) == "";
    }
    FormatRoundTrip([p], [plain], "");
    RenderOne(p, args, 0);
    SignedDecimal('d', false, -1, args.word(0), args.str);
  }
}
