/** The logging printf: one loop over the format with a three-state automaton. */
module LogPrintf {
  import opened Words
  import opened Numerals
  import opened HexWord
  import opened Formats

  datatype State = Chars | FirstFmtChar | OtherFmtChar

  /** Emits a character r times; not at all when r is negative. */
  method RepChar(c: char, r: int) returns (out: string)
    ensures out == if r > 0 then Repeat(c, r) else []
  {
    out := [];
    var left := r;
    while left > 0
      invariant left <= r && (r > 0 ==> 0 <= left && out == Repeat(c, r - left)) && (r <= 0 ==> out == [])
    {
      out := out + [c];
      left := left - 1;
    }
  }

  lemma {:induction false} SameLength(m: nat, base: nat, upper: bool)
    requires 2 <= base <= 16
    ensures |Digits(m, base, upper)| == |Digits(m, base, false)|
  {
    if m >= base {
      SameLength(m / base, base, upper);
    }
  }

  function DigitCount(m: nat, base: nat): nat
    requires 2 <= base <= 16
  {
    |Digits(m, base, false)|
  }

  /** `p` is the place value reached after `n` digits, and `cur` is v without n - 1 of them. */
  ghost predicate Counting(v: Word, base: nat, cur: nat, p: nat, n: nat)
    requires 2 <= base <= 16
  {
    n > 0 && p == Pow(base, n - 1) && n - 1 + DigitCount(cur, base) == DigitCount(v, base)
  }

  lemma OneMore(cur: nat, base: nat)
    requires 2 <= base <= 16 && cur / base > 0
    ensures DigitCount(cur, base) == DigitCount(cur / base, base) + 1
    ensures (cur / base) * base <= cur && cur / base < cur
  {
    DivMod(cur, base);
    MulAtMost(1, cur / base, base);
    MulAtMost(2, base, cur / base);
    assert base * (cur / base) == (cur / base) * base;
  }

  /** A number is at least the place value of each of its digits. */
  lemma {:induction false} PlaceAtMost(v: nat, base: nat, n: nat)
    requires 2 <= base <= 16 && n < DigitCount(v, base)
    ensures n > 0 ==> Pow(base, n) <= v
    decreases n
  {
    if n > 0 {
      DivMod(v, base);
      assert v >= base;
      MulAtMost(1, v / base, base);
      if n > 1 {
        PlaceAtMost(v / base, base, n - 1);
      }
      MulAtMost(Pow(base, n - 1), v / base, base);
    }
  }

  /** The next place value; it still fits into 32 bits. */
  method NextPower(ghost v: Word, base: nat, p: Word, ghost n: nat) returns (p': Word)
    requires 2 <= base <= 16 && 0 < n < DigitCount(v, base) && p == Pow(base, n - 1)
    ensures p' == Pow(base, n)
  {
    PlaceAtMost(v, base, n);
    assert Pow(base, n) == p * base;
    p' := p * base;
  }

  /** Drops the lowest digit. */
  method Shrink(v: nat, base: nat) returns (r: nat)
    requires base > 0
    ensures r == v / base
  {
    DivMod(v, base);
    r := v / base;
  }

  /** Counts the digits of v and finds the place value of the first one. The place value is
      a 32-bit word throughout: the multiplication never wraps. */
  method CountDigits(v: Word, base: nat) returns (p: Word, digitCount: nat)
    requires 2 <= base <= 16
    ensures digitCount == DigitCount(v, base) && p == Pow(base, digitCount - 1)
  {
    p, digitCount := 1, 1;
    ghost var cur: nat := v;
    var vShrink := Shrink(v, base);
    assert Counting(v, base, cur, p, digitCount);
    while vShrink > 0
      invariant vShrink == cur / base && Counting(v, base, cur, p, digitCount)
      decreases cur
    {
      OneMore(cur, base);
      p := NextPower(v, base, p, digitCount);
      digitCount := digitCount + 1;
      cur := vShrink;
      vShrink := Shrink(vShrink, base);
    }
    OneDigit(cur, base);
  }

  lemma OneDigit(cur: nat, base: nat)
    requires 2 <= base <= 16 && cur / base == 0
    ensures DigitCount(cur, base) == 1
  {
    DivMod(cur, base);
  }

  /** `out` is the first part of the numeral; v and p are the value and the place value of
      the rest. */
  ghost predicate Printing(all: string, out: string, v: nat, p: nat, base: nat) {
    && |out| <= |all| && out == all[..|out|]
    && v == Value(all[|out|..], base)
    && p == if |out| < |all| then Pow(base, |all| - |out| - 1) else 0
  }

  lemma PrintOne(all: string, out: string, v: nat, p: nat, base: nat, upper: bool, d: nat, v': nat, p': nat)
    requires 2 <= base <= 16 && Numeral(all, base, upper) && Printing(all, out, v, p, base) && |out| < |all|
    requires d == DigitValue(all[|out|]) && v' == Value(all[|out| + 1..], base)
    requires p' == if |out| + 1 < |all| then Pow(base, |all| - |out| - 2) else 0
    ensures d < 16 && Printing(all, out + [DigitChar(d, upper)], v', p', base)
  {
    assert all[..|out| + 1] == out + [all[|out|]];
  }

  /** One turn: the digit at the top place, and what is left. */
  method NextPlace(v: nat, p: nat, base: nat, upper: bool, ghost rest: string) returns (d: nat, v': nat, p': nat)
    requires 2 <= base <= 16 && rest != [] && Numeral(rest, base, upper)
    requires v == Value(rest, base) && p == Pow(base, |rest| - 1)
    ensures d == DigitValue(rest[0]) && v' == Value(rest[1..], base)
    ensures p' == if |rest| > 1 then Pow(base, |rest| - 2) else 0
  {
    TopDigit(rest, base, upper);
    d := v / p;
    v' := v % p;
    p' := p / base;
  }

  lemma NotDone(all: string, out: string, v: nat, p: nat, base: nat)
    requires base > 0 && Printing(all, out, v, p, base)
    ensures p == 0 <==> out == all
  {
    if |out| < |all| {
      PowPositive(base, |all| - |out| - 1);
    } else {
      assert all[..|all|] == all;
    }
  }

  /** Emits the digits from the highest place value down. */
  method PrintPlaces(v0: Word, p0: Word, base: nat, upper: bool) returns (out: string)
    requires 2 <= base <= 16 && p0 == Pow(base, |Digits(v0, base, upper)| - 1)
    ensures out == Digits(v0, base, upper)
  {
    ghost var all := Digits(v0, base, upper);
    DigitsRoundTrip(v0, base, upper);
    DigitsAreNumeral(v0, base, upper);
    out := [];
    var v: nat, p: nat := v0, p0;
    assert all[0..] == all;
    while p != 0
      invariant Printing(all, out, v, p, base)
      decreases |all| - |out|
    {
      ghost var rest, vWas, pWas, done := all[|out|..], v, p, out;
      var d;
      NotDone(all, out, v, p, base);
      d, v, p := NextPlace(v, p, base, upper, rest);
      assert rest[1..] == all[|out| + 1..] && rest[0] == all[|out|];
      PrintOne(all, done, vWas, pWas, base, upper, d, v, p);
      out := out + [DigitChar(d, upper)];
    }
    NotDone(all, out, v, p, base);
  }

  /** What precedes the digits of an integer field. */
  method PrintLead(sign: bool, zero: bool, before0: int) returns (out: string)
    ensures var s, pad := if sign then "-" else "", if sign then Signed(before0 - 1) else before0;
            out == if zero then s + Zeros(pad) else Spaces(pad) + s
  {
    var before := before0;
    out := [];
    if zero {
      if sign {
        out := out + "-";
        before := Signed(before - 1);
      }
      var pad := RepChar('0', before);
      out := out + pad;
    } else {
      if sign {
        before := Signed(before - 1);
      }
      var pad := RepChar(' ', before);
      out := pad;
      if sign {
        out := out + "-";
      }
    }
  }

  /** One integer conversion: strips the sign, counts the digits, pads and prints. */
  method PrintInteger(v0: Word, base: nat, signed: bool, upper: bool, zero: bool, width: int) returns (out: string)
    requires 2 <= base <= 16
    ensures out == IntField(Number(v0, signed), base, upper, zero, width)
  {
    var v: Word, sign := v0, false;
    if signed && v >= 0x8000_0000 {
      v := (U32 - v) % U32;
      sign := true;
    }
    assert v == Abs(Number(v0, signed)) && (sign <==> Number(v0, signed) < 0);
    var p, digitCount := CountDigits(v, base);
    SameLength(v, base, upper);
    var lead := PrintLead(sign, zero, Signed(width - digitCount));
    Rewrap(width - digitCount, -1);
    var places := PrintPlaces(v, p, base, upper);
    out := lead + places;
  }

  /** What is still to be printed in each state of the automaton. */
  ghost function Todo(fmt: string, i: nat, state: State, zero: bool, before: int, after: int): seq<Piece> {
    match state
    case Chars => Parse(fmt, i)
    case FirstFmtChar => ParseConv(fmt, i)
    case OtherFmtChar => ParseWidth(fmt, i, zero, before, after)
  }

  /** One conversion letter, and how many arguments it took. */
  method PrintConv(zero: bool, before: int, c: char, args: Args, k: nat) returns (out: string, k': nat)
    ensures out == Field(zero, before, c, args.word(k), args.str) && k' == if TakesArg(c) then k + 1 else k
  {
    out, k' := [], k;
    var fmtBase, fmtSigned, fmtCase := 10, true, false;
    match c {
      case 'u' => fmtSigned := false;
      case 'o' => fmtSigned, fmtBase := false, 8;
      case 'x' => fmtSigned, fmtBase := false, 16;
      case 'X' => fmtSigned, fmtBase, fmtCase := false, 16, true;
      case _ =>
    }
    if IsInt(c) {
      out := PrintInteger(ToNat(args.word(k)), fmtBase, fmtSigned, fmtCase, zero, before);
      k' := k + 1;
    } else if c == 'c' {
      var pad := RepChar(' ', Signed(before - 1));
      out, k' := pad + [LowChar(args.word(k))], k + 1;
    } else if c == 's' {
      var s := args.str(args.word(k));
      var pad := RepChar(' ', Signed(before - |s|));
      out := pad;
      for j := 0 to |s|
        invariant out == pad + s[..j]
      {
        out := out + [s[j]];
      }
      assert s[..|s|] == s;
      k' := k + 1;
    }
  }

  lemma Piecewise(out: string, p: Piece, rest: seq<Piece>, args: Args, k: nat)
    ensures out + Render([p] + rest, args, k) ==
      match p
      case Lit(c) => (out + [c]) + Render(rest, args, k)
      case Conv(zero, width, letter) =>
        (out + Field(zero, width, letter, args.word(k), args.str))
            + Render(rest, args, if TakesArg(letter) then k + 1 else k)
  {
    assert ([p] + rest)[1..] == rest;
  }

  /** A character after the first one of a conversion: a point, a digit, the letter l, or the
      letter that determines the type, which prints the field and ends the conversion. */
  method OtherChar(fmt: string, i: nat, zero: bool, before0: int, after0: int, args: Args, k0: nat, out0: string)
    returns (state: State, before: int, after: int, k: nat, out: string)
    requires !End(fmt, i)
    ensures state == Chars || state == OtherFmtChar
    ensures out + Render(Todo(fmt, i + 1, state, zero, before, after), args, k)
         == out0 + Render(ParseWidth(fmt, i, zero, before0, after0), args, k0)
  {
    state, before, after, k, out := OtherFmtChar, before0, after0, k0, out0;
    var c := fmt[i];
    if c == '.' {
      after := 0;
    } else if IsDigit(c) {
      if after < 0 {
        before := Signed((if before < 0 then 0 else before * 10) + (c as int - '0' as int));
      } else {
        after := Signed(after * 10 + (c as int - '0' as int));
      }
    } else if c != 'l' {
      Piecewise(out, Conv(zero, before, c), Parse(fmt, i + 1), args, k);
      var field;
      field, k := PrintConv(zero, before, c, args, k);
      out, state := out + field, Chars;
    }
  }

  /** The loop over the format prints exactly the rendered pieces. */
  method PrivatePrintf(fmt: string, args: Args) returns (out: string)
    ensures out == Render(Parse(fmt, 0), args, 0)
  {
    var state, i, k := Chars, 0, 0;
    var leadingZero, before, after := false, 0, 0;
    out := [];
    while !End(fmt, i)
      invariant i <= |fmt|
      invariant state == FirstFmtChar ==> !leadingZero && before == after == -1
      invariant out + Render(Todo(fmt, i, state, leadingZero, before, after), args, k) == Render(Parse(fmt, 0), args, 0)
      decreases |fmt| - i
    {
      var c := fmt[i];
      var other := state == OtherFmtChar;
      if state == Chars {
        if c == '%' {
          leadingZero, before, after := false, -1, -1;
          state := FirstFmtChar;
        } else {
          Piecewise(out, Lit(c), Parse(fmt, i + 1), args, k);
          out := out + [c];
        }
      } else if state == FirstFmtChar {
        if c == '0' {
          leadingZero, state := true, OtherFmtChar;
        } else if c == '%' {
          Piecewise(out, Lit(c), Parse(fmt, i + 1), args, k);
          out, state := out + [c], Chars;
        } else {
          other := true;
        }
      }
      if other {
        state, before, after, k, out := OtherChar(fmt, i, leadingZero, before, after, args, k, out);
      }
      i := i + 1;
    }
  }
}
