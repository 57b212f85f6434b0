/** The minimal printf: literals, %c, %x by shifting and masking, %s and %%. */
module AltPrintf {
  import opened Words
  import opened Numerals
  import opened HexWord
  import opened Formats

  /** What a format prints. A letter that is not supported prints nothing and takes nothing;
      a percent sign at the very end ends the output. */
  function AltRender(fmt: string, i: nat, args: Args, k: nat): string
    decreases |fmt| - i
  {
    if End(fmt, i) then []
    else if fmt[i] != '%' then [fmt[i]] + AltRender(fmt, i + 1, args, k)
    else if End(fmt, i + 1) then []
    else
      var c := fmt[i + 1];
      AltField(c, args.word(k), args.str)
          + AltRender(fmt, i + 2, args, if c == 'c' || c == 'x' || c == 's' then k + 1 else k)
  }

  function AltField(c: char, v: bv32, str: bv32 -> Text): string {
    if c == '%' then "%"
    else if c == 'c' then [LowChar(v)]
    else if c == 'x' then Digits(ToNat(v), 16, false)
    else if c == 's' then str(v)
    else []
  }

  /** The hexadecimal printer: finds the first non-zero digit, then masks out and shifts
      down one digit after the other. The search ends at a shift that is not negative. */
  method PrintHex(v: bv32) returns (out: string)
    ensures out == Digits(ToNat(v), 16, false)
  {
    ShrAll(v);
    if v == 0 {
      HexFromIsNumeral(v, 0, 8);
      return "0";
    }
    ghost var k: nat := 7;
    var digitShift := 28;
    MaskPicksDigit(v, k);
    while Masked(v, digitShift) == 0
      invariant k < 8 && digitShift == 4 * k && Shr(v, k + 1) == 0
      invariant Masked(v, digitShift) == 0 <==> DigitAt(v, k) == 0
      decreases k
    {
      ShrSplit(v, k);
      ZeroByParts(Shr(v, k));
      k := k - 1;
      digitShift := digitShift - 4;
      MaskPicksDigit(v, k);
    }
    HexFromIsNumeral(v, k, 8);
    out := PrintDigits(v, digitShift, k);
  }

  /** The digit under the mask, as a character, takes the lead of what is still to come. */
  method PickDigit(v: bv32, shift: int, ghost n: nat) returns (c: char)
    requires n < 8 && shift == 4 * n
    ensures LowDigits(v, n + 1) == [c] + LowDigits(v, n)
  {
    MaskPicksDigit(v, n);
    var digit := Unshifted(v, shift);
    c := HexChar(digit);
  }

  /** The characters of the n lowest digits, highest first. */
  ghost function LowDigits(v: bv32, n: nat): string {
    if n == 0 then [] else HexFrom(v, n - 1)
  }

  method PrintDigits(v: bv32, shift: int, ghost k: nat) returns (out: string)
    requires k < 8 && shift == 4 * k
    ensures out == HexFrom(v, k)
  {
    out := [];
    var digitShift := shift;
    ghost var n: nat := k + 1;
    while digitShift >= 0
      invariant n <= 8 && digitShift == 4 * n - 4
      invariant HexFrom(v, k) == out + LowDigits(v, n)
      decreases n
    {
      var c := PickDigit(v, digitShift, n - 1);
      Emit(out, [c], LowDigits(v, n - 1));
      out := out + [c];
      digitShift := digitShift - 4;
      n := n - 1;
    }
  }

  /** The loop over the format prints exactly what it should. */
  method Printf(fmt: string, args: Args) returns (out: string)
    ensures out == AltRender(fmt, 0, args, 0)
  {
    var i, k := 0, 0;
    out := [];
    while !End(fmt, i)
      invariant i <= |fmt| && out + AltRender(fmt, i, args, k) == AltRender(fmt, 0, args, 0)
      decreases |fmt| - i
    {
      var c := fmt[i];
      i := i + 1;
      if c != '%' {
        Emit(out, [c], AltRender(fmt, i, args, k));
        out := out + [c];
      } else {
        if End(fmt, i) {
          return;
        }
        c := fmt[i];
        i := i + 1;
        var field;
        ghost var k0 := k;
        field, k := PrintField(c, args, k);
        Emit(out, field, AltRender(fmt, i, args, k));
        out := out + field;
      }
    }
  }

  lemma Emit(out: string, s: string, rest: string)
    ensures out + (s + rest) == (out + s) + rest
  {
  }

  method PrintField(c: char, args: Args, k: nat) returns (out: string, k': nat)
    ensures out == AltField(c, args.word(k), args.str)
    ensures k' == if c == 'c' || c == 'x' || c == 's' then k + 1 else k
  {
    out, k' := [], k;
    if c == '%' {
      out := [c];
    } else if c == 'c' {
      out, k' := [LowChar(args.word(k))], k + 1;
    } else if c == 'x' {
      out := PrintHex(args.word(k));
      k' := k + 1;
    } else if c == 's' {
      var s := args.str(args.word(k));
      for j := 0 to |s|
        invariant out == s[..j]
      {
        out := out + [s[j]];
      }
      k' := k + 1;
      assert s[..|s|] == s;
    }
  }

  // ---------------------------------------------------------------- the two printers

  /** The two hexadecimal printers emit the same characters for every word. */
  lemma HexPrintersAgree(v: bv32, str: bv32 -> Text)
    ensures AltField('x', v, str) == Field(false, -1, 'x', v, str)
  {
    NoWidthNoPad(ToNat(v), 16, false, false);
  }

  /** A letter on which the two engines mean the same thing directly after a percent sign. */
  predicate Common(c: char) {
    !IsDigit(c) && c != '.' && c != 'l' && (IsInt(c) ==> c == 'x')
  }

  /** Every percent sign is followed by a common letter, or ends the format. */
  predicate CommonFrom(fmt: string, i: nat)
    decreases |fmt| - i
  {
    if End(fmt, i) then true
    else if fmt[i] != '%' then CommonFrom(fmt, i + 1)
    else if End(fmt, i + 1) then true
    else Common(fmt[i + 1]) && CommonFrom(fmt, i + 2)
  }

  lemma {:induction false} EnginesAgreeFrom(fmt: string, i: nat, args: Args, k: nat)
    requires CommonFrom(fmt, i)
    ensures AltRender(fmt, i, args, k) == Render(Parse(fmt, i), args, k)
    decreases |fmt| - i
  {
    if End(fmt, i) {
    } else if fmt[i] != '%' {
      EnginesAgreeFrom(fmt, i + 1, args, k);
      assert ([Lit(fmt[i])] + Parse(fmt, i + 1))[1..] == Parse(fmt, i + 1);
    } else if !End(fmt, i + 1) {
      var c := fmt[i + 1];
      var rest := Parse(fmt, i + 2);
      if c == '%' {
        EnginesAgreeFrom(fmt, i + 2, args, k);
        assert ([Lit('%')] + rest)[1..] == rest;
      } else {
        EnginesAgreeFrom(fmt, i + 2, args, if TakesArg(c) then k + 1 else k);
        assert Parse(fmt, i) == ParseConv(fmt, i + 1) == ParseWidth(fmt, i + 1, false, -1, -1);
        assert Parse(fmt, i) == [Conv(false, -1, c)] + rest;
        assert ([Conv(false, -1, c)] + rest)[1..] == rest;
        FieldsAgree(c, args.word(k), args.str);
      }
    }
  }

  lemma FieldsAgree(c: char, v: bv32, str: bv32 -> Text)
    requires Common(c) && c != '%'
    ensures AltField(c, v, str) == Field(false, -1, c, v, str)
  {
    if c == 'x' {
      HexPrintersAgree(v, str);
    } else if c == 's' {
      Rewrap(-1 - |str(v)|, 0);
    }
  }

  /** On formats that use only conversions both engines know, without flags, the two engines
      print the same, whatever the arguments. */
  lemma EnginesAgree(fmt: string, args: Args)
    requires CommonFrom(fmt, 0)
    ensures AltRender(fmt, 0, args, 0) == Render(Parse(fmt, 0), args, 0)
  {
    EnginesAgreeFrom(fmt, 0, args, 0);
  }

  /** A letter that is not supported prints nothing and takes no argument, and a percent sign
      at the end ends the output. */
  lemma AltOtherLetters(fmt: string, i: nat, args: Args, k: nat)
    requires !End(fmt, i) && fmt[i] == '%'
    ensures End(fmt, i + 1) ==> AltRender(fmt, i, args, k) == ""
    ensures !End(fmt, i + 1) && fmt[i + 1] !in "%cxs" ==> AltRender(fmt, i, args, k) == AltRender(fmt, i + 2, args, k)
  {
  }
}
