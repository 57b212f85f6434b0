/** 32-bit words: their value, and their hexadecimal digits by shifting and masking. */
module HexWord {
  import opened Words
  import opened Numerals

  /** The value of the low four bits. */
  function Nibble(d: bv32): (r: nat)
    ensures r < 16
  {
    (if d & 1 != 0 then 1 else 0) + (if d & 2 != 0 then 2 else 0)
    + (if d & 4 != 0 then 4 else 0) + (if d & 8 != 0 then 8 else 0)
  }

  /** The word without its k low hexadecimal digits. */
  function Shr(v: bv32, k: nat): bv32 {
    if k == 0 then v else Shr(v >> 4, k - 1)
  }

  function DigitAt(v: bv32, k: nat): bv32 { Shr(v, k) & 0xF }

  function Places(v: bv32, k: nat): (r: nat)
    decreases k
  {
    if k == 0 then 0 else Places(v >> 4, k - 1) * 16 + Nibble(v)
  }

  lemma {:induction false} PlacesBound(v: bv32, k: nat)
    ensures Places(v, k) < Pow(16, k)
  {
    if k > 0 { PlacesBound(v >> 4, k - 1); }
  }

  lemma Pow16()
    ensures Pow(16, 8) == U32
  {
    assert Pow(16, 2) == 256;
    assert Pow(16, 4) == 16 * (16 * Pow(16, 2));
    assert Pow(16, 6) == 16 * (16 * Pow(16, 4));
    assert Pow(16, 8) == 16 * (16 * Pow(16, 6));
  }

  /** The unsigned value of a word: its eight hexadecimal digits by place. */
  function ToNat(v: bv32): (r: Word) {
    PlacesBound(v, 8);
    Pow16();
    Places(v, 8)
  }

  // ---------------------------------------------------------------- shifting and masking

  lemma ShrSplit(v: bv32, k: nat)
    ensures Shr(v, k + 1) == Shr(v, k) >> 4
    decreases k
  {
    if k > 0 { ShrSplit(v >> 4, k - 1); }
  }

  /** Eight digits are all there are. */
  lemma ShrAll(v: bv32)
    ensures Shr(v, 8) == 0
  {
    ShrSplit(v, 7); ShrSplit(v, 6); ShrSplit(v, 5); ShrSplit(v, 4);
    ShrSplit(v, 3); ShrSplit(v, 2); ShrSplit(v, 1); ShrSplit(v, 0);
    assert (((((((v >> 4) >> 4) >> 4) >> 4) >> 4) >> 4) >> 4) >> 4 == 0;
  }

  lemma ZeroByParts(x: bv32)
    ensures x == 0 <==> x >> 4 == 0 && x & 0xF == 0
    ensures Nibble(x) == 0 <==> x & 0xF == 0
    ensures Nibble(x & 0xF) == Nibble(x)
  {
  }

  /** The digit under a mask that has been shifted into place. */
  function Masked(v: bv32, shift: int): bv32
    requires 0 <= shift <= 28
  {
    v & (0xF << shift)
  }

  function Unshifted(v: bv32, shift: int): bv32
    requires 0 <= shift <= 28
  {
    Masked(v, shift) >> shift
  }

  ghost predicate MasksAgree(v: bv32, k: nat)
    requires k < 7
  {
    && Unshifted(v, 4 * (k + 1)) == Unshifted(v >> 4, 4 * k)
    && (Masked(v, 4 * (k + 1)) == 0 <==> Masked(v >> 4, 4 * k) == 0)
  }

  lemma MaskNext(v: bv32, k: nat)
    requires k < 7
    ensures MasksAgree(v, k)
  {
    if k < 4 { MaskNextLow(v, k); } else { MaskNextHigh(v, k); }
  }

  lemma MaskNextLow(v: bv32, k: nat)
    requires k < 4
    ensures MasksAgree(v, k)
  {
    if k == 0 { Mask4(v); }
    if k == 1 { Mask8(v); }
    if k == 2 { Mask12(v); }
    if k == 3 { Mask16(v); }
  }

  lemma MaskNextHigh(v: bv32, k: nat)
    requires 4 <= k < 7
    ensures MasksAgree(v, k)
  {
    if k == 4 { Mask20(v); }
    if k == 5 { Mask24(v); }
    if k == 6 { Mask28(v); }
  }

  lemma Mask4(v: bv32)
    ensures Unshifted(v, 4) == Unshifted(v >> 4, 0) && (Masked(v, 4) == 0 <==> Masked(v >> 4, 0) == 0) {}
  lemma Mask8(v: bv32)
    ensures Unshifted(v, 8) == Unshifted(v >> 4, 4) && (Masked(v, 8) == 0 <==> Masked(v >> 4, 4) == 0) {}
  lemma Mask12(v: bv32)
    ensures Unshifted(v, 12) == Unshifted(v >> 4, 8) && (Masked(v, 12) == 0 <==> Masked(v >> 4, 8) == 0) {}
  lemma Mask16(v: bv32)
    ensures Unshifted(v, 16) == Unshifted(v >> 4, 12) && (Masked(v, 16) == 0 <==> Masked(v >> 4, 12) == 0) {}
  lemma Mask20(v: bv32)
    ensures Unshifted(v, 20) == Unshifted(v >> 4, 16) && (Masked(v, 20) == 0 <==> Masked(v >> 4, 16) == 0) {}
  lemma Mask24(v: bv32)
    ensures Unshifted(v, 24) == Unshifted(v >> 4, 20) && (Masked(v, 24) == 0 <==> Masked(v >> 4, 20) == 0) {}
  lemma Mask28(v: bv32)
    ensures Unshifted(v, 28) == Unshifted(v >> 4, 24) && (Masked(v, 28) == 0 <==> Masked(v >> 4, 24) == 0) {}

  /** Masking in place and shifting down picks the k-th hexadecimal digit. */
  lemma {:induction false} MaskPicksDigit(v: bv32, k: nat)
    requires k < 8
    ensures Unshifted(v, 4 * k) == DigitAt(v, k)
    ensures Masked(v, 4 * k) == 0 <==> DigitAt(v, k) == 0
    decreases k
  {
    if k == 0 {
      assert Unshifted(v, 0) == v & 0xF && Masked(v, 0) == v & 0xF;
    } else {
      MaskNext(v, k - 1);
      MaskPicksDigit(v >> 4, k - 1);
    }
  }

  // ---------------------------------------------------------------- the printed digits

  /** A masked digit as the character the shift-and-mask printer emits. */
  function HexChar(d: bv32): char {
    if d <= 9 then '0' + Nibble(d) as char else 'a' + Nibble(d) as char - 10 as char
  }

  lemma HexCharIsDigit(d: bv32)
    requires d & 0xF == d
    ensures Nibble(d) <= 9 <==> d <= 9
    ensures HexChar(d) == DigitChar(Nibble(d), false)
  {
  }

  /** The characters of the digits from the k-th down to the lowest. */
  function HexFrom(v: bv32, k: nat): string {
    [HexChar(DigitAt(v, k))] + if k == 0 then [] else HexFrom(v, k - 1)
  }

  lemma {:induction false} HexFromSnoc(v: bv32, k: nat)
    requires k > 0
    ensures HexFrom(v, k) == HexFrom(v >> 4, k - 1) + [HexChar(v & 0xF)]
  {
    if k > 1 { HexFromSnoc(v, k - 1); }
  }

  lemma {:induction false} PlacesZero(v: bv32, k: nat)
    requires Shr(v, k) == 0
    ensures Places(v, k) == 0 <==> v == 0
  {
    if k > 0 {
      PlacesZero(v >> 4, k - 1);
      ZeroByParts(v);
    }
  }

  /** The digits from the highest non-zero one down are the numeral of the word. */
  lemma {:induction false} HexFromIsNumeral(v: bv32, k: nat, n: nat)
    requires k < n && Shr(v, n) == 0 && Shr(v, k + 1) == 0 && (k == 0 || DigitAt(v, k) != 0)
    ensures HexFrom(v, k) == Digits(Places(v, n), 16, false)
    decreases k
  {
    HexCharIsDigit(v & 0xF);
    ZeroByParts(v);
    PlacesZero(v >> 4, n - 1);
    var high, m := Places(v >> 4, n - 1), Places(v, n);
    assert m == high * 16 + Nibble(v);
    if k == 0 {
      assert v >> 4 == 0;
    } else {
      HexFromSnoc(v, k);
      HexFromIsNumeral(v >> 4, k - 1, n - 1);
      assert m / 16 == high && m % 16 == Nibble(v);
    }
  }
}
