/**
  The reading of formats: the automaton takes the written form of any list of literals and
  conversions back to that list.
*/
module FormatParsing {
  import opened Words
  import opened Numerals
  import opened Formats

  /** A piece that a format can stand for. */
  predicate Printable(p: Piece) {
    match p
    case Lit(c) => c != '\0'
    case Conv(zero, width, letter) =>
      && -1 <= width < 0x8000_0000 && (width == 0 ==> zero)
      && letter != '\0' && letter != '.' && letter != 'l' && !IsDigit(letter)
      && (letter == '%' ==> zero || width >= 0)
  }

  /** What may stand between width and letter without effect: a point with digits, and the
      letter l, any number of times. */
  datatype Frill = Frill(point: bool, precision: string, longs: nat)

  ghost predicate Harmless(f: Frill) {
    && Numeral(f.precision, 10, false) && Value(f.precision, 10) < 0x8000_0000
    && (f.precision != [] ==> f.point)
  }

  function FrillText(f: Frill): string { (if f.point then "." else "") + f.precision + Repeat('l', f.longs) }

  /** A piece as it is written in a format. */
  function Written(p: Piece, f: Frill): string {
    match p
    case Lit(c) => if c == '%' then "%%" else [c]
    case Conv(zero, width, letter) =>
      "%" + (if zero then "0" else "") + (if width >= 0 then Digits(width, 10, false) else "") + FrillText(f) + [letter]
  }

  function Format(ps: seq<Piece>, fs: seq<Frill>): string
    requires |fs| == |ps|
  {
    if ps == [] then [] else Written(ps[0], fs[0]) + Format(ps[1..], fs[1..])
  }

  lemma {:induction false} PrefixValue(s: string, k: nat)
    requires k <= |s|
    ensures Value(s[..k], 10) <= Value(s, 10)
    decreases |s|
  {
    if k < |s| {
      assert s[..|s| - 1][..k] == s[..k];
      PrefixValue(s[..|s| - 1], k);
    } else {
      assert s[..k] == s;
    }
  }

  lemma DecimalDigit(s: string, k: nat)
    requires Numeral(s, 10, false) && k < |s|
    ensures IsDigit(s[k]) && DigitValue(s[k]) == s[k] as int - '0' as int
    ensures Value(s[..k + 1], 10) == Value(s[..k], 10) * 10 + DigitValue(s[k])
  {
    assert s[..k + 1][..k] == s[..k];
  }

  /** The width that has been read after k digits. */
  function WidthAfter(s: string, k: nat): int
    requires k <= |s|
  {
    if k == 0 then -1 else Value(s[..k], 10)
  }

  lemma WidthWithDigit(width: int, v: nat, c: char)
    requires IsDigit(c) && (width == v || (width == -1 && v == 0)) && v * 10 + (c as int - '0' as int) < 0x8000_0000
    ensures WidthWith(width, c) == v * 10 + (c as int - '0' as int)
  {
    Rewrap(v * 10 + (c as int - '0' as int), 0);
  }

  lemma WidthGrows(s: string, k: nat)
    requires Numeral(s, 10, false) && Value(s, 10) < 0x8000_0000 && k < |s|
    ensures IsDigit(s[k]) && WidthWith(WidthAfter(s, k), s[k]) == WidthAfter(s, k + 1)
  {
    DecimalDigit(s, k);
    PrefixValue(s, k + 1);
    if k == 0 { assert s[..0] == []; }
    WidthWithDigit(WidthAfter(s, k), Value(s[..k], 10), s[k]);
  }

  lemma ParseDigit(fmt: string, at: nat, zero: bool, width: int)
    requires at < |fmt| && IsDigit(fmt[at])
    ensures ParseWidth(fmt, at, zero, width, -1) == ParseWidth(fmt, at + 1, zero, WidthWith(width, fmt[at]), -1)
  {
  }

  /** Reading k digits of a width. */
  lemma {:induction false} ParseDigits(fmt: string, i: nat, zero: bool, s: string, k: nat)
    requires i + |s| <= |fmt| && fmt[i..i + |s|] == s && k <= |s|
    requires Numeral(s, 10, false) && Value(s, 10) < 0x8000_0000
    ensures ParseWidth(fmt, i, zero, -1, -1) == ParseWidth(fmt, i + k, zero, WidthAfter(s, k), -1)
    decreases k
  {
    if k > 0 {
      ParseDigits(fmt, i, zero, s, k - 1);
      WidthGrows(s, k - 1);
      assert fmt[i + (k - 1)] == s[k - 1];
      ParseDigit(fmt, i + (k - 1), zero, WidthAfter(s, k - 1));
    }
  }

  function WidthOf(p: Piece): string
    requires p.Conv?
  {
    if p.width >= 0 then Digits(p.width, 10, false) else ""
  }

  function Head(zero: bool): string { if zero then "%0" else "%" }

  lemma WrittenConv(p: Piece, f: Frill)
    requires p.Conv?
    ensures Written(p, f) == Head(p.zero) + WidthOf(p) + FrillText(f) + [p.letter]
  {
  }

  /** Where a part of the rest of a format is. */
  lemma Part(fmt: string, i: nat, a: string, b: string, c: string)
    requires i <= |fmt| && fmt[i..] == a + b + c
    ensures |fmt| == i + |a| + |b| + |c| && fmt[i + |a|..i + |a| + |b|] == b && fmt[i + |a| + |b|..] == c
  {
    assert fmt[i..][|a|..|a| + |b|] == b;
    assert fmt[i..][|a| + |b|..] == c;
  }

  /** Where the parts of a written conversion are. */
  lemma Layout(fmt: string, i: nat, head: string, digits: string, frill: string, c: char, rest: string)
    requires i <= |fmt| && fmt[i..] == head + digits + frill + [c] + rest
    ensures var start, mid, end := i + |head|, i + |head| + |digits|, i + |head| + |digits| + |frill|;
            && end + 1 <= |fmt| && fmt[i..start] == head && fmt[start..mid] == digits && fmt[mid..end] == frill
            && fmt[end] == c && fmt[end + 1..] == rest
  {
    var tail := frill + [c] + rest;
    assert fmt[i..] == [] + head + (digits + tail);
    Part(fmt, i, [], head, digits + tail);
    assert fmt[i..] == head + digits + tail;
    Part(fmt, i, head, digits, tail);
    var mid := i + |head| + |digits|;
    Part(fmt, mid, frill, [c], rest);
    assert fmt[mid..] == [] + frill + ([c] + rest);
    Part(fmt, mid, [], frill, [c] + rest);
  }

  lemma WidthDigits(width: nat)
    ensures var d := Digits(width, 10, false);
            Numeral(d, 10, false) && Value(d, 10) == width && WidthAfter(d, |d|) == width
    ensures var c := Digits(width, 10, false)[0]; IsDigit(c) && (width > 0 ==> c != '0')
  {
    var d := Digits(width, 10, false);
    DigitsAreNumeral(width, 10, false);
    DigitsRoundTrip(width, 10, false);
    DigitsShape(width, 10, false);
    DecimalDigit(d, 0);
    assert d[..|d|] == d;
  }

  lemma WidthOfDigits(p: Piece)
    requires Printable(p) && p.Conv?
    ensures var d := WidthOf(p);
            && Numeral(d, 10, false) && Value(d, 10) < 0x8000_0000 && WidthAfter(d, |d|) == p.width
            && (d != [] ==> IsDigit(d[0]) && (d[0] == '0' ==> p.zero))
            && (d == [] ==> p.width == -1)
  {
    if p.width >= 0 { WidthDigits(p.width); }
  }

  lemma PrecisionGrows(s: string, k: nat)
    requires Numeral(s, 10, false) && Value(s, 10) < 0x8000_0000 && k < |s|
    ensures IsDigit(s[k]) && WidthWith(Value(s[..k], 10), s[k]) == Value(s[..k + 1], 10)
  {
    DecimalDigit(s, k);
    PrefixValue(s, k + 1);
    WidthWithDigit(Value(s[..k], 10), Value(s[..k], 10), s[k]);
  }

  /** Reading k digits after the point. */
  lemma {:induction false} SkipPrecision(fmt: string, i: nat, zero: bool, width: int, s: string, k: nat)
    requires i + |s| <= |fmt| && fmt[i..i + |s|] == s && k <= |s|
    requires Numeral(s, 10, false) && Value(s, 10) < 0x8000_0000
    ensures ParseWidth(fmt, i, zero, width, 0) == ParseWidth(fmt, i + k, zero, width, Value(s[..k], 10))
    decreases k
  {
    if k > 0 {
      SkipPrecision(fmt, i, zero, width, s, k - 1);
      PrecisionGrows(s, k - 1);
      assert fmt[i + (k - 1)] == s[k - 1];
      SkipDigit(fmt, i + (k - 1), zero, width, Value(s[..k - 1], 10));
    }
  }

  lemma SkipDigit(fmt: string, at: nat, zero: bool, width: int, after: nat)
    requires at < |fmt| && IsDigit(fmt[at])
    ensures ParseWidth(fmt, at, zero, width, after) == ParseWidth(fmt, at + 1, zero, width, WidthWith(after, fmt[at]))
  {
  }

  lemma {:induction false} SkipLongs(fmt: string, i: nat, zero: bool, width: int, after: int, n: nat)
    requires i + n <= |fmt| && fmt[i..i + n] == Repeat('l', n)
    ensures ParseWidth(fmt, i, zero, width, after) == ParseWidth(fmt, i + n, zero, width, after)
    decreases n
  {
    if n > 0 {
      assert fmt[i] == fmt[i..i + n][0] == 'l';
      assert fmt[i + 1..i + n] == fmt[i..i + n][1..] == Repeat('l', n - 1);
      SkipLongs(fmt, i + 1, zero, width, after, n - 1);
    }
  }

  lemma Within(fmt: string, i: nat, a: string, b: string, c: string)
    requires i + |a| + |b| + |c| <= |fmt| && fmt[i..i + |a| + |b| + |c|] == a + b + c
    ensures fmt[i..i + |a|] == a && fmt[i + |a|..i + |a| + |b|] == b
    ensures fmt[i + |a| + |b|..i + |a| + |b| + |c|] == c
  {
    var all := a + b + c;
    forall j | 0 <= j < |all| ensures fmt[i + j] == all[j] { assert fmt[i..i + |a| + |b| + |c|][j] == all[j]; }
    assert forall j :: i <= j < i + |a| ==> fmt[j] == all[j - i] == a[j - i];
    assert forall j :: i + |a| <= j < i + |a| + |b| ==> fmt[j] == all[j - i] == b[j - i - |a|];
    assert forall j :: i + |a| + |b| <= j < i + |all| ==> fmt[j] == all[j - i] == c[j - i - |a| - |b|];
  }

  lemma SkipPoint(fmt: string, i: nat, zero: bool, width: int)
    requires i < |fmt| && fmt[i] == '.'
    ensures ParseWidth(fmt, i, zero, width, -1) == ParseWidth(fmt, i + 1, zero, width, 0)
  {
  }

  lemma SkipPointed(fmt: string, i: nat, zero: bool, width: int, digits: string, n: nat) returns (after: int)
    requires Numeral(digits, 10, false) && Value(digits, 10) < 0x8000_0000
    requires i + 1 + |digits| + n <= |fmt| && fmt[i] == '.' && fmt[i + 1..i + 1 + |digits|] == digits
    requires fmt[i + 1 + |digits|..i + 1 + |digits| + n] == Repeat('l', n)
    ensures ParseWidth(fmt, i, zero, width, -1) == ParseWidth(fmt, i + 1 + |digits| + n, zero, width, after)
  {
    SkipPoint(fmt, i, zero, width);
    SkipPrecision(fmt, i + 1, zero, width, digits, |digits|);
    after := Value(digits[..|digits|], 10);
    SkipLongs(fmt, i + 1 + |digits|, zero, width, after, n);
  }

  /** A frill is read without effect on zero flag and width. */
  lemma SkipFrill(fmt: string, i: nat, zero: bool, width: int, f: Frill) returns (after: int)
    requires Harmless(f) && i + |FrillText(f)| <= |fmt| && fmt[i..i + |FrillText(f)|] == FrillText(f)
    ensures ParseWidth(fmt, i, zero, width, -1) == ParseWidth(fmt, i + |FrillText(f)|, zero, width, after)
  {
    if f.point {
      Within(fmt, i, ".", f.precision, Repeat('l', f.longs));
      assert fmt[i] == fmt[i..i + 1][0] == '.';
      after := SkipPointed(fmt, i, zero, width, f.precision, f.longs);
    } else {
      after := -1;
      assert FrillText(f) == Repeat('l', f.longs);
      SkipLongs(fmt, i, zero, width, -1, f.longs);
    }
  }

  /** What follows the percent sign and the zero flag is not taken for a flag. */
  lemma AfterFlags(p: Piece, f: Frill)
    requires Printable(p) && p.Conv? && !p.zero && Harmless(f)
    ensures var c := (WidthOf(p) + FrillText(f) + [p.letter])[0]; c != '%' && c != '0' && c != '\0'
  {
    WidthOfDigits(p);
    var frill := FrillText(f);
    if frill != [] { assert frill[0] == '.' || frill[0] == 'l'; }
  }

  lemma FirstAfterHead(fmt: string, start: nat, mid: nat, end: nat, digits: string, frill: string, c: char)
    requires start <= mid <= end < |fmt| && fmt[start..mid] == digits && fmt[mid..end] == frill && fmt[end] == c
    ensures fmt[start] == (digits + frill + [c])[0]
  {
    if digits != [] {
      assert fmt[start] == fmt[start..mid][0];
    } else if frill != [] {
      assert fmt[start] == fmt[mid..end][0];
    }
  }

  lemma ParseParts(fmt: string, i: nat, zero: bool, digits: string, f: Frill, p: Piece, rest: string)
    returns (after: int)
    requires p.Conv? && i <= |fmt| && fmt[i..] == Head(zero) + digits + FrillText(f) + [p.letter] + rest && Harmless(f)
    requires Numeral(digits, 10, false) && Value(digits, 10) < 0x8000_0000
    requires !zero ==> var c := (digits + FrillText(f) + [p.letter])[0]; c != '%' && c != '0' && c != '\0'
    ensures var end := i + |Head(zero)| + |digits| + |FrillText(f)|;
            && end < |fmt| && fmt[end] == p.letter && fmt[end + 1..] == rest
            && Parse(fmt, i) == ParseWidth(fmt, end, zero, WidthAfter(digits, |digits|), after)
  {
    var frill := FrillText(f);
    var start, mid := i + |Head(zero)|, i + |Head(zero)| + |digits|;
    Layout(fmt, i, Head(zero), digits, frill, p.letter, rest);
    FirstAfterHead(fmt, start, mid, mid + |frill|, digits, frill, p.letter);
    HeadIs(fmt, i, zero);
    after := ParseInside(fmt, i, zero, digits, f);
  }

  lemma ParseInside(fmt: string, i: nat, zero: bool, digits: string, f: Frill) returns (after: int)
    requires Harmless(f) && Numeral(digits, 10, false) && Value(digits, 10) < 0x8000_0000
    requires var start, mid := i + |Head(zero)|, i + |Head(zero)| + |digits|;
             var end := mid + |FrillText(f)|;
             && end < |fmt| && fmt[start..mid] == digits && fmt[mid..end] == FrillText(f)
             && fmt[i] == '%'
             && (if zero then fmt[i + 1] == '0' else fmt[start] != '%' && fmt[start] != '0' && fmt[start] != '\0')
    ensures Parse(fmt, i) ==
            ParseWidth(fmt, i + |Head(zero)| + |digits| + |FrillText(f)|, zero, WidthAfter(digits, |digits|), after)
  {
    var start := i + |Head(zero)|;
    ConversionStarts(fmt, i, zero, start);
    ParseDigits(fmt, start, zero, digits, |digits|);
    after := SkipFrill(fmt, start + |digits|, zero, WidthAfter(digits, |digits|), f);
  }

  lemma HeadIs(fmt: string, i: nat, zero: bool)
    requires i + |Head(zero)| <= |fmt| && fmt[i..i + |Head(zero)|] == Head(zero)
    ensures fmt[i] == '%' && (zero ==> fmt[i + 1] == '0')
  {
    assert fmt[i] == Head(zero)[0];
    if zero { assert fmt[i + 1] == Head(zero)[1]; }
  }

  lemma ParseConversion(fmt: string, i: nat, p: Piece, f: Frill, rest: string)
    requires Printable(p) && p.Conv? && Harmless(f) && i <= |fmt| && fmt[i..] == Written(p, f) + rest
    ensures i + |Written(p, f)| <= |fmt| && fmt[i + |Written(p, f)|..] == rest
    ensures Parse(fmt, i) == [p] + Parse(fmt, i + |Written(p, f)|)
  {
    var digits := WidthOf(p);
    WrittenConv(p, f);
    WidthOfDigits(p);
    if !p.zero { AfterFlags(p, f); }
    var after := ParseParts(fmt, i, p.zero, digits, f, p, rest);
    LetterEnds(fmt, i + |Head(p.zero)| + |digits| + |FrillText(f)|, p, after);
  }

  lemma LetterEnds(fmt: string, end: nat, p: Piece, after: int)
    requires Printable(p) && p.Conv? && end < |fmt| && fmt[end] == p.letter
    ensures ParseWidth(fmt, end, p.zero, p.width, after) == [p] + Parse(fmt, end + 1)
  {
  }

  /** The percent sign and the zero flag. */
  lemma ConversionStarts(fmt: string, i: nat, zero: bool, start: nat)
    requires start == i + (if zero then 2 else 1) && start < |fmt| && fmt[i] == '%'
    requires if zero then fmt[i + 1] == '0' else fmt[i + 1] != '%' && fmt[i + 1] != '0' && fmt[i + 1] != '\0'
    ensures Parse(fmt, i) == ParseWidth(fmt, start, zero, -1, -1)
  {
  }

  lemma ParseLiteral(fmt: string, i: nat, p: Piece, f: Frill, rest: string)
    requires Printable(p) && p.Lit? && i <= |fmt| && fmt[i..] == Written(p, f) + rest
    ensures i + |Written(p, f)| <= |fmt| && fmt[i + |Written(p, f)|..] == rest
    ensures Parse(fmt, i) == [p] + Parse(fmt, i + |Written(p, f)|)
  {
    var w := Written(p, f);
    assert |fmt| == i + |w| + |rest| && fmt[i] == (w + rest)[0] == w[0];
    if p.c == '%' { assert fmt[i + 1] == (w + rest)[1] == w[1]; }
    assert fmt[i + |w|..] == (w + rest)[|w|..];
  }

  lemma ParsePiece(fmt: string, i: nat, p: Piece, f: Frill, rest: string) returns (next: nat)
    requires Printable(p) && Harmless(f) && i <= |fmt| && fmt[i..] == Written(p, f) + rest
    ensures next == i + |Written(p, f)| <= |fmt| && fmt[next..] == rest
    ensures Parse(fmt, i) == [p] + Parse(fmt, next)
  {
    if p.Conv? { ParseConversion(fmt, i, p, f, rest); } else { ParseLiteral(fmt, i, p, f, rest); }
    next := i + |Written(p, f)|;
  }

  ghost predicate AllPrintable(ps: seq<Piece>, fs: seq<Frill>) {
    |fs| == |ps| && forall k :: 0 <= k < |ps| ==> Printable(ps[k]) && Harmless(fs[k])
  }

  /** Parsing what has been written for a list of pieces gives the pieces back, and then what
      follows. */
  lemma {:induction false} ParseWritten(fmt: string, i: nat, ps: seq<Piece>, fs: seq<Frill>, tail: string)
    requires AllPrintable(ps, fs) && i <= |fmt| && fmt[i..] == Format(ps, fs) + tail
    ensures |tail| <= |fmt| && Parse(fmt, i) == ps + Parse(fmt, |fmt| - |tail|)
    decreases |ps|
  {
    if ps == [] {
      assert fmt[i..] == tail;
    } else {
      var rest := Format(ps[1..], fs[1..]) + tail;
      assert fmt[i..] == Written(ps[0], fs[0]) + rest;
      var next := ParsePiece(fmt, i, ps[0], fs[0], rest);
      ParseWritten(fmt, next, ps[1..], fs[1..], tail);
      assert ps == [ps[0]] + ps[1..];
      Three([ps[0]], ps[1..], Parse(fmt, |fmt| - |tail|));
    }
  }

  lemma Three(a: seq<Piece>, b: seq<Piece>, c: seq<Piece>)
    ensures a + (b + c) == (a + b) + c
  {
  }

  /** A format that ends with an unfinished conversion prints nothing for it. */
  lemma {:induction false} UnfinishedWidth(fmt: string, i: nat, zero: bool, width: int, after: int)
    requires i <= |fmt| && forall j :: i <= j < |fmt| ==> fmt[j] == '.' || fmt[j] == 'l' || IsDigit(fmt[j])
    ensures ParseWidth(fmt, i, zero, width, after) == []
    decreases |fmt| - i
  {
    if i < |fmt| {
      if fmt[i] == '.' {
        UnfinishedWidth(fmt, i + 1, zero, width, 0);
      } else if fmt[i] == 'l' {
        UnfinishedWidth(fmt, i + 1, zero, width, after);
      } else if after < 0 {
        UnfinishedWidth(fmt, i + 1, zero, WidthWith(width, fmt[i]), after);
      } else {
        UnfinishedWidth(fmt, i + 1, zero, width, WidthWith(after, fmt[i]));
      }
    }
  }

  /** The end of a format: nothing, or an unfinished conversion. */
  predicate Unfinished(tail: string) {
    tail != [] ==>
      tail[0] == '%' && forall j :: 1 <= j < |tail| ==> tail[j] == '.' || tail[j] == 'l' || IsDigit(tail[j])
  }

  lemma UnfinishedIsNothing(fmt: string, tail: string)
    requires |tail| <= |fmt| && fmt[|fmt| - |tail|..] == tail && Unfinished(tail)
    ensures Parse(fmt, |fmt| - |tail|) == []
  {
    var i := |fmt| - |tail|;
    if tail != [] {
      assert fmt[i] == tail[0] == '%';
      forall j | i + 1 <= j < |fmt| ensures fmt[j] == '.' || fmt[j] == 'l' || IsDigit(fmt[j]) {
        assert fmt[j] == fmt[i..][j - i] == tail[j - i];
      }
      if i + 1 < |fmt| {
        UnfinishedWidth(fmt, i + 1, false, -1, -1);
        if fmt[i + 1] == '0' { UnfinishedWidth(fmt, i + 2, true, -1, -1); }
      }
    }
  }

  /** The automaton reads the written form of any list of pieces, with any frills and an
      unfinished conversion at its end, as exactly these pieces. */
  lemma FormatRoundTrip(ps: seq<Piece>, fs: seq<Frill>, tail: string)
    requires AllPrintable(ps, fs) && Unfinished(tail)
    ensures Parse(Format(ps, fs) + tail, 0) == ps
  {
    var fmt := Format(ps, fs) + tail;
    assert fmt[0..] == fmt;
    ParseWritten(fmt, 0, ps, fs, tail);
    assert fmt[|fmt| - |tail|..] == tail;
    UnfinishedIsNothing(fmt, tail);
  }

  /** Nothing from a NUL on is read. */
  lemma NulEnds(ps: seq<Piece>, fs: seq<Frill>, tail: string)
    requires AllPrintable(ps, fs) && tail != [] && tail[0] == '\0'
    ensures Parse(Format(ps, fs) + tail, 0) == ps
  {
    var fmt := Format(ps, fs) + tail;
    assert fmt[0..] == fmt;
    ParseWritten(fmt, 0, ps, fs, tail);
    NothingAtNul(fmt, |fmt| - |tail|);
  }

  lemma NothingAtNul(fmt: string, i: nat)
    requires i < |fmt| && fmt[i] == '\0'
    ensures Parse(fmt, i) == []
  {
  }
}
