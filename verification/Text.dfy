/**
 Text the parsers share: UTF-8, white space, and numerals in a radix.
 */
module Text {
  import opened Prelude

  const PLUS := 0x2B

  // ---------- UTF-8 ----------

  predicate Between(b: int, lo: int, hi: int) { lo <= b <= hi }

  /** The bytes a well-formed sequence has, by its first byte; 0 if none may start with it. */
  function Width(b: byte): nat {
    if b < 0x80 then 1 else if Between(b, 0xC2, 0xDF) then 2
    else if Between(b, 0xE0, 0xEF) then 3 else if Between(b, 0xF0, 0xF4) then 4
    else 0
  }

  predicate SecondOk(b0: byte, b1: byte) {
    if b0 == 0xE0 then Between(b1, 0xA0, 0xBF)
    else if b0 == 0xED then Between(b1, 0x80, 0x9F)
    else if b0 == 0xF0 then Between(b1, 0x90, 0xBF)
    else if b0 == 0xF4 then Between(b1, 0x80, 0x8F)
    else Between(b1, 0x80, 0xBF)
  }

  predicate StartsWell(s: seq<byte>) {
    && s != [] && 0 < Width(s[0]) <= |s|
    && (Width(s[0]) >= 2 ==> SecondOk(s[0], s[1]))
    && (Width(s[0]) >= 3 ==> Between(s[2], 0x80, 0xBF))
    && (Width(s[0]) >= 4 ==> Between(s[3], 0x80, 0xBF))
  }

  function CodePoint(s: seq<byte>): int
    requires StartsWell(s)
  {
    var b := Chars(s);
    match Width(s[0])
    case 1 => b[0]
    case 2 => (b[0] - 0xC0) * 0x40 + (b[1] - 0x80)
    case 3 => ((b[0] - 0xE0) * 0x40 + (b[1] - 0x80)) * 0x40 + (b[2] - 0x80)
    case _ => (((b[0] - 0xF0) * 0x40 + (b[1] - 0x80)) * 0x40 + (b[2] - 0x80)) * 0x40 + (b[3] - 0x80)
  }

  /** The characters of a byte string, if it is well-formed UTF-8. */
  function Utf8(s: seq<byte>): Option<seq<int>> {
    if s == [] then Some([])
    else if !StartsWell(s) then None
    else
      match Utf8(s[Width(s[0])..])
      case None => None
      case Some(rest) => Some([CodePoint(s)] + rest)
  }

  lemma AsciiHead(b: byte, s: seq<byte>)
    requires b < 0x80
    ensures Utf8(s).None? ==> Utf8([b] + s).None?
    ensures Utf8(s).Some? ==> Utf8([b] + s) == Some([b as int] + Utf8(s).value)
  {
    assert ([b] + s)[1..] == s;
    assert CodePoint([b] + s) == b;
  }

  /** ASCII stands for itself. */
  lemma {:induction false} Utf8Ascii(s: seq<byte>, rest: seq<byte>)
    requires forall i {:trigger s[i]} :: 0 <= i < |s| ==> s[i] < 0x80
    requires Utf8(rest).Some?
    ensures Utf8(s + rest) == Some(Chars(s) + Utf8(rest).value)
  {
    if s == [] {
      assert s + rest == rest;
      assert Chars(s) + Utf8(rest).value == Utf8(rest).value;
    } else {
      Utf8Ascii(s[1..], rest);
      AsciiHead(s[0], s[1..] + rest);
      assert s + rest == [s[0]] + (s[1..] + rest);
      assert Chars(s) + Utf8(rest).value == [s[0] as int] + (Chars(s[1..]) + Utf8(rest).value);
    }
  }

  lemma HeadStays(a: seq<byte>, b: seq<byte>)
    requires StartsWell(a)
    ensures StartsWell(a + b) && CodePoint(a + b) == CodePoint(a)
    ensures (a + b)[Width(a[0])..] == a[Width(a[0])..] + b
  {
    assert forall i {:trigger a[i]} :: 0 <= i < |a| ==> (a + b)[i] == a[i];
  }

  /** Well-formed texts join to a well-formed text. */
  lemma {:induction false} Utf8Append(a: seq<byte>, b: seq<byte>)
    requires Utf8(a).Some? && Utf8(b).Some?
    ensures Utf8(a + b) == Some(Utf8(a).value + Utf8(b).value)
    decreases |a|
  {
    if a == [] {
      assert a + b == b;
      assert [] + Utf8(b).value == Utf8(b).value;
    } else {
      var rest := a[Width(a[0])..];
      HeadStays(a, b);
      Utf8Append(rest, b);
      assert [CodePoint(a)] + (Utf8(rest).value + Utf8(b).value) == [CodePoint(a)] + Utf8(rest).value + Utf8(b).value;
    }
  }

  function Chars(s: seq<byte>): (r: seq<int>)
    ensures |r| == |s|
  {
    seq(|s|, i requires 0 <= i < |s| => s[i])
  }

  // ---------- Encoding ----------

  /** A Unicode scalar value. */
  predicate Scalar(c: int) { 0 <= c < 0x11_0000 && !Between(c, 0xD800, 0xDFFF) }

  /** Section 3 of RFC 3629. */
  function EncodePoint(c: int): (bs: seq<byte>)
    requires Scalar(c)
    ensures bs != []
  {
    if c < 0x80 then [c]
    else if c < 0x800 then [0xC0 + c / 0x40, 0x80 + c % 0x40]
    else if c < 0x1_0000 then [0xE0 + c / 0x1000, 0x80 + c / 0x40 % 0x40, 0x80 + c % 0x40]
    else [0xF0 + c / 0x4_0000, 0x80 + c / 0x1000 % 0x40, 0x80 + c / 0x40 % 0x40, 0x80 + c % 0x40]
  }

  ghost predicate AllScalar(cs: seq<int>) { forall i {:trigger cs[i]} :: 0 <= i < |cs| ==> Scalar(cs[i]) }

  ghost function EncodeUtf8(cs: seq<int>): seq<byte>
    requires AllScalar(cs)
  {
    if cs == [] then [] else EncodePoint(cs[0]) + EncodeUtf8(cs[1..])
  }

  lemma PointReads(c: int)
    requires Scalar(c)
    ensures var bs := EncodePoint(c); StartsWell(bs) && Width(bs[0]) == |bs| && CodePoint(bs) == c
  {
    Halves(c);
  }

  /** Decoding undoes encoding. */
  lemma {:induction false} Utf8RoundTrip(cs: seq<int>)
    requires AllScalar(cs)
    ensures Utf8(EncodeUtf8(cs)) == Some(cs)
  {
    if cs != [] {
      var bs, rest := EncodePoint(cs[0]), EncodeUtf8(cs[1..]);
      PointReads(cs[0]);
      HeadStays(bs, rest);
      Utf8RoundTrip(cs[1..]);
      assert (bs + rest)[|bs|..] == rest;
      assert [cs[0]] + cs[1..] == cs;
    }
  }

  lemma Digits64(hi: int, lo: int)
    requires 0 <= hi && 0 <= lo < 0x40
    ensures (hi * 0x40 + lo) / 0x40 == hi && (hi * 0x40 + lo) % 0x40 == lo
  {}

  lemma Halves(c: int)
    requires 0 <= c
    ensures c / 0x1000 == c / 0x40 / 0x40 && c / 0x4_0000 == c / 0x40 / 0x40 / 0x40
  {}

  lemma PrintsTwo(a: int, b: int)
    requires Between(a, 0xC2, 0xDF) && Between(b, 0x80, 0xBF)
    ensures var c := (a - 0xC0) * 0x40 + (b - 0x80); Scalar(c) && EncodePoint(c) == [a, b]
  {
    Digits64(a - 0xC0, b - 0x80);
  }

  lemma PrintsThree(a: int, b: int, d: int)
    requires Between(a, 0xE0, 0xEF) && 0 <= b < 0x100 && SecondOk(a, b) && Between(d, 0x80, 0xBF)
    ensures var c := ((a - 0xE0) * 0x40 + (b - 0x80)) * 0x40 + (d - 0x80); Scalar(c) && EncodePoint(c) == [a, b, d]
  {
    var hi := (a - 0xE0) * 0x40 + (b - 0x80);
    Digits64(a - 0xE0, b - 0x80);
    Digits64(hi, d - 0x80);
    Halves(hi * 0x40 + (d - 0x80));
  }

  lemma PrintsFour(a: int, b: int, d: int, e: int)
    requires Between(a, 0xF0, 0xF4) && 0 <= b < 0x100 && SecondOk(a, b)
    requires Between(d, 0x80, 0xBF) && Between(e, 0x80, 0xBF)
    ensures var c := (((a - 0xF0) * 0x40 + (b - 0x80)) * 0x40 + (d - 0x80)) * 0x40 + (e - 0x80);
            Scalar(c) && EncodePoint(c) == [a, b, d, e]
  {
    var hi := (a - 0xF0) * 0x40 + (b - 0x80);
    var mid := hi * 0x40 + (d - 0x80);
    Digits64(a - 0xF0, b - 0x80);
    Digits64(hi, d - 0x80);
    Digits64(mid, e - 0x80);
    Halves(mid * 0x40 + (e - 0x80));
  }

  /** A first character as the decoder takes it is a scalar value in its only encoding. */
  lemma PointPrints(s: seq<byte>)
    requires StartsWell(s)
    ensures Scalar(CodePoint(s)) && EncodePoint(CodePoint(s)) == s[..Width(s[0])]
  {
    var w := Width(s[0]);
    if w == 2 {
      PrintsTwo(s[0], s[1]);
    } else if w == 3 {
      PrintsThree(s[0], s[1], s[2]);
    } else if w == 4 {
      PrintsFour(s[0], s[1], s[2], s[3]);
    }
  }

  /** Nothing else decodes: overlong forms, surrogates and values past the last plane are refused. */
  lemma {:induction false} Utf8Exact(s: seq<byte>)
    requires Utf8(s).Some?
    ensures AllScalar(Utf8(s).value) && s == EncodeUtf8(Utf8(s).value)
    decreases |s|
  {
    if s != [] {
      var w := Width(s[0]);
      Utf8Exact(s[w..]);
      ExactStep(s, Utf8(s[w..]).value);
    }
  }

  lemma {:induction false} ExactStep(s: seq<byte>, rest: seq<int>)
    requires StartsWell(s) && AllScalar(rest) && s[Width(s[0])..] == EncodeUtf8(rest)
    ensures AllScalar([CodePoint(s)] + rest) && s == EncodeUtf8([CodePoint(s)] + rest)
  {
    PointPrints(s);
    EncodeCons(CodePoint(s), rest);
    assert s == s[..Width(s[0])] + s[Width(s[0])..];
  }

  lemma EncodeCons(c: int, cs: seq<int>)
    requires Scalar(c) && AllScalar(cs)
    ensures AllScalar([c] + cs) && EncodeUtf8([c] + cs) == EncodePoint(c) + EncodeUtf8(cs)
  {
    assert ([c] + cs)[1..] == cs;
  }

  // ---------- Trimming ----------

  /** Unicode white space. */
  predicate White(c: int) {
    || Between(c, 9, 13) || c == 32 || c == 0x85 || c == 0xA0 || c == 0x1680 || Between(c, 0x2000, 0x200A)
    || c == 0x2028 || c == 0x2029 || c == 0x202F || c == 0x205F || c == 0x3000
  }

  /** The code points with the property White_Space, written out. */
  lemma WhiteIs(c: int)
    ensures White(c) <==> c in {0x9, 0xA, 0xB, 0xC, 0xD, 0x20, 0x85, 0xA0, 0x1680, 0x2000, 0x2001, 0x2002, 0x2003, 0x2004,
                                0x2005, 0x2006, 0x2007, 0x2008, 0x2009, 0x200A, 0x2028, 0x2029, 0x202F, 0x205F, 0x3000}
  {}

  ghost predicate AllWhite(s: seq<int>) { forall i {:trigger s[i]} :: 0 <= i < |s| ==> White(s[i]) }

  function TrimStart(s: seq<int>): seq<int> { if s == [] || !White(s[0]) then s else TrimStart(s[1..]) }

  function TrimEnd(s: seq<int>): seq<int> {
    if s == [] || !White(s[|s| - 1]) then s else TrimEnd(s[..|s| - 1])
  }

  function Trim(s: seq<int>): seq<int> { TrimEnd(TrimStart(s)) }

  lemma {:induction false} TrimStartIs(a: seq<int>, s: seq<int>)
    requires AllWhite(a)
    ensures TrimStart(a + s) == TrimStart(s)
  {
    if a == [] {
      assert a + s == s;
    } else {
      assert (a + s)[1..] == a[1..] + s;
      TrimStartIs(a[1..], s);
    }
  }

  lemma {:induction false} TrimEndIs(s: seq<int>, b: seq<int>)
    requires AllWhite(b)
    ensures TrimEnd(s + b) == TrimEnd(s)
  {
    if b == [] {
      assert s + b == s;
    } else {
      assert (s + b)[..|s + b| - 1] == s + b[..|b| - 1];
      TrimEndIs(s, b[..|b| - 1]);
    }
  }

  lemma {:induction false} TrimStartCuts(s: seq<int>) returns (a: seq<int>)
    ensures AllWhite(a) && s == a + TrimStart(s)
    ensures TrimStart(s) != [] ==> !White(TrimStart(s)[0])
  {
    a := [];
    if s != [] && White(s[0]) {
      var rest := TrimStartCuts(s[1..]);
      a := [s[0]] + rest;
    }
  }

  lemma {:induction false} TrimEndCuts(s: seq<int>) returns (b: seq<int>)
    ensures AllWhite(b) && s == TrimEnd(s) + b
    ensures TrimEnd(s) != [] ==> !White(TrimEnd(s)[|TrimEnd(s)| - 1])
  {
    b := [];
    if s != [] && White(s[|s| - 1]) {
      var rest := TrimEndCuts(s[..|s| - 1]);
      b := rest + [s[|s| - 1]];
    }
  }

  lemma TrimKeeps(num: seq<int>)
    requires num != [] && !White(num[0]) && !White(num[|num| - 1])
    ensures Trim(num) == num
  {}

  /** Trimming the end of a line that starts with visible text may shorten the rest but keeps that text. */
  lemma {:induction false} TrimEndKeeps(s: seq<int>, t: seq<int>) returns (kept: seq<int>)
    requires s != [] && !White(s[|s| - 1])
    ensures kept <= t && TrimEnd(s + t) == s + kept
  {
    if t == [] {
      assert s + t == s;
      return [];
    }
    if !White(t[|t| - 1]) {
      return t;
    }
    assert (s + t)[..|s + t| - 1] == s + t[..|t| - 1];
    kept := TrimEndKeeps(s, t[..|t| - 1]);
  }

  // ---------- Numerals ----------

  function DigitValue(c: int): Option<nat> {
    if Between(c, 0x30, 0x39) then Some(c - 0x30)
    else if Between(c, 0x41, 0x46) then Some(c - 0x41 + 10)
    else if Between(c, 0x61, 0x66) then Some(c - 0x61 + 10)
    else None
  }

  predicate IsDigit(c: int, radix: nat) { DigitValue(c).Some? && DigitValue(c).value < radix }

  predicate AllDigits(s: seq<int>, radix: nat) { forall i {:trigger s[i]} :: 0 <= i < |s| ==> IsDigit(s[i], radix) }

  /** The value of digits, most significant first. */
  function Value(s: seq<int>, radix: nat): nat
    requires AllDigits(s, radix)
  {
    if s == [] then 0 else Value(s[..|s| - 1], radix) * radix + DigitValue(s[|s| - 1]).value
  }

  // The sixteen digits, written out in both cases.
  const LOWER: seq<int> := [0x30, 0x31, 0x32, 0x33, 0x34, 0x35, 0x36, 0x37, 0x38, 0x39, 0x61, 0x62, 0x63, 0x64, 0x65, 0x66]
  const UPPER: seq<int> := [0x30, 0x31, 0x32, 0x33, 0x34, 0x35, 0x36, 0x37, 0x38, 0x39, 0x41, 0x42, 0x43, 0x44, 0x45, 0x46]

  predicate Spells(c: int, d: nat) { d < 16 && (c == LOWER[d] || c == UPPER[d]) }

  lemma DigitTable(c: int, d: nat)
    ensures DigitValue(c) == Some(d) <==> Spells(c, d)
  {}

  function Power(radix: nat, n: nat): nat { if n == 0 then 1 else radix * Power(radix, n - 1) }

  /** The number that digits stand for, each by its place. */
  function Positional(ds: seq<nat>, radix: nat): nat {
    if ds == [] then 0 else ds[0] * Power(radix, |ds| - 1) + Positional(ds[1..], radix)
  }

  /** The text spells these digits, each in either case. */
  ghost predicate SpellsAll(s: seq<int>, ds: seq<nat>, radix: nat) {
    |s| == |ds| && forall i {:trigger s[i]} {:trigger ds[i]} :: 0 <= i < |s| ==> ds[i] < radix && Spells(s[i], ds[i])
  }

  lemma Distribute(a: nat, p: nat, b: nat, radix: nat, d: nat)
    ensures (a * p + b) * radix + d == a * (radix * p) + (b * radix + d)
  {
    assert (a * p + b) * radix == a * p * radix + b * radix;
    assert a * p * radix == a * (radix * p);
  }

  lemma {:induction false} PositionalSnoc(ds: seq<nat>, d: nat, radix: nat)
    ensures Positional(ds + [d], radix) == Positional(ds, radix) * radix + d
  {
    var all := ds + [d];
    if ds == [] {
      assert all[1..] == [];
      assert Power(radix, 0) == 1;
    } else {
      assert all[1..] == ds[1..] + [d];
      PositionalSnoc(ds[1..], d, radix);
      Distribute(ds[0], Power(radix, |ds| - 1), Positional(ds[1..], radix), radix, d);
    }
  }

  /** Leading zeros change nothing. */
  lemma LeadingZero(ds: seq<nat>, radix: nat)
    ensures Positional([0] + ds, radix) == Positional(ds, radix)
  {
    assert ([0] + ds)[1..] == ds;
  }

  lemma SpellsFront(s: seq<int>, ds: seq<nat>, radix: nat)
    requires SpellsAll(s, ds, radix) && s != []
    ensures var n := |s| - 1;
            && SpellsAll(s[..n], ds[..n], radix) && s == s[..n] + [s[n]] && ds == ds[..n] + [ds[n]]
            && IsDigit(s[n], radix) && DigitValue(s[n]) == Some(ds[n])
  {
    DigitTable(s[|s| - 1], ds[|s| - 1]);
  }

  /** The value of digits is the number they stand for, whatever case each is in. */
  lemma {:induction false} SpelledValue(s: seq<int>, ds: seq<nat>, radix: nat)
    requires SpellsAll(s, ds, radix)
    ensures AllDigits(s, radix) && Value(s, radix) == Positional(ds, radix)
  {
    if s != [] {
      var n := |s| - 1;
      SpellsFront(s, ds, radix);
      SpelledValue(s[..n], ds[..n], radix);
      DigitsSnoc(s[..n], s[n], radix);
      PositionalSnoc(ds[..n], ds[n], radix);
    }
  }

  /** Digits spell something. */
  lemma {:induction false} ValueSpelled(s: seq<int>, radix: nat) returns (ds: seq<nat>)
    requires AllDigits(s, radix)
    ensures SpellsAll(s, ds, radix)
  {
    ds := seq(|s|, i requires 0 <= i < |s| => DigitValue(s[i]).value);
    forall i | 0 <= i < |s|
      ensures ds[i] < radix && Spells(s[i], ds[i])
    {
      assert IsDigit(s[i], radix);
      DigitTable(s[i], ds[i]);
    }
  }

  function Unsigned(s: seq<int>): seq<int> { if s != [] && s[0] == PLUS then s[1..] else s }

  /** An unsigned integer of a machine type as the standard library reads it: an optional plus, digits, and no overflow. */
  function ReadUnsigned(s: seq<int>, radix: nat, max: nat): Option<nat> {
    var digits := Unsigned(s);
    if digits == [] || !AllDigits(digits, radix) || Value(digits, radix) > max then None else Some(Value(digits, radix))
  }

  /**
   Every numeral of a number in range reads as that number: with any leading zeros,
   with each digit in either case, and with or without a plus.
   */
  lemma SpelledReads(s: seq<int>, ds: seq<nat>, radix: nat, max: nat)
    requires SpellsAll(s, ds, radix) && ds != [] && Positional(ds, radix) <= max
    ensures ReadUnsigned(s, radix, max) == Some(Positional(ds, radix))
    ensures ReadUnsigned([PLUS] + s, radix, max) == Some(Positional(ds, radix))
  {
    SpelledValue(s, ds, radix);
    assert Spells(s[0], ds[0]) && s[0] != PLUS;
    assert ([PLUS] + s)[1..] == s;
  }

  /** And nothing else reads as it. */
  lemma ReadIsSpelled(s: seq<int>, radix: nat, max: nat) returns (ds: seq<nat>)
    requires ReadUnsigned(s, radix, max).Some?
    ensures ds != [] && SpellsAll(Unsigned(s), ds, radix)
    ensures ReadUnsigned(s, radix, max) == Some(Positional(ds, radix)) && Positional(ds, radix) <= max
  {
    ds := ValueSpelled(Unsigned(s), radix);
    SpelledValue(Unsigned(s), ds, radix);
  }

  /** A plus and digits of any radix are neither white space nor punctuation. */
  predicate Alphanumeric(c: int) { c == PLUS || DigitValue(c).Some? }

  lemma NumeralChars(num: seq<int>, radix: nat, max: nat)
    requires ReadUnsigned(num, radix, max).Some?
    ensures num != [] && forall i {:trigger num[i]} :: 0 <= i < |num| ==> Alphanumeric(num[i])
  {
    var digits := Unsigned(num);
    forall i | 0 <= i < |num|
      ensures Alphanumeric(num[i])
    {
      if num[0] == PLUS {
        assert i > 0 ==> num[i] == digits[i - 1];
      }
    }
  }

  lemma AlphanumericVisible(c: int)
    requires Alphanumeric(c)
    ensures !White(c) && c != 0x3A && c != 0x3B && c != 0x5B && c != 0x5D
  {}

  function PrintDigit(d: nat): byte
    requires d < 16
  {
    if d < 10 then 0x30 + d else 0x61 + d - 10
  }

  /** A number in a radix, in lower case and without leading zeros. */
  function Numeral(n: nat, radix: nat): seq<byte>
    requires 2 <= radix <= 16
  {
    if n < radix then [PrintDigit(n)] else Numeral(n / radix, radix) + [PrintDigit(n % radix)]
  }

  lemma {:induction false} NumeralRoundTrip(n: nat, radix: nat)
    requires 2 <= radix <= 16
    ensures Numeral(n, radix) != [] && AllDigits(Chars(Numeral(n, radix)), radix)
    ensures Value(Chars(Numeral(n, radix)), radix) == n
  {
    if n < radix {
      OneDigit(n, radix);
    } else {
      DivModIs(n, radix);
      NumeralRoundTrip(n / radix, radix);
      AddDigit(Numeral(n / radix, radix), n / radix, n % radix, radix);
    }
  }

  lemma DivModIs(n: nat, radix: nat)
    requires 2 <= radix <= n
    ensures n / radix * radix + n % radix == n && n / radix < n
  {}

  lemma AddDigit(s: seq<byte>, q: nat, r: nat, radix: nat)
    requires AllDigits(Chars(s), radix) && Value(Chars(s), radix) == q && r < radix <= 16
    ensures AllDigits(Chars(s + [PrintDigit(r)]), radix) && Value(Chars(s + [PrintDigit(r)]), radix) == q * radix + r
  {
    CharsSnoc(s, PrintDigit(r));
    DigitsSnoc(Chars(s), PrintDigit(r), radix);
  }

  lemma OneDigit(d: nat, radix: nat)
    requires d < radix <= 16
    ensures AllDigits(Chars([PrintDigit(d)]), radix) && Value(Chars([PrintDigit(d)]), radix) == d
  {
    DigitsSnoc([], PrintDigit(d), radix);
    assert Chars([PrintDigit(d)]) == [] + [PrintDigit(d) as int];
    assert 0 * radix == 0;
  }

  lemma CharsSnoc(s: seq<byte>, b: byte)
    ensures Chars(s + [b]) == Chars(s) + [b as int]
  {}

  lemma DigitsSnoc(s: seq<int>, c: int, radix: nat)
    requires AllDigits(s, radix) && IsDigit(c, radix)
    ensures AllDigits(s + [c], radix) && Value(s + [c], radix) == Value(s, radix) * radix + DigitValue(c).value
  {
    assert (s + [c])[..|s|] == s;
  }

  /** A printed number reads back. */
  lemma NumeralReads(n: nat, radix: nat, max: nat)
    requires 2 <= radix <= 16 && n <= max
    ensures ReadUnsigned(Chars(Numeral(n, radix)), radix, max) == Some(n)
    ensures forall i {:trigger Numeral(n, radix)[i]} :: 0 <= i < |Numeral(n, radix)| ==> 0x30 <= Numeral(n, radix)[i] < 0x80
  {
    NumeralRoundTrip(n, radix);
    DigitBytes(Numeral(n, radix), radix);
  }

  lemma DigitBytes(s: seq<byte>, radix: nat)
    requires AllDigits(Chars(s), radix)
    ensures forall i {:trigger s[i]} :: 0 <= i < |s| ==> 0x30 <= s[i] < 0x80
  {
    forall i | 0 <= i < |s|
      ensures 0x30 <= s[i] < 0x80
    {
      assert IsDigit(Chars(s)[i], radix);
    }
  }
}
