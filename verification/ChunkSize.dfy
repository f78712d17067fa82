/**
 The size line of a chunk: UTF-8 text, an optional extension behind a semicolon,
 white space around, and a hexadecimal numeral.
 */
module ChunkSize {
  import opened Prelude
  import opened Text

  const USIZE_MAX := U64_LIMIT - 1
  const SEMICOLON := 0x3B

  /** Everything before the first semicolon. */
  function BeforeSemicolon(s: seq<int>): seq<int> {
    if s == [] || s[0] == SEMICOLON then [] else [s[0]] + BeforeSemicolon(s[1..])
  }

  lemma {:induction false} SemicolonCuts(s: seq<int>) returns (rest: seq<int>)
    ensures s == BeforeSemicolon(s) + rest && SEMICOLON !in BeforeSemicolon(s)
    ensures rest == [] || rest[0] == SEMICOLON
  {
    rest := s;
    if s != [] && s[0] != SEMICOLON {
      rest := SemicolonCuts(s[1..]);
    }
  }

  lemma {:induction false} SemicolonIs(s: seq<int>, rest: seq<int>)
    requires SEMICOLON !in s && (rest == [] || rest[0] == SEMICOLON)
    ensures BeforeSemicolon(s + rest) == s
  {
    if s == [] {
      assert s + rest == rest;
    } else {
      assert (s + rest)[1..] == s[1..] + rest;
      SemicolonIs(s[1..], rest);
    }
  }

  /** `usize::from_str_radix(s, 16)`. */
  function FromHex(s: seq<int>): Option<nat> { ReadUnsigned(s, 16, USIZE_MAX) }

  /** What a size line says. */
  function SizeOf(line: seq<byte>): Option<nat> {
    match Utf8(line)
    case None => None
    case Some(text) => FromHex(Trim(BeforeSemicolon(Trim(text))))
  }

  // ---------- The lines that have a size ----------

  /** White space, a numeral, white space, and possibly an extension. */
  ghost predicate SizeLine(text: seq<int>, n: nat, a: seq<int>, num: seq<int>, b: seq<int>, extension: seq<int>) {
    Shape(text, a, num, b, extension) && IsNumeral(num, n)
  }

  /** An optional plus, then hexadecimal digits that stand for n, which fits a machine word. */
  ghost predicate IsNumeral(num: seq<int>, n: nat) {
    && n < 0x1_0000_0000_0000_0000
    && exists ds {:trigger SpellsAll(num, ds, 16)} {:trigger Positional(ds, 16)} ::
         ds != [] && Positional(ds, 16) == n && (SpellsAll(num, ds, 16) || (num != [] && num[0] == PLUS && SpellsAll(num[1..], ds, 16)))
  }

  lemma NumeralIff(num: seq<int>, n: nat)
    ensures IsNumeral(num, n) <==> FromHex(num) == Some(n)
  {
    if IsNumeral(num, n) {
      var ds :| ds != [] && Positional(ds, 16) == n && (SpellsAll(num, ds, 16) || (num != [] && num[0] == PLUS && SpellsAll(num[1..], ds, 16)));
      if SpellsAll(num, ds, 16) {
        SpelledReads(num, ds, 16, USIZE_MAX);
      } else {
        assert num == [PLUS] + num[1..];
        SpelledReads(num[1..], ds, 16, USIZE_MAX);
      }
    }
    if FromHex(num) == Some(n) {
      var ds := ReadIsSpelled(num, 16, USIZE_MAX);
      assert Positional(ds, 16) == n;
    }
  }

  lemma NumeralIs(num: seq<int>)
    requires FromHex(num).Some?
    ensures num != [] && SEMICOLON !in num && !White(num[0]) && !White(num[|num| - 1])
  {
    NumeralChars(num, 16, USIZE_MAX);
    forall i | 0 <= i < |num|
      ensures !White(num[i]) && num[i] != SEMICOLON
    {
      AlphanumericVisible(num[i]);
    }
  }

  lemma WhiteNoSemicolon(s: seq<int>)
    requires AllWhite(s)
    ensures SEMICOLON !in s
  {}

  ghost predicate Shape(text: seq<int>, a: seq<int>, num: seq<int>, b: seq<int>, extension: seq<int>) {
    && text == a + num + b + extension && AllWhite(a) && AllWhite(b)
    && (extension == [] || extension[0] == SEMICOLON)
  }

  lemma ShapeParses(text: seq<int>, a: seq<int>, num: seq<int>, b: seq<int>, extension: seq<int>)
    requires Shape(text, a, num, b, extension) && FromHex(num).Some?
    ensures Trim(BeforeSemicolon(Trim(text))) == num
  {
    NumeralIs(num);
    var tail := num + (b + extension);
    assert text == a + tail;
    TrimStartIs(a, tail);
    assert TrimStart(tail) == tail;
    var kept := TrimEndKeeps(num, b + extension);
    SegmentIs(num, b, extension, kept);
  }

  /** Such a line has the size its numeral says. */
  lemma SizeLineParses(text: seq<int>, n: nat, a: seq<int>, num: seq<int>, b: seq<int>, extension: seq<int>)
    requires SizeLine(text, n, a, num, b, extension)
    ensures FromHex(Trim(BeforeSemicolon(Trim(text)))) == Some(n)
  {
    NumeralIff(num, n);
    ShapeParses(text, a, num, b, extension);
  }

  lemma {:induction false} SegmentIs(num: seq<int>, b: seq<int>, extension: seq<int>, kept: seq<int>)
    requires FromHex(num).Some? && AllWhite(b) && (extension == [] || extension[0] == SEMICOLON)
    requires kept <= b + extension
    ensures Trim(BeforeSemicolon(num + kept)) == num
  {
    if |kept| <= |b| {
      assert kept == b[..|kept|];
      assert num + kept == (num + kept) + [];
      FieldIs(num, kept, []);
    } else {
      var rest := kept[|b|..];
      assert kept == b + rest && rest[0] == extension[0];
      assert num + kept == (num + b) + rest;
      FieldIs(num, b, rest);
    }
  }

  lemma {:induction false} FieldIs(num: seq<int>, white: seq<int>, rest: seq<int>)
    requires FromHex(num).Some? && AllWhite(white) && (rest == [] || rest[0] == SEMICOLON)
    ensures Trim(BeforeSemicolon((num + white) + rest)) == num
  {
    NumeralIs(num);
    WhiteNoSemicolon(white);
    SemicolonIs(num + white, rest);
    assert (num + white)[0] == num[0];
    TrimEndIs(num, white);
    TrimKeeps(num);
  }

  /** No other line has a size. */
  lemma ParsedIsSizeLine(text: seq<int>, n: nat)
    returns (a: seq<int>, num: seq<int>, b: seq<int>, extension: seq<int>)
    requires FromHex(Trim(BeforeSemicolon(Trim(text)))) == Some(n)
    ensures SizeLine(text, n, a, num, b, extension)
  {
    a, b, extension := AnyShape(text);
    num := Trim(BeforeSemicolon(Trim(text)));
    NumeralIff(num, n);
  }

  /** Every line is its trimmed field with white space around and an extension behind. */
  lemma AnyShape(text: seq<int>) returns (a: seq<int>, b: seq<int>, extension: seq<int>)
    ensures Shape(text, a, Trim(BeforeSemicolon(Trim(text))), b, extension)
  {
    var a1 := TrimStartCuts(text);
    var b1 := TrimEndCuts(TrimStart(text));
    var trimmed := Trim(text);
    var rest := SemicolonCuts(trimmed);
    var segment := BeforeSemicolon(trimmed);
    var a2 := TrimStartCuts(segment);
    var b2 := TrimEndCuts(TrimStart(segment));
    a := a1 + a2;
    b, extension := if rest == [] then b2 + b1 else b2, if rest == [] then [] else rest + b1;
    Regroup(a1, a2, Trim(segment), b2, rest, b1);
  }

  lemma Regroup(a1: seq<int>, a2: seq<int>, num: seq<int>, b2: seq<int>, rest: seq<int>, b1: seq<int>)
    ensures a1 + (((a2 + (num + b2)) + rest) + b1)
         == (a1 + a2) + num + (if rest == [] then b2 + b1 else b2) + (if rest == [] then [] else rest + b1)
  {}

  // ---------- Printing ----------

  /** These bytes are a hexadecimal numeral of n: any leading zeros, each digit in either case. */
  ghost predicate HexNumeral(size: seq<byte>, n: nat) {
    exists ds {:trigger SpellsAll(Chars(size), ds, 16)} ::
      SpellsAll(Chars(size), ds, 16) && ds != [] && Positional(ds, 16) == n
  }

  function Hex(n: nat): seq<byte> { Numeral(n, 16) }

  /** Lower case without leading zeros is one of them. */
  lemma HexIsNumeral(n: nat)
    requires n <= USIZE_MAX
    ensures HexNumeral(Hex(n), n)
  {
    NumeralReads(n, 16, USIZE_MAX);
    NumeralRoundTrip(n, 16);
    var ds := ReadIsSpelled(Chars(Hex(n)), 16, USIZE_MAX);
    assert Hex(n)[0] >= 0x30;
    assert Unsigned(Chars(Hex(n))) == Chars(Hex(n));
  }

  lemma ExtensionText(extension: seq<byte>)
    requires Utf8(extension).Some? && (extension == [] || extension[0] == SEMICOLON)
    ensures Utf8(extension).value == [] || Utf8(extension).value[0] == SEMICOLON
  {
    if extension != [] {
      assert extension == [extension[0]] + extension[1..];
      AsciiHead(extension[0], extension[1..]);
    }
  }

  lemma NumeralText(size: seq<byte>, n: nat)
    requires HexNumeral(size, n) && n <= USIZE_MAX
    ensures FromHex(Chars(size)) == Some(n)
    ensures forall i {:trigger size[i]} :: 0 <= i < |size| ==> 0x30 <= size[i] < 0x80
  {
    var ds :| SpellsAll(Chars(size), ds, 16) && ds != [] && Positional(ds, 16) == n;
    SpelledReads(Chars(size), ds, 16, USIZE_MAX);
    forall i | 0 <= i < |size|
      ensures 0x30 <= size[i] < 0x80
    {
      assert Spells(Chars(size)[i], ds[i]);
    }
  }

  lemma BareLine(num: seq<int>, n: nat, extension: seq<int>)
    requires FromHex(num) == Some(n) && (extension == [] || extension[0] == SEMICOLON)
    ensures FromHex(Trim(BeforeSemicolon(Trim(num + extension)))) == Some(n)
  {
    assert num + extension == [] + num + [] + extension;
    ShapeParses(num + extension, [], num, [], extension);
  }

  /** A printed size, in any spelling and with any well-formed extension, reads back. */
  lemma PrintedSize(size: seq<byte>, n: nat, extension: seq<byte>)
    requires HexNumeral(size, n) && n <= USIZE_MAX
    requires Utf8(extension).Some? && (extension == [] || extension[0] == SEMICOLON)
    ensures SizeOf(size + extension) == Some(n)
  {
    NumeralText(size, n);
    ExtensionText(extension);
    Utf8Ascii(size, extension);
    BareLine(Chars(size), n, Utf8(extension).value);
  }
}
