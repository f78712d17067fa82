/**
 Exactly which bytes have a host or a protocol offer: the converse of the printers'
 round trips, for arbitrary input.
 */
module HelloExact {
  import opened Prelude
  import opened ClientHello
  import opened ServerName
  import opened Alpn

  lemma SliceSplit(s: seq<byte>, i: nat, j: nat, k: nat)
    requires i <= j <= k <= |s|
    ensures s[i..k] == s[i..j] + s[j..k]
  {}

  lemma Be16Of(hi: byte, lo: byte)
    ensures U16(hi, lo) < 0x1_0000 && Be16(U16(hi, lo)) == [hi, lo]
  {
    var h, l: int := hi, lo;
    assert (h * 256 + l) / 256 == h && (h * 256 + l) % 256 == l;
  }

  lemma Two(s: seq<byte>, i: nat)
    requires i + 2 <= |s|
    ensures s[i..i + 2] == [s[i], s[i + 1]]
  {}

  // ---------- The fields in front ----------

  lemma FixedFields(data: seq<byte>)
    requires |data| >= 43 && data[0] == 0x16 && data[5] == 0x01
    ensures data[..43] == [0x16] + data[1..5] + [0x01] + data[6..9] + data[9..43]
  {}

  lemma Grow(data: seq<byte>, i: nat, j: nat, k: nat)
    requires i <= j <= k <= |data|
    ensures data[..k] == data[..i] + data[i..j] + data[j..k]
  {}

  lemma One(data: seq<byte>, i: nat)
    requires i < |data|
    ensures data[i..i + 1] == [data[i]]
  {}

  /** An extension block is found only behind fields that print to the bytes in front of it. */
  lemma BlockIsPrinted(data: seq<byte>, block: Span) returns (h: Hello)
    requires ExtensionBlock(data) == Some(block)
    ensures ValidFields(h) && block.end - block.start < 0x1_0000
    ensures data[..block.start] == PrintHead(h, block.end - block.start)
  {
    var cipherAt := 44 + U8(data[43]);
    var ciphers := U16(data[cipherAt], data[cipherAt + 1]);
    var compAt := cipherAt + 2 + ciphers;
    var extAt := compAt + 1 + U8(data[compAt]);
    h := Hello(data[1..5], data[6..9], data[9..43], data[44..cipherAt], data[cipherAt + 2..compAt],
               data[compAt + 1..extAt], []);
    FixedFields(data);
    HeadJoins(data, cipherAt, compAt, extAt);
    Be16Of(data[cipherAt], data[cipherAt + 1]);
    Be16Of(data[extAt], data[extAt + 1]);
  }

  lemma HeadJoins(data: seq<byte>, cipherAt: nat, compAt: nat, extAt: nat)
    requires 44 <= cipherAt <= cipherAt + 2 <= compAt < compAt + 1 <= extAt <= extAt + 2 <= |data|
    ensures data[..extAt + 2] == data[..43] + [data[43]] + data[44..cipherAt]
                                 + [data[cipherAt], data[cipherAt + 1]] + data[cipherAt + 2..compAt]
                                 + [data[compAt]] + data[compAt + 1..extAt] + [data[extAt], data[extAt + 1]]
  {
    Grow(data, 43, 44, cipherAt);
    One(data, 43);
    Grow(data, cipherAt, cipherAt + 2, compAt);
    Two(data, cipherAt);
    Grow(data, compAt, compAt + 1, extAt);
    One(data, compAt);
    Grow(data, extAt, extAt + 2, extAt + 2);
    Two(data, extAt);
  }

  // ---------- One extension ----------

  /** These bytes are a hello that carries, as its first of this type, an extension with this body. */
  ghost predicate Carries(data: seq<byte>, typ: nat, h: Hello, pre: seq<Extension>, body: seq<byte>,
                          junk: seq<byte>, trailing: seq<byte>)
  {
    && ValidFields(h) && ValidExtensions(pre + [Extension(typ, body)]) && NoneOf(pre, typ)
    && var block := PrintExtensions(pre + [Extension(typ, body)]) + junk;
    && |block| < 0x1_0000 && data == PrintHead(h, |block|) + block + trailing
  }

  /** Such bytes are found, wherever the rest leads. */
  lemma CarriedIsFound(data: seq<byte>, typ: nat, h: Hello, pre: seq<Extension>, body: seq<byte>,
                       junk: seq<byte>, trailing: seq<byte>) returns (s: Span)
    requires Carries(data, typ, h, pre, body, junk, trailing)
    ensures ExtensionOf(data, typ) == Some(s) && s.start <= s.end <= |data| && data[s.start..s.end] == body
  {
    var x := Extension(typ, body);
    var block := PrintExtensions(pre + [x]) + junk;
    var head := PrintHead(h, |block|);
    BlockOfPrinted(h, block, trailing);
    s := FoundInBlock(data, head, pre, x, junk, trailing);
  }

  lemma FoundInBlock(data: seq<byte>, head: seq<byte>, pre: seq<Extension>, x: Extension, junk: seq<byte>,
                     trailing: seq<byte>) returns (s: Span)
    requires ValidExtensions(pre + [x]) && NoneOf(pre, x.typ)
    requires var block := PrintExtensions(pre + [x]) + junk;
             data == head + block + trailing && ExtensionBlock(data) == Some(Span(|head|, |head| + |block|))
    ensures ExtensionOf(data, x.typ) == Some(s) && s.start <= s.end <= |data| && data[s.start..s.end] == x.body
  {
    var printed := PrintExtensions(pre + [x]);
    MiddleIs(data, head, printed, junk, trailing);
    LookupIn(data, |head|, |head| + |printed| + |junk|, x.typ);
    s := FindLast(data, |head|, |head| + |printed|, |head| + |printed| + |junk|, pre, x);
  }

  lemma MiddleIs(data: seq<byte>, a: seq<byte>, b: seq<byte>, c: seq<byte>, d: seq<byte>)
    requires data == a + (b + c) + d
    ensures |a| + |b| + |c| <= |data| && data[|a|..|a| + |b|] == b
  {}

  lemma LookupIn(data: seq<byte>, a: nat, b: nat, typ: nat)
    requires ExtensionBlock(data) == Some(Span(a, b))
    ensures a <= b <= |data| && ExtensionOf(data, typ) == FindExtension(data, a, b, typ)
  {}

  lemma FindLast(data: seq<byte>, i: nat, mid: nat, end: nat, pre: seq<Extension>, x: Extension) returns (s: Span)
    requires ValidExtensions(pre + [x]) && NoneOf(pre, x.typ) && i <= mid <= end <= |data|
    requires data[i..mid] == PrintExtensions(pre + [x])
    ensures FindExtension(data, i, end, x.typ) == Some(s)
    ensures s.start <= s.end <= mid && data[s.start..s.end] == x.body
  {
    assert pre + [x] + [] == pre + [x];
    s := FindPrinted(data, i, mid, end, pre, x, []);
  }

  lemma PrintExtensionCons(x: Extension, exts: seq<Extension>)
    requires x.typ < 0x1_0000 && |x.body| < 0x1_0000 && ValidExtensions(exts)
    ensures ValidExtensions([x] + exts)
    ensures PrintExtensions([x] + exts) == Be16(x.typ) + Be16(|x.body|) + x.body + PrintExtensions(exts)
  {
    assert ([x] + exts)[1..] == exts;
  }

  /** The bytes of one extension at the cursor. */
  lemma ExtensionBytes(data: seq<byte>, i: nat, bodyEnd: nat)
    requires i + 4 <= bodyEnd <= |data| && bodyEnd == i + 4 + U16(data[i + 2], data[i + 3])
    ensures U16(data[i], data[i + 1]) < 0x1_0000 && bodyEnd - i - 4 < 0x1_0000
    ensures data[i..bodyEnd] == Be16(U16(data[i], data[i + 1])) + Be16(bodyEnd - i - 4) + data[i + 4..bodyEnd]
  {
    Be16Of(data[i], data[i + 1]);
    Be16Of(data[i + 2], data[i + 3]);
    Two(data, i);
    Two(data, i + 2);
    SliceSplit(data, i, i + 2, bodyEnd);
    SliceSplit(data, i + 2, i + 4, bodyEnd);
  }

  lemma {:induction false} FindIsPrinted(data: seq<byte>, i: nat, end: nat, typ: nat, s: Span) returns (pre: seq<Extension>)
    requires end <= |data| && FindExtension(data, i, end, typ) == Some(s)
    ensures i <= s.start <= s.end <= end && ValidExtensions(pre + [Extension(typ, data[s.start..s.end])]) && NoneOf(pre, typ)
    ensures data[i..s.end] == PrintExtensions(pre + [Extension(typ, data[s.start..s.end])])
    decreases end - i
  {
    var bodyEnd := i + 4 + U16(data[i + 2], data[i + 3]);
    var x := Extension(U16(data[i], data[i + 1]), data[i + 4..bodyEnd]);
    ExtensionBytes(data, i, bodyEnd);
    if x.typ == typ {
      pre := [];
      LastExtension(data, i, x);
    } else {
      var rest := FindIsPrinted(data, bodyEnd, end, typ, s);
      pre := [x] + rest;
      AddExtension(data, i, bodyEnd, s.end, x, rest, Extension(typ, data[s.start..s.end]));
    }
  }

  lemma LastExtension(data: seq<byte>, i: nat, x: Extension)
    requires x.typ < 0x1_0000 && |x.body| < 0x1_0000 && i + 4 + |x.body| <= |data|
    requires data[i..i + 4 + |x.body|] == Be16(x.typ) + Be16(|x.body|) + x.body
    ensures ValidExtensions([] + [x]) && data[i..i + 4 + |x.body|] == PrintExtensions([] + [x])
  {
    assert [] + [x] == [x] + [];
    PrintExtensionCons(x, []);
  }

  lemma AddExtension(data: seq<byte>, i: nat, bodyEnd: nat, end: nat, x: Extension, rest: seq<Extension>, found: Extension)
    requires i <= bodyEnd <= end <= |data| && x.typ < 0x1_0000 && |x.body| < 0x1_0000
    requires data[i..bodyEnd] == Be16(x.typ) + Be16(|x.body|) + x.body
    requires ValidExtensions(rest + [found]) && data[bodyEnd..end] == PrintExtensions(rest + [found])
    ensures ValidExtensions([x] + rest + [found]) && data[i..end] == PrintExtensions([x] + rest + [found])
  {
    assert [x] + rest + [found] == [x] + (rest + [found]);
    PrintExtensionCons(x, rest + [found]);
    SliceSplit(data, i, bodyEnd, end);
  }

  /** Whatever is found is carried: no other bytes have the extension. */
  lemma {:induction false} FoundIsCarried(data: seq<byte>, typ: nat, s: Span)
    returns (h: Hello, pre: seq<Extension>, junk: seq<byte>, trailing: seq<byte>)
    requires ExtensionOf(data, typ) == Some(s)
    ensures Carries(data, typ, h, pre, data[s.start..s.end], junk, trailing)
  {
    var block := BlockOfFound(data, typ, s);
    h := BlockIsPrinted(data, block);
    pre := FindIsPrinted(data, block.start, block.end, typ, s);
    junk, trailing := data[s.end..block.end], data[block.end..];
    Assemble(data, typ, h, pre, data[s.start..s.end], block.start, s.end, block.end);
  }

  lemma BlockOfFound(data: seq<byte>, typ: nat, s: Span) returns (block: Span)
    requires ExtensionOf(data, typ) == Some(s)
    ensures ExtensionBlock(data) == Some(block) && block.start <= block.end <= |data|
    ensures FindExtension(data, block.start, block.end, typ) == Some(s)
  {
    block := ExtensionBlock(data).value;
  }

  lemma Assemble(data: seq<byte>, typ: nat, h: Hello, pre: seq<Extension>, body: seq<byte>, a: nat, e: nat, b: nat)
    requires a <= e <= b <= |data| && b - a < 0x1_0000 && ValidFields(h) && data[..a] == PrintHead(h, b - a)
    requires ValidExtensions(pre + [Extension(typ, body)]) && NoneOf(pre, typ)
    requires data[a..e] == PrintExtensions(pre + [Extension(typ, body)])
    ensures Carries(data, typ, h, pre, body, data[e..b], data[b..])
  {
    SliceSplit(data, a, e, b);
    WholeIs(data, a, b);
  }

  lemma WholeIs(data: seq<byte>, a: nat, b: nat)
    requires a <= b <= |data|
    ensures data == data[..a] + data[a..b] + data[b..]
  {}

  // ---------- Counted lists ----------

  lemma CountedIs(data: seq<byte>, start: nat, end: nat, listEnd: nat)
    requires start + 2 <= listEnd <= end <= |data| && U16(data[start], data[start + 1]) == listEnd - start - 2
    ensures listEnd - start - 2 < 0x1_0000
    ensures data[start..end] == Counted(data[start + 2..listEnd], data[listEnd..end])
  {
    Be16Of(data[start], data[start + 1]);
    Two(data, start);
    SliceSplit(data, start, start + 2, end);
    SliceSplit(data, start + 2, listEnd, end);
  }

  // ---------- The host ----------

  lemma PrintNameCons(x: Name, names: seq<Name>)
    requires |x.bytes| < 0x1_0000 && ValidNames(names)
    ensures ValidNames([x] + names)
    ensures PrintNames([x] + names) == [x.kind] + Be16(|x.bytes|) + x.bytes + PrintNames(names)
  {
    assert ([x] + names)[1..] == names;
  }

  lemma NameBytes(data: seq<byte>, i: nat, nameEnd: nat)
    requires i + 3 <= nameEnd <= |data| && nameEnd == i + 3 + U16(data[i + 1], data[i + 2])
    ensures nameEnd - i - 3 < 0x1_0000
    ensures data[i..nameEnd] == [data[i]] + Be16(nameEnd - i - 3) + data[i + 3..nameEnd]
  {
    Be16Of(data[i + 1], data[i + 2]);
    One(data, i);
    Two(data, i + 1);
    SliceSplit(data, i, i + 1, nameEnd);
    SliceSplit(data, i + 1, i + 3, nameEnd);
  }

  lemma {:induction false} HostListIsPrinted(data: seq<byte>, i: nat, end: nat, s: Span) returns (pre: seq<Name>)
    requires end <= |data| && HostInList(data, i, end) == Some(s)
    ensures i <= s.start <= s.end <= end && ValidNames(pre + [Name(0, data[s.start..s.end])]) && NoHost(pre)
    ensures data[i..s.end] == PrintNames(pre + [Name(0, data[s.start..s.end])])
    decreases end - i
  {
    var nameEnd := i + 3 + U16(data[i + 1], data[i + 2]);
    var x := Name(data[i], data[i + 3..nameEnd]);
    NameBytes(data, i, nameEnd);
    if x.kind == 0 {
      pre := [];
      assert [] + [x] == [x] + [];
      PrintNameCons(x, []);
    } else {
      var rest := HostListIsPrinted(data, nameEnd, end, s);
      pre := [x] + rest;
      AddName(data, i, nameEnd, s.end, x, rest, Name(0, data[s.start..s.end]));
    }
  }

  lemma AddName(data: seq<byte>, i: nat, nameEnd: nat, end: nat, x: Name, rest: seq<Name>, host: Name)
    requires i <= nameEnd <= end <= |data| && |x.bytes| < 0x1_0000
    requires data[i..nameEnd] == [x.kind] + Be16(|x.bytes|) + x.bytes
    requires ValidNames(rest + [host]) && data[nameEnd..end] == PrintNames(rest + [host])
    ensures ValidNames([x] + rest + [host]) && data[i..end] == PrintNames([x] + rest + [host])
  {
    assert [x] + rest + [host] == [x] + (rest + [host]);
    PrintNameCons(x, rest + [host]);
    SliceSplit(data, i, nameEnd, end);
  }

  /** The body of a server name extension: a counted list whose first host entry is this one. */
  ghost predicate NamesHost(body: seq<byte>, host: seq<byte>, pre: seq<Name>, junk: seq<byte>, ignored: seq<byte>) {
    && ValidNames(pre + [Name(0, host)]) && NoHost(pre)
    && var list := PrintNames(pre + [Name(0, host)]) + junk;
    |list| < 0x1_0000 && body == Counted(list, ignored)
  }

  /** A host is found only where a hello carries it. */
  lemma HostIsCarried(data: seq<byte>, s: Span)
    returns (h: Hello, exts: seq<Extension>, body: seq<byte>, junk: seq<byte>, trailing: seq<byte>,
             names: seq<Name>, more: seq<byte>, ignored: seq<byte>)
    requires HostRange(data) == Some(s)
    ensures Carries(data, SERVER_NAME, h, exts, body, junk, trailing)
    ensures s.start <= s.end <= |data| && NamesHost(body, data[s.start..s.end], names, more, ignored)
  {
    var at := ExtensionOf(data, SERVER_NAME).value;
    h, exts, junk, trailing := FoundIsCarried(data, SERVER_NAME, at);
    body := data[at.start..at.end];
    names, more, ignored := BodyNamesHost(data, at, s);
  }

  lemma BodyNamesHost(data: seq<byte>, at: Span, s: Span) returns (names: seq<Name>, more: seq<byte>, ignored: seq<byte>)
    requires at.start <= at.end <= |data| && HostInExtension(data, at.start, at.end) == Some(s)
    ensures s.start <= s.end <= |data| && NamesHost(data[at.start..at.end], data[s.start..s.end], names, more, ignored)
  {
    var listEnd := at.start + 2 + U16(data[at.start], data[at.start + 1]);
    names := HostListIsPrinted(data, at.start + 2, listEnd, s);
    more, ignored := data[s.end..listEnd], data[listEnd..at.end];
    CountedIs(data, at.start, at.end, listEnd);
    SliceSplit(data, at.start + 2, s.end, listEnd);
  }

  /** And is found wherever one does. */
  lemma CarriedHostIsFound(data: seq<byte>, h: Hello, exts: seq<Extension>, body: seq<byte>, junk: seq<byte>,
                           trailing: seq<byte>, host: seq<byte>, names: seq<Name>, more: seq<byte>, ignored: seq<byte>)
    returns (s: Span)
    requires Carries(data, SERVER_NAME, h, exts, body, junk, trailing) && NamesHost(body, host, names, more, ignored)
    ensures HostRange(data) == Some(s) && s.start <= s.end <= |data| && data[s.start..s.end] == host
  {
    var at := CarriedIsFound(data, SERVER_NAME, h, exts, body, junk, trailing);
    s := NamedHostIsFound(data, at, host, names, more, ignored);
  }

  lemma NamedHostIsFound(data: seq<byte>, at: Span, host: seq<byte>, names: seq<Name>, more: seq<byte>, ignored: seq<byte>)
    returns (s: Span)
    requires at.start <= at.end <= |data| && NamesHost(data[at.start..at.end], host, names, more, ignored)
    ensures HostInExtension(data, at.start, at.end) == Some(s) && s.start <= s.end <= |data| && data[s.start..s.end] == host
  {
    var printed := PrintNames(names + [Name(0, host)]);
    var list := printed + more;
    CountedAt(data, at.start, at.end, list, ignored);
    var from := at.start + 2;
    FrontOfSlice(data, from, from + |list|, printed, more);
    HostsIn(data, at, from + |list|);
    s := HostLast(data, from, from + |printed|, from + |list|, names, host);
  }

  lemma FrontOfSlice(data: seq<byte>, i: nat, end: nat, a: seq<byte>, b: seq<byte>)
    requires i <= end <= |data| && data[i..end] == a + b
    ensures i + |a| <= end && data[i..i + |a|] == a
  {
    SliceOfSlice(data, i, end, 0, |a|);
    assert (a + b)[0..|a|] == a;
  }

  lemma HostsIn(data: seq<byte>, at: Span, listEnd: nat)
    requires at.start + 2 <= listEnd <= at.end <= |data|
    requires U16(data[at.start], data[at.start + 1]) == listEnd - at.start - 2
    ensures HostInExtension(data, at.start, at.end) == HostInList(data, at.start + 2, listEnd)
  {}

  lemma HostLast(data: seq<byte>, i: nat, mid: nat, end: nat, names: seq<Name>, host: seq<byte>) returns (s: Span)
    requires ValidNames(names + [Name(0, host)]) && NoHost(names) && i <= mid <= end <= |data|
    requires data[i..mid] == PrintNames(names + [Name(0, host)])
    ensures HostInList(data, i, end) == Some(s) && s.start <= s.end <= mid && data[s.start..s.end] == host
  {
    assert names + [Name(0, host)] + [] == names + [Name(0, host)];
    s := HostPrinted(data, i, mid, end, names, host, []);
  }

  // ---------- The protocol offer ----------

  lemma {:induction false} ProtocolsArePrinted(data: seq<byte>, i: nat, end: nat, names: seq<seq<byte>>)
    requires i <= end <= |data| && ProtocolsFrom(data, i, end) == Some(names)
    ensures ValidProtocols(names) && data[i..end] == PrintProtocols(names)
    decreases end - i
  {
    if i < end {
      var nameEnd := i + 1 + U8(data[i]);
      ProtocolsArePrinted(data, nameEnd, end, names[1..]);
      assert names[0] == data[i + 1..nameEnd];
      One(data, i);
      SliceSplit(data, i, i + 1, nameEnd);
      SliceSplit(data, i, nameEnd, end);
      ValidProtocolCons(names);
    }
  }

  lemma ValidProtocolCons(names: seq<seq<byte>>)
    requires names != [] && |names[0]| < 0x100 && ValidProtocols(names[1..])
    ensures ValidProtocols(names)
  {
    assert forall k {:trigger names[k]} :: 0 < k < |names| ==> names[k] == names[1..][k - 1];
  }

  /** An offer is read only where a hello carries it, printed name by name. */
  lemma OfferIsCarried(data: seq<byte>, names: seq<seq<byte>>)
    returns (h: Hello, exts: seq<Extension>, body: seq<byte>, junk: seq<byte>, trailing: seq<byte>, ignored: seq<byte>)
    requires OfferedProtocols(data) == Some(names)
    ensures names != [] && ValidProtocols(names) && |PrintProtocols(names)| < 0x1_0000
    ensures body == PrintOffer(names, ignored) && Carries(data, ALPN, h, exts, body, junk, trailing)
  {
    var at := ExtensionOf(data, ALPN).value;
    h, exts, junk, trailing := FoundIsCarried(data, ALPN, at);
    body := data[at.start..at.end];
    ignored := BodyOffers(data, at, names);
  }

  lemma BodyOffers(data: seq<byte>, at: Span, names: seq<seq<byte>>) returns (ignored: seq<byte>)
    requires at.start <= at.end <= |data| && ProtocolList(data, at.start, at.end) == Some(names)
    ensures names != [] && ValidProtocols(names) && |PrintProtocols(names)| < 0x1_0000
    ensures data[at.start..at.end] == PrintOffer(names, ignored)
  {
    var listEnd := at.start + 2 + U16(data[at.start], data[at.start + 1]);
    ProtocolsArePrinted(data, at.start + 2, listEnd, names);
    ignored := data[listEnd..at.end];
    CountedIs(data, at.start, at.end, listEnd);
  }

  /** And is read wherever one does. */
  lemma CarriedOfferIsRead(data: seq<byte>, names: seq<seq<byte>>, h: Hello, exts: seq<Extension>, junk: seq<byte>,
                           trailing: seq<byte>, ignored: seq<byte>)
    requires names != [] && ValidProtocols(names) && |PrintProtocols(names)| < 0x1_0000
    requires Carries(data, ALPN, h, exts, PrintOffer(names, ignored), junk, trailing)
    ensures OfferedProtocols(data) == Some(names)
  {
    var at := CarriedIsFound(data, ALPN, h, exts, PrintOffer(names, ignored), junk, trailing);
    OfferPrinted(data, at.start, at.end, names, ignored);
  }
}
