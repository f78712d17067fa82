/**
 The ALPN offer of a ClientHello (section 3.1 of RFC 7301) and what of it is
 offered upstream, so that both spliced legs agree on a protocol.
 */
module Alpn {
  import opened Prelude
  import opened ClientHello

  const ALPN: nat := 0x0010

  function ProtocolsFrom(data: seq<byte>, i: nat, listEnd: nat): Option<seq<seq<byte>>>
    requires listEnd <= |data|
    decreases listEnd - i
  {
    if i >= listEnd then Some([])
    else
      var name := i + 1;
      var nameEnd := name + U8(data[i]);
      if nameEnd > listEnd then None
      else
        match ProtocolsFrom(data, nameEnd, listEnd)
        case None => None
        case Some(rest) => Some([data[name..nameEnd]] + rest)
  }

  function ProtocolList(data: seq<byte>, start: nat, end: nat): Option<seq<seq<byte>>>
    requires start <= end <= |data|
  {
    if start + 2 > |data| then None
    else
      var list := start + 2;
      var listEnd := list + U16(data[start], data[start + 1]);
      if listEnd > end then None
      else
        var names := ProtocolsFrom(data, list, listEnd);
        if names == Some([]) then None else names
  }

  function OfferedProtocols(data: seq<byte>): Option<seq<seq<byte>>> {
    match ExtensionOf(data, ALPN)
    case None => None
    case Some(body) => ProtocolList(data, body.start, body.end)
  }

  function Prepend(names: seq<seq<byte>>, rest: Option<seq<seq<byte>>>): Option<seq<seq<byte>>> {
    match rest
    case None => None
    case Some(more) => Some(names + more)
  }

  /** `client_hello_alpn` on any bytes. */
  method ReadOffer(data: seq<byte>) returns (r: Option<seq<seq<byte>>>)
    ensures r == OfferedProtocols(data)
  {
    var body := SeekExtension(data, ALPN);
    if body.None? {
      return None;
    }
    var start, end := body.value.start, body.value.end;
    if start + 2 > |data| {
      return None;
    }
    var listLen := U16(data[start], data[start + 1]);
    var i := start + 2;
    var listEnd := i + listLen;
    if listEnd > end {
      return None;
    }
    var out := ReadProtocols(data, i, listEnd);
    if out.None? || out.value == [] {
      return None;
    }
    return out;
  }

  method ReadProtocols(data: seq<byte>, from: nat, listEnd: nat) returns (r: Option<seq<seq<byte>>>)
    requires listEnd <= |data|
    ensures r == ProtocolsFrom(data, from, listEnd)
  {
    var i, out := from, [];
    PrependNothing(ProtocolsFrom(data, from, listEnd));
    while i < listEnd
      invariant ProtocolsFrom(data, from, listEnd) == Prepend(out, ProtocolsFrom(data, i, listEnd))
      decreases listEnd - i
    {
      var nameEnd := i + 1 + U8(data[i]);
      if nameEnd > listEnd {
        return None;
      }
      PrependOne(out, data[i + 1..nameEnd], ProtocolsFrom(data, nameEnd, listEnd));
      out := out + [data[i + 1..nameEnd]];
      i := nameEnd;
    }
    assert out + [] == out;
    return Some(out);
  }

  lemma PrependNothing(rest: Option<seq<seq<byte>>>)
    ensures Prepend([], rest) == rest
  {
    if rest.Some? {
      assert [] + rest.value == rest.value;
    }
  }

  lemma PrependOne(names: seq<seq<byte>>, name: seq<byte>, rest: Option<seq<seq<byte>>>)
    ensures Prepend(names, Prepend([name], rest)) == Prepend(names + [name], rest)
  {
    if rest.Some? {
      assert names + ([name] + rest.value) == names + [name] + rest.value;
    }
  }

  // ---------- The printer ----------

  ghost predicate ValidProtocols(names: seq<seq<byte>>) {
    forall k {:trigger names[k]} :: 0 <= k < |names| ==> |names[k]| < 0x100
  }

  ghost function PrintProtocols(names: seq<seq<byte>>): seq<byte>
    requires ValidProtocols(names)
  {
    if names == [] then [] else [|names[0]|] + names[0] + PrintProtocols(names[1..])
  }

  ghost function PrintOffer(names: seq<seq<byte>>, ignored: seq<byte>): seq<byte>
    requires ValidProtocols(names) && |PrintProtocols(names)| < 0x1_0000
  {
    Counted(PrintProtocols(names), ignored)
  }

  lemma {:induction false} ProtocolsPrinted(data: seq<byte>, i: nat, end: nat, names: seq<seq<byte>>)
    requires ValidProtocols(names) && i <= end <= |data| && data[i..end] == PrintProtocols(names)
    ensures ProtocolsFrom(data, i, end) == Some(names)
    decreases |names|
  {
    if names == [] {
      assert |data[i..end]| == 0;
    } else {
      var printed, n := PrintProtocols(names), 1 + |names[0]|;
      assert printed[0] == |names[0]| && printed[1..n] == names[0] && printed[n..] == PrintProtocols(names[1..]);
      assert data[i..end][0] == data[i];
      SliceOfSlice(data, i, end, 1, n);
      SliceOfSlice(data, i, end, n, end - i);
      ProtocolsPrinted(data, i + n, end, names[1..]);
      assert [names[0]] + names[1..] == names;
    }
  }

  lemma {:induction false} OfferPrinted(data: seq<byte>, start: nat, end: nat, names: seq<seq<byte>>, ignored: seq<byte>)
    requires ValidProtocols(names) && |PrintProtocols(names)| < 0x1_0000 && start <= end <= |data|
    requires data[start..end] == PrintOffer(names, ignored)
    ensures ProtocolList(data, start, end) == if names == [] then None else Some(names)
  {
    var list := PrintProtocols(names);
    CountedAt(data, start, end, list, ignored);
    ProtocolsPrinted(data, start + 2, start + 2 + |list|, names);
    ListRead(data, start, end, |list|, names);
  }

  lemma ListRead(data: seq<byte>, start: nat, end: nat, len: nat, names: seq<seq<byte>>)
    requires start + 2 + len <= end <= |data| && U16(data[start], data[start + 1]) == len
    requires ProtocolsFrom(data, start + 2, start + 2 + len) == Some(names)
    ensures ProtocolList(data, start, end) == if names == [] then None else Some(names)
  {}

  /** The peek undoes the printer: a non-empty offer behind any other extensions is returned name by name. */
  lemma OfferRoundTrip(h: Hello, pre: seq<Extension>, post: seq<Extension>,
                       names: seq<seq<byte>>, ignored: seq<byte>, trailing: seq<byte>)
    requires ValidHello(h) && NoneOf(pre, ALPN)
    requires ValidProtocols(names) && |PrintProtocols(names)| < 0x1_0000
    requires h.extensions == pre + [Extension(ALPN, PrintOffer(names, ignored))] + post
    ensures OfferedProtocols(PrintHello(h) + trailing) == if names == [] then None else Some(names)
  {
    var body := LookupPrinted(h, pre, Extension(ALPN, PrintOffer(names, ignored)), post, trailing);
    OfferPrinted(PrintHello(h) + trailing, body.start, body.end, names, ignored);
  }

  /** No extension, no offer; and a hello cut before its end yields none either. */
  lemma NoOfferFound(h: Hello, trailing: seq<byte>, k: nat)
    requires ValidHello(h)
    ensures NoneOf(h.extensions, ALPN) ==> OfferedProtocols(PrintHello(h) + trailing) == None
    ensures k < |PrintHello(h)| ==> OfferedProtocols(PrintHello(h)[..k]) == None
  {
    if NoneOf(h.extensions, ALPN) {
      LookupAbsent(h, ALPN, trailing);
    }
    if k < |PrintHello(h)| {
      PrefixHasNoBlock(h, PrintExtensions(h.extensions), k);
    }
  }

  // ---------- The upstream offer ----------

  const H2: seq<byte> := [0x68, 0x32]
  const HTTP11: seq<byte> := [0x68, 0x74, 0x74, 0x70, 0x2f, 0x31, 0x2e, 0x31]

  predicate Spliced(name: seq<byte>) { name == H2 || name == HTTP11 }

  ghost predicate NoRepeats(names: seq<seq<byte>>) {
    forall i, j :: 0 <= i < j < |names| ==> names[i] != names[j]
  }

  /** The index of a name's first mention. */
  ghost predicate FirstMention(name: seq<byte>, at: nat, list: seq<seq<byte>>) {
    at < |list| && list[at] == name && name !in list[..at]
  }

  /** `out` lists, in order of first mention in `list`, the names of `list` that can be spliced. */
  ghost predicate SplicedInOrder(out: seq<seq<byte>>, list: seq<seq<byte>>) {
    && NoRepeats(out)
    && (forall name :: name in out <==> name in list && Spliced(name))
    && (forall i, j, p, q {:trigger FirstMention(out[i], p, list), FirstMention(out[j], q, list)} ::
          0 <= i < j < |out| && FirstMention(out[i], p, list) && FirstMention(out[j], q, list) ==> p < q)
  }

  lemma SplicedStep(out: seq<seq<byte>>, list: seq<seq<byte>>, name: seq<byte>)
    requires SplicedInOrder(out, list)
    ensures Spliced(name) && name !in out ==> SplicedInOrder(out + [name], list + [name])
    ensures !(Spliced(name) && name !in out) ==> SplicedInOrder(out, list + [name])
  {
    var list' := list + [name];
    assert forall n :: n in list' <==> n in list || n == name;
    forall n: seq<byte>, p: nat | FirstMention(n, p, list')
      ensures p < |list| ==> FirstMention(n, p, list)
      ensures n in list ==> p < |list|
    {
      if p < |list| {
        assert list'[..p] == list[..p];
      } else {
        assert list'[..p] == list;
      }
    }
  }

  /** The names that can be spliced, each where it is first mentioned. */
  function SplicedNames(list: seq<seq<byte>>): seq<seq<byte>> {
    if list == [] then []
    else
      var front, name := SplicedNames(list[..|list| - 1]), list[|list| - 1];
      if Spliced(name) && name !in front then front + [name] else front
  }

  lemma {:induction false} SplicedNamesInOrder(list: seq<seq<byte>>)
    ensures SplicedInOrder(SplicedNames(list), list)
  {
    if list != [] {
      var n := |list| - 1;
      SplicedNamesInOrder(list[..n]);
      SplicedStep(SplicedNames(list[..n]), list[..n], list[n]);
      assert list == list[..n] + [list[n]];
    }
  }

  function UpstreamOffer(offer: Option<seq<seq<byte>>>): seq<seq<byte>> {
    var names := if offer.Some? then SplicedNames(offer.value) else [];
    if names == [] then [HTTP11] else names
  }

  /** What an offer upstream must be, given the browser's list. */
  ghost predicate OffersFrom(out: seq<seq<byte>>, list: seq<seq<byte>>) {
    if exists name :: name in list && Spliced(name) then SplicedInOrder(out, list) else out == [HTTP11]
  }

  /** Only protocols the browser offered, or http/1.1 if none of them can be spliced. */
  lemma UpstreamOfferIs(offer: Option<seq<seq<byte>>>)
    ensures OffersFrom(UpstreamOffer(offer), if offer.Some? then offer.value else [])
    ensures UpstreamOffer(offer) != [] && forall name :: name in UpstreamOffer(offer) ==> Spliced(name)
  {
    if offer.Some? {
      var names := SplicedNames(offer.value);
      SplicedNamesInOrder(offer.value);
      if names != [] {
        assert names[0] in names;
      }
    }
  }

  /** `choose_upstream_alpn`. */
  method ChooseUpstream(offer: Option<seq<seq<byte>>>) returns (out: seq<seq<byte>>)
    ensures out == UpstreamOffer(offer)
    ensures OffersFrom(out, if offer.Some? then offer.value else [])
    ensures out != [] && forall name :: name in out ==> Spliced(name)
  {
    UpstreamOfferIs(offer);
    out := [];
    if offer.Some? {
      var list, k := offer.value, 0;
      while k < |list|
        invariant 0 <= k <= |list| && out == SplicedNames(list[..k])
      {
        assert list[..k + 1][..k] == list[..k];
        if Spliced(list[k]) && list[k] !in out {
          out := out + [list[k]];
        }
        k := k + 1;
      }
      assert list[..k] == list;
    }
    if out == [] {
      out := [HTTP11];
    }
  }

  // ---------- From hello to upstream offer ----------

  /**
   What goes upstream for a printed hello with an offer: of its protocols those that
   can be spliced, in the browser's order without repeats, or http/1.1 alone when
   there are none.
   */
  lemma UpstreamForHello(h: Hello, pre: seq<Extension>, post: seq<Extension>,
                         names: seq<seq<byte>>, ignored: seq<byte>, trailing: seq<byte>)
    requires ValidHello(h) && NoneOf(pre, ALPN)
    requires ValidProtocols(names) && |PrintProtocols(names)| < 0x1_0000
    requires h.extensions == pre + [Extension(ALPN, PrintOffer(names, ignored))] + post
    ensures OffersFrom(UpstreamOffer(OfferedProtocols(PrintHello(h) + trailing)), names)
  {
    OfferRoundTrip(h, pre, post, names, ignored, trailing);
    UpstreamOfferIs(OfferedProtocols(PrintHello(h) + trailing));
  }

  /** A hello without an offer, or one cut short, gets http/1.1 alone. */
  lemma UpstreamWithoutOffer(h: Hello, trailing: seq<byte>, k: nat)
    requires ValidHello(h)
    ensures NoneOf(h.extensions, ALPN) ==> UpstreamOffer(OfferedProtocols(PrintHello(h) + trailing)) == [HTTP11]
    ensures k < |PrintHello(h)| ==> UpstreamOffer(OfferedProtocols(PrintHello(h)[..k])) == [HTTP11]
  {
    NoOfferFound(h, trailing, k);
  }
}
