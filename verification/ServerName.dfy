/**
 Locating the host name inside a ClientHello (section 3 of RFC 6066).
 */
module ServerName {
  import opened Prelude
  import opened ClientHello

  const SERVER_NAME: nat := 0x0000

  /** Walk the entries of the server name list for the first of type host_name. */
  function HostInList(data: seq<byte>, i: nat, listEnd: nat): (r: Option<Span>)
    requires listEnd <= |data|
    ensures r.Some? ==> i < r.value.start <= r.value.end <= listEnd
    decreases listEnd - i
  {
    if i + 3 > listEnd then None
    else
      var name := i + 3;
      var nameEnd := name + U16(data[i + 1], data[i + 2]);
      if nameEnd > listEnd then None
      else if data[i] == 0 then Some(Span(name, nameEnd))
      else HostInList(data, nameEnd, listEnd)
  }

  /** The list header is read from the record, so it may lie past a truncated body. */
  function HostInExtension(data: seq<byte>, start: nat, end: nat): (r: Option<Span>)
    requires start <= end <= |data|
    ensures r.Some? ==> start < r.value.start <= r.value.end <= end
  {
    if start + 2 > |data| then None
    else
      var list := start + 2;
      var listEnd := list + U16(data[start], data[start + 1]);
      if listEnd > end then None else HostInList(data, list, listEnd)
  }

  function HostRange(data: seq<byte>): (r: Option<Span>)
    ensures r.Some? ==> 0 < r.value.start <= r.value.end <= |data|
  {
    match ExtensionOf(data, SERVER_NAME)
    case None => None
    case Some(body) => HostInExtension(data, body.start, body.end)
  }

  /** `tls_sni_host_range` on any bytes. */
  method FindHost(data: seq<byte>) returns (r: Option<Span>)
    ensures r == HostRange(data)
  {
    var body := SeekExtension(data, SERVER_NAME);
    if body.None? {
      return None;
    }
    var i, end := body.value.start, body.value.end;
    if i + 2 > |data| {
      return None;
    }
    var listLen := U16(data[i], data[i + 1]);
    i := i + 2;
    var listEnd := i + listLen;
    if listEnd > end {
      return None;
    }
    while i + 3 <= listEnd
      invariant HostRange(data) == HostInList(data, i, listEnd)
      decreases listEnd - i
    {
      var nameType := data[i];
      i := i + 1;
      var nameLen := U16(data[i], data[i + 1]);
      i := i + 2;
      var nameEnd := i + nameLen;
      if nameEnd > listEnd {
        return None;
      }
      if nameType == 0 {
        return Some(Span(i, nameEnd));
      }
      i := nameEnd;
    }
    return None;
  }

  // ---------- The printer ----------

  datatype Name = Name(kind: byte, bytes: seq<byte>)

  ghost predicate ValidNames(names: seq<Name>) {
    forall k {:trigger names[k]} :: 0 <= k < |names| ==> |names[k].bytes| < 0x1_0000
  }

  ghost function PrintNames(names: seq<Name>): seq<byte>
    requires ValidNames(names)
  {
    if names == [] then []
    else [names[0].kind] + Be16(|names[0].bytes|) + names[0].bytes + PrintNames(names[1..])
  }

  /** An extension body: the list, then bytes the walk ignores. */
  ghost function PrintServerNames(names: seq<Name>, ignored: seq<byte>): seq<byte>
    requires ValidNames(names) && |PrintNames(names)| < 0x1_0000
  {
    Counted(PrintNames(names), ignored)
  }

  ghost predicate NoHost(names: seq<Name>) {
    forall k {:trigger names[k]} :: 0 <= k < |names| ==> names[k].kind != 0
  }

  lemma PrintedName(names: seq<Name>)
    requires ValidNames(names) && names != []
    ensures var printed, n := PrintNames(names), 3 + |names[0].bytes|;
            && n <= |printed|
            && printed[0] == names[0].kind && U16(printed[1], printed[2]) == |names[0].bytes|
            && printed[3..n] == names[0].bytes && printed[n..] == PrintNames(names[1..])
  {
    var x, printed, len := names[0], PrintNames(names), Be16(|names[0].bytes|);
    assert printed == [x.kind] + len + x.bytes + PrintNames(names[1..]);
    assert printed[1] == len[0] && printed[2] == len[1];
  }

  lemma HeadName(data: seq<byte>, i: nat, end: nat, names: seq<Name>)
    requires ValidNames(names) && names != [] && i <= end <= |data|
    requires data[i..end] == PrintNames(names)
    ensures var nameEnd := i + 3 + |names[0].bytes|;
            && nameEnd <= end
            && data[i] == names[0].kind && U16(data[i + 1], data[i + 2]) == |names[0].bytes|
            && data[i + 3..nameEnd] == names[0].bytes
            && data[nameEnd..end] == PrintNames(names[1..])
  {
    var n, view := 3 + |names[0].bytes|, data[i..end];
    PrintedName(names);
    assert view[0] == data[i] && view[1] == data[i + 1] && view[2] == data[i + 2];
    SliceOfSlice(data, i, end, 3, n);
    SliceOfSlice(data, i, end, n, end - i);
    assert view[n..] == view[n..end - i];
  }

  /** These names are printed from i up to mid. */
  ghost predicate NamesAt(data: seq<byte>, i: nat, mid: nat, names: seq<Name>) {
    ValidNames(names) && i <= mid <= |data| && data[i..mid] == PrintNames(names)
  }

  lemma {:induction false} HostPrinted(data: seq<byte>, i: nat, mid: nat, end: nat, pre: seq<Name>, host: seq<byte>,
                                       post: seq<Name>)
    returns (s: Span)
    requires NoHost(pre) && mid <= end <= |data| && NamesAt(data, i, mid, pre + [Name(0, host)] + post)
    ensures HostInList(data, i, end) == Some(s) && s.start <= s.end <= mid && data[s.start..s.end] == host
    decreases |pre|
  {
    if pre == [] {
      assert pre + [Name(0, host)] + post == [Name(0, host)] + post;
      s := TakeName(data, i, mid, end, host, post);
    } else {
      var nameEnd := SkipName(data, i, mid, pre, host, post);
      HostStep(data, i, end, pre[0].kind, |pre[0].bytes|);
      s := HostPrinted(data, nameEnd, mid, end, pre[1..], host, post);
    }
  }

  lemma TakeName(data: seq<byte>, i: nat, mid: nat, end: nat, host: seq<byte>, post: seq<Name>) returns (s: Span)
    requires mid <= end <= |data| && NamesAt(data, i, mid, [Name(0, host)] + post)
    ensures HostInList(data, i, end) == Some(s) && s.start <= s.end <= mid && data[s.start..s.end] == host
  {
    HeadName(data, i, mid, [Name(0, host)] + post);
    HostStep(data, i, end, 0, |host|);
    s := Span(i + 3, i + 3 + |host|);
  }

  lemma SkipName(data: seq<byte>, i: nat, mid: nat, pre: seq<Name>, host: seq<byte>, post: seq<Name>) returns (nameEnd: nat)
    requires NoHost(pre) && pre != [] && NamesAt(data, i, mid, pre + [Name(0, host)] + post)
    ensures nameEnd == i + 3 + |pre[0].bytes| <= mid && pre[0].kind != 0
    ensures data[i] == pre[0].kind && U16(data[i + 1], data[i + 2]) == |pre[0].bytes|
    ensures NoHost(pre[1..]) && NamesAt(data, nameEnd, mid, pre[1..] + [Name(0, host)] + post)
  {
    nameEnd := i + 3 + |pre[0].bytes|;
    NamesTail(pre, host, post);
    HeadName(data, i, mid, pre + [Name(0, host)] + post);
  }

  lemma NamesTail(pre: seq<Name>, host: seq<byte>, post: seq<Name>)
    requires ValidNames(pre + [Name(0, host)] + post) && NoHost(pre) && pre != []
    ensures var names := pre + [Name(0, host)] + post;
            names[0] == pre[0] && names[0].kind != 0 && names[1..] == pre[1..] + [Name(0, host)] + post
    ensures ValidNames(pre[1..] + [Name(0, host)] + post) && NoHost(pre[1..])
  {
    var names := pre + [Name(0, host)] + post;
    assert names[1..] == pre[1..] + [Name(0, host)] + post;
  }

  /** One step of the walk over a name. */
  lemma HostStep(data: seq<byte>, i: nat, end: nat, kind: byte, len: nat)
    requires i + 3 + len <= end <= |data| && data[i] == kind && U16(data[i + 1], data[i + 2]) == len
    ensures HostInList(data, i, end)
         == if kind == 0 then Some(Span(i + 3, i + 3 + len)) else HostInList(data, i + 3 + len, end)
  {}

  lemma HostInBody(data: seq<byte>, start: nat, end: nat,
                   before: seq<Name>, host: seq<byte>, after: seq<Name>, ignored: seq<byte>)
    returns (s: Span)
    requires NoHost(before) && ValidNames(before + [Name(0, host)] + after)
    requires |PrintNames(before + [Name(0, host)] + after)| < 0x1_0000 && start <= end <= |data|
    requires data[start..end] == PrintServerNames(before + [Name(0, host)] + after, ignored)
    ensures HostInExtension(data, start, end) == Some(s) && s.start <= s.end <= end && data[s.start..s.end] == host
  {
    var list := PrintNames(before + [Name(0, host)] + after);
    CountedAt(data, start, end, list, ignored);
    s := HostPrinted(data, start + 2, start + 2 + |list|, start + 2 + |list|, before, host, after);
  }

  /**
   The search undoes the printer: for any session id, ciphers, compression, other
   extensions in front, name entries of other types in front and bytes behind,
   the range found holds exactly the host.
   */
  lemma HostRoundTrip(h: Hello, pre: seq<Extension>, post: seq<Extension>,
                      before: seq<Name>, host: seq<byte>, after: seq<Name>, ignored: seq<byte>, trailing: seq<byte>)
    returns (s: Span)
    requires ValidHello(h) && NoneOf(pre, SERVER_NAME) && NoHost(before)
    requires ValidNames(before + [Name(0, host)] + after) && |PrintNames(before + [Name(0, host)] + after)| < 0x1_0000
    requires h.extensions
          == pre + [Extension(SERVER_NAME, PrintServerNames(before + [Name(0, host)] + after, ignored))] + post
    ensures HostRange(PrintHello(h) + trailing) == Some(s)
    ensures s.start <= s.end <= |PrintHello(h)| && (PrintHello(h) + trailing)[s.start..s.end] == host
  {
    var names, data := before + [Name(0, host)] + after, PrintHello(h) + trailing;
    var body := LookupPrinted(h, pre, Extension(SERVER_NAME, PrintServerNames(names, ignored)), post, trailing);
    s := HostInBody(data, body.start, body.end, before, host, after, ignored);
  }

  /** A hello without the extension has no host, and neither has any hello cut before its end. */
  lemma NoHostFound(h: Hello, trailing: seq<byte>, k: nat)
    requires ValidHello(h)
    ensures NoneOf(h.extensions, SERVER_NAME) ==> HostRange(PrintHello(h) + trailing) == None
    ensures k < |PrintHello(h)| ==> HostRange(PrintHello(h)[..k]) == None
  {
    if NoneOf(h.extensions, SERVER_NAME) {
      LookupAbsent(h, SERVER_NAME, trailing);
    }
    if k < |PrintHello(h)| {
      PrefixHasNoBlock(h, PrintExtensions(h.extensions), k);
    }
  }
}
