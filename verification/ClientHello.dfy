/**
 The bounds-checked walk over a TLS ClientHello that both the SNI splitter and the
 ALPN peek perform, and the printer it undoes (section 4.1.2 of RFC 8446).
 */
module ClientHello {
  import opened Prelude

  function U16(hi: byte, lo: byte): nat { hi * 256 + lo }

  function U8(b: byte): nat { b }

  function Be16(n: nat): (bs: seq<byte>)
    requires n < 0x1_0000
    ensures |bs| == 2 && U16(bs[0], bs[1]) == n
    ensures (bs[0] as int) * 256 + (bs[1] as int) == n
  {
    [n / 256, n % 256]
  }

  // ---------- The walk ----------

  /** A half-open byte range of the record. */
  datatype Span = Span(start: nat, end: nat)

  /** Skip the fixed fields; return the extent of the extension block. */
  function ExtensionBlock(data: seq<byte>): (r: Option<Span>)
    ensures r.Some? ==> r.value.start <= r.value.end <= |data|
  {
    if |data| == 0 || data[0] != 0x16 then None
    else if |data| <= 5 || data[5] != 0x01 then None
    else if |data| <= 43 then None
    else
      var cipherAt := 44 + U8(data[43]);
      if |data| < cipherAt + 2 then None
      else
        var compAt := cipherAt + 2 + U16(data[cipherAt], data[cipherAt + 1]);
        if |data| <= compAt then None
        else
          var extAt := compAt + 1 + U8(data[compAt]);
          if |data| < extAt + 2 then None
          else
            var start := extAt + 2;
            var end := start + U16(data[extAt], data[extAt + 1]);
            if end > |data| then None else Some(Span(start, end))
  }

  /** The body of the first extension of type typ at or after i. */
  function FindExtension(data: seq<byte>, i: nat, end: nat, typ: nat): (r: Option<Span>)
    requires end <= |data|
    ensures r.Some? ==> i < r.value.start <= r.value.end <= end
    decreases end - i
  {
    if i + 4 > end then None
    else
      var body := i + 4;
      var bodyEnd := body + U16(data[i + 2], data[i + 3]);
      if bodyEnd > end then None
      else if U16(data[i], data[i + 1]) == typ then Some(Span(body, bodyEnd))
      else FindExtension(data, bodyEnd, end, typ)
  }

  function ExtensionOf(data: seq<byte>, typ: nat): (r: Option<Span>)
    ensures r.Some? ==> r.value.start <= r.value.end <= |data|
  {
    match ExtensionBlock(data)
    case None => None
    case Some(block) => FindExtension(data, block.start, block.end, typ)
  }

  /** The walk with its moving index; any bytes are accepted and none is read out of bounds. */
  method SeekExtension(data: seq<byte>, typ: nat) returns (r: Option<Span>)
    ensures r == ExtensionOf(data, typ)
  {
    if |data| == 0 || data[0] != 0x16 {
      return None;
    }
    var i := 5;
    if |data| <= i || data[i] != 0x01 {
      return None;
    }
    i := i + 4;
    i := i + 2 + 32;
    if |data| <= i {
      return None;
    }
    i := i + 1 + U8(data[i]);
    if |data| < i + 2 {
      return None;
    }
    i := i + 2 + U16(data[i], data[i + 1]);
    if |data| <= i {
      return None;
    }
    i := i + 1 + U8(data[i]);
    if |data| < i + 2 {
      return None;
    }
    var extLen := U16(data[i], data[i + 1]);
    i := i + 2;
    var extEnd := i + extLen;
    if extEnd > |data| {
      return None;
    }
    while i + 4 <= extEnd
      invariant ExtensionOf(data, typ) == FindExtension(data, i, extEnd, typ)
      decreases extEnd - i
    {
      var t, l := U16(data[i], data[i + 1]), U16(data[i + 2], data[i + 3]);
      i := i + 4;
      var bodyEnd := i + l;
      if bodyEnd > extEnd {
        return None;
      }
      if t == typ {
        return Some(Span(i, bodyEnd));
      }
      i := bodyEnd;
    }
    return None;
  }

  // ---------- The printer ----------

  datatype Extension = Extension(typ: nat, body: seq<byte>)

  /**
   A ClientHello record. The record and handshake headers beyond their type bytes,
   the version and the random are free: the walk does not look at them.
   */
  datatype Hello = Hello(
    recordHeader: seq<byte>,
    handshakeLength: seq<byte>,
    versionAndRandom: seq<byte>,
    sessionId: seq<byte>,
    cipherSuites: seq<byte>,
    compression: seq<byte>,
    extensions: seq<Extension>)

  ghost predicate ValidExtensions(exts: seq<Extension>) {
    forall k {:trigger exts[k]} :: 0 <= k < |exts| ==> exts[k].typ < 0x1_0000 && |exts[k].body| < 0x1_0000
  }

  ghost function PrintExtensions(exts: seq<Extension>): seq<byte>
    requires ValidExtensions(exts)
  {
    if exts == [] then []
    else Be16(exts[0].typ) + Be16(|exts[0].body|) + exts[0].body + PrintExtensions(exts[1..])
  }

  /** The lengths of the fields in front of the extensions fit. */
  ghost predicate ValidFields(h: Hello) {
    && |h.recordHeader| == 4 && |h.handshakeLength| == 3 && |h.versionAndRandom| == 34
    && |h.sessionId| < 0x100 && |h.cipherSuites| < 0x1_0000 && |h.compression| < 0x100
  }

  ghost predicate ValidHello(h: Hello) {
    && ValidFields(h)
    && ValidExtensions(h.extensions) && |PrintExtensions(h.extensions)| < 0x1_0000
  }

  /** Everything up to and including the length of an extension block. */
  ghost function PrintHead(h: Hello, len: nat): (bs: seq<byte>)
    requires ValidFields(h) && len < 0x1_0000
    ensures |bs| == 43 + 1 + |h.sessionId| + 2 + |h.cipherSuites| + 1 + |h.compression| + 2
  {
    [0x16] + h.recordHeader + [0x01] + h.handshakeLength + h.versionAndRandom
    + [|h.sessionId|] + h.sessionId
    + Be16(|h.cipherSuites|) + h.cipherSuites
    + [|h.compression|] + h.compression
    + Be16(len)
  }

  ghost function PrintHello(h: Hello): seq<byte>
    requires ValidHello(h)
  {
    PrintHead(h, |PrintExtensions(h.extensions)|) + PrintExtensions(h.extensions)
  }

  /** The fields the walk reads, at the places where it reads them. */
  lemma HeadFields(h: Hello, len: nat)
    requires ValidFields(h) && len < 0x1_0000
    ensures var bs := PrintHead(h, len);
            var cipherAt := 44 + |h.sessionId|;
            var compAt := cipherAt + 2 + |h.cipherSuites|;
            var extAt := compAt + 1 + |h.compression|;
            && bs[0] == 0x16 && bs[5] == 0x01 && bs[43] == |h.sessionId|
            && U16(bs[cipherAt], bs[cipherAt + 1]) == |h.cipherSuites|
            && bs[compAt] == |h.compression|
            && U16(bs[extAt], bs[extAt + 1]) == len
            && |bs| == extAt + 2
  {
    var fixed := [0x16] + h.recordHeader + [0x01] + h.handshakeLength + h.versionAndRandom;
    assert |fixed| == 43 && fixed[0] == 0x16 && fixed[5] == 0x01;
    var p1 := fixed + [|h.sessionId|] + h.sessionId;
    assert p1[0] == fixed[0] && p1[5] == fixed[5] && p1[43] == |h.sessionId|;
    var p2 := p1 + Be16(|h.cipherSuites|) + h.cipherSuites;
    var n1 := |p1|;
    assert p2[0] == p1[0] && p2[5] == p1[5] && p2[43] == p1[43];
    assert p2[n1] == Be16(|h.cipherSuites|)[0] && p2[n1 + 1] == Be16(|h.cipherSuites|)[1];
    var p3 := p2 + [|h.compression|] + h.compression;
    var n2 := |p2|;
    assert p3[0] == p2[0] && p3[5] == p2[5] && p3[43] == p2[43];
    assert p3[n1] == p2[n1] && p3[n1 + 1] == p2[n1 + 1] && p3[n2] == |h.compression|;
    var tail := Be16(len);
    var n3 := |p3|;
    var bs := p3 + tail;
    assert bs[n3] == tail[0] && bs[n3 + 1] == tail[1];
    assert PrintHead(h, len) == bs;
  }

  /** The walk finds the extension block, whatever it holds and whatever follows it. */
  lemma BlockOfPrinted(h: Hello, block: seq<byte>, trailing: seq<byte>)
    requires ValidFields(h) && |block| < 0x1_0000
    ensures var head := PrintHead(h, |block|);
            ExtensionBlock(head + block + trailing) == Some(Span(|head|, |head| + |block|))
  {
    HeadFields(h, |block|);
    var head := PrintHead(h, |block|);
    var data := head + block + trailing;
    assert forall k {:trigger data[k]} :: 0 <= k < |head| ==> data[k] == head[k];
  }

  /** A hello cut anywhere before the end of its extension block is not taken for a hello. */
  lemma PrefixHasNoBlock(h: Hello, block: seq<byte>, k: nat)
    requires ValidFields(h) && |block| < 0x1_0000 && k < |PrintHead(h, |block|) + block|
    ensures ExtensionBlock((PrintHead(h, |block|) + block)[..k]) == None
  {
    HeadFields(h, |block|);
    var head := PrintHead(h, |block|);
    var data := (head + block)[..k];
    assert forall j {:trigger data[j]} :: 0 <= j < |data| && j < |head| ==> data[j] == head[j];
  }

  // ---------- Looking an extension up ----------

  /** The extension at the cursor, as the walk reads it. */
  lemma HeadExtension(data: seq<byte>, i: nat, end: nat, exts: seq<Extension>)
    requires ValidExtensions(exts) && exts != [] && i <= end <= |data|
    requires data[i..end] == PrintExtensions(exts)
    ensures var bodyEnd := i + 4 + |exts[0].body|;
            && bodyEnd <= end
            && U16(data[i], data[i + 1]) == exts[0].typ && U16(data[i + 2], data[i + 3]) == |exts[0].body|
            && data[i + 4..bodyEnd] == exts[0].body
            && data[bodyEnd..end] == PrintExtensions(exts[1..])
  {
    var n, view := 4 + |exts[0].body|, data[i..end];
    PrintedExtension(exts);
    assert view[0] == data[i] && view[1] == data[i + 1] && view[2] == data[i + 2] && view[3] == data[i + 3];
    SliceOfSlice(data, i, end, 4, n);
    SliceOfSlice(data, i, end, n, end - i);
    assert view[n..] == view[n..end - i];
  }

  lemma PrintedExtension(exts: seq<Extension>)
    requires ValidExtensions(exts) && exts != []
    ensures var printed, n := PrintExtensions(exts), 4 + |exts[0].body|;
            && n <= |printed|
            && U16(printed[0], printed[1]) == exts[0].typ && U16(printed[2], printed[3]) == |exts[0].body|
            && printed[4..n] == exts[0].body && printed[n..] == PrintExtensions(exts[1..])
  {
    var x, printed, typ, len := exts[0], PrintExtensions(exts), Be16(exts[0].typ), Be16(|exts[0].body|);
    assert printed == typ + len + x.body + PrintExtensions(exts[1..]);
    assert printed[0] == typ[0] && printed[1] == typ[1] && printed[2] == len[0] && printed[3] == len[1];
  }

  ghost predicate NoneOf(exts: seq<Extension>, typ: nat) {
    forall k {:trigger exts[k]} :: 0 <= k < |exts| ==> exts[k].typ != typ
  }

  /** The first extension of a type is found past any others and before any bytes, with exactly its body. */
  lemma {:induction false} FindPrinted(data: seq<byte>, i: nat, mid: nat, end: nat, pre: seq<Extension>, x: Extension,
                                       post: seq<Extension>)
    returns (s: Span)
    requires ValidExtensions(pre + [x] + post) && NoneOf(pre, x.typ) && i <= mid <= end <= |data|
    requires data[i..mid] == PrintExtensions(pre + [x] + post)
    ensures FindExtension(data, i, end, x.typ) == Some(s)
    ensures s.start <= s.end <= mid && data[s.start..s.end] == x.body
    decreases |pre|
  {
    var exts := pre + [x] + post;
    HeadExtension(data, i, mid, exts);
    var bodyEnd := i + 4 + |exts[0].body|;
    FindStep(data, i, end, exts[0].typ, |exts[0].body|, x.typ);
    if pre == [] {
      assert exts[0] == x;
      s := Span(i + 4, bodyEnd);
    } else {
      ExtensionsTail(pre, x, post);
      s := FindPrinted(data, bodyEnd, mid, end, pre[1..], x, post);
    }
  }

  lemma ExtensionsTail(pre: seq<Extension>, x: Extension, post: seq<Extension>)
    requires ValidExtensions(pre + [x] + post) && NoneOf(pre, x.typ) && pre != []
    ensures var exts := pre + [x] + post;
            exts[0] == pre[0] && exts[0].typ != x.typ && exts[1..] == pre[1..] + [x] + post
    ensures ValidExtensions(pre[1..] + [x] + post) && NoneOf(pre[1..], x.typ)
  {
    var exts := pre + [x] + post;
    assert exts[1..] == pre[1..] + [x] + post;
  }

  /** One step of the walk over an extension. */
  lemma FindStep(data: seq<byte>, i: nat, end: nat, found: nat, len: nat, typ: nat)
    requires i + 4 + len <= end <= |data|
    requires U16(data[i], data[i + 1]) == found && U16(data[i + 2], data[i + 3]) == len
    ensures FindExtension(data, i, end, typ)
         == if found == typ then Some(Span(i + 4, i + 4 + len)) else FindExtension(data, i + 4 + len, end, typ)
  {}

  lemma SkipExtension(data: seq<byte>, i: nat, end: nat, exts: seq<Extension>, typ: nat) returns (bodyEnd: nat)
    requires ValidExtensions(exts) && NoneOf(exts, typ) && exts != [] && i <= end <= |data|
    requires data[i..end] == PrintExtensions(exts)
    ensures bodyEnd == i + 4 + |exts[0].body| <= end && exts[0].typ != typ
    ensures U16(data[i], data[i + 1]) == exts[0].typ && U16(data[i + 2], data[i + 3]) == |exts[0].body|
    ensures ValidExtensions(exts[1..]) && NoneOf(exts[1..], typ) && data[bodyEnd..end] == PrintExtensions(exts[1..])
  {
    bodyEnd := i + 4 + |exts[0].body|;
    HeadExtension(data, i, end, exts);
  }

  lemma {:induction false} FindNone(data: seq<byte>, i: nat, end: nat, exts: seq<Extension>, typ: nat)
    requires ValidExtensions(exts) && NoneOf(exts, typ) && i <= end <= |data|
    requires data[i..end] == PrintExtensions(exts)
    ensures FindExtension(data, i, end, typ) == None
    decreases |exts|
  {
    if exts != [] {
      var bodyEnd := SkipExtension(data, i, end, exts, typ);
      FindStep(data, i, end, exts[0].typ, |exts[0].body|, typ);
      FindNone(data, bodyEnd, end, exts[1..], typ);
    } else {
      assert |data[i..end]| == 0;
    }
  }

  /** Looking up an extension in a printed hello, past others of other types, returns exactly its body. */
  lemma {:induction false} LookupPrinted(h: Hello, pre: seq<Extension>, x: Extension, post: seq<Extension>, trailing: seq<byte>)
    returns (s: Span)
    requires ValidHello(h) && h.extensions == pre + [x] + post && NoneOf(pre, x.typ)
    ensures ExtensionOf(PrintHello(h) + trailing, x.typ) == Some(s)
    ensures s.start <= s.end <= |PrintHello(h)| && (PrintHello(h) + trailing)[s.start..s.end] == x.body
  {
    var data, block := PrintHello(h) + trailing, PrintExtensions(h.extensions);
    var head := PrintHead(h, |block|);
    BlockOfPrinted(h, block, trailing);
    assert data[|head|..|head| + |block|] == block;
    s := FindPrinted(data, |head|, |head| + |block|, |head| + |block|, pre, x, post);
  }

  lemma {:induction false} LookupAbsent(h: Hello, typ: nat, trailing: seq<byte>)
    requires ValidHello(h) && NoneOf(h.extensions, typ)
    ensures ExtensionOf(PrintHello(h) + trailing, typ) == None
  {
    var data, block := PrintHello(h) + trailing, PrintExtensions(h.extensions);
    var head := PrintHead(h, |block|);
    BlockOfPrinted(h, block, trailing);
    assert data[|head|..|head| + |block|] == block;
    FindNone(data, |head|, |head| + |block|, h.extensions, typ);
  }

  // ---------- A counted list inside an extension body ----------

  /** A list behind its two-byte length, then bytes the walks ignore. */
  ghost function Counted(list: seq<byte>, ignored: seq<byte>): seq<byte>
    requires |list| < 0x1_0000
  {
    Be16(|list|) + list + ignored
  }

  lemma CountedAt(data: seq<byte>, start: nat, end: nat, list: seq<byte>, ignored: seq<byte>)
    requires |list| < 0x1_0000 && start <= end <= |data| && data[start..end] == Counted(list, ignored)
    ensures start + 2 + |list| <= end
    ensures U16(data[start], data[start + 1]) == |list|
    ensures data[start + 2..start + 2 + |list|] == list
  {
    var printed := Counted(list, ignored);
    assert printed[0] == Be16(|list|)[0] && printed[1] == Be16(|list|)[1] && printed[2..2 + |list|] == list;
    assert data[start..end][0] == data[start] && data[start..end][1] == data[start + 1];
    SliceOfSlice(data, start, end, 2, 2 + |list|);
  }
}
