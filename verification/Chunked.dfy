/**
 Decoding a chunked HTTP body. The inputs it accepts are characterised exactly,
 and it undoes the encoder of section 7.1 of RFC 9112.
 */
module Chunked {
  import opened Prelude
  import opened Text
  import opened ChunkSize

  const CR: byte := 13
  const LF: byte := 10
  const CRLF: seq<byte> := [CR, LF]

  // ---------- Searching ----------

  ghost predicate MatchAt(haystack: seq<byte>, needle: seq<byte>, i: nat) {
    i + |needle| <= |haystack| && haystack[i..i + |needle|] == needle
  }

  function SearchFrom(haystack: seq<byte>, needle: seq<byte>, i: nat): (r: Option<nat>)
    requires i + |needle| <= |haystack| + 1
    ensures r.Some? ==> i <= r.value && MatchAt(haystack, needle, r.value)
    ensures r.Some? ==> forall j {:trigger MatchAt(haystack, needle, j)} :: i <= j < r.value ==> !MatchAt(haystack, needle, j)
    ensures r.None? ==> forall j {:trigger MatchAt(haystack, needle, j)} :: i <= j ==> !MatchAt(haystack, needle, j)
    decreases |haystack| - i
  {
    if i + |needle| > |haystack| then None
    else if haystack[i..i + |needle|] == needle then Some(i)
    else SearchFrom(haystack, needle, i + 1)
  }

  /** `find_subslice`: the first occurrence of a non-empty needle. */
  function FindSubslice(haystack: seq<byte>, needle: seq<byte>): (r: Option<nat>)
    ensures r.Some? ==> needle != [] && MatchAt(haystack, needle, r.value)
    ensures r.Some? ==> forall j: nat {:trigger MatchAt(haystack, needle, j)} :: j < r.value ==> !MatchAt(haystack, needle, j)
    ensures r.None? ==> needle == [] || forall j: nat {:trigger MatchAt(haystack, needle, j)} :: !MatchAt(haystack, needle, j)
  {
    if needle == [] || |haystack| < |needle| then None else SearchFrom(haystack, needle, 0)
  }

  /** A line has no CRLF inside. */
  ghost predicate OneLine(line: seq<byte>) {
    forall i {:trigger line[i]} :: 0 <= i < |line| - 1 ==> !(line[i] == CR && line[i + 1] == LF)
  }

  lemma CrlfAt(s: seq<byte>, i: nat)
    ensures MatchAt(s, CRLF, i) <==> i + 2 <= |s| && s[i] == CR && s[i + 1] == LF
  {
    if i + 2 <= |s| {
      assert s[i..i + 2] == [s[i], s[i + 1]];
    }
  }

  /** A line ends at the first CRLF behind it. */
  lemma LineEnds(line: seq<byte>, rest: seq<byte>)
    requires OneLine(line)
    ensures FindSubslice(line + CRLF + rest, CRLF) == Some(|line|)
  {
    var s := line + CRLF + rest;
    CrlfAt(s, |line|);
    forall j: nat | j < |line|
      ensures !MatchAt(s, CRLF, j)
    {
      CrlfAt(s, j);
      assert s[j] == line[j];
      assert j + 1 < |line| ==> s[j + 1] == line[j + 1];
    }
  }

  lemma LineFound(s: seq<byte>, k: nat)
    requires FindSubslice(s, CRLF) == Some(k)
    ensures k + 2 <= |s| && OneLine(s[..k]) && s == s[..k] + CRLF + s[k + 2..]
  {
    CrlfAt(s, k);
    forall i | 0 <= i < k - 1
      ensures !(s[..k][i] == CR && s[..k][i + 1] == LF)
    {
      CrlfAt(s, i);
      assert !MatchAt(s, CRLF, i);
    }
  }

  // ---------- Decoding ----------

  /** What stands at the front of a body: nothing readable, the end, a last chunk, or a chunk with more behind. */
  datatype Front = Unreadable | Done | Final(data: seq<byte>) | Next(data: seq<byte>, next: nat)

  function FrontOf(body: seq<byte>): (f: Front)
    ensures f.Next? ==> 0 < f.next <= |body| && |f.data| < f.next
    ensures f.Final? ==> |f.data| <= |body|
  {
    match FindSubslice(body, CRLF)
    case None => Unreadable
    case Some(end) =>
      match SizeOf(body[..end])
      case None => Unreadable
      case Some(size) =>
        if size == 0 then Done
        else if end + 2 + size > |body| then Unreadable
        else if end + 2 + size + 2 > |body| then Final(body[end + 2..end + 2 + size])
        else Next(body[end + 2..end + 2 + size], end + 2 + size + 2)
  }

  function Prepend(out: seq<byte>, r: Option<seq<byte>>): Option<seq<byte>> {
    match r case None => None case Some(rest) => Some(out + rest)
  }

  /** `decode_chunked` on a value. */
  function Decode(body: seq<byte>): Option<seq<byte>> {
    match FrontOf(body)
    case Unreadable => None
    case Done => Some([])
    case Final(data) => Some(data)
    case Next(data, next) => Prepend(data, Decode(body[next..]))
  }

  lemma PrependTwice(a: seq<byte>, b: seq<byte>, r: Option<seq<byte>>)
    ensures Prepend(a, Prepend(b, r)) == Prepend(a + b, r)
    ensures Prepend([], r) == r
    ensures Prepend(a, Some([])) == Some(a)
  {
    if r.Some? {
      assert a + (b + r.value) == (a + b) + r.value;
      assert [] + r.value == r.value;
    }
    assert a + [] == a;
  }

  lemma DecodeStep(out: seq<byte>, body: seq<byte>)
    ensures FrontOf(body).Unreadable? ==> Prepend(out, Decode(body)) == None
    ensures FrontOf(body).Done? ==> Prepend(out, Decode(body)) == Some(out)
    ensures FrontOf(body).Final? ==> Prepend(out, Decode(body)) == Some(out + FrontOf(body).data)
    ensures FrontOf(body).Next? ==>
      Prepend(out, Decode(body)) == Prepend(out + FrontOf(body).data, Decode(body[FrontOf(body).next..]))
  {
    var front := FrontOf(body);
    if front.Next? {
      PrependTwice(out, front.data, Decode(body[front.next..]));
    } else {
      PrependTwice(out, [], None);
    }
  }

  /**
   `decode_chunked`. No slice is longer than the largest machine word, so the
   checked additions fail only where the length test would.
   */
  method DecodeChunked(input: seq<byte>) returns (r: Option<seq<byte>>)
    ensures r == Decode(input)
    ensures r.Some? ==> |r.value| <= |input|
  {
    var body, out := input, [];
    OutputShorter(input);
    PrependTwice([], [], Decode(input));
    while true
      invariant Prepend(out, Decode(body)) == Decode(input)
      decreases |body|
    {
      DecodeStep(out, body);
      match FrontOf(body) {
        case Unreadable => return None;
        case Done => return Some(out);
        case Final(data) => return Some(out + data);
        case Next(data, next) => out, body := out + data, body[next..];
      }
    }
  }

  /** Decoding never makes a body longer. */
  lemma {:induction false} OutputShorter(body: seq<byte>)
    ensures Decode(body).Some? ==> |Decode(body).value| <= |body|
    decreases |body|
  {
    var front := FrontOf(body);
    if front.Next? {
      OutputShorter(body[front.next..]);
    }
  }

  // ---------- The bodies it accepts ----------

  /** A chunk as it stands in the body; `end` is what should be a CRLF. */
  datatype Chunk = Chunk(line: seq<byte>, data: seq<byte>, end: seq<byte>)

  ghost predicate ValidChunk(c: Chunk) {
    OneLine(c.line) && SizeOf(c.line) == Some(|c.data|) && c.data != []
  }

  function Render(c: Chunk): seq<byte> { c.line + CRLF + (c.data + c.end) }

  function RenderAll(cs: seq<Chunk>): seq<byte> { if cs == [] then [] else Render(cs[0]) + RenderAll(cs[1..]) }

  function DataOf(cs: seq<Chunk>): seq<byte> { if cs == [] then [] else cs[0].data + DataOf(cs[1..]) }

  ghost predicate ValidChunks(cs: seq<Chunk>) {
    forall i {:trigger cs[i]} :: 0 <= i < |cs| ==> ValidChunk(cs[i]) && |cs[i].end| == 2
  }

  /** How a body stops: at a zero size, or with a chunk whose last two bytes are not all there. */
  datatype Ending = Zero(line: seq<byte>, rest: seq<byte>) | Short(last: Chunk)

  ghost predicate ValidEnding(e: Ending) {
    match e
    case Zero(line, _) => OneLine(line) && SizeOf(line) == Some(0)
    case Short(last) => ValidChunk(last) && |last.end| < 2
  }

  function RenderEnding(e: Ending): seq<byte> {
    match e
    case Zero(line, rest) => line + CRLF + rest
    case Short(last) => Render(last)
  }

  function EndingData(e: Ending): seq<byte> { match e case Zero(_, _) => [] case Short(last) => last.data }

  lemma ChunkInFront(c: Chunk, rest: seq<byte>)
    requires ValidChunk(c) && |c.end| <= 2 && (|c.end| < 2 ==> rest == [])
    ensures FrontOf(Render(c) + rest) == if |c.end| < 2 then Final(c.data) else Next(c.data, |Render(c)|)
  {
    var behind := c.data + c.end + rest;
    RenderBehind(c, rest);
    LineEnds(c.line, behind);
    SliceOfLine(c.line, c.data, c.end + rest);
    assert c.data + (c.end + rest) == behind;
  }

  /** The line and the data, where the decoder slices them. */
  lemma SliceOfLine(line: seq<byte>, data: seq<byte>, rest: seq<byte>)
    ensures var body := line + CRLF + (data + rest);
            body[..|line|] == line && body[|line| + 2..|line| + 2 + |data|] == data
  {}

  lemma ZeroInFront(line: seq<byte>, rest: seq<byte>)
    requires OneLine(line) && SizeOf(line) == Some(0)
    ensures FrontOf(line + CRLF + rest) == Done
  {
    LineEnds(line, rest);
    assert (line + CRLF + rest)[..|line|] == line;
  }

  lemma DecodeEnding(e: Ending)
    requires ValidEnding(e)
    ensures Decode(RenderEnding(e)) == Some(EndingData(e))
  {
    match e {
      case Zero(line, rest) => ZeroInFront(line, rest);
      case Short(last) =>
        ChunkInFront(last, []);
        assert Render(last) + [] == Render(last);
    }
  }

  lemma DecodeHead(c: Chunk, rest: seq<byte>)
    requires ValidChunk(c) && |c.end| == 2
    ensures Decode(Render(c) + rest) == Prepend(c.data, Decode(rest))
  {
    ChunkInFront(c, rest);
    assert (Render(c) + rest)[|Render(c)|..] == rest;
  }

  /** Every body made of valid chunks and a valid ending decodes to its data. */
  lemma {:induction false} DecodeRendered(cs: seq<Chunk>, e: Ending)
    requires ValidChunks(cs) && ValidEnding(e)
    ensures Decode(RenderAll(cs) + RenderEnding(e)) == Some(DataOf(cs) + EndingData(e))
  {
    if cs == [] {
      NoChunks(RenderEnding(e), e);
    } else {
      DecodeRendered(cs[1..], e);
      AddChunk(cs[0], cs[1..], e);
      assert [cs[0]] + cs[1..] == cs;
    }
  }

  lemma AddChunk(c: Chunk, tail: seq<Chunk>, e: Ending)
    requires ValidChunk(c) && |c.end| == 2
    requires Decode(RenderAll(tail) + RenderEnding(e)) == Some(DataOf(tail) + EndingData(e))
    ensures Decode(RenderAll([c] + tail) + RenderEnding(e)) == Some(DataOf([c] + tail) + EndingData(e))
  {
    var rest := RenderAll(tail) + RenderEnding(e);
    ConsChunk(c, tail, e, rest);
    DecodeHead(c, rest);
  }

  /** The chunk or the ending that stands in front. */
  lemma FrontMeans(body: seq<byte>) returns (c: Chunk, e: Ending)
    requires !FrontOf(body).Unreadable?
    ensures FrontOf(body).Next? ==>
      ValidChunk(c) && |c.end| == 2 && c.data == FrontOf(body).data && body == Render(c) + body[FrontOf(body).next..]
    ensures !FrontOf(body).Next? ==> ValidEnding(e) && RenderEnding(e) == body
  {
    var end := FindSubslice(body, CRLF).value;
    LineFound(body, end);
    var line, size := body[..end], SizeOf(body[..end]).value;
    c, e := Chunk([], [], []), Zero(line, body[end + 2..]);
    if size > 0 {
      var dataEnd := end + 2 + size;
      var data := body[end + 2..dataEnd];
      SliceJoin(body, end + 2, dataEnd);
      if dataEnd + 2 > |body| {
        e := Short(Chunk(line, data, body[dataEnd..]));
      } else {
        c := Chunk(line, data, body[dataEnd..dataEnd + 2]);
        Resplit(body, line, data, c.end, dataEnd);
      }
    }
  }

  lemma SliceJoin(s: seq<byte>, i: nat, j: nat)
    requires i <= j <= |s|
    ensures s[i..] == s[i..j] + s[j..]
  {}

  lemma Resplit(body: seq<byte>, line: seq<byte>, data: seq<byte>, end: seq<byte>, dataEnd: nat)
    requires dataEnd + 2 <= |body| && body == line + CRLF + (data + body[dataEnd..]) && end == body[dataEnd..dataEnd + 2]
    ensures body == line + CRLF + (data + end) + body[dataEnd + 2..]
  {
    SliceJoin(body, dataEnd, dataEnd + 2);
  }

  /** Every body that decodes is made that way. */
  lemma {:induction false} DecodedIsRendered(body: seq<byte>) returns (cs: seq<Chunk>, e: Ending)
    requires Decode(body).Some?
    ensures ValidChunks(cs) && ValidEnding(e)
    ensures body == RenderAll(cs) + RenderEnding(e)
    ensures Decode(body).value == DataOf(cs) + EndingData(e)
    decreases |body|
  {
    var front, c := FrontOf(body), Chunk([], [], []);
    c, e := FrontMeans(body);
    if !front.Next? {
      cs := [];
      NoChunks(body, e);
      return;
    }
    var rest := body[front.next..];
    DecodeHead(c, rest);
    var tail;
    tail, e := DecodedIsRendered(rest);
    ConsChunk(c, tail, e, rest);
    ValidCons(c, tail);
    cs := [c] + tail;
  }

  lemma ValidCons(c: Chunk, tail: seq<Chunk>)
    requires ValidChunk(c) && |c.end| == 2 && ValidChunks(tail)
    ensures ValidChunks([c] + tail)
  {}

  lemma NoChunks(body: seq<byte>, e: Ending)
    requires body == RenderEnding(e) && ValidEnding(e)
    ensures body == RenderAll([]) + RenderEnding(e)
    ensures Decode(body) == Some(DataOf([]) + EndingData(e))
  {
    assert RenderAll([]) + RenderEnding(e) == RenderEnding(e);
    assert Decode(body) == Some(EndingData(e)) by {
      DecodeEnding(e);
    }
    assert DataOf([]) + EndingData(e) == EndingData(e);
  }

  lemma ConsChunk(c: Chunk, tail: seq<Chunk>, e: Ending, rest: seq<byte>)
    requires rest == RenderAll(tail) + RenderEnding(e)
    ensures Render(c) + rest == RenderAll([c] + tail) + RenderEnding(e)
    ensures c.data + (DataOf(tail) + EndingData(e)) == DataOf([c] + tail) + EndingData(e)
  {
    assert ([c] + tail)[1..] == tail;
    Assoc(Render(c), RenderAll(tail), RenderEnding(e));
    Assoc(c.data, DataOf(tail), EndingData(e));
  }

  // ---------- Encoding ----------

  /** Data to send, its size as it is written, and a chunk extension to put behind that. */
  datatype Part = Part(data: seq<byte>, size: seq<byte>, extension: seq<byte>)

  /** The size may be written with any leading zeros and each digit in either case. */
  ghost predicate ValidPart(p: Part) {
    && 0 < |p.data| <= USIZE_MAX && HexNumeral(p.size, |p.data|) && ValidExtension(p.extension)
  }

  ghost predicate ValidExtension(extension: seq<byte>) {
    && Utf8(extension).Some? && OneLine(extension) && (extension == [] || extension[0] == SEMICOLON)
  }

  function Encoded(parts: seq<Part>): seq<Chunk> {
    if parts == [] then []
    else [Chunk(parts[0].size + parts[0].extension, parts[0].data, CRLF)] + Encoded(parts[1..])
  }

  /** Each part under its size in hexadecimal, then the zero chunk, as it is written, and an empty trailer. */
  function Encode(parts: seq<Part>, zero: seq<byte>): seq<byte> { RenderAll(Encoded(parts)) + (zero + CRLF + CRLF) }

  function Payload(parts: seq<Part>): seq<byte> { if parts == [] then [] else parts[0].data + Payload(parts[1..]) }

  lemma SizeLineOk(size: seq<byte>, n: nat, extension: seq<byte>)
    requires HexNumeral(size, n) && n <= USIZE_MAX && ValidExtension(extension)
    ensures OneLine(size + extension) && SizeOf(size + extension) == Some(n)
  {
    PrintedSize(size, n, extension);
    NumeralText(size, n);
    LineJoin(size, extension);
  }

  lemma LineJoin(a: seq<byte>, b: seq<byte>)
    requires OneLine(b) && forall i {:trigger a[i]} :: 0 <= i < |a| ==> a[i] >= 0x30
    ensures OneLine(a + b)
  {
    var line := a + b;
    forall i | 0 <= i < |line| - 1
      ensures !(line[i] == CR && line[i + 1] == LF)
    {
      if i < |a| {
        assert line[i] == a[i];
      } else {
        assert line[i] == b[i - |a|] && line[i + 1] == b[i - |a| + 1];
      }
    }
  }

  lemma {:induction false} EncodedValid(parts: seq<Part>)
    requires forall i {:trigger parts[i]} :: 0 <= i < |parts| ==> ValidPart(parts[i])
    ensures ValidChunks(Encoded(parts)) && DataOf(Encoded(parts)) == Payload(parts)
  {
    if parts != [] {
      EncodedValid(parts[1..]);
      SizeLineOk(parts[0].size, |parts[0].data|, parts[0].extension);
      var c := Chunk(parts[0].size + parts[0].extension, parts[0].data, CRLF);
      assert Encoded(parts)[1..] == Encoded(parts[1..]);
      assert ValidChunk(c);
    }
  }

  lemma EncodeSplit(a: seq<byte>, b: seq<byte>, trailing: seq<byte>)
    ensures a + (b + CRLF + CRLF) + trailing == a + (b + CRLF + (CRLF + trailing))
  {}

  /** Decoding undoes encoding, however the sizes are written, whatever the data holds and whatever follows the body. */
  lemma RoundTrip(parts: seq<Part>, zero: seq<byte>, trailing: seq<byte>)
    requires forall i {:trigger parts[i]} :: 0 <= i < |parts| ==> ValidPart(parts[i])
    requires HexNumeral(zero, 0)
    ensures Decode(Encode(parts, zero) + trailing) == Some(Payload(parts))
  {
    EncodedValid(parts);
    SizeLineOk(zero, 0, []);
    assert zero + [] == zero;
    var e := Zero(zero, CRLF + trailing);
    EncodeSplit(RenderAll(Encoded(parts)), zero, trailing);
    assert DataOf(Encoded(parts)) + [] == Payload(parts);
    DecodeAs(Encode(parts, zero) + trailing, Encoded(parts), e);
  }

  // ---------- Bodies cut short ----------

  /** Where the first j chunks end. */
  ghost function EndOf(cs: seq<Chunk>, j: nat): nat
    requires j <= |cs|
  {
    |RenderAll(cs[..j])|
  }

  lemma EndOfCons(cs: seq<Chunk>, j: nat)
    requires 0 < j <= |cs|
    ensures EndOf(cs, j) == |Render(cs[0])| + EndOf(cs[1..], j - 1)
  {
    assert cs[..j][1..] == cs[1..][..j - 1];
  }

  /** A chunk cut within its closing CRLF. */
  ghost predicate CutInTrailer(cs: seq<Chunk>, j: nat, k: nat) {
    0 < j <= |cs| && EndOf(cs, j) - 2 <= k < EndOf(cs, j)
  }

  ghost predicate CutInSomeTrailer(cs: seq<Chunk>, k: nat) {
    exists j {:trigger CutInTrailer(cs, j, k)} :: CutInTrailer(cs, j, k)
  }

  lemma NoLineFound(line: seq<byte>, rest: seq<byte>, cut: seq<byte>)
    requires OneLine(line) && cut <= line + CRLF + rest && |cut| < |line| + 2
    ensures Decode(cut) == None
  {
    var s := line + CRLF + rest;
    forall j: nat
      ensures !MatchAt(cut, CRLF, j)
    {
      CrlfAt(cut, j);
      if j + 2 <= |cut| {
        assert cut[j] == s[j] == line[j];
        assert cut[j + 1] == s[j + 1];
        assert j + 1 < |line| ==> s[j + 1] == line[j + 1];
      }
    }
  }

  lemma DataMissing(line: seq<byte>, seen: seq<byte>, size: nat)
    requires OneLine(line) && SizeOf(line) == Some(size) && |seen| < size
    ensures Decode(line + CRLF + seen) == None
  {
    LineEnds(line, seen);
    assert (line + CRLF + seen)[..|line|] == line;
  }

  /** A chunk cut before the end of its data is not readable. */
  lemma CutChunk(c: Chunk, more: seq<byte>, cut: seq<byte>)
    requires ValidChunk(c) && |c.end| == 2 && cut <= Render(c) + more && |cut| < |Render(c)| - 2
    ensures Decode(cut) == None
  {
    var head, behind := c.line + CRLF, c.data + c.end + more;
    RenderBehind(c, more);
    if |cut| < |head| {
      NoLineFound(c.line, behind, cut);
    } else {
      PrefixPast(head, behind, cut);
      DataMissing(c.line, cut[|head|..], |c.data|);
    }
  }

  lemma RenderBehind(c: Chunk, more: seq<byte>)
    ensures Render(c) + more == c.line + CRLF + (c.data + c.end + more)
    ensures |Render(c)| == |c.line| + 2 + |c.data| + |c.end|
  {}

  lemma PrefixPast(a: seq<byte>, b: seq<byte>, cut: seq<byte>)
    requires cut <= a + b && |a| <= |cut|
    ensures cut == a + cut[|a|..] && cut[|a|..] <= b
  {}

  lemma CutPastChunk(c: Chunk, more: seq<byte>, cut: seq<byte>)
    requires ValidChunk(c) && |c.end| == 2 && cut <= Render(c) + more && |cut| >= |Render(c)|
    ensures cut[|Render(c)|..] <= more
    ensures Decode(cut) == Prepend(c.data, Decode(cut[|Render(c)|..]))
  {
    PrefixPast(Render(c), more, cut);
    DecodeHead(c, cut[|Render(c)|..]);
  }

  /** A cut body decodes only past the zero size or within the closing CRLF of a chunk. */
  lemma {:induction false} CutDecodes(cs: seq<Chunk>, line: seq<byte>, rest: seq<byte>, cut: seq<byte>) returns (j: nat)
    requires ValidChunks(cs) && OneLine(line) && Decode(cut).Some?
    requires cut <= RenderAll(cs) + (line + CRLF + rest) && |cut| < EndOf(cs, |cs|) + |line| + 2
    ensures CutInTrailer(cs, j, |cut|)
  {
    var tail := line + CRLF + rest;
    if cs == [] {
      assert RenderAll(cs) + tail == tail;
      NoLineFound(line, rest, cut);
      assert false;
    } else {
      var c := cs[0];
      RenderCons(cs, tail);
      EndOfCons(cs, |cs|);
      if |cut| < |Render(c)| {
        CutFirst(cs, tail, cut);
        j := 1;
      } else {
        CutPastChunk(c, RenderAll(cs[1..]) + tail, cut);
        var i := CutDecodes(cs[1..], line, rest, cut[|Render(c)|..]);
        EndOfCons(cs, i + 1);
        j := i + 1;
      }
    }
  }

  lemma RenderCons(cs: seq<Chunk>, tail: seq<byte>)
    requires cs != []
    ensures RenderAll(cs) + tail == Render(cs[0]) + (RenderAll(cs[1..]) + tail)
    ensures cs[1..][..|cs| - 1] == cs[1..]
  {
    Assoc(Render(cs[0]), RenderAll(cs[1..]), tail);
  }

  lemma Assoc(a: seq<byte>, b: seq<byte>, c: seq<byte>)
    ensures (a + b) + c == a + (b + c)
  {}

  lemma CutFirst(cs: seq<Chunk>, tail: seq<byte>, cut: seq<byte>)
    requires ValidChunks(cs) && cs != [] && Decode(cut).Some?
    requires cut <= RenderAll(cs) + tail && |cut| < |Render(cs[0])|
    ensures CutInTrailer(cs, 1, |cut|)
  {
    EndOfCons(cs, 1);
    assert cs[1..][..0] == [];
    RenderCons(cs, tail);
    if |cut| < |Render(cs[0])| - 2 {
      CutChunk(cs[0], RenderAll(cs[1..]) + tail, cut);
    }
  }

  /** A chunk without all of its closing CRLF. */
  ghost function Trimmed(c: Chunk, m: nat): Ending
    requires m < 2 == |c.end|
  {
    Short(Chunk(c.line, c.data, c.end[..m]))
  }

  lemma TrimmedIs(c: Chunk, m: nat)
    requires m < 2 == |c.end|
    ensures |Render(c)| >= 2 && RenderEnding(Trimmed(c, m)) == Render(c)[..|Render(c)| - 2 + m]
    ensures ValidChunk(c) ==> ValidEnding(Trimmed(c, m))
  {}

  lemma LastOf(cs: seq<Chunk>, j: nat)
    requires 0 < j <= |cs|
    ensures EndOf(cs, j) == |RenderAll(cs[..j - 1])| + |Render(cs[j - 1])|
    ensures RenderAll(cs) == RenderAll(cs[..j - 1]) + Render(cs[j - 1]) + RenderAll(cs[j..])
  {
    var front, c := cs[..j - 1], cs[j - 1];
    assert cs[..j] == front + [c] && cs == cs[..j] + cs[j..];
    RenderSplit(front, [c]);
    RenderSplit(cs[..j], cs[j..]);
    RenderOne(c);
  }

  lemma LastData(cs: seq<Chunk>, j: nat)
    requires 0 < j <= |cs|
    ensures DataOf(cs[..j]) == DataOf(cs[..j - 1]) + cs[j - 1].data
  {
    assert cs[..j] == cs[..j - 1] + [cs[j - 1]];
    RenderSplit(cs[..j - 1], [cs[j - 1]]);
    RenderOne(cs[j - 1]);
  }

  /** A cut within the closing CRLF of chunk j leaves the chunks before it whole. */
  lemma CutShape(cs: seq<Chunk>, j: nat, more: seq<byte>, cut: seq<byte>)
    requires CutInTrailer(cs, j, |cut|) && cut <= RenderAll(cs) + more
    ensures |Render(cs[j - 1])| >= 2
    ensures EndOf(cs, j) == |RenderAll(cs[..j - 1])| + |Render(cs[j - 1])|
    ensures cut == RenderAll(cs[..j - 1]) + Render(cs[j - 1])[..|Render(cs[j - 1])| - (EndOf(cs, j) - |cut|)]
  {
    LastOf(cs, j);
    RenderBehind(cs[j - 1], []);
    PrefixWithin(RenderAll(cs[..j - 1]), Render(cs[j - 1]), RenderAll(cs[j..]), more, cut);
  }

  /** And there it does: the chunks up to the cut are delivered. */
  lemma CutInside(cs: seq<Chunk>, j: nat, more: seq<byte>, cut: seq<byte>)
    requires ValidChunks(cs) && CutInTrailer(cs, j, |cut|) && cut <= RenderAll(cs) + more
    ensures Decode(cut) == Some(DataOf(cs[..j]))
  {
    var front, c, m := cs[..j - 1], cs[j - 1], 2 - (EndOf(cs, j) - |cut|);
    assert |c.end| == 2 && ValidChunk(c);
    assert ValidChunks(front);
    CutShape(cs, j, more, cut);
    TrimmedIs(c, m);
    LastData(cs, j);
    DecodeAs(cut, front, Trimmed(c, m));
  }

  lemma DecodeAs(body: seq<byte>, cs: seq<Chunk>, e: Ending)
    requires ValidChunks(cs) && ValidEnding(e) && body == RenderAll(cs) + RenderEnding(e)
    ensures Decode(body) == Some(DataOf(cs) + EndingData(e))
  {
    DecodeRendered(cs, e);
  }

  lemma PrefixWithin(a: seq<byte>, b: seq<byte>, c: seq<byte>, d: seq<byte>, cut: seq<byte>)
    requires cut <= a + b + c + d && |a| <= |cut| <= |a| + |b|
    ensures cut == a + b[..|cut| - |a|]
  {
    assert forall i {:trigger cut[i]} :: 0 <= i < |cut| ==> cut[i] == (a + b + c + d)[i];
  }

  lemma RenderOne(c: Chunk)
    ensures RenderAll([c]) == Render(c) && DataOf([c]) == c.data
  {
    assert [c][1..] == [];
    assert Render(c) + [] == Render(c);
    assert c.data + [] == c.data;
  }

  /**
   A body with its zero chunk, cut anywhere: what is left decodes exactly when the
   cut falls behind the zero size or within the closing CRLF of a chunk.
   */
  lemma CutIff(cs: seq<Chunk>, line: seq<byte>, rest: seq<byte>, cut: seq<byte>)
    requires ValidChunks(cs) && OneLine(line) && SizeOf(line) == Some(0)
    requires cut <= RenderAll(cs) + (line + CRLF + rest)
    ensures Decode(cut).Some? <==> |cut| >= EndOf(cs, |cs|) + |line| + 2 || CutInSomeTrailer(cs, |cut|)
  {
    if |cut| >= EndOf(cs, |cs|) + |line| + 2 {
      CutBehindZero(cs, line, rest, cut);
    } else if Decode(cut).Some? {
      var j := CutDecodes(cs, line, rest, cut);
    } else if CutInSomeTrailer(cs, |cut|) {
      var j :| CutInTrailer(cs, j, |cut|);
      CutInside(cs, j, line + CRLF + rest, cut);
    }
  }

  lemma CutBehindZero(cs: seq<Chunk>, line: seq<byte>, rest: seq<byte>, cut: seq<byte>)
    requires ValidChunks(cs) && OneLine(line) && SizeOf(line) == Some(0)
    requires cut <= RenderAll(cs) + (line + CRLF + rest) && |cut| >= EndOf(cs, |cs|) + |line| + 2
    ensures Decode(cut) == Some(DataOf(cs))
  {
    assert cs[..|cs|] == cs;
    var head := RenderAll(cs) + (line + CRLF);
    var e := Zero(line, cut[|head|..]);
    Assoc(RenderAll(cs), line + CRLF, rest);
    PrefixPast(head, rest, cut);
    Assoc(RenderAll(cs), line + CRLF, cut[|head|..]);
    DecodeAs(cut, cs, e);
    assert DataOf(cs) + [] == DataOf(cs);
  }

  lemma {:induction false} RenderSplit(a: seq<Chunk>, b: seq<Chunk>)
    ensures RenderAll(a + b) == RenderAll(a) + RenderAll(b)
    ensures DataOf(a + b) == DataOf(a) + DataOf(b)
  {
    if a == [] {
      assert a + b == b;
    } else {
      assert (a + b)[1..] == a[1..] + b && (a + b)[0] == a[0];
      RenderSplit(a[1..], b);
      Assoc(Render(a[0]), RenderAll(a[1..]), RenderAll(b));
      Assoc(a[0].data, DataOf(a[1..]), DataOf(b));
    }
  }

  /** In particular a body that ends with a complete chunk, but without the zero chunk, is refused. */
  lemma {:induction false} EndOfInputRefused(cs: seq<Chunk>)
    requires ValidChunks(cs)
    ensures Decode(RenderAll(cs)) == None
  {
    if cs != [] {
      EndOfInputRefused(cs[1..]);
      DecodeHead(cs[0], RenderAll(cs[1..]));
    }
  }
}
