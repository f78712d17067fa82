/**
 The relay's translation of c2r frames, and which addresses it takes: the one the
 client prints is read back, under an exact condition on host and port.
 */
module RelayInbound {
  import opened Prelude
  import opened Text
  import opened Wire
  import opened Receiver
  import opened Channel
  import opened EndToEnd
  import Sender
  import Pumping
  import UploadSizes

  const COLON := 0x3A
  const OPEN_BRACKET := 0x5B
  const CLOSE_BRACKET := 0x5D
  const U16_MAX := 0xFFFF

  datatype RelayEvent = Dial(host: seq<int>, port: nat) | Write(bytes: seq<byte>) | HalfClose | Shut

  function LastColon(s: seq<int>): Option<nat> {
    if s == [] then None
    else if s[|s| - 1] == COLON then Some(|s| - 1)
    else LastColon(s[..|s| - 1])
  }

  predicate BracketColonAt(s: seq<int>, i: nat) {
    i + 1 < |s| && s[i] == CLOSE_BRACKET && s[i + 1] == COLON
  }

  function BracketColonFrom(s: seq<int>, i: nat): (r: Option<nat>)
    ensures r.Some? ==> i <= r.value && BracketColonAt(s, r.value)
    ensures forall j {:trigger BracketColonAt(s, j)} :: i <= j && (r.None? || j < r.value) ==> !BracketColonAt(s, j)
    decreases |s| - i
  {
    if i >= |s| then None else if BracketColonAt(s, i) then Some(i) else BracketColonFrom(s, i + 1)
  }

  /** A bracketed host ends at the first `]:`, any other at the last colon. */
  function SplitAddress(s: seq<int>): Option<(seq<int>, seq<int>)> {
    if s != [] && s[0] == OPEN_BRACKET then
      var rest := s[1..];
      match BracketColonFrom(rest, 0)
      case None => None
      case Some(i) => Some((rest[..i], rest[i + 2..]))
    else
      match LastColon(s)
      case None => None
      case Some(i) => if i < |s| then Some((s[..i], s[i + 1..])) else None
  }

  function HostAndPort(host: seq<int>, port: seq<int>): Option<(seq<int>, nat)> {
    if host == [] then None
    else
      match ReadUnsigned(port, 10, U16_MAX)
      case None => None
      case Some(n) => if n == 0 then None else Some((host, n))
  }

  /** `parse_connect_addr`. */
  function ParseConnectAddr(text: seq<int>): Option<(seq<int>, nat)> {
    var s := Trim(text);
    if s == [] then None
    else
      match SplitAddress(s)
      case None => None
      case Some(parts) => HostAndPort(parts.0, parts.1)
  }

  /** `frame_to_inbound`. */
  function FrameToInbound(f: WireFrame): Option<RelayEvent> {
    match f.kind
    case Connect => DialEvent(f.payload)
    case Data => Some(Write(f.payload))
    case Eof => Some(HalfClose)
    case Close => Some(Shut)
    case Error => Some(Shut)
    case Hello => None
  }

  function DialEvent(payload: seq<byte>): Option<RelayEvent> {
    match Utf8(payload)
    case None => None
    case Some(text) =>
      match ParseConnectAddr(text)
      case None => None
      case Some(target) => Some(Dial(target.0, target.1))
  }

  // ---------- The address the client prints ----------

  /** The Connect payload of `build_session_open_batch`. */
  function PrintAddress(host: seq<byte>, port: nat): seq<byte> { host + ([COLON] + Numeral(port, 10)) }

  /** What the relay dials for a host without leading white space; a bracketed one is unwrapped. */
  function DialHost(host: seq<int>): Option<seq<int>> {
    if host == [] then None
    else if host[0] != OPEN_BRACKET then Some(host)
    else if |host| >= 3 && host[|host| - 1] == CLOSE_BRACKET && BracketColonFrom(host[1..], 0).None?
    then Some(host[1..|host| - 1])
    else None
  }

  lemma {:induction false} LastColonIs(a: seq<int>, digits: seq<int>)
    requires COLON !in digits
    ensures LastColon(a + [COLON] + digits) == Some(|a|)
    decreases |digits|
  {
    var s := a + [COLON] + digits;
    if digits != [] {
      var front := digits[..|digits| - 1];
      assert s[|s| - 1] == digits[|digits| - 1];
      assert digits[|digits| - 1] in digits;
      assert s[..|s| - 1] == a + [COLON] + front;
      LastColonIs(a, front);
    }
  }

  lemma PlainSplit(host: seq<int>, digits: seq<int>)
    requires COLON !in digits && (host == [] || host[0] != OPEN_BRACKET)
    ensures SplitAddress(host + [COLON] + digits) == Some((host, digits))
  {
    var s := host + [COLON] + digits;
    LastColonIs(host, digits);
    assert s[..|host|] == host && s[|host| + 1..] == digits;
    assert s[0] == if host == [] then COLON else host[0];
  }

  /** Where `]:` stands in a host followed by a colon and digits. */
  lemma BracketColonIn(u: seq<int>, digits: seq<int>, i: nat)
    requires AllAlphanumeric(digits)
    ensures BracketColonAt(u + [COLON] + digits, i) <==>
      BracketColonAt(u, i) || (i + 1 == |u| && u[i] == CLOSE_BRACKET)
  {
    var s := u + [COLON] + digits;
    if i < |s| {
      if i < |u| {
        assert s[i] == u[i];
        assert i + 1 < |u| ==> s[i + 1] == u[i + 1];
      } else if i > |u| {
        assert s[i] == digits[i - |u| - 1];
        AlphanumericVisible(digits[i - |u| - 1]);
      }
    }
  }

  ghost predicate AllAlphanumeric(digits: seq<int>) {
    forall k {:trigger digits[k]} :: 0 <= k < |digits| ==> Alphanumeric(digits[k])
  }

  /** A `]:` inside the host comes first. */
  lemma BracketInside(u: seq<int>, digits: seq<int>)
    requires AllAlphanumeric(digits) && BracketColonFrom(u, 0).Some?
    ensures BracketColonFrom(u + [COLON] + digits, 0) == BracketColonFrom(u, 0)
  {
    var i := BracketColonFrom(u, 0).value;
    BracketColonIn(u, digits, i);
    forall j: nat | j < i
      ensures !BracketColonAt(u + [COLON] + digits, j)
    {
      BracketColonIn(u, digits, j);
      assert !BracketColonAt(u, j);
    }
    FirstUnique(u + [COLON] + digits, i);
  }

  /** Otherwise the host's own closing bracket makes the only one. */
  lemma BracketAtEnd(u: seq<int>, digits: seq<int>)
    requires AllAlphanumeric(digits) && BracketColonFrom(u, 0).None?
    ensures u != [] && u[|u| - 1] == CLOSE_BRACKET ==> BracketColonFrom(u + [COLON] + digits, 0) == Some(|u| - 1)
    ensures u == [] || u[|u| - 1] != CLOSE_BRACKET ==> BracketColonFrom(u + [COLON] + digits, 0) == None
  {
    var s := u + [COLON] + digits;
    forall j: nat
      ensures BracketColonAt(s, j) <==> j + 1 == |u| && u[j] == CLOSE_BRACKET
    {
      BracketColonIn(u, digits, j);
      assert !BracketColonAt(u, j);
    }
    if u != [] && u[|u| - 1] == CLOSE_BRACKET {
      FirstUnique(s, |u| - 1);
    }
  }

  lemma FirstUnique(s: seq<int>, i: nat)
    requires BracketColonAt(s, i) && forall j: nat {:trigger BracketColonAt(s, j)} :: j < i ==> !BracketColonAt(s, j)
    ensures BracketColonFrom(s, 0) == Some(i)
  {
    var at := BracketColonFrom(s, 0);
    if at.Some? {
      assert BracketColonAt(s, at.value);
    }
  }

  /** A numeral has no colon. */
  lemma ColonIsNoPort(s: seq<int>, k: nat)
    requires k < |s| && s[k] == COLON
    ensures ReadUnsigned(s, 10, U16_MAX) == None
  {
    if ReadUnsigned(s, 10, U16_MAX).Some? {
      NumeralChars(s, 10, U16_MAX);
      AlphanumericVisible(s[k]);
    }
  }

  ghost predicate IsPort(digits: seq<int>, port: nat) {
    && ReadUnsigned(digits, 10, U16_MAX) == Some(port)
    && AllAlphanumeric(digits)
  }

  lemma SplitBracketed(host: seq<int>, digits: seq<int>)
    requires host != [] && host[0] == OPEN_BRACKET
    ensures var rest := host[1..] + [COLON] + digits;
            SplitAddress(host + [COLON] + digits) ==
            match BracketColonFrom(rest, 0)
            case None => None
            case Some(i) => Some((rest[..i], rest[i + 2..]))
  {
    var s := host + [COLON] + digits;
    assert s[1..] == host[1..] + [COLON] + digits && s[0] == OPEN_BRACKET;
  }

  /** Nothing that reads as a port follows a `]:` inside the host. */
  lemma InsideRefused(u: seq<int>, digits: seq<int>, i: nat)
    requires i + 2 <= |u|
    ensures HostAndPort((u + [COLON] + digits)[..i], (u + [COLON] + digits)[i + 2..]) == None
  {
    var port := (u + [COLON] + digits)[i + 2..];
    assert port[|u| - i - 2] == COLON;
    ColonIsNoPort(port, |u| - i - 2);
  }

  lemma BracketedParses(host: seq<int>, digits: seq<int>, port: nat)
    requires host != [] && host[0] == OPEN_BRACKET && IsPort(digits, port)
    ensures var parts := SplitAddress(host + [COLON] + digits);
            && (DialHost(host).Some? ==> parts == Some((DialHost(host).value, digits)) && DialHost(host).value != [])
            && (DialHost(host).None? ==> parts.None? || HostAndPort(parts.value.0, parts.value.1).None?)
  {
    var u := host[1..];
    SplitBracketed(host, digits);
    var inner := BracketColonFrom(u, 0);
    if inner.Some? {
      BracketInside(u, digits);
      InsideRefused(u, digits, inner.value);
    } else {
      BracketAtEnd(u, digits);
      if u != [] && u[|u| - 1] == CLOSE_BRACKET {
        ClosedHost(host, digits);
      }
    }
  }

  lemma ClosedHost(host: seq<int>, digits: seq<int>)
    requires |host| >= 2
    ensures var u := host[1..];
            && (u + [COLON] + digits)[..|u| - 1] == host[1..|host| - 1]
            && (u + [COLON] + digits)[|u| - 1 + 2..] == digits
  {}

  lemma PlainParses(host: seq<int>, digits: seq<int>, port: nat)
    requires host == [] || host[0] != OPEN_BRACKET
    requires IsPort(digits, port)
    ensures SplitAddress(host + [COLON] + digits) == Some((host, digits))
  {
    forall k | 0 <= k < |digits|
      ensures digits[k] != COLON
    {
      AlphanumericVisible(digits[k]);
    }
    PlainSplit(host, digits);
  }

  function Target(host: Option<seq<int>>, port: nat): Option<(seq<int>, nat)> {
    if host.None? || port == 0 then None else Some((host.value, port))
  }

  lemma TrimmedAddress(host: seq<int>, digits: seq<int>, port: nat)
    requires IsPort(digits, port) && (host == [] || !White(host[0]))
    ensures Trim(host + [COLON] + digits) == host + [COLON] + digits
  {
    var s := host + [COLON] + digits;
    NumeralChars(digits, 10, U16_MAX);
    AlphanumericVisible(digits[|digits| - 1]);
    assert s[0] == if host == [] then COLON else host[0];
    assert s[|s| - 1] == digits[|digits| - 1];
    TrimKeeps(s);
  }

  lemma VisibleAddressParses(host: seq<int>, digits: seq<int>, port: nat)
    requires IsPort(digits, port) && (host == [] || !White(host[0]))
    ensures ParseConnectAddr(host + [COLON] + digits) == Target(DialHost(host), port)
  {
    TrimmedAddress(host, digits, port);
    if host != [] && host[0] == OPEN_BRACKET {
      BracketedParses(host, digits, port);
    } else {
      PlainParses(host, digits, port);
    }
  }

  /** Leading white space is not part of the host. */
  lemma AddressParses(host: seq<int>, digits: seq<int>, port: nat)
    requires IsPort(digits, port)
    ensures ParseConnectAddr(host + [COLON] + digits) == Target(DialHost(TrimStart(host)), port)
  {
    var white := TrimStartCuts(host);
    var visible := TrimStart(host);
    assert host + [COLON] + digits == white + (visible + [COLON] + digits);
    TrimStartIs(white, visible + [COLON] + digits);
    VisibleAddressParses(visible, digits, port);
  }

  /** White space around an address changes nothing. */
  lemma PaddedAddress(a: seq<int>, text: seq<int>, b: seq<int>)
    requires AllWhite(a) && AllWhite(b)
    ensures ParseConnectAddr(a + text + b) == ParseConnectAddr(text)
  {
    assert a + text + b == a + (text + b);
    TrimStartIs(a, text + b);
    TrimPadded(text, b);
  }

  lemma TrimPadded(text: seq<int>, b: seq<int>)
    requires AllWhite(b)
    ensures Trim(text + b) == Trim(text)
  {
    var white := TrimStartCuts(text);
    var visible := TrimStart(text);
    if visible == [] {
      assert text + b == (white + b) + [];
      assert AllWhite(white + b);
      TrimStartIs(white + b, []);
    } else {
      assert text + b == white + (visible + b);
      TrimStartIs(white, visible + b);
      assert (visible + b)[0] == visible[0];
      TrimEndIs(visible, b);
    }
  }

  /**
   The relay dials what the client printed, exactly when the port is not 0 and the
   host, without leading white space, is either unbracketed and not empty, or one
   non-empty bracketed name.
   */
  lemma {:induction false} ConnectRoundTrip(host: seq<byte>, port: nat)
    requires Utf8(host).Some? && port <= U16_MAX
    ensures DialEvent(PrintAddress(host, port))
         == match Target(DialHost(TrimStart(Utf8(host).value)), port)
            case None => None
            case Some(target) => Some(Dial(target.0, target.1))
  {
    PortPrinted(port);
    AddressText(host, Numeral(port, 10));
    AddressParses(Utf8(host).value, Chars(Numeral(port, 10)), port);
  }

  lemma {:induction false} AddressText(host: seq<byte>, digits: seq<byte>)
    requires Utf8(host).Some? && forall k {:trigger digits[k]} :: 0 <= k < |digits| ==> digits[k] < 0x80
    ensures Utf8(host + ([COLON] + digits)) == Some(Utf8(host).value + [COLON] + Chars(digits))
  {
    var tail := [COLON] + digits;
    Utf8Ascii(tail, []);
    assert tail + [] == tail;
    assert Chars(tail) + [] == [COLON] + Chars(digits);
    Utf8Append(host, tail);
    assert Utf8(host).value + ([COLON] + Chars(digits)) == Utf8(host).value + [COLON] + Chars(digits);
  }

  lemma PortPrinted(port: nat)
    requires port <= U16_MAX
    ensures IsPort(Chars(Numeral(port, 10)), port)
    ensures forall k {:trigger Numeral(port, 10)[k]} :: 0 <= k < |Numeral(port, 10)| ==> Numeral(port, 10)[k] < 0x80
  {
    NumeralReads(port, 10, U16_MAX);
    NumeralChars(Chars(Numeral(port, 10)), 10, U16_MAX);
  }

  // ---------- The relay as far side ----------

  function RelayLink(sid: SessionId): Link<RelayEvent> { Link(ClientToRelay, sid, FrameToInbound) }

  /** Exactly which sessions of the client the relay accepts. */
  lemma {:induction false} RelayAccepts(sid: SessionId, host: seq<byte>, port: nat, opening: Sender.Opening)
    requires Utf8(host).Some? && port <= U16_MAX
    ensures Accepts(RelayLink(sid), PrintAddress(host, port), opening) <==>
      && port > 0 && DialHost(TrimStart(Utf8(host).value)).Some?
      && UploadSizes.OpenReadable(PrintAddress(host, port), opening)
  {
    ConnectRoundTrip(host, port);
    var connect := BuildWireFrame(Connect, sid, 0, PrintAddress(host, port));
    assert RelayLink(sid).convert(connect) == DialEvent(PrintAddress(host, port));
  }

  /** A session to any other address, or with a larger preface, never starts at the relay, in any run. */
  lemma RelayStartsOnlyAccepted(sid: SessionId, host: seq<byte>, port: nat, opening: Sender.Opening,
                                room: Option<nat>, acts: seq<Act>)
    requires Utf8(host).Some? && port <= U16_MAX && Sender.ValidOpening(opening)
    requires !(port > 0 && DialHost(TrimStart(Utf8(host).value)).Some?
               && UploadSizes.OpenReadable(PrintAddress(host, port), opening))
    requires PossibleRun(RelayLink(sid), Begin(sid, PrintAddress(host, port), opening, room), acts)
    ensures Run(RelayLink(sid), Begin(sid, PrintAddress(host, port), opening, room), acts).rx.events == []
  {
    RelayAccepts(sid, host, port, opening);
    UnacceptedNeverStarts(RelayLink(sid), PrintAddress(host, port), opening, room, acts);
  }

  /** In particular it accepts every dialable host and port, with any request head that the proxy lets through. */
  lemma RelayAcceptsProxied(sid: SessionId, host: seq<byte>, port: nat, opening: Sender.Opening)
    requires Utf8(host).Some? && 0 < port <= U16_MAX && DialHost(TrimStart(Utf8(host).value)).Some?
    requires |PrintAddress(host, port)| <= UploadSizes.MAX_PREFACE
    requires |Pumping.OpeningBytes(opening)| <= UploadSizes.MAX_PREFACE
    ensures Accepts(RelayLink(sid), PrintAddress(host, port), opening)
  {
    RelayAccepts(sid, host, port, opening);
    UploadSizes.FrameCountBound(|Pumping.OpeningBytes(opening)|);
  }
}
