/**
 The strict in-order replay window, and the nonce and associated data that bind
 a sealed batch to its place in the stream.
 */
module Replay {
  import opened Prelude
  import opened Wire

  datatype StrictCheck =
    | Accept
    | Replayed(lastAccepted: u64)
    | Future(expected: u64)

  class ReplayWindow {
    var lastSeen: Option<u64>

    /** How many leading seqs have been accepted; 2^64 once the counter is exhausted. */
    function Accepted(): nat
      reads this
    {
      match lastSeen
      case None => 0
      case Some(prev) => prev + 1
    }

    constructor ()
      ensures lastSeen == None && Accepted() == 0
    {
      lastSeen := None;
    }

    /** Loose check: anything above the high-water mark passes. */
    predicate Check(seqno: u64)
      reads this
      ensures Check(seqno) <==> Accepted() <= seqno
    {
      match lastSeen
      case Some(prev) => !(seqno <= prev)
      case None => true
    }

    /** Strict check: exactly the next seq passes, and the two ways to fail are told apart. */
    function CheckNext(seqno: u64): (r: StrictCheck)
      reads this
      ensures r == Accept <==> seqno == Accepted()
      ensures r.Replayed? <==> seqno < Accepted()
      ensures r.Future? <==> Accepted() < seqno
      ensures r.Replayed? ==> r.lastAccepted == Accepted() - 1
      ensures r.Future? ==> r.expected == Accepted()
    {
      if lastSeen.Some? && lastSeen.value + 1 == U64_LIMIT then
        Replayed(lastSeen.value)
      else
        var expected: u64 := if lastSeen.None? then 0 else lastSeen.value + 1;
        if seqno == expected then Accept
        else if seqno < expected then Replayed(expected - 1)
        else Future(expected)
    }

    /** Advance to seqno; never moves back. */
    method Commit(seqno: u64)
      modifies this
      ensures Accepted() == if old(Accepted()) <= seqno then seqno + 1 else old(Accepted())
      ensures old(CheckNext(seqno)) == Accept ==> Accepted() == old(Accepted()) + 1
    {
      lastSeen := match lastSeen
        case Some(prev) => Some(if prev <= seqno then seqno else prev)
        case None => Some(seqno);
    }
  }

  // ---------- Nonce and associated data ----------

  /** The low `width` bytes of n, least significant first. */
  function LittleEndian(n: nat, width: nat): (bs: seq<byte>)
    ensures |bs| == width
  {
    if width == 0 then [] else [n % 256] + LittleEndian(n / 256, width - 1)
  }

  /** 12 bytes, section 2.8 of RFC 8439: the counter, then four zero bytes. */
  function BuildNonce(seqno: u64): (nonce: seq<byte>)
    ensures |nonce| == 12
  {
    LittleEndian(seqno, 8) + [0, 0, 0, 0]
  }

  function BuildAad(sid: SessionId, seqno: u64): (aad: seq<byte>)
    ensures |aad| == 24
  {
    sid + BigEndian(seqno, 8)
  }

  lemma {:induction false} LittleEndianInjective(m: nat, n: nat, width: nat)
    requires m < Pow256(width) && n < Pow256(width)
    requires LittleEndian(m, width) == LittleEndian(n, width)
    ensures m == n
  {
    if width != 0 {
      var a, b := LittleEndian(m, width), LittleEndian(n, width);
      assert a[0] == b[0] && a[1..] == b[1..];
      assert a[1..] == LittleEndian(m / 256, width - 1) && b[1..] == LittleEndian(n / 256, width - 1);
      LittleEndianInjective(m / 256, n / 256, width - 1);
    }
  }

  /** Two seqs share a nonce only if they are the same seq. */
  lemma NonceInjective(m: u64, n: u64)
    ensures BuildNonce(m) == BuildNonce(n) <==> m == n
  {
    if BuildNonce(m) == BuildNonce(n) {
      assert BuildNonce(m)[..8] == LittleEndian(m, 8) && BuildNonce(n)[..8] == LittleEndian(n, 8);
      PowersOf256();
      LittleEndianInjective(m, n, 8);
    }
  }

  /** The associated data pins both the session and the seq. */
  lemma AadInjective(s: SessionId, m: u64, t: SessionId, n: u64)
    ensures BuildAad(s, m) == BuildAad(t, n) <==> s == t && m == n
  {
    if BuildAad(s, m) == BuildAad(t, n) {
      assert BuildAad(s, m)[..16] == s && BuildAad(t, n)[..16] == t;
      assert BuildAad(s, m)[16..] == BigEndian(m, 8) && BuildAad(t, n)[16..] == BigEndian(n, 8);
      PowersOf256();
      BigEndianFits(m, 8);
      BigEndianFits(n, 8);
    }
  }
}
