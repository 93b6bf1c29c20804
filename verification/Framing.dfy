module Framing {
  // Message framing on a connection: the send queue, the receive buffers, and the byte stream between them.

  const HEADER_SIZE := 24
  const MESSAGE_SIZE_OFFSET := 16
  const MAX_SIZE := 0x0200_0000
  const MAX_PROTOCOL_MESSAGE_LENGTH := 2 * 1024 * 1024
  const AHEAD := 256 * 1024

  type Byte = b: nat | b < 256

  function ReadLE32(s: seq<Byte>, at: nat): (n: nat)
    requires at + 4 <= |s|
    ensures n < 0x1_0000_0000
  {
    var b0: int, b1: int, b2: int, b3: int := s[at], s[at + 1], s[at + 2], s[at + 3];
    b0 + 256 * b1 + 65536 * b2 + 16777216 * b3
  }

  function WriteLE32(n: nat): (r: seq<Byte>)
    requires n < 0x1_0000_0000
    ensures |r| == 4 && ReadLE32(r, 0) == n
  {
    var n1 := n / 256;
    var n2 := n1 / 256;
    [n % 256, n1 % 256, n2 % 256, n2 / 256]
  }

  /** The payload size that a header announces. */
  function Announced(s: seq<Byte>): (n: nat)
    requires |s| >= HEADER_SIZE
  {
    ReadLE32(s, MESSAGE_SIZE_OFFSET)
  }

  //////////////////////////////////////////////////////////////////////////////
  // What a stream of bytes means
  //////////////////////////////////////////////////////////////////////////////

  /** A whole message: a header, and as much payload as it announces. */
  predicate IsFrame(f: seq<Byte>) {
    |f| >= HEADER_SIZE && Announced(f) <= MAX_PROTOCOL_MESSAGE_LENGTH && |f| == HEADER_SIZE + Announced(f)
  }

  /** A message as it is sent: of the size it announces, which may be more than a receiver admits. */
  predicate IsMessage(f: seq<Byte>) {
    |f| >= HEADER_SIZE && |f| == HEADER_SIZE + Announced(f)
  }

  /** The beginning of a message that is not yet whole. */
  predicate IsPartial(p: seq<Byte>) {
    |p| < HEADER_SIZE || (Announced(p) <= MAX_PROTOCOL_MESSAGE_LENGTH && |p| < HEADER_SIZE + Announced(p))
  }

  predicate Oversized(s: seq<Byte>) {
    |s| >= HEADER_SIZE && Announced(s) > MAX_PROTOCOL_MESSAGE_LENGTH
  }

  predicate WholeFirst(s: seq<Byte>) {
    |s| >= HEADER_SIZE && !Oversized(s) && |s| >= HEADER_SIZE + Announced(s)
  }

  /** The whole messages at the start of a stream. */
  function Frames(s: seq<Byte>): (r: seq<seq<Byte>>)
    ensures forall i :: 0 <= i < |r| ==> IsFrame(r[i])
    decreases |s|
  {
    if WholeFirst(s) then
      var n := HEADER_SIZE + Announced(s);
      [s[..n]] + Frames(s[n..])
    else []
  }

  /** What is left of a stream after its whole messages. */
  function Tail(s: seq<Byte>): (r: seq<Byte>)
    decreases |s|
  {
    if WholeFirst(s) then Tail(s[HEADER_SIZE + Announced(s)..]) else s
  }

  function Concat(fs: seq<seq<Byte>>): (r: seq<Byte>)
  {
    if fs == [] then [] else fs[0] + Concat(fs[1..])
  }

  lemma {:induction false} ConcatAppend(fs: seq<seq<Byte>>, gs: seq<seq<Byte>>)
    ensures Concat(fs + gs) == Concat(fs) + Concat(gs)
  {
    if fs == [] {
      assert fs + gs == gs;
    } else {
      ConcatAppend(fs[1..], gs);
      assert (fs + gs)[1..] == fs[1..] + gs;
      assert fs[0] + (Concat(fs[1..]) + Concat(gs)) == fs[0] + Concat(fs[1..]) + Concat(gs);
    }
  }

  lemma ConcatSnoc(fs: seq<seq<Byte>>, g: seq<Byte>)
    ensures Concat(fs + [g]) == Concat(fs) + g
  {
    ConcatAppend(fs, [g]);
    assert Concat([g]) == g + Concat([]);
  }

  lemma ConcatLast(fs: seq<seq<Byte>>, g: seq<Byte>)
    requires fs != []
    ensures Concat(fs[|fs| - 1 := fs[|fs| - 1] + g]) == Concat(fs) + g
  {
    var n := |fs| - 1;
    ConcatSnoc(fs[..n], fs[n]);
    ConcatSnoc(fs[..n], fs[n] + g);
    assert fs == fs[..n] + [fs[n]] && fs[n := fs[n] + g] == fs[..n] + [fs[n] + g];
  }

  lemma NoConcat()
    ensures Concat([]) == []
  {
  }

  lemma ConcatCons(f: seq<Byte>, fs: seq<seq<Byte>>, t: seq<Byte>)
    ensures Concat([f] + fs) + t == f + (Concat(fs) + t)
  {
    assert ([f] + fs)[1..] == fs;
  }

  /** Taking a stream apart loses nothing. */
  lemma {:induction false} FramesConcat(s: seq<Byte>)
    ensures Concat(Frames(s)) + Tail(s) == s
    decreases |s|
  {
    hide Concat, Announced;
    assert Concat([]) == [] by { NoConcat(); }
    if WholeFirst(s) {
      var n := HEADER_SIZE + Announced(s);
      FramesConcat(s[n..]);
      ConcatCons(s[..n], Frames(s[n..]), Tail(s[n..]));
    }
  }

  lemma AnnouncedPrefix(f: seq<Byte>, s: seq<Byte>)
    requires |f| >= HEADER_SIZE
    ensures Announced(f + s) == Announced(f)
  {
  }

  /** There is only one way to take a stream apart. */
  lemma {:induction false} FramesUnique(fs: seq<seq<Byte>>, p: seq<Byte>)
    requires forall i :: 0 <= i < |fs| ==> IsFrame(fs[i])
    requires Oversized(p) || IsPartial(p)
    ensures Frames(Concat(fs) + p) == fs && Tail(Concat(fs) + p) == p
  {
    if fs == [] {
      assert Concat(fs) + p == p;
    } else {
      var rest := Concat(fs[1..]) + p;
      assert Concat(fs) + p == fs[0] + rest;
      AnnouncedPrefix(fs[0], rest);
      assert (fs[0] + rest)[..|fs[0]|] == fs[0] && (fs[0] + rest)[|fs[0]|..] == rest;
      FramesUnique(fs[1..], p);
    }
  }

  /** A stream that is cut short has the same messages, as far as it goes. */
  lemma {:induction false} FramesPrefix(s: seq<Byte>, t: seq<Byte>)
    requires s <= t
    ensures Frames(s) <= Frames(t)
    decreases |s|
  {
    if WholeFirst(s) {
      var n := HEADER_SIZE + Announced(s);
      assert t == s + t[|s|..];
      AnnouncedPrefix(s, t[|s|..]);
      FramesPrefix(s[n..], t[n..]);
      assert s[..n] == t[..n];
    }
  }

  //////////////////////////////////////////////////////////////////////////////
  // Receiving
  //////////////////////////////////////////////////////////////////////////////

  /** Copies n bytes over a buffer, from a position on. */
  function Overwritten(buf: seq<Byte>, at: nat, pch: seq<Byte>): (r: seq<Byte>)
    requires at + |pch| <= |buf|
    ensures |r| == |buf| && r[..at + |pch|] == buf[..at] + pch
  {
    buf[..at] + pch + buf[at + |pch|..]
  }

  class NetMessage {
    var in_data: bool
    var hdrbuf: seq<Byte>
    var nMessageSize: nat
    var nHdrPos: nat
    var vRecv: seq<Byte>
    var nDataPos: nat

    /** The buffer grows with the data, and never past what was announced. */
    ghost predicate Valid()
      reads this
    {
      && |hdrbuf| == HEADER_SIZE
      && (!in_data ==> nHdrPos < HEADER_SIZE && nDataPos == 0 && vRecv == [])
      && (in_data ==>
            && nHdrPos == HEADER_SIZE && nMessageSize == Announced(hdrbuf) <= MAX_PROTOCOL_MESSAGE_LENGTH
            && nDataPos <= |vRecv| <= nMessageSize && |vRecv| <= nDataPos + 262144)
    }

    /** The bytes of the message received so far. */
    ghost function Content(): (r: seq<Byte>)
      requires Valid()
      reads this
    {
      hdrbuf[..nHdrPos] + vRecv[..nDataPos]
    }

    constructor ()
      ensures Valid() && Content() == [] && !Complete()
    {
      in_data, nMessageSize, nHdrPos, vRecv, nDataPos := false, 0, 0, [], 0;
      hdrbuf := seq(HEADER_SIZE, _ => 0);
    }

    predicate Complete()
      reads this
    {
      in_data && nMessageSize == nDataPos
    }

    /** A message is complete exactly when its bytes are a whole message. */
    lemma CompleteExact()
      requires Valid()
      ensures Complete() <==> IsFrame(Content())
      ensures !Complete() ==> IsPartial(Content())
    {
      if in_data {
        assert hdrbuf[..nHdrPos] == hdrbuf;
        AnnouncedPrefix(hdrbuf, vRecv[..nDataPos]);
      }
    }

    /** Takes in header bytes; a header that announces too much is refused. */
    method ReadHeader(pch: seq<Byte>) returns (handled: int)
      requires Valid() && !in_data && pch != []
      modifies this
      ensures var n := if |pch| < HEADER_SIZE - old(nHdrPos) then |pch| else HEADER_SIZE - old(nHdrPos);
        && |hdrbuf| == HEADER_SIZE && nHdrPos == old(nHdrPos) + n && nDataPos == 0 && vRecv == []
        && hdrbuf[..nHdrPos] == old(hdrbuf[..nHdrPos]) + pch[..n]
        && (handled < 0 <==> nHdrPos == HEADER_SIZE && Announced(hdrbuf) > 33554432)
        && (handled >= 0 ==> handled == n > 0 && in_data == (nHdrPos == HEADER_SIZE))
      ensures nHdrPos == HEADER_SIZE ==> nMessageSize == Announced(hdrbuf)
    {
      var nRemaining := HEADER_SIZE - nHdrPos;
      var nCopy := if |pch| < nRemaining then |pch| else nRemaining;
      hdrbuf := Overwritten(hdrbuf, nHdrPos, pch[..nCopy]);
      nHdrPos := nHdrPos + nCopy;
      if nHdrPos < HEADER_SIZE {
        return nCopy;
      }
      nMessageSize := Announced(hdrbuf);
      if nMessageSize > MAX_SIZE {
        return -1;
      }
      in_data := true;
      return nCopy;
    }

    /** Takes in payload bytes, at least one. */
    method ReadData(pch: seq<Byte>) returns (handled: int)
      requires Valid() && in_data && !Complete() && pch != []
      modifies this
      ensures Valid() && in_data && 0 < handled <= |pch| && Content() == old(Content()) + pch[..handled]
    {
      var nRemaining := nMessageSize - nDataPos;
      var nCopy := if |pch| < nRemaining then |pch| else nRemaining;
      if |vRecv| < nDataPos + nCopy {
        var n := if nMessageSize < nDataPos + nCopy + AHEAD then nMessageSize else nDataPos + nCopy + AHEAD;
        vRecv := vRecv + seq(n - |vRecv|, _ => 0);
      }
      vRecv := Overwritten(vRecv, nDataPos, pch[..nCopy]);
      nDataPos := nDataPos + nCopy;
      return nCopy;
    }

    /** One step of absorbing: progress, or a header that announces too much. */
    method Absorb(pch: seq<Byte>) returns (handled: int)
      requires Valid() && !Complete() && pch != []
      modifies this
      ensures handled >= 0 ==> Valid() && 0 < handled <= |pch| && Content() == old(Content()) + pch[..handled]
      ensures handled < 0 ==> Oversized(old(Content()) + pch) && !Complete()
    {
      if !in_data {
        ghost var was := Content();
        assert was == hdrbuf[..nHdrPos];
        handled := ReadHeader(pch);
        if nHdrPos == HEADER_SIZE && nMessageSize > MAX_PROTOCOL_MESSAGE_LENGTH {
          ghost var n := HEADER_SIZE - |was|;
          assert hdrbuf == hdrbuf[..nHdrPos] && pch == pch[..n] + pch[n..];
          assert was + pch == hdrbuf + pch[n..];
          AnnouncedPrefix(hdrbuf, pch[n..]);
          return -1;
        }
        assert vRecv[..nDataPos] == [];
      } else {
        handled := ReadData(pch);
      }
    }
  }

  class Receiver {
    var vRecvMsg: seq<NetMessage>
    ghost var contents: seq<seq<Byte>>   // the bytes in each of the messages

    ghost predicate Valid()
      reads this, vRecvMsg
    {
      && |contents| == |vRecvMsg|
      && (forall i, j :: 0 <= i < j < |vRecvMsg| ==> vRecvMsg[i] != vRecvMsg[j])
      && (forall i :: 0 <= i < |vRecvMsg| ==> vRecvMsg[i].Valid() && vRecvMsg[i].Content() == contents[i])
      && (forall i :: 0 <= i < |vRecvMsg| - 1 ==> vRecvMsg[i].Complete())
    }

    /** The state that a refused message leaves: the messages before it are as they were. */
    ghost predicate Dropped()
      reads this, vRecvMsg
    {
      && |vRecvMsg| == |contents| + 1 && !vRecvMsg[|contents|].Complete()
      && (forall i, j :: 0 <= i < j < |vRecvMsg| ==> vRecvMsg[i] != vRecvMsg[j])
      && (forall i :: 0 <= i < |contents| ==> vRecvMsg[i].Valid() && vRecvMsg[i].Content() == contents[i] && vRecvMsg[i].Complete())
    }

    /** The complete messages, whether or not the connection is still there. */
    ghost function Received(): (r: seq<seq<Byte>>)
      requires Valid() || Dropped()
      reads this, vRecvMsg
    {
      if Dropped() then contents else Whole()
    }

    /** Everything received so far. */
    ghost function Stream(): (r: seq<Byte>)
      reads this
    {
      Concat(contents)
    }

    /** The messages that are complete. */
    ghost function Whole(): (r: seq<seq<Byte>>)
      requires Valid()
      reads this, vRecvMsg
    {
      if contents != [] && !vRecvMsg[|contents| - 1].Complete() then contents[..|contents| - 1] else contents
    }

    constructor ()
      ensures Valid() && Stream() == [] && vRecvMsg == []
    {
      vRecvMsg, contents := [], [];
    }

    lemma NotDropped()
      requires Valid()
      ensures !Dropped()
    {
    }

    lemma WholeAreFrames()
      requires Valid()
      ensures forall i :: 0 <= i < |Whole()| ==> IsFrame(Whole()[i])
      ensures contents != Whole() ==> contents == Whole() + [contents[|contents| - 1]] && IsPartial(contents[|contents| - 1])
    {
      forall i | 0 <= i < |contents| ensures vRecvMsg[i].Complete() ==> IsFrame(contents[i]) {
        vRecvMsg[i].CompleteExact();
      }
      if contents != Whole() {
        vRecvMsg[|contents| - 1].CompleteExact();
      }
    }

    /** The complete messages are those that the received bytes spell, however they were cut into chunks. */
    lemma Parsed()
      requires Valid()
      ensures Frames(Stream()) == Whole() && IsPartial(Tail(Stream()))
    {
      WholeAreFrames();
      if contents == Whole() {
        FramesUnique(contents, []);
        assert Stream() + [] == Stream();
      } else {
        ConcatSnoc(Whole(), contents[|contents| - 1]);
        FramesUnique(Whole(), contents[|contents| - 1]);
      }
    }

    /** Gets the current incomplete message, or begins a new one. */
    method Current() returns (msg: NetMessage)
      requires Valid()
      modifies this
      ensures Valid() && Stream() == old(Stream()) && vRecvMsg != [] && msg == vRecvMsg[|vRecvMsg| - 1] && !msg.Complete()
      ensures forall i :: 0 <= i < |vRecvMsg| ==> vRecvMsg[i] in old(vRecvMsg) || fresh(vRecvMsg[i])
    {
      if |vRecvMsg| == 0 || vRecvMsg[|vRecvMsg| - 1].Complete() {
        msg := new NetMessage();
        vRecvMsg, contents := vRecvMsg + [msg], contents + [[]];
        ConcatSnoc(old(contents), []);
      } else {
        msg := vRecvMsg[|vRecvMsg| - 1];
      }
    }

    lemma OversizedHere(pch: seq<Byte>)
      requires Valid() && contents != [] && !vRecvMsg[|contents| - 1].Complete()
      requires Oversized(contents[|contents| - 1] + pch)
      ensures Oversized(Tail(Stream() + pch)) && Frames(Stream() + pch) == contents[..|contents| - 1]
    {
      hide Concat, Announced, Tail, Frames;
      var last := contents[|contents| - 1];
      WholeAreFrames();
      ConcatSnoc(Whole(), last);
      FramesUnique(Whole(), last + pch);
      assert Concat(Whole()) + (last + pch) == Stream() + pch;
    }

    method Step(pch: seq<Byte>) returns (handled: int)
      requires Valid() && pch != []
      modifies this, vRecvMsg
      ensures handled >= 0 ==> Valid() && 0 < handled <= |pch| && Stream() == old(Stream()) + pch[..handled]
      ensures handled < 0 ==> Oversized(Tail(old(Stream()) + pch)) && Dropped() && contents == Frames(old(Stream()) + pch)
      ensures forall i :: 0 <= i < |vRecvMsg| ==> vRecvMsg[i] in old(vRecvMsg) || fresh(vRecvMsg[i])
    {
      hide Concat, Announced, Tail, Oversized, NetMessage.Complete, NetMessage.Content, NetMessage.Valid, Frames, Whole;
      var msg := Current();
      ghost var n := |contents| - 1;
      ghost var was := contents;
      if Oversized(was[n] + pch) {
        OversizedHere(pch);
      }
      assert vRecvMsg[n] == msg;
      handled := msg.Absorb(pch);
      if handled >= 0 {
        contents := was[n := was[n] + pch[..handled]];
        ConcatLast(was, pch[..handled]);
      } else {
        contents := was[..n];
      }
    }

    /** Takes in a chunk; the connection is dropped exactly when some header announces too much. */
    method ReceiveMsgBytes(pch: seq<Byte>) returns (ok: bool)
      requires Valid()
      modifies this, vRecvMsg
      ensures ok <==> !Oversized(Tail(old(Stream()) + pch))
      ensures ok ==> Valid() && Stream() == old(Stream()) + pch && Whole() == Frames(old(Stream()) + pch)
      ensures !ok ==> Dropped() && contents == Frames(old(Stream()) + pch)
      ensures forall i :: 0 <= i < |vRecvMsg| ==> vRecvMsg[i] in old(vRecvMsg) || fresh(vRecvMsg[i])
    {
      var k := 0;
      assert pch[..0] == [];
      while k < |pch|
        invariant 0 <= k <= |pch| && Valid() && Stream() == old(Stream()) + pch[..k]
        invariant forall i :: 0 <= i < |vRecvMsg| ==> vRecvMsg[i] in old(vRecvMsg) || fresh(vRecvMsg[i])
      {
        assert Stream() + pch[k..] == old(Stream()) + pch;
        var handled := Step(pch[k..]);
        if handled < 0 {
          return false;
        }
        assert pch[k..][..handled] == pch[k..k + handled];
        assert pch[..k + handled] == pch[..k] + pch[k..k + handled];
        k := k + handled;
      }
      assert pch[..k] == pch;
      Parsed();
      return true;
    }
  }

  //////////////////////////////////////////////////////////////////////////////
  // Sending
  //////////////////////////////////////////////////////////////////////////////

  /** The first four bytes of the hash of a payload. */
  type Checksum = seq<Byte> -> (Byte, Byte, Byte, Byte)

  /** The last four bytes of the header are the checksum of the payload. */
  predicate Checksummed(f: seq<Byte>, checksum: Checksum) {
    |f| >= HEADER_SIZE && (f[20], f[21], f[22], f[23]) == checksum(f[HEADER_SIZE..])
  }

  /** A message buffer with its size, least significant byte first, and its checksum filled in. */
  function Stamped(ss: seq<Byte>, checksum: Checksum): (r: seq<Byte>)
    requires |ss| >= HEADER_SIZE
    ensures |r| == |ss| && r[..MESSAGE_SIZE_OFFSET] == ss[..MESSAGE_SIZE_OFFSET] && r[HEADER_SIZE..] == ss[HEADER_SIZE..]
    ensures var b0: int, b1: int, b2: int, b3: int := r[16], r[17], r[18], r[19];
      b0 + 0x100 * b1 + 0x1_0000 * b2 + 0x100_0000 * b3 == (|ss| - HEADER_SIZE) % 0x1_0000_0000
    ensures (r[20], r[21], r[22], r[23]) == checksum(r[HEADER_SIZE..]) && Checksummed(r, checksum)
    ensures |ss| - HEADER_SIZE <= MAX_PROTOCOL_MESSAGE_LENGTH ==> IsFrame(r)
    ensures IsMessage(r) <==> |ss| - HEADER_SIZE < 0x1_0000_0000
    ensures Announced(r) == (|ss| - HEADER_SIZE) % 0x1_0000_0000
  {
    var c := checksum(ss[HEADER_SIZE..]);
    var size := WriteLE32((|ss| - HEADER_SIZE) % 0x1_0000_0000);
    var r := ss[..MESSAGE_SIZE_OFFSET] + size + [c.0, c.1, c.2, c.3] + ss[HEADER_SIZE..];
    assert Announced(r) == ReadLE32(size, 0);
    assert r[HEADER_SIZE..] == ss[HEADER_SIZE..];
    r
  }

  /** How many bytes of the queue go out if the calls accept so many each, and whether the last one fails. */
  function Taken(msgs: seq<seq<Byte>>, offset: nat, sends: seq<int>): (int, bool)
    decreases |msgs|
  {
    if msgs == [] || sends == [] || sends[0] == 0 then (0, false)
    else if sends[0] < 0 then (0, true)
    else if sends[0] < |msgs[0]| - offset then (sends[0], false)
    else
      var more := Taken(msgs[1..], 0, sends[1..]);
      (|msgs[0]| - offset + more.0, more.1)
  }

  class Sender {
    const checksum: Checksum
    var vSendMsg: seq<seq<Byte>>
    var nSendOffset: nat
    var nSendSize: int
    var wire: seq<Byte>               // what the socket has accepted
    ghost var done: seq<seq<Byte>>    // the messages that have been sent

    ghost function Queued(): (r: seq<seq<Byte>>)
      reads this
    {
      done + vSendMsg
    }

    ghost predicate Valid()
      reads this
    {
      && (forall i :: 0 <= i < |vSendMsg| ==> |vSendMsg[i]| >= HEADER_SIZE)
      && nSendSize == |Concat(vSendMsg)|
      && SentTo(done, vSendMsg, nSendOffset, wire)
    }

    constructor (checksum: Checksum)
      ensures Valid() && Queued() == [] && wire == [] && this.checksum == checksum
    {
      this.checksum := checksum;
      vSendMsg, nSendOffset, nSendSize, wire, done := [], 0, 0, [], [];
    }

    /** Sends as much as the socket takes; sends lists how many bytes each call accepts, or an error. */
    method SocketSendData(sends: seq<int>) returns (failed: bool)
      requires Valid()
      modifies this
      ensures Valid() && Queued() == old(Queued()) && old(wire) <= wire
      ensures vSendMsg == [] ==> wire == Concat(Queued()) && nSendSize == 0
      ensures (|wire| - |old(wire)|, failed) == Taken(old(vSendMsg), old(nSendOffset), sends)
    {
      hide SentTo, Concat, Taken;
      failed := false;
      var it, call := 0, 0;
      ghost var all := Taken(vSendMsg, nSendOffset, sends);
      AtStart(done, vSendMsg, nSendOffset, wire, nSendSize);
      assert vSendMsg[0..] == vSendMsg && sends[0..] == sends;
      while it < |vSendMsg|
        invariant 0 <= it <= |vSendMsg| && vSendMsg == old(vSendMsg) && done == old(done) && old(wire) <= wire
        invariant call <= |sends| && !failed && Goes(|wire| - |old(wire)|, vSendMsg[it..], nSendOffset, sends[call..], all)
        invariant SendingAt(done, vSendMsg, it, nSendOffset, wire, nSendSize)
        decreases |vSendMsg| - it
      {
        var data := vSendMsg[it];
        AtMessage(done, vSendMsg, it, nSendOffset, wire, nSendSize);
        assert |data| > nSendOffset;
        GoesOn(|wire| - |old(wire)|, vSendMsg[it..], nSendOffset, sends[call..], all);
        assert vSendMsg[it..][1..] == vSendMsg[it + 1..] && (call < |sends| ==> sends[call..][1..] == sends[call + 1..]);
        var nBytes := if call < |sends| then sends[call] else 0;
        call := call + 1;
        nBytes := if nBytes < |data| - nSendOffset then nBytes else |data| - nSendOffset;
        if nBytes > 0 {
          AtMore(done, vSendMsg, it, nSendOffset, wire, nSendSize, nBytes);
          wire := wire + data[nSendOffset..nSendOffset + nBytes];
          nSendOffset := nSendOffset + nBytes;
          if nSendOffset == |data| {
            nSendOffset := 0;
            nSendSize := nSendSize - |data|;
            it := it + 1;
          } else {
            break;
          }
        } else {
          failed := nBytes < 0;
          break;
        }
      }
      if it == |vSendMsg| {
        AtEnd(done, vSendMsg, nSendOffset, wire, nSendSize);
        GoesNoFurther(nSendOffset, sends[call..]);
        assert nSendOffset == 0;
        assert nSendSize == 0;
      }
      done, vSendMsg := done + vSendMsg[..it], vSendMsg[it..];
      assert done + vSendMsg == old(done) + old(vSendMsg);
    }

    /** Stamps and queues a message; if nothing was waiting, tries to send at once. */
    method EndMessage(ssSend: seq<Byte>, sends: seq<int>) returns (failed: bool)
      requires Valid() && (ssSend == [] || |ssSend| >= HEADER_SIZE)
      modifies this
      ensures Valid() && old(wire) <= wire
      ensures Queued() == if ssSend == [] then old(Queued()) else old(Queued()) + [Stamped(ssSend, checksum)]
      ensures (|wire| - |old(wire)|, failed) ==
        if ssSend == [] || old(vSendMsg) != [] then (0, false) else Taken([Stamped(ssSend, checksum)], 0, sends)
    {
      failed := false;
      if |ssSend| == 0 {
        return;
      }
      var frame := Stamped(ssSend, checksum);
      ConcatSnoc(vSendMsg, frame);
      vSendMsg := vSendMsg + [frame];
      nSendSize := nSendSize + |frame|;
      assert done + vSendMsg == old(Queued()) + [frame];
      if |vSendMsg| == 1 {
        assert vSendMsg == [frame];
        failed := SocketSendData(sends);
      }
    }
  }

  /** With so many bytes gone out, what the queue and the calls still have makes up the rest. */
  ghost predicate Goes(gone: int, msgs: seq<seq<Byte>>, offset: nat, sends: seq<int>, all: (int, bool)) {
    var more := Taken(msgs, offset, sends);
    gone + more.0 == all.0 && more.1 == all.1
  }

  lemma GoesNoFurther(offset: nat, sends: seq<int>)
    ensures Taken([], offset, sends) == (0, false)
  {
  }

  lemma GoesOn(gone: int, msgs: seq<seq<Byte>>, offset: nat, sends: seq<int>, all: (int, bool))
    requires Goes(gone, msgs, offset, sends, all) && msgs != [] && offset < |msgs[0]|
    ensures var n := if sends == [] then 0 else sends[0];
      if n <= 0 then all == (gone, n < 0)
      else if n < |msgs[0]| - offset then all == (gone + n, false)
      else Goes(gone + |msgs[0]| - offset, msgs[1..], 0, sends[1..], all)
  {
  }

  /** Part of the way through the queue: the messages before it are sent, the sizes of the rest are counted. */
  ghost predicate SendingAt(done: seq<seq<Byte>>, msgs: seq<seq<Byte>>, it: nat, offset: nat, wire: seq<Byte>, size: int) {
    && it <= |msgs| && (forall i :: 0 <= i < |msgs| ==> |msgs[i]| >= HEADER_SIZE)
    && size == |Concat(msgs[it..])| && SentTo(done + msgs[..it], msgs[it..], offset, wire)
  }

  lemma AtStart(done: seq<seq<Byte>>, msgs: seq<seq<Byte>>, offset: nat, wire: seq<Byte>, size: int)
    requires forall i :: 0 <= i < |msgs| ==> |msgs[i]| >= HEADER_SIZE
    requires size == |Concat(msgs)| && SentTo(done, msgs, offset, wire)
    ensures SendingAt(done, msgs, 0, offset, wire, size)
  {
    assert done + msgs[..0] == done && msgs[0..] == msgs;
  }

  lemma AtMessage(done: seq<seq<Byte>>, msgs: seq<seq<Byte>>, it: nat, offset: nat, wire: seq<Byte>, size: int)
    requires SendingAt(done, msgs, it, offset, wire, size) && it < |msgs|
    ensures offset < |msgs[it]|
  {
  }

  lemma AtMore(done: seq<seq<Byte>>, msgs: seq<seq<Byte>>, it: nat, offset: nat, wire: seq<Byte>, size: int, n: nat)
    requires SendingAt(done, msgs, it, offset, wire, size) && it < |msgs| && offset + n <= |msgs[it]|
    ensures var wire' := wire + msgs[it][offset..offset + n];
      if offset + n < |msgs[it]| then SendingAt(done, msgs, it, offset + n, wire', size)
      else SendingAt(done, msgs, it + 1, 0, wire', size - |msgs[it]|)
  {
    SentMore(done + msgs[..it], msgs[it..], offset, wire, n);
    assert done + msgs[..it] + [msgs[it]] == done + msgs[..it + 1];
    assert msgs[it..][1..] == msgs[it + 1..];
  }

  lemma AtEnd(done: seq<seq<Byte>>, msgs: seq<seq<Byte>>, offset: nat, wire: seq<Byte>, size: int)
    requires SendingAt(done, msgs, |msgs|, offset, wire, size)
    ensures offset == 0 && size == 0 && wire == Concat(done + msgs)
  {
    assert msgs[|msgs|..] == [] && msgs[..|msgs|] == msgs;
  }

  /** The wire has the messages that are done, and the next one up to an offset inside it. */
  ghost predicate SentTo(done: seq<seq<Byte>>, waiting: seq<seq<Byte>>, offset: nat, wire: seq<Byte>) {
    if waiting == [] then offset == 0 && wire == Concat(done)
    else offset < |waiting[0]| && wire == Concat(done) + waiting[0][..offset]
  }

  lemma SentMore(done: seq<seq<Byte>>, waiting: seq<seq<Byte>>, offset: nat, wire: seq<Byte>, n: nat)
    requires SentTo(done, waiting, offset, wire) && waiting != [] && offset + n <= |waiting[0]|
    requires forall i :: 0 <= i < |waiting| ==> waiting[i] != []
    ensures offset + n < |waiting[0]| ==> SentTo(done, waiting, offset + n, wire + waiting[0][offset..offset + n])
    ensures offset + n == |waiting[0]| ==> SentTo(done + [waiting[0]], waiting[1..], 0, wire + waiting[0][offset..offset + n])
  {
    var data := waiting[0];
    assert data[..offset + n] == data[..offset] + data[offset..offset + n];
    ConcatSnoc(done, data);
    assert data[..|data|] == data;
  }

  //////////////////////////////////////////////////////////////////////////////
  // End to end
  //////////////////////////////////////////////////////////////////////////////

  /** A message as it is stamped: it has at least what it announces, and more only if its size wraps. */
  predicate IsStamped(f: seq<Byte>) {
    |f| >= HEADER_SIZE && HEADER_SIZE + Announced(f) <= |f|
  }

  predicate AllStamped(queued: seq<seq<Byte>>) {
    forall i :: 0 <= i < |queued| ==> IsStamped(queued[i])
  }

  /** All messages up to the first that a receiver refuses are of the size they announce. */
  predicate Carries(queued: seq<seq<Byte>>) {
    queued == [] || Oversized(queued[0]) || (IsMessage(queued[0]) && Carries(queued[1..]))
  }

  /**
   A part of a stream of messages spells the first of them; where it comes to one of more than the
   admitted size, it spells exactly those before.
   */
  lemma {:induction false} MessagesPrefix(queued: seq<seq<Byte>>, got: seq<Byte>)
    requires AllStamped(queued) && Carries(queued) && got <= Concat(queued)
    ensures Frames(got) <= queued
    ensures Oversized(Tail(got)) ==> |Frames(got)| < |queued| && Oversized(queued[|Frames(got)|])
  {
    hide Frames, Tail, Concat, Announced;
    FirstOf(got);
    if queued == [] {
      NoConcat();
    } else if |got| >= HEADER_SIZE {
      var t := Concat(queued);
      assert t == queued[0] + Concat(queued[1..]) by { ConcatFirst(queued); }
      assert t == got + t[|got|..];
      AnnouncedPrefix(got, t[|got|..]);
      AnnouncedPrefix(queued[0], Concat(queued[1..]));
      if WholeFirst(got) {
        var n := HEADER_SIZE + Announced(got);
        assert t[n..] == Concat(queued[1..]) && got[..n] == queued[0];
        MessagesPrefix(queued[1..], got[n..]);
      }
    }
  }

  lemma PrefixRest(f: seq<Byte>, fs: seq<seq<Byte>>, queued: seq<seq<Byte>>)
    requires queued != []
    ensures [f] + fs <= queued ==> fs <= queued[1..]
  {
    assert ([f] + fs)[1..] == fs;
  }

  /** Otherwise the whole stream is taken for other messages. */
  lemma {:induction false} NotCarried(queued: seq<seq<Byte>>)
    requires AllStamped(queued) && !Carries(queued)
    ensures !(Frames(Concat(queued)) <= queued)
  {
    hide Frames, Tail, Concat, Announced;
    var t := Concat(queued);
    assert t == queued[0] + Concat(queued[1..]) by { ConcatFirst(queued); }
    AnnouncedPrefix(queued[0], Concat(queued[1..]));
    FirstOf(t);
    var n := HEADER_SIZE + Announced(t);
    if IsMessage(queued[0]) {
      assert t[n..] == Concat(queued[1..]);
      NotCarried(queued[1..]);
      PrefixRest(t[..n], Frames(t[n..]), queued);
    } else {
      assert |t[..n]| != |queued[0]|;
    }
  }

  /** Every part of the stream spells the first of the queued messages exactly if sizes do not wrap before a refusal. */
  lemma CarriesExact(queued: seq<seq<Byte>>)
    requires AllStamped(queued)
    ensures (forall got :: got <= Concat(queued) ==> Frames(got) <= queued) <==> Carries(queued)
  {
    hide Frames, Concat, Carries, AllStamped;
    if Carries(queued) {
      forall got | got <= Concat(queued) ensures Frames(got) <= queued {
        MessagesPrefix(queued, got);
      }
    } else {
      NotCarried(queued);
    }
  }

  lemma ConcatFirst(fs: seq<seq<Byte>>)
    requires fs != []
    ensures Concat(fs) == fs[0] + Concat(fs[1..])
  {
  }

  lemma FirstOf(s: seq<Byte>)
    ensures if WholeFirst(s) then
        && Frames(s) == [s[..HEADER_SIZE + Announced(s)]] + Frames(s[HEADER_SIZE + Announced(s)..])
        && Tail(s) == Tail(s[HEADER_SIZE + Announced(s)..])
      else Frames(s) == [] && Tail(s) == s
  {
    hide Announced;
  }

  /** What has been received of what has been sent of what was queued spells the first of the queued messages. */
  lemma EndToEnd(queued: seq<seq<Byte>>, wire: seq<Byte>, got: seq<Byte>)
    requires AllStamped(queued) && Carries(queued) && got <= wire <= Concat(queued)
    ensures Frames(got) <= queued
    ensures Oversized(Tail(got)) ==> Refused(Frames(got), queued)
    ensures got == Concat(queued) && !Oversized(Tail(got)) ==> Frames(got) == queued && Tail(got) == []
  {
    MessagesPrefix(queued, got);
    if got == Concat(queued) && !Oversized(Tail(got)) {
      AllThrough(queued);
    }
  }

  /** A whole stream of messages that is never refused spells all of them. */
  lemma {:induction false} AllThrough(queued: seq<seq<Byte>>)
    requires AllStamped(queued) && Carries(queued) && !Oversized(Tail(Concat(queued)))
    ensures Frames(Concat(queued)) == queued && Tail(Concat(queued)) == []
  {
    hide Frames, Tail, Concat, Announced;
    var t := Concat(queued);
    FirstOf(t);
    if queued == [] {
      NoConcat();
    } else {
      var rest := Concat(queued[1..]);
      assert t == queued[0] + rest by { ConcatFirst(queued); }
      AnnouncedPrefix(queued[0], rest);
      assert t[..|queued[0]|] == queued[0] && t[|queued[0]|..] == rest;
      AllThrough(queued[1..]);
    }
  }

  /** A message is delivered or refused as a whole exactly if its size fits 32 bits, or is too much modulo 2^32. */
  lemma WholeOrRefused(ss: seq<Byte>, checksum: Checksum)
    requires |ss| >= HEADER_SIZE
    ensures var f, n := Stamped(ss, checksum), |ss| - HEADER_SIZE;
      && IsStamped(f)
      && ((forall got :: got <= f ==> Frames(got) <= [f]) <==> n < 0x1_0000_0000 || n % 0x1_0000_0000 > 2097152)
  {
    hide Frames, Announced;
    var f := Stamped(ss, checksum);
    CarriesExact([f]);
    assert Concat([f]) == f;
    assert Carries([f]) <==> Oversized(f) || IsMessage(f);
  }

  /** A payload of 2^32 bytes announces none: its header alone is taken for a message. */
  lemma WrappedSizeSplits(ss: seq<Byte>, checksum: Checksum)
    requires |ss| == HEADER_SIZE + 0x1_0000_0000
    ensures Frames(Stamped(ss, checksum)) != [] && |Frames(Stamped(ss, checksum))[0]| == HEADER_SIZE
    ensures !(Frames(Stamped(ss, checksum)) <= [Stamped(ss, checksum)])
  {
  }

  lemma WireIsPrefix(done: seq<seq<Byte>>, waiting: seq<seq<Byte>>, offset: nat, wire: seq<Byte>)
    requires SentTo(done, waiting, offset, wire)
    ensures wire <= Concat(done + waiting)
  {
    ConcatAppend(done, waiting);
  }

  /** A message is queued, the sender's socket becomes writable, or some bytes arrive. */
  datatype Event = Queue(ssSend: seq<Byte>, sends: seq<int>) | Send(sends: seq<int>) | Arrive(n: nat)

  /** A message begins with its header. */
  predicate LegalEvent(e: Event) {
    e.Queue? ==> e.ssSend == [] || HEADER_SIZE <= |e.ssSend|
  }

  /** The receiver has taken in a part of what is on the wire, or has been dropped on coming to a message of more than the admitted size. */
  ghost predicate Linked(s: Sender, r: Receiver, got: seq<Byte>, dropped: bool)
    reads s, r, r.vRecvMsg
  {
    && s.Valid() && got <= s.wire
    && if dropped then r.Dropped() && r.contents == Frames(got) && Oversized(Tail(got)) else r.Valid() && r.Stream() == got
  }

  /** Everything up to a message of more than the admitted size, and nothing from there on. */
  predicate Refused(got: seq<seq<Byte>>, queued: seq<seq<Byte>>) {
    got <= queued && |got| < |queued| && Oversized(queued[|got|])
  }

  /** The messages queued by a run, in order. */
  function QueuedBy(events: seq<Event>, checksum: Checksum): (r: seq<seq<Byte>>)
    requires forall i :: 0 <= i < |events| ==> LegalEvent(events[i])
    ensures AllStamped(r) && forall i :: 0 <= i < |r| ==> Checksummed(r[i], checksum)
  {
    if events == [] then []
    else
      var e := events[|events| - 1];
      assert LegalEvent(e);
      QueuedBy(events[..|events| - 1], checksum) + if e.Queue? && e.ssSend != [] then [Stamped(e.ssSend, checksum)] else []
  }

  method Deliver(s: Sender, r: Receiver, ghost got: seq<Byte>, at: nat, n: nat) returns (ghost got': seq<Byte>, at': nat, ok: bool)
    requires Linked(s, r, got, false) && at == |got|
    modifies r, r.vRecvMsg
    ensures Linked(s, r, got', !ok) && at' == |got'| && got' == s.wire[..if at + n < |s.wire| then at + n else |s.wire|]
    ensures forall i :: 0 <= i < |r.vRecvMsg| ==> r.vRecvMsg[i] in old(r.vRecvMsg) || fresh(r.vRecvMsg[i])
  {
    hide Concat, SentTo, Receiver.Valid, Frames, Receiver.Dropped, Oversized;
    at' := if at + n < |s.wire| then at + n else |s.wire|;
    got' := s.wire[..at'];
    var pch := s.wire[at..at'];
    assert got + pch == got';
    ok := r.ReceiveMsgBytes(pch);
  }

  function Queues(e: Event, checksum: Checksum): seq<seq<Byte>>
    requires LegalEvent(e)
  {
    if e.Queue? && e.ssSend != [] then [Stamped(e.ssSend, checksum)] else []
  }

  lemma QueuedNext(events: seq<Event>, i: nat, checksum: Checksum)
    requires i < |events| && forall j :: 0 <= j < |events| ==> LegalEvent(events[j])
    ensures QueuedBy(events[..i + 1], checksum) == QueuedBy(events[..i], checksum) + Queues(events[i], checksum)
  {
    hide Stamped;
    assert events[..i + 1][..i] == events[..i];
  }

  method RunStep(s: Sender, r: Receiver, e: Event, ghost got: seq<Byte>, at: nat, dropped: bool)
    returns (ghost got': seq<Byte>, at': nat, dropped': bool)
    requires Linked(s, r, got, dropped) && at == |got| && LegalEvent(e)
    modifies s, r, r.vRecvMsg
    ensures Linked(s, r, got', dropped') && at' == |got'| && (dropped ==> dropped')
    ensures s.Queued() == old(s.Queued()) + Queues(e, s.checksum)
    ensures forall i :: 0 <= i < |r.vRecvMsg| ==> r.vRecvMsg[i] in old(r.vRecvMsg) || fresh(r.vRecvMsg[i])
  {
    hide Concat, SentTo, Receiver.Valid, Frames, Receiver.Dropped, Oversized;
    got', at', dropped' := got, at, dropped;
    match e {
      case Queue(ssSend, sends) =>
        var failed := s.EndMessage(ssSend, sends);
      case Send(sends) =>
        var failed := s.SocketSendData(sends);
      case Arrive(n) =>
        if !dropped {
          var ok;
          got', at', ok := Deliver(s, r, got, at, n);
          dropped' := !ok;
        }
    }
    assert old(s.Queued()) + [] == old(s.Queued());
  }

  /**
   Under any short writes and any chunking, the receiver has the messages that a part of the sent stream
   spells, and drops the connection exactly where that comes to a message of more than the admitted size.
   Unless sizes wrap, these are the first of the queued messages: all of them once all has arrived, or
   those before the refused one.
   */
  method Run(events: seq<Event>, checksum: Checksum) returns (s: Sender, r: Receiver, ghost got: seq<Byte>, dropped: bool)
    requires forall i :: 0 <= i < |events| ==> LegalEvent(events[i])
    ensures s.Valid() && s.Queued() == QueuedBy(events, checksum) && got <= s.wire <= Concat(QueuedBy(events, checksum))
    ensures (if dropped then r.Dropped() else r.Valid()) && r.Received() == Frames(got) && (dropped <==> Oversized(Tail(got)))
    ensures Carries(QueuedBy(events, checksum)) ==>
      && r.Received() <= QueuedBy(events, checksum)
      && (dropped ==> Refused(r.Received(), QueuedBy(events, checksum)))
      && (!dropped && s.vSendMsg == [] && got == s.wire ==> r.Received() == QueuedBy(events, checksum))
      && forall i :: 0 <= i < |r.Received()| ==> Checksummed(r.Received()[i], checksum)
    ensures s.vSendMsg == [] && got == s.wire ==> (r.Received() <= QueuedBy(events, checksum) <==> Carries(QueuedBy(events, checksum)))
  {
    hide Concat, SentTo, Receiver.Valid, AllStamped, Carries, Frames, Receiver.Dropped, Oversized;
    s := new Sender(checksum);
    r := new Receiver();
    got, dropped := [], false;
    var at := 0;
    for i := 0 to |events|
      invariant fresh(s) && fresh(r) && fresh(r.vRecvMsg) && s.checksum == checksum
      invariant Linked(s, r, got, dropped) && at == |got| && s.Queued() == QueuedBy(events[..i], checksum)
    {
      QueuedNext(events, i, checksum);
      got, at, dropped := RunStep(s, r, events[i], got, at, dropped);
    }
    assert events[..|events|] == events;
    WireIsPrefix(s.done, s.vSendMsg, s.nSendOffset, s.wire);
    if !dropped {
      r.Parsed();
      r.NotDropped();
      PartialNotOversized(Tail(got));
    }
    if s.vSendMsg == [] {
      AllSent(s.done, s.nSendOffset, s.wire);
    }
    if Carries(s.Queued()) {
      EndToEnd(s.Queued(), s.wire, got);
    } else {
      NotCarried(s.Queued());
    }
  }

  lemma PartialNotOversized(s: seq<Byte>)
    requires IsPartial(s)
    ensures !Oversized(s)
  {
  }

  lemma AllSent(done: seq<seq<Byte>>, offset: nat, wire: seq<Byte>)
    requires SentTo(done, [], offset, wire)
    ensures wire == Concat(done) == Concat(done + [])
  {
    assert done + [] == done;
  }
}
