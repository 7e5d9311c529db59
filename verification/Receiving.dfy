/** The receiving half of a session: bytes go into a fixed buffer, whole requests are framed at its
    front and moved out. */
module Receiving {
  import opened Bytes
  import opened Options
  import opened Framing
  import opened StringParsers

  const REQUEST_BUFF_SIZE := 16384

  /** One result of recv. */
  datatype Recv = Data(bytes: seq<Byte>) | Closed | Again | Failed

  /** The results recv would give to a caller with unlimited room, up to some that is not data. */
  type Results = rs: seq<Recv> | rs != [] && !rs[|rs| - 1].Data? witness [Closed]

  /** What a list of recv results delivers before the first that is not data. */
  function Delivered(rs: seq<Recv>): seq<Byte> {
    if rs == [] || !rs[0].Data? then [] else rs[0].bytes + Delivered(rs[1..])
  }

  /** The first result that is not data. */
  function Stop(rs: seq<Recv>): Recv
    requires rs != [] && !rs[|rs| - 1].Data?
  {
    if rs[0].Data? then Stop(rs[1..]) else rs[0]
  }

  /** As much of s as the buffer holds. */
  function Fitting(s: seq<Byte>): seq<Byte> {
    if |s| <= REQUEST_BUFF_SIZE then s else s[..REQUEST_BUFF_SIZE]
  }

  /** The socket is read until it has no more, with room left. */
  predicate ReadsAll(received: seq<Byte>, rs: Results) {
    Stop(rs) == Again && |received + Delivered(rs)| < REQUEST_BUFF_SIZE
  }

  function Datas(parts: seq<seq<Byte>>): seq<Recv> {
    if parts == [] then [] else [Data(parts[0])] + Datas(parts[1..])
  }

  /** Whatever parts arrive before the socket runs dry or fails: they are delivered in order, and the
      socket is read out exactly if it ran dry and less than 16384 bytes are in the buffer then. */
  lemma {:induction false} ReadsAllIff(received: seq<Byte>, parts: seq<seq<Byte>>, last: Recv)
    requires !last.Data?
    ensures var rs := Datas(parts) + [last];
      && !rs[|rs| - 1].Data? && Delivered(rs) == Joined(parts) && Stop(rs) == last
      && (ReadsAll(received, rs) <==> last == Again && |received| + |Joined(parts)| < 16384)
    decreases |parts|
  {
    var rs := Datas(parts) + [last];
    if parts == [] {
      assert rs == [last];
    } else {
      ReadsAllIff(received, parts[1..], last);
      assert rs[1..] == Datas(parts[1..]) + [last];
    }
  }

  /** What does not fit into 16384 bytes is not taken. */
  lemma FittingIs(s: seq<Byte>)
    ensures Fitting(s) <= s && |Fitting(s)| == if |s| < 16384 then |s| else 16384
  {
  }

  /** Nothing received is lost, and every request moved out or about to be is one whole frame. */
  ghost predicate Conserved(all: seq<Byte>, framed: seq<seq<Byte>>, received: seq<Byte>, requestLen: nat) {
    && requestLen <= |received|
    && Joined(framed) + received == all
    && (requestLen > 0 ==> Frame(received[..requestLen]) == Some(requestLen))
    && (forall f :: f in framed ==> f == [] || Frame(f) == Some(|f|))
  }

  lemma ReceiveConserves(all: seq<Byte>, framed: seq<seq<Byte>>, received: seq<Byte>, n: nat, more: seq<Byte>)
    requires Conserved(all, framed, received, n)
    ensures Conserved(all + more, framed, received + more, n)
  {
    hide Frame, Joined;
    assert (received + more)[..n] == received[..n];
    assert Joined(framed) + (received + more) == Joined(framed) + received + more;
  }

  lemma FrameConserves(all: seq<Byte>, framed: seq<seq<Byte>>, received: seq<Byte>, n: nat)
    requires Conserved(all, framed, received, n)
    ensures Conserved(all, framed, received, if Frame(received).Some? then Frame(received).value else 0)
  {
    if Frame(received).Some? { FramePrefix(received); }
  }

  lemma MoveConserves(all: seq<Byte>, framed: seq<seq<Byte>>, received: seq<Byte>, n: nat)
    requires Conserved(all, framed, received, n)
    ensures Conserved(all, framed + [received[..n]], received[n..], 0)
  {
    hide Frame, Joined;
    JoinedLast(framed, received[..n]);
    assert received == received[..n] + received[n..];
    assert Joined(framed) + (received[..n] + received[n..]) == Joined(framed) + received[..n] + received[n..];
  }

  class Receiver {
    const buffer: array<Byte>
    var receivedLen: nat
    var requestLen: nat
    /** How often RequestEvent(EVENT_READ) was called. */
    var asks: nat
    /** The bytes in the buffer; every byte received and every request moved out so far. */
    ghost var received: seq<Byte>
    ghost var all: seq<Byte>
    ghost var framed: seq<seq<Byte>>

    ghost predicate Valid()
      reads this, buffer
    {
      && buffer.Length == REQUEST_BUFF_SIZE
      && receivedLen == |received| <= buffer.Length
      && received == buffer[..receivedLen]
      && Conserved(all, framed, received, requestLen)
    }

    constructor ()
      ensures Valid() && received == all == [] && framed == [] && requestLen == asks == 0 && fresh(buffer)
    {
      buffer := new Byte[REQUEST_BUFF_SIZE];
      receivedLen, requestLen, asks := 0, 0, 0;
      received, all, framed := [], [], [];
    }

    /** recv into the free end of the buffer: as much of bytes as there is room for. */
    method Take(bytes: seq<Byte>) returns (n: nat)
      requires Valid()
      modifies this`receivedLen, this`received, this`all, buffer
      ensures Valid()
      ensures n == if |bytes| <= REQUEST_BUFF_SIZE - |old(received)| then |bytes|
                   else REQUEST_BUFF_SIZE - |old(received)|
      ensures received == old(received) + bytes[..n] && all == old(all) + bytes[..n]
    {
      hide Conserved;
      n := if |bytes| <= REQUEST_BUFF_SIZE - receivedLen then |bytes| else REQUEST_BUFF_SIZE - receivedLen;
      forall k | 0 <= k < n { buffer[receivedLen + k] := bytes[k]; }
      receivedLen := receivedLen + n;
      ReceiveConserves(all, framed, received, requestLen, bytes[..n]);
      received, all := received + bytes[..n], all + bytes[..n];
    }

    /** Reads until the socket has no more and then asks to be told when it has; the peer or a full
        buffer stops it before. */
    method RecvData(rs: Results) returns (ret: int)
      requires Valid()
      modifies this`receivedLen, this`received, this`all, this`asks, buffer
      ensures Valid() && requestLen == old(requestLen) && framed == old(framed)
      ensures asks == if ret == 0 then old(asks) + 1 else old(asks)
      ensures received == Fitting(old(received) + Delivered(rs))
      ensures old(received) <= received && all == old(all) + received[|old(received)|..]
      ensures ret == 0 <==> ReadsAll(old(received), rs)
      ensures ret == 0 || ret == -1
    {
      hide Conserved, Delivered, Stop, Fitting, Joined;
      var i := 0;
      ghost var got: seq<Byte> := [];
      ghost var target := received + Delivered(rs);
      assert rs[0..] == rs && received + got == received && all + got == all;
      while true
        invariant 0 <= i < |rs| && Valid() && requestLen == old(requestLen) && framed == old(framed)
        invariant received + Delivered(rs[i..]) == target && Stop(rs[i..]) == Stop(rs) && asks == old(asks)
        invariant received == old(received) + got && all == old(all) + got
        decreases |rs| - i
      {
        WhatFits(received, Delivered(rs[i..]));
        if REQUEST_BUFF_SIZE - receivedLen <= 0 {
          return -1;
        }
        RecvStep(received, rs, i);
        assert received + [] == received;
        match rs[i] {
          case Closed => return -1;
          case Again => asks := asks + 1; return 0;
          case Failed => return -1;
          case Data(bytes) =>
            ghost var had := received;
            var n := Take(bytes);
            got := got + bytes[..n];
            CutAt(had, bytes, n, Delivered(rs[i + 1..]));
            WhatFits(received, bytes[n..] + Delivered(rs[i + 1..]));
            if n < |bytes| {
              return -1;
            }
            assert bytes[n..] + Delivered(rs[i + 1..]) == Delivered(rs[i + 1..]);
            i := i + 1;
        }
      }
    }

    /** Sets requestLen to the length of the request at the front, if one is complete. */
    method IsFullRequest() returns (full: bool)
      requires Valid()
      modifies this`requestLen
      ensures Valid() && full == Frame(received).Some?
      ensures requestLen == if full then Frame(received).value else 0
    {
      hide Conserved, Frame;
      FrameConserves(all, framed, received, requestLen);
      requestLen := 0;
      var headerParser := new StringParser(buffer[..receivedLen]);
      full := ScanRequest(headerParser);
      if full {
        requestLen := headerParser.pos;
      }
    }

    method MoveDown(from: nat, n: nat)
      requires from + n <= buffer.Length
      modifies buffer
      ensures buffer[..n] == old(buffer[from..from + n])
    {
      forall k | 0 <= k < n { buffer[k] := buffer[from + k]; }
    }

    /** Moves what follows the request to the front of the buffer. */
    method MoveOnRequest()
      requires Valid()
      modifies this, buffer
      ensures Valid() && requestLen == 0 && all == old(all) && asks == old(asks)
      ensures framed == old(framed) + [old(received)[..old(requestLen)]]
      ensures received == old(received)[old(requestLen)..]
    {
      assert requestLen <= receivedLen;
      hide Conserved;
      MoveConserves(all, framed, received, requestLen);
      MoveDown(requestLen, receivedLen - requestLen);
      framed, received := framed + [received[..requestLen]], received[requestLen..];
      receivedLen, requestLen := receivedLen - requestLen, 0;
    }
  }

  /** IsFullRequest's loop: stops after the first end of line that another follows. */
  method ScanRequest(headerParser: StringParser) returns (full: bool)
    requires headerParser.pos == 0
    modifies headerParser`pos
    ensures full == Frame(headerParser.stream).Some?
    ensures full ==> headerParser.pos == Frame(headerParser.stream).value
  {
    hide Frame, Until, EolLen;
    ghost var s := headerParser.stream;
    assert headerParser.Rest() == s;
    while true
      invariant headerParser.Valid()
      invariant Plus(headerParser.pos, Frame(headerParser.Rest())) == Frame(s)
      decreases |s| - headerParser.pos
    {
      ghost var i, k := headerParser.pos, FrameTurn(s, headerParser.pos);
      FrameLoop(s, i);
      var _, more := headerParser.GetThruEOL();
      if !more {
        return false;
      }
      assert headerParser.pos == k && k > i && headerParser.Rest() == s[k..];
      var second := headerParser.ExpectEOL();
      if second {
        return true;
      }
    }
  }

  lemma WhatFits(received: seq<Byte>, more: seq<Byte>)
    ensures |received| == REQUEST_BUFF_SIZE ==> Fitting(received + more) == received && |received + more| >= REQUEST_BUFF_SIZE
    ensures |received| <= REQUEST_BUFF_SIZE && more == [] ==> Fitting(received + more) == received
  {
    assert received + [] == received;
  }

  lemma CutAt(had: seq<Byte>, bytes: seq<Byte>, n: nat, more: seq<Byte>)
    requires n <= |bytes|
    ensures had + bytes + more == (had + bytes[..n]) + (bytes[n..] + more)
  {
    assert bytes == bytes[..n] + bytes[n..];
  }

  lemma RecvStep(received: seq<Byte>, rs: seq<Recv>, i: nat)
    requires i < |rs| && !rs[|rs| - 1].Data?
    ensures rs[i].Data? ==> i + 1 < |rs| && Stop(rs[i..]) == Stop(rs[i + 1..])
    ensures rs[i].Data? ==>
      received + Delivered(rs[i..]) == received + rs[i].bytes + Delivered(rs[i + 1..])
    ensures !rs[i].Data? ==> Delivered(rs[i..]) == [] && Stop(rs[i..]) == rs[i]
  {
    if rs[i].Data? {
      assert rs[i..][1..] == rs[i + 1..];
      assert received + (rs[i].bytes + Delivered(rs[i + 1..])) == received + rs[i].bytes + Delivered(rs[i + 1..]);
    }
  }

  /** Where GetThruEOL leaves the position i. */
  function FrameTurn(s: seq<Byte>, i: nat): (k: nat)
    requires i <= |s|
    ensures i <= k <= |s|
  {
    var n := Until(s[i..], EOL_MASK);
    i + n + EolLen(s[i..][n..])
  }

  /** One turn of the framing loop at position i. */
  lemma FrameLoop(s: seq<Byte>, i: nat)
    requires i <= |s|
    ensures var n, k := Until(s[i..], EOL_MASK), FrameTurn(s, i);
      if n == |s| - i then Plus(i, Frame(s[i..])) == None
      else k > i && Plus(i, Frame(s[i..])) == Plus(k, if EolLen(s[k..]) > 0 then Some(EolLen(s[k..])) else Frame(s[k..]))
  {
    hide Frame, Until, EolLen;
    var n, k := Until(s[i..], EOL_MASK), FrameTurn(s, i);
    FrameSkip(s[i..]);
    if n < |s| - i {
      var e := s[i..][n..];
      assert e == s[i + n..];
      EolLine(e);
      assert e[EolLen(e)..] == s[k..];
    }
  }
}
