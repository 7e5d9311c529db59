/** The sending half of a session: a response buffer that is filled from a cached file and drained
    by partial sends. */
module Sending {
  import opened Bytes
  import opened Deques
  import opened FileBuffers
  import opened Options
  import opened Stages

  class Sender {
    const buffer: array<Byte>
    var remained: nat
    var cfile: FileBuffer?
    var readCount: nat
    var contentLen: int
    var rangeStop: int
    /** How often RequestEvent(EVENT_READ | EVENT_WRITE) was called. */
    var asks: nat
    /** m_SockFd is -1. */
    var closed: bool
    /** Everything given to the socket. */
    ghost var sent: seq<Byte>

    ghost predicate Valid()
      reads this
    {
      buffer.Length == RESPONSE_BUFFER_SIZE && remained <= buffer.Length
    }

    ghost function State(): Stage
      requires Valid()
      reads this, buffer
    {
      Stage(sent, buffer[..remained], if cfile == null then None else Some(cfile.file),
            readCount, contentLen, rangeStop, asks, closed)
    }

    /** The content length is not initialised. */
    constructor (garbage: int)
      ensures Valid() && fresh(buffer) && cfile == null
      ensures State() == Stage([], [], None, 0, garbage, -1, 0, false)
    {
      buffer := new Byte[RESPONSE_BUFFER_SIZE];
      remained, cfile, readCount, contentLen, rangeStop, asks := 0, null, 0, garbage, -1, 0;
      closed, sent := false, [];
    }

    /** Sends from the front of the buffer and moves what is left there; asks to be told when the
        socket has room unless nothing is left or the socket is broken, which closes it. */
    method SendData(r: SendResult) returns (ret: int)
      requires Valid()
      modifies this`remained, this`sent, this`asks, this`closed, buffer
      ensures Valid() && (State(), ret) == AfterSend(old(State()), r)
    {
      ghost var all := buffer[..remained];
      if remained <= 0 {
        assert all == [];
        return 0;
      }
      var met := if closed then Broken else r;
      var n := Taken(met, remained);
      if n > 0 {
        assert buffer[..n] == all[..n];
        sent := sent + buffer[..n];
        forall k | 0 <= k < remained - n { buffer[k] := buffer[n + k]; }
        remained := remained - n;
        assert buffer[..remained] == all[n..] && |all[n..]| == remained;
        if remained <= 0 {
          return 0;
        }
        assert all != [] && all[n..] != [] && met.Takes?;
        asks := asks + 1;
        assert State() == old(State()).(sent := old(sent) + all[..n], rest := all[n..], asks := old(asks) + 1);
        return SEND_INTERVAL;
      }
      assert all[..0] == [] && all[0..] == all && sent + [] == sent;
      if met == Full {
        asks := asks + 1;
        return SEND_INTERVAL;
      }
      closed := true;
      ret := -1;
    }

    /** Appends rendered bytes that fit. */
    method Put(bytes: seq<Byte>)
      requires Valid() && remained + |bytes| <= RESPONSE_BUFFER_SIZE
      modifies this`remained, buffer
      ensures Valid() && State() == old(State()).(rest := old(State()).rest + bytes)
    {
      forall k | 0 <= k < |bytes| { buffer[remained + k] := bytes[k]; }
      ghost var all := old(buffer[..remained]);
      remained := remained + |bytes|;
      assert buffer[..remained] == all + bytes;
    }

    /** Opens file and appends the response header. */
    method ResponseFile(header: seq<Byte>, file: FileBuffer)
      requires Valid() && remained + |header| <= RESPONSE_BUFFER_SIZE
      modifies this, buffer
      ensures Valid() && cfile == file && State() == AfterFile(old(State()), header, file.file)
    {
      cfile := file;
      readCount := 0;
      if rangeStop == -1 {
        rangeStop := |file.file| - 1;
      }
      contentLen := rangeStop + 1;
      Put(header);
    }

    /** Appends an error page; the body length becomes the content length. */
    method ResponseError(response: seq<Byte>, bodyLen: nat)
      requires Valid() && remained + |response| <= RESPONSE_BUFFER_SIZE
      modifies this`remained, this`contentLen, buffer
      ensures Valid() && State() == AfterPage(old(State()), response, bodyLen)
    {
      contentLen := bodyLen;
      Put(response);
    }

    /** ResponseFile for a file that cannot be opened: the pointer to any open file is lost first. */
    method ResponseNoFile(response: seq<Byte>, bodyLen: nat)
      requires Valid() && remained + |response| <= RESPONSE_BUFFER_SIZE
      modifies this`remained, this`contentLen, this`cfile, buffer
      ensures Valid() && cfile == null && State() == AfterFailedOpen(old(State()), response, bodyLen)
    {
      cfile := null;
      ResponseError(response, bodyLen);
    }

    /** Closes the file when as much was read as the content length says. */
    method SendDone() returns (done: bool)
      modifies this`cfile
      ensures done == (readCount == contentLen)
      ensures cfile == if done then null else old(cfile)
    {
      done := false;
      if readCount == contentLen {
        cfile := null;
        done := true;
      }
    }

    /** Reads the file from its start into the empty buffer: CFile's offset never moves. */
    method Refill()
      requires Valid() && remained == 0
      requires cfile != null && cfile.Valid() && |cfile.file| <= RESPONSE_BUFFER_SIZE
      modifies this`remained, this`readCount, this`cfile, buffer, cfile.pieces, cfile.pieces.cells
      ensures Valid() && State() == AfterRefill(old(State())) && (cfile == null || cfile == old(cfile))
      ensures old(cfile).Valid() && fresh(old(cfile).pieces.cells - old(cfile.pieces.cells))
    {
      hide Agrees;
      var file := cfile;
      var n := file.Read(0, buffer, 0, RESPONSE_BUFFER_SIZE);
      assert file.file[0..n] == file.file;
      if n == 0 {
        cfile := null;
      } else {
        remained := n;
        readCount := readCount + n;
      }
      assert buffer[..remained] == file.file;
    }

    /** Sends what is buffered; when that empties the buffer and a file is open, reads and sends on. */
    method DoContinue(r1: SendResult, r2: SendResult) returns (ret: int)
      requires Valid()
      requires cfile != null ==> cfile.Valid() && |cfile.file| <= RESPONSE_BUFFER_SIZE
      modifies this, buffer, if cfile == null then {} else {cfile.pieces}, if cfile == null then {} else cfile.pieces.cells
      ensures Valid() && (State(), ret) == AfterContinue(old(State()), r1, r2)
      ensures remained == old(LeftAfter(State(), r1, r2)) && (ret < 0 <==> old(WillBreak(State(), r1, r2)))
      ensures asks == old(asks) + if old(WillAsk(State(), r1, r2)) then 1 else 0
      ensures cfile == null || cfile == old(cfile)
      ensures old(cfile) != null ==> old(cfile).Valid() && fresh(old(cfile).pieces.cells - old(cfile.pieces.cells))
    {
      hide Agrees, AfterSend, AfterRefill, LeftAfter, LastSend;
      ContinueExact(State(), r1, r2);
      ret := SendData(r1);
      if ret != 0 {
        return;
      }
      EmptyAfterSend(old(State()), r1);
      if cfile != null {
        var available := RESPONSE_BUFFER_SIZE - remained;
        if available <= 0 {
          return SEND_INTERVAL;
        }
        Refill();
        ret := SendData(r2);
        if ret != 0 {
          return;
        }
      }
      var done := SendDone();
      if !done {
        return SEND_INTERVAL;
      }
      ret := 0;
    }

    /** Continues until as much was read as the content length says. */
    method DoWrite(r1: SendResult, r2: SendResult) returns (ret: int)
      requires Valid()
      requires cfile != null ==> cfile.Valid() && |cfile.file| <= RESPONSE_BUFFER_SIZE
      modifies this, buffer, if cfile == null then {} else {cfile.pieces}, if cfile == null then {} else cfile.pieces.cells
      ensures Valid() && (State(), ret) == AfterWrite(old(State()), r1, r2)
      ensures remained == if old(AllRead(State())) then old(remained) else old(LeftAfter(State(), r1, r2))
      ensures ret < 0 <==> old(!AllRead(State()) && WillBreak(State(), r1, r2))
      ensures asks == old(asks) + if old(!AllRead(State()) && WillAsk(State(), r1, r2)) then 1 else 0
      ensures cfile == null || cfile == old(cfile)
      ensures old(cfile) != null ==> old(cfile).Valid() && fresh(old(cfile).pieces.cells - old(cfile.pieces.cells))
    {
      hide Agrees, AfterContinue, WillAsk, WillBreak, LeftAfter;
      ret := 0;
      ghost var s := State();
      WriteExact(s, r1, r2);
      var done := SendDone();
      while !done
        invariant Valid() && ret == 0
        invariant if done then (State(), 0) == AfterWrite(s, r1, r2) else State() == s && !AllRead(s)
        invariant cfile == null || cfile == old(cfile)
        invariant !done ==> cfile == old(cfile)
        invariant old(cfile) != null ==> old(cfile).Valid() && fresh(old(cfile).pieces.cells - old(cfile.pieces.cells))
        invariant !done && cfile != null ==> cfile.pieces.cells == old(cfile.pieces.cells)
        decreases if done then 0 else 1
      {
        ret := DoContinue(r1, r2);
        if ret < 0 {
          return;
        } else if ret > 0 {
          return;
        }
        ZeroMeansDone(s, r1, r2);
        done := SendDone();
      }
    }

    /** The end of DoRead: sends, and goes on to the file when the buffer is empty. */
    method Flush(r0: SendResult, r1: SendResult, r2: SendResult) returns (ret: int)
      requires Valid()
      requires cfile != null ==> cfile.Valid() && |cfile.file| <= RESPONSE_BUFFER_SIZE
      modifies this, buffer, if cfile == null then {} else {cfile.pieces}, if cfile == null then {} else cfile.pieces.cells
      ensures Valid() && (State(), ret) == AfterFlush(old(State()), r0, r1, r2)
      ensures remained == old(FlushLeft(State(), r0, r2)) && (ret < 0 <==> remained > 0 && old(FlushLast(State(), r0, r2)) == Broken)
      ensures asks == old(asks) + if remained > 0 && old(FlushLast(State(), r0, r2)) != Broken then 1 else 0
      ensures cfile == null || cfile == old(cfile)
      ensures old(cfile) != null ==> old(cfile).Valid() && fresh(old(cfile).pieces.cells - old(cfile.pieces.cells))
    {
      hide Agrees, AfterSend, AfterWrite, FlushLeft, FlushLast;
      FlushExact(State(), r0, r1, r2);
      ret := SendData(r0);
      if ret < 0 {
        return;
      }
      if ret > 0 {
        return 0;
      }
      ret := DoWrite(r1, r2);
    }
  }

  /** A file of one byte more than the response buffer holds overwrites the byte behind it. */
  method ByteBehindBuffer() returns (memory: array<Byte>)
    ensures fresh(memory) && memory.Length == RESPONSE_BUFFER_SIZE + 1
    ensures memory[RESPONSE_BUFFER_SIZE] == 'x'
  {
    var file := new FileBuffer(seq(RESPONSE_BUFFER_SIZE + 1, _ => 'x'));
    memory := new Byte[RESPONSE_BUFFER_SIZE + 1](_ => '\0');
    var _ := file.ReadFromStart(memory, RESPONSE_BUFFER_SIZE);
  }

  lemma EmptyAfterSend(s: Stage, r: SendResult)
    requires AfterSend(s, r).1 == 0
    ensures AfterSend(s, r).0.rest == []
  {
  }

  lemma ZeroMeansDone(s: Stage, r1: SendResult, r2: SendResult)
    requires AfterContinue(s, r1, r2).1 == 0
    ensures AllRead(AfterContinue(s, r1, r2).0) && AfterContinue(s, r1, r2).0.open == None
  {
  }
}
