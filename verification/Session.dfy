/** The session as a task: its Run on a receive buffer, a request and a response buffer, proved to
    compute AfterRun. */
module Session {
  import opened Bytes
  import opened Events
  import opened FileBuffers
  import opened Framing
  import opened HttpRequests
  import opened Options
  import opened Receiving
  import opened RequestSyntax
  import opened Sending
  import opened SessionHistory
  import opened SessionTurns
  import opened Stages

  /** The reading half of DoRead and DoRequest. The frame the parser gets is the one the framer found,
      so its fast reads need no bounds. */
  method NextRequest(receiver: Receiver, request: HttpRequest, mem: Memory) returns (full: bool)
    requires receiver.Valid() && WellSized(request.State())
    modifies receiver, receiver.buffer, request
    ensures receiver.Valid() && WellSized(request.State()) && receiver.all == old(receiver.all)
    ensures receiver.asks == old(receiver.asks)
    ensures full == Frame(old(receiver.received)).Some?
    ensures !full ==> receiver.received == old(receiver.received) && request.State() == old(request.State())
    ensures full ==>
      var n := Frame(old(receiver.received)).value;
      var f := old(receiver.received)[..n];
      && receiver.received == old(receiver.received)[n..]
      && receiver.framed == old(receiver.framed) + [f]
      && request.State() == ParsedFields(f, old(request.State()), mem)
  {
    hide Conserved, Frame, Parsed;
    full := receiver.IsFullRequest();
    if full {
      FramePrefix(receiver.received);
      var f := receiver.buffer[..receiver.requestLen];
      assert f == receiver.received[..receiver.requestLen];
      request.Clear();
      var _ := request.Parse(f, mem);
      receiver.MoveOnRequest();
    }
  }

  lemma TookArrived(x: SessionState, events: set<int>, world: World)
    requires InBuffer(x)
    ensures if ERROR_BIT in events || READ_BIT !in events then TookIn(x, (events, world)) == []
            else x.received <= Arrived(x, world) && TookIn(x, (events, world)) == Arrived(x, world)[|x.received|..]
  {
    if ERROR_BIT !in events && READ_BIT in events { ArrivedIs(x, (events, world)); }
  }

  class HttpSession {
    const receiver: Receiver
    const sender: Sender
    const request: HttpRequest

    ghost predicate Valid()
      reads this, receiver, receiver.buffer, sender, request
      reads if sender.cfile == null then {} else {sender.cfile.pieces}
      reads if sender.cfile == null then [] else sender.cfile.pieces.nodes
    {
      && receiver.Valid() && sender.Valid() && WellSized(request.State())
      && receiver.buffer != sender.buffer
      && (sender.cfile != null ==> sender.cfile.Valid() && |sender.cfile.file| <= RESPONSE_BUFFER_SIZE)
    }

    ghost function Current(): SessionState
      requires Valid()
      reads this, receiver, receiver.buffer, sender, sender.buffer, request
      reads if sender.cfile == null then {} else {sender.cfile.pieces}
      reads if sender.cfile == null then [] else sender.cfile.pieces.nodes
    {
      SessionState(receiver.received, request.State(), sender.State(), receiver.asks)
    }

    constructor (request: HttpRequest, garbage: int)
      requires WellSized(request.State())
      ensures Valid() && fresh(receiver) && fresh(sender) && this.request == request
      ensures Current() == New(request.State(), garbage)
    {
      hide Conserved, Agrees;
      receiver := new Receiver();
      sender := new Sender(garbage);
      this.request := request;
    }

    /** The file in service is the same as before or a new one, and so are the cells of its cache. */
    twostate predicate FileKept()
      reads this, sender
      reads if sender.cfile == null then {} else {sender.cfile.pieces}
    {
      sender.cfile == null || (
        if sender.cfile == old(sender.cfile)
        then fresh(sender.cfile.pieces.cells - old(sender.cfile.pieces.cells))
        else fresh(sender.cfile) && fresh(sender.cfile.pieces) && fresh(sender.cfile.pieces.cells))
    }

    method DoGet(a: Answer)
      requires Valid() && sender.remained + |a.text| <= RESPONSE_BUFFER_SIZE
      modifies sender, sender.buffer
      ensures Valid() && FileKept()
      ensures Current() == old(Current()).(stage := AfterAnswer(old(Current()).stage, a))
    {
      hide Conserved, Agrees, WellSized;
      match a
      case Page(text, bodyLen) => sender.ResponseError(text, bodyLen);
      case NoOpen(text, bodyLen) => sender.ResponseNoFile(text, bodyLen);
      case File(text, content) =>
        var file := new FileBuffer(content);
        sender.ResponseFile(text, file);
    }

    method Send(r0: SendResult, r1: SendResult, r2: SendResult) returns (ret: int)
      requires Valid()
      modifies sender, sender.buffer,
               if sender.cfile == null then {} else {sender.cfile.pieces},
               if sender.cfile == null then {} else sender.cfile.pieces.cells
      ensures Valid() && FileKept()
      ensures var (stage, ret') := AfterFlush(old(Current()).stage, r0, r1, r2);
        Current() == old(Current()).(stage := stage) && ret == ret'
    {
      hide Conserved, Agrees, WellSized, AfterFlush;
      ret := sender.Flush(r0, r1, r2);
    }

    /** The rest of DoRequest. */
    method Answer(world: World)
      requires Valid() && forall p :: sender.remained + |world.files(p).text| <= RESPONSE_BUFFER_SIZE
      modifies sender, sender.buffer
      ensures Valid() && FileKept()
      ensures Current() == old(Current()).(stage := Answered(old(Current()).stage, request.State(), world.files))
    {
      hide Conserved, Agrees, AfterAnswer, WellSized;
      if request.verb == 0 {
        DoGet(world.files(request.requestPath));
      }
    }

    method Respond(world: World) returns (ret: int)
      requires Valid() && forall p :: sender.remained + |world.files(p).text| <= RESPONSE_BUFFER_SIZE
      modifies sender, sender.buffer,
               if sender.cfile == null then {} else {sender.cfile.pieces},
               if sender.cfile == null then {} else sender.cfile.pieces.cells
      ensures Valid() && FileKept()
      ensures var x := old(Current());
        var (stage, ret') := AfterFlush(Answered(x.stage, x.request, world.files), world.sends(0), world.sends(1), world.sends(2));
        Current() == x.(stage := stage) && ret == ret'
    {
      hide Conserved, Agrees, Answered, AfterFlush, WellSized;
      Answer(world);
      ret := Send(world.sends(0), world.sends(1), world.sends(2));
    }

    /** DoRead after RecvData. */
    method Serve(world: World) returns (ret: int)
      requires Valid() && forall p :: sender.remained + |world.files(p).text| <= RESPONSE_BUFFER_SIZE
      modifies receiver, receiver.buffer, request, sender, sender.buffer,
               if sender.cfile == null then {} else {sender.cfile.pieces},
               if sender.cfile == null then {} else sender.cfile.pieces.cells
      ensures Valid() && FileKept() && (Current(), ret) == Served(old(Current()), world)
      ensures receiver.all == old(receiver.all)
    {
      hide Conserved, Frame, ParsedFields, Agrees, Answered, AfterFlush, WellSized;
      ret := 0;
      var full := NextRequest(receiver, request, world.mem);
      if full {
        ret := Respond(world);
      }
    }

    /** RecvData on the session's socket. */
    method Receive(world: World) returns (ret: int)
      requires Valid()
      modifies receiver, receiver.buffer
      ensures Valid() && (ret == 0 || ret == -1) && (ret == 0 <==> old(ReadsOut(Current(), world)))
      ensures Current() == old(Current()).(received := Arrived(old(Current()), world),
                                           readAsks := old(Current()).readAsks + if ret == 0 then 1 else 0)
      ensures old(receiver.received) <= receiver.received
      ensures receiver.all == old(receiver.all) + receiver.received[|old(receiver.received)|..]
    {
      hide Conserved, Agrees, ReadsAll, Delivered, Fitting, WellSized;
      var recvs: Results := if sender.closed then [Failed] else world.recvs;
      ret := receiver.RecvData(recvs);
    }

    /** Reads what has arrived; if that completes a request, answers it. */
    method DoRead(world: World) returns (ret: int)
      requires Valid() && forall p :: sender.remained + |world.files(p).text| <= RESPONSE_BUFFER_SIZE
      modifies receiver, receiver.buffer, request, sender, sender.buffer,
               if sender.cfile == null then {} else {sender.cfile.pieces},
               if sender.cfile == null then {} else sender.cfile.pieces.cells
      ensures Valid() && FileKept() && (Current(), ret) == AfterRead(old(Current()), world)
      ensures old(receiver.received) <= old(Arrived(Current(), world))
      ensures receiver.all == old(receiver.all) + old(Arrived(Current(), world))[|old(receiver.received)|..]
    {
      hide Conserved, Agrees, ReadsOut, Arrived, Served, WellSized;
      ret := Receive(world);
      if ret < 0 {
        return;
      }
      ret := Serve(world);
    }

    /** The end of Run: goes on writing, and with the file, as the events say; read is what DoRead gave. */
    method Write(events: set<int>, read: int, world: World) returns (ret: int)
      requires Valid()
      modifies sender, sender.buffer,
               if sender.cfile == null then {} else {sender.cfile.pieces},
               if sender.cfile == null then {} else sender.cfile.pieces.cells
      ensures Valid()
      ensures var (stage, ret') := AfterWrites(old(Current()).stage, read, events, world);
        Current() == old(Current()).(stage := stage) && ret == ret'
    {
      hide Conserved, Agrees, WellSized, AfterWrite, AfterContinue;
      ret := read;
      if WRITE_BIT in events {
        ret := sender.DoWrite(world.sends(3), world.sends(4));
      }
      if CONTINUE_BIT in events {
        ret := sender.DoContinue(world.sends(5), world.sends(6));
      }
    }

    /** One run with the events that DequeEvents returned. */
    method Run(events: set<int>, world: World) returns (ret: int)
      requires Valid() && forall p :: sender.remained + |world.files(p).text| <= RESPONSE_BUFFER_SIZE
      modifies receiver, receiver.buffer, request, sender, sender.buffer,
               if sender.cfile == null then {} else {sender.cfile.pieces},
               if sender.cfile == null then {} else sender.cfile.pieces.cells
      ensures Valid() && (Current(), ret) == AfterRun(old(Current()), events, world)
      ensures InBuffer(old(Current())) && receiver.all == old(receiver.all) + TookIn(old(Current()), (events, world))
      ensures Asks(Current()) > old(Asks(Current())) <==>
        && ERROR_BIT !in events
        && (|| (READ_BIT in events && old(ReadsOut(Current(), world)))
            || WriteAsks(old(sender.State()), events, world) || ContinueAsks(old(sender.State()), events, world))
    {
      hide Conserved, Agrees, WellSized, AfterRead, AfterWrites, ReadsOut, WriteAsks, ContinueAsks, TookIn, Arrived;
      RunAsksIff(Current(), events, world);
      TookArrived(Current(), events, world);
      ret := 0;
      if ERROR_BIT in events {
        return -1;
      }
      if READ_BIT in events {
        ret := DoRead(world);
      }
      ret := Write(events, ret, world);
      ret := if ret < 0 then ret else 0;
    }
  }
}
