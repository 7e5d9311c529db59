/** What one run of a session does, as a function of the session, its events and the results the
    system calls give; and exactly when it asks for events, keeps a read error, or leaves bytes behind. */
module SessionTurns {
  import opened Bytes
  import opened Events
  import opened Framing
  import opened HttpProtocol
  import opened Options
  import opened Receiving
  import opened RequestRoundTrip
  import opened RequestSyntax
  import opened Stages

  /** A file that is read in one piece. */
  type SmallFile = c: seq<Byte> | |c| <= RESPONSE_BUFFER_SIZE

  /** What DoGet finds at a path: nothing, with an error page whose body has bodyLen bytes; a file
      that cannot be opened, with such a page; or a file to be sent after a header. */
  datatype Answer =
    | Page(text: seq<Byte>, bodyLen: nat)
    | NoOpen(text: seq<Byte>, bodyLen: nat)
    | File(text: seq<Byte>, content: SmallFile)

  type Fields = q: Request | WellSized(q) witness Request([], 0, 0, Uri([], [], [], [], [], [], []), false, false, seq(NUM_HEADERS, _ => []))

  /** The receive buffer, the request's fields, the sending half, and how often
      RequestEvent(EVENT_READ) was called. */
  datatype SessionState = SessionState(received: seq<Byte>, request: Fields, stage: Stage, readAsks: nat)

  /** What a run meets outside: the files, memory beyond its data, and the results of recv and send. */
  datatype World = World(files: seq<Byte> -> Answer, mem: Memory, recvs: Results, sends: nat -> SendResult)

  function New(request: Fields, garbage: int): SessionState {
    SessionState([], request, Stage([], [], None, 0, garbage, -1, 0, false), 0)
  }

  function Asks(x: SessionState): nat {
    x.readAsks + x.stage.asks
  }

  /** DoGet. */
  function AfterAnswer(s: Stage, a: Answer): Stage {
    match a
    case Page(text, bodyLen) => AfterPage(s, text, bodyLen)
    case NoOpen(text, bodyLen) => AfterFailedOpen(s, text, bodyLen)
    case File(text, content) => AfterFile(s, text, content)
  }

  /** The fields after a frame was parsed; the parser never leaves a frame. */
  function ParsedFields(f: seq<Byte>, before: Fields, mem: Memory): Fields {
    var r := Parsed(f, Cleared(before), mem).0;
    if r == Outside then before else r.q
  }

  /** The sending half after the request with fields q was answered. */
  function Answered(s: Stage, q: Fields, files: seq<Byte> -> Answer): Stage {
    if q.verb == 0 then AfterAnswer(s, files(q.uri.requestPath)) else s
  }

  /** DoRead after RecvData. */
  function Served(x: SessionState, world: World): (SessionState, int) {
    match Frame(x.received)
    case None => (x, 0)
    case Some(n) =>
      var q := ParsedFields(x.received[..n], x.request, world.mem);
      var (stage, ret) := AfterFlush(Answered(x.stage, q, world.files), world.sends(0), world.sends(1), world.sends(2));
      (x.(received := x.received[n..], request := q, stage := stage), ret)
  }

  /** What recv gives: a closed socket fails at once. */
  function Recvs(x: SessionState, world: World): Results {
    if x.stage.closed then [Failed] else world.recvs
  }

  /** What is in the receive buffer when reading stops. */
  function Arrived(x: SessionState, world: World): seq<Byte> {
    Fitting(x.received + Delivered(Recvs(x, world)))
  }

  /** The socket is read until it has no more. */
  predicate ReadsOut(x: SessionState, world: World) {
    ReadsAll(x.received, Recvs(x, world))
  }

  lemma ClosedNeverReads(x: SessionState, world: World)
    requires x.stage.closed
    ensures !ReadsOut(x, world)
  {
  }

  /** DoRead. */
  function AfterRead(x: SessionState, world: World): (SessionState, int) {
    var x' := x.(received := Arrived(x, world));
    if ReadsOut(x, world) then Served(x'.(readAsks := x.readAsks + 1), world) else (x', -1)
  }

  /** Run after DoRead; ret is what that returned. */
  function AfterWrites(s: Stage, ret: int, events: set<int>, world: World): (Stage, int) {
    var (s1, ret1) := if WRITE_BIT in events then AfterWrite(s, world.sends(3), world.sends(4)) else (s, ret);
    if CONTINUE_BIT in events then AfterContinue(s1, world.sends(5), world.sends(6)) else (s1, ret1)
  }

  /** Run with the events that DequeEvents returned. */
  function AfterRun(x: SessionState, events: set<int>, world: World): (SessionState, int) {
    if ERROR_BIT in events then (x, -1)
    else
      var (x1, ret1) := if READ_BIT in events then AfterRead(x, world) else (x, 0);
      var (stage, ret) := AfterWrites(x1.stage, ret1, events, world);
      (x1.(stage := stage), if ret < 0 then ret else 0)
  }

  // ---------- exactly when a run asks, and what it returns ----------

  /** The sending half after the run's DoWrite. */
  function Written(s: Stage, events: set<int>, world: World): Stage {
    if WRITE_BIT in events then AfterWrite(s, world.sends(3), world.sends(4)).0 else s
  }

  predicate WriteAsks(s: Stage, events: set<int>, world: World) {
    WRITE_BIT in events && !AllRead(s) && WillAsk(s, world.sends(3), world.sends(4))
  }

  predicate ContinueAsks(s: Stage, events: set<int>, world: World) {
    CONTINUE_BIT in events && WillAsk(Written(s, events, world), world.sends(5), world.sends(6))
  }

  lemma WritesExact(s: Stage, ret: int, events: set<int>, world: World)
    ensures var (s', ret') := AfterWrites(s, ret, events, world);
      && s'.asks == s.asks + (if WriteAsks(s, events, world) then 1 else 0) + (if ContinueAsks(s, events, world) then 1 else 0)
      && (ret >= -1 ==> ret' >= -1)
      && s'.closed == (s.closed || (WRITE_BIT in events && !AllRead(s) && WillBreak(s, world.sends(3), world.sends(4)))
                       || (CONTINUE_BIT in events && WillBreak(Written(s, events, world), world.sends(5), world.sends(6))))
      && (ret' < 0 <==>
           if CONTINUE_BIT in events then WillBreak(Written(s, events, world), world.sends(5), world.sends(6))
           else if WRITE_BIT in events then !AllRead(s) && WillBreak(s, world.sends(3), world.sends(4))
           else ret < 0)
  {
    hide AfterContinue, AfterWrite, WillAsk, WillBreak, LeftAfter;
    WriteExact(s, world.sends(3), world.sends(4));
    ContinueExact(Written(s, events, world), world.sends(5), world.sends(6));
  }

  /** DoRead fails: the read was cut short, or the answer to a complete request, or what was left
      from before, meets a broken socket. */
  predicate ReadFails(x: SessionState, world: World) {
    !ReadsOut(x, world) ||
    match Frame(Arrived(x, world))
    case None => false
    case Some(n) =>
      var s := Answered(x.stage, ParsedFields(Arrived(x, world)[..n], x.request, world.mem), world.files);
      FlushLeft(s, world.sends(0), world.sends(2)) > 0 && FlushLast(s, world.sends(0), world.sends(2)) == Broken
  }

  /** Reading asks for EVENT_READ exactly when the socket was read until it had no more. */
  lemma ReadExact(x: SessionState, world: World)
    ensures var (x', ret) := AfterRead(x, world);
      && (ret < 0 <==> ReadFails(x, world)) && ret >= -1
      && (ReadsOut(x, world) && Frame(Arrived(x, world)) == None ==> ret == 0 && x' == x.(received := Arrived(x, world), readAsks := x.readAsks + 1))
      && if ReadsOut(x, world)
         then x'.readAsks == x.readAsks + 1 && x'.stage.asks >= x.stage.asks
              && x'.stage.closed == (x.stage.closed || ReadFails(x, world))
              && (ReadFails(x, world) ==> x'.stage.rest != [])
         else ret == -1 && x' == x.(received := Arrived(x, world))
  {
    hide ReadsOut, Fitting, Frame, AfterFlush, ParsedFields, FlushLeft, FlushLast;
    if ReadsOut(x, world) && Frame(Arrived(x, world)).Some? {
      var n := Frame(Arrived(x, world)).value;
      var q := ParsedFields(Arrived(x, world)[..n], x.request, world.mem);
      var s := Answered(x.stage, q, world.files);
      FlushExact(s, world.sends(0), world.sends(1), world.sends(2));
    }
  }

  lemma AsksGrow(x: SessionState, events: set<int>, world: World)
    ensures var x' := AfterRun(x, events, world).0; x'.readAsks >= x.readAsks && x'.stage.asks >= x.stage.asks
  {
    hide ReadsOut, AfterRead, AfterWrites, WriteAsks, ContinueAsks, ReadFails;
    if ERROR_BIT !in events {
      ReadExact(x, world);
      var (x1, ret1) := if READ_BIT in events then AfterRead(x, world) else (x, 0);
      WritesExact(x1.stage, ret1, events, world);
    }
  }

  /** A run asks for its next events exactly when it read the socket until that had no more, or a
      write or a continuation leaves bytes on a socket that works. */
  lemma RunAsksIff(x: SessionState, events: set<int>, world: World)
    ensures Asks(AfterRun(x, events, world).0) > Asks(x) <==>
      && ERROR_BIT !in events
      && (|| (READ_BIT in events && ReadsOut(x, world))
          || WriteAsks(x.stage, events, world) || ContinueAsks(x.stage, events, world))
  {
    hide ReadsOut, AfterRead, AfterWrites, WriteAsks, ContinueAsks, ReadFails;
    if ERROR_BIT !in events {
      ReadExact(x, world);
      var (x1, ret1) := if READ_BIT in events then AfterRead(x, world) else (x, 0);
      WritesExact(x1.stage, ret1, events, world);
    }
  }

  /** What the run's DoRead leaves of the sending half. */
  function StageRead(x: SessionState, events: set<int>, world: World): Stage {
    if READ_BIT in events then AfterRead(x, world).0.stage else x.stage
  }

  /** For every set of events, Run returns -1 exactly when the socket has an error, or the last of
      continuing, writing and reading that the events ask for fails; and else 0. */
  lemma RunFailsIff(x: SessionState, events: set<int>, world: World)
    ensures var ret := AfterRun(x, events, world).1;
      var s := StageRead(x, events, world);
      && (ret == 0 || ret == -1)
      && (ret == -1 <==>
           || ERROR_BIT in events
           || if CONTINUE_BIT in events then WillBreak(Written(s, events, world), world.sends(5), world.sends(6))
              else if WRITE_BIT in events then !AllRead(s) && WillBreak(s, world.sends(3), world.sends(4))
              else READ_BIT in events && ReadFails(x, world))
  {
    hide ReadsOut, AfterRead, AfterWrites, WillBreak, ReadFails;
    if ERROR_BIT !in events {
      ReadExact(x, world);
      var (x1, ret1) := if READ_BIT in events then AfterRead(x, world) else (x, 0);
      WritesExact(x1.stage, ret1, events, world);
    }
  }

  /** A failed read ends the session unless the same run goes on to write, or to continue, on a
      socket that works. */
  lemma ReadErrorSurvivesIff(x: SessionState, events: set<int>, world: World)
    requires READ_BIT in events && ERROR_BIT !in events && !ReadsOut(x, world)
    ensures AfterRun(x, events, world).1 == 0 <==>
      if CONTINUE_BIT in events then !WillBreak(Written(x.stage, events, world), world.sends(5), world.sends(6))
      else WRITE_BIT in events && (AllRead(x.stage) || !WillBreak(x.stage, world.sends(3), world.sends(4)))
  {
    hide ReadsOut, AfterRun, WillBreak;
    ReadExact(x, world);
    RunFailsIff(x, events, world);
  }

  /** A session whose socket DoRead has closed, with bytes left, survives exactly when the same run
      writes, does not continue, and had read its file to the end. */
  lemma ClosedReadSurvivesIff(x: SessionState, events: set<int>, world: World)
    requires READ_BIT in events && ERROR_BIT !in events
    ensures ReadsOut(x, world) && ReadFails(x, world) ==>
      && AfterRead(x, world).0.stage.closed
      && (AfterRun(x, events, world).1 == 0 <==>
          WRITE_BIT in events && CONTINUE_BIT !in events && AllRead(AfterRead(x, world).0.stage))
  {
    hide ReadsOut, AfterRun, AfterRead, ReadFails, AfterWrite;
    ReadExact(x, world);
    RunFailsIff(x, events, world);
    var s := AfterRead(x, world).0.stage;
    ClosedBreaks(s, world.sends(3), world.sends(4));
    ClosedBreaks(Written(s, events, world), world.sends(5), world.sends(6));
    WriteExact(s, world.sends(3), world.sends(4));
  }

  /** For every set of events, a run closes the socket and yet returns 0 exactly when it reads and
      writes and does not continue, DoRead closes the socket, and everything was read by then. */
  lemma ClosesAndReturnsIff(x: SessionState, events: set<int>, world: World)
    ensures !x.stage.closed && AfterRun(x, events, world).0.stage.closed && AfterRun(x, events, world).1 == 0 <==>
      && !x.stage.closed && ERROR_BIT !in events
      && READ_BIT in events && WRITE_BIT in events && CONTINUE_BIT !in events
      && ReadsOut(x, world) && ReadFails(x, world) && AllRead(AfterRead(x, world).0.stage)
  {
    hide ReadsOut, AfterRead, AfterWrites, ReadFails, AfterWrite, WillBreak;
    if ERROR_BIT !in events {
      ReadExact(x, world);
      var (x1, ret1) := if READ_BIT in events then AfterRead(x, world) else (x, 0);
      WritesExact(x1.stage, ret1, events, world);
      BrokenStays(x1.stage, events, world);
    }
  }

  /** What a broken write leaves breaks a continuation too. */
  lemma BrokenStays(s: Stage, events: set<int>, world: World)
    ensures var s' := Written(s, events, world);
      s'.closed && s'.rest != [] ==> WillBreak(s', world.sends(5), world.sends(6))
    ensures WRITE_BIT in events && !AllRead(s) && WillBreak(s, world.sends(3), world.sends(4)) ==>
      Written(s, events, world).closed && Written(s, events, world).rest != []
    ensures s.closed && s.rest != [] ==>
      WillBreak(s, world.sends(3), world.sends(4)) && Written(s, events, world).closed && Written(s, events, world).rest != []
  {
    hide AfterWrite, LastSend;
    WriteExact(s, world.sends(3), world.sends(4));
    ClosedBreaks(s, world.sends(3), world.sends(4));
    ClosedBreaks(Written(s, events, world), world.sends(5), world.sends(6));
  }

  lemma ClosedBreaks(s: Stage, r1: SendResult, r2: SendResult)
    ensures s.closed && s.rest != [] ==> WillBreak(s, r1, r2) && LeftAfter(s, r1, r2) == |s.rest|
  {
  }

  /** A run leaves the session alive without asking for any event exactly when nothing is read to the
      end, what it writes takes everything or was to be sent before, and a failed read is forgotten. */
  lemma SilentIff(x: SessionState, events: set<int>, world: World)
    ensures AfterRun(x, events, world).1 == 0 && Asks(AfterRun(x, events, world).0) == Asks(x) <==>
      && ERROR_BIT !in events && !(READ_BIT in events && ReadsOut(x, world))
      && if CONTINUE_BIT in events
         then !WriteAsks(x.stage, events, world) && LeftAfter(Written(x.stage, events, world), world.sends(5), world.sends(6)) == 0
         else if WRITE_BIT in events then AllRead(x.stage) || LeftAfter(x.stage, world.sends(3), world.sends(4)) == 0
         else READ_BIT !in events
  {
    hide ReadsOut, AfterRead, AfterWrites, LeftAfter, LastSend, ReadFails;
    if ERROR_BIT !in events {
      ReadExact(x, world);
      var (x1, ret1) := if READ_BIT in events then AfterRead(x, world) else (x, 0);
      WritesExact(x1.stage, ret1, events, world);
    }
  }

  /** Run never asks to be parked. */
  lemma RunReturns(x: SessionState, events: set<int>, world: World)
    ensures AfterRun(x, events, world).1 == 0 || AfterRun(x, events, world).1 == -1
  {
    hide AfterRun;
    RunFailsIff(x, events, world);
  }
}
