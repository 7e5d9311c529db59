/** What a session makes of printed requests over one or more of its runs. */
module SessionRuns {
  import opened Basics
  import opened Bytes
  import opened Delivery
  import opened Events
  import opened Framing
  import opened HttpProtocol
  import opened Options
  import opened Receiving
  import opened RequestRoundTrip
  import opened RequestSyntax
  import opened SessionTurns
  import opened Stages

  // ---------- one read ----------

  /** What is sent after a request for u was answered: only GET is. */
  function AnsweredTo(s: Stage, word: seq<Byte>, u: seq<Byte>, world: World): Stage {
    if word == ['G', 'E', 'T'] then AfterAnswer(s, world.files(u)) else s
  }

  /** A printed request whose target is a path, with more behind it. */
  predicate PathRequest(p: Printed, more: seq<Byte>) {
    Valid(p) && p.target[0] == '/' && Ends(p.last, more)
  }

  /** What a read that completes a printed request, with more behind it, makes of a session: of the
      request before, only keep-alive and header values that were not given again are left. */
  lemma ReadOfRequest(x: SessionState, p: Printed, more: seq<Byte>, world: World)
    requires PathRequest(p, more) && Arrived(x, world) == Render(p) + more && ReadsOut(x, world)
    ensures var (x', ret) := AfterRead(x, world);
      && x'.received == more && x'.readAsks == x.readAsks + 1
      && Recovered(p, x.request.(badRequest := false), world.mem, x'.request)
      && x'.request.uri.scheme == x'.request.uri.host == []
      && x'.request.uri.requestPath == x'.request.uri.path + x'.request.uri.params == p.target
      && (x'.stage, ret) == AfterFlush(AnsweredTo(x.stage, p.word, p.target, world), world.sends(0), world.sends(1), world.sends(2))
  {
    hide Frame, Render, ParsedFields, Recovered, Fitting, ReadsOut, AfterFlush, AfterAnswer, Valid, Ends;
    var f := Render(p);
    RenderIsStable(p, more);
    assert (f + more)[..|f|] == f && (f + more)[|f|..] == more;
    FieldsOf(p, x.request, world.mem);
  }

  /** The fields of a request do not depend on those of the request before, but for keep-alive and the
      headers that are not given. */
  lemma FieldsOf(p: Printed, before: Fields, mem: Memory)
    requires Valid(p) && p.target[0] == '/'
    ensures var q := ParsedFields(Render(p), before, mem);
      && Recovered(p, before.(badRequest := false), mem, q) && (q.verb == 0 <==> p.word == ['G', 'E', 'T'])
      && q.uri.scheme == q.uri.host == []
      && q.uri.requestPath == q.uri.path + q.uri.params == p.target
  {
    hide Frame, Render, Parsed, LastValue, KeepsAlive, MethodName, SameButCase, Valid;
    RoundTrip(p, Cleared(before), mem, []);
    GetIff(p.word);
    GetMethodIff(p.word, 0);
    KeepsAliveOf(Cleared(before), before.(badRequest := false), p.headers, mem);
  }

  lemma KeepsAliveOf(q: Request, q': Request, hs: seq<Header>, mem: Memory)
    requires q.keepAlive == q'.keepAlive
    ensures KeepsAlive(q, hs, mem) == KeepsAlive(q', hs, mem)
  {
  }

  /** What a new session makes of a printed GET request and whatever follows it: the answer is the
      one for the URI that was printed, with the whole file behind its header unless the header
      could not be sent at once. */
  lemma FirstGetAnswered(p: Printed, more: seq<Byte>, world: World, before: Fields, garbage: int)
    requires PathRequest(p, more) && p.word == ['G', 'E', 'T']
    requires Arrived(New(before, garbage), world) == Render(p) + more && ReadsOut(New(before, garbage), world)
    ensures var x := AfterRead(New(before, garbage), world).0;
      && x.received == more && Recovered(p, before.(badRequest := false), world.mem, x.request)
      && var a := world.files(p.target);
         Produced(x.stage) == a.text + if a.File? && Taken(world.sends(0), |a.text|) == |a.text| then a.content else []
  {
    hide Frame, Render, Recovered, Fitting, ReadsOut, AfterFlush, LeftAfter, AfterRead, PathRequest;
    ReadOfRequest(New(before, garbage), p, more, world);
    FlushExact(AfterAnswer(New(before, garbage).stage, world.files(p.target)), world.sends(0), world.sends(1), world.sends(2));
  }

  /** A GET of u with nothing but white space behind it. */
  function Versionless(gap: seq<Byte>, u: seq<Byte>, gap': seq<Byte>): seq<Byte> {
    ['G', 'E', 'T'] + (gap + (u + gap'))
  }

  lemma VersionlessFields(gap: seq<Byte>, u: seq<Byte>, gap': seq<Byte>, before: Fields, mem: Memory)
    requires Blanks(gap) && ValidUri(u) && Whites(gap') && EndsTarget(gap'[0])
    ensures var q := ParsedFields(Versionless(gap, u, gap'), before, mem);
      && q.verb == 0 && q.badRequest && q.version == 1 && q.fields == before.fields
      && q.uri.requestPath == u
  {
    hide Parsed, ParsedUri, GetMethod, Target, Blanks, Whites, SameLetter, MethodName;
    Words();
    NoVersionAtAll(['G', 'E', 'T'], gap, u, gap', Cleared(before), mem);
    GetIff(['G', 'E', 'T']);
    UriParses(Cleared(before).uri, u, mem.past);
  }

  /** It does not parse, is marked bad and counted as HTTP/1.0, and is answered all the same. */
  lemma VersionlessGetAnswered(x: SessionState, gap: seq<Byte>, u: seq<Byte>, gap': seq<Byte>, more: seq<Byte>, world: World)
    requires Blanks(gap) && ValidUri(u) && Whites(gap') && EndsTarget(gap'[0])
    requires Arrived(x, world) == Versionless(gap, u, gap') + more && ReadsOut(x, world)
    requires Frame(Arrived(x, world)) == Some(|Versionless(gap, u, gap')|)
    ensures var (x', ret) := AfterRead(x, world);
      && x'.received == more && x'.request == ParsedFields(Versionless(gap, u, gap'), x.request, world.mem)
      && (x'.stage, ret) == AfterFlush(AfterAnswer(x.stage, world.files(u)), world.sends(0), world.sends(1), world.sends(2))
  {
    hide Frame, ParsedFields, Fitting, ReadsOut, AfterFlush, AfterAnswer, Versionless;
    var f := Versionless(gap, u, gap');
    assert (f + more)[..|f|] == f && (f + more)[|f|..] == more;
    VersionlessFields(gap, u, gap', x.request, world.mem);
  }

  /** After a read a complete request is left waiting exactly when the read was cut short with one in
      the buffer, or the bytes behind the request that was answered hold another. */
  lemma RequestWaitsIff(x: SessionState, world: World)
    ensures var got := Arrived(x, world);
      Frame(AfterRead(x, world).0.received).Some? <==>
        && Frame(got).Some?
        && (ReadsOut(x, world) ==> Frame(got[Frame(got).value..]).Some?)
  {
    hide Frame, ReadsOut, Fitting, AfterFlush, ParsedFields;
  }

  /** Of two printed requests that arrive together the second is left whole, and nothing that a run
      without EVENT_READ does takes it up. */
  lemma SecondRequestWaits(x: SessionState, p: Printed, p': Printed, world: World, events: set<int>, later: World)
    requires PathRequest(p, Render(p')) && Valid(p')
    requires Arrived(x, world) == Render(p) + Render(p') && ReadsOut(x, world) && READ_BIT !in events
    ensures var x' := AfterRead(x, world).0; var f := Render(p');
      x'.received == f && Frame(f) == Some(|f|) && AfterRun(x', events, later).0.received == f
  {
    hide Frame, Render, ReadsOut, Fitting, AfterFlush, AfterRead, AfterWrites, PathRequest, Recovered, Valid;
    ReadOfRequest(x, p, Render(p'), world);
    RenderFrames(p');
  }

  // ---------- an error page and the file before it ----------

  /** What follows an error page is the file of an earlier response exactly when one that is not empty
      is open, the number of bytes read of it is not the length of the page's body, and the first send
      takes everything up to the page's end. */
  lemma PageBodyIff(s: Stage, text: seq<Byte>, n: nat, r0: SendResult, r1: SendResult, r2: SendResult)
    ensures var made := Produced(AfterFlush(AfterPage(s, text, n), r0, r1, r2).0);
      var carries := s.open.Some? && s.open.value != [] && s.readCount != n
        && Taken(Met(s, r0), |s.rest| + |text|) == |s.rest| + |text|;
      && (made != Produced(s) + text <==> carries)
      && (carries ==> made == Produced(s) + text + s.open.value)
  {
    hide AfterFlush, LeftAfter;
    var s1 := AfterPage(s, text, n);
    FlushExact(s1, r0, r1, r2);
    assert Produced(s1) == Produced(s) + text;
    var body := if AllRead(s1) then [] else Body(s1, r0);
    assert body == [] ==> Produced(s1) + body == Produced(s1);
    assert |Produced(s1) + body| == |Produced(s1)| + |body|;
  }

  /** After the page for a file that could not be opened nothing follows. */
  lemma NoBodyAfterFailedOpen(s: Stage, text: seq<Byte>, n: nat, r0: SendResult, r1: SendResult, r2: SendResult)
    ensures Produced(AfterFlush(AfterFailedOpen(s, text, n), r0, r1, r2).0) == Produced(s) + text
  {
    hide AfterFlush, LeftAfter;
    var s1 := AfterFailedOpen(s, text, n);
    FlushExact(s1, r0, r1, r2);
    assert Produced(s1) == Produced(s) + text == Produced(s1) + [];
  }

  // ---------- the run in which a request arrives ----------

  /** What recv delivers to a buffer that holds received completes a printed request for u, and the
      socket is read until it has no more. */
  ghost predicate Brings(received: seq<Byte>, word: seq<Byte>, u: seq<Byte>, world: World) {
    && ReadsAll(received, world.recvs)
    && exists p, more :: PathRequest(p, more) && p.word == word && p.target == u
         && Fitting(received + Receiving.Delivered(world.recvs)) == Render(p) + more
  }

  /** The read in which such a request arrives. */
  lemma ReadBrings(x: SessionState, word: seq<Byte>, u: seq<Byte>, world: World)
    requires !x.stage.closed && Brings(x.received, word, u, world)
    ensures ReadsOut(x, world)
    ensures var (x', ret) := AfterRead(x, world);
      && x'.readAsks == x.readAsks + 1
      && (x'.stage, ret) == AfterFlush(AnsweredTo(x.stage, word, u, world), world.sends(0), world.sends(1), world.sends(2))
  {
    hide Render, ReadsAll, Fitting, Frame, AfterFlush, AfterAnswer, AfterRead, Delivered, Recovered, PathRequest;
    var p, more :| PathRequest(p, more) && p.word == word && p.target == u && Arrived(x, world) == Render(p) + more;
    ReadOfRequest(x, p, more, world);
  }

  /** The run with EVENT_READ in which a GET of u arrives. */
  lemma RunOfRequest(x: SessionState, u: seq<Byte>, world: World)
    requires !x.stage.closed && Brings(x.received, ['G', 'E', 'T'], u, world)
    ensures var (x', ret) := AfterRun(x, {READ_BIT}, world);
      var (s', flushed) := AfterFlush(AfterAnswer(x.stage, world.files(u)), world.sends(0), world.sends(1), world.sends(2));
      && x'.readAsks == x.readAsks + 1 && x'.stage == s' && ret == if flushed < 0 then flushed else 0
  {
    hide Brings, AfterFlush, AfterAnswer, AfterRead;
    ReadBrings(x, ['G', 'E', 'T'], u, world);
  }

  // ---------- when the first response gets out ----------

  /** One run: its events and what it meets. */
  type Visit = (set<int>, World)

  /** Runs after one that returned ret, until the session ends. */
  function Visits(x: SessionState, ret: int, vs: seq<Visit>): SessionState
    decreases |vs|
  {
    if ret < 0 || vs == [] then x
    else
      var (x', ret') := AfterRun(x, vs[0].0, vs[0].1);
      Visits(x', ret', vs[1..])
  }

  function Writing(ws: seq<World>): (vs: seq<Visit>)
    ensures |vs| == |ws|
  {
    if ws == [] then [] else [({WRITE_BIT}, ws[0])] + Writing(ws[1..])
  }

  function TurnsOf(ws: seq<World>): (ts: seq<Turn>)
    ensures |ts| == |ws|
  {
    if ws == [] then [] else [(ws[0].sends(3), ws[0].sends(4))] + TurnsOf(ws[1..])
  }

  lemma {:induction false} VisitsAreTurns(x: SessionState, ws: seq<World>)
    ensures Visits(x, 0, Writing(ws)).stage == Turns(x.stage, TurnsOf(ws))
    decreases |ws|
  {
    if ws != [] {
      hide AfterWrite;
      var (x', ret') := AfterRun(x, {WRITE_BIT}, ws[0]);
      var ts, vs := TurnsOf(ws), Writing(ws);
      assert vs[0] == ({WRITE_BIT}, ws[0]) && vs[1..] == Writing(ws[1..]);
      assert ts[0] == (ws[0].sends(3), ws[0].sends(4)) && ts[1..] == TurnsOf(ws[1..]);
      if ret' >= 0 { VisitsAreTurns(x', ws[1..]); }
    }
  }

  /** A new session is asked for a file that is not empty and then runs to write, time after time: the
      response gets out exactly when, in the first run whose first send empties the buffer, the send
      after the read takes the whole file. */
  lemma FirstResponseDeliveredIff(before: Fields, garbage: int, u: seq<Byte>, world: World, ws: seq<World>)
    requires Brings([], ['G', 'E', 'T'], u, world) && world.files(u).File? && world.files(u).content != []
    ensures var a := world.files(u);
      var s := AfterAnswer(New(before, garbage).stage, a);
      var (x, ret) := AfterRun(New(before, garbage), {READ_BIT}, world);
      var ts := [(world.sends(0), world.sends(2))] + TurnsOf(ws);
      var i := FirstDrain(|a.text|, ts);
      AllSent(s, a.content, Visits(x, ret, Writing(ws)).stage) <==> i < |ts| && Taken(ts[i].1, |a.content|) == |a.content|
  {
    hide AfterRun, AfterFlush, AfterWrite, Brings;
    var a := world.files(u);
    var s := AfterAnswer(New(before, garbage).stage, a);
    var (x, ret) := AfterRun(New(before, garbage), {READ_BIT}, world);
    var ts := [(world.sends(0), world.sends(2))] + TurnsOf(ws);
    RunOfRequest(New(before, garbage), u, world);
    FirstTurn(s, world);
    assert ts[1..] == TurnsOf(ws);
    if ret >= 0 {
      RunReturns(New(before, garbage), {READ_BIT}, world);
      VisitsAreTurns(x, ws);
    }
    assert Visits(x, ret, Writing(ws)).stage == Turns(s, ts);
    DeliveredIff(s, a.content, ts);
  }

  /** The end of DoRead is a turn of its own. */
  lemma FirstTurn(s: Stage, world: World)
    requires !AllRead(s)
    ensures var (s', ret) := AfterFlush(s, world.sends(0), world.sends(1), world.sends(2));
      var (w, ret') := AfterWrite(s, world.sends(0), world.sends(2));
      s' == w && (ret < 0 <==> ret' < 0)
  {
    hide AfterContinue, AfterSend;
    FlushIsWrite(s, world.sends(0), world.sends(1), world.sends(2));
    FlushExact(s, world.sends(0), world.sends(1), world.sends(2));
    ContinueExact(s, world.sends(0), world.sends(2));
  }

  // ---------- responses that do not get out, and read errors that do not end a session ----------

  /** Everything was read and bytes are left in the buffer. */
  predicate Truncated(s: Stage) {
    AllRead(s) && s.rest != []
  }

  /** The request of a new session is for a file; the header goes out at once and the body in part. */
  ghost predicate SentInPart(u: seq<Byte>, world: World) {
    && Brings([], ['G', 'E', 'T'], u, world) && world.files(u).File? && world.files(u).content != []
    && Taken(world.sends(0), |world.files(u).text|) == |world.files(u).text|
    && Taken(world.sends(2), |world.files(u).content|) < |world.files(u).content| && world.sends(2) != Broken
  }

  lemma TruncatedByFirstRun(before: Fields, garbage: int, u: seq<Byte>, world: World)
    requires SentInPart(u, world)
    ensures var (x, ret) := AfterRun(New(before, garbage), {READ_BIT}, world);
      && ret == 0 && Truncated(x.stage) && !x.stage.closed && x.readAsks == 1 && x.stage.asks == 1
      && !AllSent(AfterAnswer(New(before, garbage).stage, world.files(u)), world.files(u).content, x.stage)
  {
    hide Brings, AfterRun, AfterFlush;
    RunOfRequest(New(before, garbage), u, world);
    FlushExact(AfterAnswer(New(before, garbage).stage, world.files(u)), world.sends(0), world.sends(1), world.sends(2));
  }

  /** A write-only run of a truncated session sends nothing, asks for nothing and keeps it alive. */
  lemma TruncatedRunIsSilent(x: SessionState, events: set<int>, world: World)
    requires Truncated(x.stage)
    requires WRITE_BIT in events && READ_BIT !in events && ERROR_BIT !in events && CONTINUE_BIT !in events
    ensures AfterRun(x, events, world) == (x.(stage := x.stage.(open := None)), 0)
  {
  }

  /** A truncated session with nothing left to read forgets that its peer has closed. */
  lemma ReadErrorForgotten(x: SessionState, world: World)
    requires Truncated(x.stage) && (x.stage.closed || world.recvs == [Closed])
    ensures AfterRun(x, {READ_BIT, WRITE_BIT}, world).1 == 0
    ensures Asks(AfterRun(x, {READ_BIT, WRITE_BIT}, world).0) == Asks(x)
  {
    hide Fitting;
    assert !ReadsOut(x, world);
    ReadExact(x, world);
  }

  /** A truncated session gets a request that is not answered, and the socket breaks before what is
      left is sent: the run closes the socket and yet keeps the session alive. */
  lemma ClosedAndKept(x: SessionState, word: seq<Byte>, u: seq<Byte>, world: World)
    requires Truncated(x.stage) && !x.stage.closed
    requires Brings(x.received, word, u, world) && word != ['G', 'E', 'T'] && world.sends(0) == Broken
    ensures var (x', ret) := AfterRun(x, {READ_BIT, WRITE_BIT}, world);
      && ret == 0 && x'.readAsks == x.readAsks + 1
      && x'.stage == x.stage.(open := None, closed := true)
  {
    hide Brings, AfterRead;
    ReadBrings(x, word, u, world);
    assert x.stage.sent + x.stage.rest[..0] == x.stage.sent && x.stage.rest[0..] == x.stage.rest;
  }

  /** A session x that was new before it was asked for the file at u, and could send only a part of the
      header, is asked for a path without one. */
  ghost predicate PartOfHeaderThenPage(x: SessionState, u: seq<Byte>, w1: World, u': seq<Byte>, w2: World) {
    && Brings([], ['G', 'E', 'T'], u, w1) && w1.files(u).File? && w1.files(u).content != []
    && Taken(w1.sends(0), |w1.files(u).text|) < |w1.files(u).text| && w1.sends(0) != Broken
    && !x.stage.closed && Brings(x.received, ['G', 'E', 'T'], u', w2) && w2.files(u').Page? && w2.files(u').bodyLen != 0
    && Drains(AfterAnswer(x.stage, w2.files(u')), w2.sends(0))
  }

  /** Then the file follows the error page. */
  lemma FileFollowsPage(before: Fields, garbage: int, u: seq<Byte>, w1: World, u': seq<Byte>, w2: World)
    ensures var x1 := AfterRun(New(before, garbage), {READ_BIT}, w1).0;
      var x2 := AfterRun(x1, {READ_BIT}, w2).0;
      PartOfHeaderThenPage(x1, u, w1, u', w2) ==>
        Produced(x2.stage) == w1.files(u).text + w2.files(u').text + w1.files(u).content
  {
    hide Brings, AfterFlush, AfterRun, LeftAfter;
    if PartOfHeaderThenPage(AfterRun(New(before, garbage), {READ_BIT}, w1).0, u, w1, u', w2) {
      var s0 := AfterAnswer(New(before, garbage).stage, w1.files(u));
      RunOfRequest(New(before, garbage), u, w1);
      FlushExact(s0, w1.sends(0), w1.sends(1), w1.sends(2));
      PartKeepsFile(s0, w1.sends(0), w1.sends(1), w1.sends(2));
      var x1 := AfterRun(New(before, garbage), {READ_BIT}, w1).0;
      RunOfRequest(x1, u', w2);
      PageBodyIff(x1.stage, w2.files(u').text, w2.files(u').bodyLen, w2.sends(0), w2.sends(1), w2.sends(2));
    }
  }

  lemma PartKeepsFile(s: Stage, r0: SendResult, r1: SendResult, r2: SendResult)
    requires Taken(r0, |s.rest|) < |s.rest|
    ensures AfterFlush(s, r0, r1, r2).0.open == s.open && AfterFlush(s, r0, r1, r2).0.readCount == s.readCount
  {
  }

  // ---------- the length that is announced ----------

  /** The file that a run opens, if any. */
  function ServedIn(x: SessionState, v: Visit): Option<seq<Byte>> {
    if ERROR_BIT in v.0 || READ_BIT !in v.0 || !ReadsOut(x, v.1) then None
    else
      match Frame(Arrived(x, v.1))
      case None => None
      case Some(n) =>
        var q := ParsedFields(Arrived(x, v.1)[..n], x.request, v.1.mem);
        if q.verb != 0 then None
        else match v.1.files(q.uri.requestPath) case File(_, content) => Some(content) case _ => None
  }

  /** The first file that is not empty and was opened over some runs. */
  function FirstServed(x: SessionState, ret: int, vs: seq<Visit>): Option<seq<Byte>>
    decreases |vs|
  {
    if ret < 0 || vs == [] then None
    else
      var c := ServedIn(x, vs[0]);
      var (x', ret') := AfterRun(x, vs[0].0, vs[0].1);
      if c.Some? && c.value != [] then c else FirstServed(x', ret', vs[1..])
  }

  lemma WritesKeepLength(s: Stage, ret: int, events: set<int>, world: World)
    ensures var s' := AfterWrites(s, ret, events, world).0; s'.contentLen == s.contentLen && s'.rangeStop == s.rangeStop
  {
    hide AfterContinue;
    ContinueExact(s, world.sends(3), world.sends(4));
    ContinueExact(Written(s, events, world), world.sends(5), world.sends(6));
  }

  /** The range stop after a run: a file sets it if it is not set. */
  lemma RunSetsStop(x: SessionState, v: Visit)
    ensures var s := AfterRun(x, v.0, v.1).0.stage;
      match ServedIn(x, v)
      case None => s.rangeStop == x.stage.rangeStop
      case Some(c) => s.rangeStop == (if x.stage.rangeStop == -1 then |c| - 1 else x.stage.rangeStop)
                      && s.contentLen == s.rangeStop + 1
  {
    hide ReadsOut, Fitting, Frame, AfterFlush, ParsedFields, AfterWrites;
    if ERROR_BIT !in v.0 {
      var (x1, ret1) := if READ_BIT in v.0 then AfterRead(x, v.1) else (x, 0);
      WritesKeepLength(x1.stage, ret1, v.0, v.1);
      if READ_BIT in v.0 && ReadsOut(x, v.1) && Frame(Arrived(x, v.1)).Some? {
        var n := Frame(Arrived(x, v.1)).value;
        var q := ParsedFields(Arrived(x, v.1)[..n], x.request, v.1.mem);
        FlushExact(Answered(x.stage, q, v.1.files), v.1.sends(0), v.1.sends(1), v.1.sends(2));
      }
    }
  }

  /** Over any runs of a session the range stop is that of the first file that was not empty. */
  lemma {:induction false} StopIsFirst(x: SessionState, ret: int, vs: seq<Visit>)
    ensures Visits(x, ret, vs).stage.rangeStop ==
      if x.stage.rangeStop != -1 then x.stage.rangeStop
      else match FirstServed(x, ret, vs) case None => -1 case Some(c) => |c| - 1
    decreases |vs|
  {
    hide AfterRun, ServedIn;
    if ret >= 0 && vs != [] {
      RunSetsStop(x, vs[0]);
      var (x', ret') := AfterRun(x, vs[0].0, vs[0].1);
      StopIsFirst(x', ret', vs[1..]);
      FirstNotEmpty(x', ret', vs[1..]);
    }
  }

  lemma {:induction false} FirstNotEmpty(x: SessionState, ret: int, vs: seq<Visit>)
    ensures FirstServed(x, ret, vs).Some? ==> FirstServed(x, ret, vs).value != []
    decreases |vs|
  {
    hide AfterRun, ServedIn;
    if ret >= 0 && vs != [] {
      var (x', ret') := AfterRun(x, vs[0].0, vs[0].1);
      FirstNotEmpty(x', ret', vs[1..]);
    }
  }

  /** Whatever a new session has served so far, a file is announced with its own length exactly when no
      file that was not empty came before it, or the first such had the same length. */
  lemma LengthAnnouncedIff(before: Fields, garbage: int, vs: seq<Visit>, v: Visit)
    ensures var x := Visits(New(before, garbage), 0, vs);
      var first := FirstServed(New(before, garbage), 0, vs);
      ServedIn(x, v).Some? ==>
        (AfterRun(x, v.0, v.1).0.stage.contentLen == |ServedIn(x, v).value| <==>
         first == None || |first.value| == |ServedIn(x, v).value|)
  {
    hide AfterRun, ServedIn, Visits, FirstServed;
    StopIsFirst(New(before, garbage), 0, vs);
    FirstNotEmpty(New(before, garbage), 0, vs);
    RunSetsStop(Visits(New(before, garbage), 0, vs), v);
  }

  /** A session sends a first file whole and is then asked for a second one of another length, of which
      the first send takes a part; w3 is the run that finds room for the rest. */
  ghost predicate OtherLength(x: SessionState, u: seq<Byte>, w1: World, u': seq<Byte>, w2: World, w3: World) {
    && Brings([], ['G', 'E', 'T'], u, w1) && w1.files(u).File? && w1.files(u).content != []
    && Taken(w1.sends(0), |w1.files(u).text|) == |w1.files(u).text|
    && Taken(w1.sends(2), |w1.files(u).content|) == |w1.files(u).content|
    && Brings(x.received, ['G', 'E', 'T'], u', w2) && w2.files(u').File? && w2.files(u').content != []
    && |w2.files(u').content| != |w1.files(u).content|
    && Taken(w2.sends(0), |w2.files(u').text|) == |w2.files(u').text|
    && 0 < Taken(w2.sends(2), |w2.files(u').content|) < |w2.files(u').content|
    && Taken(w3.sends(3), |w2.files(u').content|) == |w2.files(u').content|
  }

  /** Then the second file is produced twice. */
  lemma SecondFileTwice(before: Fields, garbage: int, u: seq<Byte>, w1: World, u': seq<Byte>, w2: World, w3: World)
    ensures var x1 := AfterRun(New(before, garbage), {READ_BIT}, w1).0;
      var x2 := AfterRun(x1, {READ_BIT}, w2).0;
      var x3 := AfterRun(x2, {WRITE_BIT}, w3).0;
      OtherLength(x1, u, w1, u', w2, w3) ==>
        Produced(x3.stage) == w1.files(u).text + w1.files(u).content
                              + w2.files(u').text + w2.files(u').content + w2.files(u').content
  {
    hide Brings, AfterFlush, AfterRun, AfterWrite, Produced;
    var x0 := New(before, garbage);
    var x1 := AfterRun(x0, {READ_BIT}, w1).0;
    if OtherLength(x1, u, w1, u', w2, w3) {
      RunOfRequest(x0, u, w1);
      ServedWhole(x0.stage, w1.files(u), w1.sends(0), w1.sends(1), w1.sends(2));
      RunOfRequest(x1, u', w2);
      var x2 := AfterRun(x1, {READ_BIT}, w2).0;
      ServedInPart(x1.stage, w2.files(u'), w2.sends(0), w2.sends(1), w2.sends(2));
      ServedAgain(x2, w2.files(u').content, w3);
    }
  }

  lemma ServedWhole(s: Stage, a: Answer, r0: SendResult, r1: SendResult, r2: SendResult)
    requires a.File? && a.content != [] && s == Stage([], [], None, 0, s.contentLen, -1, 0, false)
    requires Taken(r0, |a.text|) == |a.text| && Taken(r2, |a.content|) == |a.content|
    ensures var s' := AfterFlush(AfterAnswer(s, a), r0, r1, r2).0;
      && Produced(s') == a.text + a.content && s'.rest == [] && s'.rangeStop == |a.content| - 1 && !s'.closed
  {
    hide AfterFlush;
    FlushExact(AfterAnswer(s, a), r0, r1, r2);
    assert [] + ([] + a.text) == a.text;
  }

  lemma ServedInPart(s: Stage, a: Answer, r0: SendResult, r1: SendResult, r2: SendResult)
    requires a.File? && a.content != [] && s.rest == [] && !s.closed && s.rangeStop >= 0 && s.rangeStop + 1 != |a.content|
    requires Taken(r0, |a.text|) == |a.text| && 0 < Taken(r2, |a.content|) < |a.content|
    ensures var s' := AfterFlush(AfterAnswer(s, a), r0, r1, r2).0;
      && Produced(s') == Produced(s) + a.text + a.content && s'.open == Some(a.content)
      && s'.readCount == |a.content| != s'.contentLen && !s'.closed && 0 < |s'.rest| < |a.content|
  {
    hide AfterFlush;
    var s1 := AfterAnswer(s, a);
    assert Produced(s1) == Produced(s) + a.text;
    FlushExact(s1, r0, r1, r2);
    FlushIsWrite(s1, r0, r1, r2);
    Delivery.StaysOpen(s1, (r0, r2));
  }

  lemma ServedAgain(x: SessionState, c: seq<Byte>, w: World)
    requires x.stage.open == Some(c) && !AllRead(x.stage) && !x.stage.closed && |x.stage.rest| < |c|
    requires Taken(w.sends(3), |c|) == |c|
    ensures Produced(AfterRun(x, {WRITE_BIT}, w).0.stage) == Produced(x.stage) + c
  {
    hide AfterContinue;
    ContinueExact(x.stage, w.sends(3), w.sends(4));
  }

  // ---------- such runs exist ----------

  /** The shortest printed request. */
  function Plainly(word: seq<Byte>, u: seq<Byte>): Printed {
    Printed(word, [' '], u, [' '], ['H', 'T', 'T', 'P', '/', '1', '.', '1'], CrLf, [], CrLf)
  }

  /** A request that arrives whole in an empty buffer, with nothing behind it. */
  lemma RequestArrives(x: SessionState, word: seq<Byte>, u: seq<Byte>, world: World)
    requires !x.stage.closed && x.received == []
    requires Letters(word) && |word| < 100 && ValidUri(u) && |u| < 1000
    requires world.recvs == [Data(Render(Plainly(word, u))), Again]
    ensures Brings([], word, u, world) && AfterRun(x, {READ_BIT}, world).0.received == []
  {
    hide Render, AfterFlush, AfterAnswer, Recovered, Frame, Fitting;
    RequestIsShort(word, u);
    var f := Render(Plainly(word, u));
    var rs: seq<Recv> := [Data(f), Again];
    assert rs[1..] == [Again] && rs[1..][1..] == [];
    assert Stop(rs[1..]) == Again && Delivered(rs[1..]) == [];
    assert Stop(rs) == Again && Delivered(rs) == f + [];
    assert [] + (f + []) == f + [] == f;
    Fits(f);
    assert PathRequest(Plainly(word, u), []);
    ReadOfRequest(x, Plainly(word, u), [], world);
  }

  lemma Fits(s: seq<Byte>)
    requires |s| < REQUEST_BUFF_SIZE
    ensures Fitting(s) == s
  {
  }

  lemma RequestIsShort(word: seq<Byte>, u: seq<Byte>)
    requires |word| < 100 && |u| < 1000
    ensures |Render(Plainly(word, u))| < 2000
  {
  }

  lemma Words()
    ensures Letters(['G', 'E', 'T']) && Letters(['P', 'O', 'S', 'T'])
  {
    assert UPPER[4] == 'E' && UPPER[6] == 'G' && UPPER[14] == 'O' && UPPER[15] == 'P' && UPPER[18] == 'S' && UPPER[19] == 'T';
  }

  /** A world that truncates the first response and leaves the receive buffer empty. */
  lemma TruncatingWorld(mem: Memory) returns (world: World)
    ensures SentInPart(['/'], world)
    ensures forall before, garbage :: AfterRun(New(before, garbage), {READ_BIT}, world).0.received == []
  {
    hide Render, Brings;
    Words();
    world := World(p => File(['h'], ['a', 'b']), mem, [Data(Render(Plainly(['G', 'E', 'T'], ['/']))), Again], i => Takes(1));
    RequestArrives(New(NoFields(), 0), ['G', 'E', 'T'], ['/'], world);
    forall before, garbage ensures AfterRun(New(before, garbage), {READ_BIT}, world).0.received == [] {
      RequestArrives(New(before, garbage), ['G', 'E', 'T'], ['/'], world);
    }
  }

  /** A world in which a POST arrives and the socket breaks. */
  lemma ClosingWorld(mem: Memory) returns (world: World)
    ensures Brings([], ['P', 'O', 'S', 'T'], ['/'], world) && world.sends(0) == Broken
  {
    hide Render, Brings;
    Words();
    world := World(p => Page([], 0), mem, [Data(Render(Plainly(['P', 'O', 'S', 'T'], ['/']))), Again], i => Broken);
    RequestArrives(New(NoFields(), 0), ['P', 'O', 'S', 'T'], ['/'], world);
  }

  function NoFields(): Fields {
    Request([], 0, 0, Uri([], [], [], [], [], [], []), false, false, seq(NUM_HEADERS, _ => []))
  }

  /** Two worlds, with the same files, in which a file follows an error page. */
  lemma FileThenPageWorlds(before: Fields, garbage: int, mem: Memory) returns (w1: World, w2: World)
    ensures w1.files == w2.files && w1.mem == w2.mem == mem
    ensures PartOfHeaderThenPage(AfterRun(New(before, garbage), {READ_BIT}, w1).0, ['/', 'f'], w1, ['/'], w2)
  {
    hide Render, Brings, AfterRun;
    Words();
    var files: seq<Byte> -> Answer := p => if p == ['/', 'f'] then File(['h', 'h'], ['a']) else Page(['e'], 1);
    w1 := World(files, mem, [Data(Render(Plainly(['G', 'E', 'T'], ['/', 'f']))), Again], i => Takes(1));
    w2 := World(files, mem, [Data(Render(Plainly(['G', 'E', 'T'], ['/']))), Again], i => Takes(RESPONSE_BUFFER_SIZE));
    RequestArrives(New(before, garbage), ['G', 'E', 'T'], ['/', 'f'], w1);
    RunOfRequest(New(before, garbage), ['/', 'f'], w1);
    FlushExact(AfterAnswer(New(before, garbage).stage, files(['/', 'f'])), Takes(1), Takes(1), Takes(1));
    RequestArrives(AfterRun(New(before, garbage), {READ_BIT}, w1).0, ['G', 'E', 'T'], ['/'], w2);
  }

  /** Three worlds, with the same files, in which a second file is produced twice. */
  lemma OtherLengthWorlds(before: Fields, garbage: int, mem: Memory) returns (w1: World, w2: World, w3: World)
    ensures w1.files == w2.files == w3.files && w1.mem == w2.mem == w3.mem == mem
    ensures OtherLength(AfterRun(New(before, garbage), {READ_BIT}, w1).0, ['/', 'f'], w1, ['/'], w2, w3)
  {
    hide Render, Brings, AfterRun;
    Words();
    var files: seq<Byte> -> Answer := p => File(['h'], if p == ['/', 'f'] then ['a', 'b', 'c'] else ['d', 'e']);
    w1 := World(files, mem, [Data(Render(Plainly(['G', 'E', 'T'], ['/', 'f']))), Again], i => Takes(3));
    w2 := World(files, mem, [Data(Render(Plainly(['G', 'E', 'T'], ['/']))), Again], i => Takes(1));
    w3 := World(files, mem, [Again], i => Takes(3));
    RequestArrives(New(before, garbage), ['G', 'E', 'T'], ['/', 'f'], w1);
    RunOfRequest(New(before, garbage), ['/', 'f'], w1);
    ServedWhole(New(before, garbage).stage, files(['/', 'f']), Takes(3), Takes(3), Takes(3));
    RequestArrives(AfterRun(New(before, garbage), {READ_BIT}, w1).0, ['G', 'E', 'T'], ['/'], w2);
  }
}
