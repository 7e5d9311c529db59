/** What a session receives and produces over any number of its runs: every byte taken over is in a
    request that was framed or still in the buffer, requests may arrive in pieces, and what is sent
    are the texts and bodies of the responses in order. */
module SessionHistory {
  import opened Bytes
  import opened Events
  import opened Framing
  import opened HttpProtocol
  import opened Options
  import opened Receiving
  import opened RequestRoundTrip
  import opened RequestSyntax
  import opened SessionRuns
  import opened SessionTurns
  import opened Stages
  import opened StringParsers

  // ---------- bytes received ----------

  /** The bytes that recv puts into the buffer in a run: as many as there is room for. */
  function TookIn(x: SessionState, v: Visit): seq<Byte> {
    if ERROR_BIT in v.0 || READ_BIT !in v.0 then []
    else
      var room := if |x.received| <= REQUEST_BUFF_SIZE then REQUEST_BUFF_SIZE - |x.received| else 0;
      var all := Delivered(Recvs(x, v.1));
      if |all| <= room then all else all[..room]
  }

  /** The request that a run frames, if any. */
  function FramedIn(x: SessionState, v: Visit): seq<seq<Byte>> {
    if ERROR_BIT in v.0 || READ_BIT !in v.0 || !ReadsOut(x, v.1) then []
    else
      var got := x.received + TookIn(x, v);
      match Frame(got) case None => [] case Some(n) => [got[..n]]
  }

  predicate InBuffer(x: SessionState) {
    |x.received| <= REQUEST_BUFF_SIZE
  }

  lemma ArrivedIs(x: SessionState, v: Visit)
    requires InBuffer(x) && ERROR_BIT !in v.0 && READ_BIT in v.0
    ensures Arrived(x, v.1) == x.received + TookIn(x, v) && |Arrived(x, v.1)| <= REQUEST_BUFF_SIZE
  {
  }

  /** One run: what was in the buffer and what was taken over is the request framed, if any, and what is
      in the buffer now; and the fields are those of that request, or as before. */
  lemma RunConserves(x: SessionState, v: Visit)
    requires InBuffer(x)
    ensures var x' := AfterRun(x, v.0, v.1).0;
      && InBuffer(x') && Joined(FramedIn(x, v)) + x'.received == x.received + TookIn(x, v)
      && (FramedIn(x, v) == [] ==> x'.request == x.request)
      && (FramedIn(x, v) != [] ==> Frame(FramedIn(x, v)[0]) == Some(|FramedIn(x, v)[0]|)
                                   && x'.request == ParsedFields(FramedIn(x, v)[0], x.request, v.1.mem))
  {
    hide Frame, ReadsOut, Fitting, ParsedFields, AfterFlush, AfterWrites, Answered, TookIn, Joined;
    OneJoined(x.received, 0);
    if ERROR_BIT !in v.0 && READ_BIT in v.0 {
      ArrivedIs(x, v);
      var got := Arrived(x, v.1);
      OneJoined(got, 0);
      if Frame(got).Some? {
        FramePrefix(got);
        OneJoined(got, Frame(got).value);
      }
    } else {
      NothingTaken(x, v);
    }
  }

  lemma OneJoined(s: seq<Byte>, n: nat)
    requires n <= |s|
    ensures Joined([s[..n]]) + s[n..] == s && Joined([]) + s == s + [] == s
  {
  }

  lemma NothingTaken(x: SessionState, v: Visit)
    requires ERROR_BIT in v.0 || READ_BIT !in v.0
    ensures TookIn(x, v) == []
  {
  }

  /** ... over runs. */
  function TookOver(x: SessionState, ret: int, vs: seq<Visit>): seq<Byte>
    decreases |vs|
  {
    if ret < 0 || vs == [] then []
    else
      var (x', ret') := AfterRun(x, vs[0].0, vs[0].1);
      TookIn(x, vs[0]) + TookOver(x', ret', vs[1..])
  }

  function FramedOver(x: SessionState, ret: int, vs: seq<Visit>): seq<seq<Byte>>
    decreases |vs|
  {
    if ret < 0 || vs == [] then []
    else
      var (x', ret') := AfterRun(x, vs[0].0, vs[0].1);
      FramedIn(x, vs[0]) + FramedOver(x', ret', vs[1..])
  }

  lemma {:induction false} JoinedTwo(fs: seq<seq<Byte>>, gs: seq<seq<Byte>>)
    ensures Joined(fs + gs) == Joined(fs) + Joined(gs)
  {
    if fs == [] {
      assert fs + gs == gs;
    } else {
      JoinedTwo(fs[1..], gs);
      assert (fs + gs)[1..] == fs[1..] + gs;
    }
  }

  /** Over every sequence of runs with any events, the requests framed and what is in the buffer are all
      the bytes taken over, in order. */
  lemma {:induction false} BytesConserved(x: SessionState, ret: int, vs: seq<Visit>)
    requires InBuffer(x)
    ensures Joined(FramedOver(x, ret, vs)) + Visits(x, ret, vs).received == x.received + TookOver(x, ret, vs)
    decreases |vs|
  {
    hide AfterRun, FramedIn, TookIn, Joined, InBuffer;
    if ret < 0 || vs == [] {
      NothingJoined(x.received);
    } else {
      RunConserves(x, vs[0]);
      var (x', ret') := AfterRun(x, vs[0].0, vs[0].1);
      BytesConserved(x', ret', vs[1..]);
      JoinedTwo(FramedIn(x, vs[0]), FramedOver(x', ret', vs[1..]));
      Regroup(Joined(FramedIn(x, vs[0])), Joined(FramedOver(x', ret', vs[1..])), Visits(x', ret', vs[1..]).received,
              x'.received, TookOver(x', ret', vs[1..]), x.received, TookIn(x, vs[0]));
    }
  }

  lemma Regroup(f: seq<Byte>, g: seq<Byte>, last: seq<Byte>, mid: seq<Byte>, more: seq<Byte>, first: seq<Byte>, took: seq<Byte>)
    requires f + mid == first + took && g + last == mid + more
    ensures (f + g) + last == first + (took + more)
  {
    assert (f + g) + last == f + (g + last) == (f + mid) + more;
  }

  /** Each request framed is one whole frame. */
  lemma {:induction false} FramesWhole(x: SessionState, ret: int, vs: seq<Visit>)
    requires InBuffer(x)
    ensures forall f :: f in FramedOver(x, ret, vs) ==> Frame(f) == Some(|f|)
    decreases |vs|
  {
    hide AfterRun, FramedIn, TookIn, Frame, InBuffer;
    if ret >= 0 && vs != [] {
      RunConserves(x, vs[0]);
      AtMostOne(x, vs[0]);
      var (x', ret') := AfterRun(x, vs[0].0, vs[0].1);
      FramesWhole(x', ret', vs[1..]);
    }
  }

  lemma NothingJoined(s: seq<Byte>)
    ensures Joined([]) + s == s == s + []
  {
  }

  lemma AtMostOne(x: SessionState, v: Visit)
    ensures forall f :: f in FramedIn(x, v) ==> f == FramedIn(x, v)[0]
  {
    hide Frame, ReadsOut, TookIn;
  }

  // ---------- requests in pieces ----------

  /** The last byte but one of a request that ends in a bare LF is not a CR. */
  lemma {:induction false} BeforeLast(before: Eol, hs: seq<Header>)
    requires ValidHeaders(before, hs, Lf)
    ensures var t := EolBytes(before) + RenderHeaders(hs, Lf); |t| >= 2 && t[|t| - 2] != '\r'
    decreases |hs|
  {
    if hs != [] {
      hide HeaderLine;
      BeforeLast(hs[0].eol, hs[1..]);
      var more := EolBytes(hs[0].eol) + RenderHeaders(hs[1..], Lf);
      var t := EolBytes(before) + RenderHeaders(hs, Lf);
      assert t == (EolBytes(before) + HeaderLine(hs[0])) + more;
    }
  }

  lemma LastEol(p: Printed)
    requires Valid(p) && Render(p)[|Render(p)| - 1] == '\n' && |Render(p)| >= 2 && Render(p)[|Render(p)| - 2] == '\r'
    ensures p.last == CrLf
  {
    hide FirstLineOf, ValidHeaders;
    var t := EolBytes(p.eol) + RenderHeaders(p.headers, p.last);
    assert Render(p) == FirstLineOf(p) + t;
    RenderHeadersEnd(p.headers, p.last);
    if p.last == Lf { BeforeLast(p.eol, p.headers); }
  }

  lemma {:induction false} CutHeaders(hs: seq<Header>)
    ensures RenderHeaders(hs, CrLf) == RenderHeaders(hs, Cr) + ['\n']
    decreases |hs|
  {
    hide HeaderLine;
    if hs != [] {
      CutHeaders(hs[1..]);
      assert HeaderLine(hs[0]) + (EolBytes(hs[0].eol) + (RenderHeaders(hs[1..], Cr) + ['\n']))
          == HeaderLine(hs[0]) + (EolBytes(hs[0].eol) + RenderHeaders(hs[1..], Cr)) + ['\n'];
    }
  }

  lemma {:induction false} StillValid(before: Eol, hs: seq<Header>)
    requires ValidHeaders(before, hs, CrLf)
    ensures ValidHeaders(before, hs, Cr)
    decreases |hs|
  {
    if hs != [] { StillValid(hs[0].eol, hs[1..]); }
  }

  /** A request that ends in CRLF, without that LF, is one that ends in CR. */
  lemma WithoutLf(p: Printed)
    requires Valid(p) && p.last == CrLf
    ensures Valid(p.(last := Cr)) && Render(p) == Render(p.(last := Cr)) + ['\n']
  {
    hide RenderHeaders, FirstLineOf;
    CutHeaders(p.headers);
    StillValid(p.eol, p.headers);
    assert FirstLineOf(p.(last := Cr)) == FirstLineOf(p) by { SameFirstLine(p); }
    var a, b := FirstLineOf(p), EolBytes(p.eol);
    assert a + (b + (RenderHeaders(p.headers, Cr) + ['\n'])) == a + (b + RenderHeaders(p.headers, Cr)) + ['\n'];
  }

  lemma SameFirstLine(p: Printed)
    ensures FirstLineOf(p.(last := Cr)) == FirstLineOf(p)
  {
  }

  /** A part of a printed request holds a whole request exactly if only the LF of a final CRLF is missing. */
  lemma PartFramedIff(p: Printed, k: nat)
    requires Valid(p) && k < |Render(p)|
    ensures Frame(Render(p)[..k]).Some? <==> k == |Render(p)| - 1 && p.last == CrLf
  {
    hide Frame, Render, Valid;
    var f := Render(p);
    RenderFrames(p);
    if Frame(f[..k]).Some? {
      FrameStable(f[..k], f[k..]);
      assert f[..k] + f[k..] == f;
      assert k == |f| - 1 && f[|f| - 1] == '\n' && f[|f| - 2] == '\r';
      LastEol(p);
    }
    if k == |f| - 1 && p.last == CrLf {
      WithoutLf(p);
      RenderFrames(p.(last := Cr));
      assert f[..k] == Render(p.(last := Cr));
    }
  }

  /** Runs for EVENT_READ alone that each read the socket until it has no more. */
  predicate Reading(x: SessionState, vs: seq<Visit>)
    decreases |vs|
  {
    vs == [] || (vs[0].0 == {READ_BIT} && ReadsOut(x, vs[0].1) && Reading(AfterRun(x, vs[0].0, vs[0].1).0, vs[1..]))
  }

  lemma OnePiece(x: SessionState, w: World)
    requires InBuffer(x) && ReadsOut(x, w) && Frame(x.received + TookIn(x, ({READ_BIT}, w))) == None
    ensures AfterRun(x, {READ_BIT}, w)
         == (x.(received := x.received + TookIn(x, ({READ_BIT}, w)), readAsks := x.readAsks + 1), 0)
  {
    hide Frame, ReadsOut, TookIn, Fitting;
    ArrivedIs(x, ({READ_BIT}, w));
  }

  /** A part of a printed request: not the whole, and not all but the final LF. */
  predicate PartOf(got: seq<Byte>, p: Printed) {
    got <= Render(p) && |got| < |Render(p)| && !(|got| == |Render(p)| - 1 && p.last == CrLf)
  }

  /** As long as only a part of a printed request has arrived, the session keeps it and does nothing else. */
  lemma {:induction false} PiecesWait(x: SessionState, vs: seq<Visit>, p: Printed)
    requires InBuffer(x) && Reading(x, vs) && Valid(p) && PartOf(x.received + TookOver(x, 0, vs), p)
    ensures Visits(x, 0, vs) == x.(received := x.received + TookOver(x, 0, vs), readAsks := x.readAsks + |vs|)
    ensures InBuffer(Visits(x, 0, vs))
    decreases |vs|
  {
    hide Frame, Render, Valid, AfterRun, TookIn, ReadsOut;
    if vs == [] {
      assert x.received + [] == x.received;
    } else {
      var w, took := vs[0].1, TookIn(x, vs[0]);
      var got := x.received + TookOver(x, 0, vs);
      var first := x.received + took;
      var x' := AfterRun(x, vs[0].0, w).0;
      assert got == first + TookOver(x', AfterRun(x, vs[0].0, w).1, vs[1..]);
      assert first == Render(p)[..|first|];
      PartFramedIff(p, |first|);
      OnePiece(x, w);
      RunConserves(x, vs[0]);
      PiecesWait(x', vs[1..], p);
    }
  }

  /** A read that ends with p and more in the buffer. */
  predicate Completes(x: SessionState, w: World, p: Printed, more: seq<Byte>) {
    ReadsOut(x, w) && Arrived(x, w) == Render(p) + more
  }

  /** x but for the requests for EVENT_READ. */
  function NotCounting(r: (SessionState, int)): (SessionState, int) {
    (r.0.(readAsks := 0), r.1)
  }

  /** A printed request arrives in pieces over the runs vs and the one that meets w; and whole in the
      one that meets whole. */
  ghost predicate InPieces(x: SessionState, vs: seq<Visit>, p: Printed, more: seq<Byte>, w: World, whole: World) {
    && InBuffer(x) && x.received == [] && Reading(x, vs) && PathRequest(p, more) && PartOf(TookOver(x, 0, vs), p)
    && Completes(Visits(x, 0, vs), w, p, more) && Completes(x, whole, p, more)
    && whole.files == w.files && whole.mem == w.mem && whole.sends == w.sends
  }

  /** In the run that brings its last byte, a request that came in pieces is answered as if it had come
      whole. */
  lemma PiecesAnswered(x: SessionState, vs: seq<Visit>, p: Printed, more: seq<Byte>, w: World, whole: World)
    ensures InPieces(x, vs, p, more, w, whole) ==>
      NotCounting(AfterRun(Visits(x, 0, vs), {READ_BIT}, w)) == NotCounting(AfterRun(x, {READ_BIT}, whole))
  {
    hide AfterRun, Render, Valid, PartOf, Completes, Reading, Visits, InBuffer;
    if InPieces(x, vs, p, more, w, whole) {
      assert [] + TookOver(x, 0, vs) == TookOver(x, 0, vs);
      PiecesWait(x, vs, p);
      SameFromHere(x, Visits(x, 0, vs), p, more, w, whole);
    }
  }

  /** Two pieces, cut anywhere but before a final LF, are such pieces. */
  lemma TwoPieces(x: SessionState, p: Printed, k: nat, more: seq<Byte>, w0: World, w: World, whole: World)
    requires x.received == [] && !x.stage.closed && PathRequest(p, more)
    requires k < |Render(p)| && !(k == |Render(p)| - 1 && p.last == CrLf) && |Render(p) + more| < REQUEST_BUFF_SIZE
    requires w0.recvs == [Data(Render(p)[..k]), Again] && w.recvs == [Data(Render(p)[k..] + more), Again]
    requires whole == w.(recvs := [Data(Render(p) + more), Again])
    ensures InPieces(x, [({READ_BIT}, w0)], p, more, w, whole)
  {
    hide Render, Valid, AfterRun, Frame;
    var f, v := Render(p), ({READ_BIT}, w0);
    OneData(f[..k]);
    OneData(f[k..] + more);
    OneData(f + more);
    assert TookIn(x, v) == f[..k] && [] + f[..k] == f[..k];
    PartFramedIff(p, k);
    OnePiece(x, w0);
    assert [v][1..] == [];
    assert f[..k] + (f[k..] + more) == f + more;
    var y := AfterRun(x, {READ_BIT}, w0).0;
    assert TookOver(x, 0, [v]) == f[..k] + [] == f[..k];
    assert Visits(x, 0, [v]) == y;
    assert InBuffer(x);
    assert Reading(x, [v]);
    assert PartOf(f[..k], p);
    assert Completes(y, w, p, more);
    assert Completes(x, whole, p, more);
  }

  lemma OneData(s: seq<Byte>)
    ensures Delivered([Data(s), Again]) == s && Stop([Data(s), Again]) == Again
  {
    assert [Data(s), Again][1..] == [Again] && s + Delivered([Again]) == s;
  }

  lemma SameFromHere(x: SessionState, y: SessionState, p: Printed, more: seq<Byte>, w: World, whole: World)
    requires y == x.(received := y.received, readAsks := y.readAsks)
    requires Completes(y, w, p, more) && Completes(x, whole, p, more)
    requires whole.files == w.files && whole.mem == w.mem && whole.sends == w.sends
    ensures NotCounting(AfterRun(y, {READ_BIT}, w)) == NotCounting(AfterRun(x, {READ_BIT}, whole))
  {
    hide Frame, Render, ReadsOut, Fitting, ParsedFields, AfterFlush, Answered;
  }

  /** If all but the final LF arrives first, the request is answered without it. */
  lemma AnsweredWithoutLf(x: SessionState, p: Printed, world: World)
    requires Valid(p) && p.target[0] == '/' && p.last == CrLf
    requires ReadsOut(x, world) && Arrived(x, world) == Render(p)[..|Render(p)| - 1]
    ensures var (x', ret) := AfterRead(x, world);
      && x'.received == []
      && (x'.stage, ret) == AfterFlush(AnsweredTo(x.stage, p.word, p.target, world), world.sends(0), world.sends(1), world.sends(2))
  {
    hide Render, ReadsOut, Fitting, AfterFlush, AfterAnswer, AfterRead, Recovered, Frame;
    WithoutLf(p);
    var cut := p.(last := Cr);
    assert Render(p)[..|Render(p)| - 1] == Render(cut) + [];
    hide Valid;
    ReadOfRequest(x, cut, [], world);
  }

  /** ... and the LF, when it comes, spoils the next request: its method is not recognised, and it is not
      answered. */
  lemma StrayLfSpoilsNext(x: SessionState, p: Printed, more: seq<Byte>, world: World)
    requires Valid(p) && Ends(p.last, more)
    requires ReadsOut(x, world) && Arrived(x, world) == ['\n'] + Render(p) + more
    ensures var (x', ret) := AfterRead(x, world);
      && x'.received == more && x'.request.verb == ILLEGAL_METHOD
      && (x'.stage, ret) == AfterFlush(x.stage, world.sends(0), world.sends(1), world.sends(2))
  {
    hide Render, ReadsOut, Fitting, AfterFlush, AfterAnswer, Frame, ParsedFields, Valid;
    var f := ['\n'] + Render(p);
    LfThenRequest(p, more);
    assert ['\n'] + Render(p) + more == f + more;
    assert (f + more)[..|f|] == f && (f + more)[|f|..] == more;
    LfThenRequest(p, []);
    assert f + [] == f;
    IllegalVerb(f, x.request, world.mem);
  }

  lemma LfThenRequest(p: Printed, more: seq<Byte>)
    requires Valid(p) && Ends(p.last, more)
    ensures Frame(['\n'] + Render(p) + more) == Some(1 + |Render(p)|)
  {
    hide Frame, RenderHeaders, Ends;
    RenderIsStable(p, more);
    FirstIsNoEol(p);
    var t := ['\n'] + Render(p) + more;
    assert t == ['\n'] + (Render(p) + more) && t[1..] == Render(p) + more;
    EolLine(t);
  }

  lemma FirstIsNoEol(p: Printed)
    requires Valid(p)
    ensures Render(p) != [] && !IsEol(Render(p)[0])
  {
    hide RenderHeaders, ValidHeaders;
    FirstLineEolFree(p);
    assert Render(p)[0] == FirstLineOf(p)[0] && FirstLineOf(p)[0] in FirstLineOf(p);
  }

  lemma IllegalVerb(f: seq<Byte>, before: Fields, mem: Memory)
    requires f != [] && f[0] == '\n' && Frame(f) == Some(|f|)
    ensures ParsedFields(f, before, mem).verb == ILLEGAL_METHOD
  {
    hide Frame, UriLine, SkipSpace, ParsedHeaders, ParsedUri;
    FramerAndParserAgree(f, Cleared(before), mem);
    assert NON_WORD_MASK('\n') && Until(f, NON_WORD_MASK) == 0 && f[..0] == [];
    NoVerb(f);
    VerbStays(f, Cleared(before), mem);
  }

  lemma NoVerb(f: seq<Byte>)
    requires Until(f, NON_WORD_MASK) == 0
    ensures FirstLine(f).word == []
  {
    hide Until, SkipSpace;
  }

  lemma VerbStays(f: seq<Byte>, q: Request, mem: Memory)
    requires WellSized(q)
    ensures var h := Parsed(f, q, mem).0; h != Outside ==> h.q.verb == GetMethod(FirstLine(f).word)
  {
    hide FirstLine, ParsedHeaders, ParsedUri, GetMethod;
    var line := FirstLine(f);
    if line.rest.Some? { HeadersKeepVerb(line.rest.value, WithLine(q.(full := f), line, mem), mem); }
  }

  lemma {:induction false} HeadersKeepVerb(t: seq<Byte>, q: Request, mem: Memory)
    requires WellSized(q)
    ensures var h := ParsedHeaders(t, q, mem); h != Outside ==> h.q.verb == q.verb
    decreases |t|
  {
    hide FastHeader, ValueLine, EqualIgnoreCase;
    if t != [] && !IsEol(t[0]) {
      var h := OneHeader(t, q, mem);
      if h.Done? { HeadersKeepVerb(h.rest, h.q, mem); }
    }
  }

  // ---------- bytes produced ----------

  /** The text of the answer that a run gives. */
  function TextIn(x: SessionState, v: Visit): seq<Byte> {
    if FramedIn(x, v) == [] then []
    else
      var q := ParsedFields(FramedIn(x, v)[0], x.request, v.1.mem);
      if q.verb == 0 then v.1.files(q.uri.requestPath).text else []
  }

  /** The sending half once the text is behind what was unsent. */
  function StageAnswered(x: SessionState, v: Visit): Stage {
    if FramedIn(x, v) == [] then x.stage
    else Answered(x.stage, ParsedFields(FramedIn(x, v)[0], x.request, v.1.mem), v.1.files)
  }

  /** The file that the end of DoRead, DoWrite and DoContinue read, in that order. */
  function BodiesIn(x: SessionState, v: Visit): seq<Byte> {
    if ERROR_BIT in v.0 then []
    else
      var s0, s1 := StageAnswered(x, v), StageRead(x, v.0, v.1);
      var s2 := Written(s1, v.0, v.1);
      (if FramedIn(x, v) == [] || AllRead(s0) then [] else Body(s0, v.1.sends(0)))
      + ((if WRITE_BIT !in v.0 || AllRead(s1) then [] else Body(s1, v.1.sends(3)))
         + (if CONTINUE_BIT !in v.0 then [] else Body(s2, v.1.sends(5))))
  }

  lemma AnswerAppends(s: Stage, a: Answer)
    ensures Produced(AfterAnswer(s, a)) == Produced(s) + a.text && AfterAnswer(s, a).sent == s.sent
  {
    match a
    case Page(text, n) => AppendedBehind(s, text, [], n);
    case NoOpen(text, n) => AppendedBehind(s, text, [], n);
    case File(text, content) => AppendedBehind(s, text, content, 0);
  }

  lemma ReadProduces(x: SessionState, v: Visit)
    requires InBuffer(x) && ERROR_BIT !in v.0
    ensures var s0, s1 := StageAnswered(x, v), StageRead(x, v.0, v.1);
      && Produced(s1) == Produced(x.stage) + TextIn(x, v) + (if FramedIn(x, v) == [] || AllRead(s0) then [] else Body(s0, v.1.sends(0)))
      && x.stage.sent <= s1.sent
  {
    hide Frame, ReadsOut, Fitting, ParsedFields, AfterFlush, AfterAnswer, Produced, TookIn;
    assert Produced(x.stage) + [] + [] == Produced(x.stage);
    if READ_BIT in v.0 {
      ArrivedIs(x, v);
      if FramedIn(x, v) != [] {
        var q := ParsedFields(FramedIn(x, v)[0], x.request, v.1.mem);
        AnswerAppends(x.stage, v.1.files(q.uri.requestPath));
        FlushExact(StageAnswered(x, v), v.1.sends(0), v.1.sends(1), v.1.sends(2));
        assert Produced(x.stage) + [] == Produced(x.stage);
      }
    }
  }

  lemma WritesProduce(s: Stage, ret: int, events: set<int>, world: World)
    ensures var s' := AfterWrites(s, ret, events, world).0;
      var s2 := Written(s, events, world);
      && Produced(s') == Produced(s) + ((if WRITE_BIT !in events || AllRead(s) then [] else Body(s, world.sends(3)))
                                        + (if CONTINUE_BIT !in events then [] else Body(s2, world.sends(5))))
      && s.sent <= s'.sent
  {
    hide AfterContinue, AfterWrite, Produced, Body;
    WriteExact(s, world.sends(3), world.sends(4));
    var s2 := Written(s, events, world);
    ContinueExact(s2, world.sends(5), world.sends(6));
    assert Produced(s) + [] == Produced(s) && Produced(s2) + [] == Produced(s2);
    var w := if WRITE_BIT !in events || AllRead(s) then [] else Body(s, world.sends(3));
    var c := if CONTINUE_BIT !in events then [] else Body(s2, world.sends(5));
    assert Produced(s) + (w + c) == (Produced(s) + w) + c;
  }

  /** One run: what was sent or waits to be sent stays, and behind it come the text of the answer, if a
      request was answered, and then what was read of the open file. */
  lemma RunProduces(x: SessionState, v: Visit)
    requires InBuffer(x)
    ensures var s' := AfterRun(x, v.0, v.1).0.stage;
      Produced(s') == Produced(x.stage) + (TextIn(x, v) + BodiesIn(x, v)) && x.stage.sent <= s'.sent
  {
    hide AfterRead, AfterWrites, Produced, Body, FramedIn, StageAnswered, Written, ParsedFields;
    if ERROR_BIT in v.0 {
      NothingFramed(x, v);
      assert Produced(x.stage) + ([] + []) == Produced(x.stage);
    } else {
      ReadProduces(x, v);
      var s1 := StageRead(x, v.0, v.1);
      var ret := if READ_BIT in v.0 then AfterRead(x, v.1).1 else 0;
      WritesProduce(s1, ret, v.0, v.1);
      RegroupOutput(Produced(x.stage), TextIn(x, v), x, v);
    }
  }

  lemma NothingFramed(x: SessionState, v: Visit)
    requires ERROR_BIT in v.0
    ensures FramedIn(x, v) == []
  {
  }

  lemma RegroupOutput(p: seq<Byte>, text: seq<Byte>, x: SessionState, v: Visit)
    requires ERROR_BIT !in v.0
    ensures var s0, s1 := StageAnswered(x, v), StageRead(x, v.0, v.1);
      var s2 := Written(s1, v.0, v.1);
      p + text + (if FramedIn(x, v) == [] || AllRead(s0) then [] else Body(s0, v.1.sends(0)))
      + ((if WRITE_BIT !in v.0 || AllRead(s1) then [] else Body(s1, v.1.sends(3)))
         + (if CONTINUE_BIT !in v.0 then [] else Body(s2, v.1.sends(5)))) == p + (text + BodiesIn(x, v))
  {
    hide AfterRead, FramedIn, StageAnswered, Written, Body;
  }

  /** Everything that is sent or waits after some runs: the texts and bodies of the responses in order. */
  function OutputOver(x: SessionState, ret: int, vs: seq<Visit>): seq<Byte>
    decreases |vs|
  {
    if ret < 0 || vs == [] then []
    else
      var (x', ret') := AfterRun(x, vs[0].0, vs[0].1);
      TextIn(x, vs[0]) + BodiesIn(x, vs[0]) + OutputOver(x', ret', vs[1..])
  }

  lemma {:induction false} OutputConserved(x: SessionState, ret: int, vs: seq<Visit>)
    requires InBuffer(x)
    ensures var y := Visits(x, ret, vs);
      Produced(y.stage) == Produced(x.stage) + OutputOver(x, ret, vs) && x.stage.sent <= y.stage.sent
    decreases |vs|
  {
    hide AfterRun, TextIn, BodiesIn, Produced, InBuffer;
    if ret < 0 || vs == [] {
      assert Produced(x.stage) + [] == Produced(x.stage);
    } else {
      RunConserves(x, vs[0]);
      RunProduces(x, vs[0]);
      var (x', ret') := AfterRun(x, vs[0].0, vs[0].1);
      OutputConserved(x', ret', vs[1..]);
      var one := TextIn(x, vs[0]) + BodiesIn(x, vs[0]);
      assert (Produced(x.stage) + one) + OutputOver(x', ret', vs[1..]) == Produced(x.stage) + (one + OutputOver(x', ret', vs[1..]));
    }
  }

  /** What was answered last, of those answers that name a file: the file that can be open. */
  function LastFile(x: SessionState, ret: int, vs: seq<Visit>, file: Option<seq<Byte>>): Option<seq<Byte>>
    decreases |vs|
  {
    if ret < 0 || vs == [] then file
    else
      var (x', ret') := AfterRun(x, vs[0].0, vs[0].1);
      var c := ServedIn(x, vs[0]);
      LastFile(x', ret', vs[1..], if c.Some? then c else file)
  }

  lemma RunOpens(x: SessionState, v: Visit)
    requires InBuffer(x)
    ensures var s' := AfterRun(x, v.0, v.1).0.stage;
      s'.open == None || s'.open == if ServedIn(x, v).Some? then ServedIn(x, v) else x.stage.open
  {
    hide Frame, ReadsOut, Fitting, ParsedFields, AfterFlush, AfterContinue, AfterWrite, TookIn;
    if ERROR_BIT !in v.0 {
      var s1 := StageRead(x, v.0, v.1);
      WriteExact(s1, v.1.sends(3), v.1.sends(4));
      ContinueExact(Written(s1, v.0, v.1), v.1.sends(5), v.1.sends(6));
      if READ_BIT in v.0 && ReadsOut(x, v.1) && Frame(Arrived(x, v.1)).Some? {
        var n := Frame(Arrived(x, v.1)).value;
        var q := ParsedFields(Arrived(x, v.1)[..n], x.request, v.1.mem);
        FlushExact(Answered(x.stage, q, v.1.files), v.1.sends(0), v.1.sends(1), v.1.sends(2));
      }
    }
  }

  /** The file that a body is read from is the one that was answered last. */
  lemma {:induction false} OpenIsLast(x: SessionState, ret: int, vs: seq<Visit>, file: Option<seq<Byte>>)
    requires InBuffer(x) && (x.stage.open == None || x.stage.open == file)
    ensures var open := Visits(x, ret, vs).stage.open; open == None || open == LastFile(x, ret, vs, file)
    decreases |vs|
  {
    hide AfterRun, ServedIn, InBuffer;
    if ret >= 0 && vs != [] {
      RunConserves(x, vs[0]);
      RunOpens(x, vs[0]);
      var (x', ret') := AfterRun(x, vs[0].0, vs[0].1);
      var c := ServedIn(x, vs[0]);
      OpenIsLast(x', ret', vs[1..], if c.Some? then c else file);
    }
  }
}
