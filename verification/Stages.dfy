/** The sending half of a session as a value, and what its operations make of it: a response buffer
    that is filled from a file and drained by partial sends. */
module Stages {
  import opened Bytes
  import opened Options

  const RESPONSE_BUFFER_SIZE := 262144
  const SEND_INTERVAL := 10

  type Positive = n: nat | n > 0 witness 1

  /** What the socket does with a send: it has room for n bytes, is full, or is broken. */
  datatype SendResult = Takes(n: Positive) | Full | Broken

  /** How many of len bytes the socket takes. */
  function Taken(r: SendResult, len: nat): (k: nat)
    ensures k <= len
  {
    if !r.Takes? then 0 else if r.n < len then r.n else len
  }

  /** The bytes given to the socket, those in the buffer, the file that is open, how much of it was
      read, how often RequestEvent(EVENT_READ | EVENT_WRITE) was called, and whether the socket was
      closed (m_SockFd is -1). */
  datatype Stage = Stage(
    sent: seq<Byte>,
    rest: seq<Byte>,
    open: Option<seq<Byte>>,
    readCount: nat,
    contentLen: int,
    rangeStop: int,
    asks: nat,
    closed: bool)

  function Produced(s: Stage): seq<Byte> {
    s.sent + s.rest
  }

  /** What a send meets: a closed socket takes nothing. */
  function Met(s: Stage, r: SendResult): SendResult {
    if s.closed then Broken else r
  }

  /** SendData; an error other than a full socket closes it. */
  function AfterSend(s: Stage, r: SendResult): (Stage, int) {
    if s.rest == [] then (s, 0)
    else
      var k := Taken(Met(s, r), |s.rest|);
      var s' := s.(sent := s.sent + s.rest[..k], rest := s.rest[k..]);
      if s'.rest == [] then (s', 0)
      else if Met(s, r) == Broken then (s'.(closed := true), -1)
      else (s'.(asks := s.asks + 1), SEND_INTERVAL)
  }

  /** ResponseFile: rangeStop keeps the value that the first file of the session gave it. */
  function AfterFile(s: Stage, header: seq<Byte>, content: seq<Byte>): Stage {
    var stop := if s.rangeStop == -1 then |content| - 1 else s.rangeStop;
    s.(rest := s.rest + header, open := Some(content), readCount := 0, contentLen := stop + 1, rangeStop := stop)
  }

  /** ResponseError: the file of an earlier response stays open. */
  function AfterPage(s: Stage, text: seq<Byte>, bodyLen: nat): Stage {
    s.(rest := s.rest + text, contentLen := bodyLen)
  }

  /** ResponseFile for a file that cannot be opened: the page takes the place of any file. */
  function AfterFailedOpen(s: Stage, text: seq<Byte>, bodyLen: nat): Stage {
    AfterPage(s.(open := None), text, bodyLen)
  }

  /** Whatever is still unsent, what is appended goes behind it, and nothing is sent yet. */
  lemma AppendedBehind(s: Stage, text: seq<Byte>, content: seq<Byte>, bodyLen: nat)
    ensures Produced(AfterFile(s, text, content)) == Produced(s) + text
    ensures Produced(AfterPage(s, text, bodyLen)) == Produced(s) + text
    ensures Produced(AfterFailedOpen(s, text, bodyLen)) == Produced(s) + text
    ensures AfterFile(s, text, content).sent == AfterPage(s, text, bodyLen).sent == AfterFailedOpen(s, text, bodyLen).sent == s.sent
    ensures AfterFailedOpen(s, text, bodyLen).contentLen == bodyLen && AfterFailedOpen(s, text, bodyLen).open == None
  {
  }

  /** Reading the open file into the buffer. */
  function AfterRefill(s: Stage): Stage {
    match s.open
    case None => s
    case Some(c) => if c == [] then s.(open := None) else s.(rest := s.rest + c, readCount := s.readCount + |c|)
  }

  /** What SendDone tests; it then closes the file. */
  predicate AllRead(s: Stage) {
    s.readCount == s.contentLen
  }

  function AfterDone(s: Stage): (Stage, int) {
    if AllRead(s) then (s.(open := None), 0) else (s, SEND_INTERVAL)
  }

  /** DoContinue. */
  function AfterContinue(s: Stage, r1: SendResult, r2: SendResult): (Stage, int) {
    var (s1, ret1) := AfterSend(s, r1);
    if ret1 != 0 then (s1, ret1)
    else
      var (s2, ret2) := if s1.open.Some? then AfterSend(AfterRefill(s1), r2) else (s1, 0);
      if ret2 != 0 then (s2, ret2) else AfterDone(s2)
  }

  /** DoWrite. */
  function AfterWrite(s: Stage, r1: SendResult, r2: SendResult): (Stage, int) {
    if AllRead(s) then AfterDone(s) else AfterContinue(s, r1, r2)
  }

  /** The end of DoRead. */
  function AfterFlush(s: Stage, r0: SendResult, r1: SendResult, r2: SendResult): (Stage, int) {
    var (s0, ret0) := AfterSend(s, r0);
    if ret0 < 0 then (s0, ret0) else if ret0 > 0 then (s0, 0) else AfterWrite(s0, r1, r2)
  }

  // ---------- what one continuation does, from the state before it ----------

  /** The first send empties the buffer. */
  predicate Drains(s: Stage, r: SendResult) {
    Taken(Met(s, r), |s.rest|) == |s.rest|
  }

  /** What a continuation reads. */
  function Body(s: Stage, r1: SendResult): seq<Byte> {
    if s.open.Some? && Drains(s, r1) then s.open.value else []
  }

  /** What is left in the buffer. */
  function LeftAfter(s: Stage, r1: SendResult, r2: SendResult): nat {
    if !Drains(s, r1) then |s.rest| - Taken(Met(s, r1), |s.rest|)
    else |Body(s, r1)| - Taken(Met(s, r2), |Body(s, r1)|)
  }

  /** The last send made, which leaves bytes behind if LeftAfter is not 0. */
  function LastSend(s: Stage, r1: SendResult, r2: SendResult): SendResult {
    Met(s, if !Drains(s, r1) then r1 else r2)
  }

  /** An event is asked for. */
  predicate WillAsk(s: Stage, r1: SendResult, r2: SendResult) {
    LeftAfter(s, r1, r2) > 0 && LastSend(s, r1, r2) != Broken
  }

  /** The socket breaks with bytes left. */
  predicate WillBreak(s: Stage, r1: SendResult, r2: SendResult) {
    LeftAfter(s, r1, r2) > 0 && LastSend(s, r1, r2) == Broken
  }

  lemma SplitKeeps(sent: seq<Byte>, rest: seq<Byte>, k: nat)
    requires k <= |rest|
    ensures (sent + rest[..k]) + rest[k..] == sent + rest
  {
  }

  lemma SendExact(s: Stage, r: SendResult)
    ensures var (s', ret) := AfterSend(s, r);
      && Produced(s') == Produced(s) && s.sent <= s'.sent && |s'.rest| == |s.rest| - Taken(Met(s, r), |s.rest|)
      && s'.asks == s.asks + (if s'.rest != [] && Met(s, r) != Broken then 1 else 0)
      && s'.closed == (s.closed || (s'.rest != [] && Met(s, r) == Broken))
      && ret == (if s'.rest == [] then 0 else if Met(s, r) == Broken then -1 else SEND_INTERVAL)
      && s' == s.(sent := s'.sent, rest := s'.rest, asks := s'.asks, closed := s'.closed)
  {
    SplitKeeps(s.sent, s.rest, Taken(Met(s, r), |s.rest|));
  }

  /** A continuation produces what it reads, leaves LeftAfter, asks exactly if WillAsk, fails and
      closes the socket exactly if WillBreak; 0 means that nothing is left and everything was read,
      and 10 that it is to be called again. */
  lemma ContinueExact(s: Stage, r1: SendResult, r2: SendResult)
    ensures var (s', ret) := AfterContinue(s, r1, r2);
      && Produced(s') == Produced(s) + Body(s, r1) && s.sent <= s'.sent && s'.readCount == s.readCount + |Body(s, r1)|
      && |s'.rest| == LeftAfter(s, r1, r2)
      && s'.asks == s.asks + (if WillAsk(s, r1, r2) then 1 else 0)
      && s'.closed == (s.closed || WillBreak(s, r1, r2))
      && ret == (if WillBreak(s, r1, r2) then -1 else if s'.rest == [] && AllRead(s') then 0 else SEND_INTERVAL)
      && s'.contentLen == s.contentLen && s'.rangeStop == s.rangeStop && (s'.open == None || s'.open == s.open)
  {
    hide AfterSend, AfterRefill, Produced;
    SendExact(s, r1);
    var s1 := AfterSend(s, r1).0;
    assert Produced(s1) + [] == Produced(s1);
    if s1.rest == [] {
      if s1.open.Some? {
        RefillProduces(s1);
        SendExact(AfterRefill(s1), r2);
        SameProduced(AfterSend(AfterRefill(s1), r2).0);
      } else {
        SameProduced(s1);
      }
    }
  }

  lemma WriteExact(s: Stage, r1: SendResult, r2: SendResult)
    ensures var (s', ret) := AfterWrite(s, r1, r2);
      && Produced(s') == Produced(s) + (if AllRead(s) then [] else Body(s, r1)) && s.sent <= s'.sent
      && |s'.rest| == (if AllRead(s) then |s.rest| else LeftAfter(s, r1, r2))
      && s'.contentLen == s.contentLen && s'.rangeStop == s.rangeStop && (s'.open == None || s'.open == s.open)
      && s'.asks == s.asks + (if !AllRead(s) && WillAsk(s, r1, r2) then 1 else 0)
      && s'.closed == (s.closed || (!AllRead(s) && WillBreak(s, r1, r2)))
      && ret == (if AllRead(s) then 0 else if WillBreak(s, r1, r2) then -1
                 else if s'.rest == [] && AllRead(s') then 0 else SEND_INTERVAL)
  {
    hide AfterContinue, LeftAfter, LastSend, Produced;
    ContinueExact(s, r1, r2);
    SameProduced(s);
    assert Produced(s) + [] == Produced(s);
  }

  lemma RefillProduces(s: Stage)
    requires s.open.Some? && s.rest == []
    ensures Produced(AfterRefill(s)) == Produced(s) + s.open.value
    ensures var s' := AfterRefill(s);
      && s'.rest == s.open.value && s'.readCount == s.readCount + |s.open.value|
      && s' == s.(rest := s'.rest, readCount := s'.readCount, open := s'.open)
      && (s'.open == None || s'.open == s.open)
  {
  }

  lemma SameProduced(s: Stage)
    ensures Produced(s.(open := None)) == Produced(s)
  {
  }

  /** What the end of DoRead leaves, and the last send it makes. */
  function FlushLeft(s: Stage, r0: SendResult, r2: SendResult): nat {
    if AllRead(s) then |s.rest| - Taken(Met(s, r0), |s.rest|) else LeftAfter(s, r0, r2)
  }

  function FlushLast(s: Stage, r0: SendResult, r2: SendResult): SendResult {
    if AllRead(s) then Met(s, r0) else LastSend(s, r0, r2)
  }

  /** The same for the end of DoRead. */
  lemma FlushExact(s: Stage, r0: SendResult, r1: SendResult, r2: SendResult)
    ensures var (s', ret) := AfterFlush(s, r0, r1, r2);
      var left, last := FlushLeft(s, r0, r2), FlushLast(s, r0, r2);
      var body := if AllRead(s) then [] else Body(s, r0);
      && Produced(s') == Produced(s) + body && s.sent <= s'.sent && s'.readCount == s.readCount + |body|
      && |s'.rest| == left
      && s'.asks == s.asks + (if left > 0 && last != Broken then 1 else 0)
      && ret == (if left > 0 && last == Broken then -1
                 else if !Drains(s, r0) || AllRead(s) || (left == 0 && AllRead(s')) then 0 else SEND_INTERVAL)
      && s'.closed == (s.closed || (left > 0 && last == Broken))
      && s'.contentLen == s.contentLen && s'.rangeStop == s.rangeStop && (s'.open == None || s'.open == s.open)
  {
    hide AfterSend, Produced, AfterContinue;
    SendExact(s, r0);
    var s0 := AfterSend(s, r0).0;
    assert Produced(s0) + [] == Produced(s0);
    SameProduced(s0);
    if !AllRead(s) {
      hide LeftAfter, LastSend;
      FlushIsWrite(s, r0, r1, r2);
      ContinueExact(s, r0, r2);
      if s0.rest == [] {
        ContinueExact(s0, r1, r2);
        DrainedAlike(s, s0, r0, r1, r2);
      } else {
        NotDrained(s, r0, r2);
      }
    }
  }

  lemma NotDrained(s: Stage, r1: SendResult, r2: SendResult)
    requires Taken(Met(s, r1), |s.rest|) < |s.rest|
    ensures LeftAfter(s, r1, r2) == |s.rest| - Taken(Met(s, r1), |s.rest|) && LastSend(s, r1, r2) == Met(s, r1)
  {
  }

  lemma DrainedAlike(s: Stage, s0: Stage, r0: SendResult, r1: SendResult, r2: SendResult)
    requires Drains(s, r0) && s0.rest == [] && s0.open == s.open && s0.closed == s.closed
    ensures LeftAfter(s0, r1, r2) == LeftAfter(s, r0, r2) && (LeftAfter(s, r0, r2) > 0 ==> LastSend(s0, r1, r2) == LastSend(s, r0, r2))
  {
  }

  /** Unless everything was read, the end of DoRead leaves what one DoWrite leaves. */
  lemma FlushIsWrite(s: Stage, r0: SendResult, r1: SendResult, r2: SendResult)
    requires !AllRead(s)
    ensures AfterFlush(s, r0, r1, r2).0 == AfterWrite(s, r0, r2).0
  {
    hide AfterRefill;
    SendExact(s, r0);
  }
}
