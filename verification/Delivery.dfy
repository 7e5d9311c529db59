/** When a file gets out: the sending half over any sequence of write-only turns. */
module Delivery {
  import opened Bytes
  import opened Options
  import opened Stages

  /** The results of a turn's two sends. */
  type Turn = (SendResult, SendResult)

  /** One DoWrite after the other until the socket breaks, with which the session ends. */
  function Turns(s: Stage, ts: seq<Turn>): Stage
    decreases |ts|
  {
    if ts == [] then s
    else
      var (s', ret) := AfterWrite(s, ts[0].0, ts[0].1);
      if ret < 0 then s' else Turns(s', ts[1..])
  }

  /** Once everything was read, no turn sends anything or asks for an event, and none fails. */
  lemma {:induction false} DoneStays(s: Stage, ts: seq<Turn>)
    requires AllRead(s)
    ensures Turns(s, ts) == s.(open := if ts == [] then s.open else None)
    decreases |ts|
  {
    if ts != [] { DoneStays(s.(open := None), ts[1..]); }
  }

  /** A closed socket gets no more bytes. */
  lemma {:induction false} ClosedStays(s: Stage, ts: seq<Turn>)
    requires s.closed
    ensures Turns(s, ts).sent == s.sent && Turns(s, ts).closed
    decreases |ts|
  {
    if ts != [] {
      ClosedTurn(s, ts[0]);
      ClosedStays(AfterWrite(s, ts[0].0, ts[0].1).0, ts[1..]);
    }
  }

  lemma ClosedTurn(s: Stage, t: Turn)
    requires s.closed
    ensures AfterWrite(s, t.0, t.1).0.sent == s.sent && AfterWrite(s, t.0, t.1).0.closed
  {
  }

  // ---------- how often the file is read ----------

  /** What the turns do to the sizes alone: how often a file of len bytes is read when count of
      contentLen bytes were read before, and what the last send leaves of left bytes or of the file. */
  function Reads(left: nat, count: nat, contentLen: int, len: nat, closed: bool, ts: seq<Turn>): (nat, nat)
    decreases |ts|
  {
    if ts == [] || count == contentLen then (0, left)
    else
      var r1, r2 := if closed then Broken else ts[0].0, if closed then Broken else ts[0].1;
      if Taken(r1, left) < left then
        if r1 == Broken then (0, left) else Reads(left - Taken(r1, left), count, contentLen, len, closed, ts[1..])
      else
        var left' := len - Taken(r2, len);
        if left' > 0 && r2 == Broken then (1, left')
        else var (k, l) := Reads(left', count + len, contentLen, len, closed, ts[1..]); (k + 1, l)
  }

  function Repeated(file: seq<Byte>, k: nat): seq<Byte> {
    if k == 0 then [] else file + Repeated(file, k - 1)
  }

  /** A file that is not empty follows what is in the buffer. */
  predicate Following(s: Stage, file: seq<Byte>) {
    file != [] && s.open == Some(file)
  }

  lemma ReadsTurn(s: Stage, file: seq<Byte>, t: Turn)
    requires Following(s, file) && !AllRead(s)
    ensures var (s', ret) := AfterWrite(s, t.0, t.1);
      var r1, r2 := Met(s, t.0), Met(s, t.1);
      && s'.contentLen == s.contentLen && (ret >= 0 ==> s'.closed == s.closed) && (AllRead(s') || s'.open == s.open)
      && if Taken(r1, |s.rest|) < |s.rest|
         then Produced(s') == Produced(s) && s'.readCount == s.readCount && |s'.rest| == |s.rest| - Taken(r1, |s.rest|)
              && (ret < 0 <==> r1 == Broken) && s'.open == s.open
         else Produced(s') == Produced(s) + file && s'.readCount == s.readCount + |file|
              && |s'.rest| == |file| - Taken(r2, |file|) && (ret < 0 <==> s'.rest != [] && r2 == Broken)
  {
    hide Produced, AfterSend;
    ContinueExact(s, t.0, t.1);
    SendExact(s, t.0);
    assert Produced(s) + [] == Produced(s);
    StaysOpen(s, t);
  }

  lemma StaysOpen(s: Stage, t: Turn)
    requires s.open.Some? && s.open.value != []
    ensures var s' := AfterContinue(s, t.0, t.1).0; AllRead(s') || s'.open == s.open
    ensures !Drains(s, t.0) ==> AfterContinue(s, t.0, t.1).0.open == s.open
  {
  }

  lemma RepeatedFew(p: seq<Byte>, file: seq<Byte>)
    ensures p + Repeated(file, 0) == p && p + Repeated(file, 1) == p + file
  {
    assert Repeated(file, 1) == file + [] == file;
  }

  lemma RepeatedMore(p: seq<Byte>, file: seq<Byte>, k: nat)
    ensures (p + file) + Repeated(file, k) == p + Repeated(file, k + 1)
    ensures |file| + k * |file| == (k + 1) * |file|
  {
  }

  /** Over every sequence of turns, whatever content length was announced: each turn that empties the
      buffer before that many bytes were read reads and produces the whole file again. */
  lemma {:induction false} ReadsExact(s: Stage, file: seq<Byte>, ts: seq<Turn>)
    requires Following(s, file)
    ensures var s' := Turns(s, ts);
      var (k, left) := Reads(|s.rest|, s.readCount, s.contentLen, |file|, s.closed, ts);
      && Produced(s') == Produced(s) + Repeated(file, k)
      && s'.readCount == s.readCount + k * |file| && s'.contentLen == s.contentLen
      && |s'.rest| == left
      && (AllRead(s') || Following(s', file))
    decreases |ts|
  {
    hide Produced, AfterWrite, Repeated;
    RepeatedFew(Produced(s), file);
    if ts == [] {
    } else if AllRead(s) {
      DoneStays(s, ts);
      SameProduced(s);
    } else {
      ReadsTurn(s, file, ts[0]);
      var (s1, ret) := AfterWrite(s, ts[0].0, ts[0].1);
      if ret >= 0 && AllRead(s1) {
        DoneStays(s1, ts[1..]);
        SameProduced(s1);
      } else if ret >= 0 {
        ReadsExact(s1, file, ts[1..]);
        var k := Reads(|s1.rest|, s1.readCount, s1.contentLen, |file|, s1.closed, ts[1..]).0;
        RepeatedMore(Produced(s), file, k);
      }
    }
  }

  /** A file whose announced length no number of readings meets is never done. */
  lemma NeverDone(s: Stage, file: seq<Byte>, ts: seq<Turn>)
    requires Following(s, file) && forall k: nat :: s.readCount + k * |file| != s.contentLen
    ensures !AllRead(Turns(s, ts)) && Turns(s, ts).open == Some(file)
  {
    ReadsExact(s, file, ts);
    var k := Reads(|s.rest|, s.readCount, s.contentLen, |file|, s.closed, ts).0;
    assert s.readCount + k * |file| != s.contentLen;
  }

  // ---------- a file announced with its own length ----------

  /** None of the file was read, and its own length is announced. */
  predicate Unread(s: Stage, file: seq<Byte>) {
    Following(s, file) && s.readCount == 0 && s.contentLen == |file|
  }

  predicate Starting(s: Stage, file: seq<Byte>) {
    Unread(s, file) && !s.closed
  }

  /** The first turn whose first send takes the last of the left bytes; |ts| if there is none. */
  function FirstDrain(left: nat, ts: seq<Turn>): (i: nat)
    ensures i <= |ts|
  {
    if ts == [] || Taken(ts[0].0, left) == left then 0
    else if ts[0].0 == Broken then |ts|
    else 1 + FirstDrain(left - Taken(ts[0].0, left), ts[1..])
  }

  lemma {:induction false} ReadsOnce(left: nat, len: nat, ts: seq<Turn>)
    requires len > 0
    ensures var (k, left') := Reads(left, 0, len, len, false, ts);
      var i := FirstDrain(left, ts);
      if i == |ts| then k == 0 else k == 1 && left' == len - Taken(ts[i].1, len)
    decreases |ts|
  {
    if ts != [] && Taken(ts[0].0, left) < left && ts[0].0 != Broken {
      ReadsOnce(left - Taken(ts[0].0, left), len, ts[1..]);
    }
  }

  /** Where any sequence of turns ends: the file is still to be read, or it was read in the first turn
      that drained the buffer, and what the send right after it did not take is in the buffer for good. */
  lemma DeliveryExact(s: Stage, file: seq<Byte>, ts: seq<Turn>)
    requires Starting(s, file)
    ensures var (s', i) := (Turns(s, ts), FirstDrain(|s.rest|, ts));
      if i == |ts| then Unread(s', file) && Produced(s') == Produced(s)
      else AllRead(s') && Produced(s') == Produced(s) + file && |s'.rest| == |file| - Taken(ts[i].1, |file|)
  {
    hide Turns, Produced, FirstDrain, Reads;
    ReadsExact(s, file, ts);
    ReadsOnce(|s.rest|, |file|, ts);
    assert Repeated(file, 1) == file + Repeated(file, 0) == file;
    assert Produced(s) + [] == Produced(s);
  }

  /** All that was to be sent, and the whole file, has been sent. */
  predicate AllSent(s: Stage, file: seq<Byte>, s': Stage) {
    s'.rest == [] && s'.sent == Produced(s) + file
  }

  /** The response gets out exactly when, in the first turn whose first send empties the buffer, the
      send right after the read takes the whole file. */
  lemma DeliveredIff(s: Stage, file: seq<Byte>, ts: seq<Turn>)
    requires Starting(s, file)
    ensures var i := FirstDrain(|s.rest|, ts);
      AllSent(s, file, Turns(s, ts)) <==> i < |ts| && Taken(ts[i].1, |file|) == |file|
  {
    DeliveryExact(s, file, ts);
    var s' := Turns(s, ts);
    assert s'.rest == [] ==> Produced(s') == s'.sent;
    assert |Produced(s) + file| > |Produced(s)|;
  }

  /** ... and otherwise, once the file was read, later turns do not help. */
  lemma NeverDelivered(s: Stage, file: seq<Byte>, ts: seq<Turn>, more: seq<Turn>)
    requires Starting(s, file)
    requires var i := FirstDrain(|s.rest|, ts); i < |ts| && Taken(ts[i].1, |file|) < |file|
    ensures !AllSent(s, file, Turns(s, ts)) && Turns(Turns(s, ts), more).sent == Turns(s, ts).sent
    ensures Turns(Turns(s, ts), more).rest == Turns(s, ts).rest != []
  {
    DeliveryExact(s, file, ts);
    DoneStays(Turns(s, ts), more);
  }

  // ---------- what was produced of the first file ----------

  /** header and as much of file as was read were produced; that is nothing or all of it. */
  predicate Serving(s: Stage, header: seq<Byte>, file: seq<Byte>) {
    && s.contentLen == |file| && (s.readCount == 0 || s.readCount == |file|)
    && (s.open.Some? ==> s.open.value == file)
    && Produced(s) == header + file[..s.readCount]
  }

  lemma ContinueServes(s: Stage, header: seq<Byte>, file: seq<Byte>, r1: SendResult, r2: SendResult)
    requires Serving(s, header, file) && !AllRead(s)
    ensures Serving(AfterContinue(s, r1, r2).0, header, file)
    ensures AfterContinue(s, r1, r2).1 == 0 ==> Produced(AfterContinue(s, r1, r2).0) == header + file
  {
    hide Produced, AfterRefill;
    ContinueExact(s, r1, r2);
    SendExact(s, r1);
    assert file[..|file|] == file && header + [] == header;
  }
}
