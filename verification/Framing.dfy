/** Where the framer ends a request: the first end of line immediately followed by another. */
module Framing {
  import opened Bytes
  import opened Options
  import opened StringParsers

  function Plus(k: nat, r: Option<nat>): Option<nat> {
    match r
    case None => None
    case Some(n) => Some(k + n)
  }

  /** The length IsFullRequest finds in t, if it finds one. */
  function Frame(t: seq<Byte>): (r: Option<nat>)
    ensures r.Some? ==> r.value <= |t|
    decreases |t|
  {
    if t == [] then None
    else if !IsEol(t[0]) then Plus(1, Frame(t[1..]))
    else
      var k := EolLen(t);
      if EolLen(t[k..]) > 0 then Some(k + EolLen(t[k..])) else Plus(k, Frame(t[k..]))
  }

  lemma EolLine(e: seq<Byte>)
    requires e != [] && IsEol(e[0])
    ensures var u := e[EolLen(e)..];
      Frame(e) == Plus(EolLen(e), if EolLen(u) > 0 then Some(EolLen(u)) else Frame(u))
  {
  }

  lemma EolLenBytes(t: seq<Byte>)
    ensures forall k :: 0 <= k < EolLen(t) ==> IsEol(t[k])
  {
  }

  // ---------- the frame without the scan ----------

  /** A run of end-of-line bytes starts at i. */
  predicate RunStart(s: seq<Byte>, i: nat) {
    i < |s| && IsEol(s[i]) && (i == 0 || !IsEol(s[i - 1]))
  }

  /** The position after the end of line at i. */
  function After(s: seq<Byte>, i: nat): (k: nat)
    requires i <= |s|
    ensures i <= k <= |s|
  {
    i + EolLen(s[i..])
  }

  /** An end of line starts a run at i and another follows it immediately. */
  predicate DoubleEol(s: seq<Byte>, i: nat) {
    RunStart(s, i) && After(s, i) < |s| && IsEol(s[After(s, i)])
  }

  ghost predicate FirstDouble(s: seq<Byte>, i: nat) {
    DoubleEol(s, i) && NoDouble(s, i)
  }

  lemma AfterShift(s: seq<Byte>, k: nat, i: nat)
    requires k <= i <= |s|
    ensures After(s, i) == k + After(s[k..], i - k)
  {
    assert s[i..] == s[k..][i - k..];
  }

  /** Cutting off a prefix that does not end inside a run keeps every later double end of line. */
  lemma DoubleShift(s: seq<Byte>, k: nat, i: nat)
    requires 0 < k <= |s| && (k < |s| && IsEol(s[k]) ==> !IsEol(s[k - 1])) && k <= i
    ensures DoubleEol(s, i) <==> DoubleEol(s[k..], i - k)
  {
    if i < |s| {
      AfterShift(s, k, i);
      assert i > k ==> s[k..][i - k - 1] == s[i - 1];
    }
  }

  ghost predicate NoDouble(s: seq<Byte>, n: nat) {
    forall i :: 0 <= i < n ==> !DoubleEol(s, i)
  }

  lemma NoDoubleShift(s: seq<Byte>, k: nat, n: nat)
    requires 0 < k <= |s| && (k < |s| && IsEol(s[k]) ==> !IsEol(s[k - 1]))
    requires NoDouble(s, k) && NoDouble(s[k..], n)
    ensures NoDouble(s, k + n)
  {
    forall i | k <= i < k + n ensures !DoubleEol(s, i) { DoubleShift(s, k, i); }
  }

  lemma EolHead(s: seq<Byte>)
    requires s != [] && IsEol(s[0])
    ensures After(s, 0) == EolLen(s)
    ensures !DoubleEol(s, 0) ==> NoDouble(s, EolLen(s))
    ensures DoubleEol(s, 0) <==> EolLen(s[EolLen(s)..]) > 0
  {
    assert s[0..] == s;
  }

  /** The frame of s in terms of its first double end of line, which i witnesses. */
  ghost predicate EndsDouble(s: seq<Byte>, n: nat, i: nat) {
    i < |s| && FirstDouble(s, i) && n == After(s, After(s, i))
  }

  lemma EndsDoubleShift(s: seq<Byte>, k: nat, n: nat, i: nat)
    requires 0 < k <= |s| && EndsDouble(s[k..], n, i)
    requires k < |s| && IsEol(s[k]) ==> !IsEol(s[k - 1])
    requires NoDouble(s, k)
    ensures EndsDouble(s, k + n, k + i)
  {
    NoDoubleShift(s, k, i);
    DoubleShift(s, k, k + i);
    AfterShift(s, k, k + i);
    AfterShift(s, k, After(s, k + i));
  }

  /** What Frame says of s, told by double ends of line. */
  ghost predicate FrameTold(s: seq<Byte>, r: Option<nat>) {
    match r
    case None => NoDouble(s, |s|)
    case Some(n) => exists i: nat :: EndsDouble(s, n, i)
  }

  lemma FrameToldShift(s: seq<Byte>, k: nat, r: Option<nat>)
    requires 0 < k <= |s| && NoDouble(s, k) && FrameTold(s[k..], r)
    requires k < |s| && IsEol(s[k]) ==> !IsEol(s[k - 1])
    ensures FrameTold(s, Plus(k, r))
  {
    match r
    case None => NoDoubleShift(s, k, |s| - k);
    case Some(n) =>
      var i: nat :| EndsDouble(s[k..], n, i);
      EndsDoubleShift(s, k, n, i);
  }

  lemma {:induction false} FrameIsFirstDouble(s: seq<Byte>)
    ensures FrameTold(s, Frame(s))
    decreases |s|
  {
    if s != [] && !IsEol(s[0]) {
      FrameIsFirstDouble(s[1..]);
      FrameToldShift(s, 1, Frame(s[1..]));
    } else if s != [] {
      var k := EolLen(s);
      EolHead(s);
      if EolLen(s[k..]) > 0 {
        assert EndsDouble(s, k + EolLen(s[k..]), 0);
      } else {
        FrameIsFirstDouble(s[k..]);
        FrameToldShift(s, k, Frame(s[k..]));
      }
    }
  }

  /** The framer finds n exactly when n ends the first end of line immediately followed by another. */
  lemma FrameIff(s: seq<Byte>, n: nat)
    ensures Frame(s) == Some(n) <==> exists i: nat :: EndsDouble(s, n, i)
  {
    FrameIsFirstDouble(s);
    if i: nat :| EndsDouble(s, n, i) {
      var j: nat :| EndsDouble(s, Frame(s).value, j);
      assert i == j;
    }
  }

  // ---------- more input, less input ----------

  lemma EolLenMore(t: seq<Byte>, q: seq<Byte>)
    requires t != []
    ensures EolLen(t + q) == EolLen(t) + if t == ['\r'] && q != [] && q[0] == '\n' then 1 else 0
  {
    if |t| == 1 { assert t == [t[0]]; }
  }

  /** What a frame at n in p becomes when q follows. */
  function Grown(p: seq<Byte>, n: nat, q: seq<Byte>): nat
    requires 0 < n <= |p|
  {
    n + if n == |p| && p[n - 1] == '\r' && q != [] && q[0] == '\n' then 1 else 0
  }

  lemma {:induction false} FrameEndsInEol(t: seq<Byte>)
    requires Frame(t).Some?
    ensures 0 < Frame(t).value && IsEol(t[Frame(t).value - 1])
    decreases |t|
  {
    var k := if IsEol(t[0]) then EolLen(t) else 1;
    if IsEol(t[0]) && EolLen(t[k..]) > 0 {
      EolLenBytes(t[k..]);
    } else {
      FrameEndsInEol(t[k..]);
    }
  }

  lemma EolGrown(u: seq<Byte>, q: seq<Byte>)
    requires EolLen(u) > 0
    ensures EolLen(u + q) == Grown(u, EolLen(u), q)
  {
    EolLenMore(u, q);
  }

  /** The first end of line of a buffer that has a frame is not its end. */
  lemma FrameGoesOn(p: seq<Byte>)
    requires p != [] && IsEol(p[0]) && Frame(p).Some?
    ensures p[EolLen(p)..] != []
  {
  }

  lemma FrameStableAtEol(p: seq<Byte>, q: seq<Byte>)
    requires p != [] && IsEol(p[0]) && p[EolLen(p)..] != []
    ensures EolLen(p + q) == EolLen(p) && (p + q)[EolLen(p)..] == p[EolLen(p)..] + q
  {
    EolLenMore(p, q);
  }

  /** More input does not move a frame, except that a final CR takes in an LF that follows it. */
  lemma {:induction false} FrameStable(p: seq<Byte>, q: seq<Byte>)
    requires Frame(p).Some?
    ensures 0 < Frame(p).value && Frame(p + q) == Some(Grown(p, Frame(p).value, q))
    decreases |p|, 1
  {
    hide EolLen, Frame;
    FrameEndsInEol(p);
    NothingFramed();
    if !IsEol(p[0]) {
      assert (p + q)[1..] == p[1..] + q;
      FrameStep(p);
      FrameStep(p + q);
      FrameStable(p[1..], q);
    } else {
      FrameGoesOn(p);
      FrameStableAtEol(p, q);
      EolLine(p);
      EolLine(p + q);
      StableAfterEol(p, q);
    }
  }

  /** The case of FrameStable in which p starts with an end of line. */
  lemma StableAfterEol(p: seq<Byte>, q: seq<Byte>)
    requires p != [] && IsEol(p[0]) && Frame(p).Some? && EolLen(p) < |p|
    requires EolLen(p + q) == EolLen(p) && (p + q)[EolLen(p)..] == p[EolLen(p)..] + q
    ensures 0 < Frame(p).value && Frame(p + q) == Some(Grown(p, Frame(p).value, q))
    decreases |p|, 0
  {
    hide EolLen, Frame;
    EolLine(p);
    EolLine(p + q);
    var u := p[EolLen(p)..];
    if EolLen(u) > 0 {
      EolGrown(u, q);
    } else {
      FrameStable(u, q);
    }
  }

  /** What was framed is itself one whole frame. */
  lemma {:induction false} FramePrefix(s: seq<Byte>)
    requires Frame(s).Some?
    ensures Frame(s[..Frame(s).value]) == Frame(s)
    decreases |s|
  {
    var n := Frame(s).value;
    if !IsEol(s[0]) {
      FramePrefix(s[1..]);
      assert s[..n][1..] == s[1..][..n - 1];
    } else {
      var k := EolLen(s);
      EolLenCut(s, n);
      assert s[..n][k..] == s[k..][..n - k];
      if EolLen(s[k..]) > 0 {
        EolLenCut(s[k..], n - k);
      } else {
        FramePrefix(s[k..]);
      }
    }
  }

  lemma EolLenCut(t: seq<Byte>, n: nat)
    requires EolLen(t) <= n <= |t|
    ensures EolLen(t) > 0 ==> EolLen(t[..n]) == EolLen(t)
  {
  }

  /** A whole frame cut inside a line is a whole frame. */
  lemma {:induction false} FrameSuffix(f: seq<Byte>, m: nat)
    requires Frame(f) == Some(|f|) && 0 < m <= |f| && !IsEol(f[m - 1])
    ensures m < |f| && Frame(f[m..]) == Some(|f| - m)
    decreases |f|
  {
    hide Frame, EolLen;
    var k := if IsEol(f[0]) then EolLen(f) else 1;
    var u := f[k..];
    EolLenBytes(f);
    EolLenBytes(u);
    FrameEndsInEol(f);
    if IsEol(f[0]) { EolLine(f); } else { FrameStep(f); }
    if m > k {
      assert f[m - 1] == u[m - 1 - k];
      FrameSuffix(u, m - k);
      assert u[m - k..] == f[m..];
    }
  }

  /** The rest of a whole frame after one of its lines: the final end of line, or a whole frame. */
  ghost predicate Block(t: seq<Byte>) {
    t != [] && if IsEol(t[0]) then EolLen(t) == |t| else Frame(t) == Some(|t|)
  }

  /** Skipping to the first end of line. */
  lemma {:induction false} FrameSkip(t: seq<Byte>)
    ensures var n := Until(t, EOL_MASK);
      Frame(t) == if n == |t| then None else Plus(n, Frame(t[n..]))
    decreases |t|
  {
    if t != [] && !IsEol(t[0]) {
      hide Frame, EolLen;
      FrameStep(t);
      FrameSkip(t[1..]);
      var n := Until(t, EOL_MASK);
      assert t[n..] == t[1..][n - 1..];
    } else {
      hide Frame, EolLen;
      assert t[0..] == t;
      NothingFramed();
    }
  }

  lemma FrameStep(t: seq<Byte>)
    requires t != [] && !IsEol(t[0])
    ensures Frame(t) == Plus(1, Frame(t[1..]))
  {
  }

  lemma NothingFramed()
    ensures Frame([]) == None
  {
  }

  lemma EolThenBlock(e: seq<Byte>)
    requires e != [] && IsEol(e[0]) && Frame(e) == Some(|e|)
    ensures Block(e[EolLen(e)..])
  {
    FrameEndsInEol(e);
    if EolLen(e[EolLen(e)..]) == 0 { FrameEndsInEol(e[EolLen(e)..]); }
  }

  lemma FrameFirstLine(f: seq<Byte>)
    requires Frame(f) == Some(|f|)
    ensures var n := Until(f, EOL_MASK); n < |f| && Block(f[n..][EolLen(f[n..])..])
  {
    hide Frame, Block;
    FrameSkip(f);
    EolThenBlock(f[Until(f, EOL_MASK)..]);
  }

  // ---------- framing what arrives back to back ----------

  /** Framing again and again: the requests, and what is left in the buffer. */
  function Requests(s: seq<Byte>): (r: (seq<seq<Byte>>, seq<Byte>))
    decreases |s|
  {
    match Frame(s)
    case None => ([], s)
    case Some(n) =>
      if n == 0 then ([], s)
      else var (fs, rest) := Requests(s[n..]); ([s[..n]] + fs, rest)
  }

  function Joined(fs: seq<seq<Byte>>): seq<Byte> {
    if fs == [] then [] else fs[0] + Joined(fs[1..])
  }

  lemma {:induction false} JoinedLast(fs: seq<seq<Byte>>, f: seq<Byte>)
    ensures Joined(fs + [f]) == Joined(fs) + f
  {
    if fs == [] {
      assert fs + [f] == [f];
    } else {
      JoinedLast(fs[1..], f);
      assert (fs + [f])[1..] == fs[1..] + [f];
    }
  }

  /** No byte is lost, whatever arrives. */
  lemma {:induction false} RequestsConserve(s: seq<Byte>)
    ensures Joined(Requests(s).0) + Requests(s).1 == s
    decreases |s|
  {
    hide Frame;
    if Frame(s).Some? {
      FrameEndsInEol(s);
      var n := Frame(s).value;
      RequestsConserve(s[n..]);
      var (fs, rest) := Requests(s[n..]);
      assert ([s[..n]] + fs)[1..] == fs;
      assert s[..n] + Joined(fs) + rest == s[..n] + (Joined(fs) + rest);
    }
  }

  /** Whole frames that do not end in a bare CR come out one by one, and an unfinished tail stays. */
  lemma {:induction false} RequestsOfFrames(fs: seq<seq<Byte>>, tail: seq<Byte>)
    requires forall i :: 0 <= i < |fs| ==> Frame(fs[i]) == Some(|fs[i]|) && fs[i] != [] && fs[i][|fs[i]| - 1] == '\n'
    requires Frame(tail) == None
    ensures Requests(Joined(fs) + tail) == (fs, tail)
    decreases |fs|
  {
    var s := Joined(fs) + tail;
    if fs == [] {
      assert s == tail;
    } else {
      var f, more := fs[0], Joined(fs[1..]) + tail;
      assert s == f + more;
      FrameStable(f, more);
      assert s[..|f|] == f && s[|f|..] == more;
      RequestsOfFrames(fs[1..], tail);
      assert fs == [f] + fs[1..];
    }
  }
}
