/** DecodeURL and EncodeURL over a destination buffer, and their round trip. */
module StringTranslator {
  import opened Bytes
  import opened Options
  import opened UrlSpec

  predicate AllDots(c: Component) {
    forall i :: 0 <= i < |c| ==> c[i] == '.'
  }

  function LastOf(p: seq<Byte>): Component
    requires p != [] && p[0] == '/'
  {
    Split(p)[|Split(p)| - 1]
  }

  /** numDotChars after path p: the length of its last component if that is all dots, else 0. */
  function Dots(p: seq<Byte>): (n: nat)
    requires p != [] ==> p[0] == '/'
  {
    if p != [] && AllDots(LastOf(p)) then |LastOf(p)| else 0
  }

  lemma DotForm(c: Component)
    ensures IsDot(c) <==> AllDots(c) && 1 <= |c| <= 2
  {
    if AllDots(c) && |c| == 1 { assert c == ['.']; }
    if AllDots(c) && |c| == 2 { assert c == ['.', '.']; }
  }

  lemma LastSlashFree(p: seq<Byte>)
    requires p != [] && p[0] == '/'
    ensures '/' !in LastOf(p)
  {
    SplitJoin(p);
  }

  /** A path in pieces: what is kept of all components but the last, and the last. */
  function Head(p: seq<Byte>): seq<Byte>
    requires p != [] && p[0] == '/'
  {
    Join(DropDots(Split(p)[..|Split(p)| - 1]))
  }

  lemma KeptPieces(p: seq<Byte>)
    requires p != [] && p[0] == '/'
    ensures Kept(p) == Head(p) + ['/'] + LastOf(p)
    ensures FinalDots(p) == if IsDot(LastOf(p)) then |LastOf(p)| else 0
    ensures '/' !in LastOf(p)
  {
    LastSlashFree(p);
  }

  lemma Tail(h: seq<Byte>, last: Component, k: seq<Byte>)
    requires k == h + ['/'] + last && '/' !in last
    ensures last == [] <==> k[|k| - 1] == '/'
    ensures last != [] ==> k[|k| - 1] == last[|last| - 1]
  {
  }

  /** The buffer ends in the last component, so the back-up stays inside it. */
  lemma DotsFacts(p: seq<Byte>)
    requires p != [] && p[0] == '/'
    ensures Dots(p) < |Kept(p)|
    ensures Dots(p) > 0 ==> Kept(p)[|Kept(p)| - 1] == '.'
    ensures LastOf(p) == [] <==> Kept(p)[|Kept(p)| - 1] == '/'
    ensures FinalDots(p) == if Dots(p) <= 2 then Dots(p) else 0
  {
    KeptPieces(p);
    Tail(Head(p), LastOf(p), Kept(p));
    DotForm(LastOf(p));
  }

  lemma HeadStep(p: seq<Byte>)
    requires p != [] && p[0] == '/'
    ensures Head(p + ['/']) == if IsDot(LastOf(p)) then Head(p) else Kept(p)
    ensures LastOf(p + ['/']) == []
  {
    var cs := Split(p);
    var init := cs[..|cs| - 1];
    SplitLast(p, []);
    assert p + ['/'] + [] == p + ['/'];
    assert cs == init + [LastOf(p)] && (cs + [[]])[..|cs|] == cs;
    DropDotsLast(init, LastOf(p));
    JoinLast(DropDots(init), LastOf(p));
  }

  lemma BackUp(h: seq<Byte>, last: Component, k: seq<Byte>)
    requires k == h + ['/'] + last
    ensures k[..|k| - |last| - 1] == h
  {
  }

  lemma SlashStep(p: seq<Byte>)
    requires p != [] && p[0] == '/'
    ensures var k, n := Kept(p), Dots(p);
      n < |k| && Kept(p + ['/']) == (if 0 < n <= 2 then k[..|k| - n - 1] else k) + ['/']
    ensures Dots(p + ['/']) == 0
  {
    hide Kept, FinalDots, Head;
    DotsFacts(p);
    KeptPieces(p);
    BackUp(Head(p), LastOf(p), Kept(p));
    HeadStep(p);
    DotForm(LastOf(p));
    KeptPieces(p + ['/']);
    assert Head(p + ['/']) + ['/'] + [] == Head(p + ['/']) + ['/'];
  }

  lemma CharStep(p: seq<Byte>, c: Byte)
    requires p != [] && p[0] == '/' && c != '/'
    ensures Kept(p + [c]) == Kept(p) + [c]
    ensures LastOf(p + [c]) == LastOf(p) + [c]
  {
    SplitChar(p, c);
    var cs' := Split(p + [c]);
    assert cs'[..|cs'| - 1] == Split(p)[..|Split(p)| - 1];
    KeptPieces(p);
    assert Head(p + [c]) == Head(p);
    assert Head(p) + ['/'] + (LastOf(p) + [c]) == Head(p) + ['/'] + LastOf(p) + [c];
  }

  lemma AllDotsMore(c: Component, x: Byte)
    ensures AllDots(c + [x]) <==> AllDots(c) && x == '.'
  {
    assert (c + [x])[|c|] == x;
    if !AllDots(c) {
      var i :| 0 <= i < |c| && c[i] != '.';
      assert (c + [x])[i] != '.';
    }
  }

  /** numDotChars as the decoder updates it. */
  lemma DotsStep(p: seq<Byte>, c: Byte)
    requires p != [] && p[0] == '/' && c != '/'
    ensures Dots(p + [c]) ==
      if c != '.' then 0
      else if Dots(p) > 0 then Dots(p) + 1
      else if Kept(p)[|Kept(p)| - 1] == '/' then 1 else 0
  {
    DotsFacts(p);
    CharStep(p, c);
    AllDotsMore(LastOf(p), c);
  }

  // ---------- the decoder as it runs ----------

  /** The bytes written so far, numDotChars and inQuery. */
  datatype Progress = Progress(out: seq<Byte>, dots: nat, inQuery: bool)

  /** The back-up never goes below the start. */
  predicate Ok(st: Progress) {
    st.dots < |st.out| || (st.out == [] && st.dots == 0)
  }

  function DotsAfter(st: Progress, c: Byte): nat
    requires Ok(st)
  {
    if c != '.' then 0
    else if st.dots == 0 && st.out != [] && st.out[|st.out| - 1] == '/' then 1
    else if st.dots > 0 && st.out[|st.out| - 1] == '.' then st.dots + 1
    else st.dots
  }

  /** One decoded byte. */
  function Put(st: Progress, c: Byte): (st': Progress)
    requires Ok(st)
    ensures Ok(st') && st'.inQuery == st.inQuery
  {
    if st.inQuery then st.(out := st.out + [c])
    else if c == '/' && 0 < st.dots <= 2 then Progress(st.out[..|st.out| - st.dots - 1] + [c], 0, false)
    else Progress(st.out + [c], DotsAfter(st, c), false)
  }

  function Cut(st: Progress): seq<Byte>
    requires Ok(st)
  {
    if st.dots <= 2 then st.out[..|st.out| - st.dots] else st.out
  }

  /** Decoding the rest of the source, t, into a destination of cap bytes. */
  function Decode(t: seq<Byte>, st: Progress, cap: nat): Option<seq<Byte>>
    requires Ok(st)
  {
    if t == [] then Some(Cut(st))
    else if |st.out| == cap then None
    else
      var st' := st.(inQuery := st.inQuery || t[0] == '?');
      if t[0] == '%' then
        if IsEscape(t) then Decode(t[3..], Put(st', FromHex(t[1], t[2])), cap) else None
      else if t[0] == '\0' then None
      else Decode(t[1..], Put(st', t[0]), cap)
  }

  // ---------- it refines the specification ----------

  /** The decoder's state after the path bytes p. */
  function AfterPath(p: seq<Byte>): (st: Progress)
    requires p != [] && p[0] == '/'
    ensures Ok(st)
  {
    DotsFacts(p);
    Progress(Kept(p), Dots(p), false)
  }

  lemma PutKeeps(p: seq<Byte>, c: Byte)
    requires p != [] && p[0] == '/'
    ensures Put(AfterPath(p), c) == AfterPath(p + [c])
  {
    DotsFacts(p);
    if c == '/' { SlashStep(p); } else { CharStep(p, c); DotsStep(p, c); }
  }

  /** The source t is one legal character or escape for c, followed by rest. */
  predicate Reads(t: seq<Byte>, c: Byte, rest: seq<Byte>) {
    && t != []
    && if IsEscape(t) then c == FromHex(t[1], t[2]) && rest == t[3..]
       else t[0] != '%' && t[0] != '\0' && c == t[0] && rest == t[1..]
  }

  lemma ReadsStep(t: seq<Byte>, c: Byte, rest: seq<Byte>)
    requires Reads(t, c, rest)
    ensures WellFormed(t) <==> WellFormed(rest)
    ensures Decoded(t) == [c] + Decoded(rest)
    ensures t[0] != '?' ==> Path(t) == [c] + Path(rest) && Query(t) == Query(rest)
    ensures |rest| < |t|
  {
  }

  lemma DecodeStep(t: seq<Byte>, st: Progress, cap: nat, c: Byte, rest: seq<Byte>)
    requires Ok(st) && Reads(t, c, rest)
    ensures Decode(t, st, cap) ==
      if |st.out| == cap then None
      else Decode(rest, Put(st.(inQuery := st.inQuery || t[0] == '?'), c), cap)
  {
  }

  lemma DecodeBad(t: seq<Byte>, st: Progress, cap: nat)
    requires Ok(st) && t != [] && forall c, rest :: !Reads(t, c, rest)
    ensures Decode(t, st, cap) == None && !WellFormed(t)
  {
    assert !IsEscape(t) by {
      if IsEscape(t) { assert Reads(t, FromHex(t[1], t[2]), t[3..]); }
    }
    assert !Reads(t, t[0], t[1..]);
  }

  /** The query is copied; its length decides whether it fits. */
  ghost function ExpectedQuery(t: seq<Byte>, st: Progress, cap: nat): Option<seq<Byte>>
    requires Ok(st)
  {
    if WellFormed(t) && |st.out| + |Decoded(t)| <= cap
    then Some(Cut(st.(out := st.out + Decoded(t)))) else None
  }

  lemma ExpectedQueryStep(t: seq<Byte>, st: Progress, cap: nat, c: Byte, rest: seq<Byte>)
    requires Ok(st) && st.inQuery && |st.out| < cap
    requires WellFormed(t) <==> WellFormed(rest)
    requires Decoded(t) == [c] + Decoded(rest)
    ensures ExpectedQuery(t, st, cap) == ExpectedQuery(rest, Put(st, c), cap)
  {
    assert st.out + [c] + Decoded(rest) == st.out + Decoded(t);
  }

  lemma {:induction false} DecodeInQuery(t: seq<Byte>, st: Progress, cap: nat)
    requires Ok(st) && st.inQuery && |st.out| <= cap
    ensures Decode(t, st, cap) == ExpectedQuery(t, st, cap)
    decreases |t|
  {
    if t == [] {
      assert st.out + [] == st.out;
    } else if c, rest :| Reads(t, c, rest) {
      ReadsStep(t, c, rest);
      DecodeStep(t, st, cap, c, rest);
      if |st.out| < cap {
        ExpectedQueryStep(t, st, cap, c, rest);
        DecodeInQuery(rest, Put(st, c), cap);
      }
    } else {
      DecodeBad(t, st, cap);
    }
  }

  /** From a buffer holding what is kept of p, there is room for the path bytes ps and the query qs. */
  ghost predicate FitsAfter(p: seq<Byte>, ps: seq<Byte>, qs: seq<Byte>, cap: nat)
    requires p != [] && p[0] == '/'
  {
    && (forall k :: 0 <= k < |ps| ==> |Kept(p + ps[..k])| < cap)
    && (qs != [] ==> |Kept(p + ps)| + |qs| <= cap)
  }

  lemma FitsAfterStep(p: seq<Byte>, c: Byte, ps: seq<Byte>, qs: seq<Byte>, cap: nat)
    requires p != [] && p[0] == '/'
    ensures FitsAfter(p, [c] + ps, qs, cap) <==> |Kept(p)| < cap && FitsAfter(p + [c], ps, qs, cap)
  {
    var all := [c] + ps;
    assert p + all[..0] == p;
    assert p + all == p + [c] + ps;
    forall k | 0 <= k < |ps| ensures p + [c] + ps[..k] == p + all[..k + 1] {
      assert all[..k + 1] == [c] + ps[..k];
    }
    if FitsAfter(p, all, qs, cap) {
      assert |Kept(p + all[..0])| < cap;
      forall k | 0 <= k < |ps| ensures |Kept(p + [c] + ps[..k])| < cap {
        assert |Kept(p + all[..k + 1])| < cap;
      }
    }
    if |Kept(p)| < cap && FitsAfter(p + [c], ps, qs, cap) {
      forall k | 0 <= k < |all| ensures |Kept(p + all[..k])| < cap {
        if k > 0 { assert |Kept(p + [c] + ps[..k - 1])| < cap; }
      }
    }
  }

  /** What decoding t after the path bytes p should give. */
  ghost function Expected(p: seq<Byte>, t: seq<Byte>, cap: nat): Option<seq<Byte>>
    requires p != [] && p[0] == '/'
  {
    if WellFormed(t) && FitsAfter(p, Path(t), Query(t), cap) then
      var k := Kept(p + Path(t)) + Query(t);
      Some(k[..|k| - FinalDots(p + Path(t))])
    else None
  }

  lemma ExpectedStep(p: seq<Byte>, c: Byte, t: seq<Byte>, rest: seq<Byte>, cap: nat)
    requires p != [] && p[0] == '/'
    requires WellFormed(t) <==> WellFormed(rest)
    requires Path(t) == [c] + Path(rest) && Query(t) == Query(rest)
    ensures Expected(p, t, cap) == if |Kept(p)| < cap then Expected(p + [c], rest, cap) else None
  {
    hide Kept, FinalDots, FitsAfter;
    FitsAfterStep(p, c, Path(rest), Query(rest), cap);
    assert p + Path(t) == p + [c] + Path(rest);
  }

  lemma CutAfterPath(p: seq<Byte>, q: seq<Byte>)
    requires p != [] && p[0] == '/'
    ensures Cut(Progress(Kept(p) + q, Dots(p), true)) == (Kept(p) + q)[..|Kept(p) + q| - FinalDots(p)]
  {
    DotsFacts(p);
  }

  lemma FitsAfterEnd(p: seq<Byte>, q: seq<Byte>, cap: nat)
    requires p != [] && p[0] == '/' && |Kept(p)| <= cap
    ensures FitsAfter(p, [], q, cap) <==> |Kept(p)| + |q| <= cap
  {
    assert p + [] == p;
  }

  lemma ExpectedEnd(p: seq<Byte>, t: seq<Byte>, cap: nat)
    requires p != [] && p[0] == '/' && |Kept(p)| <= cap && (t == [] || t[0] == '?')
    ensures Expected(p, t, cap) == ExpectedQuery(t, AfterPath(p).(inQuery := true), cap)
  {
    assert Path(t) == [] && Query(t) == Decoded(t);
    assert p + Path(t) == p;
    FitsAfterEnd(p, Decoded(t), cap);
    CutAfterPath(p, Decoded(t));
  }

  lemma QueryStart(t: seq<Byte>, st: Progress, cap: nat)
    requires Ok(st) && (t == [] || t[0] == '?')
    ensures Decode(t, st, cap) == Decode(t, st.(inQuery := true), cap)
  {
  }

  lemma DecodeEnd(p: seq<Byte>, t: seq<Byte>, cap: nat)
    requires p != [] && p[0] == '/' && |Kept(p)| <= cap && (t == [] || t[0] == '?')
    ensures Decode(t, AfterPath(p), cap) == Expected(p, t, cap)
  {
    var st := AfterPath(p).(inQuery := true);
    QueryStart(t, AfterPath(p), cap);
    ExpectedEnd(p, t, cap);
    DecodeInQuery(t, st, cap);
  }

  lemma DecodeRefinesStep(p: seq<Byte>, t: seq<Byte>, cap: nat, c: Byte, rest: seq<Byte>)
    requires p != [] && p[0] == '/' && |Kept(p)| <= cap
    requires Reads(t, c, rest) && t[0] != '?'
    requires |Kept(p)| < cap ==> Decode(rest, AfterPath(p + [c]), cap) == Expected(p + [c], rest, cap)
    ensures Decode(t, AfterPath(p), cap) == Expected(p, t, cap)
  {
    ReadsStep(t, c, rest);
    DecodeStep(t, AfterPath(p), cap, c, rest);
    ExpectedStep(p, c, t, rest, cap);
    PutKeeps(p, c);
  }

  lemma {:induction false} DecodeRefines(p: seq<Byte>, t: seq<Byte>, cap: nat)
    requires p != [] && p[0] == '/' && |Kept(p)| <= cap
    ensures Decode(t, AfterPath(p), cap) == Expected(p, t, cap)
    decreases |t|
  {
    if t == [] || t[0] == '?' {
      DecodeEnd(p, t, cap);
    } else if c, rest :| Reads(t, c, rest) {
      ReadsStep(t, c, rest);
      KeptGrows(p, c);
      if |Kept(p)| < cap { DecodeRefines(p + [c], rest, cap); }
      DecodeRefinesStep(p, t, cap, c, rest);
    } else {
      DecodeBad(t, AfterPath(p), cap);
    }
  }

  lemma KeptGrows(p: seq<Byte>, c: Byte)
    requires p != [] && p[0] == '/'
    ensures |Kept(p + [c])| <= |Kept(p)| + 1
  {
    PutKeeps(p, c);
  }

  /** The destination never fills up before the last decoded byte is written. */
  ghost predicate Fits(s: seq<Byte>, cap: nat)
    requires s != [] && s[0] == '/'
  {
    && (forall k :: 0 <= k < |Path(s)| ==> |Kept(Path(s)[..k])| < cap)
    && (Query(s) != [] ==> |Kept(Path(s))| + |Query(s)| <= cap)
  }

  lemma LargeEnoughFits(s: seq<Byte>, cap: nat)
    requires s != [] && s[0] == '/' && |Decoded(s)| <= cap
    ensures Fits(s, cap)
  {
    PathThenQuery(s);
    KeptNoLonger(Path(s));
    forall k | 0 <= k < |Path(s)| ensures |Kept(Path(s)[..k])| < cap {
      KeptNoLonger(Path(s)[..k]);
    }
  }

  const START := Progress([], 0, false)

  lemma SlashAlone()
    ensures Put(START, '/') == AfterPath(['/']) && Kept(['/']) == ['/']
  {
    var empty: seq<Byte> := [];
    SplitSlash(empty);
    assert empty + ['/'] == ['/'];
    assert Split(['/']) == [[]];
  }

  /** The one-pass decoder gives the specified output exactly when the text is well formed and fits. */
  lemma DecodeMeetsSpec(s: seq<Byte>, cap: nat)
    requires s != [] && s[0] == '/'
    ensures Decode(s, START, cap) == if WellFormed(s) && Fits(s, cap) then Some(Output(s)) else None
  {
    if cap > 0 {
      SlashAlone();
      DecodeStep(s, START, cap, '/', s[1..]);
      DecodeRefines(['/'], s[1..], cap);
      ExpectedFromStart(s, cap);
    } else {
      NothingFits(s);
    }
  }

  lemma ExpectedFromStart(s: seq<Byte>, cap: nat)
    requires s != [] && s[0] == '/' && cap > 0
    ensures Expected(['/'], s[1..], cap) == if WellFormed(s) && Fits(s, cap) then Some(Output(s)) else None
  {
    hide Kept, FinalDots, Fits, FitsAfter;
    ReadsStep(s, '/', s[1..]);
    FitsFromStart(s, cap);
    OutputForm(s, Kept(Path(s)), Query(s), FinalDots(Path(s)));
  }

  lemma NothingFits(s: seq<Byte>)
    requires s != [] && s[0] == '/'
    ensures !Fits(s, 0)
  {
    assert Path(s)[..0] == [];
  }

  lemma FitsFromStart(s: seq<Byte>, cap: nat)
    requires s != [] && s[0] == '/' && cap > 0
    ensures Fits(s, cap) <==> FitsAfter(['/'], Path(s[1..]), Query(s[1..]), cap)
  {
    var slash: seq<Byte>, ps := ['/'], Path(s[1..]);
    assert Path(s) == slash + ps && Query(s) == Query(s[1..]);
    forall k | 0 <= k < |ps| ensures slash + ps[..k] == Path(s)[..k + 1] {}
    if Fits(s, cap) {
      forall k | 0 <= k < |ps| ensures |Kept(slash + ps[..k])| < cap {
        assert |Kept(Path(s)[..k + 1])| < cap;
      }
    }
    if FitsAfter(slash, ps, Query(s), cap) {
      forall k | 0 <= k < |Path(s)| ensures |Kept(Path(s)[..k])| < cap {
        if k > 0 { assert |Kept(slash + ps[..k - 1])| < cap; } else { assert Path(s)[..0] == []; }
      }
    }
  }

  // ---------- DecodeURL ----------

  /** The decoded length, or -1 for a bad URL or a destination that is too small. */
  method DecodeURL(inSrc: seq<Byte>, ioDest: array<Byte>, inDestLen: nat) returns (r: int)
    requires inDestLen <= ioDest.Length
    modifies ioDest
    ensures r >= 0 <==> inSrc != [] && inSrc[0] == '/' && WellFormed(inSrc) && Fits(inSrc, inDestLen)
    ensures r >= 0 ==> r <= inDestLen && ioDest[..r] == Output(inSrc)
    ensures r < 0 ==> r == -1
  {
    if |inSrc| <= 0 || inSrc[0] != '/' {
      return -1;
    }
    DecodeMeetsSpec(inSrc, inDestLen);
    var lengthWritten: nat := 0;
    var numDotChars: nat := 0;
    var inQuery := false;
    var i: nat := 0;
    ghost var st := START;
    while i < |inSrc|
      invariant i <= |inSrc| && lengthWritten <= inDestLen
      invariant Ok(st) && st == Progress(ioDest[..lengthWritten], numDotChars, inQuery)
      invariant lengthWritten == 0 ==> i == 0
      invariant Decode(inSrc[i..], st, inDestLen) == Decode(inSrc, START, inDestLen)
      decreases |inSrc| - i
    {
      ghost var t := inSrc[i..];
      if lengthWritten == inDestLen {
        return -1;
      }
      if inSrc[i] == '?' {
        inQuery := true;
      }
      var tempChar: Byte;
      if inSrc[i] == '%' {
        if |inSrc| - i < 3 {
          return -1;
        }
        if !IsHex(inSrc[i + 1]) {
          return -1;
        }
        if !IsHex(inSrc[i + 2]) {
          return -1;
        }
        tempChar := FromHex(inSrc[i + 1], inSrc[i + 2]);
        i := i + 3;
      } else if inSrc[i] == '\0' {
        return -1;
      } else {
        tempChar := inSrc[i];
        i := i + 1;
      }
      DecodeStep(t, st, inDestLen, tempChar, inSrc[i..]);
      st := Put(st.(inQuery := inQuery), tempChar);
      lengthWritten, numDotChars := PutChar(ioDest, lengthWritten, numDotChars, inQuery, tempChar);
    }
    if numDotChars <= 2 {
      lengthWritten := lengthWritten - numDotChars;
    }
    r := lengthWritten;
  }

  /** The second half of DecodeURL's loop: backs up over a finished "." or ".." component outside
      the query, writes the character and updates numDotChars. */
  method PutChar(ioDest: array<Byte>, written: nat, numDots: nat, inQuery: bool, tempChar: Byte)
    returns (lengthWritten: nat, numDotChars: nat)
    requires written < ioDest.Length
    requires Ok(Progress(ioDest[..written], numDots, inQuery))
    requires written == 0 ==> tempChar == '/'
    modifies ioDest
    ensures 0 < lengthWritten <= written + 1
    ensures Progress(ioDest[..lengthWritten], numDotChars, inQuery)
            == Put(Progress(old(ioDest[..written]), numDots, inQuery), tempChar)
  {
    lengthWritten, numDotChars := written, numDots;
    if !inQuery {
      if tempChar == '/' && numDotChars <= 2 && numDotChars > 0 {
        lengthWritten := lengthWritten - (numDotChars + 1);
      }
      ioDest[lengthWritten] := tempChar;
      if tempChar == '.' {
        if numDotChars == 0 && ioDest[lengthWritten - 1] == '/' {
          numDotChars := numDotChars + 1;
        } else if numDotChars > 0 && ioDest[lengthWritten - 1] == '.' {
          numDotChars := numDotChars + 1;
        }
      } else {
        numDotChars := 0;
      }
    } else {
      ioDest[lengthWritten] := tempChar;
    }
    lengthWritten := lengthWritten + 1;
  }

  // ---------- EncodeURL ----------

  /** The 7-bit characters that are encoded; every byte above 127 is too. */
  const ILLEGAL: seq<Byte> := " \r\n\t<>#%{}|\\^~[]`;?@=&$\""

  predicate MustEncode(c: Byte) {
    c as int > 127 || c in ILLEGAL
  }

  function HexDigit(n: nat): Byte
    requires n < 16
  {
    "0123456789ABCDEF"[n]
  }

  /** The three bytes left behind for c: %X prints one digit for a code below 16, and the third
      byte is then the terminator. */
  function Escaped(c: Byte): (e: seq<Byte>)
    ensures |e| == 3
  {
    if c as int < 16 then ['%', HexDigit(c as int), '\0']
    else ['%', HexDigit(c as int / 16), HexDigit(c as int % 16)]
  }

  function EncodedChar(c: Byte): (e: seq<Byte>)
    ensures e != []
  {
    if MustEncode(c) then Escaped(c) else [c]
  }

  function Encoded(s: seq<Byte>): (e: seq<Byte>)
    ensures |e| >= |s|
  {
    if s == [] then [] else EncodedChar(s[0]) + Encoded(s[1..])
  }

  /** sprintf(ioDest, "%%%X", c), with its terminator. */
  method PrintEscape(ioDest: array<Byte>, at: nat, c: Byte)
    requires at + 3 < ioDest.Length
    modifies ioDest
    ensures ioDest[..at] == old(ioDest[..at]) && ioDest[at..at + 3] == Escaped(c)
  {
    ioDest[at] := '%';
    if c as int < 16 {
      ioDest[at + 1] := HexDigit(c as int);
      ioDest[at + 2] := '\0';
    } else {
      ioDest[at + 1] := HexDigit(c as int / 16);
      ioDest[at + 2] := HexDigit(c as int % 16);
      ioDest[at + 3] := '\0';
    }
  }

  /** The characters that the encoder replaces, apart from those above 127. */
  predicate Listed(c: Byte) {
    || c == ' ' || c == '\r' || c == '\n' || c == '\t' || c == '<' || c == '>' || c == '#' || c == '%'
    || c == '{' || c == '}' || c == '|' || c == '\\' || c == '^' || c == '~' || c == '[' || c == ']' || c == '`'
    || c == ';' || c == '?' || c == '@' || c == '=' || c == '&' || c == '$' || c == '"'
  }

  lemma MustEncodeIff(c: Byte)
    ensures MustEncode(c) <==> c as int > 127 || Listed(c)
  {
    assert forall k :: 0 <= k < |ILLEGAL| ==> Listed(ILLEGAL[k]);
    assert ILLEGAL[0] == ' ' && ILLEGAL[1] == '\r' && ILLEGAL[2] == '\n' && ILLEGAL[3] == '\t' && ILLEGAL[4] == '<' && ILLEGAL[5] == '>';
    assert ILLEGAL[6] == '#' && ILLEGAL[7] == '%' && ILLEGAL[8] == '{' && ILLEGAL[9] == '}' && ILLEGAL[10] == '|' && ILLEGAL[11] == '\\';
    assert ILLEGAL[12] == '^' && ILLEGAL[13] == '~' && ILLEGAL[14] == '[' && ILLEGAL[15] == ']' && ILLEGAL[16] == '`' && ILLEGAL[17] == ';';
    assert ILLEGAL[18] == '?' && ILLEGAL[19] == '@' && ILLEGAL[20] == '=' && ILLEGAL[21] == '&' && ILLEGAL[22] == '$' && ILLEGAL[23] == '\"';
  }

  /** Every other character is left alone; no encoding holds one of these but for the '%' it starts with. */
  lemma {:induction false} EncodedIsPlain(s: seq<Byte>, c: Byte)
    requires c in Encoded(s) && c != '%'
    ensures c as int <= 127 && !Listed(c)
  {
    MustEncodeIff(s[0]);
    MustEncodeIff(c);
    if c in EncodedChar(s[0]) {
      DigitsArePlain(s[0]);
    } else {
      EncodedIsPlain(s[1..], c);
    }
  }

  lemma DigitsArePlain(c: Byte)
    ensures forall d :: d in Escaped(c) && d != '%' ==> d as int <= 127 && !Listed(d)
  {
    assert forall n :: 0 <= n < 16 ==> '0' <= HexDigit(n) <= '9' || 'A' <= HexDigit(n) <= 'F';
  }

  lemma EncodedAlone(c: Byte)
    ensures Encoded([c]) == [c] <==> c as int <= 127 && !Listed(c)
  {
    MustEncodeIff(c);
    assert Encoded([c]) == EncodedChar(c) + Encoded([]) == EncodedChar(c);
  }

  lemma EncodedStep(s: seq<Byte>, i: nat, done: seq<Byte>)
    requires i < |s| && Encoded(s) == done + Encoded(s[i..])
    ensures Encoded(s) == done + EncodedChar(s[i]) + Encoded(s[i + 1..])
    ensures |Encoded(s)| >= |done| + |EncodedChar(s[i])|
  {
    hide EncodedChar;
    assert s[i..][1..] == s[i + 1..];
    assert done + (EncodedChar(s[i]) + Encoded(s[i + 1..])) == done + EncodedChar(s[i]) + Encoded(s[i + 1..]);
  }

  /** The encoded length, or -1 exactly when it does not fit; needs one spare byte for the
      terminator of the last escape. */
  method EncodeURL(inSrc: seq<Byte>, ioDest: array<Byte>, inDestLen: nat) returns (r: int)
    requires inDestLen < ioDest.Length
    modifies ioDest
    ensures r == if |Encoded(inSrc)| <= inDestLen then |Encoded(inSrc)| else -1
    ensures r >= 0 ==> ioDest[..r] == Encoded(inSrc)
  {
    var lengthWritten: nat := 0;
    var i := 0;
    while i < |inSrc|
      invariant i <= |inSrc| && lengthWritten <= inDestLen
      invariant Encoded(inSrc) == ioDest[..lengthWritten] + Encoded(inSrc[i..])
    {
      ghost var before := ioDest[..lengthWritten];
      EncodedStep(inSrc, i, before);
      if lengthWritten == inDestLen {
        return -1;
      }
      if MustEncode(inSrc[i]) {
        if inDestLen - lengthWritten < 3 {
          return -1;
        }
        PrintEscape(ioDest, lengthWritten, inSrc[i]);
        lengthWritten := lengthWritten + 3;
      } else {
        ioDest[lengthWritten] := inSrc[i];
        lengthWritten := lengthWritten + 1;
      }
      assert ioDest[..lengthWritten] == before + EncodedChar(inSrc[i]);
      i := i + 1;
    }
    r := lengthWritten;
  }

  // ---------- round trip ----------

  predicate CleanChar(c: Byte) {
    c != '\0' && c != '\t' && c != '\r' && c != '\n'
  }

  /** No byte whose encoding the decoder refuses. */
  predicate Clean(p: seq<Byte>) {
    forall i :: 0 <= i < |p| ==> CleanChar(p[i])
  }

  lemma HexDigitValue(n: nat)
    requires n < 16
    ensures IsHex(HexDigit(n)) && HexValue(HexDigit(n)) == n
  {
  }

  lemma EscapedReads(c: Byte, rest: seq<Byte>)
    requires c as int >= 16
    ensures Reads(Escaped(c) + rest, c, rest)
  {
    HexDigitValue(c as int / 16);
    HexDigitValue(c as int % 16);
    assert (Escaped(c) + rest)[..3] == Escaped(c) && (Escaped(c) + rest)[3..] == rest;
  }

  lemma CleanReads(c: Byte, rest: seq<Byte>)
    requires CleanChar(c)
    ensures Reads(EncodedChar(c) + rest, c, rest)
    ensures (EncodedChar(c) + rest)[0] != '?'
  {
    var t := EncodedChar(c) + rest;
    if MustEncode(c) {
      EscapedReads(c, rest);
    } else {
      assert c != '%' by { assert ILLEGAL[7] == '%'; }
      assert c != '?' by { assert ILLEGAL[18] == '?'; }
      assert t[0] == c && t[1..] == rest;
    }
  }

  /** NUL is copied raw; tab, CR and LF leave an escape that ends in NUL. */
  lemma UncleanNeverReads(c: Byte, rest: seq<Byte>)
    requires !CleanChar(c)
    ensures forall d, rest' :: !Reads(EncodedChar(c) + rest, d, rest')
  {
    var t := EncodedChar(c) + rest;
    if MustEncode(c) {
      assert t[0] == '%' && t[2] == '\0';
    } else {
      assert t[0] == c;
      assert ILLEGAL[1] == '\r' && ILLEGAL[2] == '\n' && ILLEGAL[3] == '\t';
    }
  }

  lemma {:induction false} EncodedDecodes(p: seq<Byte>)
    ensures WellFormed(Encoded(p)) <==> Clean(p)
    ensures Clean(p) ==> Path(Encoded(p)) == p && Query(Encoded(p)) == []
  {
    if p != [] {
      var rest := Encoded(p[1..]);
      EncodedDecodes(p[1..]);
      assert Encoded(p) == EncodedChar(p[0]) + rest;
      assert Clean(p) <==> CleanChar(p[0]) && Clean(p[1..]) by {
        assert forall i :: 0 <= i < |p[1..]| ==> p[1..][i] == p[i + 1];
      }
      if CleanChar(p[0]) {
        CleanReads(p[0], rest);
        ReadsStep(Encoded(p), p[0], rest);
        assert p == [p[0]] + p[1..];
      } else {
        UncleanNeverReads(p[0], rest);
        DecodeBad(Encoded(p), START, 0);
      }
    }
  }

  /** Decoding what was encoded gives the path back without its dot components, and succeeds
      exactly on paths free of NUL, tab, CR and LF. */
  lemma RoundTrip(p: seq<Byte>, cap: nat)
    requires p != [] && p[0] == '/' && |p| <= cap
    ensures Encoded(p)[0] == '/'
    ensures Decode(Encoded(p), START, cap) == if Clean(p) then Some(StripDots(p)) else None
  {
    var t := Encoded(p);
    EncodedSlash(p);
    DecodeMeetsSpec(t, cap);
    EncodedDecodes(p);
    if Clean(p) {
      PathThenQuery(t);
      LargeEnoughFits(t, cap);
      OutputIntendedIff(t);
      assert StripDots(p) + [] == StripDots(p);
    }
  }

  lemma EncodedSlash(p: seq<Byte>)
    requires p != [] && p[0] == '/'
    ensures Encoded(p) != [] && Encoded(p)[0] == '/'
  {
    assert EncodedChar('/') == ['/'];
  }
}
