/** What decoding a URL means, told without buffers: percent-decoding of the part before a raw '?'
    and of the rest, and the dropping of "." and ".." components from the first. */
module UrlSpec {
  import opened Bytes

  predicate IsHex(c: Byte) {
    '0' <= c <= '9' || 'a' <= c <= 'f' || 'A' <= c <= 'F'
  }

  function HexValue(c: Byte): (n: nat)
    requires IsHex(c)
    ensures n < 16
  {
    if c <= '9' then c as int - '0' as int
    else if c <= 'F' then c as int - 'A' as int + 10
    else c as int - 'a' as int + 10
  }

  /** The byte that %hl stands for. */
  function FromHex(h: Byte, l: Byte): Byte
    requires IsHex(h) && IsHex(l)
  {
    (16 * HexValue(h) + HexValue(l)) as char
  }

  predicate IsEscape(s: seq<Byte>) {
    |s| >= 3 && s[0] == '%' && IsHex(s[1]) && IsHex(s[2])
  }

  /** No raw NUL, and every '%' starts a two-digit escape. */
  predicate WellFormed(s: seq<Byte>) {
    if s == [] then true
    else if s[0] == '%' then IsEscape(s) && WellFormed(s[3..])
    else s[0] != '\0' && WellFormed(s[1..])
  }

  /** Percent-decoding; used on well-formed text only. */
  function Decoded(s: seq<Byte>): seq<Byte> {
    if s == [] then []
    else if IsEscape(s) then [FromHex(s[1], s[2])] + Decoded(s[3..])
    else [s[0]] + Decoded(s[1..])
  }

  /** The decoded text before the first raw '?'. */
  function Path(s: seq<Byte>): seq<Byte> {
    if s == [] || s[0] == '?' then []
    else if IsEscape(s) then [FromHex(s[1], s[2])] + Path(s[3..])
    else [s[0]] + Path(s[1..])
  }

  /** The decoded text from the first raw '?' on. */
  function Query(s: seq<Byte>): seq<Byte> {
    if s == [] || s[0] == '?' then Decoded(s)
    else if IsEscape(s) then Query(s[3..])
    else Query(s[1..])
  }

  lemma {:induction false} PathThenQuery(s: seq<Byte>)
    ensures Path(s) + Query(s) == Decoded(s)
    ensures Query(s) == [] || Query(s)[0] == '?'
  {
    if s == [] || s[0] == '?' {
    } else if IsEscape(s) {
      PathThenQuery(s[3..]);
    } else {
      PathThenQuery(s[1..]);
    }
  }

  const LOWER_HEX: seq<Byte> := "0123456789abcdef"
  const UPPER_HEX: seq<Byte> := "0123456789ABCDEF"

  lemma HexDigits(n: nat)
    requires n < 16
    ensures IsHex(LOWER_HEX[n]) && HexValue(LOWER_HEX[n]) == n
    ensures IsHex(UPPER_HEX[n]) && HexValue(UPPER_HEX[n]) == n
  {
  }

  /** An escape with digits in either case stands for the byte they spell. */
  lemma EscapeDecodes(a: nat, b: nat, h: Byte, l: Byte, rest: seq<Byte>)
    requires a < 16 && b < 16
    requires (h == LOWER_HEX[a] || h == UPPER_HEX[a]) && (l == LOWER_HEX[b] || l == UPPER_HEX[b])
    ensures Decoded(['%', h, l] + rest) == [(16 * a + b) as char] + Decoded(rest)
  {
    HexDigits(a);
    HexDigits(b);
    var s := ['%', h, l] + rest;
    assert s[3..] == rest && IsEscape(s);
  }

  lemma IsHexIff(c: Byte)
    ensures IsHex(c) <==> c in LOWER_HEX || c in UPPER_HEX
  {
    if IsHex(c) {
      var n := HexValue(c);
      HexDigits(n);
      assert c == LOWER_HEX[n] || c == UPPER_HEX[n];
    }
    if c in LOWER_HEX {
      var n :| 0 <= n < 16 && LOWER_HEX[n] == c;
      HexDigits(n);
    }
    if c in UPPER_HEX {
      var n :| 0 <= n < 16 && UPPER_HEX[n] == c;
      HexDigits(n);
    }
  }

  predicate EscapeAt(s: seq<Byte>, i: nat) {
    i + 2 < |s| && (s[i + 1] in LOWER_HEX || s[i + 1] in UPPER_HEX) && (s[i + 2] in LOWER_HEX || s[i + 2] in UPPER_HEX)
  }

  /** Text is well formed exactly if it has no NUL and two hex digits behind every '%'. */
  lemma {:induction false} WellFormedIff(s: seq<Byte>)
    ensures WellFormed(s) <==> '\0' !in s && forall i :: 0 <= i < |s| && s[i] == '%' ==> EscapeAt(s, i)
  {
    if s != [] {
      if |s| >= 3 { IsHexIff(s[1]); IsHexIff(s[2]); }
      var k := if s[0] == '%' && IsEscape(s) then 3 else 1;
      WellFormedIff(s[k..]);
      NulFrom(s, k);
      forall i | k <= i < |s| ensures EscapeAt(s, i) <==> EscapeAt(s[k..], i - k) {}
      assert forall i :: 0 <= i < |s[k..]| ==> s[k..][i] == s[k + i];
      if s[0] == '%' && IsEscape(s) { NoPercentDigits(s); }
    }
  }

  lemma NulFrom(s: seq<Byte>, k: nat)
    requires k <= |s|
    ensures '\0' in s <==> '\0' in s[..k] || '\0' in s[k..]
  {
    assert s == s[..k] + s[k..];
  }

  lemma NoPercentDigits(s: seq<Byte>)
    requires IsEscape(s)
    ensures s[1] != '%' && s[2] != '%' && '\0' !in s[..3] && EscapeAt(s, 0)
  {
    IsHexIff(s[1]);
    IsHexIff(s[2]);
  }

  // ---------- components ----------

  type Component = seq<Byte>

  /** The components of a path that starts with '/': each '/' opens one. */
  function Split(p: seq<Byte>): (cs: seq<Component>)
    requires p != [] ==> p[0] == '/'
    ensures p == [] <==> cs == []
  {
    if p == [] then []
    else
      var cs := Split(p[..|p| - 1]);
      var c := p[|p| - 1];
      if c == '/' then cs + [[]] else cs[..|cs| - 1] + [cs[|cs| - 1] + [c]]
  }

  function Join(cs: seq<Component>): (p: seq<Byte>)
    ensures p != [] ==> p[0] == '/'
    ensures p == [] <==> cs == []
  {
    if cs == [] then [] else Join(cs[..|cs| - 1]) + ['/'] + cs[|cs| - 1]
  }

  predicate IsDot(c: Component) {
    c == ['.'] || c == ['.', '.']
  }

  function DropDots(cs: seq<Component>): seq<Component> {
    if cs == [] then []
    else DropDots(cs[..|cs| - 1]) + if IsDot(cs[|cs| - 1]) then [] else [cs[|cs| - 1]]
  }

  /** Dot components dropped except for the last component, which is kept whatever it is. */
  function Kept(p: seq<Byte>): (k: seq<Byte>)
    requires p != [] ==> p[0] == '/'
    ensures p != [] ==> k != [] && k[0] == '/'
  {
    if p == [] then []
    else var cs := Split(p); Join(DropDots(cs[..|cs| - 1])) + ['/'] + cs[|cs| - 1]
  }

  /** How many bytes a final dot component has. */
  function FinalDots(p: seq<Byte>): (n: nat)
    requires p != [] ==> p[0] == '/'
    ensures n <= 2 && n <= |Kept(p)|
  {
    if p == [] then 0
    else var cs := Split(p); if IsDot(cs[|cs| - 1]) then |cs[|cs| - 1]| else 0
  }

  /** Every dot component dropped; a final one leaves an empty component behind. */
  function StripDots(p: seq<Byte>): (k: seq<Byte>)
    requires p != [] ==> p[0] == '/'
    ensures p != [] ==> k != [] && k[0] == '/'
  {
    if p == [] then []
    else
      var cs := Split(p);
      var last := cs[|cs| - 1];
      Join(DropDots(cs[..|cs| - 1]) + [if IsDot(last) then [] else last])
  }

  ghost predicate SlashFree(cs: seq<Component>) {
    forall c :: c in cs ==> '/' !in c
  }

  lemma SplitSlash(p: seq<Byte>)
    requires p != [] ==> p[0] == '/'
    ensures Split(p + ['/']) == Split(p) + [[]]
  {
    assert (p + ['/'])[..|p|] == p;
  }

  lemma SplitChar(p: seq<Byte>, c: Byte)
    requires p != [] && p[0] == '/' && c != '/'
    ensures Split(p + [c]) == Split(p)[..|Split(p)| - 1] + [Split(p)[|Split(p)| - 1] + [c]]
  {
    assert (p + [c])[..|p|] == p;
  }

  lemma JoinLast(cs: seq<Component>, c: Component)
    ensures Join(cs + [c]) == Join(cs) + ['/'] + c
  {
    assert (cs + [c])[..|cs|] == cs;
  }

  lemma DropDotsLast(cs: seq<Component>, c: Component)
    ensures DropDots(cs + [c]) == if IsDot(c) then DropDots(cs) else DropDots(cs) + [c]
  {
    assert (cs + [c])[..|cs|] == cs;
  }

  lemma JoinSnoc(init: seq<Component>, last: Component, c: Byte)
    ensures Join(init + [last + [c]]) == Join(init + [last]) + [c]
  {
    hide Join;
    JoinLast(init, last);
    JoinLast(init, last + [c]);
    assert Join(init) + ['/'] + (last + [c]) == Join(init) + ['/'] + last + [c];
  }

  lemma {:induction false} JoinOfSplit(p: seq<Byte>)
    requires p != [] ==> p[0] == '/'
    ensures Join(Split(p)) == p
  {
    if p != [] {
      hide Split, Join;
      var q, c := p[..|p| - 1], p[|p| - 1];
      JoinOfSplit(q);
      assert p == q + [c];
      if c == '/' {
        SplitSlash(q);
        JoinLast(Split(q), []);
        assert q + ['/'] + [] == q + ['/'];
      } else {
        SplitChar(q, c);
        var init, last := Split(q)[..|Split(q)| - 1], Split(q)[|Split(q)| - 1];
        assert Split(q) == init + [last];
        JoinSnoc(init, last, c);
      }
    }
  }

  lemma {:induction false} SplitSlashFree(p: seq<Byte>)
    requires p != [] ==> p[0] == '/'
    ensures SlashFree(Split(p))
  {
    if p != [] {
      var q := p[..|p| - 1];
      SplitSlashFree(q);
    }
  }

  /** Splitting loses nothing, and no component holds a separator. */
  lemma SplitJoin(p: seq<Byte>)
    requires p != [] ==> p[0] == '/'
    ensures Join(Split(p)) == p && SlashFree(Split(p))
  {
    JoinOfSplit(p);
    SplitSlashFree(p);
  }

  lemma SplitSnoc(r: seq<Byte>, sp: seq<Component>, d: Component, x: Byte)
    requires r != [] && r[0] == '/' && x != '/' && Split(r) == sp + [d]
    ensures Split(r + [x]) == sp + [d + [x]]
  {
    SplitChar(r, x);
    assert (sp + [d])[..|sp|] == sp;
  }

  lemma {:induction false} SplitLast(p: seq<Byte>, c: Component)
    requires p != [] ==> p[0] == '/'
    requires '/' !in c
    ensures Split(p + ['/'] + c) == Split(p) + [c]
  {
    if c == [] {
      SplitSlash(p);
      assert p + ['/'] + c == p + ['/'];
    } else {
      var d, x := c[..|c| - 1], c[|c| - 1];
      SplitLast(p, d);
      SplitSnoc(p + ['/'] + d, Split(p), d, x);
      assert c == d + [x];
      assert p + ['/'] + c == p + ['/'] + d + [x];
    }
  }

  lemma {:induction false} JoinSplit(cs: seq<Component>)
    requires SlashFree(cs)
    ensures Split(Join(cs)) == cs
  {
    if cs != [] {
      var init := cs[..|cs| - 1];
      JoinSplit(init);
      SplitLast(Join(init), cs[|cs| - 1]);
      assert cs == init + [cs[|cs| - 1]];
    }
  }

  ghost predicate DotFree(cs: seq<Component>) {
    forall c :: c in cs ==> !IsDot(c)
  }

  lemma {:induction false} DropDotsFacts(cs: seq<Component>)
    ensures DotFree(DropDots(cs)) && forall c :: c in DropDots(cs) ==> c in cs
    ensures DotFree(cs) <==> DropDots(cs) == cs
    ensures |DropDots(cs)| <= |cs| && |Join(DropDots(cs))| <= |Join(cs)|
  {
    if cs != [] {
      var init, last := cs[..|cs| - 1], cs[|cs| - 1];
      DropDotsFacts(init);
      assert cs == init + [last];
      if !IsDot(last) {
        assert DropDots(cs)[..|DropDots(cs)| - 1] == DropDots(init);
      } else {
        assert DropDots(cs) == DropDots(init);
        assert last in cs;
      }
    }
  }

  /** The stripped path has no dot component left. */
  lemma StripDotsSplit(p: seq<Byte>)
    requires p != [] && p[0] == '/'
    ensures DotFree(Split(StripDots(p)))
    ensures forall c :: c in Split(StripDots(p)) ==> c == [] || c in Split(p)
  {
    var cs := Split(p);
    var init, last := cs[..|cs| - 1], cs[|cs| - 1];
    SplitJoin(p);
    DropDotsFacts(init);
    var final: Component := if IsDot(last) then [] else last;
    var kept := DropDots(init) + [final];
    assert cs == init + [last];
    forall c | c in kept ensures !IsDot(c) && '/' !in c && (c == [] || c in cs) {
      assert c in DropDots(init) || c == final;
      assert c in init || c == [] || c in cs;
    }
    JoinSplit(kept);
    assert StripDots(p) == Join(kept);
  }

  /** A path is left alone exactly when it has no dot component. */
  lemma StripDotsIdentity(p: seq<Byte>)
    requires p != [] && p[0] == '/'
    ensures StripDots(p) == p <==> DotFree(Split(p))
    ensures DotFree(Split(p)) <==> forall c :: c in Split(p) ==> c != ['.'] && c != ['.', '.']
  {
    var cs := Split(p);
    var init, last := cs[..|cs| - 1], cs[|cs| - 1];
    assert cs == init + [last];
    DropDotsFacts(init);
    SplitJoin(p);
    if DotFree(cs) {
      assert last in cs;
      forall c | c in init ensures !IsDot(c) { assert c in cs; }
    } else {
      StripDotsSplit(p);
    }
  }

  lemma {:induction false} DropDotsIn(a: seq<Component>, b: seq<Component>)
    ensures DropDots(a + b) == DropDots(a) + DropDots(b)
    decreases |b|
  {
    if b == [] {
      assert a + b == a && DropDots(a) + [] == DropDots(a);
    } else {
      var init, last := b[..|b| - 1], b[|b| - 1];
      DropDotsIn(a, init);
      assert a + b == (a + init) + [last] && b == init + [last];
      DropDotsLast(a + init, last);
      DropDotsLast(init, last);
    }
  }

  lemma StripOf(init: seq<Component>, last: Component)
    requires SlashFree(init) && '/' !in last
    ensures StripDots(Join(init + [last])) == Join(DropDots(init) + [if IsDot(last) then [] else last])
  {
    hide Split, Join, DropDots;
    var cs := init + [last];
    assert SlashFree(cs);
    JoinSplit(cs);
    assert cs[..|cs| - 1] == init && cs[|cs| - 1] == last;
  }

  /** A "." or ".." that is not the last component is dropped, and nothing else is touched: not even
      the component before it. */
  lemma DotDropped(a: seq<Component>, d: Component, b: seq<Component>, last: Component)
    requires SlashFree(a) && SlashFree(b) && '/' !in last && (d == ['.'] || d == ['.', '.'])
    ensures StripDots(Join(a + [d] + b + [last])) == StripDots(Join(a + b + [last]))
  {
    hide Join, Split, DropDots, StripDots;
    assert SlashFree(a + [d] + b) && SlashFree(a + b);
    StripOf(a + [d] + b, last);
    StripOf(a + b, last);
    DropDotsIn(a + [d], b);
    DropDotsIn(a, b);
    DropDotsLast(a, d);
  }

  /** As the last component it is emptied. */
  lemma LastDotEmptied(a: seq<Component>, d: Component)
    requires SlashFree(a) && (d == ['.'] || d == ['.', '.'])
    ensures StripDots(Join(a + [d])) == StripDots(Join(a + [[]]))
  {
    hide Join, Split, DropDots, StripDots;
    StripOf(a, d);
    StripOf(a, []);
  }

  lemma StripDotsIdempotent(p: seq<Byte>)
    requires p != [] && p[0] == '/'
    ensures StripDots(StripDots(p)) == StripDots(p)
  {
    StripDotsSplit(p);
    StripDotsIdentity(StripDots(p));
  }

  lemma KeptNoLonger(p: seq<Byte>)
    requires p != [] ==> p[0] == '/'
    ensures |Kept(p)| <= |p|
  {
    if p != [] {
      var cs := Split(p);
      SplitJoin(p);
      DropDotsFacts(cs[..|cs| - 1]);
    }
  }

  // ---------- what the decoder produces, and what it is meant to produce ----------

  /** The output as written: the final dots are cut off the end of everything, query included. */
  function Output(s: seq<Byte>): seq<Byte>
    requires s != [] && s[0] == '/'
  {
    var k := Kept(Path(s)) + Query(s);
    k[..|k| - FinalDots(Path(s))]
  }

  function Intended(s: seq<Byte>): seq<Byte>
    requires s != [] && s[0] == '/'
  {
    StripDots(Path(s)) + Query(s)
  }

  lemma StripDotsIsKeptCut(p: seq<Byte>)
    requires p != [] && p[0] == '/'
    ensures StripDots(p) == Kept(p)[..|Kept(p)| - FinalDots(p)]
  {
    var cs := Split(p);
    var final: Component := if IsDot(cs[|cs| - 1]) then [] else cs[|cs| - 1];
    var kept := DropDots(cs[..|cs| - 1]) + [final];
    assert kept[..|kept| - 1] == DropDots(cs[..|cs| - 1]);
  }

  /** The decoder does what it is meant to exactly when there is no query or the component before
      it is not "." or "..". */
  lemma OutputIntendedIff(s: seq<Byte>)
    requires s != [] && s[0] == '/'
    ensures Output(s) == Intended(s) <==> Query(s) == [] || FinalDots(Path(s)) == 0
  {
    hide Kept, FinalDots, Output, Intended, Query, Decoded;
    PathThenQuery(s);
    FinalDotsAreDots(Path(s));
    OutputForm(s, Kept(Path(s)), Query(s), FinalDots(Path(s)));
    CutIff(Kept(Path(s)), Query(s), FinalDots(Path(s)));
  }

  lemma OutputForm(s: seq<Byte>, k: seq<Byte>, q: seq<Byte>, n: nat)
    requires s != [] && s[0] == '/' && k == Kept(Path(s)) && q == Query(s) && n == FinalDots(Path(s))
    ensures Output(s) == (k + q)[..|k + q| - n]
    ensures Intended(s) == k[..|k| - n] + q
  {
    hide Kept, StripDots, FinalDots;
    StripDotsIsKeptCut(Path(s));
  }

  lemma FinalDotsAreDots(p: seq<Byte>)
    requires p != [] && p[0] == '/'
    ensures FinalDots(p) > 0 ==> Kept(p)[|Kept(p)| - FinalDots(p)] == '.'
  {
  }

  /** Cutting n dots off the end of k + q is cutting them off k only if q is empty or n is 0. */
  lemma CutIff(k: seq<Byte>, q: seq<Byte>, n: nat)
    requires n <= |k| && (n > 0 ==> k[|k| - n] == '.') && (q != [] ==> q[0] == '?')
    ensures (k + q)[..|k + q| - n] == k[..|k| - n] + q <==> q == [] || n == 0
  {
    if q != [] && n > 0 {
      assert (k + q)[..|k + q| - n][|k| - n] == '.';
      assert (k[..|k| - n] + q)[|k| - n] == '?';
    }
  }

  lemma DotPath()
    ensures FinalDots(['/', '.']) == 1
  {
    hide Kept;
    SplitSlash([]);
    assert [] + ['/'] == ['/'];
    SplitChar(['/'], '.');
    assert ['/'] + ['.'] == ['/', '.'] && [] + ['.'] == ['.'];
  }

  /** The dot before a query is cut off the end of the query instead. */
  lemma QueryCanLoseBytes() returns (s: seq<Byte>)
    ensures s == ['/', '.', '?', 'a'] && Output(s) != Intended(s)
  {
    hide Output, Intended, FinalDots, Kept;
    s := ['/', '.', '?', 'a'];
    assert s[1..] == ['.', '?', 'a'] && s[1..][1..] == ['?', 'a'];
    assert Path(s) == ['/', '.'] && Query(s) != [];
    DotPath();
    OutputIntendedIff(s);
  }
}
