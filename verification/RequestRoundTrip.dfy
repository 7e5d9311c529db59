/** Printing a request and then framing and parsing it gives the request back. */
module RequestRoundTrip {
  import opened Bytes
  import opened Options
  import opened Framing
  import opened HttpProtocol
  import opened RequestSyntax
  import opened StringParsers

  datatype Eol = Cr | Lf | CrLf

  function EolBytes(e: Eol): (b: seq<Byte>)
    ensures b != []
  {
    match e
    case Cr => ['\r']
    case Lf => ['\n']
    case CrLf => ['\r', '\n']
  }

  /** A header line: a name, a colon, perhaps one space, and a value. */
  datatype Header = Header(name: seq<Byte>, spaced: bool, value: seq<Byte>, eol: Eol)

  /** A request: its first line with the white space around the target, its headers, and the end of
      line that ends it. */
  datatype Printed = Printed(
    word: seq<Byte>,
    gap: seq<Byte>,
    target: seq<Byte>,
    gap': seq<Byte>,
    version: seq<Byte>,
    eol: Eol,
    headers: seq<Header>,
    last: Eol)

  predicate EolFree(s: seq<Byte>) {
    '\r' !in s && '\n' !in s
  }

  /** Tab, vertical tab, form feed and space. */
  predicate Blank(c: Byte) {
    c == '\t' || c as int == 11 || c as int == 12 || c == ' '
  }

  predicate Letters(s: seq<Byte>) {
    forall c :: c in s ==> WordChar(c)
  }

  predicate Blanks(s: seq<Byte>) {
    s != [] && forall c :: c in s ==> Blank(c)
  }

  /** Any white space, ends of line included. */
  predicate Whites(s: seq<Byte>) {
    s != [] && forall c :: c in s ==> Blank(c) || IsEol(c)
  }

  /** No white space at which a target ends, and no NUL. */
  predicate Plain(s: seq<Byte>) {
    EolFree(s) && '\t' !in s && ' ' !in s && '\0' !in s
  }

  /** What can stand as a target. */
  predicate Target(u: seq<Byte>) {
    u != [] && !Blank(u[0]) && Plain(u)
  }

  predicate ValidUri(u: seq<Byte>) {
    Target(u) && u[0] == '/'
  }

  /** The scheme with its "://" and the host of a full URI. */
  predicate ValidOrigin(scheme: seq<Byte>, host: seq<Byte>) {
    Target(scheme) && |scheme| == 7 && scheme[0] != '/' && Plain(host) && '/' !in host
  }

  predicate ValidHeader(f: Header) {
    EolFree(f.name) && ':' !in f.name && EolFree(f.value) && (f.spaced || f.value == [] || f.value[0] != ' ')
  }

  /** A CR that ends one line and an LF that ends the next would be one end of line. */
  predicate ValidHeaders(before: Eol, hs: seq<Header>, last: Eol)
    decreases |hs|
  {
    if hs == [] then !(before == Cr && last == Lf)
    else ValidHeader(hs[0]) && ValidHeaders(hs[0].eol, hs[1..], last)
  }

  predicate Valid(p: Printed) {
    && Letters(p.word) && Blanks(p.gap) && Target(p.target)
    && Blanks(p.gap') && (p.gap'[0] == ' ' || p.gap'[0] == '\t')
    && p.version != [] && !Blank(p.version[0]) && EolFree(p.version)
    && ValidHeaders(p.eol, p.headers, p.last)
  }

  function HeaderLine(f: Header): (t: seq<Byte>)
    ensures t != []
  {
    f.name + ([':'] + ((if f.spaced then [' '] else []) + f.value))
  }

  function RenderHeaders(hs: seq<Header>, last: Eol): (t: seq<Byte>)
    ensures t != []
  {
    if hs == [] then EolBytes(last)
    else HeaderLine(hs[0]) + (EolBytes(hs[0].eol) + RenderHeaders(hs[1..], last))
  }

  function FirstLineOf(p: Printed): seq<Byte> {
    p.word + (p.gap + (p.target + (p.gap' + p.version)))
  }

  function Render(p: Printed): seq<Byte> {
    FirstLineOf(p) + (EolBytes(p.eol) + RenderHeaders(p.headers, p.last))
  }

  lemma UntilConcat(a: seq<Byte>, b: seq<Byte>, mask: Mask)
    requires (forall i :: 0 <= i < |a| ==> !mask(a[i])) && (b != [] ==> mask(b[0]))
    ensures Until(a + b, mask) == |a| && (a + b)[..|a|] == a && (a + b)[|a|..] == b
  {
    UntilIs(a + b, mask, |a|);
  }

  // ---------- ends of line ----------

  /** The rest does not make one end of line of e and its own first byte. */
  predicate Ends(e: Eol, rest: seq<Byte>) {
    e == Cr ==> rest == [] || rest[0] != '\n'
  }

  lemma EolTaken(e: Eol, rest: seq<Byte>)
    requires Ends(e, rest)
    ensures EolLen(EolBytes(e) + rest) == |EolBytes(e)|
    ensures (EolBytes(e) + rest)[|EolBytes(e)|..] == rest && IsEol((EolBytes(e) + rest)[0])
  {
  }

  lemma NoEolInside(line: seq<Byte>)
    requires EolFree(line)
    ensures forall i :: 0 <= i < |line| ==> !EOL_MASK(line[i])
  {
    assert forall i :: 0 <= i < |line| ==> line[i] in line;
  }

  lemma LineTaken(line: seq<Byte>, e: Eol, rest: seq<Byte>)
    requires EolFree(line) && Ends(e, rest)
    ensures var t := line + (EolBytes(e) + rest);
      && Until(t, EOL_MASK) == |line| && t[..|line|] == line
      && EolLen(t[|line|..]) > 0 && t[|line|..][EolLen(t[|line|..])..] == rest
  {
    hide Until, EolLen, EolFree, Ends;
    EolTaken(e, rest);
    NoEolInside(line);
    UntilConcat(line, EolBytes(e) + rest, EOL_MASK);
  }

  // ---------- the first line ----------

  lemma WhitesSkipped(gap: seq<Byte>, t: seq<Byte>)
    requires Whites(gap) && (t == [] || (!Blank(t[0]) && !IsEol(t[0])))
    ensures SkipSpace(gap + t) == t
  {
    hide Until;
    assert forall i :: 0 <= i < |gap| ==> gap[i] in gap;
    UntilConcat(gap, t, NON_WHITESPACE_MASK);
  }

  predicate WordChar(c: Byte) {
    c in UPPER || c in LOWER || c == '-' || c == '_'
  }

  /** A word goes on over letters, '-' and '_', and over nothing else. */
  lemma WordCharIff(c: Byte)
    ensures WordChar(c) <==> !NON_WORD_MASK(c)
  {
    if c in UPPER {
      var k :| 0 <= k < 26 && UPPER[k] == c;
      Alphabets(k);
    }
    if c in LOWER {
      var k :| 0 <= k < 26 && LOWER[k] == c;
      Alphabets(k);
    }
    if 'A' <= c <= 'Z' { Alphabets(c as int - 'A' as int); }
    if 'a' <= c <= 'z' { Alphabets(c as int - 'a' as int); }
  }

  lemma WordTaken(word: seq<Byte>, rest: seq<Byte>)
    requires Letters(word) && (rest == [] || !WordChar(rest[0]))
    ensures Until(word + rest, NON_WORD_MASK) == |word| && (word + rest)[..|word|] == word && (word + rest)[|word|..] == rest
  {
    hide Until, WordChar;
    forall i | 0 <= i < |word| ensures !NON_WORD_MASK(word[i]) {
      assert word[i] in word;
      WordCharIff(word[i]);
    }
    if rest != [] { WordCharIff(rest[0]); }
    UntilConcat(word, rest, NON_WORD_MASK);
  }

  lemma BlankEndsWord(c: Byte)
    requires Blank(c) || IsEol(c)
    ensures !WordChar(c)
  {
    WordCharIff(c);
  }

  predicate EndsTarget(c: Byte) {
    c == ' ' || c == '\t' || IsEol(c)
  }

  lemma TargetTaken(u: seq<Byte>, rest: seq<Byte>)
    requires Plain(u) && rest != [] && EndsTarget(rest[0])
    ensures Until(u + rest, URL_STOP_MASK) == |u| && (u + rest)[..|u|] == u && (u + rest)[|u|..] == rest
  {
    hide Until;
    assert forall i :: 0 <= i < |u| ==> u[i] in u;
    UntilConcat(u, rest, URL_STOP_MASK);
  }

  /** White space before the version may go over ends of line: whatever line comes next that is not
      blank is taken for the version. */
  lemma LineParses(word: seq<Byte>, gap: seq<Byte>, u: seq<Byte>, gap': seq<Byte>, version: seq<Byte>, e: Eol, rest: seq<Byte>)
    requires Letters(word) && Whites(gap) && Target(u) && Whites(gap') && EndsTarget(gap'[0])
    requires version != [] && !Blank(version[0]) && EolFree(version) && Ends(e, rest)
    ensures FirstLine(word + (gap + (u + (gap' + (version + (EolBytes(e) + rest)))))) == Line(word, u, version, Some(rest))
  {
    hide Until, EolLen, SkipSpace, Ends;
    var t3 := version + (EolBytes(e) + rest);
    var t2 := gap' + t3;
    var t1 := u + t2;
    assert gap[0] in gap && u[0] in u && version[0] in version;
    BlankEndsWord(gap[0]);
    WordTaken(word, gap + t1);
    WhitesSkipped(gap, t1);
    TargetTaken(u, t2);
    WhitesSkipped(gap', t3);
    LineTaken(version, e, rest);
  }

  /** A first line splits back into its pieces. */
  lemma FirstLineParses(p: Printed, rest: seq<Byte>)
    requires Valid(p) && Ends(p.eol, rest)
    ensures FirstLine(FirstLineOf(p) + (EolBytes(p.eol) + rest)) == Line(p.word, p.target, p.version, Some(rest))
  {
    hide FirstLine, ValidHeaders, Ends;
    var t3 := p.version + (EolBytes(p.eol) + rest);
    assert FirstLineOf(p) + (EolBytes(p.eol) + rest) == p.word + (p.gap + (p.target + (p.gap' + t3)));
    LineParses(p.word, p.gap, p.target, p.gap', p.version, p.eol, rest);
  }

  /** Without a version the header line that follows is taken for it. */
  lemma HeaderTakenForVersion(word: seq<Byte>, gap: seq<Byte>, u: seq<Byte>, e: Eol, line: seq<Byte>, e': Eol, rest: seq<Byte>,
                              q: Request, mem: Memory)
    requires Letters(word) && Blanks(gap) && Target(u) && line != [] && !Blank(line[0]) && EolFree(line) && Ends(e', rest)
    ensures var parsed := FirstLine(word + (gap + (u + (EolBytes(e) + (line + (EolBytes(e') + rest))))));
      parsed == Line(word, u, line, Some(rest)) && WithLine(q, parsed, mem).version == FirstVersion(mem.beyond, line, 0)
  {
    hide FirstLine, Ends, FirstVersion, ParsedUri, GetMethod;
    LineParses(word, gap, u, EolBytes(e), line, e', rest);
  }

  /** With nothing but white space behind the target, the first line does not parse: the request keeps
      method and target, is marked bad, and no header of it is read. */
  lemma NoVersionAtAll(word: seq<Byte>, gap: seq<Byte>, u: seq<Byte>, gap': seq<Byte>, q: Request, mem: Memory)
    requires WellSized(q) && Letters(word) && Blanks(gap) && Target(u) && Whites(gap') && EndsTarget(gap'[0])
    ensures var f := word + (gap + (u + gap'));
      Parsed(f, q, mem) == (NoEol(q.(full := f, verb := GetMethod(word), uri := ParsedUri(q.uri, u, mem.past), badRequest := true)), -1)
  {
    hide Until, SkipSpace, GetMethod, ParsedUri, EolLen;
    var t1 := u + gap';
    assert gap[0] in gap && u[0] in u;
    BlankEndsWord(gap[0]);
    WordTaken(word, gap + t1);
    WhitesSkipped(gap, t1);
    TargetTaken(u, gap');
    assert gap' + [] == gap';
    WhitesSkipped(gap', []);
  }

  /** The URI is kept whole, and cut into path and parameters at its first '?'. */
  lemma UriParses(o: Uri, u: seq<Byte>, past: Byte)
    requires ValidUri(u)
    ensures var r := ParsedUri(o, u, past);
      && r.absolute == r.relative == r.requestPath == u
      && r.path + r.params == u && '?' !in r.path
      && (r.params != [] ==> r.params[0] == '?')
      && r.scheme == o.scheme && r.host == o.host
  {
    assert forall i :: 0 <= i < |u| ==> u[i] in u;
    UntilIs(u, IsChar('\0'), |u|);
    assert u[..|u|] == u;
  }

  /** A full URI gives up scheme and host; the rest is treated like a URI of its own. */
  lemma AbsoluteUriParses(o: Uri, scheme: seq<Byte>, host: seq<Byte>, u: seq<Byte>, past: Byte)
    requires ValidOrigin(scheme, host) && ValidUri(u)
    ensures var r := ParsedUri(o, scheme + host + u, past);
      && r.absolute == scheme + host + u && r.scheme == scheme && r.host == host
      && r == ParsedUri(o, u, past).(absolute := r.absolute, scheme := scheme, host := host)
  {
    hide Until, WithRelative;
    var full := scheme + host + u;
    assert full[..7] == scheme && full[7..] == host + u;
    assert forall i :: 0 <= i < |host| ==> host[i] in host;
    UntilConcat(host, u, IsChar('/'));
    assert full[0] == scheme[0] != '/';
    assert Origin(full) == (scheme, host, u);
    RelativeAlone(o, u);
    RelativeAlone(o.(absolute := full, scheme := scheme, host := host), u);
    RelativeAlone(o.(absolute := u), u);
  }

  lemma RelativeAlone(o: Uri, u: seq<Byte>)
    ensures var r := WithRelative(o, u);
      r == WithRelative(Uri([], [], [], [], [], [], []), u).(absolute := o.absolute, scheme := o.scheme, host := o.host)
  {
  }

  /** An empty target takes over nothing; scheme and host are cleared unless the byte behind it in
      memory is '/'. */
  lemma EmptyUri(o: Uri, past: Byte)
    ensures ParsedUri(o, [], past)
            == Uri([], if past == '/' then o.scheme else [], if past == '/' then o.host else [], [], [], [], [])
  {
  }

  /** A full URI without a path: up to seven bytes of scheme, the rest is the host, and nothing is left. */
  lemma UriWithoutPath(o: Uri, u: seq<Byte>, past: Byte)
    requires u != [] && u[0] != '/' && (|u| > 7 ==> '/' !in u[7..])
    ensures ParsedUri(o, u, past)
            == (if |u| <= 7 then Uri(u, u, [], [], [], [], []) else Uri(u, u[..7], u[7..], [], [], [], []))
  {
    hide WithRelative;
    var n: nat := if |u| < 7 then |u| else 7;
    var t := u[n..];
    assert forall i :: 0 <= i < |t| ==> t[i] in t;
    UntilIs(t, IsChar('/'), |t|);
    hide Until;
    assert t[..|t|] == t && t[|t|..] == [];
    assert Origin(u) == (u[..n], t, []);
    assert |u| <= 7 ==> u[..n] == u && t == [];
    NothingRelative(o.(absolute := u, scheme := u[..n], host := t));
  }

  lemma NothingRelative(o: Uri)
    ensures WithRelative(o, []) == Uri(o.absolute, o.scheme, o.host, [], [], [], [])
  {
  }

  /** The path that is served ends at a NUL; the relative URI does not. */
  lemma NulCuts(o: Uri, a: seq<Byte>, b: seq<Byte>, past: Byte)
    requires a != [] && a[0] == '/' && '\0' !in a
    ensures var r := ParsedUri(o, a + ['\0'] + b, past);
      && r.relative == a + ['\0'] + b && r.requestPath == r.path + r.params == a
      && '?' !in r.path && (r.params != [] ==> r.params[0] == '?')
  {
    var u := a + ['\0'] + b;
    assert forall i :: 0 <= i < |a| ==> u[i] == a[i] && a[i] in a;
    UntilIs(u, IsChar('\0'), |a|);
    assert u[..|a|] == a;
  }

  // ---------- the headers ----------

  lemma ValueParses(f: Header, rest: seq<Byte>)
    requires ValidHeader(f) && Ends(f.eol, rest)
    ensures ValueLine((if f.spaced then [' '] else []) + (f.value + (EolBytes(f.eol) + rest))) == Some((f.value, rest))
  {
    hide Until, EolLen, EolFree, Ends;
    var u := f.value + (EolBytes(f.eol) + rest);
    LineTaken(f.value, f.eol, rest);
    if f.spaced {
      assert ([' '] + u)[1..] == u;
    } else {
      assert [] + u == u && u[0] == if f.value == [] then EolBytes(f.eol)[0] else f.value[0];
    }
  }

  lemma OneHeaderParses(f: Header, rest: seq<Byte>, q: Request, mem: Memory)
    requires WellSized(q) && ValidHeader(f) && Ends(f.eol, rest)
    ensures OneHeader(HeaderLine(f) + (EolBytes(f.eol) + rest), q, mem) == Done(WithHeader(q, f.name, f.value, mem), rest)
  {
    hide WithHeader, Until, ValueLine;
    var blank: seq<Byte> := if f.spaced then [' '] else [];
    var after := blank + (f.value + (EolBytes(f.eol) + rest));
    assert HeaderLine(f) + (EolBytes(f.eol) + rest) == f.name + ([':'] + after);
    assert forall i :: 0 <= i < |f.name| ==> f.name[i] in f.name;
    UntilConcat(f.name, [':'] + after, IsChar(':'));
    assert (f.name + ([':'] + after))[|f.name| + 1..] == after;
    ValueParses(f, rest);
  }

  /** Storing the headers one after the other. */
  function WithHeaders(q: Request, hs: seq<Header>, mem: Memory): (q': Request)
    requires WellSized(q)
    ensures WellSized(q')
    decreases |hs|
  {
    if hs == [] then q else WithHeaders(WithHeader(q, hs[0].name, hs[0].value, mem), hs[1..], mem)
  }

  lemma HeadersStart(before: Eol, hs: seq<Header>, last: Eol)
    requires ValidHeaders(before, hs, last)
    ensures Ends(before, RenderHeaders(hs, last))
    ensures hs != [] ==> !IsEol(RenderHeaders(hs, last)[0])
  {
    if hs != [] {
      var f := hs[0];
      assert HeaderLine(f)[0] == if f.name == [] then ':' else f.name[0];
      assert f.name != [] ==> f.name[0] in f.name;
    }
  }

  lemma {:induction false} HeadersParse(before: Eol, hs: seq<Header>, last: Eol, q: Request, mem: Memory)
    requires WellSized(q) && ValidHeaders(before, hs, last)
    ensures ParsedHeaders(RenderHeaders(hs, last), q, mem) == Done(WithHeaders(q, hs, mem), [])
    decreases |hs|
  {
    hide WithHeader, OneHeader, EolLen, HeaderLine;
    HeadersStart(before, hs, last);
    if hs == [] {
      EolTaken(last, []);
      assert EolBytes(last) + [] == EolBytes(last);
    } else {
      HeadersStart(hs[0].eol, hs[1..], last);
      OneHeaderParses(hs[0], RenderHeaders(hs[1..], last), q, mem);
      HeadersParse(hs[0].eol, hs[1..], last, WithHeader(q, hs[0].name, hs[0].value, mem), mem);
    }
  }

  /** The lines of hs alone. */
  function Lines(hs: seq<Header>): seq<Byte> {
    if hs == [] then [] else HeaderLine(hs[0]) + (EolBytes(hs[0].eol) + Lines(hs[1..]))
  }

  /** Headers and then text without any colon: the headers are stored, and the request is marked bad. */
  lemma {:induction false} ColonMissing(before: Eol, hs: seq<Header>, t: seq<Byte>, q: Request, mem: Memory)
    requires WellSized(q) && ValidHeaders(before, hs, CrLf) && t != [] && !IsEol(t[0]) && ':' !in t
    ensures ParsedHeaders(Lines(hs) + t, q, mem) == NoColon(WithHeaders(q, hs, mem).(badRequest := true))
    decreases |hs|
  {
    hide WithHeader, EolLen, ValueLine;
    if hs == [] {
      hide Until;
      assert forall i :: 0 <= i < |t| ==> t[i] in t;
      UntilIs(t, IsChar(':'), |t|);
      assert Lines(hs) + t == t;
    } else {
      hide OneHeader, HeaderLine;
      var more := Lines(hs[1..]) + t;
      assert Lines(hs) + t == HeaderLine(hs[0]) + (EolBytes(hs[0].eol) + more);
      LinesStart(hs, t);
      LinesStart(hs[1..], t);
      OneHeaderParses(hs[0], more, q, mem);
      ColonMissing(hs[0].eol, hs[1..], t, WithHeader(q, hs[0].name, hs[0].value, mem), mem);
    }
  }

  lemma LinesStart(hs: seq<Header>, t: seq<Byte>)
    requires hs != [] ==> ValidHeader(hs[0])
    requires t != [] && !IsEol(t[0])
    ensures Lines(hs) + t != [] && !IsEol((Lines(hs) + t)[0])
  {
    if hs != [] {
      var f := hs[0];
      assert (Lines(hs) + t)[0] == if f.name == [] then ':' else f.name[0];
      assert f.name != [] ==> f.name[0] in f.name;
    }
  }

  /** The value of the last header whose name is found as h, if any. */
  function LastValue(beyond: Byte -> Byte, hs: seq<Header>, h: nat): Option<seq<Byte>> {
    if hs == [] then None
    else
      var r := LastValue(beyond, hs[1..], h);
      if r.Some? then r else if FastHeader(beyond, hs[0].name) == h then Some(hs[0].value) else None
  }

  /** ... in terms of letters: the last header whose name differs from h's in case at most. */
  lemma {:induction false} LastValueIff(beyond: Byte -> Byte, hs: seq<Header>, h: nat, value: seq<Byte>)
    requires h < NUM_HEADERS && forall f :: f in hs ==> InTable(f.name)
    ensures LastValue(beyond, hs, h) == Some(value) <==>
      exists i :: 0 <= i < |hs| && hs[i].value == value && SameButCase(hs[i].name, HeaderName(h))
                  && forall j :: i < j < |hs| ==> !SameButCase(hs[j].name, HeaderName(h))
    ensures LastValue(beyond, hs, h) == None <==> forall i :: 0 <= i < |hs| ==> !SameButCase(hs[i].name, HeaderName(h))
  {
    hide HeaderName, FastHeader, SameButCase;
    if hs != [] {
      var more := hs[1..];
      LastValueIff(beyond, more, h, value);
      HeaderFoundIff(beyond, hs[0].name, h);
      assert forall i :: 0 <= i < |more| ==> more[i] == hs[i + 1];
      if i :| 0 <= i < |more| && more[i].value == value && SameButCase(more[i].name, HeaderName(h))
              && forall j :: i < j < |more| ==> !SameButCase(more[j].name, HeaderName(h)) {
        forall j | i + 1 < j < |hs| ensures !SameButCase(hs[j].name, HeaderName(h)) { assert hs[j] == more[j - 1]; }
        assert hs[i + 1] == more[i];
      }
      if i :| 0 <= i < |hs| && hs[i].value == value && SameButCase(hs[i].name, HeaderName(h))
              && forall j :: i < j < |hs| ==> !SameButCase(hs[j].name, HeaderName(h)) {
        if i > 0 {
          assert more[i - 1] == hs[i];
          forall j | i - 1 < j < |more| ensures !SameButCase(more[j].name, HeaderName(h)) { assert more[j] == hs[j + 1]; }
        }
      }
    }
  }

  /** A header whose name is in the table under no case leaves everything as it is. */
  lemma UnknownHeaderIgnored(q: Request, name: seq<Byte>, value: seq<Byte>, mem: Memory)
    requires WellSized(q) && InTable(name) && forall h :: 0 <= h < NUM_HEADERS ==> !SameButCase(name, HeaderName(h))
    ensures WithHeader(q, name, value, mem) == q
  {
    hide HeaderName, FastHeader, SameButCase;
    HeaderUnknownIff(mem.beyond, name);
  }

  /** A Connection header, in any case, clears keep-alive exactly if its value is "close" in any case. */
  lemma ConnectionCloses(q: Request, name: seq<Byte>, value: seq<Byte>, mem: Memory)
    requires WellSized(q) && InTable(name) && InTable(value)
    requires SameButCase(name, ['C', 'o', 'n', 'n', 'e', 'c', 't', 'i', 'o', 'n'])
    ensures WithHeader(q, name, value, mem).keepAlive == !SameButCase(value, ['c', 'l', 'o', 's', 'e'])
    ensures WithHeader(q, name, value, mem).fields == q.fields[0 := value]
  {
    hide FastHeader, SameLetter, EqualIgnoreCase;
    assert HeaderName(0) == ['C', 'o', 'n', 'n', 'e', 'c', 't', 'i', 'o', 'n'];
    HeaderFoundIff(mem.beyond, name, 0);
    EqualIff(mem.beyond, "close", value);
    SameButCaseSymmetric("close", value);
  }

  lemma SameButCaseSymmetric(a: seq<Byte>, b: seq<Byte>)
    ensures SameButCase(a, b) <==> SameButCase(b, a)
  {
  }

  /** What the headers make of keep-alive: the last Connection header decides. */
  function KeepsAlive(q: Request, hs: seq<Header>, mem: Memory): bool {
    match LastValue(mem.beyond, hs, CONNECTION_HEADER)
    case None => q.keepAlive
    case Some(v) => !EqualIgnoreCase(mem.beyond, "close", v)
  }

  lemma {:induction false} FieldsHoldLast(q: Request, hs: seq<Header>, mem: Memory, h: nat)
    requires WellSized(q) && h < NUM_HEADERS
    ensures WithHeaders(q, hs, mem).fields[h]
            == match LastValue(mem.beyond, hs, h) case Some(v) => v case None => q.fields[h]
    ensures var q' := WithHeaders(q, hs, mem); q' == q.(keepAlive := KeepsAlive(q, hs, mem), fields := q'.fields)
    decreases |hs|
  {
    hide FastHeader, EqualIgnoreCase;
    if hs != [] {
      FieldsHoldLast(WithHeader(q, hs[0].name, hs[0].value, mem), hs[1..], mem, h);
    }
  }

  // ---------- the frame of a printed request ----------

  lemma LineThenEol(line: seq<Byte>, t: seq<Byte>)
    requires EolFree(line) && t != [] && IsEol(t[0])
    ensures Frame(line + t) == Plus(|line|, Frame(t))
  {
    hide Until, Frame, EolFree;
    NoEolInside(line);
    UntilConcat(line, t, EOL_MASK);
    FrameSkip(line + t);
  }

  lemma FinalBlock(e: Eol, rest: seq<Byte>)
    requires Block(rest) && Ends(e, rest)
    ensures Frame(EolBytes(e) + rest) == Some(|EolBytes(e)| + |rest|)
  {
    hide Frame, Ends;
    EolTaken(e, rest);
    EolLine(EolBytes(e) + rest);
  }

  lemma LineThenFrame(line: seq<Byte>, e: Eol, rest: seq<Byte>)
    requires EolFree(line) && Block(rest) && Ends(e, rest)
    ensures Frame(line + (EolBytes(e) + rest)) == Some(|line| + |EolBytes(e)| + |rest|)
  {
    hide EolLen, Frame, EolFree, Ends, Block;
    EolTaken(e, rest);
    LineThenEol(line, EolBytes(e) + rest);
    FinalBlock(e, rest);
  }

  lemma {:induction false} HeadersFrame(before: Eol, hs: seq<Header>, last: Eol)
    requires ValidHeaders(before, hs, last)
    ensures Block(RenderHeaders(hs, last))
    decreases |hs|
  {
    hide Frame, EolLen;
    HeadersStart(before, hs, last);
    if hs == [] {
      EolTaken(last, []);
      assert EolBytes(last) + [] == EolBytes(last);
    } else {
      HeadersFrame(hs[0].eol, hs[1..], last);
      HeadersStart(hs[0].eol, hs[1..], last);
      LineThenFrame(HeaderLine(hs[0]), hs[0].eol, RenderHeaders(hs[1..], last));
    }
  }

  lemma RenderFrames(p: Printed)
    requires Valid(p)
    ensures Frame(Render(p)) == Some(|Render(p)|)
  {
    hide Frame, EolLen, RenderHeaders, ValidHeaders, Block;
    FirstLineEolFree(p);
    HeadersFrame(p.eol, p.headers, p.last);
    HeadersStart(p.eol, p.headers, p.last);
    LineThenFrame(FirstLineOf(p), p.eol, RenderHeaders(p.headers, p.last));
  }

  lemma FirstLineEolFree(p: Printed)
    requires Valid(p)
    ensures EolFree(FirstLineOf(p)) && FirstLineOf(p) != []
  {
    hide ValidHeaders;
    assert forall k :: 0 <= k < 26 ==> UPPER[k] == ('A' as int + k) as char && LOWER[k] == ('a' as int + k) as char by {
      forall k | 0 <= k < 26 ensures UPPER[k] == ('A' as int + k) as char && LOWER[k] == ('a' as int + k) as char { Alphabets(k); }
    }
  }

  lemma {:induction false} RenderHeadersEnd(hs: seq<Header>, last: Eol)
    ensures var t := RenderHeaders(hs, last); t[|t| - 1] == EolBytes(last)[|EolBytes(last)| - 1]
    decreases |hs|
  {
    if hs != [] { RenderHeadersEnd(hs[1..], last); }
  }

  /** A printed request is framed whole whatever follows, unless it ends in a bare CR and an LF follows. */
  lemma RenderIsStable(p: Printed, more: seq<Byte>)
    requires Valid(p) && Ends(p.last, more)
    ensures Frame(Render(p) + more) == Some(|Render(p)|)
  {
    hide Frame, RenderHeaders;
    RenderFrames(p);
    RenderHeadersEnd(p.headers, p.last);
    FrameStable(Render(p), more);
  }

  /** The fields after a first line. */
  lemma LineFields(p: Printed, rest: seq<Byte>, q: Request, mem: Memory)
    requires Valid(p)
    ensures var q' := WithLine(q, Line(p.word, p.target, p.version, Some(rest)), mem);
      q' == q.(verb := GetMethod(p.word), uri := ParsedUri(q.uri, p.target, mem.past),
               version := FirstVersion(mem.beyond, p.version, 0))
  {
    hide GetMethod, FirstVersion, ParsedUri;
  }

  lemma RenderParses(p: Printed, q: Request, mem: Memory)
    requires Valid(p) && WellSized(q)
    ensures var f, line := Render(p), Line(p.word, p.target, p.version, Some(RenderHeaders(p.headers, p.last)));
      var q1 := WithLine(q.(full := f), line, mem);
      Parsed(f, q, mem) == (Done(WithHeaders(q1, p.headers, mem), []), 0)
  {
    hide FirstLine, WithLine, ParsedHeaders, RenderHeaders, FirstLineOf, ValidHeaders;
    HeadersStart(p.eol, p.headers, p.last);
    FirstLineParses(p, RenderHeaders(p.headers, p.last));
    var f, line := Render(p), Line(p.word, p.target, p.version, Some(RenderHeaders(p.headers, p.last)));
    HeadersParse(p.eol, p.headers, p.last, WithLine(q.(full := f), line, mem), mem);
  }

  /** What parsing a printed request into the fields q gives. */
  ghost predicate Recovered(p: Printed, q: Request, mem: Memory, r: Request) {
    && WellSized(q) && r.full == Render(p)
    && (forall m :: 0 <= m < NUM_METHODS ==> (r.verb == m <==> p.word == MethodName(m)))
    && (forall v :: 0 <= v < NUM_VERSIONS && InTable(p.version) ==> (r.version == v <==> SameButCase(p.version, VersionName(v))))
    && r.badRequest == q.badRequest
    && WellSized(r) && r.keepAlive == KeepsAlive(q, p.headers, mem)
    && forall h :: 0 <= h < NUM_HEADERS ==>
        r.fields[h] == match LastValue(mem.beyond, p.headers, h) case Some(value) => value case None => q.fields[h]
  }

  lemma TargetRoundTrip(p: Printed, q: Request, mem: Memory, more: seq<Byte>)
    requires Valid(p) && Ends(p.last, more) && WellSized(q)
    ensures Frame(Render(p) + more) == Some(|Render(p)|) && Parsed(Render(p), q, mem).1 == 0
    ensures var r := Parsed(Render(p), q, mem).0;
      r.Done? && r.rest == [] && Recovered(p, q, mem, r.q) && r.q.uri == ParsedUri(q.uri, p.target, mem.past)
  {
    hide Frame, WithLine, WithHeaders, Render, Parsed, ParsedUri, MethodName, VersionName, SameButCase, FirstVersion,
      GetMethod, RenderHeaders, ValidHeaders, LastValue, KeepsAlive;
    RenderIsStable(p, more);
    RenderParses(p, q, mem);
    var f, rest := Render(p), RenderHeaders(p.headers, p.last);
    LineFields(p, rest, q.(full := f), mem);
    var q1 := WithLine(q.(full := f), Line(p.word, p.target, p.version, Some(rest)), mem);
    HeadersRecovered(q1, q, p.headers, mem);
    forall m | 0 <= m < NUM_METHODS ensures GetMethod(p.word) == m <==> p.word == MethodName(m) { GetMethodIff(p.word, m); }
    forall v | 0 <= v < NUM_VERSIONS && InTable(p.version)
      ensures FirstVersion(mem.beyond, p.version, 0) == v <==> SameButCase(p.version, VersionName(v))
    {
      VersionFoundIff(mem.beyond, p.version, v);
    }
  }

  lemma HeadersRecovered(q1: Request, q: Request, hs: seq<Header>, mem: Memory)
    requires WellSized(q1) && q1.fields == q.fields && q1.keepAlive == q.keepAlive
    ensures var r := WithHeaders(q1, hs, mem);
      && WellSized(r) && r == q1.(keepAlive := KeepsAlive(q, hs, mem), fields := r.fields)
      && forall h :: 0 <= h < NUM_HEADERS ==>
          r.fields[h] == match LastValue(mem.beyond, hs, h) case Some(value) => value case None => q.fields[h]
  {
    hide WithHeaders, LastValue;
    FieldsHoldLast(q1, hs, mem, 0);
    forall h | 0 <= h < NUM_HEADERS
      ensures WithHeaders(q1, hs, mem).fields[h]
              == match LastValue(mem.beyond, hs, h) case Some(w) => w case None => q.fields[h]
    {
      FieldsHoldLast(q1, hs, mem, h);
    }
  }

  /** Whatever follows it, a printed request is framed whole, and parsing the frame succeeds, ends at
      its end and recovers the method, the URI, the version and the last value of every header. */
  lemma RoundTrip(p: Printed, q: Request, mem: Memory, more: seq<Byte>)
    requires Valid(p) && p.target[0] == '/' && Ends(p.last, more) && WellSized(q)
    ensures Frame(Render(p) + more) == Some(|Render(p)|) && Parsed(Render(p), q, mem).1 == 0
    ensures var r := Parsed(Render(p), q, mem).0;
      && r.Done? && r.rest == [] && Recovered(p, q, mem, r.q)
      && r.q.uri.absolute == r.q.uri.relative == r.q.uri.requestPath == r.q.uri.path + r.q.uri.params == p.target
      && '?' !in r.q.uri.path && (r.q.uri.params != [] ==> r.q.uri.params[0] == '?')
      && r.q.uri.scheme == q.uri.scheme && r.q.uri.host == q.uri.host
  {
    hide Frame, Render, Parsed, ParsedUri, Recovered, ValidHeaders;
    TargetRoundTrip(p, q, mem, more);
    UriParses(q.uri, p.target, mem.past);
  }

  /** The same with a full URI, whose scheme and host are recovered too. */
  lemma AbsoluteRoundTrip(p: Printed, scheme: seq<Byte>, host: seq<Byte>, u: seq<Byte>, q: Request, mem: Memory, more: seq<Byte>)
    requires Valid(p) && p.target == scheme + host + u && Ends(p.last, more) && WellSized(q)
    requires ValidOrigin(scheme, host) && ValidUri(u)
    ensures Frame(Render(p) + more) == Some(|Render(p)|) && Parsed(Render(p), q, mem).1 == 0
    ensures var r := Parsed(Render(p), q, mem).0;
      && r.Done? && r.rest == [] && Recovered(p, q, mem, r.q)
      && r.q.uri.scheme == scheme && r.q.uri.host == host
      && r.q.uri.relative == r.q.uri.requestPath == r.q.uri.path + r.q.uri.params == u
  {
    hide Frame, Render, Parsed, ParsedUri, Recovered, ValidHeaders;
    TargetRoundTrip(p, q, mem, more);
    AbsoluteUriParses(q.uri, scheme, host, u, mem.past);
    UriParses(q.uri, u, mem.past);
  }
}
