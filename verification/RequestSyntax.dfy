/** What parsing one framed request means, on the bytes still ahead of the parser, and why the
    parser never looks past the frame. */
module RequestSyntax {
  import opened Basics
  import opened Bytes
  import opened Options
  import opened Framing
  import opened HttpProtocol
  import opened StringParsers

  /** sURLStopConditions. */
  const URL_STOP_MASK: Mask := c => c == '\t' || c == '\n' || c == '\r' || c == ' '

  /** The memory a parse depends on besides the frame: the byte after it, which an empty URI makes
      ParseURI look at, and what follows the case table. */
  datatype Memory = Memory(past: Byte, beyond: Byte -> Byte)

  /** The fields ParseURI fills; path is the decoded-by-copy request path up to its first NUL. */
  datatype Uri = Uri(
    absolute: seq<Byte>,
    scheme: seq<Byte>,
    host: seq<Byte>,
    relative: seq<Byte>,
    requestPath: seq<Byte>,
    path: seq<Byte>,
    params: seq<Byte>)

  /** The fields of HttpRequest. */
  datatype Request = Request(
    full: seq<Byte>,
    verb: nat,
    version: nat,
    uri: Uri,
    badRequest: bool,
    keepAlive: bool,
    fields: seq<seq<Byte>>)

  predicate WellSized(q: Request) {
    |q.fields| == NUM_HEADERS
  }

  /** What Clear leaves. */
  function Cleared(q: Request): (q': Request)
    ensures WellSized(q) ==> WellSized(q')
  {
    q.(full := [], verb := 0, version := 1, badRequest := false,
       uri := Uri([], [], [], [], [], q.uri.path, []))
  }

  // ---------- the first line ----------

  /** The bytes before the terminator of a C string copied from s. */
  function CString(s: seq<Byte>): seq<Byte> {
    s[..Until(s, IsChar('\0'))]
  }

  /** Scheme, host and the rest of a URI that does not start with '/'. */
  function Origin(uri: seq<Byte>): (seq<Byte>, seq<Byte>, seq<Byte>) {
    var n := Min(7, |uri|);
    var t := uri[n..];
    var k := Until(t, IsChar('/'));
    (uri[..n], t[..k], t[k..])
  }

  function WithRelative(u: Uri, relative: seq<Byte>): Uri {
    var path := CString(relative);
    var cut := Until(path, IsChar('?'));
    u.(relative := relative, requestPath := path, path := path[..cut], params := path[cut..])
  }

  /** ParseURI: u is what the fields held before. */
  function ParsedUri(u: Uri, uri: seq<Byte>, past: Byte): Uri {
    var first := if uri == [] then past else uri[0];
    var u1 := u.(absolute := uri);
    if first != '/' then
      var (scheme, host, relative) := Origin(uri);
      WithRelative(u1.(scheme := scheme, host := host), relative)
    else WithRelative(u1, uri)
  }

  /** The pieces of a first line; rest is what follows its end of line, if it has one. */
  datatype Line = Line(word: seq<Byte>, uri: seq<Byte>, version: seq<Byte>, rest: Option<seq<Byte>>)

  function SkipSpace(t: seq<Byte>): seq<Byte> {
    t[Until(t, NON_WHITESPACE_MASK)..]
  }

  /** The last piece: the version and its end of line. */
  function VersionLine(word: seq<Byte>, uri: seq<Byte>, t: seq<Byte>): Line {
    var n := Until(t, EOL_MASK);
    var e := EolLen(t[n..]);
    Line(word, uri, t[..n], if e > 0 then Some(t[n..][e..]) else None)
  }

  lemma VersionLinePieces(word: seq<Byte>, uri: seq<Byte>, t: seq<Byte>)
    ensures VersionLine(word, uri, t) == VersionLine([], [], t).(word := word, uri := uri)
  {
  }

  function UriLine(word: seq<Byte>, t: seq<Byte>): Line {
    var n := Until(t, URL_STOP_MASK);
    VersionLine(word, t[..n], SkipSpace(t[n..]))
  }

  function FirstLine(t: seq<Byte>): Line {
    var n := Until(t, NON_WORD_MASK);
    UriLine(t[..n], SkipSpace(t[n..]))
  }

  /** What the version part of the line does to the fields. */
  function WithVersion(q: Request, version: seq<Byte>, ended: bool, mem: Memory): Request {
    var q1 := if |version| > 0 then q.(version := FirstVersion(mem.beyond, version, 0)) else q;
    if ended then q1 else q1.(badRequest := true)
  }

  function WithLine(q: Request, line: Line, mem: Memory): (q': Request)
    ensures q'.fields == q.fields
  {
    WithVersion(q.(verb := GetMethod(line.word), uri := ParsedUri(q.uri, line.uri, mem.past)),
                line.version, line.rest.Some?, mem)
  }

  // ---------- the headers ----------

  function WithHeader(q: Request, name: seq<Byte>, value: seq<Byte>, mem: Memory): (q': Request)
    requires WellSized(q)
    ensures WellSized(q')
  {
    var h := FastHeader(mem.beyond, name);
    var q1 := if h == CONNECTION_HEADER then q.(keepAlive := !EqualIgnoreCase(mem.beyond, "close", value)) else q;
    if h != ILLEGAL_HEADER then q1.(fields := q1.fields[h := value]) else q1
  }

  /** How ParseHeaders ends: at the end of the headers with rest ahead, at a header without a colon
      or without an end of line, or by looking past the end of the stream. */
  datatype Headers = Done(q: Request, rest: seq<Byte>) | NoColon(q: Request) | NoEol(q: Request) | Outside

  function SkipOneSpace(t: seq<Byte>): seq<Byte>
    requires t != []
  {
    if t[0] == ' ' then t[1..] else t
  }

  /** What follows a colon: the value and what is ahead of its end of line, if it has one. */
  function ValueLine(v: seq<Byte>): (r: Option<(seq<Byte>, seq<Byte>)>)
    requires v != []
    ensures r.Some? ==> |r.value.1| < |v|
  {
    var u := SkipOneSpace(v);
    var n := Until(u, EOL_MASK);
    if n == |u| then None else Some((u[..n], u[n..][EolLen(u[n..])..]))
  }

  /** One header: Done says what is ahead after it. */
  function OneHeader(t: seq<Byte>, q: Request, mem: Memory): (r: Headers)
    requires WellSized(q)
    ensures r != Outside ==> WellSized(r.q)
    ensures r.Done? ==> |r.rest| < |t|
  {
    var c := Until(t, IsChar(':'));
    if c == |t| then NoColon(q.(badRequest := true))
    else if t[c + 1..] == [] then Outside
    else
      match ValueLine(t[c + 1..])
      case None => NoEol(q.(badRequest := true))
      case Some((value, rest)) => Done(WithHeader(q, t[..c], value, mem), rest)
  }

  function ParsedHeaders(t: seq<Byte>, q: Request, mem: Memory): (r: Headers)
    requires WellSized(q)
    ensures r != Outside ==> WellSized(r.q)
    decreases |t|
  {
    if t == [] then Outside
    else if IsEol(t[0]) then Done(q, t[EolLen(t)..])
    else
      var h := OneHeader(t, q, mem);
      if h.Done? then ParsedHeaders(h.rest, h.q, mem) else h
  }

  // ---------- the parser stays inside the frame ----------

  lemma ValueStaysInside(v: seq<Byte>)
    requires v != [] && Frame(v) == Some(|v|)
    ensures ValueLine(v).Some? && Block(ValueLine(v).value.1)
  {
    hide Frame, Until, EolLen, Block;
    if v[0] == ' ' { FrameSuffix(v, 1); }
    FrameFirstLine(SkipOneSpace(v));
  }

  lemma OneHeaderStaysInside(t: seq<Byte>, q: Request, mem: Memory)
    requires WellSized(q) && Frame(t) == Some(|t|)
    ensures var h := OneHeader(t, q, mem); h.NoColon? || (h.Done? && Block(h.rest))
  {
    hide Frame, WithHeader, Until, ValueLine, Block;
    var c := Until(t, IsChar(':'));
    if c < |t| {
      assert t[c] == ':';
      FrameSuffix(t, c + 1);
      ValueStaysInside(t[c + 1..]);
    }
  }

  lemma {:induction false} HeadersStayInside(t: seq<Byte>, q: Request, mem: Memory)
    requires WellSized(q) && Block(t)
    ensures var h := ParsedHeaders(t, q, mem); h.NoColon? || (h.Done? && h.rest == [])
    decreases |t|
  {
    hide Frame, OneHeader;
    if !IsEol(t[0]) {
      OneHeaderStaysInside(t, q, mem);
      var h := OneHeader(t, q, mem);
      if h.Done? { HeadersStayInside(h.rest, h.q, mem); }
    }
  }

  /** After white space was skipped an end of line can only follow something else. */
  lemma VersionNotEmpty(t: seq<Byte>)
    requires SkipSpace(t) == t && EolLen(t[Until(t, EOL_MASK)..]) > 0
    ensures 0 < Until(t, EOL_MASK) < |t| && !IsEol(t[Until(t, EOL_MASK) - 1])
  {
    hide Until, EolLen;
    assert Until(t, NON_WHITESPACE_MASK) == 0;
    assert NON_WHITESPACE_MASK(t[0]);
    var n := Until(t, EOL_MASK);
    assert n > 0 ==> !EOL_MASK(t[n - 1]);
  }

  lemma VersionLineInside(f: seq<Byte>, k: nat, word: seq<Byte>, uri: seq<Byte>)
    requires Frame(f) == Some(|f|) && k <= |f| && SkipSpace(f[k..]) == f[k..]
    requires VersionLine(word, uri, f[k..]).rest.Some?
    ensures Block(VersionLine(word, uri, f[k..]).rest.value)
  {
    hide Frame, Until, EolLen, SkipSpace, Block;
    var t := f[k..];
    var n := Until(t, EOL_MASK);
    VersionNotEmpty(t);
    assert t[n - 1] == f[k + n - 1];
    FrameSuffix(f, k + n);
    assert f[k + n..] == t[n..];
    EolThenBlock(t[n..]);
  }

  lemma SkipSpaceAt(f: seq<Byte>, k: nat) returns (j: nat)
    requires k <= |f|
    ensures k <= j <= |f| && SkipSpace(f[k..]) == f[j..] && SkipSpace(f[j..]) == f[j..]
  {
    hide Until;
    j := k + Until(f[k..], NON_WHITESPACE_MASK);
    assert f[k..][j - k..] == f[j..];
    if j < |f| { assert NON_WHITESPACE_MASK(f[k..][j - k]); }
  }

  lemma FirstLineInside(f: seq<Byte>)
    requires Frame(f) == Some(|f|)
    ensures FirstLine(f).rest.Some? ==> Block(FirstLine(f).rest.value)
  {
    hide Frame, VersionLine, Until, SkipSpace;
    var n := Until(f, NON_WORD_MASK);
    var j := SkipSpaceAt(f, n);
    var t := f[j..];
    var u := Until(t, URL_STOP_MASK);
    assert t[u..] == f[j + u..];
    var k := SkipSpaceAt(f, j + u);
    if VersionLine(f[..n], t[..u], f[k..]).rest.Some? { VersionLineInside(f, k, f[..n], t[..u]); }
  }

  /** Parse as a whole: the request it leaves behind and its return value. */
  function Parsed(f: seq<Byte>, q: Request, mem: Memory): (r: (Headers, int))
    requires WellSized(q)
    ensures r.0 != Outside ==> WellSized(r.0.q)
  {
    var line := FirstLine(f);
    var q1 := WithLine(q.(full := f), line, mem);
    match line.rest
    case None => (NoEol(q1), -1)
    case Some(t) =>
      var h := ParsedHeaders(t, q1, mem);
      (h, if h.Done? then 0 else -1)
  }

  /** On a framed request whose first line parses, the headers are read without leaving the frame and
      no header lacks its end of line: parsing fails for a missing colon, or ends exactly at the end
      of the frame. */
  lemma FramerAndParserAgree(f: seq<Byte>, q: Request, mem: Memory)
    requires WellSized(q) && Frame(f) == Some(|f|)
    ensures var r := Parsed(f, q, mem);
      if FirstLine(f).rest == None then r.1 == -1 && r.0 == NoEol(WithLine(q.(full := f), FirstLine(f), mem))
      else (r.1 == -1 && r.0.NoColon?) || (r.1 == 0 && r.0.Done? && r.0.rest == [])
  {
    FirstLineInside(f);
    if FirstLine(f).rest.Some? {
      HeadersStayInside(FirstLine(f).rest.value, WithLine(q.(full := f), FirstLine(f), mem), mem);
    }
  }
}
