/** HttpRequest: the parser methods that fill the request's fields while they move the cursor. */
module HttpRequests {
  import opened Basics
  import opened Bytes
  import opened Options
  import opened Framing
  import opened HttpProtocol
  import opened RequestSyntax
  import opened StringParsers

  class HttpRequest {
    var full: seq<Byte>
    var verb: nat
    var version: nat
    var absoluteURI: seq<Byte>
    var scheme: seq<Byte>
    var host: seq<Byte>
    var relativeURI: seq<Byte>
    var requestPath: seq<Byte>
    var uriPath: seq<Byte>
    var uriParams: seq<Byte>
    var badRequest: bool
    var keepAlive: bool
    var fields: seq<seq<Byte>>

    ghost function State(): Request
      reads this
    {
      Request(full, verb, version, Location(), badRequest, keepAlive, fields)
    }

    ghost function Location(): Uri
      reads this
    {
      Uri(absoluteURI, scheme, host, relativeURI, requestPath, uriPath, uriParams)
    }

    method ClearUri()
      modifies this`absoluteURI, this`relativeURI, this`scheme, this`host, this`requestPath, this`uriParams
      ensures Location() == Uri([], [], [], [], [], uriPath, [])
    {
      absoluteURI, relativeURI, scheme, host := [], [], [], [];
      requestPath, uriParams := [], [];
    }

    /** Resets the request; the path, keep-alive and header fields keep what the last request left. */
    method Clear()
      modifies this`full, this`verb, this`version, this`absoluteURI, this`relativeURI, this`scheme, this`host,
               this`requestPath, this`badRequest, this`uriParams
      ensures State() == Cleared(old(State()))
    {
      full, verb, version := [], 0, 1;
      badRequest := false;
      ClearUri();
    }

    method SetKeepAlive(beyond: Byte -> Byte, value: seq<Byte>)
      modifies this`keepAlive
      ensures keepAlive == !EqualIgnoreCase(beyond, "close", value)
    {
      var close := CompareIgnoreCase(beyond, "close", value);
      if close {
        keepAlive := false;
      } else {
        keepAlive := true;
      }
    }

    /** The body of ParseHeaders' loop. */
    method ParseHeader(parser: StringParser, mem: Memory) returns (ret: int)
      requires parser.Valid() && WellSized(State())
      requires !OneHeader(parser.Rest(), State(), mem).Outside?
      modifies this`badRequest, this`keepAlive, this`fields, parser`pos
      ensures parser.Valid()
      ensures var h := OneHeader(old(parser.Rest()), old(State()), mem);
              State() == h.q && ret == (if h.Done? then 0 else -1) && (h.Done? ==> parser.Rest() == h.rest)
    {
      hide WithHeader, Until, ValueLine;
      ghost var t := parser.Rest();
      var theKeyWord, ok := parser.GetThru(':');
      if !ok {
        badRequest := true;
        return -1;
      }
      assert parser.Rest() == t[Until(t, IsChar(':')) + 1..];
      var theHeaderVal;
      theHeaderVal, ok := ParseValue(parser);
      if !ok {
        badRequest := true;
        return -1;
      }
      StoreHeader(theKeyWord, theHeaderVal, mem);
      ret := 0;
    }

    /** Skips one space after the colon and takes the rest of the line. */
    method ParseValue(parser: StringParser) returns (theHeaderVal: seq<Byte>, ok: bool)
      requires parser.Valid() && parser.pos < |parser.stream|
      modifies parser`pos
      ensures parser.Valid()
      ensures var r := ValueLine(old(parser.Rest()));
              ok == r.Some? && (ok ==> r.value == (theHeaderVal, parser.Rest()))
    {
      hide Until, EolLen;
      ghost var v := parser.Rest();
      var c := parser.PeekFast();
      if c == ' ' {
        var _ := parser.Expect(' ');
      }
      ghost var u := parser.Rest();
      assert u == SkipOneSpace(v);
      theHeaderVal, ok := parser.GetThruEOL();
      ghost var n := Until(u, EOL_MASK);
      assert ok ==> parser.Rest() == u[n..][EolLen(u[n..])..];
    }

    method ParseHeaders(parser: StringParser, mem: Memory) returns (ret: int)
      requires parser.Valid() && WellSized(State())
      requires !ParsedHeaders(parser.Rest(), State(), mem).Outside?
      modifies this`badRequest, this`keepAlive, this`fields, parser`pos
      ensures parser.Valid()
      ensures var h := ParsedHeaders(old(parser.Rest()), old(State()), mem);
              State() == h.q && ret == (if h.Done? then 0 else -1) && (h.Done? ==> parser.Rest() == h.rest)
    {
      hide OneHeader, EolLen;
      ghost var goal := ParsedHeaders(parser.Rest(), State(), mem);
      var c := parser.PeekFast();
      while c != '\r' && c != '\n'
        invariant parser.Valid() && WellSized(State())
        invariant parser.pos < |parser.stream| && c == parser.stream[parser.pos]
        invariant ParsedHeaders(parser.Rest(), State(), mem) == goal
        decreases |parser.Rest()|
      {
        ret := ParseHeader(parser, mem);
        if ret < 0 {
          return;
        }
        c := parser.PeekFast();
      }
      ghost var t := parser.Rest();
      var _ := parser.ExpectEOL();
      assert parser.Rest() == t[EolLen(t)..];
      ret := 0;
    }

    /** Looks the header up and keeps its value if it is known. */
    method StoreHeader(theKeyWord: seq<Byte>, theHeaderVal: seq<Byte>, mem: Memory)
      requires WellSized(State())
      modifies this`keepAlive, this`fields
      ensures State() == WithHeader(old(State()), theKeyWord, theHeaderVal, mem)
    {
      var theHeader := GetHeader(mem.beyond, theKeyWord);
      if theHeader == CONNECTION_HEADER {
        SetKeepAlive(mem.beyond, theHeaderVal);
      }
      if theHeader != ILLEGAL_HEADER {
        fields := fields[theHeader := theHeaderVal];
      }
    }
  
    /** The second half of ParseURI: everything that depends on the relative URI alone. */
    method SetRelative(relative: seq<Byte>)
      modifies this`relativeURI, this`requestPath, this`uriPath, this`uriParams
      ensures Location() == WithRelative(old(Location()), relative)
    {
      relativeURI := relative;
      requestPath := CString(relative);
      var pathParser := new StringParser(requestPath);
      assert pathParser.Rest() == requestPath;
      uriPath := pathParser.ConsumeUntil(IsChar('?'));
      uriParams := requestPath[pathParser.pos..];
    }

    /** Scheme and host of a full URI. */
    method TakeOrigin(uri: seq<Byte>) returns (relative: seq<Byte>)
      modifies this`scheme, this`host
      ensures (scheme, host, relative) == Origin(uri)
    {
      hide Until;
      var urlParser := new StringParser(uri);
      assert urlParser.Rest() == uri;
      scheme := urlParser.ConsumeLength(7);
      ghost var t := uri[Min(7, |uri|)..];
      assert urlParser.Rest() == t;
      host := urlParser.ConsumeUntil(IsChar('/'));
      assert host == t[..Until(t, IsChar('/'))];
      relative := uri[urlParser.pos..];
      assert relative == t[Until(t, IsChar('/'))..];
    }

    /** Splits the URI at the parser's position into scheme, host, path and parameters. */
    method ParseURI(parser: StringParser, mem: Memory)
      requires parser.Valid()
      modifies this`absoluteURI, this`scheme, this`host, this`relativeURI, this`requestPath, this`uriPath,
               this`uriParams, parser`pos
      ensures var n := Until(old(parser.Rest()), URL_STOP_MASK);
              && parser.Valid() && parser.Rest() == old(parser.Rest())[n..]
              && Location() == ParsedUri(old(Location()), old(parser.Rest())[..n], mem.past)
    {
      hide Until, Origin, WithRelative;
      ghost var t := parser.Rest();
      absoluteURI := parser.ConsumeUntil(URL_STOP_MASK);
      ghost var n := Until(t, URL_STOP_MASK);
      assert absoluteURI == t[..n] && parser.Rest() == t[n..];
      var relative := absoluteURI;
      if (if |absoluteURI| > 0 then absoluteURI[0] else mem.past) != '/' {
        relative := TakeOrigin(absoluteURI);
      }
      SetRelative(relative);
    }

    /** The end of ParseFirstLine: the version and the end of line. */
    method ParseVersion(parser: StringParser, mem: Memory) returns (ret: int)
      requires parser.Valid()
      modifies this`version, this`badRequest, parser`pos
      ensures var line := VersionLine([], [], old(parser.Rest()));
              && parser.Valid() && ret == (if line.rest == None then -1 else 0)
              && State() == WithVersion(old(State()), line.version, line.rest.Some?, mem)
              && (line.rest.Some? ==> parser.Rest() == line.rest.value)
    {
      hide Until, EolLen, FirstVersion;
      ghost var t := parser.Rest();
      var versionStr := parser.ConsumeUntil(EOL_MASK);
      assert versionStr == t[..Until(t, EOL_MASK)];
      if |versionStr| > 0 {
        version := GetVersion(mem.beyond, versionStr);
      }
      ghost var e := t[Until(t, EOL_MASK)..];
      assert parser.Rest() == e;
      var ok := parser.ExpectEOL();
      if !ok {
        badRequest := true;
        return -1;
      }
      assert parser.Rest() == e[EolLen(e)..];
      ret := 0;
    }

    method SkipWhitespace(parser: StringParser)
      requires parser.Valid()
      modifies parser`pos
      ensures parser.Valid() && parser.Rest() == SkipSpace(old(parser.Rest()))
    {
      parser.ConsumeWhitespace();
    }

    method ParseFirstLine(parser: StringParser, mem: Memory) returns (ret: int)
      requires parser.Valid()
      modifies this`verb, this`version, this`badRequest, this`absoluteURI, this`scheme, this`host,
               this`relativeURI, this`requestPath, this`uriPath, this`uriParams, parser`pos
      ensures var line := FirstLine(old(parser.Rest()));
              && parser.Valid() && ret == (if line.rest == None then -1 else 0)
              && State() == WithLine(old(State()), line, mem)
              && (line.rest.Some? ==> parser.Rest() == line.rest.value)
    {
      hide Until, EolLen, ParsedUri, GetMethod, WithVersion, SkipSpace, VersionLine;
      ghost var t := parser.Rest();
      var word := parser.ConsumeWord();
      verb := GetMethod(word);
      assert word == t[..Until(t, NON_WORD_MASK)] && parser.Rest() == t[Until(t, NON_WORD_MASK)..];
      SkipWhitespace(parser);
      ghost var u := parser.Rest();
      ParseURI(parser, mem);
      SkipWhitespace(parser);
      ghost var v := parser.Rest();
      ret := ParseVersion(parser, mem);
      VersionLinePieces(word, u[..Until(u, URL_STOP_MASK)], v);
    }

    /** Parses a framed request. */
    method Parse(str: seq<Byte>, mem: Memory) returns (ret: int)
      requires WellSized(State()) && Frame(str) == Some(|str|)
      modifies this
      ensures var r := Parsed(str, old(State()), mem);
              ret == r.1 && r.0 != Outside && State() == r.0.q
    {
      hide Frame, FirstLine, WithLine, ParsedHeaders;
      full := str;
      var parser := new StringParser(str);
      assert parser.Rest() == str;
      ghost var line := FirstLine(str);
      FramerAndParserAgree(str, old(State()), mem);
      ret := ParseFirstLine(parser, mem);
      if ret < 0 {
        return;
      }
      ret := ParseHeaders(parser, mem);
    }
  }
}
