/** The protocol tables and their lookups. */
module HttpProtocol {
  import opened Bytes
  import opened Options

  // ---------- case-insensitive comparison ----------

  /** sCaseInsensitiveMask has 130 entries; beyond is whatever memory follows it. */
  function CaseMask(beyond: Byte -> Byte, c: Byte): Byte {
    if c as int >= 130 then beyond(c)
    else if 'A' <= c <= 'Z' then (c as int + 32) as char
    else c
  }

  predicate EqualIgnoreCase(beyond: Byte -> Byte, a: seq<Byte>, b: seq<Byte>) {
    |a| == |b| && forall x :: 0 <= x < |a| ==> CaseMask(beyond, a[x]) == CaseMask(beyond, b[x])
  }

  const UPPER: seq<Byte> := "ABCDEFGHIJKLMNOPQRSTUVWXYZ"
  const LOWER: seq<Byte> := "abcdefghijklmnopqrstuvwxyz"

  /** The same character, or the two cases of one letter. */
  ghost predicate SameLetter(c: Byte, d: Byte) {
    c == d || exists k :: 0 <= k < 26 && ((c == UPPER[k] && d == LOWER[k]) || (c == LOWER[k] && d == UPPER[k]))
  }

  /** a and b differ in the case of letters at most. */
  ghost predicate SameButCase(a: seq<Byte>, b: seq<Byte>) {
    |a| == |b| && forall x :: 0 <= x < |a| ==> SameLetter(a[x], b[x])
  }

  /** The bytes that have an entry of their own in the case table. */
  predicate InTable(s: seq<Byte>) {
    forall x :: 0 <= x < |s| ==> s[x] as int < 130
  }

  lemma Alphabets(k: nat)
    requires k < 26
    ensures UPPER[k] == ('A' as int + k) as char && LOWER[k] == ('a' as int + k) as char
  {
  }

  lemma SameLetterIff(beyond: Byte -> Byte, c: Byte, d: Byte)
    requires c as int < 130 && d as int < 130
    ensures CaseMask(beyond, c) == CaseMask(beyond, d) <==> SameLetter(c, d)
  {
    if CaseMask(beyond, c) == CaseMask(beyond, d) && c != d {
      var k := CaseMask(beyond, c) as int - 'a' as int;
      Alphabets(k);
      assert (c == UPPER[k] && d == LOWER[k]) || (c == LOWER[k] && d == UPPER[k]);
    }
    if k :| 0 <= k < 26 && ((c == UPPER[k] && d == LOWER[k]) || (c == LOWER[k] && d == UPPER[k])) {
      Alphabets(k);
    }
  }

  /** On bytes of the table the comparison ignores the case of letters and nothing else. */
  lemma EqualIff(beyond: Byte -> Byte, a: seq<Byte>, b: seq<Byte>)
    requires InTable(a) && InTable(b)
    ensures EqualIgnoreCase(beyond, a, b) <==> SameButCase(a, b)
  {
    hide SameLetter, CaseMask;
    forall x | 0 <= x < |a| && |a| == |b|
      ensures CaseMask(beyond, a[x]) == CaseMask(beyond, b[x]) <==> SameLetter(a[x], b[x])
    {
      SameLetterIff(beyond, a[x], b[x]);
    }
  }

  method CompareIgnoreCase(beyond: Byte -> Byte, a: seq<Byte>, b: seq<Byte>) returns (r: bool)
    ensures r == EqualIgnoreCase(beyond, a, b)
  {
    if |b| == |a| {
      for x := 0 to |b|
        invariant forall y :: 0 <= y < x ==> CaseMask(beyond, a[y]) == CaseMask(beyond, b[y])
      {
        if CaseMask(beyond, a[x]) != CaseMask(beyond, b[x]) {
          return false;
        }
      }
      return true;
    }
    r := false;
  }

  // ---------- methods and versions ----------

  const NUM_METHODS := 8
  const ILLEGAL_METHOD := 8

  function MethodName(m: nat): seq<Byte>
    requires m < NUM_METHODS
  {
    match m
    case 0 => "GET"
    case 1 => "HEAD"
    case 2 => "POST"
    case 3 => "OPTIONS"
    case 4 => "PUT"
    case 5 => "DELETE"
    case 6 => "TRACE"
    case _ => "CONNECT"
  }

  /** The method the first letter suggests. */
  function LikelyMethod(c: Byte): nat {
    match c
    case 'G' => 0
    case 'H' => 1
    case 'P' => 2
    case 'O' => 3
    case 'D' => 5
    case 'T' => 6
    case 'C' => 7
    case _ => ILLEGAL_METHOD
  }

  function GetMethod(s: seq<Byte>): (m: nat)
    ensures m <= ILLEGAL_METHOD
  {
    if s == [] then ILLEGAL_METHOD
    else
      var likely := LikelyMethod(s[0]);
      if likely != ILLEGAL_METHOD && s == MethodName(likely) then likely
      else if s == MethodName(4) then 4
      else ILLEGAL_METHOD
  }

  /** The one-letter shortcut finds exactly the methods of the table. */
  lemma GetMethodIff(s: seq<Byte>, m: nat)
    requires m < NUM_METHODS
    ensures GetMethod(s) == m <==> s == MethodName(m)
  {
    if s == MethodName(m) {
      assert m != 4 ==> LikelyMethod(s[0]) == m;
      assert m == 4 ==> s[0] == 'P' && |s| == 3;
    }
  }

  /** Method 0, the one that is answered, is GET. */
  lemma GetIff(s: seq<Byte>)
    ensures GetMethod(s) == 0 <==> s == ['G', 'E', 'T']
  {
    GetMethodIff(s, 0);
  }

  const NUM_VERSIONS := 3
  const ILLEGAL_VERSION := 3

  function VersionName(v: nat): seq<Byte>
    requires v < NUM_VERSIONS
  {
    match v
    case 0 => "HTTP/0.9"
    case 1 => "HTTP/1.0"
    case _ => "HTTP/1.1"
  }

  function FirstVersion(beyond: Byte -> Byte, s: seq<Byte>, x: nat): (v: nat)
    requires x <= NUM_VERSIONS
    ensures x <= v <= ILLEGAL_VERSION
    ensures v < NUM_VERSIONS ==> EqualIgnoreCase(beyond, s, VersionName(v))
    ensures forall y :: x <= y < v ==> !EqualIgnoreCase(beyond, s, VersionName(y))
    decreases NUM_VERSIONS - x
  {
    if x == NUM_VERSIONS || EqualIgnoreCase(beyond, s, VersionName(x)) then x else FirstVersion(beyond, s, x + 1)
  }

  method GetVersion(beyond: Byte -> Byte, s: seq<Byte>) returns (v: nat)
    ensures v == FirstVersion(beyond, s, 0)
  {
    if |s| != 8 {
      return ILLEGAL_VERSION;
    }
    var x := 0;
    while x < NUM_VERSIONS
      invariant x <= NUM_VERSIONS && FirstVersion(beyond, s, x) == FirstVersion(beyond, s, 0)
    {
      var same := CompareIgnoreCase(beyond, s, VersionName(x));
      if same {
        return x;
      }
      x := x + 1;
    }
    v := ILLEGAL_VERSION;
  }

  /** Every version of the table is found. */
  lemma FirstVersionOfName(beyond: Byte -> Byte, v: nat)
    requires v < NUM_VERSIONS
    ensures FirstVersion(beyond, VersionName(v), 0) == v
  {
    var s := VersionName(v);
    assert s[5] == "011"[v] && s[7] == "901"[v];
    forall u | 0 <= u < v ensures !EqualIgnoreCase(beyond, s, VersionName(u)) {
      assert VersionName(u)[5] == "011"[u] && VersionName(u)[7] == "901"[u];
    }
  }

  // ---------- headers ----------

  /** The characters of header names: no colon and no end of line among them. */
  type NameChar = c: Byte | '-' <= c <= 'z' && c != ':' witness 'a'

  const NUM_VIP_HEADERS := 8
  const NUM_HEADERS := 49
  const ILLEGAL_HEADER := 49
  const SESSION_COOKIE_HEADER := 47
  const CONNECTION_HEADER := 0

  /** The VIP headers and the other general ones. */
  function GeneralHeaderName(h: nat): (name: seq<NameChar>)
    requires h < 15
    ensures |name| >= 2
  {
    match h
    case 0 => "Connection"
    case 1 => "Date"
    case 2 => "Authorization"
    case 3 => "If-Modified-Since"
    case 4 => "Server"
    case 5 => "WWW-Authenticate"
    case 6 => "Expires"
    case 7 => "Last-Modified"
    case 8 => "Cache-Control"
    case 9 => "Pragma"
    case 10 => "Trailer"
    case 11 => "Transfer-Encoding"
    case 12 => "Upgrade"
    case 13 => "Via"
    case _ => "Warning"
  }

  /** The other request headers. */
  function RequestHeaderName(h: nat): (name: seq<NameChar>)
    requires 15 <= h < 32
    ensures |name| >= 2
  {
    match h
    case 15 => "Accept"
    case 16 => "Accept-Charset"
    case 17 => "Accept-Encoding"
    case 18 => "Accept-Language"
    case 19 => "Expect"
    case 20 => "From"
    case 21 => "Host"
    case 22 => "If-Match"
    case 23 => "If-None-Match"
    case 24 => "If-Range"
    case 25 => "If-Unmodified-Since"
    case 26 => "Max-Forwards"
    case 27 => "Proxy-Authorization"
    case 28 => "Range"
    case 29 => "Referer"
    case 30 => "TE"
    case _ => "User-Agent"
  }

  /** The other response and entity headers, and the two extensions. */
  function OtherHeaderName(h: nat): (name: seq<NameChar>)
    requires 32 <= h < 49
    ensures |name| >= 2
  {
    match h
    case 32 => "Accept-Ranges"
    case 33 => "Age"
    case 34 => "ETag"
    case 35 => "Location"
    case 36 => "Proxy-Authenticate"
    case 37 => "Retry-After"
    case 38 => "Vary"
    case 39 => "Allow"
    case 40 => "Content-Encoding"
    case 41 => "Content-Language"
    case 42 => "Content-Length"
    case 43 => "Content-Location"
    case 44 => "Content-MD5"
    case 45 => "Content-Range"
    case 46 => "Content-Type"
    case 47 => "X-SessionCookie"
    case _ => "X-Server-IP-Address"
  }

  function HeaderName(h: nat): (name: seq<NameChar>)
    requires h < NUM_HEADERS
    ensures |name| >= 2
  {
    if h < 15 then GeneralHeaderName(h) else if h < 32 then RequestHeaderName(h) else OtherHeaderName(h)
  }

  /** The header the first letter suggests. */
  function LikelyHeader(c: Byte): nat {
    match c
    case 'C' => 0
    case 'c' => 0
    case 'S' => 4
    case 's' => 4
    case 'D' => 1
    case 'd' => 1
    case 'A' => 2
    case 'a' => 2
    case 'W' => 5
    case 'w' => 5
    case 'I' => 3
    case 'i' => 3
    case 'E' => 6
    case 'e' => 6
    case 'L' => 7
    case 'l' => 7
    case 'X' => SESSION_COOKIE_HEADER
    case 'x' => SESSION_COOKIE_HEADER
    case _ => ILLEGAL_HEADER
  }

  predicate Matches(beyond: Byte -> Byte, s: seq<Byte>, h: nat) {
    h < NUM_HEADERS && EqualIgnoreCase(beyond, s, HeaderName(h))
  }

  /** The first header from x on that matches: the plain scan. */
  function FirstHeader(beyond: Byte -> Byte, s: seq<Byte>, x: nat): (h: nat)
    requires x <= NUM_HEADERS
    ensures x <= h <= ILLEGAL_HEADER
    ensures h < NUM_HEADERS ==> Matches(beyond, s, h)
    ensures forall y :: x <= y < h ==> !Matches(beyond, s, y)
    decreases NUM_HEADERS - x
  {
    if x == NUM_HEADERS || Matches(beyond, s, x) then x else FirstHeader(beyond, s, x + 1)
  }

  /** What GetHeader computes. */
  function FastHeader(beyond: Byte -> Byte, s: seq<Byte>): (h: nat)
    ensures h <= ILLEGAL_HEADER
  {
    if s == [] then ILLEGAL_HEADER
    else if Matches(beyond, s, LikelyHeader(s[0])) then LikelyHeader(s[0])
    else FirstHeader(beyond, s, NUM_VIP_HEADERS)
  }

  method GetHeader(beyond: Byte -> Byte, s: seq<Byte>) returns (h: nat)
    ensures h == FastHeader(beyond, s)
  {
    if |s| == 0 {
      return ILLEGAL_HEADER;
    }
    var likely := LikelyHeader(s[0]);
    if likely != ILLEGAL_HEADER {
      var same := CompareIgnoreCase(beyond, s, HeaderName(likely));
      if same {
        return likely;
      }
    }
    var x := NUM_VIP_HEADERS;
    while x < NUM_HEADERS
      invariant NUM_VIP_HEADERS <= x <= NUM_HEADERS
      invariant FirstHeader(beyond, s, x) == FirstHeader(beyond, s, NUM_VIP_HEADERS)
    {
      var same := CompareIgnoreCase(beyond, s, HeaderName(x));
      if same {
        return x;
      }
      x := x + 1;
    }
    h := ILLEGAL_HEADER;
  }

  lemma GeneralInitials(h: nat)
    requires h < 15
    ensures h < NUM_VIP_HEADERS ==> GeneralHeaderName(h)[0] == "CDAISWEL"[h]
    ensures h >= NUM_VIP_HEADERS ==> 'A' <= GeneralHeaderName(h)[0] <= 'W'
  {
  }

  lemma RequestInitials(h: nat)
    requires 15 <= h < 32
    ensures 'A' <= RequestHeaderName(h)[0] <= 'W'
  {
  }

  lemma OtherInitials(h: nat)
    requires 32 <= h < NUM_HEADERS
    ensures if h < SESSION_COOKIE_HEADER then 'A' <= OtherHeaderName(h)[0] <= 'W' else OtherHeaderName(h)[0] == 'X'
  {
  }

  lemma Initials(h: nat)
    requires h < NUM_HEADERS
    ensures 'A' <= HeaderName(h)[0] <= 'X'
    ensures h < NUM_VIP_HEADERS ==> HeaderName(h)[0] == "CDAISWEL"[h]
    ensures HeaderName(h)[0] == 'X' ==> h >= SESSION_COOKIE_HEADER
  {
    hide GeneralHeaderName, RequestHeaderName, OtherHeaderName;
    if h < 15 { GeneralInitials(h); } else if h < 32 { RequestInitials(h); } else { OtherInitials(h); }
  }

  lemma VipFirstLetter(beyond: Byte -> Byte, s: seq<Byte>, h: nat)
    requires s != [] && s[0] as int < 130 && Matches(beyond, s, h)
    ensures h < NUM_VIP_HEADERS ==> LikelyHeader(s[0]) == h
    ensures LikelyHeader(s[0]) == SESSION_COOKIE_HEADER ==> h >= SESSION_COOKIE_HEADER
  {
    hide HeaderName;
    Initials(h);
    assert CaseMask(beyond, s[0]) == CaseMask(beyond, HeaderName(h)[0]);
  }

  lemma FirstHeaderSkips(beyond: Byte -> Byte, s: seq<Byte>, x: nat, y: nat)
    requires x <= y <= NUM_HEADERS && forall z :: x <= z < y ==> !Matches(beyond, s, z)
    ensures FirstHeader(beyond, s, x) == FirstHeader(beyond, s, y)
    decreases y - x
  {
    if x < y { FirstHeaderSkips(beyond, s, x + 1, y); }
  }

  /** The first-letter shortcut and the scan from index 8 agree with the scan of the whole table. */
  lemma FastHeaderIsFirst(beyond: Byte -> Byte, s: seq<Byte>)
    requires InTable(s)
    ensures FastHeader(beyond, s) == FirstHeader(beyond, s, 0)
  {
    if s == [] {
      FirstHeaderSkips(beyond, s, 0, NUM_HEADERS);
    } else {
      var likely := LikelyHeader(s[0]);
      var upTo := if Matches(beyond, s, likely) then likely else NUM_VIP_HEADERS;
      forall z | 0 <= z < upTo ensures !Matches(beyond, s, z) {
        if Matches(beyond, s, z) { VipFirstLetter(beyond, s, z); }
      }
      FirstHeaderSkips(beyond, s, 0, upTo);
    }
  }

  // ---------- no two headers of the table match the same name ----------

  /** Length, first and last letter in lower case. */
  function Key(beyond: Byte -> Byte, s: seq<Byte>): nat
    requires |s| >= 2
  {
    |s| * 65536 + CaseMask(beyond, s[0]) as int * 256 + CaseMask(beyond, s[|s| - 1]) as int
  }

  function KeyOf(h: nat): nat
    requires h < NUM_HEADERS
  {
    match h
    case 0 => 680814
    case 1 => 287845
    case 2 => 876910
    case 3 => 1141093
    case 4 => 422770
    case 5 => 1079141
    case 6 => 484723
    case 7 => 879716
    case 8 => 877420
    case 9 => 421985
    case 10 => 488562
    case 11 => 1143911
    case 12 => 488805
    case 13 => 226913
    case 14 => 489319
    case 15 => 418164
    case 16 => 942452
    case 17 => 1007975
    case 18 => 1007973
    case 19 => 419188
    case 20 => 288365
    case 21 => 288884
    case 22 => 551272
    case 23 => 878952
    case 24 => 551269
    case 25 => 1272165
    case 26 => 814451
    case 27 => 1273966
    case 28 => 356965
    case 29 => 488050
    case 30 => 160869
    case 31 => 685428
    case 32 => 876915
    case 33 => 221541
    case 34 => 288103
    case 35 => 552046
    case 36 => 1208421
    case 37 => 750194
    case 38 => 292473
    case 39 => 352631
    case 40 => 1074023
    case 41 => 1074021
    case 42 => 942952
    case 43 => 1074030
    case 44 => 746293
    case 45 => 877413
    case 46 => 811877
    case 47 => 1013861
    case _ => 1276019
  }

  lemma KeyOfGeneralName(beyond: Byte -> Byte, h: nat)
    requires h < 15
    ensures Key(beyond, GeneralHeaderName(h)) == KeyOf(h)
  {
  }

  lemma KeyOfRequestName(beyond: Byte -> Byte, h: nat)
    requires 15 <= h < 32
    ensures Key(beyond, RequestHeaderName(h)) == KeyOf(h)
  {
  }

  lemma KeyOfResponseName(beyond: Byte -> Byte, h: nat)
    requires 32 <= h < 41
    ensures Key(beyond, OtherHeaderName(h)) == KeyOf(h)
  {
  }

  lemma KeyOfEntityName(beyond: Byte -> Byte, h: nat)
    requires 41 <= h < NUM_HEADERS
    ensures Key(beyond, OtherHeaderName(h)) == KeyOf(h)
  {
  }

  lemma KeyOfName(beyond: Byte -> Byte, h: nat)
    requires h < NUM_HEADERS
    ensures Key(beyond, HeaderName(h)) == KeyOf(h)
  {
    hide GeneralHeaderName, RequestHeaderName, OtherHeaderName, KeyOf, Key;
    if h < 15 { KeyOfGeneralName(beyond, h); }
    else if h < 32 { KeyOfRequestName(beyond, h); }
    else if h < 41 { KeyOfResponseName(beyond, h); }
    else { KeyOfEntityName(beyond, h); }
  }

  lemma KeysDistinct(g: nat, h: nat)
    requires g < NUM_HEADERS && h < NUM_HEADERS && KeyOf(g) == KeyOf(h)
    ensures g == h
  {
  }

  /** Every header of the table is found under its own name. */
  lemma FastHeaderOfName(beyond: Byte -> Byte, h: nat)
    requires h < NUM_HEADERS
    ensures FastHeader(beyond, HeaderName(h)) == h
  {
    hide HeaderName, KeyOf;
    var s := HeaderName(h);
    assert Matches(beyond, s, h);
    forall g | 0 <= g < NUM_HEADERS && Matches(beyond, s, g) ensures g == h {
      KeyOfName(beyond, g);
      KeyOfName(beyond, h);
      KeysDistinct(g, h);
    }
    Initials(h);
    VipFirstLetter(beyond, s, h);
  }

  // ---------- what the lookups find, letter by letter ----------

  lemma HeaderNameInTable(h: nat)
    requires h < NUM_HEADERS
    ensures InTable(HeaderName(h))
  {
    hide HeaderName;
    var name: seq<NameChar> := HeaderName(h);
    forall i | 0 <= i < |name| ensures name[i] as int < 130 {
      var c: NameChar := name[i];
    }
  }

  /** Two names of the table that match the same name are the same. */
  lemma MatchesOnce(beyond: Byte -> Byte, s: seq<Byte>, g: nat, h: nat)
    requires Matches(beyond, s, g) && Matches(beyond, s, h)
    ensures g == h
  {
    hide HeaderName, KeyOf;
    KeyOfName(beyond, g);
    KeyOfName(beyond, h);
    assert Key(beyond, HeaderName(g)) == Key(beyond, HeaderName(h));
    KeysDistinct(g, h);
  }

  lemma MatchesIff(beyond: Byte -> Byte, s: seq<Byte>, h: nat)
    requires InTable(s) && h < NUM_HEADERS
    ensures Matches(beyond, s, h) <==> SameButCase(s, HeaderName(h))
  {
    hide HeaderName, EqualIgnoreCase, SameButCase;
    HeaderNameInTable(h);
    EqualIff(beyond, s, HeaderName(h));
  }

  /** A header is found under exactly those names that differ from its own in the case of letters at
      most. */
  lemma HeaderFoundIff(beyond: Byte -> Byte, s: seq<Byte>, h: nat)
    requires InTable(s) && h < NUM_HEADERS
    ensures FastHeader(beyond, s) == h <==> SameButCase(s, HeaderName(h))
  {
    hide HeaderName, FastHeader, Matches, SameButCase;
    FastHeaderIsFirst(beyond, s);
    MatchesIff(beyond, s, h);
    var f := FirstHeader(beyond, s, 0);
    if SameButCase(s, HeaderName(h)) && f < NUM_HEADERS { MatchesOnce(beyond, s, f, h); }
  }

  lemma HeaderUnknownIff(beyond: Byte -> Byte, s: seq<Byte>)
    requires InTable(s)
    ensures FastHeader(beyond, s) == ILLEGAL_HEADER <==> forall h :: 0 <= h < NUM_HEADERS ==> !SameButCase(s, HeaderName(h))
  {
    hide HeaderName, SameButCase, Matches;
    var found := FastHeader(beyond, s);
    if found < NUM_HEADERS {
      HeaderFoundIff(beyond, s, found);
    } else {
      forall h | 0 <= h < NUM_HEADERS ensures !SameButCase(s, HeaderName(h)) { HeaderFoundIff(beyond, s, h); }
    }
  }

  /** So is a version. */
  lemma VersionFoundIff(beyond: Byte -> Byte, s: seq<Byte>, v: nat)
    requires InTable(s) && v < NUM_VERSIONS
    ensures FirstVersion(beyond, s, 0) == v <==> SameButCase(s, VersionName(v))
  {
    hide EqualIgnoreCase, SameButCase;
    forall u | 0 <= u < NUM_VERSIONS ensures EqualIgnoreCase(beyond, s, VersionName(u)) <==> SameButCase(s, VersionName(u)) {
      EqualIff(beyond, s, VersionName(u));
    }
    if SameButCase(s, VersionName(v)) && FirstVersion(beyond, s, 0) < v {
      VersionsDiffer(beyond, s, FirstVersion(beyond, s, 0), v);
    }
  }

  lemma VersionsDiffer(beyond: Byte -> Byte, s: seq<Byte>, u: nat, v: nat)
    requires u < NUM_VERSIONS && v < NUM_VERSIONS
    requires EqualIgnoreCase(beyond, s, VersionName(u)) && EqualIgnoreCase(beyond, s, VersionName(v))
    ensures u == v
  {
    assert VersionName(u)[5] == "011"[u] && VersionName(u)[7] == "901"[u];
    assert VersionName(v)[5] == "011"[v] && VersionName(v)[7] == "901"[v];
    assert CaseMask(beyond, VersionName(u)[5]) == CaseMask(beyond, VersionName(v)[5]);
    assert CaseMask(beyond, VersionName(u)[7]) == CaseMask(beyond, VersionName(v)[7]);
  }
}
