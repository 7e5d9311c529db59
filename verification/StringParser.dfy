/** A cursor over a byte stream, and what each of its consuming steps takes off the front. */
module StringParsers {
  import opened Bytes

  type Mask = Byte -> bool

  /** sEOLMask. */
  const EOL_MASK: Mask := c => c == '\r' || c == '\n'

  /** sNonWordMask: stops on everything but a letter, '-' and '_'. */
  const NON_WORD_MASK: Mask := c => !('A' <= c <= 'Z' || 'a' <= c <= 'z' || c == '-' || c == '_')

  /** sWhitespaceMask: stops on everything but tab, LF, VT, FF, CR and space. */
  const NON_WHITESPACE_MASK: Mask := c => !(9 <= c as int <= 13 || c == ' ')

  /** How many bytes precede the first one that mask stops on. */
  function Until(t: seq<Byte>, mask: Mask): (n: nat)
    ensures n <= |t|
    ensures forall k :: 0 <= k < n ==> !mask(t[k])
    ensures n < |t| ==> mask(t[n])
  {
    if t == [] || mask(t[0]) then 0 else 1 + Until(t[1..], mask)
  }

  lemma UntilIs(t: seq<Byte>, mask: Mask, n: nat)
    requires n <= |t| && (forall k :: 0 <= k < n ==> !mask(t[k])) && (n < |t| ==> mask(t[n]))
    ensures Until(t, mask) == n
  {
  }

  function IsChar(stop: Byte): Mask {
    c => c == stop
  }

  /** The length of the end of line t starts with: CRLF, CR or LF; 0 if there is none. */
  function EolLen(t: seq<Byte>): (n: nat)
    ensures n <= |t| && n <= 2 && (n > 0 <==> t != [] && IsEol(t[0]))
  {
    if t == [] || !IsEol(t[0]) then 0
    else if t[0] == '\r' && |t| > 1 && t[1] == '\n' then 2
    else 1
  }

  class StringParser {
    const stream: seq<Byte>
    var pos: nat

    ghost predicate Valid()
      reads this
    {
      pos <= |stream|
    }

    ghost function Rest(): seq<Byte>
      requires Valid()
      reads this
    {
      stream[pos..]
    }

    constructor (inStream: seq<Byte>)
      ensures Valid() && stream == inStream && pos == 0
    {
      stream := inStream;
      pos := 0;
    }

    /** Reads without looking at the end of the stream. */
    method PeekFast() returns (c: Byte)
      requires pos < |stream|
      ensures c == stream[pos]
    {
      c := stream[pos];
    }

    method ConsumeUntil(mask: Mask) returns (out: seq<Byte>)
      requires Valid()
      modifies this`pos
      ensures Valid() && pos == old(pos) + Until(old(Rest()), mask)
      ensures out == stream[old(pos)..pos]
    {
      var start := pos;
      while pos < |stream| && !mask(stream[pos])
        invariant start <= pos <= |stream|
        invariant Until(old(Rest()), mask) == pos - start + Until(Rest(), mask)
      {
        assert stream[pos..][1..] == stream[pos + 1..];
        pos := pos + 1;
      }
      out := stream[start..pos];
    }

    method Expect(stopChar: Byte) returns (ok: bool)
      requires Valid()
      modifies this`pos
      ensures Valid() && ok == (old(Rest()) != [] && old(Rest())[0] == stopChar)
      ensures pos == if ok then old(pos) + 1 else old(pos)
    {
      if pos >= |stream| || stream[pos] != stopChar {
        return false;
      }
      pos := pos + 1;
      ok := true;
    }

    /** Takes one CR, LF or CRLF. */
    method ExpectEOL() returns (ok: bool)
      requires Valid()
      modifies this`pos
      ensures Valid() && pos == old(pos) + EolLen(old(Rest()))
      ensures ok == (EolLen(old(Rest())) > 0)
    {
      ok := false;
      if pos < |stream| && (stream[pos] == '\r' || stream[pos] == '\n') {
        ok := true;
        pos := pos + 1;
        if pos < |stream| && stream[pos - 1] == '\r' && stream[pos] == '\n' {
          pos := pos + 1;
        }
      }
    }

    method GetThru(stopChar: Byte) returns (out: seq<Byte>, ok: bool)
      requires Valid()
      modifies this`pos
      ensures Valid()
      ensures var n := Until(old(Rest()), IsChar(stopChar));
              out == old(Rest())[..n] && ok == (n < |old(Rest())|) && pos == old(pos) + n + if ok then 1 else 0
    {
      out := ConsumeUntil(IsChar(stopChar));
      ok := Expect(stopChar);
    }

    method GetThruEOL() returns (out: seq<Byte>, ok: bool)
      requires Valid()
      modifies this`pos
      ensures Valid()
      ensures var t := old(Rest());
              var n := Until(t, EOL_MASK);
              out == t[..n] && ok == (n < |t|) && pos == old(pos) + n + EolLen(t[n..])
    {
      out := ConsumeUntil(EOL_MASK);
      ok := ExpectEOL();
    }

    method ConsumeWord() returns (out: seq<Byte>)
      requires Valid()
      modifies this`pos
      ensures Valid() && pos == old(pos) + Until(old(Rest()), NON_WORD_MASK)
      ensures out == stream[old(pos)..pos]
    {
      out := ConsumeUntil(NON_WORD_MASK);
    }

    method ConsumeWhitespace()
      requires Valid()
      modifies this`pos
      ensures Valid() && pos == old(pos) + Until(old(Rest()), NON_WHITESPACE_MASK)
    {
      var _ := ConsumeUntil(NON_WHITESPACE_MASK);
    }

    /** Takes up to inLength bytes. */
    method ConsumeLength(inLength: nat) returns (out: seq<Byte>)
      requires Valid()
      modifies this`pos
      ensures Valid() && pos == old(pos) + if |old(Rest())| < inLength then |old(Rest())| else inLength
      ensures out == stream[old(pos)..pos]
    {
      var n := if |stream| - pos < inLength then |stream| - pos else inLength;
      out := stream[pos..pos + n];
      pos := pos + n;
    }
  }
}
