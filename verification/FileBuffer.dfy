/** The piece cache over a file: reads are served from fixed-size pieces kept in a list. */
module FileBuffers {
  import opened Basics
  import opened Bytes
  import opened Deques
  import opened Options

  const PIECE_SIZE := 262144

  /** A cached piece: its number, the bytes asked for, the bytes read and the bytes themselves. */
  datatype Piece = Piece(index: int, size: int, len: int, data: seq<Byte>)

  /** C's division and remainder, which truncate towards zero. */
  function Quotient(a: int): int {
    if a >= 0 then a / PIECE_SIZE else -(-a / PIECE_SIZE)
  }

  function Remainder(a: int): int {
    a - Quotient(a) * PIECE_SIZE
  }

  /** The value of x in a 32-bit int. */
  function Int32(x: int): int {
    (x + 0x8000_0000) % 0x1_0000_0000 - 0x8000_0000
  }

  /** The part of the file that piece i holds. */
  function Slice(file: seq<Byte>, i: nat): seq<Byte>
    requires i * PIECE_SIZE <= |file|
  {
    file[i * PIECE_SIZE..Min((i + 1) * PIECE_SIZE, |file|)]
  }

  ghost predicate Holds(file: seq<Byte>, p: Piece) {
    && 0 <= p.index && p.index * PIECE_SIZE <= |file|
    && p.data == Slice(file, p.index) && p.size == p.len == |p.data|
  }

  /** Every piece holds its part of the file, and no number occurs twice. */
  ghost predicate Agrees(file: seq<Byte>, ps: seq<Piece>) {
    && (forall p :: p in ps ==> Holds(file, p))
    && (forall i, j :: 0 <= i < j < |ps| ==> ps[i].index != ps[j].index)
  }

  ghost predicate Cached(ps: seq<Piece>, index: int) {
    exists p :: p in ps && p.index == index
  }

  /** The file positions that a read from begin to end, end inclusive, takes from piece index. */
  function PartStart(index: int, begin: int): int {
    if index == Quotient(begin) then begin else index * PIECE_SIZE
  }

  function PartEnd(index: int, end: int): int {
    if index == Quotient(end) then end + 1 else (index + 1) * PIECE_SIZE
  }

  lemma PartInside(index: int, begin: int, end: int, length: int)
    requires 0 <= begin <= length && begin - 1 <= end < length
    requires Quotient(begin) <= index <= Quotient(end)
    ensures index == 0 || index * PIECE_SIZE <= end
    ensures 0 <= index && index * PIECE_SIZE <= PartStart(index, begin) <= PartEnd(index, end)
    ensures PartEnd(index, end) <= Min((index + 1) * PIECE_SIZE, length)
    ensures index < Quotient(end) ==> PartEnd(index, end) == PartStart(index + 1, begin)
    ensures index == Quotient(begin) ==> Remainder(begin) == begin - index * PIECE_SIZE
    ensures index == Quotient(end) ==> Remainder(end) == end - index * PIECE_SIZE
  {
  }

  lemma ReadStart(begin: int, end: int, length: int)
    requires 0 <= begin <= length && begin - 1 <= end < length
    ensures 0 <= Quotient(begin) && PartStart(Quotient(begin), begin) == begin
    ensures Quotient(begin) > Quotient(end) ==> begin == end + 1
  {
  }

  lemma PartBounds(index: int, begin: int, end: int, length: int)
    requires 0 <= begin <= length && begin - 1 <= end < length
    requires Quotient(begin) <= index <= Quotient(end)
    ensures PartStart(index, begin) <= PartEnd(index, end) <= end + 1
    ensures if index < Quotient(end) then PartEnd(index, end) == PartStart(index + 1, begin)
            else PartEnd(index, end) == end + 1
  {
  }

  /** b with the bytes x written from position at. */
  function Patched(b: seq<Byte>, at: nat, x: seq<Byte>): (r: seq<Byte>)
    requires at + |x| <= |b|
    ensures |r| == |b|
  {
    b[..at] + x + b[at + |x|..]
  }

  lemma PatchNothing(b: seq<Byte>, at: nat)
    requires at <= |b|
    ensures Patched(b, at, []) == b
  {
  }

  lemma PatchedAtStart(b: seq<Byte>, x: seq<Byte>)
    requires |x| <= |b|
    ensures Patched(b, 0, x)[..|x|] == x && Patched(b, 0, x)[|x|..] == b[|x|..]
  {
  }

  lemma PatchTwice(b: seq<Byte>, at: nat, x: seq<Byte>, y: seq<Byte>)
    requires at + |x| + |y| <= |b|
    ensures Patched(Patched(b, at, x), at + |x|, y) == Patched(b, at, x + y)
  {
  }

  class FileBuffer {
    const file: seq<Byte>
    const pieces: Deque<Piece>

    ghost predicate Valid()
      reads pieces, pieces.nodes
    {
      && |file| <= 0x8000_0000
      && pieces.Valid()
      && Agrees(file, pieces.Elements())
    }

    constructor (file: seq<Byte>)
      requires |file| <= 0x8000_0000
      ensures Valid() && this.file == file && pieces.Elements() == [] && fresh(pieces) && pieces.cells == {}
    {
      this.file := file;
      pieces := new Deque();
    }

    method FindPiece(index: int) returns (found: Option<Piece>)
      requires Valid()
      ensures found.Some? ==> found.value in pieces.Elements() && found.value.index == index
      ensures found == None ==> !Cached(pieces.Elements(), index)
    {
      ghost var ps := pieces.Elements();
      var nodep := pieces.headp;
      ghost var i := 0;
      while nodep != null
        invariant 0 <= i <= |ps| && (nodep == null <==> i == |ps|)
        invariant nodep != null ==> nodep == pieces.nodes[i]
        invariant forall j :: 0 <= j < i ==> ps[j].index != index
        decreases |ps| - i
      {
        assert ps[i] == nodep.element;
        if nodep.element.index == index {
          return Some(nodep.element);
        }
        assert nodep.nextp == pieces.nodes[Deque<Piece>.Succ(i, |ps|)];
        i := i + 1;
        if nodep.nextp == pieces.headp {
          break;
        }
        nodep := nodep.nextp;
      }
      found := None;
    }

    /** Reads a piece from disk and adds it to the cache. */
    method ReadPiece(index: nat) returns (piece: Piece)
      requires Valid() && index * PIECE_SIZE <= |file| && index * PIECE_SIZE < 0x8000_0000
      requires !Cached(pieces.Elements(), index)
      modifies pieces, pieces.cells
      ensures Valid() && fresh(pieces.cells - old(pieces.cells))
      ensures Holds(file, piece) && piece.index == index
      ensures pieces.Elements() == old(pieces.Elements()) + [piece]
    {
      var offset := Int32(index * PIECE_SIZE);
      var want := PIECE_SIZE;
      if offset + want > |file| {
        want := |file| - offset;
      }
      var data := file[offset..offset + want];
      piece := Piece(index, want, |data|, data);
      var _ := pieces.Append(piece, true);
    }
  
    /** The piece from the cache, read first if need be. */
    method GetPiece(index: nat) returns (piece: Piece)
      requires Valid() && index * PIECE_SIZE <= |file| && index * PIECE_SIZE < 0x8000_0000
      modifies pieces, pieces.cells
      ensures Valid() && fresh(pieces.cells - old(pieces.cells))
      ensures Holds(file, piece) && piece.index == index
      ensures pieces.Elements() == old(pieces.Elements()) + if old(Cached(pieces.Elements(), index)) then [] else [piece]
      ensures Cached(pieces.Elements(), index)
      ensures forall i :: old(Cached(pieces.Elements(), i)) ==> Cached(pieces.Elements(), i)
    {
      var found := FindPiece(index);
      if found == None {
        piece := ReadPiece(index);
        assert piece in pieces.Elements();
      } else {
        piece := found.value;
        assert pieces.Elements() + [] == pieces.Elements();
      }
    }

    lemma NextPatch(b: seq<Byte>, at: nat, begin: nat, done: nat, n: nat)
      requires begin + done + n <= |file| && at + done + n <= |b|
      ensures Patched(Patched(b, at, file[begin..begin + done]), at + done, file[begin + done..begin + done + n])
              == Patched(b, at, file[begin..begin + done + n])
    {
      PatchTwice(b, at, file[begin..begin + done], file[begin + done..begin + done + n]);
      assert file[begin..begin + done] + file[begin + done..begin + done + n] == file[begin..begin + done + n];
    }

    /** memcpy(buffer + at, piece.data + from, n): the file from position index * PIECE_SIZE + from. */
    method CopyPiece(piece: Piece, from: nat, n: nat, buffer: array<Byte>, at: nat)
      requires Holds(file, piece) && from + n <= |piece.data| && at + n <= buffer.Length
      modifies buffer
      ensures var p := piece.index * PIECE_SIZE + from;
              p + n <= |file| && buffer[..] == Patched(old(buffer[..]), at, file[p..p + n])
    {
      forall k | 0 <= k < n { buffer[at + k] := piece.data[from + k]; }
    }

    /** The body of Read's loop: copies what piece index has of the positions begin to end. */
    method ServePiece(index: nat, begin: nat, end: int, buffer: array<Byte>, at: nat) returns (n: nat)
      requires Valid() && begin <= |file| && begin - 1 <= end < |file|
      requires Quotient(begin) <= index <= Quotient(end)
      requires at + PartEnd(index, end) - PartStart(index, begin) <= buffer.Length
      modifies pieces, pieces.cells, buffer
      ensures Valid() && fresh(pieces.cells - old(pieces.cells))
      ensures var p := PartStart(index, begin);
              && 0 <= p <= p + n == PartEnd(index, end) <= |file|
              && buffer[..] == Patched(old(buffer[..]), at, file[p..p + n])
      ensures old(pieces.Elements()) <= pieces.Elements() && Cached(pieces.Elements(), index)
      ensures old(Cached(pieces.Elements(), index)) ==> pieces.Elements() == old(pieces.Elements())
      ensures forall i :: old(Cached(pieces.Elements(), i)) ==> Cached(pieces.Elements(), i)
    {
      hide Patched, Quotient, Agrees;
      PartInside(index, begin, end, |file|);
      var piece := GetPiece(index);
      var from, to := 0, PIECE_SIZE - 1;
      if index == Quotient(begin) {
        from := Remainder(begin);
      }
      if index == Quotient(end) {
        to := Remainder(end);
      }
      n := to - from + 1;
      assert index * PIECE_SIZE + from == PartStart(index, begin);
      CopyPiece(piece, from, n, buffer, at);
    }

    /** Copies the file from fileOffset on to buffer[at..]. The end position is taken as inclusive, so
        one byte more than size is copied unless the file ends first. */
    method Read(fileOffset: nat, buffer: array<Byte>, at: nat, size: nat) returns (readLen: nat)
      requires Valid() && fileOffset <= |file|
      requires at + Min(size + 1, |file| - fileOffset) <= buffer.Length
      modifies pieces, pieces.cells, buffer
      ensures Valid() && fresh(pieces.cells - old(pieces.cells))
      ensures readLen == Min(size + 1, |file| - fileOffset)
      ensures readLen == Min(size, |file| - fileOffset) <==> fileOffset + size >= |file|
      ensures buffer[..] == Patched(old(buffer[..]), at, file[fileOffset..fileOffset + readLen])
      ensures old(pieces.Elements()) <= pieces.Elements()
      ensures AllCached(pieces.Elements(), fileOffset, size)
      ensures old(AllCached(pieces.Elements(), fileOffset, size)) ==> pieces.Elements() == old(pieces.Elements())
    {
      hide Patched, Quotient, Agrees, PartStart, PartEnd, Cached;
      var begin, end := fileOffset, fileOffset + size;
      if end >= |file| {
        end := |file| - 1;
      }
      var first, last := Quotient(begin), Quotient(end);
      readLen := 0;
      ReadStart(begin, end, |file|);
      PatchNothing(buffer[..], at);
      assert file[begin..begin + readLen] == [];
      var index: nat := first;
      while index <= last
        invariant Valid() && fresh(pieces.cells - old(pieces.cells))
        invariant first <= index
        invariant begin + readLen == if index <= last then PartStart(index, begin) else end + 1
        invariant begin + readLen <= end + 1
        invariant buffer[..] == Patched(old(buffer[..]), at, file[begin..begin + readLen])
        invariant old(pieces.Elements()) <= pieces.Elements()
        invariant forall i :: first <= i < index ==> Cached(pieces.Elements(), i)
        invariant old(AllCached(pieces.Elements(), begin, size)) ==> pieces.Elements() == old(pieces.Elements())
      {
        PartBounds(index, begin, end, |file|);
        var n := ServePiece(index, begin, end, buffer, at + readLen);
        NextPatch(old(buffer[..]), at, begin, readLen, n);
        readLen := readLen + n;
        index := index + 1;
      }
    }

    /** CFile::Read, whose offset never moves, into the first size bytes of memory: it stays there
        exactly if the file is no longer than that, and else overwrites the one byte that follows. */
    method ReadFromStart(memory: array<Byte>, size: nat) returns (readLen: nat)
      requires Valid() && size < memory.Length
      modifies pieces, pieces.cells, memory
      ensures Valid() && fresh(pieces.cells - old(pieces.cells))
      ensures readLen == Min(size + 1, |file|) && (readLen <= size <==> |file| <= size)
      ensures memory[..readLen] == file[..readLen] && memory[readLen..] == old(memory[readLen..])
      ensures |file| > size ==> memory[size] == file[size]
    {
      readLen := Read(0, memory, 0, size);
      PatchedAtStart(old(memory[..]), file[0..readLen]);
      assert memory[..][..readLen] == memory[..readLen] && memory[..][readLen..] == memory[readLen..];
      assert |file| > size ==> memory[..readLen][size] == file[..readLen][size];
    }

    /** Every piece that a read of size bytes at fileOffset touches is cached. */
    ghost predicate AllCached(ps: seq<Piece>, fileOffset: nat, size: nat)
    {
      forall i :: Quotient(fileOffset) <= i <= Quotient(Min(fileOffset + size, |file| - 1)) ==> Cached(ps, i)
    }
  }
}
