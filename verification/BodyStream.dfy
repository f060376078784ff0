/** A stored request body as a stream of bytes with a position, and the two ways of reading it. */
module BodyStream {

  newtype Byte = x: int | 0 <= x < 256

  datatype Error = NoError | EndOfFile | StorageClosed | InvalidArgument

  datatype Stream = Stream(bytes: seq<Byte>, pos: int, closed: bool)

  datatype ReadResult = ReadResult(data: seq<Byte>, error: Error)

  datatype SeekResult = SeekResult(pos: int, error: Error)

  function Min(a: int, b: int): int {
    if a < b then a else b
  }

  ghost predicate WellFormed(s: Stream) {
    s.pos >= 0
  }

  /** The next bytes, at most n of them. */
  function Chunk(s: Stream, n: nat): seq<Byte>
    requires 0 <= s.pos
  {
    if s.pos < |s.bytes| then s.bytes[s.pos..Min(s.pos + n, |s.bytes|)] else []
  }

  /** bytes.Reader: at the end even an empty read reports it. */
  function MemoryRead(s: Stream, n: nat): ReadResult
    requires WellFormed(s)
  {
    if s.closed then ReadResult([], StorageClosed)
    else if s.pos >= |s.bytes| then ReadResult([], EndOfFile)
    else ReadResult(Chunk(s, n), NoError)
  }

  /** os.File: an empty read never reports the end. */
  function DiskRead(s: Stream, n: nat): ReadResult
    requires WellFormed(s)
  {
    if s.closed then ReadResult([], StorageClosed)
    else if n == 0 then ReadResult([], NoError)
    else if s.pos >= |s.bytes| then ReadResult([], EndOfFile)
    else ReadResult(Chunk(s, n), NoError)
  }

  function AfterRead(s: Stream, n: nat): (t: Stream)
    requires WellFormed(s)
    ensures WellFormed(t)
  {
    if s.closed then s else s.(pos := s.pos + |Chunk(s, n)|)
  }

  const SEEK_START := 0
  const SEEK_CURRENT := 1
  const SEEK_END := 2

  function Target(s: Stream, offset: int, whence: int): int {
    if whence == SEEK_START then offset
    else if whence == SEEK_CURRENT then s.pos + offset
    else if whence == SEEK_END then |s.bytes| + offset
    else -1
  }

  /** Seeking past the end is allowed; before the start, or with an unknown origin, it is an error. */
  function Seeked(s: Stream, offset: int, whence: int): SeekResult {
    if s.closed then SeekResult(0, StorageClosed)
    else if Target(s, offset, whence) < 0 then SeekResult(0, InvalidArgument)
    else SeekResult(Target(s, offset, whence), NoError)
  }

  function AfterSeek(s: Stream, offset: int, whence: int): (t: Stream)
    requires WellFormed(s)
    ensures WellFormed(t)
  {
    if Seeked(s, offset, whence).error.NoError? then s.(pos := Target(s, offset, whence)) else s
  }

  function AllBytes(s: Stream): ReadResult {
    if s.closed then ReadResult([], StorageClosed) else ReadResult(s.bytes, NoError)
  }

  // ---- single calls, in terms of bytes and position ----

  /**
   * A closed body says so. An open one gives, from the position on, as many bytes as asked for and left; at
   * the end it says so, except to an empty read from disk.
   */
  lemma ReadMeaning(s: Stream, n: nat)
    requires WellFormed(s)
    ensures MemoryRead(s, n).error.StorageClosed? <==> s.closed
    ensures DiskRead(s, n).error.StorageClosed? <==> s.closed
    ensures MemoryRead(s, n).error.EndOfFile? <==> !s.closed && s.pos >= |s.bytes|
    ensures DiskRead(s, n).error.EndOfFile? <==> !s.closed && s.pos >= |s.bytes| && n > 0
    ensures MemoryRead(s, n).error.NoError? <==> !s.closed && s.pos < |s.bytes|
    ensures DiskRead(s, n).error.NoError? <==> !s.closed && (s.pos < |s.bytes| || n == 0)
    ensures forall r :: r == MemoryRead(s, n) || r == DiskRead(s, n) ==>
      if s.closed || s.pos >= |s.bytes| then r.data == []
      else var k := if n <= |s.bytes| - s.pos then n else |s.bytes| - s.pos;
        r.data == s.bytes[s.pos..s.pos + k]
    ensures AfterRead(s, n) == Stream(s.bytes, s.pos + |MemoryRead(s, n).data|, s.closed)
  {
  }

  /** Seeking counts from the start (0), the position (1) or the end (2), and may not go before the start. */
  lemma SeekMeaning(s: Stream, offset: int, whence: int)
    requires WellFormed(s)
    ensures var target := if whence == 0 then offset else if whence == 1 then s.pos + offset else |s.bytes| + offset;
      if s.closed then
        Seeked(s, offset, whence) == SeekResult(0, StorageClosed) && AfterSeek(s, offset, whence) == s
      else if 0 <= whence <= 2 && target >= 0 then
        Seeked(s, offset, whence) == SeekResult(target, NoError) && AfterSeek(s, offset, whence) == Stream(s.bytes, target, false)
      else
        Seeked(s, offset, whence) == SeekResult(0, InvalidArgument) && AfterSeek(s, offset, whence) == s
  {
  }

  // ---- both readings agree ----

  /** The two storages answer a read alike unless it is an empty read at the end of an open body. */
  lemma ReadsAgreeIff(s: Stream, n: nat)
    requires WellFormed(s)
    ensures MemoryRead(s, n) == DiskRead(s, n) <==> s.closed || n > 0 || s.pos < |s.bytes|
  {
  }

  datatype Op = Read(n: nat) | Seek(offset: int, whence: int) | Bytes | Close

  datatype Answer = Data(result: ReadResult) | Position(seeked: SeekResult) | Done

  function Answered(s: Stream, op: Op, onDisk: bool): Answer
    requires WellFormed(s)
  {
    match op
    case Read(n) => Data(if onDisk then DiskRead(s, n) else MemoryRead(s, n))
    case Seek(offset, whence) => Position(Seeked(s, offset, whence))
    case Bytes => Data(AllBytes(s))
    case Close => Done
  }

  function After(s: Stream, op: Op): (t: Stream)
    requires WellFormed(s)
    ensures WellFormed(t) && t.bytes == s.bytes
  {
    match op
    case Read(n) => AfterRead(s, n)
    case Seek(offset, whence) => AfterSeek(s, offset, whence)
    case Bytes => s
    case Close => s.(closed := true)
  }

  function AfterAll(s: Stream, ops: seq<Op>): (t: Stream)
    requires WellFormed(s)
    ensures WellFormed(t) && t.bytes == s.bytes
  {
    if ops == [] then s else After(AfterAll(s, ops[..|ops| - 1]), ops[|ops| - 1])
  }

  /** The answers to a sequence of calls. */
  function Play(s: Stream, ops: seq<Op>, onDisk: bool): (answers: seq<Answer>)
    requires WellFormed(s)
    ensures |answers| == |ops|
  {
    if ops == [] then []
    else
      var front, n := ops[..|ops| - 1], |ops| - 1;
      Play(s, front, onDisk) + [Answered(AfterAll(s, front), ops[n], onDisk)]
  }

  /** The i-th call reads into an empty buffer from an open body whose end it has reached. */
  predicate EmptyReadAtEnd(s: Stream, ops: seq<Op>, i: nat)
    requires WellFormed(s) && i < |ops|
  {
    var t := AfterAll(s, ops[..i]);
    ops[i].Read? && ops[i].n == 0 && !t.closed && t.pos >= |t.bytes|
  }

  /** A sequence of calls tells memory from disk iff it reads into an empty buffer at the end of an open body. */
  lemma {:induction false} StoragesAgreeIff(s: Stream, ops: seq<Op>)
    requires WellFormed(s)
    ensures Play(s, ops, true) == Play(s, ops, false)
      <==> forall i :: 0 <= i < |ops| ==> !EmptyReadAtEnd(s, ops, i)
  {
    if ops != [] {
      var front, n := ops[..|ops| - 1], |ops| - 1;
      StoragesAgreeIff(s, front);
      forall i | 0 <= i < n ensures EmptyReadAtEnd(s, ops, i) <==> EmptyReadAtEnd(s, front, i) {
        assert front[..i] == ops[..i];
      }
      LastAnswersAgreeIff(s, ops);
      SameLastAndFront(Play(s, front, true), Play(s, front, false),
                       Answered(AfterAll(s, front), ops[n], true), Answered(AfterAll(s, front), ops[n], false));
    }
  }

  lemma LastAnswersAgreeIff(s: Stream, ops: seq<Op>)
    requires WellFormed(s) && ops != []
    ensures var t, n := AfterAll(s, ops[..|ops| - 1]), |ops| - 1;
      Answered(t, ops[n], true) == Answered(t, ops[n], false) <==> !EmptyReadAtEnd(s, ops, n)
  {
    var t, n := AfterAll(s, ops[..|ops| - 1]), |ops| - 1;
    if ops[n].Read? {
      ReadsAgreeIff(t, ops[n].n);
    }
  }

  lemma SameLastAndFront(a: seq<Answer>, b: seq<Answer>, x: Answer, y: Answer)
    requires |a| == |b|
    ensures a + [x] == b + [y] <==> a == b && x == y
  {
    assert (a + [x])[..|a|] == a && (b + [y])[..|b|] == b;
    assert (a + [x])[|a|] == x && (b + [y])[|b|] == y;
  }

  /** Reading in pieces until the end yields the rest of the body, whatever the piece size. */
  function Drain(s: Stream, n: nat): seq<Byte>
    requires WellFormed(s) && !s.closed && n > 0
    decreases |s.bytes| - s.pos
  {
    if s.pos >= |s.bytes| then [] else DiskRead(s, n).data + Drain(AfterRead(s, n), n)
  }

  lemma SplitRest(bytes: seq<Byte>, pos: nat, next: nat)
    requires pos <= next <= |bytes|
    ensures bytes[pos..next] + (if next < |bytes| then bytes[next..] else []) == bytes[pos..]
  {
  }

  lemma {:induction false} DrainReadsTheRest(s: Stream, n: nat)
    requires WellFormed(s) && !s.closed && n > 0
    ensures Drain(s, n) == if s.pos < |s.bytes| then s.bytes[s.pos..] else []
    decreases |s.bytes| - s.pos
  {
    if s.pos < |s.bytes| {
      DrainReadsTheRest(AfterRead(s, n), n);
      SplitRest(s.bytes, s.pos, Min(s.pos + n, |s.bytes|));
    }
  }

  lemma PlayAppend(s: Stream, ops: seq<Op>, op: Op, onDisk: bool)
    requires WellFormed(s)
    ensures AfterAll(s, ops + [op]) == After(AfterAll(s, ops), op)
    ensures Play(s, ops + [op], onDisk) == Play(s, ops, onDisk) + [Answered(AfterAll(s, ops), op, onDisk)]
  {
    assert (ops + [op])[..|ops|] == ops;
  }

  lemma {:induction false} PlayConcat(s: Stream, a: seq<Op>, b: seq<Op>, onDisk: bool)
    requires WellFormed(s)
    ensures AfterAll(s, a + b) == AfterAll(AfterAll(s, a), b)
    ensures Play(s, a + b, onDisk) == Play(s, a, onDisk) + Play(AfterAll(s, a), b, onDisk)
  {
    if b == [] {
      assert a + b == a;
    } else {
      var front, op := b[..|b| - 1], b[|b| - 1];
      assert b == front + [op] && a + b == (a + front) + [op];
      PlayConcat(s, a, front, onDisk);
      OneMore(s, a, front, op, onDisk);
    }
  }

  lemma OneMore(s: Stream, a: seq<Op>, b: seq<Op>, op: Op, onDisk: bool)
    requires WellFormed(s)
    requires AfterAll(s, a + b) == AfterAll(AfterAll(s, a), b)
    requires Play(s, a + b, onDisk) == Play(s, a, onDisk) + Play(AfterAll(s, a), b, onDisk)
    ensures AfterAll(s, (a + b) + [op]) == AfterAll(AfterAll(s, a), b + [op])
    ensures Play(s, (a + b) + [op], onDisk) == Play(s, a, onDisk) + Play(AfterAll(s, a), b + [op], onDisk)
  {
    PlayAppend(s, a + b, op, onDisk);
    PlayAppend(AfterAll(s, a), b, op, onDisk);
  }

  /** A call of Bytes, wherever it comes in, changes neither the position nor any later answer. */
  lemma BytesIsInvisible(s: Stream, before: seq<Op>, later: seq<Op>, onDisk: bool)
    requires WellFormed(s)
    ensures AfterAll(s, before + [Bytes] + later) == AfterAll(s, before + later)
    ensures var t := AfterAll(s, before);
      && Play(s, before + later, onDisk) == Play(s, before, onDisk) + Play(t, later, onDisk)
      && Play(s, before + [Bytes] + later, onDisk) == Play(s, before, onDisk) + [Data(AllBytes(t))] + Play(t, later, onDisk)
  {
    PlayAppend(s, before, Bytes, onDisk);
    PlayConcat(s, before + [Bytes], later, onDisk);
    PlayConcat(s, before, later, onDisk);
  }

  // ---- whole conversations ----

  function Reads(n: nat, count: nat): (ops: seq<Op>)
    ensures |ops| == count
  {
    seq(count, i => Read(n))
  }

  function Least(a: int, b: int): int {
    if a <= b then a else b
  }

  /** What n bytes from a place in the body are: none past the end. */
  function PieceAt(bytes: seq<Byte>, from: nat, n: nat): ReadResult {
    if from < |bytes| then ReadResult(bytes[from..Least(from + n, |bytes|)], NoError) else ReadResult([], EndOfFile)
  }

  /** The answers to `count` reads of n bytes each from the start of an open body. */
  function Pieces(bytes: seq<Byte>, n: nat, count: nat): (answers: seq<Answer>)
    ensures |answers| == count
  {
    if count == 0 then [] else Pieces(bytes, n, count - 1) + [Data(PieceAt(bytes, (count - 1) * n, n))]
  }

  lemma ReadPiece(bytes: seq<Byte>, from: nat, n: nat, onDisk: bool)
    requires n > 0
    ensures var t := Stream(bytes, Least(from, |bytes|), false);
      && Answered(t, Read(n), onDisk) == Data(PieceAt(bytes, from, n))
      && After(t, Read(n)) == Stream(bytes, Least(from + n, |bytes|), false)
  {
    ReadMeaning(Stream(bytes, Least(from, |bytes|), false), n);
  }

  lemma OneMorePiece(bytes: seq<Byte>, n: nat, count: nat, from: nat, onDisk: bool)
    requires n > 0 && from == count * n
    requires Play(Stream(bytes, 0, false), Reads(n, count), onDisk) == Pieces(bytes, n, count)
    requires AfterAll(Stream(bytes, 0, false), Reads(n, count)) == Stream(bytes, Least(from, |bytes|), false)
    ensures Play(Stream(bytes, 0, false), Reads(n, count + 1), onDisk) == Pieces(bytes, n, count + 1)
    ensures AfterAll(Stream(bytes, 0, false), Reads(n, count + 1)) == Stream(bytes, Least(from + n, |bytes|), false)
  {
    assert Reads(n, count + 1) == Reads(n, count) + [Read(n)];
    PlayAppend(Stream(bytes, 0, false), Reads(n, count), Read(n), onDisk);
    ReadPiece(bytes, from, n, onDisk);
  }

  /** Reading from the start gives one piece after the other, then the end of the file each time. */
  lemma {:induction false} ReadsInPieces(bytes: seq<Byte>, n: nat, count: nat, onDisk: bool)
    requires n > 0
    ensures Play(Stream(bytes, 0, false), Reads(n, count), onDisk) == Pieces(bytes, n, count)
    ensures AfterAll(Stream(bytes, 0, false), Reads(n, count)) == Stream(bytes, Least(count * n, |bytes|), false)
  {
    if count > 0 {
      ReadsInPieces(bytes, n, count - 1, onDisk);
      assert count * n == (count - 1) * n + n;
      OneMorePiece(bytes, n, count - 1, (count - 1) * n, onDisk);
    }
  }

  /** Bytes gives the whole body, whatever was read, as long as the body is open. */
  lemma BytesGivesAll(s: Stream, ops: seq<Op>)
    requires WellFormed(s)
    ensures var t := AfterAll(s, ops); AllBytes(t) == if t.closed then ReadResult([], StorageClosed) else ReadResult(s.bytes, NoError)
  {
  }

  /** A body is closed exactly from its first Close on. */
  lemma {:induction false} ClosedIff(s: Stream, ops: seq<Op>)
    requires WellFormed(s)
    ensures AfterAll(s, ops).closed <==> s.closed || Close in ops
  {
    if ops != [] {
      var front, last := ops[..|ops| - 1], ops[|ops| - 1];
      ClosedIff(s, front);
      assert ops == front + [last];
    }
  }
}
