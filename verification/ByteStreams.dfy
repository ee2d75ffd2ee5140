/**
 Bytes that are read through a cursor, as from a buffer and from an open file: how much one
 read delivers, where a seek goes, and what a closed file still does.
 */
module ByteStreams {
  import opened Wrappers

  type Byte = b: int | 0 <= b < 256

  datatype Error =
    StorageClosed | FileClosed | EndOfFile | NegativePosition | BodyTooLarge | ReadFailed | DiskFailed | FileMissing

  datatype Result<T> = Ok(value: T) | Fail(error: Error)

  function Min(a: nat, b: nat): nat {
    if a < b then a else b
  }

  /** What is read, how far it has been read, and whether it is closed. */
  datatype Body = Body(bytes: seq<Byte>, cursor: nat, closed: bool)

  datatype Whence = Start | Current | End

  datatype Kind = Memory | Disk

  function Chunk(b: Body, n: nat): seq<Byte> {
    b.bytes[Min(b.cursor, |b.bytes|)..Min(b.cursor + n, |b.bytes|)]
  }

  function Advance(b: Body, n: nat): Body {
    b.(cursor := b.cursor + |Chunk(b, n)|)
  }

  predicate AtEnd(b: Body) {
    b.cursor >= |b.bytes|
  }

  /**
   Reading into a buffer of n bytes. At the end a memory reader reports the end whatever
   the buffer, a file only if there was room for a byte.
   */
  function ReadBytes(kind: Kind, b: Body, n: nat): (Body, Result<seq<Byte>>) {
    if AtEnd(b) && (kind.Memory? || n > 0) then (b, Fail(EndOfFile)) else (Advance(b, n), Ok(Chunk(b, n)))
  }

  function Target(b: Body, offset: int, whence: Whence): int {
    match whence
    case Start => offset
    case Current => b.cursor + offset
    case End => |b.bytes| + offset
  }

  function SeekBytes(b: Body, offset: int, whence: Whence): (Body, Result<nat>) {
    if Target(b, offset, whence) < 0 then (b, Fail(NegativePosition))
    else (b.(cursor := Target(b, offset, whence)), Ok(Target(b, offset, whence)))
  }

  /** Two reads in a row deliver what one of both sizes does. */
  lemma ChunkSplits(b: Body, n: nat, m: nat)
    ensures Chunk(b, n) + Chunk(Advance(b, n), m) == Chunk(b, n + m)
  {
  }

  // -------------------------------------------------------------------- open files

  function ReadFile(b: Body, n: nat): (Body, Result<seq<Byte>>) {
    if b.closed then (b, Fail(FileClosed)) else ReadBytes(Disk, b, n)
  }

  function SeekFile(b: Body, offset: int, whence: Whence): (Body, Result<nat>) {
    if b.closed then (b, Fail(FileClosed)) else SeekBytes(b, offset, whence)
  }

  /** Closing a file twice is an error. */
  function CloseFile(b: Body): (Body, Option<Error>) {
    if b.closed then (b, Some(FileClosed)) else (b.(closed := true), None)
  }

  /** An open file: it keeps its content when the file is removed. */
  class Descriptor {
    const content: seq<Byte>
    var cursor: nat
    var closed: bool

    constructor (content: seq<Byte>)
      ensures Value() == Body(content, 0, false)
    {
      this.content := content;
      cursor, closed := 0, false;
    }

    function Value(): Body
      reads this
    {
      Body(content, cursor, closed)
    }

    method Read(n: nat) returns (r: Result<seq<Byte>>)
      modifies this
      ensures (Value(), r) == ReadFile(old(Value()), n)
    {
      if closed {
        return Fail(FileClosed);
      }
      if n > 0 && cursor >= |content| {
        return Fail(EndOfFile);
      }
      var end := Min(cursor + n, |content|);
      var begin := Min(cursor, |content|);
      r := Ok(content[begin..end]);
      cursor := cursor + (end - begin);
    }

    method Seek(offset: int, whence: Whence) returns (r: Result<nat>)
      modifies this
      ensures (Value(), r) == SeekFile(old(Value()), offset, whence)
    {
      if closed {
        return Fail(FileClosed);
      }
      var target := match whence
        case Start => offset
        case Current => cursor + offset
        case End => |content| + offset;
      if target < 0 {
        return Fail(NegativePosition);
      }
      cursor := target;
      r := Ok(target);
    }

    method Close() returns (error: Option<Error>)
      modifies this
      ensures (Value(), error) == CloseFile(old(Value()))
    {
      if closed {
        return Some(FileClosed);
      }
      closed := true;
      return None;
    }

    /** Reads until the buffer is full; a file that ends before that is an error. */
    method ReadFull(n: nat) returns (r: Result<seq<Byte>>)
      modifies this
      ensures r == if old(closed) && n > 0 then Fail(FileClosed)
                   else if |Chunk(old(Value()), n)| == n then Ok(Chunk(old(Value()), n)) else Fail(EndOfFile)
      ensures Value() == if old(closed) then old(Value()) else Advance(old(Value()), n)
    {
      var data := [];
      ghost var before := Value();
      while |data| < n
        invariant |data| <= n && closed == before.closed && (closed ==> data == [])
        invariant data == Chunk(before, |data|)
        invariant Value() == Advance(before, |data|)
      {
        ghost var done := |data|;
        var chunk := Read(n - |data|);
        if chunk.Fail? {
          ChunkSplits(before, done, n - done);
          return chunk;
        }
        ChunkSplits(before, done, n - done);
        data := data + chunk.value;
        assert data == Chunk(before, n);
      }
      r := Ok(data);
    }
  }
}
