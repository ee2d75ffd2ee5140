/**
 Request bodies kept for replay, in memory or in a temporary file, with the readers opened
 on them: what each operation shows and changes, how the two kinds differ, and the shared
 counters that decide where the next body goes.
 */
module BodyStorage {
  import opened ByteStreams
  import opened Wrappers

  // --------------------------------------------------------- one body and its readers

  function ReadBody(kind: Kind, b: Body, n: nat): (Body, Result<seq<Byte>>) {
    if b.closed then (b, Fail(StorageClosed)) else ReadBytes(kind, b, n)
  }

  function SeekBody(b: Body, offset: int, whence: Whence): (Body, Result<nat>) {
    if b.closed then (b, Fail(StorageClosed)) else SeekBytes(b, offset, whence)
  }

  function BytesOf(b: Body): Result<seq<Byte>> {
    if b.closed then Fail(StorageClosed) else Ok(b.bytes)
  }

  /** A reader of a buffer is not closed by closing it, one of a file is. */
  function ReadReader(kind: Kind, r: Body, n: nat): (Body, Result<seq<Byte>>) {
    match kind
    case Memory => ReadBytes(Memory, r, n)
    case Disk => ReadFile(r, n)
  }

  function CloseReader(kind: Kind, r: Body): (Body, Option<Error>) {
    match kind
    case Memory => (r, None)
    case Disk => CloseFile(r)
  }

  /** A stored body and the readers that were opened on it, each with its own cursor. */
  datatype Store = Store(body: Body, readers: seq<Body>)

  function NewStore(bytes: seq<Byte>): Store {
    Store(Body(bytes, 0, false), [])
  }

  datatype Op =
    | Read(n: nat)
    | Seek(offset: int, whence: Whence)
    | Bytes
    | Close
    | Open
    | ReadFrom(r: nat, size: nat)
    | CloseFrom(r: nat)

  datatype Seen =
    | SawBytes(bytes: Result<seq<Byte>>)
    | SawPosition(position: Result<nat>)
    | SawClose(error: Option<Error>)
    | SawReader(reader: Result<nat>)
    | SawNothing

  function Step(kind: Kind, s: Store, op: Op): (Store, Seen) {
    match op
    case Read(n) => var (after, r) := ReadBody(kind, s.body, n); (s.(body := after), SawBytes(r))
    case Seek(offset, whence) => var (after, r) := SeekBody(s.body, offset, whence); (s.(body := after), SawPosition(r))
    case Bytes => (s, SawBytes(BytesOf(s.body)))
    case Close => (s.(body := s.body.(closed := true)), SawClose(None))
    case Open =>
      if s.body.closed then (s, SawReader(Fail(StorageClosed)))
      else (s.(readers := s.readers + [Body(s.body.bytes, 0, false)]), SawReader(Ok(|s.readers|)))
    case ReadFrom(r, n) =>
      if r >= |s.readers| then (s, SawNothing)
      else
        var (after, result) := ReadReader(kind, s.readers[r], n);
        (s.(readers := s.readers[r := after]), SawBytes(result))
    case CloseFrom(r) =>
      if r >= |s.readers| then (s, SawNothing)
      else
        var (after, error) := CloseReader(kind, s.readers[r]);
        (s.(readers := s.readers[r := after]), SawClose(error))
  }

  function After(kind: Kind, s: Store, ops: seq<Op>): Store
    decreases |ops|
  {
    if ops == [] then s else After(kind, Step(kind, s, ops[0]).0, ops[1..])
  }

  /** Everything a caller sees. */
  function Trace(kind: Kind, s: Store, ops: seq<Op>): (trace: seq<Seen>)
    ensures |trace| == |ops|
    decreases |ops|
  {
    if ops == [] then [] else var (after, seen) := Step(kind, s, ops[0]); [seen] + Trace(kind, after, ops[1..])
  }

  lemma StepKeeps(kind: Kind, s: Store, op: Op)
    ensures var after := Step(kind, s, op).0;
      && after.body.bytes == s.body.bytes && (after.body.closed <==> s.body.closed || op.Close?)
      && |s.readers| <= |after.readers|
      && (forall r :: 0 <= r < |s.readers| ==> after.readers[r].bytes == s.readers[r].bytes)
      && (forall r :: 0 <= r < |s.readers| && !OnReader(op, r) ==> after.readers[r] == s.readers[r])
  {
  }

  /** The content never changes, and closing is final. */
  lemma {:induction false} AfterKeeps(kind: Kind, s: Store, ops: seq<Op>)
    ensures After(kind, s, ops).body.bytes == s.body.bytes
    ensures After(kind, s, ops).body.closed <==> s.body.closed || Close in ops
    decreases |ops|
  {
    if ops != [] {
      hide Step;
      StepKeeps(kind, s, ops[0]);
      AfterKeeps(kind, Step(kind, s, ops[0]).0, ops[1..]);
      assert ops == [ops[0]] + ops[1..];
    }
  }

  /** A reader can be opened exactly until the body is closed, and then stands at its start. */
  lemma OpensExactly(kind: Kind, s: Store, ops: seq<Op>)
    ensures var before := After(kind, s, ops); var (after, seen) := Step(kind, before, Open);
      if s.body.closed || Close in ops then after == before && seen == SawReader(Fail(StorageClosed))
      else seen == SawReader(Ok(|before.readers|)) && after.readers == before.readers + [Body(s.body.bytes, 0, false)]
  {
    AfterKeeps(kind, s, ops);
  }

  /** After closing, every operation on the body but closing it again reports it. */
  lemma {:induction false} ClosedTrace(kind: Kind, s: Store, ops: seq<Op>)
    requires s.body.closed
    ensures forall i :: 0 <= i < |ops| ==>
      match ops[i]
      case Close => Trace(kind, s, ops)[i] == SawClose(None)
      case Seek(_, _) => Trace(kind, s, ops)[i] == SawPosition(Fail(StorageClosed))
      case Open => Trace(kind, s, ops)[i] == SawReader(Fail(StorageClosed))
      case Read(_) => Trace(kind, s, ops)[i] == SawBytes(Fail(StorageClosed))
      case Bytes => Trace(kind, s, ops)[i] == SawBytes(Fail(StorageClosed))
      case _ => true
    decreases |ops|
  {
    if ops != [] {
      StepKeeps(kind, s, ops[0]);
      ClosedTrace(kind, Step(kind, s, ops[0]).0, ops[1..]);
    }
  }

  /** Where a seek goes; before the start there is nothing. */
  lemma SeekExactly(kind: Kind, s: Store, offset: int, whence: Whence)
    requires !s.body.closed
    ensures var (after, seen) := Step(kind, s, Seek(offset, whence));
      var target := offset + match whence case Start => 0 case Current => s.body.cursor case End => |s.body.bytes|;
      if target < 0 then after == s && seen == SawPosition(Fail(NegativePosition))
      else after == s.(body := s.body.(cursor := target)) && seen == SawPosition(Ok(target))
  {
  }

  /** `Bytes` shows the content and moves nothing; closing only closes. */
  lemma BytesExactly(kind: Kind, s: Store)
    requires !s.body.closed
    ensures Step(kind, s, Bytes) == (s, SawBytes(Ok(s.body.bytes)))
    ensures var (after, seen) := Step(kind, s, Close);
      after == s.(body := Body(s.body.bytes, s.body.cursor, true)) && seen == SawClose(None)
  {
  }

  /** What a read delivers: as much as there is room for and is left, from the cursor on. */
  lemma ReadExactly(kind: Kind, s: Store, n: nat)
    requires !s.body.closed
    ensures var (after, seen) := Step(kind, s, Read(n));
      var bytes, cursor := s.body.bytes, s.body.cursor;
      if cursor < |bytes| then
        var end := if cursor + n < |bytes| then cursor + n else |bytes|;
        after == s.(body := s.body.(cursor := end)) && seen == SawBytes(Ok(bytes[cursor..end]))
      else
        after == s && seen == SawBytes(if kind.Disk? && n == 0 then Ok([]) else Fail(EndOfFile))
  {
  }

  // ---------------------------------------------------- the two kinds agree, when

  /** In this state of a file storage the operation shows that it is not a buffer. */
  predicate Tells(s: Store, op: Op) {
    match op
    case Read(n) => n == 0 && !s.body.closed && AtEnd(s.body)
    case ReadFrom(r, n) => r < |s.readers| && (s.readers[r].closed || (n == 0 && AtEnd(s.readers[r])))
    case CloseFrom(r) => r < |s.readers| && s.readers[r].closed
    case _ => false
  }

  /** Something is asked for nothing when it has nothing left, or a closed reader is used. */
  predicate TellsApart(s: Store, ops: seq<Op>)
    decreases |ops|
  {
    if ops == [] then false else Tells(s, ops[0]) || TellsApart(Step(Disk, s, ops[0]).0, ops[1..])
  }

  /** The same but for what is known about closed readers. */
  ghost predicate Alike(m: Store, d: Store) {
    && m.body == d.body && |m.readers| == |d.readers|
    && forall r :: 0 <= r < |m.readers| ==>
         m.readers[r].bytes == d.readers[r].bytes && m.readers[r].cursor == d.readers[r].cursor
  }

  lemma StepAlike(m: Store, d: Store, op: Op)
    requires Alike(m, d)
    ensures Step(Memory, m, op).1 == Step(Disk, d, op).1 <==> !Tells(d, op)
    ensures !Tells(d, op) ==> Alike(Step(Memory, m, op).0, Step(Disk, d, op).0)
    ensures Step(Memory, m, op).0.body == Step(Disk, d, op).0.body
  {
  }

  lemma {:induction false} AlikeAgreeExactly(m: Store, d: Store, ops: seq<Op>)
    requires Alike(m, d)
    ensures Trace(Memory, m, ops) == Trace(Disk, d, ops) <==> !TellsApart(d, ops)
    decreases |ops|
  {
    if ops != [] {
      hide Step, Tells, Alike;
      var memory, disk := Step(Memory, m, ops[0]), Step(Disk, d, ops[0]);
      StepAlike(m, d, ops[0]);
      assert Trace(Memory, m, ops)[0] == memory.1 && Trace(Memory, m, ops)[1..] == Trace(Memory, memory.0, ops[1..]);
      assert Trace(Disk, d, ops)[0] == disk.1 && Trace(Disk, d, ops)[1..] == Trace(Disk, disk.0, ops[1..]);
      if !Tells(d, ops[0]) {
        AlikeAgreeExactly(memory.0, disk.0, ops[1..]);
      }
    }
  }

  /**
   By these operations a caller can tell the two kinds apart exactly by reading into an empty
   buffer at the end, or by reading from, or closing, a reader that is already closed.
   */
  lemma KindsAgreeExactly(s: Store, ops: seq<Op>)
    ensures Trace(Memory, s, ops) == Trace(Disk, s, ops) <==> !TellsApart(s, ops)
  {
    AlikeAgreeExactly(s, s, ops);
  }

  /** The body itself moves alike in any case. */
  lemma {:induction false} KindsMoveAlike(m: Store, d: Store, ops: seq<Op>)
    requires m.body == d.body
    ensures After(Memory, m, ops).body == After(Disk, d, ops).body
    decreases |ops|
  {
    if ops != [] {
      assert Step(Memory, m, ops[0]).0.body == Step(Disk, d, ops[0]).0.body;
      KindsMoveAlike(Step(Memory, m, ops[0]).0, Step(Disk, d, ops[0]).0, ops[1..]);
    }
  }

  predicate OnReader(op: Op, r: nat) {
    (op.ReadFrom? || op.CloseFrom?) && op.r == r
  }

  /** No read is into an empty buffer, and closing a reader is the last use of it. */
  ghost predicate Careful(ops: seq<Op>) {
    && (forall i :: 0 <= i < |ops| ==> ops[i] != Read(0) && !(ops[i].ReadFrom? && ops[i].size == 0))
    && (forall i, j :: 0 <= i < j < |ops| && ops[i].CloseFrom? ==> !OnReader(ops[j], ops[i].r))
  }

  /** No closed reader is used. */
  ghost predicate SparesClosed(s: Store, ops: seq<Op>) {
    forall r, i :: 0 <= r < |s.readers| && s.readers[r].closed && 0 <= i < |ops| ==> !OnReader(ops[i], r)
  }

  lemma CarefulStep(s: Store, ops: seq<Op>)
    requires ops != [] && Careful(ops) && SparesClosed(s, ops)
    ensures !Tells(s, ops[0])
    ensures Careful(ops[1..]) && SparesClosed(Step(Disk, s, ops[0]).0, ops[1..])
  {
    var after, rest := Step(Disk, s, ops[0]).0, ops[1..];
    forall r, i | 0 <= r < |after.readers| && after.readers[r].closed && 0 <= i < |rest| ensures !OnReader(rest[i], r) {
      assert rest[i] == ops[i + 1];
    }
  }

  lemma {:induction false} CarefulTellsNothing(s: Store, ops: seq<Op>)
    requires Careful(ops) && SparesClosed(s, ops)
    ensures !TellsApart(s, ops)
    decreases |ops|
  {
    if ops != [] {
      hide Step, Tells, Careful, SparesClosed;
      CarefulStep(s, ops);
      CarefulTellsNothing(Step(Disk, s, ops[0]).0, ops[1..]);
    }
  }

  /** A careful caller cannot tell the two kinds apart. */
  lemma KindsAgree(bytes: seq<Byte>, ops: seq<Op>)
    requires Careful(ops)
    ensures Trace(Memory, NewStore(bytes), ops) == Trace(Disk, NewStore(bytes), ops)
  {
    CarefulTellsNothing(NewStore(bytes), ops);
    KindsAgreeExactly(NewStore(bytes), ops);
  }

  /** A reader that was closed still delivers from a buffer, and fails on a file. */
  lemma ClosedReaderTells()
    ensures var ops := [Open, CloseFrom(0), ReadFrom(0, 1), CloseFrom(0)];
      && Trace(Memory, NewStore([7]), ops) == [SawReader(Ok(0)), SawClose(None), SawBytes(Ok([7])), SawClose(None)]
      && Trace(Disk, NewStore([7]), ops)
          == [SawReader(Ok(0)), SawClose(None), SawBytes(Fail(FileClosed)), SawClose(Some(FileClosed))]
  {
    var ops := [Open, CloseFrom(0), ReadFrom(0, 1), CloseFrom(0)];
    assert ops[1..] == [CloseFrom(0), ReadFrom(0, 1), CloseFrom(0)];
    assert ops[1..][1..] == [ReadFrom(0, 1), CloseFrom(0)];
    assert ops[1..][1..][1..] == [CloseFrom(0)];
    var now := Step(Memory, NewStore([7]), Open).0;
    assert now.readers == [Body([7], 0, false)];
    assert Chunk(now.readers[0], 1) == [7];
    assert Step(Memory, now, CloseFrom(0)) == (now, SawClose(None)) by {
      assert now.readers[0 := now.readers[0]] == now.readers;
    }
  }

  /** A read into an empty buffer at the end is an error from a buffer, and none from a file. */
  lemma EmptyReadTells()
    ensures Trace(Memory, NewStore([]), [Read(0)]) == [SawBytes(Fail(EndOfFile))]
    ensures Trace(Disk, NewStore([]), [Read(0)]) == [SawBytes(Ok([]))]
  {
  }

  // --------------------------------------------------------------------- replay

  function Sum(sizes: seq<nat>): nat {
    if sizes == [] then 0 else sizes[0] + Sum(sizes[1..])
  }

  /** All that reads with these buffer sizes deliver. */
  function Delivered(kind: Kind, b: Body, sizes: seq<nat>): seq<Byte>
    decreases |sizes|
  {
    if sizes == [] then []
    else
      var (after, r) := ReadBody(kind, b, sizes[0]);
      (if r.Ok? then r.value else []) + Delivered(kind, after, sizes[1..])
  }

  /** However the reads are cut, they deliver the content from the cursor on, in order and once. */
  lemma {:induction false} ReadsReplay(kind: Kind, b: Body, sizes: seq<nat>)
    requires !b.closed
    ensures Delivered(kind, b, sizes) == Chunk(b, Sum(sizes))
    decreases |sizes|
  {
    if sizes != [] {
      var after := ReadBody(kind, b, sizes[0]).0;
      ReadsReplay(kind, after, sizes[1..]);
      ChunkSplits(b, sizes[0], Sum(sizes[1..]));
      if after == b {
        assert Chunk(b, sizes[0]) == [];
      }
    }
  }

  /** A rewound body with room enough delivers all of it. */
  lemma RewoundReplaysAll(kind: Kind, b: Body, sizes: seq<nat>)
    requires !b.closed && |b.bytes| <= Sum(sizes)
    ensures Delivered(kind, SeekBody(b, 0, Start).0, sizes) == b.bytes
  {
    ReadsReplay(kind, b.(cursor := 0), sizes);
  }

  // --------------------------------------------------------- readers on their own

  /** The reads from a reader, up to its own closing where that has an effect. */
  function OwnReads(kind: Kind, ops: seq<Op>, r: nat): seq<nat> {
    if ops == [] || (kind.Disk? && ops[0] == CloseFrom(r)) then []
    else (if ops[0].ReadFrom? && ops[0].r == r then [ops[0].size] else []) + OwnReads(kind, ops[1..], r)
  }

  /** All that the reads from a reader delivered. */
  function ReadBy(ops: seq<Op>, trace: seq<Seen>, r: nat): seq<Byte>
    requires |ops| == |trace|
  {
    if ops == [] then []
    else
      (if ops[0].ReadFrom? && ops[0].r == r && trace[0].SawBytes? && trace[0].bytes.Ok?
       then trace[0].bytes.value else [])
      + ReadBy(ops[1..], trace[1..], r)
  }

  lemma ReadByNext(kind: Kind, s: Store, ops: seq<Op>, r: nat)
    requires ops != []
    ensures var (after, seen) := Step(kind, s, ops[0]);
      ReadBy(ops, Trace(kind, s, ops), r)
        == (if ops[0].ReadFrom? && ops[0].r == r && seen.SawBytes? && seen.bytes.Ok? then seen.bytes.value else [])
         + ReadBy(ops[1..], Trace(kind, after, ops[1..]), r)
  {
    hide Step;
    var (after, seen) := Step(kind, s, ops[0]);
    assert Trace(kind, s, ops)[0] == seen && Trace(kind, s, ops)[1..] == Trace(kind, after, ops[1..]);
  }

  lemma {:induction false} ClosedReaderIsSilent(s: Store, ops: seq<Op>, r: nat)
    requires r < |s.readers| && s.readers[r].closed
    ensures ReadBy(ops, Trace(Disk, s, ops), r) == []
    decreases |ops|
  {
    if ops != [] {
      ReadByNext(Disk, s, ops, r);
      ClosedReaderIsSilent(Step(Disk, s, ops[0]).0, ops[1..], r);
    }
  }

  /** One read from a reader that is not closed. */
  lemma ReadsNext(kind: Kind, s: Store, r: nat, n: nat)
    requires r < |s.readers| && (kind.Disk? ==> !s.readers[r].closed)
    ensures var (after, seen) := Step(kind, s, ReadFrom(r, n));
      && |after.readers| == |s.readers| && after.readers[r] == Advance(s.readers[r], n)
      && seen.SawBytes? && (if seen.bytes.Ok? then seen.bytes.value else []) == Chunk(s.readers[r], n)
  {
    assert AtEnd(s.readers[r]) ==> Chunk(s.readers[r], n) == [];
  }

  lemma OwnReadsNext(kind: Kind, ops: seq<Op>, r: nat)
    requires ops != [] && !(kind.Disk? && ops[0] == CloseFrom(r))
    ensures Sum(OwnReads(kind, ops, r))
         == (if ops[0].ReadFrom? && ops[0].r == r then ops[0].size else 0) + Sum(OwnReads(kind, ops[1..], r))
  {
    var rest := OwnReads(kind, ops[1..], r);
    if ops[0].ReadFrom? && ops[0].r == r {
      assert ([ops[0].size] + rest)[1..] == rest;
    } else {
      assert [] + rest == rest;
    }
  }

  lemma ReaderStays(kind: Kind, s: Store, op: Op, r: nat)
    requires r < |s.readers| && !(op.ReadFrom? && op.r == r) && !(kind.Disk? && op == CloseFrom(r))
    ensures var after := Step(kind, s, op).0; r < |after.readers| && after.readers[r] == s.readers[r]
  {
  }

  /**
   A reader delivers the content from its cursor on by its own reads alone, in order and
   once, whatever else is done to the body and to other readers, closing the body included.
   */
  lemma {:induction false} ReaderReplays(kind: Kind, s: Store, ops: seq<Op>, r: nat)
    requires r < |s.readers| && (kind.Disk? ==> !s.readers[r].closed)
    ensures ReadBy(ops, Trace(kind, s, ops), r) == Chunk(s.readers[r], Sum(OwnReads(kind, ops, r)))
    decreases |ops|
  {
    hide Step, Chunk, OwnReads, Sum, ReadBy, Trace;
    if ops == [] || (kind.Disk? && ops[0] == CloseFrom(r)) {
      NoMoreReads(kind, s, ops, r);
    } else {
      var reader, after := s.readers[r], Step(kind, s, ops[0]).0;
      ReadByNext(kind, s, ops, r);
      OwnReadsNext(kind, ops, r);
      if ops[0].ReadFrom? && ops[0].r == r {
        ReadsNext(kind, s, r, ops[0].size);
        ReaderReplays(kind, after, ops[1..], r);
        ChunkSplits(reader, ops[0].size, Sum(OwnReads(kind, ops[1..], r)));
      } else {
        ReaderStays(kind, s, ops[0], r);
        ReaderReplays(kind, after, ops[1..], r);
      }
    }
  }

  lemma NoMoreReads(kind: Kind, s: Store, ops: seq<Op>, r: nat)
    requires r < |s.readers| && (kind.Disk? ==> !s.readers[r].closed)
    requires ops == [] || (kind.Disk? && ops[0] == CloseFrom(r))
    ensures ReadBy(ops, Trace(kind, s, ops), r) == [] == Chunk(s.readers[r], Sum(OwnReads(kind, ops, r)))
  {
    assert Chunk(s.readers[r], 0) == [];
    if ops != [] {
      ReadByNext(kind, s, ops, r);
      ClosedReaderIsSilent(Step(kind, s, ops[0]).0, ops[1..], r);
    }
  }

  /** A reader opened at any time before the closing replays the content from its first byte. */
  lemma OpenedReaderReplays(kind: Kind, s: Store, before: seq<Op>, ops: seq<Op>)
    requires !s.body.closed && Close !in before
    ensures var now := After(kind, s, before);
      ReadBy(ops, Trace(kind, Step(kind, now, Open).0, ops), |now.readers|)
        == s.body.bytes[..Min(Sum(OwnReads(kind, ops, |now.readers|)), |s.body.bytes|)]
  {
    var now := After(kind, s, before);
    OpensExactly(kind, s, before);
    ReaderReplays(kind, Step(kind, now, Open).0, ops, |now.readers|);
  }

  // ------------------------------------------------------------ shared counters

  datatype Stats = Stats(files: int, fileBytes: int, buffers: int, bufferBytes: int, diskHits: nat, memoryHits: nat)

  function Floor(n: int): int {
    if n < 0 then 0 else n
  }

  function Acquire(s: Stats, kind: Kind, size: nat): Stats {
    match kind
    case Memory => s.(buffers := s.buffers + 1, bufferBytes := s.bufferBytes + size)
    case Disk => s.(files := s.files + 1, fileBytes := s.fileBytes + size)
  }

  function Release(s: Stats, kind: Kind, size: nat): Stats {
    match kind
    case Memory => s.(buffers := s.buffers - 1, bufferBytes := s.bufferBytes - size)
    case Disk => s.(files := Floor(s.files - 1), fileBytes := Floor(s.fileBytes - size))
  }

  function Hit(s: Stats, kind: Kind): Stats {
    match kind
    case Memory => s.(memoryHits := s.memoryHits + 1)
    case Disk => s.(diskHits := s.diskHits + 1)
  }

  const MEGABYTE := 0x10_0000

  datatype Config = Config(enabled: bool, thresholdMB: int, maxMB: int)

  predicate Available(config: Config, s: Stats, size: int) {
    config.enabled && s.fileBytes + size <= config.maxMB * MEGABYTE
  }

  predicate PrefersDisk(config: Config, s: Stats, size: int) {
    config.enabled && size >= config.thresholdMB * MEGABYTE && Available(config, s, size)
  }

  /** Where a body of this size goes; a disk that does not work is made up for by memory. */
  function KindFor(config: Config, s: Stats, size: nat, diskWorks: bool): Kind {
    if PrefersDisk(config, s, size) && diskWorks then Disk else Memory
  }

  // ----------------------------------------------------------- bodies from streams

  const MAX_INT64 := 0x7FFF_FFFF_FFFF_FFFF
  const MIN_INT64 := -0x8000_0000_0000_0000

  /** What a request delivers: some bytes, and then its end or a failure. */
  datatype Stream = Stream(bytes: seq<Byte>, fails: bool)

  /** How many bytes are read at most: one more than allowed, in 64 bits. */
  function ReadLimit(maxBytes: int): int {
    if maxBytes == MAX_INT64 then MIN_INT64 else maxBytes + 1
  }

  function Received(stream: Stream, maxBytes: int): Result<seq<Byte>> {
    var limit := Floor(ReadLimit(maxBytes));
    if stream.fails && |stream.bytes| < limit then Fail(ReadFailed)
    else
      var received := stream.bytes[..Min(|stream.bytes|, limit)];
      if |received| > maxBytes then Fail(BodyTooLarge) else Ok(received)
  }

  /**
   A stream is received, and then in full, exactly when it ends and is not too long. With
   the largest limit the count of bytes to read wraps around and nothing is read at all.
   */
  lemma ReceivedExactly(stream: Stream, maxBytes: int)
    requires MIN_INT64 <= maxBytes <= MAX_INT64
    ensures maxBytes < MAX_INT64 ==>
      Received(stream, maxBytes) ==
        if |stream.bytes| > maxBytes then Fail(BodyTooLarge)
        else if stream.fails then Fail(ReadFailed) else Ok(stream.bytes)
    ensures maxBytes == MAX_INT64 ==> Received(stream, maxBytes) == Ok([])
    ensures !stream.fails && |stream.bytes| <= maxBytes ==>
      (Received(stream, maxBytes) == Ok(stream.bytes) <==> maxBytes < MAX_INT64 || stream.bytes == [])
  {
    if maxBytes < MAX_INT64 {
      assert |stream.bytes| <= maxBytes ==> stream.bytes[..|stream.bytes|] == stream.bytes;
    } else {
      assert stream.bytes[..0] == [];
    }
  }

  // ------------------------------------------------------------------- the cache

  datatype Entry = Entry(kind: Kind, store: Store)

  /** Every body ever stored, by position, and the counters. */
  datatype Cache = Cache(config: Config, stats: Stats, stored: seq<Entry>)

  function Stored(c: Cache, kind: Kind, bytes: seq<Byte>): Cache {
    c.(stats := Acquire(c.stats, kind, |bytes|), stored := c.stored + [Entry(kind, NewStore(bytes))])
  }

  function Create(c: Cache, data: seq<Byte>, diskWorks: bool): Cache {
    Stored(c, KindFor(c.config, c.stats, |data|, diskWorks), data)
  }

  predicate StreamsToDisk(c: Cache, contentLength: int) {
    contentLength > 0 && PrefersDisk(c.config, c.stats, contentLength)
  }

  function CreateFromReader(c: Cache, stream: Stream, contentLength: int, maxBytes: int, diskWorks: bool)
    : (Cache, Result<nat>)
  {
    if StreamsToDisk(c, contentLength) then
      if !diskWorks then (c, Fail(DiskFailed))
      else
        match Received(stream, maxBytes)
        case Fail(error) => (c, Fail(error))
        case Ok(bytes) => var after := Stored(c, Disk, bytes); (after.(stats := Hit(after.stats, Disk)), Ok(|c.stored|))
    else
      match Received(stream, maxBytes)
      case Fail(error) => (c, Fail(error))
      case Ok(bytes) =>
        var after := Create(c, bytes, diskWorks);
        (after.(stats := Hit(after.stats, after.stored[|c.stored|].kind)), Ok(|c.stored|))
  }

  function Use(c: Cache, id: nat, op: Op): Cache {
    if id >= |c.stored| then c
    else
      var entry := c.stored[id];
      c.(stored := c.stored[id := entry.(store := Step(entry.kind, entry.store, op).0)],
         stats := if op.Close? && !entry.store.body.closed
                  then Release(c.stats, entry.kind, |entry.store.body.bytes|) else c.stats)
  }

  datatype Event =
    | FromData(data: seq<Byte>, diskWorks: bool)
    | FromStream(stream: Stream, contentLength: int, maxBytes: int, works: bool)
    | OnBody(id: nat, op: Op)

  function Next(c: Cache, e: Event): Cache {
    match e
    case FromData(data, diskWorks) => Create(c, data, diskWorks)
    case FromStream(stream, contentLength, maxBytes, works) =>
      CreateFromReader(c, stream, contentLength, maxBytes, works).0
    case OnBody(id, op) => Use(c, id, op)
  }

  function Run(c: Cache, events: seq<Event>): Cache
    decreases |events|
  {
    if events == [] then c else Run(Next(c, events[0]), events[1..])
  }

  // --------------------------------------------------- counters are conservation laws

  /** How many open bodies of a kind there are, and their bytes, counted one by one. */
  function OpenCount(stored: seq<Entry>, kind: Kind): nat {
    if stored == [] then 0
    else OpenCount(stored[..|stored| - 1], kind) + Weight(stored[|stored| - 1], kind)
  }

  function Weight(entry: Entry, kind: Kind): nat {
    if entry.kind == kind && !entry.store.body.closed then 1 else 0
  }

  function OpenBytes(stored: seq<Entry>, kind: Kind): nat {
    if stored == [] then 0
    else OpenBytes(stored[..|stored| - 1], kind) + WeightBytes(stored[|stored| - 1], kind)
  }

  function WeightBytes(entry: Entry, kind: Kind): nat {
    if entry.kind == kind && !entry.store.body.closed then |entry.store.body.bytes| else 0
  }

  ghost predicate Counted(c: Cache) {
    && c.stats.files == OpenCount(c.stored, Disk) && c.stats.fileBytes == OpenBytes(c.stored, Disk)
    && c.stats.buffers == OpenCount(c.stored, Memory) && c.stats.bufferBytes == OpenBytes(c.stored, Memory)
  }

  lemma OpenAppend(stored: seq<Entry>, entry: Entry, kind: Kind)
    ensures OpenCount(stored + [entry], kind) == OpenCount(stored, kind) + Weight(entry, kind)
    ensures OpenBytes(stored + [entry], kind) == OpenBytes(stored, kind) + WeightBytes(entry, kind)
  {
    assert (stored + [entry])[..|stored|] == stored;
  }

  lemma {:induction false} OpenUpdate(stored: seq<Entry>, id: nat, entry: Entry, kind: Kind)
    requires id < |stored|
    ensures OpenCount(stored[id := entry], kind)
         == OpenCount(stored, kind) - Weight(stored[id], kind) + Weight(entry, kind)
    ensures OpenBytes(stored[id := entry], kind)
         == OpenBytes(stored, kind) - WeightBytes(stored[id], kind) + WeightBytes(entry, kind)
  {
    var n := |stored| - 1;
    if id == n {
      assert stored[id := entry][..n] == stored[..n];
    } else {
      OpenUpdate(stored[..n], id, entry, kind);
      assert stored[id := entry][..n] == stored[..n][id := entry];
    }
  }

  lemma UseKeepsCounted(c: Cache, id: nat, op: Op)
    requires Counted(c)
    ensures Counted(Use(c, id, op))
  {
    if id < |c.stored| {
      var entry := c.stored[id];
      var after := entry.(store := Step(entry.kind, entry.store, op).0);
      StepKeeps(entry.kind, entry.store, op);
      OpenUpdate(c.stored, id, after, Memory);
      OpenUpdate(c.stored, id, after, Disk);
    }
  }

  lemma StoredKeepsCounted(c: Cache, kind: Kind, bytes: seq<Byte>)
    requires Counted(c)
    ensures Counted(Stored(c, kind, bytes))
  {
    hide OpenCount, OpenBytes;
    OpenAppend(c.stored, Entry(kind, NewStore(bytes)), Memory);
    OpenAppend(c.stored, Entry(kind, NewStore(bytes)), Disk);
  }

  lemma NextKeepsCounted(c: Cache, e: Event)
    requires Counted(c)
    ensures Counted(Next(c, e))
  {
    hide OpenCount, OpenBytes, Received, KindFor, StreamsToDisk;
    match e
    case FromData(data, diskWorks) => StoredKeepsCounted(c, KindFor(c.config, c.stats, |data|, diskWorks), data);
    case FromStream(stream, contentLength, maxBytes, works) =>
      if Received(stream, maxBytes).Ok? {
        var bytes := Received(stream, maxBytes).value;
        StoredKeepsCounted(c, Disk, bytes);
        StoredKeepsCounted(c, KindFor(c.config, c.stats, |bytes|, works), bytes);
      }
    case OnBody(id, op) => UseKeepsCounted(c, id, op);
  }

  /**
   Over every run the counters are the number and the bytes of the open files and of the
   open buffers: nothing leaks, closing twice counts once, and the floors are never hit.
   */
  lemma {:induction false} RunKeepsCounted(c: Cache, events: seq<Event>)
    requires Counted(c)
    ensures Counted(Run(c, events))
    decreases |events|
  {
    if events != [] {
      NextKeepsCounted(c, events[0]);
      RunKeepsCounted(Next(c, events[0]), events[1..]);
    }
  }

  // -------------------------------------------------------------- the disk budget

  ghost predicate WithinBudget(c: Cache) {
    c.stats.fileBytes <= c.config.maxMB * MEGABYTE
  }

  /** A stream goes to disk on its announced length, and turns out too long for the budget. */
  ghost predicate Overruns(c: Cache, e: Event) {
    e.FromStream? && StreamsToDisk(c, e.contentLength) && e.works
    && Received(e.stream, e.maxBytes).Ok?
    && c.config.maxMB * MEGABYTE - c.stats.fileBytes < |Received(e.stream, e.maxBytes).value|
  }

  lemma StepBudget(c: Cache, e: Event)
    requires Counted(c) && WithinBudget(c)
    ensures WithinBudget(Next(c, e)) <==> !Overruns(c, e)
    ensures Next(c, e).config == c.config
  {
    match e
    case FromData(_, _) =>
    case FromStream(_, _, _, _) =>
    case OnBody(id, op) =>
      if id < |c.stored| && op.Close? && c.stored[id].kind.Disk? && !c.stored[id].store.body.closed {
        OpenUpdate(c.stored, id, c.stored[id].(store := Step(Disk, c.stored[id].store, Close).0), Disk);
      }
  }

  /** Data at hand and operations on bodies never exceed the budget. */
  lemma OthersKeepBudget(c: Cache, e: Event)
    requires Counted(c) && WithinBudget(c) && !e.FromStream?
    ensures WithinBudget(Next(c, e))
  {
    StepBudget(c, e);
  }

  /** There is room for as much as may be received, or nothing is streamed to disk, or nothing is read at all. */
  predicate RoomFor(c: Cache, contentLength: int, maxBytes: int, works: bool) {
    || !(StreamsToDisk(c, contentLength) && works)
    || maxBytes == MAX_INT64
    || c.stats.fileBytes + maxBytes <= c.config.maxMB * MEGABYTE
  }

  function LongestStream(maxBytes: nat): Stream {
    Stream(seq(maxBytes, _ => 0), false)
  }

  lemma LongestIsReceived(maxBytes: nat)
    requires maxBytes < MAX_INT64
    ensures Received(LongestStream(maxBytes), maxBytes) == Ok(LongestStream(maxBytes).bytes)
    ensures |LongestStream(maxBytes).bytes| == maxBytes
  {
    ReceivedExactly(LongestStream(maxBytes), maxBytes);
  }

  /** Storing a stream keeps the files within the budget, whatever it delivers, exactly when there is room. */
  lemma BudgetExactly(c: Cache, contentLength: int, maxBytes: int, works: bool)
    requires Counted(c) && WithinBudget(c) && MIN_INT64 <= maxBytes <= MAX_INT64
    ensures (forall stream :: WithinBudget(Next(c, FromStream(stream, contentLength, maxBytes, works))))
       <==> RoomFor(c, contentLength, maxBytes, works)
  {
    hide Next, Received;
    if RoomFor(c, contentLength, maxBytes, works) {
      forall stream ensures WithinBudget(Next(c, FromStream(stream, contentLength, maxBytes, works))) {
        StepBudget(c, FromStream(stream, contentLength, maxBytes, works));
        ReceivedExactly(stream, maxBytes);
      }
    } else {
      LongestIsReceived(maxBytes);
      StepBudget(c, FromStream(LongestStream(maxBytes), contentLength, maxBytes, works));
    }
  }

  /** No stream delivers more than it announced. */
  ghost predicate Honest(e: Event) {
    e.FromStream? ==> e.contentLength <= 0 || |e.stream.bytes| <= e.contentLength
  }

  lemma HonestFits(c: Cache, e: Event)
    requires Honest(e)
    ensures !Overruns(c, e)
  {
  }

  /** With honest announcements the files never exceed the budget. */
  lemma {:induction false} RunKeepsBudget(c: Cache, events: seq<Event>)
    requires Counted(c) && WithinBudget(c)
    requires forall i :: 0 <= i < |events| ==> Honest(events[i])
    ensures WithinBudget(Run(c, events))
    decreases |events|
  {
    if events != [] {
      HonestFits(c, events[0]);
      StepBudget(c, events[0]);
      NextKeepsCounted(c, events[0]);
      RunKeepsBudget(Next(c, events[0]), events[1..]);
    }
  }

  const EMPTY := Cache(Config(true, 0, 1), Stats(0, 0, 0, 0, 0, 0), [])

  /** One announced byte lets a longer stream past a budget of one megabyte. */
  lemma ShortAnnouncementOverruns(stream: Stream)
    requires |stream.bytes| == MEGABYTE + 1 && !stream.fails
    ensures Counted(EMPTY) && WithinBudget(EMPTY)
    ensures !WithinBudget(Next(EMPTY, FromStream(stream, 1, 2 * MEGABYTE, true)))
  {
    ReceivedExactly(stream, 2 * MEGABYTE);
    StepBudget(EMPTY, FromStream(stream, 1, 2 * MEGABYTE, true));
  }

  // ------------------------------------------------------------ what is stored

  /**
   Storing a stream succeeds exactly when it ends within the limit and no chosen disk is
   broken; then the one new body holds the stream, open and at its start, and one hit is
   counted. Otherwise nothing changes. At the largest limit what is stored is empty.
   */
  lemma StreamIsStoredExactly(c: Cache, stream: Stream, contentLength: int, maxBytes: int, diskWorks: bool)
    requires MIN_INT64 <= maxBytes <= MAX_INT64
    ensures var (after, r) := CreateFromReader(c, stream, contentLength, maxBytes, diskWorks);
      && (r.Ok? <==>
            && (maxBytes == MAX_INT64 || (|stream.bytes| <= maxBytes && !stream.fails))
            && (diskWorks || !StreamsToDisk(c, contentLength)))
      && (r.Fail? ==> after == c)
      && (r.Ok? ==>
            && r.value == |c.stored| && |after.stored| == |c.stored| + 1 && c.stored <= after.stored
            && after.stored[r.value].store == NewStore(if maxBytes == MAX_INT64 then [] else stream.bytes)
            && after.stats.diskHits + after.stats.memoryHits == c.stats.diskHits + c.stats.memoryHits + 1)
  {
    ReceivedExactly(stream, maxBytes);
  }

  /** The counters after one more open body of this kind and size. */
  ghost predicate CountedOneMore(before: Stats, after: Stats, kind: Kind, size: nat) {
    && after.files == before.files + (if kind.Disk? then 1 else 0)
    && after.fileBytes == before.fileBytes + (if kind.Disk? then size else 0)
    && after.buffers == before.buffers + (if kind.Memory? then 1 else 0)
    && after.bufferBytes == before.bufferBytes + (if kind.Memory? then size else 0)
  }

  /** A file of this size is wanted, and fits into the budget with those there are. */
  ghost predicate DiskTakes(c: Cache, size: int) {
    c.config.enabled && size >= c.config.thresholdMB * 1048576 && c.stats.fileBytes + size <= c.config.maxMB * 1048576
  }

  /** Data goes to a working disk exactly when it reaches the threshold and fits, and to memory otherwise. */
  lemma DataIsStoredExactly(c: Cache, data: seq<Byte>, diskWorks: bool)
    ensures var after := Create(c, data, diskWorks);
      && |after.stored| == |c.stored| + 1 && c.stored <= after.stored && after.config == c.config
      && after.stored[|c.stored|].store == NewStore(data)
      && (after.stored[|c.stored|].kind.Disk? <==> DiskTakes(c, |data|) && diskWorks)
      && CountedOneMore(c.stats, after.stats, after.stored[|c.stored|].kind, |data|)
      && after.stats.diskHits == c.stats.diskHits && after.stats.memoryHits == c.stats.memoryHits
  {
  }

  /**
   A stream goes to disk on its announced length if that is known, or else on its received
   length like data; the hit of the kind it goes to is counted.
   */
  lemma StreamKindExactly(c: Cache, stream: Stream, contentLength: int, maxBytes: int, diskWorks: bool)
    requires CreateFromReader(c, stream, contentLength, maxBytes, diskWorks).1.Ok?
    ensures var after := CreateFromReader(c, stream, contentLength, maxBytes, diskWorks).0;
      |after.stored| == |c.stored| + 1
    ensures var after := CreateFromReader(c, stream, contentLength, maxBytes, diskWorks).0;
      var entry := after.stored[|c.stored|];
      var size := |entry.store.body.bytes|;
      && (entry.kind.Disk? <==> diskWorks && ((contentLength > 0 && DiskTakes(c, contentLength)) || DiskTakes(c, size)))
      && CountedOneMore(c.stats, after.stats, entry.kind, size)
      && after.stats.diskHits == c.stats.diskHits + (if entry.kind.Disk? then 1 else 0)
      && after.stats.memoryHits == c.stats.memoryHits + (if entry.kind.Memory? then 1 else 0)
  {
    hide Received;
  }

  /** The operations of a run on one body. */
  function OpsOn(events: seq<Event>, id: nat): seq<Op> {
    if events == [] then []
    else (if events[0].OnBody? && events[0].id == id then [events[0].op] else []) + OpsOn(events[1..], id)
  }

  /** What the operations of a run on one body show. */
  function SeenOn(c: Cache, events: seq<Event>, id: nat): seq<Seen>
    requires id < |c.stored|
    decreases |events|
  {
    if events == [] then []
    else
      (if events[0].OnBody? && events[0].id == id
       then [Step(c.stored[id].kind, c.stored[id].store, events[0].op).1] else [])
      + SeenOn(Next(c, events[0]), events[1..], id)
  }

  lemma NextIsolates(c: Cache, e: Event, id: nat)
    requires id < |c.stored|
    ensures var after := Next(c, e);
      && id < |after.stored| && after.stored[id].kind == c.stored[id].kind
      && after.stored[id].store ==
           if e.OnBody? && e.id == id then Step(c.stored[id].kind, c.stored[id].store, e.op).0 else c.stored[id].store
  {
  }

  /**
   Over every run a stored body and its readers are as their own operations leave them and
   show what these operations show, whatever else happens.
   */
  lemma {:induction false} RunIsolates(c: Cache, events: seq<Event>, id: nat)
    requires id < |c.stored|
    ensures var entry, ops := c.stored[id], OpsOn(events, id);
      && id < |Run(c, events).stored|
      && Run(c, events).stored[id] == Entry(entry.kind, After(entry.kind, entry.store, ops))
      && SeenOn(c, events, id) == Trace(entry.kind, entry.store, ops)
    decreases |events|
  {
    if events != [] {
      hide Step, Next;
      NextIsolates(c, events[0], id);
      RunIsolates(Next(c, events[0]), events[1..], id);
      var ops := OpsOn(events[1..], id);
      if events[0].OnBody? && events[0].id == id {
        assert ([events[0].op] + ops)[1..] == ops;
      } else {
        var seen := SeenOn(Next(c, events[0]), events[1..], id);
        assert [] + ops == ops && [] + seen == seen;
      }
    }
  }

  /**
   Over every run a reader delivers the content from its cursor on by its own reads alone,
   whatever happens to its body, to other readers and to other bodies.
   */
  lemma RunReplays(c: Cache, events: seq<Event>, id: nat, r: nat)
    requires id < |c.stored| && r < |c.stored[id].store.readers|
    requires c.stored[id].kind.Disk? ==> !c.stored[id].store.readers[r].closed
    ensures var entry, ops := c.stored[id], OpsOn(events, id);
      && |SeenOn(c, events, id)| == |ops|
      && ReadBy(ops, SeenOn(c, events, id), r) == Chunk(entry.store.readers[r], Sum(OwnReads(entry.kind, ops, r)))
  {
    RunIsolates(c, events, id);
    ReaderReplays(c.stored[id].kind, c.stored[id].store, OpsOn(events, id), r);
  }
}
