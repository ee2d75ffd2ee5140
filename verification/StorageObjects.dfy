/**
 The two kinds of request-body storage as objects over an in-memory buffer and over a
 temporary file, with the shared counters they keep. Every operation is proved to do what
 BodyStorage says it does to the stored body and to the counters.
 */
module StorageObjects {
  import opened ByteStreams
  import opened BodyStorage
  import opened Wrappers

  class Counters {
    var files: int
    var fileBytes: int
    var buffers: int
    var bufferBytes: int
    var diskHits: nat
    var memoryHits: nat

    function Value(): Stats
      reads this
    {
      Stats(files, fileBytes, buffers, bufferBytes, diskHits, memoryHits)
    }

    method IncrementDiskFiles(size: nat)
      modifies this
      ensures Value() == Acquire(old(Value()), Disk, size)
    {
      files := files + 1;
      fileBytes := fileBytes + size;
    }

    method DecrementDiskFiles(size: nat)
      modifies this
      ensures Value() == Release(old(Value()), Disk, size)
    {
      files := files - 1;
      if files < 0 {
        files := 0;
      }
      fileBytes := fileBytes - size;
      if fileBytes < 0 {
        fileBytes := 0;
      }
    }

    method IncrementMemoryBuffers(size: nat)
      modifies this
      ensures Value() == Acquire(old(Value()), Memory, size)
    {
      buffers := buffers + 1;
      bufferBytes := bufferBytes + size;
    }

    method DecrementMemoryBuffers(size: nat)
      modifies this
      ensures Value() == Release(old(Value()), Memory, size)
    {
      buffers := buffers - 1;
      bufferBytes := bufferBytes - size;
    }

    method IncrementHits(kind: Kind)
      modifies this
      ensures Value() == Hit(old(Value()), kind)
    {
      if kind.Disk? {
        diskHits := diskHits + 1;
      } else {
        memoryHits := memoryHits + 1;
      }
    }
  }

  /** The directory of temporary files. */
  class Directory {
    var files: map<nat, seq<Byte>>

    /** A new file under a name that is not in use. */
    method CreateFile(data: seq<Byte>) returns (path: nat)
      modifies this
      ensures path !in old(files) && files == old(files)[path := data]
    {
      path := UnusedName(files.Keys);
      files := files[path := data];
    }

    method Remove(path: nat)
      modifies this
      ensures files == old(files) - {path}
    {
      files := files - {path};
    }
  }

  /** A name above all that are in use. */
  method UnusedName(used: set<nat>) returns (name: nat)
    ensures name !in used
  {
    name := 0;
    var rest := used;
    while rest != {}
      invariant rest <= used
      invariant forall n :: n in used && n !in rest ==> n < name
      decreases rest
    {
      var n :| n in rest;
      name := if n < name then name else n + 1;
      rest := rest - {n};
    }
  }

  /** A reader of a buffer; closing it does nothing. */
  class BufferReader {
    const data: seq<Byte>
    var position: nat

    constructor (data: seq<Byte>)
      ensures Value() == Body(data, 0, false)
    {
      this.data := data;
      position := 0;
    }

    function Value(): Body
      reads this
    {
      Body(data, position, false)
    }

    method Read(n: nat) returns (r: Result<seq<Byte>>)
      modifies this
      ensures (Value(), r) == ReadReader(Memory, old(Value()), n)
    {
      if position >= |data| {
        return Fail(EndOfFile);
      }
      var end := Min(position + n, |data|);
      r := Ok(data[position..end]);
      position := end;
    }

    method Close() returns (error: Option<Error>)
      ensures (Value(), error) == CloseReader(Memory, Value())
    {
      return None;
    }
  }

  class MemoryStorage {
    const data: seq<Byte>
    const size: nat
    var position: nat
    var closed: bool

    function Value(): Body
      reads this
    {
      Body(data, position, closed)
    }

    ghost predicate Valid() {
      size == |data|
    }

    constructor (data: seq<Byte>, counters: Counters)
      modifies counters
      ensures Valid() && Value() == Body(data, 0, false)
      ensures counters.Value() == Acquire(old(counters.Value()), Memory, |data|)
    {
      this.data := data;
      size := |data|;
      position := 0;
      closed := false;
      new;
      counters.IncrementMemoryBuffers(|data|);
    }

    method Read(n: nat) returns (r: Result<seq<Byte>>)
      modifies this
      ensures (Value(), r) == ReadBody(Memory, old(Value()), n)
    {
      if closed {
        return Fail(StorageClosed);
      }
      if position >= |data| {
        return Fail(EndOfFile);
      }
      var end := Min(position + n, |data|);
      r := Ok(data[position..end]);
      position := end;
    }

    method Seek(offset: int, whence: Whence) returns (r: Result<nat>)
      modifies this
      ensures (Value(), r) == SeekBody(old(Value()), offset, whence)
    {
      if closed {
        return Fail(StorageClosed);
      }
      var target := match whence
        case Start => offset
        case Current => position + offset
        case End => |data| + offset;
      if target < 0 {
        return Fail(NegativePosition);
      }
      position := target;
      r := Ok(target);
    }

    method Close(counters: Counters)
      requires Valid()
      modifies this, counters
      ensures Value() == old(Value()).(closed := true)
      ensures counters.Value() ==
        if old(closed) then old(counters.Value()) else Release(old(counters.Value()), Memory, |data|)
    {
      if !closed {
        closed := true;
        counters.DecrementMemoryBuffers(size);
      }
    }

    method Bytes() returns (r: Result<seq<Byte>>)
      ensures r == BytesOf(Value())
    {
      r := if closed then Fail(StorageClosed) else Ok(data);
    }

    method NewReader() returns (r: Result<BufferReader>)
      ensures r == Fail(StorageClosed) <==> closed
      ensures r.Ok? ==> fresh(r.value) && r.value.Value() == Body(data, 0, false)
    {
      if closed {
        return Fail(StorageClosed);
      }
      var reader := new BufferReader(data);
      r := Ok(reader);
    }
  }

  class DiskStorage {
    const file: Descriptor
    const path: nat
    const size: nat
    var closed: bool

    ghost predicate Valid()
      reads this, file
    {
      size == |file.content| && closed == file.closed
    }

    function Value(): Body
      reads this, file
    {
      Body(file.content, file.cursor, closed)
    }

    constructor (data: seq<Byte>, counters: Counters, directory: Directory)
      modifies counters, directory
      ensures Valid() && fresh(file) && Value() == Body(data, 0, false)
      ensures path !in old(directory.files) && directory.files == old(directory.files)[path := data]
      ensures counters.Value() == Acquire(old(counters.Value()), Disk, |data|)
    {
      var name := directory.CreateFile(data);
      var handle := new Descriptor(data);
      file := handle;
      path := name;
      size := |data|;
      closed := false;
      new;
      counters.IncrementDiskFiles(|data|);
    }

    method Read(n: nat) returns (r: Result<seq<Byte>>)
      requires Valid()
      modifies file
      ensures Valid()
      ensures (Value(), r) == ReadBody(Disk, old(Value()), n)
    {
      if closed {
        return Fail(StorageClosed);
      }
      r := file.Read(n);
    }

    method Seek(offset: int, whence: Whence) returns (r: Result<nat>)
      requires Valid()
      modifies file
      ensures Valid()
      ensures (Value(), r) == SeekBody(old(Value()), offset, whence)
    {
      if closed {
        return Fail(StorageClosed);
      }
      r := file.Seek(offset, whence);
    }

    method Close(counters: Counters, directory: Directory)
      requires Valid()
      modifies this, file, counters, directory
      ensures Valid()
      ensures Value() == old(Value()).(closed := true)
      ensures directory.files == if old(closed) then old(directory.files) else old(directory.files) - {path}
      ensures counters.Value() ==
        if old(closed) then old(counters.Value()) else Release(old(counters.Value()), Disk, size)
    {
      if !closed {
        closed := true;
        var _ := file.Close();
        directory.Remove(path);
        counters.DecrementDiskFiles(size);
      }
    }

    /** Reads the whole file and puts the cursor back where it was. */
    method Bytes() returns (r: Result<seq<Byte>>)
      requires Valid()
      modifies file
      ensures Valid() && r == BytesOf(Value()) && Value() == old(Value())
    {
      if closed {
        return Fail(StorageClosed);
      }
      var current := file.Seek(0, Current);
      var _ := file.Seek(0, Start);
      r := file.ReadFull(size);
      assert file.content[0..size] == file.content;
      var _ := file.Seek(current.value, Start);
    }

    /** A second descriptor on the file, which has to be still there. */
    method NewReader(directory: Directory) returns (r: Result<Descriptor>)
      ensures r == Fail(StorageClosed) <==> closed
      ensures !closed ==> (r.Ok? <==> path in directory.files)
      ensures r.Ok? ==> fresh(r.value) && r.value.Value() == Body(directory.files[path], 0, false)
    {
      if closed {
        return Fail(StorageClosed);
      }
      if path !in directory.files {
        return Fail(FileMissing);
      }
      var reader := new Descriptor(directory.files[path]);
      r := Ok(reader);
    }
  }

  datatype Storage = InMemory(memory: MemoryStorage) | OnDisk(disk: DiskStorage)

  function EntryOf(s: Storage): Entry
    reads match s case InMemory(m) => {m as object} case OnDisk(d) => {d, d.file}
  {
    match s
    case InMemory(m) => Entry(Memory, Store(m.Value(), []))
    case OnDisk(d) => Entry(Disk, Store(d.Value(), []))
  }

  method CreateBodyStorage(config: Config, counters: Counters, directory: Directory, data: seq<Byte>, diskWorks: bool)
    returns (s: Storage)
    modifies counters, directory
    ensures var after := Create(Cache(config, old(counters.Value()), []), data, diskWorks);
      counters.Value() == after.stats && [EntryOf(s)] == after.stored
    ensures s.InMemory? ==> fresh(s.memory) && s.memory.Valid() && directory.files == old(directory.files)
    ensures s.OnDisk? ==> fresh(s.disk) && fresh(s.disk.file) && s.disk.Valid()
    ensures s.OnDisk? ==>
      s.disk.path !in old(directory.files) && directory.files == old(directory.files)[s.disk.path := data]
  {
    if config.enabled && |data| >= config.thresholdMB * MEGABYTE
       && config.enabled && counters.fileBytes + |data| <= config.maxMB * MEGABYTE && diskWorks {
      var disk := new DiskStorage(data, counters, directory);
      return OnDisk(disk);
    }
    var memory := new MemoryStorage(data, counters);
    s := InMemory(memory);
  }

  /** Reads at most one byte more than allowed, to see whether there are too many. */
  method ReadBounded(stream: Stream, maxBytes: int) returns (r: Result<seq<Byte>>)
    ensures r == Received(stream, maxBytes)
  {
    var limit := ReadLimit(maxBytes);
    var received, i := [], 0;
    while i < |stream.bytes| && i < limit
      invariant 0 <= i <= |stream.bytes| && (i == 0 || i <= limit)
      invariant received == stream.bytes[..i]
    {
      received := received + [stream.bytes[i]];
      i := i + 1;
    }
    if i < limit && stream.fails {
      return Fail(ReadFailed);
    }
    r := if |received| > maxBytes then Fail(BodyTooLarge) else Ok(received);
  }

  method CreateBodyStorageFromReader(config: Config, counters: Counters, directory: Directory,
                                     stream: Stream, contentLength: int, maxBytes: int, diskWorks: bool)
    returns (r: Result<Storage>)
    modifies counters, directory
    ensures var (after, id) :=
      CreateFromReader(Cache(config, old(counters.Value()), []), stream, contentLength, maxBytes, diskWorks);
      && counters.Value() == after.stats
      && (if r.Ok? then [EntryOf(r.value)] == after.stored else id == Fail(r.error))
    ensures r.Fail? || r.value.InMemory? ==> directory.files == old(directory.files)
    ensures r.Ok? && r.value.InMemory? ==> fresh(r.value.memory) && r.value.memory.Valid()
    ensures r.Ok? && r.value.OnDisk? ==> fresh(r.value.disk) && fresh(r.value.disk.file) && r.value.disk.Valid()
    ensures r.Ok? && r.value.OnDisk? ==>
      directory.files == old(directory.files)[r.value.disk.path := r.value.disk.file.content]
  {
    if config.enabled && contentLength > 0 && contentLength >= config.thresholdMB * MEGABYTE
       && counters.fileBytes + contentLength <= config.maxMB * MEGABYTE {
      if !diskWorks {
        return Fail(DiskFailed);
      }
      var received := ReadBounded(stream, maxBytes);
      if received.Fail? {
        return Fail(received.error);
      }
      var disk := new DiskStorage(received.value, counters, directory);
      counters.IncrementHits(Disk);
      return Ok(OnDisk(disk));
    }
    var received := ReadBounded(stream, maxBytes);
    if received.Fail? {
      return Fail(received.error);
    }
    var s := CreateBodyStorage(config, counters, directory, received.value, diskWorks);
    counters.IncrementHits(if s.OnDisk? then Disk else Memory);
    r := Ok(s);
  }
}
