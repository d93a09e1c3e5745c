/**
 * src/listener.rs: the raw capture listener. For each accepted connection it
 * picks the first free `<timestamp>.spl` in the executable's directory,
 * creates that file, copies the connection into it in chunks of at most
 * 32 KiB, and logs the saved size and file name; an error is logged and ends
 * the whole stream of connections.
 *
 * The file system is a map from paths to contents (its keys are the names
 * `exists()` sees), a connection is the finite sequence of results its reads
 * return, and the clock reading, the peer address and the failures of
 * `File::create` and `write_all` come with each connection.
 */
module Listener {
  import opened Common
  import opened Decimal
  import Logger

  /** `FileStream::CHUNK_SIZE`. */
  const ChunkSize: nat := 32768

  // ---------------------------------------------------------------------------
  // Paths and file names
  // ---------------------------------------------------------------------------

  /** A path, as its sequence of components. */
  datatype Path = Path(components: seq<string>)

  /** `PathBuf::join` of a single file name. */
  function Join(dir: Path, name: string): Path
  {
    Path(dir.components + [name])
  }

  /** `components().last()`: the last component of a non-empty path. */
  function BaseName(p: Path): string
    requires p.components != []
  {
    p.components[|p.components| - 1]
  }

  /**
   * `env::current_exe().ok().and_then(|p| p.parent())` falls back to
   * `PathBuf::new()`, the empty path, when there is no such directory.
   */
  function ExeDir(exeParent: Option<Path>): Path
  {
    if exeParent.Some? then exeParent.value else Path([])
  }

  /** The capture file for a timestamp: `<dir>/<timestamp>.spl`. */
  function SplPath(dir: Path, timestamp: nat): (p: Path)
    ensures p.components != [] && BaseName(p) == Show(timestamp) + ".spl"
    ensures p.components[..|p.components| - 1] == dir.components
  {
    Join(dir, Show(timestamp) + ".spl")
  }

  /** Distinct timestamps give distinct capture files. */
  lemma SplPathInjective(dir: Path, a: nat, b: nat)
    ensures SplPath(dir, a) == SplPath(dir, b) <==> a == b
  {
    if SplPath(dir, a) == SplPath(dir, b) {
      var x, y := Show(a), Show(b);
      assert x + ".spl" == y + ".spl";
      assert |x| == |y|;
      assert x == (x + ".spl")[..|x|] == (y + ".spl")[..|y|] == y;
      ShowInjective(a, b);
    }
  }

  // ---------------------------------------------------------------------------
  // Filename selection (the `loop` computing `filename`)
  // ---------------------------------------------------------------------------

  /** `p` is the capture file of some timestamp at or after `t`. */
  ghost predicate SlotFrom(p: Path, dir: Path, t: nat)
  {
    exists u: nat :: t <= u && p == SplPath(dir, u)
  }

  /** The existing files the search starting at `t` may still run into. */
  ghost function Pending(existing: set<Path>, dir: Path, t: nat): set<Path>
  {
    set p | p in existing && SlotFrom(p, dir, t)
  }

  /** Moving past a taken timestamp leaves one existing file fewer ahead. */
  lemma PendingShrinks(existing: set<Path>, dir: Path, t: nat)
    requires SplPath(dir, t) in existing
    ensures |Pending(existing, dir, t + 1)| < |Pending(existing, dir, t)|
  {
    PendingMonotone(existing, dir, t);
    TakenNotAhead(existing, dir, t);
    assert SlotFrom(SplPath(dir, t), dir, t);
    StrictSubsetSmaller(Pending(existing, dir, t + 1), Pending(existing, dir, t), SplPath(dir, t));
  }

  lemma PendingMonotone(existing: set<Path>, dir: Path, t: nat)
    ensures Pending(existing, dir, t + 1) <= Pending(existing, dir, t)
  {
    forall p | p in Pending(existing, dir, t + 1) ensures p in Pending(existing, dir, t) {
      var u: nat :| t + 1 <= u && p == SplPath(dir, u);
      assert t <= u;
    }
  }

  lemma TakenNotAhead(existing: set<Path>, dir: Path, t: nat)
    ensures SplPath(dir, t) !in Pending(existing, dir, t + 1)
  {
    forall u: nat | t + 1 <= u ensures SplPath(dir, t) != SplPath(dir, u) {
      SplPathInjective(dir, t, u);
    }
  }

  lemma StrictSubsetSmaller<T>(a: set<T>, b: set<T>, x: T)
    requires a <= b && x in b && x !in a
    ensures |a| < |b|
  {
    assert a <= b - {x};
    SubsetNotLarger(a, b - {x});
  }

  lemma {:induction false} SubsetNotLarger<T>(a: set<T>, b: set<T>)
    requires a <= b
    ensures |a| <= |b|
    decreases a
  {
    if a != {} {
      var y :| y in a;
      SubsetNotLarger(a - {y}, b - {y});
    }
  }

  /**
   * The timestamp the loop settles on: the first one, from `t` on, whose
   * capture file does not exist. The search ends because only finitely many
   * files exist.
   */
  function FirstFree(dir: Path, existing: set<Path>, t: nat): (r: nat)
    ensures t <= r
    ensures SplPath(dir, r) !in existing
    ensures forall u :: t <= u < r ==> SplPath(dir, u) in existing
    ensures SplPath(dir, t) !in existing ==> r == t
    decreases |Pending(existing, dir, t)|
  {
    if SplPath(dir, t) !in existing then t
    else
      PendingShrinks(existing, dir, t);
      FirstFree(dir, existing, t + 1)
  }

  /**
   * Once the first free slot is taken, in a directory that lost no file, the
   * first free slot lies strictly later.
   */
  lemma FirstFreeGrows(dir: Path, existing: set<Path>, more: set<Path>, t: nat)
    requires existing <= more && SplPath(dir, FirstFree(dir, existing, t)) in more
    ensures FirstFree(dir, existing, t) < FirstFree(dir, more, t)
  {
    var r := FirstFree(dir, more, t);
    assert SplPath(dir, r) !in existing;
  }

  /**
   * The filename `loop`: starting from the clock reading, bump the timestamp
   * while `<timestamp>.spl` exists.
   */
  method ChooseFilename(now: nat, exeParent: Option<Path>, existing: set<Path>)
    returns (timestamp: nat, filename: Path)
    ensures timestamp == FirstFree(ExeDir(exeParent), existing, now)
    ensures filename == SplPath(ExeDir(exeParent), timestamp)
  {
    var dir := ExeDir(exeParent);
    timestamp := now;
    while true
      invariant now <= timestamp
      invariant FirstFree(dir, existing, timestamp) == FirstFree(dir, existing, now)
      decreases |Pending(existing, dir, timestamp)|
    {
      var file := Join(dir, Show(timestamp) + ".spl");
      if file !in existing {
        return timestamp, file;
      }
      PendingShrinks(existing, dir, timestamp);
      timestamp := timestamp + 1;
    }
  }

  // ---------------------------------------------------------------------------
  // The connection and `FileStream`
  // ---------------------------------------------------------------------------

  /** An `io::Error`, by its `Display` text. */
  datatype IoError = IoError(message: string)

  /** What one `poll_read` on the connection returns: the bytes it read, or an error. */
  datatype ReadResult = Data(bytes: seq<u8>) | Failed(error: IoError)

  /** `poll_read` never reads more bytes than the buffer holds. */
  predicate WellSized(results: seq<ReadResult>)
  {
    forall i :: 0 <= i < |results| && results[i].Data? ==> |results[i].bytes| <= ChunkSize
  }

  /** What `FileStream::poll` yields: a chunk, the end of the stream, or an error. */
  datatype PollItem = Chunk(bytes: seq<u8>) | EndOfStream | ReadError(error: IoError)

  /**
   * The item `poll` yields for the connection's next read. A connection whose
   * results are used up is closed: it reads 0 bytes.
   */
  function NextItem(results: seq<ReadResult>): (item: PollItem)
    requires WellSized(results)
    ensures item.Chunk? <==> results != [] && results[0].Data? && results[0].bytes != []
    ensures item.Chunk? ==> 0 < |item.bytes| <= ChunkSize && results[0] == Data(item.bytes)
    ensures item == EndOfStream <==> results == [] || results[0] == Data([])
    ensures item.ReadError? ==> results[0] == Failed(item.error)
  {
    if results == [] then EndOfStream
    else match results[0]
      case Failed(e) => ReadError(e)
      case Data(bytes) => if |bytes| > 0 then Chunk(bytes) else EndOfStream
  }

  /** The results left after one `poll`. */
  function Remaining(results: seq<ReadResult>): seq<ReadResult>
  {
    if results == [] then [] else results[1..]
  }

  /** `FileStream`: the connection's reader and one reused 32 KiB buffer. */
  class FileStream {
    const buffer: array<u8>
    /** The results the connection has yet to deliver. */
    var inner: seq<ReadResult>

    ghost predicate Valid()
      reads this
    {
      buffer.Length == ChunkSize && WellSized(inner)
    }

    /** `FileStream::new`: a zero-filled buffer of `CHUNK_SIZE` bytes. */
    constructor (reader: seq<ReadResult>)
      requires WellSized(reader)
      ensures Valid() && inner == reader && fresh(buffer)
    {
      buffer := new u8[ChunkSize](_ => 0);
      inner := reader;
    }

    /**
     * `poll`: read into the buffer; a read of `size > 0` bytes yields the
     * first `size` bytes of the buffer, a read of 0 bytes ends the stream.
     */
    method Poll() returns (item: PollItem)
      requires Valid()
      modifies this, buffer
      ensures Valid()
      ensures item == NextItem(old(inner)) && inner == Remaining(old(inner))
      ensures item.Chunk? ==> item.bytes == buffer[..|item.bytes|]
    {
      var read := if inner == [] then Data([]) else inner[0];
      inner := Remaining(inner);
      match read {
        case Failed(e) =>
          item := ReadError(e);
        case Data(bytes) =>
          forall i | 0 <= i < |bytes| {
            buffer[i] := bytes[i];
          }
          var size := |bytes|;
          if size > 0 {
            item := Chunk(buffer[0..size]);
          } else {
            item := EndOfStream;
          }
      }
    }
  }

  /** Everything `FileStream` yields before it ends: its chunks, and the read error that stopped it. */
  datatype Drained = Drained(chunks: seq<seq<u8>>, error: Option<IoError>)

  function Drain(results: seq<ReadResult>): (d: Drained)
    ensures forall i :: 0 <= i < |d.chunks| ==> d.chunks[i] != []
  {
    if results == [] then Drained([], None)
    else match results[0]
      case Failed(e) => Drained([], Some(e))
      case Data(bytes) =>
        if bytes == [] then Drained([], None)
        else
          var rest := Drain(results[1..]);
          Drained([bytes] + rest.chunks, rest.error)
  }

  /** The chunks laid end to end, in order. */
  function Concat(chunks: seq<seq<u8>>): seq<u8>
  {
    if chunks == [] then [] else chunks[0] + Concat(chunks[1..])
  }

  // ---------------------------------------------------------------------------
  // The file system and the `fold` that copies the stream into the file
  // ---------------------------------------------------------------------------

  /**
   * A failing `write_all`: the chunk number it happens at, how many bytes of
   * that chunk reached the file first, and the error.
   */
  datatype WriteFault = WriteFault(atChunk: nat, written: nat, error: IoError)

  /**
   * The bytes one `write_all` puts in the file. It succeeds as soon as the
   * buffer is used up, so a failing one has written a strict prefix of a
   * non-empty chunk: `written` counts at most `|bytes| - 1` of them.
   */
  function Written(bytes: seq<u8>, fault: Option<WriteFault>): (w: seq<u8>)
    ensures fault.None? ==> w == bytes
    ensures |w| <= |bytes| && w == bytes[..|w|]
    ensures fault.Some? && bytes != [] ==> |w| < |bytes|
    ensures fault.Some? && fault.value.written < |bytes| ==> |w| == fault.value.written
  {
    if fault.None? then bytes
    else if bytes == [] then []
    else bytes[..if fault.value.written < |bytes| then fault.value.written else |bytes| - 1]
  }

  /** The write fault, if any, that strikes chunk number `k`. */
  function FaultFor(writeFault: Option<WriteFault>, k: nat): Option<WriteFault>
  {
    if writeFault.Some? && writeFault.value.atChunk == k then writeFault else None
  }

  /** The directory the capture files go to. */
  class Disk {
    var files: map<Path, seq<u8>>

    constructor (files: map<Path, seq<u8>>)
      ensures this.files == files
    {
      this.files := files;
    }

    /** `File::create`: an empty file (truncating one that exists), unless it fails. */
    method Create(path: Path, fault: Option<IoError>) returns (error: Option<IoError>)
      modifies this
      ensures error == fault
      ensures files == if fault.None? then old(files)[path := []] else old(files)
    {
      error := fault;
      if fault.None? {
        files := files[path := []];
      }
    }

    /** `write_all`: append the bytes, or the part of them written before the fault. */
    method WriteAll(path: Path, bytes: seq<u8>, fault: Option<WriteFault>) returns (error: Option<IoError>)
      requires path in files
      modifies this
      ensures files == old(files)[path := old(files)[path] + Written(bytes, fault)]
      ensures error == if fault.Some? then Some(fault.value.error) else None
    {
      files := files[path := files[path] + Written(bytes, fault)];
      error := if fault.Some? then Some(fault.value.error) else None;
    }
  }

  /** What the `fold` adds to the file, and the error it ends with, if any. */
  datatype Copied = Copied(data: seq<u8>, error: Option<IoError>)

  /** The `fold` from chunk number `k` on: write each chunk the stream yields, in order. */
  function CopySpec(results: seq<ReadResult>, writeFault: Option<WriteFault>, k: nat): Copied
  {
    if results == [] then Copied([], None)
    else match results[0]
      case Failed(e) => Copied([], Some(e))
      case Data(bytes) =>
        if bytes == [] then Copied([], None)
        else match FaultFor(writeFault, k)
          case Some(f) => Copied(Written(bytes, Some(f)), Some(f.error))
          case None =>
            var rest := CopySpec(results[1..], writeFault, k + 1);
            Copied(bytes + rest.data, rest.error)
  }

  /**
   * A copy that ends without error wrote every chunk the stream yielded, in
   * order, and the stream itself ended at a 0-byte read.
   */
  lemma {:induction false} CopyCompleteIsConcat(results: seq<ReadResult>, writeFault: Option<WriteFault>, k: nat)
    requires CopySpec(results, writeFault, k).error.None?
    ensures CopySpec(results, writeFault, k).data == Concat(Drain(results).chunks)
    ensures Drain(results).error.None?
  {
    if results != [] && results[0].Data? && results[0].bytes != [] {
      CopyCompleteIsConcat(results[1..], writeFault, k + 1);
      var d := Drain(results);
      assert d.chunks[1..] == Drain(results[1..]).chunks;
    }
  }

  /** Whatever happens, the file receives a prefix of the bytes the stream yields. */
  lemma {:induction false} CopyIsPrefix(results: seq<ReadResult>, writeFault: Option<WriteFault>, k: nat)
    ensures var data, all := CopySpec(results, writeFault, k).data, Concat(Drain(results).chunks);
      |data| <= |all| && data == all[..|data|]
  {
    if results != [] && results[0].Data? && results[0].bytes != [] {
      CopyIsPrefix(results[1..], writeFault, k + 1);
      var d := Drain(results);
      assert d.chunks[1..] == Drain(results[1..]).chunks;
      assert Concat(d.chunks) == results[0].bytes + Concat(Drain(results[1..]).chunks);
    }
  }

  /** Without a write fault the copy ends exactly as the stream does. */
  lemma {:induction false} CopyWithoutFault(results: seq<ReadResult>, k: nat)
    ensures CopySpec(results, None, k) == Copied(Concat(Drain(results).chunks), Drain(results).error)
  {
    if results != [] && results[0].Data? && results[0].bytes != [] {
      CopyWithoutFault(results[1..], k + 1);
      var d := Drain(results);
      assert d.chunks[1..] == Drain(results[1..]).chunks;
    }
  }

  /** One step of the `fold`: what `CopySpec` is when the stream yields a chunk. */
  lemma CopyOnChunk(results: seq<ReadResult>, writeFault: Option<WriteFault>, k: nat)
    requires WellSized(results) && NextItem(results).Chunk?
    ensures var bytes := NextItem(results).bytes;
      var fault := FaultFor(writeFault, k);
      var rest := CopySpec(Remaining(results), writeFault, k + 1);
      CopySpec(results, writeFault, k)
        == if fault.Some? then Copied(Written(bytes, fault), Some(fault.value.error))
           else Copied(bytes + rest.data, rest.error)
  {
  }

  /** Appending twice to one file of a directory is appending the two parts at once. */
  lemma AppendTwice(files: map<Path, seq<u8>>, path: Path, start: seq<u8>, done: seq<u8>, more: seq<u8>)
    ensures files[path := start + done][path := start + done + more] == files[path := start + (done + more)]
  {
    assert start + done + more == start + (done + more);
  }

  /** The bytes copied so far followed by what copying the rest yields is the whole `fold`. */
  ghost predicate CopiedSoFar(whole: Copied, done: seq<u8>, rest: Copied)
  {
    whole == Copied(done + rest.data, rest.error)
  }

  /** A chunk copied without fault moves from the rest into what was copied. */
  lemma CopiedStep(whole: Copied, done: seq<u8>, bytes: seq<u8>, cur: Copied, rest: Copied)
    requires CopiedSoFar(whole, done, cur) && cur == Copied(bytes + rest.data, rest.error)
    ensures CopiedSoFar(whole, done + bytes, rest)
  {
    assert done + (bytes + rest.data) == done + bytes + rest.data;
  }

  /** When the rest copies nothing more, what was copied is the whole `fold`. */
  lemma CopiedLast(whole: Copied, done: seq<u8>, rest: Copied)
    requires CopiedSoFar(whole, done, rest) && rest.data == []
    ensures whole == Copied(done, rest.error)
  {
    assert done + [] == done;
  }

  /**
   * The `fold` over the `FileStream`: poll, write the chunk, repeat until the
   * stream ends or a read or write fails.
   */
  method CopyInto(stream: FileStream, disk: Disk, path: Path, writeFault: Option<WriteFault>)
    returns (error: Option<IoError>)
    requires stream.Valid() && path in disk.files
    modifies stream, stream.buffer, disk
    ensures var c := CopySpec(old(stream.inner), writeFault, 0);
      disk.files == old(disk.files)[path := old(disk.files)[path] + c.data] && error == c.error
  {
    ghost var files0 := disk.files;
    ghost var start := disk.files[path];
    ghost var whole := CopySpec(stream.inner, writeFault, 0);
    var k := 0;
    ghost var done: seq<u8> := [];
    assert done + whole.data == whole.data;
    assert start + done == start;
    while true
      invariant stream.Valid() && path in disk.files
      invariant disk.files == files0[path := start + done]
      invariant CopiedSoFar(whole, done, CopySpec(stream.inner, writeFault, k))
      decreases |stream.inner|
    {
      ghost var before := stream.inner;
      var item := stream.Poll();
      match item {
        case EndOfStream =>
          CopiedLast(whole, done, CopySpec(before, writeFault, k));
          return None;
        case ReadError(e) =>
          CopiedLast(whole, done, CopySpec(before, writeFault, k));
          return Some(e);
        case Chunk(bytes) =>
          CopyOnChunk(before, writeFault, k);
          var fault := FaultFor(writeFault, k);
          var e := disk.WriteAll(path, bytes, fault);
          AppendTwice(files0, path, start, done, Written(bytes, fault));
          if e.Some? {
            return e;
          }
          CopiedStep(whole, done, bytes, CopySpec(before, writeFault, k), CopySpec(stream.inner, writeFault, k + 1));
          done := done + bytes;
          k := k + 1;
      }
    }
  }

  // ---------------------------------------------------------------------------
  // One connection, and the stream of connections
  // ---------------------------------------------------------------------------

  /** A line handed to the `log` macros. */
  datatype LogLine = LogLine(level: Logger.Level, message: string)

  /**
   * An accepted connection: the peer address it is logged with, the clock
   * reading in Unix seconds, the results of its reads, and whether
   * `File::create` and a `write_all` fail for it.
   */
  datatype Connection = Connection(peer: string, clock: nat, received: seq<ReadResult>,
                                   createFault: Option<IoError>, writeFault: Option<WriteFault>)

  /** What `listener.incoming()` yields: a connection or an accept error. */
  datatype Incoming = Accepted(conn: Connection) | AcceptFailed(error: IoError)

  /** The files afterwards, the lines logged, and the error that ended the work, if any. */
  datatype Session = Session(files: map<Path, seq<u8>>, log: seq<LogLine>, error: Option<IoError>)

  /** The file a connection is captured into. */
  function CapturePath(files: map<Path, seq<u8>>, exeParent: Option<Path>, conn: Connection): (p: Path)
    ensures p !in files
  {
    SplPath(ExeDir(exeParent), FirstFree(ExeDir(exeParent), files.Keys, conn.clock))
  }

  function IncomingLine(conn: Connection): LogLine
  {
    LogLine(Logger.Info, "Incoming connection from " + conn.peer)
  }

  /** `"Saved {} bytes into {}"` with the file's size and base name. */
  function SavedLine(size: nat, path: Path): LogLine
    requires path.components != []
  {
    LogLine(Logger.Info, "Saved " + Show(size) + " bytes into " + BaseName(path))
  }

  /**
   * The body of the `for_each` closure for one connection: log it, choose the
   * file, create it, copy into it, and log either the saved size and name or
   * the error.
   */
  function CaptureOutcome(files: map<Path, seq<u8>>, exeParent: Option<Path>, conn: Connection): (s: Session)
    ensures forall p :: p in files ==> p in s.files && s.files[p] == files[p]
    ensures s.files.Keys <= files.Keys + {CapturePath(files, exeParent, conn)}
    ensures |s.log| == 2 && s.log[0] == IncomingLine(conn)
    ensures s.error.Some? <==> s.log[1].level == Logger.Warn
    ensures s.error.Some? ==> s.log[1].message == s.error.value.message
  {
    var path := CapturePath(files, exeParent, conn);
    if conn.createFault.Some? then
      Session(files, [IncomingLine(conn), LogLine(Logger.Warn, conn.createFault.value.message)], conn.createFault)
    else
      var c := CopySpec(conn.received, conn.writeFault, 0);
      var saved := files[path := c.data];
      if c.error.Some? then
        Session(saved, [IncomingLine(conn), LogLine(Logger.Warn, c.error.value.message)], c.error)
      else
        Session(saved, [IncomingLine(conn), SavedLine(|c.data|, path)], None)
  }

  /**
   * A connection that was saved without error left the whole stream, in
   * order, in a new file named `<t>.spl`, and the log gives its size in bytes
   * and that base name.
   */
  lemma SavedConnection(files: map<Path, seq<u8>>, exeParent: Option<Path>, conn: Connection)
    requires CaptureOutcome(files, exeParent, conn).error.None?
    ensures var s, path := CaptureOutcome(files, exeParent, conn), CapturePath(files, exeParent, conn);
      var data := Concat(Drain(conn.received).chunks);
      && path !in files && path in s.files && s.files[path] == data
      && s.log[1] == LogLine(Logger.Info, "Saved " + Show(|data|) + " bytes into "
                             + Show(FirstFree(ExeDir(exeParent), files.Keys, conn.clock)) + ".spl")
  {
    CopyCompleteIsConcat(conn.received, conn.writeFault, 0);
  }

  /**
   * A connection that sends nothing still leaves its file, empty, on disk and
   * logs "Saved 0 bytes": this revision never deletes empty captures.
   */
  lemma EmptyConnectionKeepsFile(files: map<Path, seq<u8>>, exeParent: Option<Path>, conn: Connection)
    requires conn.createFault.None?
    requires conn.received == [] || conn.received[0] == Data([])
    ensures var s, path := CaptureOutcome(files, exeParent, conn), CapturePath(files, exeParent, conn);
      && s.error.None? && path in s.files && s.files[path] == []
      && s.log[1].message == "Saved 0 bytes into " + BaseName(path)
  {
    var path := CapturePath(files, exeParent, conn);
    var c := CopySpec(conn.received, conn.writeFault, 0);
    assert c == Copied([], None);
    CaptureCases(files, exeParent, conn, path, c);
    assert Show(0) == "0";
    assert "Saved " + "0" + " bytes into " == "Saved 0 bytes into ";
  }

  /**
   * A failed read or write is logged and returned, and the partly written
   * file stays on disk holding a prefix of the stream.
   */
  lemma FailedCopyKeepsPartialFile(files: map<Path, seq<u8>>, exeParent: Option<Path>, conn: Connection)
    requires conn.createFault.None?
    requires CopySpec(conn.received, conn.writeFault, 0).error.Some?
    ensures var s, path := CaptureOutcome(files, exeParent, conn), CapturePath(files, exeParent, conn);
      var data, all := s.files[path], Concat(Drain(conn.received).chunks);
      && s.error == CopySpec(conn.received, conn.writeFault, 0).error
      && path in s.files && |data| <= |all| && data == all[..|data|]
  {
    CopyIsPrefix(conn.received, conn.writeFault, 0);
  }

  /**
   * A second connection in the same second does not reuse the first one's
   * file: it gets a later timestamp.
   */
  lemma SameSecondGetsLaterTimestamp(files: map<Path, seq<u8>>, exeParent: Option<Path>, first: Connection, second: Connection)
    requires first.createFault.None? && second.clock == first.clock
    ensures var dir := ExeDir(exeParent); var after := CaptureOutcome(files, exeParent, first).files;
      FirstFree(dir, files.Keys, first.clock) < FirstFree(dir, after.Keys, second.clock)
  {
    var dir := ExeDir(exeParent);
    var path := CapturePath(files, exeParent, first);
    CaptureCases(files, exeParent, first, path, CopySpec(first.received, first.writeFault, 0));
    var after := CaptureOutcome(files, exeParent, first).files;
    FirstFreeGrows(dir, files.Keys, after.Keys, first.clock);
  }

  /**
   * `listener.incoming().for_each(..)` from connection number `i` on: handle
   * the connections one after another; the first accept error or failed
   * connection ends the stream.
   */
  function ServeOutcome(files: map<Path, seq<u8>>, exeParent: Option<Path>, incoming: seq<Incoming>, i: nat): Session
    requires i <= |incoming|
    decreases |incoming| - i
  {
    if i == |incoming| then Session(files, [], None)
    else match incoming[i]
      case AcceptFailed(e) => Session(files, [], Some(e))
      case Accepted(conn) =>
        var s := CaptureOutcome(files, exeParent, conn);
        if s.error.Some? then s
        else
          var rest := ServeOutcome(s.files, exeParent, incoming, i + 1);
          Session(rest.files, s.log + rest.log, rest.error)
  }

  /** Once a connection fails, the connections after it are never handled. */
  lemma {:induction false} ServeStopsAtError(files: map<Path, seq<u8>>, exeParent: Option<Path>,
                                             handled: seq<Incoming>, later: seq<Incoming>, i: nat)
    requires i <= |handled|
    requires ServeOutcome(files, exeParent, handled, i).error.Some?
    ensures ServeOutcome(files, exeParent, handled + later, i) == ServeOutcome(files, exeParent, handled, i)
    decreases |handled| - i
  {
    assert i < |handled|;
    assert (handled + later)[i] == handled[i];
    match handled[i]
    case AcceptFailed(e) =>
    case Accepted(conn) =>
      var s := CaptureOutcome(files, exeParent, conn);
      if s.error.None? {
        ServeStopsAtError(s.files, exeParent, handled, later, i + 1);
      }
  }

  /** Serving never changes or removes a file that existed before. */
  lemma {:induction false} ServeKeepsExistingFiles(files: map<Path, seq<u8>>, exeParent: Option<Path>,
                                                   incoming: seq<Incoming>, i: nat)
    requires i <= |incoming|
    ensures var s := ServeOutcome(files, exeParent, incoming, i);
      forall p :: p in files ==> p in s.files && s.files[p] == files[p]
    decreases |incoming| - i
  {
    if i < |incoming| && incoming[i].Accepted? {
      var s := CaptureOutcome(files, exeParent, incoming[i].conn);
      if s.error.None? {
        ServeKeepsExistingFiles(s.files, exeParent, incoming, i + 1);
      }
    }
  }

  const StartedLine: LogLine := LogLine(Logger.Info, "Started listener on port 9100")

  /**
   * `start_raw_listener`: bind port 9100, then serve; whatever error ends the
   * future, a bind error or the one that ended the stream, is logged once
   * more by the outer `map_err`.
   */
  function ListenerOutcome(files: map<Path, seq<u8>>, exeParent: Option<Path>,
                           bindFault: Option<IoError>, incoming: seq<Incoming>): (s: Session)
    ensures bindFault.Some? ==> s == Session(files, [LogLine(Logger.Warn, bindFault.value.message)], bindFault)
    ensures |s.log| >= 1
    ensures bindFault.None? ==> s.log[0] == StartedLine
    ensures s.error.Some? ==> s.log[|s.log| - 1] == LogLine(Logger.Warn, s.error.value.message)
  {
    if bindFault.Some? then Session(files, [LogLine(Logger.Warn, bindFault.value.message)], bindFault)
    else
      var s := ServeOutcome(files, exeParent, incoming, 0);
      var tail := if s.error.Some? then [LogLine(Logger.Warn, s.error.value.message)] else [];
      Session(s.files, [StartedLine] + s.log + tail, s.error)
  }

  /** The closure passed to `for_each`, run for one accepted connection. */
  method HandleConnection(disk: Disk, exeParent: Option<Path>, conn: Connection)
    returns (log: seq<LogLine>, error: Option<IoError>)
    requires WellSized(conn.received)
    modifies disk
    ensures var s := CaptureOutcome(old(disk.files), exeParent, conn);
      disk.files == s.files && log == s.log && error == s.error
  {
    ghost var files := disk.files;
    log := [IncomingLine(conn)];
    var timestamp, filename := ChooseFilename(conn.clock, exeParent, disk.files.Keys);
    CaptureSteps(files, exeParent, conn, filename);
    error := disk.Create(filename, conn.createFault);
    if error.Some? {
      log := log + [LogLine(Logger.Warn, error.value.message)];
      return;
    }
    var stream := new FileStream(conn.received);
    error := CopyInto(stream, disk, filename, conn.writeFault);
    if error.Some? {
      log := log + [LogLine(Logger.Warn, error.value.message)];
      return;
    }
    var size := |disk.files[filename]|;
    log := log + [SavedLine(size, filename)];
  }

  /** `CaptureOutcome` case by case, for the path and the `fold` result given. */
  lemma CaptureCases(files: map<Path, seq<u8>>, exeParent: Option<Path>, conn: Connection, path: Path, c: Copied)
    requires path == CapturePath(files, exeParent, conn) && c == CopySpec(conn.received, conn.writeFault, 0)
    ensures var s := CaptureOutcome(files, exeParent, conn);
      && (conn.createFault.Some? ==>
            s == Session(files, [IncomingLine(conn), LogLine(Logger.Warn, conn.createFault.value.message)], conn.createFault))
      && (conn.createFault.None? && c.error.Some? ==>
            s == Session(files[path := c.data], [IncomingLine(conn), LogLine(Logger.Warn, c.error.value.message)], c.error))
      && (conn.createFault.None? && c.error.None? ==>
            s == Session(files[path := c.data], [IncomingLine(conn), SavedLine(|c.data|, path)], None))
  {
  }

  /** `CaptureOutcome` in the steps `HandleConnection` takes: create the file empty, then append the `fold`. */
  lemma CaptureSteps(files: map<Path, seq<u8>>, exeParent: Option<Path>, conn: Connection, path: Path)
    requires path == CapturePath(files, exeParent, conn)
    ensures var s, c := CaptureOutcome(files, exeParent, conn), CopySpec(conn.received, conn.writeFault, 0);
      var written := files[path := []][path := [] + c.data];
      && (conn.createFault.Some? ==>
            s == Session(files, [IncomingLine(conn)] + [LogLine(Logger.Warn, conn.createFault.value.message)], conn.createFault))
      && (conn.createFault.None? && c.error.Some? ==>
            s == Session(written, [IncomingLine(conn)] + [LogLine(Logger.Warn, c.error.value.message)], c.error))
      && (conn.createFault.None? && c.error.None? ==>
            s == Session(written, [IncomingLine(conn)] + [SavedLine(|written[path]|, path)], None))
  {
    var c := CopySpec(conn.received, conn.writeFault, 0);
    CaptureCases(files, exeParent, conn, path, c);
    assert [] + c.data == c.data;
    Overwrite(files, path, [], c.data);
    var line := if conn.createFault.Some? then LogLine(Logger.Warn, conn.createFault.value.message)
                else if c.error.Some? then LogLine(Logger.Warn, c.error.value.message)
                else SavedLine(|c.data|, path);
    assert [IncomingLine(conn)] + [line] == [IncomingLine(conn), line];
  }

  /** Writing a file twice leaves only the second contents. */
  lemma Overwrite(files: map<Path, seq<u8>>, path: Path, first: seq<u8>, second: seq<u8>)
    ensures files[path := first][path := second] == files[path := second]
  {
  }

  /** Every accepted connection's results respect `poll_read`'s bound. */
  predicate AllWellSized(incoming: seq<Incoming>)
  {
    forall i :: 0 <= i < |incoming| && incoming[i].Accepted? ==> WellSized(incoming[i].conn.received)
  }

  /** `start_raw_listener`, driven over a finite sequence of accept results. */
  method StartRawListener(disk: Disk, exeParent: Option<Path>, bindFault: Option<IoError>, incoming: seq<Incoming>)
    returns (log: seq<LogLine>, error: Option<IoError>)
    requires AllWellSized(incoming)
    modifies disk
    ensures var s := ListenerOutcome(old(disk.files), exeParent, bindFault, incoming);
      disk.files == s.files && log == s.log && error == s.error
  {
    if bindFault.Some? {
      return [LogLine(Logger.Warn, bindFault.value.message)], bindFault;
    }
    ghost var whole := ServeOutcome(disk.files, exeParent, incoming, 0);
    var served: seq<LogLine> := [];
    error := None;
    var i := 0;
    while i < |incoming| && error.None?
      invariant 0 <= i <= |incoming|
      invariant error.None? ==> ServedSoFar(whole, served, ServeOutcome(disk.files, exeParent, incoming, i))
      invariant error.Some? ==> whole == Session(disk.files, served, error)
      decreases |incoming| - i, if error.None? then 1 else 0
    {
      ghost var files := disk.files;
      match incoming[i] {
        case AcceptFailed(e) =>
          ServeFailedAccept(files, exeParent, incoming, i, whole, served);
          error := Some(e);
        case Accepted(conn) =>
          var lines, e := HandleConnection(disk, exeParent, conn);
          ServeAccepted(files, exeParent, incoming, i, disk.files, lines, e);
          if e.None? {
            ServedStep(whole, served, lines, ServeOutcome(files, exeParent, incoming, i),
                       ServeOutcome(disk.files, exeParent, incoming, i + 1));
          }
          served := served + lines;
          error := e;
          i := i + 1;
      }
    }
    log := [StartedLine] + served;
    if error.Some? {
      log := log + [LogLine(Logger.Warn, error.value.message)];
    }
  }

  /** The log so far followed by what serving the rest yields is the whole outcome. */
  ghost predicate ServedSoFar(whole: Session, served: seq<LogLine>, rest: Session)
  {
    whole == Session(rest.files, served + rest.log, rest.error)
  }

  /** An accept error at connection number `i` ends the stream there. */
  lemma ServeFailedAccept(files: map<Path, seq<u8>>, exeParent: Option<Path>, incoming: seq<Incoming>, i: nat,
                          whole: Session, served: seq<LogLine>)
    requires i < |incoming| && incoming[i].AcceptFailed?
    requires ServedSoFar(whole, served, ServeOutcome(files, exeParent, incoming, i))
    ensures whole == Session(files, served, Some(incoming[i].error))
  {
    assert served + [] == served;
  }

  lemma ServeAccepted(files: map<Path, seq<u8>>, exeParent: Option<Path>, incoming: seq<Incoming>, i: nat,
                      after: map<Path, seq<u8>>, lines: seq<LogLine>, error: Option<IoError>)
    requires i < |incoming| && incoming[i].Accepted?
    requires CaptureOutcome(files, exeParent, incoming[i].conn) == Session(after, lines, error)
    ensures error.Some? ==> ServeOutcome(files, exeParent, incoming, i) == Session(after, lines, error)
    ensures error.None? ==> var rest := ServeOutcome(after, exeParent, incoming, i + 1);
      ServeOutcome(files, exeParent, incoming, i) == Session(rest.files, lines + rest.log, rest.error)
  {
  }

  lemma ServedStep(whole: Session, served: seq<LogLine>, lines: seq<LogLine>, cur: Session, rest: Session)
    requires ServedSoFar(whole, served, cur)
    requires cur == Session(rest.files, lines + rest.log, rest.error)
    ensures ServedSoFar(whole, served + lines, rest)
  {
    assert served + (lines + rest.log) == served + lines + rest.log;
  }
}
