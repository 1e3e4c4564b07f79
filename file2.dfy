/**
 * The read-only "file://" source: a path-containment walk that compares
 * filesystem identities, a regular-file check, the gate that turns their
 * outcome into an error code, and the loop that reads each block range into
 * a chunk and prepends it to the request's chunk list.
 */
module File2 {
  import opened Posix

  /** Resource specs this source claims start with this scheme. */
  const Prefix: string := "file://"

  /** The containment walk gives up after this many steps. */
  const MaxPathDepth: nat := 1000

  /** One block-aligned range [x, y) of byte offsets, as the range library hands it out. */
  datatype Range = Range(x: nat, y: nat)

  /** Ranges keep start <= end. */
  type Block = r: Range | r.x <= r.y witness Range(0, 0)

  /** A chunk handed upstream: its file offset, the bytes read and the end-of-file flag. */
  datatype Chunk = Chunk(offset: int, data: seq<byte>, partial: bool)

  /** The descriptor operations a request performs, in order. */
  datatype Syscall =
    | SysOpen(path: string)
    | SysSeek(offset: int)
    | SysRead(offset: int, len: int)
    | SysClose

  // ---------------------------------------------------------------------
  // Containment walk
  // ---------------------------------------------------------------------

  /** The path the walk stats at step i: `dir` followed by i copies of "../". */
  function Up(dir: string, i: nat): string
  {
    if i == 0 then dir else Up(dir, i - 1) + "../"
  }

  /** The identity stat reports at step i, or None when that stat fails. */
  function StepId(fs: FileSystem, dir: string, i: nat): Option<Ident>
  {
    match Stat(fs, Up(dir, i))
    case None => None
    case Some(st) => Some(st.id)
  }

  /** Step i neither fails nor stops the walk: it is neither "/" nor the root. */
  predicate Passes(fs: FileSystem, slash: Ident, top: Ident, dir: string, i: nat)
  {
    var s := StepId(fs, dir, i);
    s.Some? && s.value != slash && s.value != top
  }

  /** Step i accepts: it has the root's identity and the "/" test did not fire first. */
  predicate Reaches(fs: FileSystem, slash: Ident, top: Ident, dir: string, i: nat)
  {
    StepId(fs, dir, i) == Some(top) && top != slash
  }

  /** Some step below the depth bound accepts, and every step before it passes. */
  ghost predicate WalkReaches(fs: FileSystem, slash: Ident, top: Ident, dir: string)
  {
    exists i: nat :: i < MaxPathDepth && Reaches(fs, slash, top, dir, i) &&
      forall j: nat :: j < i ==> Passes(fs, slash, top, dir, j)
  }

  /**
   * `dir` lies within `root`: "/" and `root` both stat, and walking up from
   * `dir` meets the identity of `root` within MaxPathDepth steps without a
   * failed stat and without meeting the identity of "/" first.
   */
  ghost predicate Contained(fs: FileSystem, root: string, dir: string)
  {
    match (Stat(fs, "/"), Stat(fs, root))
    case (Some(s), Some(t)) => WalkReaches(fs, s.id, t.id, dir)
    case _ => false
  }

  /** A walk that stops at step i (a failed stat, or "/") after passing every earlier step rejects. */
  lemma WalkStopsAt(fs: FileSystem, slash: Ident, top: Ident, dir: string, i: nat)
    requires forall j: nat :: j < i ==> Passes(fs, slash, top, dir, j)
    requires StepId(fs, dir, i).None? || StepId(fs, dir, i) == Some(slash)
    ensures !WalkReaches(fs, slash, top, dir)
  {
    // No earlier step accepts, since each of them passes ...
    forall w: nat | w < i
      ensures !Reaches(fs, slash, top, dir, w)
    {
      assert Passes(fs, slash, top, dir, w);
    }
    // ... step i does not accept, and no later step is ever reached.
    assert !Reaches(fs, slash, top, dir, i);
    assert !Passes(fs, slash, top, dir, i);
  }

  /** A walk whose MaxPathDepth steps all pass rejects, whatever a deeper step would find. */
  lemma WalkExhausted(fs: FileSystem, slash: Ident, top: Ident, dir: string)
    requires forall j: nat :: j < MaxPathDepth ==> Passes(fs, slash, top, dir, j)
    ensures !WalkReaches(fs, slash, top, dir)
  {
    forall w: nat | w < MaxPathDepth
      ensures !Reaches(fs, slash, top, dir, w)
    {
      assert Passes(fs, slash, top, dir, w);
    }
  }

  /**
   * track_path_main(root, dir): 1 (true) when `dir` is contained in `root`.
   */
  method TrackPathMain(fs: FileSystem, root: string, dir: string) returns (contained: bool)
    ensures contained == Contained(fs, root, dir)
  {
    var slash := Stat(fs, "/");
    if slash.None? { return false; }
    var top := Stat(fs, root);
    if top.None? { return false; }
    var s, t := slash.value.id, top.value.id;
    var cur := dir;
    var i: nat := 0;
    while i < MaxPathDepth
      invariant i <= MaxPathDepth
      invariant cur == Up(dir, i)
      invariant forall j: nat :: j < i ==> Passes(fs, s, t, dir, j)
    {
      var st := Stat(fs, cur);
      if st.None? {
        WalkStopsAt(fs, s, t, dir, i);
        return false;
      }
      if st.value.id == s {
        WalkStopsAt(fs, s, t, dir, i);
        return false;
      }
      if st.value.id == t {
        assert Reaches(fs, s, t, dir, i);
        return true;
      }
      cur := cur + "../";
      i := i + 1;
    }
    WalkExhausted(fs, s, t, dir);
    return false;
  }

  /** A failed stat of "/" or of the root rejects before the walk starts. */
  lemma StartFailureRejects(fs: FileSystem, root: string, dir: string)
    requires Stat(fs, "/").None? || Stat(fs, root).None?
    ensures !Contained(fs, root, dir)
  {
  }

  /**
   * Once the walk has passed steps 0 .. i-1, a failed stat at step i, or
   * meeting the identity of "/" at step i, rejects.
   */
  lemma StepFailureRejects(fs: FileSystem, root: string, dir: string, i: nat)
    requires Stat(fs, "/").Some? && Stat(fs, root).Some?
    requires forall j: nat :: j < i ==> Passes(fs, Stat(fs, "/").value.id, Stat(fs, root).value.id, dir, j)
    requires StepId(fs, dir, i).None? || StepId(fs, dir, i) == Some(Stat(fs, "/").value.id)
    ensures !Contained(fs, root, dir)
  {
    WalkStopsAt(fs, Stat(fs, "/").value.id, Stat(fs, root).value.id, dir, i);
  }

  /** The "/" test comes first, so a root with the identity of "/" contains nothing. */
  lemma SlashRootContainsNothing(fs: FileSystem, root: string, dir: string)
    requires Stat(fs, "/").Some? && Stat(fs, root).Some?
    requires Stat(fs, "/").value.id == Stat(fs, root).value.id
    ensures !Contained(fs, root, dir)
  {
  }

  /** Step 0 counts: a directory with the root's identity (other than "/") is contained. */
  lemma RootItselfContained(fs: FileSystem, root: string, dir: string)
    requires Stat(fs, "/").Some? && Stat(fs, root).Some? && Stat(fs, dir).Some?
    requires Stat(fs, dir).value.id == Stat(fs, root).value.id
    requires Stat(fs, root).value.id != Stat(fs, "/").value.id
    ensures Contained(fs, root, dir)
  {
    assert Reaches(fs, Stat(fs, "/").value.id, Stat(fs, root).value.id, dir, 0);
  }

  /**
   * Bounded and fail-closed: when the first MaxPathDepth steps all pass,
   * `dir` is not contained, even if the next step would reach the root.
   */
  lemma DepthBoundRejects(fs: FileSystem, root: string, dir: string)
    requires Stat(fs, "/").Some? && Stat(fs, root).Some?
    requires forall j: nat :: j < MaxPathDepth ==>
      Passes(fs, Stat(fs, "/").value.id, Stat(fs, root).value.id, dir, j)
    ensures !Contained(fs, root, dir)
  {
    WalkExhausted(fs, Stat(fs, "/").value.id, Stat(fs, root).value.id, dir);
  }

  // ---------------------------------------------------------------------
  // Regular-file check
  // ---------------------------------------------------------------------

  /** is_regular(dir, file): stat of dir + "/" + file succeeds and reports a regular file. */
  function IsRegular(fs: FileSystem, dir: string, file: string): (r: bool)
    ensures r <==> dir + "/" + file in fs.stats && fs.stats[dir + "/" + file].isRegular
  {
    match Stat(fs, dir + "/" + file)
    case None => false
    case Some(st) => st.isRegular
  }

  // ---------------------------------------------------------------------
  // Block reads
  // ---------------------------------------------------------------------

  /** The error with which a request for a block at `start` fails: the seek's, else the read's. */
  function BlockFault(fs: FileSystem, start: int): (r: Option<Errno>)
    ensures Lseek(fs, start).Some? ==> r == Lseek(fs, start)
    ensures Lseek(fs, start).None? ==> r == ReadFault(fs, start)
    ensures r.None? ==> 0 <= start
  {
    match Lseek(fs, start)
    case Some(e) => Some(e)
    case None => ReadFault(fs, start)
  }

  /** The descriptor operations one request for `len` bytes at `start` performs. */
  function BlockIo(fs: FileSystem, start: int, len: int): seq<Syscall>
  {
    if Lseek(fs, start).Some? then [SysSeek(start)] else [SysSeek(start), SysRead(start, len)]
  }

  /**
   * The chunk a successful request for `len` bytes at `start` produces: it
   * sits at `start`, holds the file's bytes there, never more than asked
   * for, and is partial exactly when it is short, which happens only at the
   * end of the file.
   */
  function ChunkFor(data: seq<byte>, start: nat, len: nat): (c: Chunk)
    ensures c.offset == start && |c.data| <= len
    ensures c.partial <==> |c.data| < len
    ensures c.partial ==> start + |c.data| >= |data|
    ensures c.data != [] ==> start + |c.data| <= |data|
    ensures forall k :: 0 <= k < |c.data| ==> c.data[k] == data[start + k]
  {
    var bytes := Bytes(data, start, len);
    Chunk(start, bytes, |bytes| < len)
  }

  /** The chunk a successful request for range `b` produces. */
  function ChunkOf(data: seq<byte>, b: Block): Chunk
  {
    ChunkFor(data, b.x, b.y - b.x)
  }

  /** The chunk list after the first n ranges of `bs` were read in order, each chunk prepended. */
  function Chunks(data: seq<byte>, bs: seq<Block>, n: nat): seq<Chunk>
    requires n <= |bs|
  {
    if n == 0 then [] else [ChunkOf(data, bs[n - 1])] + Chunks(data, bs, n - 1)
  }

  /** Reading n ranges yields one chunk per range. */
  lemma {:induction false} ChunksLength(data: seq<byte>, bs: seq<Block>, n: nat)
    requires n <= |bs|
    ensures |Chunks(data, bs, n)| == n
  {
    if n > 0 {
      ChunksLength(data, bs, n - 1);
    }
  }

  /** The j-th chunk of the list is the chunk of the j-th range read, counting from the last. */
  lemma {:induction false} ChunkAt(data: seq<byte>, bs: seq<Block>, n: nat, j: nat)
    requires j < n <= |bs|
    ensures |Chunks(data, bs, n)| == n
    ensures Chunks(data, bs, n)[j] == ChunkOf(data, bs[n - 1 - j])
  {
    ChunksLength(data, bs, n);
    if j > 0 {
      ChunkAt(data, bs, n - 1, j - 1);
    }
  }

  /** Chunks come newest first: the list is the ranges' chunks in reverse reading order. */
  lemma ChunksNewestFirst(data: seq<byte>, bs: seq<Block>, n: nat)
    requires n <= |bs|
    ensures |Chunks(data, bs, n)| == n
    ensures forall j :: 0 <= j < n ==> Chunks(data, bs, n)[j] == ChunkOf(data, bs[n - 1 - j])
  {
    ChunksLength(data, bs, n);
    forall j | 0 <= j < n
      ensures Chunks(data, bs, n)[j] == ChunkOf(data, bs[n - 1 - j])
    {
      ChunkAt(data, bs, n, j);
    }
  }

  /** A non-empty range that runs past the end of the file yields a partial chunk. */
  lemma PastEndIsPartial(data: seq<byte>, start: nat, len: nat)
    requires 0 < len && |data| < start + len
    ensures ChunkFor(data, start, len).partial
  {
    var c := ChunkFor(data, start, len);
    if 0 < |c.data| {
      assert start + (|c.data| - 1) < |data|;
    }
  }

  /** Chunk `c` holds exactly the bytes of `data` at its offset. */
  predicate FromFile(data: seq<byte>, c: Chunk)
  {
    0 <= c.offset &&
    (c.data != [] ==> c.offset + |c.data| <= |data|) &&
    forall k :: 0 <= k < |c.data| ==> c.data[k] == data[c.offset + k]
  }

  /** Every chunk of a request holds exactly the file's bytes at its offset. */
  lemma ChunksMatchFile(data: seq<byte>, bs: seq<Block>, n: nat)
    requires n <= |bs|
    ensures forall c <- Chunks(data, bs, n) :: FromFile(data, c)
  {
    ChunksNewestFirst(data, bs, n);
    var cs := Chunks(data, bs, n);
    forall j | 0 <= j < |cs|
      ensures FromFile(data, cs[j])
    {
      var b := bs[n - 1 - j];
      var c := ChunkFor(data, b.x, b.y - b.x);
      assert cs[j] == ChunkOf(data, b) == c;
    }
  }

  /** The descriptor operations of reading the first n ranges of `bs` in order. */
  function LoopIo(fs: FileSystem, bs: seq<Block>, n: nat): seq<Syscall>
    requires n <= |bs|
  {
    if n == 0 then [] else LoopIo(fs, bs, n - 1) + BlockIo(fs, bs[n - 1].x, bs[n - 1].y - bs[n - 1].x)
  }

  /**
   * The index of the first range whose request fails, or |bs| when none
   * does: the loop reads exactly the ranges before it.
   */
  function FirstFault(fs: FileSystem, bs: seq<Block>): (k: nat)
    ensures k <= |bs|
    ensures forall j :: 0 <= j < k ==> BlockFault(fs, bs[j].x).None?
    ensures k < |bs| ==> BlockFault(fs, bs[k].x).Some?
  {
    if bs == [] then 0
    else if BlockFault(fs, bs[0].x).Some? then 0
    else 1 + FirstFault(fs, bs[1..])
  }

  /** The number of ranges the loop issues a request for: up to and including the failing one. */
  function Attempted(fs: FileSystem, bs: seq<Block>): nat
  {
    var k := FirstFault(fs, bs);
    if k < |bs| then k + 1 else k
  }

  /** How many times a trace closes a descriptor. */
  function Closes(io: seq<Syscall>): nat
  {
    if io == [] then 0 else (if io[0].SysClose? then 1 else 0) + Closes(io[1..])
  }

  lemma {:induction false} ClosesAppend(a: seq<Syscall>, b: seq<Syscall>)
    ensures Closes(a + b) == Closes(a) + Closes(b)
  {
    if a == [] {
      assert a + b == b;
    } else {
      assert (a + b)[1..] == a[1..] + b;
      ClosesAppend(a[1..], b);
    }
  }

  /** Reading ranges never closes the descriptor. */
  lemma {:induction false} LoopIoNeverCloses(fs: FileSystem, bs: seq<Block>, n: nat)
    requires n <= |bs|
    ensures Closes(LoopIo(fs, bs, n)) == 0
  {
    if n > 0 {
      var b := bs[n - 1];
      LoopIoNeverCloses(fs, bs, n - 1);
      ClosesAppend(LoopIo(fs, bs, n - 1), BlockIo(fs, b.x, b.y - b.x));
      var seek, read := SysSeek(b.x), SysRead(b.x, b.y - b.x);
      assert Closes([read]) == 0 by { assert [read][1..] == []; }
      assert Closes([seek, read]) == 0 by { assert [seek, read][1..] == [read]; }
      assert Closes([seek]) == 0 by { assert [seek][1..] == []; }
    }
  }

  /**
   * do_request(fd, ss, start, len, &ck) on a descriptor over `data`: seek to
   * `start`, read up to `len` bytes, and on success prepend one chunk to
   * `ck` and return 0; on a failed seek or read return its error and leave
   * `ck` as it was.
   */
  method DoRequest(fs: FileSystem, data: seq<byte>, start: int, len: int, ck: seq<Chunk>)
    returns (err: int, ck': seq<Chunk>, io: seq<Syscall>)
    requires 0 <= len
    ensures io == BlockIo(fs, start, len)
    ensures err == 0 <==> BlockFault(fs, start).None?
    ensures err != 0 ==> 0 < err && BlockFault(fs, start) == Some(err as Errno) && ck' == ck
    ensures err == 0 ==> 0 <= start && ck' == [ChunkFor(data, start, len)] + ck
  {
    io := [SysSeek(start)];
    var seek := Lseek(fs, start);
    if seek.None? {
      var n := ReadAll(fs, data, start, len);
      io := io + [SysRead(start, len)];
      if n.Err? {
        return n.errno, ck, io;
      }
      return 0, [Chunk(start, n.value, |n.value| < len)] + ck, io;
    } else {
      return seek.value, ck, io;
    }
  }

  /** The first failing range is the one at which the loop stops. */
  lemma FirstFaultAt(fs: FileSystem, bs: seq<Block>, i: nat)
    requires i <= |bs|
    requires forall j :: 0 <= j < i ==> BlockFault(fs, bs[j].x).None?
    requires i < |bs| ==> BlockFault(fs, bs[i].x).Some?
    ensures FirstFault(fs, bs) == i
    ensures Attempted(fs, bs) == if i < |bs| then i + 1 else i
  {
  }

  /** A range that succeeds before the first failure puts the first failure after it. */
  lemma PastClean(fs: FileSystem, bs: seq<Block>, i: nat)
    requires i < |bs| && i <= FirstFault(fs, bs)
    requires BlockFault(fs, bs[i].x).None?
    ensures i + 1 <= FirstFault(fs, bs)
  {
  }

  /** A failing range reached with no failure before it is the first failure. */
  lemma StopsAt(fs: FileSystem, bs: seq<Block>, i: nat)
    requires i < |bs| && i <= FirstFault(fs, bs)
    requires BlockFault(fs, bs[i].x).Some?
    ensures FirstFault(fs, bs) == i && Attempted(fs, bs) == i + 1
  {
  }

  /** One more successful range prepends its chunk and appends its seek and read. */
  lemma RangeStep(fs: FileSystem, data: seq<byte>, bs: seq<Block>, i: nat)
    requires i < |bs|
    ensures Chunks(data, bs, i + 1) == [ChunkFor(data, bs[i].x, bs[i].y - bs[i].x)] + Chunks(data, bs, i)
    ensures LoopIo(fs, bs, i + 1) == LoopIo(fs, bs, i) + BlockIo(fs, bs[i].x, bs[i].y - bs[i].x)
  {
  }

  /**
   * The while loop of file_read over the request's ranges on a descriptor
   * over `data`: one do_request per range, in order, threading the chunk
   * list; the first failure writes its error into the error slot and ends
   * the loop, keeping the chunks already built.
   */
  method ReadRanges(fs: FileSystem, data: seq<byte>, blocks: seq<Block>, failedErrno: int)
    returns (ck: seq<Chunk>, errno: int, io: seq<Syscall>)
    ensures var k := FirstFault(fs, blocks);
      && ck == Chunks(data, blocks, k)
      && errno == (if k < |blocks| then BlockFault(fs, blocks[k].x).value else failedErrno)
      && io == LoopIo(fs, blocks, Attempted(fs, blocks))
  {
    ck, errno, io := [], failedErrno, [];
    var i := 0;
    while i < |blocks|
      invariant 0 <= i <= |blocks|
      invariant i <= FirstFault(fs, blocks)
      invariant ck == Chunks(data, blocks, i)
      invariant io == LoopIo(fs, blocks, i)
      invariant errno == failedErrno
    {
      var b := blocks[i];
      var err, ck', events := DoRequest(fs, data, b.x, b.y - b.x, ck);
      RangeStep(fs, data, blocks, i);
      io := io + events;
      if err != 0 {
        errno := err;
        StopsAt(fs, blocks, i);
        return;
      }
      PastClean(fs, blocks, i);
      ck := ck';
      i := i + 1;
    }
    FirstFaultAt(fs, blocks, i);
  }

  // ---------------------------------------------------------------------
  // The source
  // ---------------------------------------------------------------------

  /** `spec` carries the scheme and names a non-empty file once split. */
  predicate Claims(spec: string, split: string -> (string, string))
  {
    Prefix <= spec && split(spec[|Prefix|..]).1 != ""
  }

  /** The (directory, file) pair a claimed spec names. */
  function Target(spec: string, split: string -> (string, string)): (string, string)
    requires Prefix <= spec
  {
    split(spec[|Prefix|..])
  }

  /** The source's private state: the sandbox root, fixed when the source is made. */
  class FileSource {
    const root: string

    /** file_open(path): remember the root. */
    constructor (path: string)
      ensures root == path
    {
      root := path;
    }

    /**
     * file_read: serve one request.  `spec` is the request's resource spec,
     * `split` the helper that splits what follows the scheme into a
     * directory and a file name, `blocks` the request's ranges after block
     * expansion, and `failedErrno` the caller's error slot on entry.
     * Returns the chunk list, the error slot on exit and the descriptor
     * operations performed.
     */
    method Read(fs: FileSystem, spec: string, split: string -> (string, string),
                blocks: seq<Block>, failedErrno: int)
      returns (ck: seq<Chunk>, errno: int, io: seq<Syscall>)
      // A spec without the scheme, or naming an empty file, is ignored.
      ensures !Claims(spec, split) ==> ck == [] && errno == failedErrno && io == []
      // The gate: both checks decide the error; not-found wins over permission.
      ensures Claims(spec, split) ==>
        var (dir, file) := Target(spec, split);
        var inRoot, regular := Contained(fs, root, dir), IsRegular(fs, dir, file);
        && (!regular ==> errno == ENOENT)
        && (regular && !inRoot ==> errno == EPERM)
        && (!(inRoot && regular) ==> ck == [])
      // No descriptor operation happens unless both checks pass.
      ensures io != [] <==>
        Claims(spec, split) &&
        Contained(fs, root, Target(spec, split).0) &&
        IsRegular(fs, Target(spec, split).0, Target(spec, split).1)
      // Past the gate: open dir + file, read ranges up to the first failure, close.
      ensures io != [] ==>
        var (dir, file) := Target(spec, split);
        match Open(fs, dir + file)
        case Err(e) => ck == [] && errno == e && io == [SysOpen(dir + file)]
        case Ok(data) =>
          var k := FirstFault(fs, blocks);
          && ck == Chunks(data, blocks, k)
          && errno == (if k < |blocks| then BlockFault(fs, blocks[k].x).value else failedErrno)
          && io == [SysOpen(dir + file)] + LoopIo(fs, blocks, Attempted(fs, blocks)) + [SysClose]
      // The descriptor is closed exactly once when both checks pass and the open succeeds, never otherwise.
      ensures Closes(io) == 1 <==>
        Claims(spec, split) &&
        Contained(fs, root, Target(spec, split).0) &&
        IsRegular(fs, Target(spec, split).0, Target(spec, split).1) &&
        Open(fs, Target(spec, split).0 + Target(spec, split).1).Ok?
      ensures Closes(io) <= 1
    {
      ck, errno, io := [], failedErrno, [];
      if !(Prefix <= spec) {
        return;
      }
      var (dir, file) := split(spec[|Prefix|..]);
      if file == "" {
        return;
      }
      var trackOk := TrackPathMain(fs, root, dir);
      var regularOk := IsRegular(fs, dir, file);
      if !trackOk { errno := EPERM; }
      if !regularOk { errno := ENOENT; }
      if trackOk && regularOk {
        var path := dir + file;
        var fd := Open(fs, path);
        io := [SysOpen(path)];
        if fd.Ok? {
          var loopCk, loopErrno, loopIo := ReadRanges(fs, fd.value, blocks, errno);
          ck, errno := loopCk, loopErrno;
          io := io + loopIo + [SysClose];
          LoopIoNeverCloses(fs, blocks, Attempted(fs, blocks));
          ClosesAppend([SysOpen(path)], loopIo);
          ClosesAppend([SysOpen(path)] + loopIo, [SysClose]);
        } else {
          errno := fd.errno;
        }
      }
    }
  }
}
