/**
 * The slice of the POSIX interface that the file:// source relies on,
 * modelled as an abstract, read-only oracle: what stat(2) reports for a
 * path, which paths open(2) can open and with what contents, and at which
 * offsets lseek(2) or a read fails.  Nothing here touches a real filesystem.
 */
module Posix {

  datatype Option<+T> = None | Some(value: T)

  datatype Result<+T> = Ok(value: T) | Err(errno: Errno)

  type byte = b: int | 0 <= b < 256

  /** A POSIX error number; a failing system call always sets a positive one. */
  type Errno = e: int | 0 < e witness 1

  const EPERM: Errno := 1
  const ENOENT: Errno := 2
  const EINVAL: Errno := 22

  /** The identity of a filesystem object: its (st_dev, st_ino) pair. */
  datatype Ident = Ident(dev: int, ino: int)

  /** The two things the source reads from a `struct stat`. */
  datatype StatBuf = StatBuf(id: Ident, isRegular: bool)

  /**
   * A filesystem as the source sees it.
   *  - stats: a path is present exactly when stat(path) succeeds;
   *  - files: the contents of every path open(path, O_RDONLY) can open;
   *  - openErrors: paths whose open fails with the given error;
   *  - seekErrors, readErrors: offsets at which lseek or read fails.
   */
  datatype FileSystem = FileSystem(
    stats: map<string, StatBuf>,
    files: map<string, seq<byte>>,
    openErrors: map<string, Errno>,
    seekErrors: map<int, Errno>,
    readErrors: map<int, Errno>)

  /** stat(2): None when the call fails. */
  function Stat(fs: FileSystem, path: string): Option<StatBuf>
  {
    if path in fs.stats then Some(fs.stats[path]) else None
  }

  /** open(path, O_RDONLY): the contents behind the new descriptor, or the error. */
  function Open(fs: FileSystem, path: string): (r: Result<seq<byte>>)
    ensures r.Ok? ==> path in fs.files && r.value == fs.files[path]
    ensures path !in fs.files ==> r.Err?
  {
    if path in fs.openErrors then Err(fs.openErrors[path])
    else if path in fs.files then Ok(fs.files[path])
    else Err(ENOENT)
  }

  /** lseek(fd, offset, SEEK_SET): Some(error) when the call fails. */
  function Lseek(fs: FileSystem, offset: int): (r: Option<Errno>)
    ensures offset < 0 ==> r == Some(EINVAL)
    ensures r.None? ==> 0 <= offset
  {
    if offset < 0 then Some(EINVAL)
    else if offset in fs.seekErrors then Some(fs.seekErrors[offset])
    else None
  }

  /**
   * The bytes a read of `len` bytes at `offset` delivers from a file
   * holding `data` when no error occurs: as many as are asked for, or
   * fewer only because the end of the file was reached.
   */
  function Bytes(data: seq<byte>, offset: nat, len: nat): (r: seq<byte>)
    ensures |r| <= len
    ensures r != [] ==> offset + |r| <= |data|
    ensures forall k :: 0 <= k < |r| ==> r[k] == data[offset + k]
    ensures |r| < len ==> offset + |r| >= |data|
    decreases len
  {
    if len == 0 || offset >= |data| then []
    else
      var rest := Bytes(data, offset + 1, len - 1);
      var r := [data[offset]] + rest;
      assert forall k :: 0 <= k < |r| ==> r[k] == data[offset + k] by {
        forall k | 0 <= k < |r|
          ensures r[k] == data[offset + k]
        {
          if 0 < k {
            assert r[k] == rest[k - 1];
          }
        }
      }
      r
  }

  /** Some(error) when a read from a descriptor positioned at `offset` fails. */
  function ReadFault(fs: FileSystem, offset: int): Option<Errno>
  {
    if offset in fs.readErrors then Some(fs.readErrors[offset]) else None
  }

  /**
   * read_all(fd, buf, len) on a descriptor positioned at `offset`: it
   * retries short reads until `len` bytes or the end of the file, so it
   * returns the bytes of Bytes, or the error of the failing read.
   */
  function ReadAll(fs: FileSystem, data: seq<byte>, offset: nat, len: nat): (r: Result<seq<byte>>)
    ensures ReadFault(fs, offset).None? <==> r.Ok?
    ensures r.Err? ==> ReadFault(fs, offset) == Some(r.errno)
    ensures r.Ok? ==> |r.value| <= len && (|r.value| < len ==> offset + |r.value| >= |data|)
    ensures r.Ok? && r.value != [] ==> offset + |r.value| <= |data|
    ensures r.Ok? ==> forall k :: 0 <= k < |r.value| ==> r.value[k] == data[offset + k]
  {
    match ReadFault(fs, offset)
    case Some(e) => Err(e)
    case None => Ok(Bytes(data, offset, len))
  }
}
