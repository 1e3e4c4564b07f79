# file:// source: a Dafny model

This project models the read-only `file://` source of a pull-based data
synchronisation engine (`sources/file2.c`). A request names a resource spec
such as `file://some/dir/name` and a set of block ranges. For each request
the source does four things:

1. It checks that the directory lies inside the configured root. The check
   walks upward with `../` and compares filesystem identities
   (`st_dev`, `st_ino`), not path strings.
2. It checks that the target is a regular file.
3. It turns the outcome of both checks into an error code.
4. It opens the file once, and for each block range it seeks and reads. It
   prepends one chunk per range to the chunk list, stops at the first
   failure, and closes the descriptor.

The operating system is an abstract oracle (module `Posix`, file
`posix.dfy`). Its parts are:

- a map from path to `stat` result: the `(dev, ino)` identity and an
  "is regular" bit;
- a map from path to file contents (`seq<byte>`) for `open`;
- maps giving the offsets at which `lseek` or a read fails.

`Posix.Stat` is the `stat` oracle behind the calls at `sources/file2.c`
lines 54, 57, 61 and 89: it succeeds exactly on the paths of the stat map
and returns their entry.

`read_all` delivers `min(len, |contents| - start)` bytes, or none past the
end of the file. Module `File2` (file `file2.dfy`) models the source itself.
The descriptor operations a request performs come back as a trace of
`Syscall` values (open, seek, read, close). The claims "no I/O unless both
checks pass" and "closed exactly once" are stated about that trace.

The model follows the code as written; in particular:

- The containment walk compares every step with the identity of the
  **configured root**, not with the candidate directory (lines 57-59, 66).
  Step 0 is the directory itself, so a directory equal to the root is
  contained. Hitting the identity of `/` rejects, and that test runs before
  the root test. So a root whose identity is that of `/` contains nothing.
- A spec with the scheme but an empty file name is ignored, exactly like a
  spec without the scheme. There are no chunks and the error slot is
  unchanged.
- The regular-file check stats `dir + "/" + file`, but the file that is
  opened is `dir + file` (lines 88 and 140). The model keeps both strings
  as written. The oracle does not treat them as the same file.
- After a failed `do_request`, `file_read` stores `errno` into the error
  slot. That `errno` is the value `do_request` returned, so the model
  stores the returned value.

## Model

| member | source | states |
|---|---|---|
| `Posix.Open` | sources/file2.c:141-142 | opening succeeds only on a path that names a file, and yields that file's contents; any other path gives an error |
| `Posix.Lseek` | sources/file2.c:102 | seeking to a negative offset fails with EINVAL; a successful seek is at a non-negative offset |
| `Posix.Bytes` | sources/file2.c:103 | a read of `len` bytes at `offset` yields at most `len` bytes; they lie inside the file and each is the file's byte at that position; it is short only when it reaches the end of the file |
| `Posix.ReadAll` | sources/file2.c:103-104 | `read_all` fails exactly when the fault oracle says so, with that error; otherwise it returns at most `len` bytes of the file from `offset`, short only at end of file |
| `File2.TrackPathMain` | sources/file2.c:47-74 | the loop returns true exactly when `Contained` holds: `/` and the root both stat, and some step `i < 1000` (`dir` plus `i` copies of `../`) has the root's identity, not that of `/`, and every earlier step stat'ed without matching `/` or the root |
| `File2.WalkStopsAt` | sources/file2.c:61-65 | once steps `0..i-1` have passed, a failed stat at step `i`, or the identity of `/` at step `i`, means no step accepts |
| `File2.WalkExhausted` | sources/file2.c:60-73 | if all 1000 steps pass, no step accepts |
| `File2.StartFailureRejects` | sources/file2.c:54-57 | if the stat of `/` or of the root fails, the directory is not contained |
| `File2.StepFailureRejects` | sources/file2.c:60-65 | a failed stat, or reaching `/`, at any step the walk reaches gives "not contained" (fail closed) |
| `File2.SlashRootContainsNothing` | sources/file2.c:62-69 | the `/` test comes first, so a root with the identity of `/` never contains anything |
| `File2.RootItselfContained` | sources/file2.c:60-69 | step 0 counts: a directory with the root's identity, where that identity is not the one of `/`, is contained |
| `File2.DepthBoundRejects` | sources/file2.c:45-73 | the walk is bounded at 1000 steps: if they all pass, the directory is not contained, even when a deeper step would reach the root |
| `File2.IsRegular` | sources/file2.c:84-93 | true exactly when the stat of `dir + "/" + file` succeeds and reports a regular file; a failed stat gives false |
| `File2.BlockFault` | sources/file2.c:102-110 | a failed seek decides the request's error and no read follows it; after a successful seek the read's fault decides it; a request can succeed only at a non-negative offset |
| `File2.ChunkFor` | sources/file2.c:103-105 | the chunk of a successful request sits at `start`, holds at most `len` bytes, each equal to the file's byte there, and is flagged partial exactly when it is short, which happens only at end of file |
| `File2.PastEndIsPartial` | sources/file2.c:103-105 | a non-empty range that runs past the end of the file yields a partial chunk |
| `File2.ChunksNewestFirst` | sources/file2.c:144-149 | the chunk list built by prepending has one chunk per range read, and the j-th chunk is the one for the j-th range from the end |
| `File2.ChunksMatchFile` | sources/file2.c:103-105 | every chunk a request returns holds exactly the file's bytes at its offset |
| `File2.FirstFault` | sources/file2.c:144-148 | the loop stops at the first range whose seek or read fails: every earlier range succeeds, and that range fails |
| `File2.FirstFaultAt` | sources/file2.c:144-148 | when every range before `i` succeeds and range `i` fails, or `i` equals the number of ranges, the loop stops at `i`; it has then issued `i + 1` requests, or `i` when none failed |
| `File2.LoopIoNeverCloses` | sources/file2.c:143-151 | reading ranges never closes the descriptor; only the close after the loop does |
| `File2.DoRequest` | sources/file2.c:95-111 | on success it returns 0 and prepends exactly one chunk (offset `start`, bytes read, partial iff fewer than `len`); on a failed seek or read it returns that error and leaves the list unchanged; it performs a seek and, only when that succeeds, a read |
| `File2.ReadRanges` | sources/file2.c:143-149 | the loop reads the ranges up to the first failure; it keeps their chunks newest first; the error slot holds that failure's error, or is untouched when none failed; its trace is the seeks and reads of the ranges it attempted |
| `File2.FileSource.constructor` | sources/file2.c:32-38 | the source keeps the configured root, which is a constant and never changes afterwards |
| `File2.FileSource.Read` | sources/file2.c:113-161 | without the scheme or with an empty file name, no chunks, error slot untouched, no I/O; otherwise both checks decide: not regular gives ENOENT, even when containment also failed; contained failing alone gives EPERM; either failure gives no chunks; there is I/O exactly when both pass; then a failed open gives its error, no chunks and no close; a successful open reads ranges as `ReadRanges` states and closes the descriptor exactly once, as the last operation |

## Left out

- Real system calls. `stat`, `open`, `lseek`, `read_all` and `close` are an abstract oracle. Seek and read faults are keyed by offset, and the oracle is fixed for one request.
- The range library is not part of this model: `ranges_copy`, `ranges_blockify_expand` with the 65536-byte block size, and the range iterator. `FileSource.Read` receives the blockified ranges as a sequence of `Block` values: `(x, y)` pairs of non-negative offsets with `x <= y`. Nothing is claimed about block alignment or coverage.
- `to_dir_file` is not part of this model. It appears as the parameter `split`, which maps the text after the scheme to a (directory, file) pair.
- `strdupcatnfree` is modelled as string concatenation.
- `rq_chunk` and `syncsource_source` are not part of this model. A chunk is a value holding offset, bytes and partial flag, and the chunk list is a sequence with the newest chunk first.
- The `track_path` wrapper only adds a debug log line. `Read` calls `TrackPathMain` directly.
- Logging and the debug block of `file_read` are left out, because they are not part of the behaviour.
- Configuration and registration are left out: `source_file2_make`, `die`, `jpfv_lookup`, `syncsource_create`.
- `ds_close` and `file_close` only free memory, and memory management is not modelled. That includes the buffer that `do_request` leaks on its error returns.
- Integer widths are not modelled. Offsets are `int64_t` and the byte count `n` is an `int`; the model uses unbounded integers.
- C strings cannot hold NUL bytes, and the `strncmp` prefix test is modelled as a sequence-prefix test.
- Concurrency is left out, because the source has no shared mutable state.
- `File2.FileSource.Read`: it says nothing about a range with `y < x` or a negative offset, because the `Block` type rules such ranges out. For `y < x` the source would pass a negative length to `safe_malloc`.
