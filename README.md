# ufs: a verified model of biscuit's synchronous filesystem facade

`ufs_t` (biscuit/src/ufs/ufs.go) is a thin, synchronous facade over one
mounted instance of biscuit's filesystem engine. It offers whole-file and
whole-directory operations: MkFile, MkDir, Rename, Append, Unlink, Stat,
Read and Ls. Each operation runs a fixed chain of engine calls: open, seek,
write, read, close, sync, or a single path operation followed by sync.
After each call, the code decides whether to go on or to return that
call's code. Ls also walks the raw bytes of a directory block by block,
slot by slot, and stats every named entry.

The project models the facade as imperative Dafny. The methods of the
class `Ufs` run the same calls, branches and early returns as the Go code.
They run against an abstract engine (`Engine.Fs`, `Engine.Fd`). The engine
is a per-path store of byte sequences, a set of directory paths and the
store as of the last successful sync. Every engine call may fail with any
nonzero code. A call that needs an existing path (open without O_CREAT,
write, read, a seek to the end, rename's source, unlink, stat) fails with a
negative code when the path is missing, and mkdir fails with a negative
code when the path already exists; open with O_CREAT, a seek from the start
or the current offset, close and sync do not look at the path. On
success, the bytes of regular files are exactly as the contracts state; the
bytes of directories, which a create, mkdir, rename or unlink rewrites in
the engine's own entry format, are left open (`SameFiles`). The engine
appends every call it receives, with its arguments and its outcome, to a
ghost log.

The facade's contracts say four things:
- the exact calls an operation made (the part of the log it added);
- which policy those calls follow;
- which code is returned;
- what the store, the directories and the durable state are afterwards.

The policies live in module `Protocol`:
- **fail-fast** (MkFile, MkDir, Append, Unlink, Read, and Ls's stats): the
  planned steps run in order until one does not pass. A call passes when its
  code is 0 and, for a write or a read, the whole buffer moved. Nothing after
  the failing step runs, and that step's own code is returned.
- **run-all** (Rename): both steps run, and the last step's code is returned.

Module layout:
- `common.dfy`: error codes, stat records, open and seek selectors, and the
  staging buffer `Ubuf` (common.Fakeubuf_t).
- `engine.dfy`: the abstract engine, its call log (`Trace`), and the content
  functions its contracts use (`Overwrite`, `Chunk`, `StatOf`, `Moved`,
  `Removed`, `SameFiles`).
- `protocol.dfy`: the fail-fast and run-all policies, with call-by-call
  reference forms and the lemmas relating them.
- `dirent.dfy`: the slot walk of Ls over directory bytes. `Filename`, the
  name decoder of fs.Dirdata_t, is a parameter.
- `facade.dfy`: the `Ufs` class, the plans of its operations, `mkData`,
  and lemmas stating the facade's properties.

## Behaviour of note

Some behaviours of ufs.go are easy to miss, and the model keeps each of them:
- Rename ignores the rename's code and always syncs, returning the sync's
  code. A failed rename followed by a successful sync returns 0, and a failed
  sync is returned even after a successful rename (ufs.go:71-81).
- Unlink is fail-fast: a failed unlink returns at once with no sync
  (ufs.go:114-126).
- A short write that returns code 0 makes MkFile and Append return that 0,
  with no close and no sync (ufs.go:36-41, 95-98). The caller sees success
  although the file does not hold the whole buffer.
- Read never closes its descriptor, on any path (ufs.go:138-163). A short
  read returns no data with the read's code, which may be 0.
- Ls treats a read that returns no data with code 0 as an empty directory,
  and returns an empty listing with code 0 (ufs.go:167-185).
- Append does not check the open's code. When the open fails, the seek is
  made through a nil descriptor, and the program panics (ufs.go:84-89).

## Model

| member | source | states |
|---|---|---|
| Facade.MkData | biscuit/src/ufs/ufs.go:20-28 | mkData gives a buffer of exactly `n` bytes, each equal to `v`, with the cursor at 0 and `n` bytes remaining |
| Facade.CopyBytes | biscuit/src/ufs/ufs.go:158-161 | Read's copy loop gives a fresh slice with the same length and the same bytes as the buffer read into |
| Facade.Ufs.constructor | biscuit/src/ufs/ufs.go:15-18 | ufs_t holds one engine handle |
| Facade.Ufs.CloseAndSync | biscuit/src/ufs/ufs.go:43-54 | close, then sync, fail-fast: a failed close returns its code with no sync; otherwise sync's code is returned, and the store becomes durable exactly when every step passed |
| Facade.Ufs.WriteCloseSync | biscuit/src/ufs/ufs.go:36-54 | the write takes the whole buffer at the descriptor's offset; a failed or short write (even with code 0) is the last call and its code is returned; otherwise close and sync follow; the buffer's cursor advances by exactly the count written, reaching the end when the write passed; the file holds the written bytes at the offset exactly when the write returned 0 |
| Facade.Ufs.MkFile | biscuit/src/ufs/ufs.go:30-55 | the calls are a fail-fast run of open(O_CREAT), the write when a buffer is given, close, sync; the code returned is the last call's; a failed open returns its code and nothing else runs; once the open passed, `p` holds the bytes written at offset 0 over its old contents and every other file is unchanged (directory data left open); the buffer's cursor advances by exactly the write's count (not at all when the open failed), so a short write leaves bytes unwritten and a completed run consumed the whole buffer; the store is durable exactly when the run completed |
| Facade.Ufs.MkDir | biscuit/src/ufs/ufs.go:57-69 | a fail-fast run of mkdir with mode 0755, then sync; when the mkdir passed, `p` was missing before and is now a directory, and no file changed; when it failed, nothing changed; the store is durable exactly when both calls passed |
| Facade.Ufs.Rename | biscuit/src/ufs/ufs.go:71-81 | a run-all run: rename, then sync whatever rename returned; the code is sync's; when the rename returned 0, `oldp` and everything beneath it move beneath `newp`, replacing what was there (`Moved`); otherwise nothing changes |
| Facade.Ufs.Append | biscuit/src/ufs/ufs.go:83-112 | a failed open ends in `Panicked` (the seek through the nil descriptor); otherwise the calls are a fail-fast run of seek to the end, write, close, sync, returning the last call's code; once the write returns 0, the file is its old contents followed by the bytes written; the cursor advances by the write's count, to the end of the buffer when the run completed |
| Facade.Ufs.Unlink | biscuit/src/ufs/ufs.go:114-126 | a fail-fast run of unlink (boolean argument false), then sync; a failed unlink is returned with no sync; when the unlink passed, `p` and everything beneath it are gone and every other file is unchanged; otherwise nothing changes |
| Facade.Ufs.Stat | biscuit/src/ufs/ufs.go:128-136 | exactly one engine stat; a record exactly when its code is 0, and it is the size and type of `p`; nothing changes |
| Facade.Ufs.Read | biscuit/src/ufs/ufs.go:138-163 | a fail-fast run of stat, open(O_RDONLY), one read of the reported size, with no close; data is returned exactly when all three passed, and it is then the whole file, of the length stat reported; otherwise no data and the failing call's code (0 for a short read) |
| Facade.Ufs.StatSlot | biscuit/src/ufs/ufs.go:174-181 | one slot of Ls: an empty name is skipped; otherwise a stat of `p + "/" + name`, whose failure ends the walk with its code, and whose record joins the listing |
| Facade.Ufs.StatBlock | biscuit/src/ufs/ufs.go:172-183 | the NDIRENTS slots of one block, in order; the first failing stat ends the walk; otherwise the listing covers every non-empty name seen so far |
| Facade.Ufs.StatAll | biscuit/src/ufs/ufs.go:171-185 | the walk over len(d)/BSIZE whole blocks is a fail-fast run of one stat per non-empty name, in slot order, each of `p + "/" + name`; when it completes, the result lists exactly those names, each with the stat of `p + "/" + name`; otherwise no result and the failing stat's code |
| Facade.Ufs.Ls | biscuit/src/ufs/ufs.go:165-186 | the read runs first; a read failing with a nonzero code ends Ls with that code and no stats; otherwise the walk runs over the data read (an empty directory when the read came back short with code 0), as StatAll says |
| Facade.Ufs.MkFileThenRead | biscuit/src/ufs/ufs.go:30-55 | MkFile on a path that is neither file nor directory, run to completion, then Read returning data: the data is exactly the bytes the buffer held from its cursor |
| Facade.Ufs.UnlinkThenStat | biscuit/src/ufs/ufs.go:114-136 | when Unlink's unlink passed, a Stat of the same path that follows finds nothing, whatever the sync returned |
| Facade.Ufs.AppendThenRead | biscuit/src/ufs/ufs.go:83-112 | Append run to completion, then Read returning data: the data is the file's old contents followed by the bytes the buffer held from its cursor |
| Facade.MkFileOpenFailure | biscuit/src/ufs/ufs.go:31-35 | when MkFile's open does not pass, it is the only call made, and its code is returned |
| Facade.ShortWriteReturnsZero | biscuit/src/ufs/ufs.go:36-41 | in MkFile (and Append, ufs.go:95-98), a write that returns 0 but leaves bytes unwritten is the last call made; the run did not complete, yet 0 is returned |
| Facade.PlansSyncLast | biscuit/src/ufs/ufs.go:30-126 | MkFile, MkDir, Append and Unlink each call sync as their last step, and at no earlier step |
| Facade.SyncOnlyAfterSuccess | biscuit/src/ufs/ufs.go:49-54 | in such a run, sync is called only after every earlier call passed, and its code is the one returned |
| Facade.ZeroExactlyWhenSynced | biscuit/src/ufs/ufs.go:57-69 | for MkDir (and Unlink, ufs.go:114-126) the code is 0 exactly when both calls ran and passed |
| Facade.ListingKeys | biscuit/src/ufs/ufs.go:171-182 | a completed listing has as keys exactly the non-empty names in a slot j < NDIRENTS of a whole block i < len(d)/BSIZE, each mapped to the stat of `p + "/" + name` |
| Protocol.RanNext | biscuit/src/ufs/ufs.go:30-55 | a passing call on the next planned step extends a run in which every call so far passed |
| Protocol.StopsAt | biscuit/src/ufs/ufs.go:32-35 | a call that does not pass on the next planned step ends a fail-fast run short of completion, and its code is the run's code |
| Protocol.EndsWith | biscuit/src/ufs/ufs.go:49-54 | the last planned step ends a fail-fast run, which completed exactly when that step passed |
| Protocol.RanAll | biscuit/src/ufs/ufs.go:185 | a run in which every planned step ran and passed is a completed fail-fast run |
| Protocol.FollowsMeans | biscuit/src/ufs/ufs.go:30-55 | the recursive "calls follow the plan" agrees with its index-by-index form: call i is step i |
| Protocol.AllPassMeans | biscuit/src/ufs/ufs.go:30-55 | the recursive "every call passed" agrees with its index-by-index form |
| Protocol.FailFastMeans | biscuit/src/ufs/ufs.go:30-55 | a fail-fast run, stated index by index: the planned steps in order, every call but the last passed, and a run that stopped short ended on a call that did not pass (both directions) |
| Protocol.CompletedMeans | biscuit/src/ufs/ufs.go:30-55 | completion, index by index: as many calls as planned steps, and every one passed (both directions) |
| Protocol.FirstFailureEndsRun | biscuit/src/ufs/ufs.go:30-55 | in a fail-fast run, a call that did not pass is the last call, the run returns its code, and the run did not complete |
| Protocol.FailFastOutcome | biscuit/src/ufs/ufs.go:30-55 | a fail-fast run completed exactly when its last call passed; one that did not complete has every earlier call passing |
| Protocol.ZeroCodeIffCompleted | biscuit/src/ufs/ufs.go:57-69 | with no write or read planned, a fail-fast run returns 0 exactly when it completed |
| Protocol.NonZeroCodeMeansIncomplete | biscuit/src/ufs/ufs.go:30-55 | a nonzero code means the run did not complete, and a completed run returns 0 |
| Protocol.ShortTransferStops | biscuit/src/ufs/ufs.go:153-156 | a write or read returning 0 but moving fewer bytes than asked is the last call of a fail-fast run, which returns 0 without completing |
| Protocol.LastStepOnlyAfterSuccess | biscuit/src/ufs/ufs.go:101-111 | a step that occurs only last in the plan is reached only after every earlier call passed, and its code is the one returned |
| Dirent.BlockSlots | biscuit/src/ufs/ufs.go:173-174 | the slot names of one block are NDIRENTS names, one per slot |
| Dirent.DirSlots | biscuit/src/ufs/ufs.go:171-174 | the slots of the first k blocks number k × NDIRENTS |
| Dirent.NonEmpty | biscuit/src/ufs/ufs.go:175 | the names kept are exactly the non-empty ones, in order, and no more than there were |
| Dirent.InDirSlots | biscuit/src/ufs/ufs.go:171-174 | a name is among the slots of the first k blocks exactly when some slot j < NDIRENTS of some block i < k holds it |
| Dirent.InNames | biscuit/src/ufs/ufs.go:171-175 | a name is resolved by Ls exactly when it is non-empty and held by a slot of a whole block; a trailing partial block is never looked at |
| Dirent.NonEmptyPrefix | biscuit/src/ufs/ufs.go:173-175 | walking fewer slots resolves a prefix of the names |
| Dirent.DirSlotsPrefix | biscuit/src/ufs/ufs.go:171 | the slots of the first i blocks are a prefix of those of the first k, for i ≤ k |
| Dirent.BlockStep | biscuit/src/ufs/ufs.go:171-172 | block i starts at byte i × BSIZE within the data, its slots follow those of the blocks before it, and its names stay within all the names walked |
| Dirent.SlotsSoFar | biscuit/src/ufs/ufs.go:173-174 | one more slot of a block extends the slots walked, within that block |
| Engine.Fs.Open | biscuit/src/ufs/ufs.go:31 | Fs_open: a descriptor at offset 0 exactly when the code is 0; O_CREAT creates an empty file if none exists, leaving every other file as it was and directory data open; without O_CREAT a missing path fails and nothing changes |
| Engine.Fs.Mkdir | biscuit/src/ufs/ufs.go:58 | Fs_mkdir: on success `p` is a new directory and every file is as it was (directory data open); an existing path fails; on failure nothing changes |
| Engine.Fs.Rename | biscuit/src/ufs/ufs.go:72 | Fs_rename: on success `from` and everything beneath it move beneath `to`, contents and type, replacing what was there (directory data open); a missing source fails; on failure nothing changes |
| Engine.Fs.Unlink | biscuit/src/ufs/ufs.go:115 | Fs_unlink: on success `p` and everything beneath it are gone and every other file is as it was (directory data open); a missing path fails; on failure nothing changes |
| Engine.MovedSpec | biscuit/src/ufs/ufs.go:72 | after a rename, a path outside both subtrees keeps its contents, each path at or beneath `from` reappears rebased beneath `to` with its contents, and nothing else is there |
| Engine.RebasedBack | biscuit/src/ufs/ufs.go:72 | a path beneath `from`, rebased beneath `to`, lies beneath `to` and maps back to itself |
| Engine.Fs.Stat | biscuit/src/ufs/ufs.go:130 | Fs_stat: on success the size and type of `p`; a missing path fails; nothing changes |
| Engine.Fs.Sync | biscuit/src/ufs/ufs.go:49 | Fs_sync: on success the durable state becomes the current store |
| Engine.Fd.Write | biscuit/src/ufs/ufs.go:37 | Fops.Write: some prefix of the remaining bytes (possibly a short one, even with code 0) is written at the file offset, and the cursor and the offset advance by the count |
| Engine.Fd.Read | biscuit/src/ufs/ufs.go:153 | Fops.Read: some bytes of the file from the offset (possibly fewer than asked, even with code 0) land in the buffer at its cursor; the rest of the buffer is unchanged |
| Engine.Place | biscuit/src/ufs/ufs.go:153 | the bytes a read delivers land in the buffer from its cursor on, and every other byte of the buffer is unchanged |
| Engine.Fd.Lseek | biscuit/src/ufs/ufs.go:89 | Fops.Lseek: on success the offset is `offset` past the chosen origin (the end of the file for SEEK_END) |
| Engine.Fd.Close | biscuit/src/ufs/ufs.go:43 | Fops.Close: nothing in the store changes |
| Engine.OverwriteSpec | biscuit/src/ufs/ufs.go:37 | the contents after a write at an offset: the bytes before it stay (a gap reads as zeros), the written bytes replace what was under them, and the bytes after them stay |
| Engine.OverwriteAtEnd | biscuit/src/ufs/ufs.go:89-95 | a write at the end of a file, where the seek to SEEK_END put the offset, appends |
| Engine.OverwriteNothing | biscuit/src/ufs/ufs.go:36 | writing nothing at offset 0, as MkFile does with no buffer, changes nothing |
| Engine.OverwriteAll | biscuit/src/ufs/ufs.go:37 | a write at offset 0 that covers all the old contents leaves exactly the bytes written |
| Engine.ChunkAll | biscuit/src/ufs/ufs.go:149-153 | reading a whole file from its start, into a buffer of its size, gives the file |
| Common.Ubuf.constructor | biscuit/src/ufs/ufs.go:25-26 | Fake_init wraps the given bytes with the cursor at their start |

## Left out

- The filesystem engine itself (biscuit's fs package) is not part of this
  model. Fs_open, Fs_mkdir, Fs_rename, Fs_unlink, Fs_stat, Fs_sync and the
  descriptor's Fops are abstract methods. They may fail with any code, and
  they have only the effects their contracts state. Arguments the facade
  passes as constants and that the model does not use are dropped: Fs_open's
  integer after the flags, its inode argument (`Inum_t(0)`) and its two
  trailing integers (ufs.go:31, 84, 144), and the context arguments of the
  other calls.
- fs.Dirdata_t.Filename, the decoding of a directory entry's name, is a
  parameter of the engine (`Fs.filename`). BSIZE and NDIRENTS are the
  engine's constants `bsize` and `ndirents`.
- OpenDisk, BootFS and ShutdownFS (ufs.go:188-212) and the `ahci` field of
  ufs_t are device and lifecycle plumbing, and are not modelled.
- The fmt.Printf diagnostics are not modelled.
- Engine.Fs.Open, Engine.Fs.Mkdir, Engine.Fs.Rename, Engine.Fs.Unlink: the
  bytes of every directory are left open after these calls, because the
  engine's entry format (how a create, mkdir, rename or unlink rewrites the
  parent's data) is not part of this model. So no property of an Ls made
  after a mutation follows, and the facade's contracts state files exactly
  but directories only by their presence.
- Engine.Fs.Rename: renaming a directory to a path beneath itself is not
  ruled out; `Moved` gives such a call a well-defined result that no real
  engine would produce.
- Engine.Fd.Write: a write that fails (nonzero code) is assumed to write
  nothing: the count is 0, and the file, the buffer's cursor and the file
  offset are unchanged. ufs.go:39 prints the count next to a failing code,
  so the engine may report a partial write there; this model does not. The
  contracts of Facade.Ufs.WriteCloseSync, Facade.Ufs.MkFile and
  Facade.Ufs.Append about a failed write (the file as the open or the seek
  left it) rest on this assumption.
- Engine.Fs.Unlink: the boolean argument ufs.go:115 passes (false) is
  recorded in the call, but its meaning is not modelled; a successful unlink
  removes `p` and anything beneath it.
- The run-time panic of Append after a failed open is the result `Panicked`.
  Nothing after it is modelled.
- Facade.Ufs.Read: the descriptor Read opens is never closed, as in the
  source. The model has no descriptor table, so the leak itself is not
  visible in the state.
- Facade.MkData: `n` is a `nat`. A negative length, which makes Go's `make`
  panic, is not modelled.
- Common.Ubuf: the buffer is a byte array and a cursor only. Fakeubuf_t's
  other fields and its copying routines belong to the engine's side.
- Stat records keep only the size and the directory flag. Those are the only
  fields of common.Stat_t that the facade's callers here rely on.
- Facade.Ufs.CloseAndSync, Facade.Ufs.WriteCloseSync, Facade.Ufs.StatSlot,
  Facade.Ufs.StatBlock and Facade.Ufs.StatAll factor out code that the source
  writes inline. The first two are the tails MkFile and Append share; the
  other three are the loop levels of Ls. They make the same calls in the same
  order.
- The Go map that Ls fills is a Dafny map value. Its initial capacity hint
  (100) has no effect on behaviour.
