/**
 * The filesystem engine (biscuit's fs package) as the facade sees it: a
 * per-path store of byte sequences, the set of paths that are directories,
 * the store as of the last successful sync, and the on-disk directory format.
 *
 * The engine is abstract. Every operation may fail with any nonzero code;
 * one that needs an existing path (open without O_CREAT, write, read, seek
 * to the end, rename's source, unlink, stat) fails with a negative code when
 * the path is missing, and mkdir fails with a negative code when it exists;
 * open with O_CREAT, a seek from the start or the current offset, close and
 * sync do not look at the path. A successful operation
 * has the effect its contract states: the bytes of regular files exactly,
 * the data of directories left open (SameFiles). Every
 * call is appended to `log`, with its arguments and outcome, so that the
 * facade's contracts can say which engine calls it makes and in what order.
 */
module Engine {
  import opened Common

  /** An engine call, without its outcome. */
  datatype Step =
    | FsOpen(path: string, mode: OpenMode)
    | FsWrite(path: string, want: nat)
    | FsSeek(path: string, offset: int, whence: Whence)
    | FsRead(path: string, want: nat)
    | FsClose(path: string)
    | FsSync
    | FsMkdir(path: string, perm: int)
    | FsRename(from: string, to: string)
    | FsUnlink(path: string, flag: bool)
    | FsStat(path: string)

  /**
   * An engine call with its outcome: `n` is the byte count of a write or a
   * read, the size a stat reported, or the offset a seek reached; `err` is
   * the code the call returned.
   */
  datatype Call = Call(step: Step, n: int, err: Err)

  /**
   * Calls in the order they were made, grown at the end: the engine's log of
   * everything called on it, and the part of it one facade operation made.
   */
  datatype Trace = Empty | Then(before: Trace, last: Call)

  function Len(t: Trace): nat
  {
    match t
    case Empty => 0
    case Then(u, _) => Len(u) + 1
  }

  /** The calls of `t` as a sequence, oldest first. */
  function Calls(t: Trace): (s: seq<Call>)
    ensures |s| == Len(t)
  {
    match t
    case Empty => []
    case Then(u, c) => Calls(u) + [c]
  }

  /** Call `i` of `t`, counting from the oldest. */
  function Nth(t: Trace, i: nat): (c: Call)
    requires i < Len(t)
    ensures c == Calls(t)[i]
  {
    if i + 1 == Len(t) then t.last else Nth(t.before, i)
  }

  /** `t` is `u` followed by zero or more further calls. */
  predicate Extends(t: Trace, u: Trace)
  {
    t == u || (t.Then? && Extends(t.before, u))
  }

  /** Calls already made keep their place when more are made. */
  lemma {:induction false} ExtendsNth(t: Trace, u: Trace, i: nat)
    requires Extends(t, u) && i < Len(u)
    ensures i < Len(t) && Nth(t, i) == Nth(u, i)
  {
    if t != u {
      ExtendsNth(t.before, u, i);
      ExtendsLen(t.before, u);
    }
  }

  lemma {:induction false} ExtendsLen(t: Trace, u: Trace)
    requires Extends(t, u)
    ensures Len(u) <= Len(t)
  {
    if t != u {
      ExtendsLen(t.before, u);
    }
  }

  /** `a`, then `b`. */
  function Cat(a: Trace, b: Trace): (r: Trace)
    ensures Len(r) == Len(a) + Len(b)
  {
    match b
    case Empty => a
    case Then(u, c) => Then(Cat(a, u), c)
  }

  /** The contents of `p`, or nothing when `p` does not exist. */
  function Prior(store: map<string, seq<Byte>>, p: string): seq<Byte>
  {
    if p in store then store[p] else []
  }

  function Zeros(n: nat): seq<Byte>
  {
    seq(n, _ => 0)
  }

  /**
   * The contents of a file after `w` is written at offset `off`: the bytes
   * before `off` stay (a gap past the old end reads as zeros), `w` replaces
   * what was under it, and the bytes after it stay (OverwriteSpec).
   */
  function Overwrite(s: seq<Byte>, off: nat, w: seq<Byte>): seq<Byte>
  {
    var head := if off <= |s| then s[..off] else s + Zeros(off - |s|);
    head + w + (if off + |w| < |s| then s[off + |w|..] else [])
  }

  lemma OverwriteSpec(s: seq<Byte>, off: nat, w: seq<Byte>)
    ensures var r := Overwrite(s, off, w);
      && |r| == (if off + |w| <= |s| then |s| else off + |w|)
      && r[off..off + |w|] == w
      && (forall i :: 0 <= i < off ==> r[i] == if i < |s| then s[i] else 0)
      && (forall i :: off + |w| <= i < |s| ==> r[i] == s[i])
  {
  }

  /** Writing nothing at offset 0 changes nothing. */
  lemma OverwriteNothing(s: seq<Byte>)
    ensures Overwrite(s, 0, []) == s
  {
  }

  /** Writing at the end of a file appends. */
  lemma OverwriteAtEnd(s: seq<Byte>, w: seq<Byte>)
    ensures Overwrite(s, |s|, w) == s + w
  {
    assert s[..|s|] == s;
  }

  /** A write at offset 0 covering the whole old contents leaves exactly what was written. */
  lemma OverwriteAll(s: seq<Byte>, w: seq<Byte>)
    requires |s| <= |w|
    ensures Overwrite(s, 0, w) == w
  {
    assert s[..0] == [];
  }

  /** A second update of the same key hides the first. */
  lemma UpdateTwice<K, V>(m: map<K, V>, k: K, a: V, b: V)
    ensures m[k := a][k := b] == m[k := b]
  {
  }

  /** `n` bytes of `s` from `off`, or none. */
  function Chunk(s: seq<Byte>, off: nat, n: nat): seq<Byte>
    requires n == 0 || off + n <= |s|
  {
    if n == 0 then [] else s[off..off + n]
  }

  /** Reading all of `s` from its start gives `s`. */
  lemma ChunkAll(s: seq<Byte>)
    ensures Chunk(s, 0, |s|) == s
  {
    if |s| > 0 {
      assert s[0..|s|] == s;
    }
  }

  /** What stat reports for an existing path. */
  function StatOf(store: map<string, seq<Byte>>, dirs: set<string>, p: string): StatRec
    requires p in store
  {
    StatRec(|store[p]|, p in dirs)
  }

  /** `q` is `p` itself or lies beneath it. */
  predicate Under(q: string, p: string)
  {
    q == p || (|p| < |q| && q[..|p| + 1] == p + "/")
  }

  /** Where `q`, at or beneath `from`, lands when `from` is renamed to `to`. */
  function Rebased(q: string, from: string, to: string): string
    requires Under(q, from)
  {
    to + q[|from|..]
  }

  /**
   * The paths of `paths` after `from` is renamed to `to`: every path at or
   * beneath `to` is now the rebased copy of one at or beneath `from`, and
   * every other path stays unless it was at or beneath `from` (MovedSpec).
   */
  function MovedPaths(paths: set<string>, from: string, to: string): set<string>
  {
    set q | q in paths + (set r | r in paths && Under(r, from) :: Rebased(r, from, to))
          && (if Under(q, to) then Rebased(q, to, from) in paths else q in paths && !Under(q, from))
  }

  /** The store after `from`, and everything beneath it, is renamed to `to`. */
  function Moved(store: map<string, seq<Byte>>, from: string, to: string): map<string, seq<Byte>>
  {
    map q | q in MovedPaths(store.Keys, from, to) :: if Under(q, to) then store[Rebased(q, to, from)] else store[q]
  }

  /** The directory set after `from`, and everything beneath it, is renamed to `to`. */
  function MovedDirs(dirs: set<string>, from: string, to: string): set<string>
  {
    MovedPaths(dirs, from, to)
  }

  /** A path beneath `from` moves with it and keeps its contents. */
  lemma RebasedBack(r: string, from: string, to: string)
    requires Under(r, from)
    ensures Under(Rebased(r, from, to), to) && Rebased(Rebased(r, from, to), to, from) == r
  {
    var q := Rebased(r, from, to);
    assert q[|to|..] == r[|from|..];
    assert r[..|from|] == from by {
      if r != from {
        assert r[..|from|] == r[..|from| + 1][..|from|];
      }
    }
    assert from + r[|from|..] == r[..|from|] + r[|from|..] == r;
    if r != from {
      assert q[..|to| + 1] == to + [r[|from|]] == to + "/";
    }
  }

  /**
   * A rename of `from` to `to`: a path outside both subtrees keeps its
   * contents; each path at or beneath `from` reappears rebased beneath `to`
   * with its contents; and nothing else is there, so whatever was at or
   * beneath `to` is gone unless it is such a copy.
   */
  lemma MovedSpec(store: map<string, seq<Byte>>, from: string, to: string)
    ensures var m := Moved(store, from, to);
      && (forall q :: q in store && !Under(q, from) && !Under(q, to) ==> q in m && m[q] == store[q])
      && (forall r :: r in store && Under(r, from) ==> Rebased(r, from, to) in m && m[Rebased(r, from, to)] == store[r])
      && (forall q :: q in m ==> (Under(q, to) && Rebased(q, to, from) in store)
                                 || (q in store && !Under(q, from) && !Under(q, to)))
  {
    var m := Moved(store, from, to);
    forall r | r in store && Under(r, from)
      ensures Rebased(r, from, to) in m && m[Rebased(r, from, to)] == store[r]
    {
      RebasedBack(r, from, to);
    }
  }

  /** The store after `p`, and everything beneath it, is removed. */
  function Removed(store: map<string, seq<Byte>>, p: string): map<string, seq<Byte>>
  {
    map q | q in store && !Under(q, p) :: store[q]
  }

  /** The directory set after `p`, and everything beneath it, is removed. */
  function RemovedDirs(dirs: set<string>, p: string): set<string>
  {
    set q | q in dirs && !Under(q, p)
  }

  /**
   * `s` is `t` up to the contents of directories: the same paths, and the
   * same bytes at every path outside `dirs`. A call that adds, removes or
   * renames an entry rewrites its parent directory's data in a format this
   * model does not follow, so those bytes are left open.
   */
  predicate SameFiles(s: map<string, seq<Byte>>, t: map<string, seq<Byte>>, dirs: set<string>)
  {
    s.Keys == t.Keys && forall q :: q in s && q !in dirs ==> s[q] == t[q]
  }

  /** Updating one path on both sides keeps SameFiles, when the values agree or the path is a directory. */
  lemma SameFilesUpdate(s: map<string, seq<Byte>>, t: map<string, seq<Byte>>, dirs: set<string>,
                        p: string, a: seq<Byte>, b: seq<Byte>)
    requires SameFiles(s, t, dirs) && (p !in dirs ==> a == b)
    ensures SameFiles(s[p := a], t[p := b], dirs)
  {
  }

  /** fs.Fs_t: one mounted filesystem. */
  class Fs {
    var store: map<string, seq<Byte>>
    var dirs: set<string>
    var durable: map<string, seq<Byte>>
    ghost var log: Trace

    /** common.BSIZE, fs.NDIRENTS and fs.Dirdata_t.Filename: the directory format. */
    const bsize: Pos
    const ndirents: nat
    const filename: (seq<Byte>, nat) -> string

    constructor (bsize: Pos, ndirents: nat, filename: (seq<Byte>, nat) -> string)
      ensures store == map[] && dirs == {} && durable == map[] && log == Empty
      ensures this.bsize == bsize && this.ndirents == ndirents && this.filename == filename
    {
      this.bsize := bsize;
      this.ndirents := ndirents;
      this.filename := filename;
      store, dirs, durable, log := map[], {}, map[], Empty;
    }

    /**
     * Fs_open: a descriptor at offset 0; O_CREAT makes an empty file if `p`
     * is missing, and may rewrite directory data (the new entry).
     */
    method Open(p: string, mode: OpenMode) returns (fd: Fd?, err: Err)
      modifies this
      ensures (err == 0) == (fd != null)
      ensures fd != null ==> fresh(fd) && fd.fs == this && fd.path == p && fd.off == 0
      ensures mode != Create && p !in old(store) ==> err < 0
      ensures err == 0 && mode == Create ==> SameFiles(store, old(store)[p := Prior(old(store), p)], dirs)
      ensures err != 0 || mode != Create ==> store == old(store)
      ensures dirs == old(dirs) && durable == old(durable)
      ensures log == Then(old(log), Call(FsOpen(p, mode), 0, err))
    {
      if mode != Create && p !in store {
        err :| err < 0;
      } else {
        err :| true;
      }
      if err == 0 {
        fd := new Fd(this, p);
        if mode == Create {
          var created := store[p := Prior(store, p)];
          assert SameFiles(created, created, dirs);
          var s :| SameFiles(s, created, dirs);
          store := s;
        }
      } else {
        fd := null;
      }
      log := Then(log, Call(FsOpen(p, mode), 0, err));
    }

    /**
     * Fs_mkdir: a new directory at a path that does not exist yet; its own
     * data and other directories' data are left open.
     */
    method Mkdir(p: string, perm: int) returns (err: Err)
      modifies this
      ensures p in old(store) ==> err < 0
      ensures err == 0 ==> p in store && SameFiles(store, old(store)[p := store[p]], dirs) && dirs == old(dirs) + {p}
      ensures err != 0 ==> store == old(store) && dirs == old(dirs)
      ensures durable == old(durable)
      ensures log == Then(old(log), Call(FsMkdir(p, perm), 0, err))
    {
      if p in store {
        err :| err < 0;
      } else {
        err :| true;
      }
      if err == 0 {
        var blob: seq<Byte> :| true;
        var created := store[p := blob];
        dirs := dirs + {p};
        assert SameFiles(created, created, dirs);
        var s :| SameFiles(s, created, dirs);
        assert SameFiles(s, created, dirs);
        assert SameFiles(s, old(store)[p := s[p]], dirs);
        store := s;
      }
      log := Then(log, Call(FsMkdir(p, perm), 0, err));
    }

    /**
     * Fs_rename: `from`, and everything beneath it, moves to `to`, replacing
     * whatever was there; directory data is left open.
     */
    method Rename(from: string, to: string) returns (err: Err)
      modifies this
      ensures from !in old(store) ==> err < 0
      ensures err == 0 ==> dirs == MovedDirs(old(dirs), from, to) && SameFiles(store, Moved(old(store), from, to), dirs)
      ensures err != 0 ==> store == old(store) && dirs == old(dirs)
      ensures durable == old(durable)
      ensures log == Then(old(log), Call(FsRename(from, to), 0, err))
    {
      if from in store {
        err :| true;
      } else {
        err :| err < 0;
      }
      if err == 0 {
        var moved := Moved(store, from, to);
        dirs := MovedDirs(dirs, from, to);
        assert SameFiles(moved, moved, dirs);
        var s :| SameFiles(s, moved, dirs);
        store := s;
      }
      log := Then(log, Call(FsRename(from, to), 0, err));
    }

    /**
     * Fs_unlink: `p`, and everything beneath it, disappears; directory data
     * is left open. The boolean is passed through as given.
     */
    method Unlink(p: string, flag: bool) returns (err: Err)
      modifies this
      ensures p !in old(store) ==> err < 0
      ensures err == 0 ==> dirs == RemovedDirs(old(dirs), p) && SameFiles(store, Removed(old(store), p), dirs)
      ensures err != 0 ==> store == old(store) && dirs == old(dirs)
      ensures durable == old(durable)
      ensures log == Then(old(log), Call(FsUnlink(p, flag), 0, err))
    {
      if p in store {
        err :| true;
      } else {
        err :| err < 0;
      }
      if err == 0 {
        var removed := Removed(store, p);
        dirs := RemovedDirs(dirs, p);
        assert SameFiles(removed, removed, dirs);
        var s :| SameFiles(s, removed, dirs);
        store := s;
      }
      log := Then(log, Call(FsUnlink(p, flag), 0, err));
    }

    /** Fs_stat: the size and type of `p`; nothing changes. */
    method Stat(p: string) returns (st: StatRec, err: Err)
      modifies this
      ensures p !in store ==> err < 0
      ensures err == 0 ==> p in store && st == StatOf(store, dirs, p)
      ensures store == old(store) && dirs == old(dirs) && durable == old(durable)
      ensures log == Then(old(log), Call(FsStat(p), if err == 0 then st.size else 0, err))
    {
      if p in store {
        err :| true;
      } else {
        err :| err < 0;
      }
      st := if err == 0 then StatOf(store, dirs, p) else StatRec(0, false);
      log := Then(log, Call(FsStat(p), if err == 0 then st.size else 0, err));
    }

    /** Fs_sync: on success everything written so far is durable. */
    method Sync() returns (err: Err)
      modifies this
      ensures durable == if err == 0 then store else old(durable)
      ensures store == old(store) && dirs == old(dirs)
      ensures log == Then(old(log), Call(FsSync, 0, err))
    {
      err :| true;
      if err == 0 {
        durable := store;
      }
      log := Then(log, Call(FsSync, 0, err));
    }
  }

  /** Copies `w` into `buf` from index `start`; the rest of `buf` is unchanged. */
  method Place(buf: array<Byte>, start: nat, w: seq<Byte>)
    requires start + |w| <= buf.Length
    modifies buf
    ensures buf[..] == old(buf[..])[..start] + w + old(buf[..])[start + |w|..]
  {
    forall k | start <= k < start + |w| {
      buf[k] := w[k - start];
    }
    assert buf[..] == old(buf[..])[..start] + w + old(buf[..])[start + |w|..];
  }

  /** An open file descriptor and its Fops: a path and a file offset. */
  class Fd {
    const fs: Fs
    const path: string
    var off: nat

    constructor (fs: Fs, path: string)
      ensures this.fs == fs && this.path == path && off == 0
    {
      this.fs := fs;
      this.path := path;
      off := 0;
    }

    /**
     * Fops.Write: some prefix of the remaining bytes of `ub` (possibly a
     * short one, even with code 0) is written at the file offset.
     */
    method Write(ub: Ubuf) returns (n: nat, err: Err)
      requires ub.Valid()
      modifies this, fs, ub
      ensures ub.Valid() && n <= old(ub.Remain())
      ensures err != 0 ==> n == 0
      ensures path !in old(fs.store) ==> err < 0
      ensures ub.off == old(ub.off) + n && off == old(off) + n
      ensures fs.store == if err == 0
                          then old(fs.store)[path := Overwrite(old(fs.store)[path], old(off), ub.buf[old(ub.off)..ub.off])]
                          else old(fs.store)
      ensures fs.dirs == old(fs.dirs) && fs.durable == old(fs.durable)
      ensures fs.log == Then(old(fs.log), Call(FsWrite(path, old(ub.Remain())), n, err))
    {
      var remain := ub.Remain();
      if path in fs.store {
        err :| true;
      } else {
        err :| err < 0;
      }
      if err == 0 {
        n :| n <= remain;
        fs.store := fs.store[path := Overwrite(fs.store[path], off, ub.buf[ub.off..ub.off + n])];
        ub.off := ub.off + n;
        off := off + n;
      } else {
        n := 0;
      }
      fs.log := Then(fs.log, Call(FsWrite(path, remain), n, err));
    }

    /**
     * Fops.Read: some bytes of the file from the file offset (possibly fewer
     * than are there, even with code 0) land in `ub` at its cursor.
     */
    method Read(ub: Ubuf) returns (n: nat, err: Err)
      requires ub.Valid()
      modifies this, fs, ub, ub.buf
      ensures ub.Valid() && n <= old(ub.Remain())
      ensures err != 0 ==> n == 0
      ensures path !in old(fs.store) ==> err < 0
      ensures n > 0 ==> path in old(fs.store) && old(off) + n <= |old(fs.store)[path]|
      ensures ub.off == old(ub.off) + n && off == old(off) + n
      ensures ub.buf[..] == old(ub.buf[..])[..old(ub.off)]
                          + Chunk(Prior(old(fs.store), path), old(off), n)
                          + old(ub.buf[..])[old(ub.off) + n..]
      ensures fs.store == old(fs.store) && fs.dirs == old(fs.dirs) && fs.durable == old(fs.durable)
      ensures fs.log == Then(old(fs.log), Call(FsRead(path, old(ub.Remain())), n, err))
    {
      var remain := ub.Remain();
      if path in fs.store {
        err :| true;
      } else {
        err :| err < 0;
      }
      if err == 0 {
        var data := fs.store[path];
        var avail := if off <= |data| then |data| - off else 0;
        n :| n <= remain && n <= avail;
        Place(ub.buf, ub.off, Chunk(data, off, n));
        ub.off := ub.off + n;
        off := off + n;
      } else {
        n := 0;
        assert ub.buf[..] == old(ub.buf[..])[..ub.off] + [] + old(ub.buf[..])[ub.off..];
      }
      fs.log := Then(fs.log, Call(FsRead(path, remain), n, err));
    }

    /** Fops.Lseek: the file offset becomes `offset` past the chosen origin. */
    method Lseek(offset: int, whence: Whence) returns (pos: int, err: Err)
      modifies this, fs
      ensures whence == SeekEnd && path !in old(fs.store) ==> err < 0
      ensures err == 0 ==> pos >= 0 && off == pos
      ensures err == 0 && whence == SeekEnd ==> pos == |old(fs.store)[path]| + offset
      ensures err == 0 && whence == SeekSet ==> pos == offset
      ensures err == 0 && whence == SeekCur ==> pos == old(off) + offset
      ensures err != 0 ==> off == old(off)
      ensures fs.store == old(fs.store) && fs.dirs == old(fs.dirs) && fs.durable == old(fs.durable)
      ensures fs.log == Then(old(fs.log), Call(FsSeek(path, offset, whence), pos, err))
    {
      if whence == SeekEnd && path !in fs.store {
        err :| err < 0;
        pos := 0;
      } else {
        var base := match whence
          case SeekSet => 0
          case SeekCur => off
          case SeekEnd => |fs.store[path]|;
        if base + offset < 0 {
          err :| err < 0;
          pos := 0;
        } else {
          err :| true;
          pos := if err == 0 then base + offset else 0;
          if err == 0 {
            off := base + offset;
          }
        }
      }
      fs.log := Then(fs.log, Call(FsSeek(path, offset, whence), pos, err));
    }

    /** Fops.Close. */
    method Close() returns (err: Err)
      modifies fs
      ensures fs.store == old(fs.store) && fs.dirs == old(fs.dirs) && fs.durable == old(fs.durable)
      ensures fs.log == Then(old(fs.log), Call(FsClose(path), 0, err))
    {
      err :| true;
      fs.log := Then(fs.log, Call(FsClose(path), 0, err));
    }
  }
}
