/**
 * ufs_t: a synchronous facade over one mounted filesystem engine. Each
 * mutating operation runs a fixed chain of engine calls (open, seek, write,
 * close, sync, or a single path operation followed by sync); the contracts
 * below say which calls are made, in which order, what is returned, and what
 * the engine's store, directory set and durable state are afterwards.
 */
module Facade {
  import opened Common
  import opened Engine
  import opened Protocol
  import opened Dirent

  /** The mode MkDir always passes: 0755 in octal. */
  const MkDirPerm: int := 0x1ED

  /** The path Ls stats for entry `name` of directory `p`. */
  function Child(p: string, name: string): string
  {
    p + "/" + name
  }

  /** mkData: a staging buffer holding `n` copies of `v`, cursor at the start. */
  method MkData(v: Byte, n: nat) returns (ub: Ubuf)
    ensures ub.Valid() && ub.off == 0 && ub.Remain() == n
    ensures ub.buf.Length == n && forall i :: 0 <= i < n ==> ub.buf[i] == v
  {
    var hdata := new Byte[n];
    for i := 0 to n
      invariant forall k :: 0 <= k < i ==> hdata[k] == v
    {
      hdata[i] := v;
    }
    ub := new Ubuf(hdata);
  }

  /** The copy loop of Read: a fresh slice holding the bytes of `hdata`. */
  method CopyBytes(hdata: array<Byte>) returns (v: array<Byte>)
    ensures fresh(v) && v[..] == hdata[..]
  {
    v := new Byte[hdata.Length];
    for i := 0 to hdata.Length
      invariant v[..i] == hdata[..i]
    {
      v[i] := hdata[i];
    }
  }

  /** MkFile's calls: open with O_CREAT, a write when a buffer is given, close, sync. */
  function MkFilePlan(p: string, payload: Option<nat>): seq<Step>
  {
    [FsOpen(p, Create)] + (if payload.Some? then [FsWrite(p, payload.value)] else []) + [FsClose(p), FsSync]
  }

  /** MkDir's calls: mkdir with mode 0755, sync. */
  function MkDirPlan(p: string): seq<Step>
  {
    [FsMkdir(p, MkDirPerm), FsSync]
  }

  /** Rename's calls: rename, sync. */
  function RenamePlan(from: string, to: string): seq<Step>
  {
    [FsRename(from, to), FsSync]
  }

  /** Append's calls: open with O_RDWR, seek to the end, write, close, sync. */
  function AppendPlan(p: string, want: nat): seq<Step>
  {
    [FsOpen(p, ReadWrite), FsSeek(p, 0, SeekEnd), FsWrite(p, want), FsClose(p), FsSync]
  }

  /** Unlink's calls: unlink with the boolean argument false, sync. */
  function UnlinkPlan(p: string): seq<Step>
  {
    [FsUnlink(p, false), FsSync]
  }

  /** The size a stat call reported, as a buffer length. */
  function Reported(c: Call): nat
  {
    if c.n < 0 then 0 else c.n
  }

  /** Read's calls: stat, open with O_RDONLY, one read of the size stat reported. No close. */
  function ReadPlan(p: string, size: nat): seq<Step>
  {
    [FsStat(p), FsOpen(p, ReadOnly), FsRead(p, size)]
  }

  /** Ls's calls after the read: one stat per listed name, in slot order. */
  function StatPlan(p: string, names: seq<string>): seq<Step>
  {
    seq(|names|, k requires 0 <= k < |names| => FsStat(Child(p, names[k])))
  }

  /**
   * `m` lists exactly the names `names`, each with the stat of
   * `p + "/" + name` in the state `store`, `dirs`.
   */
  ghost predicate Lists(m: map<string, StatRec>, p: string, names: seq<string>,
                        store: map<string, seq<Byte>>, dirs: set<string>)
  {
    && (forall nm :: nm in m <==> nm in names)
    && (forall nm :: nm in m ==> Child(p, nm) in store && m[nm] == StatOf(store, dirs, Child(p, nm)))
  }

  /** MkFile: a failing open is the only call made, and its code is returned. */
  lemma MkFileOpenFailure(p: string, payload: Option<nat>, t: Trace)
    requires FailFast(MkFilePlan(p, payload), t) && 0 < Len(t) && !Passes(Nth(t, 0))
    ensures Len(t) == 1 && Code(t) == Nth(t, 0).err
  {
    FirstFailureEndsRun(MkFilePlan(p, payload), t, 0);
  }

  /**
   * MkFile and Append: a write that returns 0 but leaves bytes unwritten is
   * the last call made (no close, no sync), and 0 is returned.
   */
  lemma ShortWriteReturnsZero(p: string, want: nat, t: Trace)
    requires FailFast(MkFilePlan(p, Some(want)), t) || FailFast(AppendPlan(p, want), t)
    requires var i := if FailFast(MkFilePlan(p, Some(want)), t) then 1 else 2;
      i < Len(t) && Nth(t, i).err == 0 && Nth(t, i).n != want
    ensures Code(t) == 0
    ensures FailFast(MkFilePlan(p, Some(want)), t) ==> Len(t) == 2 && !Completed(MkFilePlan(p, Some(want)), t)
    ensures !FailFast(MkFilePlan(p, Some(want)), t) ==> Len(t) == 3 && !Completed(AppendPlan(p, want), t)
  {
    if FailFast(MkFilePlan(p, Some(want)), t) {
      ShortTransferStops(MkFilePlan(p, Some(want)), t, 1);
    } else {
      ShortTransferStops(AppendPlan(p, want), t, 2);
    }
  }

  /** Sync is the plan's last step, and no earlier step. */
  predicate SyncLast(plan: seq<Step>)
  {
    plan != [] && plan[|plan| - 1] == FsSync && forall k :: 0 <= k < |plan| - 1 ==> plan[k] != FsSync
  }

  /** MkFile, MkDir, Append and Unlink each sync last, and only then. */
  lemma PlansSyncLast(p: string, payload: Option<nat>, want: nat)
    ensures SyncLast(MkFilePlan(p, payload)) && SyncLast(MkDirPlan(p))
    ensures SyncLast(AppendPlan(p, want)) && SyncLast(UnlinkPlan(p))
  {
  }

  /**
   * In a fail-fast run of a plan that syncs last (MkFile, MkDir, Append,
   * Unlink), sync is called only after every earlier step passed, and its
   * code is what is returned.
   */
  lemma SyncOnlyAfterSuccess(plan: seq<Step>, t: Trace, i: nat)
    requires SyncLast(plan) && FailFast(plan, t) && i < Len(t) && Nth(t, i).step == FsSync
    ensures i == Len(t) - 1 == |plan| - 1
    ensures forall k :: 0 <= k < i ==> Passes(Nth(t, k))
    ensures Code(t) == Nth(t, i).err
  {
    LastStepOnlyAfterSuccess(plan, t, i);
  }

  /** MkDir and Unlink: the code is 0 exactly when both steps ran and passed. */
  lemma ZeroExactlyWhenSynced(p: string, plan: seq<Step>, t: Trace)
    requires plan == MkDirPlan(p) || plan == UnlinkPlan(p)
    requires FailFast(plan, t)
    ensures t.Then? && (Code(t) == 0 <==> Completed(plan, t))
  {
    ZeroCodeIffCompleted(plan, t);
  }

  /**
   * Ls's listing: its keys are exactly the non-empty names held by a slot
   * j < NDIRENTS of a whole block i < len(d)/BSIZE, and each maps to the stat
   * of `p + "/" + name`.
   */
  lemma ListingKeys(m: map<string, StatRec>, p: string, d: seq<Byte>, bsize: Pos, nd: nat, filename: Filename,
                    store: map<string, seq<Byte>>, dirs: set<string>)
    requires Lists(m, p, Names(d, bsize, nd, filename), store, dirs)
    ensures forall nm :: nm in m <==>
      nm != [] && exists i, j :: 0 <= i < |d| / bsize && 0 <= j < nd && Slot(d, bsize, filename, i, j) == nm
    ensures forall nm :: nm in m ==> Child(p, nm) in store && m[nm] == StatOf(store, dirs, Child(p, nm))
  {
    forall nm
      ensures nm in m <==>
        nm != [] && exists i, j :: 0 <= i < |d| / bsize && 0 <= j < nd && Slot(d, bsize, filename, i, j) == nm
    {
      InNames(d, bsize, nd, filename, nm);
    }
  }

  /**
   * How Append ends: with a code, or with the run-time panic of calling
   * Lseek through the nil descriptor a failed open leaves.
   */
  datatype Exit = Returned(code: Err) | Panicked

  class Ufs {
    const fs: Fs

    constructor (fs: Fs)
      ensures this.fs == fs
    {
      this.fs := fs;
    }

    /**
     * Part-way through Ls's walk: the stats made since `log0` are `t`, one
     * per non-empty name of the slots `seen`, each passed, and `m` lists them.
     */
    ghost predicate Walked(p: string, plan: seq<Step>, log0: Trace, seen: seq<string>,
                           m: map<string, StatRec>, t: Trace)
      reads fs
    {
      fs.log == Cat(log0, t) && Ran(plan, t) && Len(t) == |NonEmpty(seen)| && Lists(m, p, NonEmpty(seen), fs.store, fs.dirs)
    }

    /**
     * The tail MkFile and Append share after the file is open: close the
     * descriptor, then sync, each ending the run on failure. These are the
     * last two steps of `plan`; `t` holds the calls made before them.
     */
    method CloseAndSync(fd: Fd, ghost plan: seq<Step>, ghost log0: Trace, ghost t: Trace)
      returns (err: Err, ghost t': Trace)
      requires fd.fs == fs && fs.log == Cat(log0, t)
      requires Ran(plan, t) && Len(t) + 2 == |plan| && plan[Len(t)] == FsClose(fd.path) && plan[Len(t) + 1] == FsSync
      modifies fs
      ensures fs.log == Cat(log0, t')
      ensures FailFast(plan, t') && t'.Then? && err == Code(t') && Extends(t'.before, t)
      ensures fs.store == old(fs.store) && fs.dirs == old(fs.dirs)
      ensures fs.durable == if Completed(plan, t') then fs.store else old(fs.durable)
    {
      err := fd.Close();
      ghost var c := Call(FsClose(fd.path), 0, err);
      if err != 0 {
        StopsAt(plan, t, c);
        t' := Then(t, c);
        return;
      }
      RanNext(plan, t, c);
      t' := Then(t, c);
      err := fs.Sync();
      c := Call(FsSync, 0, err);
      EndsWith(plan, t', c);
      t' := Then(t', c);
    }

    /**
     * The write MkFile and Append make, and what follows it: write all of `ub`
     * at the descriptor's offset; a failure or a short write (even with code 0)
     * ends the run with the write's code, otherwise close and sync follow.
     * These are the last three steps of `plan`; `w` is the write's call.
     */
    method WriteCloseSync(fd: Fd, ub: Ubuf, ghost plan: seq<Step>, ghost log0: Trace, ghost t: Trace)
      returns (err: Err, ghost t': Trace, ghost w: Call)
      requires fd.fs == fs && fs.log == Cat(log0, t) && ub.Valid()
      requires Ran(plan, t) && Len(t) + 3 == |plan|
      requires plan[Len(t)] == FsWrite(fd.path, ub.Remain()) && plan[Len(t) + 1] == FsClose(fd.path) && plan[Len(t) + 2] == FsSync
      modifies fs, fd, ub
      ensures fs.log == Cat(log0, t')
      ensures FailFast(plan, t') && t'.Then? && err == Code(t') && Extends(t', Then(t, w))
      ensures w.step == plan[Len(t)] && (w.err == 0 ==> fd.path in old(fs.store))
      ensures ub.Valid() && old(ub.off) <= ub.off == old(ub.off) + w.n && (w.err != 0 ==> ub.off == old(ub.off))
      ensures Passes(w) ==> ub.off == ub.buf.Length
      ensures fs.store == if w.err == 0
                          then old(fs.store)[fd.path := Overwrite(old(fs.store)[fd.path], old(fd.off), ub.buf[old(ub.off)..ub.off])]
                          else old(fs.store)
      ensures fs.dirs == old(fs.dirs)
      ensures fs.durable == if Completed(plan, t') then fs.store else old(fs.durable)
    {
      var n: nat;
      n, err := fd.Write(ub);
      w := Call(FsWrite(fd.path, old(ub.Remain())), n, err);
      if err != 0 || ub.Remain() != 0 {
        StopsAt(plan, t, w);
        t' := Then(t, w);
        return;
      }
      RanNext(plan, t, w);
      err, t' := CloseAndSync(fd, plan, log0, Then(t, w));
    }

    /**
     * MkFile: create `p` (or open it if it exists), write all of `ub` at offset
     * 0 when `ub` is given, close, sync; fail-fast, returning the code of the
     * last call made. A short write with code 0 stops the run and returns 0.
     */
    method MkFile(p: string, ub: Ubuf?) returns (err: Err, ghost t: Trace)
      requires ub != null ==> ub.Valid()
      modifies fs, ub
      ensures fs.log == Cat(old(fs.log), t)
      ensures FailFast(MkFilePlan(p, if ub == null then None else Some(old(ub.Remain()))), t)
      ensures t.Then? && err == Code(t)
      ensures ub != null ==> ub.Valid() && old(ub.off) <= ub.off
      ensures ub != null ==> ub.off == old(ub.off) + (if 2 <= Len(t) then Nth(t, 1).n else 0)
      ensures ub != null && Completed(MkFilePlan(p, Some(old(ub.Remain()))), t) ==> ub.off == ub.buf.Length
      ensures Passes(Nth(t, 0)) ==>
                SameFiles(fs.store, old(fs.store)[p := Overwrite(Prior(old(fs.store), p), 0,
                                                                 if ub == null then [] else ub.buf[old(ub.off)..ub.off])],
                          fs.dirs)
      ensures !Passes(Nth(t, 0)) ==> fs.store == old(fs.store)
      ensures fs.dirs == old(fs.dirs)
      ensures fs.durable == if Completed(MkFilePlan(p, if ub == null then None else Some(old(ub.Remain()))), t)
                            then fs.store else old(fs.durable)
    {
      ghost var plan := MkFilePlan(p, if ub == null then None else Some(ub.Remain()));
      RanNothing(plan);
      var fd;
      fd, err := fs.Open(p, Create);
      ghost var c := Call(FsOpen(p, Create), 0, err);
      if err != 0 {
        StopsAt(plan, Empty, c);
        t := Then(Empty, c);
        return;
      }
      RanNext(plan, Empty, c);
      ghost var prior := Prior(old(fs.store), p);
      ghost var created := fs.store;
      if ub == null {
        err, t := CloseAndSync(fd, plan, old(fs.log), Then(Empty, c));
        ExtendsNth(t.before, Then(Empty, c), 0);
        OverwriteNothing(prior);
      } else {
        ghost var w;
        err, t, w := WriteCloseSync(fd, ub, plan, old(fs.log), Then(Empty, c));
        ExtendsNth(t, Then(Then(Empty, c), w), 0);
        ExtendsNth(t, Then(Then(Empty, c), w), 1);
        if w.err == 0 {
          ghost var written := ub.buf[old(ub.off)..ub.off];
          SameFilesUpdate(created, old(fs.store)[p := prior], fs.dirs, p,
                          Overwrite(created[p], 0, written), Overwrite(prior, 0, written));
          UpdateTwice(old(fs.store), p, prior, Overwrite(prior, 0, written));
        } else {
          assert ub.buf[old(ub.off)..ub.off] == [];
          OverwriteNothing(prior);
        }
        if Completed(plan, t) {
          CompletedMeans(plan, t);
          assert Passes(Nth(t, 1));
        }
      }
    }

    /** MkDir: mkdir `p` with mode 0755, then sync; fail-fast. */
    method MkDir(p: string) returns (err: Err, ghost t: Trace)
      modifies fs
      ensures fs.log == Cat(old(fs.log), t)
      ensures FailFast(MkDirPlan(p), t)
      ensures t.Then? && err == Code(t)
      ensures Passes(Nth(t, 0)) ==> p !in old(fs.store) && p in fs.store
      ensures Passes(Nth(t, 0)) ==> SameFiles(fs.store, old(fs.store)[p := fs.store[p]], fs.dirs)
      ensures !Passes(Nth(t, 0)) ==> fs.store == old(fs.store)
      ensures fs.dirs == if Passes(Nth(t, 0)) then old(fs.dirs) + {p} else old(fs.dirs)
      ensures fs.durable == if Completed(MkDirPlan(p), t) then fs.store else old(fs.durable)
    {
      ghost var plan := MkDirPlan(p);
      t := Empty;
      RanNothing(plan);
      err := fs.Mkdir(p, MkDirPerm);
      ghost var c := Call(FsMkdir(p, MkDirPerm), 0, err);
      if err != 0 {
        StopsAt(plan, t, c);
        t := Then(t, c);
        assert fs.log == Cat(old(fs.log), t);
        return;
      }
      RanNext(plan, t, c);
      t := Then(t, c);
      assert fs.log == Cat(old(fs.log), t);
      err := fs.Sync();
      c := Call(FsSync, 0, err);
      EndsWith(plan, t, c);
      t := Then(t, c);
      assert fs.log == Cat(old(fs.log), t);
    }

    /**
     * Rename: rename `oldp` to `newp`, then sync whatever the rename returned;
     * the code returned is the sync's, so a failed rename followed by a
     * successful sync returns 0.
     */
    method Rename(oldp: string, newp: string) returns (err: Err, ghost t: Trace)
      modifies fs
      ensures fs.log == Cat(old(fs.log), t)
      ensures RunAll(RenamePlan(oldp, newp), t)
      ensures err == Code(t) == Nth(t, 1).err
      ensures Nth(t, 0).err == 0 ==> oldp in old(fs.store)
      ensures Nth(t, 0).err == 0 ==> SameFiles(fs.store, Moved(old(fs.store), oldp, newp), fs.dirs)
      ensures Nth(t, 0).err != 0 ==> fs.store == old(fs.store)
      ensures fs.dirs == if Nth(t, 0).err == 0 then MovedDirs(old(fs.dirs), oldp, newp) else old(fs.dirs)
      ensures fs.durable == if Nth(t, 1).err == 0 then fs.store else old(fs.durable)
    {
      ghost var plan := RenamePlan(oldp, newp);
      t := Empty;
      err := fs.Rename(oldp, newp);
      ghost var c := Call(FsRename(oldp, newp), 0, err);
      t := Then(t, c);
      assert fs.log == Cat(old(fs.log), t);
      err := fs.Sync();
      c := Call(FsSync, 0, err);
      t := Then(t, c);
      assert fs.log == Cat(old(fs.log), t);
    }

    /**
     * Append: open `p` read-write, seek to its end, write all of `ub`, close,
     * sync; fail-fast from the seek on. A failed open is not checked: the
     * seek goes through the nil descriptor and the program panics.
     */
    method Append(p: string, ub: Ubuf) returns (out: Exit, ghost t: Trace)
      requires ub.Valid()
      modifies fs, ub
      ensures fs.log == Cat(old(fs.log), t)
      ensures FailFast(AppendPlan(p, old(ub.Remain())), t)
      ensures t.Then? && out == if Passes(Nth(t, 0)) then Returned(Code(t)) else Panicked
      ensures ub.Valid() && old(ub.off) <= ub.off
      ensures Len(t) < 3 ==> ub.off == old(ub.off)
      ensures 3 <= Len(t) ==> ub.off == old(ub.off) + Nth(t, 2).n
      ensures Completed(AppendPlan(p, old(ub.Remain())), t) ==> ub.off == ub.buf.Length
      ensures Passes(Nth(t, 0)) ==> p in old(fs.store)
      ensures fs.store == if 3 <= Len(t) && Nth(t, 2).err == 0
                          then old(fs.store)[p := Prior(old(fs.store), p) + ub.buf[old(ub.off)..ub.off]]
                          else old(fs.store)
      ensures fs.dirs == old(fs.dirs)
      ensures fs.durable == if Completed(AppendPlan(p, old(ub.Remain())), t) then fs.store else old(fs.durable)
    {
      ghost var plan := AppendPlan(p, ub.Remain());
      RanNothing(plan);
      var fd, err := fs.Open(p, ReadWrite);
      ghost var c := Call(FsOpen(p, ReadWrite), 0, err);
      if fd == null {
        // Lseek is called through the nil descriptor: a run-time panic.
        StopsAt(plan, Empty, c);
        t := Then(Empty, c);
        assert fs.log == Cat(old(fs.log), t);
        out := Panicked;
        return;
      }
      RanNext(plan, Empty, c);
      t := Then(Empty, c);
      assert fs.log == Cat(old(fs.log), t);
      var end;
      end, err := fd.Lseek(0, SeekEnd);
      c := Call(FsSeek(p, 0, SeekEnd), end, err);
      if err != 0 {
        StopsAt(plan, t, c);
        t := Then(t, c);
        assert fs.log == Cat(old(fs.log), t);
        out := Returned(err);
        return;
      }
      RanNext(plan, t, c);
      t := Then(t, c);
      assert fs.log == Cat(old(fs.log), t);
      ghost var sought := t;
      ghost var w;
      assert fd.off == |old(fs.store)[p]| && fs.store == old(fs.store);
      err, t, w := WriteCloseSync(fd, ub, plan, old(fs.log), t);
      ExtendsNth(t, Then(sought, w), 0);
      ExtendsNth(t, Then(sought, w), 2);
      assert Nth(t, 2) == w && 3 <= Len(t);
      if Completed(plan, t) {
        CompletedMeans(plan, t);
        assert Passes(Nth(t, 2));
      }
      if w.err == 0 {
        OverwriteAtEnd(old(fs.store)[p], ub.buf[old(ub.off)..ub.off]);
      }
      out := Returned(err);
    }

    /** Unlink: unlink `p` (boolean argument false), then sync; fail-fast, so a failed unlink is not synced. */
    method Unlink(p: string) returns (err: Err, ghost t: Trace)
      modifies fs
      ensures fs.log == Cat(old(fs.log), t)
      ensures FailFast(UnlinkPlan(p), t)
      ensures t.Then? && err == Code(t)
      ensures Passes(Nth(t, 0)) ==> p in old(fs.store)
      ensures Passes(Nth(t, 0)) ==> SameFiles(fs.store, Removed(old(fs.store), p), fs.dirs)
      ensures !Passes(Nth(t, 0)) ==> fs.store == old(fs.store)
      ensures fs.dirs == if Passes(Nth(t, 0)) then RemovedDirs(old(fs.dirs), p) else old(fs.dirs)
      ensures fs.durable == if Completed(UnlinkPlan(p), t) then fs.store else old(fs.durable)
    {
      ghost var plan := UnlinkPlan(p);
      t := Empty;
      RanNothing(plan);
      err := fs.Unlink(p, false);
      ghost var c := Call(FsUnlink(p, false), 0, err);
      if err != 0 {
        StopsAt(plan, t, c);
        t := Then(t, c);
        assert fs.log == Cat(old(fs.log), t);
        return;
      }
      RanNext(plan, t, c);
      t := Then(t, c);
      assert fs.log == Cat(old(fs.log), t);
      err := fs.Sync();
      c := Call(FsSync, 0, err);
      EndsWith(plan, t, c);
      t := Then(t, c);
      assert fs.log == Cat(old(fs.log), t);
    }

    /** Stat: one engine stat; a record exactly when its code is 0. */
    method Stat(p: string) returns (st: Option<StatRec>, err: Err, ghost c: Call)
      modifies fs
      ensures fs.log == Then(old(fs.log), c)
      ensures c.step == FsStat(p) && err == c.err
      ensures st.Some? <==> err == 0
      ensures st.Some? ==> p in fs.store && st.value == StatOf(fs.store, fs.dirs, p) && c.n == st.value.size
      ensures p !in fs.store ==> st == None
      ensures fs.store == old(fs.store) && fs.dirs == old(fs.dirs) && fs.durable == old(fs.durable)
    {
      var s, e := fs.Stat(p);
      err := e;
      c := Call(FsStat(p), if err == 0 then s.size else 0, err);
      if err != 0 {
        st := None;
        return;
      }
      st := Some(s);
    }

    /**
     * Read: the whole of `p`. Stat for the size, open read-only, one read into
     * a buffer of that size; fail-fast, a short read counting as a failure
     * whose code (possibly 0) is returned with no data. The descriptor is
     * never closed.
     */
    method Read(p: string) returns (data: Option<seq<Byte>>, err: Err, ghost t: Trace)
      modifies fs
      ensures fs.log == Cat(old(fs.log), t)
      ensures t.Then? && FailFast(ReadPlan(p, Reported(Nth(t, 0))), t)
      ensures err == Code(t)
      ensures data.Some? <==> Completed(ReadPlan(p, Reported(Nth(t, 0))), t)
      ensures data.Some? ==> p in old(fs.store) && data.value == old(fs.store)[p]
      ensures data.Some? ==> |data.value| == Reported(Nth(t, 0))
      ensures fs.store == old(fs.store) && fs.dirs == old(fs.dirs) && fs.durable == old(fs.durable)
    {
      t := Empty;
      var st;
      ghost var c;
      st, err, c := Stat(p);
      ghost var plan := ReadPlan(p, Reported(c));
      RanNothing(plan);
      if err != 0 {
        StopsAt(plan, t, c);
        t := Then(t, c);
        assert fs.log == Cat(old(fs.log), t);
        data := None;
        return;
      }
      RanNext(plan, t, c);
      t := Then(t, c);
      assert fs.log == Cat(old(fs.log), t);
      var size := st.value.size;
      var fd;
      fd, err := fs.Open(p, ReadOnly);
      c := Call(FsOpen(p, ReadOnly), 0, err);
      if err != 0 {
        StopsAt(plan, t, c);
        t := Then(t, c);
        assert fs.log == Cat(old(fs.log), t);
        data := None;
        return;
      }
      RanNext(plan, t, c);
      t := Then(t, c);
      assert fs.log == Cat(old(fs.log), t);
      var hdata := new Byte[size];
      var ub := new Ubuf(hdata);
      var n;
      n, err := fd.Read(ub);
      c := Call(FsRead(p, size), n, err);
      EndsWith(plan, t, c);
      t := Then(t, c);
      assert fs.log == Cat(old(fs.log), t);
      if err != 0 || n != hdata.Length {
        data := None;
        return;
      }
      ChunkAll(old(fs.store)[p]);
      assert hdata[..] == old(fs.store)[p];
      var v := CopyBytes(hdata);
      data := Some(v[..]);
    }

    /**
     * Creating a new file and reading it back: when MkFile on a path that
     * is neither a file nor a directory runs to completion and the Read that
     * follows returns data, that data is exactly the bytes `ub` held from its
     * cursor on.
     */
    method MkFileThenRead(p: string, ub: Ubuf) returns (err: Err, data: Option<seq<Byte>>, ghost t: Trace)
      requires ub.Valid() && p !in fs.store && p !in fs.dirs
      modifies fs, ub
      ensures FailFast(MkFilePlan(p, Some(old(ub.Remain()))), t) && t.Then? && err == Code(t)
      ensures Completed(MkFilePlan(p, Some(old(ub.Remain()))), t) && data.Some? ==> data.value == old(ub.buf[ub.off..])
    {
      ghost var payload := ub.buf[ub.off..];
      err, t := MkFile(p, ub);
      if Completed(MkFilePlan(p, Some(old(ub.Remain()))), t) {
        CompletedMeans(MkFilePlan(p, Some(old(ub.Remain()))), t);
        assert Passes(Nth(t, 0));
        assert ub.buf[old(ub.off)..ub.off] == payload;
        OverwriteAll([], payload);
        assert fs.store[p] == payload;
      }
      var readErr;
      ghost var readT;
      data, readErr, readT := Read(p);
    }

    /**
     * Unlinking and looking again: when Unlink's unlink passed, a Stat of
     * the same path that follows finds nothing, whatever the sync returned.
     */
    method UnlinkThenStat(p: string) returns (err: Err, st: Option<StatRec>, ghost t: Trace)
      modifies fs
      ensures FailFast(UnlinkPlan(p), t) && t.Then? && err == Code(t)
      ensures Passes(Nth(t, 0)) ==> st == None
    {
      err, t := Unlink(p);
      var statErr;
      ghost var c;
      st, statErr, c := Stat(p);
    }

    /**
     * Appending and reading back: when Append runs to completion and the
     * Read that follows returns data, that data is the file's old contents
     * followed by the bytes `ub` held from its cursor on. A panicking Append
     * ends the program, so nothing is read after it.
     */
    method AppendThenRead(p: string, ub: Ubuf) returns (out: Exit, data: Option<seq<Byte>>, ghost t: Trace)
      requires ub.Valid()
      modifies fs, ub
      ensures FailFast(AppendPlan(p, old(ub.Remain())), t) && t.Then?
      ensures out.Panicked? ==> data == None
      ensures Completed(AppendPlan(p, old(ub.Remain())), t) && data.Some? ==>
                p in old(fs.store) && data.value == old(fs.store)[p] + old(ub.buf[ub.off..])
    {
      ghost var payload := ub.buf[ub.off..];
      out, t := Append(p, ub);
      if out.Panicked? {
        data := None;
        return;
      }
      if Completed(AppendPlan(p, old(ub.Remain())), t) {
        CompletedMeans(AppendPlan(p, old(ub.Remain())), t);
        assert Passes(Nth(t, 0)) && Passes(Nth(t, 2));
        assert ub.buf[old(ub.off)..ub.off] == payload;
      }
      var readErr;
      ghost var readT;
      data, readErr, readT := Read(p);
    }

    /**
     * One slot of Ls's walk: when its name `tfn` is non-empty, stat
     * `p + "/" + tfn` and record the result under `tfn`; a failing stat ends
     * the walk with its code. `seen` are the slots walked before this one,
     * `t0` the stats made for them, and `m0` the listing built from them.
     */
    method StatSlot(p: string, tfn: string, ghost plan: seq<Step>, ghost names: seq<string>, ghost all: seq<string>,
                    ghost log0: Trace, ghost seen: seq<string>, m0: map<string, StatRec>, ghost t0: Trace)
      returns (m: map<string, StatRec>, err: Err, ghost t: Trace)
      requires plan == StatPlan(p, names) && seen + [tfn] <= all && NonEmpty(all) <= names
      requires Walked(p, plan, log0, seen, m0, t0)
      modifies fs
      ensures fs.log == Cat(log0, t)
      ensures fs.store == old(fs.store) && fs.dirs == old(fs.dirs) && fs.durable == old(fs.durable)
      ensures err == 0 ==> Walked(p, plan, log0, seen + [tfn], m, t)
      ensures err != 0 ==> FailFast(plan, t) && !Completed(plan, t) && Code(t) == err
    {
      NonEmptySnoc(seen, tfn);
      NonEmptyPrefix(seen + [tfn], all);
      PrefixTrans(NonEmpty(seen + [tfn]), NonEmpty(all), names);
      m, err, t := m0, 0, t0;
      if |tfn| > 0 {
        assert names[Len(t0)] == tfn;
        var f := p + "/" + tfn;
        var st;
        ghost var c;
        st, err, c := Stat(f);
        if err != 0 {
          StopsAt(plan, t0, c);
          t := Then(t0, c);
          return;
        }
        RanNext(plan, t0, c);
        t := Then(t0, c);
        m := m0[tfn := st.value];
      }
    }

    /**
     * One block of Ls's walk: its NDIRENTS slots in order, as StatSlot says;
     * the first failing stat ends the walk with its code. `seen0` are the
     * slots walked before this block, `t0` the stats made for them, and `m0`
     * the listing built from them.
     */
    method StatBlock(p: string, dd: seq<Byte>, ghost plan: seq<Step>, ghost names: seq<string>,
                     ghost log0: Trace, ghost seen0: seq<string>, m0: map<string, StatRec>, ghost t0: Trace)
      returns (m: map<string, StatRec>, err: Err, ghost t: Trace)
      requires plan == StatPlan(p, names) && NonEmpty(seen0 + BlockSlots(dd, fs.ndirents, fs.filename)) <= names
      requires Walked(p, plan, log0, seen0, m0, t0)
      modifies fs
      ensures fs.log == Cat(log0, t)
      ensures fs.store == old(fs.store) && fs.dirs == old(fs.dirs) && fs.durable == old(fs.durable)
      ensures err == 0 ==> Walked(p, plan, log0, seen0 + BlockSlots(dd, fs.ndirents, fs.filename), m, t)
      ensures err != 0 ==> FailFast(plan, t) && !Completed(plan, t) && Code(t) == err
    {
      var nd, filename := fs.ndirents, fs.filename;
      ghost var all := seen0 + BlockSlots(dd, nd, filename);
      ghost var seen := seen0;
      m, t := m0, t0;
      SlotsSoFar(seen0, dd, 0, nd, filename);
      var j := 0;
      while j < nd
        invariant 0 <= j <= nd
        invariant seen == seen0 + BlockSlots(dd, j, filename)
        invariant Walked(p, plan, log0, seen, m, t)
        invariant fs.store == old(fs.store) && fs.dirs == old(fs.dirs) && fs.durable == old(fs.durable)
      {
        var tfn := filename(dd, j);
        SlotsSoFar(seen0, dd, j, nd, filename);
        m, err, t := StatSlot(p, tfn, plan, names, all, log0, seen, m, t);
        if err != 0 {
          return;
        }
        seen := seen + [tfn];
        j := j + 1;
      }
      err := 0;
    }

    /**
     * The walk of Ls over the directory data `d`: its len(d)/BSIZE whole
     * blocks of NDIRENTS slots, a stat of `p + "/" + name` for every non-empty
     * name, building name -> stat; the first failing stat ends the walk with
     * its code and no listing.
     */
    method StatAll(p: string, d: seq<Byte>) returns (res: Option<map<string, StatRec>>, err: Err, ghost statT: Trace)
      modifies fs
      ensures fs.log == Cat(old(fs.log), statT)
      ensures fs.store == old(fs.store) && fs.dirs == old(fs.dirs) && fs.durable == old(fs.durable)
      ensures FailFast(StatPlan(p, Names(d, fs.bsize, fs.ndirents, fs.filename)), statT)
      ensures Completed(StatPlan(p, Names(d, fs.bsize, fs.ndirents, fs.filename)), statT) ==>
        err == 0 && res.Some? && Lists(res.value, p, Names(d, fs.bsize, fs.ndirents, fs.filename), fs.store, fs.dirs)
      ensures !Completed(StatPlan(p, Names(d, fs.bsize, fs.ndirents, fs.filename)), statT) ==>
        statT.Then? && res == None && err == Code(statT) && err != 0
    {
      var bsize, nd, filename := fs.bsize, fs.ndirents, fs.filename;
      var nblocks := |d| / bsize;
      BlockFitsAll(|d|, bsize);
      ghost var all := DirSlots(d, nblocks, bsize, nd, filename);
      ghost var names := NonEmpty(all);
      assert names == Names(d, bsize, nd, filename);
      ghost var plan := StatPlan(p, names);
      ghost var log0 := fs.log;
      var m: map<string, StatRec> := map[];
      statT := Empty;
      RanNothing(plan);
      ghost var seen: seq<string> := [];
      var i := 0;
      while i < nblocks
        invariant 0 <= i <= nblocks
        invariant seen == DirSlots(d, i, bsize, nd, filename)
        invariant Walked(p, plan, log0, seen, m, statT)
        invariant fs.store == old(fs.store) && fs.dirs == old(fs.dirs) && fs.durable == old(fs.durable)
      {
        BlockStep(d, i, nblocks, bsize, nd, filename);
        var e;
        m, e, statT := StatBlock(p, d[i * bsize..], plan, names, log0, seen, m, statT);
        if e != 0 {
          res, err := None, e;
          return;
        }
        seen := DirSlots(d, i + 1, bsize, nd, filename);
        i := i + 1;
      }
      RanAll(plan, statT);
      res, err := Some(m), 0;
    }

    /**
     * Ls: read directory `p` whole, then walk it as StatAll says. A read that
     * fails with a nonzero code ends the listing with that code; one that
     * comes back short with code 0 leaves no data, which lists as an empty
     * directory.
     */
    method Ls(p: string) returns (res: Option<map<string, StatRec>>, err: Err,
                                  ghost readT: Trace, ghost statT: Trace)
      modifies fs
      ensures fs.log == Cat(Cat(old(fs.log), readT), statT)
      ensures readT.Then? && FailFast(ReadPlan(p, Reported(Nth(readT, 0))), readT)
      ensures fs.store == old(fs.store) && fs.dirs == old(fs.dirs) && fs.durable == old(fs.durable)
      ensures Code(readT) != 0 ==> res == None && err == Code(readT) && statT == Empty
      ensures Code(readT) == 0 ==>
        var d := if Completed(ReadPlan(p, Reported(Nth(readT, 0))), readT) then Prior(old(fs.store), p) else [];
        var names := Names(d, fs.bsize, fs.ndirents, fs.filename);
        && FailFast(StatPlan(p, names), statT)
        && (Completed(StatPlan(p, names), statT) ==>
              err == 0 && res.Some? && Lists(res.value, p, names, fs.store, fs.dirs))
        && (!Completed(StatPlan(p, names), statT) ==>
              statT.Then? && res == None && err == Code(statT) && err != 0)
    {
      var data, e;
      data, e, readT := Read(p);
      if e != 0 {
        res, err, statT := None, e, Empty;
        return;
      }
      var d := if data.Some? then data.value else [];
      assert d == if Completed(ReadPlan(p, Reported(Nth(readT, 0))), readT) then Prior(old(fs.store), p) else [];
      res, err, statT := StatAll(p, d);
    }
  }
}
