/**
 * The facade's view of a directory's bytes: `len(d)/BSIZE` whole blocks of
 * NDIRENTS slots each, read in order, every slot holding a name (empty for an
 * unused slot). The name of slot j of block i is what fs.Dirdata_t.Filename(j)
 * returns for the bytes from block i on; that decoding belongs to the engine
 * and is a parameter here. Nothing in this module depends on the engine.
 */
module Dirent {
  import opened Common

  /** fs.Dirdata_t.Filename: the name in slot `j` of the directory data `dd`. */
  type Filename = (seq<Byte>, nat) -> string

  lemma MulMono(a: nat, b: nat, c: nat)
    requires a <= b
    ensures 0 <= a * c <= b * c
  {
    assert b * c == a * c + (b - a) * c;
  }

  /** The name of slot `j` of block `i` of `d`. */
  function Slot(d: seq<Byte>, bsize: Pos, filename: Filename, i: nat, j: nat): string
  {
    if i * bsize <= |d| then filename(d[i * bsize..], j) else []
  }

  /** The names of slots 0 .. n-1 of the directory data `dd`, empty ones included. */
  function BlockSlots(dd: seq<Byte>, n: nat, filename: Filename): (s: seq<string>)
    ensures |s| == n
  {
    if n == 0 then [] else BlockSlots(dd, n - 1, filename) + [filename(dd, n - 1)]
  }

  /** The names of every slot of the first `k` blocks of `d`, block by block. */
  function DirSlots(d: seq<Byte>, k: nat, bsize: Pos, nd: nat, filename: Filename): (s: seq<string>)
    requires k * bsize <= |d|
    ensures |s| == k * nd
  {
    if k == 0 then []
    else
      MulMono(k - 1, k, bsize);
      DirSlots(d, k - 1, bsize, nd, filename) + BlockSlots(d[(k - 1) * bsize..], nd, filename)
  }

  /** The non-empty names of `s`, in order. */
  function NonEmpty(s: seq<string>): (r: seq<string>)
    ensures |r| <= |s|
    ensures forall nm :: nm in r <==> nm in s && nm != []
  {
    if s == [] then []
    else
      var last := s[|s| - 1];
      assert forall nm :: nm in s <==> nm in s[..|s| - 1] || nm == last;
      NonEmpty(s[..|s| - 1]) + (if last != [] then [last] else [])
  }

  /** The names Ls resolves, in the order it resolves them. */
  function Names(d: seq<Byte>, bsize: Pos, nd: nat, filename: Filename): seq<string>
  {
    BlockFitsAll(|d|, bsize);
    NonEmpty(DirSlots(d, |d| / bsize, bsize, nd, filename))
  }

  lemma BlockFitsAll(len: nat, bsize: Pos)
    ensures (len / bsize) * bsize <= len
  {
  }

  lemma NonEmptySnoc(s: seq<string>, nm: string)
    ensures NonEmpty(s + [nm]) == NonEmpty(s) + (if nm != [] then [nm] else [])
  {
    assert (s + [nm])[..|s|] == s;
  }

  /** Dropping names from the end of the slots drops names from the end of the result. */
  lemma {:induction false} NonEmptyPrefix(a: seq<string>, b: seq<string>)
    requires a <= b
    ensures NonEmpty(a) <= NonEmpty(b)
    decreases |b|
  {
    if |a| < |b| {
      var b' := b[..|b| - 1];
      assert a <= b';
      NonEmptyPrefix(a, b');
      NonEmptySnoc(b', b[|b| - 1]);
      assert b' + [b[|b| - 1]] == b;
    } else {
      assert a == b;
    }
  }

  /** Slot j of a block holds the name the directory data gives it. */
  lemma {:induction false} BlockSlotsAt(dd: seq<Byte>, n: nat, filename: Filename)
    ensures forall j :: 0 <= j < n ==> BlockSlots(dd, n, filename)[j] == filename(dd, j)
  {
    if n > 0 {
      BlockSlotsAt(dd, n - 1, filename);
    }
  }

  lemma {:induction false} BlockSlotsPrefix(dd: seq<Byte>, j: nat, n: nat, filename: Filename)
    requires j <= n
    ensures BlockSlots(dd, j, filename) <= BlockSlots(dd, n, filename)
  {
    BlockSlotsAt(dd, j, filename);
    BlockSlotsAt(dd, n, filename);
  }

  /** Walking one more slot of a block extends the slots walked so far, within the block. */
  lemma SlotsSoFar(seen0: seq<string>, dd: seq<Byte>, j: nat, nd: nat, filename: Filename)
    requires j <= nd
    ensures seen0 + BlockSlots(dd, 0, filename) == seen0
    ensures j < nd ==> (seen0 + BlockSlots(dd, j, filename)) + [filename(dd, j)] == seen0 + BlockSlots(dd, j + 1, filename)
    ensures j < nd ==> seen0 + BlockSlots(dd, j + 1, filename) <= seen0 + BlockSlots(dd, nd, filename)
  {
    assert seen0 + [] == seen0;
    if j < nd {
      BlockSlotsPrefix(dd, j + 1, nd, filename);
      assert BlockSlots(dd, j + 1, filename) == BlockSlots(dd, j, filename) + [filename(dd, j)];
    }
  }

  /** The slots of the first i blocks are a prefix of those of the first k. */
  lemma {:induction false} DirSlotsPrefix(d: seq<Byte>, i: nat, k: nat, bsize: Pos, nd: nat, filename: Filename)
    requires i <= k && k * bsize <= |d|
    ensures 0 <= i * bsize <= |d|
    ensures DirSlots(d, i, bsize, nd, filename) <= DirSlots(d, k, bsize, nd, filename)
    decreases k
  {
    MulMono(i, k, bsize);
    if i < k {
      MulMono(k - 1, k, bsize);
      DirSlotsPrefix(d, i, k - 1, bsize, nd, filename);
    }
  }

  lemma PrefixTrans(x: seq<string>, y: seq<string>, z: seq<string>)
    requires x <= y && y <= z
    ensures x <= z
  {
    assert x == z[..|x|];
  }

  /**
   * One more block of the walk over the first k blocks: its slots follow
   * those of the blocks before it, and stay within all the slots walked.
   */
  lemma BlockStep(d: seq<Byte>, i: nat, k: nat, bsize: Pos, nd: nat, filename: Filename)
    requires i < k && k * bsize <= |d|
    ensures 0 <= i * bsize <= (i + 1) * bsize <= |d|
    ensures DirSlots(d, i + 1, bsize, nd, filename)
         == DirSlots(d, i, bsize, nd, filename) + BlockSlots(d[i * bsize..], nd, filename)
    ensures NonEmpty(DirSlots(d, i + 1, bsize, nd, filename)) <= NonEmpty(DirSlots(d, k, bsize, nd, filename))
  {
    MulMono(i + 1, k, bsize);
    DirSlotsSucc(d, i, bsize, nd, filename);
    DirSlotsPrefix(d, i + 1, k, bsize, nd, filename);
    NonEmptyPrefix(DirSlots(d, i + 1, bsize, nd, filename), DirSlots(d, k, bsize, nd, filename));
  }

  lemma DirSlotsSucc(d: seq<Byte>, i: nat, bsize: Pos, nd: nat, filename: Filename)
    requires (i + 1) * bsize <= |d|
    ensures 0 <= i * bsize <= |d|
    ensures DirSlots(d, i + 1, bsize, nd, filename)
         == DirSlots(d, i, bsize, nd, filename) + BlockSlots(d[i * bsize..], nd, filename)
  {
    MulMono(i, i + 1, bsize);
  }

  /** A name is among the slots of the first k blocks exactly when some slot of them holds it. */
  lemma {:induction false} InDirSlots(d: seq<Byte>, k: nat, bsize: Pos, nd: nat, filename: Filename, nm: string)
    requires k * bsize <= |d|
    ensures nm in DirSlots(d, k, bsize, nd, filename)
        <==> exists i, j :: 0 <= i < k && 0 <= j < nd && Slot(d, bsize, filename, i, j) == nm
  {
    if k > 0 {
      MulMono(k - 1, k, bsize);
      InDirSlots(d, k - 1, bsize, nd, filename, nm);
      var blk := BlockSlots(d[(k - 1) * bsize..], nd, filename);
      BlockSlotsAt(d[(k - 1) * bsize..], nd, filename);
      if nm in blk {
        var j :| 0 <= j < nd && blk[j] == nm;
        assert Slot(d, bsize, filename, k - 1, j) == nm;
      }
      if exists i, j :: 0 <= i < k && 0 <= j < nd && Slot(d, bsize, filename, i, j) == nm {
        var i, j :| 0 <= i < k && 0 <= j < nd && Slot(d, bsize, filename, i, j) == nm;
        if i == k - 1 {
          assert blk[j] == nm;
        }
      }
    }
  }

  /**
   * What Ls resolves: a name is listed exactly when it is non-empty and held
   * by some slot j < NDIRENTS of some whole block i < len(d)/BSIZE; a trailing
   * partial block is never looked at.
   */
  lemma InNames(d: seq<Byte>, bsize: Pos, nd: nat, filename: Filename, nm: string)
    ensures nm in Names(d, bsize, nd, filename)
        <==> nm != [] && exists i, j :: 0 <= i < |d| / bsize && 0 <= j < nd && Slot(d, bsize, filename, i, j) == nm
  {
    InDirSlots(d, |d| / bsize, bsize, nd, filename, nm);
  }
}
