/**
 * Shared vocabulary of the facade and the engine underneath it: error codes,
 * stat records, open and seek selectors, and the staging buffer
 * (common.Fakeubuf_t) through which bytes move into and out of the engine.
 */
module Common {

  /**
   * common.Err_t: 0 is success and any other value a failure. Where the
   * engine's contracts force a failure (a missing path, or mkdir of an
   * existing one) the code is negative; elsewhere a failure may carry any
   * nonzero code.
   */
  type Err = int

  type Byte = bv8

  /** A strictly positive quantity, such as the block size. */
  type Pos = x: int | 0 < x witness 1

  datatype Option<T> = None | Some(value: T)

  /** The part of common.Stat_t the facade reads: the size, and the file type. */
  datatype StatRec = StatRec(size: nat, isDir: bool)

  /** The open flags the facade passes: common.O_CREAT, common.O_RDWR, common.O_RDONLY. */
  datatype OpenMode = Create | ReadWrite | ReadOnly

  /** Origin of a seek: common.SEEK_SET, SEEK_CUR, SEEK_END. */
  datatype Whence = SeekSet | SeekCur | SeekEnd

  /**
   * common.Fakeubuf_t: a user buffer faked in kernel memory. It wraps a byte
   * array (shared with whoever made it) and a cursor; the engine consumes bytes
   * from it on a write and fills it on a read, advancing the cursor.
   */
  class Ubuf {
    const buf: array<Byte>
    var off: nat

    ghost predicate Valid()
      reads this
    {
      off <= buf.Length
    }

    /** Bytes not yet consumed or produced. */
    function Remain(): nat
      reads this
      requires Valid()
    {
      buf.Length - off
    }

    /** Fake_init: wrap `hdata`, with the cursor at its start. */
    constructor (hdata: array<Byte>)
      ensures buf == hdata && off == 0 && Valid()
    {
      buf := hdata;
      off := 0;
    }
  }
}
