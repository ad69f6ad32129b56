/** The byte sources a database is read through: memory, a file handle, and a window over either. */
module Sources {
  import opened Bytes

  /** The interface readers see: the bytes at an offset, exactly as many as were asked for. */
  type Reading = f: (int, int) -> Result<bytes> |
    forall off, n :: f(off, n).Ok? ==> |f(off, n).value| == n
    witness (off: int, n: int) => Err(OutOfRange)

  /** What a source answers at one moment. */
  datatype Source =
    | Memory(b: bytes)
    | File(disk: bytes, head: Option<bytes>, open: bool)
    | Window(base: int, buf: bytes, fallback: Source)
  {
    function At(off: int, n: int): (r: Result<bytes>)
      ensures r.Ok? ==> |r.value| == n
    {
      match this
      case Memory(b) =>
        if off < 0 || n < 0 || off + n > |b| then Err(OutOfRange) else Ok(b[off..off + n])
      case File(disk, head, open) =>
        if off < 0 || n < 0 || off + n > |disk| then Err(OutOfRange)
        else if head.Some? && off + n <= |head.value| then Ok(head.value[off..off + n])
        else if !open && n > 0 then Err(Closed)
        else Ok(disk[off..off + n])
      case Window(base, buf, fallback) =>
        var start := off - base;
        if start >= 0 && n >= 0 && start + n <= |buf| then Ok(buf[start..start + n])
        else fallback.At(off, n)
    }

    /** This source as its readers see it. */
    function Reads(): Reading
    {
      (off: int, n: int) => At(off, n)
    }

    function Size(): int
    {
      match this
      case Memory(b) => |b|
      case File(disk, _, _) => |disk|
      case Window(_, _, fallback) => fallback.Size()
    }

    /** Every read of this source answers what a read of `b` held in memory answers. */
    ghost predicate Backs(b: bytes)
    {
      && Size() == |b|
      && forall off, n :: At(off, n) == Memory(b).At(off, n)
    }
  }

  /** A window is indistinguishable from the content exactly when it was filled by one read at its base. */
  lemma WindowBacksIff(base: int, buf: bytes, fallback: Source, b: bytes)
    requires fallback.Backs(b)
    ensures Window(base, buf, fallback).Backs(b) <==> fallback.At(base, |buf|) == Ok(buf)
  {
    var w := Window(base, buf, fallback);
    assert w.At(base, |buf|) == Ok(buf) by {
      assert buf[0..|buf|] == buf;
    }
    if fallback.At(base, |buf|) == Ok(buf) {
      forall off, n
        ensures w.At(off, n) == Memory(b).At(off, n)
      {
        if 0 <= off - base && 0 <= n && off - base + n <= |buf| {
          assert fallback.At(base, |buf|) == Memory(b).At(base, |buf|);
          InsideWindow(base, buf, fallback, b, off, n);
        }
      }
    }
  }

  lemma InsideWindow(base: int, buf: bytes, fallback: Source, b: bytes, off: int, n: int)
    requires Memory(b).At(base, |buf|) == Ok(buf)
    requires base <= off && 0 <= n && off - base + n <= |buf|
    ensures Window(base, buf, fallback).At(off, n) == Memory(b).At(off, n)
  {
    SliceOfSlice(b, base, base + |buf|, off - base, off - base + n);
  }

  /** An open file backs its content whether or not a prefix of it has been pinned in memory. */
  lemma FileBacks(disk: bytes, head: Option<bytes>)
    requires head.Some? ==> head.value <= disk
    ensures File(disk, head, true).Backs(disk)
  {
    forall off, n
      ensures File(disk, head, true).At(off, n) == Memory(disk).At(off, n)
    {
      if head.Some? && 0 <= off && 0 <= n && off + n <= |head.value| {
        assert head.value == disk[..|head.value|];
        assert head.value[off..off + n] == disk[off..off + n];
      }
    }
  }

  /** Keeps the whole database in memory. */
  class MemSource {
    var b: bytes

    constructor (content: bytes)
      ensures Snapshot() == Memory(content)
    {
      b := content;
    }

    function Snapshot(): Source
      reads this
    {
      Memory(b)
    }

    method Close()
      modifies this
      ensures Snapshot() == Memory([])
    {
      b := [];
    }
  }

  /** Reads from a file handle, with the search tree pinned once its size is known. */
  class FileSource {
    const disk: bytes
    var head: Option<bytes>
    var open: bool

    constructor (content: bytes)
      ensures Snapshot() == File(content, None, true)
    {
      disk := content;
      head := None;
      open := true;
    }

    function Snapshot(): Source
      reads this
    {
      File(disk, head, open)
    }

    /** Pins the first `n` bytes; refuses a size outside the file and then changes nothing. */
    method LoadHead(n: int) returns (ok: bool)
      modifies this
      ensures ok <==> 0 <= n <= |disk| && (open || n == 0)
      ensures open == old(open) && head == if ok then Some(disk[..n]) else old(head)
      ensures ok && open ==> Snapshot().Backs(disk)
    {
      if n < 0 || n > |disk| || (!open && n > 0) {
        return false;
      }
      head := Some(disk[..n]);
      FileBacks(disk, head);
      ok := true;
    }

    method Close()
      modifies this
      ensures Snapshot() == File(disk, None, false)
    {
      head := None;
      open := false;
    }
  }
}
