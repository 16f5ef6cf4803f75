/**
  The kernel services the driver calls, reduced to what the driver can
  observe of them: an SPI bus that takes a transmit buffer and returns a
  status, an allocator that may fail, `memset`, and the user-copy routines
  that may fault part way.  Which status, which allocation and which fault
  is chosen nondeterministically, so every proof about the driver holds for
  all of them.
 */
module Kernel {

  /** One SPI message as it went out on the bus, with the status `spi_sync` returned for it. */
  datatype Transfer = Transfer(tx: seq<bv8>, status: int)

  /** The SPI controller behind `spi_sync`; `log` records every message, in order. */
  class SpiBus {
    ghost var log: seq<Transfer>

    constructor ()
      ensures log == []
    {
      log := [];
    }

    /** Sends `tx` as one transfer and returns 0 or a negative error number. */
    method Sync(tx: seq<bv8>) returns (status: int)
      modifies this
      ensures status <= 0
      ensures log == old(log) + [Transfer(tx, status)]
    {
      status :| status <= 0;
      log := log + [Transfer(tx, status)];
    }
  }

  /** `kmalloc`: a fresh buffer of `n` bytes with unknown contents, or null. */
  method Kmalloc(n: nat) returns (a: array?<bv8>)
    ensures a != null ==> fresh(a) && a.Length == n
  {
    var ok: bool :| true;
    if ok {
      a := new bv8[n];
    } else {
      a := null;
    }
  }

  /** `memset(a, 0, a.Length)`. */
  method Memset(a: array<bv8>)
    modifies a
    ensures forall i | 0 <= i < a.Length :: a[i] == 0
  {
    var i := 0;
    while i < a.Length
      invariant 0 <= i <= a.Length
      invariant forall k | 0 <= k < i :: a[k] == 0
    {
      a[i] := 0;
      i := i + 1;
    }
  }

  /**
    `copy_from_user(dst + off, src, |src|)`: copies a prefix of `src` and
    returns how many bytes it could not copy; those are zero-filled.
   */
  method CopyFromUser(dst: array<bv8>, off: nat, src: seq<bv8>) returns (notCopied: nat)
    requires off + |src| <= dst.Length
    modifies dst
    ensures notCopied <= |src|
    ensures dst[..] == old(dst[..off]) + src[..|src| - notCopied] + Zeros(notCopied) + old(dst[off + |src|..])
  {
    notCopied :| notCopied <= |src|;
    var copied := |src| - notCopied;
    ghost var want := old(dst[..off]) + src[..copied] + Zeros(notCopied) + old(dst[off + |src|..]);
    var i := 0;
    while i < |src|
      invariant 0 <= i <= |src|
      invariant forall k | 0 <= k < dst.Length :: dst[k] == if off <= k < off + i then want[k] else old(dst[k])
    {
      assert want[off + i] == if i < copied then src[i] else 0;
      dst[off + i] := if i < copied then src[i] else 0;
      i := i + 1;
    }
    assert dst[..] == want;
  }

  /**
    `copy_to_user(dst, src, |src|)`: returns what reaches the user buffer (a
    prefix of `src`) and how many bytes did not.
   */
  method CopyToUser(src: seq<bv8>) returns (copiedBytes: seq<bv8>, notCopied: nat)
    ensures notCopied <= |src|
    ensures copiedBytes == src[..|src| - notCopied]
  {
    notCopied :| notCopied <= |src|;
    copiedBytes := src[..|src| - notCopied];
  }

  /** `n` zero bytes. */
  function Zeros(n: nat): (r: seq<bv8>)
    ensures |r| == n && forall i | 0 <= i < n :: r[i] == 0
  {
    seq(n, _ => 0)
  }
}
