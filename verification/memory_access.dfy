/**
 * The memory accessor (read_process_memory / write_process_memory): one
 * unbuffered OS copy per call, with the OS result clamped to a byte count
 * that is never negative. The copy itself (pread / pwrite,
 * ReadProcessMemory / WriteProcessMemory) is an oracle: its reply is a
 * parameter.
 */
module MemoryAccess {
  import opened MemTypes

  /**
   * What the OS copy call reported: pread/pwrite's `ssize_t` result, or the
   * BOOL and byte count of the Win32 call.
   */
  datatype OsReply = PosixReply(ret: int) | WindowsReply(ok: bool, count: nat)

  /**
   * The OS's side of the contract for a request of `size` bytes: it never
   * reports more than it was asked for. A negative POSIX result is an error.
   */
  predicate WithinRequest(r: OsReply, size: nat) {
    match r
    case PosixReply(ret) => ret <= size
    case WindowsReply(_, count) => count <= size
  }

  /**
   * The byte count the wrappers return: a positive POSIX result as it is
   * and anything else as 0; on Windows the reported count when the call
   * succeeded and 0 when it failed (a partial copy that failed reports 0).
   */
  function Transferred(r: OsReply): (n: nat)
    ensures r.PosixReply? ==> (r.ret > 0 ==> n == r.ret) && (r.ret <= 0 ==> n == 0)
    ensures r.WindowsReply? ==> (r.ok ==> n == r.count) && (!r.ok ==> n == 0)
  {
    match r
    case PosixReply(ret) => if ret > 0 then ret else 0
    case WindowsReply(ok, count) => if ok then count else 0
  }

  /** The clamped count lies between 0 and the requested size. */
  lemma TransferredWithinRequest(r: OsReply, size: nat)
    requires WithinRequest(r, size)
    ensures 0 <= Transferred(r) <= size
  {
  }

  /** A read reply: the OS result and the bytes it copied into the caller's buffer. */
  datatype OsRead = OsRead(reply: OsReply, data: seq<byte>)

  /** The OS read contract: no more than requested, and a reported count is backed by copied bytes. */
  predicate ReadWithinRequest(o: OsRead, size: nat) {
    WithinRequest(o.reply, size) && |o.data| <= size && Transferred(o.reply) <= |o.data|
  }

  /**
   * read_process_memory: `os` is the OS's answer to the request of `size`
   * bytes at `address`; it copies its bytes into `buffer`, and the result
   * is the clamped count, the first `n` bytes of the buffer being the bytes
   * read.
   */
  method ReadProcessMemory(address: nat, buffer: array<byte>, size: nat, os: OsRead) returns (n: nat)
    requires size <= buffer.Length
    requires ReadWithinRequest(os, size)
    modifies buffer
    ensures n == Transferred(os.reply) && n <= size
    ensures buffer[..n] == os.data[..n]
    ensures buffer[|os.data|..] == old(buffer[|os.data|..])
  {
    var reply := os;
    var copied := reply.data;
    forall k | 0 <= k < |copied| {
      buffer[k] := copied[k];
    }
    match reply.reply {
      case PosixReply(ret) =>
        n := if ret > 0 then ret else 0;
      case WindowsReply(ok, count) =>
        n := if ok then count else 0;
    }
    assert buffer[..n] == copied[..n];
  }

  /**
   * write_process_memory: the OS copies up to `|data|` bytes into the
   * target; the result is the clamped count, between 0 and `|data|`. The
   * target's memory is not modelled, so nothing here changes.
   */
  method WriteProcessMemory(address: nat, data: seq<byte>, reply: OsReply) returns (n: nat)
    requires WithinRequest(reply, |data|)
    ensures n == Transferred(reply)
    ensures n <= |data|
  {
    match reply {
      case PosixReply(ret) =>
        n := if ret > 0 then ret else 0;
      case WindowsReply(ok, count) =>
        n := if ok then count else 0;
    }
  }
}
