/**
 * The process handle and its lifecycle (open_process / close_process).
 * The OS calls are not modelled: `open` / `OpenProcess` become the value
 * they returned, and `close` / `CloseHandle` become the resource a close
 * releases.
 */
module ProcessHandles {
  import opened MemTypes

  /**
   * The handle struct: on POSIX targets the pid and the descriptor of its
   * memory pseudo-file, on Windows targets a kernel HANDLE (0 is NULL).
   */
  datatype ProcessHandle =
    | PosixHandle(pid: int, memFd: int)
    | WindowsHandle(handle: u64)

  /** What the caller's `ProcessHandle*` points at. */
  datatype HandleRef = Null | Live(h: ProcessHandle) | Freed

  /** The OS resource a handle owns, if it owns one. */
  function Resource(h: ProcessHandle): Option<int> {
    match h
    case PosixHandle(_, fd) => if fd != -1 then Some(fd) else None
    case WindowsHandle(k) => if k != 0 then Some(k) else None
  }

  /** The outcome of close_process: the caller's pointer afterwards and the resource passed to close/CloseHandle. */
  datatype CloseEffect = CloseEffect(after: HandleRef, released: Option<int>)

  /**
   * open_process on a POSIX target: `fd` is what open("/proc/<pid>/mem",
   * O_RDWR) returned. The handle is NULL exactly when the open failed.
   */
  function OpenPosix(pid: int, fd: int): (r: HandleRef)
    ensures r.Freed? == false
    ensures r.Null? <==> fd == -1
    ensures r.Live? ==> r.h.PosixHandle? && r.h.pid == pid && Resource(r.h) == Some(fd)
  {
    if fd == -1 then Null else Live(PosixHandle(pid, fd))
  }

  /**
   * open_process on a Windows target: `k` is what OpenProcess returned.
   * The handle is NULL exactly when OpenProcess returned NULL.
   */
  function OpenWindows(k: u64): (r: HandleRef)
    ensures r.Freed? == false
    ensures r.Null? <==> k == 0
    ensures r.Live? ==> Resource(r.h) == Some(k)
  {
    if k == 0 then Null else Live(WindowsHandle(k))
  }

  /**
   * close_process: a NULL pointer is left alone and nothing is released;
   * otherwise the owned resource (if valid) is released and the struct is
   * freed. Closing a freed pointer is undefined behaviour in the C code and
   * is excluded here.
   */
  function CloseProcess(r: HandleRef): (e: CloseEffect)
    requires !r.Freed?
    ensures r.Null? ==> e == CloseEffect(Null, None)
    ensures r.Live? ==> e.after == Freed && e.released == Resource(r.h)
  {
    match r
    case Null => CloseEffect(Null, None)
    case Live(h) => CloseEffect(Freed, Resource(h))
  }

  /**
   * A handle that open_process returned is released by close_process: the
   * resource open acquired is the one close gives back, and the pointer
   * cannot be closed a second time.
   */
  lemma OpenThenCloseReleases(pid: int, fd: int)
    requires fd != -1
    ensures CloseProcess(OpenPosix(pid, fd)) == CloseEffect(Freed, Some(fd))
    ensures CloseProcess(OpenPosix(pid, fd)).after.Freed?
  {
  }

  /** The same on a Windows target: the kernel handle OpenProcess returned is the one CloseHandle gets. */
  lemma OpenWindowsThenCloseReleases(k: u64)
    requires k != 0
    ensures CloseProcess(OpenWindows(k)) == CloseEffect(Freed, Some(k))
  {
  }
}
