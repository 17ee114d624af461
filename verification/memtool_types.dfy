/**
 * The data layouts and constants of the process-memory layer (memtool.h):
 * the two platform variants of a memory region, the fixed-capacity process
 * map that the map reader fills in place, and the compile-time limits.
 */
module MemTypes {

  /** A byte of the target's memory. */
  type byte = x: int | 0 <= x < 256

  /** One past the largest `unsigned long` / `SIZE_T` on a 64-bit target. */
  const ULONG_LIMIT: nat := 0x1_0000_0000_0000_0000

  /** One past the largest `DWORD`. */
  const DWORD_LIMIT: nat := 0x1_0000_0000

  /** An unsigned 64-bit machine word: an address, a size or an offset. */
  type u64 = x: int | 0 <= x < ULONG_LIMIT

  /** An unsigned 32-bit word, the type of a Windows protection mask. */
  type u32 = x: int | 0 <= x < DWORD_LIMIT

  /** Size of one scan window. */
  const BUFFER_SIZE: nat := 4096

  /** Capacity of the region array of a ProcessMap. */
  const MAX_REGIONS: nat := 1024

  /** Size of the pathname field, terminator included. */
  const MAX_PATH_LEN: nat := 512

  /** Size of the POSIX perms field, terminator included. */
  const PERMS_LEN: nat := 5

  /** The Windows protection bit that the command-line driver tests for "readable". */
  const PAGE_READONLY: bv32 := 0x02

  datatype Option<T> = None | Some(value: T)

  /** Unsigned subtraction in 64 bits, as C computes `end - start` on `unsigned long`. */
  function Sub64(a: u64, b: u64): (d: u64)
    ensures a >= b ==> d == a - b
    ensures a < b ==> d == a - b + ULONG_LIMIT
  {
    if a >= b then a - b else a - b + ULONG_LIMIT
  }

  /** Unsigned addition in 64 bits, as C computes it on `DWORD_PTR`. */
  function Add64(a: u64, b: u64): (s: u64)
    ensures a + b < ULONG_LIMIT ==> s == a + b
    ensures a + b >= ULONG_LIMIT ==> s == a + b - ULONG_LIMIT
  {
    if a + b < ULONG_LIMIT then a + b else a + b - ULONG_LIMIT
  }

  /**
   * The pathname field of a region. `Indeterminate` stands for a field the
   * C code fills from a buffer that was never written (a maps line without a
   * path column): its contents are unspecified, not the empty string.
   */
  datatype PathField = Known(name: string) | Indeterminate

  /**
   * A memory region, as a tagged variant of the platform-conditional struct.
   * On POSIX targets: start, end, size and the perms string; on Windows
   * targets: base address, region size and protection mask. Both carry a
   * pathname.
   */
  datatype MemoryRegion =
    | PosixRegion(start: u64, end: u64, size: u64, perms: string, pathname: PathField)
    | WindowsRegion(baseAddress: u64, regionSize: u64, protection: u32, pathname: PathField)
  {
    /** The address the scanner starts reading at. */
    function Base(): u64 {
      if PosixRegion? then start else baseAddress
    }

    /** The region size the scanner compares its offset against. */
    function Extent(): u64 {
      if PosixRegion? then size else regionSize
    }
  }

  /**
   * What the C struct can hold: at most four permission characters before
   * the terminator, and a pathname shorter than MAX_PATH_LEN.
   */
  predicate FitsLayout(r: MemoryRegion) {
    (r.PosixRegion? ==> |r.perms| < PERMS_LEN) &&
    (r.pathname.Known? ==> |r.pathname.name| < MAX_PATH_LEN)
  }

  /**
   * The region filter of the command-line driver: POSIX regions whose perms
   * start with 'r', Windows regions whose protection has the PAGE_READONLY
   * bit (so a PAGE_READWRITE-only region is not scanned there).
   */
  predicate ScanCandidate(r: MemoryRegion) {
    match r
    case PosixRegion(_, _, _, perms, _) => |perms| > 0 && perms[0] == 'r'
    case WindowsRegion(_, _, protection, _) => (protection as bv32) & PAGE_READONLY != 0
  }

  /**
   * The Windows test reads only the PAGE_READONLY bit, so a read-only region
   * is scanned while a read-write (PAGE_READWRITE, 0x04) or execute-read
   * (PAGE_EXECUTE_READ, 0x20) region is not; the POSIX test reads the first
   * perms character.
   */
  lemma ScanCandidateCases(base: u64, size: u64, path: PathField)
    ensures ScanCandidate(WindowsRegion(base, size, 0x02, path))
    ensures !ScanCandidate(WindowsRegion(base, size, 0x04, path))
    ensures !ScanCandidate(WindowsRegion(base, size, 0x20, path))
    ensures ScanCandidate(PosixRegion(base, size, 0, "r-xp", path))
    ensures !ScanCandidate(PosixRegion(base, size, 0, "-w-p", path))
  {
  }

  /**
   * A process map: a fixed array of MAX_REGIONS regions of which the first
   * `count` are filled.
   */
  class ProcessMap {
    var regions: array<MemoryRegion>
    var count: nat

    ghost predicate Valid()
      reads this, regions
    {
      regions.Length == MAX_REGIONS &&
      count <= MAX_REGIONS &&
      forall k | 0 <= k < count :: FitsLayout(regions[k])
    }

    /** The filled prefix of the region array. */
    function Regions(): (rs: seq<MemoryRegion>)
      reads this, regions
      requires Valid()
      ensures |rs| == count <= MAX_REGIONS
    {
      regions[..count]
    }

    /** A freshly allocated map with `count == 0`; the array's contents are placeholders. */
    constructor ()
      ensures Valid() && fresh(regions)
      ensures Regions() == []
    {
      regions := new MemoryRegion[MAX_REGIONS](_ => PosixRegion(0, 0, 0, "", Indeterminate));
      count := 0;
    }

    /**
     * Fills the next free slot of the array in place and counts it; the
     * regions stored before are untouched.
     */
    method Append(r: MemoryRegion)
      requires Valid() && count < MAX_REGIONS && FitsLayout(r)
      modifies this, regions
      ensures Valid() && regions == old(regions)
      ensures Regions() == old(Regions()) + [r]
    {
      regions[count] := r;
      count := count + 1;
      assert regions[..count] == old(regions[..count]) + [r];
    }
  }
}
