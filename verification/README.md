# memtool — a verified model of the process-memory layer

memtool is a small C library and command-line tool for inspecting another
process's memory. It opens a process and reads its memory map. It reads
and writes target memory through one OS copy call per request. It also
scans a memory region for a byte pattern. This project models the core of
that library (memtool.c and memtool.h) in Dafny and proves what the code
does. Every OS facility is an oracle whose answer is a parameter:

- `open` / `OpenProcess` and `fopen`;
- the lines of `/proc/<pid>/maps`;
- `VirtualQueryEx` and `GetModuleFileNameExA`;
- `pread` / `ReadProcessMemory` and `pwrite` / `WriteProcessMemory`.

Modules, one per file:

- `MemTypes` (memtool_types.dfy): the layouts and constants of memtool.h.
  A memory region is a datatype with a POSIX and a Windows variant. The
  process map is a class holding a fixed array of `MAX_REGIONS` regions
  and a `count`, filled in place. The file also has 64-bit unsigned
  subtraction and addition, and the command-line driver's "readable
  region" filter (`ScanCandidate`).
- `ProcessHandles` (process_handle.dfy): `open_process` and
  `close_process`, with the caller's handle pointer as NULL, live or freed.
- `MemoryAccess` (memory_access.dfy): `read_process_memory` and
  `write_process_memory`, which clamp the OS result to a count that is
  never negative.
- `MapsLine` (maps_line.dfy): the `sscanf` of one maps line with the
  conversion `%lx-%lx %4s %*s %*s %*s %255s`. This is a pure function over
  a line. A round trip through a line formatted as proc(5) describes it is
  proved.
- `MapReader` (map_reader.dfy): both branches of `read_process_maps`.
  - The POSIX loop appends the region of each accepted line into the array
    and stops when the array is full.
  - The Windows loop walks the address space from address 0. Each step
    advances by the reported region size. The walk stops on the first
    failed query or when the map is full.
  - Each method is proved against a specification function (`Accepted`
    with `Capped`, and `Walk`). Their meaning is proved as lemmas: line
    order, skipping, origin of each region, the query addresses, and why
    the walk stopped.
- `PatternScan` (pattern_scan.dfy): `search_pattern`. The region is read
  in windows of `BUFFER_SIZE` bytes at `base + offset`. An inner loop
  reports `base + offset + i` for every index where the whole pattern
  fits in the window and matches. The method is proved equal to the
  function `Scan`. About `Scan`, the project proves:
  - reports are exactly the in-window matches;
  - reports strictly increase;
  - windows are contiguous;
  - an occurrence spanning two windows is missed;
  - an empty pattern matches everywhere;
  - a pattern longer than a window is never found;
  - the last read is not clamped to the region's end.

Points where the C code does less than a caller might expect, and which the
model follows:

- A maps line without a path column does not store an empty pathname: the
  code copies a local buffer that was never written (memtool.c:148, 155).
  The model stores `Indeterminate`.
- The size of a POSIX region is `end - start` in unsigned 64-bit
  arithmetic, with no check that `start <= end` (memtool.c:153). The model
  wraps it and promises `end - start` only when `start <= end`.
- The map keeps the listing's line order. The code neither sorts nor
  checks for overlap, so the model promises no ordering by address.
- The Windows walk stores the base address `VirtualQueryEx` reports for
  the region that holds the queried address. It then advances the query
  address, not that base, by the region size (memtool.c:128).
- The command-line driver scans a Windows region only when its protection
  has the PAGE_READONLY bit (main.c:50), so read-write regions are skipped.

## Model

| member | source | states |
|---|---|---|
| MemTypes.ScanCandidateCases | main.c:47-53 | the driver's readable-region filter (ScanCandidate): a PAGE_READONLY region is scanned, PAGE_READWRITE and PAGE_EXECUTE_READ regions are not; a POSIX region is scanned when its perms start with 'r' |
| MemTypes.ProcessMap.Regions | memtool.h:147-150 | the filled part of the region array is its first `count` entries, and `count` never exceeds MAX_REGIONS |
| MemTypes.ProcessMap.constructor | memtool.c:89-94 | a new map has an array of MAX_REGIONS slots and no regions (`count == 0`) |
| MemTypes.ProcessMap.Append | memtool.c:151-156 | storing a region fills slot `count` in place and counts it; the array is the same one, the regions stored before are unchanged and the new one is last |
| ProcessHandles.OpenPosix | memtool.c:39-51 | the handle is NULL exactly when `open` of the mem file failed; otherwise it records the pid and owns the descriptor |
| ProcessHandles.OpenWindows | memtool.c:28-38 | the handle is NULL exactly when `OpenProcess` returned NULL; otherwise it owns that kernel handle |
| ProcessHandles.CloseProcess | memtool.c:63-73 | closing NULL does nothing and releases nothing; closing a live handle releases exactly the resource it owns (none for an invalid descriptor or NULL kernel handle) and frees the struct |
| ProcessHandles.OpenThenCloseReleases | memtool.c:21-73 | closing a handle that a successful open returned releases the descriptor that open acquired and leaves the pointer freed |
| ProcessHandles.OpenWindowsThenCloseReleases | memtool.c:21-73 | closing a handle that a successful OpenProcess returned passes that same kernel handle to CloseHandle and leaves the pointer freed |
| MemoryAccess.Transferred | memtool.c:170-177 | the count the wrappers return: a positive POSIX result is kept and zero or an error becomes 0; a Windows call reports its count when it succeeded and 0 when it failed |
| MemoryAccess.TransferredWithinRequest | memtool.c:176-177 | when the OS reports no more than was asked, the returned count lies between 0 and the requested size |
| MemoryAccess.ReadProcessMemory | memtool.c:167-179 | the result is the clamped count, at most the requested size; the first `n` bytes of the buffer are the bytes the OS copied; the buffer beyond what was copied is untouched |
| MemoryAccess.WriteProcessMemory | memtool.c:182-194 | the result is the clamped count, never negative and at most the number of bytes offered |
| MapsLine.ParseMapsLine | memtool.c:149-150 | an accepted line stores a perms field of 1 to 4 non-space characters (it fits `char perms[5]`) and, when the path column converts, a path of 1 to 255 non-space characters |
| MapsLine.BlankRejected | memtool.c:149-150 | a line of white space only gives fewer than three conversions and is skipped |
| MapsLine.MissingDashRejected | memtool.c:149-150 | a leading hex field not followed by '-' and more hex digits is rejected |
| MapsLine.MissingPermsRejected | memtool.c:149-150 | `start-end` with nothing after it but white space gives only two conversions and is rejected |
| MapsLine.HexRoundTrip | memtool.c:149 | reading back the hex digits of a number gives the number, so the `%lx` conversion recovers an address written in hex |
| MapsLine.ParseFormatted | memtool.c:149-150 | a line in the proc(5) layout parses back to its start, end and perms, with its path cut to 255 characters; a line without a path gives no path |
| MapsLine.AcceptedShape | memtool.c:149-150 | every accepted line has the shape white space, hex digits, '-', white space, hex digits, white space, a perms token of 1 to 4 characters, then white space unless the token took all 4 places; the entry holds the two hex values, the token and the path column of the rest |
| MapsLine.ShapeAccepted | memtool.c:149-150 | conversely, every line of that shape is accepted with exactly those values, so a line yields a region if and only if start, end and perms all convert |
| MapReader.RegionOf | memtool.c:151-155 | an accepted line is stored with its start, end and perms; `start + size` equals `end` modulo 2^64, and size is `end - start` when start <= end; the pathname is known exactly when the path column converted |
| MapReader.LineRegion | memtool.c:149-155 | a line yields a region exactly when the parse accepts it, and that region fits the C struct |
| MapReader.Accepted | memtool.c:143-157 | the accepted lines yield at most one region each |
| MapReader.AcceptedRegionsFit | memtool.c:149-155 | every region stored from the listing is a POSIX region whose perms and pathname fit their fields |
| MapReader.Capped | memtool.c:143 | the stored regions are the first min(n, MAX_REGIONS) of the n accepted ones: all of them when there are at most MAX_REGIONS, exactly the first MAX_REGIONS otherwise |
| MapReader.AcceptedAppend | memtool.c:143-158 | the regions of a listing are those of its first part followed by those of the rest, so regions keep their line order |
| MapReader.RejectedLineSkipped | memtool.c:149-157 | a line the parse rejects changes nothing: the listing with or without it stores the same regions |
| MapReader.AcceptedLineStored | memtool.c:149-157 | an accepted line's region is stored, right after the regions of the lines before it |
| MapReader.StoredRegionOrigin | memtool.c:143-157 | every stored region comes from an accepted line, and exactly `j` regions come from the lines before the line of region `j` |
| MapReader.ReadProcessMapsPosix | memtool.c:133-160 | the result is NULL exactly when the listing cannot be opened; otherwise it is a fresh map holding the regions of the accepted lines in line order, the first MAX_REGIONS of them |
| MapReader.ModulePath | memtool.c:121-125 | the stored pathname fits the field: it is empty when the module name cannot be read, and otherwise a prefix of the name, the whole name when it fits |
| MapReader.Stored | memtool.c:116-119 | a stored Windows region holds the base, size and protection the query reported, and the module pathname |
| MapReader.Walk | memtool.c:113-129 | the walk stores at most as many regions as there is room for |
| MapReader.WalkQueries | memtool.c:110-128 | the k-th stored region is the record answered at the address reached after the first k regions: the start address plus their sizes, in 64-bit arithmetic |
| MapReader.WalkStops | memtool.c:113-114 | the walk ends only when the map is full or the query at the next address fails |
| MapReader.WalkUnique | memtool.c:109-129 | a sequence of regions satisfies the three walk rules (at most `room`, each answered at the reached address, ended by a full map or a failed query) exactly when it is the walk |
| MapReader.ReadProcessMapsWindows | memtool.c:96-129 | the result is NULL exactly when OpenProcess failed; otherwise it is a fresh map holding the walk from address 0 with room for MAX_REGIONS |
| PatternScan.Window | memtool.c:217-228 | one read delivers at most BUFFER_SIZE bytes |
| PatternScan.Visited | memtool.c:230-231 | the inner loop visits no more indices than the window holds |
| PatternScan.MatchWindow | memtool.c:230-242 | the inner loop reports exactly the window's matches, as defined by WindowMatches |
| PatternScan.ScanWindow | memtool.c:216-242 | one pass reads BUFFER_SIZE bytes at the current address; its count is the window's length and its reports are that window's matches |
| PatternScan.SearchPattern | memtool.c:209-248 | the scan starts at offset 0 and reads until the offset reaches the region size or a read delivers nothing; the reported addresses are Scan's, in order |
| PatternScan.MatchesBelowExact | memtool.c:230-241 | among the first n indices, an address is reported exactly when the pattern matches at its index |
| PatternScan.WindowMatchesExact | memtool.c:228-241 | within one window, an address is reported exactly when the whole pattern lies inside the window there and equals the window's bytes |
| PatternScan.WindowMatchesOrdered | memtool.c:230-242 | a window's reports strictly increase and lie inside the window |
| PatternScan.HitsLocal | memtool.c:230-242 | for every window, the inner loop's reports increase and stay inside that window |
| PatternScan.ReportsCat | memtool.c:216-245 | the reports for two runs of windows are the reports of the first run followed by those of the second |
| PatternScan.WindowsSuffix | memtool.c:216-244 | each window starts below the region size, is non-empty, holds what the read at its address delivered, and the scan from its offset is the rest of the scan |
| PatternScan.WindowsContiguous | memtool.c:221-244 | windows are contiguous and do not overlap: each starts inside the region, holds 1 to BUFFER_SIZE bytes, and the next starts where it ends |
| PatternScan.ReportsFromOrdered | memtool.c:216-245 | from any offset on, the reports strictly increase and none lies below the first address read |
| PatternScan.ScanWindowReports | memtool.c:228-244 | an address inside a window is reported by the scan exactly when the inner loop reports it for that window |
| PatternScan.ScanWindowExact | memtool.c:228-244 | an address of any window is reported exactly when the whole pattern lies inside that window there and matches |
| PatternScan.ReportedIsMatch | memtool.c:230-241 | every reported address is a match inside one of the windows |
| PatternScan.MatchIsReported | memtool.c:230-241 | every match inside a window is reported |
| PatternScan.ScanMembership | memtool.c:228-244 | an address is reported if and only if the pattern matches there inside some window |
| PatternScan.ScanIncreasing | memtool.c:221-244 | the reported addresses strictly increase and none lies below the region base |
| PatternScan.SpanningNotReported | memtool.c:221-244 | an occurrence whose bytes start in one window and end in the next is not reported |
| PatternScan.EmptyPatternEverywhere | memtool.c:230-233 | an empty pattern is reported at every address of every window |
| PatternScan.LongPatternNeverFound | memtool.c:217-231 | a pattern longer than BUFFER_SIZE is never reported |
| PatternScan.ScanBounds | memtool.c:216-244 | reported addresses lie from the region base up to BUFFER_SIZE - 1 bytes past the region's end, because the last window is not cut |
| PatternScan.ReadNotClamped | memtool.c:217-225 | the read is not clamped to the bytes left: in a one-byte region, a zero byte is reported BUFFER_SIZE - 1 bytes past the region's only byte when the read delivers a full window of zeros |

## Left out

- Allocation is not modelled. The `malloc` failures in `open_process`, `read_process_maps` and `search_pattern` are not modelled, and neither is `free` (except as the Freed token of a closed handle).
- File and process I/O are oracles. `open`, `fopen`, `OpenProcess`, `VirtualQueryEx`, `GetModuleFileNameExA`, `pread`/`pwrite` and `ReadProcessMemory`/`WriteProcessMemory` are parameters. `CloseHandle`, `close` and `fclose` are not modelled beyond the resource that `close_process` releases.
- Line splitting is not modelled. The listing is given as a sequence of lines, so `fgets` splitting a line longer than 1023 characters is not modelled.
- `%lx` details are partly left out. A `0x` prefix and a sign are not accepted. Overflow follows the C library's rule of storing ULONG_MAX.
- MapReader.ReadProcessMapsWindows: `GetModuleFileNameExA` is called once per region in the source. The model takes one answer for all of them.
- PatternScan.SearchPattern: the addresses `base + offset + i` and the offset are unbounded. Their 64-bit wrap-around is not modelled.
- Output is not modelled. `printf` in the scanner becomes the sequence of reported addresses. `print_memory_map` is not modelled.
- MemoryAccess.WriteProcessMemory: the target's memory is not modelled, so the model does not say what a write changes there.
- Reads of a changing target are not modelled. A read sees a fixed snapshot of memory, and races such as the target changing or pid reuse are left out.
- MemoryAccess.ReadProcessMemory: the OS is assumed to report no more bytes than were requested. The model takes this as a precondition, because the OS guarantees it.
- The Windows protection mask is a 32-bit integer. Only the driver's filter reads its bits.
- MapsLine.ParseMapsLine: a character of a line stands for one byte. The `%4s` and `%255s` widths are counted in characters, so a path with multi-byte UTF-8 characters is cut by character where the C code cuts it by byte.
- MapReader.ModulePath: the MAX_PATH_LEN limit on the module name is likewise counted in characters, not bytes.
- main.c and test_main.c are not part of this model. The exception is the readable-region filter `ScanCandidate` (main.c:50-53).
