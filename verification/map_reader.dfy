/**
 * The map reader (read_process_maps): it fills a fresh ProcessMap in place,
 * on POSIX targets from the lines of /proc/<pid>/maps, on Windows targets by
 * walking the address space with VirtualQueryEx. Opening the listing or the
 * process, and every OS query, is an oracle: its answers are parameters.
 */
module MapReader {
  import opened MemTypes
  import opened MapsLine

  // ---------------------------------------------------------------------
  // POSIX: one region per accepted maps line
  // ---------------------------------------------------------------------

  /**
   * The region an accepted line is stored as: start and end as converted,
   * the size as their unsigned 64-bit difference, the perms, and the
   * pathname when the path column was converted (otherwise the field is
   * copied from a buffer that was never written).
   */
  function RegionOf(e: MapsEntry): (r: MemoryRegion)
    ensures r.PosixRegion? && r.start == e.start && r.end == e.end && r.perms == e.perms
    ensures r.start + r.size == r.end || r.start + r.size == r.end + ULONG_LIMIT
    ensures e.start <= e.end ==> r.size == e.end - e.start
    ensures r.pathname.Known? <==> e.path.Some?
    ensures r.pathname.Known? ==> r.pathname.name == e.path.value
  {
    var pathname := if e.path.Some? then Known(e.path.value) else Indeterminate;
    PosixRegion(e.start, e.end, Sub64(e.end, e.start), e.perms, pathname)
  }

  /** The region a maps line is stored as, if the parser accepts it; it fits the C struct. */
  function LineRegion(line: string): (r: Option<MemoryRegion>)
    ensures r.Some? <==> ParseMapsLine(line).Some?
    ensures r.Some? ==> r.value == RegionOf(ParseMapsLine(line).value) && FitsLayout(r.value)
  {
    match ParseMapsLine(line)
    case None => None
    case Some(e) => Some(RegionOf(e))
  }

  /**
   * How a line is turned into the region stored for it, if any. The reader
   * uses LineRegion; the ordering facts below hold for any such rule.
   */
  type LineReader = string -> Option<MemoryRegion>

  /** The regions of all accepted lines, in line order, with no capacity limit. */
  function Accepted(lines: seq<string>, read: LineReader): (rs: seq<MemoryRegion>)
    ensures |rs| <= |lines|
  {
    if lines == [] then []
    else
      var init := Accepted(lines[..|lines| - 1], read);
      match read(lines[|lines| - 1])
      case None => init
      case Some(r) => init + [r]
  }

  /** Every stored POSIX region fits the C struct: perms and pathname within their fields. */
  lemma {:induction false} AcceptedRegionsFit(lines: seq<string>)
    ensures forall r | r in Accepted(lines, LineRegion) :: r.PosixRegion? && FitsLayout(r)
    decreases |lines|
  {
    if lines != [] {
      AcceptedRegionsFit(lines[..|lines| - 1]);
    }
  }

  /** The first MAX_REGIONS elements of `rs`, or all of them when there are fewer. */
  function Capped(rs: seq<MemoryRegion>): (c: seq<MemoryRegion>)
    ensures c <= rs && |c| == if |rs| <= MAX_REGIONS then |rs| else MAX_REGIONS
    ensures |rs| <= MAX_REGIONS ==> c == rs
    ensures |rs| > MAX_REGIONS ==> c == rs[..MAX_REGIONS]
  {
    if |rs| <= MAX_REGIONS then rs else rs[..MAX_REGIONS]
  }


  /**
   * The listing is read line by line, and each line adds its region (if
   * any) after those of the lines before it.
   */
  lemma {:induction false} AcceptedAppend(a: seq<string>, b: seq<string>, read: LineReader)
    ensures Accepted(a + b, read) == Accepted(a, read) + Accepted(b, read)
    decreases |b|
  {
    if b == [] {
      assert a + b == a;
    } else {
      var b' := b[..|b| - 1];
      assert (a + b)[..|a + b| - 1] == a + b';
      assert (a + b)[|a + b| - 1] == b[|b| - 1];
      AcceptedAppend(a, b', read);
    }
  }

  /** A line the reader rejects leaves no trace: the map is as if it were absent. */
  lemma RejectedLineSkipped(a: seq<string>, line: string, b: seq<string>, read: LineReader)
    requires read(line).None?
    ensures Accepted(a + [line] + b, read) == Accepted(a + b, read)
  {
    AcceptedAppend(a + [line], b, read);
    AcceptedAppend(a, [line], read);
    AcceptedAppend(a, b, read);
    assert [line][..0] == [];
  }

  /**
   * Every accepted line is stored, right after the regions of the accepted
   * lines before it.
   */
  lemma AcceptedLineStored(lines: seq<string>, i: nat, read: LineReader)
    requires i < |lines| && read(lines[i]).Some?
    ensures |Accepted(lines[..i], read)| < |Accepted(lines, read)|
    ensures Accepted(lines, read)[|Accepted(lines[..i], read)|] == read(lines[i]).value
  {
    assert lines == lines[..i] + ([lines[i]] + lines[i + 1..]);
    AcceptedAppend(lines[..i], [lines[i]] + lines[i + 1..], read);
    AcceptedAppend([lines[i]], lines[i + 1..], read);
    AcceptedAppend([], [lines[i]], read);
    assert [lines[i]][..0] == [];
  }

  /**
   * Every stored region comes from an accepted line, and the j-th region
   * from the line with exactly j accepted lines before it: regions are
   * stored in line order and nothing else is stored.
   */
  lemma {:induction false} StoredRegionOrigin(lines: seq<string>, j: nat, read: LineReader) returns (i: nat)
    requires j < |Accepted(lines, read)|
    ensures i < |lines| && read(lines[i]) == Some(Accepted(lines, read)[j])
    ensures |Accepted(lines[..i], read)| == j
    decreases |lines|
  {
    var init := lines[..|lines| - 1];
    assert init[..|init|] == init;
    if j < |Accepted(init, read)| {
      i := StoredRegionOrigin(init, j, read);
      assert init[..i] == lines[..i];
    } else {
      i := |lines| - 1;
    }
  }

  /** Reading one more line adds that line's region, if it has one, at the end. */
  lemma AcceptedNext(lines: seq<string>, i: nat, read: LineReader)
    requires i < |lines|
    ensures Accepted(lines[..i + 1], read)
         == Accepted(lines[..i], read) + (if read(lines[i]).Some? then [read(lines[i]).value] else [])
  {
    assert lines[..i + 1][..i] == lines[..i];
  }

  /** One pass of the POSIX loop: a line the parse accepts adds its region, which fits the C struct. */
  lemma ReaderStep(lines: seq<string>, i: nat)
    requires i < |lines|
    ensures var parsed := ParseMapsLine(lines[i]);
            Accepted(lines[..i + 1], LineRegion)
            == Accepted(lines[..i], LineRegion) + (if parsed.Some? then [RegionOf(parsed.value)] else []) &&
            (parsed.Some? ==> FitsLayout(RegionOf(parsed.value)))
  {
    AcceptedNext(lines, i, LineRegion);
  }

  /**
   * The POSIX loop's exits: every line was read, or MAX_REGIONS regions are
   * stored and the regions of later lines are cut off.
   */
  lemma ReaderStops(lines: seq<string>, i: nat, stored: seq<MemoryRegion>)
    requires i <= |lines| && stored == Accepted(lines[..i], LineRegion) && |stored| <= MAX_REGIONS
    requires i == |lines| || |stored| == MAX_REGIONS
    ensures stored == Capped(Accepted(lines, LineRegion))
  {
    var later := Accepted(lines[i..], LineRegion);
    assert lines == lines[..i] + lines[i..];
    AcceptedAppend(lines[..i], lines[i..], LineRegion);
    if i < |lines| {
      assert (stored + later)[..MAX_REGIONS] == stored;
    }
  }

  /**
   * read_process_maps on a POSIX target. `listing` is the contents of
   * /proc/<pid>/maps as lines, or None when fopen failed (then the result
   * is NULL). The map holds the regions of the accepted lines in line order,
   * the first MAX_REGIONS of them; later lines are not read.
   */
  method ReadProcessMapsPosix(listing: Option<seq<string>>) returns (m: ProcessMap?)
    ensures m == null <==> listing.None?
    ensures m != null ==> fresh(m) && fresh(m.regions) && m.Valid() &&
                          m.Regions() == Capped(Accepted(listing.value, LineRegion))
  {
    if listing.None? {
      return null;
    }
    var lines := listing.value;
    m := new ProcessMap();
    var i := 0;
    while i < |lines| && m.count < MAX_REGIONS
      invariant i <= |lines|
      invariant fresh(m) && fresh(m.regions) && m.Valid()
      invariant m.Regions() == Accepted(lines[..i], LineRegion)
    {
      var line := lines[i];
      var parsed := ParseMapsLine(line);
      if parsed.Some? {
        m.Append(RegionOf(parsed.value));
      }
      ReaderStep(lines, i);
      i := i + 1;
    }
    ReaderStops(lines, i, m.Regions());
  }

  // ---------------------------------------------------------------------
  // Windows: the VirtualQueryEx walk
  // ---------------------------------------------------------------------

  /** What VirtualQueryEx reports for the region holding an address. */
  datatype RegionInfo = RegionInfo(baseAddress: u64, regionSize: u64, protect: u32)

  /**
   * VirtualQueryEx on the target: the record it fills for each address at
   * which it succeeds; the addresses outside the map are those where the
   * call does not fill the whole record.
   */
  type RegionQuery = imap<u64, RegionInfo>

  /**
   * The pathname every Windows region gets: the name GetModuleFileNameExA
   * reports for the main module, cut to what fits the field with its
   * terminator, or the empty string when the call fails.
   */
  function ModulePath(name: Option<string>): (p: string)
    ensures |p| < MAX_PATH_LEN
    ensures name.None? ==> p == ""
    ensures name.Some? ==> p <= name.value && (|name.value| < MAX_PATH_LEN ==> p == name.value)
  {
    match name
    case None => ""
    case Some(s) => if |s| < MAX_PATH_LEN then s else s[..MAX_PATH_LEN - 1]
  }

  /** The region a record is stored as: its three fields and the module pathname. */
  function Stored(info: RegionInfo, pathname: string): (r: MemoryRegion)
    ensures r.WindowsRegion? && r.Base() == info.baseAddress && r.Extent() == info.regionSize
    ensures r.protection == info.protect && r.pathname == Known(pathname)
  {
    WindowsRegion(info.baseAddress, info.regionSize, info.protect, Known(pathname))
  }

  /** The address the walk queries after storing `rs`, from `address` on, in 64-bit arithmetic. */
  function AddressAfter(address: u64, rs: seq<MemoryRegion>): u64
    decreases |rs|
  {
    if rs == [] then address
    else AddressAfter(Add64(address, rs[0].Extent()), rs[1..])
  }

  /**
   * The regions the walk stores from `address` on, with room for `room`
   * more: query, stop on a failed query or a full map, otherwise store the
   * record and move past the region it reports.
   */
  function Walk(query: RegionQuery, address: u64, room: nat, pathname: string): (w: seq<MemoryRegion>)
    ensures |w| <= room
    decreases room
  {
    if address !in query || room == 0 then []
    else
      var info := query[address];
      [Stored(info, pathname)] + Walk(query, Add64(address, info.regionSize), room - 1, pathname)
  }

  /**
   * The walk described by what it does rather than how: at most `room`
   * regions; the k-th is the record answered at the address reached after
   * the first k; and the walk ends because the map is full or the next
   * query fails.
   */
  ghost predicate IsWalk(query: RegionQuery, address: u64, room: nat, pathname: string, w: seq<MemoryRegion>) {
    |w| <= room &&
    (forall k | 0 <= k < |w| ::
       AddressAfter(address, w[..k]) in query && w[k] == Stored(query[AddressAfter(address, w[..k])], pathname)) &&
    (|w| == room || AddressAfter(address, w) !in query)
  }

  /** Each stored region is the record answered at the address the walk had reached. */
  lemma {:induction false} WalkQueries(query: RegionQuery, address: u64, room: nat, pathname: string, k: nat)
    requires k < |Walk(query, address, room, pathname)|
    ensures AddressAfter(address, Walk(query, address, room, pathname)[..k]) in query
    ensures Walk(query, address, room, pathname)[k]
         == Stored(query[AddressAfter(address, Walk(query, address, room, pathname)[..k])], pathname)
    decreases k
  {
    var w := Walk(query, address, room, pathname);
    var next := Add64(address, query[address].regionSize);
    if k == 0 {
      assert w[..0] == [];
    } else {
      WalkQueries(query, next, room - 1, pathname, k - 1);
      assert w[..k][1..] == Walk(query, next, room - 1, pathname)[..k - 1];
    }
  }

  /** The walk ends only when the map is full or the next query fails. */
  lemma {:induction false} WalkStops(query: RegionQuery, address: u64, room: nat, pathname: string)
    ensures |Walk(query, address, room, pathname)| == room
         || AddressAfter(address, Walk(query, address, room, pathname)) !in query
    decreases room
  {
    var w := Walk(query, address, room, pathname);
    if address in query && room > 0 {
      var next := Add64(address, query[address].regionSize);
      WalkStops(query, next, room - 1, pathname);
      assert w[1..] == Walk(query, next, room - 1, pathname);
    }
  }

  /** Walk is the one sequence of regions that IsWalk describes. */
  lemma {:induction false} WalkUnique(query: RegionQuery, address: u64, room: nat, pathname: string, w: seq<MemoryRegion>)
    ensures IsWalk(query, address, room, pathname, w) <==> w == Walk(query, address, room, pathname)
    decreases room
  {
    var v := Walk(query, address, room, pathname);
    if w == v {
      forall k | 0 <= k < |w|
        ensures AddressAfter(address, w[..k]) in query && w[k] == Stored(query[AddressAfter(address, w[..k])], pathname)
      {
        WalkQueries(query, address, room, pathname, k);
      }
      WalkStops(query, address, room, pathname);
    } else if IsWalk(query, address, room, pathname, w) {
      assert w[..0] == [];
      if w == [] {
        assert false;
      } else {
        var next := Add64(address, w[0].Extent());
        var rest := w[1..];
        assert IsWalk(query, next, room - 1, pathname, rest) by {
          forall k | 0 <= k < |rest|
            ensures AddressAfter(next, rest[..k]) in query
                 && rest[k] == Stored(query[AddressAfter(next, rest[..k])], pathname)
          {
            assert w[..k + 1][1..] == rest[..k];
          }
          assert w == [w[0]] + rest;
        }
        WalkUnique(query, next, room - 1, pathname, rest);
        assert false;
      }
    }
  }

  /** One step of the walk: a successful query with room left stores its record and moves on. */
  lemma WalkStep(query: RegionQuery, address: u64, room: nat, pathname: string,
                 stored: seq<MemoryRegion>, target: seq<MemoryRegion>)
    requires address in query && room > 0
    requires stored + Walk(query, address, room, pathname) == target
    ensures (stored + [Stored(query[address], pathname)])
              + Walk(query, Add64(address, query[address].regionSize), room - 1, pathname) == target
  {
  }

  /** The walk is over once a query fails or the map is full. */
  lemma WalkEnd(query: RegionQuery, address: u64, room: nat, pathname: string)
    requires address !in query || room == 0
    ensures Walk(query, address, room, pathname) == []
  {
  }

  /**
   * read_process_maps on a Windows target. `hProcess` is what OpenProcess
   * returned (NULL makes the result NULL), `query` is VirtualQueryEx on that
   * handle and `moduleName` what GetModuleFileNameExA reports. The map holds
   * the regions of the walk from address 0, at most MAX_REGIONS of them.
   */
  method ReadProcessMapsWindows(hProcess: u64, query: RegionQuery, moduleName: Option<string>)
    returns (m: ProcessMap?)
    ensures m == null <==> hProcess == 0
    ensures m != null ==> fresh(m) && fresh(m.regions) && m.Valid() &&
                          m.Regions() == Walk(query, 0, MAX_REGIONS, ModulePath(moduleName))
  {
    if hProcess == 0 {
      return null;
    }
    m := new ProcessMap();
    var address: u64 := 0;
    ghost var path := ModulePath(moduleName);
    ghost var target := Walk(query, address, MAX_REGIONS, path);
    ghost var room: nat := MAX_REGIONS;
    while address in query
      invariant fresh(m) && fresh(m.regions) && m.Valid() && room == MAX_REGIONS - m.count
      invariant m.Regions() + Walk(query, address, room, path) == target
      decreases room
    {
      if m.count >= MAX_REGIONS {
        break;
      }
      var mbi := query[address];
      var pathname := ModulePath(moduleName);
      WalkStep(query, address, room, path, m.Regions(), target);
      m.Append(WindowsRegion(mbi.baseAddress, mbi.regionSize, mbi.protect, Known(pathname)));
      room := room - 1;
      address := Add64(address, mbi.regionSize);
    }
    WalkEnd(query, address, room, path);
    assert m.Regions() + [] == m.Regions();
  }
}
