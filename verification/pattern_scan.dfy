/**
 * The pattern scanner (search_pattern): the region is read window by
 * window, each window a single BUFFER_SIZE read at region base + offset,
 * and every index of a window at which the whole pattern fits and matches
 * is reported as base + offset + index. Reporting (printf) becomes the
 * sequence of reported addresses.
 */
module PatternScan {
  import opened MemTypes
  import opened MemoryAccess

  /**
   * The target's memory as the scanner sees it: the OS's answer to a read
   * of BUFFER_SIZE bytes at each address.
   */
  type Target = imap<nat, OsRead>

  /** The OS answers every read and keeps the read contract. */
  ghost predicate Honest(os: Target) {
    forall address: nat :: address in os && ReadWithinRequest(os[address], BUFFER_SIZE)
  }

  /** The bytes one scan read delivers: the first `bytes_read` bytes the OS copied. */
  function Window(os: Target, address: nat): (w: seq<byte>)
    requires Honest(os)
    ensures |w| <= BUFFER_SIZE
  {
    var o := os[address];
    o.data[..Transferred(o.reply)]
  }

  /** The pattern lies wholly inside window `w` at index `i`. */
  predicate MatchAt(w: seq<byte>, p: seq<byte>, i: nat) {
    i < |w| && i + |p| <= |w| && forall j | 0 <= j < |p| :: w[i + j] == p[j]
  }

  /**
   * How many indices of window `w` the inner loop visits: it stops at the
   * first index at which the pattern no longer fits in the window.
   */
  function Visited(w: seq<byte>, p: seq<byte>): (k: nat)
    ensures k <= |w|
  {
    if |p| > |w| then 0 else if |p| == 0 then |w| else |w| - |p| + 1
  }

  /** The addresses the inner loop reports among the first `i` indices of window `w` read at `base`. */
  function MatchesBelow(w: seq<byte>, p: seq<byte>, base: nat, i: nat): seq<nat> {
    if i == 0 then []
    else MatchesBelow(w, p, base, i - 1) + (if MatchAt(w, p, i - 1) then [base + i - 1] else [])
  }

  /** The addresses the inner loop reports for window `w` read at `base`. */
  function WindowMatches(w: seq<byte>, p: seq<byte>, base: nat): seq<nat> {
    MatchesBelow(w, p, base, Visited(w, p))
  }

  /** One window of a scan: its offset from the region base and the bytes read there. */
  datatype Chunk = Chunk(offset: nat, bytes: seq<byte>)

  /**
   * The windows the outer loop reads from `offset` on: it stops when the
   * offset reaches the region size or a read delivers nothing. A window is
   * not cut at the region's end.
   */
  function Windows(os: Target, start: nat, size: nat, offset: nat): seq<Chunk>
    requires Honest(os)
    decreases size - offset
  {
    if offset >= size then []
    else
      var w := Window(os, start + offset);
      if |w| == 0 then [] else [Chunk(offset, w)] + Windows(os, start, size, offset + |w|)
  }

  /** What the inner loop reports for one window, as a function of the window. */
  type Reporter = Chunk -> seq<nat>

  /** The inner loop's reports for a window of the region based at `start`. */
  function Hits(start: nat, p: seq<byte>): Reporter {
    (c: Chunk) => WindowMatches(c.bytes, p, start + c.offset)
  }

  /** What the reporter gives for one window. */
  lemma HitsApply(start: nat, p: seq<byte>, c: Chunk)
    ensures Hits(start, p)(c) == WindowMatches(c.bytes, p, start + c.offset)
  {
  }

  /** The reports for a run of windows: each window's reports, in window order. */
  function Reports(cs: seq<Chunk>, hits: Reporter): seq<nat> {
    if cs == [] then [] else Reports(cs[..|cs| - 1], hits) + hits(cs[|cs| - 1])
  }

  /** The windows search_pattern reads for a region. */
  function ScanWindows(os: Target, region: MemoryRegion): seq<Chunk>
    requires Honest(os)
  {
    Windows(os, region.Base(), region.Extent(), 0)
  }

  /** The addresses search_pattern reports for a region. */
  function Scan(os: Target, region: MemoryRegion, p: seq<byte>): seq<nat>
    requires Honest(os)
  {
    Reports(ScanWindows(os, region), Hits(region.Base(), p))
  }

  /**
   * The inner loop of search_pattern over the first `n` bytes of the
   * buffer: every index at which the pattern fits and matches is reported
   * as `base + i`, until the pattern no longer fits.
   */
  method MatchWindow(buffer: array<byte>, n: nat, pattern: seq<byte>, base: nat) returns (hits: seq<nat>)
    requires n <= buffer.Length
    ensures hits == WindowMatches(buffer[..n], pattern, base)
  {
    ghost var w := buffer[..n];
    hits := [];
    var i := 0;
    while i < n
      invariant i <= Visited(w, pattern)
      invariant hits == MatchesBelow(w, pattern, base, i)
      decreases n - i
    {
      if i + |pattern| > n {
        break;
      }
      assert buffer[i..i + |pattern|] == w[i..i + |pattern|];
      if buffer[i..i + |pattern|] == pattern {
        hits := hits + [base + i];
      }
      i := i + 1;
    }
    assert i == Visited(w, pattern);
  }

  /**
   * One pass of search_pattern's outer loop at `address`: a single
   * BUFFER_SIZE read, then, when it delivered bytes, the inner loop over
   * them.
   */
  method ScanWindow(os: Target, address: nat, buffer: array<byte>, pattern: seq<byte>)
    returns (bytesRead: nat, hits: seq<nat>)
    requires Honest(os) && buffer.Length == BUFFER_SIZE
    modifies buffer
    ensures bytesRead == |Window(os, address)|
    ensures hits == WindowMatches(Window(os, address), pattern, address)
  {
    bytesRead := ReadProcessMemory(address, buffer, BUFFER_SIZE, os[address]);
    assert buffer[..bytesRead] == Window(os, address);
    if bytesRead == 0 {
      return bytesRead, [];
    }
    hits := MatchWindow(buffer, bytesRead, pattern, address);
  }

  /**
   * One pass of the outer loop, as the loop sees it: the read at the
   * current offset is the next window, and its matches extend the reports
   * so far.
   */
  lemma ScanStep(os: Target, start: nat, size: nat, offset: nat, done: seq<Chunk>, whole: seq<Chunk>,
                 n: nat, hits: seq<nat>, found: seq<nat>, p: seq<byte>)
    requires Honest(os) && done + Windows(os, start, size, offset) == whole
    requires found == Reports(done, Hits(start, p))
    requires offset < size && n == |Window(os, start + offset)| && n > 0
    requires hits == WindowMatches(Window(os, start + offset), p, start + offset)
    ensures (done + [Chunk(offset, Window(os, start + offset))]) + Windows(os, start, size, offset + n) == whole
    ensures found + hits == Reports(done + [Chunk(offset, Window(os, start + offset))], Hits(start, p))
  {
    var c := Chunk(offset, Window(os, start + offset));
    assert (done + [c])[..|done|] == done;
  }

  /** The outer loop's exits: the offset reached the size, or a read delivered nothing. */
  lemma WindowsStop(os: Target, start: nat, size: nat, offset: nat)
    requires Honest(os)
    requires offset >= size || |Window(os, start + offset)| == 0
    ensures Windows(os, start, size, offset) == []
  {
  }

  /**
   * search_pattern: a BUFFER_SIZE buffer and a loop over windows, from
   * offset 0 while the offset is below the region size; a read that
   * delivers nothing ends the scan. The reported addresses are those of
   * Scan, in the same order.
   */
  method SearchPattern(os: Target, region: MemoryRegion, pattern: seq<byte>) returns (found: seq<nat>)
    requires Honest(os)
    ensures found == Scan(os, region, pattern)
  {
    var start: nat, size: nat := region.Base(), region.Extent();
    var buffer := new byte[BUFFER_SIZE];
    var offset: nat := 0;
    found := [];
    ghost var whole := ScanWindows(os, region);
    ghost var done: seq<Chunk> := [];
    while offset < size
      invariant done + Windows(os, start, size, offset) == whole
      invariant found == Reports(done, Hits(start, pattern))
      decreases size - offset
    {
      var bytesRead, hits := ScanWindow(os, start + offset, buffer, pattern);
      if bytesRead == 0 {
        break;
      }
      ScanStep(os, start, size, offset, done, whole, bytesRead, hits, found, pattern);
      found := found + hits;
      done := done + [Chunk(offset, Window(os, start + offset))];
      offset := offset + bytesRead;
    }
    WindowsStop(os, start, size, offset);
    assert done + [] == done;
  }

  // ---------------------------------------------------------------------
  // What the reports mean.
  // ---------------------------------------------------------------------

  /** Strictly ascending. */
  predicate Increasing(s: seq<nat>) {
    forall i, j | 0 <= i < j < |s| :: s[i] < s[j]
  }

  lemma IncreasingCat(a: seq<nat>, b: seq<nat>)
    requires Increasing(a) && Increasing(b)
    requires forall x, y | x in a && y in b :: x < y
    ensures Increasing(a + b)
  {
    forall i, j | 0 <= i < j < |a + b|
      ensures (a + b)[i] < (a + b)[j]
    {
      if i < |a| && |a| <= j {
        assert (a + b)[i] in a && (a + b)[j] in b;
      }
    }
  }

  /** Among the first `n` indices, `x` is reported exactly when the pattern matches at `x - base`. */
  lemma {:induction false} MatchesBelowExact(w: seq<byte>, p: seq<byte>, base: nat, n: nat, x: nat)
    ensures x in MatchesBelow(w, p, base, n) <==> base <= x < base + n && MatchAt(w, p, x - base)
  {
    if n > 0 {
      MatchesBelowExact(w, p, base, n - 1, x);
    }
  }

  lemma {:induction false} MatchesBelowOrdered(w: seq<byte>, p: seq<byte>, base: nat, n: nat)
    ensures Increasing(MatchesBelow(w, p, base, n))
    ensures forall x | x in MatchesBelow(w, p, base, n) :: base <= x < base + n
  {
    if n > 0 {
      MatchesBelowOrdered(w, p, base, n - 1);
      var tail := if MatchAt(w, p, n - 1) then [base + n - 1] else [];
      IncreasingCat(MatchesBelow(w, p, base, n - 1), tail);
    }
  }

  /**
   * The inner loop's match condition: address `x` is reported for a window
   * read at `base` exactly when the pattern lies wholly inside the window at
   * index `x - base` and its bytes equal the pattern. With an empty pattern
   * that is every index of the window.
   */
  lemma WindowMatchesExact(w: seq<byte>, p: seq<byte>, base: nat, x: nat)
    ensures x in WindowMatches(w, p, base) <==> base <= x && MatchAt(w, p, x - base)
  {
    MatchesBelowExact(w, p, base, Visited(w, p), x);
  }

  /** A window's reports ascend and lie within the window. */
  lemma WindowMatchesOrdered(w: seq<byte>, p: seq<byte>, base: nat)
    ensures Increasing(WindowMatches(w, p, base))
    ensures forall x | x in WindowMatches(w, p, base) :: base <= x < base + |w|
  {
    MatchesBelowOrdered(w, p, base, Visited(w, p));
  }

  /** A reporter whose reports for each window ascend and lie within that window. */
  ghost predicate Local(hits: Reporter, start: nat) {
    forall c: Chunk :: Increasing(hits(c)) && forall x | x in hits(c) :: start + c.offset <= x < start + c.offset + |c.bytes|
  }

  /** The inner loop reports, for each window, ascending addresses inside that window. */
  lemma HitsLocal(start: nat, p: seq<byte>)
    ensures Local(Hits(start, p), start)
  {
    forall c: Chunk
      ensures Increasing(Hits(start, p)(c))
      ensures forall x | x in Hits(start, p)(c) :: start + c.offset <= x < start + c.offset + |c.bytes|
    {
      WindowMatchesOrdered(c.bytes, p, start + c.offset);
    }
  }

  lemma InitOfCat(a: seq<Chunk>, b: seq<Chunk>)
    requires b != []
    ensures (a + b)[..|a + b| - 1] == a + b[..|b| - 1] && (a + b)[|a + b| - 1] == b[|b| - 1]
  {
  }

  lemma {:induction false} ReportsCat(a: seq<Chunk>, b: seq<Chunk>, hits: Reporter)
    ensures Reports(a + b, hits) == Reports(a, hits) + Reports(b, hits)
    decreases |b|
  {
    if b == [] {
      assert a + b == a;
    } else {
      var b', last := b[..|b| - 1], b[|b| - 1];
      InitOfCat(a, b);
      ReportsCat(a, b', hits);
      calc {
        Reports(a + b, hits);
        Reports(a + b', hits) + hits(last);
        (Reports(a, hits) + Reports(b', hits)) + hits(last);
        Reports(a, hits) + (Reports(b', hits) + hits(last));
        Reports(a, hits) + Reports(b, hits);
      }
    }
  }

  /** Whatever one window of a run reports is among the run's reports. */
  lemma {:induction false} ReportsCover(cs: seq<Chunk>, hits: Reporter, k: nat, x: nat)
    requires k < |cs| && x in hits(cs[k])
    ensures x in Reports(cs, hits)
  {
    var init := cs[..|cs| - 1];
    if k < |init| {
      assert init[k] == cs[k];
      ReportsCover(init, hits, k, x);
    }
  }

  /** Every report of a run of windows comes from one of the windows. */
  lemma {:induction false} ReportsOwner(cs: seq<Chunk>, hits: Reporter, x: nat) returns (k: nat)
    requires x in Reports(cs, hits)
    ensures k < |cs| && x in hits(cs[k])
  {
    var init := cs[..|cs| - 1];
    if x in Reports(init, hits) {
      k := ReportsOwner(init, hits, x);
      assert init[k] == cs[k];
    } else {
      k := |cs| - 1;
    }
  }

  /** The scan from `offset` is the first window's reports followed by the scan after it. */
  lemma ReportsFirst(os: Target, start: nat, size: nat, offset: nat, hits: Reporter)
    requires Honest(os) && offset < size && |Window(os, start + offset)| > 0
    ensures Reports(Windows(os, start, size, offset), hits)
            == hits(Chunk(offset, Window(os, start + offset)))
               + Reports(Windows(os, start, size, offset + |Window(os, start + offset)|), hits)
  {
    var c := Chunk(offset, Window(os, start + offset));
    var rest := Windows(os, start, size, offset + |c.bytes|);
    assert Windows(os, start, size, offset) == [c] + rest;
    ReportsCat([c], rest, hits);
    assert [c][..0] == [];
  }

  /** From any offset on, the reports of a local reporter ascend and none lies below the address read first. */
  lemma {:induction false} ReportsFromOrdered(os: Target, start: nat, size: nat, offset: nat, hits: Reporter)
    requires Honest(os) && Local(hits, start)
    ensures Increasing(Reports(Windows(os, start, size, offset), hits))
    ensures forall x | x in Reports(Windows(os, start, size, offset), hits) :: start + offset <= x
    decreases size - offset
  {
    if offset < size && |Window(os, start + offset)| > 0 {
      var c := Chunk(offset, Window(os, start + offset));
      var rest := Reports(Windows(os, start, size, offset + |c.bytes|), hits);
      ReportsFirst(os, start, size, offset, hits);
      ReportsFromOrdered(os, start, size, offset + |c.bytes|, hits);
      IncreasingCat(hits(c), rest);
    }
  }


  /**
   * The k-th window read from `offset`: its read starts below the region
   * size, it holds the bytes the read at its address delivered, and the
   * windows from it on are those the outer loop reads from its offset.
   */
  lemma {:induction false} WindowsSuffix(os: Target, start: nat, size: nat, offset: nat, k: nat)
    requires Honest(os) && k < |Windows(os, start, size, offset)|
    ensures var c := Windows(os, start, size, offset)[k];
            offset <= c.offset < size && 0 < |c.bytes| && c.bytes == Window(os, start + c.offset) &&
            Windows(os, start, size, c.offset) == Windows(os, start, size, offset)[k..]
    decreases k
  {
    var w := Window(os, start + offset);
    var ws := Windows(os, start, size, offset);
    var rest := Windows(os, start, size, offset + |w|);
    assert ws == [Chunk(offset, w)] + rest;
    if k > 0 {
      WindowsSuffix(os, start, size, offset + |w|, k - 1);
      assert ws[k] == rest[k - 1];
      assert ws[k..] == rest[k - 1..];
    }
  }


  /**
   * Windows are contiguous and do not overlap: each starts inside the
   * region, holds between 1 and BUFFER_SIZE bytes, and the next one starts
   * where it ends.
   */
  lemma WindowsContiguous(os: Target, region: MemoryRegion, k: nat)
    requires Honest(os) && k < |ScanWindows(os, region)|
    ensures var ws := ScanWindows(os, region);
            ws[k].offset < region.Extent() && 0 < |ws[k].bytes| <= BUFFER_SIZE &&
            (k + 1 < |ws| ==> ws[k + 1].offset == ws[k].offset + |ws[k].bytes|)
  {
    var start, size := region.Base(), region.Extent();
    var ws := ScanWindows(os, region);
    WindowsSuffix(os, start, size, 0, k);
    var c := ws[k];
    assert Windows(os, start, size, c.offset) == [c] + Windows(os, start, size, c.offset + |c.bytes|);
    if k + 1 < |ws| {
      assert ws[k + 1] == ws[k..][1];
      assert Windows(os, start, size, c.offset + |c.bytes|)[0].offset == c.offset + |c.bytes|;
    }
  }

  /**
   * For a local reporter, an address inside the k-th window read from
   * `offset` is reported exactly when that window reports it.
   */
  lemma {:induction false} ReportsWindowExact(os: Target, start: nat, size: nat, offset: nat, hits: Reporter, k: nat, x: nat)
    requires Honest(os) && Local(hits, start) && k < |Windows(os, start, size, offset)|
    requires var c := Windows(os, start, size, offset)[k]; start + c.offset <= x < start + c.offset + |c.bytes|
    ensures x in Reports(Windows(os, start, size, offset), hits) <==> x in hits(Windows(os, start, size, offset)[k])
    decreases k
  {
    var first := Chunk(offset, Window(os, start + offset));
    var next := offset + |first.bytes|;
    var rest := Windows(os, start, size, next);
    assert Windows(os, start, size, offset) == [first] + rest;
    ReportsFirst(os, start, size, offset, hits);
    if k == 0 {
      ReportsFromOrdered(os, start, size, next, hits);
    } else {
      assert Windows(os, start, size, offset)[k] == rest[k - 1];
      WindowsSuffix(os, start, size, next, k - 1);
      ReportsWindowExact(os, start, size, next, hits, k - 1, x);
    }
  }

  /** An address inside the k-th window of a scan is reported exactly when the inner loop reports it for that window. */
  lemma ScanWindowReports(os: Target, region: MemoryRegion, p: seq<byte>, k: nat, x: nat)
    requires Honest(os) && k < |ScanWindows(os, region)|
    requires var c := ScanWindows(os, region)[k]; region.Base() + c.offset <= x < region.Base() + c.offset + |c.bytes|
    ensures var c := ScanWindows(os, region)[k];
            x in Scan(os, region, p) <==> x in WindowMatches(c.bytes, p, region.Base() + c.offset)
  {
    var start, size := region.Base(), region.Extent();
    var hits := Hits(start, p);
    var ws := Windows(os, start, size, 0);
    assert ws == ScanWindows(os, region);
    HitsLocal(start, p);
    ReportsWindowExact(os, start, size, 0, hits, k, x);
    HitsApply(start, p, ws[k]);
  }

  /**
   * Every scan window, wherever it lies in the scan: an address of the
   * window is reported exactly when the whole pattern lies inside that
   * window there and its bytes equal the pattern.
   */
  lemma ScanWindowExact(os: Target, region: MemoryRegion, p: seq<byte>, k: nat, i: nat)
    requires Honest(os) && k < |ScanWindows(os, region)| && i < |ScanWindows(os, region)[k].bytes|
    ensures var c := ScanWindows(os, region)[k];
            region.Base() + c.offset + i in Scan(os, region, p) <==> MatchAt(c.bytes, p, i)
  {
    var c := ScanWindows(os, region)[k];
    ScanWindowReports(os, region, p, k, region.Base() + c.offset + i);
    WindowMatchesExact(c.bytes, p, region.Base() + c.offset, region.Base() + c.offset + i);
  }

  /** Every reported address is a match inside one of the windows. */
  lemma ReportedIsMatch(os: Target, region: MemoryRegion, p: seq<byte>, x: nat) returns (k: nat)
    requires Honest(os) && x in Scan(os, region, p)
    ensures k < |ScanWindows(os, region)|
    ensures region.Base() + ScanWindows(os, region)[k].offset <= x
    ensures MatchAt(ScanWindows(os, region)[k].bytes, p, x - (region.Base() + ScanWindows(os, region)[k].offset))
  {
    var ws := ScanWindows(os, region);
    k := ReportsOwner(ws, Hits(region.Base(), p), x);
    WindowMatchesExact(ws[k].bytes, p, region.Base() + ws[k].offset, x);
  }

  /** Every match inside a window is reported. */
  lemma MatchIsReported(os: Target, region: MemoryRegion, p: seq<byte>, k: nat, x: nat)
    requires Honest(os) && k < |ScanWindows(os, region)|
    requires region.Base() + ScanWindows(os, region)[k].offset <= x
    requires MatchAt(ScanWindows(os, region)[k].bytes, p, x - (region.Base() + ScanWindows(os, region)[k].offset))
    ensures x in Scan(os, region, p)
  {
    var ws := ScanWindows(os, region);
    WindowMatchesExact(ws[k].bytes, p, region.Base() + ws[k].offset, x);
    ReportsCover(ws, Hits(region.Base(), p), k, x);
  }

  /** The reports are exactly the matches inside the windows. */
  lemma ScanMembership(os: Target, region: MemoryRegion, p: seq<byte>, x: nat)
    requires Honest(os)
    ensures x in Scan(os, region, p) <==>
            exists k | 0 <= k < |ScanWindows(os, region)| ::
              region.Base() + ScanWindows(os, region)[k].offset <= x &&
              MatchAt(ScanWindows(os, region)[k].bytes, p, x - (region.Base() + ScanWindows(os, region)[k].offset))
  {
    if x in Scan(os, region, p) {
      var k := ReportedIsMatch(os, region, p, x);
    }
    if exists k | 0 <= k < |ScanWindows(os, region)| ::
         region.Base() + ScanWindows(os, region)[k].offset <= x &&
         MatchAt(ScanWindows(os, region)[k].bytes, p, x - (region.Base() + ScanWindows(os, region)[k].offset)) {
      var k :| 0 <= k < |ScanWindows(os, region)| &&
               region.Base() + ScanWindows(os, region)[k].offset <= x &&
               MatchAt(ScanWindows(os, region)[k].bytes, p, x - (region.Base() + ScanWindows(os, region)[k].offset));
      MatchIsReported(os, region, p, k, x);
    }
  }

  /** The reported addresses are strictly increasing, and none lies below the region base. */
  lemma ScanIncreasing(os: Target, region: MemoryRegion, p: seq<byte>)
    requires Honest(os)
    ensures Increasing(Scan(os, region, p))
    ensures forall x | x in Scan(os, region, p) :: region.Base() <= x
  {
    HitsLocal(region.Base(), p);
    ReportsFromOrdered(os, region.Base(), region.Extent(), 0, Hits(region.Base(), p));
  }

  /**
   * An occurrence whose bytes begin in one window and end in the next is
   * not reported at its first address, although those bytes lie at
   * consecutive addresses.
   */
  lemma SpanningNotReported(os: Target, region: MemoryRegion, p: seq<byte>, k: nat, i: nat, j: nat)
    requires Honest(os) && k + 1 < |ScanWindows(os, region)|
    requires i < |ScanWindows(os, region)[k].bytes| && 0 < j <= |ScanWindows(os, region)[k + 1].bytes|
    requires p == ScanWindows(os, region)[k].bytes[i..] + ScanWindows(os, region)[k + 1].bytes[..j]
    ensures region.Base() + ScanWindows(os, region)[k].offset + i !in Scan(os, region, p)
  {
    ScanWindowExact(os, region, p, k, i);
  }

  /** An empty pattern is reported at every address of every window. */
  lemma EmptyPatternEverywhere(os: Target, region: MemoryRegion, k: nat, i: nat)
    requires Honest(os) && k < |ScanWindows(os, region)| && i < |ScanWindows(os, region)[k].bytes|
    ensures region.Base() + ScanWindows(os, region)[k].offset + i in Scan(os, region, [])
  {
    ScanWindowExact(os, region, [], k, i);
  }

  lemma {:induction false} LongPatternFrom(os: Target, start: nat, size: nat, offset: nat, p: seq<byte>)
    requires Honest(os) && |p| > BUFFER_SIZE
    ensures Reports(Windows(os, start, size, offset), Hits(start, p)) == []
    decreases size - offset
  {
    if offset < size && |Window(os, start + offset)| > 0 {
      ReportsFirst(os, start, size, offset, Hits(start, p));
      LongPatternFrom(os, start, size, offset + |Window(os, start + offset)|, p);
    }
  }

  /** A pattern longer than one window is never found. */
  lemma LongPatternNeverFound(os: Target, region: MemoryRegion, p: seq<byte>)
    requires Honest(os) && |p| > BUFFER_SIZE
    ensures Scan(os, region, p) == []
  {
    LongPatternFrom(os, region.Base(), region.Extent(), 0, p);
  }

  /**
   * Reported addresses lie from the region base to the end of the last
   * window, which starts below the region size but may reach up to
   * BUFFER_SIZE - 1 bytes past it.
   */
  lemma ScanBounds(os: Target, region: MemoryRegion, p: seq<byte>, x: nat)
    requires Honest(os) && x in Scan(os, region, p)
    ensures region.Base() <= x < region.Base() + region.Extent() + BUFFER_SIZE - 1
  {
    var k := ReportedIsMatch(os, region, p, x);
    WindowsContiguous(os, region, k);
  }

  /**
   * The read is not clamped to the region: when the read at the base of a
   * one-byte region delivers a full window of zero bytes, scanning for a
   * zero byte reports an address BUFFER_SIZE - 1 bytes past the region's
   * only byte.
   */
  lemma ReadNotClamped(os: Target, region: MemoryRegion)
    requires Honest(os) && region.Extent() == 1
    requires os[region.Base()] == OsRead(PosixReply(BUFFER_SIZE), seq(BUFFER_SIZE, _ => 0))
    ensures region.Base() + BUFFER_SIZE - 1 in Scan(os, region, [0])
  {
    var zeros: seq<byte> := seq(BUFFER_SIZE, _ => 0);
    assert Window(os, region.Base()) == zeros;
    assert Windows(os, region.Base(), 1, BUFFER_SIZE) == [];
    assert ScanWindows(os, region) == [Chunk(0, zeros)];
    ScanWindowExact(os, region, [0], 0, BUFFER_SIZE - 1);
    assert MatchAt(zeros, [0], BUFFER_SIZE - 1);
  }
}
