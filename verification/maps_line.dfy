/**
 * One line of a `/proc/<pid>/maps` listing, parsed as the POSIX map reader
 * does it with the conversion `%lx-%lx %4s %*s %*s %*s %255s`: two hex
 * fields joined by '-', a permissions field of at most four characters,
 * three skipped columns (offset, device, inode) and an optional path of at
 * most 255 characters. A line counts when the first three conversions
 * succeed.
 */
module MapsLine {
  import opened MemTypes

  /** Width of the `%4s` permissions conversion. */
  const PERMS_WIDTH: nat := 4

  /** Width of the `%255s` path conversion. */
  const PATH_WIDTH: nat := 255

  /** The characters `isspace` accepts in the C locale. */
  predicate IsSpace(c: char) {
    c == ' ' || c == '\t' || c == '\n' || c == '\U{0B}' || c == '\U{0C}' || c == '\r'
  }

  predicate IsHexDigit(c: char) {
    ('0' <= c <= '9') || ('a' <= c <= 'f') || ('A' <= c <= 'F')
  }

  predicate NoSpace(s: string) {
    forall k | 0 <= k < |s| :: !IsSpace(s[k])
  }

  predicate AllSpace(s: string) {
    forall k | 0 <= k < |s| :: IsSpace(s[k])
  }

  predicate AllHex(s: string) {
    forall k | 0 <= k < |s| :: IsHexDigit(s[k])
  }

  function DigitValue(c: char): (v: nat)
    requires IsHexDigit(c)
    ensures v < 16
  {
    if '0' <= c <= '9' then c as int - '0' as int
    else if 'a' <= c <= 'f' then c as int - 'a' as int + 10
    else c as int - 'A' as int + 10
  }

  /** The value of a string of hex digits, most significant first. */
  function HexValue(digits: string): nat
    requires AllHex(digits)
  {
    if digits == [] then 0
    else HexValue(digits[..|digits| - 1]) * 16 + DigitValue(digits[|digits| - 1])
  }

  /** `%lx` stores ULONG_MAX for a value that does not fit (strtoul's overflow rule). */
  function Saturate(v: nat): (w: u64)
    ensures v < ULONG_LIMIT ==> w == v
    ensures v >= ULONG_LIMIT ==> w == ULONG_LIMIT - 1
  {
    if v < ULONG_LIMIT then v else ULONG_LIMIT - 1
  }

  /** What is left after the white space at the front of `s`. */
  function SkipSpace(s: string): (r: string)
    ensures |r| <= |s|
    ensures r != [] ==> !IsSpace(r[0])
  {
    if s != [] && IsSpace(s[0]) then SkipSpace(s[1..]) else s
  }

  /** The length of the run of hex digits at the front of `s`. */
  function HexSpan(s: string): (n: nat)
    ensures n <= |s| && AllHex(s[..n])
    ensures n < |s| ==> !IsHexDigit(s[n])
  {
    if s != [] && IsHexDigit(s[0]) then 1 + HexSpan(s[1..]) else 0
  }

  /** The length of the run of at most `width` non-space characters at the front of `s`. */
  function TokenSpan(s: string, width: nat): (n: nat)
    ensures n <= |s| && n <= width && NoSpace(s[..n])
    ensures n < |s| && n < width ==> IsSpace(s[n])
  {
    if width > 0 && s != [] && !IsSpace(s[0]) then 1 + TokenSpan(s[1..], width - 1) else 0
  }

  /** A `%*s` conversion: skip white space and one token; None at end of input. */
  function SkipField(s: string): Option<string> {
    var t := SkipSpace(s);
    if t == [] then None else Some(t[TokenSpan(t, |t|)..])
  }

  /** The `%255s` conversion: the path column, if anything but white space is left. */
  function LastColumn(s: string): (p: Option<string>)
    ensures p.Some? ==> 1 <= |p.value| <= PATH_WIDTH && NoSpace(p.value)
  {
    var t := SkipSpace(s);
    if t == [] then None else Some(t[..TokenSpan(t, PATH_WIDTH)])
  }

  /** The `%*s %*s %*s %255s` tail after the permissions: the path column, if the line has one. */
  function PathColumn(s: string): (p: Option<string>)
    ensures p.Some? ==> 1 <= |p.value| <= PATH_WIDTH && NoSpace(p.value)
  {
    match SkipField(s)
    case None => None
    case Some(s1) =>
      match SkipField(s1)
      case None => None
      case Some(s2) =>
        match SkipField(s2)
        case None => None
        case Some(s3) => LastColumn(s3)
  }

  /** What a successful parse stores: start, end, perms and the path if one was converted. */
  datatype MapsEntry = MapsEntry(start: u64, end: u64, perms: string, path: Option<string>)

  /**
   * The `sscanf` of one maps line, consuming it from the front. None when
   * fewer than three conversions succeed: no leading hex field, no '-' right
   * after it, no hex field after the '-', or nothing left for the
   * permissions.
   */
  function ParseMapsLine(line: string): (r: Option<MapsEntry>)
    ensures r.Some? ==> 1 <= |r.value.perms| <= PERMS_WIDTH && NoSpace(r.value.perms)
    ensures r.Some? && r.value.path.Some? ==>
              1 <= |r.value.path.value| <= PATH_WIDTH && NoSpace(r.value.path.value)
  {
    var s1 := SkipSpace(line);
    var n1 := HexSpan(s1);
    if n1 == 0 || n1 == |s1| || s1[n1] != '-' then None
    else
      var s2 := SkipSpace(s1[n1 + 1..]);
      var n2 := HexSpan(s2);
      if n2 == 0 then None
      else
        var s3 := SkipSpace(s2[n2..]);
        if s3 == [] then None
        else
          var n3 := TokenSpan(s3, PERMS_WIDTH);
          Some(MapsEntry(Saturate(HexValue(s1[..n1])), Saturate(HexValue(s2[..n2])),
                         s3[..n3], PathColumn(s3[n3..])))
  }

  /** A blank line (only white space) never yields a region. */
  lemma BlankRejected(line: string)
    requires AllSpace(line)
    ensures ParseMapsLine(line) == None
  {
    SkipSpaceAll(line);
  }

  /** A leading hex field not followed at once by '-' converts one field only: the line is skipped. */
  lemma MissingDashRejected(h: string, t: string)
    requires |h| >= 1 && AllHex(h)
    requires t != [] ==> t[0] != '-' && !IsHexDigit(t[0])
    ensures ParseMapsLine(h + t) == None
  {
    SkipSpaceCat([], h + t);
    assert [] + (h + t) == h + t;
    HexSpanCat(h, t);
    assert t != [] ==> (h + t)[|h|] == t[0];
  }

  /** `start-end` followed by nothing but white space converts two fields: the line is skipped. */
  lemma MissingPermsRejected(h1: string, h2: string, ws: string)
    requires |h1| >= 1 && AllHex(h1) && |h2| >= 1 && AllHex(h2)
    requires AllSpace(ws)
    ensures ParseMapsLine(h1 + ("-" + (h2 + ws))) == None
  {
    var r2 := h2 + ws;
    var line := h1 + ("-" + r2);
    SkipSpaceCat([], line);
    assert [] + line == line;
    HexSpanCat(h1, "-" + r2);
    assert line[..|h1|] == h1 && line[|h1|] == '-' && line[|h1| + 1..] == r2;
    SkipSpaceCat([], r2);
    assert [] + r2 == r2;
    assert ws != [] ==> IsSpace(ws[0]);
    HexSpanCat(h2, ws);
    assert r2[|h2|..] == ws;
    SkipSpaceAll(ws);
  }

  lemma {:induction false} SkipSpaceAll(s: string)
    requires AllSpace(s)
    ensures SkipSpace(s) == []
  {
    if s != [] {
      SkipSpaceAll(s[1..]);
    }
  }

  // ---------------------------------------------------------------------
  // The layout the kernel writes, and the round trip through the parse.
  // ---------------------------------------------------------------------

  function HexDigitChar(v: nat): (c: char)
    requires v < 16
    ensures IsHexDigit(c) && DigitValue(c) == v
  {
    if v < 10 then ('0' as int + v) as char else ('a' as int + v - 10) as char
  }

  /** Lower-case hex digits of `n`, most significant first. */
  function ToHex(n: nat): (s: string)
    ensures |s| >= 1 && AllHex(s)
    decreases n
  {
    if n < 16 then [HexDigitChar(n)] else ToHex(n / 16) + [HexDigitChar(n % 16)]
  }

  lemma {:induction false} HexRoundTrip(n: nat)
    ensures HexValue(ToHex(n)) == n
    decreases n
  {
    if n >= 16 {
      HexRoundTrip(n / 16);
      var s := ToHex(n);
      assert s[..|s| - 1] == ToHex(n / 16);
    }
  }

  function Spaces(n: nat): (s: string)
    ensures |s| == n && forall k | 0 <= k < n :: s[k] == ' '
  {
    seq(n, _ => ' ')
  }

  /** A column that the parse reads as one token: non-empty and free of white space. */
  predicate IsToken(s: string) {
    |s| > 0 && NoSpace(s)
  }

  /**
   * A maps line in the layout proc(5) describes: `start-end perms offset dev
   * inode`, padding, the path if there is one, and the newline that fgets
   * keeps. The offset, device and inode columns are given as text.
   */
  function FormatMapsLine(e: MapsEntry, offset: string, dev: string, inode: string, pad: nat): string {
    ToHex(e.start) + ("-" + (ToHex(e.end) + (" " + (e.perms + (" " + (offset + (" " + (dev
      + (" " + (inode + (Spaces(pad + 1) + PathText(e.path) + "\n")))))))))))
  }

  function PathText(p: Option<string>): string {
    match p
    case None => ""
    case Some(s) => s
  }

  /** The path `%255s` keeps: the first 255 characters. */
  function Clip(p: Option<string>): Option<string> {
    match p
    case None => None
    case Some(s) => Some(if |s| <= PATH_WIDTH then s else s[..PATH_WIDTH])
  }

  /** The entry a formatted line can round-trip: perms of one to four characters, a path without white space. */
  predicate Formattable(e: MapsEntry) {
    1 <= |e.perms| <= PERMS_WIDTH && NoSpace(e.perms) &&
    (e.path.Some? ==> IsToken(e.path.value))
  }

  lemma {:induction false} SkipSpaceCat(ws: string, t: string)
    requires AllSpace(ws)
    requires t != [] ==> !IsSpace(t[0])
    ensures SkipSpace(ws + t) == t
  {
    if ws != [] {
      assert (ws + t)[1..] == ws[1..] + t;
      SkipSpaceCat(ws[1..], t);
    }
  }

  lemma {:induction false} HexSpanCat(h: string, t: string)
    requires AllHex(h)
    requires t != [] ==> !IsHexDigit(t[0])
    ensures HexSpan(h + t) == |h|
  {
    if h != [] {
      assert (h + t)[1..] == h[1..] + t;
      HexSpanCat(h[1..], t);
    }
  }

  lemma {:induction false} TokenSpanCat(x: string, t: string, width: nat)
    requires NoSpace(x) && |x| <= width
    requires t != [] && |x| < width ==> IsSpace(t[0])
    ensures TokenSpan(x + t, width) == |x|
  {
    if x != [] {
      assert (x + t)[1..] == x[1..] + t;
      TokenSpanCat(x[1..], t, width - 1);
    }
  }

  /** One skipped column: a space, a token, then anything that starts with white space. */
  lemma SkipFieldCat(col: string, t: string)
    requires IsToken(col)
    requires t != [] ==> IsSpace(t[0])
    ensures SkipField(" " + col + t) == Some(t)
  {
    SkipSpaceCat(" ", col + t);
    assert " " + col + t == " " + (col + t);
    TokenSpanCat(col, t, |col + t|);
    assert (col + t)[|col|..] == t;
  }

  /** The path column: at least one space, the path if there is one, then the newline. */
  lemma LastColumnCat(ws: string, path: Option<string>)
    requires |ws| >= 1 && AllSpace(ws)
    requires path.Some? ==> IsToken(path.value)
    ensures LastColumn(ws + PathText(path) + "\n") == Clip(path)
  {
    match path
    case None =>
      assert ws + PathText(path) + "\n" == ws + "\n";
      assert AllSpace(ws + "\n");
      SkipSpaceAll(ws + "\n");
    case Some(p) =>
      assert ws + p + "\n" == ws + (p + "\n");
      SkipSpaceCat(ws, p + "\n");
      var q := if |p| <= PATH_WIDTH then p else p[..PATH_WIDTH];
      var t := if |p| <= PATH_WIDTH then "\n" else p[PATH_WIDTH..] + "\n";
      assert p + "\n" == q + t;
      TokenSpanCat(q, t, PATH_WIDTH);
      assert (q + t)[..|q|] == q;
  }

  /**
   * The three skipped columns and the path: whatever follows the
   * permissions in a formatted line yields the clipped path.
   */
  lemma PathColumnCat(offset: string, dev: string, inode: string, pad: nat, path: Option<string>)
    requires IsToken(offset) && IsToken(dev) && IsToken(inode)
    requires path.Some? ==> IsToken(path.value)
    ensures PathColumn(" " + (offset + (" " + (dev + (" " + (inode + (Spaces(pad + 1) + PathText(path) + "\n")))))))
            == Clip(path)
  {
    var tail := Spaces(pad + 1) + PathText(path) + "\n";
    var t2 := " " + (inode + tail);
    var t1 := " " + (dev + t2);
    SkipFieldCat(offset, t1);
    assert " " + (offset + t1) == " " + offset + t1;
    SkipFieldCat(dev, t2);
    assert " " + (dev + t2) == " " + dev + t2;
    SkipFieldCat(inode, tail);
    assert " " + (inode + tail) == " " + inode + tail;
    LastColumnCat(Spaces(pad + 1), path);
  }

  /** SkipSpace drops the first `n` characters of `s`, all of them white space. */
  lemma {:induction false} SkipSpaceDrop(s: string) returns (n: nat)
    ensures n <= |s| && SkipSpace(s) == s[n..] && AllSpace(s[..n])
  {
    if s != [] && IsSpace(s[0]) {
      var m := SkipSpaceDrop(s[1..]);
      n := m + 1;
      assert s[1..][m..] == s[n..];
      forall k | 0 <= k < n
        ensures IsSpace(s[..n][k])
      {
        if k > 0 {
          assert s[..n][k] == s[1..][..m][k - 1];
        }
      }
    } else {
      n := 0;
    }
  }

  /** What SkipSpace drops from the front of `s` is white space. */
  lemma SkipSpaceSplit(s: string) returns (ws: string)
    ensures AllSpace(ws) && s == ws + SkipSpace(s)
  {
    var n := SkipSpaceDrop(s);
    ws := s[..n];
    assert s == s[..n] + s[n..];
  }



  /** The run of hex digits at the front of `r`, and what follows it. */
  lemma HexSplit(r: string) returns (h: string, t: string)
    ensures r == h + t && AllHex(h)
    ensures h == r[..HexSpan(r)] && t == r[HexSpan(r)..]
    ensures t != [] ==> !IsHexDigit(t[0])
  {
    var n := HexSpan(r);
    h, t := r[..n], r[n..];
    if t != [] {
      assert t[0] == r[n];
    }
  }

  /** The token of at most `width` characters at the front of `r`, and what follows it. */
  lemma TokenSplit(r: string, width: nat) returns (tok: string, t: string)
    ensures r == tok + t
    ensures tok == r[..TokenSpan(r, width)] && t == r[TokenSpan(r, width)..]
  {
    tok, t := r[..TokenSpan(r, width)], r[TokenSpan(r, width)..];
  }

  /**
   * What an accepted line looks like: white space, the start's hex digits,
   * '-', white space, the end's hex digits (the character after them is not
   * a hex digit), white space, a perms token of one to four characters, and
   * the rest, which starts with white space unless the token filled all
   * four places. The entry holds the values of the two hex fields, the
   * token, and the path column of the rest.
   */
  lemma {:induction false} AcceptedShape(line: string)
    returns (ws1: string, h1: string, ws2: string, h2: string, ws3: string, perms: string, rest: string)
    requires ParseMapsLine(line).Some?
    ensures line == ws1 + (h1 + ("-" + (ws2 + (h2 + (ws3 + (perms + rest))))))
    ensures AllSpace(ws1) && AllSpace(ws2) && AllSpace(ws3)
    ensures |h1| >= 1 && AllHex(h1) && |h2| >= 1 && AllHex(h2)
    ensures 1 <= |perms| <= PERMS_WIDTH && NoSpace(perms)
    ensures ws3 != [] || !IsHexDigit(perms[0])
    ensures rest != [] && |perms| < PERMS_WIDTH ==> IsSpace(rest[0])
    ensures ParseMapsLine(line)
            == Some(MapsEntry(Saturate(HexValue(h1)), Saturate(HexValue(h2)), perms, PathColumn(rest)))
  {
    var u1, u2;
    ws1 := SkipSpaceSplit(line);
    h1, u1 := HexSplit(SkipSpace(line));
    var t1 := u1[1..];
    assert u1 == "-" + t1;
    ws2 := SkipSpaceSplit(t1);
    h2, u2 := HexSplit(SkipSpace(t1));
    ws3 := SkipSpaceSplit(u2);
    perms, rest := TokenSplit(SkipSpace(u2), PERMS_WIDTH);
    if ws3 == [] {
      assert u2 == perms + rest && u2[0] == perms[0];
    }
  }

  /**
   * The converse: every line of that shape is accepted, with the values of
   * its two hex fields, its perms token and the path column of the rest.
   */
  lemma {:induction false} ShapeAccepted(ws1: string, h1: string, ws2: string, h2: string, ws3: string, perms: string, rest: string)
    requires AllSpace(ws1) && AllSpace(ws2) && AllSpace(ws3)
    requires |h1| >= 1 && AllHex(h1) && |h2| >= 1 && AllHex(h2)
    requires 1 <= |perms| <= PERMS_WIDTH && NoSpace(perms)
    requires ws3 != [] || !IsHexDigit(perms[0])
    requires rest != [] && |perms| < PERMS_WIDTH ==> IsSpace(rest[0])
    ensures ParseMapsLine(ws1 + (h1 + ("-" + (ws2 + (h2 + (ws3 + (perms + rest)))))))
            == Some(MapsEntry(Saturate(HexValue(h1)), Saturate(HexValue(h2)), perms, PathColumn(rest)))
  {
    var r3 := perms + rest;
    var t2 := ws3 + r3;
    var r2 := h2 + t2;
    var t1 := ws2 + r2;
    var r1 := h1 + ("-" + t1);
    var line := ws1 + r1;
    // start, then the '-'
    assert SkipSpace(line) == r1 by {
      SkipSpaceCat(ws1, r1);
    }
    assert HexSpan(r1) == |h1| by {
      HexSpanCat(h1, "-" + t1);
    }
    assert r1[..|h1|] == h1 && r1[|h1|] == '-' && r1[|h1| + 1..] == t1;
    // end
    assert SkipSpace(t1) == r2 by {
      SkipSpaceCat(ws2, r2);
    }
    assert HexSpan(r2) == |h2| by {
      if ws3 == [] {
        assert t2 == r3 && t2[0] == perms[0];
      } else {
        assert t2[0] == ws3[0];
      }
      HexSpanCat(h2, t2);
    }
    assert r2[..|h2|] == h2 && r2[|h2|..] == t2;
    // perms
    assert SkipSpace(t2) == r3 by {
      SkipSpaceCat(ws3, r3);
    }
    assert TokenSpan(r3, PERMS_WIDTH) == |perms| by {
      TokenSpanCat(perms, rest, PERMS_WIDTH);
    }
    assert r3[..|perms|] == perms && r3[|perms|..] == rest;
  }

  /** The head of a line, `start-end perms` followed by white space, converts its first three fields. */
  lemma ParseHeadCat(h1: string, h2: string, perms: string, rest: string)
    requires |h1| >= 1 && AllHex(h1) && |h2| >= 1 && AllHex(h2)
    requires 1 <= |perms| <= PERMS_WIDTH && NoSpace(perms)
    requires rest != [] && IsSpace(rest[0])
    ensures ParseMapsLine(h1 + ("-" + (h2 + (" " + (perms + rest)))))
            == Some(MapsEntry(Saturate(HexValue(h1)), Saturate(HexValue(h2)), perms, PathColumn(rest)))
  {
    var r3 := perms + rest;
    var r2 := h2 + (" " + r3);
    var line := h1 + ("-" + r2);
    // start, then the '-'
    assert SkipSpace(line) == line by {
      SkipSpaceCat([], line);
      assert [] + line == line;
    }
    assert HexSpan(line) == |h1| by {
      HexSpanCat(h1, "-" + r2);
    }
    assert line[..|h1|] == h1 && line[|h1|] == '-' && line[|h1| + 1..] == r2;
    // end
    assert SkipSpace(r2) == r2 by {
      SkipSpaceCat([], r2);
      assert [] + r2 == r2;
    }
    assert HexSpan(r2) == |h2| by {
      HexSpanCat(h2, " " + r3);
    }
    assert r2[..|h2|] == h2 && r2[|h2|..] == " " + r3;
    // perms
    assert SkipSpace(" " + r3) == r3 by {
      SkipSpaceCat(" ", r3);
    }
    assert TokenSpan(r3, PERMS_WIDTH) == |perms| by {
      TokenSpanCat(perms, rest, PERMS_WIDTH);
    }
    assert r3[..|perms|] == perms && r3[|perms|..] == rest;
  }


  /**
   * Parsing a line in the kernel's layout gives back its start, end and
   * perms, and its path cut to 255 characters; a line without a path gives
   * no path.
   */
  lemma ParseFormatted(e: MapsEntry, offset: string, dev: string, inode: string, pad: nat)
    requires Formattable(e)
    requires IsToken(offset) && IsToken(dev) && IsToken(inode)
    ensures ParseMapsLine(FormatMapsLine(e, offset, dev, inode, pad))
            == Some(MapsEntry(e.start, e.end, e.perms, Clip(e.path)))
  {
    var rest := " " + (offset + (" " + (dev + (" " + (inode + (Spaces(pad + 1) + PathText(e.path) + "\n"))))));
    ParseHeadCat(ToHex(e.start), ToHex(e.end), e.perms, rest);
    PathColumnCat(offset, dev, inode, pad, e.path);
    HexRoundTrip(e.start);
    HexRoundTrip(e.end);
  }
}
