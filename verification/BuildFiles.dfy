/**
 * The region rewriter of script/update-makefiles.py: a line scanner that replaces the lines
 * between two markers of a build file and keeps every other line.
 */
module BuildFiles {
  import opened Base
  import opened TextFiles

  /** The arguments of one `update_build_file` call, apart from the file. */
  datatype Update = Update(start: Line, end: Line, items: Lines, search: Option<Line>) {
    /** An empty search string is falsy in Python, so it means the same as no search string. */
    predicate HasSearch() {
      search.Some? && search.value != ""
    }
  }

  /** Python's `line.startswith(prefix)`. */
  predicate StartsWith(line: Line, prefix: Line) {
    prefix <= line
  }

  lemma Differs(line: Line, prefix: Line, k: nat)
    requires k < |line| && k < |prefix| && line[k] != prefix[k]
    ensures !StartsWith(line, prefix)
  {
  }

  /** No line of `lines[lo..hi]` starts with `prefix`. */
  predicate Absent(lines: Lines, lo: nat, hi: nat, prefix: Line)
    requires hi <= |lines|
  {
    forall k :: lo <= k < hi ==> !StartsWith(lines[k], prefix)
  }

  // ---------- Declarative meaning of an update ----------

  /**
   * Where an update acts: the search for the start marker begins at `from`, the start marker is
   * line `open` and the end marker is line `close`.
   */
  datatype Region = Region(from: nat, open: nat, close: nat)

  ghost predicate SearchEndsAt(u: Update, lines: Lines, from: nat) {
    if u.HasSearch() then
      && 0 < from <= |lines|
      && StartsWith(lines[from - 1], u.search.value)
      && Absent(lines, 0, from - 1, u.search.value)
    else
      from == 0
  }

  ghost predicate IsRegion(u: Update, lines: Lines, r: Region) {
    && SearchEndsAt(u, lines, r.from)
    && r.from <= r.open < r.close < |lines|
    && StartsWith(lines[r.open], u.start)
    && Absent(lines, r.from, r.open, u.start)
    && StartsWith(lines[r.close], u.end)
    && Absent(lines, r.open + 1, r.close, u.end)
  }

  ghost predicate HasRegion(u: Update, lines: Lines) {
    exists r :: IsRegion(u, lines, r)
  }

  /** Keeps the lines through the start marker and from the end marker on. */
  function Replaced(lines: Lines, r: Region, items: Lines): (new_: Lines)
    requires r.open < r.close <= |lines|
  {
    lines[..r.open + 1] + items + lines[r.close..]
  }

  lemma RegionUnique(u: Update, lines: Lines, r: Region, s: Region)
    requires IsRegion(u, lines, r) && IsRegion(u, lines, s)
    ensures r == s
  {
    assert r.from == s.from;
    assert r.open == s.open;
  }

  ghost function RegionOf(u: Update, lines: Lines): (r: Region)
    requires HasRegion(u, lines)
    ensures IsRegion(u, lines, r)
  {
    var r :| IsRegion(u, lines, r);
    r
  }

  /** The file after the update, or None when the update raises. */
  ghost function Updated(u: Update, lines: Lines): Option<Lines> {
    if HasRegion(u, lines) then Some(Replaced(lines, RegionOf(u, lines), u.items)) else None
  }

  lemma UpdatedAt(u: Update, lines: Lines, r: Region)
    requires IsRegion(u, lines, r)
    ensures HasRegion(u, lines) && RegionOf(u, lines) == r
    ensures Updated(u, lines) == Some(Replaced(lines, r, u.items))
  {
    RegionUnique(u, lines, r, RegionOf(u, lines));
  }

  // ---------- The scanner ----------

  datatype Phase = Search | MatchStart | MatchEnd | Done

  /** What the scanner knows after `n` lines: `out` is its output and `r` the part of the region seen so far. */
  ghost predicate Scanned(u: Update, lines: Lines, n: nat, phase: Phase, r: Region, out: Lines)
    requires n <= |lines|
  {
    match phase
    case Search =>
      u.HasSearch() && Absent(lines, 0, n, u.search.value) && out == lines[..n]
    case MatchStart =>
      SearchEndsAt(u, lines, r.from) && r.from <= n && Absent(lines, r.from, n, u.start) && out == lines[..n]
    case MatchEnd =>
      && SearchEndsAt(u, lines, r.from) && r.from <= r.open < n
      && StartsWith(lines[r.open], u.start) && Absent(lines, r.from, r.open, u.start)
      && Absent(lines, r.open + 1, n, u.end)
      && out == lines[..r.open + 1] + u.items
    case Done =>
      IsRegion(u, lines, r) && r.close < n && out == lines[..r.open + 1] + u.items + lines[r.close..n]
  }

  /** One iteration of the scanner: the next phase and the output so far. */
  function ScanLine(u: Update, phase: Phase, out: Lines, line: Line): (Phase, Lines)
    requires phase.Search? ==> u.HasSearch()
  {
    match phase
    case Search =>
      (if StartsWith(line, u.search.value) then MatchStart else Search, out + [line])
    case MatchStart =>
      if StartsWith(line, u.start) then (MatchEnd, out + [line] + u.items) else (MatchStart, out + [line])
    case MatchEnd =>
      if StartsWith(line, u.end) then (Done, out + [line]) else (MatchEnd, out)
    case Done =>
      (Done, out + [line])
  }

  /** The scanner's phase and output after the first `n` lines. */
  function Scan(u: Update, lines: Lines, n: nat): (s: (Phase, Lines))
    requires n <= |lines|
    ensures s.0.Search? ==> u.HasSearch()
  {
    if n == 0 then
      (if u.HasSearch() then Search else MatchStart, [])
    else
      var (phase, out) := Scan(u, lines, n - 1);
      ScanLine(u, phase, out, lines[n - 1])
  }

  /** The text of a file after the update, which is written only if its lines change; None when the update raises. */
  ghost function UpdatedText(u: Update, text: string): Option<string> {
    match Updated(u, ReadLines(text))
    case None => None
    case Some(new_) => Some(if new_ == ReadLines(text) then text else WriteLines(new_))
  }

  /** The update writes the file. */
  ghost predicate Rewrites(u: Update, text: string) {
    Updated(u, ReadLines(text)).Some? && Updated(u, ReadLines(text)).value != ReadLines(text)
  }

  /** A build file on disk. `writes` counts the calls that wrote it. */
  class BuildFile {
    var text: string
    var writes: nat

    constructor (content: string)
      ensures text == content && writes == 0
    {
      text, writes := content, 0;
    }

    /** Returns false where the script raises `RuntimeError`. */
    method Update(u: Update) returns (ok: bool)
      modifies this
      ensures ok <==> HasRegion(u, ReadLines(old(text)))
      ensures ok ==> UpdatedText(u, old(text)) == Some(text)
      ensures !ok ==> text == old(text)
      ensures writes == old(writes) + if Rewrites(u, old(text)) then 1 else 0
    {
      hide ReadLines, WriteLines;
      var content := ReadLines(text);
      var newLines: Lines := [];
      var phase := if u.HasSearch() then Search else MatchStart;
      for n := 0 to |content|
        invariant Scan(u, content, n) == (phase, newLines)
      {
        var line := content[n];
        match phase {
          case Search =>
            newLines := newLines + [line];
            if StartsWith(line, u.search.value) {
              phase := MatchStart;
            }
          case MatchStart =>
            newLines := newLines + [line];
            if StartsWith(line, u.start) {
              newLines := newLines + u.items;
              phase := MatchEnd;
            }
          case MatchEnd =>
            if StartsWith(line, u.end) {
              newLines := newLines + [line];
              phase := Done;
            }
          case Done =>
            newLines := newLines + [line];
        }
      }
      ScanDecides(u, content);
      ok := phase.Done?;
      if ok && newLines != content {
        text := WriteLines(newLines);
        writes := writes + 1;
      }
    }
  }

  lemma ScanSearch(u: Update, lines: Lines, n: nat, r: Region, out: Lines)
    requires n < |lines| && Scanned(u, lines, n, Search, r, out)
    ensures StartsWith(lines[n], u.search.value) ==>
        Scanned(u, lines, n + 1, MatchStart, r.(from := n + 1), out + [lines[n]])
    ensures !StartsWith(lines[n], u.search.value) ==> Scanned(u, lines, n + 1, Search, r, out + [lines[n]])
  {
    assert lines[..n + 1] == lines[..n] + [lines[n]];
  }

  lemma ScanMatchStart(u: Update, lines: Lines, n: nat, r: Region, out: Lines)
    requires n < |lines| && Scanned(u, lines, n, MatchStart, r, out)
    ensures StartsWith(lines[n], u.start) ==>
        Scanned(u, lines, n + 1, MatchEnd, r.(open := n), out + [lines[n]] + u.items)
    ensures !StartsWith(lines[n], u.start) ==> Scanned(u, lines, n + 1, MatchStart, r, out + [lines[n]])
  {
    assert lines[..n + 1] == lines[..n] + [lines[n]];
  }

  lemma ScanMatchEnd(u: Update, lines: Lines, n: nat, r: Region, out: Lines)
    requires n < |lines| && Scanned(u, lines, n, MatchEnd, r, out)
    ensures StartsWith(lines[n], u.end) ==> Scanned(u, lines, n + 1, Done, r.(close := n), out + [lines[n]])
    ensures !StartsWith(lines[n], u.end) ==> Scanned(u, lines, n + 1, MatchEnd, r, out)
  {
    assert lines[n..n + 1] == [lines[n]];
  }

  lemma ScanDone(u: Update, lines: Lines, n: nat, r: Region, out: Lines)
    requires n < |lines| && Scanned(u, lines, n, Done, r, out)
    ensures Scanned(u, lines, n + 1, Done, r, out + [lines[n]])
  {
    assert lines[r.close..n + 1] == lines[r.close..n] + [lines[n]];
  }

  lemma ScanStep(u: Update, lines: Lines, n: nat, phase: Phase, r: Region, out: Lines) returns (r': Region)
    requires n < |lines| && Scanned(u, lines, n, phase, r, out)
    ensures var (phase', out') := ScanLine(u, phase, out, lines[n]);
            Scanned(u, lines, n + 1, phase', r', out')
  {
    match phase
    case Search =>
      ScanSearch(u, lines, n, r, out);
      r' := if StartsWith(lines[n], u.search.value) then r.(from := n + 1) else r;
    case MatchStart =>
      ScanMatchStart(u, lines, n, r, out);
      r' := if StartsWith(lines[n], u.start) then r.(open := n) else r;
    case MatchEnd =>
      ScanMatchEnd(u, lines, n, r, out);
      r' := if StartsWith(lines[n], u.end) then r.(close := n) else r;
    case Done =>
      ScanDone(u, lines, n, r, out);
      r' := r;
  }

  lemma {:induction false} ScanInvariant(u: Update, lines: Lines, n: nat) returns (r: Region)
    requires n <= |lines|
    ensures Scanned(u, lines, n, Scan(u, lines, n).0, r, Scan(u, lines, n).1)
  {
    if n == 0 {
      r := Region(0, 0, 0);
    } else {
      r := ScanInvariant(u, lines, n - 1);
      r := ScanStep(u, lines, n - 1, Scan(u, lines, n - 1).0, r, Scan(u, lines, n - 1).1);
    }
  }

  /** A complete scan ends in `Done` exactly when the file has a region, and then holds the updated file. */
  lemma ScanDecides(u: Update, lines: Lines)
    ensures Scan(u, lines, |lines|).0.Done? <==> HasRegion(u, lines)
    ensures HasRegion(u, lines) ==> Updated(u, lines) == Some(Scan(u, lines, |lines|).1)
  {
    var r := ScanInvariant(u, lines, |lines|);
    if Scan(u, lines, |lines|).0.Done? {
      UpdatedAt(u, lines, r);
      assert lines[r.close..|lines|] == lines[r.close..];
    } else {
      forall s ensures !IsRegion(u, lines, s) {
      }
    }
  }
}
