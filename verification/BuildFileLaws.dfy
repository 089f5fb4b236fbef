/** What two updates do to the lines of one file: to one region after the other, and to two separate regions. */
module BuildFileLaws {
  import opened Base
  import opened TextFiles
  import opened BuildFiles

  ghost predicate Clean(items: Lines, prefix: Line) {
    Absent(items, 0, |items|, prefix)
  }

  // ---------- One region written twice ----------

  /** The index of the first line that starts with `prefix`, or the length of `items`. */
  function FirstEnd(items: Lines, prefix: Line): (k: nat)
    ensures k <= |items| && Absent(items, 0, k, prefix)
    ensures k < |items| ==> StartsWith(items[k], prefix)
    ensures k == |items| <==> Clean(items, prefix)
  {
    if items == [] then 0
    else if StartsWith(items[0], prefix) then 0
    else
      var k := FirstEnd(items[1..], prefix);
      assert forall j :: 0 < j < |items| ==> items[j] == items[1..][j - 1];
      k + 1
  }

  /** `again` agrees with `lines` up to line `open`, and `after` follows. */
  ghost predicate Continues(again: Lines, lines: Lines, open: nat, after: Lines) {
    && open < |lines| && |again| == open + 1 + |after|
    && (forall k :: 0 <= k <= open ==> again[k] == lines[k])
    && (forall k :: open < k < |again| ==> again[k] == after[k - open - 1])
  }

  lemma ContinuesIff(again: Lines, lines: Lines, open: nat, after: Lines)
    requires open < |lines|
    ensures Continues(again, lines, open, after) <==> again == lines[..open + 1] + after
  {
  }

  lemma ContinuesLength(again: Lines, lines: Lines, open: nat, after: Lines)
    requires Continues(again, lines, open, after)
    ensures |again| == open + 1 + |after|
  {
  }

  /** The region that the same markers find when other lines follow the start marker. */
  lemma RegionAgain(u: Update, lines: Lines, r: Region, after: Lines, again: Lines)
    requires IsRegion(u, lines, r) && Continues(again, lines, r.open, after)
    ensures var k := FirstEnd(after, u.end);
            if k < |after| then IsRegion(u, again, r.(close := r.open + 1 + k)) else !HasRegion(u, again)
  {
    hide FirstEnd, StartsWith;
    if FirstEnd(after, u.end) == |after| {
      forall s ensures !IsRegion(u, again, s) {
        SameStart(u, lines, r, again, s);
      }
    }
  }

  lemma SameStart(u: Update, lines: Lines, r: Region, again: Lines, s: Region)
    requires IsRegion(u, lines, r) && r.open < |again|
    requires forall k :: 0 <= k <= r.open ==> again[k] == lines[k]
    ensures IsRegion(u, again, s) ==> s.from == r.from && s.open == r.open
  {
  }

  /** An update with the same markers reaches from the start line to the first line that begins with the end marker. */
  lemma UpdatedAgain(u: Update, second: Lines, lines: Lines, r: Region, after: Lines)
    requires IsRegion(u, lines, r)
    ensures var k := FirstEnd(after, u.end);
            Updated(u.(items := second), lines[..r.open + 1] + after) ==
            if k < |after| then Some(lines[..r.open + 1] + second + after[k..]) else None
  {
    hide IsRegion, HasRegion, FirstEnd, Continues, Replaced, Updated, StartsWith, Absent, Clean;
    RegionParts(u, lines, r);
    var again := lines[..r.open + 1] + after;
    SameMarkers(u, second, lines, r);
    ContinuesIff(again, lines, r.open, after);
    UpdatedContinued(u.(items := second), lines, r, after, again);
    if FirstEnd(after, u.end) < |after| {
      ReplacedAgain(lines, r, second, after, FirstEnd(after, u.end));
    }
  }

  lemma UpdatedContinued(w: Update, lines: Lines, r: Region, after: Lines, again: Lines)
    requires IsRegion(w, lines, r) && Continues(again, lines, r.open, after)
    ensures |again| == r.open + 1 + |after|
    ensures var k := FirstEnd(after, w.end);
            Updated(w, again) ==
            if k < |after| then Some(Replaced(again, r.(close := r.open + 1 + k), w.items)) else None
  {
    hide IsRegion, HasRegion, FirstEnd, Continues, Replaced, Updated, StartsWith, Absent, Clean;
    ContinuesLength(again, lines, r.open, after);
    RegionAgain(w, lines, r, after, again);
    if FirstEnd(after, w.end) < |after| {
      UpdatedAt(w, again, r.(close := r.open + 1 + FirstEnd(after, w.end)));
    } else {
      NotUpdated(w, again);
    }
  }

  lemma NotUpdated(u: Update, lines: Lines)
    requires !HasRegion(u, lines)
    ensures Updated(u, lines) == None
  {
  }

  lemma ReplacedAgain(lines: Lines, r: Region, second: Lines, after: Lines, k: nat)
    requires r.open < |lines| && k < |after|
    ensures Replaced(lines[..r.open + 1] + after, r.(close := r.open + 1 + k), second) ==
            lines[..r.open + 1] + second + after[k..]
  {
    TwoParts(lines[..r.open + 1], after, k);
  }

  lemma SameMarkers(u: Update, second: Lines, lines: Lines, r: Region)
    requires IsRegion(u, lines, r)
    ensures IsRegion(u.(items := second), lines, r)
  {
  }

  lemma TwoParts(before: Lines, after: Lines, k: nat)
    requires k <= |after|
    ensures (before + after)[..|before|] == before && (before + after)[|before| + k..] == after[k..]
  {
  }

  /** Lines without an end marker among them are replaced as a whole. */
  lemma FirstEndAfter(items: Lines, after: Lines, prefix: Line)
    requires Clean(items, prefix) && after != [] && StartsWith(after[0], prefix)
    ensures FirstEnd(items + after, prefix) == |items|
  {
    var all := items + after;
    assert all[|items|] == after[0];
    assert forall k :: 0 <= k < |items| ==> all[k] == items[k];
  }

  /** On lines, an update whose items hide no end marker is idempotent. */
  lemma LinesIdempotent(u: Update, lines: Lines)
    requires HasRegion(u, lines) && Clean(u.items, u.end)
    ensures var new_ := Updated(u, lines).value; Updated(u, new_) == Some(new_)
  {
    hide IsRegion, HasRegion, FirstEnd, StartsWith, Clean, Updated;
    var r := RegionOf(u, lines);
    RegionParts(u, lines, r);
    UpdatedAt(u, lines, r);
    var before, rest := lines[..r.open + 1], lines[r.close..];
    FirstEndAfter(u.items, rest, u.end);
    assert u.(items := u.items) == u;
    UpdatedAgain(u, u.items, lines, r, u.items + rest);
    ThreeParts(before, u.items, rest);
  }

  lemma RegionParts(u: Update, lines: Lines, r: Region)
    requires IsRegion(u, lines, r)
    ensures r.open < r.close < |lines| && StartsWith(lines[r.close], u.end)
  {
  }

  lemma ThreeParts(a: Lines, b: Lines, c: Lines)
    ensures a + (b + c) == a + b + c && (b + c)[|b|..] == c
  {
  }

  // ---------- Two regions of one file ----------

  /**
   * Writing `w` does not disturb `u`: either u's region ends before w's starts, or it comes after
   * it and neither u's search line nor a premature match for u can come from w's region.
   */
  ghost predicate Unaffected(u: Update, ru: Region, w: Update, rw: Region) {
    || ru.close <= rw.open
    || (&& rw.close <= ru.open
        && (|| (ru.from <= rw.open + 1 && Clean(w.items, u.start))
            || (u.HasSearch() && rw.close < ru.from && Clean(w.items, u.search.value))))
  }

  ghost predicate Separate(u: Update, w: Update, lines: Lines) {
    && HasRegion(u, lines) && HasRegion(w, lines)
    && Unaffected(u, RegionOf(u, lines), w, RegionOf(w, lines))
    && Unaffected(w, RegionOf(w, lines), u, RegionOf(u, lines))
  }

  /** Where line `k` ends up when the inside of region `rw` is replaced by `n` lines. */
  function Moved(k: int, rw: Region, n: nat): int {
    if k <= rw.open then k else k - (rw.close - rw.open - 1) + n
  }

  function MovedRegion(r: Region, rw: Region, n: nat): Region
    requires rw.open < rw.close
    requires r.open <= rw.open || rw.close <= r.open
    requires r.close <= rw.open || rw.close <= r.close
    requires r.from <= rw.open + 1 || rw.close < r.from
  {
    Region(if r.from == 0 then 0 else Moved(r.from - 1, rw, n) + 1, Moved(r.open, rw, n), Moved(r.close, rw, n))
  }

  /** Every line outside the replaced region moves to the place `Moved` says. */
  lemma LinesMove(lines: Lines, rw: Region, items: Lines, new_: Lines)
    requires rw.open < rw.close < |lines|
    requires new_ == Replaced(lines, rw, items)
    ensures forall k :: 0 <= k <= rw.open ==> new_[k] == lines[k]
    ensures forall k :: 0 <= k < |items| ==> new_[rw.open + 1 + k] == items[k]
    ensures forall k :: rw.close <= k < |lines| ==>
        0 <= Moved(k, rw, |items|) < |new_| && new_[Moved(k, rw, |items|)] == lines[k]
  {
  }

  lemma ReplacedLength(lines: Lines, rw: Region, items: Lines)
    requires rw.open < rw.close < |lines|
    ensures |Replaced(lines, rw, items)| == Moved(|lines|, rw, |items|)
  {
  }

  /** A prefix absent from the lines kept around a region and from the inserted items is absent afterwards. */
  lemma AbsentMoves(lines: Lines, rw: Region, items: Lines, lo: nat, hi: nat, prefix: Line)
    requires rw.open < rw.close < |lines| && lo <= hi <= |lines|
    requires Absent(lines, lo, hi, prefix)
    requires rw.close <= hi
    requires (lo <= rw.open + 1 && Clean(items, prefix)) || rw.close < lo
    ensures var new_ := Replaced(lines, rw, items);
            var hi' := Moved(hi, rw, |items|);
            var lo' := if lo <= rw.open + 1 then lo else Moved(lo, rw, |items|);
            0 <= lo' && 0 <= hi' <= |new_| && Absent(new_, lo', hi', prefix)
  {
    var new_ := Replaced(lines, rw, items);
    var n := |items|;
    LinesMove(lines, rw, items, new_);
    var hi' := Moved(hi, rw, n);
    var lo' := if lo <= rw.open + 1 then lo else Moved(lo, rw, n);
    forall k | lo' <= k < hi' ensures !StartsWith(new_[k], prefix) {
      if k <= rw.open {
      } else if k < rw.open + 1 + n {
        assert new_[rw.open + 1 + (k - rw.open - 1)] == items[k - rw.open - 1];
      } else {
        var j := k - n + (rw.close - rw.open - 1);
        assert Moved(j, rw, n) == k;
      }
    }
  }

  lemma RegionBeforeStays(u: Update, ru: Region, w: Update, rw: Region, lines: Lines)
    requires IsRegion(u, lines, ru) && IsRegion(w, lines, rw)
    requires ru.close <= rw.open
    ensures IsRegion(u, Replaced(lines, rw, w.items), ru)
  {
    LinesMove(lines, rw, w.items, Replaced(lines, rw, w.items));
  }

  lemma SearchMoves(u: Update, ru: Region, w: Update, rw: Region, lines: Lines)
    requires IsRegion(u, lines, ru) && IsRegion(w, lines, rw)
    requires Unaffected(u, ru, w, rw) && rw.close <= ru.open
    ensures SearchEndsAt(u, Replaced(lines, rw, w.items), MovedRegion(ru, rw, |w.items|).from)
  {
    hide StartsWith, Absent, Clean, Replaced;
    var new_ := Replaced(lines, rw, w.items);
    LinesMove(lines, rw, w.items, new_);
    ReplacedLength(lines, rw, w.items);
    if rw.close < ru.from {
      AbsentMoves(lines, rw, w.items, 0, ru.from - 1, u.search.value);
      assert new_[Moved(ru.from - 1, rw, |w.items|)] == lines[ru.from - 1];
    } else if u.HasSearch() {
      assert new_[ru.from - 1] == lines[ru.from - 1];
      SameAbsence(lines, new_, ru.from - 1, u.search.value);
    }
  }

  lemma SameAbsence(lines: Lines, new_: Lines, hi: nat, prefix: Line)
    requires hi <= |lines| && hi <= |new_| && Absent(lines, 0, hi, prefix)
    requires forall k :: 0 <= k < hi ==> new_[k] == lines[k]
    ensures Absent(new_, 0, hi, prefix)
  {
  }

  /** Replacing one region moves every region it leaves unaffected, and changes nothing else about it. */
  lemma RegionMoves(u: Update, ru: Region, w: Update, rw: Region, lines: Lines)
    requires IsRegion(u, lines, ru) && IsRegion(w, lines, rw)
    requires Unaffected(u, ru, w, rw)
    ensures IsRegion(u, Replaced(lines, rw, w.items), MovedRegion(ru, rw, |w.items|))
  {
    if ru.close <= rw.open {
      RegionBeforeStays(u, ru, w, rw, lines);
    } else {
      hide StartsWith, Absent, Clean, Replaced, SearchEndsAt;
      SearchMoves(u, ru, w, rw, lines);
      AbsentMoves(lines, rw, w.items, ru.open + 1, ru.close, u.end);
      AbsentMoves(lines, rw, w.items, ru.from, ru.open, u.start);
      LineMoves(lines, rw, w.items, ru.open);
      LineMoves(lines, rw, w.items, ru.close);
    }
  }

  lemma LineMoves(lines: Lines, rw: Region, items: Lines, k: nat)
    requires rw.open < rw.close <= k < |lines|
    ensures var new_, j := Replaced(lines, rw, items), Moved(k, rw, |items|);
            0 <= j < |new_| && new_[j] == lines[k]
  {
  }

  /** Two separate updates commute, and each region of the result holds its own items. */
  lemma SeparateLinesCommute(u: Update, w: Update, lines: Lines)
    requires Separate(u, w, lines)
    ensures Updated(u, lines).Some? && Updated(w, lines).Some?
    ensures Updated(w, Updated(u, lines).value).Some?
    ensures Updated(u, Updated(w, lines).value) == Updated(w, Updated(u, lines).value)
    ensures var ru, rw := RegionOf(u, lines), RegionOf(w, lines);
            ru.close <= rw.open ==>
              Updated(w, Updated(u, lines).value) ==
              Some(BothReplaced(lines, ru, u.items, rw, w.items))
  {
    var ru, rw := RegionOf(u, lines), RegionOf(w, lines);
    if ru.close <= rw.open {
      BothUpdated(u, w, lines);
    } else {
      BothUpdated(w, u, lines);
    }
  }

  lemma ReplacedTwice(lines: Lines, ru: Region, u: Lines, rw: Region, w: Lines)
    requires ru.open < ru.close <= rw.open < rw.close <= |lines|
    requires ru.from <= rw.open + 1 && (rw.from <= ru.open + 1 || ru.close < rw.from)
    ensures Replaced(Replaced(lines, rw, w), MovedRegion(ru, rw, |w|), u) == BothReplaced(lines, ru, u, rw, w)
    ensures Replaced(Replaced(lines, ru, u), MovedRegion(rw, ru, |u|), w) == BothReplaced(lines, ru, u, rw, w)
  {
    LaterFirst(lines, ru, u, rw, w);
    EarlierFirst(lines, ru, u, rw, w);
  }

  lemma LaterFirst(lines: Lines, ru: Region, u: Lines, rw: Region, w: Lines)
    requires ru.open < ru.close <= rw.open < rw.close <= |lines|
    ensures Replaced(Replaced(lines, rw, w), Region(0, ru.open, ru.close), u) == BothReplaced(lines, ru, u, rw, w)
  {
    var first := Replaced(lines, rw, w);
    assert first[..ru.open + 1] == lines[..ru.open + 1];
    assert first[ru.close..] == lines[ru.close..rw.open + 1] + w + lines[rw.close..];
    FiveParts(lines[..ru.open + 1], u, lines[ru.close..rw.open + 1], w, lines[rw.close..]);
  }

  lemma EarlierFirst(lines: Lines, ru: Region, u: Lines, rw: Region, w: Lines)
    requires ru.open < ru.close <= rw.open < rw.close <= |lines|
    ensures var open, close := Moved(rw.open, ru, |u|), Moved(rw.close, ru, |u|);
            && 0 <= open < close <= |Replaced(lines, ru, u)|
            && Replaced(Replaced(lines, ru, u), Region(0, open, close), w) == BothReplaced(lines, ru, u, rw, w)
  {
    var second := Replaced(lines, ru, u);
    var open, close := Moved(rw.open, ru, |u|), Moved(rw.close, ru, |u|);
    assert second[..open + 1] == lines[..ru.open + 1] + u + lines[ru.close..rw.open + 1];
    assert second[close..] == lines[rw.close..];
  }

  lemma FiveParts(a: Lines, b: Lines, c: Lines, d: Lines, e: Lines)
    ensures a + b + (c + d + e) == a + b + c + d + e
  {
  }

  /** The effect of `u` on a file in which the separate region of `w` has been replaced first. */
  lemma UpdatedAfter(u: Update, w: Update, lines: Lines)
    requires Separate(u, w, lines)
    ensures var ru, rw := RegionOf(u, lines), RegionOf(w, lines);
            var new_ := Replaced(lines, rw, w.items);
            && Updated(w, lines) == Some(new_)
            && HasRegion(u, new_)
            && RegionOf(u, new_) == MovedRegion(ru, rw, |w.items|)
            && Updated(u, new_) == Some(Replaced(new_, MovedRegion(ru, rw, |w.items|), u.items))
  {
    var ru, rw := RegionOf(u, lines), RegionOf(w, lines);
    RegionMoves(u, ru, w, rw, lines);
    UpdatedAt(u, Replaced(lines, rw, w.items), MovedRegion(ru, rw, |w.items|));
  }

  /** The file with both regions replaced, that of `ru` being the earlier one. */
  function BothReplaced(lines: Lines, ru: Region, u: Lines, rw: Region, w: Lines): Lines
    requires ru.open < ru.close <= rw.open < rw.close <= |lines|
  {
    lines[..ru.open + 1] + u + lines[ru.close..rw.open + 1] + w + lines[rw.close..]
  }

  lemma BothUpdated(u: Update, w: Update, lines: Lines)
    requires Separate(u, w, lines)
    requires RegionOf(u, lines).close <= RegionOf(w, lines).open
    ensures var both := BothReplaced(lines, RegionOf(u, lines), u.items, RegionOf(w, lines), w.items);
            && Updated(w, lines).Some? && Updated(u, Updated(w, lines).value) == Some(both)
            && Updated(u, lines).Some? && Updated(w, Updated(u, lines).value) == Some(both)
  {
    UpdatedAfter(u, w, lines);
    UpdatedAfter(w, u, lines);
    hide Updated, IsRegion, Unaffected, Replaced, BothReplaced;
    ReplacedTwice(lines, RegionOf(u, lines), u.items, RegionOf(w, lines), w.items);
  }
}
