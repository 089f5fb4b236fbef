/** A whole run of the script on one file: any number of updates whose regions are separate. */
module BuildScript {
  import opened Base
  import opened TextFiles
  import opened BuildFiles
  import opened BuildFileLaws

  /** The file after a list of updates, or None when one of them raises. */
  ghost function RunLines(us: seq<Update>, lines: Lines): Option<Lines> {
    if us == [] then Some(lines)
    else
      match Updated(us[0], lines)
      case None => None
      case Some(new_) => RunLines(us[1..], new_)
  }

  /** The updates are different, all apply, and no two of them disturb each other. */
  ghost predicate AllSeparate(us: multiset<Update>, lines: Lines) {
    && (forall u :: u in us ==> us[u] == 1 && HasRegion(u, lines))
    && (forall u, w :: u in us && w in us && u != w ==> Separate(u, w, lines))
  }

  /** Replacing a third region keeps two others in order and as far apart as their separation needs. */
  lemma UnaffectedKept(u: Update, ru: Region, v: Update, rv: Region, w: Update, rw: Region)
    requires ru.from <= ru.open < ru.close && rv.from <= rv.open < rv.close && rw.open < rw.close
    requires Unaffected(u, ru, v, rv) && Unaffected(u, ru, w, rw) && Unaffected(v, rv, w, rw)
    ensures Unaffected(u, MovedRegion(ru, rw, |w.items|), v, MovedRegion(rv, rw, |w.items|))
  {
  }

  /** Separation of two updates survives a third that is separate from both. */
  lemma SeparateKept(u: Update, v: Update, w: Update, lines: Lines)
    requires Separate(u, v, lines) && Separate(u, w, lines) && Separate(v, w, lines)
    ensures Updated(w, lines).Some? && Separate(u, v, Updated(w, lines).value)
  {
    UpdatedAfter(u, w, lines);
    UpdatedAfter(v, w, lines);
    var ru, rv, rw := RegionOf(u, lines), RegionOf(v, lines), RegionOf(w, lines);
    UnaffectedKept(u, ru, v, rv, w, rw);
    UnaffectedKept(v, rv, u, ru, w, rw);
  }

  /** Making one update of a separate collection leaves the others separate. */
  lemma AllSeparateKept(w: Update, others: multiset<Update>, lines: Lines)
    requires AllSeparate(multiset{w} + others, lines)
    ensures Updated(w, lines).Some? && AllSeparate(others, Updated(w, lines).value)
    ensures forall u :: u in others ==> Separate(w, u, lines)
  {
    var all := multiset{w} + others;
    assert all[w] == 1 + others[w];
    forall u | u in others ensures others[u] == 1 && u != w && Separate(u, w, lines) && Separate(w, u, lines) {
      assert all[u] == 1;
    }
    var new_ := Updated(w, lines).value;
    forall u | u in others ensures HasRegion(u, new_) {
      UpdatedAfter(u, w, lines);
    }
    forall u, v | u in others && v in others && u != v ensures Separate(u, v, new_) {
      assert u in all && v in all;
      SeparateKept(u, v, w, lines);
    }
  }

  lemma RunCons(u: Update, us: seq<Update>, lines: Lines)
    ensures RunLines([u] + us, lines) ==
            if Updated(u, lines).None? then None else RunLines(us, Updated(u, lines).value)
  {
    assert ([u] + us)[1..] == us;
  }

  lemma SwapFirstTwo(u: Update, w: Update, rest: seq<Update>, lines: Lines)
    requires Separate(u, w, lines)
    ensures RunLines([u] + ([w] + rest), lines) == RunLines([w] + ([u] + rest), lines)
  {
    SeparateLinesCommute(u, w, lines);
    RunCons(u, [w] + rest, lines);
    RunCons(w, rest, Updated(u, lines).value);
    RunCons(w, [u] + rest, lines);
    RunCons(u, rest, Updated(w, lines).value);
  }

  /** `w` is separate from each of `us` at the moment that one is made. */
  ghost predicate Passes(w: Update, us: seq<Update>, lines: Lines) {
    us == [] ||
    (Separate(us[0], w, lines) && Updated(us[0], lines).Some? && Passes(w, us[1..], Updated(us[0], lines).value))
  }

  lemma {:induction false} SeparatePasses(w: Update, us: seq<Update>, others: multiset<Update>, lines: Lines)
    requires AllSeparate(multiset(us) + others, lines) && w in others
    ensures Passes(w, us, lines)
  {
    if us != [] {
      Uncons(us);
      assert multiset(us) + others == multiset{us[0]} + (multiset(us[1..]) + others);
      AllSeparateKept(us[0], multiset(us[1..]) + others, lines);
      SeparatePasses(w, us[1..], others, Updated(us[0], lines).value);
    }
  }

  lemma Regroup(before: seq<Update>, w: Update, after: seq<Update>)
    requires before != []
    ensures before + [w] + after == [before[0]] + (before[1..] + [w] + after)
    ensures before + after == [before[0]] + (before[1..] + after)
  {
  }

  /** An update that passes all those before it may as well be made first. */
  lemma {:induction false} MakeFirst(before: seq<Update>, w: Update, after: seq<Update>, lines: Lines)
    requires Passes(w, before, lines)
    ensures RunLines(before + [w] + after, lines) == RunLines([w] + (before + after), lines)
  {
    if before == [] {
      assert before + [w] + after == [w] + (before + after);
    } else {
      var u, tail := before[0], before[1..];
      MakeFirst(tail, w, after, Updated(u, lines).value);
      Regroup(before, w, after);
      RunCons(u, tail + [w] + after, lines);
      RunCons(u, [w] + (tail + after), lines);
      SwapFirstTwo(u, w, tail + after, lines);
    }
  }

  /** Any update of a separate run can be pulled to its front. */
  lemma PullFirst(us: seq<Update>, u: Update, lines: Lines) returns (rest: seq<Update>)
    requires u in us && AllSeparate(multiset(us), lines)
    ensures |rest| + 1 == |us| && multiset(us) == multiset{u} + multiset(rest)
    ensures Updated(u, lines).Some? && AllSeparate(multiset(rest), Updated(u, lines).value)
    ensures RunLines(us, lines) == RunLines(rest, Updated(u, lines).value)
  {
    var before, after := SplitAt(us, u);
    rest := before + after;
    SeparatePasses(u, before, multiset{u} + multiset(after), lines);
    MakeFirst(before, u, after, lines);
    AllSeparateKept(u, multiset(rest), lines);
    RunCons(u, rest, lines);
  }

  /** A run over separate regions gives the same file in whatever order its updates are made. */
  lemma {:induction false} LineOrderIrrelevant(us: seq<Update>, vs: seq<Update>, lines: Lines)
    requires multiset(us) == multiset(vs) && AllSeparate(multiset(us), lines)
    ensures RunLines(us, lines).Some? && RunLines(us, lines) == RunLines(vs, lines)
    decreases |us|
  {
    SameLength(us, vs);
    if us != [] {
      var u := us[0];
      assert u in vs by {
        assert u in multiset(vs);
      }
      var us' := PullFirst(us, u, lines);
      var vs' := PullFirst(vs, u, lines);
      Cancel(u, multiset(us'), multiset(vs'));
      LineOrderIrrelevant(us', vs', Updated(u, lines).value);
    }
  }

  lemma Cancel(u: Update, a: multiset<Update>, b: multiset<Update>)
    requires multiset{u} + a == multiset{u} + b
    ensures a == b
  {
    forall w ensures a[w] == b[w] {
      assert (multiset{u} + a)[w] == (multiset{u} + b)[w];
    }
  }

  lemma SameLength(us: seq<Update>, vs: seq<Update>)
    requires multiset(us) == multiset(vs)
    ensures |us| == |vs|
  {
    assert |us| == |multiset(us)| && |vs| == |multiset(vs)|;
  }

  lemma Uncons(us: seq<Update>)
    requires us != []
    ensures us == [us[0]] + us[1..] && multiset(us) == multiset{us[0]} + multiset(us[1..])
  {
    assert us == [us[0]] + us[1..];
  }

  lemma SplitAt(us: seq<Update>, u: Update) returns (before: seq<Update>, after: seq<Update>)
    requires u in us
    ensures us == before + [u] + after
    ensures |before + after| + 1 == |us|
    ensures multiset(us) == multiset(before) + (multiset{u} + multiset(after)) == multiset{u} + multiset(before + after)
  {
    var k :| 0 <= k < |us| && us[k] == u;
    before, after := us[..k], us[k + 1..];
    assert us == before + [u] + after;
  }

  lemma {:induction false} RunAppend(us: seq<Update>, u: Update, lines: Lines)
    requires RunLines(us, lines).Some?
    ensures RunLines(us + [u], lines) == Updated(u, RunLines(us, lines).value)
  {
    if us == [] {
      assert (us + [u])[1..] == [];
    } else {
      assert (us + [u])[1..] == us[1..] + [u];
      RunAppend(us[1..], u, Updated(us[0], lines).value);
    }
  }

  /** The result of a run is a fixed point of each of its updates. */
  lemma LinesFixed(us: seq<Update>, u: Update, lines: Lines)
    requires u in us && AllSeparate(multiset(us), lines)
    requires Clean(u.items, u.end)
    ensures RunLines(us, lines).Some? && Updated(u, RunLines(us, lines).value) == RunLines(us, lines)
  {
    hide Updated, AllSeparate;
    var rest := PullFirst(us, u, lines);
    FewerSeparate(u, multiset(rest), lines);
    LineOrderIrrelevant(rest, rest, lines);
    AppendMultiset(rest, u);
    LineOrderIrrelevant(us, rest + [u], lines);
    LastUpdateFixed(rest, u, lines);
  }

  lemma LastUpdateFixed(rest: seq<Update>, u: Update, lines: Lines)
    requires RunLines(rest, lines).Some? && RunLines(rest + [u], lines).Some? && Clean(u.items, u.end)
    ensures Updated(u, RunLines(rest + [u], lines).value) == RunLines(rest + [u], lines)
  {
    RunAppend(rest, u, lines);
    LinesIdempotent(u, RunLines(rest, lines).value);
  }

  lemma FewerSeparate(u: Update, others: multiset<Update>, lines: Lines)
    requires AllSeparate(multiset{u} + others, lines)
    ensures AllSeparate(others, lines)
  {
    hide Separate, HasRegion;
    var all := multiset{u} + others;
    forall w | w in others ensures others[w] == 1 && HasRegion(w, lines) {
      assert w in all && all[w] == 1;
    }
    forall v, w | v in others && w in others && v != w ensures Separate(v, w, lines) {
      assert v in all && w in all;
    }
  }

  lemma AppendMultiset(rest: seq<Update>, u: Update)
    ensures multiset(rest + [u]) == multiset{u} + multiset(rest)
  {
  }

  lemma {:induction false} FixedPoint(us: seq<Update>, lines: Lines)
    requires forall u :: u in us ==> Updated(u, lines) == Some(lines)
    ensures RunLines(us, lines) == Some(lines)
  {
    if us != [] {
      FixedPoint(us[1..], lines);
    }
  }

  // ---------- The file ----------

  /** The text of the file after a list of updates, or None when one of them raises. */
  ghost function Run(us: seq<Update>, text: string): Option<string> {
    if us == [] then Some(text)
    else
      match UpdatedText(us[0], text)
      case None => None
      case Some(new_) => Run(us[1..], new_)
  }

  ghost predicate InsertLines(us: seq<Update>) {
    forall u :: u in us ==> AreLines(u.items)
  }

  lemma UpdatedReadable(u: Update, lines: Lines)
    requires HasRegion(u, lines) && Readable(lines) && AreLines(u.items)
    ensures Readable(Updated(u, lines).value)
  {
    hide IsLine, NoBreak, StartsWith, Absent;
    var r := RegionOf(u, lines);
    assert lines[..r.open + 1] + u.items + lines[r.close..] == Updated(u, lines).value;
  }

  /** An update that inserts complete lines leaves a file that is read as the updated lines. */
  lemma ReadUpdated(u: Update, text: string)
    requires AreLines(u.items)
    ensures UpdatedText(u, text).Some? <==> Updated(u, ReadLines(text)).Some?
    ensures UpdatedText(u, text).Some? ==> ReadLines(UpdatedText(u, text).value) == Updated(u, ReadLines(text)).value
  {
    hide ReadLines, WriteLines, IsLine, NoBreak;
    if HasRegion(u, ReadLines(text)) {
      WriteRead(text);
      UpdatedReadable(u, ReadLines(text));
      ReadWriteIff(Updated(u, ReadLines(text)).value);
    }
  }

  /** The file is left alone if every update finds its own items in place, and holds the updated lines otherwise. */
  ghost function Outcome(us: seq<Update>, text: string): Option<string> {
    match RunLines(us, ReadLines(text))
    case None => None
    case Some(lines) =>
      var old_ := ReadLines(text);
      Some(if forall u :: u in us ==> Updated(u, old_) == Some(old_) then text else WriteLines(lines))
  }

  lemma {:induction false} RunIsOutcome(us: seq<Update>, text: string)
    requires InsertLines(us)
    ensures Run(us, text) == Outcome(us, text)
    ensures Run(us, text).Some? ==> ReadLines(Run(us, text).value) == RunLines(us, ReadLines(text)).value
  {
    hide ReadLines, WriteLines, Updated, AreLines;
    if us != [] {
      var u, rest := us[0], us[1..];
      assert us == [u] + rest;
      ReadUpdated(u, text);
      if UpdatedText(u, text).Some? {
        var new_ := UpdatedText(u, text).value;
        RunIsOutcome(rest, new_);
        if forall w :: w in rest ==> Updated(w, ReadLines(new_)) == Some(ReadLines(new_)) {
          FixedPoint(rest, ReadLines(new_));
        }
      }
    }
  }

  /** A run over separate regions leaves the same file in whatever order its updates are made. */
  lemma RunOrderIrrelevant(us: seq<Update>, vs: seq<Update>, text: string)
    requires multiset(us) == multiset(vs) && InsertLines(us) && AllSeparate(multiset(us), ReadLines(text))
    ensures Run(us, text).Some? && Run(us, text) == Run(vs, text)
  {
    hide ReadLines, WriteLines, Updated, AreLines, AllSeparate;
    SameMembers(us, vs);
    LineOrderIrrelevant(us, vs, ReadLines(text));
    RunIsOutcome(us, text);
    RunIsOutcome(vs, text);
  }

  lemma SameMembers(us: seq<Update>, vs: seq<Update>)
    requires multiset(us) == multiset(vs)
    ensures forall u :: u in us <==> u in vs
  {
    forall u ensures u in us <==> u in vs {
      assert u in us <==> u in multiset(us);
      assert u in vs <==> u in multiset(vs);
    }
  }

  /** Two separate updates commute; each region of the result holds its own items and all other lines are kept. */
  lemma SeparateUpdatesCommute(u: Update, w: Update, text: string)
    requires AreLines(u.items) && AreLines(w.items) && Separate(u, w, ReadLines(text))
    requires RegionOf(u, ReadLines(text)).close <= RegionOf(w, ReadLines(text)).open
    ensures Run([u, w], text).Some? && Run([w, u], text) == Run([u, w], text)
    ensures var lines := ReadLines(text);
            ReadLines(Run([u, w], text).value) ==
            BothReplaced(lines, RegionOf(u, lines), u.items, RegionOf(w, lines), w.items)
  {
    hide ReadLines, WriteLines, IsLine, NoBreak, HasRegion, BothReplaced;
    var lines := ReadLines(text);
    assert IsRegion(u, lines, RegionOf(u, lines)) && IsRegion(w, lines, RegionOf(w, lines));
    SeparateLinesCommute(u, w, lines);
    RunTwo(u, w, lines);
    RunTwo(w, u, lines);
    RunIsOutcome([u, w], text);
    RunIsOutcome([w, u], text);
    assert forall v :: v in [u, w] <==> v in [w, u];
  }

  lemma RunTwo(u: Update, w: Update, lines: Lines)
    requires Updated(u, lines).Some?
    ensures RunLines([u, w], lines) == Updated(w, Updated(u, lines).value)
  {
    hide Updated;
    assert [u] + [w] == [u, w];
    RunCons(u, [w], lines);
    assert [w][1..] == [];
  }

  /** The result of a run is a fixed point of each of its updates, which then writes nothing. */
  lemma RunFixesEach(us: seq<Update>, u: Update, text: string)
    requires u in us && InsertLines(us) && AllSeparate(multiset(us), ReadLines(text)) && Clean(u.items, u.end)
    ensures Run(us, text).Some? && UpdatedText(u, Run(us, text).value) == Run(us, text)
    ensures !Rewrites(u, Run(us, text).value)
  {
    hide ReadLines, WriteLines, Updated, AreLines, AllSeparate, Clean;
    LinesFixed(us, u, ReadLines(text));
    RunIsOutcome(us, text);
  }

  /** Running the whole script again leaves the file as it is and writes nothing. */
  lemma RunIdempotent(us: seq<Update>, text: string)
    requires InsertLines(us) && AllSeparate(multiset(us), ReadLines(text))
    requires forall u :: u in us ==> Clean(u.items, u.end)
    ensures Run(us, text).Some? && Run(us, Run(us, text).value) == Run(us, text)
    ensures forall u :: u in us ==> !Rewrites(u, Run(us, text).value)
  {
    hide ReadLines, WriteLines, Updated, AreLines, AllSeparate, Clean;
    RunOrderIrrelevant(us, us, text);
    var result := Run(us, text).value;
    forall u | u in us ensures UpdatedText(u, result) == Some(result) && !Rewrites(u, result) {
      RunFixesEach(us, u, text);
    }
    FixedText(us, result);
  }

  lemma {:induction false} FixedText(us: seq<Update>, text: string)
    requires forall u :: u in us ==> UpdatedText(u, text) == Some(text)
    ensures Run(us, text) == Some(text)
  {
    if us != [] {
      FixedText(us[1..], text);
    }
  }
}
