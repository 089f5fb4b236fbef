/**
 * Laws of repeated `update_build_file` calls on one file. Every call reads the file again, so what
 * an update inserts is seen by the next one as the lines that its text splits into.
 */
module BuildTextLaws {
  import opened Base
  import opened TextFiles
  import opened BuildFiles
  import opened BuildFileLaws

  /** The lines that the items and the end line after them are read as. */
  function Reread(items: Lines, last: Line): Lines {
    ReadLines(WriteLines(items) + last)
  }

  /** Written in front of the end line `last`, the items leave it alone and hide no end marker. */
  ghost predicate Contained(items: Lines, last: Line, end: Line) {
    var lines := Reread(items, last);
    lines != [] && lines[|lines| - 1] == last && Clean(lines[..|lines| - 1], end)
  }

  ghost function EndLine(u: Update, text: string): Line
    requires HasRegion(u, ReadLines(text))
  {
    ReadLines(text)[RegionOf(u, ReadLines(text)).close]
  }

  // ---------- Which items are contained ----------

  lemma ReadOne(last: Line)
    requires Readable([last])
    ensures ReadLines(last) == [last]
  {
    ReadWriteIff([last]);
    WriteSnoc([], last);
    assert [] + [last] == [last] && WriteLines([]) + last == last;
  }

  lemma RereadLines(items: Lines, last: Line)
    requires AreLines(items) && Readable([last])
    ensures Reread(items, last) == items + [last]
  {
    hide ReadLines, WriteLines;
    ReadBetween(items, "", last, []);
    assert [last] + [] == [last] && "" + last == last && "" + WriteLines([last]) == WriteLines([last]);
    WriteSnoc([], last);
    WriteNothing();
    assert [] + [last] == [last] && "" + last == last;
    ReadOne(last);
    assert items + [last] + [] == items + [last];
  }

  lemma WriteNothing()
    ensures WriteLines([]) == ""
  {
  }

  /** Items that are complete lines are contained exactly when none of them begins with the end marker. */
  lemma LinesContainedIff(items: Lines, last: Line, end: Line)
    requires AreLines(items) && Readable([last])
    ensures Contained(items, last, end) <==> Clean(items, end)
  {
    RereadLines(items, last);
    assert (items + [last])[..|items|] == items;
  }

  /**
   * Items without carriage returns are contained exactly when their text ends in a line end and none
   * of the lines in it begins with the end marker.
   */
  lemma TextContainedIff(items: Lines, last: Line, end: Line)
    requires Readable([last]) && '\r' !in WriteLines(items)
    ensures var text := WriteLines(items);
            Contained(items, last, end) <==>
            (text == "" || text[|text| - 1] == '\n') && Clean(ReadLines(text), end)
  {
    var text := WriteLines(items);
    NothingToTranslate(text);
    WriteRead(text);
    if text == "" || text[|text| - 1] == '\n' {
      SplitReadable(text);
      RereadLines(ReadLines(text), last);
      LinesContainedIff(ReadLines(text), last, end);
    } else if Contained(items, last, end) {
      EndsInLine(text, last, Reread(items, last));
    }
  }

  lemma EndsInLine(text: string, last: Line, lines: Lines)
    requires Readable([last]) && '\r' !in text && lines == ReadLines(text + last)
    requires lines != [] && lines[|lines| - 1] == last
    ensures text == "" || text[|text| - 1] == '\n'
  {
    hide ReadLines, WriteLines;
    var before := lines[..|lines| - 1];
    NoReturnInLine([last][0]);
    NothingToTranslate(text + last);
    WriteRead(text + last);
    assert lines == before + [last];
    WriteSnoc(before, last);
    assert WriteLines(before) == (WriteLines(before) + last)[..|WriteLines(before)|] == text;
    assert AreLines(before);
    if before != [] {
      LastCharacter(before);
    } else {
      WriteNothing();
    }
  }

  lemma {:induction false} LastCharacter(lines: Lines)
    requires lines != [] && AreLines(lines)
    ensures var text := WriteLines(lines); text != "" && text[|text| - 1] == '\n'
  {
    var n := |lines| - 1;
    assert lines == lines[..n] + [lines[n]];
    WriteSnoc(lines[..n], lines[n]);
  }

  /** Contained items are exactly those after which the scanner finds the old end line again. */
  lemma ContainedIff(items: Lines, last: Line, after: Lines, end: Line)
    requires Readable([last] + after) && StartsWith(last, end)
    ensures var lines := Reread(items, last) + after;
            var k := FirstEnd(lines, end);
            k < |lines| && WriteLines(lines[k..]) == WriteLines([last] + after) <==> Contained(items, last, end)
  {
    hide ReadLines, WriteLines, FirstEnd;
    var middle := Reread(items, last);
    var lines, rest := middle + after, [last] + after;
    var k := FirstEnd(lines, end);
    if Contained(items, last, end) {
      var before := middle[..|middle| - 1];
      assert middle == before + [last] && lines == before + rest;
      FirstEndAfter(before, rest, end);
      assert lines[|before|..] == rest;
    }
    if k < |lines| && WriteLines(lines[k..]) == WriteLines(rest) {
      WriteRead(WriteLines(items) + last);
      OldEndFound(middle, last, after, k);
      assert middle[..k] == lines[..k];
      assert Clean(middle[..k], end);
    }
  }

  lemma OldEndFound(middle: Lines, last: Line, after: Lines, k: nat)
    requires Readable([last] + after) && Readable(middle) && k < |middle + after|
    requires WriteLines((middle + after)[k..]) == WriteLines([last] + after)
    ensures k == |middle| - 1 && middle[k] == last
  {
    hide WriteLines;
    assert ([last] + after)[0] == last;
    WriteConcat([last], after);
    WriteSnoc([], last);
    WriteNothing();
    assert [] + [last] == [last] && "" + last == last;
    if k >= |middle| {
      assert (middle + after)[k..] == after[k - |middle|..];
      assert after == after[..k - |middle|] + after[k - |middle|..];
      WriteConcat(after[..k - |middle|], after[k - |middle|..]);
    } else {
      var tail := middle[k..];
      assert (middle + after)[k..] == tail + after;
      WriteConcat(tail, after);
      SamePrefix(WriteLines(tail), last, WriteLines(after));
      ReadWriteIff(tail);
      ReadOne(last);
      assert tail == [last];
    }
  }

  lemma SamePrefix(a: string, b: string, c: string)
    requires a + c == b + c
    ensures a == b
  {
    assert a == (a + c)[..|a|] && b == (b + c)[..|b|];
  }

  // ---------- The file after an update ----------

  /** The file splits into the lines through the start marker, the old content, the end line and the rest. */
  ghost predicate Splits(u: Update, text: string, before: Lines, last: Line, after: Lines) {
    var lines := ReadLines(text);
    && HasRegion(u, lines)
    && var r := RegionOf(u, lines);
       before == lines[..r.open + 1] && [last] + after == lines[r.close..]
  }

  lemma Split(u: Update, text: string) returns (before: Lines, last: Line, after: Lines)
    requires HasRegion(u, ReadLines(text))
    ensures Splits(u, text, before, last, after) && last == EndLine(u, text)
    ensures AreLines(before) && Readable([last] + after) && Readable([last]) && StartsWith(last, u.end)
  {
    hide ReadLines;
    var lines := ReadLines(text);
    var r := RegionOf(u, lines);
    WriteRead(text);
    before, last, after := lines[..r.open + 1], lines[r.close], lines[r.close + 1..];
    hide IsLine, NoBreak, StartsWith, Absent;
    SplitsReadable(lines, r.open, r.close);
    assert [last] + after == lines[r.close..];
  }

  lemma SplitsReadable(lines: Lines, open: nat, close: nat)
    requires Readable(lines) && open < close < |lines|
    ensures AreLines(lines[..open + 1]) && Readable(lines[close..]) && Readable([lines[close]])
  {
    hide IsLine, NoBreak;
  }

  /** The text that an update writes. */
  function Written(before: Lines, items: Lines, last: Line, after: Lines): string {
    WriteLines(before) + (WriteLines(items) + WriteLines([last] + after))
  }

  lemma WrittenIs(before: Lines, items: Lines, last: Line, after: Lines)
    ensures WriteLines(before + items + ([last] + after)) == Written(before, items, last, after)
  {
    hide WriteLines;
    var rest := [last] + after;
    assert before + items + rest == before + (items + rest);
    WriteConcat(before, items + rest);
    WriteConcat(items, rest);
  }

  lemma AfterUpdate(u: Update, text: string, before: Lines, last: Line, after: Lines)
    requires Splits(u, text, before, last, after) && AreLines(before) && Readable([last] + after)
    ensures Updated(u, ReadLines(text)) == Some(before + u.items + ([last] + after))
    ensures var new_ := UpdatedText(u, text);
            && new_ == Some(if Rewrites(u, text) then Written(before, u.items, last, after) else text)
            && ReadLines(new_.value) == before + (Reread(u.items, last) + after)
            && ReadLines(new_.value) == ReadLines(Written(before, u.items, last, after))
  {
    hide ReadLines, WriteLines;
    var lines := ReadLines(text);
    UpdatedAt(u, lines, RegionOf(u, lines));
    WrittenIs(before, u.items, last, after);
    WriteRead(text);
    ReadWriteIff(lines);
    ReadBetween(before, WriteLines(u.items), last, after);
    assert before + Reread(u.items, last) + after == before + (Reread(u.items, last) + after);
  }

  /** What the same markers find in the file that an update left. */
  lemma NextUpdate(u: Update, second: Lines, text: string, before: Lines, last: Line, after: Lines)
    requires Splits(u, text, before, last, after) && AreLines(before) && Readable([last] + after)
    ensures UpdatedText(u, text).Some?
    ensures var lines := Reread(u.items, last) + after;
            var k := FirstEnd(lines, u.end);
            Updated(u.(items := second), ReadLines(UpdatedText(u, text).value)) ==
            if k < |lines| then Some(before + second + lines[k..]) else None
  {
    AfterUpdate(u, text, before, last, after);
    hide ReadLines, WriteLines, FirstEnd, Updated, UpdatedText;
    UpdatedAgain(u, second, ReadLines(text), RegionOf(u, ReadLines(text)), Reread(u.items, last) + after);
  }

  // ---------- The laws ----------

  /** The lines found and the lines left agree exactly for complete lines without an end marker. */
  lemma SameLinesIff(before: Lines, items: Lines, last: Line, after: Lines, end: Line)
    requires AreLines(before) && Readable([last] + after) && Readable([last]) && StartsWith(last, end)
    requires Readable(before + (Reread(items, last) + after))
    ensures var lines := Reread(items, last) + after;
            var k := FirstEnd(lines, end);
            k < |lines| && before + items + lines[k..] == before + lines <==> AreLines(items) && Clean(items, end)
  {
    hide Reread, FirstEnd, StartsWith, IsLine, NoBreak;
    var lines, rest := Reread(items, last) + after, [last] + after;
    var k := FirstEnd(lines, end);
    if AreLines(items) && Clean(items, end) {
      RereadLines(items, last);
      assert lines == items + rest;
      FirstEndAfter(items, rest, end);
      ThreeParts(before, items, rest);
    } else if k < |lines| && before + items + lines[k..] == before + lines {
      SameItems(before, items, lines, k);
      var all := before + lines;
      forall j | 0 <= j < k ensures IsLine(items[j]) && !StartsWith(items[j], end) {
        assert items[j] == lines[j] == all[|before| + j];
      }
    }
  }

  lemma SameItems(before: Lines, items: Lines, lines: Lines, k: nat)
    requires k <= |lines| && before + items + lines[k..] == before + lines
    ensures items == lines[..k]
  {
    var all := before + lines;
    assert |items| == k;
    assert forall j :: 0 <= j < k ==> items[j] == (before + items + lines[k..])[|before| + j] == all[|before| + j];
  }

  /**
   * Repeating an update leaves the file as it is exactly when its items are contained; otherwise it
   * raises or changes the file.
   */
  lemma UpdateIdempotent(u: Update, text: string)
    requires HasRegion(u, ReadLines(text))
    ensures UpdatedText(u, text).Some?
    ensures var new_ := UpdatedText(u, text).value;
            UpdatedText(u, new_) == Some(new_) <==> Contained(u.items, EndLine(u, text), u.end)
  {
    hide ReadLines, WriteLines, FirstEnd, HasRegion, Updated, Contained, StartsWith, IsLine, NoBreak, Reread;
    var before, last, after := Split(u, text);
    assert u.(items := u.items) == u;
    NextUpdate(u, u.items, text, before, last, after);
    AfterUpdate(u, text, before, last, after);
    var new_ := UpdatedText(u, text).value;
    WriteRead(new_);
    SameLinesIff(before, u.items, last, after, u.end);
    LinesContained(u, last);
    ContainedIff(u.items, last, after, u.end);
    var lines := Reread(u.items, last) + after;
    var k := FirstEnd(lines, u.end);
    if k < |lines| && before + u.items + lines[k..] != before + lines {
      WriteThree(before, u.items, lines[k..]);
      SameSuffix(WriteLines(before), WriteLines(u.items), WriteLines(lines[k..]), WriteLines([last] + after));
    }
  }

  lemma LinesContained(u: Update, last: Line)
    requires Readable([last])
    ensures AreLines(u.items) && Clean(u.items, u.end) ==> Contained(u.items, last, u.end)
  {
    if AreLines(u.items) {
      LinesContainedIff(u.items, last, u.end);
    }
  }

  lemma WriteThree(a: Lines, b: Lines, c: Lines)
    ensures WriteLines(a + b + c) == WriteLines(a) + (WriteLines(b) + WriteLines(c))
  {
    hide WriteLines;
    assert a + b + c == a + (b + c);
    WriteConcat(a, b + c);
    WriteConcat(b, c);
  }

  lemma SameSuffix(a: string, b: string, c: string, d: string)
    ensures a + (b + c) == a + (b + d) <==> c == d
  {
    assert (a + (b + c))[|a| + |b|..] == c && (a + (b + d))[|a| + |b|..] == d;
  }

  /** Repeating an update writes nothing exactly when its items are complete lines without an end marker. */
  lemma RepeatWritesNothingIff(u: Update, text: string)
    requires HasRegion(u, ReadLines(text))
    ensures UpdatedText(u, text).Some?
    ensures var new_ := UpdatedText(u, text).value;
            HasRegion(u, ReadLines(new_)) && !Rewrites(u, new_) <==> AreLines(u.items) && Clean(u.items, u.end)
  {
    hide ReadLines, WriteLines, FirstEnd, StartsWith, IsLine, NoBreak, Reread;
    var before, last, after := Split(u, text);
    assert u.(items := u.items) == u;
    NextUpdate(u, u.items, text, before, last, after);
    AfterUpdate(u, text, before, last, after);
    WriteRead(UpdatedText(u, text).value);
    SameLinesIff(before, u.items, last, after, u.end);
  }

  /** Two files that are read as the same lines. */
  ghost predicate ReadSame(a: Option<string>, b: Option<string>) {
    a.Some? && b.Some? && ReadLines(a.value) == ReadLines(b.value)
  }

  /** The text ends in a carriage return, which may become one with a line end after it. */
  predicate EndsInReturn(text: string) {
    text != "" && text[|text| - 1] == '\r'
  }

  /**
   * With an empty end marker every line is an end line. If the first list is one empty line, a second list
   * that ends in a carriage return makes that line one with its own line end.
   */
  predicate Swallowed(first: Update, second: Lines, last: Line) {
    && first.end == "" && EndsInReturn(WriteLines(second))
    && Translated(WriteLines(first.items)) == "\n" && last != "" && last[0] != '\n'
  }

  /**
   * Last writer wins: a second update with the same markers leaves what it would have left without the
   * first exactly when the items of the first are contained, or swallowed by the second.
   */
  lemma LastWriterWins(first: Update, second: Lines, text: string)
    requires HasRegion(first, ReadLines(text))
    ensures UpdatedText(first, text).Some?
    ensures var w, last := first.(items := second), EndLine(first, text);
            ReadSame(UpdatedText(w, UpdatedText(first, text).value), UpdatedText(w, text)) <==>
            Contained(first.items, last, first.end) || Swallowed(first, second, last)
  {
    hide ReadLines, WriteLines, FirstEnd, Updated, Contained, StartsWith, IsLine, NoBreak, Reread, IsRegion, Alike,
      Swallowed;
    var before, last, after := Split(first, text);
    var w := first.(items := second);
    NextUpdate(first, second, text, before, last, after);
    SameSplit(first, second, text, before, last, after);
    AfterUpdate(w, text, before, last, after);
    AlikeIff(first, second, last, after);
    var lines := Reread(first.items, last) + after;
    var k := FirstEnd(lines, first.end);
    var once := UpdatedText(first, text).value;
    if k < |lines| {
      TextOf(w, once, before + second + lines[k..]);
      WriteThree(before, second, lines[k..]);
      AfterUpdate(first, text, before, last, after);
      WriteRead(once);
      SuffixReadable(before, lines, k);
      ReadAlikeIff(before, WriteLines(second), lines[k..], [last] + after);
    }
  }

  lemma SameSplit(first: Update, second: Lines, text: string, before: Lines, last: Line, after: Lines)
    requires Splits(first, text, before, last, after)
    ensures Splits(first.(items := second), text, before, last, after)
  {
    hide ReadLines;
    var lines := ReadLines(text);
    assert IsRegion(first.(items := second), lines, RegionOf(first, lines));
    UpdatedAt(first.(items := second), lines, RegionOf(first, lines));
  }

  /** An updated file is read as the lines that its new lines are read as. */
  lemma TextOf(u: Update, text: string, new_: Lines)
    requires Updated(u, ReadLines(text)) == Some(new_)
    ensures UpdatedText(u, text).Some? && ReadLines(UpdatedText(u, text).value) == ReadLines(WriteLines(new_))
  {
    hide ReadLines, WriteLines, Updated;
    WriteRead(text);
    ReadWriteIff(ReadLines(text));
  }

  lemma SuffixReadable(before: Lines, lines: Lines, k: nat)
    requires Readable(before + lines) && k <= |lines|
    ensures Readable(lines[k..])
  {
    hide IsLine, NoBreak;
    var all := before + lines;
    assert forall j :: k <= j < |lines| ==> lines[j] == all[|before| + j];
  }

  /** Two texts are read alike after `inserted`, whose last character may become one with their first. */
  predicate Alike(inserted: string, x: string, y: string)
    requires x != "" && y != ""
  {
    if !EndsInReturn(inserted) || (x[0] == '\n' <==> y[0] == '\n') then x == y
    else if x[0] == '\n' then x == "\n" + y
    else y == "\n" + x
  }

  lemma NotEmptyText(lines: Lines)
    requires Readable(lines) && lines != []
    ensures WriteLines(lines) != "" && WriteLines(lines)[0] == lines[0][0]
  {
  }

  lemma ReadAlikeIff(before: Lines, inserted: string, a: Lines, b: Lines)
    requires AreLines(before) && Readable(a) && Readable(b) && a != [] && b != []
    ensures WriteLines(a) != "" && WriteLines(b) != ""
    ensures ReadLines(WriteLines(before) + (inserted + WriteLines(a))) ==
            ReadLines(WriteLines(before) + (inserted + WriteLines(b)))
            <==> Alike(inserted, WriteLines(a), WriteLines(b))
  {
    NotEmptyText(a);
    NotEmptyText(b);
    hide WriteLines, IsLine, NoBreak, Translated, Alike;
    var head, x, y := WriteLines(before), WriteLines(a), WriteLines(b);
    TranslationOf(before, inserted, a);
    TranslationOf(before, inserted, b);
    AlikeTranslations(head, inserted, x, y);
    hide ReadLines;
    SameTranslation(head + (inserted + x), head + (inserted + y));
  }

  lemma SameTranslation(a: string, b: string)
    ensures ReadLines(a) == ReadLines(b) <==> Translated(a) == Translated(b)
  {
    WriteRead(a);
    WriteRead(b);
  }

  lemma AlikeTranslations(head: string, inserted: string, x: string, y: string)
    requires x != "" && y != ""
    ensures head + (TranslatedBefore(inserted, x[0]) + x) == head + (TranslatedBefore(inserted, y[0]) + y) <==>
            Alike(inserted, x, y)
  {
    hide Translated;
    if !EndsInReturn(inserted) || (x[0] == '\n' <==> y[0] == '\n') {
      SameSuffix(head, TranslatedBefore(inserted, x[0]), x, y);
    } else {
      var init := Translated(inserted[..|inserted| - 1]);
      ReturnAtEnd(inserted);
      if x[0] == '\n' {
        Moved(init, y);
        SameSuffix(head, init, x, "\n" + y);
      } else {
        Moved(init, x);
        SameSuffix(head, init, "\n" + x, y);
      }
    }
  }

  lemma Moved(a: string, b: string)
    ensures (a + "\n") + b == a + ("\n" + b)
  {
  }

  lemma ReturnAtEnd(text: string)
    requires EndsInReturn(text)
    ensures Translated(text) == Translated(text[..|text| - 1]) + "\n"
  {
    var init := text[..|text| - 1];
    assert text == init + "\r";
    TranslatedConcat(init, "\r");
    assert Translated("\r") == "\n";
  }

  /** When the file left by the first update and the original are read alike from the end line on. */
  lemma AlikeIff(first: Update, second: Lines, last: Line, after: Lines)
    requires Readable([last] + after) && StartsWith(last, first.end)
    ensures var lines := Reread(first.items, last) + after;
            var k := FirstEnd(lines, first.end);
            && (k < |lines| ==> WriteLines(lines[k..]) != "") && WriteLines([last] + after) != ""
            && (k < |lines| && Alike(WriteLines(second), WriteLines(lines[k..]), WriteLines([last] + after)) <==>
                Contained(first.items, last, first.end) || Swallowed(first, second, last))
  {
    ContainedIff(first.items, last, after, first.end);
    hide Contained, Reread, WriteLines, IsLine, NoBreak, Translated;
    var lines, rest := Reread(first.items, last) + after, [last] + after;
    var k := FirstEnd(lines, first.end);
    RereadReadable(first.items, last, after);
    NotEmptyText(rest);
    if k < |lines| {
      SuffixReadable([], lines, k);
      assert [] + lines == lines;
      NotEmptyText(lines[k..]);
      if first.end == "" {
        assert k == 0 && lines[0..] == lines;
        EmptyEnd(first.items, last, after);
      } else {
        assert StartsWith(lines[k], first.end);
        assert lines[k][0] == first.end[0] == last[0];
      }
    }
  }

  lemma RereadReadable(items: Lines, last: Line, after: Lines)
    requires Readable([last] + after)
    ensures Reread(items, last) != [] && Readable(Reread(items, last) + after)
  {
    hide IsLine, NoBreak;
    ReadBetween([], WriteLines(items), last, after);
    WriteRead(WriteLines([]) + (WriteLines(items) + WriteLines([last] + after)));
    assert [] + Reread(items, last) + after == Reread(items, last) + after;
    RereadText(items, last, after);
  }

  /** The text of the lines from the start marker on when every line is an end line. */
  lemma RereadText(items: Lines, last: Line, after: Lines)
    requires Readable([last] + after)
    ensures Reread(items, last) != []
    ensures WriteLines(Reread(items, last) + after) == Translated(WriteLines(items) + last) + WriteLines(after)
    ensures Translated(WriteLines(items) + last) != ""
  {
    assert ([last] + after)[0] == last;
    LastIsNoReturn(last);
    TranslatedEnd(WriteLines(items) + last);
    WriteRead(WriteLines(items) + last);
    WriteNothing();
    hide ReadLines, WriteLines, Translated;
    WriteConcat(Reread(items, last), after);
  }

  /** An empty line in front of the end line, or anything else. */
  lemma EmptyEnd(items: Lines, last: Line, after: Lines)
    requires Readable([last] + after)
    ensures last != ""
    ensures var x, y := WriteLines(Reread(items, last) + after), WriteLines([last] + after);
            && x != "" && y != "" && y[0] == last[0]
            && y != "\n" + x
            && (last[0] != '\n' ==> (x == "\n" + y <==> Translated(WriteLines(items)) == "\n"))
  {
    assert ([last] + after)[0] == last;
    RereadText(items, last, after);
    NotEmptyText([last] + after);
    NoReturnInLine(last);
    NothingToTranslate(last);
    if last[0] != '\n' {
      TranslatedConcat(WriteLines(items), last);
    }
    LineIsNotLonger(last, Translated(WriteLines(items) + last));
    hide ReadLines, WriteLines, Translated, Reread, IsLine, NoBreak;
    WriteConcat([last], after);
    WriteSnoc([], last);
    WriteNothing();
    assert [] + [last] == [last] && "" + last == last;
    var t, tail := Translated(WriteLines(items) + last), WriteLines(after);
    SamePrefixIff(last, t, tail);
    SamePrefixIff(t, last, tail);
    SamePrefixIff(Translated(WriteLines(items)), "", last);
    assert "\n" + "" == "\n";
  }

  lemma SamePrefixIff(a: string, b: string, c: string)
    ensures a + c == "\n" + (b + c) <==> a == "\n" + b
  {
    assert "\n" + (b + c) == ("\n" + b) + c;
    if a + c == ("\n" + b) + c {
      SamePrefix(a, "\n" + b, c);
    }
  }

  lemma LineIsNotLonger(last: Line, t: string)
    requires (IsLine(last) || NoBreak(last)) && t != ""
    ensures last != "\n" + t
  {
    if IsLine(last) && |last| > 1 {
      assert last[..|last| - 1][0] == last[0];
    }
  }

  lemma TranslationOf(before: Lines, inserted: string, a: Lines)
    requires AreLines(before) && Readable(a) && WriteLines(a) != ""
    ensures Translated(WriteLines(before) + (inserted + WriteLines(a))) ==
            WriteLines(before) + (TranslatedBefore(inserted, WriteLines(a)[0]) + WriteLines(a))
  {
    hide WriteLines, TranslatedBefore;
    WriteHasNoReturn(before);
    WriteHasNoReturn(a);
    TranslatedConcat(WriteLines(before), inserted + WriteLines(a));
    TranslatedInFront(inserted, WriteLines(a));
    NothingToTranslate(WriteLines(before));
  }

  // ---------- Items that are not contained ----------

  /** A small file: a start line, other lines, and the end line with what follows it. */
  lemma InsertAt(u: Update, first: Line, middle: Lines, rest: Lines)
    requires !u.HasSearch() && IsLine(first) && StartsWith(first, u.start)
    requires AreLines(middle) && Clean(middle, u.end)
    requires AreLines(rest) && rest != [] && StartsWith(rest[0], u.end) && u.items != middle
    ensures UpdatedText(u, WriteLines([first] + middle + rest)) == Some(WriteLines([first] + u.items + rest))
  {
    hide ReadLines, WriteLines, IsLine, NoBreak;
    var lines := [first] + middle + rest;
    ReadWriteIff(lines);
    var r := Region(0, 0, 1 + |middle|);
    assert lines[1 + |middle|] == rest[0];
    assert forall k :: 0 <= k < |middle| ==> lines[1 + k] == middle[k];
    assert IsRegion(u, lines, r);
    UpdatedAt(u, lines, r);
    assert lines[..1] == [first] && lines[1 + |middle|..] == rest;
    if [first] + u.items + rest == lines {
      SameMiddle(first, u.items, middle, rest);
    }
  }

  lemma SameMiddle(first: Line, a: Lines, b: Lines, rest: Lines)
    requires [first] + a + rest == [first] + b + rest
    ensures a == b
  {
    assert |a| == |b|;
    assert a == ([first] + a + rest)[1..1 + |a|] && b == ([first] + b + rest)[1..1 + |b|];
  }

  /** An item without a line end swallows the end line, and the next update raises. */
  lemma PartialItemSwallowsEnd()
    ensures var u := Update("[", "]", ["x"], None);
            && UpdatedText(u, WriteLines(["[\n", "]\n"])) == Some(WriteLines(["[\n", "x]\n"]))
            && UpdatedText(u, WriteLines(["[\n", "x]\n"])) == None
  {
    var u := Update("[", "]", ["x"], None);
    assert "x" + "]\n" == "x]\n";
    Differs("x]\n", "]", 0);
    Swallows(u, "[\n", "]\n", "x");
  }

  lemma Swallows(u: Update, open: Line, close: Line, part: Line)
    requires !u.HasSearch() && IsLine(open) && StartsWith(open, u.start)
    requires IsLine(close) && StartsWith(close, u.end) && u.items == [part]
    requires IsLine(part + close) && !StartsWith(part + close, u.end)
    ensures UpdatedText(u, WriteLines([open, close])) == Some(WriteLines([open, part + close]))
    ensures UpdatedText(u, WriteLines([open, part + close])) == None
  {
    hide IsLine, StartsWith;
    InsertAt(u, open, [], [close]);
    assert [open] + [] + [close] == [open, close];
    WriteThree([open], [part], [close]);
    WriteThree([open], [part + close], []);
    assert [open] + [part + close] + [] == [open, part + close];
    assert WriteLines([part]) + WriteLines([close]) == WriteLines([part + close]) + WriteLines([]) by {
      WriteSnoc([], part);
      WriteSnoc([], close);
      WriteSnoc([], part + close);
      assert [] + [part] == [part] && [] + [close] == [close] && [] + [part + close] == [part + close];
    }
    ReadWriteIff([open, part + close]);
  }

  /** One empty line that the next update swallows, although it is not contained. */
  lemma EmptyLineSwallowed()
    ensures var u, w := Update("[", "", ["\n"], None), Update("[", "", ["\r"], None);
            var text := WriteLines(["[\n", "]\n"]);
            && HasRegion(u, ReadLines(text)) && UpdatedText(u, text).Some?
            && ReadSame(UpdatedText(w, UpdatedText(u, text).value), UpdatedText(w, text))
            && !Contained(u.items, EndLine(u, text), u.end)
  {
    assert WriteLines(["\n"]) == "\n" && WriteLines(["\r"]) == "\r" && Translated("\n") == "\n";
    SwallowsEmptyLine(Update("[", "", ["\n"], None), ["\r"], "[\n", "]\n");
  }

  lemma SwallowsEmptyLine(u: Update, second: Lines, open: Line, close: Line)
    requires !u.HasSearch() && u.end == "" && u.items != [] && AreLines(u.items)
    requires IsLine(open) && StartsWith(open, u.start) && IsLine(close) && Swallowed(u, second, close)
    ensures var text, w := WriteLines([open, close]), u.(items := second);
            && HasRegion(u, ReadLines(text)) && UpdatedText(u, text).Some?
            && ReadSame(UpdatedText(w, UpdatedText(u, text).value), UpdatedText(w, text))
            && !Contained(u.items, EndLine(u, text), u.end)
  {
    hide ReadLines, WriteLines, UpdatedText, ReadSame, Contained, IsLine, NoBreak, Swallowed;
    var lines := [open, close];
    ReadWriteIff(lines);
    assert IsRegion(u, lines, Region(0, 0, 1));
    UpdatedAt(u, lines, Region(0, 0, 1));
    LastWriterWins(u, second, WriteLines(lines));
    LinesContainedIff(u.items, close, u.end);
    assert StartsWith(u.items[0], "");
  }

  /** An item that looks like the end marker is left behind by every later update. */
  lemma HiddenEndMarkerAccumulates()
    ensures var u := Update("[", "]", ["]\n"], None);
            && UpdatedText(u, WriteLines(["[\n", "]\n"])) == Some(WriteLines(["[\n", "]\n", "]\n"]))
            && UpdatedText(u, WriteLines(["[\n", "]\n", "]\n"])) == Some(WriteLines(["[\n", "]\n", "]\n", "]\n"]))
  {
    Accumulates(Update("[", "]", ["]\n"], None), "[\n", "]\n");
  }

  lemma Accumulates(u: Update, open: Line, close: Line)
    requires !u.HasSearch() && IsLine(open) && StartsWith(open, u.start)
    requires IsLine(close) && StartsWith(close, u.end) && u.items == [close]
    ensures UpdatedText(u, WriteLines([open, close])) == Some(WriteLines([open, close, close]))
    ensures UpdatedText(u, WriteLines([open, close, close])) == Some(WriteLines([open, close, close, close]))
  {
    hide UpdatedText, WriteLines, IsLine, StartsWith;
    InsertAt(u, open, [], [close]);
    InsertAt(u, open, [], [close, close]);
    assert [open] + [] + [close] == [open, close] && [open] + [close] + [close] == [open, close, close];
    assert [open] + [] + [close, close] == [open, close, close];
    assert [open] + [close] + [close, close] == [open, close, close, close];
  }

  /** So is an end marker on the second line of one item. */
  lemma TwoLineItemAccumulates()
    ensures var u := Update("[", "]", ["a\n]\n"], None);
            && UpdatedText(u, WriteLines(["[\n", "]\n"])) == Some(WriteLines(["[\n", "a\n", "]\n", "]\n"]))
            && UpdatedText(u, WriteLines(["[\n", "a\n", "]\n", "]\n"])) ==
               Some(WriteLines(["[\n", "a\n", "]\n", "]\n", "]\n"]))
  {
    assert "a\n" + "]\n" == "a\n]\n";
    Differs("a\n", "]", 0);
    TwoLines(Update("[", "]", ["a\n]\n"], None), "[\n", "a\n", "]\n");
  }

  lemma TwoLines(u: Update, open: Line, other: Line, close: Line)
    requires !u.HasSearch() && IsLine(open) && StartsWith(open, u.start) && IsLine(other) && !StartsWith(other, u.end)
    requires IsLine(close) && StartsWith(close, u.end) && u.items == [other + close]
    ensures UpdatedText(u, WriteLines([open, close])) == Some(WriteLines([open, other, close, close]))
    ensures UpdatedText(u, WriteLines([open, other, close, close])) ==
            Some(WriteLines([open, other, close, close, close]))
  {
    hide UpdatedText, WriteLines, IsLine, StartsWith;
    assert u.items != [other] by {
      assert close != "" by {
        NotEmpty(close);
      }
      assert |other + close| > |other|;
    }
    InsertAt(u, open, [], [close]);
    InsertAt(u, open, [other], [close, close]);
    assert [open] + [] + [close] == [open, close] && [open] + [other] + [close, close] == [open, other, close, close];
    OneItemTwoLines(open, other, close, [close]);
    OneItemTwoLines(open, other, close, [close, close]);
    assert [open, other, close] + [close] == [open, other, close, close];
    assert [open, other, close] + [close, close] == [open, other, close, close, close];
  }

  lemma NotEmpty(line: Line)
    requires IsLine(line)
    ensures line != ""
  {
  }

  lemma OneItemTwoLines(open: Line, other: Line, close: Line, rest: Lines)
    ensures WriteLines([open] + [other + close] + rest) == WriteLines([open, other, close] + rest)
  {
    hide WriteLines;
    WriteThree([open], [other + close], rest);
    assert [open, other, close] + rest == [open] + [other, close] + rest;
    WriteThree([open], [other, close], rest);
    WriteSnoc([], other + close);
    WriteSnoc([other], close);
    WriteSnoc([], other);
    WriteNothing();
    assert [] + [other + close] == [other + close] && [other] + [close] == [other, close] && [] + [other] == [other];
    assert "" + other + close == "" + (other + close);
  }
}
