/** Reading and writing text files line by line, as `readlines` and `writelines` do in text mode. */
module TextFiles {
  type Line = string
  type Lines = seq<Line>

  /** Text mode turns the line ends "\r\n" and "\r" into "\n". */
  function Translated(text: string): string {
    if text == "" then ""
    else if text[0] == '\r' && |text| > 1 && text[1] == '\n' then Translated(text[1..])
    else [if text[0] == '\r' then '\n' else text[0]] + Translated(text[1..])
  }

  /** The number of characters up to and including the first line end. */
  function LineLength(text: string): (n: nat)
    ensures n <= |text| && (text != "" ==> n > 0)
  {
    if text == "" then 0 else if text[0] == '\n' then 1 else 1 + LineLength(text[1..])
  }

  function SplitLines(text: string): Lines {
    if text == "" then [] else [text[..LineLength(text)]] + SplitLines(text[LineLength(text)..])
  }

  function ReadLines(text: string): Lines {
    SplitLines(Translated(text))
  }

  function WriteLines(lines: Lines): string {
    if lines == [] then "" else lines[0] + WriteLines(lines[1..])
  }

  // ---------- Lines that can be read ----------

  predicate NoBreak(s: string) {
    '\n' !in s && '\r' !in s
  }

  /** One complete line. */
  predicate IsLine(line: Line) {
    line != "" && line[|line| - 1] == '\n' && NoBreak(line[..|line| - 1])
  }

  predicate AreLines(lines: Lines) {
    forall k :: 0 <= k < |lines| ==> IsLine(lines[k])
  }

  /** Complete lines, except that the last one may lack its line end. */
  predicate Readable(lines: Lines) {
    forall k :: 0 <= k < |lines| ==> IsLine(lines[k]) || (k == |lines| - 1 && lines[k] != "" && NoBreak(lines[k]))
  }

  // ---------- Translation ----------

  lemma {:induction false} TranslatedHasNoReturn(text: string)
    ensures '\r' !in Translated(text)
  {
    if text != "" {
      TranslatedHasNoReturn(text[1..]);
    }
  }

  lemma {:induction false} NothingToTranslate(text: string)
    requires '\r' !in text
    ensures Translated(text) == text
  {
    if text != "" {
      NothingToTranslate(text[1..]);
    }
  }

  lemma FirstTranslated(c: char, rest: string)
    ensures Translated([c] + rest) ==
            if c == '\r' && rest != "" && rest[0] == '\n' then Translated(rest)
            else [if c == '\r' then '\n' else c] + Translated(rest)
  {
    assert ([c] + rest)[1..] == rest;
  }

  lemma {:induction false} TranslatedConcat(a: string, b: string)
    requires a == "" || a[|a| - 1] != '\r' || b == "" || b[0] != '\n'
    ensures Translated(a + b) == Translated(a) + Translated(b)
  {
    if a == "" {
      assert a + b == b;
    } else {
      hide Translated;
      var rest := a[1..];
      TakeFirst(a, b);
      TranslatedConcat(rest, b);
      FirstTranslated(a[0], rest);
      FirstTranslated(a[0], rest + b);
      Regroup(if a[0] == '\r' then '\n' else a[0], Translated(rest), Translated(b));
    }
  }

  lemma TakeFirst(a: string, b: string)
    requires a != ""
    ensures a == [a[0]] + a[1..] && a + b == [a[0]] + (a[1..] + b)
    ensures |a| > 1 ==> a[1] == a[1..][0] == (a[1..] + b)[0] && a[|a| - 1] == a[1..][|a| - 2]
    ensures |a| == 1 ==> a[1..] == "" && a[1..] + b == b
  {
  }

  lemma Regroup(c: char, x: string, y: string)
    ensures [c] + (x + y) == [c] + x + y
  {
  }

  function TranslatedBefore(text: string, c: char): string {
    if text != "" && text[|text| - 1] == '\r' && c == '\n' then Translated(text[..|text| - 1]) else Translated(text)
  }

  lemma TranslatedInFront(text: string, rest: string)
    requires rest != "" && '\r' !in rest
    ensures Translated(text + rest) == TranslatedBefore(text, rest[0]) + rest
  {
    hide Translated;
    NothingToTranslate(rest);
    if text != "" && text[|text| - 1] == '\r' && rest[0] == '\n' {
      var x := text[..|text| - 1];
      assert text + rest == x + ("\r" + rest);
      TranslatedConcat(x, "\r" + rest);
      FirstTranslated('\r', rest);
    } else {
      TranslatedConcat(text, rest);
    }
  }

  /** The three line ends are read alike. */
  lemma LineEndsAlike(a: string, b: string)
    requires (a == "" || a[|a| - 1] != '\r') && (b == "" || b[0] != '\n')
    ensures ReadLines(a + "\r\n" + b) == ReadLines(a + "\n" + b) == ReadLines(a + "\r" + b)
  {
    hide SplitLines, Translated;
    var cr, nl, crnl := ['\r'] + b, ['\n'] + b, ['\r'] + (['\n'] + b);
    assert a + "\r\n" + b == a + crnl && a + "\n" + b == a + nl && a + "\r" + b == a + cr;
    TranslatedConcat(a, crnl);
    TranslatedConcat(a, nl);
    TranslatedConcat(a, cr);
    FirstTranslated('\r', nl);
    FirstTranslated('\r', b);
    FirstTranslated('\n', b);
  }

  lemma {:induction false} TranslatedEnd(text: string)
    requires text != "" && text[|text| - 1] != '\r'
    ensures var t := Translated(text); t != "" && t[|t| - 1] == text[|text| - 1]
  {
    if |text| > 1 {
      TranslatedEnd(text[1..]);
    }
  }

  // ---------- Splitting ----------

  lemma {:induction false} FirstLine(text: string)
    requires text != "" && '\r' !in text
    ensures var line := text[..LineLength(text)];
            IsLine(line) || (line == text && NoBreak(line))
  {
    if text[0] != '\n' && |text| > 1 {
      FirstLine(text[1..]);
      assert text[..LineLength(text)] == [text[0]] + text[1..][..LineLength(text[1..])];
      var line := text[1..][..LineLength(text[1..])];
      assert IsLine(line) ==> ([text[0]] + line)[..|line|] == [text[0]] + line[..|line| - 1];
    }
  }

  lemma {:induction false} LineLengthOf(line: Line, rest: string)
    requires IsLine(line)
    ensures LineLength(line + rest) == |line|
  {
    assert (line + rest)[1..] == line[1..] + rest;
    if |line| > 1 {
      assert line[..|line| - 1][0] == line[0];
      assert line[1..][..|line| - 2] == line[..|line| - 1][1..];
      LineLengthOf(line[1..], rest);
    }
  }

  lemma {:induction false} LineLengthOfPart(line: Line)
    requires '\n' !in line
    ensures LineLength(line) == |line|
  {
    if line != "" {
      LineLengthOfPart(line[1..]);
    }
  }

  lemma {:induction false} SplitReadable(text: string)
    requires '\r' !in text
    ensures Readable(SplitLines(text))
    ensures text != "" ==> SplitLines(text) != []
    ensures text == "" || text[|text| - 1] == '\n' ==> AreLines(SplitLines(text))
    decreases |text|
  {
    if text != "" {
      var line, rest := text[..LineLength(text)], text[LineLength(text)..];
      assert text == line + rest && SplitLines(text) == [line] + SplitLines(rest);
      FirstLine(text);
      SplitReadable(rest);
      if rest != "" {
        assert IsLine(line);
      } else {
        SplitNothing();
      }
      hide SplitLines, LineLength, IsLine, NoBreak;
      ReadableCons(line, SplitLines(rest));
      if rest == "" {
        if NoBreak(text) {
          LineEnds(text);
        }
      } else {
        assert rest[|rest| - 1] == text[|text| - 1];
      }
    }
  }

  lemma ReadableCons(line: Line, lines: Lines)
    requires Readable(lines) && line != "" && (IsLine(line) || (lines == [] && NoBreak(line)))
    ensures Readable([line] + lines)
    ensures IsLine(line) && AreLines(lines) ==> AreLines([line] + lines)
  {
    hide IsLine, NoBreak;
    var all := [line] + lines;
    assert forall k :: 0 < k < |all| ==> all[k] == lines[k - 1];
  }

  lemma LineEnds(line: Line)
    requires NoBreak(line) && line != ""
    ensures line[|line| - 1] != '\n'
  {
  }

  lemma {:induction false} WriteSplit(text: string)
    ensures WriteLines(SplitLines(text)) == text
    decreases |text|
  {
    if text != "" {
      WriteSplit(text[LineLength(text)..]);
      assert SplitLines(text)[1..] == SplitLines(text[LineLength(text)..]);
    }
  }

  lemma {:induction false} SplitAfterLines(lines: Lines, text: string)
    requires AreLines(lines)
    ensures SplitLines(WriteLines(lines) + text) == lines + SplitLines(text)
  {
    if lines == [] {
      assert "" + text == text;
    } else {
      hide SplitLines, IsLine;
      var rest := WriteLines(lines[1..]) + text;
      WriteFirst(lines, text);
      hide WriteLines;
      SplitFirst(lines[0], rest);
      SplitAfterLines(lines[1..], text);
      FirstAndRest(lines, SplitLines(text));
    }
  }

  lemma WriteFirst(lines: Lines, text: string)
    requires lines != []
    ensures WriteLines(lines) + text == lines[0] + (WriteLines(lines[1..]) + text)
  {
  }

  lemma FirstAndRest(lines: Lines, more: Lines)
    requires lines != []
    ensures [lines[0]] + (lines[1..] + more) == lines + more
  {
  }

  lemma SplitFirst(line: Line, rest: string)
    requires IsLine(line)
    ensures SplitLines(line + rest) == [line] + SplitLines(rest)
  {
    LineLengthOf(line, rest);
    assert (line + rest)[..|line|] == line && (line + rest)[|line|..] == rest;
  }

  lemma {:induction false} WriteConcat(a: Lines, b: Lines)
    ensures WriteLines(a + b) == WriteLines(a) + WriteLines(b)
  {
    if a == [] {
      assert a + b == b;
    } else {
      assert (a + b)[1..] == a[1..] + b;
      WriteConcat(a[1..], b);
    }
  }

  lemma SplitPart(line: Line)
    requires line != "" && NoBreak(line)
    ensures SplitLines(line) == [line]
  {
    LineLengthOfPart(line);
    assert line[..|line|] == line && line[|line|..] == "";
  }

  lemma WriteSnoc(lines: Lines, line: Line)
    ensures WriteLines(lines + [line]) == WriteLines(lines) + line
  {
    WriteConcat(lines, [line]);
    assert [line][1..] == [] && line + "" == line;
  }

  lemma SplitWrite(lines: Lines)
    requires Readable(lines)
    ensures SplitLines(WriteLines(lines)) == lines
  {
    hide SplitLines, WriteLines;
    if lines != [] && !IsLine(lines[|lines| - 1]) {
      var n := |lines| - 1;
      assert lines == lines[..n] + [lines[n]];
      WriteSnoc(lines[..n], lines[n]);
      SplitAfterLines(lines[..n], lines[n]);
      SplitPart(lines[n]);
    } else {
      SplitAfterLines(lines, "");
      SplitNothing();
      assert WriteLines(lines) + "" == WriteLines(lines) && lines + [] == lines;
    }
  }

  lemma SplitNothing()
    ensures SplitLines("") == []
  {
  }

  lemma {:induction false} WriteHasNoReturn(lines: Lines)
    requires Readable(lines)
    ensures '\r' !in WriteLines(lines)
  {
    if lines != [] {
      assert Readable(lines[1..]);
      WriteHasNoReturn(lines[1..]);
      NoReturnInLine(lines[0]);
    }
  }

  lemma NoReturnInLine(line: Line)
    requires IsLine(line) || NoBreak(line)
    ensures '\r' !in line
  {
    if IsLine(line) {
      assert line == line[..|line| - 1] + ['\n'];
    }
  }

  // ---------- The round trips ----------

  /** What is read from a file can be written back, up to the translation of line ends. */
  lemma WriteRead(text: string)
    ensures Readable(ReadLines(text)) && WriteLines(ReadLines(text)) == Translated(text)
  {
    TranslatedHasNoReturn(text);
    SplitReadable(Translated(text));
    WriteSplit(Translated(text));
  }

  /** Written lines are read back as the same lines exactly when they are lines that a file can hold. */
  lemma ReadWriteIff(lines: Lines)
    ensures ReadLines(WriteLines(lines)) == lines <==> Readable(lines)
  {
    WriteRead(WriteLines(lines));
    if Readable(lines) {
      WriteHasNoReturn(lines);
      NothingToTranslate(WriteLines(lines));
      SplitWrite(lines);
    }
  }

  /** Text written between complete lines and a line `last` shows up between them, possibly run together with `last`. */
  lemma ReadBetween(before: Lines, text: string, last: Line, after: Lines)
    requires AreLines(before) && Readable([last] + after)
    ensures ReadLines(WriteLines(before) + (text + WriteLines([last] + after))) ==
            before + ReadLines(text + last) + after
  {
    var head, tail, middle := WriteLines(before), WriteLines(after), text + last;
    assert ([last] + after)[0] == last && ([last] + after)[1..] == after;
    assert text + WriteLines([last] + after) == middle + tail;
    assert Readable(after) by {
      assert forall k :: 0 <= k < |after| ==> after[k] == ([last] + after)[k + 1];
    }
    LastIsNoReturn(last);
    WriteHasNoReturn(before);
    WriteHasNoReturn(after);
    TranslatedConcat(head, middle + tail);
    TranslatedConcat(middle, tail);
    NothingToTranslate(head);
    NothingToTranslate(tail);
    SplitAfterLines(before, Translated(middle) + tail);
    SplitMiddle(middle, after);
    assert before + (ReadLines(middle) + after) == before + ReadLines(middle) + after;
  }

  lemma LastIsNoReturn(last: Line)
    requires IsLine(last) || (last != "" && NoBreak(last))
    ensures last[|last| - 1] != '\r'
  {
  }

  lemma SplitMiddle(middle: string, after: Lines)
    requires middle != "" && Readable(after) && (after != [] ==> middle[|middle| - 1] == '\n')
    ensures SplitLines(Translated(middle) + WriteLines(after)) == ReadLines(middle) + after
  {
    var t := Translated(middle);
    if after == [] {
      assert t + "" == t;
    } else {
      TranslatedHasNoReturn(middle);
      TranslatedEnd(middle);
      SplitReadable(t);
      WriteSplit(t);
      SplitAfterLines(SplitLines(t), WriteLines(after));
      SplitWrite(after);
    }
  }
}
