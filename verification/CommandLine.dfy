/**
 * The command line tokenizer (`ParseCmd`): splits a line into arguments in place, with a backslash
 * protecting separators and backslashes.
 */
module CommandLine {
  import opened Base

  const NUL: char := '\0'

  predicate IsSeparator(c: char) {
    c == ' ' || c == '\t' || c == '\r' || c == '\n'
  }

  predicate IsEscapable(c: char) {
    IsSeparator(c) || c == '\\'
  }

  // ---------- Meaning of a line ----------

  /** A line after unescaping: a gap between arguments or a character of one. */
  datatype Cell = Gap | Chr(c: char)

  function Lex(s: string): seq<Cell> {
    if s == "" then []
    else if s[0] == '\\' && |s| > 1 && IsEscapable(s[1]) then [Chr(s[1])] + Lex(s[2..])
    else if IsSeparator(s[0]) then [Gap] + Lex(s[1..])
    else [Chr(s[0])] + Lex(s[1..])
  }

  /** The characters up to the first gap. */
  function Word(cells: seq<Cell>): (w: string)
    ensures |w| <= |cells|
    ensures cells != [] && cells[0].Chr? ==> w != ""
  {
    if cells == [] || cells[0].Gap? then "" else [cells[0].c] + Word(cells[1..])
  }

  /** The maximal runs of characters, in order. */
  function Words(cells: seq<Cell>): seq<string> {
    if cells == [] then []
    else if cells[0].Gap? then Words(cells[1..])
    else [Word(cells)] + Words(cells[|Word(cells)|..])
  }

  /** The arguments of a command line. */
  function Arguments(line: string): seq<string> {
    Words(Lex(line))
  }

  // ---------- Escaping ----------

  /** Spells one argument so that the tokenizer keeps it whole. */
  function Escape(w: string): string {
    if w == "" then ""
    else (if IsEscapable(w[0]) then ['\\', w[0]] else [w[0]]) + Escape(w[1..])
  }

  predicate IsGap(s: string) {
    forall k :: 0 <= k < |s| ==> IsSeparator(s[k])
  }

  /** `gaps[0] words[0] gaps[1] words[1] ... gaps[n]`, with the words escaped. */
  function Spell(gaps: seq<string>, words: seq<string>): string
    requires |gaps| == |words| + 1
  {
    if words == [] then gaps[0] else gaps[0] + Escape(words[0]) + Spell(gaps[1..], words[1..])
  }

  lemma {:induction false} LexGap(gap: string, s: string)
    requires IsGap(gap)
    ensures Lex(gap + s) == seq(|gap|, _ => Gap) + Lex(s)
  {
    if gap == "" {
      assert gap + s == s;
      assert seq(|gap|, _ => Gap) + Lex(s) == Lex(s);
    } else {
      LexGap(gap[1..], s);
      assert (gap + s)[1..] == gap[1..] + s;
      assert seq(|gap|, _ => Gap) == [Gap] + seq(|gap| - 1, _ => Gap);
    }
  }

  function Cells(w: string): (cells: seq<Cell>)
    ensures |cells| == |w|
  {
    seq(|w|, k requires 0 <= k < |w| => Chr(w[k]))
  }

  lemma LexPlain(c: char, s: string)
    requires !IsEscapable(c)
    ensures Lex([c] + s) == [Chr(c)] + Lex(s)
  {
    assert ([c] + s)[1..] == s;
  }

  lemma LexProtected(c: char, s: string)
    requires IsEscapable(c)
    ensures Lex(['\\', c] + s) == [Chr(c)] + Lex(s)
  {
    assert (['\\', c] + s)[2..] == s;
  }

  lemma {:induction false} LexEscape(w: string, s: string)
    ensures Lex(Escape(w) + s) == Cells(w) + Lex(s)
  {
    if w == "" {
      assert Escape(w) + s == s;
      assert Cells(w) + Lex(s) == Lex(s);
    } else {
      hide Lex;
      var rest := Escape(w[1..]) + s;
      LexEscape(w[1..], s);
      FirstOfCells(w, Lex(s));
      FirstOfEscape(w, s);
      hide Escape, Cells;
      if IsEscapable(w[0]) {
        LexProtected(w[0], rest);
      } else {
        LexPlain(w[0], rest);
      }
    }
  }

  lemma FirstOfCells(w: string, cells: seq<Cell>)
    requires w != ""
    ensures Cells(w) + cells == [Chr(w[0])] + (Cells(w[1..]) + cells)
  {
  }

  lemma FirstOfEscape(w: string, s: string)
    requires w != ""
    ensures Escape(w) + s == (if IsEscapable(w[0]) then ['\\', w[0]] else [w[0]]) + (Escape(w[1..]) + s)
  {
  }

  lemma {:induction false} WordsSkipGaps(n: nat, cells: seq<Cell>)
    ensures Words(seq(n, _ => Gap) + cells) == Words(cells)
  {
    if n == 0 {
      assert seq(n, _ => Gap) + cells == cells;
    } else {
      WordsSkipGaps(n - 1, cells);
      assert (seq(n, _ => Gap) + cells)[1..] == seq(n - 1, _ => Gap) + cells;
    }
  }

  lemma {:induction false} WordOfCells(w: string, cells: seq<Cell>)
    requires cells == [] || cells[0].Gap?
    ensures Word(Cells(w) + cells) == w
  {
    if w == "" {
      assert Cells(w) + cells == cells;
    } else {
      WordOfCells(w[1..], cells);
      assert (Cells(w) + cells)[1..] == Cells(w[1..]) + cells;
      assert w == [w[0]] + w[1..];
    }
  }

  lemma WordsOfCells(w: string, cells: seq<Cell>)
    requires w != "" && (cells == [] || cells[0].Gap?)
    ensures Words(Cells(w) + cells) == [w] + Words(cells)
  {
    WordOfCells(w, cells);
    assert (Cells(w) + cells)[|w|..] == cells;
  }

  /**
   * Every list of non-empty arguments can be written on a line: escaped, and separated by any
   * non-empty runs of separators, it is read back unchanged.
   */
  lemma {:induction false} ArgumentsOfSpelling(gaps: seq<string>, words: seq<string>)
    requires |gaps| == |words| + 1
    requires forall k :: 0 <= k < |gaps| ==> IsGap(gaps[k])
    requires forall k :: 0 < k < |words| ==> gaps[k] != ""
    requires forall k :: 0 <= k < |words| ==> words[k] != ""
    ensures Arguments(Spell(gaps, words)) == words
    decreases |words|
  {
    hide Lex, Words, Escape, IsGap;
    if words == [] {
      LexGap(gaps[0], "");
      LexNothing();
      WordsSkipGaps(|gaps[0]|, []);
      assert gaps[0] + "" == gaps[0];
    } else {
      var w, rest := words[0], Spell(gaps[1..], words[1..]);
      ArgumentsOfSpelling(gaps[1..], words[1..]);
      assert Spell(gaps, words) == gaps[0] + (Escape(w) + rest);
      RestStartsWithGap(gaps[1..], words[1..]);
      hide Spell;
      LexGap(gaps[0], Escape(w) + rest);
      LexEscape(w, rest);
      WordsSkipGaps(|gaps[0]|, Cells(w) + Lex(rest));
      WordsOfCells(w, Lex(rest));
      assert words == [w] + words[1..];
    }
  }

  lemma LexNothing()
    ensures Lex("") == [] && Words([]) == []
  {
  }

  /** What follows an argument is nothing or a gap. */
  lemma RestStartsWithGap(gaps: seq<string>, words: seq<string>)
    requires |gaps| == |words| + 1 && IsGap(gaps[0]) && (words != [] ==> gaps[0] != "")
    ensures var cells := Lex(Spell(gaps, words)); cells == [] || cells[0].Gap?
  {
    var s := Spell(gaps, words);
    if s != "" && words != [] {
      assert s[0] == gaps[0][0];
    }
  }

  /** No argument is empty, whatever the line. */
  lemma {:induction false} WordsNonEmpty(cells: seq<Cell>, k: nat)
    requires k < |Words(cells)|
    ensures Words(cells)[k] != ""
    decreases |cells|
  {
    if cells[0].Gap? {
      WordsNonEmpty(cells[1..], k);
    } else if k > 0 {
      WordsNonEmpty(cells[|Word(cells)|..], k - 1);
    }
  }

  // ---------- Plain words ----------

  /** A word of characters that need no protection. */
  predicate IsPlainWord(w: string) {
    w != "" && forall k :: 0 <= k < |w| ==> w[k] !in " \t\r\n\\"
  }

  lemma Characters(c: char)
    ensures c in " \t\r\n" <==> IsSeparator(c)
    ensures c in " \t\r\n\\" <==> IsEscapable(c)
  {
    var s := " \t\r\n\\";
    assert s[0] == ' ' && s[1] == '\t' && s[2] == '\r' && s[3] == '\n' && s[4] == '\\';
    var r := " \t\r\n";
    assert r[0] == ' ' && r[1] == '\t' && r[2] == '\r' && r[3] == '\n';
  }

  lemma {:induction false} EscapePlain(w: string)
    requires w == "" || IsPlainWord(w)
    ensures Escape(w) == w
  {
    if w != "" {
      EscapePlain(w[1..]);
      Characters(w[0]);
      assert w == [w[0]] + w[1..];
    }
  }

  /** No separator, and no backslash that protects the character after it. */
  predicate IsOneWord(s: string) {
    forall k :: 0 <= k < |s| ==>
      !IsSeparator(s[k]) && (s[k] == '\\' && k + 1 < |s| ==> !IsEscapable(s[k + 1]))
  }

  lemma {:induction false} LexOneWord(s: string)
    requires IsOneWord(s)
    ensures Lex(s) == Cells(s)
  {
    if s != "" {
      forall k | 0 <= k < |s[1..]| ensures s[1..][k] == s[k + 1] {
      }
      LexOneWord(s[1..]);
      assert Cells(s) == [Chr(s[0])] + Cells(s[1..]);
    }
  }

  lemma ArgumentsOfOneWord(s: string)
    requires s != "" && IsOneWord(s)
    ensures Arguments(s) == [s]
  {
    LexOneWord(s);
    WordsOfCells(s, []);
    assert Cells(s) + [] == Cells(s);
  }

  lemma PlainWordChars(w: string)
    requires IsPlainWord(w)
    ensures forall k :: 0 <= k < |w| ==> !IsEscapable(w[k])
  {
    forall k | 0 <= k < |w| ensures !IsEscapable(w[k]) {
      Characters(w[k]);
    }
  }

  /** A plain word in front of a gap is the first argument. */
  lemma ArgumentsCons(w: string, gap: string, rest: string)
    requires IsPlainWord(w) && IsGap(gap) && gap != ""
    ensures Arguments(w + gap + rest) == [w] + Arguments(rest)
  {
    EscapePlain(w);
    assert Lex(gap + rest)[0] == Gap by {
      assert (gap + rest)[0] == gap[0];
    }
    hide Lex, Words, Escape, IsGap, IsPlainWord;
    assert w + gap + rest == w + (gap + rest);
    LexEscape(w, gap + rest);
    LexGap(gap, rest);
    WordsOfCells(w, Lex(gap + rest));
    WordsSkipGaps(|gap|, Lex(rest));
  }

  lemma ArgumentsOfPlainWord(w: string)
    requires IsPlainWord(w)
    ensures Arguments(w) == [w]
  {
    PlainWordChars(w);
    ArgumentsOfOneWord(w);
  }

  /** A character between two plain words separates them exactly when it is a space, a tab or a line end. */
  lemma SeparatorsSplit(v: string, c: char, w: string)
    requires IsPlainWord(v) && IsPlainWord(w)
    ensures Arguments(v + [c] + w) == [v, w] <==> c in " \t\r\n"
  {
    Characters(c);
    if IsSeparator(c) {
      ArgumentsCons(v, [c], w);
      ArgumentsOfPlainWord(w);
    } else {
      PlainWordChars(v);
      PlainWordChars(w);
      ArgumentsOfOneWord(v + [c] + w);
    }
  }

  /** A backslash keeps a separator or a backslash in the word, and stands for itself before other characters. */
  lemma BackslashProtects(v: string, c: char, w: string)
    requires IsPlainWord(v) && IsPlainWord(w)
    ensures Arguments(v + ['\\', c] + w) ==
            if c in " \t\r\n\\" then [v + [c] + w] else [v + ['\\', c] + w]
  {
    Characters(c);
    PlainWordChars(v);
    PlainWordChars(w);
    if IsEscapable(c) {
      var word := v + [c] + w;
      EscapeAround(v, c, w);
      ArgumentsOfSpelling(["", ""], [word]);
      hide Escape;
      assert ["", ""][1..] == [""] && [word][1..] == [] && Spell([""], []) == "";
      assert Spell(["", ""], [word]) == "" + Escape(word) + "" == Escape(word);
    } else {
      ArgumentsOfOneWord(v + ['\\', c] + w);
    }
  }

  lemma {:induction false} EscapeAround(v: string, c: char, w: string)
    requires (v == "" || IsPlainWord(v)) && IsEscapable(c) && IsPlainWord(w)
    ensures Escape(v + [c] + w) == v + ['\\', c] + w
  {
    if v == "" {
      EscapePlain(w);
      assert (v + [c] + w)[1..] == w;
    } else {
      EscapeAround(v[1..], c, w);
      Characters(v[0]);
      assert (v + [c] + w)[1..] == v[1..] + [c] + w && v == [v[0]] + v[1..];
    }
  }

  // ---------- The tokenizer ----------

  /** The C string that starts at index `p` of a buffer. */
  function CString(buf: seq<char>, p: nat): string
    requires p <= |buf|
    decreases |buf| - p
  {
    if p == |buf| || buf[p] == NUL then "" else [buf[p]] + CString(buf, p + 1)
  }

  predicate StartsWord(cells: seq<Cell>, p: nat)
    requires p < |cells|
  {
    cells[p].Chr? && (p == 0 || cells[p - 1].Gap?)
  }

  /** The positions from `p` on at which an argument starts. */
  function Starts(cells: seq<Cell>, p: nat): (starts: seq<nat>)
    requires p <= |cells|
    ensures forall k :: 0 <= k < |starts| ==> starts[k] <= |cells|
    decreases |cells| - p
  {
    if p == |cells| then []
    else (if StartsWord(cells, p) then [p] else []) + Starts(cells, p + 1)
  }

  /** A gap becomes a terminator. */
  function Render(cells: seq<Cell>): (text: seq<char>)
    ensures |text| == |cells|
  {
    seq(|cells|, k requires 0 <= k < |cells| => if cells[k].Gap? then NUL else cells[k].c)
  }

  predicate Printable(cells: seq<Cell>) {
    forall k :: 0 <= k < |cells| ==> cells[k] != Chr(NUL)
  }

  lemma {:induction false} LexPrintable(s: string)
    requires NUL !in s
    ensures Printable(Lex(s)) && |Lex(s)| <= |s|
  {
    if s != "" {
      if s[0] == '\\' && |s| > 1 && IsEscapable(s[1]) {
        LexPrintable(s[2..]);
      } else {
        LexPrintable(s[1..]);
      }
    }
  }

  /** In a rendered buffer the C string at a position is the word there. */
  lemma {:induction false} CStringIsWord(buf: seq<char>, cells: seq<Cell>, p: nat)
    requires p <= |cells| < |buf| && Printable(cells)
    requires buf[..|cells|] == Render(cells) && buf[|cells|] == NUL
    ensures CString(buf, p) == Word(cells[p..])
    decreases |cells| - p
  {
    if p < |cells| {
      CStringIsWord(buf, cells, p + 1);
      assert cells[p..][1..] == cells[p + 1..];
      assert buf[p] == buf[..|cells|][p] == Render(cells)[p];
    }
  }

  lemma {:induction false} WordEnds(cells: seq<Cell>, p: nat)
    requires p <= |cells|
    ensures var n := |Word(cells[p..])|;
            p + n <= |cells| && (p + n == |cells| || cells[p + n].Gap?)
    decreases |cells| - p
  {
    if p < |cells| && cells[p].Chr? {
      WordEnds(cells, p + 1);
      assert cells[p..][1..] == cells[p + 1..];
    }
  }

  /** No argument starts inside a word. */
  lemma {:induction false} NoStartInside(cells: seq<Cell>, p: nat, end: nat)
    requires 0 < p <= end <= |cells| && forall k :: p - 1 <= k < end ==> cells[k].Chr?
    ensures Starts(cells, p) == Starts(cells, end)
    decreases end - p
  {
    if p < end {
      NoStartInside(cells, p + 1, end);
    }
  }

  lemma {:induction false} WordChars(cells: seq<Cell>, p: nat, k: nat)
    requires p <= |cells| && p <= k < p + |Word(cells[p..])|
    ensures k < |cells| && cells[k].Chr?
    decreases |cells| - p
  {
    if p < k {
      assert cells[p..][1..] == cells[p + 1..];
      WordChars(cells, p + 1, k);
    }
  }

  lemma StartsAfterWord(cells: seq<Cell>, p: nat)
    requires p < |cells| && StartsWord(cells, p)
    ensures var end := p + |Word(cells[p..])|;
            end <= |cells| && Starts(cells, p) == [p] + Starts(cells, end)
  {
    var end := p + |Word(cells[p..])|;
    WordEnds(cells, p);
    forall k | p <= k < end ensures cells[k].Chr? {
      WordChars(cells, p, k);
    }
    NoStartInside(cells, p + 1, end);
  }

  /** The words at the given positions. */
  function Texts(cells: seq<Cell>, starts: seq<nat>): (texts: seq<string>)
    requires forall k :: 0 <= k < |starts| ==> starts[k] <= |cells|
    ensures |texts| == |starts|
    ensures forall k :: 0 <= k < |starts| ==> texts[k] == Word(cells[starts[k]..])
  {
    if starts == [] then [] else [Word(cells[starts[0]..])] + Texts(cells, starts[1..])
  }

  lemma TextsCons(cells: seq<Cell>, p: nat, starts: seq<nat>)
    requires p <= |cells| && forall k :: 0 <= k < |starts| ==> starts[k] <= |cells|
    ensures Texts(cells, [p] + starts) == [Word(cells[p..])] + Texts(cells, starts)
  {
    assert ([p] + starts)[1..] == starts;
  }

  /** The arguments are the words at the starts. */
  lemma {:induction false} WordsAtStarts(cells: seq<Cell>, p: nat)
    requires p <= |cells| && (p == 0 || p == |cells| || cells[p - 1].Gap? || cells[p].Gap?)
    ensures Words(cells[p..]) == Texts(cells, Starts(cells, p))
    decreases |cells| - p
  {
    if p < |cells| {
      if cells[p].Gap? {
        WordsAtStarts(cells, p + 1);
        assert cells[p..][1..] == cells[p + 1..];
      } else {
        var end := p + |Word(cells[p..])|;
        WordEnds(cells, p);
        StartsAfterWord(cells, p);
        WordsAtStarts(cells, end);
        assert cells[p..][end - p..] == cells[end..];
        TextsCons(cells, p, Starts(cells, end));
      }
    }
  }

  /** `memmove(&buf[p], &buf[p + 1], n)`. */
  method ShiftLeft(buf: array<char>, p: nat, n: nat)
    requires p + n < buf.Length
    modifies buf
    ensures buf[..] == old(buf[..p] + buf[p + 1..p + 1 + n] + buf[p + n..])
  {
    for k := 0 to n
      invariant forall j :: p <= j < p + k ==> buf[j] == old(buf[j + 1])
      invariant forall j :: 0 <= j < buf.Length && !(p <= j < p + k) ==> buf[j] == old(buf[j])
    {
      buf[p + k] := buf[p + k + 1];
    }
  }

  method Strlen(buf: array<char>, p: nat, ghost text: string) returns (n: nat)
    requires p + |text| < buf.Length && NUL !in text
    requires buf[p..p + |text|] == text && buf[p + |text|] == NUL
    ensures n == |text|
  {
    n := 0;
    while buf[p + n] != NUL
      invariant n <= |text|
      decreases |text| - n
    {
      assert buf[p + n] == text[n];
      n := n + 1;
    }
  }

  /** The rest of a line, still raw, lies at `p` and is followed by its terminator. */
  ghost predicate Holds(buf: seq<char>, p: nat, rest: string) {
    && p + |rest| < |buf| && NUL !in rest
    && buf[p..p + |rest|] == rest && buf[p + |rest|] == NUL
  }

  /** The first half of the loop body: replaces the cell at `cmd` by its rendering. */
  method DecodeCell(buf: array<char>, cmd: nat, ghost rest: string) returns (ghost rest': string)
    requires Holds(buf[..], cmd, rest) && rest != ""
    modifies buf
    ensures buf[..cmd] == old(buf[..cmd])
    ensures Lex(rest) != [] && buf[cmd] == Render(Lex(rest))[0]
    ensures Holds(buf[..], cmd + 1, rest') && Lex(rest') == Lex(rest)[1..] && |rest'| < |rest|
  {
    hide Lex, Render;
    FirstCell(rest);
    ghost var before := buf[..];
    HoldsFirst(before, cmd, rest);
    rest' := rest[1..];
    if buf[cmd] == '\\' && IsEscapable(buf[cmd + 1]) {
      rest' := rest[2..];
      var length := Strlen(buf, cmd, rest);
      ShiftLeft(buf, cmd, length);
      ShiftedHolds(before, buf[..], cmd, rest);
    } else if IsSeparator(buf[cmd]) {
      buf[cmd] := NUL;
      NextHolds(before, buf[..], cmd, rest);
    } else {
      NextHolds(before, buf[..], cmd, rest);
    }
  }

  /** The first cell of a line, and the line after it. */
  lemma FirstCell(rest: string)
    requires rest != ""
    ensures var escaped := rest[0] == '\\' && |rest| > 1 && IsEscapable(rest[1]);
            var cell := if escaped then rest[1] else if IsSeparator(rest[0]) then NUL else rest[0];
            && Lex(rest) != [] && Render(Lex(rest))[0] == cell
            && Lex(rest)[1..] == Lex(if escaped then rest[2..] else rest[1..])
  {
  }

  lemma HoldsFirst(buf: seq<char>, p: nat, rest: string)
    requires Holds(buf, p, rest) && rest != ""
    ensures buf[p] == rest[0] && p + 1 < |buf| && buf[p + 1] == if |rest| > 1 then rest[1] else NUL
  {
    assert buf[p..p + |rest|][0] == rest[0];
    if |rest| > 1 {
      assert buf[p..p + |rest|][1] == rest[1];
    }
  }

  lemma NextHolds(before: seq<char>, buf: seq<char>, p: nat, rest: string)
    requires Holds(before, p, rest) && rest != "" && |buf| == |before|
    requires forall k :: 0 <= k < |buf| && k != p ==> buf[k] == before[k]
    ensures buf[..p] == before[..p] && Holds(buf, p + 1, rest[1..])
  {
    assert forall k :: 0 <= k < |rest| ==> before[p..p + |rest|][k] == rest[k] == before[p + k];
  }

  lemma ShiftedHolds(before: seq<char>, buf: seq<char>, p: nat, rest: string)
    requires Holds(before, p, rest) && |rest| > 1
    requires buf == before[..p] + before[p + 1..p + 1 + |rest|] + before[p + |rest|..]
    ensures buf[..p] == before[..p] && buf[p] == rest[1] && Holds(buf, p + 1, rest[2..])
  {
    assert forall k :: 0 <= k < |rest| ==> before[p..p + |rest|][k] == rest[k] == before[p + k];
    assert forall k :: p <= k < p + |rest| ==> buf[k] == before[k + 1];
  }

  /** What is known before the cell at `cmd` is decoded. */
  ghost predicate Progress(buf: seq<char>, cells: seq<Cell>, cmd: nat, rest: string, args: seq<nat>) {
    && cmd <= |cells| && Holds(buf, cmd, rest) && Lex(rest) == cells[cmd..]
    && buf[..cmd] == Render(cells)[..cmd]
    && args + Starts(cells, cmd) == Starts(cells, 0)
    && (if args == [] then forall j :: 0 <= j < cmd ==> cells[j].Gap? else cmd > 0)
  }

  /** The loop's test for the first character of an argument is the right one. */
  lemma WordTest(buf: seq<char>, cells: seq<Cell>, cmd: nat, args: seq<nat>)
    requires cmd < |cells| && cmd < |buf| && Printable(cells)
    requires buf[..cmd + 1] == Render(cells)[..cmd + 1]
    requires if args == [] then forall j :: 0 <= j < cmd ==> cells[j].Gap? else cmd > 0
    ensures buf[cmd] != NUL && (args == [] || buf[cmd - 1] == NUL) <==> StartsWord(cells, cmd)
  {
    assert buf[cmd] == buf[..cmd + 1][cmd];
    if cmd > 0 {
      assert buf[cmd - 1] == buf[..cmd + 1][cmd - 1];
    }
  }

  lemma Advance(before: seq<char>, buf: seq<char>, cells: seq<Cell>, cmd: nat, rest: string, rest': string,
                args: seq<nat>)
    requires Progress(before, cells, cmd, rest, args) && Printable(cells)
    requires |before| == |buf| && buf[..cmd] == before[..cmd]
    requires Lex(rest) != [] && Lex(rest') == Lex(rest)[1..]
    requires Holds(buf, cmd + 1, rest') && buf[cmd] == Render(Lex(rest))[0]
    ensures cmd < |cells|
    ensures buf[cmd] != NUL && (args == [] || buf[cmd - 1] == NUL) <==> StartsWord(cells, cmd)
    ensures Progress(buf, cells, cmd + 1, rest', if StartsWord(cells, cmd) then args + [cmd] else args)
  {
    hide Lex, Render, Holds, Starts, StartsWord;
    HoldsBound(before, cmd, rest);
    AdvanceBuffer(before, buf, cells, cmd, Lex(rest));
    WordTest(buf, cells, cmd, args);
    AdvanceStarts(cells, cmd, args);
    hide Printable;
    if !StartsWord(cells, cmd) {
      StartsAreWords(cells, cmd);
    }
  }

  lemma HoldsBound(buf: seq<char>, p: nat, rest: string)
    requires Holds(buf, p, rest)
    ensures p < |buf|
  {
  }

  lemma StartsAreWords(cells: seq<Cell>, p: nat)
    requires p < |cells| && !StartsWord(cells, p)
    ensures cells[p].Gap? || (p > 0 && cells[p - 1].Chr?)
  {
  }

  lemma AdvanceStarts(cells: seq<Cell>, cmd: nat, args: seq<nat>)
    requires cmd < |cells| && args + Starts(cells, cmd) == Starts(cells, 0)
    ensures (if StartsWord(cells, cmd) then args + [cmd] else args) + Starts(cells, cmd + 1) == Starts(cells, 0)
  {
    if StartsWord(cells, cmd) {
      assert args + ([cmd] + Starts(cells, cmd + 1)) == args + [cmd] + Starts(cells, cmd + 1);
    }
  }

  lemma AdvanceBuffer(before: seq<char>, buf: seq<char>, cells: seq<Cell>, cmd: nat, tail: seq<Cell>)
    requires cmd <= |cells| && tail == cells[cmd..] && tail != []
    requires cmd < |before| == |buf| && buf[..cmd] == before[..cmd] == Render(cells)[..cmd]
    requires buf[cmd] == Render(tail)[0]
    ensures cmd < |cells| && tail[1..] == cells[cmd + 1..]
    ensures buf[..cmd + 1] == Render(cells)[..cmd + 1]
  {
    assert buf[..cmd + 1] == before[..cmd] + [buf[cmd]];
    assert Render(cells)[..cmd + 1] == Render(cells)[..cmd] + [Render(cells)[cmd]];
  }

  lemma Finished(buf: seq<char>, line: string, cmd: nat, args: seq<nat>)
    requires Progress(buf, Lex(line), cmd, "", args) && NUL !in line
    ensures |args| == |Arguments(line)|
    ensures forall k :: 0 <= k < |args| ==> args[k] <= |buf| && CString(buf, args[k]) == Arguments(line)[k]
  {
    var cells := Lex(line);
    LexPrintable(line);
    assert cmd == |cells| && cells[0..] == cells;
    WordsAtStarts(cells, 0);
    assert args == Starts(cells, 0);
    forall k | 0 <= k < |args| ensures args[k] <= |buf| && CString(buf, args[k]) == Arguments(line)[k] {
      CStringIsWord(buf, cells, args[k]);
    }
  }

  /** One more argument than the limit means that the line has too many. */
  lemma TooMany(buf: seq<char>, line: string, cmd: nat, rest: string, args: seq<nat>, max: nat)
    requires Progress(buf, Lex(line), cmd, rest, args) && |args| > max
    ensures |Arguments(line)| > max
  {
    assert Lex(line)[0..] == Lex(line);
    WordsAtStarts(Lex(line), 0);
  }

  /**
   * Splits the NUL-terminated line at the start of `buf` in place. `args` holds the offset of each
   * argument; there may be at most `max` of them.
   */
  method ParseCmd(buf: array<char>, ghost line: string, max: Byte) returns (error: Error, args: seq<nat>)
    requires Holds(buf[..], 0, line)
    modifies buf
    ensures error == if |Arguments(line)| > max then InvalidArgs else NoError
    ensures error == NoError ==>
        && |args| == |Arguments(line)|
        && forall k :: 0 <= k < |args| ==> args[k] <= buf.Length && CString(buf[..], args[k]) == Arguments(line)[k]
  {
    ghost var cells := Lex(line);
    ghost var rest := line;
    LexPrintable(line);
    args := [];
    error := NoError;
    var cmd := 0;
    assert cells[0..] == cells;
    while buf[cmd] != NUL
      invariant Progress(buf[..], cells, cmd, rest, args) && |args| <= max
      decreases |rest|
    {
      ghost var before, raw := buf[..], rest;
      rest := DecodeCell(buf, cmd, rest);
      Advance(before, buf[..], cells, cmd, raw, rest, args);
      if buf[cmd] != NUL && (|args| == 0 || buf[cmd - 1] == NUL) {
        if |args| >= max {
          TooMany(buf[..], line, cmd + 1, rest, args + [cmd], max);
          return InvalidArgs, args;
        }
        args := args + [cmd];
      }
      cmd := cmd + 1;
    }
    Finished(buf[..], line, cmd, args);
  }
}
