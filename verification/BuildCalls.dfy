/** The calls that script/update-makefiles.py makes on each build file, for any lists of file names. */
module BuildCalls {
  import opened Base
  import opened TextFiles
  import opened BuildFiles
  import opened BuildFileLaws
  import opened BuildScript

  // ---------- Formatted items ----------

  /** The format `{:<width}`. */
  function Padded(name: string, width: nat): (s: string)
    ensures |s| >= width && name <= s
    ensures NoBreak(name) ==> NoBreak(s)
    decreases width - |name|
  {
    if |name| >= width then name
    else
      assert NoBreak(name) ==> NoBreak(name + " ");
      Padded(name + " ", width)
  }

  function CMakeItem(name: string): Line {
    "    " + name + "\n"
  }

  function GnItem(indent: string, name: string): Line {
    indent + "\"" + name + "\",\n"
  }

  function MakeItem(name: string, width: nat): Line {
    "    " + Padded(name, width) + " \\\n"
  }

  function CMakeItems(names: seq<string>): Lines {
    seq(|names|, k requires 0 <= k < |names| => CMakeItem(names[k]))
  }

  function GnItems(indent: string, names: seq<string>): Lines {
    seq(|names|, k requires 0 <= k < |names| => GnItem(indent, names[k]))
  }

  function MakeItems(names: seq<string>, width: nat): Lines {
    seq(|names|, k requires 0 <= k < |names| => MakeItem(names[k], width))
  }

  function WithoutSpaces(s: string): string {
    if s == "" || s[|s| - 1] != ' ' then s else WithoutSpaces(s[..|s| - 1])
  }

  lemma {:induction false} PaddedShowsName(name: string, width: nat)
    ensures WithoutSpaces(Padded(name, width)) == WithoutSpaces(name)
    ensures |Padded(name, width)| == if |name| < width then width else |name|
    decreases width - |name|
  {
    if |name| < width {
      PaddedShowsName(name + " ", width);
      assert (name + " ")[..|name|] == name;
    }
  }

  /** Every item shows its file name in full, in a column of its own where the format sets a width. */
  lemma ItemsShowNames(name: string, indent: string, width: nat)
    requires name != "" && name[|name| - 1] != ' '
    ensures var item := CMakeItem(name); item[4..|item| - 1] == name
    ensures var item := GnItem(indent, name); item[|indent| + 1..|item| - 3] == name
    ensures var item := MakeItem(name, width);
            && |item| == 7 + (if |name| < width then width else |name|)
            && WithoutSpaces(item[4..|item| - 3]) == name
  {
    var item := MakeItem(name, width);
    PaddedShowsName(name, width);
    hide Padded;
    assert item[4..|item| - 3] == Padded(name, width);
  }

  /** File names, which hold no line breaks. */
  predicate AreNames(names: seq<string>) {
    forall k :: 0 <= k < |names| ==> NoBreak(names[k])
  }

  lemma Terminated(s: string)
    requires NoBreak(s)
    ensures IsLine(s + "\n")
  {
    assert (s + "\n")[..|s|] == s;
  }

  lemma CMakeLines(names: seq<string>)
    requires AreNames(names)
    ensures AreLines(CMakeItems(names))
  {
    forall k | 0 <= k < |names| ensures IsLine(CMakeItem(names[k])) {
      Terminated("    " + names[k]);
    }
  }

  lemma GnLines(indent: string, names: seq<string>)
    requires AreNames(names) && NoBreak(indent)
    ensures AreLines(GnItems(indent, names))
  {
    forall k | 0 <= k < |names| ensures IsLine(GnItem(indent, names[k])) {
      Terminated(indent + "\"" + names[k] + "\",");
      assert GnItem(indent, names[k]) == indent + "\"" + names[k] + "\"," + "\n";
    }
  }

  lemma MakeLines(names: seq<string>, width: nat)
    requires AreNames(names)
    ensures AreLines(MakeItems(names, width))
  {
    forall k | 0 <= k < |names| ensures IsLine(MakeItem(names[k], width)) {
      Terminated("    " + Padded(names[k], width) + " \\");
      assert MakeItem(names[k], width) == "    " + Padded(names[k], width) + " \\" + "\n";
    }
  }

  // ---------- Files with one and with two lists ----------

  /** One list of a file: a second run leaves the file as it is and writes nothing. */
  ghost predicate SettledAlone(u: Update, text: string) {
    && Run([u], text).Some?
    && Run([u], Run([u], text).value) == Run([u], text)
    && !Rewrites(u, Run([u], text).value)
  }

  lemma OneList(u: Update, text: string)
    requires AreLines(u.items) && Clean(u.items, u.end) && HasRegion(u, ReadLines(text))
    ensures SettledAlone(u, text)
  {
    assert AllSeparate(multiset([u]), ReadLines(text));
    hide AllSeparate, Run, ReadLines, AreLines, Clean;
    RunIdempotent([u], text);
  }

  ghost predicate Apart(u: Update, w: Update, lines: Lines) {
    && HasRegion(u, lines) && HasRegion(w, lines)
    && (RegionOf(u, lines).close <= RegionOf(w, lines).open || RegionOf(w, lines).close <= RegionOf(u, lines).open)
  }

  /** Two lists of one file: either order leaves the same file, and a second run writes nothing. */
  ghost predicate Settled(u: Update, w: Update, text: string) {
    && Run([u, w], text).Some?
    && Run([w, u], text) == Run([u, w], text)
    && Run([u, w], Run([u, w], text).value) == Run([u, w], text)
    && !Rewrites(u, Run([u, w], text).value) && !Rewrites(w, Run([u, w], text).value)
  }

  lemma TwoLists(u: Update, w: Update, text: string)
    requires AreLines(u.items) && AreLines(w.items) && !u.HasSearch() && !w.HasSearch()
    requires Clean(u.items, u.end) && Clean(u.items, w.start) && Clean(w.items, w.end) && Clean(w.items, u.start)
    requires Apart(u, w, ReadLines(text))
    ensures Settled(u, w, text)
  {
    hide ReadLines, AreLines, Clean, Run, Rewrites;
    var lines := ReadLines(text);
    assert IsRegion(u, lines, RegionOf(u, lines)) && IsRegion(w, lines, RegionOf(w, lines));
    hide StartsWith, Absent, HasRegion;
    assert Separate(u, w, lines) && Separate(w, u, lines);
    assert u != w;
    assert multiset([u, w]) == multiset{u, w} == multiset([w, u]);
    assert AllSeparate(multiset{u, w}, lines);
    RunOrderIrrelevant([u, w], [w, u], text);
    RunIdempotent([u, w], text);
  }

  /** Items that differ from a marker at one place are free of it. */
  lemma CleanAt(items: Lines, prefix: Line, k: nat)
    requires k < |prefix| && forall i :: 0 <= i < |items| ==> k < |items[i]| && items[i][k] != prefix[k]
    ensures Clean(items, prefix)
  {
    forall i | 0 <= i < |items| ensures !StartsWith(items[i], prefix) {
      Differs(items[i], prefix, k);
    }
  }

  // ---------- The calls ----------

  function CMakeSources(names: seq<string>): Update {
    Update("set(COMMON_SOURCES\n", ")\n", CMakeItems(names), None)
  }

  function GnSources(names: seq<string>): Update {
    Update("openthread_core_files = [\n", "]\n", GnItems("  ", names), None)
  }

  function GnPublic(names: seq<string>): Update {
    Update("  public = [\n", "  ]\n", GnItems("    ", names), None)
  }

  function AndroidSources(names: seq<string>): Update {
    Update("LOCAL_SRC_FILES                                          := \\\n", "    src/lib/hdlc/hdlc.cpp",
           MakeItems(names, 55), None)
  }

  /** One of the lists in a Makefile.am; both lists of a file have the same end marker. */
  function MakefileList(start: Line, names: seq<string>, width: nat): Update {
    Update(start, "    $(NULL)\n", MakeItems(names, width), None)
  }

  lemma CMakeIdempotent(names: seq<string>, text: string)
    requires AreNames(names) && HasRegion(CMakeSources(names), ReadLines(text))
    ensures SettledAlone(CMakeSources(names), text)
  {
    CMakeLines(names);
    CleanAt(CMakeItems(names), ")\n", 0);
    hide HasRegion, SettledAlone, ReadLines;
    OneList(CMakeSources(names), text);
  }

  /** `include/openthread/BUILD.gn` has only the public list. */
  lemma IncludeGnIdempotent(names: seq<string>, text: string)
    requires AreNames(names) && HasRegion(GnPublic(names), ReadLines(text))
    ensures SettledAlone(GnPublic(names), text)
  {
    GnLines("    ", names);
    CleanAt(GnItems("    ", names), "  ]\n", 2);
    hide HasRegion, SettledAlone, ReadLines;
    OneList(GnPublic(names), text);
  }

  /** The end marker of Android.mk is itself a file name, but not one of a core file. */
  lemma AndroidIdempotent(names: seq<string>, text: string)
    requires AreNames(names) && HasRegion(AndroidSources(names), ReadLines(text))
    requires forall k :: 0 <= k < |names| ==> "src/core" <= names[k]
    ensures SettledAlone(AndroidSources(names), text)
  {
    MakeLines(names, 55);
    forall k | 0 <= k < |names|
      ensures 8 < |MakeItems(names, 55)[k]| && MakeItems(names, 55)[k][8] != "    src/lib/hdlc/hdlc.cpp"[8]
    {
      MakeItemAt(names[k], 55, 4);
      assert names[k][4] == "src/core"[4];
    }
    CleanAt(MakeItems(names, 55), "    src/lib/hdlc/hdlc.cpp", 8);
    hide HasRegion, SettledAlone, ReadLines;
    OneList(AndroidSources(names), text);
  }

  lemma MakeItemAt(name: string, width: nat, k: nat)
    requires k < |Padded(name, width)|
    ensures 4 + k < |MakeItem(name, width)| && MakeItem(name, width)[4 + k] == Padded(name, width)[k]
    ensures k < |name| ==> Padded(name, width)[k] == name[k]
  {
  }

  lemma CoreGnSettled(sources: seq<string>, headers: seq<string>, text: string)
    requires AreNames(sources) && AreNames(headers)
    requires Apart(GnSources(sources), GnPublic(headers), ReadLines(text))
    ensures Settled(GnSources(sources), GnPublic(headers), text)
  {
    GnLines("  ", sources);
    GnLines("    ", headers);
    CleanAt(GnItems("  ", sources), "]\n", 0);
    CleanAt(GnItems("  ", sources), "  public = [\n", 2);
    CleanAt(GnItems("    ", headers), "  ]\n", 2);
    CleanAt(GnItems("    ", headers), "openthread_core_files = [\n", 0);
    hide Apart, Settled, ReadLines;
    TwoLists(GnSources(sources), GnPublic(headers), text);
  }

  lemma MakefileClean(names: seq<string>, width: nat, start: Line)
    requires AreNames(names) && width > 7 && start != "" && start[0] != ' '
    ensures Clean(MakeItems(names, width), "    $(NULL)\n") && Clean(MakeItems(names, width), start)
  {
    forall k | 0 <= k < |names|
      ensures 11 < |MakeItems(names, width)[k]| && MakeItems(names, width)[k][11] != "    $(NULL)\n"[11]
    {
      MakeItemAt(names[k], width, 7);
    }
    CleanAt(MakeItems(names, width), "    $(NULL)\n", 11);
    CleanAt(MakeItems(names, width), start, 0);
  }

  /** The two lists of a Makefile.am, for start markers that no indented line can match. */
  lemma MakefileSettled(first: Line, second: Line, sources: seq<string>, headers: seq<string>, width: nat, text: string)
    requires AreNames(sources) && AreNames(headers) && width > 7
    requires first != "" && first[0] != ' ' && second != "" && second[0] != ' '
    requires Apart(MakefileList(first, sources, width), MakefileList(second, headers, width), ReadLines(text))
    ensures Settled(MakefileList(first, sources, width), MakefileList(second, headers, width), text)
  {
    MakeLines(sources, width);
    MakeLines(headers, width);
    MakefileClean(sources, width, second);
    MakefileClean(headers, width, first);
    hide Apart, Settled, ReadLines, MakeItems;
    TwoLists(MakefileList(first, sources, width), MakefileList(second, headers, width), text);
  }

  const SOURCES_START: Line := "SOURCES_COMMON" + "                                  = \\\n"
  const HEADERS_START: Line := "HEADERS_COMMON" + "                                  = \\\n"
  const API_START: Line := "openthread_headers                      = \\\n"
  const PLATFORM_START: Line := "ot_platform_headers                     = \\\n"

  lemma CoreMakefileSettled(sources: seq<string>, headers: seq<string>, text: string)
    requires AreNames(sources) && AreNames(headers)
    requires var u := MakefileList(SOURCES_START, sources, 45);
             var w := MakefileList(HEADERS_START, headers, 45);
             Apart(u, w, ReadLines(text))
    ensures var u := MakefileList(SOURCES_START, sources, 45);
            var w := MakefileList(HEADERS_START, headers, 45);
            Settled(u, w, text)
  {
    hide Apart, Settled, ReadLines, MakefileList;
    assert SOURCES_START[0] == 'S' && HEADERS_START[0] == 'H';
    MakefileSettled(SOURCES_START, HEADERS_START, sources, headers, 45, text);
  }

  lemma IncludeMakefileSettled(api: seq<string>, platform: seq<string>, text: string)
    requires AreNames(api) && AreNames(platform)
    requires var u := MakefileList(API_START, api, 37);
             var w := MakefileList(PLATFORM_START, platform, 37);
             Apart(u, w, ReadLines(text))
    ensures var u := MakefileList(API_START, api, 37);
            var w := MakefileList(PLATFORM_START, platform, 37);
            Settled(u, w, text)
  {
    hide Apart, Settled, ReadLines, MakefileList;
    assert API_START[0] == 'o' && PLATFORM_START[0] == 'o';
    MakefileSettled(API_START, PLATFORM_START, api, platform, 37, text);
  }
}
