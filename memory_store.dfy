/**
 * Where the server keeps its memory files, and the `memory_update` tool that
 * appends entries to one of them.
 *
 * When the directory `../.augment/rules` exists (the server runs inside an
 * Augment workspace) memories live there, in `mcp-memory.md`; otherwise they
 * live in `.mcp/memory`, in `project.mdc`. The directory names are normalised
 * relative paths, so `path.join` of them is plain concatenation with `/`.
 */
module MemoryStore {
  import opened Common
  import opened FileSystem
  import opened MemorySuggest

  /** The marker `getMemoryDir`'s callers look for in the directory name. */
  const AugmentMarker: string := ".augment"
  const AugmentRulesDir: string := ".." + AugmentMarker + "/rules"
  const UniversalMemoryDir: string := ".mcp/memory"
  const AugmentMemoryFile: string := "mcp-memory.md"
  const UniversalMemoryFile: string := "project.mdc"

  /** `getMemoryDir()`, given whether `../.augment/rules` exists at the moment of the call. */
  function MemoryDir(augmentRulesExist: bool): string {
    if augmentRulesExist then AugmentRulesDir else UniversalMemoryDir
  }

  datatype Mode = Augment | Mcp

  /** `memDir.includes('.augment') ? 'Augment' : 'MCP'` */
  function ModeOf(memDir: string): Mode {
    if Contains(memDir, AugmentMarker) then Augment else Mcp
  }

  /** `getDefaultMemoryFile()` */
  function DefaultMemoryFile(augmentRulesExist: bool): string {
    var dir := MemoryDir(augmentRulesExist);
    dir + "/" + (if ModeOf(dir) == Augment then AugmentMemoryFile else UniversalMemoryFile)
  }

  /** The mode is Augment exactly when the Augment rules directory exists. */
  lemma ModeOfMemoryDir(augmentRulesExist: bool)
    ensures ModeOf(MemoryDir(augmentRulesExist)) == (if augmentRulesExist then Augment else Mcp)
  {
    if augmentRulesExist {
      assert AugmentRulesDir[2..2 + |AugmentMarker|] == AugmentMarker;
      ContainsAt(AugmentRulesDir, AugmentMarker, 2);
    } else if Contains(UniversalMemoryDir, AugmentMarker) {
      ContainsNeedsAll(UniversalMemoryDir, AugmentMarker, 1);
      assert false;
    }
  }

  /** The default file is `mcp-memory.md` in an Augment workspace and `project.mdc` otherwise, inside the memory directory. */
  lemma DefaultMemoryFiles(augmentRulesExist: bool)
    ensures DefaultMemoryFile(augmentRulesExist)
         == MemoryDir(augmentRulesExist) + "/" + (if augmentRulesExist then AugmentMemoryFile else UniversalMemoryFile)
  {
    ModeOfMemoryDir(augmentRulesExist);
  }

  /** Every character of an occurring needle occurs in the string. */
  lemma ContainsNeedsAll(s: string, sub: string, k: nat)
    requires k < |sub| && Contains(s, sub)
    ensures sub[k] in s
    decreases |s|
  {
    if StartsWith(s, sub) {
      assert s[k] == sub[k];
    } else {
      ContainsNeedsAll(s[1..], sub, k);
    }
  }

  // ---------------------------------------------------------------------------
  // memory_update

  /** An entry handed to `memory_update`: its `type` and its `text`. */
  datatype UpdateEntry = UpdateEntry(kind: string, text: string)

  /** `'- [' + e.type + '] ' + e.text` */
  function RenderEntry(e: UpdateEntry): string {
    "- [" + e.kind + "] " + e.text
  }

  /** `lines.join('\n') + '\n'`: what one call appends to the memory file. */
  function AppendedText(entries: seq<UpdateEntry>): string {
    Join(Map(entries, RenderEntry), "\n") + "\n"
  }

  /** `file || getDefaultMemoryFile()`: an absent or empty `file` falls back to the default. */
  function TargetFile(file: Option<string>, augmentRulesExist: bool): (f: string)
    ensures file.Some? && file.value != "" ==> f == file.value
    ensures file.None? || file.value == "" ==> f == DefaultMemoryFile(augmentRulesExist)
  {
    if file.Some? && file.value != "" then file.value else DefaultMemoryFile(augmentRulesExist)
  }

  /** What `memory_update` reports: the number of lines written, the file, and the mode. */
  datatype UpdateReport = UpdateReport(count: nat, file: string, mode: Mode)

  /** The contents of `f`, the empty text when it does not exist yet (append creates it). */
  function ContentsOf(contents: map<string, string>, f: string): string {
    if f in contents then contents[f] else ""
  }

  /** The part of the working tree `memory_update` touches: existing directories and file contents. */
  class Workspace {
    var dirs: set<string>
    var contents: map<string, string>

    constructor (dirs: set<string>, contents: map<string, string>)
      ensures this.dirs == dirs && this.contents == contents
    {
      this.dirs := dirs;
      this.contents := contents;
    }

    /** The memory directory `getMemoryDir()` picks in the current state. */
    function CurrentMemoryDir(): string
      reads this
    {
      MemoryDir(AugmentRulesDir in dirs)
    }

    /**
     * The `memory_update` handler: pick the file, create its directory,
     * append the rendered entries, then look up the memory directory again to
     * name the mode. The mode is Augment when the rules directory existed
     * before the call or the call itself created it.
     */
    method MemoryUpdate(ops: PathOps, entries: seq<UpdateEntry>, file: Option<string>) returns (report: UpdateReport)
      modifies this
      ensures report.file == TargetFile(file, AugmentRulesDir in old(dirs))
      ensures dirs == old(dirs) + {ops.dirname(report.file)}
      ensures contents == old(contents)[report.file := ContentsOf(old(contents), report.file) + AppendedText(entries)]
      ensures report.count == |entries|
      ensures report.mode == Augment <==> AugmentRulesDir in old(dirs) || ops.dirname(report.file) == AugmentRulesDir
    {
      var f := TargetFile(file, AugmentRulesDir in dirs);
      dirs := dirs + {ops.dirname(f)};
      var lines := Map(entries, RenderEntry);
      var appended := Join(lines, "\n") + "\n";
      contents := contents[f := ContentsOf(contents, f) + appended];
      var memDir := CurrentMemoryDir();
      ModeAfterCreate(old(dirs), ops.dirname(f));
      report := UpdateReport(|lines|, f, ModeOf(memDir));
    }
  }

  /** Creating directory `d` switches the mode to Augment exactly when `d` is the rules directory. */
  lemma ModeAfterCreate(dirs: set<string>, d: string)
    ensures ModeOf(MemoryDir(AugmentRulesDir in dirs + {d})) == Augment <==> AugmentRulesDir in dirs || d == AugmentRulesDir
  {
    ModeOfMemoryDir(AugmentRulesDir in dirs + {d});
  }

  // ---------------------------------------------------------------------------
  // Properties of the appended text

  /** A call with no entries appends a lone newline. */
  lemma NoEntriesAppendNewline()
    ensures AppendedText([]) == "\n"
  {
  }

  /**
   * The appended text splits back, on newline runs, into the rendered lines
   * (and the empty piece after the final newline) when no type or text holds
   * a newline.
   */
  lemma AppendedLinesSplitBack(entries: seq<UpdateEntry>)
    requires |entries| >= 1
    requires forall e :: e in entries ==> '\n' !in e.kind && '\n' !in e.text
    ensures SplitNewlineRuns(AppendedText(entries)) == Map(entries, RenderEntry) + [""]
  {
    var lines := Map(entries, RenderEntry);
    forall l | l in lines ensures l != [] && '\n' !in l {
      var k :| 0 <= k < |lines| && lines[k] == l;
      var e := entries[k];
      assert e in entries && lines[k] == RenderEntry(e);
      assert l == "- [" + e.kind + "] " + e.text;
      assert l[0] == '-';
    }
    SplitJoinedLines(lines);
  }

  /** Rendering loses nothing: two entries whose types hold no `]` render alike only when they are equal. */
  lemma RenderEntryInjective(a: UpdateEntry, b: UpdateEntry)
    requires ']' !in a.kind && ']' !in b.kind
    requires RenderEntry(a) == RenderEntry(b)
    ensures a == b
  {
    if |a.kind| < |b.kind| {
      KindEnds(a, b);
    } else if |b.kind| < |a.kind| {
      KindEnds(b, a);
    }
    var r := RenderEntry(a);
    var n := |a.kind|;
    assert r[3..3 + n] == a.kind && RenderEntry(b)[3..3 + n] == b.kind;
    assert r[3 + n + 2..] == a.text && RenderEntry(b)[3 + n + 2..] == b.text;
  }

  /** The `]` that closes a shorter type falls inside a longer one, which holds no `]`. */
  lemma KindEnds(a: UpdateEntry, b: UpdateEntry)
    requires ']' !in b.kind && |a.kind| < |b.kind|
    ensures RenderEntry(a) != RenderEntry(b)
  {
    var n := |a.kind|;
    assert RenderEntry(a)[3 + n] == ']';
    assert RenderEntry(b)[3 + n] == b.kind[n];
  }
}
