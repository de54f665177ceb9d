/**
 * The `memory_suggest` tool: proposes memory entries from free text.
 *
 * The text is split on runs of newlines, each piece is trimmed and blank
 * pieces are dropped. A line mentioning a decision, rule, note, todo or
 * guideline becomes a `note` entry; one mentioning an API, endpoint, config
 * or path becomes a `config` entry (a line can yield both). Entries are then
 * deduplicated by text, the first one winning.
 */
module MemorySuggest {
  import opened Common

  // ---------------------------------------------------------------------------
  // Lines

  /** The code points `String.prototype.trim` removes: ECMAScript WhiteSpace and LineTerminator. */
  predicate IsTrimmable(c: char) {
    var n := c as int;
    n == 0x09 || n == 0x0A || n == 0x0B || n == 0x0C || n == 0x0D || n == 0x20 || n == 0xA0
    || n == 0x1680 || (0x2000 <= n <= 0x200A) || n == 0x2028 || n == 0x2029 || n == 0x202F
    || n == 0x205F || n == 0x3000 || n == 0xFEFF
  }

  function TrimStart(s: string): (r: string)
    ensures |r| <= |s| && r == s[|s| - |r|..]
    ensures forall k :: 0 <= k < |s| - |r| ==> IsTrimmable(s[k])
    ensures r != [] ==> !IsTrimmable(r[0])
  {
    if s != [] && IsTrimmable(s[0]) then TrimStart(s[1..]) else s
  }

  function TrimEnd(s: string): (r: string)
    ensures |r| <= |s| && r == s[..|r|]
    ensures forall k :: |r| <= k < |s| ==> IsTrimmable(s[k])
    ensures r != [] ==> !IsTrimmable(r[|r| - 1])
  {
    if s != [] && IsTrimmable(s[|s| - 1]) then TrimEnd(s[..|s| - 1]) else s
  }

  /**
   * `s.trim()`: the block of `s` between its leading and its trailing white
   * space. What is cut before the result (`TrimStart`) and after it is all
   * white space, and the result neither starts nor ends with any.
   */
  function Trim(s: string): (r: string)
    ensures r != [] ==> !IsTrimmable(r[0]) && !IsTrimmable(r[|r| - 1])
    ensures r == [] <==> forall k :: 0 <= k < |s| ==> IsTrimmable(s[k])
    ensures |r| <= |TrimStart(s)| && r == TrimStart(s)[..|r|]
    ensures forall k :: |s| - |TrimStart(s)| + |r| <= k < |s| ==> IsTrimmable(s[k])
  {
    var t := TrimStart(s);
    var r := TrimEnd(t);
    assert r != [] ==> r[0] == t[0];
    assert r == [] ==> t == [];
    CutAfterIsTrimmable(s, t, r);
    r
  }

  /** What `TrimEnd` cuts from the suffix `t` of `s` is also the tail of `s`. */
  lemma CutAfterIsTrimmable(s: string, t: string, r: string)
    requires |t| <= |s| && t == s[|s| - |t|..]
    requires |r| <= |t| && forall k :: |r| <= k < |t| ==> IsTrimmable(t[k])
    ensures forall k :: |s| - |t| + |r| <= k < |s| ==> IsTrimmable(s[k])
  {
    forall k | |s| - |t| + |r| <= k < |s|
      ensures IsTrimmable(s[k])
    {
      assert s[k] == t[k - (|s| - |t|)];
    }
  }

  /** Trimming removes characters and adds none. */
  lemma TrimmedFrom(s: string, c: char)
    requires c in Trim(s)
    ensures c in s
  {
    var r, t := Trim(s), TrimStart(s);
    var j :| 0 <= j < |r| && r[j] == c;
    assert r == t[..|r|] && t == s[|s| - |t|..];
    assert t[j] == c;
    assert s[|s| - |t| + j] == c;
  }

  /** Drops the newlines a string starts with. */
  function DropNewlines(s: string): (r: string)
    ensures |r| <= |s| && r == s[|s| - |r|..]
    ensures r == [] || r[0] != '\n'
    ensures s != [] && s[0] == '\n' ==> |r| < |s|
  {
    if s != [] && s[0] == '\n' then DropNewlines(s[1..]) else s
  }

  /** `s.split(/\n+/)`: the pieces between runs of newlines. */
  function SplitNewlineRuns(s: string): (pieces: seq<string>)
    ensures |pieces| >= 1
    ensures forall p :: p in pieces ==> '\n' !in p
    decreases |s|
  {
    if s == [] then [""]
    else if s[0] == '\n' then [""] + SplitNewlineRuns(DropNewlines(s))
    else
      var rest := SplitNewlineRuns(s[1..]);
      assert forall p :: p in rest[1..] ==> p in rest;
      [[s[0]] + rest[0]] + rest[1..]
  }

  /** `s` with every run of newlines replaced by a single newline. */
  function CollapseNewlines(s: string): string
    decreases |s|
  {
    if s == [] then []
    else if s[0] == '\n' then "\n" + CollapseNewlines(DropNewlines(s))
    else [s[0]] + CollapseNewlines(s[1..])
  }

  lemma JoinConsHead(c: char, parts: seq<string>, sep: string)
    requires |parts| >= 1
    ensures Join([[c] + parts[0]] + parts[1..], sep) == [c] + Join(parts, sep)
  {
    var q := [[c] + parts[0]] + parts[1..];
    if |parts| > 1 {
      assert q[1..] == parts[1..];
    }
  }

  /** A first character that is not a newline joins the first piece of the rest. */
  lemma SplitCons(c: char, s: string)
    requires c != '\n'
    ensures SplitNewlineRuns([c] + s) == [[c] + SplitNewlineRuns(s)[0]] + SplitNewlineRuns(s)[1..]
  {
    assert ([c] + s)[0] == c && ([c] + s)[1..] == s;
  }

  /** Splitting loses only the length of each newline run: joining the pieces back gives the collapsed text. */
  lemma {:induction false} SplitThenJoin(s: string)
    ensures Join(SplitNewlineRuns(s), "\n") == CollapseNewlines(s)
    decreases |s|
  {
    if s == [] {
    } else if s[0] == '\n' {
      var t := DropNewlines(s);
      SplitThenJoin(t);
      assert SplitNewlineRuns(s) == [""] + SplitNewlineRuns(t);
      assert CollapseNewlines(s) == "\n" + CollapseNewlines(t);
      JoinAfterEmpty(SplitNewlineRuns(t));
    } else {
      var t := s[1..];
      assert s == [s[0]] + t;
      SplitThenJoin(t);
      SplitCons(s[0], t);
      assert CollapseNewlines(s) == [s[0]] + CollapseNewlines(t);
      JoinConsHead(s[0], SplitNewlineRuns(t), "\n");
    }
  }

  lemma JoinAfterEmpty(parts: seq<string>)
    requires |parts| >= 1
    ensures Join([""] + parts, "\n") == "\n" + Join(parts, "\n")
  {
    assert ([""] + parts)[1..] == parts;
  }

  lemma {:induction false} SplitAfterLine(p: string, t: string)
    requires p != [] && '\n' !in p
    ensures SplitNewlineRuns(p + t) == [p + SplitNewlineRuns(t)[0]] + SplitNewlineRuns(t)[1..]
    decreases |p|
  {
    var rest := p[1..] + t;
    assert p[0] in p;
    assert p + t == [p[0]] + rest;
    SplitCons(p[0], rest);
    if |p| > 1 {
      assert forall c :: c in p[1..] ==> c in p;
      SplitAfterLine(p[1..], t);
      assert [p[0]] + (p[1..] + SplitNewlineRuns(t)[0]) == p + SplitNewlineRuns(t)[0];
    } else {
      assert rest == t && p == [p[0]];
    }
  }

  lemma SplitAfterNewline(t: string)
    requires t == [] || t[0] != '\n'
    ensures SplitNewlineRuns("\n" + t) == [""] + SplitNewlineRuns(t)
  {
    var s := "\n" + t;
    assert s[1..] == t;
    assert DropNewlines(s) == DropNewlines(t) == t;
  }

  /** A newline-free line, a newline, and a tail that does not start with one: the line is the first piece. */
  lemma SplitLineNewline(p: string, t: string)
    requires p != [] && '\n' !in p
    requires t == [] || t[0] != '\n'
    ensures SplitNewlineRuns(p + "\n" + t) == [p] + SplitNewlineRuns(t)
  {
    SplitAfterNewline(t);
    var sp := SplitNewlineRuns("\n" + t);
    assert sp[0] == "" && sp[1..] == SplitNewlineRuns(t);
    assert p + "\n" + t == p + ("\n" + t);
    SplitAfterLine(p, "\n" + t);
    assert p + "" == p;
  }

  /**
   * The inverse of joining lines: text made of non-empty, newline-free lines,
   * each followed by a newline, splits back into those lines and one empty
   * piece after the final newline.
   */
  lemma {:induction false} SplitJoinedLines(lines: seq<string>)
    requires |lines| >= 1
    requires forall l :: l in lines ==> l != [] && '\n' !in l
    ensures SplitNewlineRuns(Join(lines, "\n") + "\n") == lines + [""]
    decreases |lines|
  {
    var l0 := lines[0];
    assert l0 in lines;
    if |lines| == 1 {
      assert Join(lines, "\n") + "\n" == l0 + "\n" + "";
      SplitLineNewline(l0, "");
      assert SplitNewlineRuns("") == [""];
    } else {
      var rest := lines[1..];
      assert forall l :: l in rest ==> l in lines;
      var tail := Join(rest, "\n") + "\n";
      SplitJoinedLines(rest);
      assert rest[0] in lines;
      JoinedStartsOnLine(rest);
      assert Join(lines, "\n") + "\n" == l0 + "\n" + tail;
      SplitLineNewline(l0, tail);
      assert lines == [l0] + rest;
    }
  }

  /** Joined lines followed by a newline start with the first line's first character, never a newline. */
  lemma JoinedStartsOnLine(lines: seq<string>)
    requires |lines| >= 1 && lines[0] != [] && '\n' !in lines[0]
    ensures var t := Join(lines, "\n") + "\n"; t != [] && t[0] != '\n'
  {
    JoinStartsWithFirst(lines, "\n");
    assert lines[0][0] in lines[0];
    assert (Join(lines, "\n") + "\n")[0] == lines[0][0];
  }

  lemma JoinStartsWithFirst(parts: seq<string>, sep: string)
    requires |parts| >= 1
    ensures |parts[0]| <= |Join(parts, sep)| && Join(parts, sep)[..|parts[0]|] == parts[0]
  {
  }

  function NonEmpty(s: string): bool { s != "" }

  /** `String(text || '').split(/\n+/).map(s => s.trim()).filter(Boolean)` */
  function Lines(text: string): seq<string> {
    Filter(Map(SplitNewlineRuns(text), Trim), NonEmpty)
  }

  /** Every line is non-blank, newline-free and trimmed at both ends. */
  lemma LineShape(text: string, l: string)
    requires l in Lines(text)
    ensures l != [] && '\n' !in l
    ensures !IsTrimmable(l[0]) && !IsTrimmable(l[|l| - 1])
  {
    var p := LinePiece(text, l);
    if '\n' in l {
      TrimmedFrom(p, '\n');
    }
  }

  /** The piece of the split a line is the trimmed form of. */
  lemma LinePiece(text: string, l: string) returns (p: string)
    requires l in Lines(text)
    ensures p in SplitNewlineRuns(text) && l == Trim(p) && l != []
  {
    var pieces := SplitNewlineRuns(text);
    var trimmed := Map(pieces, Trim);
    assert l in trimmed && NonEmpty(l);
    var k :| 0 <= k < |trimmed| && trimmed[k] == l;
    p := pieces[k];
  }

  // ---------------------------------------------------------------------------
  // Classification

  function AsciiLower(c: char): char {
    if 'A' <= c <= 'Z' then (c as int + 32) as char else c
  }

  function AsciiUpper(c: char): char {
    if 'a' <= c <= 'z' then (c as int - 32) as char else c
  }

  /**
   * The keyword patterns are ASCII, and a case-insensitive non-Unicode regular
   * expression matches an ASCII letter only by that letter in either case, so
   * the matching is substring search in the ASCII-lowered line.
   */
  predicate MentionsWord(line: string, word: string) {
    Contains(Map(line, AsciiLower), word)
  }

  /** `/(decision|rule|note|todo|guideline)/i.test(line)` */
  predicate IsNoteLine(line: string) {
    MentionsWord(line, "decision") || MentionsWord(line, "rule") || MentionsWord(line, "note")
    || MentionsWord(line, "todo") || MentionsWord(line, "guideline")
  }

  /** `/(API|endpoint|config|path)/i.test(line)` */
  predicate IsConfigLine(line: string) {
    MentionsWord(line, "api") || MentionsWord(line, "endpoint") || MentionsWord(line, "config")
    || MentionsWord(line, "path")
  }

  predicate IsMemoryLine(line: string) {
    IsNoteLine(line) || IsConfigLine(line)
  }

  /** Classification ignores letter case: upper-casing a line changes neither test. */
  lemma ClassificationIgnoresCase(line: string)
    ensures IsNoteLine(Map(line, AsciiUpper)) == IsNoteLine(line)
    ensures IsConfigLine(Map(line, AsciiUpper)) == IsConfigLine(line)
  {
    assert Map(Map(line, AsciiUpper), AsciiLower) == Map(line, AsciiLower);
  }

  // ---------------------------------------------------------------------------
  // Entries

  datatype Kind = Note | Config

  datatype MemoryEntry = MemoryEntry(kind: Kind, text: string, tags: seq<string>)

  const AutoTags: seq<string> := ["auto"]

  /** The entries the loop pushes for one line: a note first, then a config. */
  function LineEntries(line: string): seq<MemoryEntry> {
    (if IsNoteLine(line) then [MemoryEntry(Note, line, AutoTags)] else [])
    + (if IsConfigLine(line) then [MemoryEntry(Config, line, AutoTags)] else [])
  }

  /** The `entries` array after the classification loop. */
  function Classify(lines: seq<string>): seq<MemoryEntry> {
    if lines == [] then [] else Classify(lines[..|lines| - 1]) + LineEntries(lines[|lines| - 1])
  }

  function TextOf(e: MemoryEntry): string { e.text }

  /** The `dedup` array: an entry is kept when no earlier entry has its text. */
  function Dedup(es: seq<MemoryEntry>): seq<MemoryEntry> {
    if es == [] then []
    else
      var init, last := es[..|es| - 1], es[|es| - 1];
      Dedup(init) + (if last.text in Map(init, TextOf) then [] else [last])
  }

  /** The first occurrence of each element, in order. */
  function Distinct(s: seq<string>): seq<string> {
    if s == [] then []
    else
      var init, last := s[..|s| - 1], s[|s| - 1];
      Distinct(init) + (if last in init then [] else [last])
  }

  /** The entry a memory line ends up as: a note when it qualifies as one, else a config. */
  function ToEntry(line: string): MemoryEntry {
    MemoryEntry(if IsNoteLine(line) then Note else Config, line, AutoTags)
  }

  /** What `memory_suggest` returns, stated line by line. */
  function Suggestions(text: string): seq<MemoryEntry> {
    Map(Distinct(Filter(Lines(text), IsMemoryLine)), ToEntry)
  }

  /** The `memory_suggest` handler: a classification loop, then a dedup loop over a `seen` set. */
  method SuggestMemories(text: string) returns (dedup: seq<MemoryEntry>)
    ensures dedup == Suggestions(text)
  {
    var lines := Lines(text);
    var entries := ClassifyLines(lines);
    dedup := DedupByText(entries);
    StagesAreSuggestions(lines);
  }

  /** The first loop of the handler: one note and/or one config entry per line. */
  method ClassifyLines(lines: seq<string>) returns (entries: seq<MemoryEntry>)
    ensures entries == Classify(lines)
  {
    entries := [];
    for i := 0 to |lines|
      invariant entries == Classify(lines[..i])
    {
      ClassifyStep(lines, i);
      var l := lines[i];
      if IsNoteLine(l) {
        entries := entries + [MemoryEntry(Note, l, AutoTags)];
      }
      if IsConfigLine(l) {
        entries := entries + [MemoryEntry(Config, l, AutoTags)];
      }
    }
    assert lines[..|lines|] == lines;
  }

  lemma ClassifyStep(lines: seq<string>, i: nat)
    requires i < |lines|
    ensures Classify(lines[..i + 1]) == Classify(lines[..i]) + LineEntries(lines[i])
  {
    assert lines[..i + 1][..i] == lines[..i];
  }

  /** The second loop of the handler: keeps an entry when its text is not in `seen`, then adds the text. */
  method DedupByText(entries: seq<MemoryEntry>) returns (dedup: seq<MemoryEntry>)
    ensures dedup == Dedup(entries)
  {
    var seen: set<string> := {};
    dedup := [];
    for i := 0 to |entries|
      invariant dedup == Dedup(entries[..i])
      invariant forall t :: t in seen <==> t in Map(entries[..i], TextOf)
    {
      assert entries[..i + 1] == entries[..i] + [entries[i]];
      DedupAppendOne(entries[..i], entries[i]);
      MapSnoc(entries[..i], entries[i], TextOf);
      var e := entries[i];
      if e.text !in seen {
        seen := seen + {e.text};
        dedup := dedup + [e];
      }
    }
    assert entries[..|entries|] == entries;
  }

  // ---------------------------------------------------------------------------
  // Properties

  lemma {:induction false} ClassifiedTexts(lines: seq<string>)
    ensures forall t :: t in Map(Classify(lines), TextOf) <==> t in lines && IsMemoryLine(t)
    decreases |lines|
  {
    if lines != [] {
      var init, last := lines[..|lines| - 1], lines[|lines| - 1];
      ClassifiedTexts(init);
      MapAppend(Classify(init), LineEntries(last), TextOf);
      assert lines == init + [last];
      LineEntriesTexts(last);
    }
  }

  lemma LineEntriesTexts(line: string)
    ensures forall t :: t in Map(LineEntries(line), TextOf) <==> t == line && IsMemoryLine(line)
  {
    var n, c := MemoryEntry(Note, line, AutoTags), MemoryEntry(Config, line, AutoTags);
    if IsNoteLine(line) && IsConfigLine(line) {
      assert Map(LineEntries(line), TextOf) == [line, line];
    } else if IsNoteLine(line) {
      assert LineEntries(line) == [n];
      assert Map([n], TextOf) == [line];
    } else if IsConfigLine(line) {
      assert LineEntries(line) == [c];
      assert Map([c], TextOf) == [line];
    } else {
      assert Map(LineEntries(line), TextOf) == [];
    }
  }

  lemma DedupAppendOne(es: seq<MemoryEntry>, e: MemoryEntry)
    ensures Dedup(es + [e]) == Dedup(es) + (if e.text in Map(es, TextOf) then [] else [e])
  {
    assert (es + [e])[..|es|] == es;
  }

  /** One more line, classified and deduplicated: its entry is added when it is a memory line not met before. */
  lemma DedupClassifyStep(init: seq<string>, last: string)
    ensures Dedup(Classify(init + [last]))
         == Dedup(Classify(init)) + (if IsMemoryLine(last) && last !in Map(Classify(init), TextOf) then [ToEntry(last)] else [])
  {
    var x := Classify(init);
    assert (init + [last])[..|init|] == init;
    assert Classify(init + [last]) == x + LineEntries(last);
    var n, c := MemoryEntry(Note, last, AutoTags), MemoryEntry(Config, last, AutoTags);
    if IsNoteLine(last) && IsConfigLine(last) {
      assert LineEntries(last) == [n, c];
      assert x + [n, c] == (x + [n]) + [c];
      DedupAppendOne(x, n);
      DedupAppendOne(x + [n], c);
      MapSnoc(x, n, TextOf);
      assert last in Map(x + [n], TextOf);
      assert ToEntry(last) == n;
    } else if IsNoteLine(last) {
      DedupAppendOne(x, n);
    } else if IsConfigLine(last) {
      DedupAppendOne(x, c);
    } else {
      assert x + [] == x;
    }
  }

  /** One more line, filtered and made distinct. */
  lemma DistinctFilterStep(init: seq<string>, last: string, keep: string -> bool)
    ensures Map(Distinct(Filter(init + [last], keep)), ToEntry)
         == Map(Distinct(Filter(init, keep)), ToEntry)
            + (if keep(last) && last !in Filter(init, keep) then [ToEntry(last)] else [])
  {
    var f := Filter(init, keep);
    FilterSnoc(init, last, keep);
    if keep(last) {
      assert (f + [last])[..|f|] == f;
      if last !in f {
        MapSnoc(Distinct(f), last, ToEntry);
      }
    } else {
      assert f + [] == f;
    }
  }

  /**
   * The two loops compute the line-by-line description: deduplicating the
   * classified entries keeps, for each distinct memory line, one entry, a
   * note when the line qualifies as both.
   */
  lemma {:induction false} StagesAreSuggestions(lines: seq<string>)
    ensures Dedup(Classify(lines)) == Map(Distinct(Filter(lines, IsMemoryLine)), ToEntry)
    decreases |lines|
  {
    if lines != [] {
      var init, last := lines[..|lines| - 1], lines[|lines| - 1];
      assert lines == init + [last];
      StagesAreSuggestions(init);
      ClassifiedTexts(init);
      DedupClassifyStep(init, last);
      DistinctFilterStep(init, last, IsMemoryLine);
    }
  }

  /** Distinct keeps every element and adds none. */
  lemma {:induction false} DistinctMembers(s: seq<string>)
    ensures forall x :: x in Distinct(s) <==> x in s
    decreases |s|
  {
    if s != [] {
      var init, last := s[..|s| - 1], s[|s| - 1];
      DistinctMembers(init);
      assert s == init + [last];
    }
  }

  /** Distinct keeps each element once. */
  lemma {:induction false} DistinctHasNoDuplicates(s: seq<string>)
    ensures NoDuplicates(Distinct(s))
    decreases |s|
  {
    if s != [] {
      var init, last := s[..|s| - 1], s[|s| - 1];
      DistinctHasNoDuplicates(init);
      if last !in init {
        DistinctMembers(init);
        assert last !in Distinct(init);
      }
    }
  }

  /** Distinct leaves a duplicate-free sequence unchanged. */
  lemma {:induction false} DistinctKeepsDuplicateFree(s: seq<string>)
    requires NoDuplicates(s)
    ensures Distinct(s) == s
    decreases |s|
  {
    if s != [] {
      var init, last := s[..|s| - 1], s[|s| - 1];
      assert s == init + [last];
      forall i | 0 <= i < |init| ensures init[i] != last {
        assert init[i] == s[i];
      }
      forall i, j | 0 <= i < j < |init| ensures init[i] != init[j] {
        assert init[i] == s[i] && init[j] == s[j];
      }
      DistinctKeepsDuplicateFree(init);
    }
  }

  /**
   * What `memory_suggest` promises: entries have pairwise distinct texts; a
   * text is proposed exactly when it is a line of the input that mentions one
   * of the keywords; the entry is a note exactly when the line qualifies as
   * one; every entry is tagged `auto`.
   */
  lemma SuggestionsSpec(text: string)
    ensures forall i, j :: 0 <= i < j < |Suggestions(text)| ==> Suggestions(text)[i].text != Suggestions(text)[j].text
    ensures forall t :: t in Map(Suggestions(text), TextOf) <==> t in Lines(text) && IsMemoryLine(t)
    ensures forall e :: e in Suggestions(text) ==> (e.kind == Note <==> IsNoteLine(e.text)) && e.tags == ["auto"]
  {
    var f := Filter(Lines(text), IsMemoryLine);
    DistinctMembers(f);
    DistinctHasNoDuplicates(f);
    EntriesOfLines(Distinct(f));
  }

  lemma EntriesOfLines(d: seq<string>)
    requires NoDuplicates(d)
    ensures forall i, j :: 0 <= i < j < |Map(d, ToEntry)| ==> Map(d, ToEntry)[i].text != Map(d, ToEntry)[j].text
    ensures forall t :: t in Map(Map(d, ToEntry), TextOf) <==> t in d
    ensures forall e :: e in Map(d, ToEntry) ==> (e.kind == Note <==> IsNoteLine(e.text)) && e.tags == ["auto"]
  {
    var r := Map(d, ToEntry);
    forall k | 0 <= k < |r| ensures r[k].text == d[k] {
      assert r[k] == ToEntry(d[k]);
    }
    forall e | e in r ensures (e.kind == Note <==> IsNoteLine(e.text)) && e.tags == ["auto"] {
      var k :| 0 <= k < |r| && r[k] == e;
      assert r[k] == ToEntry(d[k]);
    }
    assert |Map(r, TextOf)| == |r| == |d|;
    forall t ensures t in Map(r, TextOf) <==> t in d {
      if t in Map(r, TextOf) {
        var k :| 0 <= k < |r| && Map(r, TextOf)[k] == t;
        assert d[k] in d;
      }
      if t in d {
        var k :| 0 <= k < |d| && d[k] == t;
        assert Map(r, TextOf)[k] == r[k].text == t;
      }
    }
  }

  /** Empty input proposes nothing. */
  lemma EmptyTextSuggestsNothing()
    ensures Suggestions("") == []
  {
    assert SplitNewlineRuns("") == [""];
    assert Trim("") == "";
    assert Map([""], Trim) == [""];
    FilterOne("", NonEmpty);
  }
}
