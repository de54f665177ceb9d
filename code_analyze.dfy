/**
 * The `code_analyze` tool: counts the code files below a path and sums their
 * sizes.
 *
 * A directory target is walked, entering every directory (hidden ones and
 * `node_modules` included); every non-directory whose path ends in one of
 * twelve code extensions adds one file and its stat size. A target that is
 * not a directory counts as one file of its own size, whatever its name. A
 * target that cannot be stat-ed is reported as an error, with zero counts.
 */
module CodeAnalyze {
  import opened Common
  import opened FileSystem

  const CodeExts: seq<string> := [".ts", ".tsx", ".js", ".jsx", ".py", ".kt", ".java", ".rb", ".go", ".rs", ".c", ".cpp"]

  /** `exts.some(x => p.endsWith(x))` */
  predicate HasCodeExt(p: string) {
    exists i :: 0 <= i < |CodeExts| && EndsWith(p, CodeExts[i])
  }

  /** The size `statSync` reports for a non-directory. */
  function SizeOf(e: Entry): nat {
    match e
    case File(_, size, _) => size
    case Special(_, size) => size
    case _ => 0
  }

  /** The walk counts a non-directory whose path has a code extension. */
  predicate IsCounted(v: Visit) {
    HasCodeExt(v.path)
  }

  /** The visits the walk below `es` counts, in walk order. */
  function CountedVisits(ops: PathOps, dir: string, trail: seq<string>, es: seq<Entry>): seq<Visit> {
    Filter(Visited(ops, dir, trail, es, EnterAll), IsCounted)
  }

  /** The sum of the sizes of the visited entries. */
  function TotalSize(vs: seq<Visit>): nat {
    if vs == [] then 0 else TotalSize(vs[..|vs| - 1]) + SizeOf(vs[|vs| - 1].entry)
  }

  lemma {:induction false} TotalSizeAppend(a: seq<Visit>, b: seq<Visit>)
    ensures TotalSize(a + b) == TotalSize(a) + TotalSize(b)
    decreases |b|
  {
    if b == [] {
      assert a + b == a;
    } else {
      assert (a + b)[..|a + b| - 1] == a + b[..|b| - 1];
      TotalSizeAppend(a, b[..|b| - 1]);
    }
  }

  /** The visits one entry of a listing adds to the count. */
  function EntryCounted(ops: PathOps, dir: string, trail: seq<string>, e: Entry): seq<Visit> {
    match e
    case Dir(n, Readable(children)) => CountedVisits(ops, ops.join(dir, n), trail + [n], children)
    case Dir(_, Unreadable) => []
    case Unstattable(_) => []
    case _ =>
      var v := Visit(ops.join(dir, e.name), trail, e);
      if IsCounted(v) then [v] else []
  }

  lemma CountedStep(ops: PathOps, dir: string, trail: seq<string>, es: seq<Entry>, i: nat)
    requires i < |es|
    ensures CountedVisits(ops, dir, trail, es[..i + 1])
         == CountedVisits(ops, dir, trail, es[..i]) + EntryCounted(ops, dir, trail, es[i])
  {
    var a, b := Visited(ops, dir, trail, es[..i], EnterAll), VisitEntry(ops, dir, trail, es[i], EnterAll);
    VisitedStep(ops, dir, trail, es, i, EnterAll);
    FilterAppend(a, b, IsCounted);
    EntryCountedIs(ops, dir, trail, es[i]);
  }

  lemma EntryCountedIs(ops: PathOps, dir: string, trail: seq<string>, e: Entry)
    ensures Filter(VisitEntry(ops, dir, trail, e, EnterAll), IsCounted) == EntryCounted(ops, dir, trail, e)
  {
    match e
    case Dir(n, Readable(children)) =>
    case Dir(_, Unreadable) =>
    case Unstattable(_) =>
    case File(n, _, _) => FilterOne(Visit(ops.join(dir, n), trail, e), IsCounted);
    case Special(n, _) => FilterOne(Visit(ops.join(dir, n), trail, e), IsCounted);
  }

  /** The inner `walk(dir)`: adds the count and the sizes of the code files below the listing `es`. */
  method WalkCode(ops: PathOps, dir: string, ghost trail: seq<string>, es: seq<Entry>, files: nat, bytes: nat)
    returns (files': nat, bytes': nat)
    ensures files' == files + |CountedVisits(ops, dir, trail, es)|
    ensures bytes' == bytes + TotalSize(CountedVisits(ops, dir, trail, es))
    decreases es
  {
    files', bytes' := files, bytes;
    var i := 0;
    while i < |es|
      invariant 0 <= i <= |es|
      invariant files' == files + |CountedVisits(ops, dir, trail, es[..i])|
      invariant bytes' == bytes + TotalSize(CountedVisits(ops, dir, trail, es[..i]))
    {
      CountedStep(ops, dir, trail, es, i);
      TotalSizeAppend(CountedVisits(ops, dir, trail, es[..i]), EntryCounted(ops, dir, trail, es[i]));
      files', bytes' := WalkEntry(ops, dir, trail, es[i], files', bytes');
      i := i + 1;
    }
    VisitedAll(es);
  }

  /** One entry of a listing of `dir`: a directory is walked, any other entry is counted when its path has a code extension. */
  method WalkEntry(ops: PathOps, dir: string, ghost trail: seq<string>, e: Entry, files: nat, bytes: nat)
    returns (files': nat, bytes': nat)
    ensures files' == files + |EntryCounted(ops, dir, trail, e)|
    ensures bytes' == bytes + TotalSize(EntryCounted(ops, dir, trail, e))
    decreases e
  {
    files', bytes' := files, bytes;
    match e {
      case Dir(n, Readable(children)) =>
        files', bytes' := WalkCode(ops, ops.join(dir, n), trail + [n], children, files, bytes);
      case Dir(_, Unreadable) =>
      case Unstattable(_) =>
      case File(n, size, _) =>
        if HasCodeExt(ops.join(dir, n)) {
          files', bytes' := files + 1, bytes + size;
          assert TotalSize([Visit(ops.join(dir, n), trail, e)]) == size;
        }
      case Special(n, size) =>
        if HasCodeExt(ops.join(dir, n)) {
          files', bytes' := files + 1, bytes + size;
          assert TotalSize([Visit(ops.join(dir, n), trail, e)]) == size;
        }
    }
  }

  /** The outcome of `code_analyze`: counts, or the error of a failed stat of the target. */
  datatype CodeReport = Counted(files: nat, bytes: nat) | StatFailed

  /** The structured content: a failed stat reports zero files and zero bytes. */
  function StructuredCounts(r: CodeReport): (nat, nat) {
    match r
    case Counted(f, b) => (f, b)
    case StatFailed => (0, 0)
  }

  /** What `code_analyze` reports for the entry at `target`, stated without the walk. */
  function CodeReportOf(ops: PathOps, target: string, root: Entry): CodeReport {
    match root
    case Unstattable(_) => StatFailed
    case Dir(_, Readable(es)) =>
      var vs := CountedVisits(ops, target, [], es);
      Counted(|vs|, TotalSize(vs))
    case Dir(_, Unreadable) => Counted(0, 0)
    case File(_, size, _) => Counted(1, size)
    case Special(_, size) => Counted(1, size)
  }

  /** The `code_analyze` handler; `root` is the entry at `target`. */
  method Analyze(ops: PathOps, target: string, root: Entry) returns (report: CodeReport)
    ensures report == CodeReportOf(ops, target, root)
  {
    var files: nat, bytes: nat := 0, 0;
    match root {
      case Unstattable(_) =>
        return StatFailed;
      case Dir(_, listing) =>
        match listing {
          case Readable(es) => files, bytes := WalkCode(ops, target, [], es, files, bytes);
          case Unreadable =>
        }
      case File(_, size, _) =>
        files, bytes := 1, size;
      case Special(_, size) =>
        files, bytes := 1, size;
    }
    report := Counted(files, bytes);
  }

  // ---------------------------------------------------------------------------
  // Properties

  /**
   * What the walk counts, stated without the walk: the visit of `e` at the
   * path built from `trail` is counted exactly when `e` is a stat-able
   * non-directory below the root, reached through readable directories of any
   * name, whose path has a code extension.
   */
  lemma CountedIffReachableCode(ops: PathOps, dir: string, es: seq<Entry>, trail: seq<string>, e: Entry)
    ensures Visit(PathOf(ops, dir, trail, e.name), trail, e) in CountedVisits(ops, dir, [], es)
        <==> Reaches(es, trail, e) && (e.File? || e.Special?) && HasCodeExt(PathOf(ops, dir, trail, e.name))
  {
    var v := Visit(PathOf(ops, dir, trail, e.name), trail, e);
    if v in CountedVisits(ops, dir, [], es) {
      VisitedSound(ops, dir, [], es, EnterAll, v);
      assert v.trail[0..] == trail;
    }
    if Reaches(es, trail, e) && (e.File? || e.Special?) && HasCodeExt(PathOf(ops, dir, trail, e.name)) {
      VisitedComplete(ops, dir, [], es, EnterAll, trail, e);
      assert [] + trail == trail;
    }
  }

  /** The byte count is the sum of the counted sizes, so it is at least the size of each counted entry. */
  lemma {:induction false} SizeWithinTotal(vs: seq<Visit>, v: Visit)
    requires v in vs
    ensures SizeOf(v.entry) <= TotalSize(vs)
    decreases |vs|
  {
    if vs[|vs| - 1] != v {
      assert v in vs[..|vs| - 1];
      SizeWithinTotal(vs[..|vs| - 1], v);
    }
  }

  /** A target that is not a directory counts as one file of its own size, whatever its extension. */
  lemma NonDirectoryTargetCountsItself(ops: PathOps, target: string, root: Entry)
    requires root.File? || root.Special?
    ensures CodeReportOf(ops, target, root) == Counted(1, SizeOf(root))
  {
  }

  /** A failed stat and an unreadable directory both report zero files and zero bytes; only the former is an error. */
  lemma ZeroCountsWithoutWalk(ops: PathOps, target: string, root: Entry)
    requires root.Unstattable? || (root.Dir? && root.listing.Unreadable?)
    ensures StructuredCounts(CodeReportOf(ops, target, root)) == (0, 0)
    ensures CodeReportOf(ops, target, root).StatFailed? <==> root.Unstattable?
  {
  }
}
