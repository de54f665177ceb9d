/**
 * `analyzeDependencies`: the directory-scoped import graph.
 *
 * A walk collects the source files below a root, one node is made per file,
 * and each file's relative import declarations are resolved against the
 * collected files to make edges. Reading and parsing a file is the parameter
 * `imports`: for a file's absolute path it gives the sources of the file's
 * import declarations in document order, or None when reading or parsing
 * throws.
 */
module DependencyGraph {
  import opened Common
  import opened FileSystem

  /** Directories the walk does not enter: dot-directories and `node_modules`. */
  predicate Skipped(name: string) {
    StartsWith(name, ".") || name == "node_modules"
  }

  /** `/\.(js|jsx|ts|tsx)$/.test(s)` */
  predicate HasSourceExt(s: string) {
    EndsWith(s, ".js") || EndsWith(s, ".jsx") || EndsWith(s, ".ts") || EndsWith(s, ".tsx")
  }

  /** A walk keeps a regular file whose name has a source extension. */
  predicate IsSourceVisit(v: Visit) {
    v.entry.File? && HasSourceExt(v.entry.name)
  }

  function VisitPath(v: Visit): string { v.path }

  /** The visits the walk of `dir` keeps, in walk order. */
  function SourceVisits(ops: PathOps, dir: string, trail: seq<string>, es: seq<Entry>): seq<Visit> {
    Filter(Visited(ops, dir, trail, es, Skipped), IsSourceVisit)
  }

  /** The `files` array after `walk(dirPath)`. */
  function SourceFiles(ops: PathOps, dirPath: string, root: Entry): seq<string> {
    match ListingOf(root)
    case Readable(es) => Map(SourceVisits(ops, dirPath, [], es), VisitPath)
    case Unreadable => []
  }

  /** The source paths one entry of a listing contributes to the walk. */
  function EntrySourcePaths(ops: PathOps, dir: string, trail: seq<string>, e: Entry): seq<string> {
    match e
    case Dir(n, Readable(children)) =>
      if Skipped(n) then [] else Map(SourceVisits(ops, ops.join(dir, n), trail + [n], children), VisitPath)
    case File(n, _, _) => if HasSourceExt(n) then [ops.join(dir, n)] else []
    case _ => []
  }

  lemma SourcePathsStep(ops: PathOps, dir: string, trail: seq<string>, es: seq<Entry>, i: nat)
    requires i < |es|
    ensures Map(SourceVisits(ops, dir, trail, es[..i + 1]), VisitPath)
         == Map(SourceVisits(ops, dir, trail, es[..i]), VisitPath) + EntrySourcePaths(ops, dir, trail, es[i])
  {
    var a, b := Visited(ops, dir, trail, es[..i], Skipped), VisitEntry(ops, dir, trail, es[i], Skipped);
    VisitedStep(ops, dir, trail, es, i, Skipped);
    FilterAppend(a, b, IsSourceVisit);
    MapAppend(Filter(a, IsSourceVisit), Filter(b, IsSourceVisit), VisitPath);
    EntrySourcePathsAre(ops, dir, trail, es[i]);
  }

  lemma EntrySourcePathsAre(ops: PathOps, dir: string, trail: seq<string>, e: Entry)
    ensures Map(Filter(VisitEntry(ops, dir, trail, e, Skipped), IsSourceVisit), VisitPath) == EntrySourcePaths(ops, dir, trail, e)
  {
    match e
    case Dir(n, Readable(children)) =>
    case Dir(_, Unreadable) =>
    case Unstattable(_) =>
    case File(n, _, _) =>
      var v := Visit(ops.join(dir, n), trail, e);
      FilterOne(v, IsSourceVisit);
      assert |Map([v], VisitPath)| == 1 && Map([v], VisitPath)[0] == v.path;
    case Special(n, _) =>
      FilterOne(Visit(ops.join(dir, n), trail, e), IsSourceVisit);
  }

  /** One turn of the walk's loop: the paths of entry `i` extend the paths collected before it. */
  lemma SourcesAccumulate(ops: PathOps, dir: string, trail: seq<string>, es: seq<Entry>, i: nat,
                          files: seq<string>, before: seq<string>, after: seq<string>)
    requires i < |es|
    requires before == files + Map(SourceVisits(ops, dir, trail, es[..i]), VisitPath)
    requires after == before + EntrySourcePaths(ops, dir, trail, es[i])
    ensures after == files + Map(SourceVisits(ops, dir, trail, es[..i + 1]), VisitPath)
  {
    SourcePathsStep(ops, dir, trail, es, i);
  }

  /**
   * The recursive `walk`: appends the source files below `dir` to `files`.
   * The trail of directory names is bookkeeping for the specification only.
   */
  method CollectSources(ops: PathOps, dir: string, ghost trail: seq<string>, es: seq<Entry>, files: seq<string>)
    returns (collected: seq<string>)
    ensures collected == files + Map(SourceVisits(ops, dir, trail, es), VisitPath)
    decreases es
  {
    collected := files;
    var i := 0;
    while i < |es|
      invariant 0 <= i <= |es|
      invariant collected == files + Map(SourceVisits(ops, dir, trail, es[..i]), VisitPath)
    {
      ghost var before := collected;
      match es[i] {
        case Dir(n, Readable(children)) =>
          if !Skipped(n) {
            collected := CollectSources(ops, ops.join(dir, n), trail + [n], children, collected);
          }
        case File(n, _, _) =>
          if HasSourceExt(n) {
            collected := collected + [ops.join(dir, n)];
          }
        case _ =>
      }
      assert collected == before + EntrySourcePaths(ops, dir, trail, es[i]);
      SourcesAccumulate(ops, dir, trail, es, i, files, before, collected);
      i := i + 1;
    }
    VisitedAll(es);
  }

  /**
   * What a walk collects, stated without the walk: a path built from `trail`
   * and `e` is collected exactly when `e` is a regular file with a source
   * extension lying below the root through readable directories none of which
   * is a dot-directory or `node_modules`.
   */
  lemma CollectedIffReachableSource(ops: PathOps, dirPath: string, es: seq<Entry>, trail: seq<string>, e: Entry)
    ensures Visit(PathOf(ops, dirPath, trail, e.name), trail, e) in SourceVisits(ops, dirPath, [], es)
        <==> Reaches(es, trail, e) && e.File? && HasSourceExt(e.name)
             && forall k :: 0 <= k < |trail| ==> !Skipped(trail[k])
  {
    if Visit(PathOf(ops, dirPath, trail, e.name), trail, e) in SourceVisits(ops, dirPath, [], es) {
      CollectedIsReachableSource(ops, dirPath, es, trail, e);
    }
    if Reaches(es, trail, e) && e.File? && HasSourceExt(e.name) && forall k :: 0 <= k < |trail| ==> !Skipped(trail[k]) {
      ReachableSourceIsCollected(ops, dirPath, es, trail, e);
    }
  }

  lemma CollectedIsReachableSource(ops: PathOps, dirPath: string, es: seq<Entry>, trail: seq<string>, e: Entry)
    requires Visit(PathOf(ops, dirPath, trail, e.name), trail, e) in SourceVisits(ops, dirPath, [], es)
    ensures Reaches(es, trail, e) && e.File? && HasSourceExt(e.name)
    ensures forall k :: 0 <= k < |trail| ==> !Skipped(trail[k])
  {
    var v := Visit(PathOf(ops, dirPath, trail, e.name), trail, e);
    VisitedSound(ops, dirPath, [], es, Skipped, v);
    assert v.trail[0..] == trail;
  }

  lemma ReachableSourceIsCollected(ops: PathOps, dirPath: string, es: seq<Entry>, trail: seq<string>, e: Entry)
    requires Reaches(es, trail, e) && e.File? && HasSourceExt(e.name)
    requires forall k :: 0 <= k < |trail| ==> !Skipped(trail[k])
    ensures Visit(PathOf(ops, dirPath, trail, e.name), trail, e) in SourceVisits(ops, dirPath, [], es)
  {
    VisitedComplete(ops, dirPath, [], es, Skipped, trail, e);
    assert [] + trail == trail;
  }

  /** Every collected path is that of a kept visit, so only regular source files are collected. */
  lemma CollectedAreSourceFiles(ops: PathOps, dirPath: string, root: Entry, p: string)
    requires p in SourceFiles(ops, dirPath, root)
    ensures root.Dir? && root.listing.Readable?
    ensures exists v :: v in SourceVisits(ops, dirPath, [], root.listing.entries) && v.path == p
                        && v.entry.File? && HasSourceExt(v.entry.name)
  {
    var vs := SourceVisits(ops, dirPath, [], root.listing.entries);
    var i :| 0 <= i < |vs| && Map(vs, VisitPath)[i] == p;
    assert vs[i] in vs;
  }

  /**
   * The walk never collects a file twice: in a well-named tree the kept
   * visits differ in their directory names or their own name, and their paths
   * differ whenever the built path determines those names.
   */
  lemma CollectedPathsDistinct(ops: PathOps, dirPath: string, es: seq<Entry>)
    requires WellNamed(es)
    ensures DistinctKeys(SourceVisits(ops, dirPath, [], es), VisitKey)
    ensures PathOfInjective(ops, dirPath) ==> NoDuplicates(Map(SourceVisits(ops, dirPath, [], es), VisitPath))
  {
    var vs := SourceVisits(ops, dirPath, [], es);
    VisitsDistinct(ops, dirPath, [], es, Skipped);
    FilterDistinctKeys(Visited(ops, dirPath, [], es, Skipped), IsSourceVisit, VisitKey);
    if PathOfInjective(ops, dirPath) {
      var ps := Map(vs, VisitPath);
      forall i, j | 0 <= i < j < |ps|
        ensures ps[i] != ps[j]
      {
        assert vs[i] in vs && vs[j] in vs;
        VisitedSound(ops, dirPath, [], es, Skipped, vs[i]);
        VisitedSound(ops, dirPath, [], es, Skipped, vs[j]);
        assert vs[i].trail[0..] == vs[i].trail && vs[j].trail[0..] == vs[j].trail;
        ReachesValidNames(es, vs[i].trail, vs[i].entry);
        ReachesValidNames(es, vs[j].trail, vs[j].entry);
        assert VisitKey(vs[i]) != VisitKey(vs[j]);
      }
    }
  }

  // ---------------------------------------------------------------------------
  // Resolution

  /** `p.replace(/\.(js|jsx|ts|tsx)$/, '')`: removes one trailing source extension. */
  function StripSourceExt(p: string): (r: string)
    ensures !HasSourceExt(p) ==> r == p
    ensures HasSourceExt(p) ==> p == r + ".js" || p == r + ".jsx" || p == r + ".ts" || p == r + ".tsx"
  {
    if EndsWith(p, ".jsx") || EndsWith(p, ".tsx") then p[..|p| - 4]
    else if EndsWith(p, ".js") || EndsWith(p, ".ts") then p[..|p| - 3]
    else p
  }

  /** The predicate handed to `files.find`; its raw-equality disjunct adds nothing. */
  predicate ResolvesTo(f: string, resolved: string)
    ensures ResolvesTo(f, resolved) <==> StripSourceExt(f) == StripSourceExt(resolved)
  {
    StripSourceExt(f) == StripSourceExt(resolved) || f == resolved
  }

  /** `files.find(...)`: the first file, in walk order, the resolved path refers to. */
  function FindTarget(files: seq<string>, resolved: string): (r: Option<string>)
    ensures r.None? <==> forall j :: 0 <= j < |files| ==> !ResolvesTo(files[j], resolved)
    ensures r.Some? ==> r.value in files && ResolvesTo(r.value, resolved)
  {
    if files == [] then None
    else if ResolvesTo(files[0], resolved) then Some(files[0])
    else
      assert forall j :: 1 <= j < |files| ==> files[j] == files[1..][j - 1];
      FindTarget(files[1..], resolved)
  }

  /** `find` returns the first resolving file: a resolving file with no resolving file before it is the result. */
  lemma {:induction false} FindTargetFirst(files: seq<string>, resolved: string, k: nat)
    requires k < |files| && ResolvesTo(files[k], resolved)
    requires forall j :: 0 <= j < k ==> !ResolvesTo(files[j], resolved)
    ensures FindTarget(files, resolved) == Some(files[k])
    decreases k
  {
    if k > 0 {
      var rest := files[1..];
      assert !ResolvesTo(files[0], resolved);
      assert FindTarget(files, resolved) == FindTarget(rest, resolved);
      forall j | 0 <= j < k - 1
        ensures !ResolvesTo(rest[j], resolved)
      {
        assert rest[j] == files[j + 1];
      }
      assert rest[k - 1] == files[k];
      FindTargetFirst(rest, resolved, k - 1);
    }
  }

  /** A specifier without an extension refers to a file that has one: `./util` finds `util.ts`. */
  lemma ExtensionlessSpecifierResolves(base: string, ext: string)
    requires !HasSourceExt(base)
    requires ext in [".js", ".jsx", ".ts", ".tsx"]
    ensures ResolvesTo(base + ext, base)
  {
    if ext == ".js" || ext == ".ts" {
      StripShortExt(base, ext);
    } else {
      StripLongExt(base, ext);
    }
  }

  lemma StripShortExt(base: string, ext: string)
    requires ext == ".js" || ext == ".ts"
    ensures StripSourceExt(base + ext) == base
  {
    var p := base + ext;
    assert p[|p| - 3..] == ext && p[..|p| - 3] == base;
    assert p[|p| - 1] == 's';
    assert !EndsWith(p, ".jsx") && !EndsWith(p, ".tsx") by {
      assert |p| >= 4 ==> p[|p| - 4..][3] == 's';
    }
  }

  lemma StripLongExt(base: string, ext: string)
    requires ext == ".jsx" || ext == ".tsx"
    ensures StripSourceExt(base + ext) == base
  {
    var p := base + ext;
    assert p[|p| - 4..] == ext && p[..|p| - 4] == base;
  }

  // ---------------------------------------------------------------------------
  // The graph

  datatype GraphNode = GraphNode(id: string, path: string)
  datatype GraphEdge = GraphEdge(from: string, to: string, kind: string)
  datatype DependencyReport = DependencyReport(
    directory: string, totalFiles: nat, totalDependencies: nat, nodes: seq<GraphNode>, edges: seq<GraphEdge>)

  const ImportKind := "import"

  /** One node per collected file, in collection order. */
  function NodesFor(ops: PathOps, dirPath: string, files: seq<string>): seq<GraphNode> {
    seq(|files|, i requires 0 <= i < |files| => GraphNode(ops.relative(dirPath, files[i]), files[i]))
  }

  predicate IsRelativeSpecifier(source: string) { StartsWith(source, ".") }

  /** The edge, if any, one import declaration of `file` contributes. */
  function EdgesForImport(ops: PathOps, dirPath: string, files: seq<string>, file: string, source: string): seq<GraphEdge> {
    if !IsRelativeSpecifier(source) then []
    else match FindTarget(files, ops.resolve(ops.dirname(file), source))
      case None => []
      case Some(target) =>
        // `if (targetFile)`: an empty path is falsy
        if target == "" then [] else [GraphEdge(ops.relative(dirPath, file), ops.relative(dirPath, target), ImportKind)]
  }

  /** The edges of one parsed file, in declaration order. */
  function EdgesForFile(ops: PathOps, dirPath: string, files: seq<string>, file: string, sources: seq<string>): seq<GraphEdge>
  {
    if sources == [] then []
    else EdgesForFile(ops, dirPath, files, file, sources[..|sources| - 1])
         + EdgesForImport(ops, dirPath, files, file, sources[|sources| - 1])
  }

  /** The edges of the files `pending`, in file order; a file whose read or parse fails has none. */
  function EdgesForFiles(ops: PathOps, dirPath: string, files: seq<string>, pending: seq<string>,
                         imports: string -> Option<seq<string>>): seq<GraphEdge>
  {
    if pending == [] then []
    else EdgesForFiles(ops, dirPath, files, pending[..|pending| - 1], imports)
         + match imports(pending[|pending| - 1])
           case None => []
           case Some(sources) => EdgesForFile(ops, dirPath, files, pending[|pending| - 1], sources)
  }

  /** The value `analyzeDependencies(dirPath)` returns. */
  function Analyze(ops: PathOps, dirPath: string, root: Entry, imports: string -> Option<seq<string>>): DependencyReport {
    var files := SourceFiles(ops, dirPath, root);
    var nodes := NodesFor(ops, dirPath, files);
    var edges := EdgesForFiles(ops, dirPath, files, files, imports);
    DependencyReport(dirPath, |nodes|, |edges|, nodes, edges)
  }

  lemma EdgesForFileStep(ops: PathOps, dirPath: string, files: seq<string>, file: string, sources: seq<string>, j: nat)
    requires j < |sources|
    ensures EdgesForFile(ops, dirPath, files, file, sources[..j + 1])
         == EdgesForFile(ops, dirPath, files, file, sources[..j]) + EdgesForImport(ops, dirPath, files, file, sources[j])
  {
    assert sources[..j + 1][..j] == sources[..j];
  }

  /** One turn of the loop over a file's imports: the edge of import `j` extends the edges before it. */
  lemma EdgesAccumulate(ops: PathOps, dirPath: string, files: seq<string>, file: string, sources: seq<string>, j: nat,
                        edges: seq<GraphEdge>, before: seq<GraphEdge>, after: seq<GraphEdge>)
    requires j < |sources|
    requires before == edges + EdgesForFile(ops, dirPath, files, file, sources[..j])
    requires after == before + EdgesForImport(ops, dirPath, files, file, sources[j])
    ensures after == edges + EdgesForFile(ops, dirPath, files, file, sources[..j + 1])
  {
    EdgesForFileStep(ops, dirPath, files, file, sources, j);
  }

  lemma EdgesForFilesStep(ops: PathOps, dirPath: string, files: seq<string>, pending: seq<string>, i: nat,
                          imports: string -> Option<seq<string>>)
    requires i < |pending|
    ensures EdgesForFiles(ops, dirPath, files, pending[..i + 1], imports)
         == EdgesForFiles(ops, dirPath, files, pending[..i], imports)
            + match imports(pending[i])
              case None => []
              case Some(sources) => EdgesForFile(ops, dirPath, files, pending[i], sources)
  {
    assert pending[..i + 1][..i] == pending[..i];
  }

  /** The `ImportDeclaration` visitor run over one parsed file: appends its edges to `edges`. */
  method AddImportEdges(ops: PathOps, dirPath: string, files: seq<string>, file: string, sources: seq<string>,
                        edges: seq<GraphEdge>) returns (edges': seq<GraphEdge>)
    ensures edges' == edges + EdgesForFile(ops, dirPath, files, file, sources)
  {
    edges' := edges;
    var sourceId := ops.relative(dirPath, file);
    for j := 0 to |sources|
      invariant edges' == edges + EdgesForFile(ops, dirPath, files, file, sources[..j])
    {
      ghost var before := edges';
      edges' := AddImportEdge(ops, dirPath, files, file, sourceId, sources[j], edges');
      EdgesAccumulate(ops, dirPath, files, file, sources, j, edges, before, edges');
    }
    assert sources[..|sources|] == sources;
  }

  /** One visited `ImportDeclaration` of `file`, whose node id is `sourceId`. */
  method AddImportEdge(ops: PathOps, dirPath: string, files: seq<string>, file: string, sourceId: string,
                       importPath: string, edges: seq<GraphEdge>) returns (edges': seq<GraphEdge>)
    requires sourceId == ops.relative(dirPath, file)
    ensures edges' == edges + EdgesForImport(ops, dirPath, files, file, importPath)
  {
    edges' := edges;
    if IsRelativeSpecifier(importPath) {
      var resolvedPath := ops.resolve(ops.dirname(file), importPath);
      var targetFile := FindTarget(files, resolvedPath);
      if targetFile.Some? && targetFile.value != "" {
        edges' := edges' + [GraphEdge(sourceId, ops.relative(dirPath, targetFile.value), ImportKind)];
      }
    }
  }

  /**
   * `analyzeDependencies`: walk, seed every node, then parse each file and
   * resolve its relative imports against the full file list.
   */
  method AnalyzeDependencies(ops: PathOps, dirPath: string, root: Entry, imports: string -> Option<seq<string>>)
    returns (report: DependencyReport)
    ensures report == Analyze(ops, dirPath, root, imports)
  {
    var files: seq<string> := [];
    match ListingOf(root) {
      case Readable(es) =>
        files := CollectSources(ops, dirPath, [], es, files);
        assert files == Map(SourceVisits(ops, dirPath, [], es), VisitPath);
      case Unreadable =>
    }
    assert files == SourceFiles(ops, dirPath, root);

    var nodes := SeedNodes(ops, dirPath, files);
    var edges := BuildEdges(ops, dirPath, files, imports);
    report := DependencyReport(dirPath, |nodes|, |edges|, nodes, edges);
  }

  /** The first `forEach`: one node per file, before any file is parsed. */
  method SeedNodes(ops: PathOps, dirPath: string, files: seq<string>) returns (nodes: seq<GraphNode>)
    ensures nodes == NodesFor(ops, dirPath, files)
  {
    nodes := [];
    for i := 0 to |files|
      invariant nodes == NodesFor(ops, dirPath, files[..i])
    {
      nodes := nodes + [GraphNode(ops.relative(dirPath, files[i]), files[i])];
    }
    assert files[..|files|] == files;
  }

  /** The second `forEach`: parse each file and add the edges of its relative imports. */
  method BuildEdges(ops: PathOps, dirPath: string, files: seq<string>, imports: string -> Option<seq<string>>)
    returns (edges: seq<GraphEdge>)
    ensures edges == EdgesForFiles(ops, dirPath, files, files, imports)
  {
    edges := [];
    for i := 0 to |files|
      invariant edges == EdgesForFiles(ops, dirPath, files, files[..i], imports)
    {
      EdgesForFilesStep(ops, dirPath, files, files, i, imports);
      var file := files[i];
      match imports(file) {
        case None =>
        case Some(sources) =>
          edges := AddImportEdges(ops, dirPath, files, file, sources, edges);
      }
    }
    assert files[..|files|] == files;
  }

  // ---------------------------------------------------------------------------
  // Properties of the graph

  function NodeIds(nodes: seq<GraphNode>): set<string> {
    set n | n in nodes :: n.id
  }

  /** Totals agree with the sequences, and every edge is an import between two nodes of the same graph. */
  predicate WellFormed(r: DependencyReport) {
    && r.totalFiles == |r.nodes|
    && r.totalDependencies == |r.edges|
    && forall e :: e in r.edges ==> e.kind == ImportKind && e.from in NodeIds(r.nodes) && e.to in NodeIds(r.nodes)
  }

  lemma {:induction false} EdgesForFileEndpoints(ops: PathOps, dirPath: string, files: seq<string>, file: string,
                                                 sources: seq<string>, e: GraphEdge)
    requires e in EdgesForFile(ops, dirPath, files, file, sources)
    ensures e.kind == ImportKind && e.from == ops.relative(dirPath, file)
    ensures exists t :: t in files && e.to == ops.relative(dirPath, t)
    decreases |sources|
  {
    var init := sources[..|sources| - 1];
    if e in EdgesForFile(ops, dirPath, files, file, init) {
      EdgesForFileEndpoints(ops, dirPath, files, file, init, e);
    } else {
      var source := sources[|sources| - 1];
      var t := FindTarget(files, ops.resolve(ops.dirname(file), source));
      assert t.Some? && e.to == ops.relative(dirPath, t.value);
      var k :| 0 <= k < |files| && files[k] == t.value;
      assert t.value in files;
    }
  }

  lemma {:induction false} EdgesForFilesEndpoints(ops: PathOps, dirPath: string, files: seq<string>, pending: seq<string>,
                                                  imports: string -> Option<seq<string>>, e: GraphEdge)
    requires e in EdgesForFiles(ops, dirPath, files, pending, imports)
    ensures e.kind == ImportKind
    ensures exists f :: f in pending && e.from == ops.relative(dirPath, f)
    ensures exists t :: t in files && e.to == ops.relative(dirPath, t)
    decreases |pending|
  {
    var init, last := pending[..|pending| - 1], pending[|pending| - 1];
    if e in EdgesForFiles(ops, dirPath, files, init, imports) {
      EdgesForFilesEndpoints(ops, dirPath, files, init, imports, e);
      var f :| f in init && e.from == ops.relative(dirPath, f);
      assert f in pending;
    } else {
      var sources := imports(last).value;
      EdgesForFileEndpoints(ops, dirPath, files, last, sources, e);
      assert last in pending;
    }
  }

  /** The graph is well formed: in particular an edge never names a file that has no node. */
  lemma AnalyzeWellFormed(ops: PathOps, dirPath: string, root: Entry, imports: string -> Option<seq<string>>)
    ensures WellFormed(Analyze(ops, dirPath, root, imports))
  {
    var r := Analyze(ops, dirPath, root, imports);
    var files := SourceFiles(ops, dirPath, root);
    forall e | e in r.edges
      ensures e.kind == ImportKind && e.from in NodeIds(r.nodes) && e.to in NodeIds(r.nodes)
    {
      EdgesForFilesEndpoints(ops, dirPath, files, files, imports, e);
      var f :| f in files && e.from == ops.relative(dirPath, f);
      var t :| t in files && e.to == ops.relative(dirPath, t);
      var i :| 0 <= i < |files| && files[i] == f;
      var j :| 0 <= j < |files| && files[j] == t;
      assert r.nodes[i] in r.nodes && r.nodes[i].id == e.from;
      assert r.nodes[j] in r.nodes && r.nodes[j].id == e.to;
    }
  }

  /** A root that is missing, not a directory, or unreadable yields an empty graph, not an error. */
  lemma UnreadableRootGivesEmptyGraph(ops: PathOps, dirPath: string, root: Entry, imports: string -> Option<seq<string>>)
    requires ListingOf(root).Unreadable?
    ensures Analyze(ops, dirPath, root, imports) == DependencyReport(dirPath, 0, 0, [], [])
  {
  }

  /** Edges are not deduplicated: a file's edges are those of its declarations, concatenated. */
  lemma {:induction false} EdgesForFileAppend(ops: PathOps, dirPath: string, files: seq<string>, file: string,
                                              a: seq<string>, b: seq<string>)
    ensures EdgesForFile(ops, dirPath, files, file, a + b)
         == EdgesForFile(ops, dirPath, files, file, a) + EdgesForFile(ops, dirPath, files, file, b)
    decreases |b|
  {
    if b == [] {
      assert a + b == a;
    } else {
      var b' := b[..|b| - 1];
      assert (a + b)[..|a + b| - 1] == a + b';
      EdgesForFileAppend(ops, dirPath, files, file, a, b');
    }
  }

  /** Only specifiers beginning with `.` matter: package specifiers never produce an edge. */
  lemma {:induction false} OnlyRelativeSpecifiersMatter(ops: PathOps, dirPath: string, files: seq<string>, file: string,
                                                        sources: seq<string>)
    ensures EdgesForFile(ops, dirPath, files, file, sources)
         == EdgesForFile(ops, dirPath, files, file, Filter(sources, IsRelativeSpecifier))
    decreases |sources|
  {
    if sources != [] {
      var init, last := sources[..|sources| - 1], sources[|sources| - 1];
      OnlyRelativeSpecifiersMatter(ops, dirPath, files, file, init);
      var kept := if IsRelativeSpecifier(last) then [last] else [];
      EdgesForFileAppend(ops, dirPath, files, file, Filter(init, IsRelativeSpecifier), kept);
      if kept == [] {
        assert Filter(init, IsRelativeSpecifier) + kept == Filter(init, IsRelativeSpecifier);
      } else {
        assert EdgesForFile(ops, dirPath, files, file, kept) == EdgesForImport(ops, dirPath, files, file, last) by {
          assert kept[..0] == [];
        }
      }
    }
  }

  /** `s` without the occurrences of `x`. */
  function Without(s: seq<string>, x: string): (r: seq<string>)
    ensures forall y :: y in r <==> y in s && y != x
  {
    if s == [] then []
    else Without(s[..|s| - 1], x) + (if s[|s| - 1] == x then [] else [s[|s| - 1]])
  }

  /**
   * Isolation of parse failures: when reading or parsing `failed` throws, the
   * graph loses exactly the edges of `failed` and every other file's edges
   * are unchanged, in the same order.
   */
  lemma {:induction false} FailedFileLosesOnlyItsEdges(ops: PathOps, dirPath: string, files: seq<string>, pending: seq<string>,
                                                       imports: string -> Option<seq<string>>,
                                                       failing: string -> Option<seq<string>>, failed: string)
    requires failing(failed) == None
    requires forall f :: f != failed ==> failing(f) == imports(f)
    ensures EdgesForFiles(ops, dirPath, files, pending, failing)
         == EdgesForFiles(ops, dirPath, files, Without(pending, failed), imports)
    decreases |pending|
  {
    if pending != [] {
      var init, last := pending[..|pending| - 1], pending[|pending| - 1];
      FailedFileLosesOnlyItsEdges(ops, dirPath, files, init, imports, failing, failed);
      var w := Without(init, failed);
      if last != failed {
        assert Without(pending, failed) == w + [last];
        assert (w + [last])[..|w + [last]| - 1] == w;
      } else {
        assert Without(pending, failed) == w;
      }
    }
  }

  // ---------------------------------------------------------------------------
  // Relative roots

  /** Stripping an extension keeps a path absolute or relative. */
  lemma StripKeepsAbsoluteness(p: string)
    ensures IsAbsolute(StripSourceExt(p)) <==> IsAbsolute(p)
  {
    var r := StripSourceExt(p);
    if r != p {
      assert |r| < |p| && r == p[..|r|];
      if r == [] {
        assert p[0] == '.';
      } else {
        assert r[0] == p[0];
      }
    }
  }

  /** An absolute resolved path refers to no relative file. */
  lemma NoRelativeTarget(files: seq<string>, resolved: string)
    requires IsAbsolute(resolved)
    requires forall j :: 0 <= j < |files| ==> !IsAbsolute(files[j])
    ensures FindTarget(files, resolved) == None
  {
    StripKeepsAbsoluteness(resolved);
    forall j | 0 <= j < |files|
      ensures !ResolvesTo(files[j], resolved)
    {
      StripKeepsAbsoluteness(files[j]);
    }
  }

  lemma {:induction false} NoEdgesForRelativeFiles(ops: PathOps, dirPath: string, files: seq<string>, pending: seq<string>,
                                                   imports: string -> Option<seq<string>>)
    requires ResolveIsAbsolute(ops)
    requires forall j :: 0 <= j < |files| ==> !IsAbsolute(files[j])
    ensures EdgesForFiles(ops, dirPath, files, pending, imports) == []
    decreases |pending|
  {
    if pending != [] {
      var file := pending[|pending| - 1];
      NoEdgesForRelativeFiles(ops, dirPath, files, pending[..|pending| - 1], imports);
      match imports(file)
      case None =>
      case Some(sources) => NoEdgesForFile(ops, dirPath, files, file, sources);
    }
  }

  lemma {:induction false} NoEdgesForFile(ops: PathOps, dirPath: string, files: seq<string>, file: string, sources: seq<string>)
    requires ResolveIsAbsolute(ops)
    requires forall j :: 0 <= j < |files| ==> !IsAbsolute(files[j])
    ensures EdgesForFile(ops, dirPath, files, file, sources) == []
    decreases |sources|
  {
    if sources != [] {
      NoEdgesForFile(ops, dirPath, files, file, sources[..|sources| - 1]);
      NoRelativeTarget(files, ops.resolve(ops.dirname(file), sources[|sources| - 1]));
    }
  }

  /**
   * A relative root yields a graph without edges: the collected paths stay
   * relative while `path.resolve` makes every import's path absolute, so
   * `files.find` never matches.
   */
  lemma RelativeRootHasNoEdges(ops: PathOps, dirPath: string, root: Entry, imports: string -> Option<seq<string>>)
    requires ResolveIsAbsolute(ops) && JoinKeepsRelative(ops)
    requires dirPath != "" && !IsAbsolute(dirPath)
    ensures Analyze(ops, dirPath, root, imports).edges == []
    ensures Analyze(ops, dirPath, root, imports).totalDependencies == 0
  {
    var files := SourceFiles(ops, dirPath, root);
    forall j | 0 <= j < |files|
      ensures !IsAbsolute(files[j])
    {
      CollectedAreSourceFiles(ops, dirPath, root, files[j]);
      var es := root.listing.entries;
      var v :| v in SourceVisits(ops, dirPath, [], es) && v.path == files[j] && v.entry.File? && HasSourceExt(v.entry.name);
      VisitedSound(ops, dirPath, [], es, Skipped, v);
      PathOfRelative(ops, dirPath, v.trail[0..], v.entry.name);
    }
    NoEdgesForRelativeFiles(ops, dirPath, files, files, imports);
  }
}
