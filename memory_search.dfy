/**
 * The `memory_search` tool: keyword search across the memory files.
 *
 * The walk enters every directory below the memory directory. A non-directory
 * whose path ends in `.mdc` or `.md` is read; when its lower-cased text
 * contains the lower-cased query it yields a hit with the path and the first
 * 200 characters of the text. Entries that cannot be stat-ed or read are
 * skipped. Lower-casing is the parameter `lower`.
 */
module MemorySearch {
  import opened Common
  import opened FileSystem
  import opened MemoryStore

  /** The excerpt length, `text.slice(0, 200)`. */
  const ExcerptLength: nat := 200

  datatype SearchHit = SearchHit(file: string, excerpt: string)

  /** What `memory_search` returns: the hits and the mode named in its message. */
  datatype SearchReport = SearchReport(results: seq<SearchHit>, mode: Mode)

  /** `text.slice(0, 200)` */
  function Excerpt(text: string): (r: string)
    ensures |r| <= ExcerptLength
    ensures StartsWith(text, r)
    ensures |text| <= ExcerptLength ==> r == text
    ensures |text| > ExcerptLength ==> |r| == ExcerptLength
  {
    if |text| <= ExcerptLength then text else text[..ExcerptLength]
  }

  /** `p.endsWith('.mdc') || p.endsWith('.md')` */
  predicate IsMemoryPath(p: string) {
    EndsWith(p, ".mdc") || EndsWith(p, ".md")
  }

  /** `readFileSync(p, 'utf8')`: a regular file's text, None when reading throws or the entry is not a regular file. */
  function ReadText(e: Entry): Option<string> {
    if e.File? then e.text else None
  }

  /** A visit is a hit: a memory path whose text, lower-cased, contains `q`. */
  predicate IsHit(lower: string -> string, q: string, v: Visit) {
    IsMemoryPath(v.path) && ReadText(v.entry).Some? && Contains(lower(ReadText(v.entry).value), q)
  }

  /** The hit test as a value, so that every use names the same function. */
  function HitTest(lower: string -> string, q: string): Visit -> bool {
    v => IsHit(lower, q, v)
  }

  function ToHit(v: Visit): SearchHit {
    SearchHit(v.path, Excerpt(if ReadText(v.entry).Some? then ReadText(v.entry).value else ""))
  }

  /** The visits the search keeps below `es`, in walk order. */
  function HitVisits(ops: PathOps, lower: string -> string, q: string, dir: string, trail: seq<string>, es: seq<Entry>): seq<Visit> {
    Filter(Visited(ops, dir, trail, es, EnterAll), HitTest(lower, q))
  }

  function Hits(ops: PathOps, lower: string -> string, q: string, dir: string, trail: seq<string>, es: seq<Entry>): seq<SearchHit> {
    Map(HitVisits(ops, lower, q, dir, trail, es), ToHit)
  }

  /** The hits one entry of a listing contributes. */
  function EntryHits(ops: PathOps, lower: string -> string, q: string, dir: string, trail: seq<string>, e: Entry): seq<SearchHit> {
    match e
    case Dir(n, Readable(children)) => Hits(ops, lower, q, ops.join(dir, n), trail + [n], children)
    case Dir(_, Unreadable) => []
    case Unstattable(_) => []
    case _ =>
      var v := Visit(ops.join(dir, e.name), trail, e);
      if IsHit(lower, q, v) then [ToHit(v)] else []
  }

  lemma EntryHitsAre(ops: PathOps, lower: string -> string, q: string, dir: string, trail: seq<string>, e: Entry)
    ensures Map(Filter(VisitEntry(ops, dir, trail, e, EnterAll), HitTest(lower, q)), ToHit) == EntryHits(ops, lower, q, dir, trail, e)
  {
    match e
    case Dir(n, Readable(children)) =>
    case Dir(_, Unreadable) =>
    case Unstattable(_) =>
    case File(n, _, _) => OneVisitHits(lower, q, Visit(ops.join(dir, n), trail, e));
    case Special(n, _) => OneVisitHits(lower, q, Visit(ops.join(dir, n), trail, e));
  }

  lemma OneVisitHits(lower: string -> string, q: string, v: Visit)
    ensures Map(Filter([v], HitTest(lower, q)), ToHit) == if IsHit(lower, q, v) then [ToHit(v)] else []
  {
    FilterOne(v, HitTest(lower, q));
    assert HitTest(lower, q)(v) == IsHit(lower, q, v);
    if IsHit(lower, q, v) {
      assert |Map([v], ToHit)| == 1 && Map([v], ToHit)[0] == ToHit(v);
    }
  }

  lemma HitsStep(ops: PathOps, lower: string -> string, q: string, dir: string, trail: seq<string>, es: seq<Entry>, i: nat)
    requires i < |es|
    ensures Hits(ops, lower, q, dir, trail, es[..i + 1])
         == Hits(ops, lower, q, dir, trail, es[..i]) + EntryHits(ops, lower, q, dir, trail, es[i])
  {
    var a, b := Visited(ops, dir, trail, es[..i], EnterAll), VisitEntry(ops, dir, trail, es[i], EnterAll);
    VisitedStep(ops, dir, trail, es, i, EnterAll);
    FilterAppend(a, b, HitTest(lower, q));
    MapAppend(Filter(a, HitTest(lower, q)), Filter(b, HitTest(lower, q)), ToHit);
    EntryHitsAre(ops, lower, q, dir, trail, es[i]);
  }

  /** One turn of the walk's loop: the hits of entry `i` extend the accumulated hits of the entries before it. */
  lemma HitsAccumulate(ops: PathOps, lower: string -> string, q: string, dir: string, trail: seq<string>, es: seq<Entry>, i: nat,
                       results: seq<SearchHit>, before: seq<SearchHit>, after: seq<SearchHit>)
    requires i < |es|
    requires before == results + Hits(ops, lower, q, dir, trail, es[..i])
    requires after == before + EntryHits(ops, lower, q, dir, trail, es[i])
    ensures after == results + Hits(ops, lower, q, dir, trail, es[..i + 1])
  {
    HitsStep(ops, lower, q, dir, trail, es, i);
  }

  /** The inner `walk(dir)`: appends the hits below the listing `es` of `dir` to `results`. */
  method SearchTree(ops: PathOps, lower: string -> string, q: string, dir: string, ghost trail: seq<string>, es: seq<Entry>,
                    results: seq<SearchHit>)
    returns (found: seq<SearchHit>)
    ensures found == results + Hits(ops, lower, q, dir, trail, es)
    decreases es
  {
    found := results;
    var i := 0;
    while i < |es|
      invariant 0 <= i <= |es|
      invariant found == results + Hits(ops, lower, q, dir, trail, es[..i])
    {
      ghost var before := found;
      found := SearchEntry(ops, lower, q, dir, trail, es[i], found);
      HitsAccumulate(ops, lower, q, dir, trail, es, i, results, before, found);
      i := i + 1;
    }
    VisitedAll(es);
  }

  /** One entry of a listing of `dir`: a directory is walked, any other entry is tested as a hit. */
  method SearchEntry(ops: PathOps, lower: string -> string, q: string, dir: string, ghost trail: seq<string>, e: Entry,
                     results: seq<SearchHit>)
    returns (found: seq<SearchHit>)
    ensures found == results + EntryHits(ops, lower, q, dir, trail, e)
    decreases e
  {
    found := results;
    match e {
      case Dir(n, Readable(children)) =>
        found := SearchTree(ops, lower, q, ops.join(dir, n), trail + [n], children, found);
      case Dir(_, Unreadable) =>
      case Unstattable(_) =>
      case Special(_, _) =>
        // reading a socket, FIFO or device is taken to throw
      case File(n, _, text) =>
        var p := ops.join(dir, n);
        if IsMemoryPath(p) {
          match text {
            case None =>
            case Some(t) =>
              if Contains(lower(t), q) {
                found := found + [SearchHit(p, Excerpt(t))];
              }
          }
        }
    }
  }

  /** The results of a search of the memory directory whose entry is `root`, stated without the walk. */
  function SearchResults(ops: PathOps, lower: string -> string, query: string, augmentRulesExist: bool, root: Entry): seq<SearchHit> {
    if root.Unstattable? then []
    else match ListingOf(root)
      case Readable(es) => Hits(ops, lower, lower(query), MemoryDir(augmentRulesExist), [], es)
      case Unreadable => []
  }

  /**
   * The `memory_search` handler. `root` is what sits at the memory directory:
   * `existsSync` fails only for an entry that cannot be stat-ed, and a root
   * whose listing throws yields no hits.
   */
  method Search(ops: PathOps, lower: string -> string, query: string, augmentRulesExist: bool, root: Entry)
    returns (report: SearchReport)
    ensures report.results == SearchResults(ops, lower, query, augmentRulesExist, root)
    ensures report.mode == (if augmentRulesExist then Augment else Mcp)
  {
    var q := lower(query);
    var results: seq<SearchHit> := [];
    var dir := MemoryDir(augmentRulesExist);
    if !root.Unstattable? {
      match ListingOf(root) {
        case Readable(es) => results := SearchTree(ops, lower, q, dir, [], es, results);
        case Unreadable =>
      }
    }
    ModeOfMemoryDir(augmentRulesExist);
    report := SearchReport(results, ModeOf(MemoryDir(augmentRulesExist)));
  }

  // ---------------------------------------------------------------------------
  // Properties

  /**
   * What the search finds, stated without the walk: the visit of `e` at the
   * path built from `trail` is a hit exactly when `e` is a readable regular
   * file below the root (through any readable directories, hidden ones
   * included) whose path ends in `.md` or `.mdc` and whose lower-cased text
   * contains the lower-cased query.
   */
  lemma HitIffReachableMatch(ops: PathOps, lower: string -> string, q: string, dir: string, es: seq<Entry>,
                             trail: seq<string>, e: Entry)
    ensures Visit(PathOf(ops, dir, trail, e.name), trail, e) in HitVisits(ops, lower, q, dir, [], es)
        <==> Reaches(es, trail, e) && e.File? && e.text.Some? && IsMemoryPath(PathOf(ops, dir, trail, e.name))
             && Contains(lower(e.text.value), q)
  {
    var v := Visit(PathOf(ops, dir, trail, e.name), trail, e);
    if v in HitVisits(ops, lower, q, dir, [], es) {
      VisitedSound(ops, dir, [], es, EnterAll, v);
      assert v.trail[0..] == trail;
    }
    if Reaches(es, trail, e) && e.File? && e.text.Some? && IsMemoryPath(PathOf(ops, dir, trail, e.name))
       && Contains(lower(e.text.value), q) {
      VisitedComplete(ops, dir, [], es, EnterAll, trail, e);
      assert [] + trail == trail;
    }
  }

  /** Every hit names a visited memory file and carries the opening of its text: its first 200 characters, or all of a shorter text. */
  lemma HitsAreExcerpts(ops: PathOps, lower: string -> string, q: string, dir: string, es: seq<Entry>, h: SearchHit)
    requires h in Hits(ops, lower, q, dir, [], es)
    ensures IsMemoryPath(h.file) && |h.excerpt| <= ExcerptLength
    ensures exists v :: v in HitVisits(ops, lower, q, dir, [], es) && v.path == h.file
                        && v.entry.File? && v.entry.text.Some? && h.excerpt == Excerpt(v.entry.text.value)
  {
    var vs := HitVisits(ops, lower, q, dir, [], es);
    var i :| 0 <= i < |vs| && Map(vs, ToHit)[i] == h;
    var v := vs[i];
    assert v in vs && ToHit(v) == h;
    assert HitTest(lower, q)(v);
    assert IsHit(lower, q, v);
  }

  /** A missing memory directory, or one that is not a readable directory, gives no results rather than an error. */
  lemma MissingRootFindsNothing(ops: PathOps, lower: string -> string, query: string, augmentRulesExist: bool, root: Entry)
    requires !root.Dir? || root.listing.Unreadable?
    ensures SearchResults(ops, lower, query, augmentRulesExist, root) == []
  {
  }
}
