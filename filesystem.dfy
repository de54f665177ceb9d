/**
 * The filesystem as the server's directory walks see it, and the pre-order
 * enumeration that every walk performs.
 *
 * A directory listing either succeeds (`readdirSync`) or throws; every entry of
 * a listing is then `statSync`-ed, which either throws or says directory,
 * regular file, or something else (socket, FIFO, device). The walks catch both
 * kinds of failure and skip the entry. Paths are strings built with Node's
 * `path` functions, which the model leaves uninterpreted.
 */
module FileSystem {
  import opened Common

  /** The outcome of listing a directory. */
  datatype Listing = Readable(entries: seq<Entry>) | Unreadable

  datatype Entry =
    | Dir(name: string, listing: Listing)
    /** A regular file; `text` is None when reading it throws. */
    | File(name: string, size: nat, text: Option<string>)
    /** Stat succeeds but the entry is neither a directory nor a regular file. */
    | Special(name: string, size: nat)
    /** Stat throws (a dangling link, a permission error, a racing delete). */
    | Unstattable(name: string)

  /** What `readdirSync(root)` yields for the entry found at the root path. */
  function ListingOf(root: Entry): Listing {
    if root.Dir? then root.listing else Unreadable
  }

  /** Node's `path` module, uninterpreted. */
  datatype PathOps = PathOps(
    join: (string, string) -> string,
    relative: (string, string) -> string,
    resolve: (string, string) -> string,
    dirname: string -> string)

  /** A non-directory entry met by a walk, the path the walk built for it and
      the names of the directories descended through to reach it. */
  datatype Visit = Visit(path: string, trail: seq<string>, entry: Entry)

  /** The directory filter of a walk that enters every directory. */
  predicate EnterAll(name: string) { false }

  /**
   * The non-directory entries a recursive walk of `dir` meets, in pre-order:
   * the listing's order, with a directory's contents at its position. A
   * directory whose name satisfies `skip`, or whose listing throws, contributes
   * nothing; so does an entry whose stat throws.
   */
  function Visited(ops: PathOps, dir: string, trail: seq<string>, es: seq<Entry>, skip: string -> bool): seq<Visit>
    decreases es
  {
    if es == [] then []
    else Visited(ops, dir, trail, es[..|es| - 1], skip) + VisitEntry(ops, dir, trail, es[|es| - 1], skip)
  }

  function VisitEntry(ops: PathOps, dir: string, trail: seq<string>, e: Entry, skip: string -> bool): seq<Visit>
    decreases e
  {
    match e
    case Dir(n, Readable(children)) =>
      if skip(n) then [] else Visited(ops, ops.join(dir, n), trail + [n], children, skip)
    case Dir(_, Unreadable) => []
    case Unstattable(_) => []
    case File(n, _, _) => [Visit(ops.join(dir, n), trail, e)]
    case Special(n, _) => [Visit(ops.join(dir, n), trail, e)]
  }

  /** The last step of a loop over a listing: one more entry's visits. */
  lemma VisitedStep(ops: PathOps, dir: string, trail: seq<string>, es: seq<Entry>, i: nat, skip: string -> bool)
    requires i < |es|
    ensures Visited(ops, dir, trail, es[..i + 1], skip)
         == Visited(ops, dir, trail, es[..i], skip) + VisitEntry(ops, dir, trail, es[i], skip)
  {
    assert es[..i + 1][..i] == es[..i];
  }

  lemma VisitedAll(es: seq<Entry>)
    ensures es[..|es|] == es
  {
  }

  /** `e` lies in the tree below `es`, inside the readable directories named by `trail`. */
  ghost predicate Reaches(es: seq<Entry>, trail: seq<string>, e: Entry)
    decreases |trail|
  {
    if trail == [] then e in es
    else exists i :: 0 <= i < |es| && es[i].Dir? && es[i].name == trail[0] && es[i].listing.Readable?
                     && Reaches(es[i].listing.entries, trail[1..], e)
  }

  /** The path a walk started at `dir` builds for `name` inside the directories `trail`. */
  function PathOf(ops: PathOps, dir: string, trail: seq<string>, name: string): string
    decreases |trail|
  {
    if trail == [] then ops.join(dir, name) else PathOf(ops, ops.join(dir, trail[0]), trail[1..], name)
  }

  lemma {:induction false} ReachesWider(es: seq<Entry>, n: nat, trail: seq<string>, e: Entry)
    requires n <= |es| && Reaches(es[..n], trail, e)
    ensures Reaches(es, trail, e)
  {
    if trail != [] {
      var i :| 0 <= i < n && es[..n][i].Dir? && es[..n][i].name == trail[0] && es[..n][i].listing.Readable?
               && Reaches(es[..n][i].listing.entries, trail[1..], e);
      assert es[i] == es[..n][i];
    }
  }

  /** An entry reached inside the readable directory `es[i]` is reached from `es` through its name. */
  lemma ReachesThrough(es: seq<Entry>, i: nat, rest: seq<string>, e: Entry)
    requires i < |es| && es[i].Dir? && es[i].listing.Readable? && Reaches(es[i].listing.entries, rest, e)
    ensures Reaches(es, [es[i].name] + rest, e)
  {
    assert ([es[i].name] + rest)[1..] == rest;
  }

  lemma {:induction false} VisitEntryIncluded(ops: PathOps, dir: string, trail: seq<string>, es: seq<Entry>, i: nat, skip: string -> bool, v: Visit)
    requires i < |es| && v in VisitEntry(ops, dir, trail, es[i], skip)
    ensures v in Visited(ops, dir, trail, es, skip)
    decreases |es|
  {
    if i < |es| - 1 {
      assert es[..|es| - 1][i] == es[i];
      VisitEntryIncluded(ops, dir, trail, es[..|es| - 1], i, skip, v);
    }
  }

  /**
   * Soundness of the walk: every visit is a stat-able non-directory entry that
   * lies below the listing, inside directories the walk may enter, at the path
   * built from the directory names on its trail.
   */
  lemma {:induction false} VisitedSound(ops: PathOps, dir: string, t0: seq<string>, es: seq<Entry>, skip: string -> bool, v: Visit)
    requires v in Visited(ops, dir, t0, es, skip)
    ensures |t0| <= |v.trail| && v.trail[..|t0|] == t0
    ensures v.entry.File? || v.entry.Special?
    ensures Reaches(es, v.trail[|t0|..], v.entry)
    ensures v.path == PathOf(ops, dir, v.trail[|t0|..], v.entry.name)
    ensures forall k :: |t0| <= k < |v.trail| ==> !skip(v.trail[k])
    decreases es, 1
  {
    var init := es[..|es| - 1];
    if v in Visited(ops, dir, t0, init, skip) {
      VisitedSound(ops, dir, t0, init, skip, v);
      ReachesWider(es, |es| - 1, v.trail[|t0|..], v.entry);
    } else {
      LastVisitSound(ops, dir, t0, es, skip, v);
    }
  }

  /** Soundness for a visit that the last entry of the listing contributes. */
  lemma {:induction false} LastVisitSound(ops: PathOps, dir: string, t0: seq<string>, es: seq<Entry>, skip: string -> bool, v: Visit)
    requires es != [] && v in VisitEntry(ops, dir, t0, es[|es| - 1], skip)
    ensures |t0| <= |v.trail| && v.trail[..|t0|] == t0
    ensures v.entry.File? || v.entry.Special?
    ensures Reaches(es, v.trail[|t0|..], v.entry)
    ensures v.path == PathOf(ops, dir, v.trail[|t0|..], v.entry.name)
    ensures forall k :: |t0| <= k < |v.trail| ==> !skip(v.trail[k])
    decreases es, 0
  {
    var last := es[|es| - 1];
    match last
    case Dir(n, Readable(children)) =>
      var t1 := t0 + [n];
      VisitedSound(ops, ops.join(dir, n), t1, children, skip, v);
      var rest := v.trail[|t1|..];
      assert v.trail[|t0|..] == [n] + rest;
      ReachesThrough(es, |es| - 1, rest, v.entry);
    case File(n, _, _) =>
      assert v.trail[|t0|..] == [];
    case Special(n, _) =>
      assert v.trail[|t0|..] == [];
  }

  /**
   * Completeness of the walk: every stat-able non-directory entry below the
   * listing, reached only through directories the walk may enter, is visited
   * at the path built from those directory names.
   */
  lemma {:induction false} VisitedComplete(ops: PathOps, dir: string, t0: seq<string>, es: seq<Entry>, skip: string -> bool,
                                           trail: seq<string>, e: Entry)
    requires Reaches(es, trail, e)
    requires e.File? || e.Special?
    requires forall k :: 0 <= k < |trail| ==> !skip(trail[k])
    ensures Visit(PathOf(ops, dir, trail, e.name), t0 + trail, e) in Visited(ops, dir, t0, es, skip)
    decreases es, 1
  {
    var v := Visit(PathOf(ops, dir, trail, e.name), t0 + trail, e);
    if trail == [] {
      var i :| 0 <= i < |es| && es[i] == e;
      assert t0 + trail == t0;
      assert v in VisitEntry(ops, dir, t0, es[i], skip);
      VisitEntryIncluded(ops, dir, t0, es, i, skip, v);
    } else {
      var i :| 0 <= i < |es| && es[i].Dir? && es[i].name == trail[0] && es[i].listing.Readable?
               && Reaches(es[i].listing.entries, trail[1..], e);
      CompleteInDir(ops, dir, t0, es, i, skip, trail, e);
      VisitEntryIncluded(ops, dir, t0, es, i, skip, v);
    }
  }

  /** Completeness for an entry reached through the readable directory `es[i]`, the first on its trail. */
  lemma {:induction false} CompleteInDir(ops: PathOps, dir: string, t0: seq<string>, es: seq<Entry>, i: nat, skip: string -> bool,
                                         trail: seq<string>, e: Entry)
    requires i < |es| && trail != [] && es[i].Dir? && es[i].name == trail[0] && es[i].listing.Readable?
    requires Reaches(es[i].listing.entries, trail[1..], e)
    requires e.File? || e.Special?
    requires forall k :: 0 <= k < |trail| ==> !skip(trail[k])
    ensures Visit(PathOf(ops, dir, trail, e.name), t0 + trail, e) in VisitEntry(ops, dir, t0, es[i], skip)
    decreases es, 0
  {
    var n, children := trail[0], es[i].listing.entries;
    assert !skip(trail[0]);
    assert forall k :: 0 <= k < |trail[1..]| ==> !skip(trail[1..][k]) by {
      forall k | 0 <= k < |trail[1..]| ensures !skip(trail[1..][k]) {
        assert trail[1..][k] == trail[k + 1];
      }
    }
    VisitedComplete(ops, ops.join(dir, n), t0 + [n], children, skip, trail[1..], e);
    assert (t0 + [n]) + trail[1..] == t0 + trail;
  }

  // ---------------------------------------------------------------------------
  // Distinct visits

  /** A name a directory listing can hold: not empty, no `/`, and neither `.` nor `..`. */
  predicate ValidName(n: string) {
    n != "" && '/' !in n && n != "." && n != ".."
  }

  predicate ValidTrail(trail: seq<string>) {
    forall k :: 0 <= k < |trail| ==> ValidName(trail[k])
  }

  /**
   * Every readable listing of the tree holds valid names and names its
   * entries pairwise differently, as a directory does.
   */
  ghost predicate WellNamed(es: seq<Entry>)
    decreases es
  {
    (forall i :: 0 <= i < |es| ==> ValidName(es[i].name))
    && (forall i, j :: 0 <= i < j < |es| ==> es[i].name != es[j].name)
    && forall i :: 0 <= i < |es| && es[i].Dir? && es[i].listing.Readable? ==> WellNamed(es[i].listing.entries)
  }

  /** What tells visits apart: the directory names descended through and the entry's own name. */
  function VisitKey(v: Visit): (seq<string>, string) {
    (v.trail, v.entry.name)
  }

  /** The name at depth `n` of a visit's key: a directory on its trail, or its own name at the end. */
  function HeadName(v: Visit, n: nat): string {
    if n < |v.trail| then v.trail[n] else v.entry.name
  }

  /**
   * The path a walk of `dir` builds from valid names determines the directory
   * names and the entry name it was built from.
   */
  ghost predicate PathOfInjective(ops: PathOps, dir: string) {
    forall t1, n1, t2, n2 ::
      ValidTrail(t1) && ValidName(n1) && ValidTrail(t2) && ValidName(n2) && PathOf(ops, dir, t1, n1) == PathOf(ops, dir, t2, n2)
      ==> t1 == t2 && n1 == n2
  }

  /** Everything reached in a well-named tree is reached through valid names and has a valid name. */
  lemma {:induction false} ReachesValidNames(es: seq<Entry>, trail: seq<string>, e: Entry)
    requires WellNamed(es) && Reaches(es, trail, e)
    ensures ValidTrail(trail) && ValidName(e.name)
    decreases |trail|
  {
    if trail == [] {
      var i :| 0 <= i < |es| && es[i] == e;
    } else {
      var i :| 0 <= i < |es| && es[i].Dir? && es[i].name == trail[0] && es[i].listing.Readable?
               && Reaches(es[i].listing.entries, trail[1..], e);
      ReachesValidNames(es[i].listing.entries, trail[1..], e);
      assert forall k :: 1 <= k < |trail| ==> trail[k] == trail[1..][k - 1];
    }
  }

  /** A `path.join` that puts one `/` between its arguments. */
  ghost predicate JoinsWithSlash(ops: PathOps) {
    forall a, b :: ops.join(a, b) == a + "/" + b
  }

  /** With a `/`-joining `path.join`, the built path is the root, `/`, and the names joined by `/`. */
  lemma {:induction false} PathOfWithSlash(ops: PathOps, dir: string, trail: seq<string>, name: string)
    requires JoinsWithSlash(ops)
    ensures PathOf(ops, dir, trail, name) == dir + "/" + Join(trail + [name], "/")
    decreases |trail|
  {
    if trail != [] {
      var d := ops.join(dir, trail[0]);
      PathOfWithSlash(ops, d, trail[1..], name);
      var parts := trail + [name];
      assert parts[1..] == trail[1..] + [name];
      assert Join(parts, "/") == trail[0] + "/" + Join(trail[1..] + [name], "/");
      assert d + "/" + Join(trail[1..] + [name], "/") == dir + "/" + (trail[0] + "/" + Join(trail[1..] + [name], "/"));
    }
  }

  /** A `/`-join of several valid names has its first `/` right after the first name. */
  lemma JoinFirstSlash(parts: seq<string>)
    requires |parts| >= 2 && ValidTrail(parts)
    ensures var s := Join(parts, "/");
      |parts[0]| < |s| && s[..|parts[0]|] == parts[0] && s[|parts[0]|] == '/' && s[|parts[0]| + 1..] == Join(parts[1..], "/")
  {
  }

  /** A `/`-join of one valid name holds no `/`. */
  lemma JoinOneNoSlash(parts: seq<string>)
    requires |parts| == 1 && ValidTrail(parts)
    ensures '/' !in Join(parts, "/")
  {
    assert ValidName(parts[0]);
  }

  /** Valid names can be recovered from their `/`-join. */
  lemma {:induction false} JoinWithSlashInjective(p1: seq<string>, p2: seq<string>)
    requires |p1| >= 1 && |p2| >= 1 && ValidTrail(p1) && ValidTrail(p2)
    requires Join(p1, "/") == Join(p2, "/")
    ensures p1 == p2
    decreases |p1|
  {
    var s := Join(p1, "/");
    if |p1| == 1 && |p2| == 1 {
    } else if |p1| == 1 {
      JoinOneNoSlash(p1);
      JoinFirstSlash(p2);
      assert false;
    } else if |p2| == 1 {
      JoinOneNoSlash(p2);
      JoinFirstSlash(p1);
      assert false;
    } else {
      JoinFirstSlash(p1);
      JoinFirstSlash(p2);
      FirstNamesAgree(s, p1[0], p2[0]);
      assert ValidTrail(p1[1..]) && ValidTrail(p2[1..]);
      JoinWithSlashInjective(p1[1..], p2[1..]);
      assert p1 == [p1[0]] + p1[1..] && p2 == [p2[0]] + p2[1..];
    }
  }

  /** Two `/`-free names that each end right before a `/` of `s` at its start are the same name. */
  lemma FirstNamesAgree(s: string, a: string, b: string)
    requires '/' !in a && '/' !in b
    requires |a| < |s| && s[..|a|] == a && s[|a|] == '/'
    requires |b| < |s| && s[..|b|] == b && s[|b|] == '/'
    ensures a == b
  {
  }

  /** A `/`-joining `path.join` meets the injectivity hypothesis. */
  lemma SlashJoinIsInjective(ops: PathOps, dir: string)
    requires JoinsWithSlash(ops)
    ensures PathOfInjective(ops, dir)
  {
    forall t1, n1, t2, n2 | ValidTrail(t1) && ValidName(n1) && ValidTrail(t2) && ValidName(n2)
                           && PathOf(ops, dir, t1, n1) == PathOf(ops, dir, t2, n2)
      ensures t1 == t2 && n1 == n2
    {
      PathOfWithSlash(ops, dir, t1, n1);
      PathOfWithSlash(ops, dir, t2, n2);
      var j1, j2 := Join(t1 + [n1], "/"), Join(t2 + [n2], "/");
      assert j1 == (dir + "/" + j1)[|dir| + 1..];
      assert j2 == (dir + "/" + j2)[|dir| + 1..];
      assert ValidTrail(t1 + [n1]) && ValidTrail(t2 + [n2]);
      JoinWithSlashInjective(t1 + [n1], t2 + [n2]);
      assert t1 == (t1 + [n1])[..|t1|] && t2 == (t2 + [n2])[..|t2|];
      assert n1 == (t1 + [n1])[|t1|] && n2 == (t2 + [n2])[|t2|];
    }
  }

  /** A visit starts, below the walk's trail, with the name of an entry of the listing. */
  lemma VisitHead(ops: PathOps, dir: string, t0: seq<string>, es: seq<Entry>, skip: string -> bool, v: Visit)
    requires v in Visited(ops, dir, t0, es, skip)
    ensures exists i :: 0 <= i < |es| && es[i].name == HeadName(v, |t0|)
  {
    VisitedSound(ops, dir, t0, es, skip, v);
    var rest := v.trail[|t0|..];
    if rest == [] {
      assert |v.trail| == |t0| && v.entry in es;
      var i :| 0 <= i < |es| && es[i] == v.entry;
    } else {
      var i :| 0 <= i < |es| && es[i].Dir? && es[i].name == rest[0] && es[i].listing.Readable?
               && Reaches(es[i].listing.entries, rest[1..], v.entry);
      assert rest[0] == v.trail[|t0|];
    }
  }

  /** A visit the last entry contributes starts with that entry's name. */
  lemma LastVisitHead(ops: PathOps, dir: string, t0: seq<string>, es: seq<Entry>, skip: string -> bool, w: Visit)
    requires es != [] && w in VisitEntry(ops, dir, t0, es[|es| - 1], skip)
    ensures HeadName(w, |t0|) == es[|es| - 1].name
  {
    match es[|es| - 1]
    case Dir(n, Readable(children)) =>
      VisitedSound(ops, ops.join(dir, n), t0 + [n], children, skip, w);
      assert w.trail[..|t0| + 1][|t0|] == n;
    case File(_, _, _) =>
    case Special(_, _) =>
  }

  lemma WellNamedInit(es: seq<Entry>)
    requires es != [] && WellNamed(es)
    ensures WellNamed(es[..|es| - 1])
  {
    var init := es[..|es| - 1];
    assert forall i :: 0 <= i < |init| ==> init[i] == es[i];
  }

  /** The visits of a walk over a well-named tree have pairwise distinct keys. */
  lemma {:induction false} VisitsDistinct(ops: PathOps, dir: string, t0: seq<string>, es: seq<Entry>, skip: string -> bool)
    requires WellNamed(es)
    ensures DistinctKeys(Visited(ops, dir, t0, es, skip), VisitKey)
    decreases es, 1
  {
    if es != [] {
      var init := es[..|es| - 1];
      WellNamedInit(es);
      VisitsDistinct(ops, dir, t0, init, skip);
      LastVisitsDistinct(ops, dir, t0, es, skip);
      var a, b := Visited(ops, dir, t0, init, skip), VisitEntry(ops, dir, t0, es[|es| - 1], skip);
      forall x, y | x in a && y in b
        ensures VisitKey(x) != VisitKey(y)
      {
        VisitHead(ops, dir, t0, init, skip, x);
        LastVisitHead(ops, dir, t0, es, skip, y);
        var i :| 0 <= i < |init| && init[i].name == HeadName(x, |t0|);
        assert es[i].name == HeadName(x, |t0|);
        assert HeadName(x, |t0|) != HeadName(y, |t0|);
      }
      DistinctKeysAppend(a, b, VisitKey);
    }
  }

  lemma {:induction false} LastVisitsDistinct(ops: PathOps, dir: string, t0: seq<string>, es: seq<Entry>, skip: string -> bool)
    requires es != [] && WellNamed(es)
    ensures DistinctKeys(VisitEntry(ops, dir, t0, es[|es| - 1], skip), VisitKey)
    decreases es, 0
  {
    match es[|es| - 1]
    case Dir(n, Readable(children)) =>
      if !skip(n) {
        assert WellNamed(children);
        VisitsDistinct(ops, ops.join(dir, n), t0 + [n], children, skip);
      }
    case Dir(_, Unreadable) =>
    case Unstattable(_) =>
    case File(_, _, _) =>
    case Special(_, _) =>
  }

  // ---------------------------------------------------------------------------
  // Absolute and relative paths

  /** A POSIX absolute path starts with `/`. */
  predicate IsAbsolute(p: string) {
    |p| > 0 && p[0] == '/'
  }

  /** `path.resolve` always returns an absolute path, completing a relative one with the working directory. */
  ghost predicate ResolveIsAbsolute(ops: PathOps) {
    forall a, b :: IsAbsolute(ops.resolve(a, b))
  }

  /** `path.join` of a non-empty relative path with anything is a non-empty relative path (`.` at the least). */
  ghost predicate JoinKeepsRelative(ops: PathOps) {
    forall a, b :: a != "" && !IsAbsolute(a) ==> ops.join(a, b) != "" && !IsAbsolute(ops.join(a, b))
  }

  /** A walk started at a non-empty relative directory builds relative paths. */
  lemma {:induction false} PathOfRelative(ops: PathOps, dir: string, trail: seq<string>, name: string)
    requires JoinKeepsRelative(ops) && dir != "" && !IsAbsolute(dir)
    ensures !IsAbsolute(PathOf(ops, dir, trail, name))
    decreases |trail|
  {
    if trail != [] {
      PathOfRelative(ops, ops.join(dir, trail[0]), trail[1..], name);
    }
  }
}
