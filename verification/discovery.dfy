/** Recursive discovery of source files under a repository directory
    (`searching_all_files`). A directory is an ordered sequence of entries,
    in the order the file system lists them; a path is a sequence of
    segments below the file-system root. */
module Discovery {
  import opened Wrappers

  /** One directory entry: a regular file or a sub-directory with its own entries. */
  datatype Entry = File(name: string) | Dir(name: string, children: seq<Entry>)

  /** The last `.`-separated component of a file name, `name.split('.')[-1]`:
      a name without a dot is its own suffix, a name ending in a dot has the
      empty suffix. The three ensures pin the result down: it is the longest
      dot-free tail of the name. */
  function Suffix(name: string): (r: string)
    ensures '.' !in r
    ensures |r| <= |name| && r == name[|name| - |r|..]
    ensures |r| < |name| ==> name[|name| - |r| - 1] == '.'
  {
    if |name| == 0 then ""
    else if name[|name| - 1] == '.' then ""
    else Suffix(name[..|name| - 1]) + [name[|name| - 1]]
  }

  /** A name without a dot is returned whole. */
  lemma SuffixOfDotless(name: string)
    requires '.' !in name
    ensures Suffix(name) == name
  {
  }

  /** The suffix is what follows the final dot. */
  lemma {:induction false} SuffixAfterLastDot(stem: string, ext: string)
    requires '.' !in ext
    ensures Suffix(stem + "." + ext) == ext
    decreases |ext|
  {
    var name := stem + "." + ext;
    if |ext| > 0 {
      var last := |ext| - 1;
      assert name[..|name| - 1] == stem + "." + ext[..last];
      assert ext[last] in ext;
      SuffixAfterLastDot(stem, ext[..last]);
      assert ext == ext[..last] + [ext[last]];
    }
  }

  /** Entries whose name starts with `.` are hidden. */
  predicate Hidden(name: string)
  {
    |name| > 0 && name[0] == '.'
  }

  /** A file is kept when its suffix is one of the configured extensions,
      compared literally. */
  predicate Matches(name: string, exts: seq<string>)
  {
    Suffix(name) in exts
  }

  /** `path` lies under `dir`, strictly below it. */
  predicate Below(path: seq<string>, dir: seq<string>)
  {
    |dir| < |path| && path[..|dir|] == dir
  }

  /** The files of `entries`, which lists the directory at `dir`, in listing order. */
  function Discover(dir: seq<string>, entries: seq<Entry>, exts: seq<string>): (r: seq<seq<string>>)
    ensures forall p :: p in r ==> Below(p, dir) && Matches(p[|p| - 1], exts)
    decreases entries
  {
    if |entries| == 0 then []
    else Visit(dir, entries[0], exts) + Discover(dir, entries[1..], exts)
  }

  /** One iteration of the listing loop. The suffix test comes first, so a
      hidden file whose suffix matches is still kept; otherwise hidden entries
      and files are skipped and every other entry is descended into. The
      descent is into the sub-directory's own path `dir + [name]` (see
      `RecursionTargetAsWritten` for the join the loop actually performs). */
  function Visit(dir: seq<string>, e: Entry, exts: seq<string>): (r: seq<seq<string>>)
    ensures forall p :: p in r ==> Below(p, dir) && Matches(p[|p| - 1], exts)
    decreases e
  {
    if e.File? && Matches(e.name, exts) then
      var p := dir + [e.name];
      assert p[..|dir|] == dir && p[|p| - 1] == e.name;
      [p]
    else if Hidden(e.name) || e.File? then []
    else
      var sub := Discover(dir + [e.name], e.children, exts);
      BelowParent(sub, dir, e.name);
      sub
  }

  /** What lies below `dir/name` lies below `dir`. */
  lemma BelowParent(ps: seq<seq<string>>, dir: seq<string>, name: string)
    requires forall p :: p in ps ==> Below(p, dir + [name])
    ensures forall p :: p in ps ==> Below(p, dir)
  {
    forall p | p in ps
      ensures Below(p, dir)
    {
      assert p[..|dir|] == p[..|dir| + 1][..|dir|];
    }
  }

  /** Reference definition: the relative path `rel` names a matching file
      reached through directories that are not hidden. */
  ghost predicate Located(entries: seq<Entry>, rel: seq<string>, exts: seq<string>)
    decreases entries, 1
  {
    exists i :: 0 <= i < |entries| && LocatedIn(entries[i], rel, exts)
  }

  ghost predicate LocatedIn(e: Entry, rel: seq<string>, exts: seq<string>)
    decreases e, 0
  {
    match e
    case File(n) => rel == [n] && Matches(n, exts)
    case Dir(n, cs) => 1 < |rel| && rel[0] == n && !Hidden(n) && Located(cs, rel[1..], exts)
  }

  /** Discovery returns exactly the located files: every matching file at any
      depth below non-hidden directories, and nothing else. */
  lemma {:induction false} DiscoverExactly(dir: seq<string>, entries: seq<Entry>, exts: seq<string>, p: seq<string>)
    ensures p in Discover(dir, entries, exts)
        <==> |dir| <= |p| && p[..|dir|] == dir && Located(entries, p[|dir|..], exts)
    decreases entries, 1
  {
    var rel := if |dir| <= |p| then p[|dir|..] else [];
    if |entries| > 0 {
      VisitExactly(dir, entries[0], exts, p);
      DiscoverExactly(dir, entries[1..], exts, p);
      if Located(entries, rel, exts) && !LocatedIn(entries[0], rel, exts) {
        var i :| 0 <= i < |entries| && LocatedIn(entries[i], rel, exts);
        assert entries[1..][i - 1] == entries[i];
      }
      if Located(entries[1..], rel, exts) {
        var j :| 0 <= j < |entries[1..]| && LocatedIn(entries[1..][j], rel, exts);
        assert entries[j + 1] == entries[1..][j];
      }
      if LocatedIn(entries[0], rel, exts) {
        assert 0 <= 0 < |entries| && LocatedIn(entries[0], rel, exts);
      }
    }
  }

  lemma {:induction false} VisitExactly(dir: seq<string>, e: Entry, exts: seq<string>, p: seq<string>)
    ensures p in Visit(dir, e, exts)
        <==> |dir| <= |p| && p[..|dir|] == dir && LocatedIn(e, p[|dir|..], exts)
    decreases e, 0
  {
    match e
    case File(n) =>
      if p == dir + [n] {
        assert p[..|dir|] == dir && p[|dir|..] == [n];
      }
    case Dir(n, cs) =>
      if !Hidden(n) {
        var sub := dir + [n];
        DiscoverExactly(sub, cs, exts, p);
        if |sub| <= |p| && p[..|sub|] == sub {
          assert p[|dir|..][1..] == p[|sub|..];
          assert p[..|dir|] == p[..|sub|][..|dir|];
          assert p[|dir|..][0] == p[..|sub|][|dir|];
        }
        if |dir| <= |p| && p[..|dir|] == dir && LocatedIn(e, p[|dir|..], exts) {
          var rel := p[|dir|..];
          assert rel[1..] == p[|sub|..];
          assert p[..|sub|] == p[..|dir|] + [rel[0]];
        }
      }
  }

  /** A hidden file whose suffix matches is kept (the suffix test precedes the
      hidden test). */
  lemma HiddenMatchingFileKept(dir: seq<string>, n: string, exts: seq<string>)
    requires Hidden(n) && Matches(n, exts)
    ensures Discover(dir, [File(n)], exts) == [dir + [n]]
  {
  }

  /** Nothing below a hidden directory is ever returned. */
  lemma HiddenDirectorySkipped(dir: seq<string>, n: string, cs: seq<Entry>, exts: seq<string>)
    requires Hidden(n)
    ensures Discover(dir, [Dir(n, cs)], exts) == []
  {
  }

  /** Paths as `pathlib` joins them: `base / other` is `other` itself when
      `other` is absolute, and the concatenation otherwise. */
  datatype PathValue = PathValue(absolute: bool, segments: seq<string>)

  function JoinPath(base: PathValue, other: PathValue): (r: PathValue)
    ensures other.absolute ==> r == other
    ensures !other.absolute ==> r.absolute == base.absolute && r.segments == base.segments + other.segments
  {
    if other.absolute then other else PathValue(base.absolute, base.segments + other.segments)
  }

  /** The path `iterdir` yields for the entry `name` of `dir`: `dir` extended by `name`. */
  function ChildPath(dir: PathValue, name: string): (r: PathValue)
    ensures r.absolute == dir.absolute
    ensures Below(r.segments, dir.segments) && r.segments[|r.segments| - 1] == name
  {
    PathValue(dir.absolute, dir.segments + [name])
  }

  /** The directory the listing loop descends into, as written: the child's
      path joined once more onto `dir`. */
  function RecursionTargetAsWritten(dir: PathValue, name: string): PathValue
  {
    JoinPath(dir, ChildPath(dir, name))
  }

  /** For an absolute directory the as-written join is harmless. */
  lemma AbsoluteRecursionTargetIsChild(dir: PathValue, name: string)
    requires dir.absolute
    ensures RecursionTargetAsWritten(dir, name) == ChildPath(dir, name)
  {
  }

  /** For a relative directory with any segment the as-written join repeats
      the directory: listing `repos` and descending into `src` asks for
      `repos/repos/src`, which is not the sub-directory just listed. */
  lemma RelativeRecursionTargetRepeatsDir(dir: PathValue, name: string)
    requires !dir.absolute && |dir.segments| > 0
    ensures RecursionTargetAsWritten(dir, name).segments == dir.segments + dir.segments + [name]
    ensures RecursionTargetAsWritten(dir, name) != ChildPath(dir, name)
  {
    var t := RecursionTargetAsWritten(dir, name);
    assert |t.segments| != |ChildPath(dir, name).segments|;
  }

  /** The entry named `name` in a directory listing, first match. */
  function Find(entries: seq<Entry>, name: string): (r: Option<Entry>)
    ensures r.Some? ==> r.value in entries && r.value.name == name
    ensures r.None? ==> forall e :: e in entries ==> e.name != name
  {
    if |entries| == 0 then None
    else if entries[0].name == name then Some(entries[0])
    else Find(entries[1..], name)
  }

  /** The listing of the directory at relative path `rel`; `None` when a
      segment is missing or names a file, where listing it raises. */
  function Lookup(entries: seq<Entry>, rel: seq<string>): Option<seq<Entry>>
    decreases |rel|
  {
    if |rel| == 0 then Some(entries)
    else match Find(entries, rel[0])
      case Some(Dir(_, children)) => Lookup(children, rel[1..])
      case _ => None
  }

  /** Listing composes along a path: the listing of `a + b` is the listing of
      `b` inside the listing of `a`, and fails whenever that of `a` fails. */
  lemma {:induction false} LookupAppend(entries: seq<Entry>, a: seq<string>, b: seq<string>)
    ensures Lookup(entries, a + b) ==
      match Lookup(entries, a)
      case None => None
      case Some(inner) => Lookup(inner, b)
    decreases |a|
  {
    if |a| > 0 {
      assert (a + b)[0] == a[0];
      assert (a + b)[1..] == a[1..] + b;
      match Find(entries, a[0])
      case Some(Dir(_, children)) => LookupAppend(children, a[1..], b);
      case _ =>
    } else {
      assert a + b == b;
    }
  }

  /** The listing of a repository directory `root/key/name` exists exactly when
      `key` names a directory of the root and `name` a directory inside it, and
      it is then the children of `name`. */
  lemma LookupRepoDirectory(root: seq<Entry>, key: string, name: string)
    ensures Lookup(root, [key, name]).Some? <==>
      && Find(root, key).Some? && Find(root, key).value.Dir?
      && Find(Find(root, key).value.children, name).Some?
      && Find(Find(root, key).value.children, name).value.Dir?
    ensures Lookup(root, [key, name]).Some? ==>
      Lookup(root, [key, name]).value == Find(Find(root, key).value.children, name).value.children
  {
    LookupAppend(root, [key], [name]);
    assert [key] + [name] == [key, name];
  }
}
