/** `readDirR` (lib/utils.js), the recursive directory scan, over an
    immutable model of the filesystem below the scanned path. */
module DirTree {
  import opened Text
  import opened Sequences

  /** What `fs.statSync` reports at a path: a plain file, or a directory
      whose entries `fs.readdirSync` enumerates in the order of `children`. */
  datatype Node = File(name: string) | Dir(name: string, children: seq<Node>)

  /** One element of the flat list `readDirR` builds: a path string, or the
      `Array.prototype` object placed at the head of each directory's list. */
  datatype Entry = Path(path: string) | Placeholder

  /** What `readDirR` returns: the bare path for a non-directory, a flat
      list for a directory. */
  datatype Listing = Bare(path: string) | Entries(entries: seq<Entry>)

  /** A name `fs.readdirSync` can return: non-empty and free of '/'. */
  predicate ValidName(n: string) {
    |n| > 0 && '/' !in n
  }

  /** Every directory below (and including) `node` lists children with
      valid, pairwise different names, as a real filesystem does. The name
      of `node` itself is not used by the scan and is not constrained. */
  ghost predicate WellFormed(node: Node)
    decreases node
  {
    match node
    case File(_) => true
    case Dir(_, cs) =>
      && ValidChildren(cs)
      && (forall i, j :: 0 <= i < j < |cs| ==> cs[i].name != cs[j].name)
  }

  /** Every child has a valid name and is itself well formed. */
  ghost predicate ValidChildren(cs: seq<Node>)
    decreases cs, 0
  {
    forall i :: 0 <= i < |cs| ==> ValidName(cs[i].name) && WellFormed(cs[i])
  }

  /** The prefix `path.join(dir, name)` puts before `name`. */
  function Separator(dir: string): (s: string)
    ensures s == [] || s[|s| - 1] == '/'
    ensures IsPrefix(dir, s)
  {
    if dir == [] then []
    else if dir[|dir| - 1] == '/' then dir
    else dir + "/"
  }

  /** `path.join(dir, name)` for an entry name returned by `readdirSync`:
      `name` follows `dir` after exactly one '/'. */
  function JoinPath(dir: string, name: string): (r: string)
    ensures IsSuffix(name, r)
    ensures dir == [] ==> r == name
    ensures dir != [] ==> IsPrefix(dir, r) && |r| > |name| && r[|r| - |name| - 1] == '/'
    ensures dir != [] && dir[|dir| - 1] != '/' ==> |r| == |dir| + 1 + |name|
    ensures dir != [] && dir[|dir| - 1] == '/' ==> |r| == |dir| + |name|
  {
    Separator(dir) + name
  }

  /** Joining a name to a directory and taking the last segment gives the
      name back. */
  lemma JoinThenLastSegment(dir: string, name: string)
    requires '/' !in name
    ensures LastSegment(JoinPath(dir, name)) == name
  {
    LastSegmentAfterSlash(Separator(dir), name);
  }

  /** How `Array.prototype.concat` spreads one argument: a list contributes
      its elements, a string contributes itself. */
  function Spread(l: Listing): seq<Entry> {
    match l
    case Bare(p) => [Path(p)]
    case Entries(es) => es
  }

  /** `readDirR(path)` when `node` is what lies at `path`. */
  function ReadDirR(path: string, node: Node): (r: Listing)
    decreases node
    ensures node.File? <==> r.Bare?
    ensures r.Bare? ==> r.path == path
    ensures r.Entries? ==> |r.entries| > 0 && r.entries[0] == Placeholder
  {
    match node
    case File(_) => Bare(path)
    case Dir(_, cs) => Entries([Placeholder] + ReadChildren(path, cs))
  }

  /** `concat(...fs.readdirSync(dir).map(f => readDirR(path.join(dir, f))))`
      for the children `cs` of the directory at `dir`. */
  function ReadChildren(dir: string, cs: seq<Node>): seq<Entry>
    decreases cs
  {
    if cs == [] then []
    else Spread(ReadDirR(JoinPath(dir, cs[0].name), cs[0])) + ReadChildren(dir, cs[1..])
  }

  /** The path strings of a listing, in order. */
  function Strings(es: seq<Entry>): (r: seq<string>)
    ensures forall x :: x in r <==> Path(x) in es
    ensures |r| + PlaceholderCount(es) == |es|
  {
    if es == [] then []
    else if es[0].Path? then [es[0].path] + Strings(es[1..])
    else Strings(es[1..])
  }

  function PlaceholderCount(es: seq<Entry>): nat {
    if es == [] then 0
    else (if es[0].Placeholder? then 1 else 0) + PlaceholderCount(es[1..])
  }

  /** Reference definition: the paths of the plain files at or below `node`
      at `path`, in enumeration order, depth first. */
  function LeafPaths(path: string, node: Node): seq<string>
    decreases node
  {
    match node
    case File(_) => [path]
    case Dir(_, cs) => ChildLeafPaths(path, cs)
  }

  function ChildLeafPaths(dir: string, cs: seq<Node>): seq<string>
    decreases cs
  {
    if cs == [] then []
    else LeafPaths(JoinPath(dir, cs[0].name), cs[0]) + ChildLeafPaths(dir, cs[1..])
  }

  /** Number of directories at or below `node`. */
  function DirCount(node: Node): nat
    decreases node
  {
    match node
    case File(_) => 0
    case Dir(_, cs) => 1 + ChildDirCount(cs)
  }

  function ChildDirCount(cs: seq<Node>): nat
    decreases cs
  {
    if cs == [] then 0 else DirCount(cs[0]) + ChildDirCount(cs[1..])
  }

  lemma {:induction false} StringsConcat(a: seq<Entry>, b: seq<Entry>)
    ensures Strings(a + b) == Strings(a) + Strings(b)
    ensures PlaceholderCount(a + b) == PlaceholderCount(a) + PlaceholderCount(b)
  {
    if a != [] {
      assert (a + b)[1..] == a[1..] + b;
      StringsConcat(a[1..], b);
    } else {
      assert a + b == b;
    }
  }

  /** The path strings `readDirR` yields for a node are exactly its leaf
      file paths, each in enumeration order, at any depth; and it yields
      exactly one placeholder per directory. */
  lemma {:induction false} ScanYieldsLeaves(path: string, node: Node)
    decreases node
    ensures Strings(Spread(ReadDirR(path, node))) == LeafPaths(path, node)
    ensures PlaceholderCount(Spread(ReadDirR(path, node))) == DirCount(node)
  {
    match node
    case File(_) =>
    case Dir(_, cs) =>
      ChildrenYieldLeaves(path, cs);
      StringsConcat([Placeholder], ReadChildren(path, cs));
  }

  lemma {:induction false} ChildrenYieldLeaves(dir: string, cs: seq<Node>)
    decreases cs
    ensures Strings(ReadChildren(dir, cs)) == ChildLeafPaths(dir, cs)
    ensures PlaceholderCount(ReadChildren(dir, cs)) == ChildDirCount(cs)
  {
    if cs != [] {
      var head := Spread(ReadDirR(JoinPath(dir, cs[0].name), cs[0]));
      ScanYieldsLeaves(JoinPath(dir, cs[0].name), cs[0]);
      ChildrenYieldLeaves(dir, cs[1..]);
      StringsConcat(head, ReadChildren(dir, cs[1..]));
    }
  }

  /** On a directory, `readDirR` returns a list whose path strings are the
      leaf file paths below it and whose placeholders number one per
      directory, the scanned one included. */
  lemma ScanDirectory(path: string, node: Node)
    requires node.Dir?
    ensures ReadDirR(path, node).Entries?
    ensures Strings(ReadDirR(path, node).entries) == LeafPaths(path, node)
    ensures PlaceholderCount(ReadDirR(path, node).entries) == DirCount(node)
  {
    ScanYieldsLeaves(path, node);
  }

  /** An empty directory yields its placeholder and nothing else. */
  lemma ScanEmptyDirectory(path: string, name: string)
    ensures ReadDirR(path, Dir(name, [])) == Entries([Placeholder])
  {
  }

  /** `x` is the path `c` itself or a path below it. */
  predicate Under(x: string, c: string) {
    IsPrefix(c, x) && (|x| == |c| || x[|c|] == '/')
  }

  /** A path below one sibling entry is not below another. */
  lemma UnderOneSibling(x: string, s: string, n1: string, n2: string)
    requires ValidName(n1) && ValidName(n2) && n1 != n2
    requires Under(x, s + n1)
    ensures !Under(x, s + n2)
  {
    if |n1| < |n2| {
      assert n2[|n1|] != '/' by { assert n2[|n1|] in n2; }
      if |x| >= |s + n2| {
        assert x[..|s + n2|][|s + n1|] != (s + n2)[|s + n1|];
      }
    } else if |n2| < |n1| {
      assert n1[|n2|] != '/' by { assert n1[|n2|] in n1; }
      assert x[|s + n2|] == (s + n1)[|s + n2|];
    } else {
      assert x[..|s + n2|] == s + n1;
      assert (s + n1)[|s|..] == n1;
      assert (s + n2)[|s|..] == n2;
    }
  }

  /** `x` lies below one of the children `cs` of `dir`. */
  ghost predicate BelowSomeChild(x: string, dir: string, cs: seq<Node>) {
    exists k :: 0 <= k < |cs| && Under(x, JoinPath(dir, cs[k].name))
  }

  /** A path joined from a directory and a valid name does not end in '/'. */
  lemma JoinedEndsClean(dir: string, n: string)
    requires ValidName(n)
    ensures |JoinPath(dir, n)| > 0 && JoinPath(dir, n)[|JoinPath(dir, n)| - 1] != '/'
  {
    var p := JoinPath(dir, n);
    assert p[|p| - 1] == n[|n| - 1];
    assert n[|n| - 1] in n;
  }

  /** Every leaf path of a well-formed tree lies below the scanned path,
      when that path does not end in '/'. */
  lemma {:induction false} LeavesUnder(path: string, node: Node)
    requires WellFormed(node)
    requires |path| > 0 && path[|path| - 1] != '/'
    decreases node
    ensures forall x :: x in LeafPaths(path, node) ==> Under(x, path)
  {
    match node
    case File(_) =>
    case Dir(_, cs) =>
      LeavesBelowChildren(path, cs);
      forall x | x in ChildLeafPaths(path, cs)
        ensures Under(x, path)
      {
        assert BelowSomeChild(x, path, cs);
        var k :| 0 <= k < |cs| && Under(x, JoinPath(path, cs[k].name));
        var c := JoinPath(path, cs[k].name);
        assert x[..|c|][|path|] == '/';
      }
  }

  /** Every leaf path below the children `cs` of `dir` lies below one of
      those children. */
  lemma {:induction false} LeavesBelowChildren(dir: string, cs: seq<Node>)
    requires ValidChildren(cs)
    decreases cs
    ensures forall x :: x in ChildLeafPaths(dir, cs) ==> BelowSomeChild(x, dir, cs)
  {
    if cs != [] {
      var p := JoinPath(dir, cs[0].name);
      JoinedEndsClean(dir, cs[0].name);
      LeavesUnder(p, cs[0]);
      assert ValidChildren(cs[1..]) by {
        forall i | 0 <= i < |cs[1..]| ensures ValidName(cs[1..][i].name) && WellFormed(cs[1..][i]) {
          assert cs[1..][i] == cs[i + 1];
        }
      }
      LeavesBelowChildren(dir, cs[1..]);
      assert ChildLeafPaths(dir, cs) == LeafPaths(p, cs[0]) + ChildLeafPaths(dir, cs[1..]);
      forall x | x in ChildLeafPaths(dir, cs)
        ensures BelowSomeChild(x, dir, cs)
      {
        if x in LeafPaths(p, cs[0]) {
          assert Under(x, JoinPath(dir, cs[0].name));
        } else {
          assert BelowSomeChild(x, dir, cs[1..]);
          var k :| 0 <= k < |cs[1..]| && Under(x, JoinPath(dir, cs[1..][k].name));
          assert cs[1..][k] == cs[k + 1];
        }
      }
    }
  }

  /** In a well-formed tree no file path is listed twice. */
  lemma {:induction false} LeafPathsDistinct(path: string, node: Node)
    requires WellFormed(node)
    decreases node
    ensures Distinct(LeafPaths(path, node))
  {
    match node
    case File(_) =>
    case Dir(_, cs) => ChildLeafPathsDistinct(path, cs);
  }

  /** The leaves of the first child and those of its later siblings are
      disjoint. */
  lemma FirstChildDisjoint(dir: string, cs: seq<Node>)
    requires |cs| > 0
    requires ValidChildren(cs)
    requires forall i, j :: 0 <= i < j < |cs| ==> cs[i].name != cs[j].name
    ensures forall x, y ::
      (x in LeafPaths(JoinPath(dir, cs[0].name), cs[0]) && y in ChildLeafPaths(dir, cs[1..])) ==> x != y
  {
    var p := JoinPath(dir, cs[0].name);
    var rest := cs[1..];
    JoinedEndsClean(dir, cs[0].name);
    LeavesUnder(p, cs[0]);
    LeavesBelowChildren(dir, rest);
    forall x, y | x in LeafPaths(p, cs[0]) && y in ChildLeafPaths(dir, rest)
      ensures x != y
    {
      assert BelowSomeChild(y, dir, rest);
      var k :| 0 <= k < |rest| && Under(y, JoinPath(dir, rest[k].name));
      assert rest[k] == cs[k + 1];
      UnderOneSibling(x, Separator(dir), cs[0].name, rest[k].name);
    }
  }

  lemma {:induction false} ChildLeafPathsDistinct(dir: string, cs: seq<Node>)
    requires ValidChildren(cs)
    requires forall i, j :: 0 <= i < j < |cs| ==> cs[i].name != cs[j].name
    decreases cs
    ensures Distinct(ChildLeafPaths(dir, cs))
  {
    if cs != [] {
      var p := JoinPath(dir, cs[0].name);
      LeafPathsDistinct(p, cs[0]);
      ChildLeafPathsDistinct(dir, cs[1..]);
      FirstChildDisjoint(dir, cs);
      DistinctConcat(LeafPaths(p, cs[0]), ChildLeafPaths(dir, cs[1..]));
    }
  }
}
