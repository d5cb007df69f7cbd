/**
 * The tree walk of getAllFiles (generate_manifest.js:12-28). The directory
 * listing returned by `fs.readdirSync` becomes an ordered sequence of
 * entries; a path is the sequence of its components, the root `/` being the
 * empty sequence.
 */
module Tree {
  import opened Wrappers
  import opened Exclusion

  type Path = seq<string>

  /** A directory entry: a regular file, or a subdirectory with its own listing. */
  datatype Node = File(name: string) | Dir(name: string, entries: seq<Node>)

  /** `{ abs, rel }`: the file's full path and its `/`-separated path from the scan root. */
  datatype FileEntry = FileEntry(abs: Path, rel: string)

  /** Real directories never list two entries with the same name. */
  ghost predicate WellFormed(list: seq<Node>)
    decreases list
  {
    (forall i, j :: 0 <= i < j < |list| ==> list[i].name != list[j].name) &&
    (forall i :: 0 <= i < |list| && list[i].Dir? ==> WellFormed(list[i].entries))
  }

  // ----- relative paths -----

  /** Components joined by a separator, as `path.join`/`path.relative` print them. */
  function Join(comps: Path, sep: char): string
  {
    if |comps| == 0 then ""
    else if |comps| == 1 then comps[0]
    else comps[0] + [sep] + Join(comps[1..], sep)
  }

  /** `.replace(/\\/g, '/')`: every backslash becomes a slash. */
  function ToSlash(s: string): (r: string)
    ensures |r| == |s|
    ensures '\\' !in r
    ensures forall i :: 0 <= i < |s| ==> r[i] == if s[i] == '\\' then '/' else s[i]
  {
    seq(|s|, i requires 0 <= i < |s| => if s[i] == '\\' then '/' else s[i])
  }

  /** The `rel` of a file whose path below the scan root has components `comps`. */
  function SlashPath(comps: Path): string
  {
    ToSlash(Join(comps, '/'))
  }

  lemma ToSlashAppend(a: string, b: string)
    ensures ToSlash(a + b) == ToSlash(a) + ToSlash(b)
  {
    assert forall i :: 0 <= i < |a + b| ==> (a + b)[i] == if i < |a| then a[i] else b[i - |a|];
  }

  /**
   * The relative path does not depend on the host: joining with `\` (Windows)
   * or `/` (POSIX) and then replacing backslashes gives the same string.
   */
  lemma {:induction false} RelPathPortable(comps: Path, sep: char)
    requires sep == '/' || sep == '\\'
    ensures ToSlash(Join(comps, sep)) == SlashPath(comps)
  {
    if |comps| > 1 {
      RelPathPortable(comps[1..], sep);
      ToSlashAppend(comps[0] + [sep], Join(comps[1..], sep));
      ToSlashAppend(comps[0], [sep]);
      ToSlashAppend(comps[0] + ['/'], Join(comps[1..], '/'));
      ToSlashAppend(comps[0], ['/']);
    }
  }

  /** `String.prototype.split` with a one-character separator. */
  function Split(s: string, sep: char): (parts: seq<string>)
    ensures |parts| > 0
  {
    if s == [] then [""]
    else
      var rest := Split(s[1..], sep);
      if s[0] == sep then [""] + rest else [[s[0]] + rest[0]] + rest[1..]
  }

  lemma {:induction false} SplitAfterComponent(c: string, sep: char, t: string)
    requires sep !in c
    ensures Split(c + [sep] + t, sep) == [c] + Split(t, sep)
  {
    if c == [] {
      assert c + [sep] + t == [sep] + t;
    } else {
      var s := c + [sep] + t;
      assert s[0] == c[0] && s[1..] == c[1..] + [sep] + t;
      SplitAfterComponent(c[1..], sep, t);
      assert [c[0]] + c[1..] == c;
    }
  }

  lemma {:induction false} SplitNoSeparator(c: string, sep: char)
    requires sep !in c
    ensures Split(c, sep) == [c]
  {
    if c != [] {
      SplitNoSeparator(c[1..], sep);
      assert [c[0]] + c[1..] == c;
    }
  }

  /**
   * Splitting `rel` at `/` gives back the components, provided no component
   * holds a `/` or `\`: for names from a real listing the relative path
   * identifies the file.
   */
  lemma {:induction false} SlashPathSplit(comps: Path)
    requires |comps| > 0
    requires forall k :: 0 <= k < |comps| ==> '/' !in comps[k] && '\\' !in comps[k]
    ensures Split(SlashPath(comps), '/') == comps
  {
    RelPathPortable(comps, '\\');
    JoinPlain(comps);
    SplitJoin(comps);
  }

  lemma {:induction false} JoinPlain(comps: Path)
    requires forall k :: 0 <= k < |comps| ==> '\\' !in comps[k]
    ensures ToSlash(Join(comps, '/')) == Join(comps, '/')
  {
    if |comps| > 1 {
      JoinPlain(comps[1..]);
      ToSlashAppend(comps[0] + ['/'], Join(comps[1..], '/'));
      ToSlashAppend(comps[0], ['/']);
      assert ToSlash(comps[0]) == comps[0];
    } else if |comps| == 1 {
      assert ToSlash(comps[0]) == comps[0];
    }
  }

  lemma {:induction false} SplitJoin(comps: Path)
    requires |comps| > 0
    requires forall k :: 0 <= k < |comps| ==> '/' !in comps[k]
    ensures Split(Join(comps, '/'), '/') == comps
  {
    if |comps| == 1 {
      SplitNoSeparator(comps[0], '/');
    } else {
      SplitJoin(comps[1..]);
      SplitAfterComponent(comps[0], '/', Join(comps[1..], '/'));
    }
  }

  /**
   * On POSIX a file name may itself contain `\`; after the replacement any
   * file named `a\b` and the file `b` in directory `a` share one `rel`.
   */
  lemma BackslashNamesShareRel(a: string, b: string)
    ensures SlashPath([a + ['\\'] + b]) == SlashPath([a, b])
  {
    RelPathPortable([a, b], '\\');
    assert Join([a, b], '\\') == a + ['\\'] + b;
  }

  // ----- the enumeration -----

  function Prefixed(name: string, ps: seq<Path>): (r: seq<Path>)
    ensures |r| == |ps|
    ensures forall k :: 0 <= k < |ps| ==> r[k] == [name] + ps[k]
  {
    seq(|ps|, k requires 0 <= k < |ps| => [name] + ps[k])
  }

  /** The component paths, below the entry, of the files listed for one directory entry. */
  function NodePaths(n: Node): (r: seq<Path>)
    ensures forall k :: 0 <= k < |r| ==> |r[k]| > 0 && r[k][0] == n.name
    decreases n
  {
    match n
    case File(name) => if Kept(name) then [[name]] else []
    case Dir(name, entries) => Prefixed(name, Paths(entries))
  }

  /**
   * The component paths, below `list`, of the files getAllFiles lists, in
   * the order it lists them: depth first, each directory in listing order.
   */
  function Paths(list: seq<Node>): (r: seq<Path>)
    ensures forall k :: 0 <= k < |r| ==> |r[k]| > 0
    decreases list
  {
    if list == [] then [] else NodePaths(list[0]) + Paths(list[1..])
  }

  lemma PathsCons(x: Node, rest: seq<Node>)
    ensures Paths([x] + rest) == NodePaths(x) + Paths(rest)
  {
    assert ([x] + rest)[0] == x && ([x] + rest)[1..] == rest;
  }

  lemma PathsOne(x: Node)
    ensures Paths([x]) == NodePaths(x)
  {
    PathsCons(x, []);
    assert [x] + [] == [x];
  }

  /** Every path listed for an entry starts with the entry's name. */
  lemma NodePathsHead(n: Node, p: Path)
    requires p in NodePaths(n)
    ensures |p| > 0 && p[0] == n.name
  {
    match n
    case File(name) =>
    case Dir(name, entries) =>
      var k :| 0 <= k < |Paths(entries)| && p == [name] + Paths(entries)[k];
  }

  /** Every listed path is non-empty and ends in a name that passes the filter. */
  lemma {:induction false} PathsKept(list: seq<Node>, p: Path)
    requires p in Paths(list)
    ensures |p| > 0 && Kept(p[|p| - 1])
    decreases list
  {
    if p in NodePaths(list[0]) {
      match list[0]
      case File(name) =>
      case Dir(name, entries) =>
        var k :| 0 <= k < |Paths(entries)| && p == [name] + Paths(entries)[k];
        PathsKept(entries, Paths(entries)[k]);
    } else {
      PathsKept(list[1..], p);
    }
  }

  // ----- exactly once, against lookup by path -----

  /** The first entry of the listing with this name. */
  function Find(list: seq<Node>, name: string): (r: Option<Node>)
    ensures r.Some? ==> r.value in list && r.value.name == name
    ensures r.None? ==> forall i :: 0 <= i < |list| ==> list[i].name != name
  {
    if list == [] then None
    else if list[0].name == name then Some(list[0])
    else Find(list[1..], name)
  }

  /** The entry reached by following the components of `p` down from a listing. */
  function Lookup(list: seq<Node>, p: Path): Option<Node>
    decreases |p|
  {
    if p == [] then None
    else
      match Find(list, p[0])
      case None => None
      case Some(n) =>
        if |p| == 1 then Some(n)
        else
          match n
          case File(_) => None
          case Dir(_, entries) => Lookup(entries, p[1..])
  }

  /** Path `p` leads to a regular file whose name passes the filter. */
  predicate IsKeptFile(list: seq<Node>, p: Path)
  {
    match Lookup(list, p)
    case Some(File(name)) => Kept(name)
    case _ => false
  }

  ghost predicate Distinct<T>(s: seq<T>)
  {
    forall i, j :: 0 <= i < j < |s| ==> s[i] != s[j]
  }

  lemma LookupSkipsFirst(list: seq<Node>, p: Path)
    requires list != [] && p != [] && list[0].name != p[0]
    ensures Lookup(list, p) == Lookup(list[1..], p)
  {
  }

  /** Completeness: every kept file reachable by path is listed. */
  lemma {:induction false} PathsComplete(list: seq<Node>, p: Path)
    requires IsKeptFile(list, p)
    ensures p in Paths(list)
    decreases list
  {
    assert list != [];
    if list[0].name == p[0] {
      match list[0]
      case File(name) =>
        assert p == [name];
      case Dir(name, entries) =>
        assert |p| > 1 && Lookup(list, p) == Lookup(entries, p[1..]);
        PathsComplete(entries, p[1..]);
        var k :| 0 <= k < |Paths(entries)| && Paths(entries)[k] == p[1..];
        assert Prefixed(name, Paths(entries))[k] == p;
    } else {
      LookupSkipsFirst(list, p);
      PathsComplete(list[1..], p);
    }
  }

  /** Soundness: in a real tree every listed path leads to a kept file. */
  lemma {:induction false} PathsSound(list: seq<Node>, p: Path)
    requires WellFormed(list)
    requires p in Paths(list)
    ensures IsKeptFile(list, p)
    decreases list
  {
    PathsKept(list, p);
    if p in NodePaths(list[0]) {
      match list[0]
      case File(name) =>
        assert p == [name];
      case Dir(name, entries) =>
        var k :| 0 <= k < |Paths(entries)| && p == [name] + Paths(entries)[k];
        var q := Paths(entries)[k];
        PathsKept(entries, q);
        assert WellFormed(entries);
        PathsSound(entries, q);
        assert p[1..] == q;
    } else {
      WellFormedTail(list);
      PathsSound(list[1..], p);
      RestHeadsDiffer(list, p);
      LookupSkipsFirst(list, p);
    }
  }

  lemma WellFormedTail(list: seq<Node>)
    requires WellFormed(list) && list != []
    ensures WellFormed(list[1..])
  {
    forall i | 0 <= i < |list[1..]| && list[1..][i].Dir?
      ensures WellFormed(list[1..][i].entries)
    {
      assert list[1..][i] == list[i + 1];
    }
  }

  /** A path listed after the first entry does not start with the first entry's name. */
  lemma RestHeadsDiffer(list: seq<Node>, p: Path)
    requires WellFormed(list) && list != []
    requires p in Paths(list[1..])
    ensures |p| > 0 && p[0] != list[0].name
  {
    WellFormedTail(list);
    PathsKept(list[1..], p);
    PathsSound(list[1..], p);
    var found := Find(list[1..], p[0]);
    var j :| 0 <= j < |list[1..]| && list[1..][j] == found.value;
    assert list[0].name != list[j + 1].name;
  }

  lemma DistinctAppend<T>(a: seq<T>, b: seq<T>)
    requires Distinct(a) && Distinct(b)
    requires forall x :: x in a ==> x !in b
    ensures Distinct(a + b)
  {
    forall i, j | 0 <= i < j < |a + b|
      ensures (a + b)[i] != (a + b)[j]
    {
      if j < |a| {
      } else if i >= |a| {
        assert (a + b)[i] == b[i - |a|] && (a + b)[j] == b[j - |a|];
      } else {
        assert (a + b)[i] in a && (a + b)[j] in b;
      }
    }
  }

  /** No duplicates: in a real tree no file is listed twice. */
  lemma {:induction false} PathsDistinct(list: seq<Node>)
    requires WellFormed(list)
    ensures Distinct(Paths(list))
    decreases list
  {
    if list != [] {
      var here := NodePaths(list[0]);
      var rest := Paths(list[1..]);
      WellFormedTail(list);
      PathsDistinct(list[1..]);
      match list[0] {
        case File(name) =>
        case Dir(name, entries) =>
          PathsDistinct(entries);
          var ps := Paths(entries);
          forall i, j | 0 <= i < j < |here|
            ensures here[i] != here[j]
          {
            assert here[i][1..] == ps[i] && here[j][1..] == ps[j];
          }
      }
      forall x | x in here
        ensures x !in rest
      {
        NodePathsHead(list[0], x);
        if x in rest {
          RestHeadsDiffer(list, x);
        }
      }
      DistinctAppend(here, rest);
    }
  }

  /** The entries getAllFiles(dir, base) returns for the listing `list` of `dir`. */
  function Walk(list: seq<Node>, dir: Path, base: Path): (r: seq<FileEntry>)
    requires |base| <= |dir|
    ensures |r| == |Paths(list)|
    ensures forall k :: 0 <= k < |r| ==> r[k].abs == dir + Paths(list)[k] && '\\' !in r[k].rel
  {
    var ps := Paths(list);
    seq(|ps|, k requires 0 <= k < |ps| => FileEntry(dir + ps[k], SlashPath(dir[|base|..] + ps[k])))
  }

  /** Listing order is kept: the files of a listing split in two are those of the halves, in order. */
  lemma {:induction false} PathsAppend(a: seq<Node>, b: seq<Node>)
    ensures Paths(a + b) == Paths(a) + Paths(b)
    decreases a
  {
    if a == [] {
      assert a + b == b;
    } else {
      assert (a + b)[0] == a[0] && (a + b)[1..] == a[1..] + b;
      PathsAppend(a[1..], b);
    }
  }

  /**
   * A subdirectory's files sit exactly where the subdirectory stands in its
   * parent's listing, whatever its name (a hidden directory such as `.git`
   * included).
   */
  lemma {:induction false} SubtreeInPlace(list: seq<Node>, i: int)
    requires 0 <= i < |list| && list[i].Dir?
    ensures Paths(list) ==
      Paths(list[..i]) + Prefixed(list[i].name, Paths(list[i].entries)) + Paths(list[i + 1..])
  {
    var pre, x, post := list[..i], list[i], list[i + 1..];
    assert list == pre + ([x] + post);
    PathsAppend(pre, [x] + post);
    PathsCons(x, post);
    assert NodePaths(x) == Prefixed(x.name, Paths(x.entries));
    calc {
      Paths(list);
      Paths(pre) + (NodePaths(x) + Paths(post));
      Paths(pre) + NodePaths(x) + Paths(post);
    }
  }

  lemma WalkAppend(a: seq<Node>, b: seq<Node>, dir: Path, base: Path)
    requires |base| <= |dir|
    ensures Walk(a + b, dir, base) == Walk(a, dir, base) + Walk(b, dir, base)
  {
    PathsAppend(a, b);
    var w, wa, wb := Walk(a + b, dir, base), Walk(a, dir, base), Walk(b, dir, base);
    var pa := Paths(a);
    forall k | 0 <= k < |w|
      ensures w[k] == (wa + wb)[k]
    {
      if k >= |pa| {
        assert Paths(a + b)[k] == Paths(b)[k - |pa|];
      }
    }
  }

  lemma WalkFile(name: string, dir: Path, base: Path)
    requires |base| <= |dir|
    ensures Walk([File(name)], dir, base) ==
      if Kept(name) then [FileEntry(dir + [name], SlashPath((dir + [name])[|base|..]))] else []
  {
    PathsOne(File(name));
    assert (dir + [name])[|base|..] == dir[|base|..] + [name];
  }

  lemma WalkDir(name: string, entries: seq<Node>, dir: Path, base: Path)
    requires |base| <= |dir|
    ensures Walk([Dir(name, entries)], dir, base) == Walk(entries, dir + [name], base)
  {
    var n := Dir(name, entries);
    var ps := Paths(entries);
    PathsOne(n);
    var lhs := Walk([n], dir, base);
    var rhs := Walk(entries, dir + [name], base);
    assert |lhs| == |rhs|;
    forall k | 0 <= k < |lhs|
      ensures lhs[k] == rhs[k]
    {
      assert dir + ([name] + ps[k]) == (dir + [name]) + ps[k];
      assert dir[|base|..] + ([name] + ps[k]) == (dir + [name])[|base|..] + ps[k];
    }
  }

  /**
   * getAllFiles(dir, baseDir): list `dir`, descend into every subdirectory,
   * keep the files that pass the filter, and return each with its full path
   * and its path relative to `baseDir`. `sep` is the host's path separator.
   */
  method GetAllFiles(list: seq<Node>, dir: Path, baseDir: Path, sep: char) returns (results: seq<FileEntry>)
    requires |baseDir| <= |dir| && dir[..|baseDir|] == baseDir
    requires sep == '/' || sep == '\\'
    ensures results == Walk(list, dir, baseDir)
    decreases list
  {
    results := [];
    for i := 0 to |list|
      invariant results == Walk(list[..i], dir, baseDir)
    {
      var file := list[i];
      var filePath := dir + [file.name];
      var relPath := ToSlash(Join(filePath[|baseDir|..], sep));
      assert list[..i + 1] == list[..i] + [file];
      WalkAppend(list[..i], [file], dir, baseDir);
      match file {
        case Dir(name, entries) =>
          WalkDir(name, entries, dir, baseDir);
          assert file in list;
          var sub := GetAllFiles(entries, filePath, baseDir, sep);
          results := results + sub;
        case File(name) =>
          WalkFile(name, dir, baseDir);
          RelPathPortable(filePath[|baseDir|..], sep);
          if Kept(name) {
            results := results + [FileEntry(filePath, relPath)];
          }
      }
    }
    assert list[..|list|] == list;
  }

  function AbsPaths(files: seq<FileEntry>): (r: seq<Path>)
    ensures |r| == |files| && forall k :: 0 <= k < |files| ==> r[k] == files[k].abs
  {
    seq(|files|, k requires 0 <= k < |files| => files[k].abs)
  }

  /**
   * Exactly once: in a real tree, the entries getAllFiles returns for `dir`
   * are the kept files below `dir`, each once, each with its `/`-separated
   * path from `base` as `rel`.
   */
  lemma WalkExactlyOnce(list: seq<Node>, dir: Path, base: Path)
    requires WellFormed(list)
    requires |base| <= |dir|
    ensures forall k :: 0 <= k < |Walk(list, dir, base)| ==>
      var f := Walk(list, dir, base)[k];
      |dir| < |f.abs| && f.abs[..|dir|] == dir && IsKeptFile(list, f.abs[|dir|..]) &&
      f.rel == SlashPath(f.abs[|base|..]) && '\\' !in f.rel
    ensures forall p :: IsKeptFile(list, p) ==> dir + p in AbsPaths(Walk(list, dir, base))
    ensures Distinct(AbsPaths(Walk(list, dir, base)))
  {
    var w := Walk(list, dir, base);
    var ps := Paths(list);
    forall k | 0 <= k < |w|
      ensures |dir| < |w[k].abs| && w[k].abs[..|dir|] == dir && IsKeptFile(list, w[k].abs[|dir|..])
      ensures w[k].rel == SlashPath(w[k].abs[|base|..])
    {
      PathsKept(list, ps[k]);
      PathsSound(list, ps[k]);
      assert w[k].abs[|dir|..] == ps[k];
      assert w[k].abs[|base|..] == dir[|base|..] + ps[k];
    }
    forall p | IsKeptFile(list, p)
      ensures dir + p in AbsPaths(w)
    {
      PathsComplete(list, p);
      var k :| 0 <= k < |ps| && ps[k] == p;
      assert AbsPaths(w)[k] == dir + p;
    }
    PathsDistinct(list);
    forall i, j | 0 <= i < j < |w|
      ensures AbsPaths(w)[i] != AbsPaths(w)[j]
    {
      assert AbsPaths(w)[i][|dir|..] == ps[i] && AbsPaths(w)[j][|dir|..] == ps[j];
    }
  }

  /** The end-to-end scenario's tree: two ordinary files, a hidden file, a manifest and `.git`. */
  function ExampleListing(): seq<Node>
  {
    [File("a.txt"), Dir("b", [File("c.bin")]), File("MANIFEST.JSON"), File(".hidden"),
     Dir(".git", [File("config")])]
  }

  lemma ExampleNames()
    ensures Kept("a.txt") && Kept("c.bin") && Kept("config")
    ensures !Kept("MANIFEST.JSON") && !Kept(".hidden")
  {
    assert Lowered("MANIFEST.JSON"[0..]) == "manifest.json";
  }

  /** `a.txt`, then `b/c.bin`, then `.git/config`; the manifest and the hidden file are skipped. */
  lemma ExamplePaths()
    ensures Paths(ExampleListing()) == [["a.txt"], ["b", "c.bin"], [".git", "config"]]
  {
    var list := ExampleListing();
    ExampleNames();
    PathsCons(list[0], list[1..]);
    PathsCons(list[1], list[2..]);
    PathsCons(list[2], list[3..]);
    PathsCons(list[3], list[4..]);
    assert list[4..] == [list[4]];
    PathsOne(list[4]);
    PathsOne(File("c.bin"));
    PathsOne(File("config"));
    assert ["b"] + ["c.bin"] == ["b", "c.bin"];
    assert Prefixed("b", [["c.bin"]]) == [["b", "c.bin"]];
    assert [".git"] + ["config"] == [".git", "config"];
    assert Prefixed(".git", [["config"]]) == [[".git", "config"]];
  }

  /** Scanning the example tree from its own root yields these `rel` paths. */
  lemma ExampleWalk(root: Path)
    ensures Walk(ExampleListing(), root, root) ==
      [FileEntry(root + ["a.txt"], "a.txt"),
       FileEntry(root + ["b", "c.bin"], "b/c.bin"),
       FileEntry(root + [".git", "config"], ".git/config")]
  {
    ExamplePaths();
    assert root[|root|..] == [];
    assert Join(["b", "c.bin"], '/') == "b/c.bin";
    assert Join([".git", "config"], '/') == ".git/config";
    assert SlashPath(["a.txt"]) == "a.txt";
    assert SlashPath(["b", "c.bin"]) == "b/c.bin";
    assert SlashPath([".git", "config"]) == ".git/config";
    var w := Walk(ExampleListing(), root, root);
    var ps := Paths(ExampleListing());
    assert |w| == 3;
    forall k | 0 <= k < 3
      ensures w[k] == FileEntry(root + ps[k], SlashPath(ps[k]))
    {
      assert root[|root|..] + ps[k] == ps[k];
    }
  }
}
