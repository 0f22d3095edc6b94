/** The walk of a backup over a file tree: for each directory its entries in
    order of their names, then its subdirectories one after another. */
module Walk {
  import opened Bytes
  import opened Names

  datatype Meta = Meta(perms: nat, user: Bytes, group: Bytes, atime: nat, ctime: nat, mtime: nat)

  /** One entry of the tree as `lstat` shows it.  A regular file says how many
      links it has, and on which device which inode it is. */
  datatype Entry =
    | Regular(meta: Meta, content: Bytes, nlink: nat, dev: nat, ino: nat)
    | Directory(meta: Meta, mount: bool)
    | Symlink(meta: Meta, target: Bytes)

  type Tree = map<Path, Entry>

  /** Paths are names joined to the path of a directory of the tree. */
  ghost predicate TreePath(tree: Tree, p: Path)
  {
    && ValidName(BaseName(p)) && p == Join(Parent(p), BaseName(p))
    && (Parent(p) == ROOT || (Parent(p) in tree && tree[Parent(p)].Directory?))
  }

  ghost predicate WellFormed(tree: Tree)
  {
    forall p :: p in tree ==> TreePath(tree, p)
  }

  /** What the user asked for: paths to leave out, and whether to enter mount
      points. */
  datatype Options = Options(excluded: set<Path>, crossfs: bool)

  ghost predicate Entered(tree: Tree, opts: Options, p: Path)
  {
    p in tree && tree[p].Directory? && (opts.crossfs || !tree[p].mount)
  }

  /** `p` is below `dir` and nothing on the way is left out. */
  ghost predicate SelectedBelow(tree: Tree, opts: Options, p: Path, dir: Path)
    decreases |p|
  {
    && p in tree && p !in opts.excluded
    && (Parent(p) == dir
        || (|Parent(p)| < |p| && Entered(tree, opts, Parent(p)) && SelectedBelow(tree, opts, Parent(p), dir)))
  }

  /** The entries of one directory that are kept. */
  ghost function ChildNames(tree: Tree, opts: Options, dir: Path): set<Name>
  {
    set p | p in tree && Parent(p) == dir && p !in opts.excluded :: BaseName(p)
  }

  ghost function Children(tree: Tree, opts: Options, dir: Path): (names: seq<Name>)
    ensures Sorted(names) && forall n :: n in names <==> n in ChildNames(tree, opts, dir)
  {
    SortedList(ChildNames(tree, opts, dir))
  }

  /** What lies deeper than `dir`; it shrinks on the way down. */
  ghost function Deeper(tree: Tree, dir: Path): set<Path>
  {
    set p | p in tree && |p| > Depth(dir)
  }

  lemma {:induction false} ChildPath(tree: Tree, opts: Options, dir: Path, n: Name)
    requires WellFormed(tree) && n in ChildNames(tree, opts, dir)
    ensures var p := Join(dir, n);
            && p in tree && p !in opts.excluded && Parent(p) == dir && BaseName(p) == n && ValidName(n)
            && |p| > Depth(dir) && p != ROOT && Depth(p) == |p|
  {
    var p :| p in tree && Parent(p) == dir && p !in opts.excluded && BaseName(p) == n;
    assert TreePath(tree, p);
    SplitJoin(dir, n);
  }

  lemma {:induction false} ChildName(tree: Tree, opts: Options, p: Path)
    requires WellFormed(tree) && p in tree && p !in opts.excluded
    ensures BaseName(p) in ChildNames(tree, opts, Parent(p)) && p == Join(Parent(p), BaseName(p))
  {
    assert TreePath(tree, p);
  }

  /** The subdirectories among the entries, in order. */
  ghost function Subdirs(tree: Tree, opts: Options, dir: Path, names: seq<Name>): (dirs: seq<Path>)
    ensures forall d :: d in dirs ==> exists n :: n in names && d == Join(dir, n) && Entered(tree, opts, d)
  {
    if names == [] then []
    else
      var rest := Subdirs(tree, opts, dir, names[1..]);
      var d := Join(dir, names[0]);
      assert forall e :: e in rest ==> exists n :: n in names[1..] && e == Join(dir, n) && Entered(tree, opts, e);
      if Entered(tree, opts, d) then [d] + rest else rest
  }

  /** One line of an index: whose it is, and the name as written. */
  datatype Line = Line(path: Path, rel: Bytes)

  ghost function OwnLines(dir: Path, names: seq<Name>): (lines: seq<Line>)
    ensures |lines| == |names|
    ensures forall i :: 0 <= i < |names| ==> lines[i] == Line(Join(dir, names[i]), RelName(dir, names[i], i == 0))
  {
    seq(|names|, i requires 0 <= i < |names| => Line(Join(dir, names[i]), RelName(dir, names[i], i == 0)))
  }

  ghost function WalkDir(tree: Tree, opts: Options, dir: Path): seq<Line>
    requires WellFormed(tree)
    decreases Deeper(tree, dir), 1, 0
  {
    var names := Children(tree, opts, dir);
    SubdirsAreBelow(tree, opts, dir, names);
    OwnLines(dir, names) + WalkAll(tree, opts, dir, Subdirs(tree, opts, dir, names))
  }

  ghost predicate SubdirOf(tree: Tree, opts: Options, dir: Path, d: Path)
  {
    Entered(tree, opts, d) && d !in opts.excluded && Parent(d) == dir && d != ROOT && |d| > Depth(dir)
  }

  ghost function WalkAll(tree: Tree, opts: Options, dir: Path, dirs: seq<Path>): seq<Line>
    requires WellFormed(tree) && forall d :: d in dirs ==> SubdirOf(tree, opts, dir, d)
    decreases Deeper(tree, dir), 0, |dirs|
  {
    if dirs == [] then []
    else
      assert SubdirOf(tree, opts, dir, dirs[0]);
      assert dirs[0] in Deeper(tree, dir) && dirs[0] !in Deeper(tree, dirs[0]);
      WalkDir(tree, opts, dirs[0]) + WalkAll(tree, opts, dir, dirs[1..])
  }

  lemma {:induction false} SubdirsAreBelow(tree: Tree, opts: Options, dir: Path, names: seq<Name>)
    requires WellFormed(tree) && forall n :: n in names ==> n in ChildNames(tree, opts, dir)
    ensures forall d :: d in Subdirs(tree, opts, dir, names) ==> SubdirOf(tree, opts, dir, d)
  {
    forall d | d in Subdirs(tree, opts, dir, names)
      ensures SubdirOf(tree, opts, dir, d)
    {
      var n :| n in names && d == Join(dir, n) && Entered(tree, opts, d);
      ChildPath(tree, opts, dir, n);
    }
  }

  /** All lines of an index. */
  ghost function Index(tree: Tree, opts: Options): seq<Line>
    requires WellFormed(tree)
  {
    WalkDir(tree, opts, ROOT)
  }
}
