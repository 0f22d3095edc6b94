/** What the walk lists, and in what order. */
module WalkFacts {
  import opened Bytes
  import opened Names
  import opened Walk

  ghost predicate Listed(lines: seq<Line>, p: Path)
  {
    exists i :: 0 <= i < |lines| && lines[i].path == p
  }

  lemma {:induction false} ListedConcat(a: seq<Line>, b: seq<Line>, p: Path)
    ensures Listed(a + b, p) <==> Listed(a, p) || Listed(b, p)
  {
    if Listed(a, p) {
      var i :| 0 <= i < |a| && a[i].path == p;
      assert (a + b)[i].path == p;
    }
    if Listed(b, p) {
      var i :| 0 <= i < |b| && b[i].path == p;
      assert (a + b)[|a| + i].path == p;
    }
    if Listed(a + b, p) {
      var i :| 0 <= i < |a + b| && (a + b)[i].path == p;
      assert if i < |a| then a[i].path == p else b[i - |a|].path == p;
    }
  }

  // Below ------------------------------------------------------------------------

  lemma {:induction false} BelowIsLonger(tree: Tree, opts: Options, p: Path, dir: Path)
    requires WellFormed(tree) && SelectedBelow(tree, opts, p, dir)
    ensures |p| > Depth(dir)
    decreases |p|
  {
    assert TreePath(tree, p);
    SplitJoin(Parent(p), BaseName(p));
    if Parent(p) != dir {
      BelowIsLonger(tree, opts, Parent(p), dir);
      assert TreePath(tree, Parent(p));
    }
  }

  lemma {:induction false} RootIsNoPath(tree: Tree)
    requires WellFormed(tree)
    ensures ROOT !in tree
  {
    if ROOT in tree {
      assert TreePath(tree, ROOT);
      SplitJoin(Parent(ROOT), BaseName(ROOT));
    }
  }

  lemma {:induction false} ParentIsShorter(tree: Tree, opts: Options, p: Path)
    requires WellFormed(tree) && p in tree && Entered(tree, opts, Parent(p))
    ensures |Parent(p)| < |p|
  {
    RootIsNoPath(tree);
    assert TreePath(tree, p);
    SplitJoin(Parent(p), BaseName(p));
  }

  /** What is below a subdirectory is below the directory. */
  lemma {:induction false} BelowUp(tree: Tree, opts: Options, p: Path, d: Path, dir: Path)
    requires WellFormed(tree) && SelectedBelow(tree, opts, p, d) && SubdirOf(tree, opts, dir, d)
    ensures SelectedBelow(tree, opts, p, dir)
    decreases |p|
  {
    if Parent(p) == d {
      ParentIsShorter(tree, opts, p);
    } else {
      BelowUp(tree, opts, Parent(p), d, dir);
    }
  }

  /** What is below a directory and not in it is below one subdirectory. */
  lemma {:induction false} BelowVia(tree: Tree, opts: Options, p: Path, dir: Path) returns (d: Path)
    requires WellFormed(tree) && SelectedBelow(tree, opts, p, dir) && Parent(p) != dir
    ensures SubdirOf(tree, opts, dir, d) && SelectedBelow(tree, opts, p, d)
    decreases |p|
  {
    var q := Parent(p);
    if Parent(q) == dir {
      d := q;
      RootIsNoPath(tree);
      BelowIsLonger(tree, opts, q, dir);
    } else {
      d := BelowVia(tree, opts, q, dir);
    }
  }

  /** Nothing is below a subdirectory of itself. */
  lemma {:induction false} NotBelowSubdir(tree: Tree, opts: Options, dir: Path, d: Path)
    requires WellFormed(tree) && SubdirOf(tree, opts, dir, d)
    ensures !SelectedBelow(tree, opts, dir, d)
  {
    if SelectedBelow(tree, opts, dir, d) {
      BelowIsLonger(tree, opts, dir, d);
      RootIsNoPath(tree);
    }
  }

  /** No path is below two subdirectories of one directory. */
  lemma {:induction false} BelowOne(tree: Tree, opts: Options, p: Path, dir: Path, c: Path, d: Path)
    requires WellFormed(tree) && SubdirOf(tree, opts, dir, c) && SubdirOf(tree, opts, dir, d)
    requires SelectedBelow(tree, opts, p, c) && SelectedBelow(tree, opts, p, d)
    ensures c == d
    decreases |p|
  {
    NotBelowSubdir(tree, opts, dir, c);
    NotBelowSubdir(tree, opts, dir, d);
    if Parent(p) != c && Parent(p) != d {
      BelowOne(tree, opts, Parent(p), dir, c, d);
    }
  }

  /** The entries of a directory are not below its subdirectories. */
  lemma {:induction false} OwnNotBelow(tree: Tree, opts: Options, p: Path, dir: Path, d: Path)
    requires WellFormed(tree) && SubdirOf(tree, opts, dir, d) && SelectedBelow(tree, opts, p, d)
    ensures Parent(p) != dir
  {
    NotBelowSubdir(tree, opts, dir, d);
  }

  lemma {:induction false} SubdirsComplete(tree: Tree, opts: Options, dir: Path, names: seq<Name>, d: Path)
    requires WellFormed(tree) && SubdirOf(tree, opts, dir, d) && BaseName(d) in names
    ensures d in Subdirs(tree, opts, dir, names)
  {
    assert TreePath(tree, d);
    if names[0] != BaseName(d) {
      SubdirsComplete(tree, opts, dir, names[1..], d);
    }
  }

  // What is listed ------------------------------------------------------------------

  lemma {:induction false} OwnListed(tree: Tree, opts: Options, dir: Path, p: Path)
    requires WellFormed(tree)
    ensures Listed(OwnLines(dir, Children(tree, opts, dir)), p) <==>
            p in tree && p !in opts.excluded && Parent(p) == dir
  {
    hide WellFormed, Children, ChildNames, OwnLines, Parent, BaseName, Join, RelName, ValidName, Sorted;
    var names := Children(tree, opts, dir);
    var lines := OwnLines(dir, names);
    if Listed(lines, p) {
      var i :| 0 <= i < |lines| && lines[i].path == p;
      assert names[i] in names;
      ChildPath(tree, opts, dir, names[i]);
    }
    if p in tree && p !in opts.excluded && Parent(p) == dir {
      ChildName(tree, opts, p);
      var i :| 0 <= i < |names| && names[i] == BaseName(p);
      assert lines[i].path == p;
    }
  }

  /** The walk of a directory lists exactly what is below it, leaving out what
      was to be left out. */
  lemma {:induction false} WalkDirLists(tree: Tree, opts: Options, dir: Path, p: Path)
    requires WellFormed(tree)
    ensures Listed(WalkDir(tree, opts, dir), p) <==> SelectedBelow(tree, opts, p, dir)
    decreases Deeper(tree, dir), 1, 0
  {
    var names := Children(tree, opts, dir);
    var dirs := Subdirs(tree, opts, dir, names);
    SubdirsAreBelow(tree, opts, dir, names);
    ListedConcat(OwnLines(dir, names), WalkAll(tree, opts, dir, dirs), p);
    OwnListed(tree, opts, dir, p);
    WalkAllLists(tree, opts, dir, dirs, p);
    if SelectedBelow(tree, opts, p, dir) && Parent(p) != dir {
      var d := BelowVia(tree, opts, p, dir);
      ChildName(tree, opts, d);
      SubdirsComplete(tree, opts, dir, names, d);
    }
    if d :| d in dirs && SelectedBelow(tree, opts, p, d) {
      BelowUp(tree, opts, p, d, dir);
    }
  }

  lemma {:induction false} WalkAllLists(tree: Tree, opts: Options, dir: Path, dirs: seq<Path>, p: Path)
    requires WellFormed(tree) && forall d :: d in dirs ==> SubdirOf(tree, opts, dir, d)
    ensures Listed(WalkAll(tree, opts, dir, dirs), p) <==> exists d :: d in dirs && SelectedBelow(tree, opts, p, d)
    decreases Deeper(tree, dir), 0, |dirs|
  {
    if dirs != [] {
      assert SubdirOf(tree, opts, dir, dirs[0]);
      assert dirs[0] in Deeper(tree, dir) && dirs[0] !in Deeper(tree, dirs[0]);
      assert forall d :: d in dirs <==> d == dirs[0] || d in dirs[1..];
      ListedConcat(WalkDir(tree, opts, dirs[0]), WalkAll(tree, opts, dir, dirs[1..]), p);
      WalkDirLists(tree, opts, dirs[0], p);
      WalkAllLists(tree, opts, dir, dirs[1..], p);
    }
  }

  /** The index lists exactly the selected part of the tree. */
  lemma {:induction false} IndexLists(tree: Tree, opts: Options, p: Path)
    requires WellFormed(tree)
    ensures Listed(Index(tree, opts), p) <==> SelectedBelow(tree, opts, p, ROOT)
  {
    WalkDirLists(tree, opts, ROOT, p);
  }

  // The order of the lines -----------------------------------------------------------

  /** Entries of one directory stand in the order of their names. */
  ghost predicate InOrder(lines: seq<Line>)
  {
    forall i, j :: 0 <= i < j < |lines| && Parent(lines[i].path) == Parent(lines[j].path) ==>
                     LexLess(BaseName(lines[i].path), BaseName(lines[j].path))
  }

  /** Each directory has its line before the lines of its entries. */
  ghost predicate ParentsFirst(lines: seq<Line>, given: seq<Path>)
  {
    forall i :: 0 <= i < |lines| ==> Parent(lines[i].path) in given || Listed(lines[..i], Parent(lines[i].path))
  }

  lemma {:induction false} OwnInOrder(tree: Tree, opts: Options, dir: Path, i: nat)
    requires WellFormed(tree) && i < |Children(tree, opts, dir)|
    ensures var names := Children(tree, opts, dir);
            Parent(OwnLines(dir, names)[i].path) == dir && BaseName(OwnLines(dir, names)[i].path) == names[i]
  {
    var names := Children(tree, opts, dir);
    assert names[i] in names;
    ChildPath(tree, opts, dir, names[i]);
  }

  lemma {:induction false} InOrderConcat(a: seq<Line>, b: seq<Line>)
    requires InOrder(a) && InOrder(b)
    requires forall i, j :: 0 <= i < |a| && 0 <= j < |b| ==> Parent(a[i].path) != Parent(b[j].path)
    ensures InOrder(a + b)
  {
    hide LexLess;
    var s := a + b;
    assert forall i :: 0 <= i < |s| ==> s[i] == if i < |a| then a[i] else b[i - |a|];
    forall i, j | 0 <= i < j < |s| && Parent(s[i].path) == Parent(s[j].path)
      ensures LexLess(BaseName(s[i].path), BaseName(s[j].path))
    {
      if j < |a| {
        assert s[i] == a[i] && s[j] == a[j];
      } else if i >= |a| {
        assert s[i] == b[i - |a|] && s[j] == b[j - |a|];
      } else {
        assert false;
      }
    }
  }

  lemma {:induction false} WalkDirInOrder(tree: Tree, opts: Options, dir: Path)
    requires WellFormed(tree)
    ensures InOrder(WalkDir(tree, opts, dir))
    decreases Deeper(tree, dir), 1, 0
  {
    hide LexLess, Parent, BaseName, SelectedBelow, Entered;
    var names := Children(tree, opts, dir);
    var dirs := Subdirs(tree, opts, dir, names);
    SubdirsAreBelow(tree, opts, dir, names);
    SubdirsDistinct(tree, opts, dir, names);
    var own, rest := OwnLines(dir, names), WalkAll(tree, opts, dir, dirs);
    WalkAllInOrder(tree, opts, dir, dirs);
    forall i | 0 <= i < |own|
      ensures Parent(own[i].path) == dir && BaseName(own[i].path) == names[i]
    {
      OwnInOrder(tree, opts, dir, i);
    }
    RestIsElsewhere(tree, opts, dir, dirs);
    InOrderConcat(own, rest);
  }

  lemma {:induction false} SubdirsDistinct(tree: Tree, opts: Options, dir: Path, names: seq<Name>)
    requires WellFormed(tree) && Sorted(names) && forall n :: n in names ==> n in ChildNames(tree, opts, dir)
    ensures forall i, j :: 0 <= i < j < |Subdirs(tree, opts, dir, names)| ==>
                             Subdirs(tree, opts, dir, names)[i] != Subdirs(tree, opts, dir, names)[j]
  {
    hide LexLess, Entered;
    if names != [] {
      SubdirsDistinct(tree, opts, dir, names[1..]);
      var rest := Subdirs(tree, opts, dir, names[1..]);
      forall j | 0 <= j < |rest|
        ensures rest[j] != Join(dir, names[0])
      {
        assert rest[j] in rest;
        var n :| n in names[1..] && rest[j] == Join(dir, n);
        var k :| 0 <= k < |names| - 1 && names[1..][k] == n;
        assert n == names[k + 1] && n in names && names[0] in names;
        LexIrreflexive(n);
        ChildPath(tree, opts, dir, n);
        ChildPath(tree, opts, dir, names[0]);
      }
    }
  }

  lemma {:induction false} WalkAllInOrder(tree: Tree, opts: Options, dir: Path, dirs: seq<Path>)
    requires WellFormed(tree) && forall d :: d in dirs ==> SubdirOf(tree, opts, dir, d)
    requires forall i, j :: 0 <= i < j < |dirs| ==> dirs[i] != dirs[j]
    ensures InOrder(WalkAll(tree, opts, dir, dirs))
    decreases Deeper(tree, dir), 0, |dirs|
  {
    hide LexLess, Parent, BaseName;
    if dirs != [] {
      assert SubdirOf(tree, opts, dir, dirs[0]);
      assert dirs[0] in Deeper(tree, dir) && dirs[0] !in Deeper(tree, dirs[0]);
      var a, b := WalkDir(tree, opts, dirs[0]), WalkAll(tree, opts, dir, dirs[1..]);
      WalkDirInOrder(tree, opts, dirs[0]);
      WalkAllInOrder(tree, opts, dir, dirs[1..]);
      SubdirsElsewhere(tree, opts, dir, dirs);
      InOrderConcat(a, b);
    }
  }

  /** Being below depends on the parent only. */
  lemma {:induction false} ParentsShared(tree: Tree, opts: Options, p: Path, q: Path, d: Path)
    requires WellFormed(tree) && SelectedBelow(tree, opts, q, d) && Parent(p) == Parent(q)
    requires p in tree && p !in opts.excluded
    ensures SelectedBelow(tree, opts, p, d)
  {
    if Parent(p) != d {
      ParentIsShorter(tree, opts, p);
    }
  }

  lemma {:induction false} ParentsFirstConcat(a: seq<Line>, b: seq<Line>, given: seq<Path>, more: seq<Path>)
    requires ParentsFirst(a, given) && ParentsFirst(b, more)
    requires forall d :: d in more ==> d in given || Listed(a, d)
    ensures ParentsFirst(a + b, given)
  {
    hide Parent;
    var s := a + b;
    forall i | 0 <= i < |s|
      ensures Parent(s[i].path) in given || Listed(s[..i], Parent(s[i].path))
    {
      if i < |a| {
        assert s[i] == a[i] && s[..i] == a[..i];
      } else {
        assert s[i] == b[i - |a|] && s[..i] == a + b[..i - |a|];
        ListedConcat(a, b[..i - |a|], Parent(s[i].path));
      }
    }
  }

  lemma {:induction false} WalkDirParentsFirst(tree: Tree, opts: Options, dir: Path)
    requires WellFormed(tree)
    ensures ParentsFirst(WalkDir(tree, opts, dir), [dir])
    decreases Deeper(tree, dir), 1, 0
  {
    hide Parent, BaseName, SelectedBelow, LexLess;
    var names := Children(tree, opts, dir);
    var dirs := Subdirs(tree, opts, dir, names);
    SubdirsAreBelow(tree, opts, dir, names);
    var own := OwnLines(dir, names);
    forall i | 0 <= i < |own|
      ensures Parent(own[i].path) == dir
    {
      OwnInOrder(tree, opts, dir, i);
    }
    WalkAllParentsFirst(tree, opts, dir, dirs);
    forall d | d in dirs
      ensures Listed(own, d)
    {
      OwnListed(tree, opts, dir, d);
    }
    ParentsFirstConcat(own, WalkAll(tree, opts, dir, dirs), [dir], dirs);
  }

  lemma {:induction false} WalkAllParentsFirst(tree: Tree, opts: Options, dir: Path, dirs: seq<Path>)
    requires WellFormed(tree) && forall d :: d in dirs ==> SubdirOf(tree, opts, dir, d)
    ensures ParentsFirst(WalkAll(tree, opts, dir, dirs), dirs)
    decreases Deeper(tree, dir), 0, |dirs|
  {
    hide Parent, SelectedBelow;
    if dirs != [] {
      assert SubdirOf(tree, opts, dir, dirs[0]);
      assert dirs[0] in Deeper(tree, dir) && dirs[0] !in Deeper(tree, dirs[0]);
      var a, b := WalkDir(tree, opts, dirs[0]), WalkAll(tree, opts, dir, dirs[1..]);
      WalkDirParentsFirst(tree, opts, dirs[0]);
      WalkAllParentsFirst(tree, opts, dir, dirs[1..]);
      assert forall d :: d in dirs <==> d == dirs[0] || d in dirs[1..];
      MoreGiven(a, [dirs[0]], dirs);
      ParentsFirstConcat(a, b, dirs, dirs[1..]);
    }
  }

  lemma {:induction false} MoreGiven(lines: seq<Line>, given: seq<Path>, more: seq<Path>)
    requires ParentsFirst(lines, given) && forall d :: d in given ==> d in more
    ensures ParentsFirst(lines, more)
  {
  }

  /** The entries of one directory stand together. */
  ghost predicate Contiguous(lines: seq<Line>)
  {
    forall i, j, k :: 0 <= i < j < k < |lines| && Parent(lines[i].path) == Parent(lines[k].path) ==>
                        Parent(lines[j].path) == Parent(lines[i].path)
  }

  lemma {:induction false} ContiguousConcat(a: seq<Line>, b: seq<Line>)
    requires Contiguous(a) && Contiguous(b)
    requires forall i, j :: 0 <= i < |a| && 0 <= j < |b| ==> Parent(a[i].path) != Parent(b[j].path)
    ensures Contiguous(a + b)
  {
    hide Parent;
    var s := a + b;
    assert forall i :: 0 <= i < |s| ==> s[i] == if i < |a| then a[i] else b[i - |a|];
  }

  /** What is listed below subdirectories is in other directories. */
  lemma {:induction false} RestIsElsewhere(tree: Tree, opts: Options, dir: Path, dirs: seq<Path>)
    requires WellFormed(tree) && forall d :: d in dirs ==> SubdirOf(tree, opts, dir, d)
    ensures var rest := WalkAll(tree, opts, dir, dirs);
            forall j :: 0 <= j < |rest| ==> Parent(rest[j].path) != dir
  {
    hide Parent, SelectedBelow;
    var rest := WalkAll(tree, opts, dir, dirs);
    forall j | 0 <= j < |rest|
      ensures Parent(rest[j].path) != dir
    {
      assert Listed(rest, rest[j].path);
      WalkAllLists(tree, opts, dir, dirs, rest[j].path);
      var d :| d in dirs && SelectedBelow(tree, opts, rest[j].path, d);
      OwnNotBelow(tree, opts, rest[j].path, dir, d);
    }
  }

  /** What is listed below one subdirectory and below the following ones is in
      different directories. */
  lemma {:induction false} SubdirsElsewhere(tree: Tree, opts: Options, dir: Path, dirs: seq<Path>)
    requires WellFormed(tree) && dirs != [] && forall d :: d in dirs ==> SubdirOf(tree, opts, dir, d)
    requires forall i, j :: 0 <= i < j < |dirs| ==> dirs[i] != dirs[j]
    ensures SubdirOf(tree, opts, dir, dirs[0]) && forall d :: d in dirs[1..] ==> SubdirOf(tree, opts, dir, d)
    ensures var a, b := WalkDir(tree, opts, dirs[0]), WalkAll(tree, opts, dir, dirs[1..]);
            forall i, j :: 0 <= i < |a| && 0 <= j < |b| ==> Parent(a[i].path) != Parent(b[j].path)
  {
    hide Parent, BaseName;
    assert SubdirOf(tree, opts, dir, dirs[0]);
    var a, b := WalkDir(tree, opts, dirs[0]), WalkAll(tree, opts, dir, dirs[1..]);
    forall i, j | 0 <= i < |a| && 0 <= j < |b|
      ensures Parent(a[i].path) != Parent(b[j].path)
    {
      assert Listed(a, a[i].path) && Listed(b, b[j].path);
      WalkDirLists(tree, opts, dirs[0], a[i].path);
      WalkAllLists(tree, opts, dir, dirs[1..], b[j].path);
      var d :| d in dirs[1..] && SelectedBelow(tree, opts, b[j].path, d);
      if Parent(a[i].path) == Parent(b[j].path) {
        ParentsShared(tree, opts, a[i].path, b[j].path, d);
        BelowOne(tree, opts, a[i].path, dir, dirs[0], d);
      }
    }
  }

  lemma {:induction false} WalkDirContiguous(tree: Tree, opts: Options, dir: Path)
    requires WellFormed(tree)
    ensures Contiguous(WalkDir(tree, opts, dir))
    decreases Deeper(tree, dir), 1, 0
  {
    hide LexLess, Parent, BaseName, SelectedBelow, Entered;
    var names := Children(tree, opts, dir);
    var dirs := Subdirs(tree, opts, dir, names);
    SubdirsAreBelow(tree, opts, dir, names);
    SubdirsDistinct(tree, opts, dir, names);
    var own, rest := OwnLines(dir, names), WalkAll(tree, opts, dir, dirs);
    WalkAllContiguous(tree, opts, dir, dirs);
    forall i | 0 <= i < |own|
      ensures Parent(own[i].path) == dir
    {
      OwnInOrder(tree, opts, dir, i);
    }
    RestIsElsewhere(tree, opts, dir, dirs);
    ContiguousConcat(own, rest);
  }

  lemma {:induction false} WalkAllContiguous(tree: Tree, opts: Options, dir: Path, dirs: seq<Path>)
    requires WellFormed(tree) && forall d :: d in dirs ==> SubdirOf(tree, opts, dir, d)
    requires forall i, j :: 0 <= i < j < |dirs| ==> dirs[i] != dirs[j]
    ensures Contiguous(WalkAll(tree, opts, dir, dirs))
    decreases Deeper(tree, dir), 0, |dirs|
  {
    hide Parent, BaseName;
    if dirs != [] {
      assert SubdirOf(tree, opts, dir, dirs[0]);
      assert dirs[0] in Deeper(tree, dir) && dirs[0] !in Deeper(tree, dirs[0]);
      SubdirsElsewhere(tree, opts, dir, dirs);
      WalkDirContiguous(tree, opts, dirs[0]);
      WalkAllContiguous(tree, opts, dir, dirs[1..]);
      ContiguousConcat(WalkDir(tree, opts, dirs[0]), WalkAll(tree, opts, dir, dirs[1..]));
    }
  }

  // Directories in turn -----------------------------------------------------------------

  /** What is below a directory is below what that is below. */
  lemma {:induction false} BelowTransitive(tree: Tree, opts: Options, p: Path, dir: Path, d: Path)
    requires WellFormed(tree) && SelectedBelow(tree, opts, p, dir)
    requires dir == d || (Entered(tree, opts, dir) && SelectedBelow(tree, opts, dir, d))
    ensures SelectedBelow(tree, opts, p, d)
    decreases |p|
  {
    if Parent(p) == dir {
      if dir != d {
        ParentIsShorter(tree, opts, p);
      }
    } else {
      BelowTransitive(tree, opts, Parent(p), dir, d);
    }
  }

  /** Of two directories that have something below them in common, one is below
      the other. */
  lemma {:induction false} Comparable(tree: Tree, opts: Options, p: Path, d: Path, e: Path)
    requires WellFormed(tree) && SelectedBelow(tree, opts, p, d) && SelectedBelow(tree, opts, p, e)
    ensures d == e || SelectedBelow(tree, opts, d, e) || SelectedBelow(tree, opts, e, d)
    decreases |p|
  {
    if Parent(p) != d && Parent(p) != e {
      Comparable(tree, opts, Parent(p), d, e);
    }
  }

  /** Two subdirectories of one directory, the first named before the other. */
  ghost predicate Siblings(tree: Tree, opts: Options, d: Path, e: Path)
  {
    && SubdirOf(tree, opts, Parent(d), d) && SubdirOf(tree, opts, Parent(d), e)
    && LexLess(BaseName(d), BaseName(e))
  }

  /** All below a directory comes before anything below a later sibling. */
  ghost predicate InTurn(tree: Tree, opts: Options, lines: seq<Line>)
  {
    forall i, j, d, e :: 0 <= i < |lines| && 0 <= j < |lines| && Siblings(tree, opts, d, e)
                         && SelectedBelow(tree, opts, lines[i].path, d)
                         && SelectedBelow(tree, opts, lines[j].path, e) ==>
                           i < j
  }

  lemma {:induction false} SiblingsApart(tree: Tree, opts: Options, p: Path, d: Path, e: Path)
    requires WellFormed(tree) && Siblings(tree, opts, d, e)
    ensures !(SelectedBelow(tree, opts, p, d) && SelectedBelow(tree, opts, p, e))
  {
    hide LexLess, Entered, Parent, BaseName;
    if SelectedBelow(tree, opts, p, d) && SelectedBelow(tree, opts, p, e) {
      BelowOne(tree, opts, p, Parent(d), d, e);
      LexIrreflexive(BaseName(d));
    }
  }

  /** No line of the directory itself is below a sibling that comes after one
      with other lines. */
  lemma {:induction false} OwnBelow(tree: Tree, opts: Options, dir: Path, p: Path, q: Path, e: Path)
    requires WellFormed(tree) && SelectedBelow(tree, opts, p, dir)
    requires Parent(q) == dir && SelectedBelow(tree, opts, q, e)
    ensures SelectedBelow(tree, opts, p, e)
  {
    BelowTransitive(tree, opts, p, dir, e);
  }

  lemma {:induction false} InTurnConcat(tree: Tree, opts: Options, a: seq<Line>, b: seq<Line>)
    requires InTurn(tree, opts, a) && InTurn(tree, opts, b)
    requires forall i, j, d, e :: 0 <= i < |b| && 0 <= j < |a| && Siblings(tree, opts, d, e) ==>
               !(SelectedBelow(tree, opts, b[i].path, d) && SelectedBelow(tree, opts, a[j].path, e))
    ensures InTurn(tree, opts, a + b)
  {
    hide Siblings, SelectedBelow;
    var s := a + b;
    forall i, j, d, e | 0 <= i < |s| && 0 <= j < |s| && Siblings(tree, opts, d, e)
                        && SelectedBelow(tree, opts, s[i].path, d) && SelectedBelow(tree, opts, s[j].path, e)
      ensures i < j
    {
      assert s[i] == if i < |a| then a[i] else b[i - |a|];
      assert s[j] == if j < |a| then a[j] else b[j - |a|];
    }
  }

  lemma {:induction false} WalkDirInTurn(tree: Tree, opts: Options, dir: Path)
    requires WellFormed(tree)
    ensures InTurn(tree, opts, WalkDir(tree, opts, dir))
    decreases Deeper(tree, dir), 1, 0
  {
    hide LexLess, Parent, BaseName, SelectedBelow, Entered, Siblings;
    var names := Children(tree, opts, dir);
    var dirs := Subdirs(tree, opts, dir, names);
    SubdirsAreBelow(tree, opts, dir, names);
    SubdirsSorted(tree, opts, dir, names);
    var own, rest := OwnLines(dir, names), WalkAll(tree, opts, dir, dirs);
    WalkAllInTurn(tree, opts, dir, dirs);
    var lines := own + rest;
    forall i, j, d, e | 0 <= i < |lines| && 0 <= j < |own| && Siblings(tree, opts, d, e)
      ensures !(SelectedBelow(tree, opts, lines[i].path, d) && SelectedBelow(tree, opts, own[j].path, e))
    {
      OwnInOrder(tree, opts, dir, j);
      LineBelow(tree, opts, dir, i);
      if SelectedBelow(tree, opts, own[j].path, e) {
        OwnBelow(tree, opts, dir, lines[i].path, own[j].path, e);
        SiblingsApart(tree, opts, lines[i].path, d, e);
      }
    }
    OwnInTurn(tree, opts, own, lines);
    forall i, j, d, e | 0 <= i < |rest| && 0 <= j < |own| && Siblings(tree, opts, d, e)
      ensures !(SelectedBelow(tree, opts, rest[i].path, d) && SelectedBelow(tree, opts, own[j].path, e))
    {
      assert rest[i] == lines[|own| + i];
    }
    InTurnConcat(tree, opts, own, rest);
  }

  lemma {:induction false} OwnInTurn(tree: Tree, opts: Options, own: seq<Line>, lines: seq<Line>)
    requires own <= lines
    requires forall i, j, d, e :: 0 <= i < |lines| && 0 <= j < |own| && Siblings(tree, opts, d, e) ==>
               !(SelectedBelow(tree, opts, lines[i].path, d) && SelectedBelow(tree, opts, own[j].path, e))
    ensures InTurn(tree, opts, own)
  {
    hide Siblings, SelectedBelow;
    assert forall i :: 0 <= i < |own| ==> own[i] == lines[i];
  }

  lemma {:induction false} LineBelow(tree: Tree, opts: Options, dir: Path, i: nat)
    requires WellFormed(tree) && i < |WalkDir(tree, opts, dir)|
    ensures SelectedBelow(tree, opts, WalkDir(tree, opts, dir)[i].path, dir)
  {
    hide SelectedBelow;
    var lines := WalkDir(tree, opts, dir);
    assert Listed(lines, lines[i].path);
    WalkDirLists(tree, opts, dir, lines[i].path);
  }

  ghost predicate PathsSorted(dirs: seq<Path>)
  {
    forall i, j :: 0 <= i < j < |dirs| ==> LexLess(BaseName(dirs[i]), BaseName(dirs[j]))
  }

  lemma {:induction false} SubdirsSorted(tree: Tree, opts: Options, dir: Path, names: seq<Name>)
    requires WellFormed(tree) && Sorted(names) && forall n :: n in names ==> n in ChildNames(tree, opts, dir)
    ensures PathsSorted(Subdirs(tree, opts, dir, names))
  {
    hide LexLess, Entered, WellFormed, ChildNames, Parent, BaseName, Join, ValidName;
    if names != [] {
      SubdirsSorted(tree, opts, dir, names[1..]);
      var rest := Subdirs(tree, opts, dir, names[1..]);
      ChildPath(tree, opts, dir, names[0]);
      forall j | 0 <= j < |rest|
        ensures LexLess(names[0], BaseName(rest[j]))
      {
        assert rest[j] in rest;
        var n :| n in names[1..] && rest[j] == Join(dir, n);
        var k :| 0 <= k < |names| - 1 && names[1..][k] == n;
        assert n == names[k + 1] && n in names;
        ChildPath(tree, opts, dir, n);
      }
    }
  }

  /** A line of the first subdirectory, and a line of one of the others: the
      second is not below a sibling that is named before one of the first. */
  lemma {:induction false} NotBehind(tree: Tree, opts: Options, dir: Path, first: Path, other: Path, p: Path, q: Path,
                                     d: Path, e: Path)
    requires WellFormed(tree) && SubdirOf(tree, opts, dir, first) && SubdirOf(tree, opts, dir, other)
    requires LexLess(BaseName(first), BaseName(other))
    requires SelectedBelow(tree, opts, q, first) && SelectedBelow(tree, opts, p, other)
    requires Siblings(tree, opts, d, e)
    ensures !(SelectedBelow(tree, opts, p, d) && SelectedBelow(tree, opts, q, e))
  {
    hide LexLess, Entered, Parent, BaseName, SelectedBelow;
    if SelectedBelow(tree, opts, p, d) && SelectedBelow(tree, opts, q, e) {
      Comparable(tree, opts, q, first, e);
      if first == e {
        BelowOne(tree, opts, p, dir, d, other);
        LexTransitive(BaseName(first), BaseName(other), BaseName(first));
        LexIrreflexive(BaseName(first));
      } else if SelectedBelow(tree, opts, e, first) {
        SameDirectory(tree, opts, e, d, first);
        BelowTransitive(tree, opts, p, d, first);
        FirstIsOther(tree, opts, dir, first, other, p);
      } else {
        SameDirectory(tree, opts, first, other, e);
        BelowTransitive(tree, opts, p, other, e);
        SiblingsApart(tree, opts, p, d, e);
      }
    }
  }

  lemma {:induction false} FirstIsOther(tree: Tree, opts: Options, dir: Path, first: Path, other: Path, p: Path)
    requires WellFormed(tree) && SubdirOf(tree, opts, dir, first) && SubdirOf(tree, opts, dir, other)
    requires LexLess(BaseName(first), BaseName(other))
    ensures !(SelectedBelow(tree, opts, p, first) && SelectedBelow(tree, opts, p, other))
  {
    hide LexLess, Entered, Parent, BaseName, SelectedBelow;
    if SelectedBelow(tree, opts, p, first) && SelectedBelow(tree, opts, p, other) {
      BelowOne(tree, opts, p, dir, first, other);
      LexIrreflexive(BaseName(first));
    }
  }

  /** With one directory its siblings are below the same. */
  lemma {:induction false} SameDirectory(tree: Tree, opts: Options, p: Path, q: Path, d: Path)
    requires WellFormed(tree) && SelectedBelow(tree, opts, p, d) && Parent(p) == Parent(q)
    requires Entered(tree, opts, q) && q !in opts.excluded
    ensures SelectedBelow(tree, opts, q, d)
  {
    ParentsShared(tree, opts, q, p, d);
  }

  lemma {:induction false} WalkAllInTurn(tree: Tree, opts: Options, dir: Path, dirs: seq<Path>)
    requires WellFormed(tree) && PathsSorted(dirs) && forall d :: d in dirs ==> SubdirOf(tree, opts, dir, d)
    ensures InTurn(tree, opts, WalkAll(tree, opts, dir, dirs))
    decreases Deeper(tree, dir), 0, |dirs|
  {
    hide LexLess, Parent, BaseName, SelectedBelow, Siblings;
    if dirs != [] {
      assert SubdirOf(tree, opts, dir, dirs[0]);
      assert dirs[0] in Deeper(tree, dir) && dirs[0] !in Deeper(tree, dirs[0]);
      var a, b := WalkDir(tree, opts, dirs[0]), WalkAll(tree, opts, dir, dirs[1..]);
      WalkDirInTurn(tree, opts, dirs[0]);
      WalkAllInTurn(tree, opts, dir, dirs[1..]);
      forall i, j, d, e | 0 <= i < |b| && 0 <= j < |a| && Siblings(tree, opts, d, e)
        ensures !(SelectedBelow(tree, opts, b[i].path, d) && SelectedBelow(tree, opts, a[j].path, e))
      {
        LineBelow(tree, opts, dirs[0], j);
        assert Listed(b, b[i].path);
        WalkAllLists(tree, opts, dir, dirs[1..], b[i].path);
        var other :| other in dirs[1..] && SelectedBelow(tree, opts, b[i].path, other);
        NotBehind(tree, opts, dir, dirs[0], other, b[i].path, a[j].path, d, e);
      }
      InTurnConcat(tree, opts, a, b);
    }
  }

  // What the walk depends on ---------------------------------------------------------------

  /** The same paths, and the same of them directories to be entered. */
  ghost predicate SameShape(a: Tree, b: Tree)
  {
    && a.Keys == b.Keys
    && forall p :: p in a ==>
                     (a[p].Directory? <==> b[p].Directory?) && (a[p].Directory? ==> a[p].mount == b[p].mount)
  }

  lemma {:induction false} SameSubdirs(a: Tree, b: Tree, opts: Options, dir: Path, names: seq<Name>)
    requires SameShape(a, b)
    ensures Subdirs(a, opts, dir, names) == Subdirs(b, opts, dir, names)
  {
    hide Join;
    if names != [] {
      SameSubdirs(a, b, opts, dir, names[1..]);
    }
  }

  lemma {:induction false} SameWalk(a: Tree, b: Tree, opts: Options, dir: Path)
    requires WellFormed(a) && WellFormed(b) && SameShape(a, b)
    ensures WalkDir(a, opts, dir) == WalkDir(b, opts, dir)
    decreases Deeper(a, dir), 1, 0
  {
    hide WellFormed, Parent, BaseName, Entered, SubdirOf;
    assert ChildNames(a, opts, dir) == ChildNames(b, opts, dir);
    var names := Children(a, opts, dir);
    SameSubdirs(a, b, opts, dir, names);
    SubdirsAreBelow(a, opts, dir, names);
    SubdirsAreBelow(b, opts, dir, names);
    SameWalkAll(a, b, opts, dir, Subdirs(a, opts, dir, names));
  }

  lemma {:induction false} SameWalkAll(a: Tree, b: Tree, opts: Options, dir: Path, dirs: seq<Path>)
    requires WellFormed(a) && WellFormed(b) && SameShape(a, b)
    requires forall d :: d in dirs ==> SubdirOf(a, opts, dir, d) && SubdirOf(b, opts, dir, d)
    ensures WalkAll(a, opts, dir, dirs) == WalkAll(b, opts, dir, dirs)
    decreases Deeper(a, dir), 0, |dirs|
  {
    hide WellFormed, Parent, BaseName;
    if dirs != [] {
      assert SubdirOf(a, opts, dir, dirs[0]);
      assert dirs[0] in Deeper(a, dir) && dirs[0] !in Deeper(a, dirs[0]);
      SameWalk(a, b, opts, dirs[0]);
      SameWalkAll(a, b, opts, dir, dirs[1..]);
    }
  }

  lemma {:induction false} SameSelected(a: Tree, b: Tree, opts: Options, p: Path, dir: Path)
    requires SameShape(a, b)
    ensures SelectedBelow(a, opts, p, dir) <==> SelectedBelow(b, opts, p, dir)
    decreases |p|
  {
    hide Parent;
    if |Parent(p)| < |p| {
      SameSelected(a, b, opts, Parent(p), dir);
    }
  }

  // Which names are written in full ------------------------------------------------------

  /** The full path at the start of a directory and in the root, and otherwise
      the name after `./`. */
  ghost function ShortName(lines: seq<Line>, i: nat): Bytes
    requires i < |lines|
  {
    var p := lines[i].path;
    if i == 0 || Parent(lines[i - 1].path) != Parent(p) || Parent(p) == ROOT then p else "./" + BaseName(p)
  }

  ghost predicate Shortened(lines: seq<Line>)
  {
    forall i :: 0 <= i < |lines| ==> lines[i].rel == ShortName(lines, i)
  }

  lemma {:induction false} ShortenedConcat(a: seq<Line>, b: seq<Line>)
    requires Shortened(a) && Shortened(b)
    requires forall i, j :: 0 <= i < |a| && 0 <= j < |b| ==> Parent(a[i].path) != Parent(b[j].path)
    ensures Shortened(a + b)
  {
    hide Parent, BaseName;
    var s := a + b;
    forall i | 0 <= i < |s|
      ensures s[i].rel == ShortName(s, i)
    {
      if i < |a| {
        assert s[i] == a[i] && a[i].rel == ShortName(a, i);
      } else {
        assert s[i] == b[i - |a|] && b[i - |a|].rel == ShortName(b, i - |a|);
      }
    }
  }

  lemma {:induction false} OwnShortened(tree: Tree, opts: Options, dir: Path)
    requires WellFormed(tree)
    ensures Shortened(OwnLines(dir, Children(tree, opts, dir)))
  {
    hide LexLess, Parent, BaseName, Join;
    var names := Children(tree, opts, dir);
    var own := OwnLines(dir, names);
    forall i | 0 <= i < |own|
      ensures Parent(own[i].path) == dir && BaseName(own[i].path) == names[i]
    {
      OwnInOrder(tree, opts, dir, i);
    }
  }

  lemma {:induction false} WalkDirShortened(tree: Tree, opts: Options, dir: Path)
    requires WellFormed(tree)
    ensures Shortened(WalkDir(tree, opts, dir))
    decreases Deeper(tree, dir), 1, 0
  {
    hide LexLess, Parent, BaseName, SelectedBelow, Entered, Shortened;
    var names := Children(tree, opts, dir);
    var dirs := Subdirs(tree, opts, dir, names);
    SubdirsAreBelow(tree, opts, dir, names);
    SubdirsDistinct(tree, opts, dir, names);
    var own, rest := OwnLines(dir, names), WalkAll(tree, opts, dir, dirs);
    OwnShortened(tree, opts, dir);
    WalkAllShortened(tree, opts, dir, dirs);
    forall i | 0 <= i < |own|
      ensures Parent(own[i].path) == dir
    {
      OwnInOrder(tree, opts, dir, i);
    }
    RestIsElsewhere(tree, opts, dir, dirs);
    ShortenedConcat(own, rest);
  }

  lemma {:induction false} WalkAllShortened(tree: Tree, opts: Options, dir: Path, dirs: seq<Path>)
    requires WellFormed(tree) && forall d :: d in dirs ==> SubdirOf(tree, opts, dir, d)
    requires forall i, j :: 0 <= i < j < |dirs| ==> dirs[i] != dirs[j]
    ensures Shortened(WalkAll(tree, opts, dir, dirs))
    decreases Deeper(tree, dir), 0, |dirs|
  {
    hide Parent, BaseName;
    if dirs != [] {
      assert SubdirOf(tree, opts, dir, dirs[0]);
      assert dirs[0] in Deeper(tree, dir) && dirs[0] !in Deeper(tree, dirs[0]);
      SubdirsElsewhere(tree, opts, dir, dirs);
      WalkDirShortened(tree, opts, dirs[0]);
      WalkAllShortened(tree, opts, dir, dirs[1..]);
      ShortenedConcat(WalkDir(tree, opts, dirs[0]), WalkAll(tree, opts, dir, dirs[1..]));
    }
  }

  lemma {:induction false} IndexIsShortened(tree: Tree, opts: Options)
    requires WellFormed(tree)
    ensures Shortened(Index(tree, opts))
  {
    hide Shortened;
    WalkDirShortened(tree, opts, ROOT);
  }

  /** In an index every directory comes before its entries, which stand together
      and in the order of their names; so no path has two lines.  What is below
      one directory comes before what is below the next. */
  lemma {:induction false} IndexOrder(tree: Tree, opts: Options)
    requires WellFormed(tree)
    ensures InOrder(Index(tree, opts)) && ParentsFirst(Index(tree, opts), [ROOT]) && Contiguous(Index(tree, opts))
    ensures InTurn(tree, opts, Index(tree, opts))
    ensures forall i, j :: 0 <= i < j < |Index(tree, opts)| ==> Index(tree, opts)[i].path != Index(tree, opts)[j].path
    ensures var lines := Index(tree, opts);
            forall i, j :: 0 <= i < j < |lines| && Parent(lines[i].path) == Parent(lines[j].path) ==>
                             ComesBefore(BaseName(lines[i].path), BaseName(lines[j].path))
  {
    hide InTurn, ComesBefore;
    WalkDirInOrder(tree, opts, ROOT);
    WalkDirParentsFirst(tree, opts, ROOT);
    WalkDirContiguous(tree, opts, ROOT);
    WalkDirInTurn(tree, opts, ROOT);
    var lines := Index(tree, opts);
    forall i, j | 0 <= i < j < |lines|
      ensures lines[i].path != lines[j].path
    {
      LexIrreflexive(BaseName(lines[i].path));
    }
    forall i, j | 0 <= i < j < |lines| && Parent(lines[i].path) == Parent(lines[j].path)
      ensures ComesBefore(BaseName(lines[i].path), BaseName(lines[j].path))
    {
      LexIsFirstDifference(BaseName(lines[i].path), BaseName(lines[j].path));
    }
  }

  // Names ------------------------------------------------------------------------------

  lemma {:induction false} OneLetter(a: Bytes, b: Bytes)
    requires |b| == 1
    ensures |a| == 1 && a[0] == b[0] <==> a == b
  {
  }

  /** No path of the tree looks like a relative name. */
  lemma {:induction false} NoDotSlash(tree: Tree, p: Path)
    requires WellFormed(tree) && p in tree
    ensures !DotSlash(p)
    decreases |p|
  {
    assert TreePath(tree, p);
    SplitJoin(Parent(p), BaseName(p));
    var q := Parent(p);
    if q != ROOT {
      NoDotSlash(tree, q);
      assert TreePath(tree, q);
      assert q != [] by { SplitJoin(Parent(q), BaseName(q)); }
      assert p == q + "/" + BaseName(p);
      assert p[0] == q[0] && (|q| == 1 ==> p[1] == '/') && (|q| > 1 ==> p[1] == q[1]);
      assert !(|q| == 1 && q[0] == '.') by { assert |ROOT| == 1 && ROOT[0] == '.'; OneLetter(q, ROOT); }
    }
  }

  /** Reading the names of the lines one after another, starting from the
      directory `before`, gives their paths. */
  ghost predicate Expands(lines: seq<Line>, before: Bytes)
  {
    lines == []
    || match Expand(before, lines[0].rel)
       case None => false
       case Some((path, dir)) => path == lines[0].path && Expands(lines[1..], dir)
  }

  lemma {:induction false} ExpandsConcat(a: seq<Line>, b: seq<Line>, before: Bytes)
    requires Expands(a, before) && forall dir :: Expands(b, dir)
    ensures Expands(a + b, before)
    decreases |a|
  {
    hide Expand;
    if a == [] {
      assert a + b == b;
    } else {
      assert (a + b)[1..] == a[1..] + b;
      ExpandsConcat(a[1..], b, Expand(before, a[0].rel).value.1);
    }
  }

  lemma {:induction false} OwnTailExpands(tree: Tree, opts: Options, dir: Path, k: nat)
    requires WellFormed(tree) && 0 < k <= |Children(tree, opts, dir)| && dir != []
    ensures Expands(OwnLines(dir, Children(tree, opts, dir))[k..], DirState(dir))
    decreases |Children(tree, opts, dir)| - k
  {
    hide Expand, RelName, DirState;
    var names := Children(tree, opts, dir);
    var lines := OwnLines(dir, names);
    if k < |names| {
      assert names[k] in names;
      ChildPath(tree, opts, dir, names[k]);
      ExpandRelative(dir, names[k]);
      OwnTailExpands(tree, opts, dir, k + 1);
      assert lines[k..][0] == lines[k] && lines[k..][1..] == lines[k + 1..];
    }
  }

  lemma {:induction false} OwnExpands(tree: Tree, opts: Options, dir: Path, before: Bytes)
    requires WellFormed(tree) && dir != []
    ensures Expands(OwnLines(dir, Children(tree, opts, dir)), before)
  {
    hide Expand, DirState;
    var names := Children(tree, opts, dir);
    var lines := OwnLines(dir, names);
    if names != [] {
      assert names[0] in names;
      ChildPath(tree, opts, dir, names[0]);
      NoDotSlash(tree, Join(dir, names[0]));
      ExpandFull(dir, names[0], before);
      OwnTailExpands(tree, opts, dir, 1);
    }
  }

  lemma {:induction false} WalkDirExpands(tree: Tree, opts: Options, dir: Path, before: Bytes)
    requires WellFormed(tree) && dir != []
    ensures Expands(WalkDir(tree, opts, dir), before)
    decreases Deeper(tree, dir), 1, 0
  {
    hide Expand, SelectedBelow;
    var names := Children(tree, opts, dir);
    var dirs := Subdirs(tree, opts, dir, names);
    SubdirsAreBelow(tree, opts, dir, names);
    OwnExpands(tree, opts, dir, before);
    forall b
      ensures Expands(WalkAll(tree, opts, dir, dirs), b)
    {
      WalkAllExpands(tree, opts, dir, dirs, b);
    }
    ExpandsConcat(OwnLines(dir, names), WalkAll(tree, opts, dir, dirs), before);
  }

  lemma {:induction false} WalkAllExpands(tree: Tree, opts: Options, dir: Path, dirs: seq<Path>, before: Bytes)
    requires WellFormed(tree) && forall d :: d in dirs ==> SubdirOf(tree, opts, dir, d)
    ensures Expands(WalkAll(tree, opts, dir, dirs), before)
    decreases Deeper(tree, dir), 0, |dirs|
  {
    hide Expand, SelectedBelow;
    if dirs != [] {
      assert SubdirOf(tree, opts, dir, dirs[0]);
      assert dirs[0] in Deeper(tree, dir) && dirs[0] !in Deeper(tree, dirs[0]);
      WalkDirExpands(tree, opts, dirs[0], before);
      forall b
        ensures Expands(WalkAll(tree, opts, dir, dirs[1..]), b)
      {
        WalkAllExpands(tree, opts, dir, dirs[1..], b);
      }
      ExpandsConcat(WalkDir(tree, opts, dirs[0]), WalkAll(tree, opts, dir, dirs[1..]), before);
    }
  }

  /** For every tree, the names as the backup writes them are read by the
      restore as the original paths. */
  lemma {:induction false} IndexNamesExpand(tree: Tree, opts: Options)
    requires WellFormed(tree)
    ensures Expands(Index(tree, opts), [])
  {
    WalkDirExpands(tree, opts, ROOT, []);
  }
}
