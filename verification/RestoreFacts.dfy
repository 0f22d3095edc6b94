/** Restoring the index of a tree into an empty directory. */
module RestoreFacts {
  import opened Bytes
  import opened IndexLine
  import opened Names
  import opened Walk
  import opened WalkFacts
  import opened Records
  import opened BufferedFile
  import opened Target
  import opened Restore
  import opened RestoreSteps

  ghost function EntryAt(tree: Tree, lines: seq<Line>, i: nat): Entry
    requires AllInTree(tree, lines) && i < |lines|
  {
    tree[lines[i].path]
  }

  // Representatives -----------------------------------------------------------------------

  ghost predicate Carries(tree: Tree, lines: seq<Line>, i: nat, num: nat)
    requires AllInTree(tree, lines) && i < |lines|
  {
    Multi(EntryAt(tree, lines, i)) && EntryAt(tree, lines, i).ino == num
  }

  /** The first line from `from` on of a file with several links and this inode
      number. */
  ghost function First(tree: Tree, lines: seq<Line>, num: nat, from: nat): (r: nat)
    requires AllInTree(tree, lines) && from <= |lines|
    ensures from <= r <= |lines|
    ensures r < |lines| ==> Carries(tree, lines, r, num)
    ensures forall j :: from <= j < r ==> !Carries(tree, lines, j, num)
    decreases |lines| - from
  {
    if from == |lines| || Carries(tree, lines, from, num) then from else First(tree, lines, num, from + 1)
  }

  /** The line whose file stands for the file of line `i` in the restored tree:
      the first with the same inode number. */
  ghost function Rep(tree: Tree, lines: seq<Line>, i: nat): (r: nat)
    requires AllInTree(tree, lines) && i < |lines|
    ensures r <= i
  {
    if Multi(EntryAt(tree, lines, i)) then
      assert Carries(tree, lines, i, EntryAt(tree, lines, i).ino);
      First(tree, lines, EntryAt(tree, lines, i).ino, 0)
    else i
  }

  lemma {:induction false} RepFacts(tree: Tree, lines: seq<Line>, i: nat)
    requires AllInTree(tree, lines) && i < |lines|
    ensures var r := Rep(tree, lines, i);
            && Rep(tree, lines, r) == r
            && (r != i ==> Multi(EntryAt(tree, lines, i)) && Carries(tree, lines, r, EntryAt(tree, lines, i).ino))
  {
  }

  lemma {:induction false} SameRep(tree: Tree, lines: seq<Line>, i: nat, j: nat)
    requires AllInTree(tree, lines) && i < |lines| && j < |lines|
    ensures Rep(tree, lines, i) == Rep(tree, lines, j) <==>
            i == j || (Multi(EntryAt(tree, lines, i)) && Carries(tree, lines, j, EntryAt(tree, lines, i).ino))
  {
    hide First;
    RepFacts(tree, lines, i);
    RepFacts(tree, lines, j);
  }

  // The invariant of the loop ----------------------------------------------------------------

  ghost predicate ShownAt(fs: Fs, p: Path, e: Entry, permissions: bool)
  {
    && p in fs.names && fs.names[p] in fs.nodes && fs.names[p] in fs.times
    && Shows(fs.nodes[fs.names[p]], fs.times[fs.names[p]], e, permissions)
  }

  ghost function Stamps(tree: Tree, lines: seq<Line>): seq<DirStamp>
    requires AllInTree(tree, lines)
  {
    if lines == [] then []
    else
      var last := lines[|lines| - 1];
      assert AllInTree(tree, lines[..|lines| - 1]);
      Stamps(tree, lines[..|lines| - 1]) + Stamp(last.path, tree[last.path])
  }

  ghost predicate NamesUpTo(tree: Tree, lines: seq<Line>, k: nat, fs: Fs)
    requires AllInTree(tree, lines) && k <= |lines|
  {
    && (forall i :: 0 <= i < k ==> lines[i].path in fs.names)
    && (forall p :: p in fs.names ==> Listed(lines[..k], p))
  }

  ghost predicate FilesUpTo(tree: Tree, lines: seq<Line>, k: nat, fs: Fs, permissions: bool)
    requires AllInTree(tree, lines) && k <= |lines|
  {
    forall i :: 0 <= i < k ==> ShownAt(fs, lines[i].path, EntryAt(tree, lines, Rep(tree, lines, i)), permissions)
  }

  ghost predicate LinksUpTo(tree: Tree, lines: seq<Line>, k: nat, fs: Fs)
    requires AllInTree(tree, lines) && k <= |lines|
    requires forall i :: 0 <= i < k ==> lines[i].path in fs.names
  {
    forall i, j :: 0 <= i < k && 0 <= j < k ==>
                     (fs.names[lines[i].path] == fs.names[lines[j].path] <==>
                      Rep(tree, lines, i) == Rep(tree, lines, j))
  }

  ghost predicate InodesUpTo(tree: Tree, lines: seq<Line>, k: nat, inodes: map<nat, Path>)
    requires AllInTree(tree, lines) && k <= |lines|
  {
    forall num :: (num in inodes <==> First(tree, lines, num, 0) < k)
                  && (num in inodes ==> inodes[num] == lines[First(tree, lines, num, 0)].path)
  }

  /** The first `k` lines have been restored. */
  ghost predicate RestoredUpTo(tree: Tree, lines: seq<Line>, k: nat, s: State, permissions: bool)
    requires AllInTree(tree, lines) && k <= |lines|
  {
    && Valid(s.fs) && NamesUpTo(tree, lines, k, s.fs)
    && FilesUpTo(tree, lines, k, s.fs, permissions) && LinksUpTo(tree, lines, k, s.fs)
    && InodesUpTo(tree, lines, k, s.inodes)
    && AllInTree(tree, lines[..k]) && s.dirtimes == Stamps(tree, lines[..k]) && Expands(lines[k..], s.dir)
  }

  // The way of the next line is free ------------------------------------------------------------

  /** The temporary name of an entry has the same directory. */
  lemma {:induction false} TmpPath(tree: Tree, p: Path)
    requires WellFormed(tree) && p in tree
    ensures var tmp := p + RESTORE_SUFFIX;
            && Parent(tmp) == Parent(p) && BaseName(tmp) == BaseName(p) + RESTORE_SUFFIX && tmp != ROOT
    ensures Parent(p) != p && Parent(p) != p + RESTORE_SUFFIX
  {
    hide Parent, BaseName, Join;
    assert TreePath(tree, p);
    RootIsNoPath(tree);
    var dir, name := Parent(p), BaseName(p);
    SplitJoin(dir, name);
    LongerName(name);
    SplitJoin(dir, name + RESTORE_SUFFIX);
    JoinLonger(dir, name, RESTORE_SUFFIX);
    assert |p + RESTORE_SUFFIX| == |p| + 9;
  }

  lemma {:induction false} LongerName(name: Name)
    requires ValidName(name)
    ensures ValidName(name + RESTORE_SUFFIX)
  {
    assert '/' !in RESTORE_SUFFIX && |RESTORE_SUFFIX| == 9;
  }

  lemma {:induction false} JoinLonger(dir: Path, name: Name, suffix: Bytes)
    ensures Join(dir, name) + suffix == Join(dir, name + suffix)
  {
    assert dir + "/" + name + suffix == dir + "/" + (name + suffix);
  }

  lemma {:induction false} PathIsNew(tree: Tree, opts: Options, lines: seq<Line>, k: nat)
    requires WellFormed(tree) && lines == Index(tree, opts) && k < |lines|
    ensures !Listed(lines[..k], lines[k].path)
  {
    hide Index, WellFormed, InOrder, ParentsFirst;
    IndexOrder(tree, opts);
  }

  /** Siblings are restored in the order of their names, and a name comes
      before its extensions: the temporary name is no entry restored before. */
  lemma {:induction false} TmpIsNew(tree: Tree, opts: Options, lines: seq<Line>, k: nat)
    requires WellFormed(tree) && lines == Index(tree, opts) && AllInTree(tree, lines) && k < |lines|
    ensures !Listed(lines[..k], lines[k].path + RESTORE_SUFFIX)
  {
    hide LexLess, Index, Parent, BaseName, WellFormed;
    var p := lines[k].path;
    var tmp := p + RESTORE_SUFFIX;
    if Listed(lines[..k], tmp) {
      var i :| 0 <= i < k && lines[..k][i].path == tmp;
      assert lines[i].path == tmp;
      IndexOrder(tree, opts);
      TmpPath(tree, p);
      LexPrefix(BaseName(p), RESTORE_SUFFIX);
      LexTransitive(BaseName(p), BaseName(tmp), BaseName(p));
      LexIrreflexive(BaseName(p));
    }
  }

  lemma {:induction false} ListedBefore(lines: seq<Line>, i: nat, k: nat, p: Path)
    requires i <= k <= |lines| && Listed(lines[..i], p)
    ensures Listed(lines[..k], p)
  {
    var j :| 0 <= j < i && lines[..i][j].path == p;
    assert lines[..k][j].path == p;
  }

  lemma {:induction false} DirectoryThere(tree: Tree, opts: Options, lines: seq<Line>, k: nat, fs: Fs,
                                          permissions: bool)
    requires WellFormed(tree) && lines == Index(tree, opts) && AllInTree(tree, lines) && k < |lines|
    requires FilesUpTo(tree, lines, k, fs, permissions)
    ensures HasParent(fs, lines[k].path)
  {
    hide Index, Parent, Shows, First;
    IndexOrder(tree, opts);
    var dir := Parent(lines[k].path);
    if dir != ROOT {
      assert TreePath(tree, lines[k].path);
      var i :| 0 <= i < k && lines[..k][i].path == dir;
      assert lines[i].path == dir;
      assert Rep(tree, lines, i) == i;
      assert ShownAt(fs, dir, tree[dir], permissions);
      ShownFolder(fs, dir, tree[dir], permissions);
    }
  }

  lemma {:induction false} ShownFolder(fs: Fs, p: Path, e: Entry, permissions: bool)
    requires ShownAt(fs, p, e, permissions)
    ensures IsDir(fs, p) <==> e.Directory?
  {
  }

  /** Nothing is in the way of the next line. */
  lemma {:induction false} NextIsFree(tree: Tree, opts: Options, lines: seq<Line>, k: nat, s: State, permissions: bool)
    requires WellFormed(tree) && lines == Index(tree, opts) && AllInTree(tree, lines) && k < |lines|
    requires RestoredUpTo(tree, lines, k, s, permissions)
    ensures Free(s.fs, lines[k].path)
  {
    hide Index, Parent, BaseName, WellFormed, FilesUpTo, LinksUpTo, InodesUpTo, Stamps, Expands, Valid, HasParent,
         LexLess;
    var p := lines[k].path;
    IndexOrder(tree, opts);
    TmpPath(tree, p);
    TmpIsNew(tree, opts, lines, k);
    DirectoryThere(tree, opts, lines, k, s.fs, permissions);
    PathIsNew(tree, opts, lines, k);
    ParentsListed(tree, opts, lines, k, s.fs);
  }

  /** The directory of every restored entry is the root or was restored. */
  lemma {:induction false} ParentsListed(tree: Tree, opts: Options, lines: seq<Line>, k: nat, fs: Fs)
    requires WellFormed(tree) && lines == Index(tree, opts) && AllInTree(tree, lines) && k < |lines|
    requires NamesUpTo(tree, lines, k, fs)
    ensures forall q :: q in fs.names ==> Parent(q) == ROOT || Listed(lines[..k], Parent(q))
  {
    hide Index, Parent, WellFormed, InOrder;
    IndexOrder(tree, opts);
    forall q | q in fs.names
      ensures Parent(q) == ROOT || Listed(lines[..k], Parent(q))
    {
      var i :| 0 <= i < k && lines[..k][i].path == q;
      assert lines[i].path == q;
      if Listed(lines[..i], Parent(q)) {
        ListedBefore(lines, i, k, Parent(q));
      }
    }
  }

  // One line -------------------------------------------------------------------------------------

  /** What was restored stays as it is while the directory of `p` is touched. */
  lemma {:induction false} ShownStays(before: Fs, after: Fs, p: Path, q: Path, e: Entry, permissions: bool)
    requires ShownAt(before, q, e, permissions) && TimesKept(before, after, p)
    requires q in after.names && after.names[q] == before.names[q]
    requires before.names[q] in after.nodes && after.nodes[before.names[q]] == before.nodes[before.names[q]]
    requires HasParent(before, p) && ROOT !in before.names
    ensures ShownAt(after, q, e, permissions)
  {
    hide Parent;
  }

  lemma {:induction false} NoRootName(tree: Tree, lines: seq<Line>, k: nat, fs: Fs)
    requires WellFormed(tree) && AllInTree(tree, lines) && k <= |lines| && NamesUpTo(tree, lines, k, fs)
    ensures ROOT !in fs.names && forall p :: p in fs.names ==> p in tree
  {
    RootIsNoPath(tree);
    forall p | p in fs.names
      ensures p in tree
    {
      var i :| 0 <= i < k && lines[..k][i].path == p;
      assert lines[i].path in tree;
    }
  }

  lemma {:induction false} NamesStep(tree: Tree, lines: seq<Line>, k: nat, before: Fs, after: Fs, n: nat)
    requires AllInTree(tree, lines) && k < |lines| && NamesUpTo(tree, lines, k, before)
    requires after.names == before.names[lines[k].path := n]
    ensures NamesUpTo(tree, lines, k + 1, after)
  {
    var some := lines[..k + 1];
    assert some == lines[..k] + [lines[k]];
    assert Listed([lines[k]], lines[k].path) by { assert [lines[k]][0].path == lines[k].path; }
    forall p | p in after.names
      ensures Listed(some, p)
    {
      ListedConcat(lines[..k], [lines[k]], p);
    }
  }

  lemma {:induction false} FilesStep(tree: Tree, lines: seq<Line>, k: nat, before: Fs, after: Fs, n: nat,
                                     permissions: bool)
    requires AllInTree(tree, lines) && k < |lines| && NamesUpTo(tree, lines, k, before)
    requires FilesUpTo(tree, lines, k, before, permissions) && Valid(before)
    requires lines[k].path !in before.names && after.names == before.names[lines[k].path := n]
    requires forall m :: m in before.nodes ==> m in after.nodes && after.nodes[m] == before.nodes[m]
    requires TimesKept(before, after, lines[k].path) && HasParent(before, lines[k].path) && ROOT !in before.names
    requires ShownAt(after, lines[k].path, EntryAt(tree, lines, Rep(tree, lines, k)), permissions)
    ensures FilesUpTo(tree, lines, k + 1, after, permissions)
  {
    hide Shows, First, TimesKept, HasParent, Rep, ShownAt;
    forall i | 0 <= i < k
      ensures ShownAt(after, lines[i].path, EntryAt(tree, lines, Rep(tree, lines, i)), permissions)
    {
      var e := EntryAt(tree, lines, Rep(tree, lines, i));
      assert ShownAt(before, lines[i].path, e, permissions);
      ShownStays(before, after, lines[k].path, lines[i].path, e, permissions);
    }
  }

  lemma {:induction false} LinksStep(tree: Tree, lines: seq<Line>, k: nat, before: Fs, after: Fs, n: nat)
    requires AllInTree(tree, lines) && k < |lines| && NamesUpTo(tree, lines, k, before)
    requires LinksUpTo(tree, lines, k, before)
    requires lines[k].path !in before.names && after.names == before.names[lines[k].path := n]
    requires forall i :: 0 <= i < k ==>
               (before.names[lines[i].path] == n <==> Rep(tree, lines, i) == Rep(tree, lines, k))
    ensures (forall i :: 0 <= i < k + 1 ==> lines[i].path in after.names) && LinksUpTo(tree, lines, k + 1, after)
  {
    hide Rep, First;
  }

  lemma {:induction false} InodesStep(tree: Tree, lines: seq<Line>, k: nat, inodes: map<nat, Path>)
    requires AllInTree(tree, lines) && k < |lines| && InodesUpTo(tree, lines, k, inodes)
    ensures var e := EntryAt(tree, lines, k);
            var noted := if Multi(e) && e.ino !in inodes then inodes[e.ino := lines[k].path] else inodes;
            InodesUpTo(tree, lines, k + 1, noted)
  {
    hide First;
    var e := EntryAt(tree, lines, k);
    var after := if Multi(e) && e.ino !in inodes then inodes[e.ino := lines[k].path] else inodes;
    forall num
      ensures num in after <==> First(tree, lines, num, 0) < k + 1
      ensures num in after ==> after[num] == lines[First(tree, lines, num, 0)].path
    {
      var f := First(tree, lines, num, 0);
      assert f == k ==> Carries(tree, lines, k, num);
      assert Multi(e) && e.ino == num ==> Carries(tree, lines, k, num);
    }
  }

  lemma {:induction false} StampsStep(tree: Tree, lines: seq<Line>, k: nat)
    requires AllInTree(tree, lines) && k < |lines|
    ensures AllInTree(tree, lines[..k]) && AllInTree(tree, lines[..k + 1])
    ensures Stamps(tree, lines[..k + 1]) == Stamps(tree, lines[..k]) + Stamp(lines[k].path, EntryAt(tree, lines, k))
  {
    assert lines[..k + 1][..k] == lines[..k];
  }

  lemma {:induction false} ExpandsStep(lines: seq<Line>, k: nat, dir: Bytes)
    requires k < |lines| && Expands(lines[k..], dir)
    ensures Expand(dir, lines[k].rel).Some? && Expand(dir, lines[k].rel).value.0 == lines[k].path
    ensures Expands(lines[k + 1..], Expand(dir, lines[k].rel).value.1)
  {
    hide Expand;
    assert lines[k..][0] == lines[k] && lines[k..][1..] == lines[k + 1..];
  }

  /** `tree` is the tree that was backed up, with the contents that the store has
      for it; every entry can be written and read back. */
  ghost predicate FoundAs(store: Snapshot, repo: Path, given: Tree, tree: Tree)
  {
    && tree.Keys == given.Keys
    && forall p :: p in tree ==> Fits(given[p]) && tree[p] == Found(store, repo, given[p])
  }

  /** The objects that lines from `k` on ask for are there.  A further link asks
      for none. */
  ghost predicate ObjectsThere(store: Snapshot, repo: Path, given: Tree, tree: Tree, lines: seq<Line>, k: nat)
    requires AllInTree(tree, lines) && AllInTree(given, lines)
  {
    forall i :: k <= i < |lines| && Rep(tree, lines, i) == i ==> ObjectThere(store, repo, EntryAt(given, lines, i))
  }

  lemma {:induction false} LineFound(store: Snapshot, repo: Path, given: Tree, tree: Tree, lines: seq<Line>, i: nat)
    requires FoundAs(store, repo, given, tree) && AllInTree(tree, lines) && i < |lines|
    ensures AllInTree(given, lines) && Fits(EntryAt(given, lines, i))
    ensures var e, e0 := EntryAt(tree, lines, i), EntryAt(given, lines, i);
            && e == Found(store, repo, e0) && (Multi(e) <==> Multi(e0)) && (Multi(e) ==> e.ino == e0.ino)
            && (forall p :: Stamp(p, e) == Stamp(p, e0)) && (e.Regular? <==> e0.Regular?)
  {
    hide Fits, Found;
    FoundKeeps(store, repo, EntryAt(given, lines, i));
  }

  lemma {:induction false} NewLine(config: RestoreConfig, env: Env, store: Snapshot, given: Tree, tree: Tree,
                                   opts: Options, lines: seq<Line>, k: nat, s: State, d: Details)
    requires WellFormed(tree) && lines == Index(tree, opts) && AllInTree(tree, lines) && k < |lines|
    requires RestoredUpTo(tree, lines, k, s, config.permissions) && FoundAs(store, config.repo, given, tree)
    requires lines[k].path in given && Describes(d, lines[k].rel, given[lines[k].path])
    requires ObjectThere(store, config.repo, given[lines[k].path])
    requires Multi(EntryAt(tree, lines, k)) ==> EntryAt(tree, lines, k).ino !in s.inodes
    ensures var r := RestoreEntry(config, env, store, s, d);
            r.Turned? && RestoredUpTo(tree, lines, k + 1, r.s, config.permissions)
  {
    hide Index, WellFormed, Describes, RestoreEntry, Expand, Expands, Shows, Fits, ObjectThere, Stamps, First,
         HasParent, TimesKept, Parent, Found, FoundAs, Stamp,
         NamesUpTo, FilesUpTo, LinksUpTo, InodesUpTo, HasEntries;
    var p := lines[k].path;
    LineFound(store, config.repo, given, tree, lines, k);
    NextIsFree(tree, opts, lines, k, s, config.permissions);
    ExpandsStep(lines, k, s.dir);
    var dir := Expand(s.dir, lines[k].rel).value.1;
    NewEntryTurn(config, env, store, s, d, lines[k].rel, given[p], p, dir);
    var after := RestoreEntry(config, env, store, s, d).s;
    OwnRep(tree, lines, k, s.inodes);
    NoRootName(tree, lines, k, s.fs);
    NamesStep(tree, lines, k, s.fs, after.fs, s.fs.next);
    FilesStep(tree, lines, k, s.fs, after.fs, s.fs.next, config.permissions);
    NewNumber(tree, lines, k, s.fs);
    LinksStep(tree, lines, k, s.fs, after.fs, s.fs.next);
    InodesStep(tree, lines, k, s.inodes);
    StampsStep(tree, lines, k);
  }

  /** A file without an earlier link stands for itself. */
  lemma {:induction false} OwnRep(tree: Tree, lines: seq<Line>, k: nat, inodes: map<nat, Path>)
    requires AllInTree(tree, lines) && k < |lines| && InodesUpTo(tree, lines, k, inodes)
    requires Multi(EntryAt(tree, lines, k)) ==> EntryAt(tree, lines, k).ino !in inodes
    ensures Rep(tree, lines, k) == k
  {
    hide First;
    assert Multi(EntryAt(tree, lines, k)) ==> Carries(tree, lines, k, EntryAt(tree, lines, k).ino);
  }

  lemma {:induction false} NewNumber(tree: Tree, lines: seq<Line>, k: nat, fs: Fs)
    requires AllInTree(tree, lines) && k < |lines| && NamesUpTo(tree, lines, k, fs) && Valid(fs)
    requires Rep(tree, lines, k) == k
    ensures forall i :: 0 <= i < k ==> fs.names[lines[i].path] != fs.next && Rep(tree, lines, i) != Rep(tree, lines, k)
  {
    hide First;
  }

  lemma {:induction false} LinkLine(config: RestoreConfig, env: Env, store: Snapshot, given: Tree, tree: Tree,
                                    opts: Options, lines: seq<Line>, k: nat, s: State, d: Details)
    requires WellFormed(tree) && lines == Index(tree, opts) && AllInTree(tree, lines) && k < |lines|
    requires RestoredUpTo(tree, lines, k, s, config.permissions) && FoundAs(store, config.repo, given, tree)
    requires lines[k].path in given && Describes(d, lines[k].rel, given[lines[k].path])
    requires Multi(EntryAt(tree, lines, k)) && EntryAt(tree, lines, k).ino in s.inodes
    ensures var r := RestoreEntry(config, env, store, s, d);
            r.Turned? && RestoredUpTo(tree, lines, k + 1, r.s, config.permissions)
  {
    hide Index, WellFormed, Describes, RestoreEntry, Expand, Expands, Shows, Fits, ObjectThere, Stamps, First,
         HasParent, TimesKept, Parent, Found, FoundAs,
         NamesUpTo, FilesUpTo, LinksUpTo, InodesUpTo, HasEntries;
    var e, p := EntryAt(tree, lines, k), lines[k].path;
    LineFound(store, config.repo, given, tree, lines, k);
    NextIsFree(tree, opts, lines, k, s, config.permissions);
    ExpandsStep(lines, k, s.dir);
    var dir := Expand(s.dir, lines[k].rel).value.1;
    FirstLink(tree, lines, k, s, config.permissions);
    LinkEntryTurn(config, env, store, s, d, lines[k].rel, given[p], p, dir);
    var after := RestoreEntry(config, env, store, s, d).s;
    var n := s.fs.names[s.inodes[e.ino]];
    NoRootName(tree, lines, k, s.fs);
    NamesStep(tree, lines, k, s.fs, after.fs, n);
    JoinedShows(tree, lines, k, s, after.fs, config.permissions);
    FilesStep(tree, lines, k, s.fs, after.fs, n, config.permissions);
    LinksStep(tree, lines, k, s.fs, after.fs, n);
    InodesStep(tree, lines, k, s.inodes);
    StampsStep(tree, lines, k);
    assert s.dirtimes + [] == s.dirtimes;
  }

  /** The file that is linked to is that of the first line with the inode
      number. */
  lemma {:induction false} FirstLink(tree: Tree, lines: seq<Line>, k: nat, s: State, permissions: bool)
    requires AllInTree(tree, lines) && k < |lines| && RestoredUpTo(tree, lines, k, s, permissions)
    requires Multi(EntryAt(tree, lines, k)) && EntryAt(tree, lines, k).ino in s.inodes
    ensures var r, source := Rep(tree, lines, k), s.inodes[EntryAt(tree, lines, k).ino];
            && r < k && source == lines[r].path && source in s.fs.names && !IsDir(s.fs, source)
            && forall i :: 0 <= i < k ==>
                             (s.fs.names[lines[i].path] == s.fs.names[source] <==>
                              Rep(tree, lines, i) == Rep(tree, lines, k))
  {
    hide First, Shows, Expands, Stamps, Valid;
    var r := Rep(tree, lines, k);
    RepFacts(tree, lines, k);
    assert ShownAt(s.fs, lines[r].path, EntryAt(tree, lines, r), permissions);
    ShownFolder(s.fs, lines[r].path, EntryAt(tree, lines, r), permissions);
  }

  lemma {:induction false} JoinedShows(tree: Tree, lines: seq<Line>, k: nat, s: State, after: Fs, permissions: bool)
    requires WellFormed(tree) && AllInTree(tree, lines) && k < |lines| && RestoredUpTo(tree, lines, k, s, permissions)
    requires Multi(EntryAt(tree, lines, k)) && EntryAt(tree, lines, k).ino in s.inodes
    requires var source := s.inodes[EntryAt(tree, lines, k).ino];
             source in s.fs.names && Joined(s.fs, after, lines[k].path, s.fs.names[source])
    requires lines[k].path !in s.fs.names && HasParent(s.fs, lines[k].path)
    ensures ShownAt(after, lines[k].path, EntryAt(tree, lines, Rep(tree, lines, k)), permissions)
  {
    hide First, Shows, Expands, Stamps, HasParent, TimesKept, WellFormed, Valid;
    var r, source := Rep(tree, lines, k), s.inodes[EntryAt(tree, lines, k).ino];
    RepFacts(tree, lines, k);
    FirstLink(tree, lines, k, s, permissions);
    NoRootName(tree, lines, k, s.fs);
    assert ShownAt(s.fs, source, EntryAt(tree, lines, r), permissions);
    ShownStays(s.fs, after, lines[k].path, source, EntryAt(tree, lines, r), permissions);
  }

  // The loop -------------------------------------------------------------------------------------

  /** A line without its object ends the restore. */
  lemma {:induction false} MissingLine(config: RestoreConfig, env: Env, store: Snapshot, given: Tree, tree: Tree,
                                       opts: Options, lines: seq<Line>, k: nat, s: State, d: Details)
    requires WellFormed(tree) && lines == Index(tree, opts) && AllInTree(tree, lines) && k < |lines|
    requires RestoredUpTo(tree, lines, k, s, config.permissions) && FoundAs(store, config.repo, given, tree)
    requires lines[k].path in given && Describes(d, lines[k].rel, given[lines[k].path])
    requires !ObjectThere(store, config.repo, given[lines[k].path])
    requires Multi(EntryAt(tree, lines, k)) ==> EntryAt(tree, lines, k).ino !in s.inodes
    ensures RestoreEntry(config, env, store, s, d).Ended?
  {
    hide Index, WellFormed, Describes, RestoreEntry, Expand, Expands, Fits, ObjectThere, Stamps, First, Parent, Found,
         FoundAs, NamesUpTo, FilesUpTo, LinksUpTo, InodesUpTo, HasEntries, HasParent;
    var p := lines[k].path;
    LineFound(store, config.repo, given, tree, lines, k);
    NextIsFree(tree, opts, lines, k, s, config.permissions);
    ExpandsStep(lines, k, s.dir);
    MissingEntryEnds(config, env, store, s, d, lines[k].rel, given[p], p, Expand(s.dir, lines[k].rel).value.1);
  }

  /** The loop comes to the end of the index if and only if all the objects are
      there that are asked for, and then every line has been restored. */
  lemma {:induction false} LinesTurn(config: RestoreConfig, env: Env, store: Snapshot, given: Tree, tree: Tree,
                                     opts: Options, lines: seq<Line>, k: nat, s: State, entries: seq<Details>)
    requires WellFormed(tree) && lines == Index(tree, opts) && AllInTree(tree, lines) && k <= |lines|
    requires RestoredUpTo(tree, lines, k, s, config.permissions) && FoundAs(store, config.repo, given, tree)
    requires AllInTree(given, lines) && |entries| == |lines| - k
    requires forall i :: 0 <= i < |entries| ==> Describes(entries[i], lines[k + i].rel, EntryAt(given, lines, k + i))
    ensures var r := RestoreEntries(config, env, store, s, entries);
            && (r.Turned? <==> ObjectsThere(store, config.repo, given, tree, lines, k))
            && (r.Turned? ==> RestoredUpTo(tree, lines, |lines|, r.s, config.permissions))
    decreases |entries|
  {
    hide Index, WellFormed, Describes, RestoreEntry, RestoredUpTo, FoundAs, First, ObjectThere, Rep;
    if entries != [] {
      var e, d := EntryAt(tree, lines, k), entries[0];
      assert Describes(d, lines[k + 0].rel, EntryAt(given, lines, k + 0));
      LineStands(tree, lines, k, s, config.permissions);
      if Multi(e) && e.ino in s.inodes {
        LinkLine(config, env, store, given, tree, opts, lines, k, s, d);
      } else if ObjectThere(store, config.repo, given[lines[k].path]) {
        NewLine(config, env, store, given, tree, opts, lines, k, s, d);
      } else {
        MissingLine(config, env, store, given, tree, opts, lines, k, s, d);
        assert Rep(tree, lines, k) == k && !ObjectThere(store, config.repo, EntryAt(given, lines, k));
        return;
      }
      forall i | 0 <= i < |entries[1..]|
        ensures Describes(entries[1..][i], lines[k + 1 + i].rel, EntryAt(given, lines, k + 1 + i))
      {
        assert entries[1..][i] == entries[i + 1] && k + 1 + i == k + (i + 1);
        assert Describes(entries[i + 1], lines[k + (i + 1)].rel, EntryAt(given, lines, k + (i + 1)));
      }
      LinesTurn(config, env, store, given, tree, opts, lines, k + 1, RestoreEntry(config, env, store, s, d).s,
                entries[1..]);
    }
  }

  /** The line stands for itself unless its inode number is known. */
  lemma {:induction false} LineStands(tree: Tree, lines: seq<Line>, k: nat, s: State, permissions: bool)
    requires AllInTree(tree, lines) && k < |lines| && RestoredUpTo(tree, lines, k, s, permissions)
    ensures Rep(tree, lines, k) == k <==> !(Multi(EntryAt(tree, lines, k)) && EntryAt(tree, lines, k).ino in s.inodes)
  {
    hide First, FilesUpTo, LinksUpTo, NamesUpTo, Stamps, Expands, Valid;
    if Multi(EntryAt(tree, lines, k)) && EntryAt(tree, lines, k).ino in s.inodes {
      assert First(tree, lines, EntryAt(tree, lines, k).ino, 0) < k;
    } else {
      OwnRep(tree, lines, k, s.inodes);
    }
  }

  // The times of the directories ---------------------------------------------------------------------

  lemma {:induction false} DirTimesSet(fs: Fs, stamps: seq<DirStamp>)
    requires forall i :: 0 <= i < |stamps| ==> stamps[i].dir in fs.names
    requires forall i, j :: 0 <= i < |stamps| && 0 <= j < |stamps| &&
                            fs.names[stamps[i].dir] == fs.names[stamps[j].dir] ==>
                              stamps[i] == stamps[j]
    ensures var (failure, after) := SetDirTimes(fs, stamps);
            && failure.None? && after.names == fs.names && after.nodes == fs.nodes
            && (forall i :: 0 <= i < |stamps| ==>
                              fs.names[stamps[i].dir] in after.times
                              && after.times[fs.names[stamps[i].dir]] == (stamps[i].atime, stamps[i].mtime))
            && (forall m :: m in fs.times && (forall i :: 0 <= i < |stamps| ==> fs.names[stamps[i].dir] != m) ==>
                              m in after.times && after.times[m] == fs.times[m])
    decreases |stamps|
  {
    if stamps != [] {
      var first, rest := stamps[0], stamps[1..];
      assert forall i :: 0 <= i < |rest| ==> rest[i] == stamps[i + 1];
      var mid := Stamped(fs, first.dir, first.atime, first.mtime).value;
      DirTimesSet(mid, rest);
      assert stamps == [first] + rest;
      var n := fs.names[first.dir];
      if i :| 0 <= i < |rest| && fs.names[rest[i].dir] == n {
        assert rest[i] == first;
      }
    }
  }

  ghost predicate StampOf(tree: Tree, lines: seq<Line>, x: DirStamp, i: nat)
    requires AllInTree(tree, lines) && i < |lines|
  {
    EntryAt(tree, lines, i).Directory? && [x] == Stamp(lines[i].path, EntryAt(tree, lines, i))
  }

  /** The line that a stamp comes from. */
  lemma {:induction false} StampLine(tree: Tree, lines: seq<Line>, k: nat, x: DirStamp) returns (i: nat)
    requires AllInTree(tree, lines) && k <= |lines| && AllInTree(tree, lines[..k]) && x in Stamps(tree, lines[..k])
    ensures i < k && StampOf(tree, lines, x, i)
    decreases k
  {
    hide Stamp;
    if k == 0 {
      assert false;
    } else {
      StampsStep(tree, lines, k - 1);
      if x in Stamps(tree, lines[..k - 1]) {
        i := StampLine(tree, lines, k - 1, x);
      } else {
        i := k - 1;
        StampHolds(lines[i].path, EntryAt(tree, lines, i), x);
      }
    }
  }

  lemma {:induction false} StampHolds(p: Path, e: Entry, x: DirStamp)
    ensures x in Stamp(p, e) <==> e.Directory? && [x] == Stamp(p, e)
    ensures e.Directory? ==> Stamp(p, e) == [DirStamp(p, e.meta.atime, e.meta.mtime)]
  {
    if [x] == Stamp(p, e) {
      assert [x][0] == x;
    }
  }

  lemma {:induction false} LineStamped(tree: Tree, lines: seq<Line>, k: nat, i: nat)
    requires AllInTree(tree, lines) && i < k <= |lines| && AllInTree(tree, lines[..k])
    requires EntryAt(tree, lines, i).Directory?
    ensures var meta := EntryAt(tree, lines, i).meta;
            DirStamp(lines[i].path, meta.atime, meta.mtime) in Stamps(tree, lines[..k])
    decreases k
  {
    StampsStep(tree, lines, k - 1);
    if i < k - 1 {
      LineStamped(tree, lines, k - 1, i);
    }
  }

  // The restored tree ----------------------------------------------------------------------------------

  /** Two paths of the tree are links to one file. */
  ghost predicate SameFile(a: Entry, b: Entry)
  {
    a.Regular? && b.Regular? && a.dev == b.dev && a.ino == b.ino
  }

  /** `lstat` shows the same of one file under all its names, and counts them. */
  ghost predicate Consistent(tree: Tree)
  {
    forall p, q :: p in tree && q in tree && p != q && SameFile(tree[p], tree[q]) ==>
                     tree[p] == tree[q] && Multi(tree[p])
  }

  ghost predicate SameNumber(a: Entry, b: Entry) { Multi(a) && Multi(b) && a.ino == b.ino }

  /** The index records no device: it presumes that among files with several
      links one inode number means one file. */
  ghost predicate InodesIdentify(tree: Tree, opts: Options)
  {
    forall p, q :: SelectedBelow(tree, opts, p, ROOT) && SelectedBelow(tree, opts, q, ROOT)
                   && SameNumber(tree[p], tree[q]) ==>
                     tree[p].dev == tree[q].dev
  }

  /** The target holds the selected part of the tree: names, contents, link
      targets, permissions and owners, the times of files and directories, and
      which names are links to one file. */
  ghost predicate Rebuilt(tree: Tree, opts: Options, fs: Fs, permissions: bool)
  {
    && (forall p :: p in fs.names <==> SelectedBelow(tree, opts, p, ROOT))
    && (forall p :: SelectedBelow(tree, opts, p, ROOT) ==>
                      && ShownAt(fs, p, tree[p], permissions)
                      && (tree[p].Directory? ==> fs.times[fs.names[p]] == (tree[p].meta.atime, tree[p].meta.mtime)))
    && (forall p, q :: SelectedBelow(tree, opts, p, ROOT) && SelectedBelow(tree, opts, q, ROOT) ==>
                         (fs.names[p] == fs.names[q] <==> p == q || SameFile(tree[p], tree[q])))
  }

  lemma {:induction false} LineOf(lines: seq<Line>, p: Path) returns (i: nat)
    requires Listed(lines, p)
    ensures i < |lines| && lines[i].path == p
  {
    i :| 0 <= i < |lines| && lines[i].path == p;
  }

  lemma {:induction false} StampsAreDistinct(tree: Tree, lines: seq<Line>, s: State, permissions: bool)
    requires AllInTree(tree, lines) && RestoredUpTo(tree, lines, |lines|, s, permissions)
    ensures var stamps := s.dirtimes;
            && (forall i :: 0 <= i < |stamps| ==> stamps[i].dir in s.fs.names)
            && (forall i, j :: 0 <= i < |stamps| && 0 <= j < |stamps|
                               && s.fs.names[stamps[i].dir] == s.fs.names[stamps[j].dir] ==>
                                 stamps[i] == stamps[j])
  {
    hide First, Shows, Expands, Stamps, Valid, FilesUpTo, InodesUpTo;
    var stamps := s.dirtimes;
    forall i | 0 <= i < |stamps|
      ensures stamps[i].dir in s.fs.names
    {
      var a := StampLine(tree, lines, |lines|, stamps[i]);
      StampHolds(lines[a].path, EntryAt(tree, lines, a), stamps[i]);
    }
    forall i, j | 0 <= i < |stamps| && 0 <= j < |stamps| && s.fs.names[stamps[i].dir] == s.fs.names[stamps[j].dir]
      ensures stamps[i] == stamps[j]
    {
      var a := StampLine(tree, lines, |lines|, stamps[i]);
      var b := StampLine(tree, lines, |lines|, stamps[j]);
      StampHolds(lines[a].path, EntryAt(tree, lines, a), stamps[i]);
      StampHolds(lines[b].path, EntryAt(tree, lines, b), stamps[j]);
      assert Rep(tree, lines, a) == a && Rep(tree, lines, b) == b;
    }
  }

  /** Setting the times of directories leaves the rest as it was. */
  lemma {:induction false} FilesAfterDirTimes(tree: Tree, lines: seq<Line>, s: State, permissions: bool, i: nat)
    requires AllInTree(tree, lines) && RestoredUpTo(tree, lines, |lines|, s, permissions) && i < |lines|
    ensures var (failure, fs) := SetDirTimes(s.fs, s.dirtimes);
            && failure.None? && fs.names == s.fs.names
            && ShownAt(fs, lines[i].path, EntryAt(tree, lines, Rep(tree, lines, i)), permissions)
            && var e := EntryAt(tree, lines, i);
               e.Directory? ==> fs.times[fs.names[lines[i].path]] == (e.meta.atime, e.meta.mtime)
  {
    hide First, Expands, Stamps, Valid, InodesUpTo, SetDirTimes, Shows;
    StampsAreDistinct(tree, lines, s, permissions);
    DirTimesSet(s.fs, s.dirtimes);
    var fs := SetDirTimes(s.fs, s.dirtimes).1;
    var stamps, p := s.dirtimes, lines[i].path;
    var e := EntryAt(tree, lines, Rep(tree, lines, i));
    assert ShownAt(s.fs, p, e, permissions);
    if j :| 0 <= j < |stamps| && s.fs.names[stamps[j].dir] == s.fs.names[p] {
      var a := StampLine(tree, lines, |lines|, stamps[j]);
      StampHolds(lines[a].path, EntryAt(tree, lines, a), stamps[j]);
      assert Rep(tree, lines, a) == a;
      FolderShows(s.fs.nodes[s.fs.names[p]], s.fs.times[s.fs.names[p]], fs.times[s.fs.names[p]], e, permissions);
    }
    if EntryAt(tree, lines, i).Directory? {
      LineStamped(tree, lines, |lines|, i);
    }
  }

  lemma {:induction false} FolderShows(node: Node, times: Times, other: Times, e: Entry, permissions: bool)
    requires Shows(node, times, e, permissions) && e.Directory?
    ensures Shows(node, other, e, permissions)
  {
  }

  /** After all lines, two names lead to one file exactly if they are one or
      have the same inode number. */
  lemma {:induction false} Sharing(tree: Tree, opts: Options, lines: seq<Line>, s: State, permissions: bool, i: nat,
                                   j: nat)
    requires WellFormed(tree) && lines == Index(tree, opts) && AllInTree(tree, lines)
    requires RestoredUpTo(tree, lines, |lines|, s, permissions) && i < |lines| && j < |lines|
    ensures s.fs.names[lines[i].path] == s.fs.names[lines[j].path] <==>
            lines[i].path == lines[j].path || SameNumber(EntryAt(tree, lines, i), EntryAt(tree, lines, j))
  {
    hide First, Expands, Stamps, Valid, InodesUpTo, Index, FilesUpTo, WellFormed, InOrder, ParentsFirst, Rep;
    SameRep(tree, lines, i, j);
    IndexOrder(tree, opts);
  }

  /** If inode numbers identify files, the representative is the file itself. */
  lemma {:induction false} RepIsSame(tree: Tree, opts: Options, lines: seq<Line>, i: nat)
    requires WellFormed(tree) && Consistent(tree) && InodesIdentify(tree, opts)
    requires lines == Index(tree, opts) && AllInTree(tree, lines) && i < |lines|
    ensures EntryAt(tree, lines, Rep(tree, lines, i)) == EntryAt(tree, lines, i)
  {
    hide First, Index, WellFormed, SelectedBelow;
    var r := Rep(tree, lines, i);
    RepFacts(tree, lines, i);
    LineSelected(tree, opts, lines, i);
    LineSelected(tree, opts, lines, r);
    if r != i {
      assert SameNumber(tree[lines[r].path], tree[lines[i].path]);
    }
  }

  lemma {:induction false} LineSelected(tree: Tree, opts: Options, lines: seq<Line>, i: nat)
    requires WellFormed(tree) && lines == Index(tree, opts) && i < |lines|
    ensures SelectedBelow(tree, opts, lines[i].path, ROOT)
  {
    hide Index, SelectedBelow;
    assert Listed(lines, lines[i].path);
    IndexLists(tree, opts, lines[i].path);
  }

  lemma {:induction false} SelectedLine(tree: Tree, opts: Options, lines: seq<Line>, p: Path) returns (i: nat)
    requires WellFormed(tree) && lines == Index(tree, opts) && SelectedBelow(tree, opts, p, ROOT)
    ensures i < |lines| && lines[i].path == p
  {
    hide Index, SelectedBelow;
    IndexLists(tree, opts, p);
    i := LineOf(lines, p);
  }

  lemma {:induction false} SharedIsSame(tree: Tree, opts: Options, p: Path, q: Path)
    requires Consistent(tree) && InodesIdentify(tree, opts)
    requires SelectedBelow(tree, opts, p, ROOT) && SelectedBelow(tree, opts, q, ROOT)
    ensures p == q || SameNumber(tree[p], tree[q]) <==> p == q || SameFile(tree[p], tree[q])
  {
  }

  /** All lines restored and the times of the directories set: the tree is
      rebuilt if inode numbers identify files ... */
  lemma {:induction false} RebuiltIf(tree: Tree, opts: Options, lines: seq<Line>, s: State, permissions: bool)
    requires WellFormed(tree) && Consistent(tree) && lines == Index(tree, opts) && AllInTree(tree, lines)
    requires RestoredUpTo(tree, lines, |lines|, s, permissions) && InodesIdentify(tree, opts)
    ensures Rebuilt(tree, opts, SetDirTimes(s.fs, s.dirtimes).1, permissions)
  {
    hide First, Expands, Stamps, Valid, InodesUpTo, FilesUpTo, LinksUpTo, Index, WellFormed, SelectedBelow,
         SetDirTimes, Shows, SameFile,
         SameNumber, Consistent, InodesIdentify, Rep;
    StampsAreDistinct(tree, lines, s, permissions);
    DirTimesSet(s.fs, s.dirtimes);
    var fs := SetDirTimes(s.fs, s.dirtimes).1;
    NamesAreSelected(tree, opts, lines, s.fs);
    forall p | SelectedBelow(tree, opts, p, ROOT)
      ensures ShownAt(fs, p, tree[p], permissions)
      ensures tree[p].Directory? ==> fs.times[fs.names[p]] == (tree[p].meta.atime, tree[p].meta.mtime)
    {
      var i := SelectedLine(tree, opts, lines, p);
      FilesAfterDirTimes(tree, lines, s, permissions, i);
      RepIsSame(tree, opts, lines, i);
    }
    forall p, q | SelectedBelow(tree, opts, p, ROOT) && SelectedBelow(tree, opts, q, ROOT)
      ensures fs.names[p] == fs.names[q] <==> p == q || SameFile(tree[p], tree[q])
    {
      var i := SelectedLine(tree, opts, lines, p);
      var j := SelectedLine(tree, opts, lines, q);
      Sharing(tree, opts, lines, s, permissions, i, j);
      SharedIsSame(tree, opts, p, q);
    }
  }

  lemma {:induction false} NamesAreSelected(tree: Tree, opts: Options, lines: seq<Line>, fs: Fs)
    requires WellFormed(tree) && lines == Index(tree, opts) && AllInTree(tree, lines)
    requires NamesUpTo(tree, lines, |lines|, fs)
    ensures forall p :: p in fs.names <==> SelectedBelow(tree, opts, p, ROOT)
  {
    hide Index, SelectedBelow, WellFormed;
    assert lines[..|lines|] == lines;
    forall p
      ensures p in fs.names <==> SelectedBelow(tree, opts, p, ROOT)
    {
      IndexLists(tree, opts, p);
    }
  }

  /** ... and only then. */
  lemma {:induction false} RebuiltOnlyIf(tree: Tree, opts: Options, lines: seq<Line>, s: State, permissions: bool)
    requires WellFormed(tree) && lines == Index(tree, opts) && AllInTree(tree, lines)
    requires RestoredUpTo(tree, lines, |lines|, s, permissions)
    requires Rebuilt(tree, opts, SetDirTimes(s.fs, s.dirtimes).1, permissions)
    ensures InodesIdentify(tree, opts)
  {
    hide First, Expands, Stamps, Valid, InodesUpTo, FilesUpTo, LinksUpTo, Index, WellFormed, SelectedBelow,
         SetDirTimes, Shows, ShownAt, Rep,
         SameNumber;
    StampsAreDistinct(tree, lines, s, permissions);
    DirTimesSet(s.fs, s.dirtimes);
    forall p, q |
      SelectedBelow(tree, opts, p, ROOT) && SelectedBelow(tree, opts, q, ROOT) && SameNumber(tree[p], tree[q])
      ensures tree[p].Regular? && tree[q].Regular? && tree[p].dev == tree[q].dev
    {
      var i := SelectedLine(tree, opts, lines, p);
      var j := SelectedLine(tree, opts, lines, q);
      Sharing(tree, opts, lines, s, permissions, i, j);
      NumberedIsRegular(tree[p], tree[q]);
    }
  }

  lemma {:induction false} NumberedIsRegular(a: Entry, b: Entry)
    requires SameNumber(a, b)
    ensures a.Regular? && b.Regular?
  {
  }
}
