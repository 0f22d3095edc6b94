/** From a backup to a restore, with any number of other backups and cleanups
    between them. */
module RoundTrip {
  import opened Bytes
  import opened UrlCodec
  import opened IndexLine
  import opened IndexText
  import opened Names
  import opened Walk
  import opened Records
  import opened BufferedFile
  import opened Repository
  import opened Target
  import opened Restore
  import opened RestoreFacts
  import Backup
  import Cleanup
  import History
  import WalkFacts
  import Sha1Spec
  import RestoreSteps
  import HashFile

  /** What is stored under the hash of a file of the tree and has that hash is
      that file's content. */
  ghost predicate NoCollision(tree: Tree, files: Snapshot, repo: Path)
  {
    forall p :: p in tree && RestoreSteps.Big(tree[p]) && Stored(files, repo, Sha1Spec.Digest(tree[p].content)) ==>
                  files[StorePath(repo, Sha1Spec.Digest(tree[p].content))] == tree[p].content
  }

  /** A tree as `lstat` can show it. */
  ghost predicate Observed(tree: Tree)
  {
    WellFormed(tree) && Consistent(tree) && forall p :: p in tree ==> RestoreSteps.Fits(tree[p])
  }

  /** Every entry of a restorable index finds the content of its file. */
  lemma {:induction false} StoredIsThere(e: Entry, rel: Bytes, files: Snapshot, repo: Path, tree: Tree, p: Path)
    requires p in tree && tree[p] == e && NoCollision(tree, files, repo)
    requires EntryRestorable(files, repo, DetailsOf(RecordOf(rel, e)))
    ensures RestoreSteps.ObjectThere(files, repo, e) && RestoreSteps.Found(files, repo, e) == e
  {
    hide DetailsOf, RecordOf, HashFile.Hashed, StorePath, HashOfHex, HexOf, Sha1Spec.Digest;
    RecordDescribes(rel, e);
    if RestoreSteps.Big(e) {
      HashDecodeInvertsHexEncode(Sha1Spec.Digest(e.content));
    }
  }

  // The tree as the store has it ----------------------------------------------------------

  ghost function FoundTree(files: Snapshot, repo: Path, tree: Tree): Tree
  {
    map p | p in tree :: RestoreSteps.Found(files, repo, tree[p])
  }

  lemma {:induction false} FoundHasShape(files: Snapshot, repo: Path, tree: Tree)
    ensures WalkFacts.SameShape(tree, FoundTree(files, repo, tree))
  {
    hide RestoreSteps.Found;
    forall p | p in tree
      ensures tree[p].Directory? <==> FoundTree(files, repo, tree)[p].Directory?
      ensures tree[p].Directory? ==> tree[p].mount == FoundTree(files, repo, tree)[p].mount
    {
      RestoreSteps.FoundKeeps(files, repo, tree[p]);
    }
  }

  lemma {:induction false} FoundIsObserved(files: Snapshot, repo: Path, tree: Tree)
    requires Observed(tree)
    ensures var found := FoundTree(files, repo, tree);
            WellFormed(found) && Consistent(found) && FoundAs(files, repo, tree, found)
  {
    hide RestoreSteps.Found, RestoreSteps.Fits, Parent, BaseName, Join, ValidName;
    var found := FoundTree(files, repo, tree);
    FoundHasShape(files, repo, tree);
    forall p | p in found
      ensures TreePath(found, p)
    {
      assert TreePath(tree, p);
    }
    forall p, q | p in found && q in found && p != q && SameFile(found[p], found[q])
      ensures found[p] == found[q] && RestoreSteps.Multi(found[p])
    {
      RestoreSteps.FoundKeeps(files, repo, tree[p]);
      RestoreSteps.FoundKeeps(files, repo, tree[q]);
      assert SameFile(tree[p], tree[q]);
    }
  }

  lemma {:induction false} FoundIdentify(files: Snapshot, repo: Path, tree: Tree, opts: Options)
    ensures InodesIdentify(FoundTree(files, repo, tree), opts) <==> InodesIdentify(tree, opts)
  {
    hide RestoreSteps.Found, SelectedBelow;
    var found := FoundTree(files, repo, tree);
    FoundHasShape(files, repo, tree);
    forall p
      ensures SelectedBelow(found, opts, p, ROOT) <==> SelectedBelow(tree, opts, p, ROOT)
      ensures SelectedBelow(tree, opts, p, ROOT) ==> p in tree
    {
      WalkFacts.SameSelected(tree, found, opts, p, ROOT);
      SelectedIsThere(tree, opts, p);
    }
    forall p, q | p in tree && q in tree
      ensures SameNumber(found[p], found[q]) <==> SameNumber(tree[p], tree[q])
      ensures SameNumber(tree[p], tree[q]) ==> found[p].dev == tree[p].dev && found[q].dev == tree[q].dev
    {
      RestoreSteps.FoundKeeps(files, repo, tree[p]);
      RestoreSteps.FoundKeeps(files, repo, tree[q]);
    }
  }

  lemma {:induction false} SelectedIsThere(tree: Tree, opts: Options, p: Path)
    ensures SelectedBelow(tree, opts, p, ROOT) ==> p in tree && p !in opts.excluded
  {
  }

  /** What a restore rebuilds is the tree itself if the selected files have their
      contents in the store. */
  lemma {:induction false} RebuiltAsFound(files: Snapshot, repo: Path, tree: Tree, opts: Options, fs: Fs,
                                          permissions: bool)
    requires forall p :: SelectedBelow(tree, opts, p, ROOT) ==> RestoreSteps.Found(files, repo, tree[p]) == tree[p]
    ensures Rebuilt(FoundTree(files, repo, tree), opts, fs, permissions) <==> Rebuilt(tree, opts, fs, permissions)
  {
    hide RestoreSteps.Found, SelectedBelow, ShownAt, SameFile;
    var found := FoundTree(files, repo, tree);
    FoundHasShape(files, repo, tree);
    forall p
      ensures SelectedBelow(found, opts, p, ROOT) <==> SelectedBelow(tree, opts, p, ROOT)
      ensures SelectedBelow(tree, opts, p, ROOT) ==> p in tree && found[p] == tree[p]
    {
      WalkFacts.SameSelected(tree, found, opts, p, ROOT);
      SelectedIsThere(tree, opts, p);
    }
  }

  // The objects that an index asks for ------------------------------------------------------

  /** A line before has the same inode number. */
  ghost predicate EarlierLink(tree: Tree, lines: seq<Line>, i: nat)
    requires AllInTree(tree, lines) && i < |lines|
  {
    exists j :: 0 <= j < i && SameNumber(tree[lines[j].path], tree[lines[i].path])
  }

  /** The store has an object for each large file, but only for one of those with
      the same inode number: for the first. */
  ghost predicate ObjectsAsked(files: Snapshot, repo: Path, tree: Tree, lines: seq<Line>)
    requires AllInTree(tree, lines)
  {
    forall i :: 0 <= i < |lines| && RestoreSteps.Big(tree[lines[i].path]) && !EarlierLink(tree, lines, i) ==>
                  StorePath(repo, Sha1Spec.Digest(tree[lines[i].path].content)) in files
  }

  lemma {:induction false} StandsIffFirst(tree: Tree, lines: seq<Line>, i: nat)
    requires AllInTree(tree, lines) && i < |lines|
    ensures Rep(tree, lines, i) == i <==> !EarlierLink(tree, lines, i)
  {
    hide First;
    var e := EntryAt(tree, lines, i);
    if RestoreSteps.Multi(e) {
      var r := First(tree, lines, e.ino, 0);
      if r < i {
        assert Carries(tree, lines, r, e.ino) && SameNumber(tree[lines[r].path], e);
      }
      if j :| 0 <= j < i && SameNumber(tree[lines[j].path], tree[lines[i].path]) {
        assert Carries(tree, lines, j, e.ino);
      }
    }
  }

  lemma {:induction false} AskedIsThere(files: Snapshot, repo: Path, tree: Tree, lines: seq<Line>)
    requires AllInTree(tree, lines) && AllInTree(FoundTree(files, repo, tree), lines)
    ensures ObjectsThere(files, repo, tree, FoundTree(files, repo, tree), lines, 0) <==>
            ObjectsAsked(files, repo, tree, lines)
  {
    hide RestoreSteps.Found, StorePath, Sha1Spec.Digest, Rep, EarlierLink;
    var found := FoundTree(files, repo, tree);
    forall i | 0 <= i < |lines|
      ensures Rep(found, lines, i) == i <==> !EarlierLink(tree, lines, i)
    {
      StandsIffFirst(found, lines, i);
      SameLinks(files, repo, tree, lines, i);
    }
    if ObjectsAsked(files, repo, tree, lines) {
      forall i | 0 <= i < |lines| && Rep(found, lines, i) == i
        ensures RestoreSteps.ObjectThere(files, repo, EntryAt(tree, lines, i))
      {
      }
    }
    if ObjectsThere(files, repo, tree, found, lines, 0) {
      forall i | 0 <= i < |lines| && RestoreSteps.Big(tree[lines[i].path]) && !EarlierLink(tree, lines, i)
        ensures StorePath(repo, Sha1Spec.Digest(tree[lines[i].path].content)) in files
      {
        assert RestoreSteps.ObjectThere(files, repo, EntryAt(tree, lines, i));
      }
    }
  }

  lemma {:induction false} SameLinks(files: Snapshot, repo: Path, tree: Tree, lines: seq<Line>, i: nat)
    requires AllInTree(tree, lines) && AllInTree(FoundTree(files, repo, tree), lines) && i < |lines|
    ensures EarlierLink(FoundTree(files, repo, tree), lines, i) <==> EarlierLink(tree, lines, i)
  {
    hide RestoreSteps.Found;
    var found := FoundTree(files, repo, tree);
    forall j | 0 <= j < |lines|
      ensures SameNumber(found[lines[j].path], found[lines[i].path]) <==>
              SameNumber(tree[lines[j].path], tree[lines[i].path])
    {
      RestoreSteps.FoundKeeps(files, repo, tree[lines[j].path]);
      RestoreSteps.FoundKeeps(files, repo, tree[lines[i].path]);
    }
  }

  /** Before the first line nothing is restored. */
  lemma {:induction false} NothingRestored(tree: Tree, opts: Options, lines: seq<Line>, permissions: bool)
    requires WellFormed(tree) && lines == Index(tree, opts) && AllInTree(tree, lines)
    ensures RestoredUpTo(tree, lines, 0, State(EMPTY, [], map[], []), permissions)
  {
    hide Index, WellFormed, RestoreSteps.Shows;
    WalkFacts.IndexNamesExpand(tree, opts);
    assert lines[0..] == lines && lines[..0] == [];
  }

  lemma {:induction false} EntriesDescribe(tree: Tree, lines: seq<Line>)
    requires AllInTree(tree, lines)
    ensures var entries := AllDetails(RecordsOf(tree, lines));
            && |entries| == |lines|
            && forall i :: 0 <= i < |entries| ==> Describes(entries[i], lines[i].rel, EntryAt(tree, lines, i))
  {
    hide DetailsOf, RecordOf, Describes;
    var recs := RecordsOf(tree, lines);
    forall i | 0 <= i < |lines|
      ensures Describes(AllDetails(recs)[i], lines[i].rel, EntryAt(tree, lines, i))
    {
      assert AllDetails(recs)[i] == DetailsOf(recs[i]);
      RecordDescribes(lines[i].rel, EntryAt(tree, lines, i));
    }
  }

  /** Restoring the index of a tree into an empty directory ends well if and only
      if the objects asked for are there.  Then what is rebuilt is the tree with
      the contents that the store has, exactly if inode numbers identify the
      files with several links. */
  lemma {:induction false} RestoreEndsWell(config: RestoreConfig, env: Env, files: Snapshot, text: Bytes, tree: Tree,
                                           opts: Options)
    requires Observed(tree) && text == IndexOf(Backup.IndexRecords(tree, opts))
    ensures AllInTree(tree, Index(tree, opts))
    ensures var (failure, fs) := Restoration(config, env, files, text, EMPTY);
            && (failure.None? <==> ObjectsAsked(files, config.repo, tree, Index(tree, opts)))
            && (failure.None? ==>
                  (Rebuilt(FoundTree(files, config.repo, tree), opts, fs, config.permissions) <==>
                   InodesIdentify(tree, opts)))
  {
    hide Index, WellFormed, Consistent, RecordOf, IndexOf, ReadAll, RestoreEntries, SetDirTimes, Rebuilt,
         InodesIdentify, DetailsOf, FoundTree, ObjectsAsked, Observed;
    assert WellFormed(tree) by { ObservedFacts(tree); }
    IndexInTree(tree, opts);
    var recs := RecordsOf(tree, Index(tree, opts));
    assert recs == Backup.IndexRecords(tree, opts);
    ReadInvertsPrint(recs);
    AllLinesTurn(config, env, files, tree, opts);
  }

  /** The loop over the lines of a tree. */
  lemma {:induction false} AllLinesTurn(config: RestoreConfig, env: Env, files: Snapshot, tree: Tree, opts: Options)
    requires Observed(tree) && AllInTree(tree, Index(tree, opts))
    ensures var r := RestoreEntries(config, env, files, State(EMPTY, [], map[], []),
                                    AllDetails(RecordsOf(tree, Index(tree, opts))));
            && (r.Turned? <==> ObjectsAsked(files, config.repo, tree, Index(tree, opts)))
            && (r.Turned? ==>
                  var (failure, fs) := SetDirTimes(r.s.fs, r.s.dirtimes);
                  failure.None? && (Rebuilt(FoundTree(files, config.repo, tree), opts, fs, config.permissions) <==>
                                    InodesIdentify(tree, opts)))
  {
    hide *;
    assert WellFormed(tree) by { ObservedFacts(tree); }
    var lines, found := Index(tree, opts), FoundTree(files, config.repo, tree);
    var entries, begin := AllDetails(RecordsOf(tree, lines)), State(EMPTY, [], map[], []);
    FoundIsReady(files, config.repo, tree, opts, config.permissions);
    EntriesDescribe(tree, lines);
    LinesTurn(config, env, files, tree, found, opts, lines, 0, begin, entries);
    var r := RestoreEntries(config, env, files, begin, entries);
    if r.Turned? {
      RebuiltWhen(found, opts, lines, r.s, config.permissions);
    }
  }

  /** All that the loop needs to know of the tree as the store has it. */
  lemma {:induction false} FoundIsReady(files: Snapshot, repo: Path, tree: Tree, opts: Options, permissions: bool)
    requires Observed(tree) && WellFormed(tree) && AllInTree(tree, Index(tree, opts))
    ensures var found, lines := FoundTree(files, repo, tree), Index(tree, opts);
            && WellFormed(found) && Consistent(found) && Index(found, opts) == lines && AllInTree(found, lines)
            && FoundAs(files, repo, tree, found)
            && (ObjectsThere(files, repo, tree, found, lines, 0) <==> ObjectsAsked(files, repo, tree, lines))
            && (InodesIdentify(found, opts) <==> InodesIdentify(tree, opts))
            && RestoredUpTo(found, lines, 0, State(EMPTY, [], map[], []), permissions)
  {
    hide *;
    FoundIsObserved(files, repo, tree);
    FoundLines(files, repo, tree, opts);
    AskedIsThere(files, repo, tree, Index(tree, opts));
    FoundIdentify(files, repo, tree, opts);
    NothingRestored(FoundTree(files, repo, tree), opts, Index(tree, opts), permissions);
  }

  lemma {:induction false} ObservedFacts(tree: Tree)
    requires Observed(tree)
    ensures WellFormed(tree) && Consistent(tree)
  {
  }

  lemma {:induction false} FoundLines(files: Snapshot, repo: Path, tree: Tree, opts: Options)
    requires WellFormed(tree) && WellFormed(FoundTree(files, repo, tree))
    ensures Index(FoundTree(files, repo, tree), opts) == Index(tree, opts)
    ensures AllInTree(FoundTree(files, repo, tree), Index(tree, opts))
  {
    hide RestoreSteps.Found, WellFormed, WalkFacts.SameShape, WalkDir, FoundTree;
    var found := FoundTree(files, repo, tree);
    FoundHasShape(files, repo, tree);
    WalkFacts.SameWalk(tree, found, opts, ROOT);
    IndexInTree(found, opts);
  }

  /** In terms of the tree, if inode numbers identify files: every selected file
      above the limit has an object at the place of its hash. */
  lemma {:induction false} AskedForEach(files: Snapshot, repo: Path, tree: Tree, opts: Options)
    requires WellFormed(tree) && Consistent(tree) && InodesIdentify(tree, opts)
    ensures AllInTree(tree, Index(tree, opts))
    ensures ObjectsAsked(files, repo, tree, Index(tree, opts)) <==>
            forall p :: SelectedBelow(tree, opts, p, ROOT) && RestoreSteps.Big(tree[p]) ==>
                          StorePath(repo, Sha1Spec.Digest(tree[p].content)) in files
  {
    hide WellFormed, Consistent, InodesIdentify, StorePath, Sha1Spec.Digest, Index, EarlierLink;
    IndexInTree(tree, opts);
    var lines := Index(tree, opts);
    if ObjectsAsked(files, repo, tree, lines) {
      forall p | SelectedBelow(tree, opts, p, ROOT) && RestoreSteps.Big(tree[p])
        ensures StorePath(repo, Sha1Spec.Digest(tree[p].content)) in files
      {
        var i := SelectedLine(tree, opts, lines, p);
        var r := Rep(tree, lines, i);
        RepFacts(tree, lines, i);
        RepIsSame(tree, opts, lines, i);
        StandsIffFirst(tree, lines, r);
      }
    }
    forall i | 0 <= i < |lines|
      ensures SelectedBelow(tree, opts, lines[i].path, ROOT)
    {
      LineSelected(tree, opts, lines, i);
    }
  }

  /** Restoring a restorable index of a tree into an empty directory always
      ends well, and rebuilds the tree exactly if inode numbers identify the
      files with several links. */
  lemma {:induction false} RestoreRebuilds(config: RestoreConfig, env: Env, files: Snapshot, text: Bytes, tree: Tree,
                                           opts: Options)
    requires Observed(tree) && NoCollision(tree, files, config.repo)
    requires text == IndexOf(Backup.IndexRecords(tree, opts)) && Repository.Restorable(files, config.repo, text)
    ensures var (failure, fs) := Restoration(config, env, files, text, EMPTY);
            failure.None? && (Rebuilt(tree, opts, fs, config.permissions) <==> InodesIdentify(tree, opts))
  {
    hide Index, WellFormed, Consistent, NoCollision, RecordOf, IndexOf, ReadAll, Restoration, Rebuilt, InodesIdentify,
         DetailsOf, FoundTree, Observed, ObjectsAsked, SelectedBelow, EntryRestorable, RestoreSteps.Found, StorePath,
         Sha1Spec.Digest, EarlierLink;
    assert WellFormed(tree) by { ObservedFacts(tree); }
    IndexInTree(tree, opts);
    var lines := Index(tree, opts);
    var recs := RecordsOf(tree, lines);
    assert recs == Backup.IndexRecords(tree, opts);
    ReadInvertsPrint(recs);
    StoredLines(tree, opts, lines, files, config.repo);
    RestoreEndsWell(config, env, files, text, tree, opts);
    RebuiltAsFound(files, config.repo, tree, opts, Restoration(config, env, files, text, EMPTY).1, config.permissions);
  }

  /** All objects of a restorable index are there, with the contents of the
      selected files. */
  lemma {:induction false} StoredLines(tree: Tree, opts: Options, lines: seq<Line>, files: Snapshot, repo: Path)
    requires WellFormed(tree) && NoCollision(tree, files, repo) && lines == Index(tree, opts) && AllInTree(tree, lines)
    requires EntriesRestorable(files, repo, AllDetails(RecordsOf(tree, lines)))
    ensures ObjectsAsked(files, repo, tree, lines)
    ensures forall p :: SelectedBelow(tree, opts, p, ROOT) ==> RestoreSteps.Found(files, repo, tree[p]) == tree[p]
  {
    hide DetailsOf, RecordOf, EntryRestorable, NoCollision, RestoreSteps.Found, Index, WellFormed, SelectedBelow,
         StorePath, Sha1Spec.Digest, EarlierLink;
    forall i | 0 <= i < |lines|
      ensures RestoreSteps.ObjectThere(files, repo, tree[lines[i].path])
      ensures RestoreSteps.Found(files, repo, tree[lines[i].path]) == tree[lines[i].path]
    {
      var recs := RecordsOf(tree, lines);
      assert AllDetails(recs)[i] == DetailsOf(recs[i]);
      assert EntryRestorable(files, repo, AllDetails(recs)[i]);
      StoredIsThere(EntryAt(tree, lines, i), lines[i].rel, files, repo, tree, lines[i].path);
    }
    forall p | SelectedBelow(tree, opts, p, ROOT)
      ensures p in tree && RestoreSteps.Found(files, repo, tree[p]) == tree[p]
    {
      var i := SelectedLine(tree, opts, lines, p);
    }
  }

  lemma {:induction false} IndexInTree(tree: Tree, opts: Options)
    requires WellFormed(tree)
    ensures AllInTree(tree, Index(tree, opts))
  {
    hide WalkDir, WellFormed;
    WalkDirInTree(tree, opts, ROOT);
  }

  lemma {:induction false} RebuiltWhen(tree: Tree, opts: Options, lines: seq<Line>, s: State, permissions: bool)
    requires WellFormed(tree) && Consistent(tree) && lines == Index(tree, opts) && AllInTree(tree, lines)
    requires RestoredUpTo(tree, lines, |lines|, s, permissions)
    ensures SetDirTimes(s.fs, s.dirtimes).0.None?
    ensures Rebuilt(tree, opts, SetDirTimes(s.fs, s.dirtimes).1, permissions) <==> InodesIdentify(tree, opts)
  {
    hide Index, WellFormed, Consistent, Rebuilt, InodesIdentify, SetDirTimes, FilesUpTo, InodesUpTo, LinksUpTo;
    StampsAreDistinct(tree, lines, s, permissions);
    DirTimesSet(s.fs, s.dirtimes);
    if InodesIdentify(tree, opts) {
      RebuiltIf(tree, opts, lines, s, permissions);
    }
    if Rebuilt(tree, opts, SetDirTimes(s.fs, s.dirtimes).1, permissions) {
      RebuiltOnlyIf(tree, opts, lines, s, permissions);
    }
  }

  /** A tree whose files all fit into the index needs no store: its index is
      restored from any repository. */
  lemma {:induction false} SmallTreeNeedsNoStore(config: RestoreConfig, env: Env, files: Snapshot, tree: Tree,
                                                 opts: Options)
    requires Observed(tree) && forall p :: p in tree ==> !RestoreSteps.Big(tree[p])
    ensures var (failure, fs) := Restoration(config, env, files, IndexOf(Backup.IndexRecords(tree, opts)), EMPTY);
            failure.None? && (Rebuilt(tree, opts, fs, config.permissions) <==> InodesIdentify(tree, opts))
  {
    hide RecordOf, DetailsOf, Describes, ReadAll, IndexOf, Restoration, WellFormed, Consistent, RestoreSteps.Fits,
         Rebuilt, InodesIdentify,
         Index;
    IndexInTree(tree, opts);
    var lines := Index(tree, opts);
    var recs := Backup.IndexRecords(tree, opts);
    assert recs == RecordsOf(tree, lines);
    forall i | 0 <= i < |recs|
      ensures EntryRestorable(files, config.repo, DetailsOf(recs[i]))
    {
      RecordDescribes(lines[i].rel, tree[lines[i].path]);
      SmallHasNoHash(DetailsOf(recs[i]), lines[i].rel, tree[lines[i].path]);
    }
    PieceIsRestorable(files, config.repo, recs, IndexOf(recs));
    RestoreRebuilds(config, env, files, IndexOf(recs), tree, opts);
  }

  lemma {:induction false} SmallHasNoHash(d: Details, rel: Bytes, e: Entry)
    requires Describes(d, rel, e) && !RestoreSteps.Big(e)
    ensures HASH_NAME !in d
  {
    hide HexOf, Sha1Spec.Digest;
  }

  /** A file and, on a filesystem mounted below, another one with the same inode
      number.  Each has a second link elsewhere. */
  function CrossedTree(meta: Meta): Tree
  {
    map["a" := Regular(meta, "one", 2, 1, 7), "m" := Directory(meta, true), "m/b" := Regular(meta, "two", 2, 2, 7)]
  }

  /** `p` is the path of `name` in `dir`. */
  ghost predicate Named(p: Path, dir: Path, name: Bytes)
  {
    ValidName(name) && p == Join(dir, name) && Parent(p) == dir && BaseName(p) == name
  }

  lemma {:induction false} CrossedNames()
    ensures Named("a", ROOT, "a") && Named("m", ROOT, "m") && Named("m/b", "m", "b")
  {
    hide Parent, BaseName;
    var a: Bytes, m: Bytes, b: Bytes := "a", "m", "b";
    assert |a| == 1 && a[0] == 'a' && |m| == 1 && m[0] == 'm' && |b| == 1 && b[0] == 'b';
    assert |".."| == 2 && "."[0] == '.';
    assert ValidName(a) && ValidName(m) && ValidName(b);
    SplitJoin(ROOT, a);
    SplitJoin(ROOT, m);
    SplitJoin(m, b);
    assert Join(m, b) == "m/b";
  }

  lemma {:induction false} CrossedPaths(meta: Meta)
    ensures WellFormed(CrossedTree(meta))
    ensures var opts := Options({}, true);
            && SelectedBelow(CrossedTree(meta), opts, "a", ROOT) && SelectedBelow(CrossedTree(meta), opts, "m", ROOT)
            && SelectedBelow(CrossedTree(meta), opts, "m/b", ROOT)
  {
    hide Parent, BaseName, Join, ValidName;
    CrossedNames();
    var tree, opts := CrossedTree(meta), Options({}, true);
    assert |"m/b"| == 3 && |"m"| == 1;
    assert SelectedBelow(tree, opts, "m", ROOT);
    assert Entered(tree, opts, "m");
  }

  /** `lstat` can show such a tree, and its restore ends well and is wrong. */
  lemma {:induction false} CrossedTreeIsNotRebuilt(config: RestoreConfig, env: Env, files: Snapshot, meta: Meta)
    requires RestoreSteps.Fits(Directory(meta, true))
    ensures var tree, opts := CrossedTree(meta), Options({}, true);
            && Observed(tree) && !InodesIdentify(tree, opts)
            && var (failure, fs) := Restoration(config, env, files, IndexOf(Backup.IndexRecords(tree, opts)), EMPTY);
               failure.None? && !Rebuilt(tree, opts, fs, config.permissions)
  {
    hide Restoration, Rebuilt, IndexOf, WellFormed, SelectedBelow;
    var tree, opts := CrossedTree(meta), Options({}, true);
    CrossedPaths(meta);
    assert |"a"| == 1 && |"m/b"| == 3;
    assert SameNumber(tree["a"], tree["m/b"]) && tree["a"].dev != tree["m/b"].dev;
    SmallTreeNeedsNoStore(config, env, files, tree, opts);
  }

  /** A restore ends well only if the index is complete ... */
  lemma {:induction false} RestoreNeedsCompleteIndex(config: RestoreConfig, env: Env, files: Snapshot, text: Bytes,
                                                     start: Fs)
    requires Restoration(config, env, files, text, start).0.None?
    ensures ReadAll(text).Complete()
  {
    hide RestoreEntries, ReadAll, SetDirTimes;
  }

  /** ... so an index that has lost its closing bracket, or more, is refused in
      the end, whatever was restored from it. */
  lemma {:induction false} CutIndexIsRefused(config: RestoreConfig, env: Env, files: Snapshot, tree: Tree,
                                             opts: Options, k: nat, start: Fs)
    requires WellFormed(tree)
    requires k < |IndexOf(Backup.IndexRecords(tree, opts))| - 1
    ensures Restoration(config, env, files, IndexOf(Backup.IndexRecords(tree, opts))[..k], start).0.Some?
  {
    hide Restoration, ReadAll, IndexOf, WellFormed;
    var recs := Backup.IndexRecords(tree, opts);
    TruncationIsDetected(recs, k);
    if Restoration(config, env, files, IndexOf(recs)[..k], start).0.None? {
      RestoreNeedsCompleteIndex(config, env, files, IndexOf(recs)[..k], start);
    }
  }

  // Over time ---------------------------------------------------------------------------------

  /** A tree that was backed up can be restored at any later time: whatever
      backups and cleanups followed, finished or cut off, as long as they were
      told to keep this index and did not overwrite it. */
  lemma {:induction false} RestoreAnyTimeLater(config: RestoreConfig, env: Env, kept: set<Path>,
                                               actions: seq<History.Action>,
                                               states: seq<Snapshot>, n: nat, p: Path, tree: Tree, opts: Options)
    requires History.Run(config.repo, kept, actions, states) && n < |states|
    requires Sound(states[0], config.repo) && Safe(states[0], config.repo, kept)
    requires p in kept && forall q :: q in kept ==> !InStore(config.repo, q)
    requires History.NeverWritten(actions, p)
    requires Observed(tree) && p in states[0] && states[0][p] == IndexOf(Backup.IndexRecords(tree, opts))
    requires NoCollision(tree, states[n], config.repo)
    ensures p in states[n]
    ensures var (failure, fs) := Restoration(config, env, states[n], states[n][p], EMPTY);
            failure.None? && (Rebuilt(tree, opts, fs, config.permissions) <==> InodesIdentify(tree, opts))
  {
    hide Observed, NoCollision, InStore, Sound, Repository.Restorable, Restoration, Rebuilt, InodesIdentify,
         History.Run,
         IndexOf;
    History.RunKeepsSafe(config.repo, kept, actions, states, n);
    RestoreRebuilds(config, env, states[n], states[n][p], tree, opts);
  }

  /** A finished backup leaves an index that is safe to keep. */
  lemma {:induction false} BackupIsSafe(config: Backup.Config, tree: Tree, before: Snapshot, after: Snapshot,
                                        kept: set<Path>)
    requires WellFormed(tree) && Extends(before, after, config.repo, Backup.Written(config))
    requires Safe(before, config.repo, kept)
    requires forall q :: q in kept ==> !InStore(config.repo, q)
    requires config.indexfile in after && after[config.indexfile] == IndexOf(Backup.IndexRecords(tree, config.opts))
    requires RecordsStored(after, config.repo, Backup.IndexRecords(tree, config.opts))
    ensures Sound(after, config.repo) && Safe(after, config.repo, kept + {config.indexfile})
  {
    hide InStore, Sound, KeepsStore, Repository.Restorable, RecordsStored, IndexOf, WellFormed, Backup.Written;
    ExtendsKeepsSafe(before, after, config.repo, Backup.Written(config), kept);
    PieceIsRestorable(after, config.repo, Backup.IndexRecords(tree, config.opts), after[config.indexfile]);
  }

  /** The whole way: back up, clean up with any list of indexes that has the new
      one, restore.  Whether or not the cleanup found its indexes usable, the
      restore ends well and rebuilds the tree exactly if inode numbers identify
      the files with several links. */
  method BackUpCleanUpRestore(config: Backup.Config, tree: Tree, listings: map<Path, seq<Name>>, scanned: Storage,
                              copied: Storage, backupfs: Storage, indexes: seq<Path>, opts: Cleanup.CleanOptions,
                              restoring: RestoreConfig, env: Env)
    returns (stopped: Option<Backup.Failure>, failure: Option<RestoreFailure>, fs: Fs)
    requires Observed(tree) && Backup.HostShows(config, tree, listings, scanned.files, copied.files)
    requires backupfs != scanned && backupfs != copied && restoring.repo == config.repo
    requires Sound(backupfs.files, config.repo) && !InStore(config.repo, config.indexfile)
    requires Treelike(backupfs.files) && LeavesRoom(backupfs.files, config.repo, Backup.Written(config))
    requires config.indexfile in indexes
    modifies backupfs
    ensures Backup.BackupAllowed(config, old(backupfs.files)) ==>
              Backup.Undisturbed(config.root, tree, copied.files) ==> stopped.None?
    ensures stopped.None? && NoCollision(tree, backupfs.files, config.repo) ==>
              failure.None? && (Rebuilt(tree, config.opts, fs, restoring.permissions) <==>
                                InodesIdentify(tree, config.opts))
    ensures Treelike(backupfs.files)
  {
    hide Consistent, WellFormed, Backup.HostShows, Backup.Undisturbed, NoCollision, Rebuilt, InodesIdentify,
         Restoration, Treelike, LeavesRoom, Sound, InStore, IndexOf, RecordsStored, Extends, Backup.Written,
         Backup.AllExtend, RestoreSteps.Fits, History.Outcome;
    failure, fs := None, EMPTY;
    ghost var before := backupfs.files;
    stopped := Backup.DoBackup(config, tree, listings, scanned, copied, backupfs);
    Backup.BackupStaysTreelike(config, before, backupfs.files);
    if stopped.Some? {
      return;
    }
    ghost var backedUp, kept := backupfs.files, {config.indexfile};
    assert Safe(backedUp, config.repo, kept) && Sound(backedUp, config.repo) by {
      NewIndexIsSafe(config, tree, before, backedUp);
    }
    var _, _, _ := History.CleanUp(backupfs, config.repo, indexes, opts, kept);
    IndexSurvives(config, indexes, backedUp, backupfs.files);
    failure, fs := DoRestore(restoring, env, backupfs, config.indexfile, EMPTY);
    if NoCollision(tree, backupfs.files, config.repo) {
      RestoreRebuilds(restoring, env, backupfs.files, backupfs.files[config.indexfile], tree, config.opts);
    }
  }

  lemma {:induction false} NewIndexIsSafe(config: Backup.Config, tree: Tree, before: Snapshot, after: Snapshot)
    requires WellFormed(tree) && Extends(before, after, config.repo, Backup.Written(config))
    requires config.indexfile in after && after[config.indexfile] == IndexOf(Backup.IndexRecords(tree, config.opts))
    requires RecordsStored(after, config.repo, Backup.IndexRecords(tree, config.opts))
    ensures Sound(after, config.repo) && Safe(after, config.repo, {config.indexfile})
  {
    hide InStore, Sound, Repository.Restorable, RecordsStored, IndexOf, WellFormed, Backup.Written;
    BackupIsSafe(config, tree, before, after, {});
    assert {} + {config.indexfile} == {config.indexfile};
  }

  /** A cleanup that is given an index leaves it, and leaves it restorable. */
  lemma {:induction false} IndexSurvives(config: Backup.Config, indexes: seq<Path>, before: Snapshot, after: Snapshot)
    requires History.Outcome(config.repo, {config.indexfile}, History.Cleaning(indexes), before, after)
    requires Sound(before, config.repo) && Safe(before, config.repo, {config.indexfile})
    requires !InStore(config.repo, config.indexfile) && config.indexfile in before
    ensures config.indexfile in after && after[config.indexfile] == before[config.indexfile]
    ensures Repository.Restorable(after, config.repo, after[config.indexfile])
  {
    hide Sound, InStore, Cleanup.Needed, Stored, ReadAll, EntriesRestorable;
    History.OutcomeKeepsSafe(config.repo, {config.indexfile}, History.Cleaning(indexes), before, after);
  }
}
