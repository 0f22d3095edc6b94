/** The cleanup (cleanup.cc): it reads every live index, and then removes from
    the store what none of them needs. */
module Cleanup {
  import opened Bytes
  import opened UrlCodec
  import opened IndexLine
  import opened IndexText
  import opened Names
  import opened Records
  import opened BufferedFile
  import opened Repository
  import opened HashSet
  import HashFile

  /** `stuck` are the files that cannot be removed. */
  datatype CleanOptions = CleanOptions(detectBogus: bool, deleteClean: bool, stuck: set<Path>)

  // What is to go ----------------------------------------------------------------------

  /** A file is kept if its name is a needed hash and, if that is looked at,
      its content has that hash. */
  ghost predicate Keep(files: Snapshot, p: Path, needed: set<Digest>, opts: CleanOptions)
    requires p in files
  {
    var h := HashOfHex(BaseName(p));
    h.Ok? && h.value in needed && (opts.detectBogus ==> HashFile.Hashed(files[p]) == Ok(h.value))
  }

  ghost function Doomed(files: Snapshot, dir: Path, needed: set<Digest>, opts: CleanOptions): set<Path>
  {
    set p | p in files && Under(dir, p) && !Keep(files, p, needed, opts)
  }

  /** What of the doomed really goes. */
  ghost function Gone(doomed: set<Path>, opts: CleanOptions): set<Path>
  {
    if opts.deleteClean then doomed - opts.stuck else {}
  }

  // Listing a directory -----------------------------------------------------------------

  /** The entry of `dir` that leads to a file below it. */
  function Component(dir: Path, p: Path): Name
    requires Under(dir, p)
  {
    var rest := p[|dir| + 1..];
    var n := Find(rest, '/', 0);
    if n.None? then rest else rest[..n.value]
  }

  /** A file below `dir` is its entry, or below that. */
  lemma {:induction false} ComponentSplits(dir: Path, p: Path, n: Name)
    requires Under(dir, p)
    ensures Component(dir, p) == n && '/' !in n <==> (p == dir + "/" + n || Under(dir + "/" + n, p)) && '/' !in n
    ensures '/' !in Component(dir, p)
  {
    var rest := p[|dir| + 1..];
    assert p == dir + "/" + rest;
    FindFirst(rest, '/', 0);
    var at := Find(rest, '/', 0);
    if at.Some? {
      assert rest == rest[..at.value] + "/" + rest[at.value + 1..];
    }
    if p == dir + "/" + n {
      assert rest == n;
    }
    if Under(dir + "/" + n, p) && '/' !in n {
      assert rest == n + "/" + rest[|n| + 1..];
      FindAfter(n, '/', rest[|n| + 1..]);
    }
  }

  method Contents(fs: Storage, path: Path) returns (names: seq<Name>)
    ensures forall i, j :: 0 <= i < j < |names| ==> names[i] != names[j]
    ensures forall p :: p in fs.files && Under(path, p) ==> Component(path, p) in names
    ensures forall n :: n in names ==> exists p :: p in fs.files && Under(path, p) && Component(path, p) == n
  {
    hide Component, Under;
    names := [];
    var rest := fs.files.Keys;
    while rest != {}
      invariant rest <= fs.files.Keys
      invariant forall i, j :: 0 <= i < j < |names| ==> names[i] != names[j]
      invariant forall p :: p in fs.files && p !in rest && Under(path, p) ==> Component(path, p) in names
      invariant forall n :: n in names ==> exists p :: p in fs.files && Under(path, p) && Component(path, p) == n
      decreases rest
    {
      var p :| p in rest;
      rest := rest - {p};
      if Under(path, p) && Component(path, p) !in names {
        names := names + [Component(path, p)];
      }
    }
  }

  // Cleaning -----------------------------------------------------------------------------

  /** Is this file to be kept? */
  method Kept(fs: Storage, needed: Table, name: Name, fullname: Path, opts: CleanOptions) returns (keep: bool)
    requires needed.Valid() && fullname in fs.files && name == BaseName(fullname)
    ensures keep <==> Keep(fs.files, fullname, needed.Contents(), opts)
  {
    hide HashFile.Hashed, Table.Valid, Table.Contents;
    var h := HashDecode(name);
    if h.Err? {
      return false;
    }
    keep := needed.Has(h.value);
    if opts.detectBogus {
      var actual := HashFile.HashWholeFile(fs, fullname, false);
      if actual.Err? || actual.value != h.value {
        keep := false;
      }
    }
  }

  /** The states after `t0` have lost some of the doomed files, and nothing
      else. */
  ghost predicate Shrinking(t0: seq<Snapshot>, t1: seq<Snapshot>, base: Snapshot, gone: set<Path>)
  {
    t0 <= t1 && forall k :: |t0| <= k < |t1| ==> exists lost :: lost <= gone && t1[k] == base - lost
  }

  /** What is doomed below the entry `name` of `dir`. */
  ghost function DoomedIn(files: Snapshot, dir: Path, name: Name, needed: set<Digest>, opts: CleanOptions): set<Path>
  {
    set p | p in Doomed(files, dir, needed, opts) && Component(dir, p) == name
  }

  ghost function DoomedInAny(files: Snapshot, dir: Path, names: seq<Name>, needed: set<Digest>,
                             opts: CleanOptions): set<Path>
  {
    set p | p in Doomed(files, dir, needed, opts) && Component(dir, p) in names
  }

  /** No name below `dir` is longer than that. */
  ghost predicate Reaches(files: Snapshot, dir: Path, room: nat)
  {
    forall p :: p in files && Under(dir, p) ==> |p| <= |dir| + room
  }

  /** Removing may fail, which is only reported. */
  method TryRemove(fs: Storage, p: Path, opts: CleanOptions)
    requires p in fs.files
    modifies fs
    ensures fs.files == old(fs.files) - ({p} - opts.stuck)
    ensures fs.trace == old(fs.trace) || fs.trace == old(fs.trace) + [fs.files]
  {
    if p in opts.stuck {
      return;
    }
    fs.Remove(p);
  }

  /** A regular file of the store. */
  method CleanFile(fs: Storage, needed: Table, dir: Path, name: Name, opts: CleanOptions)
    returns (deleted: nat, printed: seq<Path>)
    requires needed.Valid() && Treelike(fs.files) && '/' !in name && dir + "/" + name in fs.files
    modifies fs
    ensures var doomed := DoomedIn(old(fs.files), dir, name, needed.Contents(), opts);
            && fs.files == old(fs.files) - Gone(doomed, opts) && deleted == |doomed|
            && (forall p :: p in printed <==> p in doomed && !opts.deleteClean)
            && Shrinking(old(fs.trace), fs.trace, old(fs.files), Gone(doomed, opts))
  {
    hide HashFile.Hashed, Table.Valid, Table.Contents, Treelike, Under, Component;
    ghost var files := fs.files;
    var fullname := dir + "/" + name;
    OnlyFile(files, dir, name, needed.Contents(), opts);
    deleted, printed := 0, [];
    assert BaseName(fullname) == name by { RFindBefore(dir, '/', name); }
    var keep := Kept(fs, needed, name, fullname, opts);
    if !keep {
      if opts.deleteClean {
        TryRemove(fs, fullname, opts);
      } else {
        printed := [fullname];
      }
      deleted := 1;
    }
  }

  lemma {:induction false} OnlyFile(files: Snapshot, dir: Path, name: Name, needed: set<Digest>, opts: CleanOptions)
    requires Treelike(files) && '/' !in name && dir + "/" + name in files
    ensures DoomedIn(files, dir, name, needed, opts) ==
            if Keep(files, dir + "/" + name, needed, opts) then {} else {dir + "/" + name}
  {
    hide Keep, Component;
    var fullname := dir + "/" + name;
    assert Under(dir, fullname);
    ComponentSplits(dir, fullname, name);
    forall p | p in DoomedIn(files, dir, name, needed, opts)
      ensures p == fullname
    {
      ComponentSplits(dir, p, name);
    }
  }

  lemma {:induction false} OnlyBelow(files: Snapshot, dir: Path, name: Name, needed: set<Digest>, opts: CleanOptions)
    requires '/' !in name && dir + "/" + name !in files
    ensures DoomedIn(files, dir, name, needed, opts) == Doomed(files, dir + "/" + name, needed, opts)
  {
    hide Keep, Component;
    var fullname := dir + "/" + name;
    forall p | p in files
      ensures Under(dir, p) && Component(dir, p) == name <==> Under(fullname, p)
    {
      if Under(fullname, p) {
        assert Under(dir, p);
      }
      if Under(dir, p) {
        ComponentSplits(dir, p, name);
      }
    }
  }

  lemma {:induction false} ShrinkingOn(t0: seq<Snapshot>, t1: seq<Snapshot>, t2: seq<Snapshot>, base: Snapshot,
                                       mid: Snapshot, a: set<Path>, b: set<Path>)
    requires Shrinking(t0, t1, base, a) && mid == base - a && Shrinking(t1, t2, mid, b)
    ensures Shrinking(t0, t2, base, a + b)
  {
    forall k | |t0| <= k < |t2|
      ensures exists lost :: lost <= a + b && t2[k] == base - lost
    {
      if k < |t1| {
        var lost :| lost <= a && t1[k] == base - lost;
        assert lost <= a + b && t2[k] == base - lost;
      } else {
        var lost :| lost <= b && t2[k] == mid - lost;
        assert a + lost <= a + b && t2[k] == base - (a + lost);
      }
    }
  }

  /** The other entries do not disturb an entry. */
  lemma {:induction false} EntryUntouched(files: Snapshot, now: Snapshot, dir: Path, names: seq<Name>, k: nat,
                                          needed: set<Digest>, opts: CleanOptions)
    requires k < |names| && forall i, j :: 0 <= i < j < |names| ==> names[i] != names[j]
    requires now == files - Gone(DoomedInAny(files, dir, names[..k], needed, opts), opts)
    ensures DoomedIn(now, dir, names[k], needed, opts) == DoomedIn(files, dir, names[k], needed, opts)
    ensures Treelike(files) ==> Treelike(now)
    ensures forall p :: p in files && Under(dir, p) && Component(dir, p) == names[k] ==> p in now
  {
    hide Component, Under, HashFile.Hashed, HashOfHex;
    assert names[k] !in names[..k];
  }

  lemma {:induction false} NextEntry(files: Snapshot, dir: Path, names: seq<Name>, k: nat, needed: set<Digest>,
                                     opts: CleanOptions)
    requires k < |names| && forall i, j :: 0 <= i < j < |names| ==> names[i] != names[j]
    ensures var done := DoomedInAny(files, dir, names[..k], needed, opts);
            var one := DoomedIn(files, dir, names[k], needed, opts);
            && DoomedInAny(files, dir, names[..k + 1], needed, opts) == done + one && |done + one| == |done| + |one|
            && Gone(done + one, opts) == Gone(done, opts) + Gone(one, opts)
  {
    hide Doomed, Component, Under;
    assert names[..k + 1] == names[..k] + [names[k]];
    assert names[k] !in names[..k];
    var done, one := DoomedInAny(files, dir, names[..k], needed, opts), DoomedIn(files, dir, names[k], needed, opts);
    assert done * one == {};
  }

  /** A directory has files below it, and these are no longer than before. */
  lemma {:induction false} SubdirReaches(files: Snapshot, now: Snapshot, dir: Path, name: Name, room: nat, p: Path)
    requires Reaches(files, dir, room) && now.Keys <= files.Keys && '/' !in name
    requires p in now && Under(dir, p) && Component(dir, p) == name && dir + "/" + name !in now
    ensures room > 0 && Reaches(now, dir + "/" + name, room - 1)
  {
    hide Component;
    ComponentSplits(dir, p, name);
    forall q | q in now && Under(dir + "/" + name, q)
      ensures |q| <= |dir + "/" + name| + (room - 1)
    {
      assert Under(dir, q);
    }
  }

  lemma {:induction false} MapMinus(m: Snapshot, a: set<Path>, b: set<Path>)
    ensures m - a - b == m - (a + b)
  {
  }

  /** One entry of a directory: a file, or a directory to go through. */
  method CleanEntry(fs: Storage, needed: Table, dir: Path, name: Name, opts: CleanOptions, ghost room: nat)
    returns (deleted: nat, printed: seq<Path>)
    requires needed.Valid() && Treelike(fs.files) && Reaches(fs.files, dir, room) && '/' !in name
    requires exists p :: p in fs.files && Under(dir, p) && Component(dir, p) == name
    modifies fs
    ensures var doomed := DoomedIn(old(fs.files), dir, name, needed.Contents(), opts);
            && fs.files == old(fs.files) - Gone(doomed, opts) && deleted == |doomed|
            && (forall p :: p in printed <==> p in doomed && !opts.deleteClean)
            && Shrinking(old(fs.trace), fs.trace, old(fs.files), Gone(doomed, opts))
    decreases room, 0
  {
    hide HashFile.Hashed, Table.Valid, Table.Contents, Treelike, Under, Component, Doomed, DoomedIn, Gone, Shrinking,
         Reaches;
    var fullname := dir + "/" + name;
    if fullname in fs.files {
      deleted, printed := CleanFile(fs, needed, dir, name, opts);
    } else {
      ghost var p :| p in fs.files && Under(dir, p) && Component(dir, p) == name;
      SubdirReaches(fs.files, fs.files, dir, name, room, p);
      OnlyBelow(fs.files, dir, name, needed.Contents(), opts);
      deleted, printed := CleanRecurse(fs, needed, fullname, opts, room - 1);
    }
  }

  /** Everything below `dir` that is not to be kept. */
  method CleanRecurse(fs: Storage, needed: Table, dir: Path, opts: CleanOptions, ghost room: nat)
    returns (deleted: nat, printed: seq<Path>)
    requires needed.Valid() && Treelike(fs.files) && Reaches(fs.files, dir, room)
    modifies fs
    ensures var doomed := Doomed(old(fs.files), dir, needed.Contents(), opts);
            && fs.files == old(fs.files) - Gone(doomed, opts) && deleted == |doomed|
            && (forall p :: p in printed <==> p in doomed && !opts.deleteClean)
            && Shrinking(old(fs.trace), fs.trace, old(fs.files), Gone(doomed, opts))
    decreases room, 1
  {
    hide HashFile.Hashed, Table.Valid, Table.Contents, Treelike, Under, Component, Doomed, DoomedIn, DoomedInAny,
         Gone, Shrinking, Reaches;
    ghost var files, t0, keys := fs.files, fs.trace, needed.Contents();
    var names := Contents(fs, dir);
    deleted, printed := 0, [];
    NothingYet(files, t0, dir, names, keys, opts);
    for k := 0 to |names|
      invariant needed.Valid() && needed.Contents() == keys
      invariant fs.files == files - Gone(DoomedInAny(files, dir, names[..k], keys, opts), opts)
      invariant deleted == |DoomedInAny(files, dir, names[..k], keys, opts)|
      invariant forall p :: p in printed <==> p in DoomedInAny(files, dir, names[..k], keys, opts) && !opts.deleteClean
      invariant Shrinking(t0, fs.trace, files, Gone(DoomedInAny(files, dir, names[..k], keys, opts), opts))
    {
      ghost var now, t1 := fs.files, fs.trace;
      ghost var done := DoomedInAny(files, dir, names[..k], keys, opts);
      ghost var one := DoomedIn(files, dir, names[k], keys, opts);
      EntryUntouched(files, now, dir, names, k, keys, opts);
      NextEntry(files, dir, names, k, keys, opts);
      StillReaches(files, now, dir, room);
      NameOfEntry(files, dir, names, k);
      var n, more := CleanEntry(fs, needed, dir, names[k], opts, room);
      deleted := deleted + n;
      printed := printed + more;
      MapMinus(files, Gone(done, opts), Gone(one, opts));
      ShrinkingOn(t0, t1, fs.trace, files, now, Gone(done, opts), Gone(one, opts));
    }
    AllDone(files, dir, names, keys, opts);
  }

  lemma {:induction false} StillReaches(files: Snapshot, now: Snapshot, dir: Path, room: nat)
    requires Reaches(files, dir, room) && now.Keys <= files.Keys
    ensures Reaches(now, dir, room)
  {
  }

  lemma {:induction false} NameOfEntry(files: Snapshot, dir: Path, names: seq<Name>, k: nat)
    requires k < |names| && forall n :: n in names ==> exists p :: p in files && Under(dir, p) && Component(dir, p) == n
    ensures exists p :: p in files && Under(dir, p) && Component(dir, p) == names[k]
    ensures '/' !in names[k]
  {
    hide Component, Under;
    assert names[k] in names;
    var p :| p in files && Under(dir, p) && Component(dir, p) == names[k];
    ComponentSplits(dir, p, names[k]);
  }

  lemma {:induction false} NothingYet(files: Snapshot, t: seq<Snapshot>, dir: Path, names: seq<Name>,
                                      needed: set<Digest>, opts: CleanOptions)
    ensures DoomedInAny(files, dir, names[..0], needed, opts) == {} && Gone({}, opts) == {} && files - {} == files
    ensures Shrinking(t, t, files, {})
  {
  }

  lemma {:induction false} AllDone(files: Snapshot, dir: Path, names: seq<Name>, needed: set<Digest>,
                                   opts: CleanOptions)
    requires forall p :: p in files && Under(dir, p) ==> Component(dir, p) in names
    ensures DoomedInAny(files, dir, names[..|names|], needed, opts) == Doomed(files, dir, needed, opts)
  {
    hide Component, Under, Keep;
    assert names[..|names|] == names;
  }

  // The needed hashes -------------------------------------------------------------------

  ghost predicate AllDecode(entries: seq<Details>)
  {
    forall i :: 0 <= i < |entries| && HASH_NAME in entries[i] ==> HashOfHex(entries[i][HASH_NAME]).Ok?
  }

  ghost function HashesOf(entries: seq<Details>): set<Digest>
  {
    set i | 0 <= i < |entries| && HASH_NAME in entries[i] && HashOfHex(entries[i][HASH_NAME]).Ok? ::
      HashOfHex(entries[i][HASH_NAME]).value
  }

  /** An index that a cleanup can use. */
  ghost predicate Usable(text: Bytes) { ReadAll(text).Complete() && AllDecode(ReadAll(text).entries) }

  lemma {:induction false} DecodeConcat(a: seq<Details>, b: seq<Details>)
    ensures AllDecode(a + b) <==> AllDecode(a) && AllDecode(b)
    ensures HashesOf(a + b) == HashesOf(a) + HashesOf(b)
  {
    hide HashOfHex;
    var s := a + b;
    assert forall i :: 0 <= i < |a| ==> s[i] == a[i];
    assert forall i :: 0 <= i < |b| ==> s[|a| + i] == b[i];
    if AllDecode(s) {
      forall i | 0 <= i < |b| && HASH_NAME in b[i]
        ensures HashOfHex(b[i][HASH_NAME]).Ok?
      {
        assert s[|a| + i] == b[i];
      }
    }
    forall h | h in HashesOf(b)
      ensures h in HashesOf(s)
    {
      var i :| 0 <= i < |b| && HASH_NAME in b[i] && HashOfHex(b[i][HASH_NAME]) == Ok(h);
      assert s[|a| + i] == b[i];
    }
  }

  /** One entry of an index. */
  method NoteHash(details: Details, needed: Table) returns (bad: bool)
    requires needed.Valid()
    modifies needed, needed.nodes
    ensures needed.Valid() && fresh(needed.members - old(needed.members))
    ensures bad <==> !AllDecode([details])
    ensures !bad ==> needed.Contents() == old(needed.Contents()) + HashesOf([details])
  {
    hide HashOfHex, Table.Valid, Table.Contents;
    assert [details][0] == details;
    if HASH_NAME in details {
      var h := HashDecode(details[HASH_NAME]);
      if h.Err? {
        return true;
      }
      needed.Insert(h.value);
      assert HashesOf([details]) == {h.value};
      return false;
    }
    assert HashesOf([details]) == {};
    return false;
  }

  /** Reads one index and notes its hashes; an index that is cut off or
      malformed, or has a malformed hash, is bad. */
  method ReadHashes(fs: Storage, path: Path, needed: Table) returns (bad: bool)
    requires path in fs.files && needed.Valid()
    modifies needed, needed.nodes
    ensures needed.Valid() && fresh(needed.members - old(needed.members))
    ensures bad <==> !Usable(fs.files[path])
    ensures !bad ==> needed.Contents() == old(needed.Contents()) + HashesOf(ReadAll(fs.files[path]).entries)
  {
    hide File.Rest, File.Valid, ReadAll, Parsed, NextLine, Table.Valid, Table.Contents, AllDecode, HashesOf;
    ghost var text := fs.files[path];
    var f := new File(fs, path);
    ghost var done: seq<Details> := [];
    NoEntries(ReadAll(text).entries);
    while true
      modifies f, f.buffer, needed, needed.nodes
      invariant f.Valid() && f.mode != Writing && f.Truthful() && f.fs == fs && f.path == path
      invariant needed.Valid() && fresh(needed.members - old(needed.members))
      invariant AllDecode(done) && needed.Contents() == old(needed.Contents()) + HashesOf(done)
      invariant ReadAll(text) == ReadResult(done + ReadAll(f.Rest()).entries, ReadAll(f.Rest()).error)
      decreases |f.Rest()|
    {
      ghost var before := f.Rest();
      ReadStep(before);
      var got, line := f.GetLine();
      if !got {
        return true;
      }
      if line == END_MARK {
        assert done + [] == done;
        return false;
      }
      var details := ParseIndexLine(line);
      if details.Err? {
        return true;
      }
      EntryDecodes(done, details.value, ReadAll(f.Rest()).entries);
      var malformed := NoteHash(details.value, needed);
      if malformed {
        return true;
      }
      done := done + [details.value];
    }
  }

  lemma {:induction false} EntryDecodes(done: seq<Details>, d: Details, more: seq<Details>)
    ensures AllDecode(done + ([d] + more)) ==> AllDecode([d])
    ensures AllDecode(done + [d]) <==> AllDecode(done) && AllDecode([d])
    ensures HashesOf(done + [d]) == HashesOf(done) + HashesOf([d])
    ensures done + ([d] + more) == done + [d] + more
  {
    hide AllDecode, HashesOf;
    DecodeConcat(done, [d]);
    DecodeConcat(done + [d], more);
    assert done + ([d] + more) == done + [d] + more;
  }

  lemma {:induction false} NoEntries(entries: seq<Details>)
    ensures AllDecode([]) && HashesOf([]) == {} && [] + entries == entries
  {
  }

  // The whole cleanup --------------------------------------------------------------------

  datatype CleanFailure = NoIndexes | NoSuchIndex(path: Path) | BadInputs(badfiles: seq<Path>)

  /** The hashes that the listed indexes refer to. */
  ghost function Needed(files: Snapshot, indexes: seq<Path>): set<Digest>
  {
    if indexes == [] then {}
    else
      var last := indexes[|indexes| - 1];
      Needed(files, indexes[..|indexes| - 1])
      + if last in files then HashesOf(ReadAll(files[last]).entries) else {}
  }

  ghost predicate AllUsable(files: Snapshot, indexes: seq<Path>)
  {
    forall n :: 0 <= n < |indexes| ==> indexes[n] in files && Usable(files[indexes[n]])
  }

  method ReadIndexes(fs: Storage, indexes: seq<Path>, needed: Table) returns (failure: Option<CleanFailure>)
    requires needed.Valid() && needed.Contents() == {}
    modifies needed, needed.nodes
    ensures needed.Valid()
    ensures failure.None? <==> AllUsable(fs.files, indexes)
    ensures failure.None? ==> needed.Contents() == Needed(fs.files, indexes)
    ensures failure.Some? && failure.value.BadInputs? ==>
              forall p :: p in failure.value.badfiles <==> p in indexes && p in fs.files && !Usable(fs.files[p])
    ensures failure.Some? && failure.value.NoSuchIndex? ==>
              failure.value.path in indexes && failure.value.path !in fs.files
    ensures failure != Some(NoIndexes)
  {
    hide Usable, HashesOf, Table.Valid, Table.Contents;
    var badfiles: seq<Path> := [];
    for n := 0 to |indexes|
      modifies needed, needed.nodes
      invariant needed.Valid() && fresh(needed.members - old(needed.members))
      invariant forall k :: 0 <= k < n ==> indexes[k] in fs.files
      invariant forall p :: p in badfiles <==> p in indexes[..n] && !Usable(fs.files[p])
      invariant badfiles == [] ==> needed.Contents() == Needed(fs.files, indexes[..n])
    {
      assert indexes[..n + 1] == indexes[..n] + [indexes[n]] && indexes[..n + 1][..n] == indexes[..n];
      assert forall p :: p in indexes[..n] ==> p in fs.files;
      if indexes[n] !in fs.files {
        return Some(NoSuchIndex(indexes[n]));
      }
      var bad := ReadHashes(fs, indexes[n], needed);
      if bad {
        badfiles := badfiles + [indexes[n]];
      }
    }
    assert indexes[..|indexes|] == indexes;
    if badfiles != [] {
      assert badfiles[0] in badfiles;
      return Some(BadInputs(badfiles));
    }
    return None;
  }

  ghost function Longest(paths: set<Path>): (n: nat)
    ensures forall p :: p in paths ==> |p| <= n
  {
    if paths == {} then 0
    else
      var p :| p in paths;
      var n := Longest(paths - {p});
      if |p| > n then |p| else n
  }

  lemma {:induction false} LongestReaches(files: Snapshot, dir: Path)
    ensures Reaches(files, dir, Longest(files.Keys))
  {
  }

  /** The index has an entry with that hash. */
  ghost predicate Mentions(text: Bytes, h: Digest)
  {
    exists d :: d in ReadAll(text).entries && HASH_NAME in d && HashOfHex(d[HASH_NAME]) == Ok(h)
  }

  ghost predicate SomeMentions(files: Snapshot, indexes: seq<Path>, h: Digest)
  {
    exists p :: p in indexes && p in files && Mentions(files[p], h)
  }

  /** The name is a hash that some listed index has, and the content, if that is
      looked at, has it too. */
  ghost predicate Wanted(files: Snapshot, indexes: seq<Path>, p: Path, detectBogus: bool)
    requires p in files
  {
    exists h: Digest :: && HashOfHex(BaseName(p)) == Ok(h)
                        && SomeMentions(files, indexes, h)
                        && (detectBogus ==> HashFile.Hashed(files[p]) == Ok(h))
  }

  ghost function Unwanted(files: Snapshot, repo: Path, indexes: seq<Path>, detectBogus: bool): set<Path>
  {
    set p | p in files && Under(StoreRoot(repo), p) && !Wanted(files, indexes, p, detectBogus)
  }

  lemma {:induction false} HashesAreMentioned(text: Bytes, h: Digest)
    ensures h in HashesOf(ReadAll(text).entries) <==> Mentions(text, h)
  {
    hide ReadAll, HashOfHex;
    var entries := ReadAll(text).entries;
    if Mentions(text, h) {
      var d :| d in entries && HASH_NAME in d && HashOfHex(d[HASH_NAME]) == Ok(h);
      var i :| 0 <= i < |entries| && entries[i] == d;
    }
  }

  lemma {:induction false} NeededIsMentioned(files: Snapshot, indexes: seq<Path>, h: Digest)
    ensures h in Needed(files, indexes) <==> SomeMentions(files, indexes, h)
  {
    hide HashesOf, Mentions, ReadAll;
    if indexes != [] {
      var front, last := indexes[..|indexes| - 1], indexes[|indexes| - 1];
      assert indexes == front + [last];
      NeededIsMentioned(files, front, h);
      if last in files {
        HashesAreMentioned(files[last], h);
      }
      assert SomeMentions(files, indexes, h) <==>
             SomeMentions(files, front, h) || (last in files && Mentions(files[last], h));
    }
  }

  lemma {:induction false} KeepIsWanted(files: Snapshot, indexes: seq<Path>, p: Path, opts: CleanOptions)
    requires p in files
    ensures Keep(files, p, Needed(files, indexes), opts) <==> Wanted(files, indexes, p, opts.detectBogus)
  {
    hide HashOfHex, HashFile.Hashed, Needed, SomeMentions, BaseName;
    var r := HashOfHex(BaseName(p));
    if r.Ok? {
      NeededIsMentioned(files, indexes, r.value);
    }
  }

  lemma {:induction false} UsableIsWellFormed(text: Bytes)
    ensures Usable(text) <==>
            && ReadAll(text).Complete()
            && forall d :: d in ReadAll(text).entries && HASH_NAME in d ==> HashOfHex(d[HASH_NAME]).Ok?
  {
    hide ReadAll, HashOfHex;
    var entries := ReadAll(text).entries;
    if !Usable(text) && ReadAll(text).Complete() {
      var i :| 0 <= i < |entries| && HASH_NAME in entries[i] && HashOfHex(entries[i][HASH_NAME]).Err?;
      assert entries[i] in entries;
    }
  }

  lemma {:induction false} DoomedIsUnwanted(files: Snapshot, indexes: seq<Path>, repo: Path, opts: CleanOptions)
    ensures forall p :: p in Doomed(files, StoreRoot(repo), Needed(files, indexes), opts) <==>
                          && p in files && Under(StoreRoot(repo), p)
                          && !Wanted(files, indexes, p, opts.detectBogus)
  {
    hide Keep, Wanted, Needed, Under;
    forall p | p in files
      ensures Keep(files, p, Needed(files, indexes), opts) <==> Wanted(files, indexes, p, opts.detectBogus)
    {
      KeepIsWanted(files, indexes, p, opts);
    }
  }

  method DoClean(fs: Storage, repo: Path, indexes: seq<Path>, opts: CleanOptions)
    returns (failure: Option<CleanFailure>, deleted: nat, printed: seq<Path>)
    requires Treelike(fs.files)
    modifies fs
    ensures Treelike(fs.files)
    // nothing is deleted unless every listed index is there, complete and well formed
    ensures failure.None? <==> indexes != [] && AllUsable(old(fs.files), indexes)
    ensures failure.None? <==>
              indexes != [] && forall p :: p in indexes ==>
                                             && p in old(fs.files) && var read := ReadAll(old(fs.files)[p]);
                                             && read.Complete()
                                             && forall d :: d in read.entries && HASH_NAME in d ==>
                                                              HashOfHex(d[HASH_NAME]).Ok?
    ensures indexes == [] <==> failure == Some(NoIndexes)
    ensures failure.Some? ==> fs.files == old(fs.files) && fs.trace == old(fs.trace)
    ensures failure.Some? && failure.value.BadInputs? ==>
              forall p :: p in failure.value.badfiles <==>
                            p in indexes && p in old(fs.files) && !Usable(old(fs.files)[p])
    // and then exactly the doomed files go
    ensures failure.None? ==>
              var doomed := Doomed(old(fs.files), StoreRoot(repo), Needed(old(fs.files), indexes), opts);
              && fs.files == old(fs.files) - Gone(doomed, opts) && deleted == |doomed|
              && (forall p :: p in printed <==> p in doomed && !opts.deleteClean)
              && Shrinking(old(fs.trace), fs.trace, old(fs.files), Gone(doomed, opts))
    ensures failure.None? ==> deleted == |Unwanted(old(fs.files), repo, indexes, opts.detectBogus)|
    // that is, all in the store but what some listed index refers to
    ensures failure.None? && opts.deleteClean ==>
              forall p :: p in fs.files <==>
                            && p in old(fs.files)
                            && (Under(StoreRoot(repo), p) ==>
                                  p in opts.stuck || Wanted(old(fs.files), indexes, p, opts.detectBogus))
    ensures failure.None? && !opts.deleteClean ==>
              && fs.files == old(fs.files)
              && forall p :: p in printed <==>
                               && p in old(fs.files) && Under(StoreRoot(repo), p)
                               && !Wanted(old(fs.files), indexes, p, opts.detectBogus)
  {
    hide Usable, Doomed, Gone, Shrinking, Treelike, Table.Valid, Table.Contents, Needed, AllUsable, Reaches, Wanted,
         Unwanted, ReadAll, HashOfHex, Under;
    WhichUsable(fs.files, indexes);
    deleted, printed := 0, [];
    if indexes == [] {
      return Some(NoIndexes), deleted, printed;
    }
    var needed := new Table();
    failure := ReadIndexes(fs, indexes, needed);
    if failure.None? {
      ghost var room := Longest(fs.files.Keys);
      assert Reaches(fs.files, StoreRoot(repo), room) by { LongestReaches(fs.files, StoreRoot(repo)); }
      ghost var files := fs.files;
      deleted, printed := CleanRecurse(fs, needed, StoreRoot(repo), opts, room);
      FewerStayTreelike(files, fs.files);
      UnwantedIsDoomed(files, indexes, repo, opts);
      OnlyWantedStays(files, indexes, repo, opts);
    }
  }

  lemma {:induction false} UnwantedIsDoomed(files: Snapshot, indexes: seq<Path>, repo: Path, opts: CleanOptions)
    ensures Doomed(files, StoreRoot(repo), Needed(files, indexes), opts) ==
            Unwanted(files, repo, indexes, opts.detectBogus)
  {
    hide Doomed, Needed, Wanted, Under;
    DoomedIsUnwanted(files, indexes, repo, opts);
  }

  /** What is there when the doomed files are gone. */
  lemma {:induction false} OnlyWantedStays(files: Snapshot, indexes: seq<Path>, repo: Path, opts: CleanOptions)
    ensures var unwanted := Unwanted(files, repo, indexes, opts.detectBogus);
            && (forall p :: p in unwanted <==> && p in files && Under(StoreRoot(repo), p)
                                               && !Wanted(files, indexes, p, opts.detectBogus))
            && (!opts.deleteClean ==> files - Gone(unwanted, opts) == files)
            && (opts.deleteClean ==>
                  forall p :: p in files - Gone(unwanted, opts) <==>
                                && p in files
                                && (Under(StoreRoot(repo), p) ==>
                                      p in opts.stuck || Wanted(files, indexes, p, opts.detectBogus)))
  {
    hide Under, Wanted;
    assert files - {} == files;
  }

  lemma {:induction false} WhichUsable(files: Snapshot, indexes: seq<Path>)
    ensures AllUsable(files, indexes) <==>
            forall p :: p in indexes ==>
                          && p in files && var read := ReadAll(files[p]);
                          && read.Complete()
                          && forall d :: d in read.entries && HASH_NAME in d ==> HashOfHex(d[HASH_NAME]).Ok?
  {
    hide Usable, ReadAll, HashOfHex;
    forall p | p in files
      ensures Usable(files[p]) <==>
              && ReadAll(files[p]).Complete()
              && forall d :: d in ReadAll(files[p]).entries && HASH_NAME in d ==> HashOfHex(d[HASH_NAME]).Ok?
    {
      UsableIsWellFormed(files[p]);
    }
  }

  lemma {:induction false} FewerStayTreelike(files: Snapshot, fewer: Snapshot)
    requires Treelike(files) && fewer.Keys <= files.Keys
    ensures Treelike(fewer)
  {
    hide Under;
  }

  // What a cleanup leaves ----------------------------------------------------------------

  /** After a cleanup: nothing is new, nothing outside the store is gone, and
      of the objects that the listed indexes need all are there whose content
      is right. */
  ghost predicate Cleaned(before: Snapshot, after: Snapshot, repo: Path, indexes: seq<Path>)
  {
    && (forall p :: p in after ==> p in before && after[p] == before[p])
    && (forall p :: p in before && !InStore(repo, p) ==> p in after)
    && (forall h: Digest :: h in Needed(before, indexes) && Stored(before, repo, h) ==> StorePath(repo, h) in after)
  }

  lemma {:induction false} ObjectName(repo: Path, h: Digest)
    ensures HashOfHex(BaseName(StorePath(repo, h))) == Ok(h)
  {
    hide HashOfHex, HexOf;
    var p := StorePath(repo, h);
    HashPathEndsInHex(h);
    var cut := |p| - 41;
    assert p == p[..cut] + "/" + HexOf(h);
    HexOfIsPlain(h);
    RFindBefore(p[..cut], '/', HexOf(h));
    HashDecodeInvertsHexEncode(h);
  }

  /** What a cleanup with these indexes removes. */
  ghost function ToGo(files: Snapshot, repo: Path, indexes: seq<Path>, opts: CleanOptions): set<Path>
  {
    Gone(Doomed(files, StoreRoot(repo), Needed(files, indexes), opts), opts)
  }

  /** Whatever part of the doomed files is lost, the store is cleaned. */
  lemma {:induction false} LosingDoomed(before: Snapshot, repo: Path, indexes: seq<Path>, opts: CleanOptions,
                                        lost: set<Path>)
    requires lost <= ToGo(before, repo, indexes, opts)
    ensures Cleaned(before, before - lost, repo, indexes)
  {
    hide HashFile.Hashed, Needed, BaseName, HashOfHex, StorePath;
    forall h: Digest | h in Needed(before, indexes) && Stored(before, repo, h)
      ensures StorePath(repo, h) in before - lost
    {
      ObjectName(repo, h);
    }
  }

  /** Without the check of contents no needed object is lost at all. */
  lemma {:induction false} NeededStays(before: Snapshot, repo: Path, indexes: seq<Path>, opts: CleanOptions, h: Digest)
    requires !opts.detectBogus && h in Needed(before, indexes) && StorePath(repo, h) in before
    ensures StorePath(repo, h) !in Doomed(before, StoreRoot(repo), Needed(before, indexes), opts)
  {
    hide Needed, BaseName, HashOfHex, StorePath;
    ObjectName(repo, h);
  }

  lemma {:induction false} HashNeeded(files: Snapshot, indexes: seq<Path>, p: Path, h: Digest)
    requires p in indexes && p in files && h in HashesOf(ReadAll(files[p]).entries)
    ensures h in Needed(files, indexes)
  {
    hide HashesOf, ReadAll;
    if indexes[|indexes| - 1] != p {
      assert indexes == indexes[..|indexes| - 1] + [indexes[|indexes| - 1]];
      HashNeeded(files, indexes[..|indexes| - 1], p, h);
    }
  }

  /** The listed indexes stay restorable. */
  lemma {:induction false} CleanedKeepsSafe(before: Snapshot, after: Snapshot, repo: Path, indexes: seq<Path>,
                                            kept: set<Path>)
    requires Cleaned(before, after, repo, indexes) && Safe(before, repo, kept)
    requires forall p :: p in kept && p in before && ReadAll(before[p]).Complete() ==> p in indexes
    ensures Safe(after, repo, kept)
  {
    hide ReadAll, InStore, Needed, HashFile.Hashed, StorePath, HashOfHex;
    forall p | p in kept && p in after && ReadAll(after[p]).Complete()
      ensures EntriesRestorable(after, repo, ReadAll(after[p]).entries)
    {
      var entries := ReadAll(before[p]).entries;
      assert Restorable(before, repo, before[p]);
      forall i | 0 <= i < |entries|
        ensures EntryRestorable(after, repo, entries[i])
      {
        assert EntryRestorable(before, repo, entries[i]);
        if HASH_NAME in entries[i] {
          var h := HashOfHex(entries[i][HASH_NAME]).value;
          assert h in HashesOf(entries);
          HashNeeded(before, indexes, p, h);
        }
      }
    }
  }

  lemma {:induction false} CleanedStaysSound(before: Snapshot, after: Snapshot, repo: Path, indexes: seq<Path>)
    requires Cleaned(before, after, repo, indexes) && Sound(before, repo)
    ensures Sound(after, repo)
  {
    hide InStore, Needed, HashFile.Hashed, StorePath;
  }

  lemma {:induction false} ShrinkingCleans(t0: seq<Snapshot>, t1: seq<Snapshot>, before: Snapshot, repo: Path,
                                           indexes: seq<Path>, opts: CleanOptions)
    requires Shrinking(t0, t1, before, ToGo(before, repo, indexes, opts))
    ensures forall k :: |t0| <= k < |t1| ==> Cleaned(before, t1[k], repo, indexes)
  {
    hide ToGo, Cleaned;
    forall k | |t0| <= k < |t1|
      ensures Cleaned(before, t1[k], repo, indexes)
    {
      var lost :| lost <= ToGo(before, repo, indexes, opts) && t1[k] == before - lost;
      LosingDoomed(before, repo, indexes, opts, lost);
    }
  }
}
