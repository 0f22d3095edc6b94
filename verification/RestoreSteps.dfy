/** What one turn of the restore loop does to the target when nothing is in its
    way: one new name, for a new file or for one that is there. */
module RestoreSteps {
  import opened Bytes
  import opened UrlCodec
  import opened Numbers
  import opened IndexLine
  import opened IndexText
  import opened Names
  import opened Walk
  import opened Records
  import opened BufferedFile
  import opened Repository
  import opened Target
  import opened Restore
  import Sha1Spec

  ghost predicate LeadsTo(fs: Fs, p: Path, n: nat) { p in fs.names && fs.names[p] == n }

  /** Only the times of the directory of `p` may have changed. */
  ghost predicate TimesKept(before: Fs, after: Fs, p: Path)
  {
    forall m :: m in before.times ==>
                  m in after.times && (!LeadsTo(before, Parent(p), m) ==> after.times[m] == before.times[m])
  }

  /** One new file with one name. */
  ghost predicate Added(before: Fs, after: Fs, p: Path)
  {
    && after.names == before.names[p := before.next]
    && after.next == before.next + 1 && before.next in after.nodes && before.next in after.times
    && after.nodes == before.nodes[before.next := after.nodes[before.next]]
    && TimesKept(before, after, p) && Valid(after)
  }

  /** One more name for a file. */
  ghost predicate Joined(before: Fs, after: Fs, p: Path, n: nat)
  {
    && after.names == before.names[p := n] && after.nodes == before.nodes && after.next == before.next
    && TimesKept(before, after, p) && Valid(after)
  }

  /** The way to `p` is free: its directory is there, it is not, nor is its
      temporary name or anything below that. */
  ghost predicate Free(fs: Fs, p: Path)
  {
    && Valid(fs) && HasParent(fs, p) && p !in fs.names && Parent(p) != p
    && p + RESTORE_SUFFIX !in fs.names && Parent(p + RESTORE_SUFFIX) == Parent(p) && Parent(p) != p + RESTORE_SUFFIX
    && !HasEntries(fs, p + RESTORE_SUFFIX)
  }

  lemma {:induction false} TouchedKeeps(fs: Fs, env: Env, p: Path)
    requires Valid(fs)
    ensures var after := Touched(fs, env, p);
            && after.names == fs.names && after.nodes == fs.nodes && after.next == fs.next && Valid(after)
            && (forall m :: m in after.times <==> m in fs.times) && TimesKept(fs, after, p)
  {
  }

  /** A new file under the temporary name. */
  lemma {:induction false} MadeAdds(fs: Fs, env: Env, tmp: Path, kind: Kind)
    requires Valid(fs) && HasParent(fs, tmp) && tmp !in fs.names && Parent(tmp) != tmp
    ensures Made(fs, env, tmp, kind).Some?
    ensures var after := Made(fs, env, tmp, kind).value; Added(fs, after, tmp) && after.nodes[fs.next].kind == kind
  {
    hide Touched, Parent, HasParent;
    var n, t := fs.next, env.now(fs.tick);
    var made := Fs(fs.names[tmp := n], fs.nodes[n := Node(kind, env.born(fs.tick), env.user, env.group)],
                   fs.times[n := (t, t)], n + 1, fs.tick);
    assert Valid(made) by { assert fs.next !in fs.nodes; }
    TouchedKeeps(made, env, tmp);
    var after := Touched(made, env, tmp);
    assert TimesKept(fs, after, tmp) by { hide Valid; }
  }

  lemma {:induction false} AppendedAdds(before: Fs, fs: Fs, tmp: Path, data: Bytes)
    requires Added(before, fs, tmp) && fs.nodes[before.next].kind == Plain([])
    ensures IsPlain(fs, tmp) && Added(before, Appended(fs, tmp, data), tmp)
    ensures Appended(fs, tmp, data).nodes[before.next].kind == Plain(data)
  {
    assert [] + data == data;
  }

  lemma {:induction false} ChownedAdds(before: Fs, fs: Fs, tmp: Path, user: Bytes, group: Bytes)
    requires Added(before, fs, tmp)
    ensures Chowned(fs, tmp, user, group).Some?
    ensures var after := Chowned(fs, tmp, user, group).value;
            && Added(before, after, tmp) && after.times == fs.times
            && after.nodes[before.next].kind == fs.nodes[before.next].kind
            && after.nodes[before.next].user == user && after.nodes[before.next].group == group
  {
  }

  lemma {:induction false} ChmoddedAdds(before: Fs, fs: Fs, tmp: Path, mode: nat)
    requires Added(before, fs, tmp)
    ensures Chmodded(fs, tmp, mode).Some?
    ensures var after := Chmodded(fs, tmp, mode).value;
            && Added(before, after, tmp) && after.times == fs.times
            && after.nodes[before.next] == fs.nodes[before.next].(mode := mode)
  {
  }

  lemma {:induction false} StampedAdds(before: Fs, fs: Fs, tmp: Path, atime: nat, mtime: nat)
    requires Valid(before) && Added(before, fs, tmp)
    ensures Stamped(fs, tmp, atime, mtime).Some?
    ensures var after := Stamped(fs, tmp, atime, mtime).value;
            && Added(before, after, tmp) && after.nodes == fs.nodes && after.times[before.next] == (atime, mtime)
  {
  }

  /** The rename of a file out of its temporary name. */
  lemma {:induction false} RenamedMoves(fs: Fs, env: Env, tmp: Path, p: Path)
    requires Valid(fs) && tmp in fs.names && p !in fs.names && HasParent(fs, p) && !HasEntries(fs, tmp)
    requires Parent(tmp) == Parent(p) && Parent(p) != tmp && Parent(p) != p
    ensures Renamed(fs, env, tmp, p).Some?
    ensures var after := Renamed(fs, env, tmp, p).value;
            && after.names == (fs.names - {tmp})[p := fs.names[tmp]] && after.nodes == fs.nodes && after.next == fs.next
            && TimesKept(fs, after, p) && Valid(after)
  {
    hide Touched, HasEntries, Parent, HasParent;
    var moved := fs.(names := (fs.names - {tmp})[p := fs.names[tmp]]);
    TouchedKeeps(moved, env, tmp);
    TouchedKeeps(Touched(moved, env, tmp), env, p);
    assert forall m :: LeadsTo(moved, Parent(p), m) <==> LeadsTo(fs, Parent(p), m);
  }

  /** Under the temporary name there is nothing, before and after. */
  lemma {:induction false} StillFree(before: Fs, fs: Fs, p: Path, n: nat)
    requires Free(before, p) && fs.names == before.names[p + RESTORE_SUFFIX := n]
    requires forall m :: m in before.nodes && m < before.next ==> m in fs.nodes && fs.nodes[m] == before.nodes[m]
    ensures HasParent(fs, p) && p !in fs.names && !HasEntries(fs, p + RESTORE_SUFFIX)
    ensures (fs.names - {p + RESTORE_SUFFIX})[p := n] == before.names[p := n]
    ensures forall m :: LeadsTo(fs, Parent(p), m) <==> LeadsTo(before, Parent(p), m)
  {
    hide Parent;
    var tmp := p + RESTORE_SUFFIX;
    assert forall q :: q in before.names ==> Parent(q) != tmp;
    assert |RESTORE_SUFFIX| == 9;
  }

  lemma {:induction false} RenamedAdds(before: Fs, env: Env, fs: Fs, p: Path)
    requires Free(before, p) && Added(before, fs, p + RESTORE_SUFFIX)
    ensures Renamed(fs, env, p + RESTORE_SUFFIX, p).Some?
    ensures var after := Renamed(fs, env, p + RESTORE_SUFFIX, p).value;
            && Added(before, after, p) && after.nodes == fs.nodes && after.times[before.next] == fs.times[before.next]
  {
    hide Renamed, HasEntries, Parent, HasParent;
    StillFree(before, fs, p, before.next);
    RenamedMoves(fs, env, p + RESTORE_SUFFIX, p);
    assert !LeadsTo(before, Parent(p), before.next);
  }

  /** The second name of a file takes the same way. */
  lemma {:induction false} RelinkedJoins(before: Fs, env: Env, source: Path, p: Path)
    requires Free(before, p) && source in before.names && !IsDir(before, source)
    ensures Relinked(env, before, source, p, p + RESTORE_SUFFIX).Some?
    ensures Joined(before, Relinked(env, before, source, p, p + RESTORE_SUFFIX).value, p, before.names[source])
  {
    hide Renamed, HasEntries, Parent, HasParent, Touched, IsDir;
    var tmp, n := p + RESTORE_SUFFIX, before.names[source];
    var linked := before.(names := before.names[tmp := n]);
    TouchedKeeps(linked, env, tmp);
    var fs := Touched(linked, env, tmp);
    assert HasParent(before, tmp) by { SameParent(before, tmp, p); }
    assert Linked(before, env, source, tmp) == Some(fs);
    StillFree(before, fs, p, n);
    RenamedMoves(fs, env, tmp, p);
    assert forall m :: LeadsTo(linked, Parent(p), m) <==> LeadsTo(before, Parent(p), m);
  }

  lemma {:induction false} SameParent(fs: Fs, p: Path, q: Path)
    requires Parent(p) == Parent(q)
    ensures HasParent(fs, p) <==> HasParent(fs, q)
  {
  }

  // One entry ----------------------------------------------------------------------------

  /** The numbers of the entry can be printed and read back. */
  ghost predicate Fits(e: Entry)
  {
    && e.meta.perms <= MAX_SIGNED && e.meta.atime <= MAX_UNSIGNED && e.meta.mtime <= MAX_UNSIGNED
    && (e.Regular? ==> e.ino <= MAX_UNSIGNED)
  }

  ghost predicate Big(e: Entry) { e.Regular? && |e.content| > STORE_LIMIT }

  /** The store has an object at the place of a large file. */
  ghost predicate ObjectThere(store: Snapshot, repo: Path, e: Entry)
  {
    Big(e) ==> StorePath(repo, Sha1Spec.Digest(e.content)) in store
  }

  /** The entry with the content that the store has for it. */
  ghost function Found(store: Snapshot, repo: Path, e: Entry): Entry
  {
    if Big(e) && ObjectThere(store, repo, e) then e.(content := store[StorePath(repo, Sha1Spec.Digest(e.content))])
    else e
  }

  lemma {:induction false} FoundKeeps(store: Snapshot, repo: Path, e: Entry)
    ensures var f := Found(store, repo, e);
            && f.meta == e.meta && (f.Regular? <==> e.Regular?) && (f.Directory? <==> e.Directory?)
            && (f.Symlink? <==> e.Symlink?) && (e.Regular? ==> f.nlink == e.nlink && f.dev == e.dev && f.ino == e.ino)
            && (e.Directory? ==> f.mount == e.mount) && (e.Symlink? ==> f.target == e.target)
            && (!Big(e) ==> f == e)
  {
    hide StorePath, Sha1Spec.Digest;
  }

  function KindOf(e: Entry): Kind
  {
    match e
    case Regular(_, content, _, _, _) => Plain(content)
    case Directory(_, _) => Folder
    case Symlink(_, target) => Target.Link(target)
  }

  /** The file is what the entry says. */
  ghost predicate Shows(node: Node, times: Times, e: Entry, permissions: bool)
  {
    && node.kind == KindOf(e)
    && (permissions ==>
          node.user == e.meta.user && node.group == e.meta.group && (!e.Symlink? ==> node.mode == e.meta.perms))
    && (e.Regular? ==> times == (e.meta.atime, e.meta.mtime))
  }

  lemma {:induction false} OpenedAdds(before: Fs, env: Env, tmp: Path, data: Bytes)
    requires Valid(before) && HasParent(before, tmp) && tmp !in before.names && Parent(tmp) != tmp
    ensures Opened(before, env, tmp).Some? && IsPlain(Opened(before, env, tmp).value, tmp)
    ensures var after := Appended(Opened(before, env, tmp).value, tmp, data);
            Added(before, after, tmp) && after.nodes[before.next].kind == Plain(data)
  {
    hide Made, Appended, HasParent, Added, IsPlain;
    MadeAdds(before, env, tmp, Plain([]));
    OpenedIsPlain(before, env, tmp);
    AppendedAdds(before, Made(before, env, tmp, Plain([])).value, tmp, data);
  }

  /** Any entry is made under its temporary name. */
  lemma {:induction false} MakeAdds(config: RestoreConfig, env: Env, store: Snapshot, before: Fs, d: Details,
                                    rel: Bytes, e: Entry, p: Path)
    requires Free(before, p) && Describes(d, rel, e) && ObjectThere(store, config.repo, e)
    ensures var r := Make(config, env, store, before, d, p, p + RESTORE_SUFFIX);
            && r.Done? && Added(before, r.fs, p + RESTORE_SUFFIX)
            && r.fs.nodes[before.next].kind == KindOf(Found(store, config.repo, e))
  {
    hide Made, Opened, Added, Appended, HasEntries, HasParent, Parent, StorePath, HashOfHex, HexOf, Sha1Spec.Digest,
         Octal, Decimal, IsPlain;
    var tmp := p + RESTORE_SUFFIX;
    assert HasParent(before, tmp) && Parent(tmp) != tmp by { SameParent(before, p, tmp); }
    match e {
      case Regular(_, content, _, _, _) =>
        if Big(e) {
          HashDecodeInvertsHexEncode(Sha1Spec.Digest(content));
        }
        OpenedAdds(before, env, tmp, Found(store, config.repo, e).content);
      case Directory(_, _) =>
        assert "dir" != "link" by { assert |"dir"| != |"link"|; }
        MadeAdds(before, env, tmp, Folder);
      case Symlink(_, target) =>
        MadeAdds(before, env, tmp, Target.Link(target));
    }
  }

  lemma {:induction false} PlacedAdds(config: RestoreConfig, env: Env, before: Fs, fs: Fs, d: Details, rel: Bytes,
                                      e: Entry, f: Entry, p: Path)
    requires Free(before, p) && Added(before, fs, p + RESTORE_SUFFIX) && fs.nodes[before.next].kind == KindOf(f)
    requires Describes(d, rel, e) && Fits(e)
    requires f.meta == e.meta && (f.Regular? <==> e.Regular?) && (f.Symlink? <==> e.Symlink?)
    ensures Placed(config, env, fs, d, p, p + RESTORE_SUFFIX).Some?
    ensures var after := Placed(config, env, fs, d, p, p + RESTORE_SUFFIX).value;
            Added(before, after, p) && Shows(after.nodes[before.next], after.times[before.next], f, config.permissions)
  {
    hide Chowned, Chmodded, Stamped, Renamed, Free, Added, Strtoull, StrtolOctal, Octal, Decimal, HexOf,
         Sha1Spec.Digest;
    var tmp := p + RESTORE_SUFFIX;
    assert "dir" != "link" by { assert |"dir"| != |"link"|; }
    StrtolOfOctal(e.meta.perms);
    StrtoullOfDecimal(e.meta.atime);
    StrtoullOfDecimal(e.meta.mtime);
    var owned := fs;
    if config.permissions {
      ChownedAdds(before, fs, tmp, e.meta.user, e.meta.group);
      owned := Chowned(fs, tmp, e.meta.user, e.meta.group).value;
    }
    var moded := owned;
    if config.permissions && !IsLinkEntry(d) {
      ChmoddedAdds(before, owned, tmp, e.meta.perms);
      moded := Chmodded(owned, tmp, e.meta.perms).value;
    }
    var timed := moded;
    if !IsLinkEntry(d) && !IsDirEntry(d) {
      assert Valid(before) by { FreeIsValid(before, p); }
      StampedAdds(before, moded, tmp, e.meta.atime, e.meta.mtime);
      timed := Stamped(moded, tmp, e.meta.atime, e.meta.mtime).value;
    }
    RenamedAdds(before, env, timed, p);
  }

  lemma {:induction false} FreeIsValid(fs: Fs, p: Path)
    requires Free(fs, p)
    ensures Valid(fs)
  {
  }

  ghost predicate Multi(e: Entry) { e.Regular? && e.nlink > 1 }

  function Stamp(p: Path, e: Entry): seq<DirStamp>
  {
    if e.Directory? then [DirStamp(p, e.meta.atime, e.meta.mtime)] else []
  }

  ghost function InodesAfter(inodes: map<nat, Path>, p: Path, e: Entry): map<nat, Path>
  {
    if Multi(e) then inodes[e.ino := p] else inodes
  }

  /** One turn of the loop on an entry that is not a further link: a new file
      that is what the entry says, with the content that the store has. */
  lemma {:induction false} NewEntryTurn(config: RestoreConfig, env: Env, store: Snapshot, s: State, d: Details,
                                        rel: Bytes, e: Entry, p: Path, dir: Bytes)
    requires Expand(s.dir, rel) == Some((p, dir)) && Free(s.fs, p)
    requires Describes(d, rel, e) && Fits(e) && ObjectThere(store, config.repo, e)
    requires Multi(e) ==> e.ino !in s.inodes
    ensures var r := RestoreEntry(config, env, store, s, d);
            && r.Turned?
            && Added(s.fs, r.s.fs, p)
            && Shows(r.s.fs.nodes[s.fs.next], r.s.fs.times[s.fs.next], Found(store, config.repo, e),
                     config.permissions)
            && r.s.dir == dir && r.s.inodes == InodesAfter(s.inodes, p, e) && r.s.dirtimes == s.dirtimes + Stamp(p, e)
  {
    hide Expand, Make, Placed, Added, Shows, Strtoull, Octal, Decimal, HexOf, Sha1Spec.Digest, ObjectThere, Found,
         HasParent, HasEntries, Parent;
    var tmp := p + RESTORE_SUFFIX;
    assert "dir" != "link" by { assert |"dir"| != |"link"|; }
    assert Removed(s.fs, env, tmp) == s.fs;
    if e.Regular? {
      StrtoullOfDecimal(e.ino);
    }
    StrtoullOfDecimal(e.meta.atime);
    StrtoullOfDecimal(e.meta.mtime);
    MakeAdds(config, env, store, s.fs, d, rel, e, p);
    FoundKeeps(store, config.repo, e);
    PlacedAdds(config, env, s.fs, Make(config, env, store, s.fs, d, p, tmp).fs, d, rel, e, Found(store, config.repo, e),
               p);
    assert s.dirtimes + [] == s.dirtimes;
  }

  /** Without its object an entry ends the restore. */
  lemma {:induction false} MissingEntryEnds(config: RestoreConfig, env: Env, store: Snapshot, s: State, d: Details,
                                            rel: Bytes, e: Entry, p: Path, dir: Bytes)
    requires Expand(s.dir, rel) == Some((p, dir)) && Free(s.fs, p)
    requires Describes(d, rel, e) && Fits(e) && !ObjectThere(store, config.repo, e)
    requires Multi(e) ==> e.ino !in s.inodes
    ensures var r := RestoreEntry(config, env, store, s, d);
            r.Ended? && r.failure == FileFailure(StorePath(config.repo, Sha1Spec.Digest(e.content)))
  {
    hide Expand, Strtoull, Octal, Decimal, HexOf, Sha1Spec.Digest, HasParent, HasEntries, Parent, Placed, Opened,
         Appended, StorePath, HashOfHex, IsPlain;
    var tmp := p + RESTORE_SUFFIX;
    assert Removed(s.fs, env, tmp) == s.fs;
    StrtoullOfDecimal(e.ino);
    HashDecodeInvertsHexEncode(Sha1Spec.Digest(e.content));
    assert HasParent(s.fs, tmp) && Parent(tmp) != tmp by { SameParent(s.fs, p, tmp); }
    OpenedAdds(s.fs, env, tmp, []);
  }

  /** ... and on a further link to a file restored before: one more name. */
  lemma {:induction false} LinkEntryTurn(config: RestoreConfig, env: Env, store: Snapshot, s: State, d: Details,
                                         rel: Bytes, e: Entry, p: Path, dir: Bytes)
    requires Expand(s.dir, rel) == Some((p, dir)) && Free(s.fs, p)
    requires Describes(d, rel, e) && Fits(e)
    requires Multi(e) && e.ino in s.inodes && s.inodes[e.ino] in s.fs.names && !IsDir(s.fs, s.inodes[e.ino])
    ensures var r := RestoreEntry(config, env, store, s, d);
            && r.Turned?
            && Joined(s.fs, r.s.fs, p, s.fs.names[s.inodes[e.ino]])
            && r.s.dir == dir && r.s.inodes == s.inodes && r.s.dirtimes == s.dirtimes
  {
    hide Expand, Relinked, Joined, Strtoull, Octal, Decimal, HexOf, Sha1Spec.Digest, HasParent, HasEntries, Parent,
         IsDir;
    var tmp := p + RESTORE_SUFFIX;
    assert Removed(s.fs, env, tmp) == s.fs;
    StrtoullOfDecimal(e.ino);
    RelinkedJoins(s.fs, env, s.inodes[e.ino], p);
  }

  // Any line at all ------------------------------------------------------------------------

  /** Only directories have entries. */
  ghost predicate EntriesInDirectories(fs: Fs)
  {
    forall p :: p in fs.names && HasEntries(fs, p) ==> IsDir(fs, p)
  }

  /** Names other than `p` and its temporary name lead where they led, and the
      files that were there are as they were: content, permissions, owner. */
  ghost predicate Spared(before: Fs, after: Fs, p: Path)
  {
    && (forall q :: q != p && q != p + RESTORE_SUFFIX ==>
                      (q in before.names <==> q in after.names)
                      && (q in before.names ==> after.names[q] == before.names[q]))
    && (forall n :: n in before.nodes ==> n in after.nodes && after.nodes[n] == before.nodes[n])
  }

  /** ... while a new file is prepared under the temporary name. */
  ghost predicate Preparing(before: Fs, after: Fs, p: Path)
  {
    var tmp := p + RESTORE_SUFFIX;
    && Spared(before, after, p)
    && tmp in after.names && after.names[tmp] !in before.nodes && after.names[tmp] in after.nodes
  }

  lemma {:induction false} RemovedSpares(fs: Fs, env: Env, p: Path)
    requires Valid(fs) && EntriesInDirectories(fs)
    ensures var after := Removed(fs, env, p + RESTORE_SUFFIX);
            && Spared(fs, after, p) && Valid(after) && after.next == fs.next && after.nodes == fs.nodes
            && !IsPlain(after, p + RESTORE_SUFFIX)
  {
    hide Touched, HasEntries;
    var tmp := p + RESTORE_SUFFIX;
    if tmp in fs.names && !HasEntries(fs, tmp) {
      TouchedKeeps(fs.(names := fs.names - {tmp}), env, tmp);
    }
  }

  lemma {:induction false} MadePrepares(before: Fs, fs: Fs, env: Env, p: Path, kind: Kind)
    requires Valid(before) && Valid(fs) && Spared(before, fs, p) && fs.next == before.next
    ensures Made(fs, env, p + RESTORE_SUFFIX, kind).Some? ==>
              var after := Made(fs, env, p + RESTORE_SUFFIX, kind).value;
              && Preparing(before, after, p)
              && after.nodes[fs.next].kind == kind && after.names[p + RESTORE_SUFFIX] == fs.next
  {
    hide HasParent;
  }

  lemma {:induction false} AppendedPrepares(before: Fs, fs: Fs, p: Path, data: Bytes)
    requires Preparing(before, fs, p) && IsPlain(fs, p + RESTORE_SUFFIX)
    ensures Preparing(before, Appended(fs, p + RESTORE_SUFFIX, data), p)
  {
  }

  lemma {:induction false} OpenedPrepares(before: Fs, fs: Fs, env: Env, p: Path)
    requires Valid(before) && Valid(fs) && Spared(before, fs, p) && fs.next == before.next
    requires !IsPlain(fs, p + RESTORE_SUFFIX)
    ensures var r := Opened(fs, env, p + RESTORE_SUFFIX);
            r.Some? ==> Preparing(before, r.value, p) && IsPlain(r.value, p + RESTORE_SUFFIX)
  {
    hide Made, Preparing, Spared;
    MadePrepares(before, fs, env, p, Plain([]));
    OpenedIsPlain(fs, env, p + RESTORE_SUFFIX);
  }

  lemma {:induction false} MakePrepares(config: RestoreConfig, env: Env, store: Snapshot, before: Fs, fs: Fs,
                                        d: Details, p: Path)
    requires Valid(before) && Valid(fs) && Spared(before, fs, p) && fs.next == before.next
    requires !IsPlain(fs, p + RESTORE_SUFFIX)
    ensures var r := Make(config, env, store, fs, d, p, p + RESTORE_SUFFIX);
            Spared(before, r.fs, p) && (r.Done? ==> Preparing(before, r.fs, p))
  {
    hide Made, Opened, Appended, IsPlain, StorePath, HashOfHex, Valid, Spared;
    var tmp := p + RESTORE_SUFFIX;
    MadePrepares(before, fs, env, p, Folder);
    MadePrepares(before, fs, env, p, Target.Link(Get(d, "target")));
    OpenedPrepares(before, fs, env, p);
    var started := Opened(fs, env, tmp);
    if started.Some? {
      forall data
        ensures Preparing(before, Appended(started.value, tmp, data), p)
      {
        AppendedPrepares(before, started.value, p, data);
      }
    }
  }

  lemma {:induction false} ChangedPrepares(before: Fs, fs: Fs, p: Path, user: Bytes, group: Bytes, mode: nat,
                                           atime: nat, mtime: nat)
    requires Preparing(before, fs, p)
    ensures var tmp := p + RESTORE_SUFFIX;
            && (Chowned(fs, tmp, user, group).Some? ==> Preparing(before, Chowned(fs, tmp, user, group).value, p))
            && (Chmodded(fs, tmp, mode).Some? ==> Preparing(before, Chmodded(fs, tmp, mode).value, p))
            && (Stamped(fs, tmp, atime, mtime).Some? ==> Preparing(before, Stamped(fs, tmp, atime, mtime).value, p))
  {
  }

  lemma {:induction false} RenamedSpares(before: Fs, fs: Fs, env: Env, p: Path)
    requires Spared(before, fs, p)
    ensures var r := Renamed(fs, env, p + RESTORE_SUFFIX, p); r.Some? ==> Spared(before, r.value, p)
  {
    hide HasParent, HasEntries, IsDir;
  }

  lemma {:induction false} PlacedSpares(config: RestoreConfig, env: Env, before: Fs, fs: Fs, d: Details, p: Path)
    requires Preparing(before, fs, p)
    ensures var r := Placed(config, env, fs, d, p, p + RESTORE_SUFFIX); r.Some? ==> Spared(before, r.value, p)
  {
    hide Chowned, Chmodded, Stamped, Renamed, Strtoull, StrtolOctal, Get, Spared;
    var user, group, mode := Get(d, "uid"), Get(d, "gid"), StrtolOctal(Get(d, "perms"));
    var atime, mtime, tmp := Strtoull(Get(d, "atime")), Strtoull(Get(d, "mtime")), p + RESTORE_SUFFIX;
    ChangedPrepares(before, fs, p, user, group, mode, atime, mtime);
    RenamedSpares(before, fs, env, p);
    var owned := if config.permissions then Chowned(fs, tmp, user, group) else Some(fs);
    if owned.Some? {
      ChangedPrepares(before, owned.value, p, user, group, mode, atime, mtime);
      var moded := if config.permissions && !IsLinkEntry(d) then Chmodded(owned.value, tmp, mode) else owned;
      if moded.Some? {
        ChangedPrepares(before, moded.value, p, user, group, mode, atime, mtime);
        var timed := if IsLinkEntry(d) || IsDirEntry(d) then moded else Stamped(moded.value, tmp, atime, mtime);
        if timed.Some? {
          RenamedSpares(before, timed.value, env, p);
        }
      }
    }
  }

  lemma {:induction false} RelinkedSpares(env: Env, before: Fs, fs: Fs, source: Path, p: Path)
    requires Spared(before, fs, p)
    ensures var r := Relinked(env, fs, source, p, p + RESTORE_SUFFIX); r.Some? ==> Spared(before, r.value, p)
  {
    hide Renamed, HasParent, IsDir;
    var linked := Linked(fs, env, source, p + RESTORE_SUFFIX);
    if linked.Some? {
      RenamedSpares(before, linked.value, env, p);
    }
  }

  /** Whatever a line says and whatever becomes of it, a turn of the loop gives
      away no name but that of the line and its temporary name, and writes into
      no file that was there: such a file is at most replaced. */
  lemma {:induction false} TurnSpares(config: RestoreConfig, env: Env, store: Snapshot, s: State, d: Details)
    requires Valid(s.fs) && EntriesInDirectories(s.fs)
    ensures match RestoreEntry(config, env, store, s, d)
            case Turned(t) =>
              if Expand(s.dir, Get(d, NAME)).None? then t == s
              else Spared(s.fs, t.fs, Expand(s.dir, Get(d, NAME)).value.0)
            case Ended(_, fs) =>
              && Expand(s.dir, Get(d, NAME)).Some?
              && Spared(s.fs, fs, Expand(s.dir, Get(d, NAME)).value.0)
  {
    hide Expand, Get, Make, Placed, Relinked, Removed, Strtoull, Spared, Preparing, Valid, EntriesInDirectories,
         IsPlain;
    var expanded := Expand(s.dir, Get(d, NAME));
    if expanded.Some? {
      var p := expanded.value.0;
      var tmp := p + RESTORE_SUFFIX;
      var fs := Removed(s.fs, env, tmp);
      RemovedSpares(s.fs, env, p);
      var num := Strtoull(Get(d, "inode"));
      if "inode" in d && num in s.inodes {
        RelinkedSpares(env, s.fs, fs, s.inodes[num], p);
      } else {
        MakePrepares(config, env, store, s.fs, fs, d, p);
        var made := Make(config, env, store, fs, d, p, tmp);
        if made.Done? {
          PlacedSpares(config, env, s.fs, made.fs, d, p);
        }
      }
    }
  }
}
