/** What a turn of the restore loop does for any line whatever and any target:
    when it goes on, and what then is there. */
module RestoreAny {
  import opened Bytes
  import opened UrlCodec
  import opened Numbers
  import opened IndexLine
  import opened IndexText
  import opened Names
  import opened Records
  import opened BufferedFile
  import opened Repository
  import opened Target
  import opened Restore
  import opened RestoreSteps

  /** Every name stands in a directory. */
  ghost predicate Rooted(fs: Fs)
  {
    Valid(fs) && forall q :: q in fs.names ==> HasParent(fs, q)
  }

  function Tmp(p: Path): Path { p + RESTORE_SUFFIX }

  /** What a line asks for, if that can be had: a link, a directory, or a file
      with the data of the line or the content of the object. */
  function Asked(store: Snapshot, repo: Path, d: Details): Option<Kind>
  {
    if "type" in d then
      if d["type"] == "link" then Some(Target.Link(Get(d, "target")))
      else if d["type"] == "dir" then Some(Folder)
      else None
    else if "data" in d then Some(Plain(d["data"]))
    else if HASH_NAME in d && HashOfHex(d[HASH_NAME]).Ok? then
      var hp := StorePath(repo, HashOfHex(d[HASH_NAME]).value);
      if hp in store then Some(Plain(store[hp])) else None
    else None
  }

  /** A line of which nothing is made: an unknown type, or neither data nor
      hash. */
  predicate PassedOver(d: Details)
  {
    if "type" in d then d["type"] !in {"link", "dir", "chr", "blk", "socket"}
    else "data" !in d && HASH_NAME !in d
  }

  predicate FurtherLink(s: State, d: Details) { "inode" in d && Strtoull(Get(d, "inode")) in s.inodes }

  /** The temporary name is free, or can be made so. */
  ghost predicate TmpClear(fs: Fs, p: Path) { Tmp(p) in fs.names ==> !HasEntries(fs, Tmp(p)) }

  /** There is a directory for the name, and nothing but a file at it. */
  ghost predicate CanReplace(fs: Fs, p: Path) { TmpClear(fs, p) && HasParent(fs, p) && !IsDir(fs, p) }

  // Temporary names -------------------------------------------------------------------

  lemma {:induction false} RFindLonger(p: Path, s: Bytes)
    requires '/' !in s
    ensures RFind(p + s, '/') == RFind(p, '/')
  {
    if s == [] {
      assert p + s == p;
    } else {
      assert (p + s)[..|p + s| - 1] == p + s[..|s| - 1];
      assert s[|s| - 1] in s;
      RFindLonger(p, s[..|s| - 1]);
    }
  }

  lemma {:induction false} TmpFacts(p: Path)
    ensures Parent(Tmp(p)) == Parent(p) && Tmp(p) != Parent(p) && Tmp(p) != p && Tmp(p) != ROOT
    ensures Parent(p) == p ==> p == ROOT
  {
    assert |RESTORE_SUFFIX| == 9 && '/' !in RESTORE_SUFFIX;
    RFindLonger(p, RESTORE_SUFFIX);
    var n := RFind(p, '/');
    if n.Some? {
      assert (p + RESTORE_SUFFIX)[..n.value] == p[..n.value];
    }
  }

  /** Nothing stands below the temporary name, nor below a file. */
  lemma {:induction false} NothingBelow(fs: Fs, q: Path)
    requires Rooted(fs) && q != ROOT && (q in fs.names ==> !IsDir(fs, q))
    ensures !HasEntries(fs, q)
  {
    hide Parent;
    assert forall p :: p in fs.names && Parent(p) == q ==> HasParent(fs, p);
  }

  // A new file --------------------------------------------------------------------------

  /** One new file under the temporary name. */
  ghost predicate Fresh(before: Fs, after: Fs, tmp: Path, node: Node)
  {
    && after.names == before.names[tmp := before.next] && after.next == before.next + 1
    && after.nodes == before.nodes[before.next := node] && Valid(after)
  }

  lemma {:induction false} MadeFresh(fs: Fs, env: Env, tmp: Path, kind: Kind)
    requires Valid(fs)
    ensures Made(fs, env, tmp, kind).Some? <==> tmp !in fs.names && HasParent(fs, tmp)
    ensures Made(fs, env, tmp, kind).Some? ==>
              Fresh(fs, Made(fs, env, tmp, kind).value, tmp, Node(kind, env.born(fs.tick), env.user, env.group))
  {
    hide Touched, HasParent;
    if tmp !in fs.names && HasParent(fs, tmp) {
      var n, t := fs.next, env.now(fs.tick);
      var made := Fs(fs.names[tmp := n], fs.nodes[n := Node(kind, env.born(fs.tick), env.user, env.group)],
                     fs.times[n := (t, t)], n + 1, fs.tick);
      TouchedKeeps(made, env, tmp);
    }
  }

  /** The mode of the new file is the one new files get. */
  ghost predicate Born(env: Env, node: Node, kind: Kind)
  {
    node.kind == kind && node.user == env.user && node.group == env.group && exists t: nat :: node.mode == env.born(t)
  }

  lemma {:induction false} OpenedFresh(fs: Fs, env: Env, tmp: Path, data: Bytes)
    requires Valid(fs) && tmp !in fs.names
    ensures Opened(fs, env, tmp).Some? <==> HasParent(fs, tmp)
    ensures Opened(fs, env, tmp).Some? ==>
              && IsPlain(Opened(fs, env, tmp).value, tmp)
              && Fresh(fs, Appended(Opened(fs, env, tmp).value, tmp, data), tmp,
                       Node(Plain(data), env.born(fs.tick), env.user, env.group))
  {
    hide Made, HasParent;
    MadeFresh(fs, env, tmp, Plain([]));
    OpenedIsPlain(fs, env, tmp);
    if HasParent(fs, tmp) {
      assert [] + data == data;
      var before := Opened(fs, env, tmp).value;
      var after := Appended(before, tmp, data);
      assert after.nodes == fs.nodes[fs.next := Node(Plain(data), env.born(fs.tick), env.user, env.group)];
    }
  }

  /** Making an entry that is not passed over, where the temporary name is free. */
  lemma {:induction false} MakeAsked(config: RestoreConfig, env: Env, store: Snapshot, fs: Fs, d: Details, p: Path)
    requires Valid(fs) && Tmp(p) !in fs.names && !PassedOver(d) && !(IsDirEntry(d) && p in fs.names)
    ensures var r := Make(config, env, store, fs, d, p, Tmp(p));
            var asked := Asked(store, config.repo, d);
            && !r.Passed?
            && (r.Done? <==> asked.Some? && HasParent(fs, Tmp(p)))
            && (r.Done? ==> Fresh(fs, r.fs, Tmp(p), Node(asked.value, env.born(fs.tick), env.user, env.group)))
  {
    hide Made, Opened, Appended, HasParent, StorePath, HashOfHex, IsPlain, Fresh, Valid;
    var tmp, kind := Tmp(p), Asked(store, config.repo, d);
    TypesDiffer();
    if kind.Some? {
      MadeFresh(fs, env, tmp, kind.value);
      if kind.value.Plain? {
        OpenedFresh(fs, env, tmp, kind.value.content);
      }
    }
  }

  lemma {:induction false} TypesDiffer()
    ensures |"link"| == 4 && |"dir"| == 3 && |"chr"| == 3 && |"blk"| == 3 && |"socket"| == 6
    ensures "dir"[0] == 'd' && "chr"[0] == 'c' && "blk"[0] == 'b'
  {
  }

  // Into its place ------------------------------------------------------------------------

  /** What the file is like in the end. */
  ghost predicate MadeAs(config: RestoreConfig, env: Env, d: Details, node: Node, times: Times, kind: Kind)
  {
    && node.kind == kind
    && (if config.permissions then node.user == Get(d, "uid") && node.group == Get(d, "gid")
        else Born(env, node, kind))
    && (config.permissions && !IsLinkEntry(d) ==> node.mode == StrtolOctal(Get(d, "perms")))
    && (!IsLinkEntry(d) && !IsDirEntry(d) ==> times == (Strtoull(Get(d, "atime")), Strtoull(Get(d, "mtime"))))
  }

  /** The state of a new file between its making and its rename. */
  ghost predicate Dressed(before: Fs, after: Fs, tmp: Path)
  {
    && after.names == before.names[tmp := before.next] && after.next == before.next + 1
    && before.next in after.nodes && before.next in after.times && Valid(after)
    && after.nodes == before.nodes[before.next := after.nodes[before.next]]
  }

  lemma {:induction false} FreshIsDressed(before: Fs, after: Fs, tmp: Path, node: Node)
    requires Fresh(before, after, tmp, node)
    ensures Dressed(before, after, tmp) && after.nodes[before.next] == node
  {
    assert tmp in after.names;
  }

  lemma {:induction false} DressedOn(before: Fs, fs: Fs, tmp: Path, user: Bytes, group: Bytes, mode: nat, atime: nat,
                                     mtime: nat)
    requires Dressed(before, fs, tmp)
    ensures var r := Chowned(fs, tmp, user, group);
            && r.Some? && Dressed(before, r.value, tmp) && r.value.times == fs.times
            && r.value.nodes[before.next].kind == fs.nodes[before.next].kind
            && r.value.nodes[before.next].user == user && r.value.nodes[before.next].group == group
    ensures var r := Chmodded(fs, tmp, mode);
            && r.Some? && Dressed(before, r.value, tmp) && r.value.times == fs.times
            && r.value.nodes[before.next] == fs.nodes[before.next].(mode := mode)
    ensures var r := Stamped(fs, tmp, atime, mtime);
            && r.Some? && Dressed(before, r.value, tmp) && r.value.nodes == fs.nodes
            && r.value.times[before.next] == (atime, mtime)
  {
  }

  /** The rename of a new file goes well if no directory is in its way, or, for a
      new directory, nothing. */
  lemma {:induction false} DressedRename(before: Fs, fs: Fs, env: Env, p: Path, kind: Kind)
    requires Rooted(before) && Dressed(before, fs, Tmp(p)) && Tmp(p) !in before.names && p != ROOT
    requires HasParent(before, p) && fs.nodes[before.next].kind == kind
    requires kind.Folder? ==> p !in before.names
    ensures Renamed(fs, env, Tmp(p), p).Some? <==> !IsDir(before, p)
    ensures Renamed(fs, env, Tmp(p), p).Some? ==>
              var after := Renamed(fs, env, Tmp(p), p).value;
              && after.names == before.names[p := before.next] && after.nodes == fs.nodes && after.next == fs.next
              && before.next in after.times
              && (Parent(p) == ROOT || before.names[Parent(p)] != before.next)
              && after.times[before.next] == fs.times[before.next] && Valid(after)
  {
    hide Touched, Parent, HasParent, IsDir, HasEntries, Rooted;
    var tmp, n := Tmp(p), before.next;
    TmpFacts(p);
    DressedLooks(before, fs, p);
    assert (fs.names - {tmp})[p := n] == before.names[p := n];
    if !IsDir(before, p) {
      var moved := fs.(names := before.names[p := n]);
      TouchedElsewhere(moved, env, tmp, n);
      TouchedElsewhere(Touched(moved, env, tmp), env, p, n);
    }
  }

  /** How things look with the new file under its temporary name. */
  lemma {:induction false} DressedLooks(before: Fs, fs: Fs, p: Path)
    requires Rooted(before) && Dressed(before, fs, Tmp(p)) && Tmp(p) !in before.names && p != ROOT
    requires HasParent(before, p)
    ensures HasParent(fs, p) && (IsDir(fs, p) <==> IsDir(before, p)) && !HasEntries(fs, Tmp(p))
    ensures (p in fs.names <==> p in before.names) && (IsDir(fs, p) ==> p in fs.names)
    ensures IsDir(fs, Tmp(p)) <==> fs.nodes[before.next].kind.Folder?
    ensures !IsDir(before, p) ==> !HasEntries(fs, p)
    ensures p in fs.names ==> fs.names[p] != before.next
    ensures Parent(p) in before.names ==> before.names[Parent(p)] != before.next
    ensures Parent(p) == ROOT || Parent(p) in before.names
    ensures Valid(fs.(names := before.names[p := before.next]))
  {
    hide Parent, HasEntries;
    TmpFacts(p);
    NothingBelow(before, Tmp(p));
    SameEntries(before, fs, Tmp(p), Tmp(p));
    if !IsDir(before, p) {
      NothingBelow(before, p);
      SameEntries(before, fs, Tmp(p), p);
    }
  }

  lemma {:induction false} SameEntries(before: Fs, fs: Fs, tmp: Path, q: Path)
    requires fs.names.Keys == before.names.Keys + {tmp} && Parent(tmp) != q
    ensures HasEntries(fs, q) <==> HasEntries(before, q)
  {
    hide Parent;
    if HasEntries(before, q) {
      var p :| p in before.names && Parent(p) == q;
      assert p in fs.names;
    }
  }

  /** Touching the directory of a name leaves the times of a file that is no
      directory of it. */
  lemma {:induction false} TouchedElsewhere(fs: Fs, env: Env, q: Path, n: nat)
    requires Valid(fs) && n in fs.times && (Parent(q) in fs.names ==> fs.names[Parent(q)] != n)
    ensures var after := Touched(fs, env, q);
            && after.names == fs.names && after.nodes == fs.nodes && after.next == fs.next && Valid(after)
            && n in after.times && after.times[n] == fs.times[n]
  {
    hide Parent;
  }

  /** Ownership, permissions, times and rename of a new file. */
  lemma {:induction false} PlacedNew(config: RestoreConfig, env: Env, before: Fs, fs: Fs, d: Details, p: Path,
                                     kind: Kind, mode: nat)
    requires Rooted(before) && Tmp(p) !in before.names && p != ROOT && HasParent(before, p)
    requires Fresh(before, fs, Tmp(p), Node(kind, mode, env.user, env.group)) && exists t: nat :: mode == env.born(t)
    requires kind.Folder? ==> p !in before.names
    ensures var r := Placed(config, env, fs, d, p, Tmp(p));
            && (r.Some? <==> !IsDir(before, p))
            && (r.Some? ==>
                  && r.value.names == before.names[p := before.next] && Valid(r.value)
                  && before.next in r.value.nodes && before.next in r.value.times
                  && r.value.nodes == before.nodes[before.next := r.value.nodes[before.next]]
                  && r.value.next == before.next + 1
                  && MadeAs(config, env, d, r.value.nodes[before.next], r.value.times[before.next], kind))
  {
    hide Placed, Renamed, Fresh, Dressed, HasParent, IsDir, Rooted, Valid, MadeAs;
    var timed := DressNew(config, env, before, fs, d, Tmp(p), kind, mode);
    DressedNode(before, timed, Tmp(p));
    DressedRename(before, timed, env, p, kind);
  }

  /** A new file, ready for its rename. */
  lemma {:induction false} DressNew(config: RestoreConfig, env: Env, before: Fs, fs: Fs, d: Details, tmp: Path,
                                    kind: Kind, mode: nat) returns (timed: Fs)
    requires Fresh(before, fs, tmp, Node(kind, mode, env.user, env.group)) && exists t: nat :: mode == env.born(t)
    ensures forall p :: Placed(config, env, fs, d, p, tmp) == Renamed(timed, env, tmp, p)
    ensures Dressed(before, timed, tmp)
    ensures before.next in timed.nodes && before.next in timed.times && timed.nodes[before.next].kind == kind
    ensures MadeAs(config, env, d, timed.nodes[before.next], timed.times[before.next], kind)
  {
    hide Chowned, Chmodded, Stamped, Renamed, Fresh, Dressed, Strtoull, StrtolOctal, Get, IsLinkEntry, IsDirEntry;
    var user, group, perms := Get(d, "uid"), Get(d, "gid"), StrtolOctal(Get(d, "perms"));
    var atime, mtime := Strtoull(Get(d, "atime")), Strtoull(Get(d, "mtime"));
    FreshIsDressed(before, fs, tmp, Node(kind, mode, env.user, env.group));
    DressedOn(before, fs, tmp, user, group, perms, atime, mtime);
    var owned := if config.permissions then Chowned(fs, tmp, user, group).value else fs;
    DressedOn(before, owned, tmp, user, group, perms, atime, mtime);
    var moded := if config.permissions && !IsLinkEntry(d) then Chmodded(owned, tmp, perms).value else owned;
    DressedOn(before, moded, tmp, user, group, perms, atime, mtime);
    timed := if IsLinkEntry(d) || IsDirEntry(d) then moded else Stamped(moded, tmp, atime, mtime).value;
    DressedNode(before, timed, tmp);
  }

  lemma {:induction false} DressedNode(before: Fs, fs: Fs, tmp: Path)
    requires Dressed(before, fs, tmp)
    ensures before.next in fs.nodes && before.next in fs.times && fs.next == before.next + 1
    ensures fs.nodes == before.nodes[before.next := fs.nodes[before.next]]
  {
  }

  // A whole turn ----------------------------------------------------------------------------

  /** Without entries below it the temporary name is gone, and all else is as it
      was. */
  lemma {:induction false} RemovedClears(fs: Fs, env: Env, p: Path)
    requires Rooted(fs)
    ensures var after := Removed(fs, env, Tmp(p));
            && after.nodes == fs.nodes && after.next == fs.next && Rooted(after)
            && after.names == (if TmpClear(fs, p) then fs.names - {Tmp(p)} else fs.names)
            && (Tmp(p) in after.names ==> IsDir(after, Tmp(p)))
  {
    hide Touched, HasEntries, Parent;
    var tmp := Tmp(p);
    TmpFacts(p);
    if tmp in fs.names && !IsDir(fs, tmp) {
      NothingBelow(fs, tmp);
    }
    if tmp in fs.names && !HasEntries(fs, tmp) {
      TouchedKeeps(fs.(names := fs.names - {tmp}), env, tmp);
      NoneHas(fs, tmp);
    }
    assert fs.names - {tmp} == fs.names || tmp in fs.names;
  }

  lemma {:induction false} NoneHas(fs: Fs, q: Path)
    requires !HasEntries(fs, q)
    ensures forall p :: p in fs.names ==> Parent(p) != q
  {
    hide Parent;
  }

  /** Looking at other names than the temporary one. */
  lemma {:induction false} SameLooks(fs: Fs, after: Fs, p: Path, q: Path)
    requires after.names == fs.names - {Tmp(p)} || after.names == fs.names
    requires after.nodes == fs.nodes && q != Tmp(p)
    ensures IsDir(after, q) <==> IsDir(fs, q)
    ensures Parent(q) != Tmp(p) ==> (HasParent(after, q) <==> HasParent(fs, q))
  {
    hide Parent;
  }

  /** A name that leads to a file, new or not, in a directory that is there. */
  lemma {:induction false} OneMoreRooted(fs: Fs, after: Fs, p: Path, n: nat)
    requires Rooted(fs) && Valid(after) && HasParent(fs, p) && !IsDir(fs, p) && p != ROOT
    requires after.names == fs.names[p := n] && forall m :: m in fs.nodes ==> m in after.nodes
    requires forall m :: m in fs.nodes && fs.nodes[m].kind.Folder? ==> after.nodes[m].kind.Folder?
    ensures Rooted(after)
  {
    hide Parent;
    NothingBelow(fs, p);
    NoneHas(fs, p);
  }

  lemma {:induction false} RelinkedAny(env: Env, fs: Fs, source: Path, p: Path)
    requires Rooted(fs) && p != ROOT
    ensures var r := Relinked(env, fs, source, p, Tmp(p));
            && (r.Some? <==> && source in fs.names && !IsDir(fs, source) && Tmp(p) !in fs.names && HasParent(fs, p)
                             && !IsDir(fs, p))
            && (r.Some? ==> && p in r.value.names && r.value.names[p] == fs.names[source] && r.value.nodes == fs.nodes
                            && Rooted(r.value))
  {
    hide Touched, Parent, HasEntries, Renamed, Rooted, IsDir, HasParent;
    var tmp := Tmp(p);
    TmpFacts(p);
    assert HasParent(fs, tmp) <==> HasParent(fs, p) by { SameParent(fs, tmp, p); }
    if source in fs.names && !IsDir(fs, source) && tmp !in fs.names && HasParent(fs, p) {
      LinkedTmp(env, fs, source, p);
      RenamedLink(env, fs, Linked(fs, env, source, tmp).value, source, p);
    }
  }

  lemma {:induction false} LinkedTmp(env: Env, fs: Fs, source: Path, p: Path)
    requires Rooted(fs) && p != ROOT && Tmp(p) !in fs.names && HasParent(fs, p)
    requires source in fs.names && !IsDir(fs, source)
    ensures var r := Linked(fs, env, source, Tmp(p));
            && r.Some? && r.value.names == fs.names[Tmp(p) := fs.names[source]] && r.value.nodes == fs.nodes
            && Rooted(r.value) && !HasEntries(r.value, Tmp(p)) && !IsDir(r.value, Tmp(p))
  {
    hide Touched, Parent, HasEntries;
    var tmp, n := Tmp(p), fs.names[source];
    TmpFacts(p);
    var linked := fs.(names := fs.names[tmp := n]);
    TouchedKeeps(linked, env, tmp);
    NothingBelow(fs, tmp);
    SameEntries(fs, linked, tmp, tmp);
    var after := Touched(linked, env, tmp);
    assert HasParent(fs, tmp) by { SameParent(fs, tmp, p); }
    SameEntries(fs, after, tmp, tmp);
    OneMoreRooted(fs, after, tmp, n);
  }

  lemma {:induction false} RenamedLink(env: Env, before: Fs, fs: Fs, source: Path, p: Path)
    requires Rooted(before) && p != ROOT && Tmp(p) !in before.names && HasParent(before, p) && source in before.names
    requires fs.names == before.names[Tmp(p) := before.names[source]] && fs.nodes == before.nodes
    requires Rooted(fs) && !HasEntries(fs, Tmp(p)) && !IsDir(fs, Tmp(p))
    ensures var r := Renamed(fs, env, Tmp(p), p);
            && (r.Some? <==> !IsDir(before, p))
            && (r.Some? ==> && p in r.value.names && r.value.names[p] == before.names[source]
                            && r.value.nodes == before.nodes && Rooted(r.value))
  {
    hide Touched, Parent, HasEntries;
    var tmp, n := Tmp(p), before.names[source];
    TmpFacts(p);
    assert IsDir(fs, p) <==> IsDir(before, p);
    assert HasParent(fs, p);
    if !IsDir(before, p) {
      NothingBelow(fs, p);
      if !(p in fs.names && fs.names[p] == n) {
        var moved := fs.(names := (fs.names - {tmp})[p := n]);
        assert moved.names == before.names[p := n];
        TouchedKeeps(moved, env, tmp);
        TouchedKeeps(Touched(moved, env, tmp), env, p);
        OneMoreRooted(before, Touched(Touched(moved, env, tmp), env, p), p, n);
      }
    }
  }

  /** When the turn goes on: a further link needs its source; anything else that
      is made must be possible and have its object; and nothing but a file may be
      in the way. */
  ghost predicate GoesOn(store: Snapshot, repo: Path, s: State, d: Details, p: Path)
  {
    if FurtherLink(s, d) then
      var source := s.inodes[Strtoull(Get(d, "inode"))];
      source in s.fs.names && source != Tmp(p) && !IsDir(s.fs, source) && CanReplace(s.fs, p)
    else
      || PassedOver(d)
      || (IsDirEntry(d) && p in s.fs.names)
      || (Asked(store, repo, d).Some? && CanReplace(s.fs, p))
  }

  /** In particular a file that is kept by hash needs its object. */
  lemma {:induction false} NeedsObject(store: Snapshot, repo: Path, s: State, d: Details, p: Path)
    requires GoesOn(store, repo, s, d, p) && !FurtherLink(s, d)
    requires "type" !in d && "data" !in d && HASH_NAME in d
    ensures HashOfHex(d[HASH_NAME]).Ok? && StorePath(repo, HashOfHex(d[HASH_NAME]).value) in store
  {
    hide StorePath, HashOfHex;
  }

  /** What there is after it. */
  ghost predicate LineDone(config: RestoreConfig, env: Env, store: Snapshot, before: State, after: State, d: Details,
                           p: Path)
  {
    var num, kind := Strtoull(Get(d, "inode")), Asked(store, config.repo, d);
    if FurtherLink(before, d) then
      && before.inodes[num] in before.fs.names && p in after.fs.names
      && after.fs.names[p] == before.fs.names[before.inodes[num]]
      && after.fs.nodes == before.fs.nodes && after.inodes == before.inodes && after.dirtimes == before.dirtimes
    else if PassedOver(d) || (IsDirEntry(d) && p in before.fs.names) then
      && (p in after.fs.names <==> p in before.fs.names)
      && (p in after.fs.names ==> after.fs.names[p] == before.fs.names[p])
      && after.fs.nodes == before.fs.nodes && after.inodes == before.inodes && after.dirtimes == before.dirtimes
    else
      && kind.Some? && p in after.fs.names && after.fs.names[p] == before.fs.next
      && before.fs.next in after.fs.nodes && before.fs.next in after.fs.times
      && MadeAs(config, env, d, after.fs.nodes[before.fs.next], after.fs.times[before.fs.next], kind.value)
      && after.inodes == (if "inode" in d && "type" !in d then before.inodes[num := p] else before.inodes)
      && after.dirtimes == before.dirtimes
                           + if IsDirEntry(d) then [DirStamp(p, Strtoull(Get(d, "atime")), Strtoull(Get(d, "mtime")))]
                             else []
  }

  /** One turn of the loop, for any line and any target: it goes on if and only if
      nothing stands against it, and then its work is done. */
  lemma {:induction false} AnyTurn(config: RestoreConfig, env: Env, store: Snapshot, s: State, d: Details, p: Path,
                                   dir: Bytes)
    requires Rooted(s.fs) && Expand(s.dir, Get(d, NAME)) == Some((p, dir)) && p != ROOT
    ensures var r := RestoreEntry(config, env, store, s, d);
            && (r.Turned? <==> GoesOn(store, config.repo, s, d, p))
            && (r.Turned? ==> Rooted(r.s.fs) && r.s.dir == dir && LineDone(config, env, store, s, r.s, d, p))
  {
    hide *;
    if FurtherLink(s, d) {
      LinkTurn(config, env, store, s, d, p, dir);
    } else if PassedOver(d) || (IsDirEntry(d) && p in s.fs.names) {
      IdleTurn(config, env, store, s, d, p, dir);
    } else {
      FileTurn(config, env, store, s, d, p, dir);
    }
  }

  lemma {:induction false} LinkTurn(config: RestoreConfig, env: Env, store: Snapshot, s: State, d: Details, p: Path,
                                    dir: Bytes)
    requires Rooted(s.fs) && Expand(s.dir, Get(d, NAME)) == Some((p, dir)) && p != ROOT && FurtherLink(s, d)
    ensures var r := RestoreEntry(config, env, store, s, d);
            && (r.Turned? <==> GoesOn(store, config.repo, s, d, p))
            && (r.Turned? ==> Rooted(r.s.fs) && r.s.dir == dir && LineDone(config, env, store, s, r.s, d, p))
  {
    hide Expand, Make, Placed, Relinked, Removed, Strtoull, Get, Rooted, IsDir, HasParent, HasEntries, MadeAs, Asked,
         PassedOver, IsDirEntry, RFind;
    var fs := Removed(s.fs, env, Tmp(p));
    RemovedClears(s.fs, env, p);
    TmpFacts(p);
    SameLooks(s.fs, fs, p, p);
    assert TmpClear(s.fs, p) <==> Tmp(p) !in fs.names;
    var source := s.inodes[Strtoull(Get(d, "inode"))];
    RelinkedAny(env, fs, source, p);
    if source != Tmp(p) {
      SameLooks(s.fs, fs, p, source);
    }
  }

  lemma {:induction false} IdleTurn(config: RestoreConfig, env: Env, store: Snapshot, s: State, d: Details, p: Path,
                                    dir: Bytes)
    requires Rooted(s.fs) && Expand(s.dir, Get(d, NAME)) == Some((p, dir)) && p != ROOT && !FurtherLink(s, d)
    requires PassedOver(d) || (IsDirEntry(d) && p in s.fs.names)
    ensures var r := RestoreEntry(config, env, store, s, d);
            && (r.Turned? <==> GoesOn(store, config.repo, s, d, p))
            && (r.Turned? ==> Rooted(r.s.fs) && r.s.dir == dir && LineDone(config, env, store, s, r.s, d, p))
  {
    hide Expand, Make, Placed, Relinked, Removed, Strtoull, Get, Rooted, IsDir, HasParent, HasEntries, MadeAs, Asked,
         PassedOver, IsDirEntry, RFind;
    RemovedClears(s.fs, env, p);
    TmpFacts(p);
    NothingMade(config, env, store, Removed(s.fs, env, Tmp(p)), d, p);
  }

  lemma {:induction false} FileTurn(config: RestoreConfig, env: Env, store: Snapshot, s: State, d: Details, p: Path,
                                    dir: Bytes)
    requires Rooted(s.fs) && Expand(s.dir, Get(d, NAME)) == Some((p, dir)) && p != ROOT && !FurtherLink(s, d)
    requires !PassedOver(d) && !(IsDirEntry(d) && p in s.fs.names)
    ensures var r := RestoreEntry(config, env, store, s, d);
            && (r.Turned? <==> GoesOn(store, config.repo, s, d, p))
            && (r.Turned? ==> Rooted(r.s.fs) && r.s.dir == dir && LineDone(config, env, store, s, r.s, d, p))
  {
    hide Expand, Make, Placed, Relinked, Removed, Strtoull, Get, Rooted, IsDir, HasParent, HasEntries, MadeAs, Asked,
         PassedOver, IsDirEntry, RFind;
    var fs := Removed(s.fs, env, Tmp(p));
    RemovedClears(s.fs, env, p);
    TmpFacts(p);
    SameLooks(s.fs, fs, p, p);
    assert TmpClear(s.fs, p) <==> Tmp(p) !in fs.names;
    NewFile(config, env, store, s, fs, d, p);
  }

  lemma {:induction false} NothingMade(config: RestoreConfig, env: Env, store: Snapshot, fs: Fs, d: Details, p: Path)
    requires PassedOver(d) || (IsDirEntry(d) && p in fs.names)
    ensures Make(config, env, store, fs, d, p, Tmp(p)) == Passed(fs)
  {
    TypesDiffer();
  }

  /** A line that asks for a new file. */
  lemma {:induction false} NewFile(config: RestoreConfig, env: Env, store: Snapshot, s: State, fs: Fs, d: Details,
                                   p: Path)
    requires Rooted(fs) && !PassedOver(d) && !(IsDirEntry(d) && p in fs.names) && p != ROOT
    requires fs.next == s.fs.next && (Tmp(p) in fs.names ==> IsDir(fs, Tmp(p)))
    ensures var r := Make(config, env, store, fs, d, p, Tmp(p));
            var kind := Asked(store, config.repo, d);
            && !r.Passed?
            && (r.Done? ==> kind.Some?)
            && ((r.Done? && Placed(config, env, r.fs, d, p, Tmp(p)).Some?) <==>
                (kind.Some? && Tmp(p) !in fs.names && HasParent(fs, p) && !IsDir(fs, p)))
            && (r.Done? && Placed(config, env, r.fs, d, p, Tmp(p)).Some? ==>
                  var after := Placed(config, env, r.fs, d, p, Tmp(p)).value;
                  && Rooted(after) && p in after.names && after.names[p] == fs.next
                  && fs.next in after.nodes && fs.next in after.times
                  && MadeAs(config, env, d, after.nodes[fs.next], after.times[fs.next], kind.value))
  {
    hide Make, Placed, HasParent, IsDir, MadeAs, Fresh, Parent;
    var tmp, kind := Tmp(p), Asked(store, config.repo, d);
    TmpFacts(p);
    if tmp !in fs.names {
      MakeAsked(config, env, store, fs, d, p);
      SameParent(fs, tmp, p);
      var r := Make(config, env, store, fs, d, p, tmp);
      if r.Done? {
        FolderIsAsked(store, config.repo, d);
        PlacedNew(config, env, fs, r.fs, d, p, kind.value, env.born(fs.tick));
        if Placed(config, env, r.fs, d, p, tmp).Some? {
          var after := Placed(config, env, r.fs, d, p, tmp).value;
          assert forall m :: m in fs.nodes ==> m != fs.next;
          OneMoreRooted(fs, after, p, fs.next);
        }
      }
    } else {
      MakeBlocked(config, env, store, fs, d, p);
    }
  }

  lemma {:induction false} FolderIsAsked(store: Snapshot, repo: Path, d: Details)
    ensures Asked(store, repo, d) == Some(Folder) ==> IsDirEntry(d)
  {
    hide StorePath, HashOfHex;
  }

  /** A directory with entries under the temporary name is in the way. */
  lemma {:induction false} MakeBlocked(config: RestoreConfig, env: Env, store: Snapshot, fs: Fs, d: Details, p: Path)
    requires Tmp(p) in fs.names && !PassedOver(d) && !(IsDirEntry(d) && p in fs.names)
    requires IsDir(fs, Tmp(p))
    ensures Make(config, env, store, fs, d, p, Tmp(p)).Thrown?
  {
    hide StorePath, HashOfHex;
    TypesDiffer();
  }

  // A whole run --------------------------------------------------------------------------------

  /** The line was done, or it is a relative name that follows no line. */
  ghost predicate Step(config: RestoreConfig, env: Env, store: Snapshot, s: State, d: Details, after: State)
  {
    match Expand(s.dir, Get(d, NAME))
    case None => after == s
    case Some((p, dir)) =>
      && GoesOn(store, config.repo, s, d, p) && LineDone(config, env, store, s, after, d, p)
      && after.dir == dir
  }

  ghost predicate Stopped(store: Snapshot, repo: Path, s: State, d: Details)
  {
    match Expand(s.dir, Get(d, NAME))
    case None => false
    case Some((p, _)) => !GoesOn(store, repo, s, d, p)
  }

  /** The states before, between and after the first lines. */
  ghost predicate Steps(config: RestoreConfig, env: Env, store: Snapshot, states: seq<State>, entries: seq<Details>)
  {
    && 0 < |states| <= |entries| + 1
    && forall i :: 0 <= i < |states| - 1 ==> Step(config, env, store, states[i], entries[i], states[i + 1])
  }

  /** No line is for the root itself. */
  ghost predicate Proper(entries: seq<Details>)
  {
    forall d :: d in entries ==> Get(d, NAME) != ROOT
  }

  lemma {:induction false} ProperPath(dir: Bytes, name: Bytes)
    requires name != ROOT && Expand(dir, name).Some?
    ensures Expand(dir, name).value.0 != ROOT
  {
    hide RFind;
    assert |ROOT| == 1;
  }

  lemma {:induction false} StepsCons(config: RestoreConfig, env: Env, store: Snapshot, s: State, d: Details,
                                     states: seq<State>, entries: seq<Details>)
    requires Steps(config, env, store, states, entries) && Step(config, env, store, s, d, states[0])
    ensures Steps(config, env, store, [s] + states, [d] + entries)
  {
    hide Step;
    var all, lines := [s] + states, [d] + entries;
    forall i | 0 <= i < |all| - 1
      ensures Step(config, env, store, all[i], lines[i], all[i + 1])
    {
      if i > 0 {
        assert Step(config, env, store, states[i - 1], entries[i - 1], states[i]);
      }
    }
  }

  /** One turn, of a line for the root or not at all. */
  lemma {:induction false} OneStep(config: RestoreConfig, env: Env, store: Snapshot, s: State, d: Details)
    requires Rooted(s.fs) && Get(d, NAME) != ROOT
    ensures match RestoreEntry(config, env, store, s, d)
            case Turned(t) => Rooted(t.fs) && Step(config, env, store, s, d, t)
            case Ended(_, _) => Stopped(store, config.repo, s, d)
  {
    hide Expand, GoesOn, LineDone, Rooted, Get, RestoreEntry;
    var expanded := Expand(s.dir, Get(d, NAME));
    if expanded.None? {
      NoName(config, env, store, s, d);
    } else {
      var (p, dir) := expanded.value;
      ProperPath(s.dir, Get(d, NAME));
      AnyTurn(config, env, store, s, d, p, dir);
    }
  }

  lemma {:induction false} NoName(config: RestoreConfig, env: Env, store: Snapshot, s: State, d: Details)
    requires Expand(s.dir, Get(d, NAME)).None?
    ensures RestoreEntry(config, env, store, s, d) == Turned(s)
  {
    hide Expand, Get;
  }

  /** The loop goes through all lines, each done in its turn, unless it comes to
      one that cannot be made; and there it stops. */
  lemma {:induction false} AnyRun(config: RestoreConfig, env: Env, store: Snapshot, s: State, entries: seq<Details>)
    returns (states: seq<State>)
    requires Rooted(s.fs) && Proper(entries)
    ensures Steps(config, env, store, states, entries) && states[0] == s
    ensures match RestoreEntries(config, env, store, s, entries)
            case Turned(t) => |states| == |entries| + 1 && states[|entries|] == t
            case Ended(_, _) =>
              |states| <= |entries| && Stopped(store, config.repo, states[|states| - 1], entries[|states| - 1])
    decreases |entries|
  {
    hide Step, Stopped, Rooted, RestoreEntry, Get;
    states := [s];
    if entries != [] {
      var d, rest := entries[0], entries[1..];
      assert entries == [d] + rest && d in entries && forall x :: x in rest ==> x in entries;
      OneStep(config, env, store, s, d);
      if RestoreEntry(config, env, store, s, d).Turned? {
        var more := AnyRun(config, env, store, RestoreEntry(config, env, store, s, d).s, rest);
        StepsCons(config, env, store, s, d, more, rest);
        states := [s] + more;
      }
    }
  }

  /** A restore of any text to any target that reports no failure has read a
      complete index and done every line of it: no line was left unmade for want
      of its object, or for anything in its way. */
  lemma {:induction false} NothingLeftUnmade(config: RestoreConfig, env: Env, store: Snapshot, text: Bytes, start: Fs)
    returns (states: seq<State>)
    requires Rooted(start) && Proper(ReadAll(text).entries)
    ensures Restoration(config, env, store, text, start).0.None? ==>
              var entries := ReadAll(text).entries;
              && ReadAll(text).Complete() && |states| == |entries| + 1
              && states[0] == State(start, [], map[], []) && Steps(config, env, store, states, entries)
              && Restoration(config, env, store, text, start).1.names == states[|entries|].fs.names
              && Restoration(config, env, store, text, start).1.nodes == states[|entries|].fs.nodes
  {
    hide ReadAll, RestoreEntries, Steps, Rooted, Proper, SetDirTimes;
    var begin := State(start, [], map[], []);
    states := AnyRun(config, env, store, begin, ReadAll(text).entries);
    var r := RestoreEntries(config, env, store, begin, ReadAll(text).entries);
    if r.Turned? {
      OnlyTimes(r.s.fs, r.s.dirtimes);
    }
  }

  lemma {:induction false} OnlyTimes(fs: Fs, stamps: seq<DirStamp>)
    ensures SetDirTimes(fs, stamps).1.names == fs.names && SetDirTimes(fs, stamps).1.nodes == fs.nodes
    decreases |stamps|
  {
    if stamps != [] && Stamped(fs, stamps[0].dir, stamps[0].atime, stamps[0].mtime).Some? {
      OnlyTimes(Stamped(fs, stamps[0].dir, stamps[0].atime, stamps[0].mtime).value, stamps[1..]);
    }
  }
}
