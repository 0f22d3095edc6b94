/** The restore (restore.cc): a loop over the lines of an index that makes one
    file after another under a temporary name and renames it into place, and
    then puts the times of the directories right. */
module Restore {
  import opened Bytes
  import opened UrlCodec
  import opened Numbers
  import opened IndexLine
  import opened IndexText
  import opened Names
  import opened Records
  import opened BufferedFile
  import opened Repository
  import opened Target

  const RESTORE_SUFFIX: Bytes := "~restore~"

  datatype RestoreConfig = RestoreConfig(repo: Path, permissions: bool)

  datatype RestoreFailure =
    | NoIndex
    | Malformed(error: CodecError)
    | FileFailure(path: Path)
    | Unsupported(kind: Bytes)

  datatype DirStamp = DirStamp(dir: Path, atime: nat, mtime: nat)

  /** The variables of the loop. */
  datatype State = State(fs: Fs, dir: Bytes, inodes: map<nat, Path>, dirtimes: seq<DirStamp>)

  /** What `details[key]` gives: nothing for a key that is not there. */
  function Get(d: Details, key: Bytes): Bytes { if key in d then d[key] else [] }

  /** A file was made, or this entry is passed over, or an exception ends the
      restore. */
  datatype Making = Done(fs: Fs) | Passed(fs: Fs) | Thrown(failure: RestoreFailure, fs: Fs)

  function MakingOf(r: Option<Fs>, p: Path, fs: Fs): Making
  {
    match r
    case None => Thrown(FileFailure(p), fs)
    case Some(after) => Done(after)
  }

  function MakeTyped(fs: Fs, env: Env, d: Details, kind: Bytes, fullname: Path, tmpname: Path): Making
  {
    if kind == "link" then MakingOf(Made(fs, env, tmpname, Link(Get(d, "target"))), tmpname, fs)
    else if kind == "dir" then
      if fullname in fs.names then Passed(fs) else MakingOf(Made(fs, env, tmpname, Folder), tmpname, fs)
    else if kind == "chr" || kind == "blk" || kind == "socket" then Thrown(Unsupported(kind), fs)
    else Passed(fs)
  }

  function MakeFromData(fs: Fs, env: Env, data: Bytes, tmpname: Path): Making
  {
    match Opened(fs, env, tmpname)
    case None => Thrown(FileFailure(tmpname), fs)
    case Some(after) => OpenedIsPlain(fs, env, tmpname); Done(Appended(after, tmpname, data))
  }

  function MakeFromStore(fs: Fs, env: Env, store: Snapshot, repo: Path, hex: Bytes, tmpname: Path): Making
  {
    match HashOfHex(hex)
    case Err(e) => Thrown(Malformed(e), fs)
    case Ok(h) =>
      match Opened(fs, env, tmpname)
      case None => Thrown(FileFailure(tmpname), fs)
      case Some(after) =>
        OpenedIsPlain(fs, env, tmpname);
        var hp := StorePath(repo, h);
        if hp in store then Done(Appended(after, tmpname, store[hp])) else Thrown(FileFailure(hp), after)
  }

  function Make(config: RestoreConfig, env: Env, store: Snapshot, fs: Fs, d: Details, fullname: Path,
                tmpname: Path): Making
  {
    if "type" in d then MakeTyped(fs, env, d, d["type"], fullname, tmpname)
    else if "data" in d then MakeFromData(fs, env, d["data"], tmpname)
    else if HASH_NAME in d then MakeFromStore(fs, env, store, config.repo, d[HASH_NAME], tmpname)
    else Passed(fs)
  }

  predicate IsLinkEntry(d: Details) { "type" in d && d["type"] == "link" }

  predicate IsDirEntry(d: Details) { "type" in d && d["type"] == "dir" }

  /** Ownership, permissions and times of the file just made, then its rename
      into place. */
  function Placed(config: RestoreConfig, env: Env, fs: Fs, d: Details, fullname: Path, tmpname: Path): Option<Fs>
  {
    var owned := if config.permissions then Chowned(fs, tmpname, Get(d, "uid"), Get(d, "gid")) else Some(fs);
    if owned.None? then None
    else
      var moded := if config.permissions && !IsLinkEntry(d)
                   then Chmodded(owned.value, tmpname, StrtolOctal(Get(d, "perms")))
                   else owned;
      if moded.None? then None
      else
        var timed := if IsLinkEntry(d) || IsDirEntry(d) then moded
                     else Stamped(moded.value, tmpname, Strtoull(Get(d, "atime")), Strtoull(Get(d, "mtime")));
        if timed.None? then None else Renamed(timed.value, env, tmpname, fullname)
  }

  /** One more link to a file that is there. */
  function Relinked(env: Env, fs: Fs, source: Path, fullname: Path, tmpname: Path): Option<Fs>
  {
    match Linked(fs, env, source, tmpname)
    case None => None
    case Some(after) => Renamed(after, env, tmpname, fullname)
  }

  datatype Turn = Turned(s: State) | Ended(failure: RestoreFailure, fs: Fs)

  /** One turn of the loop. */
  function RestoreEntry(config: RestoreConfig, env: Env, store: Snapshot, s: State, d: Details): Turn
  {
    hide *;
    match Expand(s.dir, Get(d, NAME))
    case None => Turned(s)
    case Some((fullname, dir)) =>
      var tmpname := fullname + RESTORE_SUFFIX;
      var fs := Removed(s.fs, env, tmpname);
      var num := Strtoull(Get(d, "inode"));
      if "inode" in d && num in s.inodes then
        match Relinked(env, fs, s.inodes[num], fullname, tmpname)
        case None => Ended(FileFailure(fullname), fs)
        case Some(after) => Turned(s.(fs := after, dir := dir))
      else
        match Make(config, env, store, fs, d, fullname, tmpname)
        case Thrown(failure, after) => Ended(failure, after)
        case Passed(after) => Turned(s.(fs := after, dir := dir))
        case Done(after) =>
          match Placed(config, env, after, d, fullname, tmpname)
          case None => Ended(FileFailure(fullname), after)
          case Some(placed) =>
            Turned(State(placed, dir, if "inode" in d && "type" !in d then s.inodes[num := fullname] else s.inodes,
                         if IsDirEntry(d)
                         then s.dirtimes + [DirStamp(fullname, Strtoull(Get(d, "atime")), Strtoull(Get(d, "mtime")))]
                         else s.dirtimes))
  }

  /** The loop over entries that have been read. */
  function RestoreEntries(config: RestoreConfig, env: Env, store: Snapshot, s: State, entries: seq<Details>): Turn
    decreases |entries|
  {
    hide *;
    if entries == [] then Turned(s)
    else
      match RestoreEntry(config, env, store, s, entries[0])
      case Ended(failure, fs) => Ended(failure, fs)
      case Turned(after) => RestoreEntries(config, env, store, after, entries[1..])
  }

  /** The times of the directories, now that all contents are there. */
  function SetDirTimes(fs: Fs, stamps: seq<DirStamp>): (Option<RestoreFailure>, Fs)
    decreases |stamps|
  {
    if stamps == [] then (None, fs)
    else
      match Stamped(fs, stamps[0].dir, stamps[0].atime, stamps[0].mtime)
      case None => (Some(FileFailure(stamps[0].dir)), fs)
      case Some(after) => SetDirTimes(after, stamps[1..])
  }

  /** The whole restore of an index.  It ends well only if the index is
      complete; before an exception the entries up to there were restored. */
  function Restoration(config: RestoreConfig, env: Env, store: Snapshot, text: Bytes,
                       start: Fs): (r: (Option<RestoreFailure>, Fs))
  {
    hide *;
    var read := ReadAll(text);
    match RestoreEntries(config, env, store, State(start, [], map[], []), read.entries)
    case Ended(failure, fs) => (Some(failure), fs)
    case Turned(s) =>
      if read.error.Some? then (Some(Malformed(read.error.value)), s.fs) else SetDirTimes(s.fs, s.dirtimes)
  }

  // The program ------------------------------------------------------------------------

  /** The copying loop, from the store to the temporary file. */
  method CopyFromStore(backupfs: Storage, hp: Path, tmpname: Path, start: Fs) returns (fs: Fs)
    requires hp in backupfs.files && IsPlain(start, tmpname)
    ensures fs == Appended(start, tmpname, backupfs.files[hp])
  {
    hide File.Rest, Appended, IsPlain;
    ghost var content := backupfs.files[hp];
    var src := new File(backupfs, hp);
    fs := start;
    ghost var n := 0;
    AppendedNothing(start, tmpname);
    assert content[..0] == [] && content[0..] == content;
    var buffer := src.GetBytes(BUFFER_SIZE, false);
    while buffer != []
      modifies src, src.buffer
      invariant src.Valid() && src.mode == Reading && src.Truthful() && src.fs == backupfs && src.path == hp
      invariant n + |buffer| <= |content| && buffer <= content[n..]
      invariant src.Rest() == content[n + |buffer|..] && (buffer == [] ==> n == |content|)
      invariant IsPlain(fs, tmpname) && fs == Appended(start, tmpname, content[..n])
      decreases |content| - n
    {
      AppendedTwice(start, tmpname, content[..n], buffer);
      AppendedTwice(fs, tmpname, buffer, []);
      assert content[..n] + buffer == content[..n + |buffer|];
      fs := Appended(fs, tmpname, buffer);
      n := n + |buffer|;
      buffer := src.GetBytes(BUFFER_SIZE, false);
      DropTwice(content, n, |buffer|);
    }
    assert content[..n] == content;
  }

  method MakeRegular(config: RestoreConfig, env: Env, backupfs: Storage, fs: Fs, d: Details,
                     tmpname: Path) returns (r: Making)
    requires "type" !in d
    ensures r == Make(config, env, backupfs.files, fs, d, [], tmpname)
  {
    hide Opened, Appended, IsPlain, StorePath, HashOfHex;
    if "data" in d {
      var dst := Opened(fs, env, tmpname);
      if dst.None? {
        return Thrown(FileFailure(tmpname), fs);
      }
      OpenedIsPlain(fs, env, tmpname);
      return Done(Appended(dst.value, tmpname, d["data"]));
    } else if HASH_NAME in d {
      var h := HashDecode(d[HASH_NAME]);
      if h.Err? {
        return Thrown(Malformed(h.error), fs);
      }
      var hashpath := HashPath(h.value);
      var hp := StoreRoot(config.repo) + "/" + hashpath;
      assert hp == StorePath(config.repo, h.value) by { StorePathIs(config.repo, h.value); }
      var dst := Opened(fs, env, tmpname);
      if dst.None? {
        return Thrown(FileFailure(tmpname), fs);
      }
      OpenedIsPlain(fs, env, tmpname);
      if hp !in backupfs.files {
        return Thrown(FileFailure(hp), dst.value);
      }
      var copied := CopyFromStore(backupfs, hp, tmpname, dst.value);
      return Done(copied);
    } else {
      return Passed(fs);
    }
  }

  /** Fixes ownership, permissions and times and renames into place. */
  method Place(config: RestoreConfig, env: Env, start: Fs, d: Details, fullname: Path,
               tmpname: Path) returns (r: Option<Fs>)
    ensures r == Placed(config, env, start, d, fullname, tmpname)
  {
    hide Chowned, Chmodded, Stamped, Renamed, Get, StrtolOctal, Strtoull;
    var fs := start;
    var mode := StrtolOctal(Get(d, "perms"));
    if config.permissions {
      var owned := Chowned(fs, tmpname, Get(d, "uid"), Get(d, "gid"));
      if owned.None? { return None; }
      fs := owned.value;
    }
    if !IsLinkEntry(d) {
      if config.permissions {
        var moded := Chmodded(fs, tmpname, mode);
        if moded.None? { return None; }
        fs := moded.value;
      }
      if !IsDirEntry(d) {
        var timed := Stamped(fs, tmpname, Strtoull(Get(d, "atime")), Strtoull(Get(d, "mtime")));
        if timed.None? { return None; }
        fs := timed.value;
      }
    }
    return Renamed(fs, env, tmpname, fullname);
  }

  /** The body of the loop. */
  method RestoreLine(config: RestoreConfig, env: Env, backupfs: Storage, start: Fs, dir0: Bytes,
                     inodes0: map<nat, Path>, dirtimes0: seq<DirStamp>, details: Details)
    returns (failure: Option<RestoreFailure>, fs: Fs, dir: Bytes, inodes: map<nat, Path>, dirtimes: seq<DirStamp>)
    ensures RestoreEntry(config, env, backupfs.files, State(start, dir0, inodes0, dirtimes0), details) ==
            if failure.Some? then Ended(failure.value, fs) else Turned(State(fs, dir, inodes, dirtimes))
  {
    hide Expand, Make, Placed, Removed, Strtoull, RFind, Linked, Renamed, Get;
    failure, fs, dir, inodes, dirtimes := None, start, dir0, inodes0, dirtimes0;
    var expanded := Expand(dir, Get(details, NAME));
    if expanded.None? {
      return;
    }
    var fullname := expanded.value.0;
    dir := expanded.value.1;
    var tmpname := fullname + RESTORE_SUFFIX;
    fs := Removed(fs, env, tmpname);
    var inodenum := Strtoull(Get(details, "inode"));
    if "inode" in details && inodenum in inodes {
      var linked := Linked(fs, env, inodes[inodenum], tmpname);
      if linked.None? {
        failure := Some(FileFailure(fullname));
        return;
      }
      var renamed := Renamed(linked.value, env, tmpname, fullname);
      if renamed.None? {
        failure := Some(FileFailure(fullname));
        return;
      }
      fs := renamed.value;
      return;
    }
    var making := MakeEntry(config, env, backupfs, fs, details, fullname, tmpname);
    fs := making.fs;
    match making {
      case Thrown(why, _) =>
        failure := Some(why);
      case Passed(_) =>
      case Done(_) =>
        if "inode" in details && "type" !in details {
          inodes := inodes[inodenum := fullname];
        }
        if IsDirEntry(details) {
          dirtimes := dirtimes + [DirStamp(fullname, Strtoull(Get(details, "atime")), Strtoull(Get(details, "mtime")))];
        }
        var placed := Place(config, env, fs, details, fullname, tmpname);
        if placed.None? {
          failure := Some(FileFailure(fullname));
          return;
        }
        fs := placed.value;
    }
  }

  method MakeEntry(config: RestoreConfig, env: Env, backupfs: Storage, fs: Fs, d: Details, fullname: Path,
                   tmpname: Path)
    returns (r: Making)
    ensures r == Make(config, env, backupfs.files, fs, d, fullname, tmpname)
  {
    hide Made, MakeFromData, MakeFromStore;
    if "type" !in d {
      r := MakeRegular(config, env, backupfs, fs, d, tmpname);
    } else if d["type"] == "link" {
      r := MakingOf(Made(fs, env, tmpname, Link(Get(d, "target"))), tmpname, fs);
    } else if d["type"] == "dir" {
      if fullname in fs.names {
        r := Passed(fs);
      } else {
        r := MakingOf(Made(fs, env, tmpname, Folder), tmpname, fs);
      }
    } else if d["type"] == "chr" || d["type"] == "blk" || d["type"] == "socket" {
      r := Thrown(Unsupported(d["type"]), fs);
    } else {
      r := Passed(fs);
    }
  }

  method DoRestore(config: RestoreConfig, env: Env, backupfs: Storage, indexfile: Path, start: Fs)
    returns (failure: Option<RestoreFailure>, fs: Fs)
    ensures indexfile !in backupfs.files ==> failure == Some(NoIndex) && fs == start
    ensures indexfile in backupfs.files ==>
              (failure, fs) == Restoration(config, env, backupfs.files, backupfs.files[indexfile], start)
  {
    hide File.Rest, RestoreEntry, ReadAll, Parsed, NextLine, Stamped;
    fs := start;
    if indexfile !in backupfs.files {
      return Some(NoIndex), fs;
    }
    var f := new File(backupfs, indexfile);
    ghost var store, all := backupfs.files, ReadAll(backupfs.files[indexfile]);
    ghost var begin := State(start, [], map[], []);
    var dir: Bytes := [];
    var inodes: map<nat, Path> := map[];
    var dirtimes: seq<DirStamp> := [];
    while true
      modifies f, f.buffer
      invariant f.Valid() && f.mode != Writing && f.Truthful() && f.fs == backupfs && f.path == indexfile
      invariant RestoreEntries(config, env, store, begin, all.entries) ==
                RestoreEntries(config, env, store, State(fs, dir, inodes, dirtimes), ReadAll(f.Rest()).entries)
      invariant all.error == ReadAll(f.Rest()).error
      decreases |f.Rest()|
    {
      ReadStep(f.Rest());
      var got, line := f.GetLine();
      if !got {
        return Some(Malformed(BadIndexFile(UNEXPECTED_END))), fs;
      }
      if line == END_MARK {
        break;
      }
      var details := ParseIndexLine(line);
      if details.Err? {
        return Some(Malformed(details.error)), fs;
      }
      EntriesStep(config, env, store, State(fs, dir, inodes, dirtimes), details.value, ReadAll(f.Rest()).entries);
      failure, fs, dir, inodes, dirtimes :=
        RestoreLine(config, env, backupfs, fs, dir, inodes, dirtimes, details.value);
      if failure.Some? {
        return;
      }
    }
    failure := None;
    ghost var s := fs;
    for n := 0 to |dirtimes|
      invariant SetDirTimes(s, dirtimes) == SetDirTimes(fs, dirtimes[n..])
    {
      assert dirtimes[n..][0] == dirtimes[n] && dirtimes[n..][1..] == dirtimes[n + 1..];
      var stamped := Stamped(fs, dirtimes[n].dir, dirtimes[n].atime, dirtimes[n].mtime);
      if stamped.None? {
        return Some(FileFailure(dirtimes[n].dir)), fs;
      }
      fs := stamped.value;
    }
  }

  lemma {:induction false} EntriesStep(config: RestoreConfig, env: Env, store: Snapshot, s: State, d: Details,
                                       more: seq<Details>)
    ensures RestoreEntries(config, env, store, s, [d] + more) ==
            match RestoreEntry(config, env, store, s, d)
            case Ended(failure, fs) => Ended(failure, fs)
            case Turned(after) => RestoreEntries(config, env, store, after, more)
  {
    hide RestoreEntry;
    assert ([d] + more)[1..] == more;
  }
}
