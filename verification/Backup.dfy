/** The backup (backup.cc): it walks the tree, writes the index line by line
    and fills the store at the end of each directory.  Hints and the restoring
    of access times are left out. */
module Backup {
  import opened Bytes
  import opened UrlCodec
  import opened Numbers
  import opened IndexLine
  import opened IndexText
  import opened Names
  import opened Walk
  import opened Records
  import opened BufferedFile
  import opened Repository
  import opened HashSet
  import opened Sha1
  import HashFile
  import Sha1Spec

  datatype Config = Config(repo: Path, root: Path, indexfile: Path, overwriteIndex: bool, recheckHash: bool,
                           opts: Options)

  datatype Failure =
    | IndexExists
    | NoSuchFile(path: Path)
    | UnexpectedEof(path: Path)
    | HashError(code: int)
    | ChangedHash(path: Path)

  const MINMAP: nat := 0x4_0000

  function FullName(root: Path, p: Path): Path { root + "/" + p }

  /** The listing of a directory names every entry, each once, in any order.
      It may also hold the links to the directory and its parent, and names of
      files that are gone. */
  ghost predicate Lists(tree: Tree, dir: Path, listing: seq<Name>)
  {
    && (forall i, j :: 0 <= i < j < |listing| ==> listing[i] != listing[j])
    && (forall n :: n in listing ==> n == "." || n == ".." || ValidName(n))
    && (forall p :: p in tree && Parent(p) == dir ==> BaseName(p) in listing)
  }

  ghost predicate IsDirectory(tree: Tree, dir: Path) { dir == ROOT || (dir in tree && tree[dir].Directory?) }

  /** The host as the backup meets it: its listings, and the contents of its
      regular files.  Between hashing and copying a file may change, but only
      if the copy is to be checked. */
  ghost predicate HostShows(config: Config, tree: Tree, listings: map<Path, seq<Name>>, scanned: Snapshot,
                            copied: Snapshot)
  {
    && (forall dir :: IsDirectory(tree, dir) ==> dir in listings && Lists(tree, dir, listings[dir]))
    && (forall p :: p in tree && tree[p].Regular? ==>
                      FullName(config.root, p) in scanned && scanned[FullName(config.root, p)] == tree[p].content)
    && (!config.recheckHash ==>
          forall p :: p in tree && tree[p].Regular? && FullName(config.root, p) in copied ==>
                        copied[FullName(config.root, p)] == tree[p].content)
  }

  ghost predicate Undisturbed(root: Path, tree: Tree, copied: Snapshot)
  {
    forall p :: p in tree && tree[p].Regular? ==>
                  && |tree[p].content| < Sha1Spec.LIMIT
                  && FullName(root, p) in copied && copied[FullName(root, p)] == tree[p].content
  }

  /** The hash of a file too large for the index is among those known. */
  ghost predicate HashKnown(e: Entry, known: set<Digest>)
  {
    e.Regular? && |e.content| > STORE_LIMIT ==>
      HashFile.Hashed(e.content).Ok? && HashFile.Hashed(e.content).value in known
  }

  ghost predicate Covered(tree: Tree, lines: seq<Line>, known: set<Digest>)
    requires AllInTree(tree, lines)
  {
    forall i :: 0 <= i < |lines| ==> HashKnown(tree[lines[i].path], known)
  }

  /** Every known hash is in the store or waits to be copied, and each that
      waits is known and waits once. */
  ghost predicate Backed(files: Snapshot, repo: Path, known: set<Digest>, pending: seq<Hashable>)
  {
    && (forall h :: h in known ==> Stored(files, repo, h) || exists i :: 0 <= i < |pending| && pending[i].hash == h)
    && (forall i :: 0 <= i < |pending| ==> pending[i].hash in known)
    && NotedOnce(repo, pending)
  }

  lemma {:induction false} BackedMore(files: Snapshot, repo: Path, known: set<Digest>, pending: seq<Hashable>,
                                      x: Hashable)
    requires Backed(files, repo, known, pending) && x.hash !in known && x.hp == StorePath(repo, x.hash)
    ensures Backed(files, repo, known + {x.hash}, pending + [x])
  {
    hide Stored, StorePath;
    var more := pending + [x];
    forall h | h in known + {x.hash}
      ensures Stored(files, repo, h) || exists i :: 0 <= i < |more| && more[i].hash == h
    {
      if i :| 0 <= i < |pending| && pending[i].hash == h {
        assert more[i].hash == h;
      } else if h == x.hash {
        assert more[|pending|].hash == h;
      }
    }
  }

  lemma {:induction false} BackedKept(before: Snapshot, after: Snapshot, repo: Path, known: set<Digest>,
                                      pending: seq<Hashable>)
    requires Backed(before, repo, known, pending) && KeepsStore(before, after, repo)
    ensures Backed(after, repo, known, pending)
  {
    hide StorePath, HashFile.Hashed;
  }

  lemma {:induction false} Pieces(before: Bytes, a: Bytes, b: Bytes, total: Bytes)
    requires before + (a + b) <= total
    ensures before + a <= total && before + a + b <= total && before + a + b == before + (a + b)
  {
    assert before + a + b == before + (a + b);
  }

  class Backup {
    const config: Config
    const tree: Tree
    const listings: map<Path, seq<Name>>
    /** The contents of host files when they are hashed, and later when they
        are copied. */
    const scanned: Storage
    const copied: Storage
    const backupfs: Storage
    const index: File
    /** Hashes known to be in the repository, or about to be. */
    const inrepo: Table
    ghost const job: Job

    constructor (config: Config, tree: Tree, listings: map<Path, seq<Name>>, scanned: Storage, copied: Storage,
                 backupfs: Storage, index: File, inrepo: Table, ghost job: Job)
      ensures this.config == config && this.tree == tree && this.listings == listings
      ensures this.scanned == scanned && this.copied == copied && this.backupfs == backupfs
      ensures this.index == index && this.inrepo == inrepo && this.job == job
    {
      this.config, this.tree, this.listings := config, tree, listings;
      this.scanned, this.copied, this.backupfs := scanned, copied, backupfs;
      this.index, this.inrepo, this.job := index, inrepo, job;
    }

    ghost predicate HostValid()
      reads scanned`files, copied`files
    {
      backupfs != scanned && backupfs != copied && job.repo == config.repo && WellFormed(tree) && HostShown()
    }

    ghost predicate HostShown()
      reads scanned`files, copied`files
    {
      HostShows(config, tree, listings, scanned.files, copied.files)
    }

    /** No file is too long to hash, and none is gone or changed when it is
        copied. */
    ghost predicate Unhindered()
      reads copied`files
    {
      Undisturbed(config.root, tree, copied.files)
    }

    ghost predicate IndexReady()
      reads index, index.fs, backupfs
    {
      index.Valid() && Positioned()
    }

    ghost predicate Positioned()
      reads index, backupfs`files
    {
      && index.fs == backupfs && index.path == job.target && index.mode != Reading && !index.eof
      && !InStore(job.repo, job.target) && Progress(job, backupfs.files)
    }

    /** The copy that is put off is of a file of the tree, to the place of its
        hash. */
    ghost predicate Due(x: Hashable)
    {
      x.hp == StorePath(config.repo, x.hash)
      && exists p :: p in tree && tree[p].Regular? && x.path == FullName(config.root, p)
                     && HashFile.Hashed(tree[p].content) == Ok(x.hash)
    }

    ghost predicate AllDue(pending: seq<Hashable>)
    {
      forall i :: 0 <= i < |pending| ==> Due(pending[i])
    }

    /** Every hash in `inrepo` is in the store or among the copies put off. */
    ghost predicate Noted(pending: seq<Hashable>)
      reads inrepo, inrepo.nodes, inrepo.members, backupfs`files
    {
      inrepo.Valid() && Backed(backupfs.files, config.repo, inrepo.Contents(), pending) && AllDue(pending)
    }

    // Writing the index ---------------------------------------------------------------

    method WriteText(s: Bytes)
      requires IndexReady() && index.Written() + s <= Lines(job.recs)
      modifies index, index.buffer, backupfs
      ensures IndexReady() && index.Written() == old(index.Written()) + s
      ensures Advanced(job, old(backupfs.trace), old(backupfs.files), backupfs.trace, backupfs.files)
    {
      hide Frame, KeepsStore, InStore, Lines, File.Written;
      index.PutString(s);
      var text := backupfs.files[index.path];
      GrowingIsProgress(job, old(backupfs.trace), backupfs.trace, old(backupfs.files), index.Written());
      FrameOfTarget(job.base, old(backupfs.files), job.repo, job.target, text);
      WrittenStartsWithFile();
    }

    lemma {:induction false} WrittenStartsWithFile()
      requires index.Valid()
      ensures index.fs.files[index.path] <= index.Written()
    {
    }

    method FormatGeneric(relname: Bytes, sb: Meta) returns (s: Bytes)
      ensures s == GenericText(relname, sb)
    {
      hide UrlEncoded, More, Octal, Decimal;
      var name := UrlEncode(relname);
      var user := UrlEncode(sb.user);
      var group := UrlEncode(sb.group);
      s := "name=" + name + More("perms", Octal(sb.perms)) + More("uid", user) + More("gid", group)
           + More("atime", Decimal(sb.atime)) + More("ctime", Decimal(sb.ctime)) + More("mtime", Decimal(sb.mtime));
    }

    /** The bytes of a small file, read until there are as many as `lstat`
        said. */
    method ReadSmall(fullname: Path, size: nat) returns (r: Option<Bytes>)
      requires fullname in scanned.files
      ensures r == if size <= |scanned.files[fullname]| then Some(scanned.files[fullname][..size]) else None
    {
      hide File.Rest;
      ghost var content := scanned.files[fullname];
      var f := new File(scanned, fullname);
      var data: Bytes := [];
      while |data| < size
        modifies f, f.buffer
        invariant f.Valid() && f.mode != Writing && f.Truthful() && f.fs == scanned && f.path == fullname
        invariant |data| <= size && data <= content && f.Rest() == content[|data|..]
        decreases size - |data|
      {
        var bytes := f.GetBytes(size - |data|, false);
        if bytes == [] {
          return None;
        }
        ExtendPrefix(content, data, bytes);
        data := data + bytes;
      }
      assert data == content[..size];
      return Some(data);
    }

    /** What is printed about the content of a small file. */
    method FormatSmall(localname: Path) returns (r: Result<Bytes, Failure>)
      requires HostValid() && localname in tree && tree[localname].Regular?
      requires |tree[localname].content| <= STORE_LIMIT
      ensures r == Ok(ContentText(tree[localname].content))
    {
      hide UrlEncoded, More;
      var fullname := FullName(config.root, localname);
      ghost var content := tree[localname].content;
      var data := ReadSmall(fullname, |tree[localname].content|);
      if data.None? {
        return Err(UnexpectedEof(fullname));
      }
      assert data.value == content[..|content|] == content;
      var encoded := UrlEncode(data.value);
      return Ok(More("data", encoded));
    }

    /** A large file is hashed, and unless its hash is known it is noted for
        copying. */
    method FormatLarge(localname: Path, pending: seq<Hashable>)
      returns (r: Result<Bytes, Failure>, more: seq<Hashable>)
      requires HostValid() && localname in tree && tree[localname].Regular? && Noted(pending)
      requires |tree[localname].content| > STORE_LIMIT
      modifies inrepo, inrepo.nodes
      ensures inrepo.Valid() && fresh(inrepo.members - old(inrepo.members))
      ensures r.Ok? ==>
                && r == Ok(ContentText(tree[localname].content)) && HashKnown(tree[localname], inrepo.Contents())
                && Noted(more) && old(inrepo.Contents()) <= inrepo.Contents()
      ensures |tree[localname].content| < Sha1Spec.LIMIT ==> r.Ok?
    {
      hide More, HashFile.Hashed, HostShown, WellFormed, Backed, AllDue, Table.Valid, Table.Contents, FullName,
           Sha1Spec.Digest, StorePath;
      var fullname := FullName(config.root, localname);
      ScannedFile(localname);
      DigestOfHashed(tree[localname].content);
      var h := HashFile.HashWholeFile(scanned, fullname, |tree[localname].content| >= MINMAP);
      if h.Err? {
        return Err(HashError(h.error)), pending;
      }
      more := NoteHash(localname, h.value, pending);
      var hex := HexEncode(h.value);
      return Ok(More(HASH_NAME, hex)), more;
    }

    lemma {:induction false} ScannedFile(localname: Path)
      requires HostValid() && localname in tree && tree[localname].Regular?
      ensures FullName(config.root, localname) in scanned.files
      ensures scanned.files[FullName(config.root, localname)] == tree[localname].content
    {
      hide FullName, Lists, IsDirectory;
    }

    method NoteHash(localname: Path, h: Digest, pending: seq<Hashable>) returns (more: seq<Hashable>)
      requires localname in tree && tree[localname].Regular? && HashFile.Hashed(tree[localname].content) == Ok(h)
      requires Noted(pending)
      modifies inrepo, inrepo.nodes
      ensures fresh(inrepo.members - old(inrepo.members)) && inrepo.Contents() == old(inrepo.Contents()) + {h}
      ensures Noted(more)
    {
      hide Backed, StorePath, FullName, HashFile.Hashed, Table.Valid, Table.Contents;
      var had := inrepo.Has(h);
      if had {
        assert inrepo.Contents() == inrepo.Contents() + {h};
        return pending;
      }
      var hashpath := HashPath(h);
      StorePathIs(config.repo, h);
      var x := Hashable(FullName(config.root, localname), StoreRoot(config.repo) + "/" + hashpath, h);
      assert Due(x);
      BackedMore(backupfs.files, config.repo, inrepo.Contents(), pending, x);
      more := pending + [x];
      inrepo.Insert(h);
    }

    /** The rest of the line of a regular file, once `s` says what its content
        is.  The inode number, if there are more links, lets the restore connect
        them. */
    method WriteRegular(localname: Path, s: Bytes)
      requires HostValid() && IndexReady() && localname in tree && tree[localname].Regular?
      requires s == ContentText(tree[localname].content)
      requires index.Written() + (SpecificText(tree[localname]) + "\n") <= Lines(job.recs)
      modifies index, index.buffer, backupfs
      ensures IndexReady() && index.Written() == old(index.Written()) + (SpecificText(tree[localname]) + "\n")
      ensures Advanced(job, old(backupfs.trace), old(backupfs.files), backupfs.trace, backupfs.files)
    {
      hide HostShown, Positioned, File.Valid, WellFormed, ContentText, Advanced, Lines, File.Written, More, Decimal;
      ghost var e := tree[localname];
      ghost var before, inode := index.Written(), InodeText(e.nlink, e.ino);
      assert SpecificText(e) + "\n" == s + (inode + "\n");
      Pieces(before, s, inode + "\n", Lines(job.recs));
      WriteText(s);
      ghost var t1, files1 := backupfs.trace, backupfs.files;
      Pieces(index.Written(), inode, "\n", Lines(job.recs));
      if tree[localname].nlink > 1 {
        WriteText(More("inode", Decimal(tree[localname].ino)));
      } else {
        assert before + s + inode == before + s;
        AdvancedNowhere(job, backupfs.trace, backupfs.files);
      }
      ghost var t2, files2 := backupfs.trace, backupfs.files;
      WriteText("\n");
      AdvancedOn(job, t1, files1, t2, files2, backupfs.trace, backupfs.files);
      AdvancedOn(job, old(backupfs.trace), old(backupfs.files), t1, files1, backupfs.trace, backupfs.files);
    }

    method PrintRegular(localname: Path, pending: seq<Hashable>)
      returns (more: seq<Hashable>, failure: Option<Failure>)
      requires HostValid() && IndexReady() && Noted(pending) && localname in tree && tree[localname].Regular?
      requires index.Written() + (SpecificText(tree[localname]) + "\n") <= Lines(job.recs)
      modifies index, index.buffer, backupfs, inrepo, inrepo.nodes
      ensures IndexReady() && inrepo.Valid() && fresh(inrepo.members - old(inrepo.members))
      ensures Advanced(job, old(backupfs.trace), old(backupfs.files), backupfs.trace, backupfs.files)
      ensures Unhindered() ==> failure.None?
      ensures failure.None? ==>
                && index.Written() == old(index.Written()) + (SpecificText(tree[localname]) + "\n")
                && Noted(more) && HashKnown(tree[localname], inrepo.Contents())
                && old(inrepo.Contents()) <= inrepo.Contents()
    {
      hide HostShown, Positioned, File.Valid, WellFormed, ContentText, SpecificText, HashKnown, Backed, AllDue,
           Lines, KeepsStore, AllProgress, Table.Valid,
           Table.Contents, File.Written;
      more := pending;
      var r: Result<Bytes, Failure>;
      if |tree[localname].content| <= STORE_LIMIT {
        r := FormatSmall(localname);
        SmallIsKnown(tree[localname], inrepo.Contents());
      } else {
        r, more := FormatLarge(localname, pending);
      }
      if r.Err? {
        AdvancedNowhere(job, backupfs.trace, backupfs.files);
        return more, Some(r.error);
      }
      ghost var files1 := backupfs.files;
      WriteRegular(localname, r.value);
      BackedKept(files1, backupfs.files, config.repo, inrepo.Contents(), more);
      return more, None;
    }

    /** The rest of the line, by the type of the file. */
    method PrintSpecific(localname: Path, pending: seq<Hashable>)
      returns (more: seq<Hashable>, failure: Option<Failure>)
      requires HostValid() && IndexReady() && Noted(pending) && localname in tree
      requires index.Written() + (SpecificText(tree[localname]) + "\n") <= Lines(job.recs)
      modifies index, index.buffer, backupfs, inrepo, inrepo.nodes
      ensures IndexReady() && inrepo.Valid() && fresh(inrepo.members - old(inrepo.members))
      ensures Advanced(job, old(backupfs.trace), old(backupfs.files), backupfs.trace, backupfs.files)
      ensures Unhindered() ==> failure.None?
      ensures failure.None? ==>
                && index.Written() == old(index.Written()) + (SpecificText(tree[localname]) + "\n")
                && Noted(more) && HashKnown(tree[localname], inrepo.Contents())
                && old(inrepo.Contents()) <= inrepo.Contents()
    {
      hide HostShown, Positioned, File.Valid, WellFormed, ContentText, Backed, AllDue, Lines, KeepsStore,
           AllProgress, Table.Valid, Table.Contents, File.Written, More;
      match tree[localname] {
        case Regular(_, _, _, _, _) =>
          more, failure := PrintRegular(localname, pending);
        case Directory(_, _) =>
          more, failure := pending, None;
          WriteText(More("type", "dir") + "\n");
          BackedKept(old(backupfs.files), backupfs.files, config.repo, inrepo.Contents(), more);
        case Symlink(_, _) =>
          more, failure := pending, None;
          var target := UrlEncode(tree[localname].target);
          WriteText(More("target", target) + More("type", "link") + "\n");
          BackedKept(old(backupfs.files), backupfs.files, config.repo, inrepo.Contents(), more);
      }
    }

    /** The name as written: in full at the start of a directory and in the
        root, else relative. */
    method Compress(dir: Path, name: Name, first: bool) returns (relname: Bytes)
      requires ValidName(name)
      ensures relname == RelName(dir, name, first)
    {
      var localname := Join(dir, name);
      SplitJoin(dir, name);
      if first {
        return localname;
      }
      var n := RFind(localname, '/');
      if n.Some? {
        return "./" + localname[n.value + 1..];
      }
      return localname;
    }

    /** One line of the index. */
    method PrintEntry(dir: Path, name: Name, first: bool, pending: seq<Hashable>)
      returns (more: seq<Hashable>, failure: Option<Failure>)
      requires HostValid() && IndexReady() && Noted(pending) && name in ChildNames(tree, config.opts, dir)
      requires Join(dir, name) in tree
      requires index.Written() + TextOf(tree, [Line(Join(dir, name), RelName(dir, name, first))]) <= Lines(job.recs)
      modifies index, index.buffer, backupfs, inrepo, inrepo.nodes
      ensures IndexReady() && inrepo.Valid() && fresh(inrepo.members - old(inrepo.members))
      ensures Advanced(job, old(backupfs.trace), old(backupfs.files), backupfs.trace, backupfs.files)
      ensures Unhindered() ==> failure.None?
      ensures failure.None? ==>
                && index.Written() ==
                   old(index.Written()) + TextOf(tree, [Line(Join(dir, name), RelName(dir, name, first))])
                && Noted(more) && HashKnown(tree[Join(dir, name)], inrepo.Contents())
                && old(inrepo.Contents()) <= inrepo.Contents()
    {
      hide HostShown, Positioned, File.Valid, WellFormed, SpecificText, GenericText, Backed, AllDue, Lines,
           KeepsStore, RelName,
           AllProgress, Table.Valid, Table.Contents, File.Written, HashKnown, RecordsOf, Join, TextOf, ChildNames,
           RecordOf, PrintPairs;
      ghost var files0 := backupfs.files;
      var localname := Join(dir, name);
      ChildPath(tree, config.opts, dir, name);
      var relname := Compress(dir, name, first);
      ghost var sb := tree[localname];
      LineText(tree, Line(localname, relname));
      Pieces(index.Written(), GenericText(relname, sb.meta), SpecificText(sb) + "\n", Lines(job.recs));
      var generic := FormatGeneric(relname, tree[localname].meta);
      WriteText(generic);
      ghost var t1, files1 := backupfs.trace, backupfs.files;
      StillNoted(files0, pending);
      more, failure := PrintSpecific(localname, pending);
      AdvancedOn(job, old(backupfs.trace), old(backupfs.files), t1, files1, backupfs.trace, backupfs.files);
    }

    lemma {:induction false} StillNoted(before: Snapshot, pending: seq<Hashable>)
      requires inrepo.Valid() && Backed(before, config.repo, inrepo.Contents(), pending) && AllDue(pending)
      requires KeepsStore(before, backupfs.files, config.repo)
      ensures Noted(pending)
    {
      hide StorePath, HashFile.Hashed, Table.Valid, Table.Contents;
      BackedKept(before, backupfs.files, config.repo, inrepo.Contents(), pending);
    }

    /** The lines of one directory, in order; `dirs` are the subdirectories to
        enter. */
    method PrintEntries(dir: Path, names: seq<Name>)
      returns (pending: seq<Hashable>, dirs: seq<Path>, failure: Option<Failure>)
      requires HostValid() && IndexReady() && Noted([]) && names == Children(tree, config.opts, dir)
      requires AllInTree(tree, OwnLines(dir, names))
      requires index.Written() + TextOf(tree, OwnLines(dir, names)) <= Lines(job.recs)
      modifies index, index.buffer, backupfs, inrepo, inrepo.nodes
      ensures IndexReady() && inrepo.Valid() && fresh(inrepo.members - old(inrepo.members))
      ensures Advanced(job, old(backupfs.trace), old(backupfs.files), backupfs.trace, backupfs.files)
      ensures Unhindered() ==> failure.None?
      ensures failure.None? ==>
                && index.Written() == old(index.Written()) + TextOf(tree, OwnLines(dir, names))
                && Noted(pending) && Covered(tree, OwnLines(dir, names), inrepo.Contents())
                && old(inrepo.Contents()) <= inrepo.Contents()
                && dirs == Subdirs(tree, config.opts, dir, names)
    {
      hide HostShown, Positioned, File.Valid, WellFormed, Backed, AllDue, Lines, KeepsStore, RelName, Subdirs,
           AllProgress, Advanced, Table.Valid, Table.Contents, File.Written, HashKnown, RecordsOf, Join, TextOf,
           ChildNames,
           RecordOf, PrintPairs, Children, OwnLines, Covered;
      ghost var own, before := OwnLines(dir, names), index.Written();
      pending, dirs, failure := [], [], None;
      AdvancedNowhere(job, backupfs.trace, backupfs.files);
      NoLines(tree, own, inrepo.Contents());
      assert names[0..] == names && own[..0] == [];
      for k := 0 to |names|
        invariant IndexReady() && inrepo.Valid() && fresh(inrepo.members - old(inrepo.members))
        invariant Advanced(job, old(backupfs.trace), old(backupfs.files), backupfs.trace, backupfs.files)
        invariant failure == None && Noted(pending) && old(inrepo.Contents()) <= inrepo.Contents()
        invariant AllInTree(tree, own[..k]) && index.Written() == before + TextOf(tree, own[..k])
        invariant Covered(tree, own[..k], inrepo.Contents())
        invariant Subdirs(tree, config.opts, dir, names) == dirs + Subdirs(tree, config.opts, dir, names[k..])
      {
        ghost var t1, files1, known1 := backupfs.trace, backupfs.files, inrepo.Contents();
        OwnStep(tree, config.opts, dir, names, k);
        LinesStep(tree, own, k, before, Lines(job.recs));
        SubdirsStep(tree, config.opts, dir, names, k);
        pending, failure := PrintEntry(dir, names[k], k == 0, pending);
        AdvancedOn(job, old(backupfs.trace), old(backupfs.files), t1, files1, backupfs.trace, backupfs.files);
        if failure.Some? {
          return;
        }
        CoveredStep(tree, own, k, known1, inrepo.Contents());
        var localname := Join(dir, names[k]);
        if tree[localname].Directory? && (config.opts.crossfs || !tree[localname].mount) {
          dirs := dirs + [localname];
        }
      }
      assert own[..|names|] == own && names[|names|..] == [];
      NoSubdirs(tree, config.opts, dir);
    }

    // Filling the store ----------------------------------------------------------------

    /** `dst`, the only file that changed since `t0`, has taken in the first `n`
        octets of `content`. */
    ghost predicate Copying(dst: File, base: Snapshot, t0: seq<Snapshot>, content: Bytes, n: nat)
      reads dst, dst.fs, dst.buffer, backupfs
    {
      && dst.Valid() && dst.mode != Reading && !dst.eof && dst.fs == backupfs
      && n <= |content| && dst.Written() == content[..n]
      && dst.path in backupfs.files && backupfs.files == base[dst.path := backupfs.files[dst.path]]
      && Growing(t0, backupfs.trace, base, dst.path, content)
    }

    /** Puts one piece, which continues what was put before. */
    method PutPiece(dst: File, ghost base: Snapshot, ghost t0: seq<Snapshot>, ghost content: Bytes, ghost n: nat,
                    piece: Bytes)
      requires Copying(dst, base, t0, content, n) && piece <= content[n..]
      modifies dst, dst.buffer, backupfs
      ensures n + |piece| <= |content| && Copying(dst, base, t0, content, n + |piece|)
    {
      hide Growing, File.Written;
      ghost var t1, mid := backupfs.trace, backupfs.files;
      ExtendPrefix(content, content[..n], piece);
      dst.PutString(piece);
      GrowingOn(t0, t1, backupfs.trace, base, mid, dst.path, content[..n] + piece, content);
    }

    /** The first `n` octets have been read. */
    ghost predicate ReadUpTo(f: File, content: Bytes, n: nat)
      reads f, f.fs, f.buffer
    {
      n <= |content| && f.Valid() && f.mode != Writing && f.Truthful() && f.Rest() == content[n..]
    }

    method ReadNext(f: File, ghost content: Bytes, ghost n: nat) returns (buffer: Bytes)
      requires ReadUpTo(f, content, n)
      modifies f, f.buffer
      ensures |buffer| <= BUFFER_SIZE && buffer <= content[n..] && n + |buffer| <= |content|
      ensures ReadUpTo(f, content, n + |buffer|) && (buffer == [] ==> n == |content|)
    {
      hide File.Rest;
      buffer := f.GetBytes(BUFFER_SIZE, false);
      DropTwice(content, n, |buffer|);
    }

    /** One turn of the copying loop. */
    method CopyPiece(dst: File, hashctx: HashFile.Hash, ghost base: Snapshot, ghost t0: seq<Snapshot>,
                     ghost content: Bytes,
                     ghost n: nat, piece: Bytes) returns (failure: Option<Failure>)
      requires Copying(dst, base, t0, content, n) && piece <= content[n..] && 0 < |piece| < WORD_RANGE
      requires n <= |content| && (config.recheckHash ==> hashctx.Took(content, n))
      requires {hashctx, hashctx.c, hashctx.c.intermediateHash, hashctx.c.messageBlock} !!
               {dst, dst.fs, dst.buffer, backupfs}
      modifies dst, dst.buffer, backupfs, hashctx.c, hashctx.c.intermediateHash, hashctx.c.messageBlock
      ensures n + |piece| <= |content| && Copying(dst, base, t0, content, n + |piece|)
      ensures |content| < Sha1Spec.LIMIT ==> failure.None?
      ensures failure.None? && config.recheckHash ==> hashctx.Took(content, n + |piece|)
    {
      hide HashFile.Hash.Took, Sha1Context.Valid, Copying;
      PutPiece(dst, base, t0, content, n, piece);
      if config.recheckHash {
        var e := hashctx.WriteNext(content, n, piece);
        if e != SHA_SUCCESS {
          return Some(HashError(e));
        }
      }
      return None;
    }

    /** The copying loop: the file goes to `dst` piece by piece, and through the
        hash if that is to be checked. */
    method CopyInto(x: Hashable, dst: File, ghost base: Snapshot,
                    ghost t0: seq<Snapshot>) returns (failure: Option<Failure>)
      requires backupfs != copied && x.path in copied.files && dst.fs == backupfs
      requires Copying(dst, base, t0, copied.files[x.path], 0)
      modifies dst, dst.buffer, backupfs
      ensures exists n: nat :: Copying(dst, base, t0, copied.files[x.path], n)
      ensures HashFile.Hashed(copied.files[x.path]) == Ok(x.hash) ==> failure.None?
      ensures failure.None? ==>
                && Copying(dst, base, t0, copied.files[x.path], |copied.files[x.path]|)
                && (config.recheckHash ==> HashFile.Hashed(copied.files[x.path]) == Ok(x.hash))
    {
      hide HashFile.Hashed, HashFile.Hash.Took, File.Rest, Sha1Context.Valid, Copying, ReadUpTo;
      ghost var content := copied.files[x.path];
      DigestOfHashed(content);
      var f := new File(copied, x.path);
      assert ReadUpTo(f, content, 0) by { ReadingFromStart(f, content); }
      var hashctx := new HashFile.Hash(content);
      failure := None;
      ghost var n := 0;
      var buffer := ReadNext(f, content, 0);
      while buffer != []
        modifies f, f.buffer, dst, dst.buffer, backupfs, hashctx.c, hashctx.c.intermediateHash, hashctx.c.messageBlock
        invariant failure.None? && f.fs == copied && n + |buffer| <= |content| && ReadUpTo(f, content, n + |buffer|)
        invariant |buffer| <= BUFFER_SIZE && buffer <= content[n..] && (buffer == [] ==> n == |content|)
        invariant config.recheckHash ==> hashctx.Took(content, n)
        invariant Copying(dst, base, t0, content, n)
        decreases |content| - n
      {
        failure := CopyPiece(dst, hashctx, base, t0, content, n, buffer);
        n := n + |buffer|;
        if failure.Some? {
          assert Copying(dst, base, t0, content, n);
          return;
        }
        buffer := ReadNext(f, content, n);
      }
      if config.recheckHash {
        failure := CheckHash(hashctx, content, x);
      }
      assert Copying(dst, base, t0, content, n);
    }

    method CheckHash(hashctx: HashFile.Hash, ghost content: Bytes, x: Hashable) returns (failure: Option<Failure>)
      requires hashctx.Took(content, |content|)
      modifies hashctx.c, hashctx.c.intermediateHash, hashctx.c.messageBlock
      ensures failure.None? <==> HashFile.Hashed(content) == Ok(x.hash)
    {
      hide HashFile.Hash.Took, HashFile.Hashed;
      var actual := hashctx.ValueOf(content);
      if actual.Err? {
        return Some(HashError(actual.error));
      }
      if actual.value != x.hash {
        return Some(ChangedHash(x.path));
      }
      return None;
    }

    lemma {:induction false} ReadingFromStart(f: File, content: Bytes)
      requires f.Valid() && f.mode == Unused && !f.eof && f.Rest() == content
      ensures ReadUpTo(f, content, 0)
    {
    }

    /** The state right after `dst` was created. */
    lemma {:induction false} CopyingFromStart(dst: File, base: Snapshot, t0: seq<Snapshot>, content: Bytes)
      requires dst.Valid() && dst.mode == Unused && !dst.eof && dst.fs == backupfs && dst.Written() == []
      requires backupfs.files == base[dst.path := []] && backupfs.trace == t0 + [backupfs.files]
      ensures Copying(dst, base, t0, content, 0)
    {
    }

    lemma {:induction false} CopyingFacts(dst: File, base: Snapshot, t0: seq<Snapshot>, content: Bytes, n: nat)
      requires Copying(dst, base, t0, content, n)
      ensures SameBut(base, backupfs.files, {dst.path}) && dst.path in backupfs.files
      ensures Growing(t0, backupfs.trace, base, dst.path, content)
    {
    }

    method FinishCopy(dst: File, ghost base: Snapshot, ghost t0: seq<Snapshot>, ghost content: Bytes)
      requires Copying(dst, base, t0, content, |content|)
      modifies dst, backupfs
      ensures Copying(dst, base, t0, content, |content|) && backupfs.files == base[dst.path := content]
    {
      hide Growing, File.Written;
      assert content[..|content|] == content;
      ghost var t1, mid := backupfs.trace, backupfs.files;
      dst.Flush();
      GrowingOn(t0, t1, backupfs.trace, base, mid, dst.path, content, content);
    }

    /** The object under its temporary name. */
    method FillTmp(x: Hashable) returns (failure: Option<Failure>)
      requires HostValid() && Due(x) && Progress(job, backupfs.files) && !InStore(job.repo, job.target)
      modifies backupfs
      ensures AllProgress(job, old(backupfs.trace), backupfs.trace)
      ensures SameBut(old(backupfs.files), backupfs.files, {TmpName(x.hp)})
      ensures TmpName(x.hp) in old(backupfs.files) ==> TmpName(x.hp) in backupfs.files
      ensures Unhindered() ==> failure.None?
      ensures failure.None? ==>
                && x.path in copied.files
                && backupfs.files == old(backupfs.files)[TmpName(x.hp) := copied.files[x.path]]
                && (config.recheckHash ==> HashFile.Hashed(copied.files[x.path]) == Ok(x.hash))
    {
      hide StorePath, TmpName, InStore, Lines, Progress, HashFile.Hashed, HostShown, WellFormed, Undisturbed, Due,
           Copying, Growing;
      UndisturbedCopy(x);
      DuePlace(x);
      if x.path !in copied.files {
        return Some(NoSuchFile(x.path));
      }
      ghost var base, t0, content := backupfs.files, backupfs.trace, copied.files[x.path];
      backupfs.Create(TmpName(x.hp));
      var dst := new File(backupfs, TmpName(x.hp));
      CopyingFromStart(dst, base, t0, content);
      failure := CopyInto(x, dst, base, t0);
      ghost var n: nat :| Copying(dst, base, t0, content, n);
      if failure.None? {
        FinishCopy(dst, base, t0, content);
        n := |content|;
      }
      CopyingFacts(dst, base, t0, content, n);
      TmpGrowingIsProgress(job, t0, backupfs.trace, base, x.hash, content);
    }

    lemma {:induction false} DuePlace(x: Hashable)
      requires Due(x)
      ensures x.hp == StorePath(config.repo, x.hash)
    {
    }

    lemma {:induction false} UndisturbedCopy(x: Hashable)
      requires Due(x)
      ensures Unhindered() ==> x.path in copied.files && HashFile.Hashed(copied.files[x.path]) == Ok(x.hash)
    {
      hide HashFile.Hashed, StorePath, FullName;
    }

    /** The content that is copied has the hash of its place: it was checked, or
        it is what was hashed. */
    lemma {:induction false} CopiedIsHashed(x: Hashable)
      requires HostValid() && Due(x) && x.path in copied.files
      requires config.recheckHash ==> HashFile.Hashed(copied.files[x.path]) == Ok(x.hash)
      ensures HashFile.Hashed(copied.files[x.path]) == Ok(x.hash)
    {
      hide HashFile.Hashed, StorePath, FullName;
    }

    lemma {:induction false} IndexUntouched(before: Snapshot, h: Digest)
      requires Progress(job, before) && !InStore(job.repo, job.target)
      requires SameBut(before, backupfs.files, {TmpName(StorePath(config.repo, h)), StorePath(config.repo, h)})
      requires job.repo == config.repo
      ensures job.target in backupfs.files && backupfs.files[job.target] == before[job.target]
    {
      hide StorePath, InStore, Frame, Lines, TmpName;
      StorePathShape(config.repo, h);
    }

    /** One object put into the store, unless it is there: under a temporary
        name first, then renamed into place. */
    method StoreObject(x: Hashable) returns (failure: Option<Failure>)
      requires HostValid() && Due(x) && Progress(job, backupfs.files) && !InStore(job.repo, job.target)
      modifies backupfs
      ensures Progress(job, backupfs.files) && backupfs.files[job.target] == old(backupfs.files)[job.target]
      ensures Advanced(job, old(backupfs.trace), old(backupfs.files), backupfs.trace, backupfs.files)
      ensures Unhindered() ==> failure.None?
      ensures failure.None? ==> Stored(backupfs.files, config.repo, x.hash)
      ensures failure.None? ==> backupfs.files == StoredOne(old(backupfs.files), x, copied.files)
    {
      hide StorePath, TmpName, InStore, Lines, HashFile.Hashed, HostShown, WellFormed;
      ghost var files, t0 := backupfs.files, backupfs.trace;
      if x.hp in backupfs.files {
        AdvancedNowhere(job, t0, files);
        return None;
      }
      failure := FillTmp(x);
      ghost var mid, t1 := backupfs.files, backupfs.trace;
      TmpOnly(files, mid, x.hash);
      IndexUntouched(files, x.hash);
      if failure.Some? {
        return;
      }
      CopiedIsHashed(x);
      var _ := backupfs.Rename(TmpName(x.hp), x.hp);
      RenamedIsStored(files, x, copied.files);
      StorePathShape(job.repo, x.hash);
      ProgressOfObject(job, mid, x.hash);
      AdvancedOn(job, t0, files, t1, mid, backupfs.trace, backupfs.files);
      IndexUntouched(mid, x.hash);
    }

    lemma {:induction false} RenamedIsStored(files: Snapshot, x: Hashable, copied: Snapshot)
      requires x.hp !in files && x.path in copied
      ensures var tmp := TmpName(x.hp);
              (files[tmp := copied[x.path]] - {tmp})[x.hp := copied[x.path]] == StoredOne(files, x, copied)
    {
      hide TmpName;
    }

    /** The copies put off during one directory. */
    method StorePending(pending: seq<Hashable>) returns (failure: Option<Failure>)
      requires HostValid() && IndexReady() && Noted(pending)
      modifies backupfs
      ensures IndexReady() && index.Written() == old(index.Written())
      ensures Advanced(job, old(backupfs.trace), old(backupfs.files), backupfs.trace, backupfs.files)
      ensures Unhindered() ==> failure.None?
      ensures failure.None? ==> Noted([]) && backupfs.files == StoredAll(old(backupfs.files), pending, copied.files)
    {
      hide StorePath, InStore, Lines, HashFile.Hashed, HostShown, WellFormed, Advanced, Backed, Due, Stored, Frame,
           StoredOne, Table.Valid, Table.Contents;
      failure := None;
      AdvancedNowhere(job, backupfs.trace, backupfs.files);
      for k := 0 to |pending|
        invariant failure.None? && HostValid()
        invariant Progress(job, backupfs.files) && backupfs.files[job.target] == old(backupfs.files)[job.target]
        invariant Advanced(job, old(backupfs.trace), old(backupfs.files), backupfs.trace, backupfs.files)
        invariant forall i :: 0 <= i < k ==> Stored(backupfs.files, config.repo, pending[i].hash)
        invariant backupfs.files == StoredAll(old(backupfs.files), pending[..k], copied.files)
      {
        ghost var files1, t1 := backupfs.files, backupfs.trace;
        assert Due(pending[k]);
        failure := StoreObject(pending[k]);
        AdvancedOn(job, old(backupfs.trace), old(backupfs.files), t1, files1, backupfs.trace, backupfs.files);
        if failure.Some? {
          return;
        }
        StoredNext(old(backupfs.files), pending, copied.files, k);
        AdvancedKeeps(job, t1, files1, backupfs.trace, backupfs.files);
        StoredKept(files1, backupfs.files, config.repo, pending, k);
      }
      assert pending[..|pending|] == pending;
      AdvancedKeeps(job, old(backupfs.trace), old(backupfs.files), backupfs.trace, backupfs.files);
      AllStored(old(backupfs.files), backupfs.files, config.repo, inrepo.Contents(), pending);
    }

    lemma {:induction false} TmpOnly(before: Snapshot, after: Snapshot, h: Digest)
      requires Progress(job, before) && !InStore(job.repo, job.target)
      requires SameBut(before, after, {TmpName(StorePath(job.repo, h))})
      requires TmpName(StorePath(job.repo, h)) in before ==> TmpName(StorePath(job.repo, h)) in after
      ensures Progress(job, after) && KeepsStore(before, after, job.repo)
    {
      hide Progress, KeepsStore, StorePath, TmpName, InStore;
      var tmp := TmpName(StorePath(job.repo, h));
      if tmp in after {
        ProgressOfTmp(job, before, h, after[tmp]);
        assert after == before[tmp := after[tmp]];
      } else {
        KeepsItself(before, job.repo);
        assert after == before;
      }
    }

    // Directories ----------------------------------------------------------------------

    /** The names in a directory that are not left out. */
    method Select(dir: Path) returns (c: seq<Name>)
      requires HostValid() && IsDirectory(tree, dir)
      ensures forall i, j :: 0 <= i < j < |c| ==> c[i] != c[j]
      ensures forall n :: n in c <==> n in ChildNames(tree, config.opts, dir)
    {
      hide FullName, Join, Parent, BaseName, ValidName;
      c := [];
      var listing := listings[dir];
      for k := 0 to |listing|
        invariant forall i, j :: 0 <= i < j < |c| ==> c[i] != c[j]
        invariant forall n :: n in c <==> n in listing[..k] && n in ChildNames(tree, config.opts, dir)
      {
        assert listing[..k + 1] == listing[..k] + [listing[k]];
        var name := listing[k];
        if name == "." || name == ".." {
          NoDotChild(tree, config.opts, dir, name);
          continue;
        }
        var localname := Join(dir, name);
        ChildOrNot(tree, config.opts, dir, name);
        if localname in config.opts.excluded || localname !in tree {
          continue;
        }
        c := c + [name];
      }
      assert listing[..|listing|] == listing;
      forall n | n in ChildNames(tree, config.opts, dir)
        ensures n in listing
      {
        ChildPath(tree, config.opts, dir, n);
      }
    }

    /** One directory: its entries, the copies put off, its subdirectories. */
    method BackupDir(dir: Path) returns (failure: Option<Failure>)
      requires HostValid() && IndexReady() && Noted([]) && IsDirectory(tree, dir)
      requires AllInTree(tree, WalkDir(tree, config.opts, dir))
      requires index.Written() + TextOf(tree, WalkDir(tree, config.opts, dir)) <= Lines(job.recs)
      modifies index, index.buffer, backupfs, inrepo, inrepo.nodes
      ensures IndexReady() && inrepo.Valid() && fresh(inrepo.members - old(inrepo.members))
      ensures Advanced(job, old(backupfs.trace), old(backupfs.files), backupfs.trace, backupfs.files)
      ensures Unhindered() ==> failure.None?
      ensures failure.None? ==>
                && index.Written() == old(index.Written()) + TextOf(tree, WalkDir(tree, config.opts, dir))
                && Noted([]) && Covered(tree, WalkDir(tree, config.opts, dir), inrepo.Contents())
                && old(inrepo.Contents()) <= inrepo.Contents()
      decreases Deeper(tree, dir), 1, 0
    {
      hide HostShown, Positioned, File.Valid, WellFormed, Backed, AllDue, Lines, KeepsStore, RelName, Subdirs, WalkAll,
           AllProgress, Advanced, Table.Valid, Table.Contents, File.Written, HashKnown, RecordsOf, Join, TextOf,
           ChildNames,
           RecordOf, PrintPairs, Children, OwnLines, Covered, Noted, LexLess, StoredAll;
      ghost var names0 := Children(tree, config.opts, dir);
      ghost var own, before := OwnLines(dir, names0), index.Written();
      DirSplit(tree, config.opts, dir, before, Lines(job.recs));
      ghost var below := WalkAll(tree, config.opts, dir, Subdirs(tree, config.opts, dir, names0));
      var c := Select(dir);
      var names := Sort(c);
      SortedNames(tree, config.opts, dir, names);
      var pending, dirs;
      pending, dirs, failure := PrintEntries(dir, names);
      if failure.Some? {
        return;
      }
      ghost var t1, files1, known1 := backupfs.trace, backupfs.files, inrepo.Contents();
      failure := StorePending(pending);
      AdvancedOn(job, old(backupfs.trace), old(backupfs.files), t1, files1, backupfs.trace, backupfs.files);
      if failure.Some? {
        return;
      }
      ghost var t2, files2 := backupfs.trace, backupfs.files;
      SubdirsAreBelow(tree, config.opts, dir, names0);
      failure := BackupSubdirs(dir, dirs);
      AdvancedOn(job, old(backupfs.trace), old(backupfs.files), t2, files2, backupfs.trace, backupfs.files);
      if failure.None? {
        CoveredConcat(tree, own, below, known1, inrepo.Contents());
      }
    }

    method BackupSubdirs(dir: Path, dirs: seq<Path>) returns (failure: Option<Failure>)
      requires HostValid() && IndexReady() && Noted([])
      requires forall d :: d in dirs ==> SubdirOf(tree, config.opts, dir, d)
      requires AllInTree(tree, WalkAll(tree, config.opts, dir, dirs))
      requires index.Written() + TextOf(tree, WalkAll(tree, config.opts, dir, dirs)) <= Lines(job.recs)
      modifies index, index.buffer, backupfs, inrepo, inrepo.nodes
      ensures IndexReady() && inrepo.Valid() && fresh(inrepo.members - old(inrepo.members))
      ensures Advanced(job, old(backupfs.trace), old(backupfs.files), backupfs.trace, backupfs.files)
      ensures Unhindered() ==> failure.None?
      ensures failure.None? ==>
                && index.Written() == old(index.Written()) + TextOf(tree, WalkAll(tree, config.opts, dir, dirs))
                && Noted([]) && Covered(tree, WalkAll(tree, config.opts, dir, dirs), inrepo.Contents())
                && old(inrepo.Contents()) <= inrepo.Contents()
      decreases Deeper(tree, dir), 0, |dirs|
    {
      hide HostShown, Positioned, File.Valid, WellFormed, Backed, AllDue, Lines, KeepsStore, WalkAll, WalkDir, SubdirOf,
           AllProgress, Advanced, Table.Valid, Table.Contents, File.Written, HashKnown, RecordsOf, TextOf, Covered,
           Deeper;
      ghost var before, all := index.Written(), WalkAll(tree, config.opts, dir, dirs);
      ghost var done: seq<Line> := [];
      failure := None;
      AdvancedNowhere(job, backupfs.trace, backupfs.files);
      NoLines(tree, all, inrepo.Contents());
      assert dirs[0..] == dirs && [] + all == all && before + [] == before;
      for k := 0 to |dirs|
        invariant failure.None? && IndexReady() && Noted([]) && fresh(inrepo.members - old(inrepo.members))
        invariant Advanced(job, old(backupfs.trace), old(backupfs.files), backupfs.trace, backupfs.files)
        invariant (forall d :: d in dirs[k..] ==> d in dirs) && all == done + WalkAll(tree, config.opts, dir, dirs[k..])
        invariant AllInTree(tree, done) && index.Written() == before + TextOf(tree, done)
        invariant Covered(tree, done, inrepo.Contents()) && old(inrepo.Contents()) <= inrepo.Contents()
      {
        ghost var t1, files1, known1 := backupfs.trace, backupfs.files, inrepo.Contents();
        ghost var one := WalkDir(tree, config.opts, dirs[k]);
        ghost var rest := WalkAll(tree, config.opts, dir, dirs[k + 1..]);
        NextSubdir(tree, config.opts, dir, dirs, k);
        NextLines(tree, done, one, rest, before, Lines(job.recs));
        failure := BackupDir(dirs[k]);
        AdvancedOn(job, old(backupfs.trace), old(backupfs.files), t1, files1, backupfs.trace, backupfs.files);
        if failure.Some? {
          return;
        }
        CoveredConcat(tree, done, one, known1, inrepo.Contents());
        done := done + one;
      }
      NoDirs(tree, config.opts, dir);
      assert dirs[|dirs|..] == [] && all == done + [] == done;
    }
  }

  lemma {:induction false} NoDirs(tree: Tree, opts: Options, dir: Path)
    requires WellFormed(tree)
    ensures WalkAll(tree, opts, dir, []) == []
  {
  }

  lemma {:induction false} NextSubdir(tree: Tree, opts: Options, dir: Path, dirs: seq<Path>, k: nat)
    requires WellFormed(tree) && k < |dirs| && forall d :: d in dirs ==> SubdirOf(tree, opts, dir, d)
    ensures IsDirectory(tree, dirs[k]) && Deeper(tree, dirs[k]) < Deeper(tree, dir)
    ensures (forall d :: d in dirs[k..] ==> d in dirs) && (forall d :: d in dirs[k + 1..] ==> d in dirs)
    ensures WalkAll(tree, opts, dir, dirs[k..]) ==
            WalkDir(tree, opts, dirs[k]) + WalkAll(tree, opts, dir, dirs[k + 1..])
  {
    assert SubdirOf(tree, opts, dir, dirs[k]);
    assert dirs[k] in Deeper(tree, dir) && dirs[k] !in Deeper(tree, dirs[k]);
    assert dirs[k..][0] == dirs[k] && dirs[k..][1..] == dirs[k + 1..];
  }

  lemma {:induction false} NextLines(tree: Tree, done: seq<Line>, one: seq<Line>, rest: seq<Line>, before: Bytes,
                                     total: Bytes)
    requires AllInTree(tree, done + (one + rest)) && before + TextOf(tree, done + (one + rest)) <= total
    ensures AllInTree(tree, done) && AllInTree(tree, one) && AllInTree(tree, done + one)
    ensures before + TextOf(tree, done) + TextOf(tree, one) <= total
    ensures before + TextOf(tree, done) + TextOf(tree, one) == before + TextOf(tree, done + one)
    ensures done + (one + rest) == done + one + rest
  {
    hide TextOf;
    var all := done + (one + rest);
    assert done == all[..|done|] && one == all[|done|..|done + one|] && rest == all[|done + one|..];
    assert all == done + one + rest;
    TextConcat(tree, done, one);
    TextConcat(tree, done + one, rest);
    Pieces(before, TextOf(tree, done + one), TextOf(tree, rest), total);
    Pieces(before, TextOf(tree, done), TextOf(tree, one), total);
  }

  lemma {:induction false} NoDotChild(tree: Tree, opts: Options, dir: Path, name: Name)
    requires WellFormed(tree) && (name == "." || name == "..")
    ensures name !in ChildNames(tree, opts, dir)
  {
    if name in ChildNames(tree, opts, dir) {
      ChildPath(tree, opts, dir, name);
    }
  }

  lemma {:induction false} ChildOrNot(tree: Tree, opts: Options, dir: Path, name: Name)
    requires WellFormed(tree) && ValidName(name)
    ensures name in ChildNames(tree, opts, dir) <==> Join(dir, name) in tree && Join(dir, name) !in opts.excluded
  {
    SplitJoin(dir, name);
    if name in ChildNames(tree, opts, dir) {
      ChildPath(tree, opts, dir, name);
    }
  }

  lemma {:induction false} SortedNames(tree: Tree, opts: Options, dir: Path, names: seq<Name>)
    requires Sorted(names) && forall n :: n in names <==> n in ChildNames(tree, opts, dir)
    ensures names == Children(tree, opts, dir)
  {
    SortedIsList(names, ChildNames(tree, opts, dir));
  }

  /** The text of a directory is that of its own lines and that of what is
      below. */
  lemma {:induction false} DirSplit(tree: Tree, opts: Options, dir: Path, before: Bytes, total: Bytes)
    requires WellFormed(tree) && AllInTree(tree, WalkDir(tree, opts, dir))
    requires before + TextOf(tree, WalkDir(tree, opts, dir)) <= total
    ensures var names := Children(tree, opts, dir);
            var dirs := Subdirs(tree, opts, dir, names);
            && (forall d :: d in dirs ==> SubdirOf(tree, opts, dir, d))
            && var own, below := OwnLines(dir, names), WalkAll(tree, opts, dir, dirs);
            && AllInTree(tree, own) && AllInTree(tree, below) && WalkDir(tree, opts, dir) == own + below
            && before + TextOf(tree, own) <= total
            && before + TextOf(tree, own) + TextOf(tree, below) == before + TextOf(tree, WalkDir(tree, opts, dir))
  {
    hide TextOf, SubdirOf;
    var names := Children(tree, opts, dir);
    var dirs := Subdirs(tree, opts, dir, names);
    SubdirsAreBelow(tree, opts, dir, names);
    var own, below := OwnLines(dir, names), WalkAll(tree, opts, dir, dirs);
    assert WalkDir(tree, opts, dir) == own + below;
    assert own == (own + below)[..|own|] && below == (own + below)[|own|..];
    TextConcat(tree, own, below);
    Pieces(before, TextOf(tree, own), TextOf(tree, below), total);
  }

  lemma {:induction false} CoveredConcat(tree: Tree, a: seq<Line>, b: seq<Line>, known: set<Digest>, more: set<Digest>)
    requires AllInTree(tree, a) && AllInTree(tree, b) && AllInTree(tree, a + b)
    requires Covered(tree, a, known) && known <= more && Covered(tree, b, more)
    ensures Covered(tree, a + b, more)
  {
    hide HashFile.Hashed;
    var s := a + b;
    forall i | 0 <= i < |s|
      ensures HashKnown(tree[s[i].path], more)
    {
      if i < |a| {
        assert HashKnown(tree[a[i].path], known);
      } else {
        assert HashKnown(tree[b[i - |a|].path], more);
      }
    }
  }

  lemma {:induction false} AllStored(before: Snapshot, after: Snapshot, repo: Path, known: set<Digest>,
                                     pending: seq<Hashable>)
    requires Backed(before, repo, known, pending) && KeepsStore(before, after, repo)
    requires forall i :: 0 <= i < |pending| ==> Stored(after, repo, pending[i].hash)
    ensures Backed(after, repo, known, [])
  {
    hide StorePath, HashFile.Hashed;
  }

  lemma {:induction false} StoredKept(before: Snapshot, after: Snapshot, repo: Path, pending: seq<Hashable>, k: nat)
    requires k <= |pending| && KeepsStore(before, after, repo)
    requires forall i :: 0 <= i < k ==> Stored(before, repo, pending[i].hash)
    ensures forall i :: 0 <= i < k ==> Stored(after, repo, pending[i].hash)
  {
    hide StorePath, HashFile.Hashed;
  }

  lemma {:induction false} KeepsItself(files: Snapshot, repo: Path)
    ensures KeepsStore(files, files, repo)
  {
  }

  lemma {:induction false} NoLines(tree: Tree, lines: seq<Line>, known: set<Digest>)
    ensures AllInTree(tree, []) && TextOf(tree, []) == [] && Covered(tree, [], known)
    ensures AllInTree(tree, lines[..0]) && Covered(tree, lines[..0], known)
  {
    assert lines[..0] == [];
  }

  lemma {:induction false} NoSubdirs(tree: Tree, opts: Options, dir: Path)
    ensures Subdirs(tree, opts, dir, []) == []
  {
  }

  lemma {:induction false} OwnStep(tree: Tree, opts: Options, dir: Path, names: seq<Name>, k: nat)
    requires WellFormed(tree) && names == Children(tree, opts, dir) && k < |names|
    ensures |OwnLines(dir, names)| == |names| && names[k] in ChildNames(tree, opts, dir) && Join(dir, names[k]) in tree
    ensures OwnLines(dir, names)[k] == Line(Join(dir, names[k]), RelName(dir, names[k], k == 0))
  {
    assert names[k] in names;
    ChildPath(tree, opts, dir, names[k]);
  }

  lemma {:induction false} LinesStep(tree: Tree, lines: seq<Line>, k: nat, before: Bytes, total: Bytes)
    requires AllInTree(tree, lines) && k < |lines| && before + TextOf(tree, lines) <= total
    ensures AllInTree(tree, lines[..k]) && AllInTree(tree, lines[..k + 1]) && AllInTree(tree, [lines[k]])
    ensures before + TextOf(tree, lines[..k]) + TextOf(tree, [lines[k]]) <= total
    ensures before + TextOf(tree, lines[..k]) + TextOf(tree, [lines[k]]) == before + TextOf(tree, lines[..k + 1])
  {
    hide TextOf;
    assert lines[..k + 1] == lines[..k] + [lines[k]] && lines == lines[..k + 1] + lines[k + 1..];
    TextConcat(tree, lines[..k], [lines[k]]);
    TextConcat(tree, lines[..k + 1], lines[k + 1..]);
    Pieces(before, TextOf(tree, lines[..k + 1]), TextOf(tree, lines[k + 1..]), total);
    Pieces(before, TextOf(tree, lines[..k]), TextOf(tree, [lines[k]]), total);
  }

  lemma {:induction false} SubdirsStep(tree: Tree, opts: Options, dir: Path, names: seq<Name>, k: nat)
    requires k < |names| && Join(dir, names[k]) in tree
    ensures var e := tree[Join(dir, names[k])];
            Subdirs(tree, opts, dir, names[k..]) ==
            (if e.Directory? && (opts.crossfs || !e.mount) then [Join(dir, names[k])] else [])
            + Subdirs(tree, opts, dir, names[k + 1..])
  {
    assert names[k..][1..] == names[k + 1..];
  }

  lemma {:induction false} CoveredStep(tree: Tree, lines: seq<Line>, k: nat, known: set<Digest>, more: set<Digest>)
    requires AllInTree(tree, lines) && k < |lines| && AllInTree(tree, lines[..k]) && AllInTree(tree, lines[..k + 1])
    requires Covered(tree, lines[..k], known) && known <= more && HashKnown(tree[lines[k].path], more)
    ensures Covered(tree, lines[..k + 1], more)
  {
    hide HashFile.Hashed;
    var some, one := lines[..k + 1], lines[..k];
    forall i | 0 <= i < |some|
      ensures HashKnown(tree[some[i].path], more)
    {
      if i < k {
        assert one[i] == some[i] && HashKnown(tree[one[i].path], known);
      }
    }
  }

  lemma {:induction false} LineText(tree: Tree, line: Line)
    requires line.path in tree
    ensures TextOf(tree, [line]) == GenericText(line.rel, tree[line.path].meta) + (SpecificText(tree[line.path]) + "\n")
  {
    hide GenericText, SpecificText, PrintPairs, RecordOf;
    TextOfOne(tree, line);
    RecordIsPrinted(line.rel, tree[line.path]);
  }

  lemma {:induction false} SmallIsKnown(e: Entry, known: set<Digest>)
    requires e.Regular? && |e.content| <= STORE_LIMIT
    ensures HashKnown(e, known)
  {
  }

  lemma {:induction false} DigestOfHashed(content: Bytes)
    ensures HashFile.Hashed(content).Ok? <==> |content| < Sha1Spec.LIMIT
    ensures HashFile.Hashed(content).Ok? ==> HashFile.Hashed(content).value == Sha1Spec.Digest(content)
  {
  }

  // The whole backup -----------------------------------------------------------------

  /** The records of the index of a tree. */
  ghost function IndexRecords(tree: Tree, opts: Options): (recs: seq<Record>)
    requires WellFormed(tree)
    ensures forall i :: 0 <= i < |recs| ==> Named(recs[i])
  {
    hide RecordOf;
    WalkDirInTree(tree, opts, ROOT);
    RecordsOf(tree, Index(tree, opts))
  }

  /** The only files outside the store that a backup writes. */
  function Written(config: Config): set<Path>
  {
    if config.overwriteIndex then {config.indexfile} else {config.indexfile, TmpName(config.indexfile)}
  }

  function Target(config: Config): Path
  {
    if config.overwriteIndex then config.indexfile else TmpName(config.indexfile)
  }

  /** Every step since `t0` extends the repository as it was. */
  ghost predicate AllExtend(t0: seq<Snapshot>, t1: seq<Snapshot>, base: Snapshot, config: Config)
  {
    t0 <= t1 && forall k :: |t0| <= k < |t1| ==> Extends(base, t1[k], config.repo, Written(config))
  }

  lemma {:induction false} TmpOutsideStore(repo: Path, p: Path)
    requires !InStore(repo, p)
    ensures !InStore(repo, TmpName(p))
  {
    var area := StoreRoot(repo) + "/";
    assert area[|area| - 1] == '/';
    assert '/' !in TMP_SUFFIX;
  }

  lemma {:induction false} TargetOutsideStore(config: Config)
    requires !InStore(config.repo, config.indexfile)
    ensures forall p :: p in Written(config) ==> !InStore(config.repo, p)
    ensures Target(config) in Written(config)
  {
    TmpOutsideStore(config.repo, config.indexfile);
  }

  lemma {:induction false} ExtendsMore(base: Snapshot, after: Snapshot, config: Config)
    requires Extends(base, after, config.repo, {Target(config)}) && !InStore(config.repo, config.indexfile)
    ensures Extends(base, after, config.repo, Written(config))
  {
    hide Sound, KeepsStore, InStore, Restorable;
    TargetOutsideStore(config);
  }

  lemma {:induction false} ProgressAllExtend(job: Job, t0: seq<Snapshot>, t1: seq<Snapshot>, config: Config)
    requires AllProgress(job, t0, t1) && forall i :: 0 <= i < |job.recs| ==> Named(job.recs[i])
    requires job.target == Target(config) && job.repo == config.repo && !InStore(config.repo, config.indexfile)
    ensures AllExtend(t0, t1, job.base, config)
  {
    hide Progress, Extends, Named;
    forall k | |t0| <= k < |t1|
      ensures Extends(job.base, t1[k], config.repo, Written(config))
    {
      ProgressExtends(job, t1[k]);
      ExtendsMore(job.base, t1[k], config);
    }
  }

  lemma {:induction false} AllExtendOn(t0: seq<Snapshot>, t1: seq<Snapshot>, t2: seq<Snapshot>, base: Snapshot,
                                       config: Config)
    requires AllExtend(t0, t1, base, config) && AllExtend(t1, t2, base, config)
    ensures AllExtend(t0, t2, base, config)
  {
    hide Extends;
    assert forall k :: 0 <= k < |t1| ==> t2[k] == t1[k];
  }

  /** Known hashes that are in the store make the records restorable. */
  lemma {:induction false} RecordsAreStored(tree: Tree, lines: seq<Line>, files: Snapshot, repo: Path,
                                            known: set<Digest>)
    requires AllInTree(tree, lines) && Covered(tree, lines, known) && Backed(files, repo, known, [])
    ensures RecordsStored(files, repo, RecordsOf(tree, lines))
  {
    hide RecordOf, DetailsOf, HashFile.Hashed, Stored, HashOfHex, HexOf, Sha1Spec.Digest, Octal, Decimal;
    var recs := RecordsOf(tree, lines);
    forall i | 0 <= i < |recs|
      ensures EntryRestorable(files, repo, DetailsOf(recs[i]))
    {
      var e := tree[lines[i].path];
      RecordDescribes(lines[i].rel, e);
      if e.Regular? && |e.content| > STORE_LIMIT {
        assert HashKnown(e, known);
        DigestOfHashed(e.content);
        HashDecodeInvertsHexEncode(Sha1Spec.Digest(e.content));
      }
    }
  }

  /** A state while the end mark is written and after: the store is complete. */
  lemma {:induction false} ClosingExtends(base: Snapshot, mid: Snapshot, config: Config, recs: seq<Record>, text: Bytes)
    requires Frame(base, mid, config.repo, {Target(config)}) && !InStore(config.repo, config.indexfile)
    requires forall i :: 0 <= i < |recs| ==> Named(recs[i])
    requires RecordsStored(mid, config.repo, recs) && text <= IndexOf(recs)
    ensures Extends(base, mid[Target(config) := text], config.repo, Written(config))
    ensures Restorable(mid[Target(config) := text], config.repo, text)
  {
    hide RecordsStored, Restorable, IndexOf, Frame, Named, InStore;
    TargetOutsideStore(config);
    var after := mid[Target(config) := text];
    FrameOfTarget(base, mid, config.repo, Target(config), text);
    RecordsStoredKept(mid, after, config.repo, recs);
    PieceIsRestorable(after, config.repo, recs, text);
    ExtendsMore(base, after, config);
  }

  lemma {:induction false} ClosingAllExtend(t0: seq<Snapshot>, t1: seq<Snapshot>, base: Snapshot, mid: Snapshot,
                                            config: Config, recs: seq<Record>)
    requires Frame(base, mid, config.repo, {Target(config)}) && !InStore(config.repo, config.indexfile)
    requires forall i :: 0 <= i < |recs| ==> Named(recs[i])
    requires RecordsStored(mid, config.repo, recs)
    requires Growing(t0, t1, mid, Target(config), IndexOf(recs))
    ensures AllExtend(t0, t1, base, config)
  {
    hide RecordsStored, Restorable, IndexOf, Frame, Named, InStore, Extends;
    forall k | |t0| <= k < |t1|
      ensures Extends(base, t1[k], config.repo, Written(config))
    {
      ClosingExtends(base, mid, config, recs, t1[k][Target(config)]);
    }
  }

  /** The rename of the finished index. */
  lemma {:induction false} RenamedExtends(base: Snapshot, before: Snapshot, config: Config)
    requires Extends(base, before, config.repo, Written(config)) && !config.overwriteIndex
    requires !InStore(config.repo, config.indexfile) && TmpName(config.indexfile) in before
    requires Restorable(before, config.repo, before[TmpName(config.indexfile)])
    ensures var tmp := TmpName(config.indexfile);
            Extends(base, (before - {tmp})[config.indexfile := before[tmp]], config.repo, Written(config))
  {
    hide Restorable, InStore, TmpName, HashFile.Hashed, StorePath;
    var tmp := TmpName(config.indexfile);
    var after := (before - {tmp})[config.indexfile := before[tmp]];
    TargetOutsideStore(config);
    forall h: Digest
      ensures StorePath(config.repo, h) != tmp && StorePath(config.repo, h) != config.indexfile
      ensures StorePath(config.repo, h) in after ==> Stored(after, config.repo, h)
    {
      StorePathShape(config.repo, h);
    }
    assert KeepsStore(before, after, config.repo);
    RestorableKept(before, after, config.repo, before[tmp]);
  }

  ghost predicate BackupAllowed(config: Config, files: Snapshot) { config.overwriteIndex || config.indexfile !in files }

  method DoBackup(config: Config, tree: Tree, listings: map<Path, seq<Name>>, scanned: Storage, copied: Storage,
                  backupfs: Storage) returns (failure: Option<Failure>)
    requires WellFormed(tree) && HostShows(config, tree, listings, scanned.files, copied.files)
    requires backupfs != scanned && backupfs != copied
    requires Sound(backupfs.files, config.repo) && !InStore(config.repo, config.indexfile)
    modifies backupfs
    // whatever happens, and wherever it stops
    ensures AllExtend(old(backupfs.trace), backupfs.trace, old(backupfs.files), config)
    ensures Extends(old(backupfs.files), backupfs.files, config.repo, Written(config))
    // a finished backup
    ensures failure.None? ==>
              && BackupAllowed(config, old(backupfs.files)) && config.indexfile in backupfs.files
              && (config.overwriteIndex || TmpName(config.indexfile) !in backupfs.files)
              && backupfs.files[config.indexfile] == IndexOf(IndexRecords(tree, config.opts))
              && RecordsStored(backupfs.files, config.repo, IndexRecords(tree, config.opts))
    // and when it does finish
    ensures !BackupAllowed(config, old(backupfs.files)) ==>
              failure == Some(IndexExists) && backupfs.files == old(backupfs.files)
    ensures BackupAllowed(config, old(backupfs.files)) && Undisturbed(config.root, tree, copied.files) ==> failure.None?
  {
    hide HostShows, WellFormed, InStore, Extends, Frame, Sound, IndexOf, RecordsStored, Lines, AllExtend, Undisturbed;
    ghost var base, t0 := backupfs.files, backupfs.trace;
    if !config.overwriteIndex && config.indexfile in backupfs.files {
      NothingExtended(t0, base, config);
      ExtendsItself(base, config);
      return Some(IndexExists);
    }
    var target := if config.overwriteIndex then config.indexfile else TmpName(config.indexfile);
    ghost var job := Job(config.repo, base, target, IndexRecords(tree, config.opts));
    JobStarts(job, config);
    backupfs.Create(target);
    CreatedExtends(job, config, t0, backupfs.trace);
    ghost var t1 := backupfs.trace;
    failure := WriteIndex(config, tree, listings, scanned, copied, backupfs, job);
    AllExtendOn(t0, t1, backupfs.trace, base, config);
    if failure.Some? || config.overwriteIndex {
      return;
    }
    ghost var t2, before := backupfs.trace, backupfs.files;
    var _ := backupfs.Rename(target, config.indexfile);
    RenamedExtends(base, before, config);
    RenamedKeeps(before, config);
    assert |target| == |config.indexfile| + 4;
    RecordsStoredKept(before, backupfs.files, config.repo, job.recs);
    OneMoreExtends(t0, t2, backupfs.files, base, config);
  }

  /** The index from its first line to its end mark. */
  method WriteIndex(config: Config, tree: Tree, listings: map<Path, seq<Name>>, scanned: Storage, copied: Storage,
                    backupfs: Storage, ghost job: Job) returns (failure: Option<Failure>)
    requires WellFormed(tree) && HostShows(config, tree, listings, scanned.files, copied.files)
    requires backupfs != scanned && backupfs != copied
    requires job == Job(config.repo, job.base, Target(config), IndexRecords(tree, config.opts))
    requires !InStore(config.repo, config.indexfile) && !InStore(job.repo, job.target)
    requires Progress(job, backupfs.files) && backupfs.files[job.target] == []
    modifies backupfs
    ensures AllExtend(old(backupfs.trace), backupfs.trace, job.base, config)
    ensures Extends(job.base, backupfs.files, config.repo, Written(config))
    ensures failure.None? ==>
              && Target(config) in backupfs.files && backupfs.files[Target(config)] == IndexOf(job.recs)
              && RecordsStored(backupfs.files, config.repo, job.recs)
              && Restorable(backupfs.files, config.repo, IndexOf(job.recs))
    ensures Undisturbed(config.root, tree, copied.files) ==> failure.None?
  {
    hide HostShows, WellFormed, InStore, Extends, Sound, IndexOf, RecordsStored, Lines, AllExtend, Undisturbed, Frame,
         KeepsStore, AllProgress, Restorable, HashSet.Table.Valid;
    var inrepo := new Table();
    var index := new File(backupfs, if config.overwriteIndex then config.indexfile else TmpName(config.indexfile));
    var b := new Backup(config, tree, listings, scanned, copied, backupfs, index, inrepo, job);
    NothingNoted(b);
    WholeText(tree, config.opts, job.recs);
    ghost var t0 := backupfs.trace;
    failure := b.BackupDir(ROOT);
    ghost var t1, mid := backupfs.trace, backupfs.files;
    ProgressAllExtend(job, t0, t1, config);
    if failure.Some? {
      ProgressExtends(job, mid);
      ExtendsMore(job.base, mid, config);
      return;
    }
    RecordsAreStored(tree, Index(tree, config.opts), mid, config.repo, inrepo.Contents());
    CloseIndex(index, job, config);
    AllExtendOn(t0, t1, backupfs.trace, job.base, config);
  }

  /** The end mark, when all objects are in place. */
  method CloseIndex(index: File, ghost job: Job, ghost config: Config)
    requires index.Valid() && index.mode != Reading && !index.eof && index.path == job.target == Target(config)
    requires !InStore(config.repo, config.indexfile) && job.repo == config.repo
    requires index.Written() == Lines(job.recs) && forall i :: 0 <= i < |job.recs| ==> Named(job.recs[i])
    requires Frame(job.base, index.fs.files, config.repo, {Target(config)})
    requires RecordsStored(index.fs.files, config.repo, job.recs)
    modifies index, index.buffer, index.fs
    ensures AllExtend(old(index.fs.trace), index.fs.trace, job.base, config)
    ensures Extends(job.base, index.fs.files, config.repo, Written(config))
    ensures Target(config) in index.fs.files && index.fs.files[Target(config)] == IndexOf(job.recs)
    ensures RecordsStored(index.fs.files, config.repo, job.recs)
    ensures Restorable(index.fs.files, config.repo, IndexOf(job.recs))
  {
    hide InStore, Extends, Sound, RecordsStored, Lines, AllExtend, Frame, Restorable, File.Written, Growing, Named;
    ghost var t1, mid := index.fs.trace, index.fs.files;
    index.PutString(END_MARK + "\n");
    assert index.Written() == IndexOf(job.recs);
    ghost var t2, mid2 := index.fs.trace, index.fs.files;
    index.Flush();
    GrowingOn(t1, t2, index.fs.trace, mid, mid2, job.target, IndexOf(job.recs), IndexOf(job.recs));
    ClosingAllExtend(t1, index.fs.trace, job.base, mid, config, job.recs);
    assert index.fs.files == mid[Target(config) := IndexOf(job.recs)];
    ClosingExtends(job.base, mid, config, job.recs, IndexOf(job.recs));
    FrameOfTarget(job.base, mid, config.repo, job.target, IndexOf(job.recs)) by { TargetOutsideStore(config); }
    RecordsStoredKept(mid, index.fs.files, config.repo, job.recs);
  }

  lemma {:induction false} NothingNoted(b: Backup)
    requires b.inrepo.Valid() && b.inrepo.Contents() == {}
    ensures b.Noted([])
  {
    hide Table.Valid, Table.Contents;
  }

  /** The text of the whole walk. */
  lemma {:induction false} WholeText(tree: Tree, opts: Options, recs: seq<Record>)
    requires WellFormed(tree) && recs == IndexRecords(tree, opts)
    ensures AllInTree(tree, WalkDir(tree, opts, ROOT)) && TextOf(tree, WalkDir(tree, opts, ROOT)) == Lines(recs)
    ensures RecordsOf(tree, Index(tree, opts)) == recs && [] + Lines(recs) == Lines(recs)
  {
    hide WellFormed, WalkDir, Lines, RecordOf;
    WalkDirInTree(tree, opts, ROOT);
  }

  lemma {:induction false} CreatedExtends(job: Job, config: Config, t0: seq<Snapshot>, t1: seq<Snapshot>)
    requires job.repo == config.repo && job.target == Target(config) && !InStore(config.repo, config.indexfile)
    requires forall i :: 0 <= i < |job.recs| ==> Named(job.recs[i])
    requires Progress(job, job.base[job.target := []]) && t1 == t0 + [job.base[job.target := []]]
    ensures AllExtend(t0, t1, job.base, config)
  {
    hide Progress, Extends, InStore, Named;
    assert AllProgress(job, t0, t1);
    ProgressAllExtend(job, t0, t1, config);
  }

  lemma {:induction false} OneMoreExtends(t0: seq<Snapshot>, t: seq<Snapshot>, after: Snapshot, base: Snapshot,
                                          config: Config)
    requires AllExtend(t0, t, base, config) && Extends(base, after, config.repo, Written(config))
    ensures AllExtend(t0, t + [after], base, config)
  {
    hide Extends;
  }

  lemma {:induction false} RenamedKeeps(before: Snapshot, config: Config)
    requires !InStore(config.repo, config.indexfile) && TmpName(config.indexfile) in before
    ensures var tmp := TmpName(config.indexfile);
            KeepsStore(before, (before - {tmp})[config.indexfile := before[tmp]], config.repo)
  {
    hide InStore, TmpName, StorePath;
    TmpOutsideStore(config.repo, config.indexfile);
    forall h: Digest
      ensures StorePath(config.repo, h) != TmpName(config.indexfile) && StorePath(config.repo, h) != config.indexfile
    {
      StorePathShape(config.repo, h);
    }
  }

  /** A backup puts no file where a directory is, and none below a file. */
  lemma {:induction false} BackupStaysTreelike(config: Config, before: Snapshot, after: Snapshot)
    requires Extends(before, after, config.repo, Written(config)) && !InStore(config.repo, config.indexfile)
    requires Treelike(before) && LeavesRoom(before, config.repo, Written(config))
    ensures Treelike(after) && LeavesRoom(after, config.repo, Written(config))
  {
    hide Extends, InStore, Treelike, LeavesRoom;
    TargetOutsideStore(config);
    var p := config.indexfile;
    assert TmpName(p)[|p|] == '.';
    ExtendsStaysTreelike(before, after, config.repo, Written(config));
  }

  lemma {:induction false} NothingExtended(t: seq<Snapshot>, base: Snapshot, config: Config)
    ensures AllExtend(t, t, base, config)
  {
  }

  lemma {:induction false} ExtendsItself(base: Snapshot, config: Config)
    requires Sound(base, config.repo)
    ensures Extends(base, base, config.repo, Written(config))
  {
    hide Sound, InStore, Restorable;
  }

  /** The index has been created and nothing else happened. */
  lemma {:induction false} JobStarts(job: Job, config: Config)
    requires job.repo == config.repo && job.target == Target(config)
    requires Sound(job.base, job.repo) && !InStore(config.repo, config.indexfile)
    ensures Progress(job, job.base[job.target := []]) && !InStore(job.repo, job.target)
  {
    hide InStore, Lines, Sound;
    TargetOutsideStore(config);
    FrameOfTarget(job.base, job.base, job.repo, job.target, []);
  }
}
