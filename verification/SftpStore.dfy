/** Storing new objects over SFTP: existence is asked for ahead, for a whole
    directory of files, and objects are written in between the answers. */
module SftpStore {
  import opened Bytes
  import opened BufferedFile
  import Repository
  import opened SftpWire
  import opened SftpEngine
  import opened SftpFiles

  const CHUNK: nat := 4096

  /** The number of writes that `content` takes. */
  function Writes(content: Bytes): nat { PieceCount(|content|, CHUNK) }

  /** Since `past` the server turned down an open, a write or a rename; that it
      does not know the extension does not count. */
  ghost predicate RefusedSince(past: Record, now: Record)
  {
    exists id, code :: && id !in past.asked && TurnedDown(now, id, code)
                       && match now.asked[id]
                          case Open(_, _) => true
                          case Write(_, _, _) => true
                          case Rename(_, _) => true
                          case PosixRename(_, _) => code != SSH_FX_OP_UNSUPPORTED
                          case _ => false
  }

  lemma {:induction false} RefusedEarlier(past: Record, mid: Record, now: Record)
    requires Remembered(past, mid) && RefusedSince(mid, now)
    ensures RefusedSince(past, now)
  {
    var id, code :| id !in mid.asked && TurnedDown(now, id, code)
                    && match now.asked[id]
                       case Open(_, _) => true
                       case Write(_, _, _) => true
                       case Rename(_, _) => true
                       case PosixRename(_, _) => code != SSH_FX_OP_UNSUPPORTED
                       case _ => false;
    assert id !in past.asked;
  }

  /** `open`: an empty file to write to. */
  method OpenForWriting(fs: Sftp, path: Path) returns (r: Result<SftpFile, nat>)
    requires fs.Valid() && fs.existenceInflight == [] && fs.issued < ID_PERIOD && |path| < UINT32
    modifies fs, fs.server
    ensures fs.Valid() && fs.existenceInflight == [] && fs.existence == old(fs.existence)
    ensures fs.issued == old(fs.issued) + 1
    ensures r.Ok? ==>
              && fresh(r.value) && r.value.fs == fs && r.value.path == path
              && r.value.Streaming() && r.value.writequeue == [] && r.value.writeoffset == 0
              && fs.server.files == old(fs.server.files)[path := []]
    ensures r.Err? ==> fs.server.files == old(fs.server.files)
    ensures r.Err? ==> RefusedSince(old(fs.server.Past()), fs.server.Past())
    ensures Remembered(old(fs.server.Past()), fs.server.Past())
  {
    hide Sftp.Valid, Sftp.Waiting, Sftp.InflightIds, Served, Reply.Fits, EncodeReply, Uint32At, StringAt, Remembered;
    ghost var files, handles := fs.server.files, fs.server.handles;
    var q := Open(path, SSH_FXF_OVERWRITE);
    var id := fs.Call(q);
    ghost var answer := fs.server.answers[id];
    ServedOpen(q, files, handles, answer, fs.server.files, fs.server.handles);
    var reply := fs.AwaitOwn(id);
    HandleReply(id, answer);
    if reply[0] as int != SSH_FXP_HANDLE {
      assert TurnedDown(fs.server.Past(), id, answer.code);
      return Err(Uint32At(reply, 5).value);
    }
    var f := new SftpFile(fs, path, StringAt(reply, 5).value.0);
    return Ok(f);
  }

  lemma {:induction false} ServedOpen(q: Request, files: Snapshot, handles: map<Bytes, Path>,
                                      r: Reply, files': Snapshot, handles': map<Bytes, Path>)
    requires q.Open? && q.pflags == SSH_FXF_OVERWRITE && Served(q, files, handles, r, files', handles')
    ensures if r.Handle? then
              files' == files[q.name := []] && r.handle in handles' && handles'[r.handle] == q.name
            else files' == files && r.Status? && Failure(r)
  {
  }

  lemma {:induction false} HandleReply(id: Id, r: Reply)
    requires r.Fits() && id < UINT32 && (r.Handle? || r.Status?)
    ensures var reply := EncodeReply(id, r);
            && |reply| >= 5
            && (reply[0] as int == SSH_FXP_HANDLE <==> r.Handle?)
            && (r.Handle? ==> StringAt(reply, 5).Some? && StringAt(reply, 5).value.0 == r.handle && |r.handle| < UINT32)
            && (r.Status? ==> Uint32At(reply, 5) == Some(r.code))
  {
    hide StringAt, Uint32At, EncodeReply;
    ReplyFields(id, r);
  }

  /** All of the content through the buffering layer, in pieces of its buffer
      size, each synchronized. */
  method PutAll(f: SftpFile, content: Bytes) returns (error: Option<nat>)
    requires f.Open() && f.Collecting() && f.writequeue == [] && f.writeoffset == |f.Content()|
    requires f.writeoffset + |content| <= MAX_FILE && f.fs.issued + Writes(content) <= ID_PERIOD
    modifies f`writequeue, f`writeoffset, f.fs, f.fs.server
    ensures f.fs.Valid() && f.fs.issued <= old(f.fs.issued) + Writes(content)
    ensures f.fs.existence == old(f.fs.existence) && f.fs.existenceInflight == old(f.fs.existenceInflight)
    ensures error == None ==> f.WrittenTo(old(f.fs.server.files), content)
    ensures error.Some? ==> RefusedSince(old(f.fs.server.Past()), f.fs.server.Past())
    ensures Remembered(old(f.fs.server.Past()), f.fs.server.Past())
    ensures error.Some? ==> f.path in f.fs.server.files &&
                            f.fs.server.files == old(f.fs.server.files)[f.path := f.fs.server.files[f.path]]
  {
    hide Sftp.Valid, Sftp.Waiting, Sftp.InflightIds, SftpFile.Accepted, PieceCount, Remembered, RefusedSince,
         SftpFile.WriteRefused;
    ghost var past := f.fs.server.Past();
    RememberedSame(past);
    ghost var files, start := f.fs.server.files, f.Content();
    var n := 0;
    assert start == start + content[..0];
    while n < |content|
      invariant n <= |content|
      invariant f.Open() && f.Collecting() && f.writequeue == [] && f.writeoffset == |f.Content()| == |start| + n
      invariant f.fs.issued + PieceCount(|content| - n, CHUNK) <= old(f.fs.issued) + Writes(content)
      invariant f.fs.existence == old(f.fs.existence) && f.fs.existenceInflight == old(f.fs.existenceInflight)
      invariant f.fs.server.files == files[f.path := start + content[..n]]
      invariant Remembered(past, f.fs.server.Past())
    {
      ghost var mid := f.fs.server.Past();
      var left := |content| - n;
      var size := if left > CHUNK then CHUNK else left;
      NextChunk(start, content, n, size);
      assert PieceCount(left, CHUNK) == 1 + PieceCount(left - size, CHUNK) by { OneChunkLess(left); }
      var e := f.Flush(content[n..n + size]);
      RememberedOn(past, mid, f.fs.server.Past());
      if e.Some? {
        WriteIsRefused(f, mid, e.value);
        RefusedEarlier(past, mid, f.fs.server.Past());
        return e;
      }
      n := n + size;
    }
    assert content[..|content|] == content;
    return None;
  }

  lemma WriteIsRefused(f: SftpFile, past: Record, code: nat)
    requires f.WriteRefused(past, code)
    ensures RefusedSince(past, f.fs.server.Past())
  {
    var id :| f.WriteAsked(past, id) && TurnedDown(f.fs.server.Past(), id, code);
    assert id !in past.asked;
  }

  lemma {:induction false} OneChunkLess(left: nat)
    requires left > 0
    ensures PieceCount(left, CHUNK) == 1 + PieceCount(left - Min(CHUNK, left), CHUNK)
  {
  }

  /** One write for each begun 4096 octets. */
  lemma {:induction false} WritesOf(content: Bytes)
    ensures Writes(content) == (|content| + 4095) / 4096
  {
    hide PieceCount;
    PieceCountIsCeiling(|content|, CHUNK);
  }

  lemma {:induction false} NextChunk(start: Bytes, content: Bytes, n: nat, size: nat)
    requires n + size <= |content|
    ensures start + content[..n] + content[n..n + size] == start + content[..n + size]
  {
  }

  /** backup.cc's way to store an object: written under a temporary name and
      renamed into place. */
  method StoreObject(fs: Sftp, hp: Path, content: Bytes, posix0: bool) returns (ok: bool, posix: bool)
    requires fs.Valid() && fs.existenceInflight == []
    requires fs.issued + Fallback(posix0) + Writes(content) + 3 <= ID_PERIOD
    requires |hp| + 4 < UINT32 && |content| <= MAX_FILE
    modifies fs, fs.server
    ensures fs.Valid() && fs.existenceInflight == [] && fs.existence == old(fs.existence)
    ensures fs.issued + Fallback(posix) <= old(fs.issued) + Fallback(posix0) + Writes(content) + 3
    ensures ok ==> fs.server.files == (old(fs.server.files) - {Repository.TmpName(hp)})[hp := content]
    ensures forall p :: p != hp && p != Repository.TmpName(hp) ==>
                          (p in fs.server.files <==> p in old(fs.server.files))
                          && (p in fs.server.files ==> fs.server.files[p] == old(fs.server.files)[p])
    ensures !ok ==> (hp in fs.server.files <==> hp in old(fs.server.files))
    // it fails only if the server refuses
    ensures !ok ==> RefusedSince(old(fs.server.Past()), fs.server.Past())
    ensures Remembered(old(fs.server.Past()), fs.server.Past())
  {
    hide Sftp.Valid, Sftp.Waiting, Sftp.InflightIds, Writes, Remembered, RefusedSince, Fallback;
    posix := posix0;
    ghost var files, past := fs.server.files, fs.server.Past();
    var tmp := Repository.TmpName(hp);
    assert |tmp| == |hp| + 4;
    ok := WriteWhole(fs, tmp, content);
    if !ok {
      return;
    }
    ghost var written := fs.server.Past();
    ok, posix := RenameInto(fs, tmp, hp, posix);
    RememberedOn(past, written, fs.server.Past());
    if !ok {
      RefusedEarlier(past, written, fs.server.Past());
    } else {
      assert fs.server.files == (files[tmp := content] - {tmp})[hp := content] == (files - {tmp})[hp := content];
    }
  }

  /** A file opened, written and closed. */
  method WriteWhole(fs: Sftp, path: Path, content: Bytes) returns (ok: bool)
    requires fs.Valid() && fs.existenceInflight == [] && fs.issued + Writes(content) + 2 <= ID_PERIOD
    requires |path| < UINT32 && |content| <= MAX_FILE
    modifies fs, fs.server
    ensures fs.Valid() && fs.existenceInflight == [] && fs.existence == old(fs.existence)
    ensures fs.issued <= old(fs.issued) + Writes(content) + 2
    ensures ok ==> fs.server.files == old(fs.server.files)[path := content]
    ensures forall p :: p != path ==>
                          (p in fs.server.files <==> p in old(fs.server.files))
                          && (p in fs.server.files ==> fs.server.files[p] == old(fs.server.files)[p])
    ensures !ok ==> RefusedSince(old(fs.server.Past()), fs.server.Past())
    ensures Remembered(old(fs.server.Past()), fs.server.Past())
  {
    hide Sftp.Valid, Sftp.Waiting, Sftp.InflightIds, SftpFile.Accepted, SftpFile.Streaming, SftpFile.WrittenTo, Writes,
         Remembered, RefusedSince;
    ghost var past := fs.server.Past();
    var attempt := OpenForWriting(fs, path);
    if attempt.Err? {
      return false;
    }
    var f := attempt.value;
    ReadyToWrite(f);
    ghost var started, begun := fs.server.files, fs.server.Past();
    var e := PutAll(f, content);
    RememberedOn(past, begun, fs.server.Past());
    if e.Some? {
      RefusedEarlier(past, begun, fs.server.Past());
      return false;
    }
    WrittenWhole(f, started, content);
    fs.CloseHandle(f.handle);
    return true;
  }

  lemma WrittenWhole(f: SftpFile, before: Snapshot, content: Bytes)
    requires f.path in before && before[f.path] == [] && f.WrittenTo(before, content)
    ensures f.fs.server.files == before[f.path := content]
  {
    assert [] + content == content;
  }

  /** The ids that finding out about the extension may still cost. */
  function Fallback(posix: bool): nat { if posix then 1 else 0 }

  /** `rename`: with the extension as long as the server is not known to lack
      it, and otherwise, or then, without. */
  method RenameInto(fs: Sftp, oldpath: Path, newpath: Path, posix0: bool) returns (ok: bool, posix: bool)
    requires fs.Valid() && fs.existenceInflight == [] && fs.issued + Fallback(posix0) < ID_PERIOD
    requires |oldpath| < UINT32 && |newpath| < UINT32 && oldpath in fs.server.files
    modifies fs, fs.server
    ensures fs.Valid() && fs.existenceInflight == [] && fs.existence == old(fs.existence)
    ensures fs.issued + Fallback(posix) == old(fs.issued) + Fallback(posix0) + 1 && (posix ==> posix0)
    ensures fs.server.files == if ok then (old(fs.server.files) - {oldpath})[newpath := old(fs.server.files)[oldpath]]
                               else old(fs.server.files)
    ensures !ok ==> RefusedSince(old(fs.server.Past()), fs.server.Past())
    ensures Remembered(old(fs.server.Past()), fs.server.Past())
    decreases posix0
  {
    hide Sftp.Valid, Sftp.Waiting, Sftp.InflightIds, Served, Reply.Fits, EncodeReply, Uint32At, Remembered,
         RefusedSince;
    ghost var before, handles, past := fs.server.files, fs.server.handles, fs.server.Past();
    var q := if posix0 then PosixRename(oldpath, newpath) else Rename(oldpath, newpath);
    assert q.Fits() by { RenameFits(q); }
    var id := fs.Call(q);
    ghost var answer := fs.server.answers[id];
    ServedRename(q, before, handles, answer, fs.server.files, fs.server.handles);
    var reply := fs.AwaitOwn(id);
    StatusReply(id, answer);
    var code := Uint32At(reply, 5).value;
    ok, posix := code == SSH_FX_OK, posix0;
    if posix && code == SSH_FX_OP_UNSUPPORTED {
      ghost var mid := fs.server.Past();
      ok, posix := RenameInto(fs, oldpath, newpath, false);
      RememberedOn(past, mid, fs.server.Past());
      if !ok {
        RefusedEarlier(past, mid, fs.server.Past());
      }
    } else if !ok {
      RenameIsRefused(past, fs.server.Past(), id, q);
    }
  }

  lemma {:induction false} RenameIsRefused(past: Record, now: Record, id: Id, q: Request)
    requires q.Rename? || q.PosixRename?
    requires id !in past.asked && id in now.asked && now.asked[id] == q && id in now.answers
    requires now.answers[id].Status? && now.answers[id].code != SSH_FX_OK
    requires q.PosixRename? ==> now.answers[id].code != SSH_FX_OP_UNSUPPORTED
    ensures RefusedSince(past, now)
  {
    assert TurnedDown(now, id, now.answers[id].code);
  }

  lemma {:induction false} RenameFits(q: Request)
    requires (q.Rename? || q.PosixRename?) && |q.oldpath| < UINT32 && |q.newpath| < UINT32
    ensures q.Fits()
  {
  }

  lemma {:induction false} ReadyToWrite(f: SftpFile)
    requires f.Streaming() && f.writequeue == [] && f.writeoffset == 0 && f.Content() == []
    ensures f.Open() && f.Collecting() && f.writeoffset == |f.Content()|
  {
  }

  lemma {:induction false} ServedRename(q: Request, files: Snapshot, handles: map<Bytes, Path>,
                                        r: Reply, files': Snapshot, handles': map<Bytes, Path>)
    requires (q.Rename? || q.PosixRename?) && Served(q, files, handles, r, files', handles') && q.oldpath in files
    ensures r.Status?
    ensures files' == if r.code == SSH_FX_OK then (files - {q.oldpath})[q.newpath := files[q.oldpath]] else files
  {
  }

  lemma {:induction false} StatusReply(id: Id, r: Reply)
    requires r.Fits() && id < UINT32 && r.Status?
    ensures Uint32At(EncodeReply(id, r), 5) == Some(r.code)
  {
    hide Uint32At, EncodeReply;
    ReplyFields(id, r);
  }

  /** A place in the store and what is to stand there. */
  datatype Item = Item(hp: Path, content: Bytes)

  function ItemOf(x: Repository.Hashable, copied: Snapshot): Item
  {
    Item(x.hp, if x.path in copied then copied[x.path] else [])
  }

  function Items(pending: seq<Repository.Hashable>, copied: Snapshot): (items: seq<Item>)
    ensures |items| == |pending|
    ensures forall k :: 0 <= k < |items| ==> items[k] == ItemOf(pending[k], copied)
  {
    seq(|pending|, k requires 0 <= k < |pending| => ItemOf(pending[k], copied))
  }

  /** No place twice, and no place that is another's temporary name. */
  ghost predicate Apart(objects: seq<Item>)
  {
    && (forall j, k :: 0 <= j < k < |objects| ==> objects[j].hp != objects[k].hp)
    && (forall j, k :: 0 <= j < |objects| && 0 <= k < |objects| ==> objects[j].hp != Repository.TmpName(objects[k].hp))
  }

  /** The ids used for storing those of `objects` that are not there: to open,
      to close and to rename each, and one for each write. */
  function IdsNeeded(files: Snapshot, objects: seq<Item>): nat
  {
    if objects == [] then 0
    else (if objects[0].hp in files then 0 else Writes(objects[0].content) + 3) + IdsNeeded(files, objects[1..])
  }

  ghost predicate Fit(objects: seq<Item>)
  {
    forall k :: 0 <= k < |objects| ==> |objects[k].hp| + 4 < UINT32 && |objects[k].content| <= MAX_FILE
  }

  /** The objects of `objects` from `n` on, and nothing else, are prefetched,
      and every answer is what a test made now would say. */
  ghost predicate Prefetched(known: map<Path, bool>, files: Snapshot, objects: seq<Item>, n: nat)
    requires n <= |objects|
  {
    && (forall p :: p in known ==> exists k :: n <= k < |objects| && objects[k].hp == p)
    && (forall k :: n <= k < |objects| ==> objects[k].hp in known && known[objects[k].hp] == (objects[k].hp in files))
  }

  /** Object number `k` is in its place, as it was or with its content. */
  ghost predicate Settled(files0: Snapshot, files: Snapshot, o: Item)
  {
    o.hp in files && files[o.hp] == if o.hp in files0 then files0[o.hp] else o.content
  }

  /** Asks for the existence of every object. */
  method PrefigureAll(fs: Sftp, objects: seq<Item>)
    requires fs.Valid() && fs.Known() == map[] && Fit(objects)
    requires fs.issued + |objects| <= ID_PERIOD
    modifies fs, fs.server
    ensures fs.Valid() && fs.issued == old(fs.issued) + |objects|
    ensures fs.server.files == old(fs.server.files)
    ensures Prefetched(fs.Known(), fs.server.files, objects, 0)
    ensures objects == [] ==> fs.existence == old(fs.existence) && fs.existenceInflight == old(fs.existenceInflight)
    ensures Remembered(old(fs.server.Past()), fs.server.Past())
  {
    hide Sftp.Valid, Sftp.Known, Remembered;
    ghost var past := fs.server.Past();
    RememberedSame(past);
    for n := 0 to |objects|
      invariant fs.Valid() && fs.issued == old(fs.issued) + n
      invariant fs.server.files == old(fs.server.files)
      invariant Prefetched(fs.Known(), fs.server.files, objects[..n], 0)
      invariant n == 0 ==> fs.existence == old(fs.existence) && fs.existenceInflight == old(fs.existenceInflight)
      invariant Remembered(past, fs.server.Past())
    {
      ghost var mid := fs.server.Past();
      fs.PrefigureExists(objects[n].hp);
      RememberedOn(past, mid, fs.server.Past());
      ghost var some, more := objects[..n], objects[..n + 1];
      assert more == some + [objects[n]];
      forall p | p in fs.Known()
        ensures exists k :: 0 <= k < n + 1 && more[k].hp == p
      {
        if p == objects[n].hp {
          assert more[n].hp == p;
        } else {
          var k :| 0 <= k < n && some[k].hp == p;
          assert more[k].hp == p;
        }
      }
    }
    assert objects[..|objects|] == objects;
  }

  ghost predicate SameAt(a: Snapshot, b: Snapshot, p: Path)
  {
    (p in a <==> p in b) && (p in a ==> b[p] == a[p])
  }

  /** Storing the object `n` leaves the answers for the later ones right. */
  lemma {:induction false} StillPrefetched(known: map<Path, bool>, files: Snapshot, files': Snapshot,
                                           objects: seq<Item>, n: nat)
    requires n < |objects| && Apart(objects) && Prefetched(known, files, objects, n)
    requires forall p :: p != objects[n].hp && p != Repository.TmpName(objects[n].hp) ==> SameAt(files, files', p)
    ensures Prefetched(known - {objects[n].hp}, files', objects, n + 1)
  {
    forall k | n + 1 <= k < |objects|
      ensures SameAt(files, files', objects[k].hp) && objects[k].hp != objects[n].hp
    {
    }
    forall p | p in known - {objects[n].hp}
      ensures exists k :: n + 1 <= k < |objects| && objects[k].hp == p
    {
      var k :| n <= k < |objects| && objects[k].hp == p;
      assert k != n;
    }
  }

  lemma {:induction false} IdsNeededStep(files: Snapshot, objects: seq<Item>, n: nat)
    requires n < |objects|
    ensures IdsNeeded(files, objects[n..]) ==
            (if objects[n].hp in files then 0 else Writes(objects[n].content) + 3) + IdsNeeded(files, objects[n + 1..])
  {
    hide Writes;
    assert objects[n..][1..] == objects[n + 1..];
  }

  /** The files once an answer was used: stored if it said that the object was
      not there. */
  function AfterAnswer(files: Snapshot, present: bool, o: Item): Snapshot
  {
    if present then files else (files - {Repository.TmpName(o.hp)})[o.hp := o.content]
  }

  /** The files after `k` answers, the last of them used in the last state. */
  ghost function FilesAfter(start: Snapshot, objects: seq<Item>, answers: seq<bool>, states: seq<Snapshot>,
                            k: nat): Snapshot
    requires k <= |states| == |answers| <= |objects|
  {
    if k == 0 then start else AfterAnswer(states[k - 1], answers[k - 1], objects[k - 1])
  }

  /** `answers` were used one after another, each in the state that the one
      before left, and each says what is so in that state. */
  ghost predicate UsedOneByOne(start: Snapshot, objects: seq<Item>, answers: seq<bool>, states: seq<Snapshot>)
  {
    && |states| == |answers| <= |objects|
    && (forall k :: 0 <= k < |answers| ==> answers[k] == (objects[k].hp in states[k]))
    && (forall k :: 0 <= k < |states| ==> states[k] == FilesAfter(start, objects, answers, states, k))
  }

  lemma {:induction false} OneMoreUsed(start: Snapshot, objects: seq<Item>, answers: seq<bool>, states: seq<Snapshot>,
                                       now: Snapshot, present: bool)
    requires UsedOneByOne(start, objects, answers, states) && |answers| < |objects|
    requires now == FilesAfter(start, objects, answers, states, |answers|) && present == (objects[|answers|].hp in now)
    ensures UsedOneByOne(start, objects, answers + [present], states + [now])
    ensures FilesAfter(start, objects, answers + [present], states + [now], |answers| + 1) ==
            AfterAnswer(now, present, objects[|answers|])
  {
    hide AfterAnswer, FilesAfter;
    var all, after := answers + [present], states + [now];
    forall k | 0 <= k <= |answers|
      ensures FilesAfter(start, objects, all, after, k) == FilesAfter(start, objects, answers, states, k)
    {
      FilesAfterEarlier(start, objects, answers, states, now, present, k);
    }
    LastAnswer(start, objects, answers, states, now, present);
  }

  lemma {:induction false} LastAnswer(start: Snapshot, objects: seq<Item>, answers: seq<bool>, states: seq<Snapshot>,
                                      now: Snapshot, present: bool)
    requires |states| == |answers| < |objects|
    ensures FilesAfter(start, objects, answers + [present], states + [now], |answers| + 1) ==
            AfterAnswer(now, present, objects[|answers|])
  {
    hide AfterAnswer;
  }

  lemma {:induction false} FilesAfterEarlier(start: Snapshot, objects: seq<Item>, answers: seq<bool>,
                                             states: seq<Snapshot>, now: Snapshot, present: bool, k: nat)
    requires k <= |states| == |answers| < |objects|
    ensures FilesAfter(start, objects, answers + [present], states + [now], k) ==
            FilesAfter(start, objects, answers, states, k)
  {
    hide AfterAnswer;
  }

  /** The end of a directory over SFTP: each noted object that the repository
      does not have is stored.  The prefetched answers are trusted although
      other objects were stored after the questions were asked.  Yet each is
      what a test made at the moment of its use would say, because the hashes
      noted are different and so are their places; and the cache is empty when
      the directory is done. */
  method StoreMissing(fs: Sftp, repo: Path, pending: seq<Repository.Hashable>, copied: Snapshot,
                      posix0: bool)
    returns (ok: bool, posix: bool, answers: seq<bool>, ghost states: seq<Snapshot>)
    requires fs.Valid() && fs.existenceInflight == [] && fs.existence == map[]
    requires Repository.NotedOnce(repo, pending) && Fit(Items(pending, copied))
    requires fs.issued + Fallback(posix0) + |pending| + IdsNeeded(fs.server.files, Items(pending, copied)) <= ID_PERIOD
    modifies fs, fs.server
    ensures fs.Valid() && fs.existenceInflight == []
    ensures UsedOneByOne(old(fs.server.files), Items(pending, copied), answers, states)
    ensures ok ==> fs.existence == map[] && |answers| == |pending|
    ensures ok ==>
              fs.server.files == FilesAfter(old(fs.server.files), Items(pending, copied), answers, states, |pending|)
    // it stops only if the server refuses, or a file is gone
    ensures !ok ==> RefusedSince(old(fs.server.Past()), fs.server.Past())
                    || exists x :: x in pending && x.hp !in old(fs.server.files) && x.path !in copied
    // which is what asking and storing one after another leaves
    ensures ok ==> fs.server.files == Repository.StoredAll(old(fs.server.files), pending, copied)
    ensures ok ==> forall o :: o in Items(pending, copied) ==> Settled(old(fs.server.files), fs.server.files, o)
    ensures OtherFilesKept(old(fs.server.files), fs.server.files, Items(pending, copied))
  {
    hide Sftp.Valid, Sftp.Known, IdsNeeded, Apart, Settled, UsedOneByOne, AfterAnswer, SoFar, OtherFilesKept,
         Repository.NotedOnce, FilesAfter, Writes, Repository.StoredOne, Remembered, RefusedSince, Fallback,
         Repository.StoredAll, SameAt;
    ghost var files, past := fs.server.files, fs.server.Past();
    var objects := Items(pending, copied);
    ItemsApart(repo, pending, copied);
    fs.KnownIsCache();
    PrefigureAll(fs, objects);
    if objects == [] {
      fs.KnownIsCache();
    }
    ok, posix, answers, states := true, posix0, [], [];
    NothingSoFar(fs.Known(), files, pending, copied);
    assert objects[0..] == objects;
    var n := 0;
    while n < |objects|
      invariant n <= |objects| && fs.Valid() && ok
      invariant SoFar(fs.Known(), files, fs.server.files, pending, copied, answers, states, n)
      invariant n > 0 || objects == [] ==> fs.existenceInflight == [] && fs.existence == fs.Known()
      invariant fs.issued + Fallback(posix) + IdsNeeded(files, objects[n..]) <= ID_PERIOD
      invariant Remembered(past, fs.server.Past())
    {
      ghost var mid, known, before := fs.server.Past(), fs.Known(), fs.server.files;
      IdsNeededStep(files, objects, n);
      NextAnswer(known, files, before, pending, copied, answers, states, n);
      var present := fs.Exists(objects[n].hp);
      RememberedOn(past, mid, fs.server.Past());
      mid := fs.server.Past();
      ok, posix := StoreIfMissing(fs, pending[n], copied, present, posix);
      RememberedOn(past, mid, fs.server.Past());
      OneMoreStored(known, files, before, fs.server.files, pending, copied, answers, states, n, present, ok);
      answers, states := answers + [present], states + [before];
      if !ok {
        assert pending[n] in pending;
        if pending[n].path in copied {
          RefusedEarlier(past, mid, fs.server.Past());
        }
        return;
      }
      fs.KnownIsCache();
      n := n + 1;
    }
    AllSoFar(fs.Known(), files, fs.server.files, pending, copied, answers, states);
  }

  /** How far the storing has come after `n` answers, each right when it was
      used. */
  ghost predicate SoFar(known: map<Path, bool>, files: Snapshot, now: Snapshot, pending: seq<Repository.Hashable>,
                        copied: Snapshot, answers: seq<bool>, states: seq<Snapshot>, n: nat)
  {
    var objects := Items(pending, copied);
    && n == |answers| == |states| <= |pending| && Prefetched(known, now, objects, n)
    && Progress(files, now, objects, n) && UsedOneByOne(files, objects, answers, states)
    && now == FilesAfter(files, objects, answers, states, n)
    && now == Repository.StoredAll(files, pending[..n], copied)
  }

  lemma {:induction false} NothingSoFar(known: map<Path, bool>, files: Snapshot, pending: seq<Repository.Hashable>,
                                        copied: Snapshot)
    requires Prefetched(known, files, Items(pending, copied), 0)
    ensures SoFar(known, files, files, pending, copied, [], [], 0)
  {
    hide Prefetched, Progress, UsedOneByOne, FilesAfter;
    NoProgress(files, Items(pending, copied));
    NothingUsed(files, Items(pending, copied));
  }

  lemma {:induction false} NextAnswer(known: map<Path, bool>, files: Snapshot, now: Snapshot,
                                      pending: seq<Repository.Hashable>, copied: Snapshot, answers: seq<bool>,
                                      states: seq<Snapshot>, n: nat)
    requires SoFar(known, files, now, pending, copied, answers, states, n) && n < |pending|
    ensures var hp := pending[n].hp;
            hp in known && known[hp] == (hp in now) && (hp in now <==> hp in files)
  {
    hide Prefetched, Progress, UsedOneByOne, FilesAfter, Repository.StoredAll;
    StillAsBefore(files, now, Items(pending, copied), n);
    PrefetchedAnswer(known, now, Items(pending, copied), n);
  }

  lemma {:induction false} OneMoreStored(known: map<Path, bool>, files: Snapshot, now: Snapshot, after: Snapshot,
                                         pending: seq<Repository.Hashable>, copied: Snapshot, answers: seq<bool>,
                                         states: seq<Snapshot>, n: nat, present: bool, ok: bool)
    requires SoFar(known, files, now, pending, copied, answers, states, n) && n < |pending|
    requires Apart(Items(pending, copied)) && present == (pending[n].hp in now)
    requires forall p :: p != pending[n].hp && p != Repository.TmpName(pending[n].hp) ==> SameAt(now, after, p)
    requires present ==> ok && after == now
    requires ok ==> (present || pending[n].path in copied)
                    && after == AfterAnswer(now, present, ItemOf(pending[n], copied))
    ensures UsedOneByOne(files, Items(pending, copied), answers + [present], states + [now])
    ensures OtherFilesKept(files, after, Items(pending, copied))
    ensures ok ==>
              SoFar(known - {pending[n].hp}, files, after, pending, copied, answers + [present], states + [now], n + 1)
  {
    hide Prefetched, Progress, UsedOneByOne, FilesAfter, Repository.StoredAll, AfterAnswer, Apart, OtherFilesKept,
         Repository.StoredOne, SameAt;
    var objects := Items(pending, copied);
    OneMoreUsed(files, objects, answers, states, now, present);
    if present {
      assert SameAt(now, after, objects[n].hp) by { Unchanged(now, objects[n].hp); }
    }
    OthersKept(files, now, after, objects, n);
    if ok {
      AnswerUsed(now, present, objects[n]);
      AnswerStores(now, pending[n], copied);
      Repository.StoredNext(files, pending, copied, n);
      StillPrefetched(known, now, after, objects, n);
      ProgressStep(files, now, after, objects, n);
    }
  }

  lemma {:induction false} Unchanged(files: Snapshot, p: Path)
    ensures SameAt(files, files, p)
  {
  }

  lemma {:induction false} AllSoFar(known: map<Path, bool>, files: Snapshot, now: Snapshot,
                                    pending: seq<Repository.Hashable>, copied: Snapshot, answers: seq<bool>,
                                    states: seq<Snapshot>)
    requires SoFar(known, files, now, pending, copied, answers, states, |pending|)
    ensures var objects := Items(pending, copied);
            && known == map[] && |answers| == |states| == |pending| && UsedOneByOne(files, objects, answers, states)
            && now == FilesAfter(files, objects, answers, states, |pending|)
            && now == Repository.StoredAll(files, pending, copied) && OtherFilesKept(files, now, objects)
            && forall o :: o in objects ==> Settled(files, now, o)
  {
    hide Prefetched, Progress, UsedOneByOne, FilesAfter, Repository.StoredAll, Settled, OtherFilesKept;
    assert pending[..|pending|] == pending;
    AllStored(known, files, now, Items(pending, copied));
  }

  lemma {:induction false} StillAsBefore(files: Snapshot, now: Snapshot, objects: seq<Item>, n: nat)
    requires n < |objects| && Progress(files, now, objects, n)
    ensures objects[n].hp in now <==> objects[n].hp in files
  {
    assert SameAt(files, now, objects[n].hp);
  }

  /** A right answer stores what a test made now would store. */
  lemma {:induction false} AnswerStores(before: Snapshot, x: Repository.Hashable, copied: Snapshot)
    requires x.hp in before || x.path in copied
    ensures AfterAnswer(before, x.hp in before, ItemOf(x, copied)) == Repository.StoredOne(before, x, copied)
  {
  }

  /** What an answer leads to. */
  method StoreIfMissing(fs: Sftp, x: Repository.Hashable, copied: Snapshot, present: bool, posix0: bool)
    returns (ok: bool, posix: bool)
    requires fs.Valid() && fs.existenceInflight == [] && (present <==> x.hp in fs.server.files)
    requires |x.hp| + 4 < UINT32 && |ItemOf(x, copied).content| <= MAX_FILE
    requires !present ==> fs.issued + Fallback(posix0) + Writes(ItemOf(x, copied).content) + 3 <= ID_PERIOD
    modifies fs, fs.server
    ensures fs.Valid() && fs.existenceInflight == [] && fs.existence == old(fs.existence)
    ensures fs.issued + Fallback(posix) <=
            old(fs.issued) + Fallback(posix0) + if present then 0 else Writes(ItemOf(x, copied).content) + 3
    ensures ok ==> (present || x.path in copied)
                   && fs.server.files == AfterAnswer(old(fs.server.files), present, ItemOf(x, copied))
    ensures forall p :: p != x.hp && p != Repository.TmpName(x.hp) ==> SameAt(old(fs.server.files), fs.server.files, p)
    ensures !ok ==> !present && x.hp !in fs.server.files
    ensures !ok && x.path in copied ==> RefusedSince(old(fs.server.Past()), fs.server.Past())
    ensures present ==> ok && fs.server.files == old(fs.server.files)
    ensures Remembered(old(fs.server.Past()), fs.server.Past())
  {
    hide Sftp.Valid, Writes, Remembered, RefusedSince, Fallback, Repository.TmpName;
    ok, posix := true, posix0;
    RememberedSame(fs.server.Past());
    if !present {
      if x.path !in copied {
        return false, posix;
      }
      ok, posix := StoreObject(fs, x.hp, copied[x.path], posix0);
    }
  }

  lemma {:induction false} AnswerUsed(before: Snapshot, present: bool, o: Item)
    ensures AfterAnswer(before, present, o) ==
            if present then before else (before - {Repository.TmpName(o.hp)})[o.hp := o.content]
  {
  }

  lemma {:induction false} NothingUsed(start: Snapshot, objects: seq<Item>)
    ensures UsedOneByOne(start, objects, [], []) && FilesAfter(start, objects, [], [], 0) == start
  {
  }

  /** The places of noted objects are apart. */
  lemma {:induction false} ItemsApart(repo: Path, pending: seq<Repository.Hashable>, copied: Snapshot)
    requires Repository.NotedOnce(repo, pending)
    ensures Apart(Items(pending, copied))
  {
    hide Repository.NotedOnce, Repository.TmpName;
    Repository.NotedApart(repo, pending);
  }

  /** How far the storing has come: the first `n` objects are in their places,
      the places of the others are untouched, and so is all else. */
  ghost predicate Progress(files: Snapshot, now: Snapshot, objects: seq<Item>, n: nat)
    requires n <= |objects|
  {
    && (forall k :: 0 <= k < n ==> Settled(files, now, objects[k]))
    && (forall k :: n <= k < |objects| ==> SameAt(files, now, objects[k].hp))
    && OtherFilesKept(files, now, objects)
  }

  ghost predicate OtherFilesKept(files: Snapshot, now: Snapshot, objects: seq<Item>)
  {
    forall p :: p in files && (forall k :: 0 <= k < |objects| ==> p != Repository.TmpName(objects[k].hp)) ==>
                  p in now && now[p] == files[p]
  }

  lemma {:induction false} NoProgress(files: Snapshot, objects: seq<Item>)
    ensures Progress(files, files, objects, 0)
  {
  }

  lemma {:induction false} AllStored(known: map<Path, bool>, files: Snapshot, now: Snapshot, objects: seq<Item>)
    requires Progress(files, now, objects, |objects|) && Prefetched(known, now, objects, |objects|)
    ensures known == map[] && OtherFilesKept(files, now, objects)
    ensures forall k :: 0 <= k < |objects| ==> Settled(files, now, objects[k])
  {
  }

  lemma {:induction false} PrefetchedAnswer(known: map<Path, bool>, files: Snapshot, objects: seq<Item>, n: nat)
    requires n < |objects| && Prefetched(known, files, objects, n)
    ensures objects[n].hp in known && known[objects[n].hp] == (objects[n].hp in files)
  {
  }

  lemma {:induction false} OthersKept(files: Snapshot, before: Snapshot, after: Snapshot, objects: seq<Item>,
                                      n: nat)
    requires n < |objects| && Progress(files, before, objects, n)
    requires forall p :: p != objects[n].hp && p != Repository.TmpName(objects[n].hp) ==> SameAt(before, after, p)
    requires objects[n].hp in before ==> SameAt(before, after, objects[n].hp)
    ensures OtherFilesKept(files, after, objects)
  {
    forall p | p in files && forall k :: 0 <= k < |objects| ==> p != Repository.TmpName(objects[k].hp)
      ensures p in after && after[p] == files[p]
    {
      assert p in before && before[p] == files[p];
      assert p != Repository.TmpName(objects[n].hp);
      assert SameAt(before, after, p);
    }
  }

  lemma {:induction false} ProgressStep(files: Snapshot, before: Snapshot, after: Snapshot, objects: seq<Item>,
                                        n: nat)
    requires n < |objects| && Apart(objects) && Progress(files, before, objects, n)
    requires forall p :: p != objects[n].hp && p != Repository.TmpName(objects[n].hp) ==> SameAt(before, after, p)
    requires if objects[n].hp in before then SameAt(before, after, objects[n].hp)
             else objects[n].hp in after && after[objects[n].hp] == objects[n].content
    ensures Progress(files, after, objects, n + 1)
  {
    OthersKept(files, before, after, objects, n);
    forall k | 0 <= k < |objects| && k != n
      ensures SameAt(before, after, objects[k].hp)
    {
      assert objects[k].hp != Repository.TmpName(objects[n].hp);
    }
  }
}
