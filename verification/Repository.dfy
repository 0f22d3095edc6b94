/** The repository: objects named by their hash, and what it means for an
    index to be restorable from it. */
module Repository {
  import opened Bytes
  import opened UrlCodec
  import opened IndexLine
  import opened IndexText
  import opened Records
  import opened BufferedFile
  import HashFile

  const TMP_SUFFIX: Bytes := ".tmp"

  function TmpName(p: Path): Path { p + TMP_SUFFIX }

  function StoreRoot(repo: Path): Path { repo + "/" + HASH_NAME }

  /** Where the repository keeps the object with hash `h`. */
  function StorePath(repo: Path, h: Digest): Path { StoreRoot(repo) + "/" + HashPathOf(h) }

  lemma {:induction false} StorePathIs(repo: Path, h: Digest)
    ensures StorePath(repo, h) == StoreRoot(repo) + "/" + HashPathOf(h)
  {
  }

  /** A file whose copying into the store is put off. */
  datatype Hashable = Hashable(path: Path, hp: Path, hash: Digest)

  /** Each copy goes to the place of its hash, and no hash waits twice. */
  ghost predicate NotedOnce(repo: Path, pending: seq<Hashable>)
  {
    && (forall i :: 0 <= i < |pending| ==> pending[i].hp == StorePath(repo, pending[i].hash))
    && (forall i, j :: 0 <= i < j < |pending| ==> pending[i].hash != pending[j].hash)
  }

  /** A copy that is put off, made at last: the object is put into its place
      unless something is there. */
  function StoredOne(files: Snapshot, x: Hashable, copied: Snapshot): Snapshot
  {
    if x.hp in files || x.path !in copied then files
    else (files - {TmpName(x.hp)})[x.hp := copied[x.path]]
  }

  /** All of them, one after another. */
  ghost function StoredAll(files: Snapshot, pending: seq<Hashable>, copied: Snapshot): Snapshot
  {
    if pending == [] then files
    else StoredOne(StoredAll(files, pending[..|pending| - 1], copied), pending[|pending| - 1], copied)
  }

  lemma {:induction false} StoredNext(files: Snapshot, pending: seq<Hashable>, copied: Snapshot, k: nat)
    requires k < |pending|
    ensures StoredAll(files, pending[..k + 1], copied) ==
            StoredOne(StoredAll(files, pending[..k], copied), pending[k], copied)
  {
    assert pending[..k + 1][..k] == pending[..k];
  }

  predicate InStore(repo: Path, p: Path) { StoreRoot(repo) + "/" <= p }

  /** Where the tool puts something into the store: the place of some hash,
      and its temporary name. */
  ghost predicate StorePlace(repo: Path, p: Path)
  {
    exists h: Digest :: p == StorePath(repo, h) || p == TmpName(StorePath(repo, h))
  }

  lemma {:induction false} StorePathShape(repo: Path, h: Digest)
    ensures StorePlace(repo, StorePath(repo, h)) && StorePlace(repo, TmpName(StorePath(repo, h)))
    ensures InStore(repo, StorePath(repo, h)) && InStore(repo, TmpName(StorePath(repo, h)))
    ensures |StorePath(repo, h)| == |StoreRoot(repo)| + 47
    ensures forall k :: TmpName(StorePath(repo, h)) != StorePath(repo, k)
  {
    HashPathEndsInHex(h);
    forall k
      ensures TmpName(StorePath(repo, h)) != StorePath(repo, k)
    {
      HashPathEndsInHex(k);
      assert |StorePath(repo, k)| == |StorePath(repo, h)|;
    }
  }

  lemma {:induction false} StorePathInjective(repo: Path, h: Digest, k: Digest)
    requires StorePath(repo, h) == StorePath(repo, k)
    ensures h == k
  {
    hide HashPathOf;
    assert StorePath(repo, h)[|StoreRoot(repo)| + 1..] == HashPathOf(h);
    assert StorePath(repo, k)[|StoreRoot(repo)| + 1..] == HashPathOf(k);
    HashPathInjective(h, k);
  }

  /** So no place is written twice, and none is another's temporary name. */
  lemma {:induction false} NotedApart(repo: Path, pending: seq<Hashable>)
    requires NotedOnce(repo, pending)
    ensures forall i, j :: 0 <= i < j < |pending| ==> pending[i].hp != pending[j].hp
    ensures forall i, j :: 0 <= i < |pending| && 0 <= j < |pending| ==> pending[i].hp != TmpName(pending[j].hp)
  {
    hide StorePath, TmpName;
    forall i, j | 0 <= i < |pending| && 0 <= j < |pending|
      ensures i < j ==> pending[i].hp != pending[j].hp
      ensures pending[i].hp != TmpName(pending[j].hp)
    {
      StorePathShape(repo, pending[j].hash);
      if i < j && pending[i].hp == pending[j].hp {
        StorePathInjective(repo, pending[i].hash, pending[j].hash);
      }
    }
  }

  // Directories, which are the prefixes of file names ----------------------------------

  predicate Under(dir: Path, p: Path) { dir + "/" <= p }

  /** No file is also a directory. */
  ghost predicate Treelike(files: Snapshot)
  {
    forall p, q :: p in files && q in files ==> !Under(p, q)
  }

  /** Where a backup may put something. */
  ghost predicate Place(repo: Path, written: set<Path>, p: Path) { p in written || StorePlace(repo, p) }

  /** No file is in the way of what a backup may put, and no index stands where
      the directories of the store are to be. */
  ghost predicate LeavesRoom(files: Snapshot, repo: Path, written: set<Path>)
  {
    && (forall p, q :: p in files && Place(repo, written, q) ==> !Under(p, q) && !Under(q, p))
    && forall p, q :: p in written && StorePlace(repo, q) ==> !Under(p, q)
  }

  lemma {:induction false} PlacesApart(repo: Path, p: Path, q: Path)
    requires StorePlace(repo, p) && StorePlace(repo, q)
    ensures InStore(repo, p) && !Under(p, q)
  {
    hide StorePath, InStore;
    var h: Digest :| p == StorePath(repo, h) || p == TmpName(StorePath(repo, h));
    var k: Digest :| q == StorePath(repo, k) || q == TmpName(StorePath(repo, k));
    StorePathShape(repo, h);
    StorePathShape(repo, k);
    if |p| < |q| {
      assert q == StorePath(repo, k) + TMP_SUFFIX && |p| == |StorePath(repo, k)|;
      assert q[|p|] == '.' && (p + "/")[|p|] == '/';
    }
  }

  /** Names that were apart stay apart when a backup puts something. */
  lemma {:induction false} ExtendsStaysTreelike(base: Snapshot, after: Snapshot, repo: Path, written: set<Path>)
    requires Extends(base, after, repo, written) && Treelike(base) && LeavesRoom(base, repo, written)
    requires forall p, q :: p in written && q in written ==> !Under(p, q)
    requires forall p :: p in written ==> !InStore(repo, p)
    ensures Treelike(after) && LeavesRoom(after, repo, written)
  {
    hide Sound, KeepsStore, InStore, Restorable, StorePlace, Under;
    forall p | p in after && p !in base
      ensures Place(repo, written, p)
    {
    }
    forall p, q | Place(repo, written, p) && Place(repo, written, q)
      ensures !Under(p, q)
    {
      TwoPlaces(repo, written, p, q);
    }
  }

  lemma {:induction false} TwoPlaces(repo: Path, written: set<Path>, p: Path, q: Path)
    requires Place(repo, written, p) && Place(repo, written, q)
    requires forall p, q :: p in written && q in written ==> !Under(p, q)
    requires forall p, q :: p in written && StorePlace(repo, q) ==> !Under(p, q)
    requires forall p :: p in written ==> !InStore(repo, p)
    ensures !Under(p, q)
  {
    hide StorePlace;
    if p !in written {
      PlacesApart(repo, p, p);
      if q !in written {
        PlacesApart(repo, p, q);
      }
    }
  }

  // Sound stores ------------------------------------------------------------------------

  /** Objects stand under their final path with matching content. */
  ghost predicate Stored(files: Snapshot, repo: Path, h: Digest)
  {
    StorePath(repo, h) in files && HashFile.Hashed(files[StorePath(repo, h)]) == Ok(h)
  }

  ghost predicate Sound(files: Snapshot, repo: Path)
  {
    forall h: Digest :: StorePath(repo, h) in files ==> Stored(files, repo, h)
  }

  ghost predicate KeepsStore(before: Snapshot, after: Snapshot, repo: Path)
  {
    forall h: Digest :: StorePath(repo, h) in before ==>
                          StorePath(repo, h) in after && after[StorePath(repo, h)] == before[StorePath(repo, h)]
  }

  /** Putting content under the place of a hash keeps a store sound if and only
      if it has that hash. */
  lemma {:induction false} StoringKeepsSound(files: Snapshot, repo: Path, h: Digest, content: Bytes)
    requires Sound(files, repo)
    ensures Sound(files[StorePath(repo, h) := content], repo) <==> HashFile.Hashed(content) == Ok(h)
  {
    hide HashFile.Hashed, StorePath;
    var after := files[StorePath(repo, h) := content];
    assert Stored(after, repo, h) <==> HashFile.Hashed(content) == Ok(h);
    if HashFile.Hashed(content) == Ok(h) {
      forall k: Digest | StorePath(repo, k) in after
        ensures Stored(after, repo, k)
      {
        if StorePath(repo, k) == StorePath(repo, h) {
          StorePathInjective(repo, h, k);
        }
      }
    }
  }

  // Restorable indexes ------------------------------------------------------------------

  /** An entry kept by hash finds its object. */
  ghost predicate EntryRestorable(files: Snapshot, repo: Path, d: Details)
  {
    HASH_NAME in d ==> HashOfHex(d[HASH_NAME]).Ok? && Stored(files, repo, HashOfHex(d[HASH_NAME]).value)
  }

  ghost predicate EntriesRestorable(files: Snapshot, repo: Path, entries: seq<Details>)
  {
    forall i :: 0 <= i < |entries| ==> EntryRestorable(files, repo, entries[i])
  }

  /** A complete index refers only to stored objects. */
  ghost predicate Restorable(files: Snapshot, repo: Path, text: Bytes)
  {
    ReadAll(text).Complete() ==> EntriesRestorable(files, repo, ReadAll(text).entries)
  }

  /** All indexes among `kept` that exist are restorable if complete. */
  ghost predicate Safe(files: Snapshot, repo: Path, kept: set<Path>)
  {
    forall p :: p in kept && p in files ==> Restorable(files, repo, files[p])
  }

  lemma {:induction false} RestorableKept(before: Snapshot, after: Snapshot, repo: Path, text: Bytes)
    requires KeepsStore(before, after, repo) && Restorable(before, repo, text)
    ensures Restorable(after, repo, text)
  {
    hide ReadAll, HashFile.Hashed, StorePath, HashOfHex;
    var r := ReadAll(text);
    if r.Complete() {
      forall i | 0 <= i < |r.entries|
        ensures EntryRestorable(after, repo, r.entries[i])
      {
        assert EntryRestorable(before, repo, r.entries[i]);
      }
    }
  }

  // The steps of a backup ------------------------------------------------------------------

  ghost predicate SameBut(before: Snapshot, after: Snapshot, paths: set<Path>)
  {
    forall p :: p !in paths ==> (p in before <==> p in after) && (p in before ==> after[p] == before[p])
  }

  /** `after` differs from `base` in objects added to the store, in temporary
      files of the store, and in the files `written` outside it. */
  ghost predicate Frame(base: Snapshot, after: Snapshot, repo: Path, written: set<Path>)
  {
    && Sound(after, repo)
    && KeepsStore(base, after, repo)
    && (forall p :: p in after && p !in base && InStore(repo, p) ==> StorePlace(repo, p))
    && forall p :: !InStore(repo, p) && p !in written ==>
                     (p in base <==> p in after) && (p in base ==> after[p] == base[p])
  }

  /** ... and the files written are harmless: none of them is a complete index
      that cannot be restored. */
  ghost predicate Extends(base: Snapshot, after: Snapshot, repo: Path, written: set<Path>)
  {
    && Frame(base, after, repo, written)
    && forall p :: p in written && p in after ==>
                     (p in base && after[p] == base[p]) || Restorable(after, repo, after[p])
  }

  /** Whatever indexes were safe stay safe. */
  lemma {:induction false} ExtendsKeepsSafe(base: Snapshot, after: Snapshot, repo: Path, written: set<Path>,
                                            kept: set<Path>)
    requires Extends(base, after, repo, written) && Safe(base, repo, kept)
    requires forall p :: p in kept ==> !InStore(repo, p)
    ensures Safe(after, repo, kept)
  {
    hide Restorable, InStore, Sound;
    forall p | p in kept && p in after
      ensures Restorable(after, repo, after[p])
    {
      if p in base && after[p] == base[p] {
        RestorableKept(base, after, repo, base[p]);
      }
    }
  }

  // The index being written ---------------------------------------------------------------

  /** What one backup is about to write: the lines of the whole index. */
  datatype Job = Job(repo: Path, base: Snapshot, target: Path, recs: seq<Record>)

  /** A state while the lines are written. */
  ghost predicate Progress(job: Job, files: Snapshot)
  {
    && Frame(job.base, files, job.repo, {job.target})
    && job.target in files && files[job.target] <= Lines(job.recs)
  }

  ghost predicate AllProgress(job: Job, t0: seq<Snapshot>, t1: seq<Snapshot>)
  {
    t0 <= t1 && forall k :: |t0| <= k < |t1| ==> Progress(job, t1[k])
  }

  lemma {:induction false} AllProgressOn(job: Job, t0: seq<Snapshot>, t1: seq<Snapshot>, t2: seq<Snapshot>)
    requires AllProgress(job, t0, t1) && AllProgress(job, t1, t2)
    ensures AllProgress(job, t0, t2)
  {
    hide Progress;
    assert forall k :: 0 <= k < |t1| ==> t2[k] == t1[k];
    forall k | |t0| <= k < |t2|
      ensures Progress(job, t2[k])
    {
    }
  }

  /** From one moment of the run to a later one. */
  ghost predicate Advanced(job: Job, t0: seq<Snapshot>, files: Snapshot, t1: seq<Snapshot>, after: Snapshot)
  {
    AllProgress(job, t0, t1) && KeepsStore(files, after, job.repo)
  }

  lemma {:induction false} AdvancedOn(job: Job, t0: seq<Snapshot>, files: Snapshot, t1: seq<Snapshot>, mid: Snapshot,
                                      t2: seq<Snapshot>, after: Snapshot)
    requires Advanced(job, t0, files, t1, mid) && Advanced(job, t1, mid, t2, after)
    ensures Advanced(job, t0, files, t2, after)
  {
    hide StorePath;
    AllProgressOn(job, t0, t1, t2);
  }

  lemma {:induction false} AdvancedKeeps(job: Job, t0: seq<Snapshot>, files: Snapshot, t1: seq<Snapshot>,
                                         after: Snapshot)
    requires Advanced(job, t0, files, t1, after)
    ensures KeepsStore(files, after, job.repo)
  {
  }

  lemma {:induction false} AdvancedNowhere(job: Job, t: seq<Snapshot>, files: Snapshot)
    ensures Advanced(job, t, files, t, files)
  {
  }

  /** Lines without the end mark are no index. */
  lemma {:induction false} ProgressExtends(job: Job, files: Snapshot)
    requires Progress(job, files) && forall i :: 0 <= i < |job.recs| ==> Named(job.recs[i])
    ensures Extends(job.base, files, job.repo, {job.target})
  {
    hide Frame, ReadAll, Named, Lines;
    LinesAreIncomplete(job.recs, files[job.target]);
  }

  /** Changing the file at `target` only. */
  lemma {:induction false} FrameOfTarget(base: Snapshot, files: Snapshot, repo: Path, target: Path, text: Bytes)
    requires Frame(base, files, repo, {target}) && !InStore(repo, target)
    ensures Frame(base, files[target := text], repo, {target})
    ensures KeepsStore(files, files[target := text], repo)
  {
    hide HashFile.Hashed, InStore, StorePath;
    var after := files[target := text];
    forall h: Digest
      ensures StorePath(repo, h) != target
      ensures StorePath(repo, h) in after ==> Stored(after, repo, h)
    {
      StorePathShape(repo, h);
    }
  }

  lemma {:induction false} GrowingIsProgress(job: Job, t0: seq<Snapshot>, t1: seq<Snapshot>, files: Snapshot,
                                             total: Bytes)
    requires Progress(job, files) && !InStore(job.repo, job.target)
    requires Growing(t0, t1, files, job.target, total) && total <= Lines(job.recs)
    ensures AllProgress(job, t0, t1)
  {
    hide Frame, InStore, Lines;
    forall k | |t0| <= k < |t1|
      ensures Progress(job, t1[k])
    {
      FrameOfTarget(job.base, files, job.repo, job.target, t1[k][job.target]);
    }
  }

  // The store being filled -----------------------------------------------------------------

  /** A temporary file of the store matters to nobody. */
  lemma {:induction false} ProgressOfTmp(job: Job, files: Snapshot, h: Digest, text: Bytes)
    requires Progress(job, files) && !InStore(job.repo, job.target)
    ensures Progress(job, files[TmpName(StorePath(job.repo, h)) := text])
    ensures KeepsStore(files, files[TmpName(StorePath(job.repo, h)) := text], job.repo)
  {
    hide HashFile.Hashed, InStore, StorePath, Lines, TmpName;
    var tmp := TmpName(StorePath(job.repo, h));
    var after := files[tmp := text];
    StorePathShape(job.repo, h);
    forall k: Digest
      ensures StorePath(job.repo, k) in after ==> Stored(after, job.repo, k)
    {
    }
  }

  lemma {:induction false} TmpGrowingIsProgress(job: Job, t0: seq<Snapshot>, t1: seq<Snapshot>, files: Snapshot,
                                                h: Digest,
                                                 total: Bytes)
    requires Progress(job, files) && !InStore(job.repo, job.target)
    requires Growing(t0, t1, files, TmpName(StorePath(job.repo, h)), total)
    ensures AllProgress(job, t0, t1)
  {
    hide Progress, InStore, StorePath, TmpName;
    forall k | |t0| <= k < |t1|
      ensures Progress(job, t1[k])
    {
      ProgressOfTmp(job, files, h, t1[k][TmpName(StorePath(job.repo, h))]);
    }
  }

  /** The rename puts the object into place. */
  lemma {:induction false} ProgressOfObject(job: Job, files: Snapshot, h: Digest)
    requires Progress(job, files) && !InStore(job.repo, job.target)
    requires StorePath(job.repo, h) !in files && TmpName(StorePath(job.repo, h)) in files
    requires HashFile.Hashed(files[TmpName(StorePath(job.repo, h))]) == Ok(h)
    ensures var tmp := TmpName(StorePath(job.repo, h));
            var after := (files - {tmp})[StorePath(job.repo, h) := files[tmp]];
            && Progress(job, after) && KeepsStore(files, after, job.repo) && Stored(after, job.repo, h)
  {
    hide HashFile.Hashed, InStore, StorePath, Lines, TmpName;
    var hp, tmp := StorePath(job.repo, h), TmpName(StorePath(job.repo, h));
    var after := (files - {tmp})[hp := files[tmp]];
    StorePathShape(job.repo, h);
    forall k: Digest
      ensures StorePath(job.repo, k) in files ==>
                StorePath(job.repo, k) in after && after[StorePath(job.repo, k)] == files[StorePath(job.repo, k)]
      ensures StorePath(job.repo, k) in after ==> Stored(after, job.repo, k)
    {
      if StorePath(job.repo, k) == hp {
        StorePathInjective(job.repo, h, k);
      }
    }
  }

  // Closing the index -------------------------------------------------------------------------

  /** Every hash of the records is stored. */
  ghost predicate RecordsStored(files: Snapshot, repo: Path, recs: seq<Record>)
  {
    forall i :: 0 <= i < |recs| ==> EntryRestorable(files, repo, DetailsOf(recs[i]))
  }

  /** With every object in place any piece of the index may be on disk. */
  lemma {:induction false} PieceIsRestorable(files: Snapshot, repo: Path, recs: seq<Record>, text: Bytes)
    requires forall i :: 0 <= i < |recs| ==> Named(recs[i])
    requires RecordsStored(files, repo, recs) && text <= IndexOf(recs)
    ensures Restorable(files, repo, text)
  {
    hide ReadAll, IndexOf, DetailsOf, EntryRestorable;
    assert text == IndexOf(recs)[..|text|];
    TruncationIsDetected(recs, |text|);
  }

  lemma {:induction false} RecordsStoredKept(before: Snapshot, after: Snapshot, repo: Path, recs: seq<Record>)
    requires KeepsStore(before, after, repo) && RecordsStored(before, repo, recs)
    ensures RecordsStored(after, repo, recs)
  {
    hide DetailsOf, HashFile.Hashed, StorePath, HashOfHex;
    forall i | 0 <= i < |recs|
      ensures EntryRestorable(after, repo, DetailsOf(recs[i]))
    {
      assert EntryRestorable(before, repo, DetailsOf(recs[i]));
    }
  }
}
