/** Repositories over time: any sequence of backups and cleanups, each of which
    may be cut off at any of its steps. */
module History {
  import opened Bytes
  import opened IndexText
  import opened Names
  import opened Walk
  import opened BufferedFile
  import opened Repository
  import Backup
  import Cleanup

  datatype Action = BackingUp(config: Backup.Config) | Cleaning(indexes: seq<Path>)

  /** What the repository can be once the action is over or was cut off.  The
      list for a cleanup names every complete index that is to be kept. */
  ghost predicate Outcome(repo: Path, kept: set<Path>, action: Action, before: Snapshot, after: Snapshot)
  {
    match action
    case BackingUp(config) => config.repo == repo && Extends(before, after, repo, Backup.Written(config))
    case Cleaning(indexes) =>
      && Cleanup.Cleaned(before, after, repo, indexes)
      && forall p :: p in kept && p in before && ReadAll(before[p]).Complete() ==> p in indexes
  }

  ghost predicate Run(repo: Path, kept: set<Path>, actions: seq<Action>, states: seq<Snapshot>)
  {
    && |states| == |actions| + 1
    && forall i :: 0 <= i < |actions| ==> Outcome(repo, kept, actions[i], states[i], states[i + 1])
  }

  lemma {:induction false} OutcomeKeepsSafe(repo: Path, kept: set<Path>, action: Action, before: Snapshot,
                                            after: Snapshot)
    requires Outcome(repo, kept, action, before, after) && Sound(before, repo) && Safe(before, repo, kept)
    requires forall p :: p in kept ==> !InStore(repo, p)
    ensures Sound(after, repo) && Safe(after, repo, kept)
  {
    hide Sound, Safe, Cleanup.Cleaned, InStore, ReadAll, KeepsStore, Restorable;
    match action {
      case BackingUp(config) =>
        ExtendsKeepsSafe(before, after, repo, Backup.Written(config), kept);
      case Cleaning(indexes) =>
        Cleanup.CleanedKeepsSafe(before, after, repo, indexes, kept);
        Cleanup.CleanedStaysSound(before, after, repo, indexes);
    }
  }

  /** No backup of the sequence writes to `p`. */
  ghost predicate NeverWritten(actions: seq<Action>, p: Path)
  {
    forall i :: 0 <= i < |actions| && actions[i].BackingUp? ==> p !in Backup.Written(actions[i].config)
  }

  /** A file outside the store that no backup writes to stays as it is. */
  lemma {:induction false} FileStays(repo: Path, kept: set<Path>, actions: seq<Action>, states: seq<Snapshot>, n: nat,
                                     p: Path)
    requires Run(repo, kept, actions, states) && n < |states| && !InStore(repo, p) && p in states[0]
    requires NeverWritten(actions, p)
    ensures p in states[n] && states[n][p] == states[0][p]
    decreases n
  {
    hide InStore, Sound, KeepsStore, Restorable, Stored, StorePath, ReadAll, Backup.Written;
    if n > 0 {
      FileStays(repo, kept, actions, states, n - 1, p);
      assert Outcome(repo, kept, actions[n - 1], states[n - 1], states[n]);
    }
  }

  /** Over any sequence of backups and cleanups the store stays sound, all kept
      indexes stay restorable, and those that no backup writes to stay as they
      are. */
  lemma {:induction false} RunKeepsSafe(repo: Path, kept: set<Path>, actions: seq<Action>, states: seq<Snapshot>,
                                        n: nat)
    requires Run(repo, kept, actions, states) && n < |states|
    requires Sound(states[0], repo) && Safe(states[0], repo, kept)
    requires forall p :: p in kept ==> !InStore(repo, p)
    ensures Sound(states[n], repo) && Safe(states[n], repo, kept)
    ensures forall p :: p in kept && p in states[0] && NeverWritten(actions, p) ==>
                          p in states[n] && states[n][p] == states[0][p]
    decreases n
  {
    hide Sound, Safe, Outcome, InStore, NeverWritten;
    if n > 0 {
      RunKeepsSafe(repo, kept, actions, states, n - 1);
      OutcomeKeepsSafe(repo, kept, actions[n - 1], states[n - 1], states[n]);
    }
    forall p | p in kept && p in states[0] && NeverWritten(actions, p)
      ensures p in states[n] && states[n][p] == states[0][p]
    {
      FileStays(repo, kept, actions, states, n, p);
    }
  }

  /** Every state of a backup is an outcome of it, and so is the state that it
      leaves, finished or failed ... */
  lemma {:induction false} BackupOutcomes(repo: Path, kept: set<Path>, config: Backup.Config, before: Snapshot,
                                          after: Snapshot, t0: seq<Snapshot>, t1: seq<Snapshot>)
    requires config.repo == repo && Backup.AllExtend(t0, t1, before, config)
    requires Extends(before, after, repo, Backup.Written(config))
    ensures forall k :: |t0| <= k < |t1| ==> Outcome(repo, kept, BackingUp(config), before, t1[k])
    ensures Outcome(repo, kept, BackingUp(config), before, after)
  {
    hide Extends, Backup.Written;
  }

  /** ... and every state of a cleanup, and what it leaves. */
  lemma {:induction false} CleanupOutcomes(repo: Path, kept: set<Path>, indexes: seq<Path>, opts: Cleanup.CleanOptions,
                                           before: Snapshot, after: Snapshot, t0: seq<Snapshot>, t1: seq<Snapshot>)
    requires var gone := Cleanup.ToGo(before, repo, indexes, opts);
             Cleanup.Shrinking(t0, t1, before, gone) && after == before - gone
    requires forall p :: p in kept && p in before && ReadAll(before[p]).Complete() ==> p in indexes
    ensures forall k :: |t0| <= k < |t1| ==> Outcome(repo, kept, Cleaning(indexes), before, t1[k])
    ensures Outcome(repo, kept, Cleaning(indexes), before, after)
  {
    hide Cleanup.Cleaned, Cleanup.Shrinking, Cleanup.Gone, Cleanup.Doomed, Cleanup.Needed, ReadAll;
    Cleanup.ShrinkingCleans(t0, t1, before, repo, indexes, opts);
    Cleanup.LosingDoomed(before, repo, indexes, opts, Cleanup.ToGo(before, repo, indexes, opts));
  }

  /** A backup, whatever comes of it: each state on the way and the one that it
      leaves is an outcome. */
  method BackUp(config: Backup.Config, tree: Tree, listings: map<Path, seq<Name>>, scanned: Storage, copied: Storage,
                backupfs: Storage, ghost kept: set<Path>) returns (failure: Option<Backup.Failure>)
    requires WellFormed(tree) && Backup.HostShows(config, tree, listings, scanned.files, copied.files)
    requires backupfs != scanned && backupfs != copied
    requires Sound(backupfs.files, config.repo) && !InStore(config.repo, config.indexfile)
    modifies backupfs
    ensures old(backupfs.trace) <= backupfs.trace
    ensures forall k :: |old(backupfs.trace)| <= k < |backupfs.trace| ==>
              Outcome(config.repo, kept, BackingUp(config), old(backupfs.files), backupfs.trace[k])
    ensures Outcome(config.repo, kept, BackingUp(config), old(backupfs.files), backupfs.files)
  {
    hide Extends, Backup.Written, WellFormed, Backup.HostShows, Sound, InStore, RecordsStored, IndexOf;
    failure := Backup.DoBackup(config, tree, listings, scanned, copied, backupfs);
    BackupOutcomes(config.repo, kept, config, old(backupfs.files), backupfs.files, old(backupfs.trace),
                   backupfs.trace);
  }

  /** A cleanup that is given every complete index among those to be kept,
      likewise; it may also refuse to do anything. */
  method CleanUp(fs: Storage, repo: Path, indexes: seq<Path>, opts: Cleanup.CleanOptions, ghost kept: set<Path>)
    returns (failure: Option<Cleanup.CleanFailure>, deleted: nat, printed: seq<Path>)
    requires Treelike(fs.files)
    requires forall p :: p in kept && p in fs.files && ReadAll(fs.files[p]).Complete() ==> p in indexes
    modifies fs
    ensures old(fs.trace) <= fs.trace && Treelike(fs.files)
    ensures forall k :: |old(fs.trace)| <= k < |fs.trace| ==>
              Outcome(repo, kept, Cleaning(indexes), old(fs.files), fs.trace[k])
    ensures Outcome(repo, kept, Cleaning(indexes), old(fs.files), fs.files)
  {
    hide Cleanup.Cleaned, Cleanup.Gone, Cleanup.Doomed, Cleanup.Needed, ReadAll, Treelike, Cleanup.Usable,
         Cleanup.AllUsable;
    failure, deleted, printed := Cleanup.DoClean(fs, repo, indexes, opts);
    if failure.None? {
      CleanupOutcomes(repo, kept, indexes, opts, old(fs.files), fs.files, old(fs.trace), fs.trace);
    } else {
      Cleanup.LosingDoomed(fs.files, repo, indexes, opts, {});
      assert fs.files - {} == fs.files;
    }
  }
}
