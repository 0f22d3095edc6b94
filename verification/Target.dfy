/** The filesystem that a restore writes to: names that lead to numbered
    files, so that two names may lead to one.  Names are taken as they are;
    there is no resolution of dots or of symbolic links. */
module Target {
  import opened Bytes
  import opened Names

  datatype Kind = Plain(content: Bytes) | Folder | Link(target: Bytes)

  datatype Node = Node(kind: Kind, mode: nat, user: Bytes, group: Bytes)

  /** Access and modification time. */
  type Times = (nat, nat)

  /** `tick` counts the steps that look at the clock. */
  datatype Fs = Fs(names: map<Path, nat>, nodes: map<nat, Node>, times: map<nat, Times>, next: nat, tick: nat)

  /** What the restore does not choose: the clock, the permissions that new
      files get, and whose they are. */
  datatype Env = Env(now: nat -> nat, born: nat -> nat, user: Bytes, group: Bytes)

  const EMPTY: Fs := Fs(map[], map[], map[], 0, 0)

  predicate IsDir(fs: Fs, p: Path) { p in fs.names && fs.names[p] in fs.nodes && fs.nodes[fs.names[p]].kind.Folder? }

  ghost predicate Valid(fs: Fs)
  {
    && (forall p :: p in fs.names ==> fs.names[p] in fs.nodes && fs.names[p] in fs.times)
    && (forall n :: n in fs.nodes || n in fs.times ==> n < fs.next)
  }

  predicate HasEntries(fs: Fs, dir: Path) { exists p :: p in fs.names && Parent(p) == dir }

  /** There is a directory to hold the name. */
  predicate HasParent(fs: Fs, p: Path) { Parent(p) == ROOT || IsDir(fs, Parent(p)) }

  /** Changing the entries of a directory sets its modification time. */
  function Touched(fs: Fs, env: Env, p: Path): Fs
  {
    var d := Parent(p);
    if d in fs.names && fs.names[d] in fs.times then
      fs.(times := fs.times[fs.names[d] := (fs.times[fs.names[d]].0, env.now(fs.tick))], tick := fs.tick + 1)
    else fs.(tick := fs.tick + 1)
  }

  /** A new file under a new name; none if that cannot be. */
  function Made(fs: Fs, env: Env, p: Path, kind: Kind): Option<Fs>
  {
    if p in fs.names || !HasParent(fs, p) then None
    else
      var n, t := fs.next, env.now(fs.tick);
      var made := Fs(fs.names[p := n], fs.nodes[n := Node(kind, env.born(fs.tick), env.user, env.group)],
                     fs.times[n := (t, t)], n + 1, fs.tick);
      Some(Touched(made, env, p))
  }

  /** Opening for writing: a new file, or an old one emptied. */
  function Opened(fs: Fs, env: Env, p: Path): Option<Fs>
  {
    if p in fs.names then
      if fs.names[p] in fs.nodes && fs.nodes[fs.names[p]].kind.Plain? then
        Some(fs.(nodes := fs.nodes[fs.names[p] := fs.nodes[fs.names[p]].(kind := Plain([]))]))
      else None
    else Made(fs, env, p, Plain([]))
  }

  predicate IsPlain(fs: Fs, p: Path) { p in fs.names && fs.names[p] in fs.nodes && fs.nodes[fs.names[p]].kind.Plain? }

  /** More content at the end of a file. */
  function Appended(fs: Fs, p: Path, data: Bytes): Fs
    requires IsPlain(fs, p)
  {
    var n := fs.names[p];
    fs.(nodes := fs.nodes[n := fs.nodes[n].(kind := Plain(fs.nodes[n].kind.content + data))])
  }

  lemma {:induction false} AppendedTwice(fs: Fs, p: Path, a: Bytes, b: Bytes)
    requires IsPlain(fs, p)
    ensures IsPlain(Appended(fs, p, a), p) && Appended(Appended(fs, p, a), p, b) == Appended(fs, p, a + b)
  {
    var n := fs.names[p];
    var c := fs.nodes[n].kind.content;
    assert c + a + b == c + (a + b);
  }

  lemma {:induction false} AppendedNothing(fs: Fs, p: Path)
    requires IsPlain(fs, p)
    ensures Appended(fs, p, []) == fs
  {
    var c := fs.nodes[fs.names[p]].kind.content;
    assert c + [] == c;
    assert fs.nodes[fs.names[p] := fs.nodes[fs.names[p]]] == fs.nodes;
  }

  lemma {:induction false} OpenedIsPlain(fs: Fs, env: Env, p: Path)
    ensures Opened(fs, env, p).Some? ==> IsPlain(Opened(fs, env, p).value, p)
  {
  }

  /** Removing a file or an empty directory; otherwise nothing happens. */
  function Removed(fs: Fs, env: Env, p: Path): Fs
  {
    if p in fs.names && !HasEntries(fs, p) then Touched(fs.(names := fs.names - {p}), env, p) else fs
  }

  /** One more name for a file. */
  function Linked(fs: Fs, env: Env, oldpath: Path, p: Path): Option<Fs>
  {
    if oldpath !in fs.names || IsDir(fs, oldpath) || p in fs.names || !HasParent(fs, p) then None
    else Some(Touched(fs.(names := fs.names[p := fs.names[oldpath]]), env, p))
  }

  /** Two names of one file: nothing happens.  Otherwise the new name is taken
      over, by a directory only from an empty directory.  A directory that is
      renamed here has just been made and is empty. */
  function Renamed(fs: Fs, env: Env, oldpath: Path, p: Path): Option<Fs>
  {
    if oldpath !in fs.names || !HasParent(fs, p) || HasEntries(fs, oldpath) then None
    else if p in fs.names && fs.names[p] == fs.names[oldpath] then Some(fs)
    else if p in fs.names && (IsDir(fs, p) != IsDir(fs, oldpath) || HasEntries(fs, p)) then None
    else
      var moved := fs.(names := (fs.names - {oldpath})[p := fs.names[oldpath]]);
      Some(Touched(Touched(moved, env, oldpath), env, p))
  }

  const SETID: nat := 0x400

  /** A change of ownership takes away the set-user-id and set-group-id bits. */
  function Chowned(fs: Fs, p: Path, user: Bytes, group: Bytes): Option<Fs>
  {
    if p in fs.names && fs.names[p] in fs.nodes then
      var n := fs.names[p];
      Some(fs.(nodes := fs.nodes[n := Node(fs.nodes[n].kind, fs.nodes[n].mode % SETID, user, group)]))
    else None
  }

  function Chmodded(fs: Fs, p: Path, mode: nat): Option<Fs>
  {
    if p in fs.names && fs.names[p] in fs.nodes then
      var n := fs.names[p];
      Some(fs.(nodes := fs.nodes[n := fs.nodes[n].(mode := mode)]))
    else None
  }

  function Stamped(fs: Fs, p: Path, atime: nat, mtime: nat): Option<Fs>
  {
    if p in fs.names then Some(fs.(times := fs.times[fs.names[p] := (atime, mtime)])) else None
  }
}
