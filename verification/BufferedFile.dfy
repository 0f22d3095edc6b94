/** The generic file of file.cc: a 4096-octet buffer between its callers and a
    filesystem that may answer any read with fewer octets than asked for. */
module BufferedFile {
  import opened Bytes
  import opened IndexText

  type Snapshot = map<Path, Bytes>

  const BUFFER_SIZE := 4096

  /** A flat store of regular files.  `trace` holds every state it has been
      in, so that what is true of all of `trace` is true whenever the program
      is cut off. */
  class Storage {
    var files: Snapshot
    ghost var trace: seq<Snapshot>

    constructor (files: Snapshot)
      ensures this.files == files && trace == [files]
    {
      this.files := files;
      trace := [files];
    }

    method Append(path: Path, data: Bytes)
      requires path in files
      modifies this
      ensures files == old(files)[path := old(files)[path] + data]
      ensures trace == old(trace) + [files]
    {
      files := files[path := files[path] + data];
      trace := trace + [files];
    }

    /** Opening for overwriting: an empty file, whatever was there. */
    method Create(path: Path)
      modifies this
      ensures files == old(files)[path := []]
      ensures trace == old(trace) + [files]
    {
      files := files[path := []];
      trace := trace + [files];
    }

    /** One atomic step: the new name appears with the whole contents. */
    method Rename(oldpath: Path, newpath: Path) returns (ok: bool)
      modifies this
      ensures ok == (oldpath in old(files))
      ensures files == if ok then (old(files) - {oldpath})[newpath := old(files)[oldpath]] else old(files)
      ensures trace == old(trace) + [files]
    {
      ok := oldpath in files;
      if ok {
        files := (files - {oldpath})[newpath := files[oldpath]];
      }
      trace := trace + [files];
    }

    method Remove(path: Path)
      modifies this
      ensures files == old(files) - {path}
      ensures trace == old(trace) + [files]
    {
      files := files - {path};
      trace := trace + [files];
    }
  }

  /** The states after `t0` differ from `base` only in the file at `path`,
      which always holds a prefix of `total`. */
  ghost predicate Growing(t0: seq<Snapshot>, t1: seq<Snapshot>, base: Snapshot, path: Path, total: Bytes)
  {
    && t0 <= t1
    && forall k :: |t0| <= k < |t1| ==>
                     path in t1[k] && t1[k][path] <= total && t1[k] == base[path := t1[k][path]]
  }

  datatype Mode = Unused | Reading | Writing

  class File {
    const fs: Storage
    const path: Path
    /** How much of the file `readbytes` has delivered. */
    var offset: nat
    const buffer: array<Byte>
    var next: nat
    var top: nat
    var mode: Mode
    var eof: bool

    ghost predicate Valid()
      reads this, fs
    {
      && buffer.Length == BUFFER_SIZE
      && path in fs.files
      && offset <= |fs.files[path]|
      && next <= top <= BUFFER_SIZE
      && (mode == Unused ==> next == top == offset == 0 && !eof)
      && (mode == Writing ==> top == BUFFER_SIZE)
      && !(eof && mode == Writing)
    }

    constructor (fs: Storage, path: Path)
      requires path in fs.files
      ensures Valid() && this.fs == fs && this.path == path && fresh(buffer)
      ensures mode == Unused && !eof && offset == 0 && Rest() == fs.files[path]
    {
      this.fs := fs;
      this.path := path;
      offset, next, top := 0, 0, 0;
      buffer := new Byte[BUFFER_SIZE];
      mode := Unused;
      eof := false;
    }

    // Reading --------------------------------------------------------------------

    /** What is still to be delivered. */
    ghost function Rest(): Bytes
      requires Valid()
      reads this, fs, buffer
    {
      buffer[next..top] + fs.files[path][offset..]
    }

    /** End of file has not been noted while there is still something to read
        from the filesystem. */
    ghost predicate Truthful()
      requires Valid()
      reads this, fs
    {
      eof ==> offset == |fs.files[path]|
    }

    /** A read of up to `space` octets, as short as the system pleases, but
        empty only at the end of the file. */
    method ReadBytes(space: nat) returns (data: Bytes)
      requires Valid() && mode == Reading
      modifies `offset
      ensures Valid() && offset == old(offset) + |data| && |data| <= space
      ensures data == fs.files[path][old(offset)..offset]
      ensures data == [] <==> space == 0 || old(offset) == |fs.files[path]|
    {
      var left := |fs.files[path]| - offset;
      var most := if space < left then space else left;
      var n: nat :| n <= most && (most > 0 ==> n > 0);
      data := fs.files[path][offset..offset + n];
      offset := offset + n;
    }

    method Fill() returns (n: nat)
      requires Valid() && mode != Writing && next == top
      modifies this, buffer
      ensures Valid() && mode == Reading && Rest() == old(Rest())
      ensures n == top - next
      ensures old(eof) ==> n == 0 && eof && offset == old(offset)
      ensures !old(eof) ==> Truthful() && (eof <==> n == 0) && (n == 0 <==> old(Rest()) == [])
    {
      mode := Reading;
      if eof {
        return 0;
      }
      var data := ReadBytes(BUFFER_SIZE);
      Load(data);
      if |data| == 0 {
        eof := true;
      }
      return |data|;
    }

    /** The octets read go to the start of the buffer. */
    method Load(data: Bytes)
      requires |data| <= BUFFER_SIZE == buffer.Length
      modifies `next, `top, buffer
      ensures next == 0 && top == |data| && buffer[next..top] == data
    {
      for i := 0 to |data|
        modifies buffer
        invariant forall k :: 0 <= k < i ==> buffer[k] == data[k]
      {
        buffer[i] := data[i];
      }
      next := 0;
      top := |data|;
    }

    /** One character, or nothing at the end of the file. */
    method Getch() returns (c: Option<Byte>)
      requires Valid() && mode != Writing && Truthful()
      modifies this, buffer
      ensures Valid() && mode == Reading && Truthful()
      ensures old(Rest()) == [] ==> c == None && Rest() == []
      ensures old(Rest()) != [] ==> c == Some(old(Rest())[0]) && Rest() == old(Rest())[1..]
    {
      if next == top {
        var n := Fill();
        if n == 0 {
          return None;
        }
      }
      mode := Reading;
      c := Some(buffer[next]);
      next := next + 1;
    }

    method GetLine() returns (got: bool, r: Bytes)
      requires Valid() && mode != Writing && Truthful()
      modifies this, buffer
      ensures Valid() && mode == Reading && Truthful()
      ensures match NextLine(old(Rest()))
              case None => !got && Rest() == []
              case Some((line, rest)) => got && r == line && Rest() == rest
    {
      hide NextLine, Rest;
      r := [];
      ghost var all := Rest();
      var c := Getch();
      while c.Some? && c.value != '\n'
        invariant Valid() && mode == Reading && Truthful()
        invariant r <= all && '\n' !in r
        invariant c == if r == all then None else Some(all[|r|])
        invariant Rest() == if r == all then [] else all[|r| + 1..]
        decreases |all| - |r|
      {
        NextCharacter(all, r);
        r := r + [c.value];
        c := Getch();
      }
      LineTaken(all, r);
      got := c.Some? || |r| != 0;
    }

    /** Up to `max` octets; all of them unless the file ends, if `all`.
        Whatever `max` is, what is returned is the next piece of the file.
        Asking for nothing notes end of file even when there is more to
        read, and so is safe only when nothing is left in the filesystem. */
    method GetBytes(max: nat, all: bool) returns (data: Bytes)
      requires Valid() && mode != Writing && Truthful()
      modifies this, buffer
      ensures Valid() && mode == Reading
      ensures |data| <= max && data <= old(Rest()) && Rest() == old(Rest())[|data|..]
      ensures max > 0 ==> Truthful() && (data == [] <==> old(Rest()) == [])
      ensures max > 0 && all ==> |data| == if max < |old(Rest())| then max else |old(Rest())|
      // end of file is noted too early exactly if nothing is asked for
      ensures !old(eof) && old(Rest()) != [] ==> (eof && Rest() != [] <==> max == 0)
    {
      hide Rest;
      ghost var whole := Rest();
      data := [];
      if mode != Reading {
        var n := Fill();
        if n == 0 {
          return;
        }
      }
      var left: nat := max;
      while true
        invariant Valid() && mode == Reading && Truthful()
        invariant |data| + left == max && data <= whole && Rest() == whole[|data|..]
        invariant max > 0 ==> left > 0
        invariant !old(eof) && whole != [] ==> !eof
        invariant data != [] ==> !eof
        decreases left
      {
        var piece := GetPiece(left);
        left := left - |piece|;
        ExtendPrefix(whole, data, piece);
        data := data + piece;
        if !(all && !eof && left > 0) {
          break;
        }
      }
    }

    /** Asking for nothing first: whatever the filesystem has beyond a buffer's
        worth, the end of the file is then noted. */
    method AskForNothing()
      requires Valid() && mode == Unused && |fs.files[path]| > BUFFER_SIZE
      modifies this, buffer
      ensures Valid() && eof && !Truthful() && Rest() == old(Rest())
    {
      var data := GetBytes(0, false);
      assert old(Rest())[|data|..] == old(Rest());
    }

    /** One turn of the loop: from the buffer, refilled first for a small
        read, or straight from the filesystem. */
    method GetPiece(max: nat) returns (piece: Bytes)
      requires Valid() && mode == Reading && Truthful()
      modifies this, buffer
      ensures Valid() && mode == Reading
      ensures |piece| <= max && piece <= old(Rest()) && Rest() == old(Rest())[|piece|..]
      ensures piece == [] <==> max == 0 || old(Rest()) == []
      ensures max > 0 ==> Truthful()
      ensures eof <==> old(eof) || piece == []
      ensures old(eof) ==> |piece| == if max < |old(Rest())| then max else |old(Rest())|
    {
      if next == top && max < BUFFER_SIZE && !eof {
        var n := Fill();
        if n == 0 {
          return [];
        }
      }
      if next < top {
        piece := TakeBuffered(max);
      } else {
        piece := ReadBytes(max);
      }
      if |piece| == 0 {
        eof := true;
      }
    }

    method TakeBuffered(max: nat) returns (piece: Bytes)
      requires Valid() && mode == Reading && next < top
      modifies `next
      ensures Valid()
      ensures |piece| == if max > top - old(next) then top - old(next) else max
      ensures piece <= old(Rest()) && Rest() == old(Rest())[|piece|..]
    {
      var n := if max > top - next then top - next else max;
      piece := buffer[next..next + n];
      next := next + n;
    }

    // Writing ----------------------------------------------------------------------

    /** Everything put so far: what has reached the filesystem, then what is
        still buffered. */
    ghost function Written(): Bytes
      requires Valid()
      reads this, fs, buffer
    {
      if mode == Writing then fs.files[path] + buffer[..next] else fs.files[path]
    }

    method Put(c: Byte)
      requires Valid() && mode != Reading && !eof
      modifies this, buffer, fs
      ensures Valid() && mode == Writing && !eof
      ensures Written() == old(Written()) + [c]
      ensures fs.files == old(fs.files)[path := fs.files[path]]
      ensures Growing(old(fs.trace), fs.trace, old(fs.files), path, old(Written()))
    {
      if next == top {
        Flush();
      }
      ghost var before := buffer[..next];
      buffer[next] := c;
      next := next + 1;
      assert buffer[..next] == before + [c];
    }

    method PutString(s: Bytes)
      requires Valid() && mode != Reading && !eof
      modifies this, buffer, fs
      ensures Valid() && mode != Reading && !eof
      ensures Written() == old(Written()) + s
      ensures fs.files == old(fs.files)[path := fs.files[path]]
      ensures Growing(old(fs.trace), fs.trace, old(fs.files), path, old(Written()) + s)
    {
      hide Growing, Written;
      assert s[..0] == [] && Written() + [] == Written();
      GrowingNowhere(fs.trace, fs.files, path, Written() + s);
      for i := 0 to |s|
        invariant Valid() && mode != Reading && !eof
        invariant Written() == old(Written()) + s[..i]
        invariant fs.files == old(fs.files)[path := fs.files[path]]
        invariant Growing(old(fs.trace), fs.trace, old(fs.files), path, old(Written()) + s)
      {
        ghost var t1, base := fs.trace, fs.files;
        ghost var sofar := Written();
        Put(s[i]);
        assert s[..i + 1] == s[..i] + [s[i]];
        assert old(Written()) + s == sofar + s[i..];
        GrowingOn(old(fs.trace), t1, fs.trace, old(fs.files), base, path, sofar, old(Written()) + s);
      }
      assert s[..|s|] == s;
    }

    method Flush()
      requires Valid() && mode != Reading && !eof
      modifies this, fs
      ensures Valid() && mode == Writing && !eof && next == 0
      ensures fs.files == old(fs.files)[path := old(Written())]
      ensures Written() == old(Written())
      ensures Growing(old(fs.trace), fs.trace, old(fs.files), path, old(Written()))
    {
      if mode == Writing {
        if next != 0 {
          fs.Append(path, buffer[..next]);
        }
      } else {
        mode := Writing;
      }
      next := 0;
      top := BUFFER_SIZE;
      assert fs.files[path] == old(Written()) && buffer[..0] == [];
    }
  }

  lemma {:induction false} NextCharacter(all: Bytes, r: Bytes)
    requires r < all
    ensures r + [all[|r|]] <= all
    ensures var rest := all[|r| + 1..];
            if rest == [] then r + [all[|r|]] == all
            else r + [all[|r|]] != all && rest[0] == all[|r| + 1] && rest[1..] == all[|r| + 2..]
  {
    assert all == r + [all[|r|]] + all[|r| + 1..];
  }

  lemma {:induction false} LineTaken(all: Bytes, r: Bytes)
    requires r <= all && '\n' !in r
    requires r != all ==> all[|r|] == '\n'
    ensures NextLine(all) == if r != all then Some((r, all[|r| + 1..]))
                             else if all == [] then None else Some((all, []))
  {
    if r != all {
      assert all == r + ['\n'] + all[|r| + 1..];
      NextLineOfPrinted(r, all[|r| + 1..]);
    } else {
      assert r == all;
      FindAbsent(all, '\n');
    }
  }

  lemma {:induction false} ExtendPrefix(whole: Bytes, data: Bytes, piece: Bytes)
    requires data <= whole && piece <= whole[|data|..]
    ensures data + piece <= whole
    ensures whole[|data|..][|piece|..] == whole[|data + piece|..]
  {
    assert whole == data + whole[|data|..];
  }

  lemma {:induction false} GrowingNowhere(t: seq<Snapshot>, base: Snapshot, path: Path, total: Bytes)
    ensures Growing(t, t, base, path, total)
  {
  }

  lemma {:induction false} GrowingOn(t0: seq<Snapshot>, t1: seq<Snapshot>, t2: seq<Snapshot>,
                                     base: Snapshot, mid: Snapshot, path: Path, some: Bytes, total: Bytes)
    requires Growing(t0, t1, base, path, total) && Growing(t1, t2, mid, path, some)
    requires path in mid && mid == base[path := mid[path]] && some <= total
    ensures Growing(t0, t2, base, path, total)
  {
    forall k | |t0| <= k < |t2|
      ensures path in t2[k] && t2[k][path] <= total && t2[k] == base[path := t2[k][path]]
    {
      if k < |t1| {
        assert t2[k] == t1[k];
      } else {
        assert t2[k] == mid[path := t2[k][path]];
      }
    }
  }
}
