/** Writing to a local file (local.cc).  After a short write the loop asks for
    the full count again, and so may write octets from beyond the data. */
module LocalFile {
  import opened Bytes
  import opened BufferedFile

  function Sum(a: seq<nat>): nat
  {
    if a == [] then 0 else Sum(a[..|a| - 1]) + a[|a| - 1]
  }

  /** What the system may accept, write by write: something of what was asked
      for, until the loop has counted enough. */
  ghost predicate Accepts(a: seq<nat>, nbytes: nat)
  {
    && (forall i :: 0 <= i < |a| ==> 1 <= a[i] <= nbytes)
    && Sum(a) >= nbytes && (a != [] ==> Sum(a[..|a| - 1]) < nbytes)
  }

  /** `memory` holds the data in its first `nbytes` octets, and what lies behind
      it. */
  method WriteBytes(fs: Storage, path: Path, memory: Bytes, nbytes: nat) returns (accepted: seq<nat>)
    requires path in fs.files && |memory| >= 2 * nbytes
    modifies fs
    ensures Accepts(accepted, nbytes) && Sum(accepted) <= |memory|
    ensures fs.files == old(fs.files)[path := old(fs.files)[path] + memory[..Sum(accepted)]]
    ensures fs.files[path] == old(fs.files)[path] + memory[..nbytes] <==> Sum(accepted) == nbytes
  {
    var written := 0;
    accepted := [];
    ghost var base, before := fs.files, fs.files[path];
    Nothing(before, memory);
    while written < nbytes
      invariant written == Sum(accepted) && written <= 2 * nbytes
      invariant Accepting(accepted, nbytes)
      invariant fs.files == base[path := before + memory[..written]]
    {
      hide Accepting, Sum;
      var n: nat :| 1 <= n <= nbytes;
      AcceptMore(accepted, nbytes, n);
      NextPiece(before, memory, written, n);
      fs.Append(path, memory[written..written + n]);
      accepted := accepted + [n];
      written := written + n;
    }
    ExactlyTheData(before, memory, nbytes, written);
  }

  /** So far, and the loop goes on if it has not counted enough. */
  ghost predicate Accepting(a: seq<nat>, nbytes: nat)
  {
    (forall i :: 0 <= i < |a| ==> 1 <= a[i] <= nbytes) && (a != [] ==> Sum(a[..|a| - 1]) < nbytes)
  }

  lemma {:induction false} AcceptMore(a: seq<nat>, nbytes: nat, n: nat)
    requires Accepting(a, nbytes) && Sum(a) < nbytes && 1 <= n <= nbytes
    ensures Accepting(a + [n], nbytes) && Sum(a + [n]) == Sum(a) + n
  {
    assert (a + [n])[..|a|] == a;
  }

  lemma {:induction false} Nothing(before: Bytes, memory: Bytes)
    ensures before + memory[..0] == before
  {
  }

  lemma {:induction false} NextPiece(before: Bytes, memory: Bytes, written: nat, n: nat)
    requires written + n <= |memory|
    ensures before + memory[..written] + memory[written..written + n] == before + memory[..written + n]
  {
    assert memory[..written] + memory[written..written + n] == memory[..written + n];
  }

  /** The file gets the data and no more exactly when what was accepted adds up
      to it. */
  lemma {:induction false} ExactlyTheData(before: Bytes, memory: Bytes, nbytes: nat, sum: nat)
    requires nbytes <= |memory| && sum <= |memory|
    ensures before + memory[..sum] == before + memory[..nbytes] <==> sum == nbytes
  {
    if before + memory[..sum] == before + memory[..nbytes] {
      assert |before + memory[..sum]| == |before + memory[..nbytes]|;
    }
  }

  /** A short write followed by a full one writes one octet too many. */
  lemma {:induction false} ShortWriteOverruns(nbytes: nat)
    requires nbytes >= 2
    ensures Accepts([1, nbytes], nbytes) && Sum([1, nbytes]) == nbytes + 1
  {
    assert [1, nbytes][..1] == [1] && [1][..0] == [];
    assert Sum([1]) == 1;
  }

  /** The file gets exactly the data, whatever the system accepts, if and only
      if there is no more than one octet to write. */
  lemma {:induction false} WritesExactly(nbytes: nat)
    ensures (forall a :: Accepts(a, nbytes) ==> Sum(a) == nbytes) <==> nbytes <= 1
  {
    if nbytes >= 2 {
      ShortWriteOverruns(nbytes);
    } else {
      forall a | Accepts(a, nbytes)
        ensures Sum(a) == nbytes
      {
        if a != [] {
          assert a[|a| - 1] <= nbytes;
        }
      }
    }
  }
}
