/** Hashing whole files (hash.cc): by reading them through the buffered file,
    or by mapping them in large chunks. */
module HashFile {
  import opened Bytes
  import UrlCodec
  import opened BufferedFile
  import opened Sha1
  import Sha1Spec

  const MAXMAP: nat := 0x1000_0000

  type HashOutcome = Result<UrlCodec.Digest, int>

  /** The hash of a file, or the exception HashError for a file too long for
      SHA-1. */
  function Hashed(content: Bytes): HashOutcome
  {
    if |content| < Sha1Spec.LIMIT then Ok(Sha1Spec.Digest(content)) else Err(SHA_TOO_LONG)
  }

  class Hash {
    const c: Sha1Context

    ghost predicate Valid()
      reads this, c, c.intermediateHash, c.messageBlock
    {
      c.Valid()
    }

    /** A context about to take in `content`. */
    constructor (ghost content: Bytes)
      ensures fresh(c) && fresh(c.intermediateHash) && fresh(c.messageBlock)
      ensures Took(content, 0)
    {
      hide Sha1Context.Valid;
      c := new Sha1Context();
    }

    /** The length parameter of SHA1Input has 32 bits, so a longer piece loses
        its high part. */
    method Write(data: Bytes) returns (e: int)
      requires Valid() && !c.computed
      modifies c, c.intermediateHash, c.messageBlock
      ensures Valid() && !c.computed
      ensures var taken := |data| % WORD_RANGE;
              if taken == 0 then e == SHA_SUCCESS && c.message == old(c.message) && c.corrupted == old(c.corrupted)
              else if old(c.corrupted) != SHA_SUCCESS then
                e == c.corrupted == old(c.corrupted) && c.message == old(c.message)
              else
                && e == SHA_SUCCESS
                && c.message == old(c.message) + data[..Min(taken, Sha1Spec.LIMIT - |old(c.message)|)]
                && c.corrupted == if |c.message| == Sha1Spec.LIMIT then SHA_TOO_LONG else SHA_SUCCESS
    {
      var taken := |data| % WORD_RANGE;
      assert taken <= |data|;
      ghost var n := Min(taken, Sha1Spec.LIMIT - |c.message|);
      assert 0 <= n ==> data[..taken][..n] == data[..n];
      e := c.Input(data[..taken]);
    }

    method Value() returns (r: HashOutcome)
      requires Valid() && !c.computed
      modifies c, c.intermediateHash, c.messageBlock
      ensures r == if old(c.corrupted) != SHA_SUCCESS then Err(old(c.corrupted))
                   else if |old(c.message)| < Sha1Spec.LIMIT then Ok(Sha1Spec.Digest(old(c.message)))
                   else Err(SHA_TOO_LONG)
    {
      var e, digest := c.Result();
      r := if e != SHA_SUCCESS then Err(e) else Ok(digest);
    }

    /** The context after the first `n` octets of `content`. */
    ghost predicate Took(content: Bytes, n: nat)
      requires n <= |content|
      reads this, c, c.intermediateHash, c.messageBlock
    {
      && Valid() && !c.computed
      && c.message == content[..Min(n, Sha1Spec.LIMIT)]
      && c.corrupted == if n >= Sha1Spec.LIMIT then SHA_TOO_LONG else SHA_SUCCESS
    }

    /** The hash of the content, once all of it was taken in. */
    method ValueOf(ghost content: Bytes) returns (r: HashOutcome)
      requires Took(content, |content|)
      modifies c, c.intermediateHash, c.messageBlock
      ensures r == Hashed(content)
    {
      assert content[..|content|] == content;
      r := Value();
    }

    method WriteNext(ghost content: Bytes, ghost n: nat, piece: Bytes) returns (e: int)
      requires n <= |content| && Took(content, n)
      requires 0 < |piece| < WORD_RANGE && piece <= content[n..]
      modifies c, c.intermediateHash, c.messageBlock
      ensures e == SHA_SUCCESS ==> n + |piece| <= |content| && Took(content, n + |piece|)
      ensures e != SHA_SUCCESS ==> e == SHA_TOO_LONG && |content| >= Sha1Spec.LIMIT
    {
      assert |piece| % WORD_RANGE == |piece|;
      e := Write(piece);
      if n < Sha1Spec.LIMIT {
        TakeMore(content, n, piece, Min(|piece|, Sha1Spec.LIMIT - n));
      }
    }
  }

  lemma {:induction false} TakeMore(content: Bytes, n: nat, piece: Bytes, k: nat)
    requires n <= |content| && piece <= content[n..] && k <= |piece|
    ensures content[..n] + piece[..k] == content[..n + k]
  {
    assert piece == content[n..][..|piece|];
  }

  /** The reading path. */
  method HashByReading(fs: Storage, path: Path) returns (r: HashOutcome)
    requires path in fs.files
    ensures r == Hashed(fs.files[path])
  {
    hide Hashed, Hash.Took, File.Rest, Sha1Context.Valid;
    ghost var content := fs.files[path];
    var ho := new Hash(content);
    var f := new File(fs, path);
    ghost var n := 0;
    var buffer := f.GetBytes(BUFFER_SIZE, false);
    while buffer != []
      modifies f, f.buffer, ho.c, ho.c.intermediateHash, ho.c.messageBlock
      invariant f.Valid() && f.mode == Reading && f.Truthful() && f.fs == fs && f.path == path
      invariant n + |buffer| <= |content| && ho.Took(content, n)
      invariant |buffer| <= BUFFER_SIZE && buffer <= content[n..]
      invariant f.Rest() == content[n + |buffer|..]
      invariant buffer == [] ==> n == |content|
      decreases |content| - n
    {
      var e := ho.WriteNext(content, n, buffer);
      if e != SHA_SUCCESS {
        TooLong(content);
        return Err(e);
      }
      n := n + |buffer|;
      buffer := f.GetBytes(BUFFER_SIZE, false);
      DropTwice(content, n, |buffer|);
    }
    r := ho.ValueOf(content);
  }

  /** The mapping path, for local files of at least 256 Kbyte. */
  method HashByMapping(content: Bytes) returns (r: HashOutcome)
    ensures r == Hashed(content)
  {
    hide Hashed, Hash.Took;
    var ho := new Hash(content);
    var n := 0;
    while n < |content|
      modifies ho.c, ho.c.intermediateHash, ho.c.messageBlock
      invariant n <= |content| && ho.Took(content, n)
    {
      var left := |content| - n;
      var size := if left > MAXMAP then MAXMAP else left;
      var m := content[n..n + size];
      assert m <= content[n..];
      var e := ho.WriteNext(content, n, m);
      if e != SHA_SUCCESS {
        TooLong(content);
        return Err(e);
      }
      n := n + size;
    }
    r := ho.ValueOf(content);
  }

  lemma {:induction false} TooLong(content: Bytes)
    requires |content| >= Sha1Spec.LIMIT
    ensures Hashed(content) == Err(SHA_TOO_LONG)
  {
  }

  /** The two paths agree: `hashfile` does not depend on the hint. */
  method HashWholeFile(fs: Storage, path: Path, mapHint: bool) returns (r: HashOutcome)
    requires path in fs.files
    ensures r == Hashed(fs.files[path])
  {
    if mapHint {
      r := HashByMapping(fs.files[path]);
    } else {
      r := HashByReading(fs, path);
    }
  }
}
