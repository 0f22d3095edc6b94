/** Byte strings, the currency of every other module: file contents, file
    names, lines of an index and SFTP packets are all `Bytes`. */
module Bytes {

  /** One octet.  A character below 256, so that text literals can be used. */
  type Byte = c: char | c < 256 as char witness 'a'

  type Bytes = seq<Byte>

  type Path = Bytes

  datatype Option<+T> = None | Some(value: T)

  datatype Result<+T, +E> = Ok(value: T) | Err(error: E)

  function Min(a: nat, b: nat): nat { if a < b then a else b }

  /** How many pieces of up to `size` make up `total`. */
  function PieceCount(total: nat, size: nat): nat
    requires size > 0
  {
    if total == 0 then 0 else 1 + PieceCount(total - Min(size, total), size)
  }

  lemma {:induction false} PieceCountIsCeiling(total: nat, size: nat)
    requires size > 0
    ensures PieceCount(total, size) == (total + (size - 1)) / size
  {
    if total > 0 {
      PieceCountIsCeiling(total - Min(size, total), size);
      if total > size {
        OneMoreTime(total - size + (size - 1), size);
      } else {
        OneMoreTime(total - 1, size);
      }
    }
  }

  lemma {:induction false} OneMoreTime(n: nat, size: nat)
    requires size > 0
    ensures (n + size) / size == n / size + 1
  {
    var a, b := n / size, (n + size) / size;
    assert (a + 1) * size == a * size + size;
    AtMost(a + 1, n % size, b, (n + size) % size, size);
    AtMost(b, (n + size) % size, a + 1, n % size, size);
  }

  lemma {:induction false} AtMost(a: nat, r: nat, b: nat, t: nat, size: nat)
    requires t < size && a * size + r == b * size + t
    ensures a <= b
  {
    assert (b + 1) * size == b * size + size;
    if a > b {
      Multiples(b + 1, a, size);
    }
  }

  lemma {:induction false} Multiples(a: nat, b: nat, size: nat)
    requires a <= b
    ensures a * size <= b * size
  {
  }

  function ByteOf(n: nat): Byte
    requires n < 256
  {
    n as char
  }

  /** The low 32 bits of a number, most significant octet first. */
  function BigEndian32(n: nat): (r: Bytes)
    ensures |r| == 4
  {
    [ByteOf(n / 0x100_0000 % 256), ByteOf(n / 0x1_0000 % 256), ByteOf(n / 0x100 % 256), ByteOf(n % 256)]
  }

  /** Position of the first `c` at or after `pos` (`string::find`). */
  function Find(s: Bytes, c: Byte, pos: nat): (r: Option<nat>)
    requires pos <= |s|
    ensures r.Some? ==> pos <= r.value < |s|
    decreases |s| - pos
  {
    if pos == |s| then None
    else if s[pos] == c then Some(pos)
    else Find(s, c, pos + 1)
  }

  lemma {:induction false} FindFirst(s: Bytes, c: Byte, pos: nat)
    requires pos <= |s|
    ensures var r := Find(s, c, pos);
            if r.None? then forall i :: pos <= i < |s| ==> s[i] != c
            else s[r.value] == c && forall i :: pos <= i < r.value ==> s[i] != c
    decreases |s| - pos
  {
    if pos < |s| && s[pos] != c {
      FindFirst(s, c, pos + 1);
    }
  }

  /** Position of the last `c` (`string::rfind`). */
  function RFind(s: Bytes, c: Byte): (r: Option<nat>)
    ensures r.Some? ==> r.value < |s|
  {
    if s == [] then None
    else if s[|s| - 1] == c then Some(|s| - 1)
    else RFind(s[..|s| - 1], c)
  }

  lemma {:induction false} RFindLast(s: Bytes, c: Byte)
    ensures var r := RFind(s, c);
            if r.None? then forall i :: 0 <= i < |s| ==> s[i] != c
            else s[r.value] == c && forall i :: r.value < i < |s| ==> s[i] != c
  {
    if s != [] && s[|s| - 1] != c {
      RFindLast(s[..|s| - 1], c);
    }
  }

  /** Searching from `pos` is searching the tail. */
  lemma {:induction false} FindInTail(s: Bytes, c: Byte, pos: nat)
    requires pos <= |s|
    ensures Find(s, c, pos).None? <==> Find(s[pos..], c, 0).None?
    ensures Find(s, c, pos).Some? ==> Find(s, c, pos).value == pos + Find(s[pos..], c, 0).value
  {
    FindFirst(s, c, pos);
    FindFirst(s[pos..], c, 0);
    var here, there := Find(s, c, pos), Find(s[pos..], c, 0);
    if here.Some? {
      assert s[pos..][here.value - pos] == c;
    }
    if there.Some? {
      assert s[pos + there.value] == c;
    }
  }

  /** The first `c` after a piece free of it. */
  lemma {:induction false} FindAfter(a: Bytes, c: Byte, b: Bytes)
    requires c !in a
    ensures Find(a + [c] + b, c, 0) == Some(|a|)
  {
    var s := a + [c] + b;
    FindFirst(s, c, 0);
    assert s[|a|] == c;
    assert forall i :: 0 <= i < |a| ==> s[i] == a[i];
  }

  lemma {:induction false} FindAbsent(s: Bytes, c: Byte)
    requires c !in s
    ensures Find(s, c, 0) == None
  {
    FindFirst(s, c, 0);
  }

  /** The last `c` before a piece free of it. */
  lemma {:induction false} RFindBefore(a: Bytes, c: Byte, b: Bytes)
    requires c !in b
    ensures RFind(a + [c] + b, c) == Some(|a|)
  {
    var s := a + [c] + b;
    if b == [] {
    } else {
      var front := b[..|b| - 1];
      assert s[..|s| - 1] == a + [c] + front;
      assert s[|s| - 1] == b[|b| - 1];
      RFindBefore(a, c, front);
    }
  }

  lemma {:induction false} DropTwice(s: Bytes, n: nat, k: nat)
    requires n + k <= |s|
    ensures s[n..][k..] == s[n + k..] && s[n..][..k] == s[n..n + k]
  {
  }
}
