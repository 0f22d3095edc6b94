/** File names: joining and splitting paths, the order in which names are
    listed, and the compressed names of an index. */
module Names {
  import opened Bytes

  type Name = Bytes

  /** The directory that is backed up, as seen from inside. */
  const ROOT: Path := "."

  predicate ValidName(n: Name) { n != [] && '/' !in n && n != "." && n != ".." }

  function Join(dir: Path, name: Name): Path
  {
    if dir == ROOT then name else dir + "/" + name
  }

  function Parent(p: Path): Path
  {
    var n := RFind(p, '/');
    if n.None? then ROOT else p[..n.value]
  }

  function BaseName(p: Path): Name
  {
    var n := RFind(p, '/');
    if n.None? then p else p[n.value + 1..]
  }

  function Depth(dir: Path): nat { if dir == ROOT then 0 else |dir| }

  lemma {:induction false} SplitJoin(dir: Path, name: Name)
    requires ValidName(name)
    ensures Parent(Join(dir, name)) == dir && BaseName(Join(dir, name)) == name
    ensures |Join(dir, name)| > Depth(dir) && Join(dir, name) != ROOT
    ensures RFind(Join(dir, name), '/') == if dir == ROOT then None else Some(|dir|)
  {
    var p := Join(dir, name);
    if dir == ROOT {
      RFindLast(p, '/');
    } else {
      RFindBefore(dir, '/', name);
      assert p[..|dir|] == dir && p[|dir| + 1..] == name;
    }
  }

  // The order of names -------------------------------------------------------------

  /** The order of `sort` on strings. */
  predicate LexLess(a: Bytes, b: Bytes)
  {
    b != [] && (a == [] || a[0] < b[0] || (a[0] == b[0] && LexLess(a[1..], b[1..])))
  }

  /** At the first place where two names differ, or one of them has ended. */
  ghost predicate ComesBefore(a: Bytes, b: Bytes)
  {
    exists k :: 0 <= k <= |a| && k < |b| && a[..k] == b[..k] && (k == |a| || a[k] as int < b[k] as int)
  }

  lemma {:induction false} LexIsFirstDifference(a: Bytes, b: Bytes)
    ensures LexLess(a, b) <==> ComesBefore(a, b)
  {
    if a == [] || b == [] || a[0] != b[0] {
      assert a[..0] == [] && b[..0] == [];
      forall k | 0 < k <= |a| && k < |b|
        ensures a[..k] != b[..k]
      {
        assert a[..k][0] == a[0] && b[..k][0] == b[0];
      }
    } else {
      LexIsFirstDifference(a[1..], b[1..]);
      FirstDifferenceShifts(a, b);
    }
  }

  lemma {:induction false} FirstDifferenceShifts(a: Bytes, b: Bytes)
    requires a != [] && b != [] && a[0] == b[0]
    ensures ComesBefore(a[1..], b[1..]) <==> ComesBefore(a, b)
  {
    if ComesBefore(a[1..], b[1..]) {
      var k :| 0 <= k <= |a| - 1 && k < |b| - 1 && a[1..][..k] == b[1..][..k]
               && (k == |a| - 1 || a[1..][k] as int < b[1..][k] as int);
      assert a[1..k + 1] == a[1..][..k] && b[1..k + 1] == b[1..][..k];
      assert a[..k + 1] == [a[0]] + a[1..k + 1] && b[..k + 1] == [b[0]] + b[1..k + 1];
    }
    if ComesBefore(a, b) {
      var k :| 0 <= k <= |a| && k < |b| && a[..k] == b[..k] && (k == |a| || a[k] as int < b[k] as int);
      assert k > 0;
      assert a[1..][..k - 1] == a[..k][1..] && b[1..][..k - 1] == b[..k][1..];
      assert k - 1 == |a| - 1 || a[1..][k - 1] as int < b[1..][k - 1] as int;
    }
  }

  lemma {:induction false} LexIrreflexive(a: Bytes)
    ensures !LexLess(a, a)
  {
    if a != [] {
      LexIrreflexive(a[1..]);
    }
  }

  lemma {:induction false} LexTransitive(a: Bytes, b: Bytes, c: Bytes)
    requires LexLess(a, b) && LexLess(b, c)
    ensures LexLess(a, c)
  {
    if a != [] && a[0] == b[0] == c[0] {
      LexTransitive(a[1..], b[1..], c[1..]);
    }
  }

  lemma {:induction false} LexTotal(a: Bytes, b: Bytes)
    ensures a == b || LexLess(a, b) || LexLess(b, a)
  {
    if a != [] && b != [] && a[0] == b[0] {
      LexTotal(a[1..], b[1..]);
      assert a == [a[0]] + a[1..] && b == [b[0]] + b[1..];
    }
  }

  /** A name comes before its extensions. */
  lemma {:induction false} LexPrefix(a: Bytes, b: Bytes)
    requires b != []
    ensures LexLess(a, a + b)
  {
    if a != [] {
      LexPrefix(a[1..], b);
      assert (a + b)[1..] == a[1..] + b;
    }
  }

  ghost predicate Sorted(names: seq<Name>)
  {
    forall i, j :: 0 <= i < j < |names| ==> LexLess(names[i], names[j])
  }

  /** A set of names has only one sorted list. */
  lemma {:induction false} SortedIsUnique(a: seq<Name>, b: seq<Name>)
    requires Sorted(a) && Sorted(b) && forall n :: n in a <==> n in b
    ensures a == b
    decreases |a|
  {
    hide LexLess;
    if a == [] {
      assert forall k :: 0 <= k < |b| ==> b[k] in b;
    } else {
      assert a[0] in a;
      var k :| 0 <= k < |b| && b[k] == a[0];
      assert b[0] in b;
      var l :| 0 <= l < |a| && a[l] == b[0];
      if k > 0 && l > 0 {
        LexTransitive(a[0], a[l], b[k]);
        LexIrreflexive(a[0]);
      }
      assert a[0] == b[0];
      SameTail(a, b);
      SameTail(b, a);
      SortedIsUnique(a[1..], b[1..]);
      assert a == [a[0]] + a[1..] && b == [b[0]] + b[1..];
    }
  }

  lemma {:induction false} SameTail(a: seq<Name>, b: seq<Name>)
    requires Sorted(a) && a != [] && b != [] && a[0] == b[0] && forall n :: n in a ==> n in b
    ensures forall n :: n in a[1..] ==> n in b[1..]
  {
    hide LexLess;
    forall n | n in a[1..]
      ensures n in b[1..]
    {
      var k :| 0 <= k < |a| - 1 && a[1..][k] == n;
      assert a[k + 1] == n && n in a && n in b;
      LexIrreflexive(n);
      assert b == [b[0]] + b[1..];
    }
  }

  /** Puts one more name into a sorted list. */
  function Insert(n: Name, names: seq<Name>): seq<Name>
  {
    if names == [] then [n]
    else if LexLess(n, names[0]) then [n] + names
    else [names[0]] + Insert(n, names[1..])
  }

  lemma {:induction false} InsertSorted(n: Name, names: seq<Name>)
    requires Sorted(names) && n !in names
    ensures Sorted(Insert(n, names))
    ensures forall m :: m in Insert(n, names) <==> m == n || m in names
  {
    hide LexLess;
    if names == [] {
    } else if LexLess(n, names[0]) {
      forall j | 0 <= j < |names|
        ensures LexLess(n, names[j])
      {
        if j > 0 {
          LexTransitive(n, names[0], names[j]);
        }
      }
    } else {
      LexTotal(n, names[0]);
      var rest := Insert(n, names[1..]);
      InsertSorted(n, names[1..]);
      assert names == [names[0]] + names[1..];
      forall j | 0 <= j < |rest|
        ensures LexLess(names[0], rest[j])
      {
        assert rest[j] in rest;
        if rest[j] != n {
          var k :| 0 <= k < |names| - 1 && names[1..][k] == rest[j];
          assert names[k + 1] == rest[j];
        }
      }
    }
  }

  /** `sort`, for a listing without repetitions. */
  method Sort(listing: seq<Name>) returns (names: seq<Name>)
    requires forall i, j :: 0 <= i < j < |listing| ==> listing[i] != listing[j]
    ensures Sorted(names) && forall n :: n in names <==> n in listing
    ensures forall i, j :: 0 <= i < j < |names| ==> ComesBefore(names[i], names[j])
  {
    hide LexLess, ComesBefore;
    names := [];
    for k := 0 to |listing|
      invariant Sorted(names) && forall n :: n in names <==> n in listing[..k]
    {
      assert listing[..k + 1] == listing[..k] + [listing[k]];
      InsertSorted(listing[k], names);
      names := Insert(listing[k], names);
    }
    assert listing[..|listing|] == listing;
    forall i, j | 0 <= i < j < |names|
      ensures ComesBefore(names[i], names[j])
    {
      LexIsFirstDifference(names[i], names[j]);
    }
  }

  /** The sorted list of a set of names. */
  ghost function SortedList(s: set<Name>): (names: seq<Name>)
    ensures Sorted(names) && forall n :: n in names <==> n in s
  {
    if s == {} then []
    else
      var n :| n in s;
      InsertSorted(n, SortedList(s - {n}));
      Insert(n, SortedList(s - {n}))
  }

  lemma {:induction false} SortedIsList(names: seq<Name>, s: set<Name>)
    requires Sorted(names) && forall n :: n in names <==> n in s
    ensures names == SortedList(s)
  {
    SortedIsUnique(names, SortedList(s));
  }

  // Compressed names ----------------------------------------------------------------

  /** How the backup writes a name: in full at the start of a directory or in
      the root, else relative to the directory of the line before. */
  function RelName(dir: Path, name: Name, first: bool): Bytes
  {
    if first || dir == ROOT then Join(dir, name) else "./" + name
  }

  /** How the restore reads a name, given the directory of the line before:
      the full name and the directory for the next line, or nothing for a
      relative name that has no line before it. */
  function Expand(dir: Bytes, name: Bytes): Option<(Bytes, Bytes)>
  {
    if |name| >= 2 && name[0] == '.' && name[1] == '/' then
      if dir == [] then None else Some((dir + "/" + name[2..], dir))
    else
      var n := RFind(name, '/');
      Some((name, if n.None? then [] else name[..n.value]))
  }

  predicate DotSlash(p: Bytes) { |p| >= 2 && p[0] == '.' && p[1] == '/' }

  /** The restore's idea of a directory. */
  function DirState(dir: Path): Bytes { if dir == ROOT then [] else dir }

  lemma {:induction false} ExpandFull(dir: Path, name: Name, before: Bytes)
    requires ValidName(name) && !DotSlash(Join(dir, name))
    ensures Expand(before, Join(dir, name)) == Some((Join(dir, name), DirState(dir)))
  {
    SplitJoin(dir, name);
  }

  lemma {:induction false} ExpandRelative(dir: Path, name: Name)
    requires ValidName(name) && dir != []
    ensures Expand(DirState(dir), RelName(dir, name, false)) == Some((Join(dir, name), DirState(dir)))
  {
    if dir == ROOT {
      assert !DotSlash(name);
      ExpandFull(dir, name, []);
    } else {
      assert ("./" + name)[2..] == name;
    }
  }
}
