/** What a backup writes about one entry of the tree. */
module Records {
  import opened Bytes
  import opened UrlCodec
  import opened Numbers
  import opened IndexLine
  import opened IndexText
  import opened Walk
  import WalkFacts
  import Sha1Spec

  /** Files up to this size are kept in the index itself. */
  const STORE_LIMIT := 256

  const HASH_NAME: Bytes := "sha1"

  function Generic(rel: Bytes, m: Meta): Record
  {
    [(NAME, rel), ("perms", Octal(m.perms)), ("uid", m.user), ("gid", m.group),
     ("atime", Decimal(m.atime)), ("ctime", Decimal(m.ctime)), ("mtime", Decimal(m.mtime))]
  }

  function ContentPair(content: Bytes): Pair
  {
    if |content| <= STORE_LIMIT then ("data", content) else (HASH_NAME, HexOf(Sha1Spec.Digest(content)))
  }

  /** An inode number is recorded only for files with several links. */
  function InodePairs(nlink: nat, ino: nat): Record
  {
    if nlink > 1 then [("inode", Decimal(ino))] else []
  }

  function Specific(e: Entry): (r: Record)
    ensures r != []
  {
    match e
    case Regular(_, content, nlink, _, ino) => [ContentPair(content)] + InodePairs(nlink, ino)
    case Directory(_, _) => [("type", "dir")]
    case Symlink(_, target) => [("target", target), ("type", "link")]
  }

  function RecordOf(rel: Bytes, e: Entry): (r: Record)
    ensures Named(r)
  {
    Generic(rel, e.meta) + Specific(e)
  }

  ghost predicate AllInTree(tree: Tree, lines: seq<Line>)
  {
    forall i :: 0 <= i < |lines| ==> lines[i].path in tree
  }

  lemma {:induction false} WalkDirInTree(tree: Tree, opts: Options, dir: Path)
    requires WellFormed(tree)
    ensures AllInTree(tree, WalkDir(tree, opts, dir))
  {
    var lines := WalkDir(tree, opts, dir);
    forall i | 0 <= i < |lines|
      ensures lines[i].path in tree
    {
      assert WalkFacts.Listed(lines, lines[i].path);
      WalkFacts.WalkDirLists(tree, opts, dir, lines[i].path);
    }
  }

  ghost function RecordsOf(tree: Tree, lines: seq<Line>): (recs: seq<Record>)
    requires AllInTree(tree, lines)
    ensures |recs| == |lines|
    ensures forall i :: 0 <= i < |recs| ==> recs[i] == RecordOf(lines[i].rel, tree[lines[i].path])
  {
    seq(|lines|, i requires 0 <= i < |lines| => RecordOf(lines[i].rel, tree[lines[i].path]))
  }

  ghost function TextOf(tree: Tree, lines: seq<Line>): Bytes
    requires AllInTree(tree, lines)
  {
    Lines(RecordsOf(tree, lines))
  }

  lemma {:induction false} TextConcat(tree: Tree, a: seq<Line>, b: seq<Line>)
    requires AllInTree(tree, a) && AllInTree(tree, b)
    ensures AllInTree(tree, a + b) && TextOf(tree, a + b) == TextOf(tree, a) + TextOf(tree, b)
  {
    hide RecordOf, Lines;
    LinesConcat(RecordsOf(tree, a), RecordsOf(tree, b));
    assert RecordsOf(tree, a + b) == RecordsOf(tree, a) + RecordsOf(tree, b);
  }

  lemma {:induction false} TextOfOne(tree: Tree, line: Line)
    requires line.path in tree
    ensures TextOf(tree, [line]) == PrintPairs(RecordOf(line.rel, tree[line.path])) + "\n"
  {
    hide RecordOf, PrintPairs;
    var recs := RecordsOf(tree, [line]);
    assert recs[1..] == [] && Lines(recs[1..]) == [];
  }

  // As printf and urlencode put it together ----------------------------------------

  /** One more `key=value` on a line. */
  function More(key: Bytes, plain: Bytes): Bytes { "&" + key + "=" + plain }

  function GenericText(rel: Bytes, m: Meta): Bytes
  {
    hide *;
    "name=" + UrlEncoded(rel) + More("perms", Octal(m.perms))
    + More("uid", UrlEncoded(m.user)) + More("gid", UrlEncoded(m.group))
    + More("atime", Decimal(m.atime)) + More("ctime", Decimal(m.ctime)) + More("mtime", Decimal(m.mtime))
  }

  function ContentText(content: Bytes): Bytes
  {
    if |content| <= STORE_LIMIT then More("data", UrlEncoded(content))
    else More(HASH_NAME, HexOf(Sha1Spec.Digest(content)))
  }

  function InodeText(nlink: nat, ino: nat): Bytes
  {
    if nlink > 1 then More("inode", Decimal(ino)) else ""
  }

  function SpecificText(e: Entry): Bytes
  {
    match e
    case Regular(_, content, nlink, _, ino) => ContentText(content) + InodeText(nlink, ino)
    case Directory(_, _) => More("type", "dir")
    case Symlink(_, target) => More("target", UrlEncoded(target)) + More("type", "link")
  }

  lemma {:induction false} PrintPairsConcat(a: seq<Pair>, b: seq<Pair>)
    requires a != [] && b != []
    ensures PrintPairs(a + b) == PrintPairs(a) + "&" + PrintPairs(b)
    decreases |a|
  {
    hide PrintPair;
    assert (a + b)[1..] == a[1..] + b;
    if |a| > 1 {
      PrintPairsConcat(a[1..], b);
      calc {
        PrintPairs(a + b);
        PrintPair(a[0]) + "&" + (PrintPairs(a[1..]) + "&" + PrintPairs(b));
        PrintPair(a[0]) + "&" + PrintPairs(a[1..]) + "&" + PrintPairs(b);
      }
    }
  }

  lemma {:induction false} DecimalIsPlain(n: nat)
    ensures UrlEncoded(Decimal(n)) == Decimal(n)
  {
    AlnumEncodesToItself(Decimal(n));
  }

  lemma {:induction false} OctalIsPlain(n: nat)
    ensures UrlEncoded(Octal(n)) == Octal(n)
  {
    AlnumEncodesToItself(Octal(n));
  }

  lemma {:induction false} AppendPair(ps: seq<Pair>, key: Bytes, value: Bytes, plain: Bytes)
    requires ps != [] && (forall c :: c in key ==> Alnum(c)) && UrlEncoded(value) == plain
    ensures PrintPairs(ps + [(key, value)]) == PrintPairs(ps) + More(key, plain)
  {
    hide PrintPairs, UrlEncoded, More;
    AlnumEncodesToItself(key);
    PrintPairsSnoc(ps, (key, value));
    MoreText(PrintPairs(ps), key, plain);
  }

  lemma {:induction false} MoreText(before: Bytes, key: Bytes, plain: Bytes)
    ensures before + "&" + (key + "=" + plain) == before + More(key, plain)
  {
    var amp: Bytes, pair: Bytes := "&", key + "=" + plain;
    assert More(key, plain) == amp + pair;
    assert before + amp + pair == before + (amp + pair);
  }

  lemma {:induction false} FirstPair(key: Bytes, value: Bytes)
    requires forall c :: c in key ==> Alnum(c)
    ensures PrintPairs([(key, value)]) == key + "=" + UrlEncoded(value)
    ensures "&" + PrintPairs([(key, value)]) == More(key, UrlEncoded(value))
  {
    AlnumEncodesToItself(key);
  }

  lemma {:induction false} GenericIsPrinted(rel: Bytes, m: Meta)
    ensures PrintPairs(Generic(rel, m)) == GenericText(rel, m)
  {
    hide PrintPairs, PrintPair, UrlEncoded, Octal, Decimal, More;
    OctalIsPlain(m.perms);
    DecimalIsPlain(m.atime);
    DecimalIsPlain(m.ctime);
    DecimalIsPlain(m.mtime);
    var g := Generic(rel, m);
    FirstPair(NAME, rel);
    AppendPair(g[..1], "perms", Octal(m.perms), Octal(m.perms));
    AppendPair(g[..2], "uid", m.user, UrlEncoded(m.user));
    AppendPair(g[..3], "gid", m.group, UrlEncoded(m.group));
    AppendPair(g[..4], "atime", Decimal(m.atime), Decimal(m.atime));
    AppendPair(g[..5], "ctime", Decimal(m.ctime), Decimal(m.ctime));
    AppendPair(g[..6], "mtime", Decimal(m.mtime), Decimal(m.mtime));
    assert g[..1] == [(NAME, rel)];
    assert g[..2] == g[..1] + [g[1]] && g[..3] == g[..2] + [g[2]] && g[..4] == g[..3] + [g[3]];
    assert g[..5] == g[..4] + [g[4]] && g[..6] == g[..5] + [g[5]] && g == g[..6] + [g[6]];
  }

  lemma {:induction false} ContentIsPrinted(content: Bytes)
    ensures "&" + PrintPairs([ContentPair(content)]) == ContentText(content)
  {
    hide PrintPairs, UrlEncoded, Sha1Spec.Digest, HexOf, More;
    if |content| <= STORE_LIMIT {
      FirstPair("data", content);
    } else {
      var hex := HexOf(Sha1Spec.Digest(content));
      HexOfIsAlnum(Sha1Spec.Digest(content));
      AlnumEncodesToItself(hex);
      FirstPair(HASH_NAME, hex);
    }
  }

  lemma {:induction false} SpecificIsPrinted(e: Entry)
    ensures "&" + PrintPairs(Specific(e)) == SpecificText(e)
  {
    hide PrintPairs, UrlEncoded, ContentPair, ContentText, Decimal, More;
    match e {
      case Regular(_, content, nlink, _, ino) =>
        ContentIsPrinted(content);
        if nlink > 1 {
          DecimalIsPlain(ino);
          AppendPair([ContentPair(content)], "inode", Decimal(ino), Decimal(ino));
        } else {
          assert Specific(e) == [ContentPair(content)];
        }
      case Directory(_, _) =>
        FirstPair("type", "dir");
        AlnumEncodesToItself("dir");
      case Symlink(_, target) =>
        FirstPair("target", target);
        AlnumEncodesToItself("link");
        AppendPair([("target", target)], "type", "link", "link");
        assert Specific(e) == [("target", target)] + [("type", "link")];
    }
  }

  /** The pieces that the backup prints make up the printed record. */
  lemma {:induction false} RecordIsPrinted(rel: Bytes, e: Entry)
    ensures PrintPairs(RecordOf(rel, e)) == GenericText(rel, e.meta) + SpecificText(e)
  {
    hide PrintPairs, GenericText, SpecificText, Specific, Octal, Decimal;
    GenericIsPrinted(rel, e.meta);
    SpecificIsPrinted(e);

    PrintPairsConcat(Generic(rel, e.meta), Specific(e));
    calc {
      PrintPairs(RecordOf(rel, e));
      PrintPairs(Generic(rel, e.meta)) + "&" + PrintPairs(Specific(e));
      PrintPairs(Generic(rel, e.meta)) + ("&" + PrintPairs(Specific(e)));
    }
  }

  // Read back --------------------------------------------------------------------

  /** The keys differ in length or in the first letter. */
  lemma {:induction false} KeysDiffer()
    ensures |NAME| == 4 && NAME[0] == 'n'
    ensures |"perms"| == 5 && "perms"[0] == 'p'
    ensures |"uid"| == 3 && "uid"[0] == 'u'
    ensures |"gid"| == 3 && "gid"[0] == 'g'
    ensures |"atime"| == 5 && "atime"[0] == 'a'
    ensures |"ctime"| == 5 && "ctime"[0] == 'c'
    ensures |"mtime"| == 5 && "mtime"[0] == 'm'
    ensures |"data"| == 4 && "data"[0] == 'd'
    ensures |HASH_NAME| == 4 && HASH_NAME[0] == 's'
    ensures |"inode"| == 5 && "inode"[0] == 'i'
    ensures |"type"| == 4 && "type"[0] == 't'
    ensures |"target"| == 6
  {
  }

  lemma {:induction false} DetailsSnoc(ps: seq<Pair>, p: Pair)
    ensures DetailsOf(ps + [p]) == DetailsOf(ps)[p.0 := p.1]
  {
    assert (ps + [p])[..|ps|] == ps;
  }

  function GenericDetails(rel: Bytes, m: Meta): Details
  {
    map[NAME := rel]["perms" := Octal(m.perms)]["uid" := m.user]["gid" := m.group]
    ["atime" := Decimal(m.atime)]["ctime" := Decimal(m.ctime)]["mtime" := Decimal(m.mtime)]
  }

  lemma {:induction false} DetailsOfGeneric(rel: Bytes, m: Meta)
    ensures DetailsOf(Generic(rel, m)) == GenericDetails(rel, m)
  {
    hide DetailsOf, Octal, Decimal;
    var g := Generic(rel, m);
    assert DetailsOf([]) == map[] by { DetailsOfNothing(); }
    DetailsSnoc([], g[0]);
    DetailsSnoc(g[..1], g[1]);
    DetailsSnoc(g[..2], g[2]);
    DetailsSnoc(g[..3], g[3]);
    DetailsSnoc(g[..4], g[4]);
    DetailsSnoc(g[..5], g[5]);
    DetailsSnoc(g[..6], g[6]);
    assert [] + [g[0]] == g[..1];
    assert g[..2] == g[..1] + [g[1]] && g[..3] == g[..2] + [g[2]] && g[..4] == g[..3] + [g[3]];
    assert g[..5] == g[..4] + [g[4]] && g[..6] == g[..5] + [g[5]] && g == g[..6] + [g[6]];
  }

  lemma {:induction false} DetailsOfNothing()
    ensures DetailsOf([]) == map[]
  {
  }

  function SpecificDetails(e: Entry): Details
  {
    match e
    case Regular(_, content, nlink, _, ino) =>
      if nlink > 1 then map[ContentPair(content).0 := ContentPair(content).1]["inode" := Decimal(ino)]
      else map[ContentPair(content).0 := ContentPair(content).1]
    case Directory(_, _) => map["type" := "dir"]
    case Symlink(_, target) => map["target" := target]["type" := "link"]
  }

  lemma {:induction false} DetailsOfSpecific(e: Entry)
    ensures DetailsOf(Specific(e)) == SpecificDetails(e)
  {
    hide DetailsOf, ContentPair, Decimal;
    DetailsOfNothing();
    var first := Specific(e)[0];
    DetailsSnoc([], first);
    assert [] + [first] == [first];
    if |Specific(e)| == 2 {
      DetailsSnoc([first], Specific(e)[1]);
      assert Specific(e) == [first] + [Specific(e)[1]];
    } else {
      assert Specific(e) == [first];
    }
  }

  /** What the restore finds in the line of an entry. */
  ghost predicate Describes(d: Details, rel: Bytes, e: Entry)
  {
    && NAME in d && d[NAME] == rel
    && "perms" in d && d["perms"] == Octal(e.meta.perms)
    && "uid" in d && d["uid"] == e.meta.user && "gid" in d && d["gid"] == e.meta.group
    && "atime" in d && d["atime"] == Decimal(e.meta.atime) && "ctime" in d && d["ctime"] == Decimal(e.meta.ctime)
    && "mtime" in d && d["mtime"] == Decimal(e.meta.mtime)
    && match e
       case Regular(_, content, nlink, _, ino) =>
         && "type" !in d
         && ("data" in d <==> |content| <= STORE_LIMIT) && ("data" in d ==> d["data"] == content)
         && (HASH_NAME in d <==> |content| > STORE_LIMIT)
         && (HASH_NAME in d ==> d[HASH_NAME] == HexOf(Sha1Spec.Digest(content)))
         && ("inode" in d <==> nlink > 1) && ("inode" in d ==> d["inode"] == Decimal(ino))
       case Directory(_, _) => "type" in d && d["type"] == "dir" && "inode" !in d && "data" !in d && HASH_NAME !in d
       case Symlink(_, target) =>
         && "type" in d && d["type"] == "link" && "inode" !in d && "data" !in d && HASH_NAME !in d
         && "target" in d && d["target"] == target
  }

  lemma {:induction false} RecordDescribes(rel: Bytes, e: Entry)
    ensures Describes(DetailsOf(RecordOf(rel, e)), rel, e)
  {
    hide DetailsOf, Octal, Decimal, Generic, Specific, HexOf, Sha1Spec.Digest;
    DetailsOfSplit(Generic(rel, e.meta), Specific(e));
    DetailsOfGeneric(rel, e.meta);
    DetailsOfSpecific(e);
    KeysDiffer();
  }
}
