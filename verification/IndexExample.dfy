/** Lines and names spelled out, as they stand in an index and in a store. */
module IndexExample {
  import opened Bytes
  import opened UrlCodec
  import opened Numbers
  import opened IndexLine
  import opened IndexText
  import opened Walk
  import opened Records
  import opened Repository
  import Sha1Spec

  lemma {:induction false} NumberExamples()
    ensures Decimal(0) == "0" && Decimal(1205) == "1205" && Octal(0) == "0" && Octal(420) == "0644"
    ensures Decimal(1) == "1" && Decimal(2) == "2" && Decimal(3) == "3" && Decimal(77) == "77"
  {
    assert Digits(1205, 10) == Digits(120, 10) + [Digit(5)] && Digits(120, 10) == Digits(12, 10) + [Digit(0)];
    assert Digits(12, 10) == Digits(1, 10) + [Digit(2)] && Digits(77, 10) == Digits(7, 10) + [Digit(7)];
    assert Digits(420, 8) == Digits(52, 8) + [Digit(4)] && Digits(52, 8) == Digits(6, 8) + [Digit(4)];
  }

  lemma {:induction false} EscapeExamples()
    ensures EncodeByte(' ') == "+" && EncodeByte('/') == "/" && EncodeByte('.') == "."
    ensures EncodeByte('&') == "%26" && EncodeByte('+') == "%2b" && EncodeByte('%') == "%25"
    ensures EncodeByte(ByteOf(255)) == "%ff" && EncodeByte('\n') == "%0a"
  {
  }

  const FILE: Entry := Regular(Meta(420, "root", "wheel", 1, 2, 3), "abc", 2, 5, 77)

  /** The line of a small file with two links, key by key. */
  lemma {:induction false} LineExample()
    ensures GenericText("a", FILE.meta) ==
            "name=" + "a" + ("&" + "perms" + "=" + "0644") + ("&" + "uid" + "=" + "root")
            + ("&" + "gid" + "=" + "wheel") + ("&" + "atime" + "=" + "1") + ("&" + "ctime" + "=" + "2")
            + ("&" + "mtime" + "=" + "3")
    ensures SpecificText(FILE) == ("&" + "data" + "=" + "abc") + ("&" + "inode" + "=" + "77")
    ensures PrintPairs(RecordOf("a", FILE)) == GenericText("a", FILE.meta) + SpecificText(FILE)
  {
    hide UrlEncoded, Decimal, Octal, PrintPairs;
    NumberExamples();
    PlainExamples();
    RecordIsPrinted("a", FILE);
  }

  lemma {:induction false} PlainExamples()
    ensures UrlEncoded("a") == "a" && UrlEncoded("abc") == "abc" && UrlEncoded("root") == "root"
    ensures UrlEncoded("wheel") == "wheel"
  {
    hide UrlEncoded;
    AlnumEncodesToItself("a");
    AlnumEncodesToItself("abc");
    AlnumEncodesToItself("root");
    AlnumEncodesToItself("wheel");
  }

  /** Directories and links. */
  lemma {:induction false} OtherExamples(meta: Meta)
    ensures SpecificText(Directory(meta, false)) == "&" + "type" + "=" + "dir"
    ensures SpecificText(Symlink(meta, "abc")) == ("&" + "target" + "=" + "abc") + ("&" + "type" + "=" + "link")
  {
    hide UrlEncoded;
    PlainExamples();
  }

  /** Up to 256 octets stand in the index itself. */
  lemma {:induction false} SmallFilesInIndex(rel: Bytes, e: Entry)
    requires e.Regular?
    ensures "data" in DetailsOf(RecordOf(rel, e)) <==> |e.content| <= 256
    ensures "sha1" in DetailsOf(RecordOf(rel, e)) <==> |e.content| > 256
  {
    hide DetailsOf, RecordOf, HexOf, Sha1Spec.Digest, Octal, Decimal;
    RecordDescribes(rel, e);
  }

  /** The end mark, and the suffix of files that are being written. */
  lemma {:induction false} MarkExamples(p: Path)
    ensures IndexOf([]) == "[end]\n" && TmpName(p) == p + ".tmp"
  {
  }

  /** Where the store keeps an object: two directories named by the first four
      digits of its hash. */
  lemma {:induction false} PlaceOfHash(repo: Path, h: Digest)
    ensures StorePath(repo, h) ==
            repo + "/" + "sha1" + "/" + (HexOf(h)[..2] + "/" + HexOf(h)[2..4] + "/" + HexOf(h))
  {
    hide HashPathOf, HexOf;
    HashPathDirectories(h);
    HashPathEndsInHex(h);
    var p := HashPathOf(h);
    assert p == p[..2] + [p[2]] + p[3..5] + [p[5]] + p[6..];
    assert p == HexOf(h)[..2] + "/" + HexOf(h)[2..4] + "/" + HexOf(h);
  }
}
