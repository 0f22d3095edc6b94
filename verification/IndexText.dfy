/** A whole index: one line per entry, closed by the line `[end]`, which is
    what tells a complete index from a truncated one. */
module IndexText {
  import opened Bytes
  import opened UrlCodec
  import opened IndexLine

  const END_MARK: Bytes := "[end]"

  /** The pairs of one index line, in the order they are printed. */
  type Record = seq<Pair>

  /** What `getline` takes from a stream: a line without its newline, and the
      rest of the stream.  A last line without newline still counts. */
  function NextLine(s: Bytes): (r: Option<(Bytes, Bytes)>)
    ensures r.Some? ==> |r.value.1| < |s|
    ensures r.None? <==> s == []
  {
    if s == [] then None
    else
      var n := Find(s, '\n', 0);
      if n.None? then Some((s, [])) else Some((s[..n.value], s[n.value + 1..]))
  }

  /** The result of reading an index to its end, or to the exception that
      stopped the reading. */
  datatype ReadResult = ReadResult(entries: seq<Details>, error: Option<CodecError>) {
    predicate Complete() { error.None? }
  }

  const UNEXPECTED_END: Bytes := "unexpected end of file"

  function ReadAll(s: Bytes): ReadResult
    decreases |s|
  {
    match NextLine(s)
    case None => ReadResult([], Some(BadIndexFile(UNEXPECTED_END)))
    case Some((line, rest)) =>
      if line == END_MARK then ReadResult([], None)
      else
        match Parsed(line)
        case Err(e) => ReadResult([], Some(e))
        case Ok(d) => var r := ReadAll(rest); ReadResult([d] + r.entries, r.error)
  }

  /** One turn of a loop that reads an index. */
  lemma {:induction false} ReadStep(s: Bytes)
    ensures ReadAll(s) ==
            match NextLine(s)
            case None => ReadResult([], Some(BadIndexFile(UNEXPECTED_END)))
            case Some((line, rest)) =>
              if line == END_MARK then ReadResult([], None)
              else
                match Parsed(line)
                case Err(e) => ReadResult([], Some(e))
                case Ok(d) => ReadResult([d] + ReadAll(rest).entries, ReadAll(rest).error)
  {
  }

  /** Lines of text, whatever they say. */
  function Text(lines: seq<Bytes>): Bytes
  {
    if lines == [] then [] else lines[0] + "\n" + Text(lines[1..])
  }

  /** Reading succeeds if and only if there is an end mark, and every line before
      it is well formed; what follows it does not matter. */
  lemma {:induction false} ReadToEndMark(lines: seq<Bytes>, rest: Bytes)
    requires forall l :: l in lines ==> '\n' !in l && l != END_MARK
    ensures var r := ReadAll(Text(lines) + (END_MARK + "\n" + rest));
            && (r.Complete() <==> forall l :: l in lines ==> Parsed(l).Ok?)
            && (r.Complete() ==> |r.entries| == |lines| &&
                                 forall i :: 0 <= i < |lines| ==> Parsed(lines[i]) == Ok(r.entries[i]))
  {
    hide NextLine, Parsed;
    var end := END_MARK + "\n" + rest;
    if lines == [] {
      NextLineOfPrinted(END_MARK, rest);
      assert [] + end == end;
    } else {
      var more := Text(lines[1..]) + end;
      assert lines == [lines[0]] + lines[1..] && lines[0] in lines && forall l :: l in lines[1..] ==> l in lines;
      assert Text(lines) + end == lines[0] + "\n" + more;
      NextLineOfPrinted(lines[0], more);
      ReadToEndMark(lines[1..], rest);
    }
  }

  /** Without an end mark it never does. */
  lemma {:induction false} ReadWithoutEndMark(lines: seq<Bytes>, last: Bytes)
    requires forall l :: l in lines ==> '\n' !in l && l != END_MARK
    requires '\n' !in last && last != END_MARK
    ensures !ReadAll(Text(lines) + last).Complete()
  {
    hide Parsed;
    if lines == [] {
      assert [] + last == last;
      FindAbsent(last, '\n');
    } else {
      var more := Text(lines[1..]) + last;
      assert lines == [lines[0]] + lines[1..] && lines[0] in lines && forall l :: l in lines[1..] ==> l in lines;
      assert Text(lines) + last == lines[0] + "\n" + more;
      NextLineOfPrinted(lines[0], more);
      ReadWithoutEndMark(lines[1..], last);
    }
  }

  // Printing -----------------------------------------------------------------

  function Lines(recs: seq<Record>): Bytes
  {
    if recs == [] then [] else PrintPairs(recs[0]) + "\n" + Lines(recs[1..])
  }

  function IndexOf(recs: seq<Record>): Bytes { Lines(recs) + END_MARK + "\n" }

  function AllDetails(recs: seq<Record>): (ds: seq<Details>)
    ensures |ds| == |recs|
    ensures forall i :: 0 <= i < |ds| ==> ds[i] == DetailsOf(recs[i])
  {
    seq(|recs|, i requires 0 <= i < |recs| => DetailsOf(recs[i]))
  }

  const NAME: Bytes := "name"

  /** Every line that a backup prints starts with the name. */
  predicate Named(rec: Record) { rec != [] && rec[0].0 == NAME }

  lemma {:induction false} LinesConcat(a: seq<Record>, b: seq<Record>)
    ensures Lines(a + b) == Lines(a) + Lines(b)
  {
    hide PrintPairs;
    if a == [] {
      assert a + b == b;
    } else {
      LinesConcat(a[1..], b);
      assert (a + b)[1..] == a[1..] + b && (a + b)[0] == a[0];
      Regroup(PrintPairs(a[0]) + "\n", Lines(a[1..]), Lines(b));
    }
  }

  lemma {:induction false} Regroup(x: Bytes, y: Bytes, z: Bytes)
    ensures x + (y + z) == x + y + z
  {
  }

  lemma {:induction false} IndexOfCons(recs: seq<Record>)
    requires recs != []
    ensures IndexOf(recs) == PrintPairs(recs[0]) + "\n" + IndexOf(recs[1..])
  {
    Regroup(PrintPairs(recs[0]) + "\n", Lines(recs[1..]), END_MARK);
    Regroup(PrintPairs(recs[0]) + "\n", Lines(recs[1..]) + END_MARK, "\n");
  }

  lemma {:induction false} NextLineOfPrinted(line: Bytes, rest: Bytes)
    requires '\n' !in line
    ensures NextLine(line + "\n" + rest) == Some((line, rest))
  {
    var s := line + "\n" + rest;
    FindAfter(line, '\n', rest);
    assert s[..|line|] == line;
    assert s[|line| + 1..] == rest;
  }

  lemma {:induction false} NamedLineStart(rec: Record, k: nat)
    requires Named(rec) && 0 < k <= |PrintPairs(rec)|
    ensures PrintPairs(rec)[..k][0] == 'n'
  {
    PrintedLineShape(rec);
    assert UrlEncoded(NAME)[0] == 'n';
    assert PrintPair(rec[0])[0] == 'n';
    assert PrintPairs(rec)[0] == PrintPair(rec[0])[0];
  }

  /** A line cut short is never mistaken for the end mark, and reading stops
      with an exception right after it. */
  lemma {:induction false} ReadCutLine(rec: Record, k: nat)
    requires Named(rec) && k <= |PrintPairs(rec)|
    ensures var r := ReadAll(PrintPairs(rec)[..k]); !r.Complete() && |r.entries| <= 1
  {
    var cut := PrintPairs(rec)[..k];
    if k == 0 {
    } else {
      PrintedLineShape(rec);
      FindAbsent(cut, '\n');
      NamedLineStart(rec, k);
      assert cut != END_MARK;
      assert NextLine(cut) == Some((cut, []));
      assert ReadAll([]).error.Some? && ReadAll([]).entries == [];
    }
  }

  lemma {:induction false} ReadWholeLine(rec: Record, rest: Bytes)
    requires Named(rec)
    ensures var r := ReadAll(rest);
            ReadAll(PrintPairs(rec) + "\n" + rest) == ReadResult([DetailsOf(rec)] + r.entries, r.error)
  {
    var line := PrintPairs(rec);
    PrintedLineShape(rec);
    NextLineOfPrinted(line, rest);
    ParseInvertsPrint(rec);
    assert END_MARK[0] == '[';
    NamedLineStart(rec, |line|);
    assert line[..|line|] == line;
  }

  lemma {:induction false} ReadEndMark(k: nat)
    requires k <= 6
    ensures ReadAll((END_MARK + "\n")[..k]) .entries == []
    ensures ReadAll((END_MARK + "\n")[..k]).Complete() <==> k >= 5
  {
    var s := END_MARK + "\n";
    var cut := s[..k];
    if k == 0 {
    } else if k == 6 {
      assert cut == END_MARK + "\n" + [];
      NextLineOfPrinted(END_MARK, []);
    } else {
      assert cut == END_MARK[..k];
      FindAbsent(cut, '\n');
      if k < 5 {
        assert |cut| != |END_MARK|;
        FindAbsent(cut, '=');
        assert FirstField(cut) == None;
      } else {
        assert cut == END_MARK;
      }
    }
  }

  /** Where a cut of `line \n rest` falls. */
  lemma {:induction false} CutOfLine(line: Bytes, rest: Bytes, k: nat)
    requires k <= |line| + 1 + |rest|
    ensures var s := line + "\n" + rest;
            if k <= |line| then s[..k] == line[..k]
            else s[..k] == line + "\n" + rest[..k - |line| - 1]
  {
  }

  /** The index cut after `k` bytes: reading succeeds exactly when the closing
      bracket of the end mark survives, and then gives every entry.  Otherwise
      an exception is raised, and what was delivered before it is a sequence
      of the original entries of which only the last can be damaged. */
  lemma {:induction false} TruncationIsDetected(recs: seq<Record>, k: nat)
    requires forall i :: 0 <= i < |recs| ==> Named(recs[i])
    requires k <= |IndexOf(recs)|
    ensures ReadUpTo(recs, k, ReadAll(IndexOf(recs)[..k]))
    decreases |recs|
  {
    hide Parsed, PrintPairs, NextLine, ReadAll;
    if recs == [] {
      assert IndexOf(recs) == END_MARK + "\n";
      ReadEndMark(k);
    } else {
      var line, rest := PrintPairs(recs[0]), IndexOf(recs[1..]);
      IndexOfCons(recs);
      CutOfLine(line, rest, k);
      if k <= |line| {
        ReadCutLine(recs[0], k);
      } else {
        var k' := k - |line| - 1;
        TruncationIsDetected(recs[1..], k');
        ReadWholeLine(recs[0], rest[..k']);
        DeliveredShift(recs, k', ReadAll(rest[..k']));
      }
    }
  }

  /** What a reader gets from the first `k` bytes of the index of `recs`. */
  ghost predicate ReadUpTo(recs: seq<Record>, k: nat, r: ReadResult)
  {
    && (r.Complete() <==> k >= |IndexOf(recs)| - 1)
    && (r.Complete() ==> r.entries == AllDetails(recs))
    && |r.entries| <= |recs|
    && (forall i :: 0 <= i < |r.entries| - 1 ==> r.entries[i] == DetailsOf(recs[i]))
  }

  lemma {:induction false} DeliveredShift(recs: seq<Record>, k: nat, r: ReadResult)
    requires recs != [] && ReadUpTo(recs[1..], k, r)
    ensures ReadUpTo(recs, |PrintPairs(recs[0])| + 1 + k, ReadResult([DetailsOf(recs[0])] + r.entries, r.error))
  {
    IndexOfCons(recs);
    var all := [DetailsOf(recs[0])] + r.entries;
    forall i | 0 <= i < |all| - 1
      ensures all[i] == DetailsOf(recs[i])
    {
      if i > 0 {
        assert all[i] == r.entries[i - 1];
      }
    }
    if r.Complete() {
      forall i | 0 <= i < |recs|
        ensures all[i] == DetailsOf(recs[i])
      {
        if i > 0 {
          assert all[i] == r.entries[i - 1] == DetailsOf(recs[1..][i - 1]);
        }
      }
    }
  }

  /** Reading back the whole index gives all the entries. */
  lemma {:induction false} ReadInvertsPrint(recs: seq<Record>)
    requires forall i :: 0 <= i < |recs| ==> Named(recs[i])
    ensures ReadAll(IndexOf(recs)) == ReadResult(AllDetails(recs), None)
  {
    TruncationIsDetected(recs, |IndexOf(recs)|);
    assert IndexOf(recs)[..|IndexOf(recs)|] == IndexOf(recs);
  }

  /** Lines without the end mark, wherever they are cut, are no index. */
  lemma {:induction false} LinesAreIncomplete(recs: seq<Record>, text: Bytes)
    requires forall i :: 0 <= i < |recs| ==> Named(recs[i])
    requires text <= Lines(recs)
    ensures !ReadAll(text).Complete()
  {
    TruncationIsDetected(recs, |text|);
    assert IndexOf(recs) == Lines(recs) + (END_MARK + "\n");
    assert text == Lines(recs)[..|text|] == IndexOf(recs)[..|text|];
  }
}
