/** One line of an index: URL-encoded `key=value` pairs joined by `&`. */
module IndexLine {
  import opened Bytes
  import opened UrlCodec

  type Pair = (Bytes, Bytes)
  type Details = map<Bytes, Bytes>

  function PrintPair(p: Pair): Bytes { UrlEncoded(p.0) + "=" + UrlEncoded(p.1) }

  function PrintPairs(ps: seq<Pair>): Bytes
  {
    if ps == [] then []
    else if |ps| == 1 then PrintPair(ps[0]) else PrintPair(ps[0]) + "&" + PrintPairs(ps[1..])
  }

  lemma {:induction false} PrintPairsSnoc(ps: seq<Pair>, p: Pair)
    requires ps != []
    ensures PrintPairs(ps + [p]) == PrintPairs(ps) + "&" + PrintPair(p)
  {
    assert (ps + [p])[1..] == ps[1..] + [p];
    if |ps| > 1 {
      PrintPairsSnoc(ps[1..], p);
      calc {
        PrintPairs(ps + [p]);
        PrintPair(ps[0]) + "&" + (PrintPairs(ps[1..]) + "&" + PrintPair(p));
        PrintPair(ps[0]) + "&" + PrintPairs(ps[1..]) + "&" + PrintPair(p);
      }
    }
  }

  /** Later pairs override earlier ones with the same key. */
  function DetailsOf(ps: seq<Pair>): Details
  {
    if ps == [] then map[] else DetailsOf(ps[..|ps| - 1])[ps[|ps| - 1].0 := ps[|ps| - 1].1]
  }

  /** The text of one `key=value` field, and what follows its `&`. */
  datatype Field = Field(key: Bytes, value: Bytes, more: Option<Bytes>)

  function FirstField(rest: Bytes): (r: Option<Field>)
    ensures r.Some? && r.value.more.Some? ==> |r.value.more.value| < |rest|
  {
    var sep := Find(rest, '=', 0);
    var n := Find(rest, '&', 0);
    if sep.None? || (n.Some? && sep.value >= n.value) then None
    else if n.None? then Some(Field(rest[..sep.value], rest[sep.value + 1..], None))
    else Some(Field(rest[..sep.value], rest[sep.value + 1..n.value], Some(rest[n.value + 1..])))
  }

  function DecodeField(f: Field): Result<Pair, CodecError>
  {
    match UrlDecoded(f.key, false)
    case Err(e) => Err(e)
    case Ok(k) =>
      match UrlDecoded(f.value, f.more.None?)
      case Err(e) => Err(e)
      case Ok(v) => Ok((k, v))
  }

  /** The pairs still to be parsed are `rest`, those parsed are in `l`; `line`
      is only quoted in the error. */
  function ParseRest(line: Bytes, rest: Bytes, l: Details): Result<Details, CodecError>
    decreases |rest|
  {
    match FirstField(rest)
    case None => Err(BadIndexFile(line))
    case Some(f) =>
      match DecodeField(f)
      case Err(e) => Err(e)
      case Ok(p) => if f.more.None? then Ok(l[p.0 := p.1]) else ParseRest(line, f.more.value, l[p.0 := p.1])
  }

  lemma {:induction false} ParseStep(line: Bytes, rest: Bytes, l: Details, f: Field, p: Pair)
    requires FirstField(rest) == Some(f) && DecodeField(f) == Ok(p)
    ensures ParseRest(line, rest, l) ==
            if f.more.None? then Ok(l[p.0 := p.1]) else ParseRest(line, f.more.value, l[p.0 := p.1])
  {
  }

  function Parsed(line: Bytes): Result<Details, CodecError> { ParseRest(line, line, map[]) }

  /** The first field of a tail, found by positions in the whole line. */
  lemma {:induction false} FieldAt(line: Bytes, pos: nat)
    requires pos <= |line|
    ensures var sep, n := Find(line, '=', pos), Find(line, '&', pos);
            FirstField(line[pos..]) ==
            if sep.None? || (n.Some? && sep.value >= n.value) then None
            else Some(FieldBetween(line, pos, sep.value, n))
  {
    var sep, n := Find(line, '=', pos), Find(line, '&', pos);
    FindInTail(line, '=', pos);
    FindInTail(line, '&', pos);
    if sep.Some? && (n.None? || sep.value < n.value) {
      assert line[pos..][..sep.value - pos] == line[pos..sep.value];
      if n.None? {
        assert line[pos..][sep.value - pos + 1..] == line[sep.value + 1..|line|];
      } else {
        assert line[pos..][sep.value - pos + 1..n.value - pos] == line[sep.value + 1..n.value];
        assert line[pos..][n.value - pos + 1..] == line[n.value + 1..];
      }
    }
  }

  /** One turn of the parsing loop. */
  lemma {:induction false} ParseStepAt(line: Bytes, pos: nat, l: Details)
    requires pos <= |line|
    ensures var sep, n := Find(line, '=', pos), Find(line, '&', pos);
            ParseRest(line, line[pos..], l) ==
            if sep.None? || (n.Some? && sep.value >= n.value) then Err(BadIndexFile(line))
            else
              match DecodeField(FieldBetween(line, pos, sep.value, n))
              case Err(e) => Err(e)
              case Ok(p) => if n.None? then Ok(l[p.0 := p.1]) else ParseRest(line, line[n.value + 1..], l[p.0 := p.1])
  {
    FieldAt(line, pos);
  }

  function FieldBetween(line: Bytes, pos: nat, sep: nat, n: Option<nat>): Field
    requires pos <= sep < |line| && (n.Some? ==> sep < n.value < |line|)
  {
    if n.None? then Field(line[pos..sep], line[sep + 1..|line|], None)
    else Field(line[pos..sep], line[sep + 1..n.value], Some(line[n.value + 1..]))
  }

  method DecodeAt(line: Bytes, pos: nat, sep: nat, n: Option<nat>) returns (r: Result<Pair, CodecError>)
    requires pos <= sep < |line| && (n.Some? ==> sep < n.value < |line|)
    ensures r == DecodeField(FieldBetween(line, pos, sep, n))
  {
    var key := UrlDecode(line, pos, Some(sep));
    if key.Err? { return Err(key.error); }
    var value := UrlDecode(line, sep + 1, n);
    if value.Err? { return Err(value.error); }
    return Ok((key.value, value.value));
  }

  method ParseIndexLine(line: Bytes) returns (r: Result<Details, CodecError>)
    ensures r == Parsed(line)
  {
    hide FirstField, DecodeField, UrlDecoded, ParseRest, Find;
    var l: Details := map[];
    var pos := 0;
    assert line[0..] == line;
    while true
      invariant pos <= |line|
      invariant Parsed(line) == ParseRest(line, line[pos..], l)
      decreases |line| - pos
    {
      var sep := Find(line, '=', pos);
      var n := Find(line, '&', pos);
      ParseStepAt(line, pos, l);
      if sep.None? || (n.Some? && sep.value > n.value) {
        return Err(BadIndexFile(line));
      }
      SeparatorsDiffer(line, pos);
      var p := DecodeAt(line, pos, sep.value, n);
      if p.Err? { return Err(p.error); }
      l := l[p.value.0 := p.value.1];
      if n.None? {
        return Ok(l);
      }
      pos := n.value + 1;
    }
  }

  lemma {:induction false} SeparatorsDiffer(line: Bytes, pos: nat)
    requires pos <= |line|
    ensures Find(line, '=', pos).None? || Find(line, '=', pos) != Find(line, '&', pos)
  {
    FindFirst(line, '=', pos);
    FindFirst(line, '&', pos);
  }

  // Malformed lines -----------------------------------------------------------------------

  /** Fields with `&` between them, as any line can be divided. */
  function WithAmps(fields: seq<Bytes>): Bytes
    requires fields != []
  {
    if |fields| == 1 then fields[0] else fields[0] + "&" + WithAmps(fields[1..])
  }

  /** A field with a key and a value, and no broken escape in them. */
  predicate GoodField(f: Bytes) { '=' in f && GoodEscapes(f) }

  /** Escapes do not reach over the sign between key and value. */
  lemma {:induction false} GoodParts(key: Bytes, value: Bytes)
    ensures GoodEscapes(key + "=" + value) <==> GoodEscapes(key) && GoodEscapes(value)
  {
    hide HexDigit;
    var t := key + "=" + value;
    assert t[|key| + 1..] == value;
    forall c | HexDigit(c).Ok?
      ensures c != '='
    {
      HexIsNoPercent(c);
    }
    forall i | 0 <= i < |key|
      ensures t[i] == key[i] && (GoodEscape(t, i) <==> GoodEscape(key, i))
    {
      assert i + 1 < |key| ==> t[i + 1] == key[i + 1];
      assert i + 2 < |key| ==> t[i + 2] == key[i + 2];
      assert i + 1 == |key| ==> t[i + 1] == '=';
      assert i + 2 == |key| ==> t[i + 2] == '=';
    }
    if GoodEscapes(key) || GoodEscapes(t) {
      forall i | 0 <= i < |key| + 1 && t[i] == '%'
        ensures GoodEscape(t, i)
      {
        assert i < |key| && key[i] == '%' && (GoodEscape(t, i) <==> GoodEscape(key, i));
      }
      GoodEscapesDrop(t, |key| + 1);
    }
    if GoodEscapes(t) {
      forall i | 0 <= i < |key| && key[i] == '%'
        ensures GoodEscape(key, i)
      {
        assert t[i] == '%' && GoodEscape(t, i);
      }
    }
  }

  lemma {:induction false} FieldDecodes(f: Field)
    ensures DecodeField(f).Ok? <==> GoodEscapes(f.key + "=" + f.value)
  {
    hide GoodEscapes, UrlDecoded;
    UrlDecodesIfGood(f.key, false);
    UrlDecodesIfGood(f.value, f.more.None?);
    GoodParts(f.key, f.value);
  }

  /** The first of the fields. */
  lemma {:induction false} FirstOfFields(fields: seq<Bytes>)
    requires fields != [] && forall f :: f in fields ==> '&' !in f
    ensures var r := FirstField(WithAmps(fields));
            && (r.Some? <==> '=' in fields[0])
            && (r.Some? ==>
                  && r.value.key + "=" + r.value.value == fields[0] && '=' !in r.value.key
                  && r.value.more == if |fields| == 1 then None else Some(WithAmps(fields[1..])))
  {
    assert fields[0] in fields;
    if |fields| == 1 {
      OnlyField(fields[0]);
    } else {
      FieldBefore(fields[0], WithAmps(fields[1..]));
    }
  }

  lemma {:induction false} OnlyField(f: Bytes)
    requires '&' !in f
    ensures var r := FirstField(f);
            && (r.Some? <==> '=' in f)
            && (r.Some? ==> r.value.key + "=" + r.value.value == f && '=' !in r.value.key && r.value.more == None)
  {
    FindAbsent(f, '&');
    FindFirst(f, '=', 0);
    if '=' in f {
      var n := Find(f, '=', 0).value;
      assert f == f[..n] + "=" + f[n + 1..];
    }
  }

  lemma {:induction false} FieldBefore(f: Bytes, more: Bytes)
    requires '&' !in f
    ensures var r := FirstField(f + "&" + more);
            && (r.Some? <==> '=' in f)
            && (r.Some? ==>
                  r.value.key + "=" + r.value.value == f && '=' !in r.value.key && r.value.more == Some(more))
  {
    var text := f + "&" + more;
    FindAfter(f, '&', more);
    FindFirst(f, '=', 0);
    FindFirst(text, '=', 0);
    hide Find;
    assert text[..|f|] == f && text[|f| + 1..] == more;
    assert forall i :: 0 <= i < |f| ==> text[i] == f[i];
    if '=' in f {
      var n := Find(text, '=', 0).value;
      assert text[..n] == f[..n] && text[n + 1..|f|] == f[n + 1..];
      assert f == f[..n] + "=" + f[n + 1..];
    }
  }

  lemma {:induction false} FieldsParse(line: Bytes, fields: seq<Bytes>, l: Details)
    requires fields != [] && forall f :: f in fields ==> '&' !in f
    ensures ParseRest(line, WithAmps(fields), l).Ok? <==> forall f :: f in fields ==> GoodField(f)
    decreases |fields|
  {
    hide FirstField, DecodeField, GoodEscapes, WithAmps;
    FirstOfFields(fields);
    var r := FirstField(WithAmps(fields));
    assert fields == [fields[0]] + fields[1..] && fields[0] in fields;
    if r.Some? {
      FieldDecodes(r.value);
      if |fields| > 1 && DecodeField(r.value).Ok? {
        var p := DecodeField(r.value).value;
        assert forall f :: f in fields[1..] ==> f in fields;
        FieldsParse(line, fields[1..], l[p.0 := p.1]);
      }
    }
  }

  /** A line is accepted if and only if each of its fields has a key and a value,
      and every percent sign in them is followed by two digits. */
  lemma {:induction false} ParsedIfGoodFields(fields: seq<Bytes>)
    requires fields != [] && forall f :: f in fields ==> '&' !in f
    ensures Parsed(WithAmps(fields)).Ok? <==> forall f :: f in fields ==> GoodField(f)
  {
    hide ParseRest, GoodField;
    FieldsParse(WithAmps(fields), fields, map[]);
  }

  /** Any line is fields. */
  lemma {:induction false} LineIsFields(line: Bytes) returns (fields: seq<Bytes>)
    ensures fields != [] && (forall f :: f in fields ==> '&' !in f) && WithAmps(fields) == line
    decreases |line|
  {
    FindFirst(line, '&', 0);
    var n := Find(line, '&', 0);
    if n.None? {
      fields := [line];
    } else {
      var rest := LineIsFields(line[n.value + 1..]);
      fields := [line[..n.value]] + rest;
      assert fields[1..] == rest;
      assert line == line[..n.value] + "&" + line[n.value + 1..];
    }
  }

  lemma {:induction false} PrintPairShape(p: Pair)
    ensures '&' !in PrintPair(p) && '\n' !in PrintPair(p)
    ensures Find(PrintPair(p), '=', 0) == Some(|UrlEncoded(p.0)|)
    ensures Find(PrintPair(p), '&', 0) == None
  {
    UrlEncodedIsPlain(p.0);
    UrlEncodedIsPlain(p.1);
    FindAfter(UrlEncoded(p.0), '=', UrlEncoded(p.1));
    FindAbsent(PrintPair(p), '&');
  }

  /** The first field of a printed pair, alone or with more to follow. */
  lemma {:induction false} FieldOfLastPair(p: Pair)
    ensures FirstField(PrintPair(p)) == Some(Field(UrlEncoded(p.0), UrlEncoded(p.1), None))
  {
    PrintPairShape(p);
    var text := PrintPair(p);
    assert text[..|UrlEncoded(p.0)|] == UrlEncoded(p.0);
    assert text[|UrlEncoded(p.0)| + 1..] == UrlEncoded(p.1);
  }

  lemma {:induction false} FieldOfNextPair(p: Pair, more: Bytes)
    ensures FirstField(PrintPair(p) + "&" + more) == Some(Field(UrlEncoded(p.0), UrlEncoded(p.1), Some(more)))
  {
    hide UrlEncoded, Find;
    var k, v := UrlEncoded(p.0), UrlEncoded(p.1);
    var text := PrintPair(p) + "&" + more;
    PrintPairShape(p);
    FindAfter(PrintPair(p), '&', more);
    KeyEndsFirst(p, more);
    assert text[..|k|] == k;
    assert text[|k| + 1..|PrintPair(p)|] == v;
    assert text[|PrintPair(p)| + 1..] == more;
  }

  lemma {:induction false} KeyEndsFirst(p: Pair, more: Bytes)
    ensures Find(PrintPair(p) + "&" + more, '=', 0) == Some(|UrlEncoded(p.0)|)
  {
    var k, v := UrlEncoded(p.0), UrlEncoded(p.1);
    UrlEncodedIsPlain(p.0);
    FindAfter(k, '=', v + "&" + more);
    assert PrintPair(p) + "&" + more == k + "=" + (v + "&" + more);
  }

  lemma {:induction false} DecodePrintedField(p: Pair, more: Option<Bytes>)
    ensures DecodeField(Field(UrlEncoded(p.0), UrlEncoded(p.1), more)) == Ok(p)
  {
    UrlDecodeInvertsUrlEncode(p.0, false);
    UrlDecodeInvertsUrlEncode(p.1, more.None?);
  }

  lemma {:induction false} DetailsOfSplit(ps: seq<Pair>, qs: seq<Pair>)
    ensures DetailsOf(ps + qs) == DetailsOf(ps) + DetailsOf(qs)
  {
    if qs == [] {
      assert ps + qs == ps;
    } else {
      assert (ps + qs)[..|ps + qs| - 1] == ps + qs[..|qs| - 1];
      DetailsOfSplit(ps, qs[..|qs| - 1]);
    }
  }

  lemma {:induction false} ParseOnePrinted(line: Bytes, p: Pair, l: Details)
    ensures ParseRest(line, PrintPairs([p]), l) == Ok(l[p.0 := p.1])
  {
    FieldOfLastPair(p);
    DecodePrintedField(p, None);
    ParseStep(line, PrintPairs([p]), l, Field(UrlEncoded(p.0), UrlEncoded(p.1), None), p);
  }

  lemma {:induction false} ParseFirstPrinted(line: Bytes, ps: seq<Pair>, l: Details)
    requires |ps| > 1
    ensures ParseRest(line, PrintPairs(ps), l) == ParseRest(line, PrintPairs(ps[1..]), l[ps[0].0 := ps[0].1])
  {
    var p, more := ps[0], PrintPairs(ps[1..]);
    FieldOfNextPair(p, more);
    DecodePrintedField(p, Some(more));
    ParseStep(line, PrintPairs(ps), l, Field(UrlEncoded(p.0), UrlEncoded(p.1), Some(more)), p);
  }

  lemma {:induction false} AddCons(l: Details, ps: seq<Pair>)
    requires ps != []
    ensures l[ps[0].0 := ps[0].1] + DetailsOf(ps[1..]) == l + DetailsOf(ps)
  {
    DetailsOfCons(ps);
  }

  lemma {:induction false} ParseRestOfPrinted(line: Bytes, ps: seq<Pair>, l: Details)
    requires ps != []
    ensures ParseRest(line, PrintPairs(ps), l) == Ok(l + DetailsOf(ps))
    decreases |ps|
  {
    AddCons(l, ps);
    if |ps| == 1 {
      ParseOnePrinted(line, ps[0], l);
      assert ps == [ps[0]];
      assert l[ps[0].0 := ps[0].1] + map[] == l[ps[0].0 := ps[0].1];
    } else {
      ParseFirstPrinted(line, ps, l);
      ParseRestOfPrinted(line, ps[1..], l[ps[0].0 := ps[0].1]);
    }
  }

  lemma {:induction false} DetailsOfCons(ps: seq<Pair>)
    requires ps != []
    ensures DetailsOf(ps) == map[ps[0].0 := ps[0].1] + DetailsOf(ps[1..])
  {
    var one := [ps[0]];
    assert one[..0] == [];
    DetailsOfSplit(one, ps[1..]);
    assert ps == one + ps[1..];
  }

  /** Parsing inverts printing, for all key and value byte strings; a repeated
      key keeps its last value. */
  lemma {:induction false} ParseInvertsPrint(ps: seq<Pair>)
    requires ps != []
    ensures Parsed(PrintPairs(ps)) == Ok(DetailsOf(ps))
  {
    ParseRestOfPrinted(PrintPairs(ps), ps, map[]);
    assert map[] + DetailsOf(ps) == DetailsOf(ps);
  }

  /** With distinct keys every pair is found again under its key. */
  lemma {:induction false} DistinctKeysAllFound(ps: seq<Pair>)
    requires forall i, j :: 0 <= i < j < |ps| ==> ps[i].0 != ps[j].0
    ensures forall i :: 0 <= i < |ps| ==> ps[i].0 in DetailsOf(ps) && DetailsOf(ps)[ps[i].0] == ps[i].1
    ensures forall k :: k in DetailsOf(ps) ==> exists i :: 0 <= i < |ps| && ps[i].0 == k
  {
    if ps == [] {
    } else {
      var front := ps[..|ps| - 1];
      DistinctKeysAllFound(front);
      forall i | 0 <= i < |ps|
        ensures ps[i].0 in DetailsOf(ps) && DetailsOf(ps)[ps[i].0] == ps[i].1
      {
        if i < |front| {
          assert front[i] == ps[i];
        }
      }
      forall k | k in DetailsOf(ps)
        ensures exists i :: 0 <= i < |ps| && ps[i].0 == k
      {
        if k in DetailsOf(front) {
          var i :| 0 <= i < |front| && front[i].0 == k;
          assert ps[i].0 == k;
        } else {
          assert ps[|ps| - 1].0 == k;
        }
      }
    }
  }

  /** A printed line is one line of text, and its first character is the first
      character of its first key. */
  lemma {:induction false} PrintedLineShape(ps: seq<Pair>)
    requires ps != []
    ensures '\n' !in PrintPairs(ps)
    ensures '=' in PrintPairs(ps)
    ensures PrintPair(ps[0]) <= PrintPairs(ps)
  {
    PrintPairShape(ps[0]);
    assert '=' in PrintPair(ps[0]);
    if |ps| > 1 {
      PrintedLineShape(ps[1..]);
    }
  }
}
