/** The text encodings of the index: hexadecimal and URL encoding. */
module UrlCodec {
  import opened Bytes

  /** The exceptions thrown while reading an index. */
  datatype CodecError =
    | BadHex(text: Bytes)
    | BadHexDigit
    | BadIndexFile(line: Bytes)

  const HASH_SIZE := 20
  const DEPTH := 2

  /** A SHA-1 digest: twenty octets. */
  type Digest = h: Bytes | |h| == 20
    witness seq(20, i => 'a')

  const HEX_DIGITS: Bytes := "0123456789abcdef"

  /** The table lookup of `hexdigit`. */
  function HexDigit(c: Byte): Result<nat, CodecError>
  {
    if '0' <= c <= '9' then Ok(c as int - '0' as int)
    else if 'A' <= c <= 'F' then Ok(c as int - 'A' as int + 10)
    else if 'a' <= c <= 'f' then Ok(c as int - 'a' as int + 10)
    else Err(BadHexDigit)
  }

  const UPPER_DIGITS: Bytes := "0123456789ABCDEF"

  /** Sixteen digits, and six of them in either case. */
  lemma {:induction false} HexDigitMeans(c: Byte, n: nat)
    requires n < 16
    ensures HexDigit(c) == Ok(n) <==> c == HEX_DIGITS[n] || c == UPPER_DIGITS[n]
  {
    assert n == 0 || n == 1 || n == 2 || n == 3 || n == 4 || n == 5 || n == 6 || n == 7 ||
           n == 8 || n == 9 || n == 10 || n == 11 || n == 12 || n == 13 || n == 14 || n == 15;
  }

  lemma {:induction false} HexDigitIsSmall(c: Byte)
    ensures HexDigit(c).Ok? ==> HexDigit(c).value < 16
    ensures HexDigit(c).Ok? <==> c in HEX_DIGITS || c in UPPER_DIGITS
    ensures HexDigit(c).Err? ==> HexDigit(c).error == BadHexDigit
  {
    if HexDigit(c).Ok? {
      var n := HexDigit(c).value;
      HexDigitMeans(c, n);
      assert HEX_DIGITS[n] in HEX_DIGITS && UPPER_DIGITS[n] in UPPER_DIGITS;
    }
    if c in HEX_DIGITS {
      var n: nat :| n < 16 && HEX_DIGITS[n] == c;
      HexDigitMeans(c, n);
    }
    if c in UPPER_DIGITS {
      var n: nat :| n < 16 && UPPER_DIGITS[n] == c;
      HexDigitMeans(c, n);
    }
  }

  function HexHigh(c: Byte): Byte { HEX_DIGITS[c as int / 16] }

  function HexLow(c: Byte): Byte { HEX_DIGITS[c as int % 16] }

  lemma {:induction false} HexDigitOf(c: Byte)
    ensures HexDigit(HexHigh(c)) == Ok(c as int / 16)
    ensures HexDigit(HexLow(c)) == Ok(c as int % 16)
    ensures HexHigh(c) != '%' && HexHigh(c) != '/' && HexHigh(c) != '+'
    ensures HexLow(c) != '%' && HexLow(c) != '/' && HexLow(c) != '+'
    ensures 48 <= HexHigh(c) as int <= 102 && 48 <= HexLow(c) as int <= 102
    ensures HexHigh(c) !in {'=', '&', ';'} && HexLow(c) !in {'=', '&', ';'}
  {
    DigitValue(c as int / 16);
    DigitValue(c as int % 16);
  }

  lemma {:induction false} DigitValue(n: nat)
    requires n < 16
    ensures HexDigit(HEX_DIGITS[n]) == Ok(n)
    ensures 48 <= HEX_DIGITS[n] as int <= 102
    ensures HEX_DIGITS[n] !in {'%', '/', '+', '=', '&', ';'}
  {
    assert n == 0 || n == 1 || n == 2 || n == 3 || n == 4 || n == 5 || n == 6 || n == 7 ||
           n == 8 || n == 9 || n == 10 || n == 11 || n == 12 || n == 13 || n == 14 || n == 15;
  }

  // Hexadecimal ------------------------------------------------------------

  function HexOf(h: Bytes): (r: Bytes)
    ensures |r| == 2 * |h|
  {
    if h == [] then [] else [HexHigh(h[0]), HexLow(h[0])] + HexOf(h[1..])
  }

  method HexEncode(h: Bytes) returns (s: Bytes)
    ensures s == HexOf(h)
  {
    s := [];
    for n := 0 to |h|
      invariant s == HexOf(h[..n])
    {
      HexOfSnoc(h[..n], h[n]);
      assert h[..n + 1] == h[..n] + [h[n]];
      s := s + [HexHigh(h[n])];
      s := s + [HexLow(h[n])];
    }
    assert h[..|h|] == h;
  }

  lemma {:induction false} HexOfSnoc(h: Bytes, c: Byte)
    ensures HexOf(h + [c]) == HexOf(h) + [HexHigh(c)] + [HexLow(c)]
  {
    if h == [] {
    } else {
      HexOfSnoc(h[1..], c);
      assert (h + [c])[1..] == h[1..] + [c];
    }
  }

  /** The bytes that an even run of hex digits stands for. */
  function UnhexPairs(hex: Bytes): Result<Bytes, CodecError>
    requires |hex| % 2 == 0
  {
    if hex == [] then Ok([])
    else match HexDigit(hex[0])
      case Err(e) => Err(e)
      case Ok(a) =>
        match HexDigit(hex[1])
        case Err(e) => Err(e)
        case Ok(b) =>
          Prepend(ByteOf(16 * a + b), UnhexPairs(hex[2..]))
  }

  function Unhex(hex: Bytes): Result<Bytes, CodecError>
  {
    if |hex| % 2 != 0 then Err(BadHex(hex)) else UnhexPairs(hex)
  }

  function Prepend(c: Byte, r: Result<Bytes, CodecError>): Result<Bytes, CodecError>
  {
    match r
    case Err(e) => Err(e)
    case Ok(s) => Ok([c] + s)
  }

  function Append(s: Bytes, r: Result<Bytes, CodecError>): Result<Bytes, CodecError>
  {
    match r
    case Err(e) => Err(e)
    case Ok(t) => Ok(s + t)
  }

  lemma {:induction false} AppendPrepend(s: Bytes, c: Byte, r: Result<Bytes, CodecError>)
    ensures Append(s, Prepend(c, r)) == Append(s + [c], r)
  {
    if r.Ok? {
      assert s + ([c] + r.value) == s + [c] + r.value;
    }
  }

  lemma {:induction false} AppendNothing(r: Result<Bytes, CodecError>)
    ensures Append([], r) == r
  {
    if r.Ok? {
      assert [] + r.value == r.value;
    }
  }

  method HexDecode(hex: Bytes) returns (r: Result<Bytes, CodecError>)
    ensures r == Unhex(hex)
  {
    if |hex| % 2 != 0 {
      return Err(BadHex(hex));
    }
    var nbytes := |hex| / 2;
    var bytes: Bytes := [];
    var n, at := nbytes, 0;
    AppendNothing(UnhexPairs(hex));
    assert hex[0..] == hex;
    while n > 0
      invariant 0 <= n <= nbytes && at == 2 * (nbytes - n)
      invariant UnhexPairs(hex) == Append(bytes, UnhexPairs(hex[at..]))
    {
      var a := HexDigit(hex[at]);
      if a.Err? { return Err(a.error); }
      var b := HexDigit(hex[at + 1]);
      if b.Err? { return Err(b.error); }
      assert hex[at..][2..] == hex[at + 2..];
      AppendPrepend(bytes, ByteOf(16 * a.value + b.value), UnhexPairs(hex[at + 2..]));
      bytes := bytes + [ByteOf(16 * a.value + b.value)];
      at := at + 2;
      n := n - 1;
    }
    assert hex[at..] == [] && bytes + [] == bytes;
    return Ok(bytes);
  }

  function HashOfHex(hex: Bytes): (r: Result<Digest, CodecError>)
  {
    if |hex| != 40 then Err(BadHex(hex))
    else
      match UnhexPairs(hex)
      case Err(e) => Err(e)
      case Ok(s) => UnhexLength(hex); Ok(s)
  }

  method HashDecode(hex: Bytes) returns (r: Result<Digest, CodecError>)
    ensures r == HashOfHex(hex)
  {
    if |hex| != 40 {
      return Err(BadHex(hex));
    }
    var s := HexDecode(hex);
    match s {
      case Err(e) => return Err(e);
      case Ok(h) => UnhexLength(hex); return Ok(h);
    }
  }

  lemma {:induction false} UnhexLength(hex: Bytes)
    requires |hex| % 2 == 0
    ensures UnhexPairs(hex).Ok? ==> |UnhexPairs(hex).value| == |hex| / 2
  {
    if hex != [] {
      UnhexLength(hex[2..]);
    }
  }

  lemma {:induction false} UnhexOfHex(h: Bytes)
    ensures UnhexPairs(HexOf(h)) == Ok(h)
  {
    if h == [] {
    } else {
      HexDigitOf(h[0]);
      assert HexOf(h)[2..] == HexOf(h[1..]);
      UnhexOfHex(h[1..]);
      assert [h[0]] + h[1..] == h;
    }
  }

  /** `hashdecode` inverts `hexencode`. */
  lemma {:induction false} HashDecodeInvertsHexEncode(h: Digest)
    ensures HashOfHex(HexOf(h)) == Ok(h)
  {
    UnhexOfHex(h);
  }

  lemma {:induction false} UnhexIfDigits(hex: Bytes)
    requires |hex| % 2 == 0
    ensures UnhexPairs(hex).Ok? <==> forall c :: c in hex ==> HexDigit(c).Ok?
    decreases |hex|
  {
    hide HexDigit;
    if hex != [] {
      UnhexIfDigits(hex[2..]);
      HexDigitIsSmall(hex[0]);
      HexDigitIsSmall(hex[1]);
      assert hex == [hex[0], hex[1]] + hex[2..];
    }
  }

  /** Forty digits, in either case, and nothing else, are a hash. */
  lemma {:induction false} HashIfFortyDigits(hex: Bytes)
    ensures HashOfHex(hex).Ok? <==> |hex| == 40 && forall c :: c in hex ==> c in HEX_DIGITS || c in UPPER_DIGITS
  {
    hide HexDigit, UnhexPairs;
    if |hex| == 40 {
      UnhexIfDigits(hex);
    }
    forall c
      ensures HexDigit(c).Ok? <==> c in HEX_DIGITS || c in UPPER_DIGITS
    {
      HexDigitIsSmall(c);
    }
  }

  lemma {:induction false} HexOfIsPlain(h: Bytes)
    ensures forall i :: 0 <= i < |HexOf(h)| ==>
                          HexOf(h)[i] !in {'%', '/', '+', '=', '&', ';'} && 48 <= HexOf(h)[i] as int <= 102
  {
    if h == [] {
    } else {
      HexDigitOf(h[0]);
      HexOfIsPlain(h[1..]);
    }
  }

  // The place of a hash in the repository ------------------------------------

  /** `aa/bb/aabb...`: DEPTH directories named by the leading octets, then the
      whole hash. */
  function HashPathOf(h: Digest): Bytes
  {
    HexOf(h[..1]) + "/" + HexOf(h[1..2]) + "/" + HexOf(h)
  }

  method HashPath(h: Digest) returns (buffer: Bytes)
    ensures buffer == HashPathOf(h)
  {
    buffer := [];
    for n := 0 to DEPTH
      invariant buffer == if n == 0 then [] else if n == 1 then HexOf(h[..1]) + "/"
                          else HexOf(h[..1]) + "/" + HexOf(h[1..2]) + "/"
    {
      buffer := buffer + [HexHigh(h[n]), HexLow(h[n])] + "/";
      assert HexOf([h[n]]) == [HexHigh(h[n]), HexLow(h[n])];
      assert n == 0 ==> h[..1] == [h[0]];
      assert n == 1 ==> h[1..2] == [h[1]];
    }
    for n := 0 to HASH_SIZE
      invariant buffer + HexOf(h[n..]) == HashPathOf(h)
    {
      assert h[n..][1..] == h[n + 1..];
      buffer := buffer + [HexHigh(h[n]), HexLow(h[n])];
    }
  }

  /** The file name below the two directories is the hash in hex, and
      different hashes have different places. */
  lemma {:induction false} HashPathEndsInHex(h: Digest)
    ensures |HashPathOf(h)| == 46
    ensures HashPathOf(h)[6..] == HexOf(h)
    ensures HashPathOf(h)[5] == '/'
  {
  }

  /** The first directory is named by the first two digits, the second by the
      next two. */
  lemma {:induction false} HashPathDirectories(h: Digest)
    ensures HashPathOf(h)[..2] == HexOf(h)[..2] && HashPathOf(h)[2] == '/'
    ensures HashPathOf(h)[3..5] == HexOf(h)[2..4]
  {
    var a, b := h[..1], h[1..2];
    assert h[1..][0] == h[1] && HexOf(h)[2..] == HexOf(h[1..]);
    assert HexOf(a) == [HexHigh(h[0]), HexLow(h[0])] + HexOf(a[1..]) && a[1..] == [];
    assert HexOf(b) == [HexHigh(h[1]), HexLow(h[1])] + HexOf(b[1..]) && b[1..] == [];
    assert HexOf(h[1..])[..2] == [HexHigh(h[1]), HexLow(h[1])];
  }

  lemma {:induction false} HashPathInjective(h: Digest, k: Digest)
    requires HashPathOf(h) == HashPathOf(k)
    ensures h == k
  {
    HashPathEndsInHex(h);
    HashPathEndsInHex(k);
    UnhexOfHex(h);
    UnhexOfHex(k);
  }

  // URL encoding ----------------------------------------------------------

  function EncodeByte(c: Byte): (r: Bytes)
  {
    if c == ' ' then "+"
    else if c < ' ' || c > '~' || c in {'+', '%', '&', '=', ';'} then ['%', HexHigh(c), HexLow(c)]
    else [c]
  }

  function UrlEncoded(s: Bytes): Bytes
  {
    if s == [] then [] else EncodeByte(s[0]) + UrlEncoded(s[1..])
  }

  method UrlEncode(s: Bytes) returns (r: Bytes)
    ensures r == UrlEncoded(s)
  {
    r := [];
    var n := 0;
    while n < |s|
      invariant n <= |s|
      invariant r == UrlEncoded(s[..n])
    {
      var c := s[n];
      UrlEncodedSnoc(s[..n], c);
      assert s[..n + 1] == s[..n] + [c];
      n := n + 1;
      if c == ' ' {
        r := r + "+";
      } else if c < ' ' || c > '~' || c == '+' || c == '%' || c == '&' || c == '=' || c == ';' {
        r := r + "%";
        r := r + [HexHigh(c)];
        r := r + [HexLow(c)];
      } else {
        r := r + [c];
      }
    }
    assert s[..n] == s;
  }

  lemma {:induction false} UrlEncodedSnoc(s: Bytes, c: Byte)
    ensures UrlEncoded(s + [c]) == UrlEncoded(s) + EncodeByte(c)
  {
    hide EncodeByte;
    if s == [] {
      assert (s + [c])[1..] == [] && EncodeByte(c) + [] == EncodeByte(c) == [] + EncodeByte(c);
    } else {
      UrlEncodedSnoc(s[1..], c);
      assert (s + [c])[1..] == s[1..] + [c];
      var first, rest := EncodeByte(s[0]), UrlEncoded(s[1..]);
      assert first + (rest + EncodeByte(c)) == first + rest + EncodeByte(c);
    }
  }

  /** Decoding a piece of text.  `toEnd` says that the piece was given as
      "up to the end of the string": the length test then lets a cut-off
      escape through, and the terminating NUL that is read instead of a digit
      raises the other exception. */
  function UrlDecoded(t: Bytes, toEnd: bool): Result<Bytes, CodecError>
  {
    if t == [] then Ok([])
    else if t[0] == '%' then
      if |t| < 3 then Err(if toEnd then BadHexDigit else BadHex(t))
      else
        match HexDigit(t[1])
        case Err(e) => Err(e)
        case Ok(a) =>
          match HexDigit(t[2])
          case Err(e) => Err(e)
          case Ok(b) => Prepend(ByteOf(16 * a + b), UrlDecoded(t[3..], toEnd))
    else Prepend(if t[0] == '+' then ' ' else t[0], UrlDecoded(t[1..], toEnd))
  }

  /** The character at a position, where the position just past the end holds
      the terminating NUL. */
  function At(s: Bytes, n: nat): Byte
    requires n <= |s|
  {
    if n < |s| then s[n] else '\0'
  }

  method UrlDecode(s: Bytes, start: nat, end: Option<nat>) returns (r: Result<Bytes, CodecError>)
    requires end.None? ==> start <= |s|
    requires end.Some? ==> start <= end.value <= |s|
    ensures r == UrlDecoded(s[start..if end.None? then |s| else end.value], end.None?)
  {
    var out: Bytes := [];
    var limit := if end.None? then |s| else end.value;
    ghost var text := s[start..limit];
    var n := start;
    AppendNothing(UrlDecoded(text, end.None?));
    while n < limit
      invariant start <= n <= limit
      invariant UrlDecoded(text, end.None?) == Append(out, UrlDecoded(s[n..limit], end.None?))
    {
      if s[n] == '+' {
        assert s[n..limit][1..] == s[n + 1..limit];
        AppendPrepend(out, ' ', UrlDecoded(s[n + 1..limit], end.None?));
        out := out + [' '];
        n := n + 1;
      } else if s[n] == '%' {
        if end.None? || n + 2 < end.value {
          var a := HexDigit(At(s, n + 1));
          if a.Err? { return Err(a.error); }
          var b := HexDigit(At(s, n + 2));
          if b.Err? { return Err(b.error); }
          assert s[n..limit][3..] == s[n + 3..limit];
          AppendPrepend(out, ByteOf(16 * a.value + b.value), UrlDecoded(s[n + 3..limit], end.None?));
          out := out + [ByteOf(16 * a.value + b.value)];
          n := n + 3;
        } else {
          return Err(BadHex(s[n..limit]));
        }
      } else {
        assert s[n..limit][1..] == s[n + 1..limit];
        AppendPrepend(out, s[n], UrlDecoded(s[n + 1..limit], end.None?));
        out := out + [s[n]];
        n := n + 1;
      }
    }
    assert s[n..limit] == [] && out + [] == out;
    return Ok(out);
  }

  lemma {:induction false} DecodeStep(c: Byte, rest: Bytes, toEnd: bool)
    ensures UrlDecoded(EncodeByte(c) + rest, toEnd) == Prepend(c, UrlDecoded(rest, toEnd))
  {
    HexDigitOf(c);
    var t := EncodeByte(c) + rest;
    assert t[|EncodeByte(c)|..] == rest;
    if |EncodeByte(c)| == 3 {
      assert t[1] == HexHigh(c) && t[2] == HexLow(c);
    }
  }

  /** `urldecode` inverts `urlencode`, wherever the text stands in a line. */
  lemma {:induction false} UrlDecodeInvertsUrlEncode(s: Bytes, toEnd: bool)
    ensures UrlDecoded(UrlEncoded(s), toEnd) == Ok(s)
  {
    if s == [] {
    } else {
      DecodeStep(s[0], UrlEncoded(s[1..]), toEnd);
      UrlDecodeInvertsUrlEncode(s[1..], toEnd);
      assert [s[0]] + s[1..] == s;
    }
  }

  // Malformed text ------------------------------------------------------------

  /** A percent sign and two digits. */
  predicate GoodEscape(t: Bytes, i: nat)
    requires i < |t|
  {
    i + 2 < |t| && HexDigit(t[i + 1]).Ok? && HexDigit(t[i + 2]).Ok?
  }

  predicate GoodEscapes(t: Bytes) { forall i :: 0 <= i < |t| && t[i] == '%' ==> GoodEscape(t, i) }

  lemma {:induction false} GoodEscapesDrop(t: Bytes, k: nat)
    requires k <= |t| && forall i :: 0 <= i < k && t[i] == '%' ==> GoodEscape(t, i)
    ensures GoodEscapes(t) <==> GoodEscapes(t[k..])
  {
    forall i | 0 <= i < |t| - k
      ensures t[k..][i] == t[k + i] && (GoodEscape(t[k..], i) <==> GoodEscape(t, k + i))
    {
    }
    if GoodEscapes(t[k..]) {
      forall i | 0 <= i < |t| && t[i] == '%'
        ensures GoodEscape(t, i)
      {
        if i >= k {
          assert t[k..][i - k] == t[i] && GoodEscape(t[k..], i - k);
        }
      }
    }
    if GoodEscapes(t) {
      forall i | 0 <= i < |t| - k && t[k..][i] == '%'
        ensures GoodEscape(t[k..], i)
      {
        assert GoodEscape(t, k + i);
      }
    }
  }

  /** Decoding succeeds if and only if every percent sign is followed by two
      digits. */
  lemma {:induction false} UrlDecodesIfGood(t: Bytes, toEnd: bool)
    ensures UrlDecoded(t, toEnd).Ok? <==> GoodEscapes(t)
    decreases |t|
  {
    hide GoodEscapes;
    if t == [] {
      assert GoodEscapes(t) by { NothingIsGood(t); }
    } else if t[0] == '%' {
      FirstEscape(t);
      if GoodEscape(t, 0) {
        HexIsNoPercent(t[1]);
        HexIsNoPercent(t[2]);
        GoodEscapesDrop(t, 3);
        UrlDecodesIfGood(t[3..], toEnd);
      }
    } else {
      GoodEscapesDrop(t, 1);
      UrlDecodesIfGood(t[1..], toEnd);
    }
  }

  lemma {:induction false} NothingIsGood(t: Bytes)
    requires t == []
    ensures GoodEscapes(t)
  {
  }

  lemma {:induction false} FirstEscape(t: Bytes)
    requires t != [] && t[0] == '%'
    ensures GoodEscapes(t) ==> GoodEscape(t, 0)
  {
  }

  lemma {:induction false} HexIsNoPercent(c: Byte)
    requires HexDigit(c).Ok?
    ensures c != '%' && c != '=' && c != '&'
  {
  }

  /** Text is its own encoding if and only if it is plain and has none of the two
      characters that stand for something else. */
  lemma {:induction false} EncodedIsSame(s: Bytes)
    ensures UrlEncoded(s) == s <==> forall c :: c in s ==> Plain(c) && c != '+' && c != '%'
  {
    if s != [] {
      EncodedIsSame(s[1..]);
      EncodedIsLonger(s[1..]);
      EncodedByte(s[0]);
      assert s == [s[0]] + s[1..] && forall c :: c in s <==> c == s[0] || c in s[1..];
      var e := EncodeByte(s[0]);
      assert UrlEncoded(s)[..|e|] == e && UrlEncoded(s)[|e|..] == UrlEncoded(s[1..]);
      if UrlEncoded(s) == s {
        assert e[0] == s[0] && |e| + |UrlEncoded(s[1..])| == 1 + |s[1..]|;
      }
    }
  }

  lemma {:induction false} EncodedIsLonger(s: Bytes)
    ensures |UrlEncoded(s)| >= |s|
  {
    if s != [] {
      EncodedIsLonger(s[1..]);
    }
  }

  lemma {:induction false} EncodedByte(c: Byte)
    ensures |EncodeByte(c)| >= 1
    ensures |EncodeByte(c)| == 1 && EncodeByte(c)[0] == c <==> Plain(c) && c != '+' && c != '%'
    ensures |EncodeByte(c)| == 3 <==> (!Plain(c) && c != ' ') || c == '+' || c == '%'
  {
    assert c as int != ' ' as int ==> (Plain(c) <==> '!' as int <= c as int <= '~' as int && c !in {'&', '=', ';'});
  }

  /** Characters that may stand in encoded text: printable, and none of the
      separators of an index line. */
  predicate Plain(c: Byte) { '!' <= c <= '~' && c != '&' && c != '=' && c != ';' }

  lemma {:induction false} UrlEncodedIsPlain(s: Bytes)
    ensures forall c :: c in UrlEncoded(s) ==> Plain(c)
  {
    if s == [] {
    } else {
      HexDigitOf(s[0]);
      UrlEncodedIsPlain(s[1..]);
      assert UrlEncoded(s) == EncodeByte(s[0]) + UrlEncoded(s[1..]);
    }
  }

  /** Text made of letters and digits is its own encoding (the hash algorithm
      name, hex hashes and numbers are printed without encoding). */
  predicate Alnum(c: Byte) { '0' <= c <= '9' || 'A' <= c <= 'Z' || 'a' <= c <= 'z' }

  lemma {:induction false} AlnumEncodesToItself(s: Bytes)
    requires forall c :: c in s ==> Alnum(c)
    ensures UrlEncoded(s) == s
  {
    hide EncodeByte, Alnum;
    if s == [] {
    } else {
      assert s[0] in s;
      AlnumByte(s[0]);
      assert forall c :: c in s[1..] ==> c in s;
      AlnumEncodesToItself(s[1..]);
      assert [s[0]] + s[1..] == s;
    }
  }

  lemma {:induction false} AlnumByte(c: Byte)
    requires Alnum(c)
    ensures EncodeByte(c) == [c]
  {
    assert c as int != ' ' as int && c as int != '+' as int;
  }

  lemma {:induction false} HexOfIsAlnum(h: Bytes)
    ensures forall c :: c in HexOf(h) ==> Alnum(c)
  {
    if h == [] {
    } else {
      DigitAlnum(h[0] as int / 16);
      DigitAlnum(h[0] as int % 16);
      HexOfIsAlnum(h[1..]);
    }
  }

  lemma {:induction false} DigitAlnum(n: nat)
    requires n < 16
    ensures Alnum(HEX_DIGITS[n])
  {
    assert n == 0 || n == 1 || n == 2 || n == 3 || n == 4 || n == 5 || n == 6 || n == 7 ||
           n == 8 || n == 9 || n == 10 || n == 11 || n == 12 || n == 13 || n == 14 || n == 15;
  }
}
