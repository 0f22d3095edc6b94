/** SHA-1 as RFC 3174 defines it (sections 4 to 6.1), for messages that are
    whole octets.  This is the definition that the streaming code of the
    module Sha1 is proved against. */
module Sha1Spec {
  import opened Bytes

  type Word = bv32

  const BLOCK := 64

  // Section 3 and 5: operations on words, functions and constants -------------

  function CircularShift(bits: Word, word: Word): Word
    requires 0 < bits < 32
  {
    (word << bits) | (word >> (32 - bits))
  }

  function Choose(b: Word, c: Word, d: Word): Word { (b & c) | ((!b) & d) }

  function Parity(b: Word, c: Word, d: Word): Word { b ^ c ^ d }

  function Majority(b: Word, c: Word, d: Word): Word { (b & c) | (b & d) | (c & d) }

  function F(t: nat, b: Word, c: Word, d: Word): Word
  {
    if t < 20 then Choose(b, c, d)
    else if t < 40 then Parity(b, c, d)
    else if t < 60 then Majority(b, c, d)
    else Parity(b, c, d)
  }

  function K(t: nat): Word
  {
    if t < 20 then 0x5A82_7999
    else if t < 40 then 0x6ED9_EBA1
    else if t < 60 then 0x8F1B_BCDC
    else 0xCA62_C1D6
  }

  // What the operations are, apart from how they are written ----------------------

  /** The three rotations that are used: what goes out on the left comes in on
      the right. */
  lemma {:induction false} ShiftsRotate(w: Word)
    ensures CircularShift(1, w) == w * 2 + w / 0x8000_0000
    ensures CircularShift(5, w) == w * 32 + w / 0x800_0000
    ensures CircularShift(30, w) == w * 0x4000_0000 + w / 4
  {
    hide *;
    ShiftOne(w);
    ShiftFive(w);
    ShiftThirty(w);
  }

  lemma {:induction false} ShiftOne(w: Word)
    ensures CircularShift(1, w) == w * 2 + w / 0x8000_0000
  {
    assert CircularShift(1, w) == (w << 1) | (w >> 31);
    hide CircularShift;
    RotatesOne(w);
  }

  lemma {:induction false} ShiftFive(w: Word)
    ensures CircularShift(5, w) == w * 32 + w / 0x800_0000
  {
    assert CircularShift(5, w) == (w << 5) | (w >> 27);
    hide CircularShift;
    RotatesFive(w);
  }

  lemma {:induction false} ShiftThirty(w: Word)
    ensures CircularShift(30, w) == w * 0x4000_0000 + w / 4
  {
    assert CircularShift(30, w) == (w << 30) | (w >> 2);
    hide CircularShift;
    RotatesThirty(w);
  }

  lemma {:induction false} RotatesOne(w: Word)
    ensures (w << 1) | (w >> 31) == w * 2 + w / 0x8000_0000
  {
  }

  lemma {:induction false} RotatesFive(w: Word)
    ensures (w << 5) | (w >> 27) == w * 32 + w / 0x800_0000
  {
  }

  lemma {:induction false} RotatesThirty(w: Word)
    ensures (w << 30) | (w >> 2) == w * 0x4000_0000 + w / 4
  {
  }

  /** Bit by bit: `b` chooses between `c` and `d`. */
  lemma {:induction false} ChooseChooses(b: Word, c: Word, d: Word)
    ensures Choose(b, c, d) & b == c & b && Choose(b, c, d) & !b == d & !b
  {
  }

  /** Where `c` and `d` are the same they cancel, elsewhere `b` is turned over. */
  lemma {:induction false} ParityIsOdd(b: Word, c: Word, d: Word)
    ensures Parity(b, c, d) & !(c ^ d) == b & !(c ^ d) && Parity(b, c, d) & (c ^ d) == !b & (c ^ d)
  {
  }

  /** Where two of the three agree they win. */
  lemma {:induction false} MajorityWins(b: Word, c: Word, d: Word)
    ensures Majority(b, c, d) & !(b ^ c) == b & !(b ^ c)
    ensures Majority(b, c, d) & (b ^ c) == d & (b ^ c)
  {
  }

  /** The first octet is the most significant. */
  lemma {:induction false} JoinedInOrder(b0: Byte, b1: Byte, b2: Byte, b3: Byte)
    ensures JoinWord(b0, b1, b2, b3) ==
            (b0 as int as Word) * 0x100_0000 + (b1 as int as Word) * 0x1_0000 + (b2 as int as Word) * 0x100
            + (b3 as int as Word)
  {
    hide JoinOctets;
    OctetIsSmall(b0 as int);
    OctetIsSmall(b1 as int);
    OctetIsSmall(b2 as int);
    OctetIsSmall(b3 as int);
    OctetsApart(b0 as int as Word, b1 as int as Word, b2 as int as Word, b3 as int as Word);
  }

  lemma {:induction false} OctetIsSmall(n: nat)
    requires n < 256
    ensures n as Word <= 0xFF
  {
  }

  lemma {:induction false} OctetsApart(x0: Word, x1: Word, x2: Word, x3: Word)
    requires x0 <= 0xFF && x1 <= 0xFF && x2 <= 0xFF && x3 <= 0xFF
    ensures JoinOctets(x0, x1, x2, x3) == x0 * 0x100_0000 + x1 * 0x1_0000 + x2 * 0x100 + x3
  {
  }

  // Section 6.1: the computation on one block ---------------------------------

  function WordAt(block: Bytes, t: nat): Word
    requires |block| == BLOCK && t < 16
  {
    JoinWord(block[t * 4], block[t * 4 + 1], block[t * 4 + 2], block[t * 4 + 3])
  }

  function JoinWord(b0: Byte, b1: Byte, b2: Byte, b3: Byte): Word
  {
    JoinOctets(b0 as int as Word, b1 as int as Word, b2 as int as Word, b3 as int as Word)
  }

  function JoinOctets(x0: Word, x1: Word, x2: Word, x3: Word): Word
  {
    (((x0 << 24) | (x1 << 16)) | (x2 << 8)) | x3
  }

  function ExpandedWord(w3: Word, w8: Word, w14: Word, w16: Word): Word { CircularShift(1, w3 ^ w8 ^ w14 ^ w16) }

  function Schedule(block: Bytes, t: nat): Word
    requires |block| == BLOCK
  {
    if t < 16 then WordAt(block, t)
    else ExpandedWord(Schedule(block, t - 3), Schedule(block, t - 8), Schedule(block, t - 14), Schedule(block, t - 16))
  }

  datatype Registers = Registers(a: Word, b: Word, c: Word, d: Word, e: Word)

  const INITIAL := Registers(0x6745_2301, 0xEFCD_AB89, 0x98BA_DCFE, 0x1032_5476, 0xC3D2_E1F0)

  function Add5(u: Word, v: Word, w: Word, x: Word, y: Word): Word { u + v + w + x + y }

  function Round(t: nat, r: Registers, w: Word): Registers
  {
    Registers(Add5(CircularShift(5, r.a), F(t, r.b, r.c, r.d), r.e, w, K(t)), r.a, CircularShift(30, r.b), r.c, r.d)
  }

  function Rounds(block: Bytes, h: Registers, n: nat): Registers
    requires |block| == BLOCK
  {
    if n == 0 then h else Round(n - 1, Rounds(block, h, n - 1), Schedule(block, n - 1))
  }

  function Add2(u: Word, v: Word): Word { u + v }

  function Sum(h: Registers, r: Registers): Registers
  {
    Registers(Add2(h.a, r.a), Add2(h.b, r.b), Add2(h.c, r.c), Add2(h.d, r.d), Add2(h.e, r.e))
  }

  function Compress(h: Registers, block: Bytes): Registers
    requires |block| == BLOCK
  {
    Sum(h, Rounds(block, h, 80))
  }

  function Process(h: Registers, s: Bytes): Registers
    requires |s| % BLOCK == 0
    decreases |s|
  {
    if |s| < BLOCK then h else Process(Compress(h, s[..BLOCK]), s[BLOCK..])
  }

  // Section 4: padding ----------------------------------------------------------

  function Zeros(n: nat): (z: Bytes)
    ensures |z| == n
    ensures forall i :: 0 <= i < n ==> z[i] == '\0'
  {
    seq(n, _ => '\0')
  }

  /** The length in bits, as two words. */
  function LengthField(length: nat): (r: Bytes)
    ensures |r| == 8
  {
    BigEndian32(8 * length / 0x1_0000_0000) + BigEndian32(8 * length % 0x1_0000_0000)
  }

  /** The number of zero octets that puts the length at the end of a block. */
  function PaddingZeros(length: nat): (z: nat)
    ensures z < BLOCK
    ensures (length + 9 + z) % BLOCK == 0
  {
    var used := length % BLOCK;
    if used <= 55 then 55 - used else 119 - used
  }

  /** A one bit, zeros up to eight octets before the end of a block, and the
      length in bits as two words. */
  function Padding(length: nat): (p: Bytes)
    ensures (length + |p|) % BLOCK == 0
    ensures 9 <= |p| <= 72
  {
    [ByteOf(0x80)] + Zeros(PaddingZeros(length)) + LengthField(length)
  }

  function Padded(m: Bytes): (p: Bytes)
    ensures |p| % BLOCK == 0
  {
    m + Padding(|m|)
  }

  /** The number that octets stand for, most significant first. */
  function NumberOf(s: Bytes): nat
  {
    if s == [] then 0 else NumberOf(s[..|s| - 1]) * 256 + s[|s| - 1] as int
  }

  lemma {:induction false} NumberOfSnoc(s: Bytes, c: Byte)
    ensures NumberOf(s + [c]) == NumberOf(s) * 256 + c as int
  {
    assert (s + [c])[..|s|] == s;
  }

  lemma {:induction false} NumberOfFour(s: Bytes, w: Bytes)
    requires |w| == 4
    ensures NumberOf(s + w) == (((NumberOf(s) * 256 + w[0] as int) * 256 + w[1] as int) * 256 + w[2] as int) * 256
                               + w[3] as int
  {
    hide NumberOf;
    var s1 := s + [w[0]];
    var s2 := s1 + [w[1]];
    var s3 := s2 + [w[2]];
    NumberOfSnoc(s, w[0]);
    NumberOfSnoc(s1, w[1]);
    NumberOfSnoc(s2, w[2]);
    NumberOfSnoc(s3, w[3]);
    assert s + w == s3 + [w[3]];
  }

  lemma {:induction false} NumberOfWords(high: nat, low: nat)
    requires high < 0x1_0000_0000 && low < 0x1_0000_0000
    ensures NumberOf(BigEndian32(high) + BigEndian32(low)) == high * 0x1_0000_0000 + low
  {
    hide NumberOf;
    assert NumberOf([]) == 0 by { NumberOfNothing(); }
    NumberOfFour([], BigEndian32(high));
    assert [] + BigEndian32(high) == BigEndian32(high);
    NumberOfFour(BigEndian32(high), BigEndian32(low));
    QuarterWord(high);
    QuarterWord(low);
  }

  lemma {:induction false} NumberOfNothing()
    ensures NumberOf([]) == 0
  {
  }

  lemma {:induction false} QuarterWord(n: nat)
    requires n < 0x1_0000_0000
    ensures n / 0x100_0000 % 256 * 0x100_0000 + n / 0x1_0000 % 256 * 0x1_0000 + n / 0x100 % 256 * 0x100 + n % 256 == n
  {
  }

  /** The padded message, octet by octet: the message, a one bit, zeros, and the
      length in bits; it is the shortest such that is whole blocks. */
  lemma {:induction false} PaddedShape(m: Bytes)
    requires |m| < LIMIT
    ensures var p := Padded(m);
            && |p| % BLOCK == 0 && |m| + 9 <= |p| < |m| + 9 + BLOCK
            && p[..|m|] == m && p[|m|] as int == 0x80
            && (forall i :: |m| < i < |p| - 8 ==> p[i] == '\0')
            && NumberOf(p[|p| - 8..]) == 8 * |m|
  {
    hide BigEndian32;
    var p, bits := Padded(m), 8 * |m|;
    NumberOfWords(bits / 0x1_0000_0000, bits % 0x1_0000_0000);
    assert p[|p| - 8..] == LengthField(|m|);
  }

  // The digest ---------------------------------------------------------------

  function DigestBytes(h: Registers): (d: Bytes)
    ensures |d| == 20
  {
    BigEndian32(h.a as int) + BigEndian32(h.b as int) + BigEndian32(h.c as int)
    + BigEndian32(h.d as int) + BigEndian32(h.e as int)
  }

  function Digest(m: Bytes): (d: Bytes)
    ensures |d| == 20
  {
    DigestBytes(Process(INITIAL, Padded(m)))
  }

  /** SHA-1 is defined for messages below 2^64 bits. */
  const LIMIT: nat := 0x2000_0000_0000_0000

  // Properties of the definition ---------------------------------------------

  lemma {:induction false} ProcessSplit(h: Registers, a: Bytes, b: Bytes)
    requires |a| % BLOCK == 0 && |b| % BLOCK == 0
    ensures Process(h, a + b) == Process(Process(h, a), b)
    decreases |a|
  {
    hide Compress;
    if a == [] {
      assert a + b == b;
    } else {
      assert (a + b)[..BLOCK] == a[..BLOCK];
      assert (a + b)[BLOCK..] == a[BLOCK..] + b;
      ProcessSplit(Compress(h, a[..BLOCK]), a[BLOCK..], b);
    }
  }

  lemma {:induction false} ProcessBlock(h: Registers, block: Bytes)
    requires |block| == BLOCK
    ensures Process(h, block) == Compress(h, block)
  {
    hide Compress;
    assert block[..BLOCK] == block && block[BLOCK..] == [];
  }
}
