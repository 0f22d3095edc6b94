/** The streaming SHA-1 of sha1.c: a context that takes the message in pieces,
    keeps an unfinished block, and counts bits in two 32-bit words. */
module Sha1 {
  import opened Bytes
  import opened Sha1Spec

  // Error codes
  const SHA_SUCCESS := 0
  const SHA_STATE_ERROR := 3
  /** What the code stores when the bit count overflows. */
  const SHA_TOO_LONG := 1

  const WORD_RANGE: nat := 0x1_0000_0000

  /** A word shifted right by so many octets. */
  function Shifted(word: nat, octets: nat): nat
    requires octets < 4
  {
    if octets == 0 then word else if octets == 1 then word / 0x100
    else if octets == 2 then word / 0x1_0000 else word / 0x100_0000
  }

  class Sha1Context {
    const intermediateHash: array<Word>
    const messageBlock: array<Byte>
    var lengthLow: nat
    var lengthHigh: nat
    var messageBlockIndex: nat
    var computed: bool
    var corrupted: int
    /** All octets taken in so far. */
    ghost var message: Bytes

    ghost predicate Shape()
    {
      intermediateHash.Length == 5 && messageBlock.Length == BLOCK
    }

    function State(): Registers
      requires Shape()
      reads intermediateHash
    {
      Registers(intermediateHash[0], intermediateHash[1], intermediateHash[2], intermediateHash[3], intermediateHash[4])
    }

    /** Taking input: whole blocks are in the registers, the rest is in the
        block, and the two length words count eight bits per octet. */
    ghost predicate Absorbing()
      requires Shape()
      reads this, intermediateHash, messageBlock
    {
      && messageBlockIndex < BLOCK
      && |message| % BLOCK == messageBlockIndex
      && State() == Process(INITIAL, message[..|message| - messageBlockIndex])
      && messageBlock[..messageBlockIndex] == message[|message| - messageBlockIndex..]
      && lengthLow < WORD_RANGE && lengthHigh < WORD_RANGE
      && lengthHigh * WORD_RANGE + lengthLow == 8 * |message|
    }

    ghost predicate Finished()
      requires Shape()
      reads this, intermediateHash
    {
      |message| < LIMIT && State() == Process(INITIAL, Padded(message))
    }

    ghost predicate Valid()
      reads this, intermediateHash, messageBlock
    {
      && Shape()
      && (corrupted == SHA_SUCCESS ==> if computed then Finished() else Absorbing())
      && (corrupted == SHA_TOO_LONG ==> !computed && |message| == LIMIT)
      && (corrupted == SHA_STATE_ERROR ==> computed)
      && corrupted in {SHA_SUCCESS, SHA_TOO_LONG, SHA_STATE_ERROR}
    }

    /** SHA1Reset */
    constructor ()
      ensures Valid() && fresh(intermediateHash) && fresh(messageBlock)
      ensures message == [] && !computed && corrupted == SHA_SUCCESS
    {
      intermediateHash := new Word[5];
      messageBlock := new Byte[BLOCK];
      lengthLow := 0;
      lengthHigh := 0;
      messageBlockIndex := 0;
      computed := false;
      corrupted := SHA_SUCCESS;
      message := [];
      new;
      intermediateHash[0] := 0x6745_2301;
      intermediateHash[1] := 0xEFCD_AB89;
      intermediateHash[2] := 0x98BA_DCFE;
      intermediateHash[3] := 0x1032_5476;
      intermediateHash[4] := 0xC3D2_E1F0;
    }

    method ProcessMessageBlock()
      requires Shape()
      modifies intermediateHash, `messageBlockIndex
      ensures State() == Compress(old(State()), messageBlock[..])
      ensures messageBlockIndex == 0
    {
      hide Add5, Add2, CircularShift, Choose, Parity, Majority, F, K, Schedule, Rounds;
      ghost var block := messageBlock[..];
      ghost var h := State();
      var W := ExpandBlock();
      ghost var words := W[..];
      NoRounds(block, h);

      var A, B, C := intermediateHash[0], intermediateHash[1], intermediateHash[2];
      var D, E := intermediateHash[3], intermediateHash[4];
      for t := 0 to 20
        invariant W[..] == words && State() == h
        invariant Registers(A, B, C, D, E) == Rounds(block, h, t)
      {
        var temp := Add5(CircularShift(5, A), Choose(B, C, D), E, W[t], 0x5A82_7999);
        NextRound(block, h, t, Registers(A, B, C, D, E));
        assert W[t] == words[t] == Schedule(block, t);
        E, D, C, B, A := D, C, CircularShift(30, B), A, temp;
      }
      for t := 20 to 40
        invariant W[..] == words && State() == h
        invariant Registers(A, B, C, D, E) == Rounds(block, h, t)
      {
        var temp := Add5(CircularShift(5, A), Parity(B, C, D), E, W[t], 0x6ED9_EBA1);
        NextRound(block, h, t, Registers(A, B, C, D, E));
        assert W[t] == words[t] == Schedule(block, t);
        E, D, C, B, A := D, C, CircularShift(30, B), A, temp;
      }
      for t := 40 to 60
        invariant W[..] == words && State() == h
        invariant Registers(A, B, C, D, E) == Rounds(block, h, t)
      {
        var temp := Add5(CircularShift(5, A), Majority(B, C, D), E, W[t], 0x8F1B_BCDC);
        NextRound(block, h, t, Registers(A, B, C, D, E));
        assert W[t] == words[t] == Schedule(block, t);
        E, D, C, B, A := D, C, CircularShift(30, B), A, temp;
      }
      for t := 60 to 80
        invariant W[..] == words && State() == h
        invariant Registers(A, B, C, D, E) == Rounds(block, h, t)
      {
        var temp := Add5(CircularShift(5, A), Parity(B, C, D), E, W[t], 0xCA62_C1D6);
        NextRound(block, h, t, Registers(A, B, C, D, E));
        assert W[t] == words[t] == Schedule(block, t);
        E, D, C, B, A := D, C, CircularShift(30, B), A, temp;
      }

      intermediateHash[0] := Add2(intermediateHash[0], A);
      intermediateHash[1] := Add2(intermediateHash[1], B);
      intermediateHash[2] := Add2(intermediateHash[2], C);
      intermediateHash[3] := Add2(intermediateHash[3], D);
      intermediateHash[4] := Add2(intermediateHash[4], E);
      messageBlockIndex := 0;
    }

    /** Eight more bits. */
    method CountOctet(ghost n: nat)
      requires lengthLow < WORD_RANGE && lengthHigh < WORD_RANGE
      requires lengthHigh * WORD_RANGE + lengthLow == 8 * n && n < LIMIT
      modifies `lengthLow, `lengthHigh, `corrupted
      ensures lengthLow < WORD_RANGE && lengthHigh < WORD_RANGE
      ensures n + 1 == LIMIT ==> corrupted == SHA_TOO_LONG
      ensures n + 1 < LIMIT ==> corrupted == old(corrupted) && lengthHigh * WORD_RANGE + lengthLow == 8 * (n + 1)
    {
      CountByte(lengthHigh, lengthLow, n);
      lengthLow := (lengthLow + 8) % WORD_RANGE;
      if lengthLow == 0 {
        lengthHigh := (lengthHigh + 1) % WORD_RANGE;
        if lengthHigh == 0 {
          corrupted := SHA_TOO_LONG;
        }
      }
    }

    /** One octet of SHA1Input's loop. */
    method InputByte(c: Byte)
      requires Valid() && !computed && corrupted == SHA_SUCCESS && |message| < LIMIT
      modifies this, intermediateHash, messageBlock
      ensures Valid() && !computed
      ensures message == old(message) + [c]
      ensures corrupted == if |message| == LIMIT then SHA_TOO_LONG else SHA_SUCCESS
    {
      hide Process, Compress, Padded;
      ghost var head := message[..|message| - messageBlockIndex];
      ghost var tail := message[|message| - messageBlockIndex..];
      SplitMessage(message, messageBlockIndex, c);
      messageBlock[messageBlockIndex] := c;
      messageBlockIndex := messageBlockIndex + 1;
      CountOctet(|message|);
      assert messageBlock[..messageBlockIndex] == tail + [c];
      if messageBlockIndex == BLOCK {
        assert messageBlock[..] == tail + [c];
        ProcessMessageBlock();
        AbsorbBlock(INITIAL, head, tail + [c]);
        assert messageBlock[..0] == [];
      }
      message := message + [c];
    }

    method Input(data: Bytes) returns (e: int)
      requires Valid() && |data| < WORD_RANGE
      modifies this, intermediateHash, messageBlock
      ensures Valid() && computed == old(computed)
      // nothing to do
      ensures data == [] ==> e == SHA_SUCCESS && message == old(message) && corrupted == old(corrupted)
      // input after the digest was taken, or after an error
      ensures data != [] && old(computed) ==> e == corrupted == SHA_STATE_ERROR && message == old(message)
      ensures data != [] && !old(computed) && old(corrupted) != SHA_SUCCESS ==>
                e == corrupted == old(corrupted) && message == old(message)
      // input taken, as far as the bit count reaches
      ensures data != [] && !old(computed) && old(corrupted) == SHA_SUCCESS ==>
                && e == SHA_SUCCESS
                && message == old(message) + data[..Min(|data|, LIMIT - |old(message)|)]
                && corrupted == if |message| == LIMIT then SHA_TOO_LONG else SHA_SUCCESS
    {
      if |data| == 0 {
        return SHA_SUCCESS;
      }
      if computed {
        corrupted := SHA_STATE_ERROR;
        return SHA_STATE_ERROR;
      }
      if corrupted != SHA_SUCCESS {
        return corrupted;
      }
      assert |message| < LIMIT by { CountBound(lengthHigh, lengthLow, |message|); }
      var n := 0;
      assert data[..0] == [] && message + [] == message;
      while n < |data| && corrupted == SHA_SUCCESS
        invariant 0 <= n <= |data| && Valid() && !computed
        invariant |message| <= LIMIT && n <= LIMIT - |old(message)|
        invariant message == old(message) + data[..n]
        invariant corrupted == if |message| == LIMIT then SHA_TOO_LONG else SHA_SUCCESS
      {
        InputByte(data[n]);
        assert data[..n + 1] == data[..n] + [data[n]];
        n := n + 1;
      }
      return SHA_SUCCESS;
    }

    method PadMessage()
      requires Valid() && !computed && corrupted == SHA_SUCCESS
      modifies this`messageBlockIndex, intermediateHash, messageBlock
      ensures |message| < LIMIT
      ensures State() == Process(INITIAL, Padded(message))
      // beyond the whole blocks already absorbed, one compression or two
      ensures |Padded(message)| ==
              |message| - old(messageBlockIndex) + BLOCK * if old(messageBlockIndex) > 55 then 2 else 1
    {
      hide Process, Compress, Padded, Valid, Zeros, LengthField;
      ghost var head, tail := Parted();
      PaddedLength(head, tail);
      if messageBlockIndex > 55 {
        SpillBlock(head, tail);
        FinishSecondBlock(head + (tail + [ByteOf(0x80)] + Zeros(63 - |tail|)));
        TwoBlockPadding(head, tail);
      } else {
        FinishOnlyBlock(head, tail);
        OneBlockPadding(head, tail);
      }
    }

    /** The whole blocks of the message, and the rest in the buffer. */
    lemma Parted() returns (head: Bytes, tail: Bytes)
      requires Valid() && !computed && corrupted == SHA_SUCCESS
      ensures Shape() && message == head + tail && |head| % BLOCK == 0 && |tail| == messageBlockIndex < BLOCK
      ensures messageBlock[..messageBlockIndex] == tail && State() == Process(INITIAL, head)
      ensures lengthHigh * WORD_RANGE + lengthLow == 8 * |message| && |message| < LIMIT
      ensures lengthLow < WORD_RANGE && lengthHigh < WORD_RANGE
    {
      hide Process, Compress, Padded;
      CountBound(lengthHigh, lengthLow, |message|);
      tail := message[|message| - messageBlockIndex..];
      head := message[..|message| - messageBlockIndex];
      assert message == head + tail;
    }

    method FinishSecondBlock(ghost head: Bytes)
      requires Shape() && messageBlockIndex == 0 && |head| % BLOCK == 0
      requires State() == Process(INITIAL, head)
      requires lengthHigh * WORD_RANGE + lengthLow == 8 * |message|
      requires lengthLow < WORD_RANGE && lengthHigh < WORD_RANGE
      modifies this`messageBlockIndex, intermediateHash, messageBlock
      ensures State() == Process(INITIAL, head + (Zeros(56) + LengthField(|message|)))
    {
      hide Process, Compress, Padded, LengthField;
      ZeroUntil(56);
      assert messageBlock[..56] == Zeros(56);
      StoreLength();
      ProcessMessageBlock();
      AbsorbBlock(INITIAL, head, Zeros(56) + LengthField(|message|));
    }

    method FinishOnlyBlock(ghost head: Bytes, ghost tail: Bytes)
      requires Shape() && messageBlockIndex <= 55 && |tail| == messageBlockIndex && |head| % BLOCK == 0
      requires messageBlock[..messageBlockIndex] == tail && State() == Process(INITIAL, head)
      requires lengthHigh * WORD_RANGE + lengthLow == 8 * |message|
      requires lengthLow < WORD_RANGE && lengthHigh < WORD_RANGE
      modifies this`messageBlockIndex, intermediateHash, messageBlock
      ensures State() == Process(INITIAL, head + (tail + [ByteOf(0x80)] + Zeros(55 - |tail|) + LengthField(|message|)))
    {
      hide Process, Compress, Padded, LengthField;
      FillBlock(tail);
      ghost var last := messageBlock[..];
      ProcessMessageBlock();
      AbsorbBlock(INITIAL, head, last);
    }

    /** The first of two padded blocks: the end marker and zeros to its end. */
    method SpillBlock(ghost head: Bytes, ghost tail: Bytes)
      requires Shape() && 55 < messageBlockIndex < BLOCK && |tail| == messageBlockIndex && |head| % BLOCK == 0
      requires messageBlock[..messageBlockIndex] == tail && State() == Process(INITIAL, head)
      modifies this`messageBlockIndex, intermediateHash, messageBlock
      ensures messageBlockIndex == 0 && |head + (tail + [ByteOf(0x80)] + Zeros(63 - |tail|))| % BLOCK == 0
      ensures State() == Process(INITIAL, head + (tail + [ByteOf(0x80)] + Zeros(63 - |tail|)))
    {
      hide Process, Compress, Padded;
      messageBlock[messageBlockIndex] := ByteOf(0x80);
      messageBlockIndex := messageBlockIndex + 1;
      assert messageBlock[..messageBlockIndex] == tail + [ByteOf(0x80)];
      ZeroUntil(64);
      ghost var first := tail + [ByteOf(0x80)] + Zeros(63 - |tail|);
      assert messageBlock[..64] == first;
      assert messageBlock[..] == messageBlock[..64];
      ProcessMessageBlock();
      AbsorbBlock(INITIAL, head, first);
    }

    /** The only padded block: end marker, zeros and length. */
    method FillBlock(ghost tail: Bytes)
      requires Shape() && messageBlockIndex <= 55 && |tail| == messageBlockIndex
      requires messageBlock[..messageBlockIndex] == tail
      requires lengthHigh * WORD_RANGE + lengthLow == 8 * |message|
      requires lengthLow < WORD_RANGE && lengthHigh < WORD_RANGE
      modifies this`messageBlockIndex, messageBlock
      ensures messageBlock[..] == tail + [ByteOf(0x80)] + Zeros(55 - |tail|) + LengthField(|message|)
    {
      messageBlock[messageBlockIndex] := ByteOf(0x80);
      messageBlockIndex := messageBlockIndex + 1;
      assert messageBlock[..messageBlockIndex] == tail + [ByteOf(0x80)];
      ZeroUntil(56);
      StoreLength();
    }

    method ZeroUntil(end: nat)
      requires Shape() && messageBlockIndex <= end <= BLOCK
      modifies messageBlock, `messageBlockIndex
      ensures messageBlockIndex == end
      ensures messageBlock[..end] == old(messageBlock[..messageBlockIndex]) + Zeros(end - old(messageBlockIndex))
    {
      while messageBlockIndex < end
        invariant old(messageBlockIndex) <= messageBlockIndex <= end
        invariant messageBlock[..messageBlockIndex] ==
                  old(messageBlock[..messageBlockIndex]) + Zeros(messageBlockIndex - old(messageBlockIndex))
      {
        messageBlock[messageBlockIndex] := '\0';
        messageBlockIndex := messageBlockIndex + 1;
      }
    }

    /** The length as the last eight octets. */
    method StoreLength()
      requires Shape() && lengthHigh * WORD_RANGE + lengthLow == 8 * |message|
      requires lengthLow < WORD_RANGE && lengthHigh < WORD_RANGE
      modifies messageBlock
      ensures messageBlock[..] == old(messageBlock[..56]) + LengthField(|message|)
    {
      LengthWords(lengthHigh, lengthLow, |message|);
      messageBlock[56] := ByteOf(lengthHigh / 0x100_0000 % 256);
      messageBlock[57] := ByteOf(lengthHigh / 0x1_0000 % 256);
      messageBlock[58] := ByteOf(lengthHigh / 0x100 % 256);
      messageBlock[59] := ByteOf(lengthHigh % 256);
      messageBlock[60] := ByteOf(lengthLow / 0x100_0000 % 256);
      messageBlock[61] := ByteOf(lengthLow / 0x1_0000 % 256);
      messageBlock[62] := ByteOf(lengthLow / 0x100 % 256);
      messageBlock[63] := ByteOf(lengthLow % 256);
    }

    /** The digest, exactly when the message is below the limit and no input
        came after an earlier digest. */
    method Result() returns (e: int, digest: Bytes)
      requires Valid()
      modifies this, intermediateHash, messageBlock
      ensures Valid() && message == old(message) && corrupted == old(corrupted)
      ensures e == corrupted
      ensures e == SHA_SUCCESS ==> computed && |message| < LIMIT && digest == Digest(message)
      ensures !old(computed) ==> (e == SHA_SUCCESS <==> |message| < LIMIT)
    {
      hide Process, Compress, Padded, DigestBytes;
      digest := [];
      if corrupted != SHA_SUCCESS {
        return corrupted, digest;
      }
      if !computed {
        PadMessage();
        ClearBlock();
        lengthLow := 0;
        lengthHigh := 0;
        computed := true;
      }
      digest := StoreDigest();
      return SHA_SUCCESS, digest;
    }

    method ClearBlock()
      requires Shape()
      modifies messageBlock
      ensures messageBlock[..] == Zeros(64)
    {
      for i := 0 to 64
        invariant forall k :: 0 <= k < i ==> messageBlock[k] == '\0'
      {
        messageBlock[i] := '\0';
      }
    }

    method StoreDigest() returns (digest: Bytes)
      requires Shape()
      ensures digest == DigestBytes(State())
    {
      hide DigestBytes;
      ghost var h := State();
      assert intermediateHash[..] == Words(h);
      digest := [];
      for i := 0 to 20
        invariant digest == DigestBytes(h)[..i]
      {
        var word := intermediateHash[i / 4];
        assert word == intermediateHash[..][i / 4];
        DigestByte(h, i, word as int);
        digest := digest + [ByteOf(Shifted(word as int, 3 - i % 4) % 256)];
      }
    }

    /** The word sequence W of the current block. */
    method ExpandBlock() returns (W: array<Word>)
      requires Shape()
      ensures fresh(W) && W.Length == 80
      ensures forall j :: 0 <= j < 80 ==> W[j] == Schedule(messageBlock[..], j)
    {
      hide JoinWord, ExpandedWord;
      W := new Word[80];
      for t := 0 to 16
        invariant forall j :: 0 <= j < t ==> W[j] == WordAt(messageBlock[..], j)
      {
        W[t] := JoinWord(messageBlock[t * 4], messageBlock[t * 4 + 1], messageBlock[t * 4 + 2],
                         messageBlock[t * 4 + 3]);
      }
      for t := 16 to 80
        invariant forall j :: 0 <= j < t ==> W[j] == Schedule(messageBlock[..], j)
      {
        W[t] := ExpandedWord(W[t - 3], W[t - 8], W[t - 14], W[t - 16]);
      }
    }
  }

  lemma {:induction false} NoRounds(block: Bytes, h: Registers)
    requires |block| == BLOCK
    ensures Rounds(block, h, 0) == h
  {
  }

  lemma {:induction false} NextRound(block: Bytes, h: Registers, t: nat, r: Registers)
    requires |block| == BLOCK && r == Rounds(block, h, t)
    ensures Rounds(block, h, t + 1) ==
            Registers(Add5(CircularShift(5, r.a), if t < 20 then Choose(r.b, r.c, r.d)
                                                 else if 40 <= t < 60 then Majority(r.b, r.c, r.d)
                                                 else Parity(r.b, r.c, r.d), r.e, Schedule(block, t),
                           if t < 20 then 0x5A82_7999 else if t < 40 then 0x6ED9_EBA1
                           else if t < 60 then 0x8F1B_BCDC else 0xCA62_C1D6),
                      r.a, CircularShift(30, r.b), r.c, r.d)
  {
    hide Add5, CircularShift, Choose, Parity, Majority, Schedule;
  }

  // The two length words --------------------------------------------------------

  /** Adding eight to the low word with carry counts one more octet, and the
      count comes out as zero exactly at the limit. */
  lemma {:induction false} CountByte(high: nat, low: nat, n: nat)
    requires low < WORD_RANGE && high < WORD_RANGE
    requires high * WORD_RANGE + low == 8 * n && n < LIMIT
    ensures var low' := (low + 8) % WORD_RANGE;
            var high' := if low' == 0 then (high + 1) % WORD_RANGE else high;
            && (high' * WORD_RANGE + low' == 8 * (n + 1) || n + 1 == LIMIT)
            && (low' == 0 && high' == 0 <==> n + 1 == LIMIT)
  {
    var units := n - high * 0x2000_0000;
    assert low == 8 * units && 0 <= units < 0x2000_0000;
    if units + 1 == 0x2000_0000 {
      assert (low + 8) % WORD_RANGE == 0;
    } else {
      assert (low + 8) % WORD_RANGE == low + 8;
    }
  }

  function Words(h: Registers): (w: seq<Word>)
    ensures |w| == 5
  {
    [h.a, h.b, h.c, h.d, h.e]
  }

  lemma {:induction false} DigestByte(h: Registers, i: nat, word: nat)
    requires i < 20
    requires word == Words(h)[i / 4] as int
    ensures DigestBytes(h)[i] == ByteOf(Shifted(word, 3 - i % 4) % 256)
  {
    hide DigestBytes;
    DigestIsWords(h, i);
    WordByte(word, i % 4);
  }

  lemma {:induction false} WordByte(word: nat, k: nat)
    requires k < 4
    ensures BigEndian32(word)[k] == ByteOf(Shifted(word, 3 - k) % 256)
  {
  }

  lemma {:induction false} DigestIsWords(h: Registers, i: nat)
    requires i < 20
    ensures DigestBytes(h)[i] == BigEndian32(Words(h)[i / 4] as int)[i % 4]
  {
    hide BigEndian32;
    if i < 4 {
      assert i / 4 == 0;
    } else if i < 8 {
      assert i / 4 == 1;
    } else if i < 12 {
      assert i / 4 == 2;
    } else if i < 16 {
      assert i / 4 == 3;
    } else {
      assert i / 4 == 4;
    }
  }

  lemma {:induction false} SplitMessage(m: Bytes, rest: nat, c: Byte)
    requires rest < BLOCK && |m| % BLOCK == rest
    ensures var head, tail := m[..|m| - rest], m[|m| - rest..];
            && |head| % BLOCK == 0
            && m + [c] == head + (tail + [c])
            && |m + [c]| % BLOCK == (if rest + 1 < BLOCK then rest + 1 else 0)
            && (rest + 1 < BLOCK ==> (m + [c])[..|m| - rest] == head)
            && (rest + 1 < BLOCK ==> (m + [c])[|m| - rest..] == tail + [c])
            && (rest + 1 == BLOCK ==> (m + [c])[..|m + [c]|] == m + [c])
            && (rest + 1 == BLOCK ==> (m + [c])[|m + [c]|..] == [])
  {
  }

  lemma {:induction false} CountBound(high: nat, low: nat, n: nat)
    requires low < WORD_RANGE && high < WORD_RANGE
    requires high * WORD_RANGE + low == 8 * n
    ensures n < LIMIT
  {
  }

  lemma {:induction false} LengthWords(high: nat, low: nat, n: nat)
    requires low < WORD_RANGE && high < WORD_RANGE
    requires high * WORD_RANGE + low == 8 * n
    ensures LengthField(n) == BigEndian32(high) + BigEndian32(low)
  {
    assert 8 * n / WORD_RANGE == high && 8 * n % WORD_RANGE == low;
  }

  // Blocks ------------------------------------------------------------------------

  lemma {:induction false} AbsorbBlock(h: Registers, head: Bytes, block: Bytes)
    requires |head| % BLOCK == 0 && |block| == BLOCK
    ensures Compress(Process(h, head), block) == Process(h, head + block)
  {
    hide Compress, Process;
    ProcessSplit(h, head, block);
    ProcessBlock(Process(h, head), block);
  }

  /** A rest of at most 55 octets is padded within its own block. */
  lemma {:induction false} PaddedLength(head: Bytes, tail: Bytes)
    requires |head| % BLOCK == 0 && |tail| < BLOCK
    ensures |Padded(head + tail)| == |head| + BLOCK * if |tail| > 55 then 2 else 1
  {
    if |tail| > 55 {
      TwoBlockPadding(head, tail);
    } else {
      OneBlockPadding(head, tail);
    }
  }

  lemma {:induction false} OneBlockPadding(head: Bytes, tail: Bytes)
    requires |head| % BLOCK == 0 && |tail| <= 55
    ensures head + (tail + [ByteOf(0x80)] + Zeros(55 - |tail|) + LengthField(|head + tail|)) == Padded(head + tail)
  {
    assert |head + tail| % BLOCK == |tail|;
    assert PaddingZeros(|head + tail|) == 55 - |tail|;
  }

  /** A longer rest spills the length into a second block. */
  lemma {:induction false} TwoBlockPadding(head: Bytes, tail: Bytes)
    requires |head| % BLOCK == 0 && 55 < |tail| < BLOCK
    ensures (head + (tail + [ByteOf(0x80)] + Zeros(63 - |tail|))) + (Zeros(56) + LengthField(|head + tail|)) ==
            Padded(head + tail)
  {
    assert |head + tail| % BLOCK == |tail|;
    assert PaddingZeros(|head + tail|) == 119 - |tail|;
    assert Zeros(63 - |tail|) + Zeros(56) == Zeros(119 - |tail|);
  }
}
