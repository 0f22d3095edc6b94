/** The first test vector of SHA-1 (section 7.3 of RFC 3174, and sha1test.c),
    computed by the definition, eight rounds at a time. */
module Sha1Example {
  import opened Bytes
  import opened Sha1Spec

  /** The next sixteen words of the schedule. */
  datatype Window = Window(w0: Word, w1: Word, w2: Word, w3: Word, w4: Word, w5: Word, w6: Word, w7: Word,
                           w8: Word, w9: Word, w10: Word, w11: Word, w12: Word, w13: Word, w14: Word, w15: Word)

  datatype Run = Run(r: Registers, w: Window)

  function Slide(w: Window): Window
  {
    Window(w.w1, w.w2, w.w3, w.w4, w.w5, w.w6, w.w7, w.w8, w.w9, w.w10, w.w11, w.w12, w.w13, w.w14, w.w15,
           ExpandedWord(w.w13, w.w8, w.w2, w.w0))
  }

  function Turn(t: nat, x: Run): Run { Run(Round(t, x.r, x.w.w0), Slide(x.w)) }

  function EightTurns(t: nat, x: Run): Run
  {
    var y := Turn(t + 3, Turn(t + 2, Turn(t + 1, Turn(t, x))));
    Turn(t + 7, Turn(t + 6, Turn(t + 5, Turn(t + 4, y))))
  }

  ghost predicate WordsFrom(block: Bytes, t: nat, w: Window)
    requires |block| == BLOCK
  {
    && Schedule(block, t) == w.w0 && Schedule(block, t + 1) == w.w1
    && Schedule(block, t + 2) == w.w2 && Schedule(block, t + 3) == w.w3
    && Schedule(block, t + 4) == w.w4 && Schedule(block, t + 5) == w.w5
    && Schedule(block, t + 6) == w.w6 && Schedule(block, t + 7) == w.w7
    && Schedule(block, t + 8) == w.w8 && Schedule(block, t + 9) == w.w9
    && Schedule(block, t + 10) == w.w10 && Schedule(block, t + 11) == w.w11
    && Schedule(block, t + 12) == w.w12 && Schedule(block, t + 13) == w.w13
    && Schedule(block, t + 14) == w.w14 && Schedule(block, t + 15) == w.w15
  }

  /** Where the computation on `block` is after `t` rounds. */
  ghost predicate Reached(block: Bytes, t: nat, x: Run)
    requires |block| == BLOCK
  {
    x.r == Rounds(block, INITIAL, t) && WordsFrom(block, t, x.w)
  }

  lemma {:induction false} TurnReaches(block: Bytes, t: nat, x: Run)
    requires |block| == BLOCK && Reached(block, t, x)
    ensures Reached(block, t + 1, Turn(t, x))
  {
    hide Round, WordsFrom, ExpandedWord;
    SlideReaches(block, t, x.w);
    assert WordsFrom(block, t, x.w) ==> Schedule(block, t) == x.w.w0 by { FirstWord(block, t, x.w); }
  }

  lemma {:induction false} FirstWord(block: Bytes, t: nat, w: Window)
    requires |block| == BLOCK
    ensures WordsFrom(block, t, w) ==> Schedule(block, t) == w.w0
  {
    hide Schedule;
  }

  lemma {:induction false} SlideReaches(block: Bytes, t: nat, w: Window)
    requires |block| == BLOCK && WordsFrom(block, t, w)
    ensures WordsFrom(block, t + 1, Slide(w))
  {
    hide ExpandedWord, Schedule;
    NextWord(block, t + 16);
  }

  lemma {:induction false} NextWord(block: Bytes, t: nat)
    requires |block| == BLOCK && t >= 16
    ensures Schedule(block, t) == ExpandedWord(Schedule(block, t - 3), Schedule(block, t - 8), Schedule(block, t - 14),
                                               Schedule(block, t - 16))
  {
    hide ExpandedWord;
  }

  lemma {:induction false} EightReach(block: Bytes, t: nat, x: Run, y: Run)
    requires |block| == BLOCK && Reached(block, t, x) && y == EightTurns(t, x)
    ensures Reached(block, t + 8, y)
  {
    hide Turn, Reached;
    var x1 := Turn(t, x);
    var x2 := Turn(t + 1, x1);
    var x3 := Turn(t + 2, x2);
    var x4 := Turn(t + 3, x3);
    var x5 := Turn(t + 4, x4);
    var x6 := Turn(t + 5, x5);
    var x7 := Turn(t + 6, x6);
    TurnReaches(block, t, x);
    TurnReaches(block, t + 1, x1);
    TurnReaches(block, t + 2, x2);
    TurnReaches(block, t + 3, x3);
    TurnReaches(block, t + 4, x4);
    TurnReaches(block, t + 5, x5);
    TurnReaches(block, t + 6, x6);
    TurnReaches(block, t + 7, x7);
  }

  // The message "abc" ------------------------------------------------------------

  function Abc(): (block: Bytes)
    ensures |block| == BLOCK
  {
    ['a', 'b', 'c', ByteOf(0x80)] + Zeros(59) + [ByteOf(24)]
  }

  lemma {:induction false} AbcPadded()
    ensures Padded("abc") == Abc()
  {
    assert LengthField(3) == Zeros(7) + [ByteOf(24)];
    assert "abc" + [ByteOf(0x80)] == ['a', 'b', 'c', ByteOf(0x80)];
    assert Zeros(52) + Zeros(7) == Zeros(59);
  }

  lemma {:induction false} AbcWords()
    ensures JoinWord('a', 'b', 'c', ByteOf(0x80)) == 0x6162_6380
    ensures JoinWord('\0', '\0', '\0', '\0') == 0
    ensures JoinWord('\0', '\0', '\0', ByteOf(24)) == 24
  {
  }

  lemma {:induction false} AbcSchedule(t: nat)
    requires t < 16
    ensures Schedule(Abc(), t) == if t == 0 then 0x6162_6380 else if t == 15 then 24 else 0
  {
    hide JoinWord;
    AbcWords();
  }

  lemma {:induction false} AbcStarts()
    ensures Reached(Abc(), 0, At0)
  {
    hide Schedule, Abc;
    assert Rounds(Abc(), INITIAL, 0) == INITIAL;
    forall t: nat | t < 16
      ensures Schedule(Abc(), t) == if t == 0 then 0x6162_6380 else if t == 15 then 24 else 0
    {
      AbcSchedule(t);
    }
  }

  const At0: Run :=
    Run(Registers(0x6745_2301, 0xEFCD_AB89, 0x98BA_DCFE, 0x1032_5476, 0xC3D2_E1F0),
        Window(0x6162_6380, 0x0000_0000, 0x0000_0000, 0x0000_0000,
               0x0000_0000, 0x0000_0000, 0x0000_0000, 0x0000_0000,
               0x0000_0000, 0x0000_0000, 0x0000_0000, 0x0000_0000,
               0x0000_0000, 0x0000_0000, 0x0000_0000, 0x0000_0018))
  const At8: Run :=
    Run(Registers(0x9E8C_07D4, 0x993E_30C1, 0x0FF1_F290, 0xB3F5_2677, 0xF376_3846),
        Window(0x0000_0000, 0x0000_0000, 0x0000_0000, 0x0000_0000,
               0x0000_0000, 0x0000_0000, 0x0000_0000, 0x0000_0018,
               0xC2C4_C700, 0x0000_0000, 0x0000_0030, 0x8589_8E01,
               0x0000_0000, 0x0000_0060, 0x0B13_1C03, 0x0000_0030))
  const At16: Run :=
    Run(Registers(0x20BD_D62F, 0x196B_EE77, 0x644A_3DA5, 0x1181_ED99, 0x18C6_23F9),
        Window(0xC2C4_C700, 0x0000_0000, 0x0000_0030, 0x8589_8E01,
               0x0000_0000, 0x0000_0060, 0x0B13_1C03, 0x0000_0030,
               0x8589_8EC1, 0x1626_3806, 0x0000_0000, 0x0000_0180,
               0x2C4C_700C, 0x0000_00F0, 0x93AF_B507, 0x5898_E048))
  const At24: Run :=
    Run(Registers(0xD541_F12D, 0x2128_3486, 0x0CE8_8EFF, 0x868D_EC32, 0x7F67_875F),
        Window(0x8589_8EC1, 0x1626_3806, 0x0000_0000, 0x0000_0180,
               0x2C4C_700C, 0x0000_00F0, 0x93AF_B507, 0x5898_E048,
               0x8E9A_9202, 0x0000_0600, 0xB131_C0F0, 0x1626_3BC6,
               0x4EBE_D41E, 0x6263_80A1, 0x1626_3806, 0x0000_18C0))
  const At32: Run :=
    Run(Registers(0x3B84_5D33, 0x1267_B407, 0x717E_EBD7, 0xA0DC_2D4B, 0xD2AA_1365),
        Window(0x8E9A_9202, 0x0000_0600, 0xB131_C0F0, 0x1626_3BC6,
               0x4EBE_D41E, 0x6263_80A1, 0x1626_3806, 0x0000_18C0,
               0xD2E1_38C4, 0x0000_0F00, 0x3AFB_5079, 0x898E_04E5,
               0xE2BA_3C2B, 0x0000_60C0, 0x053A_37CD, 0x7445_8547))
  const At40: Run :=
    Run(Registers(0x32DE_1CBA, 0x4C98_6405, 0xF718_E5CF, 0x03D4_47F6, 0xF72E_EC32),
        Window(0xD2E1_38C4, 0x0000_0F00, 0x3AFB_5079, 0x898E_04E5,
               0xE2BA_3C2B, 0x0000_60C0, 0x053A_37CD, 0x7445_8547,
               0xDA94_15ED, 0x2638_0A16, 0x6263_83A1, 0x4EBF_54DE,
               0x3835_B44B, 0x0000_F600, 0x1E84_C7A3, 0x98E0_4D98))
  const At48: Run :=
    Run(Registers(0xBEAD_02CA, 0xA01B_846C, 0x8714_787C, 0x503C_A382, 0xFB86_C6AB),
        Window(0xDA94_15ED, 0x2638_0A16, 0x6263_83A1, 0x4EBF_54DE,
               0x3835_B44B, 0x0000_F600, 0x1E84_C7A3, 0x98E0_4D98,
               0x651D_16A0, 0x6265_8CA1, 0x4585_44D6, 0x4458_4CB7,
               0x7BA0_6619, 0x6380_AEA2, 0x0AE5_5269, 0x627B_49A1))
  const At56: Run :=
    Run(Registers(0x5E64_56AF, 0x7B71_F76D, 0x09FA_7C76, 0x7924_10DB, 0x8E11_EB59),
        Window(0x651D_16A0, 0x6265_8CA1, 0x4585_44D6, 0x4458_4CB7,
               0x7BA0_6619, 0x6380_AEA2, 0x0AE5_5269, 0x627B_49A1,
               0x7CD4_5C9D, 0x000F_0000, 0xFB50_753A, 0xEC67_65E8,
               0xBA3C_2BE2, 0x0060_C000, 0x3A37_CD05, 0x4585_46F4))
  const At64: Run :=
    Run(Registers(0x6B61_C9E1, 0xB66C_020B, 0x9523_272C, 0xF5D5_B051, 0x8FD4_B796),
        Window(0x7CD4_5C9D, 0x000F_0000, 0xFB50_753A, 0xEC67_65E8,
               0xBA3C_2BE2, 0x0060_C000, 0x3A37_CD05, 0x4585_46F4,
               0xB859_9DD6, 0x380A_1A26, 0x01E0_2203, 0xE7CC_3456,
               0xE6E6_0B69, 0x00F6_0A00, 0x5795_EF4F, 0x822E_0879))
  const At72: Run :=
    Run(Registers(0x3985_9DE7, 0xC199_F8C7, 0x8FC9_6230, 0x125C_24F0, 0xDE37_534A),
        Window(0xB859_9DD6, 0x380A_1A26, 0x01E0_2203, 0xE7CC_3456,
               0xE6E6_0B69, 0x00F6_0A00, 0x5795_EF4F, 0x822E_0879,
               0x7E57_7CE2, 0x07EF_2103, 0x8544_E945, 0xEB39_DAB8,
               0xC205_991A, 0x80AE_CB63, 0x7D84_CA48, 0x7B49_9B62))
  const At80: Run :=
    Run(Registers(0x4254_1B35, 0x5738_D5E1, 0x2183_4873, 0x681E_6DF6, 0xD8FD_F6AD),
        Window(0x7E57_7CE2, 0x07EF_2103, 0x8544_E945, 0xEB39_DAB8,
               0xC205_991A, 0x80AE_CB63, 0x7D84_CA48, 0x7B49_9B62,
               0x8E80_10A8, 0x4B5B_8A77, 0x3216_B69A, 0x0507_E88D,
               0x705B_EE96, 0x60C0_FF00, 0xA283_62D0, 0x1DA6_B91D))
  const At4: Run :=
    Run(Registers(0xCDD8_E11B, 0xA139_0F08, 0x6264_14DB, 0xC045_BF0C, 0x59D1_48C0),
        Window(0x0000_0000, 0x0000_0000, 0x0000_0000, 0x0000_0000,
               0x0000_0000, 0x0000_0000, 0x0000_0000, 0x0000_0000,
               0x0000_0000, 0x0000_0000, 0x0000_0000, 0x0000_0018,
               0xC2C4_C700, 0x0000_0000, 0x0000_0030, 0x8589_8E01))

  lemma {:induction false} To4()
    ensures Turn(3, Turn(2, Turn(1, Turn(0, At0)))) == At4
  {
  }

  lemma {:induction false} To8()
    ensures EightTurns(0, At0) == At8
  {
    hide At0;
    To4();
  }

  lemma {:induction false} To16()
    ensures EightTurns(8, At8) == At16
  {
  }

  lemma {:induction false} To24()
    ensures EightTurns(16, At16) == At24
  {
  }

  lemma {:induction false} To32()
    ensures EightTurns(24, At24) == At32
  {
  }

  lemma {:induction false} To40()
    ensures EightTurns(32, At32) == At40
  {
  }

  lemma {:induction false} To48()
    ensures EightTurns(40, At40) == At48
  {
  }

  lemma {:induction false} To56()
    ensures EightTurns(48, At48) == At56
  {
  }

  lemma {:induction false} To64()
    ensures EightTurns(56, At56) == At64
  {
  }

  lemma {:induction false} To72()
    ensures EightTurns(64, At64) == At72
  {
  }

  lemma {:induction false} To80()
    ensures EightTurns(72, At72) == At80
  {
  }

  lemma {:induction false} AbcEnds()
    ensures Reached(Abc(), 80, At80)
  {
    hide *;
    AbcStarts();
    To8();
    EightReach(Abc(), 0, At0, At8);
    To16();
    EightReach(Abc(), 8, At8, At16);
    To24();
    EightReach(Abc(), 16, At16, At24);
    To32();
    EightReach(Abc(), 24, At24, At32);
    To40();
    EightReach(Abc(), 32, At32, At40);
    To48();
    EightReach(Abc(), 40, At40, At48);
    To56();
    EightReach(Abc(), 48, At48, At56);
    To64();
    EightReach(Abc(), 56, At56, At64);
    To72();
    EightReach(Abc(), 64, At64, At72);
    To80();
    EightReach(Abc(), 72, At72, At80);
  }

  lemma {:induction false} AbcRegisters()
    ensures Process(INITIAL, Abc()) == Registers(0xA999_3E36, 0x4706_816A, 0xBA3E_2571, 0x7850_C26C, 0x9CD0_D89D)
  {
    hide Rounds, Schedule, Sum, Abc, Process, WordsFrom;
    AbcEnds();
    AbcSum();
    ProcessBlock(INITIAL, Abc());
  }

  lemma {:induction false} AbcSum()
    ensures Sum(INITIAL, At80.r) == Registers(0xA999_3E36, 0x4706_816A, 0xBA3E_2571, 0x7850_C26C, 0x9CD0_D89D)
  {
  }

  lemma {:induction false} AbcOctets()
    ensures BigEndian32(0xA999_3E36) == [ByteOf(0xA9), ByteOf(0x99), ByteOf(0x3E), ByteOf(0x36)]
    ensures BigEndian32(0x4706_816A) == [ByteOf(0x47), ByteOf(0x06), ByteOf(0x81), ByteOf(0x6A)]
    ensures BigEndian32(0xBA3E_2571) == [ByteOf(0xBA), ByteOf(0x3E), ByteOf(0x25), ByteOf(0x71)]
    ensures BigEndian32(0x7850_C26C) == [ByteOf(0x78), ByteOf(0x50), ByteOf(0xC2), ByteOf(0x6C)]
    ensures BigEndian32(0x9CD0_D89D) == [ByteOf(0x9C), ByteOf(0xD0), ByteOf(0xD8), ByteOf(0x9D)]
  {
  }

  /** The digest that the test program expects. */
  lemma {:induction false} DigestOfAbc()
    ensures Sha1Spec.Digest("abc") ==
            [ByteOf(0xA9), ByteOf(0x99), ByteOf(0x3E), ByteOf(0x36), ByteOf(0x47),
             ByteOf(0x06), ByteOf(0x81), ByteOf(0x6A), ByteOf(0xBA), ByteOf(0x3E),
             ByteOf(0x25), ByteOf(0x71), ByteOf(0x78), ByteOf(0x50), ByteOf(0xC2),
             ByteOf(0x6C), ByteOf(0x9C), ByteOf(0xD0), ByteOf(0xD8), ByteOf(0x9D)]
  {
    hide Process, BigEndian32, Abc, Padded;
    AbcPadded();
    AbcRegisters();
    AbcOctets();
  }
}
