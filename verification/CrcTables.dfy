/** The two lookup tables of the fast CRC, in rows of sixteen entries, checked entry by entry against
    eight steps of the division, and the loop that uses them. */
module CrcTables {
  import opened Bytes
  import opened Crc

  const HI_0: seq<bv8> :=
    [0x00, 0xC1, 0x81, 0x40, 0x01, 0xC0, 0x80, 0x41, 0x01, 0xC0, 0x80, 0x41, 0x00, 0xC1, 0x81, 0x40]
  const HI_1: seq<bv8> :=
    [0x01, 0xC0, 0x80, 0x41, 0x00, 0xC1, 0x81, 0x40, 0x00, 0xC1, 0x81, 0x40, 0x01, 0xC0, 0x80, 0x41]
  const HI_2: seq<bv8> :=
    [0x01, 0xC0, 0x80, 0x41, 0x00, 0xC1, 0x81, 0x40, 0x00, 0xC1, 0x81, 0x40, 0x01, 0xC0, 0x80, 0x41]
  const HI_3: seq<bv8> :=
    [0x00, 0xC1, 0x81, 0x40, 0x01, 0xC0, 0x80, 0x41, 0x01, 0xC0, 0x80, 0x41, 0x00, 0xC1, 0x81, 0x40]
  const HI_4: seq<bv8> :=
    [0x01, 0xC0, 0x80, 0x41, 0x00, 0xC1, 0x81, 0x40, 0x00, 0xC1, 0x81, 0x40, 0x01, 0xC0, 0x80, 0x41]
  const HI_5: seq<bv8> :=
    [0x00, 0xC1, 0x81, 0x40, 0x01, 0xC0, 0x80, 0x41, 0x01, 0xC0, 0x80, 0x41, 0x00, 0xC1, 0x81, 0x40]
  const HI_6: seq<bv8> :=
    [0x00, 0xC1, 0x81, 0x40, 0x01, 0xC0, 0x80, 0x41, 0x01, 0xC0, 0x80, 0x41, 0x00, 0xC1, 0x81, 0x40]
  const HI_7: seq<bv8> :=
    [0x01, 0xC0, 0x80, 0x41, 0x00, 0xC1, 0x81, 0x40, 0x00, 0xC1, 0x81, 0x40, 0x01, 0xC0, 0x80, 0x41]
  const HI_8: seq<bv8> :=
    [0x01, 0xC0, 0x80, 0x41, 0x00, 0xC1, 0x81, 0x40, 0x00, 0xC1, 0x81, 0x40, 0x01, 0xC0, 0x80, 0x41]
  const HI_9: seq<bv8> :=
    [0x00, 0xC1, 0x81, 0x40, 0x01, 0xC0, 0x80, 0x41, 0x01, 0xC0, 0x80, 0x41, 0x00, 0xC1, 0x81, 0x40]
  const HI_A: seq<bv8> :=
    [0x00, 0xC1, 0x81, 0x40, 0x01, 0xC0, 0x80, 0x41, 0x01, 0xC0, 0x80, 0x41, 0x00, 0xC1, 0x81, 0x40]
  const HI_B: seq<bv8> :=
    [0x01, 0xC0, 0x80, 0x41, 0x00, 0xC1, 0x81, 0x40, 0x00, 0xC1, 0x81, 0x40, 0x01, 0xC0, 0x80, 0x41]
  const HI_C: seq<bv8> :=
    [0x00, 0xC1, 0x81, 0x40, 0x01, 0xC0, 0x80, 0x41, 0x01, 0xC0, 0x80, 0x41, 0x00, 0xC1, 0x81, 0x40]
  const HI_D: seq<bv8> :=
    [0x01, 0xC0, 0x80, 0x41, 0x00, 0xC1, 0x81, 0x40, 0x00, 0xC1, 0x81, 0x40, 0x01, 0xC0, 0x80, 0x41]
  const HI_E: seq<bv8> :=
    [0x01, 0xC0, 0x80, 0x41, 0x00, 0xC1, 0x81, 0x40, 0x00, 0xC1, 0x81, 0x40, 0x01, 0xC0, 0x80, 0x41]
  const HI_F: seq<bv8> :=
    [0x00, 0xC1, 0x81, 0x40, 0x01, 0xC0, 0x80, 0x41, 0x01, 0xC0, 0x80, 0x41, 0x00, 0xC1, 0x81, 0x40]

  const LO_0: seq<bv8> :=
    [0x00, 0xC0, 0xC1, 0x01, 0xC3, 0x03, 0x02, 0xC2, 0xC6, 0x06, 0x07, 0xC7, 0x05, 0xC5, 0xC4, 0x04]
  const LO_1: seq<bv8> :=
    [0xCC, 0x0C, 0x0D, 0xCD, 0x0F, 0xCF, 0xCE, 0x0E, 0x0A, 0xCA, 0xCB, 0x0B, 0xC9, 0x09, 0x08, 0xC8]
  const LO_2: seq<bv8> :=
    [0xD8, 0x18, 0x19, 0xD9, 0x1B, 0xDB, 0xDA, 0x1A, 0x1E, 0xDE, 0xDF, 0x1F, 0xDD, 0x1D, 0x1C, 0xDC]
  const LO_3: seq<bv8> :=
    [0x14, 0xD4, 0xD5, 0x15, 0xD7, 0x17, 0x16, 0xD6, 0xD2, 0x12, 0x13, 0xD3, 0x11, 0xD1, 0xD0, 0x10]
  const LO_4: seq<bv8> :=
    [0xF0, 0x30, 0x31, 0xF1, 0x33, 0xF3, 0xF2, 0x32, 0x36, 0xF6, 0xF7, 0x37, 0xF5, 0x35, 0x34, 0xF4]
  const LO_5: seq<bv8> :=
    [0x3C, 0xFC, 0xFD, 0x3D, 0xFF, 0x3F, 0x3E, 0xFE, 0xFA, 0x3A, 0x3B, 0xFB, 0x39, 0xF9, 0xF8, 0x38]
  const LO_6: seq<bv8> :=
    [0x28, 0xE8, 0xE9, 0x29, 0xEB, 0x2B, 0x2A, 0xEA, 0xEE, 0x2E, 0x2F, 0xEF, 0x2D, 0xED, 0xEC, 0x2C]
  const LO_7: seq<bv8> :=
    [0xE4, 0x24, 0x25, 0xE5, 0x27, 0xE7, 0xE6, 0x26, 0x22, 0xE2, 0xE3, 0x23, 0xE1, 0x21, 0x20, 0xE0]
  const LO_8: seq<bv8> :=
    [0xA0, 0x60, 0x61, 0xA1, 0x63, 0xA3, 0xA2, 0x62, 0x66, 0xA6, 0xA7, 0x67, 0xA5, 0x65, 0x64, 0xA4]
  const LO_9: seq<bv8> :=
    [0x6C, 0xAC, 0xAD, 0x6D, 0xAF, 0x6F, 0x6E, 0xAE, 0xAA, 0x6A, 0x6B, 0xAB, 0x69, 0xA9, 0xA8, 0x68]
  const LO_A: seq<bv8> :=
    [0x78, 0xB8, 0xB9, 0x79, 0xBB, 0x7B, 0x7A, 0xBA, 0xBE, 0x7E, 0x7F, 0xBF, 0x7D, 0xBD, 0xBC, 0x7C]
  const LO_B: seq<bv8> :=
    [0xB4, 0x74, 0x75, 0xB5, 0x77, 0xB7, 0xB6, 0x76, 0x72, 0xB2, 0xB3, 0x73, 0xB1, 0x71, 0x70, 0xB0]
  const LO_C: seq<bv8> :=
    [0x50, 0x90, 0x91, 0x51, 0x93, 0x53, 0x52, 0x92, 0x96, 0x56, 0x57, 0x97, 0x55, 0x95, 0x94, 0x54]
  const LO_D: seq<bv8> :=
    [0x9C, 0x5C, 0x5D, 0x9D, 0x5F, 0x9F, 0x9E, 0x5E, 0x5A, 0x9A, 0x9B, 0x5B, 0x99, 0x59, 0x58, 0x98]
  const LO_E: seq<bv8> :=
    [0x88, 0x48, 0x49, 0x89, 0x4B, 0x8B, 0x8A, 0x4A, 0x4E, 0x8E, 0x8F, 0x4F, 0x8D, 0x4D, 0x4C, 0x8C]
  const LO_F: seq<bv8> :=
    [0x44, 0x84, 0x85, 0x45, 0x87, 0x47, 0x46, 0x86, 0x82, 0x42, 0x43, 0x83, 0x41, 0x81, 0x80, 0x40]

  const TABLE_CRC_HI: seq<seq<bv8>> :=
    [ HI_0, HI_1, HI_2, HI_3, HI_4, HI_5, HI_6, HI_7,
      HI_8, HI_9, HI_A, HI_B, HI_C, HI_D, HI_E, HI_F ]

  const TABLE_CRC_LO: seq<seq<bv8>> :=
    [ LO_0, LO_1, LO_2, LO_3, LO_4, LO_5, LO_6, LO_7,
      LO_8, LO_9, LO_A, LO_B, LO_C, LO_D, LO_E, LO_F ]

  function Step8(c: bv16): bv16 { Step(Step(Step(Step(Step(Step(Step(Step(c)))))))) }

  /** The table entries for one index hold the register after eight steps. */
  predicate Entry(index: bv16, high: bv8, low: bv8)
  {
    Step8(index) == (low as bv16 << 8) | high as bv16
  }

  lemma Row0(k: bv8)
    requires k < 16
    ensures |HI_0| == |LO_0| == 16 && Entry(0x00 | (k as bv16), HI_0[k as int], LO_0[k as int])
  {
    if k == 0 {} else if k == 1 {} else if k == 2 {} else if k == 3 {} else if k == 4 {} else if k == 5 {}
    else if k == 6 {} else if k == 7 {} else if k == 8 {} else if k == 9 {} else if k == 10 {}
    else if k == 11 {} else if k == 12 {} else if k == 13 {} else if k == 14 {} else if k == 15 {}
  }

  lemma Row1(k: bv8)
    requires k < 16
    ensures |HI_1| == |LO_1| == 16 && Entry(0x10 | (k as bv16), HI_1[k as int], LO_1[k as int])
  {
    if k == 0 {} else if k == 1 {} else if k == 2 {} else if k == 3 {} else if k == 4 {} else if k == 5 {}
    else if k == 6 {} else if k == 7 {} else if k == 8 {} else if k == 9 {} else if k == 10 {}
    else if k == 11 {} else if k == 12 {} else if k == 13 {} else if k == 14 {} else if k == 15 {}
  }

  lemma Row2(k: bv8)
    requires k < 16
    ensures |HI_2| == |LO_2| == 16 && Entry(0x20 | (k as bv16), HI_2[k as int], LO_2[k as int])
  {
    if k == 0 {} else if k == 1 {} else if k == 2 {} else if k == 3 {} else if k == 4 {} else if k == 5 {}
    else if k == 6 {} else if k == 7 {} else if k == 8 {} else if k == 9 {} else if k == 10 {}
    else if k == 11 {} else if k == 12 {} else if k == 13 {} else if k == 14 {} else if k == 15 {}
  }

  lemma Row3(k: bv8)
    requires k < 16
    ensures |HI_3| == |LO_3| == 16 && Entry(0x30 | (k as bv16), HI_3[k as int], LO_3[k as int])
  {
    if k == 0 {} else if k == 1 {} else if k == 2 {} else if k == 3 {} else if k == 4 {} else if k == 5 {}
    else if k == 6 {} else if k == 7 {} else if k == 8 {} else if k == 9 {} else if k == 10 {}
    else if k == 11 {} else if k == 12 {} else if k == 13 {} else if k == 14 {} else if k == 15 {}
  }

  lemma Row4(k: bv8)
    requires k < 16
    ensures |HI_4| == |LO_4| == 16 && Entry(0x40 | (k as bv16), HI_4[k as int], LO_4[k as int])
  {
    if k == 0 {} else if k == 1 {} else if k == 2 {} else if k == 3 {} else if k == 4 {} else if k == 5 {}
    else if k == 6 {} else if k == 7 {} else if k == 8 {} else if k == 9 {} else if k == 10 {}
    else if k == 11 {} else if k == 12 {} else if k == 13 {} else if k == 14 {} else if k == 15 {}
  }

  lemma Row5(k: bv8)
    requires k < 16
    ensures |HI_5| == |LO_5| == 16 && Entry(0x50 | (k as bv16), HI_5[k as int], LO_5[k as int])
  {
    if k == 0 {} else if k == 1 {} else if k == 2 {} else if k == 3 {} else if k == 4 {} else if k == 5 {}
    else if k == 6 {} else if k == 7 {} else if k == 8 {} else if k == 9 {} else if k == 10 {}
    else if k == 11 {} else if k == 12 {} else if k == 13 {} else if k == 14 {} else if k == 15 {}
  }

  lemma Row6(k: bv8)
    requires k < 16
    ensures |HI_6| == |LO_6| == 16 && Entry(0x60 | (k as bv16), HI_6[k as int], LO_6[k as int])
  {
    if k == 0 {} else if k == 1 {} else if k == 2 {} else if k == 3 {} else if k == 4 {} else if k == 5 {}
    else if k == 6 {} else if k == 7 {} else if k == 8 {} else if k == 9 {} else if k == 10 {}
    else if k == 11 {} else if k == 12 {} else if k == 13 {} else if k == 14 {} else if k == 15 {}
  }

  lemma Row7(k: bv8)
    requires k < 16
    ensures |HI_7| == |LO_7| == 16 && Entry(0x70 | (k as bv16), HI_7[k as int], LO_7[k as int])
  {
    if k == 0 {} else if k == 1 {} else if k == 2 {} else if k == 3 {} else if k == 4 {} else if k == 5 {}
    else if k == 6 {} else if k == 7 {} else if k == 8 {} else if k == 9 {} else if k == 10 {}
    else if k == 11 {} else if k == 12 {} else if k == 13 {} else if k == 14 {} else if k == 15 {}
  }

  lemma Row8(k: bv8)
    requires k < 16
    ensures |HI_8| == |LO_8| == 16 && Entry(0x80 | (k as bv16), HI_8[k as int], LO_8[k as int])
  {
    if k == 0 {} else if k == 1 {} else if k == 2 {} else if k == 3 {} else if k == 4 {} else if k == 5 {}
    else if k == 6 {} else if k == 7 {} else if k == 8 {} else if k == 9 {} else if k == 10 {}
    else if k == 11 {} else if k == 12 {} else if k == 13 {} else if k == 14 {} else if k == 15 {}
  }

  lemma Row9(k: bv8)
    requires k < 16
    ensures |HI_9| == |LO_9| == 16 && Entry(0x90 | (k as bv16), HI_9[k as int], LO_9[k as int])
  {
    if k == 0 {} else if k == 1 {} else if k == 2 {} else if k == 3 {} else if k == 4 {} else if k == 5 {}
    else if k == 6 {} else if k == 7 {} else if k == 8 {} else if k == 9 {} else if k == 10 {}
    else if k == 11 {} else if k == 12 {} else if k == 13 {} else if k == 14 {} else if k == 15 {}
  }

  lemma RowA(k: bv8)
    requires k < 16
    ensures |HI_A| == |LO_A| == 16 && Entry(0xA0 | (k as bv16), HI_A[k as int], LO_A[k as int])
  {
    if k == 0 {} else if k == 1 {} else if k == 2 {} else if k == 3 {} else if k == 4 {} else if k == 5 {}
    else if k == 6 {} else if k == 7 {} else if k == 8 {} else if k == 9 {} else if k == 10 {}
    else if k == 11 {} else if k == 12 {} else if k == 13 {} else if k == 14 {} else if k == 15 {}
  }

  lemma RowB(k: bv8)
    requires k < 16
    ensures |HI_B| == |LO_B| == 16 && Entry(0xB0 | (k as bv16), HI_B[k as int], LO_B[k as int])
  {
    if k == 0 {} else if k == 1 {} else if k == 2 {} else if k == 3 {} else if k == 4 {} else if k == 5 {}
    else if k == 6 {} else if k == 7 {} else if k == 8 {} else if k == 9 {} else if k == 10 {}
    else if k == 11 {} else if k == 12 {} else if k == 13 {} else if k == 14 {} else if k == 15 {}
  }

  lemma RowC(k: bv8)
    requires k < 16
    ensures |HI_C| == |LO_C| == 16 && Entry(0xC0 | (k as bv16), HI_C[k as int], LO_C[k as int])
  {
    if k == 0 {} else if k == 1 {} else if k == 2 {} else if k == 3 {} else if k == 4 {} else if k == 5 {}
    else if k == 6 {} else if k == 7 {} else if k == 8 {} else if k == 9 {} else if k == 10 {}
    else if k == 11 {} else if k == 12 {} else if k == 13 {} else if k == 14 {} else if k == 15 {}
  }

  lemma RowD(k: bv8)
    requires k < 16
    ensures |HI_D| == |LO_D| == 16 && Entry(0xD0 | (k as bv16), HI_D[k as int], LO_D[k as int])
  {
    if k == 0 {} else if k == 1 {} else if k == 2 {} else if k == 3 {} else if k == 4 {} else if k == 5 {}
    else if k == 6 {} else if k == 7 {} else if k == 8 {} else if k == 9 {} else if k == 10 {}
    else if k == 11 {} else if k == 12 {} else if k == 13 {} else if k == 14 {} else if k == 15 {}
  }

  lemma RowE(k: bv8)
    requires k < 16
    ensures |HI_E| == |LO_E| == 16 && Entry(0xE0 | (k as bv16), HI_E[k as int], LO_E[k as int])
  {
    if k == 0 {} else if k == 1 {} else if k == 2 {} else if k == 3 {} else if k == 4 {} else if k == 5 {}
    else if k == 6 {} else if k == 7 {} else if k == 8 {} else if k == 9 {} else if k == 10 {}
    else if k == 11 {} else if k == 12 {} else if k == 13 {} else if k == 14 {} else if k == 15 {}
  }

  lemma RowF(k: bv8)
    requires k < 16
    ensures |HI_F| == |LO_F| == 16 && Entry(0xF0 | (k as bv16), HI_F[k as int], LO_F[k as int])
  {
    if k == 0 {} else if k == 1 {} else if k == 2 {} else if k == 3 {} else if k == 4 {} else if k == 5 {}
    else if k == 6 {} else if k == 7 {} else if k == 8 {} else if k == 9 {} else if k == 10 {}
    else if k == 11 {} else if k == 12 {} else if k == 13 {} else if k == 14 {} else if k == 15 {}
  }

  lemma EightSteps(c: bv16)
    ensures Steps(c, 8) == Step8(c)
  {
    var c1 := Step(c);
    var c2 := Step(c1);
    var c3 := Step(c2);
    var c4 := Step(c3);
    var c5 := Step(c4);
    var c6 := Step(c5);
    var c7 := Step(c6);
    assert Steps(c7, 1) == Step(c7);
    assert Steps(c5, 3) == Steps(c7, 1);
    assert Steps(c3, 5) == Steps(c5, 3);
    assert Steps(c1, 7) == Steps(c3, 5);
  }

  /** Eight steps act on the low byte alone; the high byte moves down. */
  lemma Step8Split(c: bv16)
    ensures Step8(c) == (c >> 8) ^ Step8(c & 0xFF)
  {
  }

  function HighEntry(index: bv8): bv8
  {
    Sizes();
    TABLE_CRC_HI[(index >> 4) as int][(index & 0xF) as int]
  }

  function LowEntry(index: bv8): bv8
  {
    Sizes();
    TABLE_CRC_LO[(index >> 4) as int][(index & 0xF) as int]
  }

  lemma Sizes()
    ensures |TABLE_CRC_HI| == |TABLE_CRC_LO| == 16
    ensures forall r :: 0 <= r < 16 ==> |TABLE_CRC_HI[r]| == |TABLE_CRC_LO[r]| == 16
  {
  }

  lemma RowsLow(r: bv8, k: bv8)
    requires r < 8 && k < 16
    ensures Entry((r as bv16 << 4) | (k as bv16), HighEntry((r << 4) | k), LowEntry((r << 4) | k))
  {
    assert ((r << 4) | k) >> 4 == r && ((r << 4) | k) & 0xF == k;
    if r == 0 {
      Row0(k);
    } else if r == 1 {
      Row1(k);
    } else if r == 2 {
      Row2(k);
    } else if r == 3 {
      Row3(k);
    } else if r == 4 {
      Row4(k);
    } else if r == 5 {
      Row5(k);
    } else if r == 6 {
      Row6(k);
    } else if r == 7 {
      Row7(k);
    }
  }

  lemma RowsHigh(r: bv8, k: bv8)
    requires 8 <= r < 16 && k < 16
    ensures Entry((r as bv16 << 4) | (k as bv16), HighEntry((r << 4) | k), LowEntry((r << 4) | k))
  {
    assert ((r << 4) | k) >> 4 == r && ((r << 4) | k) & 0xF == k;
    if r == 8 {
      Row8(k);
    } else if r == 9 {
      Row9(k);
    } else if r == 10 {
      RowA(k);
    } else if r == 11 {
      RowB(k);
    } else if r == 12 {
      RowC(k);
    } else if r == 13 {
      RowD(k);
    } else if r == 14 {
      RowE(k);
    } else if r == 15 {
      RowF(k);
    }
  }

  /** Every entry of the two tables is right. */
  lemma TablesHoldSteps(index: bv8)
    ensures Steps(index as bv16, 8) == (LowEntry(index) as bv16 << 8) | HighEntry(index) as bv16
  {
    var r, k := index >> 4, index & 0xF;
    assert (r << 4) | k == index && (r as bv16 << 4) | (k as bv16) == index as bv16;
    if r < 8 {
      RowsLow(r, k);
    } else {
      RowsHigh(r, k);
    }
    EightSteps(index as bv16);
  }

  function Joined(high: bv8, low: bv8): bv16 { (high as bv16 << 8) | low as bv16 }

  /** One turn of the loop of `crc16`, on the register as one word: `e` and `f` are the table entries. */
  lemma TableStep(high: bv8, low: bv8, b: bv8, e: bv8, f: bv8)
    requires Steps((low ^ b) as bv16, 8) == Joined(f, e)
    ensures Steps(Joined(high, low) ^ (b as bv16), 8) == Joined(f, high ^ e)
  {
    var c := Joined(high, low) ^ (b as bv16);
    IndexOf(high, low, b);
    EightSteps(c);
    Step8Split(c);
    EightSteps((low ^ b) as bv16);
    JoinHigh(f, e, high);
  }

  lemma IndexOf(high: bv8, low: bv8, b: bv8)
    ensures var c := Joined(high, low) ^ (b as bv16); c & 0xFF == (low ^ b) as bv16 && c >> 8 == high as bv16
  {
  }

  lemma JoinHigh(a: bv8, b: bv8, high: bv8)
    ensures (high as bv16) ^ ((a as bv16 << 8) | b as bv16) == Joined(a, high ^ b)
  {
  }

  lemma CrcFromCons(c: bv16, s: seq<byte>)
    requires s != []
    ensures CrcFrom(c, s) == CrcFrom(Steps(c ^ Octets(s)[0], 8), s[1..])
  {
    assert Octets(s)[1..] == Octets(s[1..]);
  }

  lemma OctetOf(s: seq<byte>)
    requires s != []
    ensures Octets(s)[0] == (s[0] as bv8) as bv16
  {
  }

  lemma LoopTurn(c: bv16, c': bv16, s: seq<byte>, octet: bv16)
    requires s != [] && Octets(s)[0] == octet && Steps(c ^ octet, 8) == c'
    ensures CrcFrom(c, s) == CrcFrom(c', s[1..])
  {
    CrcFromCons(c, s);
  }

  lemma TableTurn(high: bv8, low: bv8, s: seq<byte>, octet: bv8, e: bv8, f: bv8)
    requires s != [] && Octets(s)[0] == octet as bv16
    requires Steps((low ^ octet) as bv16, 8) == Joined(f, e)
    ensures CrcFrom(Joined(high, low), s) == CrcFrom(Joined(f, high ^ e), s[1..])
  {
    TableStep(high, low, octet, e, f);
    LoopTurn(Joined(high, low), Joined(f, high ^ e), s, octet as bv16);
  }

  /** The entries of both tables at `index`, low one first: eight steps of the division at once. */
  method LookUp(index: bv8) returns (high: bv8, low: bv8)
    ensures Steps(index as bv16, 8) == Joined(low, high)
  {
    high, low := HighEntry(index), LowEntry(index);
    TablesHoldSteps(index);
  }

  /** `crc16`: one look-up in each table for every byte. */
  method ComputeCrc16(buffer: array<byte>, length: nat) returns (crc: bv16)
    requires length <= buffer.Length
    ensures crc == Crc16(buffer[..length])
    ensures crc == Divide(0xFFFF, FrameBits(buffer[..length]))
  {
    var crcHigh: bv8, crcLow: bv8 := 0xFF, 0xFF;
    var n := 0;
    while n < length
      invariant n <= length
      invariant CrcFrom(Joined(crcHigh, crcLow), buffer[n..length]) == Crc16(buffer[..length])
    {
      ghost var rest := buffer[n..length];
      var octet := buffer[n] as bv8;
      var high, low := LookUp(crcLow ^ octet);
      OctetOf(rest);
      TableTurn(crcHigh, crcLow, rest, octet, high, low);
      assert rest[1..] == buffer[n + 1..length];
      crcLow := crcHigh ^ high;
      crcHigh := low;
      n := n + 1;
    }
    crc := Joined(crcHigh, crcLow);
    CrcIsDivision(0xFFFF, buffer[..length]);
  }

  // ---- A known frame ---------------------------------------------------------------------

  /** The register before and after one octet. */
  lemma OctetIn(c: bv16, octet: bv16, c': bv16, rest: seq<bv16>)
    requires Step8(c ^ octet) == c'
    ensures Register(c, [octet] + rest, 8) == Register(c', rest, 8)
  {
    EightSteps(c ^ octet);
    RegisterFirst(c, octet, rest, 8);
  }

  lemma RegisterFirst(c: bv16, octet: bv16, rest: seq<bv16>, n: nat)
    ensures Register(c, [octet] + rest, n) == Register(Steps(c ^ octet, n), rest, n)
  {
    assert ([octet] + rest)[1..] == rest;
  }

  lemma KnownSteps()
    ensures Step8(0xFFFF ^ 0x01) == 0x807E && Step8(0x807E ^ 0x03) == 0x2140 && Step8(0x2140 ^ 0x00) == 0xF020
    ensures Step8(0xF020 ^ 0x00) == 0xD8F1 && Step8(0xD8F1 ^ 0x00) == 0x8419 && Step8(0x8419 ^ 0x01) == 0x0A84
  {
  }

  lemma KnownRegister()
    ensures Register(0xFFFF, [0x01, 0x03, 0x00, 0x00, 0x00, 0x01], 8) == 0x0A84
  {
    KnownSteps();
    OctetIn(0xFFFF, 0x01, 0x807E, [0x03, 0x00, 0x00, 0x00, 0x01]);
    OctetIn(0x807E, 0x03, 0x2140, [0x00, 0x00, 0x00, 0x01]);
    OctetIn(0x2140, 0x00, 0xF020, [0x00, 0x00, 0x01]);
    OctetIn(0xF020, 0x00, 0xD8F1, [0x00, 0x01]);
    OctetIn(0xD8F1, 0x00, 0x8419, [0x01]);
    OctetIn(0x8419, 0x01, 0x0A84, []);
    assert [0x01 as bv16, 0x03, 0x00, 0x00, 0x00, 0x01] == [0x01] + [0x03, 0x00, 0x00, 0x00, 0x01];
    assert [0x03 as bv16, 0x00, 0x00, 0x00, 0x01] == [0x03] + [0x00, 0x00, 0x00, 0x01];
    assert [0x00 as bv16, 0x00, 0x00, 0x01] == [0x00] + [0x00, 0x00, 0x01];
    assert [0x00 as bv16, 0x00, 0x01] == [0x00] + [0x00, 0x01];
    assert [0x00 as bv16, 0x01] == [0x00] + [0x01];
    assert [0x01 as bv16] == [0x01] + [];
  }

  lemma KnownOctets()
    ensures Octets([0x01, 0x03, 0x00, 0x00, 0x00, 0x01]) == [0x01, 0x03, 0x00, 0x00, 0x00, 0x01]
  {
  }

  /** The request to unit 1 for the register at address 0 ends in 84 0A. */
  lemma KnownFrame()
    ensures CrcBytes([0x01, 0x03, 0x00, 0x00, 0x00, 0x01]) == [0x84, 0x0A]
  {
    KnownOctets();
    KnownRegister();
    assert Halves(0x0A84) == [0x84, 0x0A];
  }

  lemma OctetsOfTwo(a: byte, b: byte)
    ensures Octets([a, b]) == [a as bv16, b as bv16]
  {
  }

  method JoinCrc(low: byte, high: byte) returns (crc: bv16)
    ensures crc == Received(Octets([low, high]))
  {
    crc := (high as bv16 << 8) | (low as bv16);
    OctetsOfTwo(low, high);
  }

  /** The comparison in `_modbus_rtu_check_integrity`: the CRC of all but the last two bytes against those. */
  method CheckCrc(buffer: array<byte>, length: nat) returns (ok: bool)
    requires 2 <= length <= buffer.Length
    ensures ok == CrcValid(buffer[..length])
  {
    var calculated := ComputeCrc16(buffer, length - 2);
    var received := JoinCrc(buffer[length - 2], buffer[length - 1]);
    ghost var f := buffer[..length];
    assert f[..length - 2] == buffer[..length - 2] && f[length - 2..] == [buffer[length - 2], buffer[length - 1]];
    ok := calculated == received;
  }

  method SplitCrc(crc: bv16) returns (low: byte, high: byte)
    ensures [low, high] == Halves(crc)
  {
    low, high := (crc & 0xFF) as int, (crc >> 8) as int;
  }

  /** `_modbus_rtu_send_msg_pre`: the low byte of the CRC comes first. */
  method AppendCrc(buffer: array<byte>, length: nat) returns (total: nat)
    requires length + 2 <= buffer.Length
    modifies buffer
    ensures total == length + 2
    ensures buffer[..total] == old(buffer[..length]) + CrcBytes(old(buffer[..length]))
    ensures buffer[total..] == old(buffer[total..])
  {
    var crc := ComputeCrc16(buffer, length);
    var low, high := SplitCrc(crc);
    buffer[length], buffer[length + 1] := low, high;
    total := length + 2;
    assert buffer[..total] == old(buffer[..length]) + [low, high];
  }
}
