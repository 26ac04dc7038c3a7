/** The cipher once more, in the operators of the machine, and known answers. */
module XteaVectors {
  import opened Words
  import opened Xtea
  import opened Machine

  // ----- the decryption loop on bit vectors

  /** The new `w` of a half-round: from two shifts of `v`, `v`, and the two words added up for the key. */
  function HalfRound(left: bv32, right: bv32, v: bv32, w: bv32, sum: bv32, k: bv32): bv32 {
    w - (((left ^ right) + v) ^ (sum + k))
  }

  function Selected(k: seq<bv32>, s: bv32): bv32
    requires |k| == 4
  {
    if s & 3 == 0 then k[0] else if s & 3 == 1 then k[1] else if s & 3 == 2 then k[2] else k[3]
  }

  function NewHigh(v0: bv32, v1: bv32, k: seq<bv32>, sum: bv32): bv32
    requires |k| == 4
  {
    HalfRound(v0 << 4, v0 >> 5, v0, v1, sum, Selected(k, sum >> 11))
  }

  function NewLow(v0: bv32, v1: bv32, k: seq<bv32>, sum: bv32): bv32
    requires |k| == 4
  {
    HalfRound(v1 << 4, v1 >> 5, v1, v0, sum, Selected(k, sum))
  }

  function Cycles(v0: bv32, v1: bv32, k: seq<bv32>, sum: bv32, n: nat): (bv32, bv32)
    requires |k| == 4
    decreases n
  {
    if n == 0 then (v0, v1)
    else
      var w1 := NewHigh(v0, v1, k, sum);
      var less := sum - 0x9E37_79B9;
      Cycles(NewLow(v0, w1, k, less), w1, k, less, n - 1)
  }

  // ----- it is the loop on numbers

  lemma Mixed(left: bv32, right: bv32, v: bv32)
    ensures Plus(Other(left, right), v) == (left ^ right) + v
  {
    assert Other(left, right) == left ^ right by { hide Plus; }
    assert Plus(left ^ right, v) == (left ^ right) + v by { hide Other; }
    hide *;
  }

  lemma Added(sum: bv32, k: bv32)
    ensures Plus(sum, k) == sum + k
  {
  }

  lemma Scrambled(left: bv32, right: bv32, v: bv32, sum: bv32, k: bv32)
    ensures Other((left ^ right) + v, sum + k) == ((left ^ right) + v) ^ (sum + k)
  {
  }

  lemma Taken(left: bv32, right: bv32, v: bv32, w: bv32, sum: bv32, k: bv32)
    ensures Minus(w, ((left ^ right) + v) ^ (sum + k)) == HalfRound(left, right, v, w, sum, k)
  {
  }

  lemma HalfRoundIs(left: bv32, right: bv32, v: bv32, w: bv32, sum: bv32, k: bv32)
    ensures Minus(w, Other(Plus(Other(left, right), v), Plus(sum, k))) == HalfRound(left, right, v, w, sum, k)
  {
    hide *;
    Mixed(left, right, v);
    Added(sum, k);
    Scrambled(left, right, v, sum, k);
    Taken(left, right, v, w, sum, k);
  }

  lemma ShlBy4(b: bv32)
    ensures Doubles(b, 4) == b << 4
  {
  }

  lemma ShrBy5(b: bv32)
    ensures Halves(b, 5) == b >> 5
  {
  }

  lemma ShrBy11(b: bv32)
    ensures Halves(b, 11) == b >> 11
  {
  }

  lemma LowestBits(b: bv32)
    ensures b & 3 == if Odd(Half(b)) then if Odd(b) then 3 else 2 else if Odd(b) then 1 else 0
  {
  }
  lemma HalfRoundNumbers(v: bv32, w: bv32, sum: bv32, k: bv32)
    ensures Num(HalfRound(v << 4, v >> 5, v, w, sum, k))
            == Sub(Num(w), Scramble(Num(v), Add(Num(sum), Num(k))))
  {
    hide Num, Other, Plus, Minus, Doubles, Halves, HalfRound, Add, Sub, Xor, ShiftLeft, ShiftRight;
    ShlBy4(v);
    ShrBy5(v);
    var (left, right) := (Doubles(v, 4), Halves(v, 5));
    HalfRoundIs(left, right, v, w, sum, k);
    DoublesAre(v, 4);
    HalvesAre(v, 5);
    LeftBy4(Num(v));
    RightBy5(Num(v));
    XorIs(left, right);
    AddIs(Other(left, right), v);
    AddIs(sum, k);
    XorIs(Plus(Other(left, right), v), Plus(sum, k));
    SubIs(w, Other(Plus(Other(left, right), v), Plus(sum, k)));
  }

  function Numbers(k: seq<bv32>): Key
    requires |k| == 4
  {
    hide Num;
    [Num(k[0]), Num(k[1]), Num(k[2]), Num(k[3])]
  }

  lemma SelectedNumbers(k: seq<bv32>, s: bv32)
    requires |k| == 4
    ensures Num(Selected(k, s)) == Pick(Numbers(k), Num(s) % 4)
  {
    hide Num, Odd, Half;
    LowestBits(s);
    HalvedTwice(s);
  }

  lemma SumHigh(s: bv32)
    ensures Num(s >> 11) == Num(s) / 2048
  {
    hide Num, Halves, ShiftRight;
    ShrBy11(s);
    HalvesAre(s, 11);
    RightBy11(Num(s));
  }

  lemma NewHighNumbers(v0: bv32, v1: bv32, k: seq<bv32>, sum: bv32)
    requires |k| == 4
    ensures Num(NewHigh(v0, v1, k, sum)) == Sub(Num(v1), HighHalf(Num(v0), Numbers(k), Num(sum)))
  {
    hide Num, HalfRound, Scramble, Selected, Pick, Numbers, Add, Sub;
    SumHigh(sum);
    SelectedNumbers(k, sum >> 11);
    HalfRoundNumbers(v0, v1, sum, Selected(k, sum >> 11));
  }

  lemma NewLowNumbers(v0: bv32, v1: bv32, k: seq<bv32>, sum: bv32)
    requires |k| == 4
    ensures Num(NewLow(v0, v1, k, sum)) == Sub(Num(v0), LowHalf(Num(v1), Numbers(k), Num(sum)))
  {
    hide Num, HalfRound, Scramble, Selected, Pick, Numbers, Add, Sub;
    SelectedNumbers(k, sum);
    HalfRoundNumbers(v1, v0, sum, Selected(k, sum));
  }

  /** One cycle of the loop. */
  lemma CycleNumbers(v0: bv32, v1: bv32, k: seq<bv32>, sum: bv32, less: bv32)
    requires |k| == 4
    ensures var w1 := NewHigh(v0, v1, k, sum);
            Block(Num(NewLow(v0, w1, k, less)), Num(w1))
            == UndoCycle(Block(Num(v0), Num(v1)), Low(Numbers(k), Num(less)), High(Numbers(k), Num(sum)))
  {
    hide Num, NewHigh, NewLow, LowHalf, HighHalf, Numbers, Add, Sub;
    NewHighNumbers(v0, v1, k, sum);
    NewLowNumbers(v0, NewHigh(v0, v1, k, sum), k, less);
  }

  /** The loop on numbers is the loop of the machine. */
  lemma {:induction false} CyclesAre(v0: bv32, v1: bv32, k: seq<bv32>, sum: bv32, n: nat)
    requires |k| == 4 && Num(sum) == Sum(n)
    ensures var r := Cycles(v0, v1, k, sum, n);
            DecryptRounds(Block(Num(v0), Num(v1)), Numbers(k), n) == Block(Num(r.0), Num(r.1))
    decreases n
  {
    hide Num, NewHigh, NewLow, UndoCycle, Numbers;
    if n > 0 {
      var less := sum - 0x9E37_79B9;
      LessDelta(sum, n);
      CycleNumbers(v0, v1, k, sum, less);
      var w1 := NewHigh(v0, v1, k, sum);
      CyclesAre(NewLow(v0, w1, k, less), w1, k, less, n - 1);
    }
  }

  lemma LessDelta(sum: bv32, n: nat)
    requires n > 0 && Num(sum) == Sum(n)
    ensures Num(sum - 0x9E37_79B9) == Sum(n - 1)
  {
    hide Num, Minus, Add, Sub;
    SumStep(n - 1);
    AddSub(Sum(n - 1), DELTA);
    DeltaIs(sum);
    SubIs(sum, 0x9E37_79B9);
  }

  lemma DeltaIs(sum: bv32)
    ensures Num(0x9E37_79B9) == 0x9E37_79B9 && Minus(sum, 0x9E37_79B9) == sum - 0x9E37_79B9
  {
  }

  // ----- known answers

  lemma StartOfSum()
    ensures Num(0xC6EF_3720) == Sum(32)
  {
    SumOfAllRounds();
    hide Sum;
  }

  /** Some cycles at a time. */
  lemma Published1()
    ensures Cycles(0xDEE9_D4D8, 0xF713_1ED9, [0, 0, 0, 0], 0xC6EF_3720, 32)
            == Cycles(0x7DE8_0FCE, 0xB811_F430, [0, 0, 0, 0], 0x98C4_75E6, 22)
  {
  }

  lemma Published2()
    ensures Cycles(0x7DE8_0FCE, 0xB811_F430, [0, 0, 0, 0], 0x98C4_75E6, 22)
            == Cycles(0x3831_2D23, 0xF196_868B, [0, 0, 0, 0], 0x6A99_B4AC, 12)
  {
  }

  lemma Published3()
    ensures Cycles(0x3831_2D23, 0xF196_868B, [0, 0, 0, 0], 0x6A99_B4AC, 12)
            == Cycles(0x1B8A_E3AF, 0x8DCB_1CA7, [0, 0, 0, 0], 0x3C6E_F372, 2)
  {
  }

  lemma Published4()
    ensures Cycles(0x1B8A_E3AF, 0x8DCB_1CA7, [0, 0, 0, 0], 0x3C6E_F372, 2)
            == (0, 0)
  {
  }

  lemma First1()
    ensures Cycles(0xFD76_F656, 0xE657_F470, [0xA0EA_4013, 0x89AB_B509, 0xCEEC_401A, 0x2AFA_05D2], 0xC6EF_3720, 32)
            == Cycles(0x2BD1_A33D, 0x57C4_83A5, [0xA0EA_4013, 0x89AB_B509, 0xCEEC_401A, 0x2AFA_05D2], 0xD533_6958, 24)
  {
  }

  lemma First2()
    ensures Cycles(0x2BD1_A33D, 0x57C4_83A5, [0xA0EA_4013, 0x89AB_B509, 0xCEEC_401A, 0x2AFA_05D2], 0xD533_6958, 24)
            == Cycles(0xB873_AB44, 0xFCD0_A798, [0xA0EA_4013, 0x89AB_B509, 0xCEEC_401A, 0x2AFA_05D2], 0xE377_9B90, 16)
  {
  }

  lemma First3()
    ensures Cycles(0xB873_AB44, 0xFCD0_A798, [0xA0EA_4013, 0x89AB_B509, 0xCEEC_401A, 0x2AFA_05D2], 0xE377_9B90, 16)
            == Cycles(0xA5CE_A079, 0xA3C2_C7C9, [0xA0EA_4013, 0x89AB_B509, 0xCEEC_401A, 0x2AFA_05D2], 0xF1BB_CDC8, 8)
  {
  }

  lemma First4()
    ensures Cycles(0xA5CE_A079, 0xA3C2_C7C9, [0xA0EA_4013, 0x89AB_B509, 0xCEEC_401A, 0x2AFA_05D2], 0xF1BB_CDC8, 8)
            == (0x504D_4153, 0x4141_532E)
  {
  }

  lemma Second1()
    ensures Cycles(0xF32D_7CE1, 0xBFD0_0259, [0x5D9C_B645, 0x6FFC_4179, 0x339A_B64C, 0xCCAD_F1A2], 0xC6EF_3720, 32)
            == Cycles(0xF6E3_5D4B, 0xD7DD_8367, [0x5D9C_B645, 0x6FFC_4179, 0x339A_B64C, 0xCCAD_F1A2], 0xD533_6958, 24)
  {
  }

  lemma Second2()
    ensures Cycles(0xF6E3_5D4B, 0xD7DD_8367, [0x5D9C_B645, 0x6FFC_4179, 0x339A_B64C, 0xCCAD_F1A2], 0xD533_6958, 24)
            == Cycles(0x6BE1_6161, 0x61B9_E364, [0x5D9C_B645, 0x6FFC_4179, 0x339A_B64C, 0xCCAD_F1A2], 0xE377_9B90, 16)
  {
  }

  lemma Second3()
    ensures Cycles(0x6BE1_6161, 0x61B9_E364, [0x5D9C_B645, 0x6FFC_4179, 0x339A_B64C, 0xCCAD_F1A2], 0xE377_9B90, 16)
            == Cycles(0x5E53_4F52, 0xBF27_3C45, [0x5D9C_B645, 0x6FFC_4179, 0x339A_B64C, 0xCCAD_F1A2], 0xF1BB_CDC8, 8)
  {
  }

  lemma Second4()
    ensures Cycles(0x5E53_4F52, 0xBF27_3C45, [0x5D9C_B645, 0x6FFC_4179, 0x339A_B64C, 0xCCAD_F1A2], 0xF1BB_CDC8, 8)
            == (0x3330_202C, 0x3552_2D37)
  {
  }

  /** The published vector of the cipher: with a zero key, the cipher text of a zero block. */
  lemma PublishedBlock()
    ensures DecryptRounds(Block(0xDEE9_D4D8, 0xF713_1ED9), [0, 0, 0, 0], 32)
            == Block(0, 0)
  {
    hide DecryptRounds, Cycles, Sum;
    StartOfSum();
    CyclesAre(0xDEE9_D4D8, 0xF713_1ED9, [0, 0, 0, 0], 0xC6EF_3720, 32);
    Published1();
    Published2();
    Published3();
    Published4();
  }

  /** Two blocks under four different key words, the second with the key the first leaves. */
  lemma FirstBlock()
    ensures DecryptRounds(Block(0xFD76_F656, 0xE657_F470), [0xA0EA_4013, 0x89AB_B509, 0xCEEC_401A, 0x2AFA_05D2], 32)
            == Block(0x504D_4153, 0x4141_532E)
  {
    hide DecryptRounds, Cycles, Sum;
    StartOfSum();
    CyclesAre(0xFD76_F656, 0xE657_F470, [0xA0EA_4013, 0x89AB_B509, 0xCEEC_401A, 0x2AFA_05D2], 0xC6EF_3720, 32);
    First1();
    First2();
    First3();
    First4();
  }

  lemma SecondBlock()
    ensures DecryptRounds(Block(0xF32D_7CE1, 0xBFD0_0259), [0x5D9C_B645, 0x6FFC_4179, 0x339A_B64C, 0xCCAD_F1A2], 32)
            == Block(0x3330_202C, 0x3552_2D37)
  {
    hide DecryptRounds, Cycles, Sum;
    StartOfSum();
    CyclesAre(0xF32D_7CE1, 0xBFD0_0259, [0x5D9C_B645, 0x6FFC_4179, 0x339A_B64C, 0xCCAD_F1A2], 0xC6EF_3720, 32);
    Second1();
    Second2();
    Second3();
    Second4();
  }

  lemma FirstFeed()
    ensures Feed([0xA0EA_4013, 0x89AB_B509, 0xCEEC_401A, 0x2AFA_05D2], Block(0xFD76_F656, 0xE657_F470))
            == [0x5D9C_B645, 0x6FFC_4179, 0x339A_B64C, 0xCCAD_F1A2]
  {
    hide Xor;
    XorOf(0xA0EA_4013, 0xFD76_F656, 0x5D9C_B645);
    XorOf(0x89AB_B509, 0xE657_F470, 0x6FFC_4179);
    XorOf(0xCEEC_401A, 0xFD76_F656, 0x339A_B64C);
    XorOf(0x2AFA_05D2, 0xE657_F470, 0xCCAD_F1A2);
  }

  lemma SecondFeed()
    ensures Feed([0x5D9C_B645, 0x6FFC_4179, 0x339A_B64C, 0xCCAD_F1A2], Block(0xF32D_7CE1, 0xBFD0_0259))
            == [0xAEB1_CAA4, 0xD02C_4320, 0xC0B7_CAAD, 0x737D_F3FB]
  {
    hide Xor;
    XorOf(0x5D9C_B645, 0xF32D_7CE1, 0xAEB1_CAA4);
    XorOf(0x6FFC_4179, 0xBFD0_0259, 0xD02C_4320);
    XorOf(0x339A_B64C, 0xF32D_7CE1, 0xC0B7_CAAD);
    XorOf(0xCCAD_F1A2, 0xBFD0_0259, 0x737D_F3FB);
  }

  lemma FirstOctets(s: seq<byte>)
    requires |s| >= 8 && s[..8] == [0x56, 0xF6, 0x76, 0xFD, 0x70, 0xF4, 0x57, 0xE6]
    ensures BlockAt(s, 0) == Block(0xFD76_F656, 0xE657_F470)
  {
    assert forall i | 0 <= i < 8 :: s[i] == s[..8][i];
  }

  lemma SecondOctets(s: seq<byte>)
    requires |s| >= 8 && s[..8] == [0xE1, 0x7C, 0x2D, 0xF3, 0x59, 0x02, 0xD0, 0xBF]
    ensures BlockAt(s, 0) == Block(0xF32D_7CE1, 0xBFD0_0259)
  {
    assert forall i | 0 <= i < 8 :: s[i] == s[..8][i];
  }

  /** What sixteen octets are deciphered to, and the key that is left. */
  lemma TwoBlocks(cipher: seq<byte>, key: Key)
    requires cipher == [0x56, 0xF6, 0x76, 0xFD, 0x70, 0xF4, 0x57, 0xE6]
                       + [0xE1, 0x7C, 0x2D, 0xF3, 0x59, 0x02, 0xD0, 0xBF]
    requires key == [0xA0EA_4013, 0x89AB_B509, 0xCEEC_401A, 0x2AFA_05D2]
    ensures Decrypt(cipher, key) == [0x53, 0x41, 0x4D, 0x50, 0x2E, 0x53, 0x41, 0x41]
                                    + [0x2C, 0x20, 0x30, 0x33, 0x37, 0x2D, 0x52, 0x35]
    ensures KeyAfter(cipher, key) == [0xAEB1_CAA4, 0xD02C_4320, 0xC0B7_CAAD, 0x737D_F3FB]
  {
    hide DecryptRounds, BlockAt, Feed;
    var rest := cipher[8..];
    FirstOctets(cipher);
    SecondOctets(rest);
    FirstBlock();
    FirstFeed();
    SecondBlock();
    SecondFeed();
    assert rest[8..] == [];
    DecryptShort([], Feed(Feed(key, BlockAt(cipher, 0)), BlockAt(rest, 0)));
    hide Decrypt, KeyAfter;
    assert BlockBytes(Block(0x504D_4153, 0x4141_532E)) == [0x53, 0x41, 0x4D, 0x50, 0x2E, 0x53, 0x41, 0x41];
    assert BlockBytes(Block(0x3330_202C, 0x3552_2D37)) == [0x2C, 0x20, 0x30, 0x33, 0x37, 0x2D, 0x52, 0x35];
  }
}
