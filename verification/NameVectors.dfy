/** The mix of the name hash in the operators of the machine, and known answers. */
module NameVectors {
  import opened Words
  import opened Machine
  import opened NameHash
  import VirtualFiles

  // ----- the mix on bit vectors

  function Stirred(x: bv32, y: bv32, z: bv32, shifted: bv32): bv32 {
    (x - y - z) ^ shifted
  }

  function Right3(x: bv32, y: bv32, z: bv32): bv32 {
    Stirred(x, y, z, z >> 3)
  }

  function Right5(x: bv32, y: bv32, z: bv32): bv32 {
    Stirred(x, y, z, z >> 5)
  }

  function Right12(x: bv32, y: bv32, z: bv32): bv32 {
    Stirred(x, y, z, z >> 12)
  }

  function Right13(x: bv32, y: bv32, z: bv32): bv32 {
    Stirred(x, y, z, z >> 13)
  }

  function Right15(x: bv32, y: bv32, z: bv32): bv32 {
    Stirred(x, y, z, z >> 15)
  }

  function Left8(x: bv32, y: bv32, z: bv32): bv32 {
    Stirred(x, y, z, z << 8)
  }

  function Left10(x: bv32, y: bv32, z: bv32): bv32 {
    Stirred(x, y, z, z << 10)
  }

  function Left16(x: bv32, y: bv32, z: bv32): bv32 {
    Stirred(x, y, z, z << 16)
  }

  function FirstRound(a: bv32, b: bv32, c: bv32): (bv32, bv32, bv32) {
    var a1 := Right13(a, b, c);
    var b1 := Left8(b, c, a1);
    (a1, b1, Right13(c, a1, b1))
  }

  function SecondRound(a: bv32, b: bv32, c: bv32): (bv32, bv32, bv32) {
    var a1 := Right12(a, b, c);
    var b1 := Left16(b, c, a1);
    (a1, b1, Right5(c, a1, b1))
  }

  function ThirdRound(a: bv32, b: bv32, c: bv32): (bv32, bv32, bv32) {
    var a1 := Right3(a, b, c);
    var b1 := Left10(b, c, a1);
    (a1, b1, Right15(c, a1, b1))
  }

  function Mixed(a: bv32, b: bv32, c: bv32): (bv32, bv32, bv32) {
    var r := FirstRound(a, b, c);
    var s := SecondRound(r.0, r.1, r.2);
    ThirdRound(s.0, s.1, s.2)
  }

  // ----- it is the mix on numbers

  lemma Differences(x: bv32, y: bv32, z: bv32)
    ensures Minus(Minus(x, y), z) == x - y - z
  {
    assert Minus(Minus(x, y), z) == Minus(x - y, z) == x - y - z;
  }

  lemma Shaken(x: bv32, y: bv32, z: bv32, shifted: bv32)
    ensures Other(x - y - z, shifted) == Stirred(x, y, z, shifted)
  {
  }

  lemma StirredIs(x: bv32, y: bv32, z: bv32, shifted: bv32)
    ensures Num(Stirred(x, y, z, shifted)) == Xor(Sub(Sub(Num(x), Num(y)), Num(z)), Num(shifted))
  {
    hide *;
    Differences(x, y, z);
    Shaken(x, y, z, shifted);
    SubIs(x, y);
    SubIs(Minus(x, y), z);
    XorIs(Minus(Minus(x, y), z), shifted);
  }

  lemma {:induction false} HalvesSplit(b: bv32, j: nat, k: nat)
    ensures Halves(Halves(b, j), k) == Halves(b, j + k)
    decreases j
  {
    hide Half;
    if j > 0 {
      HalvesSplit(Half(b), j - 1, k);
    }
  }

  lemma {:induction false} DoublesSplit(b: bv32, j: nat, k: nat)
    ensures Doubles(Doubles(b, j), k) == Doubles(b, j + k)
    decreases j
  {
    hide Double;
    if j > 0 {
      DoublesSplit(Double(b), j - 1, k);
    }
  }

  lemma HalvesBy3(b: bv32)
    ensures Halves(b, 3) == b >> 3
  {
  }

  lemma HalvesBy5(b: bv32)
    ensures Halves(b, 5) == b >> 5
  {
  }

  lemma HalvesBy10(b: bv32)
    ensures Halves(b, 10) == b >> 10
  {
  }

  lemma HalvesBy12(b: bv32)
    ensures Halves(b, 12) == b >> 12
  {
  }

  lemma HalvesBy13(b: bv32)
    ensures Halves(b, 13) == b >> 13
  {
  }

  lemma DoublesBy8(b: bv32)
    ensures Doubles(b, 8) == b << 8
  {
  }

  lemma DoublesBy10(b: bv32)
    ensures Doubles(b, 10) == b << 10
  {
  }

  lemma LastFive(b: bv32)
    ensures Halves(b, 15) == Halves(b >> 10, 5)
  {
    hide Halves;
    HalvesSplit(b, 10, 5);
    HalvesBy10(b);
  }

  lemma RightTwice(b: bv32, c: bv32)
    requires c == b >> 10
    ensures Halves(c, 5) == b >> 15
  {
    HalvesBy5(c);
  }

  lemma HalvesBy15(b: bv32)
    ensures Halves(b, 15) == b >> 15
  {
    hide Halves;
    LastFive(b);
    RightTwice(b, b >> 10);
  }

  lemma DoublesBy16(b: bv32)
    ensures Doubles(b, 16) == b << 16
  {
    hide Doubles;
    DoublesSplit(b, 8, 8);
    DoublesBy8(b);
    DoublesBy8(b << 8);
  }

  lemma Right3Is(x: bv32, y: bv32, z: bv32)
    ensures Num(Right3(x, y, z)) == Xor(Sub(Sub(Num(x), Num(y)), Num(z)), ShiftRight(Num(z), 3))
  {
    hide Num, Stirred, Halves, Sub, Xor, ShiftRight;
    HalvesBy3(z);
    HalvesAre(z, 3);
    StirredIs(x, y, z, z >> 3);
  }

  lemma Right5Is(x: bv32, y: bv32, z: bv32)
    ensures Num(Right5(x, y, z)) == Xor(Sub(Sub(Num(x), Num(y)), Num(z)), ShiftRight(Num(z), 5))
  {
    hide Num, Stirred, Halves, Sub, Xor, ShiftRight;
    HalvesBy5(z);
    HalvesAre(z, 5);
    StirredIs(x, y, z, z >> 5);
  }

  lemma Right12Is(x: bv32, y: bv32, z: bv32)
    ensures Num(Right12(x, y, z)) == Xor(Sub(Sub(Num(x), Num(y)), Num(z)), ShiftRight(Num(z), 12))
  {
    hide Num, Stirred, Halves, Sub, Xor, ShiftRight;
    HalvesBy12(z);
    HalvesAre(z, 12);
    StirredIs(x, y, z, z >> 12);
  }

  lemma Right13Is(x: bv32, y: bv32, z: bv32)
    ensures Num(Right13(x, y, z)) == Xor(Sub(Sub(Num(x), Num(y)), Num(z)), ShiftRight(Num(z), 13))
  {
    hide Num, Stirred, Halves, Sub, Xor, ShiftRight;
    HalvesBy13(z);
    HalvesAre(z, 13);
    StirredIs(x, y, z, z >> 13);
  }

  lemma Right15Is(x: bv32, y: bv32, z: bv32)
    ensures Num(Right15(x, y, z)) == Xor(Sub(Sub(Num(x), Num(y)), Num(z)), ShiftRight(Num(z), 15))
  {
    hide Num, Stirred, Halves, Sub, Xor, ShiftRight;
    HalvesBy15(z);
    HalvesAre(z, 15);
    StirredIs(x, y, z, z >> 15);
  }

  lemma Left8Is(x: bv32, y: bv32, z: bv32)
    ensures Num(Left8(x, y, z)) == Xor(Sub(Sub(Num(x), Num(y)), Num(z)), ShiftLeft(Num(z), 8))
  {
    hide Num, Stirred, Doubles, Sub, Xor, ShiftLeft;
    DoublesBy8(z);
    DoublesAre(z, 8);
    StirredIs(x, y, z, z << 8);
  }

  lemma Left10Is(x: bv32, y: bv32, z: bv32)
    ensures Num(Left10(x, y, z)) == Xor(Sub(Sub(Num(x), Num(y)), Num(z)), ShiftLeft(Num(z), 10))
  {
    hide Num, Stirred, Doubles, Sub, Xor, ShiftLeft;
    DoublesBy10(z);
    DoublesAre(z, 10);
    StirredIs(x, y, z, z << 10);
  }

  lemma Left16Is(x: bv32, y: bv32, z: bv32)
    ensures Num(Left16(x, y, z)) == Xor(Sub(Sub(Num(x), Num(y)), Num(z)), ShiftLeft(Num(z), 16))
  {
    hide Num, Stirred, Doubles, Sub, Xor, ShiftLeft;
    DoublesBy16(z);
    DoublesAre(z, 16);
    StirredIs(x, y, z, z << 16);
  }

  lemma FirstRoundIs(a: bv32, b: bv32, c: bv32)
    ensures var r := FirstRound(a, b, c);
            Round(Triple(Num(a), Num(b), Num(c)), Shr(13), Shl(8), Shr(13)) == Triple(Num(r.0), Num(r.1), Num(r.2))
  {
    hide Num, Right13, Left8, Xor, Sub, ShiftLeft, ShiftRight;
    var a1 := Right13(a, b, c);
    var b1 := Left8(b, c, a1);
    Right13Is(a, b, c);
    Left8Is(b, c, a1);
    Right13Is(c, a1, b1);
  }

  lemma SecondRoundIs(a: bv32, b: bv32, c: bv32)
    ensures var r := SecondRound(a, b, c);
            Round(Triple(Num(a), Num(b), Num(c)), Shr(12), Shl(16), Shr(5)) == Triple(Num(r.0), Num(r.1), Num(r.2))
  {
    hide Num, Right12, Left16, Right5, Xor, Sub, ShiftLeft, ShiftRight;
    var a1 := Right12(a, b, c);
    var b1 := Left16(b, c, a1);
    Right12Is(a, b, c);
    Left16Is(b, c, a1);
    Right5Is(c, a1, b1);
  }

  lemma ThirdRoundIs(a: bv32, b: bv32, c: bv32)
    ensures var r := ThirdRound(a, b, c);
            Round(Triple(Num(a), Num(b), Num(c)), Shr(3), Shl(10), Shr(15)) == Triple(Num(r.0), Num(r.1), Num(r.2))
  {
    hide Num, Right3, Left10, Right15, Xor, Sub, ShiftLeft, ShiftRight;
    var a1 := Right3(a, b, c);
    var b1 := Left10(b, c, a1);
    Right3Is(a, b, c);
    Left10Is(b, c, a1);
    Right15Is(c, a1, b1);
  }

  /** The mix on numbers is that of the machine. */
  lemma MixIs(a: bv32, b: bv32, c: bv32)
    ensures var r := Mixed(a, b, c);
            Mix(Triple(Num(a), Num(b), Num(c))) == Triple(Num(r.0), Num(r.1), Num(r.2))
  {
    hide Num, Round, FirstRound, SecondRound, ThirdRound, Shl, Shr;
    var r := FirstRound(a, b, c);
    var s := SecondRound(r.0, r.1, r.2);
    FirstRoundIs(a, b, c);
    SecondRoundIs(r.0, r.1, r.2);
    ThirdRoundIs(s.0, s.1, s.2);
  }

  // ----- known answers

  lemma MixOfMain()
    ensures Mix(Triple(0x0CA0_DB26, 0x0B9A_ECE7, 0x1234_5680)) == Triple(0x451C_B285, 0x6C62_ED62, 0xD83F_24DD)
  {
    hide Mix;
    MixIs(0x0CA0_DB26, 0x0B9A_ECE7, 0x1234_5680);
    assert Mixed(0x0CA0_DB26, 0x0B9A_ECE7, 0x1234_5680) == (0x451C_B285, 0x6C62_ED62, 0xD83F_24DD);
  }

  lemma MixOfScript()
    ensures Mix(Triple(0x07A9_DD2C, 0x0765_EE29, 0x129B_C382)) == Triple(0x0166_026E, 0xAB81_ADBD, 0x11A4_62D1)
  {
    hide Mix;
    MixIs(0x07A9_DD2C, 0x0765_EE29, 0x129B_C382);
    assert Mixed(0x07A9_DD2C, 0x0765_EE29, 0x129B_C382) == (0x0166_026E, 0xAB81_ADBD, 0x11A4_62D1);
  }

  lemma MixOfFirstTwelve()
    ensures Mix(Triple(0xBEA5_DB2C, 0x109B_E81A, 0x32A7_B7DD)) == Triple(0xC0E2_0621, 0x6B6E_C452, 0x7963_E30E)
  {
    hide Mix;
    MixIs(0xBEA5_DB2C, 0x109B_E81A, 0x32A7_B7DD);
    assert Mixed(0xBEA5_DB2C, 0x109B_E81A, 0x32A7_B7DD) == (0xC0E2_0621, 0x6B6E_C452, 0x7963_E30E);
  }

  lemma MixOfLastEleven()
    ensures Mix(Triple(0x354E_7B8E, 0xCCDB_34BB, 0xEBC9_5C25)) == Triple(0x7321_DC98, 0xEE22_075F, 0xFAFA_2A0E)
  {
    hide Mix;
    MixIs(0x354E_7B8E, 0xCCDB_34BB, 0xEBC9_5C25);
    assert Mixed(0x354E_7B8E, 0xCCDB_34BB, 0xEBC9_5C25) == (0x7321_DC98, 0xEE22_075F, 0xFAFA_2A0E);
  }

  /** The octets of the name `main.scm`. */
  function MainName(): seq<byte> {
    [0x6D, 0x61, 0x69, 0x6E, 0x2E, 0x73, 0x63, 0x6D]
  }

  function ScriptName(): seq<byte> {
    [0x73, 0x63, 0x72, 0x69, 0x70, 0x74, 0x2E, 0x69, 0x6D, 0x67]
  }

  /** Twenty-three octets: a whole block and the longest tail. */
  function LongName(): seq<byte> {
    [0x73, 0x61, 0x6E, 0x20, 0x61, 0x6E, 0x64, 0x72, 0x65, 0x61, 0x73, 0x20]
    + [0x6D, 0x75, 0x6C, 0x74, 0x69, 0x70, 0x6C, 0x61, 0x79, 0x65, 0x72]
  }

  lemma HashOfMain()
    ensures Hash(MainName()) == 0xD83F_24DD
  {
    hide Mix;
    MixOfMain();
    var s := MainName();
    assert Tail(s) == s;
    LastBlockWords(s);
  }

  lemma HashOfScript()
    ensures Hash(ScriptName()) == 0x11A4_62D1
  {
    hide Mix;
    MixOfScript();
    var s := ScriptName();
    assert Tail(s) == s;
    LastBlockWords(s);
  }

  lemma HashOfLong()
    ensures Hash(LongName()) == 0xFAFA2A0E
  {
    hide Mix;
    MixOfFirstTwelve();
    MixOfLastEleven();
    var s := LongName();
    assert s[..12] == [0x73, 0x61, 0x6E, 0x20, 0x61, 0x6E, 0x64, 0x72, 0x65, 0x61, 0x73, 0x20];
    assert s[12..] == [0x6D, 0x75, 0x6C, 0x74, 0x69, 0x70, 0x6C, 0x61, 0x79, 0x65, 0x72];
    assert Tail(s) == s[12..];
    LastBlockWords(s[12..]);
  }

  /** `spelt` is `name` with some of its lower-case letters in upper case. */
  predicate Spells(spelt: seq<byte>, name: seq<byte>) {
    && |spelt| == |name|
    && forall i | 0 <= i < |name| :: spelt[i] == name[i] || (0x61 <= name[i] <= 0x7A && spelt[i] == name[i] - 0x20)
  }

  lemma PathHashOfMain()
    ensures PathHash(MainName()) == Some(Hash(MainName())) == Some(0xD83F_24DD)
  {
    hide Hash;
    HashOfMain();
    PathHashIs([], MainName());
    assert [] + MainName() == MainName() == Lowered(MainName());
  }

  /** Wherever it stands and in whatever case, the path of `main.scm` has its hash. */
  lemma PathOfMain(dir: seq<byte>, spelt: seq<byte>)
    requires dir == [] || dir[|dir| - 1] in {0x5C, 0x2F}
    requires Spells(spelt, MainName())
    ensures PathHash(dir + spelt) == Some(0xD83F_24DD)
  {
    hide Hash, PathHash, BaseName;
    PathHashOfMain();
    assert [] + MainName() == MainName();
    PathHashIgnoresDirectoryAndCase(dir, spelt, [], MainName());
  }

  lemma PathHashOfScript()
    ensures PathHash(ScriptName()) == Some(Hash(ScriptName())) == Some(0x11A4_62D1)
  {
    hide Hash;
    HashOfScript();
    PathHashIs([], ScriptName());
    assert [] + ScriptName() == ScriptName() == Lowered(ScriptName());
  }

  lemma PathOfScript(dir: seq<byte>, spelt: seq<byte>)
    requires dir == [] || dir[|dir| - 1] in {0x5C, 0x2F}
    requires Spells(spelt, ScriptName())
    ensures PathHash(dir + spelt) == Some(0x11A4_62D1)
  {
    hide Hash, PathHash, BaseName;
    PathHashOfScript();
    assert [] + ScriptName() == ScriptName();
    PathHashIgnoresDirectoryAndCase(dir, spelt, [], ScriptName());
  }

  /** The upper-case name behind a directory, octet by octet. */
  lemma UpperCasePath(path: seq<byte>, dir: seq<byte>, spelt: seq<byte>)
    requires path == dir + spelt && dir == [0x64, 0x61, 0x74, 0x61, 0x5C]
    requires spelt == [0x4D, 0x41, 0x49, 0x4E, 0x2E, 0x53, 0x43, 0x4D]
    ensures PathHash(path) == Some(0xD83F_24DD)
  {
    hide PathHash;
    PathOfMain(dir, spelt);
  }

  /** So the two files are found under their names, in any directory and in any case. */
  lemma FilesByName(main: VirtualFiles.File, script: VirtualFiles.File, path: VirtualFiles.Path, dir: seq<byte>,
                    spelt: seq<byte>)
    requires path == dir + spelt
    requires dir == [] || dir[|dir| - 1] in {0x5C, 0x2F}
    ensures Spells(spelt, MainName()) ==> VirtualFiles.FileAt(main, script, path) == Some(main)
    ensures Spells(spelt, ScriptName()) ==> VirtualFiles.FileAt(main, script, path) == Some(script)
  {
    hide PathHash, Spells;
    if Spells(spelt, MainName()) {
      PathOfMain(dir, spelt);
    }
    if Spells(spelt, ScriptName()) {
      PathOfScript(dir, spelt);
    }
  }
}
