/** Known answers for the archive format: header, table key, entries and file keys. */
module SaaVectors {
  import opened Words
  import opened Machine
  import opened Xtea
  import opened SaaFormat

  lemma XorOctet(a: bv32, b: bv32, c: bv32)
    requires Num(a) < 256 && Num(b) < 256
    ensures c == a ^ b ==> XorByte(Num(a), Num(b)) == Num(c)
  {
    OtherOf(a, b, c);
    hide Num, Other, XorBits;
    Pow2Values();
    XorIsBits(a, b, 8);
  }

  // ----- the table key

  lemma TableKeyOctets0()
    ensures XorByte(0xB9, 0xAA) == 0x13 && XorByte(0xEA, 0xAA) == 0x40
    ensures XorByte(0x40, 0xAA) == 0xEA && XorByte(0x0A, 0xAA) == 0xA0
  {
    hide XorByte;
    XorOctet(0xB9, 0xAA, 0x13);
    XorOctet(0xEA, 0xAA, 0x40);
    XorOctet(0x40, 0xAA, 0xEA);
    XorOctet(0x0A, 0xAA, 0xA0);
  }

  lemma TableKeyOctets1()
    ensures XorByte(0xA3, 0xAA) == 0x09 && XorByte(0x1F, 0xAA) == 0xB5
    ensures XorByte(0x01, 0xAA) == 0xAB && XorByte(0x23, 0xAA) == 0x89
  {
    hide XorByte;
    XorOctet(0xA3, 0xAA, 0x09);
    XorOctet(0x1F, 0xAA, 0xB5);
    XorOctet(0x01, 0xAA, 0xAB);
    XorOctet(0x23, 0xAA, 0x89);
  }

  lemma TableKeyOctets2()
    ensures XorByte(0xB0, 0xAA) == 0x1A && XorByte(0xEA, 0xAA) == 0x40
    ensures XorByte(0x46, 0xAA) == 0xEC && XorByte(0x64, 0xAA) == 0xCE
  {
    hide XorByte;
    XorOctet(0xB0, 0xAA, 0x1A);
    XorOctet(0xEA, 0xAA, 0x40);
    XorOctet(0x46, 0xAA, 0xEC);
    XorOctet(0x64, 0xAA, 0xCE);
  }

  lemma TableKeyOctets3()
    ensures XorByte(0x78, 0xAA) == 0xD2 && XorByte(0xAF, 0xAA) == 0x05
    ensures XorByte(0x50, 0xAA) == 0xFA && XorByte(0x80, 0xAA) == 0x2A
  {
    hide XorByte;
    XorOctet(0x78, 0xAA, 0xD2);
    XorOctet(0xAF, 0xAA, 0x05);
    XorOctet(0x50, 0xAA, 0xFA);
    XorOctet(0x80, 0xAA, 0x2A);
  }

  /** The four words that decipher the entry table of every archive. */
  lemma TableKeyIs()
    ensures TableKey() == [0xA0EA_4013, 0x89AB_B509, 0xCEEC_401A, 0x2AFA_05D2]
  {
    hide XorByte;
    TableKeyOctets0();
    TableKeyOctets1();
    TableKeyOctets2();
    TableKeyOctets3();
  }

  // ----- entries and file keys

  lemma XorWithZero(x: nat, n: nat)
    requires x < Pow2(n)
    ensures XorBits(x, 0, n) == x
  {
  }

  /** A file is deciphered with four words of the plain table, from the octet its hash selects on. */
  lemma FileKeyIs(table: seq<byte>, hash: word, i: nat)
    requires |table| == 2048 && i < 4
    ensures FileKey(table, hash)[i] == LoadLe32(table, hash % 2032 + 4 * i)
  {
    hide XorBits, Le32;
    forall b: byte
      ensures XorByte(b, 0) == b
    {
      Pow2Values();
      XorWithZero(b, 8);
    }
  }

  lemma LinkOfMain()
    ensures Unobfuscate(0xC015_1EB0) == 0xD9AA_E022
    ensures Xor(0xD9AA_E022, 0xD83F_24DD) == 0x0195_C4FF
  {
    hide Xor;
    XorOf(0xC015_1EB0, 0xC103_D3E7, 0x0116_CD57);
    XorOf(0xD9AA_E022, 0xD83F_24DD, 0x0195_C4FF);
  }

  /** Two words of a table: an entry of 103876 octets with the hash of `main.scm` and no predecessor. */
  lemma EntryOfMain()
    ensures DecodeEntry(0xD83F_24DD, 0xC015_1EB0) == Entry(0xD83F_24DD, 0xFF, 103876)
  {
    hide Xor, Unobfuscate;
    LinkOfMain();
  }

  // ----- the header

  lemma HeaderXor()
    ensures Xor(0x1A72_ABC0, 0x5A5A_9FF3) == 0x4028_3433 && Xor(0x1A62_ABC0, 0x5A5A_9FF3) == 0x4038_3433
  {
    hide Xor;
    XorOf(0x1A72_ABC0, 0x5A5A_9FF3, 0x4028_3433);
    XorOf(0x1A62_ABC0, 0x5A5A_9FF3, 0x4038_3433);
  }

  lemma HeaderWords(data: seq<byte>, id: seq<byte>)
    requires |data| >= 256 && data[248..256] == id + [0xF3, 0x9F, 0x5A, 0x5A]
    requires id == [0xC0, 0xAB, 0x72, 0x1A] || id == [0xC0, 0xAB, 0x62, 0x1A]
    ensures LoadLe32(data, 252) == 0x5A5A_9FF3
    ensures LoadLe32(data, 248) == if id[1] == 0xAB && id[2] == 0x72 then 0x1A72_ABC0 else 0x1A62_ABC0
  {
    assert forall k | 248 <= k < 256 :: data[k] == data[248..256][k - 248];
  }

  /** Version 2 with a signature of 128 octets, behind `blocks` blocks of data: accepted, with this layout. */
  lemma HeaderAccepted(data: seq<byte>, blocks: nat)
    requires |data| == 256 + 2048 * blocks + 2048 + 128
    requires data[248..256] == [0xC0, 0xAB, 0x72, 0x1A] + [0xF3, 0x9F, 0x5A, 0x5A]
    ensures ParseLayout(data)
            == Some(Layout(256, 256 + 2048 * blocks, 256 + 2048 * blocks + 2048, 128, 0xFF))
  {
    hide Xor, Le32;
    HeaderWords(data, [0xC0, 0xAB, 0x72, 0x1A]);
    HeaderXor();
    assert 2048 * blocks % BLOCK_BYTES == 0;
  }

  /** The same with version 3 is not. */
  lemma HeaderRefused(data: seq<byte>)
    requires |data| >= 256 && data[248..256] == [0xC0, 0xAB, 0x62, 0x1A] + [0xF3, 0x9F, 0x5A, 0x5A]
    ensures ParseLayout(data).None?
  {
    hide Xor, Le32;
    HeaderWords(data, [0xC0, 0xAB, 0x62, 0x1A]);
    HeaderXor();
  }

  /** Too short to hold a header, a table and eight octets more. */
  lemma ShortRefused(data: seq<byte>)
    requires |data| < 2312
    ensures ParseLayout(data).None?
  {
  }

  /** Files take whole blocks of 2048 octets. */
  lemma RoundedIs(blocks: nat, rest: nat)
    requires 0 < rest <= 2048
    ensures Rounded(2048 * blocks + rest) == 2048 * (blocks + 1) && Rounded(0) == 0
  {
  }
}
