/** Octets and 32-bit words with their wrap-around arithmetic, exclusive or and little-endian layout. */
module Words {

  datatype Option<+T> = None | Some(value: T)

  const W: int := 0x1_0000_0000

  type byte = x: int | 0 <= x < 256
  type word = x: int | 0 <= x < W

  /** Addition and subtraction modulo 2^32. */
  function Add(x: word, y: word): word {
    if x + y < W then x + y else x + y - W
  }

  function Sub(x: word, y: word): word {
    if x >= y then x - y else x - y + W
  }

  lemma AddSub(x: word, y: word)
    ensures Sub(Add(x, y), y) == x && Add(Sub(x, y), y) == x
  {
  }

  lemma AddTwice(x: word, y: word, z: word)
    requires y + z < W
    ensures Add(Add(x, y), z) == Add(x, y + z)
  {
  }

  function Pow2(n: nat): nat {
    if n == 0 then 1 else 2 * Pow2(n - 1)
  }

  lemma Pow2Values()
    ensures Pow2(8) == 256 && Pow2(32) == W
  {
    assert Pow2(8) == 16 * Pow2(4);
    assert Pow2(16) == 16 * Pow2(12) && Pow2(12) == 16 * Pow2(8);
    assert Pow2(24) == 16 * Pow2(20) && Pow2(20) == 16 * Pow2(16);
    assert Pow2(32) == 16 * Pow2(28) && Pow2(28) == 16 * Pow2(24);
  }

  /** Exclusive or of the `n` low bits. */
  function XorBits(x: nat, y: nat, n: nat): (r: nat)
    ensures r < Pow2(n)
  {
    if n == 0 then 0 else (x + y) % 2 + 2 * XorBits(x / 2, y / 2, n - 1)
  }

  lemma HalfOfXor(x: nat, y: nat, d: nat, r: nat)
    requires d == (x + y) % 2
    ensures (d + 2 * r) / 2 == r && (d + 2 * r + y) % 2 == x % 2
  {
    var a, b := x / 2, y / 2;
    assert x == 2 * a + x % 2 && y == 2 * b + y % 2;
    assert (x % 2 + y % 2) % 2 == d;
  }

  lemma {:induction false} XorBitsTwice(x: nat, y: nat, n: nat)
    requires x < Pow2(n)
    ensures XorBits(XorBits(x, y, n), y, n) == x
  {
    if n > 0 {
      var r, d := XorBits(x / 2, y / 2, n - 1), (x + y) % 2;
      HalfOfXor(x, y, d, r);
      assert XorBits(x, y, n) == d + 2 * r;
      assert XorBits(d + 2 * r, y, n) == (d + 2 * r + y) % 2 + 2 * XorBits((d + 2 * r) / 2, y / 2, n - 1);
      XorBitsTwice(x / 2, y / 2, n - 1);
    }
  }

  function Xor(x: word, y: word): word {
    Pow2Values();
    XorBits(x, y, 32)
  }

  function XorByte(x: byte, y: byte): byte {
    Pow2Values();
    XorBits(x, y, 8)
  }

  lemma XorTwice(x: word, y: word)
    ensures Xor(Xor(x, y), y) == x
  {
    Pow2Values();
    XorBitsTwice(x, y, 32);
  }

  function ShiftRight(x: word, k: nat): (r: word)
    ensures r <= x
  {
    if k == 0 then x else ShiftRight(x / 2, k - 1)
  }

  function ShiftLeft(x: word, k: nat): word
    decreases k, x
  {
    if k == 0 then x else ShiftLeft(x * 2 % W, k - 1)
  }

  /** The word held little-endian by four consecutive octets. */
  function Le32(b0: byte, b1: byte, b2: byte, b3: byte): word {
    b0 + 0x100 * (b1 + 0x100 * (b2 + 0x100 * b3))
  }

  function LoadLe32(s: seq<byte>, i: nat): word
    requires i + 4 <= |s|
  {
    Le32(s[i], s[i + 1], s[i + 2], s[i + 3])
  }

  function StoreLe32(w: word): (s: seq<byte>)
    ensures |s| == 4
  {
    var (h, t) := (w / 0x100, w / 0x100 / 0x100);
    [w % 0x100, h % 0x100, t % 0x100, t / 0x100]
  }

  lemma LowestOctet(b: byte, rest: nat)
    ensures (b + 0x100 * rest) % 0x100 == b && (b + 0x100 * rest) / 0x100 == rest
  {
  }

  /** Loading what was stored, wherever it stands. */
  lemma LoadStored(s: seq<byte>, i: nat, w: word)
    requires i + 4 <= |s| && s[i..i + 4] == StoreLe32(w)
    ensures LoadLe32(s, i) == w
  {
    assert s[i..i + 4] == [s[i], s[i + 1], s[i + 2], s[i + 3]];
  }

  /** Storing what was loaded. */
  lemma StoreLoaded(s: seq<byte>, i: nat)
    requires i + 4 <= |s|
    ensures StoreLe32(LoadLe32(s, i)) == s[i..i + 4]
  {
    var b1: nat, b2: nat, b3: nat := s[i + 1], s[i + 2], s[i + 3];
    LowestOctet(s[i + 2], b3);
    LowestOctet(s[i + 1], b2 + 0x100 * b3);
    LowestOctet(s[i], b1 + 0x100 * (b2 + 0x100 * b3));
    assert s[i..i + 4] == [s[i], s[i + 1], s[i + 2], s[i + 3]];
  }

  /** Words are kept with the lowest octet first. */
  lemma LittleEndian()
    ensures StoreLe32(0x0403_0201) == [0x01, 0x02, 0x03, 0x04]
    ensures LoadLe32([0x01, 0x02, 0x03, 0x04], 0) == 0x0403_0201
  {
  }

  lemma AddIsModular(x: word, y: word)
    ensures Add(x, y) == (x + y) % W && Sub(x, y) == (x - y) % W
  {
  }
}
