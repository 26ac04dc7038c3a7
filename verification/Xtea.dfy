/** XTEA with the archive's key feedback: every ciphertext block is mixed into the key of the next one. */
module Xtea {
  import opened Words

  const DELTA: word := 0x9E3779B9
  const ROUNDS: nat := 32

  type Key = k: seq<word> | |k| == 4 witness [0, 0, 0, 0]

  /** `key[i]` for a two-bit selector. */
  function Pick(key: Key, i: word): word {
    if i == 0 then key[0] else if i == 1 then key[1] else if i == 2 then key[2] else key[3]
  }

  function Scramble(v: word, k: word): word {
    Xor(Add(Xor(v * 16 % W, v / 32), v), k)
  }

  /** The round constant after `i` rounds of encryption. */
  function Sum(i: nat): word {
    if i == 0 then 0 else Add(Sum(i - 1), DELTA)
  }

  datatype Block = Block(v0: word, v1: word)

  /** One Feistel cycle with arbitrary half-round functions, and its reversal. */
  function Cycle(b: Block, f: word -> word, g: word -> word): Block {
    var v0 := Add(b.v0, f(b.v1));
    Block(v0, Add(b.v1, g(v0)))
  }

  function UndoCycle(b: Block, f: word -> word, g: word -> word): Block {
    var v1 := Sub(b.v1, g(b.v0));
    Block(Sub(b.v0, f(v1)), v1)
  }

  lemma CycleInverts(b: Block, f: word -> word, g: word -> word)
    ensures UndoCycle(Cycle(b, f, g), f, g) == b
    ensures Cycle(UndoCycle(b, f, g), f, g) == b
  {
  }

  /** The half-rounds that update `v0` and `v1` when the round constant is `sum`. */
  function LowHalf(v: word, key: Key, sum: word): word {
    Scramble(v, Add(sum, Pick(key, sum % 4)))
  }

  function HighHalf(v: word, key: Key, sum: word): word {
    Scramble(v, Add(sum, Pick(key, sum / 2048 % 4)))
  }

  function Low(key: Key, sum: word): word -> word {
    v => LowHalf(v, key, sum)
  }

  function High(key: Key, sum: word): word -> word {
    v => HighHalf(v, key, sum)
  }

  function EncryptRounds(b: Block, key: Key, n: nat): Block {
    if n == 0 then b else Cycle(EncryptRounds(b, key, n - 1), Low(key, Sum(n - 1)), High(key, Sum(n)))
  }

  function DecryptRounds(b: Block, key: Key, n: nat): Block
    decreases n, key
  {
    if n == 0 then b else DecryptRounds(UndoCycle(b, Low(key, Sum(n - 1)), High(key, Sum(n))), key, n - 1)
  }

  lemma {:induction false} RoundsInvert(b: Block, key: Key, n: nat)
    ensures DecryptRounds(EncryptRounds(b, key, n), key, n) == b
    ensures EncryptRounds(DecryptRounds(b, key, n), key, n) == b
    decreases n
  {
    hide Cycle, UndoCycle, Low, High, Sum;
    if n > 0 {
      var f, g := Low(key, Sum(n - 1)), High(key, Sum(n));
      CycleInverts(EncryptRounds(b, key, n - 1), f, g);
      RoundsInvert(b, key, n - 1);
      CycleInverts(b, f, g);
      RoundsInvert(UndoCycle(b, f, g), key, n - 1);
    }
  }

  /** The feedback of a ciphertext block into the key. */
  function Feed(key: Key, c: Block): Key {
    [Xor(key[0], c.v0), Xor(key[1], c.v1), Xor(key[2], c.v0), Xor(key[3], c.v1)]
  }

  function BlockAt(s: seq<byte>, i: nat): Block
    requires i + 8 <= |s|
  {
    Block(LoadLe32(s, i), LoadLe32(s, i + 4))
  }

  function BlockBytes(b: Block): (s: seq<byte>)
    ensures |s| == 8
  {
    StoreLe32(b.v0) + StoreLe32(b.v1)
  }

  /** Decryption of a whole buffer; a tail shorter than a block is left as it is. */
  function Decrypt(data: seq<byte>, key: Key): (plain: seq<byte>)
    ensures |plain| == |data|
  {
    if |data| < 8 then data
    else
      var c := BlockAt(data, 0);
      BlockBytes(DecryptRounds(c, key, ROUNDS)) + Decrypt(data[8..], Feed(key, c))
  }

  /** The key left behind by decrypting `data`. */
  function KeyAfter(data: seq<byte>, key: Key): Key {
    if |data| < 8 then key else KeyAfter(data[8..], Feed(key, BlockAt(data, 0)))
  }

  function Encrypt(data: seq<byte>, key: Key): (cipher: seq<byte>)
    ensures |cipher| == |data|
  {
    if |data| < 8 then data
    else
      var c := EncryptRounds(BlockAt(data, 0), key, ROUNDS);
      BlockBytes(c) + Encrypt(data[8..], Feed(key, c))
  }

  lemma BlockRoundTrip(s: seq<byte>, b: Block)
    ensures |s| >= 8 ==> BlockBytes(BlockAt(s, 0)) == s[..8]
    ensures BlockAt(BlockBytes(b) + s, 0) == b
  {
    if |s| >= 8 {
      StoreLoaded(s, 0);
      StoreLoaded(s, 4);
    }
    var t := BlockBytes(b) + s;
    assert t[0..4] == StoreLe32(b.v0) && t[4..8] == StoreLe32(b.v1);
    LoadStored(t, 0, b.v0);
    LoadStored(t, 4, b.v1);
  }

  /** Decryption undoes encryption, for every key and every length. */
  lemma {:induction false} DecryptEncrypt(data: seq<byte>, key: Key)
    ensures Decrypt(Encrypt(data, key), key) == data
  {
    hide EncryptRounds, DecryptRounds, BlockAt, BlockBytes, Feed;
    if |data| >= 8 {
      var p := BlockAt(data, 0);
      var c := EncryptRounds(p, key, ROUNDS);
      var rest := Encrypt(data[8..], Feed(key, c));
      BlockRoundTrip(rest, c);
      BlockRoundTrip(data, p);
      RoundsInvert(p, key, ROUNDS);
      assert (BlockBytes(c) + rest)[8..] == rest;
      DecryptEncrypt(data[8..], Feed(key, c));
    }
  }

  /** Encryption undoes decryption, so the pair is a bijection on buffers of each length. */
  lemma {:induction false} EncryptDecrypt(data: seq<byte>, key: Key)
    ensures Encrypt(Decrypt(data, key), key) == data
  {
    hide EncryptRounds, DecryptRounds, BlockAt, BlockBytes, Feed;
    if |data| >= 8 {
      var c := BlockAt(data, 0);
      var p := DecryptRounds(c, key, ROUNDS);
      var rest := Decrypt(data[8..], Feed(key, c));
      BlockRoundTrip(rest, p);
      BlockRoundTrip(data, c);
      RoundsInvert(c, key, ROUNDS);
      assert (BlockBytes(p) + rest)[8..] == rest;
      EncryptDecrypt(data[8..], Feed(key, c));
    }
  }

  /** A buffer may be decrypted in pieces of whole blocks, carrying the key from piece to piece. */
  lemma {:induction false} DecryptSplit(a: seq<byte>, b: seq<byte>, key: Key)
    requires |a| % 8 == 0
    ensures Decrypt(a + b, key) == Decrypt(a, key) + Decrypt(b, KeyAfter(a, key))
    ensures KeyAfter(a + b, key) == KeyAfter(b, KeyAfter(a, key))
  {
    hide DecryptRounds, Feed, Le32, BlockBytes;
    if a == [] {
      assert a + b == b;
    } else {
      assert (a + b)[8..] == a[8..] + b;
      DecryptSplit(a[8..], b, Feed(key, BlockAt(a, 0)));
    }
  }

  lemma DecryptShort(tail: seq<byte>, key: Key)
    requires |tail| < 8
    ensures Decrypt(tail, key) == tail && KeyAfter(tail, key) == key
  {
  }

  lemma SumStep(i: nat)
    ensures Sum(i + 1) == Add(Sum(i), DELTA)
  {
  }

  lemma {:induction false} SumIs(i: nat)
    ensures Sum(i) == DELTA * i % W
    decreases i
  {
    if i > 0 {
      SumIs(i - 1);
      SumStep(i - 1);
      hide Sum;
      AddToMod(DELTA * (i - 1), DELTA);
    }
  }

  lemma AddToMod(x: nat, y: nat)
    ensures (x % W + y) % W == (x + y) % W
  {
  }

  /** The constant the decryption loop starts from is the one encryption ends with. */
  lemma SumOfAllRounds()
    ensures Sum(ROUNDS) == DELTA * 32 % W
  {
    SumIs(ROUNDS);
  }

  /** One block of the decryption loop. */
  method DecryptBlock(b: Block, key: Key) returns (r: Block)
    ensures r == DecryptRounds(b, key, ROUNDS)
  {
    SumOfAllRounds();
    hide Scramble, LowHalf, HighHalf, Sum, Pick;
    var v0, v1, sum := b.v0, b.v1, DELTA * 32 % W;
    for round := 0 to 32
      invariant sum == Sum(ROUNDS - round)
      invariant DecryptRounds(Block(v0, v1), key, ROUNDS - round) == DecryptRounds(b, key, ROUNDS)
    {
      ghost var was := Block(v0, v1);
      SumStep(ROUNDS - round - 1);
      AddSub(Sum(ROUNDS - round - 1), DELTA);
      v1 := Sub(v1, HighHalf(v0, key, sum));
      sum := Sub(sum, DELTA);
      v0 := Sub(v0, LowHalf(v1, key, sum));
      assert sum == Sum(ROUNDS - round - 1);
      assert Block(v0, v1) == UndoCycle(was, Low(key, Sum(ROUNDS - round - 1)), High(key, Sum(ROUNDS - round)));
    }
    r := Block(v0, v1);
  }

  /** What one more block adds to the part already decrypted. */
  lemma DecryptOneMore(cipher: seq<byte>, offset: nat, key: Key)
    requires offset + 8 <= |cipher| && offset % 8 == 0
    ensures var k, c := KeyAfter(cipher[..offset], key), BlockAt(cipher, offset);
            && Decrypt(cipher[..offset + 8], key) ==
              Decrypt(cipher[..offset], key) + BlockBytes(DecryptRounds(c, k, ROUNDS))
            && KeyAfter(cipher[..offset + 8], key) == Feed(k, c)
  {
    hide DecryptRounds, Feed, Le32, BlockBytes;
    var piece := cipher[offset..offset + 8];
    assert cipher[..offset + 8] == cipher[..offset] + piece;
    DecryptSplit(cipher[..offset], piece, key);
    assert BlockAt(piece, 0) == BlockAt(cipher, offset) && piece[8..] == [];
  }

  method StoreBlock(data: array<byte>, offset: nat, b: Block)
    requires offset + 8 <= data.Length
    modifies data
    ensures data[..offset] == old(data[..offset])
    ensures data[offset..offset + 8] == BlockBytes(b)
    ensures data[offset + 8..] == old(data[offset + 8..])
  {
    hide *;
    var out := BlockBytes(b);
    for k := 0 to 8
      invariant data[..offset] == old(data[..offset])
      invariant data[offset + 8..] == old(data[offset + 8..])
      invariant data[offset..offset + k] == out[..k]
    {
      data[offset + k] := out[k];
    }
  }

  /** `tea_decrypt_with_key`: the buffer and the key are both overwritten. */
  method DecryptInPlace(data: array<byte>, key: array<word>)
    requires key.Length == 4
    modifies data, key
    ensures data[..] == Decrypt(old(data[..]), old(key[..]))
    ensures key[..] == KeyAfter(old(data[..]), old(key[..]))
  {
    hide DecryptRounds, Xor, Le32, BlockBytes, Decrypt, KeyAfter;
    ghost var cipher, key0 := data[..], key[..];
    var offset := 0;
    DecryptShort([], key0);
    while offset + 8 <= data.Length
      invariant 0 <= offset <= data.Length && offset % 8 == 0
      invariant data[offset..] == cipher[offset..]
      invariant data[..offset] == Decrypt(cipher[..offset], key0)
      invariant key[..] == KeyAfter(cipher[..offset], key0)
    {
      var c := BlockAt(data[..], offset);
      assert c == BlockAt(cipher, offset) by {
        assert forall j | offset <= j < |cipher| :: data[j] == cipher[offset..][j - offset];
      }
      DecryptOneMore(cipher, offset, key0);
      var p := DecryptBlock(c, key[..]);
      ghost var rest := data[offset + 8..];
      assert rest == cipher[offset..][8..];
      StoreBlock(data, offset, p);
      key[0], key[1], key[2], key[3] :=
        Xor(key[0], c.v0), Xor(key[1], c.v1), Xor(key[2], c.v0), Xor(key[3], c.v1);
      assert data[..offset + 8] == data[..offset] + data[offset..offset + 8];
      offset := offset + 8;
    }
    DecryptSplit(cipher[..offset], cipher[offset..], key0);
    DecryptShort(cipher[offset..], KeyAfter(cipher[..offset], key0));
    assert cipher == cipher[..offset] + cipher[offset..];
    assert data[..] == data[..offset] + data[offset..];
  }
}
