/** The client identifier: a twenty-octet seed times a factor, printed in hexadecimal. */
module Gpci {
  import opened Words

  const GPCI_FACTOR: word := 0x3e9
  const SEED_BYTES: nat := 24

  function BigEndian(s: seq<byte>): nat {
    if s == [] then 0 else 0x100 * BigEndian(s[..|s| - 1]) + s[|s| - 1]
  }

  function LittleEndian(s: seq<byte>): nat {
    if s == [] then 0 else s[0] + 0x100 * LittleEndian(s[1..])
  }

  function Reversed(s: seq<byte>): (r: seq<byte>)
    ensures |r| == |s| && forall i | 0 <= i < |s| :: r[i] == s[|s| - 1 - i]
  {
    if s == [] then [] else Reversed(s[1..]) + [s[0]]
  }

  lemma {:induction false} BigEndianOfReversed(s: seq<byte>)
    ensures BigEndian(Reversed(s)) == LittleEndian(s)
    decreases |s|
  {
    if s != [] {
      BigEndianOfReversed(s[1..]);
      assert Reversed(s)[..|s| - 1] == Reversed(s[1..]);
    }
  }

  lemma ReversedTwice(s: seq<byte>)
    ensures Reversed(Reversed(s)) == s
  {
  }

  // ----- limbs

  function LimbBase(n: nat): nat { if n == 0 then 1 else W * LimbBase(n - 1) }

  /** The number held by 32-bit limbs, least significant first. */
  function LimbValue(ws: seq<word>): nat {
    if ws == [] then 0 else LimbValue(ws[..|ws| - 1]) + ws[|ws| - 1] * LimbBase(|ws| - 1)
  }

  /** The first `n` limbs stored in a buffer. */
  function Limbs(s: seq<byte>, n: nat): (ws: seq<word>)
    requires 4 * n <= |s|
    ensures |ws| == n
  {
    seq(n, i requires 0 <= i < n => LoadLe32(s, 4 * i))
  }

  lemma {:induction false} LittleEndianSplit(s: seq<byte>, n: nat)
    requires |s| == 4 * n + 4
    ensures LittleEndian(s) == LittleEndian(s[..4 * n]) + LoadLe32(s, 4 * n) * LimbBase(n)
    decreases n
  {
    if n == 0 {
      FourDigits(s);
      assert s[4..] == [];
      assert s[..0] == [];
      assert LimbBase(0) == 1;
    } else {
      var rest := s[4..];
      LittleEndianSplit(rest, n - 1);
      assert LoadLe32(s, 4 * n) == LoadLe32(rest, 4 * (n - 1));
      FourDigits(s);
      FourDigits(s[..4 * n]);
      assert s[..4 * n][4..] == rest[..4 * (n - 1)];
      Distribute(LittleEndian(rest[..4 * (n - 1)]), LoadLe32(s, 4 * n), LimbBase(n - 1));
    }
  }

  lemma Distribute(a: nat, w: nat, b: nat)
    ensures W * (a + w * b) == W * a + w * (W * b)
  {
  }

  lemma FourDigits(s: seq<byte>)
    requires |s| >= 4
    ensures LittleEndian(s) == LoadLe32(s, 0) + W * LittleEndian(s[4..])
  {
    assert s[1..][1..][1..][1..] == s[4..];
    assert LittleEndian(s[1..][1..]) == s[2] + 0x100 * (s[3] + 0x100 * LittleEndian(s[4..]));
  }

  lemma {:induction false} LimbsAreLittleEndian(s: seq<byte>, n: nat)
    requires |s| == 4 * n
    ensures LimbValue(Limbs(s, n)) == LittleEndian(s)
    decreases n
  {
    if n > 0 {
      LittleEndianSplit(s, n - 1);
      LimbsAreLittleEndian(s[..4 * (n - 1)], n - 1);
      assert Limbs(s, n)[..n - 1] == Limbs(s[..4 * (n - 1)], n - 1);
    }
  }

  /** The byte swap applied to each input limb. */
  function ByteSwap(x: word): word {
    x / 0x100_0000 + x / 0x1_0000 % 0x100 * 0x100 + x / 0x100 % 0x100 * 0x1_0000 + x % 0x100 * 0x100_0000
  }

  lemma ByteSwapReverses(b0: byte, b1: byte, b2: byte, b3: byte)
    ensures ByteSwap(Le32(b0, b1, b2, b3)) == Le32(b3, b2, b1, b0)
  {
    var n2: nat := b2 + 0x100 * (b3 as int);
    var n1: nat := b1 + 0x100 * n2;
    var x: nat := b0 + 0x100 * n1;
    LowestOctet(b2, b3);
    LowestOctet(b1, n2);
    LowestOctet(b0, n1);
    assert x / 0x100 == n1 && x / 0x1_0000 == n1 / 0x100 == n2 && x / 0x100_0000 == n2 / 0x100 == b3;
  }

  method PutWord(buffer: array<byte>, at: nat, w: word)
    requires at + 4 <= buffer.Length
    modifies buffer
    ensures buffer[..] == old(buffer[..at]) + StoreLe32(w) + old(buffer[at + 4..])
  {
    var b := StoreLe32(w);
    hide StoreLe32;
    buffer[at], buffer[at + 1], buffer[at + 2], buffer[at + 3] := b[0], b[1], b[2], b[3];
    assert b == [b[0], b[1], b[2], b[3]];
  }

  /** A limb product plus a carry fits in 64 bits and splits into a limb and the next carry. */
  lemma NoOverflow(s: word, factor: word, carry: word)
    ensures s * factor + carry < W * W
    ensures (s * factor + carry) / W < W
  {
    assert s * factor <= (W - 1) * (W - 1) by {
      assert s * factor <= s * (W - 1) by { Monotone(s, factor, W - 1); }
      assert s * (W - 1) <= (W - 1) * (W - 1);
    }
  }

  lemma Monotone(s: nat, a: nat, b: nat)
    requires a <= b
    ensures s * a <= s * b
  {
  }

  lemma Schoolbook(done: nat, carry: nat, s: nat, factor: nat, lo: nat, hi: nat, base: nat, product: nat, source: nat)
    requires lo + W * hi == s * factor + carry
    requires done + carry * base == source * factor
    requires product == done + lo * base + hi * (W * base)
    ensures product == (source + s * base) * factor
  {
    calc {
      product;
      done + (lo + W * hi) * base;
      done + (s * factor + carry) * base;
      done + carry * base + (s * factor) * base;
      source * factor + (s * base) * factor;
      (source + s * base) * factor;
    }
  }

  lemma LimbStore(before: seq<byte>, after: seq<byte>, k: nat, lo: word, hi: word)
    requires |before| == SEED_BYTES && k < 5
    requires after == before[..4 * k] + StoreLe32(lo) + StoreLe32(hi) + before[4 * k + 8..]
    ensures |after| == SEED_BYTES && Limbs(after, k) == Limbs(before, k)
    ensures LoadLe32(after, 4 * k) == lo && LoadLe32(after, 4 * k + 4) == hi
  {
    hide StoreLe32, Le32;
    assert after[4 * k..4 * k + 4] == StoreLe32(lo);
    assert after[4 * k + 4..4 * k + 8] == StoreLe32(hi);
    LoadStored(after, 4 * k, lo);
    LoadStored(after, 4 * k + 4, hi);
    assert forall i | 0 <= i < k :: LoadLe32(after, 4 * i) == LoadLe32(before, 4 * i);
  }

  /** The input limbs: the first twenty octets as a number, most significant octet first. */
  method LoadSource(buffer: array<byte>) returns (src: seq<word>)
    requires buffer.Length >= 20
    ensures |src| == 5 && LimbValue(src) == BigEndian(buffer[..20])
  {
    hide Le32, ByteSwap, LimbValue, BigEndian, LittleEndian;
    ghost var r := Reversed(buffer[..20]);
    src := [];
    for i := 0 to 5
      invariant src == Limbs(r, i)
    {
      var at := 4 * (4 - i);
      ByteSwapReverses(buffer[at], buffer[at + 1], buffer[at + 2], buffer[at + 3]);
      assert LoadLe32(r, 4 * i) == Le32(buffer[at + 3], buffer[at + 2], buffer[at + 1], buffer[at]);
      src := src + [ByteSwap(LoadLe32(buffer[..], at))];
    }
    LimbsAreLittleEndian(r, 5);
    BigEndianOfReversed(r);
    ReversedTwice(buffer[..20]);
  }

  /** One line of the product: a limb, the running carry, two limbs written. */
  method MultiplyLimb(out: array<byte>, k: nat, ghost src: seq<word>, s: word, factor: word)
    requires out.Length == SEED_BYTES && k < 5 && k < |src| && src[k] == s
    requires LimbValue(Limbs(out[..], k)) + (if k == 0 then 0 else LoadLe32(out[..], 4 * k)) * LimbBase(k)
             == LimbValue(src[..k]) * factor
    modifies out
    ensures LimbValue(Limbs(out[..], k + 1)) + LoadLe32(out[..], 4 * k + 4) * LimbBase(k + 1) ==
      LimbValue(src[..k + 1]) * factor
  {
    hide StoreLe32, Le32, LimbValue, Limbs, LimbBase;
    var carry: word := if k == 0 then 0 else LoadLe32(out[..], 4 * k);
    NoOverflow(s, factor, carry);
    var product := s * factor + carry;
    var lo: word, hi: word := product % W, product / W;
    ghost var before := out[..];
    PutWord(out, 4 * k, lo);
    PutWord(out, 4 * k + 4, hi);
    LimbStore(before, out[..], k, lo, hi);
    LimbProduct(out[..], src, k, carry, factor, lo, hi);
  }

  lemma LimbProduct(after: seq<byte>, src: seq<word>, k: nat, carry: word, factor: word, lo: word, hi: word)
    requires |after| == SEED_BYTES && k < 5 && k < |src|
    requires LoadLe32(after, 4 * k) == lo && LoadLe32(after, 4 * k + 4) == hi
    requires lo + W * hi == src[k] * factor + carry
    requires LimbValue(Limbs(after, k)) + carry * LimbBase(k) == LimbValue(src[..k]) * factor
    ensures LimbValue(Limbs(after, k + 1)) + hi * LimbBase(k + 1) == LimbValue(src[..k + 1]) * factor
  {
    hide Le32;
    assert src[..k + 1][..k] == src[..k];
    assert Limbs(after, k + 1)[..k] == Limbs(after, k);
    Schoolbook(LimbValue(Limbs(after, k)), carry, src[k], factor, lo, hi, LimbBase(k),
               LimbValue(Limbs(after, k + 1)) + hi * LimbBase(k + 1), LimbValue(src[..k]));
  }

  /** `big_num_mul` with source and target being the same buffer. */
  method BigNumMul(buffer: array<byte>, factor: word)
    requires buffer.Length == SEED_BYTES
    modifies buffer
    ensures BigEndian(buffer[..]) == BigEndian(old(buffer[..20])) * factor
  {
    hide LimbValue, Limbs, BigEndian, Le32;
    var src := LoadSource(buffer);
    NoLimbs(buffer[..], src);
    for k := 0 to 5
      invariant LimbValue(Limbs(buffer[..], k)) + (if k == 0 then 0 else LoadLe32(buffer[..], 4 * k)) * LimbBase(k)
                == LimbValue(src[..k]) * factor
    {
      MultiplyLimb(buffer, k, src, src[k], factor);
    }
    AllLimbs(buffer[..]);
    assert src[..5] == src;
    ReverseInPlace(buffer);
  }

  lemma NoLimbs(s: seq<byte>, src: seq<word>)
    ensures LimbValue(Limbs(s, 0)) == 0 && LimbValue(src[..0]) == 0
  {
  }

  lemma AllLimbs(s: seq<byte>)
    requires |s| == SEED_BYTES
    ensures BigEndian(Reversed(s)) == LimbValue(Limbs(s, 5)) + LoadLe32(s, 20) * LimbBase(5)
  {
    BigEndianOfReversed(s);
    LimbsAreLittleEndian(s, 6);
    assert Limbs(s, 6)[..5] == Limbs(s, 5);
  }

  /** The closing loop: the octets of the product are put most significant first. */
  method ReverseInPlace(out: array<byte>)
    requires out.Length == SEED_BYTES
    modifies out
    ensures out[..] == Reversed(old(out[..]))
  {
    for i := 0 to 12
      invariant forall j | 0 <= j < i :: out[j] == old(out[23 - j]) && out[23 - j] == old(out[j])
      invariant forall j | i <= j < 24 - i :: out[j] == old(out[j])
    {
      out[i], out[23 - i] := out[23 - i], out[i];
    }
    assert forall j | 0 <= j < 24 :: out[j] == old(out[..])[23 - j];
  }

  // ----- hexadecimal

  function HexDigit(d: nat): char
    requires d < 16
  {
    if d > 9 then (d + 55) as char else (d + 48) as char
  }

  function DigitValue(c: char): nat {
    if '0' <= c <= '9' then (c - '0') as int else if 'A' <= c <= 'F' then (c - 'A') as int + 10 else 16
  }

  function HexValue(s: string): nat {
    if s == [] then 0 else 16 * HexValue(s[..|s| - 1]) + DigitValue(s[|s| - 1])
  }

  /** Upper-case hexadecimal without leading zeros; zero is the empty text. */
  function Hex(n: nat): string {
    if n == 0 then [] else Hex(n / 16) + [HexDigit(n % 16)]
  }

  predicate Canonical(s: string) {
    (forall i | 0 <= i < |s| :: DigitValue(s[i]) < 16) && (s != [] ==> s[0] != '0')
  }

  lemma DigitOfDigit(d: nat)
    requires d < 16
    ensures DigitValue(HexDigit(d)) == d
  {
  }

  lemma DigitUnique(c: char)
    requires DigitValue(c) < 16
    ensures HexDigit(DigitValue(c)) == c
  {
  }

  /** The printed text is canonical and denotes the number. */
  lemma {:induction false} HexDenotes(n: nat)
    ensures Canonical(Hex(n)) && HexValue(Hex(n)) == n
    decreases n
  {
    if n > 0 {
      HexDenotes(n / 16);
      DigitOfDigit(n % 16);
      assert Hex(n)[..|Hex(n)| - 1] == Hex(n / 16);
      if n < 16 {
        assert Hex(n / 16) == [];
        assert HexDigit(n) != '0';
      } else {
        assert n / 16 > 0 && Hex(n / 16) != [];
      }
    }
  }

  /** It is the only canonical text that does. */
  lemma {:induction false} HexUnique(s: string)
    requires Canonical(s)
    ensures s == Hex(HexValue(s)) && (HexValue(s) == 0 <==> s == [])
    decreases |s|
  {
    if s != [] {
      var front, last := s[..|s| - 1], s[|s| - 1];
      HexUnique(front);
      DigitUnique(last);
      var v := HexValue(s);
      assert v == 16 * HexValue(front) + DigitValue(last);
      assert v / 16 == HexValue(front) && v % 16 == DigitValue(last);
      if front == [] {
        assert DigitValue(last) != 0;
      }
    }
  }

  lemma HexStep(m: nat, d: nat)
    requires d < 16
    ensures Hex(16 * m + d) == if m == 0 && d == 0 then [] else Hex(m) + [HexDigit(d)]
  {
    assert (16 * m + d) / 16 == m && (16 * m + d) % 16 == d;
  }

  function Alphanumeric(k: nat): byte
    requires k < 36
  {
    if k < 10 then 0x30 + k else 0x41 + (k - 10)
  }

  function Seed(picks: seq<nat>): (s: seq<byte>)
    requires |picks| == SEED_BYTES
    ensures |s| == SEED_BYTES
  {
    seq(SEED_BYTES, i requires 0 <= i < SEED_BYTES => Alphanumeric(picks[i] % 36))
  }

  lemma SeedIsPositive(picks: seq<nat>)
    requires |picks| == SEED_BYTES
    ensures BigEndian(Seed(picks)[..20]) > 0
  {
    assert Seed(picks)[..20][19] > 0;
  }

  /** Prints the octets two digits at a time, skipping zeros until the first nonzero digit. */
  method PrintHex(out: seq<byte>, buf: array<char>) returns (pos: nat)
    requires 2 * |out| < buf.Length
    modifies buf
    ensures pos <= 2 * |out| && buf[..pos] == Hex(BigEndian(out)) && buf[pos] == '\0'
  {
    hide HexDigit, Hex;
    var notzero := false;
    pos := 0;
    HexOfZero();
    for i := 0 to |out|
      invariant pos <= 2 * i && buf[..pos] == Hex(BigEndian(out[..i]))
      invariant notzero <==> BigEndian(out[..i]) != 0
    {
      var upper, lower := out[i] / 16, out[i] % 16;
      ghost var m := BigEndian(out[..i]);
      assert out[..i + 1][..i] == out[..i];
      assert BigEndian(out[..i + 1]) == 16 * (16 * m + upper) + lower;
      HexStep(m, upper);
      HexStep(16 * m + upper, lower);
      if notzero || upper != 0 {
        buf[pos] := HexDigit(upper);
        pos := pos + 1;
        notzero := true;
      }
      assert buf[..pos] == Hex(16 * m + upper);
      if notzero || lower != 0 {
        buf[pos] := HexDigit(lower);
        pos := pos + 1;
        notzero := true;
      }
    }
    assert out[..|out|] == out;
    buf[pos] := '\0';
  }

  lemma HexOfZero()
    ensures Hex(0) == []
  {
  }

  /** `gen_gpci`; `picks` are the results of the random generator. */
  method GenGpci(buf: array<char>, picks: seq<nat>, factor: word) returns (pos: nat)
    requires buf.Length >= 64 && |picks| == SEED_BYTES
    modifies buf
    ensures pos <= 48 && buf[pos] == '\0'
    ensures factor == 0 ==> buf[..pos] == "0"
    ensures factor != 0 ==> buf[..pos] == Hex(BigEndian(Seed(picks)[..20]) * factor) && pos > 0
    ensures factor == GPCI_FACTOR ==>
      Canonical(buf[..pos]) && HexValue(buf[..pos]) % 1001 == 0 && HexValue(buf[..pos]) > 0
  {
    hide BigEndian, Hex, HexValue, Canonical, Alphanumeric;
    buf[0], buf[1] := '0', '\0';
    if factor == 0 {
      return 1;
    }
    var out := new byte[SEED_BYTES](i requires 0 <= i < SEED_BYTES => Alphanumeric(picks[i] % 36));
    assert out[..] == Seed(picks);
    assert out[..20] == Seed(picks)[..20];
    SeedIsPositive(picks);
    BigNumMul(out, factor);
    pos := PrintHex(out[..], buf);
    ghost var product := BigEndian(Seed(picks)[..20]) * factor;
    Positive(BigEndian(Seed(picks)[..20]), factor);
    HexDenotes(product);
    HexNonempty(product);
    MultipleOf1001(BigEndian(Seed(picks)[..20]));
  }

  lemma Positive(a: nat, b: nat)
    requires a > 0 && b > 0
    ensures a * b > 0
  {
  }

  lemma HexNonempty(n: nat)
    ensures n > 0 ==> Hex(n) != []
  {
  }

  lemma MultipleOf1001(n: nat)
    ensures n * GPCI_FACTOR % 1001 == 0
  {
  }

  // ----- character by character

  /** The alphabet of the seed. */
  lemma AlphanumericIs(k: nat)
    requires k < 36
    ensures Alphanumeric(k) == "0123456789ABCDEFGHIJKLMNOPQRSTUVWXYZ"[k] as int
  {
  }

  /** The digits that are printed, and what they are worth. */
  lemma HexDigitIs(d: nat)
    requires d < 16
    ensures HexDigit(d) == "0123456789ABCDEF"[d] && DigitValue("0123456789ABCDEF"[d]) == d
  {
  }

  /** Octets are read with the most significant one first. */
  lemma BigEndianIs(s: seq<byte>, b: byte)
    ensures BigEndian([b] + s) == b * Power256(|s|) + BigEndian(s)
    ensures BigEndian([0x12, 0x34, 0x56]) == 0x12_3456
  {
    BigEndianLead(s, b);
    assert [0x12, 0x34, 0x56][..2] == [0x12, 0x34] && [0x12, 0x34][..1] == [0x12] && [0x12][..0] == [];
  }

  function Power256(n: nat): nat {
    if n == 0 then 1 else 256 * Power256(n - 1)
  }

  lemma {:induction false} BigEndianLead(s: seq<byte>, b: byte)
    ensures BigEndian([b] + s) == b * Power256(|s|) + BigEndian(s)
    decreases |s|
  {
    if s == [] {
      assert [b] + s == [b] && [b][..0] == [];
    } else {
      var front := s[..|s| - 1];
      assert ([b] + s)[..|s|] == [b] + front;
      BigEndianLead(front, b);
      assert b * Power256(|s|) == 256 * (b * Power256(|front|));
    }
  }

  /** The text of a small number. */
  lemma HexOfNumber()
    ensures Hex(0x2F_0A) == "2F0A" && Hex(0) == "" && GPCI_FACTOR == 1001
  {
    hide HexDigit;
    HexDigitIs(2);
    HexDigitIs(15);
    HexDigitIs(0);
    HexDigitIs(10);
    HexStep(0x2F0, 0xA);
    HexStep(0x2F, 0);
    HexStep(2, 0xF);
    HexStep(0, 2);
    assert Hex(0) == [];
  }

  /** Each octet of the seed is picked from the alphabet. */
  lemma SeedIs(picks: seq<nat>, i: nat)
    requires |picks| == 24 && i < 24
    ensures Seed(picks)[i] == "0123456789ABCDEFGHIJKLMNOPQRSTUVWXYZ"[picks[i] % 36] as int
  {
    AlphanumericIs(picks[i] % 36);
  }
}
