/** The archive's file-name hash: a three-word mix absorbing twelve octets at a time. */
module NameHash {
  import opened Words

  const HASH_INIT: word := 0x9E3779B9
  const HASH_SEED: word := 0x12345678
  const NAME_CAPACITY: nat := 260

  datatype Triple = Triple(a: word, b: word, c: word)

  /** One of the three rounds of the mix; `f`, `g` and `h` are its shifts. */
  function Round(t: Triple, f: word -> word, g: word -> word, h: word -> word): Triple {
    var a := Xor(Sub(Sub(t.a, t.b), t.c), f(t.c));
    var b := Xor(Sub(Sub(t.b, t.c), a), g(a));
    Triple(a, b, Xor(Sub(Sub(t.c, a), b), h(b)))
  }

  function UndoRound(t: Triple, f: word -> word, g: word -> word, h: word -> word): Triple {
    var c := Add(Add(Xor(t.c, h(t.b)), t.b), t.a);
    var b := Add(Add(Xor(t.b, g(t.a)), t.a), c);
    Triple(Add(Add(Xor(t.a, f(c)), c), b), b, c)
  }

  function Shr(k: nat): word -> word { (x: word) => ShiftRight(x, k) }

  function Shl(k: nat): word -> word { (x: word) => ShiftLeft(x, k) }

  function Mix(t: Triple): Triple {
    Round(Round(Round(t, Shr(13), Shl(8), Shr(13)), Shr(12), Shl(16), Shr(5)), Shr(3), Shl(10), Shr(15))
  }

  function Unmix(t: Triple): Triple {
    UndoRound(UndoRound(UndoRound(t, Shr(3), Shl(10), Shr(15)), Shr(12), Shl(16), Shr(5)), Shr(13), Shl(8), Shr(13))
  }

  lemma AddSubTwice(x: word, y: word, z: word)
    ensures Add(Add(Sub(Sub(x, y), z), z), y) == x
    ensures Sub(Sub(Add(Add(x, y), z), z), y) == x
  {
    hide Add, Sub;
    AddSub(Sub(x, y), z);
    AddSub(Add(x, y), z);
    AddSub(x, y);
  }

  lemma RoundInverts(t: Triple, f: word -> word, g: word -> word, h: word -> word)
    ensures UndoRound(Round(t, f, g, h), f, g, h) == t
    ensures Round(UndoRound(t, f, g, h), f, g, h) == t
  {
    hide Xor, Add, Sub;
    var r := Round(t, f, g, h);
    XorTwice(Sub(Sub(t.c, r.a), r.b), h(r.b));
    XorTwice(Sub(Sub(t.b, t.c), r.a), g(r.a));
    XorTwice(Sub(Sub(t.a, t.b), t.c), f(t.c));
    var u := UndoRound(t, f, g, h);
    XorTwice(t.a, f(u.c));
    XorTwice(t.b, g(t.a));
    XorTwice(t.c, h(t.b));
    AddSubTwice(t.c, r.a, r.b);
    AddSubTwice(t.b, t.c, r.a);
    AddSubTwice(t.a, t.b, t.c);
    AddSubTwice(Xor(t.c, h(t.b)), t.b, t.a);
    AddSubTwice(Xor(t.b, g(t.a)), t.a, u.c);
    AddSubTwice(Xor(t.a, f(u.c)), u.c, u.b);
  }

  /** The mix is a bijection on triples of words. */
  lemma MixIsBijective(t: Triple)
    ensures Unmix(Mix(t)) == t && Mix(Unmix(t)) == t
  {
    hide Round, UndoRound, Shl, Shr;
    var f, g := Round(t, Shr(13), Shl(8), Shr(13)), UndoRound(t, Shr(3), Shl(10), Shr(15));
    RoundInverts(t, Shr(13), Shl(8), Shr(13));
    RoundInverts(f, Shr(12), Shl(16), Shr(5));
    RoundInverts(Round(f, Shr(12), Shl(16), Shr(5)), Shr(3), Shl(10), Shr(15));
    RoundInverts(t, Shr(3), Shl(10), Shr(15));
    RoundInverts(g, Shr(12), Shl(16), Shr(5));
    RoundInverts(UndoRound(g, Shr(12), Shl(16), Shr(5)), Shr(13), Shl(8), Shr(13));
  }

  /** `hash_mix`, statement by statement. */
  method HashMix(t: Triple) returns (r: Triple)
    ensures r == Mix(t)
  {
    hide Xor, Sub, ShiftRight, ShiftLeft;
    var a, b, c := t.a, t.b, t.c;
    a := Sub(a, b);
    a := Sub(a, c);
    a := Xor(a, ShiftRight(c, 13));
    b := Sub(b, c);
    b := Sub(b, a);
    b := Xor(b, ShiftLeft(a, 8));
    c := Sub(c, a);
    c := Sub(c, b);
    c := Xor(c, ShiftRight(b, 13));
    assert Triple(a, b, c) == Round(t, Shr(13), Shl(8), Shr(13));
    a := Sub(a, b);
    a := Sub(a, c);
    a := Xor(a, ShiftRight(c, 12));
    b := Sub(b, c);
    b := Sub(b, a);
    b := Xor(b, ShiftLeft(a, 16));
    c := Sub(c, a);
    c := Sub(c, b);
    c := Xor(c, ShiftRight(b, 5));
    a := Sub(a, b);
    a := Sub(a, c);
    a := Xor(a, ShiftRight(c, 3));
    b := Sub(b, c);
    b := Sub(b, a);
    b := Xor(b, ShiftLeft(a, 10));
    c := Sub(c, a);
    c := Sub(c, b);
    c := Xor(c, ShiftRight(b, 15));
    r := Triple(a, b, c);
  }

  /** Absorbing a full block of twelve octets. */
  function Absorb(t: Triple, block: seq<byte>): Triple
    requires |block| == 12
  {
    Mix(Triple(Add(t.a, LoadLe32(block, 0)), Add(t.b, LoadLe32(block, 4)), Add(t.c, LoadLe32(block, 8))))
  }

  function AbsorbAll(t: Triple, s: seq<byte>): Triple
    decreases |s|
  {
    hide Absorb;
    if |s| < 12 then t else AbsorbAll(Absorb(t, s[..12]), s[12..])
  }

  function Zeros(n: nat): (s: seq<byte>)
    ensures |s| == n && forall b <- s :: b == 0
  {
    seq(n, _ => 0)
  }

  /** The last, incomplete block: zero-padded, octets 8 to 10 moved up by one. */
  function LastBlock(s: seq<byte>): (block: seq<byte>)
    requires |s| < 12
    ensures |block| == 12
  {
    if |s| <= 8 then s + Zeros(12 - |s|) else s[..8] + [0] + s[8..] + Zeros(11 - |s|)
  }

  function Tail(s: seq<byte>): seq<byte> {
    s[|s| / 12 * 12..]
  }

  /** Reference hash: every block, including the padded last one, is absorbed the same way. */
  function Hash(s: seq<byte>): word {
    var t := AbsorbAll(Triple(HASH_INIT, HASH_INIT, HASH_SEED), s);
    Absorb(t.(c := Add(t.c, |s| % W)), LastBlock(Tail(s))).c
  }

  /** Octet `i` of the tail moved to bit `8 * k`, or nothing when the tail is shorter. */
  function Piece(s: seq<byte>, i: nat, k: nat): word
    requires k < 4
  {
    if i >= |s| then 0
    else if k == 0 then s[i]
    else if k == 1 then (s[i] as int) * 0x100
    else if k == 2 then (s[i] as int) * 0x1_0000
    else (s[i] as int) * 0x100_0000
  }

  lemma LastBlockWords(s: seq<byte>)
    requires |s| < 12
    ensures LoadLe32(LastBlock(s), 0) == Piece(s, 0, 0) + Piece(s, 1, 1) + Piece(s, 2, 2) + Piece(s, 3, 3)
    ensures LoadLe32(LastBlock(s), 4) == Piece(s, 4, 0) + Piece(s, 5, 1) + Piece(s, 6, 2) + Piece(s, 7, 3)
    ensures LoadLe32(LastBlock(s), 8) == Piece(s, 8, 1) + Piece(s, 9, 2) + Piece(s, 10, 3)
  {
    var b := LastBlock(s);
    assert forall i | 0 <= i < 8 :: b[i] == if i < |s| then s[i] else 0;
    assert b[8] == 0;
    assert forall i | 8 <= i < 11 :: b[i + 1] == if i < |s| then s[i] else 0;
  }

  /** Adding the octets from the most significant one down is adding the word they make. */
  lemma AddPieces(x: word, p3: word, p2: word, p1: word, p0: word)
    requires p0 + p1 + p2 + p3 < W
    ensures Add(Add(Add(Add(x, p3), p2), p1), p0) == Add(x, p0 + p1 + p2 + p3)
  {
    hide Add;
    AddTwice(x, p3, p2);
    AddTwice(x, p3 + p2, p1);
    AddTwice(x, p3 + p2 + p1, p0);
  }

  /** Absorbing the block at an offset. */
  lemma OneBlock(t: Triple, bytes: seq<byte>, offset: nat)
    requires offset + 12 <= |bytes|
    ensures AbsorbAll(t, bytes[offset..]) ==
            AbsorbAll(Mix(Triple(Add(t.a, LoadLe32(bytes, offset)), Add(t.b, LoadLe32(bytes, offset + 4)),
                                 Add(t.c, LoadLe32(bytes, offset + 8)))), bytes[offset + 12..])
  {
    hide Add, Mix, Le32;
    var block := bytes[offset..offset + 12];
    assert bytes[offset..][..12] == block && bytes[offset..][12..] == bytes[offset + 12..];
    assert LoadLe32(block, 0) == LoadLe32(bytes, offset);
    assert LoadLe32(block, 4) == LoadLe32(bytes, offset + 4);
    assert LoadLe32(block, 8) == LoadLe32(bytes, offset + 8);
  }

  lemma TailAt(bytes: seq<byte>, offset: nat)
    requires offset % 12 == 0 && offset <= |bytes| < offset + 12
    ensures bytes[offset..] == Tail(bytes)
  {
    assert |bytes| / 12 * 12 == offset;
  }

  lemma NoBlock(t: Triple, s: seq<byte>)
    requires |s| < 12
    ensures AbsorbAll(t, s) == t
  {
  }

  /** `hash_bytes`: a loop over whole blocks and a switch whose cases fall through. */
  method HashBytes(bytes: seq<byte>) returns (h: word)
    ensures h == Hash(bytes)
  {
    hide Add, Mix, Le32, LastBlock, Piece, Absorb, AbsorbAll, Tail;
    var t := Triple(HASH_INIT, HASH_INIT, HASH_SEED);
    var offset := 0;
    assert bytes[0..] == bytes;
    while |bytes| - offset >= 12
      invariant 0 <= offset <= |bytes| && offset % 12 == 0
      invariant AbsorbAll(t, bytes[offset..]) == AbsorbAll(Triple(HASH_INIT, HASH_INIT, HASH_SEED), bytes)
    {
      OneBlock(t, bytes, offset);
      t := HashMix(Triple(Add(t.a, LoadLe32(bytes, offset)), Add(t.b, LoadLe32(bytes, offset + 4)),
                          Add(t.c, LoadLe32(bytes, offset + 8))));
      offset := offset + 12;
    }
    var rest := bytes[offset..];
    TailAt(bytes, offset);
    NoBlock(t, rest);
    h := HashTail(t.(c := Add(t.c, |bytes| % W)), rest);
  }

  lemma AddNothing(x: word)
    ensures Add(x, 0) == x
  {
  }

  /** The switch on the remaining length: case `n` handles octet `n - 1` and falls through to the next. */
  method HashTail(t: Triple, rest: seq<byte>) returns (h: word)
    requires |rest| < 12
    ensures h == Absorb(t, LastBlock(rest)).c
  {
    hide Mix, Le32, LastBlock, Add;
    LastBlockWords(rest);
    forall x: word
      ensures Add(x, 0) == x
    {
      AddNothing(x);
    }
    var a, b, c := t.a, t.b, t.c;
    if |rest| >= 11 { c := Add(c, (rest[10] as int) * 0x100_0000); }
    if |rest| >= 10 { c := Add(c, (rest[9] as int) * 0x1_0000); }
    if |rest| >= 9 { c := Add(c, (rest[8] as int) * 0x100); }
    AddPieces(t.c, Piece(rest, 10, 3), Piece(rest, 9, 2), Piece(rest, 8, 1), 0);
    assert c == Add(t.c, LoadLe32(LastBlock(rest), 8));
    if |rest| >= 8 { b := Add(b, (rest[7] as int) * 0x100_0000); }
    if |rest| >= 7 { b := Add(b, (rest[6] as int) * 0x1_0000); }
    if |rest| >= 6 { b := Add(b, (rest[5] as int) * 0x100); }
    if |rest| >= 5 { b := Add(b, rest[4]); }
    AddPieces(t.b, Piece(rest, 7, 3), Piece(rest, 6, 2), Piece(rest, 5, 1), Piece(rest, 4, 0));
    assert b == Add(t.b, LoadLe32(LastBlock(rest), 4));
    if |rest| >= 4 { a := Add(a, (rest[3] as int) * 0x100_0000); }
    if |rest| >= 3 { a := Add(a, (rest[2] as int) * 0x1_0000); }
    if |rest| >= 2 { a := Add(a, (rest[1] as int) * 0x100); }
    if |rest| >= 1 { a := Add(a, rest[0]); }
    AddPieces(t.a, Piece(rest, 3, 3), Piece(rest, 2, 2), Piece(rest, 1, 1), Piece(rest, 0, 0));
    assert a == Add(t.a, LoadLe32(LastBlock(rest), 0));
    var r := HashMix(Triple(a, b, c));
    h := r.c;
  }

  /** A C string: octets other than the terminator. */
  predicate CString(s: seq<byte>) {
    0 !in s
  }

  function Lower(b: byte): byte {
    if 0x41 <= b <= 0x5A then b + 0x20 else b
  }

  function Lowered(s: seq<byte>): (r: seq<byte>)
    ensures |r| == |s|
  {
    seq(|s|, i requires 0 <= i < |s| => Lower(s[i]))
  }

  predicate Separator(b: byte) {
    b == 0x5C || b == 0x2F
  }

  /** The text after the last separator. */
  function BaseName(path: seq<byte>): seq<byte> {
    if path == [] || Separator(path[|path| - 1]) then []
    else BaseName(path[..|path| - 1]) + [path[|path| - 1]]
  }

  /** `samp_saa_hash_filename` */
  method HashFilename(filename: seq<byte>) returns (h: word)
    requires CString(filename)
    ensures h == if 0 < |filename| <= NAME_CAPACITY then Hash(Lowered(filename)) else 0
  {
    hide Hash;
    var lowered: seq<byte> := [];
    var length := 0;
    while length < |filename| && length < NAME_CAPACITY
      invariant 0 <= length <= |filename| && length <= NAME_CAPACITY
      invariant lowered == Lowered(filename)[..length]
    {
      lowered := lowered + [Lower(filename[length])];
      length := length + 1;
    }
    if length < |filename| || length == 0 {
      return 0;
    }
    assert lowered == Lowered(filename);
    h := HashBytes(lowered);
  }

  /** What `samp_saa_hash_path` reports: the hash, when there is a usable base name with a nonzero hash. */
  function PathHash(path: seq<byte>): Option<word> {
    var name := BaseName(path);
    if 0 < |name| < NAME_CAPACITY && Hash(Lowered(name)) != 0 then Some(Hash(Lowered(name))) else None
  }

  lemma BaseNameAt(path: seq<byte>, base: nat)
    requires base <= |path|
    ensures base == 0 || Separator(path[base - 1]) ==> BaseName(path[..base]) == []
    ensures base > 0 && !Separator(path[base - 1]) ==>
      BaseName(path[..base]) == BaseName(path[..base - 1]) + [path[base - 1]]
  {
    assert base > 0 ==> path[..base][..base - 1] == path[..base - 1];
  }

  method HashPath(path: seq<byte>) returns (r: Option<word>)
    requires CString(path)
    ensures r == PathHash(path)
  {
    hide Hash, Lowered, BaseName, Separator;
    if path == [] {
      BaseNameAt(path, 0);
      return None;
    }
    var base := |path|;
    assert path[..base] == path;
    assert path[base..] == [];
    while base > 0 && !Separator(path[base - 1])
      invariant 0 <= base <= |path|
      invariant BaseName(path) == BaseName(path[..base]) + path[base..]
    {
      assert path[base - 1..] == [path[base - 1]] + path[base..];
      BaseNameAt(path, base);
      base := base - 1;
    }
    BaseNameAt(path, base);
    assert BaseName(path) == path[base..];
    var length := |path| - base;
    if length == 0 || length >= NAME_CAPACITY {
      return None;
    }
    var h := HashFilename(path[base..]);
    r := if h != 0 then Some(h) else None;
  }

  /** The base name is the longest suffix without separators. */
  lemma {:induction false} BaseNameIs(path: seq<byte>, dir: seq<byte>, name: seq<byte>)
    requires path == dir + name
    requires dir == [] || Separator(dir[|dir| - 1])
    requires forall b <- name :: !Separator(b)
    ensures BaseName(path) == name
  {
    if name == [] {
      assert path == dir;
    } else {
      var last := |name| - 1;
      assert path[|path| - 1] == name[last];
      assert path[..|path| - 1] == dir + name[..last];
      BaseNameIs(path[..|path| - 1], dir, name[..last]);
      assert name == name[..last] + [name[last]];
    }
  }

  /** Only upper-case letters are lowered, and each to its lower-case one. */
  lemma LowerIs(b: byte)
    ensures 0x41 <= b <= 0x5A ==> Lower(b) == b + 0x20
    ensures !(0x41 <= b <= 0x5A) ==> Lower(b) == b
  {
  }

  /** Only the text after the last separator counts, and only up to the case of its ASCII letters. */
  lemma PathHashIgnoresDirectoryAndCase(dir: seq<byte>, name: seq<byte>, dir': seq<byte>, name': seq<byte>)
    requires dir == [] || dir[|dir| - 1] in {0x5C, 0x2F}
    requires dir' == [] || dir'[|dir'| - 1] in {0x5C, 0x2F}
    requires forall b <- name + name' :: b !in {0x5C, 0x2F}
    requires |name| == |name'|
    requires forall i | 0 <= i < |name| ::
      || name[i] == name'[i]
      || (0x41 <= name[i] <= 0x5A && name'[i] == name[i] + 0x20)
      || (0x41 <= name'[i] <= 0x5A && name[i] == name'[i] + 0x20)
    ensures PathHash(dir + name) == PathHash(dir' + name')
  {
    hide Hash;
    assert forall b <- name :: b in name + name';
    assert forall b <- name' :: b in name + name';
    BaseNameIs(dir + name, dir, name);
    BaseNameIs(dir' + name', dir', name');
    assert Lowered(name) == Lowered(name');
  }

  /** A path whose base name is empty or does not fit the buffer has no hash; any other has that of its base name. */
  lemma PathHashIs(dir: seq<byte>, name: seq<byte>)
    requires dir == [] || dir[|dir| - 1] in {0x5C, 0x2F}
    requires forall b <- name :: b !in {0x5C, 0x2F}
    ensures PathHash(dir + name)
            == if 1 <= |name| <= 259 && Hash(Lowered(name)) != 0 then Some(Hash(Lowered(name))) else None
  {
    hide Hash;
    BaseNameIs(dir + name, dir, name);
  }
}
