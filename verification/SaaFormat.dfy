/** The archive layout: header, data area, enciphered entry table, signature; and the chains of "previous" links. */
module SaaFormat {
  import opened Words
  import opened Xtea

  const SAA_ID: nat := 0x83433
  const SAA_VERSION: nat := 2
  const FAKE_BYTES: nat := 248
  const HEADER_BYTES: nat := 256
  const ENTRY_COUNT: nat := 256
  const TABLE_BYTES: nat := 2048
  const BLOCK_BYTES: nat := 2048
  const KEY_BYTES: nat := 16
  const OBFUSCATE_KEY: word := 0xC103D3E7
  const SIZE_LIMIT: nat := 0x100_0000

  const TABLE_KEY_OBFUSCATED: seq<byte> :=
    [0xB9, 0xEA, 0x40, 0x0A, 0xA3, 0x1F, 0x01, 0x23, 0xB0, 0xEA, 0x46, 0x64, 0x78, 0xAF, 0x50, 0x80]

  type size24 = n: int | 0 <= n < SIZE_LIMIT

  datatype Layout = Layout(headerSize: nat, entryOffset: nat, signatureOffset: nat, signatureSize: nat, invalid: byte)

  datatype Entry = Entry(hash: word, previous: byte, size: size24)

  /** Bytes occupied by a file of `size` octets. */
  function Rounded(size: nat): (r: nat)
    ensures size <= r < size + BLOCK_BYTES && r % BLOCK_BYTES == 0
  {
    (size + (BLOCK_BYTES - 1)) / BLOCK_BYTES * BLOCK_BYTES
  }

  function ParseLayout(data: seq<byte>): (r: Option<Layout>)
    ensures r.Some? ==>
      && r.value.headerSize == HEADER_BYTES <= r.value.entryOffset
      && (r.value.entryOffset - HEADER_BYTES) % BLOCK_BYTES == 0
      && r.value.entryOffset + TABLE_BYTES == r.value.signatureOffset
      && r.value.signatureOffset + r.value.signatureSize == |data|
      && 0 < r.value.signatureSize < 0x100
  {
    if |data| < HEADER_BYTES + TABLE_BYTES + 8 then None else
    var xorKey := LoadLe32(data, HEADER_BYTES - 4);
    var id := Xor(LoadLe32(data, HEADER_BYTES - 8), xorKey);
    if id % 0x10_0000 != SAA_ID || id / 0x10_0000 % 8 != SAA_VERSION then None else
    var signatureSize := id / 0x80_0000 % 0x100;
    if signatureSize == 0 || signatureSize > |data| - HEADER_BYTES - TABLE_BYTES then None else
    var signatureOffset := |data| - signatureSize;
    var entryOffset := signatureOffset - TABLE_BYTES;
    if entryOffset < HEADER_BYTES || (entryOffset - HEADER_BYTES) % BLOCK_BYTES != 0 then None else
    Some(Layout(HEADER_BYTES, entryOffset, signatureOffset, signatureSize, xorKey / 32 % 0x100))
  }

  function Unobfuscate(value: word): word {
    var x := Xor(value, OBFUSCATE_KEY);
    x / 0x8_0000 + x % 0x8_0000 * 0x2000
  }

  function Obfuscate(value: word): word {
    Xor(value % 0x2000 * 0x8_0000 + value / 0x2000, OBFUSCATE_KEY)
  }

  lemma ObfuscationInverts(value: word)
    ensures Unobfuscate(Obfuscate(value)) == value && Obfuscate(Unobfuscate(value)) == value
  {
    hide Xor;
    var rotated: word := value % 0x2000 * 0x8_0000 + value / 0x2000;
    XorTwice(rotated, OBFUSCATE_KEY);
    assert rotated / 0x8_0000 == value % 0x2000 && rotated % 0x8_0000 == value / 0x2000;
    var x := Xor(value, OBFUSCATE_KEY);
    XorTwice(value, OBFUSCATE_KEY);
    var u := Unobfuscate(value);
    assert u % 0x2000 == x / 0x8_0000 && u / 0x2000 == x % 0x8_0000;
  }

  function DecodeEntry(w0: word, w1: word): Entry {
    var decoded := Xor(Unobfuscate(w1), w0);
    Entry(w0, decoded % 0x100, decoded / 0x100)
  }

  function EncodedLink(e: Entry): word {
    Obfuscate(Xor(e.size * 0x100 + e.previous, e.hash))
  }

  lemma EntryRoundTrip(e: Entry)
    ensures DecodeEntry(e.hash, EncodedLink(e)) == e
  {
    hide Xor, Obfuscate, Unobfuscate;
    var plain: word := e.size * 0x100 + e.previous;
    ObfuscationInverts(Xor(plain, e.hash));
    XorTwice(plain, e.hash);
  }

  function EntryAt(table: seq<byte>, i: nat): Entry
    requires 8 * i + 8 <= |table|
  {
    DecodeEntry(LoadLe32(table, 8 * i), LoadLe32(table, 8 * i + 4))
  }

  type Table = t: seq<Entry> | |t| == 256 witness seq(256, _ => Entry(0, 0, 0))

  function Entries(table: seq<byte>): Table
    requires |table| == TABLE_BYTES
  {
    seq(ENTRY_COUNT, i requires 0 <= i < ENTRY_COUNT => EntryAt(table, i))
  }

  function EntryBytes(e: Entry): (s: seq<byte>)
    ensures |s| == 8
  {
    StoreLe32(e.hash) + StoreLe32(EncodedLink(e))
  }

  function TableBytes(t: seq<Entry>): (s: seq<byte>)
    ensures |s| == 8 * |t|
  {
    if t == [] then [] else TableBytes(t[..|t| - 1]) + EntryBytes(t[|t| - 1])
  }

  lemma {:induction false} TableSlice(t: seq<Entry>, i: nat)
    requires i < |t|
    ensures TableBytes(t)[8 * i..8 * i + 8] == EntryBytes(t[i])
  {
    hide EntryBytes;
    var last := |t| - 1;
    if i < last {
      TableSlice(t[..last], i);
      assert TableBytes(t)[8 * i..8 * i + 8] == TableBytes(t[..last])[8 * i..8 * i + 8];
    }
  }

  /** The table is recovered from its bytes, entry by entry. */
  lemma TableRoundTrip(t: Table)
    ensures Entries(TableBytes(t)) == t
  {
    hide TableBytes, DecodeEntry, EncodedLink, Le32, StoreLe32;
    var s := TableBytes(t);
    forall i | 0 <= i < ENTRY_COUNT
      ensures EntryAt(s, i) == t[i]
    {
      TableSlice(t, i);
      var e := EntryBytes(t[i]);
      assert s[8 * i..8 * i + 4] == s[8 * i..8 * i + 8][..4] == e[..4];
      assert s[8 * i + 4..8 * i + 8] == s[8 * i..8 * i + 8][4..] == e[4..];
      LoadStored(s, 8 * i, t[i].hash);
      LoadStored(s, 8 * i + 4, EncodedLink(t[i]));
      EntryRoundTrip(t[i]);
    }
  }

  /** `tea_load_key` */
  function LoadKey(bytes: seq<byte>, xorKey: byte): Key
    requires |bytes| == KEY_BYTES
  {
    var d := seq(KEY_BYTES, i requires 0 <= i < KEY_BYTES => XorByte(bytes[i], xorKey));
    [LoadLe32(d, 0), LoadLe32(d, 4), LoadLe32(d, 8), LoadLe32(d, 12)]
  }

  function TableKey(): Key {
    LoadKey(TABLE_KEY_OBFUSCATED, 0xAA)
  }

  /** Each file has its own key: sixteen bytes of the plain table, at a place given by its hash. */
  function FileKey(table: seq<byte>, hash: word): Key
    requires |table| == TABLE_BYTES
  {
    var offset := hash % (TABLE_BYTES - KEY_BYTES);
    LoadKey(table[offset..offset + KEY_BYTES], 0)
  }

  // ----- chains of previous links

  predicate Sound(t: Table, i: byte) {
    t[i].previous != i && t[i].size != 0
  }

  /** `path` lists the entries met from `from` on, up to the invalid index. */
  predicate Links(t: Table, invalid: byte, from: byte, path: seq<byte>)
    decreases |path|
  {
    if from == invalid then path == []
    else path != [] && path[0] == from && Sound(t, from) && Links(t, invalid, t[from].previous, path[1..])
  }

  /** `path` is the chain of predecessors of entry `i`. */
  predicate Chain(t: Table, invalid: byte, i: byte, path: seq<byte>) {
    Sound(t, i) && Links(t, invalid, t[i].previous, path)
  }

  function Extent(t: Table, path: seq<byte>): nat {
    if path == [] then 0 else Rounded(t[path[0]].size) + Extent(t, path[1..])
  }

  predicate FirstMatch(t: Table, hash: word, i: nat) {
    i < ENTRY_COUNT && t[i].hash == hash && forall j :: 0 <= j < i ==> t[j].hash != hash
  }

  datatype File = File(hash: word, size: size24, offset: nat, index: byte)

  /**
   * `f` is the file with its hash: first entry with that hash, data after all its predecessors, inside the data area.
   */
  predicate Located(t: Table, l: Layout, f: File, path: seq<byte>) {
    && FirstMatch(t, f.hash, f.index)
    && Chain(t, l.invalid, f.index, path)
    && f.size == t[f.index].size
    && f.offset == l.headerSize + Extent(t, path)
    && f.offset + Rounded(f.size) <= l.entryOffset
  }

  lemma {:induction false} LinksUnique(t: Table, invalid: byte, from: byte, p: seq<byte>, q: seq<byte>)
    requires Links(t, invalid, from, p) && Links(t, invalid, from, q)
    ensures p == q
    decreases |p|
  {
    if from != invalid {
      LinksUnique(t, invalid, t[from].previous, p[1..], q[1..]);
    }
  }

  /** What follows an entry on a chain is that entry's own chain. */
  lemma {:induction false} ChainSuffix(t: Table, invalid: byte, from: byte, path: seq<byte>, k: nat)
    requires Links(t, invalid, from, path) && k < |path|
    ensures Chain(t, invalid, path[k], path[k + 1..]) && path[k] != invalid
    decreases k
  {
    if k > 0 {
      ChainSuffix(t, invalid, t[from].previous, path[1..], k - 1);
      assert path[1..][k..] == path[k + 1..];
    }
  }

  /** A chain never meets an entry twice, and never meets the entry it belongs to, although nothing marks that one. */
  lemma ChainIsSimple(t: Table, invalid: byte, i: byte, path: seq<byte>)
    requires Chain(t, invalid, i, path)
    ensures forall j, k :: 0 <= j < k < |path| ==> path[j] != path[k]
    ensures i !in path
  {
    forall j, k | 0 <= j < k < |path|
      ensures path[j] != path[k]
    {
      ChainSuffix(t, invalid, t[i].previous, path, j);
      ChainSuffix(t, invalid, t[i].previous, path, k);
      if path[j] == path[k] {
        LinksUnique(t, invalid, t[path[j]].previous, path[j + 1..], path[k + 1..]);
      }
    }
    forall k | 0 <= k < |path|
      ensures path[k] != i
    {
      ChainSuffix(t, invalid, t[i].previous, path, k);
      if path[k] == i {
        LinksUnique(t, invalid, t[i].previous, path, path[k + 1..]);
      }
    }
  }

  /** The search has one answer. */
  lemma LocatedUnique(t: Table, l: Layout, f: File, p: seq<byte>, g: File, q: seq<byte>)
    requires Located(t, l, f, p) && Located(t, l, g, q) && f.hash == g.hash
    ensures f == g && p == q
  {
    assert t[f.index].hash == t[g.index].hash == f.hash;
    LinksUnique(t, l.invalid, t[f.index].previous, p, q);
  }

  lemma {:induction false} ExtentSplit(t: Table, path: seq<byte>, k: nat)
    requires k < |path|
    ensures Extent(t, path[k..]) == Rounded(t[path[k]].size) + Extent(t, path[k + 1..])
    ensures Extent(t, path[k..]) <= Extent(t, path)
    decreases k
  {
    hide Rounded;
    if k > 0 {
      ExtentSplit(t, path[1..], k - 1);
      assert path[1..][k - 1..] == path[k..] && path[1..][k..] == path[k + 1..];
    } else {
      assert path[0..] == path;
    }
  }

  /** The place given to the `k`-th predecessor on a chain. */
  function Predecessor(t: Table, l: Layout, path: seq<byte>, k: nat): File
    requires k < |path|
  {
    File(t[path[k]].hash, t[path[k]].size, l.headerSize + Extent(t, path[k + 1..]), path[k])
  }

  /**
   * The extents along the chain of a located file tile the data area: each predecessor ends where its successor
   * begins, the last one begins at the header, and all end before the table. Each of them is itself located exactly
   * when it is the first entry with its hash.
   */
  lemma PredecessorsTile(t: Table, l: Layout, f: File, path: seq<byte>, k: nat)
    requires Located(t, l, f, path) && k < |path|
    ensures var p := Predecessor(t, l, path, k);
            && p.offset + Rounded(p.size) == (if k == 0 then f.offset else Predecessor(t, l, path, k - 1).offset)
            && (k == |path| - 1 ==> p.offset == l.headerSize)
            && p.offset + Rounded(p.size) <= l.entryOffset
            && (Located(t, l, p, path[k + 1..]) <==> FirstMatch(t, p.hash, p.index))
  {
    ChainSuffix(t, l.invalid, t[f.index].previous, path, k);
    ExtentSplit(t, path, k);
    assert path[0..] == path;
  }

  /** A table with a duplicate hash: the file at entry 2 is located, its predecessor at entry 1 is hidden by entry 0. */
  lemma HiddenPredecessor(l: Layout) returns (t: Table, f: File)
    requires l.invalid == 255 && l.headerSize + 2 * BLOCK_BYTES <= l.entryOffset
    ensures Located(t, l, f, [1]) && !Located(t, l, Predecessor(t, l, [1], 0), [])
    ensures t[0].hash == t[1].hash
  {
    t := seq(256, i => if i < 2 then Entry(7, 255, 1) else if i == 2 then Entry(9, 1, 1) else Entry(0, 0, 0));
    f := File(9, 1, l.headerSize + BLOCK_BYTES, 2);
    assert Rounded(1) == BLOCK_BYTES;
    assert Links(t, 255, 1, [1]) by { assert [1][1..] == []; }
    assert Extent(t, [1]) == BLOCK_BYTES by { assert [1][1..] == []; }
    assert t[0].hash == 7 && FirstMatch(t, 9, 2);
  }

  // ----- the walk, one step at a time

  /** Walking from `from` along `walked` leads to `to`. */
  predicate Reaches(t: Table, invalid: byte, from: byte, walked: seq<byte>, to: byte)
    decreases |walked|
  {
    if walked == [] then from == to
    else
      && from != invalid && walked[0] == from && Sound(t, from)
      && Reaches(t, invalid, t[from].previous, walked[1..], to)
  }

  lemma {:induction false} ReachesStep(t: Table, invalid: byte, from: byte, walked: seq<byte>, to: byte)
    requires Reaches(t, invalid, from, walked, to) && to != invalid && Sound(t, to)
    ensures Reaches(t, invalid, from, walked + [to], t[to].previous)
    ensures Extent(t, walked + [to]) == Extent(t, walked) + Rounded(t[to].size)
    decreases |walked|
  {
    hide Rounded;
    if walked != [] {
      ReachesStep(t, invalid, t[from].previous, walked[1..], to);
      assert (walked + [to])[1..] == walked[1..] + [to];
    }
  }

  /** Every complete chain continues whatever has been walked so far. */
  lemma {:induction false} LinksContinue(t: Table, invalid: byte, from: byte, walked: seq<byte>, to: byte,
                                         path: seq<byte>)
    requires Reaches(t, invalid, from, walked, to)
    ensures Links(t, invalid, from, path) <==>
            |walked| <= |path| && path[..|walked|] == walked && Links(t, invalid, to, path[|walked|..])
    ensures |walked| <= |path| && path[..|walked|] == walked ==>
            Extent(t, path) == Extent(t, walked) + Extent(t, path[|walked|..])
    decreases |walked|
  {
    hide Rounded;
    if walked == [] {
      assert path[0..] == path;
    } else if path != [] {
      LinksContinue(t, invalid, t[from].previous, walked[1..], to, path[1..]);
      if |walked| <= |path| {
        assert path[1..][|walked| - 1..] == path[|walked|..];
        assert path[1..][..|walked| - 1] == path[..|walked|][1..];
        assert path[..|walked|] == walked <==> path[0] == walked[0] && path[..|walked|][1..] == walked[1..];
      }
    }
  }

  /** A located file: the first entry with its hash, neither empty nor its own predecessor, behind the others. */
  lemma LocatedMeans(t: Table, l: Layout, f: File, path: seq<byte>)
    requires Located(t, l, f, path)
    ensures t[f.index].hash == f.hash && t[f.index].size == f.size && forall j | 0 <= j < f.index :: t[j].hash != f.hash
    ensures f.size > 0 && t[f.index].previous != f.index
    ensures forall k | 0 <= k < |path| :: t[path[k]].size > 0 && t[path[k]].previous != path[k] && path[k] != l.invalid
    ensures if path == [] then t[f.index].previous == l.invalid && f.offset == l.headerSize
            else path[0] == t[f.index].previous && t[path[|path| - 1]].previous == l.invalid
    ensures forall k | 0 <= k < |path| - 1 :: path[k + 1] == t[path[k]].previous
  {
    hide Rounded, Extent;
    forall k | 0 <= k < |path|
      ensures t[path[k]].size > 0 && t[path[k]].previous != path[k] && path[k] != l.invalid
      ensures k < |path| - 1 ==> path[k + 1] == t[path[k]].previous
      ensures k == |path| - 1 ==> t[path[k]].previous == l.invalid
    {
      ChainSuffix(t, l.invalid, t[f.index].previous, path, k);
    }
    if path == [] {
      assert Extent(t, path) == 0 by { NoExtent(t); }
    }
  }

  lemma NoExtent(t: Table)
    ensures Extent(t, []) == 0
  {
  }
}
