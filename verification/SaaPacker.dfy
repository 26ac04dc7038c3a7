/** A packer written as the inverse of the archive reader, and the proof that the reader gives every file back. */
module SaaPacker {
  import opened Words
  import opened Xtea
  import opened SaaFormat
  import opened SaaArchive

  /** A file to be packed: its name hash, its size, and its octets padded to whole blocks in any way. */
  datatype Member = Member(hash: word, size: size24, body: seq<byte>)

  /**
   * Everything the reader leaves open: the fake header, the key word, the spare bit, the slots, the unused entries,
   * the signature.
   */
  datatype Plan = Plan(fake: seq<byte>, xorKey: word, spare: nat, slots: seq<byte>, filler: Table,
                       signature: seq<byte>) {
    function Invalid(): byte {
      xorKey / 32 % 0x100
    }
  }

  predicate Packable(ms: seq<Member>) {
    && (forall k | 0 <= k < |ms| :: 0 < ms[k].size && |ms[k].body| == Rounded(ms[k].size))
    && (forall j, k | 0 <= j < k < |ms| :: ms[j].hash != ms[k].hash)
  }

  predicate Planned(ms: seq<Member>, p: Plan) {
    && |p.fake| == FAKE_BYTES && p.spare < 2 && 0 < |p.signature| < 0x100
    && |p.slots| == |ms|
    && (forall j, k | 0 <= j < k < |ms| :: p.slots[j] != p.slots[k])
    && (forall k | 0 <= k < |ms| :: p.slots[k] != p.Invalid())
    && (forall i, k | 0 <= i < ENTRY_COUNT && 0 <= k < |ms| :: p.filler[i].hash != ms[k].hash)
  }

  function Hashes(ms: seq<Member>): (s: set<int>)
    ensures |s| <= |ms|
    ensures forall k | 0 <= k < |ms| :: ms[k].hash in s
  {
    if ms == [] then {} else Hashes(ms[..|ms| - 1]) + {ms[|ms| - 1].hash}
  }

  lemma {:induction false} FreshNumber(used: set<int>, n: nat) returns (h: nat)
    requires |used| <= n
    ensures h <= n && h !in used
    decreases n
  {
    if n !in used {
      h := n;
    } else {
      h := FreshNumber(used - {n}, n - 1);
    }
  }

  /** Any collection of at most 255 files can be packed. */
  lemma PlanExists(ms: seq<Member>) returns (p: Plan)
    requires Packable(ms) && |ms| <= 255
    ensures Planned(ms, p)
  {
    var h := FreshNumber(Hashes(ms), 255);
    p := Plan(seq(FAKE_BYTES, _ => 0), 255 * 32, 0, seq(|ms|, k requires 0 <= k < |ms| => k),
              seq(ENTRY_COUNT, _ => Entry(h, 0, 0)), [0]);
  }

  function Id(p: Plan): word
    requires p.spare < 2 && |p.signature| < 0x100
  {
    SAA_ID + 0x10_0000 * SAA_VERSION + 0x80_0000 * |p.signature| + 0x8000_0000 * p.spare
  }

  function Header(p: Plan): (s: seq<byte>)
    requires |p.fake| == FAKE_BYTES && p.spare < 2 && |p.signature| < 0x100
    ensures |s| == HEADER_BYTES
  {
    p.fake + StoreLe32(Xor(Id(p), p.xorKey)) + StoreLe32(p.xorKey)
  }

  function LinkTo(p: Plan, k: nat): byte
    requires k <= |p.slots|
  {
    if k == 0 then p.Invalid() else p.slots[k - 1]
  }

  /** The plain table holding the first `n` members. */
  function PackedTable(ms: seq<Member>, p: Plan, n: nat): Table
    requires n <= |ms| == |p.slots|
  {
    if n == 0 then p.filler
    else PackedTable(ms, p, n - 1)[p.slots[n - 1] := Entry(ms[n - 1].hash, LinkTo(p, n - 1), ms[n - 1].size)]
  }

  function Cipher(m: Member, table: seq<byte>): (s: seq<byte>)
    requires |table| == TABLE_BYTES
    ensures |s| == |m.body|
  {
    Encrypt(m.body, FileKey(table, m.hash))
  }

  function DataArea(ms: seq<Member>, table: seq<byte>): seq<byte>
    requires |table| == TABLE_BYTES
  {
    if ms == [] then [] else DataArea(ms[..|ms| - 1], table) + Cipher(ms[|ms| - 1], table)
  }

  function DataSize(ms: seq<Member>): nat {
    if ms == [] then 0 else DataSize(ms[..|ms| - 1]) + |ms[|ms| - 1].body|
  }

  function Table(ms: seq<Member>, p: Plan): seq<byte>
    requires |ms| == |p.slots|
  {
    TableBytes(PackedTable(ms, p, |ms|))
  }

  function Pack(ms: seq<Member>, p: Plan): seq<byte>
    requires Planned(ms, p)
  {
    Header(p) + DataArea(ms, Table(ms, p)) + Encrypt(Table(ms, p), TableKey()) + p.signature
  }

  /** Where the `k`-th member ends up, and the chain that leads to it. */
  function Placed(ms: seq<Member>, p: Plan, k: nat): File
    requires k < |ms| == |p.slots|
  {
    File(ms[k].hash, ms[k].size, HEADER_BYTES + DataSize(ms[..k]), p.slots[k])
  }

  function PathTo(p: Plan, k: nat): seq<byte>
    requires k <= |p.slots|
  {
    if k == 0 then [] else [p.slots[k - 1]] + PathTo(p, k - 1)
  }

  function PackedLayout(ms: seq<Member>, p: Plan): Layout {
    var entryOffset := HEADER_BYTES + DataSize(ms);
    Layout(HEADER_BYTES, entryOffset, entryOffset + TABLE_BYTES, |p.signature|, p.Invalid())
  }

  lemma {:induction false} DataAreaSize(ms: seq<Member>, table: seq<byte>)
    requires |table| == TABLE_BYTES && Packable(ms)
    ensures |DataArea(ms, table)| == DataSize(ms)
    ensures DataSize(ms) % BLOCK_BYTES == 0 && (ms != [] ==> DataSize(ms) >= BLOCK_BYTES)
    decreases |ms|
  {
    hide Cipher;
    if ms != [] {
      var last := ms[|ms| - 1];
      assert |last.body| == Rounded(last.size) && last.size > 0;
      DataAreaSize(ms[..|ms| - 1], table);
    }
  }

  /** The cipher text of the `k`-th member stands where its predecessors end. */
  lemma {:induction false} DataAreaSlice(ms: seq<Member>, table: seq<byte>, k: nat)
    requires |table| == TABLE_BYTES && Packable(ms) && k < |ms|
    ensures var (at, size) := (DataSize(ms[..k]), |ms[k].body|);
            && at + size <= |DataArea(ms, table)|
            && DataArea(ms, table)[at..at + size] == Cipher(ms[k], table)
    decreases |ms|
  {
    hide Cipher, Rounded;
    var front := ms[..|ms| - 1];
    DataAreaSize(ms, table);
    DataAreaSize(front, table);
    if k < |ms| - 1 {
      assert front[..k] == ms[..k] && front[k] == ms[k];
      DataAreaSlice(front, table, k);
      var (at, size) := (DataSize(ms[..k]), |ms[k].body|);
      assert DataArea(ms, table)[at..at + size] == DataArea(front, table)[at..at + size];
    }
  }

  lemma HeaderWords(ms: seq<Member>, p: Plan)
    requires Planned(ms, p)
    ensures |Pack(ms, p)| >= HEADER_BYTES && Pack(ms, p)[..HEADER_BYTES] == Header(p)
    ensures LoadLe32(Pack(ms, p), HEADER_BYTES - 4) == p.xorKey
    ensures Xor(LoadLe32(Pack(ms, p), HEADER_BYTES - 8), p.xorKey) == Id(p)
  {
    hide Xor, DataArea, Encrypt, TableKey, Table, StoreLe32, Id;
    var data := Pack(ms, p);
    var h := Header(p);
    assert data[..HEADER_BYTES] == h;
    assert data[252..256] == h[252..256] == StoreLe32(p.xorKey);
    assert data[248..252] == h[248..252] == StoreLe32(Xor(Id(p), p.xorKey));
    LoadStored(data, 252, p.xorKey);
    LoadStored(data, 248, Xor(Id(p), p.xorKey));
    XorTwice(Id(p), p.xorKey);
  }

  lemma IdFields(p: Plan)
    requires p.spare < 2 && |p.signature| < 0x100
    ensures Id(p) % 0x10_0000 == SAA_ID && Id(p) / 0x10_0000 % 8 == SAA_VERSION
      && Id(p) / 0x80_0000 % 0x100 == |p.signature|
  {
    var high := SAA_VERSION + 8 * (|p.signature| + 0x100 * p.spare);
    assert Id(p) == SAA_ID + 0x10_0000 * high;
    assert Id(p) / 0x10_0000 == high;
    assert Id(p) / 0x80_0000 == |p.signature| + 0x100 * p.spare;
  }

  lemma PackSize(ms: seq<Member>, p: Plan)
    requires Packable(ms) && Planned(ms, p)
    ensures |Pack(ms, p)| == HEADER_BYTES + DataSize(ms) + TABLE_BYTES + |p.signature|
    ensures DataSize(ms) % BLOCK_BYTES == 0
    ensures if ms == [] then DataSize(ms) == 0 else DataSize(ms) >= BLOCK_BYTES
    ensures 0 < |p.signature| < 0x100 && p.spare < 2 && |p.slots| == |ms|
  {
    assert ms == [] ==> DataSize(ms) == 0;
    hide TableKey, Id, Packable, DataSize;
    DataAreaSize(ms, Table(ms, p));
  }

  lemma InvalidIs(p: Plan)
    ensures p.Invalid() == p.xorKey / 32 % 0x100
  {
  }

  lemma ParseGives(data: seq<byte>, id: word, xorKey: word, dataSize: nat, signatureSize: nat)
    requires |data| == HEADER_BYTES + dataSize + TABLE_BYTES + signatureSize && 0 < signatureSize < 0x100
    requires dataSize % BLOCK_BYTES == 0
    requires LoadLe32(data, HEADER_BYTES - 4) == xorKey && Xor(LoadLe32(data, HEADER_BYTES - 8), xorKey) == id
    requires id % 0x10_0000 == SAA_ID && id / 0x10_0000 % 8 == SAA_VERSION && id / 0x80_0000 % 0x100 == signatureSize
    ensures ParseLayout(data) ==
            if dataSize + signatureSize >= 8
            then Some(Layout(HEADER_BYTES, HEADER_BYTES + dataSize, HEADER_BYTES + dataSize + TABLE_BYTES,
                             signatureSize, xorKey / 32 % 0x100))
            else None
  {
    hide LoadLe32, Xor;
  }

  /** A packed archive is accepted exactly when it holds a file or its signature has at least eight octets. */
  lemma PackedIsAccepted(ms: seq<Member>, p: Plan)
    requires Packable(ms) && Planned(ms, p)
    ensures ParseLayout(Pack(ms, p)) ==
            if ms != [] || |p.signature| >= 8 then Some(PackedLayout(ms, p)) else None
  {
    hide Xor, Packable, Planned, Pack, DataSize, Id, LoadLe32, ParseLayout, Plan.Invalid, Rounded;
    PackSize(ms, p);
    HeaderWords(ms, p);
    IdFields(p);
    ParseGives(Pack(ms, p), Id(p), p.xorKey, DataSize(ms), |p.signature|);
    InvalidIs(p);
  }

  predicate StandsAt(data: seq<byte>, at: nat, piece: seq<byte>) {
    at + |piece| <= |data| && data[at..at + |piece|] == piece
  }

  lemma StandsWithin(data: seq<byte>, from: nat, area: seq<byte>, at: nat, piece: seq<byte>)
    requires StandsAt(data, from, area) && StandsAt(area, at, piece)
    ensures StandsAt(data, from + at, piece)
  {
    var x := data[from + at..from + at + |piece|];
    assert forall i | 0 <= i < |piece| :: x[i] == area[at..at + |piece|][i];
  }

  lemma TableSize(ms: seq<Member>, p: Plan)
    requires Packable(ms) && Planned(ms, p)
    ensures |p.slots| == |ms| && |Table(ms, p)| == TABLE_BYTES
  {
    hide PackedTable;
  }

  lemma Sections(header: seq<byte>, area: seq<byte>, table: seq<byte>, rest: seq<byte>)
    ensures StandsAt(header + area + table + rest, |header|, area)
    ensures StandsAt(header + area + table + rest, |header| + |area|, table)
  {
  }

  lemma PackIs(ms: seq<Member>, p: Plan)
    requires Packable(ms) && Planned(ms, p)
    ensures |p.slots| == |ms| && |Table(ms, p)| == TABLE_BYTES && |p.fake| == FAKE_BYTES && p.spare < 2
      && |p.signature| < 0x100
    ensures Pack(ms, p) == Header(p) + DataArea(ms, Table(ms, p)) + Encrypt(Table(ms, p), TableKey()) + p.signature
  {
    TableSize(ms, p);
    hide Packable, Encrypt, TableKey, DataArea, Table, Header;
  }

  /** The data area follows the header ... */
  lemma AreaStands(ms: seq<Member>, p: Plan)
    requires Packable(ms) && Planned(ms, p)
    ensures StandsAt(Pack(ms, p), HEADER_BYTES, DataArea(ms, Table(ms, p)))
  {
    hide *;
    PackIs(ms, p);
    Sections(Header(p), DataArea(ms, Table(ms, p)), Encrypt(Table(ms, p), TableKey()), p.signature);
  }

  /** ... and the table the data area. */
  lemma TableStands(ms: seq<Member>, p: Plan)
    requires Packable(ms) && Planned(ms, p)
    ensures StandsAt(Pack(ms, p), HEADER_BYTES + DataSize(ms), Encrypt(Table(ms, p), TableKey()))
  {
    hide *;
    PackIs(ms, p);
    DataAreaSize(ms, Table(ms, p));
    Sections(Header(p), DataArea(ms, Table(ms, p)), Encrypt(Table(ms, p), TableKey()), p.signature);
  }

  /** Deciphering the table section gives the plain table back, and its entries with it. */
  lemma PackedTableOpens(ms: seq<Member>, p: Plan)
    requires Packable(ms) && Planned(ms, p)
    ensures var (data, l) := (Pack(ms, p), PackedLayout(ms, p));
            && l.entryOffset + TABLE_BYTES <= |data|
            && PlainTable(data, l) == Table(ms, p)
            && Entries(Table(ms, p)) == PackedTable(ms, p, |ms|)
  {
    hide Packable, Planned, Pack, Encrypt, Decrypt, TableKey, TableBytes, Entries, PackedTable;
    PackSize(ms, p);
    TableStands(ms, p);
    TableSize(ms, p);
    DecryptEncrypt(Table(ms, p), TableKey());
    TableRoundTrip(PackedTable(ms, p, |ms|));
  }

  /** After `n` members the table holds each of them in its slot ... */
  lemma {:induction false} TableHolds(ms: seq<Member>, p: Plan, n: nat, k: nat)
    requires Planned(ms, p) && k < n <= |ms|
    ensures PackedTable(ms, p, n)[p.slots[k]] == Entry(ms[k].hash, LinkTo(p, k), ms[k].size)
    decreases n
  {
    if k < n - 1 {
      assert p.slots[k] != p.slots[n - 1];
      TableHolds(ms, p, n - 1, k);
    }
  }

  /** ... and the filler everywhere else. */
  lemma {:induction false} TableKeepsFiller(ms: seq<Member>, p: Plan, n: nat, i: byte)
    requires Planned(ms, p) && n <= |ms| && i !in p.slots[..n]
    ensures PackedTable(ms, p, n)[i] == p.filler[i]
    decreases n
  {
    if n > 0 {
      assert p.slots[n - 1] == p.slots[..n][n - 1] && p.slots[..n - 1] <= p.slots[..n];
      TableKeepsFiller(ms, p, n - 1, i);
    }
  }

  lemma MemberIsFirst(ms: seq<Member>, p: Plan, k: nat)
    requires Packable(ms) && Planned(ms, p) && k < |ms|
    ensures FirstMatch(PackedTable(ms, p, |ms|), ms[k].hash, p.slots[k])
  {
    hide PackedTable, Rounded;
    var t := PackedTable(ms, p, |ms|);
    TableHolds(ms, p, |ms|, k);
    forall j: byte | j < p.slots[k]
      ensures t[j].hash != ms[k].hash
    {
      if j in p.slots {
        var m :| 0 <= m < |ms| && p.slots[m] == j;
        TableHolds(ms, p, |ms|, m);
        assert m != k;
        assert if m < k then ms[m].hash != ms[k].hash else ms[k].hash != ms[m].hash;
      } else {
        assert p.slots[..|ms|] == p.slots;
        TableKeepsFiller(ms, p, |ms|, j);
      }
    }
  }

  /** The links of the table lead from each member back to the first one, over exactly the data before it. */
  lemma {:induction false} MemberChain(ms: seq<Member>, p: Plan, k: nat)
    requires Packable(ms) && Planned(ms, p) && k <= |ms|
    ensures var t := PackedTable(ms, p, |ms|);
            && Links(t, p.Invalid(), LinkTo(p, k), PathTo(p, k))
            && Extent(t, PathTo(p, k)) == DataSize(ms[..k])
    decreases k
  {
    hide PackedTable, Rounded, Plan.Invalid;
    var t := PackedTable(ms, p, |ms|);
    if k > 0 {
      TableHolds(ms, p, |ms|, k - 1);
      MemberSound(ms, p, k - 1);
      MemberChain(ms, p, k - 1);
      assert PathTo(p, k)[1..] == PathTo(p, k - 1);
      assert ms[..k][..k - 1] == ms[..k - 1];
      assert |ms[k - 1].body| == Rounded(ms[k - 1].size);
    }
  }

  lemma MemberSound(ms: seq<Member>, p: Plan, k: nat)
    requires Packable(ms) && Planned(ms, p) && k < |ms|
    ensures Sound(PackedTable(ms, p, |ms|), p.slots[k]) && p.slots[k] != p.Invalid()
  {
    hide PackedTable, Rounded, Plan.Invalid;
    TableHolds(ms, p, |ms|, k);
    assert ms[k].size > 0;
    if k > 0 {
      assert p.slots[k - 1] != p.slots[k];
    }
  }

  lemma MemberIsLocated(ms: seq<Member>, p: Plan, k: nat)
    requires Packable(ms) && Planned(ms, p) && k < |ms|
    ensures Located(PackedTable(ms, p, |ms|), PackedLayout(ms, p), Placed(ms, p, k), PathTo(p, k))
  {
    MemberIsFirst(ms, p, k);
    MemberChain(ms, p, k);
    MemberSound(ms, p, k);
    TableHolds(ms, p, |ms|, k);
    DataAreaSlice(ms, Table(ms, p), k);
    DataAreaSize(ms, Table(ms, p));
    hide PackedTable, Rounded, DataSize, FirstMatch, Links, Extent, PathTo, DataArea, Cipher, Table;
  }

  lemma CipherStands(ms: seq<Member>, table: seq<byte>, k: nat)
    requires |table| == TABLE_BYTES && Packable(ms) && k < |ms|
    ensures StandsAt(DataArea(ms, table), DataSize(ms[..k]), Cipher(ms[k], table))
    ensures |Cipher(ms[k], table)| == Rounded(ms[k].size) && ms[k].size <= |ms[k].body|
  {
    assert |ms[k].body| == Rounded(ms[k].size) >= ms[k].size;
    hide Packable, DataSize, DataArea, Cipher, Rounded;
    DataAreaSlice(ms, table, k);
  }

  /**
   * The cipher text of a member stands in the archive where the search places the file, and deciphers to its content.
   */
  lemma MemberContent(ms: seq<Member>, p: Plan, k: nat)
    requires Packable(ms) && Planned(ms, p) && k < |ms|
    ensures |p.slots| == |ms| && Placed(ms, p, k).offset + Rounded(ms[k].size) <= |Pack(ms, p)|
    ensures Content(Pack(ms, p), Table(ms, p), Placed(ms, p, k)) == ms[k].body[..ms[k].size]
  {
    hide Table, Pack;
    TableSize(ms, p);
    assert Placed(ms, p, k) == File(ms[k].hash, ms[k].size, HEADER_BYTES + DataSize(ms[..k]), p.slots[k]);
    hide *;
    AreaStands(ms, p);
    CipherStands(ms, Table(ms, p), k);
    StandsWithin(Pack(ms, p), HEADER_BYTES, DataArea(ms, Table(ms, p)), DataSize(ms[..k]), Cipher(ms[k], Table(ms, p)));
    CipherContent(Pack(ms, p), Table(ms, p), Placed(ms, p, k), ms[k]);
  }

  lemma CipherContent(data: seq<byte>, table: seq<byte>, f: File, m: Member)
    requires |table| == TABLE_BYTES && f.hash == m.hash && f.size <= |m.body|
    requires StandsAt(data, f.offset, Cipher(m, table)) && |Cipher(m, table)| == Rounded(f.size)
    ensures f.offset + Rounded(f.size) <= |data| && Content(data, table, f) == m.body[..f.size]
  {
    hide Rounded, Encrypt, Decrypt, FileKey;
    DecryptEncrypt(m.body, FileKey(table, f.hash));
  }

  /** The archive round trip, on the reader's own definitions. */
  lemma RoundTrip(ms: seq<Member>, p: Plan, k: nat)
    requires Packable(ms) && Planned(ms, p) && k < |ms|
    ensures |p.slots| == |ms|
    ensures var (data, l, f) := (Pack(ms, p), PackedLayout(ms, p), Placed(ms, p, k));
            && ParseLayout(data) == Some(l)
            && l.entryOffset + TABLE_BYTES <= |data| && f.offset + Rounded(f.size) <= |data|
            && Located(Entries(PlainTable(data, l)), l, f, PathTo(p, k))
            && Content(data, PlainTable(data, l), f) == ms[k].body[..ms[k].size]
  {
    PackedIsAccepted(ms, p);
    PackedTableOpens(ms, p);
    MemberIsLocated(ms, p, k);
    MemberContent(ms, p, k);
  }

  /** No other file answers to the hash of a packed one. */
  lemma OnlyPlaced(ms: seq<Member>, p: Plan, k: nat, f: File, path: seq<byte>)
    requires Packable(ms) && Planned(ms, p) && k < |ms|
    requires PackedLayout(ms, p).entryOffset + TABLE_BYTES <= |Pack(ms, p)|
    requires Located(Entries(PlainTable(Pack(ms, p), PackedLayout(ms, p))), PackedLayout(ms, p), f, path)
    requires f.hash == ms[k].hash
    ensures f == Placed(ms, p, k)
  {
    RoundTrip(ms, p, k);
    hide Pack, PackedLayout, PlainTable, Entries, Located, Packable, Planned;
    LocatedUnique(Entries(PlainTable(Pack(ms, p), PackedLayout(ms, p))), PackedLayout(ms, p), f, path, Placed(ms, p, k),
                  PathTo(p, k));
  }

  /** Running the reader itself: open, find and extract return every packed file octet for octet. */
  method ReadBack(ms: seq<Member>, p: Plan, k: nat) returns (octets: seq<byte>)
    requires Packable(ms) && Planned(ms, p) && k < |ms|
    ensures octets == ms[k].body[..ms[k].size]
  {
    hide Packable, Planned, Pack, PackedLayout, PathTo, DataSize, ParseLayout, Located, Content, PlainTable, Entries,
      Rounded;
    RoundTrip(ms, p, k);
    var archive := new Archive();
    var accepted := archive.Open(Pack(ms, p), true);
    ghost var placed, chain := Placed(ms, p, k), PathTo(p, k);
    assert archive.Located(placed, chain) && placed.hash == ms[k].hash;
    var found := archive.ExtractRequired(ms[k].hash);
    assert archive.Located(placed, chain);
    octets := found.value;
    ghost var f: File, path :| f.hash == ms[k].hash && archive.Located(f, path)
      && f.offset + Rounded(f.size) <= |archive.data| && octets == Content(archive.data, archive.entries[..], f);
    OnlyPlaced(ms, p, k, f, path);
  }
}
