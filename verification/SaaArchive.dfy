/** The archive reader: opening, searching by hash, extracting. */
module SaaArchive {
  import opened Words
  import opened Xtea
  import opened SaaFormat

  /** The plain table of an archive with the given layout. */
  function PlainTable(data: seq<byte>, l: Layout): (s: seq<byte>)
    requires l.entryOffset + TABLE_BYTES <= |data|
    ensures |s| == TABLE_BYTES
  {
    Decrypt(data[l.entryOffset..l.entryOffset + TABLE_BYTES], TableKey())
  }

  /** The content of a file: its whole rounded extent deciphered at once, cut to its size. */
  function Content(data: seq<byte>, table: seq<byte>, f: File): (s: seq<byte>)
    requires f.offset + Rounded(f.size) <= |data| && |table| == TABLE_BYTES
    ensures |s| == f.size
  {
    Decrypt(data[f.offset..f.offset + Rounded(f.size)], FileKey(table, f.hash))[..f.size]
  }

  /** Deciphering block by block with the carried key gives the pieces of deciphering everything at once. */
  lemma DecryptPiece(cipher: seq<byte>, key: Key, done: nat, size: nat)
    requires done + size <= |cipher| && done % 8 == 0 && size % 8 == 0
    ensures var k := KeyAfter(cipher[..done], key);
            && Decrypt(cipher[done..done + size], k) == Decrypt(cipher, key)[done..done + size]
            && KeyAfter(cipher[done..done + size], k) == KeyAfter(cipher[..done + size], key)
  {
    hide Decrypt, KeyAfter;
    var a, b, c := cipher[..done], cipher[done..done + size], cipher[done + size..];
    assert cipher[..done + size] == a + b;
    assert cipher == cipher[..done + size] + c;
    DecryptSplit(a, b, key);
    DecryptSplit(cipher[..done + size], c, key);
  }

  /** `memcpy` */
  method CopyInto(source: seq<byte>, target: array<byte>, at: nat)
    requires at + |source| <= target.Length
    modifies target
    ensures target[..] == old(target[..at]) + source + old(target[at + |source|..])
  {
    forall i | 0 <= i < |source| { target[at + i] := source[i]; }
  }

  /** Fill the block buffer and decipher it, carrying the key. */
  method DecipherBlock(source: seq<byte>, block: array<byte>, key: array<word>)
    requires key.Length == 4 && block.Length == |source|
    modifies block, key
    ensures block[..] == Decrypt(source, old(key[..]))
    ensures key[..] == KeyAfter(source, old(key[..]))
  {
    hide Decrypt, KeyAfter;
    CopyInto(source, block, 0);
    assert block[..] == source;
    DecryptInPlace(block, key);
  }

  lemma NextBlockFits(source: nat, size: nat)
    requires source % BLOCK_BYTES == 0 && source < size
    ensures source + BLOCK_BYTES <= Rounded(size)
  {
  }

  /** One turn of the extraction loop: fill the block buffer, decipher it, copy what is wanted of it. */
  method ExtractBlock(extent: seq<byte>, ghost words: Key, source: nat, copy: nat,
                      block: array<byte>, key: array<word>, output: array<byte>)
    requires key.Length == 4 && block.Length == BLOCK_BYTES && block != output
    requires source + BLOCK_BYTES <= |extent| && source % BLOCK_BYTES == 0
    requires copy <= BLOCK_BYTES && source + copy <= output.Length
    requires key[..] == KeyAfter(extent[..source], words)
    modifies block, key, output
    ensures key[..] == KeyAfter(extent[..source + BLOCK_BYTES], words)
    ensures output[..] ==
      old(output[..source]) + Decrypt(extent, words)[source..source + copy] + old(output[source + copy..])
  {
    hide Decrypt, KeyAfter;
    DecryptPiece(extent, words, source, BLOCK_BYTES);
    DecipherBlock(extent[source..source + BLOCK_BYTES], block, key);
    assert block[..copy] == Decrypt(extent, words)[source..source + copy];
    CopyInto(block[..copy], output, source);
  }

  /** An output of which the first `n` octets have been written. */
  function Blend(plain: seq<byte>, was: seq<byte>, n: nat): seq<byte>
    requires n <= |plain| && n <= |was|
  {
    plain[..n] + was[n..]
  }

  lemma BlendStep(plain: seq<byte>, was: seq<byte>, n: nat, copy: nat)
    requires n + copy <= |was| && n + copy <= |plain|
    ensures var before := Blend(plain, was, n);
            |before| == |was| &&
            before[..n] + plain[n..n + copy] + before[n + copy..] == Blend(plain, was, n + copy)
  {
  }

  lemma BlendEnds(plain: seq<byte>, was: seq<byte>, n: nat)
    requires n <= |plain| && n <= |was|
    ensures Blend(plain, was, 0) == was && Blend(plain, was, n) == plain[..n] + was[n..]
  {
  }

  /** The extraction loop: a block of cipher text at a time, of which the last may be wanted only in part. */
  method DecipherInto(extent: seq<byte>, size: nat, words: Key, output: array<byte>)
    requires |extent| == Rounded(size) && size <= output.Length
    modifies output
    ensures output[..] == Decrypt(extent, words)[..size] + old(output[size..])
  {
    hide Decrypt, KeyAfter, Rounded, Blend;
    var key := new word[4](i requires 0 <= i < 4 => words[i]);
    var block := new byte[BLOCK_BYTES];
    var written, source := 0, 0;
    ghost var plain, was := Decrypt(extent, words), output[..];
    assert key[..] == words && extent[..0] == [];
    DecryptShort([], words);
    BlendEnds(plain, was, 0);
    while written < size
      invariant source % BLOCK_BYTES == 0 && source <= |extent|
      invariant written == if source < size then source else size
      invariant key[..] == KeyAfter(extent[..source], words)
      invariant output[..] == Blend(plain, was, written)
      decreases size - written
    {
      var copy := if size - written > BLOCK_BYTES then BLOCK_BYTES else size - written;
      NextBlockFits(source, size);
      BlendStep(plain, was, source, copy);
      ExtractBlock(extent, words, source, copy, block, key, output);
      written := written + copy;
      source := source + BLOCK_BYTES;
    }
    BlendEnds(plain, was, size);
  }

  class Archive {
    var data: seq<byte>
    var layout: Layout
    const entries: array<byte>
    var ready: bool

    ghost predicate Valid()
      reads this, entries
    {
      && entries.Length == TABLE_BYTES
      && (ready ==> ParseLayout(data) == Some(layout) && entries[..] == PlainTable(data, layout))
    }

    constructor ()
      ensures Valid() && !ready && fresh(entries)
    {
      data, layout, ready := [], Layout(0, 0, 0, 0, 0), false;
      entries := new byte[TABLE_BYTES];
    }

    /** `samp_saa_open_verified`: the outcome of the signature check is an input. */
    method Open(bytes: seq<byte>, signatureVerified: bool) returns (ok: bool)
      requires entries.Length == TABLE_BYTES
      modifies this, entries
      ensures Valid() && ready == ok
      ensures ok <==> signatureVerified && ParseLayout(bytes).Some?
      ensures ok ==> data == bytes
    {
      hide Decrypt, KeyAfter, ParseLayout, TableKey;
      data, layout, ready := [], Layout(0, 0, 0, 0, 0), false;
      forall i | 0 <= i < entries.Length { entries[i] := 0; }
      if !signatureVerified {
        return false;
      }
      var parsed := ParseLayout(bytes);
      if parsed.None? {
        return false;
      }
      data, layout := bytes, parsed.value;
      forall i | 0 <= i < entries.Length { entries[i] := bytes[layout.entryOffset + i]; }
      assert entries[..] == bytes[layout.entryOffset..layout.entryOffset + TABLE_BYTES];
      var words := TableKey();
      var key := new word[4](i requires 0 <= i < 4 => words[i]);
      assert key[..] == words;
      DecryptInPlace(entries, key);
      ready := true;
      ok := true;
    }

    ghost function Located(f: File, path: seq<byte>): bool
      requires Valid()
      reads this, entries
    {
      SaaFormat.Located(Entries(entries[..]), layout, f, path)
    }

    /** `samp_saa_find`: finds exactly the file with that hash whose chain is sound and fits, if there is one. */
    method Find(hash: word) returns (r: Option<File>)
      requires Valid()
      ensures r.Some? ==> ready && r.value.hash == hash && exists path :: Located(r.value, path)
      ensures r.None? && ready ==> forall f: File, path | f.hash == hash :: !Located(f, path)
    {
      hide FirstMatch, ParseLayout, Links, Rounded, Extent, Sound, Entries, PlainTable;
      if !ready {
        return None;
      }
      ghost var t := Entries(entries[..]);
      var index := 0;
      var target := Entry(0, 0, 0);
      while index < ENTRY_COUNT
        invariant 0 <= index <= ENTRY_COUNT
        invariant forall j :: 0 <= j < index ==> t[j].hash != hash
      {
        target := DecodeEntry(index);
        if target.hash == hash {
          break;
        }
        index := index + 1;
      }
      if index == ENTRY_COUNT {
        NoMatch(t, hash);
        return None;
      }
      MatchIs(t, hash, index);
      if target.previous == index || target.size == 0 {
        TargetUnsound(t, layout, hash, index);
        return None;
      }
      TargetSound(t, index);
      r := Walk(hash, index, target);
    }

    /** `decode_entry` */
    method DecodeEntry(index: byte) returns (e: Entry)
      requires Valid()
      ensures e == Entries(entries[..])[index]
    {
      hide Decrypt, ParseLayout, PlainTable;
      e := EntryAt(entries[..], index);
    }

    /** The second half of the search: the walk along the previous links. */
    method Walk(hash: word, index: byte, target: Entry) returns (r: Option<File>)
      requires Valid() && ready
      requires target == Entries(entries[..])[index] && FirstMatch(Entries(entries[..]), hash, index)
      requires Sound(Entries(entries[..]), index)
      ensures r.Some? ==> r.value.hash == hash && exists path :: Located(r.value, path)
      ensures r.None? ==> forall f: File, path | f.hash == hash :: !Located(f, path)
    {
      hide FirstMatch, ParseLayout, Links, Reaches, Rounded, Extent, Sound, Entries, PlainTable;
      LayoutFits(data);
      ghost var t := Entries(entries[..]);
      var visited := new bool[ENTRY_COUNT](_ => false);
      var previous := target.previous;
      var offset := layout.headerSize;
      ghost var walked: seq<byte>, free := [], set b: byte | !visited[b];
      WalkStarts(t, layout.invalid, previous);
      while previous != layout.invalid
        invariant Reaches(t, layout.invalid, target.previous, walked, previous)
        invariant offset == layout.headerSize + Extent(t, walked) <= layout.entryOffset
        invariant forall b: byte :: visited[b] <==> b in walked
        invariant forall b: byte :: visited[b] <==> b !in free
        decreases |free|
      {
        if visited[previous] {
          WalkRepeats(t, layout, hash, index, walked, previous);
          return None;
        }
        visited[previous] := true;
        free := free - {previous};
        var entry := DecodeEntry(previous);
        TargetSound(t, previous);
        if entry.previous == previous || entry.size == 0 {
          WalkBlocked(t, layout, hash, index, walked, previous);
          return None;
        }
        ReachesStep(t, layout.invalid, target.previous, walked, previous);
        walked := walked + [previous];
        if Rounded(entry.size) > layout.entryOffset - offset {
          WalkTooLong(t, layout, hash, index, walked, entry.previous);
          return None;
        }
        offset := offset + Rounded(entry.size);
        previous := entry.previous;
      }
      WalkEnds(t, layout.invalid, target.previous, walked);
      if Rounded(target.size) > layout.entryOffset - offset {
        LastDoesNotFit(t, layout, hash, index, walked);
        return None;
      }
      var f := File(hash, target.size, offset, index);
      assert Located(f, walked);
      r := Some(f);
    }

    /** `samp_saa_extract`: on success exactly the first `size` octets of the output are written. */
    method Extract(f: File, output: array<byte>) returns (ok: bool)
      requires Valid() && output != entries
      modifies output
      ensures ok <==> ready && f.size <= output.Length && f.offset + Rounded(f.size) <= layout.entryOffset
      ensures ok ==> output[..] == Content(data, entries[..], f) + old(output[f.size..])
      ensures !ok ==> output[..] == old(output[..])
    {
      hide Decrypt, KeyAfter, ParseLayout, LoadKey, FileKey, Rounded, PlainTable;
      LayoutFits(data);
      if !ready || output.Length < f.size || f.offset > layout.entryOffset ||
         Rounded(f.size) > layout.entryOffset - f.offset {
        return false;
      }
      var extent := data[f.offset..f.offset + Rounded(f.size)];
      DecipherInto(extent, f.size, FileKey(entries[..], f.hash), output);
      ok := true;
    }

    /** `extract_required_file`: find, allocate, extract. */
    method ExtractRequired(hash: word) returns (r: Option<seq<byte>>)
      requires Valid()
      ensures r.Some? ==> ready && exists f: File, path ::
        (&& f.hash == hash && Located(f, path)
         && f.offset + Rounded(f.size) <= |data| && r.value == Content(data, entries[..], f))
      ensures r.None? && ready ==> forall f: File, path | f.hash == hash :: !Located(f, path)
    {
      hide Content, ParseLayout, SaaFormat.Located, Rounded, Entries, PlainTable;
      LayoutFits(data);
      var found := Find(hash);
      if found.None? {
        return None;
      }
      var f := found.value;
      ghost var path :| Located(f, path);
      LocatedFits(Entries(entries[..]), layout, f, path);
      var output := new byte[f.size];
      var ok := Extract(f, output);
      assert output[..] == Content(data, entries[..], f) + [] == Content(data, entries[..], f);
      assert Located(f, path);
      r := Some(output[..]);
    }
  }

  // ----- why a refused walk has no answer

  lemma LayoutFits(data: seq<byte>)
    ensures ParseLayout(data).Some? ==>
      ParseLayout(data).value.headerSize <= ParseLayout(data).value.entryOffset <= |data| - TABLE_BYTES
  {
    hide ParseLayout;
  }

  lemma LocatedFits(t: Table, l: Layout, f: File, path: seq<byte>)
    requires SaaFormat.Located(t, l, f, path)
    ensures f.offset + Rounded(f.size) <= l.entryOffset
  {
  }

  lemma NoMatch(t: Table, hash: word)
    requires forall j :: 0 <= j < ENTRY_COUNT ==> t[j].hash != hash
    ensures forall i :: !FirstMatch(t, hash, i)
  {
  }

  lemma TargetSound(t: Table, i: byte)
    ensures Sound(t, i) <==> t[i].previous != i && t[i].size != 0
  {
  }

  lemma TargetUnsound(t: Table, l: Layout, hash: word, index: byte)
    requires FirstMatch(t, hash, index) && !(t[index].previous != index && t[index].size != 0)
    ensures forall f: File, path | f.hash == hash :: !Located(t, l, f, path)
  {
    hide Rounded, Extent, Links;
    forall f: File, path | f.hash == hash
      ensures !Located(t, l, f, path)
    {
      assert t[index].hash == hash && t[f.index].hash == t[f.index].hash;
    }
  }

  lemma MatchIs(t: Table, hash: word, index: nat)
    requires index < ENTRY_COUNT && t[index].hash == hash && forall j :: 0 <= j < index ==> t[j].hash != hash
    ensures FirstMatch(t, hash, index)
    ensures forall i :: FirstMatch(t, hash, i) ==> i == index
  {
  }

  lemma WalkStarts(t: Table, invalid: byte, from: byte)
    ensures Reaches(t, invalid, from, [], from) && Extent(t, []) == 0
  {
  }

  lemma WalkEnds(t: Table, invalid: byte, from: byte, walked: seq<byte>)
    requires Reaches(t, invalid, from, walked, invalid)
    ensures Links(t, invalid, from, walked)
  {
    LinksContinue(t, invalid, from, walked, invalid, walked);
  }

  /** Every located file with this hash starts with what has been walked. */
  lemma WalkIsPrefix(t: Table, l: Layout, hash: word, index: byte, walked: seq<byte>, at: byte, f: File,
                     path: seq<byte>)
    requires FirstMatch(t, hash, index) && Reaches(t, l.invalid, t[index].previous, walked, at)
    requires Located(t, l, f, path) && f.hash == hash
    ensures f.index == index && |walked| <= |path| && path[..|walked|] == walked
      && Links(t, l.invalid, at, path[|walked|..])
    ensures Extent(t, path) == Extent(t, walked) + Extent(t, path[|walked|..])
  {
    hide Rounded, Extent;
    assert t[f.index].hash == t[index].hash == hash;
    LinksContinue(t, l.invalid, t[index].previous, walked, at, path);
  }

  lemma WalkRepeats(t: Table, l: Layout, hash: word, index: byte, walked: seq<byte>, at: byte)
    requires FirstMatch(t, hash, index) && Reaches(t, l.invalid, t[index].previous, walked, at)
    requires at in walked && at != l.invalid
    ensures forall f: File, path | f.hash == hash :: !Located(t, l, f, path)
  {
    hide Rounded, Extent;
    forall f: File, path | f.hash == hash
      ensures !Located(t, l, f, path)
    {
      if Located(t, l, f, path) {
        WalkIsPrefix(t, l, hash, index, walked, at, f, path);
        assert path[|walked|] == path[|walked|..][0] == at;
        var k :| 0 <= k < |walked| && walked[k] == at;
        assert path[k] == path[..|walked|][k] == at;
        ChainIsSimple(t, l.invalid, index, path);
      }
    }
  }

  lemma WalkBlocked(t: Table, l: Layout, hash: word, index: byte, walked: seq<byte>, at: byte)
    requires FirstMatch(t, hash, index) && Reaches(t, l.invalid, t[index].previous, walked, at)
    requires !Sound(t, at) && at != l.invalid
    ensures forall f: File, path | f.hash == hash :: !Located(t, l, f, path)
  {
    hide Rounded, Extent;
    forall f: File, path | f.hash == hash
      ensures !Located(t, l, f, path)
    {
      if Located(t, l, f, path) {
        WalkIsPrefix(t, l, hash, index, walked, at, f, path);
      }
    }
  }

  lemma WalkTooLong(t: Table, l: Layout, hash: word, index: byte, walked: seq<byte>, at: byte)
    requires FirstMatch(t, hash, index) && Reaches(t, l.invalid, t[index].previous, walked, at)
    requires l.headerSize + Extent(t, walked) > l.entryOffset
    ensures forall f: File, path | f.hash == hash :: !Located(t, l, f, path)
  {
    hide Rounded, Extent;
    forall f: File, path | f.hash == hash
      ensures !Located(t, l, f, path)
    {
      if Located(t, l, f, path) {
        WalkIsPrefix(t, l, hash, index, walked, at, f, path);
      }
    }
  }

  lemma LastDoesNotFit(t: Table, l: Layout, hash: word, index: byte, walked: seq<byte>)
    requires FirstMatch(t, hash, index) && Chain(t, l.invalid, index, walked)
    requires l.headerSize + Extent(t, walked) + Rounded(t[index].size) > l.entryOffset
    ensures forall f: File, path | f.hash == hash :: !Located(t, l, f, path)
  {
    hide Rounded, Extent;
    forall f: File, path | f.hash == hash
      ensures !Located(t, l, f, path)
    {
      if Located(t, l, f, path) {
        assert t[f.index].hash == t[index].hash == hash;
        LinksUnique(t, l.invalid, t[index].previous, walked, path);
      }
    }
  }
}
