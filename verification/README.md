# Verified model of the client's archive, network and hook cores

The modules prove properties of seven parts of the reimplemented client library. Functions say what an operation
means; methods and classes follow the C and C++ code statement by statement, with its loops, branches and constants, and
are proved to compute those functions; lemmas prove what the functions promise.

| part | modules |
|---|---|
| SAA archive reader: cipher, name hash, format, reader, and a packer that inverts it | `Words`, `Machine`, `Xtea`, `XteaVectors`, `NameHash`, `NameVectors`, `SaaFormat`, `SaaVectors`, `SaaArchive`, `SaaPacker` |
| Virtual file layer over the two extracted files | `VirtualFiles` |
| Host and port parser | `HostPort` |
| GPCI generator | `Gpci` |
| Hook thunks and call patching | `HookThunk`, `HookBridge` |
| Class selection and spawn handshake | `ClassSelection` |
| Event rings, actor and gang-zone stores, and the consumer's mirrors of them | `EventRing`, `Recovery`, `Actors`, `GangZones`, `ActorMirror`, `ZoneMirror` |
| Object and material store | `ObjectModel`, `ObjectStore` |

Verify everything with `dafny verify dfyconfig.toml`.

## Conventions

- 32-bit words are integers from 0 to 2^32 - 1; every place where the code can wrap, truncate or skip a value is written
  out (`Add`, `Sub`, `% W`, `CounterAfter`). 64-bit products in `Gpci` are shown not to overflow.
- `Machine` proves that this arithmetic is that of the machine's operators on 32-bit bit vectors. `XteaVectors` and
  `NameVectors` state the cipher and the hash once more in those operators, prove that the two agree for all words, and
  prove known answers octet by octet; `SaaVectors` does the latter for the format.
- Whether an allocation succeeds, a page can be unprotected, a message is sent, a signature verifies or a decoded
  floating-point field is plausible is an input of the operation, so the results hold for every outcome. Clocks, keys and
  random picks are inputs too.
- A class keeps the fields the code keeps, as fields of their own or, in `Bridge` and the record arrays, grouped as the
  code groups them. Ghost fields hold what a result speaks of: the log of all pushed events, the trace of the handshake,
  the ledger of live allocations.
- `ObjectStore` tracks ownership: `live` maps each allocation that has not been freed to the one place that refers to it.
  Freeing requires membership, so a double free does not verify, and the class invariant requires every live allocation to
  stand in the table, so neither does a leak.
- `HookThunk` gives the emitted instruction forms a small-step semantics over registers, memory and an instruction
  offset; what a called function does is an arbitrary outcome that respects the calling convention.

## Where the code falls short

Each entry names the lemma or method with inputs that show it, and the one that says exactly when it happens.

- A packed archive without files is accepted only if its signature has at least eight octets (`SaaPacker.PackedIsAccepted`,
  an equivalence). A predecessor of a located file may itself not be found (`SaaFormat.HiddenPredecessor`); it is exactly
  when it is the first entry with its hash (`SaaFormat.PredecessorsTile`).
- The loop form `seq <= counter` ends exactly when the counter is below 2^32 - 1 (`EventRing.LoopEnds`).
- The actor mirror does not notice a counter that started again: an event is enough (`ActorMirror.FallsBehindAtWrap`), and
  no later update helps (`ActorMirror.NeverShownAgain`). The zone mirror does notice, and is only misled by a whole round of
  the counter between two snapshots (`ZoneMirror.FallsBehindAtWrap`). The exact conditions are
  `ActorMirror.CatchesUpExactly` and `ZoneMirror.CatchesUpExactly`.
- The consumer accepts fewer actor positions than the decoder, so that replaying and copying can disagree
  (`ActorMirror.FarMoveDiverges`, `ActorMirror.MovedFallsBehind`): after each event of a replay they agree exactly when each
  event is in step (`ActorMirror.ReplayShowsExactly`), and whatever the events only a copy is enough
  (`ActorMirror.OnlyCopiesCatchUp`).
- After the counter has started again, an event can carry the number a part of an actor already has, and its change is then
  not carried out (`ActorMirror.SameNumberAgain`), exactly when `ActorMirror.UpdateTellsExactly` says; in the first round it
  never happens (`ActorMirror.EveryUpdateTells`).
- When the revision counter wraps between two updates the older descriptor looks newer than the record
  (`ObjectModel.WrappedRevisionIsBehind`); when the generation counter comes round an old descriptor can read a re-created
  object (`ObjectModel.ReusedGenerationIsStale`). Exactly when: `ObjectModel.HowDescriptorsResolve` with
  `BehindExactlyWhenWrapped` and `SameGenerationExactly`.
- A request can be sent while an earlier one is open (`ClassSelection.SecondClassRequest`,
  `ClassSelection.SecondSpawnRequest`), exactly after an override that `ClassSelection.RepeatedExactlyWhenSetAside` names
  and `ClassSelection.OverrideSetsAside` tells from the state of the session.
- Hooks on overlapping calls overwrite each other (`HookBridge.InstallOnSameCall`, exactly when
  `HookBridge.FirstCallAfterSecond` says, and never in `HookBridge.ApartWindows`). Installing the hooks twice makes
  uninstalling go back to the memory the first installation left (`HookBridge.InstallTwiceThenUninstall`), which is the
  original one exactly when `HookBridge.RedirectedIsNoChange` or `BothRedirectedIsNoChange` says; and a call that cannot be
  unprotected stays patched (`HookBridge.Bridge.Uninstall`).
- `specs/SPEC-NET-002_HOSTPORT_PARSING.md` promises no partial output on a failed parse, but a host that is followed by
  something that is not its port is left behind (`HostPort.HostWithoutPort`), exactly when `HostPort.HostLeftBehind` says;
  any failure on a nonempty text also leaves the default port (`HostPort.Parse`).

## Model

| member | source | states |
|---|---|---|
| `Words.LoadStored` | reimpl/src/archive/saa.c:23-33 | Loading a word gives what was stored there, little-endian, wherever it stands |
| `Words.StoreLoaded` | reimpl/src/archive/saa.c:23-33 | Storing what was loaded gives the octets back |
| `Words.LittleEndian` | reimpl/src/archive/saa.c:23-33 | The octets of a word stand with the lowest one first |
| `Words.AddIsModular` | reimpl/src/archive/saa.c:68-70 | Addition and subtraction are those of unsigned 32-bit words |
| `Machine.NumOfBits` | reimpl/src/archive/saa.c:68-70 | Every word is the number of a bit vector, so what is proved of these holds for all words |
| `Machine.XorIs` | reimpl/src/archive/saa.c:68-70 | The exclusive or of two words, built up bit by bit, is that of the bit vectors with those numbers |
| `Machine.AddIs` | reimpl/src/archive/saa.c:68-70 | So is the sum, by carries, modulo 2^32 |
| `Machine.SubIs` | reimpl/src/archive/saa.c:68-70 | And the difference |
| `Xtea.DecryptEncrypt` | reimpl/src/archive/saa.c:56-80 | For every key and every length, the decryption loop with its key feedback recovers what the chained encryption was given |
| `Xtea.EncryptDecrypt` | reimpl/src/archive/saa.c:56-80 | The other direction, so the two are inverse bijections on the buffers of each length |
| `Xtea.RoundsInvert` | reimpl/src/archive/saa.c:60-76 | Any number of Feistel rounds on one block is undone by as many decryption rounds, and conversely |
| `Xtea.SumOfAllRounds` | reimpl/src/archive/saa.c:63-73 | The constant the decryption loop starts from is the one 32 rounds of encryption end with, modulo 2^32 |
| `Xtea.DecryptSplit` | reimpl/src/archive/saa.c:56-80 | Decrypting in pieces of whole blocks with the carried key gives the pieces of one decryption, and the same final key |
| `Xtea.DecryptBlock` | reimpl/src/archive/saa.c:60-74 | The 32-round loop, its `sum` running from 32 DELTA to 0, inverts 32 rounds of encryption of the block |
| `Xtea.DecryptInPlace` | reimpl/src/archive/saa.c:56-80 | The in-place loop leaves the decryption of the old buffer and the key as mutated by every ciphertext block |
| `XteaVectors.HalfRoundNumbers` | reimpl/src/archive/saa.c:68-70 | A half-round is that of the machine for all words: shifts by 4 and 5, exclusive or, addition, exclusive or with sum and key, subtraction |
| `XteaVectors.SelectedNumbers` | reimpl/src/archive/saa.c:68-70 | The key word is selected by the two lowest bits of the sum, or of the sum shifted by 11 |
| `XteaVectors.CyclesAre` | reimpl/src/archive/saa.c:62-71 | Any number of decryption rounds on numbers is the loop of the machine |
| `XteaVectors.PublishedBlock` | reimpl/src/archive/saa.c:56-80 | The published vector of the cipher: with a zero key, `DEE9D4D8 F7131ED9` deciphers to a zero block |
| `XteaVectors.TwoBlocks` | reimpl/src/archive/saa.c:56-80 | Sixteen octets under four different key words: the octets they are deciphered to, and the key the two blocks leave |
| `NameHash.MixIsBijective` | reimpl/src/archive/saa.c:89-117 | The nine-step mix has a two-sided inverse on triples of words |
| `NameHash.HashMix` | reimpl/src/archive/saa.c:89-117 | The assignments through the three pointers compute that bijection |
| `NameHash.LastBlockWords` | reimpl/src/archive/saa.c:134-171 | The words of the zero-padded last block are the shifted tail octets summed; in the third word they stand one octet up, leaving the lowest place to the length |
| `NameHash.HashBytes` | reimpl/src/archive/saa.c:119-174 | Block loop and fall-through tail equal the fold of the mix over zero-padded 12-octet blocks with the length added to the last, for every length |
| `NameHash.HashTail` | reimpl/src/archive/saa.c:135-174 | The fall-through additions equal mixing in the padded last block |
| `NameVectors.MixIs` | reimpl/src/archive/saa.c:89-117 | The mix is, for all words, the nine steps of subtraction, shift and exclusive or of the machine |
| `NameVectors.HashOfMain` | reimpl/tests/test_saa.c:75 | The octets of `main.scm` hash to D83F24DD |
| `NameVectors.HashOfScript` | reimpl/tests/test_saa.c:76 | The octets of `script.img` hash to 11A462D1 |
| `NameVectors.HashOfLong` | reimpl/src/archive/saa.c:119-174 | The hash of a name of a whole block and eleven octets |
| `NameHash.HashFilename` | reimpl/src/archive/saa.c:235-251 | The lower-cased name is hashed as it stands in the bounded buffer; an empty or too long name gives 0 |
| `NameHash.HashPath` | reimpl/src/archive/saa.c:253-275 | The scan for the last separator finds the base name, whose hash is the result; no base name, no hash |
| `NameHash.LowerIs` | reimpl/src/archive/saa.c:244 | Upper-case letters go to their lower-case ones, and no other octet changes |
| `NameHash.PathHashIs` | reimpl/src/archive/saa.c:253-275 | A path has the hash of its base name exactly when that has 1 to 259 octets and the hash is not 0 |
| `NameHash.PathHashIgnoresDirectoryAndCase` | reimpl/src/archive/saa.c:235-275 | Two paths whose texts behind the last `/` or `\` agree octet by octet, up to one being an upper-case letter and the other the same in lower case, have the same hash, whatever their directories |
| `NameVectors.PathOfMain` | reimpl/tests/test_saa.c:77-80 | Wherever it stands and in whatever case, the path of `main.scm` has its hash |
| `NameVectors.PathOfScript` | reimpl/tests/test_saa.c:79-80 | So has that of `script.img` |
| `NameVectors.UpperCasePath` | reimpl/tests/test_saa.c:77-78 | `MAIN.SCM` behind a directory, octet by octet |
| `NameVectors.FilesByName` | reimpl/src/archive/win32_archive_fs.c:441-463 | So the two virtual files are found under their names, in any directory and any case |
| `SaaFormat.ParseLayout` | reimpl/src/archive/saa.c:176-212 | An accepted layout splits the data exactly into header, whole data blocks, 256-entry table and a signature of 1 to 255 octets |
| `SaaFormat.ObfuscationInverts` | reimpl/src/archive/saa.c:39-42 | The obfuscation of link words is inverted in both directions |
| `SaaFormat.EntryRoundTrip` | reimpl/src/archive/saa.c:277-291 | Decoding an encoded entry gives back hash, link and 24-bit size |
| `SaaFormat.TableRoundTrip` | reimpl/src/archive/saa.c:277-291 | The 2048 octets of a table decode to its 256 entries |
| `SaaVectors.HeaderAccepted` | reimpl/src/archive/saa.c:176-212 | Eight literal header octets: version 2, a signature of 128 octets and any number of blocks are accepted with the layout they announce |
| `SaaVectors.HeaderRefused` | reimpl/src/archive/saa.c:187-189 | The same header with version 3 is refused |
| `SaaVectors.ShortRefused` | reimpl/src/archive/saa.c:182-184 | Anything shorter than header, table and eight octets is refused |
| `SaaVectors.RoundedIs` | reimpl/src/archive/saa.c:35-37 | Files take whole blocks of 2048 octets |
| `SaaVectors.TableKeyIs` | reimpl/src/archive/saa.c:17-54 | The four words of the table key |
| `SaaVectors.FileKeyIs` | reimpl/src/archive/saa.c:365-366 | The key of a file is four words of the plain table, from octet hash mod 2032 on |
| `SaaVectors.EntryOfMain` | reimpl/src/archive/saa.c:277-291 | Two literal words of a table decode to the hash of `main.scm`, its size and no predecessor |
| `SaaFormat.LinksUnique` | reimpl/src/archive/saa.c:325-339 | From each start there is at most one complete chain of previous links |
| `SaaFormat.ChainIsSimple` | reimpl/src/archive/saa.c:318-339 | The entries of a chain are distinct and exclude the entry it belongs to, although the walk never marks that one |
| `SaaFormat.LocatedUnique` | reimpl/src/archive/saa.c:293-348 | At most one file and one chain answer to a hash |
| `SaaFormat.LocatedMeans` | reimpl/src/archive/saa.c:293-348 | A located file is the first entry with its hash, is neither empty nor its own predecessor, and its chain follows the links from it to the invalid index over entries that are neither |
| `SaaFormat.PredecessorsTile` | reimpl/src/archive/saa.c:314-347 | The extents along a chain tile the data area from the header on without gap or overlap and end before the table; a predecessor is itself located exactly when it is the first entry with its hash |
| `SaaFormat.HiddenPredecessor` | reimpl/src/archive/saa.c:303-347 | A table in which a duplicate hash hides the predecessor of a located file |
| `SaaFormat.LinksContinue` | reimpl/src/archive/saa.c:325-339 | A complete chain extends a partial walk exactly when it starts with it and continues from where the walk stands; extents add up |
| `SaaArchive.Archive.Open` | reimpl/src/archive/saa.c:214-233 | Accepts exactly the verified archives whose layout parses, and then holds the plain table |
| `SaaArchive.Archive.DecodeEntry` | reimpl/src/archive/saa.c:277-291 | Reads the entry of the plain table at an index |
| `SaaArchive.Archive.Find` | reimpl/src/archive/saa.c:293-348 | On any table the search ends; it returns the first entry with the hash, at header plus rounded predecessor sizes, exactly when its chain is sound and fits, and otherwise no file with that hash exists |
| `SaaArchive.Archive.Walk` | reimpl/src/archive/saa.c:316-347 | The marked walk along previous links decides that question without an unsigned subtraction underflowing |
| `SaaArchive.WalkRepeats` | reimpl/src/archive/saa.c:324-327 | Meeting a marked entry rules out any sound chain for the hash |
| `SaaArchive.WalkBlocked` | reimpl/src/archive/saa.c:328-331 | Meeting an entry that links to itself or is empty rules it out |
| `SaaArchive.WalkTooLong` | reimpl/src/archive/saa.c:332-336 | Predecessors that outgrow the data area rule it out |
| `SaaArchive.LastDoesNotFit` | reimpl/src/archive/saa.c:340-342 | So does a target that no longer fits before the table |
| `SaaArchive.DecryptPiece` | reimpl/src/archive/saa.c:369-379 | A block deciphered with the carried key is that block of the whole deciphered extent |
| `SaaArchive.ExtractBlock` | reimpl/src/archive/saa.c:370-378 | One turn of the extraction loop appends the wanted part of the next plain block |
| `SaaArchive.DecipherInto` | reimpl/src/archive/saa.c:365-380 | The loop over 2048-octet blocks writes exactly the first `size` octets of one decryption of the whole rounded extent |
| `SaaArchive.Archive.Extract` | reimpl/src/archive/saa.c:350-381 | Succeeds exactly when the output is large enough and the extent lies before the table; then writes the content and nothing behind it, otherwise nothing |
| `SaaArchive.Archive.ExtractRequired` | reimpl/src/archive/win32_archive_fs.c:256-276 | Find, allocate and extract return the content of the one file with that hash, or there is none |
| `SaaPacker.PlanExists` | reimpl/src/archive/saa.c:176-348 | For any at most 255 nonempty files under 2^24 octets with distinct hashes there is a placement the packer accepts |
| `SaaPacker.PackedIsAccepted` | reimpl/src/archive/saa.c:176-212 | A packed archive parses to its own layout exactly when it holds a file or its signature has at least eight octets |
| `SaaPacker.PackedTableOpens` | reimpl/src/archive/saa.c:214-233 | Opening deciphers the packed table back to the plain one, entry by entry |
| `SaaPacker.MemberIsFirst` | reimpl/src/archive/saa.c:303-312 | Each packed file is the first entry with its hash, whatever the filler entries |
| `SaaPacker.MemberChain` | reimpl/src/archive/saa.c:314-339 | The packed links lead from each file back to the first over exactly the data before it |
| `SaaPacker.MemberIsLocated` | reimpl/src/archive/saa.c:293-348 | Each packed file is located at its place by the search relation |
| `SaaPacker.MemberContent` | reimpl/src/archive/saa.c:350-381 | The cipher text of a packed file stands at that place and deciphers to its octets |
| `SaaPacker.RoundTrip` | reimpl/src/archive/saa.c:176-381 | Parse, open, find and extract invert packing for every file of every packable archive |
| `SaaPacker.OnlyPlaced` | reimpl/src/archive/saa.c:293-348 | No other file answers to the hash of a packed one |
| `SaaPacker.ReadBack` | reimpl/src/archive/saa.c:214-381 | The reader itself, as a sequence of calls, returns every packed file octet for octet |
| `VirtualFiles.ReadsConcatenate` | reimpl/src/archive/win32_archive_fs.c:489-541 | Reads of arbitrary sizes deliver, joined together, what one read of their total size would |
| `VirtualFiles.WholeFileRead` | reimpl/src/archive/win32_archive_fs.c:489-541 | From position 0, reads asking for at least the size together return exactly the file |
| `VirtualFiles.SeekFromStart` | reimpl/src/archive/win32_archive_fs.c:579-598 | A seek from the start stands at the octet it names, if that fits in 32 bits, and reads deliver the file from there, nothing past the end |
| `VirtualFiles.SeekOnwards` | reimpl/src/archive/win32_archive_fs.c:581-582 | A relative seek after one from the start is one from the start; by 0 it reports the position and does not move |
| `VirtualFiles.SeekToEnd` | reimpl/src/archive/win32_archive_fs.c:583-585 | A seek to the end ignores the distance; a read then delivers nothing and reaches the end |
| `VirtualFiles.SeekRefusedExactly` | reimpl/src/archive/win32_archive_fs.c:586-595 | A seek is refused exactly for another method or a target outside 32 bits |
| `VirtualFiles.SomeAttemptIsFree` | reimpl/src/archive/win32_archive_fs.c:414-439 | Among 128 successive handle candidates one is unused whenever a record is free: at most 49 are taken |
| `VirtualFiles.CursorsAre` | reimpl/src/archive/win32_archive_fs.c:403-412 | With distinct handles, the records in use are one cursor per handle, and no others |
| `VirtualFiles.Full` | reimpl/src/archive/win32_archive_fs.c:403-439 | All records are in use exactly when there are as many open files as records |
| `VirtualFiles.Occupied` | reimpl/src/archive/win32_archive_fs.c:414-439 | Filling a free record under an unused handle adds one cursor at position 0 and keeps the handles distinct |
| `VirtualFiles.Moved` | reimpl/src/archive/win32_archive_fs.c:489-541 | Changing the position of one record moves one cursor and no other |
| `VirtualFiles.Freed` | reimpl/src/archive/win32_archive_fs.c:601-617 | Clearing a record removes one cursor and no other |
| `VirtualFiles.Layer.FindRecord` | reimpl/src/archive/win32_archive_fs.c:403-412 | Finds the record in use with a handle exactly when that handle is open |
| `VirtualFiles.Layer.AllocateRecord` | reimpl/src/archive/win32_archive_fs.c:414-439 | Fails exactly when all 50 records are in use, that is when 50 files are open; otherwise the new handle was not open and every other cursor is unchanged |
| `VirtualFiles.Layer.NextFreeHandle` | reimpl/src/archive/win32_archive_fs.c:420-434 | The candidate loop always ends with an unused odd handle of the window and leaves the next candidate in the window |
| `VirtualFiles.Layer.CreateFile` | reimpl/src/archive/win32_archive_fs.c:441-487 | Opens one of the two virtual files by the hash of the path, passes every other path on, and reports too many files exactly when all records are in use |
| `VirtualFiles.Layer.ReadFile` | reimpl/src/archive/win32_archive_fs.c:489-541 | Delivers exactly the octets of its cursor, advances that cursor alone, signals the end exactly when position plus request reaches the size, and an overlapped read moves the cursor even if then refused |
| `VirtualFiles.Layer.Deliver` | reimpl/src/archive/win32_archive_fs.c:513-540 | The part of a read after the lookup, on the record found |
| `VirtualFiles.Layer.SetFilePointer` | reimpl/src/archive/win32_archive_fs.c:564-599 | Moves one cursor to the target of the move method within 32 bits, or refuses and changes nothing |
| `VirtualFiles.Layer.GetFileSize` | reimpl/src/archive/win32_archive_fs.c:543-562 | The size of the file behind an open handle |
| `VirtualFiles.Layer.CloseHandle` | reimpl/src/archive/win32_archive_fs.c:601-617 | Closes an open handle and only that one; it then no longer answers |
| `VirtualFiles.HandlesAreIndependent` | reimpl/src/archive/win32_archive_fs.c:403-617 | After any calls on any handles in any order, a handle stands where its own calls alone would have left it |
| `VirtualFiles.AnswersAreIndependent` | reimpl/src/archive/win32_archive_fs.c:403-617 | So every call on a handle is answered as if the calls on that handle had been the only ones |
| `VirtualFiles.NeverMoreThanFifty` | reimpl/src/archive/win32_archive_fs.c:414-439 | In every run at most 50 handles are open, all of them odd numbers of the window |
| `VirtualFiles.NotGivenOutAgain` | reimpl/src/archive/win32_archive_fs.c:414-439 | A handle that was just closed is not the next one given out |
| `VirtualFiles.InterleavedReads` | reimpl/src/archive/win32_archive_fs.c:441-541 | A handle that is opened and then read, whatever happens on other handles in between, delivers the octets of its file in order, and the whole file once enough has been asked for |
| `VirtualFiles.SeekThenReads` | reimpl/src/archive/win32_archive_fs.c:489-599 | After any calls on an open handle, a seek answered with a position is at the distance, the end, or the old position plus the distance, and the reads after it deliver the file from there |
| `VirtualFiles.InterleavedSeeks` | reimpl/src/archive/win32_archive_fs.c:441-599 | The same in a log of calls on any handles, for a handle that was opened in it |
| `VirtualFiles.SeekReadSeek` | reimpl/src/archive/win32_archive_fs.c:489-599 | A relative seek counts from the last position answered plus what was read since |
| `VirtualFiles.OffsetRead` | reimpl/src/archive/win32_archive_fs.c:506-509 | An overlapped read delivers the file from its offset |
| `VirtualFiles.Run` | reimpl/src/archive/win32_archive_fs.c:403-617 | The layer answers any sequence of opens, reads, seeks, size queries and closes as the open files so far say, and ends with the files those calls leave |
| `HostPort.ParsePort` | reimpl/src/net/dual_stack.c:113-134 | The loop with its early exit accepts exactly the nonempty digit strings of any length whose value is at most 65535, and leaves the port alone otherwise |
| `HostPort.CopyHost` | reimpl/src/net/dual_stack.c:136-143 | Takes exactly the hosts of 1 to 255 characters, and leaves the output alone otherwise |
| `HostPort.MeaningUnique` | specs/SPEC-NET-002_HOSTPORT_PARSING.md:9-30 | The documented forms, taken as a relation, give a text at most one meaning |
| `HostPort.Parse` | reimpl/src/net/dual_stack.c:145-211 | Succeeds on exactly the texts with a documented meaning, and fills the output with it; on failure the empty text leaves the output alone, and any other text the default port and the host exactly if it is half read |
| `HostPort.ParseBracketed` | reimpl/src/net/dual_stack.c:159-178 | The branch for bracketed hosts decides the bracket forms, and what a failure leaves |
| `HostPort.ParseWithPort` | reimpl/src/net/dual_stack.c:194-204 | The branch for exactly one colon decides the form with host and port, and what a failure leaves |
| `HostPort.HalfReadOnly` | reimpl/src/net/dual_stack.c:159-204 | A text whose fitting host is followed by something that is not its port has no meaning, and only that one half-read host |
| `HostPort.HostLeftBehind` | reimpl/src/net/dual_stack.c:145-211 | A failed parse leaves a host in a fresh output exactly when that host is half read |
| `HostPort.HostWithoutPort` | reimpl/src/net/dual_stack.c:194-204 | The host of `a:x` is half read |
| `HostPort.LargestPort` | specs/SPEC-NET-002_HOSTPORT_PARSING.md:9-30 | 65535 is a port, 65536 is none |
| `HostPort.PaddedPort` | reimpl/src/net/dual_stack.c:113-134 | A port may have leading zeros |
| `HostPort.NoPort` | reimpl/src/net/dual_stack.c:113-134 | The empty text, and any with another character than a digit, is none |
| `HostPort.HostLimit` | reimpl/src/net/dual_stack.c:136-143 | Hosts have 1 to 255 characters |
| `HostPort.HostAndPort` | specs/SPEC-NET-002_HOSTPORT_PARSING.md:9-30 | A host without colon means itself with the default port; with a colon and a port, both; with anything else behind one colon, nothing |
| `HostPort.BareAddress` | specs/SPEC-NET-002_HOSTPORT_PARSING.md:9-30 | A text with more than one colon and no leading bracket means only a host |
| `HostPort.BracketedAddress` | specs/SPEC-NET-002_HOSTPORT_PARSING.md:9-30 | A bracketed address with and without a port; not closed, or with anything else behind it, it means nothing |
| `HostPort.PrintMeans` | specs/SPEC-NET-002_HOSTPORT_PARSING.md:9-30 | The shorter printed form means its endpoint: `h:p` for a host without `:` that does not start with `[`, brackets otherwise |
| `HostPort.PrintAndParse` | reimpl/src/net/dual_stack.c:145-211 | Parsing it gives the endpoint back |
| `HostPort.BracketedMeans` | specs/SPEC-NET-002_HOSTPORT_PARSING.md:9-30 | `[h]:p` means (h, p) for every host of 1 to 255 characters without `]` |
| `HostPort.PrintBracketedAndParse` | reimpl/src/net/dual_stack.c:145-211 | Parsing that form gives the endpoint back, for every such host |
| `Gpci.ByteSwapReverses` | reimpl/src/net/raknet_client_adapter.cpp:6863-6866 | The byte swap of a limb reverses its octets |
| `Gpci.NoOverflow` | reimpl/src/net/raknet_client_adapter.cpp:6868-6890 | A limb product plus a carry fits in 64 bits, and its high half in the next carry |
| `Gpci.LoadSource` | reimpl/src/net/raknet_client_adapter.cpp:6863-6866 | The five input limbs are the first twenty octets read as one big-endian number |
| `Gpci.MultiplyLimb` | reimpl/src/net/raknet_client_adapter.cpp:6868-6890 | Each line of the product extends the invariant: limbs so far plus carry equal source so far times factor |
| `Gpci.ReverseInPlace` | reimpl/src/net/raknet_client_adapter.cpp:6892-6896 | The closing swap loop reverses the 24 octets in place |
| `Gpci.BigNumMul` | reimpl/src/net/raknet_client_adapter.cpp:6859-6897 | With input and output in the same buffer, the 24 octets left are big-endian the first twenty octets times the factor |
| `Gpci.HexDenotes` | reimpl/src/net/raknet_client_adapter.cpp:6922-6940 | The text printed for a number is canonical upper-case hexadecimal and denotes it |
| `Gpci.HexUnique` | reimpl/src/net/raknet_client_adapter.cpp:6922-6940 | It is the only canonical text that does |
| `Gpci.PrintHex` | reimpl/src/net/raknet_client_adapter.cpp:6922-6940 | The digit loop prints the canonical hexadecimal of the octets and terminates the text |
| `Gpci.GenGpci` | reimpl/src/net/raknet_client_adapter.cpp:6899-6941 | For every seed and factor the text is at most 48 digits; for a nonzero factor it is the hexadecimal of seed times factor, and with `kGpciFactor` it denotes a positive multiple of 1001 |
| `Gpci.SeedIs` | reimpl/src/net/raknet_client_adapter.cpp:6899-6917 | Each octet of the seed is the picked character of the 36 of the alphabet |
| `Gpci.HexDigitIs` | reimpl/src/net/raknet_client_adapter.cpp:6922-6940 | The digits that are printed |
| `Gpci.BigEndianIs` | reimpl/src/net/raknet_client_adapter.cpp:6859-6897 | The most significant octet comes first |
| `Gpci.HexOfNumber` | reimpl/src/net/raknet_client_adapter.cpp:6922-6940 | The text of a small number |
| `HookThunk.EmitThunk` | reimpl/src/runtime_hook_bridge.c:225-317 | In both modes the cursor ends at exactly 25 octets, which decode to the configured instruction sequence with the two slots |
| `HookThunk.EndUnique` | reimpl/src/runtime_hook_bridge.c:225-317 | A run of the small machine has at most one end |
| `HookThunk.GuardRuns` | reimpl/src/runtime_hook_bridge.c:259-272 | Load, test and jump: the machine goes on to the call with the slot value in EAX, or skips it when that is zero |
| `HookThunk.CallRuns` | reimpl/src/runtime_hook_bridge.c:259-272 | A guarded call calls the slot exactly when it is not null |
| `HookThunk.Bracketed` | reimpl/src/runtime_hook_bridge.c:257-294 | Push all, guarded call, pop all: every register is as before even if the callee spoils all of them |
| `HookThunk.CallbackFirstRuns` | reimpl/src/runtime_hook_bridge.c:225-317 | Callback first: it is called exactly when its slot is not null, then control passes to a non-null original with all registers but EAX and the return address in place, or else returns home with the stack restored |
| `HookThunk.OriginalFirstRuns` | reimpl/src/runtime_hook_bridge.c:225-317 | Original first: original and then callback are called exactly when their slots are not null, and control returns home with the registers as the original left them and ESP restored |
| `HookBridge.PatchedCallGoesToThunk` | reimpl/src/runtime_hook_bridge.c:319-363 | Decoded modulo 2^32, a call patched with the computed displacement goes to the thunk |
| `HookBridge.PatchUndone` | reimpl/src/runtime_hook_bridge.c:365-385 | Putting the saved four octets back undoes a patch |
| `HookBridge.PatchElsewhere` | reimpl/src/runtime_hook_bridge.c:319-385 | A patch leaves calls whose displacement lies outside it decoding as before |
| `HookBridge.CallOctets` | reimpl/src/runtime_hook_bridge.c:319-363 | Where a call with literal displacement octets goes, forwards and backwards |
| `HookBridge.RedirectedOctets` | reimpl/src/runtime_hook_bridge.c:319-363 | The four octets a redirection writes, and that it writes no others |
| `HookBridge.InstalledExactly` | reimpl/src/runtime_hook_bridge.c:319-363 | A configured call is installed exactly at an opcode E8, for a thunk that is not null, if the page can be unprotected |
| `HookBridge.WantedExactly` | reimpl/src/runtime_hook_bridge.c:453-470 | An installation does something exactly for a callback, when enabled and with a call configured |
| `HookBridge.Bridge.InstallCall` | reimpl/src/runtime_hook_bridge.c:319-363 | Patches exactly when the opcode is a call and the page can be unprotected; the saved target decodes the previous octets and saved octets restore the memory |
| `HookBridge.TargetIsDisplacement` | reimpl/src/runtime_hook_bridge.c:319-363 | A call goes to a thunk exactly when its four octets are the displacement computed for it |
| `HookBridge.FirstCallAfterSecond` | reimpl/src/runtime_hook_bridge.c:495-521 | Of two calls patched one after the other, with any overlap of their windows, the first still goes to its thunk exactly when the displacements agree wherever the windows overlap |
| `HookBridge.EqualWindows` | reimpl/src/runtime_hook_bridge.c:495-521 | In equal windows the second thunk replaces the first: the call goes to the first exactly when the thunks are the same |
| `HookBridge.ApartWindows` | reimpl/src/runtime_hook_bridge.c:495-521 | In windows that do not overlap the first call always goes to its thunk |
| `HookBridge.Bridge.InstallPrimary` | reimpl/src/runtime_hook_bridge.c:495-506 | The first half of an installation: patched or not, and the memory and saved octets that go with it |
| `HookBridge.Bridge.InstallSecondary` | reimpl/src/runtime_hook_bridge.c:508-521 | The second half, on the memory the first one left |
| `HookBridge.Bridge.Install` | reimpl/src/runtime_hook_bridge.c:453-537 | A call is patched exactly when it is configured, is a call in the memory then found, has a thunk and can be unprotected; the memory is then exactly that; the second call goes to its thunk, the first exactly when the second patch left its octets the same; saved targets decode the memory each patch found; whatever fails, taking out what was installed gives the memory found on entry |
| `HookBridge.Bridge.Uninstall` | reimpl/src/runtime_hook_bridge.c:539-560 | Takes out the patches last in, first out; a call whose protection cannot be lifted stays patched, and with both lifted the memory is exactly as before the patches went in |
| `HookBridge.InstallThenUninstall` | reimpl/src/runtime_hook_bridge.c:453-560 | From an uninstalled state, for any two addresses, even overlapping or equal ones, the code memory is as before |
| `HookBridge.InstallTwiceThenUninstall` | reimpl/src/runtime_hook_bridge.c:453-560 | Installing twice forgets the first saved octets: uninstalling goes back to exactly the memory the first installation left |
| `HookBridge.RedirectedIsNoChange` | reimpl/src/runtime_hook_bridge.c:319-363 | That memory is the original one, for a single call, exactly when the call already went to the first thunk |
| `HookBridge.BothRedirectedIsNoChange` | reimpl/src/runtime_hook_bridge.c:319-363 | For two calls that do not overlap, exactly when each already went to its first thunk |
| `HookBridge.InstallOnSameCall` | reimpl/src/runtime_hook_bridge.c:453-537 | Both addresses configured to one call: it goes to the second thunk, to the first exactly when they are the same, and the second takes the first for the original |
| `ClassSelection.StepKeepsInvariant` | reimpl/src/net/raknet_client_adapter.cpp:484-515 | Every message, call and service turn keeps an orderly trace and the flags that tell what it says: class count, open dialog, the two death flags, standing requests |
| `ClassSelection.ServeKeepsInvariant` | reimpl/src/net/raknet_client_adapter.cpp:5945-6004 | A service turn sends only what the trace so far allows, whether or not each send succeeds |
| `ClassSelection.LatchKeepsInvariant` | reimpl/src/net/raknet_client_adapter.cpp:8474-8527 | Marking and re-selecting keep the two death flags exclusive, and re-selections at most as many as marks |
| `ClassSelection.ClassReplyKeepsInvariant` | reimpl/src/net/raknet_client_adapter.cpp:6178-6191 | A class reply of any length keeps it |
| `ClassSelection.SpawnReplyKeepsInvariant` | reimpl/src/net/raknet_client_adapter.cpp:6192-6207 | So does a spawn reply |
| `ClassSelection.AskKeepsInvariant` | reimpl/src/net/raknet_client_adapter.cpp:8564-8585 | So does a spawn request by hand, also under the latch |
| `ClassSelection.ChangeKeepsInvariant` | reimpl/src/net/raknet_client_adapter.cpp:8529-8562 | Changing the class by hand keeps it, also when it overrides a pending reply after a death |
| `ClassSelection.EveryRunIsSafe` | reimpl/src/net/raknet_client_adapter.cpp:484-515 | In every run: each class sent is below the number last announced, each spawn request follows a nonzero class reply with no dialog shown and unanswered, no request is sent while one of its kind stands, hand-made overrides only happen after a re-selection, and the death flags exclude each other |
| `ClassSelection.OpenIsStandingOrSetAside` | reimpl/src/net/raknet_client_adapter.cpp:484-515 | In any trace an open request either stands or was set aside, not both |
| `ClassSelection.RequestsAreSeparated` | reimpl/src/net/raknet_client_adapter.cpp:5945-6004 | Between two class requests there is a reply, a reset, a re-selection or a change by hand under the latch; between two spawn requests a denial, a reset, a re-selection or a confirmation under the latch |
| `ClassSelection.RepeatedExactlyWhenSetAside` | reimpl/src/net/raknet_client_adapter.cpp:8497-8585 | A request is sent while an earlier one is open exactly when a re-selection or such an override set that one aside while it was open, and nothing closed it since |
| `ClassSelection.OverrideSetsAside` | reimpl/src/net/raknet_client_adapter.cpp:8497-8585 | In any run, an override sets a class request aside exactly when a reply is awaited or one was set aside already; a spawn request exactly when one is open, as it is while spawn sends are counted |
| `ClassSelection.SeparatedWithoutReselection` | reimpl/src/net/raknet_client_adapter.cpp:5945-6004 | In a session without a re-selection, even after one that had some, no request is sent while an earlier one is open |
| `ClassSelection.SecondClassRequest` | reimpl/src/net/raknet_client_adapter.cpp:8497-8527 | A run in which a re-selection sends a second class request with no reply or reset between |
| `ClassSelection.SecondSpawnRequest` | reimpl/src/net/raknet_client_adapter.cpp:8564-8585 | A run in which, after a re-selection and a short class reply, confirming by hand repeats an open spawn request |
| `ClassSelection.ChangeSelects` | reimpl/src/net/raknet_client_adapter.cpp:8529-8562 | A change by hand is accepted exactly when selection is ready or latched and 250 ms have passed; of n classes it then schedules (s + 1) mod n or (s - 1) mod n |
| `ClassSelection.NoChange` | reimpl/src/net/raknet_client_adapter.cpp:8538-8540 | A change by 0 is none |
| `ClassSelection.KeysSelect` | reimpl/src/net/raknet_client_adapter.cpp:5964-5987 | The right and left keys choose in the same way, the left one first, and not before the delay |
| `ClassSelection.ChangeIsSent` | reimpl/src/net/raknet_client_adapter.cpp:5945-5962 | The next turn sends exactly the class an accepted change chose |
| `ClassSelection.NeighbourOfNeighbour` | reimpl/src/net/raknet_client_adapter.cpp:8553-8561 | A change forth and one back returns to the class |
| `ClassSelection.ChangesVisitAll` | reimpl/src/net/raknet_client_adapter.cpp:8553-8561 | n changes one way visit every class and end where they began |
| `ClassSelection.TourSends` | reimpl/src/net/raknet_client_adapter.cpp:8529-8562 | Over any number of changes at least 250 ms apart, each sent and accepted, the classes requested are the neighbours in order, round and round |
| `ClassSelection.TurnSends` | reimpl/src/net/raknet_client_adapter.cpp:5903-6004 | Everything a service turn sends, from the state before it: a dialog response, a class request, a spawn request |
| `ClassSelection.TurnLeaves` | reimpl/src/net/raknet_client_adapter.cpp:5903-6004 | And the flags it leaves |
| `ClassSelection.ReplyUnlatches` | reimpl/src/net/raknet_client_adapter.cpp:6178-6191 | A class reply takes the after-death latch away exactly with a nonzero outcome and 45 octets of spawn information |
| `ClassSelection.ReplyToSpawn` | reimpl/src/net/raknet_client_adapter.cpp:6192-6207 | A spawn reply with an outcome other than 1 and 2 is a denial |
| `ClassSelection.AskedSpawnIsSent` | reimpl/src/net/raknet_client_adapter.cpp:8564-8585 | A spawn asked for by hand is sent by the next turn exactly when no reply is awaited, the last outcome was not 0, and none was sent or the latch is set |
| `ClassSelection.DialogIsShown` | reimpl/src/net/raknet_client_adapter.cpp:6715-6736 | A dialog shown is open, and remembered by its number |
| `ClassSelection.AnswerIsSent` | reimpl/src/net/raknet_client_adapter.cpp:8588-8600 | A response goes out exactly for a dialog that is open or was the last |
| `ClassSelection.FirstClass` | reimpl/src/net/raknet_client_adapter.cpp:6167-6177 | The first announcement of a session has class 0 requested by the next turn |
| `ClassSelection.LaterInitGame` | reimpl/src/net/raknet_client_adapter.cpp:6167-6177 | A later one changes only the number of classes |
| `ClassSelection.MarkThenReselect` | reimpl/src/net/raknet_client_adapter.cpp:8474-8527 | A death is marked once, re-selection uses the mark up, and the next turn requests the selected class even while a reply is awaited |
| `ClassSelection.NothingBeforeInitGame` | reimpl/src/net/raknet_client_adapter.cpp:8474-8506 | Neither has an effect before the session has begun |
| `ClassSelection.NoReselection` | reimpl/src/net/raknet_client_adapter.cpp:8504-8506 | Without a pending mark there is no re-selection |
| `ClassSelection.Session.ScheduleRequestClass` | reimpl/src/net/raknet_client_adapter.cpp:500-509 | Schedules the clamped class, as the handshake step says |
| `ClassSelection.Session.OnInitGame` | reimpl/src/net/raknet_client_adapter.cpp:6167-6177 | Refines the step taken on RPC 139: a first class request is scheduled only when none was sent or is under way |
| `ClassSelection.Session.OnClassReply` | reimpl/src/net/raknet_client_adapter.cpp:6178-6191 | Refines the step on RPC 128, including replies too short to unlatch a death re-selection |
| `ClassSelection.Session.OnSpawnReply` | reimpl/src/net/raknet_client_adapter.cpp:6192-6207 | Refines the step on RPC 129: a denial permits another request |
| `ClassSelection.Session.OnDialog` | reimpl/src/net/raknet_client_adapter.cpp:6715-6736 | Refines the step on a dialog |
| `ClassSelection.Session.Service` | reimpl/src/net/raknet_client_adapter.cpp:5903-6004 | The service turn, phase by phase on the fields, refines the pure turn the safety result is about |
| `ClassSelection.Session.ServiceRequestClass` | reimpl/src/net/raknet_client_adapter.cpp:5945-5962 | Phase: sends the pending class unless a reply is awaited |
| `ClassSelection.Session.ServiceKeys` | reimpl/src/net/raknet_client_adapter.cpp:5964-5987 | Phase: shift schedules a spawn on its press, arrows a class after the delay, and only while manual selection is ready |
| `ClassSelection.Session.ServiceRequestSpawn` | reimpl/src/net/raknet_client_adapter.cpp:5989-6004 | Phase: the pending spawn waits for the dialog to close; a failed send is counted as none |
| `ClassSelection.Session.ServiceDialogResponse` | reimpl/src/net/raknet_client_adapter.cpp:5908-5943 | Phase: the queued response goes out once, and only a successful send closes the dialog |
| `ClassSelection.Session.MarkClassSelectionAfterDeath` | reimpl/src/net/raknet_client_adapter.cpp:8474-8495 | Refines the mark step; the return code says whether it took |
| `ClassSelection.Session.RequestClassSelectionAfterDeath` | reimpl/src/net/raknet_client_adapter.cpp:8497-8527 | Refines the re-selection step; it consumes a mark |
| `ClassSelection.Session.RequestClassDelta` | reimpl/src/net/raknet_client_adapter.cpp:8529-8562 | Refines the manual class change; the return code tells an inactive selection from a delay not yet over |
| `ClassSelection.Session.RequestSpawn` | reimpl/src/net/raknet_client_adapter.cpp:8564-8585 | Refines the manual spawn request; the return code tells an inactive selection from a missing nonzero reply |
| `ClassSelection.Session.QueueDialogResponse` | reimpl/src/net/raknet_client_adapter.cpp:8587-8598 | Refines the queueing of a dialog response |
| `ClassSelection.Session.ResetRuntime` | reimpl/src/net/raknet_client_adapter.cpp:1025-1114 | Refines the reset: every field of the handshake is cleared |
| `ClassSelection.RunSession` | reimpl/src/net/raknet_client_adapter.cpp:5903-6004 | Any sequence of messages, calls and turns on the object ends in the state of the pure run, which keeps the invariant |
| `EventRing.BumpCounts` | reimpl/src/net/raknet_client_adapter.cpp:2799-2808 | The 32-bit counter that skips 0 is the event count folded into 1 .. 2^32 - 1, and the count itself before the wrap |
| `EventRing.CounterDistance` | reimpl/src/net/raknet_client_adapter.cpp:2799-2808 | Fewer than 2^32 - 1 events apart, counter values that have not fallen differ by the number of events |
| `EventRing.DifferentSlots` | reimpl/src/net/raknet_client_adapter.cpp:2841-2855 | Sequence numbers less than a ring size apart have different slots |
| `EventRing.PushKeeps` | reimpl/src/net/raknet_client_adapter.cpp:2841-2855 | After a push the newest numbers stand in their slots, also across the wrap |
| `EventRing.Ring.Push` | reimpl/src/net/raknet_client_adapter.cpp:2841-2855 | Appends to the log and numbers the event |
| `EventRing.Ring.Read` | reimpl/src/net/raknet_client_adapter.cpp:8314-8328 | One turn of the snapshot loop yields the event with that number: the per-slot check never drops one |
| `EventRing.Ring.Snapshot` | reimpl/src/net/raknet_client_adapter.cpp:8314-8328 | After any number of pushes the snapshot is the contiguous in-order suffix of the log with its numbers, of length min(counter, size) |
| `EventRing.Ring.SnapshotUpTo` | reimpl/src/net/raknet_client_adapter.cpp:7963-7975 | The loop form `seq <= counter` gives the same result below the last counter value |
| `EventRing.LoopEnds` | reimpl/src/net/raknet_client_adapter.cpp:7963-7975 | With a 32-bit loop variable that form comes to an end exactly when the counter is below its last value |
| `Recovery.SlotIsFold` | reimpl/src/net/raknet_client_adapter.cpp:4151-4162 | After any log each slot is the fold of the events addressed to it, whatever the others received |
| `Recovery.CopyRecovers` | reimpl/include/sampdll/net/raknet_client_adapter.h:395-397 | From any earlier mirror, copying the slots with a greater revision gives exactly the current store while the counter has not wrapped |
| `Recovery.CopyIsExact` | reimpl/include/sampdll/net/raknet_client_adapter.h:395-397 | For logs of any length: copying the slots with a greater revision misses a slot exactly when its last event came later, was numbered from the start again, and changed it |
| `Recovery.ReplayRecovers` | reimpl/include/sampdll/net/raknet_client_adapter.h:395-397 | From any earlier mirror, replaying the numbered ring events after it gives exactly the current store, if the ring still holds them all |
| `Actors.Store.Receive` | reimpl/src/net/raknet_client_adapter.cpp:4194-4413 | The branch-by-branch slot update equals the event function, animations of the excepted library (compared up to the first terminator) included; refused messages change neither slot nor ring |
| `Actors.Store.QueueEvent` | reimpl/src/net/raknet_client_adapter.cpp:4151-4162 | The event is numbered, and its number becomes the state number |
| `Actors.Store.GetActorState` | reimpl/src/net/raknet_client_adapter.cpp:8340-8354 | Reads the fold of the log at a valid actor number |
| `Actors.ActorIsFold` | reimpl/src/net/raknet_client_adapter.cpp:4194-4413 | Each actor is the fold of its own events |
| `Actors.LastEventDecides` | reimpl/src/net/raknet_client_adapter.cpp:4194-4413 | Each part of an actor is what the last message to say something about it said |
| `Actors.CreationDecides` | reimpl/src/net/raknet_client_adapter.cpp:4194-4413 | Until then it is as created, without an animation |
| `Actors.IgnoredIs` | reimpl/src/net/raknet_client_adapter.cpp:4311-4320 | The animation library ignored is exactly the text `SEX` |
| `Actors.IgnoredChangesNothing` | reimpl/src/runtime_bridge.c:13728-13736 | An animation from it changes nothing of the actor |
| `Actors.AcceptedExactly` | reimpl/src/net/raknet_client_adapter.cpp:4202-4223 | Which messages are taken up: a create with a skin from 0 to 311 other than 74, anything else for an active actor |
| `Actors.Store.TakeSnapshot` | reimpl/src/net/raknet_client_adapter.cpp:8226-8239 | The newest events with their numbers, and the state number |
| `Actors.SnapshotHolds` | reimpl/src/net/raknet_client_adapter.cpp:8226-8239 | A snapshot holds the last 128 events in order, or all while there are fewer |
| `GangZones.Store.Receive` | reimpl/src/net/raknet_client_adapter.cpp:2877-2921 | Show, hide, flash and stop-flash update a zone as the event function says, and number it |
| `GangZones.ZoneIsFold` | reimpl/src/net/raknet_client_adapter.cpp:2877-2921 | Each zone is the fold of its own events |
| `GangZones.GoneUntilCreated` | reimpl/src/net/raknet_client_adapter.cpp:2877-2921 | No zone is there before a create, or after a destroy with no create since |
| `GangZones.LastCreateDecides` | reimpl/src/net/raknet_client_adapter.cpp:2877-2921 | From its last create on a zone has the bounds and base colour of that message, and shows the last flash colour unless a stop came after it |
| `GangZones.FlashingKeepsBase` | reimpl/src/net/raknet_client_adapter.cpp:2877-2921 | However often an active zone flashes, its bounds and base colour stay, and a stop puts the shown colour back to the base |
| `GangZones.Store.TakeSnapshot` | reimpl/src/net/raknet_client_adapter.cpp:8209-8225 | The newest events with their numbers, every slot, and the state number |
| `GangZones.SnapshotHolds` | reimpl/src/net/raknet_client_adapter.cpp:8209-8225 | A snapshot holds the last 128 events in order, or all while there are fewer |
| `ZoneMirror.StepAgrees` | reimpl/src/runtime_bridge.c:11839-11900 | Applying an event to the mirror of a zone gives the mirror of the zone after the event |
| `ZoneMirror.TakenIs` | reimpl/src/runtime_bridge.c:11825-11830 | The mirror of a zone, corner by corner: left, top, right, bottom from minX, maxY, maxX, minY |
| `ZoneMirror.Mirror.DecrementActiveCount` | reimpl/src/runtime_bridge.c:11832-11837 | The count of active zones is positive when it is decremented: the correction is dead |
| `ZoneMirror.Mirror.ApplyToSlot` | reimpl/src/runtime_bridge.c:11839-11906 | The branches equal the event function, and the count stays the number of active zones |
| `ZoneMirror.Mirror.Resync` | reimpl/src/runtime_bridge.c:11908-11951 | Whatever the mirror held, it becomes the mirror of every zone in the snapshot |
| `ZoneMirror.Mirror.UpdateFromSnapshot` | reimpl/src/runtime_bridge.c:11953-11999 | Nothing, an event-by-event replay or a copy of every slot, exactly as the two numbers and the ring decide |
| `ZoneMirror.Mirror.ReplayLoop` | reimpl/src/runtime_bridge.c:11976-11998 | The loop applies exactly the events after the last one seen, or finds the gap at the first of them; there is never one at the tail |
| `ZoneMirror.CatchesUp` | reimpl/src/runtime_bridge.c:11953-11999 | A mirror that was right is right after the update if fewer than 2^32 - 1 events came between, and whenever every slot is copied |
| `ZoneMirror.FallsBehind` | reimpl/src/runtime_bridge.c:11967-11997 | In every other case there is a log after which it is wrong |
| `ZoneMirror.CatchesUpExactly` | reimpl/src/runtime_bridge.c:11953-11999 | So for all logs of given lengths the update is enough exactly under that condition |
| `ZoneMirror.FallsBehindAtWrap` | reimpl/src/runtime_bridge.c:11967-11997 | Lengths at which it falls behind: from one event on, a whole round of the counter |
| `ZoneMirror.Turn` | reimpl/src/runtime_bridge.c:11953-11999 | Any fewer than 2^32 - 1 messages, then a snapshot and an update: the mirror is right again |
| `ZoneMirror.Follow` | reimpl/src/runtime_bridge.c:11953-11999 | Over a session of any number of snapshots the mirror is right after each |
| `ActorMirror.StepShowsExactly` | reimpl/src/runtime_bridge.c:13686-13758 | Replaying an event keeps what the mirror shows equal to what copying the slot would show exactly when the narrower range of positions treats the event and the actor alike |
| `ActorMirror.ShowsMeans` | reimpl/src/runtime_bridge.c:13760-13815 | Showing an actor is holding all its fields, of an animation only one that is set; and nothing of an inactive one or one out of range |
| `ActorMirror.AppliedShowsExactly` | reimpl/src/runtime_bridge.c:13686-13758 | For a whole mirror and any log: from one that shows every actor, applying the last event leads to one that does exactly when the event is in step |
| `ActorMirror.Mirror.ApplyToSlot` | reimpl/src/runtime_bridge.c:13686-13758 | The branches equal the event function, which stamps each part of the actor that it sets with the number of the event |
| `ActorMirror.Mirror.Resync` | reimpl/src/runtime_bridge.c:13816-13845 | Every slot is queried and taken over as the authoritative state says |
| `ActorMirror.Mirror.HasGap` | reimpl/src/runtime_bridge.c:13858-13883 | The first loop finds a gap exactly when the ring no longer holds every event after the last one seen |
| `ActorMirror.Mirror.ApplyNewer` | reimpl/src/runtime_bridge.c:13885-13891 | The second loop replays exactly those events |
| `ActorMirror.Mirror.UpdateFromSnapshot` | reimpl/src/runtime_bridge.c:13847-13908 | Nothing, a replay or a copy, as the two numbers and the ring decide; a number that fell is not noticed |
| `ActorMirror.ReplayShowsExactly` | reimpl/src/runtime_bridge.c:13885-13891 | For any log, replaying the events after a point shows every actor after each of them exactly when each of them is in step |
| `ActorMirror.NearIsInStep` | reimpl/src/runtime_bridge.c:13686-13758 | Every event of a log is in step if all its positions are in the range of the consumer |
| `ActorMirror.CopyShows` | reimpl/src/runtime_bridge.c:13760-13845 | A copy shows every actor whatever the mirror held and whatever the events were |
| `ActorMirror.CatchesUp` | reimpl/src/runtime_bridge.c:13847-13908 | A mirror that showed every actor shows it again after the update if every slot is copied, or the counter has not started again and every event since is in step |
| `ActorMirror.FallsBehind` | reimpl/src/runtime_bridge.c:13847-13908 | In every other case there is a log, with every event in step, after which it does not |
| `ActorMirror.CatchesUpExactly` | reimpl/src/runtime_bridge.c:13847-13908 | So for all logs of given lengths whose events are in step, the update is enough exactly when it copies or the counter has not started again |
| `ActorMirror.OnlyCopiesCatchUp` | reimpl/src/runtime_bridge.c:13847-13908 | For all logs of given lengths, in step or not, the update is enough exactly when it copies |
| `ActorMirror.MovedFallsBehind` | reimpl/src/runtime_bridge.c:13747-13758 | A log whose last event moves an actor out of range, after which a replay does not show it as a copy would |
| `ActorMirror.FallsBehindAtWrap` | reimpl/src/runtime_bridge.c:13866-13901 | Lengths at which it falls behind: one event, the first after the last value of the counter |
| `ActorMirror.NeverShownAgain` | reimpl/src/runtime_bridge.c:13866-13901 | From the last value of the counter on, an actor created afterwards is not shown after any number of further updates |
| `ActorMirror.UpdateTells` | reimpl/src/runtime_bridge.c:13686-13845 | An update, by replay or by copy, changes no part of an active actor without another number for that part, if none has one of the new numbers already: the comparison that carries changes out then misses none |
| `ActorMirror.UpdateTellsExactly` | reimpl/src/runtime_bridge.c:13686-13845 | For a mirror that shows every actor and all logs that follow, that holds exactly when no part of an active actor has one of the new numbers |
| `ActorMirror.EveryUpdateTells` | reimpl/src/runtime_bridge.c:13847-13908 | In every session of fewer than 2^32 events, with any positions and any points of update, every update tells of every change |
| `ActorMirror.SameNumberAgain` | reimpl/src/runtime_bridge.c:13747-13758 | A session past the first wrap in which a move leaves the number of the position as it was |
| `ActorMirror.FarMoveDiverges` | reimpl/src/runtime_bridge.c:13747-13785 | An actor moved out of the consumer's range stays visible where it was on replay and vanishes on a copy |
| `ActorMirror.Turn` | reimpl/src/runtime_bridge.c:13847-13908 | Any messages, a snapshot and an update: the mirror shows every actor if it copied, or if it did before, the counter has not started again and the events were in step; every part that changed has another number unless it had a new one already |
| `ActorMirror.Follow` | reimpl/src/runtime_bridge.c:13847-13908 | Over a session of fewer than 2^32 messages the mirror shows every actor after each snapshot, if the events were in step, as they are when all positions are in range |
| `ObjectModel.BuildSucceeds` | reimpl/src/net/raknet_client_adapter.cpp:1738-1766 | The replacement row succeeds exactly when every listed material can be allocated and no prefix of the list breaks the budget; it then holds the last material listed for each slot |
| `ObjectModel.BuildBounds` | reimpl/src/net/raknet_client_adapter.cpp:1738-1766 | Succeeding or not, retained plus replacement text stays within the budget, and every record carries the new generation in its own slot |
| `ObjectModel.CreateKeeps` | reimpl/src/net/raknet_client_adapter.cpp:2045-2073 | An accepted create keeps the invariant, whatever allocations fail |
| `ObjectModel.SetMaterialKeeps` | reimpl/src/net/raknet_client_adapter.cpp:1788-1843 | So does a material update, stored or refused |
| `ObjectModel.DestroyKeeps` | reimpl/src/net/raknet_client_adapter.cpp:2188-2196 | So does a destroy |
| `ObjectModel.StepKeeps` | reimpl/src/net/raknet_client_adapter.cpp:1584-1843 | So does every step, reset and client destruction included |
| `ObjectModel.EveryRunKeeps` | reimpl/src/net/raknet_client_adapter.cpp:1584-1843 | Every run keeps it: exact text counter within the budget, records current, objects consistent with their create events, every generation and revision the 32-bit number of an increment of its own, every descriptor naming a slot at least as young while its object lives |
| `ObjectModel.TextIsAccountedFor` | reimpl/src/net/raknet_client_adapter.cpp:1594-1611 | After every run the text counter is the sum over all occupied slots and at most 8 MiB |
| `ObjectModel.LiveGenerationsDiffer` | reimpl/src/net/raknet_client_adapter.cpp:2045-2060 | Live objects have pairwise different generations until the counter wraps |
| `ObjectModel.HowDescriptorsResolve` | reimpl/src/net/raknet_client_adapter.cpp:8356-8405 | In any run, past any number of wraps: in the life it was queued for, a descriptor resolves to the record unless the record's 32-bit number is smaller; in another life it is gone unless both lives got the same 32-bit generation and the slot is occupied |
| `ObjectModel.BehindExactlyWhenWrapped` | reimpl/src/net/raknet_client_adapter.cpp:1549-1558 | Fewer than 2^32 - 1 updates apart, the younger revision is the smaller one exactly when the counter wrapped in between |
| `ObjectModel.SameGenerationExactly` | reimpl/src/net/raknet_client_adapter.cpp:1549-1558 | Two creates get the same generation exactly when a multiple of 2^32 - 1 creates lie between them |
| `ObjectModel.NoStaleResolution` | reimpl/src/net/raknet_client_adapter.cpp:8356-8405 | Until the counters wrap, every descriptor queued resolves to a record at least as new when its generation is current, and to -2 otherwise; -3 is out of reach and a re-created object is never read |
| `ObjectModel.SetThenGet` | reimpl/src/net/raknet_client_adapter.cpp:1788-1843 | An update of a live object that can be made and afforded is what its descriptor then resolves to: all fields of the message, of a text the part up to its terminator and 2048 characters, and its share of the text counter; any other changes no answer; no other slot is touched |
| `ObjectModel.RetainedUnique` | reimpl/src/net/raknet_client_adapter.cpp:1572-1582 | A text has one retained part |
| `ObjectModel.ShortText` | reimpl/src/net/raknet_client_adapter.cpp:1572-1582 | A text of at most 2048 characters without a terminator is retained whole |
| `ObjectModel.CreateThenGet` | reimpl/src/net/raknet_client_adapter.cpp:1718-1786 | After an accepted create the sixteen slots are empty, or a query finds the last material listed for a slot, with all its fields |
| `ObjectModel.CreateSucceeds` | reimpl/src/net/raknet_client_adapter.cpp:1738-1786 | A create whose materials are all acceptable and allocated keeps one for each slot listed, if sixteen full texts fit; one with any other material, or without its list, keeps none |
| `ObjectModel.DestroyThenGet` | reimpl/src/net/raknet_client_adapter.cpp:2175-2197 | After a destroy nothing is found of the object, it is not alive, and what it retained is given back; other objects are as before |
| `ObjectModel.ResetThenCreate` | reimpl/src/net/raknet_client_adapter.cpp:1025-1292 | After a reset nothing is found, and the next create makes generation 1 |
| `ObjectModel.DetachedThenGet` | reimpl/src/net/raknet_client_adapter.cpp:7155-7169 | Once the client is destroyed every query is a bad call, and messages change nothing |
| `ObjectModel.OtherIsLogged` | reimpl/src/net/raknet_client_adapter.cpp:1532-1547 | Any other message leaves one descriptor with the generation of its object, and nothing else |
| `ObjectModel.FoundExactly` | reimpl/src/net/raknet_client_adapter.cpp:8356-8405 | A query finds exactly the record of the life asked for, if it is at least as new as asked |
| `ObjectModel.WrappedRevisionIsBehind` | reimpl/src/net/raknet_client_adapter.cpp:8386-8388 | A run in which the revision counter wraps between two updates, and the older descriptor is answered with -3 |
| `ObjectModel.ReusedGenerationIsStale` | reimpl/src/net/raknet_client_adapter.cpp:8376-8381 | A run in which the generation counter comes round, and an old descriptor reads the material of a re-created object |
| `ObjectModel.CreateIsTransaction` | reimpl/src/net/raknet_client_adapter.cpp:1718-1786 | After any accepted create each slot holds the last material listed for it or nothing, or on any failure all sixteen are empty; the object is alive with a fresh generation, other objects untouched |
| `ObjectModel.LifecycleIsConsistent` | reimpl/src/net/raknet_client_adapter.cpp:8407-8430 | While attached the lifecycle query is never -2, and says alive exactly for a nonzero generation, matching the stored create event |
| `ObjectStore.ExactlyOneCell` | reimpl/src/net/raknet_client_adapter.cpp:1584-1611 | Every allocation not yet freed stands in exactly one cell of the table |
| `ObjectStore.Store.Free` | reimpl/src/net/raknet_client_adapter.cpp:1584-1592 | Only a live allocation can be freed, and it is then no longer live: nothing is freed twice |
| `ObjectStore.Store.TextSize` | reimpl/src/net/raknet_client_adapter.cpp:1572-1582 | The loop finds the terminator or the last place of the buffer |
| `ObjectStore.Store.Allocate` | reimpl/src/net/raknet_client_adapter.cpp:1645-1687 | Gives a record with cut text exactly when the fields are acceptable and both allocations are granted, and leaks nothing when the second fails |
| `ObjectStore.Store.ReleaseSlot` | reimpl/src/net/raknet_client_adapter.cpp:1594-1611 | Empties one cell, frees its allocation and takes its size off the text counter, which never falls short: the saturating branch is dead |
| `ObjectStore.Store.ReleaseObject` | reimpl/src/net/raknet_client_adapter.cpp:1613-1635 | Empties the row of one object and frees what stood there, nothing else |
| `ObjectStore.Store.ReleaseAll` | reimpl/src/net/raknet_client_adapter.cpp:1637-1643 | Frees everything; zeroing counter and table afterwards changes nothing |
| `ObjectStore.Store.TextBytesOf` | reimpl/src/net/raknet_client_adapter.cpp:1689-1702 | The sum over one row, never more than the counter |
| `ObjectStore.Store.AddSpare` | reimpl/src/net/raknet_client_adapter.cpp:1738-1766 | One turn of the loop keeps every spare allocation in one cell or frees it |
| `ObjectStore.Store.BuildSpares` | reimpl/src/net/raknet_client_adapter.cpp:1738-1766 | The loop builds the replacement row and stops at the first failure, leaving the table alone |
| `ObjectStore.Store.InstallOne` | reimpl/src/net/raknet_client_adapter.cpp:1770-1778 | Moves one spare into its empty slot and adds its size |
| `ObjectStore.Store.FreeSpares` | reimpl/src/net/raknet_client_adapter.cpp:1781-1784 | The cleanup frees every spare left and nothing in the table |
| `ObjectStore.Store.Replace` | reimpl/src/net/raknet_client_adapter.cpp:1718-1786 | The row changes as a whole or not at all, with exact text accounting and no allocation outside the table afterwards |
| `ObjectStore.Store.StoreRecord` | reimpl/src/net/raknet_client_adapter.cpp:1788-1843 | The record is stored exactly when it can be allocated and afforded; otherwise the table is as it was |
| `ObjectStore.Store.Put` | reimpl/src/net/raknet_client_adapter.cpp:1835-1838 | Stores the new allocation in the emptied slot and keeps the counter exact |
| `ObjectStore.Store.OnCreate` | reimpl/src/net/raknet_client_adapter.cpp:2045-2073 | Refines the create step on table, counters, objects and ring |
| `ObjectStore.Store.OnDestroy` | reimpl/src/net/raknet_client_adapter.cpp:2175-2197 | Refines the destroy step |
| `ObjectStore.Store.OnMaterial` | reimpl/src/net/raknet_client_adapter.cpp:3443-3500 | Refines the material step; accepted exactly when a descriptor was queued |
| `ObjectStore.Store.OnOther` | reimpl/src/net/raknet_client_adapter.cpp:1532-1547 | Any other object event is queued with the object's generation |
| `ObjectStore.Store.OnReset` | reimpl/src/net/raknet_client_adapter.cpp:1025-1292 | Refines the reset and leaves no allocation |
| `ObjectStore.Store.OnDestroyClient` | reimpl/src/net/raknet_client_adapter.cpp:7155-7169 | Refines the destruction of the client and leaves no allocation |
| `ObjectStore.Store.GetMaterial` | reimpl/src/net/raknet_client_adapter.cpp:8356-8405 | Answers as the resolution function the no-stale result is about |
| `ObjectStore.Store.GetLifecycle` | reimpl/src/net/raknet_client_adapter.cpp:8407-8430 | Answers as the lifecycle function the consistency result is about |
| `ObjectStore.Run` | reimpl/src/net/raknet_client_adapter.cpp:1584-1843 | The store after any sequence of messages, resets and client destructions, with any allocation failures, is the run of the steps, and nothing is live outside its table |

## Left out

- RakNet itself, bit streams and string compression: messages arrive decoded, and sending is an outcome.
- Field-by-field payload decoding and its plausibility tests, floating-point geometry: one-branch facts; floats are opaque values.
- The pages' protection, executable allocation and instruction-cache flushing: outcomes of calls, not state.
- Critical sections: each exported call is one atomic step, made with the session's own client.
- The import-table hooks of the virtual file layer, module and registry lookup, tracing, the dialog window.
- Signature verification of an archive: a Boolean input of `Open`.
- The wrap of `round_block_size` at sizes near 2^32: table entries hold sizes below 2^24.
- Text-draw and client-message rings: they number their entries differently and are not part of the ring results.
- The spawn information carried by replies, the spawn outcome field and the score-update timer of the service turn.
- Score, vehicle, map-icon and label events: the ring results are generic, their payloads are not modelled.
- Sockets, dual-stack connection, the TCP bootstrap manager and the RakNet bridge.
- ObjectStore.Store.Allocate: names are carried along whole, because the copies have buffers as large as their sources; a record's storage and text buffer count as one allocation once both are granted.
- ObjectStore.Store.ReleaseAll: the text counter and table of the code are 32-bit fields; the invariant keeps them within 8 MiB, so no wrap is modelled.
- ClassSelection.Session.ServiceRequestSpawn: the count of spawn sends is unbounded, because it is only compared with zero and stays at most one without a re-selection.
- HookThunk.CallbackFirstRuns: memory is kept by words, so no octet of the callback slot may be among the 32 that the thunk pushes, and the original's slot may lie there only aligned.
- HookThunk.OriginalFirstRuns: under the same condition on the callback slot.
- The physical actors, and carrying changed parts out on them; which positions the consumer accepts is a parameter.
- ActorMirror.Mirror.UpdateFromSnapshot: no message arrives between a snapshot and the update from it; store and mirror are reset together.
- ZoneMirror.Mirror.ApplyToSlot: the consumer's test of the bounds repeats the decoder's and cannot fail.
- HostPort.Parse: null arguments, and what the output held behind the end of the host.
