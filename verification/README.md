# android-platform-knife, verified

A Dafny model of the hardest logic in two programs of this repository, the Firehose
loader `fh_loader` and the PuTTY tools, with proofs of what that logic is for.

* **SHA-256** (`Fips180`, `Sha256`): the buffered, unrolled implementation of the loader
  refines FIPS 180-4 for every message and every way of feeding it.
* **Validated image programming** (`DigestTables`, `Vip`, `VipHost`): a dry run records one
  digest per packet; the list is cut into a signed table and a chain of further tables;
  the real run slips the tables in between the packets, led only by two counters. The
  target is a state machine that checks every packet against the next digest of its table
  and every table against the link of the one before.
* **Sparse images** (`Sparse`, `SparseRead`, `SparseRuns`, `SparseMeaning`,
  `Program`, `SparseProgram`, `SparseExamples`): splitting an image into groups, reading a group across chunk headers
  in pieces of any size, and sending it in padded packets leaves on the device what the
  image means chunk by chunk, and exactly when.
* **Key files** (`Ber`, `KeyBlobs`, `OpenSsh`, `SshCom`, `SshComFile`): the writers and
  readers of OpenSSH and ssh.com private keys undo each other.
* **Configurations** (`ConfKeys`, `ConfFormat`, `Conf`): a sorted tree of typed entries, its
  byte format, and what is left of it after a truncation.
* **Smaller machines**: control sets in path order (`Dialog`), a resumable parser (`Chap`,
  `ChapCut`), 64-bit numbers in two halves (`Int64`), a queue that grows while it is run
  (`Callback`), and the order of commands (`TagSort`, `TagTable`).

Bytes and fields are in `Bytes`; facts about products and powers of two in `Arith`.

Where the source updates things in place, so does the model: contexts, readers, sockets,
the host, the box, the configuration and the callback list are classes; buffers are
arrays; loops are loops, while library calls such as `memchr`, `strcmp` and `strstr` are
functions. Each such method is proved against a function, and the promises are lemmas
about that function. The end of the program through `ExitAndShowLog` is a result value.

## Findings

* The link of the last table but one is wrong when the digests fill the chained tables
  exactly: pass 1 hashes one byte that pass 2 does not write. With tables of at least 54
  entries this is the only way a run can fail (`Vip.VipRun.RunAccepted`), and it does occur
  (`Vip.BrokenRun`).
* Tables of fewer than 54 entries are sent too early; such a run is accepted only by a
  coincidence of hashes (`Vip.VipRun.SmallTablesRejected`). `Vip.VipRun.Verdict` covers all
  runs.
* A payload that is not a multiple of the sector size corrupts a transfer of more than one
  read (`Program.SafePayloads`).
* A group of raw chunks without any data makes the loader exit
  (`SparseProgram.ProgramSparse`, `SparseExamples.EmptyGroup`).
* `sparse_open` multiplies in 32 bits. Behind a chunk of 2 to the 32 bytes or more, raw or
  skipped, every group comes to a wrong address, and of such a raw chunk only a part is sent;
  everything is right exactly when no chunk that is raw, or has raw data behind it, is that
  large (`SparseProgram.GroupsExact`, `SparseExamples.SkippedTooLittle`).
* `read_chunk_header` multiplies in 64 bits; the two agree exactly below 2 to the 32
  (`SparseRuns.HeaderExact`). Where they do not and the group goes on, headers are sent as
  data (`SparseRuns.PlacesOfRun`, `SparseExamples.LargeChunkMisread`).
* An image whose last raw chunk is cut short is opened, and the program ends when it comes
  to the missing bytes; no other chunk can be cut short (`SparseRuns.OnlyLastCut`,
  `SparseExamples.CutShort`).
* Identifiers above 30 are misread by `ber_read_id_len` unless the class has the top bit
  set (`Ber.HeaderRoundTrip`); the key files use none of them.
* A BER length or identifier of 2 to the 31 or more overflows the `int` it is read into;
  below that the reader never writes past its buffer (`Ber.ReadNumber`, `OpenSsh.Read`).
* An ssh.com import drops the leading zero of an RSA private exponent, and takes the sign of
  a last integer without bytes from the byte behind it (`SshComFile.SameBlobs`).
* With an unsigned long of 64 bits a sum of 2 to the 64 or more keeps a high half that is
  too large (`Int64.AddExact`).
* The caller of the CHAP handler looks at the state before it calls; input cut behind the
  success attribute of a message that goes on is then left unread (`ChapCut.CutExact`).
* A command text with two kinds of tags is sent twice. One without tags that starts with an
  asterisk is taken for one already written: it is overwritten, unless such texts are the
  last rows and belong there (`TagTable.TableSorted`, `TagTable.MarkedRowIsLost`).

## Model

| member | source | states |
|---|---|---|
| `Fips180.ConstantsAreRoots` | external/fh_loader/fh_loader_sha.c:74-125 | The 64 round constants and 8 initial words of the model are the first 32 fractional bits of the cube and square roots of the first primes, as FIPS 180-4 sections 4.2.2 and 5.3.3 define them |
| `Fips180.HashBlocksAppend` | external/fh_loader/fh_loader_sha.c:250-314 | Hashing two runs of whole blocks one after the other is hashing both at once |
| `Sha256.RingAdvance` | external/fh_loader/fh_loader_sha.c:144-154 | Overwriting slot j mod 16 of the 16-word ring keeps the last 16 words of the 64-word schedule in it |
| `Sha256.FirstRound` | external/fh_loader/fh_loader_sha.c:135-142 | One unrolled round with a word of the block, registers renamed instead of moved, is one FIPS 180-4 round, and the word enters the ring |
| `Sha256.LaterRound` | external/fh_loader/fh_loader_sha.c:144-154 | One unrolled round with the ring updated in place is one FIPS 180-4 round on the next schedule word |
| `Sha256.FirstRounds` | external/fh_loader/fh_loader_sha.c:166-194 | The first loop, eight renamed rounds to a turn, does rounds 0 to 15 and fills the ring |
| `Sha256.LaterRounds` | external/fh_loader/fh_loader_sha.c:203-215 | The second loop does rounds 16 to 63 on the ring |
| `Sha256.Transform` | external/fh_loader/fh_loader_sha.c:156-229 | For every state and block the unrolled transform leaves in the state the compression of FIPS 180-4 section 6.2.2 |
| `Sha256.CounterStep` | external/fh_loader/fh_loader_sha.c:278-308 | The bit counter kept modulo 2 to the 64 stays the bit count of the bytes absorbed |
| `Sha256.UsedSpaceIs` | external/fh_loader/fh_loader_sha.c:266-267 | The used space computed from the low word of the counter is the number of bytes absorbed modulo 64, for every length |
| `Sha256.Context.constructor` | external/fh_loader/fh_loader_sha.c:87-101 | A new context stands for the empty message |
| `Sha256.Context.TopUp` | external/fh_loader/fh_loader_sha.c:269-282 | Completing the buffer keeps the invariant: iv covers the whole blocks, the buffer the rest |
| `Sha256.Context.TakeBlocks` | external/fh_loader/fh_loader_sha.c:295-302 | The loop over whole blocks keeps the invariant and leaves fewer than 64 bytes |
| `Sha256.Context.Update` | external/fh_loader/fh_loader_sha.c:250-314 | After any update the context stands for the bytes before it followed by the new ones |
| `Sha256.PaddedBlocks` | external/fh_loader/fh_loader_sha.c:316-372 | The padding of FIPS 180-4 section 5.1.1, in the block at hand or in one block more |
| `Sha256.Context.MarkEnd` | external/fh_loader/fh_loader_sha.c:328-361 | The end mark and the zeros are laid out as the padding asks, with an extra block exactly when more than 55 bytes wait |
| `Sha256.Context.Pad` | external/fh_loader/fh_loader_sha.c:316-372 | iv becomes the hash value of the padded message |
| `Sha256.Context.Final` | external/fh_loader/fh_loader_sha.c:374-399 | The digest written is SHA-256 of everything absorbed; the transform after it does not touch it |
| `Sha256.Digest` | external/fh_loader/fh_loader_sha.c:250-399 | For every message and every way of cutting it into update calls the result is SHA-256 of the concatenation |
| `DigestTables.Plan.SeekShape` | external/fh_loader/fh_loader.c:4399-4405 | Where the reads of the tables start: one chunk apart, the last one before the end of the list, exactly at the end only if the digests fill the tables |
| `DigestTables.Plan.ChunkShape` | external/fh_loader/fh_loader.c:4405-4421 | Which digests each table reads, and for which tables the end-of-file test fires: the last one, and the last but one in the exactly filled case |
| `DigestTables.Plan.LinkIs` | external/fh_loader/fh_loader.c:4397-4430 | The link computed backwards in pass 1 is the hash of the table that pass 2 writes forwards, except that in the exactly filled case the last table but one is hashed with one byte more |
| `DigestTables.Plan.TableLength` | external/fh_loader/fh_loader.c:4491-4517 | Every table but the last is of full size; the last one ends one byte past a multiple of 32 |
| `DigestTables.Plan.NeverHangs` | external/fh_loader/fh_loader.c:4519-4525 | The exit for a file of a multiple of 512 bytes is unreachable, for every number of digests |
| `DigestTables.Plan.ChainedRead` | external/fh_loader/fh_loader.c:4494-4517 | Reading a table size at the offset of table c gives exactly table c |
| `DigestTables.Plan.UnlinkedIs` | external/fh_loader/fh_loader.c:4491-4517 | The tables without their links, joined, are the digest list after its first 53 digests |
| `DigestTables.HashTable` | external/fh_loader/fh_loader.c:4399-4428 | One turn of pass 1, with its fixed place for the link in the buffer, computes the link of that table |
| `DigestTables.StoreLinks` | external/fh_loader/fh_loader.c:4396-4430 | Pass 1 leaves the link of every table in the backup buffer |
| `DigestTables.WriteSigned` | external/fh_loader/fh_loader.c:4433-4482 | The file to sign: header, 53 digests and the first link, or fewer digests and a blank entry |
| `DigestTables.WriteTables` | external/fh_loader/fh_loader.c:4488-4517 | Pass 2 writes the chain of tables |
| `DigestTables.PrepareDigestTable` | external/fh_loader/fh_loader.c:4336-4532 | Fails exactly for a list that is not of whole digests; otherwise both files are as specified |
| `Vip.DigestListAt` | external/fh_loader/fh_loader.c:5024-5081 | Digest k of the list recorded by the dry run is the hash of packet k |
| `Vip.LoadTable` | external/fh_loader/fh_loader.c:4491-4517 | What a target reads out of chained table c: the next digests of the list, and the next link |
| `Vip.LoadSignedFile` | external/fh_loader/fh_loader.c:4433-4482 | What a target reads out of the signed file |
| `Vip.CountersStep` | external/fh_loader/fh_loader.c:4552-4560 | With the counter value after k packets the modulo test fires exactly when the digests of the tables sent so far are used up |
| `Vip.SendPacket` | external/fh_loader/fh_loader.c:5404-5421 | A packet with no table due is checked against its own digest and the run stays on track |
| `Vip.SendTable` | external/fh_loader/fh_loader.c:4534-4679 | A due table, read at the file offset, is the next unsent one; if its link is right the target accepts it and the packet after it, otherwise the run stops |
| `Vip.VipRun.StartOnTrack` | external/fh_loader/fh_loader.c:4747-4815 | After the signed table the counters and the target are where the run expects them |
| `Vip.VipRun.StepOnTrack` | external/fh_loader/fh_loader.c:4534-4679 | Every step keeps: after k packets the location, the file offset and the target are those of digest k |
| `Vip.VipRun.LinkedWhen` | external/fh_loader/fh_loader.c:4417-4421 | Only the last table but one can be linked wrongly, and only in the exactly filled case |
| `Vip.VipRun.RunAccepted` | external/fh_loader/fh_loader.c:4534-4679 | Over every run of at least 54 packets with tables of at least 54 entries: the target accepts everything if and only if the digests do not fill the tables exactly (or the hash cannot tell), and then packet k always meets digest (k-53) mod (M-1) of table (k-53)/(M-1) |
| `Vip.VipRun.ShortRunAccepted` | external/fh_loader/fh_loader.c:4546-4550 | Runs of up to 53 packets are accepted for every table size |
| `Vip.VipRun.SmallTablesRejected` | external/fh_loader/fh_loader.c:4747-4748 | With tables of fewer than 54 entries the first chained table goes out too early: the run is accepted only if that table and two packets in a row have the same hash |
| `Vip.VipRun.Verdict` | external/fh_loader/fh_loader.c:4534-4816 | Every run: accepted up to 53 packets; with chained tables exactly when it is not the broken one; with small tables only by a coincidence of hashes. With a hash that tells these apart: accepted if and only if there are at most 53 packets, or tables of at least 54 entries that the digests do not fill exactly |
| `Vip.BrokenRun` | external/fh_loader/fh_loader.c:4417-4421 | A run of 106 packets with tables of 54 entries that is broken and not accepted |
| `VipHost.Host.TestIfWeNeedToSendDigestTable` | external/fh_loader/fh_loader.c:4534-4679 | The test with its global counters, buffer backup and recursive send does the step of the model and restores the transmit buffer |
| `VipHost.Host.SendSignedDigestTable` | external/fh_loader/fh_loader.c:4681-4816 | Leaves counters and target in the start state of the run |
| `VipHost.Host.SendAll` | external/fh_loader/fh_loader.c:5404-5421 | Sending the packets one by one on the mutable host is the run of the model |
| `VipHost.DryRun` | external/fh_loader/fh_loader.c:5024-5081 | The digest list, computed with the SHA-256 of this program |
| `VipHost.Validate` | external/fh_loader/fh_loader.c:4336-4816 | Tables made from the list of the dry run and then sent with the packets: the verdict on the run of the model, in all three regimes |
| `Sparse.SparseOpen` | external/fh_loader/fh_loader.c:1923-2120 | The one-pass loop with its group counters computes the groups of the chunk list, and exits exactly for the images that the specification refuses |
| `Sparse.GroupsAreRuns` | external/fh_loader/fh_loader.c:2041-2069 | Each group is a maximal run of raw chunks: its offset, start sector and size |
| `Sparse.RunsAscend` | external/fh_loader/fh_loader.c:2041-2101 | Groups are disjoint and ascending on the device |
| `Sparse.RunStarts` | external/fh_loader/fh_loader.c:2041-2053 | Each group begins with the first chunk of its run, at the sector that sparse_open has counted up to there |
| `SparseMeaning.OffsetExact` | external/fh_loader/fh_loader.c:2023-2093 | The bytes that sparse_open counts are those of the image if and only if every chunk, raw or skipped, is below 2 to the 32 bytes |
| `SparseMeaning.WalkExact` | external/fh_loader/fh_loader.c:2053-2069 | sparse_open goes from header to header as the full sizes say if and only if every raw chunk is below 2 to the 32 bytes |
| `SparseMeaning.GroupsHoldAllRaw` | external/fh_loader/fh_loader.c:2053-2069 | The sizes of the groups sum to the raw bytes of the image if and only if every raw chunk is below 2 to the 32 bytes |
| `SparseMeaning.ExpandTouches` | external/fh_loader/fh_loader.c:2074-2102 | Chunk by chunk by their full sizes, exactly the raw bytes are written; no byte of a skipped chunk is touched |
| `SparseMeaning.OpenExact` | external/fh_loader/fh_loader.c:2001-2108 | Laid out with 32-bit sizes, every raw byte has the place in the file and the address on the device that the image gives it, if and only if no chunk that is raw, or has raw data behind it, has 2 to the 32 bytes or more |
| `SparseMeaning.ExpandIsRuns` | external/fh_loader/fh_loader.c:2001-2108 | Moving the raw data of every run to its start is what the image asks for, byte for byte, under the same condition and no other |
| `SparseMeaning.ExpandIsStore` | external/fh_loader/fh_loader.c:2001-2108 | The chunk-by-chunk expansion is the device after the moves of the image |
| `SparseRead.ReadChunkHeader` | external/fh_loader/fh_loader.c:2237-2277 | Steps over headers of skipped chunks to the next one with data |
| `SparseRead.PlacesSplit` | external/fh_loader/fh_loader.c:2148-2172 | What a reader has still to read, as offsets in the file, after part of a chunk has been read: the rest of it, or too little if the file ends |
| `SparseRead.Reader.constructor` | external/fh_loader/fh_loader.c:2279-2289 | The reader starts behind the first header of its group, with the size found there |
| `SparseRead.Reader.ReadPiece` | external/fh_loader/fh_loader.c:2148-2172 | One turn reads a prefix of what is left, without header bytes, and makes progress even over raw chunks without data |
| `SparseRead.Reader.SparseRead` | external/fh_loader/fh_loader.c:2123-2175 | For any request size, on any file: the bytes returned are those at the next places of what is left, and it fails exactly when fewer places are left than asked for |
| `SparseRuns.HeaderExact` | external/fh_loader/fh_loader.c:2237-2277 | For an accepted raw chunk the size computed by the reader in 64 bits is the size computed by the opener in 32 if and only if it is below 2 to the 32 |
| `SparseRuns.RunsLinked` | external/fh_loader/fh_loader.c:2041-2069 | Inside a group raw chunks follow each other, so no skipped chunk is ever met there |
| `SparseRuns.PlacesOfRun` | external/fh_loader/fh_loader.c:2123-2175 | Read from its offset, a group gives the places of its raw data and no header bytes, if and only if no chunk that has data behind it in the group has 2 to the 32 bytes or more |
| `SparseRuns.RunPlacesData` | external/fh_loader/fh_loader.c:2123-2175 | The bytes at those places are the raw data of the group, all of it if and only if no chunk is cut short |
| `SparseRuns.OnlyLastCut` | external/fh_loader/fh_loader.c:2001-2108 | In an image that is opened only the last chunk can be cut short |
| `Program.TransferIsRight` | external/fh_loader/fh_loader.c:8826-8905 | With a payload of whole sectors the packets concatenate to the source padded to a sector and cut to the sectors announced, none above the limit; the loop fails exactly when the source is too short |
| `Program.TransferOfWhole` | external/fh_loader/fh_loader.c:8826-8905 | A sparse source that holds all it promises is sent like a plain file |
| `Program.TransferOfShort` | external/fh_loader/fh_loader.c:8826-8905 | A sparse source that holds less than it promises makes the transfer fail |
| `Program.PaddingDisplaces` | external/fh_loader/fh_loader.c:8858-8871 | With another payload and more than one read, the padding displaces a byte of the source |
| `Program.SafePayloads` | external/fh_loader/fh_loader.c:8826-8905 | Exactly which payload sizes send every source right: whole sectors, or one read is enough |
| `Program.PadBuffer` | external/fh_loader/fh_loader.c:8858-8871 | The data in the buffer is padded with zeros to a sector |
| `Program.HandleProgram` | external/fh_loader/fh_loader.c:8573-8905 | The loop over the port buffer, from any plain or sparse source, sends the packets of the transfer and announces their sectors; it fails exactly when the file is empty or the source ends too early |
| `SparseProgram.GroupSent` | external/fh_loader/fh_loader.c:8818-8905 | A group of whole sectors goes out as it is, and fails exactly when some of it cannot be read |
| `SparseProgram.ProgramGroup` | external/fh_loader/fh_loader.c:2291-2348 | One group: sent exactly when it has bytes and all of them can be read; then what is sent is what the reader finds, announced right |
| `SparseProgram.StartExact` | external/fh_loader/fh_loader.c:2041-2053 | The start sector of a group is that of its first chunk in the image if and only if every chunk before it, raw or skipped, is below 2 to the 32 bytes |
| `SparseProgram.GroupsExact` | external/fh_loader/fh_loader.c:2291-2348 | Read whole and written at their start sectors, the groups take every raw byte from its place to its address, if and only if no chunk that is raw, or has raw data behind it, has 2 to the 32 bytes or more |
| `SparseProgram.GroupsMeanImage` | external/fh_loader/fh_loader.c:2291-2348 | For such an image all groups can be read whole if and only if all raw data is in the file, and the device then holds the expansion of the image |
| `SparseProgram.ProgramSparse` | external/fh_loader/fh_loader.c:2291-2348 | For every file: it succeeds exactly when the image is opened, every group has bytes and all of them can be read; what it moves is what the image asks for if and only if no chunk that is raw, or has raw data behind it, has 2 to the 32 bytes or more; for such an image it succeeds exactly when no group is empty and all raw data is there, and leaves the expansion of the image |
| `SparseExamples.EmptyGroup` | external/fh_loader/fh_loader.c:2041-2069 | An image that is opened with a group of no bytes |
| `SparseExamples.LargeChunkMisread` | external/fh_loader/fh_loader.c:2053-2069 | An image with a raw chunk of 2 to the 32 and 512 bytes that is opened, and whose group is read with the bytes of a chunk header in it |
| `SparseExamples.SkippedTooLittle` | external/fh_loader/fh_loader.c:2089-2093 | An image with a skipped chunk of 2 to the 32 bytes that is programmed to the end, its second block where the image has nothing and not where it belongs |
| `SparseExamples.CutShort` | external/fh_loader/fh_loader.c:2053-2069 | An image whose one raw chunk is cut short, that is opened and cannot be read |
| `Ber.CountDigits` | external/putty/import.c:212-251 | The counting loops find the least number of digits |
| `Ber.NumberOfDigits` | external/putty/import.c:152-254 | Splitting a number into digits and joining them gives it back |
| `Ber.ShiftsDefined` | external/putty/import.c:212-251 | The shifts of the writer stay below 32 bits exactly for identifiers below 2 to the 28 and lengths below 2 to the 24 |
| `Ber.WriteIdLen` | external/putty/import.c:201-254 | With or without a buffer the size returned is that of the header, and only the header is written |
| `Ber.ReadNumber` | external/putty/import.c:174-183 | A long length is read exactly when it fits an int; otherwise a shift overflows |
| `Ber.ReadIdLen` | external/putty/import.c:152-193 | The reading loops accept and decode exactly as specified, failures and overflowing shifts included |
| `Ber.HeaderRoundTrip` | external/putty/import.c:152-254 | Reading a written header gives it back if and only if the identifier is at most 30 or its class has the top bit set |
| `KeyBlobs.ReadMpintOf` | external/putty/import.c:285-304 | An integer written with its length reads back |
| `KeyBlobs.ParseBlobs` | external/putty/import.c:746-835 | Taking the integers out of the two blobs of a key never fails: the assertions of the exporters hold |
| `OpenSsh.PaddingStrips` | external/putty/import.c:871-891 | The 1 to 8 padding bytes reach a multiple of eight and can be stripped by their last byte |
| `OpenSsh.SizePass` | external/putty/import.c:837-845 | The size pass counts exactly the bytes of the write pass |
| `OpenSsh.WritePass` | external/putty/import.c:860-869 | The write pass puts all integers behind each other |
| `OpenSsh.Encode` | external/putty/import.c:837-891 | Count, allocate, write and pad: the assertion that both passes agree always holds |
| `OpenSsh.Read` | external/putty/import.c:596-718 | The reading loop, which holds back the modulus and drops two integers, builds the blobs of the integers in the file inside a buffer of 256 bytes more than the file, or fails as specified |
| `OpenSsh.BuiltFits` | external/putty/import.c:618-672 | For every blob that is read, whatever is built on the way fits the buffer |
| `OpenSsh.LengthTooLarge` | external/putty/import.c:174-183 | The least length for which the reader has no defined result is 2 to the 31 |
| `OpenSsh.RoundTrip` | external/putty/import.c:596-891 | Writing and reading a key, padded or not, reproduces both key blobs byte for byte |
| `OpenSsh.ExportImport` | external/putty/import.c:720-891 | The export and the import methods one after the other give back the blobs |
| `SshCom.NumBitsExact` | external/putty/import.c:1283-1301 | The number of binary digits is the exact bit count |
| `SshCom.PutMpint` | external/putty/import.c:1283-1301 | The bit scan finds the exact bit count, one for a zero in at least one byte, and leaves the integer without leading zero bytes |
| `SshCom.TrimLength` | external/putty/import.c:1262-1301 | The bytes left are (bits + 7) / 8, as many as the reader takes |
| `SshCom.TrimValue` | external/putty/import.c:1283-1301 | Dropping leading zero bytes keeps the value |
| `SshComFile.PutInts` | external/putty/import.c:1657-1659 | The loop writes all integers with their bit counts |
| `SshComFile.ComIntsFit` | external/putty/import.c:1629-1637 | The integers always fit into the size allocated |
| `SshComFile.Write` | external/putty/import.c:1542-1676 | The blob, with its lengths filled in afterwards, is as specified; both assertions of the source hold |
| `SshComFile.LastFound` | external/putty/import.c:1457-1500 | Testing only the last integer is enough: all were found, inside the payload |
| `SshComFile.MpRestores` | external/putty/import.c:265-281 | put_mp brings every integer into the form of RFC 4251 section 5; one without bytes takes its sign from the byte behind it |
| `SshComFile.ImportedValues` | external/putty/import.c:1472-1512 | No integer of any key changes its value |
| `SshComFile.CanonFixed` | external/putty/import.c:265-281 | Which integers come out of the export and the import with the same bytes |
| `SshComFile.ReadWrapped` | external/putty/import.c:1323-1436 | Reading a written wrapping leads to the stored part, decrypted when a cipher is named |
| `SshComFile.BlobsFit` | external/putty/import.c:1449-1520 | The blobs built never exceed the buffer allocated for them, whatever the payload |
| `SshComFile.RoundTrip` | external/putty/import.c:1303-1676 | Export and import of any key, in the clear or under any cipher that decrypts, restore the value of every integer in its place, p and q included, whatever lies in memory behind the blob |
| `SshComFile.SameBlobs` | external/putty/import.c:1472-1512 | The blobs are the same byte for byte if and only if every integer is in its shortest form, the RSA private exponent has no leading zero, and the last integer has bytes or is followed by a clear top bit |
| `SshComFile.ExportImport` | external/putty/import.c:1303-1676 | The export method and the reader one after the other, for every key |
| `ConfKeys.CompareIsTotalOrder` | external/putty/conf.c:68-89 | conf_cmp is a total order on well-typed keys |
| `ConfKeys.PutIsUpdate` | external/putty/conf.c:190-199 | Inserting keeps the tree sorted with one entry for each key, and sets exactly that key in its map |
| `ConfKeys.WithoutIsRemoval` | external/putty/conf.c:400-414 | Deleting removes exactly that key |
| `ConfKeys.PutAllInOrder` | external/putty/conf.c:201-215 | The entries of a tree put one by one into an empty one give the tree |
| `Conf.GetIsLookup` | external/putty/conf.c:266-277 | A lookup finds what the map holds |
| `Conf.NthIsSubkey` | external/putty/conf.c:308-325 | The n-th subkey for every index in range, and none outside |
| `Conf.NextIsSubkey` | external/putty/conf.c:286-306 | The subkey after the n-th one is the next one |
| `Conf.VisitSubkeys` | external/putty/conf.c:286-306 | Iterating from NULL visits every subkey of a primary key exactly once, in ascending order |
| `Conf.Conf.Insert` | external/putty/conf.c:190-199 | Last write wins; the assertion after the second add holds |
| `Conf.Conf.DelStrStr` | external/putty/conf.c:400-414 | Removes exactly that key |
| `Conf.Conf.CopyInto` | external/putty/conf.c:201-215 | The copy holds the same entries |
| `Conf.Conf.SerialisedSize` | external/putty/conf.c:438-473 | The size counted is the size of the serialised form |
| `Conf.Conf.Serialise` | external/putty/conf.c:475-518 | Writes exactly the serialised form into the buffer and nothing else |
| `Conf.Conf.Deserialise` | external/putty/conf.c:520-613 | Puts the whole entries at the front of the data into the tree, in order, and returns the bytes used |
| `ConfFormat.ReadEntryOf` | external/putty/conf.c:475-613 | An entry of any type, with anything behind it, reads back |
| `ConfFormat.ReadEntryCut` | external/putty/conf.c:520-613 | No proper prefix of an entry reads as an entry |
| `ConfFormat.WholeIsLongest` | external/putty/conf.c:520-613 | The number of whole entries is the greatest one whose bytes are all there |
| `ConfFormat.Truncated` | external/putty/conf.c:520-613 | Any truncation of a serialised configuration reads as the longest run of whole entries |
| `ConfFormat.ReadSerialised` | external/putty/conf.c:475-613 | The whole serialised form reads back, all bytes used |
| `ConfFormat.ReadFontOf` | external/putty/windows/winmisc.c:511-538 | A font specification reads back |
| `ConfFormat.ReadValueCut` | external/putty/conf.c:520-613 | No proper prefix of a value of any type, fonts included, reads as one |
| `Conf.Restored` | external/putty/conf.c:475-613 | Any truncation, read into an empty configuration, gives the tree of the whole entries |
| `Conf.SaveAndLoad` | external/putty/conf.c:438-613 | Saving and loading gives the same tree and uses exactly the size counted |
| `Dialog.PathCompare` | external/putty/dialog.c:28-40 | The character loop counts the common leading path elements, INT_MAX for equal paths |
| `Dialog.ElementsInjective` | external/putty/dialog.c:16-24 | A path is determined by its elements |
| `Dialog.DepthOrder` | external/putty/dialog.c:28-40 | The results of the comparison are ordered as depths of agreement, full depth being an exact match |
| `Dialog.Unimodal` | external/putty/dialog.c:89-108 | Against any path the depth of agreement over the array first rises and then falls |
| `Dialog.InsertContiguous` | external/putty/dialog.c:128-183 | Inserting a path at its place keeps sets with common leading elements side by side |
| `Dialog.FindSet` | external/putty/dialog.c:89-108 | Returns the first exact match whenever one exists, and otherwise the place behind the sets that agree most, where inserting keeps the order |
| `Dialog.FindPath` | external/putty/dialog.c:115-126 | The first index of the path, or the next one |
| `Dialog.FindAll` | external/putty/dialog.c:115-126 | Asking from -1 until -1 gives every set of the path exactly once |
| `Dialog.Box.SetTitle` | external/putty/dialog.c:128-151 | Puts the title in front of the sets of its path and keeps the order |
| `Dialog.Box.GetSet` | external/putty/dialog.c:153-183 | Finds the set of that path and name, or makes it behind the others of its path, and keeps the order |
| `Chap.StepKeeps` | external/putty/cproxy.c:59-157 | Every turn keeps the invariant and, if it goes on, has used input, so every call ends |
| `Chap.StepFed` | external/putty/cproxy.c:59-157 | More input does not change a turn that had enough, and a waiting turn is taken up where it stopped |
| `Chap.RunFed` | external/putty/cproxy.c:45-159 | A call with some input and a call with the rest are one call with both |
| `Chap.FragmentationIndependent` | external/putty/cproxy.c:45-159 | For every cut of the input the state, the bytes sent and the bytes left over are those of one call |
| `Chap.RunMessage` | external/putty/cproxy.c:45-159 | A whole message is understood: its challenges are answered in order, and authentication is over exactly when an attribute says so |
| `Chap.GateExact` | external/putty/proxy.c:1034-1038 | With the test of the caller in front, the cut matters if and only if it falls behind the success attribute of a message that goes on |
| `Chap.CutMatters` | external/putty/proxy.c:1034-1038 | Such an input exists |
| `ChapCut.RunSome` | external/putty/cproxy.c:45-159 | After some attributes of a message, success is known exactly if one of them says so, and their challenges are answered |
| `ChapCut.AfterCut` | external/putty/cproxy.c:45-159 | The state that the first n bytes of a message leave |
| `ChapCut.CutExact` | external/putty/proxy.c:1034-1038 | For every message and every place to cut it: two calls behind the test of the caller come out like one, unless a success attribute lies wholly before the cut and some attribute does not |
| `Chap.ProxySocket.HandleChap` | external/putty/cproxy.c:45-159 | The handler does the run of the model on its fields, whatever its buffer held before |
| `Chap.ProxySocket.SelectChap` | external/putty/cproxy.c:161-193 | Sends the offer with a name of 1 to 255 bytes and makes the handler ready |
| `Int64.AddIs` | external/putty/int64.c:57-62 | The sum itself with an unsigned long of 64 bits, and modulo 2 to the 64 with one of 32 |
| `Int64.AddExact` | external/putty/int64.c:57-62 | The sum modulo 2 to the 64 with both halves in order, if and only if an unsigned long has 32 bits or the sum fits |
| `Int64.SubtractIs` | external/putty/int64.c:81-86 | Subtraction modulo 2 to the 64 |
| `Int64.SubtractUndoesAdd` | external/putty/int64.c:57-86 | Subtracting what was added gives the number back, with either width and whether or not the sum fits |
| `Int64.Compare` | external/putty/int64.c:72-79 | The order of the values |
| `Int64.OrShl` | external/putty/int64.c:93-117 | Joining shifted halves with OR adds them, because their bits do not overlap |
| `Int64.ShiftRightIs` | external/putty/int64.c:93-104 | For shifts from 1 to 63 a right shift is division by a power of two |
| `Int64.ShiftLeftIs` | external/putty/int64.c:106-117 | For shifts from 1 to 63 a left shift is multiplication modulo 2 to the 64, even of a number whose high half is too large |
| `Int64.Div10Is` | external/putty/int64.c:12-31 | Quotient and remainder of a division by ten |
| `Int64.ToDecimal` | external/putty/int64.c:33-47 | The decimal digits without leading zeros; twenty places are always enough |
| `Int64.FromDecimal` | external/putty/int64.c:119-130 | The number of the leading digits if it fits 64 bits; otherwise the same modulo 2 to the 64, reduced with an unsigned long of 32 bits, and exactly what the last digit leaves with one of 64 |
| `Int64.NumberOfDecimal` | external/putty/int64.c:33-130 | Decimal digits and numbers undo each other |
| `Int64.PrintAndRead` | external/putty/int64.c:33-130 | Printing and reading gives the same number, for every number and either width |
| `Callback.FirstInFirstOut` | external/putty/callback.c:29-69 | Over every run, also with callbacks that queue further ones: what was queued is what was run followed by what waits |
| `Callback.NotifiedWhenFilled` | external/putty/callback.c:37-41 | The front end is told exactly as often as the list goes from empty to not empty |
| `Callback.RunsDown` | external/putty/callback.c:51-69 | Each entry of the runner takes one callback off the front |
| `Callback.Toplevel.Queue` | external/putty/callback.c:29-49 | Appends to the linked list and notifies if it was empty |
| `Callback.Toplevel.RunCallbacks` | external/putty/callback.c:51-69 | Runs the first callback while it is still in the list, then takes it off; the list stays well-formed although it grew meanwhile |
| `Callback.Toplevel.Pending` | external/putty/callback.c:71-74 | Says whether anything waits |
| `Callback.Toplevel.Drive` | external/putty/callback.c:29-74 | A whole run on the linked list is the run of the model |
| `TagTable.XmlTable.RunPass` | external/fh_loader/fh_loader.c:11055-11068 | One pass writes the texts it picks behind those written before and marks them |
| `TagTable.XmlTable.Sort` | external/fh_loader/fh_loader.c:11034-11144 | The five passes write the picked texts from the first row on; the table becomes the stable partition, a permutation of what it was, if and only if it is sortable |
| `TagTable.TableSorted` | external/fh_loader/fh_loader.c:11034-11144 | The rows left are the stable partition if and only if every text is written once, or has no tag and starts with the mark, and such texts are the last rows with no patch or power command in the table |
| `TagTable.MarkedRowIsLost` | external/fh_loader/fh_loader.c:11055-11140 | The table of *b and a becomes a and a |
| `TagTable.MarkedRowStays` | external/fh_loader/fh_loader.c:11055-11140 | The table of a single * comes out right |
| `TagTable.TwoKindsGrow` | external/fh_loader/fh_loader.c:11055-11140 | A text with two kinds of tags makes the table longer |
| `TagSort.MarkAddsNothing` | external/fh_loader/fh_loader.c:11060-11065 | Marking a text adds no tag to it |
| `TagSort.OneKindIsOnce` | external/fh_loader/fh_loader.c:11034-11144 | A text with one kind of tag, or with none and not starting with the mark, is written exactly once |
| `TagSort.SortedExactlyWhen` | external/fh_loader/fh_loader.c:11034-11144 | The texts written are the stable partition (configure, erase, others, patch, power) if and only if no marked text still shows another tag and no text without tags starts with the mark |
| `TagSort.PartitionIsPermutation` | external/fh_loader/fh_loader.c:11034-11144 | The partition loses and repeats nothing |

## Left out

- Ports, files, timing, logging, command lines and path searching of `fh_loader`: files are byte sequences, an exit is a result.
- XML text handling (`RemoveEverythingButTags`, `DetermineTag`, `GetNextPacket` and others): blanking of shared buffers without a specification to refine.
- FFU splitting and the search for partitions by label: fixed factors and uncleared sums leave the intended meaning open.
- The real target: it is a specification here; that a signature is genuine is not modelled, only that a signed file has one of the two lengths the loader expects.
- The digest table size is taken as a multiple of 32 bytes, as the loader assumes when it divides it into digests.
- Sha256.Context.Update: the two 32-bit words of the bit counter are one number modulo 2 to the 64; iv has only the eight words that SHA-256 uses.
- VipHost.Host.SendAll: packets must fit into the transmit buffer; responses other than acceptance or refusal of a table are not modelled.
- SparseRead.ReadChunkHeader: unsigned long has 64 bits; with 32 the reader would find the sizes of `sparse_open`, and `SparseMeaning.OpenExact` would be all there is to say.
- SparseProgram.ProgramSparse: a payload of whole sectors; what other payloads do is in `Program.SafePayloads`.
- Ciphers, MD5, base64 and the construction of keys: decryption is any function that undoes what was stored; dmp1 and dmq1 of an RSA key are arbitrary integers, since the reader drops them.
- Ber.WriteIdLen: identifiers below 2 to the 28 and lengths below 2 to the 24; beyond them C does not define the shifts of the writer (`Ber.ShiftsDefined`).
- Ber.HeaderRoundTrip: the same bounds, since nothing else is written.
- OpenSsh.Encode: lengths below 2 to the 24, for the same reason.
- OpenSsh.Read: after a shift that overflows an int the result is `Undefined`; what a compiler makes of it is not modelled.
- SshComFile.RoundTrip: integers below 2 to the 28 bytes in all, beyond which the bit count of the writer overflows an int.
- The 234-trees of `conf.c` are sorted sequences; the accessors that only assert that a key exists add nothing to `Conf.GetIsLookup`.
- Conf.Conf.Serialise: the tables of types are parameters, with any number of keys below 2 to the 31; file names and fonts are those of the Windows sources.
- Dialog.FindSet: with `start` set, the only way it is called; paths shorter than INT_MAX - 1.
- Controls inside the sets of a dialog box, and the growth of its arrays by 32.
- Chap.ProxySocket.HandleChap: the HMAC is any function; after the plug is closed no further input is handled.
- Int64.PrintAndRead: the conversion to floating point of `int64.c` is not modelled.
- Callback.Toplevel.RunCallbacks: a callback is the list of calls that it queues, and does not enter the runner again; the request for notifications is made before the first call.
- TagTable.XmlTable.Sort: rows have no limit on their number or length.
- Allocation, freeing and wiping of memory.
- `config.c`, `cmdgen.c`, `cmdline.c`, `adb.c`, the `be_*.c` files, `external/gocat`, `external/packsparseimg` and the PCRE tables: user interface, dispatch, thin wrappers or data.
