# SwitchCrypt core, modelled in Dafny

SwitchCrypt is an encrypted virtual block device. Its backing file ("backstore")
holds a fixed header region and then four per-nugget regions:

- keycounts;
- transaction journals;
- nugget metadata;
- the body.

The body is split into nuggets. Each nugget is split into flakes, and each flake
is encrypted under its nugget's cipher with a key that depends on:

- the nugget;
- the flake;
- the nugget's keycount, which is its rekey generation.

A swap command switches the active cipher between the primary and the swap
cipher. The swap strategy then decides which nuggets move to the active cipher
as the block device is used:

- disabled;
- mirrored;
- selective;
- N-forward.

The behaviour modelled is the one the two test suites pin down:
`test/test_io.c` and `test/test_switchcrypt.c`.

The project is split into these modules:

- `Layout` (layout.dfy) holds the region arithmetic of the backing file: a 105-byte header region, then per nugget:
  - 8 keycount bytes;
  - ceil(fpn/8) journal bytes;
  - `md_bytes_per_nugget` metadata bytes;
  - the body of fpn × flake-size bytes.
- `Backstore` (backstore.dfy) is a class over a growable byte array. It covers:
  - create, with its `FileAlreadyExists` error;
  - open, which computes the offsets from the geometry headers;
  - `setup_actual_finish`;
  - raw and body-relative `read`/`write`, specified by functions on the file contents.
- `KeyCache` (keycache.dfy) is a class holding a map from nugget ids and (nugget, flake, keycount) ids to keys. It covers:
  - add, get and fetch-or-derive;
  - the eager population at open time over every written flake, at its nugget's current keycount.
- `SoftOpen` (softopen.dfy) is the outcome of a soft open. It runs its header checks in order: initialized marker, then password verification tag, then Merkle root. The ignore flag skips only the last check.
- `Strategy` (strategy.dfy) is the per-nugget migration state machine. It is a `Meta` value holding the cipher, keycount and journal of every nugget. It defines:
  - the touched-nugget and forward-window decisions;
  - the forward walk;
  - the per-flake step of a request;
  - `Request`, the whole effect of one `buse_read`/`buse_write` on the metadata.
- `Device` (device.dfy) is the `buse_read`/`buse_write` dispatcher. It is a class whose methods update the nugget metadata and re-encrypt flakes in place in the body array:
  - each method is proved against `Strategy`;
  - a request consumes a pending swap command first;
  - mirrored devices write both halves, selective devices address the half of the active cipher;
  - a write merges each flake piece into the flake's decrypted plaintext (read-modify-write).
- `Volume` (volume.dfy) defines what the dispatcher keeps and delivers:
  - what a flake image decrypts to;
  - what a write leaves readable;
  - what a read returns.
- `Cipher` (cipher.dfy) stands in for the concrete stream ciphers, with a proved round trip.
- `Buffers` and `Arith` hold helpers: byte splicing, array copy, and recursive quotient, remainder and product.

## Model

| member | source | states |
|---|---|---|
| Layout.JournalBytes | test/test_switchcrypt.c:349-368 | the journal record is the least whole number of bytes that holds one bit per flake |
| Layout.MdBytesPerNugget | test/test_switchcrypt.c:1392-1466 | metadata bytes per nugget are one cipher-identifier byte plus the larger of the two ciphers' requests, and equal one of the two sums |
| Layout.NumNuggets | test/test_switchcrypt.c:470-488 | the nugget count is the largest count whose records fit after the 105-byte header region, and 0 when the file is smaller than the header region |
| Layout.RegionOffsets | test/test_io.c:196-232 | the keycount region starts at 105, the journal region 8·n bytes later, the metadata region ceil(fpn/8)·n bytes after that, the body md_bytes·n bytes after that; nugget size = fpn × flake size and writeable = n × nugget size |
| Layout.CreatedLayoutFits | test/test_switchcrypt.c:470-488 | the created layout ends inside the file and one more nugget would not fit |
| Layout.SmallBackstoreLayout | test/test_switchcrypt.c:349-368 | 204 bytes with 2 flakes of 8 bytes and 8 metadata bytes give 3 nuggets at offsets 105/129/132/156, nugget size 16 and 48 writeable bytes |
| Layout.CreatedBackstoreLayout | test/test_switchcrypt.c:470-488 | 4096 bytes with 12 flakes of 2 bytes give 95 nuggets at offsets 105/865/1055/1815 with 2280 writeable bytes |
| Layout.DefaultBackstoreLayout | test/test_switchcrypt.c:1358-1390 | the default 1 GiB file with 8 flakes of 16 KiB and one metadata byte holds 8191 nuggets of 128 KiB |
| Backstore.BaseNameIsLastComponent | test/test_io.c:167-186 | the file name is the longest suffix of the path without a '/' |
| Backstore.Overwrite | test/test_io.c:51-78 | a positioned write puts the buffer at the offset, keeps every other byte, and zero-fills any gap past the old end |
| Backstore.Zeros | test/test_io.c:51-78 | the padding a growing write adds reads as zero bytes |
| Backstore.ReadAt | test/test_io.c:51-86 | a read succeeds exactly when the range lies inside the file, and then returns the bytes of that range |
| Backstore.ReadAfterWrite | test/test_io.c:51-78 | reading back the range just written returns the written bytes |
| Backstore.SplitRead | test/test_io.c:80-86 | two adjacent reads concatenate to one read of the whole range |
| Backstore.OpenedOffsets | test/test_io.c:196-210 | open computes the keycount, journal and metadata offsets from the geometry headers and leaves the body offset at 0; a writeable size of 0 until `setup_actual_finish` is the model's choice, as no test asserts it |
| Backstore.FinishedOffsets | test/test_io.c:212-232 | `setup_actual_finish` keeps the keycount, journal and metadata offsets and the nugget size, places the body at or after the metadata offset (exactly there with no metadata bytes) and sets writeable = n × nugget size |
| Backstore.OpenThenFinishMatchesCreate | test/test_io.c:212-232 | open followed by `setup_actual_finish` yields the region offsets of the layout for the recorded metadata bytes |
| Backstore.SmallBackstoreOffsets | test/test_io.c:196-232 | the 3×2×8 file opens at 105/129/132 with body 0, and finishes with body 132 (metadata bytes as opened) or 156 (8 metadata bytes) and 48 writeable bytes |
| Backstore.Backstore.Init | test/test_io.c:167-186 | a created backstore has the path and its base name, every offset, size and geometry at 0, one metadata byte per nugget, and the requested file size |
| Backstore.Backstore.Create | test/test_io.c:167-194 | creation fails with FileAlreadyExists exactly when the path already names a file; otherwise the new backstore has the path, its base name and a zero-filled file of the requested size |
| Backstore.Backstore.Open | test/test_io.c:196-210 | an opened backstore holds the file contents, the recorded geometry and the opened offsets |
| Backstore.Backstore.SetupActualFinish | test/test_io.c:212-232 | finishing places the body after the metadata region, sizes the writeable area, and changes nothing else |
| Backstore.Backstore.Read | test/test_io.c:51-86 | the raw read is the read of the file contents at that range |
| Backstore.Backstore.Write | test/test_io.c:51-78 | the raw write leaves the contents as a positioned overwrite and keeps the offsets, the geometry and the recorded file size |
| Backstore.Backstore.Grow | test/test_io.c:51-78 | growing appends zero bytes, keeps the existing contents, and keeps the offsets and the geometry |
| Backstore.Backstore.ReadBody | test/test_io.c:89-159 | a body read is the raw read at the body offset plus the given offset |
| Backstore.Backstore.WriteBody | test/test_io.c:161-164 | a body write changes exactly the bytes at the body offset plus the given offset, and no other byte, and keeps the offsets and the geometry |
| Buffers.Splice | test/test_io.c:51-78 | splicing places the data at the offset, keeps the length, and keeps every byte outside the range |
| Buffers.CopyInto | test/test_io.c:51-78 | copying into the array leaves it equal to the splice of its old contents |
| KeyCache.Populated | test/test_switchcrypt.c:416-437 | the key ids open derives eagerly; every one of them belongs to a nugget with a written flake |
| KeyCache.PopulatedOnlyInRange | test/test_switchcrypt.c:426-437 | no flake key is populated for a nugget past the device, a flake past the nugget's flakes or a keycount other than the stored one, and a populated flake key comes with its nugget's key |
| KeyCache.SmallBackstorePopulation | test/test_switchcrypt.c:416-437 | on the three-nugget file, "0", "2", "0\|\|0\|\|0", "0\|\|1\|\|0", "2\|\|0\|\|2" and "2\|\|1\|\|2" are populated, while "3", "0\|\|0\|\|2" and "0\|\|2\|\|0" are not |
| KeyCache.KeyCache.AddNuggetKey | test/test_switchcrypt.c:236-289 | adding a nugget key maps its nugget id to the key and changes no other entry |
| KeyCache.KeyCache.AddFlakeKey | test/test_switchcrypt.c:236-289 | adding a flake key maps the (nugget, flake, keycount) id to the key and changes no other entry |
| KeyCache.KeyCache.GetNuggetKey | test/test_switchcrypt.c:236-289 | a nugget key is found exactly when its id was added, and is then the stored key |
| KeyCache.KeyCache.GetFlakeKey | test/test_switchcrypt.c:236-289 | a flake key is found exactly when its id was added, and is then the stored key |
| KeyCache.KeyCache.Fetch | test/test_switchcrypt.c:416-437 | a fetched key is the derived key for the id; a missing key is inserted and a present one leaves the cache as it was |
| KeyCache.KeyCache.PopulateOnOpen | test/test_switchcrypt.c:416-437 | after open the cache holds exactly the old entries plus the derived keys of every written nugget and every written flake at its nugget's keycount |
| KeyCache.KeyCache.PopulateNugget | test/test_switchcrypt.c:416-437 | populating one nugget extends the populated prefix of the cache by that nugget |
| KeyCache.PopulateFlakeKeyStep | test/test_switchcrypt.c:416-437 | handling one flake of a nugget extends the populated prefix by that flake |
| KeyCache.PopulateDone | test/test_switchcrypt.c:416-437 | once every nugget is handled, the cache holds exactly what open promises |
| SoftOpen.Decide | test/test_switchcrypt.c:293-347 | the outcome of a soft open, each of its four cases as an if-and-only-if over the checks and the ignore flag |
| SoftOpen.CorruptedHeaderOutcomes | test/test_switchcrypt.c:293-347 | a bad tag gives BadPassword, a bad marker BackstoreNotInitialized, a bad root hash IntegrityFailure, and the bad root hash with the ignore flag opens |
| SoftOpen.EveryCorruptionDetected | test/test_switchcrypt.c:293-347 | without the ignore flag, corrupting any header makes the open fail |
| SoftOpen.IgnoreOnlyMasksIntegrity | test/test_switchcrypt.c:337-347 | the ignore flag changes the outcome only from IntegrityFailure to Opened |
| Cipher.DecryptEncrypt | src/cipher/sosemanuk.h:11 | decrypting under the cipher and key a flake was encrypted with returns its plaintext |
| Cipher.EncryptBytes | src/cipher/sosemanuk.h:11 | encryption transforms each byte by the keystream byte at its position |
| Strategy.TouchedAction | test/test_switchcrypt.c:2891-3350 | the touched nugget is kept exactly when it is on the active cipher, and relabelled exactly when a read touches it while it is pristine (otherwise rekeyed) |
| Strategy.ForwardAction | test/test_switchcrypt.c:2891-3350 | a window nugget is rekeyed exactly when it is off the active cipher, written and read through, and relabelled exactly when it is off the active cipher and pristine |
| Strategy.WindowEnd | test/test_switchcrypt.c:2729-2889 | the forward window covers at most N nuggets past the touched one and never passes the last nugget |
| Strategy.Walk | test/test_switchcrypt.c:2531-2727 | the forward walk over a nugget range keeps the journals and the nugget count; its per-nugget effect is WalkEffect |
| Strategy.Visit | test/test_switchcrypt.c:2531-2727 | the swap decision for a touched nugget and its window keeps the journals and the nugget count; its per-nugget effect is VisitEffect |
| Strategy.Step | test/test_switchcrypt.c:879-1090 | one flake of a request keeps the metadata well formed and the nugget count; its journal effect is StepJournal and its cipher effect StepVisit |
| Strategy.Request | test/test_switchcrypt.c:808-1090 | the metadata effect of one `buse_read`/`buse_write` keeps the metadata well formed and the nugget count; its rules are ForwardWriteRules, ForwardReadRules, AccessEvolves and the journal lemmas |
| Strategy.WalkEffect | test/test_switchcrypt.c:2531-2727 | after the walk each nugget's cipher and keycount are the ones its own forward decision gives, nugget by nugget |
| Strategy.VisitEffect | test/test_switchcrypt.c:2531-2727 | a visit applies the touched decision to the nugget and the forward decision to the window after it, and leaves every other nugget alone |
| Strategy.StepJournal | test/test_switchcrypt.c:1774-1924 | a step sets the journal bit of the flake it writes and no other bit |
| Strategy.AccessEvolves | test/test_switchcrypt.c:2891-3350 | during a request a nugget's cipher only ever moves to the active cipher and its keycount never goes down |
| Strategy.NoSwapNoChange | test/test_switchcrypt.c:2891-3093 | when every nugget is on the active cipher, a request changes no cipher and no keycount |
| Strategy.StaticStrategyKeepsCiphers | test/test_switchcrypt.c:1926-2529 | under the disabled, mirrored and selective strategies a request changes no cipher and no keycount |
| Strategy.ReadKeepsJournal | test/test_switchcrypt.c:1774-1924 | a read leaves every journal unchanged, so a relabelled pristine nugget stays all-clear |
| Strategy.FullNuggetWriteSetsAllBits | test/test_switchcrypt.c:1926-2147 | a write covering a whole nugget sets every journal bit of that nugget |
| Strategy.WrittenNotPristine | test/test_switchcrypt.c:2891-3093 | a nugget a write touches is no longer pristine afterwards |
| Strategy.JournalOutsideRequest | test/test_switchcrypt.c:1926-2147 | the journal of a nugget outside the request is unchanged |
| Strategy.AccessBelowUntouched | test/test_switchcrypt.c:2891-3093 | nuggets below the first touched one keep cipher, keycount and journal |
| Strategy.AccessBeyondUntouched | test/test_switchcrypt.c:2729-2889 | nuggets beyond the last touched one plus the window keep cipher, keycount and journal |
| Strategy.RequestEndsOnActive | test/test_switchcrypt.c:2891-3350 | under N-forward every nugget a request touches ends on the active cipher |
| Strategy.InsideOneNugget | test/test_switchcrypt.c:2891-3350 | after the flake where nugget u was decided, the rest of a request inside u changes no cipher and no keycount (used by OneNuggetIsVisit) |
| Strategy.OneNuggetIsVisit | test/test_switchcrypt.c:2891-3350 | a request within one nugget has the effect of one visit of that nugget |
| Strategy.ForwardWriteRules | test/test_switchcrypt.c:2891-3093 | a write to an off-cipher nugget rekeys it (+1), relabels pristine window nuggets without a keycount change, and keeps written window nuggets and everything else |
| Strategy.ForwardReadRules | test/test_switchcrypt.c:3095-3350 | a read of an off-cipher nugget relabels the pristine nuggets of it and its window, rekeys the written ones (+1), and keeps everything else |
| Strategy.TouchedOnActiveKeepsAll | test/test_switchcrypt.c:3095-3350 | a request to a nugget already on the active cipher changes nothing, even when later nuggets are off it |
| Strategy.Fresh | test/test_switchcrypt.c:2891-2975 | a fresh device has every nugget on the primary cipher at keycount 0 and pristine |
| Strategy.FollowsRulesWhenWriting | test/test_switchcrypt.c:2891-3093 | the three writes of the swap_2_forward write scenario yield exactly the asserted ciphers and keycounts of the last three nuggets |
| Strategy.WriteScenarioFirst | test/test_switchcrypt.c:2976-3013 | before any swap, the first writes change no cipher or keycount and leave the second-last nugget written and the last pristine |
| Strategy.WriteScenarioSecond | test/test_switchcrypt.c:3015-3053 | after the first swap the written nugget is rekeyed, the pristine one after it relabelled, and the written one in between kept |
| Strategy.ReadScenarioWrites | test/test_switchcrypt.c:3196-3246 | the setup writes of the read scenario keep every nugget on the primary cipher at keycount 0 and make the expected nuggets written |
| Strategy.ReadScenarioFirstRead | test/test_switchcrypt.c:3248-3298 | the first read after a swap moves the last three nuggets to the swap cipher, rekeying the written ones, and keeps the journals |
| Strategy.ReadScenarioSecondRead | test/test_switchcrypt.c:3300-3350 | the read after swapping back returns the last four nuggets to the primary cipher, rekeying the written ones a second time |
| Strategy.FollowsRulesWhenReading | test/test_switchcrypt.c:3095-3350 | the whole swap_2_forward read scenario yields exactly the asserted ciphers and keycounts |
| Strategy.WindowOfTwo | test/test_switchcrypt.c:2649-2727 | under swap_2_forward a write to nugget 0 after a swap moves nuggets 0, 1 and 2 and leaves nugget 3 |
| Strategy.DoesNotWalkOffTheEnd | test/test_switchcrypt.c:2729-2889 | under swap_2_forward a write to the last nugget moves only that nugget |
| Volume.ReadBackWritten | test/test_switchcrypt.c:879-1090 | bytes a write leaves readable are exactly what a read of the same range returns |
| Volume.MirroredWrites | test/test_switchcrypt.c:1926-2147 | two mirrored writes leave the data readable in both halves and keep every flake outside the two ranges |
| Volume.ReencryptStep | test/test_switchcrypt.c:1529-1697 | re-encrypting one written flake under the new cipher and keycount keeps its plaintext |
| Volume.RelabelKeeps | test/test_switchcrypt.c:1529-1697 | recording the new cipher and keycount after the re-encryption keeps the plaintext of every written flake |
| Volume.WriteDone | test/test_switchcrypt.c:879-1090 | a write that handled every flake of its span holds the data and keeps every other flake |
| Volume.ReadDone | test/test_switchcrypt.c:808-1090 | a read that handled every flake of its span returns what the volume shows at that range |
| Volume.PiecesDetermine | test/test_switchcrypt.c:879-1090 | two byte strings that agree on every flake piece of a range are equal |
| Device.InitialMeta | test/test_switchcrypt.c:2149-2206 | at creation every nugget is pristine at keycount 0, on the primary cipher, except the second half of a mirrored or selective device, which is on the swap cipher |
| Device.SwapAfter | test/test_switchcrypt.c:1468-1697 | the active cipher flips once per swap command; under the disabled strategy it stays on the primary cipher, which is the model's choice, as no cited test asserts it |
| Device.Device.ExposedFlakes | test/test_switchcrypt.c:2149-2206 | a partitioned device exposes the flakes of n/2 nuggets, so both halves fit; other devices expose every flake |
| Device.Device.ExposedSize | test/test_switchcrypt.c:1468-1527 | the exposed size is n/2 × nugget size under the mirrored and selective strategies, and n × nugget size (the writeable size) otherwise |
| Device.Device.VolumeFits | test/test_switchcrypt.c:1468-1527 | the exposed volume, and on a partitioned device its second half too, fits in the body |
| Device.Device.Create | test/test_switchcrypt.c:2149-2206 | a created device has the initial per-nugget state, the primary cipher active and no pending swap |
| Device.Device.RequestSwap | test/test_switchcrypt.c:1558-1697 | a swap command only marks a swap as pending |
| Device.Device.ConsumeSwap | test/test_switchcrypt.c:1558-1697 | a request consumes the pending command and makes the active cipher the one SwapAfter gives |
| Device.Device.ReadFlake | test/test_switchcrypt.c:808-877 | a flake reads as its plaintext under its nugget's cipher and flake key |
| Device.Device.WriteFlake | test/test_switchcrypt.c:879-1090 | writing a flake makes it written and reading as the given plaintext, sets its journal bit, and keeps every other flake |
| Device.Device.Migrate | test/test_switchcrypt.c:1529-1556 | migrating a nugget records the decision's cipher and keycount and keeps the plaintext of every written flake |
| Device.Device.WalkNuggets | test/test_switchcrypt.c:2531-2727 | the walk's new metadata is the Walk function's, and every plaintext is kept |
| Device.Device.VisitNugget | test/test_switchcrypt.c:2531-2727 | a visit's new metadata is the Visit function's, and every plaintext is kept |
| Device.Device.MergeFlake | test/test_switchcrypt.c:879-1090 | a flake of a write gets the strategy step's metadata and holds its old plaintext with the data's piece spliced in |
| Device.Device.WriteRange | test/test_switchcrypt.c:879-1090 | a write's new metadata is Request's, the data is readable at its range, each touched flake merges old and new bytes, and other flakes are kept |
| Device.Device.ReadRange | test/test_switchcrypt.c:808-1090 | a read's new metadata is Request's, every plaintext is kept, and the result is what the volume showed at the range |
| Device.Device.WriteBoth | test/test_switchcrypt.c:1926-2147 | a mirrored write makes the data readable at the same offset of both halves and keeps all other flakes |
| Device.Device.Write | test/test_switchcrypt.c:879-1090 | `buse_write` consumes the swap command, then writes the volume of the active cipher (both halves when mirrored) with the metadata Request gives |
| Device.Device.Read | test/test_switchcrypt.c:808-1090 | `buse_read` consumes the swap command, then returns the bytes the volume of the active cipher held, with the metadata Request gives |
| Device.Device.WriteThenRead | test/test_switchcrypt.c:1214-1271 | reading back any range just written returns the written bytes |
| Device.Device.WriteSwapRead | test/test_switchcrypt.c:1558-1697 | a swap between a write and a read of the same range does not change what the read returns, on every strategy except selective |
| Device.Device.SelectiveVolumes | test/test_switchcrypt.c:2286-2451 | on a selective device, data written under the swap cipher reads back under it, and swapping back reads the data written under the primary cipher |

## Left out

- POSIX message queues (test/test_switchcrypt.c:180-234) are left out. The swap command is a pending flag that the next request consumes.
- RPMB/TPM counter access is device I/O and is left out.
- The concrete ciphers (sosemanuk, chacha, freestyle, AES) are replaced by `Cipher`, an additive keystream stand-in whose round trip is proved.
- The BLAKE2b key derivation is replaced by the deterministic `KeyCache.Kdf`.
- The Merkle-tree library (`mt_verify`, `mt_exists`) is foreign hashing code. `SoftOpen` takes the outcome of each check as input, and `ChecksAfterCorrupting` says which check a corrupted header breaks.
- The leaf-count assertions (test/test_switchcrypt.c:456-465, 591-595) are left out because they depend on the Merkle library.
- The create-time cache assertions (test/test_switchcrypt.c:561-572) are left out. They name nugget 115 on a 95-nugget device, which contradicts the asserted geometry.
- CLI parsing in `strongbox_main_actual` (test/test_switchcrypt.c:601-804) is left out. Its thresholds live in code that is not part of this model.
- Process bootstrap in src/main.c is not part of this model.
- Logging and the `delay_rw` flag (test/test_switchcrypt.c:3352-3403) are left out.
- The "dirty write triggers rekeying" tests (test/test_switchcrypt.c:1092-1212) are covered only by `Device.Device.WriteThenRead`, because they assert only the read-back.
- Device.Device.Read: a flake of a pristine nugget reads as the decryption of whatever the body holds, not as zeros. Content that was never written is not modelled.
- Device.Device.Create: the body starts as zero ciphertext for every flake. The initial ciphertext of a created backing file is not modelled.
- Backstore.Backstore.Open: the geometry (nugget count, flakes per nugget, flake size) is a parameter. Decoding it from the header bytes of the file is not modelled.
- Backstore.Backstore.Write: the file grows when a write ends past it. The fixed file size of the backing file is kept only in `fileSize`, which no write changes.
- Fixed-width integers (64-bit keycounts, 32-bit sizes) are unbounded in the model. No wrap-around is modelled.
- Crash consistency and the ordering of persisted metadata writes are left out. Each request is atomic in the model.
- The model follows the tests here:
  - a write after a swap rekeys the touched nugget even when it is pristine (its keycount becomes 1 in test/test_switchcrypt.c:3015-3053);
  - a write also walks the forward window;
  - migration keeps the journal bits of the re-encrypted flakes.
