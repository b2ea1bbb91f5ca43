# Custom OTA update path of esp-bootloader-plus, in Dafny

This project models the firmware-update path that the ESP bootloader of
`esp-bootloader-plus` runs before it boots an application, together with the
host tool that builds the update blob:

- the 80-byte update header, as `tools/custom_ota_gen.py` writes it and as
  `bootloader_custom_ota_header_check` accepts it (magic "ESP", version ≤ 1,
  CRC32 over the first 76 bytes), and the MD5 check of the payload;
- the engine registry (decompressor, diff, storage tables searched by tag)
  and the push chain: the XZ decompressor pulls payload bytes through
  `bootloader_decompressor_read`, pushes output through
  `bootloader_decompressor_write` to the diff stage (`none` or the
  pass-through `ddelta`), which forwards to the storage stage (the bounded
  flash sink, or the non-writing diff sink);
- the bounded cursors `src_offset` and `dst_offset` of
  `bootloader_custom_ota_config_t`, as fields of a class;
- `bootloader_custom_ota_main`: destination-slot choice, partition search,
  the checks, erase, chain, wiping the update header and rewriting the OTA
  data;
- the OTA data update: reading the two `esp_ota_select_entry_t` records,
  the sequence-number search, and the erase-then-write of the record into
  the sector that does not hold the active one;
- the bootloader's bump allocator;
- the PKCS#7 padding of the packing tool (section 6.3 of RFC 5652) and the
  ddelta record layouts.

Files and modules:

| file | module | what |
|---|---|---|
| `ota_types.dfy` | `OtaTypes` | bytes, 32-bit words, little-endian codec, `Crypto` (CRC32 and MD5 as given functions), sector alignment |
| `flash.dfy` | `FlashDevice` | a flash device: contents, reads (0xFF past the end), erase and write with a ghost trace of operations |
| `ota_header.dfy` | `OtaHeader` | the header record, its encoding and the acceptance predicate |
| `ota_gen.dfy` | `OtaGen` | the packing tool: header bytes, packed image, padding |
| `engines.dfy` | `Engines` | the engine tables, `engine_get`, `engines_init` |
| `pipeline.dfy` | `Pipeline` | the config object with its cursors, every stage's `input`, the XZ driver, `engines_start` |
| `ota_data.dfy` | `OtaData` | OTA data records, the sequence search, the update, the partition search |
| `ota_main.dfy` | `CustomOta` | header, MD5 and signature checks, `bootloader_custom_ota_main` |
| `custom_malloc.dfy` | `CustomMalloc` | the bump allocator |
| `ddelta.dfy` | `Ddelta` | ddelta stream records, seek union, error codes |

Behaviours of the code that the model keeps:

- The new OTA sequence number is the smallest value congruent to
  `boot_index + 1` modulo `app_count` that is not below the active one,
  because the search loop runs while `seq > candidate`. With an active
  sequence of 8, 8 slots and target slot 7 it is 8 again.
- With `CONFIG_BOOTLOADER_DIFF_ENABLED` the storage stage is always the
  non-writing diff sink, whatever the header says.
- A chain whose decompressor is `none` returns 0 without reading the
  payload or writing the slot; the slot has already been erased by then.
- The storage sink accepts a push only when `dst_offset + size < dst_size`,
  so a push that would exactly fill the slot is dropped.
- An OTA data record is the 32-byte `esp_ota_select_entry_t`: sequence,
  20-byte label, state and CRC.

## Model

| member | source | states |
|---|---|---|
| `OtaTypes.LE32RoundTrip` | include/bootloader_custom_ota.h:57 | a 32-bit word written little-endian reads back as itself, and every 4 bytes are the encoding of the word read from them |
| `OtaTypes.AlignUpSector` | main/bootloader_custom_ota.c:157 | `ALIGN_UP(x, FLASH_SECTOR_SIZE)` is a multiple of 4096, at least x and less than x + 4096 |
| `FlashDevice.ConsecutiveReads` | main/bootloader_decompressor_common.c:31-34 | two reads that abut are the one read covering both: consecutive cursor reads concatenate to a prefix |
| `FlashDevice.AfterEraseSpec` | main/bootloader_custom_ota.c:202 | an erase changes no byte outside its range, and a range inside the device then reads as 0xFF |
| `FlashDevice.AfterWriteSpec` | main/bootloader_storage_flash.c:35 | a write changes no byte outside its range, and a range inside the device then reads back as the data |
| `OtaHeader.Encode` | include/bootloader_custom_ota.h:49-60 | the packed header is 80 bytes |
| `OtaHeader.TypeByte` | include/bootloader_custom_ota.h:52-53 | byte 5 holds `compress_type` in the low nibble and `delta_type` in the high nibble |
| `OtaHeader.DecodeEncode` | include/bootloader_custom_ota.h:49-60 | decoding an encoded header gives back every field |
| `OtaHeader.EncodeDecode` | include/bootloader_custom_ota.h:49-60 | every 80-byte block is the encoding of the header decoded from it |
| `OtaHeader.CrcIsLast` | include/bootloader_custom_ota.h:59 | `crc32` is the last 4 bytes, and changing it leaves the 76 bytes it covers unchanged |
| `OtaHeader.StrCmpEqualIff` | main/bootloader_custom_ota.c:135 | `strcmp` against a NUL-terminated constant is equal exactly when the bytes up to and including its NUL match |
| `OtaHeader.HeaderAcceptedIff` | main/bootloader_custom_ota.c:128-152 | a header is accepted iff bytes 0-3 are "ESP\0", byte 4 is at most 1, and the CRC32 of bytes 0-75 equals the word in bytes 76-79 |
| `OtaGen.PackString` | tools/custom_ota_gen.py:202 | `struct.pack('32s', s)` is exactly 32 bytes: s truncated or NUL-padded |
| `OtaGen.Pack` | tools/custom_ota_gen.py:181-212 | the packed file is the 80-byte header followed by the payload unchanged; a payload of 2^32 bytes or more cannot be packed |
| `OtaGen.PackedHeader` | tools/custom_ota_gen.py:186-208 | the header read back from a packed image has magic "ESP", version 1, the type nibbles of the options, encryption byte, reserved 0, version string, payload length, MD5 (NUL-padded) and the CRC32 of the first 76 bytes |
| `OtaGen.PackedImageAccepted` | tools/custom_ota_gen.py:181-212 | every packed image passes the bootloader's header check, its `length` is the payload size, the payload follows the header, and its MD5 matches |
| `OtaGen.PadShape` | tools/custom_ota_gen.py:72-83 | the padding adds 1 to 16 bytes, a full block to aligned input, keeps the data as a prefix and makes the length a multiple of 16 |
| `OtaGen.UnpadPad` | tools/custom_ota_gen.py:72-83 | stripping the padding recovers the data exactly |
| `OtaGen.AesDataPad` | tools/custom_ota_gen.py:72-83 | the append loop produces exactly the padded data, a multiple of 16 long, which unpads to the input |
| `Engines.FirstWithTag` | main/bootloader_custom_ota.c:67-80 | the index of the first entry with the tag, none exactly when no entry has it |
| `Engines.EngineGet` | main/bootloader_custom_ota.c:67-80 | the search loop returns the first entry whose type equals the tag, or NULL when none matches |
| `Engines.FirstWithTagUnique` | main/bootloader_custom_ota.c:67-80 | any result meeting the first-match contract is the one `FirstWithTag` gives |
| `Engines.DecompressorTag` | main/bootloader_custom_ota.c:39-44 | the decompressor table resolves tag 0 to `none`, tag 1 to XZ only when XZ is built in, nothing else |
| `Engines.DiffTag` | main/bootloader_custom_ota.c:47-52 | the diff table resolves tag 0 to `none`, tag 1 to ddelta only when ddelta is built in, nothing else |
| `Engines.SelectEngines` | main/bootloader_custom_ota.c:82-106 | a resolved pipeline has exactly three stages |
| `Engines.SelectEnginesSpec` | main/bootloader_custom_ota.c:82-106 | a pipeline exists iff both header tags are registered; stage 0 and 1 follow the tags, the storage stage is the diff sink exactly when diff support is built in |
| `Engines.SelectedIsWired` | include/bootloader_custom_ota.h:23-28 | stage i of a resolved pipeline is an engine of stage i |
| `Engines.InitStatus` | include/bootloader_custom_ota.h:80 | every engine's `init` in the code returns 0 |
| `Engines.InitStages` | main/bootloader_custom_ota.c:108-113 | inits run in stage order and the first nonzero one stops the loop; none fails exactly when all return 0 |
| `Engines.EnginesInit` | main/bootloader_custom_ota.c:82-116 | succeeds exactly when both tags are registered, and then holds the selected, correctly wired pipeline |
| `Pipeline.XzReturnSpec` | main/bootloader_decompressor_xz.c:37-49 | the XZ stage returns 0 on success, -1 for a failure before any input was used and -2 for one after |
| `Pipeline.DecompressorNoneInput` | main/bootloader_decompressor_none.c:14-17 | the none decompressor returns its size argument |
| `Pipeline.ReadLen` | main/bootloader_decompressor_common.c:27-28 | the read length is the asked size capped by what is left, never past the payload end |
| `Pipeline.SrcAfter` | main/bootloader_decompressor_common.c:25-47 | the source cursor only grows and never passes `length` |
| `Pipeline.SunkWithinSlot` | main/bootloader_storage_flash.c:29-36 | accepted pushes keep `dst_offset` below `dst_size`, and every flash write lies inside the slot |
| `Pipeline.NonWritingSinkSinksNothing` | main/bootloader_storage_flash_diff.c:21-24 | the diff sink writes nothing and moves no cursor, for any sequence of pushes |
| `Pipeline.ProgramAppends` | main/bootloader_storage_flash.c:35-36 | writing at `dst_addr + dst_offset` extends the slot's accepted prefix by exactly the pushed bytes |
| `Pipeline.PushMemFrame` | main/bootloader_storage_flash.c:29-36 | one push changes only the bytes it accepts, at `dst_addr + dst_offset`, which then hold them |
| `Pipeline.SunkMemKeeps` | main/bootloader_storage_flash.c:29-36 | the pushes of a run change no byte outside the accepted stretch that starts at the cursor |
| `Pipeline.SunkMemHolds` | main/bootloader_storage_flash.c:29-36 | for a slot on the device, the accepted stretch holds the accepted bytes in order |
| `Pipeline.ChainRewritesSlot` | main/bootloader_custom_ota.c:254-257 | erasing the slot and then running the pushes from offset 0 satisfies `SlotRewritten` with the accepted bytes |
| `Pipeline.OtaConfig.constructor` | main/bootloader_custom_ota.c:222-228 | the config starts with both cursors at 0 |
| `Pipeline.OtaConfig.Read` | main/bootloader_decompressor_common.c:25-47 | returns min(size, length - offset) bytes read from `src_addr + 80 + src_offset` and advances the cursor by as many; at the end it returns 0 and changes nothing |
| `Pipeline.OtaConfig.FlashInput` | main/bootloader_storage_flash.c:26-40 | writes at `dst_addr + dst_offset` and advances by `size` exactly when `dst_offset + size < dst_size`, otherwise changes nothing; always returns `size`; the slot starts with the accepted bytes; the device afterwards is the old one with the push written (accepted) or unchanged |
| `Pipeline.OtaConfig.FlashDiffInput` | main/bootloader_storage_flash_diff.c:21-24 | returns `size` and changes nothing |
| `Pipeline.StorageInput` | main/bootloader_diff_none.c:20 | stage 2's `input`: the flash sink or the diff sink, per the resolved table; the slot device afterwards is `PushMem` of the old one |
| `Pipeline.DiffNoneInput` | main/bootloader_diff_none.c:18-21 | forwards the same bytes to stage 2 and returns its result; the slot device afterwards is `PushMem` of the old one |
| `Pipeline.DiffDdeltaInput` | main/bootloader_diff_ddelta.c:18-22 | forwards the same bytes to stage 2 unchanged and returns its result, like the none engine; the slot device afterwards is `PushMem` of the old one |
| `Pipeline.DecompressorWrite` | main/bootloader_decompressor_common.c:49-56 | hands the buffer to stage 1 and returns its result unchanged; the slot device afterwards is `PushMem` of the old one |
| `Pipeline.RunFill` | main/bootloader_decompressor_common.c:25-47 | a `fill` callback: the cursor outcome of the remaining callbacks is unchanged by performing it, and the bytes fed extend by the read |
| `Pipeline.RunFlush` | main/bootloader_decompressor_common.c:49-56 | a `flush` callback: the slot outcome of the remaining callbacks, contents included, is unchanged by performing it |
| `Pipeline.FlushUnfolds` | main/bootloader_decompressor_common.c:49-56 | a flush at the head of the callbacks moves no source cursor and contributes its one push to the bytes, writes and contents of the sink |
| `Pipeline.RunCallback` | main/bootloader_decompressor_xz.c:42 | either callback the decoder makes keeps the overall outcome, slot contents included |
| `Pipeline.XzInput` | main/bootloader_decompressor_xz.c:37-49 | runs the decoder's callbacks against the cursors: the decoder is fed one contiguous stretch of the payload, the slot receives exactly the accepted pushes in order, the device afterwards is `SunkMem` of the old one, and the result follows the -2 rule |
| `Pipeline.NoneChainIsEmpty` | main/bootloader_decompressor_none.c:14-17 | with the none decompressor the chain returns 0, reads nothing and writes nothing |
| `Pipeline.EnginesStart` | main/bootloader_custom_ota.c:118-126 | starts stage 0 with (NULL, 0) and returns its result, with the cursor and slot effects of the chain: the slot device afterwards is `SunkMem` of the old one |
| `OtaData.EncodeEntry` | main/bootloader_custom_utility.c:52-53 | an OTA data record is 32 bytes |
| `OtaData.DecodeEncodeEntry` | main/bootloader_custom_utility.c:52-53 | decoding an encoded record gives it back |
| `OtaData.EncodeDecodeEntry` | main/bootloader_custom_utility.c:52-53 | every 32 bytes are the encoding of the record decoded from them |
| `OtaData.ReadOtadata` | main/bootloader_custom_utility.c:32-57 | NOT_FOUND for offset 0, FAIL for any other failure; success exactly when the partition has two sectors and can be mapped, and then the records are the 32 bytes at the partition start and one sector later |
| `OtaData.NewState` | main/bootloader_custom_utility.c:71-79 | the new record's state is NEW exactly when rollback is configured, and UNDEFINED when it is not |
| `OtaData.ModUnique` | main/bootloader_custom_utility.c:105-106 | a value q*n + r with r < n has quotient q and remainder r |
| `OtaData.NextSeqShape` | main/bootloader_custom_utility.c:114-117 | the chosen sequence is (b+1) mod n + k*n, not below the active sequence, with (b+1) mod n + (k-1)*n below it when k > 0 |
| `OtaData.NextSeqSpec` | main/bootloader_custom_utility.c:114-119 | the new sequence selects the target slot, is not below the active sequence, is the least such value, and is below active + n unless it is (b+1) mod n itself |
| `OtaData.NextSeqMinimal` | main/bootloader_custom_utility.c:115-117 | no value congruent to (b+1) mod n and not below the active sequence is smaller than the search result |
| `OtaData.SelectsSlotBoots` | main/bootloader_custom_utility.c:100-101 | a sequence congruent to b+1 makes the bootloader's (seq - 1) mod n equal to b |
| `OtaData.NextSeqExample` | main/bootloader_custom_utility.c:102-104 | the example in the code's comment: active sequence 5, 8 slots, target ota[7] gives 8, and (8-1)%8 = 7 |
| `OtaData.SeqSearch` | main/bootloader_custom_utility.c:114-119 | the `while` loop computes exactly that sequence |
| `OtaData.NextSeqBelow` | main/bootloader_custom_utility.c:115-119 | the new sequence is below active + n, or below n: with room for n above the active sequence it fits in 32 bits |
| `OtaData.Candidate32` | main/bootloader_custom_utility.c:115 | the loop's candidate in 32-bit arithmetic equals the unbounded one whenever that is below 2^32 |
| `OtaData.SeqLoopNeverExits` | main/bootloader_custom_utility.c:115-117 | with active sequence 0xFFFFFFFE, 8 slots and target slot 7, every wrapped candidate stays below the sequence, so the loop never exits |
| `OtaData.PlanRejects` | main/bootloader_custom_utility.c:84-91 | a failed read gives ESP_FAIL, a target not below `app_count` (as `uint8_t`) gives ESP_ERR_INVALID_ARG, and only otherwise is a record written |
| `OtaData.PlanWritesOtherSector` | main/bootloader_custom_utility.c:110-134 | the record goes to the sector other than the active one (sector 0 with sequence b+1 when none is valid), keeps the label, takes the new state and a CRC recomputed over it, never lowers the sequence, and selects the target slot |
| `OtaData.SectorStart` | main/bootloader_custom_utility.c:61 | `offset / FLASH_SECTOR_SIZE` names the sector that holds the offset |
| `OtaData.RecordOpsEraseFirst` | main/bootloader_custom_utility.c:61-64 | the sector erase comes first, and the one-record write follows only if the erase succeeded |
| `OtaData.WriteOtadata` | main/bootloader_custom_utility.c:59-69 | erases the sector, then writes the record only if the erase succeeded; on success the record reads back; the device afterwards is `RecordWritten` of the old one |
| `OtaData.RecordWrittenFrame` | main/bootloader_custom_utility.c:59-69 | writing a record changes no byte outside its sector and its own 32 bytes, and on a device holding both the record reads back |
| `OtaData.OtherSectorUntouched` | main/bootloader_custom_utility.c:118-124 | writing the record into sector `next` of an aligned pair leaves the other sector byte for byte as it was |
| `OtaData.UpdateOtaData` | main/bootloader_custom_utility.c:81-135 | carries out the plan (`PlanCarried`): rejects return their error and touch no flash; otherwise the erase and write of the planned record at the planned address, `ESP_OK` exactly when both lie on the device, the record reading back on success, and the device afterwards is `PlanMem` of the old one |
| `OtaData.WriteCarriesPlan` | main/bootloader_custom_utility.c:118-124 | the effects of `write_otadata` at the planned address are the effects the plan promises |
| `OtaData.PlanTargetsOtherSector` | main/bootloader_custom_utility.c:118-124 | with a valid active record a, a plan that writes names sector 1 - a at `offset + 4096 * (1 - a)` |
| `OtaData.PlanKeepsSector` | main/bootloader_custom_utility.c:118-124 | a plan that writes the other sector of an aligned pair keeps sector a and the record at its start unchanged |
| `OtaData.RecordBytes` | main/bootloader_custom_utility.c:52-53 | record a of a successful read is the encoding of the 32 bytes at the start of sector a |
| `OtaData.UpdateKeepsActiveRecord` | main/bootloader_custom_utility.c:110-124 | with a valid active record in an aligned OTA data partition, the update leaves the active sector unchanged and the active record still reads back as the record read |
| `OtaData.FirstMatch` | main/bootloader_custom_utility.c:157-167 | the position of the first entry with that type and subtype, none when no entry matches |
| `OtaData.FindPartition` | main/bootloader_custom_utility.c:137-172 | found exactly when the table maps, verifies and has a matching entry; then the first match |
| `OtaData.SearchPartitionPos` | main/bootloader_custom_utility.c:137-172 | the loop returns true with the first matching entry's position, or false with `pos` untouched |
| `CustomOta.DestSlotSpec` | main/bootloader_custom_ota.c:211-215 | the target slot is 0 from the factory app, otherwise (boot_index + 1) mod app_count, a valid slot, never the running one when there are two or more |
| `CustomOta.SignedLength` | main/bootloader_custom_ota.c:157 | the signed span covers header and payload and is a whole number of sectors, less than one sector longer |
| `CustomOta.PackedImagePassesChecks` | tools/custom_ota_gen.py:181-212 | an image from the packing tool stored at the partition start passes the header and MD5 checks |
| `CustomOta.HeaderCheck` | main/bootloader_custom_ota.c:128-152 | reads the 80 bytes at `src_addr`, rejects on magic, then version, then CRC, and accepts exactly the accepted headers |
| `CustomOta.Md5Check` | main/bootloader_custom_ota.c:173-198 | the loop feeds MD5 exactly the `length` payload bytes after the header, in order, and the result compares the first 16 digest bytes |
| `CustomOta.VerifySignature` | main/bootloader_custom_ota.c:155-170 | the signature is checked from `src_addr` over the sector-aligned image length |
| `CustomOta.ClearStorageHeader` | main/bootloader_custom_ota.c:199-203 | erases the first 4096 bytes of the update partition: `ESP_OK` exactly when they lie on the device, and then they read as 0xFF; the device afterwards is `AfterErase` of the old one, so nothing else changes |
| `CustomOta.RunChecks` | main/bootloader_custom_ota.c:230-251 | header, MD5 and (when built in) signature, in that order: passes exactly when the image is accepted |
| `CustomOta.ApplyUpdate` | main/bootloader_custom_ota.c:253-270 | erases the slot and runs the chain into it (`SlotRewritten`: nothing outside the slot changes; a slot on the device holds the chain output followed by 0xFF); only a chain result ≥ 0 erases the update header, rewrites the OTA data to `PlanMem` of the plan and returns the new slot; otherwise the update partition and the OTA data are unchanged |
| `CustomOta.OtaMain` | main/bootloader_custom_ota.c:206-271 | every failure returns `boot_index`; no flash is erased or written unless the partition is found, every check passes and the pipeline exists; then the slot is erased and rewritten with the chain output and nothing outside it changes, and only on chain success are the header erased and the OTA data rewritten for the new slot, which is returned; otherwise those two partitions are unchanged |
| `CustomOta.UpdateSelectsNewSlot` | main/bootloader_custom_utility.c:100-124 | the new slot differs from the running one when there are two or more; the record's sequence is at least 1 when no record was valid or the active one's was at least 1; and a sequence of at least 1 makes the bootloader's (seq - 1) mod n pick the new slot |
| `CustomMalloc.ContiguousBounds` | bootloader_custom_malloc/bootloader_custom_malloc.c:31-32 | every block handed out lies between the pool start and the current end |
| `CustomMalloc.BlocksDisjoint` | bootloader_custom_malloc/bootloader_custom_malloc.c:31-32 | blocks from successive successful calls are disjoint and in increasing address order |
| `CustomMalloc.BumpAllocator.constructor` | bootloader_custom_malloc/bootloader_custom_malloc.c:21-22 | the allocator starts with offset 0 and no blocks |
| `CustomMalloc.BumpAllocator.Malloc` | bootloader_custom_malloc/bootloader_custom_malloc.c:26-38 | succeeds exactly when `heap_used_offset + size < limit`, returning the pool address at the old offset and growing the offset by `size`; otherwise NULL and no change; the handed-out blocks stay contiguous from the pool start |
| `CustomMalloc.BumpAllocator.Free` | bootloader_custom_malloc/bootloader_custom_malloc.c:41-44 | changes nothing |
| `Ddelta.SignedOf` | main/bootloader_diff_ddelta.h:48-51 | `seek.value` is congruent to `seek.raw` modulo 2^64 and lies in the int64 range |
| `Ddelta.RawOf` | main/bootloader_diff_ddelta.h:48-51 | the raw word of a signed seek is congruent to it modulo 2^64 |
| `Ddelta.SeekUnionRoundTrip` | main/bootloader_diff_ddelta.h:48-51 | writing either union member and reading the other loses nothing; the value is negative exactly when the top bit of the raw word is set |
| `Ddelta.ErrorReturnsDistinct` | main/bootloader_diff_ddelta.h:64-77 | error returns are -1 to -6 and distinct per error |

## Left out

- Flash hardware: `bootloader_flash_read`/`_write`/`_erase_range`/`_erase_sector` and `bootloader_mmap` act on a `Flash` object whose reads past the end give 0xFF and whose erase or write past the end fails and changes nothing; read errors, write-protect, flash encryption (`esp_flash_encryption_enabled` and the `write_encrypted` flag) and timing are not modelled.
- The update partition, the destination slot and the OTA data partition are three separate `Flash` objects: the model does not cover partitions that overlap.
- CRC32, MD5 (`esp_rom_crc32_le`, `esp_rom_md5_*`, `binascii.crc32`, `hashlib.md5`), `esp_secure_boot_verify_signature`, `bootloader_common_get_active_otadata`, `bootloader_common_ota_select_crc` and `esp_partition_table_verify` are given functions; the MD5 context is the sequence of bytes fed to it.
- The XZ decoder (`esp_xz_decompress`) is not part of this model; a run is given as its sequence of `fill`/`flush` callbacks with its return value and `in_used`. Decoder memory use through `bootloader_custom_malloc` is therefore not connected to the allocator model.
- The ddelta records are layouts only: no patch is applied in the code, so no parser or patch state machine is modelled; the byte order of the stream fields is not fixed by the header.
- The watchdog feeding in `bootloader_decompressor_read` and all logging.
- The packing tool's argument parsing, file and JSON handling, the `xz` and `espsecure.py` subprocesses, the AES-128 ECB encryption itself, and `get_aes_key_from_file`.
- OtaData.SeqSearch: does not model 32-bit wrap-around of `(boot_index + 1) % n + i * n`, because its requires (and `OtaData.SeqRoom` for the update) keep the active sequence plus the slot count within 32 bits. Outside that range the code's loop need not end: when no value congruent to `boot_index + 1` modulo `app_count` lies between the active sequence and 2^32 - 1, every wrapped candidate stays below the sequence (`OtaData.SeqLoopNeverExits` shows this for sequence 0xFFFFFFFE, 8 slots and target slot 7), so the bootloader would hang there; the model covers only the inputs where it ends.
- CustomMalloc.BumpAllocator.Malloc: does not model 32-bit wrap-around of `heap_used_offset + size`, because its requires keeps the sum below 2^32; the limit `&_dram_start` is an opaque number compared with the offset as the code does.
- CustomOta.SignedLength: does not model 32-bit wrap-around of `ALIGN_UP(length + 80, 4096)`.
- CustomOta.OtaMain: requires `boot_index < app_count ≤ 16`, the range the bootloader's callers pass, so that `ota[ota_index]` is inside the 16-entry table; the partition table is given as a value rather than read from flash.
- OtaData.UpdateOtaData: the target slot is a natural number; the negative `boot_index` values the C `int` allows are never passed by `bootloader_custom_ota_main`.
- CustomOta.UpdateSelectsNewSlot: does not claim the new slot is selected when the active record's sequence is 0 and the target is the last slot, because the code then writes sequence 0, which the bootloader does not read as a slot choice.
- The engines' `init` functions only store the shared config, header and engine-table addresses; the model passes those explicitly instead of through module-level variables.
