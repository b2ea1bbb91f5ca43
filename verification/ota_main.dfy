/**
 * `bootloader_custom_ota_main` and the checks it runs before an update
 * (`bootloader_custom_ota.c`): choose the slot after the running one, find
 * the update partition, check the packed header, the payload MD5 and (when
 * signed apps are built in) the signature, select and start the engine
 * chain into the erased slot, then wipe the update header and point the OTA
 * data at the new slot.
 */
module CustomOta {
  import opened OtaTypes
  import opened FlashDevice
  import opened OtaHeader
  import opened Engines
  import opened Pipeline
  import opened OtaData
  import OtaGen

  /** `FACTORY_INDEX`: boot indices at or below it name the factory (or test) app. */
  const FACTORY_INDEX: int := -1

  /** `MD5_BUF_SIZE`: the payload is hashed in chunks of at most one sector. */
  const MD5_BUF_SIZE: nat := 4 * 1024

  /** `SEC_SIZE`: how much of the update partition is erased after a successful update. */
  const SEC_SIZE: nat := 4 * 1024

  /** The slot an update is written to: the one after the running OTA slot, wrapping to 0; slot 0 from the factory app. */
  function DestSlot(bootIndex: int, appCount: nat): int
  {
    if bootIndex <= FACTORY_INDEX then 0
    else if bootIndex + 1 == appCount then 0
    else bootIndex + 1
  }

  /**
   * From a running OTA slot the target is (bootIndex + 1) mod appCount, a
   * valid slot, and never the running one when there are at least two slots.
   */
  lemma DestSlotSpec(bootIndex: int, appCount: nat)
    requires bootIndex < appCount
    ensures 0 <= DestSlot(bootIndex, appCount)
    ensures appCount > 0 ==> DestSlot(bootIndex, appCount) < appCount
    ensures bootIndex <= FACTORY_INDEX ==> DestSlot(bootIndex, appCount) == 0
    ensures 0 <= bootIndex ==> DestSlot(bootIndex, appCount) == (bootIndex + 1) % appCount
    ensures 0 <= bootIndex && appCount >= 2 ==> DestSlot(bootIndex, appCount) != bootIndex
  {
    if 0 <= bootIndex && bootIndex + 1 < appCount {
      assert (bootIndex + 1) % appCount == bootIndex + 1;
    }
  }

  /** The 80 bytes at the start of the update partition. */
  function RawHeader(mem: seq<byte>, pos: PartitionPos): (raw: seq<byte>)
    ensures |raw| == HEADER_SIZE
  {
    FlashRead(mem, pos.offset, HEADER_SIZE)
  }

  /** The payload the header describes: `length` bytes after it. */
  function Payload(mem: seq<byte>, pos: PartitionPos, h: Header): (p: seq<byte>)
    ensures |p| == h.length
  {
    FlashRead(mem, pos.offset + HEADER_SIZE, h.length)
  }

  /** The span the signature covers: header and payload, rounded up to a whole sector. */
  function SignedLength(h: Header): (n: nat)
    ensures HEADER_SIZE + h.length <= n < HEADER_SIZE + h.length + FLASH_SECTOR_SIZE
    ensures n % FLASH_SECTOR_SIZE == 0
  {
    AlignUpSector(h.length + HEADER_SIZE)
  }

  /**
   * The three checks of `bootloader_custom_ota_main` on a partition's
   * contents: header, payload MD5, and the signature when signed apps are
   * built in. `verify` is `esp_secure_boot_verify_signature` over (flash,
   * start, length).
   */
  predicate ImageAccepted(build: BuildConfig, crypto: Crypto, verify: (seq<byte>, nat, nat) -> bool,
                          mem: seq<byte>, pos: PartitionPos)
  {
    var raw := RawHeader(mem, pos);
    var h := Decode(raw);
    && HeaderAccepted(crypto, raw)
    && Md5Matches(crypto, h, Payload(mem, pos, h))
    && (build.signedApps ==> verify(mem, pos.offset, SignedLength(h)))
  }

  /** The update partition is found, its image passes the checks, and the header names a built-in pipeline. */
  predicate Starts(build: BuildConfig, crypto: Crypto, verify: (seq<byte>, nat, nat) -> bool,
                   mem: seq<byte>, table: PartitionTable)
  {
    var pos := FindPartition(table, PART_TYPE_DATA, PARTITION_SUBTYPE);
    && pos.Some?
    && ImageAccepted(build, crypto, verify, mem, pos.value)
    && SelectEngines(build, Decode(RawHeader(mem, pos.value))).Some?
  }

  /**
   * An image produced by the packing tool and stored at the start of the
   * partition passes the header and MD5 checks.
   */
  lemma {:induction false} PackedImagePassesChecks(crypto: Crypto, opts: OtaGen.PackOptions, data: seq<byte>,
                                                   mem: seq<byte>, pos: PartitionPos)
    requires |data| < 0x1_0000_0000
    requires var img := OtaGen.Pack(crypto, opts, data).image;
             InDevice(mem, pos.offset, |img|) && mem[pos.offset..pos.offset + |img|] == img
    ensures HeaderAccepted(crypto, RawHeader(mem, pos))
    ensures Decode(RawHeader(mem, pos)).length == |data|
    ensures Md5Matches(crypto, Decode(RawHeader(mem, pos)), Payload(mem, pos, Decode(RawHeader(mem, pos))))
  {
    var img := OtaGen.Pack(crypto, opts, data).image;
    OtaGen.PackedImageAccepted(crypto, opts, data);
    StoredRead(mem, pos.offset, img, 0, HEADER_SIZE);
    StoredRead(mem, pos.offset, img, HEADER_SIZE, |data|);
  }

  /** Reading back part of an image stored at `base` gives that part of the image. */
  lemma StoredRead(mem: seq<byte>, base: nat, img: seq<byte>, off: nat, len: nat)
    requires InDevice(mem, base, |img|) && mem[base..base + |img|] == img
    requires off + len <= |img|
    ensures FlashRead(mem, base + off, len) == img[off..off + len]
  {
    var got, part := FlashRead(mem, base + off, len), img[off..off + len];
    forall i | 0 <= i < len ensures got[i] == part[i] {
      assert mem[base + off + i] == mem[base..base + |img|][off + i];
    }
  }

  /**
   * `bootloader_custom_ota_header_check`: reads the header from the start of
   * the update partition and rejects it on a magic mismatch, a newer
   * version, or a CRC mismatch, in that order.
   */
  method HeaderCheck(cfg: OtaConfig, storage: Flash, crypto: Crypto) returns (ok: bool, h: Header)
    ensures h == Decode(FlashRead(storage.mem, cfg.srcAddr, HEADER_SIZE))
    ensures ok == HeaderAccepted(crypto, FlashRead(storage.mem, cfg.srcAddr, HEADER_SIZE))
  {
    var raw := storage.Read(cfg.srcAddr, HEADER_SIZE);
    h := Decode(raw);
    if !StrCmpEqual(h.magic, HEADER_MAGIC) {
      return false, h;
    }
    if h.version > HEADER_VERSION {
      return false, h;
    }
    if crypto.crc32(raw[..CRC_SPAN]) != h.crc32 {
      return false, h;
    }
    ok := true;
  }

  /**
   * `bootloader_custom_ota_md5_check`: feeds the payload to MD5 in chunks of
   * at most `MD5_BUF_SIZE` bytes and compares the first 16 bytes of the
   * header's digest field. The MD5 context is the bytes fed so far.
   */
  method Md5Check(cfg: OtaConfig, h: Header, storage: Flash, crypto: Crypto) returns (ok: bool)
    ensures ok == Md5Matches(crypto, h, FlashRead(storage.mem, cfg.srcAddr + HEADER_SIZE, h.length))
  {
    var context: seq<byte> := [];
    var loop: nat := 0;
    while loop < h.length
      invariant loop <= h.length
      invariant context == FlashRead(storage.mem, cfg.srcAddr + HEADER_SIZE, loop)
    {
      var len := if h.length - loop > MD5_BUF_SIZE then MD5_BUF_SIZE else h.length - loop;
      var data := storage.Read(cfg.srcAddr + HEADER_SIZE + loop, len);
      ConsecutiveReads(storage.mem, cfg.srcAddr + HEADER_SIZE, loop, len);
      context := context + data;
      loop := loop + len;
    }
    var digest := crypto.md5(context);
    ok := h.md5[..DIGEST_SIZE] == digest;
  }

  /**
   * `bootloader_custom_ota_verify_signature`: asks the secure-boot check
   * about the partition from its start over the sector-aligned image length.
   */
  method VerifySignature(cfg: OtaConfig, h: Header, storage: Flash, verify: (seq<byte>, nat, nat) -> bool)
    returns (ok: bool)
    ensures ok == verify(storage.mem, cfg.srcAddr, SignedLength(h))
  {
    var packedImageLen := AlignUpSector(h.length + HEADER_SIZE);
    ok := verify(storage.mem, cfg.srcAddr, packedImageLen);
  }

  /**
   * `bootloader_custom_ota_clear_storage_header`: erases the first sector of
   * the update partition so the update is not applied again.
   */
  method ClearStorageHeader(cfg: OtaConfig, storage: Flash) returns (err: EspErr)
    modifies storage
    ensures storage.ops == old(storage.ops) + [FlashOp.Erase(cfg.srcAddr, SEC_SIZE)]
    ensures err == EspOk <==> InDevice(old(storage.mem), cfg.srcAddr, SEC_SIZE)
    ensures err == EspOk ==> FlashRead(storage.mem, cfg.srcAddr, SEC_SIZE) == seq(SEC_SIZE, _ => ERASED)
    ensures storage.mem == AfterErase(old(storage.mem), cfg.srcAddr, SEC_SIZE)
  {
    var ok := storage.EraseRange(cfg.srcAddr, SEC_SIZE);
    AfterEraseSpec(old(storage.mem), cfg.srcAddr, SEC_SIZE);
    err := if ok then EspOk else EspFail;
  }

  /** The checks, in the order `bootloader_custom_ota_main` runs them, on the partition `cfg` describes. */
  method RunChecks(build: BuildConfig, cfg: OtaConfig, storage: Flash, crypto: Crypto,
                   verify: (seq<byte>, nat, nat) -> bool, ghost pos: PartitionPos)
    returns (ok: bool, h: Header)
    requires cfg.srcAddr == pos.offset
    ensures h == Decode(RawHeader(storage.mem, pos))
    ensures ok == ImageAccepted(build, crypto, verify, storage.mem, pos)
  {
    ok, h := HeaderCheck(cfg, storage, crypto);
    if !ok {
      return;
    }
    ok := Md5Check(cfg, h, storage, crypto);
    if !ok {
      return;
    }
    if build.signedApps {
      ok := VerifySignature(cfg, h, storage, verify);
    }
  }

  /**
   * The second half of `bootloader_custom_ota_main`, once the image is
   * accepted and its engines are initialised: erase the target slot, run
   * the chain, and on success wipe the update header and rewrite the OTA
   * data for `otaIndex`.
   */
  method ApplyUpdate(cfg: OtaConfig, h: Header, engines: seq<Engine>, bs: BootState, bootIndex: int, otaIndex: nat,
                     storage: Flash, app: Flash, otadata: Flash, run: XzRun, env: OtaEnv)
    returns (r: int)
    requires Wired(engines)
    requires cfg.srcOffset == 0 && cfg.dstOffset == 0 && cfg.written == []
    requires storage != app && storage != otadata && app != otadata
    requires SeqRoom(otadata.mem, bs, env)
    modifies cfg, storage, app, otadata
    ensures var out := Sunk(SinkWrites(engines), 0, cfg.dstSize, ChainSteps(engines, run));
            && app.ops == old(app.ops) + [FlashOp.Erase(cfg.dstAddr, cfg.dstSize)]
                          + SunkOps(SinkWrites(engines), cfg.dstAddr, 0, cfg.dstSize, ChainSteps(engines, run))
            && SlotRewritten(old(app.mem), app.mem, cfg.dstAddr, cfg.dstSize, out)
    ensures ChainResult(engines, run) < 0 ==>
              && r == bootIndex
              && storage.ops == old(storage.ops) && otadata.ops == old(otadata.ops)
              && storage.mem == old(storage.mem) && otadata.mem == old(otadata.mem)
    ensures ChainResult(engines, run) >= 0 ==>
              var p := PlanUpdate(old(otadata.mem), bs, otaIndex, env);
              && r == otaIndex
              && storage.ops == old(storage.ops) + [FlashOp.Erase(cfg.srcAddr, SEC_SIZE)]
              && storage.mem == AfterErase(old(storage.mem), cfg.srcAddr, SEC_SIZE)
              && otadata.ops == old(otadata.ops) + PlanOps(old(otadata.mem), p)
              && otadata.mem == PlanMem(old(otadata.mem), p)
  {
    var _ := app.EraseRange(cfg.dstAddr, cfg.dstSize);
    var ret, _ := EnginesStart(cfg, h, storage, app, engines, run);
    ChainRewritesSlot(old(app.mem), SinkWrites(engines), cfg.dstAddr, cfg.dstSize, ChainSteps(engines, run));
    if ret < 0 {
      return bootIndex;
    }
    var _ := ClearStorageHeader(cfg, storage);
    var _ := UpdateOtaData(bs, otaIndex, otadata, env);
    r := otaIndex;
  }

  /**
   * `bootloader_custom_ota_main`. Returns the slot to boot: the new slot
   * after a successful update, the running one otherwise. Nothing is erased
   * or written unless the partition is found, the image passes every check
   * and its pipeline exists; then the target slot is erased and receives
   * the chain's output, and only if the chain succeeds is the update
   * header wiped and the OTA data rewritten to select the new slot.
   */
  method OtaMain(build: BuildConfig, bs: BootState, bootIndex: int, table: PartitionTable,
                 storage: Flash, app: Flash, otadata: Flash,
                 crypto: Crypto, verify: (seq<byte>, nat, nat) -> bool, run: XzRun, env: OtaEnv)
    returns (r: int)
    requires bootIndex < bs.appCount <= MAX_OTA_SLOTS && |bs.ota| == MAX_OTA_SLOTS
    requires storage != app && storage != otadata && app != otadata
    requires SeqRoom(otadata.mem, bs, env)
    modifies storage, app, otadata
    ensures !Starts(build, crypto, verify, old(storage.mem), table) ==>
              && r == bootIndex
              && storage.ops == old(storage.ops) && app.ops == old(app.ops) && otadata.ops == old(otadata.ops)
              && storage.mem == old(storage.mem) && app.mem == old(app.mem) && otadata.mem == old(otadata.mem)
    ensures Starts(build, crypto, verify, old(storage.mem), table) ==>
              var pos := FindPartition(table, PART_TYPE_DATA, PARTITION_SUBTYPE).value;
              var engines := SelectEngines(build, Decode(RawHeader(old(storage.mem), pos))).value;
              var slot := DestSlot(bootIndex, bs.appCount);
              var dst := bs.ota[slot];
              var out := Sunk(SinkWrites(engines), 0, dst.size, ChainSteps(engines, run));
              var p := PlanUpdate(old(otadata.mem), bs, slot, env);
              && app.ops == old(app.ops) + [FlashOp.Erase(dst.offset, dst.size)]
                            + SunkOps(SinkWrites(engines), dst.offset, 0, dst.size, ChainSteps(engines, run))
              && SlotRewritten(old(app.mem), app.mem, dst.offset, dst.size, out)
              && (ChainResult(engines, run) < 0 ==>
                    && r == bootIndex
                    && storage.ops == old(storage.ops) && otadata.ops == old(otadata.ops)
                    && storage.mem == old(storage.mem) && otadata.mem == old(otadata.mem))
              && (ChainResult(engines, run) >= 0 ==>
                    && r == slot
                    && storage.ops == old(storage.ops) + [FlashOp.Erase(pos.offset, SEC_SIZE)]
                    && storage.mem == AfterErase(old(storage.mem), pos.offset, SEC_SIZE)
                    && otadata.ops == old(otadata.ops) + PlanOps(old(otadata.mem), p)
                    && otadata.mem == PlanMem(old(otadata.mem), p))
  {
    DestSlotSpec(bootIndex, bs.appCount);
    var otaIndex: nat := DestSlot(bootIndex, bs.appCount);
    var found, pos := SearchPartitionPos(table, PART_TYPE_DATA, PARTITION_SUBTYPE, PartitionPos(0, 0));
    if !found {
      return bootIndex;
    }
    var cfg := new OtaConfig(pos.offset, pos.size, bs.ota[otaIndex].offset, bs.ota[otaIndex].size);
    var ok, h := RunChecks(build, cfg, storage, crypto, verify, pos);
    if !ok {
      return bootIndex;
    }
    var engines;
    ok, engines := EnginesInit(build, h);
    if !ok {
      return bootIndex;
    }
    r := ApplyUpdate(cfg, h, engines, bs, bootIndex, otaIndex, storage, app, otadata, run, env);
  }

  /**
   * After a successful update the OTA data record written (if any) makes the
   * bootloader select the new slot, and the new slot is not the one that
   * was running. The record's sequence number is at least 1 unless the
   * active record's was 0.
   */
  lemma {:induction false} UpdateSelectsNewSlot(bs: BootState, bootIndex: int, mem: seq<byte>, env: OtaEnv)
    requires 0 <= bootIndex < bs.appCount <= MAX_OTA_SLOTS
    requires SeqRoom(mem, bs, env)
    requires PlanUpdate(mem, bs, DestSlot(bootIndex, bs.appCount), env).WriteRecord?
    ensures var slot := DestSlot(bootIndex, bs.appCount);
            var p := PlanUpdate(mem, bs, slot, env);
            var rd := ReadOtadata(mem, bs.otaInfo);
            var a := env.activeOtadata(rd.rec0, rd.rec1);
            && (bs.appCount >= 2 ==> slot != bootIndex)
            && (a == -1 || Pick(rd.rec0, rd.rec1, a).otaSeq >= 1 ==> p.rec.otaSeq >= 1)
            && (p.rec.otaSeq >= 1 ==> (p.rec.otaSeq - 1) % bs.appCount == slot)
  {
    var slot := DestSlot(bootIndex, bs.appCount);
    DestSlotSpec(bootIndex, bs.appCount);
    PlanWritesOtherSector(mem, bs, slot, env);
    assert bs.appCount % 256 == bs.appCount;
  }
}
