/**
 * The OTA-data update of `bootloader_custom_utility.c`: reading the two
 * `esp_ota_select_entry_t` records of the OTA data partition, choosing the
 * sequence number that makes the bootloader start the new slot, and writing
 * that record into the sector that does not hold the active one; plus the
 * partition-table search the update driver uses to find its storage.
 *
 * `bootloader_common_get_active_otadata`, `bootloader_common_ota_select_crc`
 * and `esp_partition_table_verify` are not part of this model; they are given
 * as functions or flags.
 */
module OtaData {
  import opened OtaTypes
  import opened FlashDevice

  /** `SPI_SEC_SIZE` / `FLASH_SECTOR_SIZE`: one OTA-data record per sector. */
  const SPI_SEC_SIZE: nat := 0x1000
  /** `sizeof(esp_ota_select_entry_t)`. */
  const OTA_SELECT_ENTRY_SIZE: nat := 32
  /** `esp_ota_img_states_t` values the update can write. */
  const ESP_OTA_IMG_NEW: u32 := 0
  const ESP_OTA_IMG_UNDEFINED: u32 := 0xFFFF_FFFF
  /** Number of entries of `bootloader_state_t.ota`. */
  const MAX_OTA_SLOTS: nat := 16
  /** `PART_TYPE_DATA`. */
  const PART_TYPE_DATA: byte := 0x01

  type Bytes20 = s: seq<byte> | |s| == 20 witness seq(20, _ => 0)

  /** `esp_ota_select_entry_t`: sequence number, label, image state, CRC; 32 bytes, words little-endian. */
  datatype OtaSelectEntry = OtaSelectEntry(otaSeq: u32, seqLabel: Bytes20, otaState: u32, crc: u32)

  function EncodeEntry(e: OtaSelectEntry): (b: seq<byte>)
    ensures |b| == OTA_SELECT_ENTRY_SIZE
  {
    LE32(e.otaSeq) + e.seqLabel + LE32(e.otaState) + LE32(e.crc)
  }

  function DecodeEntry(b: seq<byte>): OtaSelectEntry
    requires |b| == OTA_SELECT_ENTRY_SIZE
  {
    OtaSelectEntry(ReadLE32(b[0..4]), b[4..24], ReadLE32(b[24..28]), ReadLE32(b[28..32]))
  }

  lemma {:induction false} DecodeEncodeEntry(e: OtaSelectEntry)
    ensures DecodeEntry(EncodeEntry(e)) == e
  {
    var b := EncodeEntry(e);
    var p24 := LE32(e.otaSeq) + e.seqLabel;
    var p28 := p24 + LE32(e.otaState);
    assert b == p28 + LE32(e.crc);
    assert b[..28] == p28 && b[28..32] == LE32(e.crc);
    assert p28[..24] == p24 && p28[24..28] == LE32(e.otaState);
    assert b[0..4] == p24[0..4] == LE32(e.otaSeq);
    assert b[4..24] == p24[4..24] == e.seqLabel;
    assert b[24..28] == p28[24..28];
    LE32RoundTrip(e.otaSeq, b[0..4]);
    LE32RoundTrip(e.otaState, b[24..28]);
    LE32RoundTrip(e.crc, b[28..32]);
  }

  lemma {:induction false} EncodeDecodeEntry(b: seq<byte>)
    requires |b| == OTA_SELECT_ENTRY_SIZE
    ensures EncodeEntry(DecodeEntry(b)) == b
  {
    LE32RoundTrip(0, b[0..4]);
    LE32RoundTrip(0, b[24..28]);
    LE32RoundTrip(0, b[28..32]);
    assert b == b[0..4] + b[4..24] + b[24..28] + b[28..32];
  }

  /** The `esp_err_t` values these functions return. */
  datatype EspErr = EspOk | EspFail | EspErrNotFound | EspErrInvalidArg

  /** `esp_partition_pos_t`. */
  datatype PartitionPos = PartitionPos(offset: u32, size: u32)

  /** The fields of `bootloader_state_t` the update reads. */
  datatype BootState = BootState(otaInfo: PartitionPos, appCount: u32, ota: seq<PartitionPos>)

  /** What `bootloader_common_get_active_otadata` can return: -1 (none valid), 0 or 1. */
  type ActiveIndex = x: int | -1 <= x <= 1

  /**
   * The collaborators of the OTA-data update: which record is active, the
   * record CRC, and whether `CONFIG_BOOTLOADER_APP_ROLLBACK_ENABLE` is set.
   */
  datatype OtaEnv = OtaEnv(
    activeOtadata: (OtaSelectEntry, OtaSelectEntry) -> ActiveIndex,
    otaSelectCrc: OtaSelectEntry -> u32,
    rollback: bool)

  datatype ReadResult = ReadOk(rec0: OtaSelectEntry, rec1: OtaSelectEntry) | ReadErr(err: EspErr)

  /**
   * `read_otadata`: no partition (offset 0) is NOT_FOUND; a partition smaller
   * than two sectors, or one that cannot be mapped (here: one reaching past
   * the device), is FAIL; otherwise the records at the start of each of the
   * first two sectors.
   */
  function ReadOtadata(mem: seq<byte>, info: PartitionPos): (r: ReadResult)
    ensures info.offset == 0 ==> r == ReadErr(EspErrNotFound)
    ensures info.offset != 0 && info.size < 2 * SPI_SEC_SIZE ==> r == ReadErr(EspFail)
    ensures info.offset != 0 && !r.ReadOk? ==> r == ReadErr(EspFail)
    ensures r.ReadOk? <==> info.offset != 0 && info.size >= 2 * SPI_SEC_SIZE && InDevice(mem, info.offset, info.size)
    ensures r.ReadOk? ==> EncodeEntry(r.rec0) == FlashRead(mem, info.offset, OTA_SELECT_ENTRY_SIZE)
                          && EncodeEntry(r.rec1) == FlashRead(mem, info.offset + SPI_SEC_SIZE, OTA_SELECT_ENTRY_SIZE)
  {
    if info.offset == 0 then ReadErr(EspErrNotFound)
    else if info.size < 2 * SPI_SEC_SIZE then ReadErr(EspFail)
    else if !InDevice(mem, info.offset, info.size) then ReadErr(EspFail)
    else
      var b0 := FlashRead(mem, info.offset, OTA_SELECT_ENTRY_SIZE);
      var b1 := FlashRead(mem, info.offset + SPI_SEC_SIZE, OTA_SELECT_ENTRY_SIZE);
      EncodeDecodeEntry(b0);
      EncodeDecodeEntry(b1);
      ReadOk(DecodeEntry(b0), DecodeEntry(b1))
  }

  /** `set_new_state_otadata`: NEW when rollback is configured, UNDEFINED otherwise. */
  function NewState(rollback: bool): (s: u32)
    ensures s == ESP_OTA_IMG_NEW <==> rollback
    ensures !rollback ==> s == ESP_OTA_IMG_UNDEFINED
  {
    if rollback then ESP_OTA_IMG_NEW else ESP_OTA_IMG_UNDEFINED
  }

  // ---------------------------------------------------------------------
  // Sequence arithmetic
  // ---------------------------------------------------------------------

  /** v is one of the sequence numbers that make the bootloader pick slot `b` of `n`. */
  predicate SelectsSlot(v: nat, b: nat, n: nat)
    requires n > 0
  {
    v % n == (b + 1) % n
  }

  /**
   * The new sequence number: the smallest value not below the active
   * sequence `s` that is congruent to b + 1 modulo n.
   */
  function NextSeq(s: nat, b: nat, n: nat): nat
    requires n > 0
  {
    var r := (b + 1) % n;
    if s <= r then r else r + ((s - r + n - 1) / n) * n
  }

  /** Multiples of n in order: i <= j exactly when i*n <= j*n. */
  lemma MulMono(i: nat, j: nat, n: nat)
    requires n > 0
    ensures i <= j <==> i * n <= j * n
  {
    if i <= j {
      assert j * n - i * n == (j - i) * n;
    } else {
      assert i * n - j * n == (i - j) * n;
    }
  }

  /** A value written as q*n + r with r below n has quotient q and remainder r. */
  lemma ModUnique(v: nat, q: nat, r: nat, n: nat)
    requires n > 0 && r < n && v == q * n + r
    ensures v % n == r && v / n == q
  {
    var q', r' := v / n, v % n;
    assert v == q' * n + r';
    assert (q' + 1) * n == q' * n + n;
    assert (q + 1) * n == q * n + n;
    MulMono(q' + 1, q, n);
    MulMono(q + 1, q', n);
  }

  /**
   * NextSeq is r + k*n for the least k with s <= r + k*n: it selects slot b,
   * is not below s, and the previous candidate r + (k-1)*n is.
   */
  lemma {:induction false} NextSeqShape(s: nat, b: nat, n: nat) returns (k: nat)
    requires n > 0
    ensures NextSeq(s, b, n) == (b + 1) % n + k * n
    ensures s <= NextSeq(s, b, n)
    ensures k == 0 || (b + 1) % n + (k - 1) * n < s
  {
    var r := (b + 1) % n;
    if s <= r {
      k := 0;
    } else {
      var d := s - r;
      k := (d + n - 1) / n;
      var m := (d + n - 1) % n;
      assert k * n + m == d + n - 1;
      assert (k - 1) * n == k * n - n;
    }
  }

  /**
   * The new sequence number selects slot b, is at least the active one, and
   * is the smallest such value; it is below s + n unless it is b + 1 mod n itself.
   */
  lemma {:induction false} NextSeqSpec(s: nat, b: nat, n: nat)
    requires n > 0
    ensures SelectsSlot(NextSeq(s, b, n), b, n)
    ensures s <= NextSeq(s, b, n)
    ensures NextSeq(s, b, n) < s + n || NextSeq(s, b, n) == (b + 1) % n
    ensures forall v: nat | SelectsSlot(v, b, n) && s <= v :: NextSeq(s, b, n) <= v
  {
    var r := (b + 1) % n;
    var k := NextSeqShape(s, b, n);
    var x := NextSeq(s, b, n);
    ModUnique(x, k, r, n);
    if k > 0 {
      assert x == (b + 1) % n + (k - 1) * n + n;
    }
    forall v: nat | SelectsSlot(v, b, n) && s <= v
      ensures x <= v
    {
      NextSeqMinimal(s, r, k, n, v);
    }
  }

  /** The bound that keeps the new sequence number within 32 bits. */
  lemma NextSeqBelow(s: nat, b: nat, n: nat)
    requires n > 0
    ensures NextSeq(s, b, n) < s + n || NextSeq(s, b, n) < n
  {
    var k := NextSeqShape(s, b, n);
    if k > 0 {
      assert NextSeq(s, b, n) == (b + 1) % n + (k - 1) * n + n;
    }
  }

  lemma NextSeqMinimal(s: nat, r: nat, k: nat, n: nat, v: nat)
    requires n > 0 && r < n && v % n == r && s <= v
    requires k == 0 || r + (k - 1) * n < s
    ensures r + k * n <= v
  {
    var q := v / n;
    assert v == q * n + r;
    if k > 0 {
      MulMono(q, k - 1, n);
      MulMono(k, q, n);
    }
  }

  /**
   * With a record written by the update, the bootloader's slot choice
   * (seq - 1) mod n is the target slot b, for any sequence number at least 1.
   */
  lemma {:induction false} SelectsSlotBoots(v: nat, b: nat, n: nat)
    requires n > 0 && b < n && v >= 1
    requires SelectsSlot(v, b, n)
    ensures (v - 1) % n == b
  {
    var q := v / n;
    assert v == q * n + v % n;
    if b + 1 < n {
      ModUnique(b + 1, 0, b + 1, n);
      assert v - 1 == q * n + b;
      ModUnique(v - 1, q, b, n);
    } else {
      ModUnique(b + 1, 1, 0, n);
      assert v == q * n;
      assert q != 0;
      assert v - 1 == (q - 1) * n + (n - 1);
      ModUnique(v - 1, q - 1, n - 1, n);
    }
  }

  /** The worked example of the source: records 4 and 5, 8 slots, target ota[7]: sequence 8. */
  lemma NextSeqExample()
    ensures NextSeq(5, 7, 8) == 8
    ensures (NextSeq(5, 7, 8) - 1) % 8 == 7
  {
  }

  /**
   * The search loop of `bootloader_custom_utility_updata_ota_data`: i counts
   * up while the active sequence is still above (b + 1) % n + i * n.
   */
  method SeqSearch(s: u32, b: nat, n: nat) returns (v: u32)
    requires n > 0
    requires s + n <= 0x1_0000_0000
    ensures v == NextSeq(s, b, n)
  {
    var r := (b + 1) % n;
    var i: nat := 0;
    while s > r + i * n
      invariant i == 0 || r + (i - 1) * n < s
      decreases s - i * n
    {
      assert (i + 1) * n == i * n + n;
      i := i + 1;
    }
    ghost var x := NextSeq(s, b, n);
    NextSeqSpec(s, b, n);
    ModUnique(r + i * n, i, r, n);
    assert SelectsSlot(r + i * n, b, n);
    assert x <= r + i * n;
    NextSeqMinimal(s, r, i, n, x);
    v := r + i * n;
  }

  /**
   * The loop's candidate `(boot_index + 1) % ota_app_count + i * ota_app_count`
   * as C evaluates it: `i` is a `uint32_t`, so the sum wraps modulo 2^32.
   */
  function Candidate32(b: nat, n: nat, i: nat): (c: u32)
    requires n > 0
    ensures (b + 1) % n + i * n < 0x1_0000_0000 ==> c == (b + 1) % n + i * n
  {
    ((b + 1) % n + i * n) % 0x1_0000_0000
  }

  /**
   * Without room above the active sequence the search never ends: with the
   * active sequence 0xFFFFFFFE, eight slots and slot 7 as the target, every
   * candidate (a multiple of 8, after wrapping) stays below the sequence, so
   * the loop condition holds for every i.
   */
  lemma SeqLoopNeverExits(i: nat)
    ensures 0xFFFF_FFFE > Candidate32(7, 8, i)
  {
    var v := i * 8;
    var q, c := v / 0x1_0000_0000, v % 0x1_0000_0000;
    assert c == Candidate32(7, 8, i);
    var t: int := i - q * 0x2000_0000;
    assert c == 8 * t;
    assert t < 0x2000_0000;
  }

  // ---------------------------------------------------------------------
  // The update
  // ---------------------------------------------------------------------

  /** What the update will do: give up with an error, or write `rec` into sector `next` at `addr`. */
  datatype UpdatePlan = Reject(err: EspErr) | WriteRecord(next: nat, addr: nat, rec: OtaSelectEntry)

  /** The record at index a of the pair read. */
  function Pick(r0: OtaSelectEntry, r1: OtaSelectEntry, a: nat): OtaSelectEntry
  {
    if a == 0 then r0 else r1
  }

  /** The active record's sequence leaves room for one more round of n slots in 32 bits. */
  predicate SeqRoom(mem: seq<byte>, bs: BootState, env: OtaEnv)
  {
    var rd := ReadOtadata(mem, bs.otaInfo);
    rd.ReadOk? ==>
      var a := env.activeOtadata(rd.rec0, rd.rec1);
      a == -1 || Pick(rd.rec0, rd.rec1, a).otaSeq + bs.appCount % 256 <= 0x1_0000_0000
  }

  /** The record with its sequence and state replaced and its CRC recomputed over the result. */
  function Restamp(env: OtaEnv, base: OtaSelectEntry, s: u32): OtaSelectEntry
  {
    var e := base.(otaSeq := s, otaState := NewState(env.rollback));
    e.(crc := env.otaSelectCrc(e))
  }

  /** The decision `bootloader_custom_utility_updata_ota_data` takes from the partition's contents. */
  function PlanUpdate(mem: seq<byte>, bs: BootState, bootIndex: nat, env: OtaEnv): UpdatePlan
    requires SeqRoom(mem, bs, env)
  {
    match ReadOtadata(mem, bs.otaInfo)
    case ReadErr(_) => Reject(EspFail)
    case ReadOk(r0, r1) =>
      var n := bs.appCount % 256;
      if bootIndex >= n then Reject(EspErrInvalidArg)
      else
        var a := env.activeOtadata(r0, r1);
        if a == -1 then
          WriteRecord(0, bs.otaInfo.offset, Restamp(env, r0, bootIndex + 1))
        else
          var next := 1 - a;
          var s := Pick(r0, r1, a).otaSeq;
          NextSeqBelow(s, bootIndex, n);
          WriteRecord(next, bs.otaInfo.offset + SPI_SEC_SIZE * next,
                      Restamp(env, Pick(r0, r1, next), NextSeq(s, bootIndex, n)))
  }

  /** When the update gives up, and with which error. */
  lemma PlanRejects(mem: seq<byte>, bs: BootState, bootIndex: nat, env: OtaEnv)
    requires SeqRoom(mem, bs, env)
    ensures ReadOtadata(mem, bs.otaInfo).ReadErr? ==> PlanUpdate(mem, bs, bootIndex, env) == Reject(EspFail)
    ensures ReadOtadata(mem, bs.otaInfo).ReadOk? && bootIndex >= bs.appCount % 256
            ==> PlanUpdate(mem, bs, bootIndex, env) == Reject(EspErrInvalidArg)
    ensures PlanUpdate(mem, bs, bootIndex, env).WriteRecord? <==>
              ReadOtadata(mem, bs.otaInfo).ReadOk? && bootIndex < bs.appCount % 256
  {
  }

  /**
   * The written record: into the sector other than the active record's (sector
   * 0 when none is valid), state from the rollback setting, CRC recomputed,
   * label kept from the record it replaces; its sequence number makes the
   * bootloader select slot `bootIndex`, and is never below the active one.
   */
  lemma {:induction false} PlanWritesOtherSector(mem: seq<byte>, bs: BootState, bootIndex: nat, env: OtaEnv)
    requires SeqRoom(mem, bs, env)
    requires PlanUpdate(mem, bs, bootIndex, env).WriteRecord?
    ensures var rd := ReadOtadata(mem, bs.otaInfo);
            var a := env.activeOtadata(rd.rec0, rd.rec1);
            var p := PlanUpdate(mem, bs, bootIndex, env);
            var n := bs.appCount % 256;
            && p.next in {0, 1}
            && p.addr == bs.otaInfo.offset + SPI_SEC_SIZE * p.next
            && (a == -1 ==> p.next == 0 && p.rec.otaSeq == bootIndex + 1)
            && (a != -1 ==> p.next != a && Pick(rd.rec0, rd.rec1, a).otaSeq <= p.rec.otaSeq)
            && p.rec.seqLabel == Pick(rd.rec0, rd.rec1, p.next).seqLabel
            && p.rec.otaState == NewState(env.rollback)
            && p.rec.crc == env.otaSelectCrc(p.rec.(crc := Pick(rd.rec0, rd.rec1, p.next).crc))
            && (p.rec.otaSeq >= 1 ==> (p.rec.otaSeq - 1) % n == bootIndex)
  {
    var rd := ReadOtadata(mem, bs.otaInfo);
    var a := env.activeOtadata(rd.rec0, rd.rec1);
    var p := PlanUpdate(mem, bs, bootIndex, env);
    var n := bs.appCount % 256;
    if a == -1 {
      assert SelectsSlot(bootIndex + 1, bootIndex, n);
      SelectsSlotBoots(bootIndex + 1, bootIndex, n);
    } else {
      NextSeqSpec(Pick(rd.rec0, rd.rec1, a).otaSeq, bootIndex, n);
      if p.rec.otaSeq >= 1 {
        SelectsSlotBoots(p.rec.otaSeq, bootIndex, n);
      }
    }
  }

  /** The first byte of the sector holding addr. */
  function SectorStart(addr: nat): (s: nat)
    ensures s <= addr < s + SPI_SEC_SIZE && s % SPI_SEC_SIZE == 0
  {
    (addr / SPI_SEC_SIZE) * SPI_SEC_SIZE
  }

  /** The flash operations `write_otadata` issues: the sector erase, then the write only if the erase succeeded. */
  function RecordOps(mem: seq<byte>, addr: nat): seq<FlashOp>
  {
    [FlashOp.Erase(SectorStart(addr), SPI_SEC_SIZE)]
    + (if InDevice(mem, SectorStart(addr), SPI_SEC_SIZE) then [FlashOp.Write(addr, OTA_SELECT_ENTRY_SIZE)] else [])
  }

  /** The erase always comes first, and a write, if any, is of one record. */
  lemma RecordOpsEraseFirst(mem: seq<byte>, addr: nat)
    ensures 1 <= |RecordOps(mem, addr)| <= 2
    ensures RecordOps(mem, addr)[0] == FlashOp.Erase(SectorStart(addr), SPI_SEC_SIZE)
    ensures |RecordOps(mem, addr)| == 2 <==> InDevice(mem, SectorStart(addr), SPI_SEC_SIZE)
    ensures |RecordOps(mem, addr)| == 2 ==> RecordOps(mem, addr)[1] == FlashOp.Write(addr, OTA_SELECT_ENTRY_SIZE)
  {
  }

  /** The OTA data partition after `write_otadata`: the sector erased, then the record programmed if the erase succeeded. */
  function RecordWritten(mem: seq<byte>, addr: nat, rec: OtaSelectEntry): (m: seq<byte>)
    ensures |m| == |mem|
  {
    if InDevice(mem, SectorStart(addr), SPI_SEC_SIZE)
    then AfterWrite(Erased(mem, SectorStart(addr), SPI_SEC_SIZE), addr, EncodeEntry(rec))
    else mem
  }

  /**
   * Writing a record touches only the sector that holds it and the record's
   * own bytes, and on success the record reads back from its address.
   */
  lemma RecordWrittenFrame(mem: seq<byte>, addr: nat, rec: OtaSelectEntry)
    ensures forall i | 0 <= i < |mem| && !(SectorStart(addr) <= i < SectorStart(addr) + SPI_SEC_SIZE)
                                       && !(addr <= i < addr + OTA_SELECT_ENTRY_SIZE) ::
              RecordWritten(mem, addr, rec)[i] == mem[i]
    ensures InDevice(mem, SectorStart(addr), SPI_SEC_SIZE) && InDevice(mem, addr, OTA_SELECT_ENTRY_SIZE) ==>
              FlashRead(RecordWritten(mem, addr, rec), addr, OTA_SELECT_ENTRY_SIZE) == EncodeEntry(rec)
  {
    if InDevice(mem, SectorStart(addr), SPI_SEC_SIZE) {
      var e := Erased(mem, SectorStart(addr), SPI_SEC_SIZE);
      assert |EncodeEntry(rec)| == OTA_SELECT_ENTRY_SIZE;
      assert RecordWritten(mem, addr, rec) == AfterWrite(e, addr, EncodeEntry(rec));
    }
  }

  /**
   * A record written into one sector of a sector-aligned pair leaves the
   * other sector as it was.
   */
  lemma OtherSectorUntouched(mem: seq<byte>, offset: nat, a: nat, next: nat, addr: nat, rec: OtaSelectEntry)
    requires offset % SPI_SEC_SIZE == 0 && a <= 1 && next <= 1 && a != next
    requires addr == offset + SPI_SEC_SIZE * next
    ensures var at := offset + SPI_SEC_SIZE * a;
            FlashRead(RecordWritten(mem, addr, rec), at, SPI_SEC_SIZE) == FlashRead(mem, at, SPI_SEC_SIZE)
  {
    var at := offset + SPI_SEC_SIZE * a;
    AlignedSectorStart(addr);
    RecordWrittenFrame(mem, addr, rec);
    var got, was := FlashRead(RecordWritten(mem, addr, rec), at, SPI_SEC_SIZE), FlashRead(mem, at, SPI_SEC_SIZE);
    forall i | 0 <= i < SPI_SEC_SIZE ensures got[i] == was[i] {
      assert !(addr <= at + i < addr + SPI_SEC_SIZE);
    }
  }

  /**
   * `write_otadata`: erases the sector holding `offset`, and writes the
   * record there only if the erase succeeded.
   */
  method WriteOtadata(otadata: Flash, rec: OtaSelectEntry, offset: nat) returns (err: EspErr)
    modifies otadata
    ensures otadata.ops == old(otadata.ops) + RecordOps(old(otadata.mem), offset)
    ensures err == EspOk <==> InDevice(old(otadata.mem), SectorStart(offset), SPI_SEC_SIZE)
                              && InDevice(old(otadata.mem), offset, OTA_SELECT_ENTRY_SIZE)
    ensures err == EspOk ==> FlashRead(otadata.mem, offset, OTA_SELECT_ENTRY_SIZE) == EncodeEntry(rec)
    ensures otadata.mem == RecordWritten(old(otadata.mem), offset, rec)
  {
    var ok := otadata.EraseRange(SectorStart(offset), SPI_SEC_SIZE);
    if ok {
      ok := otadata.Write(offset, EncodeEntry(rec));
    }
    err := if ok then EspOk else EspFail;
  }

  /** The update's flash operations for a plan. */
  function PlanOps(mem: seq<byte>, p: UpdatePlan): seq<FlashOp>
  {
    if p.Reject? then [] else RecordOps(mem, p.addr)
  }

  /** The OTA data partition after the update carries out a plan. */
  function PlanMem(mem: seq<byte>, p: UpdatePlan): (m: seq<byte>)
    ensures |m| == |mem|
  {
    if p.Reject? then mem else RecordWritten(mem, p.addr, p.rec)
  }

  /** A sector-aligned address is the start of its own sector. */
  lemma AlignedSectorStart(addr: nat)
    requires addr % SPI_SEC_SIZE == 0
    ensures SectorStart(addr) == addr
  {
  }

  /**
   * The point of the two-sector scheme: with a valid active record in a
   * sector-aligned OTA data partition, the update never touches the active
   * record's sector, so that record reads back unchanged whatever happens to
   * the write of the other one.
   */
  lemma UpdateKeepsActiveRecord(mem: seq<byte>, bs: BootState, bootIndex: nat, env: OtaEnv, a: nat)
    requires SeqRoom(mem, bs, env)
    requires bs.otaInfo.offset % SPI_SEC_SIZE == 0
    requires ReadOtadata(mem, bs.otaInfo).ReadOk?
    requires a == env.activeOtadata(ReadOtadata(mem, bs.otaInfo).rec0, ReadOtadata(mem, bs.otaInfo).rec1)
    ensures var at := bs.otaInfo.offset + SPI_SEC_SIZE * a;
            var m := PlanMem(mem, PlanUpdate(mem, bs, bootIndex, env));
            FlashRead(m, at, SPI_SEC_SIZE) == FlashRead(mem, at, SPI_SEC_SIZE)
    ensures var rd := ReadOtadata(mem, bs.otaInfo);
            var m := PlanMem(mem, PlanUpdate(mem, bs, bootIndex, env));
            FlashRead(m, bs.otaInfo.offset + SPI_SEC_SIZE * a, OTA_SELECT_ENTRY_SIZE) == EncodeEntry(Pick(rd.rec0, rd.rec1, a))
  {
    // Every step below is a lemma call; hiding the definitions keeps the
    // solver from unfolding the plan while it chains them.
    hide *;
    PlanTargetsOtherSector(mem, bs, bootIndex, env, a);
    PlanKeepsSector(mem, bs.otaInfo.offset, a, PlanUpdate(mem, bs, bootIndex, env));
    RecordBytes(mem, bs.otaInfo, a);
  }

  /** With a valid active record a, a plan that writes targets the other sector. */
  lemma PlanTargetsOtherSector(mem: seq<byte>, bs: BootState, bootIndex: nat, env: OtaEnv, a: nat)
    requires SeqRoom(mem, bs, env)
    requires ReadOtadata(mem, bs.otaInfo).ReadOk?
    requires a == env.activeOtadata(ReadOtadata(mem, bs.otaInfo).rec0, ReadOtadata(mem, bs.otaInfo).rec1)
    ensures var p := PlanUpdate(mem, bs, bootIndex, env);
            p.WriteRecord? ==> p.next <= 1 && p.next != a && p.addr == bs.otaInfo.offset + SPI_SEC_SIZE * p.next
  {
    if PlanUpdate(mem, bs, bootIndex, env).WriteRecord? {
      PlanWritesOtherSector(mem, bs, bootIndex, env);
    }
  }

  /** A plan that writes into the other sector of an aligned pair keeps sector a. */
  lemma PlanKeepsSector(mem: seq<byte>, offset: nat, a: nat, p: UpdatePlan)
    requires offset % SPI_SEC_SIZE == 0 && a <= 1
    requires p.WriteRecord? ==> p.next <= 1 && p.next != a && p.addr == offset + SPI_SEC_SIZE * p.next
    ensures FlashRead(PlanMem(mem, p), offset + SPI_SEC_SIZE * a, SPI_SEC_SIZE)
            == FlashRead(mem, offset + SPI_SEC_SIZE * a, SPI_SEC_SIZE)
    ensures FlashRead(PlanMem(mem, p), offset + SPI_SEC_SIZE * a, OTA_SELECT_ENTRY_SIZE)
            == FlashRead(mem, offset + SPI_SEC_SIZE * a, OTA_SELECT_ENTRY_SIZE)
  {
    if p.WriteRecord? {
      OtherSectorUntouched(mem, offset, a, p.next, p.addr, p.rec);
    }
    SameSectorSameRecord(PlanMem(mem, p), mem, offset + SPI_SEC_SIZE * a);
  }

  /** Two devices that agree on a sector agree on the record at its start. */
  lemma SameSectorSameRecord(m: seq<byte>, mem: seq<byte>, at: nat)
    requires FlashRead(m, at, SPI_SEC_SIZE) == FlashRead(mem, at, SPI_SEC_SIZE)
    ensures FlashRead(m, at, OTA_SELECT_ENTRY_SIZE) == FlashRead(mem, at, OTA_SELECT_ENTRY_SIZE)
  {
    ConsecutiveReads(m, at, OTA_SELECT_ENTRY_SIZE, SPI_SEC_SIZE - OTA_SELECT_ENTRY_SIZE);
    ConsecutiveReads(mem, at, OTA_SELECT_ENTRY_SIZE, SPI_SEC_SIZE - OTA_SELECT_ENTRY_SIZE);
    var got, was := FlashRead(m, at, SPI_SEC_SIZE), FlashRead(mem, at, SPI_SEC_SIZE);
    assert FlashRead(m, at, OTA_SELECT_ENTRY_SIZE) == got[..OTA_SELECT_ENTRY_SIZE];
    assert FlashRead(mem, at, OTA_SELECT_ENTRY_SIZE) == was[..OTA_SELECT_ENTRY_SIZE];
  }

  /** Record a of a successful read is the 32 bytes at the start of sector a. */
  lemma RecordBytes(mem: seq<byte>, info: PartitionPos, a: nat)
    requires ReadOtadata(mem, info).ReadOk? && a <= 1
    ensures var rd := ReadOtadata(mem, info);
            FlashRead(mem, info.offset + SPI_SEC_SIZE * a, OTA_SELECT_ENTRY_SIZE) == EncodeEntry(Pick(rd.rec0, rd.rec1, a))
  {
    assert info.offset + SPI_SEC_SIZE * a == if a == 0 then info.offset else info.offset + SPI_SEC_SIZE;
  }

  /**
   * What carrying out plan `p` on the OTA data partition leaves behind: the
   * operations of `PlanOps` appended to the log, the contents `PlanMem`, and
   * the error code — the rejection's own code, or `ESP_OK` exactly when the
   * record's sector and the record lie on the device, in which case the
   * planned record reads back at the planned address.
   */
  ghost predicate PlanCarried(mem0: seq<byte>, ops0: seq<FlashOp>, mem: seq<byte>, ops: seq<FlashOp>,
                              p: UpdatePlan, err: EspErr)
  {
    && ops == ops0 + PlanOps(mem0, p)
    && mem == PlanMem(mem0, p)
    && (p.Reject? ==> err == p.err && mem == mem0)
    && (p.WriteRecord? ==>
          && (err == EspOk <==>
                InDevice(mem0, SectorStart(p.addr), SPI_SEC_SIZE) && InDevice(mem0, p.addr, OTA_SELECT_ENTRY_SIZE))
          && (err == EspOk ==> FlashRead(mem, p.addr, OTA_SELECT_ENTRY_SIZE) == EncodeEntry(p.rec)))
  }

  /** `write_otadata` carries out a plan that writes the same record at the same address. */
  lemma WriteCarriesPlan(mem0: seq<byte>, ops0: seq<FlashOp>, mem: seq<byte>, ops: seq<FlashOp>,
                         p: UpdatePlan, err: EspErr)
    requires p.WriteRecord?
    requires ops == ops0 + RecordOps(mem0, p.addr)
    requires err == EspOk <==> InDevice(mem0, SectorStart(p.addr), SPI_SEC_SIZE)
                               && InDevice(mem0, p.addr, OTA_SELECT_ENTRY_SIZE)
    requires err == EspOk ==> FlashRead(mem, p.addr, OTA_SELECT_ENTRY_SIZE) == EncodeEntry(p.rec)
    requires mem == RecordWritten(mem0, p.addr, p.rec)
    ensures PlanCarried(mem0, ops0, mem, ops, p, err)
  {
  }

  /**
   * `bootloader_custom_utility_updata_ota_data`, with the target slot
   * `bootIndex`: carries out `PlanUpdate`, touching the OTA data partition
   * only through `write_otadata`.
   */
  method UpdateOtaData(bs: BootState, bootIndex: nat, otadata: Flash, env: OtaEnv) returns (err: EspErr)
    requires SeqRoom(otadata.mem, bs, env)
    modifies otadata
    ensures PlanCarried(old(otadata.mem), old(otadata.ops), otadata.mem, otadata.ops,
                        PlanUpdate(old(otadata.mem), bs, bootIndex, env), err)
  {
    ghost var mem0, ops0 := otadata.mem, otadata.ops;
    ghost var plan := PlanUpdate(mem0, bs, bootIndex, env);
    var rd := ReadOtadata(otadata.mem, bs.otaInfo);
    if rd.ReadErr? {
      assert plan == Reject(EspFail);
      return EspFail;
    }
    var n := bs.appCount % 256;
    if bootIndex >= n {
      assert plan == Reject(EspErrInvalidArg);
      return EspErrInvalidArg;
    }
    var a := env.activeOtadata(rd.rec0, rd.rec1);
    if a != -1 {
      var s := SeqSearch(Pick(rd.rec0, rd.rec1, a).otaSeq, bootIndex, n);
      var next := 1 - a;
      var rec := Restamp(env, Pick(rd.rec0, rd.rec1, next), s);
      assert plan == WriteRecord(next, bs.otaInfo.offset + SPI_SEC_SIZE * next, rec);
      err := WriteOtadata(otadata, rec, bs.otaInfo.offset + SPI_SEC_SIZE * next);
    } else {
      var rec := Restamp(env, rd.rec0, bootIndex + 1);
      assert plan == WriteRecord(0, bs.otaInfo.offset + SPI_SEC_SIZE * 0, rec);
      err := WriteOtadata(otadata, rec, bs.otaInfo.offset + SPI_SEC_SIZE * 0);
    }
    WriteCarriesPlan(mem0, ops0, otadata.mem, otadata.ops, plan, err);
  }

  // ---------------------------------------------------------------------
  // Partition search
  // ---------------------------------------------------------------------

  /** `esp_partition_info_t`: the fields the search reads. */
  datatype PartitionInfo = PartitionInfo(partType: byte, subtype: byte, pos: PartitionPos)

  /**
   * The partition table as the search sees it: whether `bootloader_mmap`
   * succeeded, whether `esp_partition_table_verify` accepted it, and its
   * entries (`num_partitions` of them).
   */
  datatype PartitionTable = PartitionTable(mapped: bool, verified: bool, entries: seq<PartitionInfo>)

  predicate Matches(p: PartitionInfo, partType: byte, subtype: byte)
  {
    p.partType == partType && p.subtype == subtype
  }

  /** The position of the first entry of a mapped, verified table with that type and subtype. */
  function FindPartition(table: PartitionTable, partType: byte, subtype: byte): (r: Option<PartitionPos>)
    ensures r.Some? <==> table.mapped && table.verified
                         && exists i | 0 <= i < |table.entries| :: Matches(table.entries[i], partType, subtype)
    ensures r.Some? ==> exists i | 0 <= i < |table.entries| ::
                          && Matches(table.entries[i], partType, subtype)
                          && r.value == table.entries[i].pos
                          && forall j | 0 <= j < i :: !Matches(table.entries[j], partType, subtype)
  {
    if !table.mapped || !table.verified then None
    else FirstMatch(table.entries, partType, subtype)
  }

  function FirstMatch(entries: seq<PartitionInfo>, partType: byte, subtype: byte): (r: Option<PartitionPos>)
    ensures r.Some? <==> exists i | 0 <= i < |entries| :: Matches(entries[i], partType, subtype)
    ensures r.Some? ==> exists i | 0 <= i < |entries| ::
                          && Matches(entries[i], partType, subtype)
                          && r.value == entries[i].pos
                          && forall j | 0 <= j < i :: !Matches(entries[j], partType, subtype)
    decreases |entries|
  {
    if entries == [] then None
    else if Matches(entries[0], partType, subtype) then Some(entries[0].pos)
    else
      var r := FirstMatch(entries[1..], partType, subtype);
      if r.Some? then
        ghost var i :| 0 <= i < |entries[1..]| && Matches(entries[1..][i], partType, subtype)
                       && r.value == entries[1..][i].pos
                       && forall j | 0 <= j < i :: !Matches(entries[1..][j], partType, subtype);
        assert Matches(entries[i + 1], partType, subtype);
        r
      else
        assert forall i | 1 <= i < |entries| :: entries[i] == entries[1..][i - 1];
        r
  }

  /**
   * `bootloader_custom_utility_search_partition_pos`: false, with `pos`
   * untouched, when the table cannot be mapped or fails verification or no
   * entry matches; otherwise true with the first matching entry's position.
   */
  method SearchPartitionPos(table: PartitionTable, partType: byte, subtype: byte, pos: PartitionPos)
    returns (found: bool, pos': PartitionPos)
    ensures found <==> FindPartition(table, partType, subtype).Some?
    ensures found ==> pos' == FindPartition(table, partType, subtype).value
    ensures !found ==> pos' == pos
  {
    found, pos' := false, pos;
    if !table.mapped || !table.verified {
      return;
    }
    var i := 0;
    while i < |table.entries|
      invariant i <= |table.entries|
      invariant forall j | 0 <= j < i :: !Matches(table.entries[j], partType, subtype)
      invariant FirstMatch(table.entries, partType, subtype) == FirstMatch(table.entries[i..], partType, subtype)
    {
      if partType == table.entries[i].partType && subtype == table.entries[i].subtype {
        found, pos' := true, table.entries[i].pos;
        break;
      }
      assert table.entries[i..][1..] == table.entries[i + 1..];
      i := i + 1;
    }
  }
}
