/**
 * The push chain that turns the stored update into the new application image:
 * stage 0 (decompressor) pulls payload bytes with `bootloader_decompressor_read`
 * and pushes output with `bootloader_decompressor_write`; stage 1 (diff)
 * forwards to stage 2 (storage), which writes into the destination slot or,
 * for the diff sink, drops the bytes.
 *
 * The module-level references each engine file keeps (`custom_ota_config`,
 * `custom_ota_header`, `custom_ota_engines`) are passed explicitly: the
 * mutable cursors live in an `OtaConfig` object, the header and the resolved
 * stage table are parameters.
 *
 * The XZ decoder itself is not part of this model. A run of it is given as
 * the sequence of `fill`/`flush` callbacks it makes, with its return value
 * and `in_used`; the model executes those callbacks against the real cursors.
 */
module Pipeline {
  import opened OtaTypes
  import opened FlashDevice
  import opened OtaHeader
  import opened Engines

  /** One callback made by `esp_xz_decompress`: `fill(buf, size)` or `flush(data, |data|)`. */
  datatype XzStep = Fill(size: nat) | Flush(data: seq<byte>)

  /** One run of `esp_xz_decompress`: its callbacks in order, its return value and `*in_used`. */
  datatype XzRun = XzRun(steps: seq<XzStep>, ret: int, inUsed: int)

  /** The decoder's documented results: 0 on success, -1 on error. */
  predicate DecoderResult(run: XzRun)
  {
    run.ret == 0 || run.ret == -1
  }

  /** `bootloader_decompressor_xz_input`'s return: -2 when the decoder failed after consuming input. */
  function XzReturn(ret: int, inUsed: int): int
  {
    if ret != 0 && inUsed != 0 then -2 else ret
  }

  /**
   * With the decoder's documented results the chain reports 0 on success, -1
   * for a failure before any input was used (the old image is intact) and -2
   * for a failure after input was used (the slot is damaged).
   */
  lemma XzReturnSpec(run: XzRun)
    requires DecoderResult(run)
    ensures XzReturn(run.ret, run.inUsed) in {0, -1, -2}
    ensures XzReturn(run.ret, run.inUsed) == 0 <==> run.ret == 0
    ensures XzReturn(run.ret, run.inUsed) == -1 <==> run.ret == -1 && run.inUsed == 0
    ensures XzReturn(run.ret, run.inUsed) == -2 <==> run.ret == -1 && run.inUsed != 0
  {
  }

  /** `bootloader_decompressor_none_input`: returns its size argument and does nothing else. */
  function DecompressorNoneInput(size: int): (r: int)
    ensures r == size
  {
    size
  }

  /** The length `bootloader_decompressor_read` hands back: what is asked, capped by what is left. */
  function ReadLen(length: nat, offset: nat, size: nat): (len: nat)
    requires offset <= length
    ensures len <= size && offset + len <= length
    ensures len == size || offset + len == length
  {
    if length - offset > size then size else length - offset
  }

  /** The source cursor after the decoder's callbacks, starting from `offset`. */
  function SrcAfter(length: nat, offset: nat, steps: seq<XzStep>): (o: nat)
    requires offset <= length
    ensures offset <= o <= length
    decreases |steps|
  {
    if steps == [] then offset
    else
      var next := if steps[0].Fill? then offset + ReadLen(length, offset, steps[0].size) else offset;
      SrcAfter(length, next, steps[1..])
  }

  /** Whether the storage stage writes a push of n bytes at destination offset `off`. */
  predicate Accepts(writes: bool, off: nat, size: nat, n: nat)
  {
    writes && off + n < size
  }

  /** The bytes the storage stage writes for one push of `data` at destination offset `off`. */
  function PushBytes(writes: bool, off: nat, size: nat, data: seq<byte>): seq<byte>
  {
    if Accepts(writes, off, size, |data|) then data else []
  }

  /** The flash writes the storage stage issues for one push. */
  function PushOps(writes: bool, addr: nat, off: nat, size: nat, data: seq<byte>): seq<FlashOp>
  {
    if Accepts(writes, off, size, |data|) then [FlashOp.Write(addr + off, |data|)] else []
  }

  /** The bytes the storage stage writes for the decoder's pushes, in order. */
  function Sunk(writes: bool, off: nat, size: nat, steps: seq<XzStep>): seq<byte>
    decreases |steps|
  {
    if steps == [] then []
    else if steps[0].Fill? then Sunk(writes, off, size, steps[1..])
    else
      var b := PushBytes(writes, off, size, steps[0].data);
      b + Sunk(writes, off + |b|, size, steps[1..])
  }

  /** The flash writes the storage stage issues for the decoder's pushes, in order. */
  function SunkOps(writes: bool, addr: nat, off: nat, size: nat, steps: seq<XzStep>): seq<FlashOp>
    decreases |steps|
  {
    if steps == [] then []
    else if steps[0].Fill? then SunkOps(writes, addr, off, size, steps[1..])
    else
      var b := PushBytes(writes, off, size, steps[0].data);
      PushOps(writes, addr, off, size, steps[0].data) + SunkOps(writes, addr, off + |b|, size, steps[1..])
  }

  /** The destination device after one push: accepted bytes are programmed at the cursor. */
  function PushMem(mem: seq<byte>, writes: bool, addr: nat, off: nat, size: nat, data: seq<byte>): (m: seq<byte>)
    ensures |m| == |mem|
  {
    if Accepts(writes, off, size, |data|) then AfterWrite(mem, addr + off, data) else mem
  }

  /** The destination device after the decoder's pushes, applied in order. */
  function SunkMem(mem: seq<byte>, writes: bool, addr: nat, off: nat, size: nat, steps: seq<XzStep>): (m: seq<byte>)
    ensures |m| == |mem|
    decreases |steps|
  {
    if steps == [] then mem
    else if steps[0].Fill? then SunkMem(mem, writes, addr, off, size, steps[1..])
    else
      var b := PushBytes(writes, off, size, steps[0].data);
      SunkMem(PushMem(mem, writes, addr, off, size, steps[0].data), writes, addr, off + |b|, size, steps[1..])
  }

  /** One push changes the device only over the bytes it accepts, which then hold them. */
  lemma PushMemFrame(mem: seq<byte>, writes: bool, addr: nat, off: nat, size: nat, data: seq<byte>)
    ensures var m, b := PushMem(mem, writes, addr, off, size, data), PushBytes(writes, off, size, data);
            forall i | 0 <= i < |mem| && !(addr + off <= i < addr + off + |b|) :: m[i] == mem[i]
    ensures var m, b := PushMem(mem, writes, addr, off, size, data), PushBytes(writes, off, size, data);
            InDevice(mem, addr, size) ==> forall j | 0 <= j < |b| :: addr + off + j < |m| && m[addr + off + j] == b[j]
  {
    var m := PushMem(mem, writes, addr, off, size, data);
    if Accepts(writes, off, size, |data|) && InDevice(mem, addr, size) {
      assert InDevice(mem, addr + off, |data|);
      forall j | 0 <= j < |data| ensures m[addr + off + j] == data[j] {
        assert m[addr + off + j] == FlashRead(m, addr + off, |data|)[j];
      }
    }
  }

  /** The pushes change the device only over the bytes they accept, which start at the cursor. */
  lemma {:induction false} SunkMemKeeps(mem: seq<byte>, writes: bool, addr: nat, off: nat, size: nat, steps: seq<XzStep>)
    ensures var m, out := SunkMem(mem, writes, addr, off, size, steps), Sunk(writes, off, size, steps);
            forall i | 0 <= i < |mem| && !(addr + off <= i < addr + off + |out|) :: m[i] == mem[i]
    decreases |steps|
  {
    if steps != [] {
      if steps[0].Fill? {
        SunkMemKeeps(mem, writes, addr, off, size, steps[1..]);
      } else {
        var d := steps[0].data;
        var b := PushBytes(writes, off, size, d);
        var m1 := PushMem(mem, writes, addr, off, size, d);
        PushMemFrame(mem, writes, addr, off, size, d);
        SunkMemKeeps(m1, writes, addr, off + |b|, size, steps[1..]);
        var rest := Sunk(writes, off + |b|, size, steps[1..]);
        assert |Sunk(writes, off, size, steps)| == |b| + |rest|;
      }
    }
  }

  /** For a slot inside the device, the bytes the pushes accept end up at the cursor, in order. */
  lemma {:induction false} SunkMemHolds(mem: seq<byte>, writes: bool, addr: nat, off: nat, size: nat, steps: seq<XzStep>)
    requires InDevice(mem, addr, size)
    ensures var m, out := SunkMem(mem, writes, addr, off, size, steps), Sunk(writes, off, size, steps);
            forall j | 0 <= j < |out| :: addr + off + j < |m| && m[addr + off + j] == out[j]
    decreases |steps|
  {
    if steps != [] {
      if steps[0].Fill? {
        SunkMemHolds(mem, writes, addr, off, size, steps[1..]);
        assert SunkMem(mem, writes, addr, off, size, steps) == SunkMem(mem, writes, addr, off, size, steps[1..]);
        assert Sunk(writes, off, size, steps) == Sunk(writes, off, size, steps[1..]);
      } else {
        var d := steps[0].data;
        var b := PushBytes(writes, off, size, d);
        var m1 := PushMem(mem, writes, addr, off, size, d);
        PushMemFrame(mem, writes, addr, off, size, d);
        SunkMemHolds(m1, writes, addr, off + |b|, size, steps[1..]);
        SunkMemKeeps(m1, writes, addr, off + |b|, size, steps[1..]);
        var m, out := SunkMem(mem, writes, addr, off, size, steps), Sunk(writes, off, size, steps);
        var rest := Sunk(writes, off + |b|, size, steps[1..]);
        assert m == SunkMem(m1, writes, addr, off + |b|, size, steps[1..]);
        assert out == b + rest;
        forall j | 0 <= j < |out| ensures addr + off + j < |m| && m[addr + off + j] == out[j] {
          if j < |b| {
            assert m1[addr + off + j] == b[j];
            assert !(addr + (off + |b|) <= addr + off + j);
            assert m[addr + off + j] == m1[addr + off + j];
          } else {
            var k := j - |b|;
            assert addr + off + j == addr + (off + |b|) + k;
            assert out[j] == rest[k];
          }
        }
      }
    }
  }

  /**
   * The slot [addr, addr + size) of `mem0` erased and then written with `out`
   * from its start: nothing outside the slot changes, and a slot inside the
   * device starts with `out` and reads as erased after it.
   */
  ghost predicate SlotRewritten(mem0: seq<byte>, mem: seq<byte>, addr: nat, size: nat, out: seq<byte>)
  {
    && |mem| == |mem0|
    && (forall i | 0 <= i < |mem0| && !(addr <= i < addr + size) :: mem[i] == mem0[i])
    && (InDevice(mem0, addr, size) ==>
          && |out| <= size
          && FlashRead(mem, addr, |out|) == out
          && FlashRead(mem, addr + |out|, size - |out|) == seq(size - |out|, _ => ERASED))
  }

  /** Erasing the slot and then running the pushes from offset 0 rewrites the slot with what was accepted. */
  lemma ChainRewritesSlot(mem0: seq<byte>, writes: bool, addr: nat, size: nat, steps: seq<XzStep>)
    ensures SlotRewritten(mem0, SunkMem(AfterErase(mem0, addr, size), writes, addr, 0, size, steps),
                          addr, size, Sunk(writes, 0, size, steps))
  {
    var e := AfterErase(mem0, addr, size);
    var m, out := SunkMem(e, writes, addr, 0, size, steps), Sunk(writes, 0, size, steps);
    AfterEraseSpec(mem0, addr, size);
    SunkMemKeeps(e, writes, addr, 0, size, steps);
    SunkWithinSlot(writes, addr, 0, size, steps);
    forall i | 0 <= i < |mem0| && !(addr <= i < addr + size) ensures m[i] == mem0[i] {
      assert !(addr <= i < addr + |out|);
    }
    if InDevice(mem0, addr, size) {
      SunkMemHolds(e, writes, addr, 0, size, steps);
      var got := FlashRead(m, addr, |out|);
      forall j | 0 <= j < |out| ensures got[j] == out[j] {
        assert got[j] == m[addr + 0 + j];
      }
      var tail := FlashRead(m, addr + |out|, size - |out|);
      forall j | 0 <= j < size - |out| ensures tail[j] == ERASED {
        var i := addr + |out| + j;
        assert tail[j] == m[i] == e[i];
        assert e[i] == FlashRead(e, addr, size)[i - addr];
      }
    }
  }

  /** Every op is a write lying inside [lo, hi). */
  predicate WritesWithin(ops: seq<FlashOp>, lo: nat, hi: nat)
  {
    forall i | 0 <= i < |ops| :: ops[i].Write? && lo <= ops[i].addr && ops[i].addr + ops[i].len < hi
  }

  /**
   * Accepted writes are contiguous and never reach the end of the slot: the
   * sink's cursor after them is still below the slot size, and every flash
   * write lies inside the slot.
   */
  lemma {:induction false} SunkWithinSlot(writes: bool, addr: nat, off: nat, size: nat, steps: seq<XzStep>)
    ensures Sunk(writes, off, size, steps) == [] || off + |Sunk(writes, off, size, steps)| < size
    ensures WritesWithin(SunkOps(writes, addr, off, size, steps), addr + off, addr + size)
    decreases |steps|
  {
    if steps != [] {
      if steps[0].Fill? {
        SunkWithinSlot(writes, addr, off, size, steps[1..]);
      } else {
        var n := |PushBytes(writes, off, size, steps[0].data)|;
        SunkWithinSlot(writes, addr, off + n, size, steps[1..]);
      }
    }
  }

  /** The non-writing diff sink accepts nothing, so the chain leaves the slot untouched. */
  lemma {:induction false} NonWritingSinkSinksNothing(addr: nat, off: nat, size: nat, steps: seq<XzStep>)
    ensures Sunk(false, off, size, steps) == []
    ensures SunkOps(false, addr, off, size, steps) == []
    decreases |steps|
  {
    if steps != [] {
      NonWritingSinkSinksNothing(addr, off, size, steps[1..]);
    }
  }

  /** Writing `buf` right after the first `off` bytes of a region extends what the region holds by `buf`. */
  lemma ProgramAppends(mem: seq<byte>, base: nat, off: nat, buf: seq<byte>)
    requires InDevice(mem, base + off, |buf|)
    ensures FlashRead(Programmed(mem, base + off, buf), base, off + |buf|) == FlashRead(mem, base, off) + buf
  {
    var m := Programmed(mem, base + off, buf);
    var l, r := FlashRead(m, base, off + |buf|), FlashRead(mem, base, off) + buf;
    forall i | 0 <= i < off + |buf| ensures l[i] == r[i] {
      if i >= off {
        assert FlashRead(m, base + off, |buf|)[i - off] == buf[i - off];
      }
    }
  }

  /**
   * `bootloader_custom_ota_config_t`: where the payload is read from and the
   * image written to, and how far each has got. `written` is the ghost record
   * of every byte the flash sink has accepted.
   */
  class OtaConfig {
    const srcAddr: nat
    const srcSize: nat
    var srcOffset: nat
    const dstAddr: nat
    const dstSize: nat
    var dstOffset: nat
    ghost var written: seq<byte>

    constructor (srcAddr: nat, srcSize: nat, dstAddr: nat, dstSize: nat)
      ensures this.srcAddr == srcAddr && this.srcSize == srcSize && srcOffset == 0
      ensures this.dstAddr == dstAddr && this.dstSize == dstSize && dstOffset == 0
      ensures written == []
    {
      this.srcAddr := srcAddr;
      this.srcSize := srcSize;
      srcOffset := 0;
      this.dstAddr := dstAddr;
      this.dstSize := dstSize;
      dstOffset := 0;
      written := [];
    }

    /** The source cursor never passes the payload length. */
    predicate SrcValid(h: Header)
      reads this
    {
      srcOffset <= h.length
    }

    /**
     * The destination cursor counts the accepted bytes, is below the slot
     * size once anything was accepted, and (for a slot inside the device) the
     * slot starts with exactly the accepted bytes.
     */
    ghost predicate DstValid(app: Flash)
      reads this, app
    {
      && |written| == dstOffset
      && (dstOffset == 0 || dstOffset < dstSize)
      && (InDevice(app.mem, dstAddr, dstSize) ==> FlashRead(app.mem, dstAddr, dstOffset) == written)
    }

    /**
     * `bootloader_decompressor_read`: hands back min(size, length - offset)
     * payload bytes from just after the header, and advances the cursor by as
     * many. At the end of the payload it returns 0 and changes nothing.
     */
    method Read(h: Header, storage: Flash, size: nat) returns (len: nat, buf: seq<byte>)
      requires SrcValid(h)
      modifies this
      ensures SrcValid(h)
      ensures len == ReadLen(h.length, old(srcOffset), size)
      ensures buf == FlashRead(storage.mem, srcAddr + HEADER_SIZE + old(srcOffset), len)
      ensures srcOffset == old(srcOffset) + len
      ensures dstOffset == old(dstOffset) && written == old(written)
    {
      len := if h.length - srcOffset > size then size else h.length - srcOffset;
      buf := [];
      if len > 0 {
        buf := storage.Read(srcAddr + HEADER_SIZE + srcOffset, len);
        srcOffset := srcOffset + len;
      }
    }

    /**
     * `bootloader_storage_flash_input`: writes `buf` at `dst_addr + dst_offset`
     * and advances the cursor only when `dst_offset + size < dst_size`;
     * otherwise the bytes are dropped. Either way it reports `size`.
     */
    method FlashInput(app: Flash, buf: seq<byte>) returns (r: int)
      requires DstValid(app)
      modifies this, app
      ensures DstValid(app)
      ensures r == |buf|
      ensures srcOffset == old(srcOffset)
      ensures Accepts(true, old(dstOffset), dstSize, |buf|) ==>
                && dstOffset == old(dstOffset) + |buf|
                && written == old(written) + buf
                && app.ops == old(app.ops) + [FlashOp.Write(dstAddr + old(dstOffset), |buf|)]
                && app.mem == AfterWrite(old(app.mem), dstAddr + old(dstOffset), buf)
      ensures !Accepts(true, old(dstOffset), dstSize, |buf|) ==>
                && dstOffset == old(dstOffset)
                && written == old(written)
                && app.ops == old(app.ops)
                && app.mem == old(app.mem)
    {
      if dstOffset + |buf| < dstSize {
        var ok := app.Write(dstAddr + dstOffset, buf);
        if InDevice(old(app.mem), dstAddr, dstSize) {
          ProgramAppends(old(app.mem), dstAddr, dstOffset, buf);
        }
        dstOffset := dstOffset + |buf|;
        written := written + buf;
      }
      r := |buf|;
    }

    /** `bootloader_storage_flash_diff_input`: reports `size`, writes nothing, moves no cursor. */
    method FlashDiffInput(buf: seq<byte>) returns (r: int)
      ensures r == |buf|
    {
      r := |buf|;
    }
  }

  /** Whether the resolved storage stage is the writing flash sink. */
  predicate SinkWrites(engines: seq<Engine>)
    requires Wired(engines)
  {
    engines[STORAGE_ENGINE].kind == StorageFlash
  }

  /** Stage 2's `input`, as reached through `custom_ota_engines[DIFF_ENGINE + 1]`. */
  method StorageInput(cfg: OtaConfig, app: Flash, engines: seq<Engine>, buf: seq<byte>) returns (r: int)
    requires Wired(engines) && cfg.DstValid(app)
    modifies cfg, app
    ensures cfg.DstValid(app)
    ensures r == |buf|
    ensures cfg.srcOffset == old(cfg.srcOffset)
    ensures cfg.written == old(cfg.written) + PushBytes(SinkWrites(engines), old(cfg.dstOffset), cfg.dstSize, buf)
    ensures cfg.dstOffset == old(cfg.dstOffset) + |PushBytes(SinkWrites(engines), old(cfg.dstOffset), cfg.dstSize, buf)|
    ensures app.ops == old(app.ops) + PushOps(SinkWrites(engines), cfg.dstAddr, old(cfg.dstOffset), cfg.dstSize, buf)
    ensures app.mem == PushMem(old(app.mem), SinkWrites(engines), cfg.dstAddr, old(cfg.dstOffset), cfg.dstSize, buf)
  {
    if engines[STORAGE_ENGINE].kind == StorageFlash {
      r := cfg.FlashInput(app, buf);
    } else {
      r := cfg.FlashDiffInput(buf);
    }
  }

  /** `bootloader_diff_none_input`: hands the same bytes to stage 2 and returns its result. */
  method DiffNoneInput(cfg: OtaConfig, app: Flash, engines: seq<Engine>, buf: seq<byte>) returns (r: int)
    requires Wired(engines) && cfg.DstValid(app)
    modifies cfg, app
    ensures cfg.DstValid(app)
    ensures r == |buf|
    ensures cfg.srcOffset == old(cfg.srcOffset)
    ensures cfg.written == old(cfg.written) + PushBytes(SinkWrites(engines), old(cfg.dstOffset), cfg.dstSize, buf)
    ensures cfg.dstOffset == old(cfg.dstOffset) + |PushBytes(SinkWrites(engines), old(cfg.dstOffset), cfg.dstSize, buf)|
    ensures app.ops == old(app.ops) + PushOps(SinkWrites(engines), cfg.dstAddr, old(cfg.dstOffset), cfg.dstSize, buf)
    ensures app.mem == PushMem(old(app.mem), SinkWrites(engines), cfg.dstAddr, old(cfg.dstOffset), cfg.dstSize, buf)
  {
    r := StorageInput(cfg, app, engines, buf);
  }

  /**
   * `bootloader_diff_ddelta_input`: no patch is applied; like the none engine
   * it hands the same bytes to stage 2 and returns its result.
   */
  method DiffDdeltaInput(cfg: OtaConfig, app: Flash, engines: seq<Engine>, buf: seq<byte>) returns (r: int)
    requires Wired(engines) && cfg.DstValid(app)
    modifies cfg, app
    ensures cfg.DstValid(app)
    ensures r == |buf|
    ensures cfg.srcOffset == old(cfg.srcOffset)
    ensures cfg.written == old(cfg.written) + PushBytes(SinkWrites(engines), old(cfg.dstOffset), cfg.dstSize, buf)
    ensures cfg.dstOffset == old(cfg.dstOffset) + |PushBytes(SinkWrites(engines), old(cfg.dstOffset), cfg.dstSize, buf)|
    ensures app.ops == old(app.ops) + PushOps(SinkWrites(engines), cfg.dstAddr, old(cfg.dstOffset), cfg.dstSize, buf)
    ensures app.mem == PushMem(old(app.mem), SinkWrites(engines), cfg.dstAddr, old(cfg.dstOffset), cfg.dstSize, buf)
  {
    r := StorageInput(cfg, app, engines, buf);
  }

  /**
   * `bootloader_decompressor_write`: the decoder's output goes to stage 1,
   * whose result is returned unchanged.
   */
  method DecompressorWrite(cfg: OtaConfig, app: Flash, engines: seq<Engine>, buf: seq<byte>) returns (r: int)
    requires Wired(engines) && cfg.DstValid(app)
    modifies cfg, app
    ensures cfg.DstValid(app)
    ensures r == |buf|
    ensures cfg.srcOffset == old(cfg.srcOffset)
    ensures cfg.written == old(cfg.written) + PushBytes(SinkWrites(engines), old(cfg.dstOffset), cfg.dstSize, buf)
    ensures cfg.dstOffset == old(cfg.dstOffset) + |PushBytes(SinkWrites(engines), old(cfg.dstOffset), cfg.dstSize, buf)|
    ensures app.ops == old(app.ops) + PushOps(SinkWrites(engines), cfg.dstAddr, old(cfg.dstOffset), cfg.dstSize, buf)
    ensures app.mem == PushMem(old(app.mem), SinkWrites(engines), cfg.dstAddr, old(cfg.dstOffset), cfg.dstSize, buf)
  {
    if engines[DIFF_ENGINE].kind == DiffNone {
      r := DiffNoneInput(cfg, app, engines, buf);
    } else {
      r := DiffDdeltaInput(cfg, app, engines, buf);
    }
  }

  /**
   * A `fill` callback, handled by `bootloader_decompressor_read`. Its effect
   * is stated against the callbacks still to come (`rest`): the outcome of
   * `rest` from the new state is the outcome of `[Fill(size)] + rest` from
   * the old one. `fed` grows from the payload bytes read since offset `o0`
   * to those read since `o0` now.
   */
  method RunFill(cfg: OtaConfig, h: Header, storage: Flash, size: nat, ghost rest: seq<XzStep>,
                 ghost o0: nat, ghost fed: seq<byte>)
    returns (ghost fed': seq<byte>)
    requires cfg.SrcValid(h) && o0 <= cfg.srcOffset
    requires fed == FlashRead(storage.mem, cfg.srcAddr + HEADER_SIZE + o0, cfg.srcOffset - o0)
    modifies cfg
    ensures cfg.SrcValid(h) && o0 <= cfg.srcOffset
    ensures SrcAfter(h.length, cfg.srcOffset, rest) == SrcAfter(h.length, old(cfg.srcOffset), [Fill(size)] + rest)
    ensures fed' == FlashRead(storage.mem, cfg.srcAddr + HEADER_SIZE + o0, cfg.srcOffset - o0)
    ensures cfg.dstOffset == old(cfg.dstOffset) && cfg.written == old(cfg.written)
  {
    assert ([Fill(size)] + rest)[1..] == rest;
    var len, got := cfg.Read(h, storage, size);
    ConsecutiveReads(storage.mem, cfg.srcAddr + HEADER_SIZE + o0, old(cfg.srcOffset) - o0, len);
    fed' := fed + got;
  }

  /** How a flush at the head of the callbacks unfolds in each of the sink's summaries. */
  lemma FlushUnfolds(length: nat, srcOff: nat, writes: bool, addr: nat, off: nat, size: nat,
                     mem: seq<byte>, data: seq<byte>, rest: seq<XzStep>)
    requires srcOff <= length
    ensures SrcAfter(length, srcOff, [Flush(data)] + rest) == SrcAfter(length, srcOff, rest)
    ensures var b := PushBytes(writes, off, size, data);
            Sunk(writes, off, size, [Flush(data)] + rest) == b + Sunk(writes, off + |b|, size, rest)
    ensures var b := PushBytes(writes, off, size, data);
            SunkOps(writes, addr, off, size, [Flush(data)] + rest)
            == PushOps(writes, addr, off, size, data) + SunkOps(writes, addr, off + |b|, size, rest)
    ensures var b := PushBytes(writes, off, size, data);
            SunkMem(mem, writes, addr, off, size, [Flush(data)] + rest)
            == SunkMem(PushMem(mem, writes, addr, off, size, data), writes, addr, off + |b|, size, rest)
  {
    assert ([Flush(data)] + rest)[0] == Flush(data) && ([Flush(data)] + rest)[1..] == rest;
  }

  /**
   * A `flush` callback, handled by `bootloader_decompressor_write`, stated
   * against the callbacks still to come like `RunFill`.
   */
  method RunFlush(cfg: OtaConfig, h: Header, app: Flash, engines: seq<Engine>, data: seq<byte>, ghost rest: seq<XzStep>)
    requires Wired(engines) && cfg.SrcValid(h) && cfg.DstValid(app)
    modifies cfg, app
    ensures cfg.SrcValid(h) && cfg.DstValid(app)
    ensures cfg.srcOffset == old(cfg.srcOffset)
    ensures SrcAfter(h.length, cfg.srcOffset, rest) == SrcAfter(h.length, old(cfg.srcOffset), [Flush(data)] + rest)
    ensures cfg.written + Sunk(SinkWrites(engines), cfg.dstOffset, cfg.dstSize, rest)
            == old(cfg.written) + Sunk(SinkWrites(engines), old(cfg.dstOffset), cfg.dstSize, [Flush(data)] + rest)
    ensures app.ops + SunkOps(SinkWrites(engines), cfg.dstAddr, cfg.dstOffset, cfg.dstSize, rest)
            == old(app.ops) + SunkOps(SinkWrites(engines), cfg.dstAddr, old(cfg.dstOffset), cfg.dstSize, [Flush(data)] + rest)
    ensures SunkMem(app.mem, SinkWrites(engines), cfg.dstAddr, cfg.dstOffset, cfg.dstSize, rest)
            == SunkMem(old(app.mem), SinkWrites(engines), cfg.dstAddr, old(cfg.dstOffset), cfg.dstSize, [Flush(data)] + rest)
  {
    // The argument is the unfolding lemma plus the stage's own contract;
    // hiding the definitions keeps the solver from re-deriving either.
    hide SrcAfter, Sunk, SunkOps, SunkMem, PushBytes, PushOps, PushMem;
    var writes := SinkWrites(engines);
    ghost var w0, d0, ops0 := cfg.written, cfg.dstOffset, app.ops;
    FlushUnfolds(h.length, cfg.srcOffset, writes, cfg.dstAddr, d0, cfg.dstSize, app.mem, data, rest);
    ghost var pushed := PushBytes(writes, d0, cfg.dstSize, data);
    ghost var later := Sunk(writes, d0 + |pushed|, cfg.dstSize, rest);
    ghost var laterOps := SunkOps(writes, cfg.dstAddr, d0 + |pushed|, cfg.dstSize, rest);
    var _ := DecompressorWrite(cfg, app, engines, data);
    assert cfg.written + later == w0 + (pushed + later);
    assert app.ops + laterOps == ops0 + (PushOps(writes, cfg.dstAddr, d0, cfg.dstSize, data) + laterOps);
  }

  /**
   * The first of the callbacks still to come (`steps`), whichever kind: the
   * outcome of `steps[1..]` from the new state is the outcome of `steps` from
   * the old one.
   */
  method RunCallback(cfg: OtaConfig, h: Header, storage: Flash, app: Flash, engines: seq<Engine>,
                     s: XzStep, ghost steps: seq<XzStep>, ghost o0: nat, ghost fed: seq<byte>)
    returns (ghost fed': seq<byte>)
    requires Wired(engines) && cfg.SrcValid(h) && cfg.DstValid(app)
    requires storage != app
    requires steps != [] && steps[0] == s
    requires o0 <= cfg.srcOffset
    requires fed == FlashRead(storage.mem, cfg.srcAddr + HEADER_SIZE + o0, cfg.srcOffset - o0)
    modifies cfg, app
    ensures cfg.SrcValid(h) && cfg.DstValid(app)
    ensures o0 <= cfg.srcOffset
    ensures fed' == FlashRead(storage.mem, cfg.srcAddr + HEADER_SIZE + o0, cfg.srcOffset - o0)
    ensures SrcAfter(h.length, cfg.srcOffset, steps[1..]) == SrcAfter(h.length, old(cfg.srcOffset), steps)
    ensures cfg.written + Sunk(SinkWrites(engines), cfg.dstOffset, cfg.dstSize, steps[1..])
            == old(cfg.written) + Sunk(SinkWrites(engines), old(cfg.dstOffset), cfg.dstSize, steps)
    ensures app.ops + SunkOps(SinkWrites(engines), cfg.dstAddr, cfg.dstOffset, cfg.dstSize, steps[1..])
            == old(app.ops) + SunkOps(SinkWrites(engines), cfg.dstAddr, old(cfg.dstOffset), cfg.dstSize, steps)
    ensures SunkMem(app.mem, SinkWrites(engines), cfg.dstAddr, cfg.dstOffset, cfg.dstSize, steps[1..])
            == SunkMem(old(app.mem), SinkWrites(engines), cfg.dstAddr, old(cfg.dstOffset), cfg.dstSize, steps)
  {
    assert steps == [s] + steps[1..];
    if s.Fill? {
      fed' := RunFill(cfg, h, storage, s.size, steps[1..], o0, fed);
    } else {
      RunFlush(cfg, h, app, engines, s.data, steps[1..]);
      fed' := fed;
    }
  }

  /**
   * `bootloader_decompressor_xz_input`: runs the decoder with the shared
   * read/write callbacks. The payload bytes handed to the decoder (`fed`) are
   * one contiguous stretch of the payload starting at the old cursor; the
   * slot receives exactly the accepted pushes, in order.
   */
  method XzInput(cfg: OtaConfig, h: Header, storage: Flash, app: Flash, engines: seq<Engine>, run: XzRun)
    returns (r: int, ghost fed: seq<byte>)
    requires Wired(engines) && cfg.SrcValid(h) && cfg.DstValid(app)
    requires storage != app
    modifies cfg, app
    ensures cfg.SrcValid(h) && cfg.DstValid(app)
    ensures r == XzReturn(run.ret, run.inUsed)
    ensures cfg.srcOffset == SrcAfter(h.length, old(cfg.srcOffset), run.steps)
    ensures fed == FlashRead(storage.mem, cfg.srcAddr + HEADER_SIZE + old(cfg.srcOffset), cfg.srcOffset - old(cfg.srcOffset))
    ensures cfg.written == old(cfg.written) + Sunk(SinkWrites(engines), old(cfg.dstOffset), cfg.dstSize, run.steps)
    ensures app.ops == old(app.ops) + SunkOps(SinkWrites(engines), cfg.dstAddr, old(cfg.dstOffset), cfg.dstSize, run.steps)
    ensures app.mem == SunkMem(old(app.mem), SinkWrites(engines), cfg.dstAddr, old(cfg.dstOffset), cfg.dstSize, run.steps)
  {
    var writes := SinkWrites(engines);
    fed := [];
    var k := 0;
    while k < |run.steps|
      invariant k <= |run.steps|
      invariant cfg.SrcValid(h) && cfg.DstValid(app)
      invariant old(cfg.srcOffset) <= cfg.srcOffset
      invariant SrcAfter(h.length, cfg.srcOffset, run.steps[k..]) == SrcAfter(h.length, old(cfg.srcOffset), run.steps)
      invariant fed == FlashRead(storage.mem, cfg.srcAddr + HEADER_SIZE + old(cfg.srcOffset), cfg.srcOffset - old(cfg.srcOffset))
      invariant cfg.written + Sunk(writes, cfg.dstOffset, cfg.dstSize, run.steps[k..])
                == old(cfg.written) + Sunk(writes, old(cfg.dstOffset), cfg.dstSize, run.steps)
      invariant app.ops + SunkOps(writes, cfg.dstAddr, cfg.dstOffset, cfg.dstSize, run.steps[k..])
                == old(app.ops) + SunkOps(writes, cfg.dstAddr, old(cfg.dstOffset), cfg.dstSize, run.steps)
      invariant SunkMem(app.mem, writes, cfg.dstAddr, cfg.dstOffset, cfg.dstSize, run.steps[k..])
                == SunkMem(old(app.mem), writes, cfg.dstAddr, old(cfg.dstOffset), cfg.dstSize, run.steps)
    {
      assert run.steps[k..][1..] == run.steps[k + 1..];
      fed := RunCallback(cfg, h, storage, app, engines, run.steps[k], run.steps[k..], old(cfg.srcOffset), fed);
      k := k + 1;
    }
    r := XzReturn(run.ret, run.inUsed);
  }

  /** The callbacks the chain actually runs: the none decompressor makes none. */
  function ChainSteps(engines: seq<Engine>, run: XzRun): seq<XzStep>
    requires Wired(engines)
  {
    if engines[DECOMPRESS_ENGINE].kind == DecompressorXz then run.steps else []
  }

  /** What `bootloader_custom_ota_engines_start` returns. */
  function ChainResult(engines: seq<Engine>, run: XzRun): int
    requires Wired(engines)
  {
    if engines[DECOMPRESS_ENGINE].kind == DecompressorXz then XzReturn(run.ret, run.inUsed)
    else DecompressorNoneInput(0)
  }

  /**
   * With the none decompressor the chain, started as `input(NULL, 0)`,
   * returns 0 and neither reads the payload nor writes the slot.
   */
  lemma NoneChainIsEmpty(engines: seq<Engine>, run: XzRun, h: Header, addr: nat, srcOff: nat, dstOff: nat, size: nat)
    requires Wired(engines) && engines[DECOMPRESS_ENGINE].kind == DecompressorNone
    requires srcOff <= h.length
    ensures ChainResult(engines, run) == 0
    ensures SrcAfter(h.length, srcOff, ChainSteps(engines, run)) == srcOff
    ensures Sunk(SinkWrites(engines), dstOff, size, ChainSteps(engines, run)) == []
    ensures SunkOps(SinkWrites(engines), addr, dstOff, size, ChainSteps(engines, run)) == []
  {
  }

  /**
   * `bootloader_custom_ota_engines_start`: calls stage 0's `input(NULL, 0)`
   * and returns its result.
   */
  method EnginesStart(cfg: OtaConfig, h: Header, storage: Flash, app: Flash, engines: seq<Engine>, run: XzRun)
    returns (r: int, ghost fed: seq<byte>)
    requires Wired(engines) && cfg.SrcValid(h) && cfg.DstValid(app)
    requires storage != app
    modifies cfg, app
    ensures cfg.SrcValid(h) && cfg.DstValid(app)
    ensures r == ChainResult(engines, run)
    ensures cfg.srcOffset == SrcAfter(h.length, old(cfg.srcOffset), ChainSteps(engines, run))
    ensures fed == FlashRead(storage.mem, cfg.srcAddr + HEADER_SIZE + old(cfg.srcOffset), cfg.srcOffset - old(cfg.srcOffset))
    ensures cfg.written == old(cfg.written) + Sunk(SinkWrites(engines), old(cfg.dstOffset), cfg.dstSize, ChainSteps(engines, run))
    ensures app.ops == old(app.ops) + SunkOps(SinkWrites(engines), cfg.dstAddr, old(cfg.dstOffset), cfg.dstSize, ChainSteps(engines, run))
    ensures app.mem == SunkMem(old(app.mem), SinkWrites(engines), cfg.dstAddr, old(cfg.dstOffset), cfg.dstSize, ChainSteps(engines, run))
  {
    if engines[DECOMPRESS_ENGINE].kind == DecompressorXz {
      r, fed := XzInput(cfg, h, storage, app, engines, run);
    } else {
      r := DecompressorNoneInput(0);
      fed := [];
    }
  }
}
