/**
 * The SPI flash as the bootloader sees it through `bootloader_flash_read`,
 * `bootloader_flash_write`, `bootloader_flash_erase_range` and
 * `bootloader_flash_erase_sector`. The driver itself is an external
 * collaborator; this module gives it a minimal byte-level meaning and keeps a
 * ghost trace of every erase and write so that callers can state in which
 * order destructive operations happen.
 */
module FlashDevice {
  import opened OtaTypes

  const ERASED: byte := 0xFF

  datatype FlashOp = Erase(addr: nat, len: nat) | Write(addr: nat, len: nat)

  /** Bytes [addr, addr+len); bytes beyond the end of the device read as erased. */
  function FlashRead(mem: seq<byte>, addr: nat, len: nat): (r: seq<byte>)
    ensures |r| == len
    ensures forall i | 0 <= i < len :: r[i] == (if addr + i < |mem| then mem[addr + i] else ERASED)
  {
    seq(len, i requires 0 <= i < len => if addr + i < |mem| then mem[addr + i] else ERASED)
  }

  /** Two reads that abut are one read: the basis of every chunked-read argument. */
  lemma ConsecutiveReads(mem: seq<byte>, addr: nat, n: nat, k: nat)
    ensures FlashRead(mem, addr, n) + FlashRead(mem, addr + n, k) == FlashRead(mem, addr, n + k)
  {
    var l, r, w := FlashRead(mem, addr, n), FlashRead(mem, addr + n, k), FlashRead(mem, addr, n + k);
    forall i | 0 <= i < n + k ensures (l + r)[i] == w[i] {
      if i >= n {
        assert (l + r)[i] == r[i - n];
      }
    }
  }

  predicate InDevice(mem: seq<byte>, addr: nat, len: nat)
  {
    addr + len <= |mem|
  }

  /** The device after programming `data` at addr. */
  function Programmed(mem: seq<byte>, addr: nat, data: seq<byte>): (m: seq<byte>)
    requires InDevice(mem, addr, |data|)
    ensures |m| == |mem|
    ensures FlashRead(m, addr, |data|) == data
    ensures forall i | 0 <= i < |mem| && !(addr <= i < addr + |data|) :: m[i] == mem[i]
  {
    mem[..addr] + data + mem[addr + |data|..]
  }

  /** The device after erasing [addr, addr+len). */
  function Erased(mem: seq<byte>, addr: nat, len: nat): (m: seq<byte>)
    requires InDevice(mem, addr, len)
    ensures |m| == |mem|
    ensures forall i | 0 <= i < |mem| :: m[i] == (if addr <= i < addr + len then ERASED else mem[i])
  {
    mem[..addr] + seq(len, _ => ERASED) + mem[addr + len..]
  }

  /** The device after `bootloader_flash_erase_range`: erased inside the device; a range leaving it changes nothing. */
  function AfterErase(mem: seq<byte>, addr: nat, len: nat): (m: seq<byte>)
    ensures |m| == |mem|
  {
    if InDevice(mem, addr, len) then Erased(mem, addr, len) else mem
  }

  /** An erase changes only its range, which then reads as erased bytes. */
  lemma AfterEraseSpec(mem: seq<byte>, addr: nat, len: nat)
    ensures forall i | 0 <= i < |mem| && !(addr <= i < addr + len) :: AfterErase(mem, addr, len)[i] == mem[i]
    ensures InDevice(mem, addr, len) ==> FlashRead(AfterErase(mem, addr, len), addr, len) == seq(len, _ => ERASED)
  {
    if InDevice(mem, addr, len) {
      var m := AfterErase(mem, addr, len);
      assert m == Erased(mem, addr, len);
      var got := FlashRead(m, addr, len);
      forall i | 0 <= i < len ensures got[i] == ERASED {
        assert got[i] == m[addr + i];
      }
    }
  }

  /** The device after `bootloader_flash_write`: programmed inside the device; a range leaving it changes nothing. */
  function AfterWrite(mem: seq<byte>, addr: nat, data: seq<byte>): (m: seq<byte>)
    ensures |m| == |mem|
  {
    if InDevice(mem, addr, |data|) then Programmed(mem, addr, data) else mem
  }

  /** A write changes only its range, which then reads back as the data written. */
  lemma AfterWriteSpec(mem: seq<byte>, addr: nat, data: seq<byte>)
    ensures forall i | 0 <= i < |mem| && !(addr <= i < addr + |data|) :: AfterWrite(mem, addr, data)[i] == mem[i]
    ensures InDevice(mem, addr, |data|) ==> FlashRead(AfterWrite(mem, addr, data), addr, |data|) == data
  {
    if InDevice(mem, addr, |data|) {
      assert AfterWrite(mem, addr, data) == Programmed(mem, addr, data);
    }
  }

  class Flash {
    var mem: seq<byte>
    ghost var ops: seq<FlashOp>

    constructor (contents: seq<byte>)
      ensures mem == contents && ops == []
    {
      mem := contents;
      ops := [];
    }

    method Read(addr: nat, len: nat) returns (data: seq<byte>)
      ensures data == FlashRead(mem, addr, len)
    {
      data := FlashRead(mem, addr, len);
    }

    /** `bootloader_flash_erase_range`: fails, changing nothing, outside the device. */
    method EraseRange(addr: nat, len: nat) returns (ok: bool)
      modifies this
      ensures ok == InDevice(old(mem), addr, len)
      ensures mem == AfterErase(old(mem), addr, len)
      ensures ops == old(ops) + [FlashOp.Erase(addr, len)]
    {
      ok := InDevice(mem, addr, len);
      if ok {
        mem := Erased(mem, addr, len);
      }
      ops := ops + [FlashOp.Erase(addr, len)];
    }

    /** `bootloader_flash_write`: fails, changing nothing, outside the device. */
    method Write(addr: nat, data: seq<byte>) returns (ok: bool)
      modifies this
      ensures ok == InDevice(old(mem), addr, |data|)
      ensures mem == AfterWrite(old(mem), addr, data)
      ensures ops == old(ops) + [FlashOp.Write(addr, |data|)]
    {
      ok := InDevice(mem, addr, |data|);
      if ok {
        mem := Programmed(mem, addr, data);
      }
      ops := ops + [FlashOp.Write(addr, |data|)];
    }
  }
}
