/**
 * The ddelta patch-stream records declared in `bootloader_diff_ddelta.h`:
 * the stream header, the entry header with its signed/raw seek union, the
 * error codes and the block size. No patch is applied anywhere in the code
 * these records come from, so only their shape is modelled.
 */
module Ddelta {
  import opened OtaTypes

  type Bytes8 = s: seq<byte> | |s| == 8 witness seq(8, _ => 0)

  /** `DDELTA_MAGIC`: the eight characters "DDELTA40" (the stored field has no terminator). */
  const DDELTA_MAGIC: seq<byte> := [0x44, 0x44, 0x45, 0x4C, 0x54, 0x41, 0x34, 0x30]

  /** `sizeof(struct ddelta_header)` and `sizeof(struct ddelta_entry_header)`. */
  const DDELTA_HEADER_SIZE: nat := 16
  const DDELTA_ENTRY_HEADER_SIZE: nat := 24

  /** `DDELTA_BLOCK_SIZE`: the default working block, one flash sector. */
  const DDELTA_BLOCK_SIZE: nat := 4 * 1024

  const TWO_POW_63: int := 0x8000_0000_0000_0000
  const TWO_POW_64: int := 0x1_0000_0000_0000_0000

  type i64 = x: int | -TWO_POW_63 <= x < TWO_POW_63

  /** `struct ddelta_header`. */
  datatype DdeltaHeader = DdeltaHeader(magic: Bytes8, newFileSize: u64)

  /**
   * `struct ddelta_entry_header`: `diff` bytes of diff data then `extra`
   * bytes of extra data follow it; `seek` is a union of an int64 and a
   * uint64, kept here as the raw word.
   */
  datatype EntryHeader = EntryHeader(diff: u64, extra: u64, seekRaw: u64)
  {
    /** `seek.value`: the same 64 bits read as two's complement. */
    function SeekValue(): i64
    {
      SignedOf(seekRaw)
    }

    /** Offsets, from the start of the entry header, of its diff data, extra data and the next entry. */
    function DiffStart(): nat { DDELTA_ENTRY_HEADER_SIZE }
    function ExtraStart(): nat { DDELTA_ENTRY_HEADER_SIZE + diff }
    function NextEntry(): nat { DDELTA_ENTRY_HEADER_SIZE + diff + extra }
  }

  /** Two's-complement reading of a 64-bit word. */
  function SignedOf(raw: u64): (v: i64)
    ensures (v - raw) % TWO_POW_64 == 0
  {
    if raw < TWO_POW_63 then raw else raw - TWO_POW_64
  }

  /** The 64-bit word holding a signed value. */
  function RawOf(v: i64): (raw: u64)
    ensures (v - raw) % TWO_POW_64 == 0
  {
    if v >= 0 then v else v + TWO_POW_64
  }

  /** Writing either member of the union and reading the other loses nothing. */
  lemma {:induction false} SeekUnionRoundTrip(raw: u64, v: i64)
    ensures RawOf(SignedOf(raw)) == raw
    ensures SignedOf(RawOf(v)) == v
    ensures SignedOf(raw) < 0 <==> raw >= TWO_POW_63
  {
  }

  /** `enum ddelta_error`, returned negated. */
  datatype DdeltaError = EMagic | EAlgo | EPatchIo | EOldIo | ENewIo | EPatchShort

  function ErrorCode(e: DdeltaError): (c: int)
  {
    match e
    case EMagic => 1
    case EAlgo => 2
    case EPatchIo => 3
    case EOldIo => 4
    case ENewIo => 5
    case EPatchShort => 6
  }

  /** The value a ddelta function returns for an error: the code negated. */
  function ErrorReturn(e: DdeltaError): (r: int)
  {
    -ErrorCode(e)
  }

  /** Error returns are negative, distinct, and run -1 .. -6 in declaration order. */
  lemma ErrorReturnsDistinct(e1: DdeltaError, e2: DdeltaError)
    ensures -6 <= ErrorReturn(e1) <= -1
    ensures ErrorReturn(e1) == ErrorReturn(e2) <==> e1 == e2
  {
  }
}
