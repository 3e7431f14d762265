/** Record shapes at the converter's boundary: the pyBAR hit row it reads,
    the Judith hit and event record it writes, the fixed capacities, and
    the fatal conditions (the source aborts with a bare `throw`; here each
    becomes an error value). */
module Records {

  /** Capacity of the per-chunk input buffers. */
  const BUF_SIZE: int := 100000
  /** Capacity of the per-event hit arrays. */
  const MAX_HITS: int := 4000
  /** Detector size in pyBAR's 1-based coordinates. */
  const N_COLUMNS: int := 80
  const N_ROWS: int := 336
  /** Bit of `event_status` that flags unknown data words. */
  const UNKNOWN_WORD: bv16 := 0x10

  // Integer widths of the C++ types involved.
  type u8 = x: int | 0 <= x < 0x100
  type u16 = x: int | 0 <= x < 0x1_0000
  type u32 = x: int | 0 <= x < 0x1_0000_0000
  type u64 = x: int | 0 <= x < 0x1_0000_0000_0000_0000
  type i64 = x: int | -0x8000_0000_0000_0000 <= x < 0x8000_0000_0000_0000
  type i32 = x: int | -0x8000_0000 <= x < 0x8000_0000

  /** One flat pyBAR hit row (the fields that influence the output). */
  datatype Row = Row(
    eventNumber: i64,
    triggerTimeStamp: u32,
    relativeBcid: u8,
    column: u8,
    row: u16,
    tot: u8,
    eventStatus: u16)

  /** One Judith hit; the three positions are `0.0` in the source and are
      modelled as the integer 0. */
  datatype Hit = Hit(
    pixX: int,
    pixY: int,
    value: int,
    timing: int,
    inCluster: int,
    posX: int,
    posY: int,
    posZ: int)

  /** One row of the Judith `Event` table. */
  datatype EventRecord = EventRecord(
    timeStamp: u64,
    frameNumber: u64,
    triggerOffset: int,
    triggerInfo: int,
    invalid: bool)

  /** The fatal conditions of the conversion. */
  datatype Error =
    | EventTableExists        // author mode, but the Event table is already there
    | EventTableMissing       // verifier mode, but there is no Event table
    | EventTableEmpty         // verifier mode, but the Event table has no entries
    | ChunkTooLarge           // a chunk declares more rows than BUF_SIZE
    | MaxHitsReached          // one more hit for an event that already holds MAX_HITS
    | InvalidHit              // column or row outside the detector
    | EventNumberMismatch     // verifier mode: the Event table disagrees on the event number
    | MissingEvents(shortfall: nat)  // verifier mode: fewer events than the Event table holds

  datatype Result<T> = Ok(value: T) | Err(error: Error)

  datatype Option<T> = None | Some(value: T)

  /** The C++ conversion `(ULong64_t) x` of a signed 64-bit value:
      two's-complement reinterpretation. */
  function ToU64(x: i64): (r: u64)
    ensures 0 <= x ==> r == x
    ensures x < 0 ==> r >= 0x8000_0000_0000_0000
    ensures r % 0x1_0000_0000_0000_0000 == x % 0x1_0000_0000_0000_0000
  {
    if x >= 0 then x else x + 0x1_0000_0000_0000_0000
  }

  /** The conversion is injective, so distinct event numbers stay distinct
      frame numbers. */
  lemma ToU64Injective(x: i64, y: i64)
    ensures ToU64(x) == ToU64(y) <==> x == y
  {
  }

  /** The conversion of a 64-bit count to the 32-bit `int` the converter
      returns: reduction modulo 2^32 into the signed range (the usual
      two's-complement narrowing). */
  function ToI32(x: int): (r: i32)
    ensures -0x8000_0000 <= x < 0x8000_0000 ==> r == x
    ensures 0x8000_0000 <= x < 0x1_0000_0000 ==> r < 0
    ensures (r - x) % 0x1_0000_0000 == 0
  {
    var m := x % 0x1_0000_0000;
    if m < 0x8000_0000 then m else m - 0x1_0000_0000
  }

  /** True iff the status word has the unknown-word bit set. */
  predicate HasUnknownWord(status: u16)
  {
    (status as bv16) & UNKNOWN_WORD == UNKNOWN_WORD
  }
}
