/**
 * The parts of the AVR microcontroller that the bootloader drives: byte and
 * word values, the status register SREG with its global interrupt flag, and
 * the self-programming hardware behind avr-libc's boot_* macros.
 *
 * The macros themselves are a foreign library; here each one is a method of
 * `Device` that records an `Event` in a ghost trace (together with the state
 * of the interrupt flag at that moment) and updates an abstract model of the
 * program memory: a map from byte address to 16-bit word (words sit at even
 * addresses), plus the page write buffer that page fills stage words into.
 */
module Avr {

  /** An unsigned 8-bit value (`uint8_t`, `unsigned char`). */
  newtype byte = x: int | 0 <= x < 0x100

  /** An unsigned 16-bit value (`uint16_t`, and the bit pattern of a 16-bit `int`). */
  newtype word = x: int | 0 <= x < 0x1_0000

  function LowByte(w: word): byte { (w % 0x100) as byte }

  function HighByte(w: word): byte { (w / 0x100) as byte }

  /**
   * The little-endian word built from two consecutive bytes: the first
   * byte is the low half, the second the high half. The source computes
   * `w = lo; w += hi << 8` in 16 bits, which cannot overflow.
   */
  function Word(lo: byte, hi: byte): (w: word)
    ensures LowByte(w) == lo && HighByte(w) == hi
  {
    (lo as int + hi as int * 0x100) as word
  }

  /** Word `j` of `data`: the little-endian word of bytes `2j` and `2j + 1`. */
  function WordAt(data: seq<byte>, j: nat): word
    requires 2 * j + 1 < |data|
  {
    Word(data[2 * j], data[2 * j + 1])
  }

  /** Concatenation of sequences is associative. */
  lemma AppendAssociative<T>(a: seq<T>, b: seq<T>, c: seq<T>)
    ensures a + (b + c) == a + b + c
  {
  }

  /** Splitting a word and packing its bytes again gives the same word. */
  lemma WordOfBytes(w: word)
    ensures Word(LowByte(w), HighByte(w)) == w
  {
  }

  /** Bit 7 of SREG is the global interrupt enable flag. */
  predicate InterruptsEnabled(sreg: byte)
  {
    sreg >= 0x80
  }

  /** `cli()`: clear bit 7 of SREG and leave the other seven bits alone. */
  function ClearInterruptFlag(sreg: byte): (r: byte)
    ensures !InterruptsEnabled(r)
    ensures r % 0x80 == sreg % 0x80
  {
    sreg % 0x80
  }

  /** The value an erased flash word reads as. */
  const Erased: word := 0xFFFF

  /** The word at `address` of a program memory whose programmed words are `flash`. */
  function Stored(flash: map<nat, word>, address: nat): word
  {
    if address in flash then flash[address] else Erased
  }

  /** One hardware step of the self-programming sequence. */
  datatype Op =
    | EepromWait
    | Erase(page: nat)
    | SpmWait
    | Fill(address: nat, data: word)
    | Write(page: nat)
    | RwwEnable

  /** A step as it happened, with the interrupt flag at that moment. */
  datatype Event = Event(op: Op, interruptsEnabled: bool)

  class Device {
    /** SPM_PAGESIZE: the size of one flash page in bytes. */
    const pageSize: nat
    /** The status register SREG. */
    var sreg: byte
    /** Every self-programming step taken so far, oldest first. */
    ghost var trace: seq<Event>
    /** Programmed words by byte address; an absent address reads as erased. */
    ghost var flash: map<nat, word>
    /** The page write buffer: words staged by page fills, by byte address. */
    ghost var pageBuffer: map<nat, word>

    ghost predicate Valid()
    {
      pageSize > 0 && pageSize % 2 == 0
    }

    /** The word that instruction fetch reads at `address`. */
    ghost function Read(address: nat): word
      reads this
    {
      Stored(flash, address)
    }

    ghost predicate InPage(page: nat, address: nat)
    {
      page <= address < page + pageSize
    }

    constructor (pageSize: nat, sreg: byte)
      requires pageSize > 0 && pageSize % 2 == 0
      ensures Valid()
      ensures this.pageSize == pageSize && this.sreg == sreg
      ensures trace == [] && pageBuffer == map[]
    {
      this.pageSize := pageSize;
      this.sreg := sreg;
      trace := [];
      flash := map[];
      pageBuffer := map[];
    }

    /** `cli()` */
    method Cli()
      modifies this`sreg
      ensures sreg == ClearInterruptFlag(old(sreg))
    {
      sreg := ClearInterruptFlag(sreg);
    }

    /** `eeprom_busy_wait()` */
    method EepromBusyWait()
      modifies this`trace
      ensures trace == old(trace) + [Event(EepromWait, InterruptsEnabled(sreg))]
    {
      trace := trace + [Event(EepromWait, InterruptsEnabled(sreg))];
    }

    /** `boot_page_erase(page)`: every word of the page reads as erased afterwards. */
    method BootPageErase(page: nat)
      modifies this`trace, this`flash
      ensures trace == old(trace) + [Event(Erase(page), InterruptsEnabled(sreg))]
      ensures flash == map a | a in old(flash) && !InPage(page, a) :: old(flash)[a]
    {
      trace := trace + [Event(Erase(page), InterruptsEnabled(sreg))];
      flash := map a | a in flash && !InPage(page, a) :: flash[a];
    }

    /** `boot_spm_busy_wait()` */
    method BootSpmBusyWait()
      modifies this`trace
      ensures trace == old(trace) + [Event(SpmWait, InterruptsEnabled(sreg))]
    {
      trace := trace + [Event(SpmWait, InterruptsEnabled(sreg))];
    }

    /** `boot_page_fill(address, data)`: stage one word in the page write buffer. */
    method BootPageFill(address: nat, data: word)
      modifies this`trace, this`pageBuffer
      ensures trace == old(trace) + [Event(Fill(address, data), InterruptsEnabled(sreg))]
      ensures pageBuffer == old(pageBuffer)[address := data]
    {
      trace := trace + [Event(Fill(address, data), InterruptsEnabled(sreg))];
      pageBuffer := pageBuffer[address := data];
    }

    /**
     * `boot_page_write(page)`: the staged words of the page are programmed
     * into flash and the page write buffer is emptied.
     */
    method BootPageWrite(page: nat)
      modifies this`trace, this`flash, this`pageBuffer
      ensures trace == old(trace) + [Event(Write(page), InterruptsEnabled(sreg))]
      ensures flash == old(flash) + map a | a in old(pageBuffer) && InPage(page, a) :: old(pageBuffer)[a]
      ensures pageBuffer == map[]
    {
      trace := trace + [Event(Write(page), InterruptsEnabled(sreg))];
      flash := flash + map a | a in pageBuffer && InPage(page, a) :: pageBuffer[a];
      pageBuffer := map[];
    }

    /** `boot_rww_enable()`: make the read-while-write section readable again. */
    method BootRwwEnable()
      modifies this`trace
      ensures trace == old(trace) + [Event(RwwEnable, InterruptsEnabled(sreg))]
    {
      trace := trace + [Event(RwwEnable, InterruptsEnabled(sreg))];
    }
  }
}
