/**
 * `boot_program_page`: program one flash page from a byte buffer.
 *
 * With interrupts disabled it waits for the EEPROM, erases the page, waits,
 * stages every word of the page (little-endian, from two consecutive
 * bytes), writes the page, waits, re-enables the read-while-write section
 * and finally restores SREG to what it was on entry.
 */
module PageProgrammer {
  import opened Avr

  /** The page fills for the first `n` words of `data`, in order. */
  function Fills(page: nat, data: seq<byte>, n: nat): (r: seq<Event>)
    requires 2 * n <= |data|
    ensures |r| == n
  {
    if n == 0 then []
    else Fills(page, data, n - 1) + [Event(Fill(page + 2 * (n - 1), WordAt(data, n - 1)), false)]
  }

  /** Fill `j` stages word `j` of the page: the little-endian word of bytes `2j` and `2j + 1`, at `page + 2j`. */
  lemma {:induction false} FillsAt(page: nat, data: seq<byte>, n: nat)
    requires 2 * n <= |data|
    ensures forall j :: 0 <= j < n ==>
      Fills(page, data, n)[j] == Event(Fill(page + 2 * j, WordAt(data, j)), false)
  {
    if n > 0 {
      FillsAt(page, data, n - 1);
    }
  }

  /** The hardware steps that programming `data` into the page at `page` takes. */
  function ProgramTrace(page: nat, data: seq<byte>): (r: seq<Event>)
    requires |data| % 2 == 0
    ensures |r| == |data| / 2 + 6
  {
    [Event(EepromWait, false), Event(Erase(page), false), Event(SpmWait, false)]
    + Fills(page, data, |data| / 2)
    + [Event(Write(page), false), Event(SpmWait, false), Event(RwwEnable, false)]
  }

  /**
   * The steps come in a fixed order: EEPROM wait, erase, SPM wait, one fill
   * per word of the page (each the little-endian word of its two bytes, at
   * the page address plus the byte offset), write, SPM wait, read-while-write
   * enable; and every one of them runs with interrupts disabled.
   */
  lemma ProgramTraceOrder(page: nat, data: seq<byte>)
    requires |data| % 2 == 0
    ensures var r, n := ProgramTrace(page, data), |data| / 2;
      && |r| == n + 6
      && r[0].op == EepromWait
      && r[1].op == Erase(page)
      && r[2].op == SpmWait
      && (forall j :: 0 <= j < n ==> r[3 + j].op == Fill(page + 2 * j, WordAt(data, j)))
      && r[n + 3].op == Write(page)
      && r[n + 4].op == SpmWait
      && r[n + 5].op == RwwEnable
      && (forall k :: 0 <= k < |r| ==> !r[k].interruptsEnabled)
  {
    var r, n := ProgramTrace(page, data), |data| / 2;
    var fills := Fills(page, data, n);
    FillsAt(page, data, n);
    forall k | 0 <= k < |r|
      ensures !r[k].interruptsEnabled
    {
      if 3 <= k < n + 3 {
        assert r[k] == fills[k - 3];
      }
    }
  }

  /** `ProgramTrace` appended one step at a time. */
  lemma TraceSteps(t: seq<Event>, page: nat, data: seq<byte>)
    requires |data| % 2 == 0
    ensures t + [Event(EepromWait, false)] + [Event(Erase(page), false)] + [Event(SpmWait, false)]
      + Fills(page, data, |data| / 2)
      + [Event(Write(page), false)] + [Event(SpmWait, false)] + [Event(RwwEnable, false)]
      == t + ProgramTrace(page, data)
  {
  }

  /**
   * The fill loop of `boot_program_page`: stage the `pageSize / 2` words of
   * `buf[from..from + pageSize]`, advancing through the buffer two bytes at
   * a time, each word little-endian at the page address plus its offset.
   */
  method FillPage(hw: Device, page: nat, buf: array<byte>, from: nat)
    requires hw.Valid()
    requires from + hw.pageSize <= buf.Length
    requires !InterruptsEnabled(hw.sreg)
    modifies hw`trace, hw`pageBuffer
    ensures hw.trace == old(hw.trace) + Fills(page, buf[from..from + hw.pageSize], hw.pageSize / 2)
    ensures forall j :: 0 <= j < hw.pageSize / 2 ==>
      page + 2 * j in hw.pageBuffer && hw.pageBuffer[page + 2 * j] == WordAt(buf[from..from + hw.pageSize], j)
  {
    ghost var data := buf[from..from + hw.pageSize];
    ghost var n := 0;
    var i := 0;
    var p := from;
    while i < hw.pageSize
      invariant 0 <= i <= hw.pageSize && i == 2 * n
      invariant p == from + i
      invariant hw.trace == old(hw.trace) + Fills(page, data, n)
      invariant forall j :: 0 <= j < n ==>
        page + 2 * j in hw.pageBuffer && hw.pageBuffer[page + 2 * j] == WordAt(data, j)
    {
      // Set up little-endian word.
      var w := buf[p] as word;
      w := w + buf[p + 1] as word * 0x100;
      assert w == WordAt(data, n);
      p := p + 2;
      hw.BootPageFill(page + i, w);
      i := i + 2;
      n := n + 1;
    }
  }

  /**
   * `boot_program_page(page, &buf[from])`: reads exactly the `pageSize`
   * bytes `buf[from..from + pageSize]`. Afterwards SREG is what it was on
   * entry, the steps taken are `ProgramTrace`, every word of the page reads
   * back as the little-endian word of its two bytes, and no word outside
   * the page has changed.
   */
  method ProgramPage(hw: Device, page: nat, buf: array<byte>, from: nat)
    requires hw.Valid()
    requires from + hw.pageSize <= buf.Length
    modifies hw`sreg, hw`trace, hw`flash, hw`pageBuffer
    ensures hw.sreg == old(hw.sreg)
    ensures hw.trace == old(hw.trace) + ProgramTrace(page, buf[from..from + hw.pageSize])
    ensures forall j :: 0 <= j < hw.pageSize / 2 ==> hw.Read(page + 2 * j) == WordAt(buf[from..from + hw.pageSize], j)
    ensures forall a: nat :: !hw.InPage(page, a) ==> hw.Read(a) == old(hw.Read(a))
  {
    ghost var data := buf[from..from + hw.pageSize];

    // Disable interrupts.
    var sreg := hw.sreg;
    hw.Cli();

    hw.EepromBusyWait();
    hw.BootPageErase(page);
    hw.BootSpmBusyWait();

    FillPage(hw, page, buf, from);
    assert hw.trace == old(hw.trace) + [Event(EepromWait, false)] + [Event(Erase(page), false)]
      + [Event(SpmWait, false)] + Fills(page, data, hw.pageSize / 2);

    ghost var staged := hw.pageBuffer;
    hw.BootPageWrite(page);
    forall j | 0 <= j < hw.pageSize / 2
      ensures hw.Read(page + 2 * j) == WordAt(data, j)
    {
      assert hw.InPage(page, page + 2 * j) && page + 2 * j in staged;
    }
    hw.BootSpmBusyWait();

    // Reenable RWW-section again.
    hw.BootRwwEnable();
    TraceSteps(old(hw.trace), page, data);

    // Re-enable interrupts (if they were ever enabled).
    hw.sreg := sreg;
  }
}
