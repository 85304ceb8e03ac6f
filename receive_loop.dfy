/**
 * The XMODEM receive loop of the bootloader's `main`, byte by byte, over
 * the buffer `buff[256]` and the self-programming hardware.
 *
 * The bytes the UART delivers are the sequence `input`; `receiveByte`
 * reads the next one. When `input` runs out the real receiver waits for
 * the next byte forever; here the loop stops there instead. The loop is
 * proved to compute exactly `Xmodem.Transfer`, and to have programmed
 * every committed page into flash (one `boot_program_page` sequence per
 * page, in order), so the properties proved about `Transfer` are
 * properties of this loop.
 */
module Bootloader {
  import opened Avr
  import opened PageProgrammer
  import opened Xmodem

  /** The hardware steps of programming the pages `cs`, one after the other. */
  function Programs(cs: seq<Commit>): seq<Event>
    requires forall k :: 0 <= k < |cs| ==> |cs[k].data| % 2 == 0
  {
    if cs == [] then [] else Programs(cs[..|cs| - 1]) + ProgramTrace(cs[|cs| - 1].page, cs[|cs| - 1].data)
  }

  lemma ProgramsAppend(cs: seq<Commit>, c: Commit)
    requires forall k :: 0 <= k < |cs| ==> |cs[k].data| % 2 == 0
    requires |c.data| % 2 == 0
    ensures Programs(cs + [c]) == Programs(cs) + ProgramTrace(c.page, c.data)
  {
    assert (cs + [c])[..|cs|] == cs;
  }

  /**
   * Program memory `flash` after `image` has been written from address 0
   * over `flash0`: every word below `|image|` is the little-endian word of
   * its two bytes, and every word from there on is what it was in `flash0`.
   */
  ghost predicate Flashed(flash: map<nat, word>, flash0: map<nat, word>, image: seq<byte>)
  {
    && (forall j: nat :: 2 * j + 1 < |image| ==> Stored(flash, 2 * j) == WordAt(image, j))
    && (forall a: nat :: a >= |image| ==> Stored(flash, a) == Stored(flash0, a))
  }

  /**
   * Programming the page right after `image` with `data`, leaving every
   * other word alone, extends what has been flashed by `data`.
   */
  lemma FlashedAppend(before: map<nat, word>, after: map<nat, word>, flash0: map<nat, word>,
                      image: seq<byte>, data: seq<byte>)
    requires |image| % 2 == 0 && |data| % 2 == 0
    requires Flashed(before, flash0, image)
    requires forall j :: 0 <= j < |data| / 2 ==> Stored(after, |image| + 2 * j) == WordAt(data, j)
    requires forall a: nat :: !(|image| <= a < |image| + |data|) ==> Stored(after, a) == Stored(before, a)
    ensures Flashed(after, flash0, image + data)
  {
    var image' := image + data;
    forall j: nat | 2 * j + 1 < |image'|
      ensures Stored(after, 2 * j) == WordAt(image', j)
    {
      if 2 * j < |image| {
        WordOfPrefix(image, data, j);
      } else {
        WordOfSuffix(image, data, j);
      }
    }
    forall a: nat | a >= |image'|
      ensures Stored(after, a) == Stored(flash0, a)
    {
      assert Stored(after, a) == Stored(before, a);
    }
  }

  lemma WordOfPrefix(image: seq<byte>, data: seq<byte>, j: nat)
    requires 2 * j + 1 < |image|
    ensures WordAt(image + data, j) == WordAt(image, j)
  {
  }

  lemma WordOfSuffix(image: seq<byte>, data: seq<byte>, j: nat)
    requires |image| % 2 == 0 && |image| <= 2 * j && 2 * j + 1 < |image| + |data|
    ensures var k := j - |image| / 2;
      (0 <= k && 2 * k + 1 < |data| && |image| + 2 * k == 2 * j && WordAt(image + data, j) == WordAt(data, k))
  {
  }

  /**
   * The hardware after the pages `commits` have been programmed from the
   * state with trace `trace0` and flash `flash0`: each page is one page
   * long, the steps taken are those of programming them in order, and the
   * flash holds their bytes from address 0.
   */
  ghost predicate Programmed(hw: Device, trace0: seq<Event>, flash0: map<nat, word>, commits: seq<Commit>)
    reads hw
  {
    && hw.Valid()
    && (forall k :: 0 <= k < |commits| ==> |commits[k].data| == hw.pageSize)
    && hw.trace == trace0 + Programs(commits)
    && Flashed(hw.flash, flash0, Committed(commits))
  }

  /**
   * `boot_program_page(curr_page_pos, &buff[from]); curr_page_pos += SPM_PAGESIZE;`:
   * the page at the cursor now holds `buff[from..from + pageSize]`, and
   * the cursor has moved on by a page.
   */
  method ProgramNext(hw: Device, buff: array<byte>, from: nat, pagePos: nat,
                     ghost image: seq<byte>, ghost flash0: map<nat, word>) returns (next: nat)
    requires hw.Valid() && from + hw.pageSize <= buff.Length
    requires pagePos == |image| && pagePos % 2 == 0
    requires Flashed(hw.flash, flash0, image)
    modifies hw`sreg, hw`trace, hw`flash, hw`pageBuffer
    ensures next == pagePos + hw.pageSize
    ensures hw.sreg == old(hw.sreg)
    ensures hw.trace == old(hw.trace) + ProgramTrace(pagePos, buff[from..from + hw.pageSize])
    ensures Flashed(hw.flash, flash0, image + buff[from..from + hw.pageSize])
  {
    ghost var before := hw.flash;
    ghost var data := buff[from..from + hw.pageSize];
    ProgramPage(hw, pagePos, buff, from);
    forall j | 0 <= j < |data| / 2
      ensures Stored(hw.flash, |image| + 2 * j) == WordAt(data, j)
    {
      assert hw.Read(pagePos + 2 * j) == WordAt(data, j);
    }
    forall a: nat | !(pagePos <= a < pagePos + |data|)
      ensures Stored(hw.flash, a) == Stored(before, a)
    {
      assert !hw.InPage(pagePos, a) && hw.Read(a) == Stored(hw.flash, a);
    }
    FlashedAppend(before, hw.flash, flash0, image, data);
    next := pagePos + hw.pageSize;
  }

  lemma EvenSum(a: nat, b: nat)
    requires a % 2 == 0 && b % 2 == 0
    ensures (a + b) % 2 == 0
  {
  }

  /** Programming one more page, right after the others, keeps `Programmed`. */
  lemma ProgrammedAppend(hw: Device, trace0: seq<Event>, flash0: map<nat, word>, commits: seq<Commit>, c: Commit)
    requires hw.Valid()
    requires forall k :: 0 <= k < |commits| ==> |commits[k].data| == hw.pageSize
    requires |c.data| == hw.pageSize
    requires hw.trace == trace0 + Programs(commits) + ProgramTrace(c.page, c.data)
    requires Flashed(hw.flash, flash0, Committed(commits) + c.data)
    ensures Programmed(hw, trace0, flash0, commits + [c])
    ensures |Committed(commits + [c])| == |Committed(commits)| + hw.pageSize
  {
    var cs := commits + [c];
    assert forall k :: 0 <= k < |cs| ==> |cs[k].data| == hw.pageSize;
    ProgramsAppend(commits, c);
    AppendAssociative(trace0, Programs(commits), ProgramTrace(c.page, c.data));
    assert hw.trace == trace0 + Programs(cs);
    CommittedAppend(commits, c);
  }

  /** One `ProgramNext`, with the page `c` it programs recorded as committed. */
  method CommitPage(hw: Device, buff: array<byte>, from: nat, pagePos: nat, ghost commits: seq<Commit>,
                    ghost trace0: seq<Event>, ghost flash0: map<nat, word>, ghost c: Commit)
    returns (next: nat, ghost commits': seq<Commit>)
    requires from + hw.pageSize <= buff.Length
    requires c == Commit(pagePos, buff[..][from..from + hw.pageSize])
    requires Programmed(hw, trace0, flash0, commits)
    requires pagePos == |Committed(commits)| && pagePos % 2 == 0
    modifies hw`sreg, hw`trace, hw`flash, hw`pageBuffer
    ensures commits' == commits + [c]
    ensures buff[..] == old(buff[..])
    ensures next == pagePos + hw.pageSize
    ensures hw.sreg == old(hw.sreg)
    ensures Programmed(hw, trace0, flash0, commits')
    ensures next == |Committed(commits')| && next % 2 == 0
  {
    assert buff[from..from + hw.pageSize] == c.data;
    EvenSum(pagePos, hw.pageSize);
    next := ProgramNext(hw, buff, from, pagePos, Committed(commits), flash0);
    ProgrammedAppend(hw, trace0, flash0, commits, c);
    commits' := commits + [c];
  }

  /** Two `ProgramNext`s, for the two pages of a block when pages are smaller than a block. */
  method CommitTwoPages(hw: Device, buff: array<byte>, pagePos: nat, ghost commits: seq<Commit>,
                        ghost trace0: seq<Event>, ghost flash0: map<nat, word>, ghost c0: Commit, ghost c1: Commit)
    returns (next: nat, ghost commits': seq<Commit>)
    requires hw.pageSize + hw.pageSize <= buff.Length
    requires c0 == Commit(pagePos, buff[..][0..hw.pageSize])
    requires c1 == Commit(pagePos + hw.pageSize, buff[..][hw.pageSize..hw.pageSize + hw.pageSize])
    requires Programmed(hw, trace0, flash0, commits)
    requires pagePos == |Committed(commits)| && pagePos % 2 == 0
    modifies hw`sreg, hw`trace, hw`flash, hw`pageBuffer
    ensures commits' == commits + [c0] + [c1]
    ensures next == pagePos + hw.pageSize + hw.pageSize
    ensures hw.sreg == old(hw.sreg)
    ensures Programmed(hw, trace0, flash0, commits')
    ensures next == |Committed(commits')| && next % 2 == 0
  {
    ghost var mid: seq<Commit>;
    next, mid := CommitPage(hw, buff, 0, pagePos, commits, trace0, flash0, c0);
    next, commits' := CommitPage(hw, buff, hw.pageSize, next, mid, trace0, flash0, c1);
  }

  /**
   * The commit of a full buffer once a block has been accepted: the first
   * page of the buffer, and for pages smaller than a block the second one,
   * are programmed at the cursor, which moves on a page each time.
   */
  method CommitBuffer(hw: Device, buff: array<byte>, pagePos: nat, ghost commits: seq<Commit>,
                      ghost trace0: seq<Event>, ghost flash0: map<nat, word>)
    returns (next: nat, ghost commits': seq<Commit>)
    requires hw.pageSize <= BufferSize && buff.Length == BufferSize
    requires Programmed(hw, trace0, flash0, commits)
    requires pagePos == |Committed(commits)| && pagePos % 2 == 0
    modifies hw`sreg, hw`trace, hw`flash, hw`pageBuffer
    ensures commits' == commits + Pages(hw.pageSize, pagePos, buff[..])
    ensures next == pagePos + PageAdvance(hw.pageSize)
    ensures hw.sreg == old(hw.sreg)
    ensures Programmed(hw, trace0, flash0, commits')
    ensures next == |Committed(commits')| && next % 2 == 0
  {
    ghost var pages := Pages(hw.pageSize, pagePos, buff[..]);
    if hw.pageSize < BlockSize {
      next, commits' := CommitTwoPages(hw, buff, pagePos, commits, trace0, flash0, pages[0], pages[1]);
      assert pages == [pages[0]] + [pages[1]];
      AppendAssociative(commits, [pages[0]], [pages[1]]);
    } else {
      next, commits' := CommitPage(hw, buff, 0, pagePos, commits, trace0, flash0, pages[0]);
    }
  }

  /**
   * The 128-byte payload loop: each byte read is stored at the write
   * offset, which advances with it. The loop stops early where the input
   * ends.
   */
  method ReceivePayload(buff: array<byte>, buffPos: int, input: seq<byte>, pos: nat)
    returns (newBuffPos: int, newPos: nat)
    requires buff.Length == BufferSize && 0 <= buffPos && buffPos + BlockSize <= BufferSize
    requires pos <= |input|
    modifies buff
    ensures newPos == pos + Min(BlockSize, |input| - pos)
    ensures newBuffPos == buffPos + (newPos - pos)
    ensures buff[..] == Store(old(buff[..]), buffPos, input[pos..newPos])
  {
    newBuffPos, newPos := buffPos, pos;
    var i := 0;
    while i < BlockSize && newPos < |input|
      invariant 0 <= i <= BlockSize && newPos == pos + i <= |input|
      invariant newBuffPos == buffPos + i
      invariant forall k :: 0 <= k < buffPos ==> buff[k] == old(buff[k])
      invariant forall k :: buffPos <= k < newBuffPos ==> buff[k] == input[pos + (k - buffPos)]
      invariant forall k :: newBuffPos <= k < BufferSize ==> buff[k] == old(buff[k])
    {
      var data := input[newPos];
      newPos := newPos + 1;
      buff[newBuffPos] := data;
      newBuffPos := newBuffPos + 1;
      i := i + 1;
    }
    assert buff[..] == Store(old(buff[..]), buffPos, input[pos..newPos]);
  }

  /**
   * The end of a whole packet, its payload stored and its CRC bytes read:
   * compare the received code with the CRC of the 128 bytes just stored;
   * on a match commit a full buffer and send ACK, otherwise move the write
   * offset back over the block and send NAK.
   */
  method CheckBlock(hw: Device, buff: array<byte>, crc: seq<byte> -> word, crcHigh: byte, crcLow: byte,
                    buffPos: int, pagePos: nat, sent: seq<byte>, ghost commits: seq<Commit>,
                    ghost trace0: seq<Event>, ghost flash0: map<nat, word>, ghost s: Session, ghost f: Frame)
    returns (buffPos': int, pagePos': nat, sent': seq<byte>, ghost commits': seq<Commit>)
    requires hw.pageSize <= BufferSize && buff.Length == BufferSize
    requires AtBoundary(s) && !s.complete
    requires f.Block? && WellFormedFrame(f) && f.crcHigh == crcHigh && f.crcLow == crcLow
    requires buff[..] == Store(s.buff, s.buffPos, f.payload) && buffPos == s.buffPos + BlockSize
    requires pagePos == s.pagePos && sent == s.sent && commits == s.commits
    requires Programmed(hw, trace0, flash0, commits)
    requires pagePos == |Committed(commits)| && pagePos % 2 == 0
    modifies hw`sreg, hw`trace, hw`flash, hw`pageBuffer
    ensures Session(buff[..], buffPos', pagePos', sent', commits', false) == Step(hw.pageSize, crc, s, f)
    ensures hw.sreg == old(hw.sreg)
    ensures Programmed(hw, trace0, flash0, commits')
    ensures pagePos' == |Committed(commits')| && pagePos' % 2 == 0
  {
    buffPos', pagePos', sent', commits' := buffPos, pagePos, sent, commits;
    var crcRecv := ReceivedCode(crcHigh, crcLow);
    var crcCalc := crc(buff[buffPos - BlockSize..buffPos]);
    if crcRecv == crcCalc {
      if buffPos >= hw.pageSize {
        pagePos', commits' := CommitBuffer(hw, buff, pagePos, commits, trace0, flash0);
        buffPos' := 0;
      }
      sent' := sent + [ACK];
    } else {
      buffPos' := buffPos - BlockSize;
      sent' := sent + [NAK];
    }
  }

  /**
   * One packet whose first byte, at `pos - 1`, is not EOT: read the block
   * number and its complement (and ignore them), store the payload, read
   * the two CRC bytes, compare the received code with the CRC of the 128
   * bytes just stored, and accept the block (committing a full buffer) or
   * reject it. When the input ends inside the packet, what was read has
   * been stored and the input is used up.
   */
  method ReceivePacket(hw: Device, buff: array<byte>, input: seq<byte>, pos: nat, crc: seq<byte> -> word,
                       buffPos: int, pagePos: nat, sent: seq<byte>, ghost commits: seq<Commit>,
                       ghost trace0: seq<Event>, ghost flash0: map<nat, word>)
    returns (pos': nat, buffPos': int, pagePos': nat, sent': seq<byte>, ghost commits': seq<Commit>)
    requires 1 <= pos <= |input| && input[pos - 1] != EOT
    requires hw.pageSize <= BufferSize && buff.Length == BufferSize
    requires AtBoundary(Session(buff[..], buffPos, pagePos, sent, commits, false))
    requires Programmed(hw, trace0, flash0, commits)
    requires pagePos == |Committed(commits)| && pagePos % 2 == 0
    modifies hw`sreg, hw`trace, hw`flash, hw`pageBuffer, buff
    ensures Session(buff[..], buffPos', pagePos', sent', commits', false)
      == Step(hw.pageSize, crc, Session(old(buff[..]), buffPos, pagePos, sent, commits, false),
              PacketFrame(input[pos - 1..]))
    ensures pos' == if |input| - (pos - 1) < PacketSize then |input| else pos - 1 + PacketSize
    ensures hw.sreg == old(hw.sreg)
    ensures Programmed(hw, trace0, flash0, commits')
    ensures pagePos' == |Committed(commits')| && pagePos' % 2 == 0
  {
    ghost var rest := input[pos - 1..];
    pos', buffPos', pagePos', sent', commits' := pos, buffPos, pagePos, sent, commits;

    // The block number and its complement.
    pos' := pos' + Min(2, |input| - pos');

    var payloadStart := pos';
    buffPos', pos' := ReceivePayload(buff, buffPos', input, pos');

    if pos' - payloadStart == BlockSize && |input| - pos' >= 2 {
      assert input[payloadStart..pos'] == rest[3..131];
      var crcHigh := input[pos'];
      var crcLow := input[pos' + 1];
      pos' := pos' + 2;
      buffPos', pagePos', sent', commits' := CheckBlock(hw, buff, crc, crcHigh, crcLow, buffPos', pagePos', sent', commits',
        trace0, flash0, Session(old(buff[..]), buffPos, pagePos, sent, commits, false), PacketFrame(rest));
    } else {
      // The link has fallen silent inside the packet.
      assert input[payloadStart..pos'] == CutPayload(rest);
      CutStep(hw.pageSize, crc, Session(old(buff[..]), buffPos, pagePos, sent, commits, false), rest);
      pos' := |input|;
    }
  }

  /**
   * The receive loop of `main`, from `usart_putc('C')` on: it reads the
   * input packet by packet until an EOT (or until the input runs out), and
   * ends in exactly the session `Transfer` describes. SREG is as it was;
   * the hardware steps taken are those of programming the committed pages
   * in order; and the flash holds the committed bytes from address 0, with
   * every word beyond them untouched.
   */
  method ReceiveImage(hw: Device, buff: array<byte>, input: seq<byte>, crc: seq<byte> -> word)
    returns (sent: seq<byte>, buffPos: int, pagePos: nat, complete: bool, ghost commits: seq<Commit>)
    requires hw.Valid() && hw.pageSize <= BufferSize && buff.Length == BufferSize
    modifies hw`sreg, hw`trace, hw`flash, hw`pageBuffer, buff
    ensures Transfer(hw.pageSize, crc, old(buff[..]), input) == Session(buff[..], buffPos, pagePos, sent, commits, complete)
    ensures hw.sreg == old(hw.sreg)
    ensures Programmed(hw, old(hw.trace), old(hw.flash), commits)
    ensures pagePos == |Committed(commits)|
  {
    ghost var buff0 := buff[..];
    ghost var trace0 := hw.trace;
    ghost var flash0 := hw.flash;
    sent := [CrcRequest];
    buffPos, pagePos, complete, commits := 0, 0, false, [];
    var pos := 0;
    assert Flashed(hw.flash, flash0, Committed(commits));
    while !complete && pos < |input|
      invariant pos <= |input|
      invariant hw.sreg == old(hw.sreg)
      invariant Programmed(hw, trace0, flash0, commits)
      invariant pagePos == |Committed(commits)| && pagePos % 2 == 0
      invariant |buff[..]| == BufferSize
      invariant !complete && pos < |input| ==> AtBoundary(Session(buff[..], buffPos, pagePos, sent, commits, complete))
      invariant Transfer(hw.pageSize, crc, buff0, input)
        == Resume(hw.pageSize, crc, Session(buff[..], buffPos, pagePos, sent, commits, complete),
                  if complete then [] else input[pos..])
      decreases |input| - pos
    {
      ghost var s := Session(buff[..], buffPos, pagePos, sent, commits, false);
      ghost var rest := input[pos..];
      ResumeStep(hw.pageSize, crc, s, rest);

      // Get header.
      var data := input[pos];
      pos := pos + 1;
      if data == EOT {
        sent := sent + [ACK];
        complete := true;
      } else {
        pos, buffPos, pagePos, sent, commits :=
          ReceivePacket(hw, buff, input, pos, crc, buffPos, pagePos, sent, commits, trace0, flash0);
        if |rest| >= PacketSize {
          assert input[pos..] == rest[PacketSize..];
        }
      }
    }
  }
}
