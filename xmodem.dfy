/**
 * The XMODEM-CRC receive protocol as the bootloader runs it, at the level of
 * whole packets.
 *
 * `Parse` cuts the byte stream the receiver reads into the frames it acts
 * on; `Step` is what one frame does to the transfer session (the receive
 * buffer and its write offset, the flash page cursor, the bytes sent back
 * and the pages committed); `Run` folds `Step` over the frames. The
 * byte-by-byte loop in module `Bootloader` is proved to compute exactly
 * `Transfer`, and the lemmas here state what that means.
 *
 * The 16-bit CRC (`calcrc` of xmodem.h) is a parameter: any total function
 * from the 128 bytes of a block to a 16-bit value.
 */
module Xmodem {
  import opened Avr

  /** Start of header. The receiver never compares the first byte with it. */
  const SOH: byte := 0x01
  /** End of transmission. */
  const EOT: byte := 0x04
  /** Acknowledge. */
  const ACK: byte := 0x06
  /** Negative acknowledge. */
  const NAK: byte := 21
  /** 'C': asks the sender for the CRC-16 variant of XMODEM. */
  const CrcRequest: byte := 0x43

  /** Payload bytes per packet. */
  const BlockSize: nat := 128
  /** Bytes in one packet on the wire: first byte, number, complement, payload, CRC. */
  const PacketSize: nat := 133
  /** The receive buffer `buff[256]`. */
  const BufferSize: nat := 256

  /**
   * The received code: the first CRC byte is the high half. The source builds
   * it as `(cksum[0] << 8) | cksum[1]`; the two halves do not overlap, so
   * this is `cksum[0] * 256 + cksum[1]`.
   */
  function ReceivedCode(high: byte, low: byte): (code: word)
    ensures HighByte(code) == high && LowByte(code) == low
  {
    (high as int * 0x100 + low as int) as word
  }

  /** The two CRC bytes a sender puts on the wire for `code`, high byte first. */
  function CodeBytes(code: word): (bytes: (byte, byte))
    ensures ReceivedCode(bytes.0, bytes.1) == code
  {
    (HighByte(code), LowByte(code))
  }

  /** What the receiver makes of the bytes it reads at the start of a packet. */
  datatype Frame =
    | EndOfTransmission
      /** A whole packet: a first byte other than EOT and the 132 bytes after it. */
    | Block(start: byte, number: byte, complement: byte, payload: seq<byte>, crcHigh: byte, crcLow: byte)
      /** A packet the link fell silent in: the receiver waits for its next byte forever. */
    | Cut(bytes: seq<byte>)

  predicate WellFormedFrame(f: Frame)
  {
    match f
    case EndOfTransmission => true
    case Block(start, _, _, payload, _, _) => start != EOT && |payload| == BlockSize
    case Cut(bytes) => 0 < |bytes| < PacketSize && bytes[0] != EOT
  }

  /** No frame is a packet cut short: the input ended at a packet boundary or at an EOT. */
  predicate WholePackets(fs: seq<Frame>)
  {
    fs == [] || !fs[|fs| - 1].Cut?
  }

  /** Every frame well formed, and only the last one other than a whole packet. */
  predicate WellFormed(fs: seq<Frame>)
  {
    && (forall i :: 0 <= i < |fs| ==> WellFormedFrame(fs[i]))
    && (forall i :: 0 <= i < |fs| - 1 ==> fs[i].Block?)
  }

  /**
   * The frames the receive loop reads from `input`: a first byte equal to
   * EOT ends the transfer (nothing after it is read); any other first byte
   * is followed by two header bytes, 128 payload bytes and two CRC bytes.
   */
  function Parse(input: seq<byte>): (fs: seq<Frame>)
    ensures (fs == []) == (input == [])
    ensures |fs| <= |input|
    decreases |input|
  {
    if input == [] then []
    else if input[0] == EOT then [EndOfTransmission]
    else if |input| < PacketSize then [PacketFrame(input)]
    else [PacketFrame(input)] + Parse(input[PacketSize..])
  }

  /**
   * The frame a first byte other than EOT starts: a whole packet (the block
   * number, its complement, the payload and the two CRC bytes follow it)
   * when the input holds 133 bytes, otherwise a packet cut off by the end of
   * the input.
   */
  function PacketFrame(input: seq<byte>): (f: Frame)
    requires input != [] && input[0] != EOT
    ensures WellFormedFrame(f)
    ensures f.Block? <==> |input| >= PacketSize
  {
    if |input| < PacketSize then Cut(input)
    else Block(input[0], input[1], input[2], input[3..131], input[131], input[132])
  }

  /** Whatever the input, the frames are well formed. */
  lemma {:induction false} ParseWellFormed(input: seq<byte>)
    ensures WellFormed(Parse(input))
    decreases |input|
  {
    if input != [] && input[0] != EOT && |input| >= PacketSize {
      var fs, rest := Parse(input), Parse(input[PacketSize..]);
      ParseWellFormed(input[PacketSize..]);
      forall i | 1 <= i < |fs| ensures WellFormedFrame(fs[i]) && (i < |fs| - 1 ==> fs[i].Block?) {
        assert fs[i] == rest[i - 1];
      }
    }
  }

  /** The bytes a frame occupies on the wire. */
  function Wire(f: Frame): (bytes: seq<byte>)
    ensures WellFormedFrame(f) && f.Block? ==> |bytes| == PacketSize
  {
    match f
    case EndOfTransmission => [EOT]
    case Block(start, number, complement, payload, high, low) =>
      [start, number, complement] + payload + [high, low]
    case Cut(bytes) => bytes
  }

  function WireAll(fs: seq<Frame>): seq<byte>
  {
    if fs == [] then [] else Wire(fs[0]) + WireAll(fs[1..])
  }

  /**
   * The receiver reads its input in whole frames, from the front: what the
   * frames occupy on the wire is the input up to the point where the
   * receiver stops, which is the end of the input unless it stops at an EOT.
   */
  lemma {:induction false} ParseConsumes(input: seq<byte>)
    ensures var fs := Parse(input);
      && WireAll(fs) <= input
      && (fs == [] || fs[|fs| - 1] != EndOfTransmission ==> WireAll(fs) == input)
    decreases |input|
  {
    if input != [] && input[0] != EOT && |input| >= PacketSize {
      var rest := input[PacketSize..];
      ParseConsumes(rest);
      var fs, tail := Parse(input), Parse(rest);
      assert fs[1..] == tail;
      assert Wire(fs[0]) == input[..PacketSize];
      assert WireAll(fs) == input[..PacketSize] + WireAll(tail);
      assert input == input[..PacketSize] + rest;
      PrefixAppend(input[..PacketSize], WireAll(tail), rest);
      if tail != [] {
        assert fs[|fs| - 1] == tail[|tail| - 1];
      }
    }
  }

  lemma PrefixAppend(a: seq<byte>, b: seq<byte>, c: seq<byte>)
    requires b <= c
    ensures a + b <= a + c
    ensures b == c ==> a + b == a + c
  {
    assert (a + c)[..|a + b|] == a + b;
  }

  /** A whole packet on the wire is read back as that packet. */
  lemma ParseBlock(f: Frame, more: seq<byte>)
    requires f.Block? && WellFormedFrame(f)
    ensures Parse(Wire(f) + more) == [f] + Parse(more)
  {
    var input := Wire(f) + more;
    assert input[PacketSize..] == more;
    assert input[3..131] == f.payload;
  }

  /** A packet cut short is read back as such when nothing follows it. */
  lemma ParseCut(f: Frame)
    requires f.Cut? && WellFormedFrame(f)
    ensures Parse(WireAll([f]) + []) == [f]
  {
    assert WireAll([f]) + [] == f.bytes;
  }

  /**
   * Reading back what a sender puts on the wire gives its frames again;
   * after an EOT, whatever follows is never read.
   */
  lemma {:induction false} ParseWire(fs: seq<Frame>, rest: seq<byte>)
    requires WellFormed(fs)
    requires rest == [] || (fs != [] && fs[|fs| - 1] == EndOfTransmission)
    ensures Parse(WireAll(fs) + rest) == fs
    decreases |fs|
  {
    if fs != [] {
      var f, tail := fs[0], fs[1..];
      assert WireAll(fs) + rest == Wire(f) + (WireAll(tail) + rest);
      assert WellFormedFrame(f);
      if f.Block? {
        assert WellFormed(tail) by {
          forall i | 0 <= i < |tail| ensures WellFormedFrame(tail[i]) && (i < |tail| - 1 ==> tail[i].Block?) {
            assert tail[i] == fs[i + 1];
          }
        }
        ParseWire(tail, rest);
        ParseBlock(f, WireAll(tail) + rest);
      } else if f.Cut? {
        assert tail == [] && rest == [];
        ParseCut(f);
      }
    }
  }

  /** A flash page handed to `boot_program_page`: its address and its bytes. */
  datatype Commit = Commit(page: nat, data: seq<byte>)

  /**
   * The state of a transfer: `buff` with its write offset `buffPos`
   * (`curr_buff_pos`), the next flash page address `pagePos`
   * (`curr_page_pos`), every byte sent back, every page committed, and the
   * `complete` flag.
   */
  datatype Session = Session(
    buff: seq<byte>,
    buffPos: int,
    pagePos: nat,
    sent: seq<byte>,
    commits: seq<Commit>,
    complete: bool)

  /** The session after the start: 'C' has been sent, both cursors are 0. */
  function Start(buff: seq<byte>): Session
  {
    Session(buff, 0, 0, [CrcRequest], [], false)
  }

  /** Between packets the write offset is 0 or 128. */
  predicate AtBoundary(s: Session)
  {
    |s.buff| == BufferSize && (s.buffPos == 0 || s.buffPos == BlockSize)
  }

  /** `b` with `data` written over it from offset `at`. */
  function Store(b: seq<byte>, at: nat, data: seq<byte>): (r: seq<byte>)
    requires at + |data| <= |b|
    ensures |r| == |b|
    ensures r[..at] == b[..at] && r[at..at + |data|] == data && r[at + |data|..] == b[at + |data|..]
  {
    b[..at] + data + b[at + |data|..]
  }

  function Min(a: int, b: int): int { if a < b then a else b }

  /** The payload bytes of a cut-off packet that reached the buffer before the link fell silent. */
  function CutPayload(bytes: seq<byte>): (r: seq<byte>)
    ensures |r| <= BlockSize
  {
    if |bytes| <= 3 then [] else bytes[3..Min(|bytes|, 3 + BlockSize)]
  }

  /** A packet cut off by the end of the input stores what arrived of its payload and nothing more. */
  lemma CutStep(ps: nat, crc: seq<byte> -> word, s: Session, input: seq<byte>)
    requires 0 < ps <= BufferSize && AtBoundary(s)
    requires input != [] && input[0] != EOT && |input| < PacketSize
    ensures var got := CutPayload(input);
      Step(ps, crc, s, PacketFrame(input)) == s.(buff := Store(s.buff, s.buffPos, got), buffPos := s.buffPos + |got|)
  {
  }

  /** Whether the code received with a block is the CRC of its payload. */
  predicate Matches(crc: seq<byte> -> word, f: Frame)
    requires f.Block?
  {
    ReceivedCode(f.crcHigh, f.crcLow) == crc(f.payload)
  }

  /**
   * The pages committed from a full buffer at cursor `pagePos`: the first
   * page of the buffer, and for pages smaller than a block the second one
   * right after it.
   */
  function Pages(ps: nat, pagePos: nat, buff: seq<byte>): (r: seq<Commit>)
    requires 0 < ps <= BufferSize && |buff| == BufferSize
    ensures |r| * ps == PageAdvance(ps)
    ensures r[0].page == pagePos && r[|r| - 1].page + ps == pagePos + PageAdvance(ps)
    ensures Committed(r) == buff[..PageAdvance(ps)]
  {
    if ps < BlockSize then
      var r := [Commit(pagePos, buff[..ps]), Commit(pagePos + ps, buff[ps..2 * ps])];
      assert r[..1] == [r[0]] && [r[0]][..0] == [];
      assert Committed([r[0]]) == r[0].data;
      assert Committed(r) == Committed([r[0]]) + r[1].data;
      assert buff[..2 * ps] == buff[..ps] + buff[ps..2 * ps];
      r
    else
      var r := [Commit(pagePos, buff[..ps])];
      assert r[..0] == [];
      r
  }

  /** How far the page cursor moves when a buffer is committed: a page for each page in `Pages`. */
  function PageAdvance(ps: nat): (r: nat)
    ensures ps <= r
    ensures ps <= BufferSize ==> r <= BufferSize
  {
    if ps < BlockSize then ps + ps else ps
  }

  /**
   * What one frame does to the session, with `ps` for SPM_PAGESIZE.
   *
   * The payload of a block is stored at the write offset and the offset
   * advances by 128. If the received code equals the CRC over the 128 bytes
   * just stored, then once the offset has reached a page the first page of
   * the buffer (and, for pages smaller than 128 bytes, the second one) is
   * committed at the page cursor, the cursor advancing by a page each time,
   * the offset returns to 0, and ACK is sent. Otherwise the offset moves
   * back by 128 and NAK is sent.
   */
  function Step(ps: nat, crc: seq<byte> -> word, s: Session, f: Frame): (r: Session)
    requires 0 < ps <= BufferSize
    requires AtBoundary(s)
    requires WellFormedFrame(f)
    ensures |r.buff| == BufferSize
    ensures s.sent <= r.sent && s.commits <= r.commits
    ensures r.complete == (s.complete || f.EndOfTransmission?)
    ensures !f.Cut? ==> AtBoundary(r)
  {
    match f
    case EndOfTransmission =>
      s.(sent := s.sent + [ACK], complete := true)
    case Cut(bytes) =>
      var got := CutPayload(bytes);
      s.(buff := Store(s.buff, s.buffPos, got), buffPos := s.buffPos + |got|)
    case Block(_, _, _, payload, high, low) =>
      var buff := Store(s.buff, s.buffPos, payload);
      var pos := s.buffPos + BlockSize;
      if ReceivedCode(high, low) == crc(buff[pos - BlockSize..pos]) then
        if pos >= ps then
          var pages := Pages(ps, s.pagePos, buff);
          s.(buff := buff, buffPos := 0, pagePos := s.pagePos + PageAdvance(ps),
             sent := s.sent + [ACK], commits := s.commits + pages)
        else
          s.(buff := buff, buffPos := pos, sent := s.sent + [ACK])
      else
        s.(buff := buff, buffPos := pos - BlockSize, sent := s.sent + [NAK])
  }

  /**
   * Every frame but a cut-off one is answered with exactly one byte; a block
   * with ACK exactly when its received code is the CRC of its payload (the
   * 128 bytes just stored), with NAK otherwise.
   */
  lemma StepReply(ps: nat, crc: seq<byte> -> word, s: Session, f: Frame)
    requires 0 < ps <= BufferSize && AtBoundary(s) && WellFormedFrame(f)
    ensures var r := Step(ps, crc, s, f);
      && (f.Cut? ==> r.sent == s.sent)
      && (!f.Cut? ==> |r.sent| == |s.sent| + 1 && r.sent[..|s.sent|] == s.sent)
      && (f.EndOfTransmission? ==> r.sent[|s.sent|] == ACK)
      && (f.Block? ==> (r.sent[|s.sent|] == ACK <==> Matches(crc, f)))
      && (f.Block? ==> r.sent[|s.sent|] == ACK || r.sent[|s.sent|] == NAK)
  {
    if f.Block? {
      var buff := Store(s.buff, s.buffPos, f.payload);
      assert buff[s.buffPos..s.buffPos + BlockSize] == f.payload;
    }
  }

  /**
   * Pages are only ever appended, the cursor advancing by one page per
   * commit; every frame but a matching block leaves the cursor and the
   * commits alone, and a rejected block also leaves the write offset where
   * it was before the block.
   */
  lemma StepCommits(ps: nat, crc: seq<byte> -> word, s: Session, f: Frame)
    requires 0 < ps <= BufferSize && AtBoundary(s) && WellFormedFrame(f)
    ensures var r := Step(ps, crc, s, f);
      && |s.commits| <= |r.commits| <= |s.commits| + 2
      && r.commits[..|s.commits|] == s.commits
      && r.pagePos == s.pagePos + (|r.commits| - |s.commits|) * ps
      && (!(f.Block? && Matches(crc, f)) ==> r.commits == s.commits && r.pagePos == s.pagePos)
      && (f.Block? && !Matches(crc, f) ==> r.buffPos == s.buffPos)
  {
    if f.Block? {
      var buff := Store(s.buff, s.buffPos, f.payload);
      assert buff[s.buffPos..s.buffPos + BlockSize] == f.payload;
    }
  }

  /** What is left after the first frame is well formed, and ends as the frames did. */
  lemma WellFormedTail(fs: seq<Frame>)
    requires WellFormed(fs) && fs != []
    ensures WellFormed(fs[1..]) && WellFormedFrame(fs[0])
    ensures WholePackets(fs) ==> WholePackets(fs[1..])
  {
    var tail := fs[1..];
    forall i | 0 <= i < |tail| ensures WellFormedFrame(tail[i]) && (i < |tail| - 1 ==> tail[i].Block?) {
      assert tail[i] == fs[i + 1];
    }
  }

  /** The frames processed one after the other. */
  function Run(ps: nat, crc: seq<byte> -> word, s: Session, fs: seq<Frame>): (r: Session)
    requires 0 < ps <= BufferSize
    requires WellFormed(fs)
    requires fs != [] ==> AtBoundary(s)
    ensures s.sent <= r.sent && s.commits <= r.commits
    ensures s.complete ==> r.complete
    decreases |fs|
  {
    if fs == [] then s
    else
      WellFormedTail(fs);
      Run(ps, crc, Step(ps, crc, s, fs[0]), fs[1..])
  }

  /** The session after the receive loop has read the rest of the input, `rest`, from session `s`. */
  function Resume(ps: nat, crc: seq<byte> -> word, s: Session, rest: seq<byte>): (r: Session)
    requires 0 < ps <= BufferSize
    requires rest != [] ==> AtBoundary(s)
    ensures s.sent <= r.sent && s.commits <= r.commits
    ensures s.complete ==> r.complete
    ensures rest == [] ==> r == s
  {
    ParseWellFormed(rest);
    Run(ps, crc, s, Parse(rest))
  }

  /** The whole transfer: the receive loop run over `input` from the start, with `buff` initially `buff0`. */
  function Transfer(ps: nat, crc: seq<byte> -> word, buff0: seq<byte>, input: seq<byte>): (r: Session)
    requires 0 < ps <= BufferSize
    requires |buff0| == BufferSize
    ensures r.sent != [] && r.sent[0] == CrcRequest
    ensures input == [] ==> r.sent == [CrcRequest] && r.commits == [] && !r.complete
  {
    Resume(ps, crc, Start(buff0), input)
  }

  /** Reading on from session `s`: the next frame is handled first, then the rest. */
  lemma ResumeStep(ps: nat, crc: seq<byte> -> word, s: Session, rest: seq<byte>)
    requires 0 < ps <= BufferSize && AtBoundary(s) && rest != []
    ensures rest[0] == EOT ==> Resume(ps, crc, s, rest) == Step(ps, crc, s, EndOfTransmission)
    ensures rest[0] != EOT && |rest| < PacketSize ==> Resume(ps, crc, s, rest) == Step(ps, crc, s, Cut(rest))
    ensures rest[0] != EOT && |rest| >= PacketSize ==>
      var f := Block(rest[0], rest[1], rest[2], rest[3..131], rest[131], rest[132]);
      Resume(ps, crc, s, rest) == Resume(ps, crc, Step(ps, crc, s, f), rest[PacketSize..])
  {
    ParseWellFormed(rest);
    var fs := Parse(rest);
    if rest[0] != EOT && |rest| >= PacketSize {
      assert fs[1..] == Parse(rest[PacketSize..]);
    } else {
      assert fs == [fs[0]] && fs[1..] == [];
      assert Run(ps, crc, Step(ps, crc, s, fs[0]), []) == Step(ps, crc, s, fs[0]);
    }
  }

  /** The answer the receiver sends for a frame. */
  function Reply(crc: seq<byte> -> word, f: Frame): seq<byte>
  {
    match f
    case EndOfTransmission => [ACK]
    case Block(_, _, _, _, _, _) => if Matches(crc, f) then [ACK] else [NAK]
    case Cut(_) => []
  }

  function Replies(crc: seq<byte> -> word, fs: seq<Frame>): seq<byte>
  {
    if fs == [] then [] else Reply(crc, fs[0]) + Replies(crc, fs[1..])
  }

  /** The payload a frame adds to the image: that of a block whose code matched. */
  function Gain(crc: seq<byte> -> word, f: Frame): seq<byte>
  {
    if f.Block? && Matches(crc, f) then f.payload else []
  }

  /** The payloads of the blocks whose code matched, in the order they arrived. */
  function Accepted(crc: seq<byte> -> word, fs: seq<Frame>): seq<byte>
  {
    if fs == [] then [] else Gain(crc, fs[0]) + Accepted(crc, fs[1..])
  }

  /** The bytes of the committed pages, in the order they were committed. */
  function Committed(cs: seq<Commit>): seq<byte>
  {
    if cs == [] then [] else Committed(cs[..|cs| - 1]) + cs[|cs| - 1].data
  }

  lemma CommittedAppend(cs: seq<Commit>, c: Commit)
    ensures Committed(cs + [c]) == Committed(cs) + c.data
  {
    assert (cs + [c])[..|cs|] == cs;
  }

  /**
   * The page sizes for which the receive loop never drops an accepted byte:
   * a page is half a block, one block or two blocks.
   */
  predicate SupportedPageSize(ps: nat)
  {
    ps == 64 || ps == 128 || ps == 256
  }

  /** What `Step` does with a matching block that brings the write offset to a page or beyond. */
  lemma AcceptShape(ps: nat, crc: seq<byte> -> word, s: Session, f: Frame)
    requires 0 < ps <= BufferSize && AtBoundary(s) && s.buffPos + BlockSize >= ps
    requires f.Block? && WellFormedFrame(f) && Matches(crc, f)
    ensures var buff := Store(s.buff, s.buffPos, f.payload);
      Step(ps, crc, s, f) == s.(buff := buff, buffPos := 0, pagePos := s.pagePos + PageAdvance(ps),
        sent := s.sent + [ACK], commits := s.commits + Pages(ps, s.pagePos, buff))
  {
    var buff := Store(s.buff, s.buffPos, f.payload);
    assert buff[s.buffPos..s.buffPos + BlockSize] == f.payload;
  }

  /**
   * Pages smaller than 64 bytes: a matching block read at offset 0 commits
   * only its first `2 * ps` bytes and the write offset returns to 0, so the
   * rest of the payload is dropped although it was acknowledged.
   */
  lemma SmallPagesDropBytes(ps: nat, crc: seq<byte> -> word, s: Session, f: Frame)
    requires 0 < ps < 64 && AtBoundary(s) && s.buffPos == 0
    requires f.Block? && WellFormedFrame(f) && Matches(crc, f)
    ensures var r := Step(ps, crc, s, f);
      && r.buffPos == 0 && r.sent == s.sent + [ACK]
      && r.commits == s.commits + [Commit(s.pagePos, f.payload[..ps]), Commit(s.pagePos + ps, f.payload[ps..2 * ps])]
  {
    AcceptShape(ps, crc, s, f);
    var buff := Store(s.buff, 0, f.payload);
    assert buff[..BlockSize] == f.payload;
    assert buff[..ps] == f.payload[..ps] && buff[ps..2 * ps] == f.payload[ps..2 * ps];
  }

  /**
   * Pages of 65 to 127 bytes: a matching block read at offset 0 commits a
   * second page whose tail, `buff[128..2 * ps]`, is whatever the buffer held
   * before: bytes that were never received in this block.
   */
  lemma MidPagesProgramStaleBytes(ps: nat, crc: seq<byte> -> word, s: Session, f: Frame)
    requires 64 < ps < BlockSize && AtBoundary(s) && s.buffPos == 0
    requires f.Block? && WellFormedFrame(f) && Matches(crc, f)
    ensures var r := Step(ps, crc, s, f);
      && r.buffPos == 0 && r.sent == s.sent + [ACK]
      && r.commits == s.commits + [Commit(s.pagePos, f.payload[..ps]),
                                   Commit(s.pagePos + ps, f.payload[ps..] + s.buff[BlockSize..2 * ps])]
  {
    AcceptShape(ps, crc, s, f);
    StaleTail(ps, s.buff, f.payload);
  }

  /** The two pages of a buffer whose first block is `payload` and whose second half is stale. */
  lemma StaleTail(ps: nat, prev: seq<byte>, payload: seq<byte>)
    requires 64 < ps < BlockSize && |prev| == BufferSize && |payload| == BlockSize
    ensures var buff := Store(prev, 0, payload);
      buff[..ps] == payload[..ps] && buff[ps..2 * ps] == payload[ps..] + prev[BlockSize..2 * ps]
  {
    var buff := Store(prev, 0, payload);
    var rest := prev[BlockSize..];
    assert buff == payload + rest;
    assert buff[ps..BlockSize] == payload[ps..];
    assert buff[BlockSize..2 * ps] == rest[..2 * ps - BlockSize] == prev[BlockSize..2 * ps];
    assert buff[ps..2 * ps] == buff[ps..BlockSize] + buff[BlockSize..2 * ps];
  }

  /**
   * Pages of 129 to 255 bytes: the matching block read at offset 128 commits
   * `buff[0..ps]` and the write offset returns to 0, so the last
   * `256 - ps` bytes of its payload are dropped although they were
   * acknowledged.
   */
  lemma LargePagesDropBytes(ps: nat, crc: seq<byte> -> word, s: Session, f: Frame)
    requires BlockSize < ps < BufferSize && AtBoundary(s) && s.buffPos == BlockSize
    requires f.Block? && WellFormedFrame(f) && Matches(crc, f)
    ensures var r := Step(ps, crc, s, f);
      && r.buffPos == 0 && r.sent == s.sent + [ACK]
      && r.commits == s.commits + [Commit(s.pagePos, s.buff[..BlockSize] + f.payload[..ps - BlockSize])]
  {
    AcceptShape(ps, crc, s, f);
    var buff := Store(s.buff, BlockSize, f.payload);
    assert buff[BlockSize..BufferSize] == f.payload;
    assert buff[..ps] == s.buff[..BlockSize] + f.payload[..ps - BlockSize];
  }

  /** Page `k` went to address `k * ps` and holds one page of bytes. */
  predicate PagesInOrder(ps: nat, cs: seq<Commit>)
  {
    forall k :: 0 <= k < |cs| ==> cs[k].page == k * ps && |cs[k].data| == ps
  }

  lemma PagesAppend(ps: nat, cs: seq<Commit>, c: Commit)
    requires PagesInOrder(ps, cs)
    requires c.page == |cs| * ps && |c.data| == ps
    ensures PagesInOrder(ps, cs + [c])
  {
  }

  /**
   * What holds between packets: the committed pages followed by the
   * buffered bytes are exactly `image`; the pages are consecutive, one page
   * long each, from address 0, so the cursor is a whole number of pages;
   * and the write offset is 0 or 128 and below one page.
   */
  predicate ImageInvariant(ps: nat, s: Session, image: seq<byte>)
  {
    && AtBoundary(s) && s.buffPos < ps
    && s.pagePos == |s.commits| * ps
    && PagesInOrder(ps, s.commits)
    && Committed(s.commits) + s.buff[..s.buffPos] == image
  }

  /** A block whose code does not match changes nothing but the buffer beyond the write offset. */
  lemma ImageOnReject(ps: nat, crc: seq<byte> -> word, s: Session, f: Frame, image: seq<byte>)
    requires 0 < ps <= BufferSize && ImageInvariant(ps, s, image)
    requires f.Block? && WellFormedFrame(f) && !Matches(crc, f)
    ensures ImageInvariant(ps, Step(ps, crc, s, f), image)
  {
    var buff := Store(s.buff, s.buffPos, f.payload);
    assert buff[s.buffPos..s.buffPos + BlockSize] == f.payload;
    assert buff[..s.buffPos] == s.buff[..s.buffPos];
  }

  /** A matching block that does not complete a page is kept in the buffer. */
  lemma ImageOnHold(ps: nat, crc: seq<byte> -> word, s: Session, f: Frame, image: seq<byte>)
    requires 0 < ps <= BufferSize && ImageInvariant(ps, s, image)
    requires f.Block? && WellFormedFrame(f) && Matches(crc, f)
    requires s.buffPos + BlockSize < ps
    ensures ImageInvariant(ps, Step(ps, crc, s, f), image + f.payload)
  {
    assert s.buffPos == 0;
    var buff := Store(s.buff, 0, f.payload);
    assert buff[0..BlockSize] == f.payload;
    assert buff[..BlockSize] == s.buff[..0] + f.payload;
  }

  lemma MulSucc(n: nat, m: nat)
    ensures (n + 1) * m == n * m + m
  {
  }

  /** `s` with `page` committed at the cursor and the write offset back at 0. */
  function AddPage(ps: nat, s: Session, page: seq<byte>): Session
  {
    s.(buffPos := 0, pagePos := s.pagePos + ps, commits := s.commits + [Commit(s.pagePos, page)])
  }

  /**
   * Committing one more page, of one page's length, keeps the invariant and
   * appends the page to the committed bytes.
   */
  lemma ImageAfterPage(ps: nat, s: Session, page: seq<byte>, image: seq<byte>)
    requires ImageInvariant(ps, s, image) && |page| == ps
    ensures ImageInvariant(ps, AddPage(ps, s, page), Committed(s.commits) + page)
    ensures Committed(AddPage(ps, s, page).commits) == Committed(s.commits) + page
  {
    var c := Commit(s.pagePos, page);
    CommittedAppend(s.commits, c);
    PagesAppend(ps, s.commits, c);
    MulSucc(|s.commits|, ps);
  }

  /** What `Step` does with a matching block that fills a page of one block or two. */
  lemma CommitShape(ps: nat, crc: seq<byte> -> word, s: Session, f: Frame)
    requires (ps == 128 || ps == 256) && AtBoundary(s) && s.buffPos + BlockSize >= ps
    requires f.Block? && WellFormedFrame(f) && Matches(crc, f)
    ensures var buff := Store(s.buff, s.buffPos, f.payload);
      Step(ps, crc, s, f) == s.(buff := buff, buffPos := 0, pagePos := s.pagePos + ps,
        sent := s.sent + [ACK], commits := s.commits + [Commit(s.pagePos, buff[..ps])])
  {
    var buff := Store(s.buff, s.buffPos, f.payload);
    assert buff[s.buffPos..s.buffPos + BlockSize] == f.payload;
  }

  /** Pages of one block or two: the matching block that completes a page commits it. */
  lemma ImageOnCommit(ps: nat, s: Session, payload: seq<byte>, r: Session, image: seq<byte>)
    requires (ps == 128 || ps == 256) && ImageInvariant(ps, s, image)
    requires |payload| == BlockSize && s.buffPos + BlockSize == ps
    requires var buff := Store(s.buff, s.buffPos, payload);
      r == s.(buff := buff, buffPos := 0, pagePos := s.pagePos + ps,
        sent := s.sent + [ACK], commits := s.commits + [Commit(s.pagePos, buff[..ps])])
    ensures ImageInvariant(ps, r, image + payload)
  {
    var buff := Store(s.buff, s.buffPos, payload);
    assert buff[..ps] == s.buff[..s.buffPos] + payload;
    var s' := s.(buff := buff, sent := s.sent + [ACK]);
    ImageAfterPage(ps, s', buff[..ps], image);
    AppendAssociative(Committed(s.commits), s.buff[..s.buffPos], payload);
    assert r == AddPage(ps, s', buff[..ps]);
  }

  /** What `Step` does with a matching block when a page is half a block. */
  lemma SplitShape(crc: seq<byte> -> word, s: Session, f: Frame)
    requires AtBoundary(s) && s.buffPos < 64
    requires f.Block? && WellFormedFrame(f) && Matches(crc, f)
    ensures var buff := Store(s.buff, 0, f.payload);
      Step(64, crc, s, f) == AddPage(64, AddPage(64, s.(buff := buff, sent := s.sent + [ACK]), buff[..64]), buff[64..128])
  {
    var buff := Store(s.buff, 0, f.payload);
    assert buff[0..BlockSize] == f.payload;
  }

  /** Pages of half a block: a matching block commits two pages, one after the other. */
  lemma ImageOnSplit(s: Session, payload: seq<byte>, buff: seq<byte>, r: Session, image: seq<byte>)
    requires ImageInvariant(64, s, image) && |payload| == BlockSize && s.buffPos == 0
    requires |buff| == BufferSize && buff[..BlockSize] == payload
    requires r == AddPage(64, AddPage(64, s.(buff := buff, sent := s.sent + [ACK]), buff[..64]), buff[64..128])
    ensures ImageInvariant(64, r, image + payload)
  {
    var s1 := s.(buff := buff, sent := s.sent + [ACK]);
    assert Committed(s1.commits) == image;
    var r1 := AddPage(64, s1, buff[..64]);
    ImageAfterPage(64, s1, buff[..64], image);
    ImageAfterPage(64, r1, buff[64..128], Committed(r1.commits));
    assert buff[..64] + buff[64..128] == payload;
  }

  /** One frame keeps the invariant, adding the payload of a matching block to the image. */
  lemma StepKeepsImage(ps: nat, crc: seq<byte> -> word, s: Session, f: Frame, image: seq<byte>)
    requires SupportedPageSize(ps) && ImageInvariant(ps, s, image)
    requires WellFormedFrame(f) && !f.Cut?
    ensures ImageInvariant(ps, Step(ps, crc, s, f), image + Gain(crc, f))
  {
    if f.Block? {
      if !Matches(crc, f) {
        ImageOnReject(ps, crc, s, f, image);
      } else if s.buffPos + BlockSize < ps {
        ImageOnHold(ps, crc, s, f, image);
      } else if ps == 64 {
        SplitShape(crc, s, f);
        var buff := Store(s.buff, 0, f.payload);
        ImageOnSplit(s, f.payload, buff, Step(ps, crc, s, f), image);
      } else {
        CommitShape(ps, crc, s, f);
        ImageOnCommit(ps, s, f.payload, Step(ps, crc, s, f), image);
      }
    } else {
      assert image + [] == image;
    }
  }

  /**
   * Over any run of whole packets (with an EOT possibly at the end) the
   * invariant holds, and the image grows by exactly the payloads of the
   * accepted blocks: a rejected block adds nothing and a retransmitted one
   * is not stored twice.
   */

  lemma {:induction false} RunKeepsImage(ps: nat, crc: seq<byte> -> word, s: Session, fs: seq<Frame>, image: seq<byte>)
    requires SupportedPageSize(ps) && WellFormed(fs) && WholePackets(fs) && ImageInvariant(ps, s, image)
    ensures ImageInvariant(ps, Run(ps, crc, s, fs), image + Accepted(crc, fs))
    decreases |fs|
  {
    if fs == [] {
      assert image + [] == image;
    } else {
      var f, tail := fs[0], fs[1..];
      WellFormedTail(fs);
      StepKeepsImage(ps, crc, s, f, image);
      RunKeepsImage(ps, crc, Step(ps, crc, s, f), tail, image + Gain(crc, f));
      AppendAssociative(image, Gain(crc, f), Accepted(crc, tail));
    }
  }

  /** The bytes one frame makes the receiver send are its `Reply`. */
  lemma StepSent(ps: nat, crc: seq<byte> -> word, s: Session, f: Frame)
    requires 0 < ps <= BufferSize && AtBoundary(s) && WellFormedFrame(f)
    ensures Step(ps, crc, s, f).sent == s.sent + Reply(crc, f)
  {
    if f.Block? {
      var buff := Store(s.buff, s.buffPos, f.payload);
      assert buff[s.buffPos..s.buffPos + BlockSize] == f.payload;
    } else if f.Cut? {
      assert s.sent + [] == s.sent;
    }
  }

  /**
   * Over any frames, one reply byte goes out per frame that is not cut short
   * (`Reply`), and the transfer is complete exactly when an EOT was read,
   * which can only be the last frame.
   */
  lemma {:induction false} RunReplies(ps: nat, crc: seq<byte> -> word, s: Session, fs: seq<Frame>)
    requires 0 < ps <= BufferSize && WellFormed(fs) && (fs != [] ==> AtBoundary(s))
    ensures Run(ps, crc, s, fs).sent == s.sent + Replies(crc, fs)
    ensures Run(ps, crc, s, fs).complete <==> s.complete || (fs != [] && fs[|fs| - 1].EndOfTransmission?)
    decreases |fs|
  {
    if fs == [] {
      assert s.sent + [] == s.sent;
    } else {
      var f, tail := fs[0], fs[1..];
      WellFormedTail(fs);
      var s' := Step(ps, crc, s, f);
      StepSent(ps, crc, s, f);
      RunReplies(ps, crc, s', tail);
      AppendAssociative(s.sent, Reply(crc, f), Replies(crc, tail));
      if tail != [] {
        assert fs[|fs| - 1] == tail[|tail| - 1];
      }
    }
  }

  /**
   * After the 'C', a transfer sends one reply per frame it read, and it is
   * complete exactly when it read an EOT.
   */
  lemma TransferReplies(ps: nat, crc: seq<byte> -> word, buff0: seq<byte>, input: seq<byte>)
    requires 0 < ps <= BufferSize && |buff0| == BufferSize
    ensures var r, fs := Transfer(ps, crc, buff0, input), Parse(input);
      && r.sent == [CrcRequest] + Replies(crc, fs)
      && (r.complete <==> fs != [] && fs[|fs| - 1].EndOfTransmission?)
  {
    ParseWellFormed(input);
    RunReplies(ps, crc, Start(buff0), Parse(input));
  }

  /**
   * When the input did not end inside a packet, the committed pages
   * (consecutive, from address 0, a whole number of pages) followed by the
   * bytes still in the buffer are the payloads of the accepted blocks, in
   * order: nothing accepted is lost, duplicated or reordered.
   */
  lemma TransferImage(ps: nat, crc: seq<byte> -> word, buff0: seq<byte>, input: seq<byte>)
    requires SupportedPageSize(ps) && |buff0| == BufferSize
    requires WholePackets(Parse(input))
    ensures ImageInvariant(ps, Transfer(ps, crc, buff0, input), Accepted(crc, Parse(input)))
  {
    var fs := Parse(input);
    ParseWellFormed(input);
    assert Committed([]) + buff0[..0] == [];
    RunKeepsImage(ps, crc, Start(buff0), fs, []);
    assert [] + Accepted(crc, fs) == Accepted(crc, fs);
  }

  /** Writing the same stretch of the buffer twice leaves the second write. */
  lemma StoreOver(b: seq<byte>, at: nat, x: seq<byte>, y: seq<byte>)
    requires at + |x| <= |b| && |x| == |y|
    ensures Store(Store(b, at, x), at, y) == Store(b, at, y)
  {
    var once, twice := Store(b, at, y), Store(Store(b, at, x), at, y);
    assert twice == twice[..at] + twice[at..at + |y|] + twice[at + |y|..];
    assert once == once[..at] + once[at..at + |y|] + once[at + |y|..];
  }

  /**
   * A block whose code does not match leaves no trace but its NAK: the next
   * block (typically the sender's retransmission) has exactly the effect it
   * would have had if the rejected block had never arrived.
   */
  lemma RejectedBlockForgotten(ps: nat, crc: seq<byte> -> word, s: Session, bad: Frame, f: Frame)
    requires 0 < ps <= BufferSize && AtBoundary(s)
    requires bad.Block? && WellFormedFrame(bad) && !Matches(crc, bad)
    requires f.Block? && WellFormedFrame(f)
    ensures Step(ps, crc, Step(ps, crc, s, bad), f) == Step(ps, crc, s, f).(sent := s.sent + [NAK] + Reply(crc, f))
  {
    var buff := Store(s.buff, s.buffPos, bad.payload);
    assert buff[s.buffPos..s.buffPos + BlockSize] == bad.payload;
    var s' := Step(ps, crc, s, bad);
    assert s' == s.(buff := buff, sent := s.sent + [NAK]);
    StoreOver(s.buff, s.buffPos, bad.payload, f.payload);
    StepSent(ps, crc, s', f);
    StepSent(ps, crc, s, f);
  }

  /** Two frames that differ at most in the first byte, the block number and its complement. */
  predicate SameButHeader(f: Frame, g: Frame)
  {
    f == g || (f.Block? && g.Block? && f.payload == g.payload && f.crcHigh == g.crcHigh && f.crcLow == g.crcLow)
  }

  /**
   * The receiver checks neither the SOH byte, nor the block number, nor its
   * complement: frames that differ only there lead to the same session.
   */
  lemma {:induction false} HeaderIgnored(ps: nat, crc: seq<byte> -> word, s: Session, fs: seq<Frame>, gs: seq<Frame>)
    requires 0 < ps <= BufferSize && WellFormed(fs) && WellFormed(gs) && (fs != [] ==> AtBoundary(s))
    requires |fs| == |gs| && forall i :: 0 <= i < |fs| ==> SameButHeader(fs[i], gs[i])
    ensures Run(ps, crc, s, fs) == Run(ps, crc, s, gs)
    decreases |fs|
  {
    if fs != [] {
      WellFormedTail(fs);
      WellFormedTail(gs);
      var s' := Step(ps, crc, s, fs[0]);
      assert s' == Step(ps, crc, s, gs[0]);
      assert fs[1..] != [] ==> fs[0].Block?;
      HeaderIgnored(ps, crc, s', fs[1..], gs[1..]);
    }
  }

  /**
   * The packet a sender builds for the `n`-th block (the number goes out
   * modulo 256), with the CRC of the payload, high byte first.
   */
  function Packet(crc: seq<byte> -> word, n: nat, payload: seq<byte>): Frame
  {
    var code := CodeBytes(crc(payload));
    Block(SOH, (n % 0x100) as byte, (0xFF - n % 0x100) as byte, payload, code.0, code.1)
  }

  /** The packets for `payloads`, numbered from `n`, followed by an EOT. */
  function Transmission(crc: seq<byte> -> word, payloads: seq<seq<byte>>, n: nat): seq<Frame>
  {
    if payloads == [] then [EndOfTransmission]
    else [Packet(crc, n, payloads[0])] + Transmission(crc, payloads[1..], n + 1)
  }

  function Concat(payloads: seq<seq<byte>>): seq<byte>
  {
    if payloads == [] then [] else payloads[0] + Concat(payloads[1..])
  }

  predicate AllBlocks(payloads: seq<seq<byte>>)
  {
    forall i :: 0 <= i < |payloads| ==> |payloads[i]| == BlockSize
  }

  /** A clean transmission is well formed: one packet per payload, then EOT. */
  lemma {:induction false} TransmissionShape(crc: seq<byte> -> word, payloads: seq<seq<byte>>, n: nat)
    requires AllBlocks(payloads)
    ensures var fs := Transmission(crc, payloads, n);
      |fs| == |payloads| + 1 && WellFormed(fs) && fs[|fs| - 1].EndOfTransmission?
    decreases |payloads|
  {
    if payloads != [] {
      var fs := Transmission(crc, payloads, n);
      var tail := Transmission(crc, payloads[1..], n + 1);
      TransmissionShape(crc, payloads[1..], n + 1);
      assert fs[1..] == tail;
      forall i | 0 <= i < |fs| ensures WellFormedFrame(fs[i]) && (i < |fs| - 1 ==> fs[i].Block?) {
        if i > 0 {
          assert fs[i] == tail[i - 1];
        }
      }
    }
  }

  /** Every frame of a clean transmission is answered with an ACK. */
  lemma {:induction false} TransmissionReplies(crc: seq<byte> -> word, payloads: seq<seq<byte>>, n: nat)
    requires AllBlocks(payloads)
    ensures Replies(crc, Transmission(crc, payloads, n)) == seq(|payloads| + 1, _ => ACK)
    decreases |payloads|
  {
    var fs := Transmission(crc, payloads, n);
    if payloads == [] {
      assert Replies(crc, fs) == [ACK];
    } else {
      TransmissionReplies(crc, payloads[1..], n + 1);
      assert fs[1..] == Transmission(crc, payloads[1..], n + 1);
      assert Matches(crc, fs[0]);
    }
  }

  /** Every payload of a clean transmission is accepted, in order. */
  lemma {:induction false} TransmissionAccepted(crc: seq<byte> -> word, payloads: seq<seq<byte>>, n: nat)
    requires AllBlocks(payloads)
    ensures Accepted(crc, Transmission(crc, payloads, n)) == Concat(payloads)
    decreases |payloads|
  {
    if payloads != [] {
      var fs := Transmission(crc, payloads, n);
      TransmissionAccepted(crc, payloads[1..], n + 1);
      assert fs[1..] == Transmission(crc, payloads[1..], n + 1);
      assert Matches(crc, fs[0]);
    }
  }

  /**
   * End to end: when a sender transmits 128-byte payloads as packets with
   * their CRCs and then EOT, the receiver completes, answers the 'C' with
   * one ACK per packet and one for the EOT, and the committed pages followed
   * by the buffered bytes are the payloads in order. Anything after the EOT
   * is never read.
   */
  lemma CleanTransfer(ps: nat, crc: seq<byte> -> word, buff0: seq<byte>, payloads: seq<seq<byte>>, after: seq<byte>)
    requires SupportedPageSize(ps) && |buff0| == BufferSize && AllBlocks(payloads)
    ensures var r := Transfer(ps, crc, buff0, WireAll(Transmission(crc, payloads, 1)) + after);
      && r.complete
      && r.sent == [CrcRequest] + seq(|payloads| + 1, _ => ACK)
      && ImageInvariant(ps, r, Concat(payloads))
  {
    var fs := Transmission(crc, payloads, 1);
    TransmissionShape(crc, payloads, 1);
    TransmissionReplies(crc, payloads, 1);
    TransmissionAccepted(crc, payloads, 1);
    var input := WireAll(fs) + after;
    ParseWire(fs, after);
    TransferReplies(ps, crc, buff0, input);
    TransferImage(ps, crc, buff0, input);
  }
}
