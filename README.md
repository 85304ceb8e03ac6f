# AVR XMODEM bootloader: a verified model

`TestBootloader.c` is a serial bootloader for AVR microcontrollers. After the
programming jumper is set, it asks the sender for an XMODEM-CRC transfer by
sending `'C'`. It then receives 128-byte blocks into a 256-byte buffer and checks
each block against its CRC-16. It answers each block with ACK or NAK, and it
writes the buffer to flash one page at a time with `boot_program_page`. The
file also has `transmitHex`, which formats a value as `0x` followed by hex
digits for the UART.

This project models those three pieces of the source in Dafny and proves what
they do.

- `avr.dfy` (module `Avr`): bytes, 16-bit words, SREG and its interrupt flag.
  It also holds the class `Device`, which stands for the self-programming
  hardware behind the avr-libc `boot_*` macros. The device has a real `sreg`
  field and a ghost trace of the steps taken, each step recorded with the
  interrupt flag of that moment. It also has ghost program memory: a map from
  byte address to word, where an address that is not in the map reads as
  erased (0xFFFF). Finally, it has a ghost page write buffer.
- `page_programmer.dfy` (module `PageProgrammer`): `boot_program_page`, written
  as methods with loops over the `buf` array.
- `hex_output.dfy` (module `HexOutput`): `transmitHex`, written as a method
  that fills the 10-character array in place.
- `xmodem.dfy` (module `Xmodem`): the receive protocol at the level of whole
  packets.
  - `Parse` splits the input bytes into the frames the receiver acts on.
  - `Step` is what one frame does to the session: the buffer and
    `curr_buff_pos`, `curr_page_pos`, the bytes sent back, and the pages
    committed.
  - `Transfer` is the whole loop.
  - The theorems about replies, the page cursor and the flashed image are
    stated here.
- `receive_loop.dfy` (module `Bootloader`): the receive loop of `main`, byte by
  byte, over `buff[256]` and the `Device`. `ReceiveImage` is proved to end in
  exactly the session that `Xmodem.Transfer` gives for the same input. Its
  hardware trace is proved to be one `boot_program_page` sequence per
  committed page, in order. The flash is proved to hold the committed bytes
  from address 0, with every word after them untouched.

`calcrc` (from `xmodem.h`) is a parameter `crc: seq<byte> -> word`: any total
function from the stored bytes to a 16-bit value. The UART is a finite input
sequence `input` (each `receiveByte()` takes the next byte) and a returned
sequence `sent` (each `usart_putc` appends a byte). `SPM_PAGESIZE` is the
device's `pageSize`.

The shifts `w += (*buf++) << 8` and `(cksum[0] << 8) | cksum[1]` combine two
bytes whose bits do not overlap. They are written as `lo + hi * 256` and
`high * 256 + low`. The source's 16-bit `int` comparison `crc_recv == crc_calc`
compares 16-bit patterns, and it is modelled as equality of `word` values.

## Model

| member | source | states |
|---|---|---|
| Avr.Word | TestBootloader.c:53-54 | the word built from two consecutive bytes has the first as its low byte and the second as its high byte |
| Avr.ClearInterruptFlag | TestBootloader.c:41 | `cli()` leaves the interrupt flag (bit 7 of SREG) clear and keeps the other seven bits |
| Avr.Device.Cli | TestBootloader.c:41 | SREG becomes SREG with the interrupt flag cleared; nothing else changes |
| Avr.Device.EepromBusyWait | TestBootloader.c:43 | records one EEPROM wait step |
| Avr.Device.BootPageErase | TestBootloader.c:45 | records the erase; every word of the page reads as erased and all other words are kept |
| Avr.Device.BootSpmBusyWait | TestBootloader.c:46 | records one SPM wait step |
| Avr.Device.BootPageFill | TestBootloader.c:56 | records the fill and stages the word at its address in the page write buffer |
| Avr.Device.BootPageWrite | TestBootloader.c:59 | records the write; the staged words of the page are programmed and the write buffer is emptied |
| Avr.Device.BootRwwEnable | TestBootloader.c:65 | records the read-while-write enable step |
| PageProgrammer.Fills | TestBootloader.c:49-57 | the fill loop over `n` words makes exactly `n` fills |
| PageProgrammer.ProgramTrace | TestBootloader.c:40-69 | a page of `2n` bytes takes `n + 6` steps: one fill per word and the six fixed steps around the fills |
| PageProgrammer.FillsAt | TestBootloader.c:49-57 | fill `j` stages the little-endian word of bytes `2j` and `2j+1` at `page + 2j` |
| PageProgrammer.ProgramTraceOrder | TestBootloader.c:40-69 | the steps are, in order: EEPROM wait, erase of `page`, SPM wait, one fill per word of the page, write of `page`, SPM wait, RWW enable; all of them run with interrupts disabled |
| PageProgrammer.FillPage | TestBootloader.c:49-57 | the fill loop reads exactly `buf[from..from+SPM_PAGESIZE]` and performs the page's fills in order; every word of the page is staged as the little-endian word of its two bytes |
| PageProgrammer.ProgramPage | TestBootloader.c:33-70 | SREG is restored to its value on entry; the trace grows by exactly `ProgramTrace(page, buf[from..from+SPM_PAGESIZE])`; every word of the page reads back as its two bytes, little-endian; no word outside the page changes |
| HexOutput.HexDigit | TestBootloader.c:84-86 | the character written for a value below 16 is an upper-case hex digit that reads back as that value |
| HexOutput.Digits | TestBootloader.c:82-89 | the loop writes exactly `n` characters, each an upper-case hex digit |
| HexOutput.HexValueBound | TestBootloader.c:82-89 | `n` hex digits express only values below 16^n |
| HexOutput.HexValueInjective | TestBootloader.c:82-89 | two digit strings of the same length with the same value are equal, so the digits are determined by the value |
| HexOutput.DigitsValue | TestBootloader.c:82-89 | the `n` digits written, most significant first, read back as `data` modulo 16^n, which is its low `4n` bits |
| HexOutput.DigitsRoundTrip | TestBootloader.c:82-89 | a value below 16^n reads back exactly from its `n` digits |
| HexOutput.TransmitHex | TestBootloader.c:73-92 | the 10 characters are "0x", then the 2, 4 or 8 (for CHAR, INT, LONG) low hex digits of `data`, most significant first, then spaces up to the end |
| Xmodem.ReceivedCode | TestBootloader.c:214-216 | the received code has `cksum[0]` as its high byte and `cksum[1]` as its low byte |
| Xmodem.CodeBytes | TestBootloader.c:209-216 | the two wire bytes of a sender's code are read back as that code |
| Xmodem.Wire | TestBootloader.c:189-211 | a whole packet takes exactly 133 bytes on the wire |
| Xmodem.Parse | TestBootloader.c:186-211 | the input is read as frames: no frame exactly when the input is empty, and never more frames than bytes |
| Xmodem.PacketFrame | TestBootloader.c:196-211 | a packet whose first byte is not EOT is a well-formed frame; it is a whole packet exactly when at least 133 bytes remain, and a cut-off packet otherwise |
| Xmodem.CutPayload | TestBootloader.c:202-207 | a packet cut off by the end of the input yields at most 128 payload bytes |
| Xmodem.ParseWellFormed | TestBootloader.c:186-211 | whatever the input, every frame read is an EOT, a whole packet (a first byte other than EOT plus 2 + 128 + 2 bytes), or a packet cut off at the end of the input, and only the last frame can be anything but a whole packet |
| Xmodem.ParseConsumes | TestBootloader.c:186-211 | the frames read cover the input from the start; they cover all of it unless the last frame is an EOT, after which nothing more is read |
| Xmodem.ParseBlock | TestBootloader.c:196-211 | a whole packet on the wire is read back as that packet, and reading continues right after it |
| Xmodem.ParseWire | TestBootloader.c:186-211 | reading back what a sender puts on the wire gives its frames again, and anything after an EOT is never read |
| Xmodem.Store | TestBootloader.c:202-207 | storing bytes at the write offset replaces exactly that stretch of the buffer and keeps the bytes before and after it |
| Xmodem.Pages | TestBootloader.c:224-237 | a full buffer commits one page, or two for pages smaller than a block; the first starts at the cursor, the last ends where the cursor moves to, and together they hold exactly the first `PageAdvance` bytes of the buffer |
| Xmodem.PageAdvance | TestBootloader.c:229-234 | the page cursor moves by at least one page, and for pages up to 256 bytes by at most 256 |
| Xmodem.AcceptShape | TestBootloader.c:221-241 | a matching block that reaches a page stores its payload, commits `Pages` of the buffer at the cursor, moves the cursor by `PageAdvance`, resets the write offset and sends ACK |
| Xmodem.CutStep | TestBootloader.c:202-207 | a packet cut off by the end of the input stores what arrived of its payload at the write offset and changes nothing else |
| Xmodem.Step | TestBootloader.c:189-250 | the session is complete after a frame exactly when it was before or the frame is an EOT; after any frame that is not cut short, the write offset is 0 or 128 again |
| Xmodem.StepReply | TestBootloader.c:191-195 | EOT gets one ACK; a cut-off packet gets no reply; a whole packet gets exactly one byte, which is ACK exactly when the received code equals the CRC of the 128 bytes just stored, and NAK otherwise |
| Xmodem.StepCommits | TestBootloader.c:221-250 | pages are only appended, at most two per block; the page cursor advances by SPM_PAGESIZE per page committed; a rejected block commits nothing and leaves both the page cursor and the write offset as they were before the block |
| Xmodem.Run | TestBootloader.c:186-253 | over any frames, bytes are only ever appended to those sent and pages only ever appended to those committed, and a complete session stays complete |
| Xmodem.Resume | TestBootloader.c:186-253 | the same from any point between packets; with no input left the session is unchanged |
| Xmodem.Transfer | TestBootloader.c:179-253 | the first byte sent is 'C'; with no input, nothing else is sent, nothing is committed and the transfer is not complete |
| Xmodem.ResumeStep | TestBootloader.c:186-253 | from any point between packets, the rest of the transfer is the next frame (EOT, cut-off packet or whole packet) followed by the transfer from the bytes after it |
| Xmodem.CommittedAppend | TestBootloader.c:227-234 | committing a page appends its bytes to the committed image |
| Xmodem.PagesAppend | TestBootloader.c:227-234 | a page committed at the cursor `k * SPM_PAGESIZE` keeps the pages consecutive from address 0 |
| Xmodem.ImageOnReject | TestBootloader.c:244-250 | for any SPM_PAGESIZE up to 256, a rejected block keeps the image invariant with the same image |
| Xmodem.ImageOnHold | TestBootloader.c:221-242 | for any SPM_PAGESIZE up to 256, a matching block that does not fill a page stays in the buffer and is added to the image |
| Xmodem.ImageAfterPage | TestBootloader.c:224-238 | committing one page at the cursor keeps the pages consecutive and the cursor a whole number of pages, and the committed image grows by exactly that page |
| Xmodem.CommitShape | TestBootloader.c:221-241 | for pages of 128 or 256 bytes, the matching block that fills a page commits `buff[0..SPM_PAGESIZE]` at the cursor, advances it by a page, resets the write offset and sends ACK |
| Xmodem.ImageOnCommit | TestBootloader.c:224-238 | for pages of 128 or 256 bytes, that commit keeps the image invariant with the block's payload added |
| Xmodem.SplitShape | TestBootloader.c:224-237 | for 64-byte pages, a matching block commits `buff[0..64]` and then `buff[64..128]`, each at the cursor, which moves on a page each time |
| Xmodem.ImageOnSplit | TestBootloader.c:224-237 | for 64-byte pages, the two commits keep the image invariant with the block's payload added |
| Xmodem.StepKeepsImage | TestBootloader.c:202-250 | for SPM_PAGESIZE of 64, 128 or 256, one frame keeps the image invariant, adding the payload of a matching block to the image and nothing otherwise |
| Xmodem.RunKeepsImage | TestBootloader.c:186-253 | for SPM_PAGESIZE of 64, 128 or 256, over any run of whole packets, the committed pages followed by the buffered bytes are exactly the payloads of the accepted blocks, in order |
| Xmodem.SmallPagesDropBytes | TestBootloader.c:224-237 | for SPM_PAGESIZE below 64, an accepted block commits only its first `2 * SPM_PAGESIZE` bytes and the write offset returns to 0, so the rest of the acknowledged payload is lost |
| Xmodem.MidPagesProgramStaleBytes | TestBootloader.c:224-235 | for SPM_PAGESIZE between 65 and 127, an accepted block at offset 0 commits a second page ending in `buff[128..2 * SPM_PAGESIZE]`, bytes that were not received in that block |
| Xmodem.LargePagesDropBytes | TestBootloader.c:224-237 | for SPM_PAGESIZE between 129 and 255, the block that fills a page commits `buff[0..SPM_PAGESIZE]` and the write offset returns to 0, so the last `256 - SPM_PAGESIZE` bytes of its payload are lost |
| Xmodem.StepSent | TestBootloader.c:191-250 | the bytes one frame makes the receiver send are exactly its reply |
| Xmodem.RunReplies | TestBootloader.c:186-253 | over any frames, the bytes sent are one reply per frame, and the session completes exactly when the last frame read is an EOT |
| Xmodem.TransferReplies | TestBootloader.c:179-253 | a transfer sends 'C' followed by one reply per frame read, and it is complete exactly when it read an EOT |
| Xmodem.TransferImage | TestBootloader.c:179-253 | for SPM_PAGESIZE of 64, 128 or 256, when the input does not end inside a packet, the pages are committed consecutively from address 0, the page cursor is a whole number of pages, and the committed bytes followed by the buffered bytes are the accepted payloads in order |
| Xmodem.StoreOver | TestBootloader.c:202-207 | storing twice over the same stretch of the buffer leaves only the second write |
| Xmodem.RejectedBlockForgotten | TestBootloader.c:244-250 | after a rejected block, the next block has exactly the effect it would have had without it; the only difference is the extra NAK |
| Xmodem.HeaderIgnored | TestBootloader.c:189-199 | frames that differ only in the first byte, the block number or its complement lead to the same session: none of them is checked |
| Xmodem.TransmissionShape | TestBootloader.c:189-211 | a sender's packets for 128-byte payloads, followed by EOT, are well-formed frames |
| Xmodem.TransmissionReplies | TestBootloader.c:221-243 | each of those frames is answered with an ACK |
| Xmodem.TransmissionAccepted | TestBootloader.c:221-243 | every payload of such a transmission is accepted, in order |
| Xmodem.CleanTransfer | TestBootloader.c:179-253 | for SPM_PAGESIZE of 64, 128 or 256 and a clean transmission, the receiver completes, answers 'C' followed by one ACK per packet and one for EOT, and the committed pages followed by the buffered bytes are the payloads in order, whatever follows the EOT |
| Bootloader.FlashedAppend | TestBootloader.c:227-234 | programming the page right after the image, leaving every other word alone, extends the flashed image by that page |
| Bootloader.ProgrammedAppend | TestBootloader.c:227-234 | one more page programmed in sequence keeps the trace equal to the per-page sequences and the flash equal to the committed image |
| Bootloader.ProgramNext | TestBootloader.c:227-229 | `boot_program_page(curr_page_pos, &buff[from])`: SREG is unchanged, the trace grows by one page sequence, the flash image grows by `buff[from..from+SPM_PAGESIZE]`, and the cursor moves on by a page |
| Bootloader.CommitPage | TestBootloader.c:227-234 | programs one page and records it as committed at the cursor |
| Bootloader.CommitTwoPages | TestBootloader.c:227-235 | for pages smaller than a block: `buff[0..ps]` at the cursor, then `buff[ps..2ps]` at the cursor plus one page |
| Bootloader.CommitBuffer | TestBootloader.c:224-238 | the pages committed from a full buffer are exactly `Xmodem.Pages`, the cursor advances by one page for each of them, and the hardware state is the committed image |
| Bootloader.ReceivePayload | TestBootloader.c:202-207 | the payload loop reads `min(128, remaining)` bytes, stores them at the write offset, advances the offset by that many, and leaves the rest of `buff` unchanged |
| Bootloader.CheckBlock | TestBootloader.c:209-250 | the CRC check and what follows it end in exactly the session `Xmodem.Step` gives for the block |
| Bootloader.ReceivePacket | TestBootloader.c:196-252 | a packet whose first byte is not EOT is read as 2 + 128 + 2 more bytes (or up to the end of the input), and the session afterwards is `Xmodem.Step` of that frame |
| Bootloader.ReceiveImage | TestBootloader.c:179-253 | the receive loop ends in exactly `Xmodem.Transfer` of its input; SREG is as on entry; the trace is one page-programming sequence per committed page, in order; the flash holds the committed bytes from address 0 and every word after them is unchanged |

## Left out

- The UART primitives (`usart_putc`, `uart_puts`, `receiveByte`, `init`) are busy-waits on device registers. They are modelled only as appending to `sent` and taking the next byte of `input`.
- Sampling the jumper, the settle and debounce delays, `app_start()` and the closing status message are not modelled. They are control transfer, timing and cosmetic output.
- `calcrc` is a parameter. `xmodem.h` is not part of this model, so its CRC algorithm is not modelled.
- The register-level behaviour of the avr-libc `boot_*` macros, `eeprom_busy_wait` and `cli` is not modelled. Each macro is an abstract step on `Device`.
- The unused `packetnumber` counter and the status strings are left out.
- Bootloader.ReceiveImage: on a link that falls silent, the source waits forever for the next byte. The model stops at the end of `input`. The bytes of a packet cut off there are still stored.
- Bootloader.ReceiveImage: `curr_page_pos` is an unbounded `nat`. The source's 16-bit `int` would overflow after 32 KiB of image.
- Bootloader.ReceiveImage requires `SPM_PAGESIZE <= 256`. With larger pages the source writes past `buff[256]`, because the write offset reaches 256 before a page is full.
- Xmodem.TransferImage, Xmodem.RunKeepsImage, Xmodem.StepKeepsImage and Xmodem.CleanTransfer are proved only for SPM_PAGESIZE of 64, 128 or 256, because for other page sizes the image invariant does not hold. Below 64 bytes (`Xmodem.SmallPagesDropBytes`) and between 129 and 255 bytes (`Xmodem.LargePagesDropBytes`), the source commits only part of an acknowledged block and drops the rest. Between 65 and 127 bytes (`Xmodem.MidPagesProgramStaleBytes`), the second page it programs ends in `buff[128..2 * SPM_PAGESIZE]`, bytes that were not received in that block. For any page size up to 256, the write offset still stays 0 or 128 between packets.
- PageProgrammer.ProgramPage treats `page` as the first byte address of a page. The receive loop only passes `curr_page_pos`, which is always a multiple of SPM_PAGESIZE. What the hardware does with an address inside a page is not modelled.
- HexOutput.TransmitHex requires `dataType` to be CHAR, INT or LONG. For any other value the source reads `count` uninitialised.
- HexOutput.TransmitHex: the final `uart_puts` is modelled as returning the 10 characters of the buffer, which is what it sends up to the terminating NUL.
