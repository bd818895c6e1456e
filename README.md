# LeetCmd — a Dafny model of the display logic

LeetCmd (`leetcmd.c`) drives the e-ink display of a WD My Book external
drive through SCSI commands. It runs in this order:

- It reads the Disable VCD flag (mode page 0x20) and the Inverse Display
  flag (mode page 0x21). If the command line asks for a different value,
  it changes the bit and writes the page back.
- It reads the twelve-character label (diagnostic page 0x87) and prints it
  as 5 × 72 ASCII art. A new label, given as text (`-l`) or as raw 14-bit
  segment masks in hex (`-L`), is encoded and sent.
- When a path is given, it draws the free space of that file system on
  diagnostic page 0x86: a ten-segment bar, three digits with an optional
  decimal point, a GB/TB unit and a FREE mark.

The model keeps the program's own structure:

- **`Pages`** (`pages.dfy`): `check_mode_page`, `check_diag_page`,
  `get_bit` and `set_bit`. The checks are functions. `SetBit` is a method
  that changes a byte array in place.
- **`Glyphs`** (`glyphs.dfy`): the glyph table `LABEL_ASCII_CHARS`,
  `get_label_char`, and the segment-to-cell table `segment_mappings`.
- **`LabelCodec`** (`label.dfy`): the label checks and encoders that `main`
  runs before the device is opened.
  - Text labels are rejected when too long or when a character is
    unsupported.
  - Raw labels are rejected when too long, when the length is not a
    multiple of 4, when a group is not hex, or when a value is out of
    range.
  - `strtol` with base 16 is modelled exactly as the C library does it:
    leading white space, an optional sign, an optional `0x`, and the end
    pointer.
  - Both loops are methods over a local array, proved equal to the
    specification functions `TextLabel` and `RawLabel`.
- **`Render`** (`render.dfy`): `print_label`, as a method that fills a
  5 × 72 character array and returns the printed lines. It is proved equal
  to the picture function `RenderedLabel`.
- **`Handlers`** (`handlers.dfy`): `handle_mode_page_flag_value` and
  `handle_label_value`.
  - Each handler is a method that works on a local copy of the buffer.
  - The transport is a pair of parameters: the bytes read (`None` when the
    read fails) and whether the write succeeds.
  - Each handler returns the exit status and the buffer written. The label
    handler also returns the labels it prints.
- **`FreeSpace`** (`freespace.dfy`) and **`FreeSpaceDisplay`**
  (`display.dfy`): `set_free_space`. It runs in phases: clear the known
  bits, build the bar, write the digits and point, then the units.
  - The floating-point arithmetic that finds the bar length, the unit and
    the displayed value is replaced by an input `Reading`.
  - `FreeSpaceDisplay` decodes the page that is sent back into what the
    display shows, and proves the round trip.
- **`Session`** (`session.dfy`): `main`'s order of handlers, and its exit
  status.

Bytes are `bv8` and segment masks are `bv16`. C's shifts, masks and
`uint8_t` truncations are written out.

## Model

| member | source | states |
|---|---|---|
| Pages.CheckModePage | leetcmd.c:220-248 | returns 0 or 1. 0 exactly when the mode data length is len + 5, there are no block descriptors, SPF is clear, the page code matches and the page length is len |
| Pages.ModePageAcceptedIffWellFormed | leetcmd.c:220-248 | a mode page is accepted exactly when its six header bytes are the well-formed header for page and len, whatever the medium type, device-specific byte and PS bit |
| Pages.ModePageUnrepresentableRejected | leetcmd.c:220-248 | a page code of 0x40 or more, or a payload longer than 250 bytes, is never accepted |
| Pages.CheckDiagPage | leetcmd.c:251-264 | returns 0 or 1. 0 exactly when the page code matches and the big-endian 16-bit page length equals len |
| Pages.DiagPageAcceptedIffWellFormed | leetcmd.c:251-264 | a diagnostic page is accepted exactly when its header is the well-formed header; a length of 0x10000 or more is always rejected |
| Pages.GetBit | leetcmd.c:267-270 | returns 0 or 1, and 1 exactly when the bit is set |
| Pages.WithBit | leetcmd.c:273-279 | the bit holds the requested value and every other bit of the byte is unchanged |
| Pages.WithBitOtherBit | leetcmd.c:273-279 | each bit other than the one chosen keeps its value |
| Pages.WithBitIdempotent | leetcmd.c:273-279 | writing the value a bit already has changes nothing, and writing twice equals writing once |
| Pages.SetBit | leetcmd.c:273-279 | only byte offset changes, to WithBit of its old value; get_bit then reads back value != 0 |
| Glyphs.LabelAsciiCharsShape | leetcmd.c:93-203 | the table has one mask for each of the 95 characters 0x20..0x7E, and every mask fits in 14 bits |
| Glyphs.GetLabelChar | leetcmd.c:411-416 | -1 exactly for characters outside 0x20..0x7E; otherwise a 14-bit mask |
| Glyphs.LowerCaseAsUpperCase | leetcmd.c:133-203 | each lower-case letter has the glyph of its upper-case letter |
| Glyphs.SharedGlyphs | leetcmd.c:96-203 | the pairs the table marks "equal to" share a glyph, and space is blank |
| Glyphs.SegmentMappingsShape | leetcmd.c:59-81 | there are fourteen segments, each drawn inside rows 0-4 and columns 0-4 of its cell |
| Glyphs.SegmentAtCovers | leetcmd.c:59-81 | every character of every segment fragment is a cell of the picture, with that segment and character |
| Glyphs.SegmentAtDrawn | leetcmd.c:59-81 | every filled cell of the picture belongs to the fragment of its segment |
| LabelCodec.SlotMaskValue | leetcmd.c:386 | a slot's mask is the big-endian value of its two bytes |
| LabelCodec.ValueBytes | leetcmd.c:714-715 | `(value >> 8) & 0xFF` and `value & 0xFF` hold the low 16 bits of value, high byte first |
| LabelCodec.StoreSlot | leetcmd.c:714-715 | writes exactly bytes 2i and 2i+1 of the buffer |
| LabelCodec.SlotOfEncoded | leetcmd.c:627-628 | slot i of an encoded label holds value i modulo 2^16, or 0 past the last value |
| LabelCodec.DecodeEncodeSlots | leetcmd.c:627-628 | decoding an encoded label gives back every value that fits 16 bits; the other slots are 0 |
| LabelCodec.EncodeNoSlots | leetcmd.c:627-628 | encoding no values gives the zeroed buffer |
| LabelCodec.EncodeSlotsAppend | leetcmd.c:714-715 | storing one more value writes exactly the next two bytes |
| LabelCodec.FirstUnsupportedFrom | leetcmd.c:705-713 | None exactly when every character from `from` on has a glyph; otherwise the first index without one |
| LabelCodec.TextLabelMeaning | leetcmd.c:695-717 | a text is accepted exactly when it has at most 12 characters, all with glyphs. The label holds their glyphs in order, then zeros. The errors are "too long" with the length, and the first unsupported character with its offset |
| LabelCodec.TextLabelOfPrefix | leetcmd.c:705-716 | the loop's state after i characters decides the result: the error at i, or the label at the end |
| LabelCodec.EncodeTextLabel | leetcmd.c:695-717 | the text-label loop over a zeroed buffer produces TextLabel(text) |
| LabelCodec.SkipHexDigits | leetcmd.c:740 | stops at the first character that is not a hex digit |
| LabelCodec.HexValue | leetcmd.c:740 | the value of n hex digits is below 16^n |
| LabelCodec.Strtol16 | leetcmd.c:740 | strtol never reports an end pointer beyond the string |
| LabelCodec.StrtolOfHexDigits | leetcmd.c:740 | four hex digits are read as their value, and the end pointer is the terminator |
| LabelCodec.StrtolMinusOne | leetcmd.c:740 | strtol reads "-001" as -1 and consumes all four characters |
| LabelCodec.RawLabelAsWrittenAcceptsNegative | leetcmd.c:740-751 | as written, "-001" is accepted and stores the mask 0xFFFF; the corrected check refuses it |
| LabelCodec.RawGroup | leetcmd.c:737-748 | an accepted group's value is at most 0x3FFF, and not negative under the corrected check; a refused group reports NotHex or InvalidMask with its own index |
| LabelCodec.RawLabelAsWritten | leetcmd.c:719-753 | the raw-label part as written gives a 24-byte label when it accepts, and agrees with the corrected check wherever that one accepts |
| LabelCodec.AsWrittenAcceptsMore | leetcmd.c:737-748 | every prefix of groups the corrected check accepts is accepted as written, with the same masks |
| LabelCodec.RawMasks | leetcmd.c:737-752 | an accepted prefix of n groups gives n masks |
| LabelCodec.RawMasksFirstError | leetcmd.c:737-748 | once a group is refused, every longer prefix reports that same group |
| LabelCodec.RawMasksFit | leetcmd.c:745-748 | every group accepted by the corrected check fits 14 bits |
| LabelCodec.RawLabelMeaning | leetcmd.c:719-753 | too long (more than 48 characters) and a length not a multiple of 4 are refused with the length. An accepted label holds the groups' values big-endian, then zeros. Conversely, a label of at most 48 characters, a multiple of 4, whose every group is accepted, is accepted |
| LabelCodec.AllGroupsAccepted | leetcmd.c:719-753 | a label within the length limit, a multiple of 4, whose every group passes, is accepted |
| LabelCodec.PlainHexGroup | leetcmd.c:738-748 | a group of four plain hex digits is accepted exactly when its value is at most 0x3FFF, and gives that value |
| LabelCodec.RawMasksStep | leetcmd.c:737-752 | one more group extends the accepted prefix, or reports its own error |
| LabelCodec.RawLabelOfMasks | leetcmd.c:737-753 | the raw label is the encoding of the accepted masks, or the first error |
| LabelCodec.StoreGroup | leetcmd.c:737-751 | one pass of the loop: an accepted group extends the masks and the buffer by its slot; a refused one reports its error and leaves the buffer unchanged |
| LabelCodec.StoreGroups | leetcmd.c:737-752 | the loop gives RawMasks(hex, n) and, when every group is accepted, leaves their encoding in the buffer |
| LabelCodec.EncodeRawLabel | leetcmd.c:719-753 | the raw-label loop produces RawLabel(hex), with the range check on both sides |
| LabelCodec.LabelChoice | leetcmd.c:690-753 | a chosen label is always 24 bytes (raw groups checked with the corrected range, see Findings) |
| LabelCodec.LabelOptions | leetcmd.c:690-753 | both options together are refused. Otherwise the text or raw encoding is used, or there is no new label; any label is 24 bytes |
| Render.GlyphChar | leetcmd.c:394-399 | every cell is one of blank, `-`, `\|`, `/`, `\` |
| Render.TermOffset | leetcmd.c:384-401 | 0 exactly when every slot is blank; otherwise it sits five columns into the cell of the last non-blank slot; always inside a line |
| Render.RenderedLabel | leetcmd.c:375-408 | five lines, each cut at the terminator |
| Render.CString | leetcmd.c:406 | `%s` prints the prefix up to the first NUL, and no NUL |
| Render.GlyphShowsSegment | leetcmd.c:394-399 | each character of segment j's fragment shows exactly when bit j of the mask is set |
| Render.GlyphFromSegment | leetcmd.c:394-399 | a cell that is not blank comes from a set segment whose fragment has that character there |
| Render.BlankSlotDrawsNothing | leetcmd.c:388-390 | a zero mask draws an empty cell |
| Render.HighBitsDrawNothing | leetcmd.c:394 | bits 14 and 15 of a mask draw nothing |
| Render.HighBitsOnlyStillCount | leetcmd.c:386-400 | a slot holding only bits 14-15 draws nothing, but still moves the terminator past it |
| Render.TermOffsetLast | leetcmd.c:400 | the terminator follows the last non-blank slot |
| Render.TextLabelWidth | leetcmd.c:400 | an accepted text label ends its lines inside the cells of its own characters |
| Render.BlankLabelPrintsEmptyLines | leetcmd.c:384 | an all-blank label prints five empty lines |
| Render.DrawSlot | leetcmd.c:393-399 | the segment loop for slot i takes the picture from the first i slots drawn to the first i + 1 |
| Render.CopyText | leetcmd.c:397 | memcpy of a fragment changes exactly its cells |
| Render.PrintLabel | leetcmd.c:375-408 | the printed lines are RenderedLabel(data) |
| Render.CStringPrefix | leetcmd.c:406 | `%s` prints exactly the characters before the first NUL |
| Render.PrintLine | leetcmd.c:404-406 | setting the terminator of line r prints RenderedLabel(data)[r]; that line's buffer then holds the picture with a NUL at the terminator offset, and no other line changes |
| Render.PrintLines | leetcmd.c:404-407 | setting the terminators and printing gives RenderedLabel(data); afterwards every line buffer holds the picture with a NUL at the terminator offset |
| Render.TextLabelRendered | leetcmd.c:375-408 | for an accepted text label, every printed cell lies in the cell of some character of the text and is that character's glyph cell |
| Handlers.HandleModePageFlagValue | leetcmd.c:326-372 | the handler's status and the buffer it selects are FlagUpdate's |
| Handlers.FlagSelectedIff | leetcmd.c:334-371 | MODE SELECT happens exactly when the page was read, passes the check, a value is asked for and the flag differs. Status 0 exactly when the page was read and checked and any write succeeded |
| Handlers.FlagWrittenShape | leetcmd.c:350-354 | the buffer written differs from the one read only in PS (cleared) and in the flag bit (the new value), and is still a well-formed mode page |
| Handlers.FlagSettles | leetcmd.c:348-369 | asking for the current value writes nothing; after a write, asking again writes nothing and succeeds |
| Handlers.FlagShowOnly | leetcmd.c:350 | without a requested value the handler never writes |
| Handlers.LabelOf | leetcmd.c:421-423 | the label bytes are the 24 bytes after the 4-byte header and 8 bytes of page data |
| Handlers.CopyBytes | leetcmd.c:453 | memcpy replaces exactly the bytes at..at+\|src\| |
| Handlers.HandleLabelValue | leetcmd.c:419-470 | the handler's status, the page sent and the labels printed are LabelUpdate's |
| Handlers.LabelSentIff | leetcmd.c:428-467 | SEND DIAGNOSTIC happens exactly when the page was read, is well formed, and a different new label was given. The page sent is the page read with the new label in place. Status 0 exactly when the page was read and checked and any send succeeded |
| Handlers.LabelShown | leetcmd.c:442-456 | the current label is always printed once the page is read; the new one is printed too when it is written |
| Handlers.LabelSettles | leetcmd.c:449-453 | after sending a label, handling the same label again on the page sent writes nothing |
| FreeSpace.BarBits | leetcmd.c:505-507 | with n segments in use, exactly bits 10-n..9 of segments_raw are set |
| FreeSpace.BarStep | leetcmd.c:506-507 | one more pass of the loop sets the next lower bit |
| FreeSpace.BarNone | leetcmd.c:506 | no segment in use gives 0 |
| FreeSpace.BarFits | leetcmd.c:505-507 | the bar uses the ten low bits only |
| FreeSpace.DecimalString | leetcmd.c:538 | the decimal representation is made of digits |
| FreeSpace.Format3dDigits | leetcmd.c:538-543 | "%3d" of 10..999 is three characters: a blank or the hundreds digit, then the tens and ones digits |
| FreeSpace.FormatHundredths | leetcmd.c:545 | the hundredths form is four characters d.dd: digits around the point, whose values make up h |
| FreeSpace.ResetKnownBits | leetcmd.c:489-497 | clears the known bits exactly as Reset describes |
| FreeSpace.SegmentsRaw | leetcmd.c:505-507 | the loop computes Bar(segmentsUsed) |
| FreeSpace.DrawBar | leetcmd.c:509-514 | turns the frame on and writes the bar, as BarPage describes |
| FreeSpace.DrawDigits | leetcmd.c:553-557 | ORs in the digit codes and sets the decimal point, as DigitsPage describes |
| FreeSpace.DrawUnits | leetcmd.c:559-563 | sets the unit and FREE marks, as UnitsPage describes |
| FreeSpace.SetFreeSpace | leetcmd.c:473-582 | status and page sent are FreeSpaceUpdate's: no send when the read fails or the value is too large; otherwise the drawn page |
| FreeSpaceDisplay.ResetCleared | leetcmd.c:489-497 | after the reset every known bit is clear |
| FreeSpaceDisplay.ClearedShowsNothing | leetcmd.c:566-568 | with no total size, the page sent shows no frame, no bar, no digits, no point, no unit and no FREE mark |
| FreeSpaceDisplay.ShownCodesAre | leetcmd.c:536-551 | the digit codes are the expected digits. No hundreds digit when a whole value is below 100; the point only for hundredths; every digit is 0-9 |
| FreeSpaceDisplay.DigitPositionShows | leetcmd.c:553-555 | a code ORed into a cleared digit position reads back as the digit it was built for |
| FreeSpaceDisplay.BarRoundTrip | leetcmd.c:513-514 | splitting the bar over page_data[6] and bits 6-7 of page_data[7] loses nothing |
| FreeSpaceDisplay.UnitsShow | leetcmd.c:559-563 | exactly one of TB and GB is on, matching tb_mode, and FREE is on |
| FreeSpaceDisplay.PointShows | leetcmd.c:556-557 | the decimal point is on exactly when it is set, and nothing else in the byte changes |
| FreeSpaceDisplay.DisplayOfDrawn | leetcmd.c:509-563 | drawing on a reset page shows the frame, that bar, those digits and point, one unit and FREE |
| FreeSpaceDisplay.MeasuredShows | leetcmd.c:499-563 | a displayable reading is sent, and the page shows the frame, Bar(segments_used), the expected digits, the point for hundredths, the right unit and FREE |
| FreeSpaceDisplay.KeepsUnknownBits | leetcmd.c:489-563 | the page sent equals the page read on every bit the program gives no meaning to |
| FreeSpaceDisplay.ResetKeeps | leetcmd.c:489-497 | the reset touches only bits with a known meaning |
| FreeSpaceDisplay.NoHeaderCheck | leetcmd.c:481-485 | the page read is not checked: any header is accepted and sent back unchanged. Only a too-large value stops the send |
| Session.Run | leetcmd.c:688-810 | main's exit status is 0 or 1 |
| Session.LabelRefusedBeforeDevice | leetcmd.c:690-753 | a refused label option ends the run with status 1 and no write, whatever the device would answer |
| Session.ShowOnlyWritesNothing | leetcmd.c:778-810 | with no flag, label or path, nothing is written. Status 0 exactly when the device is ready and the three pages are read and pass their checks |

## Left out

- Transport and system calls are parameters, not modelled. This covers the
  `sg_*` SCSI transport, `statvfs`, `check_device`, and opening and closing
  the device. Each handler takes the bytes read (`None` when the read
  fails) and a flag for whether the write succeeds. `Session` collapses the
  argument count, `statvfs`, device open and `check_device` into one
  `ready` flag.
- Output that does not affect the device is not modelled: `printf`,
  `dump_data`, verbose output, `usage` and `getopt`. `print_label` returns
  its lines instead of printing them. The line "Free space: …" and the
  error messages are not modelled; only the exit status is.
- The floating-point arithmetic of `set_free_space` is not modelled.
  `Reading` gives its results directly: `segments_used`, `tb_mode`, and
  the displayed value as `Whole(10..999)`, `Hundredths(0..999)` or
  `TooLarge`. As a result:
  - The rounding `(int)(x + 0.5)` and the division by the size unit are not
    modelled.
  - For `"%4f.2"`, the model takes the hundredths value as the first two
    decimals that `%f` prints after its own rounding, truncated by
    `snprintf` into five bytes.
  - `-k` (1000 versus 1024) only enters through the reading.
  - Values for which `displayed_space` lies in [9.9999995, 10) are not
    modelled. There the branch for values below 10 is taken, but `"%4f.2"`
    prints "10.0": the digit codes become 0x81, 0xFE and 0x80. ORing 0xFE
    into `page_data[13]` sets bits 0x70, which the program otherwise leaves
    alone, so the display is garbled. `Shown` cannot express this input,
    and `FreeSpaceDisplay.KeepsUnknownBits` and
    `FreeSpaceDisplay.MeasuredShows` hold only for the readings `Shown`
    can express. Such values occur when the free space lies just below
    10 GB or 10 TB.
- Text and raw labels are `string`s of characters, not `char` bytes.
  `strlen` counts bytes where the model counts characters. They can differ
  only for non-ASCII input, which both reject. For a text label the
  reported offset may differ. For a raw label the reported error may
  differ: a length error in one against NotHex in the other. The
  signed `char` comparison in `get_label_char` is modelled as the code
  point being outside 0x20..0x7E.
- Pages.GetBit, Pages.SetBit: require bit < 8. The program only calls
  them with bit 7 or less. For bits 8 to 30, get_bit would return 0 and
  set_bit would leave the byte unchanged; the model does not cover those.
- LabelCodec.LabelChoice, LabelCodec.LabelOptions, Session.Run: model
  main with the corrected raw range check. They refuse a negative group
  such as `-001`, which the program as written accepts (see Findings,
  `LabelCodec.RawLabelAsWrittenAcceptsNegative`).
- A short read is not modelled: each handler requires its buffer to
  arrive at its full size (`DeviceFits`).

## Findings

| source | as written | input that shows it | evidently intended | confidence | as-written member | corrected member |
|---|---|---|---|---|---|---|
| leetcmd.c:740-745 | only `value > 0x3FFF` is refused, so a negative value from `strtol` passes | `-L -001`: strtol gives -1 and consumes all four characters; slot 0 is stored as 0xFFFF, setting the undefined bits 14-15 | raw masks outside 0 .. 0x3FFF are refused, including negative ones | not executed | LabelCodec.RawLabelAsWrittenAcceptsNegative | LabelCodec.EncodeRawLabel |
