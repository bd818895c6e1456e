/**
 * print_label: draws the twelve slots of a label buffer as 5 lines of
 * ASCII art, one 6-column cell per slot (five columns of picture and a
 * blank gap), and cuts every line after the last slot that has a segment
 * bit set. The lines are what printf would write, without the newline.
 */
module Render {

  import opened Pages
  import opened Glyphs
  import opened LabelCodec

  const ROWS := 5
  const COLS := 72
  const CELL_WIDTH := 6

  // ---------------------------------------------------------------------
  // The picture, stated on values

  /** The character at row `row`, column `col` of the cell of a slot with
      mask `m`: the segment's character when its bit is set, else blank. */
  function GlyphChar(m: bv16, row: int, col: int): (ch: char)
    ensures ch in " -|/\\"
  {
    match SegmentAt(row, col)
    case None => ' '
    case Some((j, c)) => if TestWordBit(m, j) then c else ' '
  }

  /** The character at row `r`, column `c` of the whole picture. */
  function CellChar(data: seq<byte>, r: int, c: nat): (ch: char)
    requires |data| >= LABEL_LEN_RAW && c < COLS
    ensures ch in " -|/\\"
  {
    GlyphChar(SlotMask(data, c / CELL_WIDTH), r, c % CELL_WIDTH)
  }

  /** Where the program puts the terminator after the first n slots: five
      columns past the start of the last slot among them whose mask is not
      zero, or column 0 when all of them are zero. */
  function TermOffset(data: seq<byte>, n: nat): (t: nat)
    requires |data| >= LABEL_LEN_RAW && n <= LABEL_LEN
    ensures t == 0 <==> forall s :: 0 <= s < n ==> SlotMask(data, s) == 0
    ensures t != 0 ==>
      && t % CELL_WIDTH == 5 && t / CELL_WIDTH < n
      && SlotMask(data, t / CELL_WIDTH) != 0
      && forall s :: t / CELL_WIDTH < s < n ==> SlotMask(data, s) == 0
    ensures t < COLS
  {
    if n == 0 then 0
    else if SlotMask(data, n - 1) != 0 then CELL_WIDTH * (n - 1) + 5
    else TermOffset(data, n - 1)
  }

  /** The printed lines: each row of the picture, up to the terminator. */
  function RenderedLabel(data: seq<byte>): (lines: seq<string>)
    requires |data| >= LABEL_LEN_RAW
    ensures |lines| == ROWS
    ensures forall r :: 0 <= r < ROWS ==> |lines[r]| == TermOffset(data, LABEL_LEN)
  {
    seq(ROWS, r requires 0 <= r < ROWS =>
      seq(TermOffset(data, LABEL_LEN), c requires 0 <= c < TermOffset(data, LABEL_LEN) => CellChar(data, r, c)))
  }

  /** The string printf("%s") prints from a buffer: up to the first NUL. */
  function CString(s: seq<char>): (t: string)
    ensures |t| <= |s| && t == s[..|t|]
    ensures '\0' !in t
    ensures |t| < |s| ==> s[|t|] == '\0'
  {
    if |s| == 0 || s[0] == '\0' then [] else [s[0]] + CString(s[1..])
  }

  // ---------------------------------------------------------------------
  // What the picture means

  /** Character k of the fragment of segment j shows exactly when bit j of
      the mask is set; every cell no fragment covers stays blank. */
  lemma GlyphShowsSegment(m: bv16, j: nat, k: nat)
    requires j < |SegmentMappings| && k < |SegmentMappings[j].text|
    ensures GlyphChar(m, SegmentMappings[j].rowOffset, SegmentMappings[j].colOffset + k) ==
            if TestWordBit(m, j) then SegmentMappings[j].text[k] else ' '
  {
    SegmentAtCovers(j, k);
  }

  /** A cell of the picture that is not blank belongs to a segment whose
      bit is set and shows that segment's character. */
  lemma GlyphFromSegment(m: bv16, row: int, col: int)
    requires GlyphChar(m, row, col) != ' '
    ensures SegmentAt(row, col).Some?
    ensures var (j, ch) := SegmentAt(row, col).value;
      TestWordBit(m, j) && GlyphChar(m, row, col) == ch
  {
  }

  /** A zero mask draws an empty cell. */
  lemma BlankSlotDrawsNothing(row: int, col: int)
    ensures GlyphChar(0, row, col) == ' '
  {
  }

  /** Bits 14 and 15 of a mask draw nothing. */
  lemma HighBitsDrawNothing(m: bv16, row: int, col: int)
    ensures GlyphChar(m, row, col) == GlyphChar(m & 0x3FFF, row, col)
  {
    match SegmentAt(row, col)
    case None =>
    case Some((j, c)) =>
      LowBitOfMask(m, j);
  }

  lemma LowBitOfMask(m: bv16, j: nat)
    requires j < 14
    ensures (m & (1 << j) != 0) == (m & 0x3FFF & (1 << j) != 0)
  {
  }

  /** A slot holding only bits 14 and 15 is not skipped: it draws nothing
      yet moves the terminator past its cell. */
  lemma HighBitsOnlyStillCount(data: seq<byte>, s: nat)
    requires |data| >= LABEL_LEN_RAW && s < LABEL_LEN
    requires SlotMask(data, s) != 0 && SlotMask(data, s) & 0x3FFF == 0
    requires forall t :: s < t < LABEL_LEN ==> SlotMask(data, t) == 0
    ensures forall row, col :: GlyphChar(SlotMask(data, s), row, col) == ' '
    ensures TermOffset(data, LABEL_LEN) == CELL_WIDTH * s + 5
  {
    forall row, col
      ensures GlyphChar(SlotMask(data, s), row, col) == ' '
    {
      HighBitsDrawNothing(SlotMask(data, s), row, col);
    }
    TermOffsetLast(data, s, LABEL_LEN);
  }

  /** The terminator follows the last slot with a mask that is not zero. */
  lemma {:induction false} TermOffsetLast(data: seq<byte>, s: nat, n: nat)
    requires |data| >= LABEL_LEN_RAW && s < n <= LABEL_LEN && SlotMask(data, s) != 0
    requires forall t :: s < t < n ==> SlotMask(data, t) == 0
    ensures TermOffset(data, n) == CELL_WIDTH * s + 5
    decreases n
  {
    if n - 1 > s {
      TermOffsetLast(data, s, n - 1);
    }
  }

  /** An accepted text label ends its lines inside the cells of its own
      characters: the slots after the text are blank. */
  lemma TextLabelWidth(text: string)
    requires TextLabel(text).Ok?
    ensures TermOffset(TextLabel(text).value, LABEL_LEN) < CELL_WIDTH * |text|
            || TermOffset(TextLabel(text).value, LABEL_LEN) == 0
  {
    TextLabelMeaning(text);
  }

  /** A bv16 converted to an integer and back is unchanged. */
  lemma IntOfWord(m: bv16)
    ensures (m as int) as bv16 == m
  {
  }

  lemma CellOfColumn(c: nat, n: nat)
    requires c < CELL_WIDTH * n
    ensures c / CELL_WIDTH < n
  {
  }

  /** The lines printed for an accepted text label show, cell by cell, the
      glyph of the character at that position: column c belongs to
      character c / 6 of the text. */
  lemma TextLabelRendered(text: string, r: nat, c: nat)
    requires TextLabel(text).Ok? && r < ROWS && c < TermOffset(TextLabel(text).value, LABEL_LEN)
    ensures c / CELL_WIDTH < |text|
    ensures 0 <= GetLabelChar(text[c / CELL_WIDTH]) <= 0x3FFF
    ensures RenderedLabel(TextLabel(text).value)[r][c] ==
      GlyphChar(GetLabelChar(text[c / CELL_WIDTH]) as bv16, r, c % CELL_WIDTH)
  {
    var buf := TextLabel(text).value;
    TextLabelMeaning(text);
    TextLabelWidth(text);
    CellOfColumn(c, |text|);
    var s := c / CELL_WIDTH;
    assert SlotMask(buf, s) as int == GetLabelChar(text[s]);
    IntOfWord(SlotMask(buf, s));
    assert RenderedLabel(buf)[r][c] == CellChar(buf, r, c);
  }

  /** A label whose slots are all blank prints five empty lines. */
  lemma BlankLabelPrintsEmptyLines(data: seq<byte>)
    requires |data| >= LABEL_LEN_RAW
    requires forall s :: 0 <= s < LABEL_LEN ==> SlotMask(data, s) == 0
    ensures RenderedLabel(data) == ["", "", "", "", ""]
  {
  }

  // ---------------------------------------------------------------------
  // The drawing, step by step

  /** Cell (row, col) of a slot with mask `m` once segments 0 .. j-1 have
      been looked at. */
  function SegmentsDrawn(m: bv16, j: nat, row: int, col: int): char
  {
    match SegmentAt(row, col)
    case None => ' '
    case Some((k, c)) => if k < j && TestWordBit(m, k) then c else ' '
  }

  /** The picture once slots 0 .. i-1 are drawn and segments 0 .. j-1 of
      slot i have been looked at. */
  function Partial(data: seq<byte>, i: nat, j: nat, r: int, c: nat): char
    requires |data| >= LABEL_LEN_RAW && c < COLS
  {
    var s := c / CELL_WIDTH;
    if s < i then CellChar(data, r, c)
    else if s == i then SegmentsDrawn(SlotMask(data, s), j, r, c % CELL_WIDTH)
    else ' '
  }

  lemma CellIndex(c: int, s: int)
    requires CELL_WIDTH * s <= c < CELL_WIDTH * s + CELL_WIDTH
    ensures c / CELL_WIDTH == s && c % CELL_WIDTH == c - CELL_WIDTH * s
  {
  }

  /** Within one cell: looking at segment j changes exactly the cells its
      fragment covers, and only when its bit is set. */
  lemma SegmentsDrawnStep(m: bv16, j: nat, row: int, col: int)
    requires j < |SegmentMappings|
    ensures var mp := SegmentMappings[j];
      SegmentsDrawn(m, j + 1, row, col) ==
        if TestWordBit(m, j) && row == mp.rowOffset && mp.colOffset <= col < mp.colOffset + |mp.text|
        then mp.text[col - mp.colOffset] else SegmentsDrawn(m, j, row, col)
  {
    var mp := SegmentMappings[j];
    if row == mp.rowOffset && mp.colOffset <= col < mp.colOffset + |mp.text| {
      SegmentAtCovers(j, col - mp.colOffset);
    }
    if SegmentAt(row, col).Some? {
      SegmentAtDrawn(row, col);
    }
  }

  /** Looking at segment j of slot i changes exactly the cells its fragment
      covers, and only when its bit is set. */
  lemma DrawSegmentStep(data: seq<byte>, i: nat, j: nat, r: int, c: nat)
    requires |data| >= LABEL_LEN_RAW && i < LABEL_LEN && j < |SegmentMappings| && c < COLS
    ensures var mp := SegmentMappings[j];
      var col := CELL_WIDTH * i + mp.colOffset;
      Partial(data, i, j + 1, r, c) ==
        if TestWordBit(SlotMask(data, i), j) && r == mp.rowOffset && col <= c < col + |mp.text|
        then mp.text[c - col] else Partial(data, i, j, r, c)
  {
    var mp := SegmentMappings[j];
    SegmentMappingsShape();
    assert mp.colOffset + |mp.text| <= 5;
    if c / CELL_WIDTH == i {
      CellIndex(c, i);
      SegmentsDrawnStep(SlotMask(data, i), j, r, c % CELL_WIDTH);
    } else {
      assert !(CELL_WIDTH * i <= c < CELL_WIDTH * i + CELL_WIDTH);
    }
  }

  /** Once all fourteen segments of slot i are looked at, slot i is drawn. */
  lemma SlotDone(data: seq<byte>, i: nat, r: int, c: nat)
    requires |data| >= LABEL_LEN_RAW && i < LABEL_LEN && c < COLS
    ensures Partial(data, i, |SegmentMappings|, r, c) == Partial(data, i + 1, 0, r, c)
    ensures SlotMask(data, i) == 0 ==> Partial(data, i, 0, r, c) == Partial(data, i + 1, 0, r, c)
  {
    SegmentMappingsShape();
  }

  /** A slot with mask zero is skipped: the picture is the same with it drawn. */
  lemma BlankSlotDone(data: seq<byte>, i: nat)
    requires |data| >= LABEL_LEN_RAW && i < LABEL_LEN && SlotMask(data, i) == 0
    ensures forall r, c :: 0 <= r < ROWS && 0 <= c < COLS ==> Partial(data, i, 0, r, c) == Partial(data, i + 1, 0, r, c)
  {
    forall r, c | 0 <= r < ROWS && 0 <= c < COLS
      ensures Partial(data, i, 0, r, c) == Partial(data, i + 1, 0, r, c)
    {
      SlotDone(data, i, r, c);
    }
  }

  /** memcpy(&lines[row][col], text, strlen(text)). */
  method CopyText(lines: array2<char>, row: nat, col: nat, text: string)
    requires row < lines.Length0 && col + |text| <= lines.Length1
    modifies lines
    ensures forall r, c :: 0 <= r < lines.Length0 && 0 <= c < lines.Length1 ==>
      lines[r, c] == if r == row && col <= c < col + |text| then text[c - col] else old(lines[r, c])
  {
    var k := 0;
    while k < |text|
      invariant 0 <= k <= |text|
      invariant forall r, c :: 0 <= r < lines.Length0 && 0 <= c < lines.Length1 ==>
        lines[r, c] == if r == row && col <= c < col + k then text[c - col] else old(lines[r, c])
    {
      lines[row, col + k] := text[k];
      k := k + 1;
    }
  }

  /** The segment loop of print_label for slot i: copy the fragment of
      every segment whose bit is set into the cell of the slot. */
  method DrawSlot(lines: array2<char>, data: seq<byte>, i: nat)
    requires |data| >= LABEL_LEN_RAW && i < LABEL_LEN
    requires lines.Length0 == ROWS && lines.Length1 == COLS
    requires forall r, c :: 0 <= r < ROWS && 0 <= c < COLS ==> lines[r, c] == Partial(data, i, 0, r, c)
    modifies lines
    ensures forall r, c :: 0 <= r < ROWS && 0 <= c < COLS ==> lines[r, c] == Partial(data, i + 1, 0, r, c)
  {
    SegmentMappingsShape();
    var charValue := SlotMask(data, i);
    var colOffset := i * CELL_WIDTH;
    var j := 0;
    while j < |SegmentMappings|
      invariant 0 <= j <= |SegmentMappings|
      invariant forall r, c :: 0 <= r < ROWS && 0 <= c < COLS ==> lines[r, c] == Partial(data, i, j, r, c)
    {
      var m := SegmentMappings[j];
      if TestWordBit(charValue, j) {
        CopyText(lines, m.rowOffset, colOffset + m.colOffset, m.text);
      }
      forall r, c | 0 <= r < ROWS && 0 <= c < COLS
        ensures lines[r, c] == Partial(data, i, j + 1, r, c)
      {
        DrawSegmentStep(data, i, j, r, c);
      }
      j := j + 1;
    }
    forall r, c | 0 <= r < ROWS && 0 <= c < COLS
      ensures Partial(data, i, |SegmentMappings|, r, c) == Partial(data, i + 1, 0, r, c)
    {
      SlotDone(data, i, r, c);
    }
  }

  /** print_label: returns the five lines it prints. */
  method PrintLabel(data: seq<byte>) returns (out: seq<string>)
    requires |data| >= LABEL_LEN_RAW
    ensures out == RenderedLabel(data)
  {
    var lines := new char[ROWS, COLS]((_, _) => ' ');
    var termOffset := 0;
    var i := 0;
    while i < LABEL_LEN
      invariant 0 <= i <= LABEL_LEN
      invariant termOffset == TermOffset(data, i)
      invariant forall r, c :: 0 <= r < ROWS && 0 <= c < COLS ==> lines[r, c] == Partial(data, i, 0, r, c)
    {
      var charValue := SlotMask(data, i);
      if charValue == 0 {
        BlankSlotDone(data, i);
        i := i + 1;
        continue;
      }
      var colOffset := i * CELL_WIDTH;
      DrawSlot(lines, data, i);
      termOffset := colOffset + 5;
      i := i + 1;
    }
    out := PrintLines(data, lines, termOffset);
  }

  /** printf("%s") prints exactly the characters before the first NUL. */
  lemma {:induction false} CStringPrefix(s: seq<char>, k: nat)
    requires k < |s| && s[k] == '\0' && forall i :: 0 <= i < k ==> s[i] != '\0'
    ensures CString(s) == s[..k]
  {
    if k > 0 {
      CStringPrefix(s[1..], k - 1);
      assert s[..k] == [s[0]] + s[1..][..k - 1];
    }
  }

  /** A row with the terminator at column t prints its first t cells. */
  lemma CStringOfLine(data: seq<byte>, row: seq<char>, r: int, t: nat)
    requires |data| >= LABEL_LEN_RAW && |row| == COLS && t < COLS && row[t] == '\0'
    requires forall c :: 0 <= c < COLS && c != t ==> row[c] == CellChar(data, r, c)
    ensures CString(row) == seq(t, c requires 0 <= c < t => CellChar(data, r, c))
  {
    assert forall c :: 0 <= c < t ==> row[c] == CellChar(data, r, c) && row[c] != '\0';
    CStringPrefix(row, t);
  }

  /** Cell (r, c) of the line buffer: the picture, with the terminator at
      column t once the line has been printed. */
  function LineCell(data: seq<byte>, t: nat, terminated: bool, r: int, c: nat): char
    requires |data| >= LABEL_LEN_RAW && c < COLS
  {
    if terminated && c == t then '\0' else CellChar(data, r, c)
  }

  /** Sets the terminator of line r and returns what printf("%s") prints
      of it. */
  method PrintLine(data: seq<byte>, lines: array2<char>, termOffset: nat, r: nat) returns (line: string)
    requires |data| >= LABEL_LEN_RAW && lines.Length0 == ROWS && lines.Length1 == COLS
    requires termOffset == TermOffset(data, LABEL_LEN) && r < ROWS
    requires forall r', c :: 0 <= r' < ROWS && 0 <= c < COLS ==> lines[r', c] == LineCell(data, termOffset, r' < r, r', c)
    modifies lines
    ensures line == RenderedLabel(data)[r]
    ensures forall r', c :: 0 <= r' < ROWS && 0 <= c < COLS ==> lines[r', c] == LineCell(data, termOffset, r' <= r, r', c)
  {
    lines[r, termOffset] := '\0';
    var row := seq(COLS, c requires 0 <= c < COLS reads lines => lines[r, c]);
    line := CString(row);
    CStringOfLine(data, row, r, termOffset);
  }

  /** Sets the terminator of every line and collects what printf("%s")
      prints of each. */
  method PrintLines(data: seq<byte>, lines: array2<char>, termOffset: nat) returns (out: seq<string>)
    requires |data| >= LABEL_LEN_RAW && lines.Length0 == ROWS && lines.Length1 == COLS
    requires termOffset == TermOffset(data, LABEL_LEN)
    requires forall r, c :: 0 <= r < ROWS && 0 <= c < COLS ==> lines[r, c] == CellChar(data, r, c)
    modifies lines
    ensures out == RenderedLabel(data)
    ensures forall r, c :: 0 <= r < ROWS && 0 <= c < COLS ==> lines[r, c] == LineCell(data, termOffset, true, r, c)
  {
    out := [];
    var r := 0;
    while r < ROWS
      invariant 0 <= r <= ROWS
      invariant forall r', c :: 0 <= r' < ROWS && 0 <= c < COLS ==> lines[r', c] == LineCell(data, termOffset, r' < r, r', c)
      invariant out == RenderedLabel(data)[..r]
    {
      var line := PrintLine(data, lines, termOffset, r);
      ghost var rendered := RenderedLabel(data);
      assert rendered[..r + 1] == rendered[..r] + [line];
      out := out + [line];
      r := r + 1;
    }
  }
}
