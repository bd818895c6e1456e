/**
 * The two static tables of the label display: printable ASCII to 14-bit
 * segment masks, and segment bit to the fragment that draws it on a
 * 5-row console cell 6 columns wide.
 */
module Glyphs {

  import opened Pages

  const LABEL_LEN := 12
  const LABEL_LEN_RAW := LABEL_LEN * 2

  const LABEL_ASCII_CHARS_START := 0x20
  const LABEL_ASCII_CHARS_END := 0x7E

  /** Segment masks of the characters 0x20 .. 0x7E, in the table's six
      rows of sixteen. Lower-case letters repeat the upper-case rows; some
      characters share a mask on purpose. */
  const Chars20: seq<bv16> :=  // 0x20 - 0x2F
    [0x0000, 0x0048, 0x0022, 0x154E, 0x156D, 0x08A4, 0x329D, 0x0040, 0x0280, 0x2800, 0x3FC0, 0x1540, 0x0800, 0x1100, 0x0400, 0x0880]
  const Chars30: seq<bv16> :=  // 0x30 - 0x3F
    [0x08BF, 0x0006, 0x111B, 0x110F, 0x1126, 0x112D, 0x113D, 0x0007, 0x113F, 0x112F, 0x0440, 0x1800, 0x0280, 0x1108, 0x2800, 0x0503]
  const Chars40: seq<bv16> :=  // 0x40 - 0x4F
    [0x121F, 0x1137, 0x054F, 0x0039, 0x044F, 0x1039, 0x1031, 0x013D, 0x1136, 0x0449, 0x001E, 0x12B0, 0x0038, 0x20B6, 0x2236, 0x003F]
  const Chars50: seq<bv16> :=  // 0x50 - 0x5F
    [0x1133, 0x023F, 0x1333, 0x112D, 0x0441, 0x003E, 0x08B0, 0x0A36, 0x2A80, 0x2480, 0x0889, 0x0039, 0x2200, 0x000F, 0x0A00, 0x0008]
  const Chars60: seq<bv16> :=  // 0x60 - 0x6F
    [0x2000, 0x1137, 0x054F, 0x0039, 0x044F, 0x1039, 0x1031, 0x013D, 0x1136, 0x0449, 0x001E, 0x12B0, 0x0038, 0x20B6, 0x2236, 0x003F]
  const Chars70: seq<bv16> :=  // 0x70 - 0x7E
    [0x1133, 0x023F, 0x1333, 0x112D, 0x0441, 0x003E, 0x08B0, 0x0A36, 0x2A80, 0x2480, 0x0889, 0x1280, 0x0440, 0x2900, 0x1100]

  const LabelAsciiChars: seq<bv16> := Chars20 + Chars30 + Chars40 + Chars50 + Chars60 + Chars70

  /** Every mask of `row` fits the 14 segments of a cell. */
  predicate MasksFit(row: seq<bv16>)
  {
    forall i :: 0 <= i < |row| ==> row[i] <= 0x3FFF
  }

  lemma Chars20Fit() ensures MasksFit(Chars20) {}
  lemma Chars30Fit() ensures MasksFit(Chars30) {}
  lemma Chars40Fit() ensures MasksFit(Chars40) {}
  lemma Chars50Fit() ensures MasksFit(Chars50) {}
  lemma Chars60Fit() ensures MasksFit(Chars60) {}
  lemma Chars70Fit() ensures MasksFit(Chars70) {}

  lemma AppendFit(a: seq<bv16>, b: seq<bv16>)
    requires MasksFit(a) && MasksFit(b)
    ensures MasksFit(a + b)
  {
    forall i | 0 <= i < |a + b| ensures (a + b)[i] <= 0x3FFF {
      if i < |a| { assert (a + b)[i] == a[i]; } else { assert (a + b)[i] == b[i - |a|]; }
    }
  }

  /** The whole table: one mask per printable character, each inside the
      14 bits the display has. */
  lemma LabelAsciiCharsShape()
    ensures |LabelAsciiChars| == LABEL_ASCII_CHARS_END - LABEL_ASCII_CHARS_START + 1 == 95
    ensures forall i :: 0 <= i < |LabelAsciiChars| ==> LabelAsciiChars[i] <= 0x3FFF
  {
    Chars20Fit(); Chars30Fit(); Chars40Fit(); Chars50Fit(); Chars60Fit(); Chars70Fit();
    AppendFit(Chars20, Chars30);
    AppendFit(Chars20 + Chars30, Chars40);
    AppendFit(Chars20 + Chars30 + Chars40, Chars50);
    AppendFit(Chars20 + Chars30 + Chars40 + Chars50, Chars60);
    AppendFit(Chars20 + Chars30 + Chars40 + Chars50 + Chars60, Chars70);
  }

  lemma PrefixAt(a: seq<bv16>, b: seq<bv16>, i: nat)
    requires i < |a|
    ensures (a + b)[i] == a[i]
  {
  }

  lemma SuffixAt(a: seq<bv16>, b: seq<bv16>, i: nat)
    requires |a| <= i < |a| + |b|
    ensures (a + b)[i] == b[i - |a|]
  {
  }

  /** Entries 0x20 .. 0x3E of the table (characters 0x40 .. 0x5E) are rows 0x40 and 0x50. */
  lemma TableUpper(i: nat)
    requires 0x20 <= i < 0x3F
    ensures LabelAsciiChars[i] == (if i < 0x30 then Chars40[i - 0x20] else Chars50[i - 0x30])
  {
    var p2 := Chars20 + Chars30;
    var p3 := p2 + Chars40;
    var p4 := p3 + Chars50;
    var p5 := p4 + Chars60;
    PrefixAt(p5, Chars70, i);
    PrefixAt(p4, Chars60, i);
    if i < 0x30 {
      PrefixAt(p3, Chars50, i);
      SuffixAt(p2, Chars40, i);
    } else {
      SuffixAt(p3, Chars50, i);
    }
  }

  /** Entries 0x41 .. 0x5A of the table (characters 'a' .. 'z') are rows 0x60 and 0x70. */
  lemma TableLower(i: nat)
    requires 0x41 <= i < 0x5B
    ensures LabelAsciiChars[i] == (if i < 0x50 then Chars60[i - 0x40] else Chars70[i - 0x50])
  {
    var p4 := Chars20 + Chars30 + Chars40 + Chars50;
    var p5 := p4 + Chars60;
    if i < 0x50 {
      PrefixAt(p5, Chars70, i);
      SuffixAt(p4, Chars60, i);
    } else {
      SuffixAt(p5, Chars70, i);
    }
  }

  /** Rows 0x60 and 0x70 repeat rows 0x40 and 0x50 from 'a' to 'z'. */
  lemma RowsRepeat()
    ensures forall k :: 1 <= k < 16 ==> Chars60[k] == Chars40[k]
    ensures forall k :: 0 <= k < 11 ==> Chars70[k] == Chars50[k]
  {
    assert Chars40[1..] == Chars60[1..];
    assert Chars50[..11] == Chars70[..11];
  }

  /** get_label_char: the mask of `c`, or -1 for a character outside 0x20 .. 0x7E. */
  function GetLabelChar(c: char): (r: int)
    ensures r == -1 <==> c as int < LABEL_ASCII_CHARS_START || c as int > LABEL_ASCII_CHARS_END
    ensures r != -1 ==> 0 <= r <= 0x3FFF
  {
    if c as int < LABEL_ASCII_CHARS_START || c as int > LABEL_ASCII_CHARS_END then -1
    else
      LabelAsciiCharsShape();
      LabelAsciiChars[c as int - LABEL_ASCII_CHARS_START] as int
  }

  /** Lower-case letters are drawn exactly like their upper-case letter;
      this is duplication in the table, not case folding. */
  lemma LowerCaseAsUpperCase(c: char)
    requires 'a' <= c <= 'z'
    ensures GetLabelChar(c) == GetLabelChar((c as int - 0x20) as char)
  {
    TableLower(c as int - 0x20);
    TableUpper(c as int - 0x40);
    RowsRepeat();
  }

  /** The characters the table marks as sharing a glyph. */
  lemma SharedGlyphs()
    ensures GetLabelChar('(') == GetLabelChar('<')
    ensures GetLabelChar(')') == GetLabelChar('>')
    ensures GetLabelChar('-') == GetLabelChar('~')
    ensures GetLabelChar('5') == GetLabelChar('S')
    ensures GetLabelChar(':') == GetLabelChar('|')
    ensures GetLabelChar('C') == GetLabelChar('[')
    ensures GetLabelChar(' ') == 0
  {
  }

  /** Where segment bit j is drawn inside a character cell. */
  datatype SegmentMapping = SegmentMapping(rowOffset: nat, colOffset: nat, text: string)

  const SegmentMappings: seq<SegmentMapping> := [
    // 0x___X
    SegmentMapping(0, 1, "---"),
    SegmentMapping(1, 4, "|"),
    SegmentMapping(3, 4, "|"),
    SegmentMapping(4, 1, "---"),
    // 0x__X_
    SegmentMapping(3, 0, "|"),
    SegmentMapping(1, 0, "|"),
    SegmentMapping(1, 2, "|"),
    SegmentMapping(1, 3, "/"),
    // 0x_X__
    SegmentMapping(2, 3, "-"),
    SegmentMapping(3, 3, "\\"),
    SegmentMapping(3, 2, "|"),
    SegmentMapping(3, 1, "/"),
    // 0xX___
    SegmentMapping(2, 1, "-"),
    SegmentMapping(1, 1, "\\")
  ]

  /** Every segment is drawn inside rows 0..4 and columns 0..4 of its cell. */
  lemma SegmentMappingsShape()
    ensures |SegmentMappings| == 14
    ensures forall j :: 0 <= j < 14 ==>
      && SegmentMappings[j].rowOffset < 5
      && 1 <= |SegmentMappings[j].text| <= 3
      && SegmentMappings[j].colOffset + |SegmentMappings[j].text| <= 5
  {
  }

  /** The cell seen as a picture: which segment, drawing which character,
      covers row `row`, column `col` of a character cell. */
  function SegmentAt(row: int, col: int): (s: Option<(nat, char)>)
    ensures s.Some? ==> s.value.0 < 14
  {
    if row == 0 then
      if 1 <= col <= 3 then Some((0, '-')) else None
    else if row == 1 then
      if col == 0 then Some((5, '|'))
      else if col == 1 then Some((13, '\\'))
      else if col == 2 then Some((6, '|'))
      else if col == 3 then Some((7, '/'))
      else if col == 4 then Some((1, '|'))
      else None
    else if row == 2 then
      if col == 1 then Some((12, '-'))
      else if col == 3 then Some((8, '-'))
      else None
    else if row == 3 then
      if col == 0 then Some((4, '|'))
      else if col == 1 then Some((11, '/'))
      else if col == 2 then Some((10, '|'))
      else if col == 3 then Some((9, '\\'))
      else if col == 4 then Some((2, '|'))
      else None
    else if row == 4 then
      if 1 <= col <= 3 then Some((3, '-')) else None
    else None
  }

  /** Character k of segment j's fragment lands on a cell that the picture
      gives to segment j alone: the fragments of one cell never overlap. */
  lemma SegmentAtCovers(j: nat, k: nat)
    requires j < |SegmentMappings| && k < |SegmentMappings[j].text|
    ensures SegmentAt(SegmentMappings[j].rowOffset, SegmentMappings[j].colOffset + k)
            == Some((j, SegmentMappings[j].text[k]))
  {
  }

  /** Every cell the picture fills belongs to the fragment of its segment. */
  lemma SegmentAtDrawn(row: int, col: int)
    requires SegmentAt(row, col).Some?
    ensures var (j, ch) := SegmentAt(row, col).value;
      && j < |SegmentMappings|
      && SegmentMappings[j].rowOffset == row
      && SegmentMappings[j].colOffset <= col < SegmentMappings[j].colOffset + |SegmentMappings[j].text|
      && SegmentMappings[j].text[col - SegmentMappings[j].colOffset] == ch
  {
  }
}
