/**
 * set_free_space: rewrites the free-space part of diagnostic page 0x86
 * (a frame and a ten-segment bar, three seven-segment digits with a
 * decimal point, the TB/GB units and the FREE mark) and sends the page
 * back. The floating-point computations of the program are not modelled:
 * the reading is given as the number of bar segments in use, the unit and
 * the value as it is shown.
 */
module FreeSpace {

  import opened Pages

  /** Received as 4 header bytes and 16 bytes of page data (page_data = data + 4). */
  const FREE_SPACE_PAGE: byte := 0x86
  const FREE_SPACE_PAGE_SIZE := 4 + 16

  /** The value on the display: a whole number from 10 to 999, hundredths
      from 0.00 to 9.99, or a value of 1000 or more, which cannot be shown. */
  datatype Shown = Whole(n: nat) | Hundredths(h: nat) | TooLarge

  /** What the program computed from the file system figures: nothing
      (no total size, or "-" given), or the bar length, the unit and the
      value. */
  datatype Reading =
    | Cleared
    | Measured(segmentsUsed: int, tbMode: bool, shown: Shown)

  predicate ValidReading(r: Reading)
  {
    r.Measured? ==>
      && r.segmentsUsed <= 10
      && match r.shown
         case Whole(n) => 10 <= n <= 999
         case Hundredths(h) => h <= 999
         case TooLarge => true
  }

  // ---------------------------------------------------------------------
  // Bits with a known meaning: the frame (page_data[4] bit 7), the bar
  // (page_data[6] and bits 6-7 of page_data[7]), the units and FREE
  // (page_data[10] bits 1, 2, 4), the decimal point (page_data[11] bit 1)
  // and the three digits (page_data[12..14] bit 7 and bits 0-3).

  /** The page with every known bit cleared, byte by byte as the program
      clears them. */
  function Reset(data: seq<byte>): (p: seq<byte>)
    requires |data| == FREE_SPACE_PAGE_SIZE
    ensures |p| == FREE_SPACE_PAGE_SIZE
  {
    data[8 := data[8] & !0x80]
        [10 := 0x00]
        [11 := data[11] & !0xC0]
        [14 := data[14] & !0x16]
        [15 := data[15] & !0x02]
        [16 := data[16] & !0x8F]
        [17 := data[17] & !0x8F]
        [18 := data[18] & !0x8F]
  }

  // ---------------------------------------------------------------------
  // The bar

  /** segments_raw after `n` passes of the loop that sets bit 9 - i. */
  function Bar(n: int): bv16
    requires n <= 10
  {
    if n <= 0 then 0 else Bar(n - 1) | (1 << (10 - n))
  }

  /** With n segments in use, bar bits 10 - n .. 9 are set and no other;
      with none (n not positive) no bit is. */
  lemma BarBits(n: int, k: nat)
    requires n <= 10 && k < 16
    ensures TestWordBit(Bar(n), k) <==> 10 - n <= k <= 9
  {
    if n <= 0 {
    } else if n == 1 {
      assert Bar(n) == 0x200;
    } else if n == 2 {
      assert Bar(n) == 0x300;
    } else if n == 3 {
      assert Bar(n) == 0x380;
    } else if n == 4 {
      assert Bar(n) == 0x3C0;
    } else if n == 5 {
      assert Bar(n) == 0x3E0;
    } else if n == 6 {
      assert Bar(n) == 0x3F0;
    } else if n == 7 {
      assert Bar(n) == 0x3F8;
    } else if n == 8 {
      assert Bar(n) == 0x3FC;
    } else if n == 9 {
      assert Bar(n) == 0x3FE;
    } else {
      assert Bar(n) == 0x3FF;
    }
  }

  /** One more pass of the loop sets the next lower bit. */
  lemma BarStep(i: nat)
    requires i < 10
    ensures Bar(i + 1) == Bar(i) | (1 << (9 - i))
  {
  }

  /** No pass of the loop runs when no segment is in use. */
  lemma BarNone(n: int)
    requires n <= 10
    ensures n <= 0 ==> Bar(n) == Bar(0) == 0
  {
  }

  /** The bar uses the ten low bits only. */
  lemma {:induction false} BarFits(n: int)
    requires n <= 10
    ensures Bar(n) < 0x400
    decreases n
  {
    if n > 0 {
      BarFits(n - 1);
      assert (1 as bv16) << (10 - n) <= 0x200;
    }
  }

  /** The bar in the page: its top eight bits in page_data[6], its low two
      bits in bits 6-7 of page_data[7]. */
  function BarOf(page: seq<byte>): bv16
    requires |page| == FREE_SPACE_PAGE_SIZE
  {
    (page[10] as bv16 << 2) | (page[11] >> 6) as bv16
  }

  // ---------------------------------------------------------------------
  // The digits

  function DigitChar(d: nat): (c: char)
    requires d < 10
    ensures '0' <= c <= '9' && c as int - 0x30 == d
  {
    (0x30 + d) as char
  }

  /** The decimal representation of n, as "%d" writes it. */
  function DecimalString(n: nat): (s: string)
    ensures |s| >= 1
    ensures forall i :: 0 <= i < |s| ==> '0' <= s[i] <= '9'
  {
    if n < 10 then [DigitChar(n)] else DecimalString(n / 10) + [DigitChar(n % 10)]
  }

  /** "%3d": the decimal representation padded on the left to three characters. */
  function Format3d(n: nat): string
  {
    var d := DecimalString(n);
    if |d| < 3 then seq(3 - |d|, _ => ' ') + d else d
  }

  /** A value from 10 to 999 is written as three characters: a blank or
      the hundreds, then the tens and the ones. */
  lemma Format3dDigits(n: nat)
    requires 10 <= n <= 999
    ensures var s := Format3d(n);
      && |s| == 3
      && s[0] == (if n >= 100 then DigitChar(n / 100) else ' ')
      && s[1] == DigitChar(n / 10 % 10)
      && s[2] == DigitChar(n % 10)
  {
    assert DecimalString(n) == DecimalString(n / 10) + [DigitChar(n % 10)];
    if n >= 100 {
      assert n / 10 >= 10 && n / 10 / 10 == n / 100 && n / 100 < 10;
      assert DecimalString(n / 10) == [DigitChar(n / 100)] + [DigitChar(n / 10 % 10)];
    } else {
      assert n / 10 < 10 && n / 10 % 10 == n / 10;
    }
  }

  /** The four characters of a value below 10 given in hundredths: the
      ones, the point, the tenths and the hundredths. */
  function FormatHundredths(h: nat): (s: string)
    requires h <= 999
    ensures |s| == 4 && s[1] == '.'
    ensures '0' <= s[0] <= '9' && '0' <= s[2] <= '9' && '0' <= s[3] <= '9'
    ensures (s[0] as int - 0x30) * 100 + (s[2] as int - 0x30) * 10 + (s[3] as int - 0x30) == h
  {
    HundredthsDigits(h);
    [DigitChar(h / 100), '.', DigitChar(h / 10 % 10), DigitChar(h % 10)]
  }

  /** h is made of its hundreds, tens and ones digits. */
  lemma HundredthsDigits(h: nat)
    requires h <= 999
    ensures h / 100 < 10 && h / 100 * 100 + h / 10 % 10 * 10 + h % 10 == h
  {
    assert h == 10 * (h / 10) + h % 10;
    assert h / 10 == 10 * (h / 10 / 10) + h / 10 % 10;
    assert h / 10 / 10 == h / 100;
  }

  /** 0x80 | (c - 0x30): digit c, with the bit that turns the digit on. */
  function DigitCode(c: char): (b: byte)
    requires '0' <= c <= '9'
  {
    0x80 | (c as int - 0x30) as byte
  }

  /** The codes for the three digit positions and whether the decimal point is on. */
  function ShownCodes(shown: Shown): (byte, byte, byte, bool)
    requires match shown
             case Whole(n) => 10 <= n <= 999
             case Hundredths(h) => h <= 999
             case TooLarge => false
  {
    match shown
    case Whole(n) =>
      Format3dDigits(n);
      var s := Format3d(n);
      (if n >= 100 then DigitCode(s[0]) else 0, DigitCode(s[1]), DigitCode(s[2]), false)
    case Hundredths(h) =>
      var s := FormatHundredths(h);
      (DigitCode(s[0]), DigitCode(s[2]), DigitCode(s[3]), true)
  }

  /** The digit a digit position shows, if it is on. */
  function DigitOf(b: byte): Option<nat>
  {
    if b & 0x80 != 0 then Some((b & 0x0F) as nat) else None
  }

  // ---------------------------------------------------------------------
  // The page the program sends, phase by phase

  /** The segment frame on and the bar written. */
  function BarPage(p: seq<byte>, raw: bv16): (q: seq<byte>)
    requires |p| == FREE_SPACE_PAGE_SIZE
    ensures |q| == FREE_SPACE_PAGE_SIZE
  {
    p[8 := WithBit(p[8], 7, true)]
     [10 := ((raw >> 2) & 0xFF) as byte]
     [11 := p[11] | ((raw & 3) << 6) as byte]
  }

  /** The digit codes or-ed into their positions, and the decimal point. */
  function DigitsPage(p: seq<byte>, codes: (byte, byte, byte, bool)): (q: seq<byte>)
    requires |p| == FREE_SPACE_PAGE_SIZE
    ensures |q| == FREE_SPACE_PAGE_SIZE
  {
    var (d100, d10, d1, point) := codes;
    var q := p[16 := p[16] | d100][17 := p[17] | d10][18 := p[18] | d1];
    if point then q[15 := WithBit(q[15], 1, true)] else q
  }

  /** The unit (TB: bit 2, GB: bit 1) and FREE (bit 4) marks. */
  function UnitsPage(p: seq<byte>, tb: bool): (q: seq<byte>)
    requires |p| == FREE_SPACE_PAGE_SIZE
    ensures |q| == FREE_SPACE_PAGE_SIZE
  {
    var q := p[14 := WithBit(p[14], if tb then 2 else 1, true)];
    q[14 := WithBit(q[14], 4, true)]
  }

  /** The three phases of drawing a reading on the reset page. */
  function DrawnPage(p: seq<byte>, raw: bv16, codes: (byte, byte, byte, bool), tb: bool): (q: seq<byte>)
    requires |p| == FREE_SPACE_PAGE_SIZE
    ensures |q| == FREE_SPACE_PAGE_SIZE
  {
    UnitsPage(DigitsPage(BarPage(p, raw), codes), tb)
  }

  /** The page after set_free_space's changes; None when the value is too
      large, which aborts before sending. */
  function FreeSpacePage(data: seq<byte>, reading: Reading): (r: Option<seq<byte>>)
    requires |data| == FREE_SPACE_PAGE_SIZE && ValidReading(reading)
    ensures r.Some? ==> |r.value| == FREE_SPACE_PAGE_SIZE
  {
    var p := Reset(data);
    match reading
    case Cleared => Some(p)
    case Measured(n, tb, shown) =>
      if shown.TooLarge? then None
      else
        Some(DrawnPage(p, Bar(n), ShownCodes(shown), tb))
  }

  /** Exit status and the page sent, if one was sent. */
  function FreeSpaceUpdate(reading: Reading, received: Option<seq<byte>>, sendOk: bool): (int, Option<seq<byte>>)
    requires ValidReading(reading)
    requires received.Some? ==> |received.value| == FREE_SPACE_PAGE_SIZE
  {
    match received
    case None => (1, None)
    case Some(data) =>
      match FreeSpacePage(data, reading)
      case None => (1, None)
      case Some(page) => (if sendOk then 0 else 1, Some(page))
  }

  // ---------------------------------------------------------------------
  // set_free_space

  /** Clears all bits with a known meaning. */
  method ResetKnownBits(data: array<byte>)
    requires data.Length == FREE_SPACE_PAGE_SIZE
    modifies data
    ensures data[..] == Reset(old(data[..]))
  {
    data[8] := data[8] & !0x80;
    data[10] := 0x00;
    data[11] := data[11] & !0xC0;
    data[14] := data[14] & !0x16;
    data[15] := data[15] & !0x02;
    data[16] := data[16] & !0x8F;
    data[17] := data[17] & !0x8F;
    data[18] := data[18] & !0x8F;
    assert data[..] == old(data[..])[8 := data[8]][10 := data[10]][11 := data[11]][14 := data[14]]
                                    [15 := data[15]][16 := data[16]][17 := data[17]][18 := data[18]];
  }

  /** The loop building segments_raw: bits 9, 8, ... for each segment in use. */
  method SegmentsRaw(segmentsUsed: int) returns (segmentsRaw: bv16)
    requires segmentsUsed <= 10
    ensures segmentsRaw == Bar(segmentsUsed)
  {
    segmentsRaw := 0;
    var i := 0;
    while i < segmentsUsed
      invariant 0 <= i <= (if segmentsUsed < 0 then 0 else segmentsUsed)
      invariant segmentsRaw == Bar(i)
    {
      BarStep(i);
      segmentsRaw := segmentsRaw | (1 << (9 - i));
      i := i + 1;
    }
    BarNone(segmentsUsed);
  }

  /** Segment frame on; page_data[6] = segments_raw >> 2; page_data[7] |=
      (segments_raw & 3) << 6. */
  method DrawBar(data: array<byte>, segmentsRaw: bv16)
    requires data.Length == FREE_SPACE_PAGE_SIZE
    modifies data
    ensures data[..] == BarPage(old(data[..]), segmentsRaw)
  {
    SetBit(data, 8, 7, 1);
    data[10] := ((segmentsRaw >> 2) & 0xFF) as byte;
    data[11] := data[11] | ((segmentsRaw & 3) << 6) as byte;
  }

  /** The digit codes or-ed in, then the decimal point. */
  method DrawDigits(data: array<byte>, codes: (byte, byte, byte, bool))
    requires data.Length == FREE_SPACE_PAGE_SIZE
    modifies data
    ensures data[..] == DigitsPage(old(data[..]), codes)
  {
    var (digit100s, digit10s, digit1s, decPoint) := codes;
    data[16] := data[16] | digit100s;
    data[17] := data[17] | digit10s;
    data[18] := data[18] | digit1s;
    if decPoint {
      SetBit(data, 15, 1, 1);
    }
  }

  /** TB/GB indicator, then the FREE indicator. */
  method DrawUnits(data: array<byte>, tbMode: bool)
    requires data.Length == FREE_SPACE_PAGE_SIZE
    modifies data
    ensures data[..] == UnitsPage(old(data[..]), tbMode)
  {
    SetBit(data, 14, if tbMode then 2 else 1, 1);
    SetBit(data, 14, 4, 1);
  }

  /** set_free_space, on a local copy of what RECEIVE DIAGNOSTIC returned. */
  method SetFreeSpace(reading: Reading, received: Option<seq<byte>>, sendOk: bool)
    returns (result: int, sent: Option<seq<byte>>)
    requires ValidReading(reading)
    requires received.Some? ==> |received.value| == FREE_SPACE_PAGE_SIZE
    ensures (result, sent) == FreeSpaceUpdate(reading, received, sendOk)
  {
    if received.None? {
      return 1, None;
    }
    var data := new byte[FREE_SPACE_PAGE_SIZE](k requires 0 <= k < FREE_SPACE_PAGE_SIZE => received.value[k]);
    assert data[..] == received.value;
    ResetKnownBits(data);
    if reading.Measured? {
      var segmentsRaw := SegmentsRaw(reading.segmentsUsed);
      DrawBar(data, segmentsRaw);
      if reading.shown.TooLarge? {
        return 1, None;
      }
      DrawDigits(data, ShownCodes(reading.shown));
      DrawUnits(data, reading.tbMode);
    }
    sent := Some(data[..]);
    result := if sendOk then 0 else 1;
  }
}
