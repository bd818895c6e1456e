/**
 * What the free-space area of the display shows for the page that
 * set_free_space sends: the page is read back field by field and compared
 * with the reading it was drawn from.
 */
module FreeSpaceDisplay {

  import opened Pages
  import opened FreeSpace

  /** The state of the display's free-space area as the page encodes it. */
  datatype Display = Display(
    frame: bool,                 // segment frame of the bar
    bar: bv16,                   // the ten bar segments
    digits: seq<Option<nat>>,    // the three digit positions, None when off
    point: bool,                 // decimal point
    tb: bool, gb: bool,          // units
    free: bool)                  // FREE mark

  function DisplayOf(page: seq<byte>): Display
    requires |page| == FREE_SPACE_PAGE_SIZE
  {
    Display(TestBit(page[8], 7), BarOf(page),
            [DigitOf(page[16]), DigitOf(page[17]), DigitOf(page[18])],
            TestBit(page[15], 1), TestBit(page[14], 2), TestBit(page[14], 1), TestBit(page[14], 4))
  }

  /** The digits a value is shown with: no leading hundreds digit for a
      whole number below 100, a leading ones digit for hundredths. */
  function ExpectedDigits(shown: Shown): seq<Option<nat>>
  {
    match shown
    case Whole(n) => [if n >= 100 then Some(n / 100) else None, Some(n / 10 % 10), Some(n % 10)]
    case Hundredths(h) => [Some(h / 100), Some(h / 10 % 10), Some(h % 10)]
    case TooLarge => []
  }

  /** A page sent for a cleared reading shows nothing. */
  lemma ClearedShowsNothing(data: seq<byte>)
    requires |data| == FREE_SPACE_PAGE_SIZE
    ensures DisplayOf(FreeSpacePage(data, Cleared).value) ==
            Display(false, 0, [None, None, None], false, false, false, false)
  {
    ResetCleared(data);
    var p := Reset(data);
    ClearedBarLow(p[11]);
  }

  lemma ClearedBarLow(b: byte)
    requires b & 0xC0 == 0
    ensures b >> 6 == 0
  {
  }

  /** After the reset every known bit is clear. */
  lemma ResetCleared(data: seq<byte>)
    requires |data| == FREE_SPACE_PAGE_SIZE
    ensures var p := Reset(data);
      && p[8] & 0x80 == 0 && p[10] == 0 && p[11] & 0xC0 == 0 && p[14] & 0x16 == 0
      && p[15] & 0x02 == 0 && p[16] & 0x8F == 0 && p[17] & 0x8F == 0 && p[18] & 0x8F == 0
  {
  }

  /** The code a digit position is given for an expected digit: 0 (off)
      or bit 7 with the digit in bits 0-3. */
  function CodeOf(o: Option<nat>): byte
    requires o.Some? ==> o.value < 10
  {
    match o
    case None => 0
    case Some(d) => 0x80 | d as byte
  }

  predicate DigitsInRange(e: seq<Option<nat>>)
  {
    forall i :: 0 <= i < |e| ==> e[i].Some? ==> e[i].value < 10
  }

  /** The codes built from the characters "%3d" or the hundredths format
      writes are those of the expected digits. */
  lemma ShownCodesAre(shown: Shown)
    requires match shown
             case Whole(n) => 10 <= n <= 999
             case Hundredths(h) => h <= 999
             case TooLarge => false
    ensures var e := ExpectedDigits(shown);
      && |e| == 3 && DigitsInRange(e)
      && ShownCodes(shown) == (CodeOf(e[0]), CodeOf(e[1]), CodeOf(e[2]), shown.Hundredths?)
  {
    match shown
    case Whole(n) =>
      Format3dDigits(n);
      if n >= 100 {
        DigitCodeOfChar(n / 100);
      }
      DigitCodeOfChar(n / 10 % 10);
      DigitCodeOfChar(n % 10);
    case Hundredths(h) =>
      DigitCodeOfChar(h / 100);
      DigitCodeOfChar(h / 10 % 10);
      DigitCodeOfChar(h % 10);
  }

  lemma DigitCodeOfChar(d: nat)
    requires d < 10
    ensures DigitCode(DigitChar(d)) == CodeOf(Some(d))
  {
    assert DigitChar(d) as int - 0x30 == d;
  }

  /** A code or-ed into a cleared digit position shows the digit it was
      built from, and touches no bit outside the position. */
  lemma DigitPositionShows(b: byte, o: Option<nat>)
    requires b & 0x8F == 0 && (o.Some? ==> o.value < 10)
    ensures DigitOf(b | CodeOf(o)) == o
  {
    if o.Some? {
      var x := o.value as byte;
      ByteOfInt(o.value);
      DigitOr(b, x);
    }
  }

  lemma DigitOr(b: byte, x: byte)
    requires b & 0x8F == 0 && x < 10
    ensures (b | (0x80 | x)) & 0x80 != 0
    ensures (b | (0x80 | x)) & 0x0F == x
  {
  }

  /** The bar survives being split over page_data[6] and page_data[7]. */
  lemma BarRoundTrip(b11: byte, raw: bv16)
    requires b11 & 0xC0 == 0 && raw < 0x400
    ensures (((raw >> 2) as byte) as bv16 << 2) | ((b11 | ((raw & 3) << 6) as byte) >> 6) as bv16 == raw
  {
  }

  /** Bits 1, 2 and 4 of page_data[10] clear: after the unit marks exactly
      one unit is on, and FREE; no other bit changes. */
  lemma UnitsShow(b: byte, tb: bool)
    requires b & 0x16 == 0
    ensures var u := WithBit(WithBit(b, if tb then 2 else 1, true), 4, true);
      TestBit(u, 2) == tb && TestBit(u, 1) == !tb && TestBit(u, 4)
  {
    var bit := if tb then 2 else 1;
    var w := WithBit(b, bit, true);
    WithBitOtherBit(b, bit, true, 3 - bit);
    WithBitOtherBit(w, 4, true, 1);
    WithBitOtherBit(w, 4, true, 2);
  }

  /** The decimal point is on exactly when it is set. */
  lemma PointShows(b: byte, point: bool)
    requires b & 0x02 == 0
    ensures TestBit(if point then WithBit(b, 1, true) else b, 1) == point
    ensures (if point then WithBit(b, 1, true) else b) & !0x02 == b & !0x02
  {
  }

  lemma DigitsPageBytes(p: seq<byte>, codes: (byte, byte, byte, bool))
    requires |p| == FREE_SPACE_PAGE_SIZE
    ensures var q := DigitsPage(p, codes);
      && q[15] == (if codes.3 then WithBit(p[15], 1, true) else p[15])
      && q[16] == p[16] | codes.0
      && q[17] == p[17] | codes.1
      && q[18] == p[18] | codes.2
      && q[19] == p[19]
      && forall k :: 0 <= k < 15 ==> q[k] == p[k]
  {
  }

  /** Drawn on a page whose known bits are clear, a bar, the codes of the
      expected digits and a unit read back as they were drawn. */
  lemma DisplayOfDrawn(p: seq<byte>, raw: bv16, e: seq<Option<nat>>, point: bool, tb: bool)
    requires |p| == FREE_SPACE_PAGE_SIZE && raw < 0x400 && |e| == 3 && DigitsInRange(e)
    requires p[11] & 0xC0 == 0 && p[14] & 0x16 == 0 && p[15] & 0x02 == 0
    requires p[16] & 0x8F == 0 && p[17] & 0x8F == 0 && p[18] & 0x8F == 0
    ensures DisplayOf(DrawnPage(p, raw, (CodeOf(e[0]), CodeOf(e[1]), CodeOf(e[2]), point), tb)) ==
            Display(true, raw, e, point, tb, !tb, true)
  {
    var codes := (CodeOf(e[0]), CodeOf(e[1]), CodeOf(e[2]), point);
    var b := BarPage(p, raw);
    var d := DigitsPage(b, codes);
    var u := UnitsPage(d, tb);
    BarPageShows(p, raw);
    DigitsPageShows(b, e, point);
    UnitsPageShows(d, tb);
    assert e == [e[0], e[1], e[2]];
  }

  /** The bar phase turns the frame on and writes the bar so that it
      reads back; it leaves bytes 14 to 18 alone. */
  lemma BarPageShows(p: seq<byte>, raw: bv16)
    requires |p| == FREE_SPACE_PAGE_SIZE && raw < 0x400 && p[11] & 0xC0 == 0
    ensures var q := BarPage(p, raw);
      && TestBit(q[8], 7) && BarOf(q) == raw
      && q[14] == p[14] && q[15] == p[15] && q[16] == p[16] && q[17] == p[17] && q[18] == p[18]
  {
    BarRoundTrip(p[11], raw);
  }

  /** The digits phase lights the expected digits and the point; it leaves
      bytes 8 to 14 alone. */
  lemma DigitsPageShows(p: seq<byte>, e: seq<Option<nat>>, point: bool)
    requires |p| == FREE_SPACE_PAGE_SIZE && |e| == 3 && DigitsInRange(e)
    requires p[15] & 0x02 == 0 && p[16] & 0x8F == 0 && p[17] & 0x8F == 0 && p[18] & 0x8F == 0
    ensures var q := DigitsPage(p, (CodeOf(e[0]), CodeOf(e[1]), CodeOf(e[2]), point));
      && DigitOf(q[16]) == e[0] && DigitOf(q[17]) == e[1] && DigitOf(q[18]) == e[2]
      && TestBit(q[15], 1) == point
      && q[8] == p[8] && q[10] == p[10] && q[11] == p[11] && q[14] == p[14]
  {
    DigitPositionOfPage(p, e, point, 0);
    DigitPositionOfPage(p, e, point, 1);
    DigitPositionOfPage(p, e, point, 2);
    DigitsPageBytes(p, (CodeOf(e[0]), CodeOf(e[1]), CodeOf(e[2]), point));
    PointShows(p[15], point);
  }

  /** Digit position i (page_data[12 + i]) shows expected digit i. */
  lemma DigitPositionOfPage(p: seq<byte>, e: seq<Option<nat>>, point: bool, i: nat)
    requires |p| == FREE_SPACE_PAGE_SIZE && |e| == 3 && DigitsInRange(e) && i < 3
    requires p[16 + i] & 0x8F == 0
    ensures DigitOf(DigitsPage(p, (CodeOf(e[0]), CodeOf(e[1]), CodeOf(e[2]), point))[16 + i]) == e[i]
  {
    var codes := (CodeOf(e[0]), CodeOf(e[1]), CodeOf(e[2]), point);
    DigitsPageBytes(p, codes);
    if i == 0 {
      DigitPositionShows(p[16], e[0]);
    } else if i == 1 {
      DigitPositionShows(p[17], e[1]);
    } else {
      DigitPositionShows(p[18], e[2]);
    }
  }

  /** The units phase turns exactly one unit on, and FREE; it leaves every
      byte but 14 alone. */
  lemma UnitsPageShows(p: seq<byte>, tb: bool)
    requires |p| == FREE_SPACE_PAGE_SIZE && p[14] & 0x16 == 0
    ensures var q := UnitsPage(p, tb);
      && TestBit(q[14], 2) == tb && TestBit(q[14], 1) == !tb && TestBit(q[14], 4)
      && q[8] == p[8] && q[10] == p[10] && q[11] == p[11]
      && q[15] == p[15] && q[16] == p[16] && q[17] == p[17] && q[18] == p[18]
  {
    UnitsShow(p[14], tb);
  }

  /** A page sent for a measured reading shows the frame, the bar of the
      segments in use, the value's digits, the decimal point exactly for
      hundredths, exactly one unit, and FREE. */
  lemma MeasuredShows(data: seq<byte>, reading: Reading)
    requires |data| == FREE_SPACE_PAGE_SIZE && ValidReading(reading)
    requires reading.Measured? && !reading.shown.TooLarge?
    ensures FreeSpacePage(data, reading).Some?
    ensures DisplayOf(FreeSpacePage(data, reading).value) ==
      Display(true, Bar(reading.segmentsUsed), ExpectedDigits(reading.shown), reading.shown.Hundredths?,
              reading.tbMode, !reading.tbMode, true)
  {
    var Measured(n, tb, shown) := reading;
    ResetCleared(data);
    BarFits(n);
    ShownCodesAre(shown);
    DisplayOfDrawn(Reset(data), Bar(n), ExpectedDigits(shown), shown.Hundredths?, tb);
  }

  /** x and y agree on the bits of mask m. */
  predicate SameBits(x: byte, y: byte, m: byte)
  {
    x & m == y & m
  }

  lemma SameBitsTrans(x: byte, y: byte, z: byte, m: byte)
    requires SameBits(x, y, m) && SameBits(y, z, m)
    ensures SameBits(x, z, m)
  {
  }

  /** The two pages agree on every bit the program gives no meaning to:
      all bytes but 8, 10, 11, 14 to 18; byte 8 but for the frame (bit 7),
      byte 11 but for the low bar bits (bits 6-7), byte 14 but for the unit
      and FREE marks (bits 1, 2, 4), byte 15 but for the decimal point
      (bit 1) and bytes 16 to 18 but for the digits (bit 7 and bits 0-3).
      Byte 10 holds the upper bar bits only. */
  predicate SameUnknownBits(a: seq<byte>, b: seq<byte>)
    requires |a| == FREE_SPACE_PAGE_SIZE && |b| == FREE_SPACE_PAGE_SIZE
  {
    && (forall k :: 0 <= k < FREE_SPACE_PAGE_SIZE && k !in {8, 10, 11, 14, 15, 16, 17, 18} ==> a[k] == b[k])
    && SameBits(a[8], b[8], 0x7F)
    && SameBits(a[11], b[11], 0x3F)
    && SameBits(a[14], b[14], 0xE9)
    && SameBits(a[15], b[15], 0xFD)
    && SameBits(a[16], b[16], 0x70)
    && SameBits(a[17], b[17], 0x70)
    && SameBits(a[18], b[18], 0x70)
  }

  lemma SameUnknownBitsTrans(a: seq<byte>, b: seq<byte>, c: seq<byte>)
    requires |a| == FREE_SPACE_PAGE_SIZE && |b| == FREE_SPACE_PAGE_SIZE && |c| == FREE_SPACE_PAGE_SIZE
    requires SameUnknownBits(a, b) && SameUnknownBits(b, c)
    ensures SameUnknownBits(a, c)
  {
    SameBitsTrans(a[8], b[8], c[8], 0x7F);
    SameBitsTrans(a[11], b[11], c[11], 0x3F);
    SameBitsTrans(a[14], b[14], c[14], 0xE9);
    SameBitsTrans(a[15], b[15], c[15], 0xFD);
    SameBitsTrans(a[16], b[16], c[16], 0x70);
    SameBitsTrans(a[17], b[17], c[17], 0x70);
    SameBitsTrans(a[18], b[18], c[18], 0x70);
  }

  /** The page sent differs from the page read only in bits the program
      gives a meaning to: every phase leaves the others alone. */
  lemma KeepsUnknownBits(data: seq<byte>, reading: Reading)
    requires |data| == FREE_SPACE_PAGE_SIZE && ValidReading(reading)
    requires FreeSpacePage(data, reading).Some?
    ensures SameUnknownBits(FreeSpacePage(data, reading).value, data)
  {
    var p := Reset(data);
    ResetKeeps(data);
    if reading.Measured? {
      var Measured(n, tb, shown) := reading;
      ShownCodesAre(shown);
      var e := ExpectedDigits(shown);
      var codes := (CodeOf(e[0]), CodeOf(e[1]), CodeOf(e[2]), shown.Hundredths?);
      var b := BarPage(p, Bar(n));
      var d := DigitsPage(b, codes);
      BarPageKeeps(p, Bar(n));
      DigitsPageKeeps(b, e, shown.Hundredths?);
      UnitsPageKeeps(d, tb);
      SameUnknownBitsTrans(d, b, p);
      SameUnknownBitsTrans(UnitsPage(d, tb), d, p);
      SameUnknownBitsTrans(UnitsPage(d, tb), p, data);
    }
  }

  /** Clearing the bits of m keeps those of a mask disjoint from m. */
  lemma ClearKeeps(x: byte, m: byte, keep: byte)
    requires m & keep == 0
    ensures SameBits(x & !m, x, keep)
  {
  }

  lemma ResetKeeps(data: seq<byte>)
    requires |data| == FREE_SPACE_PAGE_SIZE
    ensures SameUnknownBits(Reset(data), data)
  {
    ClearKeeps(data[8], 0x80, 0x7F);
    ClearKeeps(data[11], 0xC0, 0x3F);
    ClearKeeps(data[14], 0x16, 0xE9);
    ClearKeeps(data[15], 0x02, 0xFD);
    ClearKeeps(data[16], 0x8F, 0x70);
    ClearKeeps(data[17], 0x8F, 0x70);
    ClearKeeps(data[18], 0x8F, 0x70);
  }

  lemma BarPageKeeps(p: seq<byte>, raw: bv16)
    requires |p| == FREE_SPACE_PAGE_SIZE
    ensures SameUnknownBits(BarPage(p, raw), p)
  {
    FrameKeeps(p[8]);
    BarLowKeeps(p[11], raw);
  }

  lemma FrameKeeps(b: byte)
    ensures SameBits(WithBit(b, 7, true), b, 0x7F)
  {
  }

  /** The low bar bits go to bits 6-7 of page_data[7] only. */
  lemma BarLowKeeps(b: byte, raw: bv16)
    ensures SameBits(b | ((raw & 3) << 6) as byte, b, 0x3F)
  {
  }

  lemma DigitsPageKeeps(p: seq<byte>, e: seq<Option<nat>>, point: bool)
    requires |p| == FREE_SPACE_PAGE_SIZE && |e| == 3 && DigitsInRange(e)
    ensures SameUnknownBits(DigitsPage(p, (CodeOf(e[0]), CodeOf(e[1]), CodeOf(e[2]), point)), p)
  {
    DigitsPageBytes(p, (CodeOf(e[0]), CodeOf(e[1]), CodeOf(e[2]), point));
    PointKeeps(p[15], point);
    CodeKeeps(p[16], e[0]);
    CodeKeeps(p[17], e[1]);
    CodeKeeps(p[18], e[2]);
  }

  lemma PointKeeps(b: byte, point: bool)
    ensures SameBits(if point then WithBit(b, 1, true) else b, b, 0xFD)
  {
  }

  /** A digit code leaves bits 4-6 of its position alone. */
  lemma CodeKeeps(b: byte, o: Option<nat>)
    requires o.Some? ==> o.value < 10
    ensures SameBits(b | CodeOf(o), b, 0x70)
  {
    if o.Some? {
      ByteOfInt(o.value);
      SmallCodeKeeps(b, o.value as byte);
    }
  }

  lemma SmallCodeKeeps(b: byte, x: byte)
    requires x < 10
    ensures SameBits(b | (0x80 | x), b, 0x70)
  {
  }

  lemma UnitsPageKeeps(p: seq<byte>, tb: bool)
    requires |p| == FREE_SPACE_PAGE_SIZE
    ensures SameUnknownBits(UnitsPage(p, tb), p)
  {
    UnitsByteKeeps(p[14], tb);
  }

  lemma UnitsByteKeeps(b: byte, tb: bool)
    ensures SameBits(WithBit(WithBit(b, if tb then 2 else 1, true), 4, true), b, 0xE9)
  {
  }

  /** The page code and length of the page read are never looked at: any
      20 bytes read lead to a send unless the value is too large, and the
      4 header bytes go back as they came. */
  lemma NoHeaderCheck(reading: Reading, data: seq<byte>, sendOk: bool)
    requires ValidReading(reading) && |data| == FREE_SPACE_PAGE_SIZE
    ensures var (result, sent) := FreeSpaceUpdate(reading, Some(data), sendOk);
      && (sent.Some? <==> !(reading.Measured? && reading.shown.TooLarge?))
      && (sent.Some? ==> sent.value[..4] == data[..4])
      && (result == 0 <==> sent.Some? && sendOk)
  {
    var (result, sent) := FreeSpaceUpdate(reading, Some(data), sendOk);
    if sent.Some? {
      KeepsUnknownBits(data, reading);
      assert forall k :: 0 <= k < 4 ==> sent.value[k] == data[k];
    }
  }
}
