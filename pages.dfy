/**
 * Structural checks of the two SCSI page families used by the display
 * (mode parameter header(6) + page_0 mode page, SPC-4 clauses 7.5.5 and
 * 7.5.7; diagnostic page header, SPC-4 clause 7.2) and single-bit access
 * to a byte buffer at a (byte offset, bit index) coordinate.
 */
module Pages {

  type byte = bv8

  datatype Option<T> = None | Some(value: T)

  /** check_mode_page: 0 when the header describes page `page` with a
      `len`-byte payload, no block descriptors and no subpage; 1 otherwise. */
  function CheckModePage(data: seq<byte>, page: byte, len: nat): (r: int)
    requires |data| >= 6
    ensures r == 0 || r == 1
    ensures r == 0 <==>
      && data[0] as int == len + 5
      && data[3] == 0
      && data[4] & 0x40 == 0
      && data[4] & 0x3F == page
      && data[5] as int == len
  {
    if data[0] as int != len + 5 then 1       // MODE DATA LENGTH
    else if data[3] != 0 then 1               // BLOCK DESCRIPTOR LENGTH
    else if data[4] & 0x40 != 0 then 1        // SPF
    else if data[4] & 0x3F != page then 1     // PAGE CODE
    else if data[5] as int != len then 1      // PAGE LENGTH
    else 0
  }

  /** A byte converted to an integer and back is unchanged. */
  lemma IntOfByte(b: byte)
    ensures (b as int) as byte == b
  {
  }

  /** The byte after b, when there is one, denotes the next integer. */
  lemma NextByte(b: byte)
    requires b as int < 255
    ensures (b + 1) as int == b as int + 1
  {
  }

  /** An integer from 0 to 255 converted to a byte denotes itself. */
  lemma {:induction false} ByteOfInt(n: int)
    requires 0 <= n < 256
    ensures (n as byte) as int == n
  {
    if n > 0 {
      ByteOfInt(n - 1);
      NextByte((n - 1) as byte);
      IntOfByte((n - 1) as byte + 1);
    }
  }

  /** A byte equals the conversion of the integer it denotes. */
  lemma ByteOfValue(b: byte, n: int)
    requires 0 <= n < 256
    ensures b as int == n <==> b == n as byte
  {
    IntOfByte(b);
    ByteOfInt(n);
  }

  /** The six header bytes of a well-formed page `page` (no subpage) with a
      `len`-byte payload: mode data length, medium type, device-specific
      parameter, block descriptor length 0, PS|page code, page length. */
  function ModePageHeader(page: byte, len: nat, mediumType: byte, deviceSpecific: byte, ps: bool): (h: seq<byte>)
    requires page < 0x40 && len <= 250
    ensures |h| == 6
  {
    [(len + 5) as byte, mediumType, deviceSpecific, 0,
     (if ps then 0x80 else 0) | page, len as byte]
  }

  /** A mode page is accepted exactly when its header is one that
      ModePageHeader builds, whatever the medium type, device-specific
      parameter and PS bit. */
  lemma ModePageAcceptedIffWellFormed(data: seq<byte>, page: byte, len: nat)
    requires |data| >= 6 && page < 0x40 && len <= 250
    ensures CheckModePage(data, page, len) == 0 <==>
            data[..6] == ModePageHeader(page, len, data[1], data[2], data[4] & 0x80 != 0)
  {
    SixBytes(data[..6], ModePageHeader(page, len, data[1], data[2], data[4] & 0x80 != 0));
    HeaderFieldsIff(data[0], data[3], data[4], data[5], page, len);
  }

  /** check_mode_page's tests on bytes 0, 3, 4 and 5 pass exactly when
      those bytes are the ones ModePageHeader writes. */
  lemma HeaderFieldsIff(b0: byte, b3: byte, b4: byte, b5: byte, page: byte, len: nat)
    requires page < 0x40 && len <= 250
    ensures var h := ModePageHeader(page, len, 0, 0, b4 & 0x80 != 0);
      (b0 as int == len + 5 && b3 == 0 && b4 & 0x40 == 0 && b4 & 0x3F == page && b5 as int == len) <==>
      (b0 == h[0] && b3 == h[3] && b4 == h[4] && b5 == h[5])
  {
    WellFormedModeHeaderFields(b0, b4, b5, page, len);
  }

  /** Two six-byte sequences are equal exactly when they agree byte by byte. */
  lemma SixBytes(a: seq<byte>, b: seq<byte>)
    requires |a| == |b| == 6
    ensures a == b <==> a[0] == b[0] && a[1] == b[1] && a[2] == b[2] && a[3] == b[3] && a[4] == b[4] && a[5] == b[5]
  {
    if a[0] == b[0] && a[1] == b[1] && a[2] == b[2] && a[3] == b[3] && a[4] == b[4] && a[5] == b[5] {
      assert forall i :: 0 <= i < 6 ==> a[i] == b[i];
    }
  }

  /** Field by field: the length bytes and byte 4 of a header are the ones
      ModePageHeader writes exactly when check_mode_page's tests pass. */
  lemma WellFormedModeHeaderFields(b0: byte, b4: byte, b5: byte, page: byte, len: nat)
    requires page < 0x40 && len <= 250
    ensures b0 as int == len + 5 <==> b0 == (len + 5) as byte
    ensures b5 as int == len <==> b5 == len as byte
    ensures (b4 & 0x40 == 0 && b4 & 0x3F == page) <==> b4 == (if b4 & 0x80 != 0 then 0x80 else 0) | page
  {
    ByteOfValue(b0, len + 5);
    ByteOfValue(b5, len);
    PageCodeByte(b4, page);
  }

  /** Byte 4 of a mode page holds SPF clear and page code `page` exactly
      when it is `page` with at most the PS bit added. */
  lemma PageCodeByte(b: byte, page: byte)
    requires page < 0x40
    ensures (b & 0x40 == 0 && b & 0x3F == page) <==> b == (if b & 0x80 != 0 then 0x80 else 0) | page
  {
  }

  /** A page code needing more than six bits, or a payload whose length
      does not fit the one-byte MODE DATA LENGTH, is never accepted. */
  lemma ModePageUnrepresentableRejected(data: seq<byte>, page: byte, len: nat)
    requires |data| >= 6 && (page >= 0x40 || len > 250)
    ensures CheckModePage(data, page, len) == 1
  {
  }

  /** check_diag_page: 0 when the page code is `page` and the big-endian
      PAGE LENGTH field equals `len`; 1 otherwise. */
  function CheckDiagPage(data: seq<byte>, page: byte, len: nat): (r: int)
    requires |data| >= 4
    ensures r == 0 || r == 1
    ensures r == 0 <==> data[0] == page && data[2] as int * 256 + data[3] as int == len
  {
    if data[0] != page then 1                                      // PAGE CODE
    else if data[2] as int * 256 + data[3] as int != len then 1    // PAGE LENGTH
    else 0
  }

  /** Header of a diagnostic page: page code, reserved byte, 16-bit big-endian length. */
  function DiagPageHeader(page: byte, len: nat, reserved: byte): (h: seq<byte>)
    requires len < 0x10000
    ensures |h| == 4
  {
    [page, reserved, (len / 256) as byte, (len % 256) as byte]
  }

  /** A diagnostic page is accepted exactly when its header is one that
      DiagPageHeader builds; a length that does not fit 16 bits never is. */
  lemma DiagPageAcceptedIffWellFormed(data: seq<byte>, page: byte, len: nat)
    requires |data| >= 4
    ensures len >= 0x10000 ==> CheckDiagPage(data, page, len) == 1
    ensures len < 0x10000 ==>
      (CheckDiagPage(data, page, len) == 0 <==> data[..4] == DiagPageHeader(page, len, data[1]))
  {
    if len < 0x10000 {
      var h := DiagPageHeader(page, len, data[1]);
      ByteOfValue(data[2], len / 256);
      ByteOfValue(data[3], len % 256);
      BigEndianDigits(data[2] as int, data[3] as int, len);
      if data[..4] == h {
        assert data[0] == h[0] && data[2] == h[2] && data[3] == h[3];
      }
      if CheckDiagPage(data, page, len) == 0 {
        assert data[..4] == h;
      }
    }
  }

  /** A two-byte big-endian value determines its high and low bytes. */
  lemma BigEndianDigits(hi: int, lo: int, n: int)
    requires 0 <= hi < 256 && 0 <= lo < 256
    ensures hi * 256 + lo == n <==> (0 <= n && hi == n / 256 && lo == n % 256)
  {
  }

  /** Whether bit `bit` of `b` is set. */
  predicate TestBit(b: byte, bit: nat)
    requires bit < 8
  {
    b & (1 << bit) != 0
  }

  /** Whether bit `bit` of the 16-bit word `w` is set. */
  predicate TestWordBit(w: bv16, bit: nat)
    requires bit < 16
  {
    w & (1 << bit) != 0
  }

  /** `b` with bit `bit` set (`value`) or cleared (not `value`); all the
      other bits are those of `b`. */
  function WithBit(b: byte, bit: nat, value: bool): (r: byte)
    requires bit < 8
    ensures TestBit(r, bit) == value
    ensures r & !(1 << bit) == b & !(1 << bit)
  {
    if value then b | (1 << bit) else b & !(1 << bit)
  }

  /** Bit by bit: every bit other than `bit` keeps its value. */
  lemma WithBitOtherBit(b: byte, bit: nat, value: bool, k: nat)
    requires bit < 8 && k < 8 && k != bit
    ensures TestBit(WithBit(b, bit, value), k) == TestBit(b, k)
  {
    OtherBitMask(bit, k);
    MaskedBit(WithBit(b, bit, value), 1 << k, !(1 << bit));
    MaskedBit(b, 1 << k, !(1 << bit));
  }

  lemma OtherBitMask(bit: nat, k: nat)
    requires bit < 8 && k < 8 && k != bit
    ensures ((1 as byte) << k) & !((1 as byte) << bit) == (1 as byte) << k
  {
  }

  lemma MaskedBit(x: byte, m: byte, n: byte)
    requires m & n == m
    ensures x & m == (x & n) & m
  {
  }

  /** Writing the value a bit already has leaves the byte as it is; hence
      writing the same value twice is the same as writing it once. */
  lemma WithBitIdempotent(b: byte, bit: nat, value: bool)
    requires bit < 8
    ensures TestBit(b, bit) == value ==> WithBit(b, bit, value) == b
    ensures WithBit(WithBit(b, bit, value), bit, value) == WithBit(b, bit, value)
  {
  }

  /** get_bit: 1 when bit `bit` of data[offset] is set, else 0. */
  function GetBit(data: seq<byte>, offset: nat, bit: nat): (r: int)
    requires offset < |data| && bit < 8
    ensures r == 0 || r == 1
    ensures r == 1 <==> TestBit(data[offset], bit)
  {
    if data[offset] & (1 << bit) != 0 then 1 else 0
  }

  /** set_bit: sets (value != 0) or clears bit `bit` of data[offset] in
      place; every other bit of that byte and every other byte stay. */
  method SetBit(data: array<byte>, offset: nat, bit: nat, value: int)
    requires offset < data.Length && bit < 8
    modifies data
    ensures data[..] == old(data[..])[offset := WithBit(old(data[offset]), bit, value != 0)]
    ensures GetBit(data[..], offset, bit) == (if value != 0 then 1 else 0)
  {
    if value != 0 {
      data[offset] := data[offset] | (1 << bit);
    } else {
      data[offset] := data[offset] & !(1 << bit);
    }
  }
}
