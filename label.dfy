/**
 * The label buffer of diagnostic page 0x87: twelve slots, each a 16-bit
 * big-endian segment mask, 24 bytes in all. Two encoders fill it from a
 * command-line argument: text (one table glyph per character) and raw hex
 * (one 4-digit group per slot).
 */
module LabelCodec {

  import opened Pages
  import opened Glyphs

  datatype LabelError =
    | TextTooLong(len: nat)
    | UnsupportedChar(c: char, offset: nat)
    | RawTooLong(len: nat)
    | RawBadLength(len: nat)
    | NotHex(group: nat)
    | InvalidMask(group: nat)
    | TwoLabelOptions

  datatype Result<T> = Ok(value: T) | Err(error: LabelError)

  // ---------------------------------------------------------------------
  // Slots

  /** The mask of slot i, read as `(buf[2i] << 8) | buf[2i + 1]`. */
  function SlotMask(buf: seq<byte>, i: nat): bv16
    requires 2 * i + 1 < |buf|
  {
    (buf[2 * i] as bv16 << 8) | buf[2 * i + 1] as bv16
  }

  /** The slot mask is the big-endian value of its two bytes. */
  lemma SlotMaskValue(buf: seq<byte>, i: nat)
    requires 2 * i + 1 < |buf|
    ensures SlotMask(buf, i) as int == buf[2 * i] as int * 256 + buf[2 * i + 1] as int
  {
    BytesValue(buf[2 * i], buf[2 * i + 1]);
  }

  lemma BytesValue(hi: byte, lo: byte)
    ensures ((hi as bv16 << 8) | lo as bv16) as int == hi as int * 256 + lo as int
  {
  }

  /** `(value >> 8) & 0xFF` of a C int in two's complement (the shift is
      arithmetic, so it rounds towards minus infinity like Dafny's `/`). */
  function HighByte(value: int): (b: byte)
    ensures b as int == (value / 256) % 256
  {
    ByteOfInt((value / 256) % 256);
    ((value / 256) % 256) as byte
  }

  /** `value & 0xFF` of a C int in two's complement. */
  function LowByte(value: int): (b: byte)
    ensures b as int == value % 256
  {
    ByteOfInt(value % 256);
    (value % 256) as byte
  }

  /** The two bytes of a value hold its low 16 bits, high byte first. */
  lemma ValueBytes(value: int)
    ensures HighByte(value) as int * 256 + LowByte(value) as int == value % 0x10000
  {
    var q := value / 256;
    assert value == 256 * q + value % 256;
    assert q == 256 * (q / 256) + q % 256;
    assert value == 0x10000 * (q / 256) + (256 * (q % 256) + value % 256);
  }

  /** A zero-initialised label buffer with `values` stored big-endian in
      the first slots, two bytes each. */
  function EncodeSlots(values: seq<int>): (buf: seq<byte>)
    requires |values| <= LABEL_LEN
    ensures |buf| == LABEL_LEN_RAW
  {
    seq(LABEL_LEN_RAW, k requires 0 <= k < LABEL_LEN_RAW =>
      if k / 2 < |values| then
        (if k % 2 == 0 then HighByte(values[k / 2]) else LowByte(values[k / 2]))
      else 0)
  }

  /** Encoding no values gives the zeroed buffer. */
  lemma EncodeNoSlots()
    ensures EncodeSlots([]) == seq(LABEL_LEN_RAW, _ => 0)
  {
  }

  /** Stores `value` big-endian in slot i of the buffer. */
  method StoreSlot(buf: array<byte>, i: nat, value: int)
    requires 2 * i + 1 < buf.Length
    modifies buf
    ensures buf[..] == old(buf[..])[2 * i := HighByte(value)][2 * i + 1 := LowByte(value)]
  {
    buf[i * 2] := HighByte(value);
    buf[i * 2 + 1] := LowByte(value);
  }

  /** Slot i of an encoded label holds the low 16 bits of value i, or
      nothing past the values. */
  lemma SlotOfEncoded(values: seq<int>, i: nat)
    requires |values| <= LABEL_LEN && i < LABEL_LEN
    ensures SlotMask(EncodeSlots(values), i) as int == if i < |values| then values[i] % 0x10000 else 0
  {
    var buf := EncodeSlots(values);
    assert (2 * i) / 2 == i && (2 * i + 1) / 2 == i && (2 * i) % 2 == 0 && (2 * i + 1) % 2 == 1;
    SlotMaskValue(buf, i);
    if i < |values| {
      assert buf[2 * i] == HighByte(values[i]) && buf[2 * i + 1] == LowByte(values[i]);
      ValueBytes(values[i]);
    } else {
      assert buf[2 * i] == 0 && buf[2 * i + 1] == 0;
    }
  }

  /** Reading back an encoded label gives each value that fits 16 bits,
      then blank slots. */
  lemma DecodeEncodeSlots(values: seq<int>)
    requires |values| <= LABEL_LEN
    ensures forall i :: 0 <= i < LABEL_LEN ==>
      SlotMask(EncodeSlots(values), i) as int == if i < |values| then values[i] % 0x10000 else 0
    ensures forall i :: 0 <= i < |values| && 0 <= values[i] < 0x10000 ==>
      SlotMask(EncodeSlots(values), i) as int == values[i]
  {
    forall i | 0 <= i < LABEL_LEN
      ensures SlotMask(EncodeSlots(values), i) as int == if i < |values| then values[i] % 0x10000 else 0
    {
      SlotOfEncoded(values, i);
    }
    forall i | 0 <= i < |values| && 0 <= values[i] < 0x10000
      ensures SlotMask(EncodeSlots(values), i) as int == values[i]
    {
      SlotOfEncoded(values, i);
      ModWord(values[i]);
    }
  }

  lemma ModWord(v: int)
    ensures 0 <= v < 0x10000 ==> v % 0x10000 == v
  {
  }

  /** Storing one more value writes exactly the next two bytes. */
  lemma {:induction false} EncodeSlotsAppend(values: seq<int>, v: int)
    requires |values| < LABEL_LEN
    ensures EncodeSlots(values + [v]) ==
      EncodeSlots(values)[2 * |values| := HighByte(v)][2 * |values| + 1 := LowByte(v)]
  {
    var n := |values|;
    var vs := values + [v];
    forall k | 0 <= k < LABEL_LEN_RAW
      ensures EncodeSlots(vs)[k] == EncodeSlots(values)[2 * n := HighByte(v)][2 * n + 1 := LowByte(v)][k]
    {
      if k / 2 < n {
        assert vs[k / 2] == values[k / 2];
      }
    }
  }

  // ---------------------------------------------------------------------
  // Text labels

  /** Index of the first character without a glyph, searching from `from`. */
  function FirstUnsupportedFrom(text: string, from: nat): (r: Option<nat>)
    requires from <= |text|
    ensures r.None? <==> forall i :: from <= i < |text| ==> GetLabelChar(text[i]) != -1
    ensures r.Some? ==> from <= r.value < |text| && GetLabelChar(text[r.value]) == -1
                        && forall i :: from <= i < r.value ==> GetLabelChar(text[i]) != -1
    decreases |text| - from
  {
    if from == |text| then None
    else if GetLabelChar(text[from]) == -1 then Some(from)
    else FirstUnsupportedFrom(text, from + 1)
  }

  /** The glyph masks of the characters of a text. */
  function TextMasks(text: string): (masks: seq<int>)
  {
    seq(|text|, i requires 0 <= i < |text| => GetLabelChar(text[i]))
  }

  /** What the text-label loop of the program produces: too long, the first
      character without a glyph, or the label buffer. */
  function TextLabel(text: string): Result<seq<byte>>
  {
    if |text| > LABEL_LEN then Err(TextTooLong(|text|))
    else match FirstUnsupportedFrom(text, 0)
      case Some(i) => Err(UnsupportedChar(text[i], i))
      case None => Ok(EncodeSlots(TextMasks(text)))
  }

  /** A text is accepted exactly when it has at most twelve characters, all
      with a glyph; then slot i holds the glyph of character i and the
      slots after the text are blank. A text too long is refused with its
      length; otherwise the first character without a glyph is reported
      with its offset. */
  lemma TextLabelMeaning(text: string)
    ensures TextLabel(text).Ok? <==>
      |text| <= LABEL_LEN && forall i :: 0 <= i < |text| ==> GetLabelChar(text[i]) != -1
    ensures |text| > LABEL_LEN ==> TextLabel(text) == Err(TextTooLong(|text|))
    ensures TextLabel(text).Ok? ==>
      var buf := TextLabel(text).value;
      && |buf| == LABEL_LEN_RAW
      && (forall i :: 0 <= i < |text| ==> SlotMask(buf, i) as int == GetLabelChar(text[i]))
      && (forall i :: |text| <= i < LABEL_LEN ==> SlotMask(buf, i) == 0)
    ensures |text| <= LABEL_LEN ==>
      forall i :: 0 <= i < |text| && GetLabelChar(text[i]) == -1
                  && (forall k :: 0 <= k < i ==> GetLabelChar(text[k]) != -1) ==>
        TextLabel(text) == Err(UnsupportedChar(text[i], i))
  {
    var first := FirstUnsupportedFrom(text, 0);
    if |text| <= LABEL_LEN && first.None? {
      var masks := TextMasks(text);
      var buf := EncodeSlots(masks);
      assert TextLabel(text) == Ok(buf);
      DecodeEncodeSlots(masks);
      assert forall i :: 0 <= i < |text| ==> 0 <= masks[i] < 0x10000;
    }
  }

  /** Storing the glyph of character i turns the encoding of the first i
      characters into that of the first i + 1. */
  lemma TextLabelStep(text: string, i: nat)
    requires i < |text| && i < LABEL_LEN
    ensures EncodeSlots(TextMasks(text[..i + 1])) ==
      EncodeSlots(TextMasks(text[..i]))[2 * i := HighByte(GetLabelChar(text[i]))][2 * i + 1 := LowByte(GetLabelChar(text[i]))]
  {
    assert TextMasks(text[..i + 1]) == TextMasks(text[..i]) + [GetLabelChar(text[i])];
    EncodeSlotsAppend(TextMasks(text[..i]), GetLabelChar(text[i]));
  }

  /** The text label of a text whose first unsupported character, if any,
      is known. */
  lemma TextLabelOfPrefix(text: string, i: nat)
    requires |text| <= LABEL_LEN && i <= |text|
    requires forall k :: 0 <= k < i ==> GetLabelChar(text[k]) != -1
    ensures i < |text| && GetLabelChar(text[i]) == -1 ==> TextLabel(text) == Err(UnsupportedChar(text[i], i))
    ensures i == |text| ==> TextLabel(text) == Ok(EncodeSlots(TextMasks(text[..i])))
  {
    if i < |text| && GetLabelChar(text[i]) == -1 {
      assert FirstUnsupportedFrom(text, 0) == Some(i);
    }
    if i == |text| {
      assert text[..i] == text;
      assert FirstUnsupportedFrom(text, 0) == None;
    }
  }

  /** The text-label loop: store the glyph of each character big-endian in
      its slot of a zeroed buffer, stopping at the first unsupported one. */
  method EncodeTextLabel(text: string) returns (r: Result<seq<byte>>)
    ensures r == TextLabel(text)
  {
    var newLabel := new byte[LABEL_LEN_RAW](_ => 0);
    if |text| > LABEL_LEN {
      return Err(TextTooLong(|text|));
    }
    assert TextMasks(text[..0]) == [];
    EncodeNoSlots();
    var i := 0;
    while i < |text|
      invariant 0 <= i <= |text|
      invariant forall k :: 0 <= k < i ==> GetLabelChar(text[k]) != -1
      invariant newLabel[..] == EncodeSlots(TextMasks(text[..i]))
    {
      var value := GetLabelChar(text[i]);
      if value == -1 {
        TextLabelOfPrefix(text, i);
        return Err(UnsupportedChar(text[i], i));
      }
      StoreSlot(newLabel, i, value);
      TextLabelStep(text, i);
      i := i + 1;
    }
    TextLabelOfPrefix(text, i);
    return Ok(newLabel[..]);
  }

  // ---------------------------------------------------------------------
  // strtol(word, &endp, 16) on one 4-character group

  /** isspace in the C locale: space, \t, \n, \v, \f, \r. */
  predicate IsSpace(c: char)
  {
    c == ' ' || 9 <= c as int <= 13
  }

  /** Value of a hexadecimal digit, or -1. */
  function HexDigit(c: char): (d: int)
    ensures -1 <= d < 16
  {
    if '0' <= c <= '9' then c as int - '0' as int
    else if 'a' <= c <= 'f' then c as int - 'a' as int + 10
    else if 'A' <= c <= 'F' then c as int - 'A' as int + 10
    else -1
  }

  /** The character at k of the NUL-terminated copy of w. */
  function CharAt(w: string, k: nat): char
  {
    if k < |w| then w[k] else '\0'
  }

  function SkipSpaces(w: string, k: nat): (e: nat)
    requires k <= |w|
    ensures k <= e <= |w|
    decreases |w| - k
  {
    if k < |w| && IsSpace(w[k]) then SkipSpaces(w, k + 1) else k
  }

  function SkipHexDigits(w: string, k: nat): (e: nat)
    requires k <= |w|
    ensures k <= e <= |w|
    ensures forall i :: k <= i < e ==> HexDigit(w[i]) >= 0
    ensures e < |w| ==> HexDigit(w[e]) < 0
    decreases |w| - k
  {
    if k < |w| && HexDigit(w[k]) >= 0 then SkipHexDigits(w, k + 1) else k
  }

  /** Value of the hexadecimal digits w[from..to], most significant first. */
  function HexValue(w: string, from: nat, to: nat): (v: nat)
    requires from <= to <= |w|
    requires forall i :: from <= i < to ==> HexDigit(w[i]) >= 0
    ensures v < Pow16(to - from)
  {
    if to == from then 0 else HexValue(w, from, to - 1) * 16 + HexDigit(w[to - 1])
  }

  function Pow16(n: nat): (p: nat)
    ensures p >= 1
  {
    if n == 0 then 1 else 16 * Pow16(n - 1)
  }

  /** strtol with base 16, as the C library does it: leading white space,
      an optional sign, an optional "0x"/"0X" prefix, then hex digits.
      Returns the value and the index endp points to. With no digits the
      value is 0 and endp points to the start, or to the 'x' of a prefix
      that no digit follows. */
  function Strtol16(w: string): (r: (int, nat))
    ensures r.1 <= |w|
  {
    var s0 := SkipSpaces(w, 0);
    var signed := s0 < |w| && (w[s0] == '-' || w[s0] == '+');
    var s1 := if signed then s0 + 1 else s0;
    var prefixed := CharAt(w, s1) == '0' && (CharAt(w, s1 + 1) == 'x' || CharAt(w, s1 + 1) == 'X');
    var s2 := if prefixed then s1 + 2 else s1;
    var s3 := SkipHexDigits(w, s2);
    if s3 == s2 then
      (0, if prefixed then s2 - 1 else 0)
    else
      var v: int := HexValue(w, s2, s3);
      (if signed && w[s0] == '-' then -v else v, s3)
  }

  /** Four hex digits are read by strtol as their hexadecimal value, up to the end. */
  lemma StrtolOfHexDigits(w: string)
    requires |w| == 4 && forall i :: 0 <= i < 4 ==> HexDigit(w[i]) >= 0
    ensures Strtol16(w) == (HexValue(w, 0, 4), 4)
  {
    assert !IsSpace(w[0]);
    assert SkipSpaces(w, 0) == 0;
    var prefixed := CharAt(w, 0) == '0' && (CharAt(w, 1) == 'x' || CharAt(w, 1) == 'X');
    assert !prefixed;
    assert SkipHexDigits(w, 3) == 4;
    assert SkipHexDigits(w, 0) == 4;
  }

  // ---------------------------------------------------------------------
  // Raw labels

  /** Group i of a raw label, checked as the program does: strtol must end
      at the group's end, and the value must not exceed 0x3FFF. When
      `rejectNegative` is set, a negative value is refused as well. */
  function RawGroup(hex: string, i: nat, rejectNegative: bool): (r: Result<int>)
    requires 4 * i + 4 <= |hex|
    ensures r.Ok? ==> r.value <= 0x3FFF && (rejectNegative ==> 0 <= r.value)
    ensures r.Err? ==> r.error == NotHex(i) || r.error == InvalidMask(i)
  {
    var word := hex[4 * i .. 4 * i + 4];
    var (value, endp) := Strtol16(word);
    if CharAt(word, endp) != '\0' then Err(NotHex(i))
    else if value > 0x3FFF || (rejectNegative && value < 0) then Err(InvalidMask(i))
    else Ok(value)
  }

  /** The masks of the first n groups, or the error of the first bad one. */
  function RawMasks(hex: string, n: nat, rejectNegative: bool): (r: Result<seq<int>>)
    requires 4 * n <= |hex|
    ensures r.Ok? ==> |r.value| == n
    decreases n
  {
    if n == 0 then Ok([])
    else match RawMasks(hex, n - 1, rejectNegative)
      case Err(e) => Err(e)
      case Ok(masks) =>
        match RawGroup(hex, n - 1, rejectNegative)
        case Err(e) => Err(e)
        case Ok(m) => Ok(masks + [m])
  }

  /** What the raw-label part of the program produces. */
  function RawLabelWith(hex: string, rejectNegative: bool): Result<seq<byte>>
  {
    if |hex| > LABEL_LEN_RAW * 2 then Err(RawTooLong(|hex|))
    else if |hex| % 4 != 0 then Err(RawBadLength(|hex|))
    else match RawMasks(hex, |hex| / 4, rejectNegative)
      case Err(e) => Err(e)
      case Ok(masks) => Ok(EncodeSlots(masks))
  }

  /** The raw-label checks as the program states them: only `value > 0x3FFF`
      is refused, so strtol's sign lets a negative group through. */
  function RawLabelAsWritten(hex: string): (r: Result<seq<byte>>)
    ensures r.Ok? ==> |r.value| == LABEL_LEN_RAW
    ensures RawLabel(hex).Ok? ==> r == RawLabel(hex)
  {
    if |hex| <= LABEL_LEN_RAW * 2 && |hex| % 4 == 0 && RawMasks(hex, |hex| / 4, true).Ok? then
      AsWrittenAcceptsMore(hex, |hex| / 4);
      RawLabelWith(hex, false)
    else RawLabelWith(hex, false)
  }

  /** Whatever the corrected check accepts, the check as written accepts
      too, with the same masks. */
  lemma {:induction false} AsWrittenAcceptsMore(hex: string, n: nat)
    requires 4 * n <= |hex| && RawMasks(hex, n, true).Ok?
    ensures RawMasks(hex, n, false) == RawMasks(hex, n, true)
  {
    if n > 0 {
      AsWrittenAcceptsMore(hex, n - 1);
    }
  }

  /** The raw-label checks with the 14-bit range enforced on both sides. */
  function RawLabel(hex: string): Result<seq<byte>>
  {
    RawLabelWith(hex, true)
  }

  /** strtol reads "-001" as -1, consuming all four characters. */
  lemma StrtolMinusOne()
    ensures Strtol16("-001") == (-1, 4)
  {
    var w := "-001";
    assert SkipSpaces(w, 0) == 0;
    assert SkipHexDigits(w, 4) == 4;
    assert SkipHexDigits(w, 1) == 4;
    assert HexValue(w, 1, 4) == 1 by {
      assert HexValue(w, 1, 1) == 0;
      assert HexValue(w, 1, 2) == 0;
      assert HexValue(w, 1, 3) == 0;
    }
  }

  /** The group "-001" passes the program's check and stores 0xFFFF, a mask
      with the two bits the display does not have; the corrected check
      refuses it. */
  lemma RawLabelAsWrittenAcceptsNegative()
    ensures RawLabelAsWritten("-001").Ok?
    ensures SlotMask(RawLabelAsWritten("-001").value, 0) == 0xFFFF
    ensures RawLabel("-001") == Err(InvalidMask(0))
  {
    var w := "-001";
    assert w[0..4] == w;
    StrtolMinusOne();
    assert RawGroup(w, 0, false) == Ok(-1);
    assert RawGroup(w, 0, true) == Err(InvalidMask(0));
    assert RawMasks(w, 0, false) == Ok([]);
    assert RawMasks(w, 1, false) == Ok([] + [-1]);
    SlotOfEncoded([-1], 0);
  }

  /** Once a group is refused, every longer prefix of groups reports that
      same first error. */
  lemma {:induction false} RawMasksFirstError(hex: string, i: nat, n: nat, rejectNegative: bool)
    requires i <= n && 4 * n <= |hex| && RawMasks(hex, i, rejectNegative).Err?
    ensures RawMasks(hex, n, rejectNegative) == RawMasks(hex, i, rejectNegative)
    decreases n
  {
    if n > i {
      RawMasksFirstError(hex, i, n - 1, rejectNegative);
    }
  }

  /** Every group the corrected check accepts fits 14 bits. */
  lemma {:induction false} RawMasksFit(hex: string, n: nat)
    requires 4 * n <= |hex| && RawMasks(hex, n, true).Ok?
    ensures forall i :: 0 <= i < n ==>
      RawGroup(hex, i, true).Ok? && RawMasks(hex, n, true).value[i] == RawGroup(hex, i, true).value
    ensures forall i :: 0 <= i < n ==> 0 <= RawMasks(hex, n, true).value[i] <= 0x3FFF
  {
    if n > 0 {
      RawMasksFit(hex, n - 1);
    }
  }

  /** When every group passes the corrected check, so do all n of them
      together. */
  lemma {:induction false} AllGroupsOk(hex: string, n: nat)
    requires 4 * n <= |hex|
    requires forall i :: 0 <= i < n ==> RawGroup(hex, i, true).Ok?
    ensures RawMasks(hex, n, true).Ok?
  {
    if n > 0 {
      AllGroupsOk(hex, n - 1);
      RawMasksStep(hex, n - 1, RawMasks(hex, n - 1, true).value);
    }
  }

  /** A raw label of whole groups, within the length limit, whose groups
      all pass is accepted. */
  lemma AllGroupsAccepted(hex: string)
    requires |hex| <= LABEL_LEN_RAW * 2 && |hex| % 4 == 0
    requires forall i :: 0 <= i < |hex| / 4 ==> RawGroup(hex, i, true).Ok?
    ensures RawLabel(hex).Ok?
  {
    AllGroupsOk(hex, |hex| / 4);
    RawLabelOfMasks(hex, RawMasks(hex, |hex| / 4, true));
  }

  /** An accepted raw label holds its groups' values, then blank slots. */
  lemma AcceptedRawLabel(hex: string)
    requires RawLabel(hex).Ok?
    ensures var buf := RawLabel(hex).value;
      && |buf| == LABEL_LEN_RAW && |hex| % 4 == 0
      && (forall i :: 0 <= i < |hex| / 4 ==>
            RawGroup(hex, i, true).Ok? && SlotMask(buf, i) as int == RawGroup(hex, i, true).value)
      && (forall i :: 0 <= i < LABEL_LEN ==> SlotMask(buf, i) <= 0x3FFF)
      && (forall i :: |hex| / 4 <= i < LABEL_LEN ==> SlotMask(buf, i) == 0)
  {
    var masks := RawMasks(hex, |hex| / 4, true).value;
    RawMasksFit(hex, |hex| / 4);
    DecodeEncodeSlots(masks);
  }

  /** A raw label is accepted exactly when it has at most 48 characters, a
      multiple of four, and every group is accepted; then slot i holds group
      i, at most 0x3FFF, and the slots after the groups are blank. */
  lemma RawLabelMeaning(hex: string)
    ensures |hex| > LABEL_LEN_RAW * 2 ==> RawLabel(hex) == Err(RawTooLong(|hex|))
    ensures |hex| <= LABEL_LEN_RAW * 2 && |hex| % 4 != 0 ==> RawLabel(hex) == Err(RawBadLength(|hex|))
    ensures RawLabel(hex).Ok? ==>
      var buf := RawLabel(hex).value;
      && |buf| == LABEL_LEN_RAW && |hex| % 4 == 0
      && (forall i :: 0 <= i < |hex| / 4 ==>
            RawGroup(hex, i, true).Ok? && SlotMask(buf, i) as int == RawGroup(hex, i, true).value)
      && (forall i :: 0 <= i < LABEL_LEN ==> SlotMask(buf, i) <= 0x3FFF)
      && (forall i :: |hex| / 4 <= i < LABEL_LEN ==> SlotMask(buf, i) == 0)
    ensures (&& |hex| <= LABEL_LEN_RAW * 2 && |hex| % 4 == 0
             && forall i :: 0 <= i < |hex| / 4 ==> RawGroup(hex, i, true).Ok?) ==> RawLabel(hex).Ok?
  {
    if && |hex| <= LABEL_LEN_RAW * 2 && |hex| % 4 == 0
       && forall i :: 0 <= i < |hex| / 4 ==> RawGroup(hex, i, true).Ok? {
      AllGroupsAccepted(hex);
    }
    if RawLabel(hex).Ok? {
      AcceptedRawLabel(hex);
    }
  }

  /** For groups of plain hex digits the corrected check is the textbook
      one: group i is accepted exactly when its hexadecimal value is at
      most 0x3FFF, and that value is what is stored. */
  lemma PlainHexGroup(hex: string, i: nat)
    requires 4 * i + 4 <= |hex|
    requires forall k :: 4 * i <= k < 4 * i + 4 ==> HexDigit(hex[k]) >= 0
    ensures var v := HexValue(hex[4 * i .. 4 * i + 4], 0, 4);
      RawGroup(hex, i, true) == if v > 0x3FFF then Err(InvalidMask(i)) else Ok(v)
  {
    StrtolOfHexDigits(hex[4 * i .. 4 * i + 4]);
  }

  /** One more group extends the accepted prefix, or reports its error. */
  lemma RawMasksStep(hex: string, i: nat, masks: seq<int>)
    requires 4 * i + 4 <= |hex| && RawMasks(hex, i, true) == Ok(masks)
    ensures RawGroup(hex, i, true).Ok? ==> RawMasks(hex, i + 1, true) == Ok(masks + [RawGroup(hex, i, true).value])
    ensures RawGroup(hex, i, true).Err? ==> RawMasks(hex, i + 1, true) == Err(RawGroup(hex, i, true).error)
  {
  }

  /** The raw label once all groups have been looked at. */
  lemma RawLabelOfMasks(hex: string, r: Result<seq<int>>)
    requires |hex| <= LABEL_LEN_RAW * 2 && |hex| % 4 == 0 && RawMasks(hex, |hex| / 4, true) == r
    ensures r.Ok? ==> RawLabel(hex) == Ok(EncodeSlots(r.value))
    ensures r.Err? ==> RawLabel(hex) == Err(r.error)
  {
  }

  /** One pass of the raw-label loop: check group i and, when it is
      accepted, store it in its slot; the label so far then holds one
      more group, and a refused group leaves the buffer as it was. */
  method StoreGroup(newLabel: array<byte>, hex: string, i: nat, ghost masks: seq<int>) returns (group: Result<int>)
    requires newLabel.Length == LABEL_LEN_RAW && 4 * i + 4 <= |hex| && i < LABEL_LEN
    requires RawMasks(hex, i, true) == Ok(masks) && newLabel[..] == EncodeSlots(masks)
    modifies newLabel
    ensures group.Ok? ==> RawMasks(hex, i + 1, true) == Ok(masks + [group.value])
    ensures group.Ok? ==> newLabel[..] == EncodeSlots(masks + [group.value])
    ensures group.Err? ==> RawMasks(hex, i + 1, true) == Err(group.error) && newLabel[..] == old(newLabel[..])
  {
    group := RawGroup(hex, i, true);
    RawMasksStep(hex, i, masks);
    if group.Ok? {
      StoreSlot(newLabel, i, group.value);
      EncodeSlotsAppend(masks, group.value);
    }
  }

  /** The raw-label loop over n groups: the masks of the groups, or the
      first group's error; when every group is accepted the buffer holds
      their encoding. */
  method StoreGroups(newLabel: array<byte>, hex: string, n: nat) returns (r: Result<seq<int>>)
    requires newLabel.Length == LABEL_LEN_RAW && 4 * n <= |hex| && n <= LABEL_LEN
    requires newLabel[..] == EncodeSlots([])
    modifies newLabel
    ensures r == RawMasks(hex, n, true)
    ensures r.Ok? ==> newLabel[..] == EncodeSlots(r.value)
  {
    var masks: seq<int> := [];
    var i := 0;
    while i < n
      invariant 0 <= i <= n
      invariant RawMasks(hex, i, true) == Ok(masks)
      invariant newLabel[..] == EncodeSlots(masks)
    {
      var group := StoreGroup(newLabel, hex, i, masks);
      if group.Err? {
        RawMasksFirstError(hex, i + 1, n, true);
        return Err(group.error);
      }
      masks := masks + [group.value];
      i := i + 1;
    }
    return Ok(masks);
  }

  /** The raw-label part of the program: check the length, then check each
      4-character group and store its value big-endian in its slot of a
      zeroed buffer. */
  method EncodeRawLabel(hex: string) returns (r: Result<seq<byte>>)
    ensures r == RawLabel(hex)
  {
    var newLabel := new byte[LABEL_LEN_RAW](_ => 0);
    var len := |hex|;
    if len > LABEL_LEN_RAW * 2 {
      return Err(RawTooLong(len));
    }
    if len % 4 != 0 {
      return Err(RawBadLength(len));
    }
    EncodeNoSlots();
    var masks := StoreGroups(newLabel, hex, len / 4);
    RawLabelOfMasks(hex, masks);
    if masks.Err? {
      return Err(masks.error);
    }
    return Ok(newLabel[..]);
  }

  // ---------------------------------------------------------------------
  // Label options

  /** Wraps an encoded label as the label the handler is given. */
  function Given(r: Result<seq<byte>>): Result<Option<seq<byte>>>
  {
    match r
    case Ok(buf) => Ok(Some(buf))
    case Err(e) => Err(e)
  }

  /** The new label the command line asks for, or why it is refused. */
  function LabelChoice(text: Option<string>, raw: Option<string>): (r: Result<Option<seq<byte>>>)
    ensures r.Ok? && r.value.Some? ==> |r.value.value| == LABEL_LEN_RAW
  {
    if text.Some? && raw.Some? then Err(TwoLabelOptions)
    else if text.Some? then
      TextLabelMeaning(text.value);
      Given(TextLabel(text.value))
    else if raw.Some? then
      RawLabelMeaning(raw.value);
      Given(RawLabel(raw.value))
    else Ok(None)
  }

  /** The label options of the command line: at most one of text and raw
      may be given; no option means no new label. */
  method LabelOptions(text: Option<string>, raw: Option<string>) returns (r: Result<Option<seq<byte>>>)
    ensures r == LabelChoice(text, raw)
    ensures text.Some? && raw.Some? ==> r == Err(TwoLabelOptions)
    ensures text.Some? && raw.None? ==> r == Given(TextLabel(text.value))
    ensures text.None? && raw.Some? ==> r == Given(RawLabel(raw.value))
    ensures text.None? && raw.None? ==> r == Ok(None)
    ensures r.Ok? && r.value.Some? ==> |r.value.value| == LABEL_LEN_RAW
  {
    if text.Some? && raw.Some? {
      return Err(TwoLabelOptions);
    }
    if text.Some? {
      var t := EncodeTextLabel(text.value);
      TextLabelMeaning(text.value);
      return Given(t);
    }
    if raw.Some? {
      var h := EncodeRawLabel(raw.value);
      RawLabelMeaning(raw.value);
      return Given(h);
    }
    return Ok(None);
  }
}
