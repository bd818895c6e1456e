/**
 * The two read-modify-write handlers of the display settings, each seen
 * as a transform of the buffer the device returned. The device exchange
 * is a parameter: the bytes a read returned (None when the transport
 * reported an error) and whether the write succeeded; the handler returns
 * its exit status and the buffer it wrote, if it wrote one.
 */
module Handlers {

  import opened Pages
  import opened Glyphs
  import opened LabelCodec
  import opened Render

  // ---------------------------------------------------------------------
  // Mode page flags (MODE SENSE(6) / MODE SELECT(6))

  /** Page, payload length, byte offset and bit of the two flags. */
  const VCD_PAGE: byte := 0x20
  const VCD_LEN := 6
  const VCD_OFFSET := 2
  const VCD_BIT := 1
  const INVERSE_PAGE: byte := 0x21
  const INVERSE_LEN := 10
  const INVERSE_OFFSET := 8
  const INVERSE_BIT := 0

  /** The arguments the handler is called with. */
  predicate FlagArgs(resultLen: nat, flagOffset: nat, flagBit: nat)
  {
    flagOffset < resultLen && flagBit < 8
  }

  /** The buffer MODE SELECT is given: PS cleared (reserved for MODE
      SELECT), the flag bit written, page_data being data + 6. */
  function FlagWritten(data: seq<byte>, flagOffset: nat, flagBit: nat, optFlag: int): seq<byte>
    requires 6 + flagOffset < |data| && flagBit < 8
  {
    data[4 := data[4] & 0x7F][6 + flagOffset := WithBit(data[6 + flagOffset], flagBit, optFlag != 0)]
  }

  /** What handle_mode_page_flag_value does: exit status and the buffer
      written by MODE SELECT, if any. optFlag -1 means "only show". */
  function FlagUpdate(optFlag: int, page: byte, resultLen: nat, flagOffset: nat, flagBit: nat,
                      sensed: Option<seq<byte>>, selectOk: bool): (int, Option<seq<byte>>)
    requires FlagArgs(resultLen, flagOffset, flagBit)
    requires sensed.Some? ==> |sensed.value| == 6 + resultLen
  {
    match sensed
    case None => (1, None)
    case Some(data) =>
      if CheckModePage(data, page, resultLen) != 0 then (1, None)
      else if optFlag != -1 && GetBit(data, 6 + flagOffset, flagBit) != optFlag then
        (if selectOk then 0 else 1, Some(FlagWritten(data, flagOffset, flagBit, optFlag)))
      else (0, None)
  }

  /** handle_mode_page_flag_value, on a local copy of what MODE SENSE
      returned. */
  method HandleModePageFlagValue(optFlag: int, page: byte, resultLen: nat, flagOffset: nat, flagBit: nat,
                                 sensed: Option<seq<byte>>, selectOk: bool)
    returns (result: int, selected: Option<seq<byte>>)
    requires FlagArgs(resultLen, flagOffset, flagBit)
    requires sensed.Some? ==> |sensed.value| == 6 + resultLen
    ensures (result, selected) == FlagUpdate(optFlag, page, resultLen, flagOffset, flagBit, sensed, selectOk)
  {
    if sensed.None? {
      return 1, None;
    }
    var data := new byte[6 + resultLen](k requires 0 <= k < 6 + resultLen => sensed.value[k]);
    assert data[..] == sensed.value;
    if CheckModePage(data[..], page, resultLen) != 0 {
      return 1, None;
    }
    var flagValue := GetBit(data[..], 6 + flagOffset, flagBit);
    if optFlag != -1 && flagValue != optFlag {
      data[4] := data[4] & 0x7F;
      SetBit(data, 6 + flagOffset, flagBit, optFlag);
      selected := Some(data[..]);
      result := if selectOk then 0 else 1;
      return;
    }
    return 0, None;
  }

  /** MODE SELECT is issued exactly when the page was read, is well formed,
      a value was asked for and the flag does not already have it. */
  lemma FlagSelectedIff(optFlag: int, page: byte, resultLen: nat, flagOffset: nat, flagBit: nat,
                        sensed: Option<seq<byte>>, selectOk: bool)
    requires FlagArgs(resultLen, flagOffset, flagBit)
    requires sensed.Some? ==> |sensed.value| == 6 + resultLen
    ensures var (result, selected) := FlagUpdate(optFlag, page, resultLen, flagOffset, flagBit, sensed, selectOk);
      && (selected.Some? <==>
            sensed.Some? && CheckModePage(sensed.value, page, resultLen) == 0 && optFlag != -1
            && !((optFlag == 0 || optFlag == 1) && TestBit(sensed.value[6 + flagOffset], flagBit) == (optFlag == 1)))
      && (result == 0 <==>
            sensed.Some? && CheckModePage(sensed.value, page, resultLen) == 0 && (selected.None? || selectOk))
  {
  }

  /** The buffer written differs from the one read only in the PS bit and
      in the flag bit, which holds the new value; it is still a well-formed
      page, now with PS clear. */
  lemma FlagWrittenShape(data: seq<byte>, page: byte, resultLen: nat, flagOffset: nat, flagBit: nat, optFlag: int)
    requires FlagArgs(resultLen, flagOffset, flagBit) && |data| == 6 + resultLen
    requires CheckModePage(data, page, resultLen) == 0
    ensures var w := FlagWritten(data, flagOffset, flagBit, optFlag);
      && |w| == |data|
      && w[4] == data[4] & 0x7F
      && TestBit(w[6 + flagOffset], flagBit) == (optFlag != 0)
      && w[6 + flagOffset] & !(1 << flagBit) == data[6 + flagOffset] & !(1 << flagBit)
      && (forall k :: 0 <= k < |data| && k != 4 && k != 6 + flagOffset ==> w[k] == data[k])
      && CheckModePage(w, page, resultLen) == 0
      && !TestBit(w[4], 7)
  {
    var w := FlagWritten(data, flagOffset, flagBit, optFlag);
    assert w[4] & 0x40 == data[4] & 0x40 && w[4] & 0x3F == data[4] & 0x3F;
  }

  /** Asking for the value the flag already has writes nothing; asking
      again, with 0 or 1, after a successful write writes nothing more. */
  lemma FlagSettles(optFlag: int, page: byte, resultLen: nat, flagOffset: nat, flagBit: nat,
                    data: seq<byte>, selectOk: bool, again: bool)
    requires FlagArgs(resultLen, flagOffset, flagBit) && |data| == 6 + resultLen
    requires optFlag == 0 || optFlag == 1
    ensures GetBit(data, 6 + flagOffset, flagBit) == optFlag ==>
      FlagUpdate(optFlag, page, resultLen, flagOffset, flagBit, Some(data), selectOk).1 == None
    ensures var (_, selected) := FlagUpdate(optFlag, page, resultLen, flagOffset, flagBit, Some(data), selectOk);
      selected.Some? ==>
        FlagUpdate(optFlag, page, resultLen, flagOffset, flagBit, selected, again) == (0, None)
  {
    var (_, selected) := FlagUpdate(optFlag, page, resultLen, flagOffset, flagBit, Some(data), selectOk);
    if selected.Some? {
      FlagWrittenShape(data, page, resultLen, flagOffset, flagBit, optFlag);
    }
  }

  /** Without a requested value the handler only reads. */
  lemma FlagShowOnly(page: byte, resultLen: nat, flagOffset: nat, flagBit: nat,
                     sensed: Option<seq<byte>>, selectOk: bool)
    requires FlagArgs(resultLen, flagOffset, flagBit)
    requires sensed.Some? ==> |sensed.value| == 6 + resultLen
    ensures FlagUpdate(-1, page, resultLen, flagOffset, flagBit, sensed, selectOk).1 == None
  {
  }

  // ---------------------------------------------------------------------
  // The label (RECEIVE / SEND DIAGNOSTIC, page 0x87)

  const LABEL_PAGE: byte := 0x87
  /** 4 bytes of diagnostic page header, 8 bytes of page data before the label. */
  const LABEL_PAGE_SIZE := 4 + 8 + LABEL_LEN_RAW
  const LABEL_START := 12

  /** The label bytes of page 0x87: label_data = data + 4 + 8. */
  function LabelOf(data: seq<byte>): (l: seq<byte>)
    requires |data| == LABEL_PAGE_SIZE
    ensures |l| == LABEL_LEN_RAW
  {
    data[LABEL_START..]
  }

  /** What handle_label_value does: exit status, the page sent, if one was
      sent, and the labels it printed (the current one, then the new one). */
  function LabelUpdate(newLabel: Option<seq<byte>>, received: Option<seq<byte>>, sendOk: bool)
    : (int, Option<seq<byte>>, seq<seq<string>>)
    requires newLabel.Some? ==> |newLabel.value| == LABEL_LEN_RAW
    requires received.Some? ==> |received.value| == LABEL_PAGE_SIZE
  {
    match received
    case None => (1, None, [])
    case Some(data) =>
      if CheckDiagPage(data, LABEL_PAGE, 8 + LABEL_LEN_RAW) != 0 then (1, None, [])
      else
        var shown := [RenderedLabel(LabelOf(data))];
        if newLabel.None? || LabelOf(data) == newLabel.value then (0, None, shown)
        else
          var page := data[..LABEL_START] + newLabel.value;
          (if sendOk then 0 else 1, Some(page), shown + [RenderedLabel(newLabel.value)])
  }

  /** memcpy(&dst[at], src, |src|). */
  method CopyBytes(dst: array<byte>, at: nat, src: seq<byte>)
    requires at + |src| <= dst.Length
    modifies dst
    ensures dst[..] == dst[..at] + src + old(dst[at + |src|..])
    ensures dst[..at] == old(dst[..at])
  {
    var k := 0;
    while k < |src|
      invariant 0 <= k <= |src|
      invariant dst[..] == old(dst[..at]) + src[..k] + old(dst[at + k..])
    {
      dst[at + k] := src[k];
      assert src[..k + 1] == src[..k] + [src[k]];
      k := k + 1;
    }
  }

  /** handle_label_value, on a local copy of what RECEIVE DIAGNOSTIC
      returned. */
  method HandleLabelValue(newLabel: Option<seq<byte>>, received: Option<seq<byte>>, sendOk: bool)
    returns (result: int, sent: Option<seq<byte>>, shown: seq<seq<string>>)
    requires newLabel.Some? ==> |newLabel.value| == LABEL_LEN_RAW
    requires received.Some? ==> |received.value| == LABEL_PAGE_SIZE
    ensures (result, sent, shown) == LabelUpdate(newLabel, received, sendOk)
  {
    if received.None? {
      return 1, None, [];
    }
    var data := new byte[LABEL_PAGE_SIZE](k requires 0 <= k < LABEL_PAGE_SIZE => received.value[k]);
    assert data[..] == received.value;
    if CheckDiagPage(data[..], LABEL_PAGE, 8 + LABEL_LEN_RAW) != 0 {
      return 1, None, [];
    }
    var current := PrintLabel(data[LABEL_START..]);
    shown := [current];
    if newLabel.None? {
      return 0, None, shown;
    }
    if data[LABEL_START..] == newLabel.value {
      return 0, None, shown;
    }
    CopyBytes(data, LABEL_START, newLabel.value);
    assert data[..] == received.value[..LABEL_START] + newLabel.value;
    var next := PrintLabel(data[LABEL_START..]);
    shown := shown + [next];
    sent := Some(data[..]);
    result := if sendOk then 0 else 1;
  }

  /** SEND DIAGNOSTIC is issued exactly when the page was read, is well
      formed and a label differing from the current one was given; the page
      sent keeps the 12 bytes before the label and carries the new label. */
  lemma LabelSentIff(newLabel: Option<seq<byte>>, received: Option<seq<byte>>, sendOk: bool)
    requires newLabel.Some? ==> |newLabel.value| == LABEL_LEN_RAW
    requires received.Some? ==> |received.value| == LABEL_PAGE_SIZE
    ensures var (result, sent, shown) := LabelUpdate(newLabel, received, sendOk);
      && (sent.Some? <==>
            received.Some? && CheckDiagPage(received.value, LABEL_PAGE, 8 + LABEL_LEN_RAW) == 0
            && newLabel.Some? && LabelOf(received.value) != newLabel.value)
      && (sent.Some? ==>
            |sent.value| == LABEL_PAGE_SIZE
            && sent.value[..LABEL_START] == received.value[..LABEL_START]
            && LabelOf(sent.value) == newLabel.value
            && CheckDiagPage(sent.value, LABEL_PAGE, 8 + LABEL_LEN_RAW) == 0)
      && (result == 0 <==>
            received.Some? && CheckDiagPage(received.value, LABEL_PAGE, 8 + LABEL_LEN_RAW) == 0
            && (sent.None? || sendOk))
  {
    match received
    case None =>
    case Some(data) =>
      if CheckDiagPage(data, LABEL_PAGE, 8 + LABEL_LEN_RAW) == 0 && newLabel.Some? && LabelOf(data) != newLabel.value {
        var page := data[..LABEL_START] + newLabel.value;
        assert page[..4] == data[..4];
        assert page[..LABEL_START] == data[..LABEL_START];
      }
  }

  /** The current label is always printed once the page is read; a new one
      is printed as well exactly when it is sent. */
  lemma LabelShown(newLabel: Option<seq<byte>>, received: Option<seq<byte>>, sendOk: bool)
    requires newLabel.Some? ==> |newLabel.value| == LABEL_LEN_RAW
    requires received.Some? ==> |received.value| == LABEL_PAGE_SIZE
    ensures var (_, sent, shown) := LabelUpdate(newLabel, received, sendOk);
      && (received.Some? && CheckDiagPage(received.value, LABEL_PAGE, 8 + LABEL_LEN_RAW) == 0 ==>
            |shown| >= 1 && shown[0] == RenderedLabel(LabelOf(received.value)))
      && (sent.Some? <==> |shown| == 2)
      && (sent.Some? ==> shown[1] == RenderedLabel(newLabel.value))
  {
  }

  /** Sending the label once is enough: reading back the page sent and
      handling the same label again sends nothing and shows the new label. */
  lemma LabelSettles(newLabel: seq<byte>, data: seq<byte>, sendOk: bool, again: bool)
    requires |newLabel| == LABEL_LEN_RAW && |data| == LABEL_PAGE_SIZE
    ensures var (_, sent, _) := LabelUpdate(Some(newLabel), Some(data), sendOk);
      sent.Some? ==> LabelUpdate(Some(newLabel), sent, again) == (0, None, [RenderedLabel(newLabel)])
  {
    LabelSentIff(Some(newLabel), Some(data), sendOk);
  }
}
