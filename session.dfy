/**
 * The order in which the program's main function runs the handlers. The
 * label options are checked first, before the device is opened; then the
 * Disable VCD flag (mode page 0x20), the Inverse Display flag (mode page
 * 0x21), the label (diagnostic page 0x87) and, when a path is given, the
 * free space (diagnostic page 0x86) are handled in turn, and the first
 * handler that fails ends the run with status 1.
 */
module Session {

  import opened Pages
  import opened Glyphs
  import opened LabelCodec
  import opened Handlers
  import opened FreeSpace

  /** The command line: -D/-d and -I/-i (1, 0, or -1 when absent), -l and
      -L, and the free-space reading to display when a path is given. */
  datatype Options = Options(
    disableVcd: int,
    inverse: int,
    labelText: Option<string>,
    labelRaw: Option<string>,
    freeSpace: Option<Reading>)

  predicate ValidOptions(o: Options)
  {
    && o.disableVcd in {-1, 0, 1}
    && o.inverse in {-1, 0, 1}
    && (o.freeSpace.Some? ==> ValidReading(o.freeSpace.value))
  }

  /** What the device and the system answer: whether the path, the device
      and its model check out, and for each page the bytes read (None
      when the read failed) and whether the write succeeded. */
  datatype Device = Device(
    ready: bool,
    vcdSensed: Option<seq<byte>>, vcdSelectOk: bool,
    inverseSensed: Option<seq<byte>>, inverseSelectOk: bool,
    labelReceived: Option<seq<byte>>, labelSendOk: bool,
    freeReceived: Option<seq<byte>>, freeSendOk: bool)

  predicate DeviceFits(d: Device)
  {
    && (d.vcdSensed.Some? ==> |d.vcdSensed.value| == 6 + VCD_LEN)
    && (d.inverseSensed.Some? ==> |d.inverseSensed.value| == 6 + INVERSE_LEN)
    && (d.labelReceived.Some? ==> |d.labelReceived.value| == LABEL_PAGE_SIZE)
    && (d.freeReceived.Some? ==> |d.freeReceived.value| == FREE_SPACE_PAGE_SIZE)
  }

  /** A buffer written to the device. */
  datatype Command = ModeSelect(page: byte, data: seq<byte>) | SendDiagnostic(page: byte, data: seq<byte>)

  function Selects(page: byte, w: Option<seq<byte>>): seq<Command>
  {
    if w.Some? then [ModeSelect(page, w.value)] else []
  }

  function Sends(page: byte, w: Option<seq<byte>>): seq<Command>
  {
    if w.Some? then [SendDiagnostic(page, w.value)] else []
  }

  /** main: the exit status and the buffers written, in order. */
  function Run(o: Options, d: Device): (r: (int, seq<Command>))
    requires ValidOptions(o) && DeviceFits(d)
    ensures r.0 == 0 || r.0 == 1
  {
    match LabelChoice(o.labelText, o.labelRaw)
    case Err(_) => (1, [])
    case Ok(newLabel) =>
      if !d.ready then (1, [])
      else
        var (s1, w1) := FlagUpdate(o.disableVcd, VCD_PAGE, VCD_LEN, VCD_OFFSET, VCD_BIT, d.vcdSensed, d.vcdSelectOk);
        var c1 := Selects(VCD_PAGE, w1);
        if s1 != 0 then (1, c1)
        else
          var (s2, w2) := FlagUpdate(o.inverse, INVERSE_PAGE, INVERSE_LEN, INVERSE_OFFSET, INVERSE_BIT,
                                     d.inverseSensed, d.inverseSelectOk);
          var c2 := c1 + Selects(INVERSE_PAGE, w2);
          if s2 != 0 then (1, c2)
          else
            var (s3, w3, _) := LabelUpdate(newLabel, d.labelReceived, d.labelSendOk);
            var c3 := c2 + Sends(LABEL_PAGE, w3);
            if s3 != 0 then (1, c3)
            else if o.freeSpace.None? then (0, c3)
            else
              var (s4, w4) := FreeSpaceUpdate(o.freeSpace.value, d.freeReceived, d.freeSendOk);
              (if s4 != 0 then 1 else 0, c3 + Sends(FREE_SPACE_PAGE, w4))
  }

  /** A refused label option (too long, an unsupported character, a bad
      hex group, or both options at once) ends the run before the device
      is touched: the outcome is the same whatever the device would answer,
      and nothing is written. */
  lemma LabelRefusedBeforeDevice(o: Options, d1: Device, d2: Device)
    requires ValidOptions(o) && DeviceFits(d1) && DeviceFits(d2)
    requires LabelChoice(o.labelText, o.labelRaw).Err?
    ensures Run(o, d1) == Run(o, d2) == (1, [])
  {
  }

  /** Without -D/-d, -I/-i, a label option or a path the run only shows
      the settings: it writes nothing, and it succeeds exactly when the
      device is ready and the three pages are read and pass their checks. */
  lemma ShowOnlyWritesNothing(o: Options, d: Device)
    requires ValidOptions(o) && DeviceFits(d)
    requires o.disableVcd == -1 && o.inverse == -1 && o.labelText.None? && o.labelRaw.None? && o.freeSpace.None?
    ensures Run(o, d).1 == []
    ensures Run(o, d).0 == 0 <==>
      && d.ready
      && d.vcdSensed.Some? && CheckModePage(d.vcdSensed.value, VCD_PAGE, VCD_LEN) == 0
      && d.inverseSensed.Some? && CheckModePage(d.inverseSensed.value, INVERSE_PAGE, INVERSE_LEN) == 0
      && d.labelReceived.Some? && CheckDiagPage(d.labelReceived.value, LABEL_PAGE, 8 + LABEL_LEN_RAW) == 0
  {
    FlagSelectedIff(-1, VCD_PAGE, VCD_LEN, VCD_OFFSET, VCD_BIT, d.vcdSensed, d.vcdSelectOk);
    FlagSelectedIff(-1, INVERSE_PAGE, INVERSE_LEN, INVERSE_OFFSET, INVERSE_BIT, d.inverseSensed, d.inverseSelectOk);
    LabelSentIff(None, d.labelReceived, d.labelSendOk);
  }
}
