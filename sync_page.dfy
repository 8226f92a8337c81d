/** The sync page around the peer-to-peer engine: the labels of where the
    settings came from, the handling of a scanned code, starting as host,
    and the texts of the status and success screens. The engine itself
    (`usePeerSync`) is outside the model; its calls are recorded. */
module SyncPage {
  import opened Wrappers
  import Text

  /** `OtherDataSyncOption`: which side's settings and other data win. */
  datatype OtherDataSyncOption = ThisDevice | OtherDevice | NoSync

  /** The page's mode: none yet (the choice screen), host or scanner. */
  datatype Mode = NoMode | Display | Scan

  /** `getOtherDataSourceLabel`: the device the data came from, named from
      the point of view of this page's side; `None` for `null` and for
      `no_sync`. */
  function OtherDataSourceLabel(mode: Mode, src: Option<OtherDataSyncOption>): (name: Option<string>)
    ensures src.None? || src == Some(NoSync) <==> name.None?
  {
    match src
    case None => None
    case Some(ThisDevice) => Some(if mode == Display then "Este Dispositivo" else "Dispositivo Anfitrión")
    case Some(OtherDevice) => Some(if mode == Display then "Otro Dispositivo" else "Este Dispositivo")
    case Some(NoSync) => None
  }

  /** The host's device is "this device" on the host and "the host device"
      on the scanner; the scanner's device is "the other device" on the
      host and "this device" on the scanner. */
  lemma LabelPerspectives()
    ensures OtherDataSourceLabel(Display, Some(ThisDevice)) == Some("Este Dispositivo")
    ensures OtherDataSourceLabel(Scan, Some(ThisDevice)) == Some("Dispositivo Anfitrión")
    ensures OtherDataSourceLabel(Display, Some(OtherDevice)) == Some("Otro Dispositivo")
    ensures OtherDataSourceLabel(Scan, Some(OtherDevice)) == Some("Este Dispositivo")
    ensures forall m :: OtherDataSourceLabel(m, Some(NoSync)) == None && OtherDataSourceLabel(m, None) == None
  {
  }

  /** The success screen's line about settings and other data: none without
      a source, "not synchronised" for `no_sync`, otherwise the source's
      label. */
  function SuccessDataMessage(mode: Mode, otherDataSource: Option<OtherDataSyncOption>): (msg: Option<string>)
    ensures otherDataSource.None? <==> msg.None?
  {
    match otherDataSource
    case None => None
    case Some(NoSync) => Some("La configuración y otros datos no se sincronizaron.")
    case Some(src) =>
      Some("La configuración y otros datos se importaron desde " +
           OtherDataSourceLabel(mode, Some(src)).value + ".")
  }

  /** The line says the data was not synchronised exactly for `no_sync`,
      and otherwise names the label the page gives the source. */
  lemma SuccessDataMessageCases(mode: Mode, src: OtherDataSyncOption)
    ensures SuccessDataMessage(mode, Some(src)) == Some("La configuración y otros datos no se sincronizaron.")
            <==> src == NoSync
    ensures src != NoSync ==>
              OtherDataSourceLabel(mode, Some(src)).Some? &&
              SuccessDataMessage(mode, Some(src)) ==
                Some("La configuración y otros datos se importaron desde " +
                     OtherDataSourceLabel(mode, Some(src)).value + ".")
  {
    if src != NoSync {
      var source := OtherDataSourceLabel(mode, Some(src)).value;
      var msg := "La configuración y otros datos se importaron desde " + source + ".";
      assert msg[31] != "La configuración y otros datos no se sincronizaron."[31];
    }
  }

  /** The severities of a sync status. */
  datatype Severity = Success | Info | Warning | Error

  /** The status alert's title. */
  function StatusTitle(severity: Severity): (title: string)
    ensures severity == Error ==> title == "Error"
    ensures severity == Warning ==> title == "Advertencia"
    ensures severity != Error && severity != Warning ==> title == "Estado"
  {
    if severity == Error then "Error" else if severity == Warning then "Advertencia" else "Estado"
  }

  /** `syncStatus.message || "Inactivo"`. */
  function StatusText(message: string): (text: string)
    ensures text != ""
    ensures message != "" ==> text == message
  {
    if message == "" then "Inactivo" else message
  }

  /** The page's own state. */
  datatype PageState = PageState(mode: Mode, otherDataSyncOption: OtherDataSyncOption, scannerOpen: bool)

  /** A call the page makes into the sync engine. */
  datatype EngineCall = ConnectToHost(peerId: string) | StartHost

  /** `handleScan`: a missing or empty text is ignored; otherwise the
      scanner closes, the page switches to scanning and connects to the
      trimmed text. */
  function HandleScan(st: PageState, text: Option<string>): (r: (PageState, seq<EngineCall>))
    ensures text.None? || text.value == "" ==> r == (st, [])
    ensures text.Some? && text.value != "" ==>
              r.0 == st.(mode := Scan, scannerOpen := false) && |r.1| == 1 && r.1[0].ConnectToHost?
  {
    if text.None? || text.value == "" then (st, [])
    else
      var scannedId := Text.Trim(text.value);
      (st.(scannerOpen := false, mode := Scan), [ConnectToHost(scannedId)])
  }

  /** The peer id a scan connects to is the scanned text without its
      surrounding white space: an infix of it, neither starting nor ending
      with white space, and a code already trimmed is used as it is. */
  lemma HandleScanPeerId(st: PageState, text: string)
    requires text != ""
    ensures var id := HandleScan(st, Some(text)).1[0].peerId;
            (exists i :: Text.TrimmedAt(text, id, i)) &&
            (|id| > 0 ==> !Text.IsWhitespace(id[0]) && !Text.IsWhitespace(id[|id| - 1])) &&
            (!Text.IsWhitespace(text[0]) && !Text.IsWhitespace(text[|text| - 1]) ==> id == text)
  {
    if !Text.IsWhitespace(text[0]) && !Text.IsWhitespace(text[|text| - 1]) {
      assert Text.TrimStart(text) == text;
      assert Text.TrimEnd(text) == text;
    }
  }

  /** A code padded with white space connects with the code itself. */
  lemma ScanPaddedCode(st: PageState, code: string)
    requires |code| > 0 && !Text.IsWhitespace(code[0]) && !Text.IsWhitespace(code[|code| - 1])
    ensures HandleScan(st, Some(" " + code + "\n")) == (st.(mode := Scan, scannerOpen := false), [ConnectToHost(code)])
  {
    var s := " " + code + "\n";
    assert s[1..] == code + "\n";
    assert Text.TrimStart(s) == Text.TrimStart(s[1..]);
    assert Text.TrimStart(code + "\n") == code + "\n";
    assert (code + "\n")[..|code|] == code;
    assert Text.TrimEnd(code + "\n") == Text.TrimEnd(code);
    assert Text.TrimEnd(code) == code;
  }

  /** The scanner's `onScan`: the first raw value is handled when there is
      one and it is non-empty; anything else is ignored. */
  function HandleScanResult(st: PageState, rawValues: seq<string>): (r: (PageState, seq<EngineCall>))
    ensures |rawValues| == 0 || rawValues[0] == "" ==> r == (st, [])
    ensures |rawValues| > 0 && rawValues[0] != "" ==> r == HandleScan(st, Some(rawValues[0]))
  {
    if |rawValues| > 0 && rawValues[0] != "" then HandleScan(st, Some(rawValues[0])) else (st, [])
  }

  /** "Mostrar Código QR": the option goes back to this device, the page
      becomes the host and the engine is started. */
  function HostStart(st: PageState): (r: (PageState, seq<EngineCall>))
    ensures r.0.otherDataSyncOption == ThisDevice && r.0.mode == Display
    ensures r.0.scannerOpen == st.scannerOpen && r.1 == [StartHost]
  {
    (st.(otherDataSyncOption := ThisDevice, mode := Display), [StartHost])
  }

  /** Whatever option was chosen before, a host offers this device's data,
      and the host labels that source as this device; starting twice is
      starting once. */
  lemma HostStartResets(st: PageState, option: OtherDataSyncOption)
    ensures var r := HostStart(st.(otherDataSyncOption := option)).0;
            r == HostStart(st).0 &&
            OtherDataSourceLabel(r.mode, Some(r.otherDataSyncOption)) == Some("Este Dispositivo")
    ensures HostStart(HostStart(st).0).0 == HostStart(st).0
  {
  }
}
