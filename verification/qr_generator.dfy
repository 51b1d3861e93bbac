/** The QR code generator page: the active tab and the form fields decide
    the text to encode; a non-empty text draws a new code and makes the
    download buttons ready, an empty one clears the drawing. Drawing the
    code is the QR library's work and is represented only by the options
    it is given. */
module QrGenerator {
  import opened Wrappers
  import opened JsText
  import opened JsSet

  /** The form fields the page reads. */
  datatype Inputs = Inputs(
    url: string, text: string,
    ssid: string, password: string, security: string,
    size: string, colorDark: string, colorLight: string, correction: string)

  /** A code as handed to the QR library: the text and the drawing options,
      the size read with `parseInt`. */
  datatype QrCode = QrCode(text: string, size: Option<int>, colorDark: string, colorLight: string, correction: string)

  /** The page state: the tab buttons' `data-tab` values and the tab
      contents' ids with their `active` marks, the active tab, the fields,
      the last code created, the code drawn in the container (whose canvas
      the download reads), and whether the download buttons are ready. */
  datatype Screen = Screen(
    tabs: seq<string>, tabActive: seq<bool>,
    contentIds: seq<string>, contentActive: seq<bool>,
    activeTab: string,
    inputs: Inputs,
    instance: Option<QrCode>,
    drawn: Option<QrCode>,
    ready: bool)

  /** The marks line up with their elements. */
  predicate WellFormed(s: Screen) {
    |s.tabActive| == |s.tabs| && |s.contentActive| == |s.contentIds|
  }

  /** What the page keeps true between events: the buttons are ready
      exactly when a code is drawn, and the drawn code is the last one
      created. */
  predicate Consistent(s: Screen) {
    WellFormed(s) && (s.ready <==> s.drawn.Some?) && (s.drawn.Some? ==> s.instance == s.drawn)
  }

  // ---------------------------------------------------------------------
  // The text to encode

  /** The Wi-Fi network text. */
  function WifiText(security: string, ssid: string, password: string): string {
    "WIFI:T:" + security + ";S:" + ssid + ";P:" + password + ";;"
  }

  /** The text the active tab encodes: the trimmed address or text, the
      Wi-Fi text when a network name is given, and nothing otherwise. */
  function Payload(activeTab: string, f: Inputs): string {
    if activeTab == "url" then Trim(f.url)
    else if activeTab == "text" then Trim(f.text)
    else if activeTab == "wifi" && f.ssid != "" then WifiText(f.security, f.ssid, f.password)
    else ""
  }

  /** The tab's text is empty exactly when the address or text field is
      blank, the network name is empty, or the tab is not one of the three. */
  lemma PayloadEmpty(activeTab: string, f: Inputs)
    ensures Payload(activeTab, f) == "" <==>
      (activeTab == "url" && AllSpace(f.url)) ||
      (activeTab == "text" && AllSpace(f.text)) ||
      (activeTab == "wifi" && f.ssid == "") ||
      (activeTab != "url" && activeTab != "text" && activeTab != "wifi")
  {
  }

  /** The Wi-Fi text is written without escaping: when no field holds a
      semicolon, splitting it on semicolons gives back the three fields
      behind their tags, then two empty pieces. */
  lemma WifiTextReadsBack(security: string, ssid: string, password: string)
    requires ';' !in security && ';' !in ssid && ';' !in password
    ensures Split(WifiText(security, ssid, password), ";") ==
      ["WIFI:T:" + security, "S:" + ssid, "P:" + password, "", ""]
  {
    var parts := ["WIFI:T:" + security, "S:" + ssid, "P:" + password, "", ""];
    assert ';' !in "WIFI:T:" + security by {
      NoCharInConcat("WIFI:T:", security, ';');
    }
    assert ';' !in "S:" + ssid by {
      NoCharInConcat("S:", ssid, ';');
    }
    assert ';' !in "P:" + password by {
      NoCharInConcat("P:", password, ';');
    }
    JoinFive(parts[0], parts[1], parts[2]);
    assert WifiText(security, ssid, password) == Join(parts, ";");
    assert forall k :: 0 <= k < |parts| ==> ';' !in parts[k];
    SplitJoin(parts, ';');
  }

  lemma NoCharInConcat(a: string, b: string, c: char)
    requires c !in a && c !in b
    ensures c !in a + b
  {
  }

  lemma JoinFive(a: string, b: string, c: string)
    ensures Join([a, b, c, "", ""], ";") == a + ";" + b + ";" + c + ";;"
  {
    var parts := [a, b, c, "", ""];
    assert parts[1..] == [b, c, "", ""];
    assert parts[1..][1..] == [c, "", ""];
    assert parts[1..][1..][1..] == ["", ""];
    assert Join(["", ""], ";") == ";" by {
      assert ["", ""][1..] == [""];
    }
    var tail := c + ";" + ";";
    assert Join([c, "", ""], ";") == tail;
    assert Join([b, c, "", ""], ";") == b + ";" + tail;
    assert Join(parts, ";") == a + ";" + (b + ";" + tail);
    assert a + ";" + (b + ";" + tail) == a + ";" + b + ";" + c + ";;";
  }

  // ---------------------------------------------------------------------
  // Events

  /** `generateQRCode`: clear the container, then either mark the buttons
      not ready (keeping the old instance) or create, draw and mark ready. */
  function Generate(s: Screen): (r: Screen)
    ensures r.ready <==> Payload(s.activeTab, s.inputs) != ""
    ensures !r.ready ==> r.drawn.None? && r.instance == s.instance
    ensures r.ready ==> r.drawn.Some? && r.instance == r.drawn && r.drawn.value.text == Payload(s.activeTab, s.inputs)
    ensures r.(instance := s.instance, drawn := s.drawn, ready := s.ready) == s
  {
    var text := Payload(s.activeTab, s.inputs);
    if text == "" then s.(drawn := None, ready := false)
    else
      var f := s.inputs;
      var code := QrCode(text, ParseInt(f.size), f.colorDark, f.colorLight, f.correction);
      s.(instance := Some(code), drawn := Some(code), ready := true)
  }

  /** The page as loaded: the `url` tab, no code yet, then a first
      generation. */
  function Load(tabs: seq<string>, tabActive: seq<bool>, contentIds: seq<string>, contentActive: seq<bool>, f: Inputs): Screen {
    Generate(Screen(tabs, tabActive, contentIds, contentActive, "url", f, None, None, false))
  }

  /** Clicking tab button `k`: it becomes the active tab, only it is marked
      active, only the content whose id is `tab-` and its name is marked
      active, and the code is generated again. */
  function ClickTab(s: Screen, k: int): (r: Screen)
    requires WellFormed(s) && 0 <= k < |s.tabs|
    ensures WellFormed(r) && r.activeTab == s.tabs[k]
    ensures forall j :: 0 <= j < |r.tabActive| ==> (r.tabActive[j] <==> j == k)
    ensures forall j :: 0 <= j < |r.contentActive| ==> (r.contentActive[j] <==> r.contentIds[j] == "tab-" + s.tabs[k])
  {
    var target := s.tabs[k];
    Generate(s.(activeTab := target,
                tabActive := seq(|s.tabs|, j => j == k),
                contentActive := seq(|s.contentIds|, j requires 0 <= j < |s.contentIds| => s.contentIds[j] == "tab-" + target)))
  }

  /** Editing any field regenerates the code. */
  function Edit(s: Screen, f: Inputs): Screen {
    Generate(s.(inputs := f))
  }

  /** The file a download produces. */
  datatype Saved = Saved(fileName: string, mediaType: string, code: QrCode)

  /** `downloadQRCode`: nothing without an instance or without a canvas in
      its container; otherwise the drawn code as `qrcode.<format>`. */
  function Download(s: Screen, format: string): (r: Option<Saved>)
    ensures r.Some? <==> s.instance.Some? && s.drawn.Some?
  {
    if s.instance.None? || s.drawn.None? then None
    else Some(Saved("qrcode." + format, "image/" + format, s.drawn.value))
  }

  // ---------------------------------------------------------------------
  // Lemmas

  /** Every event keeps the page consistent. */
  lemma EventsKeepConsistent(s: Screen, k: int, f: Inputs)
    requires Consistent(s)
    ensures Consistent(Generate(s))
    ensures Consistent(Edit(s, f))
    ensures 0 <= k < |s.tabs| ==> Consistent(ClickTab(s, k))
  {
  }

  /** The loaded page is consistent, on the `url` tab, and ready exactly
      when the address field is not blank. */
  lemma LoadState(tabs: seq<string>, tabActive: seq<bool>, contentIds: seq<string>, contentActive: seq<bool>, f: Inputs)
    requires |tabActive| == |tabs| && |contentActive| == |contentIds|
    ensures var s := Load(tabs, tabActive, contentIds, contentActive, f);
      Consistent(s) && s.activeTab == "url" && (s.ready <==> !AllSpace(f.url))
  {
  }

  /** On a consistent page a download happens exactly when the buttons are
      ready, and it saves the code for the current text. */
  lemma DownloadWhenReady(s: Screen, format: string)
    requires Consistent(s)
    ensures Download(s, format).Some? <==> s.ready
    ensures s.ready ==> Download(s, format).value == Saved("qrcode." + format, "image/" + format, s.instance.value)
  {
  }

  /** Emptying the text disables the download even though the old instance
      is kept: its container no longer holds a canvas. */
  lemma EmptyTextStopsDownload(s: Screen, f: Inputs, format: string)
    requires Payload(s.activeTab, f) == ""
    ensures Edit(s, f).instance == s.instance
    ensures Download(Edit(s, f), format).None?
  {
  }

  /** When the clicked tab's content id is present once, exactly that
      content is marked active. */
  lemma ClickTabOneContent(s: Screen, k: int)
    requires WellFormed(s) && 0 <= k < |s.tabs|
    requires NoDuplicates(s.contentIds) && "tab-" + s.tabs[k] in s.contentIds
    ensures var r := ClickTab(s, k);
      exists c :: 0 <= c < |r.contentActive| && r.contentActive[c] &&
        forall j :: 0 <= j < |r.contentActive| && r.contentActive[j] ==> j == c
  {
    var r := ClickTab(s, k);
    var c :| 0 <= c < |s.contentIds| && s.contentIds[c] == "tab-" + s.tabs[k];
    assert r.contentActive[c];
  }
}
