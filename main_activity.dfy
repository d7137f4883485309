/**
 * The editing and injection logic of LatexFlow's main screen (MainActivity.kt).
 *
 * The screen holds the handwritten strokes and the recognised LaTeX text.
 * Undo and Clear act on the strokes, the math keyboard edits the text, and
 * Inject types the text on the connected host through the HID keyboard and
 * then records it in the history.  Recognition itself runs in the OCR engine;
 * here its result arrives through `OnRecognized`.
 */
module Editor {
  import opened Wrappers
  import opened KeyMapper
  import opened KeyMapperProperties
  import opened HidKeyboard
  import opened History
  import opened MathKeyboard

  /** The prefixes of the two error texts the OCR engine produces. */
  const ErrorPrefix := "Error:"
  const OcrErrorPrefix := "OCR Error:"

  /** What the OCR engine returns when recognition throws (with no colon after "Error"). */
  const OcrFailureText := "OCR Error"

  /** What the OCR engine returns when it is not initialised. */
  const EngineNotInitText := "Error: Engine not init"

  /** `String.startsWith`. */
  predicate StartsWith(s: string, prefix: string)
  {
    |prefix| <= |s| && s[..|prefix|] == prefix
  }

  /** Text the screen treats as an error message rather than as LaTeX. */
  predicate IsErrorText(text: string)
  {
    StartsWith(text, ErrorPrefix) || StartsWith(text, OcrErrorPrefix)
  }

  /** The Inject button is enabled: some non-error text and a connected host. */
  predicate InjectEnabled(text: string, status: ConnectionStatus)
  {
    && text != ""
    && !StartsWith(text, ErrorPrefix)
    && !StartsWith(text, OcrErrorPrefix)
    && status == Connected
  }

  /** The new text after the math keyboard sends `symbol`. */
  function EditText(text: string, symbol: string): string
  {
    if symbol == "BACKSPACE" then
      if text == "" then text
      else if IsErrorText(text) then ""
      else text[..|text| - 1]
    else if symbol == "ENTER" || symbol == "LEFT" || symbol == "RIGHT" then
      text
    else if IsErrorText(text) then
      symbol
    else
      text + symbol
  }

  /** `n` presses of the backspace key. */
  function Backspaces(text: string, n: nat): string
    decreases n
  {
    if n == 0 then text else Backspaces(EditText(text, "BACKSPACE"), n - 1)
  }

  /** The delay the inject loop waits after a key: longer after Return. */
  function PostKeyDelay(a: HidAction): int
  {
    if a.scanCode == EnterScanCode then 100 else 30
  }

  /**
   * The requests the HID manager makes for a sequence of keys when a host and
   * the proxy are present: a key-down and a key-up report per key, in order.
   */
  function Transmission(device: DeviceRef, actions: seq<HidAction>): seq<TransportCall>
  {
    if actions == [] then []
    else
      var last := actions[|actions| - 1];
      Transmission(device, actions[..|actions| - 1]) + KeyPress(device, last.scanCode, last.modifiers)
  }

  // ----- the error-text tests and the Inject button -----

  /** Error text stays error text whatever is appended to it. */
  lemma ErrorTextExtends(text: string, suffix: string)
    requires IsErrorText(text)
    ensures IsErrorText(text + suffix)
  {
    if StartsWith(text, ErrorPrefix) {
      assert (text + suffix)[..|ErrorPrefix|] == text[..|ErrorPrefix|];
    } else {
      assert (text + suffix)[..|OcrErrorPrefix|] == text[..|OcrErrorPrefix|];
    }
  }

  /**
   * The engine's failure text "OCR Error" has no colon, so it passes both
   * prefix tests: with a connected host the button offers to type it.  The
   * not-initialised text is caught.
   */
  lemma OcrFailureTextEnabled()
    ensures !IsErrorText(OcrFailureText)
    ensures InjectEnabled(OcrFailureText, Connected)
    ensures IsErrorText(EngineNotInitText)
    ensures forall status :: !InjectEnabled(EngineNotInitText, status)
  {
    assert OcrFailureText[0] != ErrorPrefix[0] && |OcrFailureText| < |OcrErrorPrefix|;
    assert EngineNotInitText[..|ErrorPrefix|] == ErrorPrefix;
  }

  /** Enabled text is exactly non-empty, non-error text, and only with a connected host. */
  lemma InjectEnabledMeans(text: string, status: ConnectionStatus)
    ensures InjectEnabled(text, status) <==> text != "" && !IsErrorText(text) && status == Connected
  {
  }

  // ----- the keyboard's edit reducer -----

  /** Backspace: nothing on empty text, all of an error message, otherwise the last character. */
  lemma BackspaceEdits(text: string)
    ensures text == "" ==> EditText(text, "BACKSPACE") == ""
    ensures text != "" && IsErrorText(text) ==> EditText(text, "BACKSPACE") == ""
    ensures text != "" && !IsErrorText(text) ==>
      EditText(text, "BACKSPACE") + [text[|text| - 1]] == text
  {
  }

  /** Enter and the arrows send a command the text ignores; every editing key yields an editor command. */
  lemma EditingKeysEdit(b: KeyButton, text: string)
    requires b.actionType == Custom && b.resourceName in EditingKeyNames
    ensures SymbolFor(b) in EditorCommands
    ensures b.resourceName != "BACKSPACE_DELETE" ==> EditText(text, SymbolFor(b)) == text
    ensures b.resourceName == "BACKSPACE_DELETE" ==> EditText(text, SymbolFor(b)) == EditText(text, "BACKSPACE")
  {
    CustomSends(b.resourceName, b.actionName);
  }

  /** Any other symbol replaces an error message and is appended to other text. */
  lemma SymbolEdits(text: string, symbol: string)
    requires symbol !in EditorCommands
    ensures IsErrorText(text) ==> EditText(text, symbol) == symbol
    ensures !IsErrorText(text) ==> EditText(text, symbol) == text + symbol
    ensures StartsWith(EditText(text, symbol), if IsErrorText(text) then "" else text)
  {
  }

  lemma {:induction false} EraseSuffix(text: string, suffix: string)
    requires !IsErrorText(text + suffix)
    ensures Backspaces(text + suffix, |suffix|) == text
    decreases |suffix|
  {
    if suffix != [] {
      var shorter := suffix[..|suffix| - 1];
      assert text + suffix == (text + shorter) + [suffix[|suffix| - 1]];
      assert EditText(text + suffix, "BACKSPACE") == text + shorter;
      if IsErrorText(text + shorter) {
        ErrorTextExtends(text + shorter, [suffix[|suffix| - 1]]);
        assert false;
      }
      EraseSuffix(text, shorter);
    } else {
      assert text + suffix == text;
    }
  }

  /**
   * Typing a symbol and then pressing backspace once per character of it
   * restores the text, as long as the result is not an error message.
   */
  lemma TypeThenErase(text: string, symbol: string)
    requires symbol !in EditorCommands
    requires !IsErrorText(text + symbol)
    ensures Backspaces(EditText(text, symbol), |symbol|) == text
  {
    assert symbol != "BACKSPACE" && symbol != "ENTER" && symbol != "LEFT" && symbol != "RIGHT";
    if IsErrorText(text) {
      ErrorTextExtends(text, symbol);
      assert false;
    }
    assert EditText(text, symbol) == text + symbol;
    EraseSuffix(text, symbol);
  }

  /**
   * Typing ":" after "Error" makes the text an error message, so one
   * backspace then clears it all instead of removing the colon.
   */
  lemma ColonAfterErrorClearsAll()
    ensures EditText("Error", ":") == ErrorPrefix
    ensures EditText(EditText("Error", ":"), "BACKSPACE") == ""
  {
    assert !StartsWith("Error", ErrorPrefix) && !StartsWith("Error", OcrErrorPrefix);
    assert EditText("Error", ":") == "Error" + ":";
    assert StartsWith(ErrorPrefix, ErrorPrefix);
  }

  // ----- injection -----

  lemma {:induction false} TransmissionAppend(device: DeviceRef, a: seq<HidAction>, b: seq<HidAction>)
    ensures Transmission(device, a + b) == Transmission(device, a) + Transmission(device, b)
    decreases |b|
  {
    if b == [] {
      assert a + b == a;
    } else {
      var init := b[..|b| - 1];
      var last := b[|b| - 1];
      assert a + b == (a + init) + [last];
      assert (a + b)[..|a + b| - 1] == a + init;
      TransmissionAppend(device, a, init);
    }
  }

  /** Two requests per key: the key's down report at 2k, the key-up report at 2k+1. */
  lemma {:induction false} TransmissionShape(device: DeviceRef, actions: seq<HidAction>)
    ensures |Transmission(device, actions)| == 2 * |actions|
    ensures forall k :: 0 <= k < |actions| ==>
      Transmission(device, actions)[2 * k] ==
        SendReport(device, ReportId, KeyDownReport(actions[k].modifiers, actions[k].scanCode))
    ensures forall k :: 0 <= k < |actions| ==>
      Transmission(device, actions)[2 * k + 1] == SendReport(device, ReportId, KeyUpReport())
  {
    if actions != [] {
      var init := actions[..|actions| - 1];
      TransmissionShape(device, init);
      forall k | 0 <= k < |init| ensures actions[k] == init[k] { }
    }
  }

  /**
   * What the host receives when a text is injected: for each keystroke of
   * the text, a key-down report it reads back as exactly that key (with its
   * modifier, inside the descriptor's keycode range) and then a release of
   * every key.
   */
  lemma InjectedReportsDecode(device: DeviceRef, text: string)
    ensures |Transmission(device, Keystrokes(text))| == 2 * |Keystrokes(text)|
    ensures forall k :: 0 <= k < |Keystrokes(text)| ==>
      var a := Keystrokes(text)[k];
      var down := Transmission(device, Keystrokes(text))[2 * k];
      && down.SendReport? && down.id == ReportId
      && DecodeReport(down.report).Some?
      && DecodeReport(down.report).value.modifiers as int == a.modifiers
      && 0 < a.scanCode <= MaxKeycode
      && PressedKeys(DecodeReport(down.report).value.keys) == [a.scanCode as byte]
    ensures forall k :: 0 <= k < |Keystrokes(text)| ==>
      Transmission(device, Keystrokes(text))[2 * k + 1] == SendReport(device, ReportId, KeyUpReport())
  {
    var actions := Keystrokes(text);
    TransmissionShape(device, actions);
    KeystrokesWellFormed(text);
    forall k | 0 <= k < |actions|
      ensures DecodeReport(KeyDownReport(actions[k].modifiers, actions[k].scanCode)).Some?
      ensures DecodeReport(KeyDownReport(actions[k].modifiers, actions[k].scanCode)).value.modifiers as int == actions[k].modifiers
      ensures PressedKeys(DecodeReport(KeyDownReport(actions[k].modifiers, actions[k].scanCode)).value.keys) ==
        [actions[k].scanCode as byte]
    {
      assert WellFormedAction(actions[k]);
      KeyDownDecodes(actions[k].modifiers, actions[k].scanCode);
      KeyDownRoundTrip(actions[k].modifiers, actions[k].scanCode);
    }
  }

  /** Injecting two texts one after the other sends what injecting their concatenation sends. */
  lemma InjectionDistributes(device: DeviceRef, a: string, b: string)
    ensures Transmission(device, Keystrokes(a + b)) ==
      Transmission(device, Keystrokes(a)) + Transmission(device, Keystrokes(b))
  {
    KeystrokesAppend(a, b);
    TransmissionAppend(device, Keystrokes(a), Keystrokes(b));
  }

  /** An opaque handle for a stroke drawn on the canvas. */
  type Stroke = nat

  /** The main screen's state: the strokes and the recognised text. */
  class MainScreen {
    var strokes: seq<Stroke>
    var recognizedLatex: string

    constructor ()
      ensures strokes == [] && recognizedLatex == ""
    {
      strokes := [];
      recognizedLatex := "";
    }

    /** The canvas reports new strokes; a recognition of them is launched. */
    method OnStrokesChanged(newStrokes: seq<Stroke>) returns (recognize: bool)
      modifies this
      ensures strokes == newStrokes && recognizedLatex == old(recognizedLatex)
      ensures recognize
    {
      strokes := newStrokes;
      recognize := true;
    }

    /** The OCR engine's result for the current strokes arrives. */
    method OnRecognized(text: string)
      modifies this
      ensures recognizedLatex == text && strokes == old(strokes)
    {
      recognizedLatex := text;
    }

    /** Undo: drop the last stroke and launch a new recognition; nothing when there are no strokes. */
    method Undo() returns (recognize: bool)
      modifies this
      ensures recognize <==> old(strokes) != []
      ensures old(strokes) != [] ==> strokes + [old(strokes)[|old(strokes)| - 1]] == old(strokes)
      ensures old(strokes) == [] ==> strokes == []
      ensures recognizedLatex == old(recognizedLatex)
    {
      recognize := false;
      if strokes != [] {
        strokes := strokes[..|strokes| - 1];
        recognize := true;
      }
    }

    /** Clear: no strokes and no text. */
    method Clear()
      modifies this
      ensures strokes == [] && recognizedLatex == ""
    {
      strokes := [];
      recognizedLatex := "";
    }

    /** The math keyboard's `onSymbolSelected`. */
    method OnSymbolSelected(symbol: string)
      modifies this
      ensures recognizedLatex == EditText(old(recognizedLatex), symbol)
      ensures strokes == old(strokes)
    {
      if symbol == "BACKSPACE" {
        if recognizedLatex != "" {
          if StartsWith(recognizedLatex, ErrorPrefix) || StartsWith(recognizedLatex, OcrErrorPrefix) {
            recognizedLatex := "";
          } else {
            recognizedLatex := recognizedLatex[..|recognizedLatex| - 1];
          }
        }
      } else if symbol == "ENTER" {
      } else if symbol == "LEFT" || symbol == "RIGHT" {
      } else {
        if StartsWith(recognizedLatex, ErrorPrefix) || StartsWith(recognizedLatex, OcrErrorPrefix) {
          recognizedLatex := symbol;
        } else {
          recognizedLatex := recognizedLatex + symbol;
        }
      }
    }

    /**
     * The Inject button: type the text's keystrokes one by one, recording
     * the delay after each, then add the text to the history.  Since no
     * keystroke is Return, every delay is the short one.
     */
    method Inject(hid: HidKeyboardManager, history: HistoryRepository) returns (delays: seq<int>)
      requires hid.Valid()
      modifies hid, history
      ensures hid.Valid()
      ensures hid.calls == old(hid.calls) +
        (if hid.connectedDevice.Some? && hid.hidDevice.Some?
         then Transmission(hid.connectedDevice.value, Keystrokes(recognizedLatex)) else [])
      ensures hid.hidDevice == old(hid.hidDevice) && hid.connectedDevice == old(hid.connectedDevice)
      ensures hid.connectionStatus == old(hid.connectionStatus)
      ensures hid.pendingRegistration == old(hid.pendingRegistration)
      ensures |delays| == |Keystrokes(recognizedLatex)|
      ensures forall k :: 0 <= k < |delays| ==> delays[k] == PostKeyDelay(Keystrokes(recognizedLatex)[k]) == 30
      ensures history.saved == Some(Added(old(history.Contents()), recognizedLatex))
    {
      var actions := MapToActions(recognizedLatex);
      delays := TypeKeys(hid, actions);
      KeystrokesWellFormed(recognizedLatex);
      history.AddRecord(recognizedLatex);
    }
  }

  /**
   * The inject loop: `sendKey` for each action in order, recording the
   * delay after each.  The HID manager sends the two reports of each key
   * when a host and the proxy are present and nothing otherwise.
   */
  method TypeKeys(hid: HidKeyboardManager, actions: seq<HidAction>) returns (delays: seq<int>)
    requires hid.Valid()
    modifies hid
    ensures hid.Valid()
    ensures hid.calls == old(hid.calls) +
      (if hid.connectedDevice.Some? && hid.hidDevice.Some?
       then Transmission(hid.connectedDevice.value, actions) else [])
    ensures hid.hidDevice == old(hid.hidDevice) && hid.connectedDevice == old(hid.connectedDevice)
    ensures hid.connectionStatus == old(hid.connectionStatus)
    ensures hid.pendingRegistration == old(hid.pendingRegistration)
    ensures |delays| == |actions|
    ensures forall k :: 0 <= k < |delays| ==> delays[k] == PostKeyDelay(actions[k])
  {
    var sending := hid.connectedDevice.Some? && hid.hidDevice.Some?;
    delays := [];
    var i := 0;
    while i < |actions|
      invariant 0 <= i <= |actions|
      invariant hid.Valid()
      invariant hid.hidDevice == old(hid.hidDevice) && hid.connectedDevice == old(hid.connectedDevice)
      invariant hid.connectionStatus == old(hid.connectionStatus)
      invariant hid.pendingRegistration == old(hid.pendingRegistration)
      invariant hid.calls == old(hid.calls) +
        (if sending then Transmission(hid.connectedDevice.value, actions[..i]) else [])
      invariant |delays| == i
      invariant forall k :: 0 <= k < i ==> delays[k] == PostKeyDelay(actions[k])
    {
      var action := actions[i];
      hid.SendKey(action.scanCode, action.modifiers);
      assert actions[..i + 1][..i] == actions[..i];
      delays := delays + [if action.scanCode == 0x28 then 100 else 30];
      i := i + 1;
    }
    assert actions[..i] == actions;
  }
}
