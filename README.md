# LatexFlow keystroke pipeline in Dafny

LatexFlow is an Android app. The user writes a formula by hand, or with an
on-screen math keyboard. The app recognises the formula as LaTeX text and
then types that text on a paired computer, posing as a Bluetooth HID
keyboard. This project models and proves the logic between that text and
the keystrokes that reach the host:

- `key_mapper.dfy` (module `KeyMapper`, with its lemmas in `KeyMapperProperties`):
  - the pre-pass that rewrites 21 Unicode math symbols as LaTeX commands;
  - the US-layout table from characters to HID usage IDs and the Shift modifier
    (Keyboard/Keypad page 0x07, section 10 of the USB HID Usage Tables 1.12);
  - `mapToActions`, which chains the two.
- `hid_keyboard_manager.dfy` (module `HidKeyboard`):
  - the report descriptor;
  - the 8-byte input reports;
  - the `HidKeyboardManager` class, with its platform callbacks, registration,
    the three-attempt connect loop and `sendKey`. The Bluetooth stack is a
    recorder of the calls made to it.
- `main_activity.dfy` (module `Editor`), the main screen:
  - the inject loop;
  - the Inject button's enabling test;
  - the math keyboard's edit reducer on the recognised text;
  - stroke undo, stroke clear and new strokes.
- `history_repository.dfy` (module `History`): the recognition history. It
  moves an entry to the front, drops its earlier copy and keeps at most 20 entries.
- `math_keyboard.dfy` (module `MathKeyboard`), the keyboard's string tables:
  - input names to LaTeX;
  - editing keys to the editor commands they send;
  - button labels.
- `wrappers.dfy`: the `Option` type.

Source paths below are relative to the repository root.

Three facts about the code that the model keeps as written:
- The report descriptor is 65 bytes long.
- The status enum declares no `REGISTERED` value, yet the code assigns it and
  compares against it. The model's `ConnectionStatus` has both `Registered`
  and `Disconnected`.
- `register` is not idempotent. Every call with the proxy present registers
  again, and so does every later `onServiceConnected`, because the pending
  flag is never cleared.

## Model

| member | source | states |
|---|---|---|
| KeyMapper.Lookup | app/src/main/kotlin/com/growsnova/latexflow/logic/KeyMapper.kt:20-71 | the `charToHid` table in closed form: the 33 listed characters, the 52 letters and the 10 digits map to their usage and modifier, every other character to nothing; `LookupListed`, `LookupLetter` and `BuildCharToHid` tie it to the source table |
| KeyMapper.LookupListed | app/src/main/kotlin/com/growsnova/latexflow/logic/KeyMapper.kt:20-53 | every explicitly listed character maps to exactly its listed usage ID and modifier |
| KeyMapper.LookupLetter | app/src/main/kotlin/com/growsnova/latexflow/logic/KeyMapper.kt:56-59 | 'a'+i maps to usage 0x04+i with no modifier, and 'A'+i to the same usage with Shift |
| KeyMapper.PutLetters | app/src/main/kotlin/com/growsnova/latexflow/logic/KeyMapper.kt:56-59 | the `for` loop adds exactly the 52 letters and keeps every other entry |
| KeyMapper.BuildCharToHid | app/src/main/kotlin/com/growsnova/latexflow/logic/KeyMapper.kt:20-71 | the built map holds exactly the listed symbols, the letters and the digits, each with the entry `Lookup` gives |
| KeyMapper.SubstituteEachAppend | app/src/main/kotlin/com/growsnova/latexflow/logic/KeyMapper.kt:90-92 | per-character substitution distributes over concatenation |
| KeyMapper.SubstituteCharNonKey | app/src/main/kotlin/com/growsnova/latexflow/logic/KeyMapper.kt:90-92 | a character that is no key of the table stays itself |
| KeyMapper.SubstituteEachKeyFree | app/src/main/kotlin/com/growsnova/latexflow/logic/KeyMapper.kt:90-92 | text without key characters is left unchanged |
| KeyMapper.ReplaceThenRest | app/src/main/kotlin/com/growsnova/latexflow/logic/KeyMapper.kt:90-92 | one whole-string replace followed by the rest of the table equals substitution with the whole table, when no replacement contains a key |
| KeyMapper.ApplyInOrderIsSubstituteEach | app/src/main/kotlin/com/growsnova/latexflow/logic/KeyMapper.kt:89-92 | the sequence of whole-string replaces, in table order, equals independent per-character substitution |
| KeyMapper.UnicodeToLatexKeyFree | app/src/main/kotlin/com/growsnova/latexflow/logic/KeyMapper.kt:74-80 | every key of the Unicode table is non-ASCII and every replacement character is ASCII, so no replacement text contains a key |
| KeyMapper.Substitute | app/src/main/kotlin/com/growsnova/latexflow/logic/KeyMapper.kt:74-92 | the pre-pass: every `unicodeToLatex` entry replaced in the whole text, one entry after another in table order; `SubstituteIsPerCharacter` states what it computes |
| KeyMapper.SubstituteIsPerCharacter | app/src/main/kotlin/com/growsnova/latexflow/logic/KeyMapper.kt:74-92 | the source's pre-pass replaces each symbol by its LaTeX command independently of order |
| KeyMapper.ActionsOf | app/src/main/kotlin/com/growsnova/latexflow/logic/KeyMapper.kt:94-101 | the per-character pass: the table entry of each known character, in order, unknown characters skipped; its properties are `ActionsOfAppend`, `ActionsOfLength` and `ActionsOfWellFormed` |
| KeyMapper.Keystrokes | app/src/main/kotlin/com/growsnova/latexflow/logic/KeyMapper.kt:85-103 | the value `mapToActions(latex)` returns: the per-character pass over the pre-pass; `MapToActions` is proved to return it and the `Keystrokes...` lemmas state its properties |
| KeyMapper.ActionsOfAppend | app/src/main/kotlin/com/growsnova/latexflow/logic/KeyMapper.kt:94-101 | the per-character lookup pass distributes over concatenation |
| KeyMapper.ReplaceInOrder | app/src/main/kotlin/com/growsnova/latexflow/logic/KeyMapper.kt:89-92 | the `forEach` that reassigns `processedLatex` computes the in-order replace of every table entry |
| KeyMapper.LookupEach | app/src/main/kotlin/com/growsnova/latexflow/logic/KeyMapper.kt:94-101 | the loop keeps one action per known character, in order, and skips unknown characters |
| KeyMapper.MapToActions | app/src/main/kotlin/com/growsnova/latexflow/logic/KeyMapper.kt:85-103 | `mapToActions` returns the keystrokes of the substituted text; it never fails |
| KeyMapperProperties.LookupWellFormed | app/src/main/kotlin/com/growsnova/latexflow/logic/KeyMapper.kt:16-71 | every table entry has modifier 0 or 0x02 and a usage in 0x04..0x38 other than Return, and belongs to an ASCII character |
| KeyMapperProperties.AsciiNotSubstituted | app/src/main/kotlin/com/growsnova/latexflow/logic/KeyMapper.kt:74-92 | the pre-pass leaves ASCII text unchanged |
| KeyMapperProperties.ActionsOfWellFormed | app/src/main/kotlin/com/growsnova/latexflow/logic/KeyMapper.kt:94-101 | every action of the lookup pass is well formed |
| KeyMapperProperties.ActionsOfLength | app/src/main/kotlin/com/growsnova/latexflow/logic/KeyMapper.kt:94-101 | at most one action per character; exactly one each, in order, when every character is in the table |
| KeyMapperProperties.KeystrokesAppend | app/src/main/kotlin/com/growsnova/latexflow/logic/KeyMapper.kt:74-101 | `mapToActions(a+b) == mapToActions(a) + mapToActions(b)` |
| KeyMapperProperties.KeystrokesWellFormed | app/src/main/kotlin/com/growsnova/latexflow/logic/KeyMapper.kt:16-101 | every produced keystroke is a plain or shifted key in 0x04..0x38, inside the descriptor's range 0..101, never Return |
| KeyMapperProperties.KeystrokesLength | app/src/main/kotlin/com/growsnova/latexflow/logic/KeyMapper.kt:94-101 | there are no more keystrokes than characters of the substituted text |
| KeyMapperProperties.KeystrokesOfMappedText | app/src/main/kotlin/com/growsnova/latexflow/logic/KeyMapper.kt:94-101 | text made only of table characters yields one keystroke per character, in input order |
| KeyMapperProperties.UnknownCharacterDropped | app/src/main/kotlin/com/growsnova/latexflow/logic/KeyMapper.kt:95-100 | a character neither substituted nor in the table produces no keystroke |
| KeyMapperProperties.UnknownCharacterSkipped | app/src/main/kotlin/com/growsnova/latexflow/logic/KeyMapper.kt:95-100 | such a character is skipped and the text around it is typed unchanged |
| KeyMapperProperties.LetterKeystrokes | app/src/main/kotlin/com/growsnova/latexflow/logic/KeyMapper.kt:56-59 | lower-case letter i types usage 0x04+i unshifted, upper-case letter i the same usage with Shift |
| KeyMapperProperties.DigitKeystrokes | app/src/main/kotlin/com/growsnova/latexflow/logic/KeyMapper.kt:61-70 | '1'..'9' type usages 0x1E..0x26 and '0' types 0x27, all unshifted |
| KeyMapperProperties.MappedCharKeystroke | app/src/main/kotlin/com/growsnova/latexflow/logic/KeyMapper.kt:94-96 | a table character alone types its one table entry |
| KeyMapperProperties.SharedKeys | app/src/main/kotlin/com/growsnova/latexflow/logic/KeyMapper.kt:26-53 | as the table is written, '^' and '!' both type (0x1E, Shift), and '&' and '*' both type (0x25, Shift) |
| KeyMapperProperties.ReplacementsMapped | app/src/main/kotlin/com/growsnova/latexflow/logic/KeyMapper.kt:20-80 | every character of every replacement is in the table, so substitution never loses characters |
| KeyMapperProperties.SubstituteCharOfKey | app/src/main/kotlin/com/growsnova/latexflow/logic/KeyMapper.kt:74-80 | a key is replaced by the text of its first table entry |
| KeyMapperProperties.SymbolTypedAsReplacement | app/src/main/kotlin/com/growsnova/latexflow/logic/KeyMapper.kt:74-92 | a substitutable symbol types exactly the keystrokes of its replacement, one per replacement character; e.g. "α" types as "\\alpha" |
| HidKeyboard.KeyDownReport | app/src/main/kotlin/com/growsnova/latexflow/bluetooth/HidKeyboardManager.kt:169-171 | `reportDown`: eight bytes, the modifiers in byte 0 and the scan code in byte 2, each truncated by `toByte`, the rest zero; `KeyDownDecodes` and `KeyDownRoundTrip` state what the host reads from it |
| HidKeyboard.KeyUpReport | app/src/main/kotlin/com/growsnova/latexflow/bluetooth/HidKeyboardManager.kt:178 | `reportUp`: eight zero bytes; `KeyUpReleasesAll` states that the host reads it as no modifier and no key |
| HidKeyboard.ReportMapLayout | app/src/main/kotlin/com/growsnova/latexflow/bluetooth/HidKeyboardManager.kt:41-75 | the descriptor is 65 bytes. It starts 0x05 0x01, declares Report ID 1 (the id `sendKey` uses) and ends with 0xC0. Its input is 8 modifier bits, a reserved byte and 6 keycodes of 8 bits with Logical Maximum 101; Report Size times Report Count over the three input items gives 64 bits, the 8-byte report |
| HidKeyboard.ReportMapShortItems | app/src/main/kotlin/com/growsnova/latexflow/bluetooth/HidKeyboardManager.kt:41-75 | the descriptor is 32 one-byte short items before End Collection |
| HidKeyboard.DecodedKeysBound | app/src/main/kotlin/com/growsnova/latexflow/bluetooth/HidKeyboardManager.kt:68-72 | any 8-byte report carries a 6-slot key array and so reports at most six keys |
| HidKeyboard.PressedKeysLength | app/src/main/kotlin/com/growsnova/latexflow/bluetooth/HidKeyboardManager.kt:68-72 | a key array never reports more keys than it has slots |
| HidKeyboard.KeyDownDecodes | app/src/main/kotlin/com/growsnova/latexflow/bluetooth/HidKeyboardManager.kt:169-172 | the host reads a key-down report as modifiers mod 256 plus the single key scanCode mod 256, in a 6-slot array |
| HidKeyboard.KeyUpReleasesAll | app/src/main/kotlin/com/growsnova/latexflow/bluetooth/HidKeyboardManager.kt:178-179 | the key-up report has no modifier and no key |
| HidKeyboard.KeyDownRoundTrip | app/src/main/kotlin/com/growsnova/latexflow/bluetooth/HidKeyboardManager.kt:169-172 | for byte-sized values, decoding the key-down report gives back the modifier and the key that were encoded |
| HidKeyboard.ConnectCallsShape | app/src/main/kotlin/com/growsnova/latexflow/bluetooth/HidKeyboardManager.kt:191-194 | n attempts are n connect requests to the same device |
| HidKeyboard.ConnectAttempts | app/src/main/kotlin/com/growsnova/latexflow/bluetooth/HidKeyboardManager.kt:190-204 | `connect` makes 1 to 3 attempts. It stops right after the first accepted one. With no proxy, or when all three fail, it makes exactly three |
| HidKeyboard.HidKeyboardManager.constructor | app/src/main/kotlin/com/growsnova/latexflow/bluetooth/HidKeyboardManager.kt:31-158 | the field initialisers at 31-35 and 109 and the `init` block at 141-158: no proxy (it arrives later through `onServiceConnected`), no device, no pending registration; status UNAVAILABLE |
| HidKeyboard.HidKeyboardManager.OnAppStatusChanged | app/src/main/kotlin/com/growsnova/latexflow/bluetooth/HidKeyboardManager.kt:86-93 | REGISTERED when registered, DISCONNECTED otherwise; nothing else changes |
| HidKeyboard.HidKeyboardManager.OnConnectionStateChanged | app/src/main/kotlin/com/growsnova/latexflow/bluetooth/HidKeyboardManager.kt:95-106 | CONNECTED stores the device; DISCONNECTED clears it and falls back to REGISTERED; CONNECTING only sets the status; any other state changes nothing |
| HidKeyboard.HidKeyboardManager.DoRegister | app/src/main/kotlin/com/growsnova/latexflow/bluetooth/HidKeyboardManager.kt:120-138 | with a proxy: unregister first, then register; an exception sets ERROR. Without a proxy nothing happens |
| HidKeyboard.HidKeyboardManager.Register | app/src/main/kotlin/com/growsnova/latexflow/bluetooth/HidKeyboardManager.kt:111-117 | sets the pending flag and REGISTERING, and registers at once only when the proxy is there |
| HidKeyboard.HidKeyboardManager.OnServiceConnected | app/src/main/kotlin/com/growsnova/latexflow/bluetooth/HidKeyboardManager.kt:144-151 | for the HID profile it stores the proxy, and registers if registration was ever requested |
| HidKeyboard.HidKeyboardManager.OnServiceDisconnected | app/src/main/kotlin/com/growsnova/latexflow/bluetooth/HidKeyboardManager.kt:152-156 | for the HID profile it drops the proxy |
| HidKeyboard.HidKeyboardManager.SendKey | app/src/main/kotlin/com/growsnova/latexflow/bluetooth/HidKeyboardManager.kt:164-183 | nothing without a device or proxy. Otherwise exactly two 8-byte reports with id 1: first modifiers and scanCode in bytes 0 and 2, then all zeros |
| HidKeyboard.HidKeyboardManager.Connect | app/src/main/kotlin/com/growsnova/latexflow/bluetooth/HidKeyboardManager.kt:188-206 | the connect requests made, which is none without a proxy. The status ends CONNECTING after a success and DISCONNECTED after three failures |
| History.RemoveFirst | app/src/main/kotlin/com/growsnova/latexflow/data/HistoryRepository.kt:21 | `MutableList.remove(x)`: drops the first copy of x and keeps everything else in order; `RemoveFirstMultiset` and `RemoveFirstIsWithout` state what it removes |
| History.Added | app/src/main/kotlin/com/growsnova/latexflow/data/HistoryRepository.kt:20-24 | the list `addRecord` saves: x in front of the list with its first earlier copy removed, cut to 20 entries; the `Added...` lemmas state its shape, order, members and idempotence |
| History.RemoveFirstMultiset | app/src/main/kotlin/com/growsnova/latexflow/data/HistoryRepository.kt:21 | `remove` takes away exactly one copy of a present entry and leaves a list without it unchanged |
| History.WithoutMembers | app/src/main/kotlin/com/growsnova/latexflow/data/HistoryRepository.kt:21 | full deduplication keeps exactly the other entries |
| History.RemoveFirstIsWithout | app/src/main/kotlin/com/growsnova/latexflow/data/HistoryRepository.kt:21 | on a duplicate-free list, removing the first copy removes every copy |
| History.AddedShape | app/src/main/kotlin/com/growsnova/latexflow/data/HistoryRepository.kt:14-24 | after `addRecord(x)` the history starts with x, has at most 20 entries, and grows by one unless x was present or the cap is reached |
| History.AddedDropsOldest | app/src/main/kotlin/com/growsnova/latexflow/data/HistoryRepository.kt:22-24 | a new entry on a full history pushes out only the oldest entry |
| History.AddedKeepsOrder | app/src/main/kotlin/com/growsnova/latexflow/data/HistoryRepository.kt:21-24 | from a duplicate-free history: still duplicate-free, x exactly once, and the other entries behind it in their old order with only the oldest tail dropped |
| History.AddedMembers | app/src/main/kotlin/com/growsnova/latexflow/data/HistoryRepository.kt:21-24 | on a duplicate-free history, an entry is kept if and only if it is x or among the 19 newest other entries |
| History.AddedIdempotent | app/src/main/kotlin/com/growsnova/latexflow/data/HistoryRepository.kt:20-25 | adding x twice in a row gives the same history as adding it once |
| History.HistoryRepository.constructor | app/src/main/kotlin/com/growsnova/latexflow/data/HistoryRepository.kt:11-14 | the repository reads whatever the preferences already hold; with no stored key its history is valid (empty) |
| History.HistoryRepository.GetHistory | app/src/main/kotlin/com/growsnova/latexflow/data/HistoryRepository.kt:31-39 | the index loop returns the stored list, or the empty list when the key is absent |
| History.HistoryRepository.AddRecord | app/src/main/kotlin/com/growsnova/latexflow/data/HistoryRepository.kt:19-26 | stores the moved-to-front, capped list, and keeps the invariant (no duplicates, at most 20 entries) |
| History.HistoryRepository.ClearHistory | app/src/main/kotlin/com/growsnova/latexflow/data/HistoryRepository.kt:44-46 | removes the key, so the history then reads as the empty list |
| MathKeyboard.SymbolFor | app/src/main/kotlin/com/growsnova/latexflow/ui/MathKeyboard.kt:77-118 | the click dispatch: a CUSTOM key sends `CustomSymbol`, an INPUT key `InputLatex` of its action name, any other key its action name; `EditingKeysEdit` and `TranslatedInjectsInFull` state what reaches the editor and the host |
| MathKeyboard.CustomSymbol | app/src/main/kotlin/com/growsnova/latexflow/ui/MathKeyboard.kt:82-89 | the CUSTOM `when`: the four editing resource names give BACKSPACE, LEFT, RIGHT and ENTER, any other the action name; `CustomSends` states it |
| MathKeyboard.InputLatex | app/src/main/kotlin/com/growsnova/latexflow/ui/MathKeyboard.kt:91-115 | the INPUT `when`: the 25 translated names give their LaTeX, any other name passes through; `InputTranslates`, `InputAliasesAgree` and `TranslatedTypeable` state it |
| MathKeyboard.CustomSends | app/src/main/kotlin/com/growsnova/latexflow/ui/MathKeyboard.kt:82-89 | the four editing keys send BACKSPACE, LEFT, RIGHT or ENTER; any other custom key sends its action name |
| MathKeyboard.InputTranslates | app/src/main/kotlin/com/growsnova/latexflow/ui/MathKeyboard.kt:93-114 | an input key's text differs from its action name if and only if the name is one of the 25 translated names; unlisted names pass through |
| MathKeyboard.InputAliasesAgree | app/src/main/kotlin/com/growsnova/latexflow/ui/MathKeyboard.kt:102-112 | the lower- and upper-case spellings (sqrt/ROOT, pi/PI, euler/EULER, infinity/INFINITY, abs/ABS, degree/DEGREE) send the same translated LaTeX |
| MathKeyboard.TypeableIsMapped | app/src/main/kotlin/com/growsnova/latexflow/logic/KeyMapper.kt:20-71 | lower-case letters, digits, backslash, parentheses, braces, underscore, caret, vertical bar and space are all in the key table |
| MathKeyboard.TranslatedTypeable | app/src/main/kotlin/com/growsnova/latexflow/ui/MathKeyboard.kt:94-112 | every translated LaTeX text is made of such characters |
| MathKeyboard.TypeableInjectsInFull | app/src/main/kotlin/com/growsnova/latexflow/logic/KeyMapper.kt:85-103 | such a text is injected in full, one table keystroke per character |
| MathKeyboard.TranslatedInjectsInFull | app/src/main/kotlin/com/growsnova/latexflow/ui/MathKeyboard.kt:94-112 | a translated input key's LaTeX loses no character on injection |
| MathKeyboard.ButtonLabel | app/src/main/kotlin/com/growsnova/latexflow/ui/MathKeyboard.kt:148-184 | `getButtonLabel`: TEXT shows its name, a defined constant or translation key its glyph when it is a known one, everything else its name; `LabelChanges` and `LabelsShort` state it |
| MathKeyboard.LabelChanges | app/src/main/kotlin/com/growsnova/latexflow/ui/MathKeyboard.kt:148-184 | a label differs from the resource name if and only if the resource is a known defined constant or a known translation key; TEXT and every other case show the name |
| MathKeyboard.LabelsShort | app/src/main/kotlin/com/growsnova/latexflow/ui/MathKeyboard.kt:152-180 | every glyph label is 1 to 5 characters long |
| Editor.InjectEnabled | app/src/main/kotlin/com/growsnova/latexflow/MainActivity.kt:289-292 | the `enabled =` expression of the Inject button; `InjectEnabledMeans` and `OcrFailureTextEnabled` state when it holds |
| Editor.EditText | app/src/main/kotlin/com/growsnova/latexflow/MainActivity.kt:398-421 | the `onSymbolSelected` reducer on the recognised text; `BackspaceEdits`, `EditingKeysEdit`, `SymbolEdits`, `EraseSuffix` and `TypeThenErase` state what it does |
| Editor.ErrorTextExtends | app/src/main/kotlin/com/growsnova/latexflow/MainActivity.kt:401 | text that starts with an error prefix keeps it whatever is appended |
| Editor.OcrFailureTextEnabled | app/src/main/kotlin/com/growsnova/latexflow/MainActivity.kt:289-292 | "OCR Error", the engine's failure text, passes both prefix tests and enables Inject on a connected host. "Error: Engine not init" never enables it |
| Editor.InjectEnabledMeans | app/src/main/kotlin/com/growsnova/latexflow/MainActivity.kt:289-292 | Inject is enabled if and only if the text is non-empty, not error text, and the status is CONNECTED |
| Editor.BackspaceEdits | app/src/main/kotlin/com/growsnova/latexflow/MainActivity.kt:399-407 | BACKSPACE leaves empty text unchanged, clears error text entirely, and otherwise removes exactly the last character |
| Editor.EditingKeysEdit | app/src/main/kotlin/com/growsnova/latexflow/MainActivity.kt:398-413 | the keyboard's editing keys send editor commands; ENTER, LEFT and RIGHT leave the text unchanged |
| Editor.SymbolEdits | app/src/main/kotlin/com/growsnova/latexflow/MainActivity.kt:414-420 | any other symbol replaces error text and is appended to other text |
| Editor.EraseSuffix | app/src/main/kotlin/com/growsnova/latexflow/MainActivity.kt:399-406 | one BACKSPACE per appended character removes the appended text, while the text is not error text |
| Editor.TypeThenErase | app/src/main/kotlin/com/growsnova/latexflow/MainActivity.kt:398-420 | typing a symbol, then one BACKSPACE per character of it, restores the text unless the result is error text |
| Editor.ColonAfterErrorClearsAll | app/src/main/kotlin/com/growsnova/latexflow/MainActivity.kt:399-420 | typing ":" after "Error" creates error text, and one BACKSPACE then clears everything |
| Editor.TransmissionAppend | app/src/main/kotlin/com/growsnova/latexflow/MainActivity.kt:279-283 | the reports for two key sequences are the reports of each in turn |
| Editor.TransmissionShape | app/src/main/kotlin/com/growsnova/latexflow/MainActivity.kt:279-280 | key k sends its key-down report at position 2k and the key-up report at 2k+1 |
| Editor.InjectedReportsDecode | app/src/main/kotlin/com/growsnova/latexflow/MainActivity.kt:277-283 | for every injected keystroke the host reads a report with id 1 holding exactly that key (in range 1..101) and its modifier, followed by a full release |
| Editor.InjectionDistributes | app/src/main/kotlin/com/growsnova/latexflow/MainActivity.kt:277-283 | injecting a+b sends what injecting a and then b sends |
| Editor.TypeKeys | app/src/main/kotlin/com/growsnova/latexflow/MainActivity.kt:279-283 | one `sendKey` per action, in order, and the delay after each: 100 after Return, 30 otherwise |
| Editor.MainScreen.Inject | app/src/main/kotlin/com/growsnova/latexflow/MainActivity.kt:273-286 | sends the reports of `mapToActions(text)` in order (none without a device or proxy); every delay is 30 as no keystroke is Return; then adds the text to the history once |
| Editor.MainScreen.constructor | app/src/main/kotlin/com/growsnova/latexflow/MainActivity.kt:103-104 | the screen starts with no strokes and empty text |
| Editor.MainScreen.Undo | app/src/main/kotlin/com/growsnova/latexflow/MainActivity.kt:248-257 | removes the last stroke and starts a recognition only when there are strokes; the text is unchanged |
| Editor.MainScreen.Clear | app/src/main/kotlin/com/growsnova/latexflow/MainActivity.kt:259-262 | no strokes and empty text |
| Editor.MainScreen.OnStrokesChanged | app/src/main/kotlin/com/growsnova/latexflow/MainActivity.kt:386-391 | stores the new strokes and starts a recognition |
| Editor.MainScreen.OnRecognized | app/src/main/kotlin/com/growsnova/latexflow/MainActivity.kt:251-253 | the recognition result becomes the text |
| Editor.MainScreen.OnSymbolSelected | app/src/main/kotlin/com/growsnova/latexflow/MainActivity.kt:397-421 | the text becomes `EditText` of the old text and the symbol; the strokes are unchanged |

## Left out

- Timing is not modelled: the `Thread.sleep` calls in `sendKey` and the `delay` between connect attempts. The inject loop's delays are returned as values.
- Concurrency is not modelled: coroutine scopes, `Dispatchers.IO` and the callback executor. Callbacks are sequential method calls, and the asynchronous recognition is split into a request (the result of `Undo` and `OnStrokesChanged`) and its answer (`OnRecognized`).
- Android Bluetooth is abstract. `registerApp`, `unregisterApp`, `sendReport` and `connect` are foreign calls. The model records these calls and takes the platform's answers as parameters: `registerThrows`, and `accepts` for each connect attempt.
- `getProfileProxy` is not recorded. The constructor only starts the manager without a proxy, and the proxy arrives through `OnServiceConnected`.
- Editor.EditText: text is a sequence of whole Unicode characters, while Kotlin strings are UTF-16 code units. After a character outside the Basic Multilingual Plane, the source's BACKSPACE (`dropLast(1)`) removes only one code unit, leaving half a surrogate pair; the model removes the whole character.
- Editor.MainScreen.OnSymbolSelected: has the same whole-character BACKSPACE as `EditText`.
- Editor.EraseSuffix: counts one BACKSPACE per character; for characters outside the Basic Multilingual Plane the source needs one per UTF-16 code unit.
- Editor.TypeThenErase: counts BACKSPACEs per character in the same way; the source needs one per UTF-16 code unit.
- `getPairedDevices` is not modelled: it only reads the platform's bonded-device set.
- The SDP settings object is not modelled: it only holds names and the descriptor.
- The proxy cast in `onServiceConnected` is assumed to succeed: the model always receives a proxy and does not model a failing cast.
- `registerApp`'s boolean result is not modelled; the source ignores it as well.
- The Error status covers both exception kinds in `doRegister`, which the source handles in two catch blocks with the same effect.
- SharedPreferences and the JSON array encoding are not modelled. The stored value is the list itself, or `None` after `clearHistory` removes the key.
- The OCR engine is not modelled (a foreign handwriting engine); its result text is a parameter of `OnRecognized`.
- The drawing canvas is not modelled (floating-point geometry); strokes are opaque values.
- LaTeX rendering is not modelled (bitmap rendering).
- Compose layout, dialogs, intents and permissions are not modelled (UI only).
- The GeoGebra keyboard factory, its layouts and button model are not modelled. A button is the four attributes the click handler and the label read.
- The label font size is not modelled (UI styling).
- The Inject button's enabling test and the inject action are separate: `Inject` does not require `InjectEnabled`, just as the click handler itself does not check it.
- HidKeyboard.HidKeyboardManager.SendKey: assumes `sendReport` returns normally. The source calls it without a `try`, so an exception from the platform would leave `sendKey`, end the inject loop early and skip `addRecord`; the model has no such path.
- HidKeyboard.HidKeyboardManager.Connect: the status changes to Connecting before each attempt are not listed individually; only the final status is stated.

