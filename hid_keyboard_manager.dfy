/**
 * The Bluetooth HID keyboard of LatexFlow (bluetooth/HidKeyboardManager.kt).
 *
 * The manager registers the phone as a HID keyboard with the platform's
 * HID Device profile, follows the platform's callbacks about registration
 * and connection, initiates connections with a bounded retry, and sends
 * one key press as a key-down report followed by a key-up report.
 *
 * The Bluetooth stack is abstract here: every request the manager makes to
 * it is appended to `calls`, and the answers the platform would give (an
 * exception from registerApp, the result of each connect attempt) are
 * parameters of the methods that receive them.
 */
module HidKeyboard {
  import opened Wrappers

  /** An unsigned byte; the source's signed `Byte` values are shown by their low 8 bits. */
  newtype byte = x: int | 0 <= x < 256

  /** `Int.toByte()`: keep the low 8 bits.  Dafny's `%` is Euclidean, so negative values wrap as in two's complement. */
  function ToByte(x: int): (b: byte)
    ensures b as int == x % 256
    ensures 0 <= x < 256 ==> b as int == x
  {
    (x % 256) as byte
  }

  /**
   * The connection status published to the UI.  The source's enum lists no
   * REGISTERED value although the code assigns and compares it; the model has
   * both Registered and Disconnected.
   */
  datatype ConnectionStatus = Unavailable | Registering | Registered | Disconnected | Connecting | Connected | Error

  /** The `BluetoothProfile.STATE_*` values the callback tests, and `BluetoothProfile.HID_DEVICE` as the platform defines them. */
  const StateDisconnected := 0
  const StateConnecting := 1
  const StateConnected := 2
  const HidDeviceProfile := 19

  /** The report id `sendKey` passes to `sendReport`, and the length of each report. */
  const ReportId := 1
  const ReportLength := 8

  /**
   * The HID Report Descriptor (section 6.2.2 of the USB Device Class Definition
   * for HID 1.11): the boot-keyboard layout of its Appendix B.1 (modifier byte,
   * reserved byte, LED output, six keycodes in 0..101) with Report ID 1 added.
   * The source writes it as one 65-byte array; here it is the concatenation of
   * its five parts and End Collection, byte for byte the same.
   */
  const ReportMap: seq<byte> := DescriptorHeader + ModifierInput + ReservedInput + LedOutput + KeyInput + [0xC0]

  const DescriptorHeader: seq<byte> := [
    0x05, 0x01,  // Usage Page (Generic Desktop)
    0x09, 0x06,  // Usage (Keyboard)
    0xA1, 0x01,  // Collection (Application)
    0x85, 0x01   // Report ID (1)
  ]

  const ModifierInput: seq<byte> := [
    0x05, 0x07,  // Usage Page (Key Codes)
    0x19, 0xE0,  // Usage Minimum (224)
    0x29, 0xE7,  // Usage Maximum (231)
    0x15, 0x00,  // Logical Minimum (0)
    0x25, 0x01,  // Logical Maximum (1)
    0x75, 0x01,  // Report Size (1)
    0x95, 0x08,  // Report Count (8)
    0x81, 0x02   // Input (Data, Variable, Absolute): modifier byte
  ]

  const ReservedInput: seq<byte> := [
    0x95, 0x01,  // Report Count (1)
    0x75, 0x08,  // Report Size (8)
    0x81, 0x01   // Input (Constant): reserved byte
  ]

  const LedOutput: seq<byte> := [
    0x95, 0x05,  // Report Count (5)
    0x75, 0x01,  // Report Size (1)
    0x05, 0x08,  // Usage Page (LEDs)
    0x19, 0x01,  // Usage Minimum (1)
    0x29, 0x05,  // Usage Maximum (5)
    0x91, 0x02,  // Output (Data, Variable, Absolute): LED report
    0x95, 0x01,  // Report Count (1)
    0x75, 0x03,  // Report Size (3)
    0x91, 0x01   // Output (Constant): LED padding
  ]

  const KeyInput: seq<byte> := [
    0x95, 0x06,  // Report Count (6)
    0x75, 0x08,  // Report Size (8)
    0x15, 0x00,  // Logical Minimum (0)
    0x25, 0x65,  // Logical Maximum (101)
    0x05, 0x07,  // Usage Page (Key Codes)
    0x19, 0x00,  // Usage Minimum (0)
    0x29, 0x65,  // Usage Maximum (101)
    0x81, 0x00   // Input (Data, Array): key codes
  ]

  /** The number of data bytes a short item's prefix announces (bSize: 0, 1, 2 or 4). */
  function DataSize(prefix: byte): nat
  {
    if prefix % 4 == 3 then 4 else (prefix % 4) as nat
  }

  /** The largest keycode the descriptor's key array declares (Logical Maximum 101). */
  const MaxKeycode := 101

  /** The key-down report: modifier byte, reserved byte, one keycode, five empty keycode slots. */
  function KeyDownReport(modifiers: int, scanCode: int): seq<byte>
  {
    [ToByte(modifiers), 0, ToByte(scanCode), 0, 0, 0, 0, 0]
  }

  /** The key-up report: all zeros, no modifier and no key. */
  function KeyUpReport(): seq<byte>
  {
    [0, 0, 0, 0, 0, 0, 0, 0]
  }

  /** An input report as the host reads it under the descriptor's layout. */
  datatype InputReport = InputReport(modifiers: byte, keys: seq<byte>)

  /** The host's view of an 8-byte report: byte 0 the modifiers, bytes 2..7 the key array. */
  function DecodeReport(r: seq<byte>): Option<InputReport>
  {
    if |r| != ReportLength then None else Some(InputReport(r[0], r[2..]))
  }

  /** The keys a report's key array holds down (usage 0 means "no event"). */
  function PressedKeys(keys: seq<byte>): seq<byte>
  {
    if keys == [] then []
    else (if keys[0] == 0 then [] else [keys[0]]) + PressedKeys(keys[1..])
  }

  /** One request the manager made to the platform's HID Device profile. */
  datatype TransportCall =
    | UnregisterApp
    | RegisterApp
    | SendReport(device: DeviceRef, id: int, report: seq<byte>)
    | ConnectTo(device: DeviceRef)

  /** An opaque handle for a remote (host) device. */
  type DeviceRef = nat

  /** An opaque handle for the platform's HID Device profile proxy. */
  type ProxyRef = nat

  /** The two reports one `sendKey` sends to `device`, down then up. */
  function KeyPress(device: DeviceRef, scanCode: int, modifiers: int): seq<TransportCall>
  {
    [SendReport(device, ReportId, KeyDownReport(modifiers, scanCode)), SendReport(device, ReportId, KeyUpReport())]
  }

  /** `n` connect requests to `device`. */
  function ConnectCalls(device: DeviceRef, n: nat): seq<TransportCall>
  {
    if n == 0 then [] else ConnectCalls(device, n - 1) + [ConnectTo(device)]
  }

  /** The attempts `connect` makes, starting with attempt `k`, when `accepts(j)` is the platform's answer to attempt j. */
  function AttemptsFrom(proxyPresent: bool, accepts: nat -> bool, k: nat): nat
    requires k <= 3
    decreases 3 - k
  {
    if k == 3 then 3
    else if proxyPresent && accepts(k) then k + 1
    else AttemptsFrom(proxyPresent, accepts, k + 1)
  }

  /** Whether one of the three attempts succeeds. */
  predicate ConnectSucceeds(proxyPresent: bool, accepts: nat -> bool)
  {
    proxyPresent && (accepts(0) || accepts(1) || accepts(2))
  }

  /** A report request always carries the descriptor's report id and is exactly 8 bytes long. */
  predicate WellFormedCall(c: TransportCall)
  {
    c.SendReport? ==> c.id == ReportId && |c.report| == ReportLength
  }

  /** A descriptor fragment made of one-byte short items only. */
  predicate OneByteItems(d: seq<byte>)
  {
    |d| % 2 == 0 && forall k :: 0 <= k < |d| / 2 ==> DataSize(d[2 * k]) == 1
  }

  /**
   * The descriptor's layout: 65 bytes, 32 one-byte short items and End
   * Collection; a Generic Desktop keyboard application collection under
   * Report ID 1 (the id `sendKey` uses) whose input is 8 x 1 bit of
   * modifiers, 1 x 8 bits reserved and 6 x 8 bits of keycodes in 0..101.
   * Report Size (0x75) times Report Count (0x95) over the three input
   * items is 64 bits: 8 bytes, the length of the reports `sendKey` sends.
   */
  lemma ReportMapLayout()
    ensures |ReportMap| == 65 && ReportMap[64] == 0xC0 && DataSize(ReportMap[64]) == 0
    ensures ReportMap[..8] == DescriptorHeader && ReportMap[8..24] == ModifierInput
    ensures ReportMap[24..30] == ReservedInput && ReportMap[30..48] == LedOutput && ReportMap[48..64] == KeyInput
    ensures DescriptorHeader[..2] == [0x05, 0x01] && DescriptorHeader[6] == 0x85 && DescriptorHeader[7] as int == ReportId
    ensures ModifierInput[10..] == [0x75, 0x01, 0x95, 0x08, 0x81, 0x02]
    ensures ReservedInput == [0x95, 0x01, 0x75, 0x08, 0x81, 0x01]
    ensures KeyInput[..4] == [0x95, 0x06, 0x75, 0x08] && KeyInput[6] == 0x25 && KeyInput[7] as int == MaxKeycode
    ensures KeyInput[14..] == [0x81, 0x00]
    ensures ModifierInput[10] == 0x75 && ModifierInput[12] == 0x95
    ensures ReservedInput[0] == 0x95 && ReservedInput[2] == 0x75
    ensures KeyInput[0] == 0x95 && KeyInput[2] == 0x75
    ensures ModifierInput[11] as int * ModifierInput[13] as int
      + ReservedInput[3] as int * ReservedInput[1] as int
      + KeyInput[3] as int * KeyInput[1] as int == 8 * ReportLength
  {
    assert ReportMap == DescriptorHeader + ModifierInput + ReservedInput + LedOutput + KeyInput + [0xC0];
  }

  /** Every part of the descriptor is a run of one-byte short items. */
  lemma ReportMapShortItems()
    ensures OneByteItems(DescriptorHeader) && OneByteItems(ModifierInput) && OneByteItems(ReservedInput)
    ensures OneByteItems(LedOutput) && OneByteItems(KeyInput)
  {
    InputItemsShort();
    OutputItemsShort();
    KeyItemsShort();
  }

  lemma InputItemsShort()
    ensures OneByteItems(DescriptorHeader) && OneByteItems(ModifierInput) && OneByteItems(ReservedInput)
  {
  }

  lemma OutputItemsShort()
    ensures OneByteItems(LedOutput)
  {
  }

  lemma KeyItemsShort()
    ensures OneByteItems(KeyInput)
  {
  }

  lemma {:induction false} PressedKeysLength(keys: seq<byte>)
    ensures |PressedKeys(keys)| <= |keys|
  {
    if keys != [] {
      PressedKeysLength(keys[1..]);
    }
  }

  /** Any 8-byte report holds at most six keys, the key array's Report Count. */
  lemma DecodedKeysBound(r: seq<byte>)
    requires |r| == ReportLength
    ensures DecodeReport(r).Some?
    ensures |DecodeReport(r).value.keys| == 6 && |PressedKeys(DecodeReport(r).value.keys)| <= 6
  {
    PressedKeysLength(r[2..]);
  }

  /** The host reads a key-down report back as the modifier byte and the one key it holds. */
  lemma KeyDownDecodes(modifiers: int, scanCode: int)
    ensures DecodeReport(KeyDownReport(modifiers, scanCode)).Some?
    ensures DecodeReport(KeyDownReport(modifiers, scanCode)).value.modifiers as int == modifiers % 256
    ensures PressedKeys(DecodeReport(KeyDownReport(modifiers, scanCode)).value.keys) ==
      (if scanCode % 256 == 0 then [] else [ToByte(scanCode)])
    ensures |DecodeReport(KeyDownReport(modifiers, scanCode)).value.keys| == 6
  {
    var keys := KeyDownReport(modifiers, scanCode)[2..];
    assert keys == [ToByte(scanCode)] + [0, 0, 0, 0, 0];
    assert PressedKeys([0, 0, 0, 0, 0]) == [];
  }

  /** The key-up report releases every modifier and every key. */
  lemma KeyUpReleasesAll()
    ensures DecodeReport(KeyUpReport()) == Some(InputReport(0, [0, 0, 0, 0, 0, 0]))
    ensures PressedKeys([0, 0, 0, 0, 0, 0]) == []
  {
  }

  /** For a byte-sized key and modifier, decoding the key-down report gives back exactly what was encoded. */
  lemma KeyDownRoundTrip(modifiers: int, scanCode: int)
    requires 0 <= modifiers < 256 && 0 < scanCode < 256
    ensures DecodeReport(KeyDownReport(modifiers, scanCode)).value.modifiers as int == modifiers
    ensures PressedKeys(DecodeReport(KeyDownReport(modifiers, scanCode)).value.keys) == [scanCode as byte]
  {
    KeyDownDecodes(modifiers, scanCode);
  }

  lemma {:induction false} ConnectCallsShape(device: DeviceRef, n: nat)
    ensures |ConnectCalls(device, n)| == n
    ensures forall k :: 0 <= k < n ==> ConnectCalls(device, n)[k] == ConnectTo(device)
  {
    if n > 0 {
      ConnectCallsShape(device, n - 1);
    }
  }

  /**
   * `connect` makes one to three attempts; it stops after the first accepted
   * one, and when every attempt fails (or there is no proxy) it makes exactly three.
   */
  lemma ConnectAttempts(proxyPresent: bool, accepts: nat -> bool)
    ensures 1 <= AttemptsFrom(proxyPresent, accepts, 0) <= 3
    ensures ConnectSucceeds(proxyPresent, accepts) <==>
      proxyPresent && accepts(AttemptsFrom(proxyPresent, accepts, 0) - 1)
    ensures forall j :: 0 <= j < AttemptsFrom(proxyPresent, accepts, 0) - 1 ==> !(proxyPresent && accepts(j))
    ensures !ConnectSucceeds(proxyPresent, accepts) ==> AttemptsFrom(proxyPresent, accepts, 0) == 3
  {
  }

  class HidKeyboardManager {
    var hidDevice: Option<ProxyRef>
    var connectedDevice: Option<DeviceRef>
    var pendingRegistration: bool
    var connectionStatus: ConnectionStatus
    /** Every request made to the platform profile, oldest first. */
    var calls: seq<TransportCall>

    /**
     * The manager's invariant: every report it sent is well formed, and it
     * never asked the platform to register before registration was requested.
     */
    ghost predicate Valid()
      reads this
    {
      && (forall k :: 0 <= k < |calls| ==> WellFormedCall(calls[k]))
      && (!pendingRegistration ==> RegisterApp !in calls)
    }

    /** The proxy is requested at construction; it arrives later through `OnServiceConnected`. */
    constructor ()
      ensures Valid()
      ensures hidDevice == None && connectedDevice == None && !pendingRegistration
      ensures connectionStatus == Unavailable && calls == []
    {
      hidDevice := None;
      connectedDevice := None;
      pendingRegistration := false;
      connectionStatus := Unavailable;
      calls := [];
    }

    /** The profile callback `onAppStatusChanged`. */
    method OnAppStatusChanged(device: Option<DeviceRef>, registered: bool)
      requires Valid()
      modifies this
      ensures Valid()
      ensures connectionStatus == (if registered then Registered else Disconnected)
      ensures hidDevice == old(hidDevice) && connectedDevice == old(connectedDevice)
      ensures pendingRegistration == old(pendingRegistration) && calls == old(calls)
    {
      if registered {
        connectionStatus := Registered;
      } else {
        connectionStatus := Disconnected;
      }
    }

    /** The profile callback `onConnectionStateChanged`. */
    method OnConnectionStateChanged(device: Option<DeviceRef>, state: int)
      requires Valid()
      modifies this
      ensures Valid()
      ensures state == StateConnected ==> connectedDevice == device && connectionStatus == Connected
      ensures state == StateDisconnected ==> connectedDevice == None && connectionStatus == Registered
      ensures state == StateConnecting ==> connectedDevice == old(connectedDevice) && connectionStatus == Connecting
      ensures state !in {StateConnected, StateDisconnected, StateConnecting} ==>
        connectedDevice == old(connectedDevice) && connectionStatus == old(connectionStatus)
      ensures hidDevice == old(hidDevice) && pendingRegistration == old(pendingRegistration) && calls == old(calls)
    {
      if state == StateConnected {
        connectedDevice := device;
        connectionStatus := Connected;
      } else if state == StateDisconnected {
        connectedDevice := None;
        connectionStatus := Registered;
      } else if state == StateConnecting {
        connectionStatus := Connecting;
      }
    }

    /**
     * `doRegister`: unregister first (its failure is swallowed), then register.
     * `registerThrows` is whether the platform's registerApp throws; any
     * exception there turns the status to Error.
     */
    method DoRegister(registerThrows: bool)
      requires Valid() && pendingRegistration
      modifies this
      ensures Valid()
      ensures old(hidDevice).Some? ==> calls == old(calls) + [UnregisterApp, RegisterApp]
      ensures old(hidDevice).None? ==> calls == old(calls)
      ensures connectionStatus == (if old(hidDevice).Some? && registerThrows then Error else old(connectionStatus))
      ensures hidDevice == old(hidDevice) && connectedDevice == old(connectedDevice)
      ensures pendingRegistration == old(pendingRegistration)
    {
      if hidDevice.Some? {
        calls := calls + [UnregisterApp];
        calls := calls + [RegisterApp];
        if registerThrows {
          connectionStatus := Error;
        }
      }
    }

    /** `register`: remember the request, show Registering, and register now if the proxy is there. */
    method Register(registerThrows: bool)
      requires Valid()
      modifies this
      ensures Valid()
      ensures pendingRegistration
      ensures old(hidDevice).Some? ==> calls == old(calls) + [UnregisterApp, RegisterApp]
      ensures old(hidDevice).None? ==> calls == old(calls)
      ensures connectionStatus == (if old(hidDevice).Some? && registerThrows then Error else Registering)
      ensures hidDevice == old(hidDevice) && connectedDevice == old(connectedDevice)
    {
      pendingRegistration := true;
      connectionStatus := Registering;
      if hidDevice.Some? {
        DoRegister(registerThrows);
      }
    }

    /** The service listener's `onServiceConnected`: keep the proxy and run a requested registration. */
    method OnServiceConnected(profile: int, proxy: ProxyRef, registerThrows: bool)
      requires Valid()
      modifies this
      ensures Valid()
      ensures profile == HidDeviceProfile ==> hidDevice == Some(proxy)
      ensures profile == HidDeviceProfile && old(pendingRegistration) ==>
        calls == old(calls) + [UnregisterApp, RegisterApp] &&
        connectionStatus == (if registerThrows then Error else old(connectionStatus))
      ensures profile != HidDeviceProfile || !old(pendingRegistration) ==>
        calls == old(calls) && connectionStatus == old(connectionStatus)
      ensures profile != HidDeviceProfile ==> hidDevice == old(hidDevice)
      ensures connectedDevice == old(connectedDevice) && pendingRegistration == old(pendingRegistration)
    {
      if profile == HidDeviceProfile {
        hidDevice := Some(proxy);
        if pendingRegistration {
          DoRegister(registerThrows);
        }
      }
    }

    /** The service listener's `onServiceDisconnected`: drop the proxy. */
    method OnServiceDisconnected(profile: int)
      requires Valid()
      modifies this
      ensures Valid()
      ensures hidDevice == (if profile == HidDeviceProfile then None else old(hidDevice))
      ensures connectedDevice == old(connectedDevice) && pendingRegistration == old(pendingRegistration)
      ensures connectionStatus == old(connectionStatus) && calls == old(calls)
    {
      if profile == HidDeviceProfile {
        hidDevice := None;
      }
    }

    /**
     * `sendKey`: with a connected device and a proxy, send the key-down report
     * then the all-zero key-up report, both under report id 1; otherwise send nothing.
     */
    method SendKey(scanCode: int, modifiers: int)
      requires Valid()
      modifies this
      ensures Valid()
      ensures calls == old(calls) +
        (if connectedDevice.Some? && hidDevice.Some? then KeyPress(connectedDevice.value, scanCode, modifiers) else [])
      ensures hidDevice == old(hidDevice) && connectedDevice == old(connectedDevice)
      ensures pendingRegistration == old(pendingRegistration) && connectionStatus == old(connectionStatus)
    {
      if connectedDevice.None? {
        return;
      }
      var device := connectedDevice.value;
      if hidDevice.None? {
        return;
      }
      var reportDown := new byte[ReportLength];
      forall k | 0 <= k < ReportLength {
        reportDown[k] := 0;
      }
      reportDown[0] := ToByte(modifiers);
      reportDown[2] := ToByte(scanCode);
      assert reportDown[..] == KeyDownReport(modifiers, scanCode);
      calls := calls + [SendReport(device, ReportId, reportDown[..])];
      var reportUp := new byte[ReportLength];
      forall k | 0 <= k < ReportLength {
        reportUp[k] := 0;
      }
      assert reportUp[..] == KeyUpReport();
      calls := calls + [SendReport(device, ReportId, reportUp[..])];
    }

    /**
     * `connect`: up to three attempts, each announced as Connecting; a
     * missing proxy or a false or throwing platform answer is a failure.  The
     * first success ends the loop with no further status change; after three
     * failures the status is Disconnected.  `accepts(k)` is the platform's
     * answer to attempt k.
     */
    method Connect(device: DeviceRef, accepts: nat -> bool)
      requires Valid()
      modifies this
      ensures Valid()
      ensures calls == old(calls) +
        (if hidDevice.Some? then ConnectCalls(device, AttemptsFrom(true, accepts, 0)) else [])
      ensures connectionStatus == (if ConnectSucceeds(hidDevice.Some?, accepts) then Connecting else Disconnected)
      ensures hidDevice == old(hidDevice) && connectedDevice == old(connectedDevice)
      ensures pendingRegistration == old(pendingRegistration)
    {
      var retry := 0;
      while retry < 3
        invariant 0 <= retry <= 3
        invariant forall j :: 0 <= j < retry ==> !(hidDevice.Some? && accepts(j))
        invariant AttemptsFrom(hidDevice.Some?, accepts, retry) == AttemptsFrom(hidDevice.Some?, accepts, 0)
        invariant calls == old(calls) + (if hidDevice.Some? then ConnectCalls(device, retry) else [])
        invariant Valid()
        invariant hidDevice == old(hidDevice) && connectedDevice == old(connectedDevice)
        invariant pendingRegistration == old(pendingRegistration)
      {
        connectionStatus := Connecting;
        var success := false;
        if hidDevice.Some? {
          calls := calls + [ConnectTo(device)];
          success := accepts(retry);
        }
        if success {
          return;
        }
        retry := retry + 1;
      }
      connectionStatus := Disconnected;
    }
  }
}
