/** The Windows backend's decision logic: the hook callbacks, the periodic
    inactivity check, the per-source input checks run by the monitoring
    thread, and the maintenance of the HID device list. Everything the
    operating system answers (hook codes, XInput slots, cursor position, key
    states, HID enumeration and results, the clock) arrives as a parameter. */
module WinPlugin {
  import opened Common

  // ---------------------------------------------------------------------
  // Constants of the Windows API used by the decisions below
  // ---------------------------------------------------------------------

  const HC_ACTION := 0
  const WM_KEYDOWN := 0x0100
  const WM_SYSKEYDOWN := 0x0104
  const ERROR_SUCCESS := 0
  const ERROR_INVALID_HANDLE := 6
  const ERROR_DEVICE_NOT_CONNECTED := 1167
  const XUSER_MAX_COUNT := 4
  /** Steady-clock milliseconds are stored and subtracted as `uint64_t`. */
  const U64: nat := 0x1_0000_0000_0000_0000
  /** How recent the last hooked key-down must be to count as keyboard input. */
  const KEY_RECENCY_MS := 200
  const DEFAULT_INACTIVITY_THRESHOLD := 300000

  // ---------------------------------------------------------------------
  // Keyboard
  // ---------------------------------------------------------------------

  /** The hook-recency proxy: a key-down has been recorded, and the unsigned
      difference between the clock and it is under 200 ms. */
  predicate KeyRecent(now: nat, lastKey: nat) {
    lastKey > 0 && (now - lastKey) % U64 < KEY_RECENCY_MS
  }

  /** For clock values that fit in 64 bits, the proxy fires exactly in the
      200 ms after the key-down, or when the clock reads up to 199 ms earlier
      modulo 2^64 (the subtraction wraps around). */
  lemma KeyRecentWindow(now: nat, lastKey: nat)
    requires now < U64 && lastKey < U64
    ensures KeyRecent(now, lastKey) <==>
      lastKey > 0 && (lastKey <= now < lastKey + KEY_RECENCY_MS || now + U64 < lastKey + KEY_RECENCY_MS)
  {
    if now >= lastKey {
      assert (now - lastKey) % U64 == now - lastKey;
    } else {
      assert (now - lastKey) % U64 == now - lastKey + U64;
    }
  }

  /** A clock that reads just before the recorded key-down does not count as
      recent input: the difference wraps to a huge value. */
  lemma {:induction false} ClockBehindIsNotRecent(lastKey: nat)
    requires 0 < lastKey < U64
    ensures !KeyRecent(lastKey - 1, lastKey)
  {
    KeyRecentWindow(lastKey - 1, lastKey);
  }

  /** The outcome of probing one virtual key with GetAsyncKeyState. */
  datatype KeyProbe = Up | Down | Fault

  function Range(lo: int, hi: int): (r: seq<int>)
    requires lo <= hi + 1
    ensures |r| == hi - lo + 1
    ensures forall i :: 0 <= i < |r| ==> r[i] == lo + i
    decreases hi - lo + 1
  {
    if lo > hi then [] else [lo] + Range(lo + 1, hi)
  }

  /** The keys polled when no hook is installed, in polling order: the
      letters, the digits, F1 to F12, then the special keys. */
  function PolledKeys(): (r: seq<int>)
    ensures |r| == 26 + 10 + 12 + 58
  {
    Range(0x41, 0x5A) + Range(0x30, 0x39) + Range(0x70, 0x7B) +
    [ 0x20, 0x0D, 0x09, 0x1B, 0x08, 0x2E,                 // space, return, tab, escape, back, delete
      0x10, 0x11, 0x12,                                   // shift, control, menu
      0xA0, 0xA1, 0xA2, 0xA3, 0xA4, 0xA5,                 // left and right shift, control, menu
      0x25, 0x27, 0x26, 0x28,                             // arrows
      0x24, 0x23, 0x21, 0x22,                             // home, end, prior, next
      0x2D, 0x2C, 0x91, 0x13,                             // insert, snapshot, scroll, pause
      0x60, 0x61, 0x62, 0x63, 0x64, 0x65, 0x66, 0x67, 0x68, 0x69,   // numpad digits
      0x6A, 0x6B, 0x6D, 0x6E, 0x6F,                       // numpad operators
      0x90, 0x14,                                         // num lock, caps lock
      0xBA, 0xBF, 0xC0, 0xDB, 0xDC, 0xDD, 0xDE,           // OEM 1 to 7
      0xBB, 0xBC, 0xBD, 0xBE,                             // OEM plus, comma, minus, period
      0x5B, 0x5C, 0x5D ]                                  // windows keys, apps
  }

  /** A probe result decides the poll when it is not `Up`: `Down` reports a
      pressed key, `Fault` abandons the poll. */
  predicate PressedFirst(keys: seq<int>, probe: int -> KeyProbe) {
    exists i :: 0 <= i < |keys| && probe(keys[i]) == Down && forall j :: 0 <= j < i ==> probe(keys[j]) == Up
  }

  lemma PressedAt(keys: seq<int>, probe: int -> KeyProbe, i: nat)
    requires i < |keys| && probe(keys[i]) == Down
    requires forall j :: 0 <= j < i ==> probe(keys[j]) == Up
    ensures PressedFirst(keys, probe)
  {
  }

  /** The poll stops without a pressed key at `i` when every earlier key is
      up and `i` is the end or a fault. */
  lemma NotPressedBefore(keys: seq<int>, probe: int -> KeyProbe, i: nat)
    requires i <= |keys|
    requires forall j :: 0 <= j < i ==> probe(keys[j]) == Up
    requires i == |keys| || probe(keys[i]) == Fault
    ensures !PressedFirst(keys, probe)
  {
  }

  /** Probes the keys in order; the first probe that is not `Up` decides: a
      pressed key reports input, a fault abandons the poll. */
  method ProbeKeys(keys: seq<int>, probe: int -> KeyProbe) returns (pressed: bool)
    ensures pressed <==> PressedFirst(keys, probe)
  {
    var i := 0;
    while i < |keys|
      invariant 0 <= i <= |keys|
      invariant forall j :: 0 <= j < i ==> probe(keys[j]) == Up
    {
      var p := probe(keys[i]);
      if p == Down {
        PressedAt(keys, probe, i);
        return true;
      }
      if p == Fault {
        NotPressedBefore(keys, probe, i);
        return false;
      }
      i := i + 1;
    }
    NotPressedBefore(keys, probe, i);
    return false;
  }

  // ---------------------------------------------------------------------
  // XInput controllers
  // ---------------------------------------------------------------------

  /** A controller state: its packet number and the raw gamepad report. */
  datatype XState = XState(packetNumber: nat, gamepad: seq<byte>)

  /** The state `ZeroMemory` leaves in a slot: packet number 0. */
  const ZeroState := XState(0, Zeros(12))

  /** The outcome of XInputGetState for one slot. */
  datatype SlotRead = SlotFault | SlotResult(code: nat, state: XState)

  /** A slot reports input iff its read succeeded with a packet number
      different from the stored one. */
  predicate Fires(last: XState, read: SlotRead) {
    read.SlotResult? && read.code == ERROR_SUCCESS && read.state.packetNumber != last.packetNumber
  }

  /** The stored state after a read: replaced exactly when the slot fires. */
  function NextSlot(last: XState, read: SlotRead): (r: XState)
    ensures Fires(last, read) ==> r == read.state
    ensures !Fires(last, read) ==> r == last
  {
    if Fires(last, read) then read.state else last
  }

  /** Some slot fires. */
  predicate AnySlotFires(last: seq<XState>, results: seq<SlotRead>)
    requires |last| == |results|
  {
    exists i :: 0 <= i < |last| && Fires(last[i], results[i])
  }

  /** Feeding the same read again reports nothing. */
  lemma SameReadAgainIsQuiet(last: XState, read: SlotRead)
    ensures !Fires(NextSlot(last, read), read)
  {
  }

  /** Since the stored baseline starts zeroed, the first successful read of a
      connected controller fires whenever its packet number is not 0. */
  lemma FirstReadAgainstZeroBaseline(s: XState)
    ensures Fires(ZeroState, SlotResult(ERROR_SUCCESS, s)) <==> s.packetNumber != 0
  {
  }

  // ---------------------------------------------------------------------
  // HID devices
  // ---------------------------------------------------------------------

  /** The capabilities HidP_GetCaps reports for a device's top collection. */
  datatype Caps = Caps(usagePage: nat, usage: nat, inputReportByteLength: nat)

  /** One device interface met while enumerating the HID class. */
  datatype HidInterface =
    | NoDetail                         // the interface detail is empty or unreadable
    | OpenFailed                       // CreateFile gave INVALID_HANDLE_VALUE
    | NoCaps(handle: nat)              // attributes, preparsed data or caps failed
    | Described(handle: nat, caps: Caps)

  predicate IsAudioDevice(c: Caps) { c.usagePage == 0x0B || c.usagePage == 0x0C }
  predicate IsKeyboard(c: Caps) { c.usagePage == 0x01 && c.usage == 0x06 }
  predicate IsMouse(c: Caps) { c.usagePage == 0x01 && c.usage == 0x02 }

  /** Devices watched as HID input: not audio, not a keyboard, not a mouse
      (those have their own checks), and with an input report to read. */
  predicate Kept(c: Caps) {
    !IsAudioDevice(c) && !IsKeyboard(c) && !IsMouse(c) && c.inputReportByteLength > 0
  }

  /** A joystick or gamepad collection (page 1, usage 4 or 5) with a report is
      watched; telephony and consumer-control pages never are. */
  lemma KeptExamples(len: nat, usage: nat)
    ensures len > 0 ==> Kept(Caps(0x01, 0x04, len)) && Kept(Caps(0x01, 0x05, len))
    ensures !Kept(Caps(0x0B, usage, len)) && !Kept(Caps(0x0C, usage, len))
    ensures !Kept(Caps(0x01, 0x06, len)) && !Kept(Caps(0x01, 0x02, len))
    ensures !Kept(Caps(0x01, 0x05, 0))
  {
  }

  /** The handles and capabilities of the interfaces that are kept, in
      enumeration order. */
  function Admitted(ifs: seq<HidInterface>): (r: seq<(nat, Caps)>)
    ensures |r| <= |ifs|
    ensures forall x :: x in r ==> Kept(x.1)
    decreases |ifs|
  {
    if ifs == [] then []
    else
      var rest := Admitted(ifs[..|ifs| - 1]);
      match ifs[|ifs| - 1]
      case Described(h, c) => if Kept(c) then rest + [(h, c)] else rest
      case _ => rest
  }

  /** An interface's handle and caps are admitted iff it was described with
      caps that are kept. */
  lemma {:induction false} AdmittedIff(ifs: seq<HidInterface>, h: nat, c: Caps)
    ensures (h, c) in Admitted(ifs) <==> Kept(c) && Described(h, c) in ifs
    decreases |ifs|
  {
    if ifs != [] {
      var n := |ifs| - 1;
      AdmittedIff(ifs[..n], h, c);
      assert ifs == ifs[..n] + [ifs[n]];
      assert Described(h, c) in ifs <==> Described(h, c) in ifs[..n] || ifs[n] == Described(h, c);
    }
  }

  /** The handles opened during enumeration and closed again because the
      device could not be described or is not kept. */
  function Rejected(ifs: seq<HidInterface>): (r: seq<nat>)
    ensures |r| <= |ifs|
    decreases |ifs|
  {
    if ifs == [] then []
    else
      var rest := Rejected(ifs[..|ifs| - 1]);
      match ifs[|ifs| - 1]
      case NoCaps(h) => rest + [h]
      case Described(h, c) => if Kept(c) then rest else rest + [h]
      case _ => rest
  }

  /** Every handle that was opened is either admitted or closed. */
  lemma {:induction false} OpenedHandlesAccounted(ifs: seq<HidInterface>)
    ensures |Admitted(ifs)| + |Rejected(ifs)| == |Opened(ifs)|
    decreases |ifs|
  {
    if ifs != [] {
      OpenedHandlesAccounted(ifs[..|ifs| - 1]);
    }
  }

  function Opened(ifs: seq<HidInterface>): (r: seq<nat>)
    decreases |ifs|
  {
    if ifs == [] then []
    else
      Opened(ifs[..|ifs| - 1]) +
      match ifs[|ifs| - 1]
      case NoCaps(h) => [h]
      case Described(h, _) => [h]
      case _ => []
  }

  function Handles(xs: seq<(nat, Caps)>): (r: seq<nat>)
    ensures |r| == |xs| && forall i :: 0 <= i < |xs| ==> r[i] == xs[i].0
  {
    seq(|xs|, i requires 0 <= i < |xs| => xs[i].0)
  }

  /** One zeroed report buffer per admitted device, sized by its caps. */
  function Buffers(xs: seq<(nat, Caps)>): (r: seq<seq<byte>>)
    ensures |r| == |xs|
    ensures forall i :: 0 <= i < |xs| ==> r[i] == Zeros(xs[i].1.inputReportByteLength)
  {
    seq(|xs|, i requires 0 <= i < |xs| => Zeros(xs[i].1.inputReportByteLength))
  }

  /** What one more interface adds to the admitted handles, their buffers
      and the handles closed again. */
  lemma EnumerateStep(ifs: seq<HidInterface>, i: nat)
    requires i < |ifs|
    ensures var q, p := ifs[..i + 1], ifs[..i];
      match ifs[i]
      case Described(h, c) =>
        if Kept(c) then
          Handles(Admitted(q)) == Handles(Admitted(p)) + [h] &&
          Buffers(Admitted(q)) == Buffers(Admitted(p)) + [Zeros(c.inputReportByteLength)] &&
          Rejected(q) == Rejected(p)
        else Admitted(q) == Admitted(p) && Rejected(q) == Rejected(p) + [h]
      case NoCaps(h) => Admitted(q) == Admitted(p) && Rejected(q) == Rejected(p) + [h]
      case _ => Admitted(q) == Admitted(p) && Rejected(q) == Rejected(p)
  {
    var q, p := ifs[..i + 1], ifs[..i];
    assert q[..i] == p && q[i] == ifs[i];
    if ifs[i].Described? && Kept(ifs[i].caps) {
      var a := Admitted(p);
      assert Admitted(q) == a + [(ifs[i].handle, ifs[i].caps)];
      assert Handles(a + [(ifs[i].handle, ifs[i].caps)]) == Handles(a) + [ifs[i].handle];
      assert Buffers(a + [(ifs[i].handle, ifs[i].caps)]) == Buffers(a) + [Zeros(ifs[i].caps.inputReportByteLength)];
    }
  }

  /** The enumeration loop of InitializeHIDDevices: keeps the handle of
      every kept device together with a zeroed buffer of its report length,
      and closes every other handle it opened. */
  method Enumerate(ifs: seq<HidInterface>) returns (handles: seq<nat>, states: seq<seq<byte>>, closed: seq<nat>)
    ensures handles == Handles(Admitted(ifs)) && states == Buffers(Admitted(ifs))
    ensures closed == Rejected(ifs)
  {
    handles, states, closed := [], [], [];
    var i := 0;
    while i < |ifs|
      invariant 0 <= i <= |ifs|
      invariant handles == Handles(Admitted(ifs[..i]))
      invariant states == Buffers(Admitted(ifs[..i]))
      invariant closed == Rejected(ifs[..i])
    {
      EnumerateStep(ifs, i);
      match ifs[i] {
        case Described(h, c) =>
          if !IsAudioDevice(c) && !IsKeyboard(c) && !IsMouse(c) && c.inputReportByteLength > 0 {
            handles := handles + [h];
            states := states + [Zeros(c.inputReportByteLength)];
          } else {
            closed := closed + [h];
          }
        case NoCaps(h) =>
          closed := closed + [h];
        case _ =>
      }
      i := i + 1;
    }
    assert ifs[..i] == ifs;
  }

  /** The result of an overlapped read once its event was signalled. */
  datatype Overlapped = OverlappedDone(data: seq<byte>) | OverlappedError(code: nat)

  /** The outcome of the 10 ms wait on a pending read. */
  datatype Wait = Signaled(result: Overlapped) | TimedOut | WaitFailed | OtherWait

  /** What reading one HID device produced. `data` is what the device wrote
      into the buffer; its length is the byte count. */
  datatype HidRead =
    | HandleInvalid                 // GetHandleInformation rejected the handle
    | NoEvent                       // the overlapped event could not be created
    | ReadDone(data: seq<byte>)     // ReadFile completed at once
    | ReadPending(wait: Wait)       // ReadFile returned ERROR_IO_PENDING
    | ReadError(code: nat)          // ReadFile failed with any other code

  /** The read buffer: zero-filled to the stored report's size, with the
      bytes the device wrote at the front. */
  function Filled(data: seq<byte>, n: nat): (r: seq<byte>)
    ensures |r| == n
    ensures forall i :: 0 <= i < n ==> r[i] == if i < |data| then data[i] else 0
  {
    seq(n, i requires 0 <= i < n => if i < |data| then data[i] else 0)
  }

  /** What a read means for one device. */
  datatype Verdict = Verdict(input: bool, invalid: bool, state: seq<byte>)

  predicate Changed(last: seq<byte>, data: seq<byte>) {
    |data| > 0 && Filled(data, |last|) != last
  }

  /** A device reports input iff some bytes were read and the buffer differs
      from the stored report, which it then replaces. It is marked invalid on
      a rejected handle, a failed wait, an overlapped failure with
      ERROR_INVALID_HANDLE or ERROR_DEVICE_NOT_CONNECTED, or any ReadFile
      error other than ERROR_IO_PENDING; a wait that times out is not. */
  function Judge(last: seq<byte>, read: HidRead): (v: Verdict)
    ensures !(v.input && v.invalid)
    ensures |v.state| == |last|
    ensures !v.input ==> v.state == last
  {
    if read.HandleInvalid? then Verdict(false, true, last)
    else if |last| == 0 then Verdict(false, false, last)
    else if Broken(read) then Verdict(false, true, last)
    else match Delivered(read)
      case Some(data) =>
        if Changed(last, data) then Verdict(true, false, Filled(data, |last|)) else Verdict(false, false, last)
      case None => Verdict(false, false, last)
  }

  /** The bytes a read delivered, when it delivered some. */
  function Delivered(read: HidRead): (r: Option<seq<byte>>)
    ensures r.Some? <==> read.ReadDone? || (read.ReadPending? && read.wait.Signaled? && read.wait.result.OverlappedDone?)
  {
    match read
    case ReadDone(data) => Some(data)
    case ReadPending(Signaled(OverlappedDone(data))) => Some(data)
    case _ => None
  }

  /** Whether a read says the device is gone. */
  predicate Broken(read: HidRead) {
    || read.ReadError?
    || (read.ReadPending? && read.wait.WaitFailed?)
    || (read.ReadPending? && read.wait.Signaled? && read.wait.result.OverlappedError? &&
        read.wait.result.code in {ERROR_INVALID_HANDLE, ERROR_DEVICE_NOT_CONNECTED})
  }

  /** The meaning of a verdict: input iff a non-empty stored report and a
      read that delivered bytes changing it, in which case the buffer becomes
      the stored report; invalid iff the handle is rejected, or the stored
      report is non-empty and the read is broken. */
  lemma JudgeSpec(last: seq<byte>, read: HidRead)
    ensures var v := Judge(last, read);
      && (v.input <==> (|last| > 0 && !read.HandleInvalid? && Delivered(read).Some? && Changed(last, Delivered(read).value)))
      && (v.input ==> v.state == Filled(Delivered(read).value, |last|))
      && (v.invalid <==> (read.HandleInvalid? || (|last| > 0 && Broken(read))))
  {
  }

  /** A timed-out wait keeps the device and its state. */
  lemma TimeoutKeepsDevice(last: seq<byte>)
    ensures Judge(last, ReadPending(TimedOut)) == Verdict(false, false, last)
  {
  }

  /** Reading the same report twice reports input at most the first time. */
  lemma SameReportAgainIsQuiet(last: seq<byte>, data: seq<byte>)
    ensures !Judge(Judge(last, ReadDone(data)).state, ReadDone(data)).input
  {
    var v := Judge(last, ReadDone(data));
    if v.input {
      assert Filled(data, |v.state|) == v.state;
    }
  }

  /** The result of a scan: whether input was found, the stored reports
      afterwards, and the indices of the devices found invalid. */
  datatype ScanResult = ScanResult(detected: bool, states: seq<seq<byte>>, invalid: seq<nat>)

  /** The scan from device `i` on, with `found` the invalid indices met
      before `i`: it visits the devices in order, collects the invalid ones,
      and stops after the first device that reports input. */
  function Scan(states: seq<seq<byte>>, results: seq<HidRead>, i: nat, found: seq<nat>): (r: ScanResult)
    requires |results| == |states| && i <= |states|
    ensures |r.states| == |states|
    ensures forall x :: x in r.invalid ==> x in found || i <= x < |states|
    decreases |states| - i
  {
    if i == |states| then ScanResult(false, states, found)
    else
      var v := Judge(states[i], results[i]);
      if v.input then ScanResult(true, states[i := v.state], found)
      else Scan(states, results, i + 1, if v.invalid then found + [i] else found)
  }

  /** Input is reported iff some device reports it; the first such device is
      the only one whose stored report changes. */
  lemma {:induction false} ScanFindsFirst(states: seq<seq<byte>>, results: seq<HidRead>, i: nat, found: seq<nat>)
    requires |results| == |states| && i <= |states|
    ensures var r := Scan(states, results, i, found);
      && (r.detected <==> exists k :: i <= k < |states| && Judge(states[k], results[k]).input)
      && (r.detected ==> exists k :: (i <= k < |states| && Judge(states[k], results[k]).input &&
            (forall j :: i <= j < k ==> !Judge(states[j], results[j]).input) &&
            r.states == states[k := Judge(states[k], results[k]).state]))
      && (!r.detected ==> r.states == states)
    decreases |states| - i
  {
    if i < |states| && !Judge(states[i], results[i]).input {
      var v := Judge(states[i], results[i]);
      ScanFindsFirst(states, results, i + 1, if v.invalid then found + [i] else found);
    }
  }

  /** With no input before it, a device is marked invalid iff its read says so. */
  lemma {:induction false} ScanInvalid(states: seq<seq<byte>>, results: seq<HidRead>, i: nat, found: seq<nat>, k: nat)
    requires |results| == |states| && i <= k < |states|
    requires forall x :: x in found ==> x < i
    requires forall j :: i <= j < k ==> !Judge(states[j], results[j]).input
    ensures k in Scan(states, results, i, found).invalid <==> Judge(states[k], results[k]).invalid
    decreases k - i
  {
    var v := Judge(states[i], results[i]);
    var found' := if v.invalid then found + [i] else found;
    if i < k {
      ScanInvalid(states, results, i + 1, found', k);
    } else if !v.input {
      ScanKeeps(states, results, i + 1, found');
      assert k in found' <==> v.invalid;
      assert forall x :: x in Scan(states, results, i + 1, found').invalid ==> x in found' || i + 1 <= x;
    }
  }

  /** The indices collected so far stay collected. */
  lemma {:induction false} ScanKeeps(states: seq<seq<byte>>, results: seq<HidRead>, i: nat, found: seq<nat>)
    requires |results| == |states| && i <= |states|
    ensures forall x :: x in found ==> x in Scan(states, results, i, found).invalid
    decreases |states| - i
  {
    if i < |states| && !Judge(states[i], results[i]).input {
      var v := Judge(states[i], results[i]);
      ScanKeeps(states, results, i + 1, if v.invalid then found + [i] else found);
    }
  }

  /** The handles closed when erasing the indices `su` (increasing) from the
      back: the one at the largest index first. */
  function ErasedHandles(handles: seq<nat>, su: seq<nat>): (r: seq<nat>)
    requires forall i :: 0 <= i < |su| ==> su[i] < |handles|
    ensures |r| == |su|
    decreases |su|
  {
    if su == [] then [] else ErasedHandles(handles, su[1..]) + [handles[su[0]]]
  }

  /** Erasing one more, smaller, index closes its handle last. */
  lemma ErasedNext(handles: seq<nat>, su: seq<nat>, j: nat)
    requires forall i :: 0 <= i < |su| ==> su[i] < |handles|
    requires j < |su|
    ensures ErasedHandles(handles, su[j..]) == ErasedHandles(handles, su[j + 1..]) + [handles[su[j]]]
  {
    assert su[j..][1..] == su[j + 1..];
  }

  /** Erases every invalid index from the handle and state lists, largest
      index first, and returns the erased handles in closing order. */
  method EraseInvalid(handles: seq<nat>, states: seq<seq<byte>>, invalid: seq<nat>)
    returns (hs: seq<nat>, ss: seq<seq<byte>>, closed: seq<nat>)
    requires |handles| == |states|
    requires forall x :: x in invalid ==> x < |handles|
    ensures forall x :: 0 <= x < |SortedUnique(invalid)| ==> SortedUnique(invalid)[x] < |handles|
    ensures hs == Without(handles, Elems(invalid))
    ensures ss == Without(states, Elems(invalid))
    ensures |hs| == |ss|
    ensures closed == ErasedHandles(handles, SortedUnique(invalid))
  {
    var su := SortedUnique(invalid);
    SortedUniqueSpec(invalid);
    forall x | 0 <= x < |su| ensures su[x] < |handles| {
      assert su[x] in Elems(su);
      assert su[x] in invalid;
    }
    hs, ss, closed := handles, states, [];
    var j := |su|;
    WithoutBeyond(handles, {});
    WithoutBeyond(states, {});
    assert Elems(su[j..]) == {};
    while j > 0
      invariant 0 <= j <= |su|
      invariant hs == Without(handles, Elems(su[j..]))
      invariant ss == Without(states, Elems(su[j..]))
      invariant |hs| == |ss|
      invariant closed == ErasedHandles(handles, su[j..])
    {
      j := j - 1;
      EraseNext(handles, su, j);
      EraseNext(states, su, j);
      ErasedNext(handles, su, j);
      var idx := su[j];
      closed := closed + [hs[idx]];
      hs := hs[..idx] + hs[idx + 1..];
      ss := ss[..idx] + ss[idx + 1..];
    }
    assert su[0..] == su;
  }

  /** The k-th handle closed is the one at the k-th largest erased index. */
  lemma {:induction false} ErasedHandlesOrder(handles: seq<nat>, su: seq<nat>, k: nat)
    requires forall i :: 0 <= i < |su| ==> su[i] < |handles|
    requires k < |su|
    ensures ErasedHandles(handles, su)[k] == handles[su[|su| - 1 - k]]
    decreases |su|
  {
    if k < |su| - 1 {
      ErasedHandlesOrder(handles, su[1..], k);
    }
  }

  // ---------------------------------------------------------------------
  // The plugin object
  // ---------------------------------------------------------------------

  /** The HID part of the plugin's state: the parallel handle and report
      lists, and every handle closed so far. */
  datatype HidLists = HidLists(handles: seq<nat>, states: seq<seq<byte>>, closed: seq<nat>)

  /** What one CheckHIDDevices pass leaves: nothing changes when HID
      monitoring is off or the list is empty; otherwise the reports are the
      scan's, the invalid devices are erased from both lists and their handles
      closed from the largest index down. The lists stay aligned and no
      handle is lost: each one is still listed or has been closed. */
  function CheckedHid(h: HidLists, results: seq<HidRead>, monitored: bool): (r: HidLists)
    requires |h.states| == |h.handles| == |results|
    ensures |r.handles| == |r.states|
    ensures |h.closed| <= |r.closed| && r.closed[..|h.closed|] == h.closed
    ensures |r.handles| + |r.closed| == |h.handles| + |h.closed|
  {
    if !monitored || h.handles == [] then h
    else
      var scan := Scan(h.states, results, 0, []);
      var su := SortedUnique(scan.invalid);
      SortedUniqueSpec(scan.invalid);
      assert forall x :: 0 <= x < |su| ==> su[x] < |h.handles| by {
        forall x | 0 <= x < |su| ensures su[x] < |h.handles| {
          assert su[x] in Elems(su);
        }
      }
      WithoutAligned(h.handles, scan.states, Elems(scan.invalid));
      WithoutLength(h.handles, su, 0);
      assert su[0..] == su;
      HidLists(Without(h.handles, Elems(scan.invalid)), Without(scan.states, Elems(scan.invalid)),
               h.closed + ErasedHandles(h.handles, su))
  }

  /** What InitializeHIDDevices leaves when it starts from an empty list
      outside shutdown: the admitted devices of the enumeration, none when it
      failed, with every rejected handle closed. Again no handle is lost. */
  function Rebuilt(closed: seq<nat>, enumeration: Option<seq<HidInterface>>): (r: HidLists)
    ensures |r.handles| == |r.states|
    ensures |closed| <= |r.closed| && r.closed[..|closed|] == closed
    ensures enumeration.None? ==> r == HidLists([], [], closed)
    ensures enumeration.Some? ==> |r.handles| + |r.closed| == |closed| + |Opened(enumeration.value)|
  {
    if enumeration.None? then HidLists([], [], closed)
    else
      var ifs := enumeration.value;
      OpenedHandlesAccounted(ifs);
      HidLists(Handles(Admitted(ifs)), Buffers(Admitted(ifs)), closed + Rejected(ifs))
  }

  datatype Point = Point(x: int, y: int)

  class Plugin {
    var isShuttingDown: bool
    var userIsActive: bool
    var monitorControllers: bool
    var monitorAudio: bool
    var monitorHIDDevices: bool
    var monitorKeyboard: bool
    var hooksInstalled: bool
    var inactivityThreshold: int
    /** Milliseconds of the steady clock, as a `uint64_t`. */
    var lastKeyEventTime: nat
    var lastActivityTime: int
    const lastControllerStates: array<XState>
    var lastMousePosition: Point
    var hidDeviceHandles: seq<nat>
    var lastHIDStates: seq<seq<byte>>
    /** Every handle closed so far, in closing order. */
    var closedHandles: seq<nat>
    /** Every notice handed to the UI-thread dispatcher, in order. */
    var posted: seq<Notice>

    ghost predicate Valid()
      reads this
    {
      && lastControllerStates.Length == XUSER_MAX_COUNT
      && |hidDeviceHandles| == |lastHIDStates|
      && lastKeyEventTime < U64
    }

    ghost function Liveness(): Common.Activity
      reads this
    {
      Common.Activity(userIsActive, lastActivityTime)
    }

    ghost function Hid(): HidLists
      reads this
    {
      HidLists(hidDeviceHandles, lastHIDStates, closedHandles)
    }

    /** The constructor: the defaults the backend starts with; `now` and
        `cursor` are the clock and GetCursorPos at that moment. */
    constructor (now: int, cursor: Point)
      ensures Valid() && fresh(lastControllerStates)
      ensures !isShuttingDown && userIsActive
      ensures !monitorControllers && !monitorAudio && !monitorHIDDevices && monitorKeyboard
      ensures !hooksInstalled && inactivityThreshold == DEFAULT_INACTIVITY_THRESHOLD
      ensures lastKeyEventTime == 0 && lastActivityTime == now && lastMousePosition == cursor
      ensures forall i :: 0 <= i < XUSER_MAX_COUNT ==> lastControllerStates[i] == ZeroState
      ensures hidDeviceHandles == [] && lastHIDStates == [] && closedHandles == [] && posted == []
    {
      isShuttingDown, userIsActive := false, true;
      monitorControllers, monitorAudio, monitorHIDDevices, monitorKeyboard := false, false, false, true;
      hooksInstalled, inactivityThreshold := false, DEFAULT_INACTIVITY_THRESHOLD;
      lastKeyEventTime, lastActivityTime := 0, now;
      lastControllerStates := new XState[XUSER_MAX_COUNT](_ => ZeroState);
      lastMousePosition := cursor;
      hidDeviceHandles, lastHIDStates, closedHandles, posted := [], [], [], [];
    }

    /** Detected input: refresh the timestamp, and announce only the
        false-to-true change. */
    method NoteActivity(now: int)
      modifies this`userIsActive, this`lastActivityTime, this`posted
      ensures Liveness() == OnInput(old(Liveness()), now).0
      ensures posted == old(posted) + OnInput(old(Liveness()), now).1
    {
      lastActivityTime := now;
      if !userIsActive {
        userIsActive := true;
        posted := posted + [UserActive];
      }
    }

    /** The low-level keyboard hook: a key-down or system key-down while the
        plugin is alive and not shutting down counts as activity and records
        the key time. `alive` is whether the weak instance pointer resolved. */
    method KeyboardProc(nCode: int, wParam: int, alive: bool, now: nat)
      requires Valid()
      modifies this`userIsActive, this`lastActivityTime, this`posted, this`lastKeyEventTime
      ensures Valid()
      ensures if nCode == HC_ACTION && alive && !isShuttingDown && (wParam == WM_KEYDOWN || wParam == WM_SYSKEYDOWN)
        then Liveness() == OnInput(old(Liveness()), now).0 && posted == old(posted) + OnInput(old(Liveness()), now).1
          && lastKeyEventTime == now % U64
        else unchanged(this)
    {
      if nCode == HC_ACTION && alive && !isShuttingDown {
        if wParam == WM_KEYDOWN || wParam == WM_SYSKEYDOWN {
          NoteActivity(now);
          lastKeyEventTime := now % U64;
        }
      }
    }

    /** The low-level mouse hook: any mouse action counts as activity. */
    method MouseProc(nCode: int, alive: bool, now: int)
      modifies this`userIsActive, this`lastActivityTime, this`posted
      ensures if nCode == HC_ACTION && alive && !isShuttingDown
        then Liveness() == OnInput(old(Liveness()), now).0 && posted == old(posted) + OnInput(old(Liveness()), now).1
        else unchanged(this)
    {
      if nCode == HC_ACTION && alive && !isShuttingDown {
        NoteActivity(now);
      }
    }

    /** One pass of the inactivity thread. */
    method InactivityTick(now: int)
      modifies this`userIsActive, this`posted
      ensures if isShuttingDown then unchanged(this)
        else Liveness() == OnTick(old(Liveness()), now, inactivityThreshold).0 &&
             posted == old(posted) + OnTick(old(Liveness()), now, inactivityThreshold).1
    {
      if isShuttingDown { return; }
      var duration := now - lastActivityTime;
      if duration > inactivityThreshold && userIsActive {
        userIsActive := false;
        posted := posted + [UserInactive];
      }
    }

    /** Polls the four controller slots; `results[i]` is what slot `i` returned. */
    method CheckControllerInput(results: seq<SlotRead>) returns (detected: bool)
      requires Valid() && |results| == XUSER_MAX_COUNT
      modifies lastControllerStates
      ensures detected <==> (monitorControllers && !isShuttingDown && AnySlotFires(old(lastControllerStates[..]), results))
      ensures forall i :: 0 <= i < XUSER_MAX_COUNT ==>
        lastControllerStates[i] == (if monitorControllers && !isShuttingDown
          then NextSlot(old(lastControllerStates[i]), results[i]) else old(lastControllerStates[i]))
    {
      if !monitorControllers || isShuttingDown { return false; }
      detected := false;
      var i := 0;
      while i < XUSER_MAX_COUNT
        decreases XUSER_MAX_COUNT - i
        invariant 0 <= i <= XUSER_MAX_COUNT
        invariant forall k :: 0 <= k < i ==> lastControllerStates[k] == NextSlot(old(lastControllerStates[k]), results[k])
        invariant forall k :: i <= k < XUSER_MAX_COUNT ==> lastControllerStates[k] == old(lastControllerStates[k])
        invariant detected <==> exists k :: 0 <= k < i && Fires(old(lastControllerStates[k]), results[k])
      {
        assert old(lastControllerStates[..])[i] == old(lastControllerStates[i]);
        match results[i] {
          case SlotFault =>
          case SlotResult(code, state) =>
            if code == ERROR_SUCCESS && state.packetNumber != lastControllerStates[i].packetNumber {
              detected := true;
              lastControllerStates[i] := state;
            }
        }
        i := i + 1;
      }
    }

    /** Compares the cursor with the stored position; `cursor` is None when
        GetCursorPos fails. Only movement counts, not buttons. */
    method CheckRawInput(cursor: Option<Point>) returns (moved: bool)
      modifies this`lastMousePosition
      ensures moved <==> !isShuttingDown && cursor.Some? && cursor.value != old(lastMousePosition)
      ensures lastMousePosition == if moved then cursor.value else old(lastMousePosition)
    {
      if isShuttingDown { return false; }
      moved := false;
      if cursor.Some? && cursor.value != lastMousePosition {
        lastMousePosition := cursor.value;
        moved := true;
      }
    }

    /** Polls the key states in the order of `PolledKeys`. */
    method PollKeyboardState(probe: int -> KeyProbe) returns (pressed: bool)
      ensures pressed <==> (!isShuttingDown && PressedFirst(PolledKeys(), probe))
    {
      if isShuttingDown { return false; }
      pressed := ProbeKeys(PolledKeys(), probe);
    }

    /** Keyboard input: the hook-recency proxy when the hooks are installed,
        otherwise a poll of the key states. */
    method CheckKeyboardInput(now: nat, probe: int -> KeyProbe) returns (typed: bool)
      ensures typed <==> (monitorKeyboard && !isShuttingDown &&
        if hooksInstalled then KeyRecent(now % U64, lastKeyEventTime) else PressedFirst(PolledKeys(), probe))
    {
      if !monitorKeyboard || isShuttingDown { return false; }
      if hooksInstalled {
        var currentTime := now % U64;
        return lastKeyEventTime > 0 && (currentTime - lastKeyEventTime) % U64 < KEY_RECENCY_MS;
      }
      typed := PollKeyboardState(probe);
    }

    /** Audio: `peakAbove` is whether the meter read succeeded with a peak
        above the threshold. */
    method CheckSystemAudio(peakAbove: bool) returns (heard: bool)
      ensures heard <==> monitorAudio && !isShuttingDown && peakAbove
    {
      if !monitorAudio || isShuttingDown { return false; }
      return peakAbove;
    }

    /** Closes every stored handle and empties both lists. */
    method CloseHIDDevices()
      modifies this`hidDeviceHandles, this`lastHIDStates, this`closedHandles
      ensures hidDeviceHandles == [] && lastHIDStates == []
      ensures closedHandles == old(closedHandles) + old(hidDeviceHandles)
    {
      var i := 0;
      while i < |hidDeviceHandles|
        invariant 0 <= i <= |hidDeviceHandles|
        invariant hidDeviceHandles == old(hidDeviceHandles)
        invariant closedHandles == old(closedHandles) + hidDeviceHandles[..i]
      {
        closedHandles := closedHandles + [hidDeviceHandles[i]];
        i := i + 1;
      }
      assert hidDeviceHandles[..i] == hidDeviceHandles;
      hidDeviceHandles, lastHIDStates := [], [];
    }

    /** Rebuilds the device list. `enumeration` is None when the device
        information set could not be obtained, otherwise the interfaces met. */
    method InitializeHIDDevices(enumeration: Option<seq<HidInterface>>)
      requires Valid()
      modifies this`hidDeviceHandles, this`lastHIDStates, this`closedHandles
      ensures Valid()
      ensures if isShuttingDown || enumeration.None? then
          hidDeviceHandles == [] && lastHIDStates == [] &&
          closedHandles == old(closedHandles) + old(hidDeviceHandles)
        else
          hidDeviceHandles == Handles(Admitted(enumeration.value)) &&
          lastHIDStates == Buffers(Admitted(enumeration.value)) &&
          closedHandles == old(closedHandles) + old(hidDeviceHandles) + Rejected(enumeration.value)
      ensures !isShuttingDown && old(hidDeviceHandles) == [] ==> Hid() == Rebuilt(old(closedHandles), enumeration)
    {
      CloseHIDDevices();
      if isShuttingDown || enumeration.None? { return; }
      var rejected;
      hidDeviceHandles, lastHIDStates, rejected := Enumerate(enumeration.value);
      closedHandles := closedHandles + rejected;
    }

    /** Reads every device once; `results[i]` is what reading device `i` would
        produce. Stops at the first device with input, then erases the invalid
        devices from both lists at the same indices, from the back. */
    method CheckHIDDevices(results: seq<HidRead>) returns (detected: bool)
      requires Valid() && |results| == |hidDeviceHandles|
      modifies this`hidDeviceHandles, this`lastHIDStates, this`closedHandles
      ensures Valid()
      ensures if !monitorHIDDevices || isShuttingDown || old(hidDeviceHandles) == [] then
          !detected && unchanged(this)
        else
          var r := Scan(old(lastHIDStates), results, 0, []);
          && detected == r.detected
          && hidDeviceHandles == Without(old(hidDeviceHandles), Elems(r.invalid))
          && lastHIDStates == Without(r.states, Elems(r.invalid))
          && (forall x :: 0 <= x < |SortedUnique(r.invalid)| ==> SortedUnique(r.invalid)[x] < |old(hidDeviceHandles)|)
          && closedHandles == old(closedHandles) + ErasedHandles(old(hidDeviceHandles), SortedUnique(r.invalid))
      ensures !isShuttingDown ==> Hid() == CheckedHid(old(Hid()), results, monitorHIDDevices)
    {
      if !monitorHIDDevices || isShuttingDown || hidDeviceHandles == [] { return false; }
      var invalidDevices;
      detected, invalidDevices := ReadDevices(results);
      RemoveInvalid(invalidDevices);
    }

    /** The scan proper: visits the devices in order, overwriting the stored
        report of the device that shows input and stopping there, and
        collecting the indices of the devices found invalid. */
    method ReadDevices(results: seq<HidRead>) returns (detected: bool, invalidDevices: seq<nat>)
      requires Valid() && |results| == |hidDeviceHandles|
      modifies this`lastHIDStates
      ensures Valid()
      ensures var r := Scan(old(lastHIDStates), results, 0, []);
        detected == r.detected && lastHIDStates == r.states && invalidDevices == r.invalid
      ensures forall x :: x in invalidDevices ==> x < |hidDeviceHandles|
    {
      ghost var s0 := lastHIDStates;
      ghost var r := Scan(s0, results, 0, []);
      invalidDevices := [];
      detected := false;
      var i := 0;
      while i < |hidDeviceHandles| && !detected
        invariant 0 <= i <= |hidDeviceHandles| == |lastHIDStates|
        invariant !detected ==> lastHIDStates == s0 && r == Scan(s0, results, i, invalidDevices)
        invariant detected ==> r == ScanResult(true, lastHIDStates, invalidDevices)
        invariant forall x :: x in invalidDevices ==> x < i
      {
        var v := Judge(lastHIDStates[i], results[i]);
        if v.invalid {
          invalidDevices := invalidDevices + [i];
        } else if v.input {
          lastHIDStates := lastHIDStates[i := v.state];
          detected := true;
        }
        i := i + 1;
      }
    }

    /** Sorts and de-duplicates the invalid indices, then erases each from both
        lists, largest first, closing its handle. */
    method RemoveInvalid(invalidDevices: seq<nat>)
      requires Valid()
      requires forall x :: x in invalidDevices ==> x < |hidDeviceHandles|
      modifies this`hidDeviceHandles, this`lastHIDStates, this`closedHandles
      ensures Valid()
      ensures forall x :: 0 <= x < |SortedUnique(invalidDevices)| ==> SortedUnique(invalidDevices)[x] < |old(hidDeviceHandles)|
      ensures hidDeviceHandles == Without(old(hidDeviceHandles), Elems(invalidDevices))
      ensures lastHIDStates == Without(old(lastHIDStates), Elems(invalidDevices))
      ensures closedHandles == old(closedHandles) + ErasedHandles(old(hidDeviceHandles), SortedUnique(invalidDevices))
    {
      SortedUniqueSpec(invalidDevices);
      var closed;
      hidDeviceHandles, lastHIDStates, closed := EraseInvalid(hidDeviceHandles, lastHIDStates, invalidDevices);
      closedHandles := closedHandles + closed;
    }

    /** The `setHIDMonitoring` command: the flag is exchanged, and the device
        list is built only on a false-to-true change and closed only on a
        true-to-false change. `enumeration` is what a rebuild would meet. */
    method SetHIDMonitoring(args: Args, enumeration: Option<seq<HidInterface>>) returns (response: Response)
      requires Valid()
      modifies this`monitorHIDDevices, this`hidDeviceHandles, this`lastHIDStates, this`closedHandles
      ensures Valid()
      ensures BoolArg(args, "enabled").None? ==>
        response == Error("Invalid argument", "Expected a bool for 'enabled'.") && unchanged(this)
      ensures BoolArg(args, "enabled").Some? ==>
        var enabled := BoolArg(args, "enabled").value;
        && response == Success(VNull)
        && monitorHIDDevices == enabled
        && (enabled && !old(monitorHIDDevices) ==>
             hidDeviceHandles == (if isShuttingDown || enumeration.None? then [] else Handles(Admitted(enumeration.value))) &&
             lastHIDStates == (if isShuttingDown || enumeration.None? then [] else Buffers(Admitted(enumeration.value))) &&
             closedHandles == old(closedHandles) + old(hidDeviceHandles) +
               (if isShuttingDown || enumeration.None? then [] else Rejected(enumeration.value)))
        && (!enabled && old(monitorHIDDevices) ==>
             hidDeviceHandles == [] && lastHIDStates == [] && closedHandles == old(closedHandles) + old(hidDeviceHandles))
        && (enabled == old(monitorHIDDevices) ==>
             unchanged(this`hidDeviceHandles, this`lastHIDStates, this`closedHandles))
    {
      var enabled := BoolArg(args, "enabled");
      if enabled.None? {
        return Error("Invalid argument", "Expected a bool for 'enabled'.");
      }
      var newValue := enabled.value;
      var oldValue := monitorHIDDevices;
      monitorHIDDevices := newValue;
      if newValue && !oldValue {
        InitializeHIDDevices(enumeration);
      } else if !newValue && oldValue {
        CloseHIDDevices();
      }
      response := Success(VNull);
    }

    /** Whether the keyboard, controller, cursor or audio check finds input,
        read in the current state. */
    ghost predicate DirectInputSeen(now: nat, probe: int -> KeyProbe, slots: seq<SlotRead>, cursor: Option<Point>,
                                    peakAbove: bool)
      requires Valid() && |slots| == XUSER_MAX_COUNT
      reads this, lastControllerStates
    {
      || (monitorKeyboard && if hooksInstalled then KeyRecent(now % U64, lastKeyEventTime) else PressedFirst(PolledKeys(), probe))
      || (monitorControllers && AnySlotFires(lastControllerStates[..], slots))
      || (cursor.Some? && cursor.value != lastMousePosition)
      || (monitorAudio && peakAbove)
    }

    /** Whether any of the five checks finds input, read in the current state
        (the checks look at disjoint parts of it). */
    ghost predicate InputSeen(now: nat, probe: int -> KeyProbe, slots: seq<SlotRead>, cursor: Option<Point>,
                              peakAbove: bool, results: seq<HidRead>)
      requires Valid() && |slots| == XUSER_MAX_COUNT && |results| == |hidDeviceHandles|
      reads this, lastControllerStates
    {
      || DirectInputSeen(now, probe, slots, cursor, peakAbove)
      || (monitorHIDDevices && hidDeviceHandles != [] && Scan(lastHIDStates, results, 0, []).detected)
    }

    /** The keyboard, controller, cursor and audio checks of one pass. */
    method CheckDirectInputs(now: nat, probe: int -> KeyProbe, slots: seq<SlotRead>, cursor: Option<Point>,
                             peakAbove: bool) returns (detected: bool)
      requires Valid() && |slots| == XUSER_MAX_COUNT
      requires !isShuttingDown
      modifies this`lastMousePosition, lastControllerStates
      ensures detected <==> old(DirectInputSeen(now, probe, slots, cursor, peakAbove))
      ensures lastMousePosition == if cursor.Some? then cursor.value else old(lastMousePosition)
      ensures forall i :: 0 <= i < XUSER_MAX_COUNT ==>
        lastControllerStates[i] == (if monitorControllers
          then NextSlot(old(lastControllerStates[i]), slots[i]) else old(lastControllerStates[i]))
    {
      var keyboard := CheckKeyboardInput(now, probe);
      var controller := CheckControllerInput(slots);
      var mouse := CheckRawInput(cursor);
      var audio := CheckSystemAudio(peakAbove);
      detected := keyboard || controller || mouse || audio;
    }

    /** The five checks of one monitoring pass, all of them run in order
        (none is skipped because an earlier one fired). */
    method CheckAll(now: nat, probe: int -> KeyProbe, slots: seq<SlotRead>, cursor: Option<Point>,
                    peakAbove: bool, results: seq<HidRead>) returns (detected: bool)
      requires Valid() && |slots| == XUSER_MAX_COUNT && |results| == |hidDeviceHandles|
      requires !isShuttingDown
      modifies this`lastMousePosition, this`hidDeviceHandles, this`lastHIDStates, this`closedHandles, lastControllerStates
      ensures Valid()
      ensures detected <==> old(InputSeen(now, probe, slots, cursor, peakAbove, results))
      ensures lastMousePosition == if cursor.Some? then cursor.value else old(lastMousePosition)
      ensures forall i :: 0 <= i < XUSER_MAX_COUNT ==>
        lastControllerStates[i] == (if monitorControllers
          then NextSlot(old(lastControllerStates[i]), slots[i]) else old(lastControllerStates[i]))
      ensures Hid() == CheckedHid(old(Hid()), results, monitorHIDDevices)
    {
      var direct := CheckDirectInputs(now, probe, slots, cursor, peakAbove);
      var hid := CheckHIDDevices(results);
      detected := direct || hid;
    }

    /** The 30 s rescan of the monitoring thread: the HID list is rebuilt when
        it is due, HID monitoring is on, and the list is empty. */
    method ReinitializeIfEmpty(reinitDue: bool, enumeration: Option<seq<HidInterface>>)
      requires Valid() && !isShuttingDown
      modifies this`hidDeviceHandles, this`lastHIDStates, this`closedHandles
      ensures Valid()
      ensures Hid() == if monitorHIDDevices && reinitDue && old(hidDeviceHandles) == []
        then Rebuilt(old(closedHandles), enumeration) else old(Hid())
    {
      if monitorHIDDevices && reinitDue && hidDeviceHandles == [] {
        InitializeHIDDevices(enumeration);
      }
    }

    /** One 100 ms pass of the monitoring thread: the five checks, then the
        HID list is rebuilt when the 30 s re-initialisation is due and the
        list is empty, then any detected input is noted as activity. */
    method MonitorTick(now: nat, probe: int -> KeyProbe, slots: seq<SlotRead>, cursor: Option<Point>,
                       peakAbove: bool, results: seq<HidRead>, reinitDue: bool,
                       enumeration: Option<seq<HidInterface>>) returns (detected: bool)
      requires Valid() && |slots| == XUSER_MAX_COUNT && |results| == |hidDeviceHandles|
      modifies this`lastMousePosition, this`hidDeviceHandles, this`lastHIDStates, this`closedHandles,
        this`userIsActive, this`lastActivityTime, this`posted, lastControllerStates
      ensures Valid()
      ensures isShuttingDown ==> !detected && unchanged(this) && unchanged(lastControllerStates)
      ensures !isShuttingDown ==> (detected <==> old(InputSeen(now, probe, slots, cursor, peakAbove, results)))
      ensures !isShuttingDown ==> lastMousePosition == if cursor.Some? then cursor.value else old(lastMousePosition)
      ensures !isShuttingDown && detected ==>
        Liveness() == OnInput(old(Liveness()), now).0 && posted == old(posted) + OnInput(old(Liveness()), now).1
      ensures !detected ==> Liveness() == old(Liveness()) && posted == old(posted)
      ensures !isShuttingDown ==> forall i :: 0 <= i < XUSER_MAX_COUNT ==>
        lastControllerStates[i] == (if monitorControllers
          then NextSlot(old(lastControllerStates[i]), slots[i]) else old(lastControllerStates[i]))
      ensures !isShuttingDown ==>
        var checked := CheckedHid(old(Hid()), results, monitorHIDDevices);
        Hid() == if monitorHIDDevices && reinitDue && checked.handles == [] then Rebuilt(checked.closed, enumeration) else checked
    {
      if isShuttingDown { return false; }
      detected := CheckAll(now, probe, slots, cursor, peakAbove, results);
      ReinitializeIfEmpty(reinitDue, enumeration);
      if detected {
        NoteActivity(now);
      }
    }
  }

  // ---------------------------------------------------------------------
  // The focus listener thread
  // ---------------------------------------------------------------------

  /** What one pass of the focus listener announces: a change of foreground
      window handle to a window that exists. */
  function FocusNotices(last: Option<nat>, current: Option<nat>, title: string, appName: string,
                        windowTitle: string): (r: seq<Notice>)
    ensures r != [] <==> current != last && current.Some?
    ensures r != [] ==> r == [FocusChange(title, appName, windowTitle)]
  {
    if current != last && current.Some? then [FocusChange(title, appName, windowTitle)] else []
  }

  /** Only the handle is compared: a new title in the same window is not announced. */
  lemma TitleChangeInSameWindowIsQuiet(w: nat, title: string, a: string, wt: string)
    ensures FocusNotices(Some(w), Some(w), title, a, wt) == []
  {
  }

  class FocusListener {
    var lastFocused: Option<nat>
    var posted: seq<Notice>

    constructor ()
      ensures lastFocused == None && posted == []
    {
      lastFocused, posted := None, [];
    }

    /** One pass: `current` is GetForegroundWindow (None for no window), the
        strings are what the window reports at that moment. */
    method Tick(current: Option<nat>, title: string, appName: string, windowTitle: string, shuttingDown: bool)
      modifies this
      ensures shuttingDown ==> unchanged(this)
      ensures !shuttingDown ==> lastFocused == current
      ensures !shuttingDown ==> posted == old(posted) + FocusNotices(old(lastFocused), current, title, appName, windowTitle)
    {
      if shuttingDown { return; }
      if current != lastFocused {
        lastFocused := current;
        if current.Some? {
          posted := posted + [FocusChange(title, appName, windowTitle)];
        }
      }
    }
  }
}
