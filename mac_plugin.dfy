// The macOS side of the plugin: the idle tracker that polls three idle
// readings once a second, the HID device table kept beside it, the audio
// probe, the monitoring toggles, and the observer that reports the focused
// application and its window title. Times are exact seconds (`real`); the
// operating system's readings arrive as parameters.
module MacPlugin {
  import opened Common

  /** Messages the plugin sends to the Dart side on macOS. */
  datatype Invocation =
    | OnUserInactivity
    | OnUserActive
    | OnFocusChange(appName: string, windowTitle: string)

  // ---------------------------------------------------------------------
  // Idle readings
  // ---------------------------------------------------------------------

  /** A system idle reading of an hour or more is suspicious. */
  const SANE_IDLE: real := 3600.0

  /** A system reading is believed when it is non-negative and either below
      an hour or the tracker's own clock also says more than an hour. */
  predicate Trusted(system: real, manual: real) {
    system >= 0.0 && (system < SANE_IDLE || manual > SANE_IDLE)
  }

  /** The system reading when it is believable, the manual one otherwise. */
  function SafeIdle(system: real, manual: real): (r: real)
    ensures r == system || r == manual
    ensures Trusted(system, manual) ==> r == system
    ensures r != manual ==> 0.0 <= r && (r < SANE_IDLE || manual > SANE_IDLE)
  {
    if Trusted(system, manual) then system else manual
  }

  function Min(a: real, b: real): real {
    if a <= b then a else b
  }

  /** The idle time the tracker acts on: the least of the two sanitised
      system readings and the time since the last interaction it saw. */
  function IdleTime(combined: real, hid: real, manual: real): (r: real)
    ensures r <= manual
    ensures r <= SafeIdle(combined, manual) && r <= SafeIdle(hid, manual)
    ensures r == manual || r == SafeIdle(combined, manual) || r == SafeIdle(hid, manual)
    ensures manual >= 0.0 ==> r >= 0.0
  {
    Min(Min(SafeIdle(combined, manual), SafeIdle(hid, manual)), manual)
  }

  /** A huge bogus system reading cannot make the tracker believe the user is
      idler than its own clock says. */
  lemma BogusReadingIgnored(combined: real, hid: real, manual: real)
    requires combined >= SANE_IDLE && manual <= SANE_IDLE
    ensures SafeIdle(combined, manual) == manual
    ensures IdleTime(combined, hid, manual) == Min(SafeIdle(hid, manual), manual)
  {
  }

  /** One level check: idle at or beyond the threshold makes the user
      inactive, below it active; a message goes out only on a change. */
  function IdleCheck(active: bool, idle: real, threshold: real): (r: (bool, seq<Invocation>))
    ensures r.0 <==> idle < threshold
    ensures r.1 == [OnUserInactivity] <==> active && idle >= threshold
    ensures r.1 == [OnUserActive] <==> !active && idle < threshold
    ensures r.1 == [] <==> r.0 == active
  {
    if idle >= threshold then
      if active then (false, [OnUserInactivity]) else (false, [])
    else
      if !active then (true, [OnUserActive]) else (true, [])
  }

  /** The user is judged inactive only when all three readings agree. */
  lemma InactiveNeedsEveryReading(active: bool, combined: real, hid: real, manual: real, threshold: real)
    ensures !IdleCheck(active, IdleTime(combined, hid, manual), threshold).0 <==>
      manual >= threshold && SafeIdle(combined, manual) >= threshold && SafeIdle(hid, manual) >= threshold
  {
    var idle := IdleTime(combined, hid, manual);
    if idle >= threshold {
      assert manual >= threshold && SafeIdle(combined, manual) >= threshold;
    } else {
      assert idle == manual || idle == SafeIdle(combined, manual) || idle == SafeIdle(hid, manual);
    }
  }

  /** A second check with the same idle time is silent. */
  lemma IdleCheckSettles(active: bool, idle: real, threshold: real)
    ensures IdleCheck(IdleCheck(active, idle, threshold).0, idle, threshold).1 == []
  {
  }

  // ---------------------------------------------------------------------
  // System audio
  // ---------------------------------------------------------------------

  /** The outcome of the CoreAudio queries on the default output device. */
  datatype AudioReadings = AudioReadings(
    defaultDeviceOk: bool,   // the default-output-device query succeeded
    deviceKnown: bool,       // the device id is not kAudioDeviceUnknown
    runningOk: bool,         // the is-running query succeeded
    isRunning: nat,          // its value
    volumeOk: bool,          // the volume query succeeded
    volume: real)            // its value

  /** Whether the audio probe reports activity. A running device is reported
      whether or not its volume is above the threshold: both branches of that
      comparison answer yes. */
  function SystemAudioActive(monitorAudio: bool, a: AudioReadings, threshold: real): (r: bool)
    ensures r <==> monitorAudio && a.defaultDeviceOk && a.deviceKnown && a.runningOk && a.isRunning != 0
  {
    if !monitorAudio || !a.defaultDeviceOk || !a.deviceKnown then false
    else if a.runningOk && a.isRunning != 0 then
      if a.volumeOk && a.volume > threshold then true else true
    else false
  }

  /** Neither the volume reading nor the audio threshold changes the answer. */
  lemma AudioThresholdIgnored(monitorAudio: bool, a: AudioReadings, volume: real, t1: real, t2: real)
    ensures SystemAudioActive(monitorAudio, a, t1) == SystemAudioActive(monitorAudio, a.(volume := volume), t2)
  {
  }

  // ---------------------------------------------------------------------
  // HID device table
  // ---------------------------------------------------------------------

  /** An IOHIDDevice: its identity and its usage-page property, if any. */
  datatype HidDevice = HidDevice(id: nat, usagePage: Option<int>)

  /** The tracker's device array and its per-device report dictionary. */
  datatype HidTable = HidTable(devices: seq<HidDevice>, states: map<HidDevice, seq<byte>>)

  const TELEPHONY_PAGE: int := 0x0B
  const CONSUMER_PAGE: int := 0x0C

  /** Telephony and consumer devices, which often carry audio, are skipped. */
  predicate Skipped(d: HidDevice) {
    d.usagePage == Some(TELEPHONY_PAGE) || d.usagePage == Some(CONSUMER_PAGE)
  }

  /** Every listed device has a state entry and every entry a listed device. */
  ghost predicate Consistent(h: HidTable) {
    forall d :: d in h.states <==> d in h.devices
  }

  predicate Unique(s: seq<HidDevice>) {
    forall i, j :: 0 <= i < j < |s| ==> s[i] != s[j]
  }

  /** The device-added callback. */
  function Added(h: HidTable, d: HidDevice): (r: HidTable)
    ensures Skipped(d) ==> r == h
    ensures !Skipped(d) ==> r.devices == h.devices + [d] && r.states.Keys == h.states.Keys + {d}
    ensures !Skipped(d) ==> r.states[d] == [] && forall e :: e in h.states && e != d ==> r.states[e] == h.states[e]
  {
    if Skipped(d) then h else HidTable(h.devices + [d], h.states[d := []])
  }

  /** `i` is the position of the first occurrence of `d` in `s`. */
  predicate FirstAt(s: seq<HidDevice>, d: HidDevice, i: int) {
    0 <= i < |s| && s[i] == d && forall j :: 0 <= j < i ==> s[j] != d
  }

  /** The position of the first occurrence of `d` in `s`. */
  function FirstIndex(s: seq<HidDevice>, d: HidDevice): (r: Option<nat>)
    ensures r.Some? <==> d in s
    ensures r.Some? ==> FirstAt(s, d, r.value)
  {
    if |s| == 0 then None
    else if s[0] == d then Some(0)
    else match FirstIndex(s[1..], d)
      case None => None
      case Some(i) => Some(i + 1)
  }

  /** The device-removed callback: drop the first occurrence and its entry;
      a device not in the list changes nothing. */
  function Removed(h: HidTable, d: HidDevice): (r: HidTable)
    ensures d !in h.devices ==> r == h
    ensures d in h.devices ==> r.states == h.states - {d} && |r.devices| == |h.devices| - 1
    ensures d in h.devices ==> multiset(r.devices) == multiset(h.devices) - multiset{d}
    ensures d in h.devices ==> exists i :: FirstAt(h.devices, d, i) && r.devices == h.devices[..i] + h.devices[i + 1..]
  {
    match FirstIndex(h.devices, d)
    case None => h
    case Some(i) =>
      assert h.devices == h.devices[..i] + [h.devices[i]] + h.devices[i + 1..];
      HidTable(h.devices[..i] + h.devices[i + 1..], h.states - {d})
  }

  /** closeHIDDevices empties both collections. */
  function Cleared(h: HidTable): (r: HidTable)
    ensures r.devices == [] && r.states == map[]
    ensures Consistent(r) && Unique(r.devices)
  {
    HidTable([], map[])
  }

  lemma AddedKeepsConsistent(h: HidTable, d: HidDevice)
    requires Consistent(h)
    ensures Consistent(Added(h, d))
    ensures Unique(h.devices) && d !in h.devices ==> Unique(Added(h, d).devices)
  {
    var r := Added(h, d);
    if !Skipped(d) {
      forall e ensures e in r.states <==> e in r.devices {
        assert e in r.devices <==> e in h.devices || e == d;
      }
    }
  }

  /** Dropping position `i` of a duplicate-free list drops exactly `s[i]`. */
  lemma UniqueWithout(s: seq<HidDevice>, i: nat)
    requires Unique(s) && i < |s|
    ensures Unique(s[..i] + s[i + 1..])
    ensures forall e :: e in s[..i] + s[i + 1..] <==> e in s && e != s[i]
  {
    var t := s[..i] + s[i + 1..];
    assert forall k :: 0 <= k < |t| ==> t[k] == s[if k < i then k else k + 1];
    forall e | e in s && e != s[i] ensures e in t {
      var k :| 0 <= k < |s| && s[k] == e;
      assert t[if k < i then k else k - 1] == e;
    }
  }

  lemma RemovedKeepsConsistent(h: HidTable, d: HidDevice)
    requires Consistent(h) && Unique(h.devices)
    ensures Consistent(Removed(h, d)) && Unique(Removed(h, d).devices)
  {
    if d in h.devices {
      var i := FirstIndex(h.devices, d).value;
      var r := Removed(h, d);
      assert r.devices == h.devices[..i] + h.devices[i + 1..];
      UniqueWithout(h.devices, i);
      assert forall e :: e in r.states <==> e in h.states && e != d;
    }
  }

  /** Adding a new device and removing it again restores the table. */
  lemma AddRemoveRoundTrip(h: HidTable, d: HidDevice)
    requires Consistent(h) && d !in h.devices && !Skipped(d)
    ensures Removed(Added(h, d), d) == h
  {
    var a := Added(h, d);
    var n := |h.devices|;
    assert a.devices[n] == d;
    assert FirstIndex(a.devices, d) == Some(n);
    assert a.devices[..n] == h.devices;
    assert d !in h.states;
    assert a.states - {d} == h.states;
  }

  /** A device reported twice and then removed once is still listed but has
      lost its state entry: the two collections drift apart. */
  lemma DoubleAddDrifts()
    ensures !Consistent(Removed(Added(Added(HidTable([], map[]), HidDevice(1, None)), HidDevice(1, None)), HidDevice(1, None)))
  {
    var d := HidDevice(1, None);
    var r := Removed(Added(Added(HidTable([], map[]), d), d), d);
    assert r.devices == [d];
    assert d in r.devices && d !in r.states;
  }

  // ---------------------------------------------------------------------
  // Monitoring toggles
  // ---------------------------------------------------------------------

  datatype Toggle = Start | Stop | Keep

  /** What a setter does to its subsystem, given the old and the new flag. */
  function ToggleAction(wasEnabled: bool, enabled: bool): (r: Toggle)
    ensures r == Start <==> enabled && !wasEnabled
    ensures r == Stop <==> !enabled && wasEnabled
    ensures r == Keep <==> enabled == wasEnabled
  {
    if enabled && !wasEnabled then Start
    else if !enabled && wasEnabled then Stop
    else Keep
  }

  /** Work done on a subsystem, as a log. */
  datatype Lifecycle =
    | AudioTimerScheduled
    | AudioTimerInvalidated
    | HidManagerOpened
    | HidManagerClosed

  // ---------------------------------------------------------------------
  // The idle tracker
  // ---------------------------------------------------------------------

  const DEFAULT_IDLE_THRESHOLD: real := 5.0
  const DEFAULT_AUDIO_THRESHOLD: real := 0.001

  class IdleTracker {
    var lastActivityTime: real
    var idleThreshold: real
    var savedThreshold: Option<real>   // the "idleThreshold" user default
    var userIsActive: bool
    var monitorAudio: bool
    var monitorHIDDevices: bool
    var audioThreshold: real
    var audioTimer: bool               // audioCheckTimer is non-nil
    var hidManager: bool               // hidManager is non-nil
    var hidDevices: seq<HidDevice>
    var lastHIDStates: map<HidDevice, seq<byte>>
    var invoked: seq<Invocation>       // messages sent on the channel
    var lifecycle: seq<Lifecycle>

    function Table(): HidTable
      reads this
    {
      HidTable(hidDevices, lastHIDStates)
    }

    /** init: read the stored threshold, start the timers, open the HID
        manager if it can be created, and schedule the audio probe. */
    constructor(now: real, saved: Option<real>, managerCreated: bool)
      ensures lastActivityTime == now && userIsActive && invoked == []
      ensures idleThreshold == (if saved.Some? then saved.value else DEFAULT_IDLE_THRESHOLD)
      ensures savedThreshold == saved
      ensures monitorAudio && monitorHIDDevices && audioThreshold == DEFAULT_AUDIO_THRESHOLD
      ensures hidManager == managerCreated && audioTimer
      ensures Table() == HidTable([], map[])
      ensures lifecycle == (if managerCreated then [HidManagerOpened] else []) + [AudioTimerScheduled]
    {
      lastActivityTime := now;
      idleThreshold := if saved.Some? then saved.value else DEFAULT_IDLE_THRESHOLD;
      savedThreshold := saved;
      userIsActive := true;
      monitorAudio := true;
      monitorHIDDevices := true;
      audioThreshold := DEFAULT_AUDIO_THRESHOLD;
      hidDevices := [];
      lastHIDStates := map[];
      invoked := [];
      hidManager := managerCreated;
      audioTimer := true;
      lifecycle := (if managerCreated then [HidManagerOpened] else []) + [AudioTimerScheduled];
    }

    /** userDidInteract: every event tap, event monitor, HID report and audio
        detection lands here. */
    method UserDidInteract(now: real)
      modifies this`lastActivityTime
      ensures lastActivityTime == now
    {
      lastActivityTime := now;
    }

    /** checkIdleTime, run by the one-second timer. */
    method CheckIdleTime(combined: real, hid: real, now: real)
      modifies this`userIsActive, this`invoked
      ensures var r := IdleCheck(old(userIsActive), IdleTime(combined, hid, now - lastActivityTime), idleThreshold);
        userIsActive == r.0 && invoked == old(invoked) + r.1
    {
      var manual := now - lastActivityTime;
      var safeCombined := SafeIdle(combined, manual);
      var safeHid := SafeIdle(hid, manual);
      var idle := Min(Min(safeCombined, safeHid), manual);
      if idle >= idleThreshold {
        if userIsActive {
          userIsActive := false;
          invoked := invoked + [OnUserInactivity];
        }
      } else {
        if !userIsActive {
          userIsActive := true;
          invoked := invoked + [OnUserActive];
        }
      }
    }

    /** setIdleThreshold: store the threshold and persist it. */
    method SetIdleThreshold(threshold: real)
      modifies this`idleThreshold, this`savedThreshold
      ensures idleThreshold == threshold && savedThreshold == Some(threshold)
    {
      idleThreshold := threshold;
      savedThreshold := Some(threshold);
    }

    /** handleHIDDeviceAdded. */
    method HandleHidDeviceAdded(d: HidDevice)
      modifies this`hidDevices, this`lastHIDStates
      ensures Table() == Added(old(Table()), d)
    {
      if d.usagePage.Some? && (d.usagePage.value == TELEPHONY_PAGE || d.usagePage.value == CONSUMER_PAGE) {
        return;
      }
      hidDevices := hidDevices + [d];
      lastHIDStates := lastHIDStates[d := []];
    }

    /** handleHIDDeviceRemoved. */
    method HandleHidDeviceRemoved(d: HidDevice)
      modifies this`hidDevices, this`lastHIDStates
      ensures Table() == Removed(old(Table()), d)
    {
      var index := FindDevice(hidDevices, d);
      if index.Some? {
        hidDevices := hidDevices[..index.value] + hidDevices[index.value + 1..];
        lastHIDStates := lastHIDStates - {d};
      }
    }

    /** handleHIDInput: a report counts as activity while HID monitoring is on. */
    method HandleHidInput(now: real)
      modifies this`lastActivityTime
      ensures lastActivityTime == if monitorHIDDevices then now else old(lastActivityTime)
    {
      if !monitorHIDDevices {
        return;
      }
      UserDidInteract(now);
    }

    /** performAudioCheck, run by the half-second audio timer. */
    method PerformAudioCheck(a: AudioReadings, now: real)
      modifies this`lastActivityTime
      ensures lastActivityTime == if SystemAudioActive(monitorAudio, a, audioThreshold) then now else old(lastActivityTime)
    {
      if SystemAudioActive(monitorAudio, a, audioThreshold) {
        UserDidInteract(now);
      }
    }

    /** initializeHIDDevices: nothing unless HID monitoring is on; otherwise a
        fresh manager, which may fail to be created. */
    method InitializeHidDevices(managerCreated: bool)
      modifies this`hidManager, this`lifecycle
      ensures !monitorHIDDevices ==> hidManager == old(hidManager) && lifecycle == old(lifecycle)
      ensures monitorHIDDevices ==> (hidManager == managerCreated &&
        lifecycle == old(lifecycle) + (if managerCreated then [HidManagerOpened] else []))
    {
      if !monitorHIDDevices {
        return;
      }
      hidManager := managerCreated;
      if managerCreated {
        lifecycle := lifecycle + [HidManagerOpened];
      }
    }

    /** closeHIDDevices: close the manager if there is one (the reference is
        kept) and forget every device. */
    method CloseHidDevices()
      modifies this`hidDevices, this`lastHIDStates, this`lifecycle
      ensures Table() == Cleared(old(Table()))
      ensures lifecycle == old(lifecycle) + (if hidManager then [HidManagerClosed] else [])
    {
      if hidManager {
        lifecycle := lifecycle + [HidManagerClosed];
      }
      hidDevices := [];
      lastHIDStates := map[];
    }

    /** initializeAudioMonitoring: schedule the probe timer while audio
        monitoring is on. */
    method InitializeAudioMonitoring()
      modifies this`audioTimer, this`lifecycle
      ensures !monitorAudio ==> audioTimer == old(audioTimer) && lifecycle == old(lifecycle)
      ensures monitorAudio ==> audioTimer && lifecycle == old(lifecycle) + [AudioTimerScheduled]
    {
      if !monitorAudio {
        return;
      }
      audioTimer := true;
      lifecycle := lifecycle + [AudioTimerScheduled];
    }

    /** setAudioMonitoring: start on off-to-on, stop on on-to-off. */
    method SetAudioMonitoring(enabled: bool)
      modifies this`monitorAudio, this`audioTimer, this`lifecycle
      ensures monitorAudio == enabled
      ensures ToggleAction(old(monitorAudio), enabled) == Start ==> audioTimer && lifecycle == old(lifecycle) + [AudioTimerScheduled]
      ensures ToggleAction(old(monitorAudio), enabled) == Stop ==> !audioTimer && lifecycle == old(lifecycle) + (if old(audioTimer) then [AudioTimerInvalidated] else [])
      ensures ToggleAction(old(monitorAudio), enabled) == Keep ==> audioTimer == old(audioTimer) && lifecycle == old(lifecycle)
    {
      var wasEnabled := monitorAudio;
      monitorAudio := enabled;
      if enabled && !wasEnabled {
        InitializeAudioMonitoring();
      } else if !enabled && wasEnabled {
        if audioTimer {
          lifecycle := lifecycle + [AudioTimerInvalidated];
        }
        audioTimer := false;
      }
    }

    /** setHIDMonitoring: open a manager on off-to-on, close everything on
        on-to-off. */
    method SetHidMonitoring(enabled: bool, managerCreated: bool)
      modifies this`monitorHIDDevices, this`hidManager, this`hidDevices, this`lastHIDStates, this`lifecycle
      ensures monitorHIDDevices == enabled
      ensures ToggleAction(old(monitorHIDDevices), enabled) == Start ==>
        hidManager == managerCreated && Table() == old(Table()) &&
        lifecycle == old(lifecycle) + (if managerCreated then [HidManagerOpened] else [])
      ensures ToggleAction(old(monitorHIDDevices), enabled) == Stop ==>
        hidManager == old(hidManager) && Table() == Cleared(old(Table())) &&
        lifecycle == old(lifecycle) + (if old(hidManager) then [HidManagerClosed] else [])
      ensures ToggleAction(old(monitorHIDDevices), enabled) == Keep ==>
        hidManager == old(hidManager) && Table() == old(Table()) && lifecycle == old(lifecycle)
    {
      var wasEnabled := monitorHIDDevices;
      monitorHIDDevices := enabled;
      if enabled && !wasEnabled {
        InitializeHidDevices(managerCreated);
      } else if !enabled && wasEnabled {
        CloseHidDevices();
      }
    }
  }

  /** Array.firstIndex(where:) over the device list. */
  method FindDevice(s: seq<HidDevice>, d: HidDevice) returns (r: Option<nat>)
    ensures r == FirstIndex(s, d)
  {
    var i := 0;
    while i < |s|
      invariant 0 <= i <= |s|
      invariant forall j :: 0 <= j < i ==> s[j] != d
    {
      if s[i] == d {
        FirstIndexAt(s, d, i);
        return Some(i);
      }
      i := i + 1;
    }
    assert d !in s;
    return None;
  }

  lemma FirstIndexAt(s: seq<HidDevice>, d: HidDevice, i: nat)
    requires i < |s| && s[i] == d && forall j :: 0 <= j < i ==> s[j] != d
    ensures FirstIndex(s, d) == Some(i)
  {
    assert d in s;
  }

  // ---------------------------------------------------------------------
  // Window titles
  // ---------------------------------------------------------------------

  /** One entry of the on-screen window list. Missing keys are `None`. */
  datatype WindowInfo = WindowInfo(
    ownerPid: Option<int>,
    number: Option<nat>,
    layer: Option<int>,
    name: Option<string>)

  function LayerOf(w: WindowInfo): int {
    if w.layer.Some? then w.layer.value else 0
  }

  function NameOf(w: WindowInfo): string {
    if w.name.Some? then w.name.value else ""
  }

  /** A window whose name can serve as the active window's title. */
  predicate TitleCandidate(w: WindowInfo, pid: int) {
    w.ownerPid == Some(pid) && LayerOf(w) == 0 && NameOf(w) != ""
  }

  /** `ws[i]` is the first title candidate. */
  predicate FirstCandidateAt(ws: seq<WindowInfo>, pid: int, i: int) {
    0 <= i < |ws| && TitleCandidate(ws[i], pid) && forall j :: 0 <= j < i ==> !TitleCandidate(ws[j], pid)
  }

  /** The name of the first title candidate, if there is one. */
  function FirstTitle(ws: seq<WindowInfo>, pid: int): (r: Option<string>)
    ensures r.Some? ==> r.value != ""
  {
    if |ws| == 0 then None
    else if TitleCandidate(ws[0], pid) then Some(NameOf(ws[0]))
    else FirstTitle(ws[1..], pid)
  }

  /** The search finds nothing exactly when no window qualifies, and
      otherwise the name of the first window that does. */
  lemma {:induction false} FirstTitleSpec(ws: seq<WindowInfo>, pid: int)
    ensures FirstTitle(ws, pid).None? <==> forall i :: 0 <= i < |ws| ==> !TitleCandidate(ws[i], pid)
    ensures FirstTitle(ws, pid).Some? ==> exists i :: FirstCandidateAt(ws, pid, i) && NameOf(ws[i]) == FirstTitle(ws, pid).value
  {
    if |ws| > 0 && !TitleCandidate(ws[0], pid) {
      var t := ws[1..];
      FirstTitleSpec(t, pid);
      assert forall i :: 1 <= i < |ws| ==> ws[i] == t[i - 1];
      if FirstTitle(t, pid).Some? {
        var i :| FirstCandidateAt(t, pid, i) && NameOf(t[i]) == FirstTitle(t, pid).value;
        assert ws[i + 1] == t[i];
        assert FirstCandidateAt(ws, pid, i + 1);
      }
    } else if |ws| > 0 {
      assert FirstCandidateAt(ws, pid, 0);
    }
  }

  /** getActiveWindowTitle: the first non-empty layer-0 window name owned by
      the application; failing that the application's name, or "Unknown". */
  function ActiveWindowTitle(windows: Option<seq<WindowInfo>>, pid: int, lastAppName: string): (r: string)
    ensures r != ""
    ensures windows.Some? && FirstTitle(windows.value, pid).Some? ==> r == FirstTitle(windows.value, pid).value
    ensures (windows.None? || FirstTitle(windows.value, pid).None?) ==>
      r == if lastAppName == "" then "Unknown" else lastAppName
  {
    var found := if windows.Some? then FirstTitle(windows.value, pid) else None;
    if found.Some? then found.value
    else if lastAppName == "" then "Unknown" else lastAppName
  }

  /** A numbered layer-0 window owned by the application: what
      updateFocusedWindowID looks for. */
  predicate Candidate(w: WindowInfo, pid: int) {
    w.ownerPid == Some(pid) && w.number.Some? && LayerOf(w) == 0
  }

  /** updateFocusedWindowID's search: the number of the first numbered
      layer-0 window owned by the application, where the loop breaks. */
  function FirstWindowNumber(ws: seq<WindowInfo>, pid: int): (r: Option<nat>)
    ensures r.Some? ==>
      exists i :: && 0 <= i < |ws| && Candidate(ws[i], pid) && ws[i].number == Some(r.value)
                  && forall j :: 0 <= j < i ==> !Candidate(ws[j], pid)
    ensures r.None? <==> forall i :: 0 <= i < |ws| ==> !Candidate(ws[i], pid)
  {
    if |ws| == 0 then None
    else if Candidate(ws[0], pid) then Some(ws[0].number.value)
    else
      var r := FirstWindowNumber(ws[1..], pid);
      assert forall i :: 1 <= i < |ws| ==> ws[i] == ws[1..][i - 1];
      if r.Some? then
        var k :| && 0 <= k < |ws[1..]| && Candidate(ws[1..][k], pid) && ws[1..][k].number == Some(r.value)
                 && forall j :: 0 <= j < k ==> !Candidate(ws[1..][j], pid);
        assert Candidate(ws[k + 1], pid) && ws[k + 1].number == Some(r.value);
        assert forall j :: 0 <= j < k + 1 ==> !Candidate(ws[j], pid) by {
          forall j | 0 <= j < k + 1 ensures !Candidate(ws[j], pid) {
            if j > 0 { assert ws[j] == ws[1..][j - 1]; }
          }
        }
        r
      else r
  }

  // ---------------------------------------------------------------------
  // The focus observer
  // ---------------------------------------------------------------------

  /** What the observer remembers: the focused pid (-1 before any
      activation), the application's name and the last title sent. */
  datatype ObserverState = ObserverState(pid: int, appName: string, title: string)

  const NO_PID: int := -1

  /** checkWindowTitleChanged: silent until an application has been seen;
      afterwards a message goes out exactly when the title changed. */
  function TitlePoll(s: ObserverState, windows: Option<seq<WindowInfo>>): (r: (ObserverState, seq<Invocation>))
    ensures s.pid == NO_PID ==> r == (s, [])
    ensures s.pid != NO_PID ==> r.0 == s.(title := ActiveWindowTitle(windows, s.pid, s.appName))
    ensures s.pid != NO_PID ==> (r.1 != [] <==> ActiveWindowTitle(windows, s.pid, s.appName) != s.title)
    ensures r.1 != [] ==> r.1 == [OnFocusChange(s.appName, r.0.title)]
  {
    if s.pid == NO_PID then (s, [])
    else
      var current := ActiveWindowTitle(windows, s.pid, s.appName);
      if current != s.title then (s.(title := current), [OnFocusChange(s.appName, current)])
      else (s, [])
  }

  /** Polling again over the same window list is silent and changes nothing. */
  lemma TitlePollSettles(s: ObserverState, windows: Option<seq<WindowInfo>>)
    ensures TitlePoll(TitlePoll(s, windows).0, windows) == (TitlePoll(s, windows).0, [])
  {
  }

  /** Only the title is compared: a switch between two windows of the same
      application that share a title is not reported by polling. */
  lemma SameTitleIsQuiet(s: ObserverState, windows: Option<seq<WindowInfo>>)
    requires ActiveWindowTitle(windows, s.pid, s.appName) == s.title
    ensures TitlePoll(s, windows).1 == []
  {
  }

  /** The application named in an activation notification, if any. */
  datatype Activation = Activation(pid: int, localizedName: Option<string>)

  class WindowFocusObserver {
    var focusedAppPID: int
    var focusedWindowID: nat
    var lastWindowTitle: string
    var lastAppName: string
    var sent: seq<Invocation>

    function State(): ObserverState
      reads this
    {
      ObserverState(focusedAppPID, lastAppName, lastWindowTitle)
    }

    constructor()
      ensures State() == ObserverState(NO_PID, "", "") && focusedWindowID == 0 && sent == []
    {
      focusedAppPID := NO_PID;
      focusedWindowID := 0;
      lastWindowTitle := "";
      lastAppName := "";
      sent := [];
    }

    /** focusedAppChanged: remember the application, look up its title, send
        both, then look up its window number (a second window-list query). */
    method FocusedAppChanged(note: Option<Activation>, windows: Option<seq<WindowInfo>>, windowsAgain: Option<seq<WindowInfo>>)
      modifies this
      ensures note.None? ==> State() == old(State()) && focusedWindowID == old(focusedWindowID) && sent == old(sent)
      ensures note.Some? ==>
        var app := if note.value.localizedName.Some? then note.value.localizedName.value else "Unknown";
        var title := ActiveWindowTitle(windows, note.value.pid, app);
        State() == ObserverState(note.value.pid, app, title) &&
        sent == old(sent) + [OnFocusChange(app, title)] &&
        focusedWindowID == (if windowsAgain.Some? && FirstWindowNumber(windowsAgain.value, note.value.pid).Some?
                            then FirstWindowNumber(windowsAgain.value, note.value.pid).value
                            else old(focusedWindowID))
    {
      if note.None? {
        return;
      }
      var pid := note.value.pid;
      var appName := if note.value.localizedName.Some? then note.value.localizedName.value else "Unknown";
      focusedAppPID := pid;
      lastAppName := appName;
      var windowTitle := ActiveWindowTitle(windows, pid, lastAppName);
      lastWindowTitle := windowTitle;
      sent := sent + [OnFocusChange(appName, windowTitle)];
      UpdateFocusedWindowID(windowsAgain);
    }

    /** updateFocusedWindowID: keep the old number when nothing matches. */
    method UpdateFocusedWindowID(windows: Option<seq<WindowInfo>>)
      modifies this`focusedWindowID
      ensures focusedWindowID == (if windows.Some? && FirstWindowNumber(windows.value, focusedAppPID).Some?
                                  then FirstWindowNumber(windows.value, focusedAppPID).value
                                  else old(focusedWindowID))
    {
      if windows.Some? {
        var found := FirstWindowNumber(windows.value, focusedAppPID);
        if found.Some? {
          focusedWindowID := found.value;
        }
      }
    }

    /** checkWindowTitleChanged, run by the one-second timer. */
    method CheckWindowTitleChanged(windows: Option<seq<WindowInfo>>)
      modifies this`lastWindowTitle, this`sent
      ensures State() == TitlePoll(old(State()), windows).0
      ensures sent == old(sent) + TitlePoll(old(State()), windows).1
    {
      if focusedAppPID == NO_PID {
        return;
      }
      var currentTitle := ActiveWindowTitle(windows, focusedAppPID, lastAppName);
      if currentTitle != lastWindowTitle {
        lastWindowTitle := currentTitle;
        sent := sent + [OnFocusChange(lastAppName, currentTitle)];
      }
    }
  }
}
