# window_focus: a verified model of the activity-tracking core

`window_focus` is a desktop plugin. It tells its host application whether the
user is active and which window has the focus. It has three backends:

- **Windows** (`windows/window_focus_plugin.cpp`):
  - low-level keyboard and mouse hooks;
  - a thread that polls XInput controllers, the cursor, the key states, the audio meter and HID devices every 100 ms;
  - an inactivity thread and a focus-listener thread;
  - a generation-tagged dispatcher that runs posted closures on the UI thread.
- **Linux** (`linux/window_focus_plugin.cc`):
  - threads that read joystick nodes and evdev nodes;
  - a PulseAudio reader behind a two-in-a-row gate;
  - an X11 thread that diffs the key map and the pointer;
  - a focus listener, an inactivity thread and an X11 screenshot;
  - the method-channel handler.
- **macOS** (`macos/Classes/WindowFocusPlugin.swift`):
  - an idle tracker that checks three idle readings once a second;
  - an IOKit HID device table, an audio probe and the monitoring toggles;
  - an observer that reports the focused application and its window title.

This project models the decision logic of those three files in Dafny and proves what it promises. Everything the operating system would answer becomes a parameter of the operation that asks. This covers hook codes, XInput slot reads, cursor positions, key probes, HID enumerations and read outcomes, evdev and joystick events, key maps, pointer queries, focused windows, window lists, `pactl` output lines and the clock.

The project has five modules:

- **`Common`** (`common.dfy`) holds what the backends share:
  - the activity state machine (`OnInput`, `OnTick`);
  - the events sent to the host, and the method-channel values;
  - the sequence algebra for erasing a set of indices, and for `std::sort` followed by `std::unique`.
- **`WinDispatcher`** (`win_dispatcher.dfy`) is the Windows task dispatcher.
  - Its steps are pure functions on a `DState` record, with lemmas over whole runs of steps.
  - A `Dispatcher` class implements each step in place.
- **`WinPlugin`** (`win_plugin.dfy`) covers the rest of the Windows backend:
  - the hooks and the inactivity check;
  - the five per-source checks of the monitoring thread;
  - the HID scan, read and removal, together with the parallel `hidDeviceHandles_` and `lastHIDStates_` lists;
  - `setHIDMonitoring` and the focus listener.
- **`LinuxPlugin`** (`linux_plugin.dfy`) covers the Linux backend:
  - the event filters and evdev classification;
  - the joystick and evdev scans, the audio gate and the audio source list;
  - the screenshot bounds and the row-strided pixel loop over an `array`;
  - the focus listener and the X11 diff;
  - the plugin object with its method-call handler.
- **`MacPlugin`** (`mac_plugin.dfy`) covers the macOS backend:
  - the idle selection and the two-way level check;
  - the audio probe and the HID device table;
  - the monitoring toggles of the `IdleTracker` class;
  - the title search and polling of the `WindowFocusObserver` class.

Where the source updates fields, the model is a class with those fields. Each method's `ensures` gives the fields it may change as specification functions of the old state and of the parameters that stand for the operating system's answers. The properties are then proved about those functions.

## Where the model follows the code rather than the description

- **Windows controller baseline.** The stored controller states are zeroed at construction (`windows/window_focus_plugin.cpp:678`). So the first successful read of a connected controller counts as input whenever its packet number is not 0 (`WinPlugin.FirstReadAgainstZeroBaseline`).
- **Windows `CheckRawInput`.** It compares only the cursor position. Holding a mouse button without moving is not input there.
- **Linux default idle threshold.** It is 60000 ms (`linux/window_focus_plugin.cc:1755`). The Windows default is 300000 ms, taken from the `.cpp`. The header's stale 60000 is not used.
- **Linux focus change.** The Linux backend sends a change whenever the window, the application name or the title differs. The Windows backend compares window handles only. The macOS poll compares titles only.
- **macOS audio threshold.** The audio probe answers "active" for any running output device. Both branches of its volume comparison return true, so the audio threshold and the volume have no effect (`MacPlugin.AudioThresholdIgnored`).
- **macOS duplicate HID add.** If IOKit reports the same device twice, it is listed twice, but it has one state entry. One removal then leaves it listed without a state entry (`MacPlugin.DoubleAddDrifts`). The model keeps this as written. The consistency lemmas therefore assume a duplicate-free list.

## Model

| member | source | states |
|---|---|---|
| Common.BoolArg | linux/window_focus_plugin.cc:1537-1547 | a bool is found iff the arguments are a map holding a bool under the key, and it is that value |
| Common.IntArg | linux/window_focus_plugin.cc:1640-1651 | an integer is found iff the arguments are a map holding an integer under the key, and it is that value |
| Common.FloatArg | linux/window_focus_plugin.cc:1609-1619 | a double is found iff the arguments are a map holding a double under the key, and it is that value |
| Common.Zeros | windows/window_focus_plugin.cpp:1141-1142 | a fresh report buffer has the requested length and every byte is zero |
| Common.WithoutKeepsPrefix | windows/window_focus_plugin.cpp:1296-1306 | erasing only indices above `i` leaves the elements up to `i` in place |
| Common.WithoutEraseBelow | windows/window_focus_plugin.cpp:1296-1306 | when all earlier erasures were at larger indices, erasing index `i` of the shrunken list removes the original element `i` |
| Common.WithoutAligned | windows/window_focus_plugin.cpp:1296-1306 | erasing the same indices from the handle list and the state list keeps them equally long, and survivor k of each comes from the same original device |
| Common.SortedUniqueSpec | windows/window_focus_plugin.cpp:1287-1290 | sort followed by unique yields the same indices as its input, each once, in strictly increasing order |
| Common.EraseNext | windows/window_focus_plugin.cpp:1296-1306 | one step of the descending erase removes the original element at that index and nothing else |
| Common.OnInput | linux/window_focus_plugin.cc:144-159 | detected input always sets the timestamp to now and makes the user active; "became active" is announced iff the user was inactive |
| Common.InputsAnnounceOnce | windows/window_focus_plugin.cpp:1403-1415 | any run of detections announces "became active" at most once, only if the user started inactive; the timestamp ends at the last detection |
| Common.OnTick | windows/window_focus_plugin.cpp:1457-1471 | exactly one "became inactive" iff strictly more than the threshold has elapsed while active; otherwise the state is unchanged and nothing is announced |
| Common.QuietAfterInput | windows/window_focus_plugin.cpp:1457-1471 | a check within the threshold of detected input announces nothing |
| Common.InactiveAnnouncedOnce | windows/window_focus_plugin.cpp:1457-1471 | two checks in a row announce "became inactive" at most once |
| WinDispatcher.InitializeStep | windows/window_focus_plugin.cpp:319-334 | a no-op when the window exists; otherwise the generation advances by one whether or not CreateWindowEx returned a window, and the dispatcher is live iff it did |
| WinDispatcher.FailedInitializeRetires | windows/window_focus_plugin.cpp:329-388 | after a failed window creation no closure posted under an earlier snapshot ever runs, and posting drops the closure |
| WinDispatcher.ShutdownStep | windows/window_focus_plugin.cpp:336-352 | a no-op without a window; otherwise it stops being live, the generation advances, and every queued packet is deleted without running |
| WinDispatcher.PostStep | windows/window_focus_plugin.cpp:354-368 | a task posted without a window is dropped; an accepted post queues the packet with its snapshot generation; a rejected post deletes it |
| WinDispatcher.DispatchStep | windows/window_focus_plugin.cpp:375-388 | the head packet leaves the queue and is deleted; it runs iff its generation is the current one |
| WinDispatcher.ApplyKeepsWf | windows/window_focus_plugin.cpp:354-388 | no queued packet ever claims a generation newer than the counter, given snapshots taken in the past |
| WinDispatcher.RunMonotone | windows/window_focus_plugin.cpp:319-388 | over any run, the generation never decreases and the logs of run and deleted packets only grow |
| WinDispatcher.RunOnlyCurrent | windows/window_focus_plugin.cpp:375-388 | every closure that runs from a state on carries a generation at least that state's |
| WinDispatcher.NothingPostedBeforeShutdownRuns | windows/window_focus_plugin.cpp:336-388 | a closure posted under any snapshot taken before a Shutdown never runs afterwards, even after a new Initialize |
| WinDispatcher.EveryRunIsFreed | windows/window_focus_plugin.cpp:375-388 | across any run, every packet that ran has also been deleted |
| WinDispatcher.PacketsConserved | windows/window_focus_plugin.cpp:336-388 | no packet is lost: queued plus deleted equals what was there plus every packet accepted by a post |
| WinDispatcher.StepConserves | windows/window_focus_plugin.cpp:336-388 | one step conserves queued plus deleted packets, except for the packet a post creates |
| WinDispatcher.AcceptedBy | windows/window_focus_plugin.cpp:354-368 | a step creates a packet iff it is a post under a live snapshot, and then exactly one |
| WinDispatcher.Accepted | windows/window_focus_plugin.cpp:354-368 | a run creates at most one packet per step |
| WinDispatcher.Dispatcher.constructor | windows/window_focus_plugin.cpp:307-317 | the dispatcher starts with no window, generation 0 and an empty queue |
| WinDispatcher.Dispatcher.Initialize | windows/window_focus_plugin.cpp:319-334 | the in-place Initialize yields exactly `InitializeStep` of the old state and the creation outcome, and keeps the well-formedness invariant |
| WinDispatcher.Dispatcher.Shutdown | windows/window_focus_plugin.cpp:336-352 | the draining loop yields exactly `ShutdownStep`: every queued packet is deleted in order, none runs |
| WinDispatcher.Dispatcher.Snap | windows/window_focus_plugin.cpp:357-361 | the first critical section of PostTask reads the window state and the current generation |
| WinDispatcher.Dispatcher.Deliver | windows/window_focus_plugin.cpp:362-368 | the second half of PostTask yields exactly `PostStep` under an earlier snapshot |
| WinDispatcher.Dispatcher.Dispatch | windows/window_focus_plugin.cpp:375-388 | the window procedure yields exactly `DispatchStep` and keeps the invariant |
| WinPlugin.KeyRecentWindow | windows/window_focus_plugin.cpp:1016-1026 | for 64-bit tick counts, the keyboard proxy fires iff a key-down was recorded and the clock is less than 200 ms past it, counting a clock that wrapped past zero |
| WinPlugin.ClockBehindIsNotRecent | windows/window_focus_plugin.cpp:1016-1026 | a clock reading just before the recorded key-down does not count as recent input |
| WinPlugin.PolledKeys | windows/window_focus_plugin.cpp:962-999 | the fallback poll covers 106 keys: letters, digits, F1 to F12 and 58 special keys |
| WinPlugin.PressedAt | windows/window_focus_plugin.cpp:962-1008 | a key found down after only up keys is a pressed first key |
| WinPlugin.NotPressedBefore | windows/window_focus_plugin.cpp:962-1008 | reaching the end, or a faulting probe, after only up keys means no key is pressed |
| WinPlugin.ProbeKeys | windows/window_focus_plugin.cpp:962-1008 | the probe loop reports a key iff some key is down with every earlier key up; a probe fault abandons the poll |
| WinPlugin.NextSlot | windows/window_focus_plugin.cpp:906-942 | a slot's stored state is replaced by the read exactly when the read succeeded with a new packet number |
| WinPlugin.SameReadAgainIsQuiet | windows/window_focus_plugin.cpp:906-942 | feeding the same controller read again reports nothing |
| WinPlugin.FirstReadAgainstZeroBaseline | windows/window_focus_plugin.cpp:678 | against the zeroed baseline, a successful first read fires iff its packet number is not 0 |
| WinPlugin.KeptExamples | windows/window_focus_plugin.cpp:1136-1142 | gamepads and joysticks with a report are watched; telephony, consumer, keyboard and mouse collections, and collections without a report, are not |
| WinPlugin.Admitted | windows/window_focus_plugin.cpp:1055-1165 | every admitted device passes the keep filter, and there are no more of them than interfaces |
| WinPlugin.AdmittedIff | windows/window_focus_plugin.cpp:1136-1155 | a handle and its caps are admitted iff the interface was described with kept caps |
| WinPlugin.Rejected | windows/window_focus_plugin.cpp:1120-1160 | at most one handle is closed per interface during enumeration |
| WinPlugin.OpenedHandlesAccounted | windows/window_focus_plugin.cpp:1100-1160 | the handles admitted plus the handles closed are exactly as many as the handles opened, so none leaks |
| WinPlugin.Handles | windows/window_focus_plugin.cpp:1141-1142 | the handle list is the admitted handles in enumeration order |
| WinPlugin.Buffers | windows/window_focus_plugin.cpp:1141-1142 | each admitted device gets one zeroed state buffer of its input report length, at the same index as its handle |
| WinPlugin.Filled | windows/window_focus_plugin.cpp:1185-1200 | the read buffer keeps the stored report's size, holds the read bytes at the front and zeros after them |
| WinPlugin.Judge | windows/window_focus_plugin.cpp:1185-1278 | a device never both reports input and is invalid; its state keeps its length and changes only with input |
| WinPlugin.Delivered | windows/window_focus_plugin.cpp:1200-1250 | bytes are delivered iff ReadFile completed at once, or the pending read was signalled and then completed |
| WinPlugin.JudgeSpec | windows/window_focus_plugin.cpp:1185-1278 | input iff a non-empty stored report and delivered bytes that change it, the buffer then becoming the stored report; invalid iff the handle is rejected or a non-empty device's read broke |
| WinPlugin.TimeoutKeepsDevice | windows/window_focus_plugin.cpp:1240-1260 | a wait that times out keeps the device and its stored report |
| WinPlugin.SameReportAgainIsQuiet | windows/window_focus_plugin.cpp:1185-1278 | reading the same report twice reports input at most the first time |
| WinPlugin.Scan | windows/window_focus_plugin.cpp:1180-1282 | the scan keeps both lists' length and collects only indices of devices it visited |
| WinPlugin.ScanFindsFirst | windows/window_focus_plugin.cpp:1180-1282 | input is found iff some device reports it; the first such device is the only one whose stored report changes, and then the scan stops |
| WinPlugin.ScanInvalid | windows/window_focus_plugin.cpp:1180-1282 | a device reached before any input was found is collected as invalid iff its read says so |
| WinPlugin.ScanKeeps | windows/window_focus_plugin.cpp:1180-1282 | indices collected as invalid stay collected |
| WinPlugin.ErasedHandles | windows/window_focus_plugin.cpp:1292-1306 | one handle is closed per distinct invalid index |
| WinPlugin.ErasedNext | windows/window_focus_plugin.cpp:1292-1306 | erasing one more, smaller index closes its handle last |
| WinPlugin.EraseInvalid | windows/window_focus_plugin.cpp:1284-1307 | the descending erase removes exactly the invalid indices from both lists, keeping them aligned and in order, and closes the erased handles largest index first |
| WinPlugin.ErasedHandlesOrder | windows/window_focus_plugin.cpp:1292-1306 | the k-th handle closed is the one at the k-th largest distinct invalid index |
| WinPlugin.CheckedHid | windows/window_focus_plugin.cpp:1167-1311 | the HID lists and closed handles after one check pass keep the two lists aligned, only add closed handles, and lose no handle: listed plus closed is the same count before and after |
| WinPlugin.Rebuilt | windows/window_focus_plugin.cpp:1055-1165 | a rebuild from an empty list leaves aligned lists, only adds closed handles, keeps nothing when enumeration fails, and otherwise accounts for every handle it opened as listed or closed |
| WinPlugin.Plugin.constructor | windows/window_focus_plugin.cpp:664-680 | the defaults: active, keyboard watched, controllers, audio and HID off, threshold 300000 ms, zeroed controller baselines, empty device lists |
| WinPlugin.Plugin.NoteActivity | windows/window_focus_plugin.cpp:1403-1415 | detected input moves the activity state by `OnInput` and posts what it announces |
| WinPlugin.Plugin.KeyboardProc | windows/window_focus_plugin.cpp:394-431 | a key-down or system key-down, with the instance alive and not shutting down, is activity and records the key time; anything else changes nothing |
| WinPlugin.Plugin.MouseProc | windows/window_focus_plugin.cpp:433-458 | any hooked mouse action, with the instance alive and not shutting down, is activity; otherwise nothing changes |
| WinPlugin.Plugin.InactivityTick | windows/window_focus_plugin.cpp:1428-1478 | a pass not shutting down moves the state by `OnTick` with the configured threshold and posts what it announces |
| WinPlugin.Plugin.CheckControllerInput | windows/window_focus_plugin.cpp:906-942 | false when disabled or shutting down; otherwise input iff some slot fires, and every slot's state becomes `NextSlot` of its read |
| WinPlugin.Plugin.CheckRawInput | windows/window_focus_plugin.cpp:944-960 | input iff the cursor was read and differs from the stored position, which is then replaced |
| WinPlugin.Plugin.PollKeyboardState | windows/window_focus_plugin.cpp:962-1008 | reports a key iff not shutting down and the first non-up probe over the polled keys is a key down |
| WinPlugin.Plugin.CheckKeyboardInput | windows/window_focus_plugin.cpp:1010-1029 | with the keyboard watched, the hook-recency proxy decides when hooks are installed, the key-state poll otherwise |
| WinPlugin.Plugin.CheckSystemAudio | windows/window_focus_plugin.cpp:1031-1053 | audio counts iff monitoring is on, not shutting down, and the meter read a peak above the threshold |
| WinPlugin.Plugin.CloseHIDDevices | windows/window_focus_plugin.cpp:1313-1328 | every stored handle is closed in order, and both lists become empty |
| WinPlugin.Plugin.InitializeHIDDevices | windows/window_focus_plugin.cpp:1055-1165 | the old handles are closed; when shutting down or when enumeration fails the lists stay empty; otherwise they hold the admitted handles with one zeroed buffer each of its report length, and every rejected handle is closed; from an empty list that is exactly `Rebuilt` |
| WinPlugin.Enumerate | windows/window_focus_plugin.cpp:1087-1153 | the enumeration loop keeps, in order, the handle and a zeroed buffer of its report length for every interface that opened and is neither audio, keyboard nor mouse and reports a non-zero length, and closes exactly the handles it opened but did not keep |
| WinPlugin.Plugin.CheckHIDDevices | windows/window_focus_plugin.cpp:1167-1311 | false and no change for an empty list or when disabled; otherwise input iff the scan finds it, and the invalid devices are removed from both lists with their handles closed largest index first; the whole HID state is `CheckedHid` of the old one |
| WinPlugin.Plugin.ReadDevices | windows/window_focus_plugin.cpp:1180-1282 | the read loop computes exactly the scan: input found, stored reports, invalid indices |
| WinPlugin.Plugin.RemoveInvalid | windows/window_focus_plugin.cpp:1284-1307 | the invalid indices are removed from both lists at the same indices, survivors keep order, the erased handles are closed |
| WinPlugin.Plugin.SetHIDMonitoring | windows/window_focus_plugin.cpp:784-802 | without a bool argument, an error and no change; otherwise the flag is stored, on false-to-true the old handles are closed and the lists are built from the enumeration, the admitted handles with one zeroed buffer of each report length, rejected handles closed; on true-to-false both lists are closed and emptied; an unchanged flag touches nothing |
| WinPlugin.Plugin.CheckAll | windows/window_focus_plugin.cpp:1366-1376 | all five checks run in each pass: input is detected iff any of them sees it, the cursor and controller baselines advance, and the HID lists and closed handles become `CheckedHid` of the start-of-pass state |
| WinPlugin.Plugin.ReinitializeIfEmpty | windows/window_focus_plugin.cpp:1384-1399 | when the 30 s rescan is due with HID monitoring on, a list that is empty at that point is rebuilt as `Rebuilt` says; otherwise the HID state is unchanged |
| WinPlugin.Plugin.CheckDirectInputs | windows/window_focus_plugin.cpp:1366-1373 | the keyboard, controller, raw-input and audio checks of one pass: input iff any of them sees it at the start of the pass, the cursor baseline moves to the new position and, when controllers are monitored, each slot whose read succeeded with a new packet number takes that reading |
| WinPlugin.Plugin.MonitorTick | windows/window_focus_plugin.cpp:1362-1420 | nothing changes while shutting down; otherwise input is detected iff some check sees it, the cursor and controller baselines advance, the HID state is `CheckedHid` of the old one and is then rebuilt by `Rebuilt` when the rescan is due and the check left the list empty, including when this pass removed the last device, detected input moves the activity state by `OnInput`, and without input the activity state is untouched |
| WinPlugin.FocusNotices | windows/window_focus_plugin.cpp:1486-1530 | a focus change is sent iff the foreground handle differs from the last one and a window exists |
| WinPlugin.TitleChangeInSameWindowIsQuiet | windows/window_focus_plugin.cpp:1493-1496 | only the handle is compared, so a new title in the same window is not sent |
| WinPlugin.FocusListener.constructor | windows/window_focus_plugin.cpp:1485 | the listener starts with no window remembered |
| WinPlugin.FocusListener.Tick | windows/window_focus_plugin.cpp:1493-1520 | one pass remembers the current handle and sends what `FocusNotices` says |
| LinuxPlugin.JsActivityCases | linux/window_focus_plugin.cc:644-660 | init events never count, button events always do, and an axis event counts iff its value lies beyond plus or minus 3000 |
| LinuxPlugin.DeadzoneExamples | linux/window_focus_plugin.cc:657-660 | axis readings 2000 and 3000 are not input, 4000 and -4000 are, and an init button event is not |
| LinuxPlugin.PollRound | linux/window_focus_plugin.cc:627-665 | a poll round detects input iff some ready device that is still listed delivered an event that passes the filter |
| LinuxPlugin.AsciiLower | linux/window_focus_plugin.cc:463 | only `A` to `Z` are lowered, by 32 code points |
| LinuxPlugin.Lower | linux/window_focus_plugin.cc:463 | lowering keeps the length and lowers each character |
| LinuxPlugin.Contains | linux/window_focus_plugin.cc:478 | a substring search succeeds iff the word occurs at some index |
| LinuxPlugin.HidKeptIff | linux/window_focus_plugin.cc:415-549 | a descriptor is kept iff it came from an event node whose number is not a joystick's and which is neither keyboard, mouse nor gamepad |
| LinuxPlugin.JoystickNodesSkipped | linux/window_focus_plugin.cc:430-434 | an event node already monitored as a joystick is neither kept nor opened |
| LinuxPlugin.NamedKeyboardExcluded | linux/window_focus_plugin.cc:478-480 | a name containing "Keyboard" in any case excludes the device whatever its capabilities |
| LinuxPlugin.LetterlessKeysKept | linux/window_focus_plugin.cc:466-544 | a device with keys but without Q, A and Z, such as a power button, and with no telling name, is kept |
| LinuxPlugin.JoystickEvents | linux/window_focus_plugin.cc:319-400 | only non-negative event numbers are recorded for joysticks |
| LinuxPlugin.JoystickFdsIff | linux/window_focus_plugin.cc:369-395 | a joystick descriptor is kept iff its node opened and answered the name query |
| LinuxPlugin.Gate | linux/window_focus_plugin.cc:1042-1051 | a detection extends the run and is reported iff the previous read also detected sound; a miss resets the run |
| LinuxPlugin.RunGate | linux/window_focus_plugin.cc:1027-1051 | over any read sequence, read i reports exactly when reads i-1 and i both detected sound |
| LinuxPlugin.GateExample | linux/window_focus_plugin.cc:1027-1051 | the reads detected, missed, detected, detected report only at the fourth |
| LinuxPlugin.TrimEnd | linux/window_focus_plugin.cc:840-847 | trimming yields a prefix with no newline, carriage return or space at the end, and removes only such characters |
| LinuxPlugin.Trim | linux/window_focus_plugin.cc:840-847 | the pop-back loop computes exactly `TrimEnd` |
| LinuxPlugin.AppendNewSpec | linux/window_focus_plugin.cc:871-888 | appending discovered sources keeps what was listed in front and never adds a duplicate |
| LinuxPlugin.AppendNewMembers | linux/window_focus_plugin.cc:871-888 | a source is listed iff it was already listed or is the non-empty trimmed form of some discovered line |
| LinuxPlugin.BuildAudioSources | linux/window_focus_plugin.cc:835-893 | the loop builds exactly the candidate list, whose last two entries are always the two fallbacks |
| LinuxPlugin.AppendDiscovered | linux/window_focus_plugin.cc:871-888 | the listing loop appends each trimmed, non-empty line not already listed, in order: exactly the reference list of new names |
| LinuxPlugin.Listed | linux/window_focus_plugin.cc:879-882 | the duplicate search reports a name iff it is already in the candidate list |
| LinuxPlugin.AudioSourcesOrder | linux/window_focus_plugin.cc:859-893 | the default sink's monitor comes first when the sink is named, and no name before the fallbacks appears twice |
| LinuxPlugin.ShotWindow | linux/window_focus_plugin.cc:1372-1382 | the captured window is the root or, when only the active window is wanted, the focused window; any window other than the root is a real focus, not None or PointerRoot |
| LinuxPlugin.ChannelsOfPacked | linux/window_focus_plugin.cc:1426-1435 | the three channel bytes of a packed 24-bit colour are its red, green and blue bytes |
| LinuxPlugin.HighBitsDropped | linux/window_focus_plugin.cc:1426-1435 | bits above the 24 colour bits do not reach the buffer |
| LinuxPlugin.Place | linux/window_focus_plugin.cc:1424-1437 | an offset lies before, inside, or after row y of the buffer according to its row number |
| LinuxPlugin.FillRow | linux/window_focus_plugin.cc:1425-1436 | the inner loop writes pixel x of row y into bytes base+3x to base+3x+2 and nothing else |
| LinuxPlugin.RowStep | linux/window_focus_plugin.cc:1424-1437 | after row y the buffer holds the pixel bytes of rows 0 to y and its old contents elsewhere |
| LinuxPlugin.FillPixels | linux/window_focus_plugin.cc:1424-1437 | every byte at y*rowstride+3x+c is channel c of pixel (x, y); row padding is left alone |
| LinuxPlugin.Rowstride | linux/window_focus_plugin.cc:1415-1422 | an RGB pixbuf row holds 3*width bytes padded to a multiple of four |
| LinuxPlugin.TakeScreenshot | linux/window_focus_plugin.cc:1362-1463 | a buffer is produced iff the display opens, the window's attributes are read, both sides are positive and at most 7680 by 4320, and the image and pixbuf are created; every byte is then the pixel channel at its offset |
| LinuxPlugin.FocusStep | linux/window_focus_plugin.cc:1174-1207 | a None or PointerRoot focus is ignored; a change of window, application or title updates all three and sends one focus change; otherwise nothing |
| LinuxPlugin.FocusStepSettles | linux/window_focus_plugin.cc:1174-1207 | polling again with nothing changed sends nothing |
| LinuxPlugin.TitleChangeReported | linux/window_focus_plugin.cc:1189-1191 | a new title in the same window is sent as a focus change |
| LinuxPlugin.FocusListener.constructor | linux/window_focus_plugin.cc:1148-1172 | the initial real focus is sent unconditionally and remembered; otherwise nothing is remembered |
| LinuxPlugin.FocusListener.Poll | linux/window_focus_plugin.cc:1174-1207 | one pass moves the remembered values and the sent changes by `FocusStep` |
| LinuxPlugin.X11StepSettles | linux/window_focus_plugin.cc:1270-1334 | a second pass with the same key map and pointer reading reports input iff the mouse is watched and a pointer button is held |
| LinuxPlugin.KeyPressAndRelease | linux/window_focus_plugin.cc:1270-1300 | a key press and its release are each reported |
| LinuxPlugin.KeysDiffer | linux/window_focus_plugin.cc:1276-1290 | the byte loop reports a change iff the key map differs from the stored one |
| LinuxPlugin.X11Monitor.constructor | linux/window_focus_plugin.cc:1251-1262 | the thread starts with the first key map and the first pointer position, or the origin if the query fails |
| LinuxPlugin.X11Monitor.Poll | linux/window_focus_plugin.cc:1270-1334 | one pass moves the remembered key map and pointer and reports input exactly as the X11 diff step does for the old state |
| LinuxPlugin.JoystickEventsSnoc | linux/window_focus_plugin.cc:369-395 | one more probe adds its event number to the joystick event set iff it found a joystick with a non-negative number |
| LinuxPlugin.ScanJoysticks | linux/window_focus_plugin.cc:369-399 | the probe loop keeps the found joysticks in node order, records their event numbers, and closes the nameless nodes |
| LinuxPlugin.ScanEventNodes | linux/window_focus_plugin.cc:424-552 | the directory loop keeps exactly the generic HID descriptors and closes every other one it opened |
| LinuxPlugin.RescanJoysticks | linux/window_focus_plugin.cc:356-400 | the old joysticks are closed first; a descriptor is kept iff its probe found a joystick; the HID list is untouched |
| LinuxPlugin.RescanHid | linux/window_focus_plugin.cc:403-556 | the old HID descriptors are closed first; without a listing none is kept; otherwise a descriptor is kept iff it is monitored |
| LinuxPlugin.ControllerToggle | linux/window_focus_plugin.cc:1570-1590 | a joystick thread is started only on false-to-true, the joysticks are closed on true-to-false, the HID devices are never touched, and the same value changes nothing |
| LinuxPlugin.HidToggle | linux/window_focus_plugin.cc:1620-1639 | a HID thread is started only on false-to-true, the HID devices are closed on true-to-false, the joysticks are never touched, and the same value changes nothing |
| LinuxPlugin.ControllerOnOffClosesAll | linux/window_focus_plugin.cc:1570-1590 | enabling then disabling controllers leaves no joystick open; every descriptor opened is closed |
| LinuxPlugin.HidOnOffClosesAll | linux/window_focus_plugin.cc:1620-1639 | enabling then disabling HID monitoring leaves no HID descriptor open; every descriptor opened is closed |
| LinuxPlugin.StartDevices | linux/window_focus_plugin.cc:1466-1492 | at start the joysticks are scanned before the HID devices, so the HID scan skips the joysticks' event nodes |
| LinuxPlugin.StartThreads | linux/window_focus_plugin.cc:1466-1492 | X11, focus and inactivity threads always start, and a subsystem's thread starts iff it is enabled |
| LinuxPlugin.ParseCommand | linux/window_focus_plugin.cc:1537-1697 | a recognised name maps to the command answering to that name |
| LinuxPlugin.ParseCommandName | linux/window_focus_plugin.cc:1537-1697 | every command is recognised under its own name |
| LinuxPlugin.ArgOf | linux/window_focus_plugin.cc:1537-1651 | a setter's value is found iff the arguments are a map holding its key |
| LinuxPlugin.ToInt32 | linux/window_focus_plugin.cc:1644 | storing a channel integer in the C `int` threshold keeps it modulo 2^32 in the signed range, and unchanged when it fits |
| LinuxPlugin.LargeTimeoutWraps | linux/window_focus_plugin.cc:1644 | a timeout of 2^31 ms is stored as a negative threshold, and 2^32+60000 is stored as 60000 |
| LinuxPlugin.StoreTouchesOneSetting | linux/window_focus_plugin.cc:1537-1651 | a setter changes only its own setting, and only to its argument |
| LinuxPlugin.Configure | linux/window_focus_plugin.cc:1537-1651 | the settings change only when a setter gets a value of the right kind, which is then stored |
| LinuxPlugin.ConfigureIdempotent | linux/window_focus_plugin.cc:1537-1651 | issuing the same setter twice leaves the settings as after the first time |
| LinuxPlugin.Toggled | linux/window_focus_plugin.cc:1570-1639 | only the controller, audio and HID setters touch devices or threads |
| LinuxPlugin.Effect | linux/window_focus_plugin.cc:1537-1651 | devices and threads change only through a toggle command with a valid argument |
| LinuxPlugin.ToggleTwiceIsQuiet | linux/window_focus_plugin.cc:1570-1639 | a command repeated starts or stops nothing the second time, whatever a rescan would then find |
| LinuxPlugin.StatusMap | linux/window_focus_plugin.cc:1678-1696 | the status map has exactly the ten keys, with the joystick and HID device counts |
| LinuxPlugin.Reply | linux/window_focus_plugin.cc:1537-1705 | INVALID_ARGS iff a setter got no map; not-implemented iff the name is unknown; "Invalid argument" iff a setter's map lacks a value of the right kind; the timeout setter echoes the stored threshold |
| LinuxPlugin.ScreenshotDefaultsToRoot | linux/window_focus_plugin.cc:1655-1670 | a screenshot request without a bool `activeWindowOnly` captures the root window |
| LinuxPlugin.Plugin.constructor | linux/window_focus_plugin.cc:1747-1772 | the defaults: keyboard, mouse and controllers on; audio and HID off; threshold 60000 ms; audio threshold 0.01; active; no devices or threads |
| LinuxPlugin.Plugin.ReportActivity | linux/window_focus_plugin.cc:144-159 | a no-op while shutting down; otherwise the activity state moves by `OnInput` and its announcement is posted |
| LinuxPlugin.Plugin.InactivityTick | linux/window_focus_plugin.cc:1103-1121 | a pass not shutting down moves the state by `OnTick` with the stored threshold and posts what it announces |
| LinuxPlugin.Plugin.AudioTick | linux/window_focus_plugin.cc:1040-1051 | with audio monitoring on, the run moves by `Gate` and a reported read is activity; otherwise nothing changes |
| LinuxPlugin.Plugin.InitializeJoysticks | linux/window_focus_plugin.cc:356-400 | the device state becomes `RescanJoysticks` of the old one |
| LinuxPlugin.Plugin.InitializeHidDevices | linux/window_focus_plugin.cc:403-556 | the device state becomes `RescanHid` of the old one |
| LinuxPlugin.Plugin.CloseInputDevices | linux/window_focus_plugin.cc:559-572 | every joystick and HID descriptor is closed, joysticks first, and all lists are emptied |
| LinuxPlugin.Plugin.StartMonitoringThreads | linux/window_focus_plugin.cc:1466-1492 | the devices are scanned as `StartDevices` says and the threads of `StartThreads` are started |
| LinuxPlugin.Plugin.StopMonitoringThreads | linux/window_focus_plugin.cc:1495-1527 | the plugin is marked shutting down and every device is closed |
| LinuxPlugin.Plugin.JoystickRound | linux/window_focus_plugin.cc:623-666 | a round not shutting down reports activity iff some ready joystick delivered input; otherwise nothing changes |
| LinuxPlugin.Plugin.HidRound | linux/window_focus_plugin.cc:740-776 | a round not shutting down reports activity iff some ready HID device delivered a non-SYN, non-MSC event; otherwise nothing changes |
| LinuxPlugin.Plugin.JoystickReinit | linux/window_focus_plugin.cc:678-685 | the periodic rescan rebuilds the joysticks only while controllers are monitored and not shutting down |
| LinuxPlugin.Plugin.HidReinit | linux/window_focus_plugin.cc:778-784 | the periodic rescan rebuilds the HID devices only while HID is monitored and not shutting down |
| LinuxPlugin.Plugin.X11Tick | linux/window_focus_plugin.cc:1266-1345 | a pass not shutting down moves the X11 state by the diff and reports what it detects as activity |
| LinuxPlugin.Plugin.HandleMethodCall | linux/window_focus_plugin.cc:1530-1707 | the response is `Reply`, the settings become `Configure` and the devices become `Effect` of the state before the call |
| LinuxPlugin.Plugin.ApplySetter | linux/window_focus_plugin.cc:1537-1651 | a well-kinded setter stores its value and toggles devices as `Toggled` says |
| LinuxPlugin.Plugin.StoreSetting | linux/window_focus_plugin.cc:1537-1651 | a plain setter stores its value, the timeout truncated to 32 bits |
| LinuxPlugin.Plugin.SetControllerMonitoring | linux/window_focus_plugin.cc:1570-1590 | the flag is stored and the devices move by `ControllerToggle` |
| LinuxPlugin.Plugin.SetAudioMonitoring | linux/window_focus_plugin.cc:1591-1608 | the flag is stored, and an audio thread starts only on false-to-true |
| LinuxPlugin.Plugin.SetHIDMonitoring | linux/window_focus_plugin.cc:1620-1639 | the flag is stored and the devices move by `HidToggle` |
| MacPlugin.SafeIdle | macos/Classes/WindowFocusPlugin.swift:638-645 | a system reading is used iff it is non-negative and under an hour or the manual reading exceeds an hour; otherwise the manual reading substitutes |
| MacPlugin.IdleTime | macos/Classes/WindowFocusPlugin.swift:638-645 | the idle time is one of the three values and at most each, so never more than the tracker's own clock |
| MacPlugin.BogusReadingIgnored | macos/Classes/WindowFocusPlugin.swift:638-645 | a system reading of an hour or more, while the manual reading is at most an hour, is replaced by the manual reading, and the idle time is then decided by the other two readings |
| MacPlugin.IdleCheck | macos/Classes/WindowFocusPlugin.swift:651-667 | active iff idle is under the threshold; one "inactive" iff it was active and idle reached the threshold; one "active" iff it was inactive and idle is under; otherwise nothing |
| MacPlugin.InactiveNeedsEveryReading | macos/Classes/WindowFocusPlugin.swift:637-668 | the user is judged inactive iff all three sanitised readings reach the threshold |
| MacPlugin.IdleCheckSettles | macos/Classes/WindowFocusPlugin.swift:651-667 | a second check with the same idle time sends nothing |
| MacPlugin.SystemAudioActive | macos/Classes/WindowFocusPlugin.swift:517-603 | audio counts iff monitoring is on, the default output device is known and the is-running query says it runs |
| MacPlugin.AudioThresholdIgnored | macos/Classes/WindowFocusPlugin.swift:517-603 | neither the volume nor the audio threshold changes the answer |
| MacPlugin.Added | macos/Classes/WindowFocusPlugin.swift:447-474 | a telephony or consumer device is ignored; any other is appended and given an empty state entry, nothing else changing |
| MacPlugin.FirstIndex | macos/Classes/WindowFocusPlugin.swift:476-485 | a position is found iff the device is listed, and it is its first occurrence |
| MacPlugin.Removed | macos/Classes/WindowFocusPlugin.swift:476-485 | an unlisted device changes nothing; otherwise its first occurrence and its state entry are removed, the rest in order |
| MacPlugin.Cleared | macos/Classes/WindowFocusPlugin.swift:736-746 | closing empties the device list and the state dictionary |
| MacPlugin.AddedKeepsConsistent | macos/Classes/WindowFocusPlugin.swift:447-474 | adding keeps the list and the dictionary describing the same devices, and a new device keeps the list duplicate-free |
| MacPlugin.UniqueWithout | macos/Classes/WindowFocusPlugin.swift:476-485 | dropping one position of a duplicate-free list drops exactly that device |
| MacPlugin.RemovedKeepsConsistent | macos/Classes/WindowFocusPlugin.swift:476-485 | on a duplicate-free list, removing keeps the list and the dictionary describing the same devices |
| MacPlugin.AddRemoveRoundTrip | macos/Classes/WindowFocusPlugin.swift:447-485 | adding a new device and removing it restores the table |
| MacPlugin.DoubleAddDrifts | macos/Classes/WindowFocusPlugin.swift:447-485 | a device added twice and removed once leaves the device list and the state dictionary disagreeing |
| MacPlugin.ToggleAction | macos/Classes/WindowFocusPlugin.swift:696-734 | start iff false-to-true, stop iff true-to-false, nothing iff the flag is unchanged |
| MacPlugin.IdleTracker.constructor | macos/Classes/WindowFocusPlugin.swift:320-327 | the threshold is the stored one or 5 s; audio and HID monitoring are on; the HID manager opens if it can be created; the audio timer is scheduled |
| MacPlugin.IdleTracker.UserDidInteract | macos/Classes/WindowFocusPlugin.swift:670-672 | an interaction sets the last activity time to now |
| MacPlugin.IdleTracker.CheckIdleTime | macos/Classes/WindowFocusPlugin.swift:637-668 | the check moves the activity flag and the messages by `IdleCheck` of the sanitised idle time |
| MacPlugin.IdleTracker.SetIdleThreshold | macos/Classes/WindowFocusPlugin.swift:674-680 | the threshold is stored and persisted |
| MacPlugin.IdleTracker.HandleHidDeviceAdded | macos/Classes/WindowFocusPlugin.swift:447-474 | the table becomes `Added` of the old one |
| MacPlugin.IdleTracker.HandleHidDeviceRemoved | macos/Classes/WindowFocusPlugin.swift:476-485 | the table becomes `Removed` of the old one |
| MacPlugin.IdleTracker.HandleHidInput | macos/Classes/WindowFocusPlugin.swift:487-494 | a HID report is an interaction iff HID monitoring is on |
| MacPlugin.IdleTracker.PerformAudioCheck | macos/Classes/WindowFocusPlugin.swift:509-515 | the audio probe is an interaction iff it reports activity |
| MacPlugin.IdleTracker.InitializeHidDevices | macos/Classes/WindowFocusPlugin.swift:404-445 | nothing unless HID monitoring is on; otherwise a new manager, opened iff it could be created |
| MacPlugin.IdleTracker.CloseHidDevices | macos/Classes/WindowFocusPlugin.swift:736-746 | the manager is closed if there is one, and the table is cleared |
| MacPlugin.IdleTracker.InitializeAudioMonitoring | macos/Classes/WindowFocusPlugin.swift:496-507 | the audio timer is scheduled iff audio monitoring is on |
| MacPlugin.IdleTracker.SetAudioMonitoring | macos/Classes/WindowFocusPlugin.swift:696-712 | the flag is stored; the timer is scheduled only on start and invalidated only on stop |
| MacPlugin.IdleTracker.SetHidMonitoring | macos/Classes/WindowFocusPlugin.swift:721-734 | the flag is stored; a manager is opened only on start, and the devices are closed only on stop |
| MacPlugin.FindDevice | macos/Classes/WindowFocusPlugin.swift:477 | the search loop finds `FirstIndex` |
| MacPlugin.FirstTitle | macos/Classes/WindowFocusPlugin.swift:246-262 | a found title is never empty |
| MacPlugin.FirstTitleSpec | macos/Classes/WindowFocusPlugin.swift:246-262 | nothing is found iff no layer-0 window of the application has a name; otherwise the first such window's name is found |
| MacPlugin.ActiveWindowTitle | macos/Classes/WindowFocusPlugin.swift:246-262 | the title is never empty: the found window name, else the application's name, else "Unknown" |
| MacPlugin.FirstWindowNumber | macos/Classes/WindowFocusPlugin.swift:264-279 | a number found is that of the first numbered layer-0 window of the application, with no such window before it, where the loop breaks; none is found iff the application has no such window |
| MacPlugin.TitlePoll | macos/Classes/WindowFocusPlugin.swift:236-244 | silent while no application has been seen; otherwise the title is stored and one message with the application name goes out iff it changed |
| MacPlugin.TitlePollSettles | macos/Classes/WindowFocusPlugin.swift:236-244 | polling again over the same windows changes nothing and sends nothing |
| MacPlugin.SameTitleIsQuiet | macos/Classes/WindowFocusPlugin.swift:236-244 | only the title is compared: an unchanged title sends nothing |
| MacPlugin.WindowFocusObserver.constructor | macos/Classes/WindowFocusPlugin.swift:201-217 | the observer starts with pid -1, window 0 and empty names |
| MacPlugin.WindowFocusObserver.FocusedAppChanged | macos/Classes/WindowFocusPlugin.swift:219-234 | a notification without an application changes nothing; otherwise the application is remembered (its name, else "Unknown"), its name and title are sent, and the window number is then updated |
| MacPlugin.WindowFocusObserver.UpdateFocusedWindowID | macos/Classes/WindowFocusPlugin.swift:264-279 | the window number becomes `FirstWindowNumber` of the listing, the first numbered layer-0 window of the application, or stays as it was when there is none or no listing |
| MacPlugin.WindowFocusObserver.CheckWindowTitleChanged | macos/Classes/WindowFocusPlugin.swift:236-244 | the state and the messages move by `TitlePoll` |

## Left out

- **Operating-system and library calls** become parameters of the operations that use them, including whether CreateWindowEx returned a window. This covers hooks, XInput, SetupAPI and HidD, overlapped reads, the COM audio meter, X11, evdev, ioctl, poll and read, PulseAudio, `popen`, IOKit, CoreGraphics and NSWorkspace. Their exception-trapping wrappers appear only as the failure outcomes of those parameters.
- **Concurrency.** Threads, mutexes, condition-variable waits, run-loop timers, `weak_ptr` promotion and the thread joins are not modelled. Each thread is modelled as one pass at a time.
  - The Linux `threadCount` is a parameter, and a started thread is recorded but its exit is not.
  - The macOS timers are booleans.
  - The Windows `PostTask` is split at its two critical sections, so that a packet posted under an old snapshot can be represented.
- **Floating point.** The Windows peak comparison, the Linux peak and RMS computation and the macOS volume comparison become booleans or exact reals. Clocks are integer milliseconds on Windows and Linux and exact seconds on macOS. The millisecond and second conversions are not modelled.
- **Message encoding.** Method-channel encoding, UTF-8 conversion, PNG and GDI+ encoding, and debug logging are not modelled. The Linux "became active" and "became inactive" message strings are not modelled.
- **Unmodelled parsing.** The `pactl` pipes are given as lines of text. The `atoi` of the event-node number is given as a number.
- **Screenshots.** The macOS and Windows screenshots are not modelled.
  - LinuxPlugin.TakeScreenshot: starts from a zeroed buffer; the padding bytes of a real pixbuf are not described.
- **Unmodelled handlers.**
  - The macOS plain setters (`setDebugMode`, `setControllerMonitoring`, `setAudioThreshold`), the event tap and the event monitors are not modelled. Each of them only assigns a field or calls `userDidInteract`.
  - The macOS method-channel handler (`macos/Classes/WindowFocusPlugin.swift:28-111`) is not modelled. That leaves out:
    - its dispatch on the method name, and the `FlutterMethodNotImplemented` reply for any other name;
    - its argument checks, and the `INVALID_ARGUMENT` error it replies when an argument is missing or of the wrong type;
    - the division of the timeout by 1000, from milliseconds to seconds;
    - the `getIdleThreshold` reply, which is the threshold times 1000 as an integer, or 0 without a tracker;
    - the default of `false` for `activeWindowOnly` in `takeScreenshot`;
    - the two screen-recording permission calls.
    
    The tracker operations it calls are modelled (`MacPlugin.IdleTracker`).
  - The Windows method handler is modelled only for `setHIDMonitoring`.
- **Linux probe descriptors.** `find_joystick_event_number` (`linux/window_focus_plugin.cc:319-353`) briefly opens each `/dev/input/event*` node to read its name, then closes it. The model gives the matching event number as a parameter of the joystick probe. Those short-lived descriptors are therefore neither opened nor recorded as closed: the closed-descriptor log holds only descriptors of the monitored device lists and of the two scans.
- **Hook installation.** The Windows hook installation (`SetHooks` and `RemoveHooks`) appears only as the `hooksInstalled` flag.
- **The Windows header.** `windows/window_focus_plugin.h` is not part of this model. It holds declarations only, and its defaults are out of date relative to the `.cpp`.
- **macOS HID report contents.** The report bytes of a macOS HID input are not kept. The macOS handler treats any report as an interaction.
- WinPlugin.Plugin.CheckAll: runs the five checks against the state at the start of the pass. The source's checks touch disjoint fields, so the order between them is not observable in the model. The `isShuttingDown` test before each check (`windows/window_focus_plugin.cpp:1366-1375`) is taken once per pass, since no other thread is modelled.
