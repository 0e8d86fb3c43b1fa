/** The X11/evdev backend: joystick and evdev event filters, evdev device
    classification, the consecutive-detection audio gate, the audio source
    candidate list, the screenshot bounds and pixel unpacking, the focus
    listener, the X11 keyboard and pointer diff, and the plugin object with
    its method-call handlers. */
module LinuxPlugin {
  import opened Common

  // ---------------------------------------------------------------------
  // Joystick and evdev event filters
  // ---------------------------------------------------------------------

  const JS_EVENT_BUTTON: bv8 := 0x01
  const JS_EVENT_AXIS: bv8 := 0x02
  const JS_EVENT_INIT: bv8 := 0x80
  /** Axis readings whose magnitude is at most this are stick noise. */
  const AXIS_DEADZONE := 3000

  /** A `struct js_event` as read from `/dev/input/jsN`; `value` is a
      signed 16-bit reading. */
  datatype JsEvent = JsEvent(value: int, kind: bv8, number: bv8)

  function Abs(v: int): (r: nat)
    ensures r == v || r == -v
  {
    if v < 0 then -v else v
  }

  /** Whether one joystick event is user input: init events (the initial
      state the driver replays) never are, a button event always is, and
      an axis event is when it leaves the deadzone. */
  predicate JsActivity(e: JsEvent) {
    if e.kind & JS_EVENT_INIT != 0 then false
    else
      var t := e.kind & !JS_EVENT_INIT;
      t == JS_EVENT_BUTTON || (t == JS_EVENT_AXIS && Abs(e.value) > AXIS_DEADZONE)
  }

  /** The filter on the documented cases: the init flag wins, buttons always
      count, and an axis counts only strictly beyond 3000 in either direction. */
  lemma {:induction false} JsActivityCases(e: JsEvent)
    ensures e.kind & JS_EVENT_INIT != 0 ==> !JsActivity(e)
    ensures e.kind == JS_EVENT_BUTTON ==> JsActivity(e)
    ensures e.kind == JS_EVENT_AXIS ==> (JsActivity(e) <==> e.value > 3000 || e.value < -3000)
    ensures e.kind != JS_EVENT_BUTTON && e.kind != JS_EVENT_AXIS ==> !JsActivity(e)
  {
    if e.kind & JS_EVENT_INIT == 0 {
      assert e.kind & !JS_EVENT_INIT == e.kind;
    }
  }

  /** Axis readings 2000 and 3000 are not input, 4000 and -4000 are; an init
      button event is not. */
  lemma DeadzoneExamples()
    ensures !JsActivity(JsEvent(2000, JS_EVENT_AXIS, 0))
    ensures !JsActivity(JsEvent(3000, JS_EVENT_AXIS, 0))
    ensures JsActivity(JsEvent(4000, JS_EVENT_AXIS, 0))
    ensures JsActivity(JsEvent(-4000, JS_EVENT_AXIS, 0))
    ensures !JsActivity(JsEvent(1, JS_EVENT_INIT | JS_EVENT_BUTTON, 0))
  {
  }

  const EV_SYN: int := 0x00
  const EV_MSC: int := 0x04

  /** A `struct input_event` as read from `/dev/input/eventN`. */
  datatype InputEvent = InputEvent(kind: int, code: int, value: int)

  /** Every evdev event is input except synchronisation and miscellaneous
      (scan code) events. */
  predicate EvActivity(e: InputEvent) {
    e.kind != EV_SYN && e.kind != EV_MSC
  }

  /** Whether events drained from a device hold any input. */
  ghost predicate BatchActive<E>(events: seq<E>, active: E -> bool) {
    exists j :: 0 <= j < |events| && active(events[j])
  }

  /** Whether, among the devices a poll round looks at, a ready one
      delivered input. */
  ghost predicate RoundActive<E>(ready: seq<Option<seq<E>>>, count: nat, active: E -> bool) {
    exists i :: 0 <= i < |ready| && i < count && ready[i].Some? && BatchActive(ready[i].value, active)
  }

  /** One round after `poll` returned: devices are visited while both the
      poll set and the current device list reach, a device without
      `POLLIN` (`None`) is skipped, and a ready device is read until the
      read comes up short, every event going through the filter. */
  method PollRound<E>(ready: seq<Option<seq<E>>>, count: nat, active: E -> bool) returns (detected: bool)
    ensures detected <==> RoundActive(ready, count, active)
  {
    detected := false;
    var i := 0;
    while i < |ready| && i < count
      invariant 0 <= i <= |ready|
      invariant detected <==> RoundActive(ready[..i], count, active)
    {
      match ready[i] {
        case None =>
        case Some(events) =>
          var j := 0;
          var found := false;
          while j < |events|
            invariant 0 <= j <= |events|
            invariant found <==> BatchActive(events[..j], active)
          {
            if active(events[j]) {
              found := true;
            }
            assert events[..j + 1] == events[..j] + [events[j]];
            j := j + 1;
          }
          assert events[..j] == events;
          detected := detected || found;
      }
      assert ready[..i + 1][..i] == ready[..i];
      i := i + 1;
    }
    if i < |ready| {
      assert !RoundActive(ready, count, active) || RoundActive(ready[..i], count, active);
    } else {
      assert ready[..i] == ready;
    }
  }

  // ---------------------------------------------------------------------
  // evdev device classification
  // ---------------------------------------------------------------------

  const EV_KEY: nat := 0x01
  const EV_REL: nat := 0x02
  const EV_ABS: nat := 0x03
  const KEY_Q: nat := 16
  const KEY_A: nat := 30
  const KEY_Z: nat := 44
  const REL_X: nat := 0x00
  const REL_Y: nat := 0x01
  const ABS_X: nat := 0x00
  const ABS_Y: nat := 0x01
  const BTN_JOYSTICK: nat := 0x120
  const BTN_SOUTH: nat := 0x130

  /** What probing one `/dev/input/eventN` node yields: `open` failing, the
      event-type bitmap query failing (the node is closed again), or the
      name and the bitmaps; a per-type bitmap is `None` when its query
      failed. A bitmap is the set of its set bits. */
  datatype EvProbe =
    | OpenFailed
    | BitsFailed(fd: nat)
    | Probed(fd: nat, name: string, evbits: set<nat>,
             keybits: Option<set<nat>>, relbits: Option<set<nat>>, absbits: Option<set<nat>>)

  /** One directory entry of `/dev/input`: whether its name starts with
      `event`, the number after that prefix, and what probing it yields. */
  datatype EvEntry = EvEntry(isEvent: bool, eventNumber: int, probe: EvProbe)

  /** `::tolower` in the C locale: only `A`..`Z` change. */
  function AsciiLower(c: char): (r: char)
    ensures 'A' <= c <= 'Z' ==> r as int == c as int + 32
    ensures !('A' <= c <= 'Z') ==> r == c
  {
    if 'A' <= c <= 'Z' then (c as int + 32) as char else c
  }

  function Lower(s: string): (r: string)
    ensures |r| == |s|
    ensures forall i :: 0 <= i < |s| ==> r[i] == AsciiLower(s[i])
  {
    seq(|s|, i requires 0 <= i < |s| => AsciiLower(s[i]))
  }

  /** Whether `sub` occurs in `s` starting at index `i`. */
  predicate OccursAt(s: string, sub: string, i: nat) {
    i + |sub| <= |s| && s[i..i + |sub|] == sub
  }

  lemma OccursShift(s: string, sub: string, i: nat)
    requires |s| > 0
    ensures OccursAt(s[1..], sub, i) <==> OccursAt(s, sub, i + 1)
  {
    if i + 1 + |sub| <= |s| {
      assert s[1..][i..i + |sub|] == s[i + 1..i + 1 + |sub|];
    }
  }

  /** `std::string::find(sub) != npos`. */
  function Contains(s: string, sub: string): (r: bool)
    ensures r <==> exists i: nat :: OccursAt(s, sub, i)
    decreases |s|
  {
    if |s| < |sub| then
      assert forall i: nat :: !OccursAt(s, sub, i);
      false
    else if s[..|sub|] == sub then
      assert OccursAt(s, sub, 0);
      true
    else
      assert |s| > 0;
      var r := Contains(s[1..], sub);
      assert r ==> exists i: nat :: OccursAt(s, sub, i) by {
        if r {
          var i: nat :| OccursAt(s[1..], sub, i);
          OccursShift(s, sub, i);
        }
      }
      assert (exists i: nat :: OccursAt(s, sub, i)) ==> r by {
        if exists i: nat :: OccursAt(s, sub, i) {
          var i: nat :| OccursAt(s, sub, i);
          assert i > 0;
          OccursShift(s, sub, i - 1);
        }
      }
      r
  }

  predicate Has(bits: Option<set<nat>>, b: nat) {
    bits.Some? && b in bits.value
  }

  /** Keys but no relative or absolute axes, with Q, A and Z present, or
      "keyboard" in the lower-cased name. */
  predicate IsKeyboard(name: string, evbits: set<nat>, keybits: Option<set<nat>>) {
    || (EV_KEY in evbits && EV_REL !in evbits && EV_ABS !in evbits
        && Has(keybits, KEY_Q) && Has(keybits, KEY_A) && Has(keybits, KEY_Z))
    || Contains(Lower(name), "keyboard")
  }

  /** Relative X and Y axes, or a pointing-device word in the name. */
  predicate IsMouse(name: string, evbits: set<nat>, relbits: Option<set<nat>>) {
    || (EV_REL in evbits && Has(relbits, REL_X) && Has(relbits, REL_Y))
    || Contains(Lower(name), "mouse") || Contains(Lower(name), "trackpad")
    || Contains(Lower(name), "touchpad") || Contains(Lower(name), "trackpoint")
  }

  /** Absolute X and Y axes with gamepad or joystick buttons (both bitmap
      queries must succeed), or a controller word in the name. */
  predicate IsGamepad(name: string, evbits: set<nat>, keybits: Option<set<nat>>, absbits: Option<set<nat>>) {
    || (EV_ABS in evbits && EV_KEY in evbits && keybits.Some? && absbits.Some?
        && Has(absbits, ABS_X) && Has(absbits, ABS_Y)
        && (Has(keybits, BTN_SOUTH) || Has(keybits, BTN_JOYSTICK)))
    || Contains(Lower(name), "gamepad") || Contains(Lower(name), "joystick")
    || Contains(Lower(name), "controller")
  }

  /** A probed device is monitored as a generic HID device iff it is none of
      keyboard (seen through X11), mouse (X11) and gamepad (joystick nodes). */
  predicate KeptDevice(p: EvProbe)
    requires p.Probed?
  {
    && !IsKeyboard(p.name, p.evbits, p.keybits)
    && !IsMouse(p.name, p.evbits, p.relbits)
    && !IsGamepad(p.name, p.evbits, p.keybits, p.absbits)
  }

  /** Whether an entry is considered at all: an `event` node whose number is
      not already monitored as a joystick, and that opened and described
      itself. */
  predicate Considered(e: EvEntry, joystickEvents: set<int>) {
    e.isEvent && e.eventNumber !in joystickEvents && e.probe.Probed?
  }

  /** Whether an entry ends up monitored as a generic HID device. */
  predicate Monitored(e: EvEntry, joystickEvents: set<int>) {
    Considered(e, joystickEvents) && KeptDevice(e.probe)
  }

  /** The descriptors kept by a scan, in directory order. */
  function HidKept(entries: seq<EvEntry>, joystickEvents: set<int>): seq<nat>
    decreases |entries|
  {
    if entries == [] then []
    else
      var e := entries[|entries| - 1];
      HidKept(entries[..|entries| - 1], joystickEvents)
        + (if Monitored(e, joystickEvents) then [e.probe.fd] else [])
  }

  /** The descriptors a scan opens and closes again, in directory order. */
  function HidDiscarded(entries: seq<EvEntry>, joystickEvents: set<int>): seq<nat>
    decreases |entries|
  {
    if entries == [] then []
    else
      var e := entries[|entries| - 1];
      var closed :=
        if !e.isEvent || e.eventNumber in joystickEvents || e.probe.OpenFailed? then []
        else if e.probe.BitsFailed? || !KeptDevice(e.probe) then [e.probe.fd]
        else [];
      HidDiscarded(entries[..|entries| - 1], joystickEvents) + closed
  }

  /** A descriptor is kept iff some entry that is considered and classified
      as generic HID came with it. */
  lemma {:induction false} HidKeptIff(entries: seq<EvEntry>, joystickEvents: set<int>, fd: nat)
    ensures fd in HidKept(entries, joystickEvents) <==>
      exists i :: 0 <= i < |entries| && Monitored(entries[i], joystickEvents) && entries[i].probe.fd == fd
    decreases |entries|
  {
    if entries != [] {
      var n := |entries| - 1;
      HidKeptIff(entries[..n], joystickEvents, fd);
      if fd in HidKept(entries[..n], joystickEvents) {
        var i :| 0 <= i < n && Monitored(entries[..n][i], joystickEvents) && entries[..n][i].probe.fd == fd;
        assert entries[i] == entries[..n][i];
      }
      forall i | 0 <= i < n
        ensures entries[i] == entries[..n][i]
      {
      }
    }
  }

  /** An entry whose event number belongs to a joystick contributes nothing. */
  lemma {:induction false} JoystickNodesSkipped(entries: seq<EvEntry>, joystickEvents: set<int>, e: EvEntry)
    requires e.eventNumber in joystickEvents
    ensures HidKept(entries + [e], joystickEvents) == HidKept(entries, joystickEvents)
    ensures HidDiscarded(entries + [e], joystickEvents) == HidDiscarded(entries, joystickEvents)
  {
    assert (entries + [e])[..|entries|] == entries;
  }

  /** A name mentioning a "Keyboard" excludes the device whatever its
      capabilities, since names are compared lower-cased. */
  lemma NamedKeyboardExcluded(name: string, i: nat, fd: nat, evbits: set<nat>, keybits: Option<set<nat>>,
                              relbits: Option<set<nat>>, absbits: Option<set<nat>>)
    requires OccursAt(name, "Keyboard", i)
    ensures !KeptDevice(Probed(fd, name, evbits, keybits, relbits, absbits))
  {
    forall j | 0 <= j < 8
      ensures Lower(name)[i + j] == "keyboard"[j]
    {
      assert name[i + j] == name[i..i + 8][j] == "Keyboard"[j];
    }
    assert Lower(name)[i..i + 8] == "keyboard";
    assert OccursAt(Lower(name), "keyboard", i);
  }

  /** A device with keys but without the Q, A and Z letters (a power or
      brightness button) is kept when its name says nothing; the name stays
      empty when the name query fails. */
  lemma LetterlessKeysKept(fd: nat)
    ensures KeptDevice(Probed(fd, "", {EV_KEY}, Some({116, 224, 225}), None, None))
  {
  }

  // ---------------------------------------------------------------------
  // Joystick nodes
  // ---------------------------------------------------------------------

  /** Joystick nodes `/dev/input/js0` .. `js15` are probed. */
  const JS_MAX_DEVICES := 16

  /** What probing one `/dev/input/jsN` node yields: nothing (open failed),
      a node whose name query failed (closed again), or a joystick together
      with the number of the `eventN` node carrying the same name (-1 when
      none does). */
  datatype JsProbe = JsAbsent | JsNoName(fd: nat) | JsFound(fd: nat, eventNumber: int)

  /** The joystick descriptors kept, in node order. */
  function JoystickFds(probes: seq<JsProbe>): seq<nat>
    decreases |probes|
  {
    if probes == [] then []
    else
      var p := probes[|probes| - 1];
      JoystickFds(probes[..|probes| - 1]) + (if p.JsFound? then [p.fd] else [])
  }

  /** The descriptors opened and closed again because the name query failed. */
  function JoystickDiscarded(probes: seq<JsProbe>): seq<nat>
    decreases |probes|
  {
    if probes == [] then []
    else
      var p := probes[|probes| - 1];
      JoystickDiscarded(probes[..|probes| - 1]) + (if p.JsNoName? then [p.fd] else [])
  }

  /** The event numbers already monitored through a joystick node. */
  function JoystickEvents(probes: seq<JsProbe>): (r: set<int>)
    ensures forall e :: e in r ==> e >= 0
  {
    set i | 0 <= i < |probes| && probes[i].JsFound? && probes[i].eventNumber >= 0 :: probes[i].eventNumber
  }

  /** Every joystick found is kept, and only those. */
  lemma {:induction false} JoystickFdsIff(probes: seq<JsProbe>, fd: nat)
    ensures fd in JoystickFds(probes) <==> exists i :: 0 <= i < |probes| && probes[i].JsFound? && probes[i].fd == fd
    decreases |probes|
  {
    if probes != [] {
      var n := |probes| - 1;
      JoystickFdsIff(probes[..n], fd);
      forall i | 0 <= i < n
        ensures probes[i] == probes[..n][i]
      {
      }
    }
  }

  // ---------------------------------------------------------------------
  // The consecutive-detection audio gate
  // ---------------------------------------------------------------------

  /** One audio read with monitoring enabled: a detection extends the run of
      consecutive detections and is reported once the run is at least two
      long; a miss resets the run. */
  function Gate(run: nat, detected: bool): (r: (nat, bool))
    ensures r.1 <==> detected && run >= 1
    ensures detected ==> r.0 == run + 1 && (r.1 <==> r.0 >= 2)
    ensures !detected ==> r.0 == 0
  {
    if detected then (run + 1, run + 1 >= 2) else (0, false)
  }

  /** Whether read `i` and the one before it both detected sound. */
  predicate SecondInARow(samples: seq<bool>, i: nat)
    requires i < |samples|
  {
    i >= 1 && samples[i - 1] && samples[i]
  }

  /** The audio thread's loop over successive reads: `reports[i]` is whether
      read `i` reported activity. A read reports exactly when it and the one
      before it both detected sound. */
  method RunGate(samples: seq<bool>) returns (reports: seq<bool>)
    ensures |reports| == |samples|
    ensures forall i :: 0 <= i < |samples| ==> (reports[i] <==> SecondInARow(samples, i))
  {
    var consecutive := 0;
    reports := [];
    var i := 0;
    while i < |samples|
      invariant 0 <= i <= |samples| && |reports| == i
      invariant consecutive >= 0 && (i == 0 ==> consecutive == 0)
      invariant i > 0 ==> (consecutive >= 1 <==> samples[i - 1])
      invariant forall k :: 0 <= k < i ==> (reports[k] <==> SecondInARow(samples, k))
    {
      var report := false;
      if samples[i] {
        consecutive := consecutive + 1;
        if consecutive >= 2 {
          report := true;
        }
      } else {
        consecutive := 0;
      }
      reports := reports + [report];
      i := i + 1;
    }
  }

  /** Reads detected, missed, detected, detected report only at the fourth,
      step by step and by the characterisation of `RunGate`. */
  lemma GateExample()
    ensures Gate(Gate(Gate(0, true).0, false).0, true) == (1, false)
    ensures Gate(1, true) == (2, true)
    ensures forall i :: 0 <= i < 4 ==> (SecondInARow([true, false, true, true], i) <==> i == 3)
  {
  }

  // ---------------------------------------------------------------------
  // The audio source candidate list
  // ---------------------------------------------------------------------

  /** The characters stripped from the end of a `pactl` output line. */
  predicate IsTrimmed(c: char) {
    c == '\n' || c == '\r' || c == ' '
  }

  /** `s` with trailing newlines, carriage returns and spaces removed. */
  function TrimEnd(s: string): (r: string)
    ensures |r| <= |s| && r == s[..|r|]
    ensures r == [] || !IsTrimmed(r[|r| - 1])
    ensures forall k :: |r| <= k < |s| ==> IsTrimmed(s[k])
    decreases |s|
  {
    if s != [] && IsTrimmed(s[|s| - 1]) then TrimEnd(s[..|s| - 1]) else s
  }

  /** The trimming loop: pop characters off the back while one is a
      newline, carriage return or space. */
  method Trim(s: string) returns (t: string)
    ensures t == TrimEnd(s)
  {
    t := s;
    while t != [] && IsTrimmed(t[|t| - 1])
      invariant TrimEnd(t) == TrimEnd(s)
    {
      t := t[..|t| - 1];
    }
  }

  /** The names tried after the discovered ones, in this order. */
  const FALLBACK_SOURCES: seq<string> := ["@DEFAULT_SINK@.monitor", "@DEFAULT_MONITOR@"]

  /** Each discovered line, trimmed, is appended unless empty or already
      listed. */
  function AppendNew(acc: seq<string>, lines: seq<string>): seq<string>
    decreases |lines|
  {
    if lines == [] then acc
    else
      var src := TrimEnd(lines[0]);
      AppendNew(if src != "" && src !in acc then acc + [src] else acc, lines[1..])
  }

  /** The candidate monitor sources, most specific first: the default sink's
      monitor (when `pactl get-default-sink` printed a non-empty first
      line), the discovered monitor sources, then the two fallbacks. */
  function AudioSources(defaultLine: Option<string>, lines: Option<seq<string>>): seq<string> {
    var sink := if defaultLine.Some? then TrimEnd(defaultLine.value) else "";
    var head := if sink != "" then [sink + ".monitor"] else [];
    AppendNew(head, if lines.Some? then lines.value else []) + FALLBACK_SOURCES
  }

  predicate NoDuplicates(s: seq<string>) {
    forall i, j :: 0 <= i < j < |s| ==> s[i] != s[j]
  }

  /** Appending keeps what was listed, in front, and adds no duplicate. */
  lemma {:induction false} AppendNewSpec(acc: seq<string>, lines: seq<string>)
    ensures |acc| <= |AppendNew(acc, lines)| && AppendNew(acc, lines)[..|acc|] == acc
    ensures NoDuplicates(acc) ==> NoDuplicates(AppendNew(acc, lines))
    decreases |lines|
  {
    if lines != [] {
      var src := TrimEnd(lines[0]);
      var next := if src != "" && src !in acc then acc + [src] else acc;
      AppendNewSpec(next, lines[1..]);
      assert next[..|acc|] == acc;
      assert AppendNew(acc, lines)[..|acc|] == AppendNew(acc, lines)[..|next|][..|acc|];
    }
  }

  /** A source ends up in the list iff it was already there or is the
      non-empty trimmed form of some discovered line. */
  lemma {:induction false} AppendNewMembers(acc: seq<string>, lines: seq<string>, name: string)
    ensures name in AppendNew(acc, lines) <==>
      name in acc || (name != "" && exists k :: 0 <= k < |lines| && TrimEnd(lines[k]) == name)
    decreases |lines|
  {
    if lines != [] {
      var src := TrimEnd(lines[0]);
      var next := if src != "" && src !in acc then acc + [src] else acc;
      AppendNewMembers(next, lines[1..], name);
      forall k | 0 <= k < |lines| - 1
        ensures lines[1..][k] == lines[k + 1]
      {
      }
      if name != "" && (exists k :: 0 <= k < |lines| && TrimEnd(lines[k]) == name) {
        var k :| 0 <= k < |lines| && TrimEnd(lines[k]) == name;
        if k > 0 {
          assert TrimEnd(lines[1..][k - 1]) == name;
        }
      }
    }
  }

  /** Builds the candidate list as the audio thread does. `defaultLine` is
      the first line `pactl get-default-sink` printed (`None` when the pipe
      failed or printed nothing), `lines` the lines of the source listing
      (`None` when that pipe failed). */
  method BuildAudioSources(defaultLine: Option<string>, lines: Option<seq<string>>) returns (sources: seq<string>)
    ensures sources == AudioSources(defaultLine, lines)
    ensures |sources| >= 2 && sources[|sources| - 2..] == FALLBACK_SOURCES
  {
    var sink := "";
    if defaultLine.Some? {
      sink := Trim(defaultLine.value);
    }
    sources := [];
    if sink != "" {
      sources := sources + [sink + ".monitor"];
    }
    assert sources == (if sink != "" then [sink + ".monitor"] else []);
    sources := AppendDiscovered(sources, if lines.Some? then lines.value else []);
    sources := sources + FALLBACK_SOURCES;
    assert sources[|sources| - 2..] == FALLBACK_SOURCES;
  }

  /** The loop over the lines of the source listing. */
  method AppendDiscovered(acc: seq<string>, ls: seq<string>) returns (sources: seq<string>)
    ensures sources == AppendNew(acc, ls)
  {
    sources := acc;
    var i := 0;
    while i < |ls|
      invariant 0 <= i <= |ls|
      invariant AppendNew(sources, ls[i..]) == AppendNew(acc, ls)
    {
      assert ls[i..][1..] == ls[i + 1..];
      var src := Trim(ls[i]);
      if src != "" {
        var alreadyListed := Listed(sources, src);
        if !alreadyListed {
          sources := sources + [src];
        }
      }
      i := i + 1;
    }
    assert ls[i..] == [];
  }

  /** The duplicate search over the names listed so far. */
  method Listed(sources: seq<string>, src: string) returns (found: bool)
    ensures found <==> src in sources
  {
    found := false;
    var k := 0;
    while k < |sources| && !found
      invariant 0 <= k <= |sources|
      invariant found <==> src in sources[..k]
    {
      if sources[k] == src {
        found := true;
      }
      assert sources[..k + 1] == sources[..k] + [sources[k]];
      k := k + 1;
    }
    assert !found ==> sources[..k] == sources;
  }

  /** The default sink's monitor, when there is one, is tried first, and no
      name before the fallbacks is listed twice. */
  lemma AudioSourcesOrder(defaultLine: Option<string>, lines: Option<seq<string>>)
    ensures var sink := if defaultLine.Some? then TrimEnd(defaultLine.value) else "";
      sink != "" ==> AudioSources(defaultLine, lines)[0] == sink + ".monitor"
    ensures var s := AudioSources(defaultLine, lines);
      NoDuplicates(s[..|s| - 2])
  {
    var sink := if defaultLine.Some? then TrimEnd(defaultLine.value) else "";
    var head := if sink != "" then [sink + ".monitor"] else [];
    var ls := if lines.Some? then lines.value else [];
    AppendNewSpec(head, ls);
    var s := AudioSources(defaultLine, lines);
    assert s[..|s| - 2] == AppendNew(head, ls);
    if sink != "" {
      assert AppendNew(head, ls)[..1] == head;
    }
  }

  // ---------------------------------------------------------------------
  // Screenshots
  // ---------------------------------------------------------------------

  const MAX_SCREENSHOT_WIDTH := 7680
  const MAX_SCREENSHOT_HEIGHT := 4320
  /** The X11 `None` and `PointerRoot` focus values. */
  const WINDOW_NONE: nat := 0
  const POINTER_ROOT: nat := 1

  /** The window captured: the focused one when only the active window is
      wanted and something real has the focus, otherwise the root window. */
  function ShotWindow(activeWindowOnly: bool, focused: nat, root: nat): (w: nat)
    ensures w == root || (activeWindowOnly && w == focused)
    ensures w != root ==> focused != WINDOW_NONE && focused != POINTER_ROOT
  {
    if activeWindowOnly && focused != WINDOW_NONE && focused != POINTER_ROOT then focused else root
  }

  /** The size limits: both sides positive, at most 7680 by 4320. */
  predicate SizeAccepted(width: int, height: int) {
    0 < width <= MAX_SCREENSHOT_WIDTH && 0 < height <= MAX_SCREENSHOT_HEIGHT
  }

  /** Colour channel `c` (0 red, 1 green, 2 blue) of an X11 pixel value:
      bits 16-23, 8-15 and 0-7. */
  function Channel(pixel: nat, c: nat): byte
    requires c < 3
  {
    (if c == 0 then pixel / 65536 % 256 else if c == 1 then pixel / 256 % 256 else pixel % 256) as byte
  }

  /** The channels of a packed 24-bit colour are its three bytes. */
  lemma ChannelsOfPacked(r: byte, g: byte, b: byte)
    ensures Channel(r as nat * 65536 + g as nat * 256 + b as nat, 0) == r
    ensures Channel(r as nat * 65536 + g as nat * 256 + b as nat, 1) == g
    ensures Channel(r as nat * 65536 + g as nat * 256 + b as nat, 2) == b
  {
    var p := r as nat * 65536 + g as nat * 256 + b as nat;
    DivModUnique(p, 256, r as nat * 256 + g as nat, b as nat);
    DivModUnique(p, 65536, r as nat, g as nat * 256 + b as nat);
    DivModUnique(p / 65536, 256, 0, r as nat);
    DivModUnique(p / 256, 256, r as nat, g as nat);
  }

  /** Bits above the 24 colour bits (an alpha byte on 32-bit visuals, say)
      do not reach the buffer. */
  lemma {:induction false} HighBitsDropped(pixel: nat, k: nat, c: nat)
    requires c < 3
    ensures Channel(pixel + k * 16777216, c) == Channel(pixel, c)
  {
    var q := pixel + k * 16777216;
    DivModUnique(q, 256, pixel / 256 + k * 65536, pixel % 256);
    DivModUnique(q, 65536, pixel / 65536 + k * 256, pixel % 65536);
    DivModUnique(q / 256, 256, pixel / 256 / 256 + k * 256, pixel / 256 % 256);
    DivModUnique(q / 65536, 256, pixel / 65536 / 256 + k, pixel / 65536 % 256);
  }

  /** The byte expected at offset `k` of the RGB buffer: a pixel byte when
      `k` falls within the `3 * width` used bytes of its row, otherwise the
      row padding, whatever it held before. */
  function PixelByte(image: (nat, nat) -> nat, width: nat, rowstride: nat, k: nat, padding: byte): byte
    requires rowstride > 0
  {
    var col := Column(k, rowstride);
    if col < 3 * width then Channel(image(col / 3, Row(k, rowstride)), col % 3)
    else padding
  }

  /** The byte offset of `k` within its row. */
  function Column(k: nat, rowstride: nat): nat
    requires rowstride > 0
  {
    k % rowstride
  }

  lemma MulMono(a: int, b: int, c: nat)
    requires a <= b
    ensures a * c <= b * c
  {
  }

  /** Quotient and remainder are the only such pair. */
  lemma DivModUnique(n: int, d: int, q: int, r: int)
    requires d > 0 && n == q * d + r && 0 <= r < d
    ensures n / d == q && n % d == r
  {
    var q0 := n / d;
    if q0 > q {
      MulMono(q + 1, q0, d);
    } else if q0 < q {
      MulMono(q0 + 1, q, d);
    }
  }

  /** The row an offset of the buffer falls in. */
  function Row(k: nat, rowstride: nat): nat
    requires rowstride > 0
  {
    k / rowstride
  }

  /** Where offset `k` lies relative to the start `y * rowstride` of row `y`. */
  lemma Place(k: nat, rowstride: nat, y: nat)
    requires rowstride > 0
    ensures k / rowstride < y ==> k < y * rowstride
    ensures k / rowstride > y ==> k >= y * rowstride + rowstride
    ensures k / rowstride == y ==> k == y * rowstride + k % rowstride
  {
    var q := k / rowstride;
    if q < y {
      MulMono(q + 1, y, rowstride);
    } else if q > y {
      MulMono(y + 1, q, rowstride);
    }
  }

  /** The inner pixel loop for row `y`, whose first byte is at `base`:
      pixel `x` becomes bytes `base + 3 * x` .. `+ 2`, nothing else changes. */
  method FillRow(pixels: array<byte>, image: (nat, nat) -> nat, width: nat, y: nat, base: nat)
    requires base + 3 * width <= pixels.Length
    modifies pixels
    ensures forall j :: 0 <= j < 3 * width ==> pixels[base + j] == Channel(image(j / 3, y), j % 3)
    ensures forall k :: 0 <= k < pixels.Length && !(base <= k < base + 3 * width) ==> pixels[k] == old(pixels[k])
  {
    var x := 0;
    while x < width
      invariant 0 <= x <= width
      invariant forall j :: 0 <= j < 3 * x ==> pixels[base + j] == Channel(image(j / 3, y), j % 3)
      invariant forall k :: 0 <= k < pixels.Length && !(base <= k < base + 3 * x) ==> pixels[k] == old(pixels[k])
    {
      var pixel := image(x, y);
      var p := base + x * 3;
      pixels[p] := Channel(pixel, 0);
      pixels[p + 1] := Channel(pixel, 1);
      pixels[p + 2] := Channel(pixel, 2);
      x := x + 1;
    }
  }

  /** After filling row `y` the buffer holds the pixel bytes of rows 0 to
      `y`, and the old contents elsewhere. */
  lemma RowStep(start: seq<byte>, before: seq<byte>, after: seq<byte>, image: (nat, nat) -> nat,
                width: nat, rowstride: nat, y: nat, base: nat)
    requires 0 < 3 * width <= rowstride && base == y * rowstride
    requires |start| == |before| == |after|
    requires forall k :: 0 <= k < |before| ==>
      before[k] == if Row(k, rowstride) < y then PixelByte(image, width, rowstride, k, start[k]) else start[k]
    requires base + 3 * width <= |after|
    requires forall j :: 0 <= j < 3 * width ==> after[base + j] == Channel(image(j / 3, y), j % 3)
    requires forall k :: 0 <= k < |after| && !(base <= k < base + 3 * width) ==> after[k] == before[k]
    ensures forall k :: 0 <= k < |after| ==>
      after[k] == if Row(k, rowstride) < y + 1 then PixelByte(image, width, rowstride, k, start[k]) else start[k]
  {
    forall k | 0 <= k < |after|
      ensures after[k] == if Row(k, rowstride) < y + 1 then PixelByte(image, width, rowstride, k, start[k]) else start[k]
    {
      Place(k, rowstride, y);
      if k / rowstride == y && k % rowstride < 3 * width {
        assert after[base + k % rowstride] == Channel(image(k % rowstride / 3, y), k % rowstride % 3);
      } else {
        assert after[k] == before[k];
      }
    }
  }

  /** The nested pixel loop: every pixel `(x, y)` is unpacked into bytes
      `y * rowstride + 3 * x` .. `+ 2` of the buffer; row padding is left
      alone. */
  method FillPixels(pixels: array<byte>, image: (nat, nat) -> nat, width: nat, height: nat, rowstride: nat)
    requires 0 < 3 * width <= rowstride && height > 0
    requires pixels.Length == (height - 1) * rowstride + 3 * width
    modifies pixels
    ensures forall k :: 0 <= k < pixels.Length ==> pixels[k] == PixelByte(image, width, rowstride, k, old(pixels[k]))
  {
    ghost var start := pixels[..];
    var y, base := 0, 0;
    while y < height
      invariant 0 <= y <= height && base == y * rowstride
      invariant forall k :: 0 <= k < pixels.Length ==>
        pixels[k] == if Row(k, rowstride) < y then PixelByte(image, width, rowstride, k, start[k]) else start[k]
    {
      MulMono(y, height - 1, rowstride);
      ghost var before := pixels[..];
      FillRow(pixels, image, width, y, base);
      RowStep(start, before, pixels[..], image, width, rowstride, y, base);
      y, base := y + 1, base + rowstride;
    }
    forall k | 0 <= k < pixels.Length
      ensures Row(k, rowstride) < height
    {
      Place(k, rowstride, height - 1);
    }
  }

  /** The buffer layout of an 8-bit RGB pixbuf without alpha: rows of
      `3 * width` bytes padded to a multiple of four, the last row
      unpadded. */
  function Rowstride(width: nat): (r: nat)
    ensures 3 * width <= r < 3 * width + 4 && r % 4 == 0
  {
    (3 * width + 3) / 4 * 4
  }

  function BufferLength(width: nat, height: nat): nat
    requires height > 0
  {
    (height - 1) * Rowstride(width) + 3 * width
  }

  /** `take_screenshot`, up to the PNG encoding. The X11 queries are
      parameters: whether the display opened, which window has the focus
      and which is the root, each window's attributes (`None` when the query
      fails) and image (`None` when `XGetImage` fails, otherwise
      `XGetPixel` at `(x, y)`), and whether the pixbuf could be created. The
      result is the filled RGB buffer; the buffer starts out zeroed here. */
  method TakeScreenshot(activeWindowOnly: bool, displayOpened: bool, focused: nat, root: nat,
                        attributes: nat -> Option<(int, int)>, capture: nat -> Option<(nat, nat) -> nat>,
                        pixbufCreated: bool)
    returns (r: Option<seq<byte>>)
    ensures var w := ShotWindow(activeWindowOnly, focused, root);
      r.Some? <==>
        && displayOpened && attributes(w).Some?
        && SizeAccepted(attributes(w).value.0, attributes(w).value.1)
        && capture(w).Some? && pixbufCreated
    ensures r.Some? ==>
      var w := ShotWindow(activeWindowOnly, focused, root);
      var (width, height) := attributes(w).value;
      && width > 0 && height > 0
      && |r.value| == BufferLength(width, height)
      && forall k :: 0 <= k < |r.value| ==> r.value[k] == PixelByte(capture(w).value, width, Rowstride(width), k, 0)
  {
    if !displayOpened {
      return None;
    }
    var window := root;
    if activeWindowOnly && focused != WINDOW_NONE && focused != POINTER_ROOT {
      window := focused;
    }
    var attrs := attributes(window);
    if attrs.None? {
      return None;
    }
    var (width, height) := attrs.value;
    if width <= 0 || height <= 0 {
      return None;
    }
    if width > MAX_SCREENSHOT_WIDTH || height > MAX_SCREENSHOT_HEIGHT {
      return None;
    }
    var image := capture(window);
    if image.None? || !pixbufCreated {
      return None;
    }
    var rowstride := Rowstride(width);
    var pixels := new byte[BufferLength(width, height)](_ => 0);
    FillPixels(pixels, image.value, width, height, rowstride);
    r := Some(pixels[..]);
  }

  // ---------------------------------------------------------------------
  // Focus listener
  // ---------------------------------------------------------------------

  /** What the focus listener remembers between polls. */
  datatype FocusState = FocusState(window: nat, appName: string, title: string)

  predicate RealFocus(window: nat) {
    window != WINDOW_NONE && window != POINTER_ROOT
  }

  /** One poll: a `None` or `PointerRoot` focus is ignored; otherwise a
      change of window, application or title replaces all three remembered
      values and sends one focus change (the title doubling as the window
      title). */
  function FocusStep(last: FocusState, window: nat, appName: string, title: string): (r: (FocusState, seq<Notice>))
    ensures !RealFocus(window) ==> r.0 == last && r.1 == []
    ensures RealFocus(window) ==> (r.1 != [] <==> window != last.window || appName != last.appName || title != last.title)
    ensures r.1 != [] ==> r.0 == FocusState(window, appName, title) && r.1 == [FocusChange(title, appName, title)]
    ensures r.1 == [] ==> r.0 == last
  {
    if RealFocus(window) && (window != last.window || appName != last.appName || title != last.title)
    then (FocusState(window, appName, title), [FocusChange(title, appName, title)])
    else (last, [])
  }

  /** Polling again with nothing changed sends nothing. */
  lemma FocusStepSettles(last: FocusState, window: nat, appName: string, title: string)
    ensures FocusStep(FocusStep(last, window, appName, title).0, window, appName, title).1 == []
  {
  }

  /** A title change within the same window is a focus change here (unlike
      the Windows backend, which compares window handles only). */
  lemma TitleChangeReported(w: nat, app: string, t1: string, t2: string)
    requires RealFocus(w) && t1 != t2
    ensures FocusStep(FocusState(w, app, t1), w, app, t2).1 == [FocusChange(t2, app, t2)]
  {
  }

  /** The focus listener thread's own state. */
  class FocusListener {
    var lastFocused: nat
    var lastAppName: string
    var lastTitle: string
    /** Every focus change sent, in order. */
    var posted: seq<Notice>

    function State(): FocusState
      reads this
    {
      FocusState(lastFocused, lastAppName, lastTitle)
    }

    /** The thread start: nothing remembered, then the initial focus, when
        real, is sent unconditionally and remembered. */
    constructor (window: nat, appName: string, title: string)
      ensures RealFocus(window) ==> State() == FocusState(window, appName, title) && posted == [FocusChange(title, appName, title)]
      ensures !RealFocus(window) ==> State() == FocusState(WINDOW_NONE, "", "") && posted == []
    {
      lastFocused, lastAppName, lastTitle, posted := WINDOW_NONE, "", "", [];
      if window != WINDOW_NONE && window != POINTER_ROOT {
        posted := [FocusChange(title, appName, title)];
        lastAppName, lastTitle := appName, title;
        lastFocused := window;
      }
    }

    /** One pass of the polling loop. */
    method Poll(window: nat, appName: string, title: string)
      modifies this
      ensures State() == FocusStep(old(State()), window, appName, title).0
      ensures posted == old(posted) + FocusStep(old(State()), window, appName, title).1
    {
      if window != WINDOW_NONE && window != POINTER_ROOT {
        var changed := window != lastFocused || appName != lastAppName || title != lastTitle;
        if changed {
          lastFocused := window;
          lastAppName := appName;
          lastTitle := title;
          posted := posted + [FocusChange(title, appName, title)];
        }
      }
    }
  }

  // ---------------------------------------------------------------------
  // X11 keyboard and pointer diff
  // ---------------------------------------------------------------------

  /** `XQueryKeymap` fills 32 bytes, one bit per key code. */
  const KEYMAP_BYTES := 32
  /** `Button1Mask` .. `Button5Mask`. */
  const BUTTON_MASKS: bv32 := 0x1F00

  /** A successful `XQueryPointer`: root coordinates and the button mask. */
  datatype PointerQuery = PointerQuery(x: int, y: int, mask: bv32)

  /** What the X11 input thread remembers between polls. */
  datatype X11State = X11State(keys: seq<byte>, mouseX: int, mouseY: int)

  /** One poll: a key map differing from the last one (press or release),
      a pointer moved, or any pointer button held is input. The key map is
      always remembered when the keyboard is watched; the position only
      when it changed. */
  function X11Step(s: X11State, monitorKeyboard: bool, monitorMouse: bool,
                   keys: seq<byte>, pointer: Option<PointerQuery>): (r: (X11State, bool))
  {
    var keyChanged := monitorKeyboard && keys != s.keys;
    var s1 := if monitorKeyboard then s.(keys := keys) else s;
    if monitorMouse && pointer.Some? then
      var p := pointer.value;
      var moved := p.x != s.mouseX || p.y != s.mouseY;
      var s2 := if moved then s1.(mouseX := p.x, mouseY := p.y) else s1;
      (s2, keyChanged || moved || p.mask & BUTTON_MASKS != 0)
    else (s1, keyChanged)
  }

  /** Polling again with the same readings reports input only while a
      pointer button is held: a held key is not input after its edge. */
  lemma X11StepSettles(s: X11State, monitorKeyboard: bool, monitorMouse: bool,
                       keys: seq<byte>, pointer: Option<PointerQuery>)
    ensures var s1 := X11Step(s, monitorKeyboard, monitorMouse, keys, pointer).0;
      X11Step(s1, monitorKeyboard, monitorMouse, keys, pointer).1 <==>
        monitorMouse && pointer.Some? && pointer.value.mask & BUTTON_MASKS != 0
  {
  }

  /** A key press and its release are each one report. */
  lemma KeyPressAndRelease(up: seq<byte>, down: seq<byte>, x: int, y: int)
    requires up != down
    ensures var (s1, r1) := X11Step(X11State(up, x, y), true, false, down, None);
      r1 && X11Step(s1, true, false, up, None).1
  {
  }

  /** The byte comparison loop, stopping at the first difference. */
  method KeysDiffer(prev: array<byte>, keys: seq<byte>) returns (changed: bool)
    requires prev.Length == |keys|
    ensures changed <==> prev[..] != keys
  {
    changed := false;
    var i := 0;
    while i < |keys|
      invariant 0 <= i <= |keys|
      invariant forall k :: 0 <= k < i ==> prev[k] == keys[k]
    {
      if keys[i] != prev[i] {
        changed := true;
        assert prev[..][i] != keys[i];
        return;
      }
      i := i + 1;
    }
    assert prev[..] == keys;
  }

  /** The X11 input thread's own state: the last key map and pointer
      position. */
  class X11Monitor {
    const prevKeys: array<byte>
    var prevMouseX: int
    var prevMouseY: int

    function State(): X11State
      reads this, prevKeys
    {
      X11State(prevKeys[..], prevMouseX, prevMouseY)
    }

    /** The thread start: the key map as first queried, and the pointer
        position if the first query succeeds (otherwise the origin). */
    constructor (keys: seq<byte>, pointer: Option<PointerQuery>)
      requires |keys| == KEYMAP_BYTES
      ensures fresh(prevKeys)
      ensures State() == X11State(keys, if pointer.Some? then pointer.value.x else 0, if pointer.Some? then pointer.value.y else 0)
    {
      prevKeys := new byte[KEYMAP_BYTES](i requires 0 <= i < KEYMAP_BYTES => keys[i]);
      prevMouseX, prevMouseY := 0, 0;
      if pointer.Some? {
        prevMouseX, prevMouseY := pointer.value.x, pointer.value.y;
      }
      new;
      assert prevKeys[..] == keys;
    }

    /** One pass of the loop body, before the activity report. */
    method Poll(monitorKeyboard: bool, monitorMouse: bool, keys: seq<byte>, pointer: Option<PointerQuery>)
      returns (detected: bool)
      requires prevKeys.Length == |keys|
      modifies this, prevKeys
      ensures (State(), detected) == X11Step(old(State()), monitorKeyboard, monitorMouse, keys, pointer)
    {
      detected := false;
      if monitorKeyboard {
        var keyStateChanged := KeysDiffer(prevKeys, keys);
        if keyStateChanged {
          detected := true;
        }
        forall i | 0 <= i < prevKeys.Length {
          prevKeys[i] := keys[i];
        }
        assert prevKeys[..] == keys;
      }
      if monitorMouse && pointer.Some? {
        var p := pointer.value;
        if p.x != prevMouseX || p.y != prevMouseY {
          prevMouseX, prevMouseY := p.x, p.y;
          detected := true;
        }
        if p.mask & BUTTON_MASKS != 0 {
          detected := true;
        }
      }
    }
  }

  // ---------------------------------------------------------------------
  // Device scans
  // ---------------------------------------------------------------------

  /** Probing one more node adds its event number to the joystick event
      set exactly when it found a joystick with a non-negative number. */
  lemma JoystickEventsSnoc(probes: seq<JsProbe>, i: nat)
    requires i < |probes|
    ensures JoystickEvents(probes[..i + 1]) ==
      JoystickEvents(probes[..i]) + (if probes[i].JsFound? && probes[i].eventNumber >= 0 then {probes[i].eventNumber} else {})
  {
    var q := probes[..i + 1];
    assert forall j :: 0 <= j < i ==> q[j] == probes[..i][j];
    assert q[i] == probes[i];
  }

  /** The probing loop of `initialize_joysticks` over `js0` .. `js15`. */
  method ScanJoysticks(probes: seq<JsProbe>) returns (fds: seq<nat>, events: set<int>, discarded: seq<nat>)
    ensures fds == JoystickFds(probes) && events == JoystickEvents(probes)
    ensures discarded == JoystickDiscarded(probes)
  {
    fds, events, discarded := [], {}, [];
    var i := 0;
    while i < |probes|
      invariant 0 <= i <= |probes|
      invariant fds == JoystickFds(probes[..i]) && events == JoystickEvents(probes[..i])
      invariant discarded == JoystickDiscarded(probes[..i])
    {
      ghost var q := probes[..i + 1];
      assert q[..i] == probes[..i] && q[i] == probes[i];
      assert JoystickFds(q) == JoystickFds(probes[..i]) + (if probes[i].JsFound? then [probes[i].fd] else []);
      assert JoystickDiscarded(q) == JoystickDiscarded(probes[..i]) + (if probes[i].JsNoName? then [probes[i].fd] else []);
      JoystickEventsSnoc(probes, i);
      match probes[i] {
        case JsAbsent =>
        case JsNoName(fd) =>
          discarded := discarded + [fd];
        case JsFound(fd, eventNumber) =>
          fds := fds + [fd];
          if eventNumber >= 0 {
            events := events + {eventNumber};
          }
      }
      i := i + 1;
    }
    assert probes[..i] == probes;
  }

  /** The directory loop of `initialize_hid_devices`. */
  method ScanEventNodes(entries: seq<EvEntry>, joystickEvents: set<int>) returns (fds: seq<nat>, discarded: seq<nat>)
    ensures fds == HidKept(entries, joystickEvents) && discarded == HidDiscarded(entries, joystickEvents)
  {
    fds, discarded := [], [];
    var i := 0;
    while i < |entries|
      invariant 0 <= i <= |entries|
      invariant fds == HidKept(entries[..i], joystickEvents)
      invariant discarded == HidDiscarded(entries[..i], joystickEvents)
    {
      var e := entries[i];
      ghost var q := entries[..i + 1];
      assert q[..i] == entries[..i] && q[i] == e;
      assert HidKept(q, joystickEvents) ==
        HidKept(entries[..i], joystickEvents) + (if Monitored(e, joystickEvents) then [e.probe.fd] else []);
      if e.isEvent && e.eventNumber !in joystickEvents {
        match e.probe {
          case OpenFailed =>
          case BitsFailed(fd) =>
            discarded := discarded + [fd];
          case Probed(fd, _, _, _, _, _) =>
            if KeptDevice(e.probe) {
              fds := fds + [fd];
            } else {
              discarded := discarded + [fd];
            }
        }
      }
      i := i + 1;
    }
    assert entries[..i] == entries;
  }

  // ---------------------------------------------------------------------
  // Devices, threads and the enable-flag edges
  // ---------------------------------------------------------------------

  /** The monitoring threads the backend starts; a started thread is
      recorded, its later exit is not. */
  datatype Thread = X11Thread | FocusThread | InactivityThread | JoystickThread | HidThread | AudioThread

  /** The open descriptors, every scanned or monitored descriptor closed so
      far in closing order, and every thread started so far. */
  datatype Devices = Devices(joystickFds: seq<nat>, joystickEvents: set<int>, hidFds: seq<nat>,
                             closed: seq<nat>, threads: seq<Thread>)

  /** `initialize_joysticks`: close and forget the current joysticks, then
      keep the ones the probes found. */
  function RescanJoysticks(d: Devices, probes: seq<JsProbe>): (r: Devices)
    ensures r.hidFds == d.hidFds && r.threads == d.threads
    ensures forall fd :: fd in r.joystickFds <==> exists i :: 0 <= i < |probes| && probes[i].JsFound? && probes[i].fd == fd
    ensures r.closed == d.closed + d.joystickFds + JoystickDiscarded(probes)
  {
    forall fd ensures fd in JoystickFds(probes) <==> exists i :: 0 <= i < |probes| && probes[i].JsFound? && probes[i].fd == fd {
      JoystickFdsIff(probes, fd);
    }
    d.(joystickFds := JoystickFds(probes), joystickEvents := JoystickEvents(probes),
       closed := d.closed + d.joystickFds + JoystickDiscarded(probes))
  }

  /** `initialize_hid_devices`: close and forget the current HID devices,
      then, when `/dev/input` could be listed, keep the generic ones. */
  function RescanHid(d: Devices, entries: Option<seq<EvEntry>>): (r: Devices)
    ensures r.joystickFds == d.joystickFds && r.joystickEvents == d.joystickEvents && r.threads == d.threads
    ensures entries.None? ==> r.hidFds == [] && r.closed == d.closed + d.hidFds
    ensures entries.Some? ==> forall fd :: fd in r.hidFds <==>
      exists i :: 0 <= i < |entries.value| && Monitored(entries.value[i], d.joystickEvents) && entries.value[i].probe.fd == fd
  {
    match entries {
      case None => d.(hidFds := [], closed := d.closed + d.hidFds)
      case Some(es) =>
        forall fd ensures fd in HidKept(es, d.joystickEvents) <==>
          exists i :: 0 <= i < |es| && Monitored(es[i], d.joystickEvents) && es[i].probe.fd == fd
        {
          HidKeptIff(es, d.joystickEvents, fd);
        }
        d.(hidFds := HidKept(es, d.joystickEvents),
           closed := d.closed + d.hidFds + HidDiscarded(es, d.joystickEvents))
    }
  }

  /** `setControllerMonitoring` once the argument is a bool: rescan and
      start the joystick thread only on false-to-true, close and forget the
      joysticks only on true-to-false. */
  function ControllerToggle(d: Devices, monitoring: bool, requested: bool, probes: seq<JsProbe>): (r: Devices)
    ensures r.hidFds == d.hidFds
    ensures r.threads == d.threads + (if requested && !monitoring then [JoystickThread] else [])
    ensures requested == monitoring ==> r == d
    ensures !requested && monitoring ==> r == d.(joystickFds := [], joystickEvents := {}, closed := d.closed + d.joystickFds)
  {
    if requested && !monitoring then RescanJoysticks(d, probes).(threads := d.threads + [JoystickThread])
    else if !requested && monitoring then d.(joystickFds := [], joystickEvents := {}, closed := d.closed + d.joystickFds)
    else d
  }

  /** `setHIDMonitoring` once the argument is a bool; stopping forgets the
      descriptors only (the joystick event numbers stay). */
  function HidToggle(d: Devices, monitoring: bool, requested: bool, entries: Option<seq<EvEntry>>): (r: Devices)
    ensures r.joystickFds == d.joystickFds && r.joystickEvents == d.joystickEvents
    ensures r.threads == d.threads + (if requested && !monitoring then [HidThread] else [])
    ensures requested == monitoring ==> r == d
    ensures !requested && monitoring ==> r == d.(hidFds := [], closed := d.closed + d.hidFds)
  {
    if requested && !monitoring then RescanHid(d, entries).(threads := d.threads + [HidThread])
    else if !requested && monitoring then d.(hidFds := [], closed := d.closed + d.hidFds)
    else d
  }

  /** Enabling then disabling controller monitoring leaves no joystick
      open: every descriptor the scan opened has been closed, the ones it
      kept last. */
  lemma ControllerOnOffClosesAll(d: Devices, probes: seq<JsProbe>)
    ensures var r := ControllerToggle(ControllerToggle(d, false, true, probes), true, false, probes);
      && r.joystickFds == [] && r.joystickEvents == {} && r.hidFds == d.hidFds
      && r.closed == d.closed + d.joystickFds + JoystickDiscarded(probes) + JoystickFds(probes)
      && r.threads == d.threads + [JoystickThread]
  {
  }

  /** The same for HID monitoring, with `/dev/input` listed. */
  lemma HidOnOffClosesAll(d: Devices, entries: seq<EvEntry>)
    ensures var r := HidToggle(HidToggle(d, false, true, Some(entries)), true, false, Some(entries));
      && r.hidFds == [] && r.joystickFds == d.joystickFds
      && r.closed == d.closed + d.hidFds + HidDiscarded(entries, d.joystickEvents) + HidKept(entries, d.joystickEvents)
      && r.threads == d.threads + [HidThread]
  {
  }

  /** The device scans at start-up: joysticks first, so that the HID scan
      skips their event nodes. */
  function StartDevices(d: Devices, controllers: bool, hid: bool,
                        probes: seq<JsProbe>, entries: Option<seq<EvEntry>>): (r: Devices)
    ensures r.threads == d.threads
    ensures !controllers ==> r.joystickFds == d.joystickFds && r.joystickEvents == d.joystickEvents
    ensures !hid ==> r.hidFds == d.hidFds
    ensures controllers && hid && entries.Some? ==> forall fd :: fd in r.hidFds <==>
      exists i :: 0 <= i < |entries.value| && Monitored(entries.value[i], JoystickEvents(probes)) && entries.value[i].probe.fd == fd
  {
    var d1 := if controllers then RescanJoysticks(d, probes) else d;
    if hid then RescanHid(d1, entries) else d1
  }

  /** The threads started at start-up: the X11 input, focus and inactivity
      threads always, then one per enabled subsystem. */
  function StartThreads(controllers: bool, hid: bool, audio: bool): (r: seq<Thread>)
    ensures |r| >= 3 && r[..3] == [X11Thread, FocusThread, InactivityThread]
    ensures JoystickThread in r <==> controllers
    ensures HidThread in r <==> hid
    ensures AudioThread in r <==> audio
  {
    [X11Thread, FocusThread, InactivityThread]
      + (if controllers then [JoystickThread] else [])
      + (if hid then [HidThread] else [])
      + (if audio then [AudioThread] else [])
  }

  // ---------------------------------------------------------------------
  // The method channel
  // ---------------------------------------------------------------------

  /** The commands the backend answers, and everything else. */
  datatype Command =
    | SetDebugMode | SetKeyboardMonitoring | SetMouseMonitoring | SetControllerMonitoring
    | SetAudioMonitoring | SetAudioThreshold | SetHIDMonitoring | SetInactivityTimeOut
    | GetIdleThreshold | TakeScreenshotCmd | CheckScreenRecordingPermission
    | RequestScreenRecordingPermission | GetPlatformVersion | GetMonitoringStatus
    | Unknown

  /** The method name a command answers to. */
  function CommandName(c: Command): string
    requires c != Unknown
  {
    match c
    case SetDebugMode => "setDebugMode"
    case SetKeyboardMonitoring => "setKeyboardMonitoring"
    case SetMouseMonitoring => "setMouseMonitoring"
    case SetControllerMonitoring => "setControllerMonitoring"
    case SetAudioMonitoring => "setAudioMonitoring"
    case SetAudioThreshold => "setAudioThreshold"
    case SetHIDMonitoring => "setHIDMonitoring"
    case SetInactivityTimeOut => "setInactivityTimeOut"
    case GetIdleThreshold => "getIdleThreshold"
    case TakeScreenshotCmd => "takeScreenshot"
    case CheckScreenRecordingPermission => "checkScreenRecordingPermission"
    case RequestScreenRecordingPermission => "requestScreenRecordingPermission"
    case GetPlatformVersion => "getPlatformVersion"
    case GetMonitoringStatus => "getMonitoringStatus"
  }

  /** The method name matches `lit`, as `strcmp(...) == 0` decides. */
  predicate Is(name: string, lit: string) {
    name == lit
  }

  /** The chain of name comparisons at the head of the handler. */
  function ParseCommand(name: string): (c: Command)
    ensures c != Unknown ==> CommandName(c) == name
  {
    if Is(name, "setDebugMode") then SetDebugMode
    else if Is(name, "setKeyboardMonitoring") then SetKeyboardMonitoring
    else if Is(name, "setMouseMonitoring") then SetMouseMonitoring
    else if Is(name, "setControllerMonitoring") then SetControllerMonitoring
    else if Is(name, "setAudioMonitoring") then SetAudioMonitoring
    else if Is(name, "setAudioThreshold") then SetAudioThreshold
    else if Is(name, "setHIDMonitoring") then SetHIDMonitoring
    else if Is(name, "setInactivityTimeOut") then SetInactivityTimeOut
    else if Is(name, "getIdleThreshold") then GetIdleThreshold
    else if Is(name, "takeScreenshot") then TakeScreenshotCmd
    else if Is(name, "checkScreenRecordingPermission") then CheckScreenRecordingPermission
    else if Is(name, "requestScreenRecordingPermission") then RequestScreenRecordingPermission
    else if Is(name, "getPlatformVersion") then GetPlatformVersion
    else if Is(name, "getMonitoringStatus") then GetMonitoringStatus
    else Unknown
  }

  /** Every command is recognised under its own name. */
  lemma ParseCommandName(c: Command)
    requires c != Unknown
    ensures ParseCommand(CommandName(c)) == c
  {
  }

  /** The settings the method channel changes. */
  datatype Settings = Settings(debug: bool, keyboard: bool, mouse: bool, controllers: bool,
                               systemAudio: bool, hid: bool, inactivityThreshold: int, audioThreshold: real)

  /** What `getMonitoringStatus` reports besides the settings; the live
      thread count is a parameter because thread exits are not modelled. */
  datatype MonitorStatus = MonitorStatus(settings: Settings, userIsActive: bool, threadCount: int,
                                         joystickCount: nat, hidDeviceCount: nat)

  /** The setters, which read a map argument; any other argument value
      makes them produce no answer of their own. */
  predicate IsSetter(c: Command) {
    c.SetDebugMode? || c.SetKeyboardMonitoring? || c.SetMouseMonitoring? || c.SetControllerMonitoring?
    || c.SetAudioMonitoring? || c.SetAudioThreshold? || c.SetHIDMonitoring? || c.SetInactivityTimeOut?
  }

  /** The key a setter reads its argument from. */
  function ArgKey(c: Command): string {
    match c
    case SetDebugMode => "debug"
    case SetAudioThreshold => "threshold"
    case SetInactivityTimeOut => "inactivityTimeOut"
    case _ => "enabled"
  }

  /** The value under a setter's key, when the argument is a map holding one. */
  function ArgOf(c: Command, args: Args): (r: Option<Value>)
    ensures r.Some? <==> args.ArgMap? && ArgKey(c) in args.entries
  {
    if args.ArgMap? && ArgKey(c) in args.entries then Some(args.entries[ArgKey(c)]) else None
  }

  /** Whether a value has the kind a setter expects: a double for the audio
      threshold, an integer for the timeout, a bool otherwise. */
  predicate KindOk(c: Command, v: Value) {
    match c
    case SetAudioThreshold => v.VFloat?
    case SetInactivityTimeOut => v.VInt?
    case _ => v.VBool?
  }

  /** Whether the map argument of a setter holds a value of the right kind
      under the right key. */
  predicate ArgValid(c: Command, args: Args) {
    ArgOf(c, args).Some? && KindOk(c, ArgOf(c, args).value)
  }

  /** The error message of a setter whose argument is missing or of the
      wrong kind. */
  function ArgError(c: Command): string {
    match c
    case SetDebugMode => "Expected a bool for 'debug'"
    case SetAudioThreshold => "Expected a double for 'threshold'"
    case SetInactivityTimeOut => "Expected an integer for 'inactivityTimeOut'"
    case _ => "Expected a bool for 'enabled'"
  }

  const TWO_32: int := 0x1_0000_0000
  const TWO_31: int := 0x8000_0000

  /** Storing a 64-bit channel integer into the `int` threshold field
      keeps its low 32 bits, read as two's complement. */
  function ToInt32(i: int): (r: int)
    ensures -TWO_31 <= r < TWO_31
    ensures (r - i) % TWO_32 == 0
    ensures -TWO_31 <= i < TWO_31 ==> r == i
  {
    var low := i % TWO_32;
    if low >= TWO_31 then low - TWO_32 else low
  }

  /** A timeout of 2^31 ms (about 24.8 days) is stored as a negative one,
      after which every inactivity check fires. */
  lemma LargeTimeoutWraps()
    ensures ToInt32(TWO_31) == -TWO_31
    ensures ToInt32(TWO_32 + 60000) == 60000
  {
  }

  /** A setter storing its (well-kinded) argument. */
  function Store(s: Settings, c: Command, v: Value): (r: Settings)
    requires IsSetter(c) && KindOk(c, v)
  {
    match c
    case SetDebugMode => s.(debug := v.b)
    case SetKeyboardMonitoring => s.(keyboard := v.b)
    case SetMouseMonitoring => s.(mouse := v.b)
    case SetControllerMonitoring => s.(controllers := v.b)
    case SetAudioMonitoring => s.(systemAudio := v.b)
    case SetAudioThreshold => s.(audioThreshold := v.f)
    case SetHIDMonitoring => s.(hid := v.b)
    case SetInactivityTimeOut => s.(inactivityThreshold := ToInt32(v.i))
  }

  /** A setting changes only through its own setter, and then to the
      argument (the timeout truncated to 32 bits). */
  lemma StoreTouchesOneSetting(s: Settings, c: Command, v: Value)
    requires IsSetter(c) && KindOk(c, v)
    ensures var r := Store(s, c, v);
      && (r.debug != s.debug ==> c == SetDebugMode && r.debug == v.b)
      && (r.keyboard != s.keyboard ==> c == SetKeyboardMonitoring && r.keyboard == v.b)
      && (r.mouse != s.mouse ==> c == SetMouseMonitoring && r.mouse == v.b)
      && (r.controllers != s.controllers ==> c == SetControllerMonitoring && r.controllers == v.b)
      && (r.systemAudio != s.systemAudio ==> c == SetAudioMonitoring && r.systemAudio == v.b)
      && (r.audioThreshold != s.audioThreshold ==> c == SetAudioThreshold && r.audioThreshold == v.f)
      && (r.hid != s.hid ==> c == SetHIDMonitoring && r.hid == v.b)
      && (r.inactivityThreshold != s.inactivityThreshold ==> c == SetInactivityTimeOut && r.inactivityThreshold == ToInt32(v.i))
  {
    match c
    case SetDebugMode =>
    case SetKeyboardMonitoring =>
    case SetMouseMonitoring =>
    case SetControllerMonitoring =>
    case SetAudioMonitoring =>
    case SetAudioThreshold =>
    case SetHIDMonitoring =>
    case SetInactivityTimeOut =>
  }

  /** The settings after a command: a setter with an argument of the right
      kind stores it; nothing else changes a setting. */
  function Configure(s: Settings, c: Command, args: Args): (r: Settings)
    ensures !IsSetter(c) || !ArgValid(c, args) ==> r == s
    ensures IsSetter(c) && ArgValid(c, args) ==> r == Store(s, c, ArgOf(c, args).value)
  {
    if IsSetter(c) && ArgValid(c, args) then Store(s, c, ArgOf(c, args).value) else s
  }

  /** Every setter is idempotent. */
  lemma ConfigureIdempotent(s: Settings, c: Command, args: Args)
    ensures Configure(Configure(s, c, args), c, args) == Configure(s, c, args)
  {
  }

  /** The devices and threads after a setter stored its argument: only
      the three subsystem toggles touch them. */
  function Toggled(d: Devices, s: Settings, c: Command, v: Value,
                   probes: seq<JsProbe>, entries: Option<seq<EvEntry>>): (r: Devices)
    requires IsSetter(c) && KindOk(c, v)
    ensures !(c.SetControllerMonitoring? || c.SetAudioMonitoring? || c.SetHIDMonitoring?) ==> r == d
  {
    match c
    case SetControllerMonitoring => ControllerToggle(d, s.controllers, v.b, probes)
    case SetHIDMonitoring => HidToggle(d, s.hid, v.b, entries)
    case SetAudioMonitoring =>
      if v.b && !s.systemAudio then d.(threads := d.threads + [AudioThread]) else d
    case _ => d
  }

  /** The devices and threads after a command. */
  function Effect(d: Devices, s: Settings, c: Command, args: Args,
                  probes: seq<JsProbe>, entries: Option<seq<EvEntry>>): (r: Devices)
    ensures !(c.SetControllerMonitoring? || c.SetAudioMonitoring? || c.SetHIDMonitoring?) || !ArgValid(c, args) ==> r == d
  {
    if IsSetter(c) && ArgValid(c, args) then Toggled(d, s, c, ArgOf(c, args).value, probes, entries) else d
  }

  /** Issuing the same command twice starts or stops nothing the second
      time, whatever a rescan would then find. */
  lemma ToggleTwiceIsQuiet(d: Devices, s: Settings, c: Command, args: Args,
                           probes: seq<JsProbe>, entries: Option<seq<EvEntry>>,
                           probes2: seq<JsProbe>, entries2: Option<seq<EvEntry>>)
    ensures var d1 := Effect(d, s, c, args, probes, entries);
      Effect(d1, Configure(s, c, args), c, args, probes2, entries2) == d1
  {
    if ArgValid(c, args) {
      match c
      case SetControllerMonitoring =>
      case SetHIDMonitoring =>
      case SetAudioMonitoring =>
      case _ =>
    }
  }

  /** The `getMonitoringStatus` map. */
  function StatusMap(st: MonitorStatus): (r: map<string, Value>)
    ensures r.Keys == {"keyboard", "mouse", "controllers", "systemAudio", "hidDevices", "userIsActive",
                       "threadCount", "inactivityThreshold", "joystickCount", "hidDeviceCount"}
    ensures r["joystickCount"] == VInt(st.joystickCount) && r["hidDeviceCount"] == VInt(st.hidDeviceCount)
  {
    map["keyboard" := VBool(st.settings.keyboard), "mouse" := VBool(st.settings.mouse),
        "controllers" := VBool(st.settings.controllers), "systemAudio" := VBool(st.settings.systemAudio),
        "hidDevices" := VBool(st.settings.hid), "userIsActive" := VBool(st.userIsActive),
        "threadCount" := VInt(st.threadCount), "inactivityThreshold" := VInt(st.settings.inactivityThreshold),
        "joystickCount" := VInt(st.joystickCount), "hidDeviceCount" := VInt(st.hidDeviceCount)]
  }

  const INVALID_ARGS: Response := Error("INVALID_ARGS", "Invalid or missing arguments")

  /** The answer to a method call, from the state before it. `shot` is the
      screenshot as encoded for a given `activeWindowOnly`, `version` the
      kernel version `uname` reports. A setter whose argument is not a map
      produces no answer of its own and falls back to `INVALID_ARGS`. */
  function Reply(c: Command, args: Args, st: MonitorStatus, shot: bool -> Option<seq<byte>>,
                 version: string): (r: Response)
    ensures r == INVALID_ARGS <==> IsSetter(c) && args.NotAMap?
    ensures r == NotImplemented <==> c == Unknown
    ensures r.Error? && r.code == "Invalid argument" <==> IsSetter(c) && args.ArgMap? && !ArgValid(c, args)
    ensures c == SetInactivityTimeOut && ArgValid(c, args) ==>
      r == Success(VInt(Configure(st.settings, c, args).inactivityThreshold))
  {
    if IsSetter(c) then
      if !args.ArgMap? then INVALID_ARGS
      else if !ArgValid(c, args) then Error("Invalid argument", ArgError(c))
      else if c == SetInactivityTimeOut then Success(VInt(ToInt32(ArgOf(c, args).value.i)))
      else Success(VNull)
    else match c
      case GetIdleThreshold => Success(VInt(st.settings.inactivityThreshold))
      case TakeScreenshotCmd =>
        var activeWindowOnly := if BoolArg(args, "activeWindowOnly").Some? then BoolArg(args, "activeWindowOnly").value else false;
        (match shot(activeWindowOnly)
         case Some(png) => Success(VBytes(png))
         case None => Error("SCREENSHOT_ERROR", "Failed to take screenshot"))
      case CheckScreenRecordingPermission => Success(VBool(true))
      case RequestScreenRecordingPermission => Success(VNull)
      case GetPlatformVersion => Success(VString("Linux " + version))
      case GetMonitoringStatus => Success(VMap(StatusMap(st)))
      case _ => NotImplemented
  }

  /** A screenshot request without a usable `activeWindowOnly` captures
      the whole root window. */
  lemma ScreenshotDefaultsToRoot(st: MonitorStatus, shot: bool -> Option<seq<byte>>, version: string)
    requires shot(false).Some?
    ensures Reply(TakeScreenshotCmd, NotAMap, st, shot, version) == Success(VBytes(shot(false).value))
    ensures Reply(TakeScreenshotCmd, ArgMap(map["activeWindowOnly" := VInt(1)]), st, shot, version) == Success(VBytes(shot(false).value))
  {
  }

  // ---------------------------------------------------------------------
  // The plugin instance
  // ---------------------------------------------------------------------

  const DEFAULT_INACTIVITY_THRESHOLD := 60000
  const DEFAULT_AUDIO_THRESHOLD: real := 0.01

  class Plugin {
    var enableDebug: bool
    var monitorKeyboard: bool
    var monitorMouse: bool
    var monitorControllers: bool
    var monitorSystemAudio: bool
    var monitorHIDDevices: bool
    /** A C `int`. */
    var inactivityThreshold: int
    var audioThreshold: real
    var userIsActive: bool
    var isShuttingDown: bool
    /** Milliseconds of the steady clock. */
    var lastActivityTime: int
    var joystickFds: seq<nat>
    var joystickEventNumbers: set<int>
    var hidDeviceFds: seq<nat>
    /** Every scanned or monitored descriptor closed so far, in closing order. */
    var closedFds: seq<nat>
    /** Every thread started so far. */
    var threads: seq<Thread>
    /** Every notice sent to the host, in order. */
    var posted: seq<Notice>
    /** The audio thread's count of consecutive detections. */
    var consecutiveDetections: nat

    function Liveness(): Activity
      reads this`userIsActive, this`lastActivityTime
    {
      Activity(userIsActive, lastActivityTime)
    }

    function Config(): Settings
      reads this`enableDebug, this`monitorKeyboard, this`monitorMouse, this`monitorControllers,
        this`monitorSystemAudio, this`monitorHIDDevices, this`inactivityThreshold, this`audioThreshold
    {
      Settings(enableDebug, monitorKeyboard, monitorMouse, monitorControllers, monitorSystemAudio,
               monitorHIDDevices, inactivityThreshold, audioThreshold)
    }

    function DeviceState(): Devices
      reads this`joystickFds, this`joystickEventNumbers, this`hidDeviceFds, this`closedFds, this`threads
    {
      Devices(joystickFds, joystickEventNumbers, hidDeviceFds, closedFds, threads)
    }

    /** `window_focus_plugin_init`: the defaults, with the clock at `now`. */
    constructor (now: int)
      ensures Config() == Settings(false, true, true, true, false, false, DEFAULT_INACTIVITY_THRESHOLD, DEFAULT_AUDIO_THRESHOLD)
      ensures Liveness() == Activity(true, now) && !isShuttingDown
      ensures DeviceState() == Devices([], {}, [], [], []) && posted == [] && consecutiveDetections == 0
    {
      enableDebug, monitorKeyboard, monitorMouse, monitorControllers := false, true, true, true;
      monitorSystemAudio, monitorHIDDevices := false, false;
      inactivityThreshold, audioThreshold := DEFAULT_INACTIVITY_THRESHOLD, DEFAULT_AUDIO_THRESHOLD;
      userIsActive, isShuttingDown, lastActivityTime := true, false, now;
      joystickFds, joystickEventNumbers, hidDeviceFds, closedFds, threads := [], {}, [], [], [];
      posted, consecutiveDetections := [], 0;
    }

    /** `report_activity`. */
    method ReportActivity(now: int)
      modifies this`userIsActive, this`lastActivityTime, this`posted
      ensures if old(isShuttingDown) then unchanged(this)
        else Liveness() == OnInput(old(Liveness()), now).0 && posted == old(posted) + OnInput(old(Liveness()), now).1
    {
      if isShuttingDown { return; }
      lastActivityTime := now;
      if !userIsActive {
        userIsActive := true;
        posted := posted + [UserActive];
      }
    }

    /** One pass of the inactivity thread after its one-second wait. */
    method InactivityTick(now: int)
      modifies this`userIsActive, this`posted
      ensures if isShuttingDown then unchanged(this)
        else Liveness() == OnTick(old(Liveness()), now, inactivityThreshold).0 &&
             posted == old(posted) + OnTick(old(Liveness()), now, inactivityThreshold).1
    {
      if isShuttingDown { return; }
      var duration := now - lastActivityTime;
      if duration > inactivityThreshold && userIsActive {
        userIsActive := false;
        posted := posted + [UserInactive];
      }
    }

    /** One pass of the audio thread: nothing while audio monitoring is off
        (the run survives), otherwise one read through the gate. */
    method AudioTick(detected: bool, now: int)
      modifies this`userIsActive, this`lastActivityTime, this`posted, this`consecutiveDetections
      ensures if isShuttingDown || !monitorSystemAudio then unchanged(this)
        else
          var (run, report) := Gate(old(consecutiveDetections), detected);
          && consecutiveDetections == run
          && (if report then Liveness() == OnInput(old(Liveness()), now).0 && posted == old(posted) + OnInput(old(Liveness()), now).1
              else Liveness() == old(Liveness()) && posted == old(posted))
    {
      if isShuttingDown || !monitorSystemAudio { return; }
      if detected {
        consecutiveDetections := consecutiveDetections + 1;
        if consecutiveDetections >= 2 {
          ReportActivity(now);
        }
      } else {
        consecutiveDetections := 0;
      }
    }

    /** `initialize_joysticks`; the 16 probes are the results for `js0` ..
        `js15`. */
    method InitializeJoysticks(probes: seq<JsProbe>)
      requires |probes| == JS_MAX_DEVICES
      modifies this`joystickFds, this`joystickEventNumbers, this`closedFds
      ensures DeviceState() == RescanJoysticks(old(DeviceState()), probes)
    {
      closedFds := closedFds + joystickFds;
      var fds, events, discarded := ScanJoysticks(probes);
      joystickFds, joystickEventNumbers := fds, events;
      closedFds := closedFds + discarded;
    }

    /** `initialize_hid_devices`; `entries` is the `/dev/input` listing
        with each node's probe, `None` when the directory cannot be opened. */
    method InitializeHidDevices(entries: Option<seq<EvEntry>>)
      modifies this`hidDeviceFds, this`closedFds
      ensures DeviceState() == RescanHid(old(DeviceState()), entries)
    {
      closedFds := closedFds + hidDeviceFds;
      hidDeviceFds := [];
      if entries.Some? {
        var fds, discarded := ScanEventNodes(entries.value, joystickEventNumbers);
        hidDeviceFds := fds;
        closedFds := closedFds + discarded;
      }
    }

    /** `close_input_devices`. */
    method CloseInputDevices()
      modifies this`joystickFds, this`joystickEventNumbers, this`hidDeviceFds, this`closedFds
      ensures joystickFds == [] && joystickEventNumbers == {} && hidDeviceFds == []
      ensures closedFds == old(closedFds) + old(joystickFds) + old(hidDeviceFds)
    {
      closedFds := closedFds + joystickFds;
      joystickFds, joystickEventNumbers := [], {};
      closedFds := closedFds + hidDeviceFds;
      hidDeviceFds := [];
    }

    /** `start_monitoring_threads`. */
    method StartMonitoringThreads(probes: seq<JsProbe>, entries: Option<seq<EvEntry>>)
      requires |probes| == JS_MAX_DEVICES
      modifies this`joystickFds, this`joystickEventNumbers, this`hidDeviceFds, this`closedFds, this`threads
      ensures DeviceState() == StartDevices(old(DeviceState()), monitorControllers, monitorHIDDevices, probes, entries)
        .(threads := old(threads) + StartThreads(monitorControllers, monitorHIDDevices, monitorSystemAudio))
    {
      if monitorControllers {
        InitializeJoysticks(probes);
      }
      if monitorHIDDevices {
        InitializeHidDevices(entries);
      }
      threads := threads + StartThreads(monitorControllers, monitorHIDDevices, monitorSystemAudio);
    }

    /** `stop_monitoring_threads`, after the wait for the threads. */
    method StopMonitoringThreads()
      modifies this`isShuttingDown, this`joystickFds, this`joystickEventNumbers, this`hidDeviceFds, this`closedFds
      ensures isShuttingDown
      ensures joystickFds == [] && joystickEventNumbers == {} && hidDeviceFds == []
      ensures closedFds == old(closedFds) + old(joystickFds) + old(hidDeviceFds)
    {
      isShuttingDown := true;
      CloseInputDevices();
    }

    /** One round of the joystick thread after `poll` returned ready
        descriptors; `ready[i]` is what descriptor `i` delivered. */
    method JoystickRound(ready: seq<Option<seq<JsEvent>>>, now: int)
      modifies this`userIsActive, this`lastActivityTime, this`posted
      ensures if !old(isShuttingDown) && RoundActive(ready, |joystickFds|, JsActivity)
        then Liveness() == OnInput(old(Liveness()), now).0 && posted == old(posted) + OnInput(old(Liveness()), now).1
        else unchanged(this)
    {
      if isShuttingDown { return; }
      var inputDetected := PollRound(ready, |joystickFds|, JsActivity);
      if inputDetected {
        ReportActivity(now);
      }
    }

    /** One round of the HID thread after `poll` returned ready descriptors. */
    method HidRound(ready: seq<Option<seq<InputEvent>>>, now: int)
      modifies this`userIsActive, this`lastActivityTime, this`posted
      ensures if !old(isShuttingDown) && RoundActive(ready, |hidDeviceFds|, EvActivity)
        then Liveness() == OnInput(old(Liveness()), now).0 && posted == old(posted) + OnInput(old(Liveness()), now).1
        else unchanged(this)
    {
      if isShuttingDown { return; }
      var inputDetected := PollRound(ready, |hidDeviceFds|, EvActivity);
      if inputDetected {
        ReportActivity(now);
      }
    }

    /** The joystick thread's periodic rescan once 30 s have passed. */
    method JoystickReinit(probes: seq<JsProbe>)
      requires |probes| == JS_MAX_DEVICES
      modifies this`joystickFds, this`joystickEventNumbers, this`closedFds
      ensures DeviceState() == if monitorControllers && !isShuttingDown
        then RescanJoysticks(old(DeviceState()), probes) else old(DeviceState())
    {
      if monitorControllers && !isShuttingDown {
        InitializeJoysticks(probes);
      }
    }

    /** The HID thread's periodic rescan once 30 s have passed. */
    method HidReinit(entries: Option<seq<EvEntry>>)
      modifies this`hidDeviceFds, this`closedFds
      ensures DeviceState() == if monitorHIDDevices && !isShuttingDown
        then RescanHid(old(DeviceState()), entries) else old(DeviceState())
    {
      if monitorHIDDevices && !isShuttingDown {
        InitializeHidDevices(entries);
      }
    }

    /** One pass of the X11 input thread. */
    method X11Tick(m: X11Monitor, keys: seq<byte>, pointer: Option<PointerQuery>, now: int)
      requires m.prevKeys.Length == |keys|
      modifies m, m.prevKeys, this`userIsActive, this`lastActivityTime, this`posted
      ensures if old(isShuttingDown) then unchanged(m, m.prevKeys) && unchanged(this) else
        var (s, detected) := X11Step(old(m.State()), monitorKeyboard, monitorMouse, keys, pointer);
        && m.State() == s
        && (if detected then Liveness() == OnInput(old(Liveness()), now).0 && posted == old(posted) + OnInput(old(Liveness()), now).1
            else Liveness() == old(Liveness()) && posted == old(posted))
    {
      if isShuttingDown { return; }
      var activityDetected := m.Poll(monitorKeyboard, monitorMouse, keys, pointer);
      if activityDetected {
        ReportActivity(now);
      }
    }

    function Status(liveThreads: int): MonitorStatus
      reads this
    {
      MonitorStatus(Config(), userIsActive, liveThreads, |joystickFds|, |hidDeviceFds|)
    }

    /** `window_focus_plugin_handle_method_call`. The operating system is
        represented by the joystick probes and `/dev/input` listing a
        rescan would see, the screenshot outcome, the `uname` version and
        the number of live threads. */
    method HandleMethodCall(name: string, args: Args, probes: seq<JsProbe>, entries: Option<seq<EvEntry>>,
                            shot: bool -> Option<seq<byte>>, version: string, liveThreads: int)
      returns (response: Response)
      requires |probes| == JS_MAX_DEVICES
      modifies this`enableDebug, this`monitorKeyboard, this`monitorMouse, this`monitorControllers,
        this`monitorSystemAudio, this`monitorHIDDevices, this`inactivityThreshold, this`audioThreshold,
        this`joystickFds, this`joystickEventNumbers, this`hidDeviceFds, this`closedFds, this`threads
      ensures var c := ParseCommand(name);
        && response == Reply(c, args, old(Status(liveThreads)), shot, version)
        && Config() == Configure(old(Config()), c, args)
        && DeviceState() == Effect(old(DeviceState()), old(Config()), c, args, probes, entries)
    {
      var c := ParseCommand(name);
      response := Reply(c, args, Status(liveThreads), shot, version);
      if IsSetter(c) && ArgValid(c, args) {
        ApplySetter(c, ArgOf(c, args).value, probes, entries);
      }
    }

    /** The effect of a setter whose argument has the right kind. */
    method ApplySetter(c: Command, v: Value, probes: seq<JsProbe>, entries: Option<seq<EvEntry>>)
      requires IsSetter(c) && KindOk(c, v) && |probes| == JS_MAX_DEVICES
      modifies this`enableDebug, this`monitorKeyboard, this`monitorMouse, this`monitorControllers,
        this`monitorSystemAudio, this`monitorHIDDevices, this`inactivityThreshold, this`audioThreshold,
        this`joystickFds, this`joystickEventNumbers, this`hidDeviceFds, this`closedFds, this`threads
      ensures Config() == Store(old(Config()), c, v)
      ensures DeviceState() == Toggled(old(DeviceState()), old(Config()), c, v, probes, entries)
    {
      if c.SetControllerMonitoring? {
        SetControllerMonitoring(v.b, probes);
      } else if c.SetAudioMonitoring? {
        SetAudioMonitoring(v.b);
      } else if c.SetHIDMonitoring? {
        SetHIDMonitoring(v.b, entries);
      } else {
        StoreSetting(c, v);
      }
    }

    /** A setter that only stores its argument. */
    method StoreSetting(c: Command, v: Value)
      requires IsSetter(c) && KindOk(c, v)
      requires !(c.SetControllerMonitoring? || c.SetAudioMonitoring? || c.SetHIDMonitoring?)
      modifies this`enableDebug, this`monitorKeyboard, this`monitorMouse, this`inactivityThreshold, this`audioThreshold
      ensures Config() == Store(old(Config()), c, v)
    {
      match c
      case SetDebugMode =>
        enableDebug := v.b;
      case SetKeyboardMonitoring =>
        monitorKeyboard := v.b;
      case SetMouseMonitoring =>
        monitorMouse := v.b;
      case SetAudioThreshold =>
        audioThreshold := v.f;
      case SetInactivityTimeOut =>
        inactivityThreshold := ToInt32(v.i);
    }

    /** `setControllerMonitoring` with a bool argument. */
    method SetControllerMonitoring(newValue: bool, probes: seq<JsProbe>)
      requires |probes| == JS_MAX_DEVICES
      modifies this`monitorControllers, this`joystickFds, this`joystickEventNumbers, this`closedFds, this`threads
      ensures Config() == old(Config()).(controllers := newValue)
      ensures DeviceState() == ControllerToggle(old(DeviceState()), old(monitorControllers), newValue, probes)
    {
      if newValue && !monitorControllers {
        InitializeJoysticks(probes);
        threads := threads + [JoystickThread];
      } else if !newValue && monitorControllers {
        closedFds := closedFds + joystickFds;
        joystickFds, joystickEventNumbers := [], {};
      }
      monitorControllers := newValue;
    }

    /** `setAudioMonitoring` with a bool argument. */
    method SetAudioMonitoring(newValue: bool)
      modifies this`monitorSystemAudio, this`threads
      ensures Config() == old(Config()).(systemAudio := newValue)
      ensures threads == old(threads) + if newValue && !old(monitorSystemAudio) then [AudioThread] else []
    {
      if newValue && !monitorSystemAudio {
        monitorSystemAudio := true;
        threads := threads + [AudioThread];
      } else {
        monitorSystemAudio := newValue;
      }
    }

    /** `setHIDMonitoring` with a bool argument. */
    method SetHIDMonitoring(newValue: bool, entries: Option<seq<EvEntry>>)
      modifies this`monitorHIDDevices, this`hidDeviceFds, this`closedFds, this`threads
      ensures Config() == old(Config()).(hid := newValue)
      ensures DeviceState() == HidToggle(old(DeviceState()), old(monitorHIDDevices), newValue, entries)
    {
      if newValue && !monitorHIDDevices {
        InitializeHidDevices(entries);
        threads := threads + [HidThread];
      } else if !newValue && monitorHIDDevices {
        closedFds := closedFds + hidDeviceFds;
        hidDeviceFds := [];
      }
      monitorHIDDevices := newValue;
    }
  }
}
