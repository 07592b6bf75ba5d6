/** The device session of `useDevice`: scanning, connecting, link checks,
    telemetry notifications and disconnecting, as one record of state and one
    transition per event. Every call into the wireless transport is an input
    outcome (resolved or threw). */
module DeviceSession {
  import opened Wrappers
  import opened Text
  import opened Types
  import RepOne
  import Validity

  /** An entry of the scan-error list: the fixed permission notice, or an
      error reported by the transport. */
  datatype ScanError = PermissionNotice(text: string) | TransportError(message: string)

  const PermissionMessage: string :=
    "You must enable location services and nearby devices permissions for this app."
  const NoDataMessage: string := "Characteristic monitor triggered but there was no data."
  const ProductName: string := "RepOne"

  /** The state `useDevice` keeps, together with the rep list it writes to.
      `subscription` is the sensor the current notification listener was made
      for and `listeners` the number of live listeners; `nextCheck` is the
      sensor the pending liveness timer will check; `storedDevice` is the last
      identity written to storage. */
  datatype Session = Session(
    scanning: bool,
    connecting: bool,
    sensor: Option<Device>,
    connectError: Option<string>,
    errors: seq<ScanError>,
    devices: seq<Device>,
    log: seq<string>,
    reps: seq<Rep>,
    lastRepRecordedAt: Option<int>,
    rssi: Option<int>,
    subscription: Option<Device>,
    listeners: nat,
    nextCheck: Option<Device>,
    storedDevice: Option<DeviceInfo>)

  const Initial: Session :=
    Session(
      scanning := false, connecting := false, sensor := None, connectError := None,
      errors := [], devices := [], log := [], reps := [],
      lastRepRecordedAt := None, rssi := None,
      subscription := None, listeners := 0, nextCheck := None, storedDevice := None)

  /* ---------------------------------------------------------------- scan */

  /** `stopScan`: the transport stops scanning and the flag is cleared. */
  function StopScan(s: Session): (r: Session)
    ensures !r.scanning
    ensures r.(scanning := s.scanning) == s
  {
    s.(scanning := false)
  }

  /** `scanForDevices`: scanning starts and earlier scan errors are dropped;
      the candidate list is kept. */
  function ScanForDevices(s: Session): (r: Session)
    ensures r.scanning && r.errors == []
    ensures r.devices == s.devices && r.sensor == s.sensor && r.log == s.log && r.reps == s.reps
    ensures r.(scanning := s.scanning, errors := s.errors) == s
  {
    s.(scanning := true, errors := [])
  }

  /** The scan error is one the user fixes by granting permissions. */
  predicate IsPermissionError(message: string) {
    Contains(message, "Device is not authorized") || Contains(message, "Cannot start scanning operation")
  }

  /** The advertised name marks a sensor of the product family. */
  predicate IsCandidate(d: Device) {
    d.name.Some? && Contains(d.name.value, ProductName)
  }

  predicate NamesUnique(xs: seq<Device>) {
    forall i, j :: 0 <= i < j < |xs| ==> xs[i].name != xs[j].name
  }

  /** The devices of `xs` whose name is not `name`, in order. */
  function WithoutName(xs: seq<Device>, name: Option<string>): (r: seq<Device>)
    ensures forall d :: d in r <==> d in xs && d.name != name
    ensures |r| <= |xs|
    ensures Validity.IsSubsequence(r, xs)
    decreases |xs|
  {
    if |xs| == 0 then []
    else
      var rest := WithoutName(xs[1..], name);
      assert xs == [xs[0]] + xs[1..];
      if xs[0].name == name then
        Validity.SubsequenceSkipHead(xs[0], rest, xs[1..]);
        rest
      else
        Validity.SubsequenceKeepHead(xs[0], rest, xs[1..]);
        [xs[0]] + rest
  }

  /** lodash `uniqBy(xs, d => d.name)`, skipping the names in `seen`: the
      first device of each name is kept, in order. */
  function UniqByNameFrom(xs: seq<Device>, seen: set<Option<string>>): (r: seq<Device>)
    ensures NamesUnique(r)
    ensures forall i :: 0 <= i < |r| ==> r[i] in xs && r[i].name !in seen
    decreases |xs|
  {
    if |xs| == 0 then []
    else if xs[0].name in seen then UniqByNameFrom(xs[1..], seen)
    else
      var rest := UniqByNameFrom(xs[1..], seen + {xs[0].name});
      assert forall i :: 0 <= i < |rest| ==> rest[i].name != xs[0].name;
      [xs[0]] + rest
  }

  /** No device before position `i` has the name of the device at `i`. */
  predicate FirstOfName(xs: seq<Device>, i: int)
    requires 0 <= i < |xs|
  {
    forall k :: 0 <= k < i ==> xs[k].name != xs[i].name
  }

  /** lodash `uniqBy(xs, d => d.name)`: distinct names, all from `xs`, and
      the first device of every name is kept. */
  function UniqByName(xs: seq<Device>): (r: seq<Device>)
    ensures NamesUnique(r)
    ensures forall i :: 0 <= i < |r| ==> r[i] in xs
    ensures forall i :: 0 <= i < |xs| && FirstOfName(xs, i) ==> xs[i] in r
    ensures Validity.IsSubsequence(r, xs)
  {
    UniqFromIsSubsequence(xs, {});
    forall i | 0 <= i < |xs| && FirstOfName(xs, i)
      ensures xs[i] in UniqByNameFrom(xs, {})
    {
      UniqByNameKeepsFirst(xs, {}, i);
    }
    UniqByNameFrom(xs, {})
  }

  /** No name is lost: every device whose name is not skipped has a
      namesake in the result. */
  lemma {:induction false} UniqByNameKeepsEveryName(xs: seq<Device>, seen: set<Option<string>>, i: int)
    requires 0 <= i < |xs| && xs[i].name !in seen
    ensures exists j :: 0 <= j < |UniqByNameFrom(xs, seen)| && UniqByNameFrom(xs, seen)[j].name == xs[i].name
    decreases |xs|
  {
    var r := UniqByNameFrom(xs, seen);
    if xs[0].name == xs[i].name {
      assert r[0] == xs[0];
    } else {
      var seen' := if xs[0].name in seen then seen else seen + {xs[0].name};
      assert xs[1..][i - 1] == xs[i];
      UniqByNameKeepsEveryName(xs[1..], seen', i - 1);
      var rest := UniqByNameFrom(xs[1..], seen');
      var j :| 0 <= j < |rest| && rest[j].name == xs[i].name;
      if xs[0].name in seen {
        assert r[j] == rest[j];
      } else {
        assert r[j + 1] == rest[j];
      }
    }
  }

  /** The device kept for a name is its first occurrence. */
  lemma {:induction false} UniqByNameKeepsFirst(xs: seq<Device>, seen: set<Option<string>>, i: int)
    requires 0 <= i < |xs| && xs[i].name !in seen
    requires forall k :: 0 <= k < i ==> xs[k].name != xs[i].name
    ensures xs[i] in UniqByNameFrom(xs, seen)
    decreases |xs|
  {
    if i > 0 {
      var seen' := if xs[0].name in seen then seen else seen + {xs[0].name};
      forall k | 0 <= k < i - 1
        ensures xs[1..][k].name != xs[1..][i - 1].name
      {
        assert xs[1..][k] == xs[k + 1];
      }
      UniqByNameKeepsFirst(xs[1..], seen', i - 1);
    }
  }

  /** The devices kept appear in input order. */
  lemma {:induction false} UniqFromIsSubsequence(xs: seq<Device>, seen: set<Option<string>>)
    ensures Validity.IsSubsequence(UniqByNameFrom(xs, seen), xs)
    decreases |xs|
  {
    if |xs| > 0 {
      assert xs == [xs[0]] + xs[1..];
      if xs[0].name in seen {
        UniqFromIsSubsequence(xs[1..], seen);
        Validity.SubsequenceSkipHead(xs[0], UniqByNameFrom(xs[1..], seen), xs[1..]);
      } else {
        UniqFromIsSubsequence(xs[1..], seen + {xs[0].name});
        Validity.SubsequenceKeepHead(xs[0], UniqByNameFrom(xs[1..], seen + {xs[0].name}), xs[1..]);
      }
    }
  }

  /** A tail of a list with unique names has unique names, none of them the
      head's. */
  lemma TailNamesUnique(xs: seq<Device>)
    requires |xs| > 0 && NamesUnique(xs)
    ensures NamesUnique(xs[1..])
    ensures forall i :: 0 <= i < |xs[1..]| ==> xs[1..][i].name != xs[0].name
  {
    forall i, j | 0 <= i < j < |xs[1..]|
      ensures xs[1..][i].name != xs[1..][j].name
    {
      assert xs[1..][i] == xs[i + 1] && xs[1..][j] == xs[j + 1];
    }
  }

  /** Adding to `seen` a name that does not occur in `xs` changes nothing. */
  lemma {:induction false} UniqFromGrow(xs: seq<Device>, seen: set<Option<string>>, extra: Option<string>)
    requires forall i :: 0 <= i < |xs| ==> xs[i].name != extra
    ensures UniqByNameFrom(xs, seen + {extra}) == UniqByNameFrom(xs, seen)
    decreases |xs|
  {
    if |xs| > 0 {
      assert xs[0].name != extra;
      assert forall i :: 0 <= i < |xs[1..]| ==> xs[1..][i].name != extra by {
        forall i | 0 <= i < |xs[1..]|
          ensures xs[1..][i].name != extra
        {
          assert xs[1..][i] == xs[i + 1];
        }
      }
      if xs[0].name in seen {
        UniqFromGrow(xs[1..], seen, extra);
      } else {
        UniqFromGrow(xs[1..], seen + {xs[0].name}, extra);
        assert seen + {extra} + {xs[0].name} == seen + {xs[0].name} + {extra};
      }
    }
  }

  /** On a list whose names are already unique, skipping one name is
      dropping the devices with that name. */
  lemma {:induction false} UniqFromUnique(xs: seq<Device>, name: Option<string>)
    requires NamesUnique(xs)
    ensures UniqByNameFrom(xs, {name}) == WithoutName(xs, name)
    decreases |xs|
  {
    if |xs| > 0 {
      TailNamesUnique(xs);
      UniqFromUnique(xs[1..], name);
      if xs[0].name != name {
        UniqFromGrow(xs[1..], {name}, xs[0].name);
      }
    }
  }

  /** A new candidate goes to the head of a list with unique names, and the
      older entry with its name, if any, is dropped. */
  lemma NewestCandidateFirst(d: Device, devices: seq<Device>)
    ensures NamesUnique(devices) ==> UniqByName([d] + devices) == [d] + WithoutName(devices, d.name)
  {
    if NamesUnique(devices) {
      var xs := [d] + devices;
      assert xs[0] == d && xs[1..] == devices;
      assert {} + {d.name} == {d.name};
      assert UniqByNameFrom(xs, {}) == [d] + UniqByNameFrom(devices, {d.name});
      UniqFromUnique(devices, d.name);
    }
  }

  /** The scan callback: an error either replaces the list with the
      permission notice or is appended to it; a device of the product family
      goes to the head of the candidate list, replacing any older entry with
      the same name; anything else is ignored. */
  function OnScanResult(s: Session, error: Option<string>, device: Option<Device>): (r: Session)
    ensures error.Some? && IsPermissionError(error.value) ==> r.errors == [PermissionNotice(PermissionMessage)]
    ensures error.Some? && !IsPermissionError(error.value) ==> r.errors == s.errors + [TransportError(error.value)]
    ensures error.Some? ==> r.devices == s.devices
    ensures error.None? ==> r.errors == s.errors
    ensures error.None? && device.Some? && IsCandidate(device.value) && NamesUnique(s.devices) ==>
      r.devices == [device.value] + WithoutName(s.devices, device.value.name)
    ensures error.None? && !(device.Some? && IsCandidate(device.value)) ==> r.devices == s.devices
    ensures NamesUnique(r.devices) || r.devices == s.devices
    ensures r.(errors := s.errors, devices := s.devices) == s
  {
    match error
    case Some(message) =>
      if IsPermissionError(message) then s.(errors := [PermissionNotice(PermissionMessage)])
      else s.(errors := s.errors + [TransportError(message)])
    case None =>
      if device.Some? && IsCandidate(device.value) then
        var d := device.value;
        NewestCandidateFirst(d, s.devices);
        s.(devices := UniqByName([d] + s.devices))
      else s
  }

  /* ------------------------------------------------------------- connect */

  /** The connect chain `connect` → `discoverAllServicesAndCharacteristics`
      → `requestConnectionPriority`: the first call that throws ends it. */
  datatype ConnectSteps = ConnectSteps(open: Attempt<Device>, discover: Attempt<Device>, priority: Attempt<Device>)

  function Settle(c: ConnectSteps): (r: Attempt<Device>)
    ensures r.Ok? <==> c.open.Ok? && c.discover.Ok? && c.priority.Ok?
    ensures c.open.Ok? && c.discover.Ok? ==> r == c.priority
    ensures c.open.Threw? ==> r == c.open
    ensures c.open.Ok? && c.discover.Threw? ==> r == c.discover
  {
    if c.open.Threw? then c.open
    else if c.discover.Threw? then c.discover
    else c.priority
  }

  /** Start of `connect(d)`: connecting is flagged and scanning stopped
      before the transport is called. */
  function ConnectBegin(s: Session): (r: Session)
    ensures r.connecting && !r.scanning
    ensures r.sensor == s.sensor && r.devices == s.devices && r.connectError == s.connectError
    ensures r == s.(connecting := true, scanning := false)
  {
    StopScan(s.(connecting := true))
  }

  /** End of `connect(d)`: on success the sensor is set and its identity
      stored; on any failure the error is recorded and the sensor cleared. */
  function ConnectSettled(s: Session, steps: ConnectSteps): (r: Session)
    ensures !r.connecting
    ensures Settle(steps).Ok? ==>
      && r.sensor == Some(Settle(steps).value)
      && r.storedDevice == Some(DeviceInfo(Settle(steps).value.name, Settle(steps).value.id))
      && r.connectError == s.connectError
    ensures Settle(steps).Threw? ==>
      r.sensor.None? && r.connectError == Some(Settle(steps).message) && r.storedDevice == s.storedDevice
    ensures r.scanning == s.scanning && r.reps == s.reps && r.log == s.log
    ensures Settle(steps).Ok? ==>
      var v := Settle(steps).value;
      r == s.(sensor := Some(v), storedDevice := Some(DeviceInfo(v.name, v.id)), connecting := false)
    ensures Settle(steps).Threw? ==>
      r == s.(connectError := Some(Settle(steps).message), sensor := None, connecting := false)
  {
    match Settle(steps)
    case Ok(device) =>
      s.(sensor := Some(device), storedDevice := Some(DeviceInfo(device.name, device.id)), connecting := false)
    case Threw(message) =>
      s.(connectError := Some(message), sensor := None, connecting := false)
  }

  /** `lastDevice?.id` is truthy: a stored identity with a non-empty id. */
  predicate HasStoredId(lastDevice: Option<DeviceInfo>) {
    lastDevice.Some? && lastDevice.value.id != ""
  }

  /** Start of `connectDirect()`: without a stored id nothing happens. */
  function ConnectDirectBegin(s: Session, lastDevice: Option<DeviceInfo>): (r: Session)
    ensures !HasStoredId(lastDevice) ==> r == s
    ensures HasStoredId(lastDevice) ==> r.connecting && !r.scanning && r.sensor == s.sensor
    ensures HasStoredId(lastDevice) ==> r == s.(connecting := true, scanning := false)
  {
    if HasStoredId(lastDevice) then ConnectBegin(s) else s
  }

  /** End of `connectDirect()`: like `connect`, except that the identity is
      not stored again and a success clears the previous connect error. */
  function ConnectDirectSettled(s: Session, lastDevice: Option<DeviceInfo>, steps: ConnectSteps): (r: Session)
    ensures !HasStoredId(lastDevice) ==> r == s
    ensures HasStoredId(lastDevice) ==> !r.connecting && r.storedDevice == s.storedDevice
    ensures HasStoredId(lastDevice) && Settle(steps).Ok? ==>
      r.sensor == Some(Settle(steps).value) && r.connectError.None?
    ensures HasStoredId(lastDevice) && Settle(steps).Threw? ==>
      r.sensor.None? && r.connectError == Some(Settle(steps).message)
    ensures r.reps == s.reps && r.log == s.log && r.scanning == s.scanning
    ensures HasStoredId(lastDevice) && Settle(steps).Ok? ==>
      r == s.(sensor := Some(Settle(steps).value), connecting := false, connectError := None)
    ensures HasStoredId(lastDevice) && Settle(steps).Threw? ==>
      r == s.(connectError := Some(Settle(steps).message), sensor := None, connecting := false)
  {
    if !HasStoredId(lastDevice) then s
    else
      match Settle(steps)
      case Ok(device) => s.(sensor := Some(device), connecting := false, connectError := None)
      case Threw(message) => s.(connectError := Some(message), sensor := None, connecting := false)
  }

  /* -------------------------------------------------------- link checks */

  /** What the awaited `isConnected` / `readRSSI` calls did. */
  datatype CheckOutcome = Alive(rssi: Option<int>) | NotAlive | CheckThrew(message: string)

  /** One run of `checkConnection(checked)`, where `checked` is the sensor the
      check was started for. A check that does not throw schedules the next
      one, a second later, for the same sensor. */
  function CheckConnection(s: Session, checked: Option<Device>, outcome: CheckOutcome): (r: Session)
    ensures checked.None? ==> r.sensor.None? && r.nextCheck.None? && r.log == s.log
    ensures checked.Some? && outcome.Alive? ==>
      r.rssi == outcome.rssi && r.sensor == s.sensor && r.nextCheck == checked && r.log == s.log
    ensures checked.Some? && outcome.NotAlive? ==>
      r.sensor.None? && r.rssi == s.rssi && r.nextCheck == checked && r.log == s.log
    ensures checked.Some? && outcome.CheckThrew? ==>
      r.log == s.log + [outcome.message] && r.sensor == s.sensor && r.nextCheck.None?
    ensures r.reps == s.reps && r.devices == s.devices && r.subscription == s.subscription
    ensures checked.None? ==> r == s.(sensor := None, nextCheck := None)
    ensures checked.Some? && outcome.Alive? ==> r == s.(rssi := outcome.rssi, nextCheck := checked)
    ensures checked.Some? && outcome.NotAlive? ==> r == s.(sensor := None, nextCheck := checked)
    ensures checked.Some? && outcome.CheckThrew? ==>
      r == s.(log := s.log + [outcome.message], nextCheck := None)
  {
    match checked
    case None => s.(sensor := None, nextCheck := None)
    case Some(_) =>
      match outcome
      case Alive(rssi) => s.(rssi := rssi, nextCheck := checked)
      case NotAlive => s.(sensor := None, nextCheck := checked)
      case CheckThrew(message) => s.(log := s.log + [message], nextCheck := None)
  }

  /* ------------------------------------------------------ notifications */

  /** `watchForData` on the current sensor: the previous listener is removed
      before a new one is made. */
  function WatchForData(s: Session): (r: Session)
    ensures s.sensor.None? ==> r == s
    ensures s.sensor.Some? ==> r.subscription == s.sensor
    ensures s.sensor.Some? && s.listeners == (if s.subscription.Some? then 1 else 0) ==> r.listeners == 1
    ensures r.reps == s.reps && r.log == s.log && r.sensor == s.sensor
    ensures r.(subscription := s.subscription, listeners := s.listeners) == s
  {
    match s.sensor
    case None => s
    case Some(_) =>
      var remaining := if s.subscription.Some? && s.listeners > 0 then s.listeners - 1 else s.listeners;
      s.(subscription := s.sensor, listeners := remaining + 1)
  }

  /** What the notification listener is called with. */
  datatype Notification = MonitorError(message: string) | Characteristic(payload: RepOne.Payload)

  /** The notification listener, called at clock value `now`. Nothing is
      delivered while no listener exists. */
  function OnNotification(s: Session, n: Notification, now: int): (r: Session)
    ensures s.subscription.None? ==> r == s
    ensures s.subscription.Some? && n.MonitorError? ==>
      r == s.(log := s.log + ["Error monitoring", n.message])
    ensures s.subscription.Some? && n == Characteristic(RepOne.NoValue) ==>
      r == s.(log := s.log + [NoDataMessage])
    ensures s.subscription.Some? && n.Characteristic? && n.payload.Value? ==>
      |r.log| == |s.log| + 1 && r.log[..|s.log|] == s.log
    ensures s.subscription.Some? && n.Characteristic? && n.payload.Value? && |n.payload.bytes| % 2 == 1 ==>
      r == s.(log := s.log + [RepOne.OddLengthMessage])
    ensures s.subscription.Some? && n.Characteristic? && n.payload.Value? && |n.payload.bytes| % 2 == 0 ==>
      |r.reps| == |s.reps| + 1 && r.reps[1..] == s.reps
      && r.reps[0].recordedAt == now && r.lastRepRecordedAt == Some(now)
    ensures s.subscription.Some? && n.Characteristic? && n.payload.Value? && |n.payload.bytes| % 2 == 0 ==>
      var d := RepOne.GetRepDataFromChar(n.payload, now);
      r == s.(log := s.log + [d.line], lastRepRecordedAt := Some(now), reps := [d.rep] + s.reps)
    ensures r.sensor == s.sensor && r.devices == s.devices && r.subscription == s.subscription
  {
    if s.subscription.None? then s
    else
      match n
      case MonitorError(message) => s.(log := s.log + ["Error monitoring", message])
      case Characteristic(payload) =>
        if payload.NoValue? then s.(log := s.log + [NoDataMessage])
        else
          match RepOne.GetRepDataFromChar(payload, now)
          case NoRep => s
          case Malformed(message) => s.(log := s.log + [message])
          case Decoded(rep, line) =>
            s.(log := s.log + [line], lastRepRecordedAt := Some(rep.recordedAt), reps := [rep] + s.reps)
  }

  /* ---------------------------------------------------------- disconnect */

  /** `disconnect()`: cancels the connection of the current sensor, if any.
      `cancel` is what the awaited `cancelConnection` did. */
  function Disconnect(s: Session, cancel: Attempt<()>): (r: Session)
    ensures s.sensor.None? ==> r == s
    ensures s.sensor.Some? && cancel.Ok? ==> r == s.(sensor := None)
    ensures s.sensor.Some? && cancel.Threw? ==>
      r == s.(log := s.log + ["Failed to disconnect", cancel.message])
    ensures r.reps == s.reps && r.devices == s.devices
  {
    match s.sensor
    case None => s
    case Some(_) =>
      match cancel
      case Ok(_) => s.(sensor := None)
      case Threw(message) => s.(log := s.log + ["Failed to disconnect", message])
  }

  /** The `onDisconnected` callback: only a disconnect that carries an error
      is logged (a disconnect without one is the app's own cancel). */
  function OnDisconnected(s: Session, error: Option<string>): (r: Session)
    ensures error.None? ==> r == s
    ensures error.Some? ==> r == s.(log := s.log + ["Disconnected", error.value])
  {
    match error
    case None => s
    case Some(message) => s.(log := s.log + ["Disconnected", message])
  }

  /** `onClickNewSet`: the rep list is emptied; nothing else changes. */
  function NewSet(s: Session): (r: Session)
    ensures r.reps == [] && r.(reps := s.reps) == s
  {
    s.(reps := [])
  }

  /* ----------------------------------------------------------- events */

  datatype Event =
    | StartScan
    | ScanResult(error: Option<string>, device: Option<Device>)
    | StopScanRequested
    | Connect(steps: ConnectSteps)
    | ConnectDirect(lastDevice: Option<DeviceInfo>, steps: ConnectSteps)
    | ConnectionChecked(checked: Option<Device>, outcome: CheckOutcome)
    | SensorChanged
    | Notified(notification: Notification, now: int)
    | DisconnectRequested(cancel: Attempt<()>)
    | DisconnectedCallback(error: Option<string>)
    | NewSetClicked

  /** One event, with `connect` and `connectDirect` run to completion. */
  function Step(s: Session, e: Event): (r: Session)
    ensures !e.ScanResult? ==> r.devices == s.devices
    ensures !e.Notified? && !e.NewSetClicked? ==> r.reps == s.reps
    ensures e.Notified? ==> r.sensor == s.sensor && r.subscription == s.subscription
    ensures e.NewSetClicked? ==> r.reps == []
  {
    match e
    case StartScan => ScanForDevices(s)
    case ScanResult(error, device) => OnScanResult(s, error, device)
    case StopScanRequested => StopScan(s)
    case Connect(steps) => ConnectSettled(ConnectBegin(s), steps)
    case ConnectDirect(lastDevice, steps) =>
      ConnectDirectSettled(ConnectDirectBegin(s, lastDevice), lastDevice, steps)
    case ConnectionChecked(checked, outcome) => CheckConnection(s, checked, outcome)
    case SensorChanged => WatchForData(s)
    case Notified(n, now) => OnNotification(s, n, now)
    case DisconnectRequested(cancel) => Disconnect(s, cancel)
    case DisconnectedCallback(error) => OnDisconnected(s, error)
    case NewSetClicked => NewSet(s)
  }

  function Run(s: Session, events: seq<Event>): Session
    decreases |events|
  {
    if |events| == 0 then s else Run(Step(s, events[0]), events[1..])
  }

  /* ----------------------------------------------------------- properties */

  /** Every measurement present in a decoded rep comes after all earlier
      positions being present: a payload is cut short, never holed. */
  predicate PrefixFields(r: Rep) {
    forall j, k :: 0 <= j < k < 10 && Field(r, k).Some? ==> Field(r, j).Some?
  }

  /** What holds in every reachable session: candidates are product-family
      sensors with distinct names, at most one notification listener exists
      (exactly one once a subscription was made), and every rep was decoded
      from a cut-short-not-holed payload. */
  predicate Valid(s: Session) {
    && NamesUnique(s.devices)
    && (forall i :: 0 <= i < |s.devices| ==> IsCandidate(s.devices[i]))
    && s.listeners == (if s.subscription.Some? then 1 else 0)
    && (forall i :: 0 <= i < |s.reps| ==> PrefixFields(s.reps[i]))
  }

  lemma DecodedRepHasPrefixFields(p: RepOne.Payload, now: int)
    requires RepOne.GetRepDataFromChar(p, now).Decoded?
    ensures PrefixFields(RepOne.GetRepDataFromChar(p, now).rep)
  {
  }

  /** A scan result keeps the candidates distinct and of the product family. */
  lemma ScanResultKeepsValid(s: Session, error: Option<string>, device: Option<Device>)
    requires Valid(s)
    ensures Valid(OnScanResult(s, error, device))
  {
    var r := OnScanResult(s, error, device);
    if error.None? && device.Some? && IsCandidate(device.value) {
      forall i | 0 <= i < |r.devices|
        ensures IsCandidate(r.devices[i])
      {
        assert r.devices[i] in [device.value] + s.devices;
      }
    }
  }

  /** A notification keeps the session invariant. */
  lemma NotificationKeepsValid(s: Session, n: Notification, now: int)
    requires Valid(s)
    ensures Valid(OnNotification(s, n, now))
  {
    if s.subscription.Some? && n.Characteristic? && n.payload.Value? && |n.payload.bytes| % 2 == 0 {
      DecodedRepHasPrefixFields(n.payload, now);
      var r := OnNotification(s, n, now);
      forall i | 0 <= i < |r.reps|
        ensures PrefixFields(r.reps[i])
      {
        if i > 0 {
          assert r.reps[i] == s.reps[i - 1];
        }
      }
    }
  }

  /** Every event keeps the session valid. */
  lemma StepKeepsValid(s: Session, e: Event)
    requires Valid(s)
    ensures Valid(Step(s, e))
  {
    match e
    case ScanResult(error, device) => ScanResultKeepsValid(s, error, device);
    case Notified(n, now) => NotificationKeepsValid(s, n, now);
    case _ =>
  }

  /** Every session reached from the initial one by any events is valid. */
  lemma {:induction false} RunKeepsValid(s: Session, events: seq<Event>)
    requires Valid(s)
    ensures Valid(Run(s, events))
    decreases |events|
  {
    if |events| > 0 {
      StepKeepsValid(s, events[0]);
      RunKeepsValid(Step(s, events[0]), events[1..]);
    }
  }

  lemma ReachableValid(events: seq<Event>)
    ensures Valid(Run(Initial, events))
    ensures Run(Initial, events).listeners <= 1
  {
    RunKeepsValid(Initial, events);
  }

  /** Apart from a new set, an event never reorders or drops reps: the old
      list is what follows the new head, if any. */
  lemma StepKeepsRepOrder(s: Session, e: Event)
    requires !e.NewSetClicked?
    ensures var r := Step(s, e).reps;
      r == s.reps || (|r| == |s.reps| + 1 && r[1..] == s.reps)
  {
  }

  /** `disconnect()` is idempotent: once it has succeeded, calling it again,
      whatever the transport would do, changes nothing. */
  lemma DisconnectIdempotent(s: Session, again: Attempt<()>)
    ensures Disconnect(Disconnect(s, Ok(())), again) == Disconnect(s, Ok(()))
  {
  }

  /** A rep decoded from a valid session's list has its average velocity
      whenever it has a range of motion. */
  lemma RomImpliesVelocity(s: Session, i: int)
    requires Valid(s) && 0 <= i < |s.reps|
    ensures s.reps[i].rom.Some? ==> s.reps[i].averageVelocity.Some?
  {
    assert PrefixFields(s.reps[i]);
    assert Field(s.reps[i], 3) == s.reps[i].rom;
    assert Field(s.reps[i], 2) == s.reps[i].averageVelocity;
  }
}
