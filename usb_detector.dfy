/** UsbDetector: the orchestrator. It owns one PollingJob, registers its own path listener
    (`usbDriveListener`) with it while started, turns each path event into device events
    for its USB listeners, resolves the port of a newly connected root with bounded retry,
    and brackets each path event with detector-state notifications. The port resolver
    (`portDetector.getDeviceUSBPortLocation` for this root) is an oracle: `resolve(k)` is
    what its k-th call (from 0) does. */
module Detector {
  import opened Base
  import opened PathOrder
  import Polling

  /** UsbDetector.MAX_RETRIES. */
  const MaxRetries: nat := 5

  /** The number of resolver calls getPort makes at most. */
  const MaxAttempts: nat := MaxRetries + 1

  datatype DeviceEventType = Removed | Connected | NewDevice

  /** USBEventType: the event kind, the root directory and the port (null unless CONNECTED). */
  datatype UsbEvent = UsbEvent(kind: DeviceEventType, root: Path, port: Option<string>)

  datatype DetectorState = NewDeviceFound | NewDeviceRecognized

  /** One callback: `Consumer<DetectorState>.accept` or `USBEventListener.usbEvent`. */
  datatype Notification =
    | StateChange(listener: ListenerId, state: DetectorState)
    | DeviceEvent(listener: ListenerId, event: UsbEvent)

  /** What getPort ends with: the first returned string, null once every attempt threw
      PortDetectionException, or an unchecked exception that leaves getPort. */
  datatype PortLookup = Found(port: string) | NotFound | Escaped

  // ---------------------------------------------------------------------------
  // getPort

  /** `lookup` after `calls` resolver calls is what getPort's retry loop ends with: every
      call before the last threw PortDetectionException, and the last one either returned,
      threw something unchecked, or was the sixth. */
  predicate IsPortLookup(resolve: nat -> Outcome, lookup: PortLookup, calls: nat)
  {
    1 <= calls <= MaxAttempts &&
    (forall k :: 0 <= k < calls - 1 ==> resolve(k) == DetectionError) &&
    match lookup
    case Found(p) => resolve(calls - 1) == Port(p)
    case Escaped => resolve(calls - 1) == Unchecked
    case NotFound => calls == MaxAttempts && resolve(calls - 1) == DetectionError
  }

  /** getPort's outcome is determined by the resolver's behaviour. */
  lemma PortLookupUnique(resolve: nat -> Outcome, a: PortLookup, m: nat, b: PortLookup, n: nat)
    requires IsPortLookup(resolve, a, m) && IsPortLookup(resolve, b, n)
    ensures a == b && m == n
  {
  }

  /** getPort(deviceRootDir): `while (retryCount++ <= MAX_RETRIES)`, returning the first
      value the resolver returns and retrying only on PortDetectionException. */
  method GetPort(resolve: nat -> Outcome) returns (lookup: PortLookup, calls: nat)
    ensures IsPortLookup(resolve, lookup, calls)
  {
    var retryCount := 0;
    calls := 0;
    while true
      invariant 0 <= retryCount <= MaxAttempts && calls == retryCount
      invariant forall k :: 0 <= k < calls ==> resolve(k) == DetectionError
      decreases MaxAttempts - retryCount
    {
      var test := retryCount <= MaxRetries;
      retryCount := retryCount + 1;
      if !test {
        break;
      }
      var outcome := resolve(calls);
      calls := calls + 1;
      match outcome
      case Port(p) =>
        return Found(p), calls;
      case Unchecked =>
        return Escaped, calls;
      case DetectionError =>
    }
    lookup := NotFound;
    calls := MaxAttempts;
  }

  /** Errors on the first k attempts and a port on the next give that port (test scenario:
      k failures logged, then success). */
  lemma RetryThenSucceed(resolve: nat -> Outcome, k: nat, p: string)
    requires k <= MaxRetries
    requires forall j :: 0 <= j < k ==> resolve(j) == DetectionError
    requires resolve(k) == Port(p)
    ensures forall lookup, calls :: IsPortLookup(resolve, lookup, calls) ==> lookup == Found(p) && calls == k + 1
  {
    assert IsPortLookup(resolve, Found(p), k + 1);
    forall lookup, calls | IsPortLookup(resolve, lookup, calls) ensures lookup == Found(p) && calls == k + 1 {
      PortLookupUnique(resolve, lookup, calls, Found(p), k + 1);
    }
  }

  /** getPort returns null exactly when all six attempts threw PortDetectionException. */
  lemma NullExactlyOnExhaustion(resolve: nat -> Outcome, lookup: PortLookup, calls: nat)
    requires IsPortLookup(resolve, lookup, calls)
    ensures lookup == NotFound <==> forall k :: 0 <= k < MaxAttempts ==> resolve(k) == DetectionError
  {
    if forall k :: 0 <= k < MaxAttempts ==> resolve(k) == DetectionError {
      PortLookupUnique(resolve, lookup, calls, NotFound, MaxAttempts);
    }
    if lookup == NotFound {
      forall k | 0 <= k < MaxAttempts ensures resolve(k) == DetectionError {
        if k == calls - 1 {
          assert resolve(calls - 1) == DetectionError;
        }
      }
    }
  }

  /** A resolver that never throws PortDetectionException (the macOS one) is called once. */
  lemma NoRetryWithoutDetectionError(resolve: nat -> Outcome, lookup: PortLookup, calls: nat)
    requires forall k :: resolve(k) != DetectionError
    requires IsPortLookup(resolve, lookup, calls)
    ensures calls == 1 && lookup != NotFound
  {
    assert resolve(0) != DetectionError;
  }

  // ---------------------------------------------------------------------------
  // The path listener

  /** `fireDetectorState(state)`. */
  function Phase(ls: seq<ListenerId>, state: DetectorState): (r: seq<Notification>)
    ensures |r| == |ls|
  {
    if ls == [] then [] else Phase(ls[..|ls| - 1], state) + [StateChange(ls[|ls| - 1], state)]
  }

  /** `listeners.forEach(l -> l.usbEvent(e))`. */
  function Publish(ls: seq<ListenerId>, e: UsbEvent): (r: seq<Notification>)
    ensures |r| == |ls|
  {
    if ls == [] then [] else Publish(ls[..|ls| - 1], e) + [DeviceEvent(ls[|ls| - 1], e)]
  }

  /** The device events of one path event, given getPort's outcome for a connection. */
  function DeviceEvents(ls: seq<ListenerId>, ev: Polling.DevicePathEvent, lookup: PortLookup): seq<Notification>
  {
    if ev.kind == Polling.Connected then
      Publish(ls, UsbEvent(NewDevice, ev.path, None)) +
      (if lookup.Found? && lookup.port != "" then Publish(ls, UsbEvent(Connected, ev.path, Some(lookup.port))) else [])
    else
      Publish(ls, UsbEvent(Removed, ev.path, None))
  }

  /** Whether getPort's exception escapes the listener for this path event. */
  predicate Escapes(ev: Polling.DevicePathEvent, lookup: PortLookup)
  {
    ev.kind == Polling.Connected && lookup.Escaped?
  }

  /** Everything `usbDriveListener` calls back for one path event: NEW_DEVICE_FOUND, the
      device events, then NEW_DEVICE_RECOGNIZED unless an exception left the listener. */
  function Dispatch(states: seq<ListenerId>, ls: seq<ListenerId>, ev: Polling.DevicePathEvent, lookup: PortLookup): (r: seq<Notification>)
    ensures forall n :: n in r && n.StateChange? ==> (n.listener in states &&
      (n.state == NewDeviceFound || (n.state == NewDeviceRecognized && !Escapes(ev, lookup))))
    ensures forall n :: n in r && n.DeviceEvent? ==> (n.listener in ls &&
      if ev.kind == Polling.Connected then
        n.event == UsbEvent(NewDevice, ev.path, None) ||
        (lookup.Found? && lookup.port != "" && n.event == UsbEvent(Connected, ev.path, Some(lookup.port)))
      else n.event == UsbEvent(Removed, ev.path, None))
    ensures |states| <= |r| && r[..|states|] == Phase(states, NewDeviceFound)
  {
    PhaseMembers(states, NewDeviceFound);
    PhaseMembers(states, NewDeviceRecognized);
    PublishMembers(ls, UsbEvent(NewDevice, ev.path, None));
    PublishMembers(ls, UsbEvent(Connected, ev.path, if lookup.Found? then Some(lookup.port) else None));
    PublishMembers(ls, UsbEvent(Removed, ev.path, None));
    Phase(states, NewDeviceFound) + DeviceEvents(ls, ev, lookup) +
    (if Escapes(ev, lookup) then [] else Phase(states, NewDeviceRecognized))
  }

  lemma {:induction false} PublishCount(ls: seq<ListenerId>, e: UsbEvent, n: Notification)
    requires Distinct(ls)
    ensures multiset(Publish(ls, e))[n] == if n.DeviceEvent? && n.event == e && n.listener in ls then 1 else 0
  {
    if ls != [] {
      var init, l := ls[..|ls| - 1], ls[|ls| - 1];
      assert ls == init + [l];
      PublishCount(init, e, n);
    }
  }

  lemma {:induction false} PhaseCount(ls: seq<ListenerId>, st: DetectorState, n: Notification)
    requires Distinct(ls)
    ensures multiset(Phase(ls, st))[n] == if n.StateChange? && n.state == st && n.listener in ls then 1 else 0
  {
    if ls != [] {
      var init, l := ls[..|ls| - 1], ls[|ls| - 1];
      assert ls == init + [l];
      PhaseCount(init, st, n);
    }
  }

  lemma {:induction false} PhaseMembers(ls: seq<ListenerId>, st: DetectorState)
    ensures forall n :: n in Phase(ls, st) ==> n == StateChange(n.listener, st) && n.listener in ls
  {
    if ls != [] { PhaseMembers(ls[..|ls| - 1], st); }
  }

  lemma {:induction false} PublishMembers(ls: seq<ListenerId>, e: UsbEvent)
    ensures forall n :: n in Publish(ls, e) ==> n == DeviceEvent(n.listener, e) && n.listener in ls
  {
    if ls != [] { PublishMembers(ls[..|ls| - 1], e); }
  }

  lemma {:induction false} PhaseHoldsStates(ls: seq<ListenerId>, st: DetectorState)
    ensures forall n :: n in Phase(ls, st) ==> n.StateChange? && n.state == st
  {
    if ls != [] { PhaseHoldsStates(ls[..|ls| - 1], st); }
  }

  lemma {:induction false} PublishHoldsEvents(ls: seq<ListenerId>, e: UsbEvent)
    ensures forall n :: n in Publish(ls, e) ==> n.DeviceEvent? && n.event == e
  {
    if ls != [] { PublishHoldsEvents(ls[..|ls| - 1], e); }
  }

  /** How often `n` occurs among the callbacks of one path event, per part. */
  lemma DispatchCount(states: seq<ListenerId>, ls: seq<ListenerId>, ev: Polling.DevicePathEvent,
                      lookup: PortLookup, n: Notification)
    ensures multiset(Dispatch(states, ls, ev, lookup))[n] ==
      multiset(Phase(states, NewDeviceFound))[n] + multiset(DeviceEvents(ls, ev, lookup))[n] +
      (if Escapes(ev, lookup) then 0 else multiset(Phase(states, NewDeviceRecognized))[n])
  {
  }

  /** The device events of a connection: NEW_DEVICE once per USB listener, CONNECTED with
      the port once per listener when a non-empty port was found. */
  lemma ConnectionDeviceEvents(ls: seq<ListenerId>, ev: Polling.DevicePathEvent, lookup: PortLookup, n: Notification)
    requires Distinct(ls)
    requires ev.kind == Polling.Connected
    ensures multiset(DeviceEvents(ls, ev, lookup))[n] ==
      if n.DeviceEvent? && n.listener in ls &&
         (n.event == UsbEvent(NewDevice, ev.path, None) ||
          (lookup.Found? && lookup.port != "" && n.event == UsbEvent(Connected, ev.path, Some(lookup.port))))
      then 1 else 0
  {
    PublishCount(ls, UsbEvent(NewDevice, ev.path, None), n);
    if lookup.Found? && lookup.port != "" {
      PublishCount(ls, UsbEvent(Connected, ev.path, Some(lookup.port)), n);
    }
  }

  /** For a CONNECTED path event every USB listener gets NEW_DEVICE without a port once,
      and CONNECTED at most once: exactly when getPort found a non-empty port, and with it.
      No REMOVED is sent. */
  lemma ConnectionEvents(states: seq<ListenerId>, ls: seq<ListenerId>, ev: Polling.DevicePathEvent,
                         lookup: PortLookup, l: ListenerId, port: Option<string>)
    requires Distinct(states) && Distinct(ls) && l in ls
    requires ev.kind == Polling.Connected
    ensures multiset(Dispatch(states, ls, ev, lookup))[DeviceEvent(l, UsbEvent(NewDevice, ev.path, None))] == 1
    ensures multiset(Dispatch(states, ls, ev, lookup))[DeviceEvent(l, UsbEvent(Connected, ev.path, port))] ==
      if lookup.Found? && lookup.port != "" && port == Some(lookup.port) then 1 else 0
    ensures multiset(Dispatch(states, ls, ev, lookup))[DeviceEvent(l, UsbEvent(Removed, ev.path, port))] == 0
  {
    var n1 := DeviceEvent(l, UsbEvent(NewDevice, ev.path, None));
    var n2 := DeviceEvent(l, UsbEvent(Connected, ev.path, port));
    var n3 := DeviceEvent(l, UsbEvent(Removed, ev.path, port));
    forall n | n in {n1, n2, n3}
      ensures multiset(Dispatch(states, ls, ev, lookup))[n] == multiset(DeviceEvents(ls, ev, lookup))[n]
    {
      DispatchCount(states, ls, ev, lookup, n);
      PhaseCount(states, NewDeviceFound, n);
      PhaseCount(states, NewDeviceRecognized, n);
    }
    ConnectionDeviceEvents(ls, ev, lookup, n1);
    ConnectionDeviceEvents(ls, ev, lookup, n2);
    ConnectionDeviceEvents(ls, ev, lookup, n3);
  }

  /** For a DISCONNECTED path event every USB listener gets exactly one REMOVED without a
      port, and no other device event. */
  lemma RemovalEvents(states: seq<ListenerId>, ls: seq<ListenerId>, ev: Polling.DevicePathEvent,
                      lookup: PortLookup, n: Notification)
    requires Distinct(states) && Distinct(ls)
    requires ev.kind == Polling.Disconnected
    requires n.DeviceEvent?
    ensures multiset(Dispatch(states, ls, ev, lookup))[n] ==
      if n.listener in ls && n.event == UsbEvent(Removed, ev.path, None) then 1 else 0
  {
    DispatchCount(states, ls, ev, lookup, n);
    PhaseCount(states, NewDeviceFound, n);
    PhaseCount(states, NewDeviceRecognized, n);
    PublishCount(ls, UsbEvent(Removed, ev.path, None), n);
  }

  /** Three consecutive parts, the outer two without device events. */
  lemma {:induction false} Bracketed(a: seq<Notification>, b: seq<Notification>, c: seq<Notification>)
    requires forall n :: n in a ==> n.StateChange?
    requires forall n :: n in c ==> n.StateChange?
    ensures var s := a + b + c;
      s[..|a|] == a && s[|s| - |c|..] == c &&
      forall i :: 0 <= i < |s| && s[i].DeviceEvent? ==> |a| <= i < |s| - |c|
  {
    var s := a + b + c;
    forall i | 0 <= i < |a| ensures s[i].StateChange? {
      assert s[i] == a[i] && a[i] in a;
    }
    forall i | |s| - |c| <= i < |s| ensures s[i].StateChange? {
      assert s[i] == c[i - (|s| - |c|)] && c[i - (|s| - |c|)] in c;
    }
  }

  /** The state listeners bracket every path event, removals included: NEW_DEVICE_FOUND to
      each of them first, NEW_DEVICE_RECOGNIZED to each of them last (unless an exception
      escaped), and every device event in between. */
  lemma PhasesBracket(states: seq<ListenerId>, ls: seq<ListenerId>, ev: Polling.DevicePathEvent, lookup: PortLookup)
    ensures var sent := Dispatch(states, ls, ev, lookup);
      |sent| >= |states| && sent[..|states|] == Phase(states, NewDeviceFound) &&
      (!Escapes(ev, lookup) ==> sent[|sent| - |states|..] == Phase(states, NewDeviceRecognized)) &&
      (forall i :: 0 <= i < |sent| && sent[i].DeviceEvent? ==>
         |states| <= i && (!Escapes(ev, lookup) ==> i < |sent| - |states|))
  {
    var found := Phase(states, NewDeviceFound);
    var last := if Escapes(ev, lookup) then [] else Phase(states, NewDeviceRecognized);
    PhaseHoldsStates(states, NewDeviceFound);
    PhaseHoldsStates(states, NewDeviceRecognized);
    Bracketed(found, DeviceEvents(ls, ev, lookup), last);
  }

  /** Each state listener hears NEW_DEVICE_FOUND once per path event. */
  lemma FoundOnce(states: seq<ListenerId>, ls: seq<ListenerId>, ev: Polling.DevicePathEvent,
                  lookup: PortLookup, s: ListenerId)
    requires Distinct(states) && s in states
    ensures multiset(Dispatch(states, ls, ev, lookup))[StateChange(s, NewDeviceFound)] == 1
  {
    var n := StateChange(s, NewDeviceFound);
    DispatchCount(states, ls, ev, lookup, n);
    PhaseCount(states, NewDeviceFound, n);
    PhaseCount(states, NewDeviceRecognized, n);
    NoStateAmongDeviceEvents(ls, ev, lookup);
    assert n !in DeviceEvents(ls, ev, lookup);
  }

  /** Each state listener hears NEW_DEVICE_RECOGNIZED once per path event, unless an
      exception escaped the listener, in which case it hears none. */
  lemma RecognizedOnce(states: seq<ListenerId>, ls: seq<ListenerId>, ev: Polling.DevicePathEvent,
                       lookup: PortLookup, s: ListenerId)
    requires Distinct(states) && s in states
    ensures multiset(Dispatch(states, ls, ev, lookup))[StateChange(s, NewDeviceRecognized)] ==
      if Escapes(ev, lookup) then 0 else 1
  {
    var n := StateChange(s, NewDeviceRecognized);
    DispatchCount(states, ls, ev, lookup, n);
    PhaseCount(states, NewDeviceFound, n);
    PhaseCount(states, NewDeviceRecognized, n);
    NoStateAmongDeviceEvents(ls, ev, lookup);
    assert n !in DeviceEvents(ls, ev, lookup);
  }

  lemma NoStateAmongDeviceEvents(ls: seq<ListenerId>, ev: Polling.DevicePathEvent, lookup: PortLookup)
    ensures forall n :: n in DeviceEvents(ls, ev, lookup) ==> n.DeviceEvent?
  {
    PublishHoldsEvents(ls, UsbEvent(NewDevice, ev.path, None));
    PublishHoldsEvents(ls, UsbEvent(Removed, ev.path, None));
    if lookup.Found? {
      PublishHoldsEvents(ls, UsbEvent(Connected, ev.path, Some(lookup.port)));
    }
  }

  // ---------------------------------------------------------------------------
  // The detector

  class UsbDetector {
    /** deviceDetector. */
    const poller: Polling.PollingJob
    /** usbDriveListener, the path listener the detector registers with the poller. */
    const driveListener: ListenerId
    /** listeners: the USB event listeners. */
    var listeners: seq<ListenerId>
    /** detectorStateListeners. */
    var stateListeners: seq<ListenerId>

    ghost predicate Valid()
      reads this, poller
    {
      poller.Valid() && Distinct(listeners) && Distinct(stateListeners) &&
      (poller.listeners == [] || poller.listeners == [driveListener])
    }

    constructor (driveListener: ListenerId)
      ensures Valid() && fresh(poller)
      ensures this.driveListener == driveListener
      ensures listeners == [] && stateListeners == []
      ensures poller.listeners == [] && poller.lastRoots == []
    {
      this.driveListener := driveListener;
      poller := new Polling.PollingJob();
      listeners := [];
      stateListeners := [];
    }

    function IsStarted(): (r: bool)
      reads this, poller
      ensures r <==> driveListener in poller.listeners
    {
      poller.ContainsEventListener(driveListener)
    }

    function IsListenerExist(l: ListenerId): (r: bool)
      reads this
      ensures r <==> l in listeners
    {
      l in listeners
    }

    /** Register a USB listener unless present; true when added. */
    method AddEventListener(l: ListenerId) returns (added: bool)
      requires Valid()
      modifies this`listeners
      ensures Valid()
      ensures added == (l !in old(listeners))
      ensures listeners == if added then old(listeners) + [l] else old(listeners)
    {
      if l in listeners {
        return false;
      }
      listeners := listeners + [l];
      added := true;
    }

    /** Unregister a USB listener; true when it was registered. */
    method RemoveEventListener(l: ListenerId) returns (removed: bool)
      requires Valid()
      modifies this`listeners
      ensures Valid()
      ensures removed == (l in old(listeners))
      ensures listeners == RemoveFirst(old(listeners), l) && l !in listeners
    {
      removed := l in listeners;
      listeners := RemoveFirst(listeners, l);
    }

    /** Register a detector-state listener unless present; true when added. */
    method AddDetectorStateEventListener(l: ListenerId) returns (added: bool)
      requires Valid()
      modifies this`stateListeners
      ensures Valid()
      ensures added == (l !in old(stateListeners))
      ensures stateListeners == if added then old(stateListeners) + [l] else old(stateListeners)
    {
      if l in stateListeners {
        return false;
      }
      stateListeners := stateListeners + [l];
      added := true;
    }

    /** Unregister a detector-state listener; true when it was registered. */
    method RemoveDetectorStateEventListener(l: ListenerId) returns (removed: bool)
      requires Valid()
      modifies this`stateListeners
      ensures Valid()
      ensures removed == (l in old(stateListeners))
      ensures stateListeners == RemoveFirst(old(stateListeners), l) && l !in stateListeners
    {
      removed := l in stateListeners;
      stateListeners := RemoveFirst(stateListeners, l);
    }

    /** forceEvents: make the next tick replay every mounted root, when started and someone
        listens; true when the baseline was reset. */
    method ForceEvents() returns (ok: bool)
      requires Valid()
      modifies poller`lastRoots
      ensures Valid()
      ensures ok == (IsStarted() && listeners != [])
      ensures poller.lastRoots == if ok then [] else old(poller.lastRoots)
    {
      if !IsStarted() {
        return false;
      }
      if listeners == [] {
        return false;
      }
      poller.ResetRoots();
      ok := true;
    }

    /** start: subscribe to the poller once, then forceEvents. Starting a started detector
        changes nothing. */
    method Start()
      requires Valid()
      modifies poller
      ensures Valid() && IsStarted()
      ensures poller.listeners == [driveListener]
      ensures poller.lastRoots ==
        if !old(IsStarted()) && listeners != [] then [] else old(poller.lastRoots)
    {
      if !IsStarted() {
        var _ := poller.AddEventListener(driveListener);
        var _ := ForceEvents();
      }
    }

    /** stop: unsubscribe from the poller; the listener lists stay as they are. */
    method Stop()
      requires Valid()
      modifies poller`listeners
      ensures Valid() && !IsStarted()
      ensures poller.listeners == []
    {
      poller.RemoveEventListener(driveListener);
    }

    /** fireDetectorState(state). */
    method FireDetectorState(state: DetectorState) returns (sent: seq<Notification>)
      ensures sent == Phase(stateListeners, state)
    {
      sent := [];
      var k := 0;
      while k < |stateListeners|
        invariant 0 <= k <= |stateListeners|
        invariant sent == Phase(stateListeners[..k], state)
      {
        assert stateListeners[..k + 1][..k] == stateListeners[..k];
        sent := sent + [StateChange(stateListeners[k], state)];
        k := k + 1;
      }
      assert stateListeners[..k] == stateListeners;
    }

    /** `listeners.forEach(l -> l.usbEvent(e))`. */
    method PublishEvent(e: UsbEvent) returns (sent: seq<Notification>)
      ensures sent == Publish(listeners, e)
    {
      sent := [];
      var k := 0;
      while k < |listeners|
        invariant 0 <= k <= |listeners|
        invariant sent == Publish(listeners[..k], e)
      {
        assert listeners[..k + 1][..k] == listeners[..k];
        sent := sent + [DeviceEvent(listeners[k], e)];
        k := k + 1;
      }
      assert listeners[..k] == listeners;
    }

    /** usbDriveListener.event(ev): the callbacks made, getPort's outcome and the number of
        resolver calls. A DISCONNECTED event never calls the resolver. */
    method OnPathEvent(ev: Polling.DevicePathEvent, resolve: nat -> Outcome)
      returns (sent: seq<Notification>, lookup: PortLookup, calls: nat)
      ensures ev.kind == Polling.Connected ==> IsPortLookup(resolve, lookup, calls)
      ensures ev.kind == Polling.Disconnected ==> calls == 0
      ensures sent == Dispatch(stateListeners, listeners, ev, lookup)
    {
      var found := FireDetectorState(NewDeviceFound);
      var middle: seq<Notification>;
      lookup, calls := NotFound, 0;
      if ev.kind == Polling.Connected {
        middle := PublishEvent(UsbEvent(NewDevice, ev.path, None));
        lookup, calls := GetPort(resolve);
        if lookup.Found? && lookup.port != "" {
          var out := PublishEvent(UsbEvent(Connected, ev.path, Some(lookup.port)));
          middle := middle + out;
        } else {
          assert middle == middle + [];
        }
      } else {
        middle := PublishEvent(UsbEvent(Removed, ev.path, None));
      }
      assert middle == DeviceEvents(listeners, ev, lookup);
      if Escapes(ev, lookup) {
        sent := found + middle;
        assert sent == sent + [];
        return;
      }
      var last := FireDetectorState(NewDeviceRecognized);
      sent := found + middle + last;
    }
  }
}
