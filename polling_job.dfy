/** PollingJob: the background poller that lists the mounted roots on every tick, compares
    them with the roots it saw last, and tells its path listeners which roots appeared and
    which disappeared. One iteration of its `run` loop is `PollingJob.Tick`; the listing
    itself (File.listRoots, /Volumes) is the tick's argument. */
module Polling {
  import opened Base
  import opened PathOrder

  datatype DevicePathEventType = Connected | Disconnected

  datatype DevicePathEvent = DevicePathEvent(kind: DevicePathEventType, path: Path)

  /** One call `listener.event(event)`. */
  datatype Delivery = Delivery(listener: ListenerId, event: DevicePathEvent)

  // ---------------------------------------------------------------------------
  // The specification of detectDevice

  /** The paths of `s` that `other` lacks, each once, in order of first occurrence:
      `new HashSet<>(s)` after `removeAll(other)`. */
  function Missing(s: seq<Path>, other: seq<Path>): (r: seq<Path>)
    ensures forall p :: p in r <==> p in s && p !in other
    ensures Distinct(r)
  {
    if s == [] then [] else
      var init, p := s[..|s| - 1], s[|s| - 1];
      assert s == init + [p];
      Missing(init, other) + (if p !in other && p !in init then [p] else [])
  }

  /** The events that should be announced for a change in kind `kind` of the paths `ps`. */
  function Announce(kind: DevicePathEventType, ps: seq<Path>): (r: seq<DevicePathEvent>)
    ensures |r| == |ps|
    ensures forall i :: 0 <= i < |ps| ==> r[i] == DevicePathEvent(kind, ps[i])
  {
    if ps == [] then [] else Announce(kind, ps[..|ps| - 1]) + [DevicePathEvent(kind, ps[|ps| - 1])]
  }

  /** The changes between the baseline and a new listing: connected = new - old,
      then disconnected = old - new. */
  function DiffEvents(oldRoots: seq<Path>, newRoots: seq<Path>): (r: seq<DevicePathEvent>)
    ensures forall i :: 0 <= i < |r| ==> Changed(oldRoots, newRoots, r[i])
  {
    Announce(Connected, Missing(newRoots, oldRoots)) + Announce(Disconnected, Missing(oldRoots, newRoots))
  }

  /** Whether `e` describes a change from `oldRoots` to `newRoots`. */
  predicate Changed(oldRoots: seq<Path>, newRoots: seq<Path>, e: DevicePathEvent)
  {
    match e.kind
    case Connected => e.path in newRoots && e.path !in oldRoots
    case Disconnected => e.path in oldRoots && e.path !in newRoots
  }

  /** `listeners.forEach(l -> l.event(e))`. */
  function Broadcast(ls: seq<ListenerId>, e: DevicePathEvent): (r: seq<Delivery>)
    ensures |r| == |ls|
  {
    if ls == [] then [] else Broadcast(ls[..|ls| - 1], e) + [Delivery(ls[|ls| - 1], e)]
  }

  /** Every event, in order, to every listener: the nested forEach of detectDevice. */
  function Fanout(ls: seq<ListenerId>, es: seq<DevicePathEvent>): seq<Delivery>
  {
    if es == [] then [] else Fanout(ls, es[..|es| - 1]) + Broadcast(ls, es[|es| - 1])
  }

  // ---------------------------------------------------------------------------
  // Properties of the specification

  lemma {:induction false} AnnounceCount(kind: DevicePathEventType, ps: seq<Path>, e: DevicePathEvent)
    requires Distinct(ps)
    ensures multiset(Announce(kind, ps))[e] == if e.kind == kind && e.path in ps then 1 else 0
  {
    if ps != [] {
      var init, p := ps[..|ps| - 1], ps[|ps| - 1];
      assert ps == init + [p];
      AnnounceCount(kind, init, e);
      assert p !in init;
    }
  }

  /** Each change is announced exactly once and nothing else is: CONNECTED for the roots in
      the new listing only, DISCONNECTED for the roots in the baseline only. */
  lemma DiffCount(oldRoots: seq<Path>, newRoots: seq<Path>, e: DevicePathEvent)
    ensures multiset(DiffEvents(oldRoots, newRoots))[e] == if Changed(oldRoots, newRoots, e) then 1 else 0
  {
    AnnounceCount(Connected, Missing(newRoots, oldRoots), e);
    AnnounceCount(Disconnected, Missing(oldRoots, newRoots), e);
  }

  lemma {:induction false} MissingNone(s: seq<Path>, other: seq<Path>)
    requires forall p :: p in s ==> p in other
    ensures Missing(s, other) == []
  {
    if s != [] {
      assert s[|s| - 1] in s;
      assert forall p :: p in s[..|s| - 1] ==> p in s;
      MissingNone(s[..|s| - 1], other);
    }
  }

  /** Listings with the same roots produce no events (in particular a listing equal to
      the baseline, which `run` does not even pass to detectDevice). */
  lemma NoChangeNoEvents(oldRoots: seq<Path>, newRoots: seq<Path>)
    requires forall p :: p in oldRoots <==> p in newRoots
    ensures DiffEvents(oldRoots, newRoots) == []
  {
    MissingNone(newRoots, oldRoots);
    MissingNone(oldRoots, newRoots);
  }

  /** All CONNECTED events of a diff come before all DISCONNECTED ones. */
  lemma ConnectedFirst(oldRoots: seq<Path>, newRoots: seq<Path>)
    ensures forall i, j :: (0 <= i < j < |DiffEvents(oldRoots, newRoots)| &&
      DiffEvents(oldRoots, newRoots)[j].kind == Connected) ==> DiffEvents(oldRoots, newRoots)[i].kind == Connected
  {
    var a := Announce(Connected, Missing(newRoots, oldRoots));
    var b := Announce(Disconnected, Missing(oldRoots, newRoots));
    assert DiffEvents(oldRoots, newRoots) == a + b;
  }

  lemma {:induction false} BroadcastCount(ls: seq<ListenerId>, e: DevicePathEvent, d: Delivery)
    requires Distinct(ls)
    ensures multiset(Broadcast(ls, e))[d] == if d.event == e && d.listener in ls then 1 else 0
  {
    if ls != [] {
      var init, l := ls[..|ls| - 1], ls[|ls| - 1];
      assert ls == init + [l];
      BroadcastCount(init, e, d);
    }
  }

  lemma {:induction false} BroadcastMembers(ls: seq<ListenerId>, e: DevicePathEvent)
    ensures forall d :: d in Broadcast(ls, e) ==> d.event == e && d.listener in ls
  {
    if ls != [] {
      BroadcastMembers(ls[..|ls| - 1], e);
    }
  }

  /** Every listener receives each event as many times as it occurs, strangers nothing. */
  lemma {:induction false} FanoutCount(ls: seq<ListenerId>, es: seq<DevicePathEvent>, d: Delivery)
    requires Distinct(ls)
    ensures multiset(Fanout(ls, es))[d] == if d.listener in ls then multiset(es)[d.event] else 0
  {
    if es != [] {
      var init, e := es[..|es| - 1], es[|es| - 1];
      assert es == init + [e];
      FanoutCount(ls, init, d);
      BroadcastCount(ls, e, d);
    }
  }

  lemma {:induction false} FanoutAppend(ls: seq<ListenerId>, a: seq<DevicePathEvent>, b: seq<DevicePathEvent>)
    ensures Fanout(ls, a + b) == Fanout(ls, a) + Fanout(ls, b)
    decreases |b|
  {
    if b != [] {
      var init, e := b[..|b| - 1], b[|b| - 1];
      assert a + b == (a + init) + [e];
      assert (a + b)[..|a + b| - 1] == a + init;
      assert (a + b)[|a + b| - 1] == e;
      assert b[..|b| - 1] == init;
      FanoutAppend(ls, a, init);
      calc {
        Fanout(ls, a + b);
        Fanout(ls, a + init) + Broadcast(ls, e);
        Fanout(ls, a) + Fanout(ls, init) + Broadcast(ls, e);
        Fanout(ls, a) + Fanout(ls, b);
      }
    } else {
      assert a + b == a;
    }
  }

  lemma {:induction false} FanoutMembers(ls: seq<ListenerId>, es: seq<DevicePathEvent>)
    ensures forall d :: d in Fanout(ls, es) ==> d.event in es && d.listener in ls
  {
    if es != [] {
      var init, e := es[..|es| - 1], es[|es| - 1];
      FanoutMembers(ls, init);
      BroadcastMembers(ls, e);
      assert forall x :: x in init ==> x in es;
    }
  }

  /** What one detectDevice call delivers: to every registered listener, exactly one event
      per changed root, and no event for a root in both listings. */
  lemma DetectDeviceDelivers(ls: seq<ListenerId>, oldRoots: seq<Path>, newRoots: seq<Path>, d: Delivery)
    requires Distinct(ls)
    ensures multiset(Fanout(ls, DiffEvents(oldRoots, newRoots)))[d] ==
      if d.listener in ls && Changed(oldRoots, newRoots, d.event) then 1 else 0
  {
    FanoutCount(ls, DiffEvents(oldRoots, newRoots), d);
    DiffCount(oldRoots, newRoots, d.event);
  }

  /** Within one detectDevice call every CONNECTED delivery precedes every DISCONNECTED one. */
  lemma DetectDeviceOrder(ls: seq<ListenerId>, oldRoots: seq<Path>, newRoots: seq<Path>)
    ensures var sent := Fanout(ls, DiffEvents(oldRoots, newRoots));
      forall i, j :: 0 <= i < j < |sent| && sent[j].event.kind == Connected ==> sent[i].event.kind == Connected
  {
    var a := Announce(Connected, Missing(newRoots, oldRoots));
    var b := Announce(Disconnected, Missing(oldRoots, newRoots));
    FanoutAppend(ls, a, b);
    FanoutMembers(ls, a);
    FanoutMembers(ls, b);
    var sent := Fanout(ls, DiffEvents(oldRoots, newRoots));
    forall i, j | 0 <= i < j < |sent| && sent[j].event.kind == Connected
      ensures sent[i].event.kind == Connected
    {
      if i >= |Fanout(ls, a)| {
        assert sent[i] in Fanout(ls, b);
        assert sent[j] in Fanout(ls, b);
      } else {
        assert sent[i] in Fanout(ls, a);
      }
    }
  }

  /** After resetRoots the next tick replays the whole listing: one CONNECTED per mounted
      root for every listener, and no DISCONNECTED. */
  lemma ReplayAfterReset(ls: seq<ListenerId>, roots: seq<Path>, d: Delivery)
    requires Distinct(ls)
    ensures multiset(Fanout(ls, DiffEvents([], Sort(roots))))[d] ==
      if d.listener in ls && d.event.kind == Connected && d.event.path in roots then 1 else 0
  {
    DetectDeviceDelivers(ls, [], Sort(roots), d);
    assert forall p :: p in Sort(roots) <==> p in roots by {
      forall p ensures p in Sort(roots) <==> p in roots {
        assert p in multiset(Sort(roots)) <==> p in multiset(roots);
      }
    }
  }

  // ---------------------------------------------------------------------------
  // The poller

  class PollingJob {
    /** The registered path listeners, in registration order. */
    var listeners: seq<ListenerId>
    /** The sorted listing of the previous tick (`lastRoots`). */
    var lastRoots: seq<Path>

    ghost predicate Valid()
      reads this
    {
      Distinct(listeners)
    }

    constructor ()
      ensures Valid() && listeners == [] && lastRoots == []
    {
      listeners := [];
      lastRoots := [];
    }

    /** Forget the baseline, so that the next tick reports every mounted root as new. */
    method ResetRoots()
      modifies this`lastRoots
      ensures lastRoots == []
    {
      lastRoots := [];
    }

    function ContainsEventListener(l: ListenerId): (r: bool)
      reads this
      ensures r <==> l in listeners
    {
      l in listeners
    }

    /** Register `l` unless it is registered already; true when it was added. */
    method AddEventListener(l: ListenerId) returns (added: bool)
      requires Valid()
      modifies this`listeners
      ensures Valid()
      ensures added == !old(ContainsEventListener(l))
      ensures listeners == if added then old(listeners) + [l] else old(listeners)
      ensures ContainsEventListener(l)
    {
      if l in listeners {
        return false;
      }
      listeners := listeners + [l];
      added := true;
    }

    method RemoveEventListener(l: ListenerId)
      requires Valid()
      modifies this`listeners
      ensures Valid()
      ensures listeners == RemoveFirst(old(listeners), l)
      ensures !ContainsEventListener(l)
    {
      listeners := RemoveFirst(listeners, l);
    }

    /** `listeners.forEach(listener -> listener.event(e))`. */
    method Notify(e: DevicePathEvent) returns (sent: seq<Delivery>)
      ensures sent == Broadcast(listeners, e)
    {
      sent := [];
      var k := 0;
      while k < |listeners|
        invariant 0 <= k <= |listeners|
        invariant sent == Broadcast(listeners[..k], e)
      {
        assert listeners[..k + 1][..k] == listeners[..k];
        sent := sent + [Delivery(listeners[k], e)];
        k := k + 1;
      }
      assert listeners[..k] == listeners;
    }

    /** `rootsSet.forEach(path -> listeners.forEach(...))` over the events `es`. */
    method NotifyEach(es: seq<DevicePathEvent>) returns (sent: seq<Delivery>)
      ensures sent == Fanout(listeners, es)
    {
      sent := [];
      var i := 0;
      while i < |es|
        invariant 0 <= i <= |es|
        invariant sent == Fanout(listeners, es[..i])
      {
        assert es[..i + 1][..i] == es[..i];
        var out := Notify(es[i]);
        sent := sent + out;
        i := i + 1;
      }
      assert es[..i] == es;
    }

    /** detectDevice: announce to every listener the roots in `roots` but not in the
        baseline as CONNECTED, then those in the baseline but not in `roots` as
        DISCONNECTED. */
    method DetectDevice(roots: seq<Path>) returns (sent: seq<Delivery>)
      ensures sent == Fanout(listeners, DiffEvents(lastRoots, roots))
    {
      var connected := Announce(Connected, Missing(roots, lastRoots));
      var first := NotifyEach(connected);
      var disconnected := Announce(Disconnected, Missing(lastRoots, roots));
      var second := NotifyEach(disconnected);
      sent := first + second;
      FanoutAppend(listeners, connected, disconnected);
    }

    /** One iteration of `run` after the sleep, given what enumerating the roots returned
        (None for null). */
    method Tick(roots: Option<seq<Path>>) returns (sent: seq<Delivery>)
      requires Valid()
      modifies this`lastRoots
      ensures Valid()
      ensures listeners == [] ==> sent == [] && lastRoots == []
      ensures listeners != [] && roots.None? ==> sent == [] && lastRoots == old(lastRoots)
      ensures listeners != [] && roots.Some? ==>
        lastRoots == Sort(roots.value) &&
        sent == Fanout(listeners, DiffEvents(old(lastRoots), Sort(roots.value)))
    {
      sent := [];
      if listeners == [] {
        lastRoots := [];
        return;
      }
      if roots.None? {
        return;
      }
      var sorted := Sort(roots.value);
      if sorted != lastRoots {
        sent := DetectDevice(sorted);
      } else {
        NoChangeNoEvents(lastRoots, sorted);
      }
      lastRoots := sorted;
    }
  }
}
