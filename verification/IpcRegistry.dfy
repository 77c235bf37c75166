/** The registry of IPC handlers: which handler answers for a target, and who takes over. */
module IpcRegistries {
  import opened Common

  datatype RegistrationState = RegistrationState(enabled: bool, target: string)

  const UNREGISTERED := RegistrationState(false, "")

  /** What a requested state comes to: a handler without a target is not registered. */
  function Effective(s: RegistrationState): RegistrationState {
    if s.enabled && s.target != "" then s else UNREGISTERED
  }

  /** QList::removeOne: without the first occurrence. */
  function RemoveOne<T(==)>(s: seq<T>, x: T): seq<T> {
    var k := PlaceOf(s, x);
    if k == |s| then s else s[..k] + s[k + 1..]
  }

  /** The handlers listed under a target. */
  function Listed<T>(known: map<string, seq<T>>, target: string): seq<T> {
    if target in known then known[target] else []
  }

  class IpcHandler {
    var registeredState: RegistrationState
    var targetState: RegistrationState
    var complete: bool
    // when the handler was registered last
    ghost var stamp: nat

    constructor ()
      ensures registeredState == UNREGISTERED && targetState == RegistrationState(true, "") && !complete
    {
      registeredState, targetState, complete := UNREGISTERED, RegistrationState(true, ""), false;
    }

    /** Brings the registration in line with the requested state. */
    method UpdateRegistration(registry: IpcHandlerRegistry)
      requires this in registry.all && registry.ValidBut(this)
      modifies registry`handlers, registry`knownHandlers, registry`clock, this`registeredState, this`stamp
      ensures registry.Valid()
      ensures registry.ListsMove(
        old(registry.knownHandlers), old(if complete then registeredState else UNREGISTERED),
        if complete then Effective(targetState) else UNREGISTERED, this)
    {
      hide Active, Lists, ListOk, RemoveOne;
      if !complete {
        return;
      }
      if registeredState.enabled {
        registry.DeregisterHandler(this);
      }
      if targetState.enabled && targetState.target != "" {
        registry.RegisterHandler(this);
      }
    }

    method SetEnabled(registry: IpcHandlerRegistry, enabled: bool)
      requires this in registry.all && registry.Valid()
      modifies registry`handlers, registry`knownHandlers, registry`clock, this`registeredState, this`stamp, this`targetState
      ensures registry.Valid() && targetState == old(targetState).(enabled := enabled)
      ensures enabled == old(targetState.enabled) ==> registry.knownHandlers == old(registry.knownHandlers)
      ensures enabled != old(targetState.enabled) && complete ==>
        registry.ListsMove(old(registry.knownHandlers), old(registeredState), Effective(targetState), this)
    {
      hide Active, Lists, ListOk, RemoveOne;
      ghost var regs := registry.Registrations();
      if enabled != targetState.enabled {
        targetState := targetState.(enabled := enabled);
        assert registry.Registrations() == regs;
        UpdateRegistration(registry);
      }
    }

    method SetTarget(registry: IpcHandlerRegistry, target: string)
      requires this in registry.all && registry.Valid()
      modifies registry`handlers, registry`knownHandlers, registry`clock, this`registeredState, this`stamp, this`targetState
      ensures registry.Valid() && targetState == old(targetState).(target := target)
      ensures target == old(targetState.target) ==> registry.knownHandlers == old(registry.knownHandlers)
      ensures target != old(targetState.target) && complete ==>
        registry.ListsMove(old(registry.knownHandlers), old(registeredState), Effective(targetState), this)
    {
      hide Active, Lists, ListOk, RemoveOne;
      ghost var regs := registry.Registrations();
      if target != targetState.target {
        targetState := targetState.(target := target);
        assert registry.Registrations() == regs;
        UpdateRegistration(registry);
      }
    }

    /** The handler's description has been read; only now does it register. */
    method OnPostReload(registry: IpcHandlerRegistry)
      requires this in registry.all && registry.Valid()
      modifies registry`handlers, registry`knownHandlers, registry`clock, this`registeredState, this`stamp, this`complete
      ensures registry.Valid() && complete
      ensures registry.ListsMove(old(registry.knownHandlers), old(registeredState), Effective(targetState), this)
    {
      hide Active, Lists, ListOk, RemoveOne;
      ghost var regs := registry.Registrations();
      complete := true;
      assert registry.Registrations() == regs;
      UpdateRegistration(registry);
    }

    /** The destructor: afterwards no table mentions the handler. */
    method Destroy(registry: IpcHandlerRegistry)
      requires this in registry.all && registry.Valid()
      modifies registry`handlers, registry`knownHandlers, registry`clock, registry`all,
        this`registeredState, this`stamp, this`targetState
      ensures registry.Valid() && registry.all == old(registry.all) - {this}
      ensures registry.ListsMove(old(registry.knownHandlers), old(registeredState), UNREGISTERED, this)
      ensures forall t :: this !in Listed(registry.knownHandlers, t)
      ensures forall t :: t in registry.handlers ==> registry.handlers[t] != this
    {
      hide Active, Lists, ListOk, RemoveOne;
      ghost var regs := registry.Registrations();
      if registeredState.enabled {
        targetState := targetState.(enabled := false);
        assert registry.Registrations() == regs;
        UpdateRegistration(registry);
      }
      registry.Forget(this);
    }
  }

  /** A handler's registration, and when it was made. */
  datatype Registration = Registration(state: RegistrationState, stamp: nat)

  /** A target's list holds exactly the handlers registered for it, longest-registered first. */
  ghost predicate ListOk(list: seq<IpcHandler>, target: string, regs: map<IpcHandler, Registration>, clock: nat) {
    && (forall i :: 0 <= i < |list| ==> list[i] in regs && regs[list[i]].stamp < clock)
    && (forall i, j :: 0 <= i < j < |list| ==> regs[list[i]].stamp < regs[list[j]].stamp)
    && (forall h :: h in regs ==> (h in list <==> regs[h].state == RegistrationState(true, target)))
  }

  lemma ListKept(
    list: seq<IpcHandler>, t: string, regs: map<IpcHandler, Registration>, clock: nat, h: IpcHandler, r: Registration, now: nat)
    requires ListOk(list, t, regs, clock) && h in regs && clock <= now
    requires regs[h].state != RegistrationState(true, t) && r.state != RegistrationState(true, t)
    ensures ListOk(list, t, regs[h := r], now)
  {
    assert h !in list;
    assert forall i :: 0 <= i < |list| ==> list[i] in regs && list[i] != h;
  }

  lemma ListAppended(list: seq<IpcHandler>, t: string, regs: map<IpcHandler, Registration>, clock: nat, h: IpcHandler)
    requires ListOk(list, t, regs, clock) && h in regs && regs[h].state != RegistrationState(true, t)
    ensures ListOk(list + [h], t, regs[h := Registration(RegistrationState(true, t), clock)], clock + 1)
  {
    assert h !in list;
    assert forall i :: 0 <= i < |list| ==> list[i] in regs && list[i] != h;
  }

  lemma RemovedMembers(list: seq<IpcHandler>, h: IpcHandler, x: IpcHandler)
    requires h in list && forall i, j :: 0 <= i < j < |list| ==> list[i] != list[j]
    ensures x in RemoveOne(list, h) <==> x in list && x != h
  {
    hide PlaceOf;
    var k := PlaceOf(list, h);
    assert list == list[..k] + [h] + list[k + 1..];
    assert forall i :: 0 <= i < |list| && i != k ==> list[i] != h;
    assert h !in list[..k] && h !in list[k + 1..];
  }

  lemma RemovedStamps(list: seq<IpcHandler>, t: string, regs: map<IpcHandler, Registration>, clock: nat, h: IpcHandler)
    requires ListOk(list, t, regs, clock) && h in list
    ensures var rest := RemoveOne(list, h);
      && (forall i :: 0 <= i < |rest| ==> rest[i] != h && rest[i] in regs && regs[rest[i]].stamp < clock)
      && (forall i, j :: 0 <= i < j < |rest| ==> regs[rest[i]].stamp < regs[rest[j]].stamp)
  {
    hide PlaceOf;
    var k, rest := PlaceOf(list, h), RemoveOne(list, h);
    assert forall i :: 0 <= i < k ==> rest[i] == list[i];
    assert forall i :: k <= i < |rest| ==> rest[i] == list[i + 1];
  }

  lemma ListRemoved(
    list: seq<IpcHandler>, t: string, regs: map<IpcHandler, Registration>, clock: nat, h: IpcHandler, r: Registration)
    requires ListOk(list, t, regs, clock) && h in regs && regs[h].state == RegistrationState(true, t)
    requires r.state != RegistrationState(true, t)
    ensures ListOk(RemoveOne(list, h), t, regs[h := r], clock)
  {
    assert h in list;
    forall x | x in regs ensures x in RemoveOne(list, h) <==> x in list && x != h {
      RemovedMembers(list, h, x);
    }
    RemovedStamps(list, t, regs, clock, h);
    hide PlaceOf, RemoveOne;
  }

  /** All lists are in order, and the active handler of a target is the first of its list. */
  ghost predicate Lists(known: map<string, seq<IpcHandler>>, regs: map<IpcHandler, Registration>, clock: nat) {
    forall t :: ListOk(Listed(known, t), t, regs, clock)
  }

  ghost predicate Active(handlers: map<string, IpcHandler>, known: map<string, seq<IpcHandler>>) {
    forall t ::
      && (t in handlers <==> Listed(known, t) != [])
      && (t in handlers ==> handlers[t] == Listed(known, t)[0])
  }

  /** A handler becomes active if it is the only one. */
  lemma ActiveAfterAppend(handlers: map<string, IpcHandler>, known: map<string, seq<IpcHandler>>, target: string, h: IpcHandler)
    requires Active(handlers, known)
    ensures Active(if target in handlers then handlers else handlers[target := h], known[target := Listed(known, target) + [h]])
  {
  }

  /** The active handler fails over to the next in line, if it is the one that leaves. */
  lemma ActiveAfterRemoval(handlers: map<string, IpcHandler>, known: map<string, seq<IpcHandler>>, target: string, h: IpcHandler)
    requires Active(handlers, known)
    ensures var list := RemoveOne(Listed(known, target), h);
      var handlers' :=
        if target in handlers && handlers[target] == h then
          if list == [] then handlers - {target} else handlers[target := list[0]]
        else handlers;
      Active(handlers', known[target := list])
  {
    var list := Listed(known, target);
    if list != [] && list[0] != h {
      hide PlaceOf;
      assert PlaceOf(list, h) > 0;
      assert RemoveOne(list, h)[0] == list[0];
    }
  }

  lemma Registered(
    known: map<string, seq<IpcHandler>>, regs: map<IpcHandler, Registration>, clock: nat, h: IpcHandler, target: string)
    requires Lists(known, regs, clock) && h in regs && !regs[h].state.enabled
    ensures Lists(
      known[target := Listed(known, target) + [h]], regs[h := Registration(RegistrationState(true, target), clock)], clock + 1)
  {
    hide ListOk;
    var r := Registration(RegistrationState(true, target), clock);
    var known' := known[target := Listed(known, target) + [h]];
    forall t ensures ListOk(Listed(known', t), t, regs[h := r], clock + 1) {
      if t == target {
        ListAppended(Listed(known, t), t, regs, clock, h);
      } else {
        ListKept(Listed(known, t), t, regs, clock, h, r, clock + 1);
      }
    }
  }

  lemma Deregistered(
    known: map<string, seq<IpcHandler>>, regs: map<IpcHandler, Registration>, clock: nat, h: IpcHandler, r: Registration)
    requires Lists(known, regs, clock) && h in regs && regs[h].state.enabled && !r.state.enabled
    ensures var target := regs[h].state.target;
      Lists(known[target := RemoveOne(Listed(known, target), h)], regs[h := r], clock)
  {
    hide ListOk, RemoveOne;
    var target := regs[h].state.target;
    var known' := known[target := RemoveOne(Listed(known, target), h)];
    forall t ensures ListOk(Listed(known', t), t, regs[h := r], clock) {
      if t == target {
        ListRemoved(Listed(known, t), t, regs, clock, h, r);
      } else {
        ListKept(Listed(known, t), t, regs, clock, h, r, clock);
      }
    }
  }

  lemma Joined(
    known: map<string, seq<IpcHandler>>, regs: map<IpcHandler, Registration>, clock: nat, h: IpcHandler, r: Registration)
    requires Lists(known, regs, clock) && h !in regs && !r.state.enabled
    ensures Lists(known, regs[h := r], clock)
  {
    forall t ensures ListOk(Listed(known, t), t, regs[h := r], clock) {
      assert ListOk(Listed(known, t), t, regs, clock);
    }
  }

  lemma Forgotten(known: map<string, seq<IpcHandler>>, regs: map<IpcHandler, Registration>, clock: nat, h: IpcHandler)
    requires Lists(known, regs, clock) && h in regs && !regs[h].state.enabled
    ensures Lists(known, regs - {h}, clock)
    ensures forall t :: h !in Listed(known, t)
  {
    forall t ensures ListOk(Listed(known, t), t, regs - {h}, clock) && h !in Listed(known, t) {
      assert ListOk(Listed(known, t), t, regs, clock);
    }
  }

  class IpcHandlerRegistry {
    var handlers: map<string, IpcHandler>
    var knownHandlers: map<string, seq<IpcHandler>>
    // the live handlers of this generation, and a clock for registrations
    ghost var all: set<IpcHandler>
    ghost var clock: nat

    ghost function Registrations(): map<IpcHandler, Registration>
      reads this, all
    {
      map h | h in all :: Registration(h.registeredState, h.stamp)
    }

    /** The tables agree with the handlers' registered states. */
    ghost predicate Indexed()
      reads this, all
    {
      Active(handlers, knownHandlers) && Lists(knownHandlers, Registrations(), clock)
    }

    /** Completed handlers are registered as they request, others not at all. */
    ghost predicate Valid()
      reads this, all
    {
      Indexed() && forall h :: h in all ==> Mirrors(h)
    }

    /** Valid, except that this handler's registration may lag behind its requested state. */
    ghost predicate ValidBut(h: IpcHandler)
      reads this, all
    {
      && Indexed()
      && (forall x :: x in all && x != h ==> Mirrors(x))
      && (h in all && (!h.complete || !h.registeredState.enabled) ==> h.registeredState == UNREGISTERED)
    }

    ghost predicate Mirrors(h: IpcHandler)
      reads h
    {
      h.registeredState == if h.complete then Effective(h.targetState) else UNREGISTERED
    }

    constructor ()
      ensures Valid() && all == {}
    {
      handlers, knownHandlers, all, clock := map[], map[], {}, 0;
    }

    /** The handler that answers for a target: of those registered for it, the one registered for
        the longest time. */
    method FindHandler(target: string) returns (h: IpcHandler?)
      requires Valid()
      ensures h != null ==> h in all && h.registeredState == RegistrationState(true, target)
      ensures h != null ==> forall o :: o in all && o.registeredState == RegistrationState(true, target) ==> h.stamp <= o.stamp
      ensures h == null ==> forall o :: o in all ==> o.registeredState != RegistrationState(true, target)
    {
      h := if target in handlers then handlers[target] else null;
      ghost var list, regs := Listed(knownHandlers, target), Registrations();
      assert ListOk(list, target, regs, clock);
      forall o | o in all && o.registeredState == RegistrationState(true, target)
        ensures list != [] && list[0].stamp <= o.stamp
      {
        assert o in regs && regs[o].state == o.registeredState;
        var i :| 0 <= i < |list| && list[i] == o;
        assert i == 0 || regs[list[0]].stamp < regs[list[i]].stamp;
      }
    }

    /** A handler is listed under a target exactly if it is complete, enabled and has that target, which
        is not empty; and then its registered state is its requested one. */
    lemma ListedExactly(h: IpcHandler, target: string)
      requires Valid() && h in all
      ensures h in Listed(knownHandlers, target)
        <==> h.complete && h.targetState.enabled && h.targetState.target == target && target != ""
      ensures h in Listed(knownHandlers, target) ==> h.registeredState == h.targetState
    {
      var regs := Registrations();
      assert ListOk(Listed(knownHandlers, target), target, regs, clock);
      assert h in regs && regs[h].state == h.registeredState && Mirrors(h);
    }

    /** No handler answers for the empty target. */
    lemma NoneUnderEmptyTarget()
      requires Valid()
      ensures "" !in handlers && Listed(knownHandlers, "") == []
    {
      var list := Listed(knownHandlers, "");
      assert ListOk(list, "", Registrations(), clock);
      if list != [] {
        assert list[0] in Registrations();
        ListedExactly(list[0], "");
        assert false;
      }
    }

    /** A handler comes into being in this generation. */
    ghost method Join(h: IpcHandler)
      requires Valid() && h !in all && h.registeredState == UNREGISTERED && !h.complete
      modifies this`all
      ensures Valid() && all == old(all) + {h}
    {
      ghost var regs := Registrations();
      all := all + {h};
      assert Registrations() == regs[h := Registration(UNREGISTERED, h.stamp)];
      Joined(knownHandlers, regs, clock, h, Registration(UNREGISTERED, h.stamp));
    }

    /** An unregistered handler is gone. */
    ghost method Forget(h: IpcHandler)
      requires Valid() && h in all && !h.registeredState.enabled
      modifies this`all
      ensures Valid() && all == old(all) - {h}
      ensures forall t :: h !in Listed(knownHandlers, t)
      ensures forall t :: t in handlers ==> handlers[t] != h
    {
      ghost var regs := Registrations();
      all := all - {h};
      assert Registrations() == regs - {h};
      Forgotten(knownHandlers, regs, clock, h);
    }

    method RegisterHandler(handler: IpcHandler)
      requires Indexed() && handler in all && !handler.registeredState.enabled
      modifies this`handlers, this`knownHandlers, this`clock, handler`registeredState, handler`stamp
      ensures Indexed() && handler.registeredState == RegistrationState(true, handler.targetState.target)
      ensures handler.stamp == old(clock)
      ensures ListAppends(old(knownHandlers), handler.targetState.target, handler)
    {
      hide Lists, Effective, Active;
      ghost var known, regs := knownHandlers, Registrations();
      ActiveAfterAppend(handlers, knownHandlers, handler.targetState.target, handler);
      var target := handler.targetState.target;
      var targetVec := Listed(knownHandlers, target) + [handler];
      knownHandlers := knownHandlers[target := targetVec];
      if target !in handlers {
        handlers := handlers[target := handler];
      }
      handler.registeredState := handler.targetState.(enabled := true);
      handler.stamp := clock;
      clock := clock + 1;

      Registered(known, regs, clock - 1, handler, target);
      assert Registrations() == regs[handler := Registration(RegistrationState(true, target), clock - 1)];
    }

    method DeregisterHandler(handler: IpcHandler)
      requires Indexed() && handler in all && handler.registeredState.enabled
      modifies this`handlers, this`knownHandlers, handler`registeredState
      ensures Indexed() && handler.registeredState == UNREGISTERED
      ensures ListShrinks(old(knownHandlers), old(handler.registeredState.target), handler)
    {
      hide Lists, RemoveOne, Active;
      ghost var known, regs := knownHandlers, Registrations();
      var target := handler.registeredState.target;
      ActiveAfterRemoval(handlers, knownHandlers, target, handler);
      var targetVec := RemoveOne(Listed(knownHandlers, target), handler);
      knownHandlers := knownHandlers[target := targetVec];
      if target in handlers && handlers[target] == handler {
        if targetVec == [] {
          handlers := handlers - {target};
        } else {
          handlers := handlers[target := targetVec[0]];
        }
      }
      handler.registeredState := UNREGISTERED;

      Deregistered(known, regs, clock, handler, Registration(UNREGISTERED, handler.stamp));
      assert Registrations() == regs[handler := Registration(UNREGISTERED, handler.stamp)];
    }

    /** One target's list has one more handler; the others are as they were. */
    ghost predicate ListAppends(was: map<string, seq<IpcHandler>>, target: string, h: IpcHandler)
      reads this
    {
      forall t :: Listed(knownHandlers, t) == Listed(was, t) + if t == target then [h] else []
    }

    /** One target's list lacks a handler; the others are as they were. */
    ghost predicate ListShrinks(was: map<string, seq<IpcHandler>>, target: string, h: IpcHandler)
      reads this
    {
      forall t :: Listed(knownHandlers, t) == if t == target then RemoveOne(Listed(was, t), h) else Listed(was, t)
    }

    /** A handler has left the list it was in and joined, at the end, the one it belongs in. */
    ghost predicate ListsMove(
      was: map<string, seq<IpcHandler>>, from: RegistrationState, to: RegistrationState, h: IpcHandler)
      reads this
    {
      forall t :: Listed(knownHandlers, t)
        == (if from.enabled && t == from.target then RemoveOne(Listed(was, t), h) else Listed(was, t))
         + (if to.enabled && t == to.target then [h] else [])
    }
  }
}
