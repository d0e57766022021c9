/** Virtual network ids on the master: netid_allocator.go and vnids.go. */
module Vnids {
  import opened Options

  const MAX_VNID := 0xFFFFFF
  const ADMIN_VNID := 0

  // ---------------------------------------------------------------- the allocator

  /** The least id in min..max that is not taken. */
  function Least(taken: set<nat>, min: nat, max: nat): (r: Option<nat>)
    ensures r.Some? ==> min <= r.value <= max && r.value !in taken && forall i :: min <= i < r.value ==> i in taken
    ensures r.None? ==> forall i :: min <= i <= max ==> i in taken
    decreases max + 1 - min
  {
    if min > max then None
    else if min !in taken then Some(min)
    else Least(taken, min + 1, max)
  }

  lemma {:induction false} LeastIs(taken: set<nat>, min: nat, max: nat, i: nat)
    requires min <= i <= max && i !in taken && forall k :: min <= k < i ==> k in taken
    ensures Least(taken, min, max) == Some(i)
    decreases i - min
  {
    if min == i {
    } else {
      LeastIs(taken, min + 1, max, i);
    }
  }

  class NetIDAllocator {
    const min: nat
    const max: nat
    var allocMap: map<nat, bool>

    function Taken(): set<nat>
      reads this
    {
      set i | i in allocMap && allocMap[i]
    }

    /** What is left to do once NewNetIDAllocator has checked its arguments. */
    constructor (min: nat, max: nat, allocMap: map<nat, bool>)
      ensures this.min == min && this.max == max && this.allocMap == allocMap
    {
      this.min := min;
      this.max := max;
      this.allocMap := allocMap;
    }

    method GetNetID() returns (r: Option<nat>)
      modifies this
      ensures r == Least(old(Taken()), min, max)
      ensures Taken() == old(Taken()) + if r.Some? then {r.value} else {}
    {
      var i := min;
      while i <= max
        invariant min <= i
        invariant forall k :: min <= k < i ==> k in Taken()
        invariant allocMap == old(allocMap)
        decreases max + 1 - i
      {
        if i !in allocMap || !allocMap[i] {
          LeastIs(Taken(), min, max, i);
          allocMap := allocMap[i := true];
          return Some(i);
        }
        i := i + 1;
      }
      r := None;
    }

    method ReleaseNetID(netid: nat) returns (ok: bool)
      modifies this
      ensures ok == (min <= netid <= max && netid in old(Taken()))
      ensures Taken() == if ok then old(Taken()) - {netid} else old(Taken())
    {
      if min > netid || max < netid {
        return false;
      }
      if netid !in allocMap || !allocMap[netid] {
        return false;
      }
      allocMap := allocMap[netid := false];
      ok := true;
    }
  }

  method NewNetIDAllocator(min: nat, max: nat, inUse: seq<nat>) returns (r: Option<NetIDAllocator>)
    ensures r.Some? <==> min < max && forall i :: i in inUse ==> min <= i <= max
    ensures r.Some? ==> fresh(r.value) && r.value.min == min && r.value.max == max
    ensures r.Some? ==> r.value.Taken() == set i | i in inUse
  {
    if max <= min {
      return None;
    }
    var amap: map<nat, bool> := map[];
    var k := 0;
    while k < |inUse|
      invariant 0 <= k <= |inUse|
      invariant forall i :: i in amap <==> i in inUse[..k]
      invariant forall i :: i in amap ==> amap[i] && min <= i <= max
    {
      assert inUse[k] in inUse;
      if inUse[k] < min || inUse[k] > max {
        return None;
      }
      amap := amap[inUse[k] := true];
      k := k + 1;
    }
    assert inUse[..k] == inUse;
    var a := new NetIDAllocator(min, max, amap);
    r := Some(a);
  }

  // ---------------------------------------------------------------- the map from namespaces to ids

  class VnidMap {
    var ids: map<string, nat>

    constructor ()
      ensures ids == map[]
    {
      ids := map[];
    }

    method GetVNID(name: string) returns (r: Option<nat>)
      ensures r == if name in ids then Some(ids[name]) else None
    {
      r := if name in ids then Some(ids[name]) else None;
    }

    method SetVNID(name: string, id: nat)
      modifies this
      ensures ids == old(ids)[name := id]
    {
      ids := ids[name := id];
    }

    method UnsetVNID(name: string) returns (r: Option<nat>)
      modifies this
      ensures r == if name in old(ids) then Some(old(ids)[name]) else None
      ensures ids == old(ids) - {name}
    {
      if name !in ids {
        assert ids - {name} == ids;
        return None;
      }
      r := Some(ids[name]);
      ids := ids - {name};
    }

    method CheckVNID(id: nat) returns (used: bool)
      ensures used <==> id in ids.Values
    {
      var names := ids.Keys;
      while names != {}
        invariant names <= ids.Keys
        invariant forall name :: name in ids.Keys - names ==> ids[name] != id
        decreases |names|
      {
        var name :| name in names;
        if ids[name] == id {
          return true;
        }
        names := names - {name};
      }
      used := false;
    }

    /** Every id but the admin one, once. */
    method GetAllocatedVNIDs() returns (list: seq<nat>)
      ensures (set i | i in list) == NonZero(ids)
      ensures forall i, j :: 0 <= i < j < |list| ==> list[i] != list[j]
    {
      list := [];
      var idSet: set<nat> := {};
      var names := ids.Keys;
      while names != {}
        invariant names <= ids.Keys
        invariant forall i :: i in list <==> i in idSet
        invariant idSet <= NonZero(ids)
        invariant forall name :: name in ids.Keys - names && ids[name] != ADMIN_VNID ==> ids[name] in idSet
        invariant forall i, j :: 0 <= i < j < |list| ==> list[i] != list[j]
        decreases |names|
      {
        var name :| name in names;
        var id := ids[name];
        if id != ADMIN_VNID && id !in idSet {
          list := list + [id];
          idSet := idSet + {id};
        }
        names := names - {name};
      }
    }
  }

  function NonZero(ids: map<string, nat>): set<nat>
  {
    set name | name in ids && ids[name] != ADMIN_VNID :: ids[name]
  }

  // ---------------------------------------------------------------- the master

  const MIN_VNID := 10

  /** The map of the master, the NetNamespaces of the registry, the ids marked as taken. */
  datatype World = World(ids: map<string, nat>, reg: map<string, nat>, taken: set<nat>)

  /** What the registry does, where it may fail without effect although the request is in order. */
  datatype Event = Added(name: string, getFails: bool, createFails: bool) | Deleted(name: string, deleteFails: bool)

  function Assigned(admins: set<string>, w: World, name: string, getFails: bool, createFails: bool): World
  {
    if name in w.ids then w
    else if name in w.reg && !getFails then w.(ids := w.ids[name := w.reg[name]])
    else
      var netid := if name in admins then Some(ADMIN_VNID) else Least(w.taken, MIN_VNID, MAX_VNID);
      if netid.None? || name in w.reg || createFails then w
      else World(w.ids[name := netid.value], w.reg[name := netid.value],
                 if name in admins then w.taken else w.taken + {netid.value})
  }

  function Revoked(w: World, name: string, deleteFails: bool): World
  {
    var ids := w.ids - {name};
    if name !in w.reg || deleteFails then w.(ids := ids)
    else
      World(ids, w.reg - {name},
            if name in w.ids && w.ids[name] != ADMIN_VNID && w.ids[name] !in ids.Values then w.taken - {w.ids[name]}
            else w.taken)
  }

  function Handled(admins: set<string>, w: World, e: Event): World
  {
    match e
    case Added(name, getFails, createFails) => Assigned(admins, w, name, getFails, createFails)
    case Deleted(name, deleteFails) => Revoked(w, name, deleteFails)
  }

  class Master {
    const admins: set<string>
    const vnids: VnidMap
    const netIDManager: NetIDAllocator
    var registry: map<string, nat>

    ghost predicate Valid()
      reads this, netIDManager
    {
      && netIDManager.min == MIN_VNID && netIDManager.max == MAX_VNID
      && forall i :: i in netIDManager.Taken() ==> MIN_VNID <= i <= MAX_VNID
    }

    function View(): World
      reads this, vnids, netIDManager
    {
      World(vnids.ids, registry, netIDManager.Taken())
    }

    constructor (admins: set<string>, vnids: VnidMap, netIDManager: NetIDAllocator, registry: map<string, nat>)
      ensures this.admins == admins && this.vnids == vnids && this.netIDManager == netIDManager
      ensures this.registry == registry
    {
      this.admins := admins;
      this.vnids := vnids;
      this.netIDManager := netIDManager;
      this.registry := registry;
    }

    method AssignVNID(name: string, getFails: bool, createFails: bool) returns (ok: bool)
      requires Valid()
      modifies this, vnids, netIDManager
      ensures Valid() && View() == Assigned(admins, old(View()), name, getFails, createFails)
      ensures ok == (name in vnids.ids)
    {
      var known := vnids.GetVNID(name);
      if known.Some? {
        return true;
      }
      if name in registry && !getFails {
        vnids.SetVNID(name, registry[name]);
        return true;
      }
      var netid := ADMIN_VNID;
      if name !in admins {
        var r := netIDManager.GetNetID();
        if r.None? {
          return false;
        }
        netid := r.value;
      }
      ok := WriteNetNamespace(name, netid, createFails);
      if !ok {
        var _ := netIDManager.ReleaseNetID(netid);
        return;
      }
      vnids.SetVNID(name, netid);
    }

    method RevokeVNID(name: string, deleteFails: bool) returns (ok: bool)
      requires Valid()
      modifies this, vnids, netIDManager
      ensures Valid() && View() == Revoked(old(View()), name, deleteFails)
      ensures ok ==> name in old(registry) && !deleteFails
    {
      var netid := vnids.UnsetVNID(name);
      ok := DeleteNetNamespace(name, deleteFails);
      if !ok {
        return;
      }
      if netid.None? || netid.value == ADMIN_VNID {
        return;
      }
      var used := vnids.CheckVNID(netid.value);
      if !used {
        ok := netIDManager.ReleaseNetID(netid.value);
      }
    }

    /** The registry creates an object only under a new name. */
    method WriteNetNamespace(name: string, netid: nat, fails: bool) returns (ok: bool)
      modifies this
      ensures ok == (name !in old(registry) && !fails)
      ensures registry == if ok then old(registry)[name := netid] else old(registry)
    {
      ok := name !in registry && !fails;
      if ok {
        registry := registry[name := netid];
      }
    }

    method DeleteNetNamespace(name: string, fails: bool) returns (ok: bool)
      modifies this
      ensures ok == (name in old(registry) && !fails)
      ensures registry == if ok then old(registry) - {name} else old(registry)
    {
      ok := name in registry && !fails;
      if ok {
        registry := registry - {name};
      }
    }
  }

  /** It fails if the registry cannot be listed and on ids out of range; otherwise map and allocator start from
      the registry. */
  method VnidStartMaster(admins: set<string>, registry: map<string, nat>, listFails: bool) returns (r: Option<Master>)
    ensures r.Some? <==> !listFails && forall i :: i in NonZero(registry) ==> MIN_VNID <= i <= MAX_VNID
    ensures r.Some? ==> fresh(r.value) && fresh(r.value.vnids) && fresh(r.value.netIDManager) && r.value.Valid()
    ensures r.Some? ==> r.value.admins == admins + {"default"}
    ensures r.Some? ==> r.value.View() == World(registry, registry, NonZero(registry))
  {
    if listFails {
      return None;
    }
    var vnids := new VnidMap();
    var names := registry.Keys;
    while names != {}
      invariant names <= registry.Keys
      invariant vnids.ids == map name | name in registry.Keys - names :: registry[name]
      decreases |names|
    {
      var name :| name in names;
      vnids.SetVNID(name, registry[name]);
      names := names - {name};
    }
    assert vnids.ids == registry;
    var inUse := vnids.GetAllocatedVNIDs();
    var a := NewNetIDAllocator(MIN_VNID, MAX_VNID, inUse);
    assert forall i :: i in inUse <==> i in NonZero(registry);
    if a.None? {
      return None;
    }
    var m := new Master(admins + {"default"}, vnids, a.value, registry);
    r := Some(m);
  }

  // ---------------------------------------------------------------- no two namespaces share an id

  /** Whatever fails: ids other than 0 are unique in the registry and taken, and the map never contradicts the registry. */
  ghost predicate Unique(w: World)
  {
    && (forall a, b :: a in w.reg && b in w.reg && a != b && w.reg[a] != ADMIN_VNID ==> w.reg[a] != w.reg[b])
    && (forall a :: a in w.reg && w.reg[a] != ADMIN_VNID ==> w.reg[a] in w.taken)
    && (forall a :: a in w.ids ==> a in w.reg && w.reg[a] == w.ids[a])
    && (forall i :: i in w.taken ==> MIN_VNID <= i <= MAX_VNID)
  }

  lemma StaysUnique(admins: set<string>, w: World, e: Event)
    requires Unique(w)
    ensures Unique(Handled(admins, w, e))
  {
  }

  function HandledAll(admins: set<string>, w: World, es: seq<Event>): World
    decreases |es|
  {
    if es == [] then w else HandledAll(admins, Handled(admins, w, es[0]), es[1..])
  }

  lemma {:induction false} HandledLast(admins: set<string>, w: World, es: seq<Event>, e: Event)
    ensures HandledAll(admins, w, es + [e]) == Handled(admins, HandledAll(admins, w, es), e)
    decreases |es|
  {
    hide Handled;
    if es == [] {
      assert es + [e] == [e] && [e][1..] == [];
    } else {
      assert (es + [e])[1..] == es[1..] + [e];
      HandledLast(admins, Handled(admins, w, es[0]), es[1..], e);
    }
  }

  /** The loop of watchNamespaces. Errors are only logged. */
  method WatchNamespaces(m: Master, es: seq<Event>)
    requires m.Valid()
    modifies m, m.vnids, m.netIDManager
    ensures m.Valid() && m.View() == HandledAll(m.admins, old(m.View()), es)
  {
    hide Assigned, Revoked;
    var i := 0;
    while i < |es|
      invariant 0 <= i <= |es|
      invariant m.Valid() && m.View() == HandledAll(m.admins, old(m.View()), es[..i])
    {
      HandledLast(m.admins, old(m.View()), es[..i], es[i]);
      assert es[..i + 1] == es[..i] + [es[i]];
      match es[i] {
        case Added(name, getFails, createFails) =>
          var _ := m.AssignVNID(name, getFails, createFails);
        case Deleted(name, deleteFails) =>
          var _ := m.RevokeVNID(name, deleteFails);
      }
      i := i + 1;
    }
    assert es[..i] == es;
  }

  lemma {:induction false} RunStaysUnique(admins: set<string>, w: World, es: seq<Event>)
    requires Unique(w)
    ensures Unique(HandledAll(admins, w, es))
    decreases |es|
  {
    hide Unique, Handled;
    if es == [] {
    } else {
      StaysUnique(admins, w, es[0]);
      RunStaysUnique(admins, Handled(admins, w, es[0]), es[1..]);
    }
  }

  // ---------------------------------------------------------------- no id is lost

  /** Map, registry and allocator agree, also on ids that namespaces share. */
  ghost predicate Conserved(w: World)
  {
    && w.ids == w.reg && w.taken == NonZero(w.reg)
    && (forall i :: i in w.taken ==> MIN_VNID <= i <= MAX_VNID)
  }

  lemma Removed(reg: map<string, nat>, name: string)
    requires name in reg
    ensures NonZero(reg - {name}) == if reg[name] != ADMIN_VNID && reg[name] !in (reg - {name}).Values
                                     then NonZero(reg) - {reg[name]} else NonZero(reg)
  {
    var rest := reg - {name};
    forall i | i in NonZero(reg) && i != reg[name]
      ensures i in NonZero(rest)
    {
      var a :| a in reg && reg[a] == i && reg[a] != ADMIN_VNID;
      assert a in rest;
    }
    if reg[name] in rest.Values {
      var b :| b in rest && rest[b] == reg[name];
    }
  }

  lemma Entered(reg: map<string, nat>, name: string, id: nat)
    requires name !in reg
    ensures NonZero(reg[name := id]) == NonZero(reg) + if id != ADMIN_VNID then {id} else {}
  {
    var more := reg[name := id];
    forall i | i in NonZero(reg)
      ensures i in NonZero(more)
    {
      var a :| a in reg && reg[a] == i && reg[a] != ADMIN_VNID;
      assert more[a] == i;
    }
    assert more[name] == id;
  }

  /** The three agree after an event if and only if it is not a failed deletion of an existing NetNamespace. */
  lemma StaysConserved(admins: set<string>, w: World, e: Event)
    requires Conserved(w)
    ensures Conserved(Handled(admins, w, e)) <==> !(e.Deleted? && e.name in w.reg && e.deleteFails)
  {
    hide NonZero;
    if e.Deleted? {
      if e.name in w.reg {
        Removed(w.reg, e.name);
      } else {
        assert w.ids - {e.name} == w.ids;
      }
    } else if e.name !in w.reg && !e.createFails {
      var netid := if e.name in admins then Some(ADMIN_VNID) else Least(w.taken, MIN_VNID, MAX_VNID);
      if netid.Some? {
        Entered(w.reg, e.name, netid.value);
      }
    }
  }

  /** Along es, from the registry reg, every deletion of an existing NetNamespace succeeds. */
  ghost predicate Deletes(admins: set<string>, w: World, es: seq<Event>)
    decreases |es|
  {
    es == [] ||
    (&& !(es[0].Deleted? && es[0].name in w.reg && es[0].deleteFails)
     && Deletes(admins, Handled(admins, w, es[0]), es[1..]))
  }

  lemma {:induction false} RunStaysConserved(admins: set<string>, w: World, es: seq<Event>)
    requires Conserved(w) && Deletes(admins, w, es)
    ensures Conserved(HandledAll(admins, w, es))
    decreases |es|
  {
    hide Conserved, Handled;
    if es == [] {
    } else {
      StaysConserved(admins, w, es[0]);
      RunStaysConserved(admins, Handled(admins, w, es[0]), es[1..]);
    }
  }

  /** An id is free again exactly when its last namespace goes. */
  lemma FreedWithTheLast(admins: set<string>, w: World, name: string)
    requires Conserved(w) && name in w.reg && w.reg[name] != ADMIN_VNID
    ensures w.reg[name] !in Handled(admins, w, Deleted(name, false)).taken <==>
            forall other :: other in w.reg && other != name ==> w.reg[other] != w.reg[name]
  {
    var rest := w.reg - {name};
    Removed(w.reg, name);
    assert w.reg[name] in NonZero(w.reg);
    if other :| other in w.reg && other != name && w.reg[other] == w.reg[name] {
      assert rest[other] == w.reg[name];
    }
  }

  /** A new namespace gets the least id from 10 on that no namespace has, if there is one. */
  lemma FreshIsLeastUnused(admins: set<string>, w: World, name: string, getFails: bool)
    requires Conserved(w) && name !in w.reg && name !in admins
    ensures var v := Handled(admins, w, Added(name, getFails, false));
            if name in v.reg then
              && MIN_VNID <= v.reg[name] <= MAX_VNID && v.reg[name] !in w.reg.Values
              && forall i :: MIN_VNID <= i < v.reg[name] ==> i in w.reg.Values
            else forall i :: MIN_VNID <= i <= MAX_VNID ==> i in w.reg.Values
  {
    forall i | i in NonZero(w.reg)
      ensures i in w.reg.Values
    {
    }
    forall i | i in w.reg.Values && i != ADMIN_VNID
      ensures i in NonZero(w.reg)
    {
      var a :| a in w.reg && w.reg[a] == i;
    }
  }

  // ---------------------------------------------------------------- what a failed deletion costs

  /** id is taken although no namespace has it. */
  predicate Leaked(w: World, id: nat)
  {
    id in w.taken && id !in w.reg.Values && id !in w.ids.Values
  }

  /** A deletion that fails and is repeated leaks the id. */
  lemma FailedDeletionLeaks(admins: set<string>, w: World, name: string)
    requires Unique(w) && name in w.reg && w.reg[name] != ADMIN_VNID
    ensures Leaked(HandledAll(admins, w, [Deleted(name, true), Deleted(name, false)]), w.reg[name])
  {
    var v := Handled(admins, w, Deleted(name, true));
    var u := Handled(admins, v, Deleted(name, false));
    assert [Deleted(name, true), Deleted(name, false)][1..] == [Deleted(name, false)];
    assert HandledAll(admins, u, [Deleted(name, false)][1..]) == u;
    assert HandledAll(admins, v, [Deleted(name, false)]) == u;
  }

  /** A leaked id is never used again while the master runs. */
  lemma {:induction false} LeakIsForever(admins: set<string>, w: World, id: nat, es: seq<Event>)
    requires Leaked(w, id) && id != ADMIN_VNID
    ensures Leaked(HandledAll(admins, w, es), id)
    decreases |es|
  {
    if es == [] {
    } else {
      LeakStays(admins, w, id, es[0]);
      LeakIsForever(admins, Handled(admins, w, es[0]), id, es[1..]);
    }
  }

  lemma LeakStays(admins: set<string>, w: World, id: nat, e: Event)
    requires Leaked(w, id) && id != ADMIN_VNID
    ensures Leaked(Handled(admins, w, e), id)
  {
  }
}
