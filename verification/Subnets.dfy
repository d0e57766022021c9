/** Subnets of nodes on the master: subnets.go over subnet_allocator.go. */
module Subnets {
  import opened Bits
  import opened SubnetAllocation
  import Flows = OpenFlow
  import Pipeline
  import opened Options

  datatype Entry = Entry(hostIP: nat, subnet: Subnet)

  /** The HostSubnets of the registry and the state of the allocator. */
  datatype World = World(reg: map<string, Entry>, taken: set<Subnet>, next: nat)

  /** What may fail: the validation of the address; requests to the registry, without effect. */
  datatype Faults = Faults(invalid: bool, getFails: bool, createFails: bool, updateFails: bool, deleteFails: bool)

  function Added(p: Plan, w: World, name: string, ip: nat, f: Faults): World
    requires Valid(p) && w.next <= Count(p)
  {
    if f.invalid then w
    else if name in w.reg && !f.getFails then
      if w.reg[name].hostIP == ip || f.updateFails then w
      else w.(reg := w.reg[name := w.reg[name].(hostIP := ip)])
    else
      match FirstFree(p, w.taken, w.next, 0)
      case None => w.(next := 0)
      case Some(n) =>
        if name in w.reg || f.createFails then w.(next := n + 1)
        else World(w.reg[name := Entry(ip, At(p, n))], w.taken + {At(p, n)}, n + 1)
  }

  /** Whether addNode reports no error: a node already known whose address needs no change or could be
      changed, or a new node for which there was a subnet. */
  predicate AddSucceeds(p: Plan, w: World, name: string, ip: nat, f: Faults)
    requires Valid(p) && w.next <= Count(p)
  {
    && !f.invalid
    && (if name in w.reg && !f.getFails then w.reg[name].hostIP == ip || !f.updateFails
        else FirstFree(p, w.taken, w.next, 0).Some? && name !in w.reg && !f.createFails)
  }

  function Deleted(p: Plan, w: World, name: string, f: Faults): World
    requires Valid(p)
  {
    if name !in w.reg || f.getFails then w
    else
      var s := w.reg[name].subnet;
      World(if f.deleteFails then w.reg else w.reg - {name}, if Contains(p, s.ip) then w.taken - {s} else w.taken, w.next)
  }

  function Allocated(reg: map<string, Entry>): set<Subnet>
  {
    set name | name in reg :: reg[name].subnet
  }

  /** SubnetStartMaster. */
  function Restarted(p: Plan, w: World): World
    requires Valid(p)
  {
    World(w.reg, set s | s in Allocated(w.reg) && Contains(p, s.ip), 0)
  }

  // ---------------------------------------------------------------- the master

  class Master {
    const allocator: SubnetAllocator
    var registry: map<string, Entry>
    var nodeAddressMap: map<nat, nat>

    ghost predicate Ready()
      reads this, allocator
    {
      allocator.Ready()
    }

    function View(): World
      reads this, allocator
    {
      World(registry, allocator.Taken(), allocator.next)
    }

    constructor (allocator: SubnetAllocator, registry: map<string, Entry>)
      ensures this.allocator == allocator && this.registry == registry && nodeAddressMap == map[]
    {
      this.allocator := allocator;
      this.registry := registry;
      nodeAddressMap := map[];
    }

    method AddNode(name: string, ip: nat, f: Faults) returns (ok: bool)
      requires Ready()
      modifies this`registry, allocator
      ensures Ready() && View() == Added(allocator.plan, old(View()), name, ip, f)
      ensures ok == AddSucceeds(allocator.plan, old(View()), name, ip, f)
      ensures ok ==> name in registry && registry[name].hostIP == ip
    {
      if f.invalid {
        return false;
      }
      if name in registry && !f.getFails {
        if registry[name].hostIP == ip {
          return true;
        }
        ok := !f.updateFails;
        if ok {
          registry := registry[name := registry[name].(hostIP := ip)];
        }
        return;
      }
      var sn := allocator.GetNetwork();
      if sn.None? {
        return false;
      }
      ok := name !in registry && !f.createFails;
      if ok {
        registry := registry[name := Entry(ip, sn.value)];
      } else {
        HandedOutInside(allocator.plan, old(View()));
        var _ := allocator.ReleaseNetwork(sn.value);
      }
    }

    method DeleteNode(name: string, f: Faults) returns (ok: bool)
      requires Ready()
      modifies this`registry, allocator
      ensures Ready() && View() == Deleted(allocator.plan, old(View()), name, f)
      ensures ok == (name in old(registry) && !f.getFails && !f.deleteFails)
    {
      if name !in registry || f.getFails {
        return false;
      }
      var _ := allocator.ReleaseNetwork(registry[name].subnet);
      ok := !f.deleteFails;
      if ok {
        registry := registry - {name};
      }
    }
  }

  /** watchNodes: a node was added or modified, or deleted. ip is None if its address is not known. */
  datatype Notice = Put(uid: nat, name: string, ip: Option<nat>, f: Faults)
                  | Gone(uid: nat, name: string, ip: Option<nat>, f: Faults)

  function Handled(p: Plan, w: World, known: map<nat, nat>, e: Notice): World
    requires Valid(p) && w.next <= Count(p)
  {
    if e.ip.None? then w
    else if e.Gone? then Deleted(p, w, e.name, e.f)
    else if e.uid in known && known[e.uid] == e.ip.value then w
    else Added(p, w, e.name, e.ip.value, e.f)
  }

  /** The addresses remembered by uid: a success is remembered, a failure leaves what was remembered. */
  function Remembered(p: Plan, w: World, known: map<nat, nat>, e: Notice): map<nat, nat>
    requires Valid(p) && w.next <= Count(p)
  {
    if e.ip.None? then known
    else if e.Gone? then known - {e.uid}
    else if e.uid in known && known[e.uid] == e.ip.value then known
    else if AddSucceeds(p, w, e.name, e.ip.value, e.f) then known[e.uid := e.ip.value]
    else known
  }

  lemma HandledReady(p: Plan, w: World, known: map<nat, nat>, e: Notice)
    requires Valid(p) && w.next <= Count(p)
    ensures Handled(p, w, known, e).next <= Count(p)
  {
    hide Valid, Count;
  }

  /** The loop of watchNodes over a list of notices. */
  function Watched(p: Plan, w: World, known: map<nat, nat>, es: seq<Notice>): (World, map<nat, nat>)
    requires Valid(p) && w.next <= Count(p)
    decreases |es|
  {
    if es == [] then (w, known)
    else
      HandledReady(p, w, known, es[0]);
      Watched(p, Handled(p, w, known, es[0]), Remembered(p, w, known, es[0]), es[1..])
  }

  method Handle(m: Master, e: Notice)
    requires m.Ready()
    modifies m, m.allocator
    ensures m.Ready() && m.View() == Handled(m.allocator.plan, old(m.View()), old(m.nodeAddressMap), e)
    ensures m.nodeAddressMap == Remembered(m.allocator.plan, old(m.View()), old(m.nodeAddressMap), e)
  {
    if e.ip.None? {
      return;
    }
    match e
    case Put(uid, name, ip, f) =>
      if uid in m.nodeAddressMap && m.nodeAddressMap[uid] == ip.value {
        return;
      }
      var ok := m.AddNode(name, ip.value, f);
      if ok {
        m.nodeAddressMap := m.nodeAddressMap[uid := ip.value];
      }
    case Gone(uid, name, _, f) =>
      m.nodeAddressMap := m.nodeAddressMap - {uid};
      var _ := m.DeleteNode(name, f);
  }

  /** watchNodes, up to the end of its queue: nothing is remembered at the start. */
  method WatchNodes(m: Master, es: seq<Notice>)
    requires m.Ready()
    modifies m, m.allocator
    ensures m.Ready()
    ensures (m.View(), m.nodeAddressMap) == Watched(m.allocator.plan, old(m.View()), map[], es)
  {
    hide Handled, Remembered, Valid, Count;
    m.nodeAddressMap := map[];
    for k := 0 to |es|
      invariant m.Ready()
      invariant Watched(m.allocator.plan, old(m.View()), map[], es)
             == Watched(m.allocator.plan, m.View(), m.nodeAddressMap, es[k..])
    {
      assert es[k..][0] == es[k] && es[k..][1..] == es[k + 1..];
      Handle(m, es[k]);
    }
  }

  method SubnetStartMaster(ip: nat, prefix: nat, hostBits: nat, registry: map<string, Entry>, listFails: bool)
    returns (r: Option<Master>)
    requires IsNetwork(ip, prefix)
    ensures r.Some? <==> !listFails && prefix + hostBits <= 32
    ensures r.Some? ==> fresh(r.value) && fresh(r.value.allocator) && r.value.Ready()
    ensures r.Some? ==> r.value.allocator.plan == PlanFor(ip, prefix, hostBits) && r.value.nodeAddressMap == map[]
    ensures r.Some? ==> r.value.View() == Restarted(r.value.allocator.plan, World(registry, {}, 0))
  {
    if listFails {
      return None;
    }
    var subrange: seq<Option<Subnet>> := [];
    var names := registry.Keys;
    while names != {}
      invariant names <= registry.Keys
      invariant forall s :: Some(s) in subrange <==> exists name :: name in registry.Keys - names && registry[name].subnet == s
      decreases |names|
    {
      var name :| name in names;
      subrange := subrange + [Some(registry[name].subnet)];
      names := names - {name};
    }
    var a := NewSubnetAllocator(ip, prefix, hostBits, subrange);
    if a.None? {
      return None;
    }
    var m := new Master(a.value, registry);
    assert m.allocator.Taken() == set s | s in Allocated(registry) && Contains(m.allocator.plan, s.ip);
    r := Some(m);
  }

  lemma HandedOutInside(p: Plan, w: World)
    requires Valid(p) && w.next <= Count(p)
    ensures var r := FirstFree(p, w.taken, w.next, 0); r.Some? ==> Contains(p, At(p, r.value).ip)
  {
    hide Valid, Count, At;
    var r := FirstFree(p, w.taken, w.next, 0);
    if r.Some? {
      SubnetsDisjoint(p, r.value, r.value);
    }
  }

  // ---------------------------------------------------------------- no two nodes share addresses

  /** The registered subnets are different subnets of the plan, and just they are allocated. */
  ghost predicate Assigned(p: Plan, w: World)
  {
    && Valid(p) && w.next <= Count(p)
    && (forall a :: a in w.reg ==> Planned(p, w.reg[a].subnet))
    && (forall a, b :: a in w.reg && b in w.reg && a != b ==> w.reg[a].subnet != w.reg[b].subnet)
    && w.taken == Allocated(w.reg)
  }

  lemma PlannedInside(p: Plan, s: Subnet)
    requires Valid(p) && Planned(p, s)
    ensures Contains(p, s.ip)
  {
    hide Valid, Count, At;
    var n :| 0 <= n < Count(p) && s == At(p, n);
    SubnetsDisjoint(p, n, n);
  }

  lemma AddKeeps(p: Plan, w: World, name: string, ip: nat, f: Faults)
    requires Assigned(p, w)
    ensures Assigned(p, Added(p, w, name, ip, f))
  {
    hide Valid, Count, At, Contains;
    var v := Added(p, w, name, ip, f);
    if name in w.reg {
      assert Allocated(v.reg) == Allocated(w.reg) by {
        forall s
          ensures s in Allocated(v.reg) <==> s in Allocated(w.reg)
        {
          if a :| a in w.reg && w.reg[a].subnet == s {
            assert v.reg[a].subnet == s;
          }
        }
      }
    } else if v.reg != w.reg {
      var s := v.reg[name].subnet;
      assert Allocated(v.reg) == Allocated(w.reg) + {s} by {
        forall t | t in Allocated(w.reg)
          ensures t in Allocated(v.reg)
        {
          var a :| a in w.reg && w.reg[a].subnet == t;
          assert v.reg[a].subnet == t;
        }
      }
    }
  }

  /** A deletion keeps registry and allocator in agreement if and only if it does not fail halfway. */
  lemma DeleteKeeps(p: Plan, w: World, name: string, f: Faults)
    requires Assigned(p, w)
    ensures Assigned(p, Deleted(p, w, name, f)) <==> !(name in w.reg && !f.getFails && f.deleteFails)
  {
    hide Valid, Count, At, Contains;
    var v := Deleted(p, w, name, f);
    if name in w.reg && !f.getFails {
      var s := w.reg[name].subnet;
      PlannedInside(p, s);
      assert s in Allocated(w.reg);
      assert v.taken == w.taken - {s};
      if !f.deleteFails {
        forall t | t in Allocated(w.reg) && t != s
          ensures t in Allocated(v.reg)
        {
          var a :| a in w.reg && w.reg[a].subnet == t;
          assert v.reg[a].subnet == t;
        }
      }
    }
  }

  lemma RestartKeeps(p: Plan, w: World)
    requires Assigned(p, w)
    ensures Assigned(p, Restarted(p, w)) && Restarted(p, w).taken == w.taken
  {
    hide Count, At, Contains;
    forall s | s in Allocated(w.reg)
      ensures Contains(p, s.ip)
    {
      PlannedInside(p, s);
    }
  }

  /** The registered subnets are different aligned subnets of the network, of the length in use. */
  predicate WellFormed(p: Plan, reg: map<string, Entry>)
    requires Valid(p)
  {
    && (forall a :: a in reg ==> Own(p, reg[a].subnet))
    && (forall a, b :: a in reg && b in reg && a != b ==> reg[a].subnet != reg[b].subnet)
  }

  /** A start of the master from any registry: all is assigned if and only if the registry is well formed. */
  lemma StartAssignsExactly(p: Plan, w: World)
    requires Valid(p)
    ensures Assigned(p, Restarted(p, w)) <==> WellFormed(p, w.reg)
  {
    hide PlanFor, IsNetwork, Count, At, Contains, Own, Planned;
    forall a | a in w.reg
      ensures Planned(p, w.reg[a].subnet) <==> Own(p, w.reg[a].subnet)
      ensures Own(p, w.reg[a].subnet) ==> Contains(p, w.reg[a].subnet.ip)
    {
      PlannedExactly(p, w.reg[a].subnet);
      if Own(p, w.reg[a].subnet) {
        PlannedInside(p, w.reg[a].subnet);
      }
    }
  }

  /** A run of the master: notices and restarts. */
  datatype Event = Notice(known: map<nat, nat>, e: Notice) | Restart

  function After(p: Plan, w: World, e: Event): World
    requires Valid(p) && w.next <= Count(p)
  {
    match e
    case Notice(known, n) => Handled(p, w, known, n)
    case Restart => Restarted(p, w)
  }

  /** No deletion of a registered node fails after its subnet was released. */
  predicate Whole(w: World, e: Event)
  {
    !(e.Notice? && e.e.Gone? && e.e.ip.Some? && e.e.name in w.reg && !e.e.f.getFails && e.e.f.deleteFails)
  }

  lemma EventKeeps(p: Plan, w: World, e: Event)
    requires Assigned(p, w)
    ensures Assigned(p, After(p, w, e)) <==> Whole(w, e)
  {
    hide Assigned, Valid, Count, Added, Deleted, Restarted;
    assert Valid(p) && w.next <= Count(p) by { AssignedReady(p, w); }
    match e
    case Notice(known, n) =>
      if n.ip.Some? {
        if n.Gone? {
          DeleteKeeps(p, w, n.name, n.f);
        } else {
          AddKeeps(p, w, n.name, n.ip.value, n.f);
        }
      }
    case Restart => RestartKeeps(p, w);
  }

  lemma AssignedReady(p: Plan, w: World)
    requires Assigned(p, w)
    ensures Valid(p) && w.next <= Count(p)
  {
  }

  ghost predicate AllWhole(p: Plan, w: World, es: seq<Event>)
    requires Assigned(p, w)
    decreases |es|
  {
    es == [] ||
    (&& Whole(w, es[0])
     && (EventKeeps(p, w, es[0]); AllWhole(p, After(p, w, es[0]), es[1..])))
  }

  ghost function AfterAll(p: Plan, w: World, es: seq<Event>): World
    requires Assigned(p, w) && AllWhole(p, w, es)
    decreases |es|
  {
    if es == [] then w
    else
      EventKeeps(p, w, es[0]);
      AfterAll(p, After(p, w, es[0]), es[1..])
  }

  /** Over any run of notices and restarts, whatever else fails, no two nodes have overlapping subnets
      and exactly the registered subnets are allocated. */
  lemma {:induction false} RunKeepsNodesApart(p: Plan, w: World, es: seq<Event>)
    requires Assigned(p, w) && AllWhole(p, w, es)
    ensures var v := AfterAll(p, w, es);
            && Assigned(p, v)
            && v.taken == Allocated(v.reg)
            && forall a, b :: a in v.reg && b in v.reg && a != b ==>
                 v.reg[a].subnet.length == v.reg[b].subnet.length == 32 - p.hostBits
                 && !Overlap(v.reg[a].subnet, v.reg[b].subnet)
    decreases |es|
  {
    hide After, Valid, Count, At, Overlap;
    if es == [] {
      forall a, b | a in w.reg && b in w.reg && a != b
        ensures w.reg[a].subnet.length == w.reg[b].subnet.length == 32 - p.hostBits && p.hostBits <= 32
        ensures !Overlap(w.reg[a].subnet, w.reg[b].subnet)
      {
        PlannedApart(p, w.reg[a].subnet, w.reg[b].subnet);
      }
    } else {
      EventKeeps(p, w, es[0]);
      RunKeepsNodesApart(p, After(p, w, es[0]), es[1..]);
    }
  }

  /** The notices of watchNodes as events of a run, each with what is remembered when it comes. */
  function Events(p: Plan, w: World, known: map<nat, nat>, es: seq<Notice>): seq<Event>
    requires Valid(p) && w.next <= Count(p)
    decreases |es|
  {
    if es == [] then []
    else
      HandledReady(p, w, known, es[0]);
      [Event.Notice(known, es[0])] + Events(p, Handled(p, w, known, es[0]), Remembered(p, w, known, es[0]), es[1..])
  }

  /** What watchNodes does is such a run, so it keeps the nodes apart. */
  lemma {:induction false} WatchIsRun(p: Plan, w: World, known: map<nat, nat>, es: seq<Notice>)
    requires Assigned(p, w) && AllWhole(p, w, Events(p, w, known, es))
    ensures Watched(p, w, known, es).0 == AfterAll(p, w, Events(p, w, known, es))
    ensures Assigned(p, Watched(p, w, known, es).0)
    decreases |es|
  {
    hide Handled, Remembered, Assigned, Valid, Count;
    AssignedReady(p, w);
    if es == [] {
    } else {
      var all := Events(p, w, known, es);
      HandledReady(p, w, known, es[0]);
      var v := Handled(p, w, known, es[0]);
      assert all[0] == Event.Notice(known, es[0]) && After(p, w, all[0]) == v;
      assert all[1..] == Events(p, v, Remembered(p, w, known, es[0]), es[1..]);
      EventKeeps(p, w, all[0]);
      WatchIsRun(p, v, Remembered(p, w, known, es[0]), es[1..]);
    }
  }

  /** If such a deletion does fail, the next node may be given the addresses of one that is still registered. */
  lemma FailedDeletionOverlaps(p: Plan, w: World, a: string, b: string, ip: nat, f: Faults)
    requires Assigned(p, w) && a in w.reg && b !in w.reg
    requires forall n :: 0 <= n < Count(p) ==> At(p, n) in w.taken
    requires !f.invalid && !f.getFails && !f.createFails && f.deleteFails
    ensures var v := Added(p, Deleted(p, w, a, f), b, ip, f);
            a in v.reg && b in v.reg && v.reg[a].subnet == v.reg[b].subnet
  {
    hide Valid, Count, At, Contains;
    var u := Deleted(p, w, a, f);
    var s := w.reg[a].subnet;
    PlannedInside(p, s);
    var n :| 0 <= n < Count(p) && s == At(p, n);
    FailsOnlyWhenFull(p, u.taken, u.next);
    assert At(p, n) !in u.taken;
    var r := FirstFree(p, u.taken, u.next, 0);
    assert r.Some? && At(p, r.value) !in u.taken && At(p, r.value) in w.taken;
  }

  // ---------------------------------------------------------------- gateways, and what the flows rely on

  function NetOf(s: Subnet): Flows.Net
    requires s.length <= 32
  {
    Flows.Net(s.ip, Pow2(32 - s.length))
  }

  /** Bytes of an address, as GenerateDefaultGateway sees it. */
  function Octets(u: nat): (nat, nat, nat, nat)
  {
    (u / 0x1000000 % 256, u / 0x10000 % 256, u / 256 % 256, u % 256)
  }

  function FromOctets(o: (nat, nat, nat, nat)): nat
  {
    o.0 * 0x1000000 + o.1 * 0x10000 + o.2 * 256 + o.3
  }

  lemma OctetsRoundTrip(u: nat)
    requires u < WORD
    ensures FromOctets(Octets(u)) == u
  {
    Halved(u);
    Halved(u / 256);
    Halved(u / 256 / 256);
    assert u / 0x10000 == u / 256 / 256 && u / 0x1000000 == u / 256 / 256 / 256;
    assert u / 0x1000000 < 256;
  }

  lemma Halved(u: nat)
    ensures u == 256 * (u / 256) + u % 256
  {
  }

  /** Setting the last bit of the last byte gives the gateway that the flows are built with. */
  lemma GatewayInOctets(s: Subnet)
    requires s.length <= 32 && s.ip < WORD
    ensures var o := Octets(s.ip); FromOctets((o.0, o.1, o.2, Or(o.3, 1))) == Pipeline.Gateway(NetOf(s))
  {
    var o := Octets(s.ip);
    OctetsRoundTrip(s.ip);
    Halves(o.3);
    OrOne(o.3 / 2);
    assert s.ip % 2 == o.3 % 2;
  }

  lemma OrOne(a: nat)
    ensures Or(2 * a, 1) == 2 * a + 1 && Or(2 * a + 1, 1) == 2 * a + 1
  {
    OrZero(a);
  }

  /** The nodes' nets are disjoint parts of the cluster network, each with a gateway of its own. */
  lemma NodesHaveTheirGateways(p: Plan, w: World, a: string, b: string)
    requires Assigned(p, w) && p.hostBits >= 1 && a in w.reg && b in w.reg && a != b
    ensures w.reg[a].subnet.length <= 32 && w.reg[b].subnet.length <= 32
    ensures var m, n := NetOf(w.reg[a].subnet), NetOf(w.reg[b].subnet);
            && m.Disjoint(n)
            && m.Within(Flows.Net(p.ip, Pow2(32 - p.prefix)))
            && m.Contains(Pipeline.Gateway(m)) && n.Contains(Pipeline.Gateway(n))
            && Pipeline.Gateway(m) != Pipeline.Gateway(n)
  {
    hide Valid, Count, At, PlanFor, IsNetwork;
    var s, t := w.reg[a].subnet, w.reg[b].subnet;
    PlannedApart(p, s, t);
    PlannedGateway(p, s);
    PlannedGateway(p, t);
  }

  lemma PlannedGateway(p: Plan, s: Subnet)
    requires Valid(p) && Planned(p, s) && p.hostBits >= 1
    ensures s.length <= 32 && NetOf(s).Contains(Pipeline.Gateway(NetOf(s)))
    ensures NetOf(s).Within(Flows.Net(p.ip, Pow2(32 - p.prefix)))
  {
    hide Count, Address, PlanFor, IsNetwork, Low;
    var n :| 0 <= n < Count(p) && s == At(p, n);
    SubnetsDisjoint(p, n, n);
  }
}
