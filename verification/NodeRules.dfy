/** What the commands keep: pod, host subnet and service rules come and go without touching anything else. */
module NodeRules {
  import opened OpenFlow
  import opened Pipeline
  import opened Bridges
  import PipelineRuns
  import opened Options

  // ---------------------------------------------------------------- the life of a pod

  /** The flows that del_ovs_flows selects: ARP or IP from or to the one address. */
  predicate OfPod(ip: nat, m: Match)
  {
    && m.kind.Some? && !m.kind.value.Other?
    && ((m.dst.Some? && m.dst.value.Within(Host(ip))) || (m.src.Some? && m.src.value.Within(Host(ip))))
  }

  lemma AppliedOne(flows: set<Flow>, cs: seq<Command>)
    requires cs != []
    ensures Applied(flows, cs) == Applied(Effect(flows, cs[0]), cs[1..])
  {
  }

  lemma AppliedNone(flows: set<Flow>)
    ensures Applied(flows, []) == flows
  {
  }

  lemma PodDeleted(flows: set<Flow>, ip: nat)
    ensures Applied(flows, PodDeletes(ip)) == set f | f in flows && !OfPod(ip, f.match_)
  {
    hide Applied;
    var cs := PodDeletes(ip);
    assert cs[1..][1..] == cs[2..] && cs[2..][1..] == cs[3..] && cs[3..][1..] == cs[4..];
    var pod := Some(Host(ip));
    var a := Delete(flows, None, IP.(dst := pod));
    var b := Delete(a, None, IP.(src := pod));
    var c := Delete(b, None, ARP.(dst := pod));
    var d := Delete(c, None, ARP.(src := pod));
    AppliedOne(flows, cs);
    AppliedOne(a, cs[1..]);
    AppliedOne(b, cs[2..]);
    AppliedOne(c, cs[3..]);
    AppliedNone(d);
    forall f
      ensures f in d <==> f in flows && !OfPod(ip, f.match_)
    {
    }
  }

  lemma OwnFlows(d: Pod)
    ensures forall f :: f in PodFlows(d) ==> OfPod(d.ip, f.match_)
    ensures forall i, j :: 0 <= i < j < |PodFlows(d)| ==> !SameKey(PodFlows(d)[i], PodFlows(d)[j])
  {
  }

  /** Deleting after adding: the pod's own flows go, and of the others just those the deletion selects anyway. */
  lemma TeardownForgetsSetup(flows: set<Flow>, d: Pod)
    ensures Applied(Applied(flows, PodAdds(d)), PodDeletes(d.ip)) == Applied(flows, PodDeletes(d.ip))
  {
    hide PodFlows, Applied, PodDeletes;
    var fs := PodFlows(d);
    AddsApplied(flows, fs);
    OwnFlows(d);
    AddedAll(flows, fs);
    PodDeleted(AddAll(flows, fs), d.ip);
    PodDeleted(flows, d.ip);
    forall g | g in flows && !OfPod(d.ip, g.match_)
      ensures g in AddAll(flows, fs)
    {
    }
  }

  /** Setup then teardown gives back the flow tables if and only if no flow was about the pod's address before. */
  lemma TeardownUndoesSetup(flows: set<Flow>, d: Pod)
    ensures Applied(Applied(flows, PodAdds(d)), PodDeletes(d.ip)) == flows
       <==> forall f :: f in flows ==> !OfPod(d.ip, f.match_)
  {
    hide Applied, PodDeletes;
    TeardownForgetsSetup(flows, d);
    PodDeleted(flows, d.ip);
  }

  /** Setup in network d.vnid then update to e.vnid equals teardown of whatever was there and a fresh setup. */
  lemma UpdateIsFreshSetup(flows: set<Flow>, d: Pod, e: Pod)
    requires d.ip == e.ip
    ensures Applied(Applied(flows, PodAdds(d)), PodDeletes(e.ip) + PodAdds(e))
         == Applied(Applied(flows, PodDeletes(e.ip)), PodAdds(e))
  {
    hide Applied, PodDeletes, PodAdds;
    AppliedTwice(Applied(flows, PodAdds(d)), PodDeletes(e.ip), PodAdds(e));
    TeardownForgetsSetup(flows, d);
  }

  /** Where no flow was about the address before, an update of a pod comes to the setup of the new one. */
  lemma UpdateReplacesSetup(flows: set<Flow>, d: Pod, e: Pod)
    requires d.ip == e.ip && forall f :: f in flows ==> !OfPod(e.ip, f.match_)
    ensures Applied(Applied(flows, PodAdds(d)), PodDeletes(e.ip) + PodAdds(e)) == Applied(flows, PodAdds(e))
  {
    hide Applied, PodDeletes, PodAdds, OfPod;
    UpdateIsFreshSetup(flows, d, e);
    PodDeleted(flows, e.ip);
    assert (set f | f in flows && !OfPod(e.ip, f.match_)) == flows;
  }

  // ---------------------------------------------------------------- a node's flows, one configuration change at a time

  lemma Member(n: Node, f: Flow)
    ensures f in NodeFlows(n) <==>
            || f in StaticFlows(n)
            || (exists h :: h in n.hosts && f in HostFlows(h))
            || (exists d :: d in n.pods && f in PodFlows(d))
            || (exists s :: s in n.servicePorts && f == ServiceFlow(s))
  {
    hide StaticFlows, HostFlows, PodFlows, ServiceFlow;
  }

  /** Adding the flows fs to those of n gives those of m, if m has n's and fs and no flow of n shares a key with fs. */
  lemma Grown(n: Node, fs: seq<Flow>, m: Node)
    requires Distinct(fs)
    requires forall g :: g in NodeFlows(m) <==> g in NodeFlows(n) || g in fs
    requires forall f, g :: f in fs && g in NodeFlows(n) && SameKey(f, g) ==> f == g
    ensures Applied(NodeFlows(n), Adds(fs)) == NodeFlows(m)
  {
    hide NodeFlows, Applied;
    AddsApplied(NodeFlows(n), fs);
    AddedAll(NodeFlows(n), fs);
  }

  /** Every flow that is added names the protocol along with an address or a port: both readings are the same. */
  lemma AddedReadAlike(r: Reading, n: Node, f: Flow)
    requires f in NodeFlows(n)
    ensures Read(r, f.match_) == f.match_
  {
    hide StaticFlows, NodeFlows;
    PipelineRuns.StaticOrNot(n, f);
    if f in StaticFlows(n) {
      StaticReadAlike(r, n, f);
    } else if h :| h in n.hosts && f in HostFlows(h) {
      PipelineRuns.HostFlowTables(h, f);
    } else if d :| d in n.pods && f in PodFlows(d) {
      PipelineRuns.PodFlowTables(d, f);
    }
  }

  lemma StaticReadAlike(r: Reading, n: Node, f: Flow)
    requires f in StaticFlows(n)
    ensures Read(r, f.match_) == f.match_
  {
    hide StaticFlows, Table0;
    PipelineRuns.StaticTables(n, f);
    if f.table == 0 {
      Table0ReadAlike(r, n, f);
    } else if f.table <= 4 {
      var i := PipelineRuns.Indexed(Tables1To4(n), f);
    } else if f.table == 5 {
      var i := PipelineRuns.Indexed(Table5(n), f);
    } else if f.table <= 8 {
      var i := PipelineRuns.Indexed(Tables6To8(), f);
    }
  }

  lemma Table0ReadAlike(r: Reading, n: Node, f: Flow)
    requires f in Table0(n)
    ensures Read(r, f.match_) == f.match_
  {
    var i := PipelineRuns.Indexed(Table0(n), f);
  }

  // pods

  lemma PodAdded(n: Node, d: Pod)
    requires forall e :: e in n.pods ==> e.ip != d.ip
    ensures Applied(NodeFlows(n), PodAdds(d)) == NodeFlows(n.(pods := n.pods + {d}))
  {
    hide StaticFlows, NodeFlows, Applied;
    var m := n.(pods := n.pods + {d});
    OwnFlows(d);
    forall g
      ensures g in NodeFlows(m) <==> g in NodeFlows(n) || g in PodFlows(d)
    {
      hide PodFlows, HostFlows, ServiceFlow;
      Member(n, g);
      Member(m, g);
      assert StaticFlows(m) == StaticFlows(n) by { SameStatic(n, m); }
    }
    forall f, g | f in PodFlows(d) && g in NodeFlows(n)
      ensures SameKey(f, g) ==> f == g
    {
      PodKeys(n, d, f, g);
    }
    Grown(n, PodFlows(d), m);
  }

  lemma SameStatic(n: Node, m: Node)
    requires n.local == m.local && n.cluster == m.cluster && n.services == m.services
    ensures StaticFlows(n) == StaticFlows(m)
  {
  }

  /** The flows of a pod with a new address are unlike any other. */
  lemma PodKeys(n: Node, d: Pod, f: Flow, g: Flow)
    requires f in PodFlows(d) && g in NodeFlows(n)
    requires forall e :: e in n.pods ==> e.ip != d.ip
    ensures !SameKey(f, g)
  {
    hide StaticFlows, NodeFlows, HostFlows, ServiceFlow;
    PipelineRuns.PodFlowTables(d, f);
    PipelineRuns.StaticOrNot(n, g);
    if g in StaticFlows(n) {
      StaticPriorities(n, g);
    } else if e :| e in n.pods && g in PodFlows(e) {
      PipelineRuns.PodFlowTables(e, g);
    }
  }

  lemma StaticPriorities(n: Node, f: Flow)
    requires f in StaticFlows(n)
    ensures f.table in {1, 2, 6, 7, 8} ==> f.priority == 0 && f.match_ == ANY
    ensures f.table == 4 ==> f.priority != 100 && f.match_.kind.None?
  {
    hide StaticFlows;
    PipelineRuns.StaticTables(n, f);
    if 1 <= f.table <= 4 {
      PipelineRuns.LowFlow(n, f);
    } else if 6 <= f.table <= 8 {
      PipelineRuns.HighFlow(n, f);
    }
  }

  /** No network of the node is the single address ip, and ip is not the gateway. */
  predicate ClearNets(n: Node, ip: nat)
  {
    && !n.local.Within(Host(ip)) && !n.cluster.Within(Host(ip)) && !n.services.Within(Host(ip))
    && Gateway(n.local) != ip
  }

  predicate Clear(n: Node, ip: nat)
  {
    && ClearNets(n, ip)
    && (forall h :: h in n.hosts ==> !h.subnet.Within(Host(ip)))
    && (forall s :: s in n.servicePorts ==> s.ip != ip)
  }

  lemma StaticClear(n: Node, ip: nat, f: Flow)
    requires f in StaticFlows(n) && ClearNets(n, ip)
    ensures !OfPod(ip, f.match_)
  {
    hide StaticFlows, Table0;
    PipelineRuns.StaticTables(n, f);
    if f.table == 0 {
      Table0Clear(n, ip, f);
    } else if f.table <= 4 {
      var i := PipelineRuns.Indexed(Tables1To4(n), f);
    } else if f.table == 5 {
      var i := PipelineRuns.Indexed(Table5(n), f);
    } else if f.table <= 8 {
      var i := PipelineRuns.Indexed(Tables6To8(), f);
    }
  }

  lemma Table0Clear(n: Node, ip: nat, f: Flow)
    requires f in Table0(n) && ClearNets(n, ip)
    ensures !OfPod(ip, f.match_)
  {
    var i := PipelineRuns.Indexed(Table0(n), f);
  }

  lemma StaticUnclear(n: Node, ip: nat) returns (f: Flow)
    requires !ClearNets(n, ip)
    ensures f in StaticFlows(n) && OfPod(ip, f.match_)
  {
    f := if n.local.Within(Host(ip)) then Table5(n)[2]
         else if n.cluster.Within(Host(ip)) then Table5(n)[4]
         else if n.services.Within(Host(ip)) then Tables1To4(n)[2]
         else Table5(n)[0];
    assert f in Table5(n) || f in Tables1To4(n);
  }

  lemma OthersClear(n: Node, ip: nat, f: Flow)
    requires f in NodeFlows(n) && Clear(n, ip) && forall d :: d in n.pods ==> d.ip != ip
    ensures !OfPod(ip, f.match_)
  {
    hide StaticFlows, NodeFlows;
    PipelineRuns.StaticOrNot(n, f);
    if f in StaticFlows(n) {
      StaticClear(n, ip, f);
    } else if h :| h in n.hosts && f in HostFlows(h) {
      PipelineRuns.HostFlowTables(h, f);
    } else if d :| d in n.pods && f in PodFlows(d) {
      PipelineRuns.PodFlowTables(d, f);
    }
  }

  lemma SomeUnclear(n: Node, ip: nat) returns (f: Flow)
    requires !Clear(n, ip)
    ensures f in NodeFlows(n) && OfPod(ip, f.match_)
  {
    hide StaticFlows, NodeFlows;
    if !ClearNets(n, ip) {
      f := StaticUnclear(n, ip);
      Member(n, f);
    } else if h :| h in n.hosts && h.subnet.Within(Host(ip)) {
      f := HostFlows(h)[1];
      PipelineRuns.HostFlow(n, h, 1);
    } else {
      var s :| s in n.servicePorts && s.ip == ip;
      f := ServiceFlow(s);
      Member(n, f);
    }
  }

  function WithoutPod(n: Node, ip: nat): Node
  {
    n.(pods := set d | d in n.pods && d.ip != ip)
  }

  /** Teardown removes exactly the pod, if and only if its address is not also used for something else. */
  lemma PodRemoved(n: Node, ip: nat)
    ensures Applied(NodeFlows(n), PodDeletes(ip)) == NodeFlows(WithoutPod(n, ip)) <==> Clear(n, ip)
  {
    hide StaticFlows, NodeFlows, Applied, PodDeletes, HostFlows, ServiceFlow, PodFlows, Clear, OfPod;
    var m := WithoutPod(n, ip);
    PodDeleted(NodeFlows(n), ip);
    SameStatic(n, m);
    assert Clear(n, ip) == Clear(m, ip) by { ClearSame(n, m, ip); }
    if Clear(n, ip) {
      forall g
        ensures g in NodeFlows(m) <==> g in NodeFlows(n) && !OfPod(ip, g.match_)
      {
        Member(n, g);
        Member(m, g);
        if g in NodeFlows(m) {
          OthersClear(m, ip, g);
        } else if d :| d in n.pods && g in PodFlows(d) {
          OwnFlows(d);
        }
      }
    } else {
      var f := SomeUnclear(m, ip);
    }
  }

  lemma ClearSame(n: Node, m: Node, ip: nat)
    requires m == WithoutPod(n, ip)
    ensures Clear(n, ip) == Clear(m, ip)
  {
  }

  // host subnets

  lemma OwnHostFlows(h: HostSubnet)
    ensures Distinct(HostFlows(h))
  {
  }

  /** Other hosts use another subnet, or the same in the same way. */
  predicate Joins(n: Node, h: HostSubnet)
  {
    forall g :: g in n.hosts && g.subnet == h.subnet ==> g == h
  }

  lemma HostAdded(n: Node, h: HostSubnet)
    ensures Applied(NodeFlows(n), HostAdds(h)) == NodeFlows(n.(hosts := n.hosts + {h})) <==> Joins(n, h)
  {
    hide StaticFlows, NodeFlows, Applied, HostFlows, Joins;
    var m := n.(hosts := n.hosts + {h});
    OwnHostFlows(h);
    forall g
      ensures g in NodeFlows(m) <==> g in NodeFlows(n) || g in HostFlows(h)
    {
      hide PodFlows, ServiceFlow;
      Member(n, g);
      Member(m, g);
      SameStatic(n, m);
    }
    if Joins(n, h) {
      forall f, g | f in HostFlows(h) && g in NodeFlows(n)
        ensures SameKey(f, g) ==> f == g
      {
        HostKeys(n, h, f, g);
      }
      Grown(n, HostFlows(h), m);
    } else {
      var g := Replaced(n, h);
      AddsApplied(NodeFlows(n), HostFlows(h));
      AddedAll(NodeFlows(n), HostFlows(h));
    }
  }

  lemma HostKeys(n: Node, h: HostSubnet, f: Flow, g: Flow)
    requires f in HostFlows(h) && g in NodeFlows(n) && Joins(n, h)
    ensures SameKey(f, g) ==> f == g
  {
    hide StaticFlows, NodeFlows, PodFlows, ServiceFlow;
    PipelineRuns.HostFlowTables(h, f);
    PipelineRuns.StaticOrNot(n, g);
    if g in StaticFlows(n) {
      StaticPriorities(n, g);
    } else if e :| e in n.hosts && g in HostFlows(e) {
      PipelineRuns.HostFlowTables(e, g);
    }
  }

  /** Another host with the same subnet loses its flows of table 8. */
  lemma Replaced(n: Node, h: HostSubnet) returns (g: Flow)
    requires !Joins(n, h)
    ensures g in NodeFlows(n) && g !in HostFlows(h) && exists f :: f in HostFlows(h) && SameKey(f, g)
  {
    hide NodeFlows;
    var e :| e in n.hosts && e.subnet == h.subnet && e != h;
    PipelineRuns.HostFlow(n, e, 1);
    g := HostFlows(e)[1];
    assert SameKey(HostFlows(h)[1], g) && HostFlows(h)[1] in HostFlows(h);
    if g in HostFlows(h) {
      Tunnels(h, g);
    }
  }

  lemma Tunnels(h: HostSubnet, f: Flow)
    requires f in HostFlows(h) && f.table == 8
    ensures |f.actions| == 3 && f.actions[1] == SetTunDst(h.hostIP)
  {
    PipelineRuns.HostFlowTables(h, f);
  }

  /** What the deletion of a host subnet selects: read literally, what is about the host's address or a subnet inside
      the host's; normalised, what is about the host's address and all of table 8. */
  predicate OfHost(r: Reading, h: HostSubnet, f: Flow)
  {
    || (f.table == 1 && f.match_.tunSrc == Some(h.hostIP))
    || (f.table == 8 && (r.Normalised? || (f.match_.dst.Some? && f.match_.dst.value.Within(h.subnet))))
  }

  lemma HostDeleted(r: Reading, flows: set<Flow>, h: HostSubnet)
    ensures Applied(flows, HostDeletes(r, h)) == set f | f in flows && !OfHost(r, h, f)
  {
    hide Applied;
    var cs := HostDeletes(r, h);
    var a := Effect(flows, cs[0]);
    assert cs[1..][1..] == [];
    AppliedOne(flows, cs);
    AppliedOne(a, cs[1..]);
    AppliedNone(Effect(a, cs[1]));
  }

  /** No other host has h's address, nor (where the deletion goes by address) a subnet inside h's. */
  predicate Leaves(r: Reading, n: Node, h: HostSubnet)
  {
    forall g :: g in n.hosts && g != h ==> g.hostIP != h.hostIP && (r.Literal? ==> !g.subnet.Within(h.subnet))
  }

  function WithoutHost(n: Node, h: HostSubnet): Node
  {
    n.(hosts := n.hosts - {h})
  }

  /** What a deletion of a host subnet leaves of flows in which nothing is about the host. */
  function Left(r: Reading, flows: set<Flow>): set<Flow>
  {
    set f | f in flows && (r.Literal? || f.table != 8)
  }

  /** Exactly the host goes, and with a normalised match the rest of table 8, if and only if no other host has its address
      (or, read literally, a subnet inside its own). */
  lemma HostRemoved(r: Reading, n: Node, h: HostSubnet)
    ensures Applied(NodeFlows(n), HostDeletes(r, h)) == Left(r, NodeFlows(WithoutHost(n, h))) <==> Leaves(r, n, h)
    ensures Left(Literal, NodeFlows(WithoutHost(n, h))) == NodeFlows(WithoutHost(n, h))
  {
    hide StaticFlows, NodeFlows, Applied, HostDeletes, HostFlows, ServiceFlow, PodFlows, OfHost;
    var m := WithoutHost(n, h);
    HostDeleted(r, NodeFlows(n), h);
    SameStatic(n, m);
    if Leaves(r, n, h) {
      forall g
        ensures g in Left(r, NodeFlows(m)) <==> g in NodeFlows(n) && !OfHost(r, h, g)
      {
        Member(n, g);
        Member(m, g);
        if g in NodeFlows(m) {
          NotOfHost(r, m, h, g);
        } else if g in HostFlows(h) {
          AllOfHost(r, h, g);
        }
      }
    } else {
      var g := Taken(r, n, h);
    }
  }

  lemma AllOfHost(r: Reading, h: HostSubnet, f: Flow)
    requires f in HostFlows(h)
    ensures OfHost(r, h, f)
  {
    PipelineRuns.HostFlowTables(h, f);
  }

  lemma NotOfHost(r: Reading, m: Node, h: HostSubnet, f: Flow)
    requires f in NodeFlows(m)
    requires forall g :: g in m.hosts ==> g.hostIP != h.hostIP && (r.Literal? ==> !g.subnet.Within(h.subnet))
    ensures OfHost(r, h, f) <==> r.Normalised? && f.table == 8
  {
    hide StaticFlows, NodeFlows;
    PipelineRuns.StaticOrNot(m, f);
    if f in StaticFlows(m) {
      StaticPriorities(m, f);
    } else if e :| e in m.hosts && f in HostFlows(e) {
      PipelineRuns.HostFlowTables(e, f);
    }
  }

  /** Another host with the same address, or a subnet inside h's, loses flows. */
  lemma Taken(r: Reading, n: Node, h: HostSubnet) returns (g: Flow)
    requires !Leaves(r, n, h)
    ensures g in Left(r, NodeFlows(WithoutHost(n, h))) && OfHost(r, h, g)
  {
    hide NodeFlows;
    var e :| e in n.hosts && e != h && (e.hostIP == h.hostIP || (r.Literal? && e.subnet.Within(h.subnet)));
    var i := if e.hostIP == h.hostIP then 0 else 1;
    PipelineRuns.HostFlow(WithoutHost(n, h), e, i);
    g := HostFlows(e)[i];
  }

  /** The flow that table 8 ends with. */
  const TABLE8_DEFAULT := Flow(8, 0, ANY, [])

  lemma DefaultThere(n: Node)
    ensures TABLE8_DEFAULT in NodeFlows(n)
  {
    hide NodeFlows;
    assert Tables6To8()[2] == TABLE8_DEFAULT;
    assert TABLE8_DEFAULT in StaticFlows(n);
    Member(n, TABLE8_DEFAULT);
  }

  /** With a normalised match the deletion empties table 8, so what is left is the flows of no configuration at all,
      and every packet that comes to table 8 finds no flow. */
  lemma NormalisedDeletionEmptiesTable8(flows: set<Flow>, h: HostSubnet, m: Node, p: Packet, v: Verdict)
    ensures var left := Applied(flows, HostDeletes(Normalised, h));
            && (forall f :: f in left <==> f in flows && f.table != 8
                                           && !(f.table == 1 && f.match_.tunSrc == Some(h.hostIP)))
            && left != NodeFlows(m)
            && (Runs(left, 8, p, v) <==> v == Missed)
  {
    hide NodeFlows, Applied, HostDeletes;
    HostDeleted(Normalised, flows, h);
    DefaultThere(m);
    var left := Applied(flows, HostDeletes(Normalised, h));
    assert forall f :: !Candidate(left, 8, p, f);
  }

  // services

  lemma ServiceAdded(n: Node, s: ServicePort)
    ensures Add(NodeFlows(n), ServiceFlow(s)) == NodeFlows(n.(servicePorts := n.servicePorts + {s}))
  {
    hide StaticFlows, NodeFlows, HostFlows, PodFlows;
    var m := n.(servicePorts := n.servicePorts + {s});
    SameStatic(n, m);
    forall g
      ensures g in NodeFlows(m) <==> g in Add(NodeFlows(n), ServiceFlow(s))
    {
      Member(n, g);
      Member(m, g);
      if g in NodeFlows(n) {
        ServiceKeys(n, s, g);
      }
    }
  }

  lemma ServiceKeys(n: Node, s: ServicePort, g: Flow)
    requires g in NodeFlows(n)
    ensures SameKey(ServiceFlow(s), g) ==> g == ServiceFlow(s)
  {
    hide StaticFlows, NodeFlows, HostFlows, PodFlows;
    PipelineRuns.StaticOrNot(n, g);
    if g in StaticFlows(n) {
      StaticPriorities(n, g);
    }
  }

  function WithoutService(n: Node, ip: nat, proto: nat, port: nat): Node
  {
    n.(servicePorts := set s | s in n.servicePorts && !(s.ip == ip && s.proto == proto && s.port == port))
  }

  lemma ServiceCovered(s: ServicePort, ip: nat, proto: nat, port: nat)
    ensures ServiceFlow(s).table == 4
    ensures Covers(ServiceMatch(ip, proto, port), ServiceFlow(s).match_) <==> s.ip == ip && s.proto == proto && s.port == port
  {
  }

  lemma ServiceUncovered(n: Node, ip: nat, proto: nat, port: nat, f: Flow)
    requires f in NodeFlows(n) && f.table == 4 && Covers(ServiceMatch(ip, proto, port), f.match_)
    ensures exists s :: s in n.servicePorts && f == ServiceFlow(s)
  {
    hide StaticFlows, NodeFlows, HostFlows, PodFlows;
    PipelineRuns.StaticOrNot(n, f);
    if f in StaticFlows(n) {
      StaticPriorities(n, f);
    }
  }

  /** The deletion names no network, so it removes the port's rule in every network, and nothing else. */
  lemma ServiceRemoved(n: Node, ip: nat, proto: nat, port: nat)
    ensures Effect(NodeFlows(n), ServiceDelete(ip, proto, port)) == NodeFlows(WithoutService(n, ip, proto, port))
  {
    hide StaticFlows, NodeFlows, HostFlows, PodFlows, ServiceFlow, Covers;
    var m := WithoutService(n, ip, proto, port);
    SameStatic(n, m);
    forall g
      ensures g in NodeFlows(m) <==> g in Effect(NodeFlows(n), ServiceDelete(ip, proto, port))
    {
      Member(n, g);
      Member(m, g);
      forall s
        ensures ServiceFlow(s).table == 4
        ensures Covers(ServiceMatch(ip, proto, port), ServiceFlow(s).match_) <==>
                s.ip == ip && s.proto == proto && s.port == port
      {
        ServiceCovered(s, ip, proto, port);
      }
      if g in NodeFlows(n) && g.table == 4 && Covers(ServiceMatch(ip, proto, port), g.match_) {
        ServiceUncovered(n, ip, proto, port, g);
        if g in NodeFlows(m) {
          ServiceUncovered(m, ip, proto, port, g);
        }
      }
    }
  }

  // ---------------------------------------------------------------- every run

  datatype Event = PodUp(pod: Pod) | PodChanged(pod: Pod) | PodDown(ip: nat)
                 | HostUp(host: HostSubnet) | HostDown(host: HostSubnet)
                 | ServiceUp(service: Service, netid: nat) | ServiceDown(service: Service)

  /** The commands the node runs. */
  function Commands(r: Reading, e: Event): seq<Command>
  {
    match e
    case PodUp(d) => PodAdds(d)
    case PodChanged(d) => PodDeletes(d.ip) + PodAdds(d)
    case PodDown(ip) => PodDeletes(ip)
    case HostUp(h) => HostAdds(h)
    case HostDown(h) => HostDeletes(r, h)
    case ServiceUp(s, netid) => ServiceAdds(s, netid)
    case ServiceDown(s) => ServiceDeletes(s)
  }

  /** What the node should be configured for afterwards. */
  function After(n: Node, e: Event): Node
  {
    match e
    case PodUp(d) => n.(pods := n.pods + {d})
    case PodChanged(d) => n.(pods := (set c | c in n.pods && c.ip != d.ip) + {d})
    case PodDown(ip) => WithoutPod(n, ip)
    case HostUp(h) => n.(hosts := n.hosts + {h})
    case HostDown(h) => WithoutHost(n, h)
    case ServiceUp(s, netid) =>
      n.(servicePorts := n.servicePorts + set p | p in s.ports :: ServicePort(s.ip, p.0, p.1, netid))
    case ServiceDown(s) =>
      n.(servicePorts := set p | p in n.servicePorts && !(p.ip == s.ip && (p.proto, p.port) in s.ports))
  }

  predicate Allowed(n: Node, e: Event)
  {
    match e
    case PodUp(d) => forall c :: c in n.pods ==> c.ip != d.ip
    case PodChanged(d) => Clear(n, d.ip)
    case PodDown(ip) => Clear(n, ip)
    case HostUp(h) => Joins(n, h)
    case HostDown(h) => Leaves(Literal, n, h)
    case ServiceUp(_, _) => true
    case ServiceDown(_) => true
  }

  lemma {:induction false} ServicesAdded(n: Node, s: Service, netid: nat)
    ensures Applied(NodeFlows(n), ServiceAdds(s, netid)) == NodeFlows(After(n, ServiceUp(s, netid)))
    decreases |s.ports|
  {
    hide NodeFlows;
    if s.ports == [] {
      assert After(n, ServiceUp(s, netid)) == n;
    } else {
      var p := ServicePort(s.ip, s.ports[0].0, s.ports[0].1, netid);
      var m := n.(servicePorts := n.servicePorts + {p});
      var t := s.(ports := s.ports[1..]);
      ServiceAdded(n, p);
      ServicesAdded(m, t, netid);
      assert ServiceAdds(s, netid)[1..] == ServiceAdds(t, netid);
      assert After(n, ServiceUp(s, netid)).servicePorts == After(m, ServiceUp(t, netid)).servicePorts by {
        assert forall q :: q in s.ports <==> q == s.ports[0] || q in t.ports;
      }
    }
  }

  lemma {:induction false} ServicesRemoved(n: Node, s: Service)
    ensures Applied(NodeFlows(n), ServiceDeletes(s)) == NodeFlows(After(n, ServiceDown(s)))
    decreases |s.ports|
  {
    hide NodeFlows, Effect;
    if s.ports == [] {
      assert After(n, ServiceDown(s)) == n;
    } else {
      var p := s.ports[0];
      var m := WithoutService(n, s.ip, p.0, p.1);
      var t := s.(ports := s.ports[1..]);
      ServiceRemoved(n, s.ip, p.0, p.1);
      ServicesRemoved(m, t);
      assert ServiceDeletes(s)[1..] == ServiceDeletes(t);
      assert After(n, ServiceDown(s)).servicePorts == After(m, ServiceDown(t)).servicePorts by {
        assert forall q :: q in s.ports <==> q == p || q in t.ports;
      }
    }
  }

  /** The event deletes no host subnet, or the deletion is read literally. */
  predicate Kept(r: Reading, e: Event)
  {
    r.Literal? || !e.HostDown?
  }

  /** One event carried out in full turns the flows of n into the flows of its new configuration, if and only if it is
      not a deletion of a host subnet that is normalised. */
  lemma EventTracks(r: Reading, n: Node, e: Event)
    requires Allowed(n, e)
    ensures Applied(NodeFlows(n), Commands(r, e)) == NodeFlows(After(n, e)) <==> Kept(r, e)
  {
    hide NodeFlows, Applied, Clear, Joins, HostDeletes, PodDeletes, PodAdds, HostAdds, ServiceAdds, ServiceDeletes;
    match e
    case PodUp(d) => PodAdded(n, d);
    case PodChanged(d) =>
      AppliedTwice(NodeFlows(n), PodDeletes(d.ip), PodAdds(d));
      PodRemoved(n, d.ip);
      PodAdded(WithoutPod(n, d.ip), d);
    case PodDown(ip) => PodRemoved(n, ip);
    case HostUp(h) => HostAdded(n, h);
    case HostDown(h) =>
      HostRemoved(r, n, h);
      if r.Normalised? {
        DefaultGoes(NodeFlows(n), h);
        DefaultThere(WithoutHost(n, h));
      }
    case ServiceUp(s, netid) => ServicesAdded(n, s, netid);
    case ServiceDown(s) => ServicesRemoved(n, s);
  }

  lemma DefaultGoes(flows: set<Flow>, h: HostSubnet)
    ensures TABLE8_DEFAULT !in Applied(flows, HostDeletes(Normalised, h))
  {
    hide Applied, HostDeletes;
    HostDeleted(Normalised, flows, h);
  }

  ghost predicate AllowedRun(n: Node, es: seq<Event>)
    decreases |es|
  {
    es == [] || (Allowed(n, es[0]) && AllowedRun(After(n, es[0]), es[1..]))
  }

  function AfterRun(n: Node, es: seq<Event>): Node
    decreases |es|
  {
    if es == [] then n else AfterRun(After(n, es[0]), es[1..])
  }

  function AppliedRun(r: Reading, flows: set<Flow>, es: seq<Event>): set<Flow>
    decreases |es|
  {
    if es == [] then flows else AppliedRun(r, Applied(flows, Commands(r, es[0])), es[1..])
  }

  /** No command but the setup of the bridge brings the default flow of table 8 back. */
  lemma DefaultStaysAway(r: Reading, flows: set<Flow>, e: Event)
    requires TABLE8_DEFAULT !in flows
    ensures TABLE8_DEFAULT !in Applied(flows, Commands(r, e))
  {
    hide Applied;
    match e
    case PodUp(d) => NeverAdded(flows, Commands(r, e));
    case PodChanged(d) => NeverAdded(flows, Commands(r, e));
    case PodDown(ip) => NeverAdded(flows, Commands(r, e));
    case HostUp(h) => NeverAdded(flows, Commands(r, e));
    case HostDown(h) => NeverAdded(flows, Commands(r, e));
    case ServiceUp(s, netid) => NeverAdded(flows, Commands(r, e));
    case ServiceDown(s) => NeverAdded(flows, Commands(r, e));
  }

  lemma {:induction false} NeverAdded(flows: set<Flow>, cs: seq<Command>)
    requires TABLE8_DEFAULT !in flows && AddFlow(TABLE8_DEFAULT) !in cs
    ensures TABLE8_DEFAULT !in Applied(flows, cs)
    decreases |cs|
  {
    if cs == [] {
    } else {
      NeverAdded(Effect(flows, cs[0]), cs[1..]);
    }
  }

  lemma {:induction false} RunStaysAway(r: Reading, flows: set<Flow>, es: seq<Event>)
    requires TABLE8_DEFAULT !in flows
    ensures TABLE8_DEFAULT !in AppliedRun(r, flows, es)
    decreases |es|
  {
    hide Applied, Commands;
    if es == [] {
    } else {
      DefaultStaysAway(r, flows, es[0]);
      RunStaysAway(r, Applied(flows, Commands(r, es[0])), es[1..]);
    }
  }

  /** Over any run the bridge holds exactly the flows of the node's current configuration, if and only if no deletion of
      a host subnet in it is normalised. */
  lemma {:induction false} RunTracks(r: Reading, n: Node, es: seq<Event>)
    requires AllowedRun(n, es)
    ensures AppliedRun(r, NodeFlows(n), es) == NodeFlows(AfterRun(n, es)) <==> forall e :: e in es ==> Kept(r, e)
    decreases |es|
  {
    hide NodeFlows, Applied, Commands, After, Allowed, Kept;
    if es == [] {
    } else {
      assert forall e :: e in es <==> e == es[0] || e in es[1..];
      if Kept(r, es[0]) {
        EventTracks(r, n, es[0]);
        RunTracks(r, After(n, es[0]), es[1..]);
      } else {
        var flows := Applied(NodeFlows(n), Commands(r, es[0]));
        assert TABLE8_DEFAULT !in flows by { NotKept(r, NodeFlows(n), es[0]); }
        RunStaysAway(r, flows, es[1..]);
        DefaultThere(AfterRun(n, es));
      }
    }
  }

  lemma NotKept(r: Reading, flows: set<Flow>, e: Event)
    requires !Kept(r, e)
    ensures TABLE8_DEFAULT !in Applied(flows, Commands(r, e))
  {
    hide Applied, HostDeletes;
    DefaultGoes(flows, e.host);
  }

  /** What the node runs for one event. */
  method CarryOut(b: Bridge, e: Event) returns (ok: bool)
    modifies b
    ensures ok ==> b.flows == Applied(old(b.flows), Commands(b.reading, e))
  {
    hide Applied;
    ghost var cs := Commands(b.reading, e);
    assert cs[..|cs|] == cs;
    match e
    case PodUp(d) => ok := b.SetupPod(d);
    case PodChanged(d) => ok := b.UpdatePod(d);
    case PodDown(ip) => ok := b.TeardownPod(ip);
    case HostUp(h) => ok := b.AddHostSubnetRules(h);
    case HostDown(h) => ok := b.DeleteHostSubnetRules(h);
    case ServiceUp(s, netid) => ok := b.AddServiceRules(s, netid);
    case ServiceDown(s) => ok := b.DeleteServiceRules(s);
  }

  /** A bridge that starts with the flows of n and carries out es without a failure ends with those of the last
      configuration, if and only if no deletion of a host subnet is normalised. */
  method CarryOutAll(b: Bridge, ghost n: Node, es: seq<Event>) returns (ok: bool)
    requires b.flows == NodeFlows(n) && AllowedRun(n, es)
    modifies b
    ensures ok ==> b.flows == AppliedRun(b.reading, NodeFlows(n), es)
    ensures ok ==> (b.flows == NodeFlows(AfterRun(n, es)) <==> forall e :: e in es ==> Kept(b.reading, e))
  {
    hide NodeFlows, Applied, Commands, After, Allowed, Kept;
    var i := 0;
    while i < |es|
      invariant 0 <= i <= |es|
      invariant AppliedRun(b.reading, b.flows, es[i..]) == AppliedRun(b.reading, NodeFlows(n), es)
    {
      assert es[i..][0] == es[i] && es[i..][1..] == es[i + 1..];
      ok := CarryOut(b, es[i]);
      if !ok {
        return;
      }
      i := i + 1;
    }
    RunTracks(b.reading, n, es);
    ok := true;
  }
}
