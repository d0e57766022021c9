/** The flow tables implement the pipeline: every run ends, never misses, and has one verdict. */
module PipelineRuns {
  import opened OpenFlow
  import opened Pipeline

  // ---------------------------------------------------------------- which flows a table holds

  lemma Indexed(fs: seq<Flow>, f: Flow) returns (i: nat)
    requires f in fs
    ensures i < |fs| && fs[i] == f
  {
    i :| i < |fs| && fs[i] == f;
  }

  lemma HostFlowTables(h: HostSubnet, f: Flow)
    requires f in HostFlows(h)
    ensures f == HostFlows(h)[0] || f == HostFlows(h)[1] || f == HostFlows(h)[2]
    ensures f.table == 1 || f.table == 8
  {
  }

  lemma PodFlowTables(d: Pod, f: Flow)
    requires f in PodFlows(d)
    ensures f == PodFlows(d)[0] || f == PodFlows(d)[1] || f == PodFlows(d)[2] || f == PodFlows(d)[3]
            || (d.vnid != 0 && f == PodFlows(d)[4])
    ensures f.table == 2 || f.table == 6 || f.table == 7
  {
  }

  lemma StaticOrNot(n: Node, f: Flow)
    requires f in NodeFlows(n)
    ensures || f in StaticFlows(n)
            || (exists h :: h in n.hosts && f in HostFlows(h) && (f.table == 1 || f.table == 8))
            || (exists d :: d in n.pods && f in PodFlows(d) && (f.table == 2 || f.table == 6 || f.table == 7))
            || (exists s :: s in n.servicePorts && f == ServiceFlow(s) && f.table == 4)
  {
    hide StaticFlows, HostFlows, PodFlows;
    if f in AllHostFlows(n.hosts) {
      var h :| h in n.hosts && f in HostFlows(h);
      HostFlowTables(h, f);
    } else if f in AllPodFlows(n.pods) {
      var d :| d in n.pods && f in PodFlows(d);
      PodFlowTables(d, f);
    }
  }

  lemma Table0Only(n: Node, f: Flow)
    requires f in Table0(n)
    ensures f.table == 0
  {
    var i := Indexed(Table0(n), f);
  }

  lemma Tables1To4Only(n: Node, f: Flow)
    requires f in Tables1To4(n)
    ensures 1 <= f.table <= 4
  {
    var i := Indexed(Tables1To4(n), f);
  }

  lemma Table5Only(n: Node, f: Flow)
    requires f in Table5(n)
    ensures f.table == 5
  {
    var i := Indexed(Table5(n), f);
  }

  lemma Tables6To8Only(f: Flow)
    requires f in Tables6To8()
    ensures 6 <= f.table <= 8
  {
    var i := Indexed(Tables6To8(), f);
  }

  lemma StaticTables(n: Node, f: Flow)
    requires f in StaticFlows(n)
    ensures f.table == 0 ==> f in Table0(n)
    ensures 1 <= f.table <= 4 ==> f in Tables1To4(n)
    ensures f.table == 5 ==> f in Table5(n)
    ensures 6 <= f.table <= 8 ==> f in Tables6To8()
    ensures 9 <= f.table ==> f == VERSION_FLOW
  {
    hide Table0, Tables1To4, Table5, Tables6To8;
    if f in Table0(n) {
      Table0Only(n, f);
    } else if f in Tables1To4(n) {
      Tables1To4Only(n, f);
    } else if f in Table5(n) {
      Table5Only(n, f);
    } else if f in Tables6To8() {
      Tables6To8Only(f);
    }
  }

  // ---------------------------------------------------------------- one table at a time

  lemma Static(n: Node, f: Flow)
    requires f in StaticFlows(n)
    ensures f in NodeFlows(n)
  {
    hide StaticFlows;
  }

  lemma AtTable0(n: Node, p: Packet, f: Flow)
    requires Chosen(NodeFlows(n), 0, p, f)
    ensures Execute(f.actions, p) == Dispatch(n, p)
  {
    hide Table0, Execute, Dispatch;
    var fs := Table0(n);
    StaticOrNot(n, f);
    StaticTables(n, f);
    var i := Indexed(fs, f);
    forall j | 0 <= j < |fs| && Matches(fs[j].match_, p)
      ensures fs[j].priority <= fs[i].priority
    {
      assert fs[j] in fs;
      Table0Only(n, fs[j]);
      assert fs[j] in StaticFlows(n);
      Static(n, fs[j]);
      assert Candidate(NodeFlows(n), 0, p, fs[j]);
    }
    Table0Picks(n, p, i);
  }

  lemma RunOne(a: Action, p: Packet)
    ensures Execute([], p) == Done(Dropped)
    ensures a.Goto? ==> Execute([a], p) == Next(a.table, p)
    ensures a.Output? ==> Execute([a], p) == Send(p, a.port)
  {
  }

  lemma RunTwo(a: Action, b: Action, p: Packet)
    ensures a.TunToReg? && b.Goto? ==> Execute([a, b], p) == Next(b.table, p.(reg0 := p.tunId))
    ensures a.LoadReg? && b.Goto? ==> Execute([a, b], p) == Next(b.table, p.(reg0 := a.n))
  {
    assert [a, b][1..] == [b];
    RunOne(b, p.(reg0 := p.tunId));
    if a.LoadReg? {
      RunOne(b, p.(reg0 := a.n));
    }
  }

  /** Which flow of table 0 takes p. */
  function Row0(n: Node, p: Packet): nat
  {
    if p.inPort == VXLAN then
      if !p.kind.Other? && n.cluster.Contains(p.src) && n.local.Contains(p.dst) then if p.kind.Arp? then 0 else 1
      else 2
    else if p.inPort == TUN then
      if p.kind.Ip? then 4
      else if p.kind.Arp? && p.src == Gateway(n.local) && n.cluster.Contains(p.dst) then 3
      else 5
    else if p.inPort == VOVSBR then
      if !p.kind.Other? && n.local.Contains(p.src) then if p.kind.Arp? then 6 else 7
      else 8
    else if p.kind.Arp? then 9
    else if p.kind.Ip? then 10
    else 11
  }

  lemma Table0Picks(n: Node, p: Packet, i: nat)
    requires i < |Table0(n)| && Matches(Table0(n)[i].match_, p)
    requires forall j :: 0 <= j < |Table0(n)| && Matches(Table0(n)[j].match_, p) ==>
                           Table0(n)[j].priority <= Table0(n)[i].priority
    ensures Execute(Table0(n)[i].actions, p) == Dispatch(n, p)
  {
    var e := Row0(n, p);
    Row0Matches(n, p);
    Row0Wins(n, p, i);
    assert Table0(n)[e].priority <= Table0(n)[i].priority;
    hide Execute;
    RunOne(Goto(5), p);
    RunOne(Goto(2), p);
    RunTwo(TunToReg, Goto(1), p);
  }

  lemma Row0Matches(n: Node, p: Packet)
    ensures Row0(n, p) < |Table0(n)| && Matches(Table0(n)[Row0(n, p)].match_, p)
  {
  }

  lemma Row0Wins(n: Node, p: Packet, i: nat)
    requires i < |Table0(n)| && Matches(Table0(n)[i].match_, p)
    ensures i == Row0(n, p) || Table0(n)[i].priority < Table0(n)[Row0(n, p)].priority
  {
    if i == 0 || i == 1 || i == 2 {
    } else if i == 3 || i == 4 || i == 5 {
    } else if i == 6 || i == 7 || i == 8 {
    } else {
    }
  }

  /** The flows of table t that come from host subnets. */
  lemma HostFlow(n: Node, h: HostSubnet, i: nat)
    requires h in n.hosts && i < 3
    ensures HostFlows(h)[i] in NodeFlows(n)
  {
    hide StaticFlows, AllPodFlows, AllServiceFlows;
    assert HostFlows(h)[i] in HostFlows(h);
  }

  lemma PodFlow(n: Node, d: Pod, i: nat)
    requires d in n.pods && i < |PodFlows(d)|
    ensures PodFlows(d)[i] in NodeFlows(n)
  {
    hide StaticFlows, AllHostFlows, AllServiceFlows;
    assert PodFlows(d)[i] in PodFlows(d);
  }

  lemma Low(n: Node, i: nat)
    requires i < 6
    ensures Tables1To4(n)[i] in NodeFlows(n)
  {
    assert Tables1To4(n)[i] in StaticFlows(n);
    Static(n, Tables1To4(n)[i]);
  }

  lemma High(n: Node, i: nat)
    requires i < 3
    ensures Tables6To8()[i] in NodeFlows(n)
  {
    assert Tables6To8()[i] in StaticFlows(n);
    Static(n, Tables6To8()[i]);
  }

  lemma HostFlowAt1(h: HostSubnet, p: Packet, f: Flow)
    requires f in HostFlows(h) && f.table == 1 && Matches(f.match_, p)
    ensures h.hostIP == p.tunSrc && Execute(f.actions, p) == Next(5, p)
  {
    hide Execute;
    HostFlowTables(h, f);
    RunOne(Goto(5), p);
  }

  lemma HostTakesAt1(n: Node, h: HostSubnet, p: Packet) returns (f: Flow)
    requires h in n.hosts && h.hostIP == p.tunSrc
    ensures Candidate(NodeFlows(n), 1, p, f) && f.priority == 100
  {
    hide NodeFlows;
    f := HostFlows(h)[0];
    HostFlow(n, h, 0);
  }

  lemma AtTable1(n: Node, p: Packet, f: Flow)
    requires Chosen(NodeFlows(n), 1, p, f)
    ensures Execute(f.actions, p) == FromTunnel(n, p)
  {
    hide StaticFlows, NodeFlows, Execute, HostFlows, Matches;
    StaticOrNot(n, f);
    if f in StaticFlows(n) {
      LowFlow(n, f);
      RunOne(Goto(0), p);
      if h :| h in n.hosts && h.hostIP == p.tunSrc {
        var g := HostTakesAt1(n, h, p);
      }
    } else {
      var h :| h in n.hosts && f in HostFlows(h);
      HostFlowAt1(h, p, f);
    }
  }

  lemma PodFlowAt2(d: Pod, p: Packet, f: Flow)
    requires f in PodFlows(d) && f.table == 2 && Matches(f.match_, p)
    ensures Sends(d, p) && Execute(f.actions, p) == Next(if p.kind.Ip? then 3 else 5, p.(reg0 := d.vnid))
  {
    hide Execute;
    PodFlowTables(d, f);
    RunTwo(LoadReg(d.vnid), Goto(if p.kind.Ip? then 3 else 5), p);
  }

  lemma PodTakesAt2(n: Node, d: Pod, p: Packet) returns (f: Flow)
    requires d in n.pods && Sends(d, p)
    ensures Candidate(NodeFlows(n), 2, p, f) && f.priority == 100
  {
    hide NodeFlows;
    var i := if p.kind.Arp? then 0 else 1;
    f := PodFlows(d)[i];
    PodFlow(n, d, i);
  }

  lemma AtTable2(n: Node, p: Packet, f: Flow)
    requires WellFormed(n) && Chosen(NodeFlows(n), 2, p, f)
    ensures Execute(f.actions, p) == FromPod(n, p)
  {
    hide StaticFlows, NodeFlows, Execute, PodFlows, Matches, Tables1To4;
    StaticOrNot(n, f);
    if f in StaticFlows(n) {
      LowFlow(n, f);
      RunOne(Goto(0), p);
      if d :| d in n.pods && Sends(d, p) {
        var g := PodTakesAt2(n, d, p);
      }
    } else {
      var d :| d in n.pods && f in PodFlows(d);
      PodFlowAt2(d, p, f);
    }
  }

  lemma LowFlow(n: Node, f: Flow)
    requires f in StaticFlows(n) && 1 <= f.table <= 4
    ensures f.table == 1 || f.table == 2 ==> f == Flow(f.table, 0, ANY, [])
    ensures f.table == 3 ==> f == Tables1To4(n)[2] || f == Tables1To4(n)[3]
    ensures f.table == 4 ==> f == Tables1To4(n)[4] || f == Tables1To4(n)[5]
  {
    hide StaticFlows;
    StaticTables(n, f);
    var i := Indexed(Tables1To4(n), f);
  }

  lemma HighFlow(n: Node, f: Flow)
    requires f in StaticFlows(n) && 6 <= f.table <= 8
    ensures f.table == 6 || f.table == 7 ==> f == Flow(f.table, 0, ANY, [Output(VOVSBR)])
    ensures f.table == 8 ==> f == Flow(8, 0, ANY, [])
  {
    hide StaticFlows;
    StaticTables(n, f);
    var i := Indexed(Tables6To8(), f);
  }

  lemma AtTable3(n: Node, p: Packet, f: Flow)
    requires Chosen(NodeFlows(n), 3, p, f)
    ensures Execute(f.actions, p) == ServiceOrNot(n, p)
  {
    hide StaticFlows, NodeFlows, Execute;
    StaticOrNot(n, f);
    LowFlow(n, f);
    Low(n, 2);
    if p.kind.Ip? && n.services.Contains(p.dst) {
      assert Candidate(NodeFlows(n), 3, p, Tables1To4(n)[2]);
    }
    RunOne(Goto(4), p);
    RunOne(Goto(5), p);
  }

  lemma ServiceFlowAt4(n: Node, s: ServicePort, p: Packet)
    ensures Matches(ServiceFlow(s).match_, p) <==> Serves(s, p)
    ensures ServiceFlow(s).table == 4 && ServiceFlow(s).priority == 100 && ServiceFlow(s).actions == [Output(TUN)]
    ensures s in n.servicePorts ==> ServiceFlow(s) in NodeFlows(n)
  {
    hide StaticFlows, AllHostFlows, AllPodFlows;
  }

  lemma ServiceTakesAt4(n: Node, s: ServicePort, p: Packet) returns (f: Flow)
    requires s in n.servicePorts && Serves(s, p)
    ensures Candidate(NodeFlows(n), 4, p, f) && f.priority == 100
  {
    hide NodeFlows, ServiceFlow, Matches, Serves;
    f := ServiceFlow(s);
    ServiceFlowAt4(n, s, p);
  }

  lemma AtTable4(n: Node, p: Packet, f: Flow)
    requires Chosen(NodeFlows(n), 4, p, f)
    ensures Execute(f.actions, p) == ToService(n, p)
  {
    hide StaticFlows, NodeFlows, Execute, ServiceFlow;
    StaticOrNot(n, f);
    RunOne(Output(TUN), p);
    if f in StaticFlows(n) {
      LowFlow(n, f);
      if p.reg0 == 0 {
        Low(n, 4);
        assert Candidate(NodeFlows(n), 4, p, Tables1To4(n)[4]);
      } else if s :| s in n.servicePorts && Serves(s, p) {
        var g := ServiceTakesAt4(n, s, p);
      }
    } else {
      var s :| s in n.servicePorts && f == ServiceFlow(s);
      ServiceFlowAt4(n, s, p);
    }
  }

  /** Which flow of table 5 takes p. */
  function Row5(n: Node, p: Packet): nat
    requires !p.kind.Other?
  {
    var i := if p.kind.Arp? then 0 else 1;
    if p.dst == Gateway(n.local) then i
    else if n.local.Contains(p.dst) then 2 + i
    else if n.cluster.Contains(p.dst) then 4 + i
    else 7 - i
  }

  lemma Row5Wins(n: Node, p: Packet, i: nat)
    requires i < |Table5(n)| && Matches(Table5(n)[i].match_, p)
    ensures !p.kind.Other?
    ensures i == Row5(n, p) || Table5(n)[i].priority < Table5(n)[Row5(n, p)].priority
  {
    if i == 0 || i == 1 || i == 2 {
    } else if i == 3 || i == 4 || i == 5 {
    } else {
    }
  }

  lemma Row5Takes(n: Node, p: Packet)
    requires !p.kind.Other?
    ensures Matches(Table5(n)[Row5(n, p)].match_, p)
    ensures Execute(Table5(n)[Row5(n, p)].actions, p) == Route(n, p)
  {
    hide Execute;
    RunOne(Output(TUN), p);
    RunOne(Goto(6), p);
    RunOne(Goto(7), p);
    RunOne(Goto(8), p);
  }

  lemma AtTable5(n: Node, p: Packet, f: Flow)
    requires Chosen(NodeFlows(n), 5, p, f)
    ensures !p.kind.Other? && Execute(f.actions, p) == Route(n, p)
  {
    hide StaticFlows, NodeFlows, Execute, Route, Matches;
    StaticOrNot(n, f);
    StaticTables(n, f);
    var i := Indexed(Table5(n), f);
    Row5Wins(n, p, i);
    Row5Takes(n, p);
    var g := Table5(n)[Row5(n, p)];
    InTable5(n, g);
    assert Candidate(NodeFlows(n), 5, p, g);
  }

  lemma InTable5(n: Node, f: Flow)
    requires f in Table5(n)
    ensures f in NodeFlows(n) && f.table == 5
  {
    hide Table5;
    Table5Only(n, f);
    assert f in StaticFlows(n);
    Static(n, f);
  }

  lemma PodFlowAt6(d: Pod, p: Packet, f: Flow)
    requires f in PodFlows(d) && f.table == 6 && Matches(f.match_, p)
    ensures p.kind.Arp? && d.ip == p.dst && Execute(f.actions, p) == Send(p, d.port)
  {
    hide Execute;
    PodFlowTables(d, f);
    RunOne(Output(d.port), p);
  }

  lemma PodTakesAt6(n: Node, d: Pod, p: Packet) returns (f: Flow)
    requires d in n.pods && p.kind.Arp? && d.ip == p.dst
    ensures Candidate(NodeFlows(n), 6, p, f) && f.priority == 100
  {
    hide NodeFlows;
    f := PodFlows(d)[2];
    PodFlow(n, d, 2);
  }

  lemma AtTable6(n: Node, p: Packet, f: Flow)
    requires WellFormed(n) && Chosen(NodeFlows(n), 6, p, f)
    ensures Execute(f.actions, p) == ArpToPod(n, p)
  {
    hide StaticFlows, NodeFlows, Execute;
    StaticOrNot(n, f);
    if f in StaticFlows(n) {
      HighFlow(n, f);
      RunOne(Output(VOVSBR), p);
      if d :| d in n.pods && p.kind.Arp? && d.ip == p.dst {
        var g := PodTakesAt6(n, d, p);
      }
    } else {
      var d :| d in n.pods && f in PodFlows(d);
      PodFlowAt6(d, p, f);
    }
  }

  lemma PodFlowAt7(d: Pod, p: Packet, f: Flow)
    requires f in PodFlows(d) && f.table == 7 && Matches(f.match_, p)
    ensures p.kind.Ip? && d.ip == p.dst && Admits(d, p.reg0) && Execute(f.actions, p) == Send(p, d.port)
  {
    hide Execute;
    PodFlowTables(d, f);
    RunOne(Output(d.port), p);
  }

  lemma PodTakesAt7(n: Node, d: Pod, p: Packet) returns (f: Flow)
    requires d in n.pods && p.kind.Ip? && d.ip == p.dst && Admits(d, p.reg0)
    ensures Candidate(NodeFlows(n), 7, p, f) && f.priority == 100
  {
    hide NodeFlows;
    var i := if d.vnid == 0 || p.reg0 == 0 then 3 else 4;
    f := PodFlows(d)[i];
    PodFlow(n, d, i);
  }

  lemma AtTable7(n: Node, p: Packet, f: Flow)
    requires WellFormed(n) && Chosen(NodeFlows(n), 7, p, f)
    ensures Execute(f.actions, p) == IpToPod(n, p)
  {
    hide StaticFlows, NodeFlows, Execute, PodFlows, Matches;
    StaticOrNot(n, f);
    if f in StaticFlows(n) {
      HighFlow(n, f);
      RunOne(Output(VOVSBR), p);
      if d :| d in n.pods && p.kind.Ip? && d.ip == p.dst && Admits(d, p.reg0) {
        var g := PodTakesAt7(n, d, p);
      }
    } else {
      var d :| d in n.pods && f in PodFlows(d);
      PodFlowAt7(d, p, f);
    }
  }

  lemma RunTunnel(ip: nat, p: Packet)
    ensures Execute([RegToTun, SetTunDst(ip), Output(VXLAN)], p) == Send(p.(tunId := p.reg0, tunDst := ip), VXLAN)
  {
    assert [RegToTun, SetTunDst(ip), Output(VXLAN)][1..] == [SetTunDst(ip), Output(VXLAN)];
    assert [SetTunDst(ip), Output(VXLAN)][1..] == [Output(VXLAN)];
    RunOne(Output(VXLAN), p.(tunId := p.reg0, tunDst := ip));
  }

  lemma HostFlowAt8(h: HostSubnet, p: Packet, f: Flow)
    requires f in HostFlows(h) && f.table == 8 && Matches(f.match_, p)
    ensures !p.kind.Other? && h.subnet.Contains(p.dst)
    ensures Execute(f.actions, p) == Send(p.(tunId := p.reg0, tunDst := h.hostIP), VXLAN)
  {
    hide Execute;
    HostFlowTables(h, f);
    RunTunnel(h.hostIP, p);
  }

  lemma HostTakesAt8(n: Node, h: HostSubnet, p: Packet) returns (f: Flow)
    requires h in n.hosts && !p.kind.Other? && h.subnet.Contains(p.dst)
    ensures Candidate(NodeFlows(n), 8, p, f) && f.priority == 100
  {
    hide NodeFlows;
    var i := if p.kind.Arp? then 1 else 2;
    f := HostFlows(h)[i];
    HostFlow(n, h, i);
  }

  lemma AtTable8(n: Node, p: Packet, f: Flow)
    requires WellFormed(n) && Chosen(NodeFlows(n), 8, p, f)
    ensures Execute(f.actions, p) == ToRemote(n, p)
  {
    hide StaticFlows, NodeFlows, Execute;
    StaticOrNot(n, f);
    if f in StaticFlows(n) {
      HighFlow(n, f);
      RunOne(Output(0), p);
      if h :| h in n.hosts && !p.kind.Other? && h.subnet.Contains(p.dst) {
        var g := HostTakesAt8(n, h, p);
      }
    } else {
      var h :| h in n.hosts && f in HostFlows(h);
      HostFlowAt8(h, p, f);
    }
  }

  // ---------------------------------------------------------------- whole runs

  /** Whichever flow the switch picks among the matches of highest priority, the step is the same. */
  lemma StepExactly(n: Node, t: nat, p: Packet, f: Flow)
    requires WellFormed(n) && t <= 8 && Chosen(NodeFlows(n), t, p, f)
    ensures Execute(f.actions, p) == StepAt(n, t, p)
  {
    hide NodeFlows, Execute, Dispatch, FromTunnel, FromPod, ServiceOrNot, ToService, Route, ArpToPod, IpToPod, ToRemote;
    if t == 0 { AtTable0(n, p, f); }
    else if t == 1 { AtTable1(n, p, f); }
    else if t == 2 { AtTable2(n, p, f); }
    else if t == 3 { AtTable3(n, p, f); }
    else if t == 4 { AtTable4(n, p, f); }
    else if t == 5 { AtTable5(n, p, f); }
    else if t == 6 { AtTable6(n, p, f); }
    else if t == 7 { AtTable7(n, p, f); }
    else { AtTable8(n, p, f); }
  }

  /** Every table but the fifth has a flow for every packet. */
  lemma SomeFlow(n: Node, t: nat, p: Packet) returns (f: Flow)
    requires t <= 8 && (t == 5 ==> !p.kind.Other?)
    ensures Chosen(NodeFlows(n), t, p, f)
  {
    hide NodeFlows, Chosen;
    var g;
    if t == 0 {
      g := Table0(n)[11];
      assert g in StaticFlows(n);
      Static(n, g);
    } else if t <= 4 {
      var i := if t <= 3 then t - 1 + t / 3 else 5;
      g := Tables1To4(n)[i];
      Low(n, i);
    } else if t == 5 {
      g := Table5(n)[if p.kind.Ip? then 6 else 7];
      InTable5(n, g);
    } else {
      g := Tables6To8()[t - 6];
      High(n, t - 6);
    }
    f := SomeChosen(NodeFlows(n), t, p, g);
  }

  /** The node's flows have exactly one verdict on every packet at every table: the one meant. */
  lemma {:induction false} RunsExactly(n: Node, t: nat, p: Packet, v: Verdict)
    requires WellFormed(n) && t <= 8
    ensures Runs(NodeFlows(n), t, p, v) <==> v == VerdictFrom(n, t, p)
    decreases 8 - t
  {
    hide NodeFlows, Execute, StepAt;
    var s := StepAt(n, t, p);
    if t == 5 && p.kind.Other? {
      if f :| Chosen(NodeFlows(n), t, p, f) {
        AtTable5(n, p, f);
      }
      assert s == Done(Missed) by { NoRoute(n, p); }
    } else {
      if s.Next? && t < s.table <= 8 {
        RunsExactly(n, s.table, s.p, v);
      }
      StepInRange(n, t, p);
      assert After(NodeFlows(n), t, s, v) <==> v == VerdictFrom(n, t, p);
      var f := SomeFlow(n, t, p);
      forall g | Chosen(NodeFlows(n), t, p, g)
        ensures Execute(g.actions, p) == s
      {
        StepExactly(n, t, p, g);
      }
    }
  }

  lemma NoRoute(n: Node, p: Packet)
    requires p.kind.Other?
    ensures StepAt(n, 5, p) == Done(Missed)
  {
  }

  /** Every goto strictly raises the table number. */
  lemma StepInRange(n: Node, t: nat, p: Packet)
    requires t <= 8
    ensures StepAt(n, t, p).Next? ==> t < StepAt(n, t, p).table <= 8
  {
  }

  /** From the first table every packet has one verdict, and it is to drop it or to send it. */
  lemma OneVerdict(n: Node, p: Packet) returns (v: Verdict)
    requires WellFormed(n)
    ensures v.Dropped? || v.Sent?
    ensures forall w :: Runs(NodeFlows(n), 0, p, w) <==> w == v
  {
    hide NodeFlows;
    v := VerdictFrom(n, 0, p);
    forall w
      ensures Runs(NodeFlows(n), 0, p, w) <==> w == v
    {
      RunsExactly(n, 0, p, w);
    }
    Settled(n, 0, p);
  }

  lemma {:induction false} Settled(n: Node, t: nat, p: Packet)
    requires t <= 8 && (p.kind.Other? ==> t <= 4)
    ensures t == 0 || !p.kind.Other? ==> VerdictFrom(n, t, p).Dropped? || VerdictFrom(n, t, p).Sent?
    decreases 8 - t
  {
    var s := StepAt(n, t, p);
    StepInRange(n, t, p);
    if s.Done? || p.kind.Other? {
    } else {
      assert s.p.kind == p.kind;
      Settled(n, s.table, s.p);
    }
  }
}
