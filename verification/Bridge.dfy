/** The commands that change a node's flows: controller.go, openshift-sdn-ovs and ovs.go. */
module Bridges {
  import opened OpenFlow
  import opened Pipeline
  import PipelineRuns
  import opened Options

  // ---------------------------------------------------------------- commands

  datatype Command = AddFlow(f: Flow) | DelFlows(table: Option<nat>, m: Match) | AddBridge | AddPort(port: nat)

  function Effect(flows: set<Flow>, c: Command): set<Flow>
  {
    match c
    case AddFlow(f) => Add(flows, f)
    case DelFlows(table, m) => Delete(flows, table, m)
    case AddBridge => {}
    case AddPort(_) => flows
  }

  function Applied(flows: set<Flow>, cs: seq<Command>): set<Flow>
    decreases |cs|
  {
    if cs == [] then flows else Applied(Effect(flows, cs[0]), cs[1..])
  }

  lemma {:induction false} AppliedLast(flows: set<Flow>, cs: seq<Command>, c: Command)
    ensures Applied(flows, cs + [c]) == Effect(Applied(flows, cs), c)
    decreases |cs|
  {
    if cs == [] {
      assert cs + [c] == [c];
    } else {
      assert (cs + [c])[1..] == cs[1..] + [c];
      AppliedLast(Effect(flows, cs[0]), cs[1..], c);
    }
  }

  function Min(a: nat, b: nat): nat
  {
    if a <= b then a else b
  }

  function Adds(fs: seq<Flow>): (cs: seq<Command>)
    ensures |cs| == |fs| && forall i :: 0 <= i < |fs| ==> cs[i] == AddFlow(fs[i])
  {
    seq(|fs|, i requires 0 <= i < |fs| => AddFlow(fs[i]))
  }

  lemma {:induction false} AppliedTwice(flows: set<Flow>, a: seq<Command>, b: seq<Command>)
    ensures Applied(flows, a + b) == Applied(Applied(flows, a), b)
    decreases |a|
  {
    if a == [] {
      assert a + b == b;
    } else {
      assert (a + b)[1..] == a[1..] + b;
      AppliedTwice(Effect(flows, a[0]), a[1..], b);
    }
  }

  lemma {:induction false} AddsApplied(flows: set<Flow>, fs: seq<Flow>)
    ensures Applied(flows, Adds(fs)) == AddAll(flows, fs)
    decreases |fs|
  {
    if fs == [] {
    } else {
      assert Adds(fs)[1..] == Adds(fs[1..]);
      AddsApplied(Add(flows, fs[0]), fs[1..]);
    }
  }

  // ---------------------------------------------------------------- the commands of each operation

  function SetupCommands(n: Node): seq<Command>
  {
    [AddBridge, AddPort(VXLAN), AddPort(TUN), AddPort(VOVSBR)] + Adds(BaseFlows(n))
  }

  function HostAdds(h: HostSubnet): seq<Command>
  {
    Adds(HostFlows(h))
  }

  /**
    How the switch reads a match that names addresses, hardware addresses or ports and no protocol: as it is
    written, or without them, as ovs-ofctl documents for fields whose protocol is not fixed.
   */
  datatype Reading = Literal | Normalised

  function Read(r: Reading, m: Match): Match
  {
    if r.Literal? || m.kind.Some? then m else m.(src := None, dst := None, sha := None, proto := None, dport := None)
  }

  /** The second command names an address and no protocol. */
  function HostDeletes(r: Reading, h: HostSubnet): seq<Command>
  {
    [DelFlows(Some(1), Read(r, ANY.(tunSrc := Some(h.hostIP)))),
     DelFlows(Some(8), Read(r, ANY.(dst := Some(h.subnet))))]
  }

  /** del_ovs_flows. */
  function PodDeletes(ip: nat): seq<Command>
  {
    var pod := Some(Host(ip));
    [DelFlows(None, IP.(dst := pod)), DelFlows(None, IP.(src := pod)),
     DelFlows(None, ARP.(dst := pod)), DelFlows(None, ARP.(src := pod))]
  }

  function PodAdds(d: Pod): seq<Command>
  {
    Adds(PodFlows(d))
  }

  /** generateDeleteServiceRule: whatever the virtual network. */
  function ServiceDelete(ip: nat, proto: nat, port: nat): Command
  {
    DelFlows(Some(4), ServiceMatch(ip, proto, port))
  }

  /** The other deletions name the protocol, so they are read in the same way. */
  lemma DeletesReadAlike(r: Reading, ip: nat, proto: nat, port: nat)
    ensures forall c :: c in PodDeletes(ip) || c == ServiceDelete(ip, proto, port) ==> Read(r, c.m) == c.m
  {
  }

  datatype Service = Service(ip: nat, ports: seq<(nat, nat)>)

  function ServiceAdds(s: Service, netid: nat): seq<Command>
  {
    seq(|s.ports|, i requires 0 <= i < |s.ports| =>
      AddFlow(ServiceFlow(ServicePort(s.ip, s.ports[i].0, s.ports[i].1, netid))))
  }

  function ServiceDeletes(s: Service): seq<Command>
  {
    seq(|s.ports|, i requires 0 <= i < |s.ports| => ServiceDelete(s.ip, s.ports[i].0, s.ports[i].1))
  }

  // ---------------------------------------------------------------- setting up the bridge

  /** The version is written down: what alreadySetUp looks for. */
  predicate Marked(flows: set<Flow>)
  {
    exists f :: f in flows && f.table == 253 && f.actions == [Note(1, 1)]
  }

  ghost predicate Distinct(fs: seq<Flow>)
  {
    forall i, j :: 0 <= i < j < |fs| ==> !SameKey(fs[i], fs[j])
  }

  lemma DistinctJoined(a: seq<Flow>, b: seq<Flow>)
    requires Distinct(a) && Distinct(b)
    requires forall f, g :: f in a && g in b ==> f.table < g.table
    ensures Distinct(a + b)
  {
    forall i, j | 0 <= i < j < |a + b|
      ensures !SameKey((a + b)[i], (a + b)[j])
    {
      if i < |a| <= j {
        assert a[i] in a && b[j - |a|] in b;
      }
    }
  }

  lemma Table0Distinct(n: Node)
    ensures Distinct(Table0(n))
  {
    var fs := Table0(n);
    forall i, j | 0 <= i < j < 12
      ensures !SameKey(fs[i], fs[j])
    {
      if i < 3 && j < 3 {
      } else if 3 <= i < 6 && j < 6 {
      } else if 6 <= i < 9 && j < 9 {
      } else if 9 <= i {
      } else {
        assert fs[i].match_.inPort != fs[j].match_.inPort;
      }
    }
  }

  lemma OthersDistinct(n: Node)
    ensures Distinct(Tables1To4(n)) && Distinct(Table5(n)) && Distinct(Tables6To8())
  {
    assert Distinct(Tables1To4(n)) by {
      hide Table5, Tables6To8;
    }
    assert Distinct(Table5(n)) by {
      hide Tables1To4, Tables6To8;
    }
  }

  lemma StaticDistinct(n: Node)
    ensures Distinct(StaticFlows(n))
    ensures forall f :: f in BaseFlows(n) ==> f.table <= 8
  {
    hide Table0, Tables1To4, Table5, Tables6To8;
    Table0Distinct(n);
    OthersDistinct(n);
    forall f
      ensures f in Table0(n) ==> f.table == 0
      ensures f in Tables1To4(n) ==> 1 <= f.table <= 4
      ensures f in Table5(n) ==> f.table == 5
      ensures f in Tables6To8() ==> 6 <= f.table <= 8
    {
      TablesOf(n, f);
    }
    DistinctJoined(Table0(n), Tables1To4(n));
    DistinctJoined(Table0(n) + Tables1To4(n), Table5(n));
    DistinctJoined(Table0(n) + Tables1To4(n) + Table5(n), Tables6To8());
    DistinctJoined(BaseFlows(n), [VERSION_FLOW]);
  }

  lemma TablesOf(n: Node, f: Flow)
    ensures f in Table0(n) ==> f.table == 0
    ensures f in Tables1To4(n) ==> 1 <= f.table <= 4
    ensures f in Table5(n) ==> f.table == 5
    ensures f in Tables6To8() ==> 6 <= f.table <= 8
  {
    if f in Table0(n) { PipelineRuns.Table0Only(n, f); }
    if f in Tables1To4(n) { PipelineRuns.Tables1To4Only(n, f); }
    if f in Table5(n) { PipelineRuns.Table5Only(n, f); }
    if f in Tables6To8() { PipelineRuns.Tables6To8Only(f); }
  }

  lemma {:induction false} AddedWithin(flows: set<Flow>, fs: seq<Flow>, g: Flow)
    requires g in AddAll(flows, fs)
    ensures g in flows || g in fs
    decreases |fs|
  {
    if fs == [] {
    } else {
      AddedWithin(Add(flows, fs[0]), fs[1..], g);
    }
  }

  /** A setup that stops short leaves no version behind. */
  lemma SetupPrefix(flows: set<Flow>, n: Node, k: nat)
    requires 1 <= k <= |SetupCommands(n)|
    ensures Applied(flows, SetupCommands(n)[..k]) == AddAll({}, BaseFlows(n)[..if k < 4 then 0 else k - 4])
    ensures !Marked(Applied(flows, SetupCommands(n)[..k]))
  {
    hide BaseFlows;
    var ports := [AddBridge, AddPort(VXLAN), AddPort(TUN), AddPort(VOVSBR)];
    var j := if k < 4 then 0 else k - 4;
    var fs := BaseFlows(n)[..j];
    var head := ports[..if k < 4 then k else 4];
    assert SetupCommands(n)[..k] == head + Adds(fs);
    AppliedTwice(flows, head, Adds(fs));
    Emptied(flows, head);
    AddsApplied({}, fs);
    if f :| f in AddAll({}, fs) && f.table == 253 {
      AddedWithin({}, fs, f);
      assert f in BaseFlows(n);
      StaticDistinct(n);
    }
  }

  lemma Emptied(flows: set<Flow>, head: seq<Command>)
    requires 1 <= |head| <= 4 && head[0] == AddBridge && forall i :: 1 <= i < |head| ==> head[i].AddPort?
    ensures Applied(flows, head) == {}
  {
    Unchanged({}, head[1..]);
  }

  lemma {:induction false} Unchanged(flows: set<Flow>, cs: seq<Command>)
    requires forall i :: 0 <= i < |cs| ==> cs[i].AddPort?
    ensures Applied(flows, cs) == flows
    decreases |cs|
  {
    if cs == [] {
    } else {
      Unchanged(flows, cs[1..]);
    }
  }

  lemma SetupDone(n: Node)
    ensures Effect(AddAll({}, BaseFlows(n)), AddFlow(VERSION_FLOW)) == set f | f in StaticFlows(n)
  {
    hide BaseFlows;
    var fs, v := BaseFlows(n), VERSION_FLOW;
    StaticDistinct(n);
    AddedAll({}, StaticFlows(n));
    assert Distinct(StaticFlows(n));
    AddsApplied({}, StaticFlows(n));
    AddsApplied({}, fs);
    assert Adds(StaticFlows(n)) == Adds(fs) + [AddFlow(v)];
    AppliedLast({}, Adds(fs), AddFlow(v));
  }

  // ---------------------------------------------------------------- the bridge and its transactions

  /** br0. left is how many commands will succeed before one fails. */
  class Bridge {
    const reading: Reading
    var flows: set<Flow>
    var left: nat

    constructor (reading: Reading, flows: set<Flow>, left: nat)
      ensures this.reading == reading && this.flows == flows && this.left == left
    {
      this.reading := reading;
      this.flows := flows;
      this.left := left;
    }

    method Run(c: Command) returns (ok: bool)
      modifies this
      ensures ok == (old(left) > 0)
      ensures flows == (if ok then Effect(old(flows), c) else old(flows))
      ensures left == (if ok then old(left) - 1 else 0)
    {
      ok := left > 0;
      if ok {
        left := left - 1;
        match c
        case AddFlow(f) => flows := (set g | g in flows && !SameKey(f, g)) + {f};
        case DelFlows(table, m) => flows := set g | g in flows && !(Is(table, g.table) && Covers(m, g.match_));
        case AddBridge => flows := {};
        case AddPort(_) =>
      }
    }

    /** Exactly the commands up to the first that fails took effect; ok if none failed. */
    twostate predicate Did(cs: seq<Command>, ok: bool)
      reads this
    {
      && ok == (|cs| <= old(left))
      && flows == Applied(old(flows), cs[..Min(|cs|, old(left))])
      && left == old(left) - Min(|cs|, old(left))
    }

    /** One transaction. A script under set -e behaves in the same way. */
    method RunAll(cs: seq<Command>) returns (ok: bool)
      modifies this
      ensures Did(cs, ok)
    {
      var t := new Transaction(this);
      var i := 0;
      while i < |cs|
        invariant 0 <= i <= |cs|
        invariant t.bridge == this
        invariant t.failed == (old(left) < i)
        invariant flows == Applied(old(flows), cs[..Min(i, old(left))])
        invariant left == old(left) - Min(i, old(left))
        modifies this, t
      {
        t.Do(cs[i]);
        if i < old(left) {
          assert cs[..i + 1] == cs[..i] + [cs[i]];
          AppliedLast(old(flows), cs[..i], cs[i]);
        }
        i := i + 1;
      }
      ok := t.End();
    }

    method AddHostSubnetRules(h: HostSubnet) returns (ok: bool)
      modifies this
      ensures Did(HostAdds(h), ok)
    {
      ok := RunAll(HostAdds(h));
    }

    method DeleteHostSubnetRules(h: HostSubnet) returns (ok: bool)
      modifies this
      ensures Did(HostDeletes(reading, h), ok)
    {
      ok := RunAll(HostDeletes(reading, h));
    }

    method AddServiceRules(s: Service, netid: nat) returns (ok: bool)
      modifies this
      ensures Did(ServiceAdds(s, netid), ok)
    {
      ghost var cs := ServiceAdds(s, netid);
      var t := new Transaction(this);
      var i := 0;
      while i < |s.ports|
        invariant 0 <= i <= |s.ports| && i <= old(left)
        invariant t.bridge == this && !t.failed
        invariant flows == Applied(old(flows), cs[..i]) && left == old(left) - i
        modifies this, t
      {
        t.Do(AddFlow(ServiceFlow(ServicePort(s.ip, s.ports[i].0, s.ports[i].1, netid))));
        ok := t.End();
        if !ok {
          return;
        }
        assert cs[..i + 1] == cs[..i] + [cs[i]];
        AppliedLast(old(flows), cs[..i], cs[i]);
        i := i + 1;
      }
      ok := true;
    }

    method DeleteServiceRules(s: Service) returns (ok: bool)
      modifies this
      ensures Did(ServiceDeletes(s), ok)
    {
      ghost var cs := ServiceDeletes(s);
      var t := new Transaction(this);
      var i := 0;
      while i < |s.ports|
        invariant 0 <= i <= |s.ports| && i <= old(left)
        invariant t.bridge == this && !t.failed
        invariant flows == Applied(old(flows), cs[..i]) && left == old(left) - i
        modifies this, t
      {
        t.Do(ServiceDelete(s.ip, s.ports[i].0, s.ports[i].1));
        ok := t.End();
        if !ok {
          return;
        }
        assert cs[..i + 1] == cs[..i] + [cs[i]];
        AppliedLast(old(flows), cs[..i], cs[i]);
        i := i + 1;
      }
      ok := true;
    }

    method SetupPod(d: Pod) returns (ok: bool)
      modifies this
      ensures Did(PodAdds(d), ok)
    {
      ok := RunAll(PodAdds(d));
    }

    method UpdatePod(d: Pod) returns (ok: bool)
      modifies this
      ensures Did(PodDeletes(d.ip) + PodAdds(d), ok)
    {
      ok := RunAll(PodDeletes(d.ip) + PodAdds(d));
    }

    method TeardownPod(ip: nat) returns (ok: bool)
      modifies this
      ensures Did(PodDeletes(ip), ok)
    {
      ok := RunAll(PodDeletes(ip));
    }

    /** links: the network devices could be set up, before and after the first transaction. */
    method SetupSDN(n: Node, gatewayThere: bool, links: (bool, bool)) returns (changed: bool, ok: bool)
      modifies this
      ensures gatewayThere && Marked(old(flows)) ==> ok && !changed && flows == old(flows)
      ensures !(gatewayThere && Marked(old(flows))) ==>
                ok == changed && (ok ==> flows == set f | f in StaticFlows(n))
      ensures Marked(flows) ==> flows == old(flows) || flows == set f | f in StaticFlows(n)
    {
      hide BaseFlows, Marked;
      if gatewayThere && Marked(flows) {
        return false, true;
      }
      ghost var flows0, left0 := flows, left;
      changed, ok := false, false;
      if !links.0 {
        return;
      }
      ok := RunAll(SetupCommands(n));
      if left0 > 0 {
        SetupPrefix(flows0, n, Min(|SetupCommands(n)|, left0));
      }
      if !ok || !links.1 {
        return false, false;
      }
      assert BaseFlows(n)[..|BaseFlows(n)|] == BaseFlows(n);
      assert flows == AddAll({}, BaseFlows(n));
      var v := [AddFlow(VERSION_FLOW)];
      label L:
      ok := RunAll(v);
      changed := ok;
      SetupDone(n);
      assert v[..Min(1, old@L(left))] == if old@L(left) > 0 then v else [];
      assert Applied(old@L(flows), v) == Effect(old@L(flows), v[0]);
    }
  }

  /** ovs.Transaction: once a command fails the ones after it are skipped. */
  class Transaction {
    const bridge: Bridge
    var failed: bool

    constructor (bridge: Bridge)
      ensures this.bridge == bridge && !failed
    {
      this.bridge := bridge;
      failed := false;
    }

    method Do(c: Command)
      modifies this, bridge
      ensures failed == (old(failed) || old(bridge.left) == 0)
      ensures bridge.flows == (if failed then old(bridge.flows) else Effect(old(bridge.flows), c))
      ensures bridge.left == (if failed then (if old(failed) then old(bridge.left) else 0) else old(bridge.left) - 1)
    {
      if !failed {
        var ok := bridge.Run(c);
        failed := !ok;
      }
    }

    method End() returns (ok: bool)
      modifies this
      ensures ok == !old(failed) && !failed
    {
      ok := !failed;
      failed := false;
    }
  }
}
