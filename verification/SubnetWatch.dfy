/** watchSubnets (subnets.go): tables 1 and 8 follow the map of known host subnets. */
module SubnetWatch {
  import opened OpenFlow
  import opened Pipeline
  import opened Bridges
  import opened NodeRules
  import PipelineRuns

  /** hs was added or modified (valid: its address passed ValidateNodeIP), or deleted. */
  datatype Notice = Put(uid: nat, hs: HostSubnet, valid: bool) | Gone(uid: nat, hs: HostSubnet)

  datatype State = State(flows: set<Flow>, subnets: map<nat, HostSubnet>)

  /** The handling of a notice when no command fails. */
  function Handled(r: Reading, localIP: nat, s: State, e: Notice): State
  {
    if e.hs.hostIP == localIP then s
    else match e
      case Put(uid, hs, valid) =>
        if uid in s.subnets && s.subnets[uid].hostIP == hs.hostIP then s
        else
          var flows := if uid in s.subnets then Applied(s.flows, HostDeletes(r, s.subnets[uid])) else s.flows;
          if valid then State(Applied(flows, HostAdds(hs)), s.subnets[uid := hs]) else State(flows, s.subnets)
      case Gone(uid, hs) => State(Applied(s.flows, HostDeletes(r, hs)), s.subnets - {uid})
  }

  /** A state, and how many commands will still succeed. */
  datatype Budget = Budget(s: State, left: nat)

  /** The commands that take effect. */
  function Done(cs: seq<Command>, left: nat): seq<Command>
  {
    cs[..Min(|cs|, left)]
  }

  /** The handling of a notice when only the first left commands succeed: failed deletions are only logged, a host is
      remembered only if all its rules were added, and forgotten in any case. */
  function HandledWithin(r: Reading, localIP: nat, b: Budget, e: Notice): Budget
  {
    var s, left := b.s, b.left;
    if e.hs.hostIP == localIP then b
    else match e
      case Put(uid, hs, valid) =>
        if uid in s.subnets && s.subnets[uid].hostIP == hs.hostIP then b
        else
          var ds := if uid in s.subnets then HostDeletes(r, s.subnets[uid]) else [];
          var flows, rest := Applied(s.flows, Done(ds, left)), left - Min(|ds|, left);
          if !valid then Budget(State(flows, s.subnets), rest)
          else
            var adds := HostAdds(hs);
            Budget(State(Applied(flows, Done(adds, rest)), if |adds| <= rest then s.subnets[uid := hs] else s.subnets),
                   rest - Min(|adds|, rest))
      case Gone(uid, hs) =>
        var ds := HostDeletes(r, hs);
        Budget(State(Applied(s.flows, Done(ds, left)), s.subnets - {uid}), left - Min(|ds|, left))
  }

  /** Five commands are enough for any notice. */
  lemma FiveAreEnough(r: Reading, localIP: nat, b: Budget, e: Notice)
    requires b.left >= 5
    ensures var c := HandledWithin(r, localIP, b, e); c.s == Handled(r, localIP, b.s, e) && c.left + 5 >= b.left
  {
    hide Applied;
    Whole(HostAdds(e.hs));
    Whole(HostDeletes(r, e.hs));
    if e.Put? && e.uid in b.s.subnets {
      Whole(HostDeletes(r, b.s.subnets[e.uid]));
    }
    assert Applied(b.s.flows, []) == b.s.flows by { AppliedNone(b.s.flows); }
  }

  class Watcher {
    const bridge: Bridge
    const localIP: nat
    var subnets: map<nat, HostSubnet>

    function View(): Budget
      reads this, bridge
    {
      Budget(State(bridge.flows, subnets), bridge.left)
    }

    constructor (bridge: Bridge, localIP: nat)
      ensures this.bridge == bridge && this.localIP == localIP && subnets == map[]
    {
      this.bridge := bridge;
      this.localIP := localIP;
      subnets := map[];
    }

    method Handle(e: Notice)
      modifies this, bridge
      ensures View() == HandledWithin(bridge.reading, localIP, old(View()), e)
    {
      hide Applied;
      AppliedNone(bridge.flows);
      if e.hs.hostIP == localIP {
        return;
      }
      match e
      case Put(uid, hs, valid) =>
        if uid in subnets {
          if subnets[uid].hostIP == hs.hostIP {
            return;
          }
          var _ := bridge.DeleteHostSubnetRules(subnets[uid]);
        }
        if !valid {
          return;
        }
        var ok := bridge.AddHostSubnetRules(hs);
        if ok {
          subnets := subnets[uid := hs];
        }
      case Gone(uid, hs) =>
        subnets := subnets - {uid};
        var _ := bridge.DeleteHostSubnetRules(hs);
    }
  }

  lemma Whole(cs: seq<Command>)
    ensures cs[..|cs|] == cs
  {
  }

  // ---------------------------------------------------------------- in step

  /** n's flows, with exactly the rules of the known host subnets in tables 1 and 8. */
  ghost predicate InStep(n: Node, s: State)
  {
    s.flows == NodeFlows(n.(hosts := s.subnets.Values))
  }

  /** Different hosts have different addresses and subnets neither of which is inside the other. */
  ghost predicate Apart(m: map<nat, HostSubnet>)
  {
    forall u, v :: u in m && v in m && u != v ==> Far(m[u], m[v])
  }

  predicate Far(g: HostSubnet, h: HostSubnet)
  {
    g.hostIP != h.hostIP && !g.subnet.Within(h.subnet) && !h.subnet.Within(g.subnet)
  }

  /** e fits the host subnets that exist: others keep apart, subnets are fixed, a deletion names what was there. */
  ghost predicate Fits(live: map<nat, HostSubnet>, e: Notice)
  {
    match e
    case Put(uid, hs, _) =>
      && (forall u :: u in live && u != uid ==> Far(live[u], hs))
      && (uid in live ==> live[uid].subnet == hs.subnet)
    case Gone(uid, hs) => uid in live && live[uid] == hs
  }

  lemma Deleted(r: Reading, n: Node, s: State, uid: nat)
    requires InStep(n, s) && Apart(s.subnets) && uid in s.subnets
    ensures Applied(s.flows, HostDeletes(r, s.subnets[uid]))
         == Left(r, NodeFlows(n.(hosts := (s.subnets - {uid}).Values)))
    ensures r.Literal? ==> InStep(n, State(Applied(s.flows, HostDeletes(r, s.subnets[uid])), s.subnets - {uid}))
  {
    hide NodeFlows, Applied, HostDeletes;
    var m, hs := n.(hosts := s.subnets.Values), s.subnets[uid];
    HostRemoved(r, m, hs);
    assert (s.subnets - {uid}).Values == m.hosts - {hs} by {
      forall h | h in m.hosts - {hs}
        ensures h in (s.subnets - {uid}).Values
      {
        var u :| u in s.subnets && s.subnets[u] == h;
        assert u in s.subnets - {uid};
      }
    }
  }

  lemma Added(n: Node, s: State, uid: nat, hs: HostSubnet)
    requires InStep(n, s) && uid !in s.subnets && forall u :: u in s.subnets ==> Far(s.subnets[u], hs)
    ensures InStep(n, State(Applied(s.flows, HostAdds(hs)), s.subnets[uid := hs]))
  {
    hide NodeFlows, Applied, HostAdds;
    var m := n.(hosts := s.subnets.Values);
    HostAdded(m, hs);
    var t := s.subnets[uid := hs];
    assert t.Values == m.hosts + {hs} by {
      forall h | h in m.hosts + {hs}
        ensures h in t.Values
      {
        if h != hs {
          var u :| u in s.subnets && s.subnets[u] == h;
          assert t[u] == h;
        } else {
          assert t[uid] == hs;
        }
      }
    }
  }

  /** The notice makes watchSubnets delete the rules of a host subnet. */
  predicate Deletes(localIP: nat, subnets: map<nat, HostSubnet>, e: Notice)
  {
    e.hs.hostIP != localIP && (e.Gone? || (e.uid in subnets && subnets[e.uid].hostIP != e.hs.hostIP))
  }

  /** Tables and map stay in step if and only if the notice does not move a known host to an invalid address and does not
      delete with a normalised match. */
  lemma StaysInStep(r: Reading, n: Node, localIP: nat, s: State, e: Notice)
    requires InStep(n, s) && Apart(s.subnets) && Fits(s.subnets, e)
    ensures InStep(n, Handled(r, localIP, s, e)) <==>
            Deletes(localIP, s.subnets, e) ==> r.Literal? && (e.Put? ==> e.valid)
  {
    hide NodeFlows, Applied, HostDeletes, HostAdds;
    if !Deletes(localIP, s.subnets, e) {
      if e.hs.hostIP != localIP && e.uid !in s.subnets && e.valid {
        Added(n, s, e.uid, e.hs);
      }
    } else if r.Normalised? {
      OutOfStep(n, localIP, s, e);
    } else if e.Gone? {
      Deleted(r, n, s, e.uid);
    } else {
      var known := s.subnets[e.uid];
      var t := State(Applied(s.flows, HostDeletes(r, known)), s.subnets - {e.uid});
      Deleted(r, n, s, e.uid);
      if e.valid {
        Added(n, t, e.uid, e.hs);
        assert t.subnets[e.uid := e.hs] == s.subnets[e.uid := e.hs];
      } else {
        Lost(r, n, s, e.uid);
      }
    }
  }

  /** A normalised deletion takes the default flow of table 8, and nothing brings it back. */
  lemma OutOfStep(n: Node, localIP: nat, s: State, e: Notice)
    requires Deletes(localIP, s.subnets, e)
    ensures var t := Handled(Normalised, localIP, s, e); TABLE8_DEFAULT !in t.flows && !InStep(n, t)
  {
    hide NodeFlows, Applied, HostDeletes, HostAdds;
    var t := Handled(Normalised, localIP, s, e);
    DefaultThere(n.(hosts := t.subnets.Values));
    if e.Gone? {
      DefaultGoes(s.flows, e.hs);
    } else {
      DefaultGoes(s.flows, s.subnets[e.uid]);
      HostAddsNoDefault(Applied(s.flows, HostDeletes(Normalised, s.subnets[e.uid])), e.hs);
    }
  }

  lemma HostAddsNoDefault(flows: set<Flow>, h: HostSubnet)
    requires TABLE8_DEFAULT !in flows
    ensures TABLE8_DEFAULT !in Applied(flows, HostAdds(h))
  {
    hide Applied;
    NeverAdded(flows, HostAdds(h));
  }

  /** Without its rules a host that is still in the map is out of step. */
  lemma Lost(r: Reading, n: Node, s: State, uid: nat)
    requires uid in s.subnets
    ensures !InStep(n, State(Applied(s.flows, HostDeletes(r, s.subnets[uid])), s.subnets))
  {
    hide NodeFlows, Applied, HostDeletes;
    var m, h := n.(hosts := s.subnets.Values), s.subnets[uid];
    HostDeleted(r, s.flows, h);
    PipelineRuns.HostFlow(m, h, 0);
    AllOfHost(r, h, HostFlows(h)[0]);
  }

  /** A host that moves to an invalid address and back keeps its place in the map but has no rules any more; with a
      normalised deletion no host has any in table 8. */
  lemma RepairIsSkipped(r: Reading, n: Node, localIP: nat, s: State, uid: nat, bad: HostSubnet)
    requires InStep(n, s) && Apart(s.subnets) && uid in s.subnets
    requires bad.hostIP != localIP && s.subnets[uid].hostIP != localIP && bad.hostIP != s.subnets[uid].hostIP
    ensures var t := Handled(r, localIP, Handled(r, localIP, s, Put(uid, bad, false)), Put(uid, s.subnets[uid], true));
            && t.subnets == s.subnets
            && t.flows == Left(r, NodeFlows(n.(hosts := (s.subnets - {uid}).Values)))
            && !InStep(n, t)
  {
    hide NodeFlows, Applied, HostDeletes, HostAdds;
    Deleted(r, n, s, uid);
    Lost(r, n, s, uid);
  }

  // ---------------------------------------------------------------- every run

  function Live(live: map<nat, HostSubnet>, e: Notice): map<nat, HostSubnet>
  {
    match e
    case Put(uid, hs, _) => live[uid := hs]
    case Gone(uid, _) => live - {uid}
  }

  /** Every notice fits what exists, and no address is invalid or the node's own. */
  ghost predicate Good(localIP: nat, live: map<nat, HostSubnet>, es: seq<Notice>)
    decreases |es|
  {
    es == [] ||
    (&& Fits(live, es[0]) && es[0].hs.hostIP != localIP && (es[0].Put? ==> es[0].valid)
     && Good(localIP, Live(live, es[0]), es[1..]))
  }

  function LiveAfter(live: map<nat, HostSubnet>, es: seq<Notice>): map<nat, HostSubnet>
    decreases |es|
  {
    if es == [] then live else LiveAfter(Live(live, es[0]), es[1..])
  }

  function HandledAll(r: Reading, localIP: nat, s: State, es: seq<Notice>): State
    decreases |es|
  {
    if es == [] then s else HandledAll(r, localIP, Handled(r, localIP, s, es[0]), es[1..])
  }

  function HandledAllWithin(r: Reading, localIP: nat, b: Budget, es: seq<Notice>): Budget
    decreases |es|
  {
    if es == [] then b else HandledAllWithin(r, localIP, HandledWithin(r, localIP, b, es[0]), es[1..])
  }

  lemma {:induction false} FiveEachAreEnough(r: Reading, localIP: nat, b: Budget, es: seq<Notice>)
    requires b.left >= 5 * |es|
    ensures HandledAllWithin(r, localIP, b, es).s == HandledAll(r, localIP, b.s, es)
    decreases |es|
  {
    hide Handled, HandledWithin;
    if es == [] {
    } else {
      FiveAreEnough(r, localIP, b, es[0]);
      FiveEachAreEnough(r, localIP, HandledWithin(r, localIP, b, es[0]), es[1..]);
    }
  }

  /** The loop of watchSubnets, whatever fails from some command on. */
  method WatchSubnets(w: Watcher, es: seq<Notice>)
    modifies w, w.bridge
    ensures w.View() == HandledAllWithin(w.bridge.reading, w.localIP, old(w.View()), es)
    ensures old(w.bridge.left) >= 5 * |es| ==>
              State(w.bridge.flows, w.subnets)
              == HandledAll(w.bridge.reading, w.localIP, old(State(w.bridge.flows, w.subnets)), es)
  {
    hide Handled, HandledWithin;
    var i := 0;
    while i < |es|
      invariant 0 <= i <= |es|
      invariant HandledAllWithin(w.bridge.reading, w.localIP, w.View(), es[i..])
             == HandledAllWithin(w.bridge.reading, w.localIP, old(w.View()), es)
    {
      assert es[i..][0] == es[i] && es[i..][1..] == es[i + 1..];
      w.Handle(es[i]);
      i := i + 1;
    }
    if old(w.bridge.left) >= 5 * |es| {
      FiveEachAreEnough(w.bridge.reading, w.localIP, old(w.View()), es);
    }
  }

  lemma StaysLive(r: Reading, localIP: nat, s: State, e: Notice)
    requires Apart(s.subnets) && Fits(s.subnets, e) && e.hs.hostIP != localIP && (e.Put? ==> e.valid)
    ensures Handled(r, localIP, s, e).subnets == Live(s.subnets, e) && Apart(Live(s.subnets, e))
  {
    hide Applied;
    if e.Put? && e.uid in s.subnets && s.subnets[e.uid].hostIP == e.hs.hostIP {
      assert s.subnets[e.uid] == e.hs;
      assert s.subnets[e.uid := e.hs] == s.subnets;
    }
  }

  /** Some notice of the run makes watchSubnets delete rules: a host subnet goes or its host changes its address. */
  ghost predicate SomeDeletes(localIP: nat, live: map<nat, HostSubnet>, es: seq<Notice>)
    decreases |es|
  {
    es != [] && (Deletes(localIP, live, es[0]) || SomeDeletes(localIP, Live(live, es[0]), es[1..]))
  }

  /** Over any such run the map is the set of existing host subnets, and tables 1 and 8 hold exactly their rules, if and
      only if deletions are read literally or there are none. */
  lemma {:induction false} RunStaysInStep(r: Reading, n: Node, localIP: nat, s: State, es: seq<Notice>)
    requires InStep(n, s) && Apart(s.subnets) && Good(localIP, s.subnets, es)
    ensures HandledAll(r, localIP, s, es).subnets == LiveAfter(s.subnets, es)
    ensures HandledAll(r, localIP, s, es).flows == NodeFlows(n.(hosts := LiveAfter(s.subnets, es).Values))
       <==> r.Literal? || !SomeDeletes(localIP, s.subnets, es)
    decreases |es|
  {
    hide NodeFlows, Handled, Deletes;
    if es == [] {
    } else {
      StaysInStep(r, n, localIP, s, es[0]);
      StaysLive(r, localIP, s, es[0]);
      var t := Handled(r, localIP, s, es[0]);
      if r.Literal? || !Deletes(localIP, s.subnets, es[0]) {
        RunStaysInStep(r, n, localIP, t, es[1..]);
      } else {
        OutOfStep(n, localIP, s, es[0]);
        RunStaysOut(n, localIP, t, es[1..]);
      }
    }
  }

  lemma {:induction false} RunStaysOut(n: Node, localIP: nat, s: State, es: seq<Notice>)
    requires TABLE8_DEFAULT !in s.flows && Apart(s.subnets) && Good(localIP, s.subnets, es)
    ensures HandledAll(Normalised, localIP, s, es).subnets == LiveAfter(s.subnets, es)
    ensures HandledAll(Normalised, localIP, s, es).flows != NodeFlows(n.(hosts := LiveAfter(s.subnets, es).Values))
    decreases |es|
  {
    hide NodeFlows, Handled;
    if es == [] {
      DefaultThere(n.(hosts := s.subnets.Values));
    } else {
      StaysLive(Normalised, localIP, s, es[0]);
      StaysWithoutDefault(localIP, s, es[0]);
      RunStaysOut(n, localIP, Handled(Normalised, localIP, s, es[0]), es[1..]);
    }
  }

  lemma StaysWithoutDefault(localIP: nat, s: State, e: Notice)
    requires TABLE8_DEFAULT !in s.flows
    ensures TABLE8_DEFAULT !in Handled(Normalised, localIP, s, e).flows
  {
    hide Applied, HostDeletes, HostAdds;
    if e.Gone? {
      DefaultGoes(s.flows, e.hs);
    } else {
      HostAddsNoDefault(s.flows, e.hs);
      if e.uid in s.subnets {
        DefaultGoes(s.flows, s.subnets[e.uid]);
        HostAddsNoDefault(Applied(s.flows, HostDeletes(Normalised, s.subnets[e.uid])), e.hs);
      }
    }
  }
}
