/** Tenant isolation (ISOLATION.md) from the flows: packets of pods, through the tunnel between nodes. */
module Isolation {
  import opened OpenFlow
  import opened Pipeline
  import PipelineRuns

  /** The tunnel carries 24 bits of the virtual network id (VNI, section 5 of RFC 7348). */
  const VNIDS := 0x1000000

  // ---------------------------------------------------------------- several nodes

  /** Pods on ports of their own, with addresses of the node's subnet other than its gateway. */
  ghost predicate Placed(n: Node)
  {
    && n.local.Contains(Gateway(n.local))
    && (forall a :: a in n.pods ==>
          n.local.Contains(a.ip) && a.ip != Gateway(n.local) && VOVSBR < a.port && a.vnid < VNIDS)
    && (forall a, b :: a in n.pods && b in n.pods && a != b ==> a.ip != b.ip && a.port != b.port)
  }

  /** Every node has the flows of every other node. */
  ghost predicate Network(net: set<Node>)
  {
    && (forall n :: n in net ==>
          && Placed(n) && n.local.Within(n.cluster) && n.cluster.Disjoint(n.services)
          && n.hosts == (set m | m in net && m != n :: HostSubnet(m.ip, m.local)))
    && (forall m, n :: m in net && n in net ==> m.cluster == n.cluster && m.services == n.services)
    && (forall m, n :: m in net && n in net && m != n ==> m.ip != n.ip && m.local.Disjoint(n.local))
  }

  /** p sent by node n as the tunnel port of another node sees it. */
  function Arriving(n: Node, p: Packet): Packet
  {
    p.(inPort := VXLAN, tunSrc := n.ip, tunId := p.tunId % VNIDS, reg0 := 0)
  }

  datatype Outcome = At(node: Node, v: Verdict) | Lost

  /** o is a possible end of p, which enters the bridge of n. */
  ghost predicate Ends(net: set<Node>, n: Node, p: Packet, o: Outcome)
  {
    exists v :: Runs(NodeFlows(n), 0, p, v) && EndsAfter(net, n, v, o)
  }

  ghost predicate EndsAfter(net: set<Node>, n: Node, v: Verdict, o: Outcome)
  {
    if v.Sent? && v.port == VXLAN then
      if exists m :: m in net && m.ip == v.p.tunDst then
        exists m, w :: && m in net && m.ip == v.p.tunDst
                       && Runs(NodeFlows(m), 0, Arriving(n, v.p), w) && o == At(m, w)
      else o == Lost
    else o == At(n, v)
  }

  // ---------------------------------------------------------------- one run through the network

  lemma NodesAreWellFormed(net: set<Node>, n: Node)
    requires Network(net) && n in net
    ensures WellFormed(n)
  {
    forall g, h | g in n.hosts && h in n.hosts && g != h
      ensures g.subnet.Disjoint(h.subnet)
    {
      var a :| a in net && a != n && g == HostSubnet(a.ip, a.local);
      var b :| b in net && b != n && h == HostSubnet(b.ip, b.local);
    }
  }

  lemma Runs0(net: set<Node>, n: Node, p: Packet, v: Verdict)
    requires Network(net) && n in net
    ensures Runs(NodeFlows(n), 0, p, v) <==> v == VerdictFrom(n, 0, p)
  {
    hide Network, NodeFlows;
    NodesAreWellFormed(net, n);
    PipelineRuns.RunsExactly(n, 0, p, v);
  }

  ghost function EndOf(net: set<Node>, n: Node, v: Verdict): Outcome
  {
    if v.Sent? && v.port == VXLAN then
      if m :| m in net && m.ip == v.p.tunDst then At(m, VerdictFrom(m, 0, Arriving(n, v.p))) else Lost
    else At(n, v)
  }

  lemma EndsExactly(net: set<Node>, n: Node, p: Packet, o: Outcome)
    requires Network(net) && n in net
    ensures Ends(net, n, p, o) <==> o == EndOf(net, n, VerdictFrom(n, 0, p))
  {
    hide NodeFlows, VerdictFrom;
    var v := VerdictFrom(n, 0, p);
    forall w
      ensures Runs(NodeFlows(n), 0, p, w) <==> w == v
    {
      hide Network;
      Runs0(net, n, p, w);
    }
    assert Ends(net, n, p, o) <==> EndsAfter(net, n, v, o);
    if v.Sent? && v.port == VXLAN {
      if m :| m in net && m.ip == v.p.tunDst {
        forall w
          ensures Runs(NodeFlows(m), 0, Arriving(n, v.p), w) <==> w == VerdictFrom(m, 0, Arriving(n, v.p))
        {
          hide Network;
          Runs0(net, m, Arriving(n, v.p), w);
        }
      }
    }
  }

  // ---------------------------------------------------------------- the pipeline on a pod's packet

  /** The packet as the bridge of m sends it to a port, when pod a of node n sent p. */
  function Carried(n: Node, a: Pod, m: Node, p: Packet): Packet
  {
    if n == m then p.(reg0 := a.vnid)
    else p.(inPort := VXLAN, reg0 := a.vnid, tunId := a.vnid, tunSrc := n.ip, tunDst := m.ip)
  }

  /** Delivery on the node of b, of a packet of the network vnid. */
  function Delivery(b: Pod, p: Packet): Verdict
  {
    Sent(if p.kind.Arp? || Admits(b, p.reg0) then b.port else VOVSBR, p)
  }

  lemma FromTable5(n: Node, b: Pod, p: Packet)
    requires WellFormed(n) && Placed(n) && b in n.pods && p.dst == b.ip && !p.kind.Other?
    requires p.inPort != b.port && p.inPort != VOVSBR
    ensures VerdictFrom(n, 5, p) == Delivery(b, p)
  {
  }

  /** From the port of pod a, p reaches the routing table with a's virtual network in reg0. */
  lemma ToTable5(n: Node, a: Pod, p: Packet)
    requires WellFormed(n) && Placed(n) && a in n.pods && Sends(a, p) && !n.services.Contains(p.dst)
    ensures VerdictFrom(n, 0, p) == VerdictFrom(n, 5, p.(reg0 := a.vnid))
  {
    hide Route;
    var q := p.(reg0 := a.vnid);
    assert FromPod(n, p) == Next(if p.kind.Ip? then 3 else 5, q);
    assert VerdictFrom(n, 2, p) == VerdictFrom(n, if p.kind.Ip? then 3 else 5, q);
    if p.kind.Ip? {
      assert VerdictFrom(n, 3, q) == VerdictFrom(n, 5, q);
    }
  }

  /** A packet for a pod of another node leaves through the tunnel, marked with reg0. */
  lemma ToTunnel(net: set<Node>, n: Node, m: Node, p: Packet)
    requires Network(net) && n in net && m in net && n != m && !p.kind.Other?
    requires m.local.Contains(p.dst) && p.inPort != VXLAN
    ensures VerdictFrom(n, 5, p) == Sent(VXLAN, p.(tunId := p.reg0, tunDst := m.ip))
  {
    var h := HostSubnet(m.ip, m.local);
    assert h in n.hosts;
    NodesAreWellFormed(net, n);
    assert !n.local.Contains(p.dst) && n.cluster.Contains(p.dst);
    assert ToRemote(n, p) == Send(p.(tunId := p.reg0, tunDst := m.ip), VXLAN);
    assert VerdictFrom(n, 8, p) == Sent(VXLAN, p.(tunId := p.reg0, tunDst := m.ip));
  }

  // ---------------------------------------------------------------- isolation

  /** a on n and b on m are two different pods of the network. */
  ghost predicate TwoPods(net: set<Node>, n: Node, a: Pod, m: Node, b: Pod)
  {
    n in net && m in net && a in n.pods && b in m.pods && (n != m || a != b)
  }

  lemma PodEnd(net: set<Node>, n: Node, a: Pod, m: Node, b: Pod, p: Packet)
    requires Network(net) && TwoPods(net, n, a, m, b) && Sends(a, p) && p.dst == b.ip
    ensures EndOf(net, n, VerdictFrom(n, 0, p)) == At(m, Delivery(b, Carried(n, a, m, p)))
  {
    hide VerdictFrom;
    NodesAreWellFormed(net, n);
    NodesAreWellFormed(net, m);
    var q := p.(reg0 := a.vnid);
    ToTable5(n, a, p);
    if n == m {
      FromTable5(n, b, q);
    } else {
      ToTunnel(net, n, m, q);
      var r := q.(tunId := q.reg0, tunDst := m.ip);
      var s := Arriving(n, r);
      AcrossTunnel(net, n, m, b, s);
      assert s.(reg0 := s.tunId) == Carried(n, a, m, p);
    }
  }

  lemma AcrossTunnel(net: set<Node>, n: Node, m: Node, b: Pod, p: Packet)
    requires Network(net) && n in net && m in net && n != m && b in m.pods && !p.kind.Other?
    requires p.inPort == VXLAN && p.tunSrc == n.ip && p.dst == b.ip && n.local.Contains(p.src)
    ensures VerdictFrom(m, 0, p) == Delivery(b, p.(reg0 := p.tunId))
  {
    hide Route;
    NodesAreWellFormed(net, m);
    var q := p.(reg0 := p.tunId);
    assert HostSubnet(n.ip, n.local) in m.hosts;
    assert Dispatch(m, p) == Next(1, q);
    assert FromTunnel(m, q) == Next(5, q);
    assert VerdictFrom(m, 1, q) == VerdictFrom(m, 5, q);
    FromTable5(m, b, q);
  }

  /** A packet of a for b has one end: b's port if it is ARP or their networks are the same or global, else lbr0. */
  lemma Isolated(net: set<Node>, n: Node, a: Pod, m: Node, b: Pod, p: Packet, o: Outcome)
    requires Network(net) && TwoPods(net, n, a, m, b) && Sends(a, p) && p.dst == b.ip
    ensures Ends(net, n, p, o) <==>
            o == At(m, Sent(if p.kind.Arp? || a.vnid == 0 || b.vnid == 0 || a.vnid == b.vnid then b.port else VOVSBR,
                            Carried(n, a, m, p)))
  {
    hide Network, VerdictFrom, Ends;
    EndsExactly(net, n, p, o);
    PodEnd(net, n, a, m, b, p);
  }

  /** So b gets an IP packet of a if and only if one of them is in network 0 or both are in the same. */
  lemma Isolation(net: set<Node>, n: Node, a: Pod, m: Node, b: Pod, p: Packet)
    requires Network(net) && TwoPods(net, n, a, m, b) && Sends(a, p) && p.dst == b.ip && p.kind.Ip?
    ensures (exists q :: Ends(net, n, p, At(m, Sent(b.port, q)))) <==>
            a.vnid == 0 || b.vnid == 0 || a.vnid == b.vnid
  {
    hide Ends;
    var q := Carried(n, a, m, p);
    forall r
      ensures Ends(net, n, p, At(m, Sent(b.port, r))) <==> r == q && Admits(b, a.vnid)
    {
      Isolated(net, n, a, m, b, p, At(m, Sent(b.port, r)));
    }
    assert Ends(net, n, p, At(m, Sent(b.port, q))) <==> Admits(b, a.vnid);
  }

  // ---------------------------------------------------------------- whatever a container sends

  /** The routing table hands an IP packet to the port of a pod only if it is for that pod and admitted. */
  lemma OnlyForPod(n: Node, b: Pod, p: Packet)
    requires WellFormed(n) && Placed(n) && b in n.pods
    requires p.kind.Ip? && VerdictFrom(n, 5, p).Sent? && VerdictFrom(n, 5, p).port == b.port
    ensures n.local.Contains(p.dst) && p.dst == b.ip && Admits(b, p.reg0)
  {
  }

  lemma OutOfPod(n: Node, p: Packet) returns (a: Pod)
    requires WellFormed(n) && VOVSBR < p.inPort && p.kind.Ip?
    requires VerdictFrom(n, 0, p).Sent? && VerdictFrom(n, 0, p).port != TUN
    ensures a in n.pods && Sends(a, p) && VerdictFrom(n, 0, p) == VerdictFrom(n, 5, p.(reg0 := a.vnid))
  {
    hide Route;
    assert Dispatch(n, p) == Next(2, p);
    assert VerdictFrom(n, 0, p) == VerdictFrom(n, 2, p);
    a :| a in n.pods && Sends(a, p);
    var q := p.(reg0 := a.vnid);
    assert VerdictFrom(n, 2, p) == VerdictFrom(n, 3, q);
    assert VerdictFrom(n, 3, q) == VerdictFrom(n, if n.services.Contains(p.dst) then 4 else 5, q);
  }

  /** A packet sent into the tunnel is for the subnet of the node it is sent to, and marked with reg0. */
  lemma IntoTunnel(net: set<Node>, n: Node, p: Packet)
    requires Network(net) && n in net && p.kind.Ip? && p.inPort != VXLAN
    requires VerdictFrom(n, 5, p).Sent? && VerdictFrom(n, 5, p).port == VXLAN
    ensures VerdictFrom(n, 5, p).p.tunId == p.reg0 && VerdictFrom(n, 5, p).p.kind.Ip?
    ensures VerdictFrom(n, 5, p).p.dst == p.dst && VerdictFrom(n, 5, p).p.src == p.src
  {
  }

  /** What leaves the tunnel for a port of a pod is for that pod and of a network it admits. */
  lemma OutOfTunnel(n: Node, b: Pod, p: Packet)
    requires WellFormed(n) && Placed(n) && b in n.pods && p.kind.Ip? && p.inPort == VXLAN
    requires VerdictFrom(n, 0, p).Sent? && VerdictFrom(n, 0, p).port == b.port
    ensures p.dst == b.ip && Admits(b, p.tunId)
  {
    hide Route;
    var q := p.(reg0 := p.tunId);
    assert Dispatch(n, p) == Next(1, q) || Dispatch(n, p) == DROP;
    assert VerdictFrom(n, 0, p) == VerdictFrom(n, 1, q);
    assert VerdictFrom(n, 1, q) == VerdictFrom(n, 5, q);
    OnlyForPod(n, b, q);
  }

  /** If an IP packet from any container port, with whatever addresses, comes out at the port of a pod b,
      it carries the address of a pod on that port, is addressed to b, and the two may talk. */
  lemma NothingElseArrives(net: set<Node>, n: Node, p: Packet, m: Node, b: Pod, q: Packet) returns (a: Pod)
    requires Network(net) && n in net && VOVSBR < p.inPort && p.kind.Ip?
    requires m in net && b in m.pods && Ends(net, n, p, At(m, Sent(b.port, q)))
    ensures a in n.pods && a.port == p.inPort && a.ip == p.src && p.dst == b.ip
    ensures a.vnid == 0 || b.vnid == 0 || a.vnid == b.vnid
  {
    hide VerdictFrom, Ends;
    EndsExactly(net, n, p, At(m, Sent(b.port, q)));
    NodesAreWellFormed(net, n);
    NodesAreWellFormed(net, m);
    var v := VerdictFrom(n, 0, p);
    a := OutOfPod(n, p);
    var r := p.(reg0 := a.vnid);
    if v.Sent? && v.port == VXLAN {
      IntoTunnel(net, n, r);
      OutOfTunnel(m, b, Arriving(n, v.p));
    } else {
      OnlyForPod(n, b, r);
    }
  }

  // ---------------------------------------------------------------- services

  /** A pod reaches a service through tun0 if and only if it is in network 0 or the service is in its network or in 0. */
  lemma ServiceIsolation(net: set<Node>, n: Node, a: Pod, p: Packet, o: Outcome)
    requires Network(net) && n in net && a in n.pods && Sends(a, p) && p.kind.Ip? && n.services.Contains(p.dst)
    ensures Ends(net, n, p, o) <==>
            o == At(n, if a.vnid == 0 || exists s :: s in n.servicePorts && Serves(s, p.(reg0 := a.vnid))
                       then Sent(TUN, p.(reg0 := a.vnid)) else Dropped)
  {
    hide Route;
    EndsExactly(net, n, p, o);
    NodesAreWellFormed(net, n);
    var q := p.(reg0 := a.vnid);
    assert FromPod(n, p) == Next(3, q);
    assert VerdictFrom(n, 2, p) == VerdictFrom(n, 3, q);
    assert VerdictFrom(n, 3, q) == VerdictFrom(n, 4, q);
  }

  // ---------------------------------------------------------------- two tenants

  const CLUSTER := Net(0x0A01_0000, 0x1_0000)
  const SERVICES := Net(0xAC1E_0000, 0x1_0000)

  const POD_A := Pod(0x0A01_0002, 4, 1, 10)
  const POD_B := Pod(0x0A01_0102, 4, 2, 11)
  const HOST_A := HostSubnet(0xC0A8_0001, Net(0x0A01_0000, 0x100))
  const HOST_B := HostSubnet(0xC0A8_0002, Net(0x0A01_0100, 0x100))
  const NODE_A := Node(HOST_A.hostIP, HOST_A.subnet, CLUSTER, SERVICES, {POD_A}, {HOST_B}, {})
  const NODE_B := Node(HOST_B.hostIP, HOST_B.subnet, CLUSTER, SERVICES, {POD_B}, {HOST_A}, {})

  /** Any two nodes that know each other are a network. */
  lemma Pair(n: Node, m: Node)
    requires Placed(n) && Placed(m) && n.ip != m.ip && n.local.Disjoint(m.local)
    requires n.local.Within(n.cluster) && m.local.Within(n.cluster) && n.cluster.Disjoint(n.services)
    requires m.cluster == n.cluster && m.services == n.services
    requires n.hosts == {HostSubnet(m.ip, m.local)} && m.hosts == {HostSubnet(n.ip, n.local)}
    ensures Network({n, m})
  {
    hide Placed;
    var net := {n, m};
    assert n in net && m in net;
    assert (set k | k in net && k != n :: HostSubnet(k.ip, k.local)) == n.hosts;
    assert (set k | k in net && k != m :: HostSubnet(k.ip, k.local)) == m.hosts;
  }

  /** Two nodes, 10.1.0.0/24 and 10.1.1.0/24, with a pod each, of the networks 10 and 11. */
  lemma TwoNodes()
    ensures Network({NODE_A, NODE_B})
  {
    hide Network;
    Pair(NODE_A, NODE_B);
  }

  /** They meet all assumptions, and what one pod sends to the other ends at lbr0 instead. */
  lemma TwoTenants(p: Packet)
    requires p.kind.Ip? && p.inPort == POD_A.port && p.src == POD_A.ip && p.dst == POD_B.ip
    ensures Network({NODE_A, NODE_B}) && TwoPods({NODE_A, NODE_B}, NODE_A, POD_A, NODE_B, POD_B) && Sends(POD_A, p)
    ensures forall q :: !Ends({NODE_A, NODE_B}, NODE_A, p, At(NODE_B, Sent(POD_B.port, q)))
    ensures Ends({NODE_A, NODE_B}, NODE_A, p, At(NODE_B, Sent(VOVSBR, Carried(NODE_A, POD_A, NODE_B, p))))
  {
    hide Ends, Network;
    TwoNodes();
    var net := {NODE_A, NODE_B};
    Isolation(net, NODE_A, POD_A, NODE_B, POD_B, p);
    Isolated(net, NODE_A, POD_A, NODE_B, POD_B, p, At(NODE_B, Sent(VOVSBR, Carried(NODE_A, POD_A, NODE_B, p))));
  }
}
