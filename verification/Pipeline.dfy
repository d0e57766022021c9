/** The flows of a node (controller.go, openshift-sdn-ovs) and the pipeline they implement. */
module Pipeline {
  import opened OpenFlow
  import opened Options

  datatype Pod = Pod(ip: nat, port: nat, mac: nat, vnid: nat)

  datatype HostSubnet = HostSubnet(hostIP: nat, subnet: Net)

  /** One port of a service in the virtual network netid. */
  datatype ServicePort = ServicePort(ip: nat, proto: nat, port: nat, netid: nat)

  /** What is configured on a node. */
  datatype Node = Node(
    ip: nat,
    local: Net,
    cluster: Net,
    services: Net,
    pods: set<Pod>,
    hosts: set<HostSubnet>,
    servicePorts: set<ServicePort>)

  const VXLAN := 1
  const TUN := 2
  const VOVSBR := 3

  /** GenerateDefaultGateway: the first address with its lowest bit set. */
  function Gateway(n: Net): nat
  {
    if n.base % 2 == 0 then n.base + 1 else n.base
  }

  // ---------------------------------------------------------------- flows

  const ARP := ANY.(kind := Some(Arp))
  const IP := ANY.(kind := Some(Ip))

  function Table0(n: Node): seq<Flow>
  {
    [ Flow(0, 200, ARP.(inPort := Some(VXLAN), src := Some(n.cluster), dst := Some(n.local)), [TunToReg, Goto(1)]),
      Flow(0, 200, IP.(inPort := Some(VXLAN), src := Some(n.cluster), dst := Some(n.local)), [TunToReg, Goto(1)]),
      Flow(0, 150, ANY.(inPort := Some(VXLAN)), []),
      Flow(0, 200, ARP.(inPort := Some(TUN), src := Some(Host(Gateway(n.local))), dst := Some(n.cluster)), [Goto(5)]),
      Flow(0, 200, IP.(inPort := Some(TUN)), [Goto(5)]),
      Flow(0, 150, ANY.(inPort := Some(TUN)), []),
      Flow(0, 200, ARP.(inPort := Some(VOVSBR), src := Some(n.local)), [Goto(5)]),
      Flow(0, 200, IP.(inPort := Some(VOVSBR), src := Some(n.local)), [Goto(5)]),
      Flow(0, 150, ANY.(inPort := Some(VOVSBR)), []),
      Flow(0, 100, ARP, [Goto(2)]),
      Flow(0, 100, IP, [Goto(2)]),
      Flow(0, 0, ANY, []) ]
  }

  function Tables1To4(n: Node): seq<Flow>
  {
    [ Flow(1, 0, ANY, []),
      Flow(2, 0, ANY, []),
      Flow(3, 100, IP.(dst := Some(n.services)), [Goto(4)]),
      Flow(3, 0, ANY, [Goto(5)]),
      Flow(4, 200, ANY.(reg0 := Some(0)), [Output(TUN)]),
      Flow(4, 0, ANY, []) ]
  }

  function Table5(n: Node): seq<Flow>
  {
    var gateway := Some(Host(Gateway(n.local)));
    [ Flow(5, 300, ARP.(dst := gateway), [Output(TUN)]),
      Flow(5, 300, IP.(dst := gateway), [Output(TUN)]),
      Flow(5, 200, ARP.(dst := Some(n.local)), [Goto(6)]),
      Flow(5, 200, IP.(dst := Some(n.local)), [Goto(7)]),
      Flow(5, 100, ARP.(dst := Some(n.cluster)), [Goto(8)]),
      Flow(5, 100, IP.(dst := Some(n.cluster)), [Goto(8)]),
      Flow(5, 0, IP, [Output(TUN)]),
      Flow(5, 0, ARP, []) ]
  }

  function Tables6To8(): seq<Flow>
  {
    [ Flow(6, 0, ANY, [Output(VOVSBR)]),
      Flow(7, 0, ANY, [Output(VOVSBR)]),
      Flow(8, 0, ANY, []) ]
  }

  /** The version of the rules, written down in a table that no packet visits. */
  const VERSION_FLOW := Flow(253, 32768, ANY, [Note(1, 1)])

  function BaseFlows(n: Node): seq<Flow>
  {
    Table0(n) + Tables1To4(n) + Table5(n) + Tables6To8()
  }

  function StaticFlows(n: Node): seq<Flow>
  {
    BaseFlows(n) + [VERSION_FLOW]
  }

  function HostFlows(h: HostSubnet): seq<Flow>
  {
    var tunnel := [RegToTun, SetTunDst(h.hostIP), Output(VXLAN)];
    [ Flow(1, 100, ANY.(tunSrc := Some(h.hostIP)), [Goto(5)]),
      Flow(8, 100, ARP.(dst := Some(h.subnet)), tunnel),
      Flow(8, 100, IP.(dst := Some(h.subnet)), tunnel) ]
  }

  function PodFlows(d: Pod): seq<Flow>
  {
    var self := Some(Host(d.ip));
    [ Flow(2, 100, ARP.(inPort := Some(d.port), src := self, sha := Some(d.mac)), [LoadReg(d.vnid), Goto(5)]),
      Flow(2, 100, IP.(inPort := Some(d.port), src := self), [LoadReg(d.vnid), Goto(3)]),
      Flow(6, 100, ARP.(dst := self), [Output(d.port)]) ]
    + if d.vnid == 0 then [Flow(7, 100, IP.(dst := self), [Output(d.port)])]
      else [Flow(7, 100, IP.(dst := self, reg0 := Some(0)), [Output(d.port)]),
            Flow(7, 100, IP.(dst := self, reg0 := Some(d.vnid)), [Output(d.port)])]
  }

  /** generateBaseServiceRule. */
  function ServiceMatch(ip: nat, proto: nat, port: nat): Match
  {
    IP.(dst := Some(Host(ip)), proto := Some(proto), dport := Some(port))
  }

  /** generateAddServiceRule. */
  function ServiceFlow(s: ServicePort): Flow
  {
    var base := ServiceMatch(s.ip, s.proto, s.port);
    Flow(4, 100, if s.netid == 0 then base else base.(reg0 := Some(s.netid)), [Output(TUN)])
  }

  function AllHostFlows(hosts: set<HostSubnet>): set<Flow>
  {
    set h, f | h in hosts && f in HostFlows(h) :: f
  }

  function AllPodFlows(pods: set<Pod>): set<Flow>
  {
    set d, f | d in pods && f in PodFlows(d) :: f
  }

  function AllServiceFlows(ports: set<ServicePort>): set<Flow>
  {
    set s | s in ports :: ServiceFlow(s)
  }

  function NodeFlows(n: Node): set<Flow>
  {
    (set f | f in StaticFlows(n)) + AllHostFlows(n.hosts) + AllPodFlows(n.pods) + AllServiceFlows(n.servicePorts)
  }

  // ---------------------------------------------------------------- the pipeline meant

  /** Pods have their own addresses and remote nodes disjoint subnets. */
  ghost predicate WellFormed(n: Node)
  {
    && (forall a, b :: a in n.pods && b in n.pods && a.ip == b.ip ==> a == b)
    && (forall g, h :: g in n.hosts && h in n.hosts && g != h ==> g.subnet.Disjoint(h.subnet))
  }

  function Send(p: Packet, port: nat): Step
  {
    Done(if port == p.inPort then Dropped else Sent(port, p))
  }

  const DROP := Done(Dropped)

  /** From VXLAN only cluster traffic for this node, from the bridge only local addresses, from pods anything. */
  function Dispatch(n: Node, p: Packet): Step
  {
    if p.kind.Other? then DROP
    else if p.inPort == VXLAN then
      if n.cluster.Contains(p.src) && n.local.Contains(p.dst) then Next(1, p.(reg0 := p.tunId)) else DROP
    else if p.inPort == TUN then
      if p.kind.Ip? || (p.src == Gateway(n.local) && n.cluster.Contains(p.dst)) then Next(5, p) else DROP
    else if p.inPort == VOVSBR then
      if n.local.Contains(p.src) then Next(5, p) else DROP
    else Next(2, p)
  }

  ghost function FromTunnel(n: Node, p: Packet): Step
  {
    if exists h :: h in n.hosts && h.hostIP == p.tunSrc then Next(5, p) else DROP
  }

  /** d sent p: its port, its address, for ARP its hardware address. */
  predicate Sends(d: Pod, p: Packet)
  {
    d.port == p.inPort && d.ip == p.src && (p.kind.Ip? || (p.kind.Arp? && d.mac == p.sha))
  }

  ghost function FromPod(n: Node, p: Packet): Step
  {
    if d :| d in n.pods && Sends(d, p) then
      Next(if p.kind.Ip? then 3 else 5, p.(reg0 := d.vnid))
    else DROP
  }

  function ServiceOrNot(n: Node, p: Packet): Step
  {
    if p.kind.Ip? && n.services.Contains(p.dst) then Next(4, p) else Next(5, p)
  }

  /** s is open to the virtual network of p. */
  predicate Serves(s: ServicePort, p: Packet)
  {
    && p.kind.Ip? && s.ip == p.dst && s.proto == p.proto && s.port == p.dport
    && (s.netid == 0 || s.netid == p.reg0)
  }

  ghost function ToService(n: Node, p: Packet): Step
  {
    if p.reg0 == 0 || exists s :: s in n.servicePorts && Serves(s, p) then Send(p, TUN) else DROP
  }

  function Route(n: Node, p: Packet): Step
  {
    if p.kind.Other? then Done(Missed)
    else if p.dst == Gateway(n.local) then Send(p, TUN)
    else if n.local.Contains(p.dst) then Next(if p.kind.Ip? then 7 else 6, p)
    else if n.cluster.Contains(p.dst) then Next(8, p)
    else if p.kind.Ip? then Send(p, TUN)
    else DROP
  }

  ghost function ArpToPod(n: Node, p: Packet): Step
  {
    if d :| d in n.pods && p.kind.Arp? && d.ip == p.dst then Send(p, d.port) else Send(p, VOVSBR)
  }

  /** d may receive from the virtual network vnid. */
  predicate Admits(d: Pod, vnid: nat)
  {
    d.vnid == 0 || vnid == 0 || vnid == d.vnid
  }

  ghost function IpToPod(n: Node, p: Packet): Step
  {
    if d :| d in n.pods && p.kind.Ip? && d.ip == p.dst && Admits(d, p.reg0) then Send(p, d.port)
    else Send(p, VOVSBR)
  }

  ghost function ToRemote(n: Node, p: Packet): Step
  {
    if h :| h in n.hosts && !p.kind.Other? && h.subnet.Contains(p.dst) then
      Send(p.(tunId := p.reg0, tunDst := h.hostIP), VXLAN)
    else DROP
  }

  ghost function StepAt(n: Node, t: nat, p: Packet): Step
    requires t <= 8
  {
    if t == 0 then Dispatch(n, p)
    else if t == 1 then FromTunnel(n, p)
    else if t == 2 then FromPod(n, p)
    else if t == 3 then ServiceOrNot(n, p)
    else if t == 4 then ToService(n, p)
    else if t == 5 then Route(n, p)
    else if t == 6 then ArpToPod(n, p)
    else if t == 7 then IpToPod(n, p)
    else ToRemote(n, p)
  }

  ghost function VerdictFrom(n: Node, t: nat, p: Packet): Verdict
    requires t <= 8
    decreases 8 - t
  {
    match StepAt(n, t, p)
    case Done(v) => v
    case Next(u, q) => if t < u <= 8 then VerdictFrom(n, u, q) else Looped
  }
}
