/** Flow tables: matching, lookup by priority, pipeline runs, and the add and delete commands. */
module OpenFlow {
  import opened Options

  datatype Kind = Arp | Ip | Other

  /** A range of IPv4 addresses given by its first address and its size. */
  datatype Net = Net(base: nat, size: nat)
  {
    predicate Contains(ip: nat)
    {
      base <= ip < base + size
    }

    predicate Within(other: Net)
    {
      other.base <= base && base + size <= other.base + other.size
    }

    predicate Disjoint(other: Net)
    {
      base + size <= other.base || other.base + other.size <= base
    }
  }

  function Host(ip: nat): Net
  {
    Net(ip, 1)
  }

  /** What the pipeline looks at. src and dst are the addresses of an ARP or an IP packet. */
  datatype Packet = Packet(
    inPort: nat, kind: Kind, src: nat, dst: nat, sha: nat, proto: nat, dport: nat,
    tunSrc: nat, tunDst: nat, tunId: nat, reg0: nat)

  datatype Match = Match(
    inPort: Option<nat>, kind: Option<Kind>, src: Option<Net>, dst: Option<Net>, sha: Option<nat>,
    proto: Option<nat>, dport: Option<nat>, tunSrc: Option<nat>, reg0: Option<nat>)

  const ANY := Match(None, None, None, None, None, None, None, None, None)

  datatype Action = LoadReg(n: nat) | TunToReg | RegToTun | SetTunDst(ip: nat) | Output(port: nat)
                  | Goto(table: nat) | Note(plugin: nat, version: nat)

  datatype Flow = Flow(table: nat, priority: nat, match_: Match, actions: seq<Action>)

  // ---------------------------------------------------------------- matching

  predicate Is(o: Option<nat>, n: nat)
  {
    o.None? || o.value == n
  }

  predicate In(o: Option<Net>, ip: nat)
  {
    o.None? || o.value.Contains(ip)
  }

  predicate Matches(m: Match, p: Packet)
  {
    && Is(m.inPort, p.inPort)
    && (m.kind.None? || m.kind.value == p.kind)
    && In(m.src, p.src) && In(m.dst, p.dst)
    && Is(m.sha, p.sha) && Is(m.proto, p.proto) && Is(m.dport, p.dport)
    && Is(m.tunSrc, p.tunSrc) && Is(m.reg0, p.reg0)
  }

  predicate Candidate(flows: set<Flow>, t: nat, p: Packet, f: Flow)
  {
    f in flows && f.table == t && Matches(f.match_, p)
  }

  /** f is a match of the highest priority. Which of several such the switch uses is left open. */
  ghost predicate Chosen(flows: set<Flow>, t: nat, p: Packet, f: Flow)
  {
    Candidate(flows, t, p, f) && forall g :: Candidate(flows, t, p, g) ==> g.priority <= f.priority
  }

  // ---------------------------------------------------------------- running

  const TABLES := 254

  datatype Verdict = Dropped | Sent(port: nat, p: Packet) | Missed | Looped

  datatype Step = Next(table: nat, p: Packet) | Done(v: Verdict)

  /** A packet is never sent back to the port it came from. */
  function Execute(actions: seq<Action>, p: Packet): Step
  {
    if actions == [] then Done(Dropped)
    else match actions[0]
      case LoadReg(n) => Execute(actions[1..], p.(reg0 := n))
      case TunToReg => Execute(actions[1..], p.(reg0 := p.tunId))
      case RegToTun => Execute(actions[1..], p.(tunId := p.reg0))
      case SetTunDst(ip) => Execute(actions[1..], p.(tunDst := ip))
      case Output(port) => Done(if port == p.inPort then Dropped else Sent(port, p))
      case Goto(t) => Next(t, p)
      case Note(_, _) => Execute(actions[1..], p)
  }

  /** v is a possible verdict on p from table t on. A goto must raise the table number. */
  ghost predicate Runs(flows: set<Flow>, t: nat, p: Packet, v: Verdict)
    requires t < TABLES
    decreases TABLES - t
  {
    if !exists f :: Chosen(flows, t, p, f) then v == Missed
    else exists f :: Chosen(flows, t, p, f) && After(flows, t, Execute(f.actions, p), v)
  }

  ghost predicate After(flows: set<Flow>, t: nat, s: Step, v: Verdict)
    requires t < TABLES
    decreases TABLES - t, 0
  {
    match s
    case Done(w) => v == w
    case Next(u, q) => if t < u < TABLES then Runs(flows, u, q, v) else v == Looped
  }

  /** Among finitely many matches one has the highest priority. */
  lemma {:induction false} SomeChosen(flows: set<Flow>, t: nat, p: Packet, f: Flow) returns (g: Flow)
    requires Candidate(flows, t, p, f)
    ensures Chosen(flows, t, p, g)
    decreases |set h | h in flows && f.priority < h.priority|
  {
    if h :| Candidate(flows, t, p, h) && f.priority < h.priority {
      var a, b := set k | k in flows && h.priority < k.priority, set k | k in flows && f.priority < k.priority;
      assert a <= b && h in b && h !in a;
      assert a < b;
      Smaller(a, b);
      g := SomeChosen(flows, t, p, h);
    } else {
      g := f;
    }
  }

  lemma Smaller(a: set<Flow>, b: set<Flow>)
    requires a < b
    ensures |a| < |b|
  {
    assert |b - a| == |b| - |a|;
  }

  // ---------------------------------------------------------------- changing a flow table

  predicate SameKey(f: Flow, g: Flow)
  {
    f.table == g.table && f.priority == g.priority && f.match_ == g.match_
  }

  /** add-flow replaces a flow with the same table, priority and match. */
  function Add(flows: set<Flow>, f: Flow): set<Flow>
  {
    (set g | g in flows && !SameKey(f, g)) + {f}
  }

  function AddAll(flows: set<Flow>, fs: seq<Flow>): set<Flow>
    decreases |fs|
  {
    if fs == [] then flows else AddAll(Add(flows, fs[0]), fs[1..])
  }

  predicate Narrows<T(==)>(d: Option<T>, m: Option<T>)
  {
    d.None? || m == d
  }

  predicate NarrowsNet(d: Option<Net>, m: Option<Net>)
  {
    d.None? || (m.Some? && m.value.Within(d.value))
  }

  /** Non-strict deletion (section 6.4 of OpenFlow Switch Specification 1.3): equal or more specific. */
  predicate Covers(d: Match, m: Match)
  {
    && Narrows(d.inPort, m.inPort) && Narrows(d.kind, m.kind)
    && NarrowsNet(d.src, m.src) && NarrowsNet(d.dst, m.dst)
    && Narrows(d.sha, m.sha) && Narrows(d.proto, m.proto) && Narrows(d.dport, m.dport)
    && Narrows(d.tunSrc, m.tunSrc) && Narrows(d.reg0, m.reg0)
  }

  /** del-flows, in one table or in all of them. */
  function Delete(flows: set<Flow>, table: Option<nat>, d: Match): set<Flow>
  {
    set f | f in flows && !(Is(table, f.table) && Covers(d, f.match_))
  }

  lemma {:induction false} AddedAll(flows: set<Flow>, fs: seq<Flow>)
    requires forall i, j :: 0 <= i < j < |fs| ==> !SameKey(fs[i], fs[j])
    ensures forall g :: (g in AddAll(flows, fs)) <==> (g in fs || (g in flows && forall f :: f in fs ==> !SameKey(f, g)))
    decreases |fs|
  {
    if fs == [] {
    } else {
      AddedAll(Add(flows, fs[0]), fs[1..]);
      forall g
        ensures g in AddAll(flows, fs) <==> g in fs || (g in flows && forall f :: f in fs ==> !SameKey(f, g))
      {
        assert g in fs <==> g == fs[0] || g in fs[1..];
        if g == fs[0] {
          forall f | f in fs[1..]
            ensures !SameKey(f, g)
          {
            var i :| 0 <= i < |fs[1..]| && fs[1..][i] == f;
            assert fs[i + 1] == f && !SameKey(fs[0], fs[i + 1]);
          }
        }
        assert (forall f :: f in fs ==> !SameKey(f, g))
          <==> !SameKey(fs[0], g) && forall f :: f in fs[1..] ==> !SameKey(f, g);
      }
    }
  }
}
