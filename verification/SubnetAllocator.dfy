/** The allocator of node subnets: subnet_allocator.go, and the gateway of a subnet (common.go). */
module SubnetAllocation {
  import opened Bits
  import opened Options

  /** An address and the length of its prefix. */
  datatype Subnet = Subnet(ip: nat, length: int)

  /** A network, the host bits of its subnets, and how subnet numbers are rotated. */
  datatype Plan = Plan(
    ip: nat, prefix: nat, hostBits: nat, leftShift: nat, leftMask: nat, rightShift: nat, rightMask: nat)
  {
    function SubnetBits(): int
    {
      32 - prefix - hostBits
    }
  }

  /** The subnet part reaches into the octet above the host part, which ends within an octet. */
  predicate Rotated(prefix: nat, hostBits: nat)
  {
    hostBits % 8 != 0 && (hostBits - 1) / 8 != (32 - prefix - 1) / 8
  }

  /** NewSubnetAllocator's shifts and masks, on words of 32 bits. */
  function PlanFor(ip: nat, prefix: nat, hostBits: nat): Plan
    requires prefix + hostBits <= 32
  {
    if Rotated(prefix, hostBits) then
      var left := 8 - hostBits % 8;
      Reaches(prefix, hostBits);
      Plan(ip, prefix, hostBits, left, (Shl(1, 32 - prefix) + WORD - 1) % WORD,
           32 - prefix - hostBits - left, Shl((Shl(1, left) + WORD - 1) % WORD, hostBits))
    else Plan(ip, prefix, hostBits, 0, 0xFFFFFFFF, 0, 0)
  }

  lemma Reaches(prefix: nat, hostBits: nat)
    requires prefix + hostBits <= 32 && Rotated(prefix, hostBits)
    ensures 8 - hostBits % 8 < 32 - prefix - hostBits
  {
  }

  /** What net.ParseCIDR returns: the address with its host part cleared. */
  predicate IsNetwork(ip: nat, prefix: nat)
  {
    prefix <= 32 && ip < WORD && Low(ip, 32 - prefix) == 0
  }

  /** The address of the n-th subnet. */
  function Address(p: Plan, n: nat): nat
  {
    var shifted := Shl(n, p.hostBits);
    Or(Or(p.ip, And(Shl(shifted, p.leftShift), p.leftMask)), And(Shr(shifted, p.rightShift), p.rightMask))
  }

  // ---------------------------------------------------------------- the rotation in arithmetic

  /** The n-th subnet is the Number(n)-th in the order of addresses. */
  function Number(p: Plan, n: nat): nat
  {
    Low(n, p.rightShift) * Pow2(p.leftShift) + Shr(n, p.rightShift)
  }

  lemma Masks(p: Plan)
    requires p.prefix + p.hostBits <= 32 && Rotated(p.prefix, p.hostBits) && p == PlanFor(p.ip, p.prefix, p.hostBits)
    ensures p.leftMask == Pow2(32 - p.prefix) - 1
    ensures p.rightMask == (Pow2(p.leftShift) - 1) * Pow2(p.hostBits)
    ensures p.hostBits + p.leftShift + p.rightShift == 32 - p.prefix && p.rightShift > 0
  {
    hide Pow2, Shl;
    var s, l, h := 32 - p.prefix, p.leftShift, p.hostBits;
    Reaches(p.prefix, p.hostBits);
    OneShifted(s);
    OneShifted(l);
    ShlFits(Pow2(l) - 1, l, h);
  }

  /** The Go expression uint32(1) << s - 1, which wraps around when s is 32. */
  lemma OneShifted(s: nat)
    requires s <= 32
    ensures (Shl(1, s) + WORD - 1) % WORD == Pow2(s) - 1
  {
    hide Pow2;
    Word();
    assert 1 * Pow2(s) == Pow2(s);
    Grows(s, 32);
    if s < 32 {
      Grows(s + 1, 32);
      Doubled(s);
    }
  }

  lemma Doubled(s: nat)
    ensures Pow2(s + 1) == 2 * Pow2(s)
  {
  }

  /** (a * b) * c with powers. */
  lemma TimesPow(a: nat, j: nat, k: nat)
    ensures a * Pow2(j) * Pow2(k) == a * Pow2(j + k)
  {
    Pow2Sum(j, k);
    Associate(a, Pow2(j), Pow2(k));
  }

  lemma Associate(a: nat, b: nat, c: nat)
    ensures a * b * c == a * (b * c)
  {
  }

  lemma Distribute(a: nat, b: nat, c: nat)
    ensures (a + b) * c == a * c + b * c
  {
  }

  /** n in two parts, both shifted to the left. */
  lemma ShiftedParts(n: nat, r: nat, k: nat)
    ensures n * Pow2(k) == Shr(n, r) * Pow2(r + k) + Low(n, r) * Pow2(k)
    ensures Low(n, r) * Pow2(k) < Pow2(r + k)
  {
    Parts(n, r);
    Distribute(Shr(n, r) * Pow2(r), Low(n, r), Pow2(k));
    TimesPow(Shr(n, r), r, k);
    Fits(Low(n, r), r, k);
  }

  lemma LeftPart(n: nat, r: nat, l: nat, h: nat)
    ensures Low(n * Pow2(h) * Pow2(l), h + l + r) == Low(n, r) * Pow2(h + l)
  {
    hide Pow2, Low, Shr;
    TimesPow(n, h, l);
    ShiftedParts(n, r, h + l);
    PartsAre(Shr(n, r), Low(n, r) * Pow2(h + l), h + l + r);
  }

  lemma HighPart(n: nat, r: nat, l: nat)
    requires n < Pow2(r + l)
    ensures Shr(n, r) < Pow2(l)
  {
    Parts(n, r);
    if Pow2(l) <= Shr(n, r) {
      Pow2Sum(l, r);
      Below(Pow2(l), Shr(n, r), Pow2(r));
    }
  }

  lemma RightPart(n: nat, r: nat, l: nat, h: nat)
    requires n < Pow2(r + l)
    ensures Low(Shr(Shr(n * Pow2(h), r), h), l) == Shr(n, r)
  {
    hide Pow2, Low, Shr;
    ShrShr(n * Pow2(h), r, h);
    ShiftedParts(n, r, h);
    PartsAre(Shr(n, r), Low(n, r) * Pow2(h), r + h);
    HighPart(n, r, l);
    LowSmall(Shr(n, r), l);
  }

  lemma JoinParts(base: nat, m: nat, q: nat, r: nat, l: nat, h: nat)
    requires m < Pow2(r) && q < Pow2(l) && Low(base, h + l + r) == 0
    ensures Or(Or(base, m * Pow2(h + l)), q * Pow2(h)) == base + m * Pow2(h + l) + q * Pow2(h)
  {
    hide Pow2, Low, Shr, Or;
    var s, k := h + l + r, h + l;
    var b := Shr(base, s);
    Parts(base, s);
    Fits(m, r, k);
    OrDisjoint(b, m * Pow2(k), s);
    TimesPow(b, r, k);
    Distribute(b * Pow2(r), m, Pow2(k));
    Fits(q, l, h);
    OrDisjoint(b * Pow2(r) + m, q * Pow2(h), k);
  }

  lemma AddressRotated(p: Plan, n: nat)
    requires p.prefix + p.hostBits <= 32 && Rotated(p.prefix, p.hostBits) && p == PlanFor(p.ip, p.prefix, p.hostBits)
    requires IsNetwork(p.ip, p.prefix) && n < Pow2(p.SubnetBits())
    ensures Address(p, n) == p.ip + Low(n, p.rightShift) * Pow2(p.hostBits + p.leftShift)
                                  + Shr(n, p.rightShift) * Pow2(p.hostBits)
  {
    hide PlanFor, Pow2, Low, Shr, Shl, And, Or, Rotated;
    Masks(p);
    var s, l, r, h := 32 - p.prefix, p.leftShift, p.rightShift, p.hostBits;
    var m, q := Low(n, r), Shr(n, r);
    Parts(n, r);
    ShlFits(n, r + l, h);
    var shifted := n * Pow2(h);
    LeftPart(n, r, l, h);
    RightPart(n, r, l, h);
    AndLow(Shl(shifted, l), s);
    LowShl(shifted, l, s);
    AndShifted(Shr(shifted, r), Pow2(l) - 1, h);
    AndLow(Shr(Shr(shifted, r), h), l);
    JoinParts(p.ip, m, q, r, l, h);
  }

  /** ip is an aligned address of p's network for subnet number k in the order of addresses. */
  function Aligned(p: Plan, k: nat): nat
  {
    p.ip + k * Pow2(p.hostBits)
  }

  predicate Valid(p: Plan)
  {
    p.prefix + p.hostBits <= 32 && IsNetwork(p.ip, p.prefix) && p == PlanFor(p.ip, p.prefix, p.hostBits)
  }

  /** The shifts and masks compute the Number(n)-th aligned address of the network. */
  lemma AddressIsAligned(p: Plan, n: nat)
    requires Valid(p) && n < Pow2(p.SubnetBits())
    ensures Address(p, n) == Aligned(p, Number(p, n)) && Number(p, n) < Pow2(p.SubnetBits())
  {
    hide Pow2, Low, Shr, Shl, And, Or, Rotated;
    var h, l, r := p.hostBits, p.leftShift, p.rightShift;
    if Rotated(p.prefix, h) {
      Masks(p);
      AddressRotated(p, n);
      TimesPow(Low(n, r), l, h);
      Distribute(Low(n, r) * Pow2(l), Shr(n, r), Pow2(h));
      HighPart(n, r, l);
      Fits(Low(n, r), r, l);
    } else {
      AddressStraight(p, n);
      NumberStraight(p, n);
    }
  }

  lemma NumberStraight(p: Plan, n: nat)
    requires p.leftShift == 0 && p.rightShift == 0
    ensures Number(p, n) == n
  {
  }

  lemma AddressStraight(p: Plan, n: nat)
    requires Valid(p) && !Rotated(p.prefix, p.hostBits) && n < Pow2(p.SubnetBits())
    ensures Address(p, n) == p.ip + n * Pow2(p.hostBits)
  {
    hide Pow2, Shl, Shr, Low, And, Or, Rotated;
    var h, s := p.hostBits, 32 - p.prefix;
    ShlFits(n, s - h, h);
    Fits(n, s - h, h);
    Straight(p.ip, Shl(n, h), s);
  }

  lemma Straight(ip: nat, x: nat, s: nat)
    requires Low(ip, s) == 0 && x < Pow2(s) && s <= 32
    ensures Or(Or(ip, And(Shl(x, 0), 0xFFFFFFFF)), And(Shr(x, 0), 0)) == ip + x
  {
    hide Pow2, Shl, Shr, Low, And, Or;
    NotShifted(x, s);
    Parts(ip, s);
    OrDisjoint(Shr(ip, s), x, s);
    OrZero(ip + x);
  }

  lemma NotShifted(a: nat, s: nat)
    requires a < Pow2(s) && s <= 32
    ensures And(Shl(a, 0), 0xFFFFFFFF) == a && And(Shr(a, 0), 0) == 0
  {
    hide Low, Shr;
    Grows(s, 32);
    Word();
    ShlFits(a, s, 0);
    assert a * Pow2(0) == a;
    AndLow(a, 32);
    LowSmall(a, 32) by { hide Pow2; }
    AndZero(Shr(a, 0));
  }

  lemma AndZero(a: nat)
    ensures And(a, 0) == 0
  {
  }

  /** The position of the k-th aligned address in the allocator's order. */
  function Position(p: Plan, k: nat): nat
  {
    Low(k, p.leftShift) * Pow2(p.rightShift) + Shr(k, p.leftShift)
  }

  lemma Swapped(n: nat, r: nat, l: nat)
    requires n < Pow2(r + l)
    ensures var k := Low(n, r) * Pow2(l) + Shr(n, r);
            k < Pow2(r + l) && Low(k, l) * Pow2(r) + Shr(k, l) == n
  {
    hide Pow2, Low, Shr;
    HighPart(n, r, l);
    PartsAre(Low(n, r), Shr(n, r), l);
    Fits(Low(n, r), r, l);
    Parts(n, r);
  }

  /** Number is one-to-one from the subnet numbers onto themselves, and Position is its inverse. */
  lemma RotationIsBijection(p: Plan, n: nat)
    requires Valid(p) && n < Pow2(p.SubnetBits())
    ensures Number(p, n) < Pow2(p.SubnetBits()) && Position(p, Number(p, n)) == n
    ensures Position(p, n) < Pow2(p.SubnetBits()) && Number(p, Position(p, n)) == n
  {
    hide Pow2, Low, Shr;
    if Rotated(p.prefix, p.hostBits) {
      Masks(p);
      Swapped(n, p.rightShift, p.leftShift);
      Swapped(n, p.leftShift, p.rightShift);
    } else {
      NumberStraight(p, n);
    }
  }

  /** In the words of the source: the first subnets have zeros in the octet that host and subnet share. */
  lemma RotatedAddress(p: Plan, n: nat)
    requires Valid(p) && Rotated(p.prefix, p.hostBits) && n < Pow2(p.SubnetBits())
    ensures Address(p, n) == p.ip + n % Pow2(p.rightShift) * Pow2(p.hostBits + p.leftShift)
                                  + n / Pow2(p.rightShift) * Pow2(p.hostBits)
    ensures (p.hostBits + p.leftShift) % 8 == 0
    ensures Low(Address(p, n), p.hostBits + p.leftShift) == 0 <==> n < Pow2(p.rightShift)
  {
    hide Pow2, Low, Shr, Shl, And, Or;
    var h, l, r := p.hostBits, p.leftShift, p.rightShift;
    Masks(p);
    AddressRotated(p, n);
    ShiftIsDivision(n, r);
    SharedOctet(p.ip, n, r, l, h);
    ShiftOfRotated(p);
  }

  lemma ShiftOfRotated(p: Plan)
    requires Valid(p) && Rotated(p.prefix, p.hostBits)
    ensures (p.hostBits + p.leftShift) % 8 == 0
  {
    hide Pow2, Low, Shl;
  }

  lemma SharedOctet(ip: nat, n: nat, r: nat, l: nat, h: nat)
    requires Low(ip, h + l + r) == 0 && n < Pow2(r + l)
    ensures Low(ip + Low(n, r) * Pow2(h + l) + Shr(n, r) * Pow2(h), h + l) == 0 <==> n < Pow2(r)
  {
    hide Pow2, Low, Shr;
    var b, k := Shr(ip, h + l + r), h + l;
    Parts(ip, h + l + r);
    TimesPow(b, r, k);
    Distribute(b * Pow2(r), Low(n, r), Pow2(k));
    HighPart(n, r, l);
    Fits(Shr(n, r), l, h);
    PartsAre(b * Pow2(r) + Low(n, r), Shr(n, r) * Pow2(h), k);
    Parts(n, r);
    if n < Pow2(r) {
      LowSmall(n, r);
    } else {
      Positive(Shr(n, r), h);
    }
  }

  lemma Positive(a: nat, k: nat)
    ensures a * Pow2(k) == 0 <==> a == 0
  {
  }

  // ---------------------------------------------------------------- the subnets of a network

  /** The subnet GetNetwork hands out under number n. */
  function At(p: Plan, n: nat): Subnet
  {
    Subnet(Address(p, n), 32 - p.hostBits)
  }

  /** How many subnets there are, as the 32-bit word 1 << SubnetBits: none when the shift is 32. */
  function Count(p: Plan): nat
    requires Valid(p)
  {
    Shl(1, p.SubnetBits())
  }

  lemma CountIs(p: Plan)
    requires Valid(p)
    ensures Count(p) == if p.SubnetBits() == 32 then 0 else Pow2(p.SubnetBits())
    ensures 2 * Count(p) <= WORD
  {
    hide Pow2, Low;
    var b := p.SubnetBits();
    Word();
    assert 1 * Pow2(b) == Pow2(b);
    if b < 32 {
      Grows(b + 1, 32);
      Doubled(b);
    }
  }

  predicate Overlap(s: Subnet, t: Subnet)
    requires s.length <= 32 && t.length <= 32
  {
    s.ip < t.ip + Pow2(32 - t.length) && t.ip < s.ip + Pow2(32 - s.length)
  }

  /** s is one of the subnets of the plan. */
  ghost predicate Planned(p: Plan, s: Subnet)
    requires Valid(p)
  {
    exists n :: 0 <= n < Count(p) && s == At(p, n)
  }

  /** net.IPNet.Contains. */
  predicate Contains(p: Plan, ip: nat)
    requires p.prefix <= 32
  {
    p.ip <= ip < p.ip + Pow2(32 - p.prefix)
  }

  /** Different numbers name different subnets that share no address and lie in the network. */
  lemma SubnetsDisjoint(p: Plan, n: nat, m: nat)
    requires Valid(p) && n < Count(p) && m < Count(p)
    ensures Overlap(At(p, n), At(p, m)) <==> n == m
    ensures Contains(p, At(p, n).ip) && At(p, n).ip + Pow2(p.hostBits) <= p.ip + Pow2(32 - p.prefix)
  {
    hide Pow2, Low, Shr, Address, Number, Position, Aligned, PlanFor;
    CountIs(p);
    var k, j := Number(p, n), Number(p, m);
    RotationIsBijection(p, n);
    RotationIsBijection(p, m);
    AddressIsAligned(p, n);
    AddressIsAligned(p, m);
    AlignedApart(p, k, j);
    AlignedApart(p, j, k);
    AlignedInside(p, k);
  }

  lemma AlignedApart(p: Plan, k: nat, j: nat)
    ensures k < j ==> Aligned(p, k) + Pow2(p.hostBits) <= Aligned(p, j)
  {
    Spaced(k, j, p.hostBits);
  }

  lemma AlignedInside(p: Plan, k: nat)
    requires Valid(p) && k < Pow2(p.SubnetBits())
    ensures p.ip <= Aligned(p, k) && Aligned(p, k) + Pow2(p.hostBits) <= p.ip + Pow2(32 - p.prefix)
  {
    hide PlanFor, IsNetwork, Pow2;
    Fits(k, 32 - p.prefix - p.hostBits, p.hostBits);
  }

  lemma Spaced(k: nat, j: nat, h: nat)
    ensures k < j ==> k * Pow2(h) + Pow2(h) <= j * Pow2(h)
  {
    if k < j {
      Below(k + 1, j, Pow2(h));
      assert (k + 1) * Pow2(h) == k * Pow2(h) + Pow2(h);
    }
  }

  /** Any aligned subnet of the network and of this length is one of the plan. */
  lemma AlignedIsPlanned(p: Plan, s: Subnet)
    requires Valid(p) && p.SubnetBits() < 32
    requires s.length == 32 - p.hostBits && Contains(p, s.ip) && Low(s.ip, p.hostBits) == 0
    ensures Planned(p, s)
  {
    hide Pow2, Low, Shr, Address, Number, Position;
    var h, b := p.hostBits, p.SubnetBits();
    CountIs(p);
    var k := Difference(p, s);
    RotationIsBijection(p, k);
    var n := Position(p, k);
    AddressIsAligned(p, n);
    assert s == At(p, n);
  }

  lemma Difference(p: Plan, s: Subnet) returns (k: nat)
    requires Valid(p) && Contains(p, s.ip) && Low(s.ip, p.hostBits) == 0
    ensures k < Pow2(p.SubnetBits()) && s.ip == Aligned(p, k)
  {
    hide Pow2, Low, Shr;
    var h, b := p.hostBits, p.SubnetBits();
    Parts(p.ip, 32 - p.prefix);
    Parts(s.ip, h);
    var q := Shr(p.ip, 32 - p.prefix);
    TimesPow(q, b, h);
    var c, d := Shr(s.ip, h), q * Pow2(b);
    if c < d {
      Spaced(c, d, h);
    }
    k := c - d;
    Distribute(d, k, Pow2(h));
    if Pow2(b) <= k {
      Below(Pow2(b), k, Pow2(h));
      Pow2Sum(b, h);
    }
  }

  // ---------------------------------------------------------------- the allocator

  /** The i-th number in cyclic order from next. */
  function Cyclic(count: nat, next: nat, i: nat): nat
    requires next <= count && i < count
  {
    if i + next < count then i + next else i + next - count
  }

  /** How far n is from next in that order. */
  function Offset(count: nat, next: nat, n: nat): nat
    requires next <= count && n < count
  {
    if next <= n then n - next else n + count - next
  }

  /** The expression of the source, on words of 32 bits. */
  function Candidate(count: nat, next: nat, i: nat): nat
    requires count > 0
  {
    (i + next) % WORD % count
  }

  lemma CandidateIsCyclic(count: nat, next: nat, i: nat)
    requires next <= count && i < count && 2 * count <= WORD
    ensures Candidate(count, next, i) == Cyclic(count, next, i)
  {
    assert i + next < WORD;
    Divided(i + next, count, if i + next < count then 0 else 1, Cyclic(count, next, i));
  }

  /** The first free number from the i-th on, in cyclic order from next. */
  function FirstFree(p: Plan, taken: set<Subnet>, next: nat, i: nat): (r: Option<nat>)
    requires Valid(p) && next <= Count(p)
    ensures r.Some? ==> r.value < Count(p) && At(p, r.value) !in taken
    decreases Count(p) - i
  {
    if i >= Count(p) then None
    else
      var n := Cyclic(Count(p), next, i);
      if At(p, n) !in taken then Some(n) else FirstFree(p, taken, next, i + 1)
  }

  /** It is found if there is a free number m, and no free number is nearer. */
  lemma {:induction false} FirstFreeIsFirst(p: Plan, taken: set<Subnet>, next: nat, i: nat, m: nat)
    requires Valid(p) && next <= Count(p) && m < Count(p) && At(p, m) !in taken && i <= Offset(Count(p), next, m)
    ensures FirstFree(p, taken, next, i).Some?
    ensures Offset(Count(p), next, FirstFree(p, taken, next, i).value) <= Offset(Count(p), next, m)
    decreases Count(p) - i
  {
    hide At, Valid, Count;
    if At(p, Cyclic(Count(p), next, i)) !in taken {
    } else {
      FirstFreeIsFirst(p, taken, next, i + 1, m);
    }
  }

  /** GetNetwork fails only when all subnets are taken. */
  lemma FailsOnlyWhenFull(p: Plan, taken: set<Subnet>, next: nat)
    requires Valid(p) && next <= Count(p)
    ensures FirstFree(p, taken, next, 0).None? <==> forall n :: 0 <= n < Count(p) ==> At(p, n) in taken
  {
    hide At, Valid, Count;
    if n :| 0 <= n < Count(p) && At(p, n) !in taken {
      FirstFreeIsFirst(p, taken, next, 0, n);
    }
  }

  lemma PlannedApart(p: Plan, s: Subnet, t: Subnet)
    requires Valid(p) && Planned(p, s) && Planned(p, t)
    ensures s.length == t.length == 32 - p.hostBits && p.hostBits <= 32
    ensures Overlap(s, t) <==> s == t
  {
    hide Count, Address, Overlap, Contains, PlanFor, IsNetwork;
    var n :| 0 <= n < Count(p) && s == At(p, n);
    var m :| 0 <= m < Count(p) && t == At(p, m);
    SubnetsDisjoint(p, n, m);
    SubnetsDisjoint(p, n, n);
  }

  /** What GetNetwork hands out overlaps no subnet in use of the same length. */
  lemma HandedOutIsDisjoint(p: Plan, taken: set<Subnet>, next: nat, s: Subnet)
    requires Valid(p) && next <= Count(p) && FirstFree(p, taken, next, 0).Some?
    requires s in taken && s.length == 32 - p.hostBits && Contains(p, s.ip) && Low(s.ip, p.hostBits) == 0
    ensures !Overlap(At(p, FirstFree(p, taken, next, 0).value), s)
  {
    hide FirstFree, Overlap, Contains, PlanFor, IsNetwork, Address, Low;
    CountIs(p);
    var n := FirstFree(p, taken, next, 0).value;
    AlignedIsPlanned(p, s);
    assert Planned(p, At(p, n));
    PlannedApart(p, At(p, n), s);
  }

  // ---------------------------------------------------------------- runs of the allocator

  datatype Call = Get | Release(s: Subnet)

  /** The allocator's state with the taken subnets told apart: those in use at the start and not
      released since, and those handed out and not released since. */
  datatype Books = Books(inUse: set<Subnet>, out: set<Subnet>, next: nat)
  {
    function Taken(): set<Subnet>
    {
      inUse + out
    }
  }

  function Called(p: Plan, b: Books, c: Call): (d: Books)
    requires Valid(p) && b.next <= Count(p)
    ensures d.next <= Count(p)
  {
    match c
    case Get =>
      (match FirstFree(p, b.Taken(), b.next, 0)
       case None => b.(next := 0)
       case Some(n) => b.(out := b.out + {At(p, n)}, next := n + 1))
    case Release(s) =>
      if Contains(p, s.ip) then b.(inUse := b.inUse - {s}, out := b.out - {s}) else b
  }

  function CalledAll(p: Plan, b: Books, cs: seq<Call>): Books
    requires Valid(p) && b.next <= Count(p)
    decreases |cs|
  {
    if cs == [] then b else CalledAll(p, Called(p, b, cs[0]), cs[1..])
  }

  /** What every call keeps. */
  ghost predicate Sound(p: Plan, b: Books)
  {
    && Valid(p) && b.next <= Count(p)
    && b.inUse !! b.out
    && (forall s :: s in b.inUse ==> Contains(p, s.ip))
    && (forall s :: s in b.out ==> Planned(p, s))
  }

  lemma CallKeepsSound(p: Plan, b: Books, c: Call)
    requires Sound(p, b)
    ensures Sound(p, Called(p, b, c))
  {
    hide FirstFree, Contains, Valid, Count, At;
    if c.Get? && FirstFree(p, b.Taken(), b.next, 0).Some? {
      assert Planned(p, At(p, FirstFree(p, b.Taken(), b.next, 0).value));
    }
  }

  lemma {:induction false} RunKeepsSound(p: Plan, b: Books, cs: seq<Call>)
    requires Sound(p, b)
    ensures Sound(p, CalledAll(p, b, cs))
    ensures forall s :: s in CalledAll(p, b, cs).inUse <==> s in b.inUse && Release(s) !in cs
    decreases |cs|
  {
    hide Called, Valid, Count, Contains, Planned;
    if cs == [] {
    } else {
      var d := Called(p, b, cs[0]);
      CallKeepsSound(p, b, cs[0]);
      InUseUntilReleased(p, b, cs[0]);
      RunKeepsSound(p, d, cs[1..]);
      assert cs == [cs[0]] + cs[1..];
    }
  }

  lemma InUseUntilReleased(p: Plan, b: Books, c: Call)
    requires Sound(p, b)
    ensures forall s :: s in Called(p, b, c).inUse <==> s in b.inUse && c != Release(s)
  {
    hide FirstFree, Contains, Valid, Count, At, Planned;
  }

  /** s lies in the network. */
  predicate Inside(p: Plan, s: Subnet)
    requires p.prefix <= 32 && p.hostBits <= 32
  {
    s.length == 32 - p.hostBits && Contains(p, s.ip) && s.ip + Pow2(p.hostBits) <= p.ip + Pow2(32 - p.prefix)
  }

  /** An aligned subnet of the length that is handed out. */
  predicate Alike(p: Plan, s: Subnet)
    requires p.hostBits <= 32
  {
    s.length == 32 - p.hostBits && Low(s.ip, p.hostBits) == 0
  }

  /**
    From any subnets in use at the start, after any calls: the subnets handed out and not released lie in the
    network, no two of them share an address, and none shares one with an aligned subnet of the same
    length that was in use at the start and not released.
   */
  lemma OutstandingStayApart(p: Plan, inUse: set<Subnet>, cs: seq<Call>)
    requires Valid(p) && forall s :: s in inUse ==> Contains(p, s.ip)
    ensures p.hostBits <= 32
    ensures var b := CalledAll(p, Books(inUse, {}, 0), cs);
            && (forall s :: s in b.out ==> Inside(p, s))
            && (forall s, t :: s in b.out && t in b.out && s != t ==> !Overlap(s, t))
            && (forall s, t | s in b.out && t in inUse && Release(t) !in cs && Alike(p, t) :: !Overlap(s, t))
  {
    hide Called, CalledAll, Count, Overlap, Inside, At, PlanFor, Low, FirstFree;
    var b := CalledAll(p, Books(inUse, {}, 0), cs);
    RunKeepsSound(p, Books(inUse, {}, 0), cs);
    forall s | s in b.out
      ensures Inside(p, s)
    {
      PlannedLiesInside(p, s);
    }
    forall s, t | s in b.out && t in b.out && s != t
      ensures s.length == t.length == 32 - p.hostBits && !Overlap(s, t)
    {
      PlannedApart(p, s, t);
    }
    forall s, t | s in b.out && t in inUse && Release(t) !in cs && Alike(p, t)
      ensures s.length == t.length == 32 - p.hostBits && !Overlap(s, t)
    {
      assert t in b.inUse;
      SomePlanned(p, s);
      AlignedIsPlanned(p, t);
      PlannedApart(p, s, t);
    }
  }

  lemma PlannedLiesInside(p: Plan, s: Subnet)
    requires Valid(p) && Planned(p, s)
    ensures p.hostBits <= 32 && Inside(p, s)
  {
    hide Count, Address, PlanFor, IsNetwork;
    var n :| 0 <= n < Count(p) && s == At(p, n);
    SubnetsDisjoint(p, n, n);
  }

  /** Where there is a subnet at all, the 32-bit count has not become 0. */
  lemma SomePlanned(p: Plan, s: Subnet)
    requires Valid(p) && Planned(p, s)
    ensures p.SubnetBits() < 32
  {
    hide Address, PlanFor, IsNetwork;
    CountIs(p);
  }

  /** An aligned subnet of the network and of this length, if the 32-bit count of them has not become 0. */
  predicate Own(p: Plan, s: Subnet)
    requires Valid(p)
  {
    p.SubnetBits() < 32 && Contains(p, s.ip) && Alike(p, s)
  }

  /** Exactly these are the plan's subnets. */
  lemma PlannedExactly(p: Plan, s: Subnet)
    requires Valid(p)
    ensures Planned(p, s) <==> Own(p, s)
  {
    hide Count, Address, PlanFor, Low, Number;
    if Planned(p, s) {
      SomePlanned(p, s);
      PlannedLiesInside(p, s);
      var n :| 0 <= n < Count(p) && s == At(p, n);
      CountIs(p);
      AddressIsAligned(p, n);
      AlignedLow(p, Number(p, n));
    } else if Own(p, s) {
      AlignedIsPlanned(p, s);
    }
  }

  lemma AlignedLow(p: Plan, k: nat)
    requires Valid(p)
    ensures Low(Aligned(p, k), p.hostBits) == 0
  {
    hide Low, Shr, PlanFor;
    var h, b := p.hostBits, p.SubnetBits();
    var q := Shr(p.ip, 32 - p.prefix);
    Parts(p.ip, 32 - p.prefix);
    TimesPow(q, b, h);
    Distribute(q * Pow2(b), k, Pow2(h));
    Power(h);
    PartsAre(q * Pow2(b) + k, 0, h);
  }

  lemma Power(h: nat)
    ensures Pow2(h) > 0
  {
  }

  class SubnetAllocator {
    const plan: Plan
    var next: nat
    var allocMap: map<Subnet, bool>

    ghost predicate Ready()
      reads this
    {
      Valid(plan) && next <= Count(plan)
    }

    function Taken(): set<Subnet>
      reads this
    {
      set s | s in allocMap && allocMap[s]
    }

    constructor (plan: Plan, allocMap: map<Subnet, bool>)
      requires Valid(plan)
      ensures Ready() && this.plan == plan && next == 0 && this.allocMap == allocMap
    {
      this.plan := plan;
      this.next := 0;
      this.allocMap := allocMap;
    }

    method GetNetwork() returns (r: Option<Subnet>)
      requires Ready()
      modifies this
      ensures Ready()
      ensures var f := FirstFree(plan, old(Taken()), old(next), 0);
              if f.Some? then
                r == Some(At(plan, f.value)) && next == f.value + 1 && Taken() == old(Taken()) + {At(plan, f.value)}
              else r == None && next == 0 && Taken() == old(Taken())
      ensures forall b: Books :: b.Taken() == old(Taken()) && b.next == old(next) ==>
                Called(plan, b, Get).Taken() == Taken() && Called(plan, b, Get).next == next
    {
      hide PlanFor, IsNetwork, Shl, At, Candidate;
      var count := Shl(1, plan.SubnetBits());
      CountIs(plan);
      var i := 0;
      while i < count
        invariant 0 <= i <= count && count == Count(plan)
        invariant next == old(next) && allocMap == old(allocMap)
        invariant FirstFree(plan, Taken(), next, 0) == FirstFree(plan, Taken(), next, i)
      {
        CandidateIsCyclic(count, next, i);
        var n := Candidate(count, next, i);
        var s := At(plan, n);
        if s !in allocMap || !allocMap[s] {
          allocMap := allocMap[s := true];
          next := n + 1;
          return Some(s);
        }
        i := i + 1;
      }
      next := 0;
      r := None;
    }

    method ReleaseNetwork(s: Subnet) returns (ok: bool)
      requires Ready()
      modifies this
      ensures Ready() && next == old(next)
      ensures ok == (Contains(plan, s.ip) && s in old(Taken()))
      ensures Taken() == if ok then old(Taken()) - {s} else old(Taken())
      ensures forall b: Books :: b.Taken() == old(Taken()) && b.next == old(next) ==>
                Called(plan, b, Release(s)).Taken() == Taken() && Called(plan, b, Release(s)).next == next
    {
      if !Contains(plan, s.ip) {
        return false;
      }
      if s !in allocMap || !allocMap[s] {
        return false;
      }
      allocMap := allocMap[s := false];
      ok := true;
    }
  }

  /** inUse: what net.ParseCIDR makes of each entry, None if it cannot be parsed. */
  method NewSubnetAllocator(ip: nat, prefix: nat, hostBits: nat, inUse: seq<Option<Subnet>>) returns (r: Option<SubnetAllocator>)
    requires IsNetwork(ip, prefix)
    ensures r.Some? <==> hostBits <= 32 - prefix
    ensures r.Some? ==> fresh(r.value) && r.value.Ready() && r.value.next == 0
    ensures r.Some? ==> r.value.plan == PlanFor(ip, prefix, hostBits)
    ensures r.Some? ==> forall s :: s in r.value.Taken() <==> Some(s) in inUse && Contains(r.value.plan, s.ip)
  {
    if hostBits > 32 - prefix {
      return None;
    }
    var plan := PlanFor(ip, prefix, hostBits);
    var amap: map<Subnet, bool> := map[];
    var k := 0;
    while k < |inUse|
      invariant 0 <= k <= |inUse|
      invariant forall s :: s in amap <==> Some(s) in inUse[..k] && Contains(plan, s.ip)
      invariant forall s :: s in amap ==> amap[s]
    {
      if inUse[k].Some? && Contains(plan, inUse[k].value.ip) {
        amap := amap[inUse[k].value := true];
      }
      k := k + 1;
    }
    assert inUse[..k] == inUse;
    var a := new SubnetAllocator(plan, amap);
    r := Some(a);
  }
}
