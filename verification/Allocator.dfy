/**
 The effective-address allocator: reservations, and hash-plus-probe leases in 32-bit arithmetic. SHA-256 is an
 arbitrary function from keys to 32-bit numbers.
 */
module Allocator {
  import opened Bytes
  import opened Sorting
  import opened Wrappers

  type Hash = string -> U32

  /** An IPv4 prefix as configured; the host bits of `addr` need not be zero. */
  datatype Prefix = Prefix(addr: U32, bits: nat)

  function Pow2(n: nat): nat {
    if n == 0 then 1 else 2 * Pow2(n - 1)
  }

  /** The number of addresses of a prefix, as an integer. */
  function Size(p: Prefix): (n: nat)
    requires p.bits <= 32
    ensures n > 0
  {
    PowPositive(32 - p.bits);
    Pow2(32 - p.bits)
  }

  lemma DivMod(a: nat, n: nat)
    requires n > 0
    ensures 0 <= a % n <= a && a - a % n == (a / n) * n && a / n >= 0
  {
  }

  /** The network address of the prefix. */
  function Base(p: Prefix): U32
    requires p.bits <= 32
  {
    DivMod(p.addr, Size(p));
    p.addr - p.addr % Size(p)
  }

  predicate Contains(p: Prefix, ip: U32)
    requires p.bits <= 32
  {
    Base(p) <= ip < Base(p) + Size(p)
  }

  lemma {:induction false} PowPositive(n: nat)
    ensures Pow2(n) > 0
  {
    if n > 0 {
      PowPositive(n - 1);
    }
  }

  /** Powers of two divide the larger ones. */
  lemma {:induction false} PowDivides(m: nat, n: nat)
    requires m <= n
    ensures Pow2(n) == Pow2(m) * Pow2(n - m)
  {
    if n > m {
      PowDivides(m, n - 1);
      assert Pow2(n) == 2 * (Pow2(m) * Pow2(n - 1 - m));
    }
  }

  lemma Pow32()
    ensures Pow2(32) == U32_LIMIT
  {
    assert Pow2(8) == 0x100;
    PowDivides(8, 16);
    PowDivides(16, 32);
  }

  /** The pool ends inside the 32-bit address space. */
  lemma PoolFits(p: Prefix)
    requires p.bits <= 32
    ensures Base(p) + Size(p) <= U32_LIMIT
  {
    hide Pow2;
    var size, rest, q := Pow2(32 - p.bits), Pow2(p.bits), p.addr / Size(p);
    Pow32();
    PowDivides(32 - p.bits, 32);
    PowPositive(32 - p.bits);
    DivMod(p.addr, size);
    QuotientBound(p.addr, size, rest);
    MulMonotone(q + 1, rest, size);
    Distribute(q, size);
  }

  lemma QuotientBound(a: nat, n: nat, m: nat)
    requires n > 0 && a < n * m
    ensures a / n < m
  {
  }

  lemma Distribute(q: nat, c: nat)
    ensures (q + 1) * c == q * c + c
  {
  }

  lemma SizeBounds(p: Prefix)
    requires p.bits <= 30
    ensures if p.bits == 0 then Size(p) == U32_LIMIT else 4 <= Size(p) <= 0x8000_0000
  {
    hide Pow2;
    Pow32();
    if p.bits >= 1 {
      PowDivides(32 - p.bits, 31);
      PowPositive(p.bits - 1);
      MulMonotone(1, Pow2(p.bits - 1), Size(p));
      PowDivides(31, 32);
      PowDivides(2, 32 - p.bits);
      PowPositive(30 - p.bits);
      MulMonotone(1, Pow2(30 - p.bits), 4);
      SmallPowers();
    }
  }

  /** The base is the aligned address at or below the configured one; an aligned block of the pool's size. */
  lemma BaseIsNetwork(p: Prefix)
    requires p.bits <= 32
    ensures Size(p) * Pow2(p.bits) == 0x1_0000_0000
    ensures Base(p) <= p.addr < Base(p) + Size(p) <= 0x1_0000_0000
    ensures exists q: nat {:trigger q * Size(p)} :: Base(p) == q * Size(p)
  {
    hide Pow2;
    Pow32();
    PowDivides(32 - p.bits, 32);
    PoolFits(p);
    DivMod(p.addr, Size(p));
    var q: nat := p.addr / Size(p);
    assert Base(p) == q * Size(p);
  }

  lemma SmallPowers()
    ensures Pow2(1) == 2 && Pow2(2) == 4
  {
  }

  lemma MulMonotone(a: nat, b: nat, c: nat)
    requires a <= b
    ensures a * c <= b * c
  {
  }

  // ---------------------------------------------------------------- specification

  datatype Pool = Pool(prefix: Prefix, leases: map<string, Addr>, used: map<Addr, string>)

  predicate ValidPrefix(p: Prefix) {
    p.bits <= 30
  }

  /** `New`; /31 and /32 are refused. */
  function NewPool(p: Prefix): Option<Pool> {
    if ValidPrefix(p) then Some(Pool(p, map[], map[])) else None
  }

  /** The first address after the network address is the host's NAT address, the second the DNS address. */
  predicate Reservable(p: Prefix, ip: Addr)
    requires ValidPrefix(p)
  {
    Contains(p, AddrNum(ip)) && AddrNum(ip) != Base(p) + 1 && AddrNum(ip) != Base(p) + 2
  }

  /** `Reserve`; None is its error return. */
  function Reserving(s: Pool, key: string, ip: Addr): Option<Pool>
    requires ValidPrefix(s.prefix)
  {
    if !Reservable(s.prefix, ip) then None
    else if ip in s.used && s.used[ip] != key then None
    else Some(s.(used := s.used[ip := key], leases := s.leases[key := ip]))
  }

  /**
   A reservation is refused for the NAT address, the DNS address, every address outside the pool and every address
   that another key uses, and for nothing else; an accepted one records the key and the address.
   */
  lemma ReserveRefusesExactly(s: Pool, key: string, n: U32)
    requires ValidPrefix(s.prefix)
    ensures Reserving(s, key, NumAddr(n)) == None <==>
              || n < Base(s.prefix) || n == Base(s.prefix) + 1 || n == Base(s.prefix) + 2
              || n >= Base(s.prefix) + Size(s.prefix)
              || (NumAddr(n) in s.used && s.used[NumAddr(n)] != key)
    ensures var r := Reserving(s, key, NumAddr(n));
            r.Some? ==> r.value == Pool(s.prefix, s.leases[key := NumAddr(n)], s.used[NumAddr(n) := key])
  {
    hide Base, Size;
    NumAddrRoundTrip(n);
  }

  /** The pool's size as a 32-bit number: it wraps to zero for a /0. */
  function Total(p: Prefix): U32
    requires ValidPrefix(p)
  {
    Size(p) % U32_LIMIT
  }

  /** The i-th probed address of a pool of `total` addresses, every step truncated to 32 bits. */
  function Probe(base: U32, total: U32, h: U32, i: U32): U32
    requires total > 3
  {
    var cap := total - 3;
    var slot := (h % cap + 3) % U32_LIMIT;
    var offset := ((slot - 3) % U32_LIMIT + i) % U32_LIMIT % cap;
    ((base + 3) % U32_LIMIT + offset) % U32_LIMIT
  }

  function ProbeNum(p: Prefix, h: U32, i: U32): U32
    requires ValidPrefix(p) && Total(p) > 3
  {
    Probe(Base(p), Total(p), h, i)
  }

  /** The first unused probe from the i-th on. */
  function FirstFree(s: Pool, h: U32, i: nat): Option<Addr>
    requires ValidPrefix(s.prefix) && Total(s.prefix) > 3 && i <= Total(s.prefix) - 3
    decreases Total(s.prefix) - i
  {
    if i == Total(s.prefix) - 3 then None
    else
      var ip := NumAddr(ProbeNum(s.prefix, h, i));
      if ip in s.used then FirstFree(s, h, i + 1) else Some(ip)
  }

  /** `lease`: the state is unchanged when the pool is exhausted. */
  function LeaseOne(s: Pool, key: string, hash: Hash): (Pool, Option<Addr>)
    requires ValidPrefix(s.prefix)
  {
    if key in s.leases then (s, Some(s.leases[key]))
    else if Total(s.prefix) <= 3 then (s, None)
    else
      match FirstFree(s, hash(key), 0)
      case None => (s, None)
      case Some(ip) => (s.(used := s.used[ip := key], leases := s.leases[key := ip]), Some(ip))
  }

  /** The loop of `Allocate` over the sorted keys; it stops at the first failure. */
  function LeaseAll(s: Pool, keys: seq<string>, hash: Hash): (r: (Pool, bool))
    requires ValidPrefix(s.prefix)
    decreases |keys|
  {
    if |keys| == 0 then (s, true)
    else
      var (s2, ip) := LeaseOne(s, keys[0], hash);
      if ip == None then (s2, false) else LeaseAll(s2, keys[1..], hash)
  }

  // ---------------------------------------------------------------- probing

  /** i steps from h's slot among cap slots in a circle. */
  function Circular(h: U32, i: nat, cap: int): int
    requires cap > 0
  {
    (h % cap + i) % cap
  }

  /** No 32-bit step wraps for prefix lengths 1 to 30. */
  lemma ProbeExact(p: Prefix, h: U32, i: nat)
    requires 1 <= p.bits <= 30 && i < Size(p) - 3
    ensures Total(p) == Size(p) > 3
    ensures ProbeNum(p, h, i) == Base(p) + 3 + Circular(h, i, Size(p) - 3)
    ensures Base(p) + 3 <= ProbeNum(p, h, i) < Base(p) + Size(p)
  {
    hide Pow2, Size, Base, Probe, Circular;
    PoolFits(p);
    SizeBounds(p);
    var base, size := Base(p), Size(p);
    SmallMod(size, U32_LIMIT);
    ProbeArithmetic(base, size, h, i);
  }

  lemma ProbeArithmetic(base: U32, size: nat, h: U32, i: nat)
    requires base + size <= U32_LIMIT && 4 <= size <= 0x8000_0000 && i < size - 3
    ensures size % U32_LIMIT == size
    ensures Probe(base, size, h, i) == base + 3 + Circular(h, i, size - 3)
    ensures base + 3 <= Probe(base, size, h, i) < base + size
  {
    var cap := size - 3;
    ModBound(h, cap);
    var r: nat := h % cap;
    ModAdd(r, i, cap);
    SmallMod(size, U32_LIMIT);
    assert Circular(h, i, cap) == (r + i) % cap;
    hide Circular;
    ProbeSteps(base, cap, r, i);
  }

  lemma ModBound(x: nat, m: nat)
    requires m > 0
    ensures 0 <= x % m < m
  {
  }

  /** Each truncation to 32 bits is of a number below the limit. */
  lemma ProbeSteps(base: U32, cap: nat, r: nat, i: nat)
    requires base + 3 + cap <= U32_LIMIT && 0 < cap <= 0x7fff_fffd && r < cap && i < cap
    ensures (r + 3) % U32_LIMIT == r + 3 && r % U32_LIMIT == r && (r + i) % U32_LIMIT == r + i
    ensures ((base + 3) % U32_LIMIT + (r + i) % cap) % U32_LIMIT == base + 3 + (r + i) % cap
    ensures 0 <= (r + i) % cap < cap
  {
    ModBound(r + i, cap);
    SmallMod(base + 3, U32_LIMIT);
    SmallMod(r + 3, U32_LIMIT);
    SmallMod(r, U32_LIMIT);
    SmallMod(r + i, U32_LIMIT);
    SmallMod(base + 3 + (r + i) % cap, U32_LIMIT);
  }

  lemma SmallMod(x: nat, m: nat)
    requires x < m
    ensures x % m == x
  {
  }

  lemma ModAdd(r: nat, i: nat, cap: nat)
    requires r < cap && i < cap
    ensures (r + i) % cap == if r + i < cap then r + i else r + i - cap
  {
  }

  /** Every address of the pool from base+3 on is probed. */
  lemma ProbesEverything(p: Prefix, h: U32, v: U32) returns (i: U32)
    requires 1 <= p.bits <= 30 && Base(p) + 3 <= v < Base(p) + Size(p)
    ensures Total(p) == Size(p) > 3
    ensures i < Size(p) - 3 && ProbeNum(p, h, i) == v
  {
    hide Pow2, Size, Base, ProbeNum;
    var cap := Size(p) - 3;
    var r, target := h % cap, v - Base(p) - 3;
    SizeBounds(p);
    i := if target >= r then target - r else target - r + cap;
    ModAdd(r, i, cap);
    ProbeExact(p, h, i);
  }

  /** The addresses a new lease may get. */
  ghost function FreeSet(s: Pool): set<int>
    requires ValidPrefix(s.prefix)
  {
    set v | Base(s.prefix) + 3 <= v < Base(s.prefix) + Size(s.prefix) && IsFree(s, v)
  }

  ghost predicate IsFree(s: Pool, v: int) {
    0 <= v < U32_LIMIT && NumAddr(v) !in s.used
  }

  lemma {:induction false} FirstFreeIsFree(s: Pool, h: U32, i: nat)
    requires 1 <= s.prefix.bits <= 30 && i <= Size(s.prefix) - 3 && Total(s.prefix) == Size(s.prefix) > 3
    ensures FirstFree(s, h, i).Some? ==> AddrNum(FirstFree(s, h, i).value) in FreeSet(s)
    ensures FirstFree(s, h, i) == None ==>
              forall j :: i <= j < Size(s.prefix) - 3 ==> NumAddr(ProbeNum(s.prefix, h, j)) in s.used
    decreases Size(s.prefix) - i
  {
    hide Pow2, Size, Base, ProbeNum;
    if i < Size(s.prefix) - 3 {
      ProbeExact(s.prefix, h, i);
      var n := ProbeNum(s.prefix, h, i);
      PoolFits(s.prefix);
      NumAddrRoundTrip(n);
      FirstFreeIsFree(s, h, i + 1);
    }
  }

  /** A new key gets a free address, and fails only when every address from base+3 to the pool's end is used. */
  lemma LeaseFailsIffFull(s: Pool, key: string, hash: Hash)
    requires ValidPrefix(s.prefix) && key !in s.leases
    ensures s.prefix.bits >= 1 ==> (LeaseOne(s, key, hash).1 == None <==> FreeSet(s) == {})
    ensures s.prefix.bits == 0 ==> LeaseOne(s, key, hash).1 == None
    ensures LeaseOne(s, key, hash).1.Some? ==> AddrNum(LeaseOne(s, key, hash).1.value) in FreeSet(s)
  {
    hide Pow2, Size, Base, ProbeNum;
    SizeBounds(s.prefix);
    if s.prefix.bits >= 1 {
      FirstFreeIsFree(s, hash(key), 0);
      if FreeSet(s) != {} {
        var v :| v in FreeSet(s);
        PoolFits(s.prefix);
        var i := ProbesEverything(s.prefix, hash(key), v);
      }
    }
  }

  /** The address `j` steps after the hash slot, circularly, among those from base+3 to the pool's end. */
  function Slot(p: Prefix, h: U32, j: nat): int
    requires 1 <= p.bits <= 30 && Size(p) > 3
  {
    Base(p) + 3 + Circular(h, j, Size(p) - 3)
  }

  /**
   A new key gets the first free address in circular order from its hash slot, so a key whose slot is free keeps
   the same address whenever the state is recreated.
   */
  lemma {:induction false} LeaseIsFirstFromSlot(s: Pool, key: string, hash: Hash) returns (i: nat)
    requires 1 <= s.prefix.bits <= 30 && key !in s.leases && LeaseOne(s, key, hash).1.Some?
    ensures 3 < Size(s.prefix) && i < Size(s.prefix) - 3
    ensures AddrNum(LeaseOne(s, key, hash).1.value) == Slot(s.prefix, hash(key), i)
    ensures forall j :: 0 <= j < i ==> !IsFree(s, Slot(s.prefix, hash(key), j))
  {
    hide Pow2, Size, Base, Probe, AddrNum, NumAddr, FirstFree, IsFree, Slot;
    SizeBounds(s.prefix);
    var h := hash(key);
    ProbeExact(s.prefix, h, 0);
    i := FirstFreeAt(s, h, 0);
    SlotIsProbe(s, h, i);
    forall j | 0 <= j < i ensures !IsFree(s, Slot(s.prefix, h, j)) {
      SlotIsProbe(s, h, j);
    }
  }

  lemma SlotIsProbe(s: Pool, h: U32, j: nat)
    requires 1 <= s.prefix.bits <= 30 && Size(s.prefix) > 3 && j < Size(s.prefix) - 3
            && Total(s.prefix) == Size(s.prefix)
    ensures AddrNum(NumAddr(ProbeNum(s.prefix, h, j))) == Slot(s.prefix, h, j)
    ensures IsFree(s, Slot(s.prefix, h, j)) <==> NumAddr(ProbeNum(s.prefix, h, j)) !in s.used
  {
    hide Pow2, Size, Base, Probe, AddrNum, NumAddr;
    ProbeExact(s.prefix, h, j);
    NumAddrRoundTrip(ProbeNum(s.prefix, h, j));
  }

  lemma {:induction false} FirstFreeAt(s: Pool, h: U32, from: nat) returns (i: nat)
    requires ValidPrefix(s.prefix) && Total(s.prefix) > 3 && from <= Total(s.prefix) - 3
    requires FirstFree(s, h, from).Some?
    ensures from <= i < Total(s.prefix) - 3 && FirstFree(s, h, from).value == NumAddr(ProbeNum(s.prefix, h, i))
    ensures forall j :: from <= j < i ==> NumAddr(ProbeNum(s.prefix, h, j)) in s.used
    decreases Total(s.prefix) - from
  {
    hide Total, ProbeNum, NumAddr;
    if NumAddr(ProbeNum(s.prefix, h, from)) in s.used {
      i := FirstFreeAt(s, h, from + 1);
    } else {
      i := from;
    }
  }

  // ---------------------------------------------------------------- the invariant of the two maps

  /** Leases are recorded as used by their own key, so no two keys share an address. */
  ghost predicate Consistent(s: Pool) {
    forall k :: k in s.leases ==> s.leases[k] in s.used && s.used[s.leases[k]] == k
  }

  lemma ConsistentIsInjective(s: Pool)
    requires Consistent(s)
    ensures forall k, l :: k in s.leases && l in s.leases && s.leases[k] == s.leases[l] ==> k == l
  {
  }

  lemma ReserveKeepsConsistent(s: Pool, key: string, ip: Addr)
    requires ValidPrefix(s.prefix) && Consistent(s) && Reserving(s, key, ip).Some?
    ensures Consistent(Reserving(s, key, ip).value)
  {
    hide Reservable;
  }

  /** Reserve itself would take the network address, which probing never leases, into any pool that has it free. */
  lemma NetworkAddressReservable(s: Pool, key: string)
    requires ValidPrefix(s.prefix)
    ensures !(Base(s.prefix) + 3 <= AddrNum(NumAddr(Base(s.prefix))))
    ensures Reserving(s, key, NumAddr(Base(s.prefix))).Some? <==>
              NumAddr(Base(s.prefix)) !in s.used || s.used[NumAddr(Base(s.prefix))] == key
  {
    hide Size, Base, NumAddr, AddrNum;
    NumAddrRoundTrip(Base(s.prefix));
  }

  /** Leasing keeps every earlier lease, uses one free address for a new key, and never one below base+3. */
  lemma {:induction false} LeaseEffect(s: Pool, key: string, hash: Hash)
    requires ValidPrefix(s.prefix) && Consistent(s)
    ensures var (s2, ip) := LeaseOne(s, key, hash);
            && Consistent(s2) && s2.prefix == s.prefix
            && (forall k :: k in s.leases ==> k in s2.leases && s2.leases[k] == s.leases[k])
            && (ip.Some? ==> key in s2.leases && s2.leases[key] == ip.value && s2.leases.Keys == s.leases.Keys + {key})
            && (ip == None ==> s2 == s)
            && (ip.Some? && key !in s.leases ==>
                  Base(s.prefix) + 3 <= AddrNum(ip.value) < Base(s.prefix) + Size(s.prefix)
                  && FreeSet(s2) == FreeSet(s) - {AddrNum(ip.value)} && AddrNum(ip.value) in FreeSet(s))
  {
    hide Pow2, Size, Base, ProbeNum, FirstFree, Total;
    if key !in s.leases {
      LeaseFailsIffFull(s, key, hash);
      var (s2, ip) := LeaseOne(s, key, hash);
      if ip.Some? {
        AddrNumRoundTrip(ip.value);
        hide NumAddr, AddrNum;
        forall v ensures v in FreeSet(s2) <==> v in FreeSet(s) && v != AddrNum(ip.value) {
          if 0 <= v < U32_LIMIT {
            NumAddrRoundTrip(v);
          }
        }
      }
    }
  }

  // ---------------------------------------------------------------- capacity

  ghost function NewKeys(s: Pool, keys: seq<string>): set<string> {
    set k | k in keys && k !in s.leases
  }

  /** Allocation succeeds exactly when the distinct unleased keys are no more than the free addresses. */
  lemma {:induction false} CapacityExact(s: Pool, keys: seq<string>, hash: Hash)
    requires 1 <= s.prefix.bits <= 30 && Consistent(s)
    ensures LeaseAll(s, keys, hash).1 <==> |NewKeys(s, keys)| <= |FreeSet(s)|
    decreases |keys|
  {
    hide LeaseOne, FreeSet, Consistent, Base, Size, Pow2, AddrNum, NumAddr;
    if |keys| == 0 {
      assert NewKeys(s, keys) == {};
    } else {
      var key := keys[0];
      var (s2, ip) := LeaseOne(s, key, hash);
      LeaseEffect(s, key, hash);
      if key in s.leases {
        KnownKeyLeases(s, key, hash);
        assert NewKeys(s, keys) == NewKeys(s, keys[1..]);
        CapacityExact(s, keys[1..], hash);
      } else {
        LeaseFailsIffFull(s, key, hash);
        assert key in NewKeys(s, keys);
        if ip.Some? {
          assert NewKeys(s2, keys[1..]) == NewKeys(s, keys) - {key};
          CapacityExact(s2, keys[1..], hash);
        }
      }
    }
  }

  lemma KnownKeyLeases(s: Pool, key: string, hash: Hash)
    requires ValidPrefix(s.prefix) && key in s.leases
    ensures LeaseOne(s, key, hash) == (s, Some(s.leases[key]))
  {
  }

  /** A /0 is accepted by New and by configuration, but its size wraps to zero: no new key ever gets a lease. */
  lemma {:induction false} WholeSpaceAllocatesNothing(s: Pool, keys: seq<string>, hash: Hash)
    requires s.prefix.bits == 0
    ensures LeaseAll(s, keys, hash).1 <==> NewKeys(s, keys) == {}
    ensures LeaseAll(s, keys, hash).0 == s
    decreases |keys|
  {
    hide LeaseOne;
    if |keys| > 0 {
      if keys[0] in s.leases {
        KnownKeyLeases(s, keys[0], hash);
        assert NewKeys(s, keys) == NewKeys(s, keys[1..]);
        WholeSpaceAllocatesNothing(s, keys[1..], hash);
      } else {
        LeaseFailsIffFull(s, keys[0], hash);
        NothingLeased(s, keys[0], hash);
        assert keys[0] in NewKeys(s, keys);
      }
    }
  }

  lemma NothingLeased(s: Pool, key: string, hash: Hash)
    requires ValidPrefix(s.prefix) && LeaseOne(s, key, hash).1 == None
    ensures LeaseOne(s, key, hash).0 == s
  {
  }

  /** What a whole allocation keeps: consistency, earlier leases, and new leases only from base+3 on. */
  lemma {:induction false} LeaseAllEffect(s: Pool, keys: seq<string>, hash: Hash)
    requires ValidPrefix(s.prefix) && Consistent(s)
    ensures var (s2, ok) := LeaseAll(s, keys, hash);
            && Consistent(s2) && s2.prefix == s.prefix
            && (forall k :: k in s.leases ==> k in s2.leases && s2.leases[k] == s.leases[k])
            && (forall k :: k in s2.leases && k !in s.leases ==>
                  k in keys && Base(s.prefix) + 3 <= AddrNum(s2.leases[k]) < Base(s.prefix) + Size(s.prefix))
            && (ok ==> forall k :: k in keys ==> k in s2.leases)
    decreases |keys|
  {
    hide LeaseOne, FreeSet, Consistent, Base, Size, AddrNum;
    if |keys| > 0 {
      LeaseEffect(s, keys[0], hash);
      LeaseAllEffect(LeaseOne(s, keys[0], hash).0, keys[1..], hash);
      assert forall k :: k in keys ==> k == keys[0] || k in keys[1..];
    }
  }

  // ---------------------------------------------------------------- independence of order and duplicates

  function DropEqual(key: string, keys: seq<string>): seq<string>
    decreases |keys|
  {
    if |keys| > 0 && keys[0] == key then DropEqual(key, keys[1..]) else keys
  }

  lemma {:induction false} DropEqualMembers(key: string, keys: seq<string>)
    requires SortedBy(keys, StringLe)
    requires forall k :: k in keys ==> StringLe(key, k)
    ensures var d := DropEqual(key, keys);
            SortedBy(d, StringLe) && |d| <= |keys| && forall k :: k in d <==> k in keys && k != key
    decreases |keys|
  {
    hide StringLe;
    if |keys| > 0 {
      if keys[0] == key {
        DropEqualMembers(key, keys[1..]);
        assert forall k :: k in keys ==> k == key || k in keys[1..];
      } else {
        forall k | k in keys ensures k != key {
          if k == key {
            var i :| 0 <= i < |keys| && keys[i] == k;
            assert StringLe(keys[0], key);
            StringLeAntisymmetric(keys[0], key);
          }
        }
      }
    }
  }

  /** Keys that already hold a lease are passed over. */
  lemma {:induction false} LeaseAllDropsEqual(s: Pool, key: string, keys: seq<string>, hash: Hash)
    requires ValidPrefix(s.prefix) && key in s.leases
    ensures LeaseAll(s, keys, hash) == LeaseAll(s, DropEqual(key, keys), hash)
    decreases |keys|
  {
    hide LeaseOne;
    if |keys| > 0 && keys[0] == key {
      KnownKeyLeases(s, key, hash);
      LeaseAllDropsEqual(s, key, keys[1..], hash);
    }
  }

  lemma HeadMember(b: seq<string>)
    ensures |b| > 0 ==> b[0] in b
  {
  }

  /** The least element of a sorted list comes first. */
  lemma HeadIsLeast(keys: seq<string>, k: string)
    requires SortedBy(keys, StringLe) && k in keys
    ensures StringLe(keys[0], k)
  {
    StringLeTotal(k, k);
    var i :| 0 <= i < |keys| && keys[i] == k;
  }

  /** On sorted lists with the same members, in whatever multiplicity, allocation has the same result. */
  lemma {:induction false} LeaseAllDependsOnMembers(s: Pool, a: seq<string>, b: seq<string>, hash: Hash)
    requires ValidPrefix(s.prefix) && Consistent(s)
    requires SortedBy(a, StringLe) && SortedBy(b, StringLe)
    requires forall k :: k in a <==> k in b
    ensures LeaseAll(s, a, hash) == LeaseAll(s, b, hash)
    decreases |a|
  {
    hide StringLe, LeaseOne, Consistent, SortedBy;
    if |a| == 0 {
      HeadMember(b);
    } else {
      assert a[0] in a && a[0] in b;
      var key := a[0];
      assert b[0] in b && b[0] in a;
      HeadIsLeast(a, b[0]);
      HeadIsLeast(b, a[0]);
      StringLeAntisymmetric(a[0], b[0]);
      LeaseEffect(s, key, hash);
      var (s2, ip) := LeaseOne(s, key, hash);
      if ip.Some? {
        TailsSorted(a);
        TailsSorted(b);
        var a2, b2 := DropEqual(key, a[1..]), DropEqual(key, b[1..]);
        DropEqualMembers(key, a[1..]);
        DropEqualMembers(key, b[1..]);
        assert forall k :: k in a2 <==> k in a && k != key;
        assert forall k :: k in b2 <==> k in b && k != key;
        LeaseAllDropsEqual(s2, key, a[1..], hash);
        LeaseAllDropsEqual(s2, key, b[1..], hash);
        LeaseAllDependsOnMembers(s2, a2, b2, hash);
      }
    }
  }

  lemma TailsSorted(a: seq<string>)
    requires SortedBy(a, StringLe) && |a| > 0
    ensures SortedBy(a[1..], StringLe) && forall k :: k in a[1..] ==> StringLe(a[0], k)
  {
  }

  /** `Allocate`: any reordering or duplication of the keys gives the same leases and the same verdict. */
  lemma AllocationDependsOnKeySet(s: Pool, a: seq<string>, b: seq<string>, hash: Hash)
    requires ValidPrefix(s.prefix) && Consistent(s) && forall k :: k in a <==> k in b
    ensures LeaseAll(s, StableSort(a, StringLe), hash) == LeaseAll(s, StableSort(b, StringLe), hash)
  {
    StringLeIsTotalPreorder();
    StableSortSorted(a, StringLe);
    StableSortSorted(b, StringLe);
    SortedMembers(a);
    SortedMembers(b);
    LeaseAllDependsOnMembers(s, StableSort(a, StringLe), StableSort(b, StringLe), hash);
  }

  lemma SortedMembers(a: seq<string>)
    ensures forall k :: k in StableSort(a, StringLe) <==> k in a
  {
    assert forall k :: k in a <==> k in multiset(a);
    assert forall k :: k in StableSort(a, StringLe) <==> k in multiset(StableSort(a, StringLe));
  }

  // ---------------------------------------------------------------- the object

  datatype Lease = Lease(key: string, ip: Addr)

  /** One round of the loop of `Allocate`. */
  lemma LeaseNext(s: Pool, keys: seq<string>, i: nat, hash: Hash)
    requires ValidPrefix(s.prefix) && Consistent(s) && i < |keys|
    ensures var (s2, ip) := LeaseOne(s, keys[i], hash);
            && Consistent(s2) && s2.prefix == s.prefix
            && (forall k :: k in s.leases ==> k in s2.leases && s2.leases[k] == s.leases[k])
            && (ip.Some? ==> keys[i] in s2.leases && s2.leases[keys[i]] == ip.value)
            && LeaseAll(s, keys[i..], hash) ==
               if ip == None then (s2, false) else LeaseAll(s2, keys[i + 1..], hash)
  {
    hide LeaseOne, Consistent, FreeSet, Base, Size, Pow2;
    LeaseEffect(s, keys[i], hash);
    assert keys[i..][1..] == keys[i + 1..];
  }

  lemma LeaseNothing(s: Pool, hash: Hash)
    requires ValidPrefix(s.prefix)
    ensures LeaseAll(s, [], hash) == (s, true)
  {
  }

  class Allocator {
    const prefix: Prefix
    const hash: Hash
    var leases: map<string, Addr>
    var used: map<Addr, string>

    ghost function State(): Pool
      reads this
    {
      Pool(prefix, leases, used)
    }

    constructor (prefix: Prefix, hash: Hash)
      requires ValidPrefix(prefix)
      ensures NewPool(prefix) == Some(State()) && this.hash == hash && Consistent(State())
    {
      this.prefix, this.hash := prefix, hash;
      leases, used := map[], map[];
    }

    /** `Reserve`. */
    method Reserve(key: string, ip: Addr) returns (ok: bool)
      requires ValidPrefix(prefix)
      modifies this
      ensures match Reserving(old(State()), key, ip)
              case None => !ok && State() == old(State())
              case Some(s) => ok && State() == s
    {
      if !Reservable(prefix, ip) {
        return false;
      }
      if ip in used && used[ip] != key {
        return false;
      }
      used := used[ip := key];
      leases := leases[key := ip];
      return true;
    }

    /** `lease`. */
    method LeaseKey(key: string) returns (ip: Option<Addr>)
      requires ValidPrefix(prefix)
      modifies this
      ensures (State(), ip) == LeaseOne(old(State()), key, hash)
    {
      if key in leases {
        return Some(leases[key]);
      }
      var total := Total(prefix);
      if total <= 3 {
        return None;
      }
      var h := hash(key);
      for i := 0 to total - 3
        invariant State() == old(State())
        invariant FirstFree(State(), h, 0) == FirstFree(State(), h, i)
      {
        var probe := NumAddr(ProbeNum(prefix, h, i));
        if probe !in used {
          used := used[probe := key];
          leases := leases[key := probe];
          return Some(probe);
        }
      }
      return None;
    }

    /** `Allocate`; None is its error return, after which the leases made before the failure remain. */
    method Allocate(keys: seq<string>) returns (out: Option<seq<Lease>>)
      requires ValidPrefix(prefix) && Consistent(State())
      modifies this
      ensures (State(), out.Some?) == LeaseAll(old(State()), StableSort(keys, StringLe), hash)
      ensures out.Some? ==> |out.value| == |keys| && forall j :: 0 <= j < |keys| ==>
                var l := out.value[j];
                l.key == StableSort(keys, StringLe)[j] && l.key in leases && leases[l.key] == l.ip
    {
      hide LeaseOne, LeaseAll, Consistent, FreeSet, Base, Size, Pow2;
      var sorted := StableSort(keys, StringLe);
      ghost var start := State();
      assert sorted[0..] == sorted;
      var leased: seq<Lease> := [];
      for i := 0 to |sorted|
        invariant Consistent(State())
        invariant LeaseAll(start, sorted, hash) == LeaseAll(State(), sorted[i..], hash)
        invariant |leased| == i && forall j :: 0 <= j < i ==> leased[j].key == sorted[j]
        invariant forall j :: 0 <= j < i ==> leased[j].key in leases && leases[leased[j].key] == leased[j].ip
      {
        LeaseNext(State(), sorted, i, hash);
        var ip := LeaseKey(sorted[i]);
        if ip == None {
          return None;
        }
        leased := leased + [Lease(sorted[i], ip.value)];
      }
      assert sorted[|sorted|..] == [];
      LeaseNothing(State(), hash);
      return Some(leased);
    }
  }
}
