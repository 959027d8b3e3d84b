/**
  The affinity plans of linux_rx_tune: which mask goes into which
  /proc/irq/<n>/smp_affinity file (receive-side scaling, one core per irq or
  every core per irq) and which sibling mask goes into which
  /sys/class/net/<iface>/queues/{rx,tx}-<n>/{rps,xps}_cpus file. Every plan
  is a map from a kernel file path to what would be written there; nothing
  is written. The interrupt table (nic_irqs) and the topology are passed in.
 */
module Affinity {
  import opened Digits
  import opened Codec
  import opened Numa

  datatype Option<T> = None | Some(value: T)

  /** Ruby's `a[i]`: nil past the end. */
  function Get<T>(a: seq<T>, i: nat): Option<T>
  {
    if i < |a| then Some(a[i]) else None
  }

  /** One entry of nic_irqs: an interface name and the irq of each channel, by channel number. */
  datatype Interface = Interface(name: string, irqs: seq<nat>)

  predicate UniqueNames(s: seq<Interface>)
  {
    forall i, j :: 0 <= i < j < |s| ==> s[i].name != s[j].name
  }

  /** nic_irqs in insertion order; a hash holds each interface name once. */
  type InterruptTable = s: seq<Interface> | UniqueNames(s) witness []

  function Names(table: seq<Interface>): set<string>
  {
    set p | p in table :: p.name
  }

  // ---------------------------------------------------------------------
  // Choosing the cores (the `case numa` of both RSS plans)
  // ---------------------------------------------------------------------

  predicate ValidSelector(numa: int)
  {
    numa == 0 || numa == 1 || numa == -1
  }

  /** 0 and 1 pick that node's cores, -1 node 0's then node 1's, anything else none. */
  function Selected(t: Topology, numa: int): seq<nat>
  {
    if numa == 0 then NodeCores(t, 0)
    else if numa == 1 then NodeCores(t, 1)
    else if numa == -1 then NodeCores(t, 0) + NodeCores(t, 1)
    else []
  }

  /** Core c is one the selector asks for. */
  predicate Wanted(t: Topology, numa: int, c: nat)
  {
    c < |t| &&
    if numa == -1 then t[c].numaNode == 0 || t[c].numaNode == 1
    else ValidSelector(numa) && t[c].numaNode == numa
  }

  predicate NoDuplicates(s: seq<nat>)
  {
    forall i, j :: 0 <= i < j < |s| ==> s[i] != s[j]
  }

  /**
    The selected list holds each wanted core exactly once and nothing else;
    an unknown selector selects nothing; with -1 on a machine whose cores are
    all on node 0 or node 1 every core is selected.
   */
  lemma SelectedSpec(t: Topology, numa: int)
    ensures forall c :: c in Selected(t, numa) <==> Wanted(t, numa, c)
    ensures NoDuplicates(Selected(t, numa))
    ensures !ValidSelector(numa) ==> Selected(t, numa) == []
    ensures numa == -1 && (forall c :: 0 <= c < |t| ==> t[c].numaNode == 0 || t[c].numaNode == 1) ==>
              |Selected(t, numa)| == |t|
  {
    SelectedMembers(t, numa);
    SelectedDistinct(t, numa);
    if numa == -1 && forall c :: 0 <= c < |t| ==> t[c].numaNode == 0 || t[c].numaNode == 1 {
      NodeCoresCover(t);
    }
  }

  lemma SelectedMembers(t: Topology, numa: int)
    ensures forall c :: c in Selected(t, numa) <==> Wanted(t, numa, c)
  {
    NodeCoresSpec(t, 0);
    NodeCoresSpec(t, 1);
  }

  lemma SelectedDistinct(t: Topology, numa: int)
    ensures NoDuplicates(Selected(t, numa))
  {
    NodeCoresSpec(t, 0);
    NodeCoresSpec(t, 1);
    if numa == -1 {
      NodeCoresDisjoint(t, 0, 1);
      ConcatNoDuplicates(NodeCores(t, 0), NodeCores(t, 1));
    }
  }

  /** Two duplicate-free lists that share nothing stay duplicate-free when concatenated. */
  lemma ConcatNoDuplicates(a: seq<nat>, b: seq<nat>)
    requires NoDuplicates(a) && NoDuplicates(b)
    requires forall x :: x in a ==> x !in b
    ensures NoDuplicates(a + b)
  {
    var s := a + b;
    forall i, j | 0 <= i < j < |s|
      ensures s[i] != s[j]
    {
      if j < |a| {
        assert s[i] == a[i] && s[j] == a[j];
      } else if i >= |a| {
        assert s[i] == b[i - |a|] && s[j] == b[j - |a|];
      } else {
        assert s[i] in a && s[j] in b;
      }
    }
  }

  /** The `case numa` block: the selected cores, and whether the warning was issued. */
  method SelectCores(t: Topology, numa: int) returns (cores: seq<nat>, warned: bool)
    ensures cores == Selected(t, numa)
    ensures warned <==> !ValidSelector(numa)
  {
    cores := [];
    warned := false;
    if numa == 0 {
      cores := GetNumaCores(t, 0);
    } else if numa == 1 {
      cores := GetNumaCores(t, 1);
    } else if numa == -1 {
      var node0 := GetNumaCores(t, 0);
      var node1 := GetNumaCores(t, 1);
      cores := node0 + node1;
    } else {
      warned := true;
    }
  }

  // ---------------------------------------------------------------------
  // Kernel file paths
  // ---------------------------------------------------------------------

  /** Ruby's interpolation of an integer. */
  function Decimal(n: nat): string
  {
    ToDigits(n, 10)
  }

  function IrqPath(irq: nat): string
  {
    "/proc/irq/" + Decimal(irq) + "/smp_affinity"
  }

  /** Different irqs never share an smp_affinity file. */
  lemma IrqPathInjective(a: nat, b: nat)
    ensures IrqPath(a) == IrqPath(b) <==> a == b
  {
    if IrqPath(a) == IrqPath(b) {
      var p, q := IrqPath(a), IrqPath(b);
      assert p[10..|p| - 13] == Decimal(a);
      assert q[10..|q| - 13] == Decimal(b);
      ToDigitsInjective(a, b, 10);
    }
  }

  // ---------------------------------------------------------------------
  // Round robin
  // ---------------------------------------------------------------------

  /**
    The position the loop counter holds at step i, after its reset to 0 on
    reaching the list length: i mod the length, or i itself when the list
    is empty (the reset then keeps it at 0 only before the first step).
   */
  function Slot(len: nat, i: nat): nat
    decreases i
  {
    if len == 0 || i < len then i else Slot(len, i - len)
  }

  /** How many times the counter has gone back to 0 by step i: the completed rounds. */
  function Rounds(len: nat, i: nat): nat
    decreases i
  {
    if len == 0 || i < len then 0 else 1 + Rounds(len, i - len)
  }

  /** Step i is the Slot-th position of round Rounds, and that position lies within the list. */
  lemma {:induction false} SlotRounds(len: nat, i: nat)
    requires len > 0
    ensures Slot(len, i) < len && i == Rounds(len, i) * len + Slot(len, i)
    decreases i
  {
    if i >= len {
      SlotRounds(len, i - len);
    }
  }

  /** One step of the counter moves to the next position, or from the last back to 0 and into a new round. */
  lemma {:induction false} SlotRoundsStep(len: nat, i: nat)
    requires len > 0
    ensures Slot(len, i + 1) == if Slot(len, i) == len - 1 then 0 else Slot(len, i) + 1
    ensures Rounds(len, i + 1) == if Slot(len, i) == len - 1 then Rounds(len, i) + 1 else Rounds(len, i)
    decreases i
  {
    if i >= len {
      SlotRoundsStep(len, i - len);
    }
  }

  /** On a non-empty list the counter's position is i mod the length and its rounds i div the length. */
  lemma SlotMod(len: nat, i: nat)
    ensures len > 0 ==> Slot(len, i) == i % len && Rounds(len, i) == i / len
  {
    if len > 0 {
      SlotRounds(len, i);
      LeadingDigitEqual(Rounds(len, i), i / len, len, Slot(len, i), i % len);
    }
  }

  /**
    The counter of a round-robin loop at step i, before its reset: i itself
    over an empty list; otherwise a position up to the length that, once
    reset, is slot i.
   */
  predicate Counter(len: nat, i: nat, cidx: nat)
  {
    if len == 0 then cidx == i else cidx <= len && (if cidx == len then 0 else cidx) == Slot(len, i)
  }

  /** The reset counter is slot i, and one past it is the counter of step i+1. */
  lemma CounterStep(len: nat, i: nat, cidx: nat)
    requires Counter(len, i, cidx)
    ensures var c := if cidx == len then 0 else cidx;
            c == Slot(len, i) && Counter(len, i + 1, c + 1)
  {
    if len > 0 {
      SlotRounds(len, i);
      SlotRoundsStep(len, i);
    }
  }

  /** The core assign_affinity gives the i-th irq: nil when there are no cores. */
  function SlotCore(cores: seq<nat>, i: nat): Option<nat>
  {
    Get(cores, Slot(|cores|, i))
  }

  /** The number of the first m irqs that go to core c. */
  function Load(cores: seq<nat>, m: nat, c: nat): nat
  {
    if m == 0 then 0 else Load(cores, m - 1, c) + (if SlotCore(cores, m - 1) == Some(c) then 1 else 0)
  }

  /** In a duplicate-free list, slot i names the core at position r exactly when i mod n is r. */
  lemma SlotHit(cores: seq<nat>, i: nat, r: nat)
    requires NoDuplicates(cores) && r < |cores|
    ensures SlotCore(cores, i) == Some(cores[r]) <==> i % |cores| == r
  {
    SlotMod(|cores|, i);
    SlotRounds(|cores|, i);
  }

  /** One step of the count, in plain linear arithmetic over rounds and position. */
  lemma CountStep(prev: nat, q: nat, s: nat, q2: nat, s2: nat, n: nat, r: nat)
    requires s < n && r < n
    requires prev == q + (if r < s then 1 else 0)
    requires s == n - 1 ==> q2 == q + 1 && s2 == 0
    requires s != n - 1 ==> q2 == q && s2 == s + 1
    ensures prev + (if s == r then 1 else 0) == q2 + (if r < s2 then 1 else 0)
  {
  }

  /** The count of the core at position r after m slots: one per completed round, plus the current round if r is behind. */
  lemma {:induction false} LoadRounds(cores: seq<nat>, m: nat, r: nat)
    requires NoDuplicates(cores) && r < |cores|
    ensures Load(cores, m, cores[r]) == Rounds(|cores|, m) + (if r < Slot(|cores|, m) then 1 else 0)
    decreases m
  {
    if m > 0 {
      var n, k := |cores|, m - 1;
      LoadRounds(cores, k, r);
      SlotRounds(n, k);
      SlotRoundsStep(n, k);
      assert SlotCore(cores, k) == Some(cores[r]) <==> Slot(n, k) == r;
      CountStep(Load(cores, k, cores[r]), Rounds(n, k), Slot(n, k), Rounds(n, m), Slot(n, m), n, r);
    }
  }

  /**
    Round robin spreads the irqs evenly: of the first m irqs the core at
    position r of a duplicate-free list gets m / n of them, plus one when r
    is below m mod n (n the list length).
   */
  lemma LoadBalanced(cores: seq<nat>, m: nat, r: nat)
    requires NoDuplicates(cores) && r < |cores|
    ensures Load(cores, m, cores[r]) == m / |cores| + (if r < m % |cores| then 1 else 0)
  {
    LoadRounds(cores, m, r);
    SlotMod(|cores|, m);
  }

  lemma {:induction false} LoadOutside(cores: seq<nat>, m: nat, c: nat)
    requires c !in cores
    ensures Load(cores, m, c) == 0
    decreases m
  {
    if m > 0 {
      LoadOutside(cores, m - 1, c);
    }
  }

  /** Every core of a non-empty list gets between m / n and m / n + 1 of the first m irqs. */
  lemma LoadWithinOne(cores: seq<nat>, m: nat, c: nat)
    requires NoDuplicates(cores) && c in cores
    ensures m / |cores| <= Load(cores, m, c) <= m / |cores| + 1
  {
    var r :| 0 <= r < |cores| && cores[r] == c;
    LoadBalanced(cores, m, r);
  }

  // ---------------------------------------------------------------------
  // One core per irq: assign_affinity and enable_rss_numa_per_core
  // ---------------------------------------------------------------------

  /** The smp_affinity files of the given irqs. */
  function IrqPaths(irqs: seq<nat>): set<string>
  {
    set irq | irq in irqs :: IrqPath(irq)
  }

  lemma IrqPathsSnoc(irqs: seq<nat>, j: nat)
    requires j < |irqs|
    ensures IrqPaths(irqs[..j + 1]) == IrqPaths(irqs[..j]) + {IrqPath(irqs[j])}
  {
    assert irqs[..j + 1] == irqs[..j] + [irqs[j]];
  }

  /** One more interface adds its name, which no interface before it has. */
  lemma NamesSnoc(table: InterruptTable, i: nat)
    requires i < |table|
    ensures Names(table[..i + 1]) == Names(table[..i]) + {table[i].name}
    ensures table[i].name !in Names(table[..i])
  {
    assert table[..i + 1] == table[..i] + [table[i]];
  }

  /** The `[hex, core]` pair written for one irq. */
  datatype CoreAffinity = CoreAffinity(mask: string, core: Option<nat>)

  function AsList(c: Option<nat>): seq<nat>
  {
    if c.Some? then [c.value] else []
  }

  function SlotAffinity(cores: seq<nat>, i: nat, coreCount: nat): CoreAffinity
  {
    var c := SlotCore(cores, i);
    CoreAffinity(CoreListToHexmap(AsList(c), coreCount), c)
  }

  /**
    The first k irqs' smp_affinity files, each mapped to the value at the
    irq's position; a repeated irq keeps its last position's value.
   */
  function IrqMap<V>(irqs: seq<nat>, vals: seq<V>, k: nat): map<string, V>
    requires k <= |irqs| && k <= |vals|
  {
    if k == 0 then map[] else IrqMap(irqs, vals, k - 1)[IrqPath(irqs[k - 1]) := vals[k - 1]]
  }

  /** The files of an IrqMap are exactly those of its first k irqs. */
  lemma {:induction false} IrqMapKeys<V>(irqs: seq<nat>, vals: seq<V>, k: nat)
    requires k <= |irqs| && k <= |vals|
    ensures IrqMap(irqs, vals, k).Keys == IrqPaths(irqs[..k])
  {
    if k > 0 {
      var m, path := IrqMap(irqs, vals, k - 1), IrqPath(irqs[k - 1]);
      assert IrqMap(irqs, vals, k).Keys == m.Keys + {path};
      IrqMapKeys(irqs, vals, k - 1);
      IrqPathsSnoc(irqs, k - 1);
    }
  }

  /** The file of the i-th irq, when no later one of the first k repeats it, holds the i-th value. */
  lemma {:induction false} IrqMapAt<V>(irqs: seq<nat>, vals: seq<V>, k: nat, i: nat)
    requires k <= |irqs| && k <= |vals|
    requires i < k && forall j :: i < j < k ==> irqs[j] != irqs[i]
    ensures IrqPath(irqs[i]) in IrqMap(irqs, vals, k) && IrqMap(irqs, vals, k)[IrqPath(irqs[i])] == vals[i]
  {
    if i < k - 1 {
      IrqMapAt(irqs, vals, k - 1, i);
      IrqPathInjective(irqs[i], irqs[k - 1]);
    }
  }

  /** The pair assign_affinity writes for each of the first m slots. */
  function Slots(cores: seq<nat>, m: nat, coreCount: nat): (r: seq<CoreAffinity>)
    ensures |r| == m
  {
    if m == 0 then [] else Slots(cores, m - 1, coreCount) + [SlotAffinity(cores, m - 1, coreCount)]
  }

  lemma {:induction false} SlotsAt(cores: seq<nat>, m: nat, coreCount: nat, i: nat)
    requires i < m
    ensures Slots(cores, m, coreCount)[i] == SlotAffinity(cores, i, coreCount)
  {
    if i < m - 1 { SlotsAt(cores, m - 1, coreCount, i); }
  }

  /** The plan of one interface: irq i's file gets slot i. */
  function PerCoreMap(cores: seq<nat>, irqs: seq<nat>, coreCount: nat): map<string, CoreAffinity>
  {
    IrqMap(irqs, Slots(cores, |irqs|, coreCount), |irqs|)
  }

  /** assign_affinity plans exactly the smp_affinity files of the given irqs. */
  lemma PerCoreMapKeys(cores: seq<nat>, irqs: seq<nat>, coreCount: nat)
    ensures PerCoreMap(cores, irqs, coreCount).Keys == IrqPaths(irqs)
  {
    IrqMapKeys(irqs, Slots(cores, |irqs|, coreCount), |irqs|);
    assert irqs[..|irqs|] == irqs;
  }

  /** The file of the i-th irq, when no later irq repeats it, gets slot i. */
  lemma PerCoreMapAt(cores: seq<nat>, irqs: seq<nat>, coreCount: nat, i: nat)
    requires i < |irqs| && forall j :: i < j < |irqs| ==> irqs[j] != irqs[i]
    ensures IrqPath(irqs[i]) in PerCoreMap(cores, irqs, coreCount)
    ensures PerCoreMap(cores, irqs, coreCount)[IrqPath(irqs[i])] == SlotAffinity(cores, i, coreCount)
  {
    IrqMapAt(irqs, Slots(cores, |irqs|, coreCount), |irqs|, i);
    SlotsAt(cores, |irqs|, coreCount, i);
  }

  /**
    The mask of one slot: with no cores it is all zeros and no core is named;
    otherwise the slot names its core, and the mask is that core's bit (no
    bit at all for a core beyond the core count).
   */
  lemma SlotAffinitySpec(cores: seq<nat>, i: nat, coreCount: nat)
    ensures |cores| == 0 ==>
              SlotAffinity(cores, i, coreCount) ==
              CoreAffinity(Zeros(if coreCount / 4 >= 1 then coreCount / 4 else 1), None)
    ensures |cores| > 0 ==>
              SlotAffinity(cores, i, coreCount).core == Some(cores[i % |cores|]) &&
              FromDigits(SlotAffinity(cores, i, coreCount).mask, 16) ==
              (if cores[i % |cores|] < coreCount then Pow(2, cores[i % |cores|]) else 0)
  {
    if |cores| == 0 {
      EmptyListMask(coreCount);
    } else {
      SlotMod(|cores|, i);
      MaskSingle(cores[i % |cores|], coreCount);
      CoreListToHexmapSpec([cores[i % |cores|]], coreCount);
    }
  }

  /** The plan of the first i+1 irqs is that of the first i with irq i's file mapped to slot i. */
  lemma PerCoreStep(cores: seq<nat>, irqs: seq<nat>, coreCount: nat, i: nat)
    requires i < |irqs|
    ensures IrqMap(irqs, Slots(cores, |irqs|, coreCount), i + 1) ==
            IrqMap(irqs, Slots(cores, |irqs|, coreCount), i)[IrqPath(irqs[i]) := SlotAffinity(cores, i, coreCount)]
  {
    SlotsAt(cores, |irqs|, coreCount, i);
  }

  /**
    assign_affinity: walks the irqs with a core counter that is reset to 0
    on reaching the list length, and maps each irq's smp_affinity file to
    the mask of the counter's core and the core itself.
   */
  method AssignAffinity(cores: seq<nat>, irqs: seq<nat>, coreCount: nat) returns (data: map<string, CoreAffinity>)
    ensures data == PerCoreMap(cores, irqs, coreCount)
  {
    ghost var vals := Slots(cores, |irqs|, coreCount);
    data := map[];
    var cidx := 0;
    var i := 0;
    while i < |irqs|
      invariant 0 <= i <= |irqs|
      invariant data == IrqMap(irqs, vals, i)
      invariant Counter(|cores|, i, cidx)
    {
      CounterStep(|cores|, i, cidx);
      if cidx == |cores| {
        cidx := 0;
      }
      var core := Get(cores, cidx);
      var hex := CoreListToHexmap(AsList(core), coreCount);
      PerCoreStep(cores, irqs, coreCount, i);
      data := data[IrqPath(irqs[i]) := CoreAffinity(hex, core)];
      cidx := cidx + 1;
      i := i + 1;
    }
  }

  /**
    enable_rss_numa_per_core: one assign_affinity plan per interface name,
    over the selected cores and the topology's core count; the warning flag
    says whether the selector was rejected.
   */
  method EnableRssPerCore(t: Topology, table: InterruptTable, numa: int)
    returns (data: map<string, map<string, CoreAffinity>>, warned: bool)
    ensures warned <==> !ValidSelector(numa)
    ensures data.Keys == Names(table)
    ensures forall k :: 0 <= k < |table| ==> data[table[k].name] == PerCoreMap(Selected(t, numa), table[k].irqs, |t|)
  {
    var cores;
    cores, warned := SelectCores(t, numa);
    data := map[];
    var i := 0;
    while i < |table|
      invariant 0 <= i <= |table|
      invariant data.Keys == Names(table[..i])
      invariant forall k :: 0 <= k < i ==> data[table[k].name] == PerCoreMap(cores, table[k].irqs, |t|)
    {
      var plan := AssignAffinity(cores, table[i].irqs, |t|);
      NamesSnoc(table, i);
      data := data[table[i].name := plan];
      i := i + 1;
    }
    assert table[..|table|] == table;
  }

  // ---------------------------------------------------------------------
  // Every selected core per irq: enable_rss_numa_all_cores
  // ---------------------------------------------------------------------

  /** The `[hex, cores]` pair written for every irq. */
  datatype CoreSetAffinity = CoreSetAffinity(mask: string, cores: seq<nat>)

  /** Every key of m maps to v. */
  ghost predicate AllHold<K, V>(m: map<K, V>, v: V)
  {
    forall k :: k in m ==> m[k] == v
  }

  /** The `irqs.each` block of enable_rss_numa_all_cores: every irq's smp_affinity file gets v. */
  method SameForEveryIrq(irqs: seq<nat>, v: CoreSetAffinity) returns (plan: map<string, CoreSetAffinity>)
    ensures plan.Keys == IrqPaths(irqs)
    ensures AllHold(plan, v)
  {
    plan := map[];
    var j := 0;
    while j < |irqs|
      invariant 0 <= j <= |irqs|
      invariant plan.Keys == IrqPaths(irqs[..j])
      invariant AllHold(plan, v)
    {
      IrqPathsSnoc(irqs, j);
      plan := plan[IrqPath(irqs[j]) := v];
      j := j + 1;
    }
    assert irqs[..|irqs|] == irqs;
  }

  /**
    enable_rss_numa_all_cores: one mask for the whole selection, and for each
    interface name a plan mapping every one of its irqs' smp_affinity files
    to that mask and the selected list.
   */
  method EnableRssAllCores(t: Topology, table: InterruptTable, numa: int)
    returns (data: map<string, map<string, CoreSetAffinity>>, warned: bool)
    ensures warned <==> !ValidSelector(numa)
    ensures data.Keys == Names(table)
    ensures forall k :: 0 <= k < |table| ==> data[table[k].name].Keys == IrqPaths(table[k].irqs)
    ensures forall name :: name in data ==>
              AllHold(data[name], CoreSetAffinity(CoreListToHexmap(Selected(t, numa), |t|), Selected(t, numa)))
  {
    var cores;
    cores, warned := SelectCores(t, numa);
    var hex := CoreListToHexmap(cores, |t|);
    data := map[];
    var i := 0;
    while i < |table|
      invariant 0 <= i <= |table|
      invariant data.Keys == Names(table[..i])
      invariant forall k :: 0 <= k < i ==> data[table[k].name].Keys == IrqPaths(table[k].irqs)
      invariant forall name :: name in data ==> AllHold(data[name], CoreSetAffinity(hex, cores))
    {
      var plan := SameForEveryIrq(table[i].irqs, CoreSetAffinity(hex, cores));
      NamesSnoc(table, i);
      data := data[table[i].name := plan];
      i := i + 1;
    }
    assert table[..|table|] == table;
  }

  /**
    With selector -1 on a machine whose cores are all on node 0 or node 1
    and whose core count is a multiple of four, the shared mask is the
    all-'f' mask of core_cnt/4 digits.
   */
  lemma AllCoresMaskIsFull(t: Topology)
    requires |t| >= 4 && |t| % 4 == 0
    requires forall c :: 0 <= c < |t| ==> t[c].numaNode == 0 || t[c].numaNode == 1
    ensures CoreListToHexmap(Selected(t, -1), |t|) == TopDigits(16, |t| / 4)
  {
    SelectedSpec(t, -1);
    assert forall c: nat :: c < |t| ==> Wanted(t, -1, c);
    assert forall c: nat :: c < |t| ==> c in Selected(t, -1);
    FullListMask(Selected(t, -1), |t|);
  }

  // ---------------------------------------------------------------------
  // Queue steering: enable_rps_numa0, enable_xps_numa0, enable_xps_numa1
  // ---------------------------------------------------------------------

  /** Receive packet steering over node 0, or transmit packet steering over node 0 or node 1. */
  datatype Steering = RpsNuma0 | XpsNuma0 | XpsNuma1

  function SteeringNode(s: Steering): int
  {
    if s == XpsNuma1 then 1 else 0
  }

  function QueueDir(s: Steering): string
  {
    if s == RpsNuma0 then "/queues/rx-" else "/queues/tx-"
  }

  function CpusFile(s: Steering): string
  {
    if s == RpsNuma0 then "/rps_cpus" else "/xps_cpus"
  }

  /** A queue of an interface: the plans below are keyed by it, QueuePath gives its file. */
  datatype Queue = Queue(iface: string, idx: nat)

  /** "/sys/class/net/<iface>/queues/rx-" or ".../tx-": everything before the queue index. */
  function QueuePrefix(s: Steering, iface: string): string
  {
    "/sys/class/net/" + iface + QueueDir(s)
  }

  function QueuePath(s: Steering, q: Queue): string
  {
    QueuePrefix(s, q.iface) + (Decimal(q.idx) + CpusFile(s))
  }

  /** The position of the last '-' in x, or -1. */
  function LastDash(x: string): int
    ensures -1 <= LastDash(x) < |x|
    decreases |x|
  {
    if x == [] then -1 else if x[|x| - 1] == '-' then |x| - 1 else LastDash(x[..|x| - 1])
  }

  lemma {:induction false} LastDashAppend(x: string, y: string)
    requires x != [] && x[|x| - 1] == '-'
    requires forall k :: 0 <= k < |y| ==> y[k] != '-'
    ensures LastDash(x + y) == |x| - 1
    decreases |y|
  {
    if y != [] {
      var v := y[..|y| - 1];
      assert (x + y)[..|x + y| - 1] == x + v;
      LastDashAppend(x, v);
    }
  }

  /** After the last '-' of a queue's file come the index digits and the file name. */
  lemma QueueSuffix(s: Steering, q: Queue)
    ensures var p := QueuePath(s, q);
            LastDash(p) == |QueuePrefix(s, q.iface)| - 1 && p[LastDash(p) + 1..] == Decimal(q.idx) + CpusFile(s)
  {
    var x, y := QueuePrefix(s, q.iface), Decimal(q.idx) + CpusFile(s);
    assert x[|x| - 1] == '-';
    assert forall k :: 0 <= k < |y| ==> y[k] != '-' by {
      forall k | 0 <= k < |y|
        ensures y[k] != '-'
      {
        if k < |Decimal(q.idx)| {
          assert IsLowerHexChar(Decimal(q.idx)[k]);
        }
      }
    }
    LastDashAppend(x, y);
    assert (x + y)[|x|..] == y;
  }

  /**
    Different queues have different files: the digits after the last '-'
    give the index, and what comes before them the interface.
   */
  lemma QueuePathInjective(s: Steering, a: Queue, b: Queue)
    ensures QueuePath(s, a) == QueuePath(s, b) <==> a == b
  {
    if QueuePath(s, a) == QueuePath(s, b) {
      QueuePrefixLength(s, a, b);
      ConcatCancel(QueuePrefix(s, a.iface), Decimal(a.idx) + CpusFile(s), QueuePrefix(s, b.iface), Decimal(b.idx) + CpusFile(s));
      ConcatCancelRight(Decimal(a.idx), CpusFile(s), Decimal(b.idx));
      ToDigitsInjective(a.idx, b.idx, 10);
      QueuePrefixInjective(s, a.iface, b.iface);
    }
  }

  /** Two queues with one file have directory parts of one length: both end at the path's last '-'. */
  lemma QueuePrefixLength(s: Steering, a: Queue, b: Queue)
    requires QueuePath(s, a) == QueuePath(s, b)
    ensures |QueuePrefix(s, a.iface)| == |QueuePrefix(s, b.iface)|
  {
    QueueSuffix(s, a);
    QueueSuffix(s, b);
  }

  lemma QueuePrefixInjective(s: Steering, i1: string, i2: string)
    requires QueuePrefix(s, i1) == QueuePrefix(s, i2)
    ensures i1 == i2
  {
    assert QueuePrefix(s, i1) == "/sys/class/net/" + (i1 + QueueDir(s));
    assert QueuePrefix(s, i2) == "/sys/class/net/" + (i2 + QueueDir(s));
    ConcatCancel("/sys/class/net/", i1 + QueueDir(s), "/sys/class/net/", i2 + QueueDir(s));
    ConcatCancelRight(i1, QueueDir(s), i2);
  }

  /** Two concatenations that agree and split at the same place agree part by part. */
  lemma ConcatCancel(x1: string, y1: string, x2: string, y2: string)
    requires x1 + y1 == x2 + y2 && |x1| == |x2|
    ensures x1 == x2 && y1 == y2
  {
    assert x1 == (x1 + y1)[..|x1|];
    assert x2 == (x2 + y2)[..|x2|];
    assert y1 == (x1 + y1)[|x1|..];
    assert y2 == (x2 + y2)[|x2|..];
  }

  lemma ConcatCancelRight(x1: string, y: string, x2: string)
    requires x1 + y == x2 + y
    ensures x1 == x2
  {
    ConcatCancel(x1, y, x2, y);
  }

  /** The `[hex, str]` pair written for one queue; nil entries when the node has no cores. */
  datatype QueueCpus = QueueCpus(mask: Option<string>, cpuList: Option<string>)

  function QueueValue(hexs: seq<string>, strs: seq<string>, idx: nat): QueueCpus
  {
    var c := Slot(|hexs|, idx);
    QueueCpus(Get(hexs, c), Get(strs, c))
  }

  /** Queue q is one of the table's: an entry of its interface has more than q.idx channels. */
  predicate InTable(table: seq<Interface>, q: Queue)
  {
    exists k :: 0 <= k < |table| && table[k].name == q.iface && q.idx < |table[k].irqs|
  }

  /** The plan as the source keys it: each queue's file path in place of the queue. */
  function Files(s: Steering, plan: map<Queue, QueueCpus>): (files: map<string, QueueCpus>)
  {
    assert forall a, b :: a in plan && b in plan && QueuePath(s, a) == QueuePath(s, b) ==> a == b by {
      forall a, b | a in plan && b in plan && QueuePath(s, a) == QueuePath(s, b)
        ensures a == b
      {
        QueuePathInjective(s, a, b);
      }
    }
    map q | q in plan :: QueuePath(s, q) := plan[q]
  }

  /** The file-keyed plan has one file per queue of the plan, holding that queue's value. */
  lemma FilesSpec(s: Steering, plan: map<Queue, QueueCpus>)
    ensures forall q :: q in plan ==> QueuePath(s, q) in Files(s, plan) && Files(s, plan)[QueuePath(s, q)] == plan[q]
    ensures forall p :: p in Files(s, plan) ==> exists q :: q in plan && p == QueuePath(s, q)
  {
    forall q | q in plan
      ensures Files(s, plan)[QueuePath(s, q)] == plan[q]
    {
      forall r | r in plan && QueuePath(s, r) == QueuePath(s, q)
        ensures r == q
      {
        QueuePathInjective(s, r, q);
      }
    }
  }

  /** A queue-keyed plan of exactly the table's queues, with their index values, as files. */
  lemma SteeringFiles(s: Steering, table: InterruptTable, plan: map<Queue, QueueCpus>, hexs: seq<string>, strs: seq<string>)
    requires forall q :: q in plan <==> InTable(table, q)
    requires forall q :: q in plan ==> plan[q] == QueueValue(hexs, strs, q.idx)
    ensures forall q :: InTable(table, q) ==>
              QueuePath(s, q) in Files(s, plan) && Files(s, plan)[QueuePath(s, q)] == QueueValue(hexs, strs, q.idx)
    ensures forall p :: p in Files(s, plan) ==> exists q :: InTable(table, q) && p == QueuePath(s, q)
  {
    FilesSpec(s, plan);
  }

  /** The queues of the first i+1 interfaces are those of the first i and those of interface i. */
  lemma InTableSnoc(table: seq<Interface>, i: nat)
    requires i < |table|
    ensures forall q :: InTable(table[..i + 1], q) <==>
                        InTable(table[..i], q) || (q.iface == table[i].name && q.idx < |table[i].irqs|)
  {
    forall q
      ensures InTable(table[..i + 1], q) <==>
              InTable(table[..i], q) || (q.iface == table[i].name && q.idx < |table[i].irqs|)
    {
      if InTable(table[..i + 1], q) {
        var k :| 0 <= k < i + 1 && table[..i + 1][k].name == q.iface && q.idx < |table[..i + 1][k].irqs|;
        if k < i {
          assert table[..i][k] == table[..i + 1][k];
        }
      }
      if InTable(table[..i], q) {
        var k :| 0 <= k < i && table[..i][k].name == q.iface && q.idx < |table[..i][k].irqs|;
        assert table[..i + 1][k] == table[..i][k];
      }
      if q.iface == table[i].name && q.idx < |table[i].irqs| {
        assert table[..i + 1][i] == table[i];
      }
    }
  }

  /**
    The `irqs.each_index` block of the steering plans for one interface: a
    counter over the sibling masks starts at 0 and goes back to 0 on reaching
    their number; queue idx of the interface gets the counter's mask and
    list, which is the value of index idx. Other queues keep their value.
   */
  method SteerQueues(name: string, irqs: seq<nat>, hexs: seq<string>, strs: seq<string>, plan: map<Queue, QueueCpus>)
    returns (plan': map<Queue, QueueCpus>)
    ensures forall q :: q in plan' <==> q in plan || (q.iface == name && q.idx < |irqs|)
    ensures forall q :: q in plan' ==>
              plan'[q] == if q.iface == name && q.idx < |irqs| then QueueValue(hexs, strs, q.idx) else plan[q]
  {
    plan' := plan;
    var cidx := 0;
    var idx := 0;
    while idx < |irqs|
      invariant 0 <= idx <= |irqs|
      invariant forall q :: q in plan' <==> q in plan || (q.iface == name && q.idx < idx)
      invariant forall q :: q in plan' ==>
                  plan'[q] == if q.iface == name && q.idx < idx then QueueValue(hexs, strs, q.idx) else plan[q]
      invariant Counter(|hexs|, idx, cidx)
    {
      CounterStep(|hexs|, idx, cidx);
      if cidx == |hexs| {
        cidx := 0;
      }
      var value := QueueCpus(Get(hexs, cidx), Get(strs, cidx));
      plan' := plan'[Queue(name, idx) := value];
      cidx := cidx + 1;
      idx := idx + 1;
    }
  }

  /**
    enable_rps_numa0, enable_xps_numa0 and enable_xps_numa1: for each
    interface a counter over the node's sibling masks starts at 0 and goes
    back to 0 on reaching the list length; queue idx gets the counter's
    sibling mask and sibling list. All interfaces share one plan, which
    holds exactly the files of the table's queues, each with the value of
    its queue's index. The loop keys the plan by queue; Files turns the
    queues into their file paths.
   */
  method EnableQueueSteering(t: Topology, table: InterruptTable, s: Steering) returns (files: map<string, QueueCpus>)
    ensures forall q :: InTable(table, q) ==>
              QueuePath(s, q) in files &&
              files[QueuePath(s, q)] == QueueValue(SiblingsHex(t, SteeringNode(s)), SiblingsStr(t, SteeringNode(s)), q.idx)
    ensures forall p :: p in files ==> exists q :: InTable(table, q) && p == QueuePath(s, q)
  {
    var hexs := SiblingsHex(t, SteeringNode(s));
    var strs := SiblingsStr(t, SteeringNode(s));
    var plan: map<Queue, QueueCpus> := map[];
    var i := 0;
    while i < |table|
      invariant 0 <= i <= |table|
      invariant forall q :: q in plan <==> InTable(table[..i], q)
      invariant forall q :: q in plan ==> plan[q] == QueueValue(hexs, strs, q.idx)
    {
      plan := SteerQueues(table[i].name, table[i].irqs, hexs, strs, plan);
      InTableSnoc(table, i);
      i := i + 1;
    }
    assert table[..|table|] == table;
    files := Files(s, plan);
    SteeringFiles(s, table, plan, hexs, strs);
  }

  /**
    What queue idx gets, in topology terms: nothing when the node has no
    cores, otherwise the sibling mask and list of the node's core at
    position idx mod (number of cores on the node).
   */
  lemma QueueValueSpec(t: Topology, node: int, idx: nat)
    ensures NodeCores(t, node) == [] ==> QueueValue(SiblingsHex(t, node), SiblingsStr(t, node), idx) == QueueCpus(None, None)
    ensures NodeCores(t, node) != [] ==>
              var c := NodeCores(t, node)[idx % |NodeCores(t, node)|];
              c < |t| &&
              QueueValue(SiblingsHex(t, node), SiblingsStr(t, node), idx) ==
              QueueCpus(Some(t[c].siblingsHex), Some(t[c].siblingsStr))
  {
    SiblingsInCoreOrder(t, node);
    SlotMod(|NodeCores(t, node)|, idx);
  }
}
