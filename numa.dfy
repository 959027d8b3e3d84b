/**
  The NUMA lookups of the Topology helper. The topology table, which the
  source keeps in a process-wide singleton filled from sysfs, is passed in
  explicitly: entry i describes core i.
 */
module Numa {
  import opened Digits
  import opened Codec

  /** What read_cpu_topology records for one core. */
  datatype CpuInfo = CpuInfo(numaNode: int, siblingsHex: string, siblingsStr: string)

  /** Indexed by core number; number_of_cores and get_core_cnt are its length. */
  type Topology = seq<CpuInfo>

  /** The indices i, in ascending order, whose record is on the given node. */
  function NodeCores(t: Topology, node: int): seq<nat>
    decreases |t|
  {
    if |t| == 0 then []
    else NodeCores(t[..|t| - 1], node) + (if t[|t| - 1].numaNode == node then [|t| - 1] else [])
  }

  /** The records on the given node, in core order (the `select` of get_numa0_hex and friends). */
  function NodeRecords(t: Topology, node: int): seq<CpuInfo>
    decreases |t|
  {
    if |t| == 0 then []
    else NodeRecords(t[..|t| - 1], node) + (if t[|t| - 1].numaNode == node then [t[|t| - 1]] else [])
  }

  /** get_numa_cores lists, strictly ascending, exactly the cores whose record names that node. */
  lemma {:induction false} NodeCoresSpec(t: Topology, node: int)
    ensures StrictlyAscending(NodeCores(t, node))
    ensures forall i :: i in NodeCores(t, node) <==> 0 <= i < |t| && t[i].numaNode == node
    decreases |t|
  {
    if |t| > 0 {
      var u := t[..|t| - 1];
      NodeCoresSpec(u, node);
      var prev := NodeCores(u, node);
      assert forall i :: 0 <= i < |u| ==> u[i] == t[i];
      if t[|u|].numaNode == node {
        AscendingSnoc(prev, |u|);
      } else {
        assert NodeCores(t, node) == prev;
      }
    }
  }

  /** A core is on at most one node: the lists of two different nodes share nothing. */
  lemma NodeCoresDisjoint(t: Topology, a: int, b: int)
    requires a != b
    ensures forall i :: i in NodeCores(t, a) ==> i !in NodeCores(t, b)
  {
    NodeCoresSpec(t, a);
    NodeCoresSpec(t, b);
  }

  /** On a machine whose cores are all on node 0 or node 1, the two lists together count every core. */
  lemma {:induction false} NodeCoresCover(t: Topology)
    requires forall i :: 0 <= i < |t| ==> t[i].numaNode == 0 || t[i].numaNode == 1
    ensures |NodeCores(t, 0)| + |NodeCores(t, 1)| == |t|
    decreases |t|
  {
    if |t| > 0 {
      var u := t[..|t| - 1];
      assert forall i :: 0 <= i < |u| ==> u[i] == t[i];
      NodeCoresCover(u);
    }
  }

  /**
    get_numa_cores: walks the table and pushes each index whose record is on
    node n. get_numa0_cores and get_numa1_cores are this with n = 0 and 1.
   */
  method GetNumaCores(t: Topology, node: int) returns (cores: seq<nat>)
    ensures cores == NodeCores(t, node)
  {
    cores := [];
    var i := 0;
    while i < |t|
      invariant 0 <= i <= |t|
      invariant cores == NodeCores(t[..i], node)
    {
      assert t[..i + 1][..i] == t[..i];
      if t[i].numaNode == node {
        cores := cores + [i];
      }
      i := i + 1;
    }
    assert t[..|t|] == t;
  }

  /** is_numa0? / is_numa1?: membership in that node's core list. */
  predicate IsNuma(t: Topology, node: int, c: nat)
  {
    c in NodeCores(t, node)
  }

  lemma IsNumaSpec(t: Topology, node: int, c: nat)
    ensures IsNuma(t, node, c) <==> c < |t| && t[c].numaNode == node
  {
    NodeCoresSpec(t, node);
  }

  /** `cores.map { |c| c if is_numa?(c) }.compact!`: the cores on that node, in input order. */
  function OnNode(t: Topology, node: int, cores: seq<nat>): seq<nat>
  {
    if cores == [] then []
    else (if IsNuma(t, node, cores[0]) then [cores[0]] else []) + OnNode(t, node, cores[1..])
  }

  /** a is obtained from b by deleting elements, so a keeps b's order. */
  predicate IsSubsequence(a: seq<nat>, b: seq<nat>)
    decreases |b|
  {
    if b == [] then a == []
    else (a != [] && a[0] == b[0] && IsSubsequence(a[1..], b[1..])) || IsSubsequence(a, b[1..])
  }

  /**
    The filter keeps the input's order and exactly the cores on the node,
    each as often as the input lists it, and never grows the list.
   */
  lemma OnNodeSpec(t: Topology, node: int, cores: seq<nat>)
    ensures IsSubsequence(OnNode(t, node, cores), cores)
    ensures forall c :: c in OnNode(t, node, cores) <==> c in cores && IsNuma(t, node, c)
    ensures |OnNode(t, node, cores)| <= |cores|
    ensures forall c :: multiset(OnNode(t, node, cores))[c] == if IsNuma(t, node, c) then multiset(cores)[c] else 0
  {
    OnNodeOrder(t, node, cores);
    OnNodeCounts(t, node, cores);
  }

  lemma {:induction false} OnNodeOrder(t: Topology, node: int, cores: seq<nat>)
    ensures IsSubsequence(OnNode(t, node, cores), cores)
    ensures forall c :: c in OnNode(t, node, cores) <==> c in cores && IsNuma(t, node, c)
    ensures |OnNode(t, node, cores)| <= |cores|
    decreases |cores|
  {
    if cores != [] {
      OnNodeOrder(t, node, cores[1..]);
      assert cores == [cores[0]] + cores[1..];
      var rest := OnNode(t, node, cores[1..]);
      if IsNuma(t, node, cores[0]) {
        assert OnNode(t, node, cores) == [cores[0]] + rest;
        assert (OnNode(t, node, cores))[1..] == rest;
      } else {
        assert OnNode(t, node, cores) == rest;
      }
    }
  }

  lemma {:induction false} OnNodeCounts(t: Topology, node: int, cores: seq<nat>)
    ensures forall c :: multiset(OnNode(t, node, cores))[c] == if IsNuma(t, node, c) then multiset(cores)[c] else 0
    decreases |cores|
  {
    if cores != [] {
      OnNodeCounts(t, node, cores[1..]);
      var head := if IsNuma(t, node, cores[0]) then [cores[0]] else [];
      assert OnNode(t, node, cores) == head + OnNode(t, node, cores[1..]);
      assert cores == [cores[0]] + cores[1..];
      assert multiset(cores) == multiset([cores[0]]) + multiset(cores[1..]);
      assert multiset(OnNode(t, node, cores)) == multiset(head) + multiset(OnNode(t, node, cores[1..]));
    }
  }

  /** If every core is on node 0 or node 1, the two split lists together keep all of them. */
  lemma {:induction false} OnNodeCount(t: Topology, cores: seq<nat>)
    requires forall c :: c in cores ==> IsNuma(t, 0, c) || IsNuma(t, 1, c)
    ensures |OnNode(t, 0, cores)| + |OnNode(t, 1, cores)| == |cores|
    decreases |cores|
  {
    if cores != [] {
      IsNumaSpec(t, 0, cores[0]);
      IsNumaSpec(t, 1, cores[0]);
      OnNodeCount(t, cores[1..]);
    }
  }

  /** get_numa_split: node-0 cores then node-1 cores of the list, each in input order. */
  function NumaSplit(t: Topology, cores: seq<nat>): (split: (seq<nat>, seq<nat>))
  {
    (OnNode(t, 0, cores), OnNode(t, 1, cores))
  }

  /**
    Each side of get_numa_split keeps the list's order and holds exactly the
    cores on its node; no core lands on both sides, a core on neither node is
    dropped, and when every core is on node 0 or 1 nothing is dropped.
   */
  lemma NumaSplitSpec(t: Topology, cores: seq<nat>)
    ensures IsSubsequence(NumaSplit(t, cores).0, cores) && IsSubsequence(NumaSplit(t, cores).1, cores)
    ensures forall c :: c in NumaSplit(t, cores).0 <==> c in cores && c < |t| && t[c].numaNode == 0
    ensures forall c :: c in NumaSplit(t, cores).1 <==> c in cores && c < |t| && t[c].numaNode == 1
    ensures forall c :: c in NumaSplit(t, cores).0 ==> c !in NumaSplit(t, cores).1
    ensures (forall c :: c in cores ==> c < |t| && (t[c].numaNode == 0 || t[c].numaNode == 1)) ==>
              |NumaSplit(t, cores).0| + |NumaSplit(t, cores).1| == |cores|
    ensures forall c: nat :: multiset(NumaSplit(t, cores).0)[c] ==
              if c < |t| && t[c].numaNode == 0 then multiset(cores)[c] else 0
    ensures forall c: nat :: multiset(NumaSplit(t, cores).1)[c] ==
              if c < |t| && t[c].numaNode == 1 then multiset(cores)[c] else 0
  {
    var split := NumaSplit(t, cores);
    assert split.0 == OnNode(t, 0, cores) && split.1 == OnNode(t, 1, cores);
    NodeSide(t, 0, cores);
    NodeSide(t, 1, cores);
    if forall c :: c in cores ==> c < |t| && (t[c].numaNode == 0 || t[c].numaNode == 1) {
      TwoNodeCount(t, cores);
    }
  }

  lemma TwoNodeCount(t: Topology, cores: seq<nat>)
    requires forall c :: c in cores ==> c < |t| && (t[c].numaNode == 0 || t[c].numaNode == 1)
    ensures |OnNode(t, 0, cores)| + |OnNode(t, 1, cores)| == |cores|
  {
    forall c | c in cores
      ensures IsNuma(t, 0, c) || IsNuma(t, 1, c)
    {
      IsNumaSpec(t, 0, c);
      IsNumaSpec(t, 1, c);
    }
    OnNodeCount(t, cores);
  }

  /** One side of the split, with the node test written out on the table. */
  lemma NodeSide(t: Topology, node: int, cores: seq<nat>)
    ensures IsSubsequence(OnNode(t, node, cores), cores)
    ensures forall c :: c in OnNode(t, node, cores) <==> c in cores && c < |t| && t[c].numaNode == node
    ensures forall c: nat :: multiset(OnNode(t, node, cores))[c] ==
              if c < |t| && t[c].numaNode == node then multiset(cores)[c] else 0
  {
    OnNodeSpec(t, node, cores);
    forall c: nat
      ensures IsNuma(t, node, c) <==> c < |t| && t[c].numaNode == node
    {
      IsNumaSpec(t, node, c);
    }
  }

  /** hexmap_to_core_list: decode the mask to a core list, then split it by node. */
  function HexmapToCoreList(t: Topology, hexmap: string, coreCount: nat): (r: Result<(seq<nat>, seq<nat>)>)
    requires AllDigits(RemoveCommas(hexmap), 16)
    ensures r.Err? <==> ',' !in hexmap
  {
    match HexmapToCores(hexmap, coreCount)
    case Err(e) => Err(e)
    case Ok(cores) => Ok(NumaSplit(t, cores))
  }

  /**
    Decoding a mask core_list_to_hexmap wrote for the list S (with a comma
    put in) puts position i on a node's side exactly when core
    coreCount-1-i is in S and core i is on that node.
   */
  lemma HexmapToCoreListMirrors(t: Topology, s: seq<nat>, coreCount: nat, hexmap: string)
    requires coreCount >= 1
    requires ',' in hexmap && RemoveCommas(hexmap) == CoreListToHexmap(s, coreCount)
    ensures HexmapToCoreList(t, hexmap, coreCount).Ok?
    ensures forall i :: i in HexmapToCoreList(t, hexmap, coreCount).value.0 <==>
                        Mirrored(s, coreCount, i) && i < |t| && t[i].numaNode == 0
    ensures forall i :: i in HexmapToCoreList(t, hexmap, coreCount).value.1 <==>
                        Mirrored(s, coreCount, i) && i < |t| && t[i].numaNode == 1
  {
    CoreListToHexmapSpec(s, coreCount);
    DecodeMirrors(s, coreCount, hexmap);
    var cs := HexmapToCores(hexmap, coreCount).value;
    assert HexmapToCoreList(t, hexmap, coreCount) == Ok(NumaSplit(t, cs));
    OnNodeMirrors(t, 0, cs, s, coreCount);
    OnNodeMirrors(t, 1, cs, s, coreCount);
  }

  /** Splitting a mirrored decode keeps, on each side, the mirrored cores on that node. */
  lemma OnNodeMirrors(t: Topology, node: int, cs: seq<nat>, s: seq<nat>, coreCount: nat)
    requires forall i :: i in cs <==> Mirrored(s, coreCount, i)
    ensures forall i :: i in OnNode(t, node, cs) <==>
                        Mirrored(s, coreCount, i) && i < |t| && t[i].numaNode == node
  {
    OnNodeSpec(t, node, cs);
    forall i: nat
      ensures i in OnNode(t, node, cs) <==> i in cs && i < |t| && t[i].numaNode == node
    {
      IsNumaSpec(t, node, i);
    }
  }

  /** get_numa0_hex / get_numa1_hex: the sibling masks of the node's cores, in core order. */
  function SiblingsHex(t: Topology, node: int): seq<string>
  {
    var rs := NodeRecords(t, node);
    seq(|rs|, k requires 0 <= k < |rs| => rs[k].siblingsHex)
  }

  /** get_numa0_str / get_numa1_str: the sibling lists of the node's cores, in core order. */
  function SiblingsStr(t: Topology, node: int): seq<string>
  {
    var rs := NodeRecords(t, node);
    seq(|rs|, k requires 0 <= k < |rs| => rs[k].siblingsStr)
  }

  lemma {:induction false} NodeRecordsAt(t: Topology, node: int)
    ensures |NodeRecords(t, node)| == |NodeCores(t, node)|
    ensures forall k :: 0 <= k < |NodeCores(t, node)| ==>
              NodeCores(t, node)[k] < |t| && NodeRecords(t, node)[k] == t[NodeCores(t, node)[k]]
    decreases |t|
  {
    if |t| > 0 {
      var u := t[..|t| - 1];
      NodeRecordsAt(u, node);
      assert forall i :: 0 <= i < |u| ==> u[i] == t[i];
    }
  }

  /**
    The k-th entry of SiblingsHex and SiblingsStr describes the k-th core of
    get_numa_cores for the same node, so the two lists and the core list have
    one length and line up.
   */
  lemma SiblingsInCoreOrder(t: Topology, node: int)
    ensures |SiblingsHex(t, node)| == |NodeCores(t, node)| == |SiblingsStr(t, node)|
    ensures forall k :: 0 <= k < |NodeCores(t, node)| ==>
              NodeCores(t, node)[k] < |t| &&
              SiblingsHex(t, node)[k] == t[NodeCores(t, node)[k]].siblingsHex &&
              SiblingsStr(t, node)[k] == t[NodeCores(t, node)[k]].siblingsStr
  {
    NodeRecordsAt(t, node);
  }
}
