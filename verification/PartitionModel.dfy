/** Graph-partition signatures: `get_graph_partition_signature_patched` of vllm/env_override.py.

    A scheduler node is reduced to the buffer names it produces, reads, writes and uses last.
    `OrderedSet` becomes `set`.  Functions here say what one partition takes, returns and frees
    when a given set of names is still unmet after it; the method below is the source's reverse
    walk, proved to compute them. */
module PartitionModel {
  import opened Wrappers

  type Name = string

  datatype Node = Node(outputs: set<Name>, readNames: set<Name>, writeNames: set<Name>, lastUsage: set<Name>)

  type Partition = seq<Node>

  datatype Buffer = Buffer(noneLayout: bool, mutationOutput: bool)

  /** What the walk reads of the scheduler and of `V.graph`.  `nodeNames` are the keys of
      `get_name_to_nodes()`; `realName` is `mutation_real_name`. */
  datatype GraphData = GraphData(
    inputs: set<Name>,
    outputs: set<Name>,
    constants: set<Name>,
    nodeNames: set<Name>,
    buffers: map<Name, Buffer>,
    realName: map<Name, Name>)

  /** Real names are final: no real name is itself an alias. */
  predicate Settled(g: GraphData) {
    forall x | x in g.realName :: g.realName[x] !in g.realName
  }

  type Graph = g: GraphData | Settled(g) witness GraphData({}, {}, {}, {}, map[], map[])

  datatype Signature = Signature(
    inputNodes: set<Name>,
    outputNodes: set<Name>,
    inputDeallocation: map<Name, bool>,
    skipCudagraph: bool,
    constantNames: set<Name>)

  predicate IsNoneLayout(g: Graph, name: Name)
    decreases if name in g.realName then 1 else 0
  {
    name in g.buffers &&
    g.buffers[name].noneLayout &&
    if g.buffers[name].mutationOutput && name in g.realName && g.realName[name] != "" then
      IsNoneLayout(g, g.realName[name])
    else
      true
  }

  function Real(g: Graph, name: Name): Name {
    if name in g.realName then g.realName[name] else name
  }

  function RealNames(g: Graph, names: set<Name>): set<Name> {
    set x | x in names :: Real(g, x)
  }

  // ----- names a run of nodes mentions

  function Produced(p: Partition): set<Name> {
    set n, x | n in p && x in n.outputs :: x
  }

  function Accessed(p: Partition): set<Name> {
    set n, x | n in p && x in n.readNames + n.writeNames :: x
  }

  function Freed(p: Partition): set<Name> {
    set n, x | n in p && x in n.lastUsage :: x
  }

  // ----- one partition

  /** `partition_input_names` */
  function InputNames(g: Graph, p: Partition): set<Name> {
    var direct := (set x | x in Accessed(p) && !IsNoneLayout(g, x)) - Produced(p);
    RealNames(g, direct) + (Freed(p) - Produced(p)) * g.nodeNames
  }

  /** `returned_output_names`, after the final renaming */
  function ReturnedNames(g: Graph, p: Partition, unmet: set<Name>): set<Name> {
    RealNames(g, Produced(p) * unmet + (InputNames(g, p) * g.nodeNames - Freed(p)))
  }

  function UnmetBefore(g: Graph, p: Partition, unmet: set<Name>): set<Name> {
    InputNames(g, p) + (unmet - ReturnedNames(g, p, unmet))
  }

  function SignatureOf(g: Graph, p: Partition, unmet: set<Name>, skip: bool): Signature {
    Signature(
      InputNames(g, p) * g.nodeNames,
      set x | x in ReturnedNames(g, p, unmet) && !IsNoneLayout(g, x),
      map x | x in InputNames(g, p) * g.nodeNames :: x in Freed(p),
      skip,
      InputNames(g, p) * g.constants)
  }

  /** Building `output_nodes` raises KeyError. */
  predicate LookupFails(g: Graph, p: Partition, unmet: set<Name>) {
    exists x | x in ReturnedNames(g, p, unmet) :: !IsNoneLayout(g, x) && x !in g.nodeNames
  }

  // ----- the reverse walk

  /** The names still unmet before the given partitions, which are the last ones of the graph. */
  function Unmet(g: Graph, ps: seq<Partition>): set<Name> {
    if ps == [] then g.outputs else UnmetBefore(g, ps[0], Unmet(g, ps[1..]))
  }

  function Signatures(g: Graph, ps: seq<Partition>, skips: seq<bool>): (r: seq<Signature>)
    requires |ps| == |skips|
  {
    if ps == [] then []
    else [SignatureOf(g, ps[0], Unmet(g, ps[1..]), skips[0])] + Signatures(g, ps[1..], skips[1..])
  }

  /** The walk meets a KeyError somewhere. */
  predicate SomeLookupFails(g: Graph, ps: seq<Partition>) {
    ps != [] && (LookupFails(g, ps[0], Unmet(g, ps[1..])) || SomeLookupFails(g, ps[1..]))
  }

  lemma SomeLookupFailsLater(g: Graph, ps: seq<Partition>, m: nat)
    requires m <= |ps| && SomeLookupFails(g, ps[m..])
    ensures SomeLookupFails(g, ps)
  {
    if m == 0 {
      assert ps[0..] == ps;
    } else {
      assert ps[1..][m - 1..] == ps[m..];
      SomeLookupFailsLater(g, ps[1..], m - 1);
    }
  }

  function Min(a: nat, b: nat): nat { if a <= b then a else b }

  method NamesOf(p: Partition) returns (produced: set<Name>, accessed: set<Name>, freed: set<Name>)
    ensures produced == Produced(p) && accessed == Accessed(p) && freed == Freed(p)
  {
    produced, accessed, freed := {}, {}, {};
    for k := 0 to |p|
      invariant produced == Produced(p[..k])
      invariant accessed == Accessed(p[..k])
      invariant freed == Freed(p[..k])
    {
      assert p[..k + 1] == p[..k] + [p[k]];
      produced := produced + p[k].outputs;
      accessed := accessed + (p[k].readNames + p[k].writeNames);
      freed := freed + p[k].lastUsage;
    }
    assert p[..|p|] == p;
  }

  /** One iteration of the walk: the signature of `p` and what is unmet before it. */
  method SignPartition(g: Graph, p: Partition, unmet: set<Name>, skip: bool)
    returns (signature: Option<Signature>, unmetBefore: set<Name>)
    ensures signature == if LookupFails(g, p, unmet) then None else Some(SignatureOf(g, p, unmet, skip))
    ensures unmetBefore == UnmetBefore(g, p, unmet)
  {
    var produced, accessed, freed := NamesOf(p);
    var returned := produced * unmet;
    var inputNames := (set x | x in accessed && !IsNoneLayout(g, x)) - produced;
    inputNames := set x | x in inputNames :: Real(g, x);
    inputNames := inputNames + (freed - produced) * g.nodeNames;
    assert inputNames == InputNames(g, p);
    returned := returned + (inputNames * g.nodeNames - freed);
    returned := set x | x in returned :: Real(g, x);
    assert returned == ReturnedNames(g, p, unmet);
    unmetBefore := inputNames + (unmet - returned);
    if exists x | x in returned :: !IsNoneLayout(g, x) && x !in g.nodeNames {
      return None, unmetBefore;
    }
    signature := Some(Signature(
      inputNames * g.nodeNames,
      set x | x in returned && !IsNoneLayout(g, x),
      map x | x in inputNames * g.nodeNames :: x in freed,
      skip,
      inputNames * g.constants));
  }

  /** The source's walk.  `zip` of the two reversed lists stops at the shorter one, so only the
      last `n` partitions are signed. */
  method GraphPartitionSignatures(g: Graph, partitions: seq<Partition>, skipCudagraphs: seq<bool>)
    returns (r: Option<seq<Signature>>)
    ensures
      var n := Min(|partitions|, |skipCudagraphs|);
      var ps, skips := partitions[|partitions| - n..], skipCudagraphs[|skipCudagraphs| - n..];
      r == if SomeLookupFails(g, ps) then None else Some(Signatures(g, ps, skips))
  {
    var n := Min(|partitions|, |skipCudagraphs|);
    var ps, skips := partitions[|partitions| - n..], skipCudagraphs[|skipCudagraphs| - n..];
    var signatures: seq<Signature> := [];
    var unmet := g.outputs;
    for m := n downto 0
      invariant unmet == Unmet(g, ps[m..])
      invariant signatures == Signatures(g, ps[m..], skips[m..])
      invariant !SomeLookupFails(g, ps[m..])
    {
      assert ps[m..][1..] == ps[m + 1..] && skips[m..][1..] == skips[m + 1..];
      var signature, before := SignPartition(g, ps[m], unmet, skips[m]);
      if signature.None? {
        assert SomeLookupFails(g, ps[m..]);
        SomeLookupFailsLater(g, ps, m);
        return None;
      }
      signatures, unmet := [signature.value] + signatures, before;
    }
    assert ps[0..] == ps && skips[0..] == skips;
    r := Some(signatures);
  }
}
