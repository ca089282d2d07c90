/** Flow soundness of graph-partition signatures: what the scheduler guarantees about a graph, and
    exactly when every partition finds its declared inputs. */
module PartitionFlow {
  import opened PartitionModel

  // ----- what the scheduler guarantees

  function ProducedBy(ps: seq<Partition>): set<Name> {
    set p, x | p in ps && x in Produced(p) :: x
  }

  /** Names that exist before partition `i` runs. */
  function Known(g: Graph, ps: seq<Partition>, i: nat): set<Name>
    requires i <= |ps|
  {
    g.inputs + ProducedBy(ps[..i])
  }

  /** Storage that running `p` looks at, changes or frees. */
  function Touched(g: Graph, p: Partition): set<Name> {
    RealNames(g, Accessed(p) + Produced(p)) + Freed(p)
  }

  predicate At(ps: seq<Partition>, i: nat, k: nat) {
    i < |ps| && k < |ps[i]|
  }

  /** Node `k` of partition `i` produces new names, accesses names that exist, aliases storage that
      exists, and frees only what exists, is not touched again and does not back a graph output. */
  ghost predicate NodeScheduled(g: Graph, ps: seq<Partition>, i: nat, k: nat)
    requires At(ps, i, k)
  {
    var n, known := ps[i][k], Known(g, ps, i) + Produced(ps[i][..k]);
    && n.outputs !! known
    && (n.readNames + n.writeNames - n.outputs) * g.nodeNames <= known
    && (forall x | x in n.outputs :: Real(g, x) in known + n.outputs)
    && n.lastUsage * g.nodeNames <= known + n.outputs
    && n.lastUsage !! Touched(g, ps[i][k + 1..])
    && (forall j | i < j < |ps| :: n.lastUsage !! Touched(g, ps[j]))
    && n.lastUsage !! RealNames(g, g.outputs)
  }

  ghost predicate Scheduled(g: Graph, ps: seq<Partition>) {
    && g.nodeNames == g.inputs + ProducedBy(ps)
    && g.realName.Keys <= ProducedBy(ps)
    && g.buffers.Keys <= ProducedBy(ps)
    && (forall i: nat, k: nat | At(ps, i, k) :: NodeScheduled(g, ps, i, k))
  }

  // ----- what that means for whole partitions

  lemma KnownStep(g: Graph, ps: seq<Partition>, i: nat)
    requires i < |ps|
    ensures Known(g, ps, i + 1) == Known(g, ps, i) + Produced(ps[i])
  {
    assert ps[..i + 1] == ps[..i] + [ps[i]];
  }

  lemma KnownMonotone(g: Graph, ps: seq<Partition>, i: nat, j: nat)
    requires i <= j <= |ps|
    ensures Known(g, ps, i) <= Known(g, ps, j)
  {
    forall p | p in ps[..i] ensures p in ps[..j] {
      assert p in ps[..j][..i];
    }
  }

  lemma PartitionNames(g: Graph, ps: seq<Partition>, i: nat)
    requires Scheduled(g, ps) && i < |ps|
    ensures Produced(ps[i]) !! Known(g, ps, i)
    ensures (Accessed(ps[i]) - Produced(ps[i])) * g.nodeNames <= Known(g, ps, i)
    ensures Freed(ps[i]) * g.nodeNames <= Known(g, ps, i + 1)
    ensures forall x | x in Produced(ps[i]) :: Real(g, x) in Known(g, ps, i + 1)
  {
    var p := ps[i];
    KnownStep(g, ps, i);
    forall k | 0 <= k < |p|
      ensures NodeScheduled(g, ps, i, k) && Produced(p[..k]) <= Produced(p) && p[k].outputs <= Produced(p)
    {
      assert At(ps, i, k);
    }
  }

  lemma FreedIsDead(g: Graph, ps: seq<Partition>, i: nat)
    requires Scheduled(g, ps) && i < |ps|
    ensures forall j | i < j < |ps| :: Freed(ps[i]) !! Touched(g, ps[j])
    ensures Freed(ps[i]) !! RealNames(g, g.outputs)
  {
    forall x | x in Freed(ps[i])
      ensures x !in RealNames(g, g.outputs) && forall j | i < j < |ps| :: x !in Touched(g, ps[j])
    {
      var k :| 0 <= k < |ps[i]| && x in ps[i][k].lastUsage;
      assert At(ps, i, k) && NodeScheduled(g, ps, i, k);
    }
  }

  lemma RealIsKnown(g: Graph, ps: seq<Partition>, i: nat, x: Name)
    requires Scheduled(g, ps) && i <= |ps| && x in Known(g, ps, i)
    ensures Real(g, x) in Known(g, ps, i)
  {
    if x in ProducedBy(ps[..i]) {
      var j :| 0 <= j < i && x in Produced(ps[j]);
      PartitionNames(g, ps, j);
      KnownMonotone(g, ps, j + 1, i);
    } else {
      assert x !in g.realName by { GraphInputIsStored(g, ps, x); }
    }
  }

  /** A name that owns storage: not an alias, not laid out as nothing. */
  predicate Stored(g: Graph, x: Name) {
    x !in g.realName && !IsNoneLayout(g, x)
  }

  lemma GraphInputIsStored(g: Graph, ps: seq<Partition>, x: Name)
    requires Scheduled(g, ps) && x in g.inputs
    ensures Stored(g, x) && x !in ProducedBy(ps)
  {
    if x in ProducedBy(ps) {
      var i :| 0 <= i < |ps| && x in Produced(ps[i]);
      PartitionNames(g, ps, i);
    }
  }

  // ----- running the signatures

  function Deallocated(s: Signature): set<Name> {
    set x | x in s.inputDeallocation && s.inputDeallocation[x]
  }

  /** The caller's live buffers after a partition returns. */
  function After(s: Signature, live: set<Name>): set<Name> {
    live - Deallocated(s) + s.outputNodes
  }

  /** Running the partitions from `live`, each finds its declared inputs, and all of `wanted` is
      live at the end. */
  predicate Flows(signatures: seq<Signature>, live: set<Name>, wanted: set<Name>) {
    if signatures == [] then wanted <= live
    else signatures[0].inputNodes <= live && Flows(signatures[1..], After(signatures[0], live), wanted)
  }

  /** The buffers that back graph outputs. */
  function Wanted(g: Graph): set<Name> {
    set o | o in g.outputs && Real(g, o) in g.nodeNames && !IsNoneLayout(g, Real(g, o)) :: Real(g, o)
  }

  /** What a partition frees on behalf of earlier ones, and the storage behind what it accesses,
      has storage. */
  predicate TakesStored(g: Graph, p: Partition) {
    && (forall x | x in Freed(p) - Produced(p) :: x in g.nodeNames ==> Stored(g, x))
    && (forall x | x in Accessed(p) - Produced(p) ::
          !IsNoneLayout(g, x) && Real(g, x) in g.nodeNames ==> !IsNoneLayout(g, Real(g, x)))
  }

  predicate AllTakeStored(g: Graph, ps: seq<Partition>) {
    forall p | p in ps :: TakesStored(g, p)
  }

  lemma InputsStored(g: Graph, p: Partition)
    ensures TakesStored(g, p) <==> forall x | x in InputNames(g, p) * g.nodeNames :: Stored(g, x)
  {
    if forall x | x in InputNames(g, p) * g.nodeNames :: Stored(g, x) {
      forall x | x in Accessed(p) - Produced(p) && !IsNoneLayout(g, x) && Real(g, x) in g.nodeNames
        ensures !IsNoneLayout(g, Real(g, x))
      {
        assert x in (set y | y in Accessed(p) && !IsNoneLayout(g, y)) - Produced(p);
        assert Stored(g, Real(g, x));
      }
    }
  }

  // ----- the invariant between partitions

  lemma UnmetComesFrom(g: Graph, ps: seq<Partition>, i: nat, x: Name)
    requires i <= |ps| && x in Unmet(g, ps[i..])
    ensures x in g.outputs || exists j :: i <= j < |ps| && x in InputNames(g, ps[j])
    decreases |ps| - i
  {
    if i < |ps| {
      assert ps[i..][1..] == ps[i + 1..];
      if x !in InputNames(g, ps[i]) {
        UnmetComesFrom(g, ps, i + 1, x);
      }
    }
  }

  /** An alias is never returned under its own name, so a graph output that is an alias stays unmet
      from the end of the walk to its start. */
  lemma AliasStaysUnmet(g: Graph, ps: seq<Partition>, o: Name)
    requires o in g.outputs && o in g.realName
    ensures o in Unmet(g, ps)
  {
    if ps != [] {
      AliasStaysUnmet(g, ps[1..], o);
    }
  }

  lemma InputsAreTouched(g: Graph, p: Partition)
    ensures InputNames(g, p) <= Touched(g, p)
  {}

  ghost predicate LiveAt(g: Graph, ps: seq<Partition>, i: nat, live: set<Name>)
    requires i <= |ps|
  {
    && live <= Known(g, ps, i)
    && (forall x | x in Unmet(g, ps[i..]) * Known(g, ps, i) :: Stored(g, x) ==> x in live)
    && (forall o | o in g.outputs * Known(g, ps, i) ::
          o in g.realName && !IsNoneLayout(g, Real(g, o)) ==> Real(g, o) in live)
  }

  /** A freed name is dead: no later partition and no graph output asks for it. */
  lemma FreedIsMet(g: Graph, ps: seq<Partition>, i: nat, x: Name)
    requires Scheduled(g, ps) && i < |ps|
    requires x in Freed(ps[i]) && x !in g.realName
    ensures x !in Unmet(g, ps[i + 1..])
  {
    FreedIsDead(g, ps, i);
    assert x in g.outputs ==> Real(g, x) in RealNames(g, g.outputs);
    forall j | i < j < |ps| ensures x !in InputNames(g, ps[j]) {
      InputsAreTouched(g, ps[j]);
    }
    if x in Unmet(g, ps[i + 1..]) {
      UnmetComesFrom(g, ps, i + 1, x);
    }
  }

  lemma InputsLive(g: Graph, ps: seq<Partition>, i: nat, live: set<Name>)
    requires Scheduled(g, ps) && i < |ps| && TakesStored(g, ps[i])
    requires LiveAt(g, ps, i, live)
    ensures InputNames(g, ps[i]) * g.nodeNames <= live
  {
    assert ps[i..][1..] == ps[i + 1..];
    PartitionNames(g, ps, i);
    InputsStored(g, ps[i]);
    KnownStep(g, ps, i);
    forall x | x in InputNames(g, ps[i]) * g.nodeNames ensures x in live {
      if y :| y in Accessed(ps[i]) - Produced(ps[i]) && !IsNoneLayout(g, y) && Real(g, y) == x {
        assert y in g.realName ==> y in g.nodeNames;
        RealIsKnown(g, ps, i, y);
      }
      assert x in Unmet(g, ps[i..]) * Known(g, ps, i);
    }
  }

  lemma LiveStep(g: Graph, ps: seq<Partition>, i: nat, live: set<Name>, skip: bool)
    requires Scheduled(g, ps) && i < |ps| && TakesStored(g, ps[i])
    requires LiveAt(g, ps, i, live)
    ensures LiveAt(g, ps, i + 1, After(SignatureOf(g, ps[i], Unmet(g, ps[i + 1..]), skip), live))
  {
    var p, unmet := ps[i], Unmet(g, ps[i + 1..]);
    var s := SignatureOf(g, p, unmet, skip);
    assert ps[i..][1..] == ps[i + 1..];
    PartitionNames(g, ps, i);
    KnownStep(g, ps, i);
    InputsLive(g, ps, i, live);
    forall x | x in s.outputNodes ensures x in Known(g, ps, i + 1) {
      var z :| z in Produced(p) * unmet + (InputNames(g, p) * g.nodeNames - Freed(p)) && Real(g, z) == x;
      RealIsKnown(g, ps, i + 1, z);
    }
    forall x | x in unmet * Known(g, ps, i + 1) && Stored(g, x) ensures x in After(s, live) {
      if x in Freed(p) {
        FreedIsMet(g, ps, i, x);
      } else if x in Produced(p) {
        assert Real(g, x) in ReturnedNames(g, p, unmet);
      } else if x !in ReturnedNames(g, p, unmet) {
        assert x in Unmet(g, ps[i..]);
      }
    }
    forall o | o in g.outputs * Known(g, ps, i + 1) && o in g.realName && !IsNoneLayout(g, Real(g, o))
      ensures Real(g, o) in After(s, live)
    {
      FreedIsDead(g, ps, i);
      AliasStaysUnmet(g, ps[i + 1..], o);
      if o in Produced(p) {
        assert Real(g, o) in ReturnedNames(g, p, unmet);
      } else {
        assert Real(g, o) in RealNames(g, g.outputs);
      }
    }
  }

  // ----- flow soundness

  lemma LiveAtStart(g: Graph, ps: seq<Partition>)
    requires Scheduled(g, ps)
    ensures LiveAt(g, ps, 0, g.inputs)
  {
    forall o | o in g.inputs ensures o !in g.realName { GraphInputIsStored(g, ps, o); }
  }

  lemma LiveAtEnd(g: Graph, ps: seq<Partition>, live: set<Name>)
    requires Scheduled(g, ps) && LiveAt(g, ps, |ps|, live)
    ensures Wanted(g) <= live
  {
    assert ps[..|ps|] == ps && ps[|ps|..] == [];
  }

  lemma {:induction false} FlowsFrom(g: Graph, ps: seq<Partition>, skips: seq<bool>, i: nat, live: set<Name>)
    requires Scheduled(g, ps) && AllTakeStored(g, ps) && |skips| == |ps|
    requires i <= |ps| && LiveAt(g, ps, i, live)
    ensures Flows(Signatures(g, ps[i..], skips[i..]), live, Wanted(g))
    decreases |ps| - i
  {
    if i == |ps| {
      LiveAtEnd(g, ps, live);
    } else {
      assert ps[i..][1..] == ps[i + 1..] && skips[i..][1..] == skips[i + 1..];
      var s := SignatureOf(g, ps[i], Unmet(g, ps[i + 1..]), skips[i]);
      InputsLive(g, ps, i, live);
      LiveStep(g, ps, i, live, skips[i]);
      FlowsFrom(g, ps, skips, i + 1, After(s, live));
    }
  }

  /** Only names with storage ever become live, so a partition that declares any other input does
      not find it. */
  lemma {:induction false} FlowsTakeStored(
    g: Graph, ps: seq<Partition>, skips: seq<bool>, live: set<Name>, wanted: set<Name>)
    requires |skips| == |ps| && Flows(Signatures(g, ps, skips), live, wanted)
    requires forall x | x in live :: Stored(g, x)
    ensures AllTakeStored(g, ps)
  {
    if ps != [] {
      var s := SignatureOf(g, ps[0], Unmet(g, ps[1..]), skips[0]);
      FlowsTakeStored(g, ps[1..], skips[1..], After(s, live), wanted);
      InputsStored(g, ps[0]);
      assert ps == [ps[0]] + ps[1..];
    }
  }

  /** Flow soundness, exactly: on a scheduled graph, every partition finds its declared inputs and
      every graph output is live at the end if and only if no partition takes a name without
      storage. */
  lemma FlowExact(g: Graph, ps: seq<Partition>, skips: seq<bool>)
    requires Scheduled(g, ps) && |skips| == |ps|
    ensures Flows(Signatures(g, ps, skips), g.inputs, Wanted(g)) <==> AllTakeStored(g, ps)
  {
    if AllTakeStored(g, ps) {
      LiveAtStart(g, ps);
      FlowsFrom(g, ps, skips, 0, g.inputs);
      assert ps[0..] == ps && skips[0..] == skips;
    }
    if Flows(Signatures(g, ps, skips), g.inputs, Wanted(g)) {
      forall x | x in g.inputs ensures Stored(g, x) { GraphInputIsStored(g, ps, x); }
      FlowsTakeStored(g, ps, skips, g.inputs, Wanted(g));
    }
  }

  // The family that breaks flow: a buffer laid out as nothing that a later partition uses last.
  const MAKES_NOTHING: Partition := [Node({"t"}, {}, {}, {})]
  const FREES_NOTHING: Partition := [Node({}, {"t"}, {}, {"t"})]
  const LATE_FREE: Graph := GraphData({}, {}, {}, {"t"}, map["t" := Buffer(true, false)], map[])

  const LATE_FREE_PARTITIONS: seq<Partition> := [MAKES_NOTHING, FREES_NOTHING]

  lemma LateFreeNames()
    ensures Produced(MAKES_NOTHING) == {"t"} && Produced(FREES_NOTHING) == {}
    ensures ProducedBy(LATE_FREE_PARTITIONS) == {"t"}
    ensures Known(LATE_FREE, LATE_FREE_PARTITIONS, 0) == {}
    ensures Known(LATE_FREE, LATE_FREE_PARTITIONS, 1) == {"t"}
  {
    var ps := LATE_FREE_PARTITIONS;
    assert MAKES_NOTHING[0].outputs == {"t"};
    assert ps[0] == MAKES_NOTHING && ps[1] == FREES_NOTHING;
    assert ps[..0] == [] && ps[..1] == [ps[0]];
  }

  lemma LateFreeIsScheduled()
    ensures Scheduled(LATE_FREE, LATE_FREE_PARTITIONS)
  {
    var g, ps := LATE_FREE, LATE_FREE_PARTITIONS;
    LateFreeNames();
    assert NodeScheduled(g, ps, 0, 0) by { assert ps[0][..0] == []; }
    assert NodeScheduled(g, ps, 1, 0) by { assert ps[1][1..] == []; }
    assert forall i: nat, k: nat | At(ps, i, k) :: k == 0 && (i == 0 || i == 1);
  }

  lemma LateFreeBreaksFlow()
    ensures Scheduled(LATE_FREE, LATE_FREE_PARTITIONS)
    ensures !Flows(Signatures(LATE_FREE, LATE_FREE_PARTITIONS, [false, false]), {}, Wanted(LATE_FREE))
  {
    var ps := LATE_FREE_PARTITIONS;
    LateFreeIsScheduled();
    FlowExact(LATE_FREE, ps, [false, false]);
    assert FREES_NOTHING[0].lastUsage == {"t"} && "t" in Freed(FREES_NOTHING) - Produced(FREES_NOTHING);
    assert IsNoneLayout(LATE_FREE, "t") && !TakesStored(LATE_FREE, FREES_NOTHING);
    assert ps[1] in ps;
  }

  /** A scheduled graph never meets the KeyError. */
  lemma ReturnedAreKnown(g: Graph, ps: seq<Partition>, i: nat)
    requires Scheduled(g, ps) && i < |ps|
    ensures ReturnedNames(g, ps[i], Unmet(g, ps[i + 1..])) <= g.nodeNames
  {
    var p, unmet := ps[i], Unmet(g, ps[i + 1..]);
    assert ps[..|ps|] == ps;
    KnownStep(g, ps, i);
    KnownMonotone(g, ps, i + 1, |ps|);
    forall x | x in ReturnedNames(g, p, unmet) ensures x in g.nodeNames {
      var z :| z in Produced(p) * unmet + (InputNames(g, p) * g.nodeNames - Freed(p)) && Real(g, z) == x;
      RealIsKnown(g, ps, |ps|, z);
    }
  }

  lemma {:induction false} NoLookupFails(g: Graph, ps: seq<Partition>, i: nat)
    requires Scheduled(g, ps) && i <= |ps|
    ensures !SomeLookupFails(g, ps[i..])
    decreases |ps| - i
  {
    if i < |ps| {
      assert ps[i..][1..] == ps[i + 1..];
      ReturnedAreKnown(g, ps, i);
      NoLookupFails(g, ps, i + 1);
    }
  }

  // ----- liveness exactness

  /** A node that makes an alias accesses the storage it aliases, unless it makes that storage too. */
  ghost predicate AliasesAreAccessed(g: Graph, ps: seq<Partition>) {
    forall i: nat, k: nat | At(ps, i, k) :: forall x | x in ps[i][k].outputs && x in g.realName ::
      Real(g, x) in ps[i][k].outputs || AccessesReal(g, ps[i][k], Real(g, x))
  }

  predicate AccessesReal(g: Graph, n: Node, x: Name) {
    exists y | y in n.readNames + n.writeNames - n.outputs :: !IsNoneLayout(g, y) && Real(g, y) == x
  }

  lemma {:induction false} AliasIsInput(g: Graph, ps: seq<Partition>, i: nat, k: nat, x: Name)
    requires Scheduled(g, ps) && AliasesAreAccessed(g, ps) && At(ps, i, k)
    requires x in ps[i][k].outputs && x in g.realName && Real(g, x) !in Produced(ps[i])
    ensures Real(g, x) in InputNames(g, ps[i])
    decreases k
  {
    var p, n := ps[i], ps[i][k];
    assert n in p && AccessesReal(g, n, Real(g, x));
    var y :| y in n.readNames + n.writeNames - n.outputs && !IsNoneLayout(g, y) && Real(g, y) == Real(g, x);
    if y !in Produced(p) {
      assert y in (set z | z in Accessed(p) && !IsNoneLayout(g, z)) - Produced(p);
    } else {
      assert NodeScheduled(g, ps, i, k);
      PartitionNames(g, ps, i);
      var m := p[..k];
      assert y in g.nodeNames by { assert p in ps; }
      assert y in Produced(m);
      var l :| 0 <= l < k && y in m[l].outputs;
      assert At(ps, i, l) && y in p[l].outputs;
      AliasIsInput(g, ps, i, l, y);
    }
  }
}
