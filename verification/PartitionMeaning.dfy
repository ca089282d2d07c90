/** Partitioning preserves the meaning of a graph.

    Kernels are arbitrary functions of the storage they may look at.  The reference run executes all
    nodes in one environment and never frees.  The partitioned run gives each partition its declared
    inputs only, frees after every last use, hands back the declared outputs only, and misses as soon
    as a node, a partition or the caller asks for storage that is not there. */
module PartitionMeaning {
  import opened Wrappers
  import opened PartitionModel
  import opened PartitionFlow
  import opened PartitionLiveness

  type Env<V> = map<Name, V>
  type Kernel<!V> = (Node, Env<V>, Name) -> V

  /** The storage behind some names. */
  function Cells(g: Graph, names: set<Name>): set<Name> {
    set x | x in names && Real(g, x) in g.nodeNames && !IsNoneLayout(g, Real(g, x)) :: Real(g, x)
  }

  function Needs(g: Graph, n: Node): set<Name> {
    Cells(g, n.readNames + n.writeNames - n.outputs)
  }

  function Restrict<V>(env: Env<V>, names: set<Name>): Env<V> {
    map c | c in names && c in env :: env[c]
  }

  function Exec<V>(g: Graph, kernel: Kernel<V>, n: Node, env: Env<V>): Env<V> {
    env + map c | c in Cells(g, n.outputs) :: kernel(n, Restrict(env, Needs(g, n)), c)
  }

  // ----- the reference run

  function ExecAll<V>(g: Graph, kernel: Kernel<V>, p: Partition, env: Env<V>): Env<V> {
    if p == [] then env else ExecAll(g, kernel, p[1..], Exec(g, kernel, p[0], env))
  }

  function RunGraph<V>(g: Graph, kernel: Kernel<V>, ps: seq<Partition>, env: Env<V>): Env<V> {
    if ps == [] then env else RunGraph(g, kernel, ps[1..], ExecAll(g, kernel, ps[0], env))
  }

  // ----- the partitioned run

  function RunNodes<V>(g: Graph, kernel: Kernel<V>, p: Partition, env: Env<V>): Option<Env<V>> {
    if p == [] then Some(env)
    else if !(Needs(g, p[0]) <= env.Keys) then None
    else RunNodes(g, kernel, p[1..], Exec(g, kernel, p[0], env) - p[0].lastUsage)
  }

  function RunPartition<V>(g: Graph, kernel: Kernel<V>, p: Partition, s: Signature, env: Env<V>): Option<Env<V>> {
    if !(s.inputNodes <= env.Keys) then None
    else
      var local := RunNodes(g, kernel, p, Restrict(env, s.inputNodes));
      if local.None? || !(s.outputNodes <= local.value.Keys) then None
      else Some(env - Deallocated(s) + Restrict(local.value, s.outputNodes))
  }

  function RunPartitions<V>(
    g: Graph, kernel: Kernel<V>, ps: seq<Partition>, signatures: seq<Signature>, env: Env<V>): Option<Env<V>>
    requires |ps| == |signatures|
  {
    if ps == [] then Some(env)
    else
      var next := RunPartition(g, kernel, ps[0], signatures[0], env);
      if next.None? then None else RunPartitions(g, kernel, ps[1..], signatures[1..], next.value)
  }

  // ----- when it works

  /** Storage behind a name that is laid out as nothing, and that a partition accesses without having
      produced the name, is used last here or accessed here under a name with a layout as well. */
  predicate CoversAccesses(g: Graph, p: Partition) {
    forall x | x in Accessed(p) - Produced(p) && IsNoneLayout(g, x) && Cells(g, {x}) != {} ::
      Real(g, x) in Freed(p) - Produced(p) || AccessedWithLayout(g, p, Real(g, x))
  }

  predicate AccessedWithLayout(g: Graph, p: Partition, c: Name) {
    exists y | y in Accessed(p) - Produced(p) :: !IsNoneLayout(g, y) && Real(g, y) == c
  }

  lemma InputsHold(g: Graph, p: Partition, c: Name)
    ensures c in InputNames(g, p) <==>
            (c in Freed(p) - Produced(p) && c in g.nodeNames) || AccessedWithLayout(g, p, c)
  {
    var direct := (set y | y in Accessed(p) && !IsNoneLayout(g, y)) - Produced(p);
    if AccessedWithLayout(g, p, c) {
      var y :| y in Accessed(p) - Produced(p) && !IsNoneLayout(g, y) && Real(g, y) == c;
      assert y in direct;
    }
    if y :| y in direct && Real(g, y) == c {
      assert y in Accessed(p) - Produced(p);
    }
  }

  /** That is what it takes for the computed inputs to hold all storage accessed from outside. */
  lemma CoversAccessesExactly(g: Graph, p: Partition)
    ensures CoversAccesses(g, p) <==>
            forall x, c | x in Accessed(p) - Produced(p) && c in Cells(g, {x}) :: c in InputNames(g, p)
  {
    forall x | x in Accessed(p) - Produced(p) && Cells(g, {x}) != {}
      ensures Cells(g, {x}) == {Real(g, x)}
      ensures Real(g, x) in InputNames(g, p) <==>
              Real(g, x) in Freed(p) - Produced(p) || AccessedWithLayout(g, p, Real(g, x))
      ensures !IsNoneLayout(g, x) ==> AccessedWithLayout(g, p, Real(g, x))
    {
      var c :| c in Cells(g, {x});
      InputsHold(g, p, c);
    }
    if forall x, c | x in Accessed(p) - Produced(p) && c in Cells(g, {x}) :: c in InputNames(g, p) {
      forall x | x in Accessed(p) - Produced(p) && IsNoneLayout(g, x) && Cells(g, {x}) != {}
        ensures Real(g, x) in Freed(p) - Produced(p) || AccessedWithLayout(g, p, Real(g, x))
      {
        assert Real(g, x) in Cells(g, {x});
      }
    }
  }

  predicate AllCoverAccesses(g: Graph, ps: seq<Partition>) {
    forall p | p in ps :: CoversAccesses(g, p)
  }

  ghost predicate Agrees<V>(a: Env<V>, b: Env<V>) {
    forall c | c in a :: c in b && a[c] == b[c]
  }

  lemma SignaturesLength(g: Graph, ps: seq<Partition>, skips: seq<bool>)
    requires |ps| == |skips|
    ensures |Signatures(g, ps, skips)| == |ps|
  {}

  // ----- inside a partition

  lemma NeedIsCovered(g: Graph, ps: seq<Partition>, i: nat, k: nat, c: Name)
    requires Scheduled(g, ps) && At(ps, i, k) && CoversAccesses(g, ps[i])
    requires c in Needs(g, ps[i][k])
    ensures c in InputNames(g, ps[i]) * g.nodeNames + Cells(g, Produced(ps[i][..k])) - Freed(ps[i][..k])
  {
    var p, n := ps[i], ps[i][k];
    assert NodeScheduled(g, ps, i, k);
    PartitionNames(g, ps, i);
    CoversAccessesExactly(g, p);
    var x :| x in n.readNames + n.writeNames - n.outputs && Real(g, x) == c;
    assert n in p && x in Accessed(p);
    if x !in Produced(p) {
      assert c in Cells(g, {x});
    }
    forall l | 0 <= l < k ensures c !in p[..k][l].lastUsage {
      assert At(ps, i, l) && NodeScheduled(g, ps, i, l);
      assert n == p[l + 1..][k - l - 1] && n in p[l + 1..];
      assert Real(g, x) in Touched(g, p[l + 1..]);
    }
  }

  /** Storage the local environment holds before node `k`. */
  function Held(g: Graph, p: Partition, k: nat): set<Name>
    requires k <= |p|
  {
    InputNames(g, p) * g.nodeNames + Cells(g, Produced(p[..k])) - Freed(p[..k])
  }

  lemma HeldStep(g: Graph, p: Partition, k: nat)
    requires k < |p|
    ensures Held(g, p, k + 1) <= Held(g, p, k) + Cells(g, p[k].outputs) - p[k].lastUsage
  {
    assert p[..k + 1] == p[..k] + [p[k]];
  }

  lemma {:induction false} NodesAgree<V>(
    g: Graph, kernel: Kernel<V>, ps: seq<Partition>, i: nat, k: nat, local: Env<V>, all: Env<V>)
    requires Scheduled(g, ps) && i < |ps| && k <= |ps[i]| && CoversAccesses(g, ps[i])
    requires Agrees(local, all) && Held(g, ps[i], k) <= local.Keys
    ensures
      var r := RunNodes(g, kernel, ps[i][k..], local);
      && r.Some?
      && Agrees(r.value, ExecAll(g, kernel, ps[i][k..], all))
      && Held(g, ps[i], |ps[i]|) <= r.value.Keys
    decreases |ps[i]| - k
  {
    var p := ps[i];
    if k < |p| {
      var n := p[k];
      assert p[k..][0] == n && p[k..][1..] == p[k + 1..];
      forall c | c in Needs(g, n) ensures c in local {
        NeedIsCovered(g, ps, i, k, c);
      }
      assert Restrict(local, Needs(g, n)) == Restrict(all, Needs(g, n));
      HeldStep(g, p, k);
      NodesAgree(g, kernel, ps, i, k + 1,
        Exec(g, kernel, n, local) - n.lastUsage, Exec(g, kernel, n, all));
    }
  }

  lemma {:induction false} ExecAllFrame<V>(g: Graph, kernel: Kernel<V>, p: Partition, env: Env<V>, c: Name)
    requires c in env && c !in Cells(g, Produced(p))
    ensures c in ExecAll(g, kernel, p, env) && ExecAll(g, kernel, p, env)[c] == env[c]
  {
    if p != [] {
      assert p == [p[0]] + p[1..];
      assert p[0].outputs <= Produced(p) && Produced(p[1..]) <= Produced(p);
      ExecAllFrame(g, kernel, p[1..], Exec(g, kernel, p[0], env), c);
    }
  }

  // ----- between partitions

  lemma OutputHeld(g: Graph, ps: seq<Partition>, i: nat, x: Name)
    requires Scheduled(g, ps) && AllTakeStored(g, ps) && AliasesAreAccessed(g, ps) && i < |ps|
    requires x in ReturnedNames(g, ps[i], Unmet(g, ps[i + 1..])) && x in Produced(ps[i])
    ensures x !in Freed(ps[i])
  {
    var z := ReturnedComesFrom(g, ps[i], Unmet(g, ps[i + 1..]), x);
    FreedIsDead(g, ps, i);
    if z in g.realName {
      UnmetAliasIsOutput(g, ps, i + 1, z);
    } else if x in Freed(ps[i]) {
      FreedIsMet(g, ps, i, x);
    }
  }

  lemma OutputsHeld(g: Graph, ps: seq<Partition>, i: nat, skip: bool)
    requires Scheduled(g, ps) && AllTakeStored(g, ps) && AliasesAreAccessed(g, ps) && i < |ps|
    ensures SignatureOf(g, ps[i], Unmet(g, ps[i + 1..]), skip).outputNodes <= Held(g, ps[i], |ps[i]|)
  {
    var p := ps[i];
    assert p[..|p|] == p;
    ReturnedAreKnown(g, ps, i);
    forall x | x in ReturnedNames(g, p, Unmet(g, ps[i + 1..])) && !IsNoneLayout(g, x)
      ensures x in Held(g, p, |p|)
    {
      if x in Produced(p) {
        assert Real(g, x) == x && x in Cells(g, Produced(p));
        OutputHeld(g, ps, i, x);
      } else {
        ReturnedOldIsInput(g, ps, i, x);
      }
    }
  }

  /** Older storage that a partition overwrites is among its inputs. */
  lemma OverwrittenIsInput(g: Graph, ps: seq<Partition>, i: nat, c: Name)
    requires Scheduled(g, ps) && AliasesAreAccessed(g, ps) && i < |ps|
    requires c in Known(g, ps, i) && c in Cells(g, Produced(ps[i]))
    ensures c in InputNames(g, ps[i]) * g.nodeNames && c !in g.realName
  {
    var y :| y in Produced(ps[i]) && Real(g, y) == c;
    var k :| 0 <= k < |ps[i]| && y in ps[i][k].outputs;
    assert At(ps, i, k);
    PartitionNames(g, ps, i);
    AliasIsInput(g, ps, i, k, y);
  }

  /** What the partition overwrites, the caller gets back or gives up. */
  lemma OverwrittenIsReturned(g: Graph, ps: seq<Partition>, i: nat, skip: bool, c: Name)
    requires Scheduled(g, ps) && AliasesAreAccessed(g, ps) && i < |ps|
    requires c in Known(g, ps, i) && c in Cells(g, Produced(ps[i]))
    ensures
      var s := SignatureOf(g, ps[i], Unmet(g, ps[i + 1..]), skip);
      c in s.outputNodes || c in Deallocated(s)
  {
    OverwrittenIsInput(g, ps, i, c);
    assert c !in Freed(ps[i]) ==> Real(g, c) in ReturnedNames(g, ps[i], Unmet(g, ps[i + 1..]));
  }

  lemma MergeAgrees<V>(
    env: Env<V>, local: Env<V>, dead: set<Name>, outputs: set<Name>, before: Env<V>, after: Env<V>)
    requires Agrees(env, before) && Agrees(local, after) && outputs <= local.Keys
    requires forall c | c in env && c in before && c !in dead && c !in outputs :: c in after && after[c] == before[c]
    ensures Agrees(env - dead + Restrict(local, outputs), after)
  {}

  lemma PartitionAgrees<V>(
    g: Graph, kernel: Kernel<V>, ps: seq<Partition>, i: nat, skip: bool, env: Env<V>, all: Env<V>)
    requires Scheduled(g, ps) && AllTakeStored(g, ps) && AliasesAreAccessed(g, ps) && i < |ps|
    requires CoversAccesses(g, ps[i])
    requires Agrees(env, all) && LiveAt(g, ps, i, env.Keys)
    ensures
      var s := SignatureOf(g, ps[i], Unmet(g, ps[i + 1..]), skip);
      var r := RunPartition(g, kernel, ps[i], s, env);
      r.Some? && r.value.Keys == After(s, env.Keys) && Agrees(r.value, ExecAll(g, kernel, ps[i], all))
  {
    var p := ps[i];
    var s := SignatureOf(g, p, Unmet(g, ps[i + 1..]), skip);
    var start := Restrict(env, s.inputNodes);
    InputsLive(g, ps, i, env.Keys);
    assert Held(g, p, 0) <= start.Keys by { assert p[..0] == []; }
    assert p[0..] == p;
    NodesAgree(g, kernel, ps, i, 0, start, all);
    OutputsHeld(g, ps, i, skip);
    var local, after := RunNodes(g, kernel, p, start).value, ExecAll(g, kernel, p, all);
    forall c | c in env && c in all && c !in Deallocated(s) && c !in s.outputNodes
      ensures c in after && after[c] == all[c]
    {
      if c in Cells(g, Produced(p)) {
        OverwrittenIsReturned(g, ps, i, skip, c);
      } else {
        ExecAllFrame(g, kernel, p, all, c);
      }
    }
    MergeAgrees(env, local, Deallocated(s), s.outputNodes, all, after);
  }

  lemma {:induction false} PartitionsAgree<V>(
    g: Graph, kernel: Kernel<V>, ps: seq<Partition>, skips: seq<bool>, i: nat, env: Env<V>, all: Env<V>)
    requires Scheduled(g, ps) && AllTakeStored(g, ps) && AliasesAreAccessed(g, ps) && AllCoverAccesses(g, ps)
    requires i <= |ps| == |skips| && Agrees(env, all) && LiveAt(g, ps, i, env.Keys)
    ensures |Signatures(g, ps[i..], skips[i..])| == |ps[i..]|
    ensures
      var r := RunPartitions(g, kernel, ps[i..], Signatures(g, ps[i..], skips[i..]), env);
      r.Some? && Agrees(r.value, RunGraph(g, kernel, ps[i..], all)) && Wanted(g) <= r.value.Keys
    decreases |ps| - i
  {
    if i == |ps| {
      LiveAtEnd(g, ps, env.Keys);
    } else {
      assert ps[i..][1..] == ps[i + 1..] && skips[i..][1..] == skips[i + 1..];
      var s := SignatureOf(g, ps[i], Unmet(g, ps[i + 1..]), skips[i]);
      PartitionAgrees(g, kernel, ps, i, skips[i], env, all);
      LiveStep(g, ps, i, env.Keys, skips[i]);
      PartitionsAgree(g, kernel, ps, skips, i + 1,
        RunPartition(g, kernel, ps[i], s, env).value, ExecAll(g, kernel, ps[i], all));
    }
  }

  // ----- and when it does not

  /** A run of nodes that does not miss got every needed cell from its start or from itself. */
  lemma {:induction false} RunNodesNeeds<V>(
    g: Graph, kernel: Kernel<V>, p: Partition, k: nat, start: set<Name>, env: Env<V>, n: Node)
    requires k <= |p| && n in p[k..] && RunNodes(g, kernel, p[k..], env).Some?
    requires env.Keys <= start + Cells(g, Produced(p))
    ensures Needs(g, n) <= start + Cells(g, Produced(p))
    decreases |p| - k
  {
    assert p[k..][1..] == p[k + 1..];
    if n != p[k] {
      assert p[k..] == [p[k]] + p[k + 1..];
      assert p[k].outputs <= Produced(p);
      RunNodesNeeds(g, kernel, p, k + 1, start, Exec(g, kernel, p[k], env) - p[k].lastUsage, n);
    }
  }

  lemma RunPartitionCovers<V>(
    g: Graph, kernel: Kernel<V>, ps: seq<Partition>, i: nat, skip: bool, env: Env<V>)
    requires Scheduled(g, ps) && AliasesAreAccessed(g, ps) && i < |ps|
    requires RunPartition(g, kernel, ps[i], SignatureOf(g, ps[i], Unmet(g, ps[i + 1..]), skip), env).Some?
    ensures CoversAccesses(g, ps[i])
  {
    var p := ps[i];
    var inputs := InputNames(g, p) * g.nodeNames;
    assert p[0..] == p;
    PartitionNames(g, ps, i);
    CoversAccessesExactly(g, p);
    forall x, c | x in Accessed(p) - Produced(p) && c in Cells(g, {x}) ensures c in InputNames(g, p) {
      var n :| n in p && x in n.readNames + n.writeNames;
      assert n.outputs <= Produced(p);
      assert c in Needs(g, n);
      RunNodesNeeds(g, kernel, p, 0, inputs, Restrict(env, inputs), n);
      if c in Cells(g, Produced(p)) {
        RealIsKnown(g, ps, i, x);
        OverwrittenIsInput(g, ps, i, c);
      }
    }
  }

  /** A partition that runs took names with storage, covered its accesses, and leaves names with storage. */
  lemma RunPartitionNeeds<V>(g: Graph, kernel: Kernel<V>, ps: seq<Partition>, i: nat, skip: bool, env: Env<V>)
    requires Scheduled(g, ps) && AliasesAreAccessed(g, ps) && i < |ps|
    requires forall x | x in env :: Stored(g, x)
    requires RunPartition(g, kernel, ps[i], SignatureOf(g, ps[i], Unmet(g, ps[i + 1..]), skip), env).Some?
    ensures TakesStored(g, ps[i]) && CoversAccesses(g, ps[i])
    ensures
      var r := RunPartition(g, kernel, ps[i], SignatureOf(g, ps[i], Unmet(g, ps[i + 1..]), skip), env);
      forall x | x in r.value :: Stored(g, x)
  {
    InputsStored(g, ps[i]);
    RunPartitionCovers(g, kernel, ps, i, skip, env);
  }

  lemma {:induction false} RunPartitionsNeed<V>(
    g: Graph, kernel: Kernel<V>, ps: seq<Partition>, skips: seq<bool>, i: nat, env: Env<V>)
    requires Scheduled(g, ps) && AliasesAreAccessed(g, ps) && i <= |ps| == |skips|
    requires |Signatures(g, ps[i..], skips[i..])| == |ps[i..]|
    requires RunPartitions(g, kernel, ps[i..], Signatures(g, ps[i..], skips[i..]), env).Some?
    requires forall x | x in env :: Stored(g, x)
    ensures AllTakeStored(g, ps[i..]) && AllCoverAccesses(g, ps[i..])
    decreases |ps| - i
  {
    if i < |ps| {
      assert ps[i..][1..] == ps[i + 1..] && skips[i..][1..] == skips[i + 1..];
      SignaturesLength(g, ps[i + 1..], skips[i + 1..]);
      RunPartitionNeeds(g, kernel, ps, i, skips[i], env);
      var s := SignatureOf(g, ps[i], Unmet(g, ps[i + 1..]), skips[i]);
      RunPartitionsNeed(g, kernel, ps, skips, i + 1, RunPartition(g, kernel, ps[i], s, env).value);
      assert ps[i..] == [ps[i]] + ps[i + 1..];
    }
  }

  /** Partitioning preserves meaning, exactly: whatever the kernels compute and whatever the graph
      inputs hold, the partitioned run misses nothing if and only if partitions take only names with
      storage and cover the storage they access; it then ends with every graph output holding what
      the reference run computes. */
  lemma MeaningExact<V>(g: Graph, kernel: Kernel<V>, ps: seq<Partition>, skips: seq<bool>, env: Env<V>)
    requires Scheduled(g, ps) && AliasesAreAccessed(g, ps) && |ps| == |skips| && env.Keys == g.inputs
    ensures |Signatures(g, ps, skips)| == |ps|
    ensures
      var r := RunPartitions(g, kernel, ps, Signatures(g, ps, skips), env);
      && (r.Some? <==> AllTakeStored(g, ps) && AllCoverAccesses(g, ps))
      && (r.Some? ==> forall c | c in Wanted(g) ::
            && c in r.value && c in RunGraph(g, kernel, ps, env)
            && r.value[c] == RunGraph(g, kernel, ps, env)[c])
  {
    SignaturesLength(g, ps, skips);
    assert ps[0..] == ps && skips[0..] == skips;
    if AllTakeStored(g, ps) && AllCoverAccesses(g, ps) {
      LiveAtStart(g, ps);
      PartitionsAgree(g, kernel, ps, skips, 0, env, env);
    } else if RunPartitions(g, kernel, ps, Signatures(g, ps, skips), env).Some? {
      forall x | x in env ensures Stored(g, x) { GraphInputIsStored(g, ps, x); }
      RunPartitionsNeed(g, kernel, ps, skips, 0, env);
    }
  }

  // The second family that breaks: an in-place operation whose own buffer is laid out as nothing but
  // is no `MutationOutput`; a later partition reads the result through that buffer.
  const IN_PLACE: Partition := [Node({"b"}, {"a"}, {}, {})]
  const READER: Partition := [Node({}, {"b"}, {}, {})]
  const HIDDEN_ALIAS: Graph := GraphData({"a"}, {}, {}, {"a", "b"}, map["b" := Buffer(true, false)], map["b" := "a"])
  const HIDDEN_ALIAS_PARTITIONS: seq<Partition> := [IN_PLACE, READER]

  lemma HiddenAliasNames()
    ensures Produced(IN_PLACE) == {"b"} && Produced(READER) == {}
    ensures ProducedBy(HIDDEN_ALIAS_PARTITIONS) == {"b"}
    ensures Known(HIDDEN_ALIAS, HIDDEN_ALIAS_PARTITIONS, 0) == {"a"}
    ensures Known(HIDDEN_ALIAS, HIDDEN_ALIAS_PARTITIONS, 1) == {"a", "b"}
  {
    var ps := HIDDEN_ALIAS_PARTITIONS;
    assert IN_PLACE[0].outputs == {"b"};
    assert ps[0] == IN_PLACE && ps[1] == READER;
    assert ps[..0] == [] && ps[..1] == [ps[0]];
  }

  lemma HiddenAliasIsScheduled()
    ensures Scheduled(HIDDEN_ALIAS, HIDDEN_ALIAS_PARTITIONS)
    ensures AliasesAreAccessed(HIDDEN_ALIAS, HIDDEN_ALIAS_PARTITIONS)
  {
    var g, ps := HIDDEN_ALIAS, HIDDEN_ALIAS_PARTITIONS;
    HiddenAliasNames();
    assert NodeScheduled(g, ps, 0, 0) by { assert ps[0][..0] == []; }
    assert NodeScheduled(g, ps, 1, 0) by { assert ps[1][..0] == []; }
    assert forall i: nat, k: nat | At(ps, i, k) :: k == 0 && (i == 0 || i == 1);
    assert "a" in IN_PLACE[0].readNames + IN_PLACE[0].writeNames - IN_PLACE[0].outputs;
    assert AccessesReal(g, IN_PLACE[0], "a");
  }

  lemma HiddenAliasIsNotCovered()
    ensures !AllCoverAccesses(HIDDEN_ALIAS, HIDDEN_ALIAS_PARTITIONS)
  {
    var g, n := HIDDEN_ALIAS, READER[0];
    assert n == Node({}, {"b"}, {}, {}) && READER == [n];
    assert Accessed(READER) == {"b"} && Produced(READER) == {} && Freed(READER) == {} by {
      assert forall m | m in READER :: m == n;
      assert n in READER && "b" in n.readNames + n.writeNames;
    }
    assert IsNoneLayout(g, "b") && !AccessedWithLayout(g, READER, "a");
    assert Real(g, "b") == "a" && "a" in Cells(g, {"b"});
    assert "b" in Accessed(READER) - Produced(READER) && !CoversAccesses(g, READER);
    assert HIDDEN_ALIAS_PARTITIONS[1] == READER && READER in HIDDEN_ALIAS_PARTITIONS;
  }

  lemma HiddenAliasMisses(kernel: Kernel<int>)
    ensures Scheduled(HIDDEN_ALIAS, HIDDEN_ALIAS_PARTITIONS)
    ensures AliasesAreAccessed(HIDDEN_ALIAS, HIDDEN_ALIAS_PARTITIONS)
    ensures |Signatures(HIDDEN_ALIAS, HIDDEN_ALIAS_PARTITIONS, [false, false])| == 2
    ensures RunPartitions(HIDDEN_ALIAS, kernel, HIDDEN_ALIAS_PARTITIONS,
              Signatures(HIDDEN_ALIAS, HIDDEN_ALIAS_PARTITIONS, [false, false]), map["a" := 0]).None?
  {
    HiddenAliasIsScheduled();
    HiddenAliasIsNotCovered();
    MeaningExact(HIDDEN_ALIAS, kernel, HIDDEN_ALIAS_PARTITIONS, [false, false], map["a" := 0]);
  }
}
