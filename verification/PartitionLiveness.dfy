/** Liveness exactness of graph-partition signatures: what a partition returns, and nothing else. */
module PartitionLiveness {
  import opened PartitionModel
  import opened PartitionFlow

  /** A partition does not take as input what it produces. */
  lemma InputsNotProduced(g: Graph, ps: seq<Partition>, i: nat)
    requires Scheduled(g, ps) && i < |ps|
    ensures InputNames(g, ps[i]) * g.nodeNames !! Produced(ps[i])
  {
    PartitionNames(g, ps, i);
    forall x | x in InputNames(g, ps[i]) * g.nodeNames ensures x !in Produced(ps[i]) {
      if y :| y in Accessed(ps[i]) - Produced(ps[i]) && Real(g, y) == x {
        RealIsKnown(g, ps, i, y);
      }
    }
  }

  /** The names behind a returned one: it was produced here and is unmet, or was taken and not freed. */
  lemma ReturnedComesFrom(g: Graph, p: Partition, unmet: set<Name>, x: Name) returns (z: Name)
    requires x in ReturnedNames(g, p, unmet)
    ensures Real(g, z) == x
    ensures z in Produced(p) * unmet || (z == x && x in InputNames(g, p) * g.nodeNames - Freed(p))
  {
    z :| z in Produced(p) * unmet + (InputNames(g, p) * g.nodeNames - Freed(p)) && Real(g, z) == x;
  }

  lemma UnmetAliasIsOutput(g: Graph, ps: seq<Partition>, i: nat, z: Name)
    requires Scheduled(g, ps) && AllTakeStored(g, ps) && i <= |ps|
    requires z in Unmet(g, ps[i..]) && z in g.realName
    ensures z in g.outputs
  {
    UnmetComesFrom(g, ps, i, z);
    forall j | i <= j < |ps| ensures z !in InputNames(g, ps[j]) {
      InputsStored(g, ps[j]);
    }
  }

  /** What a partition returns without producing it, it took and did not free. */
  lemma ReturnedOldIsInput(g: Graph, ps: seq<Partition>, i: nat, x: Name)
    requires Scheduled(g, ps) && AllTakeStored(g, ps) && AliasesAreAccessed(g, ps) && i < |ps|
    requires x in ReturnedNames(g, ps[i], Unmet(g, ps[i + 1..])) && x !in Produced(ps[i])
    ensures x in InputNames(g, ps[i]) - Freed(ps[i])
  {
    var z := ReturnedComesFrom(g, ps[i], Unmet(g, ps[i + 1..]), x);
    if z in Produced(ps[i]) && z in Unmet(g, ps[i + 1..]) {
      var k :| 0 <= k < |ps[i]| && z in ps[i][k].outputs;
      assert At(ps, i, k);
      AliasIsInput(g, ps, i, k, z);
      UnmetAliasIsOutput(g, ps, i + 1, z);
      FreedIsDead(g, ps, i);
      assert x in RealNames(g, g.outputs);
    }
  }

  lemma {:induction false} UnmetPersists(g: Graph, ps: seq<Partition>, i: nat, j: nat, x: Name)
    requires Scheduled(g, ps) && AllTakeStored(g, ps) && AliasesAreAccessed(g, ps) && i <= j <= |ps|
    requires x in Unmet(g, ps[j..]) && forall l | i <= l < j :: x !in Produced(ps[l])
    ensures x in Unmet(g, ps[i..])
    decreases j - i
  {
    if i < j {
      assert ps[i..][1..] == ps[i + 1..];
      UnmetPersists(g, ps, i + 1, j, x);
      if x in ReturnedNames(g, ps[i], Unmet(g, ps[i + 1..])) {
        ReturnedOldIsInput(g, ps, i, x);
      }
    }
  }

  lemma ProducedOnce(g: Graph, ps: seq<Partition>, i: nat, j: nat, x: Name)
    requires Scheduled(g, ps) && i < |ps| && j < |ps| && x in Produced(ps[i]) && x in Known(g, ps, j + 1)
    ensures i <= j
    ensures i < j ==> x !in Produced(ps[j])
  {
    PartitionNames(g, ps, i);
    PartitionNames(g, ps, j);
    KnownStep(g, ps, i);
    if i < j {
      KnownMonotone(g, ps, i + 1, j);
    } else {
      KnownMonotone(g, ps, if j < i then j + 1 else i, i);
    }
  }

  /** A later partition takes `x`, or it backs a graph output. */
  ghost predicate NeededAfter(g: Graph, ps: seq<Partition>, i: nat, x: Name) {
    x in RealNames(g, g.outputs) || exists j :: i < j < |ps| && x in InputNames(g, ps[j])
  }

  /** The storage behind a graph output that is an alias made in or after partition `i`. */
  lemma AliasedOutputIsReturnedOrTaken(g: Graph, ps: seq<Partition>, i: nat, x: Name, o: Name)
    requires Scheduled(g, ps) && AliasesAreAccessed(g, ps) && i < |ps|
    requires x in Produced(ps[i]) && o in g.outputs && o in g.realName && Real(g, o) == x
    ensures x in ReturnedNames(g, ps[i], Unmet(g, ps[i + 1..])) ||
            exists j :: i < j < |ps| && x in InputNames(g, ps[j])
  {
    var j :| 0 <= j < |ps| && o in Produced(ps[j]);
    PartitionNames(g, ps, j);
    ProducedOnce(g, ps, i, j, x);
    if j == i {
      AliasStaysUnmet(g, ps[i + 1..], o);
      assert o in Produced(ps[i]) * Unmet(g, ps[i + 1..]);
    } else {
      var k :| 0 <= k < |ps[j]| && o in ps[j][k].outputs;
      assert At(ps, j, k);
      AliasIsInput(g, ps, j, k, o);
    }
  }

  lemma NeededIsReturned(g: Graph, ps: seq<Partition>, i: nat, x: Name)
    requires Scheduled(g, ps) && AllTakeStored(g, ps) && AliasesAreAccessed(g, ps) && i < |ps|
    requires x in Produced(ps[i]) && x !in g.realName && NeededAfter(g, ps, i, x)
    ensures x in ReturnedNames(g, ps[i], Unmet(g, ps[i + 1..]))
  {
    forall l | i < l < |ps| ensures x !in Produced(ps[l]) {
      KnownStep(g, ps, i);
      KnownMonotone(g, ps, i + 1, l + 1);
      ProducedOnce(g, ps, i, l, x);
    }
    if x in g.outputs {
      assert ps[|ps|..] == [];
      UnmetPersists(g, ps, i + 1, |ps|, x);
    } else {
      if x in RealNames(g, g.outputs) {
        var o :| o in g.outputs && Real(g, o) == x;
        AliasedOutputIsReturnedOrTaken(g, ps, i, x, o);
      }
      if j :| i < j < |ps| && x in InputNames(g, ps[j]) {
        UnmetPersists(g, ps, i + 1, j, x);
      }
    }
    assert x in Unmet(g, ps[i + 1..]) ==> x in Produced(ps[i]) * Unmet(g, ps[i + 1..]);
  }

  /** Liveness exactness: storage made in partition `i` is returned by `i` if and only if a later
      partition takes it or it backs a graph output; what else `i` returns is exactly what it took and
      did not use last. */
  lemma LivenessExact(g: Graph, ps: seq<Partition>, i: nat, skip: bool, x: Name)
    requires Scheduled(g, ps) && AllTakeStored(g, ps) && AliasesAreAccessed(g, ps) && i < |ps|
    ensures
      var s := SignatureOf(g, ps[i], Unmet(g, ps[i + 1..]), skip);
      && (x in Produced(ps[i]) && Stored(g, x) ==> (x in s.outputNodes <==> NeededAfter(g, ps, i, x)))
      && (x !in Produced(ps[i]) ==> (x in s.outputNodes <==> x in s.inputNodes && x !in Freed(ps[i])))
  {
    var unmet := Unmet(g, ps[i + 1..]);
    var s := SignatureOf(g, ps[i], unmet, skip);
    if x in Produced(ps[i]) && Stored(g, x) {
      if NeededAfter(g, ps, i, x) {
        NeededIsReturned(g, ps, i, x);
      }
      if x in s.outputNodes {
        var z := ReturnedComesFrom(g, ps[i], unmet, x);
        InputsNotProduced(g, ps, i);
        if z in g.realName {
          UnmetAliasIsOutput(g, ps, i + 1, z);
        } else {
          UnmetComesFrom(g, ps, i + 1, z);
        }
      }
    }
    if x in s.outputNodes - Produced(ps[i]) {
      ReturnedOldIsInput(g, ps, i, x);
      ReturnedAreKnown(g, ps, i);
    }
    if x in s.inputNodes && x !in Freed(ps[i]) {
      InputsStored(g, ps[i]);
      assert Real(g, x) in ReturnedNames(g, ps[i], unmet);
    }
  }
}
