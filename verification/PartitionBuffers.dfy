/** Which buffers the partitioned run keeps: exactly those that are still of use, and nothing that a
    partition used last. */
module PartitionBuffers {
  import opened PartitionModel
  import opened PartitionFlow
  import opened PartitionLiveness
  import opened PartitionMeaning

  // ----- the fields of a signature

  lemma {:induction false} SignatureAt(g: Graph, ps: seq<Partition>, skips: seq<bool>, i: nat)
    requires |ps| == |skips| && i < |ps|
    ensures |Signatures(g, ps, skips)| == |ps|
    ensures Signatures(g, ps, skips)[i] == SignatureOf(g, ps[i], Unmet(g, ps[i + 1..]), skips[i])
  {
    SignaturesLength(g, ps, skips);
    SignaturesLength(g, ps[1..], skips[1..]);
    if i > 0 {
      assert ps[1..][i..] == ps[i + 1..];
      SignatureAt(g, ps[1..], skips[1..], i - 1);
    }
  }

  /** What a partition declares, in terms of its nodes alone: it takes and names as constants what it
      accesses from outside under a name with a layout, and what it uses last without producing it; it
      gives up what it uses last; and it keeps its own cudagraph flag. */
  lemma SignatureExact(g: Graph, ps: seq<Partition>, skips: seq<bool>, i: nat, x: Name)
    requires |ps| == |skips| && i < |ps|
    ensures |Signatures(g, ps, skips)| == |ps|
    ensures
      var s, p := Signatures(g, ps, skips)[i], ps[i];
      var usedLast := x in Freed(p) && x !in Produced(p) && x in g.nodeNames;
      && (x in s.inputNodes <==> x in g.nodeNames && (usedLast || AccessedWithLayout(g, p, x)))
      && (x in s.constantNames <==> x in g.constants && (usedLast || AccessedWithLayout(g, p, x)))
      && (x in s.inputDeallocation <==> x in s.inputNodes)
      && (x in s.inputDeallocation ==> (s.inputDeallocation[x] <==> x in Freed(p)))
      && (s.skipCudagraph <==> skips[i])
  {
    SignatureAt(g, ps, skips, i);
    InputsHold(g, ps[i], x);
  }

  /** An in-place operation that is marked as one is as good as the storage it overwrites: if every alias
      laid out as nothing is a `MutationOutput`, all accesses are covered. */
  lemma MarkedMutationsAreCovered(g: Graph, ps: seq<Partition>)
    requires forall x | x in g.realName ::
      g.realName[x] != "" && (x in g.buffers && g.buffers[x].noneLayout ==> g.buffers[x].mutationOutput)
    ensures AllCoverAccesses(g, ps)
  {
    forall p, x | p in ps && x in Accessed(p) - Produced(p) && IsNoneLayout(g, x) ensures Cells(g, {x}) == {} {
      assert IsNoneLayout(g, Real(g, x));
    }
  }

  // ----- what is used last is gone

  function FreedBy(ps: seq<Partition>): set<Name> {
    set p, x | p in ps && x in Freed(p) :: x
  }

  /** No partition returns what it, or an earlier one, uses last. */
  lemma FreedIsNotReturned(g: Graph, ps: seq<Partition>, i: nat, j: nat, skip: bool, x: Name)
    requires Scheduled(g, ps) && AllTakeStored(g, ps) && AliasesAreAccessed(g, ps) && i <= j < |ps|
    requires x in Freed(ps[i])
    ensures x !in SignatureOf(g, ps[j], Unmet(g, ps[j + 1..]), skip).outputNodes
  {
    ReturnedAreKnown(g, ps, j);
    if x in ReturnedNames(g, ps[j], Unmet(g, ps[j + 1..])) {
      PartitionNames(g, ps, i);
      PartitionNames(g, ps, j);
      if i < j {
        KnownMonotone(g, ps, i + 1, j);
        FreedIsDead(g, ps, i);
        InputsAreTouched(g, ps[j]);
        ReturnedOldIsInput(g, ps, j, x);
      } else if x in Produced(ps[j]) {
        OutputHeld(g, ps, j, x);
      } else {
        ReturnedOldIsInput(g, ps, j, x);
      }
    }
  }

  // ----- exactly what is live

  /** Storage that has crossed from one of the first `i` partitions into the caller's hands. */
  ghost predicate Crossed(g: Graph, ps: seq<Partition>, i: nat, x: Name)
    requires i <= |ps|
  {
    x in g.inputs || exists j :: 0 <= j < i && x in Produced(ps[j]) && NeededAfter(g, ps, j, x)
  }

  /** `live` is what the graph was given or a partition made for later use, less what was used last. */
  ghost predicate LiveIs(g: Graph, ps: seq<Partition>, i: nat, live: set<Name>)
    requires i <= |ps|
  {
    forall x :: x in live <==> Stored(g, x) && Crossed(g, ps, i, x) && x !in FreedBy(ps[..i])
  }

  lemma FreedByStep(ps: seq<Partition>, i: nat)
    requires i < |ps|
    ensures FreedBy(ps[..i + 1]) == FreedBy(ps[..i]) + Freed(ps[i])
  {
    assert ps[..i + 1] == ps[..i] + [ps[i]];
  }

  lemma CrossedIsKnown(g: Graph, ps: seq<Partition>, i: nat, x: Name)
    requires i <= |ps| && Crossed(g, ps, i, x)
    ensures x in Known(g, ps, i)
  {
    if j :| 0 <= j < i && x in Produced(ps[j]) && NeededAfter(g, ps, j, x) {
      assert ps[j] == ps[..i][j] && ps[j] in ps[..i];
    }
  }

  lemma CrossedStep(g: Graph, ps: seq<Partition>, i: nat, x: Name)
    requires i < |ps|
    ensures Crossed(g, ps, i + 1, x) <==>
            Crossed(g, ps, i, x) || (x in Produced(ps[i]) && NeededAfter(g, ps, i, x))
  {}

  /** Storage that partition `i` makes: it was not live before, and is afterwards if it is needed. */
  lemma MadeHere(g: Graph, ps: seq<Partition>, i: nat, skip: bool, x: Name)
    requires Scheduled(g, ps) && AllTakeStored(g, ps) && AliasesAreAccessed(g, ps) && i < |ps|
    requires x in Produced(ps[i]) && Stored(g, x)
    ensures !Crossed(g, ps, i, x)
    ensures x in SignatureOf(g, ps[i], Unmet(g, ps[i + 1..]), skip).outputNodes <==> NeededAfter(g, ps, i, x)
    ensures NeededAfter(g, ps, i, x) ==> x !in FreedBy(ps[..i + 1])
  {
    PartitionNames(g, ps, i);
    if Crossed(g, ps, i, x) {
      CrossedIsKnown(g, ps, i, x);
    }
    LivenessExact(g, ps, i, skip, x);
    if NeededAfter(g, ps, i, x) {
      forall j | 0 <= j <= i ensures x !in Freed(ps[j]) {
        if x in Freed(ps[j]) {
          FreedIsNotReturned(g, ps, j, i, skip, x);
        }
      }
    }
  }

  /** Storage that was there before partition `i` stays exactly unless it is used last. */
  lemma MadeEarlier(g: Graph, ps: seq<Partition>, i: nat, live: set<Name>, skip: bool, x: Name)
    requires Scheduled(g, ps) && AllTakeStored(g, ps) && AliasesAreAccessed(g, ps) && i < |ps|
    requires LiveAt(g, ps, i, live) && x !in Produced(ps[i])
    ensures
      var s := SignatureOf(g, ps[i], Unmet(g, ps[i + 1..]), skip);
      x in After(s, live) <==> x in live && x !in Freed(ps[i])
  {
    var s := SignatureOf(g, ps[i], Unmet(g, ps[i + 1..]), skip);
    LivenessExact(g, ps, i, skip, x);
    InputsLive(g, ps, i, live);
    assert ps[..|ps|] == ps;
    KnownMonotone(g, ps, i, |ps|);
    assert x in live && x in Freed(ps[i]) ==> x in InputNames(g, ps[i]) * g.nodeNames;
  }

  lemma LiveIsStep(g: Graph, ps: seq<Partition>, i: nat, live: set<Name>, skip: bool)
    requires Scheduled(g, ps) && AllTakeStored(g, ps) && AliasesAreAccessed(g, ps) && i < |ps|
    requires LiveAt(g, ps, i, live) && LiveIs(g, ps, i, live)
    ensures LiveIs(g, ps, i + 1, After(SignatureOf(g, ps[i], Unmet(g, ps[i + 1..]), skip), live))
  {
    var s := SignatureOf(g, ps[i], Unmet(g, ps[i + 1..]), skip);
    FreedByStep(ps, i);
    forall x
      ensures x in After(s, live) <==> Stored(g, x) && Crossed(g, ps, i + 1, x) && x !in FreedBy(ps[..i + 1])
    {
      CrossedStep(g, ps, i, x);
      if x !in Produced(ps[i]) {
        MadeEarlier(g, ps, i, live, skip, x);
      } else {
        assert x in s.outputNodes ==> Stored(g, x);
        if Stored(g, x) {
          MadeHere(g, ps, i, skip, x);
        }
      }
    }
  }

  /** The caller's live buffers after the partitions. */
  function LiveAfter(signatures: seq<Signature>, live: set<Name>): set<Name> {
    if signatures == [] then live else LiveAfter(signatures[1..], After(signatures[0], live))
  }

  lemma {:induction false} LiveFrom(g: Graph, ps: seq<Partition>, skips: seq<bool>, i: nat, live: set<Name>)
    requires Scheduled(g, ps) && AllTakeStored(g, ps) && AliasesAreAccessed(g, ps)
    requires i <= |ps| == |skips| && LiveAt(g, ps, i, live) && LiveIs(g, ps, i, live)
    ensures LiveIs(g, ps, |ps|, LiveAfter(Signatures(g, ps[i..], skips[i..]), live))
    decreases |ps| - i
  {
    if i < |ps| {
      assert ps[i..][1..] == ps[i + 1..] && skips[i..][1..] == skips[i + 1..];
      var s := SignatureOf(g, ps[i], Unmet(g, ps[i + 1..]), skips[i]);
      LiveStep(g, ps, i, live, skips[i]);
      LiveIsStep(g, ps, i, live, skips[i]);
      LiveFrom(g, ps, skips, i + 1, After(s, live));
    }
  }

  /** No leak and no early loss: after the whole run a buffer is live if and only if it was given to the
      graph or made for a later partition or a graph output, and no partition has used it last. */
  lemma LiveExactly(g: Graph, ps: seq<Partition>, skips: seq<bool>, x: Name)
    requires Scheduled(g, ps) && AllTakeStored(g, ps) && AliasesAreAccessed(g, ps) && |ps| == |skips|
    ensures x in LiveAfter(Signatures(g, ps, skips), g.inputs) <==>
            Stored(g, x) && Crossed(g, ps, |ps|, x) && x !in FreedBy(ps)
  {
    assert ps[0..] == ps && skips[0..] == skips && ps[..|ps|] == ps && ps[..0] == [];
    LiveAtStart(g, ps);
    forall y ensures y in g.inputs <==> Stored(g, y) && Crossed(g, ps, 0, y) && y !in FreedBy(ps[..0]) {
      if y in g.inputs {
        GraphInputIsStored(g, ps, y);
      }
    }
    LiveFrom(g, ps, skips, 0, g.inputs);
  }
}
