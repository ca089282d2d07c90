/** `RequestOutput.add` of vllm/outputs.py on objects: completions are merged in place, replaced by
    reference, or appended by reference. */
module RequestOutputs {
  import opened Wrappers
  import Logprobs
  import opened Outputs

  class CompletionOutput {
    const index: int
    var text: string
    var tokenIds: seq<int>
    var cumulativeLogprob: Option<real>
    var logprobs: Option<seq<Logprobs.Dict>>
    var routedExperts: Option<seq<int>>
    var finishReason: Option<string>
    var stopReason: Option<string>

    constructor (c: Completion)
      ensures View() == c
    {
      index, text, tokenIds, cumulativeLogprob := c.index, c.text, c.tokenIds, c.cumulativeLogprob;
      logprobs, routedExperts, finishReason, stopReason := c.logprobs, c.routedExperts, c.finishReason, c.stopReason;
    }

    function View(): Completion
      reads this
    {
      Completion(index, text, tokenIds, cumulativeLogprob, logprobs, routedExperts, finishReason, stopReason)
    }

    /** The body of the aggregating branch, also on one object with itself.  Not ok stands for the
        AssertionError, which comes after text and tokens are appended. */
    method Merge(next: CompletionOutput) returns (ok: bool)
      modifies this
      ensures ok <==> old(Mergeable(View(), next.View()))
      ensures View() == old(if Mergeable(View(), next.View()) then Combine(true, View(), next.View())
                            else Halfway(View(), next.View()))
    {
      text := text + next.text;
      tokenIds := tokenIds + next.tokenIds;
      if next.logprobs.Some? && next.logprobs.value != [] {
        if logprobs.None? {
          return false;
        }
        logprobs := Some(logprobs.value + next.logprobs.value);
      }
      cumulativeLogprob := next.cumulativeLogprob;
      finishReason := next.finishReason;
      stopReason := next.stopReason;
      ok := true;
    }
  }

  function Views(objects: seq<CompletionOutput>): (r: seq<Completion>)
    reads objects
    ensures |r| == |objects| && forall i | 0 <= i < |objects| :: r[i] == objects[i].View()
  {
    seq(|objects|, i requires 0 <= i < |objects| reads objects => objects[i].View())
  }

  predicate Distinct(objects: seq<CompletionOutput>) {
    forall i, j | 0 <= i < j < |objects| :: objects[i] != objects[j]
  }

  function Objects(completions: seq<CompletionOutput>): set<CompletionOutput> {
    set c | c in completions
  }

  // ----- merging references

  type Cells = map<CompletionOutput, Completion>

  function CellsOf(objects: set<CompletionOutput>): Cells
    reads objects
  {
    map o | o in objects :: o.View()
  }

  /** A list of references, what the objects hold, and whether an assertion has failed. */
  datatype Store = Store(refs: seq<CompletionOutput>, cells: Cells, raised: bool)

  predicate Known(refs: seq<CompletionOutput>, cells: Cells) {
    forall o | o in refs :: o in cells
  }

  function Values(refs: seq<CompletionOutput>, cells: Cells): (r: seq<Completion>)
    requires Known(refs, cells)
    ensures |r| == |refs| && forall i | 0 <= i < |refs| :: r[i] == cells[refs[i]]
  {
    seq(|refs|, i requires 0 <= i < |refs| => cells[refs[i]])
  }

  lemma ViewsAreValues(refs: seq<CompletionOutput>, objects: set<CompletionOutput>)
    requires forall o | o in refs :: o in objects
    ensures Views(refs) == Values(refs, CellsOf(objects))
  {}

  /** Merge object `c` as it is now. */
  function MergeRef(aggregate: bool, s: Store, c: CompletionOutput): (r: Store)
    requires Known(s.refs, s.cells) && c in s.cells
    ensures Known(r.refs, r.cells) && r.cells.Keys == s.cells.Keys
    ensures forall o | o in r.refs :: o in s.refs || o == c
  {
    var v, x := Values(s.refs, s.cells), s.cells[c];
    var i := Find(v, x.index);
    if i == |v| then s.(refs := s.refs + [c])
    else if !aggregate then s.(refs := s.refs[i := c])
    else if Mergeable(v[i], x) then s.(cells := s.cells[s.refs[i] := Combine(true, v[i], x)])
    else s.(cells := s.cells[s.refs[i] := Halfway(v[i], x)], raised := true)
  }

  function MergeRefs(aggregate: bool, s: Store, cs: seq<CompletionOutput>): (r: Store)
    requires Known(s.refs, s.cells) && Known(cs, s.cells)
    ensures Known(r.refs, r.cells) && r.cells.Keys == s.cells.Keys
    ensures forall o | o in r.refs :: o in s.refs || o in cs
  {
    if cs == [] then s
    else
      var t := MergeRefs(aggregate, s, cs[..|cs| - 1]);
      if t.raised then t else MergeRef(aggregate, t, cs[|cs| - 1])
  }

  /** No object plays two parts. */
  predicate Unshared(refs: seq<CompletionOutput>, cs: seq<CompletionOutput>) {
    Distinct(refs) && Distinct(cs) && forall c | c in cs :: c !in refs
  }

  lemma MergeRefIsMergeOne(aggregate: bool, s: Store, c: CompletionOutput)
    requires Known(s.refs, s.cells) && c in s.cells && Distinct(s.refs) && c !in s.refs && !s.raised
    ensures
      var r := MergeRef(aggregate, s, c);
      var o := MergeOne(aggregate, Values(s.refs, s.cells), s.cells[c]);
      && Distinct(r.refs)
      && Values(r.refs, r.cells) == o.outputs
      && (r.raised <==> o.Raised?)
      && (forall d | d in s.cells && d !in s.refs :: r.cells[d] == s.cells[d])
  {
    var r, v, x := MergeRef(aggregate, s, c), Values(s.refs, s.cells), s.cells[c];
    var i, o := Find(v, x.index), MergeOne(aggregate, v, x);
    assert |o.outputs| == |r.refs|;
    forall k | 0 <= k < |r.refs| ensures r.cells[r.refs[k]] == o.outputs[k] {
      assert k < |s.refs| && k != i && i < |s.refs| ==> s.refs[k] != s.refs[i];
    }
  }

  /** Without sharing, merging references is merging values. */
  lemma {:induction false} UnsharedMergesValues(aggregate: bool, s: Store, cs: seq<CompletionOutput>)
    requires Known(s.refs, s.cells) && Known(cs, s.cells) && Unshared(s.refs, cs) && !s.raised
    ensures
      var r := MergeRefs(aggregate, s, cs);
      var o := MergeAll(aggregate, Values(s.refs, s.cells), Values(cs, s.cells));
      && Distinct(r.refs)
      && Values(r.refs, r.cells) == o.outputs
      && (r.raised <==> o.Raised?)
      && (forall d | d in s.cells && d !in s.refs && d !in cs :: r.cells[d] == s.cells[d])
  {
    if cs != [] {
      var n := |cs| - 1;
      var init, c := cs[..n], cs[n];
      assert Values(cs, s.cells)[..n] == Values(init, s.cells);
      assert c !in init;
      UnsharedMergesValues(aggregate, s, init);
      var t := MergeRefs(aggregate, s, init);
      if !t.raised {
        MergeRefIsMergeOne(aggregate, t, c);
      }
    }
  }

  class RequestOutput {
    var outputs: seq<CompletionOutput>
    var finished: bool
    var kvTransferParams: Option<string>
    var promptRoutedExperts: Option<seq<int>>

    constructor (outputs: seq<CompletionOutput>, finished: bool)
      ensures this.outputs == outputs && this.finished == finished
      ensures kvTransferParams == None && promptRoutedExperts == None
    {
      this.outputs, this.finished, kvTransferParams, promptRoutedExperts := outputs, finished, None, None;
    }

    function View(): Req
      reads this, outputs
    {
      Req(Views(outputs), finished, kvTransferParams, promptRoutedExperts)
    }

    function Stored(objects: set<CompletionOutput>, raised: bool): Store
      reads this, objects
    {
      Store(outputs, CellsOf(objects), raised)
    }

    /** The aggregating branch at position `i`. */
    method MergeInto(i: nat, c: CompletionOutput, ghost objects: set<CompletionOutput>) returns (ok: bool)
      requires i < |outputs| && outputs[i] in objects && c in objects
      modifies outputs[i]
      ensures ok <==> old(Mergeable(outputs[i].View(), c.View()))
      ensures CellsOf(objects) == old(CellsOf(objects)[outputs[i] :=
                if Mergeable(outputs[i].View(), c.View()) then Combine(true, outputs[i].View(), c.View())
                else Halfway(outputs[i].View(), c.View())])
    {
      ok := outputs[i].Merge(c);
      assert forall o | o in objects && o != outputs[i] :: o.View() == old(o.View());
    }

    /** The loop body of `add`: merge into the first completion with the same index, replace it, or
        append. */
    method AddCompletion(c: CompletionOutput, aggregate: bool, ghost objects: set<CompletionOutput>)
      returns (ok: bool)
      requires c in objects && forall o | o in outputs :: o in objects
      modifies `outputs, objects
      ensures Stored(objects, !ok) == old(MergeRef(aggregate, Stored(objects, false), c))
    {
      ghost var v := Values(outputs, CellsOf(objects));
      assert CellsOf(objects)[c] == c.View();
      for i := 0 to |outputs|
        invariant outputs == old(outputs) && CellsOf(objects) == old(CellsOf(objects))
        invariant c.View() == old(c.View())
        invariant forall j | 0 <= j < i :: v[j].index != c.index
      {
        assert v[i] == outputs[i].View();
        if outputs[i].index == c.index {
          assert Find(v, c.index) == i;
          if aggregate {
            ok := MergeInto(i, c, objects);
          } else {
            outputs, ok := outputs[i := c], true;
          }
          return;
        }
      }
      outputs, ok := outputs + [c], true;
    }

    /** The part of `add` before its loop. */
    method AddFields(next: RequestOutput, ghost objects: set<CompletionOutput>)
      modifies `finished, `kvTransferParams, `promptRoutedExperts
      ensures Stored(objects, false) == old(Stored(objects, false))
      ensures Views(outputs) == old(Views(outputs)) && Views(next.outputs) == old(Views(next.outputs))
      ensures finished == old(finished || next.finished)
      ensures kvTransferParams == old(next.kvTransferParams)
      ensures promptRoutedExperts ==
              old(if next.promptRoutedExperts.Some? then next.promptRoutedExperts else promptRoutedExperts)
    {
      finished := finished || next.finished;
      kvTransferParams := next.kvTransferParams;
      if next.promptRoutedExperts.Some? {
        promptRoutedExperts := next.promptRoutedExperts;
      }
    }

    /** `add`, for all outputs, also when they share completions or are one object.  Not ok stands for
        the AssertionError. */
    method Add(next: RequestOutput, aggregate: bool) returns (ok: bool)
      modifies this, Objects(outputs), Objects(next.outputs)
      ensures
        var objects := old(Objects(outputs) + Objects(next.outputs));
        Stored(objects, !ok) == old(MergeRefs(aggregate, Stored(objects, false), next.outputs))
      ensures old(Unshared(outputs, next.outputs)) ==>
        && Views(outputs) == old(MergeAll(aggregate, Views(outputs), Views(next.outputs)).outputs)
        && (ok <==> old(TryAdd(aggregate, View(), next.View()).Some?))
      ensures Req([], finished, kvTransferParams, promptRoutedExperts) ==
              old(Outputs.Add(aggregate, View(), next.View())).(outputs := [])
    {
      ghost var r, n := View(), next.View();
      ghost var objects := Objects(outputs) + Objects(next.outputs);
      ghost var s := Stored(objects, false);
      AddFields(next, objects);
      ok := AddOutputs(next, aggregate, objects, s, r.outputs, n.outputs);
    }

    /** The loop of `add`; without sharing it merges values. */
    method AddOutputs(
      next: RequestOutput, aggregate: bool, ghost objects: set<CompletionOutput>, ghost s: Store,
      ghost v: seq<Completion>, ghost w: seq<Completion>)
      returns (ok: bool)
      requires objects == Objects(outputs) + Objects(next.outputs) && s == Stored(objects, false)
      requires v == Views(outputs) && w == Views(next.outputs)
      modifies `outputs, objects
      ensures Stored(objects, !ok) == MergeRefs(aggregate, s, old(next.outputs))
      ensures old(Unshared(outputs, next.outputs)) ==>
        Views(outputs) == MergeAll(aggregate, v, w).outputs && (ok <==> MergeAll(aggregate, v, w).Merged?)
    {
      ghost var cs := next.outputs;
      ViewsAreValues(outputs, objects);
      ViewsAreValues(cs, objects);
      ok := AddCompletions(next, aggregate, objects);
      ViewsAreValues(outputs, objects);
      if Unshared(s.refs, cs) {
        UnsharedMergesValues(aggregate, s, cs);
      }
    }

    /** The loop over the next output's completions, which reads that list as it goes on. */
    method AddCompletions(next: RequestOutput, aggregate: bool, ghost objects: set<CompletionOutput>)
      returns (ok: bool)
      requires forall o | o in outputs || o in next.outputs :: o in objects
      modifies `outputs, objects
      ensures Stored(objects, !ok) == old(MergeRefs(aggregate, Stored(objects, false), next.outputs))
    {
      ghost var s, cs := Stored(objects, false), next.outputs;
      var k := 0;
      ok := true;
      while k < |next.outputs|
        invariant k <= |next.outputs| == |cs| && next.outputs[k..] == cs[k..]
        invariant Stored(objects, false) == MergeRefs(aggregate, s, cs[..k])
        decreases |cs| - k
      {
        MergeRefsStep(aggregate, s, cs, k);
        assert next.outputs[k] == next.outputs[k..][0] == cs[k];
        ok := AddNext(next, k, aggregate, objects, MergeRefs(aggregate, s, cs[..k]), cs);
        k := k + 1;
        if !ok {
          StaysRaised(aggregate, s, cs, k);
          return;
        }
      }
      assert cs[..|cs|] == cs;
    }

    /** One round of that loop. */
    method AddNext(
      next: RequestOutput, k: nat, aggregate: bool, ghost objects: set<CompletionOutput>, ghost s: Store,
      ghost cs: seq<CompletionOutput>)
      returns (ok: bool)
      requires k < |next.outputs| == |cs| && next.outputs[k..] == cs[k..] && cs[k] in objects
      requires Stored(objects, false) == s && Known(s.refs, s.cells)
      modifies `outputs, objects
      ensures Stored(objects, !ok) == MergeRef(aggregate, s, cs[k])
      ensures |next.outputs| == |cs| && next.outputs[k + 1..] == cs[k + 1..]
    {
      var c := next.outputs[k];
      assert c == next.outputs[k..][0] == cs[k];
      assert next.outputs[k + 1..] == next.outputs[k..][1..];
      if next == this {
        SelfMergeKeepsRest(aggregate, s, k);
      }
      ok := AddCompletion(c, aggregate, objects);
    }
  }

  lemma MergeRefsStep(aggregate: bool, s: Store, cs: seq<CompletionOutput>, k: nat)
    requires Known(s.refs, s.cells) && Known(cs, s.cells) && k < |cs|
    requires !MergeRefs(aggregate, s, cs[..k]).raised
    ensures MergeRefs(aggregate, s, cs[..k + 1]) == MergeRef(aggregate, MergeRefs(aggregate, s, cs[..k]), cs[k])
  {
    assert cs[..k + 1][..k] == cs[..k];
  }

  /** Merging a list's own completion finds it, at or before its own position, and does not touch what
      comes after. */
  lemma SelfMergeKeepsRest(aggregate: bool, s: Store, k: nat)
    requires Known(s.refs, s.cells) && k < |s.refs|
    ensures
      var r := MergeRef(aggregate, s, s.refs[k]);
      |r.refs| == |s.refs| && r.refs[k + 1..] == s.refs[k + 1..]
  {
    var v := Values(s.refs, s.cells);
    assert v[k] == s.cells[s.refs[k]];
    assert Find(v, v[k].index) <= k;
  }

  lemma {:induction false} StaysRaised(aggregate: bool, s: Store, cs: seq<CompletionOutput>, k: nat)
    requires Known(s.refs, s.cells) && Known(cs, s.cells) && k <= |cs|
    requires MergeRefs(aggregate, s, cs[..k]).raised
    ensures MergeRefs(aggregate, s, cs) == MergeRefs(aggregate, s, cs[..k])
  {
    if k == |cs| {
      assert cs[..k] == cs;
    } else {
      var n := |cs| - 1;
      assert cs[..n][..k] == cs[..k];
      StaysRaised(aggregate, s, cs[..n], k);
    }
  }
}
