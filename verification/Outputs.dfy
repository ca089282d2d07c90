/** Merging request outputs on values: `RequestOutput.add` of vllm/outputs.py.

    `Req` is what `add` reads and changes of a `RequestOutput`.  The object-level method is in
    RequestOutputs.dfy; here is what it computes, and what that is worth. */
module Outputs {
  import opened Wrappers
  import Logprobs

  datatype Completion = Completion(
    index: int,
    text: string,
    tokenIds: seq<int>,
    cumulativeLogprob: Option<real>,
    logprobs: Option<seq<Logprobs.Dict>>,
    routedExperts: Option<seq<int>>,
    finishReason: Option<string>,
    stopReason: Option<string>)

  datatype Req = Req(
    outputs: seq<Completion>,
    finished: bool,
    kvTransferParams: Option<string>,
    promptRoutedExperts: Option<seq<int>>)

  // ----- one completion

  /** Python truth of an optional list of log-probabilities. */
  predicate Truthy(logprobs: Option<seq<Logprobs.Dict>>) {
    logprobs.Some? && logprobs.value != []
  }

  function Listed(logprobs: Option<seq<Logprobs.Dict>>): seq<Logprobs.Dict> {
    if logprobs.Some? then logprobs.value else []
  }

  /** The assertion in `add` that log-probabilities have somewhere to go. */
  predicate Mergeable(c: Completion, next: Completion) {
    Truthy(next.logprobs) ==> c.logprobs.Some?
  }

  /** What a failing assertion leaves: text and tokens are already appended. */
  function Halfway(c: Completion, next: Completion): Completion {
    c.(text := c.text + next.text, tokenIds := c.tokenIds + next.tokenIds)
  }

  /** Append a delta, or replace. */
  function Combine(aggregate: bool, c: Completion, next: Completion): Completion {
    if aggregate then
      c.(text := c.text + next.text,
         tokenIds := c.tokenIds + next.tokenIds,
         logprobs := if Truthy(next.logprobs) then Some(Listed(c.logprobs) + next.logprobs.value) else c.logprobs,
         cumulativeLogprob := next.cumulativeLogprob,
         finishReason := next.finishReason,
         stopReason := next.stopReason)
    else next
  }

  lemma CombineAssociative(aggregate: bool, a: Completion, b: Completion, c: Completion)
    ensures Combine(aggregate, Combine(aggregate, a, b), c) == Combine(aggregate, a, Combine(aggregate, b, c))
  {
    assert a.text + b.text + c.text == a.text + (b.text + c.text);
    assert a.tokenIds + b.tokenIds + c.tokenIds == a.tokenIds + (b.tokenIds + c.tokenIds);
    var x, y, z := Listed(a.logprobs), Listed(b.logprobs), Listed(c.logprobs);
    assert x + y + z == x + (y + z);
    assert x + [] == x && [] + z == z;
  }

  /** Merging two completions, or None for the AssertionError. */
  function TryCombine(aggregate: bool, c: Completion, next: Completion): Option<Completion> {
    if aggregate && !Mergeable(c, next) then None else Some(Combine(aggregate, c, next))
  }

  /** Merging three completions does not depend on grouping, exactly unless the last carries
      log-probabilities that the first could take and the middle one cannot. */
  lemma TryCombineExact(aggregate: bool, a: Completion, b: Completion, c: Completion)
    ensures
      var ab, bc := TryCombine(aggregate, a, b), TryCombine(aggregate, b, c);
      var left := if ab.None? then None else TryCombine(aggregate, ab.value, c);
      var right := if bc.None? then None else TryCombine(aggregate, a, bc.value);
      left == right <==> !(aggregate && Truthy(c.logprobs) && b.logprobs.None? && a.logprobs.Some?)
  {
    CombineAssociative(aggregate, a, b, c);
  }

  // ----- a list of completions

  function Find(outputs: seq<Completion>, index: int): (i: nat)
    ensures i <= |outputs| && (i < |outputs| ==> outputs[i].index == index)
    ensures forall j | 0 <= j < i :: outputs[j].index != index
  {
    if outputs == [] || outputs[0].index == index then 0 else 1 + Find(outputs[1..], index)
  }

  predicate Has(outputs: seq<Completion>, index: int) {
    Find(outputs, index) < |outputs|
  }

  function AddOne(aggregate: bool, outputs: seq<Completion>, next: Completion): seq<Completion> {
    var i := Find(outputs, next.index);
    if i < |outputs| then outputs[i := Combine(aggregate, outputs[i], next)] else outputs + [next]
  }

  function AddAll(aggregate: bool, outputs: seq<Completion>, next: seq<Completion>): seq<Completion> {
    if next == [] then outputs
    else AddOne(aggregate, AddAll(aggregate, outputs, next[..|next| - 1]), next[|next| - 1])
  }

  function Add(aggregate: bool, r: Req, next: Req): Req {
    Req(
      AddAll(aggregate, r.outputs, next.outputs),
      r.finished || next.finished,
      next.kvTransferParams,
      if next.promptRoutedExperts.Some? then next.promptRoutedExperts else r.promptRoutedExperts)
  }

  lemma {:induction false} AddAllConcat(aggregate: bool, s: seq<Completion>, a: seq<Completion>, b: seq<Completion>)
    ensures AddAll(aggregate, s, a + b) == AddAll(aggregate, AddAll(aggregate, s, a), b)
  {
    if b == [] {
      assert a + b == a;
    } else {
      assert (a + b)[..|a + b| - 1] == a + b[..|b| - 1];
      AddAllConcat(aggregate, s, a, b[..|b| - 1]);
    }
  }

  // ----- indices: unique, in first-appearance order

  predicate UniqueIndices(outputs: seq<Completion>) {
    forall i, j | 0 <= i < j < |outputs| :: outputs[i].index != outputs[j].index
  }

  function IndicesOf(outputs: seq<Completion>): seq<int> {
    seq(|outputs|, i requires 0 <= i < |outputs| => outputs[i].index)
  }

  /** Drop every index that occurred before. */
  function FirstAppearances(indices: seq<int>): seq<int> {
    if indices == [] then []
    else
      var init, last := FirstAppearances(indices[..|indices| - 1]), indices[|indices| - 1];
      if last in init then init else init + [last]
  }

  lemma HasIndex(outputs: seq<Completion>, index: int)
    ensures Has(outputs, index) <==> index in IndicesOf(outputs)
  {
    assert Has(outputs, index) ==> IndicesOf(outputs)[Find(outputs, index)] == index;
  }

  lemma {:induction false} FirstAppearancesOfUnique(outputs: seq<Completion>)
    requires UniqueIndices(outputs)
    ensures FirstAppearances(IndicesOf(outputs)) == IndicesOf(outputs)
  {
    if outputs != [] {
      var init := outputs[..|outputs| - 1];
      assert IndicesOf(outputs)[..|outputs| - 1] == IndicesOf(init);
      FirstAppearancesOfUnique(init);
    }
  }

  lemma AddOneIndices(aggregate: bool, t: seq<Completion>, c: Completion)
    requires UniqueIndices(t)
    ensures UniqueIndices(AddOne(aggregate, t, c))
    ensures IndicesOf(AddOne(aggregate, t, c)) ==
            if c.index in IndicesOf(t) then IndicesOf(t) else IndicesOf(t) + [c.index]
  {
    HasIndex(t, c.index);
  }

  /** Merging keeps indices unique and in the order in which they first appeared, also when one message
      repeats an index. */
  lemma {:induction false} AddAllIndices(aggregate: bool, s: seq<Completion>, next: seq<Completion>)
    requires UniqueIndices(s)
    ensures UniqueIndices(AddAll(aggregate, s, next))
    ensures IndicesOf(AddAll(aggregate, s, next)) == FirstAppearances(IndicesOf(s) + IndicesOf(next))
  {
    if next == [] {
      assert IndicesOf(s) + IndicesOf(next) == IndicesOf(s);
      FirstAppearancesOfUnique(s);
    } else {
      var init, c := next[..|next| - 1], next[|next| - 1];
      var t := AddAll(aggregate, s, init);
      AddAllIndices(aggregate, s, init);
      AddOneIndices(aggregate, t, c);
      var all := IndicesOf(s) + IndicesOf(init);
      assert IndicesOf(s) + IndicesOf(next) == all + [c.index];
      assert (all + [c.index])[..|all|] == all;
    }
  }

  // ----- associativity

  lemma AddOneTwice(aggregate: bool, t: seq<Completion>, x: Completion, c: Completion)
    requires x.index == c.index
    ensures AddOne(aggregate, AddOne(aggregate, t, x), c) == AddOne(aggregate, t, Combine(aggregate, x, c))
  {
    var i := Find(t, x.index);
    FindAfterAdd(aggregate, t, x, x.index);
    if i < |t| {
      CombineAssociative(aggregate, t[i], x, c);
    }
  }

  /** Adding does not move what is already there. */
  lemma FindAfterAdd(aggregate: bool, t: seq<Completion>, x: Completion, index: int)
    ensures Find(AddOne(aggregate, t, x), index) ==
            if Has(t, index) then Find(t, index) else if x.index == index then |t| else |AddOne(aggregate, t, x)|
  {
    var r, i := AddOne(aggregate, t, x), Find(t, index);
    assert forall j | 0 <= j < |t| :: r[j].index == t[j].index;
    var f := Find(r, index);
    if f < |t| {
      assert t[f].index == index;
    }
    if i < |t| {
      assert r[i].index == index;
    } else if x.index == index {
      assert r[|t|] == x;
    }
  }

  lemma AddOneCommutes(aggregate: bool, t: seq<Completion>, a: Completion, b: Completion)
    requires a.index != b.index && Has(t, b.index)
    ensures AddOne(aggregate, AddOne(aggregate, t, a), b) == AddOne(aggregate, AddOne(aggregate, t, b), a)
    ensures Has(AddOne(aggregate, t, a), b.index)
  {
    FindAfterAdd(aggregate, t, a, b.index);
    FindAfterAdd(aggregate, t, b, a.index);
  }

  lemma {:induction false} AddPastOthers(aggregate: bool, t: seq<Completion>, rest: seq<Completion>, c: Completion)
    requires Has(t, c.index) && forall i | 0 <= i < |rest| :: rest[i].index != c.index
    ensures Has(AddAll(aggregate, t, rest), c.index)
    ensures AddAll(aggregate, AddOne(aggregate, t, c), rest) == AddOne(aggregate, AddAll(aggregate, t, rest), c)
  {
    if rest != [] {
      var init, last := rest[..|rest| - 1], rest[|rest| - 1];
      AddPastOthers(aggregate, t, init, c);
      AddOneCommutes(aggregate, AddAll(aggregate, t, init), last, c);
    }
  }

  lemma AddIntoMiddle(
    aggregate: bool, s: seq<Completion>, before: seq<Completion>, x: Completion, after: seq<Completion>, c: Completion)
    requires x.index == c.index && forall i | 0 <= i < |after| :: after[i].index != c.index
    ensures AddAll(aggregate, s, before + [Combine(aggregate, x, c)] + after) ==
            AddOne(aggregate, AddAll(aggregate, s, before + [x] + after), c)
  {
    var t := AddAll(aggregate, s, before);
    AddThree(aggregate, s, before, x, after);
    AddThree(aggregate, s, before, Combine(aggregate, x, c), after);
    AddOneTwice(aggregate, t, x, c);
    FindAfterAdd(aggregate, t, x, c.index);
    AddPastOthers(aggregate, AddOne(aggregate, t, x), after, c);
  }

  lemma AddOneIntoMessage(aggregate: bool, s: seq<Completion>, m: seq<Completion>, c: Completion)
    requires UniqueIndices(m)
    ensures AddAll(aggregate, s, AddOne(aggregate, m, c)) == AddOne(aggregate, AddAll(aggregate, s, m), c)
  {
    var i := Find(m, c.index);
    if i == |m| {
      assert (m + [c])[..|m|] == m;
    } else {
      var before, x, after := m[..i], m[i], m[i + 1..];
      assert m == before + [x] + after;
      assert m[i := Combine(aggregate, x, c)] == before + [Combine(aggregate, x, c)] + after;
      AddIntoMiddle(aggregate, s, before, x, after, c);
    }
  }

  lemma AddThree(aggregate: bool, s: seq<Completion>, before: seq<Completion>, x: Completion, after: seq<Completion>)
    ensures AddAll(aggregate, s, before + [x] + after) ==
            AddAll(aggregate, AddOne(aggregate, AddAll(aggregate, s, before), x), after)
  {
    AddAllConcat(aggregate, s, before + [x], after);
    assert (before + [x])[..|before|] == before;
  }

  lemma {:induction false} BatchingIsSound(aggregate: bool, s: seq<Completion>, m: seq<Completion>, n: seq<Completion>)
    requires UniqueIndices(m)
    ensures AddAll(aggregate, s, AddAll(aggregate, m, n)) == AddAll(aggregate, AddAll(aggregate, s, m), n)
  {
    if n != [] {
      var init := n[..|n| - 1];
      BatchingIsSound(aggregate, s, m, init);
      AddAllIndices(aggregate, m, init);
      AddOneIntoMessage(aggregate, s, AddAll(aggregate, m, init), n[|n| - 1]);
    }
  }

  // ----- merging with its assertion

  /** What `add` ends with: the outputs, whole or as an AssertionError leaves them. */
  datatype Outcome = Merged(outputs: seq<Completion>) | Raised(outputs: seq<Completion>)

  function MergeOne(aggregate: bool, s: seq<Completion>, c: Completion): Outcome {
    var i := Find(s, c.index);
    if aggregate && i < |s| && !Mergeable(s[i], c) then Raised(s[i := Halfway(s[i], c)])
    else Merged(AddOne(aggregate, s, c))
  }

  function MergeAll(aggregate: bool, s: seq<Completion>, next: seq<Completion>): Outcome {
    if next == [] then Merged(s)
    else
      var o := MergeAll(aggregate, s, next[..|next| - 1]);
      if o.Raised? then o else MergeOne(aggregate, o.outputs, next[|next| - 1])
  }

  function ValueOf(o: Outcome): Option<seq<Completion>> {
    if o.Merged? then Some(o.outputs) else None
  }

  /** Aggregating `next` into `s` never meets log-probabilities that have nowhere to go. */
  predicate Admissible(s: seq<Completion>, next: seq<Completion>) {
    next != [] ==>
      var init, c := next[..|next| - 1], next[|next| - 1];
      var t := AddAll(true, s, init);
      Admissible(s, init) && (Has(t, c.index) ==> Mergeable(t[Find(t, c.index)], c))
  }

  lemma {:induction false} MergeAllValue(aggregate: bool, s: seq<Completion>, next: seq<Completion>)
    ensures ValueOf(MergeAll(aggregate, s, next)) ==
            if aggregate && !Admissible(s, next) then None else Some(AddAll(aggregate, s, next))
  {
    if next != [] {
      MergeAllValue(aggregate, s, next[..|next| - 1]);
    }
  }

  lemma {:induction false} AdmissibleConcat(s: seq<Completion>, a: seq<Completion>, b: seq<Completion>)
    ensures Admissible(s, a + b) <==> Admissible(s, a) && Admissible(AddAll(true, s, a), b)
  {
    if b == [] {
      assert a + b == a;
    } else {
      var init := b[..|b| - 1];
      assert (a + b)[..|a + b| - 1] == a + init;
      AdmissibleConcat(s, a, init);
      AddAllConcat(true, s, a, init);
    }
  }

  // ----- exactly when the assertion holds

  /** Some completion with this index carries log-probabilities. */
  predicate Carries(cs: seq<Completion>, index: int) {
    exists k | 0 <= k < |cs| :: cs[k].index == index && Truthy(cs[k].logprobs)
  }

  /** The first completion with this index has a list of log-probabilities, if only an empty one. */
  predicate Starts(cs: seq<Completion>, index: int) {
    Has(cs, index) && cs[Find(cs, index)].logprobs.Some?
  }

  /** Every index that carries log-probabilities in `next` starts with a list of them. */
  ghost predicate Provided(s: seq<Completion>, next: seq<Completion>) {
    forall index | Carries(next, index) :: Starts(s + next, index)
  }

  lemma FindConcat(a: seq<Completion>, b: seq<Completion>, index: int)
    ensures Find(a + b, index) == if Has(a, index) then Find(a, index) else |a| + Find(b, index)
  {
    var f, i, j := Find(a + b, index), Find(a, index), Find(b, index);
    assert i < |a| ==> (a + b)[i].index == index;
    assert j < |b| ==> (a + b)[|a| + j].index == index;
    assert forall k | 0 <= k < |a| :: (a + b)[k] == a[k];
    assert forall k | |a| <= k < |a| + |b| :: (a + b)[k] == b[k - |a|];
  }

  lemma StartsConcat(a: seq<Completion>, b: seq<Completion>, index: int)
    ensures Has(a + b, index) <==> Has(a, index) || Has(b, index)
    ensures Starts(a + b, index) <==> if Has(a, index) then Starts(a, index) else Starts(b, index)
  {
    FindConcat(a, b, index);
  }

  lemma HasSome(cs: seq<Completion>, k: nat)
    requires k < |cs|
    ensures Has(cs, cs[k].index)
  {}

  lemma CarriesConcat(a: seq<Completion>, b: seq<Completion>, index: int)
    ensures Carries(a + b, index) <==> Carries(a, index) || Carries(b, index)
    ensures Carries(a, index) ==> Has(a, index)
  {
    assert forall k | 0 <= k < |a| :: (a + b)[k] == a[k];
    assert forall k | 0 <= k < |b| :: (a + b)[|a| + k] == b[k];
    if Carries(a, index) {
      var k :| 0 <= k < |a| && a[k].index == index && Truthy(a[k].logprobs);
      HasSome(a, k);
    }
  }

  lemma StartsAfterAdd(t: seq<Completion>, cs: seq<Completion>, c: Completion, index: int)
    requires Has(t, c.index) ==> Mergeable(t[Find(t, c.index)], c)
    requires (Has(t, index) <==> Has(cs, index)) && (Starts(t, index) <==> Starts(cs, index))
    ensures Has(AddOne(true, t, c), index) <==> Has(cs + [c], index)
    ensures Starts(AddOne(true, t, c), index) <==> Starts(cs + [c], index)
  {
    FindAfterAdd(true, t, c, index);
    FindConcat(cs, [c], index);
  }

  /** An admissible merge keeps, for every index, whether it started with a list. */
  lemma {:induction false} StartsAfterMerge(s: seq<Completion>, next: seq<Completion>, index: int)
    requires Admissible(s, next)
    ensures Has(AddAll(true, s, next), index) <==> Has(s + next, index)
    ensures Starts(AddAll(true, s, next), index) <==> Starts(s + next, index)
  {
    if next == [] {
      assert s + next == s;
    } else {
      var init, c := next[..|next| - 1], next[|next| - 1];
      StartsAfterMerge(s, init, index);
      StartsAfterAdd(AddAll(true, s, init), s + init, c, index);
      assert s + next == s + init + [c];
    }
  }

  lemma ProvidedStep(s: seq<Completion>, init: seq<Completion>, c: Completion)
    ensures Provided(s, init + [c]) <==>
            Provided(s, init) && (Truthy(c.logprobs) && Has(s + init, c.index) ==> Starts(s + init, c.index))
  {
    assert s + (init + [c]) == s + init + [c];
    assert Truthy(c.logprobs) ==> [c][0].index == c.index && Carries([c], c.index);
    forall index
      ensures Carries(init + [c], index) <==> Carries(init, index) || (c.index == index && Truthy(c.logprobs))
      ensures Has(s + init, index) ==> (Starts(s + init + [c], index) <==> Starts(s + init, index))
      ensures !Has(s + init, c.index) && Truthy(c.logprobs) ==> Starts(s + init + [c], c.index)
      ensures Carries(init, index) ==> Has(s + init, index)
    {
      CarriesConcat(init, [c], index);
      StartsConcat(s + init, [c], index);
      StartsConcat(s + init, [c], c.index);
      StartsConcat(s, init, index);
    }
  }

  /** The assertion, exactly: it never fails if and only if every index that carries log-probabilities
      in `next` starts with a list of them, in `s` or else in `next`. */
  lemma {:induction false} AdmissibleExactly(s: seq<Completion>, next: seq<Completion>)
    ensures Admissible(s, next) <==> Provided(s, next)
  {
    if next != [] {
      var init, c := next[..|next| - 1], next[|next| - 1];
      assert next == init + [c];
      AdmissibleExactly(s, init);
      ProvidedStep(s, init, c);
      if Admissible(s, init) {
        StartsAfterMerge(s, init, c.index);
      }
    }
  }

  // ----- exactly when batching is sound

  /** Merge `m`, then `n`; None for an AssertionError. */
  function StepByStep(aggregate: bool, s: seq<Completion>, m: seq<Completion>, n: seq<Completion>)
    : Option<seq<Completion>>
  {
    var o := MergeAll(aggregate, s, m);
    if o.Raised? then None else ValueOf(MergeAll(aggregate, o.outputs, n))
  }

  /** Merge `n` into `m` beforehand. */
  function Batched(aggregate: bool, s: seq<Completion>, m: seq<Completion>, n: seq<Completion>)
    : Option<seq<Completion>>
  {
    var o := MergeAll(aggregate, m, n);
    if o.Raised? then None else ValueOf(MergeAll(aggregate, s, o.outputs))
  }

  lemma StepByStepValue(aggregate: bool, s: seq<Completion>, m: seq<Completion>, n: seq<Completion>)
    ensures StepByStep(aggregate, s, m, n) ==
            if aggregate && !Admissible(s, m + n) then None else Some(AddAll(aggregate, s, m + n))
  {
    MergeAllValue(aggregate, s, m);
    MergeAllValue(aggregate, AddAll(aggregate, s, m), n);
    AdmissibleConcat(s, m, n);
    AddAllConcat(aggregate, s, m, n);
  }

  lemma BatchedValue(aggregate: bool, s: seq<Completion>, m: seq<Completion>, n: seq<Completion>)
    ensures Batched(aggregate, s, m, n) ==
      var b := AddAll(aggregate, m, n);
      if aggregate && !(Admissible(m, n) && Admissible(s, b)) then None else Some(AddAll(aggregate, s, b))
  {
    MergeAllValue(aggregate, m, n);
    MergeAllValue(aggregate, s, AddAll(aggregate, m, n));
  }

  lemma {:induction false} CarriesAfterMerge(m: seq<Completion>, n: seq<Completion>, index: int)
    ensures Carries(AddAll(true, m, n), index) <==> Carries(m + n, index)
  {
    if n == [] {
      assert m + n == m;
    } else {
      var init, c := n[..|n| - 1], n[|n| - 1];
      CarriesAfterMerge(m, init, index);
      assert m + n == m + init + [c];
      CarriesConcat(m + init, [c], index);
      CarriesAfterAdd(AddAll(true, m, init), c, index);
      assert [c][0] == c;
    }
  }

  lemma CarriesAfterAdd(t: seq<Completion>, c: Completion, index: int)
    ensures Carries(AddOne(true, t, c), index) <==> Carries(t, index) || (c.index == index && Truthy(c.logprobs))
  {
    var r, i := AddOne(true, t, c), Find(t, c.index);
    assert r[i].index == c.index;
    assert forall k | 0 <= k < |t| && k != i :: r[k] == t[k];
    assert Truthy(r[i].logprobs) <==> Truthy(c.logprobs) || (i < |t| && Truthy(t[i].logprobs));
  }

  /** Once merging `n` into `m` succeeds, merging the batch raises exactly when merging one by one does. */
  lemma BatchIsAdmissible(s: seq<Completion>, m: seq<Completion>, n: seq<Completion>)
    requires Admissible(m, n)
    ensures Admissible(s, AddAll(true, m, n)) <==> Admissible(s, m + n)
  {
    var b := AddAll(true, m, n);
    AdmissibleExactly(s, b);
    AdmissibleExactly(s, m + n);
    forall index
      ensures Carries(b, index) <==> Carries(m + n, index)
      ensures Starts(s + b, index) <==> Starts(s + (m + n), index)
    {
      CarriesAfterMerge(m, n, index);
      StartsAfterMerge(m, n, index);
      StartsConcat(s, b, index);
      StartsConcat(s, m + n, index);
    }
  }

  /** Outputs with the indices of `cs` that can take log-probabilities. */
  function Receivers(cs: seq<Completion>): seq<Completion> {
    seq(|cs|, i requires 0 <= i < |cs| => cs[i].(logprobs := Some([])))
  }

  lemma ReceiversTakeAll(base: seq<Completion>, cs: seq<Completion>)
    requires forall k | 0 <= k < |cs| :: Has(base, cs[k].index)
    ensures Admissible(Receivers(base), cs)
  {
    var s := Receivers(base);
    forall index | Carries(cs, index) ensures Starts(s + cs, index) {
      var k :| 0 <= k < |cs| && cs[k].index == index;
      var i := Find(base, index);
      assert s[i].index == index;
      StartsConcat(s, cs, index);
    }
    AdmissibleExactly(s, cs);
  }

  /** Batching into a message that repeats no index, exactly: it never changes the outcome if and only if
      every index that carries log-probabilities in `n` starts with a list of them in `m` or in `n`. */
  lemma BatchingExactFor(aggregate: bool, m: seq<Completion>, n: seq<Completion>)
    requires UniqueIndices(m)
    ensures (aggregate ==> Provided(m, n)) <==>
            forall s :: Batched(aggregate, s, m, n) == StepByStep(aggregate, s, m, n)
  {
    AdmissibleExactly(m, n);
    if aggregate ==> Provided(m, n) {
      forall s ensures Batched(aggregate, s, m, n) == StepByStep(aggregate, s, m, n) {
        BatchedIsStepByStep(aggregate, s, m, n);
      }
    } else {
      var s := Receivers(m + n);
      BatchedValue(true, s, m, n);
      StepByStepValue(true, s, m, n);
      forall k | 0 <= k < |m + n| ensures Has(m + n, (m + n)[k].index) { HasSome(m + n, k); }
      ReceiversTakeAll(m + n, m + n);
      assert Batched(aggregate, s, m, n) != StepByStep(aggregate, s, m, n);
    }
  }

  lemma BatchedIsStepByStep(aggregate: bool, s: seq<Completion>, m: seq<Completion>, n: seq<Completion>)
    requires UniqueIndices(m) && (aggregate ==> Admissible(m, n))
    ensures Batched(aggregate, s, m, n) == StepByStep(aggregate, s, m, n)
  {
    BatchedValue(aggregate, s, m, n);
    StepByStepValue(aggregate, s, m, n);
    BatchingIsSound(aggregate, s, m, n);
    AddAllConcat(aggregate, s, m, n);
    if aggregate {
      BatchIsAdmissible(s, m, n);
    }
  }

  /** The finish reason that the last completion with an index carries. */
  function LastReason(cs: seq<Completion>, index: int): Option<string> {
    if cs == [] then None
    else if cs[|cs| - 1].index == index then cs[|cs| - 1].finishReason
    else LastReason(cs[..|cs| - 1], index)
  }

  lemma {:induction false} FinalReason(aggregate: bool, s: seq<Completion>, cs: seq<Completion>, k: nat)
    requires k < |cs|
    ensures
      var r, index := AddAll(aggregate, s, cs), cs[k].index;
      Has(r, index) && r[Find(r, index)].finishReason == LastReason(cs, index)
  {
    var init, c, index := cs[..|cs| - 1], cs[|cs| - 1], cs[k].index;
    FindAfterAdd(aggregate, AddAll(aggregate, s, init), c, index);
    if c.index != index {
      assert init[k] == cs[k];
      FinalReason(aggregate, s, init, k);
    }
  }

  /** Changing an earlier completion does not change the last reason. */
  lemma {:induction false} LastReasonFrame(cs: seq<Completion>, index: int, p: nat, q: nat, c: Completion)
    requires p < q < |cs| && cs[q].index == index && c.index == cs[p].index
    ensures LastReason(cs[p := c], index) == LastReason(cs, index)
  {
    var n := |cs| - 1;
    if cs[n].index != index {
      assert cs[p := c][..n] == cs[..n][p := c];
      LastReasonFrame(cs[..n], index, p, q, c);
    }
  }

  /** A message that repeats an index tells batched from stepwise merging apart, without any assertion
      failing. */
  lemma RepeatBreaksBatching(aggregate: bool, m: seq<Completion>, p: nat, q: nat)
    returns (s: seq<Completion>, n: seq<Completion>)
    requires p < q < |m| && m[p].index == m[q].index
    ensures UniqueIndices(n)
    ensures
      var batched, stepwise := Batched(aggregate, s, m, n), StepByStep(aggregate, s, m, n);
      batched.Some? && stepwise.Some? && batched != stepwise
  {
    var index := m[q].index;
    var reason := if LastReason(m, index).None? then Some("stop") else None;
    var c := Completion(index, "", [], None, None, None, reason, None);
    s, n := Receivers(m), [c];
    var f := Find(m, index);
    var batch := m[f := Combine(aggregate, m[f], c)];
    assert n[..0] == [] && AddAll(aggregate, m, n) == batch && AddAll(true, m, []) == m;
    NothingRaises(s, m, c, f, batch);
    BatchedValue(aggregate, s, m, n);
    StepByStepValue(aggregate, s, m, n);
    LastReasonFrame(m, index, f, q, Combine(aggregate, m[f], c));
    FinalReason(aggregate, s, batch, q);
    assert (m + n)[|m|] == c;
    FinalReason(aggregate, s, m + n, |m|);
  }

  lemma NothingRaises(s: seq<Completion>, m: seq<Completion>, c: Completion, f: nat, batch: seq<Completion>)
    requires s == Receivers(m) && !Truthy(c.logprobs) && f == Find(m, c.index) < |m| == |batch|
    requires forall k | 0 <= k < |m| :: batch[k].index == m[k].index
    ensures Admissible(m, [c]) && Admissible(s, batch) && Admissible(s, m + [c])
  {
    assert [c][..0] == [] && [c][0] == c && AddAll(true, m, []) == m;
    forall k | 0 <= k < |m| ensures Has(m, m[k].index) { HasSome(m, k); }
    ReceiversTakeAll(m, batch);
    ReceiversTakeAll(m, m + [c]);
  }

  predicate AllListed(m: seq<Completion>) {
    forall k | 0 <= k < |m| :: m[k].logprobs.Some?
  }

  /** Batching of messages that repeat no index, exactly: pre-merging such messages into `m` never changes
      the outcome if and only if `m` repeats no index and, with aggregation, every completion of `m` has a
      list of log-probabilities. */
  lemma BatchingExact(aggregate: bool, m: seq<Completion>)
    ensures UniqueIndices(m) && (aggregate ==> AllListed(m)) <==>
      forall s, n | UniqueIndices(n) :: Batched(aggregate, s, m, n) == StepByStep(aggregate, s, m, n)
  {
    if !UniqueIndices(m) {
      var p, q :| 0 <= p < q < |m| && m[p].index == m[q].index;
      var s, n := RepeatBreaksBatching(aggregate, m, p, q);
    } else if aggregate && !AllListed(m) {
      var s, n := UnlistedBreaksBatching(m);
    } else {
      forall s, n | UniqueIndices(n)
        ensures Batched(aggregate, s, m, n) == StepByStep(aggregate, s, m, n)
      {
        if aggregate {
          ListedProvides(m, n);
          AdmissibleExactly(m, n);
        }
        BatchedIsStepByStep(aggregate, s, m, n);
      }
    }
  }

  lemma ListedProvides(m: seq<Completion>, n: seq<Completion>)
    requires AllListed(m) && UniqueIndices(n)
    ensures Provided(m, n)
  {
    forall index | Carries(n, index) ensures Starts(m + n, index) {
      var k :| 0 <= k < |n| && n[k].index == index && Truthy(n[k].logprobs);
      StartsConcat(m, n, index);
      assert Find(n, index) == k;
    }
  }

  /** A completion with log-probabilities for an index of `m` that has no list. */
  lemma UnlistedBreaksBatching(m: seq<Completion>) returns (s: seq<Completion>, n: seq<Completion>)
    requires UniqueIndices(m) && !AllListed(m)
    ensures UniqueIndices(n) && Batched(true, s, m, n) != StepByStep(true, s, m, n)
  {
    var k :| 0 <= k < |m| && m[k].logprobs.None?;
    n := [Completion(m[k].index, "", [], None, Some([[]]), None, None, None)];
    assert Find(m, m[k].index) == k;
    StartsConcat(m, n, m[k].index);
    assert n[0].index == m[k].index && Truthy(n[0].logprobs) && Carries(n, m[k].index);
    BatchingExactFor(true, m, n);
    s :| Batched(true, s, m, n) != StepByStep(true, s, m, n);
  }

  /** An index above all others. */
  function NewIndex(m: seq<Completion>): (x: int)
    ensures forall k | 0 <= k < |m| :: m[k].index < x
  {
    if m == [] then 0
    else
      var x, y := NewIndex(m[..|m| - 1]), m[|m| - 1].index;
      if y < x then x else y + 1
  }

  /** No message can be batched with everything under aggregation: `n` may first deliver a new index
      without log-probabilities and then with them. */
  lemma NoMessageTakesEveryBatch(m: seq<Completion>) returns (s: seq<Completion>, n: seq<Completion>)
    ensures Batched(true, s, m, n) != StepByStep(true, s, m, n)
  {
    if UniqueIndices(m) {
      var x := NewIndex(m);
      var first := Completion(x, "", [], None, None, None, None, None);
      n := [first, first.(logprobs := Some([[]]))];
      assert Find(n, x) == 0 && n[1].index == x && Truthy(n[1].logprobs) && Carries(n, x);
      StartsConcat(m, n, x);
      BatchingExactFor(true, m, n);
      s :| Batched(true, s, m, n) != StepByStep(true, s, m, n);
    } else {
      var p, q :| 0 <= p < q < |m| && m[p].index == m[q].index;
      s, n := RepeatBreaksBatching(true, m, p, q);
    }
  }

  // ----- whole request outputs

  /** `add` on whole request outputs; None for the AssertionError. */
  function TryAdd(aggregate: bool, r: Req, next: Req): Option<Req> {
    if MergeAll(aggregate, r.outputs, next.outputs).Raised? then None else Some(Add(aggregate, r, next))
  }

  function AddStepByStep(aggregate: bool, r: Req, m: Req, n: Req): Option<Req> {
    var o := TryAdd(aggregate, r, m);
    if o.None? then None else TryAdd(aggregate, o.value, n)
  }

  function AddBatched(aggregate: bool, r: Req, m: Req, n: Req): Option<Req> {
    var o := TryAdd(aggregate, m, n);
    if o.None? then None else TryAdd(aggregate, r, o.value)
  }

  lemma AddOutputs(aggregate: bool, r: Req, m: Req, n: Req)
    ensures AddStepByStep(aggregate, r, m, n) == AddBatched(aggregate, r, m, n) <==>
            StepByStep(aggregate, r.outputs, m.outputs, n.outputs) == Batched(aggregate, r.outputs, m.outputs, n.outputs)
  {
    MergeAllValue(aggregate, r.outputs, m.outputs);
    MergeAllValue(aggregate, m.outputs, n.outputs);
    MergeAllValue(aggregate, AddAll(aggregate, r.outputs, m.outputs), n.outputs);
    MergeAllValue(aggregate, r.outputs, AddAll(aggregate, m.outputs, n.outputs));
  }

  /** Whole request outputs merge associatively into every output, exactly under the same condition. */
  lemma AddAssociative(aggregate: bool, m: Req, n: Req)
    requires UniqueIndices(m.outputs)
    ensures (aggregate ==> Provided(m.outputs, n.outputs)) <==>
            forall r :: AddBatched(aggregate, r, m, n) == AddStepByStep(aggregate, r, m, n)
  {
    BatchingExactFor(aggregate, m.outputs, n.outputs);
    if aggregate ==> Provided(m.outputs, n.outputs) {
      forall r ensures AddBatched(aggregate, r, m, n) == AddStepByStep(aggregate, r, m, n) {
        AddOutputs(aggregate, r, m, n);
      }
    } else {
      var s :| Batched(aggregate, s, m.outputs, n.outputs) != StepByStep(aggregate, s, m.outputs, n.outputs);
      var r := Req(s, false, None, None);
      AddOutputs(aggregate, r, m, n);
      assert AddBatched(aggregate, r, m, n) != AddStepByStep(aggregate, r, m, n);
    }
  }

  // ----- what merging keeps and what it replaces

  /** Aggregation keeps the routed experts that an index came with first. */
  lemma {:induction false} KeepsFirstExperts(s: seq<Completion>, cs: seq<Completion>, index: int)
    requires Has(s + cs, index)
    ensures
      var r := AddAll(true, s, cs);
      Has(r, index) && r[Find(r, index)].routedExperts == (s + cs)[Find(s + cs, index)].routedExperts
  {
    if cs == [] {
      assert s + cs == s;
    } else {
      var init, c := cs[..|cs| - 1], cs[|cs| - 1];
      assert s + cs == s + init + [c];
      FindConcat(s + init, [c], index);
      FindAfterAdd(true, AddAll(true, s, init), c, index);
      if Has(s + init, index) {
        KeepsFirstExperts(s, init, index);
      } else {
        AddsNoIndex(s, init, index);
      }
    }
  }

  lemma {:induction false} AddsNoIndex(s: seq<Completion>, cs: seq<Completion>, index: int)
    requires !Has(s + cs, index)
    ensures !Has(AddAll(true, s, cs), index)
  {
    if cs == [] {
      assert s + cs == s;
    } else {
      var init, c := cs[..|cs| - 1], cs[|cs| - 1];
      assert s + cs == s + init + [c];
      FindConcat(s + init, [c], index);
      AddsNoIndex(s, init, index);
      FindAfterAdd(true, AddAll(true, s, init), c, index);
    }
  }

  /** The last completion with the index of `cs[k]`. */
  function LastWith(cs: seq<Completion>, k: nat): Completion
    requires k < |cs|
  {
    var last := cs[|cs| - 1];
    if last.index == cs[k].index then last else LastWith(cs[..|cs| - 1], k)
  }

  /** Replacement ends with the last completion of every index, whole. */
  lemma {:induction false} ReplacesByLast(s: seq<Completion>, cs: seq<Completion>, k: nat)
    requires k < |cs|
    ensures
      var r, index := AddAll(false, s, cs), cs[k].index;
      Has(r, index) && r[Find(r, index)] == LastWith(cs, k)
  {
    var init, c, index := cs[..|cs| - 1], cs[|cs| - 1], cs[k].index;
    FindAfterAdd(false, AddAll(false, s, init), c, index);
    if c.index != index {
      assert init[k] == cs[k];
      ReplacesByLast(s, init, k);
    }
  }

  /** What an AssertionError leaves: everything before the completion that raised it is merged, and of that
      one the text and the tokens. */
  lemma {:induction false} RaisedLeaves(s: seq<Completion>, next: seq<Completion>) returns (k: nat)
    requires MergeAll(true, s, next).Raised?
    ensures k < |next| && Admissible(s, next[..k])
    ensures
      var t, c := AddAll(true, s, next[..k]), next[k];
      var i := Find(t, c.index);
      && i < |t| && t[i].logprobs.None? && Truthy(c.logprobs)
      && MergeAll(true, s, next).outputs ==
         t[i := t[i].(text := t[i].text + c.text, tokenIds := t[i].tokenIds + c.tokenIds)]
  {
    var n := |next| - 1;
    if MergeAll(true, s, next[..n]).Raised? {
      k := RaisedLeaves(s, next[..n]);
      assert next[..n][..k] == next[..k];
    } else {
      k := n;
      MergeAllValue(true, s, next[..n]);
    }
  }

  /** Merging messages one by one. */
  function AddMessages(aggregate: bool, r: Req, messages: seq<Req>): Req {
    if messages == [] then r
    else Add(aggregate, AddMessages(aggregate, r, messages[..|messages| - 1]), messages[|messages| - 1])
  }

  /** The last value that is present. */
  function LastPresent(first: Option<seq<int>>, messages: seq<Req>): Option<seq<int>> {
    if messages == [] then first
    else if messages[|messages| - 1].promptRoutedExperts.Some? then messages[|messages| - 1].promptRoutedExperts
    else LastPresent(first, messages[..|messages| - 1])
  }

  /** Over a stream a request is finished once any message says so, has the transfer parameters of the last
      message, and the prompt's routed experts last reported. */
  lemma {:induction false} FieldsOverStream(aggregate: bool, r: Req, messages: seq<Req>)
    ensures
      var a := AddMessages(aggregate, r, messages);
      && (a.finished <==> r.finished || exists i | 0 <= i < |messages| :: messages[i].finished)
      && a.kvTransferParams ==
         (if messages == [] then r.kvTransferParams else messages[|messages| - 1].kvTransferParams)
      && a.promptRoutedExperts == LastPresent(r.promptRoutedExperts, messages)
  {
    if messages != [] {
      var n := |messages| - 1;
      FieldsOverStream(aggregate, r, messages[..n]);
      assert forall i | 0 <= i < n :: messages[..n][i] == messages[i];
    }
  }

  // ----- delta streams and cumulative streams

  datatype Total = Total(text: string, tokenIds: seq<int>, logprobs: seq<Logprobs.Dict>)

  /** All that the completions with one index delivered, in order. */
  function TotalOf(cs: seq<Completion>, index: int): Total {
    if cs == [] then Total("", [], [])
    else
      var t, c := TotalOf(cs[..|cs| - 1], index), cs[|cs| - 1];
      if c.index == index then
        Total(t.text + c.text, t.tokenIds + c.tokenIds, t.logprobs + Listed(c.logprobs))
      else t
  }

  /** Log-probabilities are always or never present, index by index. */
  ghost predicate Steady(cs: seq<Completion>, present: int -> bool) {
    forall k | 0 <= k < |cs| :: cs[k].logprobs.Some? == present(cs[k].index)
  }

  /** `u` reports as a total what `c` reports as a delta. */
  predicate Reports(u: Completion, c: Completion, total: Total) {
    && u.index == c.index
    && u.text == total.text
    && u.tokenIds == total.tokenIds
    && u.logprobs == (if c.logprobs.Some? then Some(total.logprobs) else None)
    && u.cumulativeLogprob == c.cumulativeLogprob
    && u.finishReason == c.finishReason
    && u.stopReason == c.stopReason
  }

  predicate Cumulates(us: seq<Completion>, cs: seq<Completion>) {
    && |us| == |cs|
    && forall k | 0 <= k < |cs| :: Reports(us[k], cs[k], TotalOf(cs[..k + 1], cs[k].index))
  }

  /** Equal but for the routed experts, of which aggregation keeps the first and replacement the last. */
  predicate Same(a: Completion, b: Completion) {
    a.(routedExperts := None) == b.(routedExperts := None)
  }

  predicate SameOutputs(a: seq<Completion>, b: seq<Completion>) {
    |a| == |b| && forall i | 0 <= i < |a| :: Same(a[i], b[i])
  }

  predicate HoldsTotal(o: Completion, total: Total, present: bool) {
    && o.text == total.text
    && o.tokenIds == total.tokenIds
    && o.logprobs == if present then Some(total.logprobs) else None
  }

  /** `outputs` hold the totals of `cs`. */
  ghost predicate HoldsTotals(outputs: seq<Completion>, cs: seq<Completion>, present: int -> bool) {
    && (forall i | 0 <= i < |outputs| ::
          HoldsTotal(outputs[i], TotalOf(cs, outputs[i].index), present(outputs[i].index)))
    && (forall index | !Has(outputs, index) :: TotalOf(cs, index) == Total("", [], []))
  }

  lemma SameFind(a: seq<Completion>, b: seq<Completion>, index: int)
    requires SameOutputs(a, b)
    ensures Find(a, index) == Find(b, index)
  {
    var i, j := Find(a, index), Find(b, index);
    assert i < |a| ==> Same(a[i], b[i]);
    assert j < |b| ==> Same(a[j], b[j]);
  }

  lemma TotalStep(cs: seq<Completion>, c: Completion, index: int)
    ensures TotalOf(cs + [c], index) ==
      var t := TotalOf(cs, index);
      if c.index == index then Total(t.text + c.text, t.tokenIds + c.tokenIds, t.logprobs + Listed(c.logprobs)) else t
  {
    assert (cs + [c])[..|cs|] == cs;
  }

  lemma HoldsTotalStep(o: Completion, t: Total, c: Completion, present: bool)
    requires c.logprobs.Some? == present
    ensures
      var next := Total(t.text + c.text, t.tokenIds + c.tokenIds, t.logprobs + Listed(c.logprobs));
      && (HoldsTotal(o, t, present) ==> HoldsTotal(Combine(true, o, c), next, present))
      && (t == Total("", [], []) ==> HoldsTotal(c, next, present))
  {
    assert t.logprobs + [] == t.logprobs && "" + c.text == c.text;
    assert [] + c.tokenIds == c.tokenIds && [] + Listed(c.logprobs) == Listed(c.logprobs);
  }

  lemma HoldsTotalsStep(outputs: seq<Completion>, cs: seq<Completion>, c: Completion, present: int -> bool)
    requires HoldsTotals(outputs, cs, present) && UniqueIndices(outputs) && c.logprobs.Some? == present(c.index)
    ensures HoldsTotals(AddOne(true, outputs, c), cs + [c], present)
  {
    var r := AddOne(true, outputs, c);
    forall index | !Has(r, index) ensures TotalOf(cs + [c], index) == Total("", [], []) {
      FindAfterAdd(true, outputs, c, index);
      TotalStep(cs, c, index);
    }
    forall i | 0 <= i < |r| ensures HoldsTotal(r[i], TotalOf(cs + [c], r[i].index), present(r[i].index)) {
      TotalStep(cs, c, r[i].index);
      if i == Find(outputs, c.index) {
        HoldsTotalStep(if i < |outputs| then outputs[i] else c, TotalOf(cs, c.index), c, present(c.index));
      }
    }
  }

  lemma SameStep(
    d: seq<Completion>, e: seq<Completion>, c: Completion, u: Completion, cs: seq<Completion>, present: int -> bool)
    requires SameOutputs(d, e) && HoldsTotals(AddOne(true, d, c), cs, present)
    requires c.logprobs.Some? == present(c.index) && Reports(u, c, TotalOf(cs, c.index))
    ensures SameOutputs(AddOne(true, d, c), AddOne(false, e, u))
  {
    SameFind(d, e, c.index);
    var i, r := Find(d, c.index), AddOne(true, d, c);
    assert r[i].index == c.index;
    assert HoldsTotal(r[i], TotalOf(cs, c.index), present(c.index));
    assert Same(r[i], u);
  }

  lemma CumulatesPrefix(us: seq<Completion>, cs: seq<Completion>, n: nat)
    requires Cumulates(us, cs) && n <= |cs|
    ensures Cumulates(us[..n], cs[..n])
  {
    forall k | 0 <= k < n ensures Reports(us[..n][k], cs[..n][k], TotalOf(cs[..n][..k + 1], cs[..n][k].index)) {
      assert cs[..n][..k + 1] == cs[..k + 1];
    }
  }

  lemma {:induction false} SteadyIsAdmissible(s: seq<Completion>, next: seq<Completion>, present: int -> bool)
    requires Steady(s, present) && Steady(next, present)
    ensures Admissible(s, next) && Steady(AddAll(true, s, next), present)
  {
    if next != [] {
      SteadyIsAdmissible(s, next[..|next| - 1], present);
    }
  }

  lemma {:induction false} AggregateHoldsTotals(cs: seq<Completion>, present: int -> bool)
    requires Steady(cs, present)
    ensures MergeAll(true, [], cs) == Merged(AddAll(true, [], cs))
    ensures HoldsTotals(AddAll(true, [], cs), cs, present)
  {
    SteadyIsAdmissible([], cs, present);
    MergeAllValue(true, [], cs);
    if cs != [] {
      var n := |cs| - 1;
      AggregateHoldsTotals(cs[..n], present);
      AddAllIndices(true, [], cs[..n]);
      HoldsTotalsStep(AddAll(true, [], cs[..n]), cs[..n], cs[n], present);
      assert cs[..n] + [cs[n]] == cs;
    }
  }

  /** Folding deltas gives what folding the matching totals gives. */
  lemma {:induction false} DeltaEqualsCumulative(cs: seq<Completion>, us: seq<Completion>, present: int -> bool)
    requires Steady(cs, present) && Cumulates(us, cs)
    ensures SameOutputs(AddAll(true, [], cs), AddAll(false, [], us))
  {
    if cs != [] {
      var n := |cs| - 1;
      CumulatesPrefix(us, cs, n);
      DeltaEqualsCumulative(cs[..n], us[..n], present);
      AggregateHoldsTotals(cs, present);
      assert cs[..n + 1] == cs && Reports(us[n], cs[n], TotalOf(cs, cs[n].index));
      SameStep(AddAll(true, [], cs[..n]), AddAll(false, [], us[..n]), cs[n], us[n], cs, present);
    }
  }

  // ----- streams of messages

  function Flatten(messages: seq<seq<Completion>>): seq<Completion> {
    if messages == [] then [] else Flatten(messages[..|messages| - 1]) + messages[|messages| - 1]
  }

  /** The outputs after merging the messages one by one into an empty request output, or None once an
      assertion fails. */
  function Streamed(aggregate: bool, messages: seq<seq<Completion>>): Option<seq<Completion>> {
    if messages == [] then Some([])
    else
      var o := Streamed(aggregate, messages[..|messages| - 1]);
      if o.None? then None else ValueOf(MergeAll(aggregate, o.value, messages[|messages| - 1]))
  }

  /** How completions are grouped into messages does not matter. */
  lemma {:induction false} StreamedIsFlat(aggregate: bool, messages: seq<seq<Completion>>)
    ensures Streamed(aggregate, messages) == ValueOf(MergeAll(aggregate, [], Flatten(messages)))
  {
    if messages != [] {
      var init, last := messages[..|messages| - 1], messages[|messages| - 1];
      StreamedIsFlat(aggregate, init);
      StepByStepValue(aggregate, [], Flatten(init), last);
      MergeAllValue(aggregate, [], Flatten(init) + last);
      MergeAllValue(aggregate, [], Flatten(init));
    }
  }

  lemma {:induction false} FlattenPrefix(messages: seq<seq<Completion>>, k: nat)
    requires k <= |messages|
    ensures Flatten(messages[..k]) <= Flatten(messages)
  {
    var n := |messages|;
    if k == n {
      assert messages[..k] == messages;
    } else {
      assert messages[..n - 1][..k] == messages[..k];
      FlattenPrefix(messages[..n - 1], k);
    }
  }

  /** Delta equals cumulative: merging a delta stream with aggregation and the matching cumulative stream
      by replacement never raises, and gives the same completions in the same order whenever both have
      delivered equally many, whatever the grouping into messages. */
  lemma StreamsAgree(ds: seq<seq<Completion>>, us: seq<seq<Completion>>, present: int -> bool, j: nat, k: nat)
    requires Steady(Flatten(ds), present) && Cumulates(Flatten(us), Flatten(ds))
    requires j <= |ds| && k <= |us| && |Flatten(ds[..j])| == |Flatten(us[..k])|
    ensures
      var d, u := Streamed(true, ds[..j]), Streamed(false, us[..k]);
      d.Some? && u.Some? && SameOutputs(d.value, u.value)
  {
    FlattenPrefix(ds, j);
    FlattenPrefix(us, k);
    StreamedIsFlat(true, ds[..j]);
    StreamedIsFlat(false, us[..k]);
    PrefixesAgree(Flatten(ds), Flatten(us), present, Flatten(ds[..j]), Flatten(us[..k]));
  }

  lemma PrefixesAgree(
    cs: seq<Completion>, us: seq<Completion>, present: int -> bool, c: seq<Completion>, u: seq<Completion>)
    requires Steady(cs, present) && Cumulates(us, cs) && c <= cs && u <= us && |c| == |u|
    ensures
      var d, e := MergeAll(true, [], c), MergeAll(false, [], u);
      d.Merged? && e.Merged? && SameOutputs(d.outputs, e.outputs)
  {
    CumulatesPrefix(us, cs, |c|);
    assert cs[..|c|] == c && us[..|c|] == u;
    DeltaEqualsCumulative(c, u, present);
    AggregateHoldsTotals(c, present);
    MergeAllValue(false, [], u);
  }

  /** A first message that repeats no index is what merging it into nothing gives. */
  lemma {:induction false} FirstMessage(aggregate: bool, m: seq<Completion>)
    requires UniqueIndices(m)
    ensures AddAll(aggregate, [], m) == m
  {
    if m != [] {
      FirstMessage(aggregate, m[..|m| - 1]);
    }
  }
}
