/** Bounded event tracing by concurrent threads: vllm/sm75_attention_trace.py.

    A thread that traces an event takes the lock, tests and updates the global set step by step, leaves
    the lock, and logs afterwards.  A run is any sequence of actions, one thread step at a time, so it
    covers every interleaving.  Each admission is tagged with the number of resets before it; the tag is
    bookkeeping of the model. */
module AttentionTrace {
  import opened Wrappers

  /** An event and its keyword fields; the order of the fields does not matter. */
  datatype Event = Event(name: string, fields: map<string, string>)

  datatype Tagged = Tagged(event: Event, epoch: nat)

  type Thread = nat

  datatype Pc =
    | Idle
    | Wants(event: Event)
    | Locked(event: Event)
    | Unseen(event: Event)
    | Roomy(event: Event)
    | Added(tag: Tagged)
    | Logging(tag: Tagged)
    | WantsReset
    | Resetting

  /** `past` holds the seen sets of earlier epochs, `mark` the length of the log at the last reset. */
  datatype State = State(
    pcs: map<Thread, Pc>, lock: Option<Thread>, seen: set<Event>, past: seq<set<Event>>, logged: seq<Tagged>, mark: nat)

  datatype Action = Call(thread: Thread, event: Event) | CallReset(thread: Thread) | Advance(thread: Thread)

  function At(s: State, t: Thread, pc: Pc): State {
    s.(pcs := s.pcs[t := pc])
  }

  /** The next step of a thread; a thread that waits for the lock stays. */
  function Step(limit: nat, s: State, t: Thread): State
    requires t in s.pcs
  {
    match s.pcs[t]
    case Idle => s
    case Wants(e) => if s.lock == None then At(s, t, Locked(e)).(lock := Some(t)) else s
    case Locked(e) => if e in s.seen then At(s, t, Idle).(lock := None) else At(s, t, Unseen(e))
    case Unseen(e) => if |s.seen| >= limit then At(s, t, Idle).(lock := None) else At(s, t, Roomy(e))
    case Roomy(e) => At(s, t, Added(Tagged(e, |s.past|))).(seen := s.seen + {e})
    case Added(tag) => At(s, t, Logging(tag)).(lock := None)
    case Logging(tag) => At(s, t, Idle).(logged := s.logged + [tag])
    case WantsReset => if s.lock == None then At(s, t, Resetting).(lock := Some(t)) else s
    case Resetting => At(s, t, Idle).(lock := None, past := s.past + [s.seen], seen := {}, mark := |s.logged|)
  }

  function Apply(limit: nat, s: State, a: Action): State {
    if a.thread !in s.pcs then s
    else match a
      case Call(t, e) => if s.pcs[t] == Idle then At(s, t, Wants(e)) else s
      case CallReset(t) => if s.pcs[t] == Idle then At(s, t, WantsReset) else s
      case Advance(t) => Step(limit, s, t)
  }

  function Run(limit: nat, s: State, actions: seq<Action>): State
    decreases |actions|
  {
    if actions == [] then s else Run(limit, Apply(limit, s, actions[0]), actions[1..])
  }

  function Initial(threads: set<Thread>): State {
    State(map t | t in threads :: Idle, None, {}, [], [], 0)
  }

  // ----- the invariant

  predicate Critical(pc: Pc) {
    pc.Locked? || pc.Unseen? || pc.Roomy? || pc.Added? || pc.Resetting?
  }

  function SeenIn(s: State, epoch: nat): set<Event> {
    if epoch < |s.past| then s.past[epoch] else if epoch == |s.past| then s.seen else {}
  }

  /** Threads that were admitted with this tag and have not logged yet. */
  function Pending(pcs: map<Thread, Pc>, tag: Tagged): set<Thread> {
    set t | t in pcs && Holds(pcs[t], tag)
  }

  predicate Holds(pc: Pc, tag: Tagged) {
    pc == Added(tag) || pc == Logging(tag)
  }

  /** Every admission is logged or about to be logged, once. */
  ghost predicate Accounted(s: State, tag: Tagged) {
    multiset(s.logged)[tag] + |Pending(s.pcs, tag)| == if tag.event in SeenIn(s, tag.epoch) then 1 else 0
  }

  /** The thread in the critical section holds the lock, and nobody else. */
  predicate Mutex(s: State) {
    forall t | t in s.pcs :: Critical(s.pcs[t]) <==> s.lock == Some(t)
  }

  /** What a thread has established about the seen set still holds. */
  predicate GuardedAt(limit: nat, s: State, pc: Pc) {
    && (pc.Unseen? || pc.Roomy? ==> pc.event !in s.seen)
    && (pc.Roomy? ==> |s.seen| < limit)
  }

  predicate Guarded(limit: nat, s: State) {
    |s.seen| <= limit && forall t | t in s.pcs :: GuardedAt(limit, s, s.pcs[t])
  }

  ghost predicate Inv(limit: nat, s: State) {
    && Mutex(s)
    && Guarded(limit, s)
    && (forall k | 0 <= k < |s.past| :: |s.past[k]| <= limit)
    && (forall tag :: Accounted(s, tag))
    && s.mark <= |s.logged|
  }

  lemma InitialInv(limit: nat, threads: set<Thread>)
    ensures Inv(limit, Initial(threads))
  {}

  lemma PendingAfter(pcs: map<Thread, Pc>, t: Thread, pc: Pc, tag: Tagged)
    requires t in pcs
    ensures |Pending(pcs[t := pc], tag)| ==
            |Pending(pcs, tag)| + (if Holds(pc, tag) then 1 else 0) - (if Holds(pcs[t], tag) then 1 else 0)
  {
    var before, after := Pending(pcs, tag), Pending(pcs[t := pc], tag);
    assert after - {t} == before - {t};
    assert after == if Holds(pc, tag) then (before - {t}) + {t} else before - {t};
    assert before == if Holds(pcs[t], tag) then (before - {t}) + {t} else before - {t};
  }

  function One(b: bool): nat { if b then 1 else 0 }

  /** One thread moves: what it stops holding is logged, what it starts holding was admitted. */
  lemma AccountedMove(s: State, r: State, t: Thread, tag: Tagged)
    requires Accounted(s, tag) && t in s.pcs && t in r.pcs && r.pcs == s.pcs[t := r.pcs[t]]
    requires multiset(r.logged)[tag] + One(Holds(r.pcs[t], tag)) + One(tag.event in SeenIn(s, tag.epoch)) ==
             multiset(s.logged)[tag] + One(Holds(s.pcs[t], tag)) + One(tag.event in SeenIn(r, tag.epoch))
    ensures Accounted(r, tag)
  {
    PendingAfter(s.pcs, t, r.pcs[t], tag);
  }

  lemma AccountedAdmit(s: State, t: Thread, e: Event, tag: Tagged)
    requires t in s.pcs && s.pcs[t] == Roomy(e) && e !in s.seen && Accounted(s, tag)
    ensures Accounted(At(s, t, Added(Tagged(e, |s.past|))).(seen := s.seen + {e}), tag)
  {
    AccountedMove(s, At(s, t, Added(Tagged(e, |s.past|))).(seen := s.seen + {e}), t, tag);
  }

  lemma AccountedLog(s: State, t: Thread, g: Tagged, tag: Tagged)
    requires t in s.pcs && s.pcs[t] == Logging(g) && Accounted(s, tag)
    ensures Accounted(At(s, t, Idle).(logged := s.logged + [g]), tag)
  {
    AccountedMove(s, At(s, t, Idle).(logged := s.logged + [g]), t, tag);
  }

  /** Moves that neither admit nor log, and resets, change nothing that counts. */
  lemma AccountedElse(s: State, r: State, t: Thread, tag: Tagged)
    requires t in s.pcs && t in r.pcs && Accounted(s, tag) && r.logged == s.logged && r.pcs == s.pcs[t := r.pcs[t]]
    requires SeenIn(r, tag.epoch) == SeenIn(s, tag.epoch) && Holds(r.pcs[t], tag) == Holds(s.pcs[t], tag)
    ensures Accounted(r, tag)
  {
    AccountedMove(s, r, t, tag);
  }

  lemma AccountedStep(limit: nat, s: State, t: Thread, tag: Tagged)
    requires t in s.pcs && Accounted(s, tag) && (s.pcs[t].Roomy? ==> s.pcs[t].event !in s.seen)
    ensures Accounted(Step(limit, s, t), tag)
  {
    match s.pcs[t] {
      case Idle =>
      case Roomy(e) => AccountedAdmit(s, t, e, tag);
      case Logging(g) => AccountedLog(s, t, g, tag);
      case _ =>
        assert s.pcs == s.pcs[t := s.pcs[t]];
        AccountedElse(s, Step(limit, s, t), t, tag);
    }
  }

  lemma AccountedApply(limit: nat, s: State, a: Action, tag: Tagged)
    requires a.thread in s.pcs && Accounted(s, tag)
    requires s.pcs[a.thread].Roomy? ==> s.pcs[a.thread].event !in s.seen
    ensures Accounted(Apply(limit, s, a), tag)
  {
    match a {
      case Advance(t) => AccountedStep(limit, s, t, tag);
      case _ =>
        assert s.pcs == s.pcs[a.thread := s.pcs[a.thread]];
        AccountedElse(s, Apply(limit, s, a), a.thread, tag);
    }
  }

  lemma MutexStep(limit: nat, s: State, a: Action)
    requires Mutex(s) && a.thread in s.pcs
    ensures Mutex(Apply(limit, s, a))
  {
    var r, t := Apply(limit, s, a), a.thread;
    forall u | u in r.pcs ensures Critical(r.pcs[u]) <==> r.lock == Some(u) {
      assert u != t ==> r.pcs[u] == s.pcs[u];
    }
  }

  /** Outside the critical section nothing relies on the seen set; inside there is one thread. */
  lemma GuardedStep(limit: nat, s: State, a: Action)
    requires Mutex(s) && Guarded(limit, s) && a.thread in s.pcs
    ensures Guarded(limit, Apply(limit, s, a))
  {
    var r, t := Apply(limit, s, a), a.thread;
    forall u | u in r.pcs ensures GuardedAt(limit, r, r.pcs[u]) {
      assert GuardedAt(limit, s, s.pcs[u]) && GuardedAt(limit, s, s.pcs[t]);
      assert u != t ==> r.pcs[u] == s.pcs[u];
      assert u != t && Critical(s.pcs[u]) ==> !Critical(s.pcs[t]);
    }
    assert GuardedAt(limit, s, s.pcs[t]);
  }

  lemma ApplyInv(limit: nat, s: State, a: Action)
    requires Inv(limit, s)
    ensures Inv(limit, Apply(limit, s, a))
  {
    if a.thread in s.pcs {
      MutexStep(limit, s, a);
      GuardedStep(limit, s, a);
      assert GuardedAt(limit, s, s.pcs[a.thread]);
      forall tag ensures Accounted(Apply(limit, s, a), tag) {
        assert Accounted(s, tag);
        AccountedApply(limit, s, a, tag);
      }
    }
  }

  /** The invariant holds after every run of every set of threads. */
  lemma {:induction false} RunInv(limit: nat, s: State, actions: seq<Action>)
    requires Inv(limit, s)
    ensures Inv(limit, Run(limit, s, actions))
    decreases |actions|
  {
    if actions != [] {
      ApplyInv(limit, s, actions[0]);
      RunInv(limit, Apply(limit, s, actions[0]), actions[1..]);
    }
  }

  /** The trace bound: in every interleaving, no event is logged twice for one epoch, no epoch admits more
      than `limit` events, and the events admitted in an epoch are exactly those logged for it plus
      those about to be. */
  lemma TraceBound(limit: nat, threads: set<Thread>, actions: seq<Action>, e: Event, epoch: nat)
    ensures
      var s, tag := Run(limit, Initial(threads), actions), Tagged(e, epoch);
      && |SeenIn(s, epoch)| <= limit
      && multiset(s.logged)[tag] <= 1
      && (e in SeenIn(s, epoch) <==> tag in s.logged || Pending(s.pcs, tag) != {})
      && !(tag in s.logged && Pending(s.pcs, tag) != {})
  {
    InitialInv(limit, threads);
    RunInv(limit, Initial(threads), actions);
    var s := Run(limit, Initial(threads), actions);
    assert Accounted(s, Tagged(e, epoch));
    assert Tagged(e, epoch) in s.logged <==> multiset(s.logged)[Tagged(e, epoch)] > 0;
  }

  // ----- admission

  /** A new event that there is room for. */
  predicate Admits(limit: nat, s: State, e: Event) {
    e !in s.seen && |s.seen| < limit
  }

  /** Thread `t`, which took the lock in state `s`, is still deciding about `e` in state `r`. */
  predicate Deciding(limit: nat, s: State, r: State, t: Thread, e: Event) {
    && t in r.pcs
    && r.past == s.past
    && match r.pcs[t]
       case Locked(x) => x == e && r.seen == s.seen
       case Unseen(x) => x == e && r.seen == s.seen && e !in s.seen
       case Roomy(x) => x == e && r.seen == s.seen && Admits(limit, s, e)
       case Added(tag) => tag == Tagged(e, |s.past|) && r.seen == s.seen + {e} && Admits(limit, s, e)
       case _ => false
  }

  /** What the source promises of a finished decision: a new event with room is admitted and about to be
      logged, any other is dropped. */
  predicate Decided(limit: nat, s: State, r: State, t: Thread, e: Event) {
    && t in r.pcs
    && r.past == s.past
    && if Admits(limit, s, e) then r.pcs[t] == Logging(Tagged(e, |s.past|)) && r.seen == s.seen + {e}
       else r.pcs[t] == Idle && r.seen == s.seen
  }

  /** While `t` holds the lock, other threads change neither the seen set nor the epoch. */
  lemma DecidingStep(limit: nat, s: State, r: State, t: Thread, e: Event, a: Action)
    requires Inv(limit, r) && Deciding(limit, s, r, t, e)
    ensures
      var n := Apply(limit, r, a);
      if n.lock == Some(t) then Deciding(limit, s, n, t, e) else Decided(limit, s, n, t, e)
  {
    assert Critical(r.pcs[t]) && r.lock == Some(t);
    if a.thread in r.pcs && a.thread != t {
      assert !Critical(r.pcs[a.thread]);
    }
  }

  lemma {:induction false} DecidingRun(limit: nat, s: State, t: Thread, e: Event, actions: seq<Action>)
    requires Inv(limit, s) && t in s.pcs && s.pcs[t] == Locked(e)
    requires forall k | 0 <= k <= |actions| :: Run(limit, s, actions[..k]).lock == Some(t)
    ensures Deciding(limit, s, Run(limit, s, actions), t, e)
    decreases |actions|
  {
    if actions != [] {
      var n := |actions| - 1;
      var init := actions[..n];
      forall k | 0 <= k <= n ensures Run(limit, s, init[..k]).lock == Some(t) {
        assert init[..k] == actions[..k];
      }
      DecidingRun(limit, s, t, e, init);
      RunInv(limit, s, init);
      RunConcat(limit, s, init, [actions[n]]);
      assert actions == init + [actions[n]] && actions[..|actions|] == actions;
      DecidingStep(limit, s, Run(limit, s, init), t, e, actions[n]);
    }
  }

  /** Admission, exactly and in every interleaving: from the moment a thread has the lock until it lets go
      of it, however other threads run in between, it admits its event if and only if the event was new
      and there was room, and changes the seen set in no other way. */
  lemma DecidesExactly(limit: nat, s: State, t: Thread, e: Event, actions: seq<Action>, a: Action)
    requires Inv(limit, s) && t in s.pcs && s.pcs[t] == Locked(e)
    requires forall k | 0 <= k <= |actions| :: Run(limit, s, actions[..k]).lock == Some(t)
    requires Apply(limit, Run(limit, s, actions), a).lock != Some(t)
    ensures Decided(limit, s, Apply(limit, Run(limit, s, actions), a), t, e)
  {
    DecidingRun(limit, s, t, e, actions);
    RunInv(limit, s, actions);
    DecidingStep(limit, s, Run(limit, s, actions), t, e, a);
  }

  /** An admitted event is logged before its thread does anything else. */
  lemma {:induction false} AdmittedIsLogged(limit: nat, s: State, t: Thread, tag: Tagged, actions: seq<Action>)
    requires t in s.pcs && (s.pcs[t] == Logging(tag) || tag in s.logged)
    ensures
      var r := Run(limit, s, actions);
      t in r.pcs && (r.pcs[t] == Logging(tag) || tag in r.logged)
    decreases |actions|
  {
    if actions != [] {
      AdmittedIsLogged(limit, Apply(limit, s, actions[0]), t, tag, actions[1..]);
    }
  }

  function SevenSteps(t: Thread, e: Event): seq<Action> {
    [Call(t, e), Advance(t)] + ([Advance(t), Advance(t)] + [Advance(t), Advance(t), Advance(t)])
  }

  /** One call alone: it ends idle, and it logs its event once if and only if it was new with room. */
  lemma TracesExactly(limit: nat, s: State, t: Thread, e: Event)
    requires t in s.pcs && s.pcs[t] == Idle && s.lock == None
    ensures Run(limit, s, SevenSteps(t, e)) ==
            if Admits(limit, s, e) then s.(seen := s.seen + {e}, logged := s.logged + [Tagged(e, |s.past|)]) else s
  {
    var ask, rest := [Advance(t), Advance(t)], [Advance(t), Advance(t), Advance(t)];
    TakesLock(limit, s, t, e);
    Asks(limit, s, t, e);
    RunConcat(limit, s, [Call(t, e), Advance(t)], ask + rest);
    RunConcat(limit, At(s, t, Locked(e)).(lock := Some(t)), ask, rest);
    if Admits(limit, s, e) {
      AddsAndLogs(limit, s, t, e);
    } else {
      RunSteps(limit, s, rest, [s, s, s, s]);
    }
  }

  lemma AtAt(s: State, t: Thread, p: Pc, q: Pc)
    ensures At(At(s, t, p), t, q) == At(s, t, q)
  {
    assert s.pcs[t := p][t := q] == s.pcs[t := q];
  }

  lemma AtSame(s: State, t: Thread, p: Pc)
    requires t in s.pcs
    ensures At(At(s, t, p), t, s.pcs[t]) == s
  {
    assert s.pcs[t := p][t := s.pcs[t]] == s.pcs;
  }

  lemma TakesLock(limit: nat, s: State, t: Thread, e: Event)
    requires t in s.pcs && s.pcs[t] == Idle && s.lock == None
    ensures Run(limit, s, [Call(t, e), Advance(t)]) == At(s, t, Locked(e)).(lock := Some(t))
  {
    var s1 := At(s, t, Wants(e));
    AtAt(s, t, Wants(e), Locked(e));
    RunSteps(limit, s, [Call(t, e), Advance(t)], [s, s1, At(s, t, Locked(e)).(lock := Some(t))]);
  }

  lemma Asks(limit: nat, s: State, t: Thread, e: Event)
    requires t in s.pcs && s.pcs[t] == Idle && s.lock == None
    ensures Run(limit, At(s, t, Locked(e)).(lock := Some(t)), [Advance(t), Advance(t)]) ==
            if Admits(limit, s, e) then At(s, t, Roomy(e)).(lock := Some(t)) else s
  {
    var s0 := At(s, t, Locked(e)).(lock := Some(t));
    var s1 := if e in s.seen then s else At(s, t, Unseen(e)).(lock := Some(t));
    var s2 := if Admits(limit, s, e) then At(s, t, Roomy(e)).(lock := Some(t)) else s;
    AtAt(s, t, Locked(e), Unseen(e));
    AtAt(s, t, Unseen(e), Roomy(e));
    AtSame(s, t, Locked(e));
    AtSame(s, t, Unseen(e));
    RunSteps(limit, s0, [Advance(t), Advance(t)], [s0, s1, s2]);
  }

  lemma AddsAndLogs(limit: nat, s: State, t: Thread, e: Event)
    requires t in s.pcs && s.pcs[t] == Idle && s.lock == None
    ensures Run(limit, At(s, t, Roomy(e)).(lock := Some(t)), [Advance(t), Advance(t), Advance(t)]) ==
            s.(seen := s.seen + {e}, logged := s.logged + [Tagged(e, |s.past|)])
  {
    var s0, tag := At(s, t, Roomy(e)).(lock := Some(t)), Tagged(e, |s.past|);
    var s1 := At(s, t, Added(tag)).(lock := Some(t), seen := s.seen + {e});
    var s2 := At(s, t, Logging(tag)).(seen := s.seen + {e});
    AtAt(s, t, Roomy(e), Added(tag));
    AtAt(s, t, Added(tag), Logging(tag));
    AtSame(s, t, Logging(tag));
    RunSteps(limit, s0, [Advance(t), Advance(t), Advance(t)],
      [s0, s1, s2, s.(seen := s.seen + {e}, logged := s.logged + [tag])]);
  }

  // ----- resets

  /** Some event was logged twice since the last reset. */
  ghost predicate RepeatsSinceReset(s: State) {
    exists i, j :: s.mark <= i < j < |s.logged| && s.logged[i].event == s.logged[j].event
  }

  predicate Quiet(s: State) {
    forall t | t in s.pcs :: !s.pcs[t].Logging?
  }

  /** All that is pending or logged since the last reset was admitted after it. */
  ghost predicate Current(s: State) {
    && (forall t | t in s.pcs :: s.pcs[t].Added? || s.pcs[t].Logging? ==> s.pcs[t].tag.epoch == |s.past|)
    && (forall i | s.mark <= i < |s.logged| :: s.logged[i].epoch == |s.past|)
  }

  lemma {:induction false} PastGrows(limit: nat, s: State, actions: seq<Action>)
    ensures |s.past| <= |Run(limit, s, actions).past|
    decreases |actions|
  {
    if actions != [] {
      PastGrows(limit, Apply(limit, s, actions[0]), actions[1..]);
    }
  }

  lemma CurrentStep(limit: nat, s: State, a: Action)
    requires Current(s) && |Apply(limit, s, a).past| == |s.past|
    ensures Current(Apply(limit, s, a))
  {}

  lemma {:induction false} StaysCurrent(limit: nat, s: State, actions: seq<Action>)
    requires Current(s) && |Run(limit, s, actions).past| == |s.past|
    ensures Current(Run(limit, s, actions))
    decreases |actions|
  {
    if actions != [] {
      PastGrows(limit, Apply(limit, s, actions[0]), actions[1..]);
      CurrentStep(limit, s, actions[0]);
      StaysCurrent(limit, Apply(limit, s, actions[0]), actions[1..]);
    }
  }

  lemma CurrentDoesNotRepeat(limit: nat, s: State)
    requires Inv(limit, s) && Current(s)
    ensures !RepeatsSinceReset(s)
  {
    forall i, j | s.mark <= i < j < |s.logged| ensures s.logged[i].event != s.logged[j].event {
      assert Accounted(s, s.logged[i]);
      if s.logged[i] == s.logged[j] {
        TwiceInLog(s.logged, i, j);
      }
    }
  }

  lemma TwiceInLog(log: seq<Tagged>, i: nat, j: nat)
    requires i < j < |log| && log[i] == log[j]
    ensures multiset(log)[log[i]] >= 2
  {
    assert log == log[..j] + log[j..];
    assert log[i] in log[..j] && log[j] in log[j..];
  }

  /** A thread that was admitted before a reset logs after it; then the same event is traced again. */
  lemma StaleLogRepeats(limit: nat, s: State, t: Thread, v: Thread) returns (actions: seq<Action>)
    requires Inv(limit, s) && limit >= 1
    requires t in s.pcs && s.pcs[t] == Idle && s.lock == None && s.seen == {} && s.mark == |s.logged|
    requires v in s.pcs && s.pcs[v].Logging?
    ensures Run(limit, s, actions).past == s.past && RepeatsSinceReset(Run(limit, s, actions))
  {
    var tag := s.pcs[v].tag;
    var e := tag.event;
    var s1 := Apply(limit, s, Advance(v));
    var s2 := Apply(limit, s1, Call(t, e));
    var s3 := Apply(limit, s2, Advance(t));
    var s4 := Apply(limit, s3, Advance(t));
    var s5 := Apply(limit, s4, Advance(t));
    var s6 := Apply(limit, s5, Advance(t));
    var s7 := Apply(limit, s6, Advance(t));
    var s8 := Apply(limit, s7, Advance(t));
    assert s8.logged == s.logged + [tag, Tagged(e, |s.past|)] && s8.mark == s.mark && s8.past == s.past;
    actions := [Advance(v), Call(t, e)] + [Advance(t), Advance(t), Advance(t), Advance(t), Advance(t), Advance(t)];
    RunSteps(limit, s, actions, [s, s1, s2, s3, s4, s5, s6, s7, s8]);
    assert s8.logged[s.mark].event == s8.logged[s.mark + 1].event;
  }

  lemma {:induction false} RunSteps(limit: nat, s: State, actions: seq<Action>, states: seq<State>)
    requires |states| == |actions| + 1 && states[0] == s
    requires forall i | 0 <= i < |actions| :: states[i + 1] == Apply(limit, states[i], actions[i])
    ensures Run(limit, s, actions) == states[|actions|]
    decreases |actions|
  {
    if actions != [] {
      RunSteps(limit, states[1], actions[1..], states[1..]);
    }
  }

  /** A reset is safe, exactly: until the next reset no event can be logged twice, however the threads
      interleave, if and only if no thread is between leaving the lock and logging when the reset
      happens. */
  lemma ResetSafeExactly(limit: nat, s: State, t: Thread)
    requires Inv(limit, s) && limit >= 1 && t in s.pcs && s.pcs[t] == Resetting
    ensures
      var r := Step(limit, s, t);
      Quiet(s) <==>
        forall actions | Run(limit, r, actions).past == r.past :: !RepeatsSinceReset(Run(limit, r, actions))
  {
    var r := Step(limit, s, t);
    assert r == Apply(limit, s, Advance(t));
    ApplyInv(limit, s, Advance(t));
    if Quiet(s) {
      forall actions | Run(limit, r, actions).past == r.past ensures !RepeatsSinceReset(Run(limit, r, actions)) {
        StaysCurrent(limit, r, actions);
        RunInv(limit, r, actions);
        CurrentDoesNotRepeat(limit, Run(limit, r, actions));
      }
    } else {
      var v :| v in s.pcs && s.pcs[v].Logging?;
      var actions := StaleLogRepeats(limit, r, t, v);
    }
  }

  // ----- whole runs with resets

  /** A run in which a thread is about to log when another one resets. */
  lemma StaleResetIsReachable(limit: nat, threads: set<Thread>, t: Thread, v: Thread, e: Event)
    returns (actions: seq<Action>)
    requires limit >= 1 && t in threads && v in threads && t != v
    ensures
      var s := Run(limit, Initial(threads), actions);
      && s.pcs.Keys == threads
      && s.pcs[t] == Resetting
      && s.pcs[v] == Logging(Tagged(e, 0))
      && s.past == []
  {
    var s0 := Initial(threads);
    var s1 := Apply(limit, s0, Call(v, e));
    var s2 := Apply(limit, s1, Advance(v));
    var s3 := Apply(limit, s2, Advance(v));
    var s4 := Apply(limit, s3, Advance(v));
    var s5 := Apply(limit, s4, Advance(v));
    var s6 := Apply(limit, s5, Advance(v));
    var s7 := Apply(limit, s6, CallReset(t));
    var s8 := Apply(limit, s7, Advance(t));
    actions := [Call(v, e), Advance(v), Advance(v), Advance(v), Advance(v), Advance(v), CallReset(t), Advance(t)];
    RunSteps(limit, s0, actions, [s0, s1, s2, s3, s4, s5, s6, s7, s8]);
  }

  lemma {:induction false} RunConcat(limit: nat, s: State, a: seq<Action>, b: seq<Action>)
    ensures Run(limit, s, a + b) == Run(limit, Run(limit, s, a), b)
    decreases |a|
  {
    if a == [] {
      assert a + b == b;
    } else {
      assert (a + b)[1..] == a[1..] + b;
      RunConcat(limit, Apply(limit, s, a[0]), a[1..], b);
    }
  }

  lemma RepeatIsReachable(limit: nat, threads: set<Thread>, t: Thread, v: Thread) returns (actions: seq<Action>)
    requires limit >= 1 && t in threads && v in threads && t != v
    ensures RepeatsSinceReset(Run(limit, Initial(threads), actions))
  {
    var s0 := Initial(threads);
    var before := StaleResetIsReachable(limit, threads, t, v, Event("", map[]));
    var s := Run(limit, s0, before);
    InitialInv(limit, threads);
    RunInv(limit, s0, before);
    ResetSafeExactly(limit, s, t);
    var r := Step(limit, s, t);
    var after :| Run(limit, r, after).past == r.past && RepeatsSinceReset(Run(limit, r, after));
    actions := before + ([Advance(t)] + after);
    RunConcat(limit, s0, before, [Advance(t)] + after);
    assert ([Advance(t)] + after)[1..] == after;
  }

  /** One thread alone, or no room at all: nothing is pending when a reset happens. */
  predicate Calm(limit: nat, s: State) {
    limit == 0 || forall t, u | t in s.pcs && u in s.pcs :: t == u
  }

  lemma PendingIsSeen(limit: nat, s: State, u: Thread, tag: Tagged)
    requires Inv(limit, s) && u in s.pcs && Holds(s.pcs[u], tag)
    ensures tag.event in SeenIn(s, tag.epoch)
  {
    assert u in Pending(s.pcs, tag) && Accounted(s, tag);
  }

  lemma NonePending(s: State, u: Thread)
    requires Inv(0, s) && u in s.pcs
    ensures !s.pcs[u].Added? && !s.pcs[u].Logging?
  {
    assert forall epoch: nat :: SeenIn(s, epoch) == {};
    if s.pcs[u].Added? || s.pcs[u].Logging? {
      PendingIsSeen(0, s, u, s.pcs[u].tag);
    }
  }

  lemma CalmStep(limit: nat, s: State, a: Action)
    requires Inv(limit, s) && Current(s) && Calm(limit, s)
    ensures Current(Apply(limit, s, a)) && Calm(limit, Apply(limit, s, a))
  {
    if |Apply(limit, s, a).past| == |s.past| {
      CurrentStep(limit, s, a);
    } else {
      var t := a.thread;
      assert s.pcs[t] == Resetting;
      forall u | u in s.pcs ensures !s.pcs[u].Added? && !s.pcs[u].Logging? {
        if limit == 0 {
          NonePending(s, u);
        }
      }
    }
  }

  lemma {:induction false} CalmRun(limit: nat, s: State, actions: seq<Action>)
    requires Inv(limit, s) && Current(s) && Calm(limit, s)
    ensures Current(Run(limit, s, actions))
    decreases |actions|
  {
    if actions != [] {
      CalmStep(limit, s, actions[0]);
      ApplyInv(limit, s, actions[0]);
      CalmRun(limit, Apply(limit, s, actions[0]), actions[1..]);
    }
  }

  ghost predicate RepeatsAfter(limit: nat, threads: set<Thread>, actions: seq<Action>) {
    RepeatsSinceReset(Run(limit, Initial(threads), actions))
  }

  /** Over whole runs from the start, exactly: some interleaving logs an event twice since the last reset
      if and only if two threads trace and the limit lets them. */
  lemma RepeatsExactly(limit: nat, threads: set<Thread>)
    ensures
      (exists actions :: RepeatsAfter(limit, threads, actions)) <==>
      limit >= 1 && exists t, v :: t in threads && v in threads && t != v
  {
    var s := Initial(threads);
    InitialInv(limit, threads);
    if limit >= 1 && exists t, v :: t in threads && v in threads && t != v {
      var t, v :| t in threads && v in threads && t != v;
      var actions := RepeatIsReachable(limit, threads, t, v);
      assert RepeatsAfter(limit, threads, actions);
    } else {
      forall actions ensures !RepeatsAfter(limit, threads, actions) {
        CalmRun(limit, s, actions);
        RunInv(limit, s, actions);
        CurrentDoesNotRepeat(limit, Run(limit, s, actions));
      }
    }
  }
}
