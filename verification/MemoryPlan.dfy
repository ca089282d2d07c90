/** Memory planning over bracketed code lines: `memory_plan_reuse_patched` of vllm/env_override.py.

    `plan` stands for `MemoryPlanningLine.plan`: it rewrites a line and updates the planning state.
    `blank` is a new `MemoryPlanningState()`. */
module MemoryPlan {
  datatype Line<L> = Planning(name: string, op: L) | EnterSubgraph | ExitSubgraph | Code(text: L)

  type Planner<!L, !S> = (Line<L>, S) -> (Line<L>, S)

  datatype Outcome<S> = Done(pastStates: seq<S>) | IndexError | AssertionError

  // ----- dropping pointless lines

  predicate Pointless<L>(line: Line<L>, outNames: set<string>) {
    line.Planning? && line.name !in outNames
  }

  /** How many lines the trailing trim keeps. */
  function Kept<L>(lines: seq<Line<L>>, outNames: set<string>): (m: nat)
    ensures m <= |lines|
    ensures forall i | m <= i < |lines| :: Pointless(lines[i], outNames)
    ensures m > 0 ==> !Pointless(lines[m - 1], outNames)
  {
    if lines != [] && Pointless(lines[|lines| - 1], outNames) then Kept(lines[..|lines| - 1], outNames) else |lines|
  }

  // ----- the stack machine

  datatype Progress<L, S> =
    | Stuck(lines: seq<Line<L>>)
    | Reached(lines: seq<Line<L>>, states: seq<S>, past: seq<S>)

  /** The planning loop from a point where `done` is written, `states` is the stack (top last). */
  function Drive<L, S>(
    plan: Planner<L, S>, blank: S, todo: seq<Line<L>>, done: seq<Line<L>>, states: seq<S>, past: seq<S>)
    : Progress<L, S>
    decreases |todo|
  {
    if todo == [] then Reached(done, states, past)
    else
      var line, top := todo[0], |states| - 1;
      match line
      case Planning(_, _) =>
        if states == [] then Stuck(done + todo)
        else
          var (line', state) := plan(line, states[top]);
          Drive(plan, blank, todo[1..], done + [line'], states[..top] + [state], past)
      case EnterSubgraph => Drive(plan, blank, todo[1..], done + [line], states + [blank], past)
      case ExitSubgraph =>
        if states == [] then Stuck(done + todo)
        else Drive(plan, blank, todo[1..], done + [line], states[..top], past + [states[top]])
      case Code(_) => Drive(plan, blank, todo[1..], done + [line], states, past)
  }

  /** The final pop and assertion. */
  function Verdict<L, S>(p: Progress<L, S>): Outcome<S> {
    if p.Stuck? || p.states == [] then IndexError
    else if |p.states| > 1 then AssertionError
    else Done(p.past + p.states)
  }

  class WrapperCodegen<L, S> {
    var lines: seq<Line<L>>

    constructor (lines: seq<Line<L>>)
      ensures this.lines == lines
    {
      this.lines := lines;
    }

    /** The trailing trim. */
    method DropPointlessLines(outNames: set<string>)
      modifies this
      ensures lines == old(lines)[..Kept(old(lines), outNames)]
    {
      while lines != [] && lines[|lines| - 1].Planning? && lines[|lines| - 1].name !in outNames
        invariant Kept(old(lines), outNames) <= |lines| <= |old(lines)|
        invariant lines == old(lines)[..|lines|]
        invariant Kept(lines, outNames) == Kept(old(lines), outNames)
        decreases |lines|
      {
        lines := lines[..|lines| - 1];
      }
    }

    /** `memory_plan_reuse_patched` */
    method MemoryPlanReuse(plan: Planner<L, S>, blank: S, outNames: set<string>) returns (r: Outcome<S>)
      modifies this
      ensures
        var kept := old(lines)[..Kept(old(lines), outNames)];
        var p := Drive(plan, blank, kept, [], [blank], []);
        && r == Verdict(p)
        && lines == p.lines
        && (r.Done? <==> KeepsOneState(kept, 1))
    {
      DropPointlessLines(outNames);
      ghost var kept := lines;
      DoneExactly(plan, blank, kept, [], [blank], []);
      var states, past: seq<S> := [blank], [];
      for i := 0 to |lines|
        invariant |lines| == |kept| && lines[i..] == kept[i..]
        invariant Drive(plan, blank, kept, [], [blank], []) ==
                  Drive(plan, blank, kept[i..], lines[..i], states, past)
      {
        var line := lines[i];
        assert kept[i..][1..] == kept[i + 1..] && kept[i..][0] == line;
        match line
        case Planning(_, _) =>
          if states == [] {
            assert lines[..i] + kept[i..] == lines;
            return IndexError;
          }
          var (line', state) := plan(line, states[|states| - 1]);
          assert lines[..i] + [line'] == lines[i := line'][..i + 1];
          lines, states := lines[i := line'], states[..|states| - 1] + [state];
        case EnterSubgraph =>
          assert lines[..i] + [line] == lines[..i + 1];
          states := states + [blank];
        case ExitSubgraph =>
          if states == [] {
            assert lines[..i] + kept[i..] == lines;
            return IndexError;
          }
          assert lines[..i] + [line] == lines[..i + 1];
          past, states := past + [states[|states| - 1]], states[..|states| - 1];
        case Code(_) =>
          assert lines[..i] + [line] == lines[..i + 1];
      }
      assert lines[..|lines|] == lines;
      if states == [] { return IndexError; }
      past := past + [states[|states| - 1]];
      states := states[..|states| - 1];
      return if |states| == 0 then Done(past) else AssertionError;
    }
  }

  // ----- the nested reading of a well-bracketed list

  /** Nested code: a subgraph's lines are the body of one `Subgraph` step. */
  datatype Block<L> =
    | End
    | Plan(name: string, op: L, rest: Block<L>)
    | Text(text: L, rest: Block<L>)
    | Subgraph(body: Block<L>, rest: Block<L>)

  function Flatten<L>(b: Block<L>): seq<Line<L>> {
    match b
    case End => []
    case Plan(name, op, rest) => [Planning(name, op)] + Flatten(rest)
    case Text(text, rest) => [Code(text)] + Flatten(rest)
    case Subgraph(body, rest) => [EnterSubgraph] + Flatten(body) + [ExitSubgraph] + Flatten(rest)
  }

  datatype Planned<L, S> = Planned(lines: seq<Line<L>>, state: S, past: seq<S>)

  /** Plan a block in its own state; a nested subgraph gets a blank state and leaves ours alone. */
  function PlanBlock<L, S>(plan: Planner<L, S>, blank: S, b: Block<L>, state: S): Planned<L, S> {
    match b
    case End => Planned([], state, [])
    case Plan(name, op, rest) =>
      var (line, state') := plan(Planning(name, op), state);
      var r := PlanBlock(plan, blank, rest, state');
      Planned([line] + r.lines, r.state, r.past)
    case Text(text, rest) =>
      var r := PlanBlock(plan, blank, rest, state);
      Planned([Code(text)] + r.lines, r.state, r.past)
    case Subgraph(body, rest) =>
      var inner := PlanBlock(plan, blank, body, blank);
      var r := PlanBlock(plan, blank, rest, state);
      Planned([EnterSubgraph] + inner.lines + [ExitSubgraph] + r.lines, r.state, inner.past + [inner.state] + r.past)
  }

  lemma {:induction false} DriveBlock<L, S>(
    plan: Planner<L, S>, blank: S, b: Block<L>, todo: seq<Line<L>>,
    done: seq<Line<L>>, outer: seq<S>, state: S, past: seq<S>)
    ensures
      var p := PlanBlock(plan, blank, b, state);
      Drive(plan, blank, Flatten(b) + todo, done, outer + [state], past) ==
      Drive(plan, blank, todo, done + p.lines, outer + [p.state], past + p.past)
    decreases b, 1
  {
    var lines := Flatten(b) + todo;
    match b
    case End =>
      assert lines == todo && done + [] == done && past + [] == past;
    case Plan(name, op, rest) =>
      var (line, state') := plan(Planning(name, op), state);
      assert lines[0] == Planning(name, op) && lines[1..] == Flatten(rest) + todo;
      DriveBlock(plan, blank, rest, todo, done + [line], outer, state', past);
      var p := PlanBlock(plan, blank, rest, state');
      assert (outer + [state])[..|outer|] + [state'] == outer + [state'];
      assert done + [line] + p.lines == done + ([line] + p.lines);
    case Text(text, rest) =>
      assert lines[0] == Code(text) && lines[1..] == Flatten(rest) + todo;
      DriveBlock(plan, blank, rest, todo, done + [Code(text)], outer, state, past);
      var p := PlanBlock(plan, blank, rest, state);
      assert done + [Code(text)] + p.lines == done + ([Code(text)] + p.lines);
    case Subgraph(body, rest) =>
      DriveSubgraph(plan, blank, body, rest, todo, done, outer, state, past);
  }

  lemma {:induction false} DriveSubgraph<L, S>(
    plan: Planner<L, S>, blank: S, body: Block<L>, rest: Block<L>, todo: seq<Line<L>>,
    done: seq<Line<L>>, outer: seq<S>, state: S, past: seq<S>)
    ensures
      var b := Subgraph(body, rest);
      var p := PlanBlock(plan, blank, b, state);
      Drive(plan, blank, Flatten(b) + todo, done, outer + [state], past) ==
      Drive(plan, blank, todo, done + p.lines, outer + [p.state], past + p.past)
    decreases Subgraph(body, rest), 0
  {
    var inner, p := PlanBlock(plan, blank, body, blank), PlanBlock(plan, blank, rest, state);
    var afterBody := [ExitSubgraph] + (Flatten(rest) + todo);
    var done', past' := done + [EnterSubgraph] + inner.lines, past + inner.past;
    calc {
      Drive(plan, blank, Flatten(Subgraph(body, rest)) + todo, done, outer + [state], past);
      { Regroup(EnterSubgraph, Flatten(body), ExitSubgraph, Flatten(rest), todo); }
      Drive(plan, blank, [EnterSubgraph] + (Flatten(body) + afterBody), done, outer + [state], past);
      { DriveEnter(plan, blank, Flatten(body) + afterBody, done, outer + [state], past); }
      Drive(plan, blank, Flatten(body) + afterBody, done + [EnterSubgraph], outer + [state] + [blank], past);
      { DriveBlock(plan, blank, body, afterBody, done + [EnterSubgraph], outer + [state], blank, past); }
      Drive(plan, blank, afterBody, done', outer + [state] + [inner.state], past');
      { DriveExit(plan, blank, Flatten(rest) + todo, done', outer + [state], inner.state, past'); }
      Drive(plan, blank, Flatten(rest) + todo, done' + [ExitSubgraph], outer + [state], past' + [inner.state]);
      { DriveBlock(plan, blank, rest, todo, done' + [ExitSubgraph], outer, state, past' + [inner.state]); }
      Drive(plan, blank, todo, done' + [ExitSubgraph] + p.lines, outer + [p.state], past' + [inner.state] + p.past);
    }
    assert done' + [ExitSubgraph] + p.lines == done + ([EnterSubgraph] + inner.lines + [ExitSubgraph] + p.lines);
    assert past' + [inner.state] + p.past == past + (inner.past + [inner.state] + p.past);
  }

  lemma DriveEnter<L, S>(
    plan: Planner<L, S>, blank: S, todo: seq<Line<L>>, done: seq<Line<L>>, states: seq<S>, past: seq<S>)
    ensures Drive(plan, blank, [EnterSubgraph] + todo, done, states, past) ==
            Drive(plan, blank, todo, done + [EnterSubgraph], states + [blank], past)
  {
    assert ([EnterSubgraph] + todo)[1..] == todo;
  }

  lemma DriveExit<L, S>(
    plan: Planner<L, S>, blank: S, todo: seq<Line<L>>, done: seq<Line<L>>, outer: seq<S>, state: S, past: seq<S>)
    ensures Drive(plan, blank, [ExitSubgraph] + todo, done, outer + [state], past) ==
            Drive(plan, blank, todo, done + [ExitSubgraph], outer, past + [state])
  {
    assert ([ExitSubgraph] + todo)[1..] == todo;
    assert (outer + [state])[..|outer|] == outer;
  }

  // ----- which lists are well bracketed

  /** Every exit matches an earlier enter and every enter is matched, from nesting depth `d`. */
  predicate Closes<L>(lines: seq<Line<L>>, d: nat) {
    if lines == [] then d == 0
    else match lines[0]
      case EnterSubgraph => Closes(lines[1..], d + 1)
      case ExitSubgraph => d > 0 && Closes(lines[1..], d - 1)
      case _ => Closes(lines[1..], d)
  }

  lemma {:induction false} FlattenCloses<L>(b: Block<L>, todo: seq<Line<L>>, d: nat)
    ensures Closes(Flatten(b) + todo, d) == Closes(todo, d)
  {
    var lines := Flatten(b) + todo;
    match b
    case End => assert lines == todo;
    case Plan(_, _, rest) =>
      assert lines[1..] == Flatten(rest) + todo;
      FlattenCloses(rest, todo, d);
    case Text(_, rest) =>
      assert lines[1..] == Flatten(rest) + todo;
      FlattenCloses(rest, todo, d);
    case Subgraph(body, rest) =>
      var afterBody := [ExitSubgraph] + Flatten(rest) + todo;
      assert lines[0] == EnterSubgraph && lines[1..] == Flatten(body) + afterBody;
      FlattenCloses(body, afterBody, d + 1);
      assert afterBody[1..] == Flatten(rest) + todo;
      FlattenCloses(rest, todo, d);
  }

  /** Read nested code up to the exit that leaves it, or up to the end at depth 0. */
  lemma {:induction false} ReadBlock<L>(lines: seq<Line<L>>, d: nat) returns (b: Block<L>, todo: seq<Line<L>>)
    requires Closes(lines, d)
    ensures lines == Flatten(b) + todo
    ensures if d == 0 then todo == [] else todo != [] && todo[0] == ExitSubgraph && Closes(todo[1..], d - 1)
    ensures |todo| <= |lines|
    decreases |lines|
  {
    if lines == [] {
      return End, [];
    }
    match lines[0]
    case Planning(name, op) =>
      b, todo := ReadBlock(lines[1..], d);
      b := Plan(name, op, b);
    case Code(text) =>
      b, todo := ReadBlock(lines[1..], d);
      b := Text(text, b);
    case ExitSubgraph =>
      b, todo := End, lines;
    case EnterSubgraph =>
      var body, afterBody := ReadBlock(lines[1..], d + 1);
      b, todo := ReadBlock(afterBody[1..], d);
      SubgraphLines(lines, body, afterBody, b, todo);
      b := Subgraph(body, b);
  }

  lemma SubgraphLines<L>(
    lines: seq<Line<L>>, body: Block<L>, afterBody: seq<Line<L>>, rest: Block<L>, todo: seq<Line<L>>)
    requires lines != [] && lines[0] == EnterSubgraph && lines[1..] == Flatten(body) + afterBody
    requires afterBody != [] && afterBody[0] == ExitSubgraph && afterBody[1..] == Flatten(rest) + todo
    ensures lines == Flatten(Subgraph(body, rest)) + todo
  {
    assert lines == [EnterSubgraph] + lines[1..] && afterBody == [ExitSubgraph] + afterBody[1..];
    Regroup(EnterSubgraph, Flatten(body), ExitSubgraph, Flatten(rest), todo);
  }

  lemma Regroup<T>(a: T, b: seq<T>, c: T, d: seq<T>, e: seq<T>)
    ensures [a] + (b + ([c] + (d + e))) == [a] + b + [c] + d + e
  {}

  /** Well-bracketed lists are exactly the flattened blocks. */
  lemma WellBracketedIsNested<L>(lines: seq<Line<L>>)
    ensures Closes(lines, 0) <==> exists b :: lines == Flatten(b)
  {
    if Closes(lines, 0) {
      var b, todo := ReadBlock(lines, 0);
      assert lines == Flatten(b);
    }
    if b :| lines == Flatten(b) {
      assert lines == Flatten(b) + [];
      FlattenCloses(b, [], 0);
    }
  }

  lemma {:induction false} TrimKeepsClosing<L>(lines: seq<Line<L>>, m: nat, d: nat)
    requires m <= |lines| && forall i | m <= i < |lines| :: lines[i].Planning?
    ensures Closes(lines[..m], d) <==> Closes(lines, d)
  {
    if m == 0 {
      if lines != [] {
        TrimKeepsClosing(lines[1..], 0, d);
      }
    } else {
      assert lines[..m][1..] == lines[1..][..m - 1];
      if lines[0] != ExitSubgraph || d > 0 {
        TrimKeepsClosing(lines[1..], m - 1,
          match lines[0] case EnterSubgraph => d + 1 case ExitSubgraph => d - 1 case _ => d);
      }
    }
  }

  /** On a well-bracketed list the planner succeeds: the kept lines are nested code, each planning
      line is planned in the state of its innermost subgraph, and one state is left per subgraph,
      innermost first, the outermost last. */
  lemma PlansNestedCode<L, S>(plan: Planner<L, S>, blank: S, lines: seq<Line<L>>, outNames: set<string>)
    returns (b: Block<L>)
    requires Closes(lines, 0)
    ensures Flatten(b) == lines[..Kept(lines, outNames)]
    ensures
      var p := PlanBlock(plan, blank, b, blank);
      && Drive(plan, blank, Flatten(b), [], [blank], []) == Reached(p.lines, [p.state], p.past)
      && Verdict(Drive(plan, blank, Flatten(b), [], [blank], [])) == Done(p.past + [p.state])
  {
    var kept := lines[..Kept(lines, outNames)];
    TrimKeepsClosing(lines, Kept(lines, outNames), 0);
    var todo;
    b, todo := ReadBlock(kept, 0);
    assert Flatten(b) + [] == Flatten(b) && [] + [blank] == [blank];
    DriveBlock(plan, blank, b, [], [], [], blank, []);
    var p := PlanBlock(plan, blank, b, blank);
    assert [] + p.lines == p.lines && [] + [p.state] == [p.state] && [] + p.past == p.past;
  }

  // ----- exactly when the final assertion holds

  /** From `h` open states: no planning line and no exit meets an empty stack, and one state is left. */
  predicate KeepsOneState<L>(lines: seq<Line<L>>, h: nat) {
    if lines == [] then h == 1
    else match lines[0]
      case Planning(_, _) => h > 0 && KeepsOneState(lines[1..], h)
      case EnterSubgraph => KeepsOneState(lines[1..], h + 1)
      case ExitSubgraph => h > 0 && KeepsOneState(lines[1..], h - 1)
      case Code(_) => KeepsOneState(lines[1..], h)
  }

  lemma {:induction false} DoneExactly<L, S>(
    plan: Planner<L, S>, blank: S, todo: seq<Line<L>>, done: seq<Line<L>>, states: seq<S>, past: seq<S>)
    ensures Verdict(Drive(plan, blank, todo, done, states, past)).Done? <==> KeepsOneState(todo, |states|)
    decreases |todo|
  {
    if todo != [] {
      var line, top := todo[0], |states| - 1;
      match line
      case Planning(_, _) =>
        if states != [] {
          var (line', state) := plan(line, states[top]);
          DoneExactly(plan, blank, todo[1..], done + [line'], states[..top] + [state], past);
        }
      case EnterSubgraph => DoneExactly(plan, blank, todo[1..], done + [line], states + [blank], past);
      case ExitSubgraph =>
        if states != [] {
          DoneExactly(plan, blank, todo[1..], done + [line], states[..top], past + [states[top]]);
        }
      case Code(_) => DoneExactly(plan, blank, todo[1..], done + [line], states, past);
    }
  }

  /** No planning line and no exit meets an empty stack. */
  predicate NeverMissing<L>(lines: seq<Line<L>>, h: nat) {
    lines != [] ==>
      match lines[0]
      case Planning(_, _) => h > 0 && NeverMissing(lines[1..], h)
      case EnterSubgraph => NeverMissing(lines[1..], h + 1)
      case ExitSubgraph => h > 0 && NeverMissing(lines[1..], h - 1)
      case Code(_) => NeverMissing(lines[1..], h)
  }

  /** Which error: an IndexError where the stack is empty too early or at the end, an AssertionError exactly
      when more than one state is left. */
  lemma {:induction false} ErrorsExactly<L, S>(
    plan: Planner<L, S>, blank: S, todo: seq<Line<L>>, done: seq<Line<L>>, states: seq<S>, past: seq<S>)
    ensures
      var v, h := Verdict(Drive(plan, blank, todo, done, states, past)), Height(todo, |states|);
      && (v.AssertionError? <==> NeverMissing(todo, |states|) && h > 1)
      && (v.Done? <==> NeverMissing(todo, |states|) && h == 1)
    decreases |todo|
  {
    if todo != [] {
      var line, top := todo[0], |states| - 1;
      match line
      case Planning(_, _) =>
        if states != [] {
          var (line', state) := plan(line, states[top]);
          ErrorsExactly(plan, blank, todo[1..], done + [line'], states[..top] + [state], past);
        }
      case EnterSubgraph => ErrorsExactly(plan, blank, todo[1..], done + [line], states + [blank], past);
      case ExitSubgraph =>
        if states != [] {
          ErrorsExactly(plan, blank, todo[1..], done + [line], states[..top], past + [states[top]]);
        }
      case Code(_) => ErrorsExactly(plan, blank, todo[1..], done + [line], states, past);
    }
  }

  /** Planning rewrites planning lines in place and nothing else, however far it gets. */
  lemma {:induction false} KeepsOtherLines<L, S>(
    plan: Planner<L, S>, blank: S, todo: seq<Line<L>>, done: seq<Line<L>>, states: seq<S>, past: seq<S>)
    ensures
      var lines := Drive(plan, blank, todo, done, states, past).lines;
      && |lines| == |done| + |todo|
      && lines[..|done|] == done
      && forall i | 0 <= i < |todo| && !todo[i].Planning? :: lines[|done| + i] == todo[i]
    decreases |todo|
  {
    if todo != [] {
      var line, top := todo[0], |states| - 1;
      match line
      case Planning(_, _) =>
        if states != [] {
          var (line', state) := plan(line, states[top]);
          KeepsOtherLines(plan, blank, todo[1..], done + [line'], states[..top] + [state], past);
          KeepsFirst(Drive(plan, blank, todo, done, states, past).lines, todo, done, line');
        }
      case EnterSubgraph =>
        KeepsOtherLines(plan, blank, todo[1..], done + [line], states + [blank], past);
        KeepsFirst(Drive(plan, blank, todo, done, states, past).lines, todo, done, line);
      case ExitSubgraph =>
        if states != [] {
          KeepsOtherLines(plan, blank, todo[1..], done + [line], states[..top], past + [states[top]]);
          KeepsFirst(Drive(plan, blank, todo, done, states, past).lines, todo, done, line);
        }
      case Code(_) =>
        KeepsOtherLines(plan, blank, todo[1..], done + [line], states, past);
        KeepsFirst(Drive(plan, blank, todo, done, states, past).lines, todo, done, line);
    }
  }

  lemma KeepsFirst<L>(lines: seq<Line<L>>, todo: seq<Line<L>>, done: seq<Line<L>>, line: Line<L>)
    requires todo != [] && |lines| == |done| + |todo| && lines[..|done| + 1] == done + [line]
    requires todo[0].Planning? || line == todo[0]
    requires forall i | 0 <= i < |todo| - 1 && !todo[1..][i].Planning? :: lines[|done| + 1 + i] == todo[1..][i]
    ensures lines[..|done|] == done
    ensures forall i | 0 <= i < |todo| && !todo[i].Planning? :: lines[|done| + i] == todo[i]
  {
    assert lines[..|done|] == lines[..|done| + 1][..|done|];
    assert lines[|done|] == lines[..|done| + 1][|done|];
    forall i | 0 <= i < |todo| && !todo[i].Planning? ensures lines[|done| + i] == todo[i] {
      if i > 0 {
        assert todo[1..][i - 1] == todo[i];
      }
    }
  }

  /** How many states are open after the lines, from `h`; exits are counted even below zero. */
  function Height<L>(lines: seq<Line<L>>, h: int): int {
    if lines == [] then h
    else Height(lines[1..], h + match lines[0] case EnterSubgraph => 1 case ExitSubgraph => -1 case _ => 0)
  }

  /** The outermost state is never popped: every prefix leaves a state open. */
  predicate NeverEmpties<L>(lines: seq<Line<L>>, h: int) {
    forall k | 0 <= k <= |lines| :: Height(lines[..k], h) > 0
  }

  lemma NeverEmptiesStep<L>(lines: seq<Line<L>>, h: int)
    requires lines != []
    ensures
      var next := h + match lines[0] case EnterSubgraph => 1 case ExitSubgraph => -1 case _ => 0;
      NeverEmpties(lines, h) <==> h > 0 && NeverEmpties(lines[1..], next)
  {
    assert lines[..0] == [];
    forall k | 0 <= k < |lines| ensures lines[..k + 1][1..] == lines[1..][..k] {}
    if NeverEmpties(lines, h) {
      assert Height(lines[..0], h) > 0;
      forall k | 0 <= k <= |lines[1..]|
        ensures Height(lines[1..][..k], h + match lines[0] case EnterSubgraph => 1 case ExitSubgraph => -1 case _ => 0) > 0
      {
        assert Height(lines[..k + 1], h) > 0;
      }
    } else {
      var k :| 0 <= k <= |lines| && Height(lines[..k], h) <= 0;
      if k > 0 {
        assert lines[..k][1..] == lines[1..][..k - 1];
      }
    }
  }

  /** Well bracketed is one state left and the outermost state never popped. */
  lemma {:induction false} ClosesExactly<L>(lines: seq<Line<L>>, d: nat)
    ensures Closes(lines, d) <==> KeepsOneState(lines, d + 1) && NeverEmpties(lines, d + 1)
  {
    if lines == [] {
      assert lines[..0] == [] && Height(lines[..0], d + 1) == d + 1;
    } else {
      NeverEmptiesStep(lines, d + 1);
      match lines[0]
      case EnterSubgraph => ClosesExactly(lines[1..], d + 1);
      case ExitSubgraph =>
        if d > 0 {
          ClosesExactly(lines[1..], d - 1);
        } else {
          assert lines[1..][..0] == [] && Height(lines[1..][..0], 0) == 0;
        }
      case _ => ClosesExactly(lines[1..], d);
    }
  }

  /** The final assertion, exactly: it holds for every well-bracketed list, and of the lists it holds for
      the well-bracketed ones are those that never pop the outermost state before the end. */
  lemma AssertionExact<L, S>(plan: Planner<L, S>, blank: S, lines: seq<Line<L>>, outNames: set<string>)
    ensures
      var kept := lines[..Kept(lines, outNames)];
      Closes(lines, 0) <==> Verdict(Drive(plan, blank, kept, [], [blank], [])).Done? && NeverEmpties(kept, 1)
  {
    var kept := lines[..Kept(lines, outNames)];
    TrimKeepsClosing(lines, |kept|, 0);
    ClosesExactly(kept, 0);
    DoneExactly(plan, blank, kept, [], [blank], []);
  }

  /** The assertion does not reject every badly bracketed list: an exit before its enter passes. */
  lemma AssertionMissesSwappedBrackets<L, S>(plan: Planner<L, S>, blank: S)
    ensures !Closes<L>([ExitSubgraph, EnterSubgraph], 0)
    ensures Verdict(Drive(plan, blank, [ExitSubgraph, EnterSubgraph], [], [blank], [])).Done?
  {
    var lines: seq<Line<L>> := [ExitSubgraph, EnterSubgraph];
    assert lines[1..] == [EnterSubgraph] && lines[1..][1..] == [];
    DoneExactly(plan, blank, lines, [], [blank], []);
  }
}
