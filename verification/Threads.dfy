/** Many threads evaluate the same chains at once. Each takes its own small steps; a step that enters
    or leaves a chain is one critical section on that chain's marks. */
module Threads {
  import opened Wrappers
  import opened Subnets
  import opened Rules

  type ThreadId = nat

  /** What one thread evaluates. */
  datatype Job = Job(entry: ChainId, message: Message, address: Address)

  /** An activation of `Chain::action`, at rule `next` of its loop. */
  datatype Frame = Frame(chain: ChainId, next: nat)

  datatype Control =
    | Entering(chain: ChainId)       // about to construct the guard of a chain
    | Looping                        // about to look at the next rule of the top frame
    | Leaving(result: Outcome)       // about to destroy the guard of the top frame
    | Returned(result: Outcome)      // back in the rule of the top frame that called a chain
    | Done(result: Outcome)

  /** Top frame first. */
  datatype Thread = Idle | Running(job: Job, stack: seq<Frame>, control: Control)

  datatype State = State(marks: map<ChainId, set<ThreadId>>, threads: map<ThreadId, Thread>)

  // ---------- One thread's steps ----------

  /** The chains of a stack, outermost first. */
  function Path(stack: seq<Frame>): seq<ChainId> {
    if stack == [] then [] else Path(stack[1..]) + [stack[0].chain]
  }

  predicate CallsAt(g: Graph, frame: Frame, m: Message, a: Address) {
    && frame.chain in g && frame.next < |g[frame.chain]|
    && (g[frame.chain][frame.next].Call? || g[frame.chain][frame.next].GoTo?)
    && Matches(g[frame.chain][frame.next].condition, m, a)
  }

  /** Every frame stands in its chain, every frame below the top at a matching call or goto. */
  predicate Sound(g: Graph, thread: Thread) {
    thread.Running? ==>
      && (forall i :: 0 <= i < |thread.stack| ==>
            thread.stack[i].chain in g && thread.stack[i].next <= |g[thread.stack[i].chain]|)
      && (forall i :: 1 <= i < |thread.stack| ==>
            CallsAt(g, thread.stack[i], thread.job.message, thread.job.address))
      && (thread.control.Entering? ==>
            && thread.control.chain in g
            && (thread.stack != [] ==> CallsAt(g, thread.stack[0], thread.job.message, thread.job.address)))
      && (thread.control.Looping? || thread.control.Leaving? ==> thread.stack != [])
      && (thread.control.Returned? ==>
            thread.stack != [] && CallsAt(g, thread.stack[0], thread.job.message, thread.job.address))
      && (thread.control.Done? ==> thread.stack == [])
  }

  /** Return `result` to the caller below. */
  function ReturnTo(job: Job, stack: seq<Frame>, result: Outcome): Thread {
    Running(job, stack, if stack == [] then Done(result) else Returned(result))
  }

  function Advance(job: Job, stack: seq<Frame>): Thread
    requires stack != []
  {
    Running(job, [stack[0].(next := stack[0].next + 1)] + stack[1..], Looping)
  }

  /** The thread that constructs a guard: refused if it is marked already. */
  function AfterEntering(thread: Thread, refused: bool): Thread
    requires thread.Running? && thread.control.Entering?
  {
    if refused then
      ReturnTo(thread.job, thread.stack, Err(RecursionError))
    else
      Running(thread.job, [Frame(thread.control.chain, 0)] + thread.stack, Looping)
  }

  function AfterLooping(g: Graph, thread: Thread): Thread
    requires thread.Running? && thread.control.Looping? && Sound(g, thread)
  {
    var top := thread.stack[0];
    if top.next == |g[top.chain]| then
      thread.(control := Leaving(Ok(Continue)))
    else
      var rule := g[top.chain][top.next];
      if !Matches(rule.condition, thread.job.message, thread.job.address) then
        Advance(thread.job, thread.stack)
      else
        match rule
        case Accept(priority, _) => thread.(control := Leaving(Ok(Accepted(priority))))
        case Reject(_) => thread.(control := Leaving(Ok(Rejected)))
        case _ => thread.(control := Entering(rule.target))
  }

  function AfterReturned(g: Graph, thread: Thread): Thread
    requires thread.Running? && thread.control.Returned? && Sound(g, thread)
  {
    var top := thread.stack[0];
    var result := Resume(g[top.chain][top.next], thread.control.result);
    if result == Ok(Continue) then Advance(thread.job, thread.stack) else thread.(control := Leaving(result))
  }

  // ---------- Runs ----------

  predicate Ready(g: Graph, s: State) {
    && s.marks.Keys == g.Keys
    && forall t :: t in s.threads ==> Sound(g, s.threads[t])
  }

  /** One step of thread `t`; `Begin` gives it a job when it has none or has finished. */
  datatype Step = Begin(t: ThreadId, job: Job) | Move(t: ThreadId)

  predicate Next(g: Graph, s: State, step: Step, s': State)
    requires Closed(g) && Ready(g, s)
  {
    step.t in s.threads &&
    var thread := s.threads[step.t];
    match step
    case Begin(t, job) =>
      && (thread.Idle? || thread.control.Done?)
      && job.entry in g
      && s' == s.(threads := s.threads[t := Running(job, [], Entering(job.entry))])
    case Move(t) =>
      && thread.Running?
      && match thread.control
         case Entering(c) =>
           s' == State(s.marks[c := s.marks[c] + {t}],
                       s.threads[t := AfterEntering(thread, t in s.marks[c])])
         case Looping => s' == s.(threads := s.threads[t := AfterLooping(g, thread)])
         case Leaving(result) =>
           var c := thread.stack[0].chain;
           s' == State(s.marks[c := s.marks[c] - {t}],
                       s.threads[t := ReturnTo(thread.job, thread.stack[1..], result)])
         case Returned(_) => s' == s.(threads := s.threads[t := AfterReturned(g, thread)])
         case Done(_) => false
  }

  predicate Initial(g: Graph, s: State) {
    && s.marks.Keys == g.Keys
    && (forall c :: c in s.marks ==> s.marks[c] == {})
    && (forall t :: t in s.threads ==> s.threads[t].Idle?)
  }

  predicate IsRun(g: Graph, states: seq<State>, steps: seq<Step>)
    requires Closed(g)
  {
    && |states| == |steps| + 1
    && Initial(g, states[0])
    && forall i :: 0 <= i < |steps| ==> Ready(g, states[i]) && Next(g, states[i], steps[i], states[i + 1])
  }

  // ---------- What a running thread will end with ----------

  /** The stack below a call gets `result` and runs to the end. */
  function Unwind(g: Graph, stack: seq<Frame>, result: Outcome, m: Message, a: Address): Outcome
    requires Closed(g)
    requires forall i :: 0 <= i < |stack| ==> CallsAt(g, stack[i], m, a)
  {
    if stack == [] then result else
      assert CallsAt(g, stack[0], m, a);
      var rules := g[stack[0].chain];
      TargetsFrom(g, stack[0]);
      Unwind(g, stack[1..],
             AfterRule(g, Path(stack), rules[stack[0].next..], Resume(rules[stack[0].next], result), m, a), m, a)
  }

  lemma TargetsFrom(g: Graph, frame: Frame)
    requires Closed(g) && frame.chain in g && frame.next <= |g[frame.chain]|
    ensures Targets(g[frame.chain][frame.next..], g.Keys)
  {
    assert Targets(g[frame.chain], g.Keys);
  }

  /** The result the thread will have if it runs alone from here. */
  function Finish(g: Graph, thread: Thread): Outcome
    requires Closed(g) && thread.Running? && Sound(g, thread)
  {
    var m, a := thread.job.message, thread.job.address;
    match thread.control
    case Entering(c) => Unwind(g, thread.stack, EvalChain(g, Path(thread.stack), c, m, a), m, a)
    case Looping =>
      TargetsFrom(g, thread.stack[0]);
      Unwind(g, thread.stack[1..],
             EvalRules(g, Path(thread.stack), g[thread.stack[0].chain][thread.stack[0].next..], m, a), m, a)
    case Leaving(result) => Unwind(g, thread.stack[1..], result, m, a)
    case Returned(result) => Unwind(g, thread.stack, result, m, a)
    case Done(result) => result
  }

  /** The result of the job in a program with one thread. */
  function Alone(g: Graph, job: Job): Outcome
    requires Closed(g) && job.entry in g
  {
    EvalChain(g, [], job.entry, job.message, job.address)
  }

  // ---------- The invariant ----------

  predicate OnStack(thread: Thread, c: ChainId) {
    thread.Running? && c in Path(thread.stack)
  }

  predicate Distinct(path: seq<ChainId>) {
    forall i, j :: 0 <= i < j < |path| ==> path[i] != path[j]
  }

  /** A chain is marked by a thread exactly when it is on that thread's own stack. */
  ghost predicate MarksAreStacks(s: State) {
    forall c, t :: c in s.marks ==>
      (t in s.marks[c] <==> t in s.threads && OnStack(s.threads[t], c))
  }

  predicate OnCourse(g: Graph, thread: Thread)
    requires Closed(g)
  {
    && Sound(g, thread)
    && (thread.Running? ==>
          && Distinct(Path(thread.stack))
          && thread.job.entry in g
          && Finish(g, thread) == Alone(g, thread.job))
  }

  ghost predicate Invariant(g: Graph, s: State)
    requires Closed(g)
  {
    && Ready(g, s) && MarksAreStacks(s)
    && forall t :: t in s.threads ==> OnCourse(g, s.threads[t])
  }

  lemma PathPush(c: ChainId, stack: seq<Frame>)
    ensures Path([Frame(c, 0)] + stack) == Path(stack) + [c]
  {
    assert ([Frame(c, 0)] + stack)[1..] == stack;
  }

  lemma PathAdvance(stack: seq<Frame>)
    requires stack != []
    ensures Path([stack[0].(next := stack[0].next + 1)] + stack[1..]) == Path(stack)
  {
    assert ([stack[0].(next := stack[0].next + 1)] + stack[1..])[1..] == stack[1..];
  }

  lemma EnteringKeepsCourse(g: Graph, thread: Thread)
    requires Closed(g) && OnCourse(g, thread) && thread.Running? && thread.control.Entering?
    ensures OnCourse(g, AfterEntering(thread, thread.control.chain in Path(thread.stack)))
  {
    var c := thread.control.chain;
    if c !in Path(thread.stack) {
      PathPush(c, thread.stack);
      var pushed := [Frame(c, 0)] + thread.stack;
      assert pushed[1..] == thread.stack && g[c][0..] == g[c];
    }
  }

  lemma AdvanceKeepsCourse(g: Graph, thread: Thread)
    requires Closed(g) && OnCourse(g, thread) && thread.Running?
    requires thread.stack != [] && thread.stack[0].next < |g[thread.stack[0].chain]|
    requires Targets(g[thread.stack[0].chain][thread.stack[0].next + 1..], g.Keys)
    requires Finish(g, thread)
          == Unwind(g, thread.stack[1..],
               EvalRules(g, Path(thread.stack), g[thread.stack[0].chain][thread.stack[0].next + 1..],
                         thread.job.message, thread.job.address),
               thread.job.message, thread.job.address)
    ensures OnCourse(g, Advance(thread.job, thread.stack))
  {
    PathAdvance(thread.stack);
    var advanced := Advance(thread.job, thread.stack);
    assert advanced.stack[1..] == thread.stack[1..];
  }

  lemma LoopingKeepsCourse(g: Graph, thread: Thread)
    requires Closed(g) && OnCourse(g, thread) && thread.Running? && thread.control.Looping?
    ensures OnCourse(g, AfterLooping(g, thread))
  {
    var top := thread.stack[0];
    TargetsFrom(g, top);
    var rules := g[top.chain][top.next..];
    if top.next < |g[top.chain]| {
      assert rules[0] == g[top.chain][top.next] && rules[1..] == g[top.chain][top.next + 1..];
      assert Targets(rules[1..], g.Keys);
      var m, a, path := thread.job.message, thread.job.address, Path(thread.stack);
      if !Matches(rules[0].condition, m, a) {
        assert EvalRule(g, path, rules[0], m, a) == Ok(Continue);
        assert EvalRules(g, path, rules, m, a) == EvalRules(g, path, rules[1..], m, a);
        AdvanceKeepsCourse(g, thread);
      } else if rules[0].Call? || rules[0].GoTo? {
        assert CallsAt(g, top, m, a);
        var result := EvalChain(g, path, rules[0].target, m, a);
        assert EvalRule(g, path, rules[0], m, a) == Resume(rules[0], result);
        assert EvalRules(g, path, rules, m, a) == AfterRule(g, path, rules, Resume(rules[0], result), m, a);
        assert Unwind(g, thread.stack, result, m, a)
            == Unwind(g, thread.stack[1..], EvalRules(g, path, rules, m, a), m, a);
      } else {
        assert EvalRules(g, path, rules, m, a) == EvalRule(g, path, rules[0], m, a);
      }
    }
  }

  lemma ReturnedKeepsCourse(g: Graph, thread: Thread)
    requires Closed(g) && OnCourse(g, thread) && thread.Running? && thread.control.Returned?
    ensures OnCourse(g, AfterReturned(g, thread))
  {
    var top := thread.stack[0];
    TargetsFrom(g, top);
    var rules := g[top.chain][top.next..];
    assert rules[0] == g[top.chain][top.next] && rules[1..] == g[top.chain][top.next + 1..];
    assert Targets(rules[1..], g.Keys);
    if Resume(rules[0], thread.control.result) == Ok(Continue) {
      AdvanceKeepsCourse(g, thread);
    }
  }

  lemma LeavingKeepsCourse(g: Graph, thread: Thread)
    requires Closed(g) && OnCourse(g, thread) && thread.Running? && thread.control.Leaving?
    ensures OnCourse(g, ReturnTo(thread.job, thread.stack[1..], thread.control.result))
    ensures Path(thread.stack) == Path(thread.stack[1..]) + [thread.stack[0].chain]
    ensures thread.stack[0].chain !in Path(thread.stack[1..])
  {
    var path := Path(thread.stack);
    assert path == Path(thread.stack[1..]) + [thread.stack[0].chain];
    forall i, j | 0 <= i < j < |Path(thread.stack[1..])|
      ensures Path(thread.stack[1..])[i] != Path(thread.stack[1..])[j]
    {
      assert path[i] != path[j];
    }
    assert forall i :: 0 <= i < |Path(thread.stack[1..])| ==>
             Path(thread.stack[1..])[i] == path[i] && path[i] != path[|path| - 1];
  }

  lemma StepKeepsCourse(g: Graph, s: State, step: Step, s': State)
    requires Closed(g) && Invariant(g, s) && Next(g, s, step, s')
    ensures OnCourse(g, s'.threads[step.t])
  {
    var thread := s.threads[step.t];
    if step.Move? {
      match thread.control
      case Entering(c) => EnteringKeepsCourse(g, thread);
      case Looping => LoopingKeepsCourse(g, thread);
      case Leaving(_) => LeavingKeepsCourse(g, thread);
      case Returned(_) => ReturnedKeepsCourse(g, thread);
    }
  }

  /** Thread `t` becomes `thread`, whose stack differs from the old one in chain `c` at most. */
  lemma OneMark(s: State, t: ThreadId, thread: Thread, c: ChainId, s': State)
    requires MarksAreStacks(s) && t in s.threads && c in s.marks
    requires s'.threads == s.threads[t := thread] && s'.marks.Keys == s.marks.Keys
    requires s' == State(s.marks[c := s'.marks[c]], s'.threads)
    requires s'.marks[c] == if OnStack(thread, c) then s.marks[c] + {t} else s.marks[c] - {t}
    requires forall d :: d != c ==> (OnStack(thread, d) <==> OnStack(s.threads[t], d))
    ensures MarksAreStacks(s')
  {
    forall d, u | d in s'.marks
      ensures u in s'.marks[d] <==> u in s'.threads && OnStack(s'.threads[u], d)
    {
      assert u in s.marks[d] <==> u in s.threads && OnStack(s.threads[u], d);
    }
  }

  /** Thread `t` becomes `thread`, which is inside the same chains. */
  lemma SameMarks(s: State, t: ThreadId, thread: Thread)
    requires MarksAreStacks(s) && t in s.threads
    requires forall c :: OnStack(thread, c) <==> OnStack(s.threads[t], c)
    ensures MarksAreStacks(s.(threads := s.threads[t := thread]))
  {}

  lemma EnteringKeepsMarks(g: Graph, s: State, t: ThreadId, s': State)
    requires Closed(g) && Invariant(g, s) && Next(g, s, Move(t), s') && s.threads[t].control.Entering?
    ensures MarksAreStacks(s')
  {
    var thread := s.threads[t];
    var c := thread.control.chain;
    PathPush(c, thread.stack);
    OneMark(s, t, AfterEntering(thread, t in s.marks[c]), c, s');
  }

  lemma LeavingKeepsMarks(g: Graph, s: State, t: ThreadId, s': State)
    requires Closed(g) && Invariant(g, s) && Next(g, s, Move(t), s') && s.threads[t].control.Leaving?
    ensures MarksAreStacks(s')
  {
    var thread := s.threads[t];
    LeavingKeepsCourse(g, thread);
    OneMark(s, t, s'.threads[t], thread.stack[0].chain, s');
  }

  lemma StepKeepsMarks(g: Graph, s: State, step: Step, s': State)
    requires Closed(g) && Invariant(g, s) && Next(g, s, step, s')
    ensures MarksAreStacks(s')
  {
    var thread := s.threads[step.t];
    if step.Begin? {
      SameMarks(s, step.t, s'.threads[step.t]);
    } else {
      match thread.control
      case Entering(_) => EnteringKeepsMarks(g, s, step.t, s');
      case Leaving(_) => LeavingKeepsMarks(g, s, step.t, s');
      case Looping =>
        PathAdvance(thread.stack);
        SameMarks(s, step.t, s'.threads[step.t]);
      case Returned(_) =>
        PathAdvance(thread.stack);
        SameMarks(s, step.t, s'.threads[step.t]);
    }
  }

  lemma StepIsLocal(g: Graph, s: State, step: Step, s': State)
    requires Closed(g) && Ready(g, s) && Next(g, s, step, s')
    ensures s'.marks.Keys == s.marks.Keys && s'.threads.Keys == s.threads.Keys
    ensures forall t :: t in s.threads && t != step.t ==> s'.threads[t] == s.threads[t]
  {}

  lemma StepKeepsInvariant(g: Graph, s: State, step: Step, s': State)
    requires Closed(g) && Invariant(g, s) && Next(g, s, step, s')
    ensures Invariant(g, s')
  {
    StepKeepsCourse(g, s, step, s');
    StepKeepsMarks(g, s, step, s');
    StepIsLocal(g, s, step, s');
    forall t | t in s'.threads ensures OnCourse(g, s'.threads[t]) {
      if t != step.t { assert OnCourse(g, s.threads[t]); }
    }
  }

  // ---------- Theorems about every run ----------

  lemma {:induction false} RunInvariant(g: Graph, states: seq<State>, steps: seq<Step>, i: nat)
    requires Closed(g) && IsRun(g, states, steps) && i < |states|
    ensures Invariant(g, states[i])
  {
    if i > 0 {
      RunInvariant(g, states, steps, i - 1);
      StepKeepsInvariant(g, states[i - 1], steps[i - 1], states[i]);
    }
  }

  /** In every interleaving a thread that has finished has the result it would have had alone: action,
      priority or recursion error. */
  lemma ThreadsDoNotInterfere(g: Graph, states: seq<State>, steps: seq<Step>, i: nat, t: ThreadId)
    requires Closed(g) && IsRun(g, states, steps) && i < |states|
    requires t in states[i].threads && states[i].threads[t].Running? && states[i].threads[t].control.Done?
    ensures states[i].threads[t].job.entry in g
    ensures states[i].threads[t].control.result == Alone(g, states[i].threads[t].job)
  {
    RunInvariant(g, states, steps, i);
  }

  /** Marks are exactly the stacks of the threads that own them, and gone once a thread is done. */
  lemma MarksFollowStacks(g: Graph, states: seq<State>, steps: seq<Step>, i: nat, c: ChainId, t: ThreadId)
    requires Closed(g) && IsRun(g, states, steps) && i < |states|
    requires c in g && t in states[i].threads
    ensures c in states[i].marks
    ensures t in states[i].marks[c] <==> OnStack(states[i].threads[t], c)
    ensures states[i].threads[t].Running? && states[i].threads[t].control.Done? ==> t !in states[i].marks[c]
  {
    RunInvariant(g, states, steps, i);
  }

  /** A thread that has a job and is not done always has a next step. */
  lemma ThreadsCanMove(g: Graph, states: seq<State>, steps: seq<Step>, i: nat, t: ThreadId) returns (s': State)
    requires Closed(g) && IsRun(g, states, steps) && i < |states|
    requires t in states[i].threads && states[i].threads[t].Running? && !states[i].threads[t].control.Done?
    ensures Ready(g, states[i]) && Next(g, states[i], Move(t), s')
  {
    RunInvariant(g, states, steps, i);
    var s := states[i];
    var thread := s.threads[t];
    match thread.control
    case Entering(c) =>
      s' := State(s.marks[c := s.marks[c] + {t}], s.threads[t := AfterEntering(thread, t in s.marks[c])]);
    case Looping => s' := s.(threads := s.threads[t := AfterLooping(g, thread)]);
    case Leaving(result) =>
      var c := thread.stack[0].chain;
      s' := State(s.marks[c := s.marks[c] - {t}],
                  s.threads[t := ReturnTo(thread.job, thread.stack[1..], result)]);
    case Returned(_) => s' := s.(threads := s.threads[t := AfterReturned(g, thread)]);
  }

  // ---------- Every evaluation ends ----------

  /** A bound on the steps a chain takes when it is entered from `path`, whatever the packet. */
  function ChainSteps(g: Graph, path: seq<ChainId>, c: ChainId): nat
    requires Closed(g) && c in g
    decreases g.Keys - Elements(path), 0
  {
    if c in path then 1 else
      PathGrows(g, path, c);
      2 + RulesSteps(g, path + [c], g[c])
  }

  function RulesSteps(g: Graph, path: seq<ChainId>, rules: seq<Rule>): nat
    requires Closed(g) && Targets(rules, g.Keys)
    decreases g.Keys - Elements(path), |rules| + 2
  {
    if rules == [] then 1 else RuleSteps(g, path, rules[0]) + RulesSteps(g, path, rules[1..])
  }

  function RuleSteps(g: Graph, path: seq<ChainId>, rule: Rule): nat
    requires Closed(g) && Targets([rule], g.Keys)
    decreases g.Keys - Elements(path), 1
  {
    if rule.Call? || rule.GoTo? then
      assert [rule][0] == rule;
      2 + ChainSteps(g, path, rule.target)
    else 1
  }

  /** A bound on the steps of the frames of a stack once the chain called by the top one has returned. */
  function StackSteps(g: Graph, stack: seq<Frame>): nat
    requires Closed(g)
    requires forall i :: 0 <= i < |stack| ==> stack[i].chain in g && stack[i].next < |g[stack[i].chain]|
  {
    if stack == [] then 0 else
      TargetsFrom(g, stack[0].(next := stack[0].next + 1));
      2 + RulesSteps(g, Path(stack), g[stack[0].chain][stack[0].next + 1..]) + StackSteps(g, stack[1..])
  }

  /** The frames of a sound stack stand at rules, but perhaps for the top one. */
  lemma FramesAtRules(g: Graph, thread: Thread)
    requires Sound(g, thread) && thread.Running? && thread.stack != []
    ensures forall i :: 0 <= i < |thread.stack[1..]| ==>
              var frame := thread.stack[1..][i];
              frame.chain in g && frame.next < |g[frame.chain]|
  {
    forall i | 0 <= i < |thread.stack[1..]|
      ensures CallsAt(g, thread.stack[1..][i], thread.job.message, thread.job.address)
    {
      assert thread.stack[1..][i] == thread.stack[i + 1];
    }
  }

  /** A bound on the steps a thread has left. */
  function StepsLeft(g: Graph, thread: Thread): nat
    requires Closed(g) && Sound(g, thread)
  {
    if thread.Idle? || thread.control.Done? then 0 else
      match thread.control
      case Entering(c) => ChainSteps(g, Path(thread.stack), c) + AllSteps(g, thread)
      case Looping =>
        TargetsFrom(g, thread.stack[0]);
        RulesSteps(g, Path(thread.stack), g[thread.stack[0].chain][thread.stack[0].next..]) + 1 + LowerSteps(g, thread)
      case Leaving(_) => 1 + LowerSteps(g, thread)
      case Returned(_) => AllSteps(g, thread)
      case Done(_) => 0
  }

  /** The steps of all frames, all of which wait for a chain they have called. */
  function AllSteps(g: Graph, thread: Thread): nat
    requires Closed(g) && Sound(g, thread) && thread.Running? && (thread.control.Entering? || thread.control.Returned?)
  {
    if thread.stack == [] then 0 else
      FramesAtRules(g, thread);
      StackSteps(g, thread.stack)
  }

  /** The steps of the frames below the top one. */
  function LowerSteps(g: Graph, thread: Thread): nat
    requires Closed(g) && Sound(g, thread) && thread.Running? && thread.stack != []
  {
    FramesAtRules(g, thread);
    StackSteps(g, thread.stack[1..])
  }

  lemma EnteringSteps(g: Graph, thread: Thread)
    requires Closed(g) && OnCourse(g, thread) && thread.Running? && thread.control.Entering?
    ensures var after := AfterEntering(thread, thread.control.chain in Path(thread.stack));
            Sound(g, after) && StepsLeft(g, after) < StepsLeft(g, thread)
  {
    EnteringKeepsCourse(g, thread);
    var c := thread.control.chain;
    if c !in Path(thread.stack) {
      PathPush(c, thread.stack);
      var pushed := [Frame(c, 0)] + thread.stack;
      assert pushed[1..] == thread.stack && g[c][0..] == g[c];
    }
  }

  lemma AdvanceSteps(g: Graph, thread: Thread)
    requires Closed(g) && Sound(g, thread) && thread.Running? && thread.stack != []
    requires thread.stack[0].next < |g[thread.stack[0].chain]|
    requires Sound(g, Advance(thread.job, thread.stack))
    ensures Targets(g[thread.stack[0].chain][thread.stack[0].next + 1..], g.Keys)
    ensures StepsLeft(g, Advance(thread.job, thread.stack))
         == RulesSteps(g, Path(thread.stack), g[thread.stack[0].chain][thread.stack[0].next + 1..])
          + 1 + LowerSteps(g, thread)
  {
    PathAdvance(thread.stack);
    var advanced := Advance(thread.job, thread.stack);
    TargetsFrom(g, advanced.stack[0]);
    assert advanced.stack[1..] == thread.stack[1..];
  }

  /** The top frame is about to look at a rule: the steps of the rule, of those after it, and of the rest. */
  lemma LoopingAtRule(g: Graph, thread: Thread)
    requires Closed(g) && Sound(g, thread) && thread.Running? && thread.control.Looping?
    requires thread.stack[0].next < |g[thread.stack[0].chain]|
    ensures var top := thread.stack[0];
            && Targets(g[top.chain][top.next + 1..], g.Keys) && Targets([g[top.chain][top.next]], g.Keys)
            && StepsLeft(g, thread)
            == RuleSteps(g, Path(thread.stack), g[top.chain][top.next])
             + RulesSteps(g, Path(thread.stack), g[top.chain][top.next + 1..])
             + 1 + LowerSteps(g, thread)
  {
    var top := thread.stack[0];
    TargetsFrom(g, top);
    TargetsFrom(g, top.(next := top.next + 1));
    var rules := g[top.chain][top.next..];
    assert rules[0] == g[top.chain][top.next] && rules[1..] == g[top.chain][top.next + 1..];
    assert [rules[0]][0] == rules[0];
  }

  lemma CallingSteps(g: Graph, thread: Thread)
    requires Closed(g) && Sound(g, thread) && thread.Running? && thread.control.Looping?
    requires CallsAt(g, thread.stack[0], thread.job.message, thread.job.address)
    requires Sound(g, AfterLooping(g, thread))
    ensures StepsLeft(g, AfterLooping(g, thread)) < StepsLeft(g, thread)
  {
    LoopingAtRule(g, thread);
  }

  lemma LoopingSteps(g: Graph, thread: Thread)
    requires Closed(g) && OnCourse(g, thread) && thread.Running? && thread.control.Looping?
    ensures Sound(g, AfterLooping(g, thread)) && StepsLeft(g, AfterLooping(g, thread)) < StepsLeft(g, thread)
  {
    LoopingKeepsCourse(g, thread);
    var top := thread.stack[0];
    if top.next < |g[top.chain]| {
      LoopingAtRule(g, thread);
      if !Matches(g[top.chain][top.next].condition, thread.job.message, thread.job.address) {
        AdvanceSteps(g, thread);
      } else if CallsAt(g, top, thread.job.message, thread.job.address) {
        CallingSteps(g, thread);
      }
    } else {
      assert g[top.chain][top.next..] == [];
    }
  }

  lemma ReturnedSteps(g: Graph, thread: Thread)
    requires Closed(g) && OnCourse(g, thread) && thread.Running? && thread.control.Returned?
    ensures Sound(g, AfterReturned(g, thread)) && StepsLeft(g, AfterReturned(g, thread)) < StepsLeft(g, thread)
  {
    ReturnedKeepsCourse(g, thread);
    if AfterReturned(g, thread).control.Looping? {
      AdvanceSteps(g, thread);
    }
  }

  lemma LeavingSteps(g: Graph, thread: Thread)
    requires Closed(g) && OnCourse(g, thread) && thread.Running? && thread.control.Leaving?
    ensures var after := ReturnTo(thread.job, thread.stack[1..], thread.control.result);
            Sound(g, after) && StepsLeft(g, after) < StepsLeft(g, thread)
  {
    LeavingKeepsCourse(g, thread);
  }

  /** Every step of a thread brings it closer to its end, whatever the other threads do. */
  lemma MoveProgresses(g: Graph, s: State, t: ThreadId, s': State)
    requires Closed(g) && Invariant(g, s) && Next(g, s, Move(t), s')
    ensures Sound(g, s'.threads[t]) && StepsLeft(g, s'.threads[t]) < StepsLeft(g, s.threads[t])
  {
    var thread := s.threads[t];
    match thread.control
    case Entering(c) => EnteringSteps(g, thread);
    case Looping => LoopingSteps(g, thread);
    case Leaving(_) => LeavingSteps(g, thread);
    case Returned(_) => ReturnedSteps(g, thread);
  }

  lemma MoveKeepsJob(g: Graph, s: State, t: ThreadId, s': State)
    requires Closed(g) && Ready(g, s) && Next(g, s, Move(t), s')
    ensures s'.threads[t].Running? && s'.threads[t].job == s.threads[t].job
  {}

  lemma BeginSteps(g: Graph, s: State, step: Step, s': State)
    requires Closed(g) && Ready(g, s) && Next(g, s, step, s') && step.Begin? && Sound(g, s'.threads[step.t])
    ensures s'.threads[step.t].Running? && step.job.entry in g && s'.threads[step.t].job == step.job
    ensures StepsLeft(g, s'.threads[step.t]) == ChainSteps(g, [], step.job.entry)
  {}

  /** The steps a thread has taken for its job and those it has left are within the bound of the job. */
  predicate WithinBound(g: Graph, thread: Thread, moves: nat)
    requires Closed(g)
  {
    thread.Running? ==>
      && Sound(g, thread) && thread.job.entry in g
      && moves + StepsLeft(g, thread) <= ChainSteps(g, [], thread.job.entry)
  }

  function MovesAfter(step: Step, t: ThreadId, moves: nat): nat {
    if step.t != t then moves else if step.Begin? then 0 else moves + 1
  }

  lemma StepKeepsBound(g: Graph, s: State, step: Step, s': State, t: ThreadId, moves: nat)
    requires Closed(g) && Invariant(g, s) && Next(g, s, step, s') && t in s.threads
    requires WithinBound(g, s.threads[t], moves)
    ensures t in s'.threads && WithinBound(g, s'.threads[t], MovesAfter(step, t, moves))
  {
    StepIsLocal(g, s, step, s');
    StepKeepsInvariant(g, s, step, s');
    if step == Move(t) {
      MoveProgresses(g, s, t, s');
      MoveKeepsJob(g, s, t, s');
    } else if step.t == t {
      BeginSteps(g, s, step, s');
    }
  }

  /** The steps thread `t` has taken since it was last given a job, among the first `n` of a run. */
  function Moves(steps: seq<Step>, t: ThreadId, n: nat): nat
    requires n <= |steps|
  {
    if n == 0 then 0 else MovesAfter(steps[n - 1], t, Moves(steps, t, n - 1))
  }

  lemma NextKeepsBound(g: Graph, states: seq<State>, steps: seq<Step>, i: nat, t: ThreadId, moves: nat)
    requires Closed(g) && IsRun(g, states, steps) && i < |steps| && t in states[i].threads
    requires WithinBound(g, states[i].threads[t], moves)
    ensures t in states[i + 1].threads
    ensures WithinBound(g, states[i + 1].threads[t], MovesAfter(steps[i], t, moves))
  {
    RunInvariant(g, states, steps, i);
    StepKeepsBound(g, states[i], steps[i], states[i + 1], t, moves);
  }

  lemma {:induction false} RunKeepsBound(
    g: Graph, states: seq<State>, steps: seq<Step>, i: nat, t: ThreadId, moves: nat)
    requires Closed(g) && IsRun(g, states, steps) && i < |states| && t in states[0].threads
    requires moves == Moves(steps, t, i)
    ensures t in states[i].threads && WithinBound(g, states[i].threads[t], moves)
  {
    if i > 0 {
      var earlier := Moves(steps, t, i - 1);
      RunKeepsBound(g, states, steps, i - 1, t, earlier);
      NextKeepsBound(g, states, steps, i - 1, t, earlier);
    }
  }

  /** In every interleaving a thread takes no more steps for a job than a bound that depends on the chain of
      the job only; as an unfinished thread can always move, every evaluation ends. */
  lemma EvaluationsEnd(g: Graph, states: seq<State>, steps: seq<Step>, i: nat, t: ThreadId)
    requires Closed(g) && IsRun(g, states, steps) && i < |states|
    requires t in states[0].threads && t in states[i].threads && states[i].threads[t].Running?
    ensures states[i].threads[t].job.entry in g
    ensures Moves(steps, t, i) <= ChainSteps(g, [], states[i].threads[t].job.entry)
  {
    RunKeepsBound(g, states, steps, i, t, Moves(steps, t, i));
  }
}
