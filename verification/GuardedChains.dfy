/** Chains as the running program has them: objects that share one another and mark, in each chain,
    the threads that are inside it. */
module GuardedChains {
  import opened Wrappers
  import opened Subnets
  import opened Rules

  type ThreadId = nat

  /** The marks of one chain. */
  class RecursionData {
    var callingThreads: set<ThreadId>

    constructor ()
      ensures callingThreads == {}
    {
      callingThreads := {};
    }

    /** Construct a guard: fails, leaving the mark of the outer guard alone, if the thread is marked. */
    method Enter(t: ThreadId) returns (entered: bool)
      modifies this
      ensures entered <==> t !in old(callingThreads)
      ensures callingThreads == old(callingThreads) + {t}
    {
      entered := t !in callingThreads;
      callingThreads := callingThreads + {t};
    }

    /** Destroy a guard. */
    method Leave(t: ThreadId)
      modifies this
      ensures callingThreads == old(callingThreads) - {t}
    {
      callingThreads := callingThreads - {t};
    }
  }

  class Chain {
    const name: ChainId
    const recursionData: RecursionData
    var rules: seq<Rule>

    constructor (name: ChainId, rules: seq<Rule> := [])
      ensures this.name == name && this.rules == rules
      ensures fresh(recursionData) && recursionData.callingThreads == {}
    {
      this.name, this.rules := name, rules;
      recursionData := new RecursionData();
    }

    method Append(rule: Rule)
      modifies this`rules
      ensures rules == old(rules) + [rule]
    {
      rules := rules + [rule];
    }
  }

  /** The chains that calls and gotos may reach, by the name rules use for them. */
  type Chains = map<ChainId, Chain>

  ghost function Marks(chains: Chains): set<RecursionData> {
    set c | c in chains :: chains[c].recursionData
  }

  ghost function GraphOf(chains: Chains): (g: Graph)
    reads chains.Values
    ensures g.Keys == chains.Keys
  {
    map c | c in chains :: chains[c].rules
  }

  ghost predicate Wired(chains: Chains)
    reads chains.Values
  {
    && Closed(GraphOf(chains))
    && forall c, d :: c in chains && d in chains && c != d ==> chains[c].recursionData != chains[d].recursionData
  }

  /** Thread `t` is marked in exactly the chains of `path`. */
  ghost predicate Inside(chains: Chains, t: ThreadId, path: seq<ChainId>)
    reads Marks(chains)
  {
    forall c :: c in chains ==> (t in chains[c].recursionData.callingThreads <==> c in path)
  }

  /** `Chain::action`. It terminates on every graph, gives the value of the chain, and leaves every
      mark of every thread as it was, on normal and on error exit. */
  method ChainAction(chains: Chains, c: ChainId, t: ThreadId, m: Message, a: Address, ghost path: seq<ChainId>)
    returns (result: Outcome)
    requires Wired(chains) && c in chains && Inside(chains, t, path)
    modifies Marks(chains)
    ensures result == EvalChain(GraphOf(chains), path, c, m, a)
    ensures forall d :: d in chains ==>
              chains[d].recursionData.callingThreads == old(chains[d].recursionData.callingThreads)
    decreases chains.Keys - Elements(path), 0
  {
    var chain := chains[c];
    var entered := chain.recursionData.Enter(t);
    if !entered {
      return Err(RecursionError);
    }
    PathGrows(GraphOf(chains), path, c);
    assert Inside(chains, t, path + [c]);
    result := RunRules(chains, chain.rules, t, m, a, path + [c]);
    chain.recursionData.Leave(t);
  }

  /** The loop of `Chain::action`: the first result other than continue. */
  method RunRules(chains: Chains, rules: seq<Rule>, t: ThreadId, m: Message, a: Address, ghost path: seq<ChainId>)
    returns (result: Outcome)
    requires Wired(chains) && Targets(rules, chains.Keys) && Inside(chains, t, path)
    modifies Marks(chains)
    ensures result == EvalRules(GraphOf(chains), path, rules, m, a)
    ensures forall d :: d in chains ==>
              chains[d].recursionData.callingThreads == old(chains[d].recursionData.callingThreads)
    decreases chains.Keys - Elements(path), 2 * |rules| + 2
  {
    var i := 0;
    result := Ok(Continue);
    while i < |rules| && result == Ok(Continue)
      invariant i <= |rules|
      invariant forall d :: d in chains ==>
                  chains[d].recursionData.callingThreads == old(chains[d].recursionData.callingThreads)
      invariant EvalRules(GraphOf(chains), path, rules, m, a)
             == if result == Ok(Continue) then EvalRules(GraphOf(chains), path, rules[i..], m, a) else result
    {
      assert rules[i..][1..] == rules[i + 1..];
      assert Inside(chains, t, path);
      result := RuleAction(chains, rules[i], t, m, a, path);
      i := i + 1;
    }
  }

  /** `Rule::action`, for each kind of rule. */
  method RuleAction(chains: Chains, rule: Rule, t: ThreadId, m: Message, a: Address, ghost path: seq<ChainId>)
    returns (result: Outcome)
    requires Wired(chains) && Targets([rule], chains.Keys) && Inside(chains, t, path)
    modifies Marks(chains)
    ensures result == EvalRule(GraphOf(chains), path, rule, m, a)
    ensures forall d :: d in chains ==>
              chains[d].recursionData.callingThreads == old(chains[d].recursionData.callingThreads)
    decreases chains.Keys - Elements(path), 1
  {
    if !Matches(rule.condition, m, a) {
      return Ok(Continue);
    }
    match rule
    case Accept(priority, _) => result := Ok(Accepted(priority));
    case Reject(_) => result := Ok(Rejected);
    case Call(target, priority, _) =>
      assert [rule][0] == rule;
      result := ChainAction(chains, target, t, m, a, path);
      if result.Ok? && priority.Some? {
        result := Ok(SetPriority(result.value, priority.value));
      }
    case GoTo(target, priority, _) =>
      assert [rule][0] == rule;
      result := ChainAction(chains, target, t, m, a, path);
      if result.Ok? && priority.Some? {
        result := Ok(SetPriority(result.value, priority.value));
      }
      if result == Ok(Continue) {
        result := Ok(Default);
      }
  }

  /** `Filter::will_accept` on live chains, from a thread that is inside none of them. */
  method WillAcceptOn(chains: Chains, entry: ChainId, acceptByDefault: bool, t: ThreadId, m: Message, a: Address)
    returns (decision: Decision)
    requires Wired(chains) && entry in chains && Inside(chains, t, [])
    modifies Marks(chains)
    ensures decision == WillAccept(Filter(GraphOf(chains), entry, acceptByDefault), m, a)
    ensures decision == DecideByExpansion(Filter(GraphOf(chains), entry, acceptByDefault), m, a)
    ensures Inside(chains, t, [])
  {
    FilterIsFirstMatch(Filter(GraphOf(chains), entry, acceptByDefault), m, a);
    var result := ChainAction(chains, entry, t, m, a, []);
    match result {
      case Err(e) => decision := Err(e);
      case Ok(Accepted(priority)) => decision := Ok((true, PriorityOf(Accepted(priority))));
      case Ok(Rejected) => decision := Ok((false, 0));
      case Ok(Continue) => decision := Ok((acceptByDefault, 0));
      case Ok(Default) => decision := Ok((acceptByDefault, 0));
    }
  }
}
