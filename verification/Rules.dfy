/** The rule engine: chains of rules that accept, reject, call or go to, evaluated under a guard
    against recursion, and the decision of a filter. */
module Rules {
  import opened Wrappers
  import opened Subnets
  import opened PacketOrder

  /** What filtering and routing see of a packet. */
  datatype Message = Message(id: nat, source: Address, dest: Option<Address>)

  /** The condition of a rule. */
  datatype If = If(id: Option<nat>, source: Option<Subnet>, dest: Option<Subnet>)

  type ChainId = string

  datatype Rule =
    | Accept(priority: Option<Int32>, condition: Option<If>)
    | Reject(condition: Option<If>)
    | Call(target: ChainId, priority: Option<Int32>, condition: Option<If>)
    | GoTo(target: ChainId, priority: Option<Int32>, condition: Option<If>)

  datatype Action = Accepted(priority: Option<Int32>) | Rejected | Continue | Default

  datatype Error = RecursionError

  type Outcome = Result<Action, Error>

  /** Chains that share rules by name; calls and gotos name chains of the graph. */
  type Graph = map<ChainId, seq<Rule>>

  predicate Targets(rules: seq<Rule>, ids: set<ChainId>) {
    forall i :: 0 <= i < |rules| && (rules[i].Call? || rules[i].GoTo?) ==> rules[i].target in ids
  }

  predicate Closed(g: Graph) {
    forall c :: c in g ==> Targets(g[c], g.Keys)
  }

  // ---------- Conditions and actions ----------

  predicate Check(cond: If, m: Message, a: Address) {
    && (cond.id.Some? ==> m.id == cond.id.value)
    && (cond.source.Some? ==> Contains(cond.source.value, m.source))
    && (cond.dest.Some? ==> Contains(cond.dest.value, a))
  }

  predicate Matches(condition: Option<If>, m: Message, a: Address) {
    condition.None? || Check(condition.value, m, a)
  }

  /** The write-once priority setter. */
  function SetPriority(action: Action, priority: Int32): Action {
    if action.Accepted? && action.priority.None? then Accepted(Some(priority)) else action
  }

  /** The priority of an action, 0 if it was never set. */
  function PriorityOf(action: Action): Int32 {
    if action.Accepted? && action.priority.Some? then action.priority.value else 0
  }

  /** What a matching call or goto makes of the result of its chain. */
  function Resume(rule: Rule, result: Outcome): Outcome
    requires rule.Call? || rule.GoTo?
  {
    match result
    case Err(e) => Err(e)
    case Ok(action) =>
      var prioritized := if rule.priority.Some? then SetPriority(action, rule.priority.value) else action;
      if rule.GoTo? && prioritized.Continue? then Ok(Default) else Ok(prioritized)
  }

  // ---------- Evaluation ----------

  function Elements(path: seq<ChainId>): set<ChainId> {
    set c | c in path
  }

  lemma PathGrows(g: Graph, path: seq<ChainId>, c: ChainId)
    requires c in g && c !in path
    ensures g.Keys - Elements(path + [c]) < g.Keys - Elements(path)
  {
    assert c in path + [c];
    assert forall d :: d in path ==> d in path + [c];
    assert c in g.Keys - Elements(path);
  }

  /** `Chain::action` for a thread that is already inside the chains of `path`, outermost first. */
  function EvalChain(g: Graph, path: seq<ChainId>, c: ChainId, m: Message, a: Address): Outcome
    requires Closed(g) && c in g
    decreases g.Keys - Elements(path), 0
  {
    if c in path then Err(RecursionError) else
      PathGrows(g, path, c);
      EvalRules(g, path + [c], g[c], m, a)
  }

  /** The loop over the rules of the chain entered last. */
  function EvalRules(g: Graph, path: seq<ChainId>, rules: seq<Rule>, m: Message, a: Address): Outcome
    requires Closed(g) && Targets(rules, g.Keys)
    decreases g.Keys - Elements(path), 2 * |rules| + 2
  {
    if rules == [] then Ok(Continue) else
      AfterRule(g, path, rules, EvalRule(g, path, rules[0], m, a), m, a)
  }

  /** The loop from the point where its first rule has given `result`. */
  function AfterRule(g: Graph, path: seq<ChainId>, rules: seq<Rule>, result: Outcome, m: Message, a: Address): Outcome
    requires Closed(g) && rules != [] && Targets(rules, g.Keys)
    decreases g.Keys - Elements(path), 2 * |rules| + 1
  {
    if result == Ok(Continue) then EvalRules(g, path, rules[1..], m, a) else result
  }

  function EvalRule(g: Graph, path: seq<ChainId>, rule: Rule, m: Message, a: Address): Outcome
    requires Closed(g) && Targets([rule], g.Keys)
    decreases g.Keys - Elements(path), 1
  {
    if !Matches(rule.condition, m, a) then Ok(Continue) else
      match rule
      case Accept(priority, _) => Ok(Accepted(priority))
      case Reject(_) => Ok(Rejected)
      case _ =>
        assert [rule][0] == rule;
        Resume(rule, EvalChain(g, path, rule.target, m, a))
  }

  // ---------- Full expansion ----------

  datatype Verdict = Accepts | Rejects | Defaults | Recurses

  /** One way through the inlined rules: the chains entered, the conditions on the way, what it ends
      in, and the priorities offered on the way, nearest to the end first. */
  datatype Leaf = Leaf(
    trail: seq<ChainId>,
    guards: seq<Option<If>>,
    verdict: Verdict,
    priorities: seq<Option<Int32>>)

  predicate LeafMatches(leaf: Leaf, m: Message, a: Address) {
    forall i :: 0 <= i < |leaf.guards| ==> Matches(leaf.guards[i], m, a)
  }

  /** The first priority that is set. */
  function Nearest(priorities: seq<Option<Int32>>): Option<Int32> {
    if priorities == [] then None
    else if priorities[0].Some? then priorities[0]
    else Nearest(priorities[1..])
  }

  function Under(rule: Rule, leaf: Leaf): Leaf
    requires rule.Call? || rule.GoTo?
  {
    leaf.(guards := [rule.condition] + leaf.guards, priorities := leaf.priorities + [rule.priority])
  }

  function AllUnder(rule: Rule, leaves: seq<Leaf>): seq<Leaf>
    requires rule.Call? || rule.GoTo?
  {
    if leaves == [] then [] else [Under(rule, leaves[0])] + AllUnder(rule, leaves[1..])
  }

  function Inside(c: ChainId, leaves: seq<Leaf>): seq<Leaf> {
    if leaves == [] then [] else
      [leaves[0].(trail := [c] + leaves[0].trail)] + Inside(c, leaves[1..])
  }

  /** All leaves below a chain entered from `path`. Entering a chain of the path again is a leaf. */
  function ExpandChain(g: Graph, path: seq<ChainId>, c: ChainId): seq<Leaf>
    requires Closed(g) && c in g
    decreases g.Keys - Elements(path), 0
  {
    if c in path then [Leaf([c], [], Recurses, [])] else
      PathGrows(g, path, c);
      Inside(c, ExpandRules(g, path + [c], g[c]))
  }

  function ExpandRules(g: Graph, path: seq<ChainId>, rules: seq<Rule>): seq<Leaf>
    requires Closed(g) && Targets(rules, g.Keys)
    decreases g.Keys - Elements(path), |rules| + 2
  {
    if rules == [] then [] else ExpandRule(g, path, rules[0]) + ExpandRules(g, path, rules[1..])
  }

  /** A call is replaced by the leaves of its chain; a goto by those and then a default. */
  function ExpandRule(g: Graph, path: seq<ChainId>, rule: Rule): seq<Leaf>
    requires Closed(g) && Targets([rule], g.Keys)
    decreases g.Keys - Elements(path), 1
  {
    match rule
    case Accept(priority, condition) => [Leaf([], [condition], Accepts, [priority])]
    case Reject(condition) => [Leaf([], [condition], Rejects, [])]
    case Call(target, _, _) =>
      assert [rule][0] == rule;
      AllUnder(rule, ExpandChain(g, path, target))
    case GoTo(target, _, condition) =>
      assert [rule][0] == rule;
      AllUnder(rule, ExpandChain(g, path, target)) + [Leaf([], [condition], Defaults, [])]
  }

  function FirstMatch(leaves: seq<Leaf>, m: Message, a: Address): Option<Leaf> {
    if leaves == [] then None
    else if LeafMatches(leaves[0], m, a) then Some(leaves[0])
    else FirstMatch(leaves[1..], m, a)
  }

  /** What the first matching leaf, if any, makes of a packet. */
  function Meaning(leaf: Option<Leaf>): Outcome {
    match leaf
    case None => Ok(Continue)
    case Some(l) =>
      match l.verdict
      case Accepts => Ok(Accepted(Nearest(l.priorities)))
      case Rejects => Ok(Rejected)
      case Defaults => Ok(Default)
      case Recurses => Err(RecursionError)
  }

  // ---------- Evaluation is first match over the expansion ----------

  lemma {:induction false} FirstMatchConcat(xs: seq<Leaf>, ys: seq<Leaf>, m: Message, a: Address)
    ensures FirstMatch(xs + ys, m, a)
         == if FirstMatch(xs, m, a).Some? then FirstMatch(xs, m, a) else FirstMatch(ys, m, a)
  {
    if xs == [] {
      assert xs + ys == ys;
    } else {
      assert (xs + ys)[1..] == xs[1..] + ys;
      FirstMatchConcat(xs[1..], ys, m, a);
    }
  }

  lemma {:induction false} FirstMatchInside(c: ChainId, leaves: seq<Leaf>, m: Message, a: Address)
    ensures Meaning(FirstMatch(Inside(c, leaves), m, a)) == Meaning(FirstMatch(leaves, m, a))
  {
    if leaves != [] {
      FirstMatchInside(c, leaves[1..], m, a);
      var inside := Inside(c, leaves);
      assert LeafMatches(inside[0], m, a) <==> LeafMatches(leaves[0], m, a);
      assert inside[1..] == Inside(c, leaves[1..]);
    }
  }

  lemma {:induction false} NearestAppended(priorities: seq<Option<Int32>>, last: Option<Int32>)
    ensures Nearest(priorities + [last]) == if Nearest(priorities).Some? then Nearest(priorities) else last
  {
    if priorities != [] {
      assert (priorities + [last])[1..] == priorities[1..] + [last];
      NearestAppended(priorities[1..], last);
    }
  }

  lemma UnderMatches(rule: Rule, leaf: Leaf, m: Message, a: Address)
    requires rule.Call? || rule.GoTo?
    ensures LeafMatches(Under(rule, leaf), m, a) <==> Matches(rule.condition, m, a) && LeafMatches(leaf, m, a)
  {
    var under := Under(rule, leaf);
    assert under.guards[0] == rule.condition;
    assert forall i :: 0 <= i < |leaf.guards| ==> under.guards[i + 1] == leaf.guards[i];
    assert forall i :: 0 < i < |under.guards| ==> under.guards[i] == leaf.guards[i - 1];
  }

  /** Without the rewriting of continue that is a goto's own. */
  function CallOutcome(rule: Rule, result: Outcome): Outcome
    requires rule.Call? || rule.GoTo?
  {
    if result.Ok? && rule.priority.Some? then Ok(SetPriority(result.value, rule.priority.value)) else result
  }

  lemma {:induction false} FirstMatchUnder(rule: Rule, leaves: seq<Leaf>, m: Message, a: Address)
    requires rule.Call? || rule.GoTo?
    ensures Meaning(FirstMatch(AllUnder(rule, leaves), m, a))
         == if Matches(rule.condition, m, a) then CallOutcome(rule, Meaning(FirstMatch(leaves, m, a))) else Ok(Continue)
    ensures FirstMatch(AllUnder(rule, leaves), m, a).Some?
       <==> Matches(rule.condition, m, a) && FirstMatch(leaves, m, a).Some?
  {
    if leaves != [] {
      FirstMatchUnder(rule, leaves[1..], m, a);
      UnderMatches(rule, leaves[0], m, a);
      NearestAppended(leaves[0].priorities, rule.priority);
      var under := AllUnder(rule, leaves);
      assert under[0] == Under(rule, leaves[0]) && under[1..] == AllUnder(rule, leaves[1..]);
    }
  }

  /** A first match never means continue. */
  lemma MatchDecides(leaf: Option<Leaf>)
    ensures Meaning(leaf) == Ok(Continue) <==> leaf.None?
  {}

  lemma OneLeaf(leaf: Leaf, m: Message, a: Address)
    requires |leaf.guards| == 1
    ensures FirstMatch([leaf], m, a) == if Matches(leaf.guards[0], m, a) then Some(leaf) else None
  {
    assert LeafMatches(leaf, m, a) <==> Matches(leaf.guards[0], m, a);
  }

  lemma GoToIsFirstMatch(rule: Rule, leaves: seq<Leaf>, m: Message, a: Address)
    requires rule.GoTo?
    ensures Meaning(FirstMatch(AllUnder(rule, leaves) + [Leaf([], [rule.condition], Defaults, [])], m, a))
         == if Matches(rule.condition, m, a) then Resume(rule, Meaning(FirstMatch(leaves, m, a))) else Ok(Continue)
  {
    var last := Leaf([], [rule.condition], Defaults, []);
    FirstMatchUnder(rule, leaves, m, a);
    FirstMatchConcat(AllUnder(rule, leaves), [last], m, a);
    OneLeaf(last, m, a);
    MatchDecides(FirstMatch(leaves, m, a));
  }

  lemma {:induction false} RuleIsFirstMatch(g: Graph, path: seq<ChainId>, rule: Rule, m: Message, a: Address)
    requires Closed(g) && Targets([rule], g.Keys)
    ensures EvalRule(g, path, rule, m, a) == Meaning(FirstMatch(ExpandRule(g, path, rule), m, a))
    decreases g.Keys - Elements(path), 1
  {
    match rule
    case Accept(priority, condition) =>
      OneLeaf(Leaf([], [condition], Accepts, [priority]), m, a);
      NearestAppended([], priority);
      assert [] + [priority] == [priority];
    case Reject(condition) => OneLeaf(Leaf([], [condition], Rejects, []), m, a);
    case Call(target, _, _) =>
      assert [rule][0] == rule;
      ChainIsFirstMatch(g, path, target, m, a);
      FirstMatchUnder(rule, ExpandChain(g, path, target), m, a);
    case GoTo(target, _, condition) =>
      assert [rule][0] == rule;
      ChainIsFirstMatch(g, path, target, m, a);
      GoToIsFirstMatch(rule, ExpandChain(g, path, target), m, a);
  }

  lemma {:induction false} RulesAreFirstMatch(g: Graph, path: seq<ChainId>, rules: seq<Rule>, m: Message, a: Address)
    requires Closed(g) && Targets(rules, g.Keys)
    ensures EvalRules(g, path, rules, m, a) == Meaning(FirstMatch(ExpandRules(g, path, rules), m, a))
    decreases g.Keys - Elements(path), |rules| + 2
  {
    if rules != [] {
      RuleIsFirstMatch(g, path, rules[0], m, a);
      RulesAreFirstMatch(g, path, rules[1..], m, a);
      FirstMatchConcat(ExpandRule(g, path, rules[0]), ExpandRules(g, path, rules[1..]), m, a);
      MatchDecides(FirstMatch(ExpandRule(g, path, rules[0]), m, a));
    }
  }

  /** On every finite graph, cyclic or not, evaluating a chain gives the first leaf of the full
      expansion whose whole guard path matches; in particular it fails exactly when that leaf enters a
      chain of its own path again. */
  lemma {:induction false} ChainIsFirstMatch(g: Graph, path: seq<ChainId>, c: ChainId, m: Message, a: Address)
    requires Closed(g) && c in g
    ensures EvalChain(g, path, c, m, a) == Meaning(FirstMatch(ExpandChain(g, path, c), m, a))
    decreases g.Keys - Elements(path), 0
  {
    if c in path {
      assert LeafMatches(ExpandChain(g, path, c)[0], m, a);
    } else {
      PathGrows(g, path, c);
      RulesAreFirstMatch(g, path + [c], g[c], m, a);
      FirstMatchInside(c, ExpandRules(g, path + [c], g[c]), m, a);
    }
  }

  // ---------- Recursion ----------

  /** A rule of chain `c` calls or goes to chain `d`. */
  predicate Edge(g: Graph, c: ChainId, d: ChainId) {
    c in g && exists i :: 0 <= i < |g[c]| && (g[c][i].Call? || g[c][i].GoTo?) && g[c][i].target == d
  }

  predicate Walk(g: Graph, trail: seq<ChainId>) {
    forall i :: 0 <= i < |trail| - 1 ==> Edge(g, trail[i], trail[i + 1])
  }

  /** A trail from `c` along calls and gotos that ends in a chain it has been in, counting `path`. */
  predicate Reenters(g: Graph, path: seq<ChainId>, c: ChainId, trail: seq<ChainId>) {
    && trail != [] && trail[0] == c && Walk(g, trail)
    && trail[|trail| - 1] in path + trail[..|trail| - 1]
  }

  lemma {:induction false} InsideAt(c: ChainId, leaves: seq<Leaf>, i: nat)
    requires i < |Inside(c, leaves)|
    ensures |Inside(c, leaves)| == |leaves|
    ensures Inside(c, leaves)[i] == leaves[i].(trail := [c] + leaves[i].trail)
  {
    if i > 0 { InsideAt(c, leaves[1..], i - 1); } else if |leaves| > 1 { InsideAt(c, leaves[1..], 0); }
  }

  lemma {:induction false} AllUnderAt(rule: Rule, leaves: seq<Leaf>, i: nat)
    requires rule.Call? || rule.GoTo?
    requires i < |AllUnder(rule, leaves)|
    ensures |AllUnder(rule, leaves)| == |leaves|
    ensures AllUnder(rule, leaves)[i] == Under(rule, leaves[i])
  {
    if i > 0 { AllUnderAt(rule, leaves[1..], i - 1); } else if |leaves| > 1 { AllUnderAt(rule, leaves[1..], 0); }
  }

  /** Where a recursion leaf of a chain comes from: entering the chain again, or a rule of it. */
  lemma {:induction false} RecursionFromRules(g: Graph, path: seq<ChainId>, rules: seq<Rule>, i: nat) returns (k: nat)
    requires Closed(g) && Targets(rules, g.Keys)
    requires i < |ExpandRules(g, path, rules)| && ExpandRules(g, path, rules)[i].verdict == Recurses
    ensures k < |rules| && (rules[k].Call? || rules[k].GoTo?)
    ensures Reenters(g, path, rules[k].target, ExpandRules(g, path, rules)[i].trail)
    decreases g.Keys - Elements(path), |rules| + 2
  {
    var rule := rules[0];
    var first := ExpandRule(g, path, rule);
    if i < |first| {
      k := 0;
      assert rule.Call? || rule.GoTo?;
      var leaves := ExpandChain(g, path, rule.target);
      assert first[i] == AllUnder(rule, leaves)[i];
      AllUnderAt(rule, leaves, i);
      RecursionIsReentry(g, path, rule.target, i);
    } else {
      k := RecursionFromRules(g, path, rules[1..], i - |first|);
      k := k + 1;
    }
  }

  /** Every recursion leaf is the trail of a real cycle through the rules. */
  lemma {:induction false} RecursionIsReentry(g: Graph, path: seq<ChainId>, c: ChainId, i: nat)
    requires Closed(g) && c in g
    requires i < |ExpandChain(g, path, c)| && ExpandChain(g, path, c)[i].verdict == Recurses
    ensures Reenters(g, path, c, ExpandChain(g, path, c)[i].trail)
    decreases g.Keys - Elements(path), 0
  {
    if c !in path {
      PathGrows(g, path, c);
      var leaves := ExpandRules(g, path + [c], g[c]);
      InsideAt(c, leaves, i);
      var k := RecursionFromRules(g, path + [c], g[c], i);
      var inner := leaves[i].trail;
      var trail := [c] + inner;
      assert Edge(g, c, inner[0]);
      forall j | 0 <= j < |trail| - 1 ensures Edge(g, trail[j], trail[j + 1]) {
        assert j > 0 ==> Edge(g, inner[j - 1], inner[j]);
      }
      assert trail[..|trail| - 1] == [c] + inner[..|inner| - 1];
    }
  }

  /** The first of `leaves` whose conditions all match. */
  predicate FirstAt(leaves: seq<Leaf>, i: nat, m: Message, a: Address) {
    && i < |leaves| && LeafMatches(leaves[i], m, a)
    && forall j :: 0 <= j < i ==> !LeafMatches(leaves[j], m, a)
  }

  lemma {:induction false} FirstMatchAt(leaves: seq<Leaf>, m: Message, a: Address) returns (i: nat)
    requires FirstMatch(leaves, m, a).Some?
    ensures FirstAt(leaves, i, m, a) && leaves[i] == FirstMatch(leaves, m, a).value
  {
    if LeafMatches(leaves[0], m, a) {
      i := 0;
    } else {
      i := FirstMatchAt(leaves[1..], m, a);
      i := i + 1;
      assert forall j :: 0 < j < i ==> leaves[j] == leaves[1..][j - 1];
    }
  }

  lemma {:induction false} FirstAtIsFirstMatch(leaves: seq<Leaf>, i: nat, m: Message, a: Address)
    requires FirstAt(leaves, i, m, a)
    ensures FirstMatch(leaves, m, a) == Some(leaves[i])
  {
    if i > 0 {
      assert forall j :: 0 <= j < i ==> leaves[1..][j] == leaves[j + 1];
      FirstAtIsFirstMatch(leaves[1..], i - 1, m, a);
    }
  }

  /** Leaf `i` is a trail of calls and gotos back into a chain the trail has been in. */
  predicate IsReentry(g: Graph, c: ChainId, leaf: Leaf) {
    leaf.verdict == Recurses && Reenters(g, [], c, leaf.trail)
  }

  /** A chain evaluated from outside fails exactly when the first leaf whose conditions all match is
      such a trail. */
  lemma RecursionErrorExactly(g: Graph, c: ChainId, m: Message, a: Address)
    requires Closed(g) && c in g
    ensures EvalChain(g, [], c, m, a).Err? <==>
              exists i: nat :: FirstAt(ExpandChain(g, [], c), i, m, a) && IsReentry(g, c, ExpandChain(g, [], c)[i])
  {
    ChainIsFirstMatch(g, [], c, m, a);
    var leaves := ExpandChain(g, [], c);
    if EvalChain(g, [], c, m, a).Err? {
      var i := FirstMatchAt(leaves, m, a);
      RecursionIsReentry(g, [], c, i);
      assert IsReentry(g, c, leaves[i]);
    } else if i: nat :| FirstAt(leaves, i, m, a) && IsReentry(g, c, leaves[i]) {
      FirstAtIsFirstMatch(leaves, i, m, a);
    }
  }

  /** Chains can be ranked so that calls and gotos go strictly down: the graph has no cycle. */
  ghost predicate Acyclic(g: Graph) {
    exists rank: map<ChainId, nat> :: Ranks(g, rank)
  }

  predicate Ranks(g: Graph, rank: map<ChainId, nat>) {
    && g.Keys <= rank.Keys
    && forall c, i :: c in g && 0 <= i < |g[c]| && (g[c][i].Call? || g[c][i].GoTo?) ==>
         g[c][i].target in rank && rank[g[c][i].target] < rank[c]
  }

  lemma {:induction false} WalksDescend(g: Graph, rank: map<ChainId, nat>, trail: seq<ChainId>, i: nat, j: nat)
    requires Ranks(g, rank) && Walk(g, trail) && i < j < |trail|
    ensures trail[i] in rank && trail[j] in rank && rank[trail[j]] < rank[trail[i]]
    decreases j
  {
    assert Edge(g, trail[j - 1], trail[j]);
    if i < j - 1 { WalksDescend(g, rank, trail, i, j - 1); }
  }

  /** No recursion error without a cycle, whatever the packet and address. */
  lemma AcyclicNeverRecurses(g: Graph, c: ChainId, m: Message, a: Address)
    requires Closed(g) && Acyclic(g) && c in g
    ensures EvalChain(g, [], c, m, a).Ok?
  {
    ChainIsFirstMatch(g, [], c, m, a);
    var leaves := ExpandChain(g, [], c);
    var leaf := FirstMatch(leaves, m, a);
    if leaf.Some? && leaf.value.verdict == Recurses {
      var i := FirstMatchAt(leaves, m, a);
      RecursionIsReentry(g, [], c, i);
      var trail := leaves[i].trail;
      var last := |trail| - 1;
      var k :| 0 <= k < last && trail[k] == trail[last];
      var rank :| Ranks(g, rank);
      WalksDescend(g, rank, trail, k, last);
    }
  }

  // ---------- The filter ----------

  datatype Filter = Filter(chains: Graph, entry: ChainId, acceptByDefault: bool)

  predicate ValidFilter(f: Filter) {
    Closed(f.chains) && f.entry in f.chains
  }

  type Decision = Result<(bool, Int32), Error>

  function WillAccept(f: Filter, m: Message, a: Address): Decision
    requires ValidFilter(f)
  {
    match EvalChain(f.chains, [], f.entry, m, a)
    case Err(e) => Err(e)
    case Ok(Accepted(priority)) => Ok((true, PriorityOf(Accepted(priority))))
    case Ok(Rejected) => Ok((false, 0))
    case Ok(_) => Ok((f.acceptByDefault, 0))
  }

  /** The decision read off the inlined rules. */
  function DecideByExpansion(f: Filter, m: Message, a: Address): Decision
    requires ValidFilter(f)
  {
    match FirstMatch(ExpandChain(f.chains, [], f.entry), m, a)
    case None => Ok((f.acceptByDefault, 0))
    case Some(leaf) =>
      match leaf.verdict
      case Accepts => Ok((true, if Nearest(leaf.priorities).Some? then Nearest(leaf.priorities).value else 0))
      case Rejects => Ok((false, 0))
      case Defaults => Ok((f.acceptByDefault, 0))
      case Recurses => Err(RecursionError)
  }

  /** A filter decides by the first leaf whose whole guard path matches, with the priority of the leaf
      or else of the nearest enclosing call or goto that has one, else 0. */
  lemma FilterIsFirstMatch(f: Filter, m: Message, a: Address)
    requires ValidFilter(f)
    ensures WillAccept(f, m, a) == DecideByExpansion(f, m, a)
    ensures Acyclic(f.chains) ==> WillAccept(f, m, a).Ok?
  {
    ChainIsFirstMatch(f.chains, [], f.entry, m, a);
    if Acyclic(f.chains) {
      AcyclicNeverRecurses(f.chains, f.entry, m, a);
    }
  }
}
