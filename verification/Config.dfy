/** What a configuration means: the filter that `parse_filter` builds, and a direct reading of the
    configuration that looks chains up by name while a packet is decided. */
module Config {
  import opened Wrappers
  import opened Subnets
  import opened SubnetText
  import opened PacketOrder
  import opened RuleGrammar
  import opened Translation
  import Rules

  /** The top nodes of a configuration; interface blocks do not concern the filter. */
  datatype Node = ChainBlock(chain: ChainNode) | DefaultAction(accept: bool) | OtherBlock

  // ---------- The filter of a configuration ----------

  predicate IsBlock(node: Node, name: string) {
    node.ChainBlock? && node.chain.name == name
  }

  /** The chains that calls and gotos may name. */
  function ChainNames(root: seq<Node>): set<string> {
    set i | 0 <= i < |root| && root[i].ChainBlock? && root[i].chain.name != "default" :: root[i].chain.name
  }

  function NodeRules(node: Node, name: string): seq<RuleNode> {
    if IsBlock(node, name) then node.chain.rules else []
  }

  /** The rules of all blocks of that name in file order. */
  function RuleNodes(root: seq<Node>, name: string): seq<RuleNode> {
    if root == [] then [] else NodeRules(root[0], name) + RuleNodes(root[1..], name)
  }

  function RulesOf(nodes: seq<RuleNode>, names: Names, ids: set<string>): seq<Rules.Rule>
    requires OneToOne(names)
  {
    match BuildRules(nodes, names, ids)
    case Ok(rules) => rules
    case Err(_) => []
  }

  /** The last default action, reject if there is none. */
  function LastDefault(root: seq<Node>): bool {
    if root == [] then false else
      match root[|root| - 1]
      case DefaultAction(accept) => accept
      case _ => LastDefault(root[..|root| - 1])
  }

  function NodeError(node: Node, names: Names, ids: set<string>): Option<Error>
    requires OneToOne(names)
  {
    if !node.ChainBlock? then None else
      match BuildRules(node.chain.rules, names, ids)
      case Ok(_) => None
      case Err(e) => Some(e)
  }

  /** The error met first in file order. */
  function FirstError(root: seq<Node>, names: Names, ids: set<string>): Option<Error>
    requires OneToOne(names)
  {
    if root == [] then None
    else if NodeError(root[0], names, ids).Some? then NodeError(root[0], names, ids)
    else FirstError(root[1..], names, ids)
  }

  function Translate(root: seq<Node>, names: Names): Result<Rules.Filter, Error>
    requires OneToOne(names)
  {
    var ids := ChainNames(root);
    match FirstError(root, names, ids)
    case Some(e) => Err(e)
    case None =>
      Ok(Rules.Filter(
        map name | name in ids + {"default"} :: RulesOf(RuleNodes(root, name), names, ids),
        "default",
        LastDefault(root)))
  }

  // ---------- A direct reading of the configuration ----------

  predicate TypeHolds(text: Option<string>, names: Names, id: nat) {
    text.None? || (id in names && names[id] == text.value)
  }

  predicate SubnetHolds(text: Option<string>, a: Address) {
    text.None? || (ParseSubnet(text.value).Ok? && Contains(ParseSubnet(text.value).value, a))
  }

  predicate ConditionHolds(node: Option<ConditionNode>, names: Names, m: Rules.Message, a: Address) {
    node.None? || (
      && TypeHolds(node.value.packetType, names, m.id)
      && SubnetHolds(node.value.source, m.source)
      && SubnetHolds(node.value.dest, a))
  }

  function PriorityIn(text: Option<string>): Option<Int32> {
    if text.Some? && -0x8000_0000 <= ReadInt(text.value) < 0x8000_0000 then Some(ReadInt(text.value)) else None
  }

  /** A priority is for the packets accepted without one. */
  function Prioritized(result: Rules.Outcome, priority: Option<Int32>): Rules.Outcome {
    if result == Ok(Rules.Accepted(None)) then Ok(Rules.Accepted(priority)) else result
  }

  function Scope(root: seq<Node>, path: seq<string>): set<string> {
    ChainNames(root) + {"default"} - Rules.Elements(path)
  }

  /** Every block of that name, one after the other, unless the chain is already being read. */
  function InterpretChain(
    root: seq<Node>, names: Names, path: seq<string>, name: string, m: Rules.Message, a: Address): Rules.Outcome
    decreases Scope(root, path), 0, 0
  {
    if name in path then Err(Rules.RecursionError)
    else if name !in Scope(root, []) then Ok(Rules.Continue)
    else
      ScopeShrinks(root, path, name);
      InterpretBlocks(root, root, names, path + [name], name, m, a)
  }

  lemma ScopeShrinks(root: seq<Node>, path: seq<string>, name: string)
    requires name !in path && name in Scope(root, [])
    ensures Scope(root, path + [name]) < Scope(root, path)
  {
    assert name in path + [name];
    assert forall d :: d in path ==> d in path + [name];
    assert name in Scope(root, path);
  }

  function InterpretBlocks(
    root: seq<Node>, nodes: seq<Node>, names: Names, path: seq<string>, name: string, m: Rules.Message, a: Address)
    : Rules.Outcome
    decreases Scope(root, path), 3, |nodes|
  {
    if nodes == [] then Ok(Rules.Continue)
    else if !nodes[0].ChainBlock? || nodes[0].chain.name != name then
      InterpretBlocks(root, nodes[1..], names, path, name, m, a)
    else
      var result := InterpretRules(root, nodes[0].chain.rules, names, path, m, a);
      if result == Ok(Rules.Continue) then InterpretBlocks(root, nodes[1..], names, path, name, m, a) else result
  }

  function InterpretRules(
    root: seq<Node>, nodes: seq<RuleNode>, names: Names, path: seq<string>, m: Rules.Message, a: Address)
    : Rules.Outcome
    decreases Scope(root, path), 2, |nodes|
  {
    if nodes == [] then Ok(Rules.Continue)
    else
      var result := InterpretRule(root, nodes[0], names, path, m, a);
      if result == Ok(Rules.Continue) then InterpretRules(root, nodes[1..], names, path, m, a) else result
  }

  function InterpretRule(
    root: seq<Node>, node: RuleNode, names: Names, path: seq<string>, m: Rules.Message, a: Address): Rules.Outcome
    decreases Scope(root, path), 1, 0
  {
    if !ConditionHolds(node.condition, names, m, a) then Ok(Rules.Continue) else
      match node.action
      case AcceptNode => Ok(Rules.Accepted(PriorityIn(node.priority)))
      case RejectNode => Ok(Rules.Rejected)
      case CallNode(target) =>
        Prioritized(InterpretChain(root, names, path, target, m, a), PriorityIn(node.priority))
      case GoToNode(target) =>
        var result := Prioritized(InterpretChain(root, names, path, target, m, a), PriorityIn(node.priority));
        if result == Ok(Rules.Continue) then Ok(Rules.Default) else result
  }

  /** The decision for a packet, read from the configuration. */
  function Interpret(root: seq<Node>, names: Names, m: Rules.Message, a: Address): Rules.Decision {
    match InterpretChain(root, names, [], "default", m, a)
    case Err(e) => Err(e)
    case Ok(Accepted(priority)) => Ok((true, if priority.Some? then priority.value else 0))
    case Ok(Rejected) => Ok((false, 0))
    case Ok(_) => Ok((LastDefault(root), 0))
  }

  // ---------- Concatenation ----------

  lemma {:induction false} BuildConcat(xs: seq<RuleNode>, ys: seq<RuleNode>, names: Names, ids: set<string>)
    requires OneToOne(names)
    ensures BuildRules(xs + ys, names, ids)
         == match BuildRules(xs, names, ids)
            case Err(e) => Err(e)
            case Ok(first) =>
              match BuildRules(ys, names, ids)
              case Err(e) => Err(e)
              case Ok(second) => Ok(first + second)
  {
    if xs == [] {
      assert xs + ys == ys;
      if BuildRules(ys, names, ids).Ok? {
        assert [] + BuildRules(ys, names, ids).value == BuildRules(ys, names, ids).value;
      }
    } else {
      assert (xs + ys)[1..] == xs[1..] + ys;
      BuildConcat(xs[1..], ys, names, ids);
      match (BuildRule(xs[0], names, ids), BuildRules(xs[1..], names, ids), BuildRules(ys, names, ids))
      case (Ok(rule), Ok(first), Ok(second)) => assert [rule] + (first + second) == ([rule] + first) + second;
      case _ =>
    }
  }

  lemma {:induction false} RuleNodesConcat(xs: seq<Node>, ys: seq<Node>, name: string)
    ensures RuleNodes(xs + ys, name) == RuleNodes(xs, name) + RuleNodes(ys, name)
  {
    if xs == [] {
      assert xs + ys == ys;
    } else {
      assert (xs + ys)[1..] == xs[1..] + ys;
      RuleNodesConcat(xs[1..], ys, name);
    }
  }

  lemma {:induction false} FirstErrorConcat(xs: seq<Node>, ys: seq<Node>, names: Names, ids: set<string>)
    requires OneToOne(names)
    ensures FirstError(xs + ys, names, ids)
         == if FirstError(xs, names, ids).Some? then FirstError(xs, names, ids) else FirstError(ys, names, ids)
  {
    if xs == [] {
      assert xs + ys == ys;
    } else {
      assert (xs + ys)[1..] == xs[1..] + ys;
      FirstErrorConcat(xs[1..], ys, names, ids);
    }
  }

  /** Without an error in any block the rules of every chain are built. */
  lemma {:induction false} BlocksBuild(root: seq<Node>, name: string, names: Names, ids: set<string>)
    requires OneToOne(names) && FirstError(root, names, ids).None?
    ensures BuildRules(RuleNodes(root, name), names, ids).Ok?
  {
    if root != [] {
      BlocksBuild(root[1..], name, names, ids);
      BuildConcat(NodeRules(root[0], name), RuleNodes(root[1..], name), names, ids);
    }
  }

  // ---------- The filter is well formed ----------

  predicate IsTransfer(rule: Rules.Rule) {
    rule.Call? || rule.GoTo?
  }

  lemma {:induction false} BuiltTargets(nodes: seq<RuleNode>, names: Names, ids: set<string>, i: nat)
    requires OneToOne(names) && BuildRules(nodes, names, ids).Ok?
    requires i < |nodes| && IsTransfer(BuildRules(nodes, names, ids).value[i])
    ensures BuildRules(nodes, names, ids).value[i].target in ids
    ensures BuildRules(nodes, names, ids).value[i].target != "default"
  {
    if i > 0 { BuiltTargets(nodes[1..], names, ids, i - 1); }
  }

  /** Calls and gotos of the filter reach named chains of the file, never the default chain. */
  lemma TargetsAreNamedChains(root: seq<Node>, names: Names, name: string, i: nat)
    requires OneToOne(names) && Translate(root, names).Ok?
    requires name in Translate(root, names).value.chains && i < |Translate(root, names).value.chains[name]|
    requires IsTransfer(Translate(root, names).value.chains[name][i])
    ensures var target := Translate(root, names).value.chains[name][i].target;
            target != "default" && exists k :: 0 <= k < |root| && IsBlock(root[k], target)
  {
    var ids := ChainNames(root);
    BlocksBuild(root, name, names, ids);
    BuiltTargets(RuleNodes(root, name), names, ids, i);
    var target := Translate(root, names).value.chains[name][i].target;
    var k :| 0 <= k < |root| && root[k].ChainBlock? && root[k].chain.name != "default" && root[k].chain.name == target;
    assert IsBlock(root[k], target);
  }

  lemma FilterIsValid(root: seq<Node>, names: Names)
    requires OneToOne(names) && Translate(root, names).Ok?
    ensures Rules.ValidFilter(Translate(root, names).value)
  {
    var g := Translate(root, names).value.chains;
    forall c | c in g ensures Rules.Targets(g[c], g.Keys) {
      forall i | 0 <= i < |g[c]| && IsTransfer(g[c][i]) ensures g[c][i].target in g.Keys {
        TargetsAreNamedChains(root, names, c, i);
        var k :| 0 <= k < |root| && IsBlock(root[k], g[c][i].target);
        assert g[c][i].target in ChainNames(root);
      }
    }
  }

  // ---------- When there is a filter ----------

  /** A rule no chain of the file can hold: a priority that is no `int`, an unknown message, a text that is
      no subnet, or a call or goto to the default chain or to no chain of the file. */
  predicate IsBadRule(node: RuleNode, names: Names, root: seq<Node>) {
    || (node.priority.Some? && !(-0x8000_0000 <= ReadInt(node.priority.value) < 0x8000_0000))
    || (node.condition.Some? && IsBadCondition(node.condition.value, names))
    || (node.action.CallNode? && (node.action.target == "default" || !IsDefined(root, node.action.target)))
    || (node.action.GoToNode? && (node.action.target == "default" || !IsDefined(root, node.action.target)))
  }

  /** There is a block of that name. */
  predicate IsDefined(root: seq<Node>, name: string) {
    exists k :: 0 <= k < |root| && root[k].ChainBlock? && root[k].chain.name == name
  }

  predicate IsBadCondition(node: ConditionNode, names: Names) {
    || (node.packetType.Some? && forall id :: id in names ==> names[id] != node.packetType.value)
    || (node.source.Some? && ParseSubnet(node.source.value).Err?)
    || (node.dest.Some? && ParseSubnet(node.dest.value).Err?)
  }

  lemma NamesAreDefined(root: seq<Node>, name: string)
    requires name != "default"
    ensures name in ChainNames(root) <==> IsDefined(root, name)
  {}

  lemma BadConditionFails(node: ConditionNode, names: Names)
    requires OneToOne(names)
    ensures BuildCondition(node, names).Err? <==> IsBadCondition(node, names)
  {}

  lemma BadRuleFails(node: RuleNode, names: Names, root: seq<Node>)
    requires OneToOne(names)
    ensures BuildRule(node, names, ChainNames(root)).Err? <==> IsBadRule(node, names, root)
  {
    if node.condition.Some? { BadConditionFails(node.condition.value, names); }
    if (node.action.CallNode? || node.action.GoToNode?) && node.action.target != "default" {
      NamesAreDefined(root, node.action.target);
    }
  }

  lemma {:induction false} BadRulesFail(nodes: seq<RuleNode>, names: Names, root: seq<Node>)
    requires OneToOne(names)
    ensures BuildRules(nodes, names, ChainNames(root)).Err? <==>
              exists k :: 0 <= k < |nodes| && IsBadRule(nodes[k], names, root)
  {
    if nodes != [] {
      BadRuleFails(nodes[0], names, root);
      BadRulesFail(nodes[1..], names, root);
      assert forall k :: 0 < k < |nodes| ==> nodes[k] == nodes[1..][k - 1];
      assert forall k :: 0 <= k < |nodes[1..]| ==> nodes[1..][k] == nodes[k + 1];
    }
  }

  predicate IsBadNode(node: Node, names: Names, root: seq<Node>) {
    node.ChainBlock? && exists k :: 0 <= k < |node.chain.rules| && IsBadRule(node.chain.rules[k], names, root)
  }

  lemma {:induction false} BadNodesFail(nodes: seq<Node>, names: Names, root: seq<Node>)
    requires OneToOne(names)
    ensures FirstError(nodes, names, ChainNames(root)).Some? <==>
              exists i :: 0 <= i < |nodes| && IsBadNode(nodes[i], names, root)
  {
    if nodes != [] {
      if nodes[0].ChainBlock? { BadRulesFail(nodes[0].chain.rules, names, root); }
      BadNodesFail(nodes[1..], names, root);
      assert forall i :: 0 < i < |nodes| ==> nodes[i] == nodes[1..][i - 1];
      assert forall i :: 0 <= i < |nodes[1..]| ==> nodes[1..][i] == nodes[i + 1];
    }
  }

  /** There is a filter exactly when no block holds a bad rule; where in the file a chain that is
      called or gone to is defined does not matter. */
  lemma TranslationFailsExactly(root: seq<Node>, names: Names)
    requires OneToOne(names)
    ensures Translate(root, names).Err? <==>
              exists i :: 0 <= i < |root| && IsBadNode(root[i], names, root)
  {
    BadNodesFail(root, names, root);
  }

  /** Rule `i` of block `k` is bad, and no rule before it in the file is. */
  ghost predicate IsFirstBad(root: seq<Node>, nodes: seq<Node>, names: Names, k: nat, i: nat) {
    && k < |nodes| && nodes[k].ChainBlock? && i < |nodes[k].chain.rules|
    && IsBadRule(nodes[k].chain.rules[i], names, root)
    && (forall j :: 0 <= j < k ==> !IsBadNode(nodes[j], names, root))
    && forall j :: 0 <= j < i ==> !IsBadRule(nodes[k].chain.rules[j], names, root)
  }

  lemma {:induction false} FirstRuleError(nodes: seq<RuleNode>, names: Names, root: seq<Node>, i: nat)
    requires OneToOne(names) && i < |nodes| && IsBadRule(nodes[i], names, root)
    requires forall j :: 0 <= j < i ==> !IsBadRule(nodes[j], names, root)
    ensures BuildRule(nodes[i], names, ChainNames(root)).Err?
    ensures BuildRules(nodes, names, ChainNames(root))
         == Err(BuildRule(nodes[i], names, ChainNames(root)).error)
  {
    BadRuleFails(nodes[i], names, root);
    BadRuleFails(nodes[0], names, root);
    if i > 0 { FirstRuleError(nodes[1..], names, root, i - 1); }
  }

  lemma {:induction false} FirstBlockError(nodes: seq<Node>, names: Names, root: seq<Node>, k: nat, i: nat)
    requires OneToOne(names) && IsFirstBad(root, nodes, names, k, i)
    ensures BuildRule(nodes[k].chain.rules[i], names, ChainNames(root)).Err?
    ensures FirstError(nodes, names, ChainNames(root))
         == Some(BuildRule(nodes[k].chain.rules[i], names, ChainNames(root)).error)
  {
    if k == 0 {
      FirstRuleError(nodes[0].chain.rules, names, root, i);
    } else {
      if nodes[0].ChainBlock? { BadRulesFail(nodes[0].chain.rules, names, root); }
      assert !IsBadNode(nodes[0], names, root);
      FirstBlockError(nodes[1..], names, root, k - 1, i);
    }
  }

  function ConditionError(node: ConditionNode, names: Names): Error
    requires IsBadCondition(node, names)
  {
    if node.packetType.Some? && forall id :: id in names ==> names[id] != node.packetType.value then InvalidArgument
    else if node.source.Some? && ParseSubnet(node.source.value).Err? then ParseSubnet(node.source.value).error
    else ParseSubnet(node.dest.value).error
  }

  /** What is wrong with a bad rule: its priority first, then its condition, then its target. */
  function RuleError(node: RuleNode, names: Names, root: seq<Node>): Error
    requires IsBadRule(node, names, root)
  {
    if node.priority.Some? && !(-0x8000_0000 <= ReadInt(node.priority.value) < 0x8000_0000) then OutOfRange
    else if node.condition.Some? && IsBadCondition(node.condition.value, names) then
      ConditionError(node.condition.value, names)
    else if node.action.target == "default" then InvalidArgument
    else OutOfRange
  }

  lemma BadConditionError(node: ConditionNode, names: Names)
    requires OneToOne(names) && IsBadCondition(node, names)
    ensures BuildCondition(node, names) == Err(ConditionError(node, names))
  {}

  lemma BadRuleError(node: RuleNode, names: Names, root: seq<Node>)
    requires OneToOne(names) && IsBadRule(node, names, root)
    ensures BuildRule(node, names, ChainNames(root)) == Err(RuleError(node, names, root))
  {
    if node.condition.Some? {
      BadConditionFails(node.condition.value, names);
      if IsBadCondition(node.condition.value, names) { BadConditionError(node.condition.value, names); }
    }
    if (node.action.CallNode? || node.action.GoToNode?) && node.action.target != "default" {
      NamesAreDefined(root, node.action.target);
    }
  }

  /** The error is that of the bad rule that comes first in the file. */
  lemma FirstBadRuleIsReported(root: seq<Node>, names: Names, k: nat, i: nat)
    requires OneToOne(names) && IsFirstBad(root, root, names, k, i)
    ensures Translate(root, names) == Err(RuleError(root[k].chain.rules[i], names, root))
  {
    FirstBlockError(root, names, root, k, i);
    BadRuleError(root[k].chain.rules[i], names, root);
  }

  lemma {:induction false} LastDefaultWins(root: seq<Node>, i: nat)
    requires i < |root| && root[i].DefaultAction? && forall j :: i < j < |root| ==> !root[j].DefaultAction?
    ensures LastDefault(root) == root[i].accept
  {
    if i < |root| - 1 { LastDefaultWins(root[..|root| - 1], i); }
  }

  lemma {:induction false} NoDefaultRejects(root: seq<Node>)
    requires forall j :: 0 <= j < |root| ==> !root[j].DefaultAction?
    ensures !LastDefault(root)
  {
    if root != [] { NoDefaultRejects(root[..|root| - 1]); }
  }

  // ---------- Every rule has its place ----------

  /** The number of rules in all blocks of that name. */
  function RulesIn(nodes: seq<Node>, name: string): nat {
    if nodes == [] then 0 else
      var last := nodes[|nodes| - 1];
      RulesIn(nodes[..|nodes| - 1], name)
      + if last.ChainBlock? && last.chain.name == name then |last.chain.rules| else 0
  }

  lemma {:induction false} RulesCounted(nodes: seq<Node>, name: string)
    ensures |RuleNodes(nodes, name)| == RulesIn(nodes, name)
  {
    if nodes != [] {
      var shorter, last := nodes[..|nodes| - 1], nodes[|nodes| - 1];
      RulesCounted(shorter, name);
      assert nodes == shorter + [last];
      RuleNodesConcat(shorter, [last], name);
      assert RuleNodes([last], name) == NodeRules(last, name) + RuleNodes([last][1..], name);
    }
  }

  lemma {:induction false} BuiltAt(nodes: seq<RuleNode>, names: Names, ids: set<string>, i: nat)
    requires OneToOne(names) && BuildRules(nodes, names, ids).Ok? && i < |nodes|
    ensures BuildRule(nodes[i], names, ids) == Ok(BuildRules(nodes, names, ids).value[i])
  {
    if i > 0 { BuiltAt(nodes[1..], names, ids, i - 1); }
  }

  lemma RuleNodeAt(root: seq<Node>, name: string, k: nat, i: nat)
    requires k < |root| && root[k].ChainBlock? && root[k].chain.name == name && i < |root[k].chain.rules|
    ensures RulesIn(root[..k], name) + i < |RuleNodes(root, name)|
    ensures RuleNodes(root, name)[RulesIn(root[..k], name) + i] == root[k].chain.rules[i]
  {
    assert root == root[..k] + root[k..];
    RuleNodesConcat(root[..k], root[k..], name);
    RulesCounted(root[..k], name);
    assert RuleNodes(root[k..], name) == root[k].chain.rules + RuleNodes(root[k..][1..], name);
  }

  /** A chain of the filter holds the rules of all blocks of its name and no others: rule `i` of block `k`
      stands behind those of the earlier blocks and the earlier rules of its own. */
  lemma RulesInPlace(root: seq<Node>, names: Names, name: string, k: nat, i: nat)
    requires OneToOne(names) && Translate(root, names).Ok? && name in Translate(root, names).value.chains
    ensures |Translate(root, names).value.chains[name]| == RulesIn(root, name)
    ensures k < |root| && root[k].ChainBlock? && root[k].chain.name == name && i < |root[k].chain.rules| ==>
              && RulesIn(root[..k], name) + i < RulesIn(root, name)
              && BuildRule(root[k].chain.rules[i], names, ChainNames(root))
              == Ok(Translate(root, names).value.chains[name][RulesIn(root[..k], name) + i])
  {
    var ids := ChainNames(root);
    BlocksBuild(root, name, names, ids);
    RulesCounted(root, name);
    if k < |root| && root[k].ChainBlock? && root[k].chain.name == name && i < |root[k].chain.rules| {
      RuleNodeAt(root, name, k, i);
      BuiltAt(RuleNodes(root, name), names, ids, RulesIn(root[..k], name) + i);
    }
  }

  // ---------- The filter decides as the configuration reads ----------

  /** What a rule is built from. */
  ghost predicate BuiltFrom(rule: Rules.Rule, node: RuleNode, names: Names, ids: set<string>)
    requires OneToOne(names)
  {
    && OptionalConditionValue(node.condition, names) == Ok(rule.condition)
    && BuildAction(node.action, PriorityIn(node.priority), rule.condition, ids) == Ok(rule)
  }

  lemma GuardMeaning(
    rule: Rules.Rule, node: RuleNode, names: Names, ids: set<string>, m: Rules.Message, a: Address)
    requires OneToOne(names) && BuiltFrom(rule, node, names, ids)
    ensures Rules.Matches(rule.condition, m, a) <==> ConditionHolds(node.condition, names, m, a)
  {
  }

  lemma {:induction false} EvalConcat(
    g: Rules.Graph, path: seq<string>, xs: seq<Rules.Rule>, ys: seq<Rules.Rule>, m: Rules.Message, a: Address)
    requires Rules.Closed(g) && Rules.Targets(xs + ys, g.Keys)
    requires Rules.Targets(xs, g.Keys) && Rules.Targets(ys, g.Keys)
    ensures Rules.EvalRules(g, path, xs + ys, m, a)
         == if Rules.EvalRules(g, path, xs, m, a) == Ok(Rules.Continue)
            then Rules.EvalRules(g, path, ys, m, a) else Rules.EvalRules(g, path, xs, m, a)
  {
    if xs == [] {
      assert xs + ys == ys;
    } else {
      assert (xs + ys)[1..] == xs[1..] + ys;
      EvalConcat(g, path, xs[1..], ys, m, a);
    }
  }

  /** A graph of the chains of a configuration. */
  ghost predicate Represents(g: Rules.Graph, root: seq<Node>, names: Names)
    requires OneToOne(names)
  {
    var ids := ChainNames(root);
    && Rules.Closed(g) && g.Keys == ids + {"default"}
    && forall c :: c in g ==> BuildRules(RuleNodes(root, c), names, ids) == Ok(g[c])
  }

  lemma {:induction false} RuleMeaning(
    g: Rules.Graph, root: seq<Node>, names: Names, path: seq<string>, node: RuleNode, m: Rules.Message, a: Address)
    requires OneToOne(names) && Represents(g, root, names) && BuildRule(node, names, ChainNames(root)).Ok?
    requires Rules.Targets([BuildRule(node, names, ChainNames(root)).value], g.Keys)
    ensures Rules.EvalRule(g, path, BuildRule(node, names, ChainNames(root)).value, m, a)
         == InterpretRule(root, node, names, path, m, a)
    decreases Scope(root, path), 1, 0
  {
    var rule := BuildRule(node, names, ChainNames(root)).value;
    GuardMeaning(rule, node, names, ChainNames(root), m, a);
    if IsTransfer(rule) {
      assert [rule][0] == rule;
      TransferIsBuilt(rule, node, names, ChainNames(root));
      ChainMeaning(g, root, names, path, rule.target, m, a);
      ResumeMeaning(rule, Rules.EvalChain(g, path, rule.target, m, a));
    } else {
      LeafIsBuilt(rule, node, names, ChainNames(root));
    }
  }

  lemma LeafIsBuilt(rule: Rules.Rule, node: RuleNode, names: Names, ids: set<string>)
    requires OneToOne(names) && BuiltFrom(rule, node, names, ids) && !IsTransfer(rule)
    ensures node.action == if rule.Accept? then AcceptNode else RejectNode
    ensures rule.Accept? ==> rule.priority == PriorityIn(node.priority)
  {}

  lemma TransferIsBuilt(rule: Rules.Rule, node: RuleNode, names: Names, ids: set<string>)
    requires OneToOne(names) && BuiltFrom(rule, node, names, ids) && IsTransfer(rule)
    ensures node.action == if rule.Call? then CallNode(rule.target) else GoToNode(rule.target)
    ensures rule.priority == PriorityIn(node.priority)
  {}

  lemma ResumeMeaning(rule: Rules.Rule, result: Rules.Outcome)
    requires IsTransfer(rule)
    ensures Rules.Resume(rule, result)
         == if rule.GoTo? && Prioritized(result, rule.priority) == Ok(Rules.Continue) then Ok(Rules.Default)
            else Prioritized(result, rule.priority)
  {}

  lemma {:induction false} RulesMeaning(
    g: Rules.Graph, root: seq<Node>, names: Names, path: seq<string>, nodes: seq<RuleNode>,
    m: Rules.Message, a: Address)
    requires OneToOne(names) && Represents(g, root, names) && BuildRules(nodes, names, ChainNames(root)).Ok?
    requires Rules.Targets(BuildRules(nodes, names, ChainNames(root)).value, g.Keys)
    ensures Rules.EvalRules(g, path, BuildRules(nodes, names, ChainNames(root)).value, m, a)
         == InterpretRules(root, nodes, names, path, m, a)
    decreases Scope(root, path), 2, |nodes|
  {
    if nodes != [] {
      var rules := BuildRules(nodes, names, ChainNames(root)).value;
      assert [rules[0]][0] == rules[0];
      RuleMeaning(g, root, names, path, nodes[0], m, a);
      assert rules[1..] == BuildRules(nodes[1..], names, ChainNames(root)).value;
      RulesMeaning(g, root, names, path, nodes[1..], m, a);
    }
  }

  lemma {:induction false} BlocksMeaning(
    g: Rules.Graph, root: seq<Node>, names: Names, path: seq<string>, name: string, nodes: seq<Node>,
    m: Rules.Message, a: Address)
    requires OneToOne(names) && Represents(g, root, names)
    requires BuildRules(RuleNodes(nodes, name), names, ChainNames(root)).Ok?
    requires Rules.Targets(BuildRules(RuleNodes(nodes, name), names, ChainNames(root)).value, g.Keys)
    ensures Rules.EvalRules(g, path, BuildRules(RuleNodes(nodes, name), names, ChainNames(root)).value, m, a)
         == InterpretBlocks(root, nodes, names, path, name, m, a)
    decreases Scope(root, path), 3, |nodes|
  {
    if nodes != [] {
      var ids := ChainNames(root);
      BuildConcat(NodeRules(nodes[0], name), RuleNodes(nodes[1..], name), names, ids);
      var first := BuildRules(NodeRules(nodes[0], name), names, ids).value;
      var others := BuildRules(RuleNodes(nodes[1..], name), names, ids).value;
      TargetsSplit(first, others, g.Keys);
      RulesMeaning(g, root, names, path, NodeRules(nodes[0], name), m, a);
      BlocksMeaning(g, root, names, path, name, nodes[1..], m, a);
      EvalConcat(g, path, first, others, m, a);
    }
  }

  lemma TargetsSplit(xs: seq<Rules.Rule>, ys: seq<Rules.Rule>, ids: set<string>)
    requires Rules.Targets(xs + ys, ids)
    ensures Rules.Targets(xs, ids) && Rules.Targets(ys, ids)
  {
    assert forall i :: 0 <= i < |xs| ==> xs[i] == (xs + ys)[i];
    assert forall i :: 0 <= i < |ys| ==> ys[i] == (xs + ys)[|xs| + i];
  }

  lemma {:induction false} ChainMeaning(
    g: Rules.Graph, root: seq<Node>, names: Names, path: seq<string>, name: string, m: Rules.Message, a: Address)
    requires OneToOne(names) && Represents(g, root, names) && name in g
    ensures Rules.EvalChain(g, path, name, m, a) == InterpretChain(root, names, path, name, m, a)
    decreases Scope(root, path), 0, 0
  {
    assert name in Scope(root, []);
    if name !in path {
      ScopeShrinks(root, path, name);
      BlocksMeaning(g, root, names, path + [name], name, root, m, a);
    }
  }

  /** The filter decides every packet and address as a direct reading of the configuration does. */
  lemma TranslationKeepsMeaning(root: seq<Node>, names: Names, m: Rules.Message, a: Address)
    requires OneToOne(names) && Translate(root, names).Ok?
    ensures Rules.ValidFilter(Translate(root, names).value)
    ensures Rules.WillAccept(Translate(root, names).value, m, a) == Interpret(root, names, m, a)
  {
    FilterIsValid(root, names);
    var g := Translate(root, names).value.chains;
    forall c | c in g ensures BuildRules(RuleNodes(root, c), names, ChainNames(root)) == Ok(g[c]) {
      BlocksBuild(root, c, names, ChainNames(root));
    }
    ChainMeaning(g, root, names, [], "default", m, a);
  }

  // ---------- A configuration that accepts nothing and rejects nothing ----------

  const CALL_A := RuleNode(CallNode("a"), None, None)

  /** `chain default { call a; }` and `chain a { call a; }`. */
  const SELF_CALL := [ChainBlock(ChainNode("default", [CALL_A])), ChainBlock(ChainNode("a", [CALL_A]))]

  lemma SelfCallNames()
    ensures ChainNames(SELF_CALL) == {"a"}
  {
    assert SELF_CALL[1].chain.name == "a";
  }

  lemma SelfCallTranslates(names: Names)
    requires OneToOne(names)
    ensures Translate(SELF_CALL, names).Ok?
  {
    SelfCallNames();
    assert SELF_CALL[1].chain.name == "a";
    forall i | 0 <= i < |SELF_CALL| ensures !IsBadNode(SELF_CALL[i], names, SELF_CALL) {
      assert IsDefined(SELF_CALL, "a") && !IsBadRule(CALL_A, names, SELF_CALL);
      assert SELF_CALL[i].chain.rules == [CALL_A];
    }
    TranslationFailsExactly(SELF_CALL, names);
  }

  /** A block with the one rule `call a` gives what chain `a` gives, if that is an error. */
  lemma CallBlock(node: Node, nodes: seq<Node>, names: Names, path: seq<string>, m: Rules.Message, a: Address)
    requires node.ChainBlock? && node.chain.rules == [CALL_A]
    requires InterpretChain(SELF_CALL, names, path, "a", m, a) == Err(Rules.RecursionError)
    ensures InterpretBlocks(SELF_CALL, [node] + nodes, names, path, node.chain.name, m, a) == Err(Rules.RecursionError)
  {
    assert InterpretRule(SELF_CALL, CALL_A, names, path, m, a) == Err(Rules.RecursionError);
    assert InterpretRules(SELF_CALL, [CALL_A], names, path, m, a) == Err(Rules.RecursionError);
    assert NodeRules(node, node.chain.name) == [CALL_A];
  }

  lemma InsideSelfCall(names: Names, m: Rules.Message, a: Address)
    ensures InterpretChain(SELF_CALL, names, ["default"], "a", m, a) == Err(Rules.RecursionError)
  {
    SelfCallNames();
    var path := ["default"] + ["a"];
    ScopeShrinks(SELF_CALL, ["default"], "a");
    assert path[1] == "a";
    CallBlock(SELF_CALL[1], [], names, path, m, a);
    assert SELF_CALL[1..] == [SELF_CALL[1]] + [];
    assert InterpretRules(SELF_CALL, NodeRules(SELF_CALL[0], "a"), names, path, m, a) == Ok(Rules.Continue);
    assert InterpretBlocks(SELF_CALL, SELF_CALL, names, path, "a", m, a)
        == InterpretBlocks(SELF_CALL, SELF_CALL[1..], names, path, "a", m, a);
  }

  /** It is accepted, and then every packet for every address ends in a recursion error. */
  lemma SelfCallAlwaysFails(names: Names, m: Rules.Message, a: Address)
    requires OneToOne(names)
    ensures Translate(SELF_CALL, names).Ok? && Rules.ValidFilter(Translate(SELF_CALL, names).value)
    ensures Interpret(SELF_CALL, names, m, a) == Err(Rules.RecursionError)
    ensures Rules.WillAccept(Translate(SELF_CALL, names).value, m, a) == Err(Rules.RecursionError)
  {
    SelfCallTranslates(names);
    SelfCallNames();
    ScopeShrinks(SELF_CALL, [], "default");
    assert [] + ["default"] == ["default"];
    InsideSelfCall(names, m, a);
    CallBlock(SELF_CALL[0], [SELF_CALL[1]], names, ["default"], m, a);
    assert SELF_CALL == [SELF_CALL[0]] + [SELF_CALL[1]];
    TranslationKeepsMeaning(SELF_CALL, names, m, a);
  }
}
