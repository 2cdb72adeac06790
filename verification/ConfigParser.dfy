/** `parse_filter` step by step: chain objects are made first, then the blocks fill them in file order. */
module ConfigParser {
  import opened Wrappers
  import opened Subnets
  import opened RuleGrammar
  import opened Translation
  import opened Config
  import opened GuardedChains
  import Rules

  /** Different names are different objects with different marks. */
  ghost predicate Apart(chains: Chains) {
    forall c, d :: c in chains && d in chains && c != d ==>
      chains[c] != chains[d] && chains[c].recursionData != chains[d].recursionData
  }

  /** Chains that were just made: no thread is inside any of them. */
  twostate predicate New(new chains: Chains)
    reads chains.Values, Marks(chains)
  {
    forall c :: c in chains ==>
      fresh(chains[c]) && fresh(chains[c].recursionData) && chains[c].recursionData.callingThreads == {}
  }

  /** An empty chain for every chain block that is not the default chain. */
  method InitChains(root: seq<Node>) returns (chains: Chains)
    ensures chains.Keys == ChainNames(root)
    ensures New(chains) && Apart(chains) && forall c :: c in chains ==> chains[c].rules == []
  {
    chains := map[];
    for i := 0 to |root|
      invariant chains.Keys == ChainNames(root[..i])
      invariant New(chains) && Apart(chains) && forall c :: c in chains ==> chains[c].rules == []
    {
      if root[i].ChainBlock? && root[i].chain.name != "default" {
        var chain := new GuardedChains.Chain(root[i].chain.name);
        chains := chains[root[i].chain.name := chain];
      }
    }
    assert root[..|root|] == root;
  }

  /** Append the rules of one block to its chain, or stop at the first that cannot be built. */
  method ParseChain(chain: GuardedChains.Chain, nodes: seq<RuleNode>, names: Names, ids: set<string>)
    returns (error: Option<Error>)
    requires OneToOne(names)
    modifies chain`rules
    ensures match BuildRules(nodes, names, ids)
            case Ok(rules) => error == None && chain.rules == old(chain.rules) + rules
            case Err(e) => error == Some(e)
  {
    ghost var before := chain.rules;
    var i := 0;
    while i < |nodes|
      invariant i <= |nodes|
      invariant BuildRules(nodes[..i], names, ids).Ok?
      invariant chain.rules == before + BuildRules(nodes[..i], names, ids).value
    {
      assert nodes == nodes[..i + 1] + nodes[i + 1..] && nodes[..i + 1] == nodes[..i] + [nodes[i]];
      BuildConcat(nodes[..i + 1], nodes[i + 1..], names, ids);
      BuildConcat(nodes[..i], [nodes[i]], names, ids);
      assert [nodes[i]][1..] == [];
      match BuildRule(nodes[i], names, ids) {
        case Err(e) => return Some(e);
        case Ok(rule) => chain.Append(rule);
      }
      i := i + 1;
    }
    assert nodes[..|nodes|] == nodes;
    return None;
  }

  /** Every chain holds the rules of its blocks in `nodes`. */
  ghost predicate Filled(chains: Chains, nodes: seq<Node>, names: Names, ids: set<string>)
    requires OneToOne(names)
    reads chains.Values
  {
    forall c :: c in chains ==> BuildRules(RuleNodes(nodes, c), names, ids) == Ok(chains[c].rules)
  }

  lemma FilledStep(nodes: seq<Node>, node: Node, name: string, names: Names, ids: set<string>)
    requires OneToOne(names)
    requires BuildRules(RuleNodes(nodes, name), names, ids).Ok? && BuildRules(NodeRules(node, name), names, ids).Ok?
    ensures BuildRules(RuleNodes(nodes + [node], name), names, ids)
         == Ok(
              BuildRules(RuleNodes(nodes, name), names, ids).value
              + BuildRules(NodeRules(node, name), names, ids).value)
  {
    RuleNodesConcat(nodes, [node], name);
    assert [node][1..] == [];
    assert RuleNodes([node], name) == NodeRules(node, name);
    BuildConcat(RuleNodes(nodes, name), NodeRules(node, name), names, ids);
  }

  /** Append one block to its chain; no other chain changes. */
  method ParseBlock(chains: Chains, node: Node, names: Names, ids: set<string>, ghost before: seq<Node>)
    returns (error: Option<Error>)
    requires OneToOne(names) && Apart(chains) && Filled(chains, before, names, ids)
    requires node.ChainBlock? && node.chain.name in chains
    modifies chains.Values`rules
    ensures error == NodeError(node, names, ids)
    ensures error == None ==> Filled(chains, before + [node], names, ids)
  {
    var name := node.chain.name;
    error := ParseChain(chains[name], node.chain.rules, names, ids);
    if error == None {
      forall c | c in chains ensures BuildRules(RuleNodes(before + [node], c), names, ids) == Ok(chains[c].rules) {
        FilledStep(before, node, c, names, ids);
        if c != name {
          assert chains[c].rules == old(chains[c].rules);
          assert chains[c].rules + [] == chains[c].rules;
        }
      }
    }
  }

  lemma ErrorStep(root: seq<Node>, i: nat, names: Names, ids: set<string>)
    requires OneToOne(names) && i < |root| && FirstError(root[..i], names, ids).None?
    ensures FirstError(root[..i + 1], names, ids) == NodeError(root[i], names, ids)
    ensures NodeError(root[i], names, ids).Some? ==> FirstError(root, names, ids) == NodeError(root[i], names, ids)
  {
    assert root[..i + 1] == root[..i] + [root[i]] && root == root[..i + 1] + root[i + 1..];
    assert [root[i]][1..] == [];
    FirstErrorConcat(root[..i], [root[i]], names, ids);
    FirstErrorConcat(root[..i + 1], root[i + 1..], names, ids);
  }

  lemma OtherStep(chains: Chains, root: seq<Node>, i: nat, names: Names, ids: set<string>)
    requires OneToOne(names) && i < |root| && !root[i].ChainBlock? && Filled(chains, root[..i], names, ids)
    ensures Filled(chains, root[..i + 1], names, ids)
  {
    assert root[..i + 1] == root[..i] + [root[i]];
    forall c | c in chains ensures BuildRules(RuleNodes(root[..i + 1], c), names, ids) == Ok(chains[c].rules) {
      FilledStep(root[..i], root[i], c, names, ids);
      assert chains[c].rules + [] == chains[c].rules;
    }
  }

  /** What is known after the first `i` nodes. */
  ghost predicate Progress(
    chains: Chains, root: seq<Node>, i: nat, names: Names, ids: set<string>, defaultAction: bool)
    requires OneToOne(names) && i <= |root|
    reads chains.Values
  {
    && FirstError(root[..i], names, ids).None?
    && Filled(chains, root[..i], names, ids)
    && defaultAction == LastDefault(root[..i])
  }

  lemma DefaultStep(root: seq<Node>, i: nat)
    requires i < |root|
    ensures root[..i + 1] == root[..i] + [root[i]]
    ensures LastDefault(root[..i + 1]) == if root[i].DefaultAction? then root[i].accept else LastDefault(root[..i])
  {
    assert root[..i + 1][..i] == root[..i];
  }

  /** One top node: a block of rules, a default action, or something else. */
  method ParseNode(chains: Chains, root: seq<Node>, i: nat, names: Names, ids: set<string>, defaultAction: bool)
    returns (error: Option<Error>, action: bool)
    requires OneToOne(names) && i < |root| && Apart(chains) && Progress(chains, root, i, names, ids, defaultAction)
    requires chains.Keys == ChainNames(root) + {"default"}
    modifies chains.Values`rules
    ensures if error.Some? then FirstError(root, names, ids) == error
            else Progress(chains, root, i + 1, names, ids, action)
  {
    error, action := None, defaultAction;
    ErrorStep(root, i, names, ids);
    DefaultStep(root, i);
    match root[i] {
      case ChainBlock(chain) =>
        error := ParseBlock(chains, root[i], names, ids, root[..i]);
      case DefaultAction(accept) =>
        OtherStep(chains, root, i, names, ids);
        action := accept;
      case OtherBlock =>
        OtherStep(chains, root, i, names, ids);
    }
  }

  lemma ProgressStarts(chains: Chains, root: seq<Node>, names: Names, ids: set<string>)
    requires OneToOne(names) && forall c :: c in chains ==> chains[c].rules == []
    ensures Progress(chains, root, 0, names, ids, false)
  {}

  lemma FilledIsTranslated(chains: Chains, root: seq<Node>, names: Names)
    requires OneToOne(names) && chains.Keys == ChainNames(root) + {"default"}
    requires Translate(root, names).Ok? && Filled(chains, root, names, ChainNames(root))
    ensures GraphOf(chains) == Translate(root, names).value.chains
  {
    var g := Translate(root, names).value.chains;
    assert g.Keys == GraphOf(chains).Keys;
    assert forall c :: c in g ==> g[c] == GraphOf(chains)[c];
  }

  lemma ParsedIsTranslated(chains: Chains, root: seq<Node>, names: Names, defaultAction: bool)
    requires OneToOne(names) && Apart(chains) && chains.Keys == ChainNames(root) + {"default"}
    requires Progress(chains, root, |root|, names, ChainNames(root), defaultAction)
    ensures Translate(root, names) == Ok(Rules.Filter(GraphOf(chains), "default", defaultAction))
    ensures Wired(chains)
  {
    assert root[..|root|] == root;
    FilledIsTranslated(chains, root, names);
    FilterIsValid(root, names);
  }

  /** An empty chain for every name, the default chain among them. */
  method StartChains(root: seq<Node>) returns (named: Chains, chains: Chains)
    ensures named.Keys == ChainNames(root) && chains.Keys == named.Keys + {"default"}
    ensures New(chains) && Apart(chains) && forall c :: c in chains ==> chains[c].rules == []
  {
    var defaultChain := new GuardedChains.Chain("default");
    named := InitChains(root);
    chains := named["default" := defaultChain];
  }

  /** The chains of the file, the default chain among them, and the default action; or the error met
      first. The chain objects hold the chains of the translated filter, ready to be evaluated. */
  method ParseFilter(root: seq<Node>, names: Names) returns (r: Result<(Chains, bool), Error>)
    requires OneToOne(names)
    ensures match Translate(root, names)
            case Err(e) => r == Err(e)
            case Ok(filter) =>
              && r.Ok? && New(r.value.0) && Wired(r.value.0)
              && filter == Rules.Filter(GraphOf(r.value.0), "default", r.value.1)
  {
    var defaultAction := false;
    var named, chains := StartChains(root);
    var i := 0;
    ProgressStarts(chains, root, names, named.Keys);
    while i < |root|
      invariant i <= |root|
      invariant New(chains) && Apart(chains)
      invariant Progress(chains, root, i, names, named.Keys, defaultAction)
    {
      var error;
      error, defaultAction := ParseNode(chains, root, i, names, named.Keys, defaultAction);
      if error.Some? {
        return Err(error.value);
      }
      i := i + 1;
    }
    r := Ok((chains, defaultAction));
    ParsedIsTranslated(chains, root, names, defaultAction);
  }
}
