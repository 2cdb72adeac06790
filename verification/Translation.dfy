/** From the nodes the grammar finds to rules: `parse_condition`, `parse_action` and `parse_chain`. */
module Translation {
  import opened Wrappers
  import opened Subnets
  import opened SubnetText
  import opened PacketOrder
  import opened RuleGrammar
  import Rules

  /** Message IDs and the names the message table has for them. */
  type Names = map<nat, string>

  predicate OneToOne(names: Names) {
    forall x, y :: x in names && y in names && names[x] == names[y] ==> x == y
  }

  /** The message of that name. */
  function IdOf(names: Names, name: string): (r: Result<nat, Error>)
    requires OneToOne(names)
    ensures r.Ok? <==> exists id :: id in names && names[id] == name
    ensures r.Ok? ==> r.value in names && names[r.value] == name
  {
    if exists id :: id in names && names[id] == name then
      var id :| id in names && names[id] == name;
      Ok(id)
    else
      Err(InvalidArgument)
  }

  /** `std::stoi` on an optional sign and digits. */
  function ToInt(s: string): Result<Int32, Error> {
    var n := ReadInt(s);
    if -0x8000_0000 <= n < 0x8000_0000 then Ok(n) else Err(OutOfRange)
  }

  /** An optional text read by a function that may fail. */
  function OptionalSubnet(text: Option<string>): Result<Option<Subnet>, Error> {
    match text
    case None => Ok(None)
    case Some(s) =>
      match ParseSubnet(s)
      case Ok(subnet) => Ok(Some(subnet))
      case Err(e) => Err(e)
  }

  function BuildCondition(node: ConditionNode, names: Names): Result<Rules.If, Error>
    requires OneToOne(names)
  {
    var id := if node.packetType.None? then Ok(None) else
      match IdOf(names, node.packetType.value)
      case Ok(id) => Ok(Some(id))
      case Err(e) => Err(e);
    match (id, OptionalSubnet(node.source), OptionalSubnet(node.dest))
    case (Err(e), _, _) => Err(e)
    case (_, Err(e), _) => Err(e)
    case (_, _, Err(e)) => Err(e)
    case (Ok(i), Ok(source), Ok(dest)) => Ok(Rules.If(i, source, dest))
  }

  function OptionalPriorityValue(text: Option<string>): Result<Option<Int32>, Error> {
    match text
    case None => Ok(None)
    case Some(s) =>
      match ToInt(s)
      case Ok(n) => Ok(Some(n))
      case Err(e) => Err(e)
  }

  function OptionalConditionValue(node: Option<ConditionNode>, names: Names): Result<Option<Rules.If>, Error>
    requires OneToOne(names)
  {
    match node
    case None => Ok(None)
    case Some(n) =>
      match BuildCondition(n, names)
      case Ok(cond) => Ok(Some(cond))
      case Err(e) => Err(e)
  }

  /** Calls and gotos may name any chain there is except the default chain. */
  function BuildAction(action: ActionNode, priority: Option<Int32>, condition: Option<Rules.If>, chains: set<string>)
    : Result<Rules.Rule, Error>
  {
    match action
    case AcceptNode => Ok(Rules.Accept(priority, condition))
    case RejectNode => Ok(Rules.Reject(condition))
    case CallNode(target) =>
      if target == "default" then Err(InvalidArgument)
      else if target !in chains then Err(OutOfRange)
      else Ok(Rules.Call(target, priority, condition))
    case GoToNode(target) =>
      if target == "default" then Err(InvalidArgument)
      else if target !in chains then Err(OutOfRange)
      else Ok(Rules.GoTo(target, priority, condition))
  }

  function BuildRule(node: RuleNode, names: Names, chains: set<string>): Result<Rules.Rule, Error>
    requires OneToOne(names)
  {
    match OptionalPriorityValue(node.priority)
    case Err(e) => Err(e)
    case Ok(priority) =>
      match OptionalConditionValue(node.condition, names)
      case Err(e) => Err(e)
      case Ok(condition) => BuildAction(node.action, priority, condition, chains)
  }

  /** The rules of a chain in order, or the first error. */
  function BuildRules(nodes: seq<RuleNode>, names: Names, chains: set<string>): (r: Result<seq<Rules.Rule>, Error>)
    requires OneToOne(names)
    ensures r.Ok? ==> |r.value| == |nodes|
  {
    if nodes == [] then Ok([]) else
      match BuildRule(nodes[0], names, chains)
      case Err(e) => Err(e)
      case Ok(rule) =>
        match BuildRules(nodes[1..], names, chains)
        case Err(e) => Err(e)
        case Ok(rules) => Ok([rule] + rules)
  }
}
