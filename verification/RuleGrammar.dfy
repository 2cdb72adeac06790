/** The grammar of filter chains in a configuration file, as a parsing expression grammar: a rule either
    does not match, matches a prefix of the text, or, where the grammar says `must`, is an error that
    ends the parse. */
module RuleGrammar {
  import opened Wrappers
  import opened Text

  datatype Match<+T> = NoMatch | Fatal | Match(value: T, rest: string)

  datatype ActionNode = AcceptNode | RejectNode | CallNode(target: string) | GoToNode(target: string)

  /** The texts found in a condition. */
  datatype ConditionNode = ConditionNode(packetType: Option<string>, source: Option<string>, dest: Option<string>)

  datatype RuleNode = RuleNode(action: ActionNode, priority: Option<string>, condition: Option<ConditionNode>)

  datatype ChainNode = ChainNode(name: string, rules: seq<RuleNode>)

  // ---------- Blanks and comments ----------

  predicate IsSpace(c: char) {
    c == ' ' || c == '\n' || c == '\r' || c == '\t' || c == 11 as char || c == 12 as char
  }

  predicate AtEndOfLine(s: string) {
    s != [] && (s[0] == '\n' || (s[0] == '\r' && |s| > 1 && s[1] == '\n'))
  }

  /** The rest of a comment, up to the end of its line. */
  function SkipComment(s: string): (rest: string)
    ensures |rest| <= |s|
  {
    if s == [] || AtEndOfLine(s) then s else SkipComment(s[1..])
  }

  /** Any number of blanks and comments. */
  function Skip(s: string): (rest: string)
    ensures |rest| <= |s|
    decreases |s|
  {
    if s == [] then s
    else if IsSpace(s[0]) then Skip(s[1..])
    else if s[0] == '#' then Skip(SkipComment(s[1..]))
    else s
  }

  // ---------- Tokens, by the length they match ----------

  predicate IsUpper(c: char) { 'A' <= c <= 'Z' }

  predicate IsAlpha(c: char) { 'a' <= c <= 'z' || IsUpper(c) }

  predicate IsNameStart(c: char) { IsAlpha(c) || c == '_' }

  predicate IsNameChar(c: char) { IsNameStart(c) || IsDigit(c) }

  predicate IsTypeChar(c: char) { IsUpper(c) || IsDigit(c) || c == '_' }

  function NameRun(s: string): (n: nat)
    ensures n <= |s|
  {
    if s != [] && IsNameChar(s[0]) then 1 + NameRun(s[1..]) else 0
  }

  function TypeRun(s: string): (n: nat)
    ensures n <= |s|
  {
    if s != [] && IsTypeChar(s[0]) then 1 + TypeRun(s[1..]) else 0
  }

  /** Cut off a token of `n` characters, none meaning no match. */
  function Token(s: string, n: nat): (m: Match<string>)
    requires n <= |s|
    ensures m.Match? ==> |m.rest| < |s|
  {
    if n == 0 then NoMatch else Match(s[..n], s[n..])
  }

  function Identifier(s: string): (m: Match<string>)
    ensures m.Match? ==> |m.rest| < |s|
  {
    Token(s, if s != [] && IsNameStart(s[0]) then NameRun(s) else 0)
  }

  function SignedInteger(s: string): (m: Match<string>)
    ensures m.Match? ==> |m.rest| < |s|
  {
    var sign := if s != [] && (s[0] == '+' || s[0] == '-') then 1 else 0;
    var digits := DigitRun(s[sign..]);
    Token(s, if digits == 0 then 0 else sign + digits)
  }

  /** Length of `digits.digits` at the start of the text, 0 if it is not there. */
  function AddressRun(s: string): (n: nat)
    ensures n <= |s|
  {
    var a := DigitRun(s);
    if a == 0 || a == |s| || s[a] != '.' then 0 else
      var b := DigitRun(s[a + 1..]);
      if b == 0 then 0 else a + 1 + b
  }

  /** An address and an optional mask; a mask sign must be followed by its mask. */
  function MavMask(s: string): (m: Match<string>)
    ensures m.Match? ==> |m.rest| < |s|
  {
    var n := AddressRun(s);
    if n == 0 || n == |s| || (s[n] != ':' && s[n] != '/' && s[n] != '\\') then Token(s, n) else
      var mask := if s[n] == ':' then AddressRun(s[n + 1..]) else DigitRun(s[n + 1..]);
      if mask == 0 then Fatal else Token(s, n + 1 + mask)
  }

  /** A keyword; gives the text behind it. */
  function Keyword(word: string, s: string): (rest: Option<string>)
    ensures rest.Some? ==> s == word + rest.value
  {
    if word <= s then
      assert s == word + s[|word|..];
      Some(s[|word|..])
    else None
  }

  // ---------- Combinators ----------

  function Must<T>(m: Match<T>): Match<T> {
    if m.NoMatch? then Fatal else m
  }

  /** `m` was matched behind skipped blanks; skip those behind it as well. */
  function Padded<T>(m: Match<T>): (p: Match<T>)
    ensures p.Match? ==> m.Match? && |p.rest| <= |m.rest|
  {
    if m.Match? then Match(m.value, Skip(m.rest)) else m
  }

  /** An optional element: without a match nothing is consumed. */
  function Optional<T>(m: Match<T>, s: string): Match<Option<T>> {
    match m
    case NoMatch => Match(None, s)
    case Fatal => Fatal
    case Match(value, rest) => Match(Some(value), rest)
  }

  // ---------- Conditions, priorities and actions ----------

  /** `from` or `to` and the subnet that must follow. */
  function SubnetCommand(word: string, s: string): (m: Match<string>)
    ensures m.Match? ==> |m.rest| < |s|
  {
    match Keyword(word, s)
    case None => NoMatch
    case Some(rest) => Padded(Must(MavMask(Skip(rest))))
  }

  function SourceCommand(s: string): Match<string> {
    SubnetCommand("from", s)
  }

  function DestCommand(s: string): Match<string> {
    SubnetCommand("to", s)
  }

  function OptionalSource(s: string): (m: Match<Option<string>>)
    ensures m.Match? ==> |m.rest| <= |s|
  {
    Optional(Padded(SourceCommand(Skip(s))), s)
  }

  function OptionalDest(s: string): (m: Match<Option<string>>)
    ensures m.Match? ==> |m.rest| <= |s|
  {
    Optional(Padded(DestCommand(Skip(s))), s)
  }

  /** What may follow a packet type. */
  function AfterPacketType(packetType: string, s: string): (m: Match<ConditionNode>)
    ensures m.Match? ==> |m.rest| <= |s|
  {
    match OptionalSource(s)
    case Match(source, rest) => AfterSource(Some(packetType), source, rest)
    case _ => Fatal
  }

  function AfterSource(packetType: Option<string>, source: Option<string>, s: string): (m: Match<ConditionNode>)
    ensures m.Match? ==> |m.rest| <= |s|
  {
    match OptionalDest(s)
    case Match(dest, rest) => Match(ConditionNode(packetType, source, dest), rest)
    case _ => Fatal
  }

  function ConditionBody(s: string): (m: Match<ConditionNode>)
    ensures m.Match? ==> |m.rest| <= |s|
  {
    if TypeRun(s) > 0 then AfterPacketType(s[..TypeRun(s)], s[TypeRun(s)..]) else
      match SourceCommand(s)
      case Match(source, rest) => AfterSource(None, Some(source), rest)
      case Fatal => Fatal
      case NoMatch =>
        match DestCommand(s)
        case Match(dest, rest) => Match(ConditionNode(None, None, Some(dest)), rest)
        case Fatal => Fatal
        case NoMatch => NoMatch
  }

  function Condition(s: string): (m: Match<ConditionNode>)
    ensures m.Match? ==> |m.rest| < |s|
  {
    match Keyword("if", s)
    case None => NoMatch
    case Some(rest) => Must(Padded(ConditionBody(Skip(rest))))
  }

  function PriorityCommand(s: string): (m: Match<string>)
    ensures m.Match? ==> |m.rest| < |s|
  {
    match Keyword("with", s)
    case None => NoMatch
    case Some(rest) =>
      match Keyword("priority", Skip(rest))
      case None => Fatal
      case Some(number) => Padded(Must(SignedInteger(Skip(Skip(number)))))
  }

  function Action(s: string): (m: Match<ActionNode>)
    ensures m.Match? ==> |m.rest| < |s|
  {
    if "accept" <= s then Match(AcceptNode, s[6..])
    else if "reject" <= s then Match(RejectNode, s[6..])
    else if "call" <= s then
      match Padded(Must(Identifier(Skip(s[4..]))))
      case Match(name, rest) => Match(CallNode(name), rest)
      case _ => Fatal
    else if "goto" <= s then
      match Padded(Must(Identifier(Skip(s[4..]))))
      case Match(name, rest) => Match(GoToNode(name), rest)
      case _ => Fatal
    else NoMatch
  }

  // ---------- Rules and chains ----------

  function OptionalPriority(s: string): (m: Match<Option<string>>)
    ensures m.Match? ==> |m.rest| <= |s|
  {
    Optional(Padded(PriorityCommand(Skip(s))), s)
  }

  function OptionalCondition(s: string): (m: Match<Option<ConditionNode>>)
    ensures m.Match? ==> |m.rest| <= |s|
  {
    Optional(Padded(Condition(Skip(s))), s)
  }

  /** What follows the action of a rule, up to its semicolon. */
  function RuleTail(action: ActionNode, s: string): (m: Match<RuleNode>)
    ensures m.Match? ==> |m.rest| < |s|
  {
    match OptionalPriority(s)
    case Match(priority, afterPriority) => (
      match OptionalCondition(afterPriority)
      case Match(condition, rest) =>
        if rest != [] && rest[0] == ';' then Match(RuleNode(action, priority, condition), rest[1..]) else Fatal
      case _ => Fatal)
    case _ => Fatal
  }

  /** An action that is none of the four but starts like a name is an error at once. */
  function Rule(s: string): (m: Match<RuleNode>)
    ensures m.Match? ==> |m.rest| < |s|
  {
    match Action(s)
    case Match(action, rest) => RuleTail(action, rest)
    case Fatal => Fatal
    case NoMatch => if Identifier(s).Match? then Fatal else NoMatch
  }

  function Rules(s: string): (m: Match<seq<RuleNode>>)
    ensures m.Match? ==> |m.rest| <= |s|
    ensures !m.NoMatch?
    decreases |s|
  {
    match Padded(Rule(Skip(s)))
    case NoMatch => Match([], s)
    case Fatal => Fatal
    case Match(rule, rest) =>
      match Rules(rest)
      case Match(rules, end) => Match([rule] + rules, end)
      case _ => Fatal
  }

  function OneChar(c: char, s: string): Match<()> {
    if s != [] && s[0] == c then Match((), s[1..]) else NoMatch
  }

  /** A named block of rules. */
  function Chain(s: string): Match<ChainNode> {
    match Keyword("chain", s)
    case None => NoMatch
    case Some(afterKeyword) =>
      match Padded(Must(Identifier(Skip(afterKeyword))))
      case NoMatch => NoMatch
      case Fatal => Fatal
      case Match(name, afterName) =>
        match Padded(Must(OneChar('{', Skip(afterName))))
        case NoMatch => NoMatch
        case Fatal => Fatal
        case Match(_, body) =>
          match Rules(body)
          case NoMatch => NoMatch
          case Fatal => Fatal
          case Match(rules, afterRules) =>
            match Padded(Must(OneChar('}', Skip(afterRules))))
            case NoMatch => NoMatch
            case Fatal => Fatal
            case Match(_, rest) => Match(ChainNode(name, rules), rest)
  }
}
