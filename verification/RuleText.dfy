/** Chains as they are printed, and the proof that the configuration grammar reads them back. */
module RuleText {
  import opened Wrappers
  import opened Text
  import opened Subnets
  import opened SubnetText
  import opened PacketOrder
  import opened RuleGrammar
  import opened Translation
  import Rules

  // ---------- Printing: each piece is written in front of what follows it ----------

  /** The name of a message; the IDs of conditions are checked when they are set. */
  function NameOf(names: Names, id: nat): string {
    if id in names then names[id] else ""
  }

  function PrintSource(source: Option<Subnet>, s: string): string {
    if source.None? then s else " " + ("from" + (" " + (PrintSubnet(source.value) + s)))
  }

  function PrintDest(dest: Option<Subnet>, s: string): string {
    if dest.None? then s else " " + ("to" + (" " + (PrintSubnet(dest.value) + s)))
  }

  function PrintType(id: Option<nat>, names: Names, s: string): string {
    if id.None? then s else " " + (NameOf(names, id.value) + s)
  }

  /** What stands behind the `if` of a condition that is not empty. */
  function PrintBody(cond: Rules.If, names: Names, s: string): string {
    PrintType(cond.id, names, PrintSource(cond.source, PrintDest(cond.dest, s)))
  }

  function PrintCondition(condition: Option<Rules.If>, names: Names, s: string): string {
    match condition
    case None => s
    case Some(cond) => " " + ("if" + if IsEmpty(cond) then " " + ("any" + s) else PrintBody(cond, names, s))
  }

  function PrintPriority(priority: Option<Int32>, s: string): string {
    if priority.None? then s else " " + ("with" + (" " + ("priority" + (" " + (Signed(priority.value) + s)))))
  }

  function PrintAction(rule: Rules.Rule, s: string): string {
    match rule
    case Accept(_, _) => "accept" + s
    case Reject(_) => "reject" + s
    case Call(target, _, _) => "call" + (" " + (target + s))
    case GoTo(target, _, _) => "goto" + (" " + (target + s))
  }

  function PriorityOf(rule: Rules.Rule): Option<Int32> {
    if rule.Reject? then None else rule.priority
  }

  function PrintTail(rule: Rules.Rule, names: Names, s: string): string {
    PrintPriority(PriorityOf(rule), PrintCondition(rule.condition, names, ";" + s))
  }

  function PrintRule(rule: Rules.Rule, names: Names, s: string): string {
    PrintAction(rule, PrintTail(rule, names, s))
  }

  function PrintRules(rules: seq<Rules.Rule>, names: Names, s: string): string {
    if rules == [] then s else
      " " + (" " + (" " + (" " + PrintRule(rules[0], names, "\n" + PrintRules(rules[1..], names, s)))))
  }

  function PrintChain(name: string, rules: seq<Rules.Rule>, names: Names, s: string): string {
    "chain" + (" " + (name + (" " + ("{" + ("\n" + PrintRules(rules, names, "}" + s))))))
  }

  // ---------- What can be printed and read back ----------

  predicate IsIdentifier(s: string) {
    s != [] && IsNameStart(s[0]) && forall i :: 0 <= i < |s| ==> IsNameChar(s[i])
  }

  predicate IsTypeName(s: string) {
    s != [] && forall i :: 0 <= i < |s| ==> IsTypeChar(s[i])
  }

  predicate GoodNames(names: Names) {
    OneToOne(names) && forall id :: id in names ==> IsTypeName(names[id])
  }

  predicate IsEmpty(cond: Rules.If) {
    cond.id.None? && cond.source.None? && cond.dest.None?
  }

  /** Conditions name messages of the table, and chains have names that are identifiers. */
  predicate Printable(rule: Rules.Rule, names: Names) {
    && (rule.condition.Some? && rule.condition.value.id.Some? ==> rule.condition.value.id.value in names)
    && (rule.Call? || rule.GoTo? ==> IsIdentifier(rule.target))
  }

  /** A call or goto that no rule of a configuration can be: to the default chain, or to no chain. */
  predicate HasBadTarget(rule: Rules.Rule, chains: set<string>) {
    (rule.Call? || rule.GoTo?) && (rule.target == "default" || rule.target !in chains)
  }

  predicate HasEmptyCondition(rule: Rules.Rule) {
    rule.condition.Some? && IsEmpty(rule.condition.value)
  }

  // ---------- Tokens in front of other text ----------

  /** Text that no token before it can run into, and that is not skipped. */
  predicate Solid(s: string) {
    s != [] && !IsSpace(s[0]) && s[0] != '#'
  }

  lemma SkipSpace(s: string)
    ensures Skip(" " + s) == Skip(s) && Skip("\n" + s) == Skip(s)
  {
    assert (" " + s)[1..] == s && ("\n" + s)[1..] == s;
  }

  lemma SkipSolid(s: string)
    requires Solid(s)
    ensures Skip(s) == s
  {}

  lemma {:induction false} SkipTwice(s: string)
    ensures Skip(Skip(s)) == Skip(s)
    decreases |s|
  {
    if s != [] {
      if IsSpace(s[0]) { SkipTwice(s[1..]); } else if s[0] == '#' { SkipTwice(SkipComment(s[1..])); }
    }
  }

  lemma KeywordMatches(word: string, s: string)
    ensures Keyword(word, word + s) == Some(s)
  {
    assert (word + s)[|word|..] == s;
  }

  lemma TokenMatches(token: string, s: string)
    requires token != []
    ensures Token(token + s, |token|) == Match(token, s)
  {
    assert (token + s)[..|token|] == token && (token + s)[|token|..] == s;
  }

  lemma {:induction false} NameRunStops(name: string, s: string)
    requires forall i :: 0 <= i < |name| ==> IsNameChar(name[i])
    requires s != [] ==> !IsNameChar(s[0])
    ensures NameRun(name + s) == |name|
  {
    if name == [] {
      assert name + s == s;
    } else {
      assert (name + s)[1..] == name[1..] + s;
      NameRunStops(name[1..], s);
    }
  }

  lemma {:induction false} TypeRunStops(name: string, s: string)
    requires forall i :: 0 <= i < |name| ==> IsTypeChar(name[i])
    requires s != [] ==> !IsTypeChar(s[0])
    ensures TypeRun(name + s) == |name|
  {
    if name == [] {
      assert name + s == s;
    } else {
      assert (name + s)[1..] == name[1..] + s;
      TypeRunStops(name[1..], s);
    }
  }

  lemma IdentifierMatches(name: string, s: string)
    requires IsIdentifier(name) && (s != [] ==> !IsNameChar(s[0]))
    ensures Identifier(name + s) == Match(name, s)
  {
    NameRunStops(name, s);
    TokenMatches(name, s);
    assert (name + s)[0] == name[0];
  }

  lemma SignedReadBack(n: int)
    ensures ReadInt(Signed(n)) == n
  {
    var digits := Digits(if n < 0 then -n else n);
    DigitRunStops(digits, []);
    assert digits + [] == digits && digits[..|digits|] == digits;
    DigitsReadBack(if n < 0 then -n else n);
    assert n < 0 ==> Signed(n)[1..] == digits;
  }

  lemma SignedMatches(n: int, s: string)
    requires EndsDigits(s)
    ensures SignedInteger(Signed(n) + s) == Match(Signed(n), s)
  {
    var digits := Digits(if n < 0 then -n else n);
    var text := Signed(n) + s;
    assert text[if n < 0 then 1 else 0..] == digits + s;
    assert n >= 0 ==> text[0] == digits[0] && IsDigit(text[0]);
    DigitRunStops(digits, s);
    TokenMatches(Signed(n), s);
  }

  /** Text that does not continue a subnet. */
  predicate EndsSubnet(s: string) {
    EndsDigits(s) && (s != [] ==> s[0] != '.' && s[0] != ':' && s[0] != '/' && s[0] != '\\')
  }

  lemma DotSplits(first: string, second: string, s: string)
    ensures var text := first + "." + second + s;
            && text == first + ("." + second + s)
            && text[|first|] == '.' && text[|first| + 1..] == second + s
  {}

  lemma AddressRunStops(a: Address, s: string)
    requires EndsDigits(s)
    ensures AddressRun(PrintAddress(a) + s) == |PrintAddress(a)|
  {
    var system, component := Digits(System(a)), Digits(Component(a));
    var text := PrintAddress(a) + s;
    DotSplits(system, component, s);
    assert DigitRun(text) == |system| by { DigitRunStops(system, "." + component + s); }
    assert DigitRun(text[|system| + 1..]) == |component| by { DigitRunStops(component, s); }
  }

  /** A text that is an address, a mask sign, a mask and something else. */
  ghost predicate IsMasked(text: string, p: string, sign: char, mask: string, s: string) {
    && text == p + ([sign] + mask + s)
    && |text| > |p| && text[|p|] == sign && text[|p| + 1..] == mask + s
    && text[..|p| + 1 + |mask|] == p + [sign] + mask && text[|p| + 1 + |mask|..] == s
  }

  lemma MaskText(p: string, sign: char, mask: string, s: string)
    ensures IsMasked(p + [sign] + mask + s, p, sign, mask, s)
  {
    var text := p + [sign] + mask + s;
    assert text[..|p| + 1 + |mask|] == p + [sign] + mask && text[|p| + 1 + |mask|..] == s;
  }

  lemma MaskMatches(text: string, n: nat, behind: string, mask: nat, matched: string, s: string)
    requires n == AddressRun(text) && 0 < n && n + 1 + mask <= |text| && text[n + 1..] == behind
    requires text[n] == '/' || text[n] == '\\' || text[n] == ':'
    requires 0 < mask == if text[n] == ':' then AddressRun(behind) else DigitRun(behind)
    requires text[..n + 1 + mask] == matched && text[n + 1 + mask..] == s
    ensures MavMask(text) == Match(matched, s)
  {}

  lemma MaskedMatches(a: Address, sign: char, mask: string, s: string)
    requires sign == '/' || sign == '\\' || sign == ':'
    requires mask != [] && |mask| == if sign == ':' then AddressRun(mask + s) else DigitRun(mask + s)
    ensures MavMask(PrintAddress(a) + [sign] + mask + s) == Match(PrintAddress(a) + [sign] + mask, s)
  {
    var p := PrintAddress(a);
    var text := p + [sign] + mask + s;
    MaskText(p, sign, mask, s);
    assert AddressRun(text) == |p| by { AddressRunStops(a, [sign] + mask + s); }
    MaskMatches(text, |p|, mask + s, |mask|, p + [sign] + mask, s);
  }

  lemma BitsMatch(a: Address, sign: char, n: nat, s: string)
    requires (sign == '/' || sign == '\\') && EndsSubnet(s)
    ensures MavMask(PrintAddress(a) + [sign] + Digits(n) + s) == Match(PrintAddress(a) + [sign] + Digits(n), s)
  {
    MaskedMatches(a, sign, Digits(n), s) by {
      DigitRunStops(Digits(n), s);
    }
  }

  lemma FullMaskMatches(a: Address, mask: Address, s: string)
    requires EndsSubnet(s)
    ensures MavMask(PrintAddress(a) + [':'] + PrintAddress(mask) + s)
         == Match(PrintAddress(a) + [':'] + PrintAddress(mask), s)
  {
    MaskedMatches(a, ':', PrintAddress(mask), s) by {
      AddressRunStops(mask, s);
    }
  }

  lemma SubnetMatches(subnet: Subnet, s: string)
    requires EndsSubnet(s)
    ensures MavMask(PrintSubnet(subnet) + s) == Match(PrintSubnet(subnet), s)
  {
    var p := PrintAddress(subnet.address);
    if subnet.mask == 0xFFFF {
      AddressRunStops(subnet.address, s);
      TokenMatches(p, s);
      assert s != [] ==> (p + s)[|p|] == s[0];
    } else if subnet.mask in SLASH_MASKS {
      BitsMatch(subnet.address, '/', IndexOf(SLASH_MASKS, subnet.mask), s);
    } else if subnet.mask in BACKSLASH_MASKS {
      BitsMatch(subnet.address, '\\', IndexOf(BACKSLASH_MASKS, subnet.mask), s);
    } else {
      FullMaskMatches(subnet.address, subnet.mask, s);
    }
  }

  // ---------- The nodes a printed rule is read as ----------

  function SubnetTextOf(subnet: Option<Subnet>): Option<string> {
    if subnet.None? then None else Some(PrintSubnet(subnet.value))
  }

  function ConditionNodeOf(cond: Rules.If, names: Names): ConditionNode {
    ConditionNode(
      if cond.id.None? then None else Some(NameOf(names, cond.id.value)),
      SubnetTextOf(cond.source),
      SubnetTextOf(cond.dest))
  }

  function ActionNodeOf(rule: Rules.Rule): ActionNode {
    match rule
    case Accept(_, _) => AcceptNode
    case Reject(_) => RejectNode
    case Call(target, _, _) => CallNode(target)
    case GoTo(target, _, _) => GoToNode(target)
  }

  function RuleNodeOf(rule: Rules.Rule, names: Names): RuleNode {
    RuleNode(
      ActionNodeOf(rule),
      if PriorityOf(rule).None? then None else Some(Signed(PriorityOf(rule).value)),
      if rule.condition.None? then None else Some(ConditionNodeOf(rule.condition.value, names)))
  }

  function RuleNodesOf(rules: seq<Rules.Rule>, names: Names): seq<RuleNode> {
    if rules == [] then [] else [RuleNodeOf(rules[0], names)] + RuleNodesOf(rules[1..], names)
  }

  // ---------- Reading conditions ----------

  /** The parser is in front of `text`, or behind the blanks at its start. */
  predicate At(s: string, text: string) {
    s == text || s == Skip(text)
  }

  lemma AtSkips(s: string, text: string)
    requires At(s, text)
    ensures Skip(s) == Skip(text)
  {
    SkipTwice(text);
  }

  /** Text that ends any token: the printer puts a blank or a semicolon there. */
  predicate Ends(s: string) {
    s != [] && (s[0] == ' ' || s[0] == ';')
  }

  lemma BlankBefore(word: string, s: string)
    requires word != [] && Solid(word)
    ensures Skip(" " + (word + s)) == word + s
  {
    SkipSpace(word + s);
    SkipSolid(word + s);
  }

  lemma KeywordDiffers(word: string, s: string)
    requires word != [] && s != [] && s[0] != word[0]
    ensures Keyword(word, s).None?
  {}

  lemma SubnetCommandMatches(word: string, subnet: Subnet, s: string)
    requires Ends(s)
    ensures SubnetCommand(word, word + (" " + (PrintSubnet(subnet) + s))) == Match(PrintSubnet(subnet), Skip(s))
  {
    KeywordMatches(word, " " + (PrintSubnet(subnet) + s));
    BlankBefore(PrintSubnet(subnet), s);
    SubnetMatches(subnet, s);
  }

  lemma SourceParsed(x: string, source: Option<Subnet>, s: string)
    requires At(x, PrintSource(source, s)) && Ends(s)
    requires Skip(s) != [] && Skip(s)[0] != 'f'
    ensures OptionalSource(x).Match? && OptionalSource(x).value == SubnetTextOf(source) && At(OptionalSource(x).rest, s)
  {
    AtSkips(x, PrintSource(source, s));
    if source.None? {
      KeywordDiffers("from", Skip(x));
    } else {
      BlankBefore("from", " " + (PrintSubnet(source.value) + s));
      SubnetCommandMatches("from", source.value, s);
      SkipTwice(s);
    }
  }

  lemma DestParsed(x: string, dest: Option<Subnet>, s: string)
    requires At(x, PrintDest(dest, s)) && s != [] && s[0] == ';'
    ensures OptionalDest(x) == Match(SubnetTextOf(dest), s)
  {
    AtSkips(x, PrintDest(dest, s));
    SkipSolid(s);
    if dest.None? {
      KeywordDiffers("to", Skip(x));
    } else {
      BlankBefore("to", " " + (PrintSubnet(dest.value) + s));
      SubnetCommandMatches("to", dest.value, s);
    }
  }

  lemma DestEnds(dest: Option<Subnet>, s: string)
    requires s != [] && s[0] == ';'
    ensures var text := PrintDest(dest, s);
            Ends(text) && Skip(text) != [] && Skip(text)[0] == if dest.None? then ';' else 't'
  {
    if dest.None? {
      SkipSolid(s);
    } else {
      BlankBefore("to", " " + (PrintSubnet(dest.value) + s));
    }
  }

  /** From the source on. */
  lemma AfterPacketTypeParsed(name: string, x: string, cond: Rules.If, s: string)
    requires At(x, PrintSource(cond.source, PrintDest(cond.dest, s))) && s != [] && s[0] == ';'
    ensures AfterPacketType(name, x)
         == Match(ConditionNode(Some(name), SubnetTextOf(cond.source), SubnetTextOf(cond.dest)), s)
  {
    DestEnds(cond.dest, s);
    SourceParsed(x, cond.source, PrintDest(cond.dest, s));
    DestParsed(OptionalSource(x).rest, cond.dest, s);
  }

  lemma TypeBodyParsed(cond: Rules.If, names: Names, s: string)
    requires GoodNames(names) && cond.id.Some? && cond.id.value in names && s != [] && s[0] == ';'
    ensures ConditionBody(Skip(PrintBody(cond, names, s))) == Match(ConditionNodeOf(cond, names), s)
  {
    var name := names[cond.id.value];
    var t := PrintSource(cond.source, PrintDest(cond.dest, s));
    DestEnds(cond.dest, s);
    BlankBefore(name, t);
    TypeRunStops(name, t);
    assert (name + t)[..|name|] == name && (name + t)[|name|..] == t;
    AfterPacketTypeParsed(name, t, cond, s);
  }

  lemma NoType(s: string)
    requires s != [] && !IsTypeChar(s[0])
    ensures TypeRun(s) == 0
  {}

  lemma SourceBodyParsed(cond: Rules.If, names: Names, s: string)
    requires cond.id.None? && cond.source.Some? && s != [] && s[0] == ';'
    ensures ConditionBody(Skip(PrintBody(cond, names, s))) == Match(ConditionNodeOf(cond, names), s)
  {
    var t := PrintDest(cond.dest, s);
    DestEnds(cond.dest, s);
    BlankBefore("from", " " + (PrintSubnet(cond.source.value) + t));
    NoType(Skip(PrintBody(cond, names, s)));
    SubnetCommandMatches("from", cond.source.value, t);
    DestParsed(Skip(t), cond.dest, s);
  }

  lemma DestBodyParsed(cond: Rules.If, names: Names, s: string)
    requires cond.id.None? && cond.source.None? && cond.dest.Some? && s != [] && s[0] == ';'
    ensures ConditionBody(Skip(PrintBody(cond, names, s))) == Match(ConditionNodeOf(cond, names), s)
  {
    BlankBefore("to", " " + (PrintSubnet(cond.dest.value) + s));
    var x := Skip(PrintBody(cond, names, s));
    NoType(x);
    KeywordDiffers("from", x);
    SubnetCommandMatches("to", cond.dest.value, s);
    SkipSolid(s);
  }

  /** `any` is no packet type, `from` or `to`. */
  lemma AnyIsNoBody(s: string)
    ensures ConditionBody(Skip(" " + ("any" + s))).NoMatch?
  {
    BlankBefore("any", s);
    NoType("any" + s);
    KeywordDiffers("from", "any" + s);
    KeywordDiffers("to", "any" + s);
  }

  lemma BodyParsed(cond: Rules.If, names: Names, s: string)
    requires GoodNames(names) && (cond.id.Some? ==> cond.id.value in names) && !IsEmpty(cond)
    requires s != [] && s[0] == ';'
    ensures ConditionBody(Skip(PrintBody(cond, names, s))) == Match(ConditionNodeOf(cond, names), s)
  {
    if cond.id.Some? {
      TypeBodyParsed(cond, names, s);
    } else if cond.source.Some? {
      SourceBodyParsed(cond, names, s);
    } else {
      DestBodyParsed(cond, names, s);
    }
  }

  lemma ConditionParsed(x: string, condition: Option<Rules.If>, names: Names, s: string)
    requires GoodNames(names) && (condition.Some? && condition.value.id.Some? ==> condition.value.id.value in names)
    requires At(x, PrintCondition(condition, names, s)) && s != [] && s[0] == ';'
    ensures OptionalCondition(x)
         == if condition.None? then Match(None, s)
            else if IsEmpty(condition.value) then Fatal
            else Match(Some(ConditionNodeOf(condition.value, names)), s)
  {
    AtSkips(x, PrintCondition(condition, names, s));
    SkipSolid(s);
    match condition
    case None => KeywordDiffers("if", s);
    case Some(cond) =>
      var t := if IsEmpty(cond) then " " + ("any" + s) else PrintBody(cond, names, s);
      BlankBefore("if", t);
      KeywordMatches("if", t);
      if IsEmpty(cond) { AnyIsNoBody(s); } else { BodyParsed(cond, names, s); }
  }

  // ---------- Reading priorities, rules and chains ----------

  lemma ConditionEnds(condition: Option<Rules.If>, names: Names, s: string)
    requires s != [] && s[0] == ';'
    ensures var text := PrintCondition(condition, names, s);
            Ends(text) && Skip(text) != [] && Skip(text)[0] != 'w'
  {
    match condition
    case None => SkipSolid(s);
    case Some(cond) => BlankBefore("if", if IsEmpty(cond) then " " + ("any" + s) else PrintBody(cond, names, s));
  }

  lemma PriorityMatches(n: Int32, s: string)
    requires Ends(s)
    ensures PriorityCommand("with" + (" " + ("priority" + (" " + (Signed(n) + s))))) == Match(Signed(n), Skip(s))
  {
    var number := " " + (Signed(n) + s);
    KeywordMatches("with", " " + ("priority" + number));
    BlankBefore("priority", number);
    KeywordMatches("priority", number);
    BlankBefore(Signed(n), s);
    SkipTwice(number);
    SignedMatches(n, s);
  }

  lemma PriorityParsed(x: string, priority: Option<Int32>, s: string)
    requires At(x, PrintPriority(priority, s)) && Ends(s)
    requires Skip(s) != [] && Skip(s)[0] != 'w'
    ensures OptionalPriority(x).Match? && At(OptionalPriority(x).rest, s)
    ensures OptionalPriority(x).value == if priority.None? then None else Some(Signed(priority.value))
  {
    AtSkips(x, PrintPriority(priority, s));
    if priority.None? {
      KeywordDiffers("with", Skip(x));
    } else {
      BlankBefore("with", " " + ("priority" + (" " + (Signed(priority.value) + s))));
      PriorityMatches(priority.value, s);
      SkipTwice(s);
    }
  }

  lemma TailParsed(x: string, rule: Rules.Rule, names: Names, s: string)
    requires GoodNames(names) && Printable(rule, names) && At(x, PrintTail(rule, names, s))
    ensures RuleTail(ActionNodeOf(rule), x)
         == if HasEmptyCondition(rule) then Fatal else Match(RuleNodeOf(rule, names), s)
  {
    var end := ";" + s;
    assert end[1..] == s;
    var t := PrintCondition(rule.condition, names, end);
    ConditionEnds(rule.condition, names, end);
    PriorityParsed(x, PriorityOf(rule), t);
    ConditionParsed(OptionalPriority(x).rest, rule.condition, names, end);
  }

  lemma TargetParsed(target: string, s: string)
    requires IsIdentifier(target) && Ends(s)
    ensures Padded(Must(Identifier(Skip(" " + (target + s))))) == Match(target, Skip(s))
  {
    BlankBefore(target, s);
    IdentifierMatches(target, s);
  }

  lemma CallAction(t: string, target: string, rest: string)
    requires Padded(Must(Identifier(Skip(t)))) == Match(target, rest)
    ensures Action("call" + t) == Match(CallNode(target), rest)
  {
    assert ("call" + t)[4..] == t && ("call" + t)[0] == 'c';
  }

  lemma GoToAction(t: string, target: string, rest: string)
    requires Padded(Must(Identifier(Skip(t)))) == Match(target, rest)
    ensures Action("goto" + t) == Match(GoToNode(target), rest)
  {
    assert ("goto" + t)[4..] == t && ("goto" + t)[0] == 'g';
  }

  lemma VerdictParsed(s: string)
    ensures Action("accept" + s) == Match(AcceptNode, s) && Action("reject" + s) == Match(RejectNode, s)
  {
    assert ("accept" + s)[6..] == s;
    assert ("reject" + s)[6..] == s && ("reject" + s)[0] == 'r';
  }

  lemma ActionParsed(rule: Rules.Rule, names: Names, s: string)
    requires Printable(rule, names) && Ends(s)
    ensures Action(PrintAction(rule, s)).Match?
    ensures Action(PrintAction(rule, s)).value == ActionNodeOf(rule) && At(Action(PrintAction(rule, s)).rest, s)
  {
    match rule
    case Accept(_, _) => VerdictParsed(s);
    case Reject(_) => VerdictParsed(s);
    case Call(target, _, _) =>
      TargetParsed(target, s);
      CallAction(" " + (target + s), target, Skip(s));
    case GoTo(target, _, _) =>
      TargetParsed(target, s);
      GoToAction(" " + (target + s), target, Skip(s));
  }

  lemma RuleParsed(rule: Rules.Rule, names: Names, s: string)
    requires GoodNames(names) && Printable(rule, names)
    ensures Rule(PrintRule(rule, names, s))
         == if HasEmptyCondition(rule) then Fatal else Match(RuleNodeOf(rule, names), s)
  {
    var t := PrintTail(rule, names, s);
    ActionParsed(rule, names, t);
    TailParsed(Action(PrintAction(rule, t)).rest, rule, names, s);
  }

  lemma IndentedRule(rule: Rules.Rule, names: Names, s: string)
    ensures Skip(" " + (" " + (" " + (" " + PrintRule(rule, names, s))))) == PrintRule(rule, names, s)
  {
    var text := PrintRule(rule, names, s);
    assert Solid(text);
    SkipSpace(text);
    SkipSpace(" " + text);
    SkipSpace(" " + (" " + text));
    SkipSpace(" " + (" " + (" " + text)));
  }

  predicate AllPrintable(rules: seq<Rules.Rule>, names: Names) {
    forall i :: 0 <= i < |rules| ==> Printable(rules[i], names)
  }

  predicate SomeEmpty(rules: seq<Rules.Rule>) {
    exists i :: 0 <= i < |rules| && HasEmptyCondition(rules[i])
  }

  lemma SomeEmptyStep(rules: seq<Rules.Rule>)
    requires rules != []
    ensures SomeEmpty(rules) <==> HasEmptyCondition(rules[0]) || SomeEmpty(rules[1..])
  {
    if SomeEmpty(rules) {
      var i :| 0 <= i < |rules| && HasEmptyCondition(rules[i]);
      assert i > 0 ==> rules[1..][i - 1] == rules[i];
    }
    if SomeEmpty(rules[1..]) {
      var i :| 0 <= i < |rules[1..]| && HasEmptyCondition(rules[1..][i]);
      assert rules[i + 1] == rules[1..][i];
    }
  }

  lemma {:induction false} RulesParsed(x: string, rules: seq<Rules.Rule>, names: Names, s: string)
    requires GoodNames(names) && AllPrintable(rules, names)
    requires At(x, PrintRules(rules, names, "}" + s))
    ensures RuleGrammar.Rules(x) == if SomeEmpty(rules) then Fatal else Match(RuleNodesOf(rules, names), "}" + s)
    decreases |rules|
  {
    AtSkips(x, PrintRules(rules, names, "}" + s));
    if rules == [] {
      SkipSolid("}" + s);
    } else {
      var others := PrintRules(rules[1..], names, "}" + s);
      FirstRuleParsed(x, rules[0], names, others);
      if !HasEmptyCondition(rules[0]) {
        RulesParsed(Skip(others), rules[1..], names, s);
      }
      SomeEmptyStep(rules);
    }
  }

  lemma FirstRuleParsed(x: string, rule: Rules.Rule, names: Names, others: string)
    requires GoodNames(names) && Printable(rule, names)
    requires Skip(x) == Skip(" " + (" " + (" " + (" " + PrintRule(rule, names, "\n" + others)))))
    ensures Padded(Rule(Skip(x)))
         == if HasEmptyCondition(rule) then Fatal else Match(RuleNodeOf(rule, names), Skip(others))
  {
    IndentedRule(rule, names, "\n" + others);
    RuleParsed(rule, names, "\n" + others);
    SkipSpace(others);
  }

  lemma BlockParsed(rules: seq<Rules.Rule>, names: Names, s: string)
    ensures var block := "{" + ("\n" + PrintRules(rules, names, "}" + s));
            OneChar('{', block) == Match((), "\n" + PrintRules(rules, names, "}" + s)) && Solid(block)
    ensures OneChar('}', "}" + s) == Match((), s) && Solid("}" + s)
  {
    assert ("{" + ("\n" + PrintRules(rules, names, "}" + s)))[1..] == "\n" + PrintRules(rules, names, "}" + s);
    assert ("}" + s)[1..] == s;
  }

  lemma ChainParsed(name: string, rules: seq<Rules.Rule>, names: Names, s: string)
    requires IsIdentifier(name) && GoodNames(names) && AllPrintable(rules, names)
    ensures Chain(PrintChain(name, rules, names, s))
         == if SomeEmpty(rules) then Fatal else Match(ChainNode(name, RuleNodesOf(rules, names)), Skip(s))
  {
    var body := PrintRules(rules, names, "}" + s);
    var block := "{" + ("\n" + body);
    KeywordMatches("chain", " " + (name + (" " + block)));
    BlankBefore(name, " " + block);
    IdentifierMatches(name, " " + block);
    BlockParsed(rules, names, s);
    SkipSpace(block);
    SkipSolid(block);
    SkipSpace(body);
    RulesParsed(Skip(body), rules, names, s);
    SkipSolid("}" + s);
  }

  // ---------- From the nodes back to the rules ----------

  lemma ConditionRebuilt(cond: Rules.If, names: Names)
    requires GoodNames(names) && (cond.id.Some? ==> cond.id.value in names)
    ensures BuildCondition(ConditionNodeOf(cond, names), names) == Ok(cond)
  {
    if cond.source.Some? { SubnetRoundTrip(cond.source.value); }
    if cond.dest.Some? { SubnetRoundTrip(cond.dest.value); }
    if cond.id.Some? {
      assert names[cond.id.value] == NameOf(names, cond.id.value);
    }
  }

  /** A printed rule is built again as itself, or refused for its target. */
  lemma RuleRebuilt(rule: Rules.Rule, names: Names, chains: set<string>)
    requires GoodNames(names) && Printable(rule, names)
    ensures BuildRule(RuleNodeOf(rule, names), names, chains)
         == if !HasBadTarget(rule, chains) then Ok(rule)
            else Err(if rule.target == "default" then InvalidArgument else OutOfRange)
  {
    if PriorityOf(rule).Some? { SignedReadBack(PriorityOf(rule).value); }
    if rule.condition.Some? { ConditionRebuilt(rule.condition.value, names); }
  }

  predicate SomeBadTarget(rules: seq<Rules.Rule>, chains: set<string>) {
    exists i :: 0 <= i < |rules| && HasBadTarget(rules[i], chains)
  }

  lemma {:induction false} RulesRebuilt(rules: seq<Rules.Rule>, names: Names, chains: set<string>)
    requires GoodNames(names) && AllPrintable(rules, names)
    ensures if SomeBadTarget(rules, chains) then BuildRules(RuleNodesOf(rules, names), names, chains).Err?
            else BuildRules(RuleNodesOf(rules, names), names, chains) == Ok(rules)
  {
    if rules != [] {
      RuleRebuilt(rules[0], names, chains);
      RulesRebuilt(rules[1..], names, chains);
      var nodes := RuleNodesOf(rules, names);
      assert nodes[0] == RuleNodeOf(rules[0], names) && nodes[1..] == RuleNodesOf(rules[1..], names);
      assert rules == [rules[0]] + rules[1..];
    }
  }

  // ---------- The round trip ----------

  /** Reading a printed chain, with anything behind it, gives its name and its rules. */
  predicate ReadsBack(name: string, rules: seq<Rules.Rule>, names: Names, chains: set<string>, s: string)
    requires OneToOne(names)
  {
    match Chain(PrintChain(name, rules, names, s))
    case Match(node, rest) =>
      node.name == name && BuildRules(node.rules, names, chains) == Ok(rules) && rest == Skip(s)
    case _ => false
  }

  /** A printed chain is read back as the same chain exactly when none of its conditions is empty, since an
      empty condition is printed as `if any`, which the grammar rejects, and all its calls and gotos go to
      chains there are, other than the default chain. */
  lemma ChainRoundTripIff(name: string, rules: seq<Rules.Rule>, names: Names, chains: set<string>, s: string)
    requires IsIdentifier(name) && GoodNames(names) && AllPrintable(rules, names)
    ensures ReadsBack(name, rules, names, chains, s)
       <==> forall i :: 0 <= i < |rules| ==> !HasEmptyCondition(rules[i]) && !HasBadTarget(rules[i], chains)
    ensures Chain(PrintChain(name, rules, names, s)) == Fatal
       <==> exists i :: 0 <= i < |rules| && HasEmptyCondition(rules[i])
  {
    ChainParsed(name, rules, names, s);
    RulesRebuilt(rules, names, chains);
  }

  const ANY := Rules.Accept(None, Some(Rules.If(None, None, None)))

  lemma PrintedAny(names: Names, end: string)
    ensures PrintRules([ANY], names, end) == "    accept if any;\n" + end
  {
    var line := "\n" + end;
    assert PrintCondition(ANY.condition, names, ";" + line) == " if any;" + line;
    assert PrintRule(ANY, names, line) == "accept" + (" if any;" + line);
    assert "accept" + (" if any;" + line) == "accept if any;" + line;
    assert [ANY][1..] == [];
  }

  lemma PrintedHead(body: string)
    ensures "chain" + (" " + ("default" + (" " + ("{" + ("\n" + body))))) == "chain default {\n" + body
  {
    assert "chain" + (" " + ("default" + (" " + "{"))) == "chain default {";
  }

  /** `accept if any;`, for example. */
  lemma EmptyConditionIsNotReadBack(names: Names, s: string)
    requires GoodNames(names)
    ensures Chain("chain default {\n" + ("    accept if any;\n" + ("}" + s))) == Fatal
  {
    PrintedAny(names, "}" + s);
    PrintedHead("    accept if any;\n" + ("}" + s));
    assert HasEmptyCondition([ANY][0]);
    ChainRoundTripIff("default", [ANY], names, {}, s);
  }
}
