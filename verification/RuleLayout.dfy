/** The layout of a configuration does not matter: where there is a blank, any other blanks and comments can
    stand, and the same chain is read. */
module RuleLayout {
  import opened Wrappers
  import opened Text
  import opened RuleGrammar

  // ---------- Blanks and comments, as text ----------

  /** A blank, or one of the control characters from the tab to the carriage return. */
  predicate IsBlank(c: char) {
    c == ' ' || 9 <= c as int <= 13
  }

  /** The text of a comment and the end of its line. */
  predicate IsCommentLine(s: string) {
    && |s| >= 2 && s[0] == '#' && s[|s| - 1] == '\n'
    && forall i :: 0 <= i < |s| - 1 ==> s[i] != '\n'
  }

  /** Blanks and whole lines of comment. */
  ghost predicate IsGap(g: string)
    decreases |g|
  {
    || g == []
    || (IsBlank(g[0]) && IsGap(g[1..]))
    || exists n: nat :: n <= |g| && IsCommentLine(g[..n]) && IsGap(g[n..])
  }

  /** A gap that ends any token before it. */
  ghost predicate IsBreak(g: string) {
    g != [] && IsBlank(g[0]) && IsGap(g)
  }

  /** No comment is open at the end of the text. */
  predicate Outside(a: string) {
    forall i :: 0 <= i < |a| && a[i] == '#' ==> '\n' in a[i..]
  }

  lemma OutsideBehind(a: string, n: nat)
    requires Outside(a) && n <= |a|
    ensures Outside(a[n..])
  {
    forall i | 0 <= i < |a[n..]| && a[n..][i] == '#' ensures '\n' in a[n..][i..] {
      assert a[n..][i..] == a[n + i..];
    }
  }

  /** A comment that ends within `a` is skipped up to there. */
  lemma {:induction false} CommentEndsWithin(a: string, x: string) returns (n: nat)
    requires '\n' in a
    ensures n <= |a| && SkipComment(a + x) == a[n..] + x
  {
    if AtEndOfLine(a) {
      n := 0;
    } else {
      assert (a + x)[1..] == a[1..] + x;
      assert !AtEndOfLine(a + x);
      n := CommentEndsWithin(a[1..], x);
      n := n + 1;
    }
  }

  lemma CommentLineSkipped(line: string, b: string)
    requires IsCommentLine(line)
    ensures Skip(line + b) == Skip(b)
  {
    var s := line + b;
    LineSkipped(line[1..], b);
    assert s[1..] == line[1..] + b;
  }

  /** Behind its `#` a comment is skipped up to the end of its line, which is blank. */
  lemma {:induction false} LineSkipped(line: string, b: string)
    requires line != [] && line[|line| - 1] == '\n' && forall i :: 0 <= i < |line| - 1 ==> line[i] != '\n'
    ensures Skip(SkipComment(line + b)) == Skip(b)
  {
    var s := line + b;
    if |line| == 1 {
      assert s[1..] == b;
    } else if AtEndOfLine(s) {
      assert s[1..][1..] == b;
    } else {
      assert s[1..] == line[1..] + b;
      LineSkipped(line[1..], b);
    }
  }

  lemma BlankSkipped(g: string, b: string)
    requires g != [] && IsBlank(g[0])
    ensures Skip(g + b) == Skip(g[1..] + b)
  {
    assert (g + b)[1..] == g[1..] + b;
  }

  /** Gaps are skipped. */
  lemma {:induction false} GapSkipped(g: string, b: string)
    requires IsGap(g)
    ensures Skip(g + b) == Skip(b)
    decreases |g|
  {
    if g == [] {
      assert g + b == b;
    } else if IsBlank(g[0]) && IsGap(g[1..]) {
      BlankSkipped(g, b);
      GapSkipped(g[1..], b);
    } else {
      var n: nat :| n <= |g| && IsCommentLine(g[..n]) && IsGap(g[n..]);
      assert g + b == g[..n] + (g[n..] + b);
      CommentLineSkipped(g[..n], g[n..] + b);
      GapSkipped(g[n..], b);
    }
  }

  // ---------- Texts that differ in one gap ----------

  ghost predicate Varies(s: string, t: string, a: string, g: string, h: string, b: string) {
    s == a + (g + b) && t == a + (h + b) && Outside(a) && IsBreak(g) && IsBreak(h)
  }

  ghost predicate Alike(s: string, t: string) {
    s == t || exists a, g, h, b :: Varies(s, t, a, g, h, b)
  }

  lemma HeadsAlike(s: string, t: string)
    requires Alike(s, t)
    ensures s == [] <==> t == []
    ensures s != [] ==> s[0] == t[0] || (IsSpace(s[0]) && IsSpace(t[0]))
  {}

  /** The texts agree up to `n` and are alike from there. */
  ghost predicate Cut(s: string, t: string, n: nat) {
    n <= |s| && n <= |t| && s[..n] == t[..n] && Alike(s[n..], t[n..])
  }

  lemma CutNone(s: string, t: string)
    requires Alike(s, t)
    ensures Cut(s, t, 0)
  {
    assert s[0..] == s && t[0..] == t;
  }

  /** The gap does not lie before the first character that is no blank. */
  lemma CutOne(s: string, t: string)
    requires Alike(s, t) && s != [] && !IsSpace(s[0])
    ensures t != [] && s[0] == t[0] && Alike(s[1..], t[1..])
  {
    if s != t {
      var a, g, h, b :| Varies(s, t, a, g, h, b);
      assert a != [];
      OutsideBehind(a, 1);
      assert s[1..] == a[1..] + (g + b) && t[1..] == a[1..] + (h + b);
      assert Varies(s[1..], t[1..], a[1..], g, h, b);
    }
  }

  lemma CutFurther(s: string, t: string, n: nat, k: nat)
    requires Cut(s, t, n) && Cut(s[n..], t[n..], k)
    ensures Cut(s, t, n + k)
  {
    assert s[..n + k] == s[..n] + s[n..][..k] && t[..n + k] == t[..n] + t[n..][..k];
    assert s[n..][k..] == s[n + k..] && t[n..][k..] == t[n + k..];
  }

  lemma CutStep(s: string, t: string, n: nat)
    requires Alike(s, t) && s != [] && !IsSpace(s[0]) && t != [] && Cut(s[1..], t[1..], n)
    ensures Cut(s, t, 1 + n)
  {
    CutOne(s, t);
    assert s[..1] == t[..1];
    CutFurther(s, t, 1, n);
  }

  /** Skipping blanks and comments stops at the same place, or before the gap in both texts. */
  lemma {:induction false} SkipAlike(s: string, t: string)
    requires Alike(s, t)
    ensures Alike(Skip(s), Skip(t))
    decreases |s|
  {
    if s != t {
      var a, g, h, b :| Varies(s, t, a, g, h, b);
      if a == [] {
        GapSkipped(g, b);
        GapSkipped(h, b);
        assert s == g + b && t == h + b;
      } else if IsSpace(a[0]) {
        OutsideBehind(a, 1);
        assert s[1..] == a[1..] + (g + b) && t[1..] == a[1..] + (h + b);
        assert Varies(s[1..], t[1..], a[1..], g, h, b);
        SkipAlike(s[1..], t[1..]);
      } else if a[0] == '#' {
        SkipCommentAlike(s, t, a, g, h, b);
        SkipAlike(SkipComment(s[1..]), SkipComment(t[1..]));
      }
    }
  }

  lemma SkipCommentAlike(s: string, t: string, a: string, g: string, h: string, b: string)
    requires Varies(s, t, a, g, h, b) && a != [] && a[0] == '#'
    ensures Alike(SkipComment(s[1..]), SkipComment(t[1..]))
  {
    var inner := a[1..];
    assert a[0..] == a && '\n' in a && '\n' in inner;
    assert s[1..] == inner + (g + b) && t[1..] == inner + (h + b);
    var n := CommentEndsWithin(inner, g + b);
    var m := CommentEndsWithin(inner, h + b);
    CommentEndAgrees(inner, g + b, h + b, n, m);
    OutsideBehind(a, 1);
    OutsideBehind(inner, n);
    assert Varies(SkipComment(s[1..]), SkipComment(t[1..]), inner[n..], g, h, b);
  }

  lemma {:induction false} CommentEndAgrees(a: string, x: string, y: string, n: nat, m: nat)
    requires '\n' in a && n <= |a| && m <= |a|
    requires SkipComment(a + x) == a[n..] + x && SkipComment(a + y) == a[m..] + y
    ensures n == m
  {
    assert AtEndOfLine(a + x) <==> AtEndOfLine(a);
    assert AtEndOfLine(a + y) <==> AtEndOfLine(a);
    if AtEndOfLine(a) {
      assert |a + x| == |a[n..] + x| && |a + y| == |a[m..] + y|;
    } else {
      assert (a + x)[1..] == a[1..] + x && (a + y)[1..] == a[1..] + y;
      assert |SkipComment(a[1..] + x)| == |a| - n + |x| && |SkipComment(a[1..] + y)| == |a| - m + |y|;
      var k := CommentEndsWithin(a[1..], x);
      var l := CommentEndsWithin(a[1..], y);
      CommentEndAgrees(a[1..], x, y, k, l);
    }
  }

  // ---------- Tokens ----------

  lemma {:induction false} NameRunAlike(s: string, t: string)
    requires Alike(s, t)
    ensures NameRun(s) == NameRun(t) && Cut(s, t, NameRun(s))
  {
    HeadsAlike(s, t);
    if s != [] && IsNameChar(s[0]) {
      CutOne(s, t);
      NameRunAlike(s[1..], t[1..]);
      CutStep(s, t, NameRun(s[1..]));
    } else {
      CutNone(s, t);
    }
  }

  lemma {:induction false} TypeRunAlike(s: string, t: string)
    requires Alike(s, t)
    ensures TypeRun(s) == TypeRun(t) && Cut(s, t, TypeRun(s))
  {
    HeadsAlike(s, t);
    if s != [] && IsTypeChar(s[0]) {
      CutOne(s, t);
      TypeRunAlike(s[1..], t[1..]);
      CutStep(s, t, TypeRun(s[1..]));
    } else {
      CutNone(s, t);
    }
  }

  lemma {:induction false} DigitRunAlike(s: string, t: string)
    requires Alike(s, t)
    ensures DigitRun(s) == DigitRun(t) && Cut(s, t, DigitRun(s))
  {
    HeadsAlike(s, t);
    if s != [] && IsDigit(s[0]) {
      CutOne(s, t);
      DigitRunAlike(s[1..], t[1..]);
      CutStep(s, t, DigitRun(s[1..]));
    } else {
      CutNone(s, t);
    }
  }

  /** The same failure, or the same value with alike texts left. */
  ghost predicate SameMatch<T>(m: Match<T>, n: Match<T>) {
    match (m, n)
    case (NoMatch, NoMatch) => true
    case (Fatal, Fatal) => true
    case (Match(value, rest), Match(other, left)) => value == other && Alike(rest, left)
    case _ => false
  }

  lemma TokenAlike(s: string, t: string, n: nat)
    requires Cut(s, t, n)
    ensures SameMatch(Token(s, n), Token(t, n))
  {}

  lemma IdentifierAlike(s: string, t: string)
    requires Alike(s, t)
    ensures SameMatch(Identifier(s), Identifier(t))
  {
    HeadsAlike(s, t);
    NameRunAlike(s, t);
    CutNone(s, t);
    TokenAlike(s, t, if s != [] && IsNameStart(s[0]) then NameRun(s) else 0);
  }

  lemma CutAt(s: string, t: string, n: nat)
    requires Cut(s, t, n)
    ensures n == |s| <==> n == |t|
    ensures n < |s| ==> s[n] == t[n] || (IsSpace(s[n]) && IsSpace(t[n]))
  {
    HeadsAlike(s[n..], t[n..]);
    assert n < |s| ==> s[n..][0] == s[n];
    assert n < |t| ==> t[n..][0] == t[n];
  }

  /** One more character, and the texts behind it. */
  lemma CutBehind(s: string, t: string, n: nat)
    requires Cut(s, t, n) && n < |s| && n < |t| && !IsSpace(s[n])
    ensures Alike(s[n + 1..], t[n + 1..])
  {
    CutOne(s[n..], t[n..]);
    assert s[n..][1..] == s[n + 1..] && t[n..][1..] == t[n + 1..];
  }

  lemma CutOn(s: string, t: string, n: nat, k: nat)
    requires Cut(s, t, n) && n < |s| && n < |t| && !IsSpace(s[n]) && Cut(s[n + 1..], t[n + 1..], k)
    ensures Cut(s, t, n + 1 + k)
  {
    assert s[n..][1..] == s[n + 1..] && t[n..][1..] == t[n + 1..];
    CutStep(s[n..], t[n..], k);
    CutFurther(s, t, n, 1 + k);
  }

  lemma DigitsBehind(s: string, t: string, n: nat)
    requires Cut(s, t, n) && n < |s| && n < |t| && !IsSpace(s[n])
    ensures DigitRun(s[n + 1..]) == DigitRun(t[n + 1..]) && Cut(s, t, n + 1 + DigitRun(s[n + 1..]))
  {
    CutBehind(s, t, n);
    DigitRunAlike(s[n + 1..], t[n + 1..]);
    CutOn(s, t, n, DigitRun(s[n + 1..]));
  }

  lemma SignedIntegerAlike(s: string, t: string)
    requires Alike(s, t)
    ensures SameMatch(SignedInteger(s), SignedInteger(t))
  {
    HeadsAlike(s, t);
    CutNone(s, t);
    if s != [] && (s[0] == '+' || s[0] == '-') {
      DigitsBehind(s, t, 0);
      TokenAlike(s, t, 1 + DigitRun(s[1..]));
    } else {
      assert s[0..] == s && t[0..] == t;
      DigitRunAlike(s, t);
      TokenAlike(s, t, DigitRun(s));
    }
  }

  predicate HasDot(s: string) {
    0 < DigitRun(s) < |s| && s[DigitRun(s)] == '.'
  }

  lemma HasDotAlike(s: string, t: string)
    requires Alike(s, t)
    ensures HasDot(s) <==> HasDot(t)
  {
    DigitRunAlike(s, t);
    CutAt(s, t, DigitRun(s));
  }

  lemma AddressRunIs(s: string)
    ensures AddressRun(s)
         == if !HasDot(s) || DigitRun(s[DigitRun(s) + 1..]) == 0 then 0
            else DigitRun(s) + 1 + DigitRun(s[DigitRun(s) + 1..])
  {}

  lemma AddressRunAlike(s: string, t: string)
    requires Alike(s, t)
    ensures AddressRun(s) == AddressRun(t) && Cut(s, t, AddressRun(s))
  {
    AddressRunIs(s);
    AddressRunIs(t);
    CutNone(s, t);
    HasDotAlike(s, t);
    DigitRunAlike(s, t);
    if HasDot(s) { DigitsBehind(s, t, DigitRun(s)); }
  }

  lemma AddressBehind(s: string, t: string, n: nat)
    requires Cut(s, t, n) && n < |s| && n < |t| && !IsSpace(s[n])
    ensures AddressRun(s[n + 1..]) == AddressRun(t[n + 1..]) && Cut(s, t, n + 1 + AddressRun(s[n + 1..]))
  {
    CutBehind(s, t, n);
    AddressRunAlike(s[n + 1..], t[n + 1..]);
    CutOn(s, t, n, AddressRun(s[n + 1..]));
  }

  predicate HasMask(s: string) {
    0 < AddressRun(s) < |s| && (s[AddressRun(s)] == ':' || s[AddressRun(s)] == '/' || s[AddressRun(s)] == '\\')
  }

  function MaskRun(separator: char, s: string): (n: nat)
    ensures n <= |s|
  {
    if separator == ':' then AddressRun(s) else DigitRun(s)
  }

  /** Where the mask, if any, ends. */
  function MaskEnd(s: string): (n: nat)
    requires HasMask(s)
    ensures n <= |s|
  {
    var n := AddressRun(s);
    n + 1 + MaskRun(s[n], s[n + 1..])
  }

  lemma MaskBehind(s: string, t: string, n: nat)
    requires Cut(s, t, n) && n < |s| && n < |t| && !IsSpace(s[n])
    ensures MaskRun(s[n], s[n + 1..]) == MaskRun(s[n], t[n + 1..]) && Cut(s, t, n + 1 + MaskRun(s[n], s[n + 1..]))
  {
    if s[n] == ':' { AddressBehind(s, t, n); } else { DigitsBehind(s, t, n); }
  }

  lemma HasMaskAlike(s: string, t: string)
    requires Alike(s, t)
    ensures HasMask(s) <==> HasMask(t)
    ensures HasMask(s) ==> s[AddressRun(s)] == t[AddressRun(t)]
  {
    AddressRunAlike(s, t);
    CutAt(s, t, AddressRun(s));
  }

  lemma MaskEndIs(s: string, n: nat, c: char, rest: string)
    requires HasMask(s) && n == AddressRun(s) && c == s[n] && rest == s[n + 1..]
    ensures !IsSpace(c) && MaskEnd(s) == n + 1 + MaskRun(c, rest)
  {}

  lemma SeparatorAlike(s: string, t: string) returns (n: nat, c: char)
    requires Alike(s, t) && HasMask(s) && HasMask(t)
    ensures n == AddressRun(s) == AddressRun(t) && Cut(s, t, n)
    ensures n < |s| && n < |t| && c == s[n] == t[n]
  {
    n := AddressRun(s);
    AddressRunAlike(s, t);
    HasMaskAlike(s, t);
    c := s[n];
  }

  lemma MaskEndAlike(s: string, t: string)
    requires Alike(s, t) && HasMask(s) && HasMask(t)
    ensures MaskEnd(s) == MaskEnd(t) && Cut(s, t, MaskEnd(s))
  {
    var n, c := SeparatorAlike(s, t);
    var x, y := s[n + 1..], t[n + 1..];
    MaskEndIs(s, n, c, x);
    MaskEndIs(t, n, c, y);
    MaskBehind(s, t, n);
  }

  lemma MavMaskIs(s: string)
    ensures MavMask(s)
         == if !HasMask(s) then Token(s, AddressRun(s))
            else if MaskEnd(s) == AddressRun(s) + 1 then Fatal
            else Token(s, MaskEnd(s))
  {}

  lemma MavMaskAlike(s: string, t: string)
    requires Alike(s, t)
    ensures SameMatch(MavMask(s), MavMask(t))
  {
    MavMaskIs(s);
    MavMaskIs(t);
    AddressRunAlike(s, t);
    HasMaskAlike(s, t);
    if HasMask(s) {
      MaskEndAlike(s, t);
      TokenAlike(s, t, MaskEnd(s));
    } else {
      TokenAlike(s, t, AddressRun(s));
    }
  }

  predicate IsWord(word: string) {
    forall i :: 0 <= i < |word| ==> !IsSpace(word[i])
  }

  ghost predicate SameRest(x: Option<string>, y: Option<string>) {
    (x.None? && y.None?) || (x.Some? && y.Some? && Alike(x.value, y.value))
  }

  lemma {:induction false} WordAlike(word: string, s: string, t: string)
    requires IsWord(word) && Alike(s, t)
    ensures word <= s <==> word <= t
    ensures word <= s ==> Alike(s[|word|..], t[|word|..])
    ensures SameRest(Keyword(word, s), Keyword(word, t))
  {
    if word == [] {
      CutNone(s, t);
    } else {
      HeadsAlike(s, t);
      if s != [] && s[0] == word[0] {
        CutOne(s, t);
        WordAlike(word[1..], s[1..], t[1..]);
        assert word <= s <==> word[1..] <= s[1..];
        assert word <= t <==> word[1..] <= t[1..];
      }
    }
  }

  lemma PaddedAlike<T>(m: Match<T>, n: Match<T>)
    requires SameMatch(m, n)
    ensures SameMatch(Padded(m), Padded(n))
  {
    if m.Match? { SkipAlike(m.rest, n.rest); }
  }

  // ---------- Conditions, priorities and actions ----------

  lemma SubnetCommandAlike(word: string, s: string, t: string)
    requires IsWord(word) && Alike(s, t)
    ensures SameMatch(SubnetCommand(word, s), SubnetCommand(word, t))
  {
    WordAlike(word, s, t);
    if Keyword(word, s).Some? {
      var x, y := Keyword(word, s).value, Keyword(word, t).value;
      SkipAlike(x, y);
      MavMaskAlike(Skip(x), Skip(y));
      PaddedAlike(Must(MavMask(Skip(x))), Must(MavMask(Skip(y))));
    }
  }

  lemma OptionalAlike<T>(m: Match<T>, n: Match<T>, s: string, t: string)
    requires SameMatch(m, n) && Alike(s, t)
    ensures SameMatch(Optional(m, s), Optional(n, t))
  {}

  lemma OptionalSubnetsAlike(s: string, t: string)
    requires Alike(s, t)
    ensures SameMatch(OptionalSource(s), OptionalSource(t)) && SameMatch(OptionalDest(s), OptionalDest(t))
  {
    SkipAlike(s, t);
    SubnetCommandAlike("from", Skip(s), Skip(t));
    SubnetCommandAlike("to", Skip(s), Skip(t));
    PaddedAlike(SourceCommand(Skip(s)), SourceCommand(Skip(t)));
    PaddedAlike(DestCommand(Skip(s)), DestCommand(Skip(t)));
    OptionalAlike(Padded(SourceCommand(Skip(s))), Padded(SourceCommand(Skip(t))), s, t);
    OptionalAlike(Padded(DestCommand(Skip(s))), Padded(DestCommand(Skip(t))), s, t);
  }

  lemma AfterSourceAlike(packetType: Option<string>, source: Option<string>, s: string, t: string)
    requires Alike(s, t)
    ensures SameMatch(AfterSource(packetType, source, s), AfterSource(packetType, source, t))
  {
    OptionalSubnetsAlike(s, t);
  }

  lemma AfterPacketTypeAlike(packetType: string, s: string, t: string)
    requires Alike(s, t)
    ensures SameMatch(AfterPacketType(packetType, s), AfterPacketType(packetType, t))
  {
    OptionalSubnetsAlike(s, t);
    var m, n := OptionalSource(s), OptionalSource(t);
    if m.Match? { AfterSourceAlike(Some(packetType), m.value, m.rest, n.rest); }
  }

  lemma ConditionBodyAlike(s: string, t: string)
    requires Alike(s, t)
    ensures SameMatch(ConditionBody(s), ConditionBody(t))
  {
    TypeRunAlike(s, t);
    var n := TypeRun(s);
    if n > 0 {
      AfterPacketTypeAlike(s[..n], s[n..], t[n..]);
    } else {
      SubnetCommandAlike("from", s, t);
      SubnetCommandAlike("to", s, t);
      if SourceCommand(s).Match? {
        AfterSourceAlike(None, Some(SourceCommand(s).value), SourceCommand(s).rest, SourceCommand(t).rest);
      }
    }
  }

  lemma ConditionAlike(s: string, t: string)
    requires Alike(s, t)
    ensures SameMatch(Condition(s), Condition(t))
  {
    WordAlike("if", s, t);
    if Keyword("if", s).Some? {
      var x, y := Keyword("if", s).value, Keyword("if", t).value;
      SkipAlike(x, y);
      ConditionBodyAlike(Skip(x), Skip(y));
      PaddedAlike(ConditionBody(Skip(x)), ConditionBody(Skip(y)));
    }
  }

  lemma PriorityCommandAlike(s: string, t: string)
    requires Alike(s, t)
    ensures SameMatch(PriorityCommand(s), PriorityCommand(t))
  {
    WordAlike("with", s, t);
    if Keyword("with", s).Some? {
      var x, y := Keyword("with", s).value, Keyword("with", t).value;
      SkipAlike(x, y);
      WordAlike("priority", Skip(x), Skip(y));
      if Keyword("priority", Skip(x)).Some? {
        NumberAlike(Keyword("priority", Skip(x)).value, Keyword("priority", Skip(y)).value);
      }
    }
  }

  lemma NumberAlike(s: string, t: string)
    requires Alike(s, t)
    ensures SameMatch(Padded(Must(SignedInteger(Skip(Skip(s))))), Padded(Must(SignedInteger(Skip(Skip(t))))))
  {
    SkipAlike(s, t);
    SkipAlike(Skip(s), Skip(t));
    SignedIntegerAlike(Skip(Skip(s)), Skip(Skip(t)));
    PaddedAlike(Must(SignedInteger(Skip(Skip(s)))), Must(SignedInteger(Skip(Skip(t)))));
  }

  lemma TargetAlike(s: string, t: string)
    requires Alike(s, t)
    ensures SameMatch(Padded(Must(Identifier(Skip(s)))), Padded(Must(Identifier(Skip(t)))))
  {
    SkipAlike(s, t);
    IdentifierAlike(Skip(s), Skip(t));
    PaddedAlike(Must(Identifier(Skip(s))), Must(Identifier(Skip(t))));
  }

  function Transfer(isCall: bool, target: Match<string>): Match<ActionNode> {
    match target
    case Match(name, rest) => Match(if isCall then CallNode(name) else GoToNode(name), rest)
    case _ => Fatal
  }

  /** The action of a text, which starts with one word at most. */
  lemma ActionIs(s: string)
    ensures Action(s)
         == if "accept" <= s then Match(AcceptNode, s[6..])
            else if "reject" <= s then Match(RejectNode, s[6..])
            else if "call" <= s then Transfer(true, Padded(Must(Identifier(Skip(s[4..])))))
            else if "goto" <= s then Transfer(false, Padded(Must(Identifier(Skip(s[4..])))))
            else NoMatch
  {}

  lemma TransferAlike(word: string, isCall: bool, s: string, t: string)
    requires Alike(s, t) && IsWord(word) && |word| == 4 && word <= s && word <= t
    ensures SameMatch(Transfer(isCall, Padded(Must(Identifier(Skip(s[4..]))))),
                      Transfer(isCall, Padded(Must(Identifier(Skip(t[4..]))))))
  {
    WordAlike(word, s, t);
    TargetAlike(s[4..], t[4..]);
  }

  lemma ActionAlike(s: string, t: string)
    requires Alike(s, t)
    ensures SameMatch(Action(s), Action(t))
  {
    WordAlike("accept", s, t);
    WordAlike("reject", s, t);
    WordAlike("call", s, t);
    WordAlike("goto", s, t);
    ActionIs(s);
    ActionIs(t);
    if "call" <= s { TransferAlike("call", true, s, t); }
    if "goto" <= s { TransferAlike("goto", false, s, t); }
  }

  // ---------- Rules and chains ----------

  lemma OptionalPriorityAlike(s: string, t: string)
    requires Alike(s, t)
    ensures SameMatch(OptionalPriority(s), OptionalPriority(t))
  {
    SkipAlike(s, t);
    PriorityCommandAlike(Skip(s), Skip(t));
    PaddedAlike(PriorityCommand(Skip(s)), PriorityCommand(Skip(t)));
    OptionalAlike(Padded(PriorityCommand(Skip(s))), Padded(PriorityCommand(Skip(t))), s, t);
  }

  lemma OptionalConditionAlike(s: string, t: string)
    requires Alike(s, t)
    ensures SameMatch(OptionalCondition(s), OptionalCondition(t))
  {
    SkipAlike(s, t);
    ConditionAlike(Skip(s), Skip(t));
    PaddedAlike(Condition(Skip(s)), Condition(Skip(t)));
    OptionalAlike(Padded(Condition(Skip(s))), Padded(Condition(Skip(t))), s, t);
  }

  lemma OneCharAlike(c: char, s: string, t: string)
    requires Alike(s, t) && !IsSpace(c)
    ensures SameMatch(OneChar(c, s), OneChar(c, t))
  {
    HeadsAlike(s, t);
    if s != [] && s[0] == c { CutOne(s, t); }
  }

  lemma RuleTailAlike(action: ActionNode, s: string, t: string)
    requires Alike(s, t)
    ensures SameMatch(RuleTail(action, s), RuleTail(action, t))
  {
    OptionalPriorityAlike(s, t);
    var m, n := OptionalPriority(s), OptionalPriority(t);
    if m.Match? {
      OptionalConditionAlike(m.rest, n.rest);
      var c, d := OptionalCondition(m.rest), OptionalCondition(n.rest);
      if c.Match? { OneCharAlike(';', c.rest, d.rest); }
    }
  }

  lemma RuleAlike(s: string, t: string)
    requires Alike(s, t)
    ensures SameMatch(Rule(s), Rule(t))
  {
    ActionAlike(s, t);
    IdentifierAlike(s, t);
    if Action(s).Match? { RuleTailAlike(Action(s).value, Action(s).rest, Action(t).rest); }
  }

  lemma {:induction false} RulesAlike(s: string, t: string)
    requires Alike(s, t)
    ensures SameMatch(Rules(s), Rules(t))
    decreases |s|
  {
    SkipAlike(s, t);
    RuleAlike(Skip(s), Skip(t));
    PaddedAlike(Rule(Skip(s)), Rule(Skip(t)));
    var m, n := Padded(Rule(Skip(s))), Padded(Rule(Skip(t)));
    if m.Match? { RulesAlike(m.rest, n.rest); }
  }

  lemma BraceAlike(c: char, s: string, t: string)
    requires Alike(s, t) && !IsSpace(c)
    ensures SameMatch(Padded(Must(OneChar(c, Skip(s)))), Padded(Must(OneChar(c, Skip(t)))))
  {
    SkipAlike(s, t);
    OneCharAlike(c, Skip(s), Skip(t));
    PaddedAlike(Must(OneChar(c, Skip(s))), Must(OneChar(c, Skip(t))));
  }

  lemma ChainAlike(s: string, t: string)
    requires Alike(s, t)
    ensures SameMatch(Chain(s), Chain(t))
  {
    WordAlike("chain", s, t);
    if Keyword("chain", s).Some? {
      var x, y := Keyword("chain", s).value, Keyword("chain", t).value;
      TargetAlike(x, y);
      var name, other := Padded(Must(Identifier(Skip(x)))), Padded(Must(Identifier(Skip(y))));
      if name.Match? {
        BraceAlike('{', name.rest, other.rest);
        var open, alsoOpen := Padded(Must(OneChar('{', Skip(name.rest)))), Padded(Must(OneChar('{', Skip(other.rest))));
        if open.Match? {
          RulesAlike(open.rest, alsoOpen.rest);
          var rules, same := Rules(open.rest), Rules(alsoOpen.rest);
          if rules.Match? { BraceAlike('}', rules.rest, same.rest); }
        }
      }
    }
  }

  /** Wherever no comment is open, a gap that starts with a blank can be replaced by any other, with any
      comments in it: what is read, or that it is an error, stays the same. */
  lemma LayoutDoesNotMatter(a: string, gap: string, other: string, b: string)
    requires Outside(a) && IsBreak(gap) && IsBreak(other)
    ensures SameMatch(Chain(a + gap + b), Chain(a + other + b))
  {
    var s, t := a + gap + b, a + other + b;
    assert s == a + (gap + b) && t == a + (other + b);
    assert Varies(s, t, a, gap, other, b);
    ChainAlike(s, t);
  }

  /** In particular a comment behind any blank changes nothing. */
  lemma CommentsDoNotMatter(a: string, comment: string, b: string)
    requires Outside(a) && '\n' !in comment
    ensures SameMatch(Chain(a + " " + b), Chain(a + (" #" + comment + "\n") + b))
  {
    var gap := " #" + comment + "\n";
    assert IsGap(" ") && IsBreak(" ") by { assert " "[1..] == []; }
    assert gap[1..] == "#" + comment + "\n";
    var line := gap[1..];
    assert IsCommentLine(line);
    assert line[..|line|] == line && line[|line|..] == [];
    assert IsGap(line);
    assert IsBreak(gap);
    LayoutDoesNotMatter(a, " ", gap, b);
  }
}
