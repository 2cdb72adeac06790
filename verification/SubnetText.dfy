/** The text forms of a subnet: `a.b`, `a.b/n`, `a.b\n` and `a.b:c.d`. */
module SubnetText {
  import opened Wrappers
  import opened Text
  import opened Subnets

  /** The masks printed as `/n`, indexed by n; the last one is printed as the bare address. */
  const SLASH_MASKS: seq<Address> := [
    0x0000, 0x8000, 0xC000, 0xE000, 0xF000, 0xF800, 0xFC00, 0xFE00, 0xFF00,
    0xFF80, 0xFFC0, 0xFFE0, 0xFFF0, 0xFFF8, 0xFFFC, 0xFFFE, 0xFFFF]

  /** The masks printed as `\n`, indexed by n; the first one is printed as `/0`. */
  const BACKSLASH_MASKS: seq<Address> := [0x00, 0x80, 0xC0, 0xE0, 0xF0, 0xF8, 0xFC, 0xFE, 0xFF]

  function IndexOf(masks: seq<Address>, mask: Address): (i: nat)
    requires mask in masks
    ensures i < |masks| && masks[i] == mask
  {
    if masks[0] == mask then 0 else 1 + IndexOf(masks[1..], mask)
  }

  function PrintSubnet(s: Subnet): string {
    if s.mask == 0xFFFF then
      PrintAddress(s.address)
    else if s.mask in SLASH_MASKS then
      PrintAddress(s.address) + "/" + Digits(IndexOf(SLASH_MASKS, s.mask))
    else if s.mask in BACKSLASH_MASKS then
      PrintAddress(s.address) + "\\" + Digits(IndexOf(BACKSLASH_MASKS, s.mask))
    else
      PrintAddress(s.address) + ":" + PrintAddress(s.mask)
  }

  predicate IsSeparator(c: char) {
    c == ':' || c == '/' || c == '\\'
  }

  predicate HasNoSeparator(s: string) {
    forall i :: 0 <= i < |s| ==> !IsSeparator(s[i])
  }

  /** Position of the first separator, or the length of the text. */
  function FirstSeparator(s: string): (n: nat)
    ensures n <= |s|
    ensures forall i :: 0 <= i < n ==> !IsSeparator(s[i])
    ensures n < |s| ==> IsSeparator(s[n])
  {
    if s == [] || IsSeparator(s[0]) then 0 else 1 + FirstSeparator(s[1..])
  }

  predicate IsBlank(c: char) {
    c == ' ' || '\t' <= c <= '\r'
  }

  /** `std::istringstream(s) >> int` but for its range: leading blanks, an optional sign and a run of
      digits, 0 when there are no digits. */
  function ReadInt(s: string): int {
    if s != [] && IsBlank(s[0]) then
      ReadInt(s[1..])
    else if s != [] && (s[0] == '-' || s[0] == '+') then
      DigitRunIsMaximal(s[1..]);
      var value: int := ValueOf(s[1..][..DigitRun(s[1..])]);
      if s[0] == '-' then -value else value
    else
      DigitRunIsMaximal(s);
      ValueOf(s[..DigitRun(s)])
  }

  /** The string constructor of a subnet: text that is an address is an exact match; otherwise the
      text must split into an address, one separator and one more token. */
  function ParseSubnet(s: string): Result<Subnet, Error> {
    match ParseAddress(s)
    case Ok(address) => Ok(Subnet(address, 0xFFFF))
    case Err(_) =>
      var n := FirstSeparator(s);
      if n == 0 || n == |s| then Err(InvalidArgument) else
        var rest := s[n + 1..];
        if rest == [] || (FirstSeparator(rest) < |rest| && |rest| != 1) then Err(InvalidArgument) else
          match ParseAddress(s[..n])
          case Err(e) => Err(e)
          case Ok(address) =>
            if s[n] == ':' then
              match ParseAddress(rest)
              case Ok(mask) => Ok(Subnet(address, mask))
              case Err(e) => Err(e)
            else
              var bits := ReadInt(rest);
              if bits < 0 || bits > (if s[n] == '/' then 16 else 8) then
                Err(OutOfRange)
              else
                Ok(Subnet(address, if s[n] == '/' then SlashMask(bits) else BackslashMask(bits)))
  }

  /** The printed numbers of bits are the ones that read back as the same masks. */
  lemma TablesAgree(bits: nat)
    ensures bits <= 16 ==> |SLASH_MASKS| == 17 && SLASH_MASKS[bits] == SlashMask(bits)
    ensures bits <= 8 ==> |BACKSLASH_MASKS| == 9 && BACKSLASH_MASKS[bits] == BackslashMask(bits)
  {
    if bits <= 16 {
      SlashValue(bits);
    }
    if bits <= 8 {
      BackslashValue(bits);
    }
  }

  lemma {:induction false} ShiftedOnesValue(n: nat, k: nat)
    ensures Shl(Ones(n), k) == Pow2(n + k) - Pow2(k)
  {
    if k > 0 {
      ShiftedOnesValue(n, k - 1);
    } else if n > 0 {
      ShiftedOnesValue(n - 1, 0);
    }
  }

  const POWERS: seq<nat> := [
    1, 2, 4, 8, 0x10, 0x20, 0x40, 0x80, 0x100,
    0x200, 0x400, 0x800, 0x1000, 0x2000, 0x4000, 0x8000, 0x1_0000]

  lemma {:induction false} PowersValue(k: nat)
    requires k <= 16
    ensures Pow2(k) == POWERS[k]
  {
    if k > 0 { PowersValue(k - 1); }
  }

  /** The highest `bits` of 16 bits set. */
  lemma SlashEntry(bits: nat)
    requires bits <= 16
    ensures SLASH_MASKS[bits] == 0x1_0000 - POWERS[16 - bits]
  {
    if bits < 4 {
    } else if bits < 8 {
    } else if bits < 12 {
    } else {
    }
  }

  lemma SlashValue(bits: nat)
    requires bits <= 16
    ensures SLASH_MASKS[bits] == Shl(Ones(bits), 16 - bits)
  {
    SlashEntry(bits);
    ShiftedOnesValue(bits, 16 - bits);
    PowersValue(16);
    PowersValue(16 - bits);
  }

  lemma BackslashValue(bits: nat)
    requires bits <= 8
    ensures BACKSLASH_MASKS[bits] == Shl(Ones(bits), 8 - bits)
  {
    ShiftedOnesValue(bits, 8 - bits);
    PowersValue(8);
    PowersValue(8 - bits);
  }

  lemma FirstSeparatorAt(before: string, c: char, after: string)
    requires IsSeparator(c) && HasNoSeparator(before)
    ensures FirstSeparator(before + [c] + after) == |before|
  {
    var s := before + [c] + after;
    var n := FirstSeparator(s);
    assert forall i :: 0 <= i < |before| ==> s[i] == before[i] && !IsSeparator(s[i]);
    assert IsSeparator(s[|before|]);
  }

  /** Text with a separator is not an address, and splits at it. */
  lemma SplitText(prefix: string, c: char, rest: string)
    requires HasNoSeparator(prefix) && IsSeparator(c) && rest != [] && HasNoSeparator(rest)
    ensures var s := prefix + [c] + rest;
            && ParseAddress(s).Err?
            && FirstSeparator(s) == |prefix|
            && s[..FirstSeparator(s)] == prefix
            && s[FirstSeparator(s)] == c
            && s[FirstSeparator(s) + 1..] == rest
            && FirstSeparator(rest) == |rest|
  {
    var s := prefix + [c] + rest;
    FirstSeparatorAt(prefix, c, rest);
    assert s[|prefix|] == c && c != '.' && !IsDigit(c);
    assert exists i :: 0 <= i < |s| && s[i] != '.' && !IsDigit(s[i]);
  }

  lemma SplitPrinted(address: Address, c: char, rest: string)
    requires IsSeparator(c) && rest != [] && HasNoSeparator(rest)
    ensures var s := PrintAddress(address) + [c] + rest;
            && ParseAddress(s).Err?
            && FirstSeparator(s) == |PrintAddress(address)|
            && s[..FirstSeparator(s)] == PrintAddress(address)
            && s[FirstSeparator(s)] == c
            && s[FirstSeparator(s) + 1..] == rest
            && FirstSeparator(rest) == |rest|
  {
    PrintedAddressShape(address);
    SplitText(PrintAddress(address), c, rest);
  }

  lemma BitsReadBack(bits: nat)
    ensures ReadInt(Digits(bits)) == bits
    ensures HasNoSeparator(Digits(bits))
  {
    var d := Digits(bits);
    DigitRunStops(d, []);
    assert d + [] == d && d[..|d|] == d;
    DigitsReadBack(bits);
  }

  /** A number ends at the first character that is no digit; blanks and one sign may come before it. */
  lemma IntIsRead(digits: string, rest: string)
    requires digits != [] && AllDigits(digits) && EndsDigits(rest)
    ensures ReadInt(digits + rest) == ValueOf(digits)
    ensures ReadInt(['+'] + (digits + rest)) == ValueOf(digits)
    ensures ReadInt(['-'] + (digits + rest)) == 0 - ValueOf(digits)
    ensures ReadInt([' '] + (digits + rest)) == ReadInt(['\t'] + (digits + rest)) == ValueOf(digits)
  {
    var s := digits + rest;
    DigitRunStops(digits, rest);
    assert s[..|digits|] == digits && s[0] == digits[0];
    assert (['+'] + s)[1..] == s && (['-'] + s)[1..] == s && ([' '] + s)[1..] == s && (['\t'] + s)[1..] == s;
  }

  lemma SlashRoundTrip(address: Address, bits: nat)
    requires bits <= 16
    ensures ParseSubnet(PrintAddress(address) + "/" + Digits(bits)) == Ok(Subnet(address, SLASH_MASKS[bits]))
  {
    BitsReadBack(bits);
    TablesAgree(bits);
    SplitPrinted(address, '/', Digits(bits));
    AddressRoundTrip(address);
  }

  lemma BackslashRoundTrip(address: Address, bits: nat)
    requires bits <= 8
    ensures ParseSubnet(PrintAddress(address) + "\\" + Digits(bits)) == Ok(Subnet(address, BACKSLASH_MASKS[bits]))
  {
    BitsReadBack(bits);
    TablesAgree(bits);
    SplitPrinted(address, '\\', Digits(bits));
    AddressRoundTrip(address);
  }

  /** Reading back a printed subnet gives the same address and the same mask, for every subnet. */
  lemma SubnetRoundTrip(s: Subnet)
    ensures ParseSubnet(PrintSubnet(s)) == Ok(s)
  {
    AddressRoundTrip(s.address);
    if s.mask == 0xFFFF {
    } else if s.mask in SLASH_MASKS {
      SlashRoundTrip(s.address, IndexOf(SLASH_MASKS, s.mask));
    } else if s.mask in BACKSLASH_MASKS {
      BackslashRoundTrip(s.address, IndexOf(BACKSLASH_MASKS, s.mask));
    } else {
      AddressRoundTrip(s.mask);
      PrintedAddressShape(s.mask);
      SplitPrinted(s.address, ':', PrintAddress(s.mask));
    }
  }

  // ---------- Which form is printed ----------

  lemma {:induction false} PowersGrow(j: nat, k: nat)
    requires j < k
    ensures Pow2(j) < Pow2(k)
    decreases k
  {
    if j < k - 1 { PowersGrow(j, k - 1); }
  }

  lemma {:induction false} IndexIsFirst(masks: seq<Address>, n: nat)
    requires n < |masks| && forall i :: 0 <= i < n ==> masks[i] != masks[n]
    ensures IndexOf(masks, masks[n]) == n
  {
    if n > 0 {
      assert masks[0] != masks[n];
      forall i | 0 <= i < n - 1 ensures masks[1..][i] != masks[1..][n - 1] {
        assert masks[i + 1] != masks[n];
      }
      IndexIsFirst(masks[1..], n - 1);
    }
  }

  lemma SlashIndex(n: nat)
    requires n <= 16
    ensures IndexOf(SLASH_MASKS, SLASH_MASKS[n]) == n
  {
    forall i | 0 <= i < n ensures SLASH_MASKS[i] != SLASH_MASKS[n] {
      SlashEntry(i);
      SlashEntry(n);
      PowersValue(16 - i);
      PowersValue(16 - n);
      PowersGrow(16 - n, 16 - i);
    }
    IndexIsFirst(SLASH_MASKS, n);
  }

  lemma BackslashEntry(n: nat)
    requires n <= 8
    ensures BACKSLASH_MASKS[n] == 0x100 - POWERS[8 - n]
  {}

  lemma BackslashIndex(n: nat)
    requires n <= 8
    ensures IndexOf(BACKSLASH_MASKS, BACKSLASH_MASKS[n]) == n
  {
    forall i | 0 <= i < n ensures BACKSLASH_MASKS[i] != BACKSLASH_MASKS[n] {
      BackslashEntry(i);
      BackslashEntry(n);
      PowersValue(8 - i);
      PowersValue(8 - n);
      PowersGrow(8 - n, 8 - i);
    }
    IndexIsFirst(BACKSLASH_MASKS, n);
  }

  /** Slash masks are 0 or have the highest bit. */
  lemma SlashIsHigh(i: nat)
    requires 0 < i <= 16
    ensures 0x8000 <= SLASH_MASKS[i] && (SLASH_MASKS[i] == 0xFFFF <==> i == 16)
  {
    SlashEntry(i);
    PowersValue(16 - i);
    PowersValue(15);
    if i > 1 { PowersGrow(16 - i, 15); }
    if i < 16 { PowersGrow(0, 16 - i); }
  }

  lemma BackslashIsLow(n: nat)
    requires 0 < n <= 8
    ensures BACKSLASH_MASKS[n] !in SLASH_MASKS && BACKSLASH_MASKS[n] < 0x100
  {
    BackslashEntry(n);
    PowersValue(8 - n);
    PowersValue(8);
    PowersGrow(8 - n, 8);
    forall i | 0 <= i < 17 ensures SLASH_MASKS[i] != BACKSLASH_MASKS[n] {
      if i > 0 { SlashIsHigh(i); }
    }
  }

  lemma PrintedSlash(address: Address, mask: Address, n: nat)
    requires mask in SLASH_MASKS && IndexOf(SLASH_MASKS, mask) == n && mask != 0xFFFF
    ensures PrintSubnet(Subnet(address, mask)) == PrintAddress(address) + "/" + Digits(n)
  {}

  /** The highest n bits of both numbers are printed as `/n`, and all of them as the bare address. */
  lemma SlashForm(address: Address, n: nat)
    requires n <= 16
    ensures PrintSubnet(Subnet(address, SlashMask(n)))
         == if n == 16 then PrintAddress(address) else PrintAddress(address) + "/" + Digits(n)
  {
    TablesAgree(n);
    SlashIndex(n);
    if n > 0 { SlashIsHigh(n); } else { assert SLASH_MASKS[0] == 0; }
    if n < 16 { PrintedSlash(address, SLASH_MASKS[n], n); }
  }

  /** The highest n bits of the component, if any, are printed as `\n`. */
  lemma BackslashForm(address: Address, n: nat)
    requires 0 < n <= 8
    ensures PrintSubnet(Subnet(address, BackslashMask(n))) == PrintAddress(address) + "\\" + Digits(n)
  {
    TablesAgree(n);
    BackslashIndex(n);
    BackslashIsLow(n);
  }

  /** Every other mask is printed as an address behind a colon. */
  lemma OtherForm(s: Subnet)
    requires forall n :: 0 <= n <= 16 ==> s.mask != SlashMask(n)
    requires forall n :: 0 <= n <= 8 ==> s.mask != BackslashMask(n)
    ensures PrintSubnet(s) == PrintAddress(s.address) + ":" + PrintAddress(s.mask)
  {
    forall n | 0 <= n <= 16 ensures s.mask != SLASH_MASKS[n] { TablesAgree(n); assert s.mask != SlashMask(n); }
    forall n | 0 <= n <= 8 ensures s.mask != BACKSLASH_MASKS[n] { TablesAgree(n); assert s.mask != BackslashMask(n); }
    assert SLASH_MASKS[16] == 0xFFFF;
  }

  // ---------- Which texts are accepted ----------

  /** A token that ends the text: it has no separator in it or is one. */
  predicate IsLastToken(text: string) {
    text != [] && (HasNoSeparator(text) || |text| == 1)
  }

  /** What may stand behind a separator: a mask, or text that starts with a number of bits. */
  predicate IsMaskText(c: char, text: string) {
    IsLastToken(text) && if c == ':' then ParseAddress(text).Ok? else 0 <= ReadInt(text) <= if c == '/' then 16 else 8
  }

  function MaskOf(c: char, text: string): Address
    requires IsMaskText(c, text)
  {
    if c == ':' then ParseAddress(text).value
    else if c == '/' then SlashMask(ReadInt(text))
    else BackslashMask(ReadInt(text))
  }

  /** The text is an address, a separator at `n`, and something that gives a mask. */
  predicate SplitsAt(s: string, n: nat) {
    n < |s| && ParseAddress(s[..n]).Ok? && IsSeparator(s[n]) && IsMaskText(s[n], s[n + 1..])
  }

  lemma AddressHasNoSeparator(s: string)
    requires ParseAddress(s).Ok?
    ensures HasNoSeparator(s)
  {}

  lemma LastTokenSplits(text: string)
    ensures IsLastToken(text) <==> text != [] && (FirstSeparator(text) == |text| || |text| == 1)
  {}

  /** A text splits in one way only, and then is no address. */
  lemma SplitIsFirst(s: string, n: nat)
    requires n < |s| && HasNoSeparator(s[..n]) && IsSeparator(s[n])
    ensures FirstSeparator(s) == n && ParseAddress(s).Err?
  {
    forall i | 0 <= i < n ensures !IsSeparator(s[i]) { assert s[..n][i] == s[i]; }
    assert !IsDigit(s[n]) && s[n] != '.';
  }

  /** What the text constructor comes to once the text is split. */
  lemma SplitTextRead(s: string, n: nat)
    requires 0 < n < |s| && n == FirstSeparator(s) && ParseAddress(s).Err?
    ensures ParseSubnet(s).Ok? <==> SplitsAt(s, n)
    ensures SplitsAt(s, n) ==> ParseSubnet(s) == Ok(Subnet(ParseAddress(s[..n]).value, MaskOf(s[n], s[n + 1..])))
  {
    LastTokenSplits(s[n + 1..]);
  }

  /** Exactly the texts that are accepted, and as which subnet: an address, or an address, a separator and
      one more token, which is an address behind a colon and otherwise starts with a number in range. */
  lemma SubnetTextAcceptedIff(s: string)
    ensures ParseSubnet(s).Ok? <==> ParseAddress(s).Ok? || exists n: nat :: SplitsAt(s, n)
    ensures ParseAddress(s).Ok? ==> ParseSubnet(s) == Ok(Subnet(ParseAddress(s).value, 0xFFFF))
    ensures forall n: nat :: SplitsAt(s, n) ==>
              ParseSubnet(s) == Ok(Subnet(ParseAddress(s[..n]).value, MaskOf(s[n], s[n + 1..])))
  {
    forall n: nat | SplitsAt(s, n)
      ensures ParseSubnet(s) == Ok(Subnet(ParseAddress(s[..n]).value, MaskOf(s[n], s[n + 1..])))
    {
      AddressHasNoSeparator(s[..n]);
      SplitIsFirst(s, n);
      SplitTextRead(s, n);
    }
    var n := FirstSeparator(s);
    if ParseAddress(s).Err? && 0 < n < |s| { SplitTextRead(s, n); }
  }

  /** The text has an address part, a separator at `n`, and one more token. */
  predicate IsSplit(s: string, n: nat) {
    0 < n < |s| && HasNoSeparator(s[..n]) && IsSeparator(s[n]) && IsLastToken(s[n + 1..])
  }

  /** A part of a split text is out of range. */
  predicate HasLargePart(s: string, n: nat)
    requires n < |s|
  {
    || ParseAddress(s[..n]) == Err(OutOfRange)
    || (ParseAddress(s[..n]).Ok? && s[n] == ':' && ParseAddress(s[n + 1..]) == Err(OutOfRange))
    || (ParseAddress(s[..n]).Ok? && s[n] != ':'
        && !(0 <= ReadInt(s[n + 1..]) <= if s[n] == '/' then 16 else 8))
  }

  /** Which error it is: out of range exactly if a part of a split text is. An address alone that is out of
      range is an invalid argument. */
  lemma SubnetTextOutOfRangeIff(s: string)
    ensures ParseSubnet(s) == Err(OutOfRange) <==> exists n: nat :: IsSplit(s, n) && HasLargePart(s, n)
  {
    var n := FirstSeparator(s);
    if ParseSubnet(s) == Err(OutOfRange) {
      LastTokenSplits(s[n + 1..]);
      assert IsSplit(s, n) && HasLargePart(s, n);
    }
    if k: nat :| IsSplit(s, k) && HasLargePart(s, k) {
      SplitIsFirst(s, k);
      LastTokenSplits(s[k + 1..]);
    }
  }

  /** Behind a slash or backslash only the number that can be read counts: the text is accepted exactly
      when what stands before it is an address, no further separator follows unless it is all there is, and
      the number, 0 if there is none, is in range. */
  lemma BitsTextAcceptedIff(prefix: string, c: char, text: string)
    requires (c == '/' || c == '\\') && HasNoSeparator(prefix)
    ensures ParseSubnet(prefix + [c] + text).Ok?
       <==> && ParseAddress(prefix).Ok? && text != [] && (HasNoSeparator(text) || |text| == 1)
            && 0 <= ReadInt(text) <= if c == '/' then 16 else 8
  {
    var s, n := prefix + [c] + text, |prefix|;
    assert s[..n] == prefix && s[n] == c && s[n + 1..] == text;
    SplitIsFirst(s, n);
    if n > 0 { SplitTextRead(s, n); }
  }

  /** A second slash is a number of bits, 0, if nothing follows it, and an error otherwise. */
  lemma SecondSlash(prefix: string, text: string)
    requires ParseAddress(prefix).Ok?
    ensures ParseSubnet(prefix + ['/'] + "/").Ok?
    ensures text != [] ==> ParseSubnet(prefix + ['/'] + ("/" + text)).Err?
  {
    AddressHasNoSeparator(prefix);
    BitsTextAcceptedIff(prefix, '/', "/");
    if text != [] {
      assert ("/" + text)[0] == '/';
      BitsTextAcceptedIff(prefix, '/', "/" + text);
    }
  }

  lemma NumberlessText()
    ensures ReadInt("x") == 0
  {
    assert DigitRun("x") == 0;
    assert "x"[..0] == [];
  }

  lemma EmptyMask()
    ensures SlashMask(0) == 0
  {
    SlashValue(0);
    assert SLASH_MASKS[0] == 0;
  }

  lemma SlashTextRead(prefix: string, text: string)
    requires HasNoSeparator(prefix) && ParseAddress(prefix).Ok? && text != [] && HasNoSeparator(text)
    requires 0 <= ReadInt(text) <= 16
    ensures ParseSubnet(prefix + ['/'] + text) == Ok(Subnet(ParseAddress(prefix).value, SlashMask(ReadInt(text))))
  {
    SplitText(prefix, '/', text);
  }

  /** So text that is no number of bits is accepted, and the subnet contains every address. */
  lemma SlashWithoutNumberIsAccepted(prefix: string, a: Address)
    requires HasNoSeparator(prefix) && ParseAddress(prefix).Ok?
    ensures ParseSubnet(prefix + ['/'] + "x").Ok? && Contains(ParseSubnet(prefix + ['/'] + "x").value, a)
  {
    NumberlessText();
    SlashTextRead(prefix, "x");
    EmptyMask();
  }
}
