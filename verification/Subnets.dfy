/** MAVLink addresses and subnets: packing, masks, and the text forms they are printed in and read from. */
module Subnets {
  import opened Wrappers
  import opened Text

  // ---------- Bits ----------

  function Pow2(n: nat): (p: nat)
    ensures p >= 1
  {
    if n == 0 then 1 else 2 * Pow2(n - 1)
  }

  /** `a << k`, without a limit on the width. */
  function Shl(a: nat, k: nat): nat {
    if k == 0 then a else 2 * Shl(a, k - 1)
  }

  /** `a >> k`. */
  function Shr(a: nat, k: nat): nat {
    if k == 0 then a else Shr(a / 2, k - 1)
  }

  /** `a & b`. */
  function BitAnd(a: nat, b: nat): nat {
    if a == 0 || b == 0 then 0 else
      2 * BitAnd(a / 2, b / 2) + (if a % 2 == 1 && b % 2 == 1 then 1 else 0)
  }

  /** The mask of `n` ones. */
  function Ones(n: nat): nat {
    if n == 0 then 0 else 2 * Ones(n - 1) + 1
  }

  predicate Bit(a: nat, i: nat) {
    if i == 0 then a % 2 == 1 else Bit(a / 2, i - 1)
  }

  lemma {:induction false} AndStep(a: nat, b: nat)
    ensures BitAnd(a, b) == 2 * BitAnd(a / 2, b / 2) + (if a % 2 == 1 && b % 2 == 1 then 1 else 0)
  {}

  /** Masking with a shifted mask is masking the shifted number. */
  lemma {:induction false} AndShifted(a: nat, mask: nat, k: nat)
    ensures BitAnd(a, Shl(mask, k)) == Shl(BitAnd(Shr(a, k), mask), k)
  {
    if k > 0 {
      AndStep(a, Shl(mask, k));
      AndShifted(a / 2, mask, k - 1);
    }
  }

  lemma {:induction false} ShlInjective(a: nat, b: nat, k: nat)
    ensures Shl(a, k) == Shl(b, k) <==> a == b
  {
    if k > 0 { ShlInjective(a, b, k - 1); }
  }

  lemma {:induction false} AndOnesFits(a: nat, n: nat)
    requires a <= Ones(n)
    ensures BitAnd(a, Ones(n)) == a
  {
    if n > 0 {
      AndStep(a, Ones(n));
      AndOnesFits(a / 2, n - 1);
    }
  }

  /** Shifting the low `n + k` bits right by `k` gives the low `n` bits of the shifted number. */
  lemma {:induction false} ShrOfLowBits(a: nat, n: nat, k: nat)
    ensures Shr(BitAnd(a, Ones(n + k)), k) == BitAnd(Shr(a, k), Ones(n))
  {
    if k > 0 {
      AndStep(a, Ones(n + k));
      ShrOfLowBits(a / 2, n, k - 1);
    }
  }

  lemma {:induction false} OnesWithin(m: nat, n: nat)
    requires n <= m
    ensures BitAnd(Ones(m), Ones(n)) == Ones(n)
  {
    if n > 0 {
      AndStep(Ones(m), Ones(n));
      OnesWithin(m - 1, n - 1);
    }
  }

  /** Ones shifted left and cut to `k + n` bits are `n` ones followed by `k` zeros. */
  lemma {:induction false} ShiftedOnes(m: nat, k: nat, n: nat)
    requires n <= m
    ensures BitAnd(Shl(Ones(m), k), Ones(k + n)) == Shl(Ones(n), k)
  {
    if k == 0 {
      OnesWithin(m, n);
    } else {
      ShiftedOnes(m, k - 1, n);
    }
  }

  lemma {:induction false} ShlOnesBound(n: nat, k: nat)
    ensures Shl(Ones(n), k) <= Ones(n + k)
  {
    if k > 0 { ShlOnesBound(n, k - 1); }
  }

  lemma OnesValues()
    ensures Ones(8) == 0xFF && Ones(16) == 0xFFFF
  {
    assert Ones(4) == 0xF; assert Ones(12) == 0xFFF;
  }

  lemma QuotientBetween(a: nat, d: nat, q: nat)
    requires d > 0 && q * d <= a < q * d + d
    ensures a / d == q
  {
    var r := a / d;
    assert a == d * r + a % d;
    assert r < q ==> (r + 1) * d <= q * d;
    assert r > q ==> (q + 1) * d <= r * d;
  }

  lemma HalfThenQuotient(a: nat, p: nat)
    requires p > 0
    ensures a / (2 * p) == a / 2 / p
  {
    var q := a / 2 / p;
    assert a / 2 == p * q + a / 2 % p;
    assert q * (2 * p) == 2 * (p * q);
    QuotientBetween(a, 2 * p, q);
  }

  /** Shifting right is division by a power of two. */
  lemma {:induction false} ShrIsQuotient(a: nat, k: nat)
    ensures Shr(a, k) == a / Pow2(k)
  {
    if k > 0 {
      ShrIsQuotient(a / 2, k - 1);
      HalfThenQuotient(a, Pow2(k - 1));
    }
  }

  lemma ModStep(a: nat, p: nat)
    requires p > 0
    ensures a % (2 * p) == 2 * (a / 2 % p) + a % 2
  {
    HalfThenQuotient(a, p);
    var q := a / 2 / p;
    assert a / 2 == p * q + a / 2 % p;
    assert (2 * p) * q == 2 * (p * q);
    assert a == (2 * p) * (a / (2 * p)) + a % (2 * p);
  }

  lemma {:induction false} LowBits(a: nat, n: nat)
    ensures BitAnd(a, Ones(n)) == a % Pow2(n)
  {
    if n > 0 {
      AndStep(a, Ones(n));
      LowBits(a / 2, n - 1);
      ModStep(a, Pow2(n - 1));
    }
  }

  lemma {:induction false} AndBits(a: nat, b: nat, i: nat)
    ensures Bit(BitAnd(a, b), i) <==> Bit(a, i) && Bit(b, i)
    decreases i
  {
    AndStep(a, b);
    if i > 0 {
      AndBits(a / 2, b / 2, i - 1);
    }
  }

  lemma {:induction false} SameBits(a: nat, b: nat)
    requires forall i: nat :: Bit(a, i) <==> Bit(b, i)
    ensures a == b
    decreases a + b
  {
    if a != 0 || b != 0 {
      assert Bit(a, 0) <==> Bit(b, 0);
      forall i: nat ensures Bit(a / 2, i) <==> Bit(b / 2, i) {
        assert Bit(a, i + 1) <==> Bit(b, i + 1);
      }
      SameBits(a / 2, b / 2);
    }
  }

  // ---------- Addresses ----------

  /** The numeric form: system in the high byte, component in the low byte. */
  type Address = a: nat | a < 0x1_0000 witness 0

  datatype Error = InvalidArgument | OutOfRange

  function System(a: Address): nat {
    a / 0x100
  }

  function Component(a: Address): nat {
    a % 0x100
  }

  function Pack(system: nat, component: nat): (a: Address)
    requires system <= 255 && component <= 255
    ensures System(a) == system && Component(a) == component
  {
    0x100 * system + component
  }

  function Construct(system: nat, component: nat): (r: Result<Address, Error>)
    ensures r.Ok? <==> system <= 255 && component <= 255
    ensures r.Ok? ==> System(r.value) == system && Component(r.value) == component
  {
    if system > 255 || component > 255 then Err(OutOfRange) else Ok(Pack(system, component))
  }

  function PrintAddress(a: Address): string {
    Digits(System(a)) + "." + Digits(Component(a))
  }

  /** The maximal runs of digits of `s`, as stream extraction finds them once dots are blanks. */
  function Runs(s: string): (runs: seq<string>)
    ensures forall i :: 0 <= i < |runs| ==> AllDigits(runs[i])
    decreases |s|
  {
    if s == [] then [] else
      var n := DigitRun(s);
      DigitRunIsMaximal(s);
      if n == 0 then Runs(s[1..]) else [s[..n]] + Runs(s[n..])
  }

  const UINT_VALUES: nat := 0x1_0000_0000

  /** Numbers extracted before the first one too large for `unsigned int`. */
  function Extracted(runs: seq<string>): (values: seq<nat>)
    requires forall i :: 0 <= i < |runs| ==> AllDigits(runs[i])
    ensures |values| <= |runs|
  {
    if runs == [] || ValueOf(runs[0]) >= UINT_VALUES then [] else [ValueOf(runs[0])] + Extracted(runs[1..])
  }

  /** The string constructor of an address. */
  function ParseAddress(s: string): Result<Address, Error> {
    if |s| < 3 || !IsDigit(s[0]) || !IsDigit(s[|s| - 1]) then
      Err(InvalidArgument)
    else if exists i :: 0 <= i < |s| && s[i] != '.' && !IsDigit(s[i]) then
      Err(InvalidArgument)
    else
      var runs := Runs(s);
      var octets := Extracted(runs);
      // The stream is at its end unless extraction failed before the last number.
      if |octets| != 2 || |octets| + 1 < |runs| then
        Err(InvalidArgument)
      else
        Construct(octets[0], octets[1])
  }

  lemma RunsSplit(digits: string, rest: string)
    requires digits != [] && AllDigits(digits) && EndsDigits(rest)
    ensures Runs(digits + rest) == [digits] + Runs(rest)
  {
    DigitRunStops(digits, rest);
    assert (digits + rest)[..|digits|] == digits && (digits + rest)[|digits|..] == rest;
  }

  /** Only digits and dots are printed for an address. */
  lemma PrintedAddressShape(a: Address)
    ensures var s := PrintAddress(a);
            && |s| >= 3 && IsDigit(s[0]) && IsDigit(s[|s| - 1])
            && forall i :: 0 <= i < |s| ==> s[i] == '.' || IsDigit(s[i])
  {}

  lemma TwoRuns(first: string, second: string)
    requires first != [] && second != [] && AllDigits(first) && AllDigits(second)
    ensures Runs(first + "." + second) == [first, second]
  {
    assert first + "." + second == first + ("." + second);
    RunsSplit(first, "." + second);
    assert DigitRun("." + second) == 0;
    assert ("." + second)[1..] == second + [];
    RunsSplit(second, []);
  }

  lemma TwoOctets(first: string, second: string)
    requires AllDigits(first) && AllDigits(second) && ValueOf(first) < 0x100 && ValueOf(second) < 0x100
    ensures Extracted([first, second]) == [ValueOf(first), ValueOf(second)]
  {
    assert [first, second][1..] == [second];
    assert Extracted([second]) == [ValueOf(second)];
  }

  lemma AddressRoundTrip(a: Address)
    ensures ParseAddress(PrintAddress(a)) == Ok(a)
  {
    var system, component := Digits(System(a)), Digits(Component(a));
    PrintedAddressShape(a);
    TwoRuns(system, component);
    DigitsReadBack(System(a));
    DigitsReadBack(Component(a));
    TwoOctets(system, component);
    assert a == 0x100 * System(a) + Component(a);
  }

  /** The shape the constructor checks before it reads any number. */
  predicate HasAddressShape(s: string) {
    && |s| >= 3 && IsDigit(s[0]) && IsDigit(s[|s| - 1])
    && forall i :: 0 <= i < |s| ==> s[i] == '.' || IsDigit(s[i])
  }

  /** Two numbers up to a bound, and possibly a third one too large for `unsigned int`. */
  predicate HasTwoNumbers(runs: seq<string>, bound: nat)
    requires forall i :: 0 <= i < |runs| ==> AllDigits(runs[i])
  {
    && (|runs| == 2 || |runs| == 3)
    && ValueOf(runs[0]) <= bound && ValueOf(runs[1]) <= bound
    && (|runs| == 3 ==> ValueOf(runs[2]) >= 0x1_0000_0000)
  }

  /** Two numbers up to 255, and possibly a third one too large for `unsigned int`. */
  predicate HasTwoOctets(runs: seq<string>)
    requires forall i :: 0 <= i < |runs| ==> AllDigits(runs[i])
  {
    HasTwoNumbers(runs, 255)
  }

  lemma ExtractedTwo(runs: seq<string>)
    requires forall i :: 0 <= i < |runs| ==> AllDigits(runs[i])
    ensures |Extracted(runs)| == 2 && |runs| <= 3 <==>
              && (|runs| == 2 || |runs| == 3)
              && ValueOf(runs[0]) < UINT_VALUES && ValueOf(runs[1]) < UINT_VALUES
              && (|runs| == 3 ==> ValueOf(runs[2]) >= UINT_VALUES)
    ensures |Extracted(runs)| == 2 && |runs| <= 3 ==> Extracted(runs) == [ValueOf(runs[0]), ValueOf(runs[1])]
  {
    if |runs| >= 1 {
      var rest := runs[1..];
      if |runs| >= 2 {
        assert rest[0] == runs[1];
        var more := rest[1..];
        if |runs| >= 3 { assert more[0] == runs[2]; }
      }
    }
  }

  /** Exactly the texts that are accepted: the number at the end of the text may be ignored, but only a
      third one, and only because it is too large. A text of that form is out of range if a number is. */
  lemma AddressTextAcceptedIff(s: string)
    ensures ParseAddress(s).Ok? <==> HasAddressShape(s) && HasTwoOctets(Runs(s))
    ensures ParseAddress(s).Ok? ==> ParseAddress(s).value == Pack(ValueOf(Runs(s)[0]), ValueOf(Runs(s)[1]))
    ensures ParseAddress(s) == Err(OutOfRange) <==>
              HasAddressShape(s) && HasTwoNumbers(Runs(s), 0xFFFF_FFFF) && !HasTwoOctets(Runs(s))
  {
    ExtractedTwo(Runs(s));
  }

  lemma ThreeRuns(first: string, second: string, third: string)
    requires first != [] && second != [] && third != []
    requires AllDigits(first) && AllDigits(second) && AllDigits(third)
    ensures Runs(first + "." + second + "." + third) == [first, second, third]
  {
    var rest := "." + second + "." + third;
    assert first + "." + second + "." + third == first + rest;
    RunsSplit(first, rest);
    assert DigitRun(rest) == 0;
    assert rest[1..] == second + "." + third;
    TwoRuns(second, third);
  }

  lemma ThirdNumberShape(a: Address, third: string)
    requires third != [] && AllDigits(third)
    ensures HasAddressShape(PrintAddress(a) + "." + third)
  {
    PrintedAddressShape(a);
  }

  lemma ThreeNumbers(s: string, first: string, second: string, third: string)
    requires AllDigits(first) && AllDigits(second) && AllDigits(third)
    requires HasAddressShape(s) && Runs(s) == [first, second, third]
    requires ValueOf(first) <= 255 && ValueOf(second) <= 255
    ensures ParseAddress(s)
         == if ValueOf(third) >= UINT_VALUES then Ok(Pack(ValueOf(first), ValueOf(second))) else Err(InvalidArgument)
  {
    ExtractedTwo([first, second, third]);
  }

  lemma ThirdRun(a: Address, third: string)
    requires third != [] && AllDigits(third)
    ensures Runs(PrintAddress(a) + "." + third) == [Digits(System(a)), Digits(Component(a)), third]
  {
    ThreeRuns(Digits(System(a)), Digits(Component(a)), third);
  }

  lemma OctetsReadBack(a: Address)
    ensures ValueOf(Digits(System(a))) == System(a) <= 255 && ValueOf(Digits(Component(a))) == Component(a) <= 255
    ensures Pack(System(a), Component(a)) == a
  {
    DigitsReadBack(System(a));
    DigitsReadBack(Component(a));
    assert a == 0x100 * System(a) + Component(a);
  }

  /** A third number behind an address is an error, unless it is too large: then it is ignored. */
  lemma ThirdNumberIgnoredIff(a: Address, n: nat)
    ensures ParseAddress(PrintAddress(a) + "." + Digits(n))
         == if n >= UINT_VALUES then Ok(a) else Err(InvalidArgument)
  {
    var s := PrintAddress(a) + "." + Digits(n);
    assert ValueOf(Digits(n)) == n by { DigitsReadBack(n); }
    assert HasAddressShape(s) by { ThirdNumberShape(a, Digits(n)); }
    ThirdRun(a, Digits(n));
    OctetsReadBack(a);
    ThreeNumbers(s, Digits(System(a)), Digits(Component(a)), Digits(n));
  }

  /** A second number that is too large is an error. */
  lemma LargeSecondNumberFails(system: nat, n: nat)
    requires n >= UINT_VALUES
    ensures ParseAddress(Digits(system) + "." + Digits(n)) == Err(InvalidArgument)
  {
    var first, second := Digits(system), Digits(n);
    TwoRuns(first, second);
    DigitsReadBack(n);
    ExtractedTwo([first, second]);
  }

  /** Two decimal numbers and one dot between them. */
  predicate IsPlainAddress(s: string) {
    exists k :: 0 <= k < |s| && s[k] == '.' && IsDecimal(s[..k]) && IsDecimal(s[k + 1..])
  }

  lemma PrintedAddressIsPlain(a: Address)
    ensures IsPlainAddress(PrintAddress(a))
  {
    var system, component := Digits(System(a)), Digits(Component(a));
    var s := PrintAddress(a);
    DigitsAreDecimal(System(a));
    DigitsAreDecimal(Component(a));
    assert s[|system|] == '.' && s[..|system|] == system && s[|system| + 1..] == component;
  }

  lemma OctetsOfTwoRuns(first: string, second: string)
    requires AllDigits(first) && AllDigits(second) && |Extracted([first, second])| == 2
    ensures Extracted([first, second]) == [ValueOf(first), ValueOf(second)]
  {
    assert [first, second][1..] == [second];
  }

  lemma ParsedParts(first: string, second: string)
    requires first != [] && second != [] && AllDigits(first) && AllDigits(second)
    requires ParseAddress(first + "." + second).Ok?
    ensures ValueOf(first) <= 255 && ValueOf(second) <= 255
    ensures ParseAddress(first + "." + second) == Ok(Pack(ValueOf(first), ValueOf(second)))
  {
    TwoRuns(first, second);
    OctetsOfTwoRuns(first, second);
  }

  lemma PlainAddressIsReprinted(s: string)
    requires IsPlainAddress(s) && ParseAddress(s).Ok?
    ensures PrintAddress(ParseAddress(s).value) == s
  {
    var k :| 0 <= k < |s| && s[k] == '.' && IsDecimal(s[..k]) && IsDecimal(s[k + 1..]);
    var first, second := s[..k], s[k + 1..];
    assert s == first + "." + second;
    ParsedParts(first, second);
    DecimalIsReprinted(first);
    DecimalIsReprinted(second);
  }

  /** An accepted address text is printed again as it was read exactly when it is two decimal numbers
      without superfluous zeros and one dot: the two operations are inverses in one direction only. */
  lemma ReprintedIffPlain(s: string)
    requires ParseAddress(s).Ok?
    ensures PrintAddress(ParseAddress(s).value) == s <==> IsPlainAddress(s)
  {
    if IsPlainAddress(s) {
      PlainAddressIsReprinted(s);
    } else {
      PrintedAddressIsPlain(ParseAddress(s).value);
    }
  }

  lemma LargeValues()
    ensures AllDigits("255") && AllDigits("256") && ValueOf("255") == 255 && ValueOf("256") == 256
  {
    assert "255"[..2] == "25" && "256"[..2] == "25" && "25"[..1] == "2" && "2"[..0] == "";
  }

  /** The largest address, and one beyond it. */
  lemma LargestAddress()
    ensures ParseAddress("255.255") == Ok(0xFFFF) && ParseAddress("255.256") == Err(OutOfRange)
  {
    assert "255.255" == "255" + "." + "255" && "255.256" == "255" + "." + "256";
    LargeValues();
    TwoRuns("255", "255");
    TwoRuns("255", "256");
    ExtractedTwo(["255", "255"]);
    ExtractedTwo(["255", "256"]);
  }

  /** A leading zero, for example. */
  lemma LeadingZeroIsLost()
    ensures ParseAddress("01.2") == Ok(Pack(1, 2)) && PrintAddress(Pack(1, 2)) != "01.2"
  {
    assert "01.2" == "01" + "." + "2";
    TwoRuns("01", "2");
    AddressTextAcceptedIff("01.2");
    assert PrintAddress(Pack(1, 2))[0] == '1';
  }

  // ---------- Subnets ----------

  datatype Subnet = Subnet(address: Address, mask: Address)

  predicate Contains(subnet: Subnet, a: Address) {
    BitAnd(a, subnet.mask) == BitAnd(subnet.address, subnet.mask)
  }

  /** `(0xFFFF << (16 - bits)) & 0xFFFF`. */
  function SlashMask(bits: nat): (mask: Address)
    requires bits <= 16
    ensures mask == Shl(Ones(bits), 16 - bits)
  {
    OnesValues();
    ShiftedOnes(16, 16 - bits, bits);
    ShlOnesBound(bits, 16 - bits);
    BitAnd(Shl(0xFFFF, 16 - bits), 0xFFFF)
  }

  /** `(0xFFFF << (8 - bits)) & 0x00FF`. */
  function BackslashMask(bits: nat): (mask: Address)
    requires bits <= 8
    ensures mask == Shl(Ones(bits), 8 - bits)
  {
    OnesValues();
    ShiftedOnes(16, 8 - bits, bits);
    ShlOnesBound(bits, 8 - bits);
    BitAnd(Shl(0xFFFF, 8 - bits), 0x00FF)
  }

  lemma LowByte(a: Address)
    ensures BitAnd(a, Ones(8)) == Component(a)
  {
    LowBits(a, 8);
    assert Pow2(4) == 0x10; assert Pow2(8) == 0x100;
  }

  lemma WholeAddress(a: Address)
    ensures BitAnd(a, Ones(16)) == a
  {
    OnesValues();
    AndOnesFits(a, 16);
  }

  lemma FieldMaskBits(a: nat, ones: nat, zeros: nat)
    ensures BitAnd(a, Shl(Ones(ones), zeros)) == Shl(Shr(BitAnd(a, Ones(ones + zeros)), zeros), zeros)
  {
    AndShifted(a, Ones(ones), zeros);
    ShrOfLowBits(a, ones, zeros);
  }

  /** A mask of ones in a field of the lowest bits compares the fields without their lowest bits. */
  lemma FieldMaskMeaning(subnet: Subnet, a: Address, ones: nat, zeros: nat)
    requires subnet.mask == Shl(Ones(ones), zeros)
    ensures Contains(subnet, a)
       <==> Shr(BitAnd(a, Ones(ones + zeros)), zeros) == Shr(BitAnd(subnet.address, Ones(ones + zeros)), zeros)
  {
    FieldMaskBits(a, ones, zeros);
    FieldMaskBits(subnet.address, ones, zeros);
    ShlInjective(Shr(BitAnd(a, Ones(ones + zeros)), zeros),
                 Shr(BitAnd(subnet.address, Ones(ones + zeros)), zeros), zeros);
  }

  /** A `/n` subnet holds exactly the addresses that share the quotient by 2^(16-n). */
  lemma SlashMeaning(subnet: Address, bits: nat, a: Address)
    requires bits <= 16
    ensures Contains(Subnet(subnet, SlashMask(bits)), a)
       <==> a / Pow2(16 - bits) == subnet / Pow2(16 - bits)
  {
    FieldMaskMeaning(Subnet(subnet, SlashMask(bits)), a, bits, 16 - bits);
    WholeAddress(a);
    WholeAddress(subnet);
    ShrIsQuotient(a, 16 - bits);
    ShrIsQuotient(subnet, 16 - bits);
  }

  /** A `\n` subnet looks at the component alone, and compares it by the quotient by 2^(8-n). */
  lemma BackslashMeaning(subnet: Address, bits: nat, a: Address)
    requires bits <= 8
    ensures Contains(Subnet(subnet, BackslashMask(bits)), a)
       <==> Component(a) / Pow2(8 - bits) == Component(subnet) / Pow2(8 - bits)
  {
    FieldMaskMeaning(Subnet(subnet, BackslashMask(bits)), a, bits, 8 - bits);
    LowByte(a);
    LowByte(subnet);
    ShrIsQuotient(Component(a), 8 - bits);
    ShrIsQuotient(Component(subnet), 8 - bits);
  }

  /** `/8` is about the system alone and `\8` about the component alone, and `/16` about both. */
  lemma WholeNumbers(subnet: Address, a: Address)
    ensures Contains(Subnet(subnet, SlashMask(8)), a) <==> System(a) == System(subnet)
    ensures Contains(Subnet(subnet, BackslashMask(8)), a) <==> Component(a) == Component(subnet)
    ensures Contains(Subnet(subnet, SlashMask(16)), a) <==> a == subnet
  {
    SlashMeaning(subnet, 8, a);
    BackslashMeaning(subnet, 8, a);
    SlashMeaning(subnet, 16, a);
    assert Pow2(4) == 0x10; assert Pow2(8) == 0x100;
  }

  /** `a` and the subnet's own address agree on every bit of the mask. */
  ghost predicate AgreeOnMask(subnet: Subnet, a: Address) {
    forall i: nat :: Bit(subnet.mask, i) ==> (Bit(a, i) <==> Bit(subnet.address, i))
  }

  lemma ContainsIffMaskedBitsAgree(subnet: Subnet, a: Address)
    ensures Contains(subnet, a) <==> AgreeOnMask(subnet, a)
  {
    var x, y := BitAnd(a, subnet.mask), BitAnd(subnet.address, subnet.mask);
    forall i: nat
      ensures Bit(x, i) <==> Bit(a, i) && Bit(subnet.mask, i)
    {
      AndBits(a, subnet.mask, i);
    }
    forall i: nat
      ensures Bit(y, i) <==> Bit(subnet.address, i) && Bit(subnet.mask, i)
    {
      AndBits(subnet.address, subnet.mask, i);
    }
    if AgreeOnMask(subnet, a) {
      SameBits(x, y);
    }
    if x == y {
      forall i: nat | Bit(subnet.mask, i) ensures Bit(a, i) <==> Bit(subnet.address, i) {
        assert Bit(x, i) <==> Bit(y, i);
      }
    }
  }
}
