/** Integer and string conversions as section 7.21.6.1 of ISO/IEC 9899:2011 describes them, and
    exactly when common/libc/vsnprintf.c prints the same. What the standard leaves
    undefined ('#' in base 10) has no effect here, as in the code. */
module FormatStandard {
  import opened Arith
  import opened Options
  import opened FormatText
  import opened FormatSpec
  import opened FormatGrammar

  // ----- the standard's text -----

  /** No digits for the value 0 with the precision 0, which a bare '.' stands for. */
  function PlainDigits(val: int, base: int, precision: int, f: Flags): string
    requires ValidBase(base)
  {
    if Magnitude(val, f.signed) == 0 && precision == 0 then "" else DigitsText(val, base, precision, f)
  }

  /** '#' makes octal digits start with a zero, if they do not yet. */
  function StandardDigits(val: int, base: int, precision: int, f: Flags): string
    requires ValidBase(base)
  {
    var digits := PlainDigits(val, base, precision, f);
    if f.alternate && base == 8 && (digits == "" || digits[0] != '0') then "0" + digits else digits
  }

  /** '#' puts 0x, or 0X for upper case, before hexadecimal digits other than zero. */
  function StandardPrefix(val: int, base: int, f: Flags): string {
    if f.alternate && base == 16 && Magnitude(val, f.signed) != 0 then (if f.upper then "0X" else "0x") else ""
  }

  /** Sign and prefix before the digits, in a field that is padded with blanks on the left,
      or on the right with '-', or, with '0' and neither '-' nor a precision, with zeros
      behind the prefix. */
  function StandardText(val: int, base: int, width: int, precision: int, f: Flags): string
    requires ValidBase(base)
  {
    var sign := if !f.signed then "" else if val < 0 then "-" else if f.plus then "+" else if f.space then " " else "";
    var lead, digits := sign + StandardPrefix(val, base, f), StandardDigits(val, base, precision, f);
    var pad := width - |lead| - |digits|;
    if f.left then lead + digits + Repeat(' ', pad)
    else if f.zero && precision < 0 then lead + Repeat('0', pad) + digits
    else Repeat(' ', pad) + lead + digits
  }

  lemma StandardTextIs(val: int, base: int, width: int, precision: int, f: Flags)
    requires ValidBase(base) && precision >= -1
    ensures StandardText(val, base, width, precision, f)
         == Field(SignText(val, f) + StandardPrefix(val, base, f), StandardDigits(val, base, precision, f), width,
                  precision, f)
  {
  }

  // ----- when the code prints it -----

  /** The precision that the code works with: it does not know a bare '.'. */
  function CodePrecision(bare: bool, precision: int): int { if bare then -1 else precision }

  function PrintedDigits(val: int, base: int, f: Flags): nat
    requires ValidBase(base)
  {
    |SignText(val, f)| + |BaseText(base, f)| + |Digits(Magnitude(val, f.signed), base, f.upper)|
  }

  /** The directives and values for which the code follows the standard. A zero with
      octal '#' comes out as two zeros, which is right only inside zero padding. */
  predicate Conforms(val: int, base: int, width: int, precision: int, bare: bool, f: Flags)
    requires ValidBase(base)
  {
    var zero := Magnitude(val, f.signed) == 0;
    && !(zero && precision == 0)
    && !(bare && f.zero && !f.left && width > PrintedDigits(val, base, f))
    && (f.alternate && base == 16 ==> !zero && !f.upper)
    && (f.alternate && base == 8 ==>
          if zero then precision == -1 && f.zero && !f.left && width >= |SignText(val, f)| + 2
          else precision <= |Digits(Magnitude(val, f.signed), base, f.upper)|)
  }

  /** How often `c` occurs. */
  function Count(s: string, c: char): nat { multiset(s)[c] }

  lemma {:induction false} CountRepeat(x: char, n: int, c: char)
    ensures Count(Repeat(x, n), c) == if x == c then Max(n, 0) else 0
    decreases Max(n, 0)
  {
    if n > 0 {
      CountRepeat(x, n - 1, c);
    }
  }

  /** Length, blanks and x's of a field: enough to tell the two texts apart. */
  lemma FieldCounts(lead: string, digits: string, width: int, precision: int, f: Flags)
    ensures var s := Field(lead, digits, width, precision, f);
            var pad := Max(width - |lead| - |digits|, 0);
            && |s| == |lead| + |digits| + pad
            && Count(s, ' ') == Count(lead, ' ') + Count(digits, ' ') + (if ZeroPadded(precision, f) then 0 else pad)
            && Count(s, 'x') == Count(lead, 'x') + Count(digits, 'x')
  {
    hide Repeat;
    var pad := width - |lead| - |digits|;
    CountRepeat(' ', pad, ' ');
    CountRepeat(' ', pad, 'x');
    CountRepeat('0', pad, ' ');
    CountRepeat('0', pad, 'x');
  }

  lemma NotAmongDigits(s: string, c: char)
    requires !IsHexDigit(c) && forall d :: d in s ==> IsHexDigit(d)
    ensures Count(s, c) == 0
  {
    hide IsHexDigit;
  }

  /** Neither text has a blank or an x among its digits. */
  lemma DigitCounts(val: int, base: int, precision: int, bare: bool, f: Flags)
    requires ValidBase(base)
    ensures forall c | c in {' ', 'x'} ::
              && Count(DigitsText(val, base, CodePrecision(bare, precision), f), c) == 0
              && Count(StandardDigits(val, base, precision, f), c) == 0
  {
    hide DigitsText;
    DigitsTextDenotes(val, base, CodePrecision(bare, precision), f);
    DigitsTextDenotes(val, base, precision, f);
    forall c | c in {' ', 'x'}
      ensures Count(DigitsText(val, base, CodePrecision(bare, precision), f), c) == 0
      ensures Count(StandardDigits(val, base, precision, f), c) == 0
    {
      assert !IsHexDigit(c) && IsHexDigit('0');
      NotAmongDigits(DigitsText(val, base, CodePrecision(bare, precision), f), c);
      NotAmongDigits(StandardDigits(val, base, precision, f), c);
    }
  }

  /** Lengths of the digits, and what they start with. */
  lemma DigitLengths(val: int, base: int, precision: int, bare: bool, f: Flags)
    requires ValidBase(base) && (if bare then precision == 0 else precision >= -1)
    ensures var n := Magnitude(val, f.signed);
            var digits := Digits(n, base, f.upper);
            var code := DigitsText(val, base, CodePrecision(bare, precision), f);
            var text := DigitsText(val, base, precision, f);
            && |text| == |code| == Max(|digits|, precision)
            && text == code
            && (n == 0 ==> digits == "0")
            && (text[0] == '0' <==> n == 0 || precision > |digits|)
  {
    hide Digits;
    DigitsShape(Magnitude(val, f.signed), base, f.upper);
  }

  lemma CountConcat(s: string, t: string, c: char)
    ensures Count(s + t, c) == Count(s, c) + Count(t, c)
  {
  }

  lemma PrefixCounts()
    ensures Count("0x", 'x') == 1 && Count("0X", 'x') == Count("0", 'x') == Count("", 'x') == 0
    ensures Count("0x", ' ') == Count("0X", ' ') == Count("0", ' ') == Count("", ' ') == 0
    ensures Count("+", 'x') == Count("-", 'x') == Count(" ", 'x') == 0
  {
    assert multiset("0x") == multiset{'0', 'x'} && multiset("0X") == multiset{'0', 'X'};
  }

  lemma LeadCounts(val: int, base: int, f: Flags)
    ensures var code, text := SignText(val, f) + BaseText(base, f), SignText(val, f) + StandardPrefix(val, base, f);
            && Count(code, ' ') == Count(text, ' ')
            && Count(code, 'x') == (if f.alternate && base == 16 then 1 else 0)
            && Count(text, 'x')
            == (if f.alternate && base == 16 && Magnitude(val, f.signed) != 0 && !f.upper then 1 else 0)
  {
    hide Count, Magnitude;
    PrefixCounts();
    forall c | c in {' ', 'x'}
      ensures Count(SignText(val, f) + BaseText(base, f), c) == Count(SignText(val, f), c) + Count(BaseText(base, f), c)
      ensures Count(SignText(val, f) + StandardPrefix(val, base, f), c)
           == Count(SignText(val, f), c) + Count(StandardPrefix(val, base, f), c)
    {
      CountConcat(SignText(val, f), BaseText(base, f), c);
      CountConcat(SignText(val, f), StandardPrefix(val, base, f), c);
    }
  }

  /** Where the code departs, the texts have different lengths, blanks or x's. */
  lemma DepartingTextsDiffer(val: int, base: int, width: int, precision: int, bare: bool, f: Flags)
    requires ValidBase(base) && (if bare then precision == 0 else precision >= -1)
    requires !Conforms(val, base, width, precision, bare, f)
    ensures NumberText(val, base, width, CodePrecision(bare, precision), f)
         != StandardText(val, base, width, precision, f)
  {
    hide Field, DigitsText, Digits, Count, SignText;
    StandardTextIs(val, base, width, precision, f);
    var sign := SignText(val, f);
    DigitLengths(val, base, precision, bare, f);
    DigitCounts(val, base, precision, bare, f);
    LeadCounts(val, base, f);
    FieldCounts(sign + BaseText(base, f), DigitsText(val, base, CodePrecision(bare, precision), f), width,
                CodePrecision(bare, precision), f);
    FieldCounts(sign + StandardPrefix(val, base, f), StandardDigits(val, base, precision, f), width, precision, f);
  }

  lemma ZeroThenZeros(n: int)
    ensures Repeat('0', n) + "0" == "0" + Repeat('0', n)
  {
    if n > 0 {
      RepeatEnd('0', n + 1);
      assert Repeat('0', n + 1) == "0" + Repeat('0', n);
    }
  }

  /** The zero that octal '#' adds, before or behind the zeros of the padding. */
  lemma OctalZero(sign: string, digits: string, width: int, precision: int, f: Flags)
    ensures Field(sign + "0", digits, width, precision, f) == Field(sign, "0" + digits, width, precision, f)
  {
    hide Repeat;
    var pad := width - |sign| - 1 - |digits|;
    if !f.left && ZeroPadded(precision, f) {
      ZeroThenZeros(pad);
      assert sign + "0" + Repeat('0', pad) + digits == sign + ("0" + Repeat('0', pad)) + digits;
      assert sign + Repeat('0', pad) + ("0" + digits) == sign + (Repeat('0', pad) + "0") + digits;
    } else {
      assert (sign + "0") + digits == sign + ("0" + digits);
      assert Repeat(' ', pad) + (sign + "0") + digits == Repeat(' ', pad) + sign + ("0" + digits);
    }
  }

  /** Inside zero padding, the second zero of octal '#' takes the place of a padding zero. */
  lemma PaddedZero(sign: string, width: int, f: Flags)
    requires ZeroPadded(-1, f) && width >= |sign| + 2
    ensures Field(sign + "0", "0", width, -1, f) == Field(sign, "0", width, -1, f)
  {
    var zeros := Repeat('0', width - |sign| - 2);
    ZeroThenZeros(width - |sign| - 2);
    assert Repeat('0', width - |sign| - 1) == "0" + zeros;
    assert (sign + "0") + zeros + "0" == sign + ("0" + zeros) + "0";
  }

  /** A precision that rules out zero padding makes no difference where there is none. */
  lemma UnpaddedFields(lead: string, digits: string, width: int, p: int, q: int, f: Flags)
    requires ZeroPadded(p, f) == ZeroPadded(q, f) || width <= |lead| + |digits|
    ensures Field(lead, digits, width, p, f) == Field(lead, digits, width, q, f)
  {
  }

  lemma ConformingTextsAgree(val: int, base: int, width: int, precision: int, bare: bool, f: Flags)
    requires ValidBase(base) && (if bare then precision == 0 else precision >= -1)
    requires Conforms(val, base, width, precision, bare, f)
    ensures NumberText(val, base, width, CodePrecision(bare, precision), f)
         == StandardText(val, base, width, precision, f)
  {
    hide Field, DigitsText, Digits, SignText;
    StandardTextIs(val, base, width, precision, f);
    var sign := SignText(val, f);
    var text := DigitsText(val, base, precision, f);
    DigitLengths(val, base, precision, bare, f);
    UnpaddedFields(sign + BaseText(base, f), text, width, CodePrecision(bare, precision), precision, f);
    if f.alternate && base == 8 {
      if Magnitude(val, f.signed) == 0 {
        assert text == "0" by { assert |text| == 1 && text[0] == '0'; }
        PaddedZero(sign, width, f);
      } else {
        OctalZero(sign, text, width, precision, f);
      }
    }
    assert sign + "" == sign;
  }

  /** Main result: for every value, base, width, precision and flags, the code prints
      what the standard prescribes if and only if the directive conforms. */
  lemma NumberMeetsStandardIff(val: int, base: int, width: int, precision: int, bare: bool, f: Flags)
    requires ValidBase(base) && (if bare then precision == 0 else precision >= -1)
    ensures NumberText(val, base, width, CodePrecision(bare, precision), f)
         == StandardText(val, base, width, precision, f)
         <==> Conforms(val, base, width, precision, bare, f)
  {
    hide NumberText, StandardText, Conforms;
    if Conforms(val, base, width, precision, bare, f) {
      ConformingTextsAgree(val, base, width, precision, bare, f);
    } else {
      DepartingTextsDiffer(val, base, width, precision, bare, f);
    }
  }

  // ----- directives -----

  function Bits(mod: LengthMod, env: Env): (r: nat)
    requires ValidEnv(env)
    ensures r in {8, 16, 32, 64}
  {
    match mod
    case ModH2 => 8
    case ModH => 16
    case ModI => 32
    case ModZ => env.longBits
    case ModL => env.longBits
    case ModL2 => 64
  }

  /** The argument as the type that its conversion and its length modifier name. */
  function StandardArg(v: int, mod: LengthMod, signed: bool, env: Env): int
    requires ValidEnv(env)
  {
    if signed then Signed(v, Bits(mod, env)) else Unsigned(v, Bits(mod, env))
  }

  /** %zd takes a size_t for what is signed: a negative value is lost where that has 32 bits. */
  predicate LosesSign(v: int, mod: LengthMod, signed: bool, env: Env) {
    signed && mod == ModZ && env.longBits == 32 && Signed(v, 32) < 0
  }

  lemma SignedWidens(v: int, bits: nat)
    requires bits in {8, 16, 32, 64}
    ensures Signed(Signed(v, bits), 64) == Signed(v, bits)
    ensures Signed(v, bits) >= 0 ==> Signed(Unsigned(v, bits), 64) == Signed(v, bits)
    ensures Signed(Unsigned(v, 64), 64) == Signed(v, 64)
  {
  }

  lemma UnsignedKept(x: int)
    requires 0 <= x < U64
    ensures Magnitude(Signed(x, 64), false) == Magnitude(x, false)
  {
  }

  lemma UnsignedFits(v: int, bits: nat)
    requires bits in {8, 16, 32, 64}
    ensures 0 <= Unsigned(v, bits) < U64
  {
  }

  lemma ArgumentsAgree(v: int, mod: LengthMod, signed: bool, env: Env)
    requires ValidEnv(env) && !LosesSign(v, mod, signed, env)
    ensures var code, text := NumArg(v, mod, signed, env), StandardArg(v, mod, signed, env);
            Magnitude(code, signed) == Magnitude(text, signed) && (signed ==> code == text)
  {
    hide Signed, Unsigned, Magnitude;
    SignedWidens(v, Bits(mod, env));
    if !signed {
      UnsignedFits(v, Bits(mod, env));
      UnsignedKept(Unsigned(v, Bits(mod, env)));
    }
  }

  /** Printing an argument and reading it back in the base that the conversion names,
      whatever the directive: the argument, as its type, exactly when it does not lose
      its sign. */
  lemma ArgumentRoundTrip(c: char, v: int, width: int, precision: int, mod: LengthMod, f: Flags, env: Env)
    requires IsNumber(c) && ValidEnv(env)
    ensures var signed := c == 'd' || c == 'i';
            var base := if c == 'o' then 8 else if c == 'x' || c == 'X' then 16 else 10;
            ReadNumber(Trim(IntText(c, v, width, precision, mod, f, env)), base) == StandardArg(v, mod, signed, env)
            <==> !LosesSign(v, mod, signed, env)
  {
    hide ReadNumber, Trim, NumberText;
    var g := ConversionFlags(f, c);
    NumberRoundTrip(NumArg(v, mod, g.signed, env), BaseOf(c), width, precision, g);
    if !LosesSign(v, mod, g.signed, env) {
      ArgumentsAgree(v, mod, g.signed, env);
    }
  }

  /** The letters among the digits are small for %x, capital for %X, and there are none
      otherwise. */
  lemma LettersOfConversion(c: char, v: int, width: int, precision: int, mod: LengthMod, f: Flags, env: Env)
    requires IsNumber(c) && ValidEnv(env)
    ensures forall k :: k in IntText(c, v, width, precision, mod, f, env) ==>
              && ('a' <= k <= 'f' ==> c == 'x') && ('A' <= k <= 'F' ==> c == 'X')
  {
    hide Repeat, Digits, Field, SignText, BaseText, NumArg, Magnitude;
    var g := ConversionFlags(f, c);
    var val := NumArg(v, mod, g.signed, env);
    var digits := Digits(Magnitude(val, g.signed), BaseOf(c), g.upper);
    DigitsShape(Magnitude(val, g.signed), BaseOf(c), g.upper);
    LeadHasNoLetters(val, BaseOf(c), g);
    LettersOfField(SignText(val, g) + BaseText(BaseOf(c), g), Repeat('0', precision - |digits|) + digits, width,
                   precision, g);
  }

  lemma LeadHasNoLetters(val: int, base: int, f: Flags)
    ensures forall k :: k in SignText(val, f) + BaseText(base, f) ==> !('a' <= k <= 'f') && !('A' <= k <= 'F')
  {
  }

  lemma LettersOfField(lead: string, digits: string, width: int, precision: int, f: Flags)
    ensures forall k :: k in Field(lead, digits, width, precision, f) ==> k in lead || k in digits || k in {' ', '0'}
  {
    hide Repeat;
    assert forall c: char, n: int, k :: k in Repeat(c, n) ==> k == c;
  }

  function StandardPrecision(precision: PrecisionSpec, args: seq<Arg>, a: nat): (r: int)
    ensures r >= -1
  {
    if precision.BareDot? then 0 else PrecisionOf(precision, args, a)
  }

  /** What the standard prescribes for an integer conversion of the argument `v`. */
  function StandardIntText(c: char, v: int, width: int, precision: int, mod: LengthMod, f: Flags, env: Env): string
    requires IsNumber(c) && ValidEnv(env)
  {
    var base := if c == 'o' then 8 else if c == 'x' || c == 'X' then 16 else 10;
    var g := f.(signed := c == 'd' || c == 'i', upper := c == 'X');
    StandardText(StandardArg(v, mod, g.signed, env), base, width, precision, g)
  }

  /** A negative number that comes out positive is not what the standard prescribes. */
  lemma LostSignDiffers(val: int, lost: int, width: int, precision: int, p: int, f: Flags)
    requires IsInt64(val) && IsInt64(lost) && f.signed && val < 0 <= lost && precision >= -1
    ensures NumberText(lost, 10, width, p, f) != StandardText(val, 10, width, precision, f)
  {
    hide ReadNumber, Trim, Field, DigitsText;
    StandardTextIs(val, 10, width, precision, f);
    NumberRoundTrip(lost, 10, width, p, f);
    NumberRoundTrip(val, 10, width, precision, f);
    assert StandardText(val, 10, width, precision, f) == NumberText(val, 10, width, precision, f);
  }

  lemma ArgumentRanges(v: int, mod: LengthMod, signed: bool, env: Env)
    requires ValidEnv(env)
    ensures signed ==> IsInt64(StandardArg(v, mod, signed, env)) && IsInt64(NumArg(v, mod, signed, env))
    ensures LosesSign(v, mod, signed, env) ==>
              signed && StandardArg(v, mod, signed, env) < 0 <= NumArg(v, mod, signed, env)
  {
  }

  lemma IntMeetsStandardIff(c: char, v: int, width: int, precision: int, bare: bool, mod: LengthMod, f: Flags, env: Env)
    requires IsNumber(c) && ValidEnv(env) && (if bare then precision == 0 else precision >= -1)
    ensures var g := ConversionFlags(f, c);
            IntText(c, v, width, CodePrecision(bare, precision), mod, f, env)
            == StandardIntText(c, v, width, precision, mod, f, env)
            <==> !LosesSign(v, mod, g.signed, env)
                 && Conforms(StandardArg(v, mod, g.signed, env), BaseOf(c), width, precision, bare, g)
  {
    hide StandardText, Conforms, Field, Digits, Signed, Unsigned, LosesSign, NumArg, StandardArg;
    var g := ConversionFlags(f, c);
    ArgumentRanges(v, mod, g.signed, env);
    var code, text := NumArg(v, mod, g.signed, env), StandardArg(v, mod, g.signed, env);
    if LosesSign(v, mod, g.signed, env) {
      LostSignDiffers(text, code, width, precision, CodePrecision(bare, precision), g);
    } else {
      ArgumentsAgree(v, mod, g.signed, env);
      assert NumberText(code, BaseOf(c), width, CodePrecision(bare, precision), g)
          == NumberText(text, BaseOf(c), width, CodePrecision(bare, precision), g);
      NumberMeetsStandardIff(text, BaseOf(c), width, precision, bare, g);
    }
  }

  /** Every integer directive of the grammar, with all that its '*'s take from the
      arguments, prints what the standard prescribes if and only if it conforms. */
  lemma DirectiveMeetsStandardIff(d: Item, args: seq<Arg>, a: nat, crlf: bool, env: Env)
    requires ValidItem(d) && d.Directive? && d.conv.Number? && ValidEnv(env)
    ensures var a1 := AfterStar(d.width.StarWidth?, a);
            var a2 := AfterStar(d.precision.StarPrecision?, a1);
            var w, q := WidthOf(d.width, args, a), StandardPrecision(d.precision, args, a1);
            var f, v := FlagsOf(d.flags, d.width, args, a), IntArg(args, a2);
            var g := ConversionFlags(f, d.conv.c);
            Meaning(d, args, a, crlf, env).0 == StandardIntText(d.conv.c, v, w, q, d.mod, f, env)
            <==> !LosesSign(v, d.mod, g.signed, env)
                 && Conforms(StandardArg(v, d.mod, g.signed, env), BaseOf(d.conv.c), w, q, d.precision.BareDot?, g)
  {
    hide IntText, StandardIntText, Conforms, LosesSign, WidthOf, FlagsOf, Signed;
    var a1 := AfterStar(d.width.StarWidth?, a);
    var a2 := AfterStar(d.precision.StarPrecision?, a1);
    IntMeetsStandardIff(d.conv.c, IntArg(args, a2), WidthOf(d.width, args, a), StandardPrecision(d.precision, args, a1),
                        d.precision.BareDot?, d.mod, FlagsOf(d.flags, d.width, args, a), env);
  }

  // ----- one departure of each kind -----

  const ALTERNATE := Flags(false, false, false, true, false, false, false)
  const SIGNED := Flags(false, false, false, false, false, false, true)

  lemma OneDigit(val: nat, base: int, upper: bool)
    requires ValidBase(base) && val < base
    ensures Digits(val, base, upper) == [DigitChar(val, upper)]
  {
  }

  lemma DigitsTextIs(val: nat, base: int, precision: int, f: Flags)
    requires ValidBase(base) && val < base && precision <= 1
    ensures DigitsText(val, base, precision, f) == [DigitChar(val, f.upper)]
  {
    hide Digits, DigitChar;
    OneDigit(val, base, f.upper);
    assert Magnitude(val, f.signed) == val;
    assert Repeat('0', precision - 1) == "";
  }

  /** A field without a width. */
  lemma FieldIs(lead: string, digits: string, p: int, f: Flags)
    ensures Field(lead, digits, -1, p, f) == lead + digits
  {
  }

  /** "%.d" of 0, where the code sees no precision. */
  lemma BareDotOfZero()
    ensures NumberText(0, 10, -1, CodePrecision(true, 0), SIGNED) == "0" && StandardText(0, 10, -1, 0, SIGNED) == ""
  {
    hide Field, DigitsText;
    StandardTextIs(0, 10, -1, 0, SIGNED);
    DigitsTextIs(0, 10, -1, SIGNED);
    FieldIs("", "0", -1, SIGNED);
    FieldIs("", "", 0, SIGNED);
  }

  /** "%02.d" of 7: the precision should have ruled out the zero padding. */
  lemma BareDotPadded()
    ensures NumberText(7, 10, 2, CodePrecision(true, 0), SIGNED.(zero := true)) == "07"
    ensures StandardText(7, 10, 2, 0, SIGNED.(zero := true)) == " 7"
  {
    hide DigitsText, Repeat;
    StandardTextIs(7, 10, 2, 0, SIGNED.(zero := true));
    DigitsTextIs(7, 10, -1, SIGNED.(zero := true));
    DigitsTextIs(7, 10, 0, SIGNED.(zero := true));
    RepeatOnce('0');
    RepeatOnce(' ');
  }

  lemma RepeatOnce(c: char)
    ensures Repeat(c, 1) == [c]
  {
  }

  /** "%.0d" of 0. */
  lemma ZeroPrecisionOfZero()
    ensures NumberText(0, 10, -1, 0, SIGNED) == "0" && StandardText(0, 10, -1, 0, SIGNED) == ""
  {
    hide Field, DigitsText;
    StandardTextIs(0, 10, -1, 0, SIGNED);
    DigitsTextIs(0, 10, 0, SIGNED);
    FieldIs("", "0", 0, SIGNED);
    FieldIs("", "", 0, SIGNED);
  }

  /** "%#o" of 0. */
  lemma AlternateOctalOfZero()
    ensures NumberText(0, 8, -1, -1, ALTERNATE) == "00" && StandardText(0, 8, -1, -1, ALTERNATE) == "0"
  {
    hide Field, DigitsText;
    StandardTextIs(0, 8, -1, -1, ALTERNATE);
    DigitsTextIs(0, 8, -1, ALTERNATE);
    assert "" + "0" == "0";
    FieldIs("0", "0", -1, ALTERNATE);
    FieldIs("" + "", "0", -1, ALTERNATE);
  }

  /** "%#.2o" of 1: there is a leading zero without the prefix. */
  lemma AlternateOctalWithPrecision()
    ensures NumberText(1, 8, -1, 2, ALTERNATE) == "001" && StandardText(1, 8, -1, 2, ALTERNATE) == "01"
  {
    hide Field, Digits, Repeat;
    StandardTextIs(1, 8, -1, 2, ALTERNATE);
    OneDigit(1, 8, false);
    RepeatOnce('0');
    assert DigitsText(1, 8, 2, ALTERNATE) == "01";
    assert "" + "0" == "0";
    FieldIs("0", "01", 2, ALTERNATE);
    FieldIs("" + "", "01", 2, ALTERNATE);
  }

  /** "%#x" of 0. */
  lemma AlternateHexOfZero()
    ensures NumberText(0, 16, -1, -1, ALTERNATE) == "0x0" && StandardText(0, 16, -1, -1, ALTERNATE) == "0"
  {
    hide Field, DigitsText;
    StandardTextIs(0, 16, -1, -1, ALTERNATE);
    DigitsTextIs(0, 16, -1, ALTERNATE);
    assert "" + "0x" == "0x";
    FieldIs("0x", "0", -1, ALTERNATE);
    FieldIs("" + "", "0", -1, ALTERNATE);
  }

  /** "%#X" of 10. */
  lemma AlternateUpperHex()
    ensures NumberText(10, 16, -1, -1, ALTERNATE.(upper := true)) == "0xA"
    ensures StandardText(10, 16, -1, -1, ALTERNATE.(upper := true)) == "0XA"
  {
    hide Field, DigitsText;
    StandardTextIs(10, 16, -1, -1, ALTERNATE.(upper := true));
    DigitsTextIs(10, 16, -1, ALTERNATE.(upper := true));
    assert "" + "0x" == "0x";
    FieldIs("0x", "A", -1, ALTERNATE.(upper := true));
    assert "" + "0X" == "0X";
    FieldIs("0X", "A", -1, ALTERNATE.(upper := true));
  }

  /** "%zd" of -1 where size_t has 32 bits. */
  lemma NegativeSize()
    ensures LosesSign(-1, ModZ, true, Env(32, v => ""))
    ensures NumArg(-1, ModZ, true, Env(32, v => "")) == 0xFFFF_FFFF
    ensures StandardArg(-1, ModZ, true, Env(32, v => "")) == -1
  {
  }

  // ----- strings -----

  /** What the standard asks of the text of a string conversion: as many characters of
      the string as the precision admits, which a bare '.' makes 0, at the end or, with
      '-', at the start of a field that is otherwise blank, and no wider than it has to be. */
  predicate StandardString(text: string, s: string, width: int, precision: int, f: Flags) {
    var n := if precision < 0 then |s| else Min(precision, |s|);
    && |text| == Max(width, n)
    && var start := if f.left then 0 else |text| - n;
    && text[start..start + n] == s[..n]
    && AllBlank(text[..start]) && AllBlank(text[start + n..])
  }

  predicate AllBlank(s: string) { forall k :: 0 <= k < |s| ==> s[k] == ' ' }

  /** The standard leaves no choice. */
  lemma StandardStringUnique(text: string, other: string, s: string, width: int, precision: int, f: Flags)
    requires StandardString(text, s, width, precision, f) && StandardString(other, s, width, precision, f)
    ensures text == other
  {
    var n := if precision < 0 then |s| else Min(precision, |s|);
    var start := if f.left then 0 else |text| - n;
    assert text == text[..start] + text[start..start + n] + text[start + n..];
    assert other == other[..start] + other[start..start + n] + other[start + n..];
    assert text[..start] == other[..start] && text[start + n..] == other[start + n..];
  }

  /** Blanks on either side of the text. */
  lemma PaddedParts(text: string, pad: string)
    ensures (text + pad)[..0] == "" && (text + pad)[..|text|] == text && (text + pad)[|text|..] == pad
    ensures (pad + text)[..|pad|] == pad && (pad + text)[|pad|..] == text && (pad + text)[|pad| + |text|..] == ""
  {
  }

  lemma StringPadded(s: string, width: int, precision: int, f: Flags)
    requires precision >= -1
    ensures StandardString(StringText(Some(s), width, precision, f, false), s, width, precision, f)
  {
    hide Repeat;
    var n := if precision < 0 then |s| else Min(precision, |s|);
    var pad := Repeat(' ', width - n);
    assert Selected(Some(s), precision) == s[..n];
    assert StringText(Some(s), width, precision, f, false) == if f.left then s[..n] + pad else pad + s[..n];
    PaddedParts(s[..n], pad);
  }

  /** A bare '.' should suppress a string; the code prints it, which is the same only
      for a string of blanks that lies inside the padding. */
  lemma StringMeetsStandardIff(s: string, width: int, precision: int, bare: bool, f: Flags)
    requires if bare then precision == 0 else precision >= -1
    ensures StandardString(StringText(Some(s), width, CodePrecision(bare, precision), f, false), s, width, precision, f)
         <==> (bare ==> |s| <= Max(width, 0) && AllBlank(s))
  {
    hide Repeat;
    if !bare {
      StringPadded(s, width, precision, f);
    } else {
      var text := StringText(Some(s), width, -1, f, false);
      var pad := Repeat(' ', width - |s|);
      assert text == if f.left then s + pad else pad + s;
      SuppressedString(text, s, width, f);
      if AllBlank(text) {
        forall k | 0 <= k < |s| ensures s[k] == ' ' {
          assert (s + pad)[k] == s[k] && (pad + s)[|pad| + k] == s[k];
        }
      }
    }
  }

  /** No character of the string may be printed. */
  lemma SuppressedString(text: string, s: string, width: int, f: Flags)
    ensures StandardString(text, s, width, 0, f) <==> |text| == Max(width, 0) && AllBlank(text)
  {
    assert text[..|text|] == text && text[0..] == text;
  }

  /** A character conversion prints one character, whose code is the argument modulo 256. */
  lemma CharMeetsStandard(v: int, width: int, f: Flags)
    ensures StandardString(CharText(CharOf(v), width, f, false), [Unsigned(v, 8) as char], width, -1, f)
  {
    hide Repeat;
    var s, pad := [Unsigned(v, 8) as char], Repeat(' ', width - 1);
    assert s[..1] == s && (s + pad)[..1] == s && (s + pad)[1..] == pad;
    assert (pad + s)[|pad|..] == s && (pad + s)[..|pad|] == pad;
  }

  /** A null string is printed as this one. */
  lemma NullString(width: int, precision: int, f: Flags, crlf: bool)
    ensures StringText(None, width, precision, f, crlf) == StringText(Some("(NULL)"), width, precision, f, crlf)
  {
  }

  // ----- pointers -----

  predicate IsLowerHex(c: char) { '0' <= c <= '9' || 'a' <= c <= 'f' }

  /** Digits with zeros on the left, and nothing else. */
  lemma ZeroFilled(val: int, width: nat, f: Flags)
    requires IsInt64(val) && f.zero && !f.left && !f.alternate && !f.signed && !f.upper
    requires |Digits(Magnitude(val, false), 16, false)| <= width
    ensures var text := NumberText(val, 16, width, -1, f);
            && |text| == width && (forall c :: c in text ==> IsLowerHex(c))
            && ValueOf(text, 16) == val % U64
  {
    hide Repeat, Digits, ValueOf;
    var digits := Digits(Magnitude(val, false), 16, false);
    DigitsShape(Magnitude(val, false), 16, false);
    DigitsDenote(Magnitude(val, false), 16, false);
    assert Repeat('0', -1 - |digits|) + digits == digits;
    LeadingZeros(width - |digits|, digits, 16);
    assert NumberText(val, 16, width, -1, f) == Repeat('0', width - |digits|) + digits;
  }

  /** A pointer denotes its address, and without width, precision and flags it is printed
      with all its digits. */
  lemma AddressRoundTrip(addr: nat, width: int, precision: int, f: Flags, env: Env)
    requires ValidEnv(env) && !f.signed
    ensures ReadNumber(Trim(AddressText(addr, width, precision, f, env)), 16) == Unsigned(addr, env.longBits)
    ensures width == precision == -1 && f == NO_FLAGS ==>
              var text := AddressText(addr, width, precision, f, env);
              && |text| == (if env.longBits == 32 then 8 else 16) && (forall c :: c in text ==> IsLowerHex(c))
              && ValueOf(text, 16) == Unsigned(addr, env.longBits)
  {
    hide ReadNumber, Trim, NumberText, ValueOf, Digits;
    var val := Signed(Unsigned(addr, env.longBits), 64);
    var g := if width == -1 then f.(zero := true) else f;
    NumberRoundTrip(val, 16, if width == -1 then env.longBits / 4 else width, precision, g);
    if width == precision == -1 && f == NO_FLAGS {
      AddressDigits(Unsigned(addr, env.longBits), env);
      ZeroFilled(val, env.longBits / 4, g);
    }
  }

  /** A pointer is printed like the long that it is by %lx, and, without a width, as wide as
      a pointer has digits, filled with zeros. */
  lemma AddressIsLongHex(addr: nat, width: int, precision: int, f: Flags, env: Env)
    requires ValidEnv(env) && !f.signed && !f.upper
    ensures width != -1 ==>
              AddressText(addr, width, precision, f, env) == IntText('x', addr, width, precision, ModL, f, env)
    ensures AddressText(addr, -1, precision, f, env)
         == IntText('x', addr, if env.longBits == 32 then 8 else 16, precision, ModL, f.(zero := true), env)
  {
    hide NumberText, Signed, Unsigned;
    assert ConversionFlags(f, 'x') == f && ConversionFlags(f.(zero := true), 'x') == f.(zero := true);
  }

  lemma AddressDigits(n: nat, env: Env)
    requires ValidEnv(env) && n < Range(env.longBits)
    ensures |Digits(n, 16, false)| <= env.longBits / 4
  {
    hide Digits;
    assert Pow(16, 8) == 0x1_0000_0000 by { assert Pow(16, 4) == 0x1_0000; PowSum(16, 4, 4); }
    PowSum(16, 8, 8);
    DigitsLength(n, 16, false, env.longBits / 4);
  }

  // ----- hex dumps -----

  /** A byte is two digits that denote it. */
  lemma ByteTextIs(b: byte)
    ensures |ByteText(b)| == 2 && (forall c :: c in ByteText(b) ==> IsLowerHex(c)) && ValueOf(ByteText(b), 16) == b
  {
    hide NumberText, ValueOf, Digits;
    assert Pow(16, 2) == 256;
    DigitsLength(b, 16, false, 2);
    ZeroFilled(b, 2, Flags(false, false, false, false, true, false, false));
  }

  lemma {:induction false} HexTextAt(mem: nat -> byte, i: nat, n: nat, sep: string, k: nat)
    requires k < n
    ensures var (text, step) := (HexText(mem, i, n, sep), 2 + |sep|);
            && |text| == n * step - |sep| && StandsAt(text, k * step, ByteText(mem(i + k)))
            && (k + 1 < n ==> StandsAt(text, k * step + 2, sep))
    decreases n
  {
    hide ByteText, ValueOf, IsLowerHex;
    ByteTextIs(mem(i));
    var step := 2 + |sep|;
    var text, first := HexText(mem, i, n, sep), ByteText(mem(i)) + sep;
    if n > 1 {
      var rest := HexText(mem, i + 1, n - 1, sep);
      assert text == first + rest;
      MulStep(n, step);
      MulStep(k, step);
      HexTextAt(mem, i + 1, n - 1, sep, if k == 0 then 0 else k - 1);
      if k > 0 {
        MulNonNegative(k - 1, step);
        StandsBehind(first, rest, (k - 1) * step, ByteText(mem(i + k)));
        if k + 1 < n {
          StandsBehind(first, rest, (k - 1) * step + 2, sep);
        }
      }
    }
  }

  lemma StandsBehind(first: string, rest: string, i: nat, part: string)
    requires StandsAt(rest, i, part)
    ensures StandsAt(first + rest, |first| + i, part)
  {
    assert (first + rest)[|first| + i..|first| + i + |part|] == rest[i..i + |part|];
  }

  /** A dump of up to 128 bytes: byte number `k` in its two digits at its place, and the
      separator between neighbours. */
  lemma HexDumpAt(mem: nat -> byte, width: int, sep: string, k: nat)
    requires k < Min(width, 128)
    ensures var (text, step) := (HexDump(mem, width, sep), 2 + |sep|);
            && |text| == Min(width, 128) * step - |sep| && k * step + 2 <= |text|
            && ValueOf(text[k * step..k * step + 2], 16) == mem(k)
            && (forall c :: c in text[k * step..k * step + 2] ==> IsLowerHex(c))
            && (k + 1 < Min(width, 128) ==> StandsAt(text, k * step + 2, sep))
  {
    hide HexText, ValueOf, ByteText, IsLowerHex;
    HexTextAt(mem, 0, Min(width, 128), sep, k);
    ByteTextIs(mem(k));
    MulNonNegative(k, 2 + |sep|);
  }

  /** An extension of this library, "%*ph" with a separator letter: the bytes behind the
      pointer, separated as the letter says, exactly when the width is not 0; and the
      letter as text when it is. */
  lemma SeparatorIff(sep: char, v: int, addr: nat, mem: nat -> byte, crlf: bool, env: Env)
    requires ValidEnv(env) && sep in {'C', 'D', 'N'}
    ensures var w := Signed(v, 32);
            var text := Output("%*ph" + [sep], 0, [Int(v), Ptr(addr, mem)], 0, crlf, env);
            var between := if sep == 'C' then ":" else if sep == 'D' then "-" else "";
            && (text == HexDump(mem, if w < 0 then -w else w, between) <==> w != 0)
            && (w == 0 ==> text == [sep])
  {
    hide Output, HexText, Signed;
    var d := Directive("", StarWidth, NoPrecision, ModI, Pointer(HexBytes(Some(sep))));
    var fmt, args := "%*ph" + [sep], [Int(v), Ptr(addr, mem)];
    assert Render(d) == fmt;
    assert RenderAll([d]) == fmt by { assert [d][1..] == []; }
    assert fmt[0..] == fmt;
    assert WellFormed([d]) by { assert [d][1..] == []; }
    FormatPrintsMeaning(fmt, 0, [d], args, 0, crlf, env);
    var text := Meaning(d, args, 0, crlf, env).0;
    assert MeaningAll([d], args, 0, crlf, env) == text + "" by { assert [d][1..] == []; }
    assert text + "" == text;
  }
}
