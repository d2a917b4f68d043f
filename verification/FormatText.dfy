/** What the conversions of common/libc/vsnprintf.c print, as text. */
module FormatText {
  import opened Options
  import opened Arith

  /** The flags word, except for LF_TO_CRLF, which comes from the caller of the
      interpreter and no directive changes; it is passed beside the flags. */
  datatype Flags = Flags(left: bool, plus: bool, space: bool, alternate: bool, zero: bool,
                         upper: bool, signed: bool)

  function Repeat(c: char, n: int): (s: string)
    ensures |s| == Max(n, 0)
    ensures forall i :: 0 <= i < |s| ==> s[i] == c
  {
    if n <= 0 then "" else [c] + Repeat(c, n - 1)
  }

  // ----- numbers -----

  function DigitChar(d: nat, upper: bool): char
    requires d < 16
  {
    if upper then "0123456789ABCDEF"[d] else "0123456789abcdef"[d]
  }

  function DigitValue(c: char): nat {
    if '0' <= c <= '9' then c as int - '0' as int
    else if 'a' <= c <= 'f' then c as int - 'a' as int + 10
    else if 'A' <= c <= 'F' then c as int - 'A' as int + 10
    else 0
  }

  predicate ValidBase(base: int) { base == 8 || base == 10 || base == 16 }

  /** Positional notation, most significant digit first and no leading zero. */
  function Digits(n: nat, base: nat, upper: bool): (s: string)
    requires ValidBase(base)
    ensures |s| > 0
    decreases n
  {
    if n < base then [DigitChar(n, upper)]
    else Digits(n / base, base, upper) + [DigitChar(n % base, upper)]
  }

  /** The number a digit string denotes. */
  function ValueOf(s: string, base: nat): nat {
    if s == "" then 0 else ValueOf(s[..|s| - 1], base) * base + DigitValue(s[|s| - 1])
  }

  predicate IsHexDigit(c: char) { '0' <= c <= '9' || 'a' <= c <= 'f' || 'A' <= c <= 'F' }

  lemma DigitRoundTrip(d: nat, upper: bool)
    requires d < 16
    ensures DigitValue(DigitChar(d, upper)) == d && IsHexDigit(DigitChar(d, upper))
    ensures d < 10 ==> '0' <= DigitChar(d, upper) <= '9'
    ensures d >= 10 ==> if upper then 'A' <= DigitChar(d, upper) <= 'F' else 'a' <= DigitChar(d, upper) <= 'f'
    ensures DigitChar(d, upper) == '0' <==> d == 0
  {
  }

  /** Digits denote the number they were made from. */
  lemma {:induction false} DigitsDenote(n: nat, base: nat, upper: bool)
    requires ValidBase(base)
    ensures ValueOf(Digits(n, base, upper), base) == n
    decreases n
  {
    if n < base {
      DigitRoundTrip(n, upper);
      assert ([DigitChar(n, upper)])[..0] == "";
    } else {
      DigitsDenote(n / base, base, upper);
      DigitRoundTrip(n % base, upper);
      var s := Digits(n, base, upper);
      assert s[..|s| - 1] == Digits(n / base, base, upper);
      DivModIdentity(n, base);
    }
  }

  /** Every character is a digit, letters among them are those of base 16 in the case
      asked for, and zero leads only in "0" itself. */
  lemma {:induction false} DigitsShape(n: nat, base: nat, upper: bool)
    requires ValidBase(base)
    ensures forall c :: c in Digits(n, base, upper) ==> IsHexDigit(c)
    ensures base <= 10 ==> forall c :: c in Digits(n, base, upper) ==> '0' <= c <= '9'
    ensures forall c :: c in Digits(n, base, upper) && !('0' <= c <= '9') ==>
              if upper then 'A' <= c <= 'F' else 'a' <= c <= 'f'
    ensures Digits(n, base, upper)[0] == '0' <==> n == 0
    ensures n == 0 ==> Digits(n, base, upper) == "0"
    decreases n
  {
    if n < base {
      DigitRoundTrip(n, upper);
    } else {
      DigitsShape(n / base, base, upper);
      DigitRoundTrip(n % base, upper);
    }
  }

  function Pow(base: nat, k: nat): nat {
    if k == 0 then 1 else base * Pow(base, k - 1)
  }

  lemma {:induction false} DigitsLength(n: nat, base: nat, upper: bool, k: nat)
    requires ValidBase(base) && k > 0 && n < Pow(base, k)
    ensures |Digits(n, base, upper)| <= k
    decreases k
  {
    if n >= base {
      assert k > 1;
      DivModIdentity(n, base);
      assert (n / base) * base <= n < Pow(base, k - 1) * base;
      MulOrder(n / base, Pow(base, k - 1), base);
      DigitsLength(n / base, base, upper, k - 1);
    }
  }

  /** `tmp` in fmt_number() has 24 cells; no 64-bit value needs more than 22. */
  lemma SixtyFourBitDigits(n: nat, base: nat, upper: bool)
    requires ValidBase(base) && n < U64
    ensures |Digits(n, base, upper)| <= 22
  {
    assert Pow(8, 22) >= U64 by { PowOf8(); }
    PowOrder(8, base, 22);
    DigitsLength(n, base, upper, 22);
  }

  lemma {:induction false} PowOrder(a: nat, b: nat, k: nat)
    requires 0 < a <= b
    ensures 0 < Pow(a, k) <= Pow(b, k)
    decreases k
  {
    if k > 0 {
      PowOrder(a, b, k - 1);
      assert a * Pow(a, k - 1) <= a * Pow(b, k - 1) <= b * Pow(b, k - 1) by {
        MulNonNegative(a, Pow(b, k - 1) - Pow(a, k - 1));
        MulNonNegative(b - a, Pow(b, k - 1));
      }
      assert a * Pow(a, k - 1) > 0;
    }
  }

  lemma PowOf8()
    ensures Pow(8, 22) == 4 * U64
  {
    assert Pow(8, 4) == 4096;
    PowSum(8, 4, 4);
    PowSum(8, 8, 8);
    PowSum(8, 16, 4);
    assert Pow(8, 2) == 64;
    PowSum(8, 20, 2);
  }

  lemma {:induction false} PowSum(b: nat, i: nat, j: nat)
    ensures Pow(b, i + j) == Pow(b, i) * Pow(b, j)
    decreases i
  {
    if i > 0 {
      PowSum(b, i - 1, j);
      MulAssociates(b, Pow(b, i - 1), Pow(b, j));
    }
  }

  /** A long long, and the unsigned number whose digits are printed: line 98 negates
      in two's complement, so INT64_MIN prints as 2^63. */
  predicate IsInt64(val: int) { -0x8000_0000_0000_0000 <= val < 0x8000_0000_0000_0000 }

  function Magnitude(val: int, signed: bool): nat {
    if signed && val < 0 then (-val) % U64 else val % U64
  }

  function SignText(val: int, f: Flags): string {
    if !f.signed then "" else if val < 0 then "-" else if f.plus then "+" else if f.space then " " else ""
  }

  function BaseText(base: int, f: Flags): string {
    if !f.alternate then "" else if base == 16 then "0x" else if base == 8 then "0" else ""
  }

  /** At least `precision` digits. */
  function DigitsText(val: int, base: int, precision: int, f: Flags): string
    requires ValidBase(base)
  {
    var digits := Digits(Magnitude(val, f.signed), base, f.upper);
    Repeat('0', precision - |digits|) + digits
  }

  /** Zero padding gives way to left alignment and to a precision. */
  predicate ZeroPadded(precision: int, f: Flags) { f.zero && !f.left && precision == -1 }

  function Field(lead: string, digits: string, width: int, precision: int, f: Flags): string {
    var pad := width - |lead| - |digits|;
    if f.left then lead + digits + Repeat(' ', pad)
    else if ZeroPadded(precision, f) then lead + Repeat('0', pad) + digits
    else Repeat(' ', pad) + lead + digits
  }

  function NumberText(val: int, base: int, width: int, precision: int, f: Flags): string {
    if !ValidBase(base) then ""
    else Field(SignText(val, f) + BaseText(base, f), DigitsText(val, base, precision, f), width, precision, f)
  }

  /** The length of a number field. */
  lemma NumberLength(val: int, base: int, width: int, precision: int, f: Flags)
    requires ValidBase(base)
    ensures |NumberText(val, base, width, precision, f)|
         == Max(width, |SignText(val, f)| + |BaseText(base, f)|
                       + Max(|Digits(Magnitude(val, f.signed), base, f.upper)|, precision))
  {
  }

  /** Reads a number back: an optional sign, then digits, behind an optional "0x" in
      base 16. */
  function ReadNumber(s: string, base: nat): int {
    if s != "" && s[0] == '-' then 0 - ReadDigits(s[1..], base)
    else if s != "" && s[0] == '+' then ReadDigits(s[1..], base)
    else ReadDigits(s, base)
  }

  function ReadDigits(s: string, base: nat): nat {
    if base == 16 && "0x" <= s then ValueOf(s[2..], base) else ValueOf(s, base)
  }

  /** The text without the padding on either side. */
  function Trim(s: string): string {
    if s == "" then ""
    else if s[0] == ' ' then Trim(s[1..])
    else if s[|s| - 1] == ' ' then Trim(s[..|s| - 1])
    else s
  }

  lemma {:induction false} TrimPadded(s: string, l: int, r: int)
    requires s != "" && s[0] != ' ' && s[|s| - 1] != ' '
    ensures Trim(Repeat(' ', l) + s + Repeat(' ', r)) == s
    decreases Max(l, 0) + Max(r, 0)
  {
    var t := Repeat(' ', l) + s + Repeat(' ', r);
    if l > 0 {
      assert t[1..] == Repeat(' ', l - 1) + s + Repeat(' ', r);
      TrimPadded(s, l - 1, r);
    } else if r > 0 {
      RepeatEnd(' ', r);
      assert t == s + Repeat(' ', r - 1) + [' '];
      assert t[..|t| - 1] == Repeat(' ', l) + s + Repeat(' ', r - 1);
      TrimPadded(s, l, r - 1);
    } else {
      assert t == s;
    }
  }

  lemma {:induction false} RepeatEnd(c: char, n: nat)
    requires n > 0
    ensures Repeat(c, n) == Repeat(c, n - 1) + [c]
    decreases n
  {
    if n > 1 {
      RepeatEnd(c, n - 1);
      assert Repeat(c, n) == [c] + Repeat(c, n - 1);
    }
  }

  lemma {:induction false} LeadingZeros(z: int, digits: string, base: nat)
    ensures ValueOf(Repeat('0', z) + digits, base) == ValueOf(digits, base)
    decreases |digits|, Max(z, 0)
  {
    var s := Repeat('0', z) + digits;
    if digits == "" {
      if z > 0 {
        RepeatEnd('0', z);
        assert s[..|s| - 1] == Repeat('0', z - 1) + "";
        LeadingZeros(z - 1, "", base);
      }
    } else {
      assert s[..|s| - 1] == Repeat('0', z) + digits[..|digits| - 1];
      LeadingZeros(z, digits[..|digits| - 1], base);
    }
  }

  /** A blank that stands for a sign goes with the padding. */
  lemma TrimSigned(sign: string, body: string, l: int, r: int)
    requires body != "" && body[0] != ' ' && body[|body| - 1] != ' '
    requires sign == "" || sign == "+" || sign == "-" || sign == " "
    ensures Trim(Repeat(' ', l) + (sign + body) + Repeat(' ', r)) == (if sign == " " then "" else sign) + body
  {
    hide Trim, Repeat;
    if sign == " " {
      RepeatEnd(' ', Max(l, 0) + 1);
      RepeatNegative(' ', l);
      assert Repeat(' ', l) + (sign + body) == Repeat(' ', Max(l, 0) + 1) + body;
      TrimPadded(body, Max(l, 0) + 1, r);
      assert "" + body == body;
    } else {
      TrimPadded(sign + body, l, r);
    }
  }

  lemma Associates(s: string, t: string, u: string)
    ensures (s + t) + u == s + (t + u)
  {
  }

  lemma EndsOf(prefix: string, zeros: string, digits: string)
    requires digits != "" && digits[0] != ' ' && digits[|digits| - 1] != ' '
    requires prefix == "" || prefix[0] != ' '
    requires forall k :: 0 <= k < |zeros| ==> zeros[k] == '0'
    ensures var body := prefix + (zeros + digits);
            body != "" && body[0] != ' ' && body[|body| - 1] != ' '
  {
  }

  /** Without its blanks, a field is its sign, its prefix, some zeros, and its digits. */
  lemma FieldTrimmed(sign: string, prefix: string, digits: string, width: int, precision: int, f: Flags)
    returns (z: int)
    requires digits != "" && digits[0] != ' ' && digits[|digits| - 1] != ' '
    requires sign == "" || sign == "+" || sign == "-" || sign == " "
    requires prefix == "" || prefix[0] != ' '
    ensures Trim(Field(sign + prefix, digits, width, precision, f))
         == (if sign == " " then "" else sign) + (prefix + (Repeat('0', z) + digits))
  {
    hide Trim, Field, Repeat, ZeroPadded;
    var pad := width - |sign + prefix| - |digits|;
    z := if ZeroPadded(precision, f) then pad else 0;
    var body := prefix + (Repeat('0', z) + digits);
    FieldParts(sign + prefix, digits, width, precision, f);
    Associates(sign, prefix, Repeat('0', z) + digits);
    EndsOf(prefix, Repeat('0', z), digits);
    TrimSigned(sign, body, if f.left || ZeroPadded(precision, f) then 0 else pad, if f.left then pad else 0);
  }

  lemma RepeatNegative(c: char, n: int)
    ensures Repeat(c, Max(n, 0)) == Repeat(c, n)
  {
  }

  lemma FieldParts(lead: string, digits: string, width: int, precision: int, f: Flags)
    ensures var pad := width - |lead| - |digits|;
            var l := if f.left || ZeroPadded(precision, f) then 0 else pad;
            var z := if ZeroPadded(precision, f) then pad else 0;
            var r := if f.left then pad else 0;
            Field(lead, digits, width, precision, f)
            == Repeat(' ', l) + (lead + (Repeat('0', z) + digits)) + Repeat(' ', r)
  {
    hide Repeat;
    assert Repeat(' ', 0) == "" && Repeat('0', 0) == "";
  }

  /** Leading zeros included, a number's digits are digits and denote it. */
  lemma DigitsTextDenotes(val: int, base: int, precision: int, f: Flags)
    requires ValidBase(base)
    ensures var text := DigitsText(val, base, precision, f);
            && text != "" && (forall c :: c in text ==> IsHexDigit(c))
            && ValueOf(text, base) == Magnitude(val, f.signed)
  {
    hide Digits, ValueOf, IsHexDigit;
    var n := Magnitude(val, f.signed);
    var digits := Digits(n, base, f.upper);
    DigitsDenote(n, base, f.upper);
    DigitsShape(n, base, f.upper);
    assert IsHexDigit('0') by { DigitRoundTrip(0, false); }
    LeadingZeros(precision - |digits|, digits, base);
  }

  lemma XIsNoDigit()
    ensures !IsHexDigit('x')
  {
  }

  lemma UnprefixedDigits(base: nat, body: string)
    requires 'x' !in body
    ensures ReadDigits(body, base) == ValueOf(body, base)
  {
    hide ValueOf;
    if |body| > 1 {
      assert body[1] in body;
    }
  }

  /** Behind any number of zeros, and behind the prefix of its base, the digits are read. */
  lemma PrefixedDigits(base: int, z: int, digits: string, f: Flags)
    requires ValidBase(base) && forall c :: c in digits ==> IsHexDigit(c)
    ensures ReadDigits(BaseText(base, f) + (Repeat('0', z) + digits), base) == ValueOf(digits, base)
  {
    hide ValueOf, Repeat, IsHexDigit;
    var body := Repeat('0', z) + digits;
    LeadingZeros(z, digits, base);
    if f.alternate && base == 16 {
      assert ("0x" + body)[2..] == body;
    } else if f.alternate && base == 8 {
      RepeatEnd('0', 1);
      assert Repeat('0', 1) == "0";
      LeadingZeros(1, body, base);
    } else {
      assert 'x' !in digits && 'x' !in body by { XIsNoDigit(); }
      UnprefixedDigits(base, body);
      assert "" + body == body;
    }
  }

  /** The sign that is left when blanks are removed, in front of digits or a prefix. */
  lemma SignedDigits(sign: string, body: string, base: nat)
    requires body != "" && body[0] != '-' && body[0] != '+'
    requires sign == "" || sign == "+" || sign == "-"
    ensures ReadNumber(sign + body, base) == if sign == "-" then 0 - ReadDigits(body, base) else ReadDigits(body, base)
  {
    hide ReadDigits;
    if sign != "" {
      assert (sign + body)[1..] == body;
    } else {
      assert sign + body == body;
    }
  }

  /** Printing and reading back: whatever the base, width, precision, alignment, sign
      flags and prefix, the field, blanks removed, denotes the 64-bit value it was made
      from, as a signed or as an unsigned number. */
  lemma NumberRoundTrip(val: int, base: int, width: int, precision: int, f: Flags)
    requires ValidBase(base) && IsInt64(val)
    ensures ReadNumber(Trim(NumberText(val, base, width, precision, f)), base) == if f.signed then val else val % U64
  {
    hide Trim, Field, ValueOf, DigitsText, Digits, ReadNumber, ReadDigits;
    var text := DigitsText(val, base, precision, f);
    var sign, prefix := SignText(val, f), BaseText(base, f);
    DigitsTextDenotes(val, base, precision, f);
    assert text[0] in text && text[|text| - 1] in text;
    var z := FieldTrimmed(sign, prefix, text, width, precision, f);
    PrefixedDigits(base, z, text, f);
    SignedDigits(if sign == " " then "" else sign, prefix + (Repeat('0', z) + text), base);
  }

  // ----- characters and strings -----

  function Crlf(s: string): string {
    if s == "" then "" else (if s[0] == '\n' then "\r\n" else [s[0]]) + Crlf(s[1..])
  }

  function LineEnds(s: string, crlf: bool): string { if crlf then Crlf(s) else s }

  function CharText(c: char, width: int, f: Flags, crlf: bool): string {
    if f.left then LineEnds([c], crlf) + Repeat(' ', width - 1)
    else Repeat(' ', width - 1) + LineEnds([c], crlf)
  }

  /** The characters of a string argument that are printed. */
  function Selected(val: Option<string>, precision: int): string {
    var s := if val.Some? then val.value else "(NULL)";
    if 0 <= precision < |s| then s[..precision] else s
  }

  function StringText(val: Option<string>, width: int, precision: int, f: Flags, crlf: bool): string {
    var s := Selected(val, precision);
    if f.left then LineEnds(s, crlf) + Repeat(' ', width - |s|)
    else Repeat(' ', width - |s|) + LineEnds(s, crlf)
  }

  lemma {:induction false} CrlfConcat(s: string, t: string)
    ensures Crlf(s + t) == Crlf(s) + Crlf(t)
    decreases |s|
  {
    if s == "" {
      assert s + t == t;
    } else {
      assert (s + t)[1..] == s[1..] + t;
      CrlfConcat(s[1..], t);
    }
  }

  /** A line as it stands, the line end as two characters, and so on behind it. */
  lemma CrlfFirstLine(line: string, rest: string)
    requires '\n' !in line
    ensures Crlf(line) == line
    ensures Crlf(line + "\n" + rest) == line + "\r\n" + Crlf(rest)
  {
    CrlfWithoutLf(line);
    CrlfConcat(line + "\n", rest);
    CrlfConcat(line, "\n");
    assert Crlf("\n") == "\r\n" by { assert "\n"[1..] == ""; }
    assert Crlf(line) + "\r\n" == line + "\r\n";
  }

  lemma {:induction false} CrlfWithoutLf(s: string)
    requires '\n' !in s
    ensures Crlf(s) == s
    decreases |s|
  {
    if s != "" {
      CrlfWithoutLf(s[1..]);
    }
  }

  // ----- pointers -----

  /** One byte as two hex digits. */
  function ByteText(b: byte): string {
    NumberText(b, 16, 2, -1, Flags(false, false, false, false, true, false, false))
  }

  /** `n` bytes from cell `i` of memory on, `sep` between them. */
  function HexText(mem: nat -> byte, i: nat, n: nat, sep: string): string
    decreases n
  {
    if n == 0 then "" else if n == 1 then ByteText(mem(i))
    else ByteText(mem(i)) + sep + HexText(mem, i + 1, n - 1, sep)
  }
}
