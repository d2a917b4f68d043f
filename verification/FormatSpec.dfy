/** The format interpreter of common/libc/vsnprintf.c as a function: the whole
    output, however long, that a format and its arguments stand for. */
module FormatSpec {
  import opened Arith
  import opened Options
  import opened FormatText

  /** A variadic argument: an integer of any width, a string, or a pointer with
      the memory behind it. */
  datatype Arg = Int(v: int) | Str(s: Option<string>) | Ptr(addr: nat, mem: nat -> byte)

  /** The width of long, size_t and pointers, and the text of the %pe conversion. */
  datatype Env = Env(longBits: nat, exinfo: nat -> string)

  predicate ValidEnv(env: Env) { env.longBits == 32 || env.longBits == 64 }

  // ----- arguments -----

  /** Two's complement truncation to `bits` bits. */
  function Unsigned(v: int, bits: nat): int
    requires bits in {8, 16, 32, 64}
  {
    v % Range(bits)
  }

  function Signed(v: int, bits: nat): int
    requires bits in {8, 16, 32, 64}
  {
    var u := v % Range(bits);
    if u < Range(bits) / 2 then u else u - Range(bits)
  }

  function Range(bits: nat): int
    requires bits in {8, 16, 32, 64}
  {
    match bits
    case 8 => 0x100
    case 16 => 0x1_0000
    case 32 => 0x1_0000_0000
    case _ => U64
  }

  function IntArg(args: seq<Arg>, a: nat): int {
    if a < |args| && args[a].Int? then args[a].v else 0
  }

  function StrArg(args: seq<Arg>, a: nat): Option<string> {
    if a < |args| && args[a].Str? then args[a].s else None
  }

  function PtrArg(args: seq<Arg>, a: nat): (nat, nat -> byte) {
    if a < |args| && args[a].Ptr? then (args[a].addr, args[a].mem) else (0, _ => 0)
  }

  // ----- the parts of a directive -----

  /** Reading at the end of the format finds its terminator. */
  function At(fmt: string, i: nat): char { if i < |fmt| then fmt[i] else '\0' }

  predicate IsDigit(c: char) { '0' <= c <= '9' }

  predicate IsFlag(c: char) { c == '-' || c == '+' || c == ' ' || c == '#' || c == '0' }

  function SetFlag(f: Flags, c: char): Flags {
    match c
    case '-' => f.(left := true)
    case '+' => f.(plus := true)
    case ' ' => f.(space := true)
    case '#' => f.(alternate := true)
    case '0' => f.(zero := true)
    case _ => f
  }

  /** The flags from `i` on, and where they end. */
  function ParseFlags(fmt: string, i: nat, f: Flags): (r: (Flags, nat))
    ensures i <= r.1 && (i <= |fmt| ==> r.1 <= |fmt|)
    decreases |fmt| - i
  {
    if i < |fmt| && IsFlag(fmt[i]) then ParseFlags(fmt, i + 1, SetFlag(f, fmt[i])) else (f, i)
  }

  /** fmt_int(): the decimal number at `i`, continuing `acc`. */
  function ParseInt(fmt: string, i: nat, acc: nat): (r: (nat, nat))
    ensures i <= r.1 && (i <= |fmt| ==> r.1 <= |fmt|)
    decreases |fmt| - i
  {
    if i < |fmt| && IsDigit(fmt[i]) then ParseInt(fmt, i + 1, acc * 10 + (fmt[i] as int - '0' as int)) else (acc, i)
  }

  datatype LengthMod = ModH2 | ModH | ModI | ModZ | ModL | ModL2

  /** A parsed directive: everything between '%' and the conversion character at `pos`,
      and the next argument. */
  datatype Spec = Spec(f: Flags, width: int, precision: int, mod: LengthMod, pos: nat, arg: nat)

  function ParseWidth(fmt: string, args: seq<Arg>, s: Spec): (r: Spec)
    ensures s.pos <= r.pos && (s.pos <= |fmt| ==> r.pos <= |fmt|)
  {
    if At(fmt, s.pos) == '*' then
      var w := Signed(IntArg(args, s.arg), 32);
      s.(f := if w < 0 then s.f.(left := true) else s.f, width := if w < 0 then -w else w,
         pos := s.pos + 1, arg := s.arg + 1)
    else if IsDigit(At(fmt, s.pos)) then
      var (w, pos) := ParseInt(fmt, s.pos, 0);
      s.(width := w, pos := pos)
    else s
  }

  /** A '.' with neither '*' nor a number behind it leaves the precision at -1. */
  function ParsePrecision(fmt: string, args: seq<Arg>, s: Spec): (r: Spec)
    ensures s.pos <= r.pos && (s.pos <= |fmt| ==> r.pos <= |fmt|)
  {
    if At(fmt, s.pos) != '.' then s
    else if At(fmt, s.pos + 1) == '*' then
      var p := Signed(IntArg(args, s.arg), 32);
      s.(precision := if p < 0 then -1 else p, pos := s.pos + 2, arg := s.arg + 1)
    else if IsDigit(At(fmt, s.pos + 1)) then
      var (p, pos) := ParseInt(fmt, s.pos + 1, 0);
      s.(precision := p, pos := pos)
    else s.(pos := s.pos + 1)
  }

  function ParseLength(fmt: string, s: Spec): (r: Spec)
    ensures s.pos <= r.pos && (s.pos <= |fmt| ==> r.pos <= |fmt|)
  {
    var c := At(fmt, s.pos);
    var t := match c
      case 'h' => s.(mod := ModH, pos := s.pos + 1)
      case 'l' => s.(mod := ModL, pos := s.pos + 1)
      case 'z' => s.(mod := ModZ, pos := s.pos + 1)
      case _ => s;
    match At(fmt, t.pos)
    case 'h' => t.(mod := ModH2, pos := t.pos + 1)
    case 'l' => t.(mod := ModL2, pos := t.pos + 1)
    case _ => t
  }

  const NO_FLAGS := Flags(false, false, false, false, false, false, false)

  /** The directive whose '%' is at `i`. */
  function ParseSpec(fmt: string, i: nat, args: seq<Arg>, a: nat): (r: Spec)
    requires i < |fmt|
    ensures i < r.pos <= |fmt|
  {
    var (f, pos) := ParseFlags(fmt, i + 1, NO_FLAGS);
    ParseLength(fmt, ParsePrecision(fmt, args, ParseWidth(fmt, args, Spec(f, -1, -1, ModI, pos, a))))
  }

  // ----- conversions -----

  /** The argument of an integer conversion, cast as its length modifier says. */
  function NumArg(v: int, mod: LengthMod, signed: bool, env: Env): (r: int)
    requires ValidEnv(env)
    ensures IsInt64(r)
  {
    var x := match mod
      case ModH2 => if signed then Signed(v, 8) else Unsigned(v, 8)
      case ModH => if signed then Signed(v, 16) else Unsigned(v, 16)
      case ModI => if signed then Signed(v, 32) else Unsigned(v, 32)
      case ModZ => Unsigned(v, env.longBits)
      case ModL => if signed then Signed(v, env.longBits) else Unsigned(v, env.longBits)
      case ModL2 => if signed then Signed(v, 64) else Unsigned(v, 64);
    Signed(x, 64)
  }

  predicate IsNumber(c: char) { c == 'o' || c == 'd' || c == 'i' || c == 'u' || c == 'x' || c == 'X' }

  function BaseOf(c: char): int
    requires IsNumber(c)
  {
    if c == 'o' then 8 else if c == 'x' || c == 'X' then 16 else 10
  }

  function ConversionFlags(f: Flags, c: char): Flags {
    f.(signed := c == 'd' || c == 'i', upper := c == 'X')
  }

  function IntText(c: char, v: int, width: int, precision: int, mod: LengthMod, f: Flags, env: Env): string
    requires IsNumber(c) && ValidEnv(env)
  {
    var g := ConversionFlags(f, c);
    NumberText(NumArg(v, mod, g.signed, env), BaseOf(c), width, precision, g)
  }

  function Separator(c: char): string {
    if c == 'C' then ":" else if c == 'D' then "-" else if c == 'N' then "" else " "
  }

  /** Format characters a pointer conversion uses up beyond its 'p'. */
  function PointerExtra(fmt: string, p: nat, width: int): nat {
    if At(fmt, p + 1) == 'e' then 1
    else if At(fmt, p + 1) == 'h' then
      if width <= 0 then 1 else if At(fmt, p + 2) in {'C', 'D', 'N'} then 2 else 1
    else 0
  }

  function PointerText(fmt: string, p: nat, arg: (nat, nat -> byte), width: int, precision: int, f: Flags, crlf: bool,
                       env: Env): string
    requires ValidEnv(env)
  {
    if At(fmt, p + 1) == 'h' then HexDump(arg.1, width, Separator(At(fmt, p + 2)))
    else if At(fmt, p + 1) == 'e' then StringText(Some(env.exinfo(arg.0)), width, precision, f, crlf)
    else AddressText(arg.0, width, precision, f, env)
  }

  /** At most 128 bytes. */
  function HexDump(mem: nat -> byte, width: int, sep: string): string {
    if width <= 0 then "" else HexText(mem, 0, if width > 128 then 128 else width, sep)
  }

  function AddressText(addr: nat, width: int, precision: int, f: Flags, env: Env): string
    requires ValidEnv(env)
  {
    NumberText(Signed(Unsigned(addr, env.longBits), 64), 16,
               if width == -1 then env.longBits / 4 else width, precision,
               if width == -1 then f.(zero := true) else f)
  }

  // ----- the output -----

  function CharOf(v: int): char { (v % 256) as char }

  /** The text for what is at `i`, where the format continues, and the next argument.
      A directive that is not recognised yields its '%', and the text behind the '%'
      is printed as it stands; the arguments it used stay used. */
  function Piece(fmt: string, i: nat, args: seq<Arg>, a: nat, crlf: bool, env: Env): (r: (string, nat, nat))
    requires ValidEnv(env) && i < |fmt|
    ensures i < r.1 <= |fmt|
  {
    if fmt[i] != '%' then (CharText(fmt[i], -1, NO_FLAGS, crlf), i + 1, a)
    else
      var s := ParseSpec(fmt, i, args, a);
      Converted(fmt, i, s, args, crlf, env)
  }

  function Converted(fmt: string, i: nat, s: Spec, args: seq<Arg>, crlf: bool, env: Env): (r: (string, nat, nat))
    requires ValidEnv(env) && i < s.pos <= |fmt|
    ensures i < r.1 <= |fmt|
  {
    var c := At(fmt, s.pos);
    if c == '%' then ("%", s.pos + 1, s.arg)
    else if c == 'c' then (CharText(CharOf(IntArg(args, s.arg)), s.width, s.f, crlf), s.pos + 1, s.arg + 1)
    else if c == 's' then
      (StringText(StrArg(args, s.arg), s.width, s.precision, s.f, crlf), s.pos + 1, s.arg + 1)
    else if c == 'p' then
      (PointerText(fmt, s.pos, PtrArg(args, s.arg), s.width, s.precision, s.f, crlf, env),
       s.pos + 1 + PointerExtra(fmt, s.pos, s.width), s.arg + 1)
    else if IsNumber(c) then
      (IntText(c, IntArg(args, s.arg), s.width, s.precision, s.mod, s.f, env), s.pos + 1, s.arg + 1)
    else ("%", i + 1, s.arg)
  }

  /** The output for `fmt` from `i` on, with arguments from `a` on. */
  function Output(fmt: string, i: nat, args: seq<Arg>, a: nat, crlf: bool, env: Env): string
    requires ValidEnv(env)
    decreases |fmt| - i
  {
    if i >= |fmt| then ""
    else
      var (text, next, arg) := Piece(fmt, i, args, a, crlf, env);
      text + Output(fmt, next, args, arg, crlf, env)
  }

  // ----- CRLF expansion is a homomorphism -----

  lemma {:induction false} BlankWithoutLf(c: char, n: int)
    requires c != '\n'
    ensures '\n' !in Repeat(c, n)
  {
    assert forall i :: 0 <= i < |Repeat(c, n)| ==> Repeat(c, n)[i] == c;
  }

  lemma NumberWithoutLf(val: int, base: int, width: int, precision: int, f: Flags)
    ensures '\n' !in NumberText(val, base, width, precision, f)
    ensures Crlf(NumberText(val, base, width, precision, f)) == NumberText(val, base, width, precision, f)
  {
    hide Repeat, Digits, Crlf;
    if ValidBase(base) {
      var digits := Digits(Magnitude(val, f.signed), base, f.upper);
      DigitsShape(Magnitude(val, f.signed), base, f.upper);
      var lead := SignText(val, f) + BaseText(base, f);
      var text := DigitsText(val, base, precision, f);
      BlankWithoutLf('0', precision - |digits|);
      BlankWithoutLf(' ', width - |lead| - |text|);
      BlankWithoutLf('0', width - |lead| - |text|);
    }
    CrlfWithoutLf(NumberText(val, base, width, precision, f));
  }

  lemma {:induction false} HexWithoutLf(mem: nat -> byte, i: nat, n: nat, sep: string)
    requires '\n' !in sep
    ensures '\n' !in HexText(mem, i, n, sep)
    decreases n
  {
    hide NumberText;
    if n > 0 {
      NumberWithoutLf(mem(i), 16, 2, -1, Flags(false, false, false, false, true, false, false));
      HexWithoutLf(mem, i + 1, n - 1, sep);
    }
  }

  lemma CharCrlf(c: char, width: int, f: Flags)
    ensures CharText(c, width, f, true) == Crlf(CharText(c, width, f, false))
  {
    var pad := Repeat(' ', width - 1);
    BlankWithoutLf(' ', width - 1);
    CrlfWithoutLf(pad);
    if f.left { CrlfConcat([c], pad); } else { CrlfConcat(pad, [c]); }
  }

  lemma StringCrlf(val: Option<string>, width: int, precision: int, f: Flags)
    ensures StringText(val, width, precision, f, true) == Crlf(StringText(val, width, precision, f, false))
  {
    var s := Selected(val, precision);
    var pad := Repeat(' ', width - |s|);
    BlankWithoutLf(' ', width - |s|);
    CrlfWithoutLf(pad);
    if f.left { CrlfConcat(s, pad); } else { CrlfConcat(pad, s); }
  }

  lemma PointerCrlf(fmt: string, p: nat, arg: (nat, nat -> byte), width: int, precision: int, f: Flags, env: Env)
    requires ValidEnv(env)
    ensures PointerText(fmt, p, arg, width, precision, f, true, env)
         == Crlf(PointerText(fmt, p, arg, width, precision, f, false, env))
  {
    hide StringText, NumberText, HexText, Crlf;
    if At(fmt, p + 1) == 'h' {
      HexWithoutLf(arg.1, 0, if width <= 0 then 0 else if width > 128 then 128 else width, Separator(At(fmt, p + 2)));
      CrlfWithoutLf(HexDump(arg.1, width, Separator(At(fmt, p + 2))));
    } else if At(fmt, p + 1) == 'e' {
      StringCrlf(Some(env.exinfo(arg.0)), width, precision, f);
    } else {
      NumberWithoutLf(Signed(Unsigned(arg.0, env.longBits), 64), 16, if width == -1 then env.longBits / 4 else width,
                      precision, if width == -1 then f.(zero := true) else f);
    }
  }

  lemma PieceCrlf(fmt: string, i: nat, args: seq<Arg>, a: nat, env: Env)
    requires ValidEnv(env) && i < |fmt|
    ensures var (plain, next, arg) := Piece(fmt, i, args, a, false, env);
            Piece(fmt, i, args, a, true, env) == (Crlf(plain), next, arg)
  {
    hide StringText, NumberText, CharText, PointerText, ParseSpec, Crlf;
    if fmt[i] != '%' {
      CharCrlf(fmt[i], -1, NO_FLAGS);
    } else {
      var s := ParseSpec(fmt, i, args, a);
      var c := At(fmt, s.pos);
      if c == 'c' {
        CharCrlf(CharOf(IntArg(args, s.arg)), s.width, s.f);
      } else if c == 's' {
        StringCrlf(StrArg(args, s.arg), s.width, s.precision, s.f);
      } else if c == 'p' {
        PointerCrlf(fmt, s.pos, PtrArg(args, s.arg), s.width, s.precision, s.f, env);
      } else if IsNumber(c) {
        var g := ConversionFlags(s.f, c);
        NumberWithoutLf(NumArg(IntArg(args, s.arg), s.mod, g.signed, env), BaseOf(c), s.width, s.precision, g);
      } else {
        CrlfWithoutLf("%");
      }
    }
  }

  /** LF_TO_CRLF: for every format and all arguments, the output is the plain output
      with "\n" replaced by "\r\n", padding included. */
  lemma {:induction false} CrlfHomomorphism(fmt: string, i: nat, args: seq<Arg>, a: nat, env: Env)
    requires ValidEnv(env)
    ensures Output(fmt, i, args, a, true, env) == Crlf(Output(fmt, i, args, a, false, env))
    decreases |fmt| - i
  {
    hide Piece;
    if i < |fmt| {
      var (text, next, arg) := Piece(fmt, i, args, a, false, env);
      PieceCrlf(fmt, i, args, a, env);
      CrlfHomomorphism(fmt, next, args, arg, env);
      CrlfConcat(text, Output(fmt, next, args, arg, false, env));
    }
  }
}
