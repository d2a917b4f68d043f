/** The documented grammar of conversion specifications, and the proof that the
    interpreter reads it: a format written from literals and directives prints
    their meanings one after the other. */
module FormatGrammar {
  import opened Arith
  import opened Options
  import opened FormatText
  import opened FormatSpec

  datatype WidthSpec = NoWidth | FixedWidth(w: nat) | StarWidth
  datatype PrecisionSpec = NoPrecision | BareDot | FixedPrecision(p: nat) | StarPrecision

  /** A pointer is printed as an address, as a hex dump with a separator letter
      (or none), or as an exception description. */
  datatype PointerKind = Address | HexBytes(sep: Option<char>) | Exinfo

  datatype Conversion = Percent | Character | Text | Pointer(kind: PointerKind) | Number(c: char)

  datatype Item =
    | Literal(c: char)
    | Directive(flags: string, width: WidthSpec, precision: PrecisionSpec, mod: LengthMod, conv: Conversion)

  predicate ValidItem(item: Item) {
    match item
    case Literal(c) => c != '%'
    case Directive(flags, width, precision, mod, conv) =>
      && (forall k :: 0 <= k < |flags| ==> flags[k] in {'-', '+', ' ', '#', '0'})
      && (width.FixedWidth? ==> width.w > 0)
      && ValidConversion(conv)
  }

  predicate ValidConversion(conv: Conversion) {
    && (conv.Number? ==> conv.c in {'o', 'd', 'i', 'u', 'x', 'X'})
    && (conv.Pointer? && conv.kind.HexBytes? && conv.kind.sep.Some? ==> conv.kind.sep.value in {'C', 'D', 'N'})
  }

  // ----- how items are written -----

  function WidthPart(width: WidthSpec): string {
    match width
    case NoWidth => ""
    case FixedWidth(w) => Digits(w, 10, false)
    case StarWidth => "*"
  }

  function PrecisionPart(precision: PrecisionSpec): string {
    match precision
    case NoPrecision => ""
    case BareDot => "."
    case FixedPrecision(p) => "." + Digits(p, 10, false)
    case StarPrecision => ".*"
  }

  function ModPart(mod: LengthMod): string {
    match mod
    case ModI => ""
    case ModH2 => "hh"
    case ModH => "h"
    case ModL => "l"
    case ModL2 => "ll"
    case ModZ => "z"
  }

  function ConversionChar(conv: Conversion): char {
    match conv
    case Percent => '%'
    case Character => 'c'
    case Text => 's'
    case Pointer(_) => 'p'
    case Number(c) => c
  }

  /** Length modifiers that the documented grammar does not have: of two letters, the
      second alone counts. */
  lemma SecondLengthCounts(fmt: string, s: Spec, first: char, second: char)
    requires StandsAt(fmt, s.pos, [first, second]) && first in {'h', 'l', 'z'} && second in {'h', 'l'}
    ensures ParseLength(fmt, s) == s.(mod := if second == 'h' then ModH2 else ModL2, pos := s.pos + 2)
  {
    assert fmt[s.pos..s.pos + 2][0] == first && fmt[s.pos..s.pos + 2][1] == second;
  }

  /** What follows the conversion character. */
  function Extension(conv: Conversion): string {
    if !conv.Pointer? then ""
    else
      match conv.kind
      case Address => ""
      case HexBytes(sep) => "h" + (if sep.Some? then [sep.value] else "")
      case Exinfo => "e"
  }

  function Render(item: Item): string {
    match item
    case Literal(c) => [c]
    case Directive(flags, width, precision, mod, conv) =>
      "%" + flags + WidthPart(width) + PrecisionPart(precision) + ModPart(mod) + [ConversionChar(conv)]
      + Extension(conv)
  }

  function RenderAll(items: seq<Item>): string {
    if items == [] then "" else Render(items[0]) + RenderAll(items[1..])
  }

  /** The character behind an item would be taken for a part of it. */
  predicate Swallows(item: Item, next: char) {
    item.Directive? && item.conv.Pointer? && SwallowsAfterPointer(item.conv.kind, next)
  }

  predicate SwallowsAfterPointer(kind: PointerKind, next: char) {
    if kind.Address? then next == 'h' || next == 'e'
    else kind == HexBytes(None) && next in {'C', 'D', 'N'}
  }

  predicate WellFormed(items: seq<Item>) {
    items == [] ||
    (ValidItem(items[0]) && !Swallows(items[0], At(RenderAll(items[1..]), 0)) && WellFormed(items[1..]))
  }

  // ----- what items mean -----

  function WidthOf(width: WidthSpec, args: seq<Arg>, a: nat): int {
    match width
    case NoWidth => -1
    case FixedWidth(w) => w
    case StarWidth => var v := Signed(IntArg(args, a), 32); if v < 0 then -v else v
  }

  function PrecisionOf(precision: PrecisionSpec, args: seq<Arg>, a: nat): int {
    match precision
    case NoPrecision => -1
    case BareDot => -1
    case FixedPrecision(p) => p
    case StarPrecision => var v := Signed(IntArg(args, a), 32); if v < 0 then -1 else v
  }

  /** The flags present, in any order and number; a negative '*' width aligns left. */
  function FlagsOf(flags: string, width: WidthSpec, args: seq<Arg>, a: nat): Flags {
    Flags('-' in flags || (width.StarWidth? && Signed(IntArg(args, a), 32) < 0),
          '+' in flags, ' ' in flags, '#' in flags, '0' in flags, false, false)
  }

  /** A '*' uses up an argument. */
  function AfterStar(star: bool, a: nat): nat { if star then a + 1 else a }

  /** The text of an item and the next argument. */
  function Meaning(item: Item, args: seq<Arg>, a: nat, crlf: bool, env: Env): (string, nat)
    requires ValidItem(item) && ValidEnv(env)
  {
    match item
    case Literal(c) => (LineEnds([c], crlf), a)
    case Directive(flags, width, precision, mod, conv) =>
      var a1 := AfterStar(width.StarWidth?, a);
      var a2 := AfterStar(precision.StarPrecision?, a1);
      var f, w, p := FlagsOf(flags, width, args, a), WidthOf(width, args, a), PrecisionOf(precision, args, a1);
      ConversionMeaning(conv, args, a2, w, p, mod, f, crlf, env)
  }

  function ConversionMeaning(conv: Conversion, args: seq<Arg>, a: nat, w: int, p: int, mod: LengthMod, f: Flags,
                             crlf: bool, env: Env): (string, nat)
    requires (conv.Number? ==> IsNumber(conv.c)) && ValidEnv(env)
  {
    match conv
    case Percent => ("%", a)
    case Character => (CharText(CharOf(IntArg(args, a)), w, f, crlf), a + 1)
    case Text => (StringText(StrArg(args, a), w, p, f, crlf), a + 1)
    case Number(c) => (IntText(c, IntArg(args, a), w, p, mod, f, env), a + 1)
    case Pointer(kind) => (PointerMeaning(kind, PtrArg(args, a), w, p, f, crlf, env), a + 1)
  }

  /** Without a width nothing is dumped, and the separator letter is not recognised either. */
  function PointerMeaning(kind: PointerKind, arg: (nat, nat -> byte), w: int, p: int, f: Flags, crlf: bool,
                          env: Env): string
    requires ValidEnv(env)
  {
    match kind
    case Address => AddressText(arg.0, w, p, f, env)
    case Exinfo => StringText(Some(env.exinfo(arg.0)), w, p, f, crlf)
    case HexBytes(sep) =>
      if sep.None? then HexDump(arg.1, w, " ")
      else if w <= 0 then [sep.value]
      else HexDump(arg.1, w, if sep.value == 'C' then ":" else if sep.value == 'D' then "-" else "")
  }

  function MeaningAll(items: seq<Item>, args: seq<Arg>, a: nat, crlf: bool, env: Env): string
    requires WellFormed(items) && ValidEnv(env)
  {
    if items == [] then ""
    else
      var (text, next) := Meaning(items[0], args, a, crlf, env);
      text + MeaningAll(items[1..], args, next, crlf, env)
  }

  // ----- the interpreter reads what was written -----

  /** `part` is what stands at `i`. */
  predicate StandsAt(fmt: string, i: nat, part: string) {
    i + |part| <= |fmt| && fmt[i..i + |part|] == part
  }

  lemma PartsStand(fmt: string, i: nat, s: string, t: string)
    requires StandsAt(fmt, i, s + t)
    ensures StandsAt(fmt, i, s) && StandsAt(fmt, i + |s|, t)
  {
    assert fmt[i..i + |s|] == (s + t)[..|s|];
    assert fmt[i + |s|..i + |s + t|] == (s + t)[|s|..];
  }

  /** `f` with every flag that occurs in `flags` set. */
  function WithFlags(f: Flags, flags: string): Flags {
    f.(left := f.left || '-' in flags, plus := f.plus || '+' in flags, space := f.space || ' ' in flags,
       alternate := f.alternate || '#' in flags, zero := f.zero || '0' in flags)
  }

  lemma FlagsOneByOne(f: Flags, flags: string)
    requires flags != "" && IsFlag(flags[0])
    ensures WithFlags(SetFlag(f, flags[0]), flags[1..]) == WithFlags(f, flags)
  {
    var c, t := flags[0], flags[1..];
    assert flags == [c] + t;
    assert forall x :: x in flags <==> x == c || x in t;
  }

  lemma FlagsStep(fmt: string, i: nat, f: Flags)
    ensures IsFlag(At(fmt, i)) ==> ParseFlags(fmt, i, f) == ParseFlags(fmt, i + 1, SetFlag(f, At(fmt, i)))
    ensures !IsFlag(At(fmt, i)) ==> ParseFlags(fmt, i, f) == (f, i)
  {
  }

  lemma {:induction false} FlagsRead(fmt: string, i: nat, flags: string, f: Flags)
    requires StandsAt(fmt, i, flags) && !IsFlag(At(fmt, i + |flags|))
    requires forall k :: 0 <= k < |flags| ==> IsFlag(flags[k])
    ensures ParseFlags(fmt, i, f) == (WithFlags(f, flags), i + |flags|)
    decreases |flags|
  {
    hide ParseFlags, SetFlag, IsFlag;
    FlagsStep(fmt, i, f);
    if flags != "" {
      FlagsOneByOne(f, flags);
      assert fmt[i] == flags[0];
      assert [flags[0]] + flags[1..] == flags;
      PartsStand(fmt, i, [flags[0]], flags[1..]);
      FlagsRead(fmt, i + 1, flags[1..], SetFlag(f, flags[0]));
    }
  }

  /** After k digits the scan has accumulated the number they denote. */
  lemma {:induction false} DigitsRead(fmt: string, i: nat, digits: string, k: nat)
    requires StandsAt(fmt, i, digits) && k <= |digits|
    requires forall c :: c in digits ==> IsDigit(c)
    ensures ParseInt(fmt, i, 0) == ParseInt(fmt, i + k, ValueOf(digits[..k], 10))
    decreases k
  {
    if k > 0 {
      DigitsRead(fmt, i, digits, k - 1);
      assert fmt[i + (k - 1)] == digits[k - 1];
      assert digits[..k][..k - 1] == digits[..k - 1];
    }
  }

  /** fmt_int() recovers every number that is printed in plain decimal. */
  lemma NumberRead(fmt: string, i: nat, n: nat)
    requires StandsAt(fmt, i, Digits(n, 10, false)) && !IsDigit(At(fmt, i + |Digits(n, 10, false)|))
    ensures ParseInt(fmt, i, 0) == (n, i + |Digits(n, 10, false)|)
    ensures IsDigit(At(fmt, i)) && (n > 0 ==> At(fmt, i) != '0')
  {
    hide Digits, ValueOf;
    var digits := Digits(n, 10, false);
    DigitsShape(n, 10, false);
    DigitsRead(fmt, i, digits, |digits|);
    assert digits[..|digits|] == digits;
    DigitsDenote(n, 10, false);
    assert fmt[i] == digits[0] && digits[0] in digits;
  }

  /** A character that ends every part before the conversion. */
  predicate Stops(c: char) {
    c == '%' || c == 'c' || c == 's' || c == 'p' || IsNumber(c)
  }

  lemma ModRead(fmt: string, s: Spec, mod: LengthMod)
    requires StandsAt(fmt, s.pos, ModPart(mod)) && Stops(At(fmt, s.pos + |ModPart(mod)|)) && s.mod == ModI
    ensures ParseLength(fmt, s) == s.(mod := mod, pos := s.pos + |ModPart(mod)|)
  {
    var part := ModPart(mod);
    assert |part| > 0 ==> fmt[s.pos] == part[0];
    assert |part| > 1 ==> fmt[s.pos + 1] == part[1];
  }

  /** A character that can follow the width. */
  predicate AfterWidth(c: char) { Stops(c) || c == '.' || c == 'h' || c == 'l' || c == 'z' }

  lemma PrecisionRead(fmt: string, args: seq<Arg>, s: Spec, precision: PrecisionSpec)
    requires StandsAt(fmt, s.pos, PrecisionPart(precision)) && s.precision == -1
    requires AfterWidth(At(fmt, s.pos + |PrecisionPart(precision)|))
    requires At(fmt, s.pos + |PrecisionPart(precision)|) != '.'
    ensures ParsePrecision(fmt, args, s)
         == s.(precision := PrecisionOf(precision, args, s.arg), pos := s.pos + |PrecisionPart(precision)|,
               arg := if precision.StarPrecision? then s.arg + 1 else s.arg)
  {
    var part := PrecisionPart(precision);
    assert |part| > 0 ==> fmt[s.pos] == part[0];
    assert |part| > 1 ==> fmt[s.pos + 1] == part[1];
    if precision.FixedPrecision? {
      PartsStand(fmt, s.pos, ".", Digits(precision.p, 10, false));
      NumberRead(fmt, s.pos + 1, precision.p);
    }
  }

  lemma WidthRead(fmt: string, args: seq<Arg>, s: Spec, width: WidthSpec)
    requires StandsAt(fmt, s.pos, WidthPart(width)) && s.width == -1
    requires AfterWidth(At(fmt, s.pos + |WidthPart(width)|))
    ensures ParseWidth(fmt, args, s)
         == s.(f := s.f.(left := s.f.left || (width.StarWidth? && Signed(IntArg(args, s.arg), 32) < 0)),
               width := WidthOf(width, args, s.arg), pos := s.pos + |WidthPart(width)|,
               arg := if width.StarWidth? then s.arg + 1 else s.arg)
  {
    if width.FixedWidth? {
      NumberRead(fmt, s.pos, width.w);
    } else if width.StarWidth? {
      assert fmt[s.pos] == WidthPart(width)[0];
    }
  }

  /** What the interpreter should have read when it reaches the conversion character. */
  function SpecOf(d: Item, i: nat, args: seq<Arg>, a: nat): Spec
    requires d.Directive?
  {
    var a1 := AfterStar(d.width.StarWidth?, a);
    Spec(FlagsOf(d.flags, d.width, args, a), WidthOf(d.width, args, a), PrecisionOf(d.precision, args, a1), d.mod,
         i + 1 + |d.flags| + |WidthPart(d.width)| + |PrecisionPart(d.precision)| + |ModPart(d.mod)|,
         AfterStar(d.precision.StarPrecision?, a1))
  }

  lemma SixPartsStand(fmt: string, i: nat, a: string, b: string, c: string, d: string, e: string, g: string)
    requires StandsAt(fmt, i, a + b + c + d + e + g)
    ensures StandsAt(fmt, i, a) && StandsAt(fmt, i + |a|, b) && StandsAt(fmt, i + |a| + |b|, c)
    ensures StandsAt(fmt, i + |a| + |b| + |c|, d) && StandsAt(fmt, i + |a| + |b| + |c| + |d|, e)
    ensures StandsAt(fmt, i + |a| + |b| + |c| + |d| + |e|, g)
  {
    hide StandsAt;
    PartsStand(fmt, i, a + b + c + d + e, g);
    PartsStand(fmt, i, a + b + c + d, e);
    PartsStand(fmt, i, a + b + c, d);
    PartsStand(fmt, i, a + b, c);
    PartsStand(fmt, i, a, b);
  }

  /** Where the parts of a directive stand. */
  lemma DirectiveParts(fmt: string, i: nat, d: Item)
    requires d.Directive? && StandsAt(fmt, i, Render(d))
    ensures var w := i + 1 + |d.flags|;
            var p := w + |WidthPart(d.width)|;
            var m := p + |PrecisionPart(d.precision)|;
            var c := m + |ModPart(d.mod)|;
            && At(fmt, i) == '%' && StandsAt(fmt, i + 1, d.flags)
            && StandsAt(fmt, w, WidthPart(d.width)) && StandsAt(fmt, p, PrecisionPart(d.precision))
            && StandsAt(fmt, m, ModPart(d.mod)) && At(fmt, c) == ConversionChar(d.conv)
            && StandsAt(fmt, c + 1, Extension(d.conv)) && c + 1 + |Extension(d.conv)| == i + |Render(d)| <= |fmt|
  {
    SixOrSevenParts(fmt, i, d.flags, WidthPart(d.width), PrecisionPart(d.precision), ModPart(d.mod),
                    [ConversionChar(d.conv)], Extension(d.conv));
  }

  lemma SixOrSevenParts(fmt: string, i: nat, a: string, b: string, c: string, d: string, e: string, g: string)
    requires StandsAt(fmt, i, "%" + a + b + c + d + e + g) && |e| == 1
    ensures At(fmt, i) == '%' && StandsAt(fmt, i + 1, a)
    ensures StandsAt(fmt, i + 1 + |a|, b) && StandsAt(fmt, i + 1 + |a| + |b|, c)
    ensures StandsAt(fmt, i + 1 + |a| + |b| + |c|, d) && At(fmt, i + 1 + |a| + |b| + |c| + |d|) == e[0]
    ensures StandsAt(fmt, i + 1 + |a| + |b| + |c| + |d| + 1, g)
    ensures i + 1 + |a| + |b| + |c| + |d| + 1 + |g| <= |fmt|
  {
    hide StandsAt;
    SixPartsStand(fmt, i, "%" + a, b, c, d, e, g);
    PartsStand(fmt, i, "%", a);
    FirstOf(fmt, i, "%");
    FirstOf(fmt, i + 1 + |a| + |b| + |c| + |d|, e);
    StandsInside(fmt, i + 1 + |a| + |b| + |c| + |d| + 1, g);
  }

  lemma StandsInside(fmt: string, i: nat, part: string)
    requires StandsAt(fmt, i, part)
    ensures i + |part| <= |fmt|
  {
  }

  lemma FirstOf(fmt: string, i: nat, part: string)
    requires StandsAt(fmt, i, part) && part != ""
    ensures At(fmt, i) == part[0]
  {
    assert fmt[i..i + |part|][0] == fmt[i];
  }

  lemma ModEnds(fmt: string, m: nat, mod: LengthMod)
    requires StandsAt(fmt, m, ModPart(mod)) && Stops(At(fmt, m + |ModPart(mod)|))
    ensures AfterWidth(At(fmt, m)) && At(fmt, m) != '.'
  {
    if ModPart(mod) != "" { FirstOf(fmt, m, ModPart(mod)); }
  }

  lemma PrecisionEnds(fmt: string, p: nat, precision: PrecisionSpec)
    requires StandsAt(fmt, p, PrecisionPart(precision)) && AfterWidth(At(fmt, p + |PrecisionPart(precision)|))
    ensures AfterWidth(At(fmt, p))
  {
    if PrecisionPart(precision) != "" { FirstOf(fmt, p, PrecisionPart(precision)); }
  }

  lemma WidthEnds(fmt: string, w: nat, width: WidthSpec)
    requires StandsAt(fmt, w, WidthPart(width)) && AfterWidth(At(fmt, w + |WidthPart(width)|))
    requires width.FixedWidth? ==> width.w > 0
    ensures !IsFlag(At(fmt, w))
  {
    if WidthPart(width) != "" { FirstOf(fmt, w, WidthPart(width)); }
    if width.FixedWidth? {
      DigitsShape(width.w, 10, false);
      assert Digits(width.w, 10, false)[0] in Digits(width.w, 10, false);
    }
  }

  lemma ParseSpecIs(fmt: string, i: nat, args: seq<Arg>, a: nat, f: Flags, pos: nat)
    requires i < |fmt| && ParseFlags(fmt, i + 1, NO_FLAGS) == (f, pos)
    ensures ParseSpec(fmt, i, args, a)
         == ParseLength(fmt, ParsePrecision(fmt, args, ParseWidth(fmt, args, Spec(f, -1, -1, ModI, pos, a))))
  {
  }

  lemma FlagsAreFlagsOf(d: Item, args: seq<Arg>, a: nat)
    requires d.Directive?
    ensures var f := WithFlags(NO_FLAGS, d.flags);
            f.(left := f.left || (d.width.StarWidth? && Signed(IntArg(args, a), 32) < 0))
            == FlagsOf(d.flags, d.width, args, a)
  {
  }

  lemma ValidParts(d: Item)
    requires d.Directive? && ValidItem(d)
    ensures forall k :: 0 <= k < |d.flags| ==> IsFlag(d.flags[k])
    ensures d.width.FixedWidth? ==> d.width.w > 0
    ensures Stops(ConversionChar(d.conv))
  {
  }

  /** Width, precision and length modifier, read one after the other. */
  lemma FieldsRead(fmt: string, args: seq<Arg>, s: Spec, d: Item)
    requires d.Directive? && s.width == -1 && s.precision == -1 && s.mod == ModI
    requires StandsAt(fmt, s.pos, WidthPart(d.width))
    requires StandsAt(fmt, s.pos + |WidthPart(d.width)|, PrecisionPart(d.precision))
    requires StandsAt(fmt, s.pos + |WidthPart(d.width)| + |PrecisionPart(d.precision)|, ModPart(d.mod))
    requires Stops(At(fmt, s.pos + |WidthPart(d.width)| + |PrecisionPart(d.precision)| + |ModPart(d.mod)|))
    ensures AfterWidth(At(fmt, s.pos + |WidthPart(d.width)|))
    ensures var a1 := AfterStar(d.width.StarWidth?, s.arg);
            ParseLength(fmt, ParsePrecision(fmt, args, ParseWidth(fmt, args, s)))
            == Spec(s.f.(left := s.f.left || (d.width.StarWidth? && Signed(IntArg(args, s.arg), 32) < 0)),
                    WidthOf(d.width, args, s.arg), PrecisionOf(d.precision, args, a1), d.mod,
                    s.pos + |WidthPart(d.width)| + |PrecisionPart(d.precision)| + |ModPart(d.mod)|,
                    AfterStar(d.precision.StarPrecision?, a1))
  {
    hide StandsAt, ParseWidth, ParsePrecision, ParseLength, WidthPart, PrecisionPart, ModPart, WidthOf, PrecisionOf;
    hide Stops, AfterWidth, Signed, IntArg, At;
    ModEnds(fmt, s.pos + |WidthPart(d.width)| + |PrecisionPart(d.precision)|, d.mod);
    PrecisionEnds(fmt, s.pos + |WidthPart(d.width)|, d.precision);
    WidthRead(fmt, args, s, d.width);
    var s1 := ParseWidth(fmt, args, s);
    PrecisionRead(fmt, args, s1, d.precision);
    ModRead(fmt, ParsePrecision(fmt, args, s1), d.mod);
  }

  lemma DirectiveRead(fmt: string, i: nat, d: Item, args: seq<Arg>, a: nat)
    requires d.Directive? && ValidItem(d) && StandsAt(fmt, i, Render(d))
    ensures i < |fmt| && ParseSpec(fmt, i, args, a) == SpecOf(d, i, args, a)
  {
    hide ValidItem, IsFlag, IsDigit, IsNumber, ConversionChar, Extension, Render, StandsAt, ParseSpec, ParseFlags;
    hide ParseWidth, ParsePrecision, ParseLength, WidthPart, PrecisionPart, ModPart, WidthOf, PrecisionOf, FlagsOf;
    hide WithFlags, Stops;
    hide AfterWidth, Signed, IntArg, At;
    DirectiveParts(fmt, i, d);
    ValidParts(d);
    var f, w := WithFlags(NO_FLAGS, d.flags), i + 1 + |d.flags|;
    FieldsRead(fmt, args, Spec(f, -1, -1, ModI, w, a), d);
    WidthEnds(fmt, w, d.width);
    FlagsRead(fmt, i + 1, d.flags, NO_FLAGS);
    ParseSpecIs(fmt, i, args, a, f, w);
    FlagsAreFlagsOf(d, args, a);
  }

  // ----- and prints what it means -----

  /** One item at `i`: its meaning is printed, and the rest of the format follows. */
  lemma ItemPrinted(fmt: string, i: nat, item: Item, args: seq<Arg>, a: nat, crlf: bool, env: Env)
    requires ValidEnv(env) && ValidItem(item) && StandsAt(fmt, i, Render(item))
    requires !Swallows(item, At(fmt, i + |Render(item)|))
    ensures var (text, next) := Meaning(item, args, a, crlf, env);
            Output(fmt, i, args, a, crlf, env) == text + Output(fmt, i + |Render(item)|, args, next, crlf, env)
  {
    if item.Literal? {
      FirstOf(fmt, i, Render(item));
      LiteralPrinted(fmt, i, item.c, args, a, crlf, env);
    } else {
      DirectivePrinted(fmt, i, item, args, a, crlf, env);
    }
  }

  lemma LiteralPrinted(fmt: string, i: nat, c: char, args: seq<Arg>, a: nat, crlf: bool, env: Env)
    requires ValidEnv(env) && At(fmt, i) == c != '%' && i < |fmt|
    ensures Output(fmt, i, args, a, crlf, env) == LineEnds([c], crlf) + Output(fmt, i + 1, args, a, crlf, env)
  {
    assert Repeat(' ', -2) == "";
    assert CharText(c, -1, NO_FLAGS, crlf) == LineEnds([c], crlf);
  }

  /** A pointer conversion, extension included: the text, and what follows. */
  lemma PointerPrinted(fmt: string, s: Spec, kind: PointerKind, args: seq<Arg>, crlf: bool, env: Env)
    requires ValidEnv(env) && StandsAt(fmt, s.pos + 1, Extension(Pointer(kind)))
    requires kind.HexBytes? && kind.sep.Some? ==> kind.sep.value in {'C', 'D', 'N'}
    requires !SwallowsAfterPointer(kind, At(fmt, s.pos + 1 + |Extension(Pointer(kind))|))
    ensures var arg := PtrArg(args, s.arg);
            PointerText(fmt, s.pos, arg, s.width, s.precision, s.f, crlf, env)
            + Output(fmt, s.pos + 1 + PointerExtra(fmt, s.pos, s.width), args, s.arg + 1, crlf, env)
            == PointerMeaning(kind, arg, s.width, s.precision, s.f, crlf, env)
               + Output(fmt, s.pos + 1 + |Extension(Pointer(kind))|, args, s.arg + 1, crlf, env)
  {
    hide Output, StringText, AddressText, HexText, StandsAt;
    match kind
    case Address =>
    case Exinfo =>
      assert Extension(Pointer(kind)) == "e";
      FirstOf(fmt, s.pos + 1, "e");
    case HexBytes(None) =>
      assert Extension(Pointer(kind)) == "h";
      FirstOf(fmt, s.pos + 1, "h");
    case HexBytes(Some(sep)) =>
      assert Extension(Pointer(kind)) == "h" + [sep];
      SeparatedDump(fmt, s, sep, args, crlf, env);
  }

  lemma SeparatedDump(fmt: string, s: Spec, sep: char, args: seq<Arg>, crlf: bool, env: Env)
    requires ValidEnv(env) && StandsAt(fmt, s.pos + 1, "h" + [sep]) && sep in {'C', 'D', 'N'}
    ensures var arg := PtrArg(args, s.arg);
            PointerText(fmt, s.pos, arg, s.width, s.precision, s.f, crlf, env)
            + Output(fmt, s.pos + 1 + PointerExtra(fmt, s.pos, s.width), args, s.arg + 1, crlf, env)
            == PointerMeaning(HexBytes(Some(sep)), arg, s.width, s.precision, s.f, crlf, env)
               + Output(fmt, s.pos + 3, args, s.arg + 1, crlf, env)
  {
    hide Output, HexText, StandsAt, StringText, AddressText;
    TwoCharsAt(fmt, s.pos + 1, 'h', sep);
    if s.width <= 0 {
      LiteralPrinted(fmt, s.pos + 2, sep, args, s.arg + 1, crlf, env);
      CrlfWithoutLf([sep]);
    }
  }

  lemma TwoCharsAt(fmt: string, i: nat, c: char, d: char)
    requires StandsAt(fmt, i, [c] + [d])
    ensures At(fmt, i) == c && At(fmt, i + 1) == d && i + 1 < |fmt|
  {
    assert fmt[i..i + 2][0] == c && fmt[i..i + 2][1] == d;
  }

  /** The conversion of a directive that has been read as `s`. */
  lemma ConversionPrinted(fmt: string, i: nat, s: Spec, conv: Conversion, args: seq<Arg>, crlf: bool, env: Env)
    requires ValidEnv(env) && i < s.pos < |fmt|
    requires ValidConversion(conv)
    requires At(fmt, s.pos) == ConversionChar(conv) && StandsAt(fmt, s.pos + 1, Extension(conv))
    requires conv.Pointer? ==> !SwallowsAfterPointer(conv.kind, At(fmt, s.pos + 1 + |Extension(conv)|))
    ensures var (text, next) := ConversionMeaning(conv, args, s.arg, s.width, s.precision, s.mod, s.f, crlf, env);
            var (read, j, arg) := Converted(fmt, i, s, args, crlf, env);
            read + Output(fmt, j, args, arg, crlf, env)
            == text + Output(fmt, s.pos + 1 + |Extension(conv)|, args, next, crlf, env)
  {
    hide Output, StringText, CharText, IntText, PointerText, PointerMeaning, PointerExtra, StandsAt;
    if conv.Pointer? {
      PointerPrinted(fmt, s, conv.kind, args, crlf, env);
    }
  }

  lemma OutputIs(fmt: string, i: nat, s: Spec, args: seq<Arg>, a: nat, crlf: bool, env: Env)
    requires ValidEnv(env) && At(fmt, i) == '%' && i < |fmt| && ParseSpec(fmt, i, args, a) == s
    ensures var (read, j, arg) := Converted(fmt, i, s, args, crlf, env);
            Output(fmt, i, args, a, crlf, env) == read + Output(fmt, j, args, arg, crlf, env)
  {
    hide Converted, ParseSpec;
  }

  lemma MeaningIs(d: Item, i: nat, args: seq<Arg>, a: nat, crlf: bool, env: Env)
    requires ValidEnv(env) && d.Directive? && ValidItem(d)
    ensures var s := SpecOf(d, i, args, a);
            Meaning(d, args, a, crlf, env)
            == ConversionMeaning(d.conv, args, s.arg, s.width, s.precision, s.mod, s.f, crlf, env)
  {
  }

  lemma DirectivePrinted(fmt: string, i: nat, d: Item, args: seq<Arg>, a: nat, crlf: bool, env: Env)
    requires ValidEnv(env) && d.Directive? && ValidItem(d) && StandsAt(fmt, i, Render(d))
    requires !Swallows(d, At(fmt, i + |Render(d)|))
    ensures var (text, next) := Meaning(d, args, a, crlf, env);
            Output(fmt, i, args, a, crlf, env) == text + Output(fmt, i + |Render(d)|, args, next, crlf, env)
  {
    hide Render, ParseSpec, WidthPart, PrecisionPart, ModPart, FlagsOf, WidthOf, PrecisionOf, StandsAt, Output;
    hide Converted, ConversionMeaning, Extension, ConversionChar, Meaning, SwallowsAfterPointer, ValidConversion, At;
    DirectiveParts(fmt, i, d);
    DirectiveRead(fmt, i, d, args, a);
    MeaningIs(d, i, args, a, crlf, env);
    var s := SpecOf(d, i, args, a);
    OutputIs(fmt, i, s, args, a, crlf, env);
    ConversionPrinted(fmt, i, s, d.conv, args, crlf, env);
  }

  lemma NothingPrinted(fmt: string, i: nat, args: seq<Arg>, a: nat, crlf: bool, env: Env)
    requires ValidEnv(env) && i <= |fmt| && fmt[i..] == ""
    ensures Output(fmt, i, args, a, crlf, env) == ""
  {
  }

  /** Main result: every format written from literals and directives prints their
      meanings in order, each directive taking its arguments where the one before
      stopped. */
  lemma {:induction false} FormatPrintsMeaning(fmt: string, i: nat, items: seq<Item>, args: seq<Arg>, a: nat,
                                               crlf: bool, env: Env)
    requires ValidEnv(env) && WellFormed(items)
    requires i <= |fmt| && fmt[i..] == RenderAll(items)
    ensures Output(fmt, i, args, a, crlf, env) == MeaningAll(items, args, a, crlf, env)
    decreases |items|
  {
    hide Render, Meaning, Output;
    if items == [] {
      NothingPrinted(fmt, i, args, a, crlf, env);
    } else {
      var item, rest := items[0], RenderAll(items[1..]);
      var n := i + |Render(item)|;
      assert fmt[i..n] == fmt[i..][..|Render(item)|] == Render(item);
      assert fmt[n..] == fmt[i..][|Render(item)|..] == rest;
      assert At(fmt, n) == At(rest, 0) by {
        if n < |fmt| { assert fmt[n..][0] == fmt[n]; }
      }
      ItemPrinted(fmt, i, item, args, a, crlf, env);
      FormatPrintsMeaning(fmt, n, items[1..], args, Meaning(item, args, a, crlf, env).1, crlf, env);
    }
  }

  // ----- unrecognised directives -----

  predicate Plain(c: char) { c != '%' && c != '\n' }

  lemma {:induction false} FlagsPlain(fmt: string, i: nat, f: Flags)
    requires i <= |fmt|
    ensures forall k :: i <= k < ParseFlags(fmt, i, f).1 ==> Plain(fmt[k])
    decreases |fmt| - i
  {
    if i < |fmt| && IsFlag(fmt[i]) {
      FlagsPlain(fmt, i + 1, SetFlag(f, fmt[i]));
    }
  }

  lemma {:induction false} IntPlain(fmt: string, i: nat, acc: nat)
    requires i <= |fmt|
    ensures forall k :: i <= k < ParseInt(fmt, i, acc).1 ==> Plain(fmt[k])
    decreases |fmt| - i
  {
    if i < |fmt| && IsDigit(fmt[i]) {
      IntPlain(fmt, i + 1, acc * 10 + (fmt[i] as int - '0' as int));
    }
  }

  lemma WidthPlain(fmt: string, args: seq<Arg>, s: Spec)
    requires s.pos <= |fmt|
    ensures forall k :: s.pos <= k < ParseWidth(fmt, args, s).pos ==> Plain(fmt[k])
  {
    IntPlain(fmt, s.pos, 0);
  }

  lemma PrecisionPlain(fmt: string, args: seq<Arg>, s: Spec)
    requires s.pos <= |fmt|
    ensures forall k :: s.pos <= k < ParsePrecision(fmt, args, s).pos ==> Plain(fmt[k])
  {
    if At(fmt, s.pos) == '.' {
      IntPlain(fmt, s.pos + 1, 0);
    }
  }

  lemma LengthPlain(fmt: string, s: Spec)
    requires s.pos <= |fmt|
    ensures forall k :: s.pos <= k < ParseLength(fmt, s).pos ==> Plain(fmt[k])
  {
  }

  /** Nothing between the '%' and the conversion character is a '%'. */
  lemma SpecPlain(fmt: string, i: nat, args: seq<Arg>, a: nat)
    requires i < |fmt|
    ensures forall k :: i < k < ParseSpec(fmt, i, args, a).pos ==> Plain(fmt[k])
  {
    hide ParseFlags, ParseWidth, ParsePrecision, ParseLength, Plain;
    var (f, pos) := ParseFlags(fmt, i + 1, NO_FLAGS);
    FlagsPlain(fmt, i + 1, NO_FLAGS);
    var s := Spec(f, -1, -1, ModI, pos, a);
    WidthPlain(fmt, args, s);
    var t := ParseWidth(fmt, args, s);
    PrecisionPlain(fmt, args, t);
    LengthPlain(fmt, ParsePrecision(fmt, args, t));
  }

  lemma {:induction false} PlainPrinted(fmt: string, i: nat, n: nat, args: seq<Arg>, a: nat, crlf: bool, env: Env)
    requires ValidEnv(env) && i <= n <= |fmt| && forall k :: i <= k < n ==> Plain(fmt[k])
    ensures Output(fmt, i, args, a, crlf, env) == fmt[i..n] + Output(fmt, n, args, a, crlf, env)
    decreases n - i
  {
    hide Output;
    if i < n {
      LiteralPrinted(fmt, i, fmt[i], args, a, crlf, env);
      CrlfWithoutLf([fmt[i]]);
      PlainPrinted(fmt, i + 1, n, args, a, crlf, env);
      assert fmt[i..n] == [fmt[i]] + fmt[i + 1..n];
    } else {
      assert fmt[i..n] == "";
    }
  }

  lemma NotConverted(fmt: string, i: nat, s: Spec, args: seq<Arg>, crlf: bool, env: Env)
    requires ValidEnv(env) && i < s.pos <= |fmt| && !Stops(At(fmt, s.pos))
    ensures Converted(fmt, i, s, args, crlf, env) == ("%", i + 1, s.arg)
  {
  }

  /** A directive that is not recognised, or that the format ends in, is printed as it is
      written; the arguments that its '*'s have taken stay taken. */
  lemma UnrecognisedPrinted(fmt: string, i: nat, args: seq<Arg>, a: nat, crlf: bool, env: Env)
    requires ValidEnv(env) && i < |fmt| && fmt[i] == '%'
    requires !Stops(At(fmt, ParseSpec(fmt, i, args, a).pos))
    ensures var s := ParseSpec(fmt, i, args, a);
            Output(fmt, i, args, a, crlf, env) == fmt[i..s.pos] + Output(fmt, s.pos, args, s.arg, crlf, env)
  {
    hide ParseSpec, Plain, Output, Converted, Stops;
    var s := ParseSpec(fmt, i, args, a);
    OutputIs(fmt, i, s, args, a, crlf, env);
    NotConverted(fmt, i, s, args, crlf, env);
    SpecPlain(fmt, i, args, a);
    PlainPrinted(fmt, i + 1, s.pos, args, s.arg, crlf, env);
    assert fmt[i..s.pos] == "%" + fmt[i + 1..s.pos];
  }
}
