/** The code of common/libc/vsnprintf.c: bounded writers over a character array,
    each proved to write what `FormatText` and `FormatSpec` say, cut off at `end`. */
module Vsnprintf {
  import opened Options
  import opened Arith
  import opened FormatText
  import opened FormatSpec
  import opened Sequences
  import Div

  // ----- the bounded cursor -----

  /** `cells` after `text` has been put at `pos`, with nothing written at or behind `end`. */
  function Blit(cells: seq<char>, end: nat, pos: nat, text: string): (r: seq<char>)
    requires end <= |cells|
    ensures |r| == |cells|
  {
    seq(|cells|, i requires 0 <= i < |cells| => if pos <= i < pos + |text| && i < end then text[i - pos] else cells[i])
  }

  lemma BlitNothing(cells: seq<char>, end: nat, pos: nat)
    requires end <= |cells|
    ensures Blit(cells, end, pos, "") == cells
  {
  }

  lemma BlitAppend(cells: seq<char>, end: nat, pos: nat, s: string, t: string)
    requires end <= |cells|
    ensures Blit(Blit(cells, end, pos, s), end, pos + |s|, t) == Blit(cells, end, pos, s + t)
  {
  }

  /** `str` has moved on over `text`, and the buffer holds as much of it as fits. */
  ghost predicate Written(before: seq<char>, after: seq<char>, end: nat, from: nat, str: nat, text: string)
    requires end <= |before|
  {
    after == Blit(before, end, from, text) && str == from + |text|
  }

  lemma WrittenNothing(cells: seq<char>, end: nat, pos: nat)
    requires end <= |cells|
    ensures Written(cells, cells, end, pos, pos, "")
  {
    BlitNothing(cells, end, pos);
  }

  lemma WrittenMore(a: seq<char>, b: seq<char>, c: seq<char>, end: nat, p: nat, q: nat, r: nat, s: string, t: string)
    requires end <= |a| == |b|
    requires Written(a, b, end, p, q, s) && Written(b, c, end, q, r, t)
    ensures Written(a, c, end, p, r, s + t)
  {
    BlitAppend(a, end, p, s, t);
  }

  /** PUT(). */
  method Put(buf: array<char>, end: nat, str: nat, c: char) returns (str': nat)
    requires end <= buf.Length
    modifies buf
    ensures Written(old(buf[..]), buf[..], end, str, str', [c])
  {
    if str < end {
      buf[str] := c;
    }
    str' := str + 1;
    assert buf[..] == Blit(old(buf[..]), end, str, [c]);
  }

  /** while ( width-- > 0 ) PUT(c); */
  method PadWhile(buf: array<char>, end: nat, str: nat, width: int, c: char) returns (str': nat, width': int)
    requires end <= buf.Length
    modifies buf
    ensures Written(old(buf[..]), buf[..], end, str, str', Repeat(c, width))
    ensures width' == if width > 0 then -1 else width - 1
  {
    hide Written, Repeat;
    str', width' := str, width;
    RepeatNone(c, 0);
    WrittenNothing(buf[..], end, str);
    while width' > 0
      invariant width' <= width && (width > 0 ==> width' >= 0) && (width <= 0 ==> width' == width)
      invariant Written(old(buf[..]), buf[..], end, str, str', Repeat(c, width - width'))
    {
      ghost var mid, p := buf[..], str';
      str' := Put(buf, end, str', c);
      RepeatEnd(c, width - width' + 1);
      WrittenMore(old(buf[..]), mid, buf[..], end, str, p, str', Repeat(c, width - width'), [c]);
      width' := width' - 1;
    }
    RepeatNone(c, width);
    width' := width' - 1;
  }

  lemma RepeatNone(c: char, n: int)
    ensures n <= 0 ==> Repeat(c, n) == ""
    ensures n <= 0 ==> Repeat(c, 0) == ""
  {
  }

  // ----- fmt_int -----

  method FmtInt(fmt: string, pos: nat) returns (res: nat, pos': nat)
    requires pos <= |fmt|
    ensures (res, pos') == ParseInt(fmt, pos, 0)
  {
    res, pos' := 0, pos;
    while IsDigit(At(fmt, pos'))
      invariant pos <= pos' <= |fmt|
      invariant ParseInt(fmt, pos', res) == ParseInt(fmt, pos, 0)
      decreases |fmt| - pos'
    {
      res := res * 10;
      res := res + (At(fmt, pos') as int - '0' as int);
      pos' := pos' + 1;
    }
  }

  // ----- fmt_number -----

  function Reversed(s: string): string {
    if s == "" then "" else Reversed(s[1..]) + [s[0]]
  }

  lemma {:induction false} ReversedAppend(s: string, c: char)
    ensures Reversed(s + [c]) == [c] + Reversed(s)
    decreases |s|
  {
    if s != "" {
      assert (s + [c])[1..] == s[1..] + [c];
      ReversedAppend(s[1..], c);
    }
  }

  /** With `u` left to print and `done` printed, last digit first, the number is complete. */
  ghost predicate DigitsSoFar(n: nat, u: nat, done: string, base: nat, upper: bool)
    requires ValidBase(base)
  {
    Digits(n, base, upper) == (if u > 0 then Digits(u, base, upper) else "") + Reversed(done)
  }

  lemma DigitsStart(n: nat, base: nat, upper: bool)
    requires ValidBase(base)
    ensures n > 0 ==> DigitsSoFar(n, n, "", base, upper)
    ensures n == 0 ==> DigitsSoFar(n, 0, "0", base, upper)
  {
    assert Reversed("0") == Reversed("") + "0";
  }

  lemma DigitsUnfold(u: nat, base: nat, upper: bool)
    requires ValidBase(base) && u > 0
    ensures u / base < u
    ensures Digits(u, base, upper)
         == (if u / base > 0 then Digits(u / base, base, upper) else "") + [DigitChar(u % base, upper)]
  {
    if u < base {
      DivModUnique(u, base, 0, u);
    } else {
      DivModIdentity(u, base);
      MulSign(u / base, base);
    }
  }

  lemma DigitsStep(n: nat, u: nat, done: string, base: nat, upper: bool)
    requires ValidBase(base) && u > 0 && DigitsSoFar(n, u, done, base, upper)
    ensures DigitsSoFar(n, u / base, done + [DigitChar(u % base, upper)], base, upper)
    ensures u / base < u && |done| < |Digits(n, base, upper)|
  {
    hide Digits, Reversed, DigitChar;
    DigitsUnfold(u, base, upper);
    ReversedLength(done);
    ReversedAppend(done, DigitChar(u % base, upper));
  }

  /** Lines 122-127: the digits of `uval`, last one first. */
  method FillDigits(tmp: array<char>, uval: Div.Word64, base: nat, upper: bool, isZero: bool) returns (i: nat)
    requires tmp.Length == 24 && ValidBase(base) && uval.value < U64 && (isZero <==> uval.value == 0)
    modifies tmp, uval
    ensures i <= 22 && Reversed(tmp[..i]) == Digits(old(uval.value), base, upper)
  {
    ghost var n := uval.value;
    i := 0;
    SixtyFourBitDigits(n, base, upper);
    DigitsStart(n, base, upper);
    if isZero {
      tmp[i] := '0';
      i := i + 1;
      assert tmp[..i] == "0";
      return;
    }
    assert tmp[..0] == "";
    while uval.value != 0
      invariant uval.value < U64 && i <= 22
      invariant DigitsSoFar(n, uval.value, tmp[..i], base, upper)
      decreases uval.value
    {
      hide DigitsSoFar, Digits, Reversed;
      ghost var u, done := uval.value, tmp[..i];
      DigitsStep(n, u, done, base, upper);
      var d := Div.DivMod64Long(uval, base);
      tmp[i] := DigitChar(d, upper);
      assert tmp[..i + 1] == done + [DigitChar(d, upper)];
      i := i + 1;
    }
  }

  lemma {:induction false} ReversedLength(s: string)
    ensures |Reversed(s)| == |s|
    decreases |s|
  {
    if s != "" {
      ReversedLength(s[1..]);
    }
  }

  /** Lines 160-162: while ( i-- ) PUT(tmp[i]); */
  method CopyBack(buf: array<char>, end: nat, str: nat, tmp: array<char>, n: nat) returns (str': nat)
    requires end <= buf.Length && n <= tmp.Length && tmp != buf
    modifies buf
    ensures Written(old(buf[..]), buf[..], end, str, str', Reversed(tmp[..n]))
  {
    hide Written;
    str' := str;
    var i: nat := n;
    WrittenNothing(buf[..], end, str);
    assert tmp[n..n] == "";
    while i != 0
      invariant i <= n
      invariant Written(old(buf[..]), buf[..], end, str, str', Reversed(tmp[i..n]))
    {
      i := i - 1;
      ghost var mid, p := buf[..], str';
      str' := Put(buf, end, str', tmp[i]);
      assert tmp[i..n][1..] == tmp[i + 1..n];
      WrittenMore(old(buf[..]), mid, buf[..], end, str, p, str', Reversed(tmp[i + 1..n]), [tmp[i]]);
    }
    assert tmp[0..n] == tmp[..n];
  }

  /** Lines 139-149: sign and base prefix. */
  method PutLead(buf: array<char>, end: nat, str: nat, prefix: char, base: int, f: Flags) returns (str': nat)
    requires end <= buf.Length
    modifies buf
    ensures Written(old(buf[..]), buf[..], end, str, str',
                    (if prefix == '\0' then "" else [prefix]) + BaseText(base, f))
  {
    str' := str;
    if prefix != '\0' {
      str' := Put(buf, end, str', prefix);
    }
    ghost var mid, p := buf[..], str';
    assert Written(old(buf[..]), mid, end, str, p, if prefix == '\0' then "" else [prefix]) by {
      WrittenNothing(old(buf[..]), end, str);
    }
    WrittenNothing(mid, end, p);
    if f.alternate {
      match base
      case 16 =>
        str' := Put(buf, end, str', '0');
        ghost var mid2, q := buf[..], str';
        str' := Put(buf, end, str', 'x');
        WrittenMore(mid, mid2, buf[..], end, p, q, str', "0", "x");
      case 8 =>
        str' := Put(buf, end, str', '0');
      case _ =>
    }
    WrittenMore(old(buf[..]), mid, buf[..], end, str, p, str',
                if prefix == '\0' then "" else [prefix], BaseText(base, f));
  }

  /** Lines 156-162: zeros up to the precision, then the digits. */
  method PutDigits(buf: array<char>, end: nat, str: nat, tmp: array<char>, i: nat, precision: int) returns (str': nat)
    requires end <= buf.Length && i <= tmp.Length && tmp != buf
    modifies buf
    ensures Written(old(buf[..]), buf[..], end, str, str', Repeat('0', precision - i) + Reversed(tmp[..i]))
  {
    hide Written, Repeat, Reversed;
    var rest;
    str', rest := PadWhile(buf, end, str, precision - i, '0');
    ghost var mid, p := buf[..], str';
    str' := CopyBack(buf, end, str', tmp, i);
    WrittenMore(old(buf[..]), mid, buf[..], end, str, p, str', Repeat('0', precision - i), Reversed(tmp[..i]));
  }

  /** Lines 92-111: the sign character, and the number whose digits are printed. */
  method SignOf(val: int, f: Flags) returns (prefix: char, uval: nat)
    requires IsInt64(val)
    ensures SignText(val, f) == if prefix == '\0' then "" else [prefix]
    ensures uval == Magnitude(val, f.signed) < U64
  {
    prefix, uval := '\0', val % U64;
    if f.signed {
      if val < 0 {
        prefix := '-';
        uval := (-val) % U64;
      } else if f.plus {
        prefix := '+';
      } else if f.space {
        prefix := ' ';
      }
    }
  }

  /** The pieces in the order in which they are put, `pad` being the width left over. */
  function Assembled(lead: string, digits: string, pad: int, left: bool, zero: bool): string {
    (if left || zero then "" else Repeat(' ', pad)) + lead + (if zero then Repeat('0', pad) else "") + digits
    + Repeat(' ', if left then pad else -1)
  }

  lemma AssembledIsField(lead: string, digits: string, width: int, precision: int, f: Flags)
    ensures Assembled(lead, digits, width - |lead| - |digits|, f.left, ZeroPadded(precision, f))
         == Field(lead, digits, width, precision, f)
  {
    var pad := width - |lead| - |digits|;
    assert Repeat(' ', -1) == "";
    assert Repeat(' ', pad) + lead + "" + digits + "" == Repeat(' ', pad) + lead + digits;
    assert "" + lead + Repeat('0', pad) + digits + "" == lead + Repeat('0', pad) + digits;
    assert "" + lead + "" + digits + Repeat(' ', pad) == lead + digits + Repeat(' ', pad);
  }

  /** Lines 134-166, from the left padding on. */
  method PutField(buf: array<char>, end: nat, str: nat, prefix: char, base: int, tmp: array<char>, i: nat,
                  width: int, precision: int, f: Flags, zero: bool) returns (str': nat)
    requires end <= buf.Length && i <= tmp.Length && tmp != buf && !(f.left && zero)
    modifies buf
    ensures Written(old(buf[..]), buf[..], end, str, str',
              Assembled((if prefix == '\0' then "" else [prefix]) + BaseText(base, f),
                        Repeat('0', precision - i) + Reversed(tmp[..i]), width, f.left, zero))
  {
    hide Written, Repeat, Reversed, BaseText;
    ghost var a := buf[..];
    ghost var lead := (if prefix == '\0' then "" else [prefix]) + BaseText(base, f);
    ghost var digits := Repeat('0', precision - i) + Reversed(tmp[..i]);
    var left := width;
    str' := str;
    WrittenNothing(a, end, str);
    if !f.left && !zero {
      str', left := PadWhile(buf, end, str', left, ' ');
    }
    ghost var t := if f.left || zero then "" else Repeat(' ', width);
    ghost var b, p := buf[..], str';
    str' := PutLead(buf, end, str', prefix, base, f);
    WrittenMore(a, b, buf[..], end, str, p, str', t, lead);
    b, p := buf[..], str';
    WrittenNothing(b, end, p);
    if zero {
      str', left := PadWhile(buf, end, str', left, '0');
    }
    WrittenMore(a, b, buf[..], end, str, p, str', t + lead, if zero then Repeat('0', width) else "");
    t := t + lead + (if zero then Repeat('0', width) else "");
    b, p := buf[..], str';
    str' := PutDigits(buf, end, str', tmp, i, precision);
    WrittenMore(a, b, buf[..], end, str, p, str', t, digits);
    b, p := buf[..], str';
    RepeatNone(' ', left);
    RepeatNone(' ', -1);
    str', left := PadWhile(buf, end, str', left, ' ');
    WrittenMore(a, b, buf[..], end, str, p, str', t + digits, Repeat(' ', if f.left then width else -1));
  }

  /** Lines 99, 104, 109 and 114-119: the width left beside sign and base prefix. */
  method ReduceWidth(width: int, prefix: char, base: int, f: Flags) returns (w: int)
    ensures w == width - (if prefix == '\0' then 0 else 1) - |BaseText(base, f)|
  {
    w := if prefix != '\0' then width - 1 else width;
    if f.alternate {
      match base
      case 16 => w := w - 2;
      case 8 => w := w - 1;
      case _ =>
    }
  }

  /** The digits with their leading zeros, from the length and the reversal of `tmp`. */
  lemma DigitsTextIs(val: int, base: int, precision: int, f: Flags, digits: string)
    requires ValidBase(base) && digits == Digits(Magnitude(val, f.signed), base, f.upper)
    ensures Repeat('0', Max(|digits|, precision) - |digits|) + digits == DigitsText(val, base, precision, f)
    ensures |DigitsText(val, base, precision, f)| == Max(|digits|, precision)
  {
    hide Digits;
    RepeatNone('0', precision - |digits|);
  }

  method FmtNumber(buf: array<char>, end: nat, str: nat, val: int, base: int, width: int, precision: int, f: Flags)
    returns (str': nat)
    requires end <= buf.Length && IsInt64(val)
    modifies buf
    ensures Written(old(buf[..]), buf[..], end, str, str', NumberText(val, base, width, precision, f))
  {
    hide Written, Repeat, Reversed, Digits, Assembled, Field, DigitsText, SignText, BaseText, Magnitude;
    if !(base == 8 || base == 10 || base == 16) {
      WrittenNothing(buf[..], end, str);
      return str;
    }
    // A specific precision or left alignment overrides zero padding.
    var zero := f.zero;
    if f.left || precision != -1 {
      zero := false;
    }
    var prefix, magnitude := SignOf(val, f);
    var w := ReduceWidth(width, prefix, base, f);
    var tmp := new char[24];
    var uval := new Div.Word64(magnitude);
    var i := FillDigits(tmp, uval, base, f.upper, magnitude == 0);
    ReversedLength(tmp[..i]);
    DigitsTextIs(val, base, precision, f, Reversed(tmp[..i]));
    var p := precision;
    if i > p {
      p := i;
    }
    w := w - p;
    AssembledIsField(SignText(val, f) + BaseText(base, f), DigitsText(val, base, precision, f), width, precision, f);
    str' := PutField(buf, end, str, prefix, base, tmp, i, w, p, f, zero);
  }

  // ----- fmt_string -----

  /** Lines 188-193, on the first `len` characters. */
  method PutChars(buf: array<char>, end: nat, str: nat, val: string, len: nat, crlf: bool) returns (str': nat)
    requires end <= buf.Length && len <= |val|
    modifies buf
    ensures Written(old(buf[..]), buf[..], end, str, str', LineEnds(val[..len], crlf))
  {
    hide Written, LineEnds;
    str' := str;
    WrittenNothing(buf[..], end, str);
    LineEndsNothing(crlf);
    for i := 0 to len
      invariant Written(old(buf[..]), buf[..], end, str, str', LineEnds(val[..i], crlf))
    {
      ghost var mid, p := buf[..], str';
      str' := PutLineChar(buf, end, str', val[i], crlf);
      WrittenMore(old(buf[..]), mid, buf[..], end, str, p, str', LineEnds(val[..i], crlf), LineEnds([val[i]], crlf));
      LineEndsMore(val[..i], val[i], crlf);
      assert val[..i + 1] == val[..i] + [val[i]];
    }
  }

  lemma LineEndsNothing(crlf: bool)
    ensures LineEnds("", crlf) == ""
  {
  }

  lemma LineEndsMore(s: string, c: char, crlf: bool)
    ensures LineEnds(s + [c], crlf) == LineEnds(s, crlf) + LineEnds([c], crlf)
  {
    CrlfConcat(s, [c]);
  }

  lemma LineEndsOne(c: char, crlf: bool)
    ensures LineEnds([c], crlf) == if crlf && c == '\n' then "\r" + [c] else [c]
  {
    assert Crlf([c]) == (if c == '\n' then "\r\n" else [c]) + Crlf("");
  }

  /** A carriage return before a line feed, if asked for. */
  method PutLineChar(buf: array<char>, end: nat, str: nat, c: char, crlf: bool) returns (str': nat)
    requires end <= buf.Length
    modifies buf
    ensures Written(old(buf[..]), buf[..], end, str, str', LineEnds([c], crlf))
  {
    hide Written, LineEnds;
    LineEndsOne(c, crlf);
    str' := str;
    if crlf && c == '\n' {
      str' := Put(buf, end, str', '\r');
      ghost var mid, p := buf[..], str';
      str' := Put(buf, end, str', c);
      WrittenMore(old(buf[..]), mid, buf[..], end, str, p, str', "\r", [c]);
    } else {
      str' := Put(buf, end, str', c);
    }
  }

  method FmtString(buf: array<char>, end: nat, str: nat, val: Option<string>, width: int, precision: int, f: Flags,
                   crlf: bool)
    returns (str': nat)
    requires end <= buf.Length
    modifies buf
    ensures Written(old(buf[..]), buf[..], end, str, str', StringText(val, width, precision, f, crlf))
  {
    hide Written, Repeat, LineEnds;
    var s := if val.Some? then val.value else "(NULL)";
    var len := if precision < 0 then |s| else if precision < |s| then precision else |s|;
    assert s[..len] == Selected(val, precision);
    ghost var a := buf[..];
    // `len < width--` is `0 < (width - len)--`.
    var left := width - len;
    str' := str;
    WrittenNothing(a, end, str);
    if !f.left {
      str', left := PadWhile(buf, end, str', left, ' ');
    }
    ghost var t := if f.left then "" else Repeat(' ', width - len);
    ghost var b, p := buf[..], str';
    str' := PutChars(buf, end, str', s, len, crlf);
    WrittenMore(a, b, buf[..], end, str, p, str', t, LineEnds(s[..len], crlf));
    b, p := buf[..], str';
    RepeatNone(' ', left);
    str', left := PadWhile(buf, end, str', left, ' ');
    WrittenMore(a, b, buf[..], end, str, p, str', t + LineEnds(s[..len], crlf),
                if f.left then Repeat(' ', width - len) else "");
    assert "" + LineEnds(s[..len], crlf) == LineEnds(s[..len], crlf);
    assert t + LineEnds(s[..len], crlf) + "" == t + LineEnds(s[..len], crlf);
  }

  // ----- pointer -----

  const BYTE_FLAGS := Flags(false, false, false, false, true, false, false)

  lemma HexTextStep(mem: nat -> byte, i: nat, n: nat, sep: string)
    requires n > 0
    ensures HexText(mem, i, n, sep)
         == ByteText(mem(i)) + (if n == 1 then "" else sep + HexText(mem, i + 1, n - 1, sep))
  {
  }

  /** Lines 245-255: `width` bytes, a separator between them unless it is NUL. */
  method PutHexDump(buf: array<char>, end: nat, str: nat, mem: nat -> byte, width: nat, sep: char) returns (str': nat)
    requires end <= buf.Length && width > 0
    modifies buf
    ensures Written(old(buf[..]), buf[..], end, str, str', HexText(mem, 0, width, if sep == '\0' then "" else [sep]))
  {
    hide Written, HexText, NumberText;
    ghost var a := buf[..];
    ghost var between := if sep == '\0' then "" else [sep];
    ghost var done := "";
    str' := str;
    WrittenNothing(a, end, str);
    var i: nat := 0;
    while true
      invariant i < width
      invariant Written(a, buf[..], end, str, str', done)
      invariant done + HexText(mem, i, width - i, between) == HexText(mem, 0, width, between)
      decreases width - i
    {
      HexTextStep(mem, i, width - i, between);
      ghost var b, p := buf[..], str';
      str' := FmtNumber(buf, end, str', mem(i), 16, 2, -1, BYTE_FLAGS);
      WrittenMore(a, b, buf[..], end, str, p, str', done, ByteText(mem(i)));
      i := i + 1;
      if i == width {
        assert done + (ByteText(mem(i - 1)) + "") == done + ByteText(mem(i - 1));
        return;
      }
      b, p := buf[..], str';
      WrittenNothing(b, end, p);
      if sep != '\0' {
        str' := Put(buf, end, str', sep);
      }
      WrittenMore(a, b, buf[..], end, str, p, str', done + ByteText(mem(i - 1)), between);
      ghost var rest := HexText(mem, i, width - i, between);
      Regroup(done, ByteText(mem(i - 1)), between + rest);
      Regroup(done + ByteText(mem(i - 1)), between, rest);
      done := done + ByteText(mem(i - 1)) + between;
    }
  }

  /** `p` is the index of the 'p'; `p'` is where the cursor ends up, on the last
      format character used. */
  method PutPointer(buf: array<char>, end: nat, str: nat, fmt: string, p: nat, arg: (nat, nat -> byte),
                    width: int, precision: int, f: Flags, crlf: bool, env: Env) returns (str': nat, p': nat)
    requires end <= buf.Length && p < |fmt| && ValidEnv(env)
    modifies buf
    ensures Written(old(buf[..]), buf[..], end, str, str', PointerText(fmt, p, arg, width, precision, f, crlf, env))
    ensures p' == p + PointerExtra(fmt, p, width) < |fmt|
  {
    hide Written, StringText, NumberText, HexText;
    p' := p;
    match At(fmt, p + 1)
    case 'h' =>
      p' := p' + 1;
      if width <= 0 {
        WrittenNothing(buf[..], end, str);
        return str, p';
      }
      var count := if width > 128 then 128 else width;
      var sep := ' ';
      match At(fmt, p + 2)
      {
        case 'C' => p' := p' + 1; sep := ':';
        case 'D' => p' := p' + 1; sep := '-';
        case 'N' => p' := p' + 1; sep := '\0';
        case _ =>
      }
      str' := PutHexDump(buf, end, str, arg.1, count, sep);
    case 'e' =>
      p' := p' + 1;
      str' := FmtString(buf, end, str, Some(env.exinfo(arg.0)), width, precision, f, crlf);
    case _ =>
      var w, g := width, f;
      if width == -1 {
        w := env.longBits / 4;
        g := g.(zero := true);
      }
      SignedRange(Unsigned(arg.0, env.longBits), 64);
      str' := FmtNumber(buf, end, str, Signed(Unsigned(arg.0, env.longBits), 64), 16, w, precision, g);
  }

  lemma SignedRange(v: int, bits: nat)
    requires bits in {8, 16, 32, 64}
    ensures -(Range(bits) / 2) <= Signed(v, bits) < Range(bits) / 2
  {
  }

  // ----- reading a directive -----

  /** Lines 297-358, from the '%' at `pos`. */
  method ReadSpec(fmt: string, pos: nat, args: seq<Arg>, a: nat) returns (s: Spec)
    requires pos < |fmt|
    ensures s == ParseSpec(fmt, pos, args, a)
  {
    var f, p := NO_FLAGS, pos + 1;
    while IsFlag(At(fmt, p))
      invariant pos < p <= |fmt|
      invariant ParseFlags(fmt, p, f) == ParseFlags(fmt, pos + 1, NO_FLAGS)
      decreases |fmt| - p
    {
      match fmt[p]
      {
        case '-' => f := f.(left := true);
        case '+' => f := f.(plus := true);
        case ' ' => f := f.(space := true);
        case '#' => f := f.(alternate := true);
        case _ => f := f.(zero := true);
      }
      p := p + 1;
    }
    s := Spec(f, -1, -1, ModI, p, a);
    s := ReadWidth(fmt, args, s);
    s := ReadPrecision(fmt, args, s);
    s := ReadMod(fmt, s);
  }

  method ReadWidth(fmt: string, args: seq<Arg>, s: Spec) returns (r: Spec)
    requires s.pos <= |fmt|
    ensures r == ParseWidth(fmt, args, s)
  {
    var f, width, pos, arg := s.f, s.width, s.pos, s.arg;
    if At(fmt, pos) == '*' {
      pos := pos + 1;
      width := Signed(IntArg(args, arg), 32);
      arg := arg + 1;
      if width < 0 {
        f := f.(left := true);
        width := -width;
      }
    } else if IsDigit(At(fmt, pos)) {
      width, pos := FmtInt(fmt, pos);
      if width < 0 {
        f := f.(left := true);
        width := -width;
      }
    }
    r := Spec(f, width, s.precision, s.mod, pos, arg);
  }

  method ReadPrecision(fmt: string, args: seq<Arg>, s: Spec) returns (r: Spec)
    requires s.pos <= |fmt| && s.precision == -1
    ensures r == ParsePrecision(fmt, args, s)
  {
    var precision, pos, arg := s.precision, s.pos, s.arg;
    if At(fmt, pos) == '.' {
      pos := pos + 1;
      if At(fmt, pos) == '*' {
        pos := pos + 1;
        precision := Signed(IntArg(args, arg), 32);
        arg := arg + 1;
      } else if IsDigit(At(fmt, pos)) {
        precision, pos := FmtInt(fmt, pos);
      }
      if precision < 0 {
        precision := -1;
      }
    }
    r := Spec(s.f, s.width, precision, s.mod, pos, arg);
  }

  method ReadMod(fmt: string, s: Spec) returns (r: Spec)
    ensures r == ParseLength(fmt, s)
  {
    var mod, pos := s.mod, s.pos;
    match At(fmt, pos)
    {
      case 'h' => mod := ModH; pos := pos + 1;
      case 'l' => mod := ModL; pos := pos + 1;
      case 'z' => mod := ModZ; pos := pos + 1;
      case _ =>
    }
    // Might be two...
    match At(fmt, pos)
    {
      case 'h' => mod := ModH2; pos := pos + 1;
      case 'l' => mod := ModL2; pos := pos + 1;
      case _ =>
    }
    r := Spec(s.f, s.width, s.precision, mod, pos, s.arg);
  }

  // ----- the interpreter -----

  /** Lines 370-380. */
  method PutCharField(buf: array<char>, end: nat, str: nat, c: char, width: int, f: Flags, crlf: bool)
    returns (str': nat)
    requires end <= buf.Length
    modifies buf
    ensures Written(old(buf[..]), buf[..], end, str, str', CharText(c, width, f, crlf))
  {
    hide Written, Repeat, LineEnds;
    ghost var a := buf[..];
    // `--width > 0` is `(width - 1)-- > 0`.
    var left := width - 1;
    str' := str;
    WrittenNothing(a, end, str);
    if !f.left {
      str', left := PadWhile(buf, end, str', left, ' ');
    }
    ghost var t := if f.left then "" else Repeat(' ', width - 1);
    ghost var b, p := buf[..], str';
    str' := PutLineChar(buf, end, str', c, crlf);
    WrittenMore(a, b, buf[..], end, str, p, str', t, LineEnds([c], crlf));
    b, p := buf[..], str';
    RepeatNone(' ', left);
    str', left := PadWhile(buf, end, str', left, ' ');
    WrittenMore(a, b, buf[..], end, str, p, str', t + LineEnds([c], crlf),
                if f.left then Repeat(' ', width - 1) else "");
    assert "" + LineEnds([c], crlf) == LineEnds([c], crlf);
    assert t + LineEnds([c], crlf) + "" == t + LineEnds([c], crlf);
  }

  /** Lines 421-466: fetch the argument and cast it as the length modifier says. */
  method FetchNumber(v: int, mod: LengthMod, signed: bool, env: Env) returns (num: int)
    requires ValidEnv(env)
    ensures num == NumArg(v, mod, signed, env)
  {
    var x;
    match mod
    {
      case ModH2 => if signed { x := Signed(v, 8); } else { x := Unsigned(v, 8); }
      case ModH => if signed { x := Signed(v, 16); } else { x := Unsigned(v, 16); }
      case ModI => if signed { x := Signed(v, 32); } else { x := Unsigned(v, 32); }
      case ModZ => x := Unsigned(v, env.longBits);
      case ModL => if signed { x := Signed(v, env.longBits); } else { x := Unsigned(v, env.longBits); }
      case ModL2 => if signed { x := Signed(v, 64); } else { x := Unsigned(v, 64); }
    }
    num := Signed(x, 64);
  }

  /** Lines 401-418: base and flags of an integer conversion; the base is 0 for none. */
  method ConversionOf(c: char, f: Flags) returns (base: int, flags: Flags)
    ensures if IsNumber(c) then base == BaseOf(c) && flags == ConversionFlags(f, c) else base == 0
  {
    base, flags := 0, f.(upper := false, signed := false);
    match c
    case 'o' => base := 8;
    case 'd' => flags := flags.(signed := true); base := 10;
    case 'i' => flags := flags.(signed := true); base := 10;
    case 'u' => base := 10;
    case 'X' => flags := flags.(upper := true); base := 16;
    case 'x' => base := 16;
    case _ =>
  }

  /** One pass of the loop of lines 281-469: what is at `pos`, the cursor moved past
      it, and the next argument. */
  method PutPiece(buf: array<char>, end: nat, str: nat, fmt: string, pos: nat, args: seq<Arg>, a: nat, crlf: bool,
                  env: Env)
    returns (str': nat, pos': nat, a': nat)
    requires end <= buf.Length && pos < |fmt| && '\0' !in fmt && ValidEnv(env)
    modifies buf
    ensures var (text, next, arg) := Piece(fmt, pos, args, a, crlf, env);
            Written(old(buf[..]), buf[..], end, str, str', text) && pos' == next && a' == arg
  {
    hide Written, CharText, StringText, PointerText, NumberText, ParseSpec;
    if fmt[pos] != '%' {
      str' := PutCharField(buf, end, str, fmt[pos], -1, NO_FLAGS, crlf);
      return str', pos + 1, a;
    }
    var s := ReadSpec(fmt, pos, args, a);
    a' := s.arg;
    pos' := s.pos;
    match At(fmt, s.pos)
    {
      case '%' => str' := Put(buf, end, str, '%');
      case 'c' =>
        str' := PutCharField(buf, end, str, CharOf(IntArg(args, s.arg)), s.width, s.f, crlf);
        a' := a' + 1;
      case 's' =>
        str' := FmtString(buf, end, str, StrArg(args, s.arg), s.width, s.precision, s.f, crlf);
        a' := a' + 1;
      case 'p' =>
        str', pos' := PutPointer(buf, end, str, fmt, s.pos, PtrArg(args, s.arg), s.width, s.precision, s.f, crlf, env);
        a' := a' + 1;
      case c =>
        var base, flags := ConversionOf(c, s.f);
        if base != 0 {
          var num := FetchNumber(IntArg(args, s.arg), s.mod, flags.signed, env);
          str' := FmtNumber(buf, end, str, num, base, s.width, s.precision, flags);
          a' := a' + 1;
        } else {
          // Something unrecognised: print the '%' and rewind.
          str' := Put(buf, end, str, '%');
          pos' := pos;
        }
    }
    pos' := pos' + 1;
  }

  /** A buffer of which `size` cells may be used, after `out` has been printed into it:
      as much of `out` as fits in front of a NUL, the NUL, and nothing else changed. */
  function Terminated(cells: seq<char>, size: nat, out: string): (r: seq<char>)
    requires size <= |cells|
    ensures |r| == |cells|
  {
    if size == 0 then cells
    else
      var k := Min(|out|, size - 1);
      out[..k] + "\0" + cells[k + 1..]
  }

  /** For every size, the result is the length of the whole output, and the buffer
      holds the part of it that fits. */
  method VsnprintfInternal(buf: array<char>, size: nat, fmt: string, args: seq<Arg>, crlf: bool, env: Env)
    returns (rc: nat)
    requires size <= buf.Length && '\0' !in fmt && ValidEnv(env)
    modifies buf
    ensures rc == |Output(fmt, 0, args, 0, crlf, env)|
    ensures buf[..] == Terminated(old(buf[..]), size, Output(fmt, 0, args, 0, crlf, env))
  {
    ghost var out := Output(fmt, 0, args, 0, crlf, env);
    var str := PutAll(buf, size, fmt, args, crlf, env);
    ghost var mid := buf[..];
    if str < size {
      buf[str] := '\0';
    } else if size > 0 {
      buf[size - 1] := '\0';
    }
    rc := str;
    TerminatedIs(old(buf[..]), mid, buf[..], size, str, out);
  }

  lemma OnlyTheEndIsNul(fmt: string, pos: nat)
    requires '\0' !in fmt
    ensures At(fmt, pos) == '\0' <==> pos >= |fmt|
  {
    if pos < |fmt| {
      assert fmt[pos] in fmt;
    }
  }

  method PutAll(buf: array<char>, end: nat, fmt: string, args: seq<Arg>, crlf: bool, env: Env) returns (str: nat)
    requires end <= buf.Length && '\0' !in fmt && ValidEnv(env)
    modifies buf
    ensures Written(old(buf[..]), buf[..], end, 0, str, Output(fmt, 0, args, 0, crlf, env))
  {
    hide Written, Piece;
    ghost var out := Output(fmt, 0, args, 0, crlf, env);
    ghost var done := "";
    str := 0;
    var pos: nat, a: nat := 0, 0;
    WrittenNothing(buf[..], end, 0);
    while At(fmt, pos) != '\0'
      invariant pos <= |fmt|
      invariant Written(old(buf[..]), buf[..], end, 0, str, done)
      invariant done + Output(fmt, pos, args, a, crlf, env) == out
      decreases |fmt| - pos
    {
      ghost var mid, p := buf[..], str;
      ghost var (text, next, arg) := Piece(fmt, pos, args, a, crlf, env);
      str, pos, a := PutPiece(buf, end, str, fmt, pos, args, a, crlf, env);
      WrittenMore(old(buf[..]), mid, buf[..], end, 0, p, str, done, text);
      assert done + (text + Output(fmt, next, args, arg, crlf, env))
          == done + text + Output(fmt, next, args, arg, crlf, env);
      done := done + text;
    }
    OnlyTheEndIsNul(fmt, pos);
    assert done + "" == done;
  }

  lemma TerminatedIs(a: seq<char>, b: seq<char>, c: seq<char>, size: nat, str: nat, out: string)
    requires size <= |a| && Written(a, b, size, 0, str, out)
    requires |b| == |c| && c == if str < size then b[str := '\0'] else if size > 0 then b[size - 1 := '\0'] else b
    ensures str == |out| && c == Terminated(a, size, out)
  {
    if size == 0 {
      assert b == a;
    }
  }
}
