/// Formatted printing (kern/lib/shared/xprintf.c).
///
/// Strings are sequences without their terminator. An argument is the 64-bit register it is
/// passed in, or a string.

module Numerals {
  /// Division by one of the three bases the printer uses.
  function Over(v: nat, base: nat): nat {
    if base == 8 then v / 8 else if base == 10 then v / 10 else v / 16
  }

  function Rem(v: nat, base: nat): (d: nat)
    ensures d < 16
  {
    if base == 8 then v % 8 else if base == 10 then v % 10 else v % 16
  }

  function Shifted(v: nat, base: nat, d: nat): nat {
    if base == 8 then 8 * v + d else if base == 10 then 10 * v + d else 16 * v + d
  }

  function LowerDigits(): string {
    "0123456789abcdef"
  }

  function UpperDigits(): string {
    "0123456789ABCDEF"
  }

  function Digit(d: nat, upper: bool): char
    requires d < 16
  {
    if upper then UpperDigits()[d] else LowerDigits()[d]
  }

  function DigitValue(c: char): nat {
    if '0' <= c <= '9' then (c - '0') as nat
    else if 'a' <= c <= 'f' then 10 + (c - 'a') as nat
    else if 'A' <= c <= 'F' then 10 + (c - 'A') as nat
    else 0
  }

  function Print(v: nat, base: nat, upper: bool): (s: string)
    ensures s != []
  {
    if Over(v, base) == 0 then [Digit(Rem(v, base), upper)]
    else Print(Over(v, base), base, upper) + [Digit(Rem(v, base), upper)]
  }

  /// Reading a numeral, most significant digit first.
  function Parse(s: string, base: nat): nat {
    if s == [] then 0 else Shifted(Parse(s[..|s| - 1], base), base, DigitValue(s[|s| - 1]))
  }

  lemma DigitHasItsValue(d: nat, upper: bool)
    requires d < 16
    ensures DigitValue(Digit(d, upper)) == d
  {
    assert forall i :: 0 <= i < 16 ==> DigitValue(LowerDigits()[i]) == i;
    assert forall i :: 0 <= i < 16 ==> DigitValue(UpperDigits()[i]) == i;
  }

  predicate IsBase(base: nat) {
    base == 8 || base == 10 || base == 16
  }

  /// What is printed reads back as the number.
  lemma {:induction false} ParsePrint(v: nat, base: nat, upper: bool)
    requires IsBase(base)
    ensures Parse(Print(v, base, upper), base) == v
  {
    var d := Rem(v, base);
    var s := Print(v, base, upper);
    DigitHasItsValue(d, upper);
    if Over(v, base) == 0 {
      assert s[..|s| - 1] == [];
    } else {
      ParsePrint(Over(v, base), base, upper);
      assert s[..|s| - 1] == Print(Over(v, base), base, upper);
    }
  }

  // ---- the same by the usual definition ----

  /// The character of a digit: the ten digits, and letters from ten up.
  function DigitChar(d: nat, upper: bool): char
    requires d < 16
  {
    if d < 10 then '0' + d as char else if upper then 'A' + (d - 10) as char else 'a' + (d - 10) as char
  }

  /// The numeral of a number in a base.
  function Numeral(v: nat, base: nat, upper: bool): (s: string)
    requires IsBase(base)
    ensures s != []
    decreases v
  {
    var last := [DigitChar(v % base, upper)];
    if v < base then last
    else
      Quotient(v, base);
      Numeral(v / base, base, upper) + last
  }

  lemma Quotient(v: nat, base: nat)
    requires IsBase(base) && base <= v
    ensures v / base < v
  {
    assert v / base == if base == 8 then v / 8 else if base == 10 then v / 10 else v / 16;
  }

  /// What is printed is the numeral.
  lemma {:induction false} PrintIsNumeral(v: nat, base: nat, upper: bool)
    requires IsBase(base)
    ensures Print(v, base, upper) == Numeral(v, base, upper)
  {
    assert Digit(Rem(v, base), upper) == DigitChar(v % base, upper);
    if Over(v, base) != 0 {
      PrintIsNumeral(Over(v, base), base, upper);
    }
  }

  lemma PrintIsInjective(v: nat, w: nat, base: nat, upper: bool)
    requires IsBase(base) && Print(v, base, upper) == Print(w, base, upper)
    ensures v == w
  {
    ParsePrint(v, base, upper);
    ParsePrint(w, base, upper);
  }

  /// Only the numeral of zero begins with the digit zero.
  lemma {:induction false} NoLeadingZero(v: nat, base: nat, upper: bool)
    requires IsBase(base)
    ensures Print(v, base, upper)[0] == '0' <==> v == 0
    ensures v == 0 ==> Print(v, base, upper) == "0"
  {
    if Over(v, base) != 0 {
      NoLeadingZero(Over(v, base), base, upper);
    } else {
      DigitHasItsValue(Rem(v, base), upper);
    }
  }

  /// The digits are digits of the base, in the chosen case.
  lemma {:induction false} PrintUsesDigits(v: nat, base: nat, upper: bool, i: nat)
    requires IsBase(base) && i < |Print(v, base, upper)|
    ensures exists d: nat :: d < base && d < 16 && Print(v, base, upper)[i] == Digit(d, upper)
  {
    if i == |Print(v, base, upper)| - 1 {
      assert Rem(v, base) < base;
    } else {
      PrintUsesDigits(Over(v, base), base, upper, i);
    }
  }

  function EightTo(n: nat): nat {
    if n == 0 then 1 else 8 * EightTo(n - 1)
  }

  lemma {:induction false} PrintFits(v: nat, base: nat, upper: bool, n: nat)
    requires IsBase(base) && v < EightTo(n) && n > 0
    ensures |Print(v, base, upper)| <= n
  {
    if Over(v, base) != 0 {
      PrintFits(Over(v, base), base, upper, n - 1);
    }
  }

  /// A 64-bit number needs 22 digits at most, so the 256-byte buffer always suffices.
  lemma PrintFitsBuffer(v: nat, base: nat, upper: bool)
    requires IsBase(base) && v < 0x1_0000_0000_0000_0000
    ensures |Print(v, base, upper)| <= 22
  {
    assert EightTo(3) == 512;
    EightToSum(3, 3);
    EightToSum(6, 3);
    EightToSum(9, 9);
    EightToSum(18, 3);
    assert EightTo(1) == 8;
    EightToSum(21, 1);
    PrintFits(v, base, upper, 22);
  }

  lemma {:induction false} EightToSum(m: nat, n: nat)
    ensures EightTo(m + n) == EightTo(m) * EightTo(n)
  {
    if n > 0 {
      EightToSum(m, n - 1);
      assert EightTo(m + n) == 8 * (EightTo(m) * EightTo(n - 1));
    }
  }
}

module Formats {
  import opened Numerals
  import opened Options

  datatype Arg = Num(bits: nat) | Str(text: string)

  datatype Kind = INT | CHR | STR | ESC

  /// format_arg_info. The defaults leave the members from `base` on as they are: they keep
  /// whatever the last conversion, or the stack, left there.
  datatype Info = Info(
    width: int,
    precision: int,
    pad: char,
    alternate: bool,
    right: bool,
    kind: Kind,
    size: nat,
    base: nat,
    signPad: char,
    szt: bool,
    ptd: bool,
    writeSigned: bool,
    upper: bool)

  function Defaults(f: Info): Info {
    f.(width := 1, precision := -1, pad := ' ', alternate := false, right := false, kind := INT, size := 0)
  }

  // ---- read_format ----

  predicate IsFlag(c: char) {
    c == '#' || c == '0' || c == '-' || c == ' ' || c == '+'
  }

  /// The case of '0' falls through to that of '-'.
  function Flag(c: char, f: Info): Info {
    if c == '#' then f.(alternate := true)
    else if c == '0' || c == '-' then f.(pad := ' ', right := true)
    else if c == ' ' then (if f.signPad != '+' then f.(signPad := ' ') else f)
    else f.(signPad := '+')
  }

  function AfterFlags(s: string): string {
    if s != [] && IsFlag(s[0]) then AfterFlags(s[1..]) else s
  }

  function Flags(s: string, f: Info): Info
    decreases |s|
  {
    if s != [] && IsFlag(s[0]) then Flags(s[1..], Flag(s[0], f)) else f
  }

  function LengthChars(s: string): nat {
    if s == [] then 0
    else if (s[0] == 'l' || s[0] == 'h') && |s| > 1 && s[1] == s[0] then 2
    else if s[0] == 'l' || s[0] == 'h' || s[0] == 'z' || s[0] == 't' || s[0] == 'j' || s[0] == 'L' then 1
    else 0
  }

  function Length(s: string, f: Info): Info {
    if s == [] then f
    else if s[0] == 'l' then f.(size := if LengthChars(s) == 2 then 16 else 8)
    else if s[0] == 'h' then f.(size := if LengthChars(s) == 2 then 1 else 2)
    else if s[0] == 'z' then f.(size := 8, szt := true)
    else if s[0] == 't' then f.(size := 8, ptd := true)
    else if s[0] == 'L' then f.(size := 16)
    else f
  }

  predicate IsHex(c: char) {
    c == 'p' || c == 'X' || c == 'x'
  }

  predicate IsUpper(c: char) {
    c == 'p' || c == 'X'
  }

  function BaseOf(c: char): nat {
    if IsHex(c) then 16 else if c == 'o' then 8 else 10
  }

  /// The integer conversions that the switch knows.
  predicate IsInteger(c: char) {
    IsHex(c) || c == 'o' || c == 'u' || c == 'i'
  }

  function KindOf(c: char, kind: Kind): Kind {
    if IsInteger(c) then INT
    else if c == 'c' then CHR
    else if c == 's' then STR
    else if c == '%' then ESC
    else kind
  }

  /// The switch on the conversion has no case for 'd' nor for the floating-point ones, which
  /// leave all but the base and the case of the digits as it was.
  function Conversion(c: char, f: Info): Info {
    f.(upper := IsUpper(c),
       base := BaseOf(c),
       alternate := f.alternate || c == 'p',
       kind := KindOf(c, f.kind),
       size := if IsInteger(c) && f.size == 0 then 4 else f.size,
       precision := if IsInteger(c) && f.precision == -1 then 1 else f.precision,
       writeSigned := if IsInteger(c) then c == 'i' else f.writeSigned)
  }

  datatype Reading = Read(info: Info, rest: string) | PastTheEnd

  /// What read_format makes of the text after the '%'. Without a conversion character the
  /// code goes on behind the terminator.
  function ReadFormat(s: string, f: Info): Reading {
    var t := AfterFlags(s);
    var g := Flags(s, f);
    var u := t[LengthChars(t)..];
    if u == [] then PastTheEnd else Read(Conversion(u[0], Length(t, g)), u[1..])
  }

  // ---- write_format ----

  /// An int read from a register and widened to 64 bits.
  function Widened(bits: nat): nat {
    var low := bits % 0x1_0000_0000;
    if low < 0x8000_0000 then low else low + 0xFFFF_FFFF_0000_0000
  }

  function Fetch(size: nat, whole: bool, bits: nat): nat {
    if whole then bits
    else if size == 1 then bits % 0x100
    else if size == 2 then bits % 0x1_0000
    else if size == 4 then Widened(bits)
    else bits
  }

  function IntText(f: Info, bits: nat): string {
    if f.right then ""
    else (if f.alternate && f.base == 16 then "0x" else "")
         + Print(Fetch(f.size, f.szt || f.ptd, bits), f.base, f.upper)
  }

  datatype Output = Wrote(text: string, args: seq<Arg>) | NoArgument

  predicate Takes(f: Info, arg: Arg) {
    if f.kind.STR? then arg.Str?
    else arg.Num? && arg.bits < 0x1_0000_0000_0000_0000 && (f.kind.INT? ==> f.size > 0 || f.szt || f.ptd)
  }

  /// Without an argument of the right kind, or for an integer of no size, C leaves open
  /// what happens.
  function Write(f: Info, args: seq<Arg>): Output {
    if f.kind.ESC? then Wrote("%", args)
    else if args == [] || !Takes(f, args[0]) then NoArgument
    else if f.kind.STR? then Wrote(args[0].text, args[1..])
    else if f.kind.CHR? then Wrote([(args[0].bits % 0x100) as char], args[1..])
    else Wrote(IntText(f, args[0].bits), args[1..])
  }

  // ---- vsprintf ----

  function Percent(s: string): (i: nat)
    ensures i <= |s|
  {
    if s == [] || s[0] == '%' then 0 else 1 + Percent(s[1..])
  }

  datatype Printed = Printed(text: string, count: nat) | Undefined

  lemma {:induction false} AfterFlagsIsSuffix(s: string)
    ensures |AfterFlags(s)| <= |s|
  {
    if s != [] && IsFlag(s[0]) {
      AfterFlagsIsSuffix(s[1..]);
    }
  }

  lemma ReadFormatAdvances(s: string, f: Info)
    ensures ReadFormat(s, f).Read? ==> |ReadFormat(s, f).rest| < |s|
  {
    AfterFlagsIsSuffix(s);
  }

  function Prefixed(head: string, p: Printed): Printed {
    match p
    case Undefined => Undefined
    case Printed(text, n) => Printed(head + text, n)
  }

  function Counted(p: Printed): Printed {
    match p
    case Undefined => Undefined
    case Printed(text, n) => Printed(text, n + 1)
  }

  function Format(s: string, args: seq<Arg>, f: Info): Printed
    decreases |s|
  {
    var i := Percent(s);
    if i == |s| then Printed(s, 0) else Prefixed(s[..i], Convert(s[i + 1..], args, f))
  }

  /// One conversion, from behind its '%', and all that follows.
  function Convert(s: string, args: seq<Arg>, f: Info): Printed
    decreases |s|
  {
    match ReadFormat(s, Defaults(f))
    case PastTheEnd => Undefined
    case Read(g, rest) =>
      match Write(g, args)
      case NoArgument => Undefined
      case Wrote(text, left) =>
        ReadFormatAdvances(s, Defaults(f));
        Prefixed(text, Counted(Format(rest, left, g)))
  }

  // ---- what a format string says ----

  /// A format string in pieces: plain text, or a conversion with its flags and length.
  datatype Size = NoSize | HH | H | L | LL | Z | T | J | BigL
  datatype Piece = Text(text: string) | Conv(flags: string, size: Size, c: char)

  function SizeText(z: Size): string {
    match z
    case NoSize => ""
    case HH => "hh"
    case H => "h"
    case L => "l"
    case LL => "ll"
    case Z => "z"
    case T => "t"
    case J => "j"
    case BigL => "L"
  }

  function Spelled(p: Piece): string {
    match p
    case Text(t) => t
    case Conv(flags, z, c) => ['%'] + flags + SizeText(z) + [c]
  }

  function Spelling(ps: seq<Piece>): string {
    if ps == [] then "" else Spelled(ps[0]) + Spelling(ps[1..])
  }

  predicate IsLength(c: char) {
    c == 'l' || c == 'h' || c == 'z' || c == 't' || c == 'j' || c == 'L'
  }

  predicate OnlyFlags(flags: string) {
    forall x <- flags :: IsFlag(x)
  }

  /// The text has no percent sign, and the conversion character is not part of the flags or
  /// of the length.
  predicate Proper(p: Piece) {
    match p
    case Text(t) => '%' !in t
    case Conv(flags, z, c) =>
      && OnlyFlags(flags)
      && (z.NoSize? ==> !IsFlag(c) && !IsLength(c))
      && (z.L? ==> c != 'l') && (z.H? ==> c != 'h')
  }

  predicate RightAligned(flags: string) {
    '0' in flags || '-' in flags
  }

  /// Bytes that a length modifier sets.
  function Explicit(z: Size): nat {
    match z
    case NoSize => 0
    case HH => 1
    case H => 2
    case L => 8
    case LL => 16
    case Z => 8
    case T => 8
    case J => 0
    case BigL => 16
  }

  /// Bytes of the argument that the code takes.
  function Bytes(z: Size, c: char): nat {
    if Explicit(z) == 0 && IsInteger(c) then 4 else Explicit(z)
  }

  /// `whole` says that a conversion with z or t has come before: the marks it leaves are
  /// never taken back, and make every later integer a full register.
  function After(p: Piece, whole: bool): bool {
    whole || (p.Conv? && (p.size.Z? || p.size.T?))
  }

  function IntShown(p: Piece, whole: bool, bits: nat): string
    requires p.Conv?
  {
    if RightAligned(p.flags) then ""
    else
      (if (p.c == 'p' || '#' in p.flags) && IsHex(p.c) then "0x" else "")
      + Print(Fetch(Bytes(p.size, p.c), After(p, whole), bits), BaseOf(p.c), IsUpper(p.c))
  }

  /// What a piece prints and which arguments it leaves. A conversion that the switch does not
  /// know is a number in base 10 if it has a size, or if a mark makes the whole register count.
  function Shown(p: Piece, whole: bool, args: seq<Arg>): Output {
    if p.Text? then Wrote(p.text, args)
    else if p.c == '%' then Wrote("%", args)
    else if args == [] || args[0].Str? != (p.c == 's') then NoArgument
    else if p.c == 's' then Wrote(args[0].text, args[1..])
    else if args[0].bits >= 0x1_0000_0000_0000_0000 then NoArgument
    else if p.c == 'c' then Wrote([(args[0].bits % 0x100) as char], args[1..])
    else if Bytes(p.size, p.c) == 0 && !After(p, whole) then NoArgument
    else Wrote(IntShown(p, whole, args[0].bits), args[1..])
  }

  function ShownAll(ps: seq<Piece>, whole: bool, args: seq<Arg>): Printed
    decreases |ps|
  {
    if ps == [] then Printed("", 0)
    else
      match Shown(ps[0], whole, args)
      case NoArgument => Undefined
      case Wrote(text, left) =>
        var more := ShownAll(ps[1..], After(ps[0], whole), left);
        Prefixed(text, if ps[0].Conv? then Counted(more) else more)
  }

  lemma {:induction false} PercentSkips(t: string, s: string)
    requires '%' !in t
    ensures Percent(t + s) == |t| + Percent(s)
  {
    if t == [] {
      assert t + s == s;
    } else {
      assert (t + s)[1..] == t[1..] + s;
      PercentSkips(t[1..], s);
    }
  }

  lemma PrefixedTwice(t: string, h: string, p: Printed)
    ensures Prefixed(t, Prefixed(h, p)) == Prefixed(t + h, p)
  {
    if p.Printed? {
      assert t + (h + p.text) == (t + h) + p.text;
    }
  }

  lemma SlicesBehind(t: string, s: string, i: nat)
    requires i < |s|
    ensures (t + s)[|t| + i + 1..] == s[i + 1..] && (t + s)[..|t| + i] == t + s[..i]
  {
  }

  /// Text before a format is copied.
  lemma TextIsCopied(t: string, s: string, args: seq<Arg>, f: Info)
    requires '%' !in t
    ensures Format(t + s, args, f) == Prefixed(t, Format(s, args, f))
  {
    PercentSkips(t, s);
    var i := Percent(s);
    if i == |s| {
      assert Format(s, args, f) == Printed(s, 0) && Format(t + s, args, f) == Printed(t + s, 0);
    } else {
      SlicesBehind(t, s, i);
      PrefixedTwice(t, s[..i], Convert(s[i + 1..], args, f));
    }
  }

  /// What the flags of a conversion leave set.
  predicate Flagged(f: Info, g: Info, flags: string) {
    && g.alternate == (f.alternate || '#' in flags)
    && g.right == (f.right || RightAligned(flags))
    && g.kind == f.kind && g.size == f.size && g.szt == f.szt && g.ptd == f.ptd
    && g.precision == f.precision
  }

  lemma {:induction false} FlagsEnd(flags: string, s: string)
    requires OnlyFlags(flags) && s != [] && !IsFlag(s[0])
    ensures AfterFlags(flags + s) == s
  {
    if flags == [] {
      assert flags + s == s;
    } else {
      assert (flags + s)[0] == flags[0] && (flags + s)[1..] == flags[1..] + s;
      assert IsFlag(flags[0]) && OnlyFlags(flags[1..]);
      FlagsEnd(flags[1..], s);
    }
  }

  lemma FlagThenFlags(f: Info, g: Info, flags: string)
    requires flags != [] && IsFlag(flags[0]) && Flagged(Flag(flags[0], f), g, flags[1..])
    ensures Flagged(f, g, flags)
  {
    FlagSets(flags[0], f);
    FirstOrRest(flags, '#');
    FirstOrRest(flags, '0');
    FirstOrRest(flags, '-');
  }

  lemma FlagSets(c: char, f: Info)
    requires IsFlag(c)
    ensures Flagged(f, Flag(c, f), [c])
  {
  }

  lemma FirstOrRest(flags: string, c: char)
    requires flags != []
    ensures c in flags <==> c == flags[0] || c in flags[1..]
  {
  }

  lemma {:induction false} FlagsAreRead(flags: string, s: string, f: Info)
    requires OnlyFlags(flags) && s != [] && !IsFlag(s[0])
    ensures Flagged(f, Flags(flags + s, f), flags)
  {
    if flags == [] {
      assert flags + s == s;
    } else {
      assert (flags + s)[0] == flags[0] && (flags + s)[1..] == flags[1..] + s;
      assert IsFlag(flags[0]) && OnlyFlags(flags[1..]);
      FlagsAreRead(flags[1..], s, Flag(flags[0], f));
      FlagThenFlags(f, Flags(flags[1..] + s, Flag(flags[0], f)), flags);
    }
  }

  lemma LengthIsRead(p: Piece, s: string, f: Info)
    requires p.Conv? && Proper(p)
    ensures var t := SizeText(p.size) + [p.c] + s;
            t != [] && !IsFlag(t[0]) && LengthChars(t) == |SizeText(p.size)| && t[LengthChars(t)..] == [p.c] + s
    ensures var t := SizeText(p.size) + [p.c] + s;
            Length(t, f) == f.(size := if Explicit(p.size) == 0 then f.size else Explicit(p.size),
                               szt := f.szt || p.size.Z?, ptd := f.ptd || p.size.T?)
  {
    var z := p.size;
    var t := SizeText(z) + [p.c] + s;
    assert t[|SizeText(z)|] == p.c;
    assert t[|SizeText(z)|..] == [p.c] + s;
  }

  predicate Whole(f: Info) {
    f.szt || f.ptd
  }

  /// What read_format finds out about a conversion.
  predicate Found(p: Piece, f: Info, g: Info)
    requires p.Conv?
  {
    && g.right == RightAligned(p.flags)
    && g.alternate == ('#' in p.flags || p.c == 'p')
    && g.base == BaseOf(p.c) && g.upper == IsUpper(p.c)
    && g.kind == (if p.c == 'c' then CHR else if p.c == 's' then STR else if p.c == '%' then ESC else INT)
    && (g.kind == INT ==> g.size == Bytes(p.size, p.c))
    && Whole(g) == After(p, Whole(f))
  }

  lemma ConversionFinds(p: Piece, h: Info)
    requires p.Conv? && h.alternate == ('#' in p.flags) && h.kind == INT
    ensures var g := Conversion(p.c, h);
      && g.right == h.right && g.alternate == ('#' in p.flags || p.c == 'p')
      && g.base == BaseOf(p.c) && g.upper == IsUpper(p.c)
      && g.kind == (if p.c == 'c' then CHR else if p.c == 's' then STR else if p.c == '%' then ESC else INT)
  {
  }

  lemma ConversionSizes(p: Piece, h: Info)
    requires p.Conv? && h.size == Explicit(p.size)
    ensures var g := Conversion(p.c, h);
      g.szt == h.szt && g.ptd == h.ptd && g.size == Bytes(p.size, p.c)
  {
  }

  /// `read_format` finds what the conversion was spelled with, and stops right behind it.
  lemma ConversionIsRead(p: Piece, s: string, f: Info)
    requires p.Conv? && Proper(p)
    ensures var r := ReadFormat(p.flags + (SizeText(p.size) + [p.c] + s), Defaults(f));
            r.Read? && r.rest == s && Found(p, f, r.info)
  {
    var t := SizeText(p.size) + [p.c] + s;
    var g := Flags(p.flags + t, Defaults(f));
    LengthIsRead(p, s, g);
    FlagsEnd(p.flags, t);
    FlagsAreRead(p.flags, t, Defaults(f));
    ConversionFinds(p, Length(t, g));
    ConversionSizes(p, Length(t, g));
    var u := t[LengthChars(t)..];
    assert u[0] == p.c && u[1..] == s;
    assert ReadFormat(p.flags + t, Defaults(f)) == Read(Conversion(u[0], Length(t, g)), u[1..]);
  }

  lemma FoundIsShown(p: Piece, f: Info, g: Info, args: seq<Arg>)
    requires p.Conv? && Found(p, f, g)
    ensures Write(g, args) == Shown(p, Whole(f), args)
  {
  }

  /// The output for a spelling is the text of the pieces and the rendered arguments, one
  /// after the other.
  lemma {:induction false} PrintsPieces(ps: seq<Piece>, args: seq<Arg>, f: Info)
    requires forall p <- ps :: Proper(p)
    ensures Format(Spelling(ps), args, f) == ShownAll(ps, Whole(f), args)
    decreases |ps|
  {
    if ps != [] {
      var p := ps[0];
      var s := Spelling(ps[1..]);
      assert Proper(p);
      if p.Text? {
        PrintsPieces(ps[1..], args, f);
        TextIsCopied(p.text, s, args, f);
      } else {
        ConversionIsPrinted(p, s, args, f);
        var r := ReadFormat(p.flags + (SizeText(p.size) + [p.c] + s), Defaults(f));
        ConversionIsRead(p, s, f);
        var w := Shown(p, Whole(f), args);
        if w.Wrote? {
          PrintsPieces(ps[1..], w.args, r.info);
        }
      }
    }
  }

  lemma ConversionIsPrinted(p: Piece, s: string, args: seq<Arg>, f: Info)
    requires p.Conv? && Proper(p)
    ensures var r := ReadFormat(p.flags + (SizeText(p.size) + [p.c] + s), Defaults(f));
            r.Read? && Format(Spelled(p) + s, args, f)
              == match Shown(p, Whole(f), args)
                 case NoArgument => Undefined
                 case Wrote(text, left) => Prefixed(text, Counted(Format(s, left, r.info)))
  {
    var t := p.flags + (SizeText(p.size) + [p.c] + s);
    var r := ReadFormat(t, Defaults(f));
    ConversionIsRead(p, s, f);
    FoundIsShown(p, f, r.info, args);
    SpellingOfConv(p, s);
    PercentFirst(t, args, f);
  }

  /// A format that starts with a percent sign starts with a conversion.
  lemma PercentFirst(t: string, args: seq<Arg>, f: Info)
    ensures Format(['%'] + t, args, f) == Convert(t, args, f)
  {
    var u := ['%'] + t;
    assert u[0] == '%' && u[1..] == t && u[..0] == "";
    StartsEmpty(Convert(t, args, f));
  }

  lemma StartsEmpty(p: Printed)
    ensures Prefixed("", p) == p
  {
    if p.Printed? {
      assert "" + p.text == p.text;
    }
  }

  // ---- every format string ----

  function SizeOf(s: string): Size {
    if LengthChars(s) == 0 then NoSize
    else if s[0] == 'l' then (if LengthChars(s) == 2 then LL else L)
    else if s[0] == 'h' then (if LengthChars(s) == 2 then HH else H)
    else if s[0] == 'z' then Z
    else if s[0] == 't' then T
    else if s[0] == 'j' then J
    else BigL
  }

  function FlagsOf(s: string): string {
    AfterFlagsIsSuffix(s);
    s[..|s| - |AfterFlags(s)|]
  }

  /// A string up to its first conversion: it has none, or it ends before the conversion
  /// character, or a conversion follows the text.
  datatype Cut = NoPercent | Dangling | Cut(text: string, conv: Piece, rest: string)

  function CutOf(s: string): (c: Cut)
    ensures c.Cut? ==> |c.rest| < |s|
  {
    var i := Percent(s);
    if i == |s| then NoPercent
    else
      var r := s[i + 1..];
      var t := AfterFlags(r);
      var u := t[LengthChars(t)..];
      AfterFlagsIsSuffix(r);
      if u == [] then Dangling else Cut(s[..i], Conv(FlagsOf(r), SizeOf(t), u[0]), u[1..])
  }

  /// The pieces of a format string; none if its last percent sign has no conversion.
  function Split(s: string): Option<seq<Piece>>
    decreases |s|
  {
    match CutOf(s)
    case NoPercent => Some([Text(s)])
    case Dangling => None
    case Cut(text, conv, rest) =>
      match Split(rest)
      case None => None
      case Some(ps) => Some([Text(text), conv] + ps)
  }

  lemma {:induction false} FlagsSplit(s: string)
    ensures |AfterFlags(s)| <= |s| && s == FlagsOf(s) + AfterFlags(s) && OnlyFlags(FlagsOf(s))
    ensures AfterFlags(s) != [] ==> !IsFlag(AfterFlags(s)[0])
  {
    if s != [] && IsFlag(s[0]) {
      FlagsSplit(s[1..]);
      AfterFlagsIsSuffix(s[1..]);
      assert FlagsOf(s) == [s[0]] + FlagsOf(s[1..]);
    }
  }

  lemma {:induction false} PercentIsFirst(s: string)
    ensures '%' !in s[..Percent(s)] && (Percent(s) < |s| ==> s[Percent(s)] == '%')
  {
    if s != [] && s[0] != '%' {
      PercentIsFirst(s[1..]);
      assert s[..Percent(s)] == [s[0]] + s[1..][..Percent(s) - 1];
    }
  }

  lemma LengthSplits(t: string)
    requires t != [] && !IsFlag(t[0]) && t[LengthChars(t)..] != []
    ensures t == SizeText(SizeOf(t)) + [t[LengthChars(t)]] + t[LengthChars(t) + 1..]
    ensures Proper(Conv("", SizeOf(t), t[LengthChars(t)]))
  {
    assert t[..LengthChars(t)] == SizeText(SizeOf(t));
  }

  lemma PlainTextSpells(s: string)
    requires Percent(s) == |s|
    ensures Spelling([Text(s)]) == s && Proper(Text(s))
  {
    PercentIsFirst(s);
    assert s[..Percent(s)] == s;
    assert [Text(s)][1..] == [];
    assert s + "" == s;
  }

  lemma ConvSpells(r: string)
    requires var t := AfterFlags(r); t[LengthChars(t)..] != []
    ensures var t := AfterFlags(r);
      var u := t[LengthChars(t)..];
      var c := Conv(FlagsOf(r), SizeOf(t), u[0]);
      Proper(c) && Spelled(c) + u[1..] == ['%'] + r
  {
    var t := AfterFlags(r);
    var u := t[LengthChars(t)..];
    FlagsSplit(r);
    LengthSplits(t);
    assert u[1..] == t[LengthChars(t) + 1..];
    SpellingOfConv(Conv(FlagsOf(r), SizeOf(t), u[0]), u[1..]);
  }

  lemma CutSpells(s: string)
    requires CutOf(s).Cut?
    ensures var c := CutOf(s); Proper(Text(c.text)) && Proper(c.conv) && s == c.text + (Spelled(c.conv) + c.rest)
    ensures CutOf(s).conv.Conv?
  {
    PercentIsFirst(s);
    ConvSpells(s[Percent(s) + 1..]);
    assert s == s[..Percent(s)] + (['%'] + s[Percent(s) + 1..]);
  }

  /// The pieces spell the string.
  lemma {:induction false} SplitSpells(s: string)
    requires Split(s).Some?
    ensures Spelling(Split(s).value) == s && forall p <- Split(s).value :: Proper(p)
    decreases |s|
  {
    match CutOf(s) {
      case NoPercent => PlainTextSpells(s);
      case Dangling =>
      case Cut(text, conv, rest) =>
        CutSpells(s);
        SplitSpells(rest);
        SpellingOfTwo(Text(text), conv, Split(rest).value);
    }
  }

  lemma Assoc(a: string, b: string, c: string)
    ensures (a + b) + c == a + (b + c)
  {
  }

  lemma SpellingOfConv(c: Piece, rest: string)
    requires c.Conv?
    ensures Spelled(c) + rest == ['%'] + (c.flags + (SizeText(c.size) + [c.c] + rest))
  {
    var z := SizeText(c.size) + [c.c];
    Assoc(['%'] + c.flags, SizeText(c.size), [c.c]);
    Assoc(['%'] + c.flags, z, rest);
    Assoc(['%'], c.flags, z + rest);
  }

  lemma SpellingOfTwo(p: Piece, c: Piece, ps: seq<Piece>)
    requires p.Text? && c.Conv?
    ensures Spelling([p, c] + ps) == p.text + (Spelled(c) + Spelling(ps))
  {
    var q := [p, c] + ps;
    assert q[0] == p && q[1..] == [c] + ps;
    assert q[1..][0] == c && q[1..][1..] == ps;
  }

  /// A string without pieces runs past its end, whatever the arguments are.
  lemma {:induction false} SplitNoneIsUndefined(s: string, args: seq<Arg>, f: Info)
    requires Split(s).None?
    ensures Format(s, args, f) == Undefined
    decreases |s|
  {
    if CutOf(s).Cut? {
      var r := s[Percent(s) + 1..];
      var t := AfterFlags(r);
      var u := t[LengthChars(t)..];
      var g := Conversion(u[0], Length(t, Flags(r, Defaults(f))));
      assert ReadFormat(r, Defaults(f)) == Read(g, u[1..]);
      if Write(g, args).Wrote? {
        SplitNoneIsUndefined(u[1..], Write(g, args).args, g);
      }
    }
  }

  /// For every format string: the literal text and the rendered arguments of its pieces, or
  /// undefined if it has none.
  lemma FormatIsShown(s: string, args: seq<Arg>, f: Info)
    ensures Format(s, args, f) == match Split(s) case None => Undefined case Some(ps) => ShownAll(ps, Whole(f), args)
  {
    if Split(s).None? {
      SplitNoneIsUndefined(s, args, f);
    } else {
      SplitSpells(s);
      PrintsPieces(Split(s).value, args, f);
    }
  }

  // ---- against section 7.21.6.1 of C11 ----

  /// The number of values of the type that a length modifier names.
  function Values(z: Size): nat {
    match z
    case HH => 0x100
    case H => 0x1_0000
    case NoSize => 0x1_0000_0000
    case _ => 0x1_0000_0000_0000_0000
  }

  function Low(z: Size, bits: nat): nat {
    match z
    case HH => bits % 0x100
    case H => bits % 0x1_0000
    case NoSize => bits % 0x1_0000_0000
    case _ => bits % 0x1_0000_0000_0000_0000
  }

  predicate IsNegative(z: Size, bits: nat) {
    2 * Low(z, bits) >= Values(z)
  }

  /// What the standard asks of an integer conversion, with any flags and no width.
  function Standard(p: Piece, bits: nat): string
    requires p.Conv?
  {
    var low, alternate := Low(p.size, bits), '#' in p.flags;
    if p.c == 'o' then (if alternate && low != 0 then "0" else "") + Numeral(low, 8, false)
    else if p.c == 'x' then (if alternate && low != 0 then "0x" else "") + Numeral(low, 16, false)
    else if p.c == 'X' then (if alternate && low != 0 then "0X" else "") + Numeral(low, 16, true)
    else if p.c == 'u' then Numeral(low, 10, false)
    else if IsNegative(p.size, bits) then "-" + Numeral(Values(p.size) - low, 10, false)
    else (if '+' in p.flags then "+" else if ' ' in p.flags then " " else "") + Numeral(low, 10, false)
  }

  /// When the code reads the value the standard means.
  predicate ReadsRightValue(z: Size, whole: bool, bits: nat) {
    match z
    case HH => whole ==> bits < 0x100
    case H => whole ==> bits < 0x1_0000
    case NoSize => if whole then bits < 0x1_0000_0000 else bits % 0x1_0000_0000 < 0x8000_0000
    case J => whole || bits < 0x8000_0000 || bits >= 0xFFFF_FFFF_8000_0000
    case _ => true
  }

  lemma FetchIsLowIff(z: Size, c: char, whole: bool, bits: nat)
    requires bits < 0x1_0000_0000_0000_0000
    requires !z.BigL? && IsInteger(c)
    ensures Fetch(Bytes(z, c), whole || z.Z? || z.T?, bits) == Low(z, bits) <==> ReadsRightValue(z, whole, bits)
  {
    assert bits % 0x1_0000_0000_0000_0000 == bits;
    WidenedIsSameIff(bits);
    match z
    case HH =>
      assert whole ==> (bits == bits % 0x100 <==> bits < 0x100);
    case H =>
      assert whole ==> (bits == bits % 0x1_0000 <==> bits < 0x1_0000);
    case NoSize =>
      assert whole ==> (bits == bits % 0x1_0000_0000 <==> bits < 0x1_0000_0000);
    case _ =>
  }

  lemma StartsWithDigit(v: nat, base: nat, upper: bool)
    requires IsBase(base)
    ensures var c := Numeral(v, base, upper)[0]; c != '-' && c != '+' && c != ' '
    ensures Numeral(v, base, upper)[0] == '0' <==> v == 0
    ensures v == 0 ==> Numeral(v, base, upper) == "0"
  {
    PrintIsNumeral(v, base, upper);
    NoLeadingZero(v, base, upper);
    PrintUsesDigits(v, base, upper, 0);
    var d: nat :| d < base && d < 16 && Print(v, base, upper)[0] == Digit(d, upper);
    DigitIsNoSign(d, upper);
  }

  lemma DigitIsNoSign(d: nat, upper: bool)
    requires d < 16
    ensures Digit(d, upper) == DigitChar(d, upper) && Digit(d, upper) !in "-+ "
  {
  }

  lemma SameNumeralIff(v: nat, w: nat, base: nat, upper: bool)
    requires IsBase(base)
    ensures Numeral(v, base, upper) == Numeral(w, base, upper) <==> v == w
  {
    PrintIsNumeral(v, base, upper);
    PrintIsNumeral(w, base, upper);
    SamePrintIff(v, w, base, upper);
  }

  /// The digits of a value behind the prefix that the code writes.
  function Plain(p: Piece, v: nat): string
    requires p.Conv?
  {
    match p.c
    case 'o' => Numeral(v, 8, false)
    case 'x' => (if '#' in p.flags then "0x" else "") + Numeral(v, 16, false)
    case 'X' => (if '#' in p.flags then "0x" else "") + Numeral(v, 16, true)
    case 'p' => "0x" + Numeral(v, 16, true)
    case _ => Numeral(v, 10, false)
  }

  /// An integer conversion that the code prints at all.
  lemma IntIsNumeral(p: Piece, whole: bool, bits: nat)
    requires p.Conv? && IsInteger(p.c) && !RightAligned(p.flags)
    ensures IntShown(p, whole, bits) == Plain(p, Fetch(Bytes(p.size, p.c), After(p, whole), bits))
  {
    var v := Fetch(Bytes(p.size, p.c), After(p, whole), bits);
    PrintIsNumeral(v, BaseOf(p.c), IsUpper(p.c));
    assert "" + Numeral(v, BaseOf(p.c), IsUpper(p.c)) == Numeral(v, BaseOf(p.c), IsUpper(p.c));
  }

  /// Which prefixes are those of the standard.
  predicate PrefixIsRight(p: Piece, bits: nat)
    requires p.Conv?
  {
    match p.c
    case 'o' => '#' in p.flags ==> Low(p.size, bits) == 0
    case 'x' => '#' in p.flags ==> Low(p.size, bits) != 0
    case 'X' => '#' !in p.flags
    case 'i' => !IsNegative(p.size, bits) && '+' !in p.flags && ' ' !in p.flags
    case _ => true
  }

  lemma OctalMeetsIff(v: nat, low: nat, alternate: bool)
    ensures Numeral(v, 8, false) == (if alternate && low != 0 then "0" else "") + Numeral(low, 8, false)
       <==> v == low && (alternate ==> low == 0)
  {
    SameNumeralIff(v, low, 8, false);
    StartsWithDigit(v, 8, false);
    var s := Numeral(low, 8, false);
    assert "" + s == s && ("0" + s)[0] == '0' && |"0" + s| > 1;
  }

  lemma HexMeetsIff(v: nat, low: nat, alternate: bool, upper: bool)
    ensures (if alternate then "0x" else "") + Numeral(v, 16, upper)
         == (if alternate && low != 0 then (if upper then "0X" else "0x") else "") + Numeral(low, 16, upper)
       <==> v == low && (alternate ==> low != 0 && !upper)
  {
    SameNumeralIff(v, low, 16, upper);
    StartsWithDigit(low, 16, upper);
    var s, r := Numeral(v, 16, upper), Numeral(low, 16, upper);
    assert "" + s == s && "" + r == r;
    SamePrefixIff("0x", s, r);
    assert ("0x" + s)[1] == 'x' && |"0x" + s| > 2 && ("0X" + r)[1] == 'X';
  }

  lemma SignedMeetsIff(v: nat, low: nat, values: nat, negative: bool, plus: bool, space: bool)
    requires negative ==> low <= values
    ensures Numeral(v, 10, false)
         == (if negative then "-" + Numeral(values - low, 10, false)
             else (if plus then "+" else if space then " " else "") + Numeral(low, 10, false))
       <==> v == low && !negative && !plus && !space
  {
    SameNumeralIff(v, low, 10, false);
    StartsWithDigit(v, 10, false);
    var r := Numeral(low, 10, false);
    assert "" + r == r && ("+" + r)[0] == '+' && (" " + r)[0] == ' ';
    if negative {
      assert ("-" + Numeral(values - low, 10, false))[0] == '-';
    }
  }

  /// An integer conversion prints what the standard asks for exactly when it prints at all, the
  /// code reads the right value, and no other prefix is due: a sign is never written, the
  /// prefix of `X` is in lower case, zero gets one too, and `o` never gets one. `int` is
  /// widened with its sign even for unsigned conversions, and `j` is ignored. The standard says
  /// nothing of `#` on other conversions, nor of `L` on integers.
  lemma MeetsStandardIff(p: Piece, whole: bool, bits: nat)
    requires p.Conv? && (p.c == 'u' || p.c == 'o' || p.c == 'x' || p.c == 'X' || p.c == 'i') && !p.size.BigL?
    requires bits < 0x1_0000_0000_0000_0000 && ('#' in p.flags ==> p.c == 'o' || p.c == 'x' || p.c == 'X')
    ensures IntShown(p, whole, bits) == Standard(p, bits)
       <==> '0' !in p.flags && '-' !in p.flags && ReadsRightValue(p.size, whole, bits) && PrefixIsRight(p, bits)
    ensures '0' in p.flags || '-' in p.flags ==> IntShown(p, whole, bits) == ""
  {
    if RightAligned(p.flags) {
      StandardPrints(p, bits);
    } else {
      FetchIsLowIff(p.size, p.c, whole, bits);
      IntIsNumeral(p, whole, bits);
      NumeralMeetsIff(p, bits, Fetch(Bytes(p.size, p.c), After(p, whole), bits));
    }
  }

  lemma StandardPrints(p: Piece, bits: nat)
    requires p.Conv?
    ensures Standard(p, bits) != ""
  {
  }

  lemma NumeralMeetsIff(p: Piece, bits: nat, v: nat)
    requires p.Conv? && (p.c == 'u' || p.c == 'o' || p.c == 'x' || p.c == 'X' || p.c == 'i')
    ensures Plain(p, v) == Standard(p, bits) <==> v == Low(p.size, bits) && PrefixIsRight(p, bits)
  {
    var low := Low(p.size, bits);
    match p.c
    case 'o' => OctalMeetsIff(v, low, '#' in p.flags);
    case 'x' => HexMeetsIff(v, low, '#' in p.flags, false);
    case 'X' => HexMeetsIff(v, low, '#' in p.flags, true);
    case 'i' =>
      SignedMeetsIff(v, low, Values(p.size), IsNegative(p.size, bits), '+' in p.flags, ' ' in p.flags);
    case _ => SameNumeralIff(v, low, 10, false);
  }

  /// `d`, which the switch does not know, prints like `i` where it prints anything.
  lemma DecimalIsPrinted(flags: string, z: Size, whole: bool, bits: nat)
    requires Explicit(z) != 0 || whole
    ensures IntShown(Conv(flags, z, 'd'), whole, bits) == IntShown(Conv(flags, z, 'i'), whole, bits)
  {
  }

  /// The other conversions: a character is the lowest byte of its argument, a string is copied,
  /// and two percent signs are one; flags and lengths are ignored.
  lemma OthersMeetStandard(p: Piece, whole: bool, arg: Arg, rest: seq<Arg>)
    requires p.Conv? && (p.c == 'c' || p.c == 's' || p.c == '%')
    requires p.c == 'c' ==> arg.Num? && arg.bits < 0x1_0000_0000_0000_0000
    requires p.c == 's' ==> arg.Str?
    ensures Shown(p, whole, [arg] + rest) ==
      match p.c
      case 's' => Wrote(arg.text, rest)
      case 'c' => Wrote([(arg.bits % 256) as char], rest)
      case _ => Wrote("%", [arg] + rest)
  {
    assert ([arg] + rest)[1..] == rest;
  }

  lemma SamePrintIff(v: nat, w: nat, base: nat, upper: bool)
    requires IsBase(base)
    ensures Print(v, base, upper) == Print(w, base, upper) <==> v == w
  {
    if Print(v, base, upper) == Print(w, base, upper) {
      PrintIsInjective(v, w, base, upper);
    }
  }

  lemma SamePrefixIff(h: string, s: string, t: string)
    ensures h + s == h + t <==> s == t
  {
    assert (h + s)[|h|..] == s && (h + t)[|h|..] == t;
  }

  lemma WidenedIsSameIff(bits: nat)
    requires bits < 0x1_0000_0000_0000_0000
    ensures Widened(bits) == bits <==> bits < 0x8000_0000 || bits >= 0xFFFF_FFFF_8000_0000
  {
  }

  /// `%p` reads an int: it shows the addresses of the lowest and the highest two gibibytes.
  lemma PointerIsShownIff(p: Piece, bits: nat)
    requires p == Conv("", NoSize, 'p') && bits < 0x1_0000_0000_0000_0000
    ensures IntShown(p, false, bits) == "0x" + Numeral(bits, 16, true)
       <==> bits < 0x8000_0000 || bits >= 0xFFFF_FFFF_8000_0000
  {
    WidenedIsSameIff(bits);
    IntIsNumeral(p, false, bits);
    SameNumeralIff(Widened(bits), bits, 16, true);
    SamePrefixIff("0x", Numeral(Widened(bits), 16, true), Numeral(bits, 16, true));
  }

  /// The result is the number of conversions.
  lemma {:induction false} CountsConversions(ps: seq<Piece>, whole: bool, args: seq<Arg>)
    requires ShownAll(ps, whole, args).Printed?
    ensures ShownAll(ps, whole, args).count == Conversions(ps)
    decreases |ps|
  {
    if ps != [] {
      CountsConversions(ps[1..], After(ps[0], whole), Shown(ps[0], whole, args).args);
    }
  }

  function Conversions(ps: seq<Piece>): nat {
    if ps == [] then 0 else (if ps[0].Conv? then 1 else 0) + Conversions(ps[1..])
  }

  /// The mark of a `z` is never taken back: behind `%zu` and any text, `%u` prints all 64 bits,
  /// and by itself it prints an `int` widened with its sign.
  lemma MarkStays(text: string, a: nat, b: nat)
    requires a < 0x1_0000_0000_0000_0000 && b < 0x1_0000_0000_0000_0000
    ensures ShownAll([Conv("", Z, 'u'), Text(text), Conv("", NoSize, 'u')], false, [Num(a), Num(b)])
         == Printed(Numeral(a, 10, false) + (text + Numeral(b, 10, false)), 2)
    ensures ShownAll([Conv("", NoSize, 'u')], false, [Num(b)]) == Printed(Numeral(Widened(b), 10, false), 1)
  {
    var z, u := Conv("", Z, 'u'), Conv("", NoSize, 'u');
    IntIsNumeral(z, false, a);
    IntIsNumeral(u, true, b);
    IntIsNumeral(u, false, b);
    OnePiece(u, true, b);
    OnePiece(u, false, b);
    assert [Text(text), u][1..] == [u] && [z, Text(text), u][1..] == [Text(text), u];
    assert [Num(a), Num(b)][1..] == [Num(b)];
    assert ShownAll([Text(text), u], true, [Num(b)]) == Printed(text + Numeral(b, 10, false), 1);
  }

  lemma OnePiece(p: Piece, whole: bool, bits: nat)
    requires p == Conv("", NoSize, 'u') && bits < 0x1_0000_0000_0000_0000
    ensures ShownAll([p], whole, [Num(bits)]) == Printed(IntShown(p, whole, bits), 1)
  {
    assert [p][1..] == [] && [Num(bits)][1..] == [];
    assert IntShown(p, whole, bits) + "" == IntShown(p, whole, bits);
  }

  /// Whether the marks for z and t happen to be set in the uninitialised record shows in what
  /// a plain integer conversion prints, except for those same values.
  lemma StackShowsUnless(p: Piece, bits: nat)
    requires p.Conv? && p.size.NoSize? && IsInteger(p.c) && !RightAligned(p.flags)
    requires bits < 0x1_0000_0000_0000_0000
    ensures IntShown(p, true, bits) == IntShown(p, false, bits)
       <==> bits < 0x8000_0000 || bits >= 0xFFFF_FFFF_8000_0000
  {
    var base, upper := BaseOf(p.c), IsUpper(p.c);
    WidenedIsSameIff(bits);
    SamePrintIff(bits, Widened(bits), base, upper);
    var h := if (p.c == 'p' || '#' in p.flags) && IsHex(p.c) then "0x" else "";
    SamePrefixIff(h, Print(bits, base, upper), Print(Widened(bits), base, upper));
  }
}

/// The code: moving pointers, a scratch buffer filled from the right end, one record that all
/// conversions of a call share.
module Printer {
  import opened Formats
  import opened Numerals

  /// The digits still to come, in front of those in the scratch buffer.
  ghost function Pending(value: nat, base: nat, upper: bool): string {
    if value == 0 then "" else Print(value, base, upper)
  }

  lemma NextDigit(value: nat, base: nat, upper: bool, put: string)
    requires IsBase(base) && value > 0
    ensures Pending(value, base, upper) + Reversed(put)
         == Pending(Over(value, base), base, upper) + Reversed(put + [Digit(Rem(value, base), upper)])
  {
    var d := Digit(Rem(value, base), upper);
    ReversedAppend(put, d);
    LastDigit(value, base, upper);
    Assoc(Pending(Over(value, base), base, upper), [d], Reversed(put));
  }

  lemma LastDigit(value: nat, base: nat, upper: bool)
    requires IsBase(base) && value > 0
    ensures Pending(value, base, upper) == Pending(Over(value, base), base, upper) + [Digit(Rem(value, base), upper)]
  {
  }

  /// The loop that puts the digits into the scratch buffer, lowest first.
  method PutDigits(v: nat, base: nat, upper: bool, revint: array<char>) returns (n: nat)
    requires v < 0x1_0000_0000_0000_0000 && IsBase(base) && revint.Length == 256
    modifies revint
    ensures 0 < n <= 22
    ensures Reversed(revint[..n]) == Print(v, base, upper)
  {
    PrintFitsBuffer(v, base, upper);
    n := 0;
    var value := v;
    if value != 0 {
      while value > 0 && n != 256
        invariant n <= |Print(v, base, upper)| && (value == 0 ==> n > 0)
        invariant Pending(value, base, upper) + Reversed(revint[..n]) == Print(v, base, upper)
        decreases value
      {
        NextDigit(value, base, upper, revint[..n]);
        ReversedLength(revint[..n]);
        ghost var before := revint[..n];
        revint[n] := Digit(Rem(value, base), upper);
        assert revint[..n + 1] == before + [Digit(Rem(value, base), upper)];
        value := Over(value, base);
        n := n + 1;
      }
      ReversedLength(revint[..n]);
    } else {
      NoLeadingZero(v, base, upper);
      revint[n] := '0';
      n := n + 1;
      assert revint[..1] == ['0'];
    }
  }

  lemma {:induction false} ReversedLength(s: string)
    ensures |Reversed(s)| == |s|
  {
    if s != [] {
      ReversedLength(s[1..]);
    }
  }

  function Reversed(s: string): string {
    if s == [] then [] else Reversed(s[1..]) + [s[0]]
  }

  lemma {:induction false} ReversedAppend(s: string, c: char)
    ensures Reversed(s + [c]) == [c] + Reversed(s)
  {
    if s != [] {
      assert (s + [c])[1..] == s[1..] + [c];
      ReversedAppend(s[1..], c);
    }
  }

  /// What read_format guarantees about the record: the width is never parsed, and only the
  /// unsigned conversions are hexadecimal.
  predicate FromReadFormat(f: Info) {
    f.width == 1 && IsBase(f.base) && (f.base == 16 ==> !f.writeSigned)
  }

  function Prefix(f: Info): string {
    if f.alternate && f.base == 16 then "0x" else ""
  }

  /// Characters left to fill when the digits and the prefix are there.
  function Room(f: Info, digits: nat): int {
    (if f.width - digits > 0 then f.width - digits else 0) - |Prefix(f)|
  }

  function Padding(pad: char, room: int): string {
    if room <= 1 then "" else [pad] + Padding(pad, room - 1)
  }

  function Sign(f: Info, room: int, negative: bool): string {
    if room == 0 || !f.writeSigned then ""
    else [if negative then '-' else if f.signPad == '+' || f.signPad == ' ' then f.signPad else f.pad]
  }

  /// What goes in front of that many digits: the sign takes the last of the room.
  function Lead(f: Info, digits: nat, negative: bool): string {
    Prefix(f) + Padding(f.pad, Room(f, digits)) + Sign(f, Room(f, digits), negative)
  }

  /// What write_int writes for any width.
  function Padded(f: Info, bits: nat, negative: bool): string {
    if f.right then ""
    else
      var digits := Print(Fetch(f.size, Whole(f), bits), f.base, f.upper);
      Lead(f, |digits|, negative) + digits
  }

  /// With the width that read_format leaves there is never room for padding or for a sign.
  lemma NoRoomForSign(f: Info, bits: nat, negative: bool)
    requires FromReadFormat(f)
    ensures Padded(f, bits, negative) == IntText(f, bits)
  {
  }

  method WriteInt(dest: string, f: Info, bits: nat, negative: bool) returns (out: string)
    requires IsBase(f.base) && bits < 0x1_0000_0000_0000_0000 && (f.size > 0 || Whole(f))
    ensures out == dest + Padded(f, bits, negative)
  {
    out := dest;
    var value := Fetch(f.size, f.szt || f.ptd, bits);
    var revint := new char[256];
    var nwrote := PutDigits(value, f.base, f.upper, revint);
    ReversedLength(revint[..nwrote]);
    if !f.right {
      out := WriteLead(dest, f, nwrote, negative);
      out := CopyBack(out, revint, nwrote);
      Assoc(dest, Lead(f, nwrote, negative), Reversed(revint[..nwrote]));
    }
  }

  method WriteLead(dest: string, f: Info, nwrote: nat, negative: bool) returns (out: string)
    ensures out == dest + Lead(f, nwrote, negative)
  {
    out := dest;
    var npadchrs := if f.width - nwrote > 0 then f.width - nwrote else 0;
    if f.alternate && f.base == 16 {
      out := out + "0x";
      npadchrs := npadchrs - 2;
    }
    ghost var room := npadchrs;
    ghost var head := out;
    assert head == dest + Prefix(f) && room == Room(f, nwrote);
    while npadchrs > 1
      invariant out + Padding(f.pad, npadchrs) == head + Padding(f.pad, room)
      invariant npadchrs <= room && (room >= 1 ==> npadchrs >= 1) && (room < 1 ==> npadchrs == room)
    {
      out := out + [f.pad];
      npadchrs := npadchrs - 1;
    }
    assert out == head + Padding(f.pad, room);
    if npadchrs != 0 && f.writeSigned {
      out := out + [if negative then '-' else if f.signPad == '+' || f.signPad == ' ' then f.signPad else f.pad];
    }
    assert out == head + Padding(f.pad, room) + Sign(f, room, negative);
    Assoc(dest, Prefix(f), Padding(f.pad, room));
    Assoc(dest, Prefix(f) + Padding(f.pad, room), Sign(f, room, negative));
  }

  /// The loop that copies the digits out of the scratch buffer, last first.
  method CopyBack(dest: string, revint: array<char>, n: nat) returns (out: string)
    requires n <= revint.Length
    ensures out == dest + Reversed(revint[..n])
  {
    out := dest;
    var nwrote: nat := n;
    while nwrote > 0
      invariant nwrote <= n
      invariant out + Reversed(revint[..nwrote]) == dest + Reversed(revint[..n])
    {
      ReversedLast(revint[..nwrote]);
      assert revint[..nwrote][..nwrote - 1] == revint[..nwrote - 1];
      out := out + [revint[nwrote - 1]];
      nwrote := nwrote - 1;
    }
  }

  lemma ReversedLast(s: string)
    requires s != []
    ensures Reversed(s) == [s[|s| - 1]] + Reversed(s[..|s| - 1])
  {
    var t := s[..|s| - 1];
    assert t + [s[|s| - 1]] == s;
    ReversedAppend(t, s[|s| - 1]);
  }

  lemma {:induction false} FlagsKeepWidth(s: string, f: Info)
    ensures Flags(s, f).width == f.width
    decreases |s|
  {
    if s != [] && IsFlag(s[0]) {
      FlagsKeepWidth(s[1..], Flag(s[0], f));
    }
  }

  lemma WidthIsOne(s: string, f: Info)
    requires f.width == 1 && ReadFormat(s, f).Read?
    ensures FromReadFormat(ReadFormat(s, f).info)
  {
    var t, g := AfterFlags(s), Flags(s, f);
    var u := t[LengthChars(t)..];
    FlagsKeepWidth(s, f);
    LengthKeepsWidth(t, g);
    ConversionIsPrintable(u[0], Length(t, g));
    assert ReadFormat(s, f) == Read(Conversion(u[0], Length(t, g)), u[1..]);
  }

  lemma LengthKeepsWidth(s: string, f: Info)
    ensures Length(s, f).width == f.width
  {
  }

  lemma ConversionIsPrintable(c: char, f: Info)
    requires f.width == 1
    ensures FromReadFormat(Conversion(c, f))
  {
  }

  /// read_format with `format` at the '%'.
  method ReadFormatAt(format: string, at: nat, f: Info) returns (r: Reading, next: nat)
    requires at < |format|
    ensures r == ReadFormat(format[at + 1..], f)
    ensures r.Read? ==> at < next <= |format| && r.rest == format[next..]
  {
    var p := at + 1;
    var g := f;
    while p < |format| && IsFlag(format[p])
      invariant at < p <= |format|
      invariant AfterFlags(format[at + 1..]) == AfterFlags(format[p..])
      invariant Flags(format[at + 1..], f) == Flags(format[p..], g)
    {
      DropTwice(format, p, 1);
      g := Flag(format[p], g);
      p := p + 1;
    }
    assert AfterFlags(format[at + 1..]) == format[p..] && Flags(format[at + 1..], f) == g;
    var h := Length(format[p..], g);
    var k := LengthChars(format[p..]);
    DropTwice(format, p, k);
    next := p + k;
    if next < |format| {
      r := Read(Conversion(format[next], h), format[next + 1..]);
      DropTwice(format, next, 1);
      next := next + 1;
    } else {
      r := PastTheEnd;
    }
  }

  lemma DropTwice(s: string, i: nat, k: nat)
    requires i + k <= |s|
    ensures s[i..][k..] == s[i + k..]
  {
  }

  method FindPercent(s: string, from: nat) returns (i: nat)
    requires from <= |s|
    ensures from <= i <= |s| && i == from + Percent(s[from..])
  {
    i := from;
    while i < |s| && s[i] != '%'
      invariant from <= i <= |s| && from + Percent(s[from..]) == i + Percent(s[i..])
    {
      assert s[i..][1..] == s[i + 1..];
      i := i + 1;
    }
  }

  method WriteFormat(dest: string, f: Info, args: seq<Arg>, negative: bool) returns (out: string, w: Output)
    requires FromReadFormat(f)
    ensures w == Write(f, args)
    ensures w.Wrote? ==> out == dest + w.text
  {
    out := dest;
    if f.kind.ESC? {
      out := out + "%";
      w := Wrote("%", args);
    } else if args == [] || !Takes(f, args[0]) {
      w := NoArgument;
    } else {
      match f.kind {
        case INT =>
          NoRoomForSign(f, args[0].bits, negative);
          out := WriteInt(dest, f, args[0].bits, negative);
        case CHR =>
          out := out + [(args[0].bits % 0x100) as char];
        case STR =>
          out := out + args[0].text;
        case ESC =>
      }
      w := Wrote(out[|dest|..], args[1..]);
    }
  }

  /// The body of the loop in vsprintf, from the '%' at `at`; `text` is what it writes.
  method OneConversion(format: string, at: nat, dest: string, args: seq<Arg>, f: Info, negative: bool)
      returns (ok: bool, out: string, left: seq<Arg>, g: Info, next: nat, ghost text: string)
    requires at < |format|
    ensures !ok ==> Convert(format[at + 1..], args, f) == Undefined
    ensures ok ==> at < next <= |format| && out == dest + text
    ensures ok ==> Convert(format[at + 1..], args, f) == Prefixed(text, Counted(Format(format[next..], left, g)))
  {
    ok, out, left, g, text := false, dest, args, f, "";
    var reading, after := ReadFormatAt(format, at, Defaults(f));
    next := after;
    if reading.Read? {
      WidthIsOne(format[at + 1..], Defaults(f));
      g := reading.info;
      var written, w := WriteFormat(dest, g, args, negative);
      if w.Wrote? {
        ok, out, left, text := true, written, w.args, w.text;
      }
    }
  }

  /// vsprintf. `stack` is what the record holds before the call, and `negative` the sign test
  /// of each conversion.
  method Vsprintf(format: string, args: seq<Arg>, stack: Info, negative: seq<bool>) returns (r: Printed)
    ensures r == Format(format, args, stack)
  {
    var dest := "";
    var farg, left, argc, start: nat := stack, args, 0, 0;
    var end := FindPercent(format, start);
    assert format[0..] == format;
    StartsAtZero(Format(format, args, stack));
    while end < |format|
      invariant start <= end <= |format| && end == start + Percent(format[start..]) && argc >= 0
      invariant Format(format, args, stack) == Prefixed(dest, Raised(argc, Format(format[start..], left, farg)))
      decreases |format| - start
    {
      FormatSplits(format, start, end, left, farg);
      ghost var head, here := format[start..end], Format(format[start..], left, farg);
      var ok, out, rest, g, next, text :=
        OneConversion(format, end, dest + format[start..end], left, farg, argc < |negative| && negative[argc]);
      if !ok {
        return Undefined;
      }
      NextConversion(dest, head, text, argc, Format(format[next..], rest, g));
      dest, left, farg, start, argc := out, rest, g, next, argc + 1;
      end := FindPercent(format, start);
    }
    r := Printed(dest + format[start..], argc);
  }

  lemma StartsAtZero(p: Printed)
    ensures Prefixed("", Raised(0, p)) == p
  {
    StartsEmpty(p);
  }

  lemma FormatSplits(format: string, start: nat, end: nat, args: seq<Arg>, f: Info)
    requires start <= end < |format| && end == start + Percent(format[start..])
    ensures Format(format[start..], args, f) == Prefixed(format[start..end], Convert(format[end + 1..], args, f))
  {
    var s := format[start..];
    assert s[..end - start] == format[start..end] && s[end - start + 1..] == format[end + 1..];
  }

  ghost function Raised(n: nat, p: Printed): Printed {
    match p
    case Undefined => Undefined
    case Printed(text, m) => Printed(text, m + n)
  }

  lemma NextConversion(dest: string, head: string, text: string, n: nat, p: Printed)
    ensures Prefixed(dest, Raised(n, Prefixed(head, Prefixed(text, Counted(p)))))
         == Prefixed(dest + head + text, Raised(n + 1, p))
  {
    if p.Printed? {
      assert dest + (head + (text + p.text)) == dest + head + text + p.text;
    }
  }
}
