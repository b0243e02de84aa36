/** Printing numbers: uintmax_to_text and format_print_number of src/console.c. */
module NumberFormat {

  /** htab */
  const HTAB := "0123456789abcdef"
  const UINTMAX := 0x1_0000_0000_0000_0000
  /** sizeof(buff_i) */
  const BUFF := 64

  // ---- digits --------------------------------------------------------------------------------

  /** The value of a digit; 16 for anything else. */
  function DigitValue(c: char): nat {
    if '0' <= c <= '9' then (c as int) - ('0' as int)
    else if 'a' <= c <= 'f' then (c as int) - ('a' as int) + 10
    else 16
  }

  function Digit(d: nat): (c: char)
    requires d < 16
    ensures DigitValue(c) == d && c != '\0'
  {
    HTAB[d]
  }

  /** The bases uintmax_to_text is called with. */
  predicate IsBase(base: nat) {
    base == 8 || base == 10 || base == 16
  }

  /** a without its last digit. */
  function Front(a: nat, base: nat): (q: nat)
    requires IsBase(base)
    ensures q < a || a == 0
    ensures q == 0 <==> a < base
    ensures 8 * q <= a
  {
    if base == 8 then a / 8 else if base == 10 then a / 10 else a / 16
  }

  function Last(a: nat, base: nat): (d: nat)
    requires IsBase(base)
    ensures d < base && Front(a, base) * base + d == a
  {
    if base == 8 then a % 8 else if base == 10 then a % 10 else a % 16
  }

  /** The digits of a, most significant first. */
  function Text(a: nat, base: nat): (s: string)
    requires IsBase(base)
    ensures s != [] && s[|s| - 1] == Digit(Last(a, base))
    decreases a
  {
    if Front(a, base) == 0 then [Digit(Last(a, base))]
    else Text(Front(a, base), base) + [Digit(Last(a, base))]
  }

  /** Reading digits: the number that acc and the digits in front of s make. */
  function ReadDigits(s: string, base: nat, acc: nat): nat {
    if s == [] || DigitValue(s[0]) >= base then acc
    else ReadDigits(s[1..], base, acc * base + DigitValue(s[0]))
  }

  /** The digits of a number are read as that number, whatever follows them. */
  lemma {:induction false} ReadText(a: nat, base: nat, rest: string)
    requires IsBase(base)
    ensures ReadDigits(Text(a, base) + rest, base, 0) == ReadDigits(rest, base, a)
    decreases a
  {
    hide Front, Last, Digit, DigitValue;
    var q, c := Front(a, base), Digit(Last(a, base));
    var more := [c] + rest;
    assert more[1..] == rest;
    if q == 0 {
      assert Text(a, base) + rest == more;
    } else {
      assert Text(a, base) + rest == Text(q, base) + more;
      ReadText(q, base, more);
    }
  }

  function Pow8(n: nat): (p: nat)
    ensures p > 0
  {
    if n == 0 then 1 else 8 * Pow8(n - 1)
  }

  /** A number below 8^n takes at most n digits in base 8, 10 and 16. */
  lemma {:induction false} TextLength(a: nat, base: nat, n: nat)
    requires IsBase(base) && n > 0 && a < Pow8(n)
    ensures |Text(a, base)| <= n
    decreases a
  {
    hide Front, Last, Digit;
    if Front(a, base) > 0 {
      TextLength(Front(a, base), base, n - 1);
    }
  }

  lemma {:induction false} TextFits(a: nat, base: nat)
    requires IsBase(base) && a < UINTMAX
    ensures |Text(a, base)| <= 22
  {
    assert Pow8(22) == 8 * 8 * 8 * 8 * 8 * 8 * 8 * 8 * 8 * 8 * 8 * Pow8(11);
    TextLength(a, base, 22);
  }

  /** No leading zero, except for 0 itself. */
  lemma {:induction false} NoLeadingZero(a: nat, base: nat)
    requires IsBase(base)
    ensures Text(a, base)[0] == '0' <==> a == 0
    decreases a
  {
    hide Front, Last, Digit;
    if Front(a, base) > 0 {
      NoLeadingZero(Front(a, base), base);
    }
  }

  lemma {:induction false} TextStep(v: nat, base: nat, rest: string)
    requires IsBase(base)
    ensures var more := [Digit(Last(v, base))] + rest;
            Text(v, base) + rest == if Front(v, base) == 0 then more else Text(Front(v, base), base) + more
  {
  }

  /** The do-while loop: the digits of a, the last one first. */
  method BuildDigits(a: nat, base: nat, buff: array<char>) returns (e: nat)
    requires IsBase(base) && a < UINTMAX && buff.Length == BUFF
    modifies buff
    ensures e == |Text(a, base)| <= 22
    ensures forall i :: 0 <= i < e ==> buff[i] == Text(a, base)[e - 1 - i]
  {
    hide Front, Last, Digit, Text;
    TextFits(a, base);
    var v := a;
    e := 0;
    ghost var rest := "";
    while true
      invariant |rest| == e && Text(a, base) == Text(v, base) + rest
      invariant forall i :: 0 <= i < e ==> buff[i] == rest[e - 1 - i]
      decreases v
    {
      TextStep(v, base, rest);
      var c := Digit(Last(v, base));
      buff[e] := c;
      e := e + 1;
      v := Front(v, base);
      rest := [c] + rest;
      if v == 0 {
        break;
      }
    }
  }

  /** The loop that reverses the digits in place. */
  method ReverseDigits(buff: array<char>, n: nat)
    requires 0 < n <= buff.Length
    modifies buff
    ensures forall i :: 0 <= i < n ==> buff[i] == old(buff[n - 1 - i])
    ensures forall i :: n <= i < buff.Length ==> buff[i] == old(buff[i])
  {
    var b, e: int := 0, n - 1;
    while b < e
      invariant 0 <= b <= n && b + e == n - 1
      invariant forall i :: 0 <= i < n && !(b <= i <= e) ==> buff[i] == old(buff[n - 1 - i])
      invariant forall i :: b <= i <= e ==> buff[i] == old(buff[i])
      invariant forall i :: n <= i < buff.Length ==> buff[i] == old(buff[i])
    {
      var tmp := buff[e];
      buff[e] := buff[b];
      buff[b] := tmp;
      b, e := b + 1, e - 1;
    }
  }

  /** uintmax_to_text: the digits and a NUL, whatever the buffer held. */
  method UintmaxToText(a: nat, base: nat, buff: array<char>)
    requires IsBase(base) && a < UINTMAX && buff.Length == BUFF
    modifies buff
    ensures var n := |Text(a, base)|; n < BUFF && buff[..n] == Text(a, base) && buff[n] == '\0'
  {
    hide Text;
    TextFits(a, base);
    var n := BuildDigits(a, base, buff);
    buff[n] := '\0';
    ReverseDigits(buff, n);
  }

  // ---- format_print_number -------------------------------------------------------------------

  /** FLAG_MINUS, FLAG_PLUS, FLAG_SPACE, FLAG_ZERO and FLAG_HASH. */
  datatype Flags = Flags(minus: bool, plus: bool, space: bool, zero: bool, hash: bool)

  datatype Length = NoLength | LengthHh | LengthH | LengthL | LengthLl | LengthZ

  /** The conversion letters: d i u o x X. */
  datatype Type = D | I | U | O | X | UpperX

  /** What is asked for: the arguments of format_print_number. */
  datatype Spec = Spec(flags: Flags, width: int, precision: int, length: Length, ty: Type, number: int)
  {
    predicate Signed() { ty == D || ty == I }

    predicate Negative() { Signed() && number < 0 }

    function Base(): (base: nat)
      ensures IsBase(base)
    {
      if ty == O then 8 else if ty == X || ty == UpperX then 16 else 10
    }

    /** How many values the type that the length asks for has. */
    function Modulus(): (m: nat)
      ensures 0 < m <= UINTMAX
    {
      match length
      case LengthHh => 0x100
      case LengthH => 0x1_0000
      case _ => UINTMAX
    }

    function Magnitude(): int { if Negative() then -number else number }

    /** The number without its sign, as the length and uintmax_to_text cut it. */
    function Value(): (v: nat)
      ensures v < Modulus()
    {
      match length
      case LengthHh => Magnitude() % 0x100
      case LengthH => Magnitude() % 0x1_0000
      case _ => Magnitude() % UINTMAX
    }

    function Digits(): string { Text(Value(), Base()) }

    /** What is printed between the padding and the digits. */
    function Prefix(): string {
      if Signed() then
        if Negative() then "-" else if flags.plus then "+" else if flags.space then " " else ""
      else if Value() != 0 && flags.hash then
        if ty == X then "0x" else if ty == UpperX then "0X" else if ty == O then "0" else ""
      else ""
    }

    /** The precision: 0 counts as 1. */
    function Precision(): int { if precision != 0 then precision else 1 }

    /** How many characters format_print_number counts for the prefix. */
    function Counted(): nat {
      if ty == O then (if Value() != 0 && flags.hash then 1 else 0)
      else if ty == X || ty == UpperX then (if Value() != 0 && flags.hash then 2 else 0)
      else if flags.plus || flags.space || Negative() then 1 else 0
    }

    /** p0 and p1: the zeros up to the precision, and the fill up to the width. */
    function Zeros(): nat {
      var l := Counted() + |Digits()|;
      if Precision() > l then Precision() - l else 0
    }

    function Fill(): nat {
      var m := Max(Counted() + |Digits()|, Precision());
      if width > m then width - m else 0
    }

    /** The text: left-aligned, zero-filled or right-aligned. */
    function Formatted(): string {
      var number := Repeat('0', Zeros()) + Digits();
      if flags.minus then Prefix() + number + Repeat(' ', Fill())
      else if flags.zero then Prefix() + Repeat('0', Fill()) + number
      else Repeat(' ', Fill()) + Prefix() + number
    }
  }

  function Max(a: int, b: int): int { if a >= b then a else b }

  function Repeat(c: char, n: nat): (s: string)
    ensures |s| == n && forall i :: 0 <= i < n ==> s[i] == c
  {
    seq(n, (i: nat) => c)
  }

  /** The C string in s. */
  ghost predicate IsString(s: seq<char>, t: string) {
    |t| < |s| && s[..|t|] == t && s[|t|] == '\0' && forall i :: 0 <= i < |t| ==> s[i] != '\0'
  }

  /** Where output goes: the buffer or the console, and the counter. */
  class Sink {
    var text: string
    var counter: int

    constructor ()
      ensures text == "" && counter == 0
    {
      text, counter := "", 0;
    }

    /** format_printc */
    method Printc(c: char)
      modifies this
      ensures text == old(text) + [c] && counter == old(counter) + 1
    {
      text := text + [c];
      counter := counter + 1;
    }

    /** format_prints of the string at the start of s, which ends at n. */
    method Prints(s: seq<char>, ghost n: nat)
      requires n < |s| && s[n] == '\0' && forall i :: 0 <= i < n ==> s[i] != '\0'
      modifies this
      ensures text == old(text) + s[..n] && counter == old(counter) + n
    {
      var i := 0;
      while s[i] != '\0'
        invariant i <= n && text == old(text) + s[..i] && counter == old(counter) + i
        decreases n - i
      {
        Printc(s[i]);
        i := i + 1;
      }
    }

    /** while (n--) format_printc(c) */
    method Fill(c: char, n: nat)
      modifies this
      ensures text == old(text) + Repeat(c, n) && counter == old(counter) + n
    {
      for i := 0 to n
        invariant text == old(text) + Repeat(c, i) && counter == old(counter) + i
      {
        Printc(c);
      }
    }
  }

  lemma {:induction false} TextDigits(a: nat, base: nat)
    requires IsBase(base)
    ensures forall i :: 0 <= i < |Text(a, base)| ==> DigitValue(Text(a, base)[i]) < 16
    decreases a
  {
    hide Front, Last, Digit, DigitValue;
    if Front(a, base) > 0 {
      TextDigits(Front(a, base), base);
    }
  }

  /** The prefix, as both branches of format_print_number print it. */
  method PrintPrefix(out: Sink, spec: Spec, sign: bool, number: nat)
    requires sign == spec.Negative() && number == spec.Value()
    modifies out
    ensures out.text == old(out.text) + spec.Prefix() && out.counter == old(out.counter) + |spec.Prefix()|
  {
    if spec.ty == D || spec.ty == I {
      if spec.flags.plus || spec.flags.space || sign {
        out.Printc(if sign then '-' else if spec.flags.plus then '+' else ' ');
      }
    } else if number != 0 && spec.flags.hash {
      var p := if spec.ty == X then "0x" else if spec.ty == UpperX then "0X" else if spec.ty == O then "0" else "";
      out.Prints(p + ['\0'], |p|);
    }
  }

  /** A sign and a value as a number. */
  function Apply(negative: bool, v: nat): int {
    if negative then -(v as int) else v
  }

  /** v is n cut to the type with m values. */
  predicate IsCut(v: nat, n: int, m: nat)
    requires m > 0
  {
    v < m && (v - n) % m == 0
  }

  lemma {:induction false} CutChar(v: nat, n: int)
    ensures v == n % 0x100 <==> v < 0x100 && (v - n) % 0x100 == 0
  {
  }

  lemma {:induction false} CutShort(v: nat, n: int)
    ensures v == n % 0x1_0000 <==> v < 0x1_0000 && (v - n) % 0x1_0000 == 0
  {
  }

  lemma {:induction false} CutLong(v: nat, n: int)
    ensures v == n % UINTMAX <==> v < UINTMAX && (v - n) % UINTMAX == 0
  {
  }

  /** What is printed is the magnitude cut to the type that the length asks for. */
  lemma {:induction false} ValueIs(spec: Spec, v: nat)
    ensures v == spec.Value() <==> IsCut(v, spec.Magnitude(), spec.Modulus())
  {
    var n := spec.Magnitude();
    hide Spec.Magnitude;
    match spec.length
    case LengthHh => CutChar(v, n);
    case LengthH => CutShort(v, n);
    case _ => CutLong(v, n);
  }

  lemma {:induction false} CutSelf(v: nat, n: int, m: nat)
    requires v < m && (v == n || v == n + m)
    ensures IsCut(v, n, m)
  {
  }

  /** The sign and the value give the number back when its magnitude fits the length; a negative
      number of an unsigned conversion comes back as what its bits mean unsigned. */
  lemma {:induction false} ValueFits(spec: Spec)
    ensures 0 <= spec.Magnitude() < spec.Modulus() ==> Apply(spec.Negative(), spec.Value()) == spec.number
    ensures !spec.Signed() && spec.number < 0 <= spec.number + spec.Modulus() ==>
              spec.Value() == spec.number + spec.Modulus()
  {
    hide Spec.Value, Spec.Modulus, IsCut;
    var n, m := spec.Magnitude(), spec.Modulus();
    if 0 <= n < m {
      CutSelf(n, n, m);
      ValueIs(spec, n);
    } else if n < 0 <= n + m {
      CutSelf(n + m, n, m);
      ValueIs(spec, n + m);
    }
  }

  /** The conversions at the beginning: the sign is taken off before the length cuts the number. */
  method Convert(spec: Spec) returns (sign: bool, number: nat)
    ensures sign <==> spec.Signed() && spec.number < 0
    ensures IsCut(number, spec.Magnitude(), spec.Modulus())
    ensures 0 <= spec.Magnitude() < spec.Modulus() ==> Apply(sign, number) == spec.number
  {
    sign := false;
    var n := spec.number;
    if spec.ty == D || spec.ty == I {
      sign := n < 0;
      n := if sign then -n else n;
    }
    match spec.length {
      case LengthHh => number := n % 0x100;
      case LengthH => number := n % 0x1_0000;
      case _ => number := n % UINTMAX;
    }
    assert number == spec.Value();
    hide IsCut, Spec.Value;
    ValueIs(spec, number);
    ValueFits(spec);
  }

  method StrLen(s: seq<char>, ghost n: nat) returns (l: nat)
    requires n < |s| && s[n] == '\0' && forall i :: 0 <= i < n ==> s[i] != '\0'
    ensures l == n
  {
    l := 0;
    while s[l] != '\0'
      invariant l <= n
      decreases n - l
    {
      l := l + 1;
    }
  }

  /** The digits into buff, and the length of prefix and digits. */
  method Measure(spec: Spec, sign: bool, number: nat, buff: array<char>) returns (l: nat)
    requires sign == spec.Negative() && number == spec.Value() && buff.Length == BUFF
    modifies buff
    ensures l == spec.Counted() + |spec.Digits()| && IsString(buff[..], spec.Digits())
  {
    hide Text;
    if spec.ty == O {
      l := if number != 0 && spec.flags.hash then 1 else 0;
      UintmaxToText(number, 8, buff);
    } else if spec.ty == X || spec.ty == UpperX {
      l := if number != 0 && spec.flags.hash then 2 else 0;
      UintmaxToText(number, 16, buff);
    } else {
      l := if spec.flags.plus || spec.flags.space || sign then 1 else 0;
      UintmaxToText(number, 10, buff);
    }
    TextDigits(number, spec.Base());
    assert forall i :: 0 <= i < |spec.Digits()| ==> buff[..][i] == buff[..|spec.Digits()|][i];
    var n := StrLen(buff[..], |spec.Digits()|);
    l := l + n;
  }

  /** format_print_number */
  method PrintNumber(out: Sink, spec: Spec)
    modifies out
    ensures out.text == old(out.text) + spec.Formatted()
    ensures out.counter == old(out.counter) + |spec.Formatted()|
  {
    hide Text;
    var sign, number := Convert(spec);
    ValueIs(spec, number);
    var buff := new char[BUFF];
    var l := Measure(spec, sign, number, buff);
    var precision := if spec.precision != 0 then spec.precision else 1;
    var p0 := if precision > l then precision - l else 0;
    var p1 := if spec.width > Max(l, precision) then spec.width - Max(l, precision) else 0;
    Emit(out, spec, sign, number, buff[..], p0, p1);
  }

  /** The second half of format_print_number. */
  method Emit(out: Sink, spec: Spec, sign: bool, number: nat, buff: seq<char>, p0: nat, p1: nat)
    requires sign == spec.Negative() && number == spec.Value() && IsString(buff, spec.Digits())
    requires p0 == spec.Zeros() && p1 == spec.Fill()
    modifies out
    ensures out.text == old(out.text) + spec.Formatted()
    ensures out.counter == old(out.counter) + |spec.Formatted()|
  {
    if spec.flags.minus {
      EmitLeft(out, spec, sign, number, buff, p0, p1);
    } else {
      EmitRight(out, spec, sign, number, buff, p0, p1);
    }
  }

  /** The left-aligned form. */
  method EmitLeft(out: Sink, spec: Spec, sign: bool, number: nat, buff: seq<char>, p0: nat, p1: nat)
    requires sign == spec.Negative() && number == spec.Value() && IsString(buff, spec.Digits())
    requires p0 == spec.Zeros() && p1 == spec.Fill() && spec.flags.minus
    modifies out
    ensures out.text == old(out.text) + spec.Formatted()
    ensures out.counter == old(out.counter) + |spec.Formatted()|
  {
    hide Repeat, Spec.Prefix, Spec.Digits, Spec.Zeros, Spec.Fill, Spec.Value, Spec.Negative;
    ghost var t, p, z, d, f := out.text, spec.Prefix(), Repeat('0', p0), spec.Digits(), Repeat(' ', p1);
    PrintPrefix(out, spec, sign, number);
    out.Fill('0', p0);
    out.Prints(buff, |d|);
    out.Fill(' ', p1);
    assert t + p + z + d + f == t + (p + (z + d) + f);
  }

  /** The right-aligned form, with zeros or spaces. */
  method EmitRight(out: Sink, spec: Spec, sign: bool, number: nat, buff: seq<char>, p0: nat, p1: nat)
    requires sign == spec.Negative() && number == spec.Value() && IsString(buff, spec.Digits())
    requires p0 == spec.Zeros() && p1 == spec.Fill() && !spec.flags.minus
    modifies out
    ensures out.text == old(out.text) + spec.Formatted()
    ensures out.counter == old(out.counter) + |spec.Formatted()|
  {
    hide Repeat, Spec.Prefix, Spec.Digits, Spec.Zeros, Spec.Fill, Spec.Value, Spec.Negative;
    ghost var t, p, z, d := out.text, spec.Prefix(), Repeat('0', p0), spec.Digits();
    ghost var f, g := Repeat(' ', p1), Repeat('0', p1);
    if !spec.flags.zero {
      out.Fill(' ', p1);
    }
    PrintPrefix(out, spec, sign, number);
    if spec.flags.zero {
      out.Fill('0', p1);
    }
    out.Fill('0', p0);
    out.Prints(buff, |d|);
    assert t + p + g + z + d == t + (p + g + (z + d));
    assert t + f + p + z + d == t + (f + p + (z + d));
  }

  /** What the width and the precision promise: a 'u' conversion with a sign flag counts a character
      it does not print, and comes out one short when it is padded; in every other case the text is as
      wide as the widest of the width, the precision and the unpadded number. */
  lemma {:induction false} FormattedLength(spec: Spec)
    ensures var n, m := |spec.Prefix()| + |spec.Digits()|, Max(spec.width, spec.precision);
            var short := spec.ty == U && (spec.flags.plus || spec.flags.space) && m > |spec.Digits()|;
            && |spec.Formatted()| == (if short then m - 1 else Max(m, n))
            && (|spec.Formatted()| == Max(m, n) <==> !short)
  {
    hide Text;
  }

  // ---- reading back --------------------------------------------------------------------------

  /** A printed number as a reader sees it. */
  datatype Number = Number(negative: bool, value: nat)

  function SkipSpaces(s: string): string {
    if s != "" && s[0] == ' ' then SkipSpaces(s[1..]) else s
  }

  function SkipSign(s: string): string {
    if s != "" && (s[0] == '-' || s[0] == '+') then s[1..] else s
  }

  function SkipHex(s: string, base: nat): string {
    if base == 16 && |s| >= 2 && s[0] == '0' && (s[1] == 'x' || s[1] == 'X') then s[2..] else s
  }

  /** Spaces, a sign, 0x, and digits up to the first character that is none: what strtol does. */
  function ReadNumber(s: string, base: nat): Number {
    var t := SkipSpaces(s);
    Number(t != "" && t[0] == '-', ReadDigits(SkipHex(SkipSign(t), base), base, 0))
  }

  lemma {:induction false} SkipSpacesOf(k: nat, s: string)
    ensures SkipSpaces(Repeat(' ', k) + s) == SkipSpaces(s)
  {
    if k == 0 {
      assert Repeat(' ', k) + s == s;
    } else {
      assert (Repeat(' ', k) + s)[1..] == Repeat(' ', k - 1) + s;
      SkipSpacesOf(k - 1, s);
    }
  }

  lemma {:induction false} ReadZeros(z: nat, s: string, base: nat)
    requires base > 0
    ensures ReadDigits(Repeat('0', z) + s, base, 0) == ReadDigits(s, base, 0)
  {
    if z == 0 {
      assert Repeat('0', z) + s == s;
    } else {
      assert (Repeat('0', z) + s)[1..] == Repeat('0', z - 1) + s;
      ReadZeros(z - 1, s, base);
    }
  }

  /** Zeros, the digits of a, spaces. */
  function Body(z: nat, a: nat, base: nat, m: nat): string
    requires IsBase(base)
  {
    Repeat('0', z) + (Text(a, base) + Repeat(' ', m))
  }

  lemma {:induction false} ReadBody(z: nat, a: nat, base: nat, m: nat)
    requires IsBase(base)
    ensures ReadDigits(Body(z, a, base, m), base, 0) == a
    ensures var b := Body(z, a, base, m);
            b != "" && DigitValue(b[0]) < 16 && forall i :: 0 <= i < |b| ==> b[i] != 'x' && b[i] != 'X'
  {
    hide Text;
    ReadZeros(z, Text(a, base) + Repeat(' ', m), base);
    ReadText(a, base, Repeat(' ', m));
    TextDigits(a, base);
  }

  /** Every prefix that is printed is understood. */
  lemma {:induction false} ReadPrefix(p: string, b: string, base: nat)
    requires b != "" && DigitValue(b[0]) < 16 && forall i :: 0 <= i < |b| ==> b[i] != 'x' && b[i] != 'X'
    requires p == "" || p == "-" || p == "+" || p == " " || (base == 8 && p == "0")
             || (base == 16 && (p == "0x" || p == "0X"))
    ensures ReadNumber(p + b, base) == Number(p == "-", ReadDigits(b, base, 0))
  {
    var s := p + b;
    if p == " " {
      assert s[1..] == b && SkipSpaces(s) == SkipSpaces(b);
    } else if p == "-" || p == "+" {
      assert s[1..] == b;
    } else if p == "0" {
      assert s[1..] == b;
    } else if p == "" {
      assert s == b;
    } else {
      assert s[2..] == b;
    }
  }

  /** Whatever the flags, the width and the precision, what is printed reads back as the number. */
  lemma {:induction false} ReadFormatted(spec: Spec)
    ensures ReadNumber(spec.Formatted(), spec.Base()) == Number(spec.Negative(), spec.Value())
  {
    hide Text, ReadNumber, ReadDigits, Spec.Value, Spec.Fill, Spec.Zeros;
    var p, base := spec.Prefix(), spec.Base();
    var k := if spec.flags.minus || spec.flags.zero then 0 else spec.Fill();
    var z := spec.Zeros() + if !spec.flags.minus && spec.flags.zero then spec.Fill() else 0;
    var m := if spec.flags.minus then spec.Fill() else 0;
    var b := Body(z, spec.Value(), base, m);
    FormattedParts(spec, k, z, m);
    ReadBody(z, spec.Value(), base, m);
    ReadPrefix(p, b, base);
    ReadSpaces(k, p + b, base);
  }

  /** The base a conversion letter stands for. */
  function BaseOf(ty: Type): nat {
    match ty
    case D => 10
    case I => 10
    case U => 10
    case O => 8
    case X => 16
    case UpperX => 16
  }

  /** How many values the type that a length stands for has. */
  function ValuesOf(length: Length): nat {
    match length
    case LengthHh => 0x100
    case LengthH => 0x1_0000
    case _ => 0x1_0000_0000_0000_0000
  }

  /** Read in the base of the conversion letter, what is printed is negative exactly for a negative
      number of d and i; its value is the magnitude cut to the type of the length; and it is the
      number itself when that fits. */
  lemma {:induction false} ReadNumberBack(spec: Spec)
    ensures var r := ReadNumber(spec.Formatted(), BaseOf(spec.ty));
            var n := if (spec.ty == D || spec.ty == I) && spec.number < 0 then -spec.number else spec.number;
            && (r.negative <==> (spec.ty == D || spec.ty == I) && spec.number < 0)
            && IsCut(r.value, n, ValuesOf(spec.length))
            && (0 <= n < ValuesOf(spec.length) ==> Apply(r.negative, r.value) == spec.number)
  {
    ReadFormatted(spec);
    hide IsCut, Spec.Value, Spec.Formatted, ReadNumber;
    ValueIs(spec, spec.Value());
    ValueFits(spec);
  }

  /** What stands in front of the digits. */
  function PrefixOf(spec: Spec): string {
    match spec.ty
    case D => SignOf(spec)
    case I => SignOf(spec)
    case U => ""
    case O => if spec.flags.hash && spec.number % ValuesOf(spec.length) != 0 then "0" else ""
    case X => if spec.flags.hash && spec.number % ValuesOf(spec.length) != 0 then "0x" else ""
    case UpperX => if spec.flags.hash && spec.number % ValuesOf(spec.length) != 0 then "0X" else ""
  }

  function SignOf(spec: Spec): string {
    if spec.number < 0 then "-" else if spec.flags.plus then "+" else if spec.flags.space then " " else ""
  }

  /** The text is k spaces, the prefix, z zeros, the digits and m spaces.  A left-aligned text has its
      spaces behind, a zero-filled one has zeros instead of spaces, the others have them in front; the
      fill brings the text to the width and the zeros bring it to the precision, a u conversion
      with a sign flag counting for one character more than it has. */
  lemma {:induction false} FormattedShape(spec: Spec) returns (k: nat, z: nat, m: nat)
    ensures var d := Text(spec.Value(), BaseOf(spec.ty));
            spec.Formatted() == Repeat(' ', k) + (PrefixOf(spec) + (Repeat('0', z) + (d + Repeat(' ', m))))
    ensures var l := |PrefixOf(spec)| + |Text(spec.Value(), BaseOf(spec.ty))|
                     + (if spec.ty == U && (spec.flags.plus || spec.flags.space) then 1 else 0);
            var zeros := if spec.precision > l then spec.precision - l else 0;
            var fill := if spec.width > l + zeros then spec.width - (l + zeros) else 0;
            if spec.flags.minus then k == 0 && z == zeros && m == fill
            else if spec.flags.zero then k == 0 && z == zeros + fill && m == 0
            else k == fill && z == zeros && m == 0
  {
    k := if spec.flags.minus || spec.flags.zero then 0 else spec.Fill();
    z := spec.Zeros() + if !spec.flags.minus && spec.flags.zero then spec.Fill() else 0;
    m := if spec.flags.minus then spec.Fill() else 0;
    FormattedParts(spec, k, z, m);
    PrefixIs(spec);
    hide Text, Spec.Value, Spec.Prefix, PrefixOf, Repeat, Spec.Formatted;
  }

  lemma {:induction false} PrefixIs(spec: Spec)
    ensures PrefixOf(spec) == spec.Prefix() && BaseOf(spec.ty) == spec.Base()
    ensures spec.Counted() == |PrefixOf(spec)| + if spec.ty == U && (spec.flags.plus || spec.flags.space) then 1 else 0
  {
  }

  lemma {:induction false} ReadSpaces(k: nat, s: string, base: nat)
    ensures ReadNumber(Repeat(' ', k) + s, base) == ReadNumber(s, base)
  {
    SkipSpacesOf(k, s);
  }

  /** All three alignments are spaces, prefix, zeros, digits, spaces. */
  lemma {:induction false} FormattedParts(spec: Spec, k: nat, z: nat, m: nat)
    requires k == if spec.flags.minus || spec.flags.zero then 0 else spec.Fill()
    requires z == spec.Zeros() + if !spec.flags.minus && spec.flags.zero then spec.Fill() else 0
    requires m == if spec.flags.minus then spec.Fill() else 0
    ensures spec.Formatted() == Repeat(' ', k) + (spec.Prefix() + Body(z, spec.Value(), spec.Base(), m))
  {
    hide Text, Spec.Value, Spec.Fill, Spec.Zeros, Spec.Prefix, Spec.Base;
    var p, d := spec.Prefix(), spec.Digits();
    if spec.flags.minus {
      assert p + (Repeat('0', z) + d) + Repeat(' ', m)
          == Repeat(' ', 0) + (p + (Repeat('0', z) + (d + Repeat(' ', m))));
    } else if spec.flags.zero {
      assert Repeat('0', spec.Fill()) + Repeat('0', spec.Zeros()) == Repeat('0', z);
      assert p + Repeat('0', spec.Fill()) + (Repeat('0', spec.Zeros()) + d)
          == Repeat(' ', 0) + (p + ((Repeat('0', spec.Fill()) + Repeat('0', spec.Zeros())) + (d + Repeat(' ', 0))));
    } else {
      assert Repeat(' ', k) + p + (Repeat('0', z) + d)
          == Repeat(' ', k) + (p + (Repeat('0', z) + (d + Repeat(' ', 0))));
    }
  }
}
