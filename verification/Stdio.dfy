/** Printing and reading integers (lib/stdio.c: format_integer, output_dup; lib/stdlib.c: atoi). */
module Stdio {

  const BUF_SIZE: nat := 64
  const UINT64_LIMIT: nat := 0x1_0000_0000_0000_0000
  const INT_MIN: int := -0x8000_0000
  const INT_MAX: int := 0x7FFF_FFFF

  /** A printf conversion; a negative precision means that none was given. */
  datatype Conversion = Conversion(
    minus: bool, plus: bool, space: bool, pound: bool, zero: bool, group: bool, width: int, precision: int)

  /** `x` is the letter after the 0 of a hexadecimal prefix, if the base has one. */
  datatype Base = Base(base: nat, digits: string, x: string, group: nat)

  const BASE_D := Base(10, "0123456789", "", 3)
  const BASE_O := Base(8, "01234567", "", 3)
  const BASE_X := Base(16, "0123456789abcdef", "x", 4)
  const BASE_CAPITAL_X := Base(16, "0123456789ABCDEF", "X", 4)

  /** What the four bases above have in common. */
  predicate IsBase(b: Base) { b.base >= 8 && |b.digits| == b.base && b.group > 0 && |b.x| <= 1 }

  /** The base of an unsigned conversion. */
  function BaseOf(format: char): (b: Base)
    ensures IsBase(b)
  {
    match format
    case 'o' => BASE_O
    case 'x' => BASE_X
    case 'X' => BASE_CAPITAL_X
    case _ => BASE_D
  }

  // ---------- what is printed ----------

  function Dup(ch: char, n: int): string { seq(if n < 0 then 0 else n, _ => ch) }

  function Reversed(s: string): string {
    if s == [] then [] else Reversed(s[1..]) + [s[0]]
  }

  /** The digits of `value`, last first, with commas between groups if asked for; `cnt` digits came before. */
  function RevDigits(value: nat, b: Base, grouped: bool, cnt: nat): string
    requires IsBase(b)
    decreases value
  {
    if value == 0 then []
    else (if grouped && cnt > 0 && cnt % b.group == 0 then [','] else []) + [b.digits[value % b.base]]
         + RevDigits(value / b.base, b, grouped, cnt + 1)
  }

  /** The number as it stands in the buffer, last digit first. */
  function RevNumber(value: nat, b: Base, c: Conversion): string
    requires IsBase(b)
  {
    var digits := RevDigits(value, b, c.group, 0);
    var all := digits + Dup('0', ZeroCount(|digits|, c.precision));
    if c.pound && b.base == 8 && (all == [] || all[|all| - 1] != '0') then all + ['0'] else all
  }

  /** Zeros added to reach the precision, as far as the buffer allows. */
  function ZeroCount(len: nat, precision: int): int {
    var want := if precision < 0 then 1 else precision;
    (if want < BUF_SIZE - 1 then want else BUF_SIZE - 1) - len
  }

  function Sign(signed: bool, negative: bool, c: Conversion): string {
    if !signed then ""
    else if c.plus then (if negative then "-" else "+")
    else if c.space then (if negative then "-" else " ")
    else if negative then "-" else ""
  }

  function Prefix(value: nat, b: Base, c: Conversion): string {
    if c.pound && value != 0 && b.x != "" then "0" + b.x else ""
  }

  /** The whole field. */
  function Formatted(value: nat, signed: bool, negative: bool, b: Base, c: Conversion): string
    requires IsBase(b)
  {
    var number := RevNumber(value, b, c);
    var sign, x := Sign(signed, negative, c), Prefix(value, b, c);
    var pad := c.width - |number| - |x| - |sign|;
    (if c.minus || c.zero then "" else Dup(' ', pad)) + sign + x + (if c.zero then Dup('0', pad) else "")
    + Reversed(number) + (if c.minus then Dup(' ', pad) else "")
  }

  /** The absolute value that a signed conversion hands to format_integer. */
  function Magnitude(v: int): nat { if v < 0 then 0 - v else v }

  // ---------- the buffer ----------

  function Pow8(k: nat): nat { if k == 0 then 1 else 8 * Pow8(k - 1) }

  lemma QuotientBelow(value: nat, base: nat, m: nat)
    requires base >= 8 && value < 8 * m
    ensures value / base < m
  {
    var q := value / base;
    assert q * 8 <= q * base;
    assert q * base <= value;
  }

  /** A number below 8^k has at most k digits in any of the bases, so at most 2k characters. */
  lemma {:induction false} RevDigitsShort(value: nat, b: Base, grouped: bool, cnt: nat, k: nat)
    requires IsBase(b) && value < Pow8(k)
    ensures |RevDigits(value, b, grouped, cnt)| <= 2 * k
    decreases k
  {
    if value > 0 {
      QuotientBelow(value, b.base, Pow8(k - 1));
      RevDigitsShort(value / b.base, b, grouped, cnt + 1, k - 1);
    }
  }

  lemma QuotientSmaller(v: nat, base: nat)
    requires v > 0 && base >= 8
    ensures v / base < v
  {
  }

  lemma DigitsFit(value: nat, b: Base, grouped: bool)
    requires IsBase(b) && value < UINT64_LIMIT
    ensures |RevDigits(value, b, grouped, 0)| <= 44
  {
    assert Pow8(22) == 0x4_0000_0000_0000_0000 by {
      assert Pow8(4) == 0x1000;
      assert Pow8(8) == 0x100_0000;
      assert Pow8(12) == 0x10_0000_0000;
      assert Pow8(16) == 0x1_0000_0000_0000;
      assert Pow8(20) == 0x1000_0000_0000_0000;
    }
    RevDigitsShort(value, b, grouped, 0, 22);
  }

  /** format_integer.  The 64-byte buffer is never overrun, for any 64-bit value, base, flags and precision. */
  method FormatInteger(value: nat, signed: bool, negative: bool, b: Base, c: Conversion) returns (out: string)
    requires IsBase(b) && value < UINT64_LIMIT
    ensures out == Formatted(value, signed, negative, b, c)
  {
    hide Dup, Reversed, RevNumber, Sign, Prefix;
    var buf := new char[BUF_SIZE];
    var cp := FillBuffer(buf, value, b, c);
    var sign, x := Sign(signed, negative, c), Prefix(value, b, c);
    var pad := c.width - cp - |x| - |sign|;
    out := [];
    if !c.minus && !c.zero {
      out := out + Dup(' ', pad);
    }
    out := out + sign + x;
    if c.zero {
      out := out + Dup('0', pad);
    }
    out := OutputReversed(buf, cp, out);
    if c.minus {
      out := out + Dup(' ', pad);
    }
  }

  /** The loop that outputs the buffer backwards. */
  method OutputReversed(buf: array<char>, cp: nat, before: string) returns (out: string)
    requires cp <= buf.Length
    ensures out == before + Reversed(buf[..cp])
  {
    ghost var number := buf[..cp];
    out := before;
    var i := cp;
    while i > 0
      invariant 0 <= i <= cp
      invariant out == before + Reversed(number[i..])
    {
      i := i - 1;
      assert number[i..][1..] == number[i + 1..];
      out := out + [buf[i]];
    }
    assert number[0..] == number;
  }

  /** Stores one character: *cp++ = ch. */
  method Push(buf: array<char>, cp: nat, ch: char) returns (next: nat)
    requires cp < buf.Length
    modifies buf
    ensures next == cp + 1 && buf[..next] == old(buf[..cp]) + [ch]
  {
    buf[cp] := ch;
    next := cp + 1;
  }

  /** The digits, then zeros up to the precision, then the zero that # asks for in octal. */
  method FillBuffer(buf: array<char>, value: nat, b: Base, c: Conversion) returns (cp: nat)
    requires buf.Length == BUF_SIZE && IsBase(b) && value < UINT64_LIMIT
    modifies buf
    ensures cp <= BUF_SIZE && buf[..cp] == RevNumber(value, b, c)
  {
    cp := FillDigits(buf, value, b, c.group);
    cp := FillZeros(buf, cp, c.precision);
    if c.pound && b.base == 8 && (cp == 0 || buf[cp - 1] != '0') {
      cp := Push(buf, cp, '0');
    }
  }

  method FillZeros(buf: array<char>, len: nat, prec: int) returns (cp: nat)
    requires buf.Length == BUF_SIZE && len < BUF_SIZE
    modifies buf
    ensures cp < BUF_SIZE && buf[..cp] == old(buf[..len]) + Dup('0', ZeroCount(len, prec))
  {
    ghost var digits := buf[..len];
    var precision := if prec < 0 then 1 else prec;
    cp := len;
    assert Dup('0', 0) == [];
    while cp < precision && cp < BUF_SIZE - 1
      invariant len <= cp <= BUF_SIZE - 1 && buf[..cp] == digits + Dup('0', cp - len)
      invariant cp > len ==> cp <= precision
    {
      assert Dup('0', cp - len) + ['0'] == Dup('0', cp + 1 - len);
      cp := Push(buf, cp, '0');
    }
  }

  method FillDigits(buf: array<char>, value: nat, b: Base, grouped: bool) returns (cp: nat)
    requires buf.Length == BUF_SIZE && IsBase(b) && value < UINT64_LIMIT
    modifies buf
    ensures cp < BUF_SIZE && buf[..cp] == RevDigits(value, b, grouped, 0)
  {
    DigitsFit(value, b, grouped);
    cp := 0;
    var v: nat, digitCnt: nat := value, 0;
    while v > 0
      invariant cp + |RevDigits(v, b, grouped, digitCnt)| <= 44
      invariant buf[..cp] + RevDigits(v, b, grouped, digitCnt) == RevDigits(value, b, grouped, 0)
      decreases v
    {
      cp, v := PushDigit(buf, cp, v, b, grouped, digitCnt);
      digitCnt := digitCnt + 1;
    }
  }

  /** The next digit, after a comma where a group ends. */
  method PushDigit(buf: array<char>, at: nat, v: nat, b: Base, grouped: bool, digitCnt: nat)
    returns (cp: nat, v': nat)
    requires buf.Length == BUF_SIZE && IsBase(b) && v > 0 && at + |RevDigits(v, b, grouped, digitCnt)| <= BUF_SIZE
    modifies buf
    ensures cp <= BUF_SIZE && v' < v
    ensures buf[..cp] + RevDigits(v', b, grouped, digitCnt + 1) == old(buf[..at]) + RevDigits(v, b, grouped, digitCnt)
    ensures cp + |RevDigits(v', b, grouped, digitCnt + 1)| == at + |RevDigits(v, b, grouped, digitCnt)|
  {
    cp := at;
    if grouped && digitCnt > 0 && digitCnt % b.group == 0 {
      cp := Push(buf, cp, ',');
    }
    cp := Push(buf, cp, b.digits[v % b.base]);
    v' := v / b.base;
    QuotientSmaller(v, b.base);
  }

  // ---------- atoi ----------

  predicate IsSpace(ch: char) { ch == ' ' || ('\t' <= ch <= '\r') }

  predicate IsDigit(ch: char) { '0' <= ch <= '9' }

  function DigitValue(ch: char): nat
    requires IsDigit(ch)
  {
    ch as nat - '0' as nat
  }

  function SkipSpace(s: string): string {
    if s != [] && IsSpace(s[0]) then SkipSpace(s[1..]) else s
  }

  /** The value after the digits at the front of `s`, counted downwards from `value`. */
  function Down(s: string, value: int): int {
    if s == [] || !IsDigit(s[0]) then value else Down(s[1..], value * 10 - DigitValue(s[0]))
  }

  /** No value on the way, nor any product, leaves the range of a 32-bit int. */
  predicate DownFits(s: string, value: int) {
    if s == [] || !IsDigit(s[0]) then true
    else
      && INT_MIN <= value * 10 && INT_MIN <= value * 10 - DigitValue(s[0])
      && DownFits(s[1..], value * 10 - DigitValue(s[0]))
  }

  function AfterSign(s: string): string { if s != [] && (s[0] == '+' || s[0] == '-') then s[1..] else s }

  predicate Minus(s: string) { s != [] && s[0] == '-' }

  /** What atoi returns as a mathematical integer, and whether it stays in range on the way. */
  function Parsed(s: string): int {
    var t := SkipSpace(s);
    if Minus(t) then Down(AfterSign(t), 0) else -Down(AfterSign(t), 0)
  }

  predicate NoOverflow(s: string) {
    var t := SkipSpace(s);
    DownFits(AfterSign(t), 0) && INT_MIN <= Parsed(s) <= INT_MAX
  }

  /** atoi; the end of `s` is the terminating zero. */
  method Atoi(s: string) returns (value: int)
    ensures value == Parsed(s)
  {
    var t := SkipSpaces(s);
    var negative := false;
    var digits := t;
    if |t| > 0 && t[0] == '+' {
      digits := t[1..];
    } else if |t| > 0 && t[0] == '-' {
      negative := true;
      digits := t[1..];
    }
    value := ReadDigits(digits);
    if !negative {
      value := -value;
    }
  }

  method SkipSpaces(s: string) returns (t: string)
    ensures t == SkipSpace(s)
  {
    t := s;
    while |t| > 0 && IsSpace(t[0])
      invariant SkipSpace(t) == SkipSpace(s)
      decreases |t|
    {
      t := t[1..];
    }
  }

  method ReadDigits(s: string) returns (value: int)
    ensures value == Down(s, 0)
  {
    value := 0;
    var t := s;
    while |t| > 0 && IsDigit(t[0])
      invariant Down(t, value) == Down(s, 0)
      decreases |t|
    {
      value := value * 10 - DigitValue(t[0]);
      t := t[1..];
    }
  }

  // ---------- the round trip ----------

  /** The decimal digits of `n`, none for zero. */
  function Decimal(n: nat): string { Reversed(RevDigits(n, BASE_D, false, 0)) }

  lemma {:induction false} RevDigitsCount(value: nat, cnt: nat, cnt': nat)
    ensures RevDigits(value, BASE_D, false, cnt) == RevDigits(value, BASE_D, false, cnt')
    decreases value
  {
    if value > 0 {
      RevDigitsCount(value / 10, cnt + 1, cnt' + 1);
    }
  }

  lemma DecimalStep(n: nat)
    requires n > 0
    ensures Decimal(n) == Decimal(n / 10) + [BASE_D.digits[n % 10]]
  {
    RevDigitsCount(n / 10, 0, 1);
    var rest := RevDigits(n / 10, BASE_D, false, 1);
    assert RevDigits(n, BASE_D, false, 0) == [BASE_D.digits[n % 10]] + rest;
    assert ([BASE_D.digits[n % 10]] + rest)[1..] == rest;
  }

  lemma DigitOf(d: nat)
    requires d < 10
    ensures IsDigit(BASE_D.digits[d]) && DigitValue(BASE_D.digits[d]) == d
  {
  }

  /** Reading the decimal digits of `n` counts down by `n`, and stays in range if -n does. */
  lemma {:induction false} DecimalReads(n: nat, t: string)
    ensures Down(Decimal(n) + t, 0) == Down(t, 0 - n)
    ensures n <= -INT_MIN && DownFits(t, 0 - n) ==> DownFits(Decimal(n) + t, 0)
    decreases n
  {
    if n == 0 {
      assert Decimal(0) + t == t;
    } else {
      var d := BASE_D.digits[n % 10];
      DecimalStep(n);
      DigitOf(n % 10);
      assert Decimal(n) + t == Decimal(n / 10) + ([d] + t);
      assert ([d] + t)[1..] == t;
      assert (0 - n / 10) * 10 - n % 10 == 0 - n;
      DecimalReads(n / 10, [d] + t);
    }
  }

  lemma {:induction false} ZerosRead(k: int, t: string)
    ensures Down(Dup('0', k) + t, 0) == Down(t, 0)
    ensures DownFits(t, 0) ==> DownFits(Dup('0', k) + t, 0)
    decreases k
  {
    var z := Dup('0', k);
    if k <= 0 {
      assert z + t == t;
    } else {
      assert z == ['0'] + Dup('0', k - 1);
      assert (z + t)[1..] == Dup('0', k - 1) + t;
      ZerosRead(k - 1, t);
    }
  }

  lemma {:induction false} ReversedConcat(s: string, t: string)
    ensures Reversed(s + t) == Reversed(t) + Reversed(s)
  {
    if s == [] {
      assert s + t == t;
    } else {
      assert (s + t)[1..] == s[1..] + t;
      ReversedConcat(s[1..], t);
    }
  }

  lemma {:induction false} ReversedDup(ch: char, k: int)
    ensures Reversed(Dup(ch, k)) == Dup(ch, k)
    decreases k
  {
    if k > 0 {
      assert Dup(ch, k) == [ch] + Dup(ch, k - 1) == Dup(ch, k - 1) + [ch];
      ReversedDup(ch, k - 1);
    }
  }

  lemma {:induction false} SpacesSkipped(k: int, t: string)
    ensures SkipSpace(Dup(' ', k) + t) == SkipSpace(t)
    decreases k
  {
    if k <= 0 {
      assert Dup(' ', k) + t == t;
    } else {
      assert (Dup(' ', k) + t)[1..] == Dup(' ', k - 1) + t;
      SpacesSkipped(k - 1, t);
    }
  }

  /** Zeros, digits and trailing spaces: the field without leading spaces and sign. */
  function Tail(y: int, z: int, n: nat, l: int): string {
    Dup('0', y) + (Dup('0', z) + (Decimal(n) + Dup(' ', l)))
  }

  lemma TailReads(y: int, z: int, n: nat, l: int)
    ensures Down(Tail(y, z, n, l), 0) == 0 - n
    ensures n <= -INT_MIN ==> DownFits(Tail(y, z, n, l), 0)
  {
    DecimalReads(n, Dup(' ', l));
    ZerosRead(z, Decimal(n) + Dup(' ', l));
    ZerosRead(y, Dup('0', z) + (Decimal(n) + Dup(' ', l)));
  }

  lemma {:induction false} DecimalStarts(n: nat)
    requires n > 0
    ensures Decimal(n) != [] && IsDigit(Decimal(n)[0])
  {
    DecimalStep(n);
    DigitOf(n % 10);
    if n / 10 > 0 {
      DecimalStarts(n / 10);
    } else {
      assert Decimal(0) == [];
    }
  }

  /** Skipping space before such a tail changes nothing that matters. */
  lemma TailParsed(y: int, z: int, n: nat, l: int)
    ensures var t := SkipSpace(Tail(y, z, n, l));
            !Minus(t) && Down(AfterSign(t), 0) == 0 - n && (n <= -INT_MIN ==> DownFits(AfterSign(t), 0))
  {
    var t := Tail(y, z, n, l);
    TailReads(y, z, n, l);
    if n > 0 {
      DecimalStarts(n);
    }
    if y > 0 || z > 0 || n > 0 {
      assert IsDigit(t[0]);
    } else {
      assert t == Dup(' ', l) + [];
      SpacesSkipped(l, []);
    }
  }

  lemma NumberIsZerosAndDigits(n: nat, c: Conversion)
    requires !c.group
    ensures exists z :: Reversed(RevNumber(n, BASE_D, c)) == Dup('0', z) + Decimal(n)
  {
    var digits := RevDigits(n, BASE_D, false, 0);
    var z := ZeroCount(|digits|, c.precision);
    ReversedConcat(digits, Dup('0', z));
    ReversedDup('0', z);
    assert Reversed(RevNumber(n, BASE_D, c)) == Dup('0', z) + Decimal(n);
  }

  /** A decimal field is spaces, a sign, and a tail. */
  lemma FieldShape(v: int, c: Conversion) returns (k: int, y: int, z: int, l: int)
    requires !c.group
    ensures Formatted(Magnitude(v), true, v < 0, BASE_D, c) ==
            Dup(' ', k) + (Sign(true, v < 0, c) + Tail(y, z, Magnitude(v), l))
  {
    var n := Magnitude(v);
    NumberIsZerosAndDigits(n, c);
    z :| Reversed(RevNumber(n, BASE_D, c)) == Dup('0', z) + Decimal(n);
    var sign := Sign(true, v < 0, c);
    var pad := c.width - |RevNumber(n, BASE_D, c)| - |sign|;
    k := if c.minus || c.zero then 0 else pad;
    y := if c.zero then pad else 0;
    l := if c.minus then pad else 0;
    assert Dup(' ', 0) == "" && Dup('0', 0) == "";
    Regroup(Dup(' ', k), sign, Dup('0', y), Dup('0', z), Decimal(n), Dup(' ', l));
  }

  lemma Regroup(lead: string, sign: string, pad: string, zeros: string, digits: string, trail: string)
    ensures lead + sign + "" + pad + (zeros + digits) + trail == lead + (sign + (pad + (zeros + (digits + trail))))
  {
  }

  lemma SignedTail(v: int, sign: string, t: string)
    requires INT_MIN <= v <= INT_MAX && (sign == "-" <==> v < 0)
    requires sign == "" || sign == " " || sign == "+" || sign == "-"
    requires Down(t, 0) == 0 - Magnitude(v) && DownFits(t, 0)
    requires !Minus(SkipSpace(t)) && Down(AfterSign(SkipSpace(t)), 0) == 0 - Magnitude(v) &&
             DownFits(AfterSign(SkipSpace(t)), 0)
    ensures Parsed(sign + t) == v && NoOverflow(sign + t)
  {
    if sign == "" {
      assert sign + t == t;
    } else {
      assert (sign + t)[1..] == t;
    }
  }

  /** Printing any int in decimal, with any flags but grouping and any width and precision, and reading it back
      gives the same int, with no overflow on the way. */
  lemma PrintThenParse(v: int, c: Conversion)
    requires INT_MIN <= v <= INT_MAX && !c.group
    ensures var s := Formatted(Magnitude(v), true, v < 0, BASE_D, c); Parsed(s) == v && NoOverflow(s)
  {
    var k, y, z, l := FieldShape(v, c);
    var sign := Sign(true, v < 0, c);
    SpacesSkipped(k, sign + Tail(y, z, Magnitude(v), l));
    TailReads(y, z, Magnitude(v), l);
    TailParsed(y, z, Magnitude(v), l);
    SignedTail(v, sign, Tail(y, z, Magnitude(v), l));
  }

  /** An unsigned conversion is a signed one without the flags for a sign. */
  lemma UnsignedIsPlain(value: nat, c: Conversion)
    ensures Formatted(value, false, false, BASE_D, c) ==
            Formatted(value, true, false, BASE_D, c.(plus := false, space := false))
  {
    assert RevNumber(value, BASE_D, c) == RevNumber(value, BASE_D, c.(plus := false, space := false));
  }
}
