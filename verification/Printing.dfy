/** What printf's integer conversions print, and what atoi reads (lib/stdio.c, lib/stdlib.c), without reference to how
    the characters are produced. */
module Printing {
  import opened Stdio

  // ---------- reading digits ----------

  /** The value of a digit of any of the bases, -1 for other characters. */
  function Worth(ch: char): int {
    if '0' <= ch <= '9' then ch as int - '0' as int
    else if 'a' <= ch <= 'f' then ch as int - 'a' as int + 10
    else if 'A' <= ch <= 'F' then ch as int - 'A' as int + 10
    else -1
  }

  /** The number that digits stand for, the first one being the most significant. */
  function Value(s: string, base: int): int {
    if s == [] then 0 else Value(s[..|s| - 1], base) * base + Worth(s[|s| - 1])
  }

  /** `s` without its commas. */
  function Plain(s: string): string {
    if s == [] then [] else Plain(s[..|s| - 1]) + (if s[|s| - 1] == ',' then [] else [s[|s| - 1]])
  }

  predicate All(s: string, ch: char) { forall i | 0 <= i < |s| :: s[i] == ch }

  function Max(a: int, b: int): int { if a < b then b else a }

  function Min(a: int, b: int): int { if a < b then a else b }

  // ---------- what a field is ----------

  /** The digits of `value` in `base`: none for zero, otherwise without leading zeros; with commas, if asked for,
      between groups of `group` digits counted from the right, and nowhere else. */
  predicate AreDigits(digits: string, value: nat, base: nat, group: nat, grouped: bool) {
    && (digits == "" <==> value == 0) && (digits != "" ==> Worth(digits[0]) > 0)
    && Value(Plain(digits), base) == value
    && (forall i | 0 <= i < |digits| :: digits[i] == ',' || 0 <= Worth(digits[i]) < base)
    && (forall i | 0 <= i < |digits| :: digits[i] == ',' <==> grouped && (|digits| - 1 - i) % (group + 1) == group)
  }

  /** Zeros in front of the digits: up to the precision, which is 1 if none was given and 63 at most; one at least for
      octal with #. */
  predicate AreZeros(zeros: string, len: nat, base: nat, c: Conversion) {
    && All(zeros, '0')
    && |zeros| == Max(Min(if c.precision < 0 then 1 else c.precision, 63) - len, if c.pound && base == 8 then 1 else 0)
  }

  /** Sign, prefix and number in a field: spaces in front fill it up to the width, unless - puts them behind or 0 puts
      zeros before the number; with both flags there are zeros and spaces, so that the field is too wide. */
  predicate IsField(out: string, sign: string, x: string, number: string, c: Conversion) {
    var head, len := |sign| + |x|, |sign| + |x| + |number|;
    var pad := Max(c.width - len, 0);
    var lead := if c.minus || c.zero then 0 else pad;
    var mid := if c.zero then pad else 0;
    && |out| == (if c.minus && c.zero then len + 2 * pad else Max(c.width, len))
    && lead + head + mid + |number| <= |out|
    && All(out[..lead], ' ')
    && out[lead..lead + |sign|] == sign && out[lead + |sign|..lead + head] == x
    && All(out[lead + head..lead + head + mid], '0')
    && out[lead + head + mid..lead + head + mid + |number|] == number
    && All(out[lead + head + mid + |number|..], ' ')
  }

  /** A minus for a negative number and for no other; otherwise what the flags ask for. */
  predicate IsSign(sign: string, negative: bool, c: Conversion) {
    && (sign == "-" <==> negative) && (sign == "+" <==> !negative && c.plus)
    && (sign == " " <==> !negative && !c.plus && c.space) && (sign == "" <==> !negative && !c.plus && !c.space)
  }

  predicate IsPrinted(out: string, sign: string, x: string, zeros: string, digits: string, value: nat, base: nat,
                      group: nat, c: Conversion) {
    && AreDigits(digits, value, base, group, c.group) && AreZeros(zeros, |digits|, base, c)
    && IsField(out, sign, x, zeros + digits, c)
  }

  // ---------- the digits ----------

  /** The characters of base `b` are its digits, in order. */
  ghost predicate Readable(b: Base) {
    && IsBase(b) && (b.group == 3 || b.group == 4)
    && forall d | 0 <= d < b.base :: Worth(b.digits[d]) == d
  }

  lemma BasesReadable()
    ensures Readable(BASE_D) && Readable(BASE_O) && Readable(BASE_X) && Readable(BASE_CAPITAL_X)
  {
    assert forall d | 0 <= d < 10 :: Worth(BASE_D.digits[d]) == d;
    assert forall d | 0 <= d < 8 :: Worth(BASE_O.digits[d]) == d;
    assert forall d | 0 <= d < 16 :: Worth(BASE_X.digits[d]) == d;
    assert forall d | 0 <= d < 16 :: Worth(BASE_CAPITAL_X.digits[d]) == d;
  }

  lemma {:induction false} ReversedLength(s: string)
    ensures |Reversed(s)| == |s|
    ensures forall i | 0 <= i < |s| :: Reversed(s)[|s| - 1 - i] == s[i]
  {
    if s != [] {
      ReversedLength(s[1..]);
    }
  }

  lemma PlainSnoc(s: string, ch: char)
    ensures Plain(s + [ch]) == Plain(s) + (if ch == ',' then [] else [ch])
  {
    assert (s + [ch])[..|s|] == s;
  }

  lemma ValueSnoc(s: string, ch: char, base: int)
    ensures Value(s + [ch], base) == Value(s, base) * base + Worth(ch)
  {
    assert (s + [ch])[..|s|] == s;
  }

  /** One turn of the loop that makes the digits, last first. */
  lemma OneDigit(value: nat, b: Base, grouped: bool, cnt: nat) returns (q: nat, d: nat, comma: string)
    requires Readable(b) && value > 0
    ensures d < b.base && q * b.base + d == value && q < value && (q == 0 ==> d > 0)
    ensures comma == if grouped && cnt > 0 && cnt % b.group == 0 then [','] else []
    ensures RevDigits(value, b, grouped, cnt) == comma + [b.digits[d]] + RevDigits(q, b, grouped, cnt + 1)
    ensures Worth(b.digits[d]) == d
  {
    q, d := value / b.base, value % b.base;
    QuotientSmaller(value, b.base);
    comma := if grouped && cnt > 0 && cnt % b.group == 0 then [','] else [];
  }

  lemma NoDigits(b: Base, grouped: bool, cnt: nat)
    requires IsBase(b)
    ensures RevDigits(0, b, grouped, cnt) == []
  {
  }

  /** Appending a digit on the right, and perhaps a comma. */
  lemma AppendDigit(s: string, ch: char, comma: string, base: int)
    requires (comma == [] || comma == [',']) && ch != ','
    ensures Value(Plain(s + [ch] + comma), base) == Value(Plain(s), base) * base + Worth(ch)
  {
    PlainSnoc(s, ch);
    ValueSnoc(Plain(s), ch, base);
    if comma == [','] {
      PlainSnoc(s + [ch], ',');
      assert Plain(s + [ch]) + [] == Plain(s + [ch]);
    } else {
      assert s + [ch] + comma == s + [ch];
    }
  }

  lemma ReversedThree(a: string, ch: char, rest: string)
    requires |a| <= 1
    ensures Reversed(a + [ch] + rest) == Reversed(rest) + [ch] + a
  {
    ReversedConcat(a + [ch], rest);
    ReversedConcat(a, [ch]);
    assert Reversed([ch]) == [ch] && Reversed(a) == a;
  }

  /** Read from the left, without the commas, the digits give the value. */
  lemma {:induction false} DigitsReadBack(value: nat, b: Base, grouped: bool, cnt: nat)
    requires Readable(b)
    ensures Value(Plain(Reversed(RevDigits(value, b, grouped, cnt))), b.base) == value
    decreases value
  {
    if value == 0 {
      NoDigits(b, grouped, cnt);
    } else {
      hide RevDigits, Reversed, Plain, Value;
      var q, d, comma := OneDigit(value, b, grouped, cnt);
      DigitsReadBack(q, b, grouped, cnt + 1);
      ReversedThree(comma, b.digits[d], RevDigits(q, b, grouped, cnt + 1));
      AppendDigit(Reversed(RevDigits(q, b, grouped, cnt + 1)), b.digits[d], comma, b.base);
    }
  }

  /** How many characters come before digit number `cnt` and its comma. */
  function Offset(cnt: nat, group: nat): nat
    requires group > 0
  {
    if cnt == 0 then 0 else cnt + (cnt - 1) / group
  }

  lemma OffsetStep(cnt: nat, group: nat)
    requires group == 3 || group == 4
    ensures if cnt > 0 && cnt % group == 0 then
              && Offset(cnt, group) % (group + 1) == group && (Offset(cnt, group) + 1) % (group + 1) != group
              && Offset(cnt + 1, group) == Offset(cnt, group) + 2
            else
              Offset(cnt, group) % (group + 1) != group && Offset(cnt + 1, group) == Offset(cnt, group) + 1
  {
    if group == 3 {
      OffsetThree(cnt);
    } else {
      OffsetFour(cnt);
    }
  }

  lemma OffsetThree(cnt: nat)
    ensures cnt > 0 && cnt % 3 == 0 ==>
              && Offset(cnt, 3) % 4 == 3 && (Offset(cnt, 3) + 1) % 4 == 0 && Offset(cnt + 1, 3) == Offset(cnt, 3) + 2
    ensures cnt == 0 || cnt % 3 != 0 ==> Offset(cnt, 3) % 4 != 3 && Offset(cnt + 1, 3) == Offset(cnt, 3) + 1
  {
  }

  lemma OffsetFour(cnt: nat)
    ensures cnt > 0 && cnt % 4 == 0 ==>
              && Offset(cnt, 4) % 5 == 4 && (Offset(cnt, 4) + 1) % 5 == 0 && Offset(cnt + 1, 4) == Offset(cnt, 4) + 2
    ensures cnt == 0 || cnt % 4 != 0 ==> Offset(cnt, 4) % 5 != 4 && Offset(cnt + 1, 4) == Offset(cnt, 4) + 1
  {
  }

  /** Every character is a digit, but for the commas between groups. */
  lemma {:induction false} CommasBetweenGroups(value: nat, b: Base, grouped: bool, cnt: nat, i: nat)
    requires Readable(b) && i < |RevDigits(value, b, grouped, cnt)|
    ensures var ch := RevDigits(value, b, grouped, cnt)[i];
            && (ch == ',' || 0 <= Worth(ch) < b.base)
            && (ch == ',' <==> grouped && (Offset(cnt, b.group) + i) % (b.group + 1) == b.group)
    decreases value
  {
    if value == 0 {
      NoDigits(b, grouped, cnt);
    } else {
      hide RevDigits, Offset;
      var q, d, comma := OneDigit(value, b, grouped, cnt);
      OffsetStep(cnt, b.group);
      var rest := RevDigits(q, b, grouped, cnt + 1);
      assert b.digits[d] != ',';
      if i > |comma| {
        CommasBetweenGroups(q, b, grouped, cnt + 1, i - |comma| - 1);
        assert (comma + [b.digits[d]] + rest)[i] == rest[i - |comma| - 1];
      }
    }
  }

  /** The first digit is not zero. */
  lemma {:induction false} LeadingDigit(value: nat, b: Base, grouped: bool, cnt: nat)
    requires Readable(b) && value > 0
    ensures var s := RevDigits(value, b, grouped, cnt); s != [] && Worth(s[|s| - 1]) > 0
    decreases value
  {
    hide RevDigits;
    var q, d, comma := OneDigit(value, b, grouped, cnt);
    if q > 0 {
      LeadingDigit(q, b, grouped, cnt + 1);
    } else {
      NoDigits(b, grouped, cnt + 1);
    }
  }

  lemma DigitsFollow(value: nat, b: Base, grouped: bool)
    requires Readable(b)
    ensures AreDigits(Reversed(RevDigits(value, b, grouped, 0)), value, b.base, b.group, grouped)
  {
    hide RevDigits, Reversed, Plain, Value;
    var s := RevDigits(value, b, grouped, 0);
    var digits := Reversed(s);
    ReversedLength(s);
    DigitsReadBack(value, b, grouped, 0);
    forall i | 0 <= i < |s|
      ensures s[i] == ',' || 0 <= Worth(s[i]) < b.base
      ensures s[i] == ',' <==> grouped && i % (b.group + 1) == b.group
      ensures digits[|s| - 1 - i] == s[i]
    {
      CommasBetweenGroups(value, b, grouped, 0, i);
    }
    forall i | 0 <= i < |digits| ensures digits[i] == s[|s| - 1 - i] {
      assert digits[|s| - 1 - (|s| - 1 - i)] == s[|s| - 1 - i];
    }
    if value > 0 {
      LeadingDigit(value, b, grouped, 0);
    } else {
      NoDigits(b, grouped, 0);
    }
  }

  // ---------- the whole field ----------

  lemma DupIs(ch: char, n: int)
    ensures |Dup(ch, n)| == Max(n, 0) && All(Dup(ch, n), ch)
  {
  }

  /** Whether # adds a zero in octal. */
  lemma LeadingZero(value: nat, b: Base, grouped: bool, z: int)
    requires Readable(b)
    ensures var all := RevDigits(value, b, grouped, 0) + Dup('0', z);
            all == [] || all[|all| - 1] != '0' <==> z <= 0
  {
    var s := RevDigits(value, b, grouped, 0);
    DupIs('0', z);
    if z > 0 {
      assert (s + Dup('0', z))[|s| + z - 1] == '0';
    } else {
      assert s + Dup('0', z) == s;
      if value > 0 {
        LeadingDigit(value, b, grouped, 0);
      } else {
        NoDigits(b, grouped, 0);
      }
    }
  }

  /** The buffer holds the digits and then zeros. */
  lemma BufferIs(value: nat, b: Base, c: Conversion)
    requires Readable(b)
    ensures var s := RevDigits(value, b, c.group, 0);
            RevNumber(value, b, c) ==
            s + Dup('0', Max(ZeroCount(|s|, c.precision), if c.pound && b.base == 8 then 1 else 0))
  {
    hide RevDigits;
    var s := RevDigits(value, b, c.group, 0);
    var z := ZeroCount(|s|, c.precision);
    LeadingZero(value, b, c.group, z);
    if z <= 0 {
      assert Dup('0', z) == [] && Dup('0', 0) == [] && Dup('0', 1) == ['0'];
      assert s + Dup('0', z) == s;
    }
  }

  /** The number is zeros and then the digits. */
  lemma NumberFollows(value: nat, b: Base, c: Conversion) returns (zeros: string, digits: string)
    requires Readable(b)
    ensures Reversed(RevNumber(value, b, c)) == zeros + digits && digits == Reversed(RevDigits(value, b, c.group, 0))
    ensures AreDigits(digits, value, b.base, b.group, c.group) && AreZeros(zeros, |digits|, b.base, c)
  {
    hide RevDigits, RevNumber, Reversed, Dup, AreDigits, All;
    var s := RevDigits(value, b, c.group, 0);
    var z := Max(ZeroCount(|s|, c.precision), if c.pound && b.base == 8 then 1 else 0);
    zeros, digits := Dup('0', z), Reversed(s);
    DigitsFollow(value, b, c.group);
    BufferIs(value, b, c);
    ReversedLength(s);
    ReversedConcat(s, zeros);
    ReversedDup('0', z);
    DupIs('0', z);
  }

  /** Parts of the right lengths make a field. */
  lemma PartsMakeField(lead: string, sign: string, x: string, mid: string, number: string, trail: string, c: Conversion)
    requires All(lead, ' ') && All(mid, '0') && All(trail, ' ')
    requires var pad := Max(c.width - |sign| - |x| - |number|, 0);
             && |lead| == (if c.minus || c.zero then 0 else pad) && |mid| == (if c.zero then pad else 0)
             && |trail| == if c.minus then pad else 0
    ensures IsField(lead + sign + x + mid + number + trail, sign, x, number, c)
  {
    hide All;
    Parts(lead, sign, x, mid, number, trail);
  }

  lemma FieldFollows(value: nat, signed: bool, negative: bool, b: Base, c: Conversion)
    requires IsBase(b)
    ensures IsField(Formatted(value, signed, negative, b, c), Sign(signed, negative, c), Prefix(value, b, c),
                    Reversed(RevNumber(value, b, c)), c)
  {
    hide RevNumber, Sign, Prefix, Reversed, Dup, IsField;
    ReversedLength(RevNumber(value, b, c));
    var sign, x, number := Sign(signed, negative, c), Prefix(value, b, c), Reversed(RevNumber(value, b, c));
    var pad := c.width - |number| - |x| - |sign|;
    DupIs(' ', pad);
    DupIs('0', pad);
    PartsMakeField(if c.minus || c.zero then "" else Dup(' ', pad), sign, x, if c.zero then Dup('0', pad) else "",
                   number, if c.minus then Dup(' ', pad) else "", c);
  }

  lemma Parts(a: string, b: string, c: string, d: string, e: string, f: string)
    ensures var s := a + b + c + d + e + f;
            && |s| == |a| + |b| + |c| + |d| + |e| + |f|
            && s[..|a|] == a && s[|a|..|a| + |b|] == b && s[|a| + |b|..|a| + |b| + |c|] == c
            && s[|a| + |b| + |c|..|a| + |b| + |c| + |d|] == d
            && s[|a| + |b| + |c| + |d|..|a| + |b| + |c| + |d| + |e|] == e
            && s[|a| + |b| + |c| + |d| + |e|..] == f
  {
  }

  /** The base that a conversion letter names, and how many digits make a group. */
  function BaseNumber(format: char): nat { if format == 'o' then 8 else if format == 'u' then 10 else 16 }

  function GroupSize(format: char): nat { if format == 'x' || format == 'X' then 4 else 3 }

  /** Letters among the digits are of one case. */
  predicate LowerCase(s: string) { forall i | 0 <= i < |s| :: !('A' <= s[i] <= 'F') }

  predicate UpperCase(s: string) { forall i | 0 <= i < |s| :: !('a' <= s[i] <= 'f') }

  lemma {:induction false} CaseFollows(value: nat, b: Base, grouped: bool, cnt: nat)
    requires b == BASE_X || b == BASE_CAPITAL_X
    ensures b == BASE_X ==> LowerCase(RevDigits(value, b, grouped, cnt))
    ensures b == BASE_CAPITAL_X ==> UpperCase(RevDigits(value, b, grouped, cnt))
    decreases value
  {
    if value > 0 {
      CaseFollows(value / b.base, b, grouped, cnt + 1);
      OneCase(value % 16);
    }
  }

  lemma OneCase(d: nat)
    requires d < 16
    ensures !('A' <= BASE_X.digits[d] <= 'F') && !('a' <= BASE_CAPITAL_X.digits[d] <= 'f')
  {
  }

  lemma CaseReversed(s: string)
    ensures (LowerCase(s) ==> LowerCase(Reversed(s))) && (UpperCase(s) ==> UpperCase(Reversed(s)))
  {
    ReversedLength(s);
    forall i | 0 <= i < |s| ensures Reversed(s)[i] == s[|s| - 1 - i] {
      assert Reversed(s)[|s| - 1 - (|s| - 1 - i)] == s[|s| - 1 - i];
    }
  }

  /** The prefix, by the conversion letter. */
  lemma PrefixFollows(value: nat, format: char, c: Conversion)
    requires format in "ouxX"
    ensures BaseOf(format).base == BaseNumber(format) && BaseOf(format).group == GroupSize(format)
    ensures Readable(BaseOf(format))
    ensures Prefix(value, BaseOf(format), c) ==
            if c.pound && value > 0 && format == 'x' then "0x"
            else if c.pound && value > 0 && format == 'X' then "0X" else ""
  {
    BasesReadable();
  }

  /** The unsigned conversions %o, %u, %x and %X.  What %u prints of an int, atoi reads back. */
  method FormatUnsigned(value: nat, format: char, c: Conversion)
    returns (out: string, ghost x: string, ghost zeros: string, ghost digits: string)
    requires value < UINT64_LIMIT && format in "ouxX"
    ensures out == Formatted(value, false, false, BaseOf(format), c)
    ensures IsPrinted(out, "", x, zeros, digits, value, BaseNumber(format), GroupSize(format), c)
    ensures x == if c.pound && value > 0 && format == 'x' then "0x"
                 else if c.pound && value > 0 && format == 'X' then "0X" else ""
    ensures (format == 'x' ==> LowerCase(digits)) && (format == 'X' ==> UpperCase(digits))
    ensures format == 'u' && value <= INT_MAX && !c.group ==> Parsed(out) == value && NoOverflow(out)
  {
    hide Formatted, RevNumber, RevDigits, Reversed, Prefix, IsField, AreDigits, AreZeros, LowerCase, UpperCase;
    hide Readable;
    var b := BaseOf(format);
    out := FormatInteger(value, false, false, b, c);
    x := Prefix(value, b, c);
    PrefixFollows(value, format, c);
    FieldFollows(value, false, false, b, c);
    zeros, digits := NumberFollows(value, b, c);
    if format == 'x' || format == 'X' {
      CaseFollows(value, b, c.group, 0);
      CaseReversed(RevDigits(value, b, c.group, 0));
    }
    if format == 'u' && value <= INT_MAX && !c.group {
      UnsignedIsPlain(value, c);
      PrintThenParse(value, c.(plus := false, space := false));
    }
  }

  lemma SignFollows(negative: bool, c: Conversion)
    ensures IsSign(Sign(true, negative, c), negative, c)
  {
  }

  /** The signed conversions %d and %i.  What they print of an int, atoi reads back. */
  method FormatSigned(value: int, c: Conversion)
    returns (out: string, ghost sign: string, ghost zeros: string, ghost digits: string)
    requires -0x8000_0000_0000_0000 <= value < 0x8000_0000_0000_0000
    ensures out == Formatted(Magnitude(value), true, value < 0, BASE_D, c)
    ensures IsPrinted(out, sign, "", zeros, digits, if value < 0 then -value else value, 10, 3, c)
    ensures IsSign(sign, value < 0, c)
    ensures INT_MIN <= value <= INT_MAX && !c.group ==> Parsed(out) == value && NoOverflow(out)
  {
    hide Formatted, RevNumber, RevDigits, Reversed, IsField, AreDigits, AreZeros, IsSign, Readable;
    var n := Magnitude(value);
    out := FormatInteger(n, true, value < 0, BASE_D, c);
    sign := Sign(true, value < 0, c);
    SignFollows(value < 0, c);
    BasesReadable();
    FieldFollows(n, true, value < 0, BASE_D, c);
    zeros, digits := NumberFollows(n, BASE_D, c);
    if INT_MIN <= value <= INT_MAX && !c.group {
      PrintThenParse(value, c);
    }
  }

  // ---------- reading ----------

  /** The characters that atoi skips: space, form feed, newline, carriage return, tab and vertical tab. */
  predicate White(s: string) {
    forall i | 0 <= i < |s| :: s[i] in {' ', '\U{0C}', '\n', '\r', '\t', '\U{0B}'}
  }

  predicate Digital(s: string) { forall i | 0 <= i < |s| :: '0' <= s[i] <= '9' }

  /** `rest` does not go on with what came before it: no digit, and, if there was neither sign nor digit, no white space
      or sign. */
  predicate Ends(rest: string, started: bool) {
    rest != "" ==> !Digital(rest[..1]) && (started || (!White(rest[..1]) && rest[0] != '+' && rest[0] != '-'))
  }

  lemma {:induction false} SkipsWhite(ws: string, t: string)
    requires White(ws) && (t != "" ==> !White(t[..1]))
    ensures SkipSpace(ws + t) == t
  {
    if ws == [] {
      assert ws + t == t;
    } else {
      assert (ws + t)[1..] == ws[1..] + t;
      SkipsWhite(ws[1..], t);
    }
  }

  /** Digits after digits count down. */
  lemma {:induction false} ReadsDigits(done: string, digits: string, rest: string)
    requires Digital(digits) && (rest != "" ==> !Digital(rest[..1]))
    ensures Down(digits + rest, -Value(done, 10)) == -Value(done + digits, 10)
    decreases digits
  {
    hide Value;
    if digits == [] {
      assert digits + rest == rest && done + digits == done;
    } else {
      assert digits[0] == (digits + rest)[0];
      assert (digits + rest)[1..] == digits[1..] + rest;
      ValueSnoc(done, digits[0], 10);
      ReadsDigits(done + [digits[0]], digits[1..], rest);
      assert done + digits == done + [digits[0]] + digits[1..];
    }
  }

  /** Where the white space ends. */
  lemma StartsAfterWhite(sign: string, digits: string, rest: string)
    requires (sign == "" || sign == "+" || sign == "-") && Digital(digits) && Ends(rest, sign != "" || digits != "")
    ensures var t := sign + (digits + rest); t != "" ==> !White(t[..1])
    ensures sign == "" ==> var t := digits + rest; t == "" || (t[0] != '+' && t[0] != '-')
  {
    var t := sign + (digits + rest);
    if t != "" {
      assert t[..1] == [t[0]];
      assert t[0] == if sign != "" then sign[0] else if digits != "" then digits[0] else rest[0];
      if sign == "" && digits == "" {
        assert rest[..1] == [rest[0]];
      }
    }
  }

  /** atoi: white space, perhaps a sign, digits and anything else give the value of the digits, negated after a minus.
      */
  lemma AtoiReads(ws: string, sign: string, digits: string, rest: string)
    requires White(ws) && (sign == "" || sign == "+" || sign == "-") && Digital(digits)
    requires Ends(rest, sign != "" || digits != "")
    ensures Parsed(ws + (sign + (digits + rest))) == if sign == "-" then -Value(digits, 10) else Value(digits, 10)
  {
    hide White, Digital, Down, SkipSpace, AfterSign, Minus, Value, Ends;
    var u := digits + rest;
    StartsAfterWhite(sign, digits, rest);
    SkipsWhite(ws, sign + u);
    SignRead(sign, u);
    NotDigital(rest, sign != "" || digits != "");
    NoValue();
    ReadsDigits("", digits, rest);
    assert "" + digits == digits;
  }

  lemma SignRead(sign: string, u: string)
    requires sign == "" || sign == "+" || sign == "-"
    requires sign == "" ==> u == "" || (u[0] != '+' && u[0] != '-')
    ensures AfterSign(sign + u) == u && (Minus(sign + u) <==> sign == "-")
  {
    if sign == "" {
      assert sign + u == u;
    } else {
      assert (sign + u)[1..] == u;
    }
  }

  lemma NotDigital(rest: string, started: bool)
    requires Ends(rest, started)
    ensures rest != "" ==> !Digital(rest[..1])
  {
  }

  lemma NoValue()
    ensures Value("", 10) == 0
  {
  }
}
