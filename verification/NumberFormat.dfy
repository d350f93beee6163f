/** printnum of lib/printfmt.c and strtol of lib/string.c: the number printer against the number parser. */
module NumberFormat {
  const DIGITS := "0123456789abcdef"

  // ---- printnum ----

  /** Where putch sends its characters. */
  class Output {
    var text: string

    constructor ()
      ensures text == ""
    {
      text := "";
    }

    method Putch(c: char)
      modifies this
      ensures text == old(text) + [c]
    {
      text := text + [c];
    }

    /** The loop of printnum that brings the number to its width before the first digit. */
    method PutPadding(width: int, padc: char)
      modifies this
      ensures text == old(text) + Pad(width - 1, padc)
    {
      var w := width - 1;
      while w > 0
        invariant w <= width - 1 && (if width > 0 then w >= 0 else w == width - 1)
        invariant text == old(text) + Pad(width - 1 - w, padc)
        decreases w
      {
        Putch(padc);
        w := w - 1;
      }
      assert Pad(width - 1 - w, padc) == Pad(width - 1, padc);
    }

    /** printnum: the digits from the most significant down, after the padding that brings them to width. */
    method PrintNum(num: nat, base: nat, width: int, padc: char)
      requires 2 <= base <= 16
      modifies this
      ensures text == old(text) + Printed(num, base, width, padc)
      decreases num
    {
      if num >= base {
        hide Quotient, Remainder, Pad;
        PrintNum(Quotient(num, base), base, width - 1, padc);
      } else {
        PutPadding(width, padc);
      }
      assert text + [DIGITS[Remainder(num, base)]] == old(text) + Printed(num, base, width, padc);
      Putch(DIGITS[Remainder(num, base)]);
    }
  }

  function Pad(n: int, padc: char): (s: string)
    ensures |s| == (if n < 0 then 0 else n) && forall i :: 0 <= i < |s| ==> s[i] == padc
  {
    seq(if n < 0 then 0 else n, _ => padc)
  }

  function Quotient(num: nat, base: nat): (q: nat)
    requires base >= 2
    ensures num >= base ==> 0 < q < num
  {
    num / base
  }

  function Remainder(num: nat, base: nat): (r: nat)
    requires base >= 2
    ensures r < base && num == Quotient(num, base) * base + r
  {
    num % base
  }

  function Digits(num: nat, base: nat): (s: string)
    requires 2 <= base <= 16
    ensures |s| > 0
  {
    if num < base then [DIGITS[num]] else Digits(Quotient(num, base), base) + [DIGITS[Remainder(num, base)]]
  }

  function Printed(num: nat, base: nat, width: int, padc: char): string
    requires 2 <= base <= 16
  {
    Pad(width - |Digits(num, base)|, padc) + Digits(num, base)
  }

  /** The output is as long as the wider of the field and the number. */
  lemma PrintedLength(num: nat, base: nat, width: int, padc: char)
    requires 2 <= base <= 16
    ensures |Printed(num, base, width, padc)| == if width < |Digits(num, base)| then |Digits(num, base)| else width
  {
  }

  function Power(base: int, n: nat): (r: int)
    ensures base >= 0 ==> r >= 0
  {
    if n == 0 then 1 else base * Power(base, n - 1)
  }

  /** No digit is wasted: base^(n-1) <= num < base^n for a number above base that prints as n digits. */
  lemma {:induction false} DigitCount(num: nat, base: nat)
    requires 2 <= base <= 16
    ensures var n := |Digits(num, base)|;
      num < Power(base, n) && (if num < base then n == 1 else Power(base, n - 1) <= num)
  {
    hide Quotient, Remainder;
    if num >= base {
      var q, n := Quotient(num, base), |Digits(num, base)| - 1;
      DigitCount(q, base);
      assert Power(base, n + 1) == base * Power(base, n);
      Multiply(base, q, Remainder(num, base), Power(base, n), if q < base then 1 else Power(base, n - 1));
      hide Digits;
    }
  }

  lemma Multiply(base: nat, q: nat, r: nat, above: nat, below: nat)
    requires below <= q < above && r < base
    ensures base * below <= q * base + r < base * above
  {
    MultiplyMonotone(base, below, q);
    MultiplyMonotone(base, q + 1, above);
    assert base * (q + 1) == base * q + base && q * base == base * q;
  }

  lemma MultiplyMonotone(c: nat, a: nat, b: nat)
    requires a <= b
    ensures c * a <= c * b
  {
    assert c * b == c * a + c * (b - a);
  }

  // ---- strtol ----

  /** Two's complement arithmetic of the 32-bit long. */
  function Wrap(x: int): (r: int)
    ensures -0x8000_0000 <= r <= 0x7FFF_FFFF
    ensures -0x8000_0000 <= x <= 0x7FFF_FFFF ==> r == x
    ensures (r - x) % 0x1_0000_0000 == 0
  {
    (x + 0x8000_0000) % 0x1_0000_0000 - 0x8000_0000
  }

  /** A C string ends in a zero byte. */
  function At(s: string, i: nat): char {
    if i < |s| then s[i] else '\0'
  }

  /** The value of a digit or letter, -1 for any other character. */
  function DigitValue(c: char): int {
    if '0' <= c <= '9' then c as int - '0' as int
    else if 'a' <= c <= 'z' then c as int - 'a' as int + 10
    else if 'A' <= c <= 'Z' then c as int - 'A' as int + 10
    else -1
  }

  predicate IsDigit(c: char, base: int) {
    0 <= DigitValue(c) < base
  }

  predicate IsBlank(c: char) {
    c == ' ' || c == '\t'
  }

  function SkipBlanks(s: string, i: nat): (j: nat)
    requires i <= |s|
    ensures i <= j <= |s| && (forall k :: i <= k < j ==> IsBlank(s[k])) && !IsBlank(At(s, j))
    decreases |s| - i
  {
    if IsBlank(At(s, i)) then SkipBlanks(s, i + 1) else i
  }

  function SkipSign(s: string, i: nat): (j: nat)
    requires i <= |s|
    ensures j <= |s|
  {
    if At(s, i) == '+' || At(s, i) == '-' then i + 1 else i
  }

  /** Past the prefix that names the base, and the base it leaves. */
  function SkipPrefix(s: string, i: nat, base: int): (r: (nat, int))
    requires i <= |s|
    ensures r.0 <= |s|
  {
    if (base == 0 || base == 16) && At(s, i) == '0' && At(s, i + 1) == 'x' then (i + 2, 16)
    else if base == 0 && At(s, i) == '0' then (i + 1, 8)
    else if base == 0 then (i, 10)
    else (i, base)
  }

  function SkipDigits(s: string, i: nat, base: int): (j: nat)
    requires i <= |s|
    ensures i <= j <= |s| && (forall k :: i <= k < j ==> IsDigit(s[k], base)) && !IsDigit(At(s, j), base)
    decreases |s| - i
  {
    if IsDigit(At(s, i), base) then SkipDigits(s, i + 1, base) else i
  }

  /** Positional value, the most significant digit first. */
  function Value(digits: string, base: int): int {
    if digits == "" then 0
    else Value(digits[..|digits| - 1], base) * base + DigitValue(digits[|digits| - 1])
  }

  datatype Number = Number(val: int, end: nat)

  /** What strtol returns and leaves in *endptr. */
  function Parse(s: string, base: int): (n: Number)
    ensures n.end <= |s|
  {
    var i := SkipBlanks(s, 0);
    var (first, b) := SkipPrefix(s, SkipSign(s, i), base);
    var end := SkipDigits(s, first, b);
    var magnitude := Value(s[first..end], b);
    Number(Wrap(if At(s, i) == '-' then -magnitude else magnitude), end)
  }

  // ---- what the text says ----

  /** The digits of the radices up to 36. */
  function Lower(d: nat): (c: char)
    requires d < 36
  {
    "0123456789abcdefghijklmnopqrstuvwxyz"[d]
  }

  function Upper(d: nat): (c: char)
    requires d < 36
  {
    "0123456789ABCDEFGHIJKLMNOPQRSTUVWXYZ"[d]
  }

  /** A text cut where strtol cuts it, with the values of the digits. */
  datatype Parts = Parts(blanks: string, sign: string, prefix: string, chars: string, rest: string, radix: int, digits: seq<nat>)

  /** c is the digit d of the radix, in either case. */
  predicate Spells(c: char, d: nat, radix: int) {
    d < 36 && d < radix && (c == Lower(d) || c == Upper(d))
  }

  predicate BlanksFit(blanks: string, signed: string) {
    && (forall c :: c in blanks ==> c == ' ' || c == '\t')
    && (signed != "" ==> signed[0] != ' ' && signed[0] != '\t')
  }

  predicate SignFits(sign: string, unsigned: string) {
    sign == "+" || sign == "-" || (sign == "" && (unsigned != "" ==> unsigned[0] != '+' && unsigned[0] != '-'))
  }

  predicate PrefixFits(prefix: string, radix: int, unsigned: string, base: int) {
    if "0x" <= unsigned && (base == 0 || base == 16) then prefix == "0x" && radix == 16
    else if "0" <= unsigned && base == 0 then prefix == "0" && radix == 8
    else prefix == "" && radix == if base == 0 then 10 else base
  }

  ghost predicate DigitsFit(chars: string, digits: seq<nat>, rest: string, radix: int) {
    && |digits| == |chars| && (forall i :: 0 <= i < |chars| ==> Spells(chars[i], digits[i], radix))
    && (rest != "" ==> forall d: nat :: !Spells(rest[0], d, radix))
  }

  /**
   * The text is blanks, a sign or none, the prefix that the base asks for, and as many digits as there are; what follows
   * is no digit of the radix.
   */
  ghost predicate Spelled(str: string, base: int, p: Parts) {
    var unsigned := p.prefix + p.chars + p.rest;
    && str == p.blanks + p.sign + unsigned
    && BlanksFit(p.blanks, p.sign + unsigned) && SignFits(p.sign, unsigned)
    && PrefixFits(p.prefix, p.radix, unsigned, base) && DigitsFit(p.chars, p.digits, p.rest, p.radix)
  }

  /** Every digit by the power of the radix of its place. */
  function Total(digits: seq<nat>, radix: int): int {
    if digits == [] then 0 else digits[0] * Power(radix, |digits| - 1) + Total(digits[1..], radix)
  }

  /** The number a text stands for, modulo 2^32, and where it ends. */
  ghost predicate Stands(n: Number, str: string, p: Parts) {
    && (n.val - (if p.sign == "-" then -Total(p.digits, p.radix) else Total(p.digits, p.radix))) % 0x1_0000_0000 == 0
    && -0x8000_0000 <= n.val <= 0x7FFF_FFFF
    && n.end == |str| - |p.rest|
  }

  lemma LowerCode(d: nat)
    requires d < 36
    ensures Lower(d) as int == if d < 10 then '0' as int + d else 'a' as int + d - 10
  {
  }

  lemma UpperCode(d: nat)
    requires d < 36
    ensures Upper(d) as int == if d < 10 then '0' as int + d else 'A' as int + d - 10
  {
  }

  lemma DigitOf(c: char, d: nat, radix: int)
    ensures Spells(c, d, radix) <==> IsDigit(c, radix) && DigitValue(c) == d
  {
    hide Lower, Upper;
    if d < 36 {
      LowerCode(d);
      UpperCode(d);
    }
  }

  lemma {:induction false} TotalAppends(digits: seq<nat>, d: nat, radix: int)
    ensures Total(digits + [d], radix) == Total(digits, radix) * radix + d
  {
    var all := digits + [d];
    if digits == [] {
      assert all[1..] == [];
      assert Total(all, radix) == d * Power(radix, 0) + Total([], radix);
    } else {
      assert all[1..] == digits[1..] + [d];
      TotalAppends(digits[1..], d, radix);
      assert Power(radix, |digits|) == radix * Power(radix, |digits| - 1);
      Distribute(digits[0], Power(radix, |digits| - 1), Total(digits[1..], radix), radix);
    }
  }

  lemma Distribute(d: int, w: int, t: int, radix: int)
    ensures (d * w + t) * radix == d * (radix * w) + t * radix
  {
  }

  lemma {:induction false} ValueIsTotal(chars: string, digits: seq<nat>, radix: int)
    requires |digits| == |chars| && forall i :: 0 <= i < |chars| ==> DigitValue(chars[i]) == digits[i]
    ensures Value(chars, radix) == Total(digits, radix)
  {
    hide DigitValue;
    if chars != "" {
      var n := |chars| - 1;
      ValueIsTotal(chars[..n], digits[..n], radix);
      TotalAppends(digits[..n], digits[n], radix);
      assert digits[..n] + [digits[n]] == digits;
    }
  }

  lemma AtTail(head: string, tail: string, k: nat)
    ensures At(head + tail, |head| + k) == At(tail, k)
  {
  }

  lemma BlanksEnd(s: string, n: nat)
    requires n <= |s| && (forall k :: 0 <= k < n ==> IsBlank(s[k])) && !IsBlank(At(s, n))
    ensures SkipBlanks(s, 0) == n
  {
  }

  lemma BlanksCut(blanks: string, signed: string)
    requires BlanksFit(blanks, signed)
    ensures SkipBlanks(blanks + signed, 0) == |blanks|
  {
    var str := blanks + signed;
    AtTail(blanks, signed, 0);
    forall k | 0 <= k < |blanks| ensures IsBlank(str[k]) {
      assert str[k] == blanks[k] && blanks[k] in blanks;
    }
    BlanksEnd(str, |blanks|);
  }

  lemma SignCut(blanks: string, sign: string, unsigned: string)
    requires SignFits(sign, unsigned)
    ensures var str := blanks + (sign + unsigned);
      SkipSign(str, |blanks|) == |blanks + sign| && (At(str, |blanks|) == '-' <==> sign == "-")
  {
    AtTail(blanks, sign + unsigned, 0);
    if sign == "" { assert sign + unsigned == unsigned; }
  }

  lemma PrefixCut(head: string, prefix: string, radix: int, unsigned: string, base: int)
    requires PrefixFits(prefix, radix, unsigned, base)
    ensures SkipPrefix(head + unsigned, |head|, base) == (|head| + |prefix|, radix)
  {
    AtTail(head, unsigned, 0);
    AtTail(head, unsigned, 1);
    assert "0x" <= unsigned <==> At(unsigned, 0) == '0' && At(unsigned, 1) == 'x';
    assert "0" <= unsigned <==> At(unsigned, 0) == '0';
  }

  lemma DigitsEnd(s: string, first: nat, end: nat, radix: int)
    requires first <= end <= |s| && (forall k :: first <= k < end ==> IsDigit(s[k], radix)) && !IsDigit(At(s, end), radix)
    ensures SkipDigits(s, first, radix) == end
  {
    hide IsDigit;
  }

  lemma DigitsCut(head: string, chars: string, digits: seq<nat>, rest: string, radix: int)
    requires DigitsFit(chars, digits, rest, radix)
    ensures var str := head + chars + rest;
      SkipDigits(str, |head|, radix) == |head + chars| && str[|head|..|head + chars|] == chars
    ensures |digits| == |chars| && forall i :: 0 <= i < |chars| ==> DigitValue(chars[i]) == digits[i]
  {
    hide Spells, IsDigit, DigitValue;
    var str := head + chars + rest;
    forall i | 0 <= i < |chars| ensures DigitValue(chars[i]) == digits[i] && IsDigit(chars[i], radix) {
      DigitOf(chars[i], digits[i], radix);
    }
    assert forall k :: |head| <= k < |head + chars| ==> str[k] == chars[k - |head|];
    AtTail(head + chars, rest, 0);
    RestIsNoDigit(rest, radix);
    DigitsEnd(str, |head|, |head + chars|, radix);
  }

  lemma RestIsNoDigit(rest: string, radix: int)
    ensures IsDigit(At(rest, 0), radix) <==> rest != "" && exists d: nat :: Spells(rest[0], d, radix)
  {
    hide Spells;
    if IsDigit(At(rest, 0), radix) {
      HasDigit(rest[0], radix);
    } else if rest != "" {
      forall d: nat ensures !Spells(rest[0], d, radix) {
        DigitOf(rest[0], d, radix);
      }
    }
  }

  /** Every digit strtol takes is one of the alphabet. */
  lemma HasDigit(c: char, radix: int)
    requires IsDigit(c, radix)
    ensures DigitValue(c) >= 0 && Spells(c, DigitValue(c), radix)
  {
    DigitOf(c, DigitValue(c), radix);
  }

  lemma Regroup(a: string, b: string, c: string, d: string, e: string)
    ensures a + b + (c + d + e) == a + (b + (c + d + e)) == (a + b) + (c + d + e) == a + b + c + d + e
  {
  }

  /** strtol reads the number that the text stands for. */
  lemma ParseReads(str: string, base: int, p: Parts)
    requires Spelled(str, base, p)
    ensures Stands(Parse(str, base), str, p)
  {
    hide BlanksFit, SignFits, PrefixFits, DigitsFit, DigitValue, SkipBlanks, SkipSign, SkipPrefix, SkipDigits, Value, Total, Wrap;
    var unsigned := p.prefix + p.chars + p.rest;
    Regroup(p.blanks, p.sign, p.prefix, p.chars, p.rest);
    BlanksCut(p.blanks, p.sign + unsigned);
    SignCut(p.blanks, p.sign, unsigned);
    PrefixCut(p.blanks + p.sign, p.prefix, p.radix, unsigned, base);
    DigitsCut(p.blanks + p.sign + p.prefix, p.chars, p.digits, p.rest, p.radix);
    ValueIsTotal(p.chars, p.digits, p.radix);
  }

  lemma BlanksFound(s: string)
    ensures BlanksFit(s[..SkipBlanks(s, 0)], s[SkipBlanks(s, 0)..])
  {
  }

  lemma SignFound(s: string, i: nat)
    requires i <= |s|
    ensures i <= SkipSign(s, i) && SignFits(s[i..SkipSign(s, i)], s[SkipSign(s, i)..])
  {
  }

  lemma PrefixFound(s: string, j: nat, base: int)
    requires j <= |s|
    ensures var (first, radix) := SkipPrefix(s, j, base);
      j <= first && PrefixFits(s[j..first], radix, s[j..], base)
  {
    assert "0x" <= s[j..] <==> At(s, j) == '0' && At(s, j + 1) == 'x';
    assert "0" <= s[j..] <==> At(s, j) == '0';
  }

  lemma DigitsFound(s: string, first: nat, radix: int) returns (digits: seq<nat>)
    requires first <= |s|
    ensures var end := SkipDigits(s, first, radix); DigitsFit(s[first..end], digits, s[end..], radix)
  {
    hide Spells, DigitValue, IsDigit;
    var end := SkipDigits(s, first, radix);
    forall k | first <= k < end ensures DigitValue(s[k]) >= 0 && Spells(s[k], DigitValue(s[k]), radix) {
      HasDigit(s[k], radix);
    }
    digits := seq(end - first, k requires 0 <= k < end - first => if DigitValue(s[first + k]) >= 0 then DigitValue(s[first + k]) else 0);
    RestIsNoDigit(s[end..], radix);
    assert s[end..] != "" ==> At(s[end..], 0) == At(s, end);
  }

  lemma Cuts(s: string, i: nat, j: nat, first: nat, end: nat)
    requires i <= j <= first <= end <= |s|
    ensures var unsigned := s[j..first] + s[first..end] + s[end..];
      s == s[..i] + s[i..j] + unsigned && s[i..j] + unsigned == s[i..] && unsigned == s[j..]
  {
  }

  /** Every text stands for a number: there is always a way to cut it. */
  lemma EveryTextStands(str: string, base: int) returns (p: Parts)
    ensures Spelled(str, base, p)
  {
    hide BlanksFit, SignFits, PrefixFits, DigitsFit, SkipBlanks, SkipSign, SkipPrefix, SkipDigits;
    var i := SkipBlanks(str, 0);
    var j := SkipSign(str, i);
    var (first, radix) := SkipPrefix(str, j, base);
    var end := SkipDigits(str, first, radix);
    BlanksFound(str);
    SignFound(str, i);
    PrefixFound(str, j, base);
    var digits := DigitsFound(str, first, radix);
    p := Parts(str[..i], str[i..j], str[j..first], str[first..end], str[end..], radix, digits);
    Cuts(str, i, j, first, end);
  }

  // ---- the method ----

  lemma WrapStep(v: int, base: int, d: int)
    ensures Wrap(Wrap(v) * base + d) == Wrap(v * base + d)
    ensures Wrap(-Wrap(v)) == Wrap(-v)
  {
    var k := (v + 0x8000_0000) / 0x1_0000_0000;
    assert Wrap(v) == v - 0x1_0000_0000 * k;
    assert Wrap(v) * base == v * base - 0x1_0000_0000 * (k * base);
    WrapShift(v * base + d, -(k * base));
    WrapShift(-v, k);
  }

  lemma WrapShift(x: int, j: int)
    ensures Wrap(x + 0x1_0000_0000 * j) == Wrap(x)
  {
  }

  /** strtol; val is the exact value modulo 2^32, as overflow is not detected. */
  method StrToL(str: string, base0: int) returns (result: int, end: nat)
    ensures Number(result, end) == Parse(str, base0)
    ensures forall p :: Spelled(str, base0, p) ==> Stands(Number(result, end), str, p)
  {
    hide Spelled, Stands, Value, SkipBlanks, SkipDigits, SkipPrefix;
    var neg, base := false, base0;
    var s := Gobble(str);
    if At(str, s) == '+' {
      s := s + 1;
    } else if At(str, s) == '-' {
      s, neg := s + 1, true;
    }
    s, base := Prefix(str, s, base0);
    var val;
    val, end := Digest(str, s, base);
    result := if neg then Wrap(-val) else val;
    WrapStep(Value(str[s..end], base), 0, 0);
    forall p | Spelled(str, base0, p) ensures Stands(Number(result, end), str, p) {
      ParseReads(str, base0, p);
    }
  }

  /** The part of strtol that settles the base. */
  method Prefix(str: string, first: nat, base0: int) returns (s: nat, base: int)
    requires first <= |str|
    ensures (s, base) == SkipPrefix(str, first, base0)
  {
    s, base := first, base0;
    if (base == 0 || base == 16) && At(str, s) == '0' && At(str, s + 1) == 'x' {
      s, base := s + 2, 16;
    } else if base == 0 && At(str, s) == '0' {
      s, base := s + 1, 8;
    } else if base == 0 {
      base := 10;
    }
  }

  /** The loop of strtol over the white space in front. */
  method Gobble(str: string) returns (s: nat)
    ensures s == SkipBlanks(str, 0)
  {
    s := 0;
    while At(str, s) == ' ' || At(str, s) == '\t'
      invariant s <= |str| && SkipBlanks(str, s) == SkipBlanks(str, 0)
      decreases |str| - s
    {
      s := s + 1;
    }
  }

  lemma EmptyValue(base: int)
    ensures Wrap(Value("", base)) == 0
  {
  }

  lemma OneMoreDigit(str: string, first: nat, s: nat, base: nat, dig: nat, val: int)
    requires first <= s < |str| && dig == DigitValue(str[s]) < base && val == Wrap(Value(str[first..s], base))
    ensures Wrap(val * base + dig) == Wrap(Value(str[first..s + 1], base))
    ensures SkipDigits(str, s, base) == SkipDigits(str, s + 1, base)
  {
    hide Value, Wrap;
    ValueStep(str, first, s, base);
    WrapStep(Value(str[first..s], base), base, dig);
  }

  lemma ValueStep(str: string, first: nat, s: nat, base: int)
    requires first <= s < |str|
    ensures Value(str[first..s + 1], base) == Value(str[first..s], base) * base + DigitValue(str[s])
  {
    hide DigitValue;
    assert str[first..s + 1][..s - first] == str[first..s];
  }

  /** The digit loop of strtol. */
  method Digest(str: string, first: nat, base: int) returns (val: int, s: nat)
    requires first <= |str|
    ensures s == SkipDigits(str, first, base) && val == Wrap(Value(str[first..s], base))
  {
    hide Value, Wrap;
    EmptyValue(base);
    assert str[first..first] == "";
    s, val := first, 0;
    while true
      invariant first <= s <= |str| && SkipDigits(str, s, base) == SkipDigits(str, first, base)
      invariant val == Wrap(Value(str[first..s], base))
      decreases |str| - s
    {
      var c, dig := At(str, s), 0;
      if '0' <= c <= '9' {
        dig := c as int - '0' as int;
      } else if 'a' <= c <= 'z' {
        dig := c as int - 'a' as int + 10;
      } else if 'A' <= c <= 'Z' {
        dig := c as int - 'A' as int + 10;
      } else {
        break;
      }
      if dig >= base {
        break;
      }
      OneMoreDigit(str, first, s, base, dig, val);
      s, val := s + 1, Wrap(val * base + dig);
    }
  }

  // ---- the round trip ----

  lemma {:induction false} DigitsAreDigits(num: nat, base: nat)
    requires 2 <= base <= 16
    ensures forall i :: 0 <= i < |Digits(num, base)| ==> PrintedDigit(Digits(num, base)[i], base)
  {
    hide Quotient, Remainder;
    if num >= base {
      DigitsAreDigits(Quotient(num, base), base);
    }
  }

  /** A digit that printnum emits: no sign, no blank and no prefix letter. */
  predicate PrintedDigit(c: char, base: int) {
    IsDigit(c, base) && !IsBlank(c) && c != '+' && c != '-' && c != 'x'
  }

  lemma ValueAppends(digits: string, digit: char, base: int)
    ensures Value(digits + [digit], base) == Value(digits, base) * base + DigitValue(digit)
  {
    assert (digits + [digit])[..|digits|] == digits;
  }

  lemma DigitHasValue(d: nat)
    requires d < 16
    ensures DigitValue(DIGITS[d]) == d
  {
  }

  lemma OneDigit(digit: char, base: int)
    ensures Value([digit], base) == DigitValue(digit)
  {
    hide DigitValue;
    assert [digit][..0] == "";
    assert Value("", base) == 0;
  }

  lemma {:induction false} DigitsHaveValue(num: nat, base: nat)
    requires 2 <= base <= 16
    ensures Value(Digits(num, base), base) == num
  {
    hide Quotient, Remainder, Value, DigitValue;
    if num >= base {
      var q, r := Quotient(num, base), Remainder(num, base);
      DigitsHaveValue(q, base);
      ValueAppends(Digits(q, base), DIGITS[r], base);
      DigitHasValue(r);
    } else {
      OneDigit(DIGITS[num], base);
      DigitHasValue(num);
    }
  }

  lemma {:induction false} LeadingZeros(n: nat, s: string, base: int)
    ensures Value(Pad(n, '0') + s, base) == Value(s, base)
    decreases n + |s|
  {
    var t := Pad(n, '0') + s;
    if |s| > 0 {
      LeadingZeros(n, s[..|s| - 1], base);
      assert t[..|t| - 1] == Pad(n, '0') + s[..|s| - 1];
    } else if n > 0 {
      LeadingZeros(n - 1, "", base);
      assert t[..|t| - 1] == Pad(n - 1, '0') + "";
    }
  }

  /** strtol on n blanks followed by digits that printnum may emit. */
  lemma BlanksThenDigits(s: string, n: nat, base: nat)
    requires 2 <= base <= 16 && n < |s|
    requires forall i :: 0 <= i < n ==> s[i] == ' '
    requires forall i :: n <= i < |s| ==> PrintedDigit(s[i], base)
    ensures Parse(s, base) == Number(Wrap(Value(s[n..], base)), |s|)
  {
    assert PrintedDigit(s[n], base);
    assert SkipBlanks(s, 0) == n;
    var end := SkipDigits(s, n, base);
    assert end == |s|;
    assert s[n..end] == s[n..];
  }

  lemma Padded(n: nat, padc: char, digits: string, base: nat)
    requires 2 <= base <= 16 && forall i :: 0 <= i < |digits| ==> PrintedDigit(digits[i], base)
    ensures var s := Pad(n, padc) + digits;
      && |s| == n + |digits| && s[n..] == digits && s[0..] == s
      && (forall i :: 0 <= i < n ==> s[i] == padc)
      && (forall i :: n <= i < |s| ==> PrintedDigit(s[i], base))
      && (padc == '0' ==> forall i :: 0 <= i < |s| ==> PrintedDigit(s[i], base))
  {
    assert PrintedDigit('0', base);
    hide PrintedDigit;
  }

  /** strtol reads back what printnum wrote, to the end and modulo 2^32, whatever the field width. */
  lemma RoundTripWraps(num: nat, base: nat, width: int, padc: char)
    requires 2 <= base <= 16 && (padc == ' ' || padc == '0')
    ensures var s := Printed(num, base, width, padc); Parse(s, base) == Number(Wrap(num), |s|)
  {
    hide Digits, Value, Parse, PrintedDigit, Wrap;
    var digits := Digits(num, base);
    var n := if width < |digits| then 0 else width - |digits|;
    var s := Printed(num, base, width, padc);
    assert s == Pad(n, padc) + digits;
    DigitsAreDigits(num, base);
    DigitsHaveValue(num, base);
    Padded(n, padc, digits, base);
    if padc == ' ' {
      BlanksThenDigits(s, n, base);
    } else {
      LeadingZeros(n, digits, base);
      BlanksThenDigits(s, 0, base);
    }
  }

  /** So every long comes back. */
  lemma RoundTrip(num: nat, base: nat, width: int, padc: char)
    requires 2 <= base <= 16 && (padc == ' ' || padc == '0')
    requires num <= 0x7FFF_FFFF
    ensures var s := Printed(num, base, width, padc); Parse(s, base) == Number(num, |s|)
  {
    hide Printed, Parse;
    RoundTripWraps(num, base, width, padc);
  }

  // ---- what printnum wrote, behind a sign and a prefix ----

  function Signed(sign: string, num: int): int {
    if sign == "-" then -num else num
  }

  predicate IsSign(sign: string) {
    sign == "" || sign == "+" || sign == "-"
  }

  lemma EndIsNoDigit(s: string, radix: int)
    ensures !IsDigit(At(s, |s|), radix)
  {
  }

  lemma SignAlone(sign: string, unsigned: string, radix: int)
    requires IsSign(sign) && unsigned != "" && PrintedDigit(unsigned[0], radix)
    ensures BlanksFit("", sign + unsigned) && SignFits(sign, unsigned)
  {
    hide IsDigit;
  }

  lemma DigitsToTheEnd(head: string, digits: string, radix: nat)
    requires forall i :: 0 <= i < |digits| ==> PrintedDigit(digits[i], radix)
    ensures var s := head + digits; SkipDigits(s, |head|, radix) == |s| && s[|head|..|s|] == digits
  {
    hide SkipDigits, IsDigit;
    var s := head + digits;
    assert forall k :: |head| <= k < |s| ==> s[k] == digits[k - |head|];
    EndIsNoDigit(s, radix);
    DigitsEnd(s, |head|, |s|, radix);
  }

  /** strtol on a sign, a prefix that fits the base, and digits that printnum may emit. */
  lemma SignedDigits(sign: string, prefix: string, digits: string, base: int, radix: nat)
    requires IsSign(sign) && 2 <= radix <= 16 && digits != ""
    requires forall i :: 0 <= i < |digits| ==> PrintedDigit(digits[i], radix)
    requires PrefixFits(prefix, radix, prefix + digits, base)
    ensures var s := sign + (prefix + digits); Parse(s, base) == Number(Wrap(Signed(sign, Value(digits, radix))), |s|)
  {
    hide SkipBlanks, SkipSign, SkipPrefix, SkipDigits, Value, PrintedDigit, PrefixFits, BlanksFit, SignFits, Wrap, DigitValue;
    var unsigned := prefix + digits;
    PrefixHead(prefix, digits, radix, base);
    SignAlone(sign, unsigned, radix);
    BlanksCut("", sign + unsigned);
    SignCut("", sign, unsigned);
    PrefixCut(sign, prefix, radix, unsigned, base);
    DigitsToTheEnd(sign + prefix, digits, radix);
    Joined(sign, prefix, digits);
  }

  lemma PrefixHead(prefix: string, digits: string, radix: nat, base: int)
    requires digits != "" && PrintedDigit(digits[0], radix) && 2 <= radix <= 16 && PrefixFits(prefix, radix, prefix + digits, base)
    ensures PrintedDigit((prefix + digits)[0], radix)
  {
    hide PrintedDigit;
    PrintedZero(radix);
  }

  lemma Joined(a: string, b: string, c: string)
    ensures "" + (a + (b + c)) == a + (b + c) == a + b + c && "" + a == a
  {
  }

  lemma PrintedZero(base: nat)
    requires 2 <= base
    ensures PrintedDigit('0', base)
  {
  }

  /** No number but 0 starts with 0. */
  lemma {:induction false} NoLeadingZero(num: nat, base: nat)
    requires 2 <= base <= 16
    ensures Digits(num, base)[0] == '0' <==> num == 0
  {
    hide Quotient, Remainder;
    if num >= base {
      var q := Quotient(num, base);
      NoLeadingZero(q, base);
      assert Digits(num, base)[0] == Digits(q, base)[0];
    } else {
      DigitHasValue(num);
      assert Digits(num, base)[0] == DIGITS[num];
    }
  }

  lemma NoPrefix(digits: string, base: nat)
    requires digits != "" && 2 <= base <= 16 && forall i :: 0 <= i < |digits| ==> PrintedDigit(digits[i], base)
    ensures PrefixFits("", base, "" + digits, base) && "" + digits == digits
  {
    hide IsDigit;
    assert "" + digits == digits && (|digits| > 1 ==> PrintedDigit(digits[1], base));
  }

  /** A blank behind the sign ends the number before it starts. */
  lemma SignThenBlank(sign: string, text: string, base: nat)
    requires 2 <= base <= 16 && (sign == "+" || sign == "-") && text != "" && text[0] == ' '
    ensures Parse(sign + text, base) == Number(0, 1)
  {
    hide SkipBlanks, SkipSign, SkipPrefix, SkipDigits;
    var s := sign + text;
    assert BlanksFit("", s) && SignFits(sign, text) && PrefixFits("", base, text, base);
    assert s == "" + s && sign + "" == sign;
    BlanksCut("", s);
    SignCut("", sign, text);
    PrefixCut(sign, "", base, text, base);
    AtTail(sign, text, 0);
    DigitsEnd(s, 1, 1, base);
    assert Value(s[1..1], base) == 0;
  }

  /** A sign in front of a printed number reads back as that sign of the number, unless blanks come between the two. */
  lemma SignedRoundTrip(sign: string, num: nat, base: nat, width: int, padc: char)
    requires 2 <= base <= 16 && (padc == ' ' || padc == '0') && (sign == "+" || sign == "-")
    ensures var s := sign + Printed(num, base, width, padc);
      Parse(s, base) == if padc == '0' || width <= |Digits(num, base)| then Number(Wrap(Signed(sign, num)), |s|) else Number(0, 1)
  {
    hide Digits, Value, Parse, PrintedDigit, Wrap, PrefixFits;
    var digits := Digits(num, base);
    var n := if width < |digits| then 0 else width - |digits|;
    var text := Printed(num, base, width, padc);
    assert text == Pad(n, padc) + digits;
    DigitsAreDigits(num, base);
    DigitsHaveValue(num, base);
    Padded(n, padc, digits, base);
    if padc == '0' || n == 0 {
      LeadingZeros(n, digits, base);
      NoPrefix(text, base);
      SignedDigits(sign, "", text, base, base);
    } else {
      SignThenBlank(sign, text, base);
    }
  }

  /** With the prefix of its base, or in decimal without one, a number reads back with base 0; with 0x in base 16 too. */
  lemma PrefixedRoundTrip(sign: string, num: nat)
    requires IsSign(sign)
    ensures var s := sign + ("0x" + Digits(num, 16)); Parse(s, 0) == Parse(s, 16) == Number(Wrap(Signed(sign, num)), |s|)
    ensures var s := sign + ("0" + Digits(num, 8)); Parse(s, 0) == Number(Wrap(Signed(sign, num)), |s|)
    ensures var s := sign + Digits(num, 10); Parse(s, 0) == Number(Wrap(Signed(sign, num)), |s|)
  {
    hide Digits, Value, Parse, Wrap, PrintedDigit;
    Hexadecimal(sign, num);
    Octal(sign, num);
    Decimal(sign, num);
  }

  lemma Hexadecimal(sign: string, num: nat)
    requires IsSign(sign)
    ensures var s := sign + ("0x" + Digits(num, 16)); Parse(s, 0) == Parse(s, 16) == Number(Wrap(Signed(sign, num)), |s|)
  {
    hide Digits, Value, Parse, Wrap, PrintedDigit;
    DigitsAreDigits(num, 16);
    DigitsHaveValue(num, 16);
    SignedDigits(sign, "0x", Digits(num, 16), 0, 16);
    SignedDigits(sign, "0x", Digits(num, 16), 16, 16);
  }

  lemma Octal(sign: string, num: nat)
    requires IsSign(sign)
    ensures var s := sign + ("0" + Digits(num, 8)); Parse(s, 0) == Number(Wrap(Signed(sign, num)), |s|)
  {
    hide Digits, Value, Parse, Wrap, IsDigit;
    DigitsAreDigits(num, 8);
    DigitsHaveValue(num, 8);
    assert PrintedDigit(Digits(num, 8)[0], 8) && ("0" + Digits(num, 8))[1] == Digits(num, 8)[0];
    SignedDigits(sign, "0", Digits(num, 8), 0, 8);
  }

  /** 0 itself is read as an octal number without further digits. */
  lemma Decimal(sign: string, num: nat)
    requires IsSign(sign)
    ensures var s := sign + Digits(num, 10); Parse(s, 0) == Number(Wrap(Signed(sign, num)), |s|)
  {
    hide Value, Parse, Wrap, IsDigit;
    DigitsAreDigits(num, 10);
    DigitsHaveValue(num, 10);
    NoLeadingZero(num, 10);
    assert "" + Digits(num, 10) == Digits(num, 10);
    if num == 0 {
      JustZero(sign);
    } else {
      SignedDigits(sign, "", Digits(num, 10), 0, 10);
    }
  }

  lemma JustZero(sign: string)
    requires IsSign(sign)
    ensures Parse(sign + "0", 0) == Number(0, |sign| + 1)
  {
    hide SkipBlanks, SkipSign, SkipPrefix, SkipDigits, DigitValue;
    var s := sign + "0";
    assert s == "" + s && sign + "" == sign;
    PrintedZero(8);
    SignAlone(sign, "0", 8);
    BlanksCut("", s);
    SignCut("", sign, "0");
    assert PrefixFits("0", 8, "0", 0);
    PrefixCut(sign, "0", 8, "0", 0);
    EndIsNoDigit(s, 8);
    DigitsEnd(s, |s|, |s|, 8);
    assert Value(s[|s|..|s|], 8) == 0;
  }
}
