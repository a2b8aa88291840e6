/**
 The text of numbers: what printnum prints (libs/printfmt.c) and what strtol reads
 (libs/string.c), and that reading undoes printing.
 */
module NumText {

  // ---- Printing ----

  const DIGITS: seq<char> := "0123456789abcdef"

  function DigitChar(d: nat): char
    requires d < 16
  {
    DIGITS[d]
  }

  function Digits(num: nat, base: nat): (s: seq<char>)
    requires 2 <= base <= 16
    ensures |s| >= 1
  {
    if num < base then [DigitChar(num)] else Digits(num / base, base) + [DigitChar(num % base)]
  }

  function Repeat(c: char, n: int): (s: seq<char>)
    ensures |s| == if n > 0 then n else 0
    ensures forall i :: 0 <= i < |s| ==> s[i] == c
  {
    if n <= 0 then [] else [c] + Repeat(c, n - 1)
  }

  /** The digits, padded on the left up to the width. */
  function Printed(num: nat, base: nat, width: int, padc: char): seq<char>
    requires 2 <= base <= 16
  {
    var ds := Digits(num, base);
    Repeat(padc, width - |ds|) + ds
  }

  // ---- Reading ----

  predicate IsBlank(c: char) {
    c == ' ' || c == '\t'
  }

  /** The value of a digit or letter, or -1. */
  function DigitValue(c: char): int {
    if '0' <= c <= '9' then c as int - '0' as int
    else if 'a' <= c <= 'z' then c as int - 'a' as int + 10
    else if 'A' <= c <= 'Z' then c as int - 'A' as int + 10
    else -1
  }

  predicate IsDigitOf(c: char, base: nat) {
    0 <= DigitValue(c) < base
  }

  /** The value a 64-bit signed variable takes. */
  function Wrap(x: int): int {
    var m := x % 0x1_0000_0000_0000_0000;
    if m < 0x8000_0000_0000_0000 then m else m - 0x1_0000_0000_0000_0000
  }

  lemma WrapSmall(x: int)
    requires -0x8000_0000_0000_0000 <= x < 0x8000_0000_0000_0000
    ensures Wrap(x) == x
  {
  }

  /** One more digit behind the value so far. */
  function Accumulate(val: int, base: nat, digit: int): int {
    Wrap(val * base + digit)
  }

  lemma AccumulateLast(num: nat, base: nat)
    requires base >= 1
    ensures Accumulate(Wrap(num / base), base, num % base) == Wrap(num)
  {
    var q, d := num / base, num % base;
    assert q * base + d == num;
    var turns := WrapTurns(q);
    assert (q - turns * 0x1_0000_0000_0000_0000) * base + d == num - turns * base * 0x1_0000_0000_0000_0000;
    WrapAgain(num, 0 - turns * base);
  }

  /** Wrapping takes off a multiple of 2^64. */
  lemma WrapTurns(x: int) returns (turns: int)
    ensures Wrap(x) == x - turns * 0x1_0000_0000_0000_0000
  {
    turns := x / 0x1_0000_0000_0000_0000 + if x % 0x1_0000_0000_0000_0000 < 0x8000_0000_0000_0000 then 0 else 1;
  }

  lemma WrapAgain(x: int, turns: int)
    ensures Wrap(x + turns * 0x1_0000_0000_0000_0000) == Wrap(x)
  {
  }

  lemma QuotientSmaller(num: nat, base: nat)
    requires base >= 2
    ensures num / base <= num && num % base < base
  {
  }

  function At(s: seq<char>, p: nat): char {
    if p < |s| then s[p] else '\0'
  }

  datatype Parse = Parse(val: int, end: nat)

  /** The digit loop of strtol from position p on. */
  function TakeDigits(s: seq<char>, p: nat, base: nat, val: int): Parse
    decreases |s| - p
  {
    if p < |s| && IsDigitOf(s[p], base) then TakeDigits(s, p + 1, base, Accumulate(val, base, DigitValue(s[p])))
    else Parse(val, p)
  }

  function SkipBlanks(s: seq<char>, p: nat): nat
    decreases |s| - p
  {
    if p < |s| && IsBlank(s[p]) then SkipBlanks(s, p + 1) else p
  }

  /** Reading a number: blanks, a sign, a prefix, digits; `upper` admits "0X" in base 16. */
  function Reading(s: seq<char>, base: nat, upper: bool): Parse {
    var p := SkipBlanks(s, 0);
    var neg := At(s, p) == '-';
    var q := if At(s, p) == '+' || neg then p + 1 else p;
    var hex := || ((base == 0 || base == 16) && At(s, q) == '0' && At(s, q + 1) == 'x')
               || (upper && base == 16 && At(s, q) == '0' && At(s, q + 1) == 'X');
    var oct := !hex && base == 0 && At(s, q) == '0';
    var d := TakeDigits(s, if hex then q + 2 else if oct then q + 1 else q,
                        if hex then 16 else if oct then 8 else if base == 0 then 10 else base, 0);
    Parse(if neg then Wrap(-d.val) else d.val, d.end)
  }

  /** What strtol reads. */
  function Strtol(s: seq<char>, base: nat): Parse {
    Reading(s, base, false)
  }

  /** What the comment on strtol describes: in base 16 the prefix may be "0x" or "0X". */
  function Documented(s: seq<char>, base: nat): Parse {
    Reading(s, base, true)
  }

  /** The position behind blanks and sign. */
  function NumberStart(s: seq<char>): nat {
    var p := SkipBlanks(s, 0);
    if At(s, p) == '+' || At(s, p) == '-' then p + 1 else p
  }

  predicate HasUpperPrefix(s: seq<char>, base: nat) {
    base == 16 && At(s, NumberStart(s)) == '0' && At(s, NumberStart(s) + 1) == 'X'
  }

  /**
   strtol does what its comment says exactly on texts without the prefix "0X" in base 16; on
   those it reads the single digit 0.
   */
  lemma DocumentedUnlessUpperPrefix(s: seq<char>, base: nat)
    ensures Strtol(s, base) == Documented(s, base) <==> !HasUpperPrefix(s, base)
    ensures HasUpperPrefix(s, base) ==> Strtol(s, base) == Parse(0, NumberStart(s) + 1)
  {
    if HasUpperPrefix(s, base) {
      var q := NumberStart(s);
      assert TakeDigits(s, q, 16, 0) == TakeDigits(s, q + 1, 16, 0);
      assert TakeDigits(s, q + 1, 16, 0) == Parse(0, q + 1);
      TakesForward(s, q + 2, 16, 0);
    }
  }

  lemma {:induction false} TakesForward(s: seq<char>, p: nat, base: nat, val: int)
    ensures TakeDigits(s, p, base, val).end >= p
    decreases |s| - p
  {
    if p < |s| && IsDigitOf(s[p], base) {
      TakesForward(s, p + 1, base, Accumulate(val, base, DigitValue(s[p])));
    }
  }

  /** "0X1f" in base 16 is documented to be 31, and is read as 0. */
  lemma UpperPrefixFails()
    ensures Documented("0X1f", 16) == Parse(31, 4) && Strtol("0X1f", 16) == Parse(0, 1)
  {
    var s := "0X1f";
    assert SkipBlanks(s, 0) == 0;
    AccumulateSmall(0, 16, 1);
    AccumulateSmall(1, 16, 15);
    TakeOne(s, 2, 16, 0);
    TakeOne(s, 3, 16, 1);
    hide TakeDigits, Accumulate, Wrap;
    NoMoreDigits(s, 16, 31);
    DocumentedUnlessUpperPrefix(s, 16);
  }

  lemma TakeOne(s: seq<char>, p: nat, base: nat, val: int)
    requires p < |s| && IsDigitOf(s[p], base)
    ensures TakeDigits(s, p, base, val) == TakeDigits(s, p + 1, base, Accumulate(val, base, DigitValue(s[p])))
  {
  }

  lemma AccumulateSmall(val: nat, base: nat, digit: nat)
    requires val * base + digit < 0x8000_0000_0000_0000
    ensures Accumulate(val, base, digit) == val * base + digit
  {
    WrapSmall(val * base + digit);
  }

  /** The branches on the character at hand in the digit loop; -1 where the loop ends. */
  method ReadDigit(c: char) returns (dig: int)
    ensures dig == DigitValue(c)
  {
    if '0' <= c <= '9' {
      return c as int - '0' as int;
    } else if 'a' <= c <= 'z' {
      return c as int - 'a' as int + 10;
    } else if 'A' <= c <= 'Z' {
      return c as int - 'A' as int + 10;
    }
    return -1;
  }

  lemma NulIsNoDigit()
    ensures DigitValue('\0') == -1
  {
  }

  method ParseLong(s: seq<char>, base: nat) returns (r: Parse)
    ensures r == Strtol(s, base)
  {
    hide Wrap, Accumulate, DigitValue;
    NulIsNoDigit();
    var p, neg, b := 0, false, base;
    while At(s, p) == ' ' || At(s, p) == '\t'
      invariant p <= |s| && SkipBlanks(s, p) == SkipBlanks(s, 0)
      decreases |s| - p
    {
      p := p + 1;
    }
    if At(s, p) == '+' {
      p := p + 1;
    } else if At(s, p) == '-' {
      p, neg := p + 1, true;
    }
    if (b == 0 || b == 16) && At(s, p) == '0' && At(s, p + 1) == 'x' {
      p, b := p + 2, 16;
    } else if b == 0 && At(s, p) == '0' {
      p, b := p + 1, 8;
    } else if b == 0 {
      b := 10;
    }
    var val := 0;
    ghost var goal := TakeDigits(s, p, b, 0);
    while true
      invariant p <= |s| && TakeDigits(s, p, b, val) == goal
      decreases |s| - p
    {
      var dig := ReadDigit(At(s, p));
      if dig < 0 || dig >= b {
        break;
      }
      p, val := p + 1, Accumulate(val, b, dig);
    }
    return Parse(if neg then Wrap(-val) else val, p);
  }

  // ---- Reading undoes printing ----

  lemma DigitBack(d: nat, base: nat)
    requires d < base <= 16
    ensures IsDigitOf(DigitChar(d), base) && DigitValue(DigitChar(d)) == d
    ensures !IsBlank(DigitChar(d)) && DigitChar(d) != '+' && DigitChar(d) != '-' && DigitChar(d) != 'x'
    ensures '0' <= DigitChar(d) <= '9' || 'a' <= DigitChar(d) <= 'f'
    ensures DigitChar(d) == '0' <==> d == 0
  {
    var c := DigitChar(d);
    assert c == if d < 10 then '0' + d as char else 'a' + (d - 10) as char;
  }

  predicate Follows(s: seq<char>, p: nat, t: seq<char>) {
    p + |t| <= |s| && s[p..p + |t|] == t
  }

  lemma Split(z: seq<char>, p: nat, a: seq<char>, b: seq<char>)
    requires Follows(z, p, a + b)
    ensures Follows(z, p, a) && Follows(z, p + |a|, b)
  {
    assert z[p..p + |a|] == (a + b)[..|a|];
    assert z[p + |a|..p + |a| + |b|] == (a + b)[|a|..];
  }

  lemma Front(z: seq<char>, p: nat, t: seq<char>)
    requires Follows(z, p, t) && t != []
    ensures p < |z| && z[p] == t[0]
  {
    assert z[p..p + |t|][0] == t[0];
  }

  /** Reading the digits of a number from zero accumulates the number, as far as 64 bits hold it. */
  lemma {:induction false} TakePrinted(s: seq<char>, p: nat, num: nat, base: nat)
    requires 2 <= base <= 16 && Follows(s, p, Digits(num, base))
    ensures TakeDigits(s, p, base, 0) == TakeDigits(s, p + |Digits(num, base)|, base, Wrap(num))
    decreases num
  {
    hide Accumulate, DigitValue, Wrap;
    var ds := Digits(num, base);
    QuotientSmaller(num, base);
    assert s[p + |ds| - 1] == s[p..p + |ds|][|ds| - 1] == ds[|ds| - 1];
    if num < base {
      DigitBack(num, base);
      AccumulateFirst(num, base);
    } else {
      DigitBack(num % base, base);
      AccumulateLast(num, base);
      var front := Digits(num / base, base);
      assert s[p..p + |front|] == s[p..p + |ds|][..|front|] == front;
      TakePrinted(s, p, num / base, base);
    }
  }

  lemma AccumulateFirst(num: nat, base: nat)
    ensures Accumulate(0, base, num) == Wrap(num)
  {
  }

  lemma {:induction false} TakeZeros(s: seq<char>, p: nat, n: nat, base: nat)
    requires base >= 1 && p + n <= |s| && forall i :: p <= i < p + n ==> s[i] == '0'
    ensures TakeDigits(s, p, base, 0) == TakeDigits(s, p + n, base, 0)
    decreases n
  {
    if n > 0 {
      TakeZeros(s, p + 1, n - 1, base);
    }
  }

  lemma {:induction false} SkipRun(s: seq<char>, p: nat, n: nat)
    requires p + n <= |s| && forall i :: p <= i < p + n ==> IsBlank(s[i])
    ensures SkipBlanks(s, p) == SkipBlanks(s, p + n)
    decreases n
  {
    if n > 0 {
      SkipRun(s, p + 1, n - 1);
    }
  }

  /** The characters of a printed number: decimal digits and the letters a to f, and no leading zero. */
  lemma {:induction false} DigitsPlain(num: nat, base: nat)
    requires 2 <= base <= 16
    ensures forall i :: 0 <= i < |Digits(num, base)| ==>
              var c := Digits(num, base)[i]; !IsBlank(c) && c != '+' && c != '-' && c != 'x'
    ensures forall i :: 0 <= i < |Digits(num, base)| ==>
              var c := Digits(num, base)[i]; '0' <= c <= '9' || 'a' <= c <= 'f'
    ensures Digits(num, base)[0] == '0' ==> num == 0 && |Digits(num, base)| == 1
    decreases num
  {
    DigitBack(if num < base then num else num % base, base);
    if num >= base {
      DigitsPlain(num / base, base);
    }
  }

  /**
   The round trip: what printnum prints for n in base 8, 10 or 16, padded with zeros or blanks
   to any width, strtol reads back, all of it, as the 64-bit signed value of n; that is n itself
   below 2^63.
   */
  lemma PrintThenParse(num: nat, base: nat, width: int, padc: char)
    requires base == 8 || base == 10 || base == 16
    requires padc == '0' || padc == ' '
    ensures var s := Printed(num, base, width, padc);
            && Strtol(s, base) == Parse(Wrap(num), |s|)
            && (num < 0x8000_0000_0000_0000 ==> Strtol(s, base) == Parse(num, |s|))
            && |s| == if width > |Digits(num, base)| then width else |Digits(num, base)|
  {
    hide Digits, TakeDigits, Wrap, IsBlank;
    BlankIs(padc);
    var s, ds := Printed(num, base, width, padc), Digits(num, base);
    var pad := |s| - |ds|;
    assert forall i :: 0 <= i < pad ==> s[i] == padc;
    assert forall i :: 0 <= i < |ds| ==> s[pad + i] == ds[i];
    DigitsPlain(num, base);
    assert s[pad..pad + |ds|] == ds;
    TakePrinted(s, pad, num, base);
    if padc == ' ' {
      SkipRun(s, 0, pad);
      assert SkipBlanks(s, pad) == pad;
    } else {
      TakeZeros(s, 0, pad, base);
    }
    if num < 0x8000_0000_0000_0000 {
      WrapSmall(num);
    }
    NoMoreDigits(s, base, Wrap(num));
    assert At(s, 1) != 'x' && At(s, pad + 1) != 'x';
    assert s[pad] == ds[0];
    assert SkipBlanks(s, 0) == if padc == ' ' then pad else 0;
  }

  lemma BlankIs(c: char)
    ensures c == ' ' ==> IsBlank(c)
    ensures c == '0' ==> !IsBlank(c)
  {
  }

  lemma NoMoreDigits(s: seq<char>, base: nat, val: int)
    ensures TakeDigits(s, |s|, base, val) == Parse(val, |s|)
  {
  }
}
