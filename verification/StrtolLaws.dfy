/**
 What strtol reads (libs/string.c): blanks, a sign, a prefix and digits in either case, whatever
 stands behind them.
 */
module StrtolLaws {
  import opened NumText

  const LOWER: seq<char> := "0123456789abcdefghijklmnopqrstuvwxyz"
  const UPPER: seq<char> := "0123456789ABCDEFGHIJKLMNOPQRSTUVWXYZ"

  /** c is the digit of value d, as a lower-case or an upper-case letter from ten on. */
  predicate DigitIs(c: char, d: nat) {
    d < 36 && (c == LOWER[d] || c == UPPER[d])
  }

  /** The text t spells the digits ds. */
  predicate Spells(t: seq<char>, ds: seq<nat>, base: nat) {
    |t| == |ds| && forall i :: 0 <= i < |t| ==> ds[i] < base && DigitIs(t[i], ds[i])
  }

  function ValueOf(ds: seq<nat>, base: nat): nat {
    if ds == [] then 0 else ValueOf(ds[..|ds| - 1], base) * base + ds[|ds| - 1]
  }

  /** The base that a prefix stands for, when u follows it. */
  function BaseOf(prefix: seq<char>, base: nat): nat {
    if prefix == "0x" then 16 else if prefix == "0" then 8 else if base == 0 then 10 else base
  }

  /** The prefix that counts as one in a base, when u follows it. */
  predicate PrefixOk(prefix: seq<char>, base: nat, u: seq<char>) {
    || (prefix == "0x" && (base == 0 || base == 16))
    || (prefix == "0" && base == 0 && (u == [] || u[0] != 'x'))
    || (prefix == "" && base == 0 && (u == [] || u[0] != '0'))
    || (prefix == "" && 1 <= base <= 36 && !(base == 16 && |u| >= 2 && u[0] == '0' && u[1] == 'x'))
  }

  /** The text before the rest is not empty, or the rest would not add to it. */
  predicate Begun(before: seq<char>, rest: seq<char>) {
    before != [] || rest == [] || (rest[0] != ' ' && rest[0] != '\t' && rest[0] != '+' && rest[0] != '-')
  }

  // ---- Digits ----

  lemma LowerLetter(d: nat)
    requires d < 36
    ensures LOWER[d] as int == (if d < 10 then '0' as int else 'a' as int - 10) + d
  {
    assert LOWER[d] == if d < 10 then '0' + d as char else 'a' + (d - 10) as char;
  }

  lemma UpperLetter(d: nat)
    requires d < 36
    ensures UPPER[d] as int == (if d < 10 then '0' as int else 'A' as int - 10) + d
  {
    assert UPPER[d] == if d < 10 then '0' + d as char else 'A' + (d - 10) as char;
  }

  lemma DigitRead(c: char, d: nat)
    requires DigitIs(c, d)
    ensures DigitValue(c) == d && c != ' ' && c != '\t' && c != '+' && c != '-'
  {
    LowerLetter(d);
    UpperLetter(d);
  }

  /** A character that reads as a digit is one. */
  lemma DigitSpelled(c: char)
    requires 0 <= DigitValue(c)
    ensures DigitIs(c, DigitValue(c))
  {
    LowerLetter(DigitValue(c));
    UpperLetter(DigitValue(c));
  }

  /** Reading spelled digits from zero accumulates their value, as far as 64 bits hold it. */
  lemma {:induction false} TakeSpelled(s: seq<char>, p: nat, t: seq<char>, ds: seq<nat>, base: nat)
    requires 1 <= base <= 36 && Follows(s, p, t) && Spells(t, ds, base)
    ensures TakeDigits(s, p, base, 0) == TakeDigits(s, p + |t|, base, Wrap(ValueOf(ds, base)))
    decreases |t|
  {
    hide TakeDigits, Wrap, Accumulate, DigitIs, DigitValue;
    if t == [] {
      WrapSmall(0);
    } else {
      var n := |t| - 1;
      assert t == t[..n] + [t[n]];
      Split(s, p, t[..n], [t[n]]);
      Front(s, p + n, [t[n]]);
      TakeSpelled(s, p, t[..n], ds[..n], base);
      DigitRead(t[n], ds[n]);
      TakeOne(s, p + n, base, Wrap(ValueOf(ds[..n], base)));
      NextValue(ValueOf(ds[..n], base), base, ds[n]);
    }
  }

  lemma NextValue(v: nat, base: nat, d: nat)
    requires d < base
    ensures Accumulate(Wrap(v), base, d) == Wrap(v * base + d)
  {
    hide Wrap, Accumulate;
    QuotientIs(v, base, d);
    AccumulateLast(v * base + d, base);
  }

  lemma QuotientIs(v: nat, base: nat, d: nat)
    requires d < base
    ensures (v * base + d) / base == v && (v * base + d) % base == d
  {
    var x := v * base + d;
    SameQuotient(x / base, x % base, v, d, base);
  }

  lemma SameQuotient(q: nat, r: nat, v: nat, d: nat, base: nat)
    requires q * base + r == v * base + d && r < base && d < base
    ensures q == v && r == d
  {
    if q > v {
      AtLeast(q, v, base);
    } else if q < v {
      AtLeast(v, q, base);
    }
  }

  lemma AtLeast(q: nat, v: nat, base: nat)
    requires q > v
    ensures q * base >= v * base + base
  {
    assert q * base == (q - v - 1) * base + (v + 1) * base;
  }

  lemma WrapNegated(v: int)
    ensures Wrap(-Wrap(v)) == Wrap(-v)
  {
    hide Wrap;
    var turns := WrapTurns(v);
    assert -Wrap(v) == -v + turns * 0x1_0000_0000_0000_0000;
    WrapAgain(-v, turns);
  }

  // ---- The whole text ----

  /**
   Blanks, a sign, a prefix, digits t of values ds, and any rest that does not go on with a
   digit: strtol reads the positional value of the digits with its sign, as far as 64 bits hold
   it, and stops behind the digits.
   */
  lemma NumberReads(blanks: seq<char>, sign: seq<char>, prefix: seq<char>, t: seq<char>, ds: seq<nat>,
                    rest: seq<char>, base: nat)
    requires forall i :: 0 <= i < |blanks| ==> blanks[i] == ' ' || blanks[i] == '\t'
    requires (sign == "" || sign == "+" || sign == "-") && PrefixOk(prefix, base, t + rest)
    requires Spells(t, ds, BaseOf(prefix, base)) && Begun(sign + prefix + t, rest)
    requires rest != [] ==> forall d :: 0 <= d < BaseOf(prefix, base) ==> !DigitIs(rest[0], d)
    ensures var v: int := ValueOf(ds, BaseOf(prefix, base));
            Strtol(blanks + (sign + (prefix + (t + rest))), base)
            == Parse(Wrap(if sign == "-" then -v else v), |blanks| + |sign| + |prefix| + |t|)
  {
    hide TakeDigits, Wrap, Spells, DigitIs, ValueOf, Follows, PrefixOk;
    var s := blanks + (sign + (prefix + (t + rest)));
    var b := BaseOf(prefix, base);
    Stand(s, blanks, sign, prefix, t, rest);
    var q := |blanks| + |sign| + |prefix|;
    BaseRange(prefix, base, t + rest);
    TakeSpelled(s, q, t, ds, b);
    TakeEnds(s, q + |t|, rest, b, Wrap(ValueOf(ds, b)));
    WrapNegated(ValueOf(ds, b));
    SkipRun(s, 0, |blanks|);
    StartIs(s, |blanks|, sign, prefix, t, ds, rest, base);
    assert |sign| == if sign == "" then 0 else 1;
    assert |prefix| == if prefix == "" then 0 else if prefix == "0" then 1 else 2;
  }

  lemma BaseRange(prefix: seq<char>, base: nat, u: seq<char>)
    requires PrefixOk(prefix, base, u)
    ensures 1 <= BaseOf(prefix, base) <= 36 && (prefix == "" || prefix == "0" || prefix == "0x")
  {
  }

  lemma Stand(s: seq<char>, blanks: seq<char>, sign: seq<char>, prefix: seq<char>, t: seq<char>, rest: seq<char>)
    requires s == blanks + (sign + (prefix + (t + rest)))
    ensures |s| == |blanks| + |sign| + |prefix| + |t| + |rest|
    ensures forall i :: 0 <= i < |blanks| ==> s[i] == blanks[i]
    ensures var p := |blanks| + |sign|;
            var q := p + |prefix|;
            && Follows(s, |blanks|, sign) && Follows(s, p, prefix) && Follows(s, q, t + rest) && Follows(s, q, t)
            && Follows(s, q + |t|, rest)
  {
    assert Follows(s, 0, s);
    hide Follows;
    Split(s, 0, blanks, sign + (prefix + (t + rest)));
    Split(s, |blanks|, sign, prefix + (t + rest));
    Split(s, |blanks| + |sign|, prefix, t + rest);
    Split(s, |blanks| + |sign| + |prefix|, t, rest);
  }

  lemma TakeEnds(s: seq<char>, p: nat, rest: seq<char>, b: nat, val: int)
    requires b <= 36 && Follows(s, p, rest) && p + |rest| == |s|
    requires rest != [] ==> forall d :: 0 <= d < b ==> !DigitIs(rest[0], d)
    ensures TakeDigits(s, p, b, val) == Parse(val, p)
  {
    if rest != [] {
      Front(s, p, rest);
      if 0 <= DigitValue(rest[0]) {
        DigitSpelled(rest[0]);
      }
    }
  }

  /** What the branches of strtol see at blanks, sign and prefix. */
  lemma StartIs(s: seq<char>, k: nat, sign: seq<char>, prefix: seq<char>, t: seq<char>, ds: seq<nat>,
                rest: seq<char>, base: nat)
    requires (sign == "" || sign == "+" || sign == "-") && PrefixOk(prefix, base, t + rest)
    requires Spells(t, ds, BaseOf(prefix, base)) && Begun(sign + prefix + t, rest)
    requires Follows(s, k, sign) && Follows(s, k + |sign|, prefix) && Follows(s, k + |sign| + |prefix|, t + rest)
    requires k + |sign| + |prefix| + |t| + |rest| == |s|
    ensures var q := k + |sign|;
            && SkipBlanks(s, k) == k && (At(s, k) == '-' <==> sign == "-") && (At(s, k) == '+' <==> sign == "+")
            && ((base == 0 || base == 16) && At(s, q) == '0' && At(s, q + 1) == 'x' <==> prefix == "0x")
            && (prefix != "0x" ==> (base == 0 && At(s, q) == '0' <==> prefix == "0"))
  {
    hide Spells, DigitIs;
    var q := k + |sign|;
    var u := t + rest;
    if sign != "" { Front(s, k, sign); }
    if prefix != "" { Front(s, q, prefix); }
    if u != [] { Front(s, q + |prefix|, u); }
    assert |prefix| >= 2 ==> s[q + 1] == s[q..q + |prefix|][1];
    assert |u| >= 2 ==> s[q + |prefix| + 1] == s[q + |prefix|..q + |prefix| + |u|][1];
    FirstPlain(t, ds, rest, BaseOf(prefix, base));
  }

  lemma FirstPlain(t: seq<char>, ds: seq<nat>, rest: seq<char>, b: nat)
    requires Spells(t, ds, b)
    ensures t != [] ==> t[0] != ' ' && t[0] != '\t' && t[0] != '+' && t[0] != '-' && (t + rest)[0] == t[0]
  {
    if t != [] {
      DigitRead(t[0], ds[0]);
    }
  }
}
