/**
 What a format string prints (vprintfmt in libs/printfmt.c), as a function of the format and
 its arguments.  The text z is the format with its terminating NUL.
 */
module PrintfSpec {
  import opened Wrappers
  import opened NumText

  /** An argument: a 64-bit word and, when read as a char pointer, the string it points to or NULL. */
  datatype Arg = Arg(bits: nat, text: Option<seq<char>>)

  type Args = nat -> Arg

  function Unsigned(a: Arg, lflag: nat): nat {
    if lflag >= 1 then a.bits % 0x1_0000_0000_0000_0000 else a.bits % 0x1_0000_0000
  }

  function Signed(a: Arg, lflag: nat): int {
    if lflag >= 1 then Wrap(a.bits)
    else if a.bits % 0x1_0000_0000 < 0x8000_0000 then a.bits % 0x1_0000_0000 else a.bits % 0x1_0000_0000 - 0x1_0000_0000
  }

  // ---- One conversion ----

  /** The flags of an escape; width and precision are -1 until given. */
  datatype Esc = Esc(padc: char, width: int, precision: int, lflag: nat, alt: bool)

  const PLAIN := Esc(' ', -1, -1, 0, false)

  function Abs(x: int): nat {
    if x < 0 then -x else x
  }

  const ERROR_STRINGS: seq<seq<char>> :=
    ["", "unspecified error", "bad process", "invalid parameter", "out of memory", "out of processes",
      "segmentation fault"]

  /** %e: the description of an error code of either sign. */
  function ErrorText(err: nat): seq<char> {
    if 0 < err < |ERROR_STRINGS| then ERROR_STRINGS[err] else "error " + Digits(err, 10)
  }

  /** The characters of a string that %s shows. */
  function Shown(text: seq<char>, e: Esc): (s: seq<char>)
    ensures |s| <= |text| && (e.precision < 0 ==> |s| == |text|)
  {
    if text == [] || e.precision == 0 then []
    else [if e.alt && (text[0] < ' ' || text[0] > '~') then '?' else text[0]]
         + Shown(text[1..], e.(precision := if e.precision < 0 then e.precision else e.precision - 1))
  }

  function StringText(text: seq<char>, e: Esc): seq<char> {
    var shown := Shown(text, e);
    if e.width > 0 && e.padc != '-' then Repeat(e.padc, e.width - |shown|) + shown
    else shown + Repeat(' ', e.width - |shown|)
  }

  /** The character that conversion %c prints, from the low byte. */
  function CharOf(bits: nat): char {
    (bits % 256) as char
  }

  /** The text of a conversion and the number of arguments it takes; none if c is not a conversion. */
  function Convert(c: char, e: Esc, a: Arg): Option<(seq<char>, nat)> {
    if c == 'c' then Some(([CharOf(a.bits)], 1))
    else if c == 'e' then Some((ErrorText(Abs(Signed(a, 0))), 1))
    else if c == 's' then Some((StringText(if a.text.Some? then a.text.value else "(null)", e), 1))
    else if c == 'd' then
      var n := Signed(a, e.lflag);
      Some(((if n < 0 then "-" else "") + Printed(Abs(n), 10, e.width, e.padc), 1))
    else if c == 'u' then Some((Printed(Unsigned(a, e.lflag), 10, e.width, e.padc), 1))
    else if c == 'o' then Some((Printed(Unsigned(a, e.lflag), 8, e.width, e.padc), 1))
    else if c == 'x' then Some((Printed(Unsigned(a, e.lflag), 16, e.width, e.padc), 1))
    else if c == 'p' then Some(("0x" + Printed(Unsigned(a, 1), 16, e.width, e.padc), 1))
    else if c == '%' then Some(("%", 0))
    else None
  }

  // ---- Formats ----

  predicate IsNumeral(c: char) {
    '0' <= c <= '9'
  }

  /** A format and its NUL, which ends it. */
  predicate IsFormat(z: seq<char>) {
    z != [] && z[|z| - 1] == '\0'
  }

  /** The number that starts with digit value `acc` so far, and the position behind it. */
  function Numeral(z: seq<char>, pos: nat, acc: nat): (r: (nat, nat))
    ensures pos <= r.1 && (pos <= |z| ==> r.1 <= |z|)
    decreases |z| - pos
  {
    if pos < |z| && IsNumeral(z[pos]) then Numeral(z, pos + 1, acc * 10 + (z[pos] as int - '0' as int)) else (acc, pos)
  }

  /** A number in an escape is the width if there is none yet, else the precision. */
  function WithNumber(e: Esc, n: int): Esc {
    if e.width < 0 then e.(width := n, precision := -1) else e.(precision := n)
  }

  /** The output from position pos on, with the next argument ai. */
  function Format(z: seq<char>, args: Args, pos: nat, ai: nat): seq<char>
    requires IsFormat(z) && pos < |z|
    decreases |z| - pos, 2, 0
  {
    if z[pos] == '\0' then []
    else if z[pos] != '%' then [z[pos]] + Format(z, args, pos + 1, ai)
    else Escape(z, args, pos + 1, pos + 1, ai, PLAIN)
  }

  /**
   The output from inside an escape that starts at `start`.  What is not a conversion sends
   the output back to `start`, behind the percent sign.
   */
  function Escape(z: seq<char>, args: Args, start: nat, pos: nat, ai: nat, e: Esc): seq<char>
    requires IsFormat(z) && start <= pos < |z|
    decreases |z| - start, 3, |z| - pos
  {
    var c := z[pos];
    if c == '-' then Escape(z, args, start, pos + 1, ai, e.(padc := '-'))
    else if c == '0' then Escape(z, args, start, pos + 1, ai, e.(padc := '0'))
    else if '1' <= c <= '9' then
      var (n, next) := Numeral(z, pos, 0);
      NumeralEnds(z, pos, 0);
      Escape(z, args, start, next, ai, WithNumber(e, n))
    else if c == '*' then Escape(z, args, start, pos + 1, ai + 1, WithNumber(e, Signed(args(ai), 0)))
    else if c == '.' then Escape(z, args, start, pos + 1, ai, if e.width < 0 then e.(width := 0) else e)
    else if c == '#' then Escape(z, args, start, pos + 1, ai, e.(alt := true))
    else if c == 'l' then Escape(z, args, start, pos + 1, ai, e.(lflag := e.lflag + 1))
    else
      match Convert(c, e, args(ai))
      case Some((text, used)) => text + Format(z, args, pos + 1, ai + used)
      case None => "%" + Format(z, args, start, ai)
  }

  /** A numeral ends before the NUL. */
  lemma {:induction false} NumeralEnds(z: seq<char>, pos: nat, acc: nat)
    requires IsFormat(z) && pos < |z|
    ensures Numeral(z, pos, acc).1 < |z|
    ensures IsNumeral(z[pos]) ==> pos < Numeral(z, pos, acc).1
    ensures forall i :: pos <= i < Numeral(z, pos, acc).1 ==> IsNumeral(z[i])
    decreases |z| - pos
  {
    if IsNumeral(z[pos]) {
      NumeralEnds(z, pos + 1, acc * 10 + (z[pos] as int - '0' as int));
    }
  }

  // ---- Properties ----

  /** Text without percent signs prints as itself. */
  lemma {:induction false} LiteralText(z: seq<char>, args: Args, pos: nat, q: nat, ai: nat)
    requires IsFormat(z) && pos <= q < |z| && forall i :: pos <= i < q ==> z[i] != '%' && z[i] != '\0'
    ensures Format(z, args, pos, ai) == z[pos..q] + Format(z, args, q, ai)
    decreases q - pos
  {
    if pos < q {
      LiteralChar(z, args, pos, ai);
      hide Format;
      LiteralText(z, args, pos + 1, q, ai);
      Prepended(z, pos, q, Format(z, args, q, ai));
    } else {
      assert z[pos..q] == [];
    }
  }

  lemma LiteralChar(z: seq<char>, args: Args, pos: nat, ai: nat)
    requires IsFormat(z) && pos < |z| && z[pos] != '%' && z[pos] != '\0'
    ensures pos + 1 < |z| && Format(z, args, pos, ai) == [z[pos]] + Format(z, args, pos + 1, ai)
  {
  }

  predicate IsFlag(c: char) {
    IsNumeral(c) || c in "-*.#l"
  }

  /** How many stars stand from pos up to q: the arguments that the flags of an escape read. */
  function Stars(z: seq<char>, pos: nat, q: nat): nat
    requires pos <= q <= |z|
    decreases q - pos
  {
    if pos == q then 0 else (if z[pos] == '*' then 1 else 0) + Stars(z, pos + 1, q)
  }

  lemma {:induction false} NoStars(z: seq<char>, pos: nat, q: nat)
    requires pos <= q <= |z|
    ensures Stars(z, pos, q) == 0 <==> '*' !in z[pos..q]
    decreases q - pos
  {
    if pos < q {
      NoStars(z, pos + 1, q);
      assert z[pos..q] == [z[pos]] + z[pos + 1..q];
    }
  }

  lemma {:induction false} NoStarsIn(z: seq<char>, pos: nat, next: nat, q: nat)
    requires pos <= next <= q <= |z| && forall i :: pos <= i < next ==> z[i] != '*'
    ensures Stars(z, pos, q) == Stars(z, next, q)
    decreases next - pos
  {
    if pos < next {
      NoStarsIn(z, pos + 1, next, q);
    }
  }

  lemma NextStar(z: seq<char>, pos: nat, q: nat)
    requires pos <= q < |z|
    ensures Stars(z, pos, q) == if pos == q then 0 else (if z[pos] == '*' then 1 else 0) + Stars(z, pos + 1, q)
  {
  }

  /** Whether a character is a conversion depends on nothing else. */
  lemma KnownByCharacter(c: char, e: Esc, a: Arg, f: Esc, b: Arg)
    ensures Convert(c, e, a).None? <==> Convert(c, f, b).None?
  {
  }

  lemma EscapeStarts(z: seq<char>, args: Args, pos: nat, ai: nat)
    requires IsFormat(z) && pos + 1 < |z| && z[pos] == '%'
    ensures Format(z, args, pos, ai) == Escape(z, args, pos + 1, pos + 1, ai, PLAIN)
  {
  }

  lemma Prepended(z: seq<char>, pos: nat, q: nat, rest: seq<char>)
    requires pos < q <= |z|
    ensures [z[pos]] + (z[pos + 1..q] + rest) == z[pos..q] + rest
  {
    assert z[pos..q] == [z[pos]] + z[pos + 1..q];
  }

  lemma FlagIsText(c: char)
    requires IsFlag(c)
    ensures c != '%' && c != '\0'
  {
  }

  lemma PercentIsKnown(e: Esc, a: Arg)
    ensures Convert('%', e, a).Some?
  {
  }

  /**
   An escape of flags that ends in an unknown character goes back to its start, whatever the
   flags were, but the arguments that its stars have read stay read.
   */
  lemma {:induction false} UnknownGoesBack(z: seq<char>, args: Args, start: nat, pos: nat, q: nat, ai: nat, e: Esc)
    requires IsFormat(z) && start <= pos <= q < |z| && (forall i :: pos <= i < q ==> IsFlag(z[i]))
    requires !IsFlag(z[q]) && Convert(z[q], PLAIN, args(0)).None?
    ensures Escape(z, args, start, pos, ai, e) == "%" + Format(z, args, start, ai + Stars(z, pos, q))
    decreases |z| - pos
  {
    hide Convert, Stars, Format, Signed;
    var c := z[pos];
    NextStar(z, pos, q);
    if pos == q {
      KnownByCharacter(c, e, args(ai), PLAIN, args(0));
    } else if '1' <= c <= '9' {
      var (n, next) := Numeral(z, pos, 0);
      NumeralEnds(z, pos, 0);
      assert next <= q;
      NoStarsIn(z, pos, next, q);
      UnknownGoesBack(z, args, start, next, q, ai, WithNumber(e, n));
    } else {
      var e' := if c == '-' then e.(padc := '-') else if c == '0' then e.(padc := '0')
                else if c == '*' then WithNumber(e, Signed(args(ai), 0))
                else if c == '.' then (if e.width < 0 then e.(width := 0) else e)
                else if c == '#' then e.(alt := true) else e.(lflag := e.lflag + 1);
      UnknownGoesBack(z, args, start, pos + 1, q, if c == '*' then ai + 1 else ai, e');
    }
  }

  /**
   So an unrecognised escape prints literally, percent sign, flags and all.  What follows it
   finds the arguments as they were if and only if there is no star among the flags.
   */
  lemma UnknownPrintsLiterally(z: seq<char>, args: Args, pos: nat, q: nat, ai: nat)
    requires IsFormat(z) && pos < q < |z| - 1 && z[pos] == '%' && (forall i :: pos < i < q ==> IsFlag(z[i]))
    requires !IsFlag(z[q]) && z[q] != '\0' && Convert(z[q], PLAIN, args(0)).None?
    ensures var aj := ai + Stars(z, pos + 1, q);
            && Format(z, args, pos, ai) == z[pos..q + 1] + Format(z, args, q + 1, aj)
            && (aj == ai <==> '*' !in z[pos + 1..q])
  {
    PercentIsKnown(PLAIN, args(0));
    EscapeStarts(z, args, pos, ai);
    hide Stars, Escape, Convert, Format, IsFlag;
    var aj := ai + Stars(z, pos + 1, q);
    NoStars(z, pos + 1, q);
    UnknownGoesBack(z, args, pos + 1, pos + 1, q, ai, PLAIN);
    forall i | pos < i < q ensures z[i] != '%' && z[i] != '\0' {
      FlagIsText(z[i]);
    }
    LiteralText(z, args, pos + 1, q + 1, aj);
    Prepended(z, pos, q + 1, Format(z, args, q + 1, aj));
  }

  /** "%*y%d": the star takes the first argument, so %d prints the second one. */
  lemma StarStaysConsumed(args: Args)
    ensures Format("%*y%d\0", args, 0, 0) == "%*y" + Format("%*y%d\0", args, 3, 1)
  {
    hide Format, Convert, Stars;
    var z := "%*y%d\0";
    NoSuchConversion(PLAIN, args(0));
    OneStar(z);
    UnknownPrintsLiterally(z, args, 0, 2, 0);
    assert z[0..3] == "%*y";
  }

  lemma NoSuchConversion(e: Esc, a: Arg)
    ensures Convert('y', e, a).None?
  {
  }

  lemma OneStar(z: seq<char>)
    requires |z| >= 2 && z[1] == '*'
    ensures Stars(z, 1, 2) == 1
  {
    assert Stars(z, 2, 2) == 0;
  }

  /** "%ld" prints what strtol reads back, for every 64-bit value but the least. */
  lemma DecimalRoundTrip(args: Args)
    requires Wrap(args(0).bits) > -0x8000_0000_0000_0000
    ensures var s := Format("%ld\0", args, 0, 0);
            Strtol(s, 10) == Parse(Wrap(args(0).bits), |s|)
  {
    var z := "%ld\0";
    var n := Wrap(args(0).bits);
    var e := PLAIN.(lflag := 1);
    assert Format(z, args, 3, 1) == [];
    assert Escape(z, args, 1, 2, 0, e) == Convert('d', e, args(0)).value.0 + [];
    assert Escape(z, args, 1, 1, 0, PLAIN) == Escape(z, args, 1, 2, 0, e);
    var digits := Printed(Abs(n), 10, -1, ' ');
    PrintThenParse(Abs(n), 10, -1, ' ');
    if n < 0 {
      NegativeParse(digits, Abs(n));
      assert Format(z, args, 0, 0) == "-" + digits;
    } else {
      assert "" + digits == digits;
      assert Format(z, args, 0, 0) == digits;
    }
  }

  lemma NegativeParse(digits: seq<char>, n: nat)
    requires 0 < n < 0x8000_0000_0000_0000 && digits == Digits(n, 10)
    ensures Strtol("-" + digits, 10) == Parse(0 - n, 1 + |digits|)
  {
    var s := "-" + digits;
    assert s[1..1 + |digits|] == digits;
    TakePrinted(s, 1, n, 10);
    WrapSmall(n);
    NoMoreDigits(s, 10, n);
    WrapSmall(0 - n);
    assert SkipBlanks(s, 0) == 0;
  }
}
