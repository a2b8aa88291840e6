/**
 What every conversion of vprintfmt prints (libs/printfmt.c), in terms of text and numbers: from
 whole formats with flag, width, precision and length, so that the reading of them counts too.
 */
module PrintfLaws {
  import opened Wrappers
  import opened NumText
  import opened PrintfSpec

  // ---- Formats ----

  datatype Width = Free | Fixed(n: nat) | Star

  predicate WidthOk(w: Width) {
    w.Fixed? ==> w.n > 0
  }

  function WidthText(w: Width): seq<char>
  {
    match w
    case Free => ""
    case Fixed(n) => Digits(n, 10)
    case Star => "*"
  }

  datatype Prec = NoPrec | Dot(n: nat) | DotStar

  predicate PrecOk(d: Prec) {
    d.Dot? ==> d.n > 0
  }

  function PrecText(d: Prec): seq<char> {
    match d
    case NoPrec => ""
    case Dot(n) => "." + Digits(n, 10)
    case DotStar => ".*"
  }

  /** The format of one conversion: percent sign, flag, width, precision, longs, letter. */
  function One(flag: seq<char>, w: Width, d: Prec, longs: nat, c: char): (z: seq<char>)
    ensures IsFormat(z)
  {
    "%" + (flag + (WidthText(w) + (PrecText(d) + (Repeat('l', longs) + [c, '\0']))))
  }

  /** The pad character that a flag asks for. */
  function PadOf(flag: seq<char>): char {
    if flag == "0" then '0' else if flag == "-" then '-' else ' '
  }

  predicate FlagOk(flag: seq<char>) {
    flag == "" || flag == "0" || flag == "-" || flag == "#"
  }

  /** The 32-bit signed value of an argument. */
  function Int32(a: Arg): int {
    var low := a.bits % 0x1_0000_0000;
    if low < 0x8000_0000 then low else low - 0x1_0000_0000
  }

  /** The width as a number, below zero if there is none, and the arguments used up by it. */
  function WidthOf(w: Width, args: Args): int {
    match w
    case Free => -1
    case Fixed(n) => n
    case Star => Int32(args(0))
  }

  /** Any precision makes a missing width 0. */
  function WidthBefore(w: Width, d: Prec, args: Args): int {
    if d != NoPrec && WidthOf(w, args) < 0 then 0 else WidthOf(w, args)
  }

  function PrecOf(d: Prec, args: Args, ai: nat): int {
    match d
    case NoPrec => -1
    case Dot(n) => n
    case DotStar => Int32(args(ai))
  }

  function UsedBy(w: Width): nat {
    if w.Star? then 1 else 0
  }

  /** The argument that the conversion itself takes. */
  function Used(w: Width, d: Prec): nat {
    UsedBy(w) + if d.DotStar? then 1 else 0
  }

  // ---- Reading a format ----

  lemma {:induction false} NumeralReads(z: seq<char>, pos: nat, n: nat)
    requires Follows(z, pos, Digits(n, 10))
    ensures Numeral(z, pos, 0) == Numeral(z, pos + |Digits(n, 10)|, n)
    decreases n
  {
    hide Digits, Numeral;
    DigitsOf(n);
    DigitIsNumeral(n % 10);
    var last := [DigitChar(n % 10)];
    if n < 10 {
      Front(z, pos, last);
      NumeralStep(z, pos, 0, n);
    } else {
      var front := Digits(n / 10, 10);
      Split(z, pos, front, last);
      Front(z, pos + |front|, last);
      NumeralReads(z, pos, n / 10);
      NumeralStep(z, pos + |front|, n / 10, n % 10);
    }
  }

  lemma DigitsOf(n: nat)
    ensures Digits(n, 10) == if n < 10 then [DigitChar(n % 10)] else Digits(n / 10, 10) + [DigitChar(n % 10)]
  {
  }

  lemma NumeralStep(z: seq<char>, pos: nat, acc: nat, d: nat)
    requires pos < |z| && d < 10 && IsNumeral(z[pos]) && z[pos] as int - '0' as int == d
    ensures Numeral(z, pos, acc) == Numeral(z, pos + 1, acc * 10 + d)
  {
  }

  lemma DigitIsNumeral(d: nat)
    requires d < 10
    ensures IsNumeral(DigitChar(d)) && DigitChar(d) as int - '0' as int == d
    ensures d > 0 ==> '1' <= DigitChar(d) <= '9'
  {
    var c := DigitChar(d);
    assert c == '0' + d as char;
  }

  /** A positive number starts with one of the digits 1 to 9. */
  lemma {:induction false} FirstDigit(n: nat)
    requires n > 0
    ensures '1' <= Digits(n, 10)[0] <= '9'
    decreases n
  {
    DigitIsNumeral(n % 10);
    if n >= 10 {
      FirstDigit(n / 10);
    }
  }

  /** The flag. */
  lemma ReadFlag(z: seq<char>, args: Args, start: nat, pos: nat, ai: nat, flag: seq<char>)
    requires IsFormat(z) && start <= pos && FlagOk(flag) && Follows(z, pos, flag) && pos + |flag| < |z|
    ensures Escape(z, args, start, pos, ai, PLAIN)
            == Escape(z, args, start, pos + |flag|, ai, PLAIN.(padc := PadOf(flag), alt := flag == "#"))
  {
    hide Convert, Format;
    if flag != "" {
      Front(z, pos, flag);
    }
  }

  /** A number written out: the width, or behind a width the precision. */
  lemma ReadNumber(z: seq<char>, args: Args, start: nat, pos: nat, ai: nat, e: Esc, n: nat)
    requires IsFormat(z) && start <= pos && n > 0 && Follows(z, pos, Digits(n, 10))
    requires pos + |Digits(n, 10)| < |z| && !IsNumeral(z[pos + |Digits(n, 10)|])
    ensures Escape(z, args, start, pos, ai, e)
            == Escape(z, args, start, pos + |Digits(n, 10)|, ai, WithNumber(e, n))
  {
    FirstDigit(n);
    Front(z, pos, Digits(n, 10));
    NumeralReads(z, pos, n);
    NumeralEnds(z, pos, 0);
    hide Convert, Format, Digits;
  }

  lemma ReadWidth(z: seq<char>, args: Args, start: nat, pos: nat, e: Esc, w: Width)
    requires IsFormat(z) && start <= pos && WidthOk(w) && e.width == -1 == e.precision && Follows(z, pos, WidthText(w))
    requires pos + |WidthText(w)| < |z| && !IsNumeral(z[pos + |WidthText(w)|])
    ensures Escape(z, args, start, pos, 0, e)
            == Escape(z, args, start, pos + |WidthText(w)|, UsedBy(w), e.(width := WidthOf(w, args)))
  {
    hide Convert, Format;
    match w
    case Free =>
    case Fixed(n) =>
      ReadNumber(z, args, start, pos, 0, e, n);
    case Star =>
      Front(z, pos, "*");
  }

  lemma ReadPrec(z: seq<char>, args: Args, start: nat, pos: nat, ai: nat, e: Esc, d: Prec)
    requires IsFormat(z) && start <= pos && PrecOk(d) && e.precision == -1 && Follows(z, pos, PrecText(d))
    requires pos + |PrecText(d)| < |z| && !IsNumeral(z[pos + |PrecText(d)|])
    ensures Escape(z, args, start, pos, ai, e)
            == Escape(z, args, start, pos + |PrecText(d)|, ai + (if d.DotStar? then 1 else 0),
                      e.(width := if d != NoPrec && e.width < 0 then 0 else e.width, precision := PrecOf(d, args, ai)))
  {
    hide Convert, Format, Escape, Digits;
    if d != NoPrec {
      var rest := if d.Dot? then Digits(d.n, 10) else "*";
      assert PrecText(d) == "." + rest;
      Split(z, pos, ".", rest);
      Front(z, pos, ".");
      StepDot(z, args, start, pos, ai, e);
      var f := if e.width < 0 then e.(width := 0) else e;
      if d.Dot? {
        ReadNumber(z, args, start, pos + 1, ai, f, d.n);
      } else {
        Front(z, pos + 1, "*");
        StepStar(z, args, start, pos + 1, ai, f);
      }
    }
  }

  lemma StepDot(z: seq<char>, args: Args, start: nat, pos: nat, ai: nat, e: Esc)
    requires IsFormat(z) && start <= pos < |z| - 1 && z[pos] == '.'
    ensures Escape(z, args, start, pos, ai, e)
            == Escape(z, args, start, pos + 1, ai, if e.width < 0 then e.(width := 0) else e)
  {
    hide Convert, Format;
  }

  lemma StepStar(z: seq<char>, args: Args, start: nat, pos: nat, ai: nat, e: Esc)
    requires IsFormat(z) && start <= pos < |z| - 1 && z[pos] == '*'
    ensures Escape(z, args, start, pos, ai, e)
            == Escape(z, args, start, pos + 1, ai + 1, WithNumber(e, Int32(args(ai))))
  {
    hide Convert, Format;
  }

  lemma {:induction false} ReadLongs(z: seq<char>, args: Args, start: nat, pos: nat, ai: nat, e: Esc, longs: nat)
    requires IsFormat(z) && start <= pos && Follows(z, pos, Repeat('l', longs)) && pos + longs < |z|
    ensures Escape(z, args, start, pos, ai, e)
            == Escape(z, args, start, pos + longs, ai, e.(lflag := e.lflag + longs))
    decreases longs
  {
    hide Convert, Format;
    if longs > 0 {
      assert Repeat('l', longs) == ['l'] + Repeat('l', longs - 1);
      Split(z, pos, ['l'], Repeat('l', longs - 1));
      Front(z, pos, ['l']);
      ReadLongs(z, args, start, pos + 1, ai, e.(lflag := e.lflag + 1), longs - 1);
    }
  }

  /** The letter, at the end of the format. */
  lemma ReadLetter(z: seq<char>, args: Args, start: nat, pos: nat, ai: nat, e: Esc)
    requires IsFormat(z) && start <= pos && pos == |z| - 2 && !IsFlag(z[pos]) && Convert(z[pos], e, args(ai)).Some?
    ensures Escape(z, args, start, pos, ai, e) == Convert(z[pos], e, args(ai)).value.0
  {
    hide Convert;
    var (text, used) := Convert(z[pos], e, args(ai)).value;
    assert Format(z, args, pos + 1, ai + used) == [];
    assert text + [] == text;
  }

  /** Where the parts of a format stand: flag, width, precision, the letters l, and the character. */
  ghost predicate Laid(z: seq<char>, b: seq<char>, w: seq<char>, d: seq<char>, l: seq<char>, c: char) {
    var q := 1 + |b| + |w|;
    var r := q + |d|;
    && |z| == r + |l| + 2 && IsFormat(z) && z[0] == '%' && z[r + |l|] == c
    && Follows(z, 1, b) && Follows(z, 1 + |b|, w) && Follows(z, q, d) && Follows(z, r, l)
    && !IsNumeral(z[q]) && !IsNumeral(z[r])
  }

  lemma LaidOut(flag: seq<char>, w: Width, d: Prec, longs: nat, c: char)
    requires !IsFlag(c)
    ensures Laid(One(flag, w, d, longs, c), flag, WidthText(w), PrecText(d), Repeat('l', longs), c)
  {
    hide Laid, WidthText, PrecText, Repeat, IsFlag, IsNumeral;
    LongsAre(longs);
    PrecStarts(d);
    NotNumerals(c);
    LaidTexts(One(flag, w, d, longs, c), flag, WidthText(w), PrecText(d), Repeat('l', longs), c);
  }

  lemma LaidTexts(z: seq<char>, b: seq<char>, w: seq<char>, d: seq<char>, l: seq<char>, c: char)
    requires (d != [] ==> d[0] == '.') && (l != [] ==> l[0] == 'l') && !IsNumeral(c)
    requires z == "%" + (b + (w + (d + (l + [c, '\0']))))
    ensures Laid(z, b, w, d, l, c)
  {
    Parts("%", b, w, d, l, [c, '\0']);
    hide Follows, IsNumeral;
    var q := 1 + |b| + |w|;
    Front(z, 0, "%");
    Ends(z, q + |d| + |l|, c);
    NoNumerals(z, q, d, l, c);
  }

  /** Neither what follows the width nor what follows the precision starts with a numeral. */
  lemma NoNumerals(z: seq<char>, q: nat, d: seq<char>, l: seq<char>, c: char)
    requires (d != [] ==> d[0] == '.') && (l != [] ==> l[0] == 'l') && !IsNumeral(c)
    requires Follows(z, q, d) && Follows(z, q + |d|, l) && Follows(z, q + |d|, l + [c, '\0'])
    requires Follows(z, q + |d| + |l|, [c, '\0'])
    ensures q < |z| && q + |d| < |z| && !IsNumeral(z[q]) && !IsNumeral(z[q + |d|])
  {
    assert !IsNumeral('.') && !IsNumeral('l');
    hide Follows, IsNumeral;
    Next(z, q + |d|, l, [c, '\0']);
    Next(z, q, d, l + [c, '\0']);
  }

  /** Six texts one behind the other, and where they stand. */
  lemma Parts(a: seq<char>, b: seq<char>, c: seq<char>, d: seq<char>, e: seq<char>, f: seq<char>)
    ensures var z := a + (b + (c + (d + (e + f))));
            var q := |a| + |b| + |c|;
            && |z| == q + |d| + |e| + |f| && Follows(z, 0, a) && Follows(z, |a|, b) && Follows(z, |a| + |b|, c)
            && Follows(z, q, d) && Follows(z, q + |d|, e) && Follows(z, q + |d| + |e|, f) && Follows(z, q + |d|, e + f)
  {
    hide Follows;
    var z := a + (b + (c + (d + (e + f))));
    Whole(z);
    Split(z, 0, a, b + (c + (d + (e + f))));
    Split(z, |a|, b, c + (d + (e + f)));
    Split(z, |a| + |b|, c, d + (e + f));
    Split(z, |a| + |b| + |c|, d, e + f);
    Split(z, |a| + |b| + |c| + |d|, e, f);
  }

  /** The character behind p, whether the first text there is empty or not. */
  lemma Next(z: seq<char>, p: nat, t: seq<char>, u: seq<char>)
    requires Follows(z, p, t) && Follows(z, p + |t|, u) && u != []
    ensures p < |z| && z[p] == if t != [] then t[0] else u[0]
  {
    if t != [] {
      Front(z, p, t);
    } else {
      Front(z, p, u);
    }
  }

  lemma Whole(z: seq<char>)
    ensures Follows(z, 0, z)
  {
  }

  lemma NotNumerals(c: char)
    requires !IsFlag(c)
    ensures !IsNumeral(c)
  {
  }

  lemma Ends(z: seq<char>, p: nat, c: char)
    requires Follows(z, p, [c, '\0'])
    ensures z[p] == c && z[p + 1] == '\0'
  {
    assert z[p..p + 2] == [c, '\0'];
    assert z[p] == z[p..p + 2][0] && z[p + 1] == z[p..p + 2][1];
  }

  lemma PrecStarts(d: Prec)
    ensures PrecText(d) == "" || PrecText(d)[0] == '.'
  {
  }

  /** The escape that a format stands for. */
  function EscOf(flag: seq<char>, w: Width, d: Prec, longs: nat, args: Args): Esc {
    Esc(PadOf(flag), WidthBefore(w, d, args), PrecOf(d, args, UsedBy(w)), longs, flag == "#")
  }

  /** A whole format. */
  lemma ReadOne(flag: seq<char>, w: Width, d: Prec, longs: nat, c: char, args: Args)
    requires FlagOk(flag) && WidthOk(w) && PrecOk(d) && !IsFlag(c) && Convert(c, PLAIN, args(0)).Some?
    ensures var z := One(flag, w, d, longs, c);
            var e := EscOf(flag, w, d, longs, args);
            && IsFormat(z) && Convert(c, e, args(Used(w, d))).Some?
            && Format(z, args, 0, 0) == Convert(c, e, args(Used(w, d))).value.0
  {
    hide Convert, Escape, Format, One, Follows, WidthText, PrecText, IsFlag, IsNumeral, PadOf, Int32;
    var z := One(flag, w, d, longs, c);
    LaidOut(flag, w, d, longs, c);
    var p := 1 + |flag|;
    var q := p + |WidthText(w)|;
    var r := q + |PrecText(d)|;
    EscapeStarts(z, args, 0, 0);
    ReadFlag(z, args, 1, 1, 0, flag);
    var e := PLAIN.(padc := PadOf(flag), alt := flag == "#");
    ReadWidth(z, args, 1, p, e, w);
    var f := e.(width := WidthOf(w, args));
    ReadPrec(z, args, 1, q, UsedBy(w), f, d);
    var g := f.(width := WidthBefore(w, d, args), precision := PrecOf(d, args, UsedBy(w)));
    ReadLongs(z, args, 1, r, Used(w, d), g, longs);
    KnownByCharacter(c, PLAIN, args(0), g.(lflag := longs), args(Used(w, d)));
    ReadLetter(z, args, 1, r + longs, Used(w, d), g.(lflag := longs));
  }

  lemma LongsAre(longs: nat)
    ensures |Repeat('l', longs)| == longs && (longs > 0 ==> Repeat('l', longs)[0] == 'l')
  {
  }

  // ---- Numbers ----

  /**
   The text of v in a base: pad characters up to the width, then lower-case digits without a
   leading zero that read as v.
   */
  ghost predicate NumberText(out: seq<char>, v: nat, base: nat, width: int, pad: char) {
    exists k: nat :: k < |out| && NumberFrom(out, k, v, base, width, pad)
  }

  ghost predicate NumberFrom(out: seq<char>, k: nat, v: nat, base: nat, width: int, pad: char)
    requires k < |out|
  {
    && (forall i :: 0 <= i < k ==> out[i] == pad) && |out| >= width && (k > 0 ==> |out| == width)
    && (forall i :: k <= i < |out| ==> '0' <= out[i] <= '9' || 'a' <= out[i] <= 'f')
    && (out[k] == '0' ==> k == |out| - 1)
    && Strtol(out[k..], base) == Parse(Wrap(v), |out| - k)
  }

  lemma PrintedText(num: nat, base: nat, width: int, pad: char)
    requires base == 8 || base == 10 || base == 16
    ensures NumberText(Printed(num, base, width, pad), num, base, width, pad)
    ensures pad == '0' || pad == ' ' ==>
      Strtol(Printed(num, base, width, pad), base) == Parse(Wrap(num), |Printed(num, base, width, pad)|)
  {
    hide Digits, Strtol, Wrap, Printed, NumberFrom;
    var ds := Digits(num, base);
    DigitsPlain(num, base);
    DigitsRead(num, base);
    PrintedSplit(num, base, width, pad);
    PaddedNumber(Repeat(pad, width - |ds|), ds, num, base, width, pad);
    if pad == '0' || pad == ' ' {
      PrintThenParse(num, base, width, pad);
    }
  }

  lemma PrintedSplit(num: nat, base: nat, width: int, pad: char)
    requires base == 8 || base == 10 || base == 16
    ensures var ds := Digits(num, base);
            var front := Repeat(pad, width - |ds|);
            && Printed(num, base, width, pad) == front + ds && (forall i :: 0 <= i < |front| ==> front[i] == pad)
            && |front| == if width > |ds| then width - |ds| else 0
  {
    hide Digits;
  }

  lemma PaddedNumber(front: seq<char>, ds: seq<char>, num: nat, base: nat, width: int, pad: char)
    requires (base == 8 || base == 10 || base == 16) && ds != [] && (ds[0] == '0' ==> |ds| == 1)
    requires forall i :: 0 <= i < |ds| ==> '0' <= ds[i] <= '9' || 'a' <= ds[i] <= 'f'
    requires forall i :: 0 <= i < |front| ==> front[i] == pad
    requires |front| == if width > |ds| then width - |ds| else 0
    requires Strtol(ds, base) == Parse(Wrap(num), |ds|)
    ensures |front| < |front + ds| && NumberFrom(front + ds, |front|, num, base, width, pad)
  {
    hide Strtol, Wrap;
    assert (front + ds)[|front|..] == ds;
  }

  lemma DigitsRead(num: nat, base: nat)
    requires base == 8 || base == 10 || base == 16
    ensures Strtol(Digits(num, base), base) == Parse(Wrap(num), |Digits(num, base)|)
  {
    PrintThenParse(num, base, -1, ' ');
    assert Repeat(' ', -1 - |Digits(num, base)|) + Digits(num, base) == Digits(num, base);
  }

  /**
   %x, %o and %u, plain or with l: the unsigned argument of 32 or 64 bits, in base 16, 8 or 10.
   With zeros or blanks as padding strtol reads the whole of it.
   */
  lemma UnsignedText(flag: seq<char>, w: Width, d: Prec, longs: nat, c: char, args: Args)
    requires FlagOk(flag) && WidthOk(w) && PrecOk(d) && (c == 'x' || c == 'o' || c == 'u')
    ensures var out := Format(One(flag, w, d, longs, c), args, 0, 0);
            var base := if c == 'x' then 16 else if c == 'o' then 8 else 10;
            var bits := args(Used(w, d)).bits;
            var v := if longs == 0 then bits % 0x1_0000_0000 else bits % 0x1_0000_0000_0000_0000;
            && NumberText(out, v, base, WidthBefore(w, d, args), PadOf(flag))
            && (flag != "-" ==> Strtol(out, base) == Parse(Wrap(v), |out|))
  {
    var e, a := EscOf(flag, w, d, longs, args), args(Used(w, d));
    var base := if c == 'x' then 16 else if c == 'o' then 8 else 10;
    assert Convert(c, PLAIN, args(0)).Some? && !IsFlag(c);
    assert Convert(c, e, a).value.0 == Printed(Unsigned(a, longs), base, e.width, e.padc);
    ReadOne(flag, w, d, longs, c, args);
    PrintedText(Unsigned(a, longs), base, e.width, e.padc);
  }

  /** %p: "0x" and the 64-bit argument in base 16. */
  lemma PointerText(flag: seq<char>, w: Width, d: Prec, longs: nat, args: Args) returns (rest: seq<char>)
    requires FlagOk(flag) && WidthOk(w) && PrecOk(d)
    ensures Format(One(flag, w, d, longs, 'p'), args, 0, 0) == "0x" + rest
    ensures var v := args(Used(w, d)).bits % 0x1_0000_0000_0000_0000;
            && NumberText(rest, v, 16, WidthBefore(w, d, args), PadOf(flag))
            && (flag != "-" ==> Strtol(rest, 16) == Parse(Wrap(v), |rest|))
  {
    var e, a := EscOf(flag, w, d, longs, args), args(Used(w, d));
    assert Convert('p', PLAIN, args(0)).Some? && !IsFlag('p');
    rest := Printed(Unsigned(a, 1), 16, e.width, e.padc);
    assert Convert('p', e, a).value.0 == "0x" + rest;
    ReadOne(flag, w, d, longs, 'p', args);
    PrintedText(Unsigned(a, 1), 16, e.width, e.padc);
  }

  /**
   %d, plain or with l: n, which the argument holds in 32 or 64 bits, with the minus sign in
   front of the padding.
   */
  lemma SignedText(flag: seq<char>, w: Width, d: Prec, longs: nat, args: Args, n: int) returns (rest: seq<char>)
    requires FlagOk(flag) && WidthOk(w) && PrecOk(d)
    requires var bits := args(Used(w, d)).bits;
             if longs == 0 then -0x8000_0000 <= n < 0x8000_0000 && bits % 0x1_0000_0000 == n % 0x1_0000_0000
             else && -0x8000_0000_0000_0000 <= n < 0x8000_0000_0000_0000
                  && bits % 0x1_0000_0000_0000_0000 == n % 0x1_0000_0000_0000_0000
    ensures Format(One(flag, w, d, longs, 'd'), args, 0, 0) == (if n < 0 then "-" else "") + rest
    ensures var size := if n < 0 then -n else n;
            && NumberText(rest, size, 10, WidthBefore(w, d, args), PadOf(flag))
            && (flag != "-" ==> Strtol(rest, 10) == Parse(Wrap(size), |rest|))
  {
    var e, a := EscOf(flag, w, d, longs, args), args(Used(w, d));
    assert Convert('d', PLAIN, args(0)).Some? && !IsFlag('d');
    SignedIs(a, longs, n);
    rest := Printed(Abs(n), 10, e.width, e.padc);
    assert Convert('d', e, a).value.0 == (if n < 0 then "-" else "") + rest;
    ReadOne(flag, w, d, longs, 'd', args);
    PrintedText(Abs(n), 10, e.width, e.padc);
  }

  lemma SignedIs(a: Arg, longs: nat, n: int)
    requires if longs == 0 then -0x8000_0000 <= n < 0x8000_0000 && a.bits % 0x1_0000_0000 == n % 0x1_0000_0000
             else && -0x8000_0000_0000_0000 <= n < 0x8000_0000_0000_0000
                  && a.bits % 0x1_0000_0000_0000_0000 == n % 0x1_0000_0000_0000_0000
    ensures Signed(a, longs) == n
  {
  }

  // ---- Characters and strings ----

  /** %c: the character in the low byte of the argument, and %%: a percent sign. */
  lemma CharText(flag: seq<char>, w: Width, d: Prec, longs: nat, args: Args)
    requires FlagOk(flag) && WidthOk(w) && PrecOk(d)
    ensures Format(One(flag, w, d, longs, 'c'), args, 0, 0) == [(args(Used(w, d)).bits % 256) as char]
    ensures Format(One(flag, w, d, longs, '%'), args, 0, 0) == "%"
  {
    assert Convert('c', PLAIN, args(0)).Some? && !IsFlag('c') && Convert('%', PLAIN, args(0)).Some? && !IsFlag('%');
    ReadOne(flag, w, d, longs, 'c', args);
    ReadOne(flag, w, d, longs, '%', args);
  }

  /** The part of a text that a precision leaves. */
  function Kept(text: seq<char>, precision: int): seq<char> {
    if 0 <= precision < |text| then text[..precision] else text
  }

  /** With '#', what is not printable shows as a question mark. */
  function Clean(c: char): char {
    if ' ' <= c <= '~' then c else '?'
  }

  lemma {:induction false} ShownIs(text: seq<char>, e: Esc)
    ensures |Shown(text, e)| == |Kept(text, e.precision)|
    ensures forall i :: 0 <= i < |Shown(text, e)| ==> Shown(text, e)[i] == if e.alt then Clean(text[i]) else text[i]
    decreases |text|
  {
    if text != [] && e.precision != 0 {
      ShownIs(text[1..], e.(precision := if e.precision < 0 then e.precision else e.precision - 1));
    }
  }

  /**
   %s: as much of the string as the precision allows, or of "(null)" for a null pointer, with
   blanks behind it under the flag '-', else zeros or blanks in front, up to the width.
   */
  lemma StringShown(flag: seq<char>, w: Width, d: Prec, longs: nat, args: Args) returns (shown: seq<char>)
    requires FlagOk(flag) && WidthOk(w) && PrecOk(d)
    ensures IsShown(shown, TextOf(args(Used(w, d))), PrecOf(d, args, UsedBy(w)), flag == "#")
    ensures var out := Format(One(flag, w, d, longs, 's'), args, 0, 0);
            var blanks := WidthBefore(w, d, args) - |shown|;
            out == if flag == "-" then shown + Repeat(' ', blanks) else Repeat(PadOf(flag), blanks) + shown
  {
    hide Shown, Repeat, One, Format, Int32, StringText, IsFlag;
    StringIs(args(0), PLAIN);
    ReadOne(flag, w, d, longs, 's', args);
    var e, a := EscOf(flag, w, d, longs, args), args(Used(w, d));
    StringIs(a, e);
    shown := Shown(TextOf(a), e);
    ShownIs(TextOf(a), e);
    Padded(TextOf(a), e);
    hide Convert, Kept;
  }

  /** The string of an argument; a null pointer counts as "(null)". */
  function TextOf(a: Arg): seq<char> {
    if a.text.Some? then a.text.value else "(null)"
  }

  ghost predicate IsShown(shown: seq<char>, text: seq<char>, precision: int, clean: bool) {
    && |shown| == |Kept(text, precision)|
    && forall i :: 0 <= i < |shown| && i < |text| ==> shown[i] == if clean then Clean(text[i]) else text[i]
  }

  lemma StringIs(a: Arg, e: Esc)
    ensures !IsFlag('s') && Convert('s', e, a) == Some((StringText(TextOf(a), e), 1))
  {
  }

  lemma Padded(text: seq<char>, e: Esc)
    ensures var shown := Shown(text, e);
            StringText(text, e) == if e.padc == '-' then shown + Repeat(' ', e.width - |shown|)
                                   else Repeat(e.padc, e.width - |shown|) + shown
  {
    hide Shown, Repeat;
    var shown := Shown(text, e);
    RepeatNone(e.padc, e.width - |shown|);
    RepeatNone(' ', e.width - |shown|);
    assert shown + [] == shown == [] + shown;
  }

  lemma RepeatNone(c: char, n: int)
    ensures n <= 0 ==> Repeat(c, n) == []
  {
  }

  // ---- Error codes ----

  /** %e: the description of the code, of either sign, or its number if it has none. */
  lemma ErrorTexts(args: Args, n: int) returns (rest: seq<char>)
    requires n == Int32(args(0)) || -n == Int32(args(0))
    ensures var out := Format("%e\0", args, 0, 0);
            && (n == 1 ==> out == "unspecified error") && (n == 2 ==> out == "bad process")
            && (n == 3 ==> out == "invalid parameter") && (n == 4 ==> out == "out of memory")
            && (n == 5 ==> out == "out of processes") && (n == 6 ==> out == "segmentation fault")
            && (n > 6 || n == 0 ==> out == "error " + rest && NumberText(rest, n, 10, -1, ' '))
  {
    hide Digits, Printed;
    var z := "%e\0";
    assert z == One("", Free, NoPrec, 0, 'e');
    assert Convert('e', PLAIN, args(0)).Some? && !IsFlag('e');
    ReadOne("", Free, NoPrec, 0, 'e', args);
    var size := Abs(Int32(args(0)));
    assert Format(z, args, 0, 0) == ErrorText(size);
    PrintedText(size, 10, -1, ' ');
    PrintedAlone(size);
    rest := Digits(size, 10);
  }

  lemma PrintedAlone(num: nat)
    ensures Printed(num, 10, -1, ' ') == Digits(num, 10)
  {
    assert Repeat(' ', -1 - |Digits(num, 10)|) == [];
  }

  /** What the kernel's own codes mean to a reader. */
  lemma CodesExplained(args: Args)
    ensures Int32(args(0)) == -E_NO_MEM ==> Format("%e\0", args, 0, 0) == "out of memory"
    ensures Int32(args(0)) == -E_NO_FREE_PROC ==> Format("%e\0", args, 0, 0) == "out of processes"
    ensures Int32(args(0)) == -E_INVAL ==> Format("%e\0", args, 0, 0) == "invalid parameter"
  {
    var rest := ErrorTexts(args, -Int32(args(0)));
  }
}
