/**
 printnum, vprintfmt and vsnprintf (libs/printfmt.c), printing through sprintputch into a buffer.
 */
module Printf {
  import opened Wrappers
  import opened NumText
  import opened PrintfSpec

  /** The buffer record of vsnprintf: `buf` is the next index to write, `ebuf` the last one of the buffer. */
  class SprintBuf {
    const str: array<char>
    const ebuf: nat
    var buf: nat
    var cnt: int
    ghost var emitted: seq<char>

    ghost predicate Valid()
      reads this, str
    {
      && buf <= ebuf < str.Length && cnt == |emitted|
      && buf == (if |emitted| < ebuf then |emitted| else ebuf)
      && str[..buf] == emitted[..buf]
    }

    constructor (str: array<char>, size: nat)
      requires 1 <= size <= str.Length
      ensures Valid() && emitted == [] && this.str == str && ebuf == size - 1
    {
      this.str, this.ebuf := str, size - 1;
      buf, cnt, emitted := 0, 0, [];
    }

    /** sprintputch: counts every character and stores those that fit. */
    method Putch(ch: char)
      requires Valid()
      modifies this, str
      ensures Valid() && emitted == old(emitted) + [ch]
      ensures forall i :: ebuf <= i < str.Length ==> str[i] == old(str[i])
    {
      cnt := cnt + 1;
      if buf < ebuf {
        str[buf] := ch;
        buf := buf + 1;
      }
      emitted := emitted + [ch];
    }

    /** A loop that prints one character n times. */
    method PutRepeat(ch: char, n: int)
      requires Valid()
      modifies this, str
      ensures Valid() && emitted == old(emitted) + Repeat(ch, n)
      ensures forall i :: ebuf <= i < str.Length ==> str[i] == old(str[i])
    {
      var w := n;
      while w > 0
        invariant Valid() && emitted + Repeat(ch, w) == old(emitted) + Repeat(ch, n)
        invariant forall i :: ebuf <= i < str.Length ==> str[i] == old(str[i])
      {
        ghost var before := emitted;
        Putch(ch);
        assert emitted + Repeat(ch, w - 1) == before + ([ch] + Repeat(ch, w - 1));
        w := w - 1;
      }
      assert emitted + [] == emitted;
    }

    /** printnum: the higher digits first, by recursion, then the last one. */
    method PrintNum(num: nat, base: nat, width: int, padc: char)
      requires Valid() && 2 <= base <= 16
      modifies this, str
      ensures Valid() && emitted == old(emitted) + Printed(num, base, width, padc)
      ensures forall i :: ebuf <= i < str.Length ==> str[i] == old(str[i])
      decreases num
    {
      QuotientSmaller(num, base);
      var result, mod := num / base, num % base;
      ghost var before := emitted;
      if num >= base {
        PrintNum(result, base, width - 1, padc);
      } else {
        PutRepeat(padc, width - 1);
      }
      ghost var mid := emitted;
      Putch(DigitChar(mod));
      PrintedStep(num, base, width, padc);
      assert emitted == before + Printed(num, base, width, padc);
    }

    method PutAll(text: seq<char>)
      requires Valid()
      modifies this, str
      ensures Valid() && emitted == old(emitted) + text
      ensures forall i :: ebuf <= i < str.Length ==> str[i] == old(str[i])
    {
      var i := 0;
      while i < |text|
        invariant 0 <= i <= |text| && Valid() && emitted == old(emitted) + text[..i]
        invariant forall i :: ebuf <= i < str.Length ==> str[i] == old(str[i])
      {
        Putch(text[i]);
        i := i + 1;
      }
    }

    /** The three loops of the %s case. */
    method PutString(text: seq<char>, e: Esc)
      requires Valid()
      modifies this, str
      ensures Valid() && emitted == old(emitted) + StringText(text, e)
      ensures forall i :: ebuf <= i < str.Length ==> str[i] == old(str[i])
    {
      hide Shown, Repeat;
      ShownLength(text, e);
      ghost var before, pad := emitted, Repeat(e.padc, e.width - |Shown(text, e)|);
      var width := e.width;
      if width > 0 && e.padc != '-' {
        width := width - (if 0 <= e.precision < |text| then e.precision else |text|);  // strnlen
        PutRepeat(e.padc, width);
        if width > 0 {
          width := 0;
        }
      }
      width := PutShown(text, e, width);
      PutRepeat(' ', width);
      RepeatNothing(' ', width);
      assert before + pad + Shown(text, e) == before + (pad + Shown(text, e));
    }

    /** The second of them: the characters shown, each using up one of the width. */
    method PutShown(text: seq<char>, e: Esc, width0: int) returns (width: int)
      requires Valid()
      modifies this, str
      ensures Valid() && emitted == old(emitted) + Shown(text, e) && width == width0 - |Shown(text, e)|
      ensures forall i :: ebuf <= i < str.Length ==> str[i] == old(str[i])
    {
      hide Shown, Valid;
      var precision := e.precision;
      width := width0;
      var i := 0;
      ghost var rest, f := text, e;
      while i < |text| && (precision < 0 || precision - 1 >= 0)
        invariant 0 <= i <= |text| && Valid() && rest == text[i..] && f == e.(precision := precision)
        invariant emitted + Shown(rest, f) == old(emitted) + Shown(text, e)
        invariant width - |Shown(rest, f)| == width0 - |Shown(text, e)|
        invariant forall i :: ebuf <= i < str.Length ==> str[i] == old(str[i])
      {
        ShownNext(rest, f);
        ghost var before, tail, g := emitted, rest[1..],
            f.(precision := if precision < 0 then precision else precision - 1);
        if precision >= 0 {
          precision := precision - 1;
        }
        if e.alt && (text[i] < ' ' || text[i] > '~') {
          Putch('?');
        } else {
          Putch(text[i]);
        }
        i, width := i + 1, width - 1;
        assert emitted + Shown(tail, g) == before + Shown(rest, f);
        rest, f := tail, g;
      }
      ShownEnd(rest, f);
      assert emitted + [] == emitted;
    }

    method PutError(code: int)
      requires Valid()
      modifies this, str
      ensures Valid() && emitted == old(emitted) + ErrorText(Abs(code))
      ensures forall i :: ebuf <= i < str.Length ==> str[i] == old(str[i])
    {
      hide Printed, Digits;
      var err := code;
      if err < 0 {
        err := -err;
      }
      if err >= |ERROR_STRINGS| || err == 0 {
        PrintedPlain(err);
        PutAll("error ");
        PrintNum(err, 10, -1, ' ');
        assert old(emitted) + "error " + Digits(err, 10) == old(emitted) + ("error " + Digits(err, 10));
      } else {
        PutAll(ERROR_STRINGS[err]);
      }
    }

    method PutSigned(n: int, e: Esc)
      requires Valid()
      modifies this, str
      ensures Valid() && emitted == old(emitted) + ((if n < 0 then "-" else "") + Printed(Abs(n), 10, e.width, e.padc))
      ensures forall i :: ebuf <= i < str.Length ==> str[i] == old(str[i])
    {
      hide Printed, Digits;
      var num := n;
      if num < 0 {
        Putch('-');
        num := -num;
      }
      PrintNum(num, 10, e.width, e.padc);
      ghost var sign, digits := if n < 0 then "-" else "", Printed(Abs(n), 10, e.width, e.padc);
      assert old(emitted) + sign + digits == old(emitted) + (sign + digits);
    }

    method PutPointer(num: nat, e: Esc)
      requires Valid()
      modifies this, str
      ensures Valid() && emitted == old(emitted) + ("0x" + Printed(num, 16, e.width, e.padc))
      ensures forall i :: ebuf <= i < str.Length ==> str[i] == old(str[i])
    {
      hide Printed, Digits;
      Putch('0');
      Putch('x');
      PrintNum(num, 16, e.width, e.padc);
      ghost var digits := Printed(num, 16, e.width, e.padc);
      assert old(emitted) + ['0'] + ['x'] + digits == old(emitted) + ("0x" + digits);
    }

    /** The conversion cases of the switch; `known` is false for the default case. */
    method PutConversion(c: char, e: Esc, a: Arg) returns (known: bool, used: nat)
      requires Valid()
      modifies this, str
      ensures Valid() && (known <==> Convert(c, e, a).Some?)
      ensures emitted == old(emitted) + if known then Convert(c, e, a).value.0 else []
      ensures known ==> used == Convert(c, e, a).value.1
      ensures forall i :: ebuf <= i < str.Length ==> str[i] == old(str[i])
    {
      hide Printed, StringText, ErrorText, Signed, Unsigned, Abs;
      known, used := true, 1;
      if c == 'c' {
        Putch(CharOf(a.bits));
      } else if c == 'e' {
        PutError(Signed(a, 0));
      } else if c == 's' {
        PutString(if a.text.Some? then a.text.value else "(null)", e);
      } else if c == 'd' {
        PutSigned(Signed(a, e.lflag), e);
      } else if c == 'u' {
        PrintNum(Unsigned(a, e.lflag), 10, e.width, e.padc);
      } else if c == 'o' {
        PrintNum(Unsigned(a, e.lflag), 8, e.width, e.padc);
      } else if c == 'p' {
        PutPointer(Unsigned(a, 1), e);
      } else if c == 'x' {
        PrintNum(Unsigned(a, e.lflag), 16, e.width, e.padc);
      } else if c == '%' {
        Putch('%');
        used := 0;
      } else {
        known := false;
      }
    }

    /** vprintfmt: terminates on every format, and prints what Format says. */
    method Vprintfmt(z: seq<char>, args: Args)
      requires Valid() && IsFormat(z)
      modifies this, str
      ensures Valid() && emitted == old(emitted) + Format(z, args, 0, 0)
      ensures forall i :: ebuf <= i < str.Length ==> str[i] == old(str[i])
    {
      hide Format;
      ghost var goal := emitted + Format(z, args, 0, 0);
      var pos, ai := 0, 0;
      while true
        invariant pos < |z| && Valid() && emitted + Format(z, args, pos, ai) == goal
        invariant forall i :: ebuf <= i < str.Length ==> str[i] == old(str[i])
        decreases |z| - pos
      {
        ghost var pos0 := pos;
        var done := PutLiteral(z, args, pos, ai);
        pos := done;
        if z[pos] == '\0' {
          FormatEnds(z, args, pos, ai);
          assert emitted + [] == emitted;
          return;
        }
        EscapeStarts(z, args, pos, ai);
        pos := pos + 1;
        pos, ai := PutEscape(z, args, pos, ai);
      }
    }

    /** The inner loop: prints up to the next percent sign or the NUL. */
    method PutLiteral(z: seq<char>, ghost args: Args, pos: nat, ghost ai: nat) returns (q: nat)
      requires Valid() && IsFormat(z) && pos < |z|
      modifies this, str
      ensures Valid() && pos <= q < |z| && (z[q] == '\0' || z[q] == '%')
      ensures emitted + Format(z, args, q, ai) == old(emitted) + Format(z, args, pos, ai)
      ensures forall i :: ebuf <= i < str.Length ==> str[i] == old(str[i])
    {
      q := pos;
      while z[q] != '%' && z[q] != '\0'
        invariant pos <= q < |z| && Valid()
        invariant emitted + Format(z, args, q, ai) == old(emitted) + Format(z, args, pos, ai)
        invariant forall i :: ebuf <= i < str.Length ==> str[i] == old(str[i])
        decreases |z| - q
      {
        ghost var before := emitted;
        Putch(z[q]);
        assert before + ([z[q]] + Format(z, args, q + 1, ai)) == emitted + Format(z, args, q + 1, ai);
        q := q + 1;
      }
    }

    /** The switch: reads one escape, which starts at `start`, and returns where to go on. */
    method PutEscape(z: seq<char>, args: Args, start: nat, ai: nat) returns (pos: nat, aj: nat)
      requires Valid() && IsFormat(z) && 0 < start < |z| && z[start - 1] == '%'
      modifies this, str
      ensures Valid() && start <= pos < |z|
      ensures emitted + Format(z, args, pos, aj) == old(emitted) + Escape(z, args, start, start, ai, PLAIN)
      ensures forall i :: ebuf <= i < str.Length ==> str[i] == old(str[i])
    {
      hide Escape, Convert;
      var e;
      pos, aj, e := ReadFlags(z, args, start, ai);
      var ch := z[pos];
      EscapeEnds(z, args, start, pos, aj, e);
      ghost var before := emitted;
      var known, used := PutConversion(ch, e, args(aj));
      pos := pos + 1;
      if known {
        ghost var text := Convert(ch, e, args(aj)).value.0;
        aj := aj + used;
        assert before + (text + Format(z, args, pos, aj)) == emitted + Format(z, args, pos, aj);
      } else {
        Putch('%');
        assert before + ("%" + Format(z, args, start, aj)) == emitted + Format(z, args, start, aj);
        pos := pos - 1;
        while z[pos - 1] != '%'
          invariant start <= pos < |z|
          decreases pos
        {
          pos := pos - 1;
        }
        assert pos == start;
      }
    }
  }

  lemma FormatEnds(z: seq<char>, args: Args, pos: nat, ai: nat)
    requires IsFormat(z) && pos < |z| && z[pos] == '\0'
    ensures Format(z, args, pos, ai) == []
  {
  }

  lemma PrintedStep(num: nat, base: nat, width: int, padc: char)
    requires 2 <= base <= 16
    ensures num % base < base
    ensures Printed(num, base, width, padc)
            == (if num >= base then Printed(num / base, base, width - 1, padc)
              else Repeat(padc, width - 1)) + [DigitChar(num % base)]
  {
    if num >= base {
      var ds := Digits(num / base, base);
      assert Repeat(padc, width - |ds| - 1) + (ds + [DigitChar(num % base)])
             == Repeat(padc, width - 1 - |ds|) + ds + [DigitChar(num % base)];
    } else {
      assert num % base == num;
    }
  }

  lemma ShownNext(text: seq<char>, e: Esc)
    requires text != [] && e.precision != 0
    ensures Shown(text, e)
            == [if e.alt && (text[0] < ' ' || text[0] > '~') then '?' else text[0]]
               + Shown(text[1..], e.(precision := if e.precision < 0 then e.precision else e.precision - 1))
  {
  }

  lemma ShownEnd(text: seq<char>, e: Esc)
    ensures text == [] || e.precision == 0 ==> Shown(text, e) == []
  {
  }

  lemma RepeatNothing(c: char, n: int)
    ensures n <= 0 ==> Repeat(c, n) == []
  {
  }

  /** Behind the flags, an escape is a conversion or goes back to its start. */
  lemma EscapeEnds(z: seq<char>, args: Args, start: nat, pos: nat, ai: nat, e: Esc)
    requires IsFormat(z) && start <= pos < |z| && !IsFlag(z[pos])
    ensures Convert(z[pos], e, args(ai)).Some? ==> pos + 1 < |z|
    ensures Escape(z, args, start, pos, ai, e)
            == match Convert(z[pos], e, args(ai))
               case Some((text, used)) => text + Format(z, args, pos + 1, ai + used)
               case None => "%" + Format(z, args, start, ai)
  {
    hide Printed, StringText, Format;
  }

  /** The reswitch loop: reads flags, width and precision up to the first other character. */
  method ReadFlags(z: seq<char>, args: Args, start: nat, ai: nat) returns (pos: nat, aj: nat, e: Esc)
    requires IsFormat(z) && start < |z|
    ensures start <= pos < |z| && !IsFlag(z[pos]) && forall i :: start <= i < pos ==> z[i] != '%'
    ensures Escape(z, args, start, pos, aj, e) == Escape(z, args, start, start, ai, PLAIN)
  {
    hide Convert, Format;
    pos, aj, e := start, ai, PLAIN;
    while true
      invariant start <= pos < |z| && forall i :: start <= i < pos ==> z[i] != '%'
      invariant Escape(z, args, start, pos, aj, e) == Escape(z, args, start, start, ai, PLAIN)
      decreases |z| - pos
    {
      var ch := z[pos];
      if ch == '-' {
        e := e.(padc := '-');
        pos := pos + 1;
      } else if ch == '0' {
        e := e.(padc := '0');
        pos := pos + 1;
      } else if '1' <= ch <= '9' {
        var precision;
        NumeralEnds(z, pos, 0);
        precision, pos := ReadNumeral(z, pos);
        e := WithNumber(e, precision);
      } else if ch == '*' {
        e := WithNumber(e, Signed(args(aj), 0));
        aj := aj + 1;
        pos := pos + 1;
      } else if ch == '.' {
        if e.width < 0 {
          e := e.(width := 0);
        }
        pos := pos + 1;
      } else if ch == '#' {
        e := e.(alt := true);
        pos := pos + 1;
      } else if ch == 'l' {
        e := e.(lflag := e.lflag + 1);
        pos := pos + 1;
      } else {
        return;
      }
    }
  }

  lemma {:induction false} ShownLength(text: seq<char>, e: Esc)
    ensures |Shown(text, e)| == if 0 <= e.precision < |text| then e.precision else |text|
  {
    if text != [] && e.precision != 0 {
      ShownLength(text[1..], e.(precision := if e.precision < 0 then e.precision else e.precision - 1));
    }
  }

  lemma PrintedPlain(num: nat)
    ensures Printed(num, 10, -1, ' ') == Digits(num, 10)
  {
    assert Repeat(' ', -1 - |Digits(num, 10)|) == [];
  }

  /** The loop over the digits of a width or precision, from its first digit on. */
  method ReadNumeral(z: seq<char>, first: nat) returns (precision: nat, pos: nat)
    requires IsFormat(z) && first < |z| && IsNumeral(z[first])
    ensures (precision, pos) == Numeral(z, first, 0)
  {
    NumeralEnds(z, first, 0);
    precision, pos := 0, first + 1;
    var ch := z[first];
    while true
      invariant first < pos < |z| && IsNumeral(ch) && ch == z[pos - 1]
      invariant Numeral(z, pos - 1, precision) == Numeral(z, first, 0)
      decreases |z| - pos
    {
      precision := precision * 10 + (ch as int - '0' as int);
      ch := z[pos];
      if ch < '0' || ch > '9' {
        return;
      }
      pos := pos + 1;
    }
  }

  /**
   vsnprintf: returns the length of the whole output, and leaves its first characters, as
   many as fit, and a NUL in the buffer; nothing outside the buffer is written.
   */
  method Vsnprintf(str: array?<char>, size: nat, z: seq<char>, args: Args) returns (r: int)
    requires IsFormat(z) && (str != null ==> size <= str.Length)
    modifies str
    ensures str == null || size == 0 ==> r == -E_INVAL && (str != null ==> str[..] == old(str[..]))
    ensures str != null && size >= 1 ==>
      var out := Format(z, args, 0, 0);
      var stored := if |out| < size then |out| else size - 1;
      && r == |out| && str[..stored] == out[..stored] && str[stored] == '\0'
      && forall i :: size <= i < str.Length ==> str[i] == old(str[i])
  {
    if str == null || size == 0 {
      return -E_INVAL;
    }
    var b := new SprintBuf(str, size);
    b.Vprintfmt(z, args);
    ghost var out, before := Format(z, args, 0, 0), str[..];
    assert b.emitted == out;
    hide Format;
    str[b.buf] := '\0';
    assert str[..b.buf] == before[..b.buf];
    return b.cnt;
  }
}
