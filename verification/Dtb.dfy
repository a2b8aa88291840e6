/**
 The scan of a flattened device tree in memory (kern/driver/dtb.c), with the string routines
 it calls (libs/string.c).

 Memory is indexed from the start of the tree, which is 4-aligned.
 */
module Dtb {
  import opened Wrappers
  import opened DtbSpec
  import opened DtbMemory

  ghost predicate At(m: seq<Byte>, p: nat, s: seq<Byte>) {
    p + |s| <= |m| && m[p..p + |s|] == s
  }

  lemma AtSplit(m: seq<Byte>, p: nat, a: seq<Byte>, b: seq<Byte>)
    requires At(m, p, a + b)
    ensures At(m, p, a) && At(m, p + |a|, b)
  {
    assert m[p..p + |a|] == (a + b)[..|a|] == a;
    assert m[p + |a|..p + |a| + |b|] == (a + b)[|a|..] == b;
  }

  lemma AtWord(m: seq<Byte>, p: nat, x: nat)
    requires x < 0x1_0000_0000 && At(m, p, Word(x))
    ensures p + 4 <= |m| && Fdt32(Le32(m, p)) == x
  {
    var w := m[p..p + 4];
    assert w[0] == m[p] && w[1] == m[p + 1] && w[2] == m[p + 2] && w[3] == m[p + 3];
    WordValue(x);
    LoadIsBigEndian(m, p);
    hide Fdt32, Join;
  }

  // ---- Strings ----

  /** A terminated string starts at p. */
  ghost predicate Terminated(m: seq<Byte>, p: nat) {
    exists e :: p <= e < |m| && m[e] == 0
  }

  predicate NameIs(m: seq<Byte>, p: nat, lit: seq<Byte>) {
    p + |lit| < |m| && m[p..p + |lit|] == lit && m[p + |lit|] == 0
  }

  method Strlen(m: seq<Byte>, p: nat) returns (n: nat)
    requires Terminated(m, p)
    ensures p + n < |m| && m[p + n] == 0 && 0 !in m[p..p + n]
  {
    ghost var e :| p <= e < |m| && m[e] == 0;
    n := 0;
    while m[p + n] != 0
      invariant p + n <= e && 0 !in m[p..p + n]
      decreases e - n
    {
      assert m[p..p + n + 1] == m[p..p + n] + [m[p + n]];
      n := n + 1;
    }
  }

  /** Whether strncmp(p, lit, strlen(lit)) is zero. */
  method StrncmpIsZero(m: seq<Byte>, p: nat, lit: seq<Byte>) returns (same: bool)
    requires Terminated(m, p) && 0 !in lit
    ensures same <==> At(m, p, lit)
  {
    ghost var e :| p <= e < |m| && m[e] == 0;
    var i := 0;
    while i < |lit| && m[p + i] != 0 && m[p + i] == lit[i]
      invariant 0 <= i <= |lit| && p + i <= e && m[p..p + i] == lit[..i]
    {
      assert m[p..p + i + 1] == m[p..p + i] + [m[p + i]] && lit[..i + 1] == lit[..i] + [lit[i]];
      i := i + 1;
    }
    same := i == |lit|;
    if At(m, p, lit) {
      assert forall j :: 0 <= j < |lit| ==> m[p + j] == m[p..p + |lit|][j] == lit[j];
    }
  }

  /** Whether strcmp(p, lit) is zero. */
  method StrcmpIsZero(m: seq<Byte>, p: nat, lit: seq<Byte>) returns (same: bool)
    requires Terminated(m, p) && 0 !in lit
    ensures same <==> NameIs(m, p, lit)
  {
    ghost var e :| p <= e < |m| && m[e] == 0;
    var i := 0;
    while m[p + i] != 0 && i < |lit| && m[p + i] == lit[i]
      invariant 0 <= i <= |lit| && p + i <= e && m[p..p + i] == lit[..i]
      decreases |lit| - i
    {
      assert m[p..p + i + 1] == m[p..p + i] + [m[p + i]] && lit[..i + 1] == lit[..i] + [lit[i]];
      i := i + 1;
    }
    same := i == |lit| && m[p + i] == 0;
    if NameIs(m, p, lit) {
      assert forall j :: 0 <= j < |lit| ==> m[p + j] == m[p..p + |lit|][j] == lit[j];
    }
  }

  // ---- The scan ----

  /** The string offsets that name `reg`. */
  function RegNames(m: seq<Byte>, strings: nat): nat -> bool {
    (off: nat) => NameIs(m, strings + off, REG)
  }

  /** Every property name lies in the tree. */
  ghost predicate NamesOk(m: seq<Byte>, strings: nat, ts: seq<Token>) {
    forall i :: 0 <= i < |ts| && ts[i].Prop? ==> Terminated(m, strings + ts[i].nameOff)
  }

  /** The header's two offsets and, where they say, serialised tokens up to FDT_END or some unknown word. */
  ghost predicate Serialised(m: seq<Byte>, ts: seq<Token>) {
    && |m| >= 16 && TokensOk(ts) && ts != [] && ts[|ts| - 1].Stop?
    && var struct := Fdt32(Le32(m, 8));
       struct % 4 == 0 && At(m, struct, EncodeAll(ts)) && NamesOk(m, Fdt32(Le32(m, 12)), ts)
  }

  /** What has been read and what is left: the rest of the tokens at sp, and the same answer. */
  ghost predicate Left(m: seq<Byte>, strings: nat, ts: seq<Token>, sp: nat, inMemory: bool, answer: Option<Info>) {
    && TokensOk(ts) && ts != [] && ts[|ts| - 1].Stop? && NamesOk(m, strings, ts)
    && sp % 4 == 0 && At(m, sp, EncodeAll(ts))
    && Scan(RegNames(m, strings), ts, inMemory) == answer
  }

  lemma NextToken(m: seq<Byte>, strings: nat, ts: seq<Token>, sp: nat, inMemory: bool, answer: Option<Info>)
    requires Left(m, strings, ts, sp, inMemory, answer)
    ensures TokenOk(ts[0]) && At(m, sp, Encode(ts[0])) && (ts[0].Prop? ==> Terminated(m, strings + ts[0].nameOff))
  {
    AtSplit(m, sp, Encode(ts[0]), EncodeAll(ts[1..]));
  }

  lemma RestLeft(m: seq<Byte>, strings: nat, ts: seq<Token>, sp: nat, inMemory: bool, answer: Option<Info>, on: bool)
    requires Left(m, strings, ts, sp, inMemory, answer) && !ts[0].Stop?
    requires Scan(RegNames(m, strings), ts[1..], on) == answer
    ensures Left(m, strings, ts[1..], sp + |Encode(ts[0])|, on, answer)
  {
    hide Scan, Encode, RegNames, At, Terminated, TokenOk, NamesOk, TokensOk;
    RestOk(m, strings, ts);
    AtSplit(m, sp, Encode(ts[0]), EncodeAll(ts[1..]));
    WholeWords(ts[0]);
    Aligned(sp, |Encode(ts[0])|);
  }

  lemma RestOk(m: seq<Byte>, strings: nat, ts: seq<Token>)
    requires TokensOk(ts) && NamesOk(m, strings, ts) && ts != []
    ensures TokensOk(ts[1..]) && NamesOk(m, strings, ts[1..]) && TokenOk(ts[0])
  {
  }

  lemma WholeWords(t: Token)
    requires TokenOk(t)
    ensures |Encode(t)| % 4 == 0
  {
    hide Word, Padding;
    match t
    case BeginNode(name) => Aligned(4, |Padded(name + [0])|);
    case Prop(nameOff, data) => Aligned(12, |Padded(data)|);
    case _ =>
  }

  lemma Aligned(a: nat, b: nat)
    requires a % 4 == 0 && b % 4 == 0
    ensures (a + b) % 4 == 0
  {
  }

  /** What the token scan yields when the tokens are those of a tree, NOPs aside. */
  lemma ScanOfTrees(isReg: nat -> bool, ts: seq<Token>)
    ensures forall root :: WithoutNops(ts) == Tokens(root) + [END] ==>
              && Scan(isReg, ts, false) == Or(Lent(isReg, root), Wanted(isReg, root))
              && (NoStray(root) ==> Scan(isReg, ts, false) == Wanted(isReg, root))
  {
    forall root | WithoutNops(ts) == Tokens(root) + [END]
      ensures Scan(isReg, ts, false) == Or(Lent(isReg, root), Wanted(isReg, root))
      ensures NoStray(root) ==> Scan(isReg, ts, false) == Wanted(isReg, root) {
      ScanOfDevicetree(isReg, root, ts);
    }
  }

  /** ... and what the tree says about memory. */
  lemma ScanOfSaying(isReg: nat -> bool, ts: seq<Token>)
    ensures forall root, base: nat, size: nat ::
              WithoutNops(ts) == Tokens(root) + [END] && NoStray(root)
              && base < 0x1_0000_0000_0000_0000 && size < 0x1_0000_0000_0000_0000 && Says(isReg, root, base, size) ==>
                Scan(isReg, ts, false) == Some(Info(base, size))
    ensures forall root :: WithoutNops(ts) == Tokens(root) + [END] && NoStray(root) && Silent(isReg, root) ==>
              Scan(isReg, ts, false) == None
  {
    forall root, base: nat, size: nat |
      WithoutNops(ts) == Tokens(root) + [END] && NoStray(root)
      && base < 0x1_0000_0000_0000_0000 && size < 0x1_0000_0000_0000_0000 && Says(isReg, root, base, size)
      ensures Scan(isReg, ts, false) == Some(Info(base, size)) {
      ScanOfDevicetree(isReg, root, ts);
      SaidIsWanted(isReg, root, base, size);
    }
    forall root | WithoutNops(ts) == Tokens(root) + [END] && NoStray(root) && Silent(isReg, root)
      ensures Scan(isReg, ts, false) == None {
      ScanOfDevicetree(isReg, root, ts);
      SilentIsNone(isReg, root);
    }
  }

  /**
   extract_memory_info: the base and size that the token scan yields, or none.  On a serialised
   tree without stray first children that is the first usable `reg` of a memory* node.
   */
  method ExtractMemoryInfo(m: seq<Byte>, ghost tokens: seq<Token>) returns (r: Option<Info>)
    requires Serialised(m, tokens)
    ensures r == Scan(RegNames(m, Fdt32(Le32(m, 12))), tokens, false)
    ensures forall root :: WithoutNops(tokens) == Tokens(root) + [END] && NoStray(root) ==>
              r == Wanted(RegNames(m, Fdt32(Le32(m, 12))), root)
    ensures forall root, base: nat, size: nat ::
              WithoutNops(tokens) == Tokens(root) + [END] && NoStray(root)
              && base < 0x1_0000_0000_0000_0000 && size < 0x1_0000_0000_0000_0000
              && Says(RegNames(m, Fdt32(Le32(m, 12))), root, base, size) ==>
                r == Some(Info(base, size))
    ensures forall root ::
              WithoutNops(tokens) == Tokens(root) + [END] && NoStray(root)
              && Silent(RegNames(m, Fdt32(Le32(m, 12))), root) ==>
                r == None
  {
    hide Says, Silent, Wanted, WithoutNops, Tokens, NoStray, Lent, Scan, NamesOk, At, EncodeAll, Fdt32, Le32;
    ScanOfTrees(RegNames(m, Fdt32(Le32(m, 12))), tokens);
    ScanOfSaying(RegNames(m, Fdt32(Le32(m, 12))), tokens);
    var struct: nat := Fdt32(Le32(m, 8));
    var strings: nat := Fdt32(Le32(m, 12));
    r := ScanStructure(m, struct, strings, tokens, Scan(RegNames(m, strings), tokens, false));
  }

  /** The loop of extract_memory_info: a flag and a cursor that stays on token boundaries. */
  method ScanStructure(m: seq<Byte>, struct: nat, strings: nat, ghost tokens: seq<Token>, ghost answer: Option<Info>)
    returns (r: Option<Info>)
    requires Left(m, strings, tokens, struct, false, answer)
    ensures r == answer
  {
    hide Fdt32, Le32, Fdt64, Le64, Be64, Encode, EncodeAll, RegNames, NamesOk, At, NameIs, TokensOk;
    var sp, inMemory := struct, false;
    ghost var ts := tokens;
    while true
      invariant Left(m, strings, ts, sp, inMemory, answer)
      decreases |ts|
    {
      ghost var sp0, inMemory0 := sp, inMemory;
      NextToken(m, strings, ts, sp, inMemory, answer);
      TokenWords(m, sp, ts[0]);
      var token := Fdt32(Le32(m, sp));
      sp := sp + 4;
      if token == 1 {
        NameTerminated(m, sp, ts[0].name);
        var nameLen := Strlen(m, sp);
        NameLength(m, sp, ts[0].name, nameLen);
        var memory := StrncmpIsZero(m, sp, MEMORY);
        PrefixIs(m, sp, ts[0].name, MEMORY);
        if memory {
          inMemory := true;
        }
        sp := (sp + nameLen + 4) / 4 * 4;
      } else if token == 2 {
        inMemory := false;
      } else if token == 3 {
        var propLen := Fdt32(Le32(m, sp));
        sp := sp + 4;
        var nameOff := Fdt32(Le32(m, sp));
        sp := sp + 4;
        if inMemory {
          var isReg := StrcmpIsZero(m, strings + nameOff, REG);
          RegNamesAt(m, strings, nameOff);
          if isReg && propLen >= 16 {
            RegData(m, sp, ts[0].data);
            return Some(Info(Fdt64(Le64(m, sp)), Fdt64(Le64(m, sp + 8))));
          }
        }
        sp := (sp + propLen + 3) / 4 * 4;
      } else if token == 4 {
      } else {
        return None;
      }
      assert sp == sp0 + |Encode(ts[0])|;
      RestLeft(m, strings, ts, sp0, inMemory0, answer, inMemory);
      ts := ts[1..];
    }
  }

  /** The words at the front of a token, and where it ends. */
  lemma TokenWords(m: seq<Byte>, sp: nat, t: Token)
    requires TokenOk(t) && At(m, sp, Encode(t)) && sp % 4 == 0
    ensures sp + 4 <= |m|
    ensures Fdt32(Le32(m, sp)) == match t
                                  case BeginNode(_) => 1
                                  case EndNode => 2
                                  case Prop(_, _) => 3
                                  case Nop => 4
                                  case Stop(word) => word
    ensures t.EndNode? || t.Nop? ==> |Encode(t)| == 4
    ensures t.BeginNode? ==> At(m, sp + 4, t.name + [0]) && sp + |Encode(t)| == (sp + 4 + |t.name| + 4) / 4 * 4
    ensures t.Prop? ==> && sp + 12 <= |m| && Fdt32(Le32(m, sp + 4)) == |t.data| && Fdt32(Le32(m, sp + 8)) == t.nameOff
                        && At(m, sp + 12, t.data) && sp + |Encode(t)| == (sp + 12 + |t.data| + 3) / 4 * 4
  {
    hide Fdt32, Le32, Word, Padding, At;
    match t
    case BeginNode(name) => BeginWords(m, sp, name);
    case EndNode => AtWord(m, sp, 2);
    case Prop(nameOff, data) => PropWords(m, sp, nameOff, data);
    case Nop => AtWord(m, sp, 4);
    case Stop(word) => AtWord(m, sp, word);
  }

  lemma BeginWords(m: seq<Byte>, sp: nat, name: seq<Byte>)
    requires At(m, sp, Word(1) + Padded(name + [0])) && sp % 4 == 0
    ensures sp + 4 <= |m| && Fdt32(Le32(m, sp)) == 1 && At(m, sp + 4, name + [0])
    ensures sp + |Word(1) + Padded(name + [0])| == (sp + 4 + |name| + 4) / 4 * 4
  {
    hide Fdt32, Le32, Word, Padding, At;
    AtSplit(m, sp, Word(1), Padded(name + [0]));
    AtSplit(m, sp + 4, name + [0], Padding(|name| + 1));
    AtWord(m, sp, 1);
  }

  lemma PropWords(m: seq<Byte>, sp: nat, nameOff: nat, data: seq<Byte>)
    requires nameOff < 0x1_0000_0000 && |data| < 0x1_0000_0000 && sp % 4 == 0
    requires At(m, sp, Word(3) + (Word(|data|) + (Word(nameOff) + Padded(data))))
    ensures sp + 12 <= |m| && Fdt32(Le32(m, sp)) == 3
    ensures Fdt32(Le32(m, sp + 4)) == |data| && Fdt32(Le32(m, sp + 8)) == nameOff && At(m, sp + 12, data)
    ensures sp + |Word(3) + (Word(|data|) + (Word(nameOff) + Padded(data)))| == (sp + 12 + |data| + 3) / 4 * 4
  {
    hide Fdt32, Le32, Word, Padding, At;
    AtSplit(m, sp, Word(3), Word(|data|) + (Word(nameOff) + Padded(data)));
    AtSplit(m, sp + 4, Word(|data|), Word(nameOff) + Padded(data));
    AtSplit(m, sp + 8, Word(nameOff), Padded(data));
    AtSplit(m, sp + 12, data, Padding(|data|));
    AtWord(m, sp, 3);
    AtWord(m, sp + 4, |data|);
    AtWord(m, sp + 8, nameOff);
  }

  lemma NameTerminated(m: seq<Byte>, p: nat, name: seq<Byte>)
    requires At(m, p, name + [0])
    ensures Terminated(m, p) && p + |name| < |m| && m[p + |name|] == 0 && m[p..p + |name|] == name
  {
    AtSplit(m, p, name, [0]);
    assert m[p + |name|] == m[p + |name|..p + |name| + 1][0];
  }

  lemma NameLength(m: seq<Byte>, p: nat, name: seq<Byte>, n: nat)
    requires At(m, p, name + [0]) && 0 !in name && p + n < |m| && m[p + n] == 0 && 0 !in m[p..p + n]
    ensures n == |name|
  {
    NameTerminated(m, p, name);
    assert forall i :: 0 <= i < |name| ==> name[i] == m[p..p + |name|][i] == m[p + i];
    var front := m[p..p + n];
    assert forall i :: 0 <= i < n ==> m[p + i] == front[i] && front[i] in front;
  }

  lemma PrefixIs(m: seq<Byte>, p: nat, name: seq<Byte>, lit: seq<Byte>)
    requires At(m, p, name + [0]) && 0 !in lit
    ensures At(m, p, lit) <==> lit <= name
  {
    NameTerminated(m, p, name);
    if lit <= name {
      assert m[p..p + |lit|] == m[p..p + |name|][..|lit|];
    }
    if At(m, p, lit) {
      assert forall i :: 0 <= i < |lit| ==> m[p + i] == m[p..p + |lit|][i] && lit[i] == m[p + i] && lit[i] in lit;
      assert |lit| <= |name|;
      assert name[..|lit|] == m[p..p + |name|][..|lit|] == m[p..p + |lit|];
    }
  }

  lemma RegNamesAt(m: seq<Byte>, strings: nat, off: nat)
    ensures RegNames(m, strings)(off) == NameIs(m, strings + off, REG)
  {
  }

  lemma RegData(m: seq<Byte>, p: nat, data: seq<Byte>)
    requires At(m, p, data) && |data| >= 16
    ensures p + 16 <= |m| && Fdt64(Le64(m, p)) == Be64(data, 0) && Fdt64(Le64(m, p + 8)) == Be64(data, 8)
  {
    hide Fdt64, Le64, Join;
    assert forall i :: 0 <= i < 16 ==> data[i] == m[p..p + |data|][i] == m[p + i];
    LoadIsBigEndian64(m, p);
    LoadIsBigEndian64(m, p + 8);
  }

  // ---- A whole blob ----

  /** The first four words of the header, in the order of section 5.2 of the Devicetree Specification. */
  function Header(total: nat, structOff: nat, stringsOff: nat): seq<Byte>
    requires total < 0x1_0000_0000 && structOff < 0x1_0000_0000 && stringsOff < 0x1_0000_0000
  {
    Word(0xd00d_feed) + (Word(total) + (Word(structOff) + Word(stringsOff)))
  }

  /** A header, tokens at the one offset, and terminated names from the other. */
  ghost predicate IsBlob(m: seq<Byte>, ts: seq<Token>, structOff: nat, stringsOff: nat) {
    && structOff < 0x1_0000_0000 && stringsOff < 0x1_0000_0000 && |m| < 0x1_0000_0000 && structOff % 4 == 0
    && At(m, 0, Header(|m|, structOff, stringsOff))
    && TokensOk(ts) && ts != [] && ts[|ts| - 1] == END && At(m, structOff, EncodeAll(ts)) && NamesOk(m, stringsOff, ts)
  }

  /** The string offsets at which the text "reg" stands, and ends. */
  predicate TextReg(m: seq<Byte>, p: nat) {
    p + 3 < |m| && IsText(m[p..p + 3], "reg") && m[p + 3] == 0
  }

  function RegTexts(m: seq<Byte>, strings: nat): nat -> bool {
    (off: nat) => TextReg(m, strings + off)
  }

  lemma RegNamesText(m: seq<Byte>, strings: nat, off: nat)
    ensures RegNames(m, strings)(off) <==> TextReg(m, strings + off)
  {
    RegText();
    var p := strings + off;
    if TextReg(m, p) {
      assert m[p..p + 3] == REG;
    }
    if NameIs(m, p, REG) {
      assert m[p..p + 3] == m[p..p + |REG|] == REG;
    }
  }

  lemma BlobOffsets(m: seq<Byte>, ts: seq<Token>, structOff: nat, stringsOff: nat)
    requires IsBlob(m, ts, structOff, stringsOff)
    ensures Serialised(m, ts) && Fdt32(Le32(m, 12)) == stringsOff
  {
    hide Fdt32, Le32, Word, TokensOk, NamesOk, EncodeAll, At;
    var total := |m|;
    AtSplit(m, 0, Word(0xd00d_feed), Word(total) + (Word(structOff) + Word(stringsOff)));
    AtSplit(m, 4, Word(total), Word(structOff) + Word(stringsOff));
    AtSplit(m, 8, Word(structOff), Word(stringsOff));
    AtWord(m, 8, structOff);
    AtWord(m, 12, stringsOff);
  }

  /**
   The whole way, from the bytes of a device tree to the numbers it states: with the magic
   number in front, and no stray first children, the base and size of memory are found.
   */
  method ReadBlob(m: seq<Byte>, ghost ts: seq<Token>, ghost structOff: nat, ghost stringsOff: nat, ghost root: Node,
                  ghost base: nat, ghost size: nat)
    returns (r: Option<Info>)
    requires IsBlob(m, ts, structOff, stringsOff) && WithoutNops(ts) == Tokens(root) + [END] && NoStray(root)
    requires base < 0x1_0000_0000_0000_0000 && size < 0x1_0000_0000_0000_0000
    requires Says(RegTexts(m, stringsOff), root, base, size)
    ensures r == Some(Info(base, size))
  {
    hide Says, NoStray, WithoutNops, Tokens, Serialised, IsBlob, Fdt32, Le32, RegNames, RegTexts, Silent, Wanted, Scan;
    BlobOffsets(m, ts, structOff, stringsOff);
    RegNamesSay(m, stringsOff, root, base, size);
    r := ExtractMemoryInfo(m, ts);
  }

  lemma RegNamesSay(m: seq<Byte>, strings: nat, root: Node, base: nat, size: nat)
    requires base < 0x1_0000_0000_0000_0000 && size < 0x1_0000_0000_0000_0000
    requires Says(RegTexts(m, strings), root, base, size)
    ensures Says(RegNames(m, strings), root, base, size)
  {
    var isReg := RegTexts(m, strings);
    forall off: nat ensures isReg(off) == RegNames(m, strings)(off) {
      RegNamesText(m, strings, off);
    }
    SaysSame(isReg, RegNames(m, strings), root, base, size);
  }
}
