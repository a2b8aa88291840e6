/**
 Device trees and the scan for memory information (kern/driver/dtb.c), in the flattened
 format of section 5.4 of the Devicetree Specification, version 0.4: bytes, tokens, trees.
 */
module DtbSpec {
  import opened Wrappers

  type Byte = x: int | 0 <= x < 256

  // ---- Byte order ----

  /** Four bytes as a number, the lowest first. */
  function Join(b0: nat, b1: nat, b2: nat, b3: nat): nat {
    b0 + 0x100 * b1 + 0x1_0000 * b2 + 0x100_0000 * b3
  }

  /** A 32-bit load on the little-endian machine. */
  function Le32(m: seq<Byte>, p: nat): nat
    requires p + 4 <= |m|
  {
    Join(m[p], m[p + 1], m[p + 2], m[p + 3])
  }

  function Le64(m: seq<Byte>, p: nat): nat
    requires p + 8 <= |m|
  {
    Le32(m, p) + 0x1_0000_0000 * Le32(m, p + 4)
  }

  function Be32(m: seq<Byte>, p: nat): nat
    requires p + 4 <= |m|
  {
    Join(m[p + 3], m[p + 2], m[p + 1], m[p])
  }

  function Be64(m: seq<Byte>, p: nat): nat
    requires p + 8 <= |m|
  {
    0x1_0000_0000 * Be32(m, p) + Be32(m, p + 4)
  }

  /** fdt32_to_cpu: the four bytes swapped. */
  function Fdt32(x: nat): nat {
    x % 0x100 * 0x100_0000 + x / 0x100 % 0x100 * 0x1_0000 + x / 0x1_0000 % 0x100 * 0x100 + x / 0x100_0000 % 0x100
  }

  /** fdt64_to_cpu: the two halves exchanged, each swapped. */
  function Fdt64(x: nat): nat {
    Fdt32(x % 0x1_0000_0000) * 0x1_0000_0000 + Fdt32(x / 0x1_0000_0000)
  }

  /** Loading and converting reads a big-endian word. */
  lemma LoadIsBigEndian(m: seq<Byte>, p: nat)
    requires p + 4 <= |m|
    ensures Fdt32(Le32(m, p)) == Be32(m, p)
    ensures Le32(m, p) < 0x1_0000_0000
  {
    SwapJoined(m[p], m[p + 1], m[p + 2], m[p + 3]);
  }

  lemma SwapJoined(b0: nat, b1: nat, b2: nat, b3: nat)
    requires b0 < 256 && b1 < 256 && b2 < 256 && b3 < 256
    ensures Fdt32(Join(b0, b1, b2, b3)) == Join(b3, b2, b1, b0) && Join(b0, b1, b2, b3) < 0x1_0000_0000
  {
    LowByte(b0, b1 + 0x100 * b2 + 0x1_0000 * b3);
    LowByte(b1, b2 + 0x100 * b3);
    LowByte(b2, b3);
    Nested(Join(b0, b1, b2, b3));
  }

  lemma LowByte(lo: nat, hi: nat)
    requires lo < 256
    ensures (lo + 0x100 * hi) / 0x100 == hi && (lo + 0x100 * hi) % 0x100 == lo
  {
  }

  lemma Nested(x: nat)
    ensures x / 0x1_0000 == x / 0x100 / 0x100 && x / 0x100_0000 == x / 0x100 / 0x100 / 0x100
  {
  }

  lemma LoadIsBigEndian64(m: seq<Byte>, p: nat)
    requires p + 8 <= |m|
    ensures Fdt64(Le64(m, p)) == Be64(m, p)
  {
    hide Fdt32, Le32, Be32, Join;
    LoadIsBigEndian(m, p);
    LoadIsBigEndian(m, p + 4);
    Halves(Le32(m, p), Le32(m, p + 4));
  }

  lemma Halves(lo: nat, hi: nat)
    requires lo < 0x1_0000_0000
    ensures (lo + 0x1_0000_0000 * hi) % 0x1_0000_0000 == lo && (lo + 0x1_0000_0000 * hi) / 0x1_0000_0000 == hi
  {
  }

  // ---- Tokens ----

  /** The tokens; Stop is FDT_END or any word that is not a token at all. */
  datatype Token = BeginNode(name: seq<Byte>) | EndNode | Prop(nameOff: nat, data: seq<Byte>) | Nop | Stop(word: nat)

  const END := Stop(9)

  function Word(x: nat): (w: seq<Byte>)
    requires x < 0x1_0000_0000
    ensures |w| == 4
  {
    var x1 := x / 0x100;
    var x2 := x1 / 0x100;
    var w: seq<Byte> := [x2 / 0x100, x2 % 0x100, x1 % 0x100, x % 0x100];
    w
  }

  lemma WordValue(x: nat)
    requires x < 0x1_0000_0000
    ensures Be32(Word(x), 0) == x
  {
  }

  /** Zeros up to the next multiple of four. */
  function Padding(n: nat): (s: seq<Byte>)
    ensures (n + |s|) % 4 == 0 && |s| < 4 && (n + |s|) == (n + 3) / 4 * 4
  {
    if n % 4 == 0 then [] else if n % 4 == 1 then [0, 0, 0] else if n % 4 == 2 then [0, 0] else [0]
  }

  /** Bytes filled up with zeros to whole words. */
  function Padded(s: seq<Byte>): (r: seq<Byte>)
    ensures |r| % 4 == 0 && |r| == (|s| + 3) / 4 * 4
  {
    s + Padding(|s|)
  }

  predicate TokenOk(t: Token) {
    match t
    case BeginNode(name) => 0 !in name
    case Prop(nameOff, data) => nameOff < 0x1_0000_0000 && |data| < 0x1_0000_0000
    case Stop(word) => word < 0x1_0000_0000 && word !in {1, 2, 3, 4}
    case _ => true
  }

  function Encode(t: Token): seq<Byte>
    requires TokenOk(t)
  {
    match t
    case BeginNode(name) => Word(1) + Padded(name + [0])
    case EndNode => Word(2)
    case Prop(nameOff, data) => Word(3) + (Word(|data|) + (Word(nameOff) + Padded(data)))
    case Nop => Word(4)
    case Stop(word) => Word(word)
  }

  ghost predicate TokensOk(ts: seq<Token>) {
    forall i :: 0 <= i < |ts| ==> TokenOk(ts[i])
  }

  function EncodeAll(ts: seq<Token>): seq<Byte>
    requires TokensOk(ts)
  {
    if ts == [] then [] else Encode(ts[0]) + EncodeAll(ts[1..])
  }

  // ---- The scan, over tokens ----

  const MEMORY: seq<Byte> := [109, 101, 109, 111, 114, 121]  // "memory"
  const REG: seq<Byte> := [114, 101, 103]                    // "reg"

  predicate IsMemory(name: seq<Byte>) {
    MEMORY <= name
  }

  datatype Info = Info(base: nat, size: nat)

  /** What a property yields: base and size if it is a `reg` of at least 16 bytes. */
  function RegOf(isReg: nat -> bool, nameOff: nat, data: seq<Byte>): Option<Info> {
    if isReg(nameOff) && |data| >= 16 then Some(Info(Be64(data, 0), Be64(data, 8))) else None
  }

  /** The scan; `isReg` tells the string offsets that name `reg`. */
  function Scan(isReg: nat -> bool, ts: seq<Token>, inMemory: bool): Option<Info> {
    if ts == [] then None else
    match ts[0]
    case BeginNode(name) => Scan(isReg, ts[1..], inMemory || IsMemory(name))
    case EndNode => Scan(isReg, ts[1..], false)
    case Prop(nameOff, data) =>
      if inMemory && RegOf(isReg, nameOff, data).Some? then RegOf(isReg, nameOff, data)
      else Scan(isReg, ts[1..], inMemory)
    case Nop => Scan(isReg, ts[1..], inMemory)
    case Stop(_) => None
  }

  function WithoutNops(ts: seq<Token>): seq<Token> {
    if ts == [] then [] else if ts[0].Nop? then WithoutNops(ts[1..]) else [ts[0]] + WithoutNops(ts[1..])
  }

  /** FDT_NOP tokens may stand anywhere. */
  lemma {:induction false} NopsDoNotMatter(isReg: nat -> bool, ts: seq<Token>, inMemory: bool)
    ensures Scan(isReg, ts, inMemory) == Scan(isReg, WithoutNops(ts), inMemory)
  {
    if ts != [] {
      var rest := ts[1..];
      assert !ts[0].Nop? ==> WithoutNops(ts)[1..] == WithoutNops(rest);
      forall b { NopsDoNotMatter(isReg, rest, b); }
    }
  }

  // ---- Trees ----

  datatype Property = Property(nameOff: nat, data: seq<Byte>)

  datatype Node = Node(name: seq<Byte>, props: seq<Property>, children: seq<Node>)

  function PropTokens(ps: seq<Property>): seq<Token> {
    if ps == [] then [] else [Prop(ps[0].nameOff, ps[0].data)] + PropTokens(ps[1..])
  }

  function Tokens(n: Node): seq<Token>
    decreases n, 0
  {
    [BeginNode(n.name)] + PropTokens(n.props) + ForestTokens(n.children) + [EndNode]
  }

  function ForestTokens(ns: seq<Node>): seq<Token>
    decreases ns, 1
  {
    if ns == [] then [] else Tokens(ns[0]) + ForestTokens(ns[1..])
  }

  function Or(a: Option<Info>, b: Option<Info>): Option<Info> {
    if a.Some? then a else b
  }

  function FirstReg(isReg: nat -> bool, ps: seq<Property>): Option<Info> {
    if ps == [] then None else Or(RegOf(isReg, ps[0].nameOff, ps[0].data), FirstReg(isReg, ps[1..]))
  }

  /** What is wanted: the first usable `reg` of a memory* node, in document order. */
  function Wanted(isReg: nat -> bool, n: Node): Option<Info>
    decreases n, 0
  {
    Or(if IsMemory(n.name) then FirstReg(isReg, n.props) else None, WantedIn(isReg, n.children))
  }

  function WantedIn(isReg: nat -> bool, ns: seq<Node>): Option<Info>
    decreases ns, 1
  {
    if ns == [] then None else Or(Wanted(isReg, ns[0]), WantedIn(isReg, ns[1..]))
  }

  /** What the scan finds in any tree: a memory* node lends its flag to its chain of first children. */
  function Found(isReg: nat -> bool, n: Node, inMemory: bool): Option<Info>
    decreases n, 0
  {
    var on := inMemory || IsMemory(n.name);
    Or(if on then FirstReg(isReg, n.props) else None, FoundIn(isReg, n.children, on))
  }

  function FoundIn(isReg: nat -> bool, ns: seq<Node>, inMemory: bool): Option<Info>
    decreases ns, 1
  {
    if ns == [] then None else Or(Found(isReg, ns[0], inMemory), FoundIn(isReg, ns[1..], false))
  }

  lemma {:induction false} ScanProps(isReg: nat -> bool, ps: seq<Property>, rest: seq<Token>, inMemory: bool)
    ensures Scan(isReg, PropTokens(ps) + rest, inMemory)
            == Or(if inMemory then FirstReg(isReg, ps) else None, Scan(isReg, rest, inMemory))
  {
    hide Scan, RegOf;
    if ps == [] {
      assert PropTokens(ps) + rest == rest;
    } else {
      ScanProps(isReg, ps[1..], rest, inMemory);
      ScanProp(isReg, ps[0], PropTokens(ps[1..]) + rest, inMemory);
      assert PropTokens(ps) + rest == [Prop(ps[0].nameOff, ps[0].data)] + (PropTokens(ps[1..]) + rest);
    }
  }

  lemma ScanProp(isReg: nat -> bool, p: Property, rest: seq<Token>, inMemory: bool)
    ensures Scan(isReg, [Prop(p.nameOff, p.data)] + rest, inMemory)
            == Or(if inMemory then RegOf(isReg, p.nameOff, p.data) else None, Scan(isReg, rest, inMemory))
  {
    assert ([Prop(p.nameOff, p.data)] + rest)[1..] == rest;
  }

  /** The scan of any serialised tree, followed by anything. */
  lemma {:induction false} ScanTree(isReg: nat -> bool, n: Node, rest: seq<Token>, inMemory: bool)
    ensures Scan(isReg, Tokens(n) + rest, inMemory) == Or(Found(isReg, n, inMemory), Scan(isReg, rest, false))
    decreases n, 0
  {
    var on := inMemory || IsMemory(n.name);
    var tail := [EndNode] + rest;
    var inner := ForestTokens(n.children) + tail;
    assert Tokens(n) + rest == [BeginNode(n.name)] + (PropTokens(n.props) + inner);
    ScanProps(isReg, n.props, inner, on);
    ScanForest(isReg, n.children, tail, on);
    assert forall b :: Scan(isReg, tail, b) == Scan(isReg, rest, false) by {
      assert tail[1..] == rest;
    }
  }

  lemma {:induction false} ScanForest(isReg: nat -> bool, ns: seq<Node>, rest: seq<Token>, inMemory: bool)
    ensures Scan(isReg, ForestTokens(ns) + rest, inMemory)
            == Or(FoundIn(isReg, ns, inMemory), Scan(isReg, rest, if ns == [] then inMemory else false))
    decreases ns, 1
  {
    hide Scan, Tokens, Found;
    if ns == [] {
      assert ForestTokens(ns) + rest == rest;
    } else {
      ScanTree(isReg, ns[0], ForestTokens(ns[1..]) + rest, inMemory);
      ScanForest(isReg, ns[1..], rest, false);
      assert ForestTokens(ns) + rest == Tokens(ns[0]) + (ForestTokens(ns[1..]) + rest);
    }
  }

  /** No memory* node has a first child that is not a memory* node itself; leaves qualify. */
  predicate NoStray(n: Node)
    decreases n, 0
  {
    && (IsMemory(n.name) && n.children != [] ==> IsMemory(n.children[0].name))
    && NoStrayIn(n.children)
  }

  predicate NoStrayIn(ns: seq<Node>)
    decreases ns, 1
  {
    ns == [] || (NoStray(ns[0]) && NoStrayIn(ns[1..]))
  }

  /** On such trees the scan finds what is wanted. */
  lemma {:induction false} FoundIsWanted(isReg: nat -> bool, n: Node, inMemory: bool)
    requires NoStray(n) && (inMemory ==> IsMemory(n.name))
    ensures Found(isReg, n, inMemory) == Wanted(isReg, n)
    decreases n, 0
  {
    FoundInIsWanted(isReg, n.children, inMemory || IsMemory(n.name));
  }

  lemma {:induction false} FoundInIsWanted(isReg: nat -> bool, ns: seq<Node>, inMemory: bool)
    requires NoStrayIn(ns) && (inMemory && ns != [] ==> IsMemory(ns[0].name))
    ensures FoundIn(isReg, ns, inMemory) == WantedIn(isReg, ns)
    decreases ns, 1
  {
    if ns != [] {
      FoundIsWanted(isReg, ns[0], inMemory);
      FoundInIsWanted(isReg, ns[1..], false);
    }
  }

  // ---- Exactly which trees the scan serves ----

  /** The same names in the same places; properties may differ. */
  ghost predicate SameShape(n: Node, m: Node)
    decreases n, 0
  {
    n.name == m.name && SameShapeIn(n.children, m.children)
  }

  ghost predicate SameShapeIn(ns: seq<Node>, ms: seq<Node>)
    decreases ns, 1
  {
    |ns| == |ms| && (ns != [] ==> SameShape(ns[0], ms[0]) && SameShapeIn(ns[1..], ms[1..]))
  }

  /**
   The scan finds what is wanted, whatever the properties, if and only if no memory* node of
   the tree has a first child that is not one; `off` is some string offset that names `reg`.
   */
  lemma RightExactlyWithoutStray(isReg: nat -> bool, off: nat, n: Node)
    requires isReg(off)
    ensures NoStray(n) <==> forall m :: SameShape(n, m) ==> Found(isReg, m, false) == Wanted(isReg, m)
  {
    if NoStray(n) {
      forall m | SameShape(n, m) ensures Found(isReg, m, false) == Wanted(isReg, m) {
        ShapeKeepsNoStray(n, m);
        FoundIsWanted(isReg, m, false);
      }
    } else {
      PlantedMisleads(isReg, off, n, false);
    }
  }

  lemma {:induction false} ShapeKeepsNoStray(n: Node, m: Node)
    requires SameShape(n, m) && NoStray(n)
    ensures NoStray(m)
    decreases n, 0
  {
    ShapeKeepsNoStrayIn(n.children, m.children);
    assert n.children != [] ==> SameShape(n.children[0], m.children[0]);
  }

  lemma {:induction false} ShapeKeepsNoStrayIn(ns: seq<Node>, ms: seq<Node>)
    requires SameShapeIn(ns, ms) && NoStrayIn(ns)
    ensures NoStrayIn(ms)
    decreases ns, 1
  {
    if ns != [] {
      ShapeKeepsNoStray(ns[0], ms[0]);
      ShapeKeepsNoStrayIn(ns[1..], ms[1..]);
    }
  }

  /** The tree without its properties. */
  function Bare(n: Node): Node
    decreases n, 0
  {
    Node(n.name, [], BareIn(n.children))
  }

  function BareIn(ns: seq<Node>): seq<Node>
    decreases ns, 1
  {
    if ns == [] then [] else [Bare(ns[0])] + BareIn(ns[1..])
  }

  const ZEROS: seq<Byte> := [0, 0, 0, 0, 0, 0, 0, 0, 0, 0, 0, 0, 0, 0, 0, 0]

  /** The bare tree with one `reg` of 16 bytes, in the first stray child. */
  function Planted(n: Node, off: nat): Node
    requires !NoStray(n)
    decreases n, 0
  {
    if IsMemory(n.name) && n.children != [] && !IsMemory(n.children[0].name) then
      var child := n.children[0];
      Node(n.name, [], [Node(child.name, [Property(off, ZEROS)], BareIn(child.children))] + BareIn(n.children[1..]))
    else
      Node(n.name, [], PlantedIn(n.children, off))
  }

  function PlantedIn(ns: seq<Node>, off: nat): seq<Node>
    requires !NoStrayIn(ns)
    decreases ns, 1
  {
    if !NoStray(ns[0]) then [Planted(ns[0], off)] + BareIn(ns[1..]) else [Bare(ns[0])] + PlantedIn(ns[1..], off)
  }

  lemma {:induction false} BareIsEmpty(isReg: nat -> bool, n: Node, inMemory: bool)
    ensures SameShape(n, Bare(n)) && Found(isReg, Bare(n), inMemory) == None && Wanted(isReg, Bare(n)) == None
    decreases n, 0
  {
    BareInIsEmpty(isReg, n.children, inMemory || IsMemory(n.name));
  }

  lemma {:induction false} BareInIsEmpty(isReg: nat -> bool, ns: seq<Node>, inMemory: bool)
    ensures SameShapeIn(ns, BareIn(ns)) && FoundIn(isReg, BareIn(ns), inMemory) == None
        && WantedIn(isReg, BareIn(ns)) == None
    decreases ns, 1
  {
    if ns != [] {
      BareIsEmpty(isReg, ns[0], inMemory);
      BareInIsEmpty(isReg, ns[1..], false);
      assert BareIn(ns)[1..] == BareIn(ns[1..]);
    }
  }

  /** The scan finds the planted `reg`, although no memory* node has any. */
  lemma {:induction false} PlantedMisleads(isReg: nat -> bool, off: nat, n: Node, inMemory: bool)
    requires isReg(off) && !NoStray(n)
    ensures SameShape(n, Planted(n, off)) && Wanted(isReg, Planted(n, off)) == None
    ensures Found(isReg, Planted(n, off), inMemory).Some?
    decreases n, 0
  {
    if IsMemory(n.name) && n.children != [] && !IsMemory(n.children[0].name) {
      StrayMisleads(isReg, off, n.children);
    } else {
      PlantedInMisleads(isReg, off, n.children, inMemory || IsMemory(n.name));
    }
  }

  /** A first child with a `reg`, met with the flag set. */
  lemma {:induction false} StrayMisleads(isReg: nat -> bool, off: nat, ns: seq<Node>)
    requires isReg(off) && ns != [] && !IsMemory(ns[0].name)
    ensures var ms := [Node(ns[0].name, [Property(off, ZEROS)], BareIn(ns[0].children))] + BareIn(ns[1..]);
            SameShapeIn(ns, ms) && WantedIn(isReg, ms) == None && FoundIn(isReg, ms, true).Some?
  {
    var child := Node(ns[0].name, [Property(off, ZEROS)], BareIn(ns[0].children));
    var ms := [child] + BareIn(ns[1..]);
    assert ms[1..] == BareIn(ns[1..]);
    BareInIsEmpty(isReg, ns[0].children, true);
    BareInIsEmpty(isReg, ns[1..], false);
    assert RegOf(isReg, off, ZEROS).Some?;
  }

  lemma {:induction false} PlantedInMisleads(isReg: nat -> bool, off: nat, ns: seq<Node>, inMemory: bool)
    requires isReg(off) && !NoStrayIn(ns)
    ensures SameShapeIn(ns, PlantedIn(ns, off)) && WantedIn(isReg, PlantedIn(ns, off)) == None
    ensures FoundIn(isReg, PlantedIn(ns, off), inMemory).Some?
    decreases ns, 1
  {
    if !NoStray(ns[0]) {
      PlantedMisleads(isReg, off, ns[0], inMemory);
      BareInIsEmpty(isReg, ns[1..], false);
      assert PlantedIn(ns, off)[1..] == BareIn(ns[1..]);
    } else {
      BareIsEmpty(isReg, ns[0], inMemory);
      PlantedInMisleads(isReg, off, ns[1..], false);
      assert PlantedIn(ns, off)[1..] == PlantedIn(ns[1..], off);
    }
  }

  /** The first usable `reg` that the scan meets with its flag set, and whether it belongs to a memory* node itself. */
  datatype Hit = Hit(info: Info, own: bool)

  function FirstHit(isReg: nat -> bool, n: Node, inMemory: bool): Option<Hit>
    decreases n, 0
  {
    var on := inMemory || IsMemory(n.name);
    var here := if on then FirstReg(isReg, n.props) else None;
    if here.Some? then Some(Hit(here.value, IsMemory(n.name))) else FirstHitIn(isReg, n.children, on)
  }

  function FirstHitIn(isReg: nat -> bool, ns: seq<Node>, inMemory: bool): Option<Hit>
    decreases ns, 1
  {
    if ns == [] then None else
    var first := FirstHit(isReg, ns[0], inMemory);
    if first.Some? then first else FirstHitIn(isReg, ns[1..], false)
  }

  /**
   The `reg` of a node that is not a memory* node but sits on a chain of first children below
   one, ahead of all others.
   */
  function Lent(isReg: nat -> bool, n: Node): Option<Info> {
    match FirstHit(isReg, n, false)
    case Some(hit) => if hit.own then None else Some(hit.info)
    case None => None
  }

  /** On any tree at all, the scan finds a lent `reg` if there is one ahead of the rest, else what is wanted. */
  lemma FoundIsLentOrWanted(isReg: nat -> bool, n: Node)
    ensures Found(isReg, n, false) == Or(Lent(isReg, n), Wanted(isReg, n))
    ensures NoStray(n) ==> Lent(isReg, n) == None
  {
    HitFound(isReg, n, false);
    if NoStray(n) {
      HitOwn(isReg, n, false);
    }
  }

  lemma {:induction false} HitOwn(isReg: nat -> bool, n: Node, inMemory: bool)
    requires NoStray(n) && (inMemory ==> IsMemory(n.name))
    ensures FirstHit(isReg, n, inMemory).Some? ==> FirstHit(isReg, n, inMemory).value.own
    decreases n, 0
  {
    HitOwnIn(isReg, n.children, inMemory || IsMemory(n.name));
  }

  lemma {:induction false} HitOwnIn(isReg: nat -> bool, ns: seq<Node>, inMemory: bool)
    requires NoStrayIn(ns) && (inMemory && ns != [] ==> IsMemory(ns[0].name))
    ensures FirstHitIn(isReg, ns, inMemory).Some? ==> FirstHitIn(isReg, ns, inMemory).value.own
    decreases ns, 1
  {
    if ns != [] {
      HitOwn(isReg, ns[0], inMemory);
      HitOwnIn(isReg, ns[1..], false);
    }
  }

  /** What a first hit says about the scan and about what is wanted. */
  ghost predicate HitTells(hit: Option<Hit>, found: Option<Info>, wanted: Option<Info>) {
    match hit
    case None => found == None && wanted == None
    case Some(h) => found == Some(h.info) && (h.own ==> wanted == Some(h.info))
  }

  lemma {:induction false} HitFound(isReg: nat -> bool, n: Node, inMemory: bool)
    ensures HitTells(FirstHit(isReg, n, inMemory), Found(isReg, n, inMemory), Wanted(isReg, n))
    decreases n, 0
  {
    HitFoundIn(isReg, n.children, inMemory || IsMemory(n.name));
  }

  lemma {:induction false} HitFoundIn(isReg: nat -> bool, ns: seq<Node>, inMemory: bool)
    ensures HitTells(FirstHitIn(isReg, ns, inMemory), FoundIn(isReg, ns, inMemory), WantedIn(isReg, ns))
    decreases ns, 1
  {
    if ns != [] {
      HitFound(isReg, ns[0], inMemory);
      HitFoundIn(isReg, ns[1..], false);
    }
  }

  /**
   A memory* node without a usable `reg` and with one stray leaf below it: the scan goes wrong
   exactly when the leaf has one.
   */
  lemma StrayChild(isReg: nat -> bool, n: Node, child: Node)
    requires IsMemory(n.name) && FirstReg(isReg, n.props) == None && n.children == [child]
    requires !IsMemory(child.name) && child.children == []
    ensures Wanted(isReg, n) == None
    ensures Found(isReg, n, false) == FirstReg(isReg, child.props)
  {
    assert n.children[1..] == [];
    assert Wanted(isReg, child) == None && WantedIn(isReg, n.children[1..]) == None;
    assert WantedIn(isReg, n.children) == None;
    assert Found(isReg, child, true) == Or(FirstReg(isReg, child.props), None);
    assert FoundIn(isReg, n.children[1..], false) == None;
    assert FoundIn(isReg, n.children, true) == FirstReg(isReg, child.props);
  }

  /** The whole scan of a serialised tree in which NOPs have been put anywhere. */
  lemma ScanOfDevicetree(isReg: nat -> bool, root: Node, ts: seq<Token>)
    requires WithoutNops(ts) == Tokens(root) + [END]
    ensures Scan(isReg, ts, false) == Or(Lent(isReg, root), Wanted(isReg, root))
    ensures NoStray(root) ==> Scan(isReg, ts, false) == Wanted(isReg, root)
  {
    NopsDoNotMatter(isReg, ts, false);
    ScanTree(isReg, root, [END], false);
    FoundIsLentOrWanted(isReg, root);
    if NoStray(root) {
      FoundIsWanted(isReg, root, false);
    }
  }
}
