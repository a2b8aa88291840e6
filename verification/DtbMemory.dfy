/**
 What a device tree says about memory, byte for byte (kern/driver/dtb.c), without the terms of
 the scan: names as text, numbers as big-endian words, and the first `reg` that is long enough.
 */
module DtbMemory {
  import opened Wrappers
  import opened DtbSpec

  // ---- Text and words ----

  /** The bytes of a text. */
  predicate IsText(name: seq<Byte>, text: string) {
    |name| == |text| && forall i :: 0 <= i < |text| ==> name[i] == text[i] as int
  }

  /** A node counts as memory* exactly if its first six characters are "memory". */
  lemma MemoryNames(name: seq<Byte>)
    ensures IsMemory(name) <==> |name| >= 6 && IsText(name[..6], "memory")
  {
    assert IsText(MEMORY, "memory");
    if |name| >= 6 && IsText(name[..6], "memory") {
      assert name[..6] == MEMORY;
    }
  }

  lemma RegText()
    ensures IsText(REG, "reg")
  {
  }

  /** A word is written with its highest byte first. */
  lemma WordBytes(b3: Byte, b2: Byte, b1: Byte, b0: Byte)
    ensures 0x100_0000 * b3 + 0x1_0000 * b2 + 0x100 * b1 + b0 < 0x1_0000_0000
    ensures Word(0x100_0000 * b3 + 0x1_0000 * b2 + 0x100 * b1 + b0) == [b3, b2, b1, b0]
  {
    LowByte(b0, b1 + 0x100 * b2 + 0x1_0000 * b3);
    LowByte(b1, b2 + 0x100 * b3);
    LowByte(b2, b3);
  }

  /** The tokens as they stand in memory, with the numbers of section 5.4.1 of the Devicetree Specification. */
  lemma TokenBytes(name: seq<Byte>, nameOff: nat, data: seq<Byte>)
    requires 0 !in name && nameOff < 0x1_0000_0000 && |data| < 0x1_0000_0000
    ensures Encode(BeginNode(name)) == [0, 0, 0, 1] + (name + [0] + Padding(|name| + 1))
    ensures Encode(EndNode) == [0, 0, 0, 2]
    ensures Encode(Prop(nameOff, data))
            == [0, 0, 0, 3] + (Word(|data|) + (Word(nameOff) + (data + Padding(|data|))))
    ensures Encode(Nop) == [0, 0, 0, 4] && Encode(END) == [0, 0, 0, 9]
  {
    WordBytes(0, 0, 0, 1);
    WordBytes(0, 0, 0, 2);
    WordBytes(0, 0, 0, 3);
    WordBytes(0, 0, 0, 4);
    WordBytes(0, 0, 0, 9);
  }

  /** A 64-bit number as two words, the high one first. */
  function Word64(x: nat): (w: seq<Byte>)
    requires x < 0x1_0000_0000_0000_0000
    ensures |w| == 8
  {
    Word(x / 0x1_0000_0000) + Word(x % 0x1_0000_0000)
  }

  lemma WordAt(data: seq<Byte>, p: nat, x: nat)
    requires x < 0x1_0000_0000 && p + 4 <= |data| && data[p..p + 4] == Word(x)
    ensures Be32(data, p) == x
  {
    var w := data[p..p + 4];
    assert w[0] == data[p] && w[1] == data[p + 1] && w[2] == data[p + 2] && w[3] == data[p + 3];
    WordValue(x);
  }

  lemma Word64At(data: seq<Byte>, p: nat, x: nat)
    requires x < 0x1_0000_0000_0000_0000 && p + 8 <= |data| && data[p..p + 8] == Word64(x)
    ensures Be64(data, p) == x
  {
    assert data[p..p + 4] == data[p..p + 8][..4];
    assert data[p + 4..p + 8] == data[p..p + 8][4..];
    WordAt(data, p, x / 0x1_0000_0000);
    WordAt(data, p + 4, x % 0x1_0000_0000);
  }

  // ---- What a tree says ----

  /** Property i is a `reg` of at least 16 bytes. */
  predicate UsableAt(isReg: nat -> bool, ps: seq<Property>, i: nat)
    requires i < |ps|
  {
    isReg(ps[i].nameOff) && |ps[i].data| >= 16
  }

  /** The first such property starts with the two numbers. */
  ghost predicate FirstSays(isReg: nat -> bool, ps: seq<Property>, base: nat, size: nat)
    requires base < 0x1_0000_0000_0000_0000 && size < 0x1_0000_0000_0000_0000
  {
    exists i: nat ::
      && i < |ps| && UsableAt(isReg, ps, i) && ps[i].data[..16] == Word64(base) + Word64(size)
      && forall j: nat :: j < i ==> !UsableAt(isReg, ps, j)
  }

  ghost predicate NoneUsable(isReg: nat -> bool, ps: seq<Property>) {
    forall i: nat :: i < |ps| ==> !UsableAt(isReg, ps, i)
  }

  predicate MemoryNode(n: Node) {
    |n.name| >= 6 && IsText(n.name[..6], "memory")
  }

  /** No node whose name starts with "memory" has a usable `reg`. */
  ghost predicate Silent(isReg: nat -> bool, n: Node)
    decreases n, 0
  {
    (MemoryNode(n) ==> NoneUsable(isReg, n.props)) && SilentIn(isReg, n.children)
  }

  ghost predicate SilentIn(isReg: nat -> bool, ns: seq<Node>)
    decreases ns, 1
  {
    ns == [] || (Silent(isReg, ns[0]) && SilentIn(isReg, ns[1..]))
  }

  /** The first usable `reg` of such a node, in document order, starts with base and size. */
  ghost predicate Says(isReg: nat -> bool, n: Node, base: nat, size: nat)
    requires base < 0x1_0000_0000_0000_0000 && size < 0x1_0000_0000_0000_0000
    decreases n, 0
  {
    || (MemoryNode(n) && FirstSays(isReg, n.props, base, size))
    || ((MemoryNode(n) ==> NoneUsable(isReg, n.props)) && SaysIn(isReg, n.children, base, size))
  }

  ghost predicate SaysIn(isReg: nat -> bool, ns: seq<Node>, base: nat, size: nat)
    requires base < 0x1_0000_0000_0000_0000 && size < 0x1_0000_0000_0000_0000
    decreases ns, 1
  {
    ns != []
    && (Says(isReg, ns[0], base, size) || (Silent(isReg, ns[0]) && SaysIn(isReg, ns[1..], base, size)))
  }

  // ---- That is what is wanted ----

  lemma {:induction false} NoneUsableReg(isReg: nat -> bool, ps: seq<Property>)
    requires NoneUsable(isReg, ps)
    ensures FirstReg(isReg, ps) == None
  {
    if ps != [] {
      assert !UsableAt(isReg, ps, 0);
      assert forall i: nat :: i < |ps| - 1 ==> UsableAt(isReg, ps[1..], i) == UsableAt(isReg, ps, i + 1);
      NoneUsableReg(isReg, ps[1..]);
    }
  }

  lemma {:induction false} FirstSaysReg(isReg: nat -> bool, ps: seq<Property>, base: nat, size: nat, i: nat)
    requires base < 0x1_0000_0000_0000_0000 && size < 0x1_0000_0000_0000_0000
    requires i < |ps| && UsableAt(isReg, ps, i) && ps[i].data[..16] == Word64(base) + Word64(size)
    requires forall j: nat :: j < i ==> !UsableAt(isReg, ps, j)
    ensures FirstReg(isReg, ps) == Some(Info(base, size))
    decreases i
  {
    if i == 0 {
      var data := ps[0].data;
      assert data[0..8] == data[..16][..8] == Word64(base);
      assert data[8..16] == data[..16][8..] == Word64(size);
      Word64At(data, 0, base);
      Word64At(data, 8, size);
    } else {
      assert !UsableAt(isReg, ps, 0);
      assert forall j: nat :: j < |ps| - 1 ==> UsableAt(isReg, ps[1..], j) == UsableAt(isReg, ps, j + 1);
      FirstSaysReg(isReg, ps[1..], base, size, i - 1);
    }
  }

  /** A `reg` of 15 bytes or fewer is passed over. */
  lemma ShortReg(isReg: nat -> bool, p: Property, ps: seq<Property>)
    requires |p.data| <= 15
    ensures FirstReg(isReg, [p] + ps) == FirstReg(isReg, ps)
  {
    assert ([p] + ps)[1..] == ps;
  }

  lemma {:induction false} SilentIsNone(isReg: nat -> bool, n: Node)
    requires Silent(isReg, n)
    ensures Wanted(isReg, n) == None
    decreases n, 0
  {
    MemoryNames(n.name);
    if MemoryNode(n) {
      NoneUsableReg(isReg, n.props);
    }
    SilentInIsNone(isReg, n.children);
  }

  lemma {:induction false} SilentInIsNone(isReg: nat -> bool, ns: seq<Node>)
    requires SilentIn(isReg, ns)
    ensures WantedIn(isReg, ns) == None
    decreases ns, 1
  {
    if ns != [] {
      SilentIsNone(isReg, ns[0]);
      SilentInIsNone(isReg, ns[1..]);
    }
  }

  /** The numbers that the tree states are the ones wanted. */
  lemma {:induction false} SaidIsWanted(isReg: nat -> bool, n: Node, base: nat, size: nat)
    requires base < 0x1_0000_0000_0000_0000 && size < 0x1_0000_0000_0000_0000 && Says(isReg, n, base, size)
    ensures Wanted(isReg, n) == Some(Info(base, size))
    decreases n, 0
  {
    MemoryNames(n.name);
    if MemoryNode(n) && FirstSays(isReg, n.props, base, size) {
      var i: nat :| && i < |n.props| && UsableAt(isReg, n.props, i)
                    && n.props[i].data[..16] == Word64(base) + Word64(size)
                    && forall j: nat :: j < i ==> !UsableAt(isReg, n.props, j);
      FirstSaysReg(isReg, n.props, base, size, i);
    } else {
      if MemoryNode(n) {
        NoneUsableReg(isReg, n.props);
      }
      SaidInIsWanted(isReg, n.children, base, size);
    }
  }

  lemma {:induction false} SaidInIsWanted(isReg: nat -> bool, ns: seq<Node>, base: nat, size: nat)
    requires base < 0x1_0000_0000_0000_0000 && size < 0x1_0000_0000_0000_0000 && SaysIn(isReg, ns, base, size)
    ensures WantedIn(isReg, ns) == Some(Info(base, size))
    decreases ns, 1
  {
    if Says(isReg, ns[0], base, size) {
      SaidIsWanted(isReg, ns[0], base, size);
    } else {
      SilentIsNone(isReg, ns[0]);
      SaidInIsWanted(isReg, ns[1..], base, size);
    }
  }

  // ---- Only what the names are matters ----

  lemma {:induction false} SilentSame(p: nat -> bool, q: nat -> bool, n: Node)
    requires (forall off :: p(off) == q(off)) && Silent(p, n)
    ensures Silent(q, n)
    decreases n, 0
  {
    assert forall i: nat :: i < |n.props| ==> UsableAt(p, n.props, i) == UsableAt(q, n.props, i);
    SilentInSame(p, q, n.children);
  }

  lemma {:induction false} SilentInSame(p: nat -> bool, q: nat -> bool, ns: seq<Node>)
    requires (forall off :: p(off) == q(off)) && SilentIn(p, ns)
    ensures SilentIn(q, ns)
    decreases ns, 1
  {
    if ns != [] {
      SilentSame(p, q, ns[0]);
      SilentInSame(p, q, ns[1..]);
    }
  }

  lemma {:induction false} SaysSame(p: nat -> bool, q: nat -> bool, n: Node, base: nat, size: nat)
    requires base < 0x1_0000_0000_0000_0000 && size < 0x1_0000_0000_0000_0000
    requires (forall off :: p(off) == q(off)) && Says(p, n, base, size)
    ensures Says(q, n, base, size)
    decreases n, 0
  {
    assert forall i: nat :: i < |n.props| ==> UsableAt(p, n.props, i) == UsableAt(q, n.props, i);
    if !(MemoryNode(n) && FirstSays(p, n.props, base, size)) {
      SaysInSame(p, q, n.children, base, size);
    }
  }

  lemma {:induction false} SaysInSame(p: nat -> bool, q: nat -> bool, ns: seq<Node>, base: nat, size: nat)
    requires base < 0x1_0000_0000_0000_0000 && size < 0x1_0000_0000_0000_0000
    requires (forall off :: p(off) == q(off)) && SaysIn(p, ns, base, size)
    ensures SaysIn(q, ns, base, size)
    decreases ns, 1
  {
    if Says(p, ns[0], base, size) {
      SaysSame(p, q, ns[0], base, size);
    } else {
      SilentSame(p, q, ns[0]);
      SaysInSame(p, q, ns[1..], base, size);
    }
  }
}
