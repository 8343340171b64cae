/**
 Page-table entries of section 4.4 (Sv39) of the RISC-V Privileged Architecture, as page.rs
 builds and reads them. Shifts and masks are written as division and remainder.
 */
module PageEntry {
  import opened Common
  import opened PageAllocator

  const TWO_44 := 0x1000_0000_0000

  function Vpn0(v: nat): (i: nat) ensures i < 512 { v / 0x1000 % 512 }
  function Vpn1(v: nat): (i: nat) ensures i < 512 { v / 0x20_0000 % 512 }
  function Vpn2(v: nat): (i: nat) ensures i < 512 { v / 0x4000_0000 % 512 }

  predicate IsValid(e: nat) { e % 2 == 1 }
  predicate IsLeaf(e: nat) { e / 2 % 8 != 0 }

  /** x | m for a single bit m. */
  function OrBit(x: nat, m: nat): nat
    requires m > 0
  {
    if x / m % 2 == 1 then x else x + m
  }

  /** The entry that points at a next-level table. */
  function BranchEntry(addr: nat): nat { OrBit(addr / 4, 1) }

  /** (entry & !0x3ff) << 2 */
  function TableAddr(e: nat): nat { e / 1024 * 4096 }

  function LeafFlags(bits: nat): nat
  {
    OrBit(OrBit(OrBit(bits, 1), 0x80), 0x40)
  }

  /** The fields PPN[2], PPN[1], PPN[0] and the flag bits occupy disjoint bit ranges. */
  function LeafEntry(paddr: nat, bits: nat): nat
  {
    paddr / 0x4000_0000 % 0x400_0000 * 0x1000_0000
    + paddr / 0x20_0000 % 512 * 0x8_0000
    + paddr / 0x1000 % 512 * 0x400
    + LeafFlags(bits)
  }

  /** The value of bit i, for the ten flag bits. */
  function Weight(i: nat): (w: nat)
    ensures w > 0
  {
    if i == 0 then 1 else 2 * Weight(i - 1)
  }

  function BitOf(x: nat, i: nat): nat { x / Weight(i) % 2 }

  /** The permission bits map accepts: inside the flag field, and at least one of R, W, X. */
  predicate LeafBits(bits: nat) { bits < 1024 && bits / 2 % 8 != 0 }

  lemma {:induction false} BranchDecodes(addr: nat)
    requires addr % 4096 == 0
    ensures IsValid(BranchEntry(addr)) && !IsLeaf(BranchEntry(addr)) && TableAddr(BranchEntry(addr)) == addr
    ensures BranchEntry(addr) / 1024 == addr / 4096 && BranchEntry(addr) % 1024 == 1
  {
    var k := addr / 4096;
    QuotientIs(addr, 4, 1024 * k, 0);
    QuotientIs(1024 * k, 2, 512 * k, 0);
    assert BranchEntry(addr) == 1024 * k + 1;
    QuotientIs(1024 * k + 1, 2, 512 * k, 1);
    QuotientIs(512 * k, 8, 64 * k, 0);
    QuotientIs(1024 * k + 1, 1024, k, 1);
  }

  /** Setting the accessed, dirty and valid bits leaves R, W and X alone. */
  lemma {:induction false} LeafFlagsKeep(bits: nat)
    requires LeafBits(bits)
    ensures LeafFlags(bits) < 1024 && LeafFlags(bits) % 2 == 1 && LeafFlags(bits) / 2 % 8 == bits / 2 % 8
  {
    var a := OrBit(bits, 1);
    var b := OrBit(a, 0x80);
    var c := OrBit(b, 0x40);
    OrBitOne(bits);
    OrBitBounded(a, 0x80, 8);
    OrBitBounded(b, 0x40, 16);
    var j := (c - a) / 64;
    assert c == a + 64 * j;
    AddAbove(a, j);
  }

  lemma {:induction false} OrBitOne(x: nat)
    ensures OrBit(x, 1) % 2 == 1 && OrBit(x, 1) / 2 == x / 2
    ensures x < 1024 ==> OrBit(x, 1) < 1024
  {
  }

  lemma {:induction false} OrBitBounded(x: nat, m: nat, n: nat)
    requires (m == 0x80 && n == 8) || (m == 0x40 && n == 16)
    requires x < m * n
    ensures OrBit(x, m) < m * n && (OrBit(x, m) == x || OrBit(x, m) == x + m)
  {
    if m == 0x80 { assert x < 1024 && x / 128 < 8; } else { assert x < 1024 && x / 64 < 16; }
  }

  lemma {:induction false} AddAbove(a: nat, j: nat)
    ensures (a + 64 * j) % 2 == a % 2 && (a + 64 * j) / 2 % 8 == a / 2 % 8
  {
    var h := a / 2;
    QuotientIs(a + 64 * j, 2, h + 32 * j, a % 2);
    QuotientIs(h + 32 * j, 8, h / 8 + 4 * j, h % 8);
  }

  lemma {:induction false} Split512(p: nat)
    ensures p == p / 0x4_0000 * 0x4_0000 + p / 512 % 512 * 512 + p % 512
  {
    var q := p / 512;
    QuotientIs(p, 0x4_0000, q / 512, q % 512 * 512 + p % 512);
  }

  lemma {:induction false} PpnJoins(paddr: nat)
    ensures paddr / 0x4000_0000 % 0x400_0000 * 0x4_0000 + paddr / 0x20_0000 % 512 * 512 + paddr / 0x1000 % 512
         == paddr / 0x1000 % TWO_44
  {
    var p := paddr / 0x1000;
    DivideTwice(paddr);
    Split512(p);
    var h := p / 0x4_0000;
    var q, r := h / 0x400_0000, h % 0x400_0000;
    QuotientIs(p, 0x1000_0000_0000, q, r * 0x4_0000 + p / 512 % 512 * 512 + p % 512);
  }

  lemma {:induction false} WeightIs(i: nat)
    requires i < 10
    ensures Weight(i) == [1, 2, 4, 8, 16, 32, 64, 128, 256, 512][i]
  {
    if i > 0 { WeightIs(i - 1); }
  }

  lemma {:induction false} WeightTen()
    ensures Weight(10) == 1024
  {
    WeightIs(9);
  }

  lemma {:induction false} WeightSplit(i: nat, j: nat)
    requires i < j
    ensures Weight(j) == 2 * Weight(i) * Weight(j - i - 1)
    decreases j
  {
    if i < j - 1 {
      WeightSplit(i, j - 1);
      DoubleBoth(Weight(i), Weight(j - i - 2));
    }
  }

  lemma {:induction false} DoubleBoth(a: nat, b: nat)
    ensures 2 * (2 * a * b) == 2 * a * (2 * b)
  {
  }

  /** Adding a bit that is not set changes no other. */
  lemma {:induction false} OrBitSets(x: nat, j: nat, i: nat)
    ensures BitOf(OrBit(x, Weight(j)), i) == if i == j then 1 else BitOf(x, i)
  {
    hide Weight;
    var m, w := Weight(j), Weight(i);
    if x / m % 2 == 0 {
      if i < j {
        WeightSplit(i, j);
        LowerBit(x, w, Weight(j - i - 1));
      } else if i == j {
        QuotientIs(x + m, m, x / m + 1, x % m);
      } else {
        WeightSplit(j, i);
        HigherBit(x, m, Weight(i - j - 1));
      }
    }
  }

  lemma {:induction false} LowerBit(x: nat, w: nat, c: nat)
    requires w > 0
    ensures (x + 2 * w * c) / w % 2 == x / w % 2
  {
    assert 2 * w * c == w * (2 * c);
    QuotientIs(x + 2 * w * c, w, x / w + 2 * c, x % w);
    QuotientIs(x / w + 2 * c, 2, x / w / 2 + c, x / w % 2);
  }

  /** Bit m is clear, so adding it carries into none above. */
  lemma {:induction false} HigherBit(x: nat, m: nat, c: nat)
    requires m > 0 && c > 0 && x / m % 2 == 0
    ensures (x + m) / (2 * m * c) == x / (2 * m * c)
  {
    var h, r := x / m / 2, x % m;
    ClearBit(x, m, h, r);
    DivideByProduct(x, 2 * m, c);
    DivideByProduct(x + m, 2 * m, c);
  }

  lemma {:induction false} ClearBit(x: nat, m: nat, h: nat, r: nat)
    requires m > 0 && r < m && x / m == 2 * h && r == x % m
    ensures x / (2 * m) == h && (x + m) / (2 * m) == h
  {
    assert x == m * (2 * h) + r;
    assert m * (2 * h) == 2 * m * h;
    QuotientIs(x, 2 * m, h, r);
    QuotientIs(x + m, 2 * m, h, r + m);
  }

  lemma {:induction false} DivideByProduct(x: nat, w: nat, c: nat)
    requires w > 0 && c > 0
    ensures w * c > 0 && x / (w * c) == x / w / c
  {
    var q, r := x / w, x % w;
    var d, low := w * c, w * (q % c) + r;
    ProductForm(x, w, c, q, r, q / c, q % c);
    QuotientIs(x, d, q / c, low);
  }

  lemma {:induction false} ProductForm(x: nat, w: nat, c: nat, q: nat, r: nat, a: nat, b: nat)
    requires x == w * q + r && r < w && q == c * a + b && b < c
    ensures w * c > 0 && x == w * c * a + (w * b + r) && w * b + r < w * c
  {
    ProductAtMost(w, b + 1, c);
    Spread(w, c, a, b);
  }

  lemma {:induction false} Spread(w: nat, c: nat, a: nat, b: nat)
    ensures w * (c * a + b) == w * c * a + w * b && w * (b + 1) == w * b + w
  {
  }

  lemma {:induction false} ProductAtMost(m: nat, a: nat, b: nat)
    requires a <= b
    ensures m * a <= m * b
  {
    assert m * b - m * a == m * (b - a);
  }

  /** The flags of e are those asked for, with V, A and D set. */
  ghost predicate HasFlags(e: nat, bits: nat)
  {
    forall i :: 0 <= i < 10 ==> BitOf(e, i) == if i == 0 || i == 6 || i == 7 then 1 else BitOf(bits, i)
  }

  lemma {:induction false} LeafHasFlags(paddr: nat, bits: nat)
    requires LeafBits(bits)
    ensures HasFlags(LeafEntry(paddr, bits), bits)
  {
    hide BitOf, LeafEntry;
    forall i: nat | i < 10 ensures BitOf(LeafEntry(paddr, bits), i) == if i == 0 || i == 6 || i == 7 then 1 else BitOf(bits, i) {
      LeafFlagBits(paddr, bits, i);
    }
  }

  /** The flag bits of a leaf entry: V, A and D are set, all others are as asked for. */
  lemma {:induction false} LeafFlagBits(paddr: nat, bits: nat, i: nat)
    requires LeafBits(bits) && i < 10
    ensures BitOf(LeafEntry(paddr, bits), i) == if i == 0 || i == 6 || i == 7 then 1 else BitOf(bits, i)
  {
    hide OrBit, BitOf;
    LeafFlagsKeep(bits);
    PpnJoins(paddr);
    var ppn, f := paddr / 0x1000 % TWO_44, LeafFlags(bits);
    assert LeafEntry(paddr, bits) == ppn * 1024 + f;
    WeightIs(0); WeightIs(6); WeightIs(7);
    OrBitSets(bits, 0, i);
    OrBitSets(OrBit(bits, 1), 7, i);
    OrBitSets(OrBit(OrBit(bits, 1), 0x80), 6, i);
    BelowFrame(ppn, f, i);
  }

  lemma {:induction false} BelowFrame(ppn: nat, f: nat, i: nat)
    requires i < 10
    ensures BitOf(ppn * 1024 + f, i) == BitOf(f, i)
  {
    hide Weight;
    WeightTen();
    WeightSplit(i, 10);
    var w, c := Weight(i), Weight(9 - i);
    LowerBit(f, w, c * ppn);
    assert 2 * w * (c * ppn) == 2 * w * c * ppn;
  }

  lemma {:induction false} LeafDecodes(paddr: nat, bits: nat)
    requires LeafBits(bits)
    ensures IsValid(LeafEntry(paddr, bits)) && IsLeaf(LeafEntry(paddr, bits))
    ensures LeafEntry(paddr, bits) / 1024 == paddr / 0x1000 % TWO_44
    ensures LeafEntry(paddr, bits) < 0x40_0000_0000_0000
  {
    LeafFlagsKeep(bits);
    PpnJoins(paddr);
    var ppn, f := paddr / 0x1000 % TWO_44, LeafFlags(bits);
    assert LeafEntry(paddr, bits) == ppn * 1024 + f;
    FieldsRead(ppn, f);
  }

  lemma {:induction false} FieldsRead(ppn: nat, f: nat)
    requires f < 1024
    ensures (ppn * 1024 + f) / 1024 == ppn
    ensures (ppn * 1024 + f) % 2 == f % 2 && (ppn * 1024 + f) / 2 % 8 == f / 2 % 8
  {
    var h := f / 2;
    QuotientIs(ppn * 1024 + f, 1024, ppn, f);
    QuotientIs(ppn * 1024 + f, 2, 512 * ppn + h, f % 2);
    QuotientIs(512 * ppn + h, 8, 64 * ppn + h / 8, h % 8);
  }

  lemma {:induction false} DivideTwice(v: nat)
    ensures v / 0x20_0000 == v / 0x1000 / 512 && v / 0x4000_0000 == v / 0x1000 / 0x4_0000
  {
    var p := v / 0x1000;
    QuotientIs(v, 0x20_0000, p / 512, p % 512 * 0x1000 + v % 0x1000);
    QuotientIs(v, 0x4000_0000, p / 0x4_0000, p % 0x4_0000 * 0x1000 + v % 0x1000);
  }

  lemma {:induction false} LowPart(p: nat, h: nat, low: nat)
    requires p == h * 0x4_0000 + low && low < 0x4_0000
    ensures p % 0x800_0000 == h % 512 * 0x4_0000 + low
  {
    QuotientIs(p, 0x800_0000, h / 512, h % 512 * 0x4_0000 + low);
  }

  /** The index triple of an address stands for exactly its bits 38:12. */
  lemma {:induction false} VpnJoins(v: nat)
    ensures Vpn2(v) * 0x4_0000 + Vpn1(v) * 512 + Vpn0(v) == v / 0x1000 % 0x800_0000
  {
    var p := v / 0x1000;
    DivideTwice(v);
    Split512(p);
    LowPart(p, p / 0x4_0000, p / 512 % 512 * 512 + p % 512);
  }

  lemma {:induction false} VpnsArePage(v: nat, u: nat)
    ensures Vpn2(v) == Vpn2(u) && Vpn1(v) == Vpn1(u) && Vpn0(v) == Vpn0(u)
            <==> v / 0x1000 % 0x800_0000 == u / 0x1000 % 0x800_0000
  {
    VpnJoins(v);
    VpnJoins(u);
  }
}

/** The three-level tree that a root table and the frames below it spell out in memory. */
module PageTree {
  import opened Common
  import opened PageAllocator
  import opened PageEntry

  type Key2 = (nat, nat)
  type Key3 = (nat, nat, nat)

  /**
   root: the frame of the root table; l1: its tables by index; l0: the tables below them;
   leaves: the leaf entries, by VPN[2], VPN[1], VPN[0].
   */
  datatype Tree = Tree(root: nat, l1: map<nat, nat>, l0: map<Key2, nat>, leaves: map<Key3, nat>)

  function EmptyTree(root: nat): Tree { Tree(root, map[], map[], map[]) }

  function KeyOf(v: nat): Key3 { (Vpn2(v), Vpn1(v), Vpn0(v)) }

  /** The frames of all tables below the root. */
  function Tables(t: Tree): set<nat> { t.l1.Values + t.l0.Values }

  /** A valid leaf whose reserved top bits are clear. */
  predicate LeafWord(e: nat) { IsValid(e) && IsLeaf(e) && e < 0x40_0000_0000_0000 }

  predicate Shape(t: Tree)
  {
    && (forall a :: a in t.l1 ==> a < 512)
    && (forall k :: k in t.l0 ==> k.0 in t.l1 && k.1 < 512)
    && (forall k :: k in t.leaves ==> (k.0, k.1) in t.l0 && k.2 < 512 && LeafWord(t.leaves[k]))
  }

  /** All tables sit in different frames. */
  predicate Separate(t: Tree)
  {
    && t.root !in Tables(t)
    && t.l1.Values !! t.l0.Values
    && (forall a, b :: a in t.l1 && b in t.l1 && a != b ==> t.l1[a] != t.l1[b])
    && (forall k, m :: k in t.l0 && m in t.l0 && k != m ==> t.l0[k] != t.l0[m])
  }

  function Branch(base: nat, f: nat): nat { BranchEntry(base + PAGE_SIZE * f) }

  lemma {:induction false} BranchIs(base: nat, f: nat)
    requires base % 4096 == 0
    ensures IsValid(Branch(base, f)) && !IsLeaf(Branch(base, f))
  {
    BranchDecodes(base + PAGE_SIZE * f);
  }

  predicate RootHolds(mem: seq<Frame>, base: nat, t: Tree)
  {
    && t.root < |mem|
    && forall i :: 0 <= i < 512 ==> mem[t.root][i] == if i in t.l1 then Branch(base, t.l1[i]) else 0
  }

  predicate MidHolds(mem: seq<Frame>, base: nat, t: Tree)
  {
    && (forall a :: a in t.l1 ==> t.l1[a] < |mem|)
    && forall a, i :: a in t.l1 && 0 <= i < 512 ==>
         mem[t.l1[a]][i] == if (a, i) in t.l0 then Branch(base, t.l0[(a, i)]) else 0
  }

  predicate LowHolds(mem: seq<Frame>, t: Tree)
  {
    && (forall k :: k in t.l0 ==> t.l0[k] < |mem|)
    && forall k, i :: k in t.l0 && 0 <= i < 512 ==>
         mem[t.l0[k]][i] == if (k.0, k.1, i) in t.leaves then t.leaves[(k.0, k.1, i)] else 0
  }

  ghost predicate Represents(mem: seq<Frame>, base: nat, t: Tree)
  {
    Shape(t) && Separate(t) && RootHolds(mem, base, t) && MidHolds(mem, base, t) && LowHolds(mem, t)
  }

  // ---------------------------------------------------------------- growing the tree

  function AddMid(t: Tree, a: nat, f: nat): Tree { t.(l1 := t.l1[a := f]) }

  function AddLow(t: Tree, k: Key2, f: nat): Tree { t.(l0 := t.l0[k := f]) }

  function SetLeaf(t: Tree, k: Key3, e: nat): Tree { t.(leaves := t.leaves[k := e]) }

  lemma {:induction false} AddMidTables(t: Tree, a: nat, f: nat)
    requires a !in t.l1
    ensures Tables(AddMid(t, a, f)) == Tables(t) + {f}
  {
    var t' := AddMid(t, a, f);
    assert t'.l1[a] == f;
    assert forall b :: b in t.l1 ==> t'.l1[b] == t.l1[b];
    assert t'.l1.Values == t.l1.Values + {f};
  }

  lemma {:induction false} AddLowTables(t: Tree, k: Key2, f: nat)
    requires k !in t.l0
    ensures Tables(AddLow(t, k, f)) == Tables(t) + {f}
  {
    var t' := AddLow(t, k, f);
    assert t'.l0[k] == f;
    assert forall m :: m in t.l0 ==> t'.l0[m] == t.l0[m];
    assert t'.l0.Values == t.l0.Values + {f};
  }

  /** Every frame but f and g is as before. */
  predicate SameBut(mem: seq<Frame>, mem': seq<Frame>, f: nat, g: nat)
  {
    |mem'| == |mem| && forall h :: 0 <= h < |mem| && h != f && h != g ==> mem'[h] == mem[h]
  }

  /** Frame g is as before except for word w, which is e. */
  predicate WordSet(mem: seq<Frame>, mem': seq<Frame>, g: nat, w: nat, e: Word)
  {
    && g < |mem| == |mem'|
    && forall i :: 0 <= i < 512 ==> mem'[g][i] == if i == w then e else mem[g][i]
  }

  lemma {:induction false} RootKept(mem: seq<Frame>, mem': seq<Frame>, base: nat, t: Tree)
    requires RootHolds(mem, base, t) && |mem| == |mem'| && mem'[t.root] == mem[t.root]
    ensures RootHolds(mem', base, t)
  {
  }

  lemma {:induction false} MidKept(mem: seq<Frame>, mem': seq<Frame>, base: nat, t: Tree, f: nat, g: nat)
    requires MidHolds(mem, base, t) && SameBut(mem, mem', f, g) && f !in t.l1.Values && g !in t.l1.Values
    ensures MidHolds(mem', base, t)
  {
    assert forall a :: a in t.l1 ==> t.l1[a] in t.l1.Values;
  }

  lemma {:induction false} LowKept(mem: seq<Frame>, mem': seq<Frame>, t: Tree, f: nat, g: nat)
    requires LowHolds(mem, t) && SameBut(mem, mem', f, g) && f !in t.l0.Values && g !in t.l0.Values
    ensures LowHolds(mem', t)
  {
    assert forall k :: k in t.l0 ==> t.l0[k] in t.l0.Values;
  }

  lemma {:induction false} AddMidSeparate(t: Tree, a: nat, f: nat)
    requires Shape(t) && Separate(t) && a < 512 && a !in t.l1 && f != t.root && f !in Tables(t)
    ensures Shape(AddMid(t, a, f)) && Separate(AddMid(t, a, f))
  {
    AddMidTables(t, a, f);
    assert AddMid(t, a, f).l1.Values <= t.l1.Values + {f};
    assert forall b :: b in t.l1 ==> t.l1[b] in t.l1.Values;
  }

  lemma {:induction false} AddLowSeparate(t: Tree, k: Key2, f: nat)
    requires Shape(t) && Separate(t) && k.0 in t.l1 && k.1 < 512 && k !in t.l0 && f != t.root && f !in Tables(t)
    ensures Shape(AddLow(t, k, f)) && Separate(AddLow(t, k, f))
  {
    AddLowTables(t, k, f);
    assert AddLow(t, k, f).l0.Values <= t.l0.Values + {f};
    assert forall m :: m in t.l0 ==> t.l0[m] in t.l0.Values;
  }

  /** A fresh zeroed frame hooked into the root. */
  lemma {:induction false} AddMidHolds(mem: seq<Frame>, mem': seq<Frame>, base: nat, t: Tree, a: nat, f: nat, e: Word)
    requires Represents(mem, base, t) && a < 512 && a !in t.l1
    requires f < |mem| == |mem'| && f != t.root && f !in Tables(t) && e == Branch(base, f)
    requires mem'[f] == ZeroFrame && WordSet(mem, mem', t.root, a, e) && SameBut(mem, mem', f, t.root)
    ensures Represents(mem', base, AddMid(t, a, f))
  {
    AddMidSeparate(t, a, f);
    MidKept(mem, mem', base, t, f, t.root);
    LowKept(mem, mem', t, f, t.root);
    NewMid(mem', base, t, a, f);
  }

  lemma {:induction false} NewMid(mem: seq<Frame>, base: nat, t: Tree, a: nat, f: nat)
    requires MidHolds(mem, base, t) && Shape(t) && a !in t.l1 && f < |mem| && mem[f] == ZeroFrame
    ensures MidHolds(mem, base, AddMid(t, a, f))
  {
  }

  /** A fresh zeroed frame hooked into a level-1 table. */
  lemma {:induction false} AddLowHolds(mem: seq<Frame>, mem': seq<Frame>, base: nat, t: Tree, k: Key2, f: nat, e: Word)
    requires Represents(mem, base, t) && k.0 in t.l1 && k.1 < 512 && k !in t.l0
    requires f < |mem| == |mem'| && f != t.root && f !in Tables(t) && e == Branch(base, f)
    requires mem'[f] == ZeroFrame && WordSet(mem, mem', t.l1[k.0], k.1, e) && SameBut(mem, mem', f, t.l1[k.0])
    ensures Represents(mem', base, AddLow(t, k, f))
  {
    AddLowSeparate(t, k, f);
    assert t.l1[k.0] in t.l1.Values;
    RootKept(mem, mem', base, t);
    LowKept(mem, mem', t, f, t.l1[k.0]);
    NewLow(mem', t, k, f);
    MidGains(mem, mem', base, t, k, f, e);
  }

  lemma {:induction false} NewLow(mem: seq<Frame>, t: Tree, k: Key2, f: nat)
    requires LowHolds(mem, t) && Shape(t) && k !in t.l0 && f < |mem| && mem[f] == ZeroFrame
    ensures LowHolds(mem, AddLow(t, k, f))
  {
  }

  lemma {:induction false} MidGains(mem: seq<Frame>, mem': seq<Frame>, base: nat, t: Tree, k: Key2, f: nat, e: Word)
    requires Shape(t) && Separate(t) && MidHolds(mem, base, t) && k.0 in t.l1 && k.1 < 512 && e == Branch(base, f)
    requires f !in t.l1.Values && WordSet(mem, mem', t.l1[k.0], k.1, e) && SameBut(mem, mem', f, t.l1[k.0])
    ensures MidHolds(mem', base, AddLow(t, k, f))
  {
    var t' := AddLow(t, k, f);
    forall a, i | a in t.l1 && 0 <= i < 512
      ensures mem'[t.l1[a]][i] == if (a, i) in t'.l0 then Branch(base, t'.l0[(a, i)]) else 0
    {
      assert t.l1[a] in t.l1.Values;
      if a != k.0 { assert mem'[t.l1[a]] == mem[t.l1[a]]; }
    }
  }

  /** A leaf entry written into a level-0 table. */
  lemma {:induction false} SetLeafHolds(mem: seq<Frame>, mem': seq<Frame>, base: nat, t: Tree, k: Key3, e: Word)
    requires Represents(mem, base, t) && (k.0, k.1) in t.l0 && k.2 < 512 && LeafWord(e)
    requires var g := t.l0[(k.0, k.1)]; WordSet(mem, mem', g, k.2, e) && SameBut(mem, mem', g, g)
    ensures Represents(mem', base, SetLeaf(t, k, e))
  {
    var g := t.l0[(k.0, k.1)];
    assert g in t.l0.Values;
    RootKept(mem, mem', base, t);
    MidKept(mem, mem', base, t, g, g);
    LowGains(mem, mem', t, k, e);
  }

  lemma {:induction false} LowGains(mem: seq<Frame>, mem': seq<Frame>, t: Tree, k: Key3, e: Word)
    requires Separate(t) && LowHolds(mem, t) && (k.0, k.1) in t.l0 && k.2 < 512
    requires var g := t.l0[(k.0, k.1)]; WordSet(mem, mem', g, k.2, e) && SameBut(mem, mem', g, g)
    ensures LowHolds(mem', SetLeaf(t, k, e))
  {
    var t' := SetLeaf(t, k, e);
    forall m, i | m in t.l0 && 0 <= i < 512
      ensures mem'[t.l0[m]][i] == if (m.0, m.1, i) in t'.leaves then t'.leaves[(m.0, m.1, i)] else 0
    {
      if m != (k.0, k.1) { assert mem'[t.l0[m]] == mem[t.l0[m]]; }
    }
  }

  // ---------------------------------------------------------------- reading and tearing down

  /** The entry a walk for key k meets at each level, as long as it gets there. */
  function EntryAt(base: nat, t: Tree, level: nat, k: Key3): nat
  {
    if level == 2 then (if k.0 in t.l1 then Branch(base, t.l1[k.0]) else 0)
    else if level == 1 then (if (k.0, k.1) in t.l0 then Branch(base, t.l0[(k.0, k.1)]) else 0)
    else if k in t.leaves then t.leaves[k] else 0
  }

  /** What the frames freed look like when unmap has passed root entries below n and, in entry n, entries below m. */
  function Done(t: Tree, n: nat, m: nat): set<nat>
  {
    (set a | a in t.l1 && a < n :: t.l1[a])
    + (set k | k in t.l0 && (k.0 < n || (k.0 == n && k.1 < m)) :: t.l0[k])
  }

  lemma {:induction false} DoneStart(t: Tree)
    ensures Done(t, 0, 0) == {}
  {
  }

  lemma {:induction false} DoneAll(t: Tree)
    requires Shape(t)
    ensures Done(t, 512, 0) == Tables(t)
  {
    forall f | f in Tables(t) ensures f in Done(t, 512, 0) {
      if f in t.l1.Values {
        var a :| a in t.l1 && t.l1[a] == f;
        assert a < 512;
      } else {
        var k :| k in t.l0 && t.l0[k] == f;
        assert k.0 in t.l1;
      }
    }
  }

  lemma {:induction false} DoneLow(t: Tree, n: nat, m: nat)
    requires Shape(t) && Separate(t)
    ensures (n, m) in t.l0 ==> t.l0[(n, m)] !in Done(t, n, m) && Done(t, n, m + 1) == Done(t, n, m) + {t.l0[(n, m)]}
    ensures (n, m) !in t.l0 ==> Done(t, n, m + 1) == Done(t, n, m)
  {
    assert forall k :: k in t.l0 && k.0 == n && k.1 == m ==> k == (n, m);
    if (n, m) in t.l0 {
      assert t.l0[(n, m)] in t.l0.Values;
      assert forall a :: a in t.l1 ==> t.l1[a] in t.l1.Values;
    }
  }

  lemma {:induction false} DoneMid(t: Tree, n: nat)
    requires Shape(t) && Separate(t)
    ensures n in t.l1 ==> t.l1[n] !in Done(t, n, 512) && Done(t, n + 1, 0) == Done(t, n, 512) + {t.l1[n]}
    ensures n !in t.l1 ==> Done(t, n + 1, 0) == Done(t, n, 0)
  {
    assert forall k :: k in t.l0 ==> t.l0[k] in t.l0.Values && k.1 < 512 && k.0 in t.l1;
    if n in t.l1 {
      assert t.l1[n] in t.l1.Values;
    }
  }
}

/** map, virt_to_phys and unmap of page.rs, for 4096-byte pages (level 0). */
module Sv39 {
  import opened Common
  import opened PageTableRuns
  import opened PageAllocator
  import opened PageEntry
  import opened PageTree

  /** Every table of t, and its root, is a live one-page allocation. */
  ghost predicate Owns(runs: Runs, t: Tree)
  {
    forall f :: f in Tables(t) + {t.root} ==> f in runs && runs[f] == 1
  }

  /** The allocations that are not tables below the root of t. */
  function Others(runs: Runs, t: Tree): Runs { runs - Tables(t) }

  /** The allocations that are not tables of t at all, root included. */
  function Data(runs: Runs, t: Tree): Runs { Others(runs, t) - {t.root} }

  ghost predicate Mapped(pg: Pages, t: Tree)
    reads pg, pg.desc, pg.mem
  {
    pg.Valid() && Represents(pg.mem[..], pg.allocStart, t) && Owns(pg.runs, t)
  }

  /** What a lookup yields: the frame named by the leaf, with the page offset kept. */
  function Translate(t: Tree, vaddr: nat): Option<nat>
  {
    LeafLookup(t.leaves, vaddr)
  }

  function Vpn(v: nat, level: nat): (i: nat)
    ensures i < 512
  {
    if level == 2 then Vpn2(v) else if level == 1 then Vpn1(v) else Vpn0(v)
  }

  /** The frame of the table that a branch entry points at. */
  function NextFrame(base: nat, e: nat): int { (TableAddr(e) - base) / PAGE_SIZE }

  /** The frame that holds the entry for key k at a level, once the walk has got there. */
  function FrameAt(t: Tree, level: nat, k: Key3): nat
    requires level < 2 ==> k.0 in t.l1
    requires level < 1 ==> (k.0, k.1) in t.l0
  {
    if level >= 2 then t.root else if level == 1 then t.l1[k.0] else t.l0[(k.0, k.1)]
  }

  lemma {:induction false} EntryHolds(mem: seq<Frame>, base: nat, t: Tree, level: nat, v: nat)
    requires Represents(mem, base, t) && level <= 2
    requires level < 2 ==> Vpn2(v) in t.l1
    requires level < 1 ==> (Vpn2(v), Vpn1(v)) in t.l0
    ensures var f := FrameAt(t, level, KeyOf(v));
            f < |mem| && mem[f][Vpn(v, level)] == EntryAt(base, t, level, KeyOf(v))
  {
  }

  /** Loads the entry for vaddr from the table of a level. */
  method Load(pg: Pages, f: nat, level: nat, vaddr: nat, ghost t: Tree) returns (e: Word)
    requires Mapped(pg, t) && level <= 2
    requires level < 2 ==> Vpn2(vaddr) in t.l1
    requires level < 1 ==> (Vpn2(vaddr), Vpn1(vaddr)) in t.l0
    requires f == FrameAt(t, level, KeyOf(vaddr))
    ensures e == EntryAt(pg.allocStart, t, level, KeyOf(vaddr))
  {
    EntryHolds(pg.mem[..], pg.allocStart, t, level, vaddr);
    e := pg.mem[f][Vpn(vaddr, level)];
  }

  method VirtToPhys(pg: Pages, root: nat, vaddr: nat, ghost t: Tree) returns (r: Option<nat>)
    requires Mapped(pg, t) && t.root == root
    ensures r == Translate(t, vaddr)
  {
    hide EntryAt, IsValid, IsLeaf, LeafPhys, RootHolds, MidHolds, LowHolds, Separate, Denotes;
    ghost var k, base := KeyOf(vaddr), pg.allocStart;
    var e := Load(pg, root, 2, vaddr, t);
    for i := 3 downto 0
      invariant 0 < i && e == EntryAt(base, t, i - 1, k)
      invariant i < 3 ==> k.0 in t.l1
      invariant i < 2 ==> (k.0, k.1) in t.l0
    {
      if !IsValid(e) {
        InvalidMeansUnmapped(base, t, i, k);
        return None;
      } else if IsLeaf(e) {
        LeafOnlyAtBottom(base, t, i, k, vaddr);
        return Some(LeafPhys(e, i, vaddr));
      }
      // The walk never gets here at level 0, where there is no vpn[i - 1].
      BranchOnlyAbove(base, t, i, k);
      assert i > 0;
      e := Load(pg, NextFrame(pg.allocStart, e), i - 1, vaddr, t);
    }
    return None;
  }

  /** The physical address under a leaf found at a level: its frame bits, then the address's own. */
  function LeafPhys(e: nat, level: nat, vaddr: nat): nat
  {
    var span := if level == 0 then 0x1000 else if level == 1 then 0x20_0000 else 0x4000_0000;
    e * 4 / span * span + vaddr % span
  }

  lemma {:induction false} LeafAddress(e: nat, vaddr: nat)
    ensures LeafPhys(e, 0, vaddr) == e / 1024 * 4096 + vaddr % 4096
  {
    QuotientIs(e * 4, 0x1000, e / 1024, e % 1024 * 4);
  }

  lemma {:induction false} LeafOnlyAtBottom(base: nat, t: Tree, i: nat, k: Key3, vaddr: nat)
    requires base % 4096 == 0 && i <= 2 && IsLeaf(EntryAt(base, t, i, k))
    ensures i == 0 && k in t.leaves && EntryAt(base, t, i, k) == t.leaves[k] && LeafPhys(t.leaves[k], 0, vaddr) == t.leaves[k] / 1024 * 4096 + vaddr % 4096
  {
    BranchesAreNotLeaves(base, t, k);
    if k in t.leaves { LeafAddress(t.leaves[k], vaddr); }
  }

  lemma {:induction false} BranchesAreNotLeaves(base: nat, t: Tree, k: Key3)
    requires base % 4096 == 0
    ensures !IsLeaf(EntryAt(base, t, 2, k)) && !IsLeaf(EntryAt(base, t, 1, k))
  {
    if k.0 in t.l1 { BranchIs(base, t.l1[k.0]); }
    if (k.0, k.1) in t.l0 { BranchIs(base, t.l0[(k.0, k.1)]); }
  }

  lemma {:induction false} InvalidMeansUnmapped(base: nat, t: Tree, i: nat, k: Key3)
    requires Shape(t) && base % 4096 == 0 && i <= 2 && !IsValid(EntryAt(base, t, i, k))
    ensures k !in t.leaves
  {
    if i == 2 {
      if k.0 in t.l1 { BranchIs(base, t.l1[k.0]); }
    } else if i == 1 {
      if (k.0, k.1) in t.l0 { BranchIs(base, t.l0[(k.0, k.1)]); }
    }
  }

  lemma {:induction false} BranchFrame(base: nat, f: nat)
    requires base % 4096 == 0
    ensures NextFrame(base, Branch(base, f)) == f
  {
    BranchDecodes(base + PAGE_SIZE * f);
  }

  lemma {:induction false} BranchOnlyAbove(base: nat, t: Tree, i: nat, k: Key3)
    requires Shape(t) && base % 4096 == 0 && i <= 2
    requires IsValid(EntryAt(base, t, i, k)) && !IsLeaf(EntryAt(base, t, i, k))
    ensures i > 0
    ensures i == 2 ==> k.0 in t.l1 && NextFrame(base, EntryAt(base, t, i, k)) == FrameAt(t, 1, k)
    ensures i == 1 && k.0 in t.l1 ==> (k.0, k.1) in t.l0 && NextFrame(base, EntryAt(base, t, i, k)) == FrameAt(t, 0, k)
  {
    if k.0 in t.l1 { BranchFrame(base, t.l1[k.0]); }
    if (k.0, k.1) in t.l0 { BranchFrame(base, t.l0[(k.0, k.1)]); }
  }

  // ---------------------------------------------------------------- map

  /** All frames that are not tables of t are as in mem. */
  predicate KeepsRest(mem: seq<Frame>, mem': seq<Frame>, t: Tree)
  {
    |mem'| == |mem| && forall g :: 0 <= g < |mem| && g !in Tables(t) && g != t.root ==> mem'[g] == mem[g]
  }

  /** The tree after a table in frame f has been hooked in where the walk for v stops at a level. */
  function Hook(t: Tree, level: nat, v: nat, f: nat): Tree
  {
    if level == 2 then AddMid(t, Vpn2(v), f) else AddLow(t, (Vpn2(v), Vpn1(v)), f)
  }

  lemma {:induction false} HookHolds(mem: seq<Frame>, mem': seq<Frame>, base: nat, t: Tree, level: nat, v: nat, f: nat, e: Word)
    requires Represents(mem, base, t) && 1 <= level <= 2
    requires if level == 2 then Vpn2(v) !in t.l1 else Vpn2(v) in t.l1 && (Vpn2(v), Vpn1(v)) !in t.l0
    requires f < |mem| == |mem'| && f != t.root && f !in Tables(t) && e == Branch(base, f)
    requires var g := FrameAt(t, level, KeyOf(v));
             mem'[f] == ZeroFrame && WordSet(mem, mem', g, Vpn(v, level), e) && SameBut(mem, mem', f, g)
    ensures Represents(mem', base, Hook(t, level, v, f))
  {
    if level == 2 {
      AddMidHolds(mem, mem', base, t, Vpn2(v), f, e);
    } else {
      AddLowHolds(mem, mem', base, t, (Vpn2(v), Vpn1(v)), f, e);
    }
  }

  lemma {:induction false} HookTables(mem: seq<Frame>, mem': seq<Frame>, t: Tree, level: nat, v: nat, f: nat)
    requires 1 <= level <= 2
    requires if level == 2 then Vpn2(v) !in t.l1 else Vpn2(v) in t.l1 && (Vpn2(v), Vpn1(v)) !in t.l0
    requires SameBut(mem, mem', f, FrameAt(t, level, KeyOf(v)))
    ensures Tables(Hook(t, level, v, f)) == Tables(t) + {f}
    ensures KeepsRest(mem, mem', Hook(t, level, v, f))
  {
    if level == 2 {
      AddMidTables(t, Vpn2(v), f);
    } else {
      AddLowTables(t, (Vpn2(v), Vpn1(v)), f);
      assert t.l1[Vpn2(v)] in Tables(t);
    }
  }

  lemma {:induction false} AttachHolds(mem: seq<Frame>, mid: seq<Frame>, mem': seq<Frame>, base: nat, runs: Runs,
                                       t: Tree, level: nat, v: nat, i: nat, e: Word)
    requires Represents(mem, base, t) && Owns(runs, t) && 1 <= level <= 2 && i !in runs
    requires if level == 2 then Vpn2(v) !in t.l1 else Vpn2(v) in t.l1 && (Vpn2(v), Vpn1(v)) !in t.l0
    requires i < |mem| == |mid| && mid[i] == ZeroFrame && SameBut(mem, mid, i, i) && e == Branch(base, i)
    requires var g := FrameAt(t, level, KeyOf(v)); WordSet(mid, mem', g, Vpn(v, level), e) && SameBut(mid, mem', g, g)
    ensures Represents(mem', base, Hook(t, level, v, i)) && Owns(runs[i := 1], Hook(t, level, v, i))
    ensures Tables(Hook(t, level, v, i)) == Tables(t) + {i} && KeepsRest(mem, mem', Hook(t, level, v, i))
    ensures Others(runs[i := 1], Hook(t, level, v, i)) == Others(runs, t)
  {
    FrameAtOwned(runs, t, level, v);
    StoreAfterZero(mem, mid, mem', i, FrameAt(t, level, KeyOf(v)), Vpn(v, level), e);
    HookHolds(mem, mem', base, t, level, v, i, e);
    HookTables(mem, mem', t, level, v, i);
    HookOwns(runs, t, Hook(t, level, v, i), i);
  }

  lemma {:induction false} HookPlaceIsEmpty(base: nat, t: Tree, level: nat, v: nat)
    requires base % 4096 == 0 && !IsValid(EntryAt(base, t, level, KeyOf(v))) && 1 <= level <= 2
    ensures level == 2 ==> Vpn2(v) !in t.l1
    ensures level == 1 ==> (Vpn2(v), Vpn1(v)) !in t.l0
  {
    if Vpn2(v) in t.l1 { BranchIs(base, t.l1[Vpn2(v)]); }
    if (Vpn2(v), Vpn1(v)) in t.l0 { BranchIs(base, t.l0[(Vpn2(v), Vpn1(v))]); }
  }

  lemma {:induction false} HookOwns(runs: Runs, t: Tree, t': Tree, f: nat)
    requires Owns(runs, t) && f !in runs && t'.root == t.root && Tables(t') == Tables(t) + {f}
    ensures Owns(runs[f := 1], t') && Others(runs[f := 1], t') == Others(runs, t)
  {
  }

  /** How many tables are to be made for the entry for v at a level to point at one. */
  function Missing(t: Tree, level: nat, v: nat): nat
  {
    if level == 2 then (if Vpn2(v) in t.l1 then 0 else 1)
    else if (Vpn2(v), Vpn1(v)) in t.l0 then 0 else 1
  }

  /** t' is t with a table for v below a level, and no other that t has not. */
  predicate HasTable(t: Tree, level: nat, v: nat, t': Tree)
  {
    if level == 2 then t'.l1.Keys == t.l1.Keys + {Vpn2(v)} && t'.l0 == t.l0
    else t'.l1 == t.l1 && t'.l0.Keys == t.l0.Keys + {(Vpn2(v), Vpn1(v))}
  }

  /** Makes sure the entry for vaddr at a level points at a table, taking a zeroed page if it must. */
  method Grow(pg: Pages, f: nat, level: nat, vaddr: nat, ghost t: Tree) returns (ok: bool, ghost t': Tree)
    requires Mapped(pg, t) && 1 <= level <= 2 && (level == 1 ==> Vpn2(vaddr) in t.l1)
    requires f == FrameAt(t, level, KeyOf(vaddr))
    modifies pg`runs, pg.desc, pg.mem
    ensures Mapped(pg, t') && t'.root == t.root && t'.leaves == t.leaves
    ensures Others(pg.runs, t') == Others(old(pg.runs), t) && KeepsRest(old(pg.mem[..]), pg.mem[..], t')
    ensures Tables(t) <= Tables(t')
    ensures ok ==> HasTable(t, level, vaddr, t')
    ensures ok <==> Missing(t, level, vaddr) <= Spare(old(pg.desc[..]))
    ensures Spare(pg.desc[..]) == if ok then Spare(old(pg.desc[..])) - Missing(t, level, vaddr) else 0
    ensures !ok ==> t' == t
  {
    hide Spare, RootHolds, MidHolds, LowHolds, Separate, Denotes, Vpn2, Vpn1;
    ghost var mem := pg.mem[..];
    EntryHolds(mem, pg.allocStart, t, level, vaddr);
    var e := Load(pg, f, level, vaddr, t);
    if IsValid(e) {
      if !IsLeaf(e) { BranchOnlyAbove(pg.allocStart, t, level, KeyOf(vaddr)); }
      BranchesAreNotLeaves(pg.allocStart, t, KeyOf(vaddr));
      return true, t;
    }
    HookPlaceIsEmpty(pg.allocStart, t, level, vaddr);
    ghost var i;
    ok, i := Attach(pg, f, level, vaddr, t);
    t' := if ok then Hook(t, level, vaddr, i) else t;
  }

  /** Takes a zeroed page, in frame i, and stores its address as a branch entry. */
  method Attach(pg: Pages, f: nat, level: nat, vaddr: nat, ghost t: Tree) returns (ok: bool, ghost i: nat)
    requires Mapped(pg, t) && 1 <= level <= 2 && (level == 1 ==> Vpn2(vaddr) in t.l1)
    requires f == FrameAt(t, level, KeyOf(vaddr)) && f < pg.mem.Length
    requires if level == 2 then Vpn2(vaddr) !in t.l1 else (Vpn2(vaddr), Vpn1(vaddr)) !in t.l0
    modifies pg`runs, pg.desc, pg.mem
    ensures ok ==> Mapped(pg, Hook(t, level, vaddr, i)) && Tables(Hook(t, level, vaddr, i)) == Tables(t) + {i}
    ensures ok ==> KeepsRest(old(pg.mem[..]), pg.mem[..], Hook(t, level, vaddr, i))
    ensures ok ==> Others(pg.runs, Hook(t, level, vaddr, i)) == Others(old(pg.runs), t)
    ensures !ok ==> Mapped(pg, t) && pg.mem[..] == old(pg.mem[..]) && pg.runs == old(pg.runs)
    ensures ok <==> 0 < Spare(old(pg.desc[..]))
    ensures Spare(pg.desc[..]) == if ok then Spare(old(pg.desc[..])) - 1 else 0
  {
    hide Spare, Took, Kept, Represents, Denotes, WordSet, SameBut, KeepsRest, Others, Owns, Hook, Tables, FrameAt;
    ghost var mem, runs := pg.mem[..], pg.runs;
    var page;
    page, i := ZeroedPage(pg);
    ok := page != 0;
    if ok {
      ghost var mid := pg.mem[..];
      var e: Word := BranchEntry(page);
      StoreWord(pg, f, Vpn(vaddr, level), e);
      AttachHolds(mem, mid, pg.mem[..], pg.allocStart, runs, t, level, vaddr, i, e);
    }
  }

  lemma {:induction false} FrameAtOwned(runs: Runs, t: Tree, level: nat, v: nat)
    requires Owns(runs, t) && (level < 2 ==> Vpn2(v) in t.l1) && (level < 1 ==> (Vpn2(v), Vpn1(v)) in t.l0)
    ensures FrameAt(t, level, KeyOf(v)) in runs
  {
    if level == 1 { assert t.l1[Vpn2(v)] in Tables(t); }
    if level == 0 { assert t.l0[(Vpn2(v), Vpn1(v))] in Tables(t); }
  }

  lemma {:induction false} StoreAfterZero(mem: seq<Frame>, mid: seq<Frame>, mem': seq<Frame>, i: nat, f: nat, w: nat, e: Word)
    requires i < |mid| && mid[i] == ZeroFrame && SameBut(mem, mid, i, i) && f != i
    requires WordSet(mid, mem', f, w, e) && SameBut(mid, mem', f, f)
    ensures mem'[i] == ZeroFrame && WordSet(mem, mem', f, w, e) && SameBut(mem, mem', i, f)
  {
  }

  /** zalloc(1) */
  method ZeroedPage(pg: Pages) returns (page: nat, ghost i: nat)
    requires pg.Valid() && 0 < pg.desc.Length
    modifies pg`runs, pg.desc, pg.mem
    ensures pg.Valid()
    ensures page != 0 ==> i < pg.mem.Length && page == pg.Addr(i) && i !in old(pg.runs) && pg.runs == old(pg.runs)[i := 1]
    ensures page != 0 ==> pg.mem[i] == ZeroFrame && SameBut(old(pg.mem[..]), pg.mem[..], i, i)
    ensures page == 0 ==> pg.runs == old(pg.runs) && pg.desc[..] == old(pg.desc[..]) && pg.mem[..] == old(pg.mem[..])
    ensures Kept(old(pg.runs), old(pg.mem[..]), pg.runs, pg.mem[..])
    ensures page != 0 <==> 0 < Spare(old(pg.desc[..]))
    ensures page != 0 ==> Took(old(pg.desc[..]), pg.desc[..], i, 1)
    ensures Spare(pg.desc[..]) == if page != 0 then Spare(old(pg.desc[..])) - 1 else 0
  {
    hide Kept, Denotes, Spare, Took, Marked;
    ghost var d, mem, runs := pg.desc[..], pg.mem[..], pg.runs;
    NoSpare(d);
    page, i := pg.Zalloc(1);
    if page != 0 {
      LowestIsFound(d, pg.desc[..], i, 1);
      FreshKept(d, runs, i, 1, mem, pg.mem[..]);
    } else {
      KeptSame(runs, mem);
    }
  }

  /** A store of one word into a frame; the descriptors are not concerned. */
  method StoreWord(pg: Pages, f: nat, w: nat, e: Word)
    requires pg.Valid() && f < pg.mem.Length && w < 512
    modifies pg.mem
    ensures pg.Valid() && WordSet(old(pg.mem[..]), pg.mem[..], f, w, e) && SameBut(old(pg.mem[..]), pg.mem[..], f, f)
  {
    pg.mem[f] := pg.mem[f][w := e];
  }

  /** Only tables have been added: leaves, other allocations and other frames are as they were. */
  ghost predicate Grown(mem: seq<Frame>, runs: Runs, t: Tree, mem': seq<Frame>, runs': Runs, t': Tree)
  {
    && t'.root == t.root && t'.leaves == t.leaves && Tables(t) <= Tables(t')
    && Others(runs', t') == Others(runs, t)
    && KeepsRest(mem, mem', t')
  }

  lemma {:induction false} GrownTrans(mem: seq<Frame>, runs: Runs, t: Tree, mid: seq<Frame>, runs1: Runs, u: Tree,
                                      mem': seq<Frame>, runs': Runs, t': Tree)
    requires Grown(mem, runs, t, mid, runs1, u) && Grown(mid, runs1, u, mem', runs', t')
    ensures Grown(mem, runs, t, mem', runs', t')
  {
    KeepsRestTrans(mem, mid, mem', u, t');
  }

  /** One turn of the loop of map: from the table of a level to the table below it. */
  method Descend(pg: Pages, f: nat, level: nat, vaddr: nat, ghost t: Tree) returns (ok: bool, f': nat, ghost t': Tree)
    requires Mapped(pg, t) && 1 <= level <= 2 && (level == 1 ==> Vpn2(vaddr) in t.l1)
    requires f == FrameAt(t, level, KeyOf(vaddr))
    modifies pg`runs, pg.desc, pg.mem
    ensures Mapped(pg, t') && Grown(old(pg.mem[..]), old(pg.runs), t, pg.mem[..], pg.runs, t')
    ensures ok ==> HasTable(t, level, vaddr, t') && f' == FrameAt(t', level - 1, KeyOf(vaddr))
    ensures ok <==> Missing(t, level, vaddr) <= Spare(old(pg.desc[..]))
    ensures Spare(pg.desc[..]) == if ok then Spare(old(pg.desc[..])) - Missing(t, level, vaddr) else 0
    ensures !ok ==> t' == t
  {
    hide Spare, Represents, Denotes, Vpn2, Vpn1, EntryAt;
    ok, t' := Grow(pg, f, level, vaddr, t);
    f' := f;
    if ok {
      var e := Load(pg, f, level, vaddr, t');
      BranchThere(pg.allocStart, t', level, vaddr);
      f' := NextFrame(pg.allocStart, e);
    }
  }

  lemma {:induction false} LeafHolds(mem: seq<Frame>, mem': seq<Frame>, base: nat, runs: Runs, t: Tree, v: nat, e: Word)
    requires Represents(mem, base, t) && Owns(runs, t) && LeafWord(e) && (Vpn2(v), Vpn1(v)) in t.l0
    requires var g := t.l0[(Vpn2(v), Vpn1(v))]; WordSet(mem, mem', g, Vpn0(v), e) && SameBut(mem, mem', g, g)
    ensures Represents(mem', base, SetLeaf(t, KeyOf(v), e)) && Owns(runs, SetLeaf(t, KeyOf(v), e))
    ensures KeepsRest(mem, mem', t)
  {
    SetLeafHolds(mem, mem', base, t, KeyOf(v), e);
    assert t.l0[(Vpn2(v), Vpn1(v))] in Tables(t);
  }

  /** Writes the leaf entry for vaddr into its level-0 table. */
  method StoreLeaf(pg: Pages, f: nat, vaddr: nat, e: Word, ghost t: Tree)
    requires Mapped(pg, t) && LeafWord(e)
    requires (Vpn2(vaddr), Vpn1(vaddr)) in t.l0 && f == t.l0[(Vpn2(vaddr), Vpn1(vaddr))]
    modifies pg.mem
    ensures Mapped(pg, SetLeaf(t, KeyOf(vaddr), e)) && KeepsRest(old(pg.mem[..]), pg.mem[..], t)
  {
    ghost var mem := pg.mem[..];
    StoreWord(pg, f, Vpn(vaddr, 0), e);
    LeafHolds(mem, pg.mem[..], pg.allocStart, pg.runs, t, vaddr, e);
  }

  function Mids(vs: seq<nat>): set<nat> { set v | v in vs :: Vpn2(v) }

  function Lows(vs: seq<nat>): set<Key2> { set v | v in vs :: (Vpn2(v), Vpn1(v)) }

  /** How many tables t lacks for mapping all of these addresses. */
  function NewTables(t: Tree, vs: seq<nat>): nat
  {
    |Mids(vs) - t.l1.Keys| + |Lows(vs) - t.l0.Keys|
  }

  lemma {:induction false} LackingOne<T>(x: T, have: set<T>)
    ensures |{x} - have| == if x in have then 0 else 1
  {
    assert {x} - have == if x in have then {} else {x};
  }

  lemma {:induction false} LackingMore<T>(a: set<T>, b: set<T>, have: set<T>)
    ensures |a + b - have| == |a - have| + |b - (have + a)|
  {
    assert a + b - have == (a - have) + (b - (have + a));
  }

  lemma {:induction false} KeysOfOne(v: nat)
    ensures Mids([v]) == {Vpn2(v)} && Lows([v]) == {(Vpn2(v), Vpn1(v))}
  {
    hide Vpn2, Vpn1;
    assert forall x <- [v] :: x == v;
    assert v in [v];
  }

  lemma {:induction false} KeysOfMore(vs: seq<nat>, v: nat)
    ensures Mids(vs + [v]) == Mids(vs) + Mids([v]) && Lows(vs + [v]) == Lows(vs) + Lows([v])
  {
    hide Vpn2, Vpn1;
    assert forall x :: x in vs + [v] <==> x in vs || x in [v];
  }

  lemma {:induction false} NewTablesOne(t: Tree, v: nat)
    ensures NewTables(t, [v]) == Missing(t, 2, v) + Missing(t, 1, v)
    ensures Mids([v]) == {Vpn2(v)} && Lows([v]) == {(Vpn2(v), Vpn1(v))}
  {
    hide Vpn2, Vpn1;
    KeysOfOne(v);
    LackingOne(Vpn2(v), t.l1.Keys);
    LackingOne((Vpn2(v), Vpn1(v)), t.l0.Keys);
  }

  /** The tables for a sequence of addresses are those for all but the last, then those still lacking for it. */
  lemma {:induction false} NewTablesPush(t: Tree, u: Tree, vs: seq<nat>, v: nat)
    requires u.l1.Keys == t.l1.Keys + Mids(vs) && u.l0.Keys == t.l0.Keys + Lows(vs)
    ensures NewTables(t, vs + [v]) == NewTables(t, vs) + NewTables(u, [v])
    ensures Mids(vs + [v]) == Mids(vs) + Mids([v]) && Lows(vs + [v]) == Lows(vs) + Lows([v])
  {
    hide Mids, Lows;
    KeysOfMore(vs, v);
    LackingMore(Mids(vs), Mids([v]), t.l1.Keys);
    LackingMore(Lows(vs), Lows([v]), t.l0.Keys);
  }

  /**
   map at level 0. ok is false when a table page could not be had (the original then goes on
   with address 0), which is so exactly when fewer pages are free than tables are lacking;
   otherwise exactly the leaf of vaddr's page is set.
   */
  method Map(pg: Pages, root: nat, vaddr: nat, paddr: nat, bits: nat, ghost t: Tree) returns (ok: bool, ghost t': Tree)
    requires Mapped(pg, t) && t.root == root && LeafBits(bits)
    modifies pg`runs, pg.desc, pg.mem
    ensures Mapped(pg, t') && t'.root == root
    ensures t'.leaves == if ok then t.leaves[KeyOf(vaddr) := LeafEntry(paddr, bits)] else t.leaves
    ensures Others(pg.runs, t') == Others(old(pg.runs), t) && KeepsRest(old(pg.mem[..]), pg.mem[..], t')
    ensures Tables(t) <= Tables(t')
    ensures Kept(Data(old(pg.runs), t), old(pg.mem[..]), pg.runs, pg.mem[..]) && Data(pg.runs, t') == Data(old(pg.runs), t)
    ensures ok <==> NewTables(t, [vaddr]) <= Spare(old(pg.desc[..]))
    ensures Spare(pg.desc[..]) == if ok then Spare(old(pg.desc[..])) - NewTables(t, [vaddr]) else 0
    ensures ok ==> t'.l1.Keys == t.l1.Keys + Mids([vaddr]) && t'.l0.Keys == t.l0.Keys + Lows([vaddr])
  {
    hide Spare, NewTables, Vpn2, Vpn1;
    NewTablesOne(t, vaddr);
    t' := t;
    var f := root;
    for i := 2 downto 0
      invariant Mapped(pg, t') && Grown(old(pg.mem[..]), old(pg.runs), t, pg.mem[..], pg.runs, t')
      invariant i < 2 ==> Vpn2(vaddr) in t'.l1
      invariant i < 1 ==> (Vpn2(vaddr), Vpn1(vaddr)) in t'.l0
      invariant f == FrameAt(t', i, KeyOf(vaddr))
      invariant Spare(pg.desc[..]) == Spare(old(pg.desc[..])) - (if i < 2 then Missing(t, 2, vaddr) else 0)
                                      - (if i < 1 then Missing(t, 1, vaddr) else 0)
      invariant t'.l1.Keys == t.l1.Keys + (if i < 2 then {Vpn2(vaddr)} else {})
      invariant t'.l0.Keys == t.l0.Keys + (if i < 1 then {(Vpn2(vaddr), Vpn1(vaddr))} else {})
    {
      ghost var mid, runs, u := pg.mem[..], pg.runs, t';
      ok, f, t' := Descend(pg, f, i + 1, vaddr, t');
      GrownTrans(old(pg.mem[..]), old(pg.runs), t, mid, runs, u, pg.mem[..], pg.runs, t');
      if !ok {
        TablesKeepData(pg.desc[..], old(pg.runs), t, old(pg.mem[..]), pg.runs, t', pg.mem[..]);
        return;
      }
    }
    ghost var mid, u := pg.mem[..], t';
    LeafDecodes(paddr, bits);
    StoreLeaf(pg, f, vaddr, LeafEntry(paddr, bits), t');
    t' := SetLeaf(t', KeyOf(vaddr), LeafEntry(paddr, bits));
    KeepsRestTrans(old(pg.mem[..]), mid, pg.mem[..], u, t');
    TablesKeepData(pg.desc[..], old(pg.runs), t, old(pg.mem[..]), pg.runs, t', pg.mem[..]);
    ok := true;
  }

  /** Where only tables have been added and written, every other allocation is kept. */
  lemma {:induction false} TablesKeepData(d: seq<bv8>, runs: Runs, t: Tree, mem: seq<Frame>, runs': Runs, t': Tree, mem': seq<Frame>)
    requires Denotes(d, runs') && Owns(runs', t') && t'.root == t.root
    requires Others(runs', t') == Others(runs, t) && KeepsRest(mem, mem', t')
    ensures Kept(Data(runs, t), mem, runs', mem') && Data(runs', t') == Data(runs, t)
  {
    hide Tables;
    forall s | s in Data(runs, t) ensures s in Others(runs', t') && s in runs' && runs'[s] == Data(runs, t)[s] {
      assert s in Others(runs, t);
    }
    forall s: nat, g: nat | InRun(Data(runs, t), s, g) && g < |mem| ensures mem'[g] == mem[g] {
      assert s in Others(runs', t') && s !in Tables(t') && s != t'.root;
      assert forall f :: f in Tables(t') + {t'.root} ==> f in runs' && runs'[f] == 1 && f != s;
    }
  }

  lemma {:induction false} KeepsRestTrans(mem: seq<Frame>, mid: seq<Frame>, mem': seq<Frame>, t: Tree, t': Tree)
    requires KeepsRest(mem, mid, t) && KeepsRest(mid, mem', t') && Tables(t) <= Tables(t') && t.root == t'.root
    ensures KeepsRest(mem, mem', t')
  {
  }

  lemma {:induction false} BranchThere(base: nat, t: Tree, level: nat, v: nat)
    requires base % 4096 == 0 && 1 <= level <= 2 && Vpn2(v) in t.l1
    requires level == 1 ==> (Vpn2(v), Vpn1(v)) in t.l0
    ensures NextFrame(base, EntryAt(base, t, level, KeyOf(v))) == FrameAt(t, level - 1, KeyOf(v))
  {
    BranchFrame(base, t.l1[Vpn2(v)]);
    if level == 1 { BranchFrame(base, t.l0[(Vpn2(v), Vpn1(v))]); }
  }

  // ---------------------------------------------------------------- unmap

  /** Entry e is the pointer to the table in frame f if there is one, and empty otherwise. */
  predicate Points(base: nat, e: nat, there: bool, f: nat)
  {
    if there then IsValid(e) && !IsLeaf(e) && NextFrame(base, e) == f && TableAddr(e) == base + PAGE_SIZE * f
    else !IsValid(e)
  }

  lemma {:induction false} EntryPoints(base: nat, f: nat)
    requires base % 4096 == 0
    ensures Points(base, Branch(base, f), true, f) && Points(base, 0, false, f)
  {
    BranchDecodes(base + PAGE_SIZE * f);
  }

  method LoadRoot(pg: Pages, root: nat, i: nat, ghost t: Tree) returns (e: Word)
    requires pg.Valid() && Represents(pg.mem[..], pg.allocStart, t) && root == t.root && i < 512
    ensures Points(pg.allocStart, e, i in t.l1, if i in t.l1 then t.l1[i] else 0)
  {
    EntryPoints(pg.allocStart, if i in t.l1 then t.l1[i] else 0);
    e := pg.mem[root][i];
  }

  method LoadMid(pg: Pages, f: nat, ghost a: nat, i: nat, ghost t: Tree) returns (e: Word)
    requires pg.Valid() && Represents(pg.mem[..], pg.allocStart, t) && a in t.l1 && f == t.l1[a] && i < 512
    ensures Points(pg.allocStart, e, (a, i) in t.l0, if (a, i) in t.l0 then t.l0[(a, i)] else 0)
  {
    EntryPoints(pg.allocStart, if (a, i) in t.l0 then t.l0[(a, i)] else 0);
    e := pg.mem[f][i];
  }

  /** Frees the table in frame f, one of t's that is not among those already freed. */
  method FreeTable(pg: Pages, addr: nat, ghost f: nat, ghost runs: Runs, ghost done: set<nat>, ghost t: Tree)
    requires pg.Valid() && Owns(runs, t) && pg.runs == runs - done
    requires f in Tables(t) && f !in done && addr == pg.Addr(f)
    modifies pg`runs, pg.desc
    ensures pg.Valid() && pg.runs == runs - (done + {f})
    ensures pg.mem[..] == old(pg.mem[..])
  {
    pg.Dealloc(addr, f);
  }

  /** Frees the level-0 tables below one level-1 table. */
  method UnmapTable(pg: Pages, f: nat, ghost runs: Runs, ghost t: Tree, ghost n: nat)
    requires pg.Valid() && Represents(pg.mem[..], pg.allocStart, t) && Owns(runs, t)
    requires pg.runs == runs - Done(t, n, 0) && n in t.l1 && f == t.l1[n]
    modifies pg`runs, pg.desc
    ensures pg.Valid() && pg.mem[..] == old(pg.mem[..]) && pg.runs == runs - Done(t, n, 512)
  {
    ghost var mem := pg.mem[..];
    for lv1 := 0 to 512
      invariant pg.Valid() && pg.mem[..] == mem && pg.runs == runs - Done(t, n, lv1)
    {
      var e := LoadMid(pg, f, n, lv1, t);
      DoneLow(t, n, lv1);
      if IsValid(e) && !IsLeaf(e) {
        FreeTable(pg, TableAddr(e), t.l0[(n, lv1)], runs, Done(t, n, lv1), t);
      }
    }
  }

  /** unmap: frees every table below the root exactly once, and nothing else. */
  method Unmap(pg: Pages, root: nat, ghost t: Tree)
    requires Mapped(pg, t) && t.root == root
    modifies pg`runs, pg.desc
    ensures pg.Valid() && pg.runs == Others(old(pg.runs), t)
  {
    ghost var mem, runs := pg.mem[..], pg.runs;
    DoneStart(t);
    for lv2 := 0 to 512
      invariant pg.Valid() && pg.mem[..] == mem && pg.runs == runs - Done(t, lv2, 0)
    {
      var e := LoadRoot(pg, root, lv2, t);
      DoneMid(t, lv2);
      if IsValid(e) && !IsLeaf(e) {
        UnmapTable(pg, NextFrame(pg.allocStart, e), runs, t, lv2);
        FreeTable(pg, TableAddr(e), t.l1[lv2], runs, Done(t, lv2, 512), t);
      }
    }
    DoneAll(t);
  }

  // ---------------------------------------------------------------- sequences of map calls

  datatype MapCall = MapCall(vaddr: nat, paddr: nat, bits: nat)

  /** What map asserts of its callers: each call asks for at least one permission. */
  predicate Permitted(calls: seq<MapCall>)
  {
    forall i :: 0 <= i < |calls| ==> LeafBits(calls[i].bits)
  }

  predicate Sound(calls: seq<MapCall>)
  {
    Permitted(calls) && forall i :: 0 <= i < |calls| ==> calls[i].paddr < PHYS_LIMIT
  }

  function Addresses(calls: seq<MapCall>): seq<nat>
  {
    seq(|calls|, i requires 0 <= i < |calls| => calls[i].vaddr)
  }

  /** Address bits 38:12. */
  function PageNumber(v: nat): nat { v / 0x1000 % 0x800_0000 }

  /** The finite map a sequence of map calls stands for: virtual page to physical page. */
  function PageMap(calls: seq<MapCall>): map<nat, nat>
  {
    if calls == [] then map[]
    else
      var c := calls[|calls| - 1];
      PageMap(calls[..|calls| - 1])[PageNumber(c.vaddr) := c.paddr / 0x1000]
  }

  function Lookup(m: map<nat, nat>, vaddr: nat): Option<nat>
  {
    if PageNumber(vaddr) in m then Some(m[PageNumber(vaddr)] * 4096 + vaddr % 4096) else None
  }

  function WithLeaves(leaves: map<Key3, nat>, calls: seq<MapCall>): map<Key3, nat>
  {
    if calls == [] then leaves
    else
      var c := calls[|calls| - 1];
      WithLeaves(leaves, calls[..|calls| - 1])[KeyOf(c.vaddr) := LeafEntry(c.paddr, c.bits)]
  }

  function LeafLookup(leaves: map<Key3, nat>, vaddr: nat): Option<nat>
  {
    if KeyOf(vaddr) in leaves then Some(leaves[KeyOf(vaddr)] / 1024 * 4096 + vaddr % 4096) else None
  }

  /** Call j is the last one for the page of v. */
  ghost predicate IsLast(calls: seq<MapCall>, v: nat, j: nat)
  {
    && j < |calls| && PageNumber(calls[j].vaddr) == PageNumber(v)
    && forall k :: j < k < |calls| ==> PageNumber(calls[k].vaddr) != PageNumber(v)
  }

  /** None of the calls is for the page of v. */
  ghost predicate Avoided(calls: seq<MapCall>, v: nat)
  {
    forall k :: 0 <= k < |calls| ==> PageNumber(calls[k].vaddr) != PageNumber(v)
  }

  lemma {:induction false} KeyIsPage(u: nat, v: nat)
    ensures KeyOf(u) == KeyOf(v) <==> PageNumber(u) == PageNumber(v)
  {
    VpnsArePage(u, v);
  }

  /** Calls for other pages leave the leaf of v alone. */
  lemma {:induction false} AvoidedKeeps(leaves: map<Key3, nat>, calls: seq<MapCall>, v: nat)
    requires Avoided(calls, v)
    ensures var after := WithLeaves(leaves, calls);
            (KeyOf(v) in after <==> KeyOf(v) in leaves) && (KeyOf(v) in leaves ==> after[KeyOf(v)] == leaves[KeyOf(v)])
  {
    hide PageNumber, KeyOf, LeafEntry;
    if calls != [] {
      var n := |calls| - 1;
      AvoidedKeeps(leaves, calls[..n], v);
      KeyIsPage(calls[n].vaddr, v);
      assert PageNumber(calls[n].vaddr) != PageNumber(v);
    }
  }

  /** The last call for a page is the one whose entry is there. */
  lemma {:induction false} LastCallWins(leaves: map<Key3, nat>, calls: seq<MapCall>, v: nat, j: nat)
    requires IsLast(calls, v, j)
    ensures var after := WithLeaves(leaves, calls);
            KeyOf(v) in after && after[KeyOf(v)] == LeafEntry(calls[j].paddr, calls[j].bits)
  {
    hide PageNumber, KeyOf, LeafEntry;
    var n := |calls| - 1;
    KeyIsPage(calls[n].vaddr, v);
    if j < n {
      assert PageNumber(calls[n].vaddr) != PageNumber(v);
      LastCallWins(leaves, calls[..n], v, j);
    }
  }

  lemma {:induction false} WithLeavesJoin(leaves: map<Key3, nat>, a: seq<MapCall>, b: seq<MapCall>)
    ensures WithLeaves(leaves, a + b) == WithLeaves(WithLeaves(leaves, a), b)
  {
    hide KeyOf, LeafEntry;
    if b == [] {
      assert a + b == a;
    } else {
      var n := |b| - 1;
      assert (a + b)[..|a + b| - 1] == a + b[..n];
      WithLeavesJoin(leaves, a, b[..n]);
    }
  }

  /** What a lookup gives where the last call for the page was c: its physical page, in 44 bits, with the offset kept. */
  lemma {:induction false} LookupOfLast(leaves: map<Key3, nat>, c: MapCall, v: nat)
    requires LeafBits(c.bits) && KeyOf(v) in leaves && leaves[KeyOf(v)] == LeafEntry(c.paddr, c.bits)
    ensures LeafLookup(leaves, v) == Some(c.paddr / 0x1000 % TWO_44 * 4096 + v % 4096)
  {
    hide LeafEntry, KeyOf;
    LeafDecodes(c.paddr, c.bits);
  }

  lemma {:induction false} LookupStep(leaves: map<Key3, nat>, m: map<nat, nat>, c: MapCall, e: nat, vaddr: nat)
    requires LeafLookup(leaves, vaddr) == Lookup(m, vaddr)
    requires e / 1024 == c.paddr / 0x1000
    ensures LeafLookup(leaves[KeyOf(c.vaddr) := e], vaddr) == Lookup(m[PageNumber(c.vaddr) := c.paddr / 0x1000], vaddr)
  {
    VpnsArePage(c.vaddr, vaddr);
    assert KeyOf(c.vaddr) == KeyOf(vaddr) <==> PageNumber(c.vaddr) == PageNumber(vaddr);
  }

  lemma {:induction false} PhysFits(paddr: nat)
    requires paddr < PHYS_LIMIT
    ensures paddr / 0x1000 % TWO_44 == paddr / 0x1000
  {
  }

  /** Looking an address up in the leaves is looking its page up in the finite map. */
  lemma {:induction false} LeavesArePageMap(calls: seq<MapCall>, vaddr: nat)
    requires Sound(calls)
    ensures LeafLookup(WithLeaves(map[], calls), vaddr) == Lookup(PageMap(calls), vaddr)
  {
    if calls != [] {
      var c, rest := calls[|calls| - 1], calls[..|calls| - 1];
      LeavesArePageMap(rest, vaddr);
      LeafDecodes(c.paddr, c.bits);
      PhysFits(c.paddr);
      LookupStep(WithLeaves(map[], rest), PageMap(rest), c, LeafEntry(c.paddr, c.bits), vaddr);
    }
  }

  /** ok exactly when there is a free page for every table lacking; each takes one. */
  method MapAll(pg: Pages, root: nat, calls: seq<MapCall>, ghost t: Tree) returns (ok: bool, ghost t': Tree)
    requires Mapped(pg, t) && t.root == root && Permitted(calls)
    modifies pg`runs, pg.desc, pg.mem
    ensures Mapped(pg, t') && t'.root == root
    ensures ok ==> t'.leaves == WithLeaves(t.leaves, calls)
    ensures Others(pg.runs, t') == Others(old(pg.runs), t)
    ensures KeepsRest(old(pg.mem[..]), pg.mem[..], t') && Tables(t) <= Tables(t')
    ensures Kept(Data(old(pg.runs), t), old(pg.mem[..]), pg.runs, pg.mem[..]) && Data(pg.runs, t') == Data(old(pg.runs), t)
    ensures ok <==> NewTables(t, Addresses(calls)) <= Spare(old(pg.desc[..]))
    ensures Spare(pg.desc[..]) == if ok then Spare(old(pg.desc[..])) - NewTables(t, Addresses(calls)) else 0
    ensures ok ==> t'.l1.Keys == t.l1.Keys + Mids(Addresses(calls)) && t'.l0.Keys == t.l0.Keys + Lows(Addresses(calls))
    decreases |calls|
  {
    hide Mapped, Others, Data, Kept, KeepsRest, Spare, NewTables, Mids, Lows;
    ok, t' := true, t;
    ghost var mem, runs := pg.mem[..], pg.runs;
    if calls == [] {
      NewTablesNone(t);
      NothingMapped(runs, t, mem);
      assert Addresses(calls) == [];
    } else {
      var n := |calls| - 1;
      ok, t' := MapAll(pg, root, calls[..n], t);
      assert Addresses(calls) == Addresses(calls[..n]) + [calls[n].vaddr];
      if ok {
        ghost var u, mem1, runs1 := t', pg.mem[..], pg.runs;
        NewTablesPush(t, t', Addresses(calls[..n]), calls[n].vaddr);
        ok, t' := Map(pg, root, calls[n].vaddr, calls[n].paddr, calls[n].bits, t');
        KeepsRestTrans(mem, mem1, pg.mem[..], u, t');
        KeptTrans(Data(runs, t), mem, runs1, mem1, pg.runs, pg.mem[..]);
      } else {
        NewTablesGrow(t, Addresses(calls[..n]), calls[n].vaddr);
      }
    }
  }

  lemma {:induction false} NothingMapped(runs: Runs, t: Tree, mem: seq<Frame>)
    ensures KeepsRest(mem, mem, t) && Kept(Data(runs, t), mem, runs, mem)
  {
  }

  lemma {:induction false} NewTablesNone(t: Tree)
    ensures NewTables(t, []) == 0 && Mids([]) == {} && Lows([]) == {}
  {
    hide Vpn2, Vpn1;
    assert Mids([]) - t.l1.Keys == {};
    assert Lows([]) - t.l0.Keys == {};
  }

  lemma {:induction false} NewTablesPrefix(t: Tree, vs: seq<nat>, n: nat)
    requires n <= |vs|
    ensures NewTables(t, vs[..n]) <= NewTables(t, vs)
    decreases |vs| - n
  {
    hide NewTables;
    if n == |vs| {
      assert vs[..n] == vs;
    } else {
      assert vs[..n + 1] == vs[..n] + [vs[n]];
      NewTablesGrow(t, vs[..n], vs[n]);
      NewTablesPrefix(t, vs, n + 1);
    }
  }

  lemma {:induction false} NewTablesGrow(t: Tree, vs: seq<nat>, v: nat)
    ensures NewTables(t, vs + [v]) >= NewTables(t, vs)
  {
    hide Mids, Lows;
    KeysOfMore(vs, v);
    LackingMore(Mids(vs), Mids([v]), t.l1.Keys);
    LackingMore(Lows(vs), Lows([v]), t.l0.Keys);
  }

  /** An address space for these addresses: the root and one table per distinct VPN[2] and per distinct VPN[2], VPN[1]. */
  function SpaceSize(vs: seq<nat>): nat { 1 + |Mids(vs)| + |Lows(vs)| }

  lemma {:induction false} SpaceIsRootAndTables(root: nat, vs: seq<nat>)
    ensures SpaceSize(vs) == 1 + NewTables(EmptyTree(root), vs)
  {
    assert Mids(vs) - {} == Mids(vs);
    assert Lows(vs) - {} == Lows(vs);
  }

  lemma {:induction false} ZeroedRoot(mem: seq<Frame>, base: nat, root: nat)
    requires root < |mem| && mem[root] == ZeroFrame
    ensures Represents(mem, base, EmptyTree(root)) && Tables(EmptyTree(root)) == {}
  {
  }

  lemma {:induction false} RootGoneIsRestored(runs: Runs, root: nat)
    requires root !in runs
    ensures Others(runs[root := 1], EmptyTree(root)) - {root} == runs
  {
    assert Tables(EmptyTree(root)) == {};
  }

  /** Takes a zeroed page as an empty root table. */
  method NewRoot(pg: Pages) returns (page: nat, root: nat)
    requires pg.Valid() && 0 < pg.desc.Length
    modifies pg`runs, pg.desc, pg.mem
    ensures page != 0 ==> Mapped(pg, EmptyTree(root)) && page == pg.Addr(root)
    ensures page != 0 ==> root !in old(pg.runs) && pg.runs == old(pg.runs)[root := 1]
    ensures page == 0 ==> pg.runs == old(pg.runs) && pg.desc[..] == old(pg.desc[..])
    ensures pg.Valid() && Kept(old(pg.runs), old(pg.mem[..]), pg.runs, pg.mem[..])
    ensures page != 0 <==> 0 < Spare(old(pg.desc[..]))
    ensures page != 0 ==> Took(old(pg.desc[..]), pg.desc[..], root, 1)
    ensures Spare(pg.desc[..]) == if page != 0 then Spare(old(pg.desc[..])) - 1 else 0
  {
    hide Spare, Took, Kept;
    ghost var i;
    page, i := ZeroedPage(pg);
    root := 0;
    if page != 0 {
      root := (page - pg.allocStart) / PAGE_SIZE;
      ZeroedRoot(pg.mem[..], pg.allocStart, root);
    }
  }

  /** Taking a root and mapping through it keeps everything there was before. */
  lemma {:induction false} RootKeeps(runs: Runs, mem: seq<Frame>, runs1: Runs, mem1: seq<Frame>, root: nat, runs': Runs, mem': seq<Frame>)
    requires root !in runs && runs1 == runs[root := 1] && Kept(runs, mem, runs1, mem1)
    requires Kept(Data(runs1, EmptyTree(root)), mem1, runs', mem')
    ensures Kept(runs, mem, runs', mem')
  {
    assert Tables(EmptyTree(root)) == {};
    KeptLess(runs, Data(runs1, EmptyTree(root)), mem1, runs', mem');
    KeptTrans(runs, mem, runs1, mem1, runs', mem');
  }

  lemma {:induction false} KeptBack(runs: Runs, mem: seq<Frame>, runs': Runs, mem': seq<Frame>)
    requires Kept(runs, mem, runs', mem')
    ensures Kept(runs, mem, runs, mem')
  {
  }

  /** Frees all tables of an address space, root last. */
  method FreeSpace(pg: Pages, page: nat, root: nat, ghost t: Tree)
    requires Mapped(pg, t) && t.root == root && page == pg.Addr(root)
    modifies pg`runs, pg.desc
    ensures pg.Valid() && pg.runs == Others(old(pg.runs), t) - {root}
  {
    assert root in pg.runs && root !in Tables(t);
    Unmap(pg, root, t);
    pg.Dealloc(page, root);
  }

  /** The word in memory that a walk for vaddr ends at is a leaf entry with the flags asked for. */
  ghost predicate WordHasFlags(mem: seq<Frame>, t: Tree, vaddr: nat, bits: nat)
  {
    && (Vpn2(vaddr), Vpn1(vaddr)) in t.l0 && t.l0[(Vpn2(vaddr), Vpn1(vaddr))] < |mem|
    && HasFlags(mem[t.l0[(Vpn2(vaddr), Vpn1(vaddr))]][Vpn0(vaddr)], bits)
  }

  /** It has those of the last call for its page. */
  ghost predicate FlagsOfLast(mem: seq<Frame>, t: Tree, calls: seq<MapCall>, vaddr: nat)
  {
    forall j: nat :: IsLast(calls, vaddr, j) ==> WordHasFlags(mem, t, vaddr, calls[j].bits)
  }

  lemma {:induction false} LeavesHaveFlags(mem: seq<Frame>, base: nat, t: Tree, calls: seq<MapCall>, vaddr: nat)
    requires Represents(mem, base, t) && Permitted(calls) && t.leaves == WithLeaves(map[], calls)
    ensures FlagsOfLast(mem, t, calls, vaddr)
  {
    hide Represents, WithLeaves, WordHasFlags;
    forall j: nat | IsLast(calls, vaddr, j) ensures WordHasFlags(mem, t, vaddr, calls[j].bits) {
      LastWordHasFlags(mem, base, t, calls, vaddr, j);
    }
  }

  lemma {:induction false} LastWordHasFlags(mem: seq<Frame>, base: nat, t: Tree, calls: seq<MapCall>, vaddr: nat, j: nat)
    requires Represents(mem, base, t) && Permitted(calls) && t.leaves == WithLeaves(map[], calls) && IsLast(calls, vaddr, j)
    ensures WordHasFlags(mem, t, vaddr, calls[j].bits)
  {
    hide HasFlags, LeafEntry, Vpn0, Vpn1, Vpn2, RootHolds, MidHolds, Separate;
    LastCallWins(map[], calls, vaddr, j);
    LeafHasFlags(calls[j].paddr, calls[j].bits);
  }

  /**
   A root table taken from the allocator, then any sequence of map calls: translating an
   address afterwards is looking its page up in the finite map of the calls, last one first.
   All of it succeeds exactly when there are as many free pages as tables are needed. The
   entry found has the flags of the last call for its page.
   */
  method MapThenTranslate(pg: Pages, calls: seq<MapCall>, vaddr: nat) returns (ok: bool, r: Option<nat>, ghost t: Tree)
    requires pg.Valid() && 0 < pg.desc.Length && Sound(calls)
    modifies pg`runs, pg.desc, pg.mem
    ensures ok <==> SpaceSize(Addresses(calls)) <= Spare(old(pg.desc[..]))
    ensures ok ==> r == Lookup(PageMap(calls), vaddr)
    ensures ok ==> Mapped(pg, t) && FlagsOfLast(pg.mem[..], t, calls, vaddr)
    ensures Kept(old(pg.runs), old(pg.mem[..]), pg.runs, pg.mem[..])
  {
    hide Spare, NewTables, Kept, Data, WithLeaves, KeepsRest, FlagsOfLast, Represents, Denotes, Owns, LeafLookup, Lookup;
    ghost var mem0, runs0 := pg.mem[..], pg.runs;
    var page, root := NewRoot(pg);
    SpaceIsRootAndTables(root, Addresses(calls));
    ok, r, t := false, None, EmptyTree(root);
    if page != 0 {
      ghost var mem1, runs1 := pg.mem[..], pg.runs;
      ok, t := MapAll(pg, root, calls, EmptyTree(root));
      RootKeeps(runs0, mem0, runs1, mem1, root, pg.runs, pg.mem[..]);
      if ok {
        LeavesArePageMap(calls, vaddr);
        LeavesHaveFlags(pg.mem[..], pg.allocStart, t, calls, vaddr);
        r := VirtToPhys(pg, root, vaddr, t);
      }
    }
  }

  /**
   Taking a root table, mapping anything through it, unmapping it and freeing the root gives
   back the descriptor table there was before, also when memory ran out on the way.
   */
  method MapThenUnmap(pg: Pages, calls: seq<MapCall>) returns (ok: bool)
    requires pg.Valid() && 0 < pg.desc.Length && Permitted(calls)
    modifies pg`runs, pg.desc, pg.mem
    ensures ok <==> SpaceSize(Addresses(calls)) <= Spare(old(pg.desc[..]))
    ensures pg.Valid() && pg.runs == old(pg.runs) && pg.desc[..] == old(pg.desc[..])
    ensures Kept(old(pg.runs), old(pg.mem[..]), pg.runs, pg.mem[..])
  {
    hide Spare, NewTables, Kept, Data, KeepsRest;
    ghost var desc, runs, mem := pg.desc[..], pg.runs, pg.mem[..];
    var page, root := NewRoot(pg);
    SpaceIsRootAndTables(root, Addresses(calls));
    ok := page != 0;
    if ok {
      ghost var t;
      ghost var mem1, runs1 := pg.mem[..], pg.runs;
      ok, t := MapAll(pg, root, calls, EmptyTree(root));
      RootKeeps(runs, mem, runs1, mem1, root, pg.runs, pg.mem[..]);
      ghost var runs2 := pg.runs;
      FreeSpace(pg, page, root, t);
      RootGoneIsRestored(runs, root);
      KeptBack(runs, mem, runs2, pg.mem[..]);
      RunsDetermineTable(desc, pg.desc[..], runs);
    }
  }
}
